/** The closed set of size units, their byte multipliers, their canonical
    display suffixes and the upper-case tokens the parser maps to them. */
module Units {
  import opened Results
  import opened Text

  datatype Unit = B | KB | MB | GB | TB | PB | KIB | MIB | GIB | TIB | PIB

  /** The decimal family in increasing order: 1000^0 .. 1000^5. */
  const DecimalUnits: seq<Unit> := [B, KB, MB, GB, TB, PB]

  /** The binary family in increasing order: 1024^0 .. 1024^5. */
  const BinaryUnits: seq<Unit> := [B, KIB, MIB, GIB, TIB, PIB]

  predicate IsDecimal(u: Unit) {
    u in DecimalUnits
  }

  /** Bytes per unit, written out as fixed constants. */
  function Multiplier(u: Unit): (m: nat)
    ensures m >= 1
  {
    match u
    case B => 1
    case KB => 1_000
    case MB => 1_000_000
    case GB => 1_000_000_000
    case TB => 1_000_000_000_000
    case PB => 1_000_000_000_000_000
    case KIB => 1_024
    case MIB => 1_048_576
    case GIB => 1_073_741_824
    case TIB => 1_099_511_627_776
    case PIB => 1_125_899_906_842_624
  }

  function Pow(base: nat, n: nat): nat {
    if n == 0 then 1 else base * Pow(base, n - 1)
  }

  /** The i-th decimal unit is 1000^i bytes and the i-th binary unit is
      1024^i bytes. */
  lemma MultipliersArePowers(i: nat)
    requires i < 6
    ensures Multiplier(DecimalUnits[i]) == Pow(1000, i)
    ensures Multiplier(BinaryUnits[i]) == Pow(1024, i)
  {
    assert Pow(1000, 1) == 1000 && Pow(1024, 1) == 1024;
    assert Pow(1000, 2) == 1000 * 1000 && Pow(1024, 2) == 1024 * 1024;
    assert Pow(1000, 3) == 1000 * Pow(1000, 2) && Pow(1024, 3) == 1024 * Pow(1024, 2);
    assert Pow(1000, 4) == 1000 * Pow(1000, 3) && Pow(1024, 4) == 1024 * Pow(1024, 3);
    assert Pow(1000, 5) == 1000 * Pow(1000, 4) && Pow(1024, 5) == 1024 * Pow(1024, 4);
  }

  /** Each family strictly increases, each binary unit above B exceeds the
      decimal unit of the same rank (KB = 1000 < KIB = 1024), and distinct
      units have distinct multipliers. */
  lemma MultiplierOrder()
    ensures forall i, j :: 0 <= i < j < 6 ==> Multiplier(DecimalUnits[i]) < Multiplier(DecimalUnits[j])
    ensures forall i, j :: 0 <= i < j < 6 ==> Multiplier(BinaryUnits[i]) < Multiplier(BinaryUnits[j])
    ensures forall i :: 1 <= i < 6 ==> Multiplier(DecimalUnits[i]) < Multiplier(BinaryUnits[i])
    ensures forall u, v :: Multiplier(u) == Multiplier(v) ==> u == v
  {
  }

  /** The text the formatter appends after the number (binary units keep a
      lower-case `i`). */
  function Suffix(u: Unit): string {
    match u
    case B => "B"
    case KB => "KB"
    case MB => "MB"
    case GB => "GB"
    case TB => "TB"
    case PB => "PB"
    case KIB => "KiB"
    case MIB => "MiB"
    case GIB => "GiB"
    case TIB => "TiB"
    case PIB => "PiB"
  }

  /** The upper-case spelling the parser looks a unit token up by. */
  function Token(u: Unit): string {
    match u
    case B => "B"
    case KB => "KB"
    case MB => "MB"
    case GB => "GB"
    case TB => "TB"
    case PB => "PB"
    case KIB => "KIB"
    case MIB => "MIB"
    case GIB => "GIB"
    case TIB => "TIB"
    case PIB => "PIB"
  }

  /** The table lookup of an upper-cased unit token; None where the source
      falls through to its catch-all arm. */
  function UnitOfToken(upper: string): (r: Option<Unit>)
    ensures r.Some? ==> Token(r.value) == upper
    ensures r.None? ==> forall u :: Token(u) != upper
  {
    if upper == "B" then Some(B)
    else if upper == "KB" then Some(KB)
    else if upper == "MB" then Some(MB)
    else if upper == "GB" then Some(GB)
    else if upper == "TB" then Some(TB)
    else if upper == "PB" then Some(PB)
    else if upper == "KIB" then Some(KIB)
    else if upper == "MIB" then Some(MIB)
    else if upper == "GIB" then Some(GIB)
    else if upper == "TIB" then Some(TIB)
    else if upper == "PIB" then Some(PIB)
    else None
  }

  /** The canonical suffix of every unit upper-cases to that unit's token,
      so the parser reads each suffix back as the unit it came from. */
  lemma SuffixNamesUnit(u: Unit)
    ensures UpperString(Suffix(u)) == Token(u)
    ensures UnitOfToken(UpperString(Suffix(u))) == Some(u)
  {
    var s := Suffix(u);
    var r := UpperString(s);
    assert |r| == |Token(u)|;
    forall i | 0 <= i < |r|
      ensures r[i] == Token(u)[i]
    {
    }
  }
}
