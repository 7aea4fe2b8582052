/** The responsive breakpoints of the theme-provider module and the media queries built on them. */
module Breakpoints {

  datatype Key = Xs | Sm | Md | Lg | Xl

  /** `breakpoints[key]`, in pixels. */
  function Width(k: Key): nat {
    match k
    case Xs => 0
    case Sm => 600
    case Md => 900
    case Lg => 1200
    case Xl => 1536
  }

  /** The position of a key in the table, smallest screen first. */
  function Rank(k: Key): nat {
    match k
    case Xs => 0
    case Sm => 1
    case Md => 2
    case Lg => 3
    case Xl => 4
  }

  /** The table grows strictly: a later key always has a wider breakpoint. */
  lemma WidthsIncrease(k1: Key, k2: Key)
    ensures Rank(k1) < Rank(k2) <==> Width(k1) < Width(k2)
    ensures k1 != k2 ==> Width(k1) != Width(k2)
  {
  }

  function Digit(d: nat): char
    requires d < 10
  {
    "0123456789"[d]
  }

  /** The decimal text of a number, as a template literal writes it. */
  function NatToString(n: nat): (s: string)
    ensures |s| >= 1
    ensures forall i :: 0 <= i < |s| ==> '0' <= s[i] <= '9'
    decreases n
  {
    if n < 10 then [Digit(n)] else NatToString(n / 10) + [Digit(n % 10)]
  }

  /** Reads decimal digits back into a number. */
  function ParseNat(s: string): nat
    requires forall i :: 0 <= i < |s| ==> '0' <= s[i] <= '9'
  {
    if s == [] then 0
    else ParseNat(s[..|s| - 1]) * 10 + (s[|s| - 1] as int - '0' as int)
  }

  /** The decimal text of a number reads back as that number. */
  lemma {:induction false} ParseNatToString(n: nat)
    ensures ParseNat(NatToString(n)) == n
    decreases n
  {
    var s := NatToString(n);
    if n < 10 {
      assert s[..0] == [];
    } else {
      ParseNatToString(n / 10);
      assert s[..|s| - 1] == NatToString(n / 10);
    }
  }

  const UpPrefix := "@media (min-width: "
  const DownPrefix := "@media (max-width: "
  const Suffix := "px)"

  /** `${prefix}${breakpoints[key]}px)` */
  function Query(prefix: string, k: Key): string {
    prefix + NatToString(Width(k)) + Suffix
  }

  /** `up(key)` */
  function Up(k: Key): string {
    Query(UpPrefix, k)
  }

  /** `down(key)` */
  function Down(k: Key): string {
    Query(DownPrefix, k)
  }

  /** The width written into a query built as `prefix + digits + "px)"`. */
  function QueryWidth(q: string, prefix: string): nat
    requires |prefix| + |Suffix| <= |q|
    requires forall i :: |prefix| <= i < |q| - |Suffix| ==> '0' <= q[i] <= '9'
  {
    var digits := q[|prefix|..|q| - |Suffix|];
    assert forall i :: 0 <= i < |digits| ==> digits[i] == q[|prefix| + i];
    ParseNat(digits)
  }

  /** A query holds exactly the key's breakpoint between its prefix and `px)`. */
  lemma QueryHoldsWidth(prefix: string, k: Key)
    ensures |prefix| + |Suffix| <= |Query(prefix, k)|
    ensures forall i :: |prefix| <= i < |Query(prefix, k)| - |Suffix| ==> '0' <= Query(prefix, k)[i] <= '9'
    ensures QueryWidth(Query(prefix, k), prefix) == Width(k)
  {
    var q := Query(prefix, k);
    var digits := NatToString(Width(k));
    assert q[|prefix|..|q| - |Suffix|] == digits;
    forall i | |prefix| <= i < |q| - |Suffix|
      ensures '0' <= q[i] <= '9'
    {
      assert q[i] == digits[i - |prefix|];
    }
    ParseNatToString(Width(k));
  }

  /** Different keys give different `up` and different `down` queries. */
  lemma QueriesDistinct(k1: Key, k2: Key)
    requires k1 != k2
    ensures Up(k1) != Up(k2) && Down(k1) != Down(k2)
  {
    QueryHoldsWidth(UpPrefix, k1);
    QueryHoldsWidth(UpPrefix, k2);
    QueryHoldsWidth(DownPrefix, k1);
    QueryHoldsWidth(DownPrefix, k2);
    WidthsIncrease(k1, k2);
  }

  /** Slices of `p + d` that end inside `p`, or start inside it. */
  lemma AppendSlices(p: string, d: string, i: nat, j: nat)
    requires i <= j <= |p|
    ensures (p + d)[i..j] == p[i..j]
    ensures (p + d)[j..] == p[j..] + d
  {
  }

  /** For one key, `up` and `down` are the same text except `min` in place of `max`. */
  lemma UpDownDiffer(k: Key)
    ensures |Up(k)| == |Down(k)|
    ensures Up(k)[..8] == Down(k)[..8] && Up(k)[11..] == Down(k)[11..]
    ensures Up(k)[8..11] == "min" && Down(k)[8..11] == "max"
  {
    var d := NatToString(Width(k)) + Suffix;
    assert Up(k) == UpPrefix + d;
    assert Down(k) == DownPrefix + d;
    AppendSlices(UpPrefix, d, 0, 8);
    AppendSlices(DownPrefix, d, 0, 8);
    AppendSlices(UpPrefix, d, 8, 11);
    AppendSlices(DownPrefix, d, 8, 11);
    assert UpPrefix[..8] == DownPrefix[..8] && UpPrefix[11..] == DownPrefix[11..];
  }
}
