/**
 * The shape and the text of a difference report: a summary title, a fixed
 * header, then one line per expected-only ("---") or actual-only ("+++") item.
 *
 * The testing sink (t.Error, t.Log, t.Logf) is modelled as the sequence of
 * entries it would receive. `%q` and `%+v` are parameters (`quote`, `render`).
 */
module DiffReport {

  /** Which side a report line shows: the expected one ("---") or the actual one ("+++"). */
  datatype Side = Exp | Act

  /** The summary: "both N <unit>" when the sizes agree, "exp N, act M <unit>" otherwise. */
  datatype Title = Both(count: nat) | Sizes(exp: nat, act: nat)

  datatype Report<L> = Report(title: Title, lines: seq<L>)

  datatype Option<T> = None | Some(value: T)

  /** One call on the testing sink: t.Error marks the test failed, t.Log/t.Logf only log. */
  datatype Log = Error(text: string) | Info(text: string)

  /** The two sizes a title stands for. */
  function Counts(t: Title): (nat, nat)
  {
    match t
    case Both(n) => (n, n)
    case Sizes(e, a) => (e, a)
  }

  /** The title for `expCount` expected and `actCount` actual entries or lines. */
  function TitleFor(expCount: nat, actCount: nat): (t: Title)
    ensures t.Both? <==> expCount == actCount
    ensures Counts(t) == (expCount, actCount)
  {
    if expCount == actCount then Both(expCount) else Sizes(expCount, actCount)
  }

  const Header: string := "  Difference(expected ---  actual +++)"

  function Marker(side: Side): string
  {
    if side == Exp then "---" else "+++"
  }

  /**
   * The sizes part of a title: "both N <unit>" when they agree, "exp N, act M
   * <unit>" otherwise. Each number is found at its place in the text, as
   * digits that read back as the count.
   */
  function SizesText(t: Title, unit: string): (s: string)
    ensures |s| >= 5 + |unit| && s[|s| - |unit| - 1..] == " " + unit
    ensures t.Both? <==> s[..5] == "both "
    ensures t.Both? ==>
      var d := Decimal(t.count);
      |s| >= 5 + |d| && s[5..5 + |d|] == d && DecimalValue(s[5..5 + |d|]) == t.count
      && s[5 + |d|..] == " " + unit
    ensures t.Sizes? ==>
      var d, e := Decimal(t.exp), Decimal(t.act);
      |s| >= 10 + |d| + |e| && s[..4] == "exp "
      && s[4..4 + |d|] == d && DecimalValue(s[4..4 + |d|]) == t.exp
      && s[4 + |d|..10 + |d|] == ", act "
      && s[10 + |d|..10 + |d| + |e|] == e && DecimalValue(s[10 + |d|..10 + |d| + |e|]) == t.act
      && s[10 + |d| + |e|..] == " " + unit
  {
    match t
    case Both(n) =>
      BothFields(n, unit);
      "both " + Decimal(n) + (" " + unit)
    case Sizes(e, a) =>
      SizesFields(e, a, unit);
      "exp " + Decimal(e) + ", act " + Decimal(a) + (" " + unit)
  }

  /** Where each field of "both N <unit>" lies, and that the digits read back as N. */
  lemma BothFields(n: nat, unit: string)
    ensures var d := Decimal(n); var s := "both " + d + (" " + unit);
      && |s| >= 5 + |unit| && s[|s| - |unit| - 1..] == " " + unit && s[..5] == "both "
      && |s| >= 5 + |d| && s[5..5 + |d|] == d && DecimalValue(s[5..5 + |d|]) == n
      && s[5 + |d|..] == " " + unit
  {
    var d := Decimal(n);
    DecimalRoundTrip(n);
    ThreeParts("both ", d, " " + unit);
  }

  /** Where each field of "exp N, act M <unit>" lies, and that both numbers read back. */
  lemma SizesFields(e: nat, a: nat, unit: string)
    ensures var de, da := Decimal(e), Decimal(a); var s := "exp " + de + ", act " + da + (" " + unit);
      && |s| >= 5 + |unit| && s[|s| - |unit| - 1..] == " " + unit && s[..5] != "both "
      && |s| >= 10 + |de| + |da| && s[..4] == "exp "
      && s[4..4 + |de|] == de && DecimalValue(s[4..4 + |de|]) == e
      && s[4 + |de|..10 + |de|] == ", act "
      && s[10 + |de|..10 + |de| + |da|] == da && DecimalValue(s[10 + |de|..10 + |de| + |da|]) == a
      && s[10 + |de| + |da|..] == " " + unit
  {
    var de, da := Decimal(e), Decimal(a);
    DecimalRoundTrip(e);
    DecimalRoundTrip(a);
    var head := "exp " + de + ", act ";
    var s := head + da + (" " + unit);
    ThreeParts("exp ", de, ", act ");
    ThreeParts(head, da, " " + unit);
    assert s[..|head|] == head;
    SliceOfPrefix(s, head, 0, 4);
    SliceOfPrefix(s, head, 4, 4 + |de|);
    SliceOfPrefix(s, head, 4 + |de|, 10 + |de|);
    assert s[..5][0] == 'e';
  }

  /** A slice inside a prefix of `s` is the same slice of that prefix. */
  lemma SliceOfPrefix(s: string, prefix: string, i: nat, j: nat)
    requires |prefix| <= |s| && s[..|prefix|] == prefix && i <= j <= |prefix|
    ensures s[i..j] == prefix[i..j]
  {
    assert forall k :: i <= k < j ==> s[k] == s[..|prefix|][k];
  }

  /** A suffix of a suffix of `s` is a suffix of `s`. */
  lemma SuffixOfSuffix(s: string, suffix: string, tail: string)
    requires |suffix| <= |s| && s[|s| - |suffix|..] == suffix
    requires |tail| <= |suffix| && suffix[|suffix| - |tail|..] == tail
    ensures s[|s| - |tail|..] == tail
  {
    assert s[|s| - |tail|..] == s[|s| - |suffix|..][|suffix| - |tail|..];
  }

  /**
   * The title line: the call-site prefix, "Unexpected <name>: ", then the
   * sizes, with `unit` "entries" (maps) or "lines" (sequences).
   */
  function TitleText(prefix: string, name: string, t: Title, unit: string): (s: string)
    ensures |s| > |prefix| + 13 + |name|
    ensures s[..|prefix|] == prefix
    ensures s[|prefix|..|prefix| + 13 + |name|] == "Unexpected " + name + ": "
    ensures s[|prefix| + 13 + |name|..] == SizesText(t, unit)
    ensures |s| > |unit| && s[|s| - |unit| - 1..] == " " + unit
  {
    var lead := "Unexpected " + name + ": ";
    var sizes := SizesText(t, unit);
    assert |lead| == 13 + |name|;
    EndsAfterThreeParts(prefix, lead, sizes, " " + unit);
    prefix + lead + sizes
  }

  /** The three parts of `a + b + c`, and a suffix of `c` is a suffix of the whole. */
  lemma EndsAfterThreeParts(a: string, b: string, c: string, tail: string)
    requires |tail| <= |c| && c[|c| - |tail|..] == tail
    ensures var s := a + b + c;
      && s[..|a|] == a && s[|a|..|a| + |b|] == b && s[|a| + |b|..] == c
      && s[|s| - |tail|..] == tail
  {
    ThreeParts(a, b, c);
    SuffixOfSuffix(a + b + c, c, tail);
  }

  /** What the sink receives for a report: the title as an error, the header, then each line. */
  function RenderReport<L>(prefix: string, name: string, unit: string, r: Report<L>,
                           format: L -> string): (logs: seq<Log>)
    ensures |logs| == |r.lines| + 2
    ensures logs[0] == Error(TitleText(prefix, name, r.title, unit)) && logs[1] == Info(Header)
    ensures forall x :: 0 <= x < |r.lines| ==> logs[x + 2] == Info(format(r.lines[x]))
  {
    [Error(TitleText(prefix, name, r.title, unit)), Info(Header)] +
    seq(|r.lines|, x requires 0 <= x < |r.lines| => Info(format(r.lines[x])))
  }

  // ---- %d and %3d ----

  function Digit(d: nat): char
    requires d < 10
  {
    "0123456789"[d]
  }

  function DigitValue(c: char): nat
  {
    if '0' <= c <= '9' then (c as int - '0' as int) as nat else 0
  }

  predicate IsDigits(s: string)
  {
    forall x :: 0 <= x < |s| ==> '0' <= s[x] <= '9'
  }

  /** The value of a string of decimal digits, most significant first. */
  function DecimalValue(s: string): nat
  {
    if s == [] then 0 else 10 * DecimalValue(s[..|s| - 1]) + DigitValue(s[|s| - 1])
  }

  /** `%d` of a non-negative integer: no sign, no leading zero. */
  function Decimal(n: nat): (s: string)
    ensures |s| >= 1 && IsDigits(s)
    ensures |s| > 1 ==> s[0] != '0'
  {
    if n < 10 then [Digit(n)] else Decimal(n / 10) + [Digit(n % 10)]
  }

  lemma {:induction false} DecimalRoundTrip(n: nat)
    ensures DecimalValue(Decimal(n)) == n
  {
    var s := Decimal(n);
    if n < 10 {
      assert s[..0] == [];
    } else {
      DecimalRoundTrip(n / 10);
      assert s[..|s| - 1] == Decimal(n / 10);
    }
  }

  /** `%3d`-style padding: spaces on the left up to `width`, never truncating. */
  function PadLeft(s: string, width: nat): (r: string)
    ensures |r| == if |s| < width then width else |s|
    ensures r[|r| - |s|..] == s
    ensures forall x :: 0 <= x < |r| - |s| ==> r[x] == ' '
  {
    if |s| >= width then s else seq(width - |s|, _ => ' ') + s
  }

  /** A line made of three fields gives each field back at its place. */
  lemma ThreeParts(a: string, b: string, c: string)
    ensures (a + b + c)[..|a|] == a
    ensures (a + b + c)[|a|..|a| + |b|] == b
    ensures (a + b + c)[|a| + |b|..] == c
  {
  }
}
