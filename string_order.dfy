/**
 * Go's ordering on strings, as used to sort map keys by their rendering.
 *
 * Go compares strings byte by byte; renderings are UTF-8, whose byte order is
 * the order of the code points, so comparing characters gives the same answer.
 * Dafny's own `<` on sequences means "proper prefix", hence this definition.
 */
module StringOrder {

  /**
   * `a < b` in Go: lexicographic, a proper prefix sorting first. Stated
   * outright: either `a` is a proper prefix of `b`, or at the first position
   * where they differ `a` has the smaller character.
   */
  predicate Less(a: string, b: string): (r: bool)
    ensures r <==> (|a| < |b| && a == b[..|a|]) || FirstDifferenceBelow(a, b)
    decreases |a|
  {
    if |a| == 0 then |b| > 0
    else if |b| == 0 then false
    else if a[0] != b[0] then
      assert FirstDifferenceBelow(a, b) <==> a[0] < b[0] by {
        if a[0] < b[0] { assert a[..0] == b[..0]; }
      }
      a[0] < b[0]
    else
      var r := Less(a[1..], b[1..]);
      FirstDifferenceShifts(a, b);
      assert (|a| < |b| && a == b[..|a|]) <==> (|a[1..]| < |b[1..]| && a[1..] == b[1..][..|a[1..]|]) by {
        if |a| < |b| && a[1..] == b[1..][..|a[1..]|] {
          assert a == [a[0]] + a[1..];
          assert b[..|a|] == [b[0]] + b[1..][..|a[1..]|];
        }
      }
      r
  }

  /** Some position is the first where `a` and `b` differ, and there `a` is smaller. */
  predicate FirstDifferenceBelow(a: string, b: string)
  {
    exists k :: 0 <= k < |a| && k < |b| && a[..k] == b[..k] && a[k] < b[k]
  }

  /** With equal first characters, the first difference lies one place further in the tails. */
  lemma FirstDifferenceShifts(a: string, b: string)
    requires |a| > 0 && |b| > 0 && a[0] == b[0]
    ensures FirstDifferenceBelow(a, b) <==> FirstDifferenceBelow(a[1..], b[1..])
  {
    if FirstDifferenceBelow(a, b) {
      var k :| 0 <= k < |a| && k < |b| && a[..k] == b[..k] && a[k] < b[k];
      DifferenceInTails(a, b, k);
    }
    if FirstDifferenceBelow(a[1..], b[1..]) {
      var k :| 0 <= k < |a[1..]| && k < |b[1..]| && a[1..][..k] == b[1..][..k] && a[1..][k] < b[1..][k];
      DifferenceInWholes(a, b, k);
    }
  }

  lemma DifferenceInTails(a: string, b: string, k: nat)
    requires |a| > 0 && |b| > 0 && a[0] == b[0]
    requires k < |a| && k < |b| && a[..k] == b[..k] && a[k] < b[k]
    ensures FirstDifferenceBelow(a[1..], b[1..])
  {
    assert k != 0;
    assert a[1..][..k - 1] == a[..k][1..];
    assert b[1..][..k - 1] == b[..k][1..];
  }

  lemma DifferenceInWholes(a: string, b: string, k: nat)
    requires |a| > 0 && |b| > 0 && a[0] == b[0]
    requires k < |a| - 1 && k < |b| - 1 && a[1..][..k] == b[1..][..k] && a[1..][k] < b[1..][k]
    ensures FirstDifferenceBelow(a, b)
  {
    assert a[..k + 1] == [a[0]] + a[1..][..k];
    assert b[..k + 1] == [b[0]] + b[1..][..k];
  }

  predicate LessEq(a: string, b: string)
  {
    Less(a, b) || a == b
  }

  /** Non-decreasing, as sort.Sort leaves a slice. */
  predicate Sorted(s: seq<string>)
  {
    forall p, q :: 0 <= p < q < |s| ==> LessEq(s[p], s[q])
  }

  lemma {:induction false} LessIrreflexive(a: string)
    ensures !Less(a, a)
    decreases |a|
  {
    if |a| > 0 {
      LessIrreflexive(a[1..]);
    }
  }

  lemma {:induction false} LessTransitive(a: string, b: string, c: string)
    requires Less(a, b) && Less(b, c)
    ensures Less(a, c)
    decreases |a|
  {
    if |a| > 0 && a[0] == b[0] && b[0] == c[0] {
      LessTransitive(a[1..], b[1..], c[1..]);
    }
  }

  /** Exactly one of `a < b`, `a == b`, `a > b`: the three cases of the merge-join. */
  lemma {:induction false} LessTrichotomous(a: string, b: string)
    ensures Less(a, b) || a == b || Less(b, a)
    ensures !(Less(a, b) && Less(b, a))
    decreases |a|
  {
    if Less(a, b) && Less(b, a) {
      LessTransitive(a, b, a);
      LessIrreflexive(a);
    }
    if |a| > 0 && |b| > 0 && a[0] == b[0] {
      LessTrichotomous(a[1..], b[1..]);
      if a[1..] == b[1..] {
        assert a == [a[0]] + a[1..];
        assert b == [b[0]] + b[1..];
      }
    }
  }

  lemma LessThenLessEq(a: string, b: string, c: string)
    requires Less(a, b) && LessEq(b, c)
    ensures Less(a, c)
  {
    if b != c {
      LessTransitive(a, b, c);
    }
  }
}
