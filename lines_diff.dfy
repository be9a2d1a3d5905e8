/**
 * linesEqual: two sequences compared by their renderings, one per element;
 * when they differ, a title and a walk over a partial matching of the two
 * sequences that shows each removed ("---") and added ("+++") line with its
 * 1-based position.
 *
 * The matching is the one the alignment routine `match` computes. That
 * routine is not part of this model: its result arrives as two arrays that
 * satisfy `ValidMatching`.
 */
module LinesDiff {
  import opened DiffReport

  /** One line the walk shows: its side, its 0-based position there, its rendering. */
  datatype SeqLine = SeqLine(side: Side, index: nat, text: string)

  // ---- sliceToStrings and stringSliceEqual ----

  /** The rendering of every element, in order. */
  function Rendered<T>(a: seq<T>, render: T -> string): seq<string>
  {
    seq(|a|, p requires 0 <= p < |a| => render(a[p]))
  }

  /** sliceToStrings: a preallocated array filled with the rendering of each element. */
  method SliceToStrings<T>(a: seq<T>, render: T -> string) returns (l: seq<string>)
    ensures |l| == |a|
    ensures forall p :: 0 <= p < |a| ==> l[p] == render(a[p])
  {
    var strs := new string[|a|];
    for p := 0 to |a|
      invariant forall t :: 0 <= t < p ==> strs[t] == render(a[t])
    {
      strs[p] := render(a[p]);
    }
    l := strs[..];
  }

  /** stringSliceEqual: same length and equal at every position. */
  method StringSliceEqual(a: seq<string>, b: seq<string>) returns (equal: bool)
    ensures equal <==> a == b
  {
    if |a| != |b| {
      return false;
    }
    for p := 0 to |a|
      invariant forall t :: 0 <= t < p ==> a[t] == b[t]
    {
      if a[p] != b[p] {
        return false;
      }
    }
    return true;
  }

  // ---- the matching ----

  /**
   * What the walk needs of `match`: a negative entry means "unmatched"; a
   * matched expected line and its actual partner point at each other; and
   * matched pairs do not cross.
   */
  ghost predicate ValidMatching(expMat: seq<int>, actMat: seq<int>)
  {
    (forall p :: 0 <= p < |expMat| && 0 <= expMat[p] ==> expMat[p] < |actMat| && actMat[expMat[p]] == p)
    && (forall q :: 0 <= q < |actMat| && 0 <= actMat[q] ==> actMat[q] < |expMat| && expMat[actMat[q]] == q)
    && (forall p1, p2 :: 0 <= p1 < p2 < |expMat| && 0 <= expMat[p1] && 0 <= expMat[p2] ==>
          expMat[p1] < expMat[p2])
  }

  /** The number of matched lines among the first `upto`. */
  function Matched(mat: seq<int>, upto: nat): nat
    requires upto <= |mat|
  {
    if upto == 0 then 0 else Matched(mat, upto - 1) + (if mat[upto - 1] >= 0 then 1 else 0)
  }

  // ---- what the walk must show ----

  /** Line `p` is matched to an identical line on the other side: the walk shows nothing for it. */
  predicate Hidden(own: seq<string>, other: seq<string>, mat: seq<int>, p: nat)
    requires p < |own| == |mat|
  {
    0 <= mat[p] < |other| && own[p] == other[mat[p]]
  }

  /** The lines of one side among its first `upto` that the walk must show, in order. */
  function Shown(side: Side, own: seq<string>, other: seq<string>, mat: seq<int>, upto: nat): seq<SeqLine>
    requires upto <= |own| == |mat|
  {
    if upto == 0 then []
    else
      Shown(side, own, other, mat, upto - 1) +
      (if Hidden(own, other, mat, upto - 1) then [] else [SeqLine(side, upto - 1, own[upto - 1])])
  }

  /** The lines of `lines` on one side, in order. */
  function OnSide(lines: seq<SeqLine>, side: Side): seq<SeqLine>
  {
    if lines == [] then []
    else
      var last := lines[|lines| - 1];
      OnSide(lines[..|lines| - 1], side) + (if last.side == side then [last] else [])
  }

  predicate InRange(l: SeqLine, expMat: seq<int>, actMat: seq<int>)
  {
    l.index < if l.side == Exp then |expMat| else |actMat|
  }

  /**
   * Where a line falls in the walk. Between two matched pairs the walk shows
   * the unmatched expected lines (0), then the unmatched actual lines (1),
   * then the pair's expected (2) and actual (3) line; the matched pairs
   * already passed count in fours.
   */
  function Rank(l: SeqLine, expMat: seq<int>, actMat: seq<int>): nat
    requires InRange(l, expMat, actMat)
  {
    var mat := if l.side == Exp then expMat else actMat;
    4 * Matched(mat, l.index) + (if mat[l.index] < 0 then 0 else 2) + (if l.side == Exp then 0 else 1)
  }

  /**
   * The interleaving of the two sides: no line ranks below the one before
   * it, and the line of a matched expected entry is followed at once by its
   * partner's.
   */
  ghost predicate WalkOrder(lines: seq<SeqLine>, expMat: seq<int>, actMat: seq<int>)
  {
    (forall x :: 0 <= x < |lines| ==> InRange(lines[x], expMat, actMat))
    && (forall x :: 0 <= x < |lines| - 1 ==> Rank(lines[x], expMat, actMat) <= Rank(lines[x + 1], expMat, actMat))
    && (forall x :: 0 <= x < |lines| && lines[x].side == Exp && expMat[lines[x].index] >= 0 ==>
          x + 1 < |lines| && lines[x + 1].side == Act && lines[x + 1].index == expMat[lines[x].index])
  }

  /** Everything the walk promises about the lines it shows. */
  ghost predicate WalkSpec(lines: seq<SeqLine>, expS: seq<string>, actS: seq<string>,
                           expMat: seq<int>, actMat: seq<int>)
    requires |expMat| == |expS| && |actMat| == |actS|
  {
    OnSide(lines, Exp) == Shown(Exp, expS, actS, expMat, |expS|)
    && OnSide(lines, Act) == Shown(Act, actS, expS, actMat, |actS|)
    && WalkOrder(lines, expMat, actMat)
  }

  // ---- the walk ----

  /** Matched lines before `own` are exactly those whose partners lie before `other`. */
  ghost predicate Crossed(mat: seq<int>, own: nat, other: nat)
  {
    forall p :: 0 <= p < |mat| && 0 <= mat[p] ==> (p < own <==> mat[p] < other)
  }

  /** The least rank the walk can show next, from position `i` on the expected side. */
  function Bound(expMat: seq<int>, i: nat): nat
    requires i <= |expMat|
  {
    4 * Matched(expMat, i) + (if i < |expMat| && expMat[i] < 0 then 0 else 1)
  }

  /** The walk's loop invariant, at positions `i` (expected) and `j` (actual). */
  ghost predicate WalkInv(lines: seq<SeqLine>, expS: seq<string>, actS: seq<string>,
                          expMat: seq<int>, actMat: seq<int>, i: nat, j: nat)
    requires |expMat| == |expS| && |actMat| == |actS|
  {
    Positions(expMat, actMat, i, j) && ShownSoFar(lines, expS, actS, expMat, actMat, i, j)
    && RankedBelow(lines, expMat, actMat, i)
  }

  /** As many pairs passed on each side, and every pair passed on both sides or on neither. */
  ghost predicate Positions(expMat: seq<int>, actMat: seq<int>, i: nat, j: nat)
  {
    i <= |expMat| && j <= |actMat|
    && Matched(expMat, i) == Matched(actMat, j)
    && Crossed(expMat, i, j) && Crossed(actMat, j, i)
  }

  /** The lines shown so far are what each side must show before `i` and `j`. */
  ghost predicate ShownSoFar(lines: seq<SeqLine>, expS: seq<string>, actS: seq<string>,
                             expMat: seq<int>, actMat: seq<int>, i: nat, j: nat)
    requires i <= |expMat| == |expS| && j <= |actMat| == |actS|
  {
    OnSide(lines, Exp) == Shown(Exp, expS, actS, expMat, i)
    && OnSide(lines, Act) == Shown(Act, actS, expS, actMat, j)
  }

  /** The lines shown so far are in order, and none ranks above what is shown next. */
  ghost predicate RankedBelow(lines: seq<SeqLine>, expMat: seq<int>, actMat: seq<int>, i: nat)
    requires i <= |expMat|
  {
    WalkOrder(lines, expMat, actMat)
    && forall x :: 0 <= x < |lines| ==> Rank(lines[x], expMat, actMat) <= Bound(expMat, i)
  }

  /**
   * The lines the walk of linesEqual shows from positions `i` and `j` on: an
   * expected line that is unmatched (or when the actual lines are done) is
   * shown as removed; else an actual line that is unmatched (or when the
   * expected lines are done) is shown as added; else the two current lines
   * are taken as partners, shown as a removed/added pair when they differ.
   */
  ghost function WalkFrom(expS: seq<string>, actS: seq<string>, expMat: seq<int>, actMat: seq<int>,
                          i: nat, j: nat): seq<SeqLine>
    requires |expMat| == |expS| && |actMat| == |actS| && i <= |expS| && j <= |actS|
    decreases |expS| - i + |actS| - j
  {
    if i >= |expS| && j >= |actS| then []
    else if j >= |actS| || (i < |expS| && expMat[i] < 0) then
      [SeqLine(Exp, i, expS[i])] + WalkFrom(expS, actS, expMat, actMat, i + 1, j)
    else if i >= |expS| || actMat[j] < 0 then
      [SeqLine(Act, j, actS[j])] + WalkFrom(expS, actS, expMat, actMat, i, j + 1)
    else
      (if expS[i] != actS[j] then [SeqLine(Exp, i, expS[i]), SeqLine(Act, j, actS[j])] else []) +
      WalkFrom(expS, actS, expMat, actMat, i + 1, j + 1)
  }

  /** The walk of linesEqual: the loop after the call to `match`. */
  method DiffWalk(expS: seq<string>, actS: seq<string>, expMat: seq<int>, actMat: seq<int>)
    returns (lines: seq<SeqLine>)
    requires |expMat| == |expS| && |actMat| == |actS|
    ensures lines == WalkFrom(expS, actS, expMat, actMat, 0, 0)
  {
    lines := [];
    var i, j := 0, 0;
    while i < |expS| || j < |actS|
      invariant i <= |expS| && j <= |actS|
      invariant lines + WalkFrom(expS, actS, expMat, actMat, i, j) == WalkFrom(expS, actS, expMat, actMat, 0, 0)
      decreases |expS| - i + |actS| - j
    {
      ghost var rest := WalkFrom(expS, actS, expMat, actMat, i, j);
      var more: seq<SeqLine>;
      if j >= |actS| || (i < |expS| && expMat[i] < 0) {
        more := [SeqLine(Exp, i, expS[i])];
        i := i + 1;
      } else if i >= |expS| || (j < |actS| && actMat[j] < 0) {
        more := [SeqLine(Act, j, actS[j])];
        j := j + 1;
      } else {
        more := if expS[i] != actS[j] then [SeqLine(Exp, i, expS[i]), SeqLine(Act, j, actS[j])] else [];
        i, j := i + 1, j + 1;
      }
      assert rest == more + WalkFrom(expS, actS, expMat, actMat, i, j);
      AppendAssociates(lines, more, WalkFrom(expS, actS, expMat, actMat, i, j));
      lines := lines + more;
    }
    assert lines + [] == lines;
  }

  lemma AppendAssociates(a: seq<SeqLine>, b: seq<SeqLine>, c: seq<SeqLine>)
    ensures a + (b + c) == (a + b) + c
  {
  }

  /**
   * Given a valid matching, the walk shows every line except those matched
   * to an identical line, each once and in order on its side, with each
   * changed pair together and each gap's removed lines before its added ones.
   */
  lemma WalkMeetsSpec(expS: seq<string>, actS: seq<string>, expMat: seq<int>, actMat: seq<int>)
    requires |expMat| == |expS| && |actMat| == |actS| && ValidMatching(expMat, actMat)
    ensures WalkSpec(WalkFrom(expS, actS, expMat, actMat, 0, 0), expS, actS, expMat, actMat)
  {
    var whole := WalkFrom(expS, actS, expMat, actMat, 0, 0);
    assert WalkInv([], expS, actS, expMat, actMat, 0, 0);
    assert whole == [] + whole;
    WalkShowsSpec(whole, [], expS, actS, expMat, actMat, 0, 0);
  }

  /**
   * From any point of the walk where its invariant holds, the lines already
   * shown followed by the rest of the walk meet the walk's specification.
   */
  lemma {:induction false} WalkShowsSpec(whole: seq<SeqLine>, lines: seq<SeqLine>, expS: seq<string>, actS: seq<string>,
                                         expMat: seq<int>, actMat: seq<int>, i: nat, j: nat)
    requires |expMat| == |expS| && |actMat| == |actS| && ValidMatching(expMat, actMat)
    requires WalkInv(lines, expS, actS, expMat, actMat, i, j)
    requires whole == lines + WalkFrom(expS, actS, expMat, actMat, i, j)
    ensures WalkSpec(whole, expS, actS, expMat, actMat)
    decreases |expS| - i + |actS| - j, 1
  {
    if i >= |expS| && j >= |actS| {
      assert whole == lines;
      WalkDone(lines, expS, actS, expMat, actMat, i, j);
    } else if j >= |actS| || (i < |expS| && expMat[i] < 0) {
      ShowsAfterRemoved(whole, lines, expS, actS, expMat, actMat, i, j);
    } else if i >= |expS| || actMat[j] < 0 {
      ShowsAfterAdded(whole, lines, expS, actS, expMat, actMat, i, j);
    } else {
      ShowsAfterPaired(whole, lines, expS, actS, expMat, actMat, i, j);
    }
  }

  lemma {:induction false} ShowsAfterRemoved(whole: seq<SeqLine>, lines: seq<SeqLine>, expS: seq<string>, actS: seq<string>,
                                             expMat: seq<int>, actMat: seq<int>, i: nat, j: nat)
    requires |expMat| == |expS| && |actMat| == |actS| && ValidMatching(expMat, actMat)
    requires WalkInv(lines, expS, actS, expMat, actMat, i, j)
    requires whole == lines + WalkFrom(expS, actS, expMat, actMat, i, j)
    requires i < |expS| && (j >= |actS| || expMat[i] < 0)
    ensures WalkSpec(whole, expS, actS, expMat, actMat)
    decreases |expS| - i + |actS| - j, 0
  {
    var more := [SeqLine(Exp, i, expS[i])];
    StepRemoved(lines, expS, actS, expMat, actMat, i, j);
    AppendAssociates(lines, more, WalkFrom(expS, actS, expMat, actMat, i + 1, j));
    WalkShowsSpec(whole, lines + more, expS, actS, expMat, actMat, i + 1, j);
  }

  lemma {:induction false} ShowsAfterAdded(whole: seq<SeqLine>, lines: seq<SeqLine>, expS: seq<string>, actS: seq<string>,
                                           expMat: seq<int>, actMat: seq<int>, i: nat, j: nat)
    requires |expMat| == |expS| && |actMat| == |actS| && ValidMatching(expMat, actMat)
    requires WalkInv(lines, expS, actS, expMat, actMat, i, j)
    requires whole == lines + WalkFrom(expS, actS, expMat, actMat, i, j)
    requires j < |actS| && (i >= |expS| || expMat[i] >= 0) && (i >= |expS| || actMat[j] < 0)
    ensures WalkSpec(whole, expS, actS, expMat, actMat)
    decreases |expS| - i + |actS| - j, 0
  {
    var more := [SeqLine(Act, j, actS[j])];
    StepAdded(lines, expS, actS, expMat, actMat, i, j);
    AppendAssociates(lines, more, WalkFrom(expS, actS, expMat, actMat, i, j + 1));
    WalkShowsSpec(whole, lines + more, expS, actS, expMat, actMat, i, j + 1);
  }

  lemma {:induction false} ShowsAfterPaired(whole: seq<SeqLine>, lines: seq<SeqLine>, expS: seq<string>, actS: seq<string>,
                                            expMat: seq<int>, actMat: seq<int>, i: nat, j: nat)
    requires |expMat| == |expS| && |actMat| == |actS| && ValidMatching(expMat, actMat)
    requires WalkInv(lines, expS, actS, expMat, actMat, i, j)
    requires whole == lines + WalkFrom(expS, actS, expMat, actMat, i, j)
    requires i < |expS| && j < |actS| && expMat[i] >= 0 && actMat[j] >= 0
    ensures WalkSpec(whole, expS, actS, expMat, actMat)
    decreases |expS| - i + |actS| - j, 0
  {
    StepPaired(lines, expS, actS, expMat, actMat, i, j);
    var more := if expS[i] != actS[j] then [SeqLine(Exp, i, expS[i]), SeqLine(Act, j, actS[j])] else [];
    AppendAssociates(lines, more, WalkFrom(expS, actS, expMat, actMat, i + 1, j + 1));
    if expS[i] != actS[j] {
      WalkShowsSpec(whole, lines + more, expS, actS, expMat, actMat, i + 1, j + 1);
    } else {
      assert lines + more == lines;
      WalkShowsSpec(whole, lines, expS, actS, expMat, actMat, i + 1, j + 1);
    }
  }

  lemma WalkDone(lines: seq<SeqLine>, expS: seq<string>, actS: seq<string>,
                 expMat: seq<int>, actMat: seq<int>, i: nat, j: nat)
    requires |expMat| == |expS| && |actMat| == |actS|
    requires WalkInv(lines, expS, actS, expMat, actMat, i, j) && i >= |expS| && j >= |actS|
    ensures WalkSpec(lines, expS, actS, expMat, actMat)
  {
  }

  /** The first branch: the expected line at `i` is unmatched, and is shown as removed. */
  lemma StepRemoved(lines: seq<SeqLine>, expS: seq<string>, actS: seq<string>,
                    expMat: seq<int>, actMat: seq<int>, i: nat, j: nat)
    requires |expMat| == |expS| && |actMat| == |actS| && ValidMatching(expMat, actMat)
    requires WalkInv(lines, expS, actS, expMat, actMat, i, j)
    requires i < |expS| && (j >= |actS| || expMat[i] < 0)
    ensures expMat[i] < 0
    ensures WalkInv(lines + [SeqLine(Exp, i, expS[i])], expS, actS, expMat, actMat, i + 1, j)
  {
    CrossedAt(expMat, i, j, i);
    PassRemoved(expMat, actMat, i, j);
    var l := SeqLine(Exp, i, expS[i]);
    assert Shown(Exp, expS, actS, expMat, i + 1) == Shown(Exp, expS, actS, expMat, i) + [l];
    OnSideAppendOne(lines, l, Exp);
    OnSideAppendOne(lines, l, Act);
    assert ShownSoFar(lines + [l], expS, actS, expMat, actMat, i + 1, j);
    assert Rank(l, expMat, actMat) == Bound(expMat, i);
    ExtendOrder(lines, [l], expMat, actMat, Bound(expMat, i), Bound(expMat, i + 1));
    assert RankedBelow(lines + [l], expMat, actMat, i + 1);
  }

  /** The second branch: the actual line at `j` is unmatched, and is shown as added. */
  lemma StepAdded(lines: seq<SeqLine>, expS: seq<string>, actS: seq<string>,
                  expMat: seq<int>, actMat: seq<int>, i: nat, j: nat)
    requires |expMat| == |expS| && |actMat| == |actS| && ValidMatching(expMat, actMat)
    requires WalkInv(lines, expS, actS, expMat, actMat, i, j)
    requires j < |actS| && (i >= |expS| || expMat[i] >= 0)
    requires i >= |expS| || actMat[j] < 0
    ensures actMat[j] < 0
    ensures WalkInv(lines + [SeqLine(Act, j, actS[j])], expS, actS, expMat, actMat, i, j + 1)
  {
    CrossedAt(actMat, j, i, j);
    PassAdded(expMat, actMat, i, j);
    var l := SeqLine(Act, j, actS[j]);
    assert Shown(Act, actS, expS, actMat, j + 1) == Shown(Act, actS, expS, actMat, j) + [l];
    OnSideAppendOne(lines, l, Exp);
    OnSideAppendOne(lines, l, Act);
    assert ShownSoFar(lines + [l], expS, actS, expMat, actMat, i, j + 1);
    assert Rank(l, expMat, actMat) == Bound(expMat, i);
    ExtendOrder(lines, [l], expMat, actMat, Bound(expMat, i), Bound(expMat, i));
    assert RankedBelow(lines + [l], expMat, actMat, i);
  }

  lemma OnSideAppendOne(lines: seq<SeqLine>, l: SeqLine, side: Side)
    ensures OnSide(lines + [l], side) == OnSide(lines, side) + (if l.side == side then [l] else [])
  {
    assert (lines + [l])[..|lines|] == lines;
  }

  /** Passing an unmatched expected line. */
  lemma PassRemoved(expMat: seq<int>, actMat: seq<int>, i: nat, j: nat)
    requires ValidMatching(expMat, actMat) && Positions(expMat, actMat, i, j)
    requires i < |expMat| && expMat[i] < 0
    ensures Positions(expMat, actMat, i + 1, j)
  {
    forall q | 0 <= q < |actMat| && 0 <= actMat[q]
      ensures q < j <==> actMat[q] < i + 1
    {
      assert actMat[q] != i;
    }
  }

  /** Passing an unmatched actual line. */
  lemma PassAdded(expMat: seq<int>, actMat: seq<int>, i: nat, j: nat)
    requires ValidMatching(expMat, actMat) && Positions(expMat, actMat, i, j)
    requires j < |actMat| && actMat[j] < 0
    ensures Positions(expMat, actMat, i, j + 1)
  {
    forall p | 0 <= p < |expMat| && 0 <= expMat[p]
      ensures p < i <==> expMat[p] < j + 1
    {
      assert expMat[p] != j;
    }
  }

  /**
   * The third branch: both lines are matched, and (the pairs not crossing)
   * to each other; they are shown as a removed/added pair when they differ.
   */
  lemma StepPaired(lines: seq<SeqLine>, expS: seq<string>, actS: seq<string>,
                   expMat: seq<int>, actMat: seq<int>, i: nat, j: nat)
    requires |expMat| == |expS| && |actMat| == |actS| && ValidMatching(expMat, actMat)
    requires WalkInv(lines, expS, actS, expMat, actMat, i, j)
    requires i < |expS| && j < |actS| && expMat[i] >= 0 && actMat[j] >= 0
    ensures expMat[i] == j && actMat[j] == i
    ensures expS[i] != actS[j] ==>
      WalkInv(lines + [SeqLine(Exp, i, expS[i]), SeqLine(Act, j, actS[j])], expS, actS, expMat, actMat, i + 1, j + 1)
    ensures expS[i] == actS[j] ==> WalkInv(lines, expS, actS, expMat, actMat, i + 1, j + 1)
  {
    PartnersMeet(expMat, actMat, i, j);
    PassPair(expMat, actMat, i, j);
    assert Positions(expMat, actMat, i + 1, j + 1);
    if expS[i] != actS[j] {
      PairChanged(lines, expS, actS, expMat, actMat, i, j);
    } else {
      PairSame(lines, expS, actS, expMat, actMat, i, j);
    }
  }

  /** A matched pair whose lines differ: both are shown, together. */
  lemma PairChanged(lines: seq<SeqLine>, expS: seq<string>, actS: seq<string>,
                    expMat: seq<int>, actMat: seq<int>, i: nat, j: nat)
    requires |expMat| == |expS| && |actMat| == |actS|
    requires WalkInv(lines, expS, actS, expMat, actMat, i, j)
    requires i < |expS| && j < |actS| && expMat[i] == j && actMat[j] == i && expS[i] != actS[j]
    requires Positions(expMat, actMat, i + 1, j + 1)
    ensures WalkInv(lines + [SeqLine(Exp, i, expS[i]), SeqLine(Act, j, actS[j])], expS, actS, expMat, actMat, i + 1, j + 1)
  {
    var le, la := SeqLine(Exp, i, expS[i]), SeqLine(Act, j, actS[j]);
    assert Bound(expMat, i) == 4 * Matched(expMat, i) + 1;
    assert Bound(expMat, i + 1) >= 4 * Matched(expMat, i) + 4;
    assert Shown(Exp, expS, actS, expMat, i + 1) == Shown(Exp, expS, actS, expMat, i) + [le];
    assert Shown(Act, actS, expS, actMat, j + 1) == Shown(Act, actS, expS, actMat, j) + [la];
    OnSideAppendOne(lines, le, Exp);
    OnSideAppendOne(lines, le, Act);
    OnSideAppendOne(lines + [le], la, Exp);
    OnSideAppendOne(lines + [le], la, Act);
    assert lines + [le] + [la] == lines + [le, la];
    assert ShownSoFar(lines + [le, la], expS, actS, expMat, actMat, i + 1, j + 1);
    PairOrder(le, la, expMat, actMat);
    ExtendOrder(lines, [le, la], expMat, actMat, Bound(expMat, i), Bound(expMat, i + 1));
  }

  /** A matched pair of identical lines: nothing is shown. */
  lemma PairSame(lines: seq<SeqLine>, expS: seq<string>, actS: seq<string>,
                 expMat: seq<int>, actMat: seq<int>, i: nat, j: nat)
    requires |expMat| == |expS| && |actMat| == |actS|
    requires WalkInv(lines, expS, actS, expMat, actMat, i, j)
    requires i < |expS| && j < |actS| && expMat[i] == j && actMat[j] == i && expS[i] == actS[j]
    requires Positions(expMat, actMat, i + 1, j + 1)
    ensures WalkInv(lines, expS, actS, expMat, actMat, i + 1, j + 1)
  {
    assert Bound(expMat, i) <= Bound(expMat, i + 1);
    assert Shown(Exp, expS, actS, expMat, i + 1) == Shown(Exp, expS, actS, expMat, i);
    assert Shown(Act, actS, expS, actMat, j + 1) == Shown(Act, actS, expS, actMat, j);
  }

  /** Passing a matched pair together keeps matched lines and their partners on the same side of the walk. */
  lemma PassPair(expMat: seq<int>, actMat: seq<int>, i: nat, j: nat)
    requires ValidMatching(expMat, actMat) && Crossed(expMat, i, j) && Crossed(actMat, j, i)
    requires i < |expMat| && j < |actMat| && expMat[i] == j && actMat[j] == i
    ensures Crossed(expMat, i + 1, j + 1) && Crossed(actMat, j + 1, i + 1)
  {
    forall p | 0 <= p < |expMat| && 0 <= expMat[p]
      ensures p < i + 1 <==> expMat[p] < j + 1
    {
      assert p != i ==> expMat[p] != j;
    }
    forall q | 0 <= q < |actMat| && 0 <= actMat[q]
      ensures q < j + 1 <==> actMat[q] < i + 1
    {
      assert q != j ==> actMat[q] != i;
    }
  }

  /** A changed pair, shown together, is in the walk's order and ranks just after its gap. */
  lemma PairOrder(le: SeqLine, la: SeqLine, expMat: seq<int>, actMat: seq<int>)
    requires le.side == Exp && la.side == Act && le.index < |expMat| && la.index < |actMat|
    requires expMat[le.index] == la.index && actMat[la.index] >= 0
    requires Matched(expMat, le.index) == Matched(actMat, la.index)
    ensures WalkOrder([le, la], expMat, actMat)
    ensures Rank(le, expMat, actMat) == 4 * Matched(expMat, le.index) + 2
    ensures Rank(la, expMat, actMat) == 4 * Matched(expMat, le.index) + 3
  {
  }

  /**
   * Appending lines whose ranks lie between what was shown and the next
   * bound keeps the walk's order, as long as no pair is split.
   */
  lemma ExtendOrder(lines: seq<SeqLine>, more: seq<SeqLine>, expMat: seq<int>, actMat: seq<int>, b: nat, b2: nat)
    requires WalkOrder(lines, expMat, actMat) && WalkOrder(more, expMat, actMat)
    requires forall x :: 0 <= x < |lines| ==> Rank(lines[x], expMat, actMat) <= b
    requires forall y :: 0 <= y < |more| ==> b <= Rank(more[y], expMat, actMat) <= b2
    requires b <= b2
    ensures WalkOrder(lines + more, expMat, actMat)
    ensures forall x :: 0 <= x < |lines + more| ==> Rank((lines + more)[x], expMat, actMat) <= b2
  {
    var all := lines + more;
    forall x | 0 <= x < |all|
      ensures InRange(all[x], expMat, actMat) && Rank(all[x], expMat, actMat) <= b2
    {
      if x >= |lines| {
        assert all[x] == more[x - |lines|];
      }
    }
    forall x | 0 <= x < |all| - 1
      ensures Rank(all[x], expMat, actMat) <= Rank(all[x + 1], expMat, actMat)
    {
      if x + 1 < |lines| {
        assert all[x] == lines[x] && all[x + 1] == lines[x + 1];
      } else if x + 1 == |lines| {
        assert all[x] == lines[x] && all[x + 1] == more[0];
      } else {
        assert all[x] == more[x - |lines|] && all[x + 1] == more[x + 1 - |lines|];
      }
    }
    forall x | 0 <= x < |all| && all[x].side == Exp && expMat[all[x].index] >= 0
      ensures x + 1 < |all| && all[x + 1].side == Act && all[x + 1].index == expMat[all[x].index]
    {
      if x < |lines| {
        assert all[x] == lines[x];
      } else {
        assert all[x] == more[x - |lines|] && all[x + 1] == more[x + 1 - |lines|];
      }
    }
  }

  /** Ranks never go down along the whole walk, not only from one line to the next. */
  lemma WalkRanksSorted(lines: seq<SeqLine>, expMat: seq<int>, actMat: seq<int>)
    requires WalkOrder(lines, expMat, actMat)
    ensures forall x, y :: 0 <= x < y < |lines| ==> Rank(lines[x], expMat, actMat) <= Rank(lines[y], expMat, actMat)
  {
    forall x, y | 0 <= x < y < |lines|
      ensures Rank(lines[x], expMat, actMat) <= Rank(lines[y], expMat, actMat)
    {
      RanksFrom(lines, expMat, actMat, x, y);
    }
  }

  lemma {:induction false} RanksFrom(lines: seq<SeqLine>, expMat: seq<int>, actMat: seq<int>, x: nat, y: nat)
    requires WalkOrder(lines, expMat, actMat) && x <= y < |lines|
    ensures Rank(lines[x], expMat, actMat) <= Rank(lines[y], expMat, actMat)
    decreases y - x
  {
    if x < y {
      RanksFrom(lines, expMat, actMat, x + 1, y);
    }
  }

  /** In the walk's third branch the two current lines are each other's partners. */
  lemma PartnersMeet(expMat: seq<int>, actMat: seq<int>, i: nat, j: nat)
    requires ValidMatching(expMat, actMat) && Crossed(expMat, i, j) && Crossed(actMat, j, i)
    requires i < |expMat| && j < |actMat| && expMat[i] >= 0 && actMat[j] >= 0
    ensures expMat[i] == j && actMat[j] == i
  {
    var r := actMat[j];
    assert expMat[r] == j;
    NoCrossing(expMat, actMat, i, r);
  }

  lemma NoCrossing(expMat: seq<int>, actMat: seq<int>, p1: nat, p2: nat)
    requires ValidMatching(expMat, actMat) && p1 < |expMat| && p2 < |expMat|
    ensures p1 < p2 && 0 <= expMat[p1] && 0 <= expMat[p2] ==> expMat[p1] < expMat[p2]
  {
  }

  lemma CrossedAt(mat: seq<int>, own: nat, other: nat, p: nat)
    requires Crossed(mat, own, other) && p < |mat|
    ensures 0 <= mat[p] ==> (p < own <==> mat[p] < other)
  {
  }

  // ---- a reported difference always shows a line ----

  /**
   * Given a valid matching, a walk that shows nothing means the two
   * sequences are equal; so whenever linesEqual reports, it shows at least
   * one removed or added line.
   */
  lemma DifferenceShown(expS: seq<string>, actS: seq<string>, expMat: seq<int>, actMat: seq<int>)
    requires |expMat| == |expS| && |actMat| == |actS| && ValidMatching(expMat, actMat)
    ensures WalkFrom(expS, actS, expMat, actMat, 0, 0) == [] ==> expS == actS
  {
    var lines := WalkFrom(expS, actS, expMat, actMat, 0, 0);
    WalkMeetsSpec(expS, actS, expMat, actMat);
    if lines == [] {
      assert OnSide(lines, Exp) == [] && OnSide(lines, Act) == [];
      SameWhenNothingShown(expS, actS, expMat, actMat);
    }
  }

  /** Nothing shown on either side: every line is matched to an identical one, so the sequences are equal. */
  lemma SameWhenNothingShown(expS: seq<string>, actS: seq<string>, expMat: seq<int>, actMat: seq<int>)
    requires |expMat| == |expS| && |actMat| == |actS| && ValidMatching(expMat, actMat)
    requires Shown(Exp, expS, actS, expMat, |expS|) == [] && Shown(Act, actS, expS, actMat, |actS|) == []
    ensures expS == actS
  {
    AllHidden(Exp, expS, actS, expMat, |expS|);
    AllHidden(Act, actS, expS, actMat, |actS|);
    IdentityMatching(expMat, actMat);
    forall p | 0 <= p < |expS| ensures expS[p] == actS[p] {
      assert Hidden(expS, actS, expMat, p);
    }
  }

  /**
   * A valid matching that leaves no line of either side unmatched pairs
   * each position with itself, and the two sides have the same length.
   */
  lemma IdentityMatching(expMat: seq<int>, actMat: seq<int>)
    requires ValidMatching(expMat, actMat)
    requires forall p :: 0 <= p < |expMat| ==> 0 <= expMat[p]
    requires forall q :: 0 <= q < |actMat| ==> 0 <= actMat[q]
    ensures |expMat| == |actMat|
    ensures forall p :: 0 <= p < |expMat| ==> expMat[p] == p
  {
    ActIncreasing(expMat, actMat);
    forall p | 0 <= p < |expMat| ensures expMat[p] >= p {
      AtLeastIndex(expMat, p);
    }
    forall q | 0 <= q < |actMat| ensures actMat[q] >= q {
      AtLeastIndex(actMat, q);
    }
    if 0 < |expMat| {
      assert |expMat| - 1 <= expMat[|expMat| - 1] < |actMat|;
    }
    if 0 < |actMat| {
      assert |actMat| - 1 <= actMat[|actMat| - 1] < |expMat|;
    }
    forall p | 0 <= p < |expMat| ensures expMat[p] == p {
      assert actMat[expMat[p]] == p;
    }
  }

  /** Every line before `upto` that the walk need not show is matched to an identical line. */
  lemma {:induction false} AllHidden(side: Side, own: seq<string>, other: seq<string>, mat: seq<int>, upto: nat)
    requires upto <= |own| == |mat|
    requires Shown(side, own, other, mat, upto) == []
    ensures forall p :: 0 <= p < upto ==> Hidden(own, other, mat, p)
    ensures forall p :: 0 <= p < upto ==> 0 <= mat[p] < |other|
  {
    if upto > 0 {
      assert |Shown(side, own, other, mat, upto - 1)| == 0;
      AllHidden(side, own, other, mat, upto - 1);
    }
  }

  /** A strictly increasing sequence of naturals is never below its index. */
  lemma {:induction false} AtLeastIndex(mat: seq<int>, p: nat)
    requires p < |mat|
    requires forall x :: 0 <= x < |mat| ==> 0 <= mat[x]
    requires forall p1, p2 :: 0 <= p1 < p2 < |mat| ==> mat[p1] < mat[p2]
    ensures mat[p] >= p
  {
    if p > 0 {
      AtLeastIndex(mat, p - 1);
    }
  }

  /** When every line of both sides is matched, both arrays increase strictly. */
  lemma ActIncreasing(expMat: seq<int>, actMat: seq<int>)
    requires ValidMatching(expMat, actMat)
    requires forall p :: 0 <= p < |expMat| ==> 0 <= expMat[p]
    requires forall q :: 0 <= q < |actMat| ==> 0 <= actMat[q]
    ensures forall p1, p2 :: 0 <= p1 < p2 < |expMat| ==> expMat[p1] < expMat[p2]
    ensures forall q1, q2 :: 0 <= q1 < q2 < |actMat| ==> actMat[q1] < actMat[q2]
  {
    forall q1, q2 | 0 <= q1 < q2 < |actMat| ensures actMat[q1] < actMat[q2] {
      NoCrossing(expMat, actMat, actMat[q2], actMat[q1]);
    }
  }

  // ---- linesEqual ----

  /**
   * linesEqual: true exactly when the renderings agree position by
   * position; otherwise the report the test receives, with its title and
   * the lines of the walk over the matching `match` computed.
   */
  method LinesEqual<T>(act: seq<T>, exp: seq<T>, render: T -> string, expMat: seq<int>, actMat: seq<int>)
    returns (equal: bool, report: Option<Report<SeqLine>>)
    requires |expMat| == |exp| && |actMat| == |act|
    ensures equal <==> Rendered(exp, render) == Rendered(act, render)
    ensures equal <==> report == None
    ensures report.Some? ==> report.value.title == TitleFor(|exp|, |act|)
    ensures report.Some? ==>
      report.value.lines == WalkFrom(Rendered(exp, render), Rendered(act, render), expMat, actMat, 0, 0)
    ensures report.Some? && ValidMatching(expMat, actMat) ==>
      report.value.lines != [] &&
      WalkSpec(report.value.lines, Rendered(exp, render), Rendered(act, render), expMat, actMat)
  {
    var actS := SliceToStrings(act, render);
    var expS := SliceToStrings(exp, render);
    assert actS == Rendered(act, render) && expS == Rendered(exp, render);
    equal := StringSliceEqual(actS, expS);
    if equal {
      return true, None;
    }
    var title := TitleFor(|expS|, |actS|);
    var lines := DiffWalk(expS, actS, expMat, actMat);
    if ValidMatching(expMat, actMat) {
      WalkMeetsSpec(expS, actS, expMat, actMat);
      DifferenceShown(expS, actS, expMat, actMat);
    }
    report := Some(Report(title, lines));
  }

  /** The text of one shown line: marker, position from 1 padded to three places, quoted rendering. */
  function LineText(l: SeqLine, quote: string -> string): (s: string)
    ensures |s| >= 13 + |quote(l.text)|
    ensures s[..8] == "    " + Marker(l.side) + " "
    ensures s[8..|s| - |quote(l.text)| - 2] == PadLeft(Decimal(l.index + 1), 3)
    ensures s[|s| - |quote(l.text)| - 2..] == ": " + quote(l.text)
  {
    var head, field, tail := "    " + Marker(l.side) + " ", PadLeft(Decimal(l.index + 1), 3), ": " + quote(l.text);
    ThreeParts(head, field, tail);
    head + field + tail
  }

  /**
   * Everything linesEqual hands the sink for a report: the title, which
   * names "lines" and says "both " exactly for a title of equal sizes, the
   * header, then each walk line's text in order.
   */
  function LinesReportText(prefix: string, name: string, r: Report<SeqLine>, quote: string -> string): (logs: seq<Log>)
    ensures |logs| == |r.lines| + 2
    ensures logs[0] == Error(TitleText(prefix, name, r.title, "lines")) && logs[1] == Info(Header)
    ensures |logs[0].text| > 6 && logs[0].text[|logs[0].text| - 6..] == " lines"
    ensures r.title.Both? <==> logs[0].text[|prefix| + 13 + |name|..][..5] == "both "
    ensures forall x :: 0 <= x < |r.lines| ==> logs[x + 2] == Info(LineText(r.lines[x], quote))
  {
    assert " " + "lines" == " lines";
    RenderReport(prefix, name, "lines", r, l => LineText(l, quote))
  }
}
