/**
 * The map difference: collectMapDiffKeys classifies keys as missing (only in
 * the expected map), changed (in both, values differ) or extra (only in the
 * actual map) by a merge-join over the two key lists sorted by rendering, and
 * mapDiff turns that classification into a report.
 *
 * Keys are compared with Dafny equality, values with Dafny equality (standing
 * for reflect.DeepEqual); `render` stands for fmt's "%+v" of a key. Because
 * `render` is a function, equal keys always render equally, while distinct
 * keys may render the same (a collision).
 */
module MapDiff {
  import opened StringOrder
  import opened KeySort
  import opened DiffReport

  /** `keys` names exactly the keys of `m`. */
  ghost predicate Lists<K(!new), V>(keys: seq<K>, m: map<K, V>)
  {
    forall k :: k in keys <==> k in m
  }

  // ---- what the classification must be ----

  /** The keys of `keys`, in order, that `m` does not hold. */
  function Absent<K(==), V>(keys: seq<K>, m: map<K, V>): seq<K>
  {
    if keys == [] then []
    else
      var last := keys[|keys| - 1];
      Absent(keys[..|keys| - 1], m) + (if last in m then [] else [last])
  }

  /** The keys of `keys`, in order, that both maps hold with different values. */
  function Changed<K(==), V(==)>(keys: seq<K>, exp: map<K, V>, act: map<K, V>): seq<K>
  {
    if keys == [] then []
    else
      var last := keys[|keys| - 1];
      Changed(keys[..|keys| - 1], exp, act) +
      (if last in exp && last in act && exp[last] != act[last] then [last] else [])
  }

  /** Absent keeps exactly the listed keys that `m` does not hold. */
  lemma {:induction false} AbsentMembers<K(!new), V>(keys: seq<K>, m: map<K, V>)
    ensures forall k :: k in Absent(keys, m) <==> k in keys && k !in m
    decreases |keys|
  {
    if keys != [] {
      var init := keys[..|keys| - 1];
      AbsentMembers(init, m);
      assert keys == init + [keys[|keys| - 1]];
    }
  }

  /** Changed keeps exactly the listed keys that both maps hold with different values. */
  lemma {:induction false} ChangedMembers<K(!new), V>(keys: seq<K>, exp: map<K, V>, act: map<K, V>)
    ensures forall k :: k in Changed(keys, exp, act) <==> k in keys && k in exp && k in act && exp[k] != act[k]
    decreases |keys|
  {
    if keys != [] {
      var init := keys[..|keys| - 1];
      ChangedMembers(init, exp, act);
      assert keys == init + [keys[|keys| - 1]];
    }
  }

  lemma AbsentStep<K, V>(keys: seq<K>, i: nat, m: map<K, V>)
    requires i < |keys|
    ensures Absent(keys[..i + 1], m) == Absent(keys[..i], m) + (if keys[i] in m then [] else [keys[i]])
  {
    assert keys[..i + 1][..i] == keys[..i];
  }

  lemma ChangedStep<K, V>(keys: seq<K>, i: nat, exp: map<K, V>, act: map<K, V>)
    requires i < |keys|
    ensures Changed(keys[..i + 1], exp, act) == Changed(keys[..i], exp, act) +
      (if keys[i] in exp && keys[i] in act && exp[keys[i]] != act[keys[i]] then [keys[i]] else [])
  {
    assert keys[..i + 1][..i] == keys[..i];
  }

  lemma {:induction false} AbsentAppend<K(!new), V>(s: seq<K>, t: seq<K>, m: map<K, V>)
    ensures Absent(s + t, m) == Absent(s, m) + Absent(t, m)
    decreases |t|
  {
    if t == [] {
      assert s + t == s;
    } else {
      var u := t[..|t| - 1];
      assert (s + t)[..|s + t| - 1] == s + u;
      AbsentAppend(s, u, m);
    }
  }

  lemma {:induction false} ChangedAppend<K(!new), V>(s: seq<K>, t: seq<K>, exp: map<K, V>, act: map<K, V>)
    ensures Changed(s + t, exp, act) == Changed(s, exp, act) + Changed(t, exp, act)
    decreases |t|
  {
    if t == [] {
      assert s + t == s;
    } else {
      var u := t[..|t| - 1];
      assert (s + t)[..|s + t| - 1] == s + u;
      ChangedAppend(s, u, exp, act);
    }
  }

  /** A list none of whose keys `m` holds is all absent, and has no changed key. */
  lemma {:induction false} NoneHeld<K(!new), V>(keys: seq<K>, exp: map<K, V>, act: map<K, V>)
    requires forall k :: k in keys ==> k !in act
    ensures Absent(keys, act) == keys
    ensures Changed(keys, exp, act) == []
    decreases |keys|
  {
    if keys != [] {
      var init := keys[..|keys| - 1];
      assert keys == init + [keys[|keys| - 1]];
      NoneHeld(init, exp, act);
    }
  }

  // ---- collectMapDiffKeys ----

  /**
   * The merge-join of collectMapDiffKeys. Both key lists are sorted by
   * rendering and list their maps' keys, with the renderings beside them
   * (as collectAndSortMapKeys returns them). The result is exactly the
   * filter of the expected keys by "absent from act" and by "changed", and
   * of the actual keys by "absent from exp", each in list order.
   */
  method CollectMapDiffKeys<K(==, !new), V(==)>(act: map<K, V>, exp: map<K, V>,
                                         actKeys: seq<K>, expKeys: seq<K>,
                                         actKeyStrs: seq<string>, expKeyStrs: seq<string>,
                                         ghost render: K -> string)
    returns (extraKeys: seq<K>, diffKeys: seq<K>, missingKeys: seq<K>)
    requires Lists(actKeys, act) && Lists(expKeys, exp)
    requires Paired(actKeys, actKeyStrs, render) && Paired(expKeys, expKeyStrs, render)
    requires Sorted(actKeyStrs) && Sorted(expKeyStrs)
    ensures missingKeys == Absent(expKeys, act)
    ensures diffKeys == Changed(expKeys, exp, act)
    ensures extraKeys == Absent(actKeys, exp)
  {
    extraKeys, diffKeys, missingKeys := [], [], [];
    var m := MergeInput(act, exp, actKeys, expKeys, actKeyStrs, expKeyStrs);
    var i, j := 0, 0;
    while i < |expKeys| && j < |actKeys|
      invariant MergeInv(m, i, j, extraKeys, diffKeys, missingKeys)
      decreases |expKeys| - i + |actKeys| - j
    {
      i, j, extraKeys, diffKeys, missingKeys := MergeStep(m, render, i, j, extraKeys, diffKeys, missingKeys);
    }
    // one side is used up: the rest of the other side is missing or extra
    Leftover(expKeys, expKeyStrs, i, actKeys, actKeyStrs, exp, act, render);
    Leftover(actKeys, actKeyStrs, j, expKeys, expKeyStrs, act, exp, render);
    missingKeys := missingKeys + expKeys[i..];
    extraKeys := extraKeys + actKeys[j..];
  }

  /** What the merge-join reads and never changes: both maps, their key lists and the keys' renderings. */
  datatype MergeInput<K(==), V> = MergeInput(act: map<K, V>, exp: map<K, V>,
                                             actKeys: seq<K>, expKeys: seq<K>,
                                             actKeyStrs: seq<string>, expKeyStrs: seq<string>)

  /** The merge-join's requirements on its inputs, as collectAndSortMapKeys leaves them. */
  ghost predicate SortedLists<K(!new), V>(m: MergeInput<K, V>, render: K -> string)
  {
    && Lists(m.actKeys, m.act) && Lists(m.expKeys, m.exp)
    && Paired(m.actKeys, m.actKeyStrs, render) && Paired(m.expKeys, m.expKeyStrs, render)
    && Sorted(m.actKeyStrs) && Sorted(m.expKeyStrs)
  }

  /**
   * What the merge-join holds between steps: the lists so far are the
   * classification of the keys passed, and every key passed on one side
   * renders before every key still ahead on the other.
   */
  ghost predicate MergeInv<K, V>(m: MergeInput<K, V>, i: nat, j: nat,
                                 extraKeys: seq<K>, diffKeys: seq<K>, missingKeys: seq<K>)
  {
    && |m.expKeyStrs| == |m.expKeys| && |m.actKeyStrs| == |m.actKeys| && i <= |m.expKeys| && j <= |m.actKeys|
    && missingKeys == Absent(m.expKeys[..i], m.act)
    && diffKeys == Changed(m.expKeys[..i], m.exp, m.act)
    && extraKeys == Absent(m.actKeys[..j], m.exp)
    && (forall p, q :: 0 <= p < i && j <= q < |m.actKeyStrs| ==> Less(m.expKeyStrs[p], m.actKeyStrs[q]))
    && (forall p, q :: 0 <= p < j && i <= q < |m.expKeyStrs| ==> Less(m.actKeyStrs[p], m.expKeyStrs[q]))
  }

  /** One round of the merge-join's loop: the three cases on the current pair of renderings. */
  method MergeStep<K(==, !new), V(==)>(m: MergeInput<K, V>, ghost render: K -> string, i0: nat, j0: nat,
                                      extra0: seq<K>, diff0: seq<K>, missing0: seq<K>)
    returns (i: nat, j: nat, extraKeys: seq<K>, diffKeys: seq<K>, missingKeys: seq<K>)
    requires SortedLists(m, render)
    requires i0 < |m.expKeys| && j0 < |m.actKeys|
    requires MergeInv(m, i0, j0, extra0, diff0, missing0)
    ensures MergeInv(m, i, j, extraKeys, diffKeys, missingKeys)
    ensures i0 <= i && j0 <= j && i0 + j0 < i + j
  {
    i, j, extraKeys, diffKeys, missingKeys := i0, j0, extra0, diff0, missing0;
    if Less(m.expKeyStrs[i], m.actKeyStrs[j]) {
      MissingPassed(m, render, i, j, extraKeys, diffKeys, missingKeys);
      missingKeys := missingKeys + [m.expKeys[i]];
      i := i + 1;
    } else if Less(m.actKeyStrs[j], m.expKeyStrs[i]) {
      ExtraPassed(m, render, i, j, extraKeys, diffKeys, missingKeys);
      extraKeys := extraKeys + [m.actKeys[j]];
      j := j + 1;
    } else {
      // equal renderings: the keys on either side are not necessarily equal
      var expKeyStr, actKeyStr := m.expKeyStrs[i], m.actKeyStrs[j];
      LessTrichotomous(expKeyStr, actKeyStr);
      i, missingKeys, diffKeys := CollectExpRun(m.act, m.exp, m.expKeys, m.expKeyStrs, actKeyStr, i, missingKeys, diffKeys);
      j, extraKeys := CollectActRun(m.exp, m.actKeys, m.actKeyStrs, expKeyStr, j, extraKeys);
      RunsPassed(m.expKeyStrs, m.actKeyStrs, i0, i, j0, j, expKeyStr);
    }
  }

  /** The first case: an expected key rendering before the current actual key is missing. */
  lemma MissingPassed<K(!new), V>(m: MergeInput<K, V>, render: K -> string, i: nat, j: nat,
                                  extraKeys: seq<K>, diffKeys: seq<K>, missingKeys: seq<K>)
    requires SortedLists(m, render)
    requires i < |m.expKeys| && j < |m.actKeys| && Less(m.expKeyStrs[i], m.actKeyStrs[j])
    requires MergeInv(m, i, j, extraKeys, diffKeys, missingKeys)
    ensures m.expKeys[i] !in m.act
    ensures MergeInv(m, i + 1, j, extraKeys, diffKeys, missingKeys + [m.expKeys[i]])
  {
    BeforeAllOthers(m.expKeys[i], m.expKeyStrs[i], m.actKeys, m.actKeyStrs, j, render);
    PassedOne(m.expKeyStrs, m.actKeyStrs, i, j);
    AbsentStep(m.expKeys, i, m.act);
    ChangedStep(m.expKeys, i, m.exp, m.act);
  }

  /** The second case: an actual key rendering before the current expected key is extra. */
  lemma ExtraPassed<K(!new), V>(m: MergeInput<K, V>, render: K -> string, i: nat, j: nat,
                                extraKeys: seq<K>, diffKeys: seq<K>, missingKeys: seq<K>)
    requires SortedLists(m, render)
    requires i < |m.expKeys| && j < |m.actKeys| && Less(m.actKeyStrs[j], m.expKeyStrs[i])
    requires MergeInv(m, i, j, extraKeys, diffKeys, missingKeys)
    ensures m.actKeys[j] !in m.exp
    ensures MergeInv(m, i, j + 1, extraKeys + [m.actKeys[j]], diffKeys, missingKeys)
  {
    BeforeAllOthers(m.actKeys[j], m.actKeyStrs[j], m.expKeys, m.expKeyStrs, i, render);
    PassedOne(m.actKeyStrs, m.expKeyStrs, j, i);
    AbsentStep(m.actKeys, j, m.exp);
  }

  /**
   * The inner loop over the run of expected keys rendering as `s`: each is
   * looked up in `act` by the key itself, not by its rendering.
   */
  method CollectExpRun<K(==, !new), V(==)>(act: map<K, V>, exp: map<K, V>,
                                          expKeys: seq<K>, expKeyStrs: seq<string>, s: string,
                                          from: nat, missing0: seq<K>, diff0: seq<K>)
    returns (i: nat, missingKeys: seq<K>, diffKeys: seq<K>)
    requires Lists(expKeys, exp) && |expKeyStrs| == |expKeys|
    requires from < |expKeys| && expKeyStrs[from] == s
    requires missing0 == Absent(expKeys[..from], act) && diff0 == Changed(expKeys[..from], exp, act)
    ensures from < i <= |expKeys|
    ensures forall p :: from <= p < i ==> expKeyStrs[p] == s
    ensures i == |expKeys| || expKeyStrs[i] != s
    ensures missingKeys == Absent(expKeys[..i], act) && diffKeys == Changed(expKeys[..i], exp, act)
  {
    i, missingKeys, diffKeys := from, missing0, diff0;
    while i < |expKeys| && expKeyStrs[i] == s
      invariant from <= i <= |expKeys|
      invariant forall p :: from <= p < i ==> expKeyStrs[p] == s
      invariant missingKeys == Absent(expKeys[..i], act)
      invariant diffKeys == Changed(expKeys[..i], exp, act)
    {
      var expKey := expKeys[i];
      AbsentStep(expKeys, i, act);
      ChangedStep(expKeys, i, exp, act);
      if expKey !in act {
        missingKeys := missingKeys + [expKey];
      } else if exp[expKey] == act[expKey] {
      } else {
        diffKeys := diffKeys + [expKey];
      }
      i := i + 1;
    }
  }

  /**
   * The inner loop over the run of actual keys rendering as `s`: a key that
   * `exp` holds was dealt with by the expected run; any other is extra.
   */
  method CollectActRun<K(==), V>(exp: map<K, V>, actKeys: seq<K>, actKeyStrs: seq<string>, s: string,
                                 from: nat, extra0: seq<K>)
    returns (j: nat, extraKeys: seq<K>)
    requires |actKeyStrs| == |actKeys| && from < |actKeys| && actKeyStrs[from] == s
    requires extra0 == Absent(actKeys[..from], exp)
    ensures from < j <= |actKeys|
    ensures forall q :: from <= q < j ==> actKeyStrs[q] == s
    ensures j == |actKeys| || actKeyStrs[j] != s
    ensures extraKeys == Absent(actKeys[..j], exp)
  {
    j, extraKeys := from, extra0;
    while j < |actKeys| && s == actKeyStrs[j]
      invariant from <= j <= |actKeys|
      invariant forall q :: from <= q < j ==> actKeyStrs[q] == s
      invariant extraKeys == Absent(actKeys[..j], exp)
    {
      var actKey := actKeys[j];
      AbsentStep(actKeys, j, exp);
      if actKey !in exp {
        extraKeys := extraKeys + [actKey];
      }
      j := j + 1;
    }
  }

  /**
   * A key rendering strictly before the current key `others[from]` of the
   * other (sorted) list cannot be among the other list's keys: not ahead,
   * by sortedness, and not behind, by the loop's ordering invariant.
   */
  lemma BeforeAllOthers<K>(key: K, str: string, others: seq<K>, otherStrs: seq<string>,
                               from: nat, render: K -> string)
    requires str == render(key)
    requires Paired(others, otherStrs, render) && Sorted(otherStrs)
    requires from < |others| && Less(str, otherStrs[from])
    requires forall p :: 0 <= p < from ==> Less(otherStrs[p], str)
    ensures key !in others
    ensures forall q :: from <= q < |others| ==> Less(str, otherStrs[q])
  {
    forall q | from <= q < |others| ensures Less(str, otherStrs[q]) {
      LessThenLessEq(str, otherStrs[from], otherStrs[q]);
    }
    if key in others {
      var q :| 0 <= q < |others| && others[q] == key;
      LessIrreflexive(str);
    }
  }

  /**
   * Once the other list is used up, every key still ahead in `keys` is
   * absent from the other map, so the tail is exactly the leftover part of
   * the classification.
   */
  lemma Leftover<K(!new), V>(keys: seq<K>, strs: seq<string>, from: nat,
                             others: seq<K>, otherStrs: seq<string>,
                             m: map<K, V>, other: map<K, V>, render: K -> string)
    requires from <= |keys|
    requires Lists(others, other)
    requires Paired(keys, strs, render) && Paired(others, otherStrs, render)
    requires from < |keys| ==>
      forall p, q :: 0 <= p < |others| && from <= q < |keys| ==> Less(otherStrs[p], strs[q])
    ensures Absent(keys, other) == Absent(keys[..from], other) + keys[from..]
    ensures Changed(keys, m, other) == Changed(keys[..from], m, other)
  {
    forall k | k in keys[from..] ensures k !in other {
      var q :| from <= q < |keys| && keys[q] == k;
      NotAmongOthers(k, strs[q], others, otherStrs, render);
    }
    NoneHeld(keys[from..], m, other);
    assert keys == keys[..from] + keys[from..];
    AbsentAppend(keys[..from], keys[from..], other);
    ChangedAppend(keys[..from], keys[from..], m, other);
  }

  /** A key rendering before every rendering of a list is not in that list. */
  lemma NotAmongOthers<K>(key: K, str: string, others: seq<K>, otherStrs: seq<string>, render: K -> string)
    requires str == render(key) && Paired(others, otherStrs, render)
    requires forall p :: 0 <= p < |others| ==> Less(otherStrs[p], str)
    ensures key !in others
  {
    LessIrreflexive(str);
  }

  /** Passing one key of `a` that renders before all of `b` still ahead keeps the cross order. */
  lemma PassedOne(a: seq<string>, b: seq<string>, i: nat, j: nat)
    requires i < |a| && j <= |b|
    requires forall p, q :: 0 <= p < i && j <= q < |b| ==> Less(a[p], b[q])
    requires forall p, q :: 0 <= p < j && i <= q < |a| ==> Less(b[p], a[q])
    requires forall q :: j <= q < |b| ==> Less(a[i], b[q])
    ensures forall p, q :: 0 <= p < i + 1 && j <= q < |b| ==> Less(a[p], b[q])
    ensures forall p, q :: 0 <= p < j && i + 1 <= q < |a| ==> Less(b[p], a[q])
  {
  }

  /**
   * After both runs of one rendering `s` are consumed, the ordering
   * invariant of the merge-join holds again at the new positions.
   */
  lemma RunsPassed(expStrs: seq<string>, actStrs: seq<string>, i0: nat, i: nat, j0: nat, j: nat, s: string)
    requires Sorted(expStrs) && Sorted(actStrs)
    requires i0 < i <= |expStrs| && j0 < j <= |actStrs|
    requires forall p :: i0 <= p < i ==> expStrs[p] == s
    requires forall q :: j0 <= q < j ==> actStrs[q] == s
    requires i == |expStrs| || expStrs[i] != s
    requires j == |actStrs| || actStrs[j] != s
    requires forall p, q :: 0 <= p < i0 && j0 <= q < |actStrs| ==> Less(expStrs[p], actStrs[q])
    requires forall p, q :: 0 <= p < j0 && i0 <= q < |expStrs| ==> Less(actStrs[p], expStrs[q])
    ensures forall p, q :: 0 <= p < i && j <= q < |actStrs| ==> Less(expStrs[p], actStrs[q])
    ensures forall p, q :: 0 <= p < j && i <= q < |expStrs| ==> Less(actStrs[p], expStrs[q])
  {
    AfterRun(expStrs, i, s);
    AfterRun(actStrs, j, s);
  }

  /** After a maximal run of `s` ending at `end`, every later rendering is strictly greater. */
  lemma AfterRun(strs: seq<string>, end: nat, s: string)
    requires Sorted(strs) && 0 < end <= |strs| && strs[end - 1] == s
    requires end == |strs| || strs[end] != s
    ensures forall q :: end <= q < |strs| ==> Less(s, strs[q])
  {
    if end < |strs| {
      assert LessEq(strs[end - 1], strs[end]);
      forall q | end <= q < |strs| ensures Less(s, strs[q]) {
        LessThenLessEq(s, strs[end], strs[q]);
      }
    }
  }

  // ---- what the classification guarantees ----

  /**
   * Soundness and completeness: with key lists that name the maps' keys,
   * "missing" is exactly the keys only `exp` holds, "extra" exactly the keys
   * only `act` holds, and "changed" exactly the shared keys whose values differ.
   */
  lemma ClassificationExact<K(!new), V>(exp: map<K, V>, act: map<K, V>, expKeys: seq<K>, actKeys: seq<K>)
    requires Lists(expKeys, exp) && Lists(actKeys, act)
    ensures forall k :: k in Absent(expKeys, act) <==> k in exp && k !in act
    ensures forall k :: k in Changed(expKeys, exp, act) <==> k in exp && k in act && exp[k] != act[k]
    ensures forall k :: k in Absent(actKeys, exp) <==> k in act && k !in exp
  {
    AbsentMembers(expKeys, act);
    ChangedMembers(expKeys, exp, act);
    AbsentMembers(actKeys, exp);
  }

  lemma {:induction false} AbsentDistinct<K(!new), V>(keys: seq<K>, m: map<K, V>)
    requires Distinct(keys)
    ensures Distinct(Absent(keys, m))
    decreases |keys|
  {
    if keys != [] {
      var init, last := keys[..|keys| - 1], keys[|keys| - 1];
      AbsentDistinct(init, m);
      AbsentMembers(init, m);
      assert last !in init;
    }
  }

  lemma {:induction false} ChangedDistinct<K(!new), V>(keys: seq<K>, exp: map<K, V>, act: map<K, V>)
    requires Distinct(keys)
    ensures Distinct(Changed(keys, exp, act))
    decreases |keys|
  {
    if keys != [] {
      var init, last := keys[..|keys| - 1], keys[|keys| - 1];
      ChangedDistinct(init, exp, act);
      ChangedMembers(init, exp, act);
      assert last !in init;
    }
  }

  /**
   * Each expected key lands in exactly one place: missing, changed, or
   * silently matched; and no list repeats a key.
   */
  lemma EachKeyOnce<K(!new), V>(exp: map<K, V>, act: map<K, V>, expKeys: seq<K>, actKeys: seq<K>)
    requires Lists(expKeys, exp) && Lists(actKeys, act)
    requires Distinct(expKeys) && Distinct(actKeys)
    ensures forall k :: k in exp ==>
      (if k in Absent(expKeys, act) then 1 else 0) +
      (if k in Changed(expKeys, exp, act) then 1 else 0) +
      (if k in act && exp[k] == act[k] then 1 else 0) == 1
    ensures Distinct(Absent(expKeys, act)) && Distinct(Changed(expKeys, exp, act))
    ensures Distinct(Absent(actKeys, exp))
  {
    ClassificationExact(exp, act, expKeys, actKeys);
    AbsentDistinct(expKeys, act);
    ChangedDistinct(expKeys, exp, act);
    AbsentDistinct(actKeys, exp);
  }

  lemma {:induction false} AbsentSorted<K(!new), V>(keys: seq<K>, m: map<K, V>, render: K -> string)
    requires SortedBy(keys, render)
    ensures SortedBy(Absent(keys, m), render)
    decreases |keys|
  {
    if keys != [] {
      var init, last := keys[..|keys| - 1], keys[|keys| - 1];
      AbsentSorted(init, m, render);
      AbsentMembers(init, m);
      forall k | k in Absent(init, m) ensures LessEq(render(k), render(last)) {
        var p :| 0 <= p < |init| && init[p] == k;
      }
    }
  }

  lemma {:induction false} ChangedSorted<K(!new), V>(keys: seq<K>, exp: map<K, V>, act: map<K, V>, render: K -> string)
    requires SortedBy(keys, render)
    ensures SortedBy(Changed(keys, exp, act), render)
    decreases |keys|
  {
    if keys != [] {
      var init, last := keys[..|keys| - 1], keys[|keys| - 1];
      ChangedSorted(init, exp, act, render);
      ChangedMembers(init, exp, act);
      forall k | k in Changed(init, exp, act) ensures LessEq(render(k), render(last)) {
        var p :| 0 <= p < |init| && init[p] == k;
      }
    }
  }

  /**
   * Output order: keys are appended while both pointers move forward over
   * lists sorted by rendering, so each result list is sorted by rendering.
   */
  lemma ClassificationSorted<K(!new), V>(exp: map<K, V>, act: map<K, V>,
                                         expKeys: seq<K>, actKeys: seq<K>, render: K -> string)
    requires SortedBy(expKeys, render) && SortedBy(actKeys, render)
    ensures SortedBy(Absent(expKeys, act), render)
    ensures SortedBy(Changed(expKeys, exp, act), render)
    ensures SortedBy(Absent(actKeys, exp), render)
  {
    AbsentSorted(expKeys, act, render);
    ChangedSorted(expKeys, exp, act, render);
    AbsentSorted(actKeys, exp, render);
  }

  lemma EmptyIffNoMember<K>(s: seq<K>)
    ensures s == [] <==> forall k :: k !in s
  {
    if s != [] {
      assert s[0] in s;
    }
  }

  /** Identity, both ways: the three lists are empty exactly when the maps are equal. */
  lemma NothingToReportIffEqual<K(!new), V>(exp: map<K, V>, act: map<K, V>, expKeys: seq<K>, actKeys: seq<K>)
    requires Lists(expKeys, exp) && Lists(actKeys, act)
    ensures (Absent(expKeys, act) == [] && Changed(expKeys, exp, act) == [] && Absent(actKeys, exp) == [])
            <==> exp == act
  {
    ClassificationExact(exp, act, expKeys, actKeys);
    var missing, changed, extra := Absent(expKeys, act), Changed(expKeys, exp, act), Absent(actKeys, exp);
    EmptyIffNoMember(missing);
    EmptyIffNoMember(changed);
    EmptyIffNoMember(extra);
    if missing == [] && changed == [] && extra == [] {
      assert exp.Keys == act.Keys;
      assert forall k :: k in exp ==> exp[k] == act[k];
    }
  }

  /**
   * Collision safety: two distinct keys with the same rendering, one only in
   * `exp` and one only in `act`, are never paired as one entry: the first is
   * reported missing and the second extra, and neither as changed.
   */
  lemma CollisionKeptApart<K(!new), V>(exp: map<K, V>, act: map<K, V>, expKeys: seq<K>, actKeys: seq<K>,
                                       render: K -> string, k1: K, k2: K)
    requires Lists(expKeys, exp) && Lists(actKeys, act)
    requires k1 != k2 && render(k1) == render(k2)
    requires k1 in exp && k1 !in act && k2 in act && k2 !in exp
    ensures k1 in Absent(expKeys, act) && k2 in Absent(actKeys, exp)
    ensures k1 !in Changed(expKeys, exp, act) && k2 !in Changed(expKeys, exp, act)
  {
    ClassificationExact(exp, act, expKeys, actKeys);
  }

  // ---- mapDiff ----

  /** One report line of a map difference: a key with its value on one side. */
  datatype MapLine<K, V> = MapLine(side: Side, key: K, value: V)

  /** One line per key, on `side`, with the key's value in `m`. */
  function EntryLines<K(==), V>(side: Side, keys: seq<K>, m: map<K, V>): seq<MapLine<K, V>>
    requires forall k :: k in keys ==> k in m
  {
    if keys == [] then []
    else
      var last := keys[|keys| - 1];
      EntryLines(side, keys[..|keys| - 1], m) + [MapLine(side, last, m[last])]
  }

  /** Two lines per changed key: its expected value, then its actual value. */
  function ChangedLines<K(==), V>(keys: seq<K>, exp: map<K, V>, act: map<K, V>): seq<MapLine<K, V>>
    requires forall k :: k in keys ==> k in exp && k in act
  {
    if keys == [] then []
    else
      var last := keys[|keys| - 1];
      ChangedLines(keys[..|keys| - 1], exp, act) + [MapLine(Exp, last, exp[last]), MapLine(Act, last, act[last])]
  }

  lemma {:induction false} EntryLinesLength<K, V>(side: Side, keys: seq<K>, m: map<K, V>)
    requires forall k :: k in keys ==> k in m
    ensures |EntryLines(side, keys, m)| == |keys|
    decreases |keys|
  {
    if keys != [] {
      EntryLinesLength(side, keys[..|keys| - 1], m);
    }
  }

  lemma {:induction false} ChangedLinesLength<K, V>(keys: seq<K>, exp: map<K, V>, act: map<K, V>)
    requires forall k :: k in keys ==> k in exp && k in act
    ensures |ChangedLines(keys, exp, act)| == 2 * |keys|
    decreases |keys|
  {
    if keys != [] {
      ChangedLinesLength(keys[..|keys| - 1], exp, act);
    }
  }

  /**
   * mapDiff: the title from the two sizes, then every missing key with its
   * expected value, every changed key as an expected/actual pair, and every
   * extra key with its actual value, in that order. The three key lists are
   * exactly what the classification promises: the right keys, each once,
   * in order of rendering.
   */
  method MapDiff<K(==, !new), V(==)>(act: map<K, V>, exp: map<K, V>, render: K -> string)
    returns (report: Report<MapLine<K, V>>,
             ghost missingKeys: seq<K>, ghost diffKeys: seq<K>, ghost extraKeys: seq<K>)
    ensures forall k :: k in missingKeys <==> k in exp && k !in act
    ensures forall k :: k in diffKeys <==> k in exp && k in act && exp[k] != act[k]
    ensures forall k :: k in extraKeys <==> k in act && k !in exp
    ensures Distinct(missingKeys) && Distinct(diffKeys) && Distinct(extraKeys)
    ensures SortedBy(missingKeys, render) && SortedBy(diffKeys, render) && SortedBy(extraKeys, render)
    ensures report.title == TitleFor(|exp|, |act|)
    ensures report.lines == EntryLines(Exp, missingKeys, exp) + ChangedLines(diffKeys, exp, act) +
                            EntryLines(Act, extraKeys, act)
    ensures report.lines == [] <==> exp == act
  {
    var expCount, actCount, missing, diff, extra := ClassifyKeys(act, exp, render);
    var title := TitleFor(expCount, actCount);
    var lines := EmitEntries([], Exp, missing, exp);
    assert lines == EntryLines(Exp, missing, exp);
    lines := EmitChanged(lines, diff, exp, act);
    lines := EmitEntries(lines, Act, extra, act);
    report := Report(title, lines);
    missingKeys, diffKeys, extraKeys := missing, diff, extra;
    MapReportEmptyIffEqual(exp, act, missing, diff, extra);
  }

  /**
   * The first half of mapDiff: both maps' keys collected and sorted, then
   * classified; the counts are the lengths of the two key lists.
   */
  method ClassifyKeys<K(==, !new), V(==)>(act: map<K, V>, exp: map<K, V>, render: K -> string)
    returns (expCount: nat, actCount: nat, missingKeys: seq<K>, diffKeys: seq<K>, extraKeys: seq<K>)
    ensures expCount == |exp| && actCount == |act|
    ensures forall k :: k in missingKeys <==> k in exp && k !in act
    ensures forall k :: k in diffKeys <==> k in exp && k in act && exp[k] != act[k]
    ensures forall k :: k in extraKeys <==> k in act && k !in exp
    ensures Distinct(missingKeys) && Distinct(diffKeys) && Distinct(extraKeys)
    ensures SortedBy(missingKeys, render) && SortedBy(diffKeys, render) && SortedBy(extraKeys, render)
  {
    var actKeys, actKeyStrs := CollectAndSortMapKeys(act, render);
    var expKeys, expKeyStrs := CollectAndSortMapKeys(exp, render);
    PermutationOfSet(actKeys, act.Keys);
    PermutationOfSet(expKeys, exp.Keys);
    PairedSorted(actKeys, actKeyStrs, render);
    PairedSorted(expKeys, expKeyStrs, render);
    extraKeys, diffKeys, missingKeys := CollectMapDiffKeys(act, exp, actKeys, expKeys, actKeyStrs, expKeyStrs, render);
    ClassificationExact(exp, act, expKeys, actKeys);
    EachKeyOnce(exp, act, expKeys, actKeys);
    ClassificationSorted(exp, act, expKeys, actKeys, render);
    expCount, actCount := |expKeys|, |actKeys|;
  }

  /** One of mapDiff's single-sided loops: a line per key, with its value on that side. */
  method EmitEntries<K(==), V>(lines: seq<MapLine<K, V>>, side: Side, keys: seq<K>, m: map<K, V>)
    returns (out: seq<MapLine<K, V>>)
    requires forall k :: k in keys ==> k in m
    ensures out == lines + EntryLines(side, keys, m)
  {
    out := lines;
    for t := 0 to |keys|
      invariant out == lines + EntryLines(side, keys[..t], m)
    {
      assert keys[..t + 1][..t] == keys[..t];
      out := out + [MapLine(side, keys[t], m[keys[t]])];
    }
    assert keys[..|keys|] == keys;
  }

  /** mapDiff's loop over changed keys: the expected value's line, then the actual one's. */
  method EmitChanged<K(==), V>(lines: seq<MapLine<K, V>>, keys: seq<K>, exp: map<K, V>, act: map<K, V>)
    returns (out: seq<MapLine<K, V>>)
    requires forall k :: k in keys ==> k in exp && k in act
    ensures out == lines + ChangedLines(keys, exp, act)
  {
    out := lines;
    for t := 0 to |keys|
      invariant out == lines + ChangedLines(keys[..t], exp, act)
    {
      assert keys[..t + 1][..t] == keys[..t];
      out := out + [MapLine(Exp, keys[t], exp[keys[t]]), MapLine(Act, keys[t], act[keys[t]])];
    }
    assert keys[..|keys|] == keys;
  }

  lemma PairedSorted<K>(keys: seq<K>, strs: seq<string>, render: K -> string)
    requires Paired(keys, strs, render) && Sorted(strs)
    ensures SortedBy(keys, render)
  {
  }

  /**
   * The map report has no difference lines exactly when the maps are equal.
   * (The source's own equality test, reflect.DeepEqual, also tells a nil map
   * from an empty one, so mapDiff can be reached with two empty maps and
   * then reports no lines.)
   */
  lemma MapReportEmptyIffEqual<K(!new), V>(exp: map<K, V>, act: map<K, V>,
                                           missingKeys: seq<K>, diffKeys: seq<K>, extraKeys: seq<K>)
    requires forall k :: k in missingKeys <==> k in exp && k !in act
    requires forall k :: k in diffKeys <==> k in exp && k in act && exp[k] != act[k]
    requires forall k :: k in extraKeys <==> k in act && k !in exp
    ensures (EntryLines(Exp, missingKeys, exp) + ChangedLines(diffKeys, exp, act) +
             EntryLines(Act, extraKeys, act) == []) <==> exp == act
  {
    EntryLinesLength(Exp, missingKeys, exp);
    ChangedLinesLength(diffKeys, exp, act);
    EntryLinesLength(Act, extraKeys, act);
    EmptyIffNoMember(missingKeys);
    EmptyIffNoMember(diffKeys);
    EmptyIffNoMember(extraKeys);
    if missingKeys == [] && diffKeys == [] && extraKeys == [] {
      assert exp.Keys == act.Keys;
      assert forall k :: k in exp ==> exp[k] == act[k];
    }
  }

  // ---- mapValueToStr and the text of a line ----

  /**
   * mapValueToStr: ": " and the quoted value, or nothing when the value
   * prints as "{}" (an empty struct: the map is used as a set).
   */
  function MapValueToStr(shown: string, quote: string -> string): (r: string)
    ensures r == "" <==> shown == "{}"
    ensures r != "" ==> |r| >= 2 && r[..2] == ": " && r[2..] == quote(shown)
  {
    if shown == "{}" then "" else ": " + quote(shown)
  }

  /** The text mapDiff logs for a line: marker, quoted key rendering, value part. */
  function MapLineText<K, V>(l: MapLine<K, V>, render: K -> string, show: V -> string,
                             quote: string -> string): (s: string)
    ensures |s| >= 8 + |quote(render(l.key))|
    ensures s[..8] == "    " + Marker(l.side) + " "
    ensures s[8..8 + |quote(render(l.key))|] == quote(render(l.key))
    ensures s[8 + |quote(render(l.key))|..] == MapValueToStr(show(l.value), quote)
  {
    var head, key, value := "    " + Marker(l.side) + " ", quote(render(l.key)), MapValueToStr(show(l.value), quote);
    ThreeParts(head, key, value);
    head + key + value
  }

  /**
   * Everything mapDiff hands the sink for a report: the title, which names
   * "entries" and says "both " exactly for a title of equal sizes, the
   * header, then each line's text in order.
   */
  function MapReportText<K, V>(prefix: string, name: string, r: Report<MapLine<K, V>>,
                               render: K -> string, show: V -> string, quote: string -> string): (logs: seq<Log>)
    ensures |logs| == |r.lines| + 2
    ensures logs[0] == Error(TitleText(prefix, name, r.title, "entries")) && logs[1] == Info(Header)
    ensures |logs[0].text| > 8 && logs[0].text[|logs[0].text| - 8..] == " entries"
    ensures r.title.Both? <==> logs[0].text[|prefix| + 13 + |name|..][..5] == "both "
    ensures forall x :: 0 <= x < |r.lines| ==> logs[x + 2] == Info(MapLineText(r.lines[x], render, show, quote))
  {
    assert " " + "entries" == " entries";
    RenderReport(prefix, name, "entries", r, l => MapLineText(l, render, show, quote))
  }
}
