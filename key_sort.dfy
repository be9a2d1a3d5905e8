/**
 * collectAndSortMapKeys: the keys of a map together with their renderings,
 * sorted by rendering. The two arrays are swapped in lockstep, so each
 * rendering stays beside its key.
 */
module KeySort {
  import opened StringOrder

  /** `strs[p]` is the rendering of `keys[p]`, at every position. */
  predicate Paired<K>(keys: seq<K>, strs: seq<string>, render: K -> string)
  {
    |keys| == |strs| && forall p :: 0 <= p < |keys| ==> strs[p] == render(keys[p])
  }

  predicate Distinct<K(==)>(keys: seq<K>)
  {
    forall p, q :: 0 <= p < q < |keys| ==> keys[p] != keys[q]
  }

  /** Keys in non-decreasing order of their renderings. */
  predicate SortedBy<K>(keys: seq<K>, render: K -> string)
  {
    forall p, q :: 0 <= p < q < |keys| ==> LessEq(render(keys[p]), render(keys[q]))
  }

  /**
   * reflect.Value.MapKeys: every key once, in an order Go leaves unspecified;
   * here the order is whatever the choices below pick.
   */
  method MapKeys<K(==), V>(m: map<K, V>) returns (keys: seq<K>)
    ensures multiset(keys) == multiset(m.Keys)
  {
    keys := [];
    var rest := m.Keys;
    while rest != {}
      invariant rest <= m.Keys
      invariant multiset(keys) + multiset(rest) == multiset(m.Keys)
      decreases |rest|
    {
      var k :| k in rest;
      assert multiset(rest) == multiset(rest - {k}) + multiset{k};
      keys := keys + [k];
      rest := rest - {k};
    }
  }

  /** The SwapF closure: both arrays swap positions `p` and `q` together. */
  method Swap<K>(keys: array<K>, strs: array<string>, p: nat, q: nat)
    requires keys as object != strs as object
    requires p < keys.Length && q < keys.Length && keys.Length == strs.Length
    modifies keys, strs
    ensures keys[..] == old(keys[..])[p := old(keys[q])][q := old(keys[p])]
    ensures strs[..] == old(strs[..])[p := old(strs[q])][q := old(strs[p])]
  {
    strs[p], strs[q] := strs[q], strs[p];
    keys[p], keys[q] := keys[q], keys[p];
  }

  /**
   * sort.Sort over the pair of arrays, through Less on the renderings and Swap
   * only. Go's algorithm is not specified (and not stable); this is a
   * selection sort, which uses the same two operations.
   */
  method SortByRendering<K>(keys: array<K>, strs: array<string>, ghost render: K -> string)
    requires keys as object != strs as object
    requires Paired(keys[..], strs[..], render)
    modifies keys, strs
    ensures Paired(keys[..], strs[..], render)
    ensures Sorted(strs[..])
    ensures multiset(keys[..]) == multiset(old(keys[..]))
  {
    var i := 0;
    while i < keys.Length
      invariant 0 <= i <= keys.Length
      invariant Paired(keys[..], strs[..], render)
      invariant multiset(keys[..]) == multiset(old(keys[..]))
      invariant SortedUpTo(strs[..], i)
    {
      PlaceLeast(keys, strs, i, render);
      i := i + 1;
    }
  }

  /**
   * The first `i` renderings are in order, and none of them sorts after any
   * rendering not yet placed.
   */
  predicate SortedUpTo(ss: seq<string>, i: nat)
  {
    (forall p, q :: 0 <= p < q < i && q < |ss| ==> LessEq(ss[p], ss[q]))
    && (forall p, q :: 0 <= p < i <= q < |ss| ==> LessEq(ss[p], ss[q]))
  }

  /** One selection step: a least remaining rendering, with its key, swapped into position `i`. */
  method PlaceLeast<K>(keys: array<K>, strs: array<string>, i: nat, ghost render: K -> string)
    requires keys as object != strs as object
    requires i < keys.Length && Paired(keys[..], strs[..], render)
    requires SortedUpTo(strs[..], i)
    modifies keys, strs
    ensures Paired(keys[..], strs[..], render)
    ensures multiset(keys[..]) == multiset(old(keys[..]))
    ensures SortedUpTo(strs[..], i + 1)
  {
    var least := IndexOfLeast(strs, i);
    ghost var ks, ss := keys[..], strs[..];
    Swap(keys, strs, i, least);
    SwapKeepsMultiset(ks, i, least);
    SwapKeepsPaired(ks, ss, i, least, render);
    SelectionStep(ss, i, least);
  }

  lemma SwapKeepsMultiset<K>(s: seq<K>, p: nat, q: nat)
    requires p < |s| && q < |s|
    ensures multiset(s[p := s[q]][q := s[p]]) == multiset(s)
  {
    var t := s[p := s[q]];
    assert multiset(t) == multiset(s) - multiset{s[p]} + multiset{s[q]};
  }

  lemma SwapKeepsPaired<K>(keys: seq<K>, strs: seq<string>, p: nat, q: nat, render: K -> string)
    requires Paired(keys, strs, render) && p < |keys| && q < |keys|
    ensures Paired(keys[p := keys[q]][q := keys[p]], strs[p := strs[q]][q := strs[p]], render)
  {
  }

  /** Moving a least remaining rendering to position `i` extends the sorted prefix by one. */
  lemma SelectionStep(ss: seq<string>, i: nat, least: nat)
    requires i <= least < |ss|
    requires SortedUpTo(ss, i)
    requires forall t :: i <= t < |ss| ==> LessEq(ss[least], ss[t])
    ensures SortedUpTo(ss[i := ss[least]][least := ss[i]], i + 1)
  {
  }

  /** The position of a least rendering among `strs[from..]`, found with Less alone. */
  method IndexOfLeast(strs: array<string>, from: nat) returns (least: nat)
    requires from < strs.Length
    ensures from <= least < strs.Length
    ensures forall t :: from <= t < strs.Length ==> LessEq(strs[least], strs[t])
  {
    least := from;
    var k := from + 1;
    while k < strs.Length
      invariant from <= least < k <= strs.Length
      invariant forall t :: from <= t < k ==> LessEq(strs[least], strs[t])
    {
      if Less(strs[k], strs[least]) {
        forall t | from <= t < k
          ensures LessEq(strs[k], strs[t])
        {
          LessThenLessEq(strs[k], strs[least], strs[t]);
        }
        least := k;
      } else {
        LessTrichotomous(strs[k], strs[least]);
      }
      k := k + 1;
    }
  }

  /** collectAndSortMapKeys: the map's keys, each once, sorted by rendering, renderings beside. */
  method CollectAndSortMapKeys<K(==), V>(m: map<K, V>, render: K -> string)
    returns (keys: seq<K>, keyStrs: seq<string>)
    ensures multiset(keys) == multiset(m.Keys)
    ensures Paired(keys, keyStrs, render)
    ensures Sorted(keyStrs)
  {
    var found := MapKeys(m);
    var keyArr := new K[|found|](p requires 0 <= p < |found| => found[p]);
    var strArr := new string[keyArr.Length];
    for p := 0 to keyArr.Length
      invariant keyArr[..] == found
      invariant forall t :: 0 <= t < p ==> strArr[t] == render(keyArr[t])
    {
      strArr[p] := render(keyArr[p]);
    }
    SortByRendering(keyArr, strArr, render);
    keys, keyStrs := keyArr[..], strArr[..];
  }

  /** A sequence with the multiset of a set lists that set's members, each exactly once. */
  lemma PermutationOfSet<K>(keys: seq<K>, s: set<K>)
    requires multiset(keys) == multiset(s)
    ensures Distinct(keys)
    ensures |keys| == |s|
    ensures forall k :: k in keys <==> k in s
  {
    assert |keys| == |multiset(keys)| == |multiset(s)| == |s|;
    forall k ensures k in keys <==> k in s {
      assert k in keys <==> k in multiset(keys);
    }
    forall p, q | 0 <= p < q < |keys|
      ensures keys[p] != keys[q]
    {
      RepeatCounted(keys, p, q);
    }
  }

  lemma RepeatCounted<K>(keys: seq<K>, p: nat, q: nat)
    requires p < q < |keys|
    ensures keys[p] == keys[q] ==> multiset(keys)[keys[p]] >= 2
  {
    assert keys == keys[..q] + keys[q..];
    assert keys[p] in keys[..q];
    assert keys[q] == keys[q..][0];
  }
}
