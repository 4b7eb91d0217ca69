/**
 * The trimming step of `trimFits`: collect the positions of the extensions
 * whose CCDNUM is not requested, sort those positions in descending order and
 * pop them one by one from the HDU list. Opening the input file and writing
 * the output file are not modelled: the step takes the HDUs of the opened
 * file and returns the HDUs that would be written.
 */
module TrimFits {
  import opened HduLists
  import opened TrimSpec

  /** Reading CCDNUM from an extension that has none raises a KeyError. */
  datatype TrimError = MissingCcdNum(index: nat)

  datatype Result<T> = Success(value: T) | Failure(error: TrimError)

  /** `i` is the first extension without a CCDNUM header. */
  predicate FirstMissingCcdNum(hs: seq<Hdu>, i: nat)
  {
    1 <= i < |hs| && hs[i].ccdNum.None? && forall k :: 1 <= k < i ==> hs[k].ccdNum.Some?
  }

  /** Walks the extensions 1 .. |hs|-1 and lists, in increasing order, those
      whose CCDNUM is not in `ccds`; fails at the first extension lacking CCDNUM. */
  method CollectRemovals(hs: seq<Hdu>, ccds: seq<int>) returns (r: Result<seq<nat>>)
    ensures r.Success? <==> ExtensionsHaveCcdNum(hs)
    ensures r.Success? ==> r.value == Removals(hs, ccds, |hs|)
    ensures r.Success? ==> StrictlyIncreasing(r.value)
    ensures r.Success? ==> forall k :: k in r.value <==> 1 <= k < |hs| && hs[k].ccdNum.value !in ccds
    ensures r.Failure? ==> FirstMissingCcdNum(hs, r.error.index)
  {
    var toRemove: seq<nat> := [];
    var i := 1;
    while i < |hs|
      invariant 1 <= i
      invariant i <= |hs| || |hs| == 0
      invariant forall k :: 1 <= k < i && k < |hs| ==> hs[k].ccdNum.Some?
      invariant toRemove == Removals(hs, ccds, if i <= |hs| then i else |hs|)
    {
      match hs[i].ccdNum
      case None =>
        return Failure(MissingCcdNum(i));
      case Some(c) =>
        if c !in ccds {
          toRemove := toRemove + [i];
        }
      i := i + 1;
    }
    RemovalsSpec(hs, ccds, |hs|);
    r := Success(toRemove);
  }

  /** Sorts in descending order (the contract of `list.sort(reverse=True)` on integers). */
  method SortDescending(s: seq<nat>) returns (t: seq<nat>)
    ensures NonIncreasing(t)
    ensures multiset(t) == multiset(s)
  {
    t := [];
    for i := 0 to |s|
      invariant NonIncreasing(t)
      invariant multiset(t) == multiset(s[..i])
    {
      t := InsertDescending(t, s[i]);
      assert s[..i + 1] == s[..i] + [s[i]];
    }
    assert s[..|s|] == s;
  }

  /** Inserts `x` into the non-increasing list `t` after every element not smaller than it. */
  method InsertDescending(t: seq<nat>, x: nat) returns (u: seq<nat>)
    requires NonIncreasing(t)
    ensures NonIncreasing(u)
    ensures multiset(u) == multiset(t) + multiset{x}
  {
    var k := 0;
    while k < |t| && t[k] >= x
      invariant 0 <= k <= |t|
      invariant forall j :: 0 <= j < k ==> t[j] >= x
    {
      k := k + 1;
    }
    InsertAt(t, x, k);
    assert t == t[..k] + t[k..];
    u := t[..k] + [x] + t[k..];
  }

  /** Placing `x` where every element before it is not smaller and every element
      after it is smaller keeps a non-increasing list non-increasing. */
  lemma InsertAt(t: seq<nat>, x: nat, k: nat)
    requires NonIncreasing(t)
    requires k <= |t|
    requires forall j :: 0 <= j < k ==> t[j] >= x
    requires forall j :: k <= j < |t| ==> t[j] < x
    ensures NonIncreasing(t[..k] + [x] + t[k..])
  {
    var front, back := t[..k], t[k..];
    var u := front + [x] + back;
    assert forall i :: 0 <= i < k ==> u[i] == front[i] == t[i];
    assert u[k] == x;
    assert forall i :: k < i < |u| ==> u[i] == back[i - k - 1] == t[i - 1];
  }

  /** Pops the positions of `order` from `list`, one at a time and in that order.
      Because `order` is strictly decreasing, each position is still in range
      when it is popped and still holds the HDU it had originally. */
  method PopAll(list: HduList, order: seq<nat>) returns (removed: seq<Hdu>)
    requires StrictlyDecreasing(order)
    requires forall j :: 0 <= j < |order| ==> order[j] < |list.hdus|
    modifies list
    ensures list.hdus == Drop(old(list.hdus), Elems(order))
    ensures |list.hdus| == |old(list.hdus)| - |order|
    ensures |removed| == |order|
    ensures forall j :: 0 <= j < |order| ==> removed[j] == old(list.hdus)[order[j]]
  {
    ghost var original := list.hdus;
    DropBeyond(original, {});
    assert Elems(order[..0]) == {};
    removed := [];
    for j := 0 to |order|
      invariant list.hdus == Drop(original, Elems(order[..j]))
      invariant |list.hdus| == |original| - j
      invariant |removed| == j
      invariant forall m :: 0 <= m < j ==> removed[m] == original[order[m]]
    {
      DecreasingPrefixAbove(order, j);
      DropPop(original, Elems(order[..j]), order[j]);
      var h := list.Pop(order[j]);
      removed := removed + [h];
      ElemsSnoc(order, j);
    }
    assert order[..|order|] == order;
  }

  /** The whole step: given the HDUs of the opened file, returns the HDUs that are
      written out, or the KeyError raised when an extension has no CCDNUM. */
  method Trim(hs: seq<Hdu>, ccds: seq<int>) returns (r: Result<seq<Hdu>>)
    ensures r.Success? <==> ExtensionsHaveCcdNum(hs)
    ensures r.Failure? ==> FirstMissingCcdNum(hs, r.error.index)
    ensures r.Success? ==> r.value == Trimmed(hs, ccds)
    ensures r.Success? ==> |r.value| == |hs| - |Removals(hs, ccds, |hs|)|
  {
    var list := new HduList(hs);
    var collected := CollectRemovals(list.hdus, ccds);
    if collected.Failure? {
      return Failure(collected.error);
    }
    var toRemove := collected.value;
    toRemove := SortDescending(toRemove);
    DescendingSortOfIncreasing(collected.value, toRemove);
    forall j | 0 <= j < |toRemove|
      ensures toRemove[j] < |list.hdus|
    {
      assert toRemove[j] in Elems(toRemove);
    }
    var _ := PopAll(list, toRemove);
    DropIsTrimmed(hs, ccds, Elems(toRemove));
    r := Success(list.hdus);
  }
}
