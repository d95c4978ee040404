// Sparse-matrix structure maintenance of the kinetic-scheme solver.
//
// Pointers of the C code are integer handles into a heap held as a
// sequence field (`Null` is the null pointer). The order list is a
// circular doubly-linked list of items with one sentinel; its ghost field
// `order` is the sequence of items after the sentinel, in link order.
module Sparse {

  const Null: int := -1

  /** Modulus of a C `unsigned`. */
  const UintMod: int := 0x1_0000_0000

  /** `n++` and `n--` on an unsigned counter. */
  function Inc32(n: int): (r: int)
    requires 0 <= n < UintMod
    ensures 0 <= r < UintMod
    ensures n + 1 < UintMod ==> r == n + 1
    ensures n + 1 == UintMod ==> r == 0
  {
    (n + 1) % UintMod
  }

  function Dec32(n: int): (r: int)
    requires 0 <= n < UintMod
    ensures 0 <= r < UintMod
    ensures 0 < n ==> r == n - 1
    ensures n == 0 ==> r == UintMod - 1
  {
    (n - 1) % UintMod
  }

  /** `s` with every occurrence of `x` removed. */
  function Without(s: seq<int>, x: int): (r: seq<int>)
    ensures |r| <= |s|
    ensures forall y :: y in r <==> y in s && y != x
  {
    if s == [] then []
    else if s[0] == x then Without(s[1..], x)
    else [s[0]] + Without(s[1..], x)
  }

  lemma {:induction false} WithoutConcat(a: seq<int>, b: seq<int>, x: int)
    ensures Without(a + b, x) == Without(a, x) + Without(b, x)
  {
    if a == [] {
      assert a + b == b;
    } else {
      assert (a + b)[1..] == a[1..] + b;
      WithoutConcat(a[1..], b, x);
    }
  }

  lemma {:induction false} WithoutAbsent(s: seq<int>, x: int)
    requires x !in s
    ensures Without(s, x) == s
  {
    if s != [] {
      WithoutAbsent(s[1..], x);
    }
  }

  /** Removing an item from a list where it occurs once, or splicing it in,
      leaves the other items in their relative order. */
  lemma WithoutSplice(s: seq<int>, k: int, x: int)
    requires 0 <= k <= |s| && x !in s
    ensures Without(s[..k] + [x] + s[k..], x) == s
  {
    var a, b := s[..k], s[k..];
    assert a + b == s;
    assert x !in a && x !in b;
    WithoutConcat(a + [x], b, x);
    WithoutConcat(a, [x], x);
    assert Without([x], x) == Without([x][1..], x) == [];
    WithoutAbsent(a, x);
    WithoutAbsent(b, x);
    assert a + [] == a;
  }

  lemma WithoutRemove(s: seq<int>, k: int)
    requires 0 <= k < |s|
    requires forall j :: 0 <= j < |s| && j != k ==> s[j] != s[k]
    ensures Without(s, s[k]) == s[..k] + s[k+1..]
  {
    var x, a, b := s[k], s[..k], s[k+1..];
    var r := a + b;
    forall j | 0 <= j < |r|
      ensures r[j] != x
    {
      if j < k {
        assert r[j] == s[j];
      } else {
        assert r[j] == s[j + 1];
      }
    }
    assert r[..k] == a && r[k..] == b;
    WithoutSplice(r, k, x);
    assert a + [x] + b == s;
  }

  /** Position `k` of a list whose items are `o`; the sentinel stands at
      position |o|. */
  function At(o: seq<int>, head: int, k: int): int
    requires 0 <= k <= |o|
  {
    if k < |o| then o[k] else head
  }

  /** The items listed in `o` are in the heap, distinct and not the sentinel. */
  ghost predicate ListItems(n: int, head: int, o: seq<int>)
  {
    && 0 <= head < n
    && (forall k :: 0 <= k < |o| ==> 0 <= o[k] < n && o[k] != head)
    && (forall j, k :: 0 <= j < k < |o| ==> o[j] != o[k])
  }

  /** The `next` links agree with `o`; unlisted items have a null next. */
  ghost predicate NextLinks(next: seq<int>, head: int, o: seq<int>)
    requires ListItems(|next|, head, o)
  {
    && next[head] == At(o, head, 0)
    && (forall k {:trigger next[o[k]]} :: 0 <= k < |o| ==> next[o[k]] == At(o, head, k + 1))
    && (forall h :: 0 <= h < |next| && h != head && h !in o ==> next[h] == Null)
  }

  /** The `prev` links agree with `o`; unlisted items have a null prev. */
  ghost predicate PrevLinks(prev: seq<int>, head: int, o: seq<int>)
    requires ListItems(|prev|, head, o)
  {
    && prev[head] == (if o == [] then head else o[|o| - 1])
    && (forall k {:trigger prev[o[k]]} :: 0 <= k < |o| ==> prev[o[k]] == (if k == 0 then head else o[k - 1]))
    && (forall h :: 0 <= h < |prev| && h != head && h !in o ==> prev[h] == Null)
  }

  /** Non-decreasing `norder` along the list. */
  ghost predicate ListSorted(norder: seq<int>, o: seq<int>)
    requires forall k :: 0 <= k < |o| ==> 0 <= o[k] < |norder|
  {
    forall j, k :: 0 <= j < k < |o| ==> norder[o[j]] <= norder[o[k]]
  }

  /** Splicing `i` in at position `p`, and taking position `p` out. */
  lemma SpliceItems(n: int, head: int, o: seq<int>, p: int, i: int)
    requires ListItems(n, head, o)
    requires 0 <= p <= |o| && 0 <= i < n && i != head && i !in o
    ensures ListItems(n, head, o[..p] + [i] + o[p..])
  {
    var o2 := o[..p] + [i] + o[p..];
    assert forall k :: 0 <= k < |o2| ==> o2[k] == (if k < p then o[k] else if k == p then i else o[k - 1]);
  }

  lemma RemoveItems(n: int, head: int, o: seq<int>, p: int)
    requires ListItems(n, head, o) && 0 <= p < |o|
    ensures ListItems(n, head, o[..p] + o[p+1..])
    ensures o[p] !in o[..p] + o[p+1..]
  {
    var o2 := o[..p] + o[p+1..];
    assert forall k :: 0 <= k < |o2| ==> o2[k] == (if k < p then o[k] else o[k + 1]);
  }

  /** The two `next` writes of `linkitem`: listed items. */
  lemma SpliceNextListed(next: seq<int>, prev: seq<int>, head: int, o: seq<int>, p: int, i: int)
    requires |prev| == |next| && ListItems(|next|, head, o)
    requires NextLinks(next, head, o) && PrevLinks(prev, head, o)
    requires 0 <= p <= |o| && 0 <= i < |next| && i != head && i !in o
    ensures var o2 := o[..p] + [i] + o[p..];
            var next2 := next[i := At(o, head, p)][prev[At(o, head, p)] := i];
            next2[head] == At(o2, head, 0) &&
            forall k :: 0 <= k < |o2| ==> next2[o2[k]] == At(o2, head, k + 1)
  {
    var item := At(o, head, p);
    var ip := prev[item];
    assert ip == (if p == 0 then head else o[p - 1]);
    var o2 := o[..p] + [i] + o[p..];
    var next2 := next[i := item][ip := i];
    assert |o2| == |o| + 1 && o2[p] == i;
    assert forall k :: 0 <= k < p ==> o2[k] == o[k];
    assert forall k :: p < k < |o2| ==> o2[k] == o[k - 1];
    forall k | 0 <= k < |o2|
      ensures next2[o2[k]] == At(o2, head, k + 1)
    {
      if k < p - 1 {
        assert o2[k] == o[k] && o2[k + 1] == o[k + 1] && o[k] != ip;
      } else if k == p - 1 {
        assert o2[k] == ip;
      } else if k > p {
        assert o2[k] == o[k - 1] && o[k - 1] != ip;
        assert At(o2, head, k + 1) == At(o, head, k);
      }
    }
  }


  /** The two `next` writes of `linkitem`: unlisted items. */
  lemma SpliceNextUnlisted(next: seq<int>, prev: seq<int>, head: int, o: seq<int>, p: int, i: int)
    requires |prev| == |next| && ListItems(|next|, head, o)
    requires NextLinks(next, head, o) && PrevLinks(prev, head, o)
    requires 0 <= p <= |o| && 0 <= i < |next| && i != head && i !in o
    ensures var o2 := o[..p] + [i] + o[p..];
            var next2 := next[i := At(o, head, p)][prev[At(o, head, p)] := i];
            forall h :: 0 <= h < |next2| && h != head && h !in o2 ==> next2[h] == Null
  {
    var item := At(o, head, p);
    var ip := prev[item];
    assert ip == (if p == 0 then head else o[p - 1]);
    var o2 := o[..p] + [i] + o[p..];
    var next2 := next[i := item][ip := i];
    forall h | 0 <= h < |next2| && h != head && h !in o2
      ensures next2[h] == Null
    {
      assert h != i;
      if p > 0 { assert o2[p - 1] == ip; }
    }
  }

  lemma SpliceNext(next: seq<int>, prev: seq<int>, head: int, o: seq<int>, p: int, i: int)
    requires |prev| == |next| && ListItems(|next|, head, o)
    requires NextLinks(next, head, o) && PrevLinks(prev, head, o)
    requires 0 <= p <= |o| && 0 <= i < |next| && i != head && i !in o
    ensures var item := At(o, head, p);
            var o2 := o[..p] + [i] + o[p..];
            ListItems(|next|, head, o2) &&
            NextLinks(next[i := item][prev[item] := i], head, o2)
  {
    SpliceItems(|next|, head, o, p, i);
    SpliceNextListed(next, prev, head, o, p, i);
    SpliceNextUnlisted(next, prev, head, o, p, i);
  }

  /** The two `prev` writes of `linkitem`: listed items. */
  lemma SplicePrevListed(next: seq<int>, prev: seq<int>, head: int, o: seq<int>, p: int, i: int)
    requires |prev| == |next| && ListItems(|next|, head, o)
    requires PrevLinks(prev, head, o)
    requires 0 <= p <= |o| && 0 <= i < |next| && i != head && i !in o
    ensures var o2 := o[..p] + [i] + o[p..];
            var prev2 := prev[i := prev[At(o, head, p)]][At(o, head, p) := i];
            prev2[head] == o2[|o2| - 1] &&
            forall k :: 0 <= k < |o2| ==> prev2[o2[k]] == (if k == 0 then head else o2[k - 1])
  {
    var item := At(o, head, p);
    var ip := prev[item];
    assert ip == (if p == 0 then head else o[p - 1]);
    var o2 := o[..p] + [i] + o[p..];
    var prev2 := prev[i := ip][item := i];
    assert |o2| == |o| + 1 && o2[p] == i;
    assert forall k :: 0 <= k < p ==> o2[k] == o[k];
    assert forall k :: p < k < |o2| ==> o2[k] == o[k - 1];
    forall k | 0 <= k < |o2|
      ensures prev2[o2[k]] == (if k == 0 then head else o2[k - 1])
    {
      if k < p {
        assert o2[k] == o[k] && o[k] != item;
      } else if k == p {
        assert o2[k] == i;
      } else if k == p + 1 {
        assert o2[k] == item;
      } else {
        assert o2[k] == o[k - 1] && o[k - 1] != item && o2[k - 1] == o[k - 2];
      }
    }
  }

  /** The two `prev` writes of `linkitem`: unlisted items. */
  lemma SplicePrevUnlisted(next: seq<int>, prev: seq<int>, head: int, o: seq<int>, p: int, i: int)
    requires |prev| == |next| && ListItems(|next|, head, o)
    requires NextLinks(next, head, o) && PrevLinks(prev, head, o)
    requires 0 <= p <= |o| && 0 <= i < |next| && i != head && i !in o
    ensures var o2 := o[..p] + [i] + o[p..];
            var prev2 := prev[i := prev[At(o, head, p)]][At(o, head, p) := i];
            forall h :: 0 <= h < |prev2| && h != head && h !in o2 ==> prev2[h] == Null
  {
    var item := At(o, head, p);
    var o2 := o[..p] + [i] + o[p..];
    var prev2 := prev[i := prev[item]][item := i];
    forall h | 0 <= h < |prev2| && h != head && h !in o2
      ensures prev2[h] == Null
    {
      assert h != i;
      if p < |o| { assert o2[p + 1] == item; }
    }
  }

  lemma SplicePrev(next: seq<int>, prev: seq<int>, head: int, o: seq<int>, p: int, i: int)
    requires |prev| == |next| && ListItems(|next|, head, o)
    requires NextLinks(next, head, o) && PrevLinks(prev, head, o)
    requires 0 <= p <= |o| && 0 <= i < |next| && i != head && i !in o
    ensures var item := At(o, head, p);
            var o2 := o[..p] + [i] + o[p..];
            ListItems(|next|, head, o2) &&
            PrevLinks(prev[i := prev[item]][item := i], head, o2)
  {
    SpliceItems(|next|, head, o, p, i);
    SplicePrevListed(next, prev, head, o, p, i);
    SplicePrevUnlisted(next, prev, head, o, p, i);
  }

  /** The `next` writes of `delete`: listed items. */
  lemma UnlinkNextListed(next: seq<int>, prev: seq<int>, head: int, o: seq<int>, p: int)
    requires |prev| == |next| && ListItems(|next|, head, o)
    requires NextLinks(next, head, o) && PrevLinks(prev, head, o)
    requires 0 <= p < |o|
    ensures var o2 := o[..p] + o[p+1..];
            var next2 := next[prev[o[p]] := next[o[p]]][o[p] := Null];
            next2[head] == At(o2, head, 0) &&
            forall k :: 0 <= k < |o2| ==> next2[o2[k]] == At(o2, head, k + 1)
  {
    var item := o[p];
    var nx := next[item];
    var pv := prev[item];
    assert nx == At(o, head, p + 1);
    assert pv == (if p == 0 then head else o[p - 1]);
    var o2 := o[..p] + o[p+1..];
    var next2 := next[pv := nx][item := Null];
    assert |o2| == |o| - 1;
    assert forall k :: 0 <= k < p ==> o2[k] == o[k];
    assert forall k :: p <= k < |o2| ==> o2[k] == o[k + 1];
    forall k | 0 <= k < |o2|
      ensures next2[o2[k]] == At(o2, head, k + 1)
    {
      if k < p - 1 {
        assert o2[k] == o[k] && o[k] != pv && o[k] != item && o2[k + 1] == o[k + 1];
      } else if k == p - 1 {
        assert o2[k] == pv;
      } else {
        assert o2[k] == o[k + 1] && o[k + 1] != pv && o[k + 1] != item;
        assert At(o2, head, k + 1) == At(o, head, k + 2);
      }
    }
  }

  /** The `next` writes of `delete`: unlisted items. */
  lemma UnlinkNextUnlisted(next: seq<int>, prev: seq<int>, head: int, o: seq<int>, p: int)
    requires |prev| == |next| && ListItems(|next|, head, o)
    requires NextLinks(next, head, o) && PrevLinks(prev, head, o)
    requires 0 <= p < |o|
    ensures var o2 := o[..p] + o[p+1..];
            var next2 := next[prev[o[p]] := next[o[p]]][o[p] := Null];
            forall h :: 0 <= h < |next2| && h != head && h !in o2 ==> next2[h] == Null
  {
    var item := o[p];
    var pv := prev[item];
    assert pv == (if p == 0 then head else o[p - 1]);
    var o2 := o[..p] + o[p+1..];
    var next2 := next[pv := next[item]][item := Null];
    forall h | 0 <= h < |next2| && h != head && h !in o2
      ensures next2[h] == Null
    {
    }
  }

  lemma UnlinkNext(next: seq<int>, prev: seq<int>, head: int, o: seq<int>, p: int)
    requires |prev| == |next| && ListItems(|next|, head, o)
    requires NextLinks(next, head, o) && PrevLinks(prev, head, o)
    requires 0 <= p < |o|
    ensures var o2 := o[..p] + o[p+1..];
            ListItems(|next|, head, o2) &&
            NextLinks(next[prev[o[p]] := next[o[p]]][o[p] := Null], head, o2)
  {
    RemoveItems(|next|, head, o, p);
    UnlinkNextListed(next, prev, head, o, p);
    UnlinkNextUnlisted(next, prev, head, o, p);
  }

  /** The `prev` writes of `delete`: listed items. */
  lemma UnlinkPrevListed(next: seq<int>, prev: seq<int>, head: int, o: seq<int>, p: int)
    requires |prev| == |next| && ListItems(|next|, head, o)
    requires NextLinks(next, head, o) && PrevLinks(prev, head, o)
    requires 0 <= p < |o|
    ensures var o2 := o[..p] + o[p+1..];
            var prev2 := prev[next[o[p]] := prev[o[p]]][o[p] := Null];
            prev2[head] == (if o2 == [] then head else o2[|o2| - 1]) &&
            forall k :: 0 <= k < |o2| ==> prev2[o2[k]] == (if k == 0 then head else o2[k - 1])
  {
    var item := o[p];
    var nx := next[item];
    var pv := prev[item];
    assert nx == At(o, head, p + 1);
    assert pv == (if p == 0 then head else o[p - 1]);
    var o2 := o[..p] + o[p+1..];
    var prev2 := prev[nx := pv][item := Null];
    assert |o2| == |o| - 1;
    assert forall k :: 0 <= k < p ==> o2[k] == o[k];
    assert forall k :: p <= k < |o2| ==> o2[k] == o[k + 1];
    forall k | 0 <= k < |o2|
      ensures prev2[o2[k]] == (if k == 0 then head else o2[k - 1])
    {
      if k < p {
        assert o2[k] == o[k] && o[k] != nx && o[k] != item;
      } else if k == p {
        assert o2[k] == nx;
      } else {
        assert o2[k] == o[k + 1] && o[k + 1] != nx && o[k + 1] != item && o2[k - 1] == o[k];
      }
    }
  }

  /** The `prev` writes of `delete`: unlisted items. */
  lemma UnlinkPrevUnlisted(next: seq<int>, prev: seq<int>, head: int, o: seq<int>, p: int)
    requires |prev| == |next| && ListItems(|next|, head, o)
    requires NextLinks(next, head, o) && PrevLinks(prev, head, o)
    requires 0 <= p < |o|
    ensures var o2 := o[..p] + o[p+1..];
            var prev2 := prev[next[o[p]] := prev[o[p]]][o[p] := Null];
            forall h :: 0 <= h < |prev2| && h != head && h !in o2 ==> prev2[h] == Null
  {
    var item := o[p];
    var nx := next[item];
    assert nx == At(o, head, p + 1);
    var o2 := o[..p] + o[p+1..];
    var prev2 := prev[nx := prev[item]][item := Null];
    forall h | 0 <= h < |prev2| && h != head && h !in o2
      ensures prev2[h] == Null
    {
    }
  }

  lemma UnlinkPrev(next: seq<int>, prev: seq<int>, head: int, o: seq<int>, p: int)
    requires |prev| == |next| && ListItems(|next|, head, o)
    requires NextLinks(next, head, o) && PrevLinks(prev, head, o)
    requires 0 <= p < |o|
    ensures var o2 := o[..p] + o[p+1..];
            ListItems(|next|, head, o2) &&
            PrevLinks(prev[next[o[p]] := prev[o[p]]][o[p] := Null], head, o2)
  {
    RemoveItems(|next|, head, o, p);
    UnlinkPrevListed(next, prev, head, o, p);
    UnlinkPrevUnlisted(next, prev, head, o, p);
  }

  /** Splicing an item in after every smaller one and before the first one
      at least as large keeps the list sorted. */
  lemma SortedSplice(norder: seq<int>, o: seq<int>, pos: int, item: int)
    requires 0 <= pos <= |o| && 0 <= item < |norder|
    requires forall k :: 0 <= k < |o| ==> 0 <= o[k] < |norder|
    requires ListSorted(norder, o)
    requires forall j :: 0 <= j < pos ==> norder[o[j]] < norder[item]
    requires pos < |o| ==> norder[item] <= norder[o[pos]]
    ensures ListSorted(norder, o[..pos] + [item] + o[pos..])
  {
    var o2 := o[..pos] + [item] + o[pos..];
    assert forall k :: 0 <= k < |o2| ==> o2[k] == (if k < pos then o[k] else if k == pos then item else o[k - 1]);
    forall j, k | 0 <= j < k < |o2|
      ensures norder[o2[j]] <= norder[o2[k]]
    {
      if j == pos {
        assert norder[o[pos]] <= norder[o[k - 1]];
      }
    }
  }

  lemma SortedRemove(norder: seq<int>, o: seq<int>, p: int)
    requires 0 <= p < |o|
    requires forall k :: 0 <= k < |o| ==> 0 <= o[k] < |norder|
    requires ListSorted(norder, o)
    ensures ListSorted(norder, o[..p] + o[p+1..])
  {
    var o2 := o[..p] + o[p+1..];
    assert forall k :: 0 <= k < |o2| ==> o2[k] == (if k < p then o[k] else o[k + 1]);
  }

  /** A circular doubly-linked list of items with a sentinel `head`, kept
      sorted by `norder`. Item fields are held in parallel sequences
      indexed by item handle. */
  class OrderList {
    var elm: seq<int>
    var norder: seq<int>
    var next: seq<int>
    var prev: seq<int>
    var head: int
    ghost var order: seq<int>

    ghost predicate Linked()
      reads this
    {
      && |elm| == |next| && |norder| == |next| && |prev| == |next|
      && ListItems(|next|, head, order)
      && NextLinks(next, head, order)
      && PrevLinks(prev, head, order)
    }

    ghost predicate Valid()
      reads this
    {
      Linked() && ListSorted(norder, order)
    }

    /** `newlist`: one sentinel item whose links point to itself. */
    constructor ()
      ensures Valid() && order == [] && head == 0
      ensures elm == [Null] && norder == [0] && next == [head] && prev == [head]
    {
      elm, norder, next, prev := [Null], [0], [0], [0];
      head := 0;
      order := [];
    }

    /** `newitem`: a fresh unlinked item of order 0 with no element. */
    method NewItem() returns (i: int)
      requires Valid()
      modifies this
      ensures Valid() && order == old(order) && head == old(head)
      ensures i == |old(next)|
      ensures elm == old(elm) + [Null] && norder == old(norder) + [0]
      ensures next == old(next) + [Null] && prev == old(prev) + [Null]
    {
      i := |next|;
      elm, norder, next, prev := elm + [Null], norder + [0], next + [Null], prev + [Null];
      assert forall h :: 0 <= h < i ==> next[h] == old(next)[h] && prev[h] == old(prev)[h];
    }

    /** `linkitem(item, i)`: links the unlinked item `i` just before `item`,
        which stands at position `p` of the list. */
    method LinkItem(item: int, i: int, ghost p: int)
      requires Linked()
      requires 0 <= p <= |order| && item == At(order, head, p)
      requires 0 <= i < |next| && i != head && i !in order
      modifies this
      ensures Linked() && head == old(head) && elm == old(elm) && norder == old(norder)
      ensures order == old(order)[..p] + [i] + old(order)[p..]
    {
      SpliceNext(next, prev, head, order, p, i);
      SplicePrev(next, prev, head, order, p, i);
      prev := prev[i := prev[item]];
      next := next[i := item];
      prev := prev[item := i];
      next := next[prev[i] := i];
      order := order[..p] + [i] + order[p..];
    }

    /** `insert`: links the item before the first item whose order is at
        least its own (before the sentinel when there is none). */
    method Insert(item: int) returns (ghost pos: int)
      requires Valid()
      requires 0 <= item < |next| && item != head && item !in order
      modifies this
      ensures Valid() && head == old(head) && elm == old(elm) && norder == old(norder)
      ensures 0 <= pos <= |old(order)| && order == old(order)[..pos] + [item] + old(order)[pos..]
      ensures forall j :: 0 <= j < pos ==> norder[old(order)[j]] < norder[item]
      ensures pos < |old(order)| ==> norder[item] <= norder[old(order)[pos]]
    {
      var i := next[head];
      pos := 0;
      while i != head
        invariant 0 <= pos <= |order| && i == At(order, head, pos)
        invariant forall j :: 0 <= j < pos ==> norder[order[j]] < norder[item]
        decreases |order| - pos
      {
        if norder[i] >= norder[item] {
          break;
        }
        i := next[i];
        pos := pos + 1;
      }
      SortedSplice(norder, order, pos, item);
      LinkItem(i, item, pos);
    }

    /** `delete`: unlinks the item, clearing its links. */
    method Delete(item: int) returns (ghost p: int)
      requires Valid() && item in order
      modifies this
      ensures Valid() && head == old(head) && elm == old(elm) && norder == old(norder)
      ensures 0 <= p < |old(order)| && old(order)[p] == item
      ensures order == old(order)[..p] + old(order)[p+1..]
      ensures next[item] == Null && prev[item] == Null
    {
      p :| 0 <= p < |order| && order[p] == item;
      UnlinkNext(next, prev, head, order, p);
      UnlinkPrev(next, prev, head, order, p);
      SortedRemove(norder, order, p);
      RemoveItems(|next|, head, order, p);
      var nx := next[item];
      var pv := prev[item];
      prev := prev[nx := pv];
      next := next[pv := nx];
      prev := prev[item := Null];
      next := next[item := Null];
      order := order[..p] + order[p+1..];
    }

    /** The body of `increase_order` (`up`) and `reduce_order` once
        `do_flag` is set: unlink the item, step its unsigned order by one and
        insert it again. Only that item's order changes, the other items
        keep their relative order and the list stays sorted. */
    method Reorder(item: int, up: bool) returns (ghost pos: int)
      requires Valid() && item in order && 0 <= norder[item] < UintMod
      modifies this
      ensures Valid() && head == old(head) && elm == old(elm)
      ensures norder == old(norder)[item := if up then Inc32(old(norder)[item]) else Dec32(old(norder)[item])]
      ensures |order| == |old(order)| && Without(order, item) == Without(old(order), item)
      ensures 0 <= pos < |order| && order[pos] == item
    {
      ghost var o0 := order;
      ghost var p := Delete(item);
      assert item !in order by {
        RemoveItems(|next|, head, o0, p);
      }
      norder := norder[item := if up then Inc32(norder[item]) else Dec32(norder[item])];
      ghost var o1 := order;
      pos := Insert(item);
      WithoutSplice(o1, pos, item);
      assert forall j :: 0 <= j < |o0| && j != p ==> o0[j] != o0[p];
      WithoutRemove(o0, p);
    }

    /** `freelist`: walks the list and releases every item, then the
        sentinel; returns the items released, in that order. */
    method FreeList() returns (freed: seq<int>)
      requires Valid()
      ensures freed == order + [head]
    {
      freed := [];
      var i1 := next[head];
      ghost var k := 0;
      while i1 != head
        invariant 0 <= k <= |order| && i1 == At(order, head, k)
        invariant freed == order[..k]
        decreases |order| - k
      {
        var i2 := next[i1];
        freed := freed + [i1];
        i1 := i2;
        k := k + 1;
      }
      assert order[..k] == order;
      freed := freed + [head];
    }
  }

  // ---------------------------------------------------------------------
  // Elements. A row of the matrix (in solution order) and a column are both
  // a `Line`: a chain of elements through a forward and a backward link,
  // whose members share one key (varord of their row, for a row) and are
  // strictly increasing in the other (varord of their column, for a row).

  /** `s` is chained through `fwd`/`bwd`, with null ends. */
  ghost predicate Chain(fwd: seq<int>, bwd: seq<int>, s: seq<int>)
  {
    && |bwd| == |fwd|
    && (forall k :: 0 <= k < |s| ==> 0 <= s[k] < |fwd|)
    && (forall k {:trigger fwd[s[k]]} :: 0 <= k < |s| ==> fwd[s[k]] == (if k + 1 < |s| then s[k + 1] else Null))
    && (forall k {:trigger bwd[s[k]]} :: 0 <= k < |s| ==> bwd[s[k]] == (if k == 0 then Null else s[k - 1]))
  }

  /** Line `i` of an `n`-equation matrix: every member has varord[key] == i
      and varord[other] strictly increases along the chain. */
  ghost predicate Line(fwd: seq<int>, bwd: seq<int>, key: seq<int>, other: seq<int>,
                       varord: seq<int>, n: nat, s: seq<int>, i: int)
  {
    && |key| == |fwd| && |other| == |fwd| && |varord| == n + 1
    && Chain(fwd, bwd, s)
    && (forall k :: 0 <= k < |s| ==>
          1 <= key[s[k]] <= n && 1 <= other[s[k]] <= n && varord[key[s[k]]] == i)
    && (forall j, k :: 0 <= j < k < |s| ==> varord[other[s[j]]] < varord[other[s[k]]])
  }

  ghost predicate Distinct(s: seq<int>)
  {
    forall j, k :: 0 <= j < k < |s| ==> s[j] != s[k]
  }

  /** Strictly increasing varord of `other` along `s`. */
  ghost predicate Increasing(other: seq<int>, varord: seq<int>, s: seq<int>)
    requires forall k :: 0 <= k < |s| ==> 0 <= s[k] < |other| && 0 <= other[s[k]] < |varord|
  {
    forall j, k :: 0 <= j < k < |s| ==> varord[other[s[j]]] < varord[other[s[k]]]
  }

  lemma LineDistinct(fwd: seq<int>, bwd: seq<int>, key: seq<int>, other: seq<int>,
                     varord: seq<int>, n: nat, s: seq<int>, i: int)
    requires Line(fwd, bwd, key, other, varord, n, s, i)
    ensures Distinct(s)
  {
    forall j, k | 0 <= j < k < |s| ensures s[j] != s[k] {
      assert varord[other[s[j]]] < varord[other[s[k]]];
    }
  }

  /** Splicing `nw` in at position `p`, strictly between its neighbours'
      keys, keeps the line increasing. */
  lemma IncreasingSplice(other: seq<int>, varord: seq<int>, s: seq<int>, p: int, nw: int)
    requires forall k :: 0 <= k < |s| ==> 0 <= s[k] < |other| && 0 <= other[s[k]] < |varord|
    requires 0 <= nw < |other| && 0 <= other[nw] < |varord|
    requires Increasing(other, varord, s) && 0 <= p <= |s|
    requires p > 0 ==> varord[other[s[p - 1]]] < varord[other[nw]]
    requires p < |s| ==> varord[other[nw]] < varord[other[s[p]]]
    ensures var s2 := s[..p] + [nw] + s[p..];
            (forall k :: 0 <= k < |s2| ==> 0 <= s2[k] < |other| && 0 <= other[s2[k]] < |varord|) &&
            Increasing(other, varord, s2)
  {
    var s2 := s[..p] + [nw] + s[p..];
    assert forall k :: 0 <= k < |s2| ==> s2[k] == (if k < p then s[k] else if k == p then nw else s[k - 1]);
    forall j, k | 0 <= j < k < |s2|
      ensures varord[other[s2[j]]] < varord[other[s2[k]]]
    {
      if j < p && k == p {
        assert varord[other[s[j]]] <= varord[other[s[p - 1]]];
      } else if j == p {
        assert varord[other[s[p]]] <= varord[other[s[k - 1]]];
      }
    }
  }

  /** The writes that link `nw` just after position `k` of a chain:
      nw.fwd = el.fwd; el.fwd = nw; nw.bwd = el; nw.fwd.bwd = nw. */
  lemma ChainInsertAfter(fwd: seq<int>, bwd: seq<int>, s: seq<int>, k: int, nw: int)
    requires Chain(fwd, bwd, s) && Distinct(s)
    requires 0 <= k < |s| && 0 <= nw < |fwd| && nw !in s
    ensures var el := s[k];
            var fwd2 := fwd[nw := fwd[el]][el := nw];
            var bwd2 := if fwd[el] != Null then bwd[nw := el][fwd[el] := nw] else bwd[nw := el];
            Chain(fwd2, bwd2, s[..k + 1] + [nw] + s[k + 1..])
  {
    var s2 := s[..k + 1] + [nw] + s[k + 1..];
    assert forall m :: 0 <= m < |s2| ==> s2[m] == (if m <= k then s[m] else if m == k + 1 then nw else s[m - 1]);
    InsertAfterFwd(fwd, s, k, nw);
    InsertAfterBwd(fwd, bwd, s, k, nw);
  }

  /** The forward links after ChainInsertAfter's writes. */
  lemma InsertAfterFwd(fwd: seq<int>, s: seq<int>, k: int, nw: int)
    requires forall j :: 0 <= j < |s| ==> 0 <= s[j] < |fwd|
    requires forall j {:trigger fwd[s[j]]} :: 0 <= j < |s| ==> fwd[s[j]] == (if j + 1 < |s| then s[j + 1] else Null)
    requires Distinct(s) && 0 <= k < |s| && 0 <= nw < |fwd| && nw !in s
    ensures var s2 := s[..k + 1] + [nw] + s[k + 1..];
            var fwd2 := fwd[nw := fwd[s[k]]][s[k] := nw];
            forall m :: 0 <= m < |s2| ==> fwd2[s2[m]] == (if m + 1 < |s2| then s2[m + 1] else Null)
  {
    var el := s[k];
    var s2 := s[..k + 1] + [nw] + s[k + 1..];
    var fwd2 := fwd[nw := fwd[el]][el := nw];
    forall m | 0 <= m < |s2|
      ensures fwd2[s2[m]] == (if m + 1 < |s2| then s2[m + 1] else Null)
    {
      if m < k {
        assert s2[m] == s[m] && s[m] != el && s2[m + 1] == s[m + 1];
      } else if m == k {
        assert s2[m] == el && s2[m + 1] == nw;
      } else if m == k + 1 {
        assert s2[m] == nw;
        if k + 1 < |s| { assert s2[m + 1] == s[k + 1]; }
      } else {
        assert s2[m] == s[m - 1] && s[m - 1] != el;
        if m + 1 < |s2| { assert s2[m + 1] == s[m]; }
      }
    }
  }

  /** The backward links after ChainInsertAfter's writes. */
  lemma InsertAfterBwd(fwd: seq<int>, bwd: seq<int>, s: seq<int>, k: int, nw: int)
    requires |bwd| == |fwd| && forall j :: 0 <= j < |s| ==> 0 <= s[j] < |fwd|
    requires forall j {:trigger fwd[s[j]]} :: 0 <= j < |s| ==> fwd[s[j]] == (if j + 1 < |s| then s[j + 1] else Null)
    requires forall j {:trigger bwd[s[j]]} :: 0 <= j < |s| ==> bwd[s[j]] == (if j == 0 then Null else s[j - 1])
    requires Distinct(s) && 0 <= k < |s| && 0 <= nw < |fwd| && nw !in s
    ensures var el := s[k];
            var s2 := s[..k + 1] + [nw] + s[k + 1..];
            var bwd2 := if fwd[el] != Null then bwd[nw := el][fwd[el] := nw] else bwd[nw := el];
            forall m :: 0 <= m < |s2| ==> bwd2[s2[m]] == (if m == 0 then Null else s2[m - 1])
  {
    var el := s[k];
    var s2 := s[..k + 1] + [nw] + s[k + 1..];
    var bwd2 := if fwd[el] != Null then bwd[nw := el][fwd[el] := nw] else bwd[nw := el];
    assert fwd[el] == (if k + 1 < |s| then s[k + 1] else Null);
    forall m | 0 <= m < |s2|
      ensures bwd2[s2[m]] == (if m == 0 then Null else s2[m - 1])
    {
      if m <= k {
        assert s2[m] == s[m];
        if m > 0 { assert s2[m - 1] == s[m - 1]; }
        if k + 1 < |s| { assert s[m] != s[k + 1]; }
      } else if m == k + 1 {
        assert s2[m] == nw && s2[m - 1] == el;
      } else if m == k + 2 {
        assert s2[m] == s[k + 1] && s2[m - 1] == nw;
      } else {
        assert s2[m] == s[m - 1] && s[m - 1] != s[k + 1] && s2[m - 1] == s[m - 2];
      }
    }
  }

  /** The writes that link `nw` just before position `k` of a chain:
      nw.bwd = el.bwd; el.bwd = nw; nw.fwd = el; nw.bwd.fwd = nw. */
  lemma ChainInsertBefore(fwd: seq<int>, bwd: seq<int>, s: seq<int>, k: int, nw: int)
    requires Chain(fwd, bwd, s) && Distinct(s)
    requires 0 <= k < |s| && 0 <= nw < |fwd| && nw !in s
    ensures var el := s[k];
            var bwd2 := bwd[nw := bwd[el]][el := nw];
            var fwd2 := if bwd[el] != Null then fwd[nw := el][bwd[el] := nw] else fwd[nw := el];
            Chain(fwd2, bwd2, s[..k] + [nw] + s[k..])
  {
    InsertBeforeFwd(fwd, bwd, s, k, nw);
    InsertBeforeBwd(fwd, bwd, s, k, nw);
  }

  lemma InsertBeforeFwd(fwd: seq<int>, bwd: seq<int>, s: seq<int>, k: int, nw: int)
    requires Chain(fwd, bwd, s) && Distinct(s)
    requires 0 <= k < |s| && 0 <= nw < |fwd| && nw !in s
    ensures var el := s[k];
            var fwd2 := if bwd[el] != Null then fwd[nw := el][bwd[el] := nw] else fwd[nw := el];
            var s2 := s[..k] + [nw] + s[k..];
            forall m :: 0 <= m < |s2| ==> fwd2[s2[m]] == (if m + 1 < |s2| then s2[m + 1] else Null)
  {
    var el := s[k];
    var fwd2 := if bwd[el] != Null then fwd[nw := el][bwd[el] := nw] else fwd[nw := el];
    var s2 := s[..k] + [nw] + s[k..];
    assert forall m :: 0 <= m < |s2| ==> s2[m] == (if m < k then s[m] else if m == k then nw else s[m - 1]);
    forall m | 0 <= m < |s2|
      ensures fwd2[s2[m]] == (if m + 1 < |s2| then s2[m + 1] else Null)
    {
      if m + 1 < k {
        assert s2[m] == s[m] && s[m] != s[k - 1] && s2[m + 1] == s[m + 1];
      } else if m + 1 == k {
        assert s2[m] == s[k - 1] && s2[m + 1] == nw;
      } else if m == k {
        assert s2[m] == nw && s2[m + 1] == el;
      } else {
        assert s2[m] == s[m - 1];
        if k > 0 { assert s[m - 1] != s[k - 1]; }
      }
    }
  }

  lemma InsertBeforeBwd(fwd: seq<int>, bwd: seq<int>, s: seq<int>, k: int, nw: int)
    requires Chain(fwd, bwd, s) && Distinct(s)
    requires 0 <= k < |s| && 0 <= nw < |fwd| && nw !in s
    ensures var el := s[k];
            var bwd2 := bwd[nw := bwd[el]][el := nw];
            var s2 := s[..k] + [nw] + s[k..];
            forall m :: 0 <= m < |s2| ==> bwd2[s2[m]] == (if m == 0 then Null else s2[m - 1])
  {
    var el := s[k];
    var bwd2 := bwd[nw := bwd[el]][el := nw];
    var s2 := s[..k] + [nw] + s[k..];
    assert forall m :: 0 <= m < |s2| ==> s2[m] == (if m < k then s[m] else if m == k then nw else s[m - 1]);
    forall m | 0 <= m < |s2|
      ensures bwd2[s2[m]] == (if m == 0 then Null else s2[m - 1])
    {
      if m < k {
        assert s2[m] == s[m] && s[m] != el;
        if m > 0 { assert s2[m - 1] == s[m - 1]; }
      } else if m == k {
        assert s2[m] == nw;
        if k > 0 { assert s2[m - 1] == s[k - 1]; }
      } else if m == k + 1 {
        assert s2[m] == el && s2[m - 1] == nw;
      } else {
        assert s2[m] == s[m - 1] && s[m - 1] != el && s2[m - 1] == s[m - 2];
      }
    }
  }

  /** A line keeps its shape when the links and keys of its members do. */
  lemma LineFrame(fwd: seq<int>, bwd: seq<int>, key: seq<int>, other: seq<int>,
                  fwd2: seq<int>, bwd2: seq<int>, key2: seq<int>, other2: seq<int>,
                  varord: seq<int>, n: nat, s: seq<int>, i: int)
    requires Line(fwd, bwd, key, other, varord, n, s, i)
    requires |fwd2| >= |fwd| && |bwd2| == |fwd2| && |key2| == |fwd2| && |other2| == |fwd2|
    requires forall k :: 0 <= k < |s| ==>
               fwd2[s[k]] == fwd[s[k]] && bwd2[s[k]] == bwd[s[k]] &&
               key2[s[k]] == key[s[k]] && other2[s[k]] == other[s[k]]
    ensures Line(fwd2, bwd2, key2, other2, varord, n, s, i)
  {
  }

  /** The members and positions of `s` with `nw` spliced in at `p`. */
  lemma SpliceMembers(s: seq<int>, p: int, nw: int)
    requires 0 <= p <= |s|
    ensures var s2 := s[..p] + [nw] + s[p..];
            && |s2| == |s| + 1 && s2[p] == nw
            && (forall k :: 0 <= k < p ==> s2[k] == s[k])
            && (forall k :: p < k < |s2| ==> s2[k] == s[k - 1])
            && (forall h :: h in s ==> h in s2)
            && (forall h :: h in s2 ==> h in s || h == nw)
  {
    var s2 := s[..p] + [nw] + s[p..];
    assert s == s[..p] + s[p..];
    forall h | h in s ensures h in s2 {
      var k :| 0 <= k < |s| && s[k] == h;
      if k < p { assert s2[k] == h; } else { assert s2[k + 1] == h; }
    }
  }

  /** The insertion writes touch only members of the new chain. */
  lemma InsertAfterFrame(fwd: seq<int>, bwd: seq<int>, s: seq<int>, k: int, nw: int)
    requires Chain(fwd, bwd, s) && 0 <= k < |s| && 0 <= nw < |fwd|
    ensures var el := s[k];
            var fwd2 := fwd[nw := fwd[el]][el := nw];
            var bwd2 := if fwd[el] != Null then bwd[nw := el][fwd[el] := nw] else bwd[nw := el];
            var s2 := s[..k + 1] + [nw] + s[k + 1..];
            forall h :: 0 <= h < |fwd| && h !in s2 ==> fwd2[h] == fwd[h] && bwd2[h] == bwd[h]
  {
    var el := s[k];
    var s2 := s[..k + 1] + [nw] + s[k + 1..];
    var fwd2 := fwd[nw := fwd[el]][el := nw];
    var bwd2 := if fwd[el] != Null then bwd[nw := el][fwd[el] := nw] else bwd[nw := el];
    assert s2[k] == el && s2[k + 1] == nw;
    if fwd[el] != Null {
      assert fwd[el] == s[k + 1] && s2[k + 2] == s[k + 1];
    }
    forall h | 0 <= h < |fwd| && h !in s2
      ensures fwd2[h] == fwd[h] && bwd2[h] == bwd[h]
    {
      assert h != nw && h != el;
    }
  }

  lemma InsertBeforeFrame(fwd: seq<int>, bwd: seq<int>, s: seq<int>, k: int, nw: int)
    requires Chain(fwd, bwd, s) && 0 <= k < |s| && 0 <= nw < |fwd|
    ensures var el := s[k];
            var bwd2 := bwd[nw := bwd[el]][el := nw];
            var fwd2 := if bwd[el] != Null then fwd[nw := el][bwd[el] := nw] else fwd[nw := el];
            var s2 := s[..k] + [nw] + s[k..];
            forall h :: 0 <= h < |fwd| && h !in s2 ==> fwd2[h] == fwd[h] && bwd2[h] == bwd[h]
  {
    var el := s[k];
    var s2 := s[..k] + [nw] + s[k..];
    var bwd2 := bwd[nw := bwd[el]][el := nw];
    var fwd2 := if bwd[el] != Null then fwd[nw := el][bwd[el] := nw] else fwd[nw := el];
    assert s2[k] == nw && s2[k + 1] == el;
    if bwd[el] != Null {
      assert bwd[el] == s[k - 1] && s2[k - 1] == s[k - 1];
    }
    forall h | 0 <= h < |fwd| && h !in s2
      ensures fwd2[h] == fwd[h] && bwd2[h] == bwd[h]
    {
      assert h != nw && h != el;
    }
  }

  /** Linking `nw` after position `k` of a line, or before it, at the
      place its `other` key belongs. */
  lemma LineInsertAfter(fwd: seq<int>, bwd: seq<int>, key: seq<int>, other: seq<int>,
                        varord: seq<int>, n: nat, s: seq<int>, i: int, k: int, nw: int)
    requires Line(fwd, bwd, key, other, varord, n, s, i)
    requires 0 <= k < |s| && 0 <= nw < |fwd| && nw !in s
    requires 1 <= key[nw] <= n && 1 <= other[nw] <= n && varord[key[nw]] == i
    requires varord[other[s[k]]] < varord[other[nw]]
    requires k + 1 < |s| ==> varord[other[nw]] < varord[other[s[k + 1]]]
    ensures var el := s[k];
            var fwd2 := fwd[nw := fwd[el]][el := nw];
            var bwd2 := if fwd[el] != Null then bwd[nw := el][fwd[el] := nw] else bwd[nw := el];
            Line(fwd2, bwd2, key, other, varord, n, s[..k + 1] + [nw] + s[k + 1..], i)
  {
    LineDistinct(fwd, bwd, key, other, varord, n, s, i);
    ChainInsertAfter(fwd, bwd, s, k, nw);
    IncreasingSplice(other, varord, s, k + 1, nw);
    KeysSplice(key, other, varord, n, s, i, k + 1, nw);
  }

  lemma LineInsertBefore(fwd: seq<int>, bwd: seq<int>, key: seq<int>, other: seq<int>,
                         varord: seq<int>, n: nat, s: seq<int>, i: int, k: int, nw: int)
    requires Line(fwd, bwd, key, other, varord, n, s, i)
    requires 0 <= k < |s| && 0 <= nw < |fwd| && nw !in s
    requires 1 <= key[nw] <= n && 1 <= other[nw] <= n && varord[key[nw]] == i
    requires varord[other[nw]] < varord[other[s[k]]]
    requires k > 0 ==> varord[other[s[k - 1]]] < varord[other[nw]]
    ensures var el := s[k];
            var bwd2 := bwd[nw := bwd[el]][el := nw];
            var fwd2 := if bwd[el] != Null then fwd[nw := el][bwd[el] := nw] else fwd[nw := el];
            Line(fwd2, bwd2, key, other, varord, n, s[..k] + [nw] + s[k..], i)
  {
    LineDistinct(fwd, bwd, key, other, varord, n, s, i);
    ChainInsertBefore(fwd, bwd, s, k, nw);
    IncreasingSplice(other, varord, s, k, nw);
    KeysSplice(key, other, varord, n, s, i, k, nw);
  }

  /** The members of a line spliced with `nw` at position p all belong to
      line i and have keys in range. */
  lemma KeysSplice(key: seq<int>, other: seq<int>, varord: seq<int>, n: nat, s: seq<int>, i: int, p: int, nw: int)
    requires 0 <= p <= |s| && |other| == |key| && |varord| == n + 1
    requires forall k :: 0 <= k < |s| ==>
               0 <= s[k] < |key| && 1 <= key[s[k]] <= n && 1 <= other[s[k]] <= n && varord[key[s[k]]] == i
    requires 0 <= nw < |key| && 1 <= key[nw] <= n && 1 <= other[nw] <= n && varord[key[nw]] == i
    ensures var s2 := s[..p] + [nw] + s[p..];
            forall k :: 0 <= k < |s2| ==>
              1 <= key[s2[k]] <= n && 1 <= other[s2[k]] <= n && varord[key[s2[k]]] == i
  {
    var s2 := s[..p] + [nw] + s[p..];
    forall k | 0 <= k < |s2|
      ensures 1 <= key[s2[k]] <= n && 1 <= other[s2[k]] <= n && varord[key[s2[k]]] == i
    {
      if k < p {
        assert s2[k] == s[k];
      } else if k > p {
        assert s2[k] == s[k - 1];
      }
    }
  }

  /** The four writes that link `nw` just after `el` == s[k] of a line:
      `new->fwd = el->fwd; el->fwd = new; new->bwd = el;
      if (new->fwd) new->fwd->bwd = new`. */
  method LinkAfter(fwd: seq<int>, bwd: seq<int>, ghost key: seq<int>, ghost other: seq<int>,
                   ghost varord: seq<int>, ghost n: nat, ghost s: seq<int>, ghost i: int,
                   ghost k: int, el: int, nw: int)
    returns (fwd2: seq<int>, bwd2: seq<int>)
    requires Line(fwd, bwd, key, other, varord, n, s, i)
    requires 0 <= k < |s| && el == s[k] && 0 <= nw < |fwd| && nw !in s
    requires 1 <= key[nw] <= n && 1 <= other[nw] <= n && varord[key[nw]] == i
    requires varord[other[s[k]]] < varord[other[nw]]
    requires k + 1 < |s| ==> varord[other[nw]] < varord[other[s[k + 1]]]
    ensures |fwd2| == |fwd| && |bwd2| == |bwd|
    ensures Line(fwd2, bwd2, key, other, varord, n, s[..k + 1] + [nw] + s[k + 1..], i)
    ensures forall h :: 0 <= h < |fwd| && h !in s[..k + 1] + [nw] + s[k + 1..] ==>
              fwd2[h] == fwd[h] && bwd2[h] == bwd[h]
  {
    LineInsertAfter(fwd, bwd, key, other, varord, n, s, i, k, nw);
    InsertAfterFrame(fwd, bwd, s, k, nw);
    fwd2 := fwd[nw := fwd[el]];
    fwd2 := fwd2[el := nw];
    bwd2 := bwd[nw := el];
    if fwd2[nw] != Null {
      bwd2 := bwd2[fwd2[nw] := nw];
    }
  }

  /** The four writes that link `nw` just before `el` == s[k] of a line:
      `new->bwd = el->bwd; el->bwd = new; new->fwd = el;
      if (new->bwd) new->bwd->fwd = new`; `first` tells that no element
      precedes `nw`, the case in which the caller moves its line start. */
  method LinkBefore(fwd: seq<int>, bwd: seq<int>, ghost key: seq<int>, ghost other: seq<int>,
                    ghost varord: seq<int>, ghost n: nat, ghost s: seq<int>, ghost i: int,
                    ghost k: int, el: int, nw: int)
    returns (fwd2: seq<int>, bwd2: seq<int>, first: bool)
    requires Line(fwd, bwd, key, other, varord, n, s, i)
    requires 0 <= k < |s| && el == s[k] && 0 <= nw < |fwd| && nw !in s
    requires 1 <= key[nw] <= n && 1 <= other[nw] <= n && varord[key[nw]] == i
    requires varord[other[nw]] < varord[other[s[k]]]
    requires k > 0 ==> varord[other[s[k - 1]]] < varord[other[nw]]
    ensures |fwd2| == |fwd| && |bwd2| == |bwd|
    ensures Line(fwd2, bwd2, key, other, varord, n, s[..k] + [nw] + s[k..], i)
    ensures forall h :: 0 <= h < |fwd| && h !in s[..k] + [nw] + s[k..] ==>
              fwd2[h] == fwd[h] && bwd2[h] == bwd[h]
    ensures first <==> k == 0
  {
    LineInsertBefore(fwd, bwd, key, other, varord, n, s, i, k, nw);
    InsertBeforeFrame(fwd, bwd, s, k, nw);
    bwd2 := bwd[nw := bwd[el]];
    bwd2 := bwd2[el := nw];
    fwd2 := fwd[nw := el];
    if bwd2[nw] != Null {
      fwd2 := fwd2[bwd2[nw] := nw];
    }
    first := bwd2[nw] == Null;
  }
}
