/** A node of a B-tree (btree.h): keys, data and children in buffers of fixed size, of which the first
    `num` entries count (and one more child).  The loops that move entries of all three buffers at once
    are one loop for each buffer here. */
module BNodes {
  import opened Options
  import B = KeyedItems
  import opened BtShape
  import opened BtNodes

  /** A caller's data pointer. */
  datatype Ptr = Ptr(addr: int)

  const NULL := Ptr(0)

  // ----- moving entries of a buffer

  /** Entries lo to hi move up by one; entry lo stays as it is until it is written. */
  method ShiftUp<T>(a: array<T>, lo: nat, hi: nat)
    requires lo <= hi < a.Length
    modifies a
    ensures a[..lo + 1] == old(a[..lo + 1]) && a[lo + 1..hi + 1] == old(a[lo..hi]) && a[hi + 1..] == old(a[hi + 1..])
  {
    var i := hi;
    while i > lo
      invariant lo <= i <= hi
      invariant forall j :: 0 <= j <= i || hi < j < a.Length ==> a[j] == old(a[j])
      invariant forall j :: i <= j < hi ==> a[j + 1] == old(a[j])
    {
      a[i] := a[i - 1];
      i := i - 1;
    }
  }

  /** Entries lo + 1 to hi move down by one. */
  method ShiftDown<T>(a: array<T>, lo: nat, hi: nat)
    requires lo <= hi < a.Length
    modifies a
    ensures a[..lo] == old(a[..lo]) && a[lo..hi] == old(a[lo + 1..hi + 1]) && a[hi..] == old(a[hi..])
  {
    for i := lo to hi
      invariant forall j :: 0 <= j < lo || i <= j < a.Length ==> a[j] == old(a[j])
      invariant forall j :: lo <= j < i ==> a[j] == old(a[j + 1])
    {
      a[i] := a[i + 1];
    }
  }

  /** memcpy between two buffers. */
  method Copy<T>(src: array<T>, from: nat, dst: array<T>, at: nat, n: nat)
    requires from + n <= src.Length && at + n <= dst.Length && src != dst
    modifies dst
    ensures dst[..at] == old(dst[..at]) && dst[at..at + n] == src[from..from + n] && dst[at + n..] == old(dst[at + n..])
  {
    for i := 0 to n
      invariant dst[..at] == old(dst[..at]) && dst[at..at + i] == src[from..from + i]
      invariant dst[at + i..] == old(dst[at + i..])
    {
      dst[at + i] := src[from + i];
    }
  }

  /** memset */
  method Fill<T>(a: array<T>, from: nat, to: nat, x: T)
    requires from <= to <= a.Length
    modifies a
    ensures a[..from] == old(a[..from]) && a[to..] == old(a[to..])
    ensures forall i :: from <= i < to ==> a[i] == x
  {
    for i := from to to
      invariant a[..from] == old(a[..from]) && a[to..] == old(a[to..])
      invariant forall j :: from <= j < i ==> a[j] == x
    {
      a[i] := x;
    }
  }

  // ----- what the buffers say

  ghost function Zip(ks: seq<int>, ds: seq<Ptr>): (s: seq<Data>)
    requires |ks| == |ds|
    ensures |s| == |ks| && forall i :: 0 <= i < |s| ==> s[i] == B.Data(ks[i], ds[i].addr)
  {
    seq(|ks|, i requires 0 <= i < |ks| => B.Data(ks[i], ds[i].addr))
  }

  function Opt(n: BNode?): Option<BNode> {
    if n == null then None else var m: BNode := n; Some(m)
  }

  ghost function Opts(ns: seq<BNode?>): (s: seq<Option<BNode>>)
    ensures |s| == |ns| && forall i :: 0 <= i < |s| ==> s[i] == Opt(ns[i])
  {
    seq(|ns|, i requires 0 <= i < |ns| => Opt(ns[i]))
  }

  lemma ZipIns(ks: seq<int>, ds: seq<Ptr>, idx: nat, k: int, d: Ptr)
    requires |ks| == |ds| && idx <= |ks|
    ensures Zip(Ins(ks, idx, k), Ins(ds, idx, d)) == Ins(Zip(ks, ds), idx, B.Data(k, d.addr))
  {
  }

  lemma ZipSlice(a: seq<int>, b: seq<Ptr>, i: nat, j: nat)
    requires |a| == |b| && i <= j <= |a|
    ensures Zip(a[i..j], b[i..j]) == Zip(a, b)[i..j]
  {
  }

  lemma ZipDel(ks: seq<int>, ds: seq<Ptr>, idx: nat)
    requires |ks| == |ds| && idx < |ks|
    ensures Zip(Del(ks, idx), Del(ds, idx)) == Del(Zip(ks, ds), idx)
  {
  }

  lemma OptsDel(ns: seq<BNode?>, idx: nat)
    requires idx < |ns|
    ensures Opts(Del(ns, idx)) == Del(Opts(ns), idx)
  {
  }

  /** A prefix of a buffer that was shifted down. */
  lemma Closed<T>(was: seq<T>, now: seq<T>, idx: nat, n: nat)
    requires idx < n <= |was| == |now|
    requires now[..idx] == was[..idx] && now[idx..n - 1] == was[idx + 1..n]
    ensures now[..n - 1] == Del(was[..n], idx)
  {
  }

  lemma ZipAppend(a: seq<int>, b: seq<Ptr>, k: int, d: Ptr, ks: seq<int>, ds: seq<Ptr>)
    requires |a| == |b| && |ks| == |ds|
    ensures Zip(a + [k] + ks, b + [d] + ds) == Zip(a, b) + [B.Data(k, d.addr)] + Zip(ks, ds)
  {
  }

  lemma OptsJoin(a: seq<BNode?>, b: seq<BNode?>)
    ensures Opts(a + b) == Opts(a) + Opts(b)
  {
  }

  lemma FrontSlice<T>(was: seq<T>, now: seq<T>, n: nat)
    requires 0 < n < |was| == |now| && now[0..n] == was[1..n + 1]
    ensures now[..n - 1] == was[..n][1..n]
  {
    assert now[..n - 1] == now[0..n][..n - 1];
  }

  lemma TwoParts<T>(s: seq<T>, i: nat, n: nat)
    requires i + n <= |s|
    ensures s[..i + n] == s[..i] + s[i..i + n]
  {
  }

  /** A prefix of a buffer that was written behind. */
  lemma Extended<T>(now: seq<T>, a: seq<T>, x: T, b: seq<T>)
    requires |a| + 1 + |b| <= |now|
    requires now[..|a| + 1] == a + [x] && now[|a| + 1..|a| + 1 + |b|] == b
    ensures now[..|a| + 1 + |b|] == a + [x] + b
  {
  }

  lemma OptsIns(ns: seq<BNode?>, idx: nat, n: BNode?)
    requires idx <= |ns|
    ensures Opts(Ins(ns, idx, n)) == Ins(Opts(ns), idx, Opt(n))
  {
  }

  /** A prefix of a buffer that was shifted up and filled. */
  lemma Opened<T>(was: seq<T>, now: seq<T>, lo: nat, hi: nat, x: T)
    requires lo <= hi < |was| == |now|
    requires now[..lo] == was[..lo] && now[lo] == x && now[lo + 1..hi + 1] == was[lo..hi]
    ensures now[..hi + 1] == Ins(was[..hi], lo, x)
  {
  }

  class BNode {
    var num: nat
    const key: array<int>
    const data: array<Ptr>
    const child: array<BNode?>
    var parent: BNode?

    /** btree_node_alloc: one more key and child than a node may keep, all zero. */
    constructor (max: nat)
      ensures Ok() && key.Length == max + 1 && Value() == Val([], [None], None)
      ensures fresh(key) && fresh(data) && fresh(child)
    {
      num, parent := 0, null;
      key := new int[max + 1](_ => 0);
      data := new Ptr[max + 1](_ => NULL);
      child := new BNode?[max + 2](_ => null);
    }

    ghost predicate Ok()
      reads this, child
    {
      && data.Length == key.Length && child.Length == key.Length + 1 && num <= key.Length
      && forall i :: num < i < child.Length ==> child[i] == null
    }

    ghost function Items(): (s: seq<Data>)
      requires Ok()
      reads this, key, data, child
    {
      Zip(key[..num], data[..num])
    }

    ghost function Kids(): (s: seq<Option<BNode>>)
      requires Ok()
      reads this, child
    {
      Opts(child[..num + 1])
    }

    ghost function Value(): Val<BNode>
      requires Ok()
      reads this, key, data, child
    {
      Val(Items(), Kids(), Opt(parent))
    }

    /** The loop of _btree_insert: a key for a leaf. */
    method InsertItem(idx: nat, k: int, d: Ptr)
      requires Ok() && idx <= num < key.Length
      modifies this`num, key, data
      ensures Ok() && Kids() == old(Kids()) + [None]
      ensures Items() == Ins(old(Items()), idx, B.Data(k, d.addr))
    {
      ShiftUp(key, idx, num);
      ShiftUp(data, idx, num);
      key[idx] := k;
      data[idx] := d;
      Opened(old(key[..]), key[..], idx, num, k);
      Opened(old(data[..]), data[..], idx, num, d);
      ZipIns(old(key[..num]), old(data[..num]), idx, k, d);
      num := num + 1;
    }

    method OpenItem(idx: nat, k: int, d: Ptr)
      requires idx <= num < key.Length == data.Length
      modifies key, data
      ensures key[..num + 1] == Ins(old(key[..num]), idx, k) && data[..num + 1] == Ins(old(data[..num]), idx, d)
    {
      ShiftUp(key, idx, num);
      ShiftUp(data, idx, num);
      key[idx] := k;
      data[idx] := d;
      Opened(old(key[..]), key[..], idx, num, k);
      Opened(old(data[..]), data[..], idx, num, d);
    }

    method OpenKid(idx: nat, kid: BNode?)
      requires Ok() && idx <= num + 1 < child.Length
      modifies child
      ensures child[..num + 2] == Ins(old(child[..num + 1]), idx, kid)
      ensures forall i :: num + 1 < i < child.Length ==> child[i] == null
    {
      ShiftUp(child, idx, num + 1);
      child[idx] := kid;
      Opened(old(child[..]), child[..], idx, num + 1, kid);
      assert forall i :: num + 1 < i < child.Length ==> child[i] == child[num + 2..][i - num - 2];
    }

    /** An item at idx and a child at kidIdx, with everything behind them moved up. */
    method Place(idx: nat, k: int, d: Ptr, kidIdx: nat, kid: BNode?)
      requires Ok() && idx <= num < key.Length && kidIdx <= num + 1
      modifies this`num, key, data, child
      ensures Ok() && Kids() == Ins(old(Kids()), kidIdx, Opt(kid))
      ensures Items() == Ins(old(Items()), idx, B.Data(k, d.addr))
    {
      OpenItem(idx, k, d);
      OpenKid(kidIdx, kid);
      ZipIns(old(key[..num]), old(data[..num]), idx, k, d);
      OptsIns(old(child[..num + 1]), kidIdx, kid);
      num := num + 1;
    }

    /** The loop of btree_split that puts the middle key and the new node into the parent: keys that
        are greater move up, with the children behind them. */
    method InsertKid(k: int, d: Ptr, node2: BNode, ghost at: nat)
      requires Ok() && at <= num < key.Length
      requires forall i :: at <= i < num ==> k < key[i]
      requires at > 0 ==> key[at - 1] <= k
      modifies this`num, key, data, child
      ensures Ok() && Kids() == Ins(old(Kids()), at + 1, Some(node2))
      ensures Items() == Ins(old(Items()), at, B.Data(k, d.addr))
    {
      var idx := num;
      while idx > 0 && k < key[idx - 1]
        invariant at <= idx <= num
      {
        idx := idx - 1;
      }
      Place(idx, k, d, idx + 1, node2);
    }

    /** The part of btree_split that leaves a node what is before the middle key. */
    method Cut(sep: nat)
      requires Ok() && sep < num
      modifies this`num, key, data, child
      ensures Ok() && Items() == old(Items()[..sep]) && Kids() == old(Kids()[..sep + 1])
    {
      var total := num;
      ghost var ks, ds, cs := key[..num], data[..num], child[..num + 1];
      num := sep;
      Fill(key, sep, total, 0);
      Fill(data, sep, total, NULL);
      Fill(child, sep + 1, total + 1, null);
      assert key[..sep] == ks[..sep] && data[..sep] == ds[..sep] && child[..sep + 1] == cs[..sep + 1];
      ZipSlice(ks, ds, 0, sep);
      assert forall i :: total < i < child.Length ==> child[i] == child[total + 1..][i - total - 1];
    }

    /** The part of btree_split that gives a new node what is behind the middle key of another. */
    method TakeBehind(node: BNode, sep: nat)
      requires Ok() && node.Ok() && num == 0 && sep < node.num && node.key.Length == key.Length
      requires key != node.key && data != node.data && child != node.child && node != this
      modifies this`num, key, data, child
      ensures Ok() && Items() == node.Items()[sep + 1..] && Kids() == node.Kids()[sep + 1..]
    {
      var n2 := node.num - sep - 1;
      ghost var ks, ds, cs := node.key[..node.num], node.data[..node.num], node.child[..node.num + 1];
      Copy(node.key, sep + 1, key, 0, n2);
      Copy(node.data, sep + 1, data, 0, n2);
      Copy(node.child, sep + 1, child, 0, n2 + 1);
      assert forall i :: n2 < i < child.Length ==> child[i] == child[n2 + 1..][i - n2 - 1];
      num := n2;
      assert key[..n2] == ks[sep + 1..] && data[..n2] == ds[sep + 1..] && child[..n2 + 1] == cs[sep + 1..];
      ZipSlice(ks, ds, sep + 1, node.num);
    }

    method SetKid(idx: nat, kid: BNode?)
      requires Ok() && idx <= num
      modifies child
      ensures Ok() && Items() == old(Items()) && Kids() == old(Kids())[idx := Opt(kid)]
    {
      child[idx] := kid;
    }

    /** One item gives way to another. */
    method SetItem(idx: nat, k: int, d: Ptr)
      requires Ok() && idx < num
      modifies key, data
      ensures Ok() && Kids() == old(Kids()) && Items() == old(Items())[idx := B.Data(k, d.addr)]
    {
      key[idx] := k;
      data[idx] := d;
    }

    /** The last item goes, and the last child with it. */
    method PopBack()
      requires Ok() && num > 0
      modifies this`num, key, data, child
      ensures Ok() && Items() == old(Items()[..num - 1]) && Kids() == old(Kids()[..num])
    {
      key[num - 1] := 0;
      data[num - 1] := NULL;
      child[num] := null;
      num := num - 1;
    }

    method PushBack(k: int, d: Ptr, kid: BNode?)
      requires Ok() && num < key.Length
      modifies this`num, key, data, child
      ensures Ok() && Items() == old(Items()) + [B.Data(k, d.addr)] && Kids() == old(Kids()) + [Opt(kid)]
    {
      key[num] := k;
      data[num] := d;
      num := num + 1;
      child[num] := kid;
    }

    /** The loop of btree_merge that closes the gap after the first item and child were given away. */
    method PopFront()
      requires Ok() && 0 < num < key.Length
      modifies this`num, key, data, child
      ensures Ok() && Items() == old(Items()[1..]) && Kids() == old(Kids()[1..])
    {
      FrontItem();
      FrontKid();
      ZipSlice(old(key[..num]), old(data[..num]), 1, num);
      num := num - 1;
    }

    method FrontItem()
      requires 0 < num < key.Length == data.Length
      modifies key, data
      ensures key[..num - 1] == old(key[..num][1..num]) && data[..num - 1] == old(data[..num][1..num])
    {
      ShiftDown(key, 0, num);
      ShiftDown(data, 0, num);
      FrontSlice(old(key[..]), key[..], num);
      FrontSlice(old(data[..]), data[..], num);
    }

    method FrontKid()
      requires Ok() && 0 < num
      modifies child
      ensures child[..num] == old(child[..num + 1][1..])
      ensures forall i :: num <= i < child.Length ==> child[i] == null
    {
      ShiftDown(child, 0, num);
      child[num] := null;
      assert forall i :: num < i < child.Length ==> child[i] == null;
    }

    /** The part of _btree_merge that appends the separating item and the right neighbour. */
    method AppendNode(k: int, d: Ptr, right: BNode)
      requires Ok() && right.Ok() && num + right.num < key.Length && right != this
      requires key != right.key && data != right.data && child != right.child
      modifies this`num, key, data, child
      ensures Ok() && Items() == old(Items()) + [B.Data(k, d.addr)] + old(right.Items())
      ensures Kids() == old(Kids()) + old(right.Kids())
    {
      AppendItems(k, d, right);
      AppendKids(right);
      ZipAppend(old(key[..num]), old(data[..num]), k, d, right.key[..right.num], right.data[..right.num]);
      OptsJoin(old(child[..num + 1]), right.child[..right.num + 1]);
      num := num + 1 + right.num;
    }

    method AppendItems(k: int, d: Ptr, right: BNode)
      requires num + right.num < key.Length == data.Length && right.num <= right.key.Length == right.data.Length
      requires key != right.key && data != right.data
      modifies key, data
      ensures key[..num + 1 + right.num] == old(key[..num]) + [k] + right.key[..right.num]
      ensures data[..num + 1 + right.num] == old(data[..num]) + [d] + right.data[..right.num]
    {
      key[num] := k;
      data[num] := d;
      Copy(right.key, 0, key, num + 1, right.num);
      Copy(right.data, 0, data, num + 1, right.num);
      Extended(key[..], old(key[..num]), k, right.key[..right.num]);
      Extended(data[..], old(data[..num]), d, right.data[..right.num]);
    }

    method AppendKids(right: BNode)
      requires Ok() && right.Ok() && num + right.num + 2 <= child.Length && child != right.child
      modifies child
      ensures child[..num + right.num + 2] == old(child[..num + 1]) + right.child[..right.num + 1]
      ensures forall i :: num + right.num + 2 <= i < child.Length ==> child[i] == null
    {
      var n := num + 1;
      Copy(right.child, 0, child, n, right.num + 1);
      TwoParts(child[..], n, right.num + 1);
      assert forall i :: n + right.num + 1 <= i < child.Length ==>
        child[i] == child[n + (right.num + 1)..][i - n - right.num - 1];
    }

    /** The part of _btree_merge that takes the separating item, and the child behind it, out of the
        parent. */
    method RemoveAt(mid: nat)
      requires Ok() && mid < num
      modifies this`num, key, data, child
      ensures Ok() && Items() == Del(old(Items()), mid) && Kids() == Del(old(Kids()), mid + 1)
    {
      CloseItem(mid);
      CloseKid(mid + 1);
      ZipDel(old(key[..num]), old(data[..num]), mid);
      OptsDel(old(child[..num + 1]), mid + 1);
      num := num - 1;
    }

    method CloseItem(mid: nat)
      requires mid < num <= key.Length == data.Length
      modifies key, data
      ensures key[..num - 1] == Del(old(key[..num]), mid) && data[..num - 1] == Del(old(data[..num]), mid)
    {
      ShiftDown(key, mid, num - 1);
      ShiftDown(data, mid, num - 1);
      Closed(old(key[..]), key[..], mid, num);
      Closed(old(data[..]), data[..], mid, num);
      ghost var ks, ds := key[..num - 1], data[..num - 1];
      key[num - 1] := 0;
      data[num - 1] := NULL;
      assert key[..num - 1] == ks && data[..num - 1] == ds;
    }

    method CloseKid(mid: nat)
      requires Ok() && mid <= num
      modifies child
      ensures child[..num] == Del(old(child[..num + 1]), mid)
      ensures forall i :: num <= i < child.Length ==> child[i] == null
    {
      ShiftDown(child, mid, num);
      Closed(old(child[..]), child[..], mid, num + 1);
      ghost var cs := child[..num];
      child[num] := null;
      assert child[..num] == cs;
    }
  }
}
