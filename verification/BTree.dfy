/** The B-tree of btree.c: nodes with buffers and parent links, rebalanced in place. */
module BTree {
  import opened Options
  import B = KeyedItems
  import opened BtShape
  import opened BtNodes
  import opened BNodes

  /** btree_key_bsearch: the index of the key, or of a key next to where it would be. */
  method KeyBsearch(keys: array<int>, num: nat, key: int) returns (mid: nat)
    requires 0 < num <= keys.Length
    ensures mid < num
    ensures (forall i, j :: 0 <= i < j < num ==> keys[i] < keys[j]) ==>
      if keys[mid] < key then forall j :: mid < j < num ==> key < keys[j]
      else if key < keys[mid] then forall j :: 0 <= j < mid ==> keys[j] < key
      else keys[mid] == key
  {
    var low, high := 0, num - 1;
    mid := 0;
    ghost var asc := forall i, j :: 0 <= i < j < num ==> keys[i] < keys[j];
    while high >= low
      invariant 0 <= low <= num && -1 <= high < num && low <= high + 1 && mid < num
      invariant asc ==> forall j :: 0 <= j < low ==> keys[j] < key
      invariant asc ==> forall j :: high < j < num ==> key < keys[j]
      invariant low <= high || mid == low - 1 || mid == high + 1
      decreases high - low + 1
    {
      mid := (low + high) / 2;
      if key == keys[mid] {
        return;
      } else if key < keys[mid] {
        high := mid - 1;
        continue;
      }
      low := mid + 1;
    }
  }

  class BTree {
    const m: nat
    const max: nat
    const min: nat
    const sepIdx: nat
    var root: BNode?

    ghost var Repr: set<BNode>
    ghost var Mem: set<object>
    ghost var Shape: Tree<BNode>
    ghost var High: nat

    /** Every node has its own buffers. */
    ghost predicate Tidy()
      reads this`Repr, this`Mem, Mem
    {
      && (forall n :: n in Repr ==>
            n in Mem && n.key in Mem && n.data in Mem && n.child in Mem && n.Ok() && n.key.Length == m)
      && (forall n, o :: n in Repr && o in Repr && n != o ==> n.key != o.key && n.data != o.data && n.child != o.child)
    }

    /** What the fields of all nodes say. */
    ghost function Vals(): map<BNode, Val<BNode>>
      requires Tidy()
      reads this`Repr, this`Mem, Mem
    {
      map n | n in Repr :: n.Value()
    }

    ghost predicate Valid()
      reads this, Mem
    {
      && m >= 3 && max == Max(m) && min == Min(m) && sepIdx == Sep(m)
      && Tidy() && this !in Mem && Linked(Vals(), Opt(root), Top, Shape) && Shaped(Shape, High, m)
    }

    constructor (m: nat)
      requires m >= 3
      ensures Valid() && Shape == Nil && fresh(Mem) && this.m == m
    {
      this.m := m;
      max := m - 1;
      min := m / 2 + (if m % 2 != 0 then 1 else 0) - 1;
      sepIdx := m / 2;
      root := null;
      Repr, Mem, Shape, High := {}, {}, Nil, 0;
    }

    // ----- one node changes

    twostate lemma Frame(node: BNode)
      requires old(Tidy()) && node in Repr && Repr == old(Repr) && Mem == old(Mem)
      requires node.Ok()
      requires forall n :: n in Repr && n != node ==>
        unchanged(n) && unchanged(n.key) && unchanged(n.data) && unchanged(n.child)
      ensures Tidy() && Vals() == old(Vals())[node := node.Value()]
    {
    }

    method PutItem(node: BNode, idx: nat, k: int, d: Ptr)
      requires Tidy() && node in Repr && idx <= node.num < m
      modifies node, node.key, node.data
      ensures Tidy() && node in old(Vals()) && var v := old(Vals())[node];
        && idx <= |v.items|
        && Vals() == old(Vals())[node := Val(Ins(v.items, idx, B.Data(k, d.addr)), v.kids + [None], v.parent)]
    {
      node.InsertItem(idx, k, d);
      Frame(node);
    }

    ghost method AddNode(n: BNode)
      requires Tidy() && n !in Mem && n.key !in Mem && n.data !in Mem && n.child !in Mem && n.Ok() && n.key.Length == m
      modifies this`Repr, this`Mem
      ensures Repr == old(Repr) + {n} && Mem == old(Mem) + {n, n.key, n.data, n.child}
      ensures Tidy() && n !in old(Vals()) && Vals() == old(Vals())[n := n.Value()]
    {
      hide BNode.Value, BNode.Ok;
      Repr := Repr + {n};
      Mem := Mem + {n, n.key, n.data, n.child};
    }

    method AllocNode() returns (n: BNode)
      requires Tidy() && m > 0 && max == m - 1
      modifies this`Repr, this`Mem
      ensures Tidy() && fresh(n) && fresh(n.key) && fresh(n.data) && fresh(n.child)
      ensures Repr == old(Repr) + {n} && Mem == old(Mem) + {n, n.key, n.data, n.child}
      ensures n !in old(Vals()) && Vals() == old(Vals())[n := Val([], [None], None)]
    {
      hide BNode.Items, BNode.Kids, Vals;
      ghost var V := Vals();
      n := new BNode(max);
      assert Tidy() && Vals() == V;
      AddNode(n);
    }

    method SetParent(node: BNode, p: BNode?)
      requires Tidy() && node in Repr
      modifies node`parent
      ensures Tidy() && node in old(Vals())
      ensures Vals() == old(Vals())[node := old(Vals())[node].(parent := Opt(p))]
    {
      node.parent := p;
      Frame(node);
    }

    method TakeBehind(node2: BNode, node: BNode, sep: nat)
      requires Tidy() && node in Vals() && node2 in Vals() && node != node2
      requires sep < |Vals()[node].items| && Vals()[node2].items == []
      modifies node2`num, node2.key, node2.data, node2.child
      ensures Tidy() && node in old(Vals()) && node2 in old(Vals()) && var v := old(Vals())[node];
        && sep < |v.items| && |v.kids| == |v.items| + 1
        && Vals() == old(Vals())[node2 := Val(v.items[sep + 1..], v.kids[sep + 1..], old(Vals())[node2].parent)]
    {
      node2.TakeBehind(node, sep);
      Frame(node2);
    }

    method Cut(node: BNode, sep: nat)
      requires Tidy() && node in Vals() && sep < |Vals()[node].items|
      modifies node`num, node.key, node.data, node.child
      ensures Tidy() && node in old(Vals()) && var v := old(Vals())[node];
        && sep < |v.items| && |v.kids| == |v.items| + 1
        && Vals() == old(Vals())[node := Val(v.items[..sep], v.kids[..sep + 1], v.parent)]
    {
      node.Cut(sep);
      Frame(node);
    }

    method NewBehind(node: BNode, sep: nat) returns (node2: BNode)
      requires Tidy() && node in Vals() && sep < |Vals()[node].items| && m > 0 && max == m - 1
      modifies this`Repr, this`Mem
      ensures Tidy() && fresh(node2) && fresh(node2.key) && fresh(node2.data) && fresh(node2.child)
      ensures Repr == old(Repr) + {node2} && Mem == old(Mem) + {node2, node2.key, node2.data, node2.child}
      ensures node in old(Vals()) && node2 !in old(Vals())
      ensures var v := old(Vals())[node];
        && sep < |v.items| && |v.kids| == |v.items| + 1
        && Vals() == old(Vals())[node2 := Val(v.items[sep + 1..], v.kids[sep + 1..], None)]
    {
      hide Vals, Tidy, BNode.Value;
      node2 := AllocNode();
      TakeBehind(node2, node, sep);
    }

    /** Everything behind item sep goes into a new node. */
    method TakeRight(node: BNode, sep: nat) returns (node2: BNode)
      requires Tidy() && node in Vals() && sep < |Vals()[node].items| && m > 0 && max == m - 1
      modifies this`Repr, this`Mem, node, node.key, node.data, node.child
      ensures Tidy() && fresh(node2) && fresh(node2.key) && fresh(node2.data) && fresh(node2.child)
      ensures Repr == old(Repr) + {node2} && Mem == old(Mem) + {node2, node2.key, node2.data, node2.child}
      ensures node in old(Vals()) && node2 !in old(Vals())
      ensures var v := old(Vals())[node];
        && sep < |v.items| && |v.kids| == |v.items| + 1
        && Vals() == old(Vals())[node := Val(v.items[..sep], v.kids[..sep + 1], v.parent)]
                                [node2 := Val(v.items[sep + 1..], v.kids[sep + 1..], v.parent)]
    {
      hide Vals, Tidy, BNode.Value;
      InMem(node);
      At(node);
      node2 := NewBehind(node, sep);
      AllAt();
      SetParent(node2, node.parent);
      Cut(node, sep);
    }

    /** The value of one node. */
    lemma At(node: BNode)
      requires Tidy() && node in Repr
      ensures node in Vals() && Vals()[node] == node.Value()
      ensures |Vals()[node].items| == node.num && |Vals()[node].kids| == node.num + 1
      ensures Vals()[node].parent == Opt(node.parent) && node.num <= node.key.Length == node.data.Length
    {
    }

    method PutKid(p: BNode, k: int, d: Ptr, node2: BNode, ghost at: nat)
      requires Tidy() && p in Vals() && at <= |Vals()[p].items| < m
      requires forall i :: at <= i < |Vals()[p].items| ==> k < Vals()[p].items[i].key
      requires forall i :: 0 <= i < at ==> Vals()[p].items[i].key <= k
      modifies p, p.key, p.data, p.child
      ensures Tidy() && p in old(Vals()) && var v := old(Vals())[p];
        && at <= |v.items| && |v.kids| == |v.items| + 1
        && Vals() == old(Vals())[p :=
             Val(Ins(v.items, at, B.Data(k, d.addr)), Ins(v.kids, at + 1, Some(node2)), v.parent)]
    {
      assert Vals()[p].items == p.Items();
      p.InsertKid(k, d, node2, at);
      Frame(p);
    }

    lemma AllAt()
      requires Tidy()
      ensures Vals().Keys == Repr
    {
    }

    lemma KidAt(node: BNode, i: nat)
      requires Tidy() && node in Repr && i <= node.num
      ensures node in Vals() && i < |Vals()[node].kids| && Vals()[node].kids[i] == Opt(node.child[i])
    {
    }

    /** The loops at the end of btree_split and in _btree_merge: the children in a node's buffer get the
        parent p. */
    method AdoptKids(node: BNode, p: BNode)
      requires Tidy() && node in Repr
      requires forall k :: k in Vals()[node].kids && k.Some? ==> k.value in Repr && k.value != node
      modifies Repr
      ensures Tidy() && node in old(Vals()) && Vals() == Adopt(old(Vals()), old(Vals())[node].kids, Some(p))
    {
      hide Adopt, Vals, BNode.Items;
      At(node);
      AllAt();
      ghost var v := Vals();
      ghost var ks := v[node].kids;
      AdoptNone(v, Some(p));
      assert ks[..0] == [];
      var i := 0;
      while i <= node.num
        invariant i <= node.num + 1 == |ks|
        invariant Tidy() && Vals() == Adopt(v, ks[..i], Some(p))
        invariant unchanged(this) && unchanged(node) && unchanged(node.child)
        invariant forall j :: 0 <= j < |ks| ==> ks[j] == Opt(node.child[j])
      {
        AdoptStep(v, ks, i, Some(p));
        if node.child[i] != null {
          assert ks[i] in ks;
          SetParent(node.child[i], p);
        }
        i := i + 1;
      }
      assert ks[..|ks|] == ks;
    }

    // ----- inserting

    /** A root without a parent gets an empty node above it, which becomes the root. */
    method GrowRoot(node: BNode, ghost t: Tree<BNode>) returns (parent: BNode)
      requires Tidy() && m > 0 && max == m - 1 && this !in Mem
      requires root == node && Root(t) == Some(node) && Linked(Vals(), Opt(root), Top, t)
      modifies this`Repr, this`Mem, this`root, node
      ensures Tidy() && fresh(Mem - old(Mem)) && Mem >= old(Mem)
      ensures Linked(Vals(), Opt(root), In(parent, [], [], [], Top), t)
    {
      hide Vals, Linked;
      ghost var V := Vals();
      Focus(Top, t);
      parent := AllocNode();
      RootGrown(V, t, parent);
      root := parent;
      assert parent != node;
      PutFirst(parent, node);
      assert Vals() == V[parent := Val([], [Root(t)], None)];
      SetParent(node, parent);
      assert V[parent := Val([], [Root(t)], None)][node := V[node].(parent := Some(parent))] == Vals();
    }

    /** What the links say of the node in focus. */
    lemma Focus(c: Ctx<BNode>, t: Tree<BNode>)
      requires Tidy() && t.Node? && Linked(Vals(), Opt(root), c, t)
      ensures t.n in Repr && t.n in Mem && t.n.key in Mem && t.n.data in Mem && t.n.child in Mem && t.n in Vals()
      ensures Vals()[t.n] == Val(t.items, Roots(t.kids), Up(c))
      ensures t.n.num == |t.items| == |t.n.Items()| && t.n.Ok() && t.n.key.Length == m
      ensures t.n.parent == null <==> c.Top?
      ensures c.Top? ==> root == t.n
      ensures c.In? ==> t.n.parent == c.n && c.n in Repr
    {
    }

    method PutFirst(p: BNode, kid: BNode)
      requires Tidy() && p in Vals() && Vals()[p] == Val([], [None], None)
      modifies p.child
      ensures Tidy() && Vals() == old(Vals())[p := Val([], [Some(kid)], None)]
    {
      assert p.Value() == Val([], [None], None);
      p.SetKid(0, kid);
      assert p.Kids() == [Some(kid)];
      Frame(p);
    }

    ghost predicate CanSplit(V: map<BNode, Val<BNode>>, node: BNode, at: nat) {
      && node in V && sepIdx < |V[node].items| && |V[node].kids| == |V[node].items| + 1
      && V[node].parent.Some? && V[node].parent.value in V && V[node].parent.value != node
      && (forall x :: x in V[node].kids && x.Some? ==> x.value in V)
      && var v, w := V[node], V[V[node].parent.value];
      && at <= |w.items| < m && |w.kids| == |w.items| + 1
      && (forall i :: at <= i < |w.items| ==> v.items[sepIdx].key < w.items[i].key)
      && (forall i :: 0 <= i < at ==> w.items[i].key <= v.items[sepIdx].key)
    }

    /** What the node, the new node and the parent say after a turn of the loop in btree_split. */
    ghost function SplitVals(V: map<BNode, Val<BNode>>, node: BNode, at: nat, p: BNode,
        node2: BNode): map<BNode, Val<BNode>>
      requires CanSplit(V, node, at) && V[node].parent == Some(p)
    {
      var v, w := V[node], V[p];
      V[node := Val(v.items[..sepIdx], v.kids[..sepIdx + 1], v.parent)]
       [node2 := Val(v.items[sepIdx + 1..], v.kids[sepIdx + 1..], v.parent)]
       [p := Val(Ins(w.items, at, v.items[sepIdx]), Ins(w.kids, at + 1, Some(node2)), w.parent)]
    }

    method MoveUp(node: BNode, ghost at: nat) returns (parent: BNode, node2: BNode)
      requires m > 0 && max == m - 1 && Tidy() && CanSplit(Vals(), node, at)
      modifies this`Repr, this`Mem, Mem
      ensures Tidy() && fresh(Mem - old(Mem)) && node2 !in old(Vals()) && node2 in Repr
      ensures CanSplit(old(Vals()), node, at) && old(Vals())[node].parent == Some(parent)
      ensures Vals() == SplitVals(old(Vals()), node, at, parent, node2)
    {
      hide Vals, Tidy;
      InMem(node);
      var k, d := ReadItem(node, sepIdx);
      parent := ReadParent(node);
      InMem(parent);
      node2 := TakeRight(node, sepIdx);
      PutKid(parent, k, d, node2, at);
    }

    /** One turn of the loop in btree_split, for a node that has a parent: the fields. */
    method SplitFields(node: BNode, ghost at: nat) returns (parent: BNode, node2: BNode)
      requires m >= 3 && max == m - 1 && Tidy() && CanSplit(Vals(), node, at)
      modifies this`Repr, this`Mem, Mem
      ensures Tidy() && fresh(Mem - old(Mem)) && node2 !in old(Vals())
      ensures CanSplit(old(Vals()), node, at) && old(Vals())[node].parent == Some(parent)
      ensures var V := old(Vals());
        Vals() == Adopt(SplitVals(V, node, at, parent, node2), V[node].kids[sepIdx + 1..], Some(node2))
    {
      hide Vals, Adopt, Tidy;
      ghost var V := Vals();
      parent, node2 := MoveUp(node, at);
      assert Vals()[node2].kids == V[node].kids[sepIdx + 1..];
      AllAt();
      ReposIn();
      AdoptKids(node2, node2);
    }

    /** The same, as trees. */
    method SplitNode(node: BNode, ghost u: Ctx<BNode>, ghost p: BNode, ghost items: seq<Data>,
        ghost l: seq<Tree<BNode>>, ghost t: Tree<BNode>, ghost r: seq<Tree<BNode>>)
      returns (parent: BNode, node2: BNode)
      requires m >= 3 && max == m - 1 && sepIdx == Sep(m) && Tidy() && this !in Mem
      requires Linked(Vals(), Opt(root), u, Node(p, items, l + [t] + r)) && Matched(u)
      requires Root(t) == Some(node) && |t.kids| == |t.items| + 1 == m + 1 && |l| + |r| == |items| < m
      requires B.Sorted(InOrder(Plug(u, Node(p, items, l + [t] + r))))
      modifies this`Repr, this`Mem, Mem
      ensures Tidy() && fresh(Mem - old(Mem)) && parent == p
      ensures Linked(Vals(), Opt(root), u, SplitUp(p, items, l, t, r, Sep(m), node2))
    {
      hide Vals, Linked, InOrder, Plug, Adopt, CRep;
      ghost var V := Vals();
      NodeVals(V, Opt(root), u, p, items, l, t, r);
      SplitPlace(u, p, items, l, t, r, sepIdx, node);
      RootsInVals(V, Opt(root), u, p, items, l, t, r);
      parent, node2 := SplitFields(node, |l|);
      AllNodesIn(V, Opt(root), u, Node(p, items, l + [t] + r));
      RootsSlice(t.kids, sepIdx + 1);
      RootsIns(l, t, r, LeftPart(t, sepIdx), RightPart(t, sepIdx, node2));
      assert t.kids[..sepIdx + 1] + t.kids[sepIdx + 1..] == t.kids;
      SplitLinked(V, Opt(root), u, p, items, Ins(items, |l|, t.items[sepIdx]), l, t, r, node2,
        t.items[..sepIdx], t.items[sepIdx + 1..], t.kids[..sepIdx + 1], t.kids[sepIdx + 1..]);
    }

    lemma RootsInVals(V: map<BNode, Val<BNode>>, r0: Option<BNode>, u: Ctx<BNode>, p: BNode, items: seq<Data>,
        l: seq<Tree<BNode>>, t: Tree<BNode>, r: seq<Tree<BNode>>)
      requires Linked(V, r0, u, Node(p, items, l + [t] + r)) && t.Node?
      ensures t.n in V && forall x :: x in V[t.n].kids && x.Some? ==> x.value in V
    {
      var j := Node(p, items, l + [t] + r);
      LinkedInto(V, r0, u, j, |l|);
      forall x | x in V[t.n].kids && x.Some? ensures x.value in V {
        var i :| 0 <= i < |t.kids| && Roots(t.kids)[i] == x;
        assert Rep(V, t.kids[i], Some(t.n));
      }
    }

    lemma ItemsAt(node: BNode, i: nat)
      requires Tidy() && node in Repr && i < node.num
      ensures node in Vals() && i < |Vals()[node].items|
      ensures Vals()[node].items[i] == B.Data(node.key[i], node.data[i].addr)
    {
    }

    /** What the links say of a node and its parent. */
    lemma NodeVals(V: map<BNode, Val<BNode>>, r0: Option<BNode>, u: Ctx<BNode>, p: BNode, items: seq<Data>,
        l: seq<Tree<BNode>>, t: Tree<BNode>, r: seq<Tree<BNode>>)
      requires Linked(V, r0, u, Node(p, items, l + [t] + r)) && t.Node?
      ensures p in V && V[p] == Val(items, Roots(l + [t] + r), Up(u))
      ensures t.n in V && V[t.n] == Val(t.items, Roots(t.kids), Some(p))
      ensures p != t.n
    {
      var j := Node(p, items, l + [t] + r);
      LinkedInto(V, r0, u, j, |l|);
      var d := Into(u, j, |l|);
      assert p in CNodes(d) && t.n in Nodes(t);
      assert (CNodes(d) + Nodes(t))[p] == 1;
    }

    /** One turn of the loop in btree_split. */
    method SplitTurn(node: BNode, ghost c: Ctx<BNode>, ghost t: Tree<BNode>, ghost h: nat)
      returns (parent: BNode, ghost c': Ctx<BNode>, ghost t': Tree<BNode>)
      requires m >= 3 && max == Max(m) && sepIdx == Sep(m) && Tidy() && this !in Mem
      requires Linked(Vals(), Opt(root), c, t) && Root(t) == Some(node)
      requires h > 0 && CGood(c, h, m) && Near(t, h, m, m, m) && B.Sorted(InOrder(Plug(c, t)))
      modifies this`Repr, this`Mem, this`root, Mem
      ensures Tidy() && this !in Mem && fresh(Mem - old(Mem))
      ensures Linked(Vals(), Opt(root), c', t') && Root(t') == Some(parent)
      ensures CGood(c', h + 1, m) && Near(t', h + 1, if c'.Top? then 1 else Min(m), m, m)
      ensures Depth(c') + (if |t'.items| > max then 1 else 0) <= Depth(c)
      ensures InOrder(Plug(c', t')) == InOrder(Plug(c, t))
    {
      hide Vals, Tidy, Linked, CRep, InOrder;
      ghost var d := c;
      CGoodMatched(c, h, m);
      Focus(c, t);
      if node.parent == null {
        var p := GrowRoot(node, t);
        GrownInOrder(p, t);
        d := In(p, [], [], [], Top);
      }
      assert Linked(Vals(), Opt(root), d.up, Node(d.n, d.items, d.left + [t] + d.right)) by {
        JoinSplit(Vals(), Opt(root), d, t);
      }
      SplitPlaceWhole(d, t, sepIdx, node);
      var node2;
      parent, node2 := SplitNode(node, d.up, d.n, d.items, d.left, t, d.right);
      SplitPlaceWhole(d, t, sepIdx, node2);
      SplitUpNear(d, t, h, m, node2);
      c', t' := d.up, SplitUp(d.n, d.items, d.left, t, d.right, Sep(m), node2);
    }

    lemma SplitPlaceWhole(d: Ctx<BNode>, t: Tree<BNode>, sep: nat, o: BNode)
      requires d.In? && Matched(d) && t.Node? && sep < |t.items| && |t.kids| == |t.items| + 1
      requires B.Sorted(InOrder(Plug(d, t)))
      ensures Plug(d, t) == Plug(d.up, Node(d.n, d.items, d.left + [t] + d.right))
      ensures InOrder(Plug(d.up, SplitUp(d.n, d.items, d.left, t, d.right, sep, o))) == InOrder(Plug(d, t))
    {
      SplitPlace(d.up, d.n, d.items, d.left, t, d.right, sep, o);
    }

    /** btree_split: nodes with too many items are cut, from the leaf upwards. */
    method Split(node: BNode, ghost c: Ctx<BNode>, ghost t: Tree<BNode>, ghost h: nat)
      requires m >= 3 && max == Max(m) && min == Min(m) && sepIdx == Sep(m) && Tidy() && this !in Mem
      requires Linked(Vals(), Opt(root), c, t) && Root(t) == Some(node)
      requires h > 0 && CGood(c, h, m) && Near(t, h, if c.Top? then 1 else Min(m), m, m)
      requires B.Sorted(InOrder(Plug(c, t)))
      modifies this`Repr, this`Mem, this`root, this`Shape, this`High, Mem
      ensures Valid() && fresh(Mem - old(Mem)) && InOrder(Shape) == InOrder(Plug(c, t))
    {
      hide Vals, Linked, CRep, InOrder, Plug, Tidy, CGood;
      var n := node;
      ghost var c1, t1, h1 := c, t, h;
      Focus(c, t);
      while n.num > max
        invariant Tidy() && this !in Mem && fresh(Mem - old(Mem))
        invariant Linked(Vals(), Opt(root), c1, t1) && Root(t1) == Some(n) && n.num == |t1.items|
        invariant h1 > 0 && CGood(c1, h1, m) && Near(t1, h1, if c1.Top? then 1 else Min(m), m, m)
        invariant InOrder(Plug(c1, t1)) == InOrder(Plug(c, t))
        decreases Depth(c1) + if |t1.items| > max then 1 else 0
      {
        n, c1, t1 := SplitTurn(n, c1, t1, h1);
        h1 := h1 + 1;
        Focus(c1, t1);
      }
      Finish(c1, t1, h1);
    }

    /** The walk upwards is over: the whole tree has its shape again. */
    ghost method Finish(c: Ctx<BNode>, t: Tree<BNode>, h: nat)
      requires m >= 3 && max == Max(m) && min == Min(m) && sepIdx == Sep(m) && Tidy() && this !in Mem
      requires Linked(Vals(), Opt(root), c, t) && CGood(c, h, m)
      requires if c.Top? then Shaped(t, h, m) else Good(t, h, m)
      modifies this`Shape, this`High
      ensures Valid() && Shape == Plug(c, t) && High == h + Depth(c)
    {
      hide CRep, Linked, Vals, Tidy, Good, CGood;
      PlugShaped(c, t, h, m);
      LinkedPlug(Vals(), Opt(root), c, t);
      Shape, High := Plug(c, t), h + Depth(c);
    }

    ghost function Contents(): set<Data>
      reads this`Shape
    {
      B.Items(InOrder(Shape))
    }

    ghost predicate Ordered()
      reads this`Shape
    {
      B.Sorted(InOrder(Shape))
    }

    /** Where the search goes on in a node: the index of the key, or of the child to look in. */
    method Search(node: BNode, key: int, ghost c: Ctx<BNode>, ghost t: Tree<BNode>) returns (found: bool, idx: nat)
      requires Tidy() && Linked(Vals(), Opt(root), c, t) && Root(t) == Some(node) && |t.items| > 0
      ensures found ==>
        idx < |t.items| && t.items[idx].key == key && t.items[idx] == B.Data(node.key[idx], node.data[idx].addr)
      ensures !found ==> idx <= |t.items| && (B.Sorted(t.items) ==> Between(t.items, idx, key))
    {
      Focus(c, t);
      assert node.Items() == t.items;
      var mid := KeyBsearch(node.key, node.num, key);
      assert forall i :: 0 <= i < node.num ==> t.items[i].key == node.key[i];
      if key == node.key[mid] {
        return true, mid;
      } else if key > node.key[mid] {
        return false, mid + 1;
      }
      return false, mid;
    }

    /** node->child[idx] */
    method Child(node: BNode, idx: nat, ghost c: Ctx<BNode>, ghost t: Tree<BNode>) returns (kid: BNode?)
      requires Tidy() && Linked(Vals(), Opt(root), c, t) && Root(t) == Some(node) && idx < |t.kids| == |t.items| + 1
      ensures Opt(kid) == Root(t.kids[idx]) && Linked(Vals(), Opt(root), Into(c, t, idx), t.kids[idx])
    {
      hide CRep;
      Focus(c, t);
      KidAt(node, idx);
      kid := node.child[idx];
      LinkedInto(Vals(), Opt(root), c, t, idx);
    }

    /** The walk down has come to this subtree. */
    ghost predicate Here(node: BNode?, c: Ctx<BNode>, t: Tree<BNode>, h: nat)
      reads this, Mem
    {
      && Valid() && Linked(Vals(), Opt(root), c, t) && Root(t) == Opt(node) && Plug(c, t) == Shape
      && CGood(c, h, m) && (if c.Top? then Shaped(t, h, m) else Good(t, h, m))
    }

    lemma AtRoot()
      requires Valid()
      ensures Here(root, Top, Shape, High)
    {
    }

    lemma HereNear(node: BNode, c: Ctx<BNode>, t: Tree<BNode>, h: nat)
      requires Here(node, c, t, h)
      ensures h > 0 && Near(t, h, if c.Top? then 1 else Min(m), Max(m), m) && Matched(c) && t.n == node
    {
      CGoodMatched(c, h, m);
    }

    /** One turn of the walk down: the key is in this node, or the search goes on in a child. */
    method Down(node: BNode, key: int, ghost c: Ctx<BNode>, ghost t: Tree<BNode>, ghost h: nat)
      returns (found: bool, idx: nat, kid: BNode?)
      requires Here(node, c, t, h)
      ensures h > 0 && t.Node? && |t.kids| == |t.items| + 1 && idx <= |t.items|
      ensures found ==> idx < |t.items| && t.items[idx].key == key && t.items[idx] in InOrder(Shape)
      ensures found ==> node.num > idx && node.key.Length == node.data.Length == m && idx < m
      ensures found ==> t.items[idx].addr == node.data[idx].addr
      ensures !found ==> Here(kid, Into(c, t, idx), t.kids[idx], h - 1)
      ensures !found && Ordered() && Around(c, key) ==> Around(Into(c, t, idx), key) && Between(t.items, idx, key)
    {
      hide Vals, Tidy, Linked, CRep, InOrder, CGood, Pre, Post;
      HereNear(node, c, t, h);
      Focus(c, t);
      found, idx := Search(node, key, c, t);
      if found {
        ItemAt(c, t, idx);
        kid := null;
      } else {
        IntoGood(c, t, idx, h, m);
        JoinInto(c, t, idx);
        kid := Child(node, idx, c, t);
        if Ordered() && Around(c, key) {
          FocusSorted(c, t);
          GoDown(c, t, idx, key);
        }
      }
    }

    /** btree_query */
    method Query(key: int) returns (data: Option<int>)
      requires Valid()
      ensures data.Some? ==> B.Data(key, data.value) in Contents()
      ensures Ordered() && data.None? ==> !B.HasKey(Contents(), key)
    {
      hide Here, Valid, Around, InOrder, Plug;
      var node := root;
      ghost var c, t, h := Top, Shape, High;
      AtRoot();
      AroundTop(key);
      while node != null
        invariant Here(node, c, t, h) && (Ordered() ==> Around(c, key))
        decreases h
      {
        var found, idx, kid := Down(node, key, c, t, h);
        if found {
          return Some(node.data[idx].addr);
        }
        node := kid;
        c, t, h := Into(c, t, idx), t.kids[idx], h - 1;
      }
      if Ordered() {
        HereMissing(c, t, h, key);
      }
      return None;
    }

    lemma AroundTop(key: int)
      ensures Around<BNode>(Top, key)
    {
    }

    lemma HereMissing(c: Ctx<BNode>, t: Tree<BNode>, h: nat, key: int)
      requires Here(null, c, t, h) && Around(c, key)
      ensures !B.HasKey(Contents(), key) && h == 0 && t.Nil?
    {
      hide Vals, Tidy, Linked, InOrder, Around;
      CGoodMatched(c, h, m);
      GoodNil(t, h, m);
      Missing(c, key);
    }

    // ----- inserting a key

    method InsertFirst(key: int, data: Ptr)
      requires Valid() && root == null
      modifies this
      ensures Valid() && fresh(Mem - old(Mem)) && High == 1
      ensures InOrder(Shape) == [B.Data(key, data.addr)] && old(Contents()) == {}
    {
      hide Vals, Tidy, Weave, Linked;
      EmptyTree();
      ghost var d := B.Data(key, data.addr);
      var node := AllocNode();
      At(node);
      AllAt();
      PutItem(node, 0, key, data);
      assert Ins([], 0, d) == [d];
      root := node;
      OneLeaf(Vals(), node, d, m);
      Finish(Top, Node(node, [d], [Nil, Nil]), 1);
    }

    lemma EmptyTree()
      requires Valid() && root == null
      ensures Shape == Nil && Contents() == {} && m >= 3 && max == m - 1
    {
    }

    lemma OneLeaf(V: map<BNode, Val<BNode>>, n: BNode, d: Data, m: nat)
      requires m >= 3 && n in V && V[n] == Val([d], [None, None], None)
      ensures var t := Node(n, [d], [Nil, Nil]);
        Linked(V, Some(n), Top, t) && Shaped(t, 1, m) && InOrder(t) == [d]
    {
      var t := Node(n, [d], [Nil, Nil]);
      WeaveNils(t.items, t.kids);
      assert Roots<BNode>([Nil, Nil]) == [None, None];
      KNodesTwo<BNode>(Nil, Nil);
    }

    /** _btree_insert: the key goes into a leaf, which is cut when it gets too large. */
    method InsertAt(node: BNode, key: int, data: Ptr, idx: nat, ghost c: Ctx<BNode>, ghost t: Tree<BNode>)
      requires Ordered() && Here(node, c, t, 1)
      requires Between(t.items, idx, key) && Around(c, key)
      modifies this, Mem
      ensures Valid() && Ordered() && fresh(Mem - old(Mem))
      ensures Contents() == old(Contents()) + {B.Data(key, data.addr)}
      ensures |t.items| < max ==> High == 1 + Depth(c)
    {
      hide Vals, Tidy, Linked, CRep, InOrder;
      ghost var d := B.Data(key, data.addr);
      ghost var t' := LeafIns(t, idx, d);
      HereNear(node, c, t, 1);
      LeafInserted(c, t, idx, d, m, if c.Top? then 1 else Min(m));
      Focus(c, t);
      LeafLinked(Vals(), Opt(root), c, t, idx, d);
      PutItem(node, idx, key, data);
      Focus(c, t');
      if node.num > max {
        Split(node, c, t', 1);
      } else {
        Finish(c, t', 1);
      }
    }

    lemma LeafLinked(V: map<BNode, Val<BNode>>, r0: Option<BNode>, c: Ctx<BNode>, t: Tree<BNode>, i: nat, d: Data)
      requires Linked(V, r0, c, t) && t.Node? && i <= |t.items|
      ensures Linked(V[t.n := Val(Ins(t.items, i, d), Roots(t.kids) + [None], Up(c))], r0, c, LeafIns(t, i, d))
    {
      var kids := t.kids + [Nil];
      KNodesJoin(t.kids, [Nil]);
      KNodesOne<BNode>(Nil);
      KRepJoin(V, t.kids, [Nil], Some(t.n));
      assert Roots(kids) == Roots(t.kids) + [None];
      SetNode(V, r0, c, t, Ins(t.items, i, d), kids);
    }

    /** btree_insert: a key that is there already changes nothing.  A single leaf with room stays one. */
    method Insert(key: int, data: Ptr)
      requires Valid() && Ordered()
      modifies this, Mem
      ensures Valid() && Ordered() && fresh(Mem - old(Mem))
      ensures B.HasKey(old(Contents()), key) ==> Shape == old(Shape)
      ensures !B.HasKey(old(Contents()), key) ==> Contents() == old(Contents()) + {B.Data(key, data.addr)}
      ensures old(High) <= 1 && |old(InOrder(Shape))| < max ==> High == 1
    {
      hide Here, Valid, Around, InOrder, Plug, Linked, Tidy;
      if root == null {
        InsertFirst(key, data);
        return;
      }
      var node: BNode := root;
      ghost var c, t := Top, Shape;
      ghost var h: nat := High;
      AtRoot();
      AroundTop(key);
      while true
        invariant unchanged(this) && unchanged(Mem) && Here(node, c, t, h) && Around(c, key)
        invariant h + Depth(c) == High
        decreases h
      {
        var found, idx, kid := Down(node, key, c, t, h);
        if found {
          assert B.HasKey(Contents(), key);
          return;
        }
        if kid == null {
          HereMissing(Into(c, t, idx), t.kids[idx], h - 1, key);
          LeafRoot(node, c, t);
          InsertAt(node, key, data, idx, c, t);
          return;
        }
        node := kid;
        c, t, h := Into(c, t, idx), t.kids[idx], h - 1;
      }
    }

    /** A tree that is one leaf. */
    lemma LeafRoot(node: BNode, c: Ctx<BNode>, t: Tree<BNode>)
      requires Here(node, c, t, 1)
      ensures Depth(c) == 0 ==> |t.items| == |InOrder(Shape)|
    {
      hide Vals, Tidy, Linked, CRep;
      HereNear(node, c, t, 1);
      if c.Top? {
        LeafItems(t);
      }
    }

    // ----- removing

    method SetItem(node: BNode, idx: nat, k: int, d: Ptr)
      requires Tidy() && node in Vals() && idx < |Vals()[node].items|
      modifies node.key, node.data
      ensures Tidy() && node in old(Vals()) && var v := old(Vals())[node];
        idx < |v.items| && Vals() == old(Vals())[node := v.(items := v.items[idx := B.Data(k, d.addr)])]
    {
      node.SetItem(idx, k, d);
      Frame(node);
    }

    method PopBack(node: BNode)
      requires Tidy() && node in Vals() && |Vals()[node].items| > 0
      modifies node`num, node.key, node.data, node.child
      ensures Tidy() && node in old(Vals()) && var v := old(Vals())[node];
        && |v.kids| == |v.items| + 1 && |v.items| > 0
        && Vals() == old(Vals())[node := Val(v.items[..|v.items| - 1], v.kids[..|v.items|], v.parent)]
    {
      hide BNode.Items, BNode.Kids, Vals;
      AllAt();
      At(node);
      node.PopBack();
      Frame(node);
    }

    method PopFront(node: BNode)
      requires Tidy() && node in Vals() && 0 < |Vals()[node].items| < m
      modifies node`num, node.key, node.data, node.child
      ensures Tidy() && node in old(Vals()) && var v := old(Vals())[node];
        && |v.kids| == |v.items| + 1 && |v.items| > 0
        && Vals() == old(Vals())[node := Val(v.items[1..], v.kids[1..], v.parent)]
    {
      node.PopFront();
      Frame(node);
    }

    method PushBack(node: BNode, k: int, d: Ptr, kid: BNode?)
      requires Tidy() && node in Vals() && |Vals()[node].items| < m
      modifies node`num, node.key, node.data, node.child
      ensures Tidy() && node in old(Vals()) && var v := old(Vals())[node];
        Vals() == old(Vals())[node := Val(v.items + [B.Data(k, d.addr)], v.kids + [Opt(kid)], v.parent)]
    {
      node.PushBack(k, d, kid);
      Frame(node);
    }

    /** The loop of btree_merge that makes room for what comes from the left neighbour. */
    method PushFront(node: BNode, k: int, d: Ptr, kid: BNode?)
      requires Tidy() && node in Vals() && |Vals()[node].items| < m
      modifies node`num, node.key, node.data, node.child
      ensures Tidy() && node in old(Vals()) && var v := old(Vals())[node];
        Vals() == old(Vals())[node := Val([B.Data(k, d.addr)] + v.items, [Opt(kid)] + v.kids, v.parent)]
    {
      node.Place(0, k, d, 0, kid);
      InsFront(old(node.Items()), B.Data(k, d.addr));
      InsFront(old(node.Kids()), Opt(kid));
      Frame(node);
    }

    lemma InsFront<T>(s: seq<T>, x: T)
      ensures Ins(s, 0, x) == [x] + s
    {
    }

    method AppendNode(left: BNode, k: int, d: Ptr, right: BNode)
      requires Tidy() && left in Vals() && right in Vals() && left != right
      requires |Vals()[left].items| + |Vals()[right].items| < m
      modifies left`num, left.key, left.data, left.child
      ensures Tidy() && left in old(Vals()) && right in old(Vals())
      ensures var v, w := old(Vals())[left], old(Vals())[right];
        Vals() == old(Vals())[left := Val(v.items + [B.Data(k, d.addr)] + w.items, v.kids + w.kids, v.parent)]
    {
      left.AppendNode(k, d, right);
      Frame(left);
    }

    method RemoveAt(p: BNode, mid: nat)
      requires Tidy() && p in Vals() && mid < |Vals()[p].items|
      modifies p`num, p.key, p.data, p.child
      ensures Tidy() && p in old(Vals()) && var v := old(Vals())[p];
        && mid < |v.items| && |v.kids| == |v.items| + 1
        && Vals() == old(Vals())[p := Val(Del(v.items, mid), Del(v.kids, mid + 1), v.parent)]
    {
      p.RemoveAt(mid);
      Frame(p);
    }

    method AdoptOne(kid: BNode?, p: BNode)
      requires Tidy() && (kid != null ==> kid in Repr)
      modifies if kid == null then {} else {kid}
      ensures Tidy() && Vals() == Adopt(old(Vals()), [Opt(kid)], Some(p))
    {
      hide Vals, Adopt;
      AllAt();
      ghost var V := Vals();
      AdoptNone(V, Some(p));
      AdoptStep(V, [Opt(kid)], 0, Some(p));
      assert [Opt(kid)][..1] == [Opt(kid)] && [Opt(kid)][..0] == [];
      if kid != null {
        SetParent(kid, p);
      }
    }

    /** A node, its parent and a neighbour in the parent: what the fields must say for the three to be
        changed together. */
    ghost predicate Trio(V: map<BNode, Val<BNode>>, left: BNode, right: BNode, p: BNode, mid: nat) {
      && left in V && right in V && p in V && left != right && left != p && right != p
      && |V[left].kids| == |V[left].items| + 1 && |V[right].kids| == |V[right].items| + 1
      && |V[p].kids| == |V[p].items| + 1 && mid < |V[p].items|
      && (forall x :: x in V[left].kids && x.Some? ==> x.value in V && x.value !in {left, right, p})
      && (forall x :: x in V[right].kids && x.Some? ==> x.value in V && x.value !in {left, right, p})
    }

    /** node->key[i] and node->data[i] */
    method ReadItem(node: BNode, i: nat) returns (k: int, d: Ptr)
      requires Tidy() && node in Vals() && i < |Vals()[node].items|
      ensures B.Data(k, d.addr) == Vals()[node].items[i]
    {
      ItemsAt(node, i);
      At(node);
      k, d := node.key[i], node.data[i];
    }

    method ReadKid(node: BNode, i: nat) returns (kid: BNode?)
      requires Tidy() && node in Vals() && i < |Vals()[node].kids|
      ensures Opt(kid) == Vals()[node].kids[i]
    {
      At(node);
      KidAt(node, i);
      kid := node.child[i];
    }

    method ReadNum(node: BNode) returns (n: nat)
      requires Tidy() && node in Vals()
      ensures n == |Vals()[node].items|
    {
      At(node);
      n := node.num;
    }

    method ReadParent(node: BNode) returns (p: BNode)
      requires Tidy() && node in Vals() && Vals()[node].parent.Some?
      ensures Some(p) == Vals()[node].parent && node.parent == p
    {
      At(node);
      p := node.parent;
    }

    lemma InMem(node: BNode)
      requires Tidy() && node in Vals()
      ensures node in Repr && node in Mem && node.key in Mem && node.data in Mem && node.child in Mem
    {
    }

    /** _btree_merge, the fields. */
    method MergeFields(left: BNode, right: BNode, p: BNode, mid: nat)
      requires Tidy() && Trio(Vals(), left, right, p, mid)
      requires |Vals()[left].items| + |Vals()[right].items| < m
      modifies Mem
      ensures Tidy() && Trio(old(Vals()), left, right, p, mid)
      ensures var v, w, u := old(Vals())[left], old(Vals())[right], old(Vals())[p];
        var v' := Val(v.items + [u.items[mid]] + w.items, v.kids + w.kids, v.parent);
        Vals() == Change(old(Vals()), left, v', left, v', p, Val(Del(u.items, mid), Del(u.kids, mid + 1), u.parent),
          w.kids, Some(left))
    {
      hide Vals, Adopt, Tidy, Del;
      ghost var V := Vals();
      InMem(left);
      InMem(p);
      var k, d := ReadItem(p, mid);
      AppendNode(left, k, d, right);
      RemoveAt(p, mid);
      AllAt();
      ReposIn();
      AdoptKids(right, left);
      Twice(V, left,
        Val(V[left].items + [V[p].items[mid]] + V[right].items, V[left].kids + V[right].kids, V[left].parent));
    }

    lemma Twice(V: map<BNode, Val<BNode>>, a: BNode, va: Val<BNode>)
      ensures V[a := va][a := va] == V[a := va]
    {
    }

    lemma ReposIn()
      requires Tidy()
      ensures Repr <= Mem
    {
    }

    /** The part of btree_merge that borrows from the left neighbour, the fields. */
    method BorrowLeftFields(left: BNode, node: BNode, p: BNode, mid: nat)
      requires Tidy() && Trio(Vals(), left, node, p, mid)
      requires |Vals()[node].items| < m && 0 < |Vals()[left].items|
      modifies Mem
      ensures Tidy() && Trio(old(Vals()), left, node, p, mid)
      ensures var v, w, u := old(Vals())[left], old(Vals())[node], old(Vals())[p];
        var k := |v.items| - 1;
        k >= 0 && Vals() == Change(old(Vals()), left, Val(v.items[..k], v.kids[..k + 1], v.parent),
          node, Val([u.items[mid]] + w.items, [v.kids[k + 1]] + w.kids, w.parent),
          p, u.(items := u.items[mid := v.items[k]]), [v.kids[k + 1]], Some(node))
    {
      hide Vals, Adopt, Tidy;
      ghost var V := Vals();
      var n := ReadNum(left);
      var kid := ReadKid(left, n);
      ghost var v, w, u := V[left], V[node], V[p];
      ThreeOrders(V, node, Val([u.items[mid]] + w.items, [v.kids[n]] + w.kids, w.parent),
        p, u.(items := u.items[mid := v.items[n - 1]]), left, Val(v.items[..n - 1], v.kids[..n], v.parent));
      if kid != null {
        assert Opt(kid) in v.kids;
        InMem(kid);
      }
      ItemsRight(left, node, p, mid, kid);
      AllAt();
      ReposIn();
      AdoptOne(kid, node);
    }

    /** The left neighbour's last item moves to the parent, and the parent's to the front of the node. */
    method ItemsRight(left: BNode, node: BNode, p: BNode, mid: nat, kid: BNode?)
      requires Tidy() && Trio(Vals(), left, node, p, mid)
      requires |Vals()[node].items| < m && 0 < |Vals()[left].items|
      modifies Mem
      ensures Tidy() && Trio(old(Vals()), left, node, p, mid)
      ensures var v, w, u := old(Vals())[left], old(Vals())[node], old(Vals())[p];
        var n := |v.items|;
        n > 0 && Vals() == old(Vals())[node := Val([u.items[mid]] + w.items, [Opt(kid)] + w.kids, w.parent)]
          [p := u.(items := u.items[mid := v.items[n - 1]])][left := Val(v.items[..n - 1], v.kids[..n], v.parent)]
    {
      hide Vals, Tidy;
      InMem(left);
      InMem(node);
      InMem(p);
      var n := ReadNum(left);
      var k, d := ReadItem(left, n - 1);
      var pk, pd := ReadItem(p, mid);
      PushFront(node, pk, pd, kid);
      SetItem(p, mid, k, d);
      PopBack(left);
    }

    lemma ThreeOrders(V: map<BNode, Val<BNode>>, a: BNode, va: Val<BNode>, p: BNode, vp: Val<BNode>, b: BNode,
        vb: Val<BNode>)
      requires a != b && a != p && b != p
      ensures V[a := va][p := vp][b := vb] == V[b := vb][a := va][p := vp]
      ensures V[a := va][p := vp][b := vb] == V[a := va][b := vb][p := vp]
    {
    }

    /** The part of btree_merge that borrows from the right neighbour, the fields. */
    method BorrowRightFields(node: BNode, right: BNode, p: BNode, mid: nat)
      requires Tidy() && Trio(Vals(), node, right, p, mid)
      requires |Vals()[node].items| < m && 0 < |Vals()[right].items| < m
      modifies Mem
      ensures Tidy() && Trio(old(Vals()), node, right, p, mid)
      ensures var v, w, u := old(Vals())[node], old(Vals())[right], old(Vals())[p];
        |w.items| > 0 &&
        Vals() == Change(old(Vals()), node, Val(v.items + [u.items[mid]], v.kids + [w.kids[0]], v.parent),
          right, Val(w.items[1..], w.kids[1..], w.parent),
          p, u.(items := u.items[mid := w.items[0]]), [w.kids[0]], Some(node))
    {
      hide Vals, Adopt, Tidy;
      InMem(right);
      InMem(node);
      InMem(p);
      ghost var V := Vals();
      var k, d := ReadItem(right, 0);
      var kid := ReadKid(right, 0);
      var pk, pd := ReadItem(p, mid);
      PushBack(node, pk, pd, kid);
      SetItem(p, mid, k, d);
      PopFront(right);
      AllAt();
      ReposIn();
      AdoptOne(kid, node);
      ghost var v, w, u := V[node], V[right], V[p];
      ThreeOrders(V, node, Val(v.items + [u.items[mid]], v.kids + [w.kids[0]], v.parent),
        p, u.(items := u.items[mid := w.items[0]]), right, Val(w.items[1..], w.kids[1..], w.parent));
    }

    lemma TrioLinked(u: Ctx<BNode>, p: BNode, items: seq<Data>,
        l: seq<Tree<BNode>>, t: Tree<BNode>, w: Tree<BNode>, r: seq<Tree<BNode>>)
      requires Tidy() && Linked(Vals(), Opt(root), u, Node(p, items, l + [t, w] + r)) && Neighbours(items, l, t, w, r)
      ensures Trio(Vals(), t.n, w.n, p, |l|)
    {
      NeighbourVals(Vals(), Opt(root), u, p, items, l, t, w, r);
    }

    /** _btree_merge, the nodes as trees. */
    method MergeNodes(left: BNode, right: BNode, p: BNode, ghost u: Ctx<BNode>, ghost items: seq<Data>,
        ghost l: seq<Tree<BNode>>, ghost t: Tree<BNode>, ghost w: Tree<BNode>, ghost r: seq<Tree<BNode>>, mid: nat)
      requires Tidy() && this !in Mem && mid == |l| && Root(t) == Some(left) && Root(w) == Some(right)
      requires Linked(Vals(), Opt(root), u, Node(p, items, l + [t, w] + r)) && Neighbours(items, l, t, w, r)
      requires |t.items| + |w.items| < m
      modifies Mem
      ensures Tidy() && Linked(Vals(), Opt(root), u, MergeUp(p, items, l, t, w, r))
    {
      hide Vals, Tidy, Linked, Adopt;
      ghost var V := Vals();
      NeighbourVals(V, Opt(root), u, p, items, l, t, w, r);
      TrioLinked(u, p, items, l, t, w, r);
      MergeFields(left, right, p, mid);
      RootsJoin(t.kids, w.kids);
      RootsDel(l, t, w, r, Merged(t, items[|l|], w));
      MergeLinked(V, Opt(root), u, p, items, Del(items, |l|), l, t, w, r, t.items + [items[|l|]] + w.items);
    }

    method BorrowLeftNodes(left: BNode, node: BNode, p: BNode, ghost u: Ctx<BNode>, ghost items: seq<Data>,
        ghost l: seq<Tree<BNode>>, ghost t: Tree<BNode>, ghost w: Tree<BNode>, ghost r: seq<Tree<BNode>>, mid: nat)
      requires Tidy() && this !in Mem && mid == |l| && Root(t) == Some(left) && Root(w) == Some(node)
      requires Linked(Vals(), Opt(root), u, Node(p, items, l + [t, w] + r)) && Neighbours(items, l, t, w, r)
      requires |w.items| < m && 0 < |t.items|
      modifies Mem
      ensures Tidy() && Linked(Vals(), Opt(root), u, RightUp(p, items, l, t, w, r))
    {
      hide Vals, Tidy, Linked, Adopt;
      ghost var V := Vals();
      NeighbourVals(V, Opt(root), u, p, items, l, t, w, r);
      TrioLinked(u, p, items, l, t, w, r);
      BorrowLeftFields(left, node, p, mid);
      ghost var k := |t.items| - 1;
      ghost var x, z := t.kids[..k + 1], t.kids[k + 1];
      assert t.kids == x + [z];
      RootsSlice(t.kids, k + 1);
      RootsJoin([z], w.kids);
      assert Roots([z]) == [Root(z)];
      RootsTwo(l, t, w, r, Node(t.n, t.items[..k], x), Node(w.n, [items[mid]] + w.items, [z] + w.kids));
      BorrowLinked(V, Opt(root), u, p, items, items[mid := t.items[k]], l, t, w, r,
        t.items[..k], [items[mid]] + w.items, x, z, w.kids, true);
    }

    method BorrowRightNodes(node: BNode, right: BNode, p: BNode, ghost u: Ctx<BNode>, ghost items: seq<Data>,
        ghost l: seq<Tree<BNode>>, ghost t: Tree<BNode>, ghost w: Tree<BNode>, ghost r: seq<Tree<BNode>>, mid: nat)
      requires Tidy() && this !in Mem && mid == |l| && Root(t) == Some(node) && Root(w) == Some(right)
      requires Linked(Vals(), Opt(root), u, Node(p, items, l + [t, w] + r)) && Neighbours(items, l, t, w, r)
      requires |t.items| < m && 0 < |w.items| < m
      modifies Mem
      ensures Tidy() && Linked(Vals(), Opt(root), u, LeftUp(p, items, l, t, w, r))
    {
      hide Vals, Tidy, Linked, Adopt;
      ghost var V := Vals();
      NeighbourVals(V, Opt(root), u, p, items, l, t, w, r);
      TrioLinked(u, p, items, l, t, w, r);
      BorrowRightFields(node, right, p, mid);
      ghost var z, y := w.kids[0], w.kids[1..];
      assert w.kids == [z] + y;
      RootsSlice(w.kids, 1);
      RootsJoin(t.kids, [z]);
      assert Roots([z]) == [Root(z)];
      RootsTwo(l, t, w, r, Node(t.n, t.items + [items[mid]], t.kids + [z]), Node(w.n, w.items[1..], y));
      BorrowLinked(V, Opt(root), u, p, items, items[mid := w.items[0]], l, t, w, r,
        t.items + [items[mid]], w.items[1..], t.kids, z, y, false);
    }

    /** The loop in btree_merge that looks for a node among its parent's children. */
    method KidIndex(parent: BNode, node: BNode, ghost at: nat) returns (idx: nat)
      requires Tidy() && parent in Vals() && at < |Vals()[parent].kids| && Vals()[parent].kids[at] == Some(node)
      requires forall i :: 0 <= i < at ==> Vals()[parent].kids[i] != Some(node)
      ensures idx == at
    {
      hide Vals, Tidy;
      idx := 0;
      var kid := ReadKid(parent, 0);
      while kid != node
        invariant idx <= at && Opt(kid) == Vals()[parent].kids[idx]
        decreases at - idx
      {
        idx := idx + 1;
        kid := ReadKid(parent, idx);
      }
    }

    ghost predicate Climbing(node: BNode, c: Ctx<BNode>, t: Tree<BNode>, h: nat, lo: nat)
      reads this, Mem
    {
      && m >= 3 && max == Max(m) && min == Min(m) && sepIdx == Sep(m) && Tidy() && this !in Mem
      && Linked(Vals(), Opt(root), c, t) && Root(t) == Some(node)
      && h > 0 && CGood(c, h, m) && Near(t, h, lo, Max(m), m)
    }

    /** btree_merge for the root: without items it gives way to its child, if there is one. */
    method MergeRoot(node: BNode, ghost t: Tree<BNode>, ghost h: nat)
      requires Climbing(node, Top, t, h, 0)
      modifies this`root, this`Shape, this`High, Mem
      ensures Valid() && InOrder(Shape) == InOrder(t)
    {
      hide Vals, Tidy, Linked, CRep, InOrder;
      Focus(Top, t);
      if node.num == 0 {
        ghost var k := t.kids[0];
        assert t.kids == [k] && t.items == [];
        WeaveSingle(k);
        OnlyKid(t);
        RootShrunk(Vals(), Opt(root), t, k);
        assert Good(k, h - 1, m);
        GoodNil(k, h - 1, m);
        var kid := Child(node, 0, Top, t);
        assert kid != null ==> k.Node? && k.n == kid;
        root := kid;
        if kid != null {
          AllAt();
          InMem(kid);
          SetParent(kid, null);
        }
        GoodShaped(k, h - 1, m);
        Finish(Top, k, h - 1);
      } else {
        Finish(Top, t, h);
      }
    }

    lemma OnlyKid(t: Tree<BNode>)
      requires t.Node? && t.items == [] && |t.kids| == 1
      ensures InOrder(t) == InOrder(t.kids[0])
    {
    }

    /** btree_merge: a node with too few items becomes one with a neighbour, or borrows from it. */
    method Merge(node: BNode, ghost c: Ctx<BNode>, ghost t: Tree<BNode>, ghost h: nat)
      requires m >= 3 && Climbing(node, c, t, h, if c.Top? then 0 else Min(m) - 1) && |t.items| < Min(m)
      modifies this`root, this`Shape, this`High, Mem
      ensures Valid() && InOrder(Shape) == InOrder(Plug(c, t))
      decreases Depth(c), 1
    {
      hide Vals, Tidy, Linked, CRep, InOrder;
      Focus(c, t);
      var parent := node.parent;
      if parent == null {
        MergeRoot(node, t, h);
        return;
      }
      HoleOnce(Vals(), Opt(root), c, t);
      assert forall i :: 0 <= i < |c.left| ==> Vals()[parent].kids[i] == Roots(c.left)[i];
      var idx := KidIndex(parent, node, |c.left|);
      var num := ReadNum(parent);
      if idx == num {
        MergeLeft(node, parent, idx - 1, c, t, h);
      } else {
        MergeRight(node, parent, idx, c, t, h);
      }
    }

    /** The check at the end of _btree_merge: the parent has one item less. */
    method MergeParent(parent: BNode, ghost u: Ctx<BNode>, ghost t: Tree<BNode>, ghost h: nat)
      requires m >= 3 && Climbing(parent, u, t, h, if u.Top? then 0 else Min(m) - 1)
      modifies this`root, this`Shape, this`High, Mem
      ensures Valid() && InOrder(Shape) == InOrder(Plug(u, t))
      decreases Depth(u), 2
    {
      hide Vals, Tidy, Linked, CRep, InOrder, CGood;
      Focus(u, t);
      if parent.num < min {
        Merge(parent, u, t, h);
      } else {
        Finish(u, t, h);
      }
    }

    /** Nothing is left to do after an item was borrowed. */
    ghost method Borrowed(p: BNode, u: Ctx<BNode>, t: Tree<BNode>, h: nat)
      requires m >= 3 && Climbing(p, u, t, h, if u.Top? then 1 else Min(m))
      modifies this`Shape, this`High
      ensures Valid() && Shape == Plug(u, t)
    {
      hide Vals, Tidy, Linked, CRep, CGood;
      Finish(u, t, h);
    }

    /** What is known of the parent when a node has too few items. */
    lemma Family(node: BNode, c: Ctx<BNode>, t: Tree<BNode>, h: nat, l: seq<Tree<BNode>>, x: Tree<BNode>,
        y: Tree<BNode>, r: seq<Tree<BNode>>)
      requires m >= 3 && Climbing(node, c, t, h, Min(m) - 1) && c.In? && c.left + [t] + c.right == l + [x, y] + r
      ensures Linked(Vals(), Opt(root), c.up, Node(c.n, c.items, l + [x, y] + r))
      ensures InOrder(Plug(c, t)) == InOrder(Plug(c.up, Node(c.n, c.items, l + [x, y] + r)))
      ensures |c.items| <= Max(m) && |l| + 1 + |r| == |c.items| && (if c.up.Top? then 1 else Min(m)) <= |c.items|
      ensures CGood(c.up, h + 1, m) && Matched(c.up)
    {
      hide Vals, Tidy, Linked, CRep, InOrder;
      JoinSplit(Vals(), Opt(root), c, t);
      CGoodMatched(c, h, m);
      assert |c.left + [t] + c.right| == |l + [x, y] + r|;
    }

    /** The part of btree_merge for a node that is the last child: the neighbour is on the left. */
    method MergeLeft(node: BNode, parent: BNode, mid: nat, ghost c: Ctx<BNode>, ghost t: Tree<BNode>, ghost h: nat)
      requires m >= 3 && Climbing(node, c, t, h, Min(m) - 1) && |t.items| < Min(m)
      requires c.In? && c.n == parent && mid + 1 == |c.left| && c.right == []
      modifies this`root, this`Shape, this`High, Mem
      ensures Valid() && InOrder(Shape) == InOrder(Plug(c, t))
      decreases Depth(c), 0
    {
      hide Vals, Tidy, Linked, CRep, InOrder, CGood, Good, Plug;
      ghost var u, p, items, l, w := c.up, c.n, c.items, c.left[..mid], c.left[mid];
      LeftFamily(c, t, h, mid);
      Family(node, c, t, h, l, w, t, []);
      NeighbourVals(Vals(), Opt(root), u, p, items, l, w, t, []);
      assert Roots(l + [w, t] + [])[mid] == Root(w);
      var left := ReadKid(parent, mid);
      var a := ReadNum(node);
      var b := ReadNum(left);
      if a + b + 1 <= max {
        MergeNodes(left, node, parent, u, items, l, w, t, [], mid);
        MergeInOrder(p, items, l, w, t, []);
        SameWhole(u, MergeUp(p, items, l, w, t, []), Node(p, items, l + [w, t] + []));
        MergeNear(p, items, l, w, t, [], h, m);
        MergeParent(parent, u, MergeUp(p, items, l, w, t, []), h + 1);
      } else {
        EnoughToLend(m, a, b);
        BorrowLeftNodes(left, node, parent, u, items, l, w, t, [], mid);
        RightInOrder(p, items, l, w, t, []);
        SameWhole(u, RightUp(p, items, l, w, t, []), Node(p, items, l + [w, t] + []));
        RightNear(p, items, l, w, t, [], h, m);
        Borrowed(parent, u, RightUp(p, items, l, w, t, []), h + 1);
      }
    }

    lemma LeftFamily(c: Ctx<BNode>, t: Tree<BNode>, h: nat, mid: nat)
      requires m >= 3 && h > 0 && CGood(c, h, m) && c.In? && mid + 1 == |c.left| && c.right == []
      ensures c.left + [t] + c.right == c.left[..mid] + [c.left[mid], t] + []
      ensures Near(c.left[mid], h, Min(m), Max(m), m)
      ensures forall i :: 0 <= i < mid ==> Good(c.left[..mid][i], h, m)
    {
    }

    lemma RightFamily(c: Ctx<BNode>, t: Tree<BNode>, h: nat)
      requires m >= 3 && h > 0 && CGood(c, h, m) && c.In? && c.right != []
      ensures c.left + [t] + c.right == c.left + [t, c.right[0]] + c.right[1..]
      ensures Near(c.right[0], h, Min(m), Max(m), m)
      ensures forall i :: 0 <= i < |c.left| ==> Good(c.left[i], h, m)
      ensures forall i :: 0 <= i < |c.right[1..]| ==> Good(c.right[1..][i], h, m)
    {
    }

    /** The part of btree_merge for a node that has a neighbour on the right. */
    method MergeRight(node: BNode, parent: BNode, mid: nat, ghost c: Ctx<BNode>, ghost t: Tree<BNode>, ghost h: nat)
      requires m >= 3 && Climbing(node, c, t, h, Min(m) - 1) && |t.items| < Min(m)
      requires c.In? && c.n == parent && mid == |c.left| && c.right != []
      modifies this`root, this`Shape, this`High, Mem
      ensures Valid() && InOrder(Shape) == InOrder(Plug(c, t))
      decreases Depth(c), 0
    {
      hide Vals, Tidy, Linked, CRep, InOrder, CGood, Good, Plug;
      ghost var u, p, items, l, w, r := c.up, c.n, c.items, c.left, c.right[0], c.right[1..];
      RightFamily(c, t, h);
      Family(node, c, t, h, l, t, w, r);
      NeighbourVals(Vals(), Opt(root), u, p, items, l, t, w, r);
      assert Roots(l + [t, w] + r)[mid + 1] == Root(w);
      var right := ReadKid(parent, mid + 1);
      var a := ReadNum(node);
      var b := ReadNum(right);
      if a + b + 1 <= max {
        MergeNodes(node, right, parent, u, items, l, t, w, r, mid);
        MergeInOrder(p, items, l, t, w, r);
        SameWhole(u, MergeUp(p, items, l, t, w, r), Node(p, items, l + [t, w] + r));
        MergeNear(p, items, l, t, w, r, h, m);
        MergeParent(parent, u, MergeUp(p, items, l, t, w, r), h + 1);
      } else {
        EnoughToLend(m, a, b);
        BorrowRightNodes(node, right, parent, u, items, l, t, w, r, mid);
        LeftInOrder(p, items, l, t, w, r);
        SameWhole(u, LeftUp(p, items, l, t, w, r), Node(p, items, l + [t, w] + r));
        LeftNear(p, items, l, t, w, r, h, m);
        Borrowed(parent, u, LeftUp(p, items, l, t, w, r), h + 1);
      }
    }

    /** The end of _btree_remove: a leaf has lost an item. */
    method LeafDone(node: BNode, ghost c: Ctx<BNode>, ghost t: Tree<BNode>)
      requires m >= 3 && Climbing(node, c, t, 1, if c.Top? then 0 else Min(m) - 1)
      modifies this`root, this`Shape, this`High, Mem
      ensures Valid() && InOrder(Shape) == InOrder(Plug(c, t))
    {
      hide Vals, Tidy, Linked, CRep, InOrder, CGood;
      MergeParent(node, c, t, 1);
    }

    /** _btree_remove for a key in a leaf: the last item moves into the hole. */
    method RemoveFromLeaf(node: BNode, idx: nat, ghost c: Ctx<BNode>, ghost t: Tree<BNode>)
      returns (ghost a: seq<Data>, ghost b: seq<Data>)
      requires Here(node, c, t, 1) && t.Node? && idx < |t.items|
      modifies this`root, this`Shape, this`High, Mem
      ensures Valid() && Without(old(InOrder(Shape)), InOrder(Shape), a, t.items[idx], b)
      ensures |t.items| <= idx + 2 ==> InOrder(Shape) == a + b
      ensures idx + 2 < |t.items| && old(Ordered()) ==> !Ordered()
    {
      hide Vals, Tidy, Linked, CRep, InOrder, CGood, Without, LeafFill;
      HereNear(node, c, t, 1);
      a, b := LeafRemoved(c, t, idx, m, if c.Top? then 1 else Min(m));
      Focus(c, t);
      LeafWithoutLinked(Vals(), Opt(root), c, t, idx);
      InMem(node);
      var n := ReadNum(node);
      var k, d := ReadItem(node, n - 1);
      SetItem(node, idx, k, d);
      PopBack(node);
      LeafDone(node, c, LeafWithout(t, idx));
    }

    lemma LeafWithoutLinked(V: map<BNode, Val<BNode>>, r0: Option<BNode>, c: Ctx<BNode>, t: Tree<BNode>, i: nat)
      requires Linked(V, r0, c, t) && t.Node? && i < |t.items| && |t.kids| == |t.items| + 1
      ensures var n := |t.items| - 1;
        var v := Val(t.items[i := t.items[n]], Roots(t.kids), Up(c));
        Linked(V[t.n := v][t.n := Val(v.items[..n], v.kids[..n + 1], v.parent)], r0, c, LeafWithout(t, i))
    {
      var n := |t.items| - 1;
      CutLinked(V, r0, c, t, LeafFill(t.items, i), n + 1);
      RootsSlice(t.kids, n + 1);
      Overwrite(V, t.n, Val(t.items[i := t.items[n]], Roots(t.kids), Up(c)),
        Val(LeafFill(t.items, i), Roots(t.kids[..n + 1]), Up(c)));
    }

    lemma FocusVal(V: map<BNode, Val<BNode>>, r0: Option<BNode>, c: Ctx<BNode>, t: Tree<BNode>)
      requires Linked(V, r0, c, t) && t.Node?
      ensures t.n in V && V[t.n] == Val(t.items, Roots(t.kids), Up(c)) && KRep(V, t.kids, Some(t.n))
    {
    }

    lemma Overwrite(V: map<BNode, Val<BNode>>, n: BNode, v: Val<BNode>, w: Val<BNode>)
      ensures V[n := v][n := w] == V[n := w]
    {
    }

    /** A node keeps its first children and gets other items. */
    lemma CutLinked(V: map<BNode, Val<BNode>>, r0: Option<BNode>, c: Ctx<BNode>, t: Tree<BNode>, items: seq<Data>,
        j: nat)
      requires Linked(V, r0, c, t) && t.Node? && j <= |t.kids|
      ensures Linked(V[t.n := Val(items, Roots(t.kids[..j]), Up(c))], r0, c, Node(t.n, items, t.kids[..j]))
    {
      hide KNodes, CRep, Roots;
      KidsCut(V, t.kids, j, Some(t.n));
      SetNode(V, r0, c, t, items, t.kids[..j]);
    }

    lemma KidsCut(V: map<BNode, Val<BNode>>, kids: seq<Tree<BNode>>, j: nat, p: Option<BNode>)
      requires KRep(V, kids, p) && j <= |kids|
      ensures KRep(V, kids[..j], p) && KNodes(kids[..j]) <= KNodes(kids)
    {
      hide KNodes, KRep;
      assert kids[..j] + kids[j..] == kids;
      KNodesJoin(kids[..j], kids[j..]);
      KRepJoin(V, kids[..j], kids[j..], p);
    }

    /** The loop of _btree_remove: along the last children down to a leaf. */
    method LastLeaf(kid: BNode, ghost outer: Ctx<BNode>, ghost k: Tree<BNode>, ghost h: nat)
      returns (leaf: BNode, ghost inner: Ctx<BNode>, ghost s: Tree<BNode>)
      requires Here(kid, outer, k, h) && outer.In?
      ensures Root(s) == Some(leaf) && Linked(Vals(), Opt(root), Append(inner, outer), s)
      ensures Plug(inner, s) == k && Rightmost(inner) && Matched(inner) && Depth(inner) + 1 == h && Good(s, 1, m)
    {
      hide Vals, Tidy, Linked, CRep, CGood;
      HereNear(kid, outer, k, h);
      leaf := kid;
      inner, s := Top, k;
      ghost var g := h;
      while true
        invariant Root(s) == Some(leaf) && Linked(Vals(), Opt(root), Append(inner, outer), s)
        invariant Plug(inner, s) == k && Rightmost(inner) && Matched(inner) && Depth(inner) + g == h
        invariant g > 0 && Good(s, g, m)
        decreases g
      {
        Focus(Append(inner, outer), s);
        ghost var n := |s.items|;
        GoodNil(s.kids[n], g - 1, m);
        var next := Child(leaf, leaf.num, Append(inner, outer), s);
        if next == null {
          return;
        }
        PlugLast(inner, s);
        leaf := next;
        inner, s, g := Into(inner, s, n), s.kids[n], g - 1;
      }
    }

    /** The leaf's last item takes the place of item idx and leaves the leaf: the fields. */
    method MoveLast(node: BNode, idx: nat, leaf: BNode)
      requires Tidy() && node in Vals() && leaf in Vals()
      requires idx < |Vals()[node].items| && |Vals()[leaf].items| > 0
      modifies Mem
      ensures Tidy() && node in old(Vals()) && leaf in old(Vals()) && var v, w := old(Vals())[node], old(Vals())[leaf];
        && idx < |v.items| && |w.items| > 0
        && var V1 := old(Vals())[node := v.(items := v.items[idx := w.items[|w.items| - 1]])];
        && |V1[leaf].kids| == |V1[leaf].items| + 1 == |w.items| + 1
        && Vals() == V1[leaf := Val(V1[leaf].items[..|w.items| - 1], V1[leaf].kids[..|w.items|], V1[leaf].parent)]
    {
      hide Vals, Tidy;
      InMem(node);
      InMem(leaf);
      var n := ReadNum(leaf);
      var k, d := ReadItem(leaf, n - 1);
      SetItem(node, idx, k, d);
      PopBack(leaf);
    }

    /** The same, as trees. */
    method TakePredecessor(node: BNode, idx: nat, leaf: BNode, ghost c: Ctx<BNode>, ghost t: Tree<BNode>, ghost h: nat,
        ghost inner: Ctx<BNode>, ghost s: Tree<BNode>) returns (ghost c2: Ctx<BNode>)
      requires Here(node, c, t, h) && t.Node? && idx < |t.items| && |t.kids| == |t.items| + 1
      requires Root(s) == Some(leaf) && Linked(Vals(), Opt(root), Append(inner, Into(c, t, idx)), s)
      requires Plug(inner, s) == t.kids[idx] && Depth(inner) + 2 == h && Good(s, 1, m)
      modifies Mem
      ensures m >= 3 && |s.items| > 0 && |s.kids| == |s.items| + 1
      ensures c2 == Append(inner, Into(c, Node(t.n, t.items[idx := s.items[|s.items| - 1]], t.kids), idx))
      ensures Climbing(leaf, c2, LeafCut(s), 1, Min(m) - 1) && c2.In?
    {
      hide Vals, Tidy, Linked, CRep, CGood, Good, Near, InOrder, Plug, Append, LeafCut, Into;
      HereNear(node, c, t, h);
      SmallLeaf(s);
      NilKids(s);
      Focus(c, t);
      ghost var V, r0, x := Vals(), Opt(root), s.items[|s.items| - 1];
      c2 := InnerLinked(V, r0, c, t, idx, h, inner, s, x);
      ghost var V1 := V[t.n := V[t.n].(items := t.items[idx := x])];
      LeafCutLinked(V1, r0, c2, s);
      Focus(Append(inner, Into(c, t, idx)), s);
      MoveLast(node, idx, leaf);
    }

    /** _btree_remove for a key in an inner node: the predecessor takes its place and leaves its leaf. */
    method RemoveFromInner(node: BNode, idx: nat, kid: BNode, ghost c: Ctx<BNode>, ghost t: Tree<BNode>, ghost h: nat)
      returns (ghost a: seq<Data>, ghost b: seq<Data>)
      requires Here(node, c, t, h) && t.Node? && idx < |t.items| && |t.kids| == |t.items| + 1
      requires h > 0 && Here(kid, Into(c, t, idx), t.kids[idx], h - 1)
      modifies this`root, this`Shape, this`High, Mem
      ensures Valid() && old(InOrder(Shape)) == a + [t.items[idx]] + b && InOrder(Shape) == a + b
    {
      hide Vals, Tidy, Linked, CRep, CGood, Good, InOrder, Plug, Append;
      HereNear(node, c, t, h);
      ghost var inner, s;
      var leaf: BNode;
      leaf, inner, s := LastLeaf(kid, Into(c, t, idx), t.kids[idx], h - 1);
      SmallLeaf(s);
      a, b := InnerRemoved(c, t, idx, inner, s, LeafCut(s), s.items[|s.items| - 1]);
      ghost var c2 := TakePredecessor(node, idx, leaf, c, t, h, inner, s);
      LeafDone(leaf, c2, LeafCut(s));
    }

    lemma NilKids(s: Tree<BNode>)
      requires m >= 3 && Near(s, 1, Min(m), Max(m), m)
      ensures forall i :: 0 <= i < |s.kids| ==> s.kids[i].Nil?
    {
    }

    lemma SmallLeaf(s: Tree<BNode>)
      requires m >= 3 && Good(s, 1, m)
      ensures s.Node? && |s.items| > 0 && |s.kids| == |s.items| + 1 && Near(s, 1, Min(m), Max(m), m)
      ensures Near(LeafCut(s), 1, |s.items| - 1, |s.items| - 1, m) && Root(LeafCut(s)) == Root(s)
      ensures Near(LeafCut(s), 1, Min(m) - 1, Max(m), m)
      ensures InOrder(s) == InOrder(LeafCut(s)) + [s.items[|s.items| - 1]]
    {
      LeafCutItems(s, m, Min(m));
    }

    /** The leaf's surroundings after item i of t has become x, and the cut of the leaf. */
    lemma InnerLinked(V: map<BNode, Val<BNode>>, r0: Option<BNode>, c: Ctx<BNode>, t: Tree<BNode>, i: nat, h: nat,
        inner: Ctx<BNode>, s: Tree<BNode>, x: Data) returns (c2: Ctx<BNode>)
      requires m >= 3 && h > 0 && Linked(V, r0, c, t) && CGood(c, h, m)
      requires Near(t, h, if c.Top? then 1 else Min(m), Max(m), m) && i < |t.items|
      requires t.kids[i] == Plug(inner, s) && Depth(inner) + 2 == h && Near(s, 1, Min(m), Max(m), m)
      ensures c2 == Append(inner, Into(c, Node(t.n, t.items[i := x], t.kids), i)) && c2.In? && CGood(c2, 1, m)
      ensures t.n in V && Linked(V[t.n := V[t.n].(items := t.items[i := x])], r0, c2, s)
    {
      hide Linked, CGood, Good, Plug;
      var t2 := Node(t.n, t.items[i := x], t.kids);
      var d := Into(c, t2, i);
      c2 := Append(inner, d);
      FocusVal(V, r0, c, t);
      SetNode(V, r0, c, t, t2.items, t.kids);
      var V1 := V[t.n := V[t.n].(items := t.items[i := x])];
      LinkedInto(V1, r0, c, t2, i);
      LinkedAppend(V1, r0, inner, d, s);
      FocusVal(V1, r0, c2, s);
      IntoGood(c, t2, i, h, m);
      CGoodAppend(inner, d, s, 1, m);
    }

    lemma LeafCutLinked(V: map<BNode, Val<BNode>>, r0: Option<BNode>, c: Ctx<BNode>, s: Tree<BNode>)
      requires Linked(V, r0, c, s) && s.Node? && 0 < |s.items| && |s.kids| == |s.items| + 1
      requires forall i :: 0 <= i < |s.kids| ==> s.kids[i].Nil?
      ensures s.n in V && V[s.n] == Val(s.items, Roots(s.kids), Up(c))
      ensures var v := Val(s.items[..|s.items| - 1], Roots(s.kids)[..|s.items|], Up(c));
        Linked(V[s.n := v], r0, c, LeafCut(s))
    {
      hide Linked;
      FocusVal(V, r0, c, s);
      RootsSlice(s.kids, |s.items|);
      CutLinked(V, r0, c, s, s.items[..|s.items| - 1], |s.items|);
    }

    /** btree_remove.  The tree keeps its shape in any case, and loses exactly the item that was found.
        A tree in order stays in order exactly if the key is not in a leaf with two or more keys behind
        it: a leaf's last key moves into the hole, and the keys between are not moved. */
    method Remove(key: int) returns (data: Option<int>)
      requires Valid()
      modifies this`root, this`Shape, this`High, Mem
      ensures Valid()
      ensures data.None? ==> Shape == old(Shape) && (Ordered() ==> !B.HasKey(Contents(), key))
      ensures data.Some? ==> var d := B.Data(key, data.value);
        d in old(InOrder(Shape)) && multiset(InOrder(Shape)) == multiset(old(InOrder(Shape))) - multiset{d}
      ensures old(Ordered()) && data.Some? ==> Contents() == old(Contents()) - {B.Data(key, data.value)}
      ensures old(Ordered()) ==> (Ordered() <==> !old(Gap(Shape, key)))
    {
      hide Here, Valid, Around, InOrder, Plug, Linked, Tidy, Gap, Without;
      var node := root;
      ghost var c, t, h := Top, Shape, High;
      AtRoot();
      AroundTop(key);
      while node != null
        invariant Here(node, c, t, h) && unchanged(this) && unchanged(Mem)
        invariant Ordered() ==> Around(c, key) && Gap(Shape, key) == Gap(t, key)
        decreases h
      {
        var found, idx, kid := Down(node, key, c, t, h);
        if found {
          data := Some(node.data[idx].addr);
          if Ordered() { GapFound(node, c, t, h, idx); }
          RemoveFound(node, key, idx, c, t, h);
          return;
        }
        if Ordered() { GapOn(node, c, t, h, idx, key); }
        node := kid;
        c, t, h := Into(c, t, idx), t.kids[idx], h - 1;
      }
      if Ordered() {
        HereMissing(c, t, h, key);
        NilGap(t, key);
      }
      return None;
    }

    lemma NilGap(t: Tree<BNode>, key: int)
      ensures t.Nil? ==> !Gap(t, key)
    {
    }

    lemma GapFound(node: BNode, c: Ctx<BNode>, t: Tree<BNode>, h: nat, idx: nat)
      requires Here(node, c, t, h) && Ordered() && t.Node? && |t.kids| == |t.items| + 1 && idx < |t.items|
      ensures Gap(t, t.items[idx].key) <==> t.kids[idx].Nil? && idx + 2 < |t.items|
    {
      HereNear(node, c, t, h);
      FocusSorted(c, t);
      GapHere(t, idx);
    }

    lemma GapOn(node: BNode, c: Ctx<BNode>, t: Tree<BNode>, h: nat, idx: nat, key: int)
      requires Here(node, c, t, h) && Ordered() && t.Node? && |t.kids| == |t.items| + 1 && Between(t.items, idx, key)
      ensures Gap(t, key) == Gap(t.kids[idx], key)
    {
      HereNear(node, c, t, h);
      FocusSorted(c, t);
      GapDown(t, idx, key);
    }

    /** _btree_remove */
    method RemoveFound(node: BNode, key: int, idx: nat, ghost c: Ctx<BNode>, ghost t: Tree<BNode>, ghost h: nat)
      requires Here(node, c, t, h) && t.Node? && |t.kids| == |t.items| + 1 && idx < |t.items|
      modifies this`root, this`Shape, this`High, Mem
      ensures Valid()
      ensures t.items[idx] in old(InOrder(Shape))
      ensures multiset(InOrder(Shape)) == multiset(old(InOrder(Shape))) - multiset{t.items[idx]}
      ensures old(Ordered()) ==> Contents() == old(Contents()) - {t.items[idx]}
      ensures old(Ordered()) ==> (Ordered() <==> !(t.kids[idx].Nil? && idx + 2 < |t.items|))
    {
      hide Here, Valid, InOrder, Plug, Linked, Tidy;
      ghost var a, b;
      var kid := HereKid(node, idx, c, t, h);
      if kid == null {
        a, b := RemoveFromLeaf(node, idx, c, t);
      } else {
        a, b := RemoveFromInner(node, idx, kid, c, t, h);
      }
      WithoutItems(old(InOrder(Shape)), InOrder(Shape), a, t.items[idx], b);
    }

    /** node->child[idx] for a node on the walk down. */
    method HereKid(node: BNode, idx: nat, ghost c: Ctx<BNode>, ghost t: Tree<BNode>, ghost h: nat) returns (kid: BNode?)
      requires Here(node, c, t, h) && t.Node? && |t.kids| == |t.items| + 1 && idx < |t.items|
      ensures h > 0 && Here(kid, Into(c, t, idx), t.kids[idx], h - 1)
      ensures kid == null <==> t.kids[idx].Nil?
      ensures kid == null ==> h == 1
    {
      hide Vals, Tidy, Linked, CRep, InOrder, CGood, Pre, Post;
      HereNear(node, c, t, h);
      IntoGood(c, t, idx, h, m);
      JoinInto(c, t, idx);
      kid := Child(node, idx, c, t);
    }

    /** Order 3 is safe: nodes have two keys at most. */
    lemma OrderThree(key: int)
      requires Valid() && m == 3
      ensures !Gap(Shape, key)
    {
      NoGap(Shape, High, key);
    }
  }

  /** A tree of order 4 that is one leaf at most. */
  ghost predicate SmallFour(t: BTree, items: set<Data>)
    reads t, t.Mem
  {
    t.Valid() && t.m == 4 && t.max == 3 && t.Ordered() && t.Contents() == items && t.High <= 1
  }

  method InsertSmall(t: BTree, key: int, data: Ptr, ghost items: set<Data>)
    requires SmallFour(t, items) && |items| < 3 && !B.HasKey(items, key)
    modifies t, t.Mem
    ensures SmallFour(t, items + {B.Data(key, data.addr)}) && t.High == 1 && fresh(t.Mem - old(t.Mem))
  {
    hide BTree.Valid, InOrder;
    B.SortedSize(InOrder(t.Shape));
    t.Insert(key, data);
  }

  /** Order 4 is not: the leaf 1, 2, 3 without its first key is out of order. */
  method OrderFourLosesOrder(a: Ptr, b: Ptr, c: Ptr) returns (t: BTree, data: Option<int>)
    ensures t.Valid() && t.m == 4 && !t.Ordered()
    ensures data == Some(a.addr) && t.Contents() == {B.Data(2, b.addr), B.Data(3, c.addr)}
  {
    hide BTree.Valid, InOrder, Gap;
    var x, y, z := B.Data(1, a.addr), B.Data(2, b.addr), B.Data(3, c.addr);
    t := new BTree(4);
    EmptyFour(t);
    InsertSmall(t, 1, a, {});
    InsertSmall(t, 2, b, {} + {x});
    InsertSmall(t, 3, c, {} + {x} + {y});
    GapAtFirst(t, x, y, z);
    data := t.Remove(1);
    RestOf(t, data, x, y, z);
  }

  lemma EmptyFour(t: BTree)
    requires t.Valid() && t.m == 4 && t.Shape == Nil
    ensures SmallFour(t, {})
  {
    GoodNil(t.Shape, t.High, 4);
  }

  lemma GapAtFirst(t: BTree, x: Data, y: Data, z: Data)
    requires SmallFour(t, {} + {x} + {y} + {z}) && t.High == 1 && x.key < y.key < z.key
    ensures Gap(t.Shape, x.key)
  {
    hide InOrder, Gap;
    var s := InOrder(t.Shape);
    assert x in B.Items(s) && y in B.Items(s) && z in B.Items(s);
    var i :| 0 <= i < |s| && s[i] == x;
    var j :| 0 <= j < |s| && s[j] == y;
    var k :| 0 <= k < |s| && s[k] == z;
    assert i < j < k;
    LeafGap(t.Shape, 4, i);
  }

  lemma RestOf(t: BTree, data: Option<int>, x: Data, y: Data, z: Data)
    requires x.key == 1 && y.key == 2 && z.key == 3
    requires data.Some? && t.Contents() == {} + {x} + {y} + {z} - {B.Data(1, data.value)}
    requires B.Data(1, data.value) in {} + {x} + {y} + {z}
    ensures t.Contents() == {y, z} && data.value == x.addr
  {
  }
}
