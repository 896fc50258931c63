/** B-trees of order m as values (btree.c): the shape, the items in order, and the way heap nodes
    realise a tree.  A `Ctx` is the part of a tree around one subtree. */
module BtShape {
  import opened Options
  import B = KeyedItems

  type Data = B.Data

  datatype Tree<N> = Nil | Node(n: N, items: seq<Data>, kids: seq<Tree<N>>)

  /** The hole is the child with index |left| of node `n`. */
  datatype Ctx<N> = Top | In(n: N, items: seq<Data>, left: seq<Tree<N>>, right: seq<Tree<N>>, up: Ctx<N>)

  ghost function Plug<N>(c: Ctx<N>, t: Tree<N>): Tree<N>
    decreases c
  {
    if c.Top? then t else Plug(c.up, Join(c, t))
  }

  /** One step up: the subtree at the parent of the hole. */
  ghost function Join<N>(c: Ctx<N>, t: Tree<N>): (j: Tree<N>)
    requires c.In?
    ensures j.Node?
  {
    Node(c.n, c.items, c.left + [t] + c.right)
  }

  /** One step down, into child i. */
  ghost function Into<N>(c: Ctx<N>, t: Tree<N>, i: nat): (d: Ctx<N>)
    requires t.Node? && i < |t.kids|
    ensures d.In?
  {
    In(t.n, t.items, t.kids[..i], t.kids[i + 1..], c)
  }

  lemma JoinInto<N>(c: Ctx<N>, t: Tree<N>, i: nat)
    requires t.Node? && i < |t.kids|
    ensures Join(Into(c, t, i), t.kids[i]) == t
    ensures Plug(Into(c, t, i), t.kids[i]) == Plug(c, t)
  {
    assert t.kids[..i] + [t.kids[i]] + t.kids[i + 1..] == t.kids;
  }

  /** An entry put in at idx. */
  function Ins<T>(s: seq<T>, idx: nat, x: T): seq<T>
    requires idx <= |s|
  {
    s[..idx] + [x] + s[idx..]
  }

  /** The entry at idx taken out. */
  function Del<T>(s: seq<T>, idx: nat): seq<T>
    requires idx < |s|
  {
    s[..idx] + s[idx + 1..]
  }

  ghost function Depth<N>(c: Ctx<N>): nat {
    if c.Top? then 0 else 1 + Depth(c.up)
  }

  // ----- the items in order

  ghost function InOrder<N>(t: Tree<N>): seq<Data>
    decreases t
  {
    if t.Nil? then [] else Weave(t.items, t.kids)
  }

  /** First child, first item, second child, second item, and so on. */
  ghost function Weave<N>(items: seq<Data>, kids: seq<Tree<N>>): seq<Data>
    decreases kids
  {
    if kids == [] then []
    else if items == [] then InOrder(kids[0])
    else InOrder(kids[0]) + [items[0]] + Weave(items[1..], kids[1..])
  }

  /** What comes behind a child: its item, the next child, and so on. */
  ghost function Tail<N>(items: seq<Data>, kids: seq<Tree<N>>): seq<Data> {
    if items == [] then [] else [items[0]] + Weave(items[1..], kids)
  }

  ghost function Pre<N>(c: Ctx<N>): seq<Data> {
    if c.Top? then [] else Pre(c.up) + Weave(Firsts(c), c.left)
  }

  ghost function Post<N>(c: Ctx<N>): seq<Data> {
    if c.Top? then [] else Tail(Lasts(c), c.right) + Post(c.up)
  }

  /** The items before and behind the hole. */
  ghost function Firsts<N>(c: Ctx<N>): seq<Data>
    requires c.In?
  {
    if |c.left| <= |c.items| then c.items[..|c.left|] else c.items
  }

  ghost function Lasts<N>(c: Ctx<N>): seq<Data>
    requires c.In?
  {
    if |c.left| <= |c.items| then c.items[|c.left|..] else []
  }

  ghost predicate Matched<N>(c: Ctx<N>) {
    c.In? ==> |c.left| + |c.right| == |c.items| && Matched(c.up)
  }

  lemma {:induction false} WeaveJoin<N>(a: seq<Data>, x: seq<Tree<N>>, b: seq<Data>, y: seq<Tree<N>>)
    requires |a| == |x|
    ensures Weave(a + b, x + y) == Weave(a, x) + Weave(b, y)
  {
    if a == [] {
      assert a + b == b && x + y == y;
    } else {
      WeaveJoin(a[1..], x[1..], b, y);
      assert (a + b)[1..] == a[1..] + b && (x + y)[1..] == x[1..] + y;
    }
  }

  lemma {:induction false} WeaveSnoc<N>(a: seq<Data>, m: Data, x: seq<Tree<N>>)
    requires |x| == |a| + 1
    ensures Weave(a + [m], x) == Weave(a, x) + [m]
  {
    if a == [] {
      assert a + [m] == [m];
      assert Weave([m][1..], x[1..]) == [];
    } else {
      WeaveSnoc(a[1..], m, x[1..]);
      assert (a + [m])[1..] == a[1..] + [m];
    }
  }

  /** A node cut at an item. */
  lemma WeaveSplit<N>(a: seq<Data>, x: seq<Tree<N>>, m: Data, b: seq<Data>, y: seq<Tree<N>>)
    requires |x| == |a| + 1
    ensures Weave(a + [m] + b, x + y) == Weave(a, x) + [m] + Weave(b, y)
  {
    WeaveJoin(a + [m], x, b, y);
    WeaveSnoc(a, m, x);
  }

  lemma WeaveFirst<N>(b: seq<Data>, t: Tree<N>, r: seq<Tree<N>>)
    requires |r| == |b|
    ensures Weave(b, [t] + r) == InOrder(t) + Tail(b, r)
  {
    var y := [t] + r;
    assert y[1..] == r && y[0] == t && y != [];
    if b == [] {
      assert Tail(b, r) == [];
    } else {
      assert InOrder(t) + [b[0]] + Weave(b[1..], r) == InOrder(t) + ([b[0]] + Weave(b[1..], r));
    }
  }

  /** A node seen from one of its children. */
  lemma WeaveAround<N>(a: seq<Data>, l: seq<Tree<N>>, t: Tree<N>, b: seq<Data>, r: seq<Tree<N>>)
    requires |l| == |a| && |r| == |b|
    ensures Weave(a + b, l + [t] + r) == Weave(a, l) + InOrder(t) + Tail(b, r)
  {
    hide Weave, InOrder, Tail;
    WeaveJoin(a, l, b, [t] + r);
    WeaveFirst(b, t, r);
    Assoc(l, [t], r);
    Assoc(Weave(a, l), InOrder(t), Tail(b, r));
  }

  lemma Assoc<T>(a: seq<T>, b: seq<T>, c: seq<T>)
    ensures a + (b + c) == a + b + c
  {
  }

  lemma Regroup(a: seq<Data>, b: seq<Data>, c: seq<Data>, d: seq<Data>, e: seq<Data>)
    ensures a + (b + c + d) + e == (a + b) + c + (d + e)
  {
  }

  lemma {:induction false} PlugInOrder<N>(c: Ctx<N>, t: Tree<N>)
    requires Matched(c)
    ensures InOrder(Plug(c, t)) == Pre(c) + InOrder(t) + Post(c)
  {
    if c.In? {
      PlugInOrder(c.up, Join(c, t));
      assert Firsts(c) + Lasts(c) == c.items;
      WeaveAround(Firsts(c), c.left, t, Lasts(c), c.right);
      Regroup(Pre(c.up), Weave(Firsts(c), c.left), InOrder(t), Tail(Lasts(c), c.right), Post(c.up));
    }
  }

  lemma SameWhole<N>(c: Ctx<N>, t: Tree<N>, t': Tree<N>)
    requires Matched(c) && InOrder(t) == InOrder(t')
    ensures InOrder(Plug(c, t)) == InOrder(Plug(c, t'))
  {
    PlugInOrder(c, t);
    PlugInOrder(c, t');
  }

  lemma {:induction false} WeaveNils<N>(items: seq<Data>, kids: seq<Tree<N>>)
    requires |kids| == |items| + 1 && forall i :: 0 <= i < |kids| ==> kids[i].Nil?
    ensures Weave(items, kids) == items
  {
    if items != [] {
      WeaveNils(items[1..], kids[1..]);
      assert InOrder(kids[0]) == [];
    }
  }

  // ----- searching

  ghost predicate Around<N>(c: Ctx<N>, k: int) {
    B.AllBelow(Pre(c), k) && B.AllAbove(Post(c), k)
  }

  /** Where in a node the search goes on. */
  ghost predicate Between(items: seq<Data>, i: nat, k: int) {
    i <= |items| && (i > 0 ==> items[i - 1].key < k) && (i < |items| ==> k < items[i].key)
  }

  lemma GoDown<N>(c: Ctx<N>, t: Tree<N>, i: nat, k: int)
    requires Matched(c) && B.Sorted(InOrder(Plug(c, t))) && Around(c, k)
    requires t.Node? && |t.kids| == |t.items| + 1 && Between(t.items, i, k)
    ensures Around(Into(c, t, i), k)
  {
    hide InOrder, Plug;
    var d := Into(c, t, i);
    JoinInto(c, t, i);
    PlugInOrder(d, t.kids[i]);
    SortedEnds(Pre(d), InOrder(t.kids[i]), Post(d));
    assert Firsts(d) == t.items[..i] && Lasts(d) == t.items[i..];
    PreBelow(d, i, k);
    PostAbove(d, i, k);
  }

  lemma SortedEnds(a: seq<Data>, b: seq<Data>, e: seq<Data>)
    requires B.Sorted(a + b + e)
    ensures B.Sorted(a) && B.Sorted(e)
  {
    var s := a + b + e;
    assert forall j :: 0 <= j < |a| ==> a[j] == s[j];
    assert forall j :: 0 <= j < |e| ==> e[j] == s[|a| + |b| + j];
  }

  lemma PreBelow<N>(d: Ctx<N>, i: nat, k: int)
    requires d.In? && |d.left| == i && i <= |d.items| && (i > 0 ==> d.items[i - 1].key < k)
    requires B.Sorted(Pre(d)) && B.AllBelow(Pre(d.up), k)
    ensures B.AllBelow(Pre(d), k)
  {
    if i > 0 {
      LastItem(d.items[..i], d.left);
      assert Pre(d)[|Pre(d)| - 1] == d.items[i - 1];
    } else {
      assert Weave(Firsts(d), d.left) == [];
    }
  }

  lemma PostAbove<N>(d: Ctx<N>, i: nat, k: int)
    requires d.In? && |d.left| == i && i <= |d.items| && (i < |d.items| ==> k < d.items[i].key)
    requires B.Sorted(Post(d)) && B.AllAbove(Post(d.up), k)
    ensures B.AllAbove(Post(d), k)
  {
    if i < |d.items| {
      assert Post(d)[0] == d.items[i];
    } else {
      assert Tail(Lasts(d), d.right) == [];
    }
  }

  lemma LastItem<N>(items: seq<Data>, kids: seq<Tree<N>>)
    requires |kids| == |items| > 0
    ensures Weave(items, kids) != [] && Weave(items, kids)[|Weave(items, kids)| - 1] == items[|items| - 1]
  {
    var k := |items| - 1;
    WeaveSnoc(items[..k], items[k], kids);
    assert items[..k] + [items[k]] == items;
  }

  /** An item of a node is an item of the tree, at this place. */
  lemma ItemAt<N>(c: Ctx<N>, t: Tree<N>, i: nat)
    requires Matched(c) && t.Node? && |t.kids| == |t.items| + 1 && i < |t.items|
    ensures InOrder(t) == Weave(t.items[..i], t.kids[..i + 1]) + [t.items[i]] + Weave(t.items[i + 1..], t.kids[i + 1..])
    ensures t.items[i] in InOrder(Plug(c, t))
  {
    WeaveSplit(t.items[..i], t.kids[..i + 1], t.items[i], t.items[i + 1..], t.kids[i + 1..]);
    assert t.items[..i] + [t.items[i]] + t.items[i + 1..] == t.items;
    assert t.kids[..i + 1] + t.kids[i + 1..] == t.kids;
    PlugInOrder(c, t);
  }

  /** The keys of a node ascend in a search tree. */
  lemma {:induction false} NodeSorted<N>(items: seq<Data>, kids: seq<Tree<N>>)
    requires |kids| == |items| + 1 && B.Sorted(Weave(items, kids))
    ensures B.Sorted(items)
  {
    hide InOrder, B.Sorted;
    if items != [] {
      var w := Weave(items[1..], kids[1..]);
      SortedBehind(InOrder(kids[0]), items[0], w);
      NodeSorted(items[1..], kids[1..]);
      forall j | 0 < j < |items| ensures items[j] in w {
        ItemIn(items[1..], kids[1..], j - 1);
      }
      FirstLeast(items, w);
    } else {
      NoneSorted(items);
    }
  }

  lemma SortedBehind(a: seq<Data>, d: Data, w: seq<Data>)
    requires B.Sorted(a + [d] + w)
    ensures B.Sorted(w) && B.AllAbove(w, d.key)
  {
    var s := a + [d] + w;
    assert s[|a|] == d;
    assert forall j :: 0 <= j < |w| ==> w[j] == s[|a| + 1 + j];
  }

  lemma FirstLeast(items: seq<Data>, w: seq<Data>)
    requires items != [] && B.Sorted(items[1..]) && B.AllAbove(w, items[0].key)
    requires forall j :: 0 < j < |items| ==> items[j] in w
    ensures B.Sorted(items)
  {
    forall i, j | 0 <= i < j < |items| ensures items[i].key < items[j].key {
      if i > 0 {
        assert items[i] == items[1..][i - 1] && items[j] == items[1..][j - 1];
      }
    }
  }

  lemma NoneSorted(items: seq<Data>)
    ensures items == [] ==> B.Sorted(items)
  {
  }

  lemma {:induction false} ItemIn<N>(items: seq<Data>, kids: seq<Tree<N>>, i: nat)
    requires |kids| == |items| + 1 && i < |items|
    ensures items[i] in Weave(items, kids)
  {
    if i > 0 {
      ItemIn(items[1..], kids[1..], i - 1);
    }
  }

  // ----- the shape

  function Max(m: nat): nat
    requires m >= 3
  {
    m - 1
  }

  /** btree_creat: half of the order, rounded up, less one. */
  function Min(m: nat): (r: nat)
    requires m >= 3
    ensures 2 * r + 1 <= m <= 2 * r + 2
  {
    m / 2 + (if m % 2 != 0 then 1 else 0) - 1
  }

  function Sep(m: nat): nat
    requires m >= 3
  {
    m / 2
  }

  /** All leaves at depth h, and every node within the bounds. */
  ghost predicate Good<N>(t: Tree<N>, h: nat, m: nat)
    requires m >= 3
    decreases h, 0
  {
    if h == 0 then t.Nil? else Near(t, h, Min(m), Max(m), m)
  }

  /** The same, but the root may have from lo to hi items. */
  ghost predicate Near<N>(t: Tree<N>, h: nat, lo: nat, hi: nat, m: nat)
    requires m >= 3 && h > 0
    decreases h - 1, 1
  {
    && t.Node? && |t.kids| == |t.items| + 1 && lo <= |t.items| <= hi
    && forall i :: 0 <= i < |t.kids| ==> Good(t.kids[i], h - 1, m)
  }

  /** A whole tree: only the root may have fewer items than the minimum, but not none. */
  ghost predicate Shaped<N>(t: Tree<N>, h: nat, m: nat)
    requires m >= 3
  {
    if h == 0 then t.Nil? else Near(t, h, 1, Max(m), m)
  }

  /** The surroundings of a subtree of height h. */
  ghost predicate CGood<N>(c: Ctx<N>, h: nat, m: nat)
    requires m >= 3
    decreases c
  {
    c.In? ==>
      && |c.left| + |c.right| == |c.items|
      && (if c.up.Top? then 1 else Min(m)) <= |c.items| <= Max(m)
      && (forall i :: 0 <= i < |c.left| ==> Good(c.left[i], h, m))
      && (forall i :: 0 <= i < |c.right| ==> Good(c.right[i], h, m))
      && CGood(c.up, h + 1, m)
  }

  lemma {:induction false} CGoodMatched<N>(c: Ctx<N>, h: nat, m: nat)
    requires m >= 3 && CGood(c, h, m)
    ensures Matched(c)
  {
    if c.In? {
      CGoodMatched(c.up, h + 1, m);
    }
  }

  lemma {:induction false} PlugShaped<N>(c: Ctx<N>, t: Tree<N>, h: nat, m: nat)
    requires m >= 3 && CGood(c, h, m)
    requires if c.Top? then Shaped(t, h, m) else Good(t, h, m)
    ensures Shaped(Plug(c, t), h + Depth(c), m)
  {
    if c.In? {
      var j := Join(c, t);
      forall i | 0 <= i < |j.kids| ensures Good(j.kids[i], h, m) {
        if i < |c.left| {
          assert j.kids[i] == c.left[i];
        } else if i > |c.left| {
          assert j.kids[i] == c.right[i - |c.left| - 1];
        }
      }
      PlugShaped(c.up, j, h + 1, m);
    }
  }

  // ----- what the operations do to the items

  /** Two neighbours and the item between them, in their parent. */
  lemma Pair<N>(a: seq<Data>, l: seq<Tree<N>>, x: Tree<N>, s: Data, y: Tree<N>, b: seq<Data>, r: seq<Tree<N>>)
    requires |l| == |a| && |r| == |b|
    ensures Weave(a + [s] + b, l + [x, y] + r) == Weave(a, l) + (InOrder(x) + [s] + InOrder(y)) + Tail(b, r)
  {
    hide Weave, InOrder, Tail;
    WeaveSplit(a, l + [x], s, b, [y] + r);
    TwoInside(l, x, y, r);
    WeaveJoin(a, l, [], [x]);
    WeaveSingle(x);
    PlusNone(a);
    WeaveFirst(b, y, r);
    Assoc5(Weave(a, l), InOrder(x), [s], InOrder(y), Tail(b, r));
  }

  lemma WeaveSingle<N>(x: Tree<N>)
    ensures Weave([], [x]) == InOrder(x)
  {
  }

  lemma Assoc5<T>(a: seq<T>, b: seq<T>, c: seq<T>, d: seq<T>, e: seq<T>)
    ensures (a + b) + c + (d + e) == a + (b + c + d) + e
  {
  }

  /** A child and the pair it is cut into, or merged from. */
  lemma PairAsOne<N>(a: seq<Data>, l: seq<Tree<N>>, x: Tree<N>, s: Data, y: Tree<N>, b: seq<Data>, r: seq<Tree<N>>,
      t: Tree<N>)
    requires |l| == |a| && |r| == |b| && InOrder(t) == InOrder(x) + [s] + InOrder(y)
    ensures Weave(a + [s] + b, l + [x, y] + r) == Weave(a + b, l + [t] + r)
  {
    hide Weave, InOrder, Tail;
    Pair(a, l, x, s, y, b, r);
    WeaveAround(a, l, t, b, r);
  }

  lemma TwoInside<T>(a: seq<T>, x: T, y: T, b: seq<T>)
    ensures a + [x] + ([y] + b) == a + [x, y] + b
  {
  }

  lemma PlusNone<T>(a: seq<T>)
    ensures a + [] == a
  {
  }

  /** The last item and child of the left neighbour move through the parent to the right one. */
  lemma BorrowLeft<N>(n: N, a: seq<Data>, x: Data, ak: seq<Tree<N>>, z: Tree<N>, s: Data, o: N, b: seq<Data>,
      bk: seq<Tree<N>>)
    requires |ak| == |a| + 1 && |bk| == |b| + 1
    ensures InOrder(Node(n, a + [x], ak + [z])) + [s] + InOrder(Node(o, b, bk))
         == InOrder(Node(n, a, ak)) + [x] + InOrder(Node(o, [s] + b, [z] + bk))
  {
    WeaveSplit(a, ak, x, [], [z]);
    WeaveSingle(z);
    assert a + [x] + [] == a + [x];
    assert ([s] + b)[1..] == b && ([z] + bk)[1..] == bk;
    assert InOrder(Node(o, [s] + b, [z] + bk)) == InOrder(z) + [s] + Weave(b, bk);
  }

  /** The first item and child of the right neighbour move through the parent to the left one. */
  lemma BorrowRight<N>(n: N, a: seq<Data>, ak: seq<Tree<N>>, s: Data, o: N, x: Data, b: seq<Data>, z: Tree<N>,
      bk: seq<Tree<N>>)
    requires |ak| == |a| + 1 && |bk| == |b| + 1
    ensures InOrder(Node(n, a, ak)) + [s] + InOrder(Node(o, [x] + b, [z] + bk))
         == InOrder(Node(n, a + [s], ak + [z])) + [x] + InOrder(Node(o, b, bk))
  {
    WeaveSplit(a, ak, s, [], [z]);
    WeaveSingle(z);
    assert a + [s] + [] == a + [s];
    assert ([x] + b)[1..] == b && ([z] + bk)[1..] == bk;
    assert InOrder(Node(o, [x] + b, [z] + bk)) == InOrder(z) + [x] + Weave(b, bk);
  }

  // ----- the predecessor of an item: down along the last children

  ghost function Append<N>(inner: Ctx<N>, outer: Ctx<N>): Ctx<N>
    decreases inner
  {
    if inner.Top? then outer else In(inner.n, inner.items, inner.left, inner.right, Append(inner.up, outer))
  }

  lemma {:induction false} PlugAppend<N>(inner: Ctx<N>, outer: Ctx<N>, t: Tree<N>)
    ensures Plug(Append(inner, outer), t) == Plug(outer, Plug(inner, t))
    ensures Matched(Append(inner, outer)) <==> Matched(inner) && Matched(outer)
    decreases inner
  {
    if inner.In? {
      PlugAppend(inner.up, outer, Join(inner, t));
    }
  }

  ghost predicate Rightmost<N>(c: Ctx<N>) {
    c.In? ==> c.right == [] && Rightmost(c.up)
  }

  lemma {:induction false} RightmostPost<N>(c: Ctx<N>)
    requires Matched(c) && Rightmost(c)
    ensures Post(c) == []
  {
    if c.In? {
      RightmostPost(c.up);
      assert Tail(Lasts(c), c.right) == [];
    }
  }

  /** One more step along the last child, at the lower end of the path. */
  lemma {:induction false} PlugLast<N>(inner: Ctx<N>, t: Tree<N>)
    requires t.Node? && |t.kids| == |t.items| + 1 && Rightmost(inner) && Matched(inner)
    ensures var d := Into(inner, t, |t.items|);
      Plug(d, t.kids[|t.items|]) == Plug(inner, t) && Rightmost(d) && Matched(d)
  {
    JoinInto(inner, t, |t.items|);
  }

  // ----- splitting

  ghost function LeftPart<N>(t: Tree<N>, sep: nat): Tree<N>
    requires t.Node? && sep < |t.items| && |t.kids| == |t.items| + 1
  {
    Node(t.n, t.items[..sep], t.kids[..sep + 1])
  }

  ghost function RightPart<N>(t: Tree<N>, sep: nat, o: N): Tree<N>
    requires t.Node? && sep < |t.items| && |t.kids| == |t.items| + 1
  {
    Node(o, t.items[sep + 1..], t.kids[sep + 1..])
  }

  /** The parent of t, after t was cut and its middle item came up. */
  ghost function SplitUp<N>(p: N, items: seq<Data>, l: seq<Tree<N>>, t: Tree<N>, r: seq<Tree<N>>, sep: nat,
      o: N): Tree<N>
    requires t.Node? && sep < |t.items| && |t.kids| == |t.items| + 1 && |l| <= |items|
  {
    Node(p, Ins(items, |l|, t.items[sep]), l + [LeftPart(t, sep), RightPart(t, sep, o)] + r)
  }

  /** A node that is one item too large is cut into two good ones. */
  lemma SplitGood<N>(t: Tree<N>, h: nat, m: nat, o: N)
    requires m >= 3 && h > 0 && Near(t, h, m, m, m)
    ensures Good(LeftPart(t, Sep(m)), h, m) && Good(RightPart(t, Sep(m), o), h, m)
  {
  }

  /** The parent takes one more item. */
  lemma SplitUpNear<N>(c: Ctx<N>, t: Tree<N>, h: nat, m: nat, o: N)
    requires m >= 3 && h > 0 && Near(t, h, m, m, m) && c.In? && |c.left| + |c.right| == |c.items|
    requires forall i :: 0 <= i < |c.left| ==> Good(c.left[i], h, m)
    requires forall i :: 0 <= i < |c.right| ==> Good(c.right[i], h, m)
    ensures Near(SplitUp(c.n, c.items, c.left, t, c.right, Sep(m), o), h + 1, |c.items| + 1, |c.items| + 1, m)
  {
    SplitGood(t, h, m, o);
    var s := SplitUp(c.n, c.items, c.left, t, c.right, Sep(m), o);
    forall i | 0 <= i < |s.kids| ensures Good(s.kids[i], h, m) {
      if i < |c.left| {
        assert s.kids[i] == c.left[i];
      } else if i > |c.left| + 1 {
        assert s.kids[i] == c.right[i - |c.left| - 2];
      }
    }
  }

  lemma GrownInOrder<N>(p: N, t: Tree<N>)
    ensures InOrder(Plug(In(p, [], [], [], Top), t)) == InOrder(t)
    ensures Plug(In(p, [], [], [], Top), t) == Node(p, [], [] + [t] + [])
  {
    assert [] + [t] + [] == [t];
    WeaveSingle(t);
  }

  lemma SplitInOrder<N>(p: N, items: seq<Data>, l: seq<Tree<N>>, t: Tree<N>, r: seq<Tree<N>>, sep: nat, o: N)
    requires t.Node? && sep < |t.items| && |t.kids| == |t.items| + 1 && |l| + |r| == |items|
    ensures InOrder(SplitUp(p, items, l, t, r, sep, o)) == InOrder(Node(p, items, l + [t] + r))
  {
    var L, R := LeftPart(t, sep), RightPart(t, sep, o);
    CutInOrder(t, sep, o);
    PairAsOne(items[..|l|], l, L, t.items[sep], R, items[|l|..], r, t);
    assert items[..|l|] + items[|l|..] == items;
  }

  lemma CutInOrder<N>(t: Tree<N>, sep: nat, o: N)
    requires t.Node? && sep < |t.items| && |t.kids| == |t.items| + 1
    ensures InOrder(t) == InOrder(LeftPart(t, sep)) + [t.items[sep]] + InOrder(RightPart(t, sep, o))
  {
    ItemAt(Top, t, sep);
  }

  /** In a search tree the middle item belongs where the child was. */
  lemma SplitPlace<N>(u: Ctx<N>, p: N, items: seq<Data>, l: seq<Tree<N>>, t: Tree<N>, r: seq<Tree<N>>, sep: nat, o: N)
    requires Matched(u) && t.Node? && sep < |t.items| && |t.kids| == |t.items| + 1 && |l| + |r| == |items|
    requires B.Sorted(InOrder(Plug(u, Node(p, items, l + [t] + r))))
    ensures forall i :: |l| <= i < |items| ==> t.items[sep].key < items[i].key
    ensures forall i :: 0 <= i < |l| ==> items[i].key < t.items[sep].key
    ensures InOrder(Plug(u, SplitUp(p, items, l, t, r, sep, o))) == InOrder(Plug(u, Node(p, items, l + [t] + r)))
  {
    hide InOrder, Weave, Plug;
    var P' := SplitUp(p, items, l, t, r, sep, o);
    SplitInOrder(p, items, l, t, r, sep, o);
    SameWhole(u, P', Node(p, items, l + [t] + r));
    PlugInOrder(u, P');
    SortedMiddle(Pre(u), InOrder(P'), Post(u));
    NodeIsSorted(P');
    InsSorted(items, |l|, t.items[sep]);
  }

  lemma SortedMiddle(a: seq<Data>, b: seq<Data>, e: seq<Data>)
    requires B.Sorted(a + b + e)
    ensures B.Sorted(b)
  {
    var s := a + b + e;
    assert forall j :: 0 <= j < |b| ==> b[j] == s[|a| + j];
  }

  lemma NodeIsSorted<N>(t: Tree<N>)
    requires t.Node? && |t.kids| == |t.items| + 1 && B.Sorted(InOrder(t))
    ensures B.Sorted(t.items)
  {
    NodeSorted(t.items, t.kids);
  }

  lemma InsSorted(items: seq<Data>, at: nat, d: Data)
    requires at <= |items| && B.Sorted(Ins(items, at, d))
    ensures forall i :: at <= i < |items| ==> d.key < items[i].key
    ensures forall i :: 0 <= i < at ==> items[i].key < d.key
  {
    var s := Ins(items, at, d);
    assert s[at] == d;
    assert forall i :: 0 <= i < at ==> s[i] == items[i];
    assert forall i :: at <= i < |items| ==> s[i + 1] == items[i];
  }

  /** The items of a node ascend in a search tree. */
  lemma FocusSorted<N>(c: Ctx<N>, t: Tree<N>)
    requires Matched(c) && t.Node? && |t.kids| == |t.items| + 1 && B.Sorted(InOrder(Plug(c, t)))
    ensures B.Sorted(t.items)
  {
    PlugInOrder(c, t);
    SortedMiddle(Pre(c), InOrder(t), Post(c));
    NodeIsSorted(t);
  }

  // ----- inserting and searching

  lemma IntoGood<N>(c: Ctx<N>, t: Tree<N>, i: nat, h: nat, m: nat)
    requires m >= 3 && h > 0 && CGood(c, h, m) && Near(t, h, if c.Top? then 1 else Min(m), Max(m), m) && i < |t.kids|
    ensures CGood(Into(c, t, i), h - 1, m) && Good(t.kids[i], h - 1, m)
    ensures t.kids[i].Nil? <==> h == 1
  {
    GoodNil(t.kids[i], h - 1, m);
  }

  lemma GoodNil<N>(t: Tree<N>, h: nat, m: nat)
    requires m >= 3 && (Good(t, h, m) || Shaped(t, h, m))
    ensures t.Nil? <==> h == 0
  {
    if h > 0 {
      assert Good(t, h, m) ==> Near(t, h, Min(m), Max(m), m);
    }
  }

  /** A good subtree can be a whole tree. */
  lemma GoodShaped<N>(t: Tree<N>, h: nat, m: nat)
    requires m >= 3 && Good(t, h, m)
    ensures Shaped(t, h, m)
  {
  }

  /** The place found for a key between two items of a sorted node. */
  lemma BetweenAll(items: seq<Data>, i: nat, k: int)
    requires B.Sorted(items) && Between(items, i, k)
    ensures B.AllBelow(items[..i], k) && B.AllAbove(items[i..], k)
  {
  }

  /** No item has the key when the search ends at a missing child. */
  lemma Missing<N>(c: Ctx<N>, k: int)
    requires Matched(c) && Around(c, k)
    ensures !B.HasKey(B.Items(InOrder(Plug(c, Nil))), k)
  {
    PlugInOrder(c, Nil);
  }

  /** A leaf with one more item. */
  ghost function LeafIns<N>(t: Tree<N>, i: nat, d: Data): Tree<N>
    requires t.Node? && i <= |t.items|
  {
    Node(t.n, Ins(t.items, i, d), t.kids + [Nil])
  }

  lemma LeafNear<N>(t: Tree<N>, i: nat, d: Data, m: nat, lo: nat)
    requires m >= 3 && Near(t, 1, lo, Max(m), m) && i <= |t.items|
    ensures Near(LeafIns(t, i, d), 1, lo, m, m)
    ensures InOrder(t) == t.items && InOrder(LeafIns(t, i, d)) == Ins(t.items, i, d)
  {
    var t' := LeafIns(t, i, d);
    assert forall j :: 0 <= j < |t.kids| ==> Good(t.kids[j], 0, m);
    WeaveNils(t.items, t.kids);
    assert forall j :: 0 <= j < |t'.kids| ==> t'.kids[j].Nil?;
    WeaveNils(t'.items, t'.kids);
  }

  lemma LeafInserted<N>(c: Ctx<N>, t: Tree<N>, i: nat, d: Data, m: nat, lo: nat)
    requires m >= 3 && Matched(c) && Near(t, 1, lo, Max(m), m) && Between(t.items, i, d.key)
    requires B.Sorted(InOrder(Plug(c, t))) && Around(c, d.key)
    ensures Near(LeafIns(t, i, d), 1, lo, m, m)
    ensures B.Sorted(InOrder(Plug(c, LeafIns(t, i, d))))
    ensures B.Items(InOrder(Plug(c, LeafIns(t, i, d)))) == B.Items(InOrder(Plug(c, t))) + {d}
  {
    hide InOrder, Weave, Pre, Post, Plug, B.Items;
    FocusSorted(c, t);
    BetweenAll(t.items, i, d.key);
    PlugInOrder(c, t);
    PlugInOrder(c, LeafIns(t, i, d));
    LeafNear(t, i, d, m, lo);
    JoinHalves(Pre(c), t.items, Post(c), i, d);
    AllJoin(Pre(c), t.items[..i], t.items[i..], Post(c), d.key);
    B.Inserted(Pre(c) + t.items[..i], d, t.items[i..] + Post(c));
  }

  lemma AllJoin(a: seq<Data>, b: seq<Data>, e: seq<Data>, f: seq<Data>, k: int)
    requires B.AllBelow(a, k) && B.AllBelow(b, k) && B.AllAbove(e, k) && B.AllAbove(f, k)
    ensures B.AllBelow(a + b, k) && B.AllAbove(e + f, k)
  {
  }

  lemma JoinHalves(p: seq<Data>, s: seq<Data>, q: seq<Data>, i: nat, d: Data)
    requires i <= |s|
    ensures p + s + q == (p + s[..i]) + (s[i..] + q)
    ensures p + Ins(s, i, d) + q == (p + s[..i]) + [d] + (s[i..] + q)
  {
  }

  // ----- removing

  ghost function Merged<N>(t: Tree<N>, s: Data, w: Tree<N>): Tree<N>
    requires t.Node? && w.Node?
  {
    Node(t.n, t.items + [s] + w.items, t.kids + w.kids)
  }

  /** The parent p of neighbours t and w, after they became one node. */
  ghost function MergeUp<N>(p: N, items: seq<Data>, l: seq<Tree<N>>, t: Tree<N>, w: Tree<N>, r: seq<Tree<N>>): Tree<N>
    requires t.Node? && w.Node? && |l| < |items|
  {
    Node(p, Del(items, |l|), l + [Merged(t, items[|l|], w)] + r)
  }

  /** The parent p after an item moved through it from the left neighbour to the right one. */
  ghost function RightUp<N>(p: N, items: seq<Data>, l: seq<Tree<N>>, t: Tree<N>, w: Tree<N>, r: seq<Tree<N>>): Tree<N>
    requires t.Node? && w.Node? && |l| < |items| && |t.items| > 0 && |t.kids| == |t.items| + 1
  {
    var k := |t.items| - 1;
    Node(p, items[|l| := t.items[k]],
      l + [Node(t.n, t.items[..k], t.kids[..k + 1]), Node(w.n, [items[|l|]] + w.items, [t.kids[k + 1]] + w.kids)] + r)
  }

  /** The parent p after an item moved through it from the right neighbour to the left one. */
  ghost function LeftUp<N>(p: N, items: seq<Data>, l: seq<Tree<N>>, t: Tree<N>, w: Tree<N>, r: seq<Tree<N>>): Tree<N>
    requires t.Node? && w.Node? && |l| < |items| && |w.items| > 0 && |w.kids| == |w.items| + 1
  {
    Node(p, items[|l| := w.items[0]],
      l + [Node(t.n, t.items + [items[|l|]], t.kids + [w.kids[0]]), Node(w.n, w.items[1..], w.kids[1..])] + r)
  }

  ghost predicate Neighbours<N>(items: seq<Data>, l: seq<Tree<N>>, t: Tree<N>, w: Tree<N>, r: seq<Tree<N>>) {
    && t.Node? && w.Node? && |l| < |items| && |l| + 1 + |r| == |items|
    && |t.kids| == |t.items| + 1 && |w.kids| == |w.items| + 1
  }

  lemma MergeInOrder<N>(p: N, items: seq<Data>, l: seq<Tree<N>>, t: Tree<N>, w: Tree<N>, r: seq<Tree<N>>)
    requires Neighbours(items, l, t, w, r)
    ensures InOrder(MergeUp(p, items, l, t, w, r)) == InOrder(Node(p, items, l + [t, w] + r))
  {
    var s := items[|l|];
    WeaveSplit(t.items, t.kids, s, w.items, w.kids);
    PairAsOne(items[..|l|], l, t, s, w, items[|l| + 1..], r, Merged(t, s, w));
    assert items[..|l|] + [s] + items[|l| + 1..] == items;
  }

  lemma RightInOrder<N>(p: N, items: seq<Data>, l: seq<Tree<N>>, t: Tree<N>, w: Tree<N>, r: seq<Tree<N>>)
    requires Neighbours(items, l, t, w, r) && |t.items| > 0
    ensures InOrder(RightUp(p, items, l, t, w, r)) == InOrder(Node(p, items, l + [t, w] + r))
  {
    var k := |t.items| - 1;
    var x, z, s := t.items[k], t.kids[k + 1], items[|l|];
    var t', w' := Node(t.n, t.items[..k], t.kids[..k + 1]), Node(w.n, [s] + w.items, [z] + w.kids);
    var a, b := items[..|l|], items[|l| + 1..];
    assert t.items[..k] + [x] == t.items && t.kids[..k + 1] + [z] == t.kids;
    BorrowLeft(t.n, t.items[..k], x, t.kids[..k + 1], z, s, w.n, w.items, w.kids);
    PairMoved(a, l, t, s, w, t', x, w', b, r);
    ItemSplit(items, |l|, x);
  }

  lemma LeftInOrder<N>(p: N, items: seq<Data>, l: seq<Tree<N>>, t: Tree<N>, w: Tree<N>, r: seq<Tree<N>>)
    requires Neighbours(items, l, t, w, r) && |w.items| > 0
    ensures InOrder(LeftUp(p, items, l, t, w, r)) == InOrder(Node(p, items, l + [t, w] + r))
  {
    var x, z, s := w.items[0], w.kids[0], items[|l|];
    var t', w' := Node(t.n, t.items + [s], t.kids + [z]), Node(w.n, w.items[1..], w.kids[1..]);
    var a, b := items[..|l|], items[|l| + 1..];
    assert [x] + w.items[1..] == w.items && [z] + w.kids[1..] == w.kids;
    BorrowRight(t.n, t.items, t.kids, s, w.n, x, w.items[1..], z, w.kids[1..]);
    PairMoved(a, l, t, s, w, t', x, w', b, r);
    ItemSplit(items, |l|, x);
  }

  lemma ItemSplit(items: seq<Data>, i: nat, x: Data)
    requires i < |items|
    ensures items[..i] + [items[i]] + items[i + 1..] == items
    ensures items[..i] + [x] + items[i + 1..] == items[i := x]
  {
  }

  lemma PairMoved<N>(a: seq<Data>, l: seq<Tree<N>>, t: Tree<N>, s: Data, w: Tree<N>, t': Tree<N>, s': Data, w': Tree<N>,
      b: seq<Data>, r: seq<Tree<N>>)
    requires |l| == |a| && |r| == |b|
    requires InOrder(t) + [s] + InOrder(w) == InOrder(t') + [s'] + InOrder(w')
    ensures Weave(a + [s'] + b, l + [t', w'] + r) == Weave(a + [s] + b, l + [t, w] + r)
  {
    hide InOrder, Weave, Tail;
    Pair(a, l, t, s, w, b, r);
    Pair(a, l, t', s', w', b, r);
  }

  /** The children of a node with two of them replaced by one or two good ones. */
  lemma KidsGood<N>(l: seq<Tree<N>>, mids: seq<Tree<N>>, r: seq<Tree<N>>, h: nat, m: nat)
    requires m >= 3
    requires forall i :: 0 <= i < |l| ==> Good(l[i], h, m)
    requires forall i :: 0 <= i < |mids| ==> Good(mids[i], h, m)
    requires forall i :: 0 <= i < |r| ==> Good(r[i], h, m)
    ensures forall i :: 0 <= i < |l + mids + r| ==> Good((l + mids + r)[i], h, m)
  {
    var s := l + mids + r;
    forall i | 0 <= i < |s| ensures Good(s[i], h, m) {
      if i < |l| {
        assert s[i] == l[i];
      } else if i < |l| + |mids| {
        assert s[i] == mids[i - |l|];
      } else {
        assert s[i] == r[i - |l| - |mids|];
      }
    }
  }

  lemma MergeNear<N>(p: N, items: seq<Data>, l: seq<Tree<N>>, t: Tree<N>, w: Tree<N>, r: seq<Tree<N>>, h: nat, m: nat)
    requires m >= 3 && h > 0 && Neighbours(items, l, t, w, r)
    requires Near(t, h, 0, Max(m), m) && Near(w, h, 0, Max(m), m) && Min(m) <= |t.items| + |w.items| + 1 <= Max(m)
    requires forall i :: 0 <= i < |l| ==> Good(l[i], h, m)
    requires forall i :: 0 <= i < |r| ==> Good(r[i], h, m)
    requires |items| <= Max(m)
    ensures Near(MergeUp(p, items, l, t, w, r), h + 1, |items| - 1, |items| - 1, m)
  {
    hide Good, Merged, Del;
    DelLength(items, |l|);
    var M := Merged(t, items[|l|], w);
    MergedGood(t, items[|l|], w, h, m);
    KidsGood(l, [M], r, h, m);
  }

  lemma DelLength<T>(s: seq<T>, i: nat)
    requires i < |s|
    ensures |Del(s, i)| == |s| - 1
  {
  }

  lemma MergedGood<N>(t: Tree<N>, s: Data, w: Tree<N>, h: nat, m: nat)
    requires m >= 3 && h > 0 && Near(t, h, 0, Max(m), m) && Near(w, h, 0, Max(m), m)
    requires Min(m) <= |t.items| + |w.items| + 1 <= Max(m)
    ensures Good(Merged(t, s, w), h, m)
  {
    PlusNone(t.kids);
    KidsGood<N>(t.kids, [], w.kids, h - 1, m);
    assert Near(Merged(t, s, w), h, Min(m), Max(m), m);
  }

  /** Enough for one more after giving one away. */
  lemma EnoughToLend(m: nat, a: nat, b: nat)
    requires m >= 3 && a == Min(m) - 1 && Max(m) < a + b + 1 && b <= Max(m)
    ensures Min(m) + 1 <= b && a + 1 == Min(m) <= Max(m)
  {
  }

  lemma RightNear<N>(p: N, items: seq<Data>, l: seq<Tree<N>>, t: Tree<N>, w: Tree<N>, r: seq<Tree<N>>, h: nat, m: nat)
    requires m >= 3 && h > 0 && Neighbours(items, l, t, w, r)
    requires Near(t, h, Min(m) + 1, Max(m), m) && Near(w, h, Min(m) - 1, Max(m) - 1, m)
    requires forall i :: 0 <= i < |l| ==> Good(l[i], h, m)
    requires forall i :: 0 <= i < |r| ==> Good(r[i], h, m)
    ensures Near(RightUp(p, items, l, t, w, r), h + 1, |items|, |items|, m)
  {
    var k := |t.items| - 1;
    var t', w' := Node(t.n, t.items[..k], t.kids[..k + 1]), Node(w.n, [items[|l|]] + w.items, [t.kids[k + 1]] + w.kids);
    assert Near(t', h, Min(m), Max(m), m);
    KidsGood<N>([t.kids[k + 1]], [], w.kids, h - 1, m);
    assert [t.kids[k + 1]] + [] + w.kids == w'.kids;
    assert Near(w', h, Min(m), Max(m), m);
    KidsGood(l, [t', w'], r, h, m);
  }

  lemma LeftNear<N>(p: N, items: seq<Data>, l: seq<Tree<N>>, t: Tree<N>, w: Tree<N>, r: seq<Tree<N>>, h: nat, m: nat)
    requires m >= 3 && h > 0 && Neighbours(items, l, t, w, r)
    requires Near(t, h, Min(m) - 1, Max(m) - 1, m) && Near(w, h, Min(m) + 1, Max(m), m)
    requires forall i :: 0 <= i < |l| ==> Good(l[i], h, m)
    requires forall i :: 0 <= i < |r| ==> Good(r[i], h, m)
    ensures Near(LeftUp(p, items, l, t, w, r), h + 1, |items|, |items|, m)
  {
    var t', w' := Node(t.n, t.items + [items[|l|]], t.kids + [w.kids[0]]), Node(w.n, w.items[1..], w.kids[1..]);
    KidsGood<N>(t.kids, [], [w.kids[0]], h - 1, m);
    assert t.kids + [] + [w.kids[0]] == t'.kids;
    assert Near(t', h, Min(m), Max(m), m);
    assert Near(w', h, Min(m), Max(m), m);
    KidsGood(l, [t', w'], r, h, m);
  }

  // ----- the item that goes

  /** A leaf's items after _btree_remove: the last one moves into the hole. */
  function LeafFill(items: seq<Data>, i: nat): seq<Data>
    requires i < |items|
  {
    items[i := items[|items| - 1]][..|items| - 1]
  }

  lemma LeafFillKeeps(items: seq<Data>, i: nat)
    requires i < |items|
    ensures multiset(LeafFill(items, i)) == multiset(Del(items, i))
    ensures |items| <= i + 2 ==> LeafFill(items, i) == Del(items, i)
  {
    var n := |items| - 1;
    if i < n {
      assert items == items[..i] + [items[i]] + items[i + 1..n] + [items[n]];
      assert LeafFill(items, i) == items[..i] + [items[n]] + items[i + 1..n];
      assert Del(items, i) == items[..i] + items[i + 1..n] + [items[n]];
    } else {
      assert LeafFill(items, i) == items[..n] && Del(items, i) == items[..n];
    }
  }

  /** With two or more items behind the hole, the order is lost. */
  lemma LeafFillUnsorted(a: seq<Data>, items: seq<Data>, b: seq<Data>, i: nat)
    requires i + 2 < |items| && B.Sorted(a + items + b)
    ensures !B.Sorted(a + LeafFill(items, i) + b)
  {
    var s, s', n := a + items + b, a + LeafFill(items, i) + b, |items| - 1;
    assert s[|a| + i + 1] == items[i + 1] && s[|a| + n] == items[n];
    assert s'[|a| + i] == items[n] && s'[|a| + i + 1] == items[i + 1];
  }

  /** How many items are below the key. */
  function Rank(items: seq<Data>, k: int): (r: nat)
    ensures r <= |items|
  {
    if items == [] || k <= items[0].key then 0 else 1 + Rank(items[1..], k)
  }

  lemma {:induction false} RankIs(items: seq<Data>, i: nat, k: int)
    requires B.Sorted(items) && (Between(items, i, k) || (i < |items| && items[i].key == k))
    ensures Rank(items, k) == i
  {
    if i > 0 {
      assert items[0].key < k;
      RankIs(items[1..], i - 1, k);
    }
  }

  /** The search for the key ends in a leaf, with two or more items behind it. */
  ghost predicate Gap<N>(t: Tree<N>, k: int)
    decreases t
  {
    t.Node? &&
    var i := Rank(t.items, k);
    if i < |t.items| && t.items[i].key == k then i < |t.kids| && t.kids[i].Nil? && i + 2 < |t.items|
    else i < |t.kids| && Gap(t.kids[i], k)
  }

  /** In a tree of order 3 nodes have two items at most, so there are no gaps. */
  lemma {:induction false} NoGap<N>(t: Tree<N>, h: nat, k: int)
    requires Shaped(t, h, 3) || Good(t, h, 3)
    ensures !Gap(t, k)
    decreases h
  {
    if t.Node? {
      GoodNil(t, h, 3);
      assert h > 0 && Near(t, h, 1, Max(3), 3);
      var i := Rank(t.items, k);
      NoGap(t.kids[i], h - 1, k);
    }
  }

  lemma GapDown<N>(t: Tree<N>, i: nat, k: int)
    requires t.Node? && |t.kids| == |t.items| + 1 && B.Sorted(t.items) && Between(t.items, i, k)
    ensures Gap(t, k) == Gap(t.kids[i], k)
  {
    RankIs(t.items, i, k);
  }

  lemma GapHere<N>(t: Tree<N>, i: nat)
    requires t.Node? && |t.kids| == |t.items| + 1 && B.Sorted(t.items) && i < |t.items|
    ensures Gap(t, t.items[i].key) <==> t.kids[i].Nil? && i + 2 < |t.items|
  {
    RankIs(t.items, i, t.items[i].key);
  }

  /** In a tree that is one leaf exactly the last two keys can go. */
  lemma LeafGap<N>(t: Tree<N>, m: nat, i: nat)
    requires m >= 3 && Shaped(t, 1, m) && B.Sorted(InOrder(t)) && i < |InOrder(t)|
    ensures Gap(t, InOrder(t)[i].key) <==> i + 2 < |InOrder(t)|
  {
    LeafItems(t);
    GapHere(t, i);
  }

  /** s' is s without the item d, which stood between a and b; the others may have changed places. */
  ghost predicate Without(s: seq<Data>, s': seq<Data>, a: seq<Data>, d: Data, b: seq<Data>) {
    s == a + [d] + b && multiset(s') == multiset(a + b)
  }

  lemma WithoutItems(s: seq<Data>, s': seq<Data>, a: seq<Data>, d: Data, b: seq<Data>)
    requires Without(s, s', a, d, b)
    ensures multiset(s') == multiset(s) - multiset{d}
    ensures B.Sorted(s) ==> B.Items(s') == B.Items(s) - {d}
    ensures B.Sorted(s) && s' == a + b ==> B.Sorted(s')
  {
    assert multiset(a + [d] + b) == multiset(a + b) + multiset{d};
    if B.Sorted(s) {
      B.Removed(a, d, b);
      assert forall x :: x in s' <==> x in multiset(s');
      assert forall x :: x in a + b <==> x in multiset(a + b);
    }
  }

  /** Removing from a leaf, seen from the whole tree. */
  ghost function LeafWithout<N>(t: Tree<N>, i: nat): Tree<N>
    requires t.Node? && i < |t.items| && |t.kids| == |t.items| + 1
  {
    Node(t.n, LeafFill(t.items, i), t.kids[..|t.items|])
  }

  lemma LeafSizes<N>(t: Tree<N>, i: nat, m: nat, lo: nat)
    requires m >= 3 && Near(t, 1, lo, Max(m), m) && i < |t.items|
    ensures Near(LeafWithout(t, i), 1, |t.items| - 1, |t.items| - 1, m)
    ensures forall j :: 0 <= j < |t.kids| ==> t.kids[j].Nil?
    ensures forall j :: 0 <= j < |LeafWithout(t, i).kids| ==> LeafWithout(t, i).kids[j].Nil?
  {
  }

  lemma LeafRemoved<N>(c: Ctx<N>, t: Tree<N>, i: nat, m: nat, lo: nat)
    returns (a: seq<Data>, b: seq<Data>)
    requires m >= 3 && Matched(c) && Near(t, 1, lo, Max(m), m) && i < |t.items|
    ensures Near(LeafWithout(t, i), 1, |t.items| - 1, |t.items| - 1, m)
    ensures var s, s' := InOrder(Plug(c, t)), InOrder(Plug(c, LeafWithout(t, i)));
      && Without(s, s', a, t.items[i], b)
      && (|t.items| <= i + 2 ==> s' == a + b)
      && (i + 2 < |t.items| && B.Sorted(s) ==> !B.Sorted(s'))
  {
    hide InOrder, Weave, Plug, Pre, Post, LeafFill, Without, B.Sorted;
    var t' := LeafWithout(t, i);
    LeafSizes(t, i, m, lo);
    PlugInOrder(c, t);
    PlugInOrder(c, t');
    LeafItems(t);
    LeafItems(t');
    a, b := Pre(c) + t.items[..i], t.items[i + 1..] + Post(c);
    LeafParts(Pre(c), t.items, Post(c), i);
    if i + 2 < |t.items| && B.Sorted(InOrder(Plug(c, t))) {
      LeafFillUnsorted(Pre(c), t.items, Post(c), i);
    }
  }

  lemma LeafItems<N>(t: Tree<N>)
    requires t.Node? && |t.kids| == |t.items| + 1 && forall i :: 0 <= i < |t.kids| ==> t.kids[i].Nil?
    ensures InOrder(t) == t.items
  {
    WeaveNils(t.items, t.kids);
  }

  lemma LeafParts(p: seq<Data>, s: seq<Data>, q: seq<Data>, i: nat)
    requires i < |s|
    ensures Without(p + s + q, p + LeafFill(s, i) + q, p + s[..i], s[i], s[i + 1..] + q)
    ensures |s| <= i + 2 ==> p + LeafFill(s, i) + q == (p + s[..i]) + (s[i + 1..] + q)
  {
    LeafFillKeeps(s, i);
    assert p + s + q == (p + s[..i]) + [s[i]] + (s[i + 1..] + q);
    assert (p + s[..i]) + (s[i + 1..] + q) == p + Del(s, i) + q;
    assert multiset(p + LeafFill(s, i) + q) == multiset(p) + multiset(LeafFill(s, i)) + multiset(q);
    assert multiset(p + Del(s, i) + q) == multiset(p) + multiset(Del(s, i)) + multiset(q);
  }

  /** An inner item gives way to the last item of the leaf at the end of its left child's last
      children. */
  lemma InnerRemoved<N>(c: Ctx<N>, t: Tree<N>, i: nat, inner: Ctx<N>, s: Tree<N>, s': Tree<N>, x: Data)
    returns (a: seq<Data>, b: seq<Data>)
    requires Matched(c) && t.Node? && |t.kids| == |t.items| + 1 && i < |t.items|
    requires t.kids[i] == Plug(inner, s) && Rightmost(inner) && Matched(inner)
    requires InOrder(s) == InOrder(s') + [x]
    ensures var t2 := Node(t.n, t.items[i := x], t.kids);
      && InOrder(Plug(c, t)) == a + [t.items[i]] + b
      && InOrder(Plug(Append(inner, Into(c, t2, i)), s')) == a + b
  {
    hide InOrder, Weave;
    var t2 := Node(t.n, t.items[i := x], t.kids);
    var d, d2 := Into(c, t, i), Into(c, t2, i);
    JoinInto(c, t, i);
    PlugInOrder(d, t.kids[i]);
    PlugAppend(inner, d2, s');
    PlugInOrder(d2, Plug(inner, s'));
    PlugInOrder(inner, s);
    PlugInOrder(inner, s');
    RightmostPost(inner);
    IntoEnds(c, t, i);
    IntoEnds(c, t2, i);
    assert t2.items[..i] == t.items[..i] && t2.items[i + 1..] == t.items[i + 1..];
    var p, w := Pre(d), Weave(t.items[i + 1..], t.kids[i + 1..]);
    var q := Pre(inner) + InOrder(s');
    a, b := p + q + [x], w + Post(c);
    PlusNone(Pre(inner) + InOrder(s));
    PlusNone(q);
    Assoc(Pre(inner), InOrder(s'), [x]);
    MoveOver(p, q, x, t.items[i], w, Post(c));
  }

  lemma IntoEnds<N>(c: Ctx<N>, t: Tree<N>, i: nat)
    requires t.Node? && |t.kids| == |t.items| + 1 && i < |t.items|
    ensures Pre(Into(c, t, i)) == Pre(c) + Weave(t.items[..i], t.kids[..i])
    ensures Post(Into(c, t, i)) == [t.items[i]] + Weave(t.items[i + 1..], t.kids[i + 1..]) + Post(c)
  {
    var d := Into(c, t, i);
    assert Firsts(d) == t.items[..i] && Lasts(d) == t.items[i..];
    assert t.items[i..][1..] == t.items[i + 1..];
  }

  lemma MoveOver(p: seq<Data>, q: seq<Data>, x: Data, y: Data, w: seq<Data>, e: seq<Data>)
    ensures p + (q + [x]) + ([y] + w + e) == (p + q + [x]) + [y] + (w + e)
    ensures p + q + ([x] + w + e) == (p + q + [x]) + (w + e)
  {
  }

  /** A leaf without its last item. */
  ghost function LeafCut<N>(t: Tree<N>): Tree<N>
    requires t.Node? && |t.items| > 0 && |t.kids| == |t.items| + 1
  {
    Node(t.n, t.items[..|t.items| - 1], t.kids[..|t.items|])
  }

  lemma LeafCutItems<N>(t: Tree<N>, m: nat, lo: nat)
    requires m >= 3 && Near(t, 1, lo, Max(m), m) && |t.items| > 0
    ensures Near(LeafCut(t), 1, |t.items| - 1, |t.items| - 1, m)
    ensures InOrder(t) == InOrder(LeafCut(t)) + [t.items[|t.items| - 1]]
  {
    LeafItems(t);
    LeafItems(LeafCut(t));
  }

  lemma {:induction false} CGoodAppend<N>(inner: Ctx<N>, outer: Ctx<N>, t: Tree<N>, h: nat, m: nat)
    requires m >= 3 && outer.In? && CGood(outer, h + Depth(inner), m) && Good(Plug(inner, t), h + Depth(inner), m)
    ensures CGood(Append(inner, outer), h, m) && Good(t, h, m)
    decreases inner
  {
    if inner.In? {
      var j := Join(inner, t);
      CGoodAppend(inner.up, outer, j, h + 1, m);
      assert Near(j, h + 1, Min(m), Max(m), m);
      assert j.kids[|inner.left|] == t;
      assert forall i :: 0 <= i < |inner.left| ==> j.kids[i] == inner.left[i];
      assert forall i :: 0 <= i < |inner.right| ==> j.kids[|inner.left| + 1 + i] == inner.right[i];
    }
  }
}
