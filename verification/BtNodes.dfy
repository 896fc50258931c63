/** How the fields of the heap nodes make up a B-tree.  `Val` is what the fields of one node say; a map
    from nodes to these values realises a tree value when items, children and parents agree. */
module BtNodes {
  import opened Options
  import B = KeyedItems
  import opened BtShape

  datatype Val<N> = Val(items: seq<Data>, kids: seq<Option<N>>, parent: Option<N>)

  ghost function Root<N>(t: Tree<N>): Option<N> {
    if t.Nil? then None else Some(t.n)
  }

  ghost function Roots<N>(kids: seq<Tree<N>>): (r: seq<Option<N>>)
    ensures |r| == |kids| && forall i :: 0 <= i < |kids| ==> r[i] == Root(kids[i])
  {
    seq(|kids|, i requires 0 <= i < |kids| => Root(kids[i]))
  }

  ghost function Up<N>(c: Ctx<N>): Option<N> {
    if c.Top? then None else Some(c.n)
  }

  /** The nodes, each as often as it occurs. */
  ghost function Nodes<N>(t: Tree<N>): multiset<N>
    decreases t
  {
    if t.Nil? then multiset{} else multiset{t.n} + KNodes(t.kids)
  }

  ghost function KNodes<N>(kids: seq<Tree<N>>): multiset<N>
    decreases kids
  {
    if kids == [] then multiset{} else Nodes(kids[0]) + KNodes(kids[1..])
  }

  ghost function CNodes<N>(c: Ctx<N>): multiset<N>
    decreases c
  {
    if c.Top? then multiset{} else multiset{c.n} + KNodes(c.left) + KNodes(c.right) + CNodes(c.up)
  }

  ghost predicate Once<N>(s: multiset<N>) { forall x :: x in s ==> s[x] == 1 }

  lemma {:induction false} KNodesJoin<N>(a: seq<Tree<N>>, b: seq<Tree<N>>)
    ensures KNodes(a + b) == KNodes(a) + KNodes(b)
  {
    hide Nodes;
    if a == [] {
      assert a + b == b;
    } else {
      KNodesJoin(a[1..], b);
      assert (a + b)[1..] == a[1..] + b && (a + b)[0] == a[0];
      MAssoc(Nodes(a[0]), KNodes(a[1..]), KNodes(b));
    }
  }

  lemma MAssoc<N>(a: multiset<N>, b: multiset<N>, c: multiset<N>)
    ensures (a + b) + c == a + (b + c)
  {
  }

  lemma KNodesSplit<N>(l: seq<Tree<N>>, t: Tree<N>, r: seq<Tree<N>>)
    ensures KNodes(l + [t] + r) == KNodes(l) + Nodes(t) + KNodes(r)
  {
    KNodesJoin(l + [t], r);
    KNodesJoin(l, [t]);
    assert KNodes([t]) == Nodes(t);
  }

  lemma KNodesAt<N>(kids: seq<Tree<N>>, i: nat)
    requires i < |kids|
    ensures KNodes(kids) == KNodes(kids[..i]) + Nodes(kids[i]) + KNodes(kids[i + 1..])
  {
    hide KNodes, Nodes;
    KNodesSplit(kids[..i], kids[i], kids[i + 1..]);
    assert kids[..i] + [kids[i]] + kids[i + 1..] == kids;
  }

  /** The nodes realise the tree, whose root has parent p. */
  ghost predicate Rep<N>(V: map<N, Val<N>>, t: Tree<N>, p: Option<N>)
    decreases t
  {
    t.Node? ==>
      && t.n in V && V[t.n] == Val(t.items, Roots(t.kids), p)
      && forall i :: 0 <= i < |t.kids| ==> Rep(V, t.kids[i], Some(t.n))
  }

  ghost predicate KRep<N>(V: map<N, Val<N>>, kids: seq<Tree<N>>, p: Option<N>) {
    forall i :: 0 <= i < |kids| ==> Rep(V, kids[i], p)
  }

  /** The nodes realise the surroundings of a subtree with this root. */
  ghost predicate CRep<N>(V: map<N, Val<N>>, c: Ctx<N>, hole: Option<N>, root: Option<N>)
    decreases c
  {
    if c.Top? then hole == root
    else
      && c.n in V && V[c.n] == Val(c.items, Roots(c.left) + [hole] + Roots(c.right), Up(c.up))
      && KRep(V, c.left, Some(c.n)) && KRep(V, c.right, Some(c.n))
      && CRep(V, c.up, Some(c.n), root)
  }

  ghost predicate Linked<N>(V: map<N, Val<N>>, root: Option<N>, c: Ctx<N>, t: Tree<N>) {
    CRep(V, c, Root(t), root) && Rep(V, t, Up(c)) && Once(CNodes(c) + Nodes(t))
  }

  /** Every node of a linked tree has its values. */
  lemma {:induction false} RepIn<N>(V: map<N, Val<N>>, t: Tree<N>, p: Option<N>)
    requires Rep(V, t, p)
    ensures forall x :: x in Nodes(t) ==> x in V
    decreases t
  {
    if t.Node? {
      KRepIn(V, t.kids, Some(t.n));
    }
  }

  lemma {:induction false} KRepIn<N>(V: map<N, Val<N>>, kids: seq<Tree<N>>, p: Option<N>)
    requires KRep(V, kids, p)
    ensures forall x :: x in KNodes(kids) ==> x in V
    decreases kids
  {
    if kids != [] {
      RepIn(V, kids[0], p);
      KRepIn(V, kids[1..], p);
    }
  }

  lemma {:induction false} CRepIn<N>(V: map<N, Val<N>>, c: Ctx<N>, hole: Option<N>, root: Option<N>)
    requires CRep(V, c, hole, root)
    ensures forall x :: x in CNodes(c) ==> x in V
    decreases c
  {
    if c.In? {
      KRepIn(V, c.left, Some(c.n));
      KRepIn(V, c.right, Some(c.n));
      CRepIn(V, c.up, Some(c.n), root);
    }
  }

  lemma AllNodesIn<N>(V: map<N, Val<N>>, root: Option<N>, c: Ctx<N>, t: Tree<N>)
    requires Linked(V, root, c, t)
    ensures forall x :: x in CNodes(c) + Nodes(t) ==> x in V
  {
    CRepIn(V, c, Root(t), root);
    RepIn(V, t, Up(c));
  }

  // ----- walking

  lemma RootsSplit<N>(l: seq<Tree<N>>, t: Tree<N>, r: seq<Tree<N>>)
    ensures Roots(l + [t] + r) == Roots(l) + [Root(t)] + Roots(r)
  {
  }

  lemma RootsSlice<N>(kids: seq<Tree<N>>, i: nat)
    requires i <= |kids|
    ensures Roots(kids)[..i] == Roots(kids[..i]) && Roots(kids)[i..] == Roots(kids[i..])
  {
  }

  /** A new node behind the child with index |l|, seen from the parent. */
  lemma RootsIns<N>(l: seq<Tree<N>>, t: Tree<N>, r: seq<Tree<N>>, x: Tree<N>, y: Tree<N>)
    requires Root(t) == Root(x)
    ensures Ins(Roots(l + [t] + r), |l| + 1, Root(y)) == Roots(l + [x, y] + r)
  {
  }

  lemma Regroup<N>(n: multiset<N>, l: multiset<N>, t: multiset<N>, r: multiset<N>, u: multiset<N>)
    ensures (n + l + r + u) + t == u + (n + (l + t + r))
  {
  }

  /** A parent and its child, seen from the child or from the parent. */
  lemma JoinSplit<N>(V: map<N, Val<N>>, root: Option<N>, c: Ctx<N>, t: Tree<N>)
    requires c.In?
    ensures Linked(V, root, c, t) <==> Linked(V, root, c.up, Join(c, t))
  {
    var j := Join(c, t);
    KNodesSplit(c.left, t, c.right);
    RootsSplit(c.left, t, c.right);
    Regroup(multiset{c.n}, KNodes(c.left), Nodes(t), KNodes(c.right), CNodes(c.up));
    KRepSplit(V, c.left, t, c.right, Some(c.n));
  }

  lemma KRepSplit<N>(V: map<N, Val<N>>, l: seq<Tree<N>>, t: Tree<N>, r: seq<Tree<N>>, p: Option<N>)
    ensures KRep(V, l + [t] + r, p) <==> KRep(V, l, p) && Rep(V, t, p) && KRep(V, r, p)
  {
    var s := l + [t] + r;
    assert s[|l|] == t;
    assert forall i :: 0 <= i < |l| ==> s[i] == l[i];
    assert forall i :: 0 <= i < |r| ==> s[|l| + 1 + i] == r[i];
    assert forall i :: |l| < i < |s| ==> s[i] == r[i - |l| - 1];
  }

  lemma LinkedInto<N>(V: map<N, Val<N>>, root: Option<N>, c: Ctx<N>, t: Tree<N>, i: nat)
    requires Linked(V, root, c, t) && t.Node? && i < |t.kids|
    ensures Linked(V, root, Into(c, t, i), t.kids[i])
    ensures t.n in V && V[t.n].kids == Roots(t.kids)
  {
    JoinInto(c, t, i);
    JoinSplit(V, root, Into(c, t, i), t.kids[i]);
  }

  lemma {:induction false} LinkedPlug<N>(V: map<N, Val<N>>, root: Option<N>, c: Ctx<N>, t: Tree<N>)
    ensures Linked(V, root, c, t) <==> Linked(V, root, Top, Plug(c, t))
    decreases c
  {
    if c.In? {
      JoinSplit(V, root, c, t);
      LinkedPlug(V, root, c.up, Join(c, t));
    }
  }

  lemma {:induction false} LinkedAppend<N>(V: map<N, Val<N>>, root: Option<N>, inner: Ctx<N>, outer: Ctx<N>, t: Tree<N>)
    requires Linked(V, root, outer, Plug(inner, t))
    ensures Linked(V, root, Append(inner, outer), t)
    decreases inner
  {
    if inner.In? {
      var j := Join(inner, t);
      LinkedAppend(V, root, inner.up, outer, j);
      JoinSplit(V, root, Append(inner, outer), t);
    }
  }

  /** A new root above the old one. */
  lemma RootGrown<N>(V: map<N, Val<N>>, t: Tree<N>, p: N)
    requires Linked(V, Root(t), Top, t) && t.Node? && p !in V
    ensures t.n in V && V[t.n].parent == None
    ensures var V' := V[p := Val([], [Root(t)], None)][t.n := V[t.n].(parent := Some(p))];
      Linked(V', Some(p), In(p, [], [], [], Top), t)
  {
    var V' := V[p := Val([], [Root(t)], None)][t.n := V[t.n].(parent := Some(p))];
    var c := In(p, [], [], [], Top);
    RepIn(V, t, None);
    OnceLess(CNodes<N>(Top), t.n, KNodes(t.kids), KNodes(t.kids));
    KRepSame(V, V', t.kids, Some(t.n));
    assert Roots<N>([]) + [Root(t)] + Roots<N>([]) == [Root(t)];
    assert Rep(V', t, Some(p));
    assert CRep(V', c, Root(t), Some(p));
    assert CNodes<N>(Top) + Nodes(t) == Nodes(t);
    assert CNodes(c) + Nodes(t) == multiset{p} + Nodes(t);
  }

  // ----- changing nodes

  /** The two maps say the same of these nodes. */
  ghost predicate Same<N>(V: map<N, Val<N>>, V': map<N, Val<N>>, s: multiset<N>) {
    forall x :: x in s && x in V ==> x in V' && V'[x] == V[x]
  }

  lemma {:induction false} RepSame<N>(V: map<N, Val<N>>, V': map<N, Val<N>>, t: Tree<N>, p: Option<N>)
    requires Rep(V, t, p) && Same(V, V', Nodes(t))
    ensures Rep(V', t, p)
    decreases t
  {
    if t.Node? {
      forall i | 0 <= i < |t.kids| ensures Rep(V', t.kids[i], Some(t.n)) {
        KNodesAt(t.kids, i);
        RepSame(V, V', t.kids[i], Some(t.n));
      }
    }
  }

  lemma KRepSame<N>(V: map<N, Val<N>>, V': map<N, Val<N>>, kids: seq<Tree<N>>, p: Option<N>)
    requires KRep(V, kids, p) && Same(V, V', KNodes(kids))
    ensures KRep(V', kids, p)
  {
    forall i | 0 <= i < |kids| ensures Rep(V', kids[i], p) {
      KNodesAt(kids, i);
      RepSame(V, V', kids[i], p);
    }
  }

  lemma {:induction false} CRepSame<N>(V: map<N, Val<N>>, V': map<N, Val<N>>, c: Ctx<N>, hole: Option<N>,
      root: Option<N>)
    requires CRep(V, c, hole, root) && Same(V, V', CNodes(c))
    ensures CRep(V', c, hole, root)
    decreases c
  {
    if c.In? {
      KRepSame(V, V', c.left, Some(c.n));
      KRepSame(V, V', c.right, Some(c.n));
      CRepSame(V, V', c.up, Some(c.n), root);
    }
  }

  /** The subtree at the hole is rebuilt in place; nothing outside it changes. */
  lemma Rebuilt<N>(V: map<N, Val<N>>, V': map<N, Val<N>>, root: Option<N>, c: Ctx<N>, t: Tree<N>, t': Tree<N>)
    requires Linked(V, root, c, t) && Same(V, V', CNodes(c))
    requires Root(t') == Root(t) && Rep(V', t', Up(c)) && Once(CNodes(c) + Nodes(t'))
    ensures Linked(V', root, c, t')
  {
    CRepSame(V, V', c, Root(t), root);
  }

  /** The nodes named get the parent p. */
  ghost function Adopt<N>(V: map<N, Val<N>>, ks: seq<Option<N>>, p: Option<N>): map<N, Val<N>> {
    map x | x in V :: if Some(x) in ks then V[x].(parent := p) else V[x]
  }

  lemma AdoptNone<N>(V: map<N, Val<N>>, p: Option<N>)
    ensures Adopt(V, [], p) == V
  {
  }

  lemma AdoptStep<N>(V: map<N, Val<N>>, ks: seq<Option<N>>, i: nat, p: Option<N>)
    requires i < |ks|
    ensures ks[i].None? ==> Adopt(V, ks[..i + 1], p) == Adopt(V, ks[..i], p)
    ensures ks[i].Some? && ks[i].value in V ==>
      Adopt(V, ks[..i + 1], p) == Adopt(V, ks[..i], p)[ks[i].value := Adopt(V, ks[..i], p)[ks[i].value].(parent := p)]
  {
    assert forall k :: k in ks[..i + 1] <==> k in ks[..i] || k == ks[i];
  }

  lemma {:induction false} RootsIn<N>(kids: seq<Tree<N>>, x: N)
    requires Some(x) in Roots(kids)
    ensures x in KNodes(kids)
  {
    var i :| 0 <= i < |kids| && Root(kids[i]) == Some(x);
    KNodesAt(kids, i);
  }

  lemma AdoptRep<N>(V: map<N, Val<N>>, kids: seq<Tree<N>>, q: Option<N>, p: Option<N>)
    requires KRep(V, kids, q) && Once(KNodes(kids))
    ensures KRep(Adopt(V, Roots(kids), p), kids, p)
  {
    forall i | 0 <= i < |kids| ensures Rep(Adopt(V, Roots(kids), p), kids[i], p) {
      RepAdopted(V, kids, i, q, p);
    }
  }

  lemma RepAdopted<N>(V: map<N, Val<N>>, kids: seq<Tree<N>>, i: nat, q: Option<N>, p: Option<N>)
    requires KRep(V, kids, q) && Once(KNodes(kids)) && i < |kids|
    ensures Rep(Adopt(V, Roots(kids), p), kids[i], p)
  {
    var V' := Adopt(V, Roots(kids), p);
    var t := kids[i];
    if t.Node? {
      assert Roots(kids)[i] == Some(t.n);
      RootsOnce(kids, i);
      assert Same(V, V', KNodes(t.kids));
      KRepSame(V, V', t.kids, Some(t.n));
    }
  }

  /** Up to three nodes and the parents of some change; these nodes do not. */
  ghost function Change<N>(V: map<N, Val<N>>, a: N, va: Val<N>, b: N, vb: Val<N>, p: N, vp: Val<N>,
      ks: seq<Option<N>>, q: Option<N>): map<N, Val<N>> {
    Adopt(V[a := va][b := vb][p := vp], ks, q)
  }

  ghost predicate Clear<N>(s: multiset<N>, a: N, b: N, p: N, ks: seq<Option<N>>) {
    a !in s && b !in s && p !in s && forall x :: x in s ==> Some(x) !in ks
  }

  lemma ChangeSame<N>(V: map<N, Val<N>>, a: N, va: Val<N>, b: N, vb: Val<N>, p: N, vp: Val<N>,
      ks: seq<Option<N>>, q: Option<N>, s: multiset<N>)
    requires Clear(s, a, b, p, ks)
    ensures Same(V, Change(V, a, va, b, vb, p, vp, ks, q), s)
  {
  }

  /** A node rebuilt between unchanged surroundings: some neighbouring children give way to others. */
  lemma Family<N>(V: map<N, Val<N>>, V': map<N, Val<N>>, root: Option<N>, u: Ctx<N>, p: N,
      items: seq<Data>, items': seq<Data>, l: seq<Tree<N>>, mids: seq<Tree<N>>, mids': seq<Tree<N>>, r: seq<Tree<N>>)
    requires Linked(V, root, u, Node(p, items, l + mids + r))
    requires Same(V, V', CNodes(u)) && Same(V, V', KNodes(l)) && Same(V, V', KNodes(r))
    requires p in V' && V'[p] == Val(items', Roots(l + mids' + r), Up(u)) && KRep(V', mids', Some(p))
    requires Once(CNodes(u) + (multiset{p} + (KNodes(l) + KNodes(mids') + KNodes(r))))
    ensures Linked(V', root, u, Node(p, items', l + mids' + r))
  {
    hide CRep;
    var t, t' := Node(p, items, l + mids + r), Node(p, items', l + mids' + r);
    KRepJoin(V, l + mids, r, Some(p));
    KRepJoin(V, l, mids, Some(p));
    KRepSame(V, V', l, Some(p));
    KRepSame(V, V', r, Some(p));
    KRepJoin(V', l, mids', Some(p));
    KRepJoin(V', l + mids', r, Some(p));
    KNodesJoin(l, mids');
    KNodesJoin(l + mids', r);
    Rebuilt(V, V', root, u, t, t');
  }

  lemma KRepJoin<N>(V: map<N, Val<N>>, a: seq<Tree<N>>, b: seq<Tree<N>>, p: Option<N>)
    ensures KRep(V, a + b, p) <==> KRep(V, a, p) && KRep(V, b, p)
  {
    var s := a + b;
    assert forall i :: 0 <= i < |a| ==> s[i] == a[i];
    assert forall i :: 0 <= i < |b| ==> s[|a| + i] == b[i];
    assert forall i :: |a| <= i < |s| ==> s[i] == b[i - |a|];
  }

  lemma OnceLess<N>(u: multiset<N>, n: N, k: multiset<N>, k': multiset<N>)
    requires Once(u + (multiset{n} + k)) && k' <= k
    ensures Once(u + (multiset{n} + k')) && n !in k' && n !in u
  {
    assert (u + (multiset{n} + k))[n] <= 1;
    forall x | x in u + (multiset{n} + k') ensures (u + (multiset{n} + k'))[x] == 1 {
      assert k'[x] <= k[x];
      assert x in u + (multiset{n} + k);
    }
  }

  lemma KRepIs<N>(V: map<N, Val<N>>, kids: seq<Tree<N>>, p: Option<N>)
    ensures KRep(V, kids, p) <==> forall i :: 0 <= i < |kids| ==> Rep(V, kids[i], p)
  {
  }

  /** One node gets other items; its children stay, or fewer of them. */
  lemma SetNode<N>(V: map<N, Val<N>>, root: Option<N>, c: Ctx<N>, t: Tree<N>, items: seq<Data>, kids: seq<Tree<N>>)
    requires Linked(V, root, c, t) && t.Node?
    requires KRep(V, kids, Some(t.n)) && KNodes(kids) <= KNodes(t.kids)
    ensures Linked(V[t.n := Val(items, Roots(kids), Up(c))], root, c, Node(t.n, items, kids))
  {
    hide CRep, KRep;
    var V' := V[t.n := Val(items, Roots(kids), Up(c))];
    OnceLess(CNodes(c), t.n, KNodes(t.kids), KNodes(kids));
    KRepSame(V, V', kids, Some(t.n));
    assert KRep(V', kids, Some(t.n)) ==> Rep(V', Node(t.n, items, kids), Up(c)) by { KRepIs(V', kids, Some(t.n)); }
    Rebuilt(V, V', root, c, t, Node(t.n, items, kids));
  }

  /** Two children have no node in common. */
  lemma TwoKids<N>(kids: seq<Tree<N>>, i: nat, j: nat)
    requires i < |kids| && j < |kids| && i != j
    ensures Nodes(kids[i]) + Nodes(kids[j]) <= KNodes(kids)
  {
    hide Nodes, KNodes;
    KNodesAt(kids, i);
    if j < i {
      KNodesAt(kids[..i], j);
    } else {
      KNodesAt(kids[i + 1..], j - i - 1);
    }
  }

  /** A node below the root of one child is not the root of any. */
  lemma RootsOnce<N>(kids: seq<Tree<N>>, i: nat)
    requires Once(KNodes(kids)) && i < |kids| && kids[i].Node?
    ensures forall x, j :: x in KNodes(kids[i].kids) && 0 <= j < |kids| ==> Root(kids[j]) != Some(x)
  {
    forall x, j | x in KNodes(kids[i].kids) && 0 <= j < |kids| ensures Root(kids[j]) != Some(x) {
      if i != j {
        TwoKids(kids, i, j);
      } else {
        KNodesAt(kids, i);
      }
      assert KNodes(kids)[x] <= 1;
    }
  }

  // ----- splitting, merging, borrowing

  lemma KNodesTwo<N>(x: Tree<N>, y: Tree<N>)
    ensures KNodes([x, y]) == Nodes(x) + Nodes(y)
  {
    assert [x, y][1..] == [y] && KNodes([y]) == Nodes(y);
  }

  lemma KNodesOne<N>(x: Tree<N>)
    ensures KNodes([x]) == Nodes(x)
  {
  }

  /** Parts of a multiset without repetition have nothing in common. */
  lemma OnceParts<N>(s: multiset<N>, a: multiset<N>, b: multiset<N>)
    requires Once(s) && a + b <= s
    ensures Once(a) && Once(b) && forall x :: x in a ==> x !in b
  {
    forall x | x in a ensures x !in b && a[x] == 1 {
      assert (a + b)[x] <= s[x];
      assert x in s;
    }
    forall x | x in b ensures b[x] == 1 {
      assert (a + b)[x] <= s[x];
      assert x in s;
    }
  }

  /** The roots of some children stay clear of nodes elsewhere. */
  lemma RootsClear<N>(kids: seq<Tree<N>>, s: multiset<N>)
    requires forall x :: x in s ==> x !in KNodes(kids)
    ensures forall x :: x in s ==> Some(x) !in Roots(kids)
  {
    forall x | x in s ensures Some(x) !in Roots(kids) {
      if Some(x) in Roots(kids) { RootsIn(kids, x); }
    }
  }

  /** Everything around the neighbours `mids`. */
  ghost function Rim<N>(u: Ctx<N>, p: N, l: seq<Tree<N>>, r: seq<Tree<N>>): multiset<N> {
    CNodes(u) + multiset{p} + KNodes(l) + KNodes(r)
  }

  lemma RimTotal<N>(u: Ctx<N>, p: N, items: seq<Data>, l: seq<Tree<N>>, mids: seq<Tree<N>>, r: seq<Tree<N>>)
    ensures CNodes(u) + Nodes(Node(p, items, l + mids + r)) == Rim(u, p, l, r) + KNodes(mids)
  {
    KNodesJoin(l, mids);
    KNodesJoin(l + mids, r);
    RimRegroup(CNodes(u), multiset{p}, KNodes(l), KNodes(mids), KNodes(r));
  }

  lemma RimRegroup<N>(u: multiset<N>, p: multiset<N>, l: multiset<N>, k: multiset<N>, r: multiset<N>)
    ensures u + (p + (l + k + r)) == (u + p + l + r) + k
  {
  }

  /** Neighbouring children `mids` of node p give way to `mids'`.  Nodes n and o are among them (or
      new), and so are the children that get another parent. */
  lemma Renew<N>(V: map<N, Val<N>>, root: Option<N>, u: Ctx<N>, p: N, items: seq<Data>, items': seq<Data>,
      l: seq<Tree<N>>, mids: seq<Tree<N>>, mids': seq<Tree<N>>, r: seq<Tree<N>>,
      n: N, va: Val<N>, o: N, vb: Val<N>, adopted: seq<Tree<N>>, q: Option<N>)
    requires Linked(V, root, u, Node(p, items, l + mids + r))
    requires n in KNodes(mids) && o !in Rim(u, p, l, r) && KNodes(adopted) <= KNodes(mids)
    requires Once(Rim(u, p, l, r) + KNodes(mids'))
    requires var V' := Change(V, n, va, o, vb, p, Val(items', Roots(l + mids' + r), Up(u)), Roots(adopted), q);
      KRep(V', mids', Some(p))
    ensures var V' := Change(V, n, va, o, vb, p, Val(items', Roots(l + mids' + r), Up(u)), Roots(adopted), q);
      Linked(V', root, u, Node(p, items', l + mids' + r))
  {
    hide CRep, KRep, Nodes, KNodes, CNodes, Same, Roots, Change, Rim, Once;
    var vp := Val(items', Roots(l + mids' + r), Up(u));
    var V' := Change(V, n, va, o, vb, p, vp, Roots(adopted), q);
    RimTotal(u, p, items, l, mids, r);
    OnceRim(u, p, l, mids', r);
    RimClear(u, p, l, r, KNodes(mids), n, o, adopted);
    ChangeSame(V, n, va, o, vb, p, vp, Roots(adopted), q, CNodes(u));
    ChangeSame(V, n, va, o, vb, p, vp, Roots(adopted), q, KNodes(l));
    ChangeSame(V, n, va, o, vb, p, vp, Roots(adopted), q, KNodes(r));
    ChangeAt(V, n, va, o, vb, p, vp, Roots(adopted), q);
    Family(V, V', root, u, p, items, items', l, mids, mids', r);
  }

  lemma ChangeAt<N>(V: map<N, Val<N>>, a: N, va: Val<N>, b: N, vb: Val<N>, p: N, vp: Val<N>,
      ks: seq<Option<N>>, q: Option<N>)
    requires Some(p) !in ks
    ensures var V' := Change(V, a, va, b, vb, p, vp, ks, q); p in V' && V'[p] == vp
  {
  }

  lemma OnceRim<N>(u: Ctx<N>, p: N, l: seq<Tree<N>>, mids: seq<Tree<N>>, r: seq<Tree<N>>)
    requires Once(Rim(u, p, l, r) + KNodes(mids))
    ensures Once(CNodes(u) + (multiset{p} + (KNodes(l) + KNodes(mids) + KNodes(r))))
  {
    hide KNodes, CNodes;
    RimRegroup(CNodes(u), multiset{p}, KNodes(l), KNodes(mids), KNodes(r));
  }

  lemma RimClear<N>(u: Ctx<N>, p: N, l: seq<Tree<N>>, r: seq<Tree<N>>, k: multiset<N>, n: N, o: N,
      adopted: seq<Tree<N>>)
    requires Once(Rim(u, p, l, r) + k) && n in k && o !in Rim(u, p, l, r) && KNodes(adopted) <= k
    ensures Clear(CNodes(u), n, o, p, Roots(adopted))
    ensures Clear(KNodes(l), n, o, p, Roots(adopted)) && Clear(KNodes(r), n, o, p, Roots(adopted))
    ensures Some(p) !in Roots(adopted)
  {
    hide KNodes, CNodes, Roots;
    var rim := Rim(u, p, l, r);
    OnceParts(rim + k, rim, k);
    assert p in rim;
    OnceParts(rim, multiset{p}, CNodes(u));
    OnceParts(rim, multiset{p}, KNodes(l));
    OnceParts(rim, multiset{p}, KNodes(r));
    RootsClear(adopted, rim);
  }

  lemma Kept<N>(V: map<N, Val<N>>, a: N, va: Val<N>, b: N, vb: Val<N>, p: N, vp: Val<N>,
      ks: seq<Option<N>>, q: Option<N>, kids: seq<Tree<N>>, s: Option<N>)
    requires KRep(V, kids, s) && Clear(KNodes(kids), a, b, p, ks)
    ensures KRep(Change(V, a, va, b, vb, p, vp, ks, q), kids, s)
  {
    ChangeSame(V, a, va, b, vb, p, vp, ks, q, KNodes(kids));
    KRepSame(V, Change(V, a, va, b, vb, p, vp, ks, q), kids, s);
  }

  lemma Moved<N>(V: map<N, Val<N>>, a: N, va: Val<N>, b: N, vb: Val<N>, p: N, vp: Val<N>,
      kids: seq<Tree<N>>, s: Option<N>, q: Option<N>)
    requires KRep(V, kids, s) && Once(KNodes(kids)) && a !in KNodes(kids) && b !in KNodes(kids) && p !in KNodes(kids)
    ensures KRep(Change(V, a, va, b, vb, p, vp, Roots(kids), q), kids, q)
  {
    var W := V[a := va][b := vb][p := vp];
    KRepSame(V, W, kids, s);
    AdoptRep(W, kids, s, q);
  }

  /** The values of the changed nodes themselves. */
  lemma Changed<N>(V: map<N, Val<N>>, a: N, va: Val<N>, b: N, vb: Val<N>, p: N, vp: Val<N>,
      ks: seq<Option<N>>, q: Option<N>)
    requires Some(a) !in ks && Some(b) !in ks && p !in {a, b}
    ensures var V' := Change(V, a, va, b, vb, p, vp, ks, q);
      a in V' && b in V' && V'[b] == vb && (a != b ==> V'[a] == va)
  {
  }

  lemma KRepTwo<N>(V: map<N, Val<N>>, x: Tree<N>, y: Tree<N>, p: Option<N>)
    requires Rep(V, x, p) && Rep(V, y, p)
    ensures KRep(V, [x, y], p)
  {
  }

  /** t = a m b with children x y is cut at m; the new node o takes the right part, and the parent
      takes m between the two. */
  lemma SplitLinked<N>(V: map<N, Val<N>>, root: Option<N>, u: Ctx<N>, p: N, items: seq<Data>, items': seq<Data>,
      l: seq<Tree<N>>, t: Tree<N>, r: seq<Tree<N>>, o: N, a: seq<Data>, b: seq<Data>, x: seq<Tree<N>>, y: seq<Tree<N>>)
    requires t.Node? && t.kids == x + y
    requires Linked(V, root, u, Node(p, items, l + [t] + r))
    requires o !in CNodes(u) + Nodes(Node(p, items, l + [t] + r))
    ensures var mids' := [Node(t.n, a, x), Node(o, b, y)];
      var V' := Change(V, t.n, Val(a, Roots(x), Some(p)), o, Val(b, Roots(y), Some(p)),
        p, Val(items', Roots(l + mids' + r), Up(u)), Roots(y), Some(o));
      Linked(V', root, u, Node(p, items', l + mids' + r))
  {
    var L, R := Node(t.n, a, x), Node(o, b, y);
    var mids' := [L, R];
    var va, vb, vp := Val(a, Roots(x), Some(p)), Val(b, Roots(y), Some(p)), Val(items', Roots(l + mids' + r), Up(u));
    RimTotal(u, p, items, l, [t], r);
    SplitOnce(Rim(u, p, l, r), p, t, o, x, y);
    KRepSplit(V, l, t, r, Some(p));
    KRepJoin(V, x, y, Some(t.n));
    RootsClear(y, multiset{t.n});
    RootsClear(y, multiset{o});
    RootsClear(y, KNodes(x));
    Kept(V, t.n, va, o, vb, p, vp, Roots(y), Some(o), x, Some(t.n));
    Moved(V, t.n, va, o, vb, p, vp, y, Some(t.n), Some(o));
    Changed(V, t.n, va, o, vb, p, vp, Roots(y), Some(o));
    var V' := Change(V, t.n, va, o, vb, p, vp, Roots(y), Some(o));
    KRepTwo(V', L, R, Some(p));
    KNodesTwo(L, R);
    KNodesOne(t);
    Renew(V, root, u, p, items, items', l, [t], mids', r, t.n, va, o, vb, y, Some(o));
  }

  lemma SplitOnce<N>(rim: multiset<N>, p: N, t: Tree<N>, o: N, x: seq<Tree<N>>, y: seq<Tree<N>>)
    requires t.Node? && t.kids == x + y && p in rim && Once(rim + KNodes([t])) && o !in rim + KNodes([t])
    ensures t.n != p && o != p && o != t.n
    ensures forall z :: z in KNodes(x) ==> z !in {t.n, o, p} && z !in KNodes(y)
    ensures forall z :: z in KNodes(y) ==> z !in {t.n, o, p}
    ensures Once(KNodes(y)) && KNodes(y) <= KNodes([t]) && t.n in KNodes([t])
    ensures Once(rim + (multiset{t.n} + KNodes(x) + (multiset{o} + KNodes(y))))
  {
    KNodesOne(t);
    KNodesJoin(x, y);
    SplitOnceSets(rim, p, t.n, o, KNodes(x), KNodes(y));
  }

  lemma SplitOnceSets<N>(rim: multiset<N>, p: N, n: N, o: N, x: multiset<N>, y: multiset<N>)
    requires var s := rim + (multiset{n} + (x + y)); p in rim && Once(s) && o !in s
    ensures n != p && o != p && o != n
    ensures forall z :: z in x ==> z !in {n, o, p} && z !in y
    ensures forall z :: z in y ==> z !in {n, o, p}
    ensures Once(y)
    ensures Once(rim + (multiset{n} + x + (multiset{o} + y)))
  {
    var s := rim + (multiset{n} + (x + y));
    OnceParts(s, rim, multiset{n} + (x + y));
    OnceParts(multiset{n} + (x + y), multiset{n}, x + y);
    OnceParts(x + y, x, y);
    assert rim + (multiset{n} + x + (multiset{o} + y)) == s + multiset{o};
  }

  /** Neighbours n and o become one: n takes the children of o, and the parent loses o. */
  lemma MergeLinked<N>(V: map<N, Val<N>>, root: Option<N>, u: Ctx<N>, p: N, items: seq<Data>, items': seq<Data>,
      l: seq<Tree<N>>, t: Tree<N>, w: Tree<N>, r: seq<Tree<N>>, a: seq<Data>)
    requires t.Node? && w.Node?
    requires Linked(V, root, u, Node(p, items, l + [t, w] + r))
    ensures var mids' := [Node(t.n, a, t.kids + w.kids)];
      var va := Val(a, Roots(t.kids + w.kids), Some(p));
      var V' := Change(V, t.n, va, t.n, va, p, Val(items', Roots(l + mids' + r), Up(u)), Roots(w.kids), Some(t.n));
      Linked(V', root, u, Node(p, items', l + mids' + r))
  {
    hide CRep, Change, Roots, KNodes;
    var x, y := t.kids, w.kids;
    var M := Node(t.n, a, x + y);
    var va, vp := Val(a, Roots(x + y), Some(p)), Val(items', Roots(l + [M] + r), Up(u));
    RimTotal(u, p, items, l, [t, w], r);
    KNodesTwo(t, w);
    KNodesOne(M);
    KNodesJoin(x, y);
    MergeOnceSets(Rim(u, p, l, r), p, t.n, KNodes(x), w.n, KNodes(y));
    MidsRep(V, root, u, p, items, l, t, w, r);
    RootsClear(y, multiset{t.n});
    RootsClear(y, KNodes(x));
    Kept(V, t.n, va, t.n, va, p, vp, Roots(y), Some(t.n), x, Some(t.n));
    Moved(V, t.n, va, t.n, va, p, vp, y, Some(w.n), Some(t.n));
    Changed(V, t.n, va, t.n, va, p, vp, Roots(y), Some(t.n));
    var V' := Change(V, t.n, va, t.n, va, p, vp, Roots(y), Some(t.n));
    KRepJoin(V', x, y, Some(t.n));
    Renew(V, root, u, p, items, items', l, [t, w], [M], r, t.n, va, t.n, va, y, Some(t.n));
  }

  lemma MidsRep<N>(V: map<N, Val<N>>, root: Option<N>, u: Ctx<N>, p: N, items: seq<Data>,
      l: seq<Tree<N>>, x: Tree<N>, y: Tree<N>, r: seq<Tree<N>>)
    requires Linked(V, root, u, Node(p, items, l + [x, y] + r)) && x.Node? && y.Node?
    ensures Rep(V, x, Some(p)) && Rep(V, y, Some(p))
    ensures KRep(V, x.kids, Some(x.n)) && KRep(V, y.kids, Some(y.n))
  {
    KRepJoin(V, l + [x, y], r, Some(p));
    KRepJoin(V, l, [x, y], Some(p));
    assert [x, y][0] == x && [x, y][1] == y;
  }

  lemma MergeOnceSets<N>(rim: multiset<N>, p: N, n: N, x: multiset<N>, o: N, y: multiset<N>)
    requires var s := rim + ((multiset{n} + x) + (multiset{o} + y)); p in rim && Once(s)
    ensures n != p && n != o && o != p && n !in rim && o !in rim
    ensures forall z :: z in x ==> z !in {n, o, p} && z !in y
    ensures forall z :: z in y ==> z !in {n, o, p}
    ensures Once(y) && Once(rim + (multiset{n} + (x + y)))
  {
    var s := rim + ((multiset{n} + x) + (multiset{o} + y));
    OnceParts(s, rim, multiset{n} + multiset{o});
    OnceParts(s, rim, x);
    OnceParts(s, rim, y);
    OnceParts(s, x, multiset{n} + multiset{o});
    OnceParts(s, y, multiset{n} + multiset{o});
    OnceParts(s, x, y);
    OnceParts(s, multiset{n}, multiset{o});
    OnceParts(s, rim + (multiset{n} + (x + y)), multiset{o});
    assert n in multiset{n} + multiset{o} && o in multiset{n} + multiset{o};
  }

  /** One child z changes sides between the neighbours n (children x) and o (children y). */
  lemma BorrowLinked<N>(V: map<N, Val<N>>, root: Option<N>, u: Ctx<N>, p: N, items: seq<Data>, items': seq<Data>,
      l: seq<Tree<N>>, t: Tree<N>, w: Tree<N>, r: seq<Tree<N>>,
      a: seq<Data>, b: seq<Data>, x: seq<Tree<N>>, z: Tree<N>, y: seq<Tree<N>>, toRight: bool)
    requires t.Node? && w.Node?
    requires t.kids == (if toRight then x + [z] else x) && w.kids == (if toRight then y else [z] + y)
    requires Linked(V, root, u, Node(p, items, l + [t, w] + r))
    ensures var x', y' := if toRight then x else x + [z], if toRight then [z] + y else y;
      var mids' := [Node(t.n, a, x'), Node(w.n, b, y')];
      var V' := Change(V, t.n, Val(a, Roots(x'), Some(p)), w.n, Val(b, Roots(y'), Some(p)),
        p, Val(items', Roots(l + mids' + r), Up(u)), Roots([z]), Some(if toRight then w.n else t.n));
      Linked(V', root, u, Node(p, items', l + mids' + r))
  {
    hide CRep, Change, Roots, KNodes;
    var n, o := t.n, w.n;
    var x', y' := if toRight then x else x + [z], if toRight then [z] + y else y;
    var L, R := Node(n, a, x'), Node(o, b, y');
    var q := Some(if toRight then o else n);
    var s := Some(if toRight then n else o);
    var va, vb, vp := Val(a, Roots(x'), Some(p)), Val(b, Roots(y'), Some(p)), Val(items', Roots(l + [L, R] + r), Up(u));
    RimTotal(u, p, items, l, [t, w], r);
    BorrowOnce(Rim(u, p, l, r), p, t, w, L, R, x, z, y, toRight);
    MidsRep(V, root, u, p, items, l, t, w, r);
    KRepJoin(V, x, [z], Some(n));
    KRepJoin(V, [z], y, Some(o));
    Shifted(V, n, va, o, vb, p, vp, x, z, y, s, q);
    var V' := Change(V, n, va, o, vb, p, vp, Roots([z]), q);
    KRepJoin(V', x, [z], Some(n));
    KRepJoin(V', [z], y, Some(o));
    KRepTwo(V', L, R, Some(p));
    Renew(V, root, u, p, items, items', l, [t, w], [L, R], r, n, va, o, vb, [z], q);
  }

  lemma Shifted<N>(V: map<N, Val<N>>, n: N, va: Val<N>, o: N, vb: Val<N>, p: N, vp: Val<N>,
      x: seq<Tree<N>>, z: Tree<N>, y: seq<Tree<N>>, s: Option<N>, q: Option<N>)
    requires KRep(V, x, Some(n)) && KRep(V, [z], s) && KRep(V, y, Some(o))
    requires n != o && p !in {n, o} && Once(KNodes([z]))
    requires forall k :: k in KNodes(x) ==> k !in {n, o, p} && k !in KNodes([z])
    requires forall k :: k in KNodes(y) ==> k !in {n, o, p} && k !in KNodes([z])
    requires forall k :: k in KNodes([z]) ==> k !in {n, o, p}
    ensures var V' := Change(V, n, va, o, vb, p, vp, Roots([z]), q);
      && KRep(V', x, Some(n)) && KRep(V', [z], q) && KRep(V', y, Some(o))
      && n in V' && V'[n] == va && o in V' && V'[o] == vb
  {
    hide KRep, Change, Roots, KNodes;
    RootsClear([z], multiset{n});
    RootsClear([z], multiset{o});
    RootsClear([z], KNodes(x));
    RootsClear([z], KNodes(y));
    Kept(V, n, va, o, vb, p, vp, Roots([z]), q, x, Some(n));
    Kept(V, n, va, o, vb, p, vp, Roots([z]), q, y, Some(o));
    Moved(V, n, va, o, vb, p, vp, [z], s, q);
    Changed(V, n, va, o, vb, p, vp, Roots([z]), q);
  }

  lemma BorrowOnce<N>(rim: multiset<N>, p: N, t: Tree<N>, w: Tree<N>, L: Tree<N>, R: Tree<N>,
      x: seq<Tree<N>>, z: Tree<N>, y: seq<Tree<N>>, toRight: bool)
    requires t.Node? && w.Node? && L.Node? && R.Node? && L.n == t.n && R.n == w.n
    requires t.kids == (if toRight then x + [z] else x) && w.kids == (if toRight then y else [z] + y)
    requires L.kids == (if toRight then x else x + [z]) && R.kids == (if toRight then [z] + y else y)
    requires p in rim && Once(rim + KNodes([t, w]))
    ensures t.n != p && t.n != w.n && w.n != p && t.n in KNodes([t, w]) && w.n !in rim
    ensures forall k :: k in KNodes(x) ==> k !in {t.n, w.n, p} && k !in KNodes([z])
    ensures forall k :: k in KNodes(y) ==> k !in {t.n, w.n, p} && k !in KNodes([z])
    ensures forall k :: k in KNodes([z]) ==> k !in {t.n, w.n, p}
    ensures Once(KNodes([z])) && KNodes([z]) <= KNodes([t, w]) && Once(rim + KNodes([L, R]))
  {
    hide KNodes, Once;
    KNodesTwo(t, w);
    KNodesTwo(L, R);
    KNodesJoin(x, [z]);
    KNodesJoin([z], y);
    BorrowOnceSets(rim, p, t.n, KNodes(x), w.n, KNodes(y), KNodes([z]), KNodes(t.kids), KNodes(w.kids),
      KNodes(L.kids), KNodes(R.kids));
  }

  lemma BorrowOnceSets<N>(rim: multiset<N>, p: N, n: N, x: multiset<N>, o: N, y: multiset<N>, z: multiset<N>,
      tx: multiset<N>, wy: multiset<N>, x': multiset<N>, y': multiset<N>)
    requires var s := rim + ((multiset{n} + tx) + (multiset{o} + wy)); p in rim && Once(s)
    requires (tx == x + z && wy == y && x' == x && y' == z + y) || (tx == x && wy == z + y && x' == x + z && y' == y)
    ensures n != p && n != o && o != p && n !in rim && o !in rim
    ensures forall k :: k in x ==> k !in {n, o, p} && k !in z
    ensures forall k :: k in y ==> k !in {n, o, p} && k !in z
    ensures forall k :: k in z ==> k !in {n, o, p}
    ensures Once(z) && Once(rim + ((multiset{n} + x') + (multiset{o} + y')))
  {
    MergeOnceSets(rim, p, n, tx, o, wy);
    var s := rim + ((multiset{n} + tx) + (multiset{o} + wy));
    assert s == rim + ((multiset{n} + x') + (multiset{o} + y'));
    OnceParts(s, x, z);
    OnceParts(s, y, z);
    assert x <= tx && y <= wy;
    assert forall k :: k in x ==> k in tx;
    assert forall k :: k in y ==> k in wy;
    assert forall k :: k in z ==> k in tx || k in wy;
  }

  /** What the links say of two neighbours and their parent. */
  lemma NeighbourVals<N>(V: map<N, Val<N>>, root: Option<N>, u: Ctx<N>, p: N, items: seq<Data>,
      l: seq<Tree<N>>, t: Tree<N>, w: Tree<N>, r: seq<Tree<N>>)
    requires Linked(V, root, u, Node(p, items, l + [t, w] + r)) && t.Node? && w.Node?
    ensures p in V && V[p] == Val(items, Roots(l + [t, w] + r), Up(u))
    ensures t.n in V && V[t.n] == Val(t.items, Roots(t.kids), Some(p))
    ensures w.n in V && V[w.n] == Val(w.items, Roots(w.kids), Some(p))
    ensures t.n != w.n && t.n != p && w.n != p
    ensures forall x :: Some(x) in Roots(t.kids) || Some(x) in Roots(w.kids) ==> x in V && x !in {t.n, w.n, p}
  {
    MidsRep(V, root, u, p, items, l, t, w, r);
    RimTotal(u, p, items, l, [t, w], r);
    KNodesTwo(t, w);
    MergeOnceSets(Rim(u, p, l, r), p, t.n, KNodes(t.kids), w.n, KNodes(w.kids));
    KRepIn(V, t.kids, Some(t.n));
    KRepIn(V, w.kids, Some(w.n));
    forall x | Some(x) in Roots(t.kids) || Some(x) in Roots(w.kids) ensures x in V && x !in {t.n, w.n, p} {
      if Some(x) in Roots(t.kids) { RootsIn(t.kids, x); } else { RootsIn(w.kids, x); }
    }
  }

  lemma RootsJoin<N>(a: seq<Tree<N>>, b: seq<Tree<N>>)
    ensures Roots(a + b) == Roots(a) + Roots(b)
  {
  }

  /** One neighbour less, seen from the parent. */
  lemma RootsDel<N>(l: seq<Tree<N>>, t: Tree<N>, w: Tree<N>, r: seq<Tree<N>>, M: Tree<N>)
    requires Root(M) == Root(t)
    ensures Del(Roots(l + [t, w] + r), |l| + 1) == Roots(l + [M] + r)
  {
  }

  lemma RootsTwo<N>(l: seq<Tree<N>>, t: Tree<N>, w: Tree<N>, r: seq<Tree<N>>, t': Tree<N>, w': Tree<N>)
    requires Root(t') == Root(t) && Root(w') == Root(w)
    ensures Roots(l + [t, w] + r) == Roots(l + [t', w'] + r)
  {
  }

  /** A node is one child of its parent only. */
  lemma HoleOnce<N>(V: map<N, Val<N>>, root: Option<N>, c: Ctx<N>, t: Tree<N>)
    requires Linked(V, root, c, t) && c.In? && t.Node?
    ensures c.n in V && V[c.n] == Val(c.items, Roots(c.left) + [Root(t)] + Roots(c.right), Up(c.up))
    ensures forall i :: 0 <= i < |c.left| ==> Roots(c.left)[i] != Root(t)
  {
    assert t.n in Nodes(t);
    OnceParts(CNodes(c) + Nodes(t), CNodes(c), Nodes(t));
    RootsClear(c.left, multiset{t.n});
  }

  /** The tree under a root without items is its only child. */
  lemma RootShrunk<N>(V: map<N, Val<N>>, root: Option<N>, t: Tree<N>, k: Tree<N>)
    requires Linked(V, root, Top, t) && t.Node? && t.kids == [k]
    ensures k.Node? ==> k.n in V && Linked(V[k.n := V[k.n].(parent := None)], Root(k), Top, k)
    ensures k.Nil? ==> Linked(V, None, Top, k)
  {
    KNodesOne(k);
    assert Rep(V, t.kids[0], Some(t.n));
    assert CNodes<N>(Top) + Nodes(t) == multiset{t.n} + Nodes(k);
    if k.Node? {
      var V' := V[k.n := V[k.n].(parent := None)];
      OnceLess(multiset{t.n}, k.n, KNodes(k.kids), KNodes(k.kids));
      KRepSame(V, V', k.kids, Some(k.n));
      OnceParts(multiset{t.n} + Nodes(k), multiset{t.n}, Nodes(k));
      assert CNodes<N>(Top) + Nodes(k) == Nodes(k);
    } else {
      assert CNodes<N>(Top) + Nodes(k) == multiset{};
    }
  }
}
