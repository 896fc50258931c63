/** Items with integer keys, in ascending sequences: what a B-tree holds (btree.h). */
module KeyedItems {

  datatype Data = Data(key: int, addr: int)

  ghost predicate Sorted(s: seq<Data>) {
    forall i, j :: 0 <= i < j < |s| ==> s[i].key < s[j].key
  }

  ghost predicate AllBelow(s: seq<Data>, k: int) {
    forall i :: 0 <= i < |s| ==> s[i].key < k
  }

  ghost predicate AllAbove(s: seq<Data>, k: int) {
    forall i :: 0 <= i < |s| ==> k < s[i].key
  }

  ghost function Items(s: seq<Data>): set<Data> {
    set d | d in s
  }

  ghost predicate HasKey(items: set<Data>, k: int) {
    exists d :: d in items && d.key == k
  }

  /** Putting a block where its key belongs. */
  lemma Inserted(a: seq<Data>, d: Data, b: seq<Data>)
    requires Sorted(a + b) && AllBelow(a, d.key) && AllAbove(b, d.key)
    ensures Sorted(a + [d] + b) && Items(a + [d] + b) == Items(a + b) + {d}
  {
    var s, s' := a + b, a + [d] + b;
    assert forall i :: 0 <= i < |a| ==> s'[i] == s[i];
    assert forall i :: |a| < i < |s'| ==> s'[i] == s[i - 1];
  }

  lemma Removed(a: seq<Data>, d: Data, b: seq<Data>)
    requires Sorted(a + [d] + b)
    ensures Sorted(a + b) && Items(a + b) == Items(a + [d] + b) - {d}
  {
    var s, s' := a + [d] + b, a + b;
    assert forall i :: 0 <= i < |a| ==> s'[i] == s[i];
    assert forall i :: |a| <= i < |s'| ==> s'[i] == s[i + 1];
    assert s[|a|] == d;
  }

  /** No key comes twice. */
  lemma {:induction false} SortedSize(s: seq<Data>)
    requires Sorted(s)
    ensures |s| == |Items(s)|
  {
    if s != [] {
      SortedSize(s[1..]);
      assert Items(s) == {s[0]} + Items(s[1..]);
      assert s[0] !in Items(s[1..]);
    }
  }
}
