/** Reservations taken at the head of a range and given back at its tail. */
module Tiling {
  /** What one thread has reserved: nothing, or the indices from `lo` up to but not including `hi`. */
  datatype Span = Nothing | Span(lo: nat, hi: nat)

  ghost predicate Owns(s: Span, k: int) {
    s.Span? && s.lo <= k < s.hi
  }

  ghost predicate Within(s: Span, tail: nat, head: nat) {
    s.Span? ==> tail <= s.lo < s.hi <= head
  }

  ghost predicate Apart(s: Span, u: Span) {
    s.Span? && u.Span? ==> s.hi <= u.lo || u.hi <= s.lo
  }

  ghost predicate Owned(spans: seq<Span>, k: int) {
    exists t :: 0 <= t < |spans| && Owns(spans[t], k)
  }

  /** The reservations are non-empty, disjoint, and together make up all of [tail, head). */
  ghost predicate Tiles(spans: seq<Span>, tail: nat, head: nat) {
    && tail <= head
    && (forall t :: 0 <= t < |spans| ==> Within(spans[t], tail, head))
    && (forall t, u :: 0 <= t < u < |spans| ==> Apart(spans[t], spans[u]))
    && (forall k :: tail <= k < head ==> Owned(spans, k))
  }

  lemma Reserve(spans: seq<Span>, tail: nat, head: nat, t: nat, n: nat)
    requires Tiles(spans, tail, head) && t < |spans| && spans[t].Nothing? && n > 0
    ensures Tiles(spans[t := Span(head, head + n)], tail, head + n)
  {
    var spans' := spans[t := Span(head, head + n)];
    forall k | tail <= k < head + n ensures Owned(spans', k) {
      if k < head {
        assert Owned(spans, k);
        var u :| 0 <= u < |spans| && Owns(spans[u], k);
        assert Owns(spans'[u], k);
      } else {
        assert Owns(spans'[t], k);
      }
    }
  }

  lemma Release(spans: seq<Span>, tail: nat, head: nat, t: nat)
    requires Tiles(spans, tail, head) && t < |spans| && spans[t].Span? && spans[t].lo == tail
    ensures Tiles(spans[t := Nothing], spans[t].hi, head)
  {
    var spans' := spans[t := Nothing];
    assert Within(spans[t], tail, head);
    forall u | 0 <= u < |spans'| ensures Within(spans'[u], spans[t].hi, head) {
      assert Within(spans[u], tail, head);
      if u < t {
        assert Apart(spans[u], spans[t]);
      } else if t < u {
        assert Apart(spans[t], spans[u]);
      }
    }
    forall k | spans[t].hi <= k < head ensures Owned(spans', k) {
      assert Owned(spans, k);
      var u :| 0 <= u < |spans| && Owns(spans[u], k);
      assert Owns(spans'[u], k);
    }
  }

  /** Two threads never own the same index. */
  lemma OneOwner(spans: seq<Span>, tail: nat, head: nat, t: nat, u: nat, k: int)
    requires Tiles(spans, tail, head) && t < |spans| && u < |spans| && t != u
    requires Owns(spans[t], k)
    ensures !Owns(spans[u], k)
  {
    if t < u {
      assert Apart(spans[t], spans[u]);
    } else {
      assert Apart(spans[u], spans[t]);
    }
  }

  /** When nobody holds a reservation the range is empty. */
  lemma AllReleased(spans: seq<Span>, tail: nat, head: nat)
    requires Tiles(spans, tail, head) && forall t :: 0 <= t < |spans| ==> spans[t].Nothing?
    ensures tail == head
  {
    assert tail < head ==> Owned(spans, tail);
  }
}
