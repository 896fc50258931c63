/** The bounded stack of stack.h: a push onto a full stack is silently dropped. */
module Stack {
  class Stack<T(0)> {
    const nil: T
    const base: array<T>
    var top: nat

    ghost predicate Valid()
      reads this
    {
      top <= base.Length
    }

    ghost function Elems(): (s: seq<T>)
      requires Valid()
      reads this, base
    {
      base[..top]
    }

    constructor (max: nat, nil: T)
      ensures Valid() && Elems() == [] && fresh(base) && base.Length == max && this.nil == nil
    {
      this.nil := nil;
      base := new T[max];
      top := 0;
    }

    method Push(x: T) returns (ok: bool)
      requires Valid()
      modifies this, base
      ensures Valid() && ok == (|old(Elems())| < base.Length)
      ensures Elems() == if ok then old(Elems()) + [x] else old(Elems())
    {
      if top >= base.Length {
        return false;
      }
      base[top] := x;
      top := top + 1;
      ok := true;
    }

    method Pop() returns (x: T)
      requires Valid()
      modifies this`top
      ensures Valid()
      ensures |old(Elems())| == 0 ==> x == nil && Elems() == []
      ensures |old(Elems())| > 0 ==>
                var n := |old(Elems())| - 1; Elems() == old(Elems())[..n] && x == old(Elems())[n]
    {
      if top == 0 {
        return nil;
      }
      top := top - 1;
      x := base[top];
    }

    method GetTop() returns (x: T)
      requires Valid()
      ensures x == if |Elems()| == 0 then nil else Elems()[|Elems()| - 1]
    {
      x := if top == 0 then nil else base[top - 1];
    }
  }
}
