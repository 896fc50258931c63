/** The protobuf wire format as the web demo writes and reads it (pb.js), and its second reader
    (decodeBc in app.js). */
module PbJs {
  import opened Bits
  import opened Options

  type Byte = x: int | 0 <= x < 256

  // ----- numbers of JavaScript

  /** 2 to the 1024th, from which on a number is infinite; it stands for the infinite number itself. */
  function Infinity(): (r: nat)
    ensures r > 0x20_0000_0000_0000
  {
    Pow2Monotone(64, 1024);
    Pow2At64();
    Pow2(1024)
  }

  /** Number(n) of a BigInt: rounded to 53 bits, ties to even. */
  function ToNumber(n: nat): nat {
    if n >= Infinity() then Infinity() else RoundTo(n, Scale(n))
  }

  /** The nearest multiple, the even one of two. */
  function RoundTo(n: nat, e: nat): nat
    requires e > 0
  {
    var q, r := n / e, n % e;
    if 2 * r > e || (2 * r == e && q % 2 == 1) then (q + 1) * e else q * e
  }

  lemma RoundExact(n: nat, e: nat)
    requires e > 0
    ensures RoundTo(n, e) == n <==> n % e == 0
  {
    var q := n / e;
    assert n == q * e + n % e;
    Distribute(q, 1, e);
  }

  /** No multiple is nearer, and of two that are equally near it is the even one. */
  lemma RoundNearest(n: nat, e: nat)
    requires e > 0
    ensures RoundTo(n, e) % e == 0
    ensures 2 * RoundTo(n, e) <= 2 * n + e && 2 * n <= 2 * RoundTo(n, e) + e
    ensures 2 * RoundTo(n, e) == 2 * n + e || 2 * n == 2 * RoundTo(n, e) + e ==> RoundTo(n, e) / e % 2 == 0
  {
    var q, r := n / e, n % e;
    assert n == q * e + r;
    Distribute(q, 1, e);
    ModIs(q * e, q, 0, e);
    ModIs((q + 1) * e, q + 1, 0, e);
  }

  /** The smallest power of two that n has to be divided by to fit 53 bits. */
  function Scale(n: nat): (e: nat)
    ensures e > 0 && (n < 0x20_0000_0000_0000 ==> e == 1)
  {
    if n < 0x20_0000_0000_0000 then 1 else 2 * Scale(n / 2)
  }

  /** It is one, and 53 bits are what is left. */
  lemma {:induction false} ScaleFits(n: nat)
    ensures IsPow2(Scale(n)) && n / Scale(n) < 0x20_0000_0000_0000
    ensures Scale(n) > 1 ==> n / Scale(n) >= 0x10_0000_0000_0000
  {
    if n < 0x20_0000_0000_0000 {
      assert Scale(n) == Pow2(0);
    } else {
      var e := Scale(n / 2);
      ScaleFits(n / 2);
      var k: nat :| e == Pow2(k);
      assert Scale(n) == Pow2(k + 1);
      HalfDiv(n, e);
    }
  }

  lemma HalfDiv(n: nat, e: nat)
    requires e > 0
    ensures n / (2 * e) == n / 2 / e
  {
    var q, r := n / 2 / e, n / 2 % e;
    assert n / 2 == q * e + r;
    Halve(q, e);
    ModIs(n, q, 2 * r + n % 2, 2 * e);
  }

  /** A value is a number of JavaScript exactly if nothing is left over from its first 53 bits. */
  lemma NumberExact(n: nat)
    requires n < Infinity()
    ensures ToNumber(n) == n <==> n % Scale(n) == 0
    ensures n < 0x20_0000_0000_0000 ==> ToNumber(n) == n
  {
    hide Infinity, RoundTo;
    RoundExact(n, Scale(n));
  }

  /** The first value that is none. */
  lemma NumberLoses()
    ensures ToNumber(0x20_0000_0000_0001) == 0x20_0000_0000_0000
  {
    hide Infinity;
    var n := 0x20_0000_0000_0001;
    assert n / 2 < 0x20_0000_0000_0000;
    assert Scale(n) == 2;
    Large(n);
  }

  lemma Large(n: nat)
    requires n < 0x40_0000_0000_0000
    ensures n < Infinity()
  {
    Pow2Monotone(64, 1024);
    Pow2At64();
  }

  lemma NumberKeeps(n: nat)
    requires n < 0x20_0000_0000_0000
    ensures ToNumber(n) == n
  {
    NumberExact(n);
  }

  /** The result of a bit operation on numbers: 32 bits with sign. */
  function ToInt32(x: int): (r: int)
    ensures 0 <= x < 0x8000_0000 ==> r == x
  {
    var u := x % 0x1_0000_0000;
    if u < 0x8000_0000 then u else u - 0x1_0000_0000
  }

  function Or(a: nat, b: nat): nat {
    if a == 0 then b else if b == 0 then a
    else 2 * Or(a / 2, b / 2) + if a % 2 == 1 || b % 2 == 1 then 1 else 0
  }

  /** Or of numbers that have no bit in common. */
  lemma {:induction false} OrIsSum(a: nat, d: nat, s: nat)
    requires a < Pow2(s)
    ensures Or(a, d * Pow2(s)) == a + d * Pow2(s)
  {
    if s > 0 && a > 0 && d > 0 {
      OrIsSum(a / 2, d, s - 1);
      Halve(d, Pow2(s - 1));
    }
  }

  lemma Halve(d: nat, p: nat)
    ensures d * (2 * p) / 2 == d * p && d * (2 * p) % 2 == 0
  {
    assert d * (2 * p) == 2 * (d * p);
  }

  /** bytes.slice(from, to) */
  function Slice(bytes: seq<Byte>, from: nat, to: nat): seq<Byte> {
    var f := if from < |bytes| then from else |bytes|;
    var t := if to < |bytes| then to else |bytes|;
    if f <= t then bytes[f..t] else []
  }

  // ----- varints

  function Varint(v: int): (s: seq<Byte>)
    ensures |s| > 0
    decreases if v > 0 then v else 0
  {
    if v > 127 then [v % 128 + 128] + Varint(v / 128) else [v % 128]
  }

  datatype Reading = Reading(value: nat, next: nat)

  /** A varint from position i on; the end of the bytes ends it too. */
  function ReadAt(bytes: seq<Byte>, i: nat): (r: Reading)
    ensures r.next >= i && (i < |bytes| ==> i < r.next <= |bytes|)
    decreases |bytes| - i
  {
    if i >= |bytes| then Reading(0, i)
    else if bytes[i] < 128 then Reading(bytes[i], i + 1)
    else
      var rest := ReadAt(bytes, i + 1);
      Reading(bytes[i] - 128 + 128 * rest.value, rest.next)
  }

  /** The value a reader is to get: a negative one is written as a single byte. */
  function Written(v: int): nat { if v < 0 then v % 128 else v }

  /** Reading undoes writing, wherever the varint stands. */
  lemma {:induction false} VarintRoundTrip(pre: seq<Byte>, v: int, post: seq<Byte>)
    ensures ReadAt(pre + Varint(v) + post, |pre|) == Reading(Written(v), |pre| + |Varint(v)|)
    decreases Written(v)
  {
    var s := pre + Varint(v) + post;
    assert s[|pre|] == Varint(v)[0];
    if v > 127 {
      VarintRoundTrip(pre + [Varint(v)[0]], v / 128, post);
      assert s == pre + [Varint(v)[0]] + Varint(v / 128) + post;
    }
  }

  method WriteVarint(v: int) returns (out: seq<Byte>)
    ensures out == Varint(v)
  {
    out := [];
    var n := v;
    while n > 127
      invariant out + Varint(n) == Varint(v)
      decreases if n > 0 then n else 0
    {
      out := out + [n % 128 + 128];
      n := n / 128;
    }
    out := out + [n % 128];
  }

  /** bytes[i], read as zero behind the end by the bit operations. */
  function At(bytes: seq<Byte>, i: nat): Byte {
    if i < |bytes| then bytes[i] else 0
  }

  /** One byte of a varint, or the end of the bytes. */
  lemma ReadStep(bytes: seq<Byte>, i: nat)
    ensures At(bytes, i) >= 128 ==> i < |bytes| && ReadAt(bytes, i).next == ReadAt(bytes, i + 1).next
    ensures At(bytes, i) >= 128 ==>
      ReadAt(bytes, i).value == At(bytes, i) % 128 + 128 * ReadAt(bytes, i + 1).value
    ensures At(bytes, i) < 128 ==> ReadAt(bytes, i).value == At(bytes, i) % 128
    ensures At(bytes, i) < 128 ==> ReadAt(bytes, i).next == if i < |bytes| then i + 1 else i
  {
  }

  /** A varint of value `whole`, read up to a shift: what is left of it reads as `rest`. */
  predicate Partly(value: int, rest: nat, shift: nat, whole: nat) {
    0 <= value < Pow2(shift) && whole == value + rest * Pow2(shift)
  }

  lemma PartlyAtFirst(whole: nat)
    ensures Partly(0, whole, 0, whole)
  {
    assert Pow2(0) == 1;
  }

  lemma PartlyStep(value: int, d: nat, rest: nat, shift: nat, whole: nat)
    requires d < 128 && Partly(value, d + 128 * rest, shift, whole)
    ensures value >= 0 && Partly(value + d * Pow2(shift), rest, shift + 7, whole)
    ensures Or(value, d * Pow2(shift)) == value + d * Pow2(shift) <= whole
  {
    hide Pow2, Or;
    ShiftStep(value, d, rest, shift);
    OrIsSum(value, d, shift);
    MulLess(0, rest, Pow2(shift + 7));
  }

  lemma PartlyAtLast(value: int, shift: nat, whole: nat)
    requires Partly(value, 0, shift, whole)
    ensures value == whole
  {
  }

  method ReadVarint(bytes: seq<Byte>, offset: nat) returns (value: nat, next: nat)
    ensures Reading(value, next) == ReadAt(bytes, offset)
  {
    hide Pow2, Or, Partly, ReadAt;
    var shift: nat := 0;
    value, next := 0, offset;
    ghost var whole := ReadAt(bytes, offset);
    PartlyAtFirst(whole.value);
    while next < |bytes|
      invariant offset <= next && ReadAt(bytes, next).next == whole.next
      invariant Partly(value, ReadAt(bytes, next).value, shift, whole.value)
      decreases |bytes| - next
    {
      var b := bytes[next];
      ReadStep(bytes, next);
      next := next + 1;
      ghost var rest := if b < 128 then 0 else ReadAt(bytes, next).value;
      PartlyStep(value, b % 128, rest, shift, whole.value);
      value := Or(value, b % 128 * Pow2(shift));
      shift := shift + 7;
      if b < 128 {
        PartlyAtLast(value, shift, whole.value);
        return;
      }
    }
    NothingLeft(bytes, next);
    PartlyAtLast(value, shift, whole.value);
  }

  lemma NothingLeft(bytes: seq<Byte>, i: nat)
    requires i >= |bytes|
    ensures ReadAt(bytes, i) == Reading(0, i)
  {
  }

  lemma Pow2Times128(n: nat)
    ensures Pow2(n + 7) == 128 * Pow2(n)
  {
    assert Pow2(n + 2) == 2 * Pow2(n + 1) == 4 * Pow2(n);
    assert Pow2(n + 4) == 2 * Pow2(n + 3) == 4 * Pow2(n + 2);
    assert Pow2(n + 6) == 2 * Pow2(n + 5) == 4 * Pow2(n + 4);
  }

  lemma ShiftStep(value: nat, d: nat, rest: nat, shift: nat)
    requires value < Pow2(shift) && d < 128
    ensures Pow2(shift + 7) == 128 * Pow2(shift)
    ensures value + d * Pow2(shift) < Pow2(shift + 7)
    ensures value + (d + 128 * rest) * Pow2(shift) == (value + d * Pow2(shift)) + rest * Pow2(shift + 7)
  {
    hide Pow2;
    var p := Pow2(shift);
    Pow2Times128(shift);
    Distribute(d, 128 * rest, p);
    MulLess(d, 127, p);
    MulMoves(rest, p);
  }

  lemma MulLess(d: nat, e: nat, p: nat)
    requires d <= e
    ensures d * p <= e * p
  {
  }

  lemma MulMoves(r: nat, p: nat)
    ensures 128 * r * p == r * (128 * p)
  {
  }

  // ----- fields

  /** A field to be written; strings are given as the bytes of their encoding. */
  datatype Field = Uint(num: nat, v: nat) | Str(num: nat, s: seq<Byte>)

  datatype Value = Num(n: nat) | Bytes(s: seq<Byte>)

  datatype Found = Found(num: nat, v: Value)

  function Wire(f: Field): nat { if f.Uint? then 0 else 2 }

  /** The tag, as the bit operations of JavaScript make it: a number of 32 bits with sign. */
  function Tag(f: Field): int { ToInt32(f.num * 8 + Wire(f)) }

  /** The number under which a reader finds a field. */
  function Seen(num: nat): (r: nat)
    ensures r < 0x1000_0000 && (r == num <==> num < 0x1000_0000)
  {
    var w := num % 0x2000_0000;
    if w < 0x1000_0000 then w else num % 16
  }

  lemma TagIs(f: Field)
    ensures Written(Tag(f)) == Seen(f.num) * 8 + Wire(f)
    ensures Written(Tag(f)) / 8 == Seen(f.num) && Written(Tag(f)) % 8 == Wire(f)
  {
    var w := f.num % 0x2000_0000;
    TagBits(f.num, Wire(f));
    if w >= 0x1000_0000 {
      LowBits(f.num, w, w * 8 + Wire(f) - 0x1_0000_0000, Wire(f));
    }
  }

  lemma TagBits(n: nat, wire: nat)
    requires wire < 8
    ensures (n * 8 + wire) % 0x1_0000_0000 == n % 0x2000_0000 * 8 + wire
  {
    var q, w := n / 0x2000_0000, n % 0x2000_0000;
    ModIs(n * 8 + wire, q, w * 8 + wire, 0x1_0000_0000);
  }

  lemma LowBits(n: nat, w: nat, tag: int, wire: nat)
    requires w == n % 0x2000_0000 && tag == w * 8 + wire - 0x1_0000_0000 && wire < 8
    ensures tag % 128 == n % 16 * 8 + wire && (n % 16 * 8 + wire) / 8 == n % 16 && (n % 16 * 8 + wire) % 8 == wire
  {
    assert n % 16 == w % 16 by {
      var q := n / 0x2000_0000;
      assert n == 0x2000_0000 * q + w;
    }
    var c, low := w / 16, w % 16;
    assert tag == 128 * (c - 0x200_0000) + (low * 8 + wire);
  }

  function EncodeField(f: Field): seq<Byte> {
    match f
    case Uint(num, v) => Varint(Tag(f)) + Varint(v)
    case Str(num, s) => Varint(Tag(f)) + Varint(|s|) + s
  }

  function Encode(fs: seq<Field>): seq<Byte> {
    if fs == [] then [] else EncodeField(fs[0]) + Encode(fs[1..])
  }

  /** What a reader is to find for a field. */
  function Image(f: Field): Found {
    Found(Seen(f.num), match f case Uint(_, v) => Num(ToNumber(v)) case Str(_, s) => Bytes(s))
  }

  function Images(fs: seq<Field>): (r: seq<Found>)
    ensures |r| == |fs| && forall k :: 0 <= k < |fs| ==> r[k] == Image(fs[k])
  {
    if fs == [] then [] else [Image(fs[0])] + Images(fs[1..])
  }

  /** No longer than an array of JavaScript can be. */
  predicate Fits(s: seq<Byte>) { |s| < 0x20_0000_0000_0000 }

  predicate Sound(f: Field) { f.Str? ==> Fits(f.s) }

  method Concat(arrs: seq<seq<Byte>>) returns (out: seq<Byte>)
    ensures out == Join(arrs)
  {
    out := [];
    for k := 0 to |arrs|
      invariant out + Join(arrs[k..]) == Join(arrs)
    {
      assert arrs[k..][0] == arrs[k] && arrs[k..][1..] == arrs[k + 1..];
      out := out + arrs[k];
    }
  }

  function Join(arrs: seq<seq<Byte>>): seq<Byte> {
    if arrs == [] then [] else arrs[0] + Join(arrs[1..])
  }

  lemma JoinTwo(a: seq<Byte>, b: seq<Byte>)
    ensures Join([a, b]) == a + b
  {
    assert [a, b][1..] == [b] && [b][1..] == [];
    assert Join([b]) == b;
  }

  lemma JoinThree(a: seq<Byte>, b: seq<Byte>, c: seq<Byte>)
    ensures Join([a, b, c]) == a + b + c
  {
    assert [a, b, c][1..] == [b, c];
    JoinTwo(b, c);
  }

  method FieldUint64(n: nat, v: nat) returns (out: seq<Byte>)
    ensures out == EncodeField(Uint(n, v))
  {
    var tag := WriteVarint(ToInt32(n * 8));
    var val := WriteVarint(v);
    out := Concat([tag, val]);
    JoinTwo(tag, val);
  }

  method FieldString(n: nat, enc: seq<Byte>) returns (out: seq<Byte>)
    ensures out == EncodeField(Str(n, enc))
  {
    OrTwo(n);
    var tag := WriteVarint(ToInt32(Or(2, n * 8)));
    var len := WriteVarint(|enc|);
    out := Concat([tag, len, enc]);
    JoinThree(tag, len, enc);
  }

  lemma OrTwo(n: nat)
    ensures Or(2, n * 8) == n * 8 + 2
  {
    assert Pow2(3) == 8;
    OrIsSum(2, n, 3);
  }

  // ----- the reader of pb.js

  /** The fields from position i on, in the order in which they stand. */
  function Fields(bytes: seq<Byte>, i: nat): seq<Found>
    decreases |bytes| - i
  {
    if i >= |bytes| then []
    else
      var tag := ReadAt(bytes, i);
      var val := ReadAt(bytes, tag.next);
      var num := ToNumber(tag.value / 8);
      if tag.value % 8 == 0 then
        [Found(num, Num(ToNumber(val.value)))] + Fields(bytes, val.next)
      else if tag.value % 8 == 2 then
        var end := val.next + ToNumber(val.value);
        [Found(num, Bytes(Slice(bytes, val.next, end)))] + Fields(bytes, end)
      else []
  }

  /** The last value with a number. */
  function Last(fs: seq<Found>, num: nat): Option<Value> {
    if fs == [] then None
    else
      var f := fs[|fs| - 1];
      if f.num == num then Some(f.v) else Last(fs[..|fs| - 1], num)
  }

  function Get(m: map<nat, Value>, k: nat): Option<Value> {
    if k in m then Some(m[k]) else None
  }

  /** The bytes of a field, if it is no number. */
  function BytesOf(v: Option<Value>): Option<seq<Byte>> {
    if v.Some? && v.value.Bytes? then Some(v.value.s) else None
  }

  lemma LastAdded(done: seq<Found>, f: Found)
    ensures forall num :: Last(done + [f], num) == if num == f.num then Some(f.v) else Last(done, num)
  {
    assert (done + [f])[..|done|] == done;
  }

  lemma Moved(done: seq<Found>, f: Found, rest: seq<Found>)
    ensures done + ([f] + rest) == done + [f] + rest
  {
  }

  /** decodeFields keeps the last value of every number. */
  method DecodeFields(bytes: seq<Byte>) returns (fields: map<nat, Value>)
    ensures forall num :: Get(fields, num) == Last(Fields(bytes, 0), num)
  {
    hide Fields, ReadAt, ToNumber, Slice, Last;
    fields := map[];
    var i: nat := 0;
    ghost var done: seq<Found> := [];
    NoneAtAll();
    while i < |bytes|
      invariant done + Fields(bytes, i) == Fields(bytes, 0)
      invariant forall num :: Get(fields, num) == Last(done, num)
      decreases |bytes| - i
    {
      StepFrom(bytes, i);
      var tag, afterTag := ReadVarint(bytes, i);
      var num, wire := ToNumber(tag / 8), tag % 8;
      ghost var f: Found;
      if wire == 0 {
        var val, next := ReadVarint(bytes, afterTag);
        f := Found(num, Num(ToNumber(val)));
        fields := fields[num := Num(ToNumber(val))];
        i := next;
      } else if wire == 2 {
        var len, next := ReadVarint(bytes, afterTag);
        var end := next + ToNumber(len);
        f := Found(num, Bytes(Slice(bytes, next, end)));
        fields := fields[num := Bytes(Slice(bytes, next, end))];
        i := end;
      } else {
        assert done + [] == done;
        return;
      }
      LastAdded(done, f);
      Moved(done, f, Fields(bytes, i));
      done := done + [f];
    }
    Exhausted(bytes, i);
    assert done + [] == done;
  }

  lemma NoneAtAll()
    ensures forall num :: Last([], num) == None
  {
  }

  lemma Exhausted(bytes: seq<Byte>, i: nat)
    requires i >= |bytes|
    ensures Fields(bytes, i) == []
  {
  }

  /** One turn of decodeFields. */
  lemma StepFrom(s: seq<Byte>, i: nat)
    requires i < |s|
    ensures var tag := ReadAt(s, i);
      var val := ReadAt(s, tag.next);
      var num := ToNumber(tag.value / 8);
      && (tag.value % 8 == 0 ==> Fields(s, i) == [Found(num, Num(ToNumber(val.value)))] + Fields(s, val.next))
      && (tag.value % 8 == 2 ==>
            var end := val.next + ToNumber(val.value);
            Fields(s, i) == [Found(num, Bytes(Slice(s, val.next, end)))] + Fields(s, end))
      && (tag.value % 8 != 0 && tag.value % 8 != 2 ==> Fields(s, i) == [])
  {
  }

  /** The first field from i on, and where the next one begins. */
  predicate Turns(s: seq<Byte>, i: nat, f: Found, next: nat) { Fields(s, i) == [f] + Fields(s, next) }

  /** One field, wherever it stands. */
  lemma ReadsField(pre: seq<Byte>, f: Field, post: seq<Byte>)
    requires Sound(f)
    ensures Turns(pre + EncodeField(f) + post, |pre|, Image(f), |pre| + |EncodeField(f)|)
  {
    hide Turns, ReadAt, Image, Varint, Tag, Slice, Written;
    match f {
      case Uint(num, v) =>
        WrittenIs(v);
        ReadsTwo(pre, Tag(f), v, post);
        FieldTurn(pre + EncodeField(f) + post, |pre|, f, v, |pre| + |Varint(Tag(f))|, |pre| + |EncodeField(f)|);
      case Str(num, str) =>
        WrittenIs(|str|);
        Regroup(pre, Varint(Tag(f)), Varint(|str|), str, post);
        ReadsTwo(pre, Tag(f), |str|, str + post);
        var from := |pre| + |Varint(Tag(f))| + |Varint(|str|)|;
        FieldTurn(pre + EncodeField(f) + post, |pre|, f, |str|, |pre| + |Varint(Tag(f))|, from);
    }
  }

  /** One turn of decodeFields on a field whose tag and number or length have been read. */
  lemma FieldTurn(s: seq<Byte>, i: nat, f: Field, val: nat, afterTag: nat, next: nat)
    requires Sound(f) && i < |s|
    requires ReadAt(s, i) == Reading(Written(Tag(f)), afterTag) && ReadAt(s, afterTag) == Reading(val, next)
    requires match f case Uint(_, v) => val == v case Str(_, str) => val == |str| && Slice(s, next, next + val) == str
    ensures Turns(s, i, Image(f), next + if f.Uint? then 0 else val)
  {
    hide Fields, ReadAt, Varint, ToNumber, Slice, Tag, Seen, Written;
    TagIs(f);
    NumberKeeps(Seen(f.num));
    StepFrom(s, i);
    if f.Str? {
      NumberKeeps(val);
    }
  }

  /** A field comes back as it was exactly if its number is below 2 to the 28th and its value is a number
      of JavaScript. */
  lemma ComesBack(f: Field)
    requires f.Uint? ==> f.v < Infinity()
    ensures Image(f) == Found(f.num, match f case Uint(_, v) => Num(v) case Str(_, s) => Bytes(s)) <==>
      f.num < 0x1000_0000 && (f.Uint? ==> f.v % Scale(f.v) == 0)
  {
    hide Infinity, ToNumber, Scale, Seen;
    if f.Uint? {
      NumberExact(f.v);
    }
  }

  lemma WrittenIs(v: nat)
    ensures Written(v) == v
  {
  }

  lemma Regroup(pre: seq<Byte>, tag: seq<Byte>, len: seq<Byte>, s: seq<Byte>, post: seq<Byte>)
    ensures pre + (tag + len + s) + post == pre + (tag + len) + (s + post)
    ensures var i := |pre| + |tag| + |len|; Slice(pre + (tag + len + s) + post, i, i + |s|) == s
  {
  }

  /** Two varints after each other. */
  lemma ReadsTwo(pre: seq<Byte>, a: int, b: int, post: seq<Byte>)
    ensures ReadAt(pre + (Varint(a) + Varint(b)) + post, |pre|) == Reading(Written(a), |pre| + |Varint(a)|)
    ensures ReadAt(pre + (Varint(a) + Varint(b)) + post, |pre| + |Varint(a)|) ==
      Reading(Written(b), |pre| + |Varint(a)| + |Varint(b)|)
  {
    hide ReadAt, Varint, Written;
    VarintRoundTrip(pre, a, Varint(b) + post);
    VarintRoundTrip(pre + Varint(a), b, post);
    Placed(pre, Varint(a), Varint(b), post, Written(a), Written(b));
  }

  lemma Placed(pre: seq<Byte>, x: seq<Byte>, y: seq<Byte>, post: seq<Byte>, a: nat, b: nat)
    requires ReadAt(pre + x + (y + post), |pre|) == Reading(a, |pre| + |x|)
    requires ReadAt((pre + x) + y + post, |pre + x|) == Reading(b, |pre + x| + |y|)
    ensures ReadAt(pre + (x + y) + post, |pre|) == Reading(a, |pre| + |x|)
    ensures ReadAt(pre + (x + y) + post, |pre| + |x|) == Reading(b, |pre| + |x| + |y|)
  {
    hide ReadAt;
    AssocTwo(pre, x, y, post);
  }

  lemma AssocTwo(p: seq<Byte>, a: seq<Byte>, b: seq<Byte>, q: seq<Byte>)
    ensures p + (a + b) + q == p + a + (b + q) && p + (a + b) + q == (p + a) + b + q
  {
  }

  lemma Assoc(p: seq<Byte>, a: seq<Byte>, q: seq<Byte>)
    ensures p + (a + q) == p + a + q
  {
  }

  /** The bytes on the wire for the number 150 in field 1 and for a string of two characters in field 2. */
  lemma OnTheWire()
    ensures Encode([Uint(1, 150), Str(2, [0x68, 0x69])]) == [0x08, 0x96, 0x01, 0x12, 0x02, 0x68, 0x69]
  {
    var fs := [Uint(1, 150), Str(2, [0x68, 0x69])];
    assert Varint(150) == [0x96] + Varint(1) && Varint(1) == [0x01];
    assert EncodeField(fs[0]) == [0x08, 0x96, 0x01] && EncodeField(fs[1]) == [0x12, 0x02, 0x68, 0x69];
    assert fs[1..] == [fs[1]] && fs[1..][1..] == [];
    assert Encode(fs[1..]) == EncodeField(fs[1]) + [];
  }

  /** Reading undoes writing: exactly the fields that were written come back, in their order, numbers
      rounded as JavaScript does, and each under its own number exactly if that is below 2 to the 28th. */
  lemma {:induction false} RoundTrip(pre: seq<Byte>, fs: seq<Field>)
    requires forall k :: 0 <= k < |fs| ==> Sound(fs[k])
    ensures Fields(pre + Encode(fs), |pre|) == Images(fs)
    decreases |fs|
  {
    hide EncodeField, ReadAt, Image;
    if fs == [] {
      assert pre + Encode(fs) == pre;
    } else {
      var rest := Encode(fs[1..]);
      var e := EncodeField(fs[0]);
      Assoc(pre, e, rest);
      ReadsField(pre, fs[0], rest);
      RoundTrip(pre + e, fs[1..]);
    }
  }

  lemma Whole(fs: seq<Field>)
    requires forall k :: 0 <= k < |fs| ==> Sound(fs[k])
    ensures Fields(Encode(fs), 0) == Images(fs)
  {
    RoundTrip([], fs);
    assert [] + Encode(fs) == Encode(fs);
  }

  /** A field is found under its number if none behind it has that number. */
  lemma {:induction false} LastIs(fs: seq<Found>, k: nat)
    requires k < |fs| && forall j :: k < j < |fs| ==> fs[j].num != fs[k].num
    ensures Last(fs, fs[k].num) == Some(fs[k].v)
  {
    if k < |fs| - 1 {
      LastIs(fs[..|fs| - 1], k);
    }
  }

  // ----- messages that are both written and read

  /** encodeRoomChat / decodeRoomChat; the text is given as bytes. */
  method EncodeRoomChat(uid: nat, rid: nat, gid: nat, level: nat, time: nat, text: seq<Byte>) returns (out: seq<Byte>)
    ensures out == Encode(RoomChatFields(uid, rid, gid, level, time, text))
  {
    var a := FieldUint64(1, uid);
    var b := FieldUint64(2, rid);
    var c := FieldUint64(3, gid);
    var d := FieldUint64(4, level);
    var e := FieldUint64(5, time);
    var f := FieldString(6, text);
    out := Concat([a, b, c, d, e, f]);
    EncodeIsJoin(RoomChatFields(uid, rid, gid, level, time, text), [a, b, c, d, e, f]);
  }

  function RoomChatFields(uid: nat, rid: nat, gid: nat, level: nat, time: nat, text: seq<Byte>): seq<Field> {
    [Uint(1, uid), Uint(2, rid), Uint(3, gid), Uint(4, level), Uint(5, time), Str(6, text)]
  }

  lemma {:induction false} EncodeIsJoin(fs: seq<Field>, parts: seq<seq<Byte>>)
    requires |fs| == |parts| && forall k :: 0 <= k < |fs| ==> parts[k] == EncodeField(fs[k])
    ensures Join(parts) == Encode(fs)
  {
    if fs != [] {
      EncodeIsJoin(fs[1..], parts[1..]);
    }
  }

  datatype RoomChat = RoomChat(uid: Option<Value>, rid: Option<Value>, gid: Option<Value>, text: seq<Byte>)

  /** A string is decoded from bytes; a number in its place throws. */
  datatype Outcome = Decoded(chat: RoomChat) | Throws

  /** The text of a chat message: a field that is missing, or the number zero, reads as the empty one. */
  function TextOf(v: Option<Value>): Option<seq<Byte>> {
    match v
    case Some(Bytes(s)) => Some(s)
    case Some(Num(n)) => if n == 0 then Some([]) else None
    case None => Some([])
  }

  /** decodeRoomChat takes the last field of each number.  What was put into a chat message comes out of
      it, with numbers rounded to those of JavaScript. */
  method DecodeRoomChat(bytes: seq<Byte>) returns (r: Outcome)
    ensures var fs := Fields(bytes, 0);
      && (r == Throws <==> exists n | n > 0 :: Last(fs, 6) == Some(Num(n)))
      && (r.Decoded? ==> r.chat.uid == Last(fs, 1) && r.chat.rid == Last(fs, 2) && r.chat.gid == Last(fs, 3))
      && (r.Decoded? && r.chat.text != [] ==> BytesOf(Last(fs, 6)) == Some(r.chat.text))
      && (r.Decoded? && r.chat.text == [] ==> BytesOf(Last(fs, 6)) in {None, Some([])})
    ensures forall uid, rid, gid, level, time, text ::
      Fits(text) && bytes == Encode(RoomChatFields(uid, rid, gid, level, time, text)) ==>
        r == Decoded(RoomChat(Rounded(uid), Rounded(rid), Rounded(gid), text))
  {
    hide Fields, Last, Encode, RoomChatFields, ToNumber;
    var f := DecodeFields(bytes);
    var text := TextOf(Get(f, 6));
    if text == None {
      r := Throws;
    } else {
      r := Decoded(RoomChat(Get(f, 1), Get(f, 2), Get(f, 3), text.value));
    }
    forall uid, rid, gid, level, time, txt |
      Fits(txt) && bytes == Encode(RoomChatFields(uid, rid, gid, level, time, txt))
      ensures r == Decoded(RoomChat(Rounded(uid), Rounded(rid), Rounded(gid), txt))
    {
      RoomChatRoundTrip(uid, rid, gid, level, time, txt);
    }
  }

  function Rounded(v: nat): Option<Value> { Some(Num(ToNumber(v))) }

  /** All six fields of a chat message. */
  lemma RoomChatRoundTrip(uid: nat, rid: nat, gid: nat, level: nat, time: nat, text: seq<Byte>)
    requires Fits(text)
    ensures var fs := Fields(Encode(RoomChatFields(uid, rid, gid, level, time, text)), 0);
      && Last(fs, 1) == Rounded(uid) && Last(fs, 2) == Rounded(rid) && Last(fs, 3) == Rounded(gid)
      && Last(fs, 4) == Rounded(level) && Last(fs, 5) == Rounded(time) && Last(fs, 6) == Some(Bytes(text))
  {
    hide Fields, Encode, Last, ToNumber;
    var fs := RoomChatFields(uid, rid, gid, level, time, text);
    Whole(fs);
    var read := Images(fs);
    forall k | 0 <= k < 6
      ensures read[k] == Image(fs[k]) && read[k].num == k + 1 && Last(read, k + 1) == Some(read[k].v)
    {
      assert forall j :: 0 <= j < 6 ==> read[j].num == j + 1;
      LastIs(read, k);
    }
    assert read[0].num == 1 && read[1].num == 2 && read[2].num == 3;
    assert read[3].num == 4 && read[4].num == 5 && read[5].num == 6;
  }

  /** A message that does not come back as it was: two users read as one. */
  method LargeUsersMeet() returns (r: Outcome, q: Outcome)
    ensures r.Decoded? && r == q && r.chat.uid == Some(Num(0x20_0000_0000_0000))
  {
    hide ToNumber;
    NumberLoses();
    NumberKeepsFirst();
    var a := EncodeRoomChat(0x20_0000_0000_0000, 1, 1, 0, 0, []);
    r := DecodeRoomChat(a);
    var b := EncodeRoomChat(0x20_0000_0000_0001, 1, 1, 0, 0, []);
    q := DecodeRoomChat(b);
  }

  lemma NumberKeepsFirst()
    ensures ToNumber(0x20_0000_0000_0000) == 0x20_0000_0000_0000
  {
    hide Infinity;
    var n := 0x20_0000_0000_0000;
    assert n / 2 < 0x20_0000_0000_0000;
    assert Scale(n) == 2;
    Large(n);
  }

  /** encodeRoomJoin and decodeRoomJoinAck share fields 1 and 2, and so do encodeOnline and
      decodeOnlineAck: whatever else the two messages have, what one writes there the other reads. */
  lemma SharedFields(uid: nat, id: nat, more: seq<Field>)
    requires forall k :: 0 <= k < |more| ==> Sound(more[k]) && Seen(more[k].num) !in {1, 2}
    ensures var fs := Fields(Encode([Uint(1, uid), Uint(2, id)] + more), 0);
      Last(fs, 1) == Rounded(uid) && Last(fs, 2) == Rounded(id)
  {
    hide Fields, Encode, ToNumber, Last;
    var fs := [Uint(1, uid), Uint(2, id)] + more;
    Whole(fs);
    var read := Images(fs);
    assert read[0] == Image(fs[0]) && read[1] == Image(fs[1]);
    forall j | 2 <= j < |read| ensures read[j].num !in {1, 2} {
      assert fs[j] == more[j - 2];
    }
    LastIs(read, 0);
    LastIs(read, 1);
  }

  method EncodeRoomJoin(uid: nat, rid: nat) returns (out: seq<Byte>)
    ensures out == Encode([Uint(1, uid), Uint(2, rid)])
  {
    var a := FieldUint64(1, uid);
    var b := FieldUint64(2, rid);
    out := Concat([a, b]);
    EncodeIsJoin([Uint(1, uid), Uint(2, rid)], [a, b]);
  }

  /** encodeOnline: what a reader finds under the six numbers, a terminal only if it is given. */
  method EncodeOnline(uid: nat, sid: nat, token: seq<Byte>, app: seq<Byte>, version: seq<Byte>, terminal: Option<nat>)
    returns (out: seq<Byte>)
    ensures out == Encode([Uint(1, uid), Uint(2, sid)] + OnlineRest(token, app, version, terminal))
    ensures Fits(token) && Fits(app) && Fits(version) ==> var fs := Fields(out, 0);
      && Last(fs, 1) == Rounded(uid) && Last(fs, 2) == Rounded(sid)
      && Last(fs, 3) == Some(Bytes(token)) && Last(fs, 4) == Some(Bytes(app)) && Last(fs, 5) == Some(Bytes(version))
      && Last(fs, 6) == if terminal.Some? then Rounded(terminal.value) else None
  {
    hide Fields, Last, Encode;
    var a := FieldUint64(1, uid);
    var b := FieldUint64(2, sid);
    var c := FieldString(3, token);
    var d := FieldString(4, app);
    var e := FieldString(5, version);
    var parts := [a, b, c, d, e];
    if terminal.Some? {
      var t := FieldUint64(6, terminal.value);
      parts := parts + [t];
    }
    out := Concat(parts);
    EncodeIsJoin([Uint(1, uid), Uint(2, sid)] + OnlineRest(token, app, version, terminal), parts);
    if Fits(token) && Fits(app) && Fits(version) {
      OnlineRoundTrip(uid, sid, token, app, version, terminal);
    }
  }

  function OnlineRest(token: seq<Byte>, app: seq<Byte>, version: seq<Byte>, terminal: Option<nat>): seq<Field> {
    [Str(3, token), Str(4, app), Str(5, version)] + if terminal.Some? then [Uint(6, terminal.value)] else []
  }

  lemma OnlineRoundTrip(uid: nat, sid: nat, token: seq<Byte>, app: seq<Byte>, version: seq<Byte>,
      terminal: Option<nat>)
    requires Fits(token) && Fits(app) && Fits(version)
    ensures var fs := Fields(Encode([Uint(1, uid), Uint(2, sid)] + OnlineRest(token, app, version, terminal)), 0);
      && Last(fs, 1) == Rounded(uid) && Last(fs, 2) == Rounded(sid)
      && Last(fs, 3) == Some(Bytes(token)) && Last(fs, 4) == Some(Bytes(app)) && Last(fs, 5) == Some(Bytes(version))
      && Last(fs, 6) == if terminal.Some? then Rounded(terminal.value) else None
  {
    hide Fields, Encode, Last, ToNumber, Seen, Images;
    var fs := OnlineFields(uid, sid, token, app, version, terminal);
    Whole(fs);
    Numbered(fs, 0);
    Numbered(fs, 1);
    Numbered(fs, 2);
    Numbered(fs, 3);
    Numbered(fs, 4);
    if terminal.Some? {
      Numbered(fs, 5);
    } else {
      NoSixth(fs);
    }
  }

  lemma OnlineFields(uid: nat, sid: nat, token: seq<Byte>, app: seq<Byte>, version: seq<Byte>, terminal: Option<nat>)
    returns (fs: seq<Field>)
    ensures fs == [Uint(1, uid), Uint(2, sid)] + OnlineRest(token, app, version, terminal)
    ensures |fs| == (if terminal.Some? then 6 else 5) && fs[0] == Uint(1, uid) && fs[1] == Uint(2, sid)
    ensures fs[2] == Str(3, token) && fs[3] == Str(4, app) && fs[4] == Str(5, version)
    ensures terminal.Some? ==> fs[5] == Uint(6, terminal.value)
  {
    fs := [Uint(1, uid), Uint(2, sid)] + OnlineRest(token, app, version, terminal);
  }

  lemma NoSixth(fs: seq<Field>)
    requires forall k :: 0 <= k < |fs| ==> fs[k].num < 6
    ensures Last(Images(fs), 6) == None
  {
    hide Last, ToNumber;
    NoLast(Images(fs), 6);
  }

  /** A field is found if no field behind it has its number. */
  lemma Numbered(fs: seq<Field>, k: nat)
    requires k < |fs| && fs[k].num < 0x1000_0000
    requires forall j :: k < j < |fs| ==> fs[j].num < 0x1000_0000 && fs[j].num != fs[k].num
    ensures Last(Images(fs), fs[k].num) == Some(Image(fs[k]).v)
  {
    hide Last, ToNumber;
    LastIs(Images(fs), k);
  }

  lemma {:induction false} NoLast(fs: seq<Found>, num: nat)
    requires forall k :: 0 <= k < |fs| ==> fs[k].num != num
    ensures Last(fs, num) == None
  {
    if fs != [] {
      NoLast(fs[..|fs| - 1], num);
    }
  }

  // ----- the reader of app.js

  /** Varints and length-delimited bytes with tags and lengths below 2 to the 31st; the last field may be
      cut off. */
  predicate Readable(bytes: seq<Byte>, i: nat)
    decreases |bytes| - i
  {
    i >= |bytes| || (
      var tag := ReadAt(bytes, i);
      var val := ReadAt(bytes, tag.next);
      && tag.value < 0x8000_0000
      && if tag.value % 8 == 0 then
           Readable(bytes, val.next)
         else
           tag.value % 8 == 2 && val.value < 0x8000_0000 && Readable(bytes, val.next + val.value))
  }

  /** The same position, as far as there are bytes. */
  predicate Same(bytes: seq<Byte>, i: nat, j: nat) { i == j || (i >= |bytes| && j >= |bytes|) }

  /** The loops of decodeBc for tags and lengths, in 32-bit arithmetic with sign: right exactly for values
      below 2 to the 31st, however they are padded. */
  method ReadInt32(bytes: seq<Byte>, from: nat) returns (value: int, i: nat)
    ensures value == ReadAt(bytes, from).value <==> ReadAt(bytes, from).value < 0x8000_0000
    ensures i > from && Same(bytes, i, ReadAt(bytes, from).next)
  {
    hide Pow2, ReadAt, Or, ToInt32, Partly;
    var shift := 0;
    value, i := 0, from;
    ghost var whole := ReadAt(bytes, from);
    PartlyAtFirst(whole.value);
    while true
      invariant i >= from && ReadAt(bytes, i).next == whole.next
      invariant -0x8000_0000 <= value < 0x8000_0000 && shift >= 0
      invariant whole.value < 0x8000_0000 ==> Partly(value, ReadAt(bytes, i).value, shift, whole.value)
      decreases |bytes| - i
    {
      var b := At(bytes, i);
      ReadStep(bytes, i);
      ghost var rest := if b < 128 then 0 else ReadAt(bytes, i + 1).value;
      if whole.value < 0x8000_0000 {
        Int32Step(value, b % 128, rest, shift, whole.value);
      }
      i := i + 1;
      ToInt32Range(Or(value % 0x1_0000_0000, b % 128 * Pow2(shift % 32)));
      value := ToInt32(Or(value % 0x1_0000_0000, b % 128 * Pow2(shift % 32)));
      shift := shift + 7;
      if b < 128 {
        if whole.value < 0x8000_0000 {
          PartlyAtLast(value, shift, whole.value);
        }
        return;
      }
    }
  }

  lemma ToInt32Range(x: int)
    ensures -0x8000_0000 <= ToInt32(x) < 0x8000_0000
  {
  }

  /** Below 2 to the 31st the arithmetic of 32-bit numbers is that of the integers. */
  lemma Int32Step(value: int, d: nat, rest: nat, shift: nat, whole: nat)
    requires d < 128 && whole < 0x8000_0000 && Partly(value, d + 128 * rest, shift, whole)
    ensures Partly(ToInt32(Or(value % 0x1_0000_0000, d * Pow2(shift % 32))), rest, shift + 7, whole)
  {
    hide Or, Pow2, Partly, ToInt32;
    PartlyStep(value, d, rest, shift, whole);
    SmallIsSame(value, d, shift);
  }

  lemma SmallIsSame(value: nat, d: nat, shift: nat)
    requires value + d * Pow2(shift) < 0x8000_0000 && Or(value, d * Pow2(shift)) == value + d * Pow2(shift)
    ensures ToInt32(Or(value % 0x1_0000_0000, d * Pow2(shift % 32))) == value + d * Pow2(shift)
  {
    hide Pow2, Or, ToInt32;
    MulLess(0, d, Pow2(shift));
    SmallMod(value);
    if shift >= 32 {
      FarBits(d, shift);
      OrZero(value);
    }
  }

  lemma SmallMod(value: nat)
    requires value < 0x8000_0000
    ensures value % 0x1_0000_0000 == value
  {
  }

  lemma FarBits(d: nat, shift: nat)
    requires shift >= 32 && d * Pow2(shift) < 0x8000_0000
    ensures d == 0
  {
    hide Pow2;
    Pow2Monotone(32, shift);
    Pow2At32();
    if d > 0 {
      AtLeast(d, Pow2(shift));
    }
  }

  lemma OrZero(value: nat)
    ensures Or(value, 0) == value
  {
  }

  /** The loop of decodeBc that skips a varint. */
  method SkipVarint(bytes: seq<Byte>, from: nat) returns (i: nat)
    ensures i > from && Same(bytes, i, ReadAt(bytes, from).next)
  {
    i := from;
    while At(bytes, i) >= 128
      invariant i >= from && ReadAt(bytes, i).next == ReadAt(bytes, from).next
      decreases |bytes| - i
    {
      i := i + 1;
    }
    i := i + 1;
  }

  /** The last bytes with a number, whatever numbers stand behind them. */
  function LastBytes(fs: seq<Found>, num: nat): Option<seq<Byte>> {
    if fs == [] then None
    else
      var f := fs[|fs| - 1];
      if f.num == num && f.v.Bytes? then Some(f.v.s) else LastBytes(fs[..|fs| - 1], num)
  }

  lemma LastBytesAdded(done: seq<Found>, f: Found, num: nat)
    ensures LastBytes(done + [f], num) ==
      if f.num == num && f.v.Bytes? then Some(f.v.s) else LastBytes(done, num)
  {
    assert (done + [f])[..|done|] == done;
  }

  ghost predicate HasBytes(fs: seq<Found>, num: nat) {
    exists k :: 0 <= k < |fs| && fs[k].num == num && fs[k].v.Bytes?
  }

  /** The last value with a number is not the last bytes with it exactly if it is a number behind bytes. */
  lemma {:induction false} LastDiffers(fs: seq<Found>, num: nat)
    ensures LastBytes(fs, num).Some? <==> HasBytes(fs, num)
    ensures BytesOf(Last(fs, num)) != LastBytes(fs, num) <==>
      Last(fs, num).Some? && Last(fs, num).value.Num? && HasBytes(fs, num)
  {
    if fs != [] {
      var n := |fs| - 1;
      LastDiffers(fs[..n], num);
      assert HasBytes(fs, num) <==> HasBytes(fs[..n], num) || (fs[n].num == num && fs[n].v.Bytes?) by {
        if k :| 0 <= k < n && fs[k].num == num && fs[k].v.Bytes? {
          assert fs[..n][k] == fs[k];
        }
      }
    }
  }

  /** decodeBc: on readable bytes it extracts the last bytes of field 6.  That is what decodeFields finds
      there, except exactly when that is a number behind bytes of field 6. */
  method DecodeBc(bytes: seq<Byte>) returns (chat: Option<seq<Byte>>)
    requires Readable(bytes, 0)
    ensures chat == LastBytes(Fields(bytes, 0), 6)
    ensures var fs := Fields(bytes, 0);
      chat != BytesOf(Last(fs, 6)) <==> Last(fs, 6).Some? && Last(fs, 6).value.Num? && HasBytes(fs, 6)
  {
    hide Fields, ReadAt, ToNumber, LastBytes, Last, Slice, Same;
    var i: nat := 0;
    chat := None;
    ghost var done: seq<Found> := [];
    NoBytesAtAll();
    while i < |bytes|
      invariant Readable(bytes, i) && done + Fields(bytes, i) == Fields(bytes, 0)
      invariant chat == LastBytes(done, 6)
      decreases |bytes| - i
    {
      StepFrom(bytes, i);
      ghost var t := ReadAt(bytes, i);
      ghost var val := ReadAt(bytes, t.next);
      var tag, afterTag := ReadInt32(bytes, i);
      Beyond(bytes, afterTag, t.next, 0);
      var field, wire := tag / 8, tag % 8;
      NumberKeeps(field);
      ghost var f: Found;
      if wire == 0 {
        var next := SkipVarint(bytes, afterTag);
        SameTwice(bytes, next, ReadAt(bytes, afterTag).next, val.next);
        Beyond(bytes, next, val.next, 0);
        f := Found(field, Num(ToNumber(val.value)));
        i := next;
      } else if wire == 2 {
        var len, from := ReadInt32(bytes, afterTag);
        NumberKeeps(len);
        SameTwice(bytes, from, ReadAt(bytes, afterTag).next, val.next);
        Beyond(bytes, from, val.next, len);
        var slice := Slice(bytes, from, from + len);
        f := Found(field, Bytes(slice));
        i := from + len;
        if field == 6 {
          chat := Some(slice);
        }
      }
      LastBytesAdded(done, f, 6);
      Moved(done, f, Fields(bytes, i));
      done := done + [f];
    }
    Exhausted(bytes, i);
    assert done + [] == done;
    LastDiffers(Fields(bytes, 0), 6);
  }

  lemma NoBytesAtAll()
    ensures LastBytes([], 6) == None
  {
  }

  /** Behind the end it makes no difference where one reads. */
  lemma Beyond(bytes: seq<Byte>, i: nat, j: nat, n: nat)
    requires Same(bytes, i, j)
    ensures Same(bytes, ReadAt(bytes, i).next, ReadAt(bytes, j).next)
    ensures ReadAt(bytes, i).value == ReadAt(bytes, j).value
    ensures Fields(bytes, i + n) == Fields(bytes, j + n) && Readable(bytes, i + n) == Readable(bytes, j + n)
    ensures Slice(bytes, i, i + n) == Slice(bytes, j, j + n)
  {
  }

  lemma SameTwice(bytes: seq<Byte>, i: nat, j: nat, k: nat)
    requires Same(bytes, i, j) && Same(bytes, j, k)
    ensures Same(bytes, i, k)
  {
  }

  /** Bytes for which the two readers differ: the text "A" in field 6, and the number 5 behind it. */
  method NumberBehindText() returns (chat: Option<seq<Byte>>, fields: map<nat, Value>)
    ensures chat == Some([0x41]) && Get(fields, 6) == Some(Num(5))
  {
    hide ToNumber;
    var bytes := [0x32, 1, 0x41, 0x30, 5];
    NumberKeeps(1);
    NumberKeeps(5);
    NumberKeeps(6);
    assert Fields(bytes, 5) == [] && Readable(bytes, 5);
    assert Slice(bytes, 2, 3) == [0x41];
    assert Fields(bytes, 3) == [Found(6, Num(5))];
    assert Fields(bytes, 0) == [Found(6, Bytes([0x41]))] + [Found(6, Num(5))];
    assert Readable(bytes, 3);
    LastAdded([Found(6, Bytes([0x41]))], Found(6, Num(5)));
    LastBytesAdded([Found(6, Bytes([0x41]))], Found(6, Num(5)), 6);
    LastBytesAdded([], Found(6, Bytes([0x41])), 6);
    chat := DecodeBc(bytes);
    fields := DecodeFields(bytes);
  }

  // ----- what the writers write is readable

  /** Whatever the writers make of short strings and numbers of any size is readable. */
  lemma {:induction false} EncodedReadable(pre: seq<Byte>, fs: seq<Field>)
    requires forall k :: 0 <= k < |fs| && fs[k].Str? ==> |fs[k].s| < 0x8000_0000
    ensures Readable(pre + Encode(fs), |pre|)
    decreases |fs|
  {
    hide EncodeField, Readable;
    if fs == [] {
      assert pre + Encode(fs) == pre;
      AtEnd(pre);
    } else {
      var rest := Encode(fs[1..]);
      var e := EncodeField(fs[0]);
      Assoc(pre, e, rest);
      EncodedReadable(pre + e, fs[1..]);
      FieldReadable(pre, fs[0], rest);
    }
  }

  lemma AtEnd(s: seq<Byte>)
    ensures Readable(s, |s|)
  {
  }

  lemma FieldReadable(pre: seq<Byte>, f: Field, post: seq<Byte>)
    requires f.Str? ==> |f.s| < 0x8000_0000
    requires Readable(pre + EncodeField(f) + post, |pre| + |EncodeField(f)|)
    ensures Readable(pre + EncodeField(f) + post, |pre|)
  {
    hide ReadAt, Varint, Slice, Tag, Written, Seen;
    TagIs(f);
    match f {
      case Uint(num, v) =>
        ReadsTwo(pre, Tag(f), v, post);
      case Str(num, str) =>
        WrittenIs(|str|);
        Regroup(pre, Varint(Tag(f)), Varint(|str|), str, post);
        ReadsTwo(pre, Tag(f), |str|, str + post);
    }
  }

  /** The second reader gets the text of a chat message that pb.js wrote. */
  method BcReadsChat(uid: nat, rid: nat, gid: nat, level: nat, time: nat, text: seq<Byte>)
    returns (chat: Option<seq<Byte>>)
    requires |text| < 0x8000_0000
    ensures chat == Some(text)
  {
    hide Fields, Encode, Readable, Last;
    var bytes := EncodeRoomChat(uid, rid, gid, level, time, text);
    ghost var fs := RoomChatFields(uid, rid, gid, level, time, text);
    EncodedReadable([], fs);
    assert [] + Encode(fs) == Encode(fs);
    RoomChatRoundTrip(uid, rid, gid, level, time, text);
    chat := DecodeBc(bytes);
  }
}
