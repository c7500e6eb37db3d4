/** Reading and writing at a cursor: the primitives every record is made of. */
module Wire {
  import opened Prelude
  import opened LittleEndian

  /** The bytes `e` stand in `s` at position `c`, whatever comes before and after them. */
  ghost predicate At(s: Bytes, c: nat, e: Bytes) {
    c + |e| <= |s| && s[c..c + |e|] == e
  }

  lemma AtConcat(s: Bytes, c: nat, a: Bytes, b: Bytes)
    ensures At(s, c, a + b) <==> At(s, c, a) && At(s, c + |a|, b)
  {
    var m, n := c + |a|, c + |a| + |b|;
    if n <= |s| {
      assert s[c..n] == s[c..m] + s[m..n];
      if s[c..n] == a + b {
        assert s[c..m] == s[c..n][..|a|] == a;
        assert s[m..n] == s[c..n][|a|..] == b;
      }
    }
  }

  lemma AtPrefix(e: Bytes, rest: Bytes)
    ensures At(e + rest, 0, e)
  {
  }

  lemma AtNone(s: Bytes, c: nat)
    requires c <= |s|
    ensures At(s, c, [])
  {
  }

  lemma AtUnique(s: Bytes, c: nat, a: Bytes, b: Bytes)
    requires |a| == |b| && At(s, c, a) && At(s, c, b)
    ensures a == b
  {
  }

  /** What reading a record can fail with. */
  predicate ReadError(e: Error) {
    e in {OutOfRange, EmptyKey, CountOverflow}
  }

  // ---- integers ----

  function ReadInt(s: Bytes, c: nat, w: nat): (r: Read<nat>)
    ensures r.Got? ==> r.value < Pow256(w) && r.next == c + w && At(s, c, LE(r.value, w))
    ensures r.Fail? ==> ReadError(r.error)
  {
    if c + w <= |s| then
      LEOfValue(s[c..c + w]);
      Got(Value(s[c..c + w]), c + w)
    else
      Fail(OutOfRange)
  }

  lemma ReadIntComplete(s: Bytes, c: nat, n: nat, w: nat)
    requires n < Pow256(w) && At(s, c, LE(n, w))
    ensures ReadInt(s, c, w) == Got(n, c + w)
  {
    ValueOfLE(n, w);
  }

  function ReadUint8(s: Bytes, c: nat): (r: Read<uint8>)
    ensures r == ReadInt(s, c, 1)
  {
    Widths();
    var (n, c1) :- ReadInt(s, c, 1);
    Got(n, c1)
  }

  function ReadUint32(s: Bytes, c: nat): (r: Read<uint32>)
    ensures r == ReadInt(s, c, 4)
  {
    Widths();
    var (n, c1) :- ReadInt(s, c, 4);
    Got(n, c1)
  }

  function ReadUint64(s: Bytes, c: nat): (r: Read<uint64>)
    ensures r == ReadInt(s, c, 8)
  {
    Widths();
    var (n, c1) :- ReadInt(s, c, 8);
    Got(n, c1)
  }

  // ---- length-prefixed strings and keys ----

  /** A string behind its size; the size field is a truncated `uint32_t`. */
  function StringBytes(b: Bytes): (e: Bytes)
    ensures |e| == 4 + |b|
  {
    LE(|b|, 4) + b
  }

  function ReadString(s: Bytes, c: nat): (r: Read<Bytes>)
    ensures r.Got? ==>
              |r.value| < TWO_TO_THE_32 && r.next == c + 4 + |r.value| && At(s, c, StringBytes(r.value))
    ensures r.Fail? ==> ReadError(r.error)
  {
    var (n, c1) :- ReadUint32(s, c);
    if c1 + n <= |s| then
      AtConcat(s, c, LE(n, 4), s[c1..c1 + n]);
      Got(s[c1..c1 + n], c1 + n)
    else
      Fail(OutOfRange)
  }

  lemma ReadStringComplete(s: Bytes, c: nat, b: Bytes)
    requires |b| < TWO_TO_THE_32 && At(s, c, StringBytes(b))
    ensures ReadString(s, c) == Got(b, c + 4 + |b|)
  {
    Widths();
    AtConcat(s, c, LE(|b|, 4), b);
    ReadIntComplete(s, c, |b|, 4);
  }

  function ReadKey(s: Bytes, c: nat): (r: Read<Key>)
    ensures r.Got? <==> ReadString(s, c).Got? && ReadString(s, c).value != []
    ensures r.Got? ==> r == ReadString(s, c)
    ensures r.Fail? ==> ReadError(r.error)
  {
    var (b, c1) :- ReadString(s, c);
    if b == [] then Fail(EmptyKey) else Got(b, c1)
  }

  // ---- the imperative side: a growing output stream and a shared cursor ----

  /** `std::stringstream` used for output only. */
  class StringStream {
    var data: Bytes

    constructor ()
      ensures data == []
    {
      data := [];
    }

    method WriteInt(n: nat, w: nat)
      modifies this
      ensures data == old(data) + LE(n, w)
    {
      data := data + LE(n, w);
    }

    method WriteBytes(b: Bytes)
      modifies this
      ensures data == old(data) + b
    {
      data := data + b;
    }
  }

  /** The `size_t *cr` that nested decoders advance. */
  class Cursor {
    var pos: nat

    constructor (pos: nat)
      ensures this.pos == pos
    {
      this.pos := pos;
    }
  }

  /** Where a decoder starts: at the caller's cursor, or at 0 when none is passed. */
  ghost function Start(cr: Cursor?): nat
    reads cr
  {
    if cr == null then 0 else cr.pos
  }

  /** `*(uint32_t *)&sdata[*cr]; *cr += 4`, refused when it would leave the string. */
  method TakeUint32(serial: Bytes, cr: Cursor) returns (r: Result<uint32>)
    modifies cr
    ensures r == ReadUint32(serial, old(cr.pos)).Result()
    ensures r.Ok? ==> cr.pos == ReadUint32(serial, old(cr.pos)).next
  {
    var read := ReadUint32(serial, cr.pos);
    if read.Got? {
      cr.pos := cr.pos + 4;
    }
    r := read.Result();
  }

  /** `std::string(&sdata[*cr], n); *cr += n`, refused when it would leave the string. */
  method TakeBytes(serial: Bytes, cr: Cursor, n: nat) returns (r: Result<Bytes>)
    modifies cr
    ensures r == if old(cr.pos) + n <= |serial| then Ok(serial[old(cr.pos)..old(cr.pos) + n]) else Err(OutOfRange)
    ensures r.Ok? ==> cr.pos == old(cr.pos) + n
  {
    if cr.pos + n > |serial| {
      return Err(OutOfRange);
    }
    r := Ok(serial[cr.pos..cr.pos + n]);
    cr.pos := cr.pos + n;
  }

  /** A size, then that many bytes, as every string and key is read. */
  method TakeString(serial: Bytes, cr: Cursor) returns (r: Result<Bytes>)
    modifies cr
    ensures r == ReadString(serial, old(cr.pos)).Result()
    ensures r.Ok? ==> cr.pos == ReadString(serial, old(cr.pos)).next
  {
    hide LE, At, ReadInt;
    var size :- TakeUint32(serial, cr);
    r := TakeBytes(serial, cr, size);
  }
}
