/** Lists written element by element behind a 32-bit count, for any element format. */
module CountedList {
  import opened Prelude
  import opened LittleEndian
  import opened Wire

  /** A format: how to write a value, how to read one at a cursor, and which values it can carry. */
  datatype Codec<!T> = Codec(enc: T -> Bytes, dec: (Bytes, nat) -> Read<T>, fits: T -> bool)

  /** Whatever is read from `s` is representable, and its encoding is exactly what was passed over. */
  ghost predicate Sound<T>(k: Codec<T>, s: Bytes) {
    forall c: nat ::
      k.dec(s, c).Got? ==>
        var x := k.dec(s, c).value;
        k.fits(x) && At(s, c, k.enc(x)) && k.dec(s, c).next == c + |k.enc(x)|
  }

  /** Wherever the encoding of a representable value stands in `s`, reading there returns it. */
  ghost predicate Complete<T(!new)>(k: Codec<T>, s: Bytes) {
    forall x, c: nat :: k.fits(x) && At(s, c, k.enc(x)) ==> k.dec(s, c) == Got(x, c + |k.enc(x)|)
  }

  function Concat<T>(enc: T -> Bytes, xs: seq<T>): Bytes {
    if xs == [] then [] else Concat(enc, xs[..|xs| - 1]) + enc(xs[|xs| - 1])
  }

  /** Reads `n` elements one after the other, as the `push_back` loops do. */
  function ReadN<T>(dec: (Bytes, nat) -> Read<T>, n: nat, s: Bytes, c: nat): (r: Read<seq<T>>)
    ensures r.Got? ==> |r.value| == n
  {
    if n == 0 then Got([], c) else
    var (xs, c1) :- ReadN(dec, n - 1, s, c);
    var (x, c2) :- dec(s, c1);
    Got(xs + [x], c2)
  }

  function CountedBytes<T>(enc: T -> Bytes, xs: seq<T>): Bytes {
    LE(|xs|, 4) + Concat(enc, xs)
  }

  function ReadCounted<T>(dec: (Bytes, nat) -> Read<T>, s: Bytes, c: nat): Read<seq<T>> {
    var (n, c1) :- ReadUint32(s, c);
    if n >= TWO_TO_THE_31 then Fail(CountOverflow) else ReadN(dec, n, s, c1)
  }

  predicate CountedFits<T>(fits: T -> bool, xs: seq<T>) {
    |xs| < TWO_TO_THE_31 && forall i :: 0 <= i < |xs| ==> fits(xs[i])
  }

  // ---- loops ----

  /** A failed element fails the whole list. */
  lemma {:induction false} ReadNFails<T>(dec: (Bytes, nat) -> Read<T>, i: nat, n: nat, s: Bytes, c: nat)
    requires i <= n && ReadN(dec, i, s, c).Fail?
    ensures ReadN(dec, n, s, c) == ReadN(dec, i, s, c)
    decreases n
  {
    if i < n {
      ReadNFails(dec, i, n - 1, s, c);
    }
  }

  lemma ConcatSnoc<T>(enc: T -> Bytes, xs: seq<T>, i: nat)
    requires i < |xs|
    ensures Concat(enc, xs[..i + 1]) == Concat(enc, xs[..i]) + enc(xs[i])
  {
    assert xs[..i + 1][..i] == xs[..i];
  }

  lemma {:induction false} ConcatAppend<T>(enc: T -> Bytes, xs: seq<T>, ys: seq<T>)
    ensures Concat(enc, xs + ys) == Concat(enc, xs) + Concat(enc, ys)
  {
    if ys == [] {
      assert xs + ys == xs;
    } else {
      var m := |ys| - 1;
      ConcatAppend(enc, xs, ys[..m]);
      assert (xs + ys)[..|xs + ys| - 1] == xs + ys[..m];
    }
  }

  lemma {:induction false} ConcatCongruent<T>(enc: T -> Bytes, xs: seq<T>, ys: seq<T>)
    requires |xs| == |ys| && forall i :: 0 <= i < |xs| ==> enc(xs[i]) == enc(ys[i])
    ensures Concat(enc, xs) == Concat(enc, ys)
  {
    if xs != [] {
      ConcatCongruent(enc, xs[..|xs| - 1], ys[..|ys| - 1]);
    }
  }

  function Sum<T>(f: T -> nat, xs: seq<T>): nat {
    if xs == [] then 0 else Sum(f, xs[..|xs| - 1]) + f(xs[|xs| - 1])
  }

  lemma {:induction false} ConcatLength<T(!new)>(enc: T -> Bytes, f: T -> nat, xs: seq<T>)
    requires forall x :: |enc(x)| == f(x)
    ensures |Concat(enc, xs)| == Sum(f, xs)
  {
    if xs != [] {
      ConcatLength(enc, f, xs[..|xs| - 1]);
    }
  }

  // ---- at one place stands at most one value, whatever a decoder would do ----

  ghost predicate Unique<T(!new)>(enc: T -> Bytes, fits: T -> bool, s: Bytes) {
    forall x, y, c: nat :: fits(x) && fits(y) && At(s, c, enc(x)) && At(s, c, enc(y)) ==> x == y
  }

  lemma CompleteIsUnique<T(!new)>(k: Codec<T>, s: Bytes)
    requires Complete(k, s)
    ensures Unique(k.enc, k.fits, s)
  {
    forall x, y, c: nat | k.fits(x) && k.fits(y) && At(s, c, k.enc(x)) && At(s, c, k.enc(y)) ensures x == y {
      assert k.dec(s, c) == Got(x, c + |k.enc(x)|);
    }
  }

  lemma UniqueAt<T(!new)>(enc: T -> Bytes, fits: T -> bool, x: T, y: T, s: Bytes, c: nat)
    requires Unique(enc, fits, s) && fits(x) && fits(y)
    requires At(s, c, enc(x)) && At(s, c, enc(y))
    ensures x == y
  {
  }

  lemma {:induction false} ConcatUnique<T(!new)>(
    enc: T -> Bytes, fits: T -> bool, xs: seq<T>, ys: seq<T>, s: Bytes, c: nat)
    requires Unique(enc, fits, s) && |xs| == |ys|
    requires forall i :: 0 <= i < |xs| ==> fits(xs[i]) && fits(ys[i])
    requires At(s, c, Concat(enc, xs)) && At(s, c, Concat(enc, ys))
    ensures xs == ys
  {
    hide At, Unique;
    if xs != [] {
      var m := |xs| - 1;
      AtConcat(s, c, Concat(enc, xs[..m]), enc(xs[m]));
      AtConcat(s, c, Concat(enc, ys[..m]), enc(ys[m]));
      ConcatUnique(enc, fits, xs[..m], ys[..m], s, c);
      UniqueAt(enc, fits, xs[m], ys[m], s, c + |Concat(enc, xs[..m])|);
      assert xs == xs[..m] + [xs[m]] && ys == ys[..m] + [ys[m]];
    }
  }

  /** A list whose count fits its 32-bit field; the decoder's loop limit plays no part. */
  predicate CountWritable<T>(fits: T -> bool, xs: seq<T>) {
    |xs| < TWO_TO_THE_32 && forall i :: 0 <= i < |xs| ==> fits(xs[i])
  }

  lemma CountedUnique<T(!new)>(
    enc: T -> Bytes, fits: T -> bool, xs: seq<T>, ys: seq<T>, s: Bytes, c: nat)
    requires Unique(enc, fits, s) && CountWritable(fits, xs) && CountWritable(fits, ys)
    requires At(s, c, CountedBytes(enc, xs)) && At(s, c, CountedBytes(enc, ys))
    ensures xs == ys
  {
    hide At, LE;
    Widths();
    AtConcat(s, c, LE(|xs|, 4), Concat(enc, xs));
    AtConcat(s, c, LE(|ys|, 4), Concat(enc, ys));
    ReadIntComplete(s, c, |xs|, 4);
    ReadIntComplete(s, c, |ys|, 4);
    ConcatUnique(enc, fits, xs, ys, s, c + 4);
  }

  // ---- exactness lifts from elements to lists ----

  lemma {:induction false} ReadNSound<T>(k: Codec<T>, n: nat, s: Bytes, c: nat)
    requires Sound(k, s) && c <= |s|
    ensures var r := ReadN(k.dec, n, s, c);
            r.Got? ==>
              && (forall i :: 0 <= i < n ==> k.fits(r.value[i]))
              && At(s, c, Concat(k.enc, r.value))
              && r.next == c + |Concat(k.enc, r.value)|
  {
    hide At;
    var r := ReadN(k.dec, n, s, c);
    if n == 0 {
      AtNone(s, c);
    } else if r.Got? {
      ReadNSound(k, n - 1, s, c);
      var r1 := ReadN(k.dec, n - 1, s, c);
      assert r.value[..n - 1] == r1.value;
      AtConcat(s, c, Concat(k.enc, r1.value), k.enc(r.value[n - 1]));
    }
  }

  lemma {:induction false} ReadNComplete<T(!new)>(k: Codec<T>, xs: seq<T>, s: Bytes, c: nat)
    requires Complete(k, s)
    requires forall i :: 0 <= i < |xs| ==> k.fits(xs[i])
    requires At(s, c, Concat(k.enc, xs))
    ensures ReadN(k.dec, |xs|, s, c) == Got(xs, c + |Concat(k.enc, xs)|)
  {
    hide At;
    if xs != [] {
      var m := |xs| - 1;
      AtConcat(s, c, Concat(k.enc, xs[..m]), k.enc(xs[m]));
      ReadNComplete(k, xs[..m], s, c);
      assert xs[..m] + [xs[m]] == xs;
    }
  }

  lemma CountedSound<T>(k: Codec<T>, s: Bytes, c: nat)
    requires Sound(k, s)
    ensures var r := ReadCounted(k.dec, s, c);
            r.Got? ==>
              && CountedFits(k.fits, r.value)
              && At(s, c, CountedBytes(k.enc, r.value))
              && r.next == c + |CountedBytes(k.enc, r.value)|
  {
    hide At, LE, Sound;
    var r := ReadCounted(k.dec, s, c);
    if r.Got? {
      assert c + 4 <= |s| by { assert ReadUint32(s, c).Got?; }
      var n := ReadUint32(s, c).value;
      ReadNSound(k, n, s, c + 4);
      AtConcat(s, c, LE(n, 4), Concat(k.enc, r.value));
    }
  }

  lemma CountedComplete<T(!new)>(k: Codec<T>, xs: seq<T>, s: Bytes, c: nat)
    requires Complete(k, s)
    requires CountedFits(k.fits, xs)
    requires At(s, c, CountedBytes(k.enc, xs))
    ensures ReadCounted(k.dec, s, c) == Got(xs, c + |CountedBytes(k.enc, xs)|)
  {
    Widths();
    AtConcat(s, c, LE(|xs|, 4), Concat(k.enc, xs));
    ReadIntComplete(s, c, |xs|, 4);
    ReadNComplete(k, xs, s, c + 4);
  }

  ghost predicate ReadErrorsOnly<T>(dec: (Bytes, nat) -> Read<T>) {
    forall s, c: nat :: dec(s, c).Fail? ==> ReadError(dec(s, c).error)
  }

  lemma {:induction false} ReadNErrors<T>(dec: (Bytes, nat) -> Read<T>, n: nat, s: Bytes, c: nat)
    requires ReadErrorsOnly(dec)
    ensures var r := ReadN(dec, n, s, c); r.Fail? ==> ReadError(r.error)
  {
    if n > 0 {
      ReadNErrors(dec, n - 1, s, c);
    }
  }

  lemma CountedErrors<T>(dec: (Bytes, nat) -> Read<T>, s: Bytes, c: nat)
    requires ReadErrorsOnly(dec)
    ensures var r := ReadCounted(dec, s, c); r.Fail? ==> ReadError(r.error)
  {
    if ReadUint32(s, c).Got? {
      ReadNErrors(dec, ReadUint32(s, c).value, s, c + 4);
    }
  }
}
