/** Fixed-width integers as `stringstream::write` lays them out: least significant byte first. */
module LittleEndian {
  import opened Prelude

  function Pow256(w: nat): (p: nat)
    ensures p > 0
  {
    if w == 0 then 1 else 256 * Pow256(w - 1)
  }

  /** Byte `i` of `n`, counted from the least significant. */
  function Digit(n: nat, i: nat): byte {
    if i == 0 then n % 256 else Digit(n / 256, i - 1)
  }

  /** The low `w` bytes of `n`; wider values are truncated. */
  function LE(n: nat, w: nat): (s: Bytes)
    ensures |s| == w
  {
    seq(w, i requires 0 <= i < w => Digit(n, i))
  }

  lemma LEFirst(n: nat, w: nat)
    requires w > 0
    ensures LE(n, w) == [n % 256] + LE(n / 256, w - 1)
  {
    var s := [n % 256] + LE(n / 256, w - 1);
    forall i | 0 <= i < w ensures LE(n, w)[i] == s[i] {
    }
  }

  function Value(s: Bytes): (n: nat)
    ensures n < Pow256(|s|)
  {
    if s == [] then 0 else s[0] + 256 * Value(s[1..])
  }

  lemma Widths()
    ensures Pow256(1) == 0x100
    ensures Pow256(2) == 0x1_0000
    ensures Pow256(4) == 0x1_0000_0000
    ensures Pow256(8) == 0x1_0000_0000_0000_0000
  {
    assert Pow256(2) == 256 * Pow256(1);
    assert Pow256(3) == 256 * Pow256(2);
    assert Pow256(4) == 256 * Pow256(3);
    assert Pow256(5) == 256 * Pow256(4);
    assert Pow256(6) == 256 * Pow256(5);
    assert Pow256(7) == 256 * Pow256(6);
  }

  /** What the widths in use write: the least significant byte first, and nothing above the width. */
  lemma LEDigits(n: nat)
    ensures LE(n, 1) == [n % 0x100]
    ensures LE(n, 2) == [n % 0x100, n / 0x100 % 0x100]
    ensures LE(n, 4) == [n % 0x100, n / 0x100 % 0x100, n / 0x1_0000 % 0x100, n / 0x100_0000 % 0x100]
    ensures LE(n, 8) == [n % 0x100, n / 0x100 % 0x100, n / 0x1_0000 % 0x100, n / 0x100_0000 % 0x100,
                         n / 0x1_0000_0000 % 0x100, n / 0x100_0000_0000 % 0x100,
                         n / 0x1_0000_0000_0000 % 0x100, n / 0x100_0000_0000_0000 % 0x100]
  {
    hide LE;
    LEOne(n);
    LEFirst(n, 2);
    LEOne(n / 0x100);
    LEFour(n);
    LEFour(n / TWO_TO_THE_32);
    LESplit(n);
  }

  lemma LEOne(n: nat)
    ensures LE(n, 1) == [n % 0x100]
  {
    LEFirst(n, 1);
  }

  lemma LEFour(n: nat)
    ensures LE(n, 4) == [n % 0x100, n / 0x100 % 0x100, n / 0x1_0000 % 0x100, n / 0x100_0000 % 0x100]
  {
    hide LE;
    var n1, n2, n3 := n / 0x100, n / 0x100 / 0x100, n / 0x100 / 0x100 / 0x100;
    LEFirst(n, 4);
    LEFirst(n1, 3);
    LEFirst(n2, 2);
    LEOne(n3);
    assert LE(n, 4) == [n % 0x100, n1 % 0x100, n2 % 0x100, n3 % 0x100];
    assert n2 == n / 0x1_0000;
    assert n3 == n / 0x100_0000;
  }

  /** What the bytes of a packet type or a size stand for. */
  lemma ValueDigits(a: nat, b: nat, c: nat, d: nat)
    requires a < 0x100 && b < 0x100 && c < 0x100 && d < 0x100
    ensures Value([a, b]) == a + 0x100 * b
    ensures Value([a, b, c, d]) == a + 0x100 * b + 0x1_0000 * c + 0x100_0000 * d
  {
    assert [a, b][1..] == [b] && [a, b, c, d][1..] == [b, c, d] && [b, c, d][1..] == [c, d] && [c, d][1..] == [d];
    assert [b][1..] == [] && [d][1..] == [];
    assert Value([b]) == b && Value([d]) == d;
    assert Value([c, d]) == c + 0x100 * d;
    assert Value([b, c, d]) == b + 0x100 * Value([c, d]);
  }

  lemma {:induction false} ValueOfLE(n: nat, w: nat)
    requires n < Pow256(w)
    ensures Value(LE(n, w)) == n
  {
    if w > 0 {
      LEFirst(n, w);
      ValueOfLE(n / 256, w - 1);
      assert LE(n, w)[1..] == LE(n / 256, w - 1);
    }
  }

  lemma {:induction false} LEOfValue(s: Bytes)
    ensures LE(Value(s), |s|) == s
  {
    if s != [] {
      LEOfValue(s[1..]);
      LEFirst(Value(s), |s|);
      assert Value(s) % 256 == s[0] && Value(s) / 256 == Value(s[1..]);
    }
  }

  /** Writing `w` bytes keeps the value only modulo 256^w. */
  lemma {:induction false} LEWraps(n: nat, m: nat, w: nat)
    ensures LE(n + m * Pow256(w), w) == LE(n, w)
  {
    if w > 0 {
      var k := m * Pow256(w - 1);
      assert m * Pow256(w) == 256 * k by {
        assert Pow256(w) == 256 * Pow256(w - 1);
      }
      assert (n + 256 * k) % 256 == n % 256 && (n + 256 * k) / 256 == n / 256 + k;
      LEFirst(n + 256 * k, w);
      LEFirst(n, w);
      LEWraps(n / 256, m, w - 1);
    }
  }

  /** What is left of `n` when its low `w` bytes are dropped. */
  function High(n: nat, w: nat): nat {
    if w == 0 then n else High(n / 256, w - 1)
  }

  lemma {:induction false} LEConcat(n: nat, v: nat, w: nat)
    ensures LE(n, v + w) == LE(n, v) + LE(High(n, v), w)
  {
    if v > 0 {
      LEConcat(n / 256, v - 1, w);
      LEFirst(n, v + w);
      LEFirst(n, v);
    }
  }

  /** Eight bytes are the low four followed by the high four. */
  lemma LESplit(n: nat)
    ensures LE(n, 8) == LE(n, 4) + LE(n / TWO_TO_THE_32, 4)
  {
    LEConcat(n, 4, 4);
    assert High(n, 4) == High(n / 256, 3) == High(n / 256 / 256, 2) == High(n / 256 / 256 / 256, 1);
  }

  lemma LEInjective(m: nat, n: nat, w: nat)
    requires m < Pow256(w) && n < Pow256(w)
    requires LE(m, w) == LE(n, w)
    ensures m == n
  {
    ValueOfLE(m, w);
    ValueOfLE(n, w);
  }
}
