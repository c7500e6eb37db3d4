/** Cutting a string short never changes what is decoded: it makes the decoder run out of bytes. */
module Truncation {
  import opened Prelude
  import opened LittleEndian
  import opened Wire
  import opened CountedList
  import opened Transactions
  import opened Blocks

  /** What a read that succeeded becomes when the string ends at `k`. */
  function Cut<T>(r: Read<T>, k: nat): Read<T> {
    if r.Got? && r.next > k then Fail(OutOfRange) else r
  }

  /** Reading at `c` goes forward, and on a shorter string it gives the same or runs out of bytes. */
  ghost predicate CutAt<T>(dec: (Bytes, nat) -> Read<T>, s: Bytes, k: nat, c: nat)
    requires k <= |s|
  {
    var r := dec(s, c);
    r.Got? ==> c <= r.next && (c <= k ==> dec(s[..k], c) == Cut(r, k))
  }

  ghost predicate Cuts<T>(dec: (Bytes, nat) -> Read<T>, s: Bytes, k: nat)
    requires k <= |s|
  {
    forall c: nat :: CutAt(dec, s, k, c)
  }

  lemma IntCut(s: Bytes, k: nat, c: nat, w: nat)
    requires c <= k <= |s| && ReadInt(s, c, w).Got?
    ensures ReadInt(s[..k], c, w) == Cut(ReadInt(s, c, w), k)
  {
    if c + w <= k {
      assert s[..k][c..c + w] == s[c..c + w];
    }
  }

  lemma StringCut(s: Bytes, k: nat, c: nat)
    requires c <= k <= |s| && ReadString(s, c).Got?
    ensures ReadString(s[..k], c) == Cut(ReadString(s, c), k)
  {
    hide ReadInt, At;
    var n := ReadUint32(s, c).value;
    IntCut(s, k, c, 4);
    if c + 4 + n <= k {
      assert s[..k][c + 4..c + 4 + n] == s[c + 4..c + 4 + n];
    }
  }

  lemma KeyCut(s: Bytes, k: nat, c: nat)
    requires c <= k <= |s| && ReadKey(s, c).Got?
    ensures ReadKey(s[..k], c) == Cut(ReadKey(s, c), k)
  {
    hide ReadString, At;
    StringCut(s, k, c);
  }

  lemma InputCut(s: Bytes, k: nat)
    requires k <= |s|
    ensures Cuts(InputCodec().dec, s, k)
  {
    hide ReadInt, ReadString, At;
    forall c: nat ensures CutAt(InputCodec().dec, s, k, c) {
      if ParseInput(s, c).Got? && c <= k {
        var c1 := ReadString(s, c).next;
        StringCut(s, k, c);
        if c1 <= k {
          StringCut(s, k, c1);
          var c2 := ReadString(s, c1).next;
          if c2 <= k {
            IntCut(s, k, c2, 4);
          }
        }
      }
    }
  }

  lemma OutputCut(s: Bytes, k: nat, w: CoinWidth)
    requires k <= |s|
    ensures Cuts(OutputCodec(w).dec, s, k)
  {
    hide ReadInt, ReadKey, ReadString, At, Pow256;
    forall c: nat ensures CutAt(OutputCodec(w).dec, s, k, c) {
      if ParseOutput(s, c, w).Got? && c <= k {
        var c1 := ReadKey(s, c).next;
        KeyCut(s, k, c);
        if c1 <= k {
          IntCut(s, k, c1, 4);
          if c1 + 4 <= k {
            IntCut(s, k, c1 + 4, w);
          }
        }
      }
    }
  }

  lemma {:induction false} ReadNCut<T>(dec: (Bytes, nat) -> Read<T>, n: nat, s: Bytes, k: nat, c: nat)
    requires k <= |s| && Cuts(dec, s, k)
    ensures var r := ReadN(dec, n, s, c);
            r.Got? ==> c <= r.next && (c <= k ==> ReadN(dec, n, s[..k], c) == Cut(r, k))
  {
    if n > 0 && ReadN(dec, n, s, c).Got? {
      ReadNCut(dec, n - 1, s, k, c);
      assert CutAt(dec, s, k, ReadN(dec, n - 1, s, c).next);
    }
  }

  lemma CountedCutAt<T>(dec: (Bytes, nat) -> Read<T>, s: Bytes, k: nat, c: nat)
    requires k <= |s| && Cuts(dec, s, k)
    ensures var r := ReadCounted(dec, s, c);
            r.Got? ==> c <= r.next && (c <= k ==> ReadCounted(dec, s[..k], c) == Cut(r, k))
  {
    hide ReadInt, At, Cuts;
    if ReadCounted(dec, s, c).Got? {
      ReadNCut(dec, ReadUint32(s, c).value, s, k, c + 4);
      if c <= k {
        IntCut(s, k, c, 4);
      }
    }
  }

  lemma TxCut(s: Bytes, k: nat, w: CoinWidth, h: Bytes)
    requires k <= |s|
    ensures Cuts(TxCodec(w, h).dec, s, k)
  {
    hide ParseTx;
    forall c: nat ensures CutAt(TxCodec(w, h).dec, s, k, c) {
      TxCutAt(s, k, c, w, h);
    }
  }

  lemma TxCutAt(s: Bytes, k: nat, c: nat, w: CoinWidth, h: Bytes)
    requires k <= |s|
    ensures var r := ParseTx(s, c, w, h);
            r.Got? ==> c <= r.next && (c <= k ==> ParseTx(s[..k], c, w, h) == Cut(r, k))
  {
    hide ReadInt, ReadKey, ReadString, At, Pow256, ReadCounted, InputCodec, OutputCodec, Cuts, StringBytes;
    if ParseTx(s, c, w, h).Got? {
      InputCut(s, k);
      OutputCut(s, k, w);
      var c3 := ReadKey(s, c + 8).next;
      var c4 := ReadCounted(InputCodec().dec, s, c3).next;
      CountedCutAt(InputCodec().dec, s, k, c3);
      CountedCutAt(OutputCodec(w).dec, s, k, c4);
      if c <= k {
        IntCut(s, k, c, 4);
        if c + 4 <= k {
          IntCut(s, k, c + 4, 4);
          if c + 8 <= k {
            KeyCut(s, k, c + 8);
          }
        }
      }
    }
  }

  lemma HeadCut(s: Bytes, k: nat)
    requires k <= |s| && ParseHead(s).Got?
    ensures ParseHead(s[..k]) == Cut(ParseHead(s), k)
  {
    hide ReadInt, ReadString, At, Pow256, StringBytes;
    IntCut(s, k, 0, 8);
    if 8 <= k {
      IntCut(s, k, 8, 1);
      if 9 <= k {
        var c := ReadString(s, 9).next;
        StringCut(s, k, 9);
        if c <= k {
          IntCut(s, k, c, 4);
          if c + 4 <= k {
            IntCut(s, k, c + 4, 8);
            if c + 12 <= k {
              StringCut(s, k, c + 12);
              var d := ReadString(s, c + 12).next;
              if d <= k {
                IntCut(s, k, d, 8);
              }
            }
          }
        }
      }
    }
  }

  /** A string from which a block is decoded, cut anywhere before the end of the block, runs out of bytes. */
  lemma BlockCut(s: Bytes, k: nat, w: CoinWidth, h: Bytes)
    requires k <= |s| && ParseBlock(s, w, h).Got?
    ensures ParseBlock(s[..k], w, h) == Cut(ParseBlock(s, w, h), k)
  {
    hide ParseHead, ReadCounted, TxCodec, At, Cuts;
    HeadCut(s, k);
    TxCut(s, k, w, h);
    CountedCutAt(TxCodec(w, h).dec, s, k, ParseHead(s).next);
  }

  /** No proper prefix of a serialized transaction decodes, and running out of bytes is why. */
  lemma TruncatedTx(t: Tx, k: nat, h: Bytes)
    requires TxFits(t, 8) && k < |TxBytes(t, 8)|
    ensures ParseTx(TxBytes(t, 8)[..k], 0, 8, h) == Fail(OutOfRange)
  {
    hide TxBytes, TxFits, ParseTx;
    var s, u := TxBytes(t, 8), t.(hash := h, sig := []);
    assert u.Wire() == t.Wire();
    TxBytesWire(t, 8);
    TxBytesWire(u, 8);
    TxExact(s, 0, u, 8, h, |s|);
    TxCutAt(s, k, 0, 8, h);
  }

  /** Nor does any proper prefix of a serialized block. */
  lemma TruncatedBlock(b: BlockRecord, k: nat, h: Bytes)
    requires BlockFits(b, 8) && k < |BlockBytes(b, 8)|
    ensures ParseBlock(BlockBytes(b, 8)[..k], 8, h) == Fail(OutOfRange)
  {
    hide BlockBytes, BlockFits, ParseBlock;
    var s := BlockBytes(b, 8);
    BlockRoundTrip(b, [], h);
    assert s + [] == s;
    BlockCut(s, k, 8, h);
  }
}
