/** Tx::ConstructAndSign, Tx::Verify and Tx::DecodeAndVerify over an opaque crypto library. */
module Signing {
  import opened Prelude
  import opened Wire
  import opened Transactions
  import opened AsWritten

  type PrivateKey = Bytes

  /**
   The crypto library. `check` gets the message with the signature at its end, which is all
   that Sig::ValidateSignature passes on; `sign` also takes the random number generator's state.
   */
  datatype Crypto = Crypto(
    sha: Bytes -> Digest,
    publicOf: PrivateKey -> Key,
    sign: (Bytes, PrivateKey, nat) -> Bytes,
    check: (Bytes, Key) -> bool)

  /** The one law of a signature scheme: what a key signs, its public key accepts. */
  ghost predicate Lawful(k: Crypto) {
    forall m, sk, seed :: k.check(m + k.sign(m, sk, seed), k.publicOf(sk))
  }

  predicate ValidateSignature(k: Crypto, message: Bytes, signature: Bytes, key: Key) {
    k.check(message + signature, key)
  }

  predicate Verify(k: Crypto, t: Tx) {
    ValidateSignature(k, TxBytes(t, WRITTEN) + t.hash, t.sig, t.origin)
  }

  method ConstructAndSign(
    k: Crypto, inputs: seq<TxInput>, outputs: seq<TxOutput>, pk: Key, sk: PrivateKey, now: uint64, seed: nat)
    returns (r: Result<Tx>)
    ensures r.Ok? <==> inputs != [] && outputs != [] && forall i :: 0 <= i < |outputs| ==> outputs[i].target != pk
    ensures inputs == [] ==> r == Err(NoInputs)
    ensures inputs != [] && outputs == [] ==> r == Err(NoOutputs)
    ensures r.Err? && inputs != [] && outputs != [] ==> r == Err(ToSelf)
    ensures r.Ok? ==>
              var t := r.value;
              && t.inputs == inputs && t.outputs == outputs && t.origin == pk
              && t.version == 0 && t.timestamp == now % 0x1_0000_0000
              && t.hash == k.sha(TxBytes(t, 8))
              && t.sig == k.sign(TxBytes(t, 8) + t.hash, sk, seed)
  {
    hide TxBytes;
    var tx := Tx(0, now % TWO_TO_THE_32, [], pk, [], inputs, outputs);
    if |inputs| == 0 {
      return Err(NoInputs);
    }
    if |outputs| == 0 {
      return Err(NoOutputs);
    }
    for i := 0 to |tx.outputs|
      invariant forall j :: 0 <= j < i ==> outputs[j].target != pk
    {
      if tx.outputs[i].target == pk {
        return Err(ToSelf);
      }
    }
    var message := SerializeTx(tx);
    TxBytesWire(tx, WRITTEN);
    tx := tx.(hash := k.sha(message));
    tx := tx.(sig := k.sign(message + tx.hash, sk, seed));
    TxBytesWire(tx, WRITTEN);
    return Ok(tx);
  }

  function Accepted(k: Crypto, serial: Bytes, signature: Bytes, key: Key, w: CoinWidth): Result<Tx> {
    var t :- ParseTx(serial, 0, w, k.sha(serial)).Result();
    if ValidateSignature(k, serial + t.hash, signature, key) then Ok(t.(sig := signature)) else Err(BadSignature)
  }

  method DecodeAndVerify(k: Crypto, serial: Bytes, signature: Bytes, key: Key, w: CoinWidth) returns (r: Result<Tx>)
    ensures r == Accepted(k, serial, signature, key, w)
    ensures var parsed := ParseTx(serial, 0, w, k.sha(serial));
            && (r.Ok? <==> parsed.Got? && k.check(serial + k.sha(serial) + signature, key))
            && (r.Ok? ==> r.value == parsed.value.(sig := signature))
            && (parsed.Got? && r.Err? ==> r == Err(BadSignature))
            && (parsed.Fail? ==> r == Err(parsed.error))
  {
    hide ParseTx;
    DecodedStamp(serial, 0, w, k.sha(serial));
    var tx :- DecodeTx(serial, null, w, k.sha);
    if !ValidateSignature(k, serial + tx.hash, signature, key) {
      return Err(BadSignature);
    }
    return Ok(tx.(sig := signature));
  }

  // ---- sign, then verify ----

  /** A transaction signed as ConstructAndSign signs it. */
  lemma SignThenVerify(k: Crypto, t: Tx, sk: PrivateKey, seed: nat)
    requires Lawful(k) && t.origin == k.publicOf(sk)
    requires t.sig == k.sign(TxBytes(t, 8) + t.hash, sk, seed)
    ensures Verify(k, t) && k.check(TxBytes(t, 8) + t.hash + t.sig, t.origin)
  {
    var message := TxBytes(t, 8) + t.hash;
    assert k.check(message + k.sign(message, sk, seed), k.publicOf(sk));
  }

  /**
   The receiver gets back exactly the transaction that was signed, hash and signature included:
   with the intended decoder for every representable one, with the decoder as written for
   exactly those with at most one output, below 2^32 coins.
   */
  lemma SignThenDecode(k: Crypto, t: Tx, sk: PrivateKey, seed: nat, w: CoinWidth)
    requires Lawful(k) && t.origin == k.publicOf(sk)
    requires t.hash == k.sha(TxBytes(t, 8)) && t.sig == k.sign(TxBytes(t, 8) + t.hash, sk, seed)
    ensures Accepted(k, TxBytes(t, 8), t.sig, t.origin, w) == Ok(t) <==>
            TxFits(t, w) && (w == 4 ==> |t.outputs| <= 1)
  {
    hide TxBytes, TxFits, ParseTx, At;
    var serial := TxBytes(t, WRITTEN);
    SignThenVerify(k, t, sk, seed);
    var r := ParseTx(serial, 0, w, t.hash);
    DecodedStamp(serial, 0, w, t.hash);
    assert serial + [] == serial;
    if w == WRITTEN {
      TxRoundTrip(t, [], t.hash);
    } else {
      TxAsWritten(t, [], t.hash);
    }
    assert r.Got? ==> (r.value.(sig := t.sig) == t <==> r.value.Wire() == t.Wire());
  }

  lemma DecodedStamp(s: Bytes, c: nat, w: CoinWidth, h: Bytes)
    ensures var r := ParseTx(s, c, w, h); r.Got? ==> r.value.hash == h && r.value.sig == []
  {
  }

  /** A serialized transaction decodes (intended width) to its wire fields iff it is representable. */
  lemma TxRoundTrip(t: Tx, suffix: Bytes, h: Bytes)
    ensures var r := ParseTx(TxBytes(t, WRITTEN) + suffix, 0, WRITTEN, h);
            r.Got? && r.value.Wire() == t.Wire() <==> TxFits(t, WRITTEN)
  {
    hide TxBytes, TxFits, ParseTx;
    var s := TxBytes(t, WRITTEN) + suffix;
    var r := ParseTx(s, 0, WRITTEN, h);
    var u := t.(hash := h, sig := []);
    AtPrefix(TxBytes(t, WRITTEN), suffix);
    TxBytesWire(t, WRITTEN);
    TxBytesWire(u, WRITTEN);
    TxExact(s, 0, u, WRITTEN, h, |TxBytes(u, WRITTEN)|);
    if r.Got? {
      TxExact(s, 0, r.value, WRITTEN, h, r.next);
      TxBytesWire(r.value, WRITTEN);
    }
  }

  // ---- the two verification routines agree ----

  /**
   DecodeAndVerify checks the bytes it got against the key it got; Verify checks the bytes it
   writes against the origin it holds. When the string was consumed whole and the key is the
   decoded origin, one accepts exactly when the other does.
   */
  lemma VerificationAgrees(k: Crypto, serial: Bytes, signature: Bytes)
    ensures var r := ParseTx(serial, 0, WRITTEN, k.sha(serial));
            r.Got? && r.next == |serial| ==>
              var t := r.value.(sig := signature);
              Accepted(k, serial, signature, t.origin, WRITTEN) == Ok(t) <==> Verify(k, t)
  {
    hide TxBytes, TxFits, ParseTx;
    var r := ParseTx(serial, 0, WRITTEN, k.sha(serial));
    if r.Got? && r.next == |serial| {
      var t := r.value.(sig := signature);
      TxExact(serial, 0, r.value, WRITTEN, k.sha(serial), |serial|);
      assert serial[0..|serial|] == serial;
      TxBytesWire(t, WRITTEN);
      TxBytesWire(r.value, WRITTEN);
      assert t.Wire() == r.value.Wire();
    }
  }

  /**
   Outside those conditions some lawful signature scheme tells the two apart: one in which every
   signature but the given one is longer than the message it came with.
   */
  lemma AgreementNeedsBoth(sha: Bytes -> Digest, serial: Bytes, signature: Bytes, key: Key) returns (k: Crypto)
    ensures k.sha == sha && Lawful(k)
    ensures var r := ParseTx(serial, 0, WRITTEN, sha(serial));
            r.Got? && (r.next != |serial| || r.value.origin != key) ==>
              var t := r.value.(sig := signature);
              Accepted(k, serial, signature, key, WRITTEN) == Ok(t) && !Verify(k, t)
  {
    hide TxBytes, TxFits, ParseTx;
    var message := serial + sha(serial);
    var n := |message + signature|;
    var long: Bytes := seq(n + 1, _ => 0);
    k := Crypto(
      sha,
      (sk: PrivateKey) => key,
      (m: Bytes, sk: PrivateKey, seed: nat) => if m == message then signature else long,
      (x: Bytes, pk: Key) => pk == key && (x == message + signature || |x| > n));
    var r := ParseTx(serial, 0, WRITTEN, sha(serial));
    if r.Got? && (r.next != |serial| || r.value.origin != key) {
      var t := r.value.(sig := signature);
      DecodedStamp(serial, 0, WRITTEN, sha(serial));
      TxExact(serial, 0, r.value, WRITTEN, sha(serial), r.next);
      TxBytesWire(t, WRITTEN);
      TxBytesWire(r.value, WRITTEN);
      assert t.Wire() == r.value.Wire();
    }
  }
}
