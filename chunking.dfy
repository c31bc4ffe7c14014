/**
  Whole-buffer encryption and decryption on top of the single-block primitive:
  `PerformEncryption`, `PerformDecryption`, `EncryptWithPublicKey` and
  `DecryptWithPrivateKey` of src/Crypto/Crypto.cpp.

  `Encrypted` and `Decrypted` are the specifications; the methods are proved
  equal to them, and the lemmas state what the specifications promise:
  the ciphertext length law, error propagation, truncation detection and the
  round trip.
 */
module Chunking {
  import opened Wrappers
  import opened Primitive
  import opened Slicing

  /** Largest plaintext slice the chunker hands to the primitive (`K - 42`). */
  function PlainBlock(key: PublicKey): nat
    requires key.size > Overhead
  {
    key.size - Overhead
  }

  /** Encrypts `blocks` in order; block `i` uses the random draw
      `rng(draw + i)`.  The first failing block fails the whole call. */
  function EncryptBlocks(key: PublicKey, blocks: seq<seq<byte>>, rng: nat -> nat, draw: nat): (r: Result<seq<byte>>)
    requires ValidPublicKey(key)
    ensures r.Ok? ==> |r.value| == key.size * |blocks|
    ensures r.Err? ==> r.error == CipherError
    decreases |blocks|
  {
    if |blocks| == 0 then Ok([])
    else
      match key.encrypt(blocks[0], rng(draw))
      case None => Err(CipherError)
      case Some(c) =>
        var rest := EncryptBlocks(key, blocks[1..], rng, draw + 1);
        assert rest.Ok? ==> |c + rest.value| == key.size * |blocks| by {
          assert key.size * |blocks| == key.size + key.size * |blocks[1..]|;
        }
        Prepend(c, rest)
  }

  /** Decrypts `blocks` in order.  A block that is not exactly `size` bytes
      long is truncated ciphertext; the first failing block fails the call. */
  function DecryptBlocks(key: PrivateKey, blocks: seq<seq<byte>>): (r: Result<seq<byte>>)
    ensures r.Ok? ==> forall i :: 0 <= i < |blocks| ==> |blocks[i]| == key.size
    decreases |blocks|
  {
    if |blocks| == 0 then Ok([])
    else if |blocks[0]| != key.size then Err(TruncatedInput)
    else
      match key.decrypt(blocks[0])
      case None => Err(CipherError)
      case Some(p) =>
        var rest := DecryptBlocks(key, blocks[1..]);
        assert rest.Ok? ==> forall i :: 1 <= i < |blocks| ==> |blocks[i]| == key.size by {
          if rest.Ok? {
            forall i | 1 <= i < |blocks| ensures |blocks[i]| == key.size {
              assert blocks[i] == blocks[1..][i - 1];
            }
          }
        }
        Prepend(p, rest)
  }

  /** The specification of `EncryptWithPublicKey`: the input cut into slices
      of `K - 42` bytes, each encrypted, in order. */
  function Encrypted(key: PublicKey, data: seq<byte>, rng: nat -> nat, draw: nat): Result<seq<byte>>
    requires ValidPublicKey(key)
  {
    EncryptBlocks(key, Slices(data, PlainBlock(key)), rng, draw)
  }

  /** The specification of `DecryptWithPrivateKey`: the input cut at `K`-byte
      boundaries, each block decrypted, in order. */
  function Decrypted(key: PrivateKey, ct: seq<byte>): Result<seq<byte>>
    requires key.size > 0
  {
    DecryptBlocks(key, Slices(ct, key.size))
  }

  // ---------------------------------------------------------------------
  // The four buffer transforms
  // ---------------------------------------------------------------------

  /** `PerformEncryption`: encrypts `data` into a preallocated `K`-byte buffer
      at offset `total_encrypted_length`, then trims the buffer.  The buffer
      holds one block only, so the caller must pass at most `K - 42` bytes;
      `EncryptWithPublicKey` always does. */
  method PerformEncryption(key: PublicKey, data: seq<byte>, rng: nat -> nat, draw: nat) returns (r: Result<seq<byte>>)
    requires ValidPublicKey(key)
    requires |data| <= PlainBlock(key)
    ensures r == Encrypted(key, data, rng, draw)
  {
    var inputBlockSize := PlainBlock(key);
    var encrypted := new byte[key.size];
    var total := 0;
    var offset := 0;
    var calls := 0;
    assert data[offset..] == data;
    PrependNothing(Encrypted(key, data, rng, draw));
    while offset < |data|
      invariant encrypted.Length == key.size
      invariant calls <= 1
      invariant offset == (if calls == 0 then 0 else |data|)
      invariant total == calls * key.size
      invariant Encrypted(key, data, rng, draw)
                == Prepend(encrypted[..total], Encrypted(key, data[offset..], rng, draw + calls))
      decreases |data| - offset
    {
      var remaining := |data| - offset;
      var blockSize := if remaining > inputBlockSize then inputBlockSize else remaining;
      EncryptedFirstBlock(key, data[offset..], rng, draw + calls);
      assert data[offset..][..blockSize] == data[offset..offset + blockSize];
      assert data[offset..][blockSize..] == data[offset + blockSize..];
      var c := key.encrypt(data[offset..offset + blockSize], rng(draw + calls));
      OneBlock(key, data[offset..offset + blockSize], rng, draw + calls);
      PrependChain(encrypted[..total], Encrypted(key, data[offset..offset + blockSize], rng, draw + calls),
                   Encrypted(key, data[offset + blockSize..], rng, draw + calls + 1));
      if c.None? {
        return Err(CipherError);
      }
      var prefix := encrypted[..total];
      forall i | 0 <= i < |c.value| {
        encrypted[total + i] := c.value[i];
      }
      assert encrypted[..total + |c.value|] == prefix + c.value;
      total := total + |c.value|;
      offset := offset + blockSize;
      calls := calls + 1;
    }
    assert data[offset..] == [];
    assert encrypted[..total] + [] == encrypted[..total];
    r := Ok(encrypted[..total]);
  }

  /** `PerformDecryption`: decrypts `K`-byte blocks of `ct` into a
      preallocated `K`-byte buffer at offset `total_decrypted_length`, then
      trims it.  Reading whole blocks needs `|ct|` to be a multiple of `K`;
      the one-block buffer needs `|ct| <= K`.  `DecryptWithPrivateKey` only
      ever passes one `K`-byte block. */
  method PerformDecryption(key: PrivateKey, ct: seq<byte>) returns (r: Result<seq<byte>>)
    requires ValidPrivateKey(key)
    requires |ct| == 0 || |ct| == key.size
    ensures r == Decrypted(key, ct)
  {
    var blockSize := key.size;
    var decrypted := new byte[key.size];
    var total: nat := 0;
    var offset := 0;
    assert ct[offset..] == ct;
    PrependNothing(Decrypted(key, ct));
    while offset < |ct|
      invariant decrypted.Length == key.size
      invariant offset == 0 || offset == |ct|
      invariant offset == 0 ==> total == 0
      invariant total <= key.size
      invariant Decrypted(key, ct) == Prepend(decrypted[..total], Decrypted(key, ct[offset..]))
      decreases |ct| - offset
    {
      var p := key.decrypt(ct[offset..offset + blockSize]);
      assert ct[offset..] == ct[offset..offset + blockSize];
      OneCipherBlock(key, ct[offset..]);
      if p.None? {
        return Err(CipherError);
      }
      var prefix := decrypted[..total];
      forall i | 0 <= i < |p.value| {
        decrypted[total + i] := p.value[i];
      }
      assert decrypted[..total + |p.value|] == prefix + p.value;
      total := total + |p.value|;
      offset := offset + blockSize;
    }
    assert ct[offset..] == [];
    assert decrypted[..total] + [] == decrypted[..total];
    r := Ok(decrypted[..total]);
  }

  /** `EncryptWithPublicKey`: cuts `data` into slices of at most `K - 42`
      bytes, encrypts each with `PerformEncryption` and appends the blocks.
      A failing block fails the call (the source appends an empty vector and
      carries on, see `EncryptBlocksSwallowing`). */
  method EncryptWithPublicKey(key: PublicKey, data: seq<byte>, rng: nat -> nat, draw: nat) returns (r: Result<seq<byte>>)
    requires ValidPublicKey(key)
    ensures r == Encrypted(key, data, rng, draw)
    ensures |data| == 0 ==> r == Ok([])
  {
    var inputBlockSize := PlainBlock(key);
    var out: seq<byte> := [];
    var offset := 0;
    var calls := 0;
    assert data[offset..] == data;
    PrependNothing(Encrypted(key, data, rng, draw));
    while offset < |data|
      invariant 0 <= offset <= |data|
      invariant Encrypted(key, data, rng, draw) == Prepend(out, Encrypted(key, data[offset..], rng, draw + calls))
      decreases |data| - offset
    {
      var blockSize := if |data| - offset > inputBlockSize then inputBlockSize else |data| - offset;
      var chunk := data[offset..offset + blockSize];
      EncryptedFirstBlock(key, data[offset..], rng, draw + calls);
      assert data[offset..][..blockSize] == chunk;
      assert data[offset..][blockSize..] == data[offset + blockSize..];
      var c := PerformEncryption(key, chunk, rng, draw + calls);
      PrependChain(out, c, Encrypted(key, data[offset + blockSize..], rng, draw + calls + 1));
      if c.Err? {
        return c;
      }
      out := out + c.value;
      offset := offset + blockSize;
      calls := calls + 1;
    }
    assert data[offset..] == [];
    assert out + [] == out;
    r := Ok(out);
  }

  /** `DecryptWithPrivateKey`: takes `K`-byte slices at offsets `0, K, 2K, ...`,
      decrypts each with `PerformDecryption` and appends the results.  Where
      the source would slice past the end of a truncated input, the model
      reports `TruncatedInput`; a failing block fails the call. */
  method DecryptWithPrivateKey(key: PrivateKey, ct: seq<byte>) returns (r: Result<seq<byte>>)
    requires ValidPrivateKey(key)
    ensures r == Decrypted(key, ct)
  {
    var blockSize := key.size;
    var out: seq<byte> := [];
    var offset := 0;
    assert ct[offset..] == ct;
    PrependNothing(Decrypted(key, ct));
    while offset < |ct|
      invariant 0 <= offset <= |ct|
      invariant Decrypted(key, ct) == Prepend(out, Decrypted(key, ct[offset..]))
      decreases |ct| - offset
    {
      if |ct| - offset < blockSize {
        assert Slices(ct[offset..], blockSize) == [ct[offset..]] by {
          assert ct[offset..][..|ct| - offset] == ct[offset..];
          assert ct[offset..][|ct| - offset..] == [];
        }
        return Err(TruncatedInput);
      }
      var chunk := ct[offset..offset + blockSize];
      assert ct[offset..] == chunk + ct[offset + blockSize..];
      DivUnique(|chunk|, blockSize, 1, 0);
      DecryptedAppend(key, chunk, ct[offset + blockSize..]);
      var p := PerformDecryption(key, chunk);
      PrependChain(out, p, Decrypted(key, ct[offset + blockSize..]));
      if p.Err? {
        return p;
      }
      out := out + p.value;
      offset := offset + blockSize;
    }
    assert ct[offset..] == [];
    assert out + [] == out;
    r := Ok(out);
  }

  // ---------------------------------------------------------------------
  // Properties of the specifications
  // ---------------------------------------------------------------------

  /** A single slice of `1..K-42` bytes encrypts to the primitive's block. */
  lemma OneBlock(key: PublicKey, b: seq<byte>, rng: nat -> nat, draw: nat)
    requires ValidPublicKey(key)
    requires 1 <= |b| <= PlainBlock(key)
    ensures Encrypted(key, b, rng, draw)
            == match key.encrypt(b, rng(draw))
               case None => Err(CipherError)
               case Some(c) => Ok(c)
  {
    assert Slices(b, PlainBlock(key)) == [b] by {
      assert b[..|b|] == b;
      assert b[|b|..] == [];
    }
    assert [b][1..] == [];
    var c := key.encrypt(b, rng(draw));
    if c.Some? {
      assert EncryptBlocks(key, [b], rng, draw) == Prepend(c.value, EncryptBlocks(key, [], rng, draw + 1));
      assert c.value + [] == c.value;
    }
  }

  /** A single `K`-byte block decrypts to the primitive's plaintext. */
  lemma OneCipherBlock(key: PrivateKey, b: seq<byte>)
    requires key.size > 0
    requires |b| == key.size
    ensures Decrypted(key, b)
            == match key.decrypt(b)
               case None => Err(CipherError)
               case Some(p) => Ok(p)
  {
    assert Slices(b, key.size) == [b] by {
      assert b[..|b|] == b;
      assert b[|b|..] == [];
    }
    assert [b][1..] == [];
    var p := key.decrypt(b);
    if p.Some? {
      assert DecryptBlocks(key, [b]) == Prepend(p.value, DecryptBlocks(key, []));
      assert p.value + [] == p.value;
    }
  }

  /** Encrypting a concatenation of block lists is encrypting the first list
      and then the second, continuing the random draws where the first
      stopped. */
  lemma {:induction false} EncryptBlocksAppend(key: PublicKey, xs: seq<seq<byte>>, ys: seq<seq<byte>>, rng: nat -> nat, draw: nat)
    requires ValidPublicKey(key)
    ensures EncryptBlocks(key, xs + ys, rng, draw)
            == Chain(EncryptBlocks(key, xs, rng, draw), EncryptBlocks(key, ys, rng, draw + |xs|))
    decreases |xs|
  {
    if |xs| == 0 {
      assert xs + ys == ys;
      PrependNothing(EncryptBlocks(key, ys, rng, draw));
    } else {
      assert (xs + ys)[0] == xs[0];
      assert (xs + ys)[1..] == xs[1..] + ys;
      EncryptBlocksAppend(key, xs[1..], ys, rng, draw + 1);
      var c := key.encrypt(xs[0], rng(draw));
      if c.Some? {
        PrependIntoChain(c.value, EncryptBlocks(key, xs[1..], rng, draw + 1), EncryptBlocks(key, ys, rng, draw + |xs|));
      }
    }
  }

  /** Decrypting a concatenation of block lists is decrypting the first list
      and then the second. */
  lemma {:induction false} DecryptBlocksAppend(key: PrivateKey, xs: seq<seq<byte>>, ys: seq<seq<byte>>)
    ensures DecryptBlocks(key, xs + ys) == Chain(DecryptBlocks(key, xs), DecryptBlocks(key, ys))
    decreases |xs|
  {
    if |xs| == 0 {
      assert xs + ys == ys;
      PrependNothing(DecryptBlocks(key, ys));
    } else {
      assert (xs + ys)[0] == xs[0];
      assert (xs + ys)[1..] == xs[1..] + ys;
      DecryptBlocksAppend(key, xs[1..], ys);
      var p := key.decrypt(xs[0]);
      if |xs[0]| == key.size && p.Some? {
        PrependIntoChain(p.value, DecryptBlocks(key, xs[1..]), DecryptBlocks(key, ys));
      }
    }
  }

  /** One loop step of `EncryptWithPublicKey`: the first slice, then the rest
      with the next random draw. */
  lemma EncryptedFirstBlock(key: PublicKey, s: seq<byte>, rng: nat -> nat, draw: nat)
    requires ValidPublicKey(key)
    requires |s| > 0
    ensures var n := Min(|s|, PlainBlock(key));
            Encrypted(key, s, rng, draw)
            == Chain(Encrypted(key, s[..n], rng, draw), Encrypted(key, s[n..], rng, draw + 1))
  {
    var m := PlainBlock(key);
    var n := Min(|s|, m);
    assert Slices(s[..n], m) == [s[..n]] by {
      assert s[..n][..n] == s[..n];
      assert s[..n][n..] == [];
    }
    EncryptBlocksAppend(key, [s[..n]], Slices(s[n..], m), rng, draw);
  }

  /** Decrypting a concatenation whose first part is whole blocks is
      decrypting the first part and then the second: the decryptor needs
      no framing beyond the block boundaries. */
  lemma DecryptedAppend(key: PrivateKey, a: seq<byte>, b: seq<byte>)
    requires key.size > 0
    requires |a| % key.size == 0
    ensures Decrypted(key, a + b) == Chain(Decrypted(key, a), Decrypted(key, b))
  {
    SlicesAppend(a, b, key.size);
    DecryptBlocksAppend(key, Slices(a, key.size), Slices(b, key.size));
  }

  /** Ciphertext length law: `K * ceil(n / (K - 42))` bytes for `n` bytes of
      plaintext, so 0 for the empty input, and always whole blocks. */
  lemma CiphertextLength(key: PublicKey, data: seq<byte>, rng: nat -> nat, draw: nat)
    requires ValidPublicKey(key)
    ensures Encrypted(key, data, rng, draw).Ok? ==>
              |Encrypted(key, data, rng, draw).value|
              == key.size * ((|data| + PlainBlock(key) - 1) / PlainBlock(key))
    ensures Encrypted(key, data, rng, draw).Ok? ==>
              |Encrypted(key, data, rng, draw).value| % key.size == 0
  {
    var k := (|data| + PlainBlock(key) - 1) / PlainBlock(key);
    SliceCount(data, PlainBlock(key));
    DivUnique(key.size * k, key.size, k, 0);
  }

  /** Every slice handed to the primitive is `1..K-42` bytes, every slice but
      the last exactly `K-42`, and the slices concatenate to the input. */
  lemma {:induction false} SliceBound(key: PublicKey, data: seq<byte>)
    requires ValidPublicKey(key)
    ensures var ss := Slices(data, PlainBlock(key));
            && (forall i :: 0 <= i < |ss| ==> 1 <= |ss[i]| <= key.size - Overhead)
            && (forall i :: 0 <= i < |ss| - 1 ==> |ss[i]| == key.size - Overhead)
            && Concat(ss) == data
  {
    SlicesSizes(data, PlainBlock(key));
    SlicesPartition(data, PlainBlock(key));
  }

  /** A call fails exactly when one of its blocks fails. */
  lemma {:induction false} EncryptFailsIff(key: PublicKey, blocks: seq<seq<byte>>, rng: nat -> nat, draw: nat)
    requires ValidPublicKey(key)
    ensures EncryptBlocks(key, blocks, rng, draw).Err?
            <==> exists i :: 0 <= i < |blocks| && key.encrypt(blocks[i], rng(draw + i)).None?
    decreases |blocks|
  {
    if |blocks| > 0 {
      EncryptFailsIff(key, blocks[1..], rng, draw + 1);
      if key.encrypt(blocks[0], rng(draw)).Some? {
        if exists i :: 0 <= i < |blocks| && key.encrypt(blocks[i], rng(draw + i)).None? {
          var i :| 0 <= i < |blocks| && key.encrypt(blocks[i], rng(draw + i)).None?;
          assert blocks[1..][i - 1] == blocks[i];
          assert draw + 1 + (i - 1) == draw + i;
        }
        if EncryptBlocks(key, blocks[1..], rng, draw + 1).Err? {
          var i :| 0 <= i < |blocks[1..]| && key.encrypt(blocks[1..][i], rng(draw + 1 + i)).None?;
          assert blocks[i + 1] == blocks[1..][i];
          assert draw + (i + 1) == draw + 1 + i;
        }
      }
    }
  }

  /** A decryption fails exactly when one of its blocks is short or rejected
      by the primitive. */
  lemma {:induction false} DecryptFailsIff(key: PrivateKey, blocks: seq<seq<byte>>)
    ensures DecryptBlocks(key, blocks).Err?
            <==> exists i :: 0 <= i < |blocks| && (|blocks[i]| != key.size || key.decrypt(blocks[i]).None?)
    decreases |blocks|
  {
    if |blocks| > 0 {
      DecryptFailsIff(key, blocks[1..]);
      if |blocks[0]| == key.size && key.decrypt(blocks[0]).Some? {
        if exists i :: 0 <= i < |blocks| && (|blocks[i]| != key.size || key.decrypt(blocks[i]).None?) {
          var i :| 0 <= i < |blocks| && (|blocks[i]| != key.size || key.decrypt(blocks[i]).None?);
          assert blocks[1..][i - 1] == blocks[i];
        }
        if DecryptBlocks(key, blocks[1..]).Err? {
          var i :| 0 <= i < |blocks[1..]| && (|blocks[1..][i]| != key.size || key.decrypt(blocks[1..][i]).None?);
          assert blocks[i + 1] == blocks[1..][i];
        }
      }
    }
  }

  /** Which error a block sequence fails with.  Blocks are checked in order,
      so the call fails with `TruncatedInput` exactly when some block is
      short and every block before it is whole and accepted. */
  lemma {:induction false} TruncatedBlocks(key: PrivateKey, blocks: seq<seq<byte>>)
    ensures DecryptBlocks(key, blocks) == Err(TruncatedInput)
            <==> exists j :: 0 <= j < |blocks| && |blocks[j]| != key.size &&
                   forall i :: 0 <= i < j ==> |blocks[i]| == key.size && key.decrypt(blocks[i]).Some?
    decreases |blocks|
  {
    if |blocks| > 0 {
      var tail := blocks[1..];
      TruncatedBlocks(key, tail);
      if |blocks[0]| == key.size && key.decrypt(blocks[0]).Some? {
        assert DecryptBlocks(key, blocks) == Prepend(key.decrypt(blocks[0]).value, DecryptBlocks(key, tail));
        if DecryptBlocks(key, tail) == Err(TruncatedInput) {
          var j :| 0 <= j < |tail| && |tail[j]| != key.size &&
                   forall i :: 0 <= i < j ==> |tail[i]| == key.size && key.decrypt(tail[i]).Some?;
          assert blocks[j + 1] == tail[j];
          forall i | 0 <= i < j + 1
            ensures |blocks[i]| == key.size && key.decrypt(blocks[i]).Some?
          {
            if i > 0 { assert blocks[i] == tail[i - 1]; }
          }
        }
        if exists j :: 0 <= j < |blocks| && |blocks[j]| != key.size &&
                       forall i :: 0 <= i < j ==> |blocks[i]| == key.size && key.decrypt(blocks[i]).Some? {
          var j :| 0 <= j < |blocks| && |blocks[j]| != key.size &&
                   forall i :: 0 <= i < j ==> |blocks[i]| == key.size && key.decrypt(blocks[i]).Some?;
          assert j > 0;
          assert tail[j - 1] == blocks[j];
          forall i | 0 <= i < j - 1
            ensures |tail[i]| == key.size && key.decrypt(tail[i]).Some?
          {
            assert tail[i] == blocks[i + 1];
          }
        }
      } else if |blocks[0]| == key.size {
        assert DecryptBlocks(key, blocks) == Err(CipherError);
      }
    }
  }

  /** Truncation detection: ciphertext whose length is not a multiple of `K`
      never decrypts, and it is reported as `TruncatedInput` exactly when
      every whole block in front of the short tail is accepted (a block
      rejected earlier is reported first, as `CipherError`). */
  lemma TruncatedInputRejected(key: PrivateKey, ct: seq<byte>)
    requires key.size > 0
    ensures Decrypted(key, ct).Ok? ==> |ct| % key.size == 0
    ensures Decrypted(key, ct) == Err(TruncatedInput)
            <==> |ct| % key.size != 0 &&
                 forall i :: 0 <= i < |Slices(ct, key.size)| - 1 ==> key.decrypt(Slices(ct, key.size)[i]).Some?
  {
    var k := key.size;
    var ss := Slices(ct, k);
    SlicesSizes(ct, k);
    SlicesPartition(ct, k);
    TruncatedBlocks(key, ss);
    if |ss| == 0 {
      assert |ct| == 0;
    } else {
      var n := |ss|;
      var last := ss[n - 1];
      WholeThenTail(ss, k);
      // the tail is short exactly when the length is not a multiple of `k`
      if |last| == k {
        MulSucc(n - 1, k);
        DivUnique(|ct|, k, n, 0);
      } else {
        DivUnique(|ct|, k, n - 1, |last|);
      }
      if |ct| % k != 0 && forall i :: 0 <= i < n - 1 ==> key.decrypt(ss[i]).Some? {
        assert forall i :: 0 <= i < n - 1 ==> |ss[i]| == k && key.decrypt(ss[i]).Some?;
      }
      if Decrypted(key, ct) == Err(TruncatedInput) {
        var j :| 0 <= j < n && |ss[j]| != k &&
                 forall i :: 0 <= i < j ==> |ss[i]| == k && key.decrypt(ss[i]).Some?;
        assert j == n - 1;
      }
    }
  }

  /** Slices that are all `m` long but the last add up to `m` per whole
      slice plus the last one. */
  lemma WholeThenTail(ss: seq<seq<byte>>, m: nat)
    requires m > 0 && |ss| > 0
    requires forall i :: 0 <= i < |ss| - 1 ==> |ss[i]| == m
    ensures |Concat(ss)| == (|ss| - 1) * m + |ss[|ss| - 1]|
  {
    var n := |ss|;
    var last := ss[n - 1];
    ConcatOfEqual(ss[..n - 1], m);
    assert ss == ss[..n - 1] + [last];
    ConcatAppend(ss[..n - 1], [last]);
    assert [last][1..] == [];
    assert Concat([last]) == last + Concat([]);
  }

  lemma {:induction false} ConcatOfEqual(ss: seq<seq<byte>>, m: nat)
    requires m > 0
    requires forall i :: 0 <= i < |ss| ==> |ss[i]| == m
    ensures |Concat(ss)| == m * |ss|
    decreases |ss|
  {
    if |ss| > 0 {
      ConcatOfEqual(ss[1..], m);
      assert m * |ss| == m + m * |ss[1..]|;
    }
  }

  /** Blocks encrypted with a matching key decrypt back to the plaintext
      slices, in order. */
  lemma {:induction false} BlocksRoundTrip(pub: PublicKey, priv: PrivateKey, blocks: seq<seq<byte>>, rng: nat -> nat, draw: nat)
    requires KeyPair(pub, priv)
    requires forall i :: 0 <= i < |blocks| ==> 1 <= |blocks[i]| <= pub.size - Overhead
    requires EncryptBlocks(pub, blocks, rng, draw).Ok?
    ensures Decrypted(priv, EncryptBlocks(pub, blocks, rng, draw).value) == Ok(Concat(blocks))
    decreases |blocks|
  {
    var k := priv.size;
    var ct := EncryptBlocks(pub, blocks, rng, draw).value;
    if |blocks| == 0 {
      assert ct == [];
    } else {
      var c0 := pub.encrypt(blocks[0], rng(draw)).value;
      var rest := EncryptBlocks(pub, blocks[1..], rng, draw + 1);
      forall i | 0 <= i < |blocks[1..]| ensures 1 <= |blocks[1..][i]| <= pub.size - Overhead {
        assert blocks[1..][i] == blocks[i + 1];
      }
      BlocksRoundTrip(pub, priv, blocks[1..], rng, draw + 1);
      assert ct == c0 + rest.value;
      assert |c0| == k;
      DivUnique(|c0|, k, 1, 0);
      DecryptedAppend(priv, c0, rest.value);
      assert Slices(c0, k) == [c0] by {
        assert c0[..k] == c0;
        assert c0[k..] == [];
      }
      assert priv.decrypt(c0) == Some(blocks[0]);
    }
  }

  /** Round trip: whatever the random padding, decrypting what
      `EncryptWithPublicKey` produced with the matching private key gives back
      the input. */
  lemma RoundTrip(pub: PublicKey, priv: PrivateKey, data: seq<byte>, rng: nat -> nat, draw: nat)
    requires KeyPair(pub, priv)
    ensures Encrypted(pub, data, rng, draw).Ok? ==>
              Decrypted(priv, Encrypted(pub, data, rng, draw).value) == Ok(data)
  {
    if Encrypted(pub, data, rng, draw).Ok? {
      SliceBound(pub, data);
      BlocksRoundTrip(pub, priv, Slices(data, PlainBlock(pub)), rng, draw);
    }
  }

  // ---------------------------------------------------------------------
  // The source as written
  // ---------------------------------------------------------------------

  /** `EncryptWithPublicKey` as written: a block whose encryption fails
      comes back from `PerformEncryption` as an empty vector, is appended
      as such, and the loop carries on. */
  function EncryptBlocksSwallowing(key: PublicKey, blocks: seq<seq<byte>>, rng: nat -> nat, draw: nat): (r: seq<byte>)
    requires ValidPublicKey(key)
    ensures |r| <= key.size * |blocks|
    ensures (forall i :: 0 <= i < |blocks| ==> key.encrypt(blocks[i], rng(draw + i)).Some?) ==>
              |r| == key.size * |blocks|
    decreases |blocks|
  {
    if |blocks| == 0 then []
    else
      var c := match key.encrypt(blocks[0], rng(draw))
               case None => []
               case Some(c) => c;
      var rest := EncryptBlocksSwallowing(key, blocks[1..], rng, draw + 1);
      assert key.size * |blocks| == key.size + key.size * |blocks[1..]|;
      assert (forall i :: 0 <= i < |blocks| ==> key.encrypt(blocks[i], rng(draw + i)).Some?) ==>
               (forall i :: 0 <= i < |blocks[1..]| ==> key.encrypt(blocks[1..][i], rng(draw + 1 + i)).Some?) by {
        forall i | 0 <= i < |blocks[1..]| ensures blocks[1..][i] == blocks[i + 1] && draw + 1 + i == draw + (i + 1) { }
      }
      c + rest
  }

  /** The written loop agrees with the model when no block fails; when one
      does, it still reports success but with fewer than `K * blocks` bytes,
      so a block of the input is silently lost. */
  lemma {:induction false} SwallowedFailure(key: PublicKey, blocks: seq<seq<byte>>, rng: nat -> nat, draw: nat)
    requires ValidPublicKey(key)
    ensures EncryptBlocks(key, blocks, rng, draw).Ok?
            <==> |EncryptBlocksSwallowing(key, blocks, rng, draw)| == key.size * |blocks|
    ensures EncryptBlocks(key, blocks, rng, draw).Ok? ==>
              EncryptBlocksSwallowing(key, blocks, rng, draw) == EncryptBlocks(key, blocks, rng, draw).value
    decreases |blocks|
  {
    if |blocks| > 0 {
      SwallowedFailure(key, blocks[1..], rng, draw + 1);
      assert key.size * |blocks| == key.size + key.size * |blocks[1..]|;
    }
  }

  /** `DecryptWithPrivateKey` as written, block by block: a block the
      primitive rejects comes back from `PerformDecryption` as an empty
      vector, is appended as such, and the loop carries on.  (A short final
      slice is the out-of-range read of `AsWrittenDecryptSlicesInBounds`;
      here every slice is simply handed to the primitive.) */
  function DecryptBlocksSwallowing(key: PrivateKey, blocks: seq<seq<byte>>): (r: seq<byte>)
    requires ValidPrivateKey(key)
    ensures |r| <= (key.size - Pkcs1Overhead) * |blocks|
    decreases |blocks|
  {
    if |blocks| == 0 then []
    else
      var p := match key.decrypt(blocks[0])
               case None => []
               case Some(p) => p;
      var rest := DecryptBlocksSwallowing(key, blocks[1..]);
      assert (key.size - Pkcs1Overhead) * |blocks|
             == (key.size - Pkcs1Overhead) + (key.size - Pkcs1Overhead) * |blocks[1..]|;
      p + rest
  }

  /** When nothing is rejected the written loop agrees with the model. */
  lemma {:induction false} DecryptSwallowingAgrees(key: PrivateKey, blocks: seq<seq<byte>>)
    requires ValidPrivateKey(key)
    ensures DecryptBlocks(key, blocks).Ok? ==>
              DecryptBlocksSwallowing(key, blocks) == DecryptBlocks(key, blocks).value
    decreases |blocks|
  {
    if |blocks| > 0 {
      DecryptSwallowingAgrees(key, blocks[1..]);
    }
  }

  /** When block `j` is rejected the written loop still returns normally:
      its output is that of the blocks before `j` followed by that of the
      blocks after it, so the plaintext of block `j` silently vanishes while
      the model fails with `CipherError`. */
  lemma {:induction false} RejectedBlockDropped(key: PrivateKey, blocks: seq<seq<byte>>, j: nat)
    requires ValidPrivateKey(key)
    requires j < |blocks| && key.decrypt(blocks[j]).None?
    ensures DecryptBlocksSwallowing(key, blocks)
            == DecryptBlocksSwallowing(key, blocks[..j]) + DecryptBlocksSwallowing(key, blocks[j + 1..])
    ensures DecryptBlocks(key, blocks).Err?
    decreases j
  {
    DecryptFailsIff(key, blocks);
    var tail := blocks[1..];
    if j == 0 {
      assert blocks[..0] == [];
      assert blocks[1..] == tail;
    } else {
      RejectedBlockDropped(key, tail, j - 1);
      assert tail[..j - 1] == blocks[..j][1..];
      assert tail[j..] == blocks[j + 1..];
      var p := if key.decrypt(blocks[0]).Some? then key.decrypt(blocks[0]).value else [];
      assert DecryptBlocksSwallowing(key, blocks[..j]) == p + DecryptBlocksSwallowing(key, tail[..j - 1]);
    }
  }

  /** `DecryptWithPrivateKey` as written: reports whether every slice the
      loop takes, `[offset, offset + K)` for `offset = 0, K, 2K, ...` below
      `n`, lies inside an input of `n` bytes.  It does exactly when `n` is a
      multiple of `K`; otherwise the last slice runs past the end. */
  method AsWrittenDecryptSlicesInBounds(n: nat, blockSize: nat) returns (inBounds: bool)
    requires blockSize > 0
    ensures inBounds <==> n % blockSize == 0
  {
    var offset := 0;
    ghost var blocks := 0;
    inBounds := true;
    while offset < n
      invariant offset == blocks * blockSize
      invariant offset < n + blockSize
      invariant inBounds <==> offset <= n
    {
      if offset + blockSize > n {
        inBounds := false;
      }
      offset := offset + blockSize;
      blocks := blocks + 1;
    }
    DivMod(n, blockSize);
    if n % blockSize == 0 {
      assert offset - n == (blocks - n / blockSize) * blockSize;
      MulBelow(blocks - n / blockSize, blockSize);
    }
    if inBounds {
      DivUnique(n, blockSize, blocks, 0);
    }
  }
}
