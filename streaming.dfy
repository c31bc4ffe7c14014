/**
  The window loops of `EncryptFile` and `DecryptFile` in src/Crypto/Crypto.cpp,
  with the file as a byte sequence and each `read` of the stream as the next
  window of at most `ReadWindow` bytes.
 */
module Streaming {
  import opened Primitive
  import opened Slicing
  import opened Chunking

  /** Bytes requested per `read` in both file loops. */
  const ReadWindow: nat := 10000

  /** Encrypts each window as a buffer of its own and appends the results;
      the random draws carry on from one window to the next. */
  function EncryptedWindows(key: PublicKey, windows: seq<seq<byte>>, rng: nat -> nat, draw: nat): Result<seq<byte>>
    requires ValidPublicKey(key)
    decreases |windows|
  {
    if |windows| == 0 then Ok([])
    else
      Chain(Encrypted(key, windows[0], rng, draw),
            EncryptedWindows(key, windows[1..], rng, draw + |Slices(windows[0], PlainBlock(key))|))
  }

  /** The specification of `EncryptFile`: `file` read in windows of
      `window` bytes, each window encrypted by `EncryptWithPublicKey`. */
  function EncryptedStream(key: PublicKey, file: seq<byte>, window: nat, rng: nat -> nat, draw: nat): Result<seq<byte>>
    requires ValidPublicKey(key)
    requires window > 0
  {
    EncryptedWindows(key, Slices(file, window), rng, draw)
  }

  /** `EncryptFile`: reads the file in windows of 10000 bytes and appends
      `EncryptWithPublicKey` of each window to the output.  The first
      failing window fails the call (the source cannot see a failure). */
  method EncryptFile(key: PublicKey, file: seq<byte>, rng: nat -> nat, draw: nat) returns (r: Result<seq<byte>>)
    requires ValidPublicKey(key)
    ensures r == EncryptedStream(key, file, ReadWindow, rng, draw)
  {
    var out: seq<byte> := [];
    var pos := 0;
    var next: nat := draw;
    assert file[pos..] == file;
    PrependNothing(EncryptedStream(key, file, ReadWindow, rng, draw));
    while pos < |file|
      invariant 0 <= pos <= |file|
      invariant EncryptedStream(key, file, ReadWindow, rng, draw)
                == Prepend(out, EncryptedStream(key, file[pos..], ReadWindow, rng, next))
      decreases |file| - pos
    {
      var bytesRead := if |file| - pos < ReadWindow then |file| - pos else ReadWindow;
      var window := file[pos..pos + bytesRead];
      var blocks := (bytesRead + PlainBlock(key) - 1) / PlainBlock(key);
      SliceCount(window, PlainBlock(key));
      assert file[pos..][..bytesRead] == window;
      assert file[pos..][bytesRead..] == file[pos + bytesRead..];
      assert EncryptedStream(key, file[pos..], ReadWindow, rng, next)
             == Chain(Encrypted(key, window, rng, next),
                      EncryptedStream(key, file[pos + bytesRead..], ReadWindow, rng, next + blocks));
      var c := EncryptWithPublicKey(key, window, rng, next);
      PrependChain(out, c, EncryptedStream(key, file[pos + bytesRead..], ReadWindow, rng, next + blocks));
      if c.Err? {
        return c;
      }
      out := out + c.value;
      pos := pos + bytesRead;
      next := next + blocks;
    }
    assert file[pos..] == [];
    assert out + [] == out;
    r := Ok(out);
  }

  /** `DecryptFile`, with the leftover-bytes buffer the block format needs:
      each window is appended to the bytes left over from the previous one,
      only whole `K`-byte blocks are decrypted, the rest is kept for the next
      window, and bytes still left at the end of the file are truncated
      ciphertext.  The leftover never reaches a whole block, so memory stays
      bounded by one window plus one block.  The result is that of decrypting
      the whole file as one buffer. */
  method DecryptFile(key: PrivateKey, file: seq<byte>) returns (r: Result<seq<byte>>)
    requires ValidPrivateKey(key)
    ensures r == Decrypted(key, file)
  {
    var blockSize := key.size;
    var out: seq<byte> := [];
    var residual: seq<byte> := [];
    var pos := 0;
    assert residual + file[pos..] == file;
    PrependNothing(Decrypted(key, file));
    while pos < |file|
      invariant 0 <= pos <= |file|
      invariant |residual| < blockSize
      invariant Decrypted(key, file) == Prepend(out, Decrypted(key, residual + file[pos..]))
      decreases |file| - pos
    {
      var bytesRead := if |file| - pos < ReadWindow then |file| - pos else ReadWindow;
      var pending := residual + file[pos..pos + bytesRead];
      var whole := WholeBlocks(|pending|, blockSize);
      var later := pending[whole..] + file[pos + bytesRead..];
      Regroup(residual, file, pos, pos + bytesRead, whole);
      DecryptedAppend(key, pending[..whole], later);
      var p := DecryptWithPrivateKey(key, pending[..whole]);
      PrependChain(out, p, Decrypted(key, later));
      if p.Err? {
        return p;
      }
      out := out + p.value;
      residual := pending[whole..];
      pos := pos + bytesRead;
    }
    assert residual + file[pos..] == residual;
    if |residual| > 0 {
      assert Slices(residual, blockSize) == [residual] by {
        assert residual[..|residual|] == residual;
        assert residual[|residual|..] == [];
      }
      return Err(TruncatedInput);
    }
    assert out + [] == out;
    r := Ok(out);
  }

  /** Moving the window boundary: leftover plus the rest of the file is the
      whole blocks taken now followed by what is left for later. */
  lemma Regroup(residual: seq<byte>, file: seq<byte>, pos: nat, end: nat, whole: nat)
    requires pos <= end <= |file|
    requires whole <= |residual| + (end - pos)
    ensures residual + file[pos..]
         == (residual + file[pos..end])[..whole] + ((residual + file[pos..end])[whole..] + file[end..])
  {
    var pending := residual + file[pos..end];
    assert file[pos..] == file[pos..end] + file[end..];
    assert pending == pending[..whole] + pending[whole..];
  }

  /** The longest prefix of `n` bytes that is a whole number of `k`-byte
      blocks. */
  function WholeBlocks(n: nat, k: nat): (w: nat)
    requires k > 0
    ensures w <= n && n - w < k
    ensures w % k == 0
  {
    DivMod(n, k);
    DivUnique(n / k * k, k, n / k, 0);
    n / k * k
  }

  /** Decrypts each window as a buffer of its own and appends the results. */
  function DecryptedWindows(key: PrivateKey, windows: seq<seq<byte>>): (r: Result<seq<byte>>)
    requires key.size > 0
    ensures r.Ok? ==> forall i :: 0 <= i < |windows| ==> |windows[i]| % key.size == 0
    decreases |windows|
  {
    if |windows| == 0 then Ok([])
    else
      var rest := DecryptedWindows(key, windows[1..]);
      TruncatedInputRejected(key, windows[0]);
      assert forall i :: 1 <= i < |windows| ==> windows[i] == windows[1..][i - 1];
      Chain(Decrypted(key, windows[0]), rest)
  }

  /** The window structure of `DecryptFile` as written: every window of
      `window` bytes is decrypted on its own, with no leftover buffer.  Each
      window goes through the corrected `Decrypted`, so a rejected block fails
      the call here, where the written loop drops it (`RejectedBlockDropped`). */
  function DecryptedPerWindow(key: PrivateKey, file: seq<byte>, window: nat): (r: Result<seq<byte>>)
    requires key.size > 0
    requires window > 0
    ensures r.Ok? ==> forall i :: 0 <= i < |Slices(file, window)| ==> |Slices(file, window)[i]| % key.size == 0
  {
    DecryptedWindows(key, Slices(file, window))
  }

  // ---------------------------------------------------------------------
  // Properties
  // ---------------------------------------------------------------------

  /** Each window's ciphertext decrypts back to that window, so the whole
      stream decrypts to the windows in order. */
  lemma {:induction false} WindowsRoundTrip(pub: PublicKey, priv: PrivateKey, windows: seq<seq<byte>>, rng: nat -> nat, draw: nat)
    requires KeyPair(pub, priv)
    requires EncryptedWindows(pub, windows, rng, draw).Ok?
    ensures Decrypted(priv, EncryptedWindows(pub, windows, rng, draw).value) == Ok(Concat(windows))
    decreases |windows|
  {
    if |windows| == 0 {
      assert Slices<byte>([], priv.size) == [];
    } else {
      var next := draw + |Slices(windows[0], PlainBlock(pub))|;
      var c0 := Encrypted(pub, windows[0], rng, draw);
      var rest := EncryptedWindows(pub, windows[1..], rng, next);
      WindowsRoundTrip(pub, priv, windows[1..], rng, next);
      RoundTrip(pub, priv, windows[0], rng, draw);
      CiphertextLength(pub, windows[0], rng, draw);
      DecryptedAppend(priv, c0.value, rest.value);
    }
  }

  /** File round trip: decrypting the output of `EncryptFile` as one stream
      (which `DecryptFile` does) gives back the file, whatever the window
      size and whatever the random padding. */
  lemma StreamRoundTrip(pub: PublicKey, priv: PrivateKey, file: seq<byte>, window: nat, rng: nat -> nat, draw: nat)
    requires KeyPair(pub, priv)
    requires window > 0
    ensures EncryptedStream(pub, file, window, rng, draw).Ok? ==>
              Decrypted(priv, EncryptedStream(pub, file, window, rng, draw).value) == Ok(file)
  {
    if EncryptedStream(pub, file, window, rng, draw).Ok? {
      WindowsRoundTrip(pub, priv, Slices(file, window), rng, draw);
      SlicesPartition(file, window);
    }
  }

  /** Streaming equivalence: when the window is a whole number of plaintext
      blocks, encrypting window by window is the same as encrypting the file
      as one buffer.  (With 10000-byte windows and `K - 42 = 214` it is not:
      every window ends in a short block.) */
  lemma {:induction false} StreamMatchesOnePass(key: PublicKey, file: seq<byte>, window: nat, rng: nat -> nat, draw: nat)
    requires ValidPublicKey(key)
    requires window > 0 && window % PlainBlock(key) == 0
    ensures EncryptedStream(key, file, window, rng, draw) == Encrypted(key, file, rng, draw)
    decreases |file|
  {
    var m := PlainBlock(key);
    if |file| == 0 {
    } else if |file| <= window {
      assert Slices(file, window) == [file] by {
        assert file[..|file|] == file;
        assert file[|file|..] == [];
      }
      assert [file][1..] == [];
      assert EncryptedWindows(key, [file], rng, draw)
             == Chain(Encrypted(key, file, rng, draw), EncryptedWindows(key, [], rng, draw + |Slices(file, m)|));
      ChainNothing(Encrypted(key, file, rng, draw));
    } else {
      var a, b := file[..window], file[window..];
      var next := draw + |Slices(a, m)|;
      assert file == a + b;
      assert Min(|file|, window) == window;
      assert Slices(file, window) == [a] + Slices(b, window);
      assert ([a] + Slices(b, window))[1..] == Slices(b, window);
      assert EncryptedStream(key, file, window, rng, draw)
             == Chain(Encrypted(key, a, rng, draw), EncryptedStream(key, b, window, rng, next));
      StreamMatchesOnePass(key, b, window, rng, next);
      assert |a| % m == 0;
      SlicesAppend(a, b, m);
      EncryptBlocksAppend(key, Slices(a, m), Slices(b, m), rng, draw);
    }
  }

  /** The written `DecryptFile` is right only by luck of alignment: when the
      window is a whole number of blocks it agrees with decrypting the file
      as one buffer... */
  lemma {:induction false} AlignedWindowsAgree(key: PrivateKey, file: seq<byte>, window: nat)
    requires key.size > 0
    requires window > 0 && window % key.size == 0
    ensures DecryptedPerWindow(key, file, window) == Decrypted(key, file)
    decreases |file|
  {
    if |file| == 0 {
      assert Slices(file, key.size) == [];
    } else if |file| <= window {
      assert Slices(file, window) == [file] by {
        assert file[..|file|] == file;
        assert file[|file|..] == [];
      }
      assert [file][1..] == [];
      assert DecryptedWindows(key, [file]) == Chain(Decrypted(key, file), DecryptedWindows(key, []));
      ChainNothing(Decrypted(key, file));
    } else {
      var a, b := file[..window], file[window..];
      assert file == a + b;
      assert Min(|file|, window) == window;
      assert Slices(file, window) == [a] + Slices(b, window);
      assert ([a] + Slices(b, window))[1..] == Slices(b, window);
      AlignedWindowsAgree(key, b, window);
      DecryptedAppend(key, a, b);
    }
  }

  /** ...and when it is not, every file longer than one window fails: the
      first window ends inside a block. */
  lemma MisalignedWindowFails(key: PrivateKey, file: seq<byte>, window: nat)
    requires key.size > 0
    requires window > 0 && window % key.size != 0
    requires |file| > window
    ensures DecryptedPerWindow(key, file, window).Err?
  {
    var a := file[..window];
    assert Slices(file, window)[0] == a;
    TruncatedInputRejected(key, a);
  }

  /** With a 2048-bit key (`K = 256`) the 10000-byte windows of the written
      `DecryptFile` are misaligned (10000 = 39 * 256 + 16): any file whose
      ciphertext exceeds one window encrypts and decrypts back as one stream,
      yet fails window by window. */
  lemma TenThousandByteWindowsFail(pub: PublicKey, priv: PrivateKey, file: seq<byte>, rng: nat -> nat, draw: nat)
    requires KeyPair(pub, priv)
    requires priv.size == 256
    requires EncryptedStream(pub, file, ReadWindow, rng, draw).Ok?
    requires |EncryptedStream(pub, file, ReadWindow, rng, draw).value| > ReadWindow
    ensures Decrypted(priv, EncryptedStream(pub, file, ReadWindow, rng, draw).value) == Ok(file)
    ensures DecryptedPerWindow(priv, EncryptedStream(pub, file, ReadWindow, rng, draw).value, ReadWindow).Err?
  {
    StreamRoundTrip(pub, priv, file, ReadWindow, rng, draw);
    MisalignedWindowFails(priv, EncryptedStream(pub, file, ReadWindow, rng, draw).value, ReadWindow);
  }
}
