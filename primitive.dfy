/**
  The single-block RSA primitive that the chunking code is built on, seen only
  through its contract.  `RSA_public_encrypt`, `RSA_private_decrypt` and
  `RSA_size` are library calls; here a key carries its modulus size and the
  primitive as a function value, and the predicates below state what the
  library promises about it.
 */
module Wrappers {
  datatype Option<+T> = None | Some(value: T)
}

module Primitive {
  import opened Wrappers

  type byte = bv8

  /** Bytes the chunker reserves per block: the OAEP-SHA1 overhead
      `k - 2*hLen - 2` of section 7.1.1 of RFC 8017, used as a conservative
      bound although the padding actually requested is PKCS#1 v1.5. */
  const Overhead: nat := 42

  /** PKCS#1 v1.5 overhead (section 7.2.1 of RFC 8017): a decrypted message
      is never longer than `k - 11` bytes. */
  const Pkcs1Overhead: nat := 11

  datatype CryptoError =
    | CipherError     // the primitive returned -1 for some block
    | TruncatedInput  // ciphertext length is not a multiple of the block size

  datatype Result<+T> = Ok(value: T) | Err(error: CryptoError)

  /** `r` with `prefix` put in front of its value; errors pass through. */
  function Prepend(prefix: seq<byte>, r: Result<seq<byte>>): Result<seq<byte>>
  {
    match r
    case Ok(rest) => Ok(prefix + rest)
    case Err(e) => Err(e)
  }

  /** The result of doing `first` and then `rest`: the first error wins,
      otherwise the two outputs are concatenated. */
  function Chain(first: Result<seq<byte>>, rest: Result<seq<byte>>): Result<seq<byte>>
  {
    match first
    case Ok(head) => Prepend(head, rest)
    case Err(e) => Err(e)
  }

  lemma PrependNothing(r: Result<seq<byte>>)
    ensures Prepend([], r) == r
  {
    if r.Ok? { assert [] + r.value == r.value; }
  }

  lemma ChainNothing(first: Result<seq<byte>>)
    ensures Chain(first, Ok([])) == first
  {
    if first.Ok? { assert first.value + [] == first.value; }
  }

  /** Doing `first` after `out` has been produced. */
  lemma PrependChain(out: seq<byte>, first: Result<seq<byte>>, rest: Result<seq<byte>>)
    ensures first.Ok? ==> Prepend(out, Chain(first, rest)) == Prepend(out + first.value, rest)
    ensures first.Err? ==> Prepend(out, Chain(first, rest)) == Err(first.error)
  {
    if first.Ok? && rest.Ok? {
      assert out + (first.value + rest.value) == (out + first.value) + rest.value;
    }
  }

  lemma PrependIntoChain(prefix: seq<byte>, first: Result<seq<byte>>, rest: Result<seq<byte>>)
    ensures Prepend(prefix, Chain(first, rest)) == Chain(Prepend(prefix, first), rest)
  {
    if first.Ok? && rest.Ok? {
      assert prefix + (first.value + rest.value) == (prefix + first.value) + rest.value;
    }
  }

  /** A public key: `size` is `RSA_size(key)`; `encrypt(block, draw)` is one
      call of `RSA_public_encrypt` with PKCS#1 padding, where `draw` stands
      for the random padding string the library picks for that call
      (section 7.2.1 of RFC 8017, step 2).  `None` is the `-1` failure. */
  datatype PublicKey = PublicKey(size: nat, encrypt: (seq<byte>, nat) -> Option<seq<byte>>)

  /** A private key: `decrypt(block)` is one call of `RSA_private_decrypt`. */
  datatype PrivateKey = PrivateKey(size: nat, decrypt: seq<byte> -> Option<seq<byte>>)

  /** What the library promises about a public key: the modulus leaves room
      for at least one plaintext byte per block, and every ciphertext block it
      produces is exactly `size` bytes. */
  ghost predicate ValidPublicKey(key: PublicKey)
  {
    && key.size > Overhead
    && forall b, draw :: key.encrypt(b, draw).Some? ==> |key.encrypt(b, draw).value| == key.size
  }

  /** What the library promises about a private key: a recovered message is
      at most `size - 11` bytes. */
  ghost predicate ValidPrivateKey(key: PrivateKey)
  {
    && key.size > Overhead
    && forall c :: key.decrypt(c).Some? ==> |key.decrypt(c).value| <= key.size - Pkcs1Overhead
  }

  /** A matching key pair: same modulus, and decryption undoes every
      successful encryption of a block the chunker may send, whatever the
      random padding was. */
  ghost predicate KeyPair(pub: PublicKey, priv: PrivateKey)
  {
    && ValidPublicKey(pub)
    && ValidPrivateKey(priv)
    && pub.size == priv.size
    && forall b, draw ::
         1 <= |b| <= pub.size - Overhead && pub.encrypt(b, draw).Some? ==>
           priv.decrypt(pub.encrypt(b, draw).value) == Some(b)
  }
}
