/**
  Ownership of the two key handles of a `Crypto` object: the two constructors
  and the destructor of src/Crypto/Crypto.cpp.  A handle is an opaque number
  standing for an `RSA *`; `None` is a null `RSA *`.  `released` is not a
  member of the C++ class: it is the model's log of the `RSA_free` calls the
  object makes, recording in order every non-null handle passed to it
  (freeing null does nothing).

  The class declaration is not part of this model, so the initial field
  values are an assumption: both handles null and both ownership flags
  (`keys_.first`, `keys_.second`) false.
 */
module KeySlots {
  import opened Wrappers

  /** What reading one key produced: a new handle, a null `RSA *` (the
      reader's own failure path), or an exception leaving the reader. */
  datatype KeyRead = Parsed(handle: nat) | NullKey | Threw

  predicate NoRepeats(s: seq<nat>)
  {
    forall i, j :: 0 <= i < j < |s| ==> s[i] != s[j]
  }

  lemma NoRepeatsAppend(s: seq<nat>, h: nat)
    requires NoRepeats(s) && h !in s
    ensures NoRepeats(s + [h])
  {
    forall i, j | 0 <= i < j < |s + [h]| ensures (s + [h])[i] != (s + [h])[j] {
      if j == |s| {
        assert (s + [h])[i] == s[i];
      }
    }
  }

  /** The handle field after `field = Reader(...)` inside a `try`: an
      exception leaves the field as it was. */
  function Assigned(read: KeyRead, before: Option<nat>): Option<nat>
  {
    match read
    case Parsed(h) => Some(h)
    case NullKey => None
    case Threw => before
  }

  /** Two reads never hand out the same live handle. */
  predicate DistinctReads(pub: KeyRead, priv: KeyRead)
  {
    pub.Parsed? && priv.Parsed? ==> pub.handle != priv.handle
  }

  function Handles(h: Option<nat>): seq<nat>
  {
    if h.Some? then [h.value] else []
  }

  class Crypto {
    var publicKey: Option<nat>   // public_key_
    var privateKey: Option<nat>  // private_key_
    var ownsPublic: bool         // keys_.first
    var ownsPrivate: bool        // keys_.second
    var released: seq<nat>

    /** No handle has been released twice, and every handle the destructor
        will release is still live and different from the other one. */
    ghost predicate Valid()
      reads this
    {
      && NoRepeats(released)
      && (ownsPublic ==> forall h :: h in Handles(publicKey) ==> h !in released)
      && (ownsPrivate ==> forall h :: h in Handles(privateKey) ==> h !in released)
      && (ownsPublic && ownsPrivate && publicKey.Some? && privateKey.Some? ==>
            publicKey.value != privateKey.value)
    }

    /** The handles the destructor will pass to `RSA_free`, in order. */
    function PendingReleases(): seq<nat>
      reads this
    {
      (if ownsPublic then Handles(publicKey) else []) + (if ownsPrivate then Handles(privateKey) else [])
    }

    /** `Crypto(std::string public_key)`: parse the public key from a string
        and mark it owned; the private slot stays empty and unowned. */
    constructor FromString(read: KeyRead)
      ensures publicKey == Assigned(read, None) && privateKey == None
      ensures ownsPublic && !ownsPrivate
      ensures released == []
      ensures Valid()
    {
      publicKey := Assigned(read, None);
      privateKey := None;
      ownsPublic := true;
      ownsPrivate := false;
      released := [];
    }

    /** `Crypto(public_key_path, private_key_path)` as written: when reading
        the private key throws, the catch block frees the public key but
        leaves `keys_.first` set, so the destructor frees it again. */
    constructor FromFilesAsWritten(pub: KeyRead, priv: KeyRead)
      ensures publicKey == Assigned(pub, None) && privateKey == Assigned(priv, None)
      ensures ownsPublic && ownsPrivate
      ensures released == (if priv.Threw? then Handles(Assigned(pub, None)) else [])
    {
      publicKey := Assigned(pub, None);
      ownsPublic := true;
      privateKey := Assigned(priv, None);
      released := [];
      ownsPrivate := false;
      new;
      if priv.Threw? && ownsPublic {
        released := released + Handles(publicKey);
      }
      ownsPrivate := true;
    }

    /** `Crypto(public_key_path, private_key_path)` with the catch block
        giving up ownership of the public key it frees (flag cleared, field
        nulled), so that no exit path releases it twice. */
    constructor FromFiles(pub: KeyRead, priv: KeyRead)
      requires DistinctReads(pub, priv)
      ensures privateKey == Assigned(priv, None) && ownsPrivate
      ensures !priv.Threw? ==> publicKey == Assigned(pub, None) && ownsPublic && released == []
      ensures priv.Threw? ==> publicKey == None && !ownsPublic && released == Handles(Assigned(pub, None))
      ensures Valid()
    {
      publicKey := Assigned(pub, None);
      ownsPublic := true;
      privateKey := Assigned(priv, None);
      released := [];
      ownsPrivate := false;
      new;
      if priv.Threw? && ownsPublic {
        released := released + Handles(publicKey);
        publicKey := None;
        ownsPublic := false;
      }
      ownsPrivate := true;
    }

    /** `~Crypto()`: release each handle whose ownership flag is set.  From a
        valid state no handle ends up released twice. */
    method Release()
      modifies this`released
      ensures released == old(released) + old(PendingReleases())
      ensures old(Valid()) ==> NoRepeats(released)
    {
      ghost var pending := PendingReleases();
      ghost var valid := Valid();
      if ownsPublic {
        if valid && publicKey.Some? {
          NoRepeatsAppend(released, publicKey.value);
        }
        released := released + Handles(publicKey);
      }
      if ownsPrivate {
        if valid && privateKey.Some? {
          NoRepeatsAppend(released, privateKey.value);
        }
        released := released + Handles(privateKey);
      }
      assert released == old(released) + pending;
    }
  }

  /** A session built from two key files and then destroyed releases every
      handle it obtained exactly once and nothing else, whichever reads
      failed and however. */
  method SessionLifetime(pub: KeyRead, priv: KeyRead) returns (released: seq<nat>)
    requires DistinctReads(pub, priv)
    ensures NoRepeats(released)
    ensures forall h :: h in released <==> pub == Parsed(h) || priv == Parsed(h)
  {
    var session := new Crypto.FromFiles(pub, priv);
    session.Release();
    released := session.released;
  }

  /** A session built from a key string and then destroyed releases the
      parsed key once, or nothing. */
  method StringSessionLifetime(read: KeyRead) returns (released: seq<nat>)
    ensures released == (if read.Parsed? then [read.handle] else [])
  {
    var session := new Crypto.FromString(read);
    session.Release();
    released := session.released;
  }

  /** The written two-file constructor releases the public key twice
      exactly when the public key was read and reading the private key
      threw; in every other case each handle is released once. */
  method AsWrittenSessionLifetime(pub: KeyRead, priv: KeyRead) returns (released: seq<nat>)
    requires DistinctReads(pub, priv)
    ensures pub.Parsed? && priv.Threw? ==> released == [pub.handle, pub.handle]
    ensures NoRepeats(released) <==> !(pub.Parsed? && priv.Threw?)
  {
    var session := new Crypto.FromFilesAsWritten(pub, priv);
    session.Release();
    released := session.released;
    if pub.Parsed? && priv.Threw? {
      assert released[0] == released[1];
    }
  }
}
