/** API keys: a plaintext lookup prefix and a digest of the rest (internal/apikey/apikey.go). */
module ApiKey {
  import opened Common
  import opened Charset

  type Digest = seq<int>

  /** The hash of the secret part is a foreign function, so any function at all. */
  datatype KeyFormat = KeyFormat(charset: CharacterSet, length: int, prefixLen: int, hasher: string -> Digest)

  datatype Stored = Stored(prefix: string, digest: Digest)

  predicate IsKeyFormat(f: KeyFormat) {
    0 < f.prefixLen < f.length && Alphabet(f.charset).Some?
  }

  predicate IsKey(f: KeyFormat, key: string) {
    && IsKeyFormat(f)
    && |key| == f.length
    && forall i :: 0 <= i < |key| ==> key[i] in Alphabet(f.charset).value
  }

  method ValidateKey(f: KeyFormat, key: string) returns (ok: bool)
    requires IsKeyFormat(f)
    ensures ok <==> IsKey(f, key)
  {
    if |key| != f.length {
      return false;
    }
    var letters := Alphabet(f.charset).value;
    var allowed := LetterSet(letters);
    for k := 0 to |key|
      invariant forall i :: 0 <= i < k ==> key[i] in letters
    {
      if key[k] !in allowed {
        return false;
      }
    }
    return true;
  }

  function Hash(f: KeyFormat, key: string): Option<Stored> {
    if IsKey(f, key) then Some(Stored(key[..f.prefixLen], f.hasher(key[f.prefixLen..]))) else None
  }

  predicate Verify(f: KeyFormat, key: string, stored: Stored) {
    Hash(f, key) == Some(stored)
  }

  /** Only the first characters of a key are kept as they are; what identifies it is the digest of the rest. */
  lemma StoredParts(f: KeyFormat, key: string)
    requires IsKey(f, key)
    ensures Hash(f, key).Some? && Hash(f, key).value.prefix == key[..f.prefixLen]
    ensures forall secret: string :: key == key[..f.prefixLen] + secret ==> Hash(f, key).value.digest == f.hasher(secret)
  {
    forall secret: string | key == key[..f.prefixLen] + secret
      ensures secret == key[f.prefixLen..]
    {
      assert key[f.prefixLen..] == secret;
    }
  }

  /** Unless two secrets share a digest, a stored key is verified by the issued key alone. */
  lemma VerifiedByKeyAlone(f: KeyFormat, key: string, other: string, stored: Stored)
    requires forall a, b :: f.hasher(a) == f.hasher(b) ==> a == b
    requires Verify(f, key, stored) && Verify(f, other, stored)
    ensures key == other
  {
    assert key == key[..f.prefixLen] + key[f.prefixLen..];
    assert other == other[..f.prefixLen] + other[f.prefixLen..];
  }

  /** An issued key verifies against what was stored for it, and a string that is no key against nothing. */
  lemma VerifiesItself(f: KeyFormat, key: string)
    ensures IsKey(f, key) <==> exists stored :: Verify(f, key, stored)
  {
    if IsKey(f, key) {
      assert Verify(f, key, Hash(f, key).value);
    }
  }
}
