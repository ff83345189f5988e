/** The password verifier stored in the `password` column. bcrypt is represented by a
    symbolic term over the key bcrypt actually uses: the first 72 bytes of the password's
    UTF-8 encoding. `Hash(p)` is the verifier bcrypt would store for `p`, and `Verify`
    recomputes it and compares, as `bcrypt.compare` does with the salt and cost embedded
    in the stored value. Two passwords verify against each other's hash exactly when their
    keys agree: always for passwords that share their first 72 characters, and never for
    distinct passwords whose encodings fit in 72 bytes. Salting and the one-way property
    are not modelled. */
module PasswordHash {
  import opened Bytes
  import Utf8

  /** bcrypt ignores every key byte after the 72nd */
  const KeyLimit: nat := 72

  /** The bytes of `password` that bcrypt feeds to its key schedule */
  function Key(password: string): (k: seq<byte>)
    ensures |k| <= KeyLimit
    ensures |Utf8.Encode(password)| <= KeyLimit ==> k == Utf8.Encode(password)
    ensures |Utf8.Encode(password)| > KeyLimit ==> |k| == KeyLimit && k == Utf8.Encode(password)[..KeyLimit]
  {
    var e := Utf8.Encode(password);
    if |e| <= KeyLimit then e else e[..KeyLimit]
  }

  /** Once a password's encoding reaches 72 bytes, nothing appended to it changes the key */
  lemma KeyIgnoresSuffix(password: string, suffix: string)
    requires |Utf8.Encode(password)| >= KeyLimit
    ensures Key(password + suffix) == Key(password)
  {
    Utf8.EncodeAppend(password, suffix);
    var e := Utf8.Encode(password);
    assert (e + Utf8.Encode(suffix))[..KeyLimit] == e[..KeyLimit];
  }

  datatype Verifier = Bcrypt(key: seq<byte>)

  /** `bcrypt.hash(password, 10)` */
  function Hash(password: string): (v: Verifier)
  {
    Bcrypt(Key(password))
  }

  /** `bcrypt.compare(password, stored)` */
  predicate Verify(password: string, stored: Verifier)
  {
    Hash(password) == stored
  }

  /** A password always verifies against its own hash */
  lemma VerifyHash(password: string)
    ensures Verify(password, Hash(password))
  {
  }

  /** A password verifies against another's hash exactly when their keys agree */
  lemma VerifyIffSameKey(password: string, other: string)
    ensures Verify(password, Hash(other)) <==> Key(password) == Key(other)
  {
  }

  /** Within the 72-byte limit, no other password verifies */
  lemma ShortPasswordsDistinct(password: string, other: string)
    requires |Utf8.Encode(password)| <= KeyLimit && |Utf8.Encode(other)| <= KeyLimit
    ensures Verify(password, Hash(other)) <==> password == other
  {
    if Verify(password, Hash(other)) {
      Utf8.EncodeInjective(password, other);
    }
  }

  /** Passwords that share their first 72 characters verify against each other's hash,
      whatever follows */
  lemma LongPasswordsCollide(prefix: string, rest: string, otherRest: string)
    requires |prefix| >= KeyLimit
    ensures Verify(prefix + rest, Hash(prefix + otherRest))
  {
    KeyIgnoresSuffix(prefix, rest);
    KeyIgnoresSuffix(prefix, otherRest);
  }
}
