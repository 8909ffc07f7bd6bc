/**
 * The password hasher: a password is stored as the Base64 text of the
 * SHA-256 digest of its UTF-8 bytes, and checked by hashing again and
 * comparing the two texts.
 *
 * UTF-8 encoding and SHA-256 are library code and are parameters here:
 * `utf8` is `Encoding.UTF8.GetBytes` and `sha256` is `SHA256.ComputeHash`,
 * of which the model only knows that it yields 32 bytes.
 */
module PasswordHashing {
  import opened Wrappers
  import opened Base64

  const DigestLength: nat := 32

  /** A SHA-256 digest. */
  type Digest = d: seq<byte> | |d| == DigestLength
    witness seq(DigestLength, _ => 0 as byte)

  /** Length of a stored hash: the Base64 text of 32 bytes. */
  const HashLength: nat := 44

  /**
   * `HashPassword`: 44 characters, 43 of the Base64 alphabet and one closing
   * '=', from which the digest of the password can be read back.
   */
  function HashPassword(utf8: string -> seq<byte>, sha256: seq<byte> -> Digest, password: string): (h: string)
    ensures |h| == HashLength
    ensures forall i :: 0 <= i < HashLength - 1 ==> IsBase64Char(h[i])
    ensures h[HashLength - 1] == Pad
    ensures Decode(h) == Some(sha256(utf8(password)))
  {
    var digest := sha256(utf8(password));
    DigestEncoding(digest);
    Encode(digest)
  }

  /** The Base64 text of a digest: its length, its alphabet, its padding, and that it decodes back. */
  lemma DigestEncoding(d: Digest)
    ensures |Encode(d)| == HashLength && PadCount(|d|) == 1
    ensures forall i :: 0 <= i < HashLength - 1 ==> IsBase64Char(Encode(d)[i])
    ensures Encode(d)[HashLength - 1] == Pad
    ensures Decode(Encode(d)) == Some(d)
  {
    assert PadCount(|d|) == 1 && |Encode(d)| == HashLength;
    EncodeAlphabet(d);
    assert PaddedText(Encode(d), 1);
    DecodeEncode(d);
  }

  /** `VerifyPassword`: whether `hashed` is the text `HashPassword` stores for `password`. */
  function VerifyPassword(utf8: string -> seq<byte>, sha256: seq<byte> -> Digest, password: string, hashed: string): (ok: bool)
    ensures ok ==> |hashed| == HashLength && Decode(hashed) == Some(sha256(utf8(password)))
  {
    HashPassword(utf8, sha256, password) == hashed
  }

  /** A password is accepted against its own stored hash. */
  lemma VerifyOwnHash(utf8: string -> seq<byte>, sha256: seq<byte> -> Digest, password: string)
    ensures VerifyPassword(utf8, sha256, password, HashPassword(utf8, sha256, password))
  {
  }

  /**
   * A password is accepted against the stored hash of another exactly when
   * the two have the same digest, that is, when their UTF-8 bytes or their
   * SHA-256 digests coincide.
   */
  lemma VerifyIffSameDigest(utf8: string -> seq<byte>, sha256: seq<byte> -> Digest, password: string, stored: string)
    ensures VerifyPassword(utf8, sha256, password, HashPassword(utf8, sha256, stored))
      <==> sha256(utf8(password)) == sha256(utf8(stored))
  {
    EncodeInjective(sha256(utf8(password)), sha256(utf8(stored)));
  }

  /** Two passwords with the same UTF-8 bytes share one stored hash, whether or not they are equal. */
  lemma SameBytesAccepted(utf8: string -> seq<byte>, sha256: seq<byte> -> Digest, password: string, stored: string)
    requires utf8(password) == utf8(stored)
    ensures VerifyPassword(utf8, sha256, password, HashPassword(utf8, sha256, stored))
  {
    VerifyIffSameDigest(utf8, sha256, password, stored);
  }

  /** A stored text that is not 44 characters long, the empty text among them, never verifies. */
  lemma VerifyRejectsWrongLength(utf8: string -> seq<byte>, sha256: seq<byte> -> Digest, password: string, hashed: string)
    requires |hashed| != HashLength
    ensures !VerifyPassword(utf8, sha256, password, hashed)
  {
  }
}
