/**
 * The AEAD_AES_*_GCM interface of section 5.1 of RFC 5116, as the
 * `cryptography` package's AESGCM class exposes it with no associated data:
 * `encrypt(nonce, plaintext, None)` returns the ciphertext with a 16-byte
 * authentication tag appended, and `decrypt(nonce, tagged, None)` either
 * returns the plaintext or raises `InvalidTag`.
 *
 * AES itself is not modelled. The functions below are a concrete keyed
 * transform with that interface (an additive keystream and a keyed digest
 * as tag), so that every function has a body; what the rest of the model
 * uses of them is only the laws proved here: the ciphertext is 16 bytes
 * longer than the plaintext, decryption undoes encryption, and decryption
 * accepts nothing but the encryption of the plaintext it returns.
 */
module Aead {
  import opened Wrappers
  import opened Bytes

  /** Length of the authentication tag appended to the ciphertext. */
  const TagSize: nat := 16

  function KeyStream(key: seq<byte>, nonce: seq<byte>, i: nat): byte
  {
    var k := if |key| == 0 then 0 else key[i % |key|];
    var n := if |nonce| == 0 then 0 else nonce[i % |nonce|];
    (k + n + i) % 256
  }

  function Mask(key: seq<byte>, nonce: seq<byte>, s: seq<byte>): (r: seq<byte>)
    ensures |r| == |s|
  {
    seq(|s|, i requires 0 <= i < |s| => (s[i] + KeyStream(key, nonce, i)) % 256)
  }

  function Unmask(key: seq<byte>, nonce: seq<byte>, s: seq<byte>): (r: seq<byte>)
    ensures |r| == |s|
  {
    seq(|s|, i requires 0 <= i < |s| => (s[i] - KeyStream(key, nonce, i)) % 256)
  }

  function Digest(s: seq<byte>, acc: byte): byte
  {
    if s == [] then acc else Digest(s[1..], (acc * 31 + s[0]) % 256)
  }

  function Tag(key: seq<byte>, nonce: seq<byte>, body: seq<byte>): (t: seq<byte>)
    ensures |t| == TagSize
  {
    seq(TagSize, j requires 0 <= j < TagSize => (Digest(body, j) + KeyStream(key, nonce, |body| + j)) % 256)
  }

  /** `AESGCM(key).encrypt(nonce, plaintext, None)`. */
  function Encrypt(key: seq<byte>, nonce: seq<byte>, plaintext: seq<byte>): (tagged: seq<byte>)
    ensures |tagged| == |plaintext| + TagSize
  {
    var body := Mask(key, nonce, plaintext);
    body + Tag(key, nonce, body)
  }

  /** `AESGCM(key).decrypt(nonce, tagged, None)`; `None` stands for `InvalidTag`. */
  function Decrypt(key: seq<byte>, nonce: seq<byte>, tagged: seq<byte>): (r: Option<seq<byte>>)
    ensures r.Some? ==> |tagged| == |r.value| + TagSize
  {
    if |tagged| < TagSize then None
    else
      var body := tagged[..|tagged| - TagSize];
      if tagged[|tagged| - TagSize..] == Tag(key, nonce, body) then Some(Unmask(key, nonce, body)) else None
  }

  lemma AddSubMod(b: byte, k: byte)
    ensures ((b + k) % 256 - k) % 256 == b
    ensures ((b - k) % 256 + k) % 256 == b
  {
    if b + k < 256 { assert (b + k) % 256 == b + k; } else { assert (b + k) % 256 == b + k - 256; }
    if b >= k { assert (b - k) % 256 == b - k; } else { assert (b - k) % 256 == b - k + 256; }
  }

  lemma UnmaskMask(key: seq<byte>, nonce: seq<byte>, s: seq<byte>)
    ensures Unmask(key, nonce, Mask(key, nonce, s)) == s
  {
    var m := Mask(key, nonce, s);
    forall i | 0 <= i < |s| ensures Unmask(key, nonce, m)[i] == s[i] {
      AddSubMod(s[i], KeyStream(key, nonce, i));
    }
  }

  lemma MaskUnmask(key: seq<byte>, nonce: seq<byte>, s: seq<byte>)
    ensures Mask(key, nonce, Unmask(key, nonce, s)) == s
  {
    var u := Unmask(key, nonce, s);
    forall i | 0 <= i < |s| ensures Mask(key, nonce, u)[i] == s[i] {
      AddSubMod(s[i], KeyStream(key, nonce, i));
    }
  }

  /** Decryption under the same key and nonce gives back the plaintext. */
  lemma DecryptEncrypt(key: seq<byte>, nonce: seq<byte>, plaintext: seq<byte>)
    ensures Decrypt(key, nonce, Encrypt(key, nonce, plaintext)) == Some(plaintext)
  {
    var body := Mask(key, nonce, plaintext);
    var tagged := Encrypt(key, nonce, plaintext);
    assert tagged[..|tagged| - TagSize] == body;
    assert tagged[|tagged| - TagSize..] == Tag(key, nonce, body);
    UnmaskMask(key, nonce, plaintext);
  }

  /**
   * Decryption accepts only a genuine encryption: whatever it returns, the
   * input was exactly the encryption of that plaintext under the same key and nonce.
   */
  lemma DecryptAcceptsOnlyEncryptions(key: seq<byte>, nonce: seq<byte>, tagged: seq<byte>)
    requires Decrypt(key, nonce, tagged).Some?
    ensures tagged == Encrypt(key, nonce, Decrypt(key, nonce, tagged).value)
  {
    var body := tagged[..|tagged| - TagSize];
    MaskUnmask(key, nonce, body);
    assert tagged == body + tagged[|tagged| - TagSize..];
  }
}
