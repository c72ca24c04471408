/** PKCS#7 padding (section 6.3 of RFC 5652) and the decryption of cached Teams tokens that relies on it. */
module Pkcs7 {
  import opened Text

  newtype byte = x: int | 0 <= x < 256

  const AES_BLOCK_SIZE: nat := 16

  /** How many bytes padding adds: 1 to blockSize. */
  function PadLength(length: nat, blockSize: nat): (n: nat)
    requires blockSize > 0
    ensures 1 <= n <= blockSize
  {
    blockSize - length % blockSize
  }

  /** Each added byte holds the count, cut to eight bits. */
  function Pad(plaintext: seq<byte>, blockSize: nat): seq<byte>
    requires blockSize > 0
  {
    var n := PadLength(|plaintext|, blockSize);
    plaintext + seq(n, _ => (n % 256) as byte)
  }

  function Unpad(plaintext: seq<byte>, blockSize: nat): Option<seq<byte>>
    requires blockSize > 0
  {
    if plaintext == [] || |plaintext| % blockSize != 0 then None
    else
      var padding := plaintext[|plaintext| - 1] as int;
      if padding == 0 || padding > blockSize || padding > |plaintext| then None
      else if exists i | |plaintext| - padding <= i < |plaintext| :: plaintext[i] as int != padding then None
      else Some(plaintext[..|plaintext| - padding])
  }

  method UnpadPKCS7(plaintext: seq<byte>, blockSize: nat) returns (r: Option<seq<byte>>)
    requires blockSize > 0
    ensures r == Unpad(plaintext, blockSize)
  {
    if |plaintext| == 0 || |plaintext| % blockSize != 0 {
      return None;
    }
    var padding := plaintext[|plaintext| - 1] as int;
    if padding == 0 || padding > blockSize || padding > |plaintext| {
      return None;
    }
    var i := |plaintext| - padding;
    while i < |plaintext|
      invariant |plaintext| - padding <= i <= |plaintext|
      invariant forall k | |plaintext| - padding <= k < i :: plaintext[k] as int == padding
    {
      if plaintext[i] as int != padding {
        return None;
      }
      i := i + 1;
    }
    return Some(plaintext[..|plaintext| - padding]);
  }

  /** Padding rounds the length up to a multiple of the block size. */
  lemma PaddedLength(length: nat, blockSize: nat)
    requires blockSize > 0
    ensures (length + PadLength(length, blockSize)) % blockSize == 0
  {
    var q := length / blockSize;
    assert length + PadLength(length, blockSize) == blockSize * (q + 1);
    MultipleHasNoRemainder(q + 1, blockSize);
  }

  lemma MultipleHasNoRemainder(q: nat, n: nat)
    requires n > 0
    ensures (n * q) % n == 0
  {
    var r := (n * q) % n;
    var d := (n * q) / n;
    assert n * q == n * d + r;
    assert r == n * (q - d);
    MultipleBounds(n, q - d);
  }

  lemma MultipleBounds(n: nat, e: int)
    ensures e <= -1 ==> n * e <= 0 - n
    ensures e <= 0 ==> n * e <= 0
    ensures e >= 1 ==> n * e >= n
    ensures e >= 2 ==> n * e >= 2 * n
  {
  }

  lemma UnpadOfPad(plaintext: seq<byte>, blockSize: nat)
    requires 1 <= blockSize <= 255
    ensures Unpad(Pad(plaintext, blockSize), blockSize) == Some(plaintext)
  {
    PaddedLength(|plaintext|, blockSize);
    var padded := Pad(plaintext, blockSize);
    var n := PadLength(|plaintext|, blockSize);
    assert padded[|padded| - 1] as int == n;
    assert padded[..|padded| - n] == plaintext;
  }

  /** Whatever unpads is exactly the padding of what it unpads to, for every block size. */
  lemma PadOfUnpad(padded: seq<byte>, blockSize: nat)
    requires blockSize > 0
    requires Unpad(padded, blockSize).Some?
    ensures Pad(Unpad(padded, blockSize).value, blockSize) == padded
  {
    var padding := padded[|padded| - 1] as int;
    var plaintext := Unpad(padded, blockSize).value;
    PaddedLength(|plaintext|, blockSize);
    SamePadLength(|plaintext|, padding, blockSize);
  }

  /** Two pad lengths that reach a block boundary from the same length are one. */
  lemma SamePadLength(length: nat, padding: nat, blockSize: nat)
    requires 1 <= padding <= blockSize
    requires (length + padding) % blockSize == 0
    ensures PadLength(length, blockSize) == padding
  {
    var q := length / blockSize;
    var r := length % blockSize;
    var k := (length + padding) / blockSize;
    assert length == blockSize * q + r;
    assert length + padding == blockSize * k;
    assert r + padding == blockSize * (k - q);
    MultipleBounds(blockSize, k - q);
    assert k - q == 1;
  }

  /** A count that does not fit in a byte breaks the round trip, so block sizes up to 255 are exactly those it
      works for. */
  lemma RoundTripIffCountFitsByte(blockSize: nat)
    requires blockSize > 0
    ensures (forall p: seq<byte> :: Unpad(Pad(p, blockSize), blockSize) == Some(p)) <==> blockSize <= 255
  {
    if blockSize <= 255 {
      forall p: seq<byte> ensures Unpad(Pad(p, blockSize), blockSize) == Some(p) {
        UnpadOfPad(p, blockSize);
      }
    } else {
      var p: seq<byte> := seq(blockSize - 256, _ => 0);
      assert PadLength(|p|, blockSize) == 256;
      var padded := Pad(p, blockSize);
      assert padded[|padded| - 1] == 0;
      assert Unpad(padded, blockSize) == None;
    }
  }

  // ----- cached tokens

  /** The primitives decryption is built from: base64 in any of four alphabets, the AES key check, CBC decryption,
      and the text of valid UTF-8 bytes. */
  datatype Primitives = Primitives(
    decodeBase64: string -> Option<seq<byte>>,
    validKey: seq<byte> -> bool,
    decryptCBC: (seq<byte>, seq<byte>, seq<byte>) -> seq<byte>,
    textOf: seq<byte> -> Option<string>
  )

  /** decryptTeamsAuthToken; None stands for its errors. */
  function DecryptToken(p: Primitives, baseKey: seq<byte>, encryptedToken: string, encodedIV: string)
    : (r: Option<string>)
    ensures r.Some? ==> r.value != ""
  {
    var ciphertext := p.decodeBase64(encryptedToken);
    var iv := p.decodeBase64(encodedIV);
    if ciphertext.None? || iv.None? || !p.validKey(baseKey) || |iv.value| != AES_BLOCK_SIZE then None
    else if ciphertext.value == [] || |ciphertext.value| % AES_BLOCK_SIZE != 0 then None
    else
      match Unpad(p.decryptCBC(baseKey, iv.value, ciphertext.value), AES_BLOCK_SIZE)
      case None => None
      case Some(plaintext) =>
        var text := p.textOf(plaintext);
        if text.None? || TrimSpace(text.value) == "" then None else text
  }

  /** A token encrypted from its padded bytes decrypts to itself. */
  lemma DecryptOfEncrypted(p: Primitives, baseKey: seq<byte>, encryptedToken: string, encodedIV: string,
                           iv: seq<byte>, ciphertext: seq<byte>, tokenBytes: seq<byte>, token: string)
    requires p.decodeBase64(encryptedToken) == Some(ciphertext) && p.decodeBase64(encodedIV) == Some(iv)
    requires p.validKey(baseKey) && |iv| == AES_BLOCK_SIZE
    requires |ciphertext| == |Pad(tokenBytes, AES_BLOCK_SIZE)|
    requires p.decryptCBC(baseKey, iv, ciphertext) == Pad(tokenBytes, AES_BLOCK_SIZE)
    requires p.textOf(tokenBytes) == Some(token) && TrimSpace(token) != ""
    ensures DecryptToken(p, baseKey, encryptedToken, encodedIV) == Some(token)
  {
    UnpadOfPad(tokenBytes, AES_BLOCK_SIZE);
    PaddedLength(|tokenBytes|, AES_BLOCK_SIZE);
    hide TrimSpace, Unpad;
  }

  /** The text of padded bytes under this key and vector, not blank. */
  ghost predicate EncryptionOf(p: Primitives, baseKey: seq<byte>, iv: seq<byte>, ciphertext: seq<byte>,
                               tokenBytes: seq<byte>, token: string) {
    && p.decryptCBC(baseKey, iv, ciphertext) == Pad(tokenBytes, 16)
    && p.textOf(tokenBytes) == Some(token) && TrimSpace(token) != ""
  }

  /** A token comes out exactly when key and vector are good and the ciphertext, whole blocks of it, hides the padded
      bytes of that token. */
  lemma DecryptsExactly(p: Primitives, baseKey: seq<byte>, encryptedToken: string, encodedIV: string, token: string)
    ensures DecryptToken(p, baseKey, encryptedToken, encodedIV) == Some(token) <==>
              && p.decodeBase64(encryptedToken).Some? && p.decodeBase64(encodedIV).Some?
              && var (ciphertext, iv) := (p.decodeBase64(encryptedToken).value, p.decodeBase64(encodedIV).value);
              && p.validKey(baseKey) && |iv| == 16 && ciphertext != [] && |ciphertext| % 16 == 0
              && exists tokenBytes :: EncryptionOf(p, baseKey, iv, ciphertext, tokenBytes, token)
  {
    hide TrimSpace, Unpad, Pad;
    if p.decodeBase64(encryptedToken).Some? && p.decodeBase64(encodedIV).Some? {
      var ciphertext, iv := p.decodeBase64(encryptedToken).value, p.decodeBase64(encodedIV).value;
      var plain := p.decryptCBC(baseKey, iv, ciphertext);
      if Unpad(plain, 16).Some? {
        PadOfUnpad(plain, 16);
        assert EncryptionOf(p, baseKey, iv, ciphertext, Unpad(plain, 16).value, token) <==>
          p.textOf(Unpad(plain, 16).value) == Some(token) && TrimSpace(token) != "";
      }
      forall tokenBytes | EncryptionOf(p, baseKey, iv, ciphertext, tokenBytes, token)
        ensures Unpad(plain, 16) == Some(tokenBytes)
      {
        UnpadOfPad(tokenBytes, 16);
      }
    }
  }
}
