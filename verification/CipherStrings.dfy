/** The string pipeline around the cipher: C string, padded ciphertext, Base64 text, and back. */
module CipherStrings {
  import opened Streams
  import opened Base64
  import opened Base64Theorems
  import Base64Codec

  const AES_BLOCK_SIZE := 16
  const ENUSER_SIZE := 256
  const ENTAG_SIZE := 256

  /** The cipher under a fixed key: a length-preserving bijection of whole blocks. */
  datatype Cipher = Cipher(enc: Block -> Block, dec: Block -> Block)

  predicate WholeBlocks(p: Block) { |p| % AES_BLOCK_SIZE == 0 }

  ghost predicate Invertible(c: Cipher) {
    && (forall p: Block :: WholeBlocks(p) ==> |c.enc(p)| == |p| && c.dec(c.enc(p)) == p)
    && (forall x: Block :: WholeBlocks(x) ==> |c.dec(x)| == |x|)
  }

  /** Padding of section 6.3 of RFC 5652: n bytes of value n, one to a whole block of them. */
  function Padded(p: Block): (q: Block)
    ensures |q| == (|p| / AES_BLOCK_SIZE + 1) * AES_BLOCK_SIZE
  {
    var n: byte := AES_BLOCK_SIZE - |p| % AES_BLOCK_SIZE;
    p + seq(n, _ => n)
  }

  function Unpadded(q: Block): Option<Block> {
    if q == [] then None
    else
      var n := q[|q| - 1];
      if 1 <= n <= AES_BLOCK_SIZE && n <= |q| && (forall i :: |q| - n <= i < |q| ==> q[i] == n)
      then Some(q[..|q| - n]) else None
  }

  lemma UnpaddedPadded(p: Block)
    ensures Unpadded(Padded(p)) == Some(p)
  {
    var q := Padded(p);
    assert q[..|p|] == p;
  }

  function AesEncrypt(c: Cipher, p: Block): Block { c.enc(Padded(p)) }

  /** None when the ciphertext is not whole blocks or the padding is wrong. */
  function AesDecrypt(c: Cipher, x: Block): Option<Block> {
    if x == [] || !WholeBlocks(x) then None else Unpadded(c.dec(x))
  }

  predicate NulFree(s: Block) { forall i :: 0 <= i < |s| ==> s[i] != 0 }

  /** The C string at the start of a piece of memory. */
  function CString(m: Block): (s: Block) {
    if m == [] || m[0] == 0 then [] else [m[0]] + CString(m[1..])
  }

  lemma {:induction false} CStringOf(s: Block, m: Block)
    requires NulFree(s)
    ensures CString(s + [0] + m) == s && CString(s) == s
  {
    if s != [] {
      CStringOf(s[1..], m);
      assert (s + [0] + m)[1..] == s[1..] + [0] + m;
    }
  }

  lemma {:induction false} CStringPrefix(m: Block)
    ensures NulFree(CString(m)) && |CString(m)| <= |m| && CString(m) == m[..|CString(m)|]
    ensures |CString(m)| < |m| <==> 0 in m
    ensures |CString(m)| < |m| ==> m[|CString(m)|] == 0
  {
    if m != [] && m[0] != 0 {
      CStringPrefix(m[1..]);
      assert m == [m[0]] + m[1..];
    }
  }

  /** The ciphertext is the padded plaintext's length, and decrypts to the plaintext. */
  lemma CipherRecovers(c: Cipher, p: Block)
    requires Invertible(c)
    ensures |AesEncrypt(c, p)| == (|p| / AES_BLOCK_SIZE + 1) * AES_BLOCK_SIZE
    ensures AesDecrypt(c, AesEncrypt(c, p)) == Some(p)
  {
    UnpaddedPadded(p);
    hide Padded, Unpadded;
    assert WholeBlocks(Padded(p));
  }

  lemma PlainIsShorter(c: Cipher, x: Block)
    requires Invertible(c) && AesDecrypt(c, x).Some?
    ensures |AesDecrypt(c, x).value| < |x|
  {
    assert |c.dec(x)| == |x|;
    hide Invertible;
  }

  /** The text test_encrypt leaves in enUSER; the string's terminator is encrypted with it. */
  function EncryptedText(c: Cipher, s: Block): Block { EncodedText(AesEncrypt(c, s + [0])) }

  /** Every store of the encrypting side is in range exactly for strings of at most 174 bytes:
      the ciphertext always fits the buffer allocated for it, and the text leaves room for its
      terminator in the 256 bytes of enUSER. */
  lemma StoresInRangeIff(c: Cipher, s: Block)
    requires Invertible(c)
    ensures |AesEncrypt(c, s + [0])| <= |s + [0]| + AES_BLOCK_SIZE
    ensures |EncryptedText(c, s)| < ENUSER_SIZE <==> |s| <= 174
  {
    hide Invertible, Padded, EncodedText, AesEncrypt;
    var x := AesEncrypt(c, s + [0]);
    CipherRecovers(c, s + [0]);
    EncodedLength(x);
    assert |x| == ((|s| + 1) / 16 + 1) * 16;
    if |s| <= 174 {
      assert (|s| + 1) / 16 <= 10;
    } else {
      assert (|s| + 1) / 16 >= 11;
    }
  }

  lemma EncodedLength(x: Block)
    ensures |EncodedText(x)| == 4 * ((|x| + 2) / 3)
  {
    hide ToSextets, ToBytes;
    SextetsDecodeBack(x);
  }

  lemma EncodedNulFree(x: Block)
    ensures NulFree(EncodedText(x))
  {
    hide ToSextets;
    TablesAgree();
  }

  /** What test_decrypt is meant to be given: the text of an intact ciphertext whose plaintext
      is a terminated string, with room left in enUSER for the terminator it writes. */
  predicate Decryptable(c: Cipher, raw: Block) {
    && NulFree(raw) && Decodable(raw)
    && var x := RvDecoded(raw, ENTAG_SIZE);
       && x.Some? && |x.value| < ENUSER_SIZE
       && AesDecrypt(c, x.value).Some? && 0 in AesDecrypt(c, x.value).value
  }

  function DecryptedString(c: Cipher, raw: Block): Block
    requires Decryptable(c, raw)
  {
    CString(AesDecrypt(c, RvDecoded(raw, ENTAG_SIZE).value).value)
  }

  /** Decrypting what was encrypted gives the string back, for every string that can be
      encrypted at all. */
  lemma PipelineRecovers(c: Cipher, s: Block)
    requires Invertible(c) && NulFree(s) && |s| <= 174
    ensures Decryptable(c, EncryptedText(c, s)) && DecryptedString(c, EncryptedText(c, s)) == s
  {
    hide Invertible, Padded, Unpadded, EncodedText, AesEncrypt, AesDecrypt, Decodable, RvDecoded;
    var x := AesEncrypt(c, s + [0]);
    CipherRecovers(c, s + [0]);
    StoresInRangeIff(c, s);
    EncodedLength(x);
    EncodedNulFree(x);
    RvRoundTrip(x, ENTAG_SIZE);
    CStringOf(s, []);
    assert s + [0] + [] == s + [0];
  }

  /** The native library's globals and its two entry points. */
  class NativeStrings {
    const enUSER: array<byte>
    var encryptLEN: nat
    var decryptLEN: nat

    ghost predicate Valid() { enUSER.Length == ENUSER_SIZE }

    constructor ()
      ensures Valid() && fresh(enUSER)
    {
      enUSER := new byte[ENUSER_SIZE];
      encryptLEN, decryptLEN := 0, 0;
    }

    /** C's strncpy: copies up to the terminator and fills up with zeros. */
    method Strncpy(src: Block, n: nat)
      requires Valid() && n <= ENUSER_SIZE && (|src| >= n || 0 in src)
      modifies enUSER
      ensures enUSER[..n] == (var s := CString(src); if |s| >= n then s[..n] else s + Zeros(n - |s|))
      ensures enUSER[n..] == old(enUSER[n..])
    {
      CStringPrefix(src);
      ghost var s := CString(src);
      var i := 0;
      while i < n && src[i] != 0
        invariant 0 <= i <= n && i <= |s|
        invariant enUSER[..i] == s[..i] && enUSER[n..] == old(enUSER[n..])
      {
        enUSER[i] := src[i];
        i := i + 1;
      }
      assert i < n ==> i == |s|;
      while i < n
        invariant 0 <= i <= n && (i < n ==> |s| <= i) && enUSER[n..] == old(enUSER[n..])
        invariant enUSER[..i] == if |s| >= i then s[..i] else s + Zeros(i - |s|)
      {
        enUSER[i] := 0;
        i := i + 1;
      }
    }

    method TestEncrypt(c: Cipher, rawData: Block)
      requires Valid() && Invertible(c) && NulFree(rawData) && |rawData| <= 174
      modifies this, enUSER
      ensures CString(enUSER[..]) == EncryptedText(c, rawData)
      ensures encryptLEN == |AesEncrypt(c, rawData + [0])|
    {
      hide Invertible, Padded, EncodedText, AesEncrypt, CString;
      StoresInRangeIff(c, rawData);
      var cipherText := AesEncrypt(c, rawData + [0]);
      encryptLEN := |cipherText|;
      var entag := Base64Codec.Encode(cipherText);
      var base64len := entag.Length;
      EncodedNulFree(cipherText);
      CStringOf(entag[..], []);
      assert entag[..] + [0] + [] == entag[..] + [0];
      Strncpy(entag[..], base64len);
      enUSER[base64len] := 0;
      CStringOf(entag[..], enUSER[base64len + 1..]);
      assert enUSER[..] == entag[..] + [0] + enUSER[base64len + 1..];
    }

    method TestDecrypt(c: Cipher, rawData: Block)
      requires Valid() && Invertible(c) && Decryptable(c, rawData)
      modifies this, enUSER
      ensures CString(enUSER[..]) == DecryptedString(c, rawData)
    {
      hide Invertible, AesDecrypt, CString, Decodable, RvDecoded;
      var entag := new byte[ENTAG_SIZE];
      var delen := Base64Codec.RvDecodeB64(rawData, entag, ENTAG_SIZE);
      var plainText := AesDecrypt(c, entag[..delen]).value;
      decryptLEN := |plainText|;
      PlainIsShorter(c, entag[..delen]);
      CStringPrefix(plainText);
      Strncpy(plainText, delen);
      enUSER[delen] := 0;
      ghost var s := CString(plainText);
      assert enUSER[..delen] == s + Zeros(delen - |s|);
      CStringOf(s, enUSER[|s| + 1..]);
      assert enUSER[..] == s + [0] + enUSER[|s| + 1..];
    }
  }
}
