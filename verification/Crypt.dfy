/** Stored passwords: bytes under a fixed mask, in base64, behind a prefix that names the scheme. */
module Crypt {
  import opened Bytes
  import opened Bits
  import Base64

  const MASK := 0xA5
  const PREFIX1 := "{1}:"
  const PREFIX2 := "{2}:"

  function Hide(x: Byte): Byte {
    Narrow8(x, MASK);
    Xor(x, MASK)
  }

  lemma Narrow8(a: nat, b: nat)
    requires a < 256 && b < 256
    ensures Xor(a, b) < 256
  {
    assert Power(1) == 2 && Power(2) == 4 && Power(3) == 8 && Power(4) == 16 && Power(5) == 32 &&
      Power(6) == 64 && Power(7) == 128;
    assert Power(8) == 256;
    Narrow(a, b, 8);
  }

  function Masked(data: seq<Byte>): (r: seq<Byte>)
    ensures |r| == |data|
  {
    seq(|data|, i requires 0 <= i < |data| => Hide(data[i]))
  }

  /** The loop over the bytes of a string. */
  method Mask(data: seq<Byte>) returns (r: seq<Byte>)
    ensures r == Masked(data)
  {
    r := data;
    var i := 0;
    while i < |data|
      invariant 0 <= i <= |data| && |r| == |data|
      invariant forall j :: 0 <= j < |data| ==> r[j] == if j < i then Hide(data[j]) else data[j]
    {
      r := r[i := Hide(r[i])];
      i := i + 1;
    }
  }

  predicate IsCrypted(c: string) {
    |c| >= 4 && (c[..4] == PREFIX1 || c[..4] == PREFIX2)
  }

  /** The text is given in UTF-8. */
  method Encrypt(plain: seq<Byte>) returns (crypted: string)
    ensures IsCrypted(crypted) && crypted == PREFIX2 + Base64.Encode(Masked(plain)) && crypted[..4] == "{2}:"
    ensures |crypted| == 4 + 4 * ((|plain| + 2) / 3)
  {
    var u := Mask(plain);
    var code := Base64.EncodeBytes(u);
    crypted := PREFIX2 + code;
    Base64.EncodedLength(u);
    assert crypted[..4] == PREFIX2;
  }

  /** `toUtf8` converts from windows-1252, for passwords of the first scheme. */
  method DecryptBlob(alg: nat, xored: seq<Byte>, toUtf8: seq<Byte> -> seq<Byte>) returns (plain: seq<Byte>)
    requires alg == 1 || alg == 2
    ensures plain == if alg == 1 then toUtf8(Masked(xored)) else Masked(xored)
  {
    plain := Mask(xored);
    if alg == 1 {
      plain := toUtf8(plain);
    }
  }

  method Decrypt(crypted: string, toUtf8: seq<Byte> -> seq<Byte>) returns (plain: seq<Byte>)
    ensures plain == Decrypted(crypted, toUtf8)
  {
    if !IsCrypted(crypted) {
      return [];
    }
    var alg := (crypted[1] - '0') as int;
    var blob := Base64.DecodeText(crypted[4..]);
    plain := DecryptBlob(alg, blob, toUtf8);
  }

  function Decrypted(crypted: string, toUtf8: seq<Byte> -> seq<Byte>): seq<Byte> {
    if !IsCrypted(crypted) then []
    else if crypted[..4] == PREFIX1 then toUtf8(Masked(Base64.Decode(crypted[4..])))
    else Masked(Base64.Decode(crypted[4..]))
  }

  /** Every byte is masked with 165, bit by bit. */
  lemma HiddenBits(data: seq<Byte>, j: nat, i: nat)
    requires j < |data|
    ensures Bit(Masked(data)[j], i) <==> Bit(data[j], i) != Bit(0xA5, i)
  {
    BitsOf(data[j], MASK, i);
  }

  lemma MaskOfLetter()
    ensures Xor(0x61, 0xA5) == 0xC4
  {
    assert Xor(0, 1) == 1;
    assert Xor(1, 2) == 3;
    assert Xor(3, 5) == 6;
    assert Xor(6, 10) == 12;
    assert Xor(12, 20) == 24;
    assert Xor(24, 41) == 49;
    assert Xor(48, 82) == 98;
  }

  lemma MaskedLetter()
    ensures Masked([0x61]) == [0xC4]
  {
    MaskOfLetter();
  }

  /** What is stored for the letter a, byte 0x61. */
  lemma StoredLetter()
    ensures Masked([0x61]) == [0xC4] && PREFIX2 + Base64.Encode([0xC4]) == "{2}:xA=="
  {
    MaskedLetter();
    Base64.OtherVector();
  }

  /** Decryption undoes encryption, for every text. */
  lemma DecryptsEncrypted(plain: seq<Byte>, toUtf8: seq<Byte> -> seq<Byte>)
    ensures Decrypted("{2}:" + Base64.Encode(Masked(plain)), toUtf8) == plain
  {
    var code := Base64.Encode(Masked(plain));
    assert (PREFIX2 + code)[..4] == PREFIX2 && (PREFIX2 + code)[4..] == code;
    Base64.RoundTrip(Masked(plain));
    forall i | 0 <= i < |plain| ensures Hide(Hide(plain[i])) == plain[i] {
      XorTwice(plain[i], MASK);
    }
  }

  /** A text of the first scheme is recovered from windows-1252, if `toUtf8` undoes `fromUtf8` on it. */
  lemma DecryptsOldScheme(plain: seq<Byte>, fromUtf8: seq<Byte> -> seq<Byte>, toUtf8: seq<Byte> -> seq<Byte>)
    requires toUtf8(fromUtf8(plain)) == plain
    ensures Decrypted("{1}:" + Base64.Encode(Masked(fromUtf8(plain))), toUtf8) == plain
  {
    var raw := fromUtf8(plain);
    var code := Base64.Encode(Masked(raw));
    assert (PREFIX1 + code)[..4] == PREFIX1 && (PREFIX1 + code)[4..] == code;
    Base64.RoundTrip(Masked(raw));
    forall i | 0 <= i < |raw| ensures Hide(Hide(raw[i])) == raw[i] {
      XorTwice(raw[i], MASK);
    }
    assert Masked(Masked(raw)) == raw;
  }
}
