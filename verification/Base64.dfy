/** Base64 (section 4 of RFC 4648), as the encoder and the decoder go through their input. */
module Base64 {
  import opened Bytes

  type Sextet = x: int | 0 <= x < 64

  /** The character at a place of the alphabet. */
  function Digit(k: Sextet): char {
    if k < 26 then 'A' + k as char
    else if k < 52 then 'a' + (k - 26) as char
    else if k < 62 then '0' + (k - 52) as char
    else if k == 62 then '+' else '/'
  }

  predicate IsBase64(c: char) {
    'A' <= c <= 'Z' || 'a' <= c <= 'z' || '0' <= c <= '9' || c == '+' || c == '/'
  }

  /** The place of a character in the alphabet; 255, the low byte of "not found", for others. */
  function Find(c: char): (k: Byte)
    ensures IsBase64(c) <==> k < 64
    ensures k < 64 ==> Digit(k) == c
  {
    if 'A' <= c <= 'Z' then (c - 'A') as int
    else if 'a' <= c <= 'z' then (c - 'a') as int + 26
    else if '0' <= c <= '9' then (c - '0') as int + 52
    else if c == '+' then 62 else if c == '/' then 63 else 255
  }

  lemma DigitFound(k: Sextet)
    ensures IsBase64(Digit(k)) && Find(Digit(k)) == k && Digit(k) != '='
  {
  }

  /** Six bits each of three bytes. */
  function Split(a: Byte, b: Byte, c: Byte): seq<Sextet> {
    [a / 4, a % 4 * 16 + b / 16, b % 16 * 4 + c / 64, c % 64]
  }

  /** Eight bits each of four sextets; higher bits are lost, as in an `unsigned char`. */
  function Byte0(p: Byte, q: Byte): Byte {
    (p * 4 + q / 16 % 4) % 256
  }

  function Byte1(q: Byte, r: Byte): Byte {
    (q % 16 * 16 + r / 4 % 16) % 256
  }

  function Byte2(r: Byte, s: Byte): Byte {
    (r % 4 * 64 + s) % 256
  }

  function Joined(p: Byte, q: Byte, r: Byte, s: Byte): seq<Byte> {
    [Byte0(p, q), Byte1(q, r), Byte2(r, s)]
  }

  lemma Nibbles(l: int, h: int, k: int, m: int)
    requires 0 <= l < 4 && 0 <= h < 16 && 0 <= k < 16 && 0 <= m < 4
    ensures Byte1(l * 16 + h, k * 4 + m) == 16 * h + k
  {
    assert (l * 16 + h) % 16 == h;
    assert (k * 4 + m) / 4 == k;
  }

  lemma Pairs(h: int, l: int, m: int)
    requires 0 <= h < 64 && 0 <= l < 4 && 0 <= m < 16
    ensures Byte0(h, l * 16 + m) == 4 * h + l
  {
    assert (l * 16 + m) / 16 == l;
  }

  lemma Sixes(k: int, h: int, l: int)
    requires 0 <= k < 16 && 0 <= h < 4 && 0 <= l < 64
    ensures Byte2(k * 4 + h, l) == 64 * h + l
  {
    assert (k * 4 + h) % 4 == h;
  }

  /** The bits of three bytes come back. */
  lemma JoinSplit(a: Byte, b: Byte, c: Byte)
    ensures var t := Split(a, b, c); Byte0(t[0], t[1]) == a && Byte1(t[1], t[2]) == b && Byte2(t[2], t[3]) == c
  {
    Pairs(a / 4, a % 4, b / 16);
    Nibbles(a % 4, b / 16, b % 16, c / 64);
    Sixes(b % 16, c / 64, c % 64);
  }

  /** The alphabet of section 4 of RFC 4648. */
  lemma DigitIs(k: Sextet)
    ensures k < 26 ==> Digit(k) == "ABCDEFGHIJKLMNOPQRSTUVWXYZ"[k]
    ensures 26 <= k < 52 ==> Digit(k) == "abcdefghijklmnopqrstuvwxyz"[k - 26]
    ensures 52 <= k ==> Digit(k) == "0123456789+/"[k - 52]
  {
  }

  /** Four sextets have the bits of three bytes, in order. */
  lemma SplitBits(a: Byte, b: Byte, c: Byte)
    ensures var t := Split(a, b, c);
      t[0] as int * 262144 + t[1] as int * 4096 + t[2] as int * 64 + t[3] as int
      == a as int * 65536 + b as int * 256 + c as int
  {
  }

  function Text(t: seq<Sextet>): string {
    seq(|t|, i requires 0 <= i < |t| => Digit(t[i]))
  }

  /** The encoding, three bytes at a time. */
  function Encode(data: seq<Byte>): string {
    if |data| >= 3 then Text(Split(data[0], data[1], data[2])) + Encode(data[3..])
    else if |data| == 2 then Text(Split(data[0], data[1], 0)[..3]) + "="
    else if |data| == 1 then Text(Split(data[0], 0, 0)[..2]) + "=="
    else ""
  }

  /** The decoding: characters up to the first that is no digit, four at a time. */
  function Decode(text: string): seq<Byte> {
    DecodeDigits(Digits(text))
  }

  function Digits(text: string): seq<Byte> {
    if text == "" || text[0] == '=' || !IsBase64(text[0]) then [] else [Find(text[0])] + Digits(text[1..])
  }

  function DecodeDigits(d: seq<Byte>): seq<Byte> {
    if |d| >= 4 then Joined(d[0], d[1], d[2], d[3]) + DecodeDigits(d[4..]) else Rest(d)
  }

  /** The bytes of an unfinished group, whose missing digits are junk. */
  function Rest(d: seq<Byte>): seq<Byte>
    requires |d| < 4
  {
    if |d| == 0 then []
    else
      var junk := Find('\0');
      Joined(d[0], if |d| > 1 then d[1] else junk, if |d| > 2 then d[2] else junk, junk)[..|d| - 1]
  }

  lemma {:induction false} DigitsOfText(t: seq<Sextet>, tail: string)
    ensures Digits(Text(t) + tail) == t + Digits(tail)
  {
    if t == [] {
      assert Text(t) + tail == tail;
    } else {
      var text := Text(t) + tail;
      DigitFound(t[0]);
      assert text[1..] == Text(t[1..]) + tail;
      DigitsOfText(t[1..], tail);
      assert t == [t[0]] + t[1..];
    }
  }

  /** Decoding undoes encoding, for every byte string. */
  lemma {:induction false} RoundTrip(data: seq<Byte>)
    ensures Decode(Encode(data)) == data
    decreases |data|
  {
    if |data| >= 3 {
      var t := Split(data[0], data[1], data[2]);
      DigitsOfText(t, Encode(data[3..]));
      JoinSplit(data[0], data[1], data[2]);
      RoundTrip(data[3..]);
      var d := Digits(Encode(data));
      assert d[4..] == Digits(Encode(data[3..]));
      assert data == [data[0], data[1], data[2]] + data[3..];
    } else if |data| == 2 {
      var t := Split(data[0], data[1], 0)[..3];
      DigitsOfText(t, "=");
      JoinSplit(data[0], data[1], 0);
      assert Digits(Encode(data)) == t;
    } else if |data| == 1 {
      var t := Split(data[0], 0, 0)[..2];
      DigitsOfText(t, "==");
      JoinSplit(data[0], 0, 0);
      assert Digits(Encode(data)) == t;
    }
  }

  lemma {:induction false} DigitsStop(text: string, c: char, rest: string)
    requires !IsBase64(c)
    ensures Digits(text + [c] + rest) == Digits(text)
  {
    if text == "" {
      assert (text + [c] + rest)[0] == c;
    } else {
      assert (text + [c] + rest)[1..] == text[1..] + [c] + rest;
      DigitsStop(text[1..], c, rest);
    }
  }

  /** Decoding stops at the first character that is no digit. */
  lemma DecodeStops(text: string, c: char, rest: string)
    requires c !in "+/" && !('A' <= c <= 'Z') && !('a' <= c <= 'z') && !('0' <= c <= '9')
    ensures Decode(text + [c] + rest) == Decode(text)
  {
    assert c != '+' && c != '/' by { assert '+' in "+/" && '/' in "+/"; }
    DigitsStop(text, c, rest);
  }

  /** Three bytes for every four digits, and one less than there are for the digits left over. */
  lemma {:induction false} DecodedLength(d: seq<Byte>)
    ensures |DecodeDigits(d)| == 3 * (|d| / 4) + if |d| % 4 == 0 then 0 else |d| % 4 - 1
    decreases |d|
  {
    if |d| >= 4 {
      DecodedLength(d[4..]);
    }
  }

  /** Four characters for every three bytes or part of them. */
  lemma {:induction false} EncodedLength(data: seq<Byte>)
    ensures |Encode(data)| == 4 * ((|data| + 2) / 3)
    decreases |data|
  {
    if |data| >= 3 {
      EncodedLength(data[3..]);
      assert |Encode(data)| == 4 + |Encode(data[3..])|;
      assert (|data| + 2) / 3 == 1 + (|data| - 3 + 2) / 3;
    } else {
      assert |data| == 0 || (|data| + 2) / 3 == 1;
    }
  }

  lemma TextFront(t: seq<Sextet>, n: nat)
    requires n <= |t|
    ensures Text(t[..n]) == Text(t)[..n]
  {
  }

  /** One or two bytes at the end are filled up with zeros, whose digits are replaced by padding. */
  lemma Padded(data: seq<Byte>)
    ensures |data| == 1 ==> Encode(data) == Encode([data[0], 0, 0])[..2] + "=="
    ensures |data| == 2 ==> Encode(data) == Encode([data[0], data[1], 0])[..3] + "="
  {
    if |data| == 1 {
      OneGroup(data[0], 0, 0);
      TextFront(Split(data[0], 0, 0), 2);
    } else if |data| == 2 {
      OneGroup(data[0], data[1], 0);
      TextFront(Split(data[0], data[1], 0), 3);
    }
  }

  lemma OneGroup(a: Byte, b: Byte, c: Byte)
    ensures Encode([a, b, c]) == Text(Split(a, b, c))
  {
    var data := [a, b, c];
    assert data[3..] == [];
    assert Encode(data) == Text(Split(a, b, c)) + Encode([]);
  }

  /** Test vectors of section 10 of RFC 4648: f, fo and foo. */
  lemma Vectors()
    ensures Encode([]) == "" && Encode([0x66]) == "Zg==" && Encode([0x66, 0x6f]) == "Zm8="
    ensures Encode([0x66, 0x6f, 0x6f]) == "Zm9v"
  {
    Padded([0x66]);
    Padded([0x66, 0x6f]);
    OneGroup(0x66, 0, 0);
    OneGroup(0x66, 0x6f, 0);
    OneGroup(0x66, 0x6f, 0x6f);
    FourDigits(Split(0x66, 0, 0));
    FourDigits(Split(0x66, 0x6f, 0));
    FourDigits(Split(0x66, 0x6f, 0x6f));
    assert "ZgAA"[..2] == "Zg" && "Zm8A"[..3] == "Zm8";
  }

  /** A byte that is no letter. */
  lemma OtherVector()
    ensures Encode([0xC4]) == "xA=="
  {
    Padded([0xC4]);
    OneGroup(0xC4, 0, 0);
    var t := Split(0xC4, 0, 0);
    FourDigits(t);
    assert Digit(t[0]) == 'x' && Digit(t[1]) == 'A' && Digit(t[2]) == 'A' && Digit(t[3]) == 'A';
    assert "xAAA"[..2] == "xA";
  }

  lemma FourDigits(t: seq<Sextet>)
    requires |t| == 4
    ensures Text(t) == [Digit(t[0]), Digit(t[1]), Digit(t[2]), Digit(t[3])]
  {
  }

  /** One more byte joins a group. */
  lemma Taken<T>(group: seq<T>, data: seq<T>, i: nat)
    requires i < |data|
    ensures group + data[i..] == (group + [data[i]]) + data[i + 1..]
  {
  }

  lemma FullGroup(three: seq<Byte>, rest: seq<Byte>)
    requires |three| == 3
    ensures Encode(three + rest) == Text(Split(three[0], three[1], three[2])) + Encode(rest)
  {
    assert (three + rest)[3..] == rest;
  }

  method EncodeBytes(data: seq<Byte>) returns (ret: string)
    ensures ret == Encode(data)
  {
    ret := "";
    var three: seq<Byte> := [];
    var in_ := 0;
    assert three + data[in_..] == data;
    while in_ < |data|
      invariant 0 <= in_ <= |data| && |three| < 3
      invariant Encode(data) == ret + Encode(three + data[in_..])
    {
      Taken(three, data, in_);
      three := three + [data[in_]];
      in_ := in_ + 1;
      if |three| == 3 {
        FullGroup(three, data[in_..]);
        ret := ret + Text(Split(three[0], three[1], three[2]));
        three := [];
        assert three + data[in_..] == data[in_..];
      }
    }
    assert three + data[in_..] == three;
    if |three| > 0 {
      var rest := EncodeRest(three);
      ret := ret + rest;
    }
  }

  /** The unfinished group, filled up with zero bytes and padded. */
  method EncodeRest(data: seq<Byte>) returns (ret: string)
    requires 0 < |data| < 3
    ensures ret == Encode(data)
  {
    var three := data;
    while |three| < 3
      invariant |data| <= |three| <= 3
      invariant forall j :: 0 <= j < |three| ==> three[j] == if j < |data| then data[j] else 0
    {
      three := three + [0];
    }
    ret := Text(Split(three[0], three[1], three[2])[..|data| + 1]);
    ret := ret + if |data| == 1 then "==" else "=";
  }

  lemma FullDigits(four: seq<Byte>, rest: seq<Byte>)
    requires |four| == 4
    ensures DecodeDigits(four + rest) == Joined(four[0], four[1], four[2], four[3]) + DecodeDigits(rest)
  {
    assert (four + rest)[4..] == rest;
  }

  lemma NextDigit(four: seq<Byte>, text: string, i: nat)
    requires i < |text| && text[i] != '=' && IsBase64(text[i])
    ensures four + Digits(text[i..]) == (four + [Find(text[i])]) + Digits(text[i + 1..])
  {
    assert text[i..][1..] == text[i + 1..];
  }

  method DecodeText(text: string) returns (ret: seq<Byte>)
    ensures ret == Decode(text)
  {
    ret := [];
    var four: seq<Byte> := [];
    var in_ := 0;
    assert text[in_..] == text && four + Digits(text) == Digits(text);
    while in_ < |text| && text[in_] != '=' && IsBase64(text[in_])
      invariant 0 <= in_ <= |text| && |four| < 4
      invariant Decode(text) == ret + DecodeDigits(four + Digits(text[in_..]))
    {
      NextDigit(four, text, in_);
      four := four + [Find(text[in_])];
      in_ := in_ + 1;
      if |four| == 4 {
        FullDigits(four, Digits(text[in_..]));
        ret := ret + Joined(four[0], four[1], four[2], four[3]);
        four := [];
        assert four + Digits(text[in_..]) == Digits(text[in_..]);
      }
    }
    assert Digits(text[in_..]) == [] && four + [] == four;
    if |four| > 0 {
      var rest := DecodeRest(four);
      ret := ret + rest;
    }
  }

  /** The unfinished group: missing digits become the junk that looking up a zero byte gives. */
  method DecodeRest(d: seq<Byte>) returns (ret: seq<Byte>)
    requires 0 < |d| < 4
    ensures ret == Rest(d)
  {
    var four := d;
    while |four| < 4
      invariant |d| <= |four| <= 4
      invariant forall j :: 0 <= j < |four| ==> four[j] == if j < |d| then d[j] else Find('\0')
    {
      four := four + [Find('\0')];
    }
    ret := Joined(four[0], four[1], four[2], four[3])[..|d| - 1];
  }
}
