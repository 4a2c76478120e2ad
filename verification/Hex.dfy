/** Byte strings in hexadecimal, as keys for unique ids. */
module Hex {
  import opened Bytes
  import opened Bits

  function Digit(n: int): char
    requires 0 <= n < 16
  {
    if n < 10 then '0' + n as char else 'A' + (n - 10) as char
  }

  predicate IsDigit(c: char) {
    '0' <= c <= '9' || 'A' <= c <= 'F'
  }

  /** The value of a digit in either case; other characters, which are signed, give what the arithmetic gives. */
  function X2b(c: char): Byte {
    if '0' <= c <= '9' then (c - '0') as int
    else if c >= 'a' && c as int < 128 then (c as int - 'a' as int + 10) % 256
    else (c as int - 'A' as int + 10) % 256
  }

  /** `hi << 4 | lo` in an `unsigned char`: only the upper half of `lo` meets bits of `hi`. */
  function Combined(hi: Byte, lo: Byte): Byte {
    OrNibbles(hi % 16, lo / 16);
    Or(hi % 16, lo / 16) * 16 + lo % 16
  }

  lemma OrNibbles(a: nat, b: nat)
    requires a < 16 && b < 16
    ensures Or(a, b) < 16
  {
    assert Power(1) == 2 && Power(2) == 4 && Power(3) == 8 && Power(4) == 16;
    Narrow(a, b, 4);
  }

  const HIGH: Byte -> char := (b: Byte) => Digit(b / 16)
  const LOW: Byte -> char := (b: Byte) => Digit(b % 16)
  const PAIR: (char, char) -> Byte := (x: char, y: char) => Combined(X2b(x), X2b(y))

  function Bin2Hex(data: seq<Byte>): string {
    Spread(HIGH, LOW, data)
  }

  /** Nothing, for an odd number of digits. */
  function Hex2Bin(text: string): seq<Byte> {
    if |text| % 2 != 0 then [] else Gathered(PAIR, text)
  }

  // ---------- two characters for a byte, whichever they are ----------

  function Spread(high: Byte -> char, low: Byte -> char, data: seq<Byte>): (text: string)
    ensures |text| == 2 * |data|
  {
    if data == [] then ""
    else Spread(high, low, data[..|data| - 1]) + [high(data[|data| - 1]), low(data[|data| - 1])]
  }

  function Gathered(pair: (char, char) -> Byte, text: string): seq<Byte>
    requires |text| % 2 == 0
  {
    if text == "" then [] else Gathered(pair, text[..|text| - 2]) + [pair(text[|text| - 2], text[|text| - 1])]
  }

  lemma GatheredMore(pair: (char, char) -> Byte, text: string, x: char, y: char)
    requires |text| % 2 == 0
    ensures Gathered(pair, text + [x, y]) == Gathered(pair, text) + [pair(x, y)]
  {
    assert (text + [x, y])[..|text|] == text;
  }

  lemma SpreadMore(high: Byte -> char, low: Byte -> char, data: seq<Byte>, b: Byte)
    ensures Spread(high, low, data + [b]) == Spread(high, low, data) + [high(b), low(b)]
  {
    assert (data + [b])[..|data|] == data;
  }

  /** A byte comes back from its two characters. */
  ghost predicate Recovers(pair: (char, char) -> Byte, high: Byte -> char, low: Byte -> char) {
    forall b :: pair(high(b), low(b)) == b
  }

  /** Two digits come back from their byte. */
  ghost predicate Restores(pair: (char, char) -> Byte, high: Byte -> char, low: Byte -> char) {
    forall x, y :: IsDigit(x) && IsDigit(y) ==> high(pair(x, y)) == x && low(pair(x, y)) == y
  }

  lemma {:induction false} GatheredSpread(
    pair: (char, char) -> Byte, high: Byte -> char, low: Byte -> char, data: seq<Byte>)
    requires Recovers(pair, high, low)
    ensures Gathered(pair, Spread(high, low, data)) == data
  {
    if data != [] {
      var front, b := data[..|data| - 1], data[|data| - 1];
      GatheredSpread(pair, high, low, front);
      GatheredMore(pair, Spread(high, low, front), high(b), low(b));
      assert data == front + [b];
    }
  }

  lemma {:induction false} SpreadGathered(
    pair: (char, char) -> Byte, high: Byte -> char, low: Byte -> char, text: string)
    requires Restores(pair, high, low)
    requires |text| % 2 == 0 && forall i :: 0 <= i < |text| ==> IsDigit(text[i])
    ensures Spread(high, low, Gathered(pair, text)) == text
    decreases |text|
  {
    if text != "" {
      var front, x, y := text[..|text| - 2], text[|text| - 2], text[|text| - 1];
      SpreadGathered(pair, high, low, front);
      SpreadMore(high, low, Gathered(pair, front), pair(x, y));
      assert text == front + [x, y];
    }
  }

  lemma {:induction false} SpreadDigits(high: Byte -> char, low: Byte -> char, data: seq<Byte>)
    requires forall b :: IsDigit(high(b)) && IsDigit(low(b))
    ensures forall i :: 0 <= i < 2 * |data| ==> IsDigit(Spread(high, low, data)[i])
  {
    if data != [] {
      SpreadDigits(high, low, data[..|data| - 1]);
    }
  }

  // ---------- hexadecimal digits ----------

  lemma CombinedDigits(hi: Byte, lo: Byte)
    requires hi < 16 && lo < 16
    ensures Combined(hi, lo) == hi * 16 + lo
  {
    assert hi % 16 == hi && lo / 16 == 0 && lo % 16 == lo;
    OrZero(hi);
  }

  /** The value of a digit, in either case. */
  lemma HexValue(n: int)
    requires 0 <= n < 16
    ensures X2b("0123456789ABCDEF"[n]) == n && X2b("0123456789abcdef"[n]) == n
  {
  }

  lemma DigitValue(n: int)
    requires 0 <= n < 16
    ensures X2b(Digit(n)) == n && IsDigit(Digit(n))
  {
  }

  lemma ValueDigit(c: char)
    requires IsDigit(c)
    ensures X2b(c) < 16 && Digit(X2b(c)) == c
  {
  }

  lemma PairOfByte(b: Byte)
    ensures PAIR(HIGH(b), LOW(b)) == b && IsDigit(HIGH(b)) && IsDigit(LOW(b))
  {
    DigitValue(b / 16);
    DigitValue(b % 16);
    CombinedDigits(b / 16, b % 16);
  }

  lemma ByteOfPair(x: char, y: char)
    requires IsDigit(x) && IsDigit(y)
    ensures HIGH(PAIR(x, y)) == x && LOW(PAIR(x, y)) == y
  {
    ValueDigit(x);
    ValueDigit(y);
    CombinedDigits(X2b(x), X2b(y));
    Halves(X2b(x), X2b(y));
  }

  lemma Halves(hi: int, lo: int)
    requires 0 <= hi < 16 && 0 <= lo < 16
    ensures (hi * 16 + lo) / 16 == hi && (hi * 16 + lo) % 16 == lo
  {
  }

  lemma HexRecovers()
    ensures Recovers(PAIR, HIGH, LOW)
  {
    forall b ensures PAIR(HIGH(b), LOW(b)) == b { PairOfByte(b); }
  }

  lemma HexRestores()
    ensures Restores(PAIR, HIGH, LOW)
  {
    forall x, y | IsDigit(x) && IsDigit(y) ensures HIGH(PAIR(x, y)) == x && LOW(PAIR(x, y)) == y { ByteOfPair(x, y); }
  }

  lemma HexDigits(data: seq<Byte>)
    ensures forall i :: 0 <= i < |Bin2Hex(data)| ==> IsDigit(Bin2Hex(data)[i])
  {
    forall b ensures IsDigit(HIGH(b)) && IsDigit(LOW(b)) { PairOfByte(b); }
    SpreadDigits(HIGH, LOW, data);
  }

  /** Two digits for every byte, the upper half first. */
  lemma {:induction false} HexAt(data: seq<Byte>, i: nat)
    requires i < |data|
    ensures |Bin2Hex(data)| == 2 * |data|
    ensures Bin2Hex(data)[2 * i] == "0123456789ABCDEF"[data[i] / 16]
    ensures Bin2Hex(data)[2 * i + 1] == "0123456789ABCDEF"[data[i] % 16]
  {
    var front := data[..|data| - 1];
    if i < |front| {
      HexAt(front, i);
      assert Bin2Hex(data)[2 * i] == Bin2Hex(front)[2 * i] && Bin2Hex(data)[2 * i + 1] == Bin2Hex(front)[2 * i + 1];
    }
  }

  /** Every byte string comes back from its digits. */
  lemma RoundTrip(data: seq<Byte>)
    ensures Hex2Bin(Bin2Hex(data)) == data
  {
    HexRecovers();
    GatheredSpread(PAIR, HIGH, LOW, data);
  }

  lemma {:induction false} GatheredAt(pair: (char, char) -> Byte, text: string, i: nat)
    requires |text| % 2 == 0 && 2 * i < |text|
    ensures |Gathered(pair, text)| == |text| / 2 && Gathered(pair, text)[i] == pair(text[2 * i], text[2 * i + 1])
    decreases |text|
  {
    var front := text[..|text| - 2];
    if 2 * i < |front| {
      GatheredAt(pair, front, i);
    } else if front != "" {
      GatheredAt(pair, front, 0);
    }
  }

  /** A byte for every two digits, the first one for its upper half. */
  lemma BytesAt(text: string, i: nat)
    requires |text| % 2 == 0 && 2 * i < |text| && X2b(text[2 * i]) < 16 && X2b(text[2 * i + 1]) < 16
    ensures |Hex2Bin(text)| == |text| / 2
    ensures Hex2Bin(text)[i] == 16 * X2b(text[2 * i]) + X2b(text[2 * i + 1])
  {
    GatheredAt(PAIR, text, i);
    CombinedDigits(X2b(text[2 * i]), X2b(text[2 * i + 1]));
  }

  /** An odd number of digits gives nothing. */
  lemma OddNothing(text: string)
    requires |text| % 2 == 1
    ensures Hex2Bin(text) == []
  {
  }

  /** Different ids have different keys. */
  lemma Injective(a: seq<Byte>, b: seq<Byte>)
    ensures Bin2Hex(a) == Bin2Hex(b) ==> a == b
  {
    RoundTrip(a);
    RoundTrip(b);
  }

  /** A text comes back from its bytes just when it is an even number of upper case digits. */
  lemma TextRoundTrip(text: string)
    ensures Bin2Hex(Hex2Bin(text)) == text <==> |text| % 2 == 0 && forall i :: 0 <= i < |text| ==> IsDigit(text[i])
  {
    HexDigits(Hex2Bin(text));
    if |text| % 2 == 0 && forall i :: 0 <= i < |text| ==> IsDigit(text[i]) {
      HexRestores();
      SpreadGathered(PAIR, HIGH, LOW, text);
    }
  }

  /** A text that does not come back: lower case digits are read as well. */
  lemma LowerCaseLost()
    ensures Hex2Bin("ab") == [0xAB] && Bin2Hex([0xAB]) == "AB"
  {
    CombinedDigits(10, 11);
    assert X2b('a') == 10 && X2b('b') == 11;
    assert Gathered(PAIR, "") == [] && "ab"[..0] == "";
    assert [0xAB][..0] == [] && Spread(HIGH, LOW, []) == "";
    assert 0xAB / 16 == 10 && 0xAB % 16 == 11;
  }

  // ---------- the loops ----------

  method ToHex(data: seq<Byte>) returns (buffer: string)
    ensures buffer == Bin2Hex(data)
  {
    buffer := "";
    for i := 0 to |data|
      invariant buffer == Spread(HIGH, LOW, data[..i])
    {
      SpreadMore(HIGH, LOW, data[..i], data[i]);
      assert data[..i + 1] == data[..i] + [data[i]];
      buffer := buffer + [HIGH(data[i])];
      buffer := buffer + [LOW(data[i])];
    }
    assert data[..|data|] == data;
  }

  /** The bytes of the first `n` pairs of digits. */
  function FirstPairs(text: string, n: nat): seq<Byte>
    requires 2 * n <= |text|
  {
    Gathered(PAIR, text[..2 * n])
  }

  method FromHex(text: string) returns (buffer: seq<Byte>)
    ensures buffer == Hex2Bin(text)
  {
    buffer := [];
    if |text| % 2 != 0 {
      return;
    }
    var i := 0;
    ghost var n, half := 0, |text| / 2;
    assert FirstPairs(text, half) == Hex2Bin(text) by { assert text[..2 * half] == text; }
    while i < |text|
      invariant i == 2 * n && 0 <= n <= half && |text| == 2 * half && buffer == FirstPairs(text, n)
      decreases half - n
    {
      NextPair(text, n);
      buffer := buffer + [PAIR(text[i], text[i + 1])];
      i := i + 2;
      n := n + 1;
    }
  }

  lemma NextPair(text: string, n: nat)
    requires 2 * n + 2 <= |text|
    ensures FirstPairs(text, n + 1) == FirstPairs(text, n) + [PAIR(text[2 * n], text[2 * n + 1])]
  {
    GatheredMore(PAIR, text[..2 * n], text[2 * n], text[2 * n + 1]);
    assert text[..2 * (n + 1)] == text[..2 * n] + [text[2 * n], text[2 * n + 1]];
  }
}
