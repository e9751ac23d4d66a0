/** `Stirlitz::toHex` and `Stirlitz::fromHex`: bytes to lowercase hexadecimal and back. */
module Hex {
  import opened Bytes
  import opened Errors

  const LowerDigits: string := "0123456789abcdef"

  const FromHexSizeError: string := "Stirlitz::fromHex: incompatible size of hex value"

  predicate IsLowerHexDigit(c: char) { '0' <= c <= '9' || 'a' <= c <= 'f' }

  predicate IsHexDigit(c: char) { '0' <= c <= '9' || 'a' <= c <= 'f' || 'A' <= c <= 'F' }

  predicate AllHexDigits(s: string) { forall i :: 0 <= i < |s| ==> IsHexDigit(s[i]) }

  predicate AllLowerHexDigits(s: string) { forall i :: 0 <= i < |s| ==> IsLowerHexDigit(s[i]) }

  /** The lowercase digit for a value below 16, the d-th character of `LowerDigits`. */
  function LowerHexDigit(d: nat): (c: char)
    requires d < 16
    ensures c == LowerDigits[d] && IsLowerHexDigit(c)
  {
    if d < 10 then ('0' as int + d) as char else ('a' as int + d - 10) as char
  }

  /** The digit of a nibble. */
  function Digit(n: Byte): char
    requires n < 16
  {
    LowerHexDigit(n as int)
  }

  /** What `std::hex` extraction makes of one digit, upper or lower case. */
  function HexDigitValue(c: char): (v: Byte)
    requires IsHexDigit(c)
    ensures v < 16
  {
    match c
    case '0' => 0 case '1' => 1 case '2' => 2 case '3' => 3 case '4' => 4
    case '5' => 5 case '6' => 6 case '7' => 7 case '8' => 8 case '9' => 9
    case 'a' => 10 case 'b' => 11 case 'c' => 12 case 'd' => 13 case 'e' => 14 case 'f' => 15
    case 'A' => 10 case 'B' => 11 case 'C' => 12 case 'D' => 13 case 'E' => 14 case 'F' => 15
  }

  lemma DigitValue(n: Byte)
    requires n < 16
    ensures HexDigitValue(Digit(n)) == n
  {
  }

  lemma ValueDigit(c: char)
    requires IsLowerHexDigit(c)
    ensures Digit(HexDigitValue(c)) == c
  {
  }

  /** What `strm << std::hex << n` writes in the "C" locale: lowercase digits,
    * most significant first, without leading zeros. */
  function StreamHex(n: nat): (s: string)
    ensures 1 <= |s|
    ensures n >= 16 ==> 2 <= |s|
    decreases n
  {
    if n < 16 then [LowerHexDigit(n)] else StreamHex(n / 16) + [LowerHexDigit(n % 16)]
  }

  /** The two characters `toHex` writes for one byte: its high and its low nibble. */
  function ByteHex(b: Byte): (s: string)
    ensures |s| == 2 && IsLowerHexDigit(s[0]) && IsLowerHexDigit(s[1])
  {
    [Digit(b / 16), Digit(b % 16)]
  }

  /** A value below 256 is printed with one digit below 16 and two from 16 on;
    * writing a '0' in front of a single digit gives the two nibble digits. */
  lemma StreamHexBelow256(v: nat)
    requires v < 256
    ensures var t := StreamHex(v);
            (if v <= 15 then ['0', t[0]] else [t[0], t[1]]) == [LowerHexDigit(v / 16), LowerHexDigit(v % 16)]
  {
    if v >= 16 {
      assert StreamHex(v) == [LowerHexDigit(v / 16), LowerHexDigit(v % 16)];
    }
  }

  /** The padded stream output of `toHex` is the byte's two nibble digits. */
  lemma StreamHexPadded(b: Byte)
    ensures var t := StreamHex(b as int);
            (if b as int <= 15 then ['0', t[0]] else [t[0], t[1]]) == ByteHex(b)
  {
    var v := b as int;
    StreamHexBelow256(v);
    NibbleValues(b);
  }

  lemma NibbleValues(b: Byte)
    ensures (b / 16) as int == b as int / 16 && (b % 16) as int == b as int % 16
  {
  }

  /** What `strm >> std::hex >> val` reads from a two-digit token, narrowed to
    * `uint8_t`. */
  function PairValue(hi: char, lo: char): Byte
    requires IsHexDigit(hi) && IsHexDigit(lo)
  {
    HexDigitValue(hi) * 16 + HexDigitValue(lo)
  }

  /** Reading the two characters of a byte back gives the byte. */
  lemma ByteHexDecodes(b: Byte)
    ensures IsHexDigit(ByteHex(b)[0]) && IsHexDigit(ByteHex(b)[1])
    ensures PairValue(ByteHex(b)[0], ByteHex(b)[1]) == b
  {
    assert (b / 16) * 16 + b % 16 == b && b / 16 < 16;
    DigitValue(b / 16);
    DigitValue(b % 16);
  }

  /** Writing the byte two lowercase digits denote gives those digits back. */
  lemma PairValueEncodes(h: char, l: char)
    requires IsLowerHexDigit(h) && IsLowerHexDigit(l)
    ensures IsHexDigit(h) && IsHexDigit(l)
    ensures ByteHex(PairValue(h, l)) == [h, l]
  {
    var x, y := HexDigitValue(h), HexDigitValue(l);
    var b := x * 16 + y;
    assert b / 16 == x && b % 16 == y;
    ValueDigit(h);
    ValueDigit(l);
  }

  /** The hexadecimal text `toHex` produces for a string of bytes. */
  function HexOf(bs: seq<Byte>): (s: string)
    ensures |s| == 2 * |bs|
  {
    if bs == [] then [] else ByteHex(bs[0]) + HexOf(bs[1..])
  }

  lemma {:induction false} HexOfAppend(a: seq<Byte>, b: seq<Byte>)
    ensures HexOf(a + b) == HexOf(a) + HexOf(b)
  {
    if a == [] {
      assert a + b == b;
    } else {
      assert (a + b)[1..] == a[1..] + b;
      HexOfAppend(a[1..], b);
    }
  }

  /** Characters 2i and 2i+1 of the text encode byte i. */
  lemma {:induction false} HexOfAt(bs: seq<Byte>, i: nat)
    requires i < |bs|
    ensures HexOf(bs)[2 * i..2 * i + 2] == ByteHex(bs[i])
  {
    if i > 0 {
      HexOfAt(bs[1..], i - 1);
      assert HexOf(bs)[2..] == HexOf(bs[1..]);
    }
  }

  lemma {:induction false} HexOfIsLowerHex(bs: seq<Byte>)
    ensures AllLowerHexDigits(HexOf(bs))
  {
    if bs != [] {
      HexOfIsLowerHex(bs[1..]);
      var pair, rest := ByteHex(bs[0]), HexOf(bs[1..]);
      assert HexOf(bs) == pair + rest;
      assert AllLowerHexDigits(pair);
    }
  }

  /** The output of `toHex` has two characters per byte, uses only the
    * characters 0-9 and a-f, and writes a byte up to 15 as '0' and one digit. */
  lemma HexOfShape(bs: seq<Byte>)
    ensures |HexOf(bs)| == 2 * |bs|
    ensures AllLowerHexDigits(HexOf(bs))
    ensures forall i :: 0 <= i < |bs| && bs[i] <= 15 ==>
              HexOf(bs)[2 * i] == '0' && HexOf(bs)[2 * i + 1] == Digit(bs[i])
  {
    HexOfIsLowerHex(bs);
    var s := HexOf(bs);
    forall i | 0 <= i < |bs| && bs[i] <= 15
      ensures s[2 * i] == '0' && s[2 * i + 1] == Digit(bs[i])
    {
      HexOfAt(bs, i);
      var pair := s[2 * i..2 * i + 2];
      assert s[2 * i] == pair[0] && s[2 * i + 1] == pair[1];
    }
  }

  /** The bytes `fromHex` produces from an even-length hexadecimal text. */
  function HexDecode(h: string): (bs: seq<Byte>)
    requires |h| % 2 == 0 && AllHexDigits(h)
    ensures |bs| == |h| / 2
  {
    if h == [] then [] else [PairValue(h[0], h[1])] + HexDecode(h[2..])
  }

  /** Every slice of hexadecimal text is hexadecimal text. */
  lemma HexDigitsSlice(h: string, i: nat, j: nat)
    requires AllHexDigits(h) && i <= j <= |h|
    ensures AllHexDigits(h[i..j])
  {
    var t := h[i..j];
    forall k | 0 <= k < |t| ensures IsHexDigit(t[k]) {
      assert t[k] == h[i + k];
    }
  }

  lemma HexDigitsAppend(a: string, b: string)
    requires AllHexDigits(a) && AllHexDigits(b)
    ensures AllHexDigits(a + b)
  {
    var ab := a + b;
    forall k | 0 <= k < |ab| ensures IsHexDigit(ab[k]) {
      if k < |a| {
        assert ab[k] == a[k];
      } else {
        assert ab[k] == b[k - |a|];
      }
    }
  }

  lemma {:induction false} HexDecodeAppend(a: string, b: string)
    requires |a| % 2 == 0 && AllHexDigits(a)
    requires |b| % 2 == 0 && AllHexDigits(b)
    ensures AllHexDigits(a + b)
    ensures HexDecode(a + b) == HexDecode(a) + HexDecode(b)
  {
    HexDigitsAppend(a, b);
    var ab := a + b;
    if a == [] {
      assert ab == b;
    } else {
      var rest := a[2..];
      HexDigitsSlice(a, 2, |a|);
      assert ab[2..] == rest + b;
      assert ab[0] == a[0] && ab[1] == a[1];
      HexDecodeAppend(rest, b);
      assert HexDecode(a) == [PairValue(a[0], a[1])] + HexDecode(rest);
      assert HexDecode(ab) == [PairValue(a[0], a[1])] + HexDecode(rest + b);
    }
  }

  /** `fromHex(toHex(b)) == b`. */
  lemma {:induction false} HexRoundTrip(bs: seq<Byte>)
    ensures AllHexDigits(HexOf(bs))
    ensures HexDecode(HexOf(bs)) == bs
  {
    if bs != [] {
      HexRoundTrip(bs[1..]);
      var pair, rest := ByteHex(bs[0]), HexOf(bs[1..]);
      ByteHexDecodes(bs[0]);
      assert AllHexDigits(pair);
      HexDecodeAppend(pair, rest);
      assert HexDecode(pair) == [bs[0]];
      assert HexOf(bs) == pair + rest;
    }
  }

  /** `toHex(fromHex(h)) == h` for lowercase hexadecimal text of even length. */
  lemma {:induction false} HexDecodeThenEncode(h: string)
    requires |h| % 2 == 0 && AllLowerHexDigits(h)
    ensures AllHexDigits(h)
    ensures HexOf(HexDecode(h)) == h
  {
    if h != [] {
      var rest := h[2..];
      assert AllLowerHexDigits(rest);
      HexDecodeThenEncode(rest);
      PairValueEncodes(h[0], h[1]);
      assert HexDecode(h) == [PairValue(h[0], h[1])] + HexDecode(rest);
      assert h == [h[0], h[1]] + rest;
    }
  }

  /** One pass of the `toHex` loop extends the text by the byte's two characters. */
  lemma ToHexStep(data: seq<Byte>, i: nat, before: string, after: string)
    requires i < |data| && before == HexOf(data[..i])
    requires |after| == |before| + 2 && after[..|before|] == before
    requires after[|before|..] == ByteHex(data[i])
    ensures after == HexOf(data[..i + 1])
  {
    HexOfAppend(data[..i], [data[i]]);
    assert data[..i + 1] == data[..i] + [data[i]];
    assert after == after[..|before|] + after[|before|..];
  }

  /** The body of the `toHex` loop: print the byte with `std::hex` and write
    * its two characters at `count`, a '0' first when only one was printed. */
  method PutByteHex(result: array<char>, count: nat, val8: Byte)
    requires count + 2 <= result.Length
    modifies result
    ensures result[..count] == old(result[..count])
    ensures result[count..count + 2] == ByteHex(val8)
    ensures result[count + 2..] == old(result[count + 2..])
  {
    var v := val8 as int;
    var t := StreamHex(v);
    StreamHexPadded(val8);
    var hi, lo := if v <= 15 then '0' else t[0], if v <= 15 then t[0] else t[1];
    assert [hi, lo] == ByteHex(val8);
    result[count] := hi;
    result[count + 1] := lo;
    assert result[count..count + 2] == [hi, lo];
  }

  /** `toHex`: the result is presized to two characters per byte and written
    * through a running `count` index. */
  method ToHex(data: seq<Byte>) returns (r: string)
    ensures r == HexOf(data)
  {
    var result := new char[2 * |data|];
    var count := 0;
    var i := 0;
    while i < |data|
      invariant 0 <= i <= |data| && count == 2 * i
      invariant result[..count] == HexOf(data[..i])
    {
      PutByteHex(result, count, data[i]);
      ToHexStep(data, i, result[..count], result[..count + 2]);
      count := count + 2;
      i := i + 1;
    }
    assert data[..i] == data;
    r := result[..];
  }

  /** One pass of the `fromHex` loop extends the bytes by the value of the next
    * digit pair. */
  lemma FromHexStep(hex: string, i: nat, before: seq<Byte>, after: seq<Byte>)
    requires AllHexDigits(hex) && i % 2 == 0 && i + 2 <= |hex|
    requires AllHexDigits(hex[..i]) && before == HexDecode(hex[..i])
    requires after == before + [PairValue(hex[i], hex[i + 1])]
    ensures AllHexDigits(hex[..i + 2]) && after == HexDecode(hex[..i + 2])
  {
    var pair := hex[i..i + 2];
    HexDigitsSlice(hex, i, i + 2);
    assert hex[..i + 2] == hex[..i] + pair;
    HexDecodeAppend(hex[..i], pair);
    assert HexDecode(pair) == [PairValue(hex[i], hex[i + 1])];
  }

  /** `fromHex`: an odd length throws; otherwise each digit pair becomes one
    * byte, written through a running `count` index. */
  method FromHex(hex: string) returns (r: Result<seq<Byte>, string>)
    requires AllHexDigits(hex)
    ensures |hex| % 2 != 0 ==> r == Err(FromHexSizeError)
    ensures |hex| % 2 == 0 ==> r == Ok(HexDecode(hex))
  {
    if |hex| % 2 != 0 {
      return Err(FromHexSizeError);
    }
    var result := new Byte[|hex| / 2];
    var count := 0;
    var i := 0;
    HexDigitsSlice(hex, 0, 0);
    while i < |hex|
      invariant 0 <= i <= |hex| && i % 2 == 0 && i == 2 * count
      invariant AllHexDigits(hex[..i])
      invariant result[..count] == HexDecode(hex[..i])
    {
      ghost var before := result[..count];
      result[count] := PairValue(hex[i], hex[i + 1]);
      assert result[..count + 1] == before + [result[count]];
      FromHexStep(hex, i, before, result[..count + 1]);
      count := count + 1;
      i := i + 2;
    }
    assert hex[..i] == hex;
    assert result[..] == result[..count];
    return Ok(result[..]);
  }
}
