/**
 * The firmware's debug console (uart_debug.c): strings, decimal and
 * hexadecimal numbers written one character at a time to the AXI UART
 * Lite transmit FIFO. The UART is modelled by the text it has sent so far;
 * uart_putc appends one character to it.
 */
module UartDebug {
  import opened Platform
  import opened IntSqrt

  /** The transmit side of the UART: everything written to TX_FIFO, in order. */
  class Uart {
    var sent: seq<char>

    constructor ()
      ensures sent == []
    {
      sent := [];
    }

    /** uart_putc: the character goes out after everything sent before it. */
    method Putc(c: char)
      modifies this
      ensures sent == old(sent) + [c]
    {
      sent := sent + [c];
    }

    /** uart_print: the characters of str up to, not including, the first NUL. */
    method Print(str: seq<char>)
      modifies this
      ensures sent == old(sent) + UpToNul(str)
    {
      var i := 0;
      while i < |str| && str[i] != '\0'
        invariant 0 <= i <= |str|
        invariant '\0' !in str[..i]
        invariant sent == old(sent) + str[..i]
      {
        assert str[..i + 1] == str[..i] + [str[i]];
        Putc(str[i]);
        i := i + 1;
      }
      UpToNulAt(str, i);
    }

    /**
     * uart_print_uint: the label, the decimal digits of val most significant
     * first (one '0' for zero), then CR LF. The digits are first collected
     * least significant first in an 11-character buffer and then sent
     * from the back.
     */
    method PrintUint(lbl: seq<char>, val: U32)
      modifies this
      ensures sent == old(sent) + UpToNul(lbl) + DecimalText(val) + "\r\n"
    {
      Print(lbl);
      ghost var start := sent;
      if val == 0 {
        Putc('0');
      } else {
        PutDigits(val);
      }
      assert sent == start + DecimalText(val);
      ghost var number := sent;
      NoNul("\r\n");
      Print("\r\n");
      assert sent == number + "\r\n";
    }

    /**
     * Lines 64-75 of uart_print_uint: the digits of a non-zero val, sent
     * from the back of the buffer they were collected in.
     */
    method PutDigits(val: U32)
      requires val > 0
      modifies this
      ensures sent == old(sent) + Digits(val)
    {
      var buf, pos := CollectDigits(val);
      assert buf[0..pos] == buf[..pos];
      var i := pos - 1;
      while i >= 0
        invariant -1 <= i < pos
        invariant sent == old(sent) + Reverse(buf[i + 1..pos])
        invariant Reverse(buf[0..pos]) == Digits(val)
      {
        assert buf[i..pos][1..] == buf[i + 1..pos];
        assert Reverse(buf[i..pos]) == Reverse(buf[i + 1..pos]) + [buf[i]];
        Putc(buf[i]);
        i := i - 1;
      }
    }

    /**
     * uart_print_hex: the label, "0x", the eight nibbles of val from the
     * high one down as upper-case hex digits, then CR LF. The nibble at
     * bit i is (val >> i) & 0xF, that is Shift(val, i) % 16.
     */
    method PrintHex(lbl: seq<char>, val: U32)
      modifies this
      ensures sent == old(sent) + UpToNul(lbl) + "0x" + HexText(val) + "\r\n"
    {
      Print(lbl);
      NoNul("0x");
      Print("0x");
      ghost var start := sent;
      var i := 28;
      ghost var n := 0;
      while i >= 0
        invariant 0 <= n <= 8 && i == 28 - 4 * n
        invariant sent == start + HexDigits(Shift(val, i + 4), n)
      {
        HexStep(val, i, n);
        Putc(HexChars[Shift(val, i) % 16]);
        i, n := i - 4, n + 1;
      }
      NoNul("\r\n");
      Print("\r\n");
    }

    /** uart_print_separator: a rule of forty '-' characters, then CR LF. */
    method PrintSeparator()
      modifies this
      ensures sent == old(sent) + seq(40, _ => '-') + "\r\n"
    {
      Print(SeparatorLine);
      SeparatorSent();
    }
  }

  /**
   * The conversion loop of uart_print_uint: buf[0..pos) holds the digits
   * of val least significant first, and there are at most ten of them, so
   * the 11-character buffer is never overrun.
   */
  method CollectDigits(val: U32) returns (buf: array<char>, pos: nat)
    requires val > 0
    ensures fresh(buf) && buf.Length == 11 && pos <= 10
    ensures Reverse(buf[..pos]) == Digits(val)
  {
    buf := new char[11];
    pos := 0;
    var v: nat := val;
    DigitsLength(val, 10);
    while v > 0
      invariant pos <= 10 && pos + |Digits(v)| == |Digits(val)| <= 10
      invariant Digits(val) == Digits(v) + Reverse(buf[..pos])
    {
      assert Digits(v) == Digits(v / 10) + [DigitChar(v % 10)];
      buf[pos] := DigitChar(v % 10);
      ReverseSnoc(buf[..pos], buf[pos]);
      assert buf[..pos + 1] == buf[..pos] + [buf[pos]];
      pos := pos + 1;
      v := v / 10;
    }
  }

  /** The string uart_print_separator sends. */
  const SeparatorLine: seq<char> := "----------------------------------------\r\n"

  /** Everything in the separator string goes out: forty dashes and CR LF. */
  lemma SeparatorSent()
    ensures UpToNul(SeparatorLine) == seq(40, _ => '-') + "\r\n"
  {
    NoNul(SeparatorLine);
    SeparatorShape();
  }

  lemma SeparatorShape()
    ensures SeparatorLine == seq(40, _ => '-') + "\r\n"
  {
    var t := seq(40, _ => '-') + "\r\n";
    forall k | 0 <= k < 42
      ensures SeparatorLine[k] == t[k]
    {
      if k < 40 {
        assert t[k] == '-';
      }
    }
  }

  // ------------------------------------------------------------ C strings

  /** The C string held in s: everything before the first NUL, or all of s. */
  function UpToNul(s: seq<char>): (r: seq<char>)
    ensures |r| <= |s| && r == s[..|r|]
    ensures '\0' !in r
    ensures |r| == |s| || s[|r|] == '\0'
  {
    if s == [] || s[0] == '\0' then [] else [s[0]] + UpToNul(s[1..])
  }

  /** The characters before a NUL at position i (or the end) are the C string. */
  lemma {:induction false} UpToNulAt(s: seq<char>, i: nat)
    requires i <= |s| && '\0' !in s[..i] && (i == |s| || s[i] == '\0')
    ensures UpToNul(s) == s[..i]
  {
    if i > 0 {
      assert s[..i][0] == s[0];
      assert s[1..][..i - 1] == s[..i][1..];
      UpToNulAt(s[1..], i - 1);
      assert s[..i] == [s[0]] + s[1..][..i - 1];
    }
  }

  /** A string with no NUL in it is sent whole. */
  lemma NoNul(s: seq<char>)
    requires '\0' !in s
    ensures UpToNul(s) == s
  {
    assert s[..|s|] == s;
    UpToNulAt(s, |s|);
  }

  function Reverse(s: seq<char>): seq<char> {
    if s == [] then [] else Reverse(s[1..]) + [s[0]]
  }

  lemma {:induction false} ReverseSnoc(s: seq<char>, c: char)
    ensures Reverse(s + [c]) == [c] + Reverse(s)
  {
    if s != [] {
      assert (s + [c])[1..] == s[1..] + [c];
      ReverseSnoc(s[1..], c);
    }
  }

  // ------------------------------------------------------------- decimal

  function DigitChar(d: int): char
    requires 0 <= d < 10
  {
    ('0' as int + d) as char
  }

  predicate IsDigit(c: char) { '0' <= c <= '9' }

  function DigitVal(c: char): int
    requires IsDigit(c)
  {
    c as int - '0' as int
  }

  /** The decimal digits of v, most significant first, without leading zeros (none for 0). */
  function Digits(v: nat): seq<char> {
    if v == 0 then [] else Digits(v / 10) + [DigitChar(v % 10)]
  }

  /** What uart_print_uint sends for val: its digits, or a single '0' for zero. */
  function DecimalText(v: nat): (r: seq<char>)
    ensures 1 <= |r|
  {
    if v == 0 then "0" else Digits(v)
  }

  /** The value of a string of decimal digits, read most significant first. */
  function ParseDecimal(s: seq<char>): nat
    requires forall k :: 0 <= k < |s| ==> IsDigit(s[k])
  {
    if s == [] then 0 else ParseDecimal(s[..|s| - 1]) * 10 + DigitVal(s[|s| - 1])
  }

  /** A canonical decimal numeral: digits only, and no leading zero unless it is "0". */
  predicate IsCanonicalDecimal(s: seq<char>) {
    && s != []
    && (forall k :: 0 <= k < |s| ==> IsDigit(s[k]))
    && (s[0] == '0' ==> |s| == 1)
  }

  function Pow10(n: nat): nat {
    if n == 0 then 1 else 10 * Pow10(n - 1)
  }

  /** A value below 10^k has at most k digits. */
  lemma {:induction false} DigitsLength(v: nat, k: nat)
    requires v < Pow10(k)
    ensures |Digits(v)| <= k
  {
    if v > 0 {
      DivBounds(v, 10);
      LessFromProducts(v / 10, Pow10(k - 1), 10);
      DigitsLength(v / 10, k - 1);
    }
  }

  /** Any uint32_t has at most ten digits, so buf[11] never overflows. */
  lemma DecimalFitsBuffer(v: U32)
    ensures |DecimalText(v)| <= 10
  {
    DigitsLength(v, 10);
  }

  /** Digits(v) is a string of digits that starts with a non-zero one. */
  lemma {:induction false} DigitsShape(v: nat)
    ensures forall k :: 0 <= k < |Digits(v)| ==> IsDigit(Digits(v)[k])
    ensures v > 0 ==> Digits(v) != [] && Digits(v)[0] != '0'
  {
    if v > 0 {
      DigitsShape(v / 10);
      if v / 10 == 0 {
        assert Digits(v) == [DigitChar(v % 10)];
      }
    }
  }

  /** The decimal text reads back as the value. */
  lemma {:induction false} DigitsRoundTrip(v: nat)
    ensures forall k :: 0 <= k < |Digits(v)| ==> IsDigit(Digits(v)[k])
    ensures ParseDecimal(Digits(v)) == v
  {
    DigitsShape(v);
    if v > 0 {
      DigitsRoundTrip(v / 10);
      var s := Digits(v);
      assert s[..|s| - 1] == Digits(v / 10);
    }
  }

  /** uart_print_uint's number is canonical and reads back as val. */
  lemma DecimalRoundTrip(v: nat)
    ensures IsCanonicalDecimal(DecimalText(v))
    ensures ParseDecimal(DecimalText(v)) == v
  {
    DigitsRoundTrip(v);
    DigitsShape(v);
  }

  /** A numeral whose first digit is not '0' has a value of at least 1. */
  lemma {:induction false} ParsePositive(s: seq<char>)
    requires s != [] && (forall k :: 0 <= k < |s| ==> IsDigit(s[k])) && s[0] != '0'
    ensures ParseDecimal(s) >= 1
  {
    if |s| > 1 {
      ParsePositive(s[..|s| - 1]);
    }
  }

  /** Every canonical numeral is the text of its own value: decimal text is a bijection. */
  lemma {:induction false} DecimalFromText(s: seq<char>)
    requires IsCanonicalDecimal(s)
    ensures DecimalText(ParseDecimal(s)) == s
  {
    if s[0] != '0' {
      DigitsFromText(s);
      ParsePositive(s);
    }
  }

  lemma {:induction false} DigitsFromText(s: seq<char>)
    requires (forall k :: 0 <= k < |s| ==> IsDigit(s[k])) && (s != [] ==> s[0] != '0')
    ensures Digits(ParseDecimal(s)) == s
  {
    if s != [] {
      var p := s[..|s| - 1];
      var c := s[|s| - 1];
      var v := ParseDecimal(s);
      DigitsFromText(p);
      DivModUnique(v, 10, ParseDecimal(p), DigitVal(c));
      if p == [] {
        assert c != '0';
      } else {
        ParsePositive(p);
      }
      assert DigitChar(DigitVal(c)) == c;
    }
  }

  /** The example from uart_debug.h: uart_print_uint("Count: ", 42) sends "Count: 42\r\n". */
  lemma PrintUintExample()
    ensures "Count: " + DecimalText(42) + "\r\n" == "Count: 42\r\n"
  {
    assert Digits(4) == Digits(0) + [DigitChar(4)];
    assert DecimalText(42) == Digits(4) + [DigitChar(2)] == "42";
  }

  // --------------------------------------------------------- hexadecimal

  /** hex_chars[] in uart_print_hex. */
  const HexChars: seq<char> := "0123456789ABCDEF"

  /** The upper-case hex digit of value n. */
  function HexChar(n: int): char
    requires 0 <= n < 16
  {
    if n < 10 then ('0' as int + n) as char else ('A' as int + n - 10) as char
  }

  /** hex_chars[n] is the digit of value n. */
  lemma HexTable(n: int)
    requires 0 <= n < 16
    ensures HexChars[n] == HexChar(n)
  {
  }

  predicate IsHexDigit(c: char) { '0' <= c <= '9' || 'A' <= c <= 'F' }

  function HexVal(c: char): int
    requires IsHexDigit(c)
  {
    if c <= '9' then c as int - '0' as int else c as int - 'A' as int + 10
  }

  /** The table lists the upper-case hex digits in order of value. */
  lemma HexCharVal(n: int)
    requires 0 <= n < 16
    ensures IsHexDigit(HexChar(n)) && HexVal(HexChar(n)) == n
  {
  }

  lemma HexValChar(c: char)
    requires IsHexDigit(c)
    ensures HexChar(HexVal(c)) == c
  {
  }

  function Pow16(n: nat): nat {
    if n == 0 then 1 else 16 * Pow16(n - 1)
  }

  /** val >> i for an unsigned val: i halvings, each dropping the low bit. */
  function Shift(v: nat, i: nat): nat {
    if i == 0 then v else Shift(v, i - 1) / 2
  }

  /** Shifting four bits further drops one more hex digit. */
  lemma ShiftNibble(v: nat, i: nat)
    ensures Shift(v, i + 4) == Shift(v, i) / 16
  {
    assert Shift(v, i + 4) == Shift(v, i + 3) / 2;
    assert Shift(v, i + 3) == Shift(v, i + 2) / 2;
    assert Shift(v, i + 2) == Shift(v, i + 1) / 2;
    assert Shift(v, i + 1) == Shift(v, i) / 2;
  }

  /** Sending the nibble at bit i puts one more digit after those of the higher nibbles. */
  lemma HexStep(v: nat, i: nat, n: nat)
    ensures HexDigits(Shift(v, i), n + 1) ==
            HexDigits(Shift(v, i + 4), n) + [HexChars[Shift(v, i) % 16]]
  {
    HexTable(Shift(v, i) % 16);
    ShiftNibble(v, i);
  }

  /** The low n nibbles of v as hex digits, the highest first. */
  function HexDigits(v: nat, n: nat): seq<char> {
    if n == 0 then [] else HexDigits(v / 16, n - 1) + [HexChar(v % 16)]
  }

  /** What uart_print_hex sends for val after "0x": always eight digits. */
  function HexText(v: nat): (r: seq<char>)
    ensures |r| == 8
  {
    HexDigitsLength(v, 8);
    HexDigits(v, 8)
  }

  lemma {:induction false} HexDigitsLength(v: nat, n: nat)
    ensures |HexDigits(v, n)| == n
  {
    if n > 0 {
      HexDigitsLength(v / 16, n - 1);
    }
  }

  /** The value of a string of hex digits, read most significant first. */
  function ParseHex(s: seq<char>): nat
    requires forall k :: 0 <= k < |s| ==> IsHexDigit(s[k])
  {
    if s == [] then 0 else ParseHex(s[..|s| - 1]) * 16 + HexVal(s[|s| - 1])
  }

  /** n hex digits of a value below 16^n are upper-case and read back as the value. */
  lemma {:induction false} HexDigitsRoundTrip(v: nat, n: nat)
    requires v < Pow16(n)
    ensures forall k :: 0 <= k < |HexDigits(v, n)| ==> IsHexDigit(HexDigits(v, n)[k])
    ensures ParseHex(HexDigits(v, n)) == v
  {
    if n > 0 {
      DivBounds(v, 16);
      LessFromProducts(v / 16, Pow16(n - 1), 16);
      HexDigitsRoundTrip(v / 16, n - 1);
      HexCharVal(v % 16);
      var s := HexDigits(v, n);
      assert s[..|s| - 1] == HexDigits(v / 16, n - 1);
    }
  }

  /** uart_print_hex's eight digits read back as val. */
  lemma HexRoundTrip(v: U32)
    ensures forall k :: 0 <= k < 8 ==> IsHexDigit(HexText(v)[k])
    ensures ParseHex(HexText(v)) == v
  {
    assert Pow16(8) == 0x1_0000_0000;
    HexDigitsRoundTrip(v, 8);
  }

  /** Any n upper-case hex digits are the n-digit text of their value. */
  lemma {:induction false} HexDigitsFromText(s: seq<char>)
    requires forall k :: 0 <= k < |s| ==> IsHexDigit(s[k])
    ensures ParseHex(s) < Pow16(|s|)
    ensures HexDigits(ParseHex(s), |s|) == s
  {
    if s != [] {
      var p := s[..|s| - 1];
      var c := s[|s| - 1];
      HexDigitsFromText(p);
      DivModUnique(ParseHex(s), 16, ParseHex(p), HexVal(c));
      HexValChar(c);
      MulLe(ParseHex(p) + 1, Pow16(|p|), 16);
    }
  }

  /** Every eight-digit upper-case hex string is uart_print_hex's text for exactly one uint32_t. */
  lemma HexFromText(s: seq<char>)
    requires |s| == 8 && forall k :: 0 <= k < 8 ==> IsHexDigit(s[k])
    ensures ParseHex(s) <= U32Max
    ensures HexText(ParseHex(s)) == s
  {
    assert Pow16(8) == 0x1_0000_0000;
    HexDigitsFromText(s);
  }

  /** The example from uart_debug.h: 0xDEAD is sent as 0x0000DEAD. */
  lemma PrintHexExample()
    ensures "0x" + HexText(0xDEAD) == "0x0000DEAD"
  {
    assert HexDigits(0, 4) == "0000";
    assert HexDigits(0xD, 5) == HexDigits(0, 4) + [HexChar(0xD)];
    assert HexDigits(0xDE, 6) == HexDigits(0xD, 5) + [HexChar(0xE)];
    assert HexDigits(0xDEA, 7) == HexDigits(0xDE, 6) + [HexChar(0xA)];
    assert HexDigits(0xDEAD, 8) == HexDigits(0xDEA, 7) + [HexChar(0xD)];
  }

  // ----------------------------------------------------------- arithmetic

  /** Euclidean division is determined by quotient and remainder. */
  lemma DivModUnique(a: nat, d: nat, x: nat, y: nat)
    requires d >= 1 && a == x * d + y && y < d
    ensures a / d == x && a % d == y
  {
    DivBounds(a, d);
    LessFromProducts(a / d, x + 1, d);
    LessFromProducts(x, a / d + 1, d);
  }
}
