/** Numbers as text: the printer that fills a digit buffer and turns it around, and
    the two parsers of the shell. */
module Numbers {
  import opened Bytes
  import opened Kernel

  // ---- what digits mean -----------------------------------------------------------

  /** The value of one character as a digit, up to base 16; -1 if it is none. */
  function DigitOf(c: char): (d: int)
    ensures -1 <= d < 16
  {
    if '0' <= c <= '9' then c as int - '0' as int
    else if 'a' <= c <= 'f' then c as int - 'a' as int + 10
    else if 'A' <= c <= 'F' then c as int - 'A' as int + 10
    else -1
  }

  /** The two bases in use. */
  type Base = b: int | b == 10 || b == 16 witness 10

  function Times(v: nat, base: Base): nat { if base == 10 then v * 10 else v * 16 }

  function Over(v: nat, base: Base): (q: nat)
    ensures v > 0 ==> q < v
  {
    if base == 10 then v / 10 else v / 16
  }

  function Rem(v: nat, base: Base): (r: nat)
    ensures r < base && v == Times(Over(v, base), base) + r
  {
    if base == 10 then v % 10 else v % 16
  }

  predicate AllDigits(s: string, base: Base) { forall k :: 0 <= k < |s| ==> 0 <= DigitOf(s[k]) < base }

  /** The number a string of digits stands for. */
  function Value(s: string, base: Base): nat
    requires AllDigits(s, base)
  {
    if s == "" then 0 else Times(Value(s[..|s| - 1], base), base) + DigitOf(s[|s| - 1])
  }

  /** The digit a printer writes. */
  function DigitChar(d: nat): (c: char)
    requires d < 16
    ensures DigitOf(c) == d && c != '-' && c != NUL
  {
    if d > 9 then (d - 10 + 'a' as int) as char else (d + '0' as int) as char
  }

  /** The digits of a number, most significant first; nothing for 0. */
  function Digits(v: nat, base: Base): (s: string)
  {
    if v == 0 then "" else Digits(Over(v, base), base) + [DigitChar(Rem(v, base))]
  }

  lemma {:induction false} DigitsValue(v: nat, base: Base)
    ensures AllDigits(Digits(v, base), base) && Value(Digits(v, base), base) == v
    ensures v > 0 ==> Digits(v, base) != "" && Digits(v, base)[0] != '0'
    decreases v
  {
    if v > 0 {
      DigitsValue(Over(v, base), base);
      var s := Digits(v, base);
      assert s[..|s| - 1] == Digits(Over(v, base), base);
      if Over(v, base) > 0 {
        assert s[0] == Digits(Over(v, base), base)[0];
      }
    }
  }

  function Power(base: Base, n: nat): nat
  {
    if n == 0 then 1 else Times(Power(base, n - 1), base)
  }

  lemma {:induction false} DigitsLength(v: nat, base: Base, n: nat)
    requires v < Power(base, n)
    ensures |Digits(v, base)| <= n
    decreases v
  {
    if v > 0 {
      DigitsLength(Over(v, base), base, n - 1);
    }
  }

  /** A longer string of digits never stands for less. */
  lemma {:induction false} ValueGrows(s: string, base: Base, n: nat)
    requires AllDigits(s, base) && n <= |s|
    ensures AllDigits(s[..n], base) && Value(s[..n], base) <= Value(s, base)
    decreases |s|
  {
    if n == |s| {
      assert s[..n] == s;
    } else {
      ValueGrows(s[..|s| - 1], base, n);
      assert s[..|s| - 1][..n] == s[..n];
    }
  }

  /** One more digit. */
  lemma ValueSnoc(s: string, base: Base, i: nat)
    requires i < |s| && AllDigits(s[..i], base)
    ensures AllDigits(s[..i + 1], base) <==> 0 <= DigitOf(s[i]) < base
    ensures AllDigits(s[..i + 1], base) ==> Value(s[..i + 1], base) == Times(Value(s[..i], base), base) + DigitOf(s[i])
  {
    assert s[..i + 1][..i] == s[..i];
  }

  lemma DigitsToTheEnd(s: string, base: Base, i: nat)
    requires i <= |s|
    ensures AllDigits(s, base) ==> AllDigits(s[..i], base)
    ensures s[..|s|] == s
  {
  }

  // ---- the printer -------------------------------------------------------------------

  /** What put_uint prints: in base 10 the value is taken as signed. */
  function Printed(v: u32, base: Base): string
  {
    if v == 0 then "0"
    else if AsInt32(v) < 0 && base == 10 then "-" + Digits(0x1_0000_0000 - v, base)
    else Digits(v, base)
  }

  function Reversed(s: string): (r: string)
    ensures |r| == |s| && forall k :: 0 <= k < |s| ==> r[k] == s[|s| - 1 - k]
  {
    seq(|s|, k requires 0 <= k < |s| => s[|s| - 1 - k])
  }

  method ReverseInPlace(str: array<char>, length: nat)
    requires length <= str.Length
    modifies str
    ensures str[..length] == Reversed(old(str[..length]))
    ensures forall k :: length <= k < str.Length ==> str[k] == old(str[k])
  {
    ghost var was := str[..];
    var start, end := 0, length - 1;
    while start < end
      invariant 0 <= start && end == length - 1 - start && start <= length
      invariant forall k :: 0 <= k < str.Length && (start <= k <= end || k >= length) ==> str[k] == was[k]
      invariant forall k :: 0 <= k < length && (k < start || k > end) ==> str[k] == was[length - 1 - k]
    {
      str[start], str[end] := str[end], str[start];
      start, end := start + 1, end - 1;
    }
  }

  lemma LastDigit(v: nat, base: Base)
    requires v > 0
    ensures var d := Digits(v, base);
      d != "" && d[|d| - 1] == DigitChar(Rem(v, base)) && d[..|d| - 1] == Digits(Over(v, base), base)
  {
  }

  lemma NoDigit(base: Base)
    ensures Digits(0, base) == ""
  {
  }

  /** The digit loop of put_uint: last digit first. */
  method FillDigits(str: array<char>, value: u32, base: Base) returns (i: nat)
    requires |Digits(value, base)| < str.Length
    modifies str
    ensures i == |Digits(value, base)| && str[..i] == Reversed(Digits(value, base)) 
  {
    hide Digits, Rem, Over, Times, DigitChar, DigitOf;
    ghost var all := Digits(value, base);
    var v: u32 := value;
    i := 0;
    while v != 0
      invariant 0 <= i <= |all| && Digits(v, base) == all[..|all| - i]
      invariant forall k :: 0 <= k < i ==> str[k] == all[|all| - 1 - k]
      invariant forall k :: i <= k < str.Length ==> str[k] == old(str[k])
    {
      LastDigit(v, base);
      str[i] := DigitChar(Rem(v, base));
      i := i + 1;
      v := Over(v, base);
    }
    NoDigit(base);
  }

  lemma ReversedBack(s: string)
    ensures Reversed(Reversed(s)) == s && Reversed(Reversed(s) + ['-']) == "-" + s
  {
  }

  /** The characters up to the NUL at `n`, sent one by one. */
  method Send(str: array<char>, ghost n: nat) returns (out: string)
    requires n < 32 <= str.Length && str[n] == NUL && forall k :: 0 <= k < n ==> str[k] != NUL
    ensures out == str[..n]
  {
    out := "";
    for i := 0 to 32
      invariant i <= n && out == str[..i]
    {
      if str[i] == NUL {
        break;
      }
      out := out + [str[i]];
    }
  }

  lemma {:induction false} DigitsAreNotNul(v: nat, base: Base)
    ensures forall k :: 0 <= k < |Digits(v, base)| ==> Digits(v, base)[k] != NUL
    decreases v
  {
    if v > 0 {
      DigitsAreNotNul(Over(v, base), base);
    }
  }

  /** The end of put_uint: sign, NUL, turn around, send. */
  method Finish(str: array<char>, n: nat, negative: bool, ghost digits: string) returns (out: string)
    requires n < 31 && str.Length == 34 && str[..n] == Reversed(digits)
    requires forall k :: 0 <= k < |digits| ==> digits[k] != NUL
    modifies str
    ensures out == (if negative then "-" else "") + digits
  {
    hide Reversed;
    ReversedBack(digits);
    var i := n;
    if negative {
      str[i] := '-';
      i := i + 1;
      assert str[..i] == Reversed(digits) + ['-'];
    }
    str[i] := NUL;
    ReverseInPlace(str, i);
    out := Send(str, i);
  }

  /** put_uint: the digits are produced from the last, the sign after them, and the
      buffer is turned around. */
  method PutUint(value: u32, base: Base) returns (out: string)
    ensures out == Printed(value, base)
  {
    hide Digits, Reversed, Power, Printed, AsInt32;
    PrintedCases(value, base);
    var str := new char[34](i => NUL);
    if value == 0 {
      return "0";
    }
    var negative := false;
    var v: u32 := value;
    if AsInt32(value) < 0 && base == 10 {
      negative := true;
      v := 0x1_0000_0000 - value;
    }
    DigitsFit(v, base);
    DigitsAreNotNul(v, base);
    var i := FillDigits(str, v, base);
    out := Finish(str, i, negative, Digits(v, base));
  }

  lemma PrintedCases(v: u32, base: Base)
    ensures Printed(v, base) ==
      if v == 0 then "0" else if AsInt32(v) < 0 && base == 10 then "-" + Digits(0x1_0000_0000 - v, base) else Digits(v, base)
    ensures AsInt32(v) < 0 ==> v > 0
  {
  }

  lemma DigitsFit(v: u32, base: Base)
    ensures |Digits(v, base)| <= base && (base == 16 ==> |Digits(v, base)| <= 8)
  {
    if base == 16 {
      assert Power(16, 8) == 0x1_0000_0000 by {
        assert Power(16, 4) == 0x1_0000;
        assert Power(16, 8) == 16 * (16 * (16 * (16 * Power(16, 4))));
      }
      DigitsLength(v, 16, 8);
    } else {
      assert Power(10, 10) == 10_000_000_000 by {
        assert Power(10, 5) == 100_000;
        assert Power(10, 10) == 10 * (10 * (10 * (10 * (10 * Power(10, 5)))));
      }
      DigitsLength(v, 10, 10);
    }
  }

  /** The integer a decimal number with an optional minus sign stands for. */
  function SignedValue(s: string): int
    requires s != "" && AllDigits(if s[0] == '-' then s[1..] else s, 10)
  {
    if s[0] == '-' then 0 - (Value(s[1..], 10) as int) else Value(s, 10) as int
  }

  /** `%d` is the signed decimal of every 32-bit integer, the minimum included. */
  lemma PrintedIsSigned(v: u32)
    ensures var s := Printed(v, 10);
      && s != "" && AllDigits(if s[0] == '-' then s[1..] else s, 10)
      && SignedValue(s) == AsInt32(v)
      && (s[0] == '-' <==> AsInt32(v) < 0) && ((if s[0] == '-' then s[1] else s[0]) == '0' ==> s == "0")
  {
    hide Value, Digits, Printed, SignedValue, DigitOf;
    PrintedCases(v, 10);
    if v == 0 {
      ZeroValue();
      PlainValue("0");
    } else if AsInt32(v) < 0 {
      DigitsValue(0x1_0000_0000 - v, 10);
      MinusValue(Digits(0x1_0000_0000 - v, 10));
    } else {
      DigitsValue(v, 10);
      PlainValue(Digits(v, 10));
    }
  }

  lemma ZeroValue()
    ensures AllDigits("0", 10) && Value("0", 10) == 0
  {
    assert Value("0", 10) == Value(""[..0], 10) * 10 + 0;
  }

  lemma PlainValue(s: string)
    requires s != "" && AllDigits(s, 10)
    ensures s[0] != '-' && SignedValue(s) == Value(s, 10)
  {
    assert DigitOf(s[0]) >= 0;
  }

  lemma MinusValue(s: string)
    requires AllDigits(s, 10)
    ensures ("-" + s)[1..] == s && SignedValue("-" + s) == 0 - (Value(s, 10) as int)
  {
    assert ("-" + s)[1..] == s;
  }

  // ---- the parsers -------------------------------------------------------------------

  /** A decimal the shell accepts: digits, at least one, at most 2^32 - 1. */
  predicate IsDec(s: string) { s != "" && AllDigits(s, 10) && Value(s, 10) < 0x1_0000_0000 }

  /** shell_parse_dec: it accepts exactly those, never wraps on the way, and writes its
      result only then. */
  method ParseDec(s: string, out0: u32) returns (ok: bool, out: u32)
    ensures ok <==> IsDec(s)
    ensures out == if ok then Value(s, 10) else out0
  {
    var val: u32 := 0;
    var i := 0;
    while i < |s|
      invariant 0 <= i <= |s| && AllDigits(s[..i], 10) && val == Value(s[..i], 10)
    {
      if s[i] < '0' || s[i] > '9' {
        return false, out0;
      }
      var d := s[i] as int - '0' as int;
      assert s[..i + 1][..i] == s[..i];
      if val > 429496729 || (val == 429496729 && d > 5) {
        if AllDigits(s, 10) {
          ValueGrows(s, 10, i + 1);
        }
        return false, out0;
      }
      val := val * 10 + d;
      i := i + 1;
    }
    assert s[..|s|] == s;
    if i == 0 {
      return false, out0;
    }
    return true, val;
  }

  /** The digits of a hexadecimal: an optional 0x or 0X is dropped. */
  function HexBody(s: string): string {
    if |s| >= 2 && s[0] == '0' && (s[1] == 'x' || s[1] == 'X') then s[2..] else s
  }

  predicate IsHex(s: string) { 0 < |HexBody(s)| <= 8 && AllDigits(HexBody(s), 16) }

  /** tolower, for ASCII. */
  function Lower(c: char): char {
    if 'A' <= c <= 'Z' then (c as int + 32) as char else c
  }

  /** strpos: where `c` first stands in `l`, or -1. */
  function Position(l: string, c: char): (r: int)
    ensures -1 <= r < |l|
  {
    if l == "" then -1
    else if l[0] == c then 0
    else if Position(l[1..], c) < 0 then -1
    else 1 + Position(l[1..], c)
  }

  const HEXA: string := "0123456789abcdef"

  lemma PositionIs(l: string, c: char, k: nat)
    requires k < |l| && l[k] == c && forall j :: 0 <= j < k ==> l[j] != c
    ensures Position(l, c) == k
  {
    if k > 0 {
      PositionIs(l[1..], c, k - 1);
    }
  }

  lemma PositionNone(l: string, c: char)
    requires c !in l
    ensures Position(l, c) == -1
  {
  }

  lemma HexDigit(c: char)
    ensures Position(HEXA, Lower(c)) == DigitOf(c)
  {
    var l := HEXA;
    assert forall k :: 0 <= k < 16 ==> l[k] == DigitChar(k);
    if DigitOf(c) >= 0 {
      assert Lower(c) == DigitChar(DigitOf(c));
      forall j | 0 <= j < DigitOf(c)
        ensures l[j] != Lower(c)
      {
        assert DigitOf(DigitChar(j)) == j;
      }
      PositionIs(l, Lower(c), DigitOf(c));
    } else {
      assert DigitOf(Lower(c)) == -1;
      forall k | 0 <= k < 16
        ensures l[k] != Lower(c)
      {
        assert DigitOf(DigitChar(k)) == k;
      }
      PositionNone(l, Lower(c));
    }
  }

  /** The loop of shell_parse_hex, behind the prefix; -1 where it returns 0. */
  method HexLoop(s: string) returns (r: int)
    ensures r == if 0 < |s| <= 8 && AllDigits(s, 16) then Value(s, 16) else -1
    ensures r < 0x1_0000_0000
  {
    hide Value, AllDigits, DigitOf, Position, Lower, Power;
    var val: u32 := 0;
    var digits := 0;
    NoDigits(s);
    while digits < |s|
      invariant 0 <= digits <= |s| && digits <= 8 && AllDigits(s[..digits], 16)
      invariant val == Value(s[..digits], 16) && val < Power(16, digits)
    {
      HexDigit(s[digits]);
      ValueSnoc(s, 16, digits);
      DigitsToTheEnd(s, 16, digits + 1);
      var pos := Position(HEXA, Lower(s[digits]));
      if pos < 0 {
        return -1;
      }
      if digits == 8 {
        return -1;
      }
      HexRoom(digits);
      val := val * 16 + pos;
      digits := digits + 1;
    }
    DigitsToTheEnd(s, 16, |s|);
    if digits == 0 {
      return -1;
    }
    return val;
  }

  lemma NoDigits(s: string)
    ensures AllDigits(s[..0], 16) && Value(s[..0], 16) == 0 && Power(16, 0) == 1
  {
  }

  /** shell_parse_hex. */
  method ParseHex(s0: string, out0: u32) returns (ok: bool, out: u32)
    ensures ok <==> IsHex(s0)
    ensures out == if ok then Value(HexBody(s0), 16) else out0
  {
    var s := s0;
    if |s| >= 2 && s[0] == '0' && (s[1] == 'x' || s[1] == 'X') {
      s := s[2..];
    }
    assert s == HexBody(s0);
    var val := HexLoop(s);
    if val == -1 {
      return false, out0;
    }
    return true, val;
  }

  /** With less than eight digits read there is room for one more in 32 bits. */
  lemma HexRoom(n: nat)
    requires n < 8
    ensures 16 * Power(16, n) == Power(16, n + 1) <= 0x1_0000_0000
    decreases 8 - n
  {
    assert Power(16, 4) == 0x1_0000;
    assert Power(16, 8) == 16 * (16 * (16 * (16 * Power(16, 4))));
    if n < 7 {
      HexRoom(n + 1);
    }
  }

  /** Reading back what was printed in base 16 gives every 32-bit value. */
  lemma HexRoundTrip(v: u32)
    ensures IsHex(Printed(v, 16)) && Value(HexBody(Printed(v, 16)), 16) == v
    ensures Printed(v, 16)[0] == '0' ==> Printed(v, 16) == "0"
  {
    var s := Printed(v, 16);
    if v == 0 {
      assert Value("0", 16) == Value(""[..0], 16) * 16 + 0;
    } else {
      DigitsValue(v, 16);
      DigitsFit(v, 16);
    }
  }

  /** Digit by digit: '0' to '9', 'a' to 'f' and 'A' to 'F', each place worth ten or
      sixteen of the next. */
  lemma ValueInPlainNumbers(s: string, c: char)
    ensures '0' <= c <= '9' ==> DigitOf(c) == c as int - 48
    ensures 'a' <= c <= 'f' ==> DigitOf(c) == c as int - 87
    ensures 'A' <= c <= 'F' ==> DigitOf(c) == c as int - 55
    ensures DigitOf(c) >= 0 ==> '0' <= c <= '9' || 'a' <= c <= 'f' || 'A' <= c <= 'F'
    ensures AllDigits("", 10) && Value("", 10) == 0 && AllDigits("", 16) && Value("", 16) == 0
    ensures AllDigits(s, 10) && 0 <= DigitOf(c) < 10 ==>
      AllDigits(s + [c], 10) && Value(s + [c], 10) == 10 * Value(s, 10) + DigitOf(c)
    ensures AllDigits(s, 16) && 0 <= DigitOf(c) < 16 ==>
      AllDigits(s + [c], 16) && Value(s + [c], 16) == 16 * Value(s, 16) + DigitOf(c)
  {
    assert (s + [c])[..|s|] == s;
  }

  /** What is printed has no capitals. */
  lemma {:induction false} DigitsArePlain(v: nat, base: Base)
    ensures forall k :: 0 <= k < |Digits(v, base)| ==> '0' <= Digits(v, base)[k] <= '9' || 'a' <= Digits(v, base)[k] <= 'f'
    decreases v
  {
    if v > 0 {
      DigitsArePlain(Over(v, base), base);
    }
  }

  lemma PrintedHexIsPlain(v: u32)
    ensures var s := Printed(v, 16);
      && AllDigits(s, 16) && HexBody(s) == s
      && forall k :: 0 <= k < |s| ==> '0' <= s[k] <= '9' || 'a' <= s[k] <= 'f'
  {
    DigitsArePlain(v, 16);
    DigitsValue(v, 16);
  }

  /** The prefix that is dropped before a hexadecimal. */
  lemma HexPrefix(s: string)
    ensures HexBody("0x" + s) == s && HexBody("0X" + s) == s
    ensures !("0x" <= s) && !("0X" <= s) ==> HexBody(s) == s
  {
    assert ("0x" + s)[2..] == s && ("0X" + s)[2..] == s;
    if |s| >= 2 && s[0] == '0' && (s[1] == 'x' || s[1] == 'X') {
      assert s[..2] == "0x" || s[..2] == "0X";
      assert "0x" <= s || "0X" <= s;
    }
  }

  /** And in base 10 exactly the values below 2^31: the others are printed with a sign. */
  lemma DecRoundTrip(v: u32)
    ensures IsDec(Printed(v, 10)) <==> v < 0x8000_0000
    ensures v < 0x8000_0000 ==> Value(Printed(v, 10), 10) == v
  {
    var s := Printed(v, 10);
    if v == 0 {
      assert Value("0", 10) == Value(""[..0], 10) * 10 + 0;
    } else if v < 0x8000_0000 {
      DigitsValue(v, 10);
    } else {
      assert s[0] == '-';
    }
  }
}
