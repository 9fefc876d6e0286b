/** Formatted output: one pass over the format that sends characters to a sink, and the
    sink that keeps what fits in a buffer. */
module Printf {
  import opened Bytes
  import opened Kernel
  import opened Numbers

  /** An argument as the format reads it: a word, or a string that may be null (its
      characters before the NUL). */
  datatype Arg = Word(v: u32) | Text(s: Option<string>)

  /** Does conversion `c` read an argument, and is `args` ready for it? */
  predicate Reads(c: char) { c == 'd' || c == 'x' || c == 'c' || c == 's' }

  predicate Ready(c: char, args: seq<Arg>) {
    Reads(c) ==> args != [] && (c == 's' <==> args[0].Text?)
  }

  /** What the conversion `%c` sends. */
  function Converted(c: char, args: seq<Arg>): string
    requires Ready(c, args)
  {
    match c
    case '%' => "%"
    case 'd' => Printed(args[0].v, 10)
    case 'x' => Printed(args[0].v, 16)
    case 'c' => [(args[0].v % 0x100) as char]
    case 's' => if args[0].s == None then "(null)" else args[0].s.value
    case _ => ['%', c]
  }

  /** The arguments the caller passed suit the format, as C demands. */
  predicate Suits(fmt: string, args: seq<Arg>) {
    if fmt == "" then true
    else if fmt[0] != '%' then Suits(fmt[1..], args)
    else if |fmt| == 1 then true
    else Ready(fmt[1], args) && Suits(fmt[2..], if Reads(fmt[1]) then args[1..] else args)
  }

  /** All the text a format stands for, however long. */
  function Formatted(fmt: string, args: seq<Arg>): string
    requires Suits(fmt, args)
  {
    if fmt == "" then ""
    else if fmt[0] != '%' then [fmt[0]] + Formatted(fmt[1..], args)
    else if |fmt| == 1 then "%"
    else Converted(fmt[1], args) + Formatted(fmt[2..], if Reads(fmt[1]) then args[1..] else args)
  }

  /** One turn of the loop, at place `i` of the format. */
  lemma FormatTurn(fmt: string, i: nat, args: seq<Arg>)
    requires i < |fmt| && Suits(fmt[i..], args)
    ensures fmt[i] != '%' ==> Suits(fmt[i + 1..], args) && Formatted(fmt[i..], args) == [fmt[i]] + Formatted(fmt[i + 1..], args)
    ensures fmt[i] == '%' && i + 1 == |fmt| ==> Formatted(fmt[i..], args) == "%"
    ensures fmt[i] == '%' && i + 1 < |fmt| ==>
      var rest := if Reads(fmt[i + 1]) && args != [] then args[1..] else args;
      && Ready(fmt[i + 1], args) && Suits(fmt[i + 2..], rest)
      && Formatted(fmt[i..], args) == Converted(fmt[i + 1], args) + Formatted(fmt[i + 2..], rest)
  {
    assert fmt[i..][1..] == fmt[i + 1..];
    if i + 1 < |fmt| {
      assert fmt[i..][2..] == fmt[i + 2..];
    }
  }

  lemma FormatEnd(fmt: string, args: seq<Arg>)
    ensures fmt[0..] == fmt && Suits(fmt[|fmt|..], args) && Formatted(fmt[|fmt|..], args) == ""
  {
  }

  // ---- what the text is --------------------------------------------------------------

  /** A lone conversion. */
  lemma OneConversion(c: char, args: seq<Arg>)
    requires Ready(c, args)
    ensures Suits(['%', c], args) && Formatted(['%', c], args) == Converted(c, args)
  {
    var f := ['%', c];
    assert f[2..] == "" && f != "" && f[0] == '%' && |f| == 2;
    assert Suits("", args) && Formatted("", args) == "";
    assert Converted(c, args) + "" == Converted(c, args);
  }

  /** %d is the decimal of the word taken as signed. */
  lemma FormatDec(v: u32)
    ensures Suits("%d", [Word(v)])
    ensures var s := Formatted("%d", [Word(v)]);
      && s != "" && AllDigits(if s[0] == '-' then s[1..] else s, 10)
      && SignedValue(s) == AsInt32(v)
      && (s[0] == '-' <==> AsInt32(v) < 0) && (|s| > 1 ==> (if s[0] == '-' then s[1..] else s)[..1] != "0")
  {
    hide Suits, Formatted, Printed, SignedValue, AllDigits;
    assert "%d" == ['%', 'd'];
    OneConversion('d', [Word(v)]);
    PrintedIsSigned(v);
  }

  /** %x is its hexadecimal, without prefix, sign or capitals. */
  lemma FormatHex(v: u32)
    ensures Suits("%x", [Word(v)])
    ensures var s := Formatted("%x", [Word(v)]);
      && IsHex(s) && HexBody(s) == s && 0 < |s| <= 8 && AllDigits(s, 16) && Value(s, 16) == v
      && forall k :: 0 <= k < |s| ==> '0' <= s[k] <= '9' || 'a' <= s[k] <= 'f'
  {
    hide Suits, Formatted, Printed, Value, AllDigits;
    assert "%x" == ['%', 'x'];
    OneConversion('x', [Word(v)]);
    HexRoundTrip(v);
    PrintedHexIsPlain(v);
  }

  /** %c is the low byte, %s the string or its stand-in, %% and a lone % are a %, and what
      is unknown is printed as it stands. */
  lemma FormatOthers(v: u32, s: Option<string>, c: char)
    ensures Suits("%c", [Word(v)]) && Formatted("%c", [Word(v)]) == [(v % 256) as char]
    ensures Suits("%s", [Text(s)]) && Formatted("%s", [Text(s)]) == (match s case None => "(null)" case Some(t) => t)
    ensures Suits("%%", []) && Formatted("%%", []) == "%"
    ensures Suits("%", []) && Formatted("%", []) == "%"
    ensures c != 'd' && c != 'x' && c != 'c' && c != 's' && c != '%' ==>
      Suits(['%', c], []) && Formatted(['%', c], []) == ['%', c]
  {
    hide Suits, Formatted;
    OneConversion('c', [Word(v)]);
    OneConversion('s', [Text(s)]);
    OneConversion('%', []);
    LonePercent();
    assert "%c" == ['%', 'c'] && "%s" == ['%', 's'] && "%%" == ['%', '%'];
    if c != 'd' && c != 'x' && c != 'c' && c != 's' && c != '%' {
      OneConversion(c, []);
    }
  }

  lemma LonePercent()
    ensures Suits("%", []) && Formatted("%", []) == "%"
  {
  }

  /** The format does not end inside a conversion. */
  predicate Whole(fmt: string) {
    if fmt == "" then true
    else if fmt[0] != '%' then Whole(fmt[1..])
    else |fmt| > 1 && Whole(fmt[2..])
  }

  /** How many arguments the format reads. */
  function Uses(fmt: string): nat {
    if fmt == "" then 0
    else if fmt[0] != '%' then Uses(fmt[1..])
    else if |fmt| == 1 then 0
    else (if Reads(fmt[1]) then 1 else 0) + Uses(fmt[2..])
  }

  /** Text without a % is sent as it is. */
  lemma {:induction false} FormatPlain(fmt: string, args: seq<Arg>)
    requires '%' !in fmt
    ensures Whole(fmt) && Uses(fmt) == 0 && Suits(fmt, args) && Formatted(fmt, args) == fmt
  {
    if fmt != "" {
      FormatPlain(fmt[1..], args);
      assert fmt == [fmt[0]] + fmt[1..];
    }
  }

  lemma ReadyJoin(c: char, xs: seq<Arg>, ys: seq<Arg>)
    requires Ready(c, xs)
    ensures Ready(c, xs + ys) && Converted(c, xs + ys) == Converted(c, xs)
    ensures Reads(c) ==> (xs + ys)[1..] == xs[1..] + ys
  {
  }

  /** Formats joined are their texts joined, each with its own arguments. */
  lemma {:induction false} FormatJoin(a: string, b: string, xs: seq<Arg>, ys: seq<Arg>)
    requires Whole(a) && Suits(a, xs) && |xs| == Uses(a) && Suits(b, ys)
    ensures Suits(a + b, xs + ys) && Formatted(a + b, xs + ys) == Formatted(a, xs) + Formatted(b, ys)
    decreases |a|
  {
    hide Converted, Ready, Reads;
    if a == "" {
      assert a + b == b && xs + ys == ys;
    } else if a[0] != '%' {
      assert (a + b)[1..] == a[1..] + b;
      FormatJoin(a[1..], b, xs, ys);
    } else {
      assert (a + b)[2..] == a[2..] + b && (a + b)[1] == a[1];
      ReadyJoin(a[1], xs, ys);
      FormatJoin(a[2..], b, if Reads(a[1]) then xs[1..] else xs, ys);
    }
  }

  /** One conversion. */
  method Convert(c: char, args: seq<Arg>) returns (out: string)
    requires Ready(c, args)
    ensures out == Converted(c, args)
  {
    match c {
      case '%' => out := "%";
      case 'd' => out := PutUint(args[0].v, 10);
      case 'x' => out := PutUint(args[0].v, 16);
      case 'c' => out := [(args[0].v % 0x100) as char];
      case 's' => out := if args[0].s == None then "(null)" else args[0].s.value;
      case _ => out := ['%', c];
    }
  }

  /** How much of `n` characters a buffer of `size` keeps: one place is for the NUL. */
  function Kept(n: nat, size: u32): nat {
    if size == 0 then 0 else Min(n, size - 1)
  }

  /** The sink of vsnprintf. */
  class Sink {
    const buf: array<char>
    const size: u32
    var p: nat
    var left: u32
    var n: u32

    /** All that was sent, and the buffer before. */
    ghost var sent: string
    ghost const was: string

    ghost predicate Valid()
      reads this, buf
    {
      && buf.Length == |was| && size <= buf.Length
      && n == |sent| % 0x1_0000_0000
      && p == Kept(|sent|, size) && left == size - p
      && buf[..p] == sent[..p] && buf[p..] == was[p..]
    }

    constructor (buf: array<char>, size: u32)
      requires size <= buf.Length
      ensures Valid() && this.buf == buf && this.size == size && sent == "" && was == buf[..]
    {
      this.buf := buf;
      this.size := size;
      this.p := 0;
      this.left := size;
      this.n := 0;
      this.sent := "";
      this.was := buf[..];
    }

    /** sn_putc. */
    method Putc(c: char)
      requires Valid()
      modifies this`p, this`left, this`n, this`sent, buf
      ensures Valid() && sent == old(sent) + [c]
    {
      n := (n + 1) % 0x1_0000_0000;
      ghost var text := sent + [c];
      assert text[..p] == sent[..p];
      if left > 1 {
        buf[p] := c;
        assert buf[..p + 1] == text[..p + 1] && buf[p + 1..] == was[p + 1..];
        p := p + 1;
        left := left - 1;
      }
      sent := text;
    }

    method Puts(s: string)
      requires Valid()
      modifies this`p, this`left, this`n, this`sent, buf
      ensures Valid() && sent == old(sent) + s
    {
      for i := 0 to |s|
        invariant Valid() && sent == old(sent) + s[..i]
      {
        Putc(s[i]);
      }
    }

    /** kvprintf: what reaches the sink is the formatted text. */
    method Kvprintf(fmt: string, args: seq<Arg>)
      requires Valid() && Suits(fmt, args)
      modifies this`p, this`left, this`n, this`sent, buf
      ensures Valid() && sent == old(sent) + Formatted(fmt, args)
    {
      hide Formatted, Suits, Converted, Reads, Ready, Sink.Valid;
      FormatEnd(fmt, args);
      var i, rest := 0, args;
      while i < |fmt|
        invariant i <= |fmt| && Valid() && Suits(fmt[i..], rest)
        invariant sent + Formatted(fmt[i..], rest) == old(sent) + Formatted(fmt, args)
      {
        FormatTurn(fmt, i, rest);
        if fmt[i] == '%' {
          if i + 1 == |fmt| {
            Putc('%');
            FormatEnd(fmt, rest);
            i := i + 1;
          } else {
            var c := fmt[i + 1];
            var out := Convert(c, rest);
            Puts(out);
            rest := if Reads(c) && rest != [] then rest[1..] else rest;
            i := i + 2;
          }
        } else {
          Putc(fmt[i]);
          i := i + 1;
        }
      }
      FormatEnd(fmt, rest);
    }
  }

  /** vsnprintf: the buffer gets the beginning of the text and a NUL, nothing behind
      changes, and the answer is the length of the whole text. */
  method Vsnprintf(buf: array<char>, size: u32, fmt: string, args: seq<Arg>) returns (r: int)
    requires size <= buf.Length && Suits(fmt, args)
    modifies buf
    ensures r == AsInt32(|Formatted(fmt, args)| % 0x1_0000_0000)
    ensures var k := if |Formatted(fmt, args)| < size then |Formatted(fmt, args)| else Max(size - 1, 0);
      buf[..] == if size == 0 then old(buf[..]) else Formatted(fmt, args)[..k] + [NUL] + old(buf[k + 1..])
  {
    hide Formatted, Suits;
    var b := new Sink(buf, size);
    b.Kvprintf(fmt, args);
    ghost var text, k := Formatted(fmt, args), b.p;
    assert b.sent == text && k == Kept(|text|, size);
    assert buf[..k] == text[..k] && buf[k..] == old(buf[..])[k..];
    if size != 0 {
      buf[b.p] := NUL;
      assert buf[..] == buf[..k] + [NUL] + buf[k + 1..];
      assert buf[k + 1..] == old(buf[..])[k + 1..] == old(buf[k + 1..]);
    }
    return AsInt32(b.n);
  }

  /** A number in decimal, as the caller finds it in a buffer with room. */
  method Decimal(buf: array<char>, size: u32, v: u32) returns (r: int)
    requires 11 < size <= buf.Length
    modifies buf
    ensures 0 < r < size && buf[r] == NUL && AllDigits(if buf[0] == '-' then buf[1..r] else buf[..r], 10)
    ensures SignedValue(buf[..r]) == AsInt32(v)
  {
    hide Suits, Formatted, SignedValue, AllDigits;
    FormatDec(v);
    DecimalFits(v);
    r := Vsnprintf(buf, size, "%d", [Word(v)]);
    ghost var s := Formatted("%d", [Word(v)]);
    assert buf[..][..r] == s && buf[..r] == buf[..][..r];
    assert s[0] == '-' ==> s[1..] == buf[1..r];
    assert buf[..][r] == NUL;
  }

  /** And in hexadecimal. */
  method Hexadecimal(buf: array<char>, size: u32, v: u32) returns (r: int)
    requires 8 < size <= buf.Length
    modifies buf
    ensures 0 < r <= 8 && buf[r] == NUL && AllDigits(buf[..r], 16) && Value(buf[..r], 16) == v
  {
    hide Suits, Formatted, Value, AllDigits, IsHex, HexBody;
    FormatHex(v);
    r := Vsnprintf(buf, size, "%x", [Word(v)]);
    ghost var s := Formatted("%x", [Word(v)]);
    assert buf[..][..r] == s && buf[..r] == buf[..][..r];
    assert buf[..][r] == NUL;
  }

  lemma DecimalFits(v: u32)
    ensures Suits("%d", [Word(v)]) && |Formatted("%d", [Word(v)])| <= 11
  {
    hide Suits, Formatted, Digits;
    assert "%d" == ['%', 'd'];
    OneConversion('d', [Word(v)]);
    PrintedCases(v, 10);
    if v != 0 {
      DigitsFit(v, 10);
      if AsInt32(v) < 0 {
        DigitsFit(0x1_0000_0000 - v, 10);
      }
    }
  }
}
