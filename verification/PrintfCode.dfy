/** The code of `_vsnprintf` and its helpers, proved against `Printf.Text`. */
module PrintfCode {
  import opened Base
  import opened Printf

  /**
   The output buffer with its running index. `_out_buffer` drops what does not fit and a null buffer
   takes nothing, but the index always advances; `text` is everything that was put.
   */
  class Sink {
    const buffer: array?<char>
    const count: nat
    ghost const before: seq<char>
    var idx: nat
    ghost var text: string

    ghost predicate Valid()
      reads this, buffer
    {
      && idx == |text|
      && (buffer != null ==>
            && count <= buffer.Length == |before|
            && forall k :: 0 <= k < |before| ==> buffer[k] == if k < idx && k < count then text[k] else before[k])
    }

    constructor (buffer: array?<char>, count: nat)
      requires buffer != null ==> count <= buffer.Length
      ensures Valid() && text == "" && this.buffer == buffer && this.count == count
      ensures buffer != null ==> before == buffer[..]
    {
      this.buffer := buffer;
      this.count := count;
      before := if buffer == null then [] else buffer[..];
      idx := 0;
      text := "";
    }

    method Put(c: char)
      requires Valid()
      modifies this, buffer
      ensures Valid() && text == old(text) + [c]
    {
      if buffer != null && idx < count {
        buffer[idx] := c;
      }
      idx := idx + 1;
      text := text + [c];
    }

    /** The terminating NUL, in the last cell if the text was cut. */
    method Terminate()
      requires Valid()
      modifies buffer
      ensures buffer != null ==> buffer[..] == Printed(before, text, count)
    {
      if buffer != null && count > 0 {
        var at := if idx < count then idx else count - 1;
        buffer[at] := '\0';
      }
      if buffer != null { PrintedPointwise(before, text, count, buffer[..]); }
    }

    /** Put `c` while a counter runs from `from` up to `to`. */
    method Repeat(c: char, from: nat, to: nat)
      requires Valid()
      modifies this, buffer
      ensures Valid() && text == old(text) + Fill(c, to - from)
    {
      var i := from;
      while i < to
        invariant Valid() && text == old(text) + Fill(c, i - from)
        invariant from <= i && (i <= to || i == from)
      {
        Put(c);
        i := i + 1;
        assert Fill(c, i - from) == Fill(c, i - 1 - from) + [c];
      }
    }

    method PutReversed(buf: array<char>, n: nat)
      requires Valid() && n <= buf.Length && buf != buffer
      modifies this, buffer
      ensures Valid() && text == old(text) + Reverse(buf[..n])
    {
      ghost var s, front := buf[..n], text;
      var len := n;
      assert s[..n] == s;
      while len > 0
        invariant Valid() && 0 <= len <= n && buf[..n] == s
        invariant text + Reverse(s[..len]) == front + Reverse(s)
      {
        len := len - 1;
        ghost var t := text;
        ReverseStep(t, s, len);
        Put(buf[len]);
      }
    }

    /** `_out_rev` */
    method OutRev(buf: array<char>, n: nat, width: nat, f: Flags)
      requires Valid() && n <= buf.Length && buf != buffer
      modifies this, buffer
      ensures Valid() && text == old(text) + Field(buf[..n], width, f)
    {
      var start := idx;
      FieldParts(text, buf[..n], width, f);
      if Left !in f && Zero !in f {
        Repeat(' ', n, width);
        PutReversed(buf, n);
      } else {
        PutReversed(buf, n);
        if Left in f {
          Repeat(' ', idx - start, width);
        }
      }
    }

    /** Append '0' to `buf[..n]` up to `to` characters, as far as the buffer goes. */
    method ZeroPad(buf: array<char>, n: nat, to: nat) returns (len: nat)
      requires n <= buf.Length == NTOA_BUFFER
      modifies buf
      ensures len <= buf.Length && buf[..len] == ZeroExtend(old(buf[..n]), to)
    {
      ghost var s := buf[..n];
      len := n;
      while len < to && len < NTOA_BUFFER
        invariant n <= len <= buf.Length && (len <= to || len == n)
        invariant buf[..len] == s + Fill('0', len - n)
      {
        buf[len] := '0';
        len := len + 1;
        assert Fill('0', len - n) == Fill('0', len - 1 - n) + ['0'];
      }
    }

    /** The '#' block of `_ntoa_format`. */
    method HashBlock(buf: array<char>, n: nat, base: nat, prec: nat, width: nat, f: Flags) returns (len: nat)
      requires n <= buf.Length == NTOA_BUFFER
      modifies buf
      ensures len <= buf.Length && buf[..len] == HashMark(old(buf[..n]), base, prec, width, f)
    {
      len := n;
      if Hash in f {
        ghost var s := buf[..n];
        if Precision !in f && len > 0 && (len == prec || len == width) {
          len := len - 1;
          if len > 0 && base == 16 { len := len - 1; }
          assert buf[..len] == s[..len];
        }
        assert buf[..len] == HashTrim(s, base, prec, width, f);
        len := Prefix(buf, len, base, f);
      }
    }

    method Prefix(buf: array<char>, n: nat, base: nat, f: Flags) returns (len: nat)
      requires n <= buf.Length == NTOA_BUFFER
      modifies buf
      ensures len <= buf.Length && buf[..len] == HashPrefix(old(buf[..n]), base, f)
    {
      len := n;
      ghost var b := buf[..n];
      if base == 16 && Upper !in f && len < NTOA_BUFFER {
        buf[len] := 'x';
        len := len + 1;
        assert buf[..len] == b + ['x'];
      } else if base == 16 && Upper in f && len < NTOA_BUFFER {
        buf[len] := 'X';
        len := len + 1;
        assert buf[..len] == b + ['X'];
      } else if base == 2 && len < NTOA_BUFFER {
        buf[len] := 'b';
        len := len + 1;
        assert buf[..len] == b + ['b'];
      }
      ghost var c := buf[..len];
      if len < NTOA_BUFFER {
        buf[len] := '0';
        len := len + 1;
        assert buf[..len] == c + ['0'];
      }
    }

    method Sign(buf: array<char>, n: nat, negative: bool, f: Flags) returns (len: nat)
      requires n <= buf.Length == NTOA_BUFFER
      modifies buf
      ensures len <= buf.Length && buf[..len] == SignMark(old(buf[..n]), negative, f)
    {
      len := n;
      if len < NTOA_BUFFER {
        if negative {
          buf[len] := '-';
          len := len + 1;
        } else if Plus in f {
          buf[len] := '+';
          len := len + 1;
        } else if Space in f {
          buf[len] := ' ';
          len := len + 1;
        }
      }
    }

    /** `_ntoa_format` */
    method NtoaFormat(buf: array<char>, n: nat, negative: bool, base: nat, prec: nat, width0: nat, f: Flags)
      requires Valid() && n <= buf.Length == NTOA_BUFFER && buf != buffer
      modifies this, buffer, buf
      ensures Valid() && text == old(text) + FormatNumber(old(buf[..n]), negative, base, prec, width0, f)
    {
      var len, width := n, width0;
      if Left !in f {
        if width > 0 && Zero in f && (negative || Plus in f || Space in f) {
          width := width - 1;
        }
        len := ZeroPad(buf, len, prec);
        if Zero in f { len := ZeroPad(buf, len, width); }
      }
      len := HashBlock(buf, len, base, prec, width, f);
      len := Sign(buf, len, negative, f);
      OutRev(buf, len, width, f);
    }

    /** `_ntoa_long` */
    method NtoaLong(value0: word, negative: bool, base: nat, prec: nat, width: nat, flags: Flags)
      requires Valid() && 2 <= base <= 16
      modifies this, buffer
      ensures Valid() && text == old(text) + Number(value0, negative, base, prec, width, flags)
    {
      var buf := new char[NTOA_BUFFER];
      var f := if value0 == 0 then flags - {Hash} else flags;
      var len := 0;
      if Precision !in f || value0 != 0 {
        len := WriteDigits(buf, value0, base, Upper in f);
      }
      NtoaFormat(buf, len, negative, base, prec, width, f);
    }

    /** The integer case of the specifier switch. */
    method PutInteger(c: char, flags: Flags, width: nat, prec: nat, bits: word)
      requires Valid() && IsInteger(c)
      requires IsSigned(c) ==> SignedValue(bits, flags) != -0x8000_0000
      modifies this, buffer
      ensures Valid() && text == old(text) + IntegerText(c, flags, width, prec, bits)
    {
      var f, base := IntegerSetup(c, flags);
      if c == 'i' || c == 'd' {
        var value := SignedValue(bits, f);
        var magnitude := if value > 0 then value else 0 - value;
        SignedText(c, flags, width, prec, bits, f, base, value, magnitude);
        NtoaLong(magnitude, value < 0, base, prec, width, f);
      } else {
        var value := UnsignedValue(bits, f);
        UnsignedText(c, flags, width, prec, bits, f, base, value);
        NtoaLong(value, false, base, prec, width, f);
      }
    }

    method PutChar(c: char, f: Flags, width: nat)
      requires Valid()
      modifies this, buffer
      ensures Valid() && text == old(text) + Aligned([c], width, f)
    {
      if Left !in f { Repeat(' ', 1, width); }
      Put(c);
      if Left in f { Repeat(' ', 1, width); }
    }

    /** `_strnlen_s` and the cut at the precision. */
    method ShownLength(s: string, f: Flags, prec: nat) returns (l: nat)
      requires Precision !in f ==> prec == 0
      ensures l == Shown(s, f, prec) <= |s|
    {
      StrLenBound(s);
      l := StrNLen(s, if prec != 0 then Some(prec) else None);
      if Precision in f { l := if l < prec then l else prec; }
    }

    /** Padding and the copy loop of the 's' case. */
    method PutString(s: string, f: Flags, width: nat, prec: nat)
      requires Valid() && (Precision !in f ==> prec == 0)
      modifies this, buffer
      ensures Valid() && Shown(s, f, prec) <= |s| && text == old(text) + Aligned(s[..Shown(s, f, prec)], width, f)
    {
      var l := ShownLength(s, f, prec);
      ghost var t, shown, pad := text, s[..l], Fill(' ', width - l);
      if Left !in f { Repeat(' ', l, width); }
      CopyString(s, f, prec);
      if Left in f { Repeat(' ', l, width); }
      assert Aligned(shown, width, f) == if Left in f then shown + pad else pad + shown;
      Regroup(t, pad, shown);
      Regroup(t, shown, pad);
    }

    method CopyString(s: string, f: Flags, prec: nat)
      requires Valid()
      modifies this, buffer
      ensures Valid() && Shown(s, f, prec) <= |s| && text == old(text) + s[..Shown(s, f, prec)]
    {
      var p, left := s, prec;
      ghost var n := 0;
      StrLenBound(s);
      while Peek(p) != '\0' && (Precision !in f || left > 0)
        invariant Valid() && n <= |s| && p == s[n..] && StrLen(s) == n + StrLen(p)
        invariant Precision in f ==> 0 <= left && left + n == prec
        invariant text == old(text) + s[..n]
        decreases |p|
      {
        Put(p[0]);
        p := p[1..];
        if Precision in f { left := left - 1; }
        n := n + 1;
      }
    }

    /** The conversion after a complete specification. */
    method PutConversion(c: char, f: Flags, width: nat, prec: nat, args: seq<Arg>) returns (rest: seq<Arg>)
      requires Valid() && Convert(c, f, width, prec, args).Some? && (Precision !in f ==> prec == 0)
      modifies this, buffer
      ensures Valid()
      ensures var r := Convert(c, f, width, prec, args).value;
              text == old(text) + r.text && rest == r.args
    {
      rest := args;
      if IsInteger(c) {
        if LongLong !in f {
          PutInteger(c, f, width, prec, args[0].bits);
          rest := args[1..];
        }
      } else if c == 'c' {
        PutChar((args[0].bits % 0x100) as char, f, width);
        rest := args[1..];
      } else if c == 's' {
        PutString(args[0].text, f, width, prec);
        rest := args[1..];
      } else if c == 'p' {
        NtoaLong(args[0].bits, false, 16, prec, 8, f + {Zero, Upper});
        rest := args[1..];
      } else {
        Put(c);
      }
    }

    /** `_vsnprintf` without its final terminator. */
    method Interpret(format0: string, args0: seq<Arg>)
      requires Valid() && Text(format0, args0).Some?
      modifies this, buffer
      ensures Valid() && text == old(text) + Text(format0, args0).value
    {
      var format, args := format0, args0;
      while Peek(format) != '\0'
        invariant Valid() && Text(format, args).Some?
        invariant text + Text(format, args).value == old(text) + Text(format0, args0).value
        decreases |format|
      {
        format, args := PutNext(format, args);
      }
      assert Text(format, args).value == "";
    }

    /** One turn of the loop: an ordinary character or a directive. */
    method PutNext(format: string, args: seq<Arg>) returns (rest: string, args': seq<Arg>)
      requires Valid() && Peek(format) != '\0' && Text(format, args).Some?
      modifies this, buffer
      ensures Valid() && |rest| < |format| && Text(rest, args').Some?
      ensures text + Text(rest, args').value == old(text) + Text(format, args).value
    {
      ghost var t := text;
      if format[0] != '%' {
        Put(format[0]);
        rest, args' := format[1..], args;
        Regroup(t, [format[0]], Text(rest, args').value);
      } else {
        ghost var d := Directive(format[1..], args).value;
        rest, args' := PutDirective(format[1..], args);
        Regroup(t, d.text, Text(rest, args').value);
      }
    }

    /** One directive of the format, from just after its '%'. */
    method PutDirective(s0: string, args0: seq<Arg>) returns (rest: string, args: seq<Arg>)
      requires Valid() && Directive(s0, args0).Some?
      modifies this, buffer
      ensures Valid()
      ensures var d := Directive(s0, args0).value;
              text == old(text) + d.text && rest == d.rest && args == d.args
    {
      var f, s := ParseFlags(s0);
      var w := ParseWidth(s, f, args0);
      var p := ParsePrecision(w.rest, w.flags, w.args);
      f, s := ParseLength(p.rest, p.flags);
      args := PutConversion(Peek(s), f, w.value, p.value, p.args);
      rest := s[1..];
    }
  }

  method IntegerSetup(c: char, flags: Flags) returns (f: Flags, base: nat)
    requires IsInteger(c)
    ensures f == IntegerFlags(c, flags) && base == Radix(c)
  {
    f, base := flags, 10;
    if c == 'x' || c == 'X' {
      base := 16;
    } else if c == 'o' {
      base := 8;
    } else if c == 'b' {
      base := 2;
    } else {
      f := f - {Hash};
    }
    if c == 'X' { f := f + {Upper}; }
    if c != 'i' && c != 'd' { f := f - {Plus, Space}; }
    if Precision in f { f := f - {Zero}; }
  }

  lemma SignedText(c: char, flags: Flags, width: nat, prec: nat, bits: word, f: Flags, base: nat, v: int, u: nat)
    requires IsSigned(c) && f == IntegerFlags(c, flags) && base == Radix(c)
    requires v == SignedValue(bits, f) && u == Abs(v)
    ensures IntegerText(c, flags, width, prec, bits) == Number(u, v < 0, base, prec, width, f)
  {
  }

  lemma UnsignedText(c: char, flags: Flags, width: nat, prec: nat, bits: word, f: Flags, base: nat, v: nat)
    requires IsInteger(c) && !IsSigned(c) && f == IntegerFlags(c, flags) && base == Radix(c)
    requires v == UnsignedValue(bits, f)
    ensures IntegerText(c, flags, width, prec, bits) == Number(v, false, base, prec, width, f)
  {
  }

  lemma Regroup(a: string, b: string, c: string)
    ensures a + (b + c) == a + b + c
  {
  }

  lemma FieldParts(t: string, buf: string, width: nat, f: Flags)
    ensures Left !in f && Zero !in f ==> t + Field(buf, width, f) == t + Fill(' ', width - |buf|) + Reverse(buf)
    ensures Left !in f && Zero in f ==> t + Field(buf, width, f) == t + Reverse(buf)
    ensures Left in f ==> t + Field(buf, width, f) == t + Reverse(buf) + Fill(' ', width - |buf|)
  {
    Around(t, Fill(' ', width - |buf|), Reverse(buf));
  }

  lemma Around(t: string, pad: string, r: string)
    ensures t + (pad + r + "") == t + pad + r && t + ("" + r + "") == t + r && t + ("" + r + pad) == t + r + pad
  {
  }

  lemma ReverseStep(t: string, s: string, n: nat)
    requires n < |s|
    ensures t + Reverse(s[..n + 1]) == t + [s[n]] + Reverse(s[..n])
  {
    assert s[..n + 1][..n] == s[..n];
  }

  lemma Quotient(v: nat, base: nat)
    requires 2 <= base
    ensures 0 <= v % base < base && 0 <= v / base && (v > 0 ==> v / base < v)
    ensures v == (v / base) * base + v % base
  {
    var q, r := v / base, v % base;
    assert v == base * q + r;
    if q < 0 { Times(base, q, -1); }
    if q > 0 { Times(q, 2, base); }
  }

  lemma Times(k: int, a: int, b: int)
    requires 0 <= k && a <= b
    ensures k * a <= k * b
  {
  }

  /** One digit off the front; `done` is what was written before it. */
  lemma DigitsStep(done: string, v: nat, base: nat, upper: bool)
    requires 2 <= base <= 16
    ensures v % base < 16 && v / base >= 0
    ensures done + Digits(v, base, upper) ==
            done + [DigitChar(v % base, upper)] + if v / base == 0 then "" else Digits(v / base, base, upper)
    ensures |Digits(v, base, upper)| == 1 + if v / base == 0 then 0 else |Digits(v / base, base, upper)|
  {
    Quotient(v, base);
  }

  /** The digit loop of `_ntoa_long`; 32 cells are enough for any 32-bit value in any base. */
  method WriteDigits(buf: array<char>, value0: word, base: nat, upper: bool) returns (len: nat)
    requires buf.Length == NTOA_BUFFER && 2 <= base <= 16
    modifies buf
    ensures len <= buf.Length && buf[..len] == Digits(value0, base, upper)
  {
    var value: nat := value0;
    len := 0;
    Power32();
    DigitsFit(value, base, upper, 32);
    var more := true;
    while more
      invariant len <= NTOA_BUFFER
      invariant more ==> len + |Digits(value, base, upper)| <= NTOA_BUFFER
      invariant Digits(value0, base, upper) == buf[..len] + if more then Digits(value, base, upper) else ""
      decreases more, value
    {
      ghost var s := buf[..len];
      DigitsStep(s, value, base, upper);
      Quotient(value, base);
      var digit, rest := value % base, value / base;
      buf[len] := DigitChar(digit, upper);
      len := len + 1;
      assert buf[..len] == s + [DigitChar(digit, upper)];
      value := rest;
      more := value != 0 && len < NTOA_BUFFER;
    }
  }

  /** A number below 2^n has at most n digits. */
  lemma {:induction false} DigitsFit(v: nat, base: nat, upper: bool, n: nat)
    requires 2 <= base <= 16 && v < Power2(n) && n > 0
    ensures |Digits(v, base, upper)| <= n
    decreases n
  {
    Quotient(v, base);
    var q := v / base;
    if q != 0 {
      HalvesAtLeast(v, base);
      DigitsFit(q, base, upper, n - 1);
    }
  }

  lemma HalvesAtLeast(v: nat, base: nat)
    requires 2 <= base
    ensures 0 <= 2 * (v / base) <= v
  {
    Quotient(v, base);
    var q := v / base;
    assert v == base * q + v % base;
    Times(q, 2, base);
  }

  lemma Power32()
    ensures Power2(32) == 0x1_0000_0000
  {
    assert Power2(8) == 0x100;
    assert Power2(16) == 0x1_0000;
    assert Power2(24) == 0x100_0000;
  }

  function Power2(n: nat): nat {
    if n == 0 then 1 else 2 * Power2(n - 1)
  }

  // ---------- Scanning ----------

  method ParseFlags(s: string) returns (f: Flags, rest: string)
    ensures (f, rest) == ScanFlags(s, NO_FLAGS)
  {
    f, rest := NO_FLAGS, s;
    var more := true;
    while more
      invariant ScanFlags(s, NO_FLAGS) == if more then ScanFlags(rest, f) else (f, rest)
      decreases more, |rest|
    {
      var c := Peek(rest);
      if c == '0' {
        f := f + {Zero};
      } else if c == '-' {
        f := f + {Left};
      } else if c == '+' {
        f := f + {Plus};
      } else if c == ' ' {
        f := f + {Space};
      } else if c == '#' {
        f := f + {Hash};
      } else {
        more := false;
      }
      if more { rest := rest[1..]; }
    }
  }

  /** `_atoi` */
  method Atoi(s: string) returns (n: word, rest: string)
    ensures (n, rest) == ScanNumber(s, 0)
  {
    n, rest := 0, s;
    while IsDigit(Peek(rest))
      invariant ScanNumber(s, 0) == ScanNumber(rest, n)
      decreases |rest|
    {
      n := (n * 10 + (rest[0] as int - '0' as int)) % 0x1_0000_0000;
      rest := rest[1..];
    }
  }

  method ParseWidth(s: string, f: Flags, args: seq<Arg>) returns (r: Scan)
    requires ScanWidth(s, f, args).Some?
    ensures r == ScanWidth(s, f, args).value
  {
    r := Scan(0, f, s, args);
    if IsDigit(Peek(s)) {
      var n, rest := Atoi(s);
      r := Scan(n, f, rest, args);
    } else if Peek(s) == '*' {
      var w := Signed(args[0].bits);
      if w < 0 {
        r := Scan(-w, f + {Left}, s[1..], args[1..]);
      } else {
        r := Scan(w, f, s[1..], args[1..]);
      }
    }
  }

  method ParsePrecision(s: string, f: Flags, args: seq<Arg>) returns (r: Scan)
    requires ScanPrecision(s, f, args).Some?
    ensures r == ScanPrecision(s, f, args).value
  {
    r := Scan(0, f, s, args);
    if Peek(s) == '.' {
      var t := s[1..];
      r := Scan(0, f + {Precision}, t, args);
      if IsDigit(Peek(t)) {
        var n, rest := Atoi(t);
        r := r.(value := n, rest := rest);
      } else if Peek(t) == '*' {
        var p := Signed(args[0].bits);
        r := r.(value := if p > 0 then p else 0, rest := t[1..], args := args[1..]);
      }
    }
  }

  method ParseLength(s: string, f0: Flags) returns (f: Flags, rest: string)
    ensures (f, rest) == ScanLength(s, f0)
  {
    f, rest := f0, s;
    match Peek(s)
    case 'l' =>
      f, rest := f + {Long}, rest[1..];
      if Peek(rest) == 'l' { f, rest := f + {LongLong}, rest[1..]; }
    case 'h' =>
      f, rest := f + {Short}, rest[1..];
      if Peek(rest) == 'h' { f, rest := f + {Char}, rest[1..]; }
    case 'j' => f, rest := f + {LongLong}, rest[1..];
    case 'z' => f, rest := f + {Long}, rest[1..];
    case _ =>
  }

  /** `_strnlen_s`; no limit stands for the largest size. */
  method StrNLen(s: string, limit: Option<nat>) returns (n: nat)
    ensures n == if limit.Some? then Min(StrLen(s), limit.value) else StrLen(s)
  {
    var p := s;
    n := 0;
    while Peek(p) != '\0' && (limit.None? || n < limit.value)
      invariant StrLen(s) == n + StrLen(p) && (limit.Some? ==> n <= limit.value)
      decreases |p|
    {
      p := p[1..];
      n := n + 1;
    }
  }

  // ---------- snprintf ----------

  /** A buffer that held `before`, after `text` was printed into its first `count` cells. */
  function Printed(before: seq<char>, text: string, count: nat): seq<char>
    requires count <= |before|
  {
    if count == 0 then before
    else
      var n := Min(|text|, count - 1);
      text[..n] + ['\0'] + before[n + 1..]
  }

  /**
   `snprintf_`: for any count, including 0 and a null buffer, it returns the length of the whole text,
   leaves the truncated, terminated text in the buffer and touches nothing else.
   */
  method Snprintf(buffer: array?<char>, count: nat, format: string, args: seq<Arg>) returns (n: nat)
    requires buffer != null ==> count <= buffer.Length
    requires Text(format, args).Some?
    modifies buffer
    ensures n == |Text(format, args).value|
    ensures buffer != null ==> buffer[..] == Printed(old(buffer[..]), Text(format, args).value, count)
  {
    var sink := new Sink(buffer, count);
    sink.Interpret(format, args);
    assert sink.text == Text(format, args).value;
    n := sink.idx;
    sink.Terminate();
  }

  lemma PrintedPointwise(before: seq<char>, t: string, count: nat, after: seq<char>)
    requires count <= |before| == |after|
    requires forall k :: 0 <= k < |after| ==>
               after[k] == if count > 0 && k == Min(|t|, count - 1) then '\0'
                           else if k < |t| && k < count then t[k] else before[k]
    ensures after == Printed(before, t, count)
  {
  }

  /** The text in a terminated buffer: everything before the first NUL. */
  function Contents(b: seq<char>): string {
    if b == [] || b[0] == '\0' then "" else [b[0]] + Contents(b[1..])
  }

  /** What a C reader sees of a terminated text. */
  lemma {:induction false} ContentsCut(t: string, rest: seq<char>)
    ensures Contents(t + ['\0'] + rest) == Contents(t)
    decreases |t|
  {
    if t != "" {
      ContentsCut(t[1..], rest);
      assert (t + ['\0'] + rest)[1..] == t[1..] + ['\0'] + rest;
    } else {
      assert (t + ['\0'] + rest)[0] == '\0';
    }
  }

  lemma {:induction false} ContentsPrefix(t: string, n: nat)
    requires n <= |t|
    ensures Contents(t[..n]) <= Contents(t)
    decreases n
  {
    if n > 0 && t[0] != '\0' {
      ContentsPrefix(t[1..], n - 1);
      assert t[..n][1..] == t[1..][..n - 1];
    }
  }

  lemma {:induction false} ContentsWhole(t: string)
    requires '\0' !in t
    ensures Contents(t) == t
    decreases |t|
  {
    if t != "" { ContentsWhole(t[1..]); }
  }

  /** A smaller count always gives a prefix of what a larger one gives, even if the text itself contains a NUL. */
  lemma SmallerCountIsPrefix(before: seq<char>, before': seq<char>, text: string, count: nat, count': nat)
    requires 0 < count <= count' && count <= |before| && count' <= |before'|
    ensures Contents(Printed(before, text, count)) <= Contents(Printed(before', text, count'))
    ensures '\0' !in text ==> Contents(Printed(before, text, count)) == text[..Min(|text|, count - 1)]
  {
    var n, n' := Min(|text|, count - 1), Min(|text|, count' - 1);
    ContentsCut(text[..n], before[n + 1..]);
    ContentsCut(text[..n'], before'[n' + 1..]);
    ContentsPrefix(text[..n'], n);
    assert text[..n'][..n] == text[..n];
    if '\0' !in text { ContentsWhole(text[..n]); }
  }
}
