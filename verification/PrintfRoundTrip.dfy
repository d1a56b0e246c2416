/** What `%d %u %x %X %o %b` print reads back as the argument. */
module PrintfRoundTrip {
  import opened Base
  import opened Printf
  import opened PrintfCode

  // ---------- Reading ----------

  function DigitOf(c: char): nat {
    if '0' <= c <= '9' then c as int - '0' as int
    else if 'a' <= c <= 'f' then c as int - 'a' as int + 10
    else if 'A' <= c <= 'F' then c as int - 'A' as int + 10
    else 99
  }

  /** Positional value, most significant digit first. */
  function Value(s: string, base: nat): nat {
    if s == "" then 0 else Value(s[..|s| - 1], base) * base + DigitOf(s[|s| - 1])
  }

  function TrimLeft(s: string): string {
    if s != "" && s[0] == ' ' then TrimLeft(s[1..]) else s
  }

  function TrimRight(s: string): string {
    if s != "" && s[|s| - 1] == ' ' then TrimRight(s[..|s| - 1]) else s
  }

  /** Remove the blanks around a number, read its sign and its digits. */
  function Read(s: string, base: nat): int {
    var t := TrimRight(TrimLeft(s));
    if t != "" && t[0] == '-' then -(Value(t[1..], base) as int)
    else if t != "" && t[0] == '+' then Value(t[1..], base)
    else Value(t, base)
  }

  // ---------- Digits ----------

  lemma DigitReads(d: nat, upper: bool)
    requires d < 16
    ensures DigitOf(DigitChar(d, upper)) == d && DigitChar(d, upper) !in {' ', '-', '+', '\0'}
  {
  }

  lemma {:induction false} ReverseCons(c: char, s: string)
    ensures Reverse([c] + s) == Reverse(s) + [c]
    decreases |s|
  {
    if s == "" {
      assert [c] + s == [c] && [c][..0] == "";
    } else {
      var n := |s| - 1;
      ReverseCons(c, s[..n]);
      assert ([c] + s)[..n + 1] == [c] + s[..n];
      assert [s[n]] + (Reverse(s[..n]) + [c]) == [s[n]] + Reverse(s[..n]) + [c];
    }
  }

  lemma ValueSnoc(s: string, c: char, base: nat)
    ensures Value(s + [c], base) == Value(s, base) * base + DigitOf(c)
  {
    assert (s + [c])[..|s|] == s;
  }

  lemma DigitReadsOnto(c: char, rest: string, base: nat, q: nat, r: nat)
    requires Value(Reverse(rest), base) == q && DigitOf(c) == r
    ensures Value(Reverse([c] + rest), base) == q * base + r
  {
    ReverseCons(c, rest);
    ValueSnoc(Reverse(rest), c, base);
  }

  /** Printing a number and reading its digits gives the number, in any base. */
  lemma {:induction false} DigitsRead(v: nat, base: nat, upper: bool)
    requires 2 <= base <= 16
    ensures Value(Reverse(Digits(v, base, upper)), base) == v
    ensures NoSigns(Digits(v, base, upper))
    decreases v
  {
    Quotient(v, base);
    var q, r := v / base, v % base;
    var c := DigitChar(r, upper);
    DigitReads(r, upper);
    if q == 0 {
      assert Digits(v, base, upper) == [c] + "";
      DigitReadsOnto(c, "", base, 0, r);
    } else {
      DigitsRead(q, base, upper);
      DigitReadsOnto(c, Digits(q, base, upper), base, q, r);
    }
  }

  ghost predicate NoSigns(s: string) {
    forall i :: 0 <= i < |s| ==> s[i] != ' ' && s[i] != '-' && s[i] != '+'
  }

  // ---------- Zeros in front ----------

  lemma ReverseLast(s: string, init: string, c: char)
    requires s == init + [c]
    ensures Reverse(s) == [c] + Reverse(init)
  {
    assert s[..|s| - 1] == init;
  }

  lemma {:induction false} ReverseAppend(a: string, b: string)
    ensures Reverse(a + b) == Reverse(b) + Reverse(a)
    decreases |b|
  {
    if b == "" {
      assert a + b == a && Reverse(b) + Reverse(a) == Reverse(a);
    } else {
      var init, c := b[..|b| - 1], b[|b| - 1];
      ReverseAppend(a, init);
      assert b == init + [c] && a + b == (a + init) + [c];
      ReverseLast(b, init, c);
      ReverseLast(a + b, a + init, c);
      Regroup([c], Reverse(init), Reverse(a));
    }
  }

  lemma {:induction false} ReverseFill(c: char, n: int)
    ensures Reverse(Fill(c, n)) == Fill(c, n)
    decreases n
  {
    if n > 0 {
      ReverseFill(c, n - 1);
      assert Fill(c, n)[..n - 1] == Fill(c, n - 1);
      assert [c] + Fill(c, n - 1) == Fill(c, n);
    }
  }

  lemma ZeroTimes(v: int, base: nat)
    requires v == 0
    ensures v * base == 0
  {
  }

  lemma ZeroSnoc(s: string, base: nat)
    requires Value(s, base) == 0
    ensures Value(s + ['0'], base) == 0
  {
    ValueSnoc(s, '0', base);
    ZeroTimes(Value(s, base), base);
  }

  lemma {:induction false} ZerosOnly(n: int, base: nat)
    ensures Value(Fill('0', n), base) == 0
    decreases n
  {
    if n > 0 {
      ZerosOnly(n - 1, base);
      ZeroSnoc(Fill('0', n - 1), base);
      assert Fill('0', n) == Fill('0', n - 1) + ['0'];
    }
  }

  lemma {:induction false} LeadingZeros(n: int, s: string, base: nat)
    ensures Value(Fill('0', n) + s, base) == Value(s, base)
    decreases |s|
  {
    var z := Fill('0', n);
    if s == "" {
      assert z + s == z;
      ZerosOnly(n, base);
    } else {
      var init, c := s[..|s| - 1], s[|s| - 1];
      LeadingZeros(n, init, base);
      assert z + s == z + init + [c];
      ValueSnoc(z + init, c, base);
    }
  }

  lemma {:induction false} ReverseNoSigns(s: string)
    requires NoSigns(s)
    ensures NoSigns(Reverse(s))
    decreases |s|
  {
    if s != "" { ReverseNoSigns(s[..|s| - 1]); }
  }

  // ---------- Blanks around ----------

  lemma {:induction false} TrimLeftFill(n: int, s: string)
    ensures TrimLeft(Fill(' ', n) + s) == TrimLeft(s)
    decreases n
  {
    if n > 0 {
      assert (Fill(' ', n) + s)[1..] == Fill(' ', n - 1) + s;
      TrimLeftFill(n - 1, s);
    } else {
      assert Fill(' ', n) + s == s;
    }
  }

  lemma {:induction false} TrimRightFill(s: string, n: int)
    ensures TrimRight(s + Fill(' ', n)) == TrimRight(s)
    decreases n
  {
    if n > 0 {
      assert (s + Fill(' ', n))[..|s| + n - 1] == s + Fill(' ', n - 1);
      TrimRightFill(s, n - 1);
    } else {
      assert s + Fill(' ', n) == s;
    }
  }

  /** Text without a blank at either end. */
  ghost predicate Tight(s: string) {
    s == "" || (s[0] != ' ' && s[|s| - 1] != ' ')
  }

  lemma TrimBody(a: int, body: string, b: int)
    requires Tight(body)
    ensures TrimRight(TrimLeft(Fill(' ', a) + body + Fill(' ', b))) == body
  {
    assert Fill(' ', a) + body + Fill(' ', b) == Fill(' ', a) + (body + Fill(' ', b));
    TrimLeftFill(a, body + Fill(' ', b));
    if body == "" {
      assert body + Fill(' ', b) == Fill(' ', b) + "";
      TrimLeftFill(b, "");
    } else {
      assert TrimLeft(body + Fill(' ', b)) == body + Fill(' ', b);
      TrimRightFill(body, b);
    }
  }

  // ---------- One number ----------

  /** How many zeros are put in front of `n` digits. */
  function Zeros(n: nat, prec: nat, width: nat, f: Flags): nat {
    if Left in f then 0
    else
      var a := if Min(prec, 32) > n then Min(prec, 32) - n else 0;
      if Zero in f && Min(width, 32) > n + a then Min(width, 32) - n else a
  }

  lemma PaddedIsZeros(buf: string, prec: nat, width: nat, f: Flags)
    ensures Padded(buf, prec, width, f) == buf + Fill('0', Zeros(|buf|, prec, width, f))
  {
  }

  /** The sign character written, if any. */
  function Mark(n: nat, negative: bool, f: Flags): string {
    if n >= 32 then "" else if negative then "-" else if Plus in f then "+" else if Space in f then " " else ""
  }

  /** What stands between the blanks: sign, zeros, digits. */
  function Core(d: string, negative: bool, prec: nat, w: nat, f: Flags): string {
    var z := Zeros(|d|, prec, w, f);
    Mark(|d| + z, negative, f) + (Fill('0', z) + Reverse(d))
  }

  lemma MarkReversed(m: string, p: string)
    requires |m| <= 1
    ensures Reverse(p + m) == m + Reverse(p)
  {
    ReverseAppend(p, m);
    assert Reverse(m) == m by { if m != "" { assert m == [m[0]] && m[..0] == ""; } }
  }

  lemma PaddedReversed(d: string, z: nat)
    ensures Reverse(d + Fill('0', z)) == Fill('0', z) + Reverse(d)
  {
    ReverseAppend(d, Fill('0', z));
    ReverseFill('0', z);
  }

  lemma CoreReversed(d: string, negative: bool, prec: nat, w: nat, f: Flags)
    ensures Reverse(SignMark(Padded(d, prec, w, f), negative, f)) == Core(d, negative, prec, w, f)
  {
    var z := Zeros(|d|, prec, w, f);
    PaddedIsZeros(d, prec, w, f);
    var p, m := d + Fill('0', z), Mark(|d| + z, negative, f);
    assert SignMark(p, negative, f) == p + m;
    PaddedReversed(d, z);
    MarkReversed(m, p);
  }

  function Before(core: string, w: nat, f: Flags): int { if Left !in f && Zero !in f then w - |core| else 0 }
  function After(core: string, w: nat, f: Flags): int { if Left in f then w - |core| else 0 }

  lemma FieldIsBlanks(buf: string, w: nat, f: Flags)
    ensures var core := Reverse(buf);
            Field(buf, w, f) == Fill(' ', Before(core, w, f)) + core + Fill(' ', After(core, w, f))
  {
  }

  /** Without '#', a number is its core between blanks. */
  lemma FormatIsCore(d: string, negative: bool, base: nat, prec: nat, width: nat, f: Flags)
    requires Hash !in f
    ensures var w := DigitWidth(width, negative, f);
            var core := Core(d, negative, prec, w, f);
            FormatNumber(d, negative, base, prec, width, f) ==
            Fill(' ', Before(core, w, f)) + core + Fill(' ', After(core, w, f))
  {
    var w := DigitWidth(width, negative, f);
    var buf := SignMark(Padded(d, prec, w, f), negative, f);
    CoreReversed(d, negative, prec, w, f);
    FieldIsBlanks(buf, w, f);
  }

  /** Does the sign find room in the 32-character buffer? */
  predicate Full(n: nat, negative: bool, prec: nat, width: nat, f: Flags) {
    n + Zeros(n, prec, DigitWidth(width, negative, f), f) >= 32
  }

  lemma CoreReads(a: int, m: string, body: string, b: int, base: nat)
    requires NoSigns(body) && m in {"", "-", "+", " "}
    ensures Read(Fill(' ', a) + (m + body) + Fill(' ', b), base) ==
            if m == "-" then -(Value(body, base) as int) else Value(body, base)
  {
    if m == " " {
      var a' := if a > 0 then a + 1 else 1;
      assert Fill(' ', a) + (m + body) == Fill(' ', a') + body;
      TrimBody(a', body, b);
    } else {
      assert Tight(m + body);
      TrimBody(a, m + body, b);
      if m == "" { assert m + body == body; } else { assert (m + body)[0] == m[0] && (m + body)[1..] == body; }
    }
  }

  /** Without '#', a number reads back unless it is negative and the buffer left no room for the sign. */
  lemma NumberReads(v: nat, negative: bool, base: nat, prec: nat, width: nat, f: Flags)
    requires 2 <= base <= 16 && Hash !in f
    ensures Read(Number(v, negative, base, prec, width, f), base) ==
            if negative && !Full(|DigitBuffer(v, base, f)|, negative, prec, width, f) then -(v as int) else v
  {
    assert f - {Hash} == f;
    var d, w := DigitBuffer(v, base, f), DigitWidth(width, negative, f);
    var z, core := Zeros(|d|, prec, w, f), Core(d, negative, prec, w, f);
    FormatIsCore(d, negative, base, prec, width, f);
    DigitBufferReads(v, base, z, f);
    CoreReads(Before(core, w, f), Mark(|d| + z, negative, f), Fill('0', z) + Reverse(d), After(core, w, f), base);
  }

  lemma DigitBufferReads(v: nat, base: nat, z: nat, f: Flags)
    requires 2 <= base <= 16
    ensures var s := Fill('0', z) + Reverse(DigitBuffer(v, base, f)); Value(s, base) == v && NoSigns(s)
  {
    var d := DigitBuffer(v, base, f);
    DigitsRead(v, base, Upper in f);
    ReverseNoSigns(d);
    LeadingZeros(z, Reverse(d), base);
  }

  // ---------- The conversions ----------

  /** The value a conversion is given. */
  function Given(c: char, f: Flags, bits: word): int {
    if IsSigned(c) then SignedValue(bits, f) else UnsignedValue(bits, f)
  }

  /** A negative number whose zero padding fills the whole buffer loses its sign. */
  predicate SignLost(f: Flags, width: nat, prec: nat) {
    Left !in f && (prec >= 32 || (Zero in f && Precision !in f && width > 32))
  }

  lemma FullExactly(n: nat, prec: nat, width: nat, f: Flags)
    requires n < 32
    ensures Full(n, true, prec, width, f) <==> Left !in f && (prec >= 32 || (Zero in f && width > 32))
  {
  }

  lemma DecimalShort(v: nat, f: Flags)
    requires v <= 0x8000_0000
    ensures |DigitBuffer(v, 10, f)| < 32
  {
    TenDigits(v, Upper in f);
  }

  lemma TenDigits(v: nat, upper: bool)
    requires v <= 0x8000_0000
    ensures |Digits(v, 10, upper)| <= 31
  {
    if v / 10 != 0 {
      assert v / 10 < 0x4000_0000;
      Power32();
      assert Power2(30) == 0x4000_0000 by { assert Power2(32) == 4 * Power2(30); }
      DigitsFit(v / 10, 10, upper, 30);
    }
  }

  lemma FlagsKept(c: char, f: Flags)
    requires IsInteger(c) && Hash !in f
    ensures var g := IntegerFlags(c, f);
            && Hash !in g && (Left in g <==> Left in f) && (Zero in g <==> Zero in f && Precision !in f)
            && (Long in g <==> Long in f) && (Short in g <==> Short in f) && (Char in g <==> Char in f)
  {
  }

  lemma IntegerIsNumber(c: char, f: Flags, width: nat, prec: nat, bits: word)
    requires IsInteger(c) && Hash !in f
    ensures var g, v := IntegerFlags(c, f), Given(c, f, bits);
            && IntegerText(c, f, width, prec, bits) == Number(Abs(v), v < 0, Radix(c), prec, width, g)
            && Hash !in g && (Left in g <==> Left in f) && (Zero in g <==> Zero in f && Precision !in f)
            && (v < 0 ==> Radix(c) == 10) && -0x8000_0000 <= v < 0x1_0000_0000
  {
    FlagsKept(c, f);
  }

  lemma NumberReadsExactly(v: int, base: nat, prec: nat, width: nat, g: Flags)
    requires 2 <= base <= 16 && Hash !in g && -0x8000_0000 <= v && (v < 0 ==> base == 10)
    ensures Read(Number(Abs(v), v < 0, base, prec, width, g), base) == v <==>
            !(v < 0 && Left !in g && (prec >= 32 || (Zero in g && width > 32)))
  {
    NumberReads(Abs(v), v < 0, base, prec, width, g);
    if v < 0 {
      DecimalShort(Abs(v), g);
      FullExactly(|DigitBuffer(Abs(v), 10, g)|, prec, width, g);
    }
  }

  /**
   Print and read back: for every 32-bit argument, `%d %i %u %x %X %o %b` without '#' print text that
   reads as the value given, if and only if the value is not a negative one whose sign was lost.
   */
  lemma IntegerReads(c: char, f: Flags, width: nat, prec: nat, bits: word)
    requires IsInteger(c) && Hash !in f
    ensures Read(IntegerText(c, f, width, prec, bits), Radix(c)) == Given(c, f, bits) <==>
            !(Given(c, f, bits) < 0 && SignLost(f, width, prec))
  {
    IntegerIsNumber(c, f, width, prec, bits);
    NumberReadsExactly(Given(c, f, bits), Radix(c), prec, width, IntegerFlags(c, f));
  }

  lemma CoreLength(d: string, negative: bool, prec: nat, w: nat, f: Flags)
    ensures |Core(d, negative, prec, w, f)| ==
            var n := |d| + Zeros(|d|, prec, w, f);
            n + if n < 32 && (negative || Plus in f || Space in f) then 1 else 0
  {
  }

  lemma FormatWidth(d: string, negative: bool, base: nat, prec: nat, width: nat, g: Flags)
    requires Hash !in g && |d| <= 32
    ensures |FormatNumber(d, negative, base, prec, width, g)| >= width <==> !(width > 32 && Zero in g && Left !in g)
  {
    FormatIsCore(d, negative, base, prec, width, g);
    CoreLength(d, negative, prec, DigitWidth(width, negative, g), g);
  }

  lemma NumberWidth(v: nat, negative: bool, base: nat, prec: nat, width: nat, g: Flags)
    requires 2 <= base <= 16 && Hash !in g && v < 0x1_0000_0000
    ensures |Number(v, negative, base, prec, width, g)| >= width <==> !(width > 32 && Zero in g && Left !in g)
  {
    assert g - {Hash} == g;
    Power32();
    DigitsFit(v, base, Upper in g, 32);
    FormatWidth(DigitBuffer(v, base, g), negative, base, prec, width, g);
  }

  /** The field is never shorter than asked for, except where zeros are cut off at 32 characters. */
  lemma FieldWidth(c: char, f: Flags, width: nat, prec: nat, bits: word)
    requires IsInteger(c) && Hash !in f
    ensures |IntegerText(c, f, width, prec, bits)| >= width <==>
            !(width > 32 && Zero in f && Left !in f && Precision !in f)
  {
    IntegerIsNumber(c, f, width, prec, bits);
    var v := Given(c, f, bits);
    NumberWidth(Abs(v), v < 0, Radix(c), prec, width, IntegerFlags(c, f));
  }

  // ---------- _atoi ----------

  ghost predicate AllDecimal(s: string) {
    forall i :: 0 <= i < |s| ==> IsDigit(s[i])
  }

  /** After `k` digits `_atoi` has accumulated the value of those digits. */
  lemma {:induction false} AtoiPrefix(s: string, k: nat, tail: string)
    requires AllDecimal(s) && k <= |s| && Value(s[..k], 10) < 0x1_0000_0000
    ensures ScanNumber(s + tail, 0) == ScanNumber(s[k..] + tail, Value(s[..k], 10))
  {
    if k > 0 {
      assert s[..k][..k - 1] == s[..k - 1] && s[..k][k - 1] == s[k - 1];
      AtoiPrefix(s, k - 1, tail);
      var t := s[k - 1..] + tail;
      assert t[0] == s[k - 1] && t[1..] == s[k..] + tail;
    }
  }

  lemma {:induction false} DecimalDigits(v: nat, upper: bool)
    ensures AllDecimal(Digits(v, 10, upper))
    decreases v
  {
    if v / 10 != 0 { DecimalDigits(v / 10, upper); }
  }

  lemma {:induction false} ReverseDecimal(s: string)
    requires AllDecimal(s)
    ensures AllDecimal(Reverse(s))
    decreases |s|
  {
    if s != "" { ReverseDecimal(s[..|s| - 1]); }
  }

  /** `_atoi` inverts decimal digits: it reads a printed number back and stops behind it. */
  lemma AtoiInverts(v: word, tail: string)
    requires !IsDigit(Peek(tail))
    ensures ScanNumber(Reverse(Digits(v, 10, false)) + tail, 0) == (v, tail)
  {
    DecimalDigits(v, false);
    ReverseDecimal(Digits(v, 10, false));
    DigitsRead(v, 10, false);
    var s := Reverse(Digits(v, 10, false));
    assert s[..|s|] == s && s[|s|..] + tail == tail;
    AtoiPrefix(s, |s|, tail);
  }
}
