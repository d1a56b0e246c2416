/** What each part of a conversion means: letters, flags, signs, digits, and on which side padding goes. */
module PrintfShape {
  import opened Base
  import opened Printf
  import opened PrintfCode
  import opened PrintfRoundTrip

  // ---------- Letters ----------

  /** The flag letters, in any order, up to the first other character. */
  lemma FlagLetters(rest: string, f: Flags)
    requires Peek(rest) !in {'0', '-', '+', ' ', '#'}
    ensures ScanFlags(rest, f) == (f, rest)
    ensures ScanFlags("0" + rest, f) == (f + {Zero}, rest)
    ensures ScanFlags("-" + rest, f) == (f + {Left}, rest)
    ensures ScanFlags("+" + rest, f) == (f + {Plus}, rest)
    ensures ScanFlags(" " + rest, f) == (f + {Space}, rest)
    ensures ScanFlags("#" + rest, f) == (f + {Hash}, rest)
  {
    OneFlag('0', rest, f);
    OneFlag('-', rest, f);
    OneFlag('+', rest, f);
    OneFlag(' ', rest, f);
    OneFlag('#', rest, f);
  }

  lemma OneFlag(c: char, rest: string, f: Flags)
    requires IsFlag(c) && !IsFlag(Peek(rest))
    ensures ScanFlags([c] + rest, f) == (SetFlag(f, c), rest)
  {
    var s := [c] + rest;
    assert s[0] == c && s[1..] == rest;
  }

  /** The length letters. */
  lemma LengthLetters(rest: string, f: Flags)
    requires Peek(rest) !in {'h', 'l', 'j', 'z'}
    ensures ScanLength(rest, f) == (f, rest)
    ensures ScanLength("l" + rest, f) == (f + {Long}, rest)
    ensures ScanLength("ll" + rest, f) == (f + {Long} + {LongLong}, rest)
    ensures ScanLength("h" + rest, f) == (f + {Short}, rest)
    ensures ScanLength("hh" + rest, f) == (f + {Short} + {Char}, rest)
    ensures ScanLength("z" + rest, f) == (f + {Long}, rest)
    ensures ScanLength("j" + rest, f) == (f + {LongLong}, rest)
  {
    TwoLetters('l', rest);
    TwoLetters('h', rest);
    TwoLetters('z', rest);
    TwoLetters('j', rest);
  }

  lemma TwoLetters(c: char, rest: string)
    ensures ([c] + rest)[0] == c && ([c] + rest)[1..] == rest
    ensures [c, c] + rest == [c] + ([c] + rest) && ([c, c] + rest)[2..] == rest
  {
  }

  /** A width or precision may come from an argument: a negative width means '-', a negative precision none. */
  lemma StarMeaning(rest: string, f: Flags, bits: word, args: seq<Arg>)
    requires bits != 0x8000_0000
    ensures ScanWidth("*" + rest, f, [Int(bits)] + args) ==
            Some(if bits < 0x8000_0000 then Scan(bits, f, rest, args)
                 else Scan(0x1_0000_0000 - bits, f + {Left}, rest, args))
    ensures ScanPrecision(".*" + rest, f, [Int(bits)] + args) ==
            Some(Scan(if bits < 0x8000_0000 then bits else 0, f + {Precision}, rest, args))
  {
    assert ([Int(bits)] + args)[1..] == args;
    assert ("*" + rest)[1..] == rest && (".*" + rest)[1..] == "*" + rest;
  }

  /** The base of each conversion. */
  function BaseOf(c: char): nat {
    match c
    case 'x' => 16
    case 'X' => 16
    case 'o' => 8
    case 'b' => 2
    case _ => 10
  }

  /**
   The value a conversion is given: the argument's low 8 bits for `hh`, its low 16 bits for `h` (both without
   `l`), all 32 otherwise; in two's complement for `d` and `i`, except that `hh` is unsigned on this target.
   */
  lemma GivenMeaning(c: char, f: Flags, bits: word)
    requires IsInteger(c)
    ensures var v := Given(c, f, bits);
            if Long !in f && Char in f then 0 <= v < 256 && (bits - v) % 256 == 0
            else if Long !in f && Short in f then
              (bits - v) % 65536 == 0 && if c == 'd' || c == 'i' then -32768 <= v < 32768 else 0 <= v < 65536
            else
              (bits - v) % 0x1_0000_0000 == 0
              && if c == 'd' || c == 'i' then -0x8000_0000 <= v < 0x8000_0000 else 0 <= v
  {
    LowByte(bits, bits / 256);
    LowHalf(bits, bits / 65536);
    WholeTurn();
  }

  lemma LowByte(x: word, q: int)
    requires q == x / 256
    ensures 0 <= x % 256 < 256 && (x - x % 256) % 256 == 0
  {
    assert x - x % 256 == 256 * q;
  }

  lemma LowHalf(x: word, q: int)
    requires q == x / 65536
    ensures 0 <= x % 65536 < 65536 && (x - x % 65536) % 65536 == 0 && (x - (x % 65536 - 65536)) % 65536 == 0
  {
    assert x - x % 65536 == 65536 * q && x - (x % 65536 - 65536) == 65536 * (q + 1);
  }

  lemma WholeTurn()
    ensures 0x1_0000_0000 % 0x1_0000_0000 == 0
  {
  }

  // ---------- Integers ----------

  /** The character in front: minus for negative numbers, else what the flags of a signed conversion ask for. */
  function SignOf(c: char, f: Flags, v: int): string {
    if v < 0 then "-"
    else if c != 'd' && c != 'i' then ""
    else if Plus in f then "+"
    else if Space in f then " "
    else ""
  }

  predicate DigitIn(c: char, upper: bool) {
    '0' <= c <= '9' || (if upper then 'A' <= c <= 'F' else 'a' <= c <= 'f')
  }

  /** `s` is `v` to the base `base` without leading zeros, with letters of one case. */
  ghost predicate Numeral(s: string, v: nat, base: nat, upper: bool) {
    && s != "" && Value(s, base) == v && (s[0] == '0' ==> s == "0")
    && forall i :: 0 <= i < |s| ==> DigitIn(s[i], upper)
  }

  lemma {:induction false} DigitsCase(v: nat, base: nat, upper: bool)
    requires 2 <= base <= 16
    ensures forall i :: 0 <= i < |Digits(v, base, upper)| ==> DigitIn(Digits(v, base, upper)[i], upper)
    decreases v
  {
    Quotient(v, base);
    if v / base != 0 { DigitsCase(v / base, base, upper); }
  }

  lemma {:induction false} TopDigit(v: nat, base: nat, upper: bool)
    requires 2 <= base <= 16
    ensures var d := Digits(v, base, upper);
            d != "" && (if v == 0 then d == "0" else d[|d| - 1] != '0')
    decreases v
  {
    Quotient(v, base);
    if v / base != 0 { TopDigit(v / base, base, upper); }
  }

  lemma {:induction false} ReverseAt(s: string, k: nat)
    requires k < |s|
    ensures Reverse(s)[k] == s[|s| - 1 - k]
    decreases |s|
  {
    if k > 0 { ReverseAt(s[..|s| - 1], k - 1); }
  }

  lemma DigitsAreNumeral(v: nat, base: nat, upper: bool)
    requires 2 <= base <= 16
    ensures Numeral(Reverse(Digits(v, base, upper)), v, base, upper)
  {
    var d := Digits(v, base, upper);
    DigitsCase(v, base, upper);
    TopDigit(v, base, upper);
    DigitsRead(v, base, upper);
    ReverseAt(d, 0);
    forall k | 0 <= k < |d| ensures DigitIn(Reverse(d)[k], upper) { ReverseAt(d, k); }
    if v == 0 { assert d == "0" && Reverse(d) == ['0'] + Reverse(d[..0]); }
  }

  lemma FlagsMeaning(c: char, f: Flags)
    requires IsInteger(c)
    ensures var g := IntegerFlags(c, f);
            && (Plus in g <==> Plus in f && (c == 'd' || c == 'i'))
            && (Space in g <==> Space in f && (c == 'd' || c == 'i'))
            && (Upper in g <==> Upper in f || c == 'X') && (Precision in g <==> Precision in f)
  {
  }

  /** The parts of a number: blanks, sign, zeros, digits, blanks. */
  datatype Parts = Parts(before: nat, zeros: nat, digits: string, after: nat)

  /**
   The anatomy of `%d %i %u %x %X %o %b` without '#': blanks on the left unless '-' or effective zero padding,
   then the sign (if the 32-character buffer has room), zeros (never with '-'), the digits, and blanks on the
   right only with '-'. Digits are missing only for 0 with a precision.
   */
  lemma IntegerShape(c: char, f: Flags, width: nat, prec: nat, bits: word) returns (p: Parts)
    requires IsInteger(c) && Hash !in f
    ensures var v := Given(c, f, bits);
            var sign := if |p.digits| + p.zeros >= 32 then "" else SignOf(c, f, v);
            IntegerText(c, f, width, prec, bits) ==
            Fill(' ', p.before) + (sign + (Fill('0', p.zeros) + p.digits)) + Fill(' ', p.after)
    ensures p.before > 0 ==> Left !in f && (Zero !in f || Precision in f)
    ensures p.after > 0 ==> Left in f
    ensures p.zeros > 0 ==> Left !in f && (p.zeros + |p.digits| <= prec || (Zero in f && Precision !in f))
    ensures Left !in f ==> p.zeros + |p.digits| >= Min(prec, 32)
    ensures if Given(c, f, bits) == 0 && Precision in f then p.digits == ""
            else Numeral(p.digits, Abs(Given(c, f, bits)), BaseOf(c), Upper in f || c == 'X')
  {
    var g, v := IntegerFlags(c, f), Given(c, f, bits);
    IntegerIsNumber(c, f, width, prec, bits);
    FlagsMeaning(c, f);
    p := NumberShape(DigitBuffer(Abs(v), Radix(c), g), v < 0, Radix(c), prec, width, g);
    assert g - {Hash} == g;
    MarkMeaning(|p.digits| + p.zeros, c, f, v);
    IntegerDigits(c, f, v);
  }

  lemma MarkMeaning(n: nat, c: char, f: Flags, v: int)
    requires IsInteger(c)
    ensures Mark(n, v < 0, IntegerFlags(c, f)) == if n >= 32 then "" else SignOf(c, f, v)
  {
    FlagsMeaning(c, f);
  }

  lemma IntegerDigits(c: char, f: Flags, v: int)
    requires IsInteger(c)
    ensures var d := Reverse(DigitBuffer(Abs(v), Radix(c), IntegerFlags(c, f)));
            if v == 0 && Precision in f then d == "" else Numeral(d, Abs(v), BaseOf(c), Upper in f || c == 'X')
  {
    var g := IntegerFlags(c, f);
    FlagsMeaning(c, f);
    if !(v == 0 && Precision in f) { DigitsAreNumeral(Abs(v), Radix(c), Upper in g); }
  }

  lemma NumberShape(d: string, negative: bool, base: nat, prec: nat, width: nat, g: Flags) returns (p: Parts)
    requires Hash !in g
    ensures p.digits == Reverse(d)
    ensures FormatNumber(d, negative, base, prec, width, g) ==
            Fill(' ', p.before) + (Mark(|d| + p.zeros, negative, g) + (Fill('0', p.zeros) + p.digits))
            + Fill(' ', p.after)
    ensures p.before > 0 ==> Left !in g && Zero !in g
    ensures p.after > 0 ==> Left in g
    ensures p.zeros > 0 ==> Left !in g && (p.zeros + |d| <= prec || Zero in g)
    ensures Left !in g ==> p.zeros + |d| >= Min(prec, 32)
  {
    var w := DigitWidth(width, negative, g);
    var core := Core(d, negative, prec, w, g);
    FormatIsCore(d, negative, base, prec, width, g);
    var b, a := Before(core, w, g), After(core, w, g);
    p := Parts(if b > 0 then b else 0, Zeros(|d|, prec, w, g), Reverse(d), if a > 0 then a else 0);
  }

  // ---------- The '#' flag ----------

  /** What '#' puts in front, written backwards as the buffer is. */
  function HashTail(base: nat, upper: bool): string {
    if base == 16 then (if upper then "X0" else "x0") else if base == 2 then "b0" else "0"
  }

  /**
   With '#' the prefix 0x, 0X, 0b or 0 goes in front. It overwrites digits if and only if no precision was given
   and the digits fill the width or precision exactly, except for a leading zero that octal puts back.
   */
  lemma HashExactly(buf: string, base: nat, prec: nat, width: nat, f: Flags)
    requires Hash in f && base in {2, 8, 16} && buf != "" && |buf| + 2 <= 32
    requires forall i :: 0 <= i < |buf| ==> DigitIn(buf[i], Upper in f) && DigitOf(buf[i]) < base
    ensures var tail := HashTail(base, Upper in f);
            HashMark(buf, base, prec, width, f) ==
            HashTrim(buf, base, prec, width, f) + tail
    ensures buf <= HashMark(buf, base, prec, width, f) <==>
              || !(Precision !in f && (|buf| == prec || |buf| == width))
              || (base == 8 && buf[|buf| - 1] == '0')
  {
    var m, t := HashMark(buf, base, prec, width, f), HashTrim(buf, base, prec, width, f);
    if Precision !in f && (|buf| == prec || |buf| == width) {
      var n := |buf| - 1;
      if base == 8 {
        assert m[n] == '0';
      } else if base == 2 {
        assert m[n] == 'b';
      } else if n > 0 {
        assert m[n - 1] == if Upper in f then 'X' else 'x';
      } else {
        assert m[n] == if Upper in f then 'X' else 'x';
      }
    } else {
      assert t == buf;
    }
  }

  /** So `%#4x` of 0x1234 prints only its last two digits. */
  lemma HashCutsDigits(f: Flags)
    requires f == {Hash}
    ensures HashMark("4321", 16, 0, 4, f) == "43x0"
  {
    HashExactly("4321", 16, 0, 4, f);
  }

  // ---------- Strings ----------

  lemma {:induction false} StrLenMeaning(s: string)
    ensures StrLen(s) <= |s| && (StrLen(s) < |s| ==> s[StrLen(s)] == '\0')
    ensures forall i :: 0 <= i < StrLen(s) ==> s[i] != '\0'
    decreases |s|
  {
    if s != "" && s[0] != '\0' {
      StrLenMeaning(s[1..]);
      forall i | 0 <= i < StrLen(s) ensures s[i] != '\0' {
        if i > 0 { assert s[i] == s[1..][i - 1]; }
      }
    }
  }

  /** `%s` shows the string up to its NUL or the precision, whichever comes first. */
  lemma ShownMeaning(s: string, f: Flags, prec: nat)
    ensures var n := Shown(s, f, prec);
            && n <= |s| && (forall i :: 0 <= i < n ==> s[i] != '\0')
            && (Precision in f ==> n <= prec)
            && (n == |s| || s[n] == '\0' || (Precision in f && n == prec))
  {
    StrLenMeaning(s);
  }

  /** Text in a field: never cut, blanks on the left, or on the right with '-', up to the width. */
  lemma FieldMeaning(text: string, width: nat, f: Flags)
    ensures var a, n := Aligned(text, width, f), |text|;
            && |a| == (if width > n then width else n)
            && (if Left in f then a[..n] == text && forall i :: n <= i < |a| ==> a[i] == ' '
                else a[|a| - n..] == text && forall i :: 0 <= i < |a| - n ==> a[i] == ' ')
  {
  }

  /** `%%` prints a percent sign, `%c` the low byte of its argument. */
  lemma OtherConversions(f: Flags, width: nat, prec: nat, bits: word, args: seq<Arg>)
    ensures Convert('%', f, width, prec, args) == Some(Converted("%", args))
    ensures Convert('c', f, width, prec, [Int(bits)] + args) ==
            Some(Converted(Aligned([(bits % 256) as char], width, f), args))
  {
    assert ([Int(bits)] + args)[1..] == args;
  }
}
