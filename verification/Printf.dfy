/**
 Integer `snprintf` (src_stage2/embedded_printf/printf.c): the text a format stands for, as an unbounded
 stream. `PrintfCode` is the interpreter that writes it into a bounded buffer.

 `Text` is `None` where the C code has no defined behaviour: a format that ends inside a conversion, a
 missing argument or one of the wrong kind, or the negation of INT_MIN.
 */
module Printf {
  import opened Base

  datatype Flag = Zero | Left | Plus | Space | Hash | Upper | Char | Short | Long | LongLong | Precision

  type Flags = set<Flag>

  const NO_FLAGS: Flags := {}

  /** An argument slot: a 32-bit integer or a pointer to a string. */
  datatype Arg = Int(bits: word) | Str(text: string)

  /** Reading a C string: past its end there is a NUL. */
  function Peek(s: string): char {
    if s == "" then '\0' else s[0]
  }

  predicate IsDigit(c: char) { '0' <= c <= '9' }

  function Signed(bits: word): int {
    if bits < 0x8000_0000 then bits else bits - 0x1_0000_0000
  }

  function Fill(c: char, n: int): string {
    if n <= 0 then "" else seq(n, _ => c)
  }

  // ---------- Numbers ----------

  const NTOA_BUFFER: nat := 32

  function DigitChar(d: nat, upper: bool): char
    requires d < 16
  {
    if d < 10 then ('0' as int + d) as char
    else ((if upper then 'A' else 'a') as int + d - 10) as char
  }

  /** The digits of `v`, least significant first; at least one. */
  function Digits(v: nat, base: nat, upper: bool): string
    requires 2 <= base <= 16
    decreases v
  {
    [DigitChar(v % base, upper)] + if v / base == 0 then "" else Digits(v / base, base, upper)
  }

  function DigitBuffer(v: nat, base: nat, f: Flags): string
    requires 2 <= base <= 16
  {
    if Precision in f && v == 0 then "" else Digits(v, base, Upper in f)
  }

  /** The field width left for digits once a sign is to be written in front of zeros. */
  function DigitWidth(width: nat, negative: bool, f: Flags): nat {
    if Left !in f && width > 0 && Zero in f && (negative || Plus in f || Space in f) then width - 1 else width
  }

  /** Leading zeros up to `n`, as far as the buffer goes. */
  function ZeroExtend(buf: string, n: nat): string {
    buf + Fill('0', Min(n, NTOA_BUFFER) - |buf|)
  }

  function Padded(buf: string, prec: nat, width: nat, f: Flags): string {
    if Left in f then buf
    else
      var b := ZeroExtend(buf, prec);
      if Zero in f then ZeroExtend(b, width) else b
  }

  /** The trim that makes room for the '#' prefix. */
  function HashTrim(buf: string, base: nat, prec: nat, width: nat, f: Flags): string {
    if Precision !in f && buf != "" && (|buf| == prec || |buf| == width) then
      if base == 16 && |buf| > 1 then buf[..|buf| - 2] else buf[..|buf| - 1]
    else buf
  }

  function HashPrefix(b: string, base: nat, f: Flags): string {
    var c := if |b| < NTOA_BUFFER && base == 16 then b + [if Upper in f then 'X' else 'x']
             else if |b| < NTOA_BUFFER && base == 2 then b + ['b']
             else b;
    if |c| < NTOA_BUFFER then c + ['0'] else c
  }

  function HashMark(buf: string, base: nat, prec: nat, width: nat, f: Flags): string {
    if Hash in f then HashPrefix(HashTrim(buf, base, prec, width, f), base, f) else buf
  }

  function SignMark(buf: string, negative: bool, f: Flags): string {
    if |buf| >= NTOA_BUFFER then buf
    else if negative then buf + ['-']
    else if Plus in f then buf + ['+']
    else if Space in f then buf + [' ']
    else buf
  }

  function Reverse(s: string): (r: string)
    ensures |r| == |s|
  {
    if s == "" then "" else [s[|s| - 1]] + Reverse(s[..|s| - 1])
  }

  /** Emit a reversed buffer in a field of `width`. */
  function Field(buf: string, width: nat, f: Flags): string {
    (if Left !in f && Zero !in f then Fill(' ', width - |buf|) else "")
    + Reverse(buf)
    + (if Left in f then Fill(' ', width - |buf|) else "")
  }

  function FormatNumber(buf: string, negative: bool, base: nat, prec: nat, width: nat, f: Flags): string {
    var w := DigitWidth(width, negative, f);
    Field(SignMark(HashMark(Padded(buf, prec, w, f), base, prec, w, f), negative, f), w, f)
  }

  function Number(v: nat, negative: bool, base: nat, prec: nat, width: nat, f: Flags): string
    requires 2 <= base <= 16
  {
    var g := if v == 0 then f - {Hash} else f;
    FormatNumber(DigitBuffer(v, base, g), negative, base, prec, width, g)
  }

  // ---------- Directives ----------

  predicate IsFlag(c: char) { c in {'0', '-', '+', ' ', '#'} }

  function SetFlag(f: Flags, c: char): Flags {
    match c
    case '0' => f + {Zero}
    case '-' => f + {Left}
    case '+' => f + {Plus}
    case ' ' => f + {Space}
    case '#' => f + {Hash}
    case _ => f
  }

  function ScanFlags(s: string, f: Flags): (r: (Flags, string))
    ensures |r.1| <= |s|
  {
    if IsFlag(Peek(s)) then ScanFlags(s[1..], SetFlag(f, s[0])) else (f, s)
  }

  /** `_atoi`, continuing from `n`, in unsigned 32-bit arithmetic. */
  function ScanNumber(s: string, n: word): (r: (word, string))
    ensures |r.1| <= |s|
  {
    if IsDigit(Peek(s)) then ScanNumber(s[1..], (n * 10 + (s[0] as int - '0' as int)) % 0x1_0000_0000)
    else (n, s)
  }

  datatype Scan = Scan(value: word, flags: Flags, rest: string, args: seq<Arg>)

  predicate HasInt(args: seq<Arg>) {
    args != [] && args[0].Int?
  }

  function ScanWidth(s: string, f: Flags, args: seq<Arg>): (r: Option<Scan>)
    ensures r.Some? ==> |r.value.rest| <= |s|
  {
    if IsDigit(Peek(s)) then
      var (n, rest) := ScanNumber(s, 0);
      Some(Scan(n, f, rest, args))
    else if Peek(s) == '*' then
      if !HasInt(args) || args[0].bits == 0x8000_0000 then None
      else
        var w := Signed(args[0].bits);
        Some(if w < 0 then Scan(-w, f + {Left}, s[1..], args[1..]) else Scan(w, f, s[1..], args[1..]))
    else Some(Scan(0, f, s, args))
  }

  function ScanPrecision(s: string, f: Flags, args: seq<Arg>): (r: Option<Scan>)
    ensures r.Some? ==> |r.value.rest| <= |s|
    ensures r.Some? && Precision !in r.value.flags ==> r.value.value == 0
  {
    if Peek(s) != '.' then Some(Scan(0, f, s, args))
    else
      var t, g := s[1..], f + {Precision};
      if IsDigit(Peek(t)) then
        var (n, rest) := ScanNumber(t, 0);
        Some(Scan(n, g, rest, args))
      else if Peek(t) == '*' then
        if !HasInt(args) then None
        else
          var p := Signed(args[0].bits);
          Some(Scan(if p > 0 then p else 0, g, t[1..], args[1..]))
      else Some(Scan(0, g, t, args))
  }

  /** Length modifiers for 32-bit int, long and size_t, and 64-bit intmax_t. */
  function ScanLength(s: string, f: Flags): (r: (Flags, string))
    ensures |r.1| <= |s| && (Precision in r.0 <==> Precision in f)
  {
    match Peek(s)
    case 'l' => if Peek(s[1..]) == 'l' then (f + {Long} + {LongLong}, s[2..]) else (f + {Long}, s[1..])
    case 'h' => if Peek(s[1..]) == 'h' then (f + {Short} + {Char}, s[2..]) else (f + {Short}, s[1..])
    case 'j' => (f + {LongLong}, s[1..])
    case 'z' => (f + {Long}, s[1..])
    case _ => (f, s)
  }

  predicate IsInteger(c: char) { c in {'d', 'i', 'u', 'x', 'X', 'o', 'b'} }
  predicate IsSigned(c: char) { c == 'd' || c == 'i' }

  function Radix(c: char): nat {
    if c == 'x' || c == 'X' then 16 else if c == 'o' then 8 else if c == 'b' then 2 else 10
  }

  function IntegerFlags(c: char, f: Flags): Flags {
    var g := if Radix(c) == 10 then f - {Hash} else f;
    var h := if c == 'X' then g + {Upper} else g;
    var k := if IsSigned(c) then h else h - {Plus, Space};
    if Precision in k then k - {Zero} else k
  }

  /** The argument as `%d` sees it; plain char is unsigned on this target. */
  function SignedValue(bits: word, f: Flags): (v: int)
    ensures -0x8000_0000 <= v < 0x8000_0000
  {
    if Long in f then Signed(bits)
    else if Char in f then bits % 0x100
    else if Short in f then (if bits % 0x1_0000 < 0x8000 then bits % 0x1_0000 else bits % 0x1_0000 - 0x1_0000)
    else Signed(bits)
  }

  function UnsignedValue(bits: word, f: Flags): word {
    if Long in f then bits else if Char in f then bits % 0x100 else if Short in f then bits % 0x1_0000 else bits
  }

  function Abs(v: int): nat {
    if v > 0 then v else -v
  }

  /** What one integer conversion prints for the argument `bits`. */
  function IntegerText(c: char, f: Flags, width: nat, prec: nat, bits: word): string
    requires IsInteger(c)
  {
    var g := IntegerFlags(c, f);
    if IsSigned(c) then
      var v := SignedValue(bits, g);
      Number(Abs(v), v < 0, Radix(c), prec, width, g)
    else
      Number(UnsignedValue(bits, g), false, Radix(c), prec, width, g)
  }

  function StrLen(s: string): nat {
    if Peek(s) == '\0' then 0 else 1 + StrLen(s[1..])
  }

  function Shown(s: string, f: Flags, prec: nat): nat {
    if Precision in f then Min(StrLen(s), prec) else StrLen(s)
  }

  lemma StrLenBound(s: string)
    ensures StrLen(s) <= |s|
  {
  }

  /** Text in a field of `width`. */
  function Aligned(text: string, width: nat, f: Flags): string {
    if Left in f then text + Fill(' ', width - |text|) else Fill(' ', width - |text|) + text
  }

  datatype Converted = Converted(text: string, args: seq<Arg>)

  /** The conversion `c`; `None` if it would read an argument that is not there. */
  function Convert(c: char, f: Flags, width: nat, prec: nat, args: seq<Arg>): Option<Converted> {
    if IsInteger(c) then
      if LongLong in f then Some(Converted("", args))
      else if !HasInt(args) then None
      else if IsSigned(c) && SignedValue(args[0].bits, f) == -0x8000_0000 then None
      else Some(Converted(IntegerText(c, f, width, prec, args[0].bits), args[1..]))
    else if c == 'c' then
      if !HasInt(args) then None
      else Some(Converted(Aligned([(args[0].bits % 0x100) as char], width, f), args[1..]))
    else if c == 's' then
      if args == [] || !args[0].Str? then None
      else
        StrLenBound(args[0].text);
        Some(Converted(Aligned(args[0].text[..Shown(args[0].text, f, prec)], width, f), args[1..]))
    else if c == 'p' then
      if !HasInt(args) then None
      else Some(Converted(Number(args[0].bits, false, 16, prec, 8, f + {Zero, Upper}), args[1..]))
    else if c == '\0' then None
    else Some(Converted([c], args))
  }

  datatype Done = Done(text: string, rest: string, args: seq<Arg>)

  /** One directive, from just after its '%'. */
  function Directive(s: string, args: seq<Arg>): (r: Option<Done>)
    ensures r.Some? ==> |r.value.rest| < |s|
  {
    var (f0, s0) := ScanFlags(s, NO_FLAGS);
    match ScanWidth(s0, f0, args)
    case None => None
    case Some(w) =>
      match ScanPrecision(w.rest, w.flags, w.args)
      case None => None
      case Some(p) =>
        var (f, s1) := ScanLength(p.rest, p.flags);
        match Convert(Peek(s1), f, w.value, p.value, p.args)
        case None => None
        case Some(c) => if s1 == "" then None else Some(Done(c.text, s1[1..], c.args))
  }

  function Prepend(s: string, r: Option<string>): Option<string> {
    if r.Some? then Some(s + r.value) else None
  }

  /** Everything a format prints. */
  function Text(format: string, args: seq<Arg>): Option<string>
    decreases |format|
  {
    if Peek(format) == '\0' then Some("")
    else if format[0] != '%' then Prepend([format[0]], Text(format[1..], args))
    else
      match Directive(format[1..], args)
      case None => None
      case Some(d) => Prepend(d.text, Text(d.rest, d.args))
  }
}
