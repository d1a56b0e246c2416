/** The DfuSe memory-layout string and its descriptor (src_stage2/usb.cpp). */
module Layout {
  import opened Base
  import opened Printf
  import opened PrintfCode
  import opened PrintfRoundTrip

  const HEADING: string := "@Internal Flash  /0x00000000/"

  /** The two segments of the format, taken apart at their directives. */
  const SECOND: string := "%d" + ("*" + ("%04d" + ("Kg" + "")))
  const FIRST: string := "%d" + ("*" + ("%04d" + ("Ka," + SECOND)))

  lemma FormatParts()
    ensures HEADING + FIRST == "@Internal Flash  /0x00000000/%d*%04dKa,%d*%04dKg"
  {
    assert SECOND == "%d*%04dKg";
    assert FIRST == "%d*%04dKa,%d*%04dKg";
  }

  function Decimal(n: nat): string {
    Reverse(Digits(n, 10, false))
  }

  /** The layout string for `boot` and `app` sectors of 4 KB. */
  function LayoutText(boot: nat, app: nat): string {
    HEADING + (Decimal(boot) + ("*0004Ka," + (Decimal(app) + "*0004Kg")))
  }

  /** Sector counts and sizes, in the order the format takes them. */
  function LayoutArgs(boot: word, app: word): seq<Arg> {
    [Int(boot)] + ([Int(4)] + ([Int(app)] + ([Int(4)] + [])))
  }

  // ---------- What the format prints ----------

  ghost predicate Plain(s: string) {
    forall i :: 0 <= i < |s| ==> s[i] != '%' && s[i] != '\0'
  }

  lemma {:induction false} PlainText(lit: string, rest: string, args: seq<Arg>)
    requires Plain(lit)
    ensures Text(lit + rest, args) == Prepend(lit, Text(rest, args))
    decreases |lit|
  {
    if lit == "" {
      assert lit + rest == rest;
      assert Text(rest, args).Some? ==> "" + Text(rest, args).value == Text(rest, args).value;
    } else {
      PlainText(lit[1..], rest, args);
      assert (lit + rest)[1..] == lit[1..] + rest;
      if Text(rest, args).Some? { Regroup([lit[0]], lit[1..], Text(rest, args).value); }
      assert [lit[0]] + lit[1..] == lit;
    }
  }

  lemma DecimalDirective(rest: string, n: word, args: seq<Arg>)
    requires n < 0x8000_0000
    ensures Text("%d" + rest, [Int(n)] + args) == Prepend(Decimal(n), Text(rest, args))
  {
    var s, t := "%d" + rest, "d" + rest;
    assert s[0] == '%' && s[1..] == t;
    PlainDirective(t, 'd', rest, [Int(n)] + args, Converted(Decimal(n), args)) by {
      assert t[0] == 'd' && ([Int(n)] + args)[1..] == args;
      DecimalField(n);
    }
  }

  /** A directive that is just a conversion. */
  lemma PlainDirective(s: string, c: char, rest: string, args: seq<Arg>, r: Converted)
    requires s == [c] + rest && !IsFlag(c) && !IsDigit(c) && c !in {'*', '.', 'l', 'h', 'j', 'z', '\0'}
    requires Convert(c, NO_FLAGS, 0, 0, args) == Some(r)
    ensures Directive(s, args) == Some(Done(r.text, rest, r.args))
  {
    assert s[0] == c && s[1..] == rest;
  }

  lemma DecimalConversion(f: Flags, width: nat, n: word)
    requires Hash !in f && Precision !in f && Short !in f && Char !in f && n < 0x8000_0000
    ensures IntegerText('d', f, width, 0, n) == Number(n, false, 10, 0, width, f)
  {
    assert f - {Hash} == f;
    assert IntegerFlags('d', f) == f;
  }

  lemma DecimalField(n: word)
    requires n < 0x8000_0000
    ensures IntegerText('d', {}, 0, 0, n) == Decimal(n)
  {
    var f: Flags := {};
    DecimalConversion(f, 0, n);
    assert f - {Hash} == f;
    var d := Digits(n, 10, false);
    assert Fill('0', -1) == "" && d + "" == d && "" + Reverse(d) + "" == Reverse(d);
  }

  lemma FourScanned(rest: string)
    ensures ScanFlags("04d" + rest, NO_FLAGS) == ({Zero}, "4d" + rest)
    ensures ScanNumber("4d" + rest, 0) == (4, "d" + rest)
  {
    var t, u, v := "04d" + rest, "4d" + rest, "d" + rest;
    assert t[0] == '0' && t[1..] == u;
    assert u[0] == '4' && u[1..] == v;
    assert v[0] == 'd';
    assert NO_FLAGS + {Zero} == {Zero};
  }

  /** A directive made of flags, a width and a conversion. */
  lemma WidthDirective(s: string, f: Flags, s0: string, n: word, c: char, rest: string, args: seq<Arg>, r: Converted)
    requires ScanFlags(s, NO_FLAGS) == (f, s0) && IsDigit(Peek(s0)) && ScanNumber(s0, 0) == (n, [c] + rest)
    requires c !in {'.', 'l', 'h', 'j', 'z', '\0'} && Convert(c, f, n, 0, args) == Some(r)
    ensures Directive(s, args) == Some(Done(r.text, rest, r.args))
  {
    var t := [c] + rest;
    assert t[0] == c && t[1..] == rest;
  }

  lemma FourDone(rest: string, args: seq<Arg>)
    ensures Directive("04d" + rest, [Int(4)] + args) == Some(Done("0004", rest, args))
  {
    FourScanned(rest);
    FourConverted({Zero}, args);
    WidthDirective("04d" + rest, {Zero}, "4d" + rest, 4, 'd', rest, [Int(4)] + args, Converted("0004", args));
  }

  lemma FourConverted(f: Flags, args: seq<Arg>)
    requires f == {Zero}
    ensures Convert('d', f, 4, 0, [Int(4)] + args) == Some(Converted("0004", args))
  {
    FourField();
    assert ([Int(4)] + args)[1..] == args;
  }

  lemma FourDirective(rest: string, args: seq<Arg>)
    ensures Text("%04d" + rest, [Int(4)] + args) == Prepend("0004", Text(rest, args))
  {
    var s := "%04d" + rest;
    assert s[0] == '%' && s[1..] == "04d" + rest;
    FourDone(rest, args);
  }

  lemma PaddedToWidth(d: string, w: nat, f: Flags)
    requires Zero in f && Left !in f && |d| <= w <= 32
    ensures Padded(d, 0, w, f) == d + Fill('0', w - |d|)
  {
    PaddedIsZeros(d, 0, w, f);
    assert Zeros(|d|, 0, w, f) == w - |d|;
  }

  /** With zero padding and no sign, the field is the padded buffer reversed. */
  lemma BareField(d: string, p: string, w: nat, f: Flags)
    requires Zero in f && Left !in f && Plus !in f && Space !in f && Hash !in f && p == Padded(d, 0, w, f)
    ensures FormatNumber(d, false, 10, 0, w, f) == Reverse(p)
  {
    var r := Reverse(p);
    assert "" + r + "" == r;
  }

  lemma FourDigit()
    ensures Digits(4, 10, false) == "4" && Reverse("4") == "4"
  {
  }

  lemma FourPadded(f: Flags)
    requires f == {Zero}
    ensures Reverse(Padded("4", 0, 4, f)) == "0004"
  {
    FourDigit();
    PaddedToWidth("4", 4, f);
    PaddedReversed("4", 3);
    assert Fill('0', 3) == "000" && "000" + "4" == "0004";
  }

  lemma FourNumber(f: Flags)
    requires f == {Zero}
    ensures Number(4, false, 10, 0, 4, f) == "0004"
  {
    FourDigit();
    FourPadded(f);
    BareField("4", Padded("4", 0, 4, f), 4, f);
  }

  lemma FourField()
    ensures IntegerText('d', {Zero}, 4, 0, 4) == "0004"
  {
    var f: Flags := {Zero};
    DecimalConversion(f, 4, 4);
    FourNumber(f);
  }

  lemma SegmentPrinted(n: word, unit: string, rest: string, args: seq<Arg>, t: string)
    requires n < 0x8000_0000 && Plain(unit) && Text(rest, args) == Some(t)
    ensures Text("%d" + ("*" + ("%04d" + (unit + rest))), [Int(n)] + ([Int(4)] + args)) ==
            Some(Decimal(n) + ("*" + ("0004" + (unit + t))))
  {
    PlainText(unit, rest, args);
    FourDirective(unit + rest, args);
    PlainText("*", "%04d" + (unit + rest), [Int(4)] + args);
    DecimalDirective("*" + ("%04d" + (unit + rest)), n, [Int(4)] + args);
  }

  lemma Stars(d: string, t: string)
    ensures "*" + ("0004" + ("Kg" + "")) == "*0004Kg"
    ensures "*" + ("0004" + ("Ka," + t)) == "*0004Ka," + t
  {
  }

  lemma SegmentsPrinted(boot: word, app: word)
    requires boot < 0x8000_0000 && app < 0x8000_0000
    ensures Text(FIRST, LayoutArgs(boot, app)) ==
            Some(Decimal(boot) + ("*0004Ka," + (Decimal(app) + "*0004Kg")))
  {
    var t2 := Decimal(app) + ("*" + ("0004" + ("Kg" + "")));
    SegmentPrinted(app, "Kg", "", [], "");
    var args: seq<Arg> := [Int(app)] + ([Int(4)] + []);
    SegmentPrinted(boot, "Ka,", SECOND, args, t2);
    Stars(Decimal(app), t2);
  }

  lemma HeadingPlain()
    ensures Plain(HEADING) && |HEADING| == 29
  {
  }

  lemma AfterHeading(heading: string, rest: string, args: seq<Arg>, t: string)
    requires Plain(heading) && Text(rest, args) == Some(t)
    ensures Text(heading + rest, args) == Some(heading + t)
  {
    PlainText(heading, rest, args);
  }

  /** The format string prints exactly the layout, for any sector counts. */
  lemma LayoutPrinted(boot: word, app: word)
    requires boot < 0x8000_0000 && app < 0x8000_0000
    ensures Text(HEADING + FIRST, LayoutArgs(boot, app)) == Some(LayoutText(boot, app))
  {
    HeadingPlain();
    SegmentsPrinted(boot, app);
    AfterHeading(HEADING, FIRST, LayoutArgs(boot, app), Decimal(boot) + ("*0004Ka," + (Decimal(app) + "*0004Kg")));
  }

  // ---------- What a host reads ----------

  /** `count` sectors of `size` bytes with the access letter `kind`. */
  datatype Segment = Segment(count: nat, size: nat, kind: char)

  function Span(s: string): (n: nat)
    ensures n <= |s|
  {
    if s != "" && IsDigit(s[0]) then 1 + Span(s[1..]) else 0
  }

  /** `<count>*<size><unit><kind>`, as DfuSe hosts read it. */
  function ParseSegment(s: string): (r: Option<(Segment, string)>)
    ensures r.Some? ==> |r.value.1| < |s|
  {
    var n := Span(s);
    if n == 0 || n == |s| || s[n] != '*' then None
    else
      var t := s[n + 1..];
      var m := Span(t);
      if m == 0 || |t| < m + 2 || t[m] !in {'B', 'K', 'M'} then None
      else
        var unit := match t[m] case 'K' => 1024 case 'M' => 1024 * 1024 case _ => 1;
        Some((Segment(Value(s[..n], 10), Value(t[..m], 10) * unit, t[m + 1]), t[m + 2..]))
  }

  function ParseSegments(s: string): Option<seq<Segment>>
    decreases |s|
  {
    match ParseSegment(s)
    case None => None
    case Some((seg, rest)) =>
      if rest == "" then Some([seg])
      else if rest[0] != ',' then None
      else
        match ParseSegments(rest[1..])
        case None => None
        case Some(segs) => Some([seg] + segs)
  }

  /** Index of the first `c`, or the length if there is none. */
  function IndexOf(s: string, c: char): (n: nat)
    ensures n <= |s|
  {
    if s == "" || s[0] == c then 0 else 1 + IndexOf(s[1..], c)
  }

  /** `<start>/<segments>` */
  function ParseBody(t: string): Option<(nat, seq<Segment>)> {
    var h := IndexOf(t, '/');
    if h == |t| then None
    else
      match ParseSegments(t[h + 1..])
      case None => None
      case Some(segs) => Some((Value(t[..h], 16), segs))
  }

  /** `@<name>/0x<start>/<segments>` */
  function ParseLayout(s: string): Option<(nat, seq<Segment>)> {
    var k := IndexOf(s, '/');
    if s == "" || s[0] != '@' || |s| < k + 3 || s[k + 1..k + 3] != "0x" then None
    else ParseBody(s[k + 3..])
  }

  lemma {:induction false} SpanAll(s: string, tail: string)
    requires AllDecimal(s) && !IsDigit(Peek(tail))
    ensures Span(s + tail) == |s|
    decreases |s|
  {
    if s == "" {
      assert s + tail == tail;
    } else {
      SpanAll(s[1..], tail);
      assert (s + tail)[1..] == s[1..] + tail;
    }
  }

  lemma {:induction false} IndexAfter(s: string, c: char, tail: string)
    requires c !in s
    ensures IndexOf(s + ([c] + tail), c) == |s|
    decreases |s|
  {
    if s == "" {
      assert s + ([c] + tail) == [c] + tail;
    } else {
      IndexAfter(s[1..], c, tail);
      assert (s + ([c] + tail))[1..] == s[1..] + ([c] + tail);
    }
  }

  lemma DecimalReads(n: nat)
    ensures AllDecimal(Decimal(n)) && Value(Decimal(n), 10) == n && Decimal(n) != ""
  {
    DecimalDigits(n, false);
    ReverseDecimal(Digits(n, 10, false));
    DigitsRead(n, 10, false);
  }

  lemma SegmentReads(d: string, kind: char, rest: string)
    requires AllDecimal(d) && d != ""
    ensures ParseSegment(d + ("*0004K" + ([kind] + rest))) == Some((Segment(Value(d, 10), 4096, kind), rest))
  {
    var tail := "*0004K" + ([kind] + rest);
    var s := d + tail;
    SpanAll(d, tail);
    assert s[..|d|] == d && s[|d|] == '*';
    var t := s[|d| + 1..];
    assert t == "0004" + ("K" + ([kind] + rest));
    SpanAll("0004", "K" + ([kind] + rest));
    assert t[..4] == "0004" && t[4] == 'K' && t[5] == kind && t[6..] == rest;
    FourReads();
  }

  lemma FourReads()
    ensures Value("0004", 10) == 4
  {
    LeadingZeros(3, "4", 10);
    assert Fill('0', 3) + "4" == "0004";
    assert "4" == "" + ['4'];
    ValueSnoc("", '4', 10);
  }

  lemma SecondRead(d: string)
    requires AllDecimal(d) && d != ""
    ensures ParseSegments(d + "*0004Kg") == Some([Segment(Value(d, 10), 4096, 'g')])
  {
    assert "*0004Kg" == "*0004K" + (['g'] + "");
    SegmentReads(d, 'g', "");
    LastSegment(d + "*0004Kg", Segment(Value(d, 10), 4096, 'g'));
  }

  lemma FirstRead(s: string, d: string, second: string, segs: seq<Segment>)
    requires s == d + ("*0004K" + (['a'] + ("," + second)))
    requires AllDecimal(d) && d != "" && ParseSegments(second) == Some(segs)
    ensures ParseSegments(s) == Some([Segment(Value(d, 10), 4096, 'a')] + segs)
  {
    SegmentReads(d, 'a', "," + second);
    EarlierSegment(s, Segment(Value(d, 10), 4096, 'a'), second, segs);
  }

  lemma Comma(second: string)
    ensures "*0004Ka," + second == "*0004K" + (['a'] + ("," + second))
  {
  }

  lemma SegmentsRead(boot: nat, app: nat)
    ensures ParseSegments(Decimal(boot) + ("*0004Ka," + (Decimal(app) + "*0004Kg"))) ==
            Some([Segment(boot, 4096, 'a'), Segment(app, 4096, 'g')])
  {
    DecimalReads(boot);
    DecimalReads(app);
    SecondRead(Decimal(app));
    var second := Decimal(app) + "*0004Kg";
    Comma(second);
    FirstRead(Decimal(boot) + ("*0004Ka," + second), Decimal(boot), second, [Segment(app, 4096, 'g')]);
    var a, g := Segment(boot, 4096, 'a'), Segment(app, 4096, 'g');
    assert [a] + [g] == [a, g];
  }

  lemma LastSegment(s: string, seg: Segment)
    requires ParseSegment(s) == Some((seg, ""))
    ensures ParseSegments(s) == Some([seg])
  {
  }

  lemma EarlierSegment(s: string, seg: Segment, rest: string, segs: seq<Segment>)
    requires ParseSegment(s) == Some((seg, "," + rest)) && ParseSegments(rest) == Some(segs)
    ensures ParseSegments(s) == Some([seg] + segs)
  {
    assert ("," + rest)[0] == ',' && ("," + rest)[1..] == rest;
  }

  lemma AfterName(s: string, name: string, t: string)
    requires '/' !in name && name != "" && name[0] == '@' && s == name + (['/'] + ("0x" + t))
    ensures ParseLayout(s) == ParseBody(t)
  {
    IndexAfter(name, '/', "0x" + t);
    assert s[|name| + 1..|name| + 3] == "0x" && s[|name| + 3..] == t;
  }

  lemma AfterStart(t: string, zeros: string, body: string, segs: seq<Segment>)
    requires '/' !in zeros && t == zeros + (['/'] + body) && ParseSegments(body) == Some(segs)
    ensures ParseBody(t) == Some((Value(zeros, 16), segs))
  {
    IndexAfter(zeros, '/', body);
    assert t[..|zeros|] == zeros && t[|zeros| + 1..] == body;
  }

  lemma HeadingParts(body: string)
    ensures HEADING + body == "@Internal Flash  " + (['/'] + ("0x" + ("00000000" + (['/'] + body))))
  {
    assert HEADING == "@Internal Flash  " + "/0x" + "00000000" + "/";
  }

  lemma NamePlain()
    ensures '/' !in "@Internal Flash  " && '/' !in "00000000"
  {
  }

  lemma ZeroStart()
    ensures Value("00000000", 16) == 0
  {
    LeadingZeros(8, "", 16);
    assert Fill('0', 8) + "" == "00000000";
  }

  /** The layout string reads back as a bootloader segment and an application segment from address 0. */
  lemma LayoutReads(boot: nat, app: nat)
    ensures ParseLayout(LayoutText(boot, app)) == Some((0, [Segment(boot, 4096, 'a'), Segment(app, 4096, 'g')]))
  {
    var body := Decimal(boot) + ("*0004Ka," + (Decimal(app) + "*0004Kg"));
    var t := "00000000" + (['/'] + body);
    HeadingParts(body);
    NamePlain();
    AfterName(LayoutText(boot, app), "@Internal Flash  ", t);
    SegmentsRead(boot, app);
    AfterStart(t, "00000000", body, [Segment(boot, 4096, 'a'), Segment(app, 4096, 'g')]);
    ZeroStart();
  }

  /** First address after each segment of a layout. */
  function Ends(start: nat, segs: seq<Segment>): seq<nat>
    decreases |segs|
  {
    if segs == [] then []
    else
      var end := start + segs[0].count * segs[0].size;
      [end] + Ends(end, segs[1..])
  }

  lemma EndsOfTwo(b: nat, a: nat)
    ensures Ends(0, [Segment(b, 4096, 'a'), Segment(a, 4096, 'g')]) == [4096 * b, 4096 * b + 4096 * a]
  {
    var boot, app := Segment(b, 4096, 'a'), Segment(a, 4096, 'g');
    assert [boot, app][1..] == [app] && [app][1..] == [];
    assert Ends(4096 * b, [app]) == [4096 * b + 4096 * a] + Ends(4096 * b + 4096 * a, []);
  }

  /**
   For sizes in whole sectors the two segments that `LayoutReads` finds tile flash from 0 to flash_end with
   the boundary at the application's address, as the two stages compute those from the sizes in KB.
   */
  lemma SegmentsTile(boot: nat, app: nat, bootKb: nat, appKb: nat)
    requires bootKb == 4 * boot && appKb == 4 * app
    ensures Ends(0, [Segment(boot, 4096, 'a'), Segment(app, 4096, 'g')]) == [bootKb * 1024, (bootKb + appKb) * 1024]
    ensures bootKb == 16 && appKb == 240 ==> bootKb * 1024 == APP_ADDRESS && (bootKb + appKb) * 1024 == FLASH_END
  {
    EndsOfTwo(boot, app);
  }

  // ---------- The descriptor ----------

  function CharByte(c: char): byte {
    (c as int % 0x100) as byte
  }

  function Utf16(s: string): seq<byte> {
    if s == "" then [] else Utf16(s[..|s| - 1]) + [CharByte(s[|s| - 1]), 0]
  }

  /** The length byte for `n` characters, in 8-bit arithmetic. */
  function LengthByte(n: nat): byte {
    ((2 + (n % 0x100) * 2) % 0x100) as byte
  }

  /** A string descriptor; its first byte is meant to be its length. */
  function Descriptor(s: string): seq<byte> {
    [LengthByte(|s|), 3] + Utf16(s)
  }

  /** One UTF-16 code unit, little-endian. */
  method PutPair(sbuf: array<byte>, at: nat, b: byte)
    requires at + 2 <= sbuf.Length
    modifies sbuf
    ensures sbuf[..at + 2] == old(sbuf[..at]) + [b, 0]
    ensures forall k :: at + 2 <= k < sbuf.Length ==> sbuf[k] == old(sbuf[k])
  {
    sbuf[at] := b;
    sbuf[at + 1] := 0;
  }

  /** Build the descriptor of a C string in place. */
  method BuildDescriptor(s: string, sbuf: array<byte>) returns (len: nat)
    requires 2 + 2 * |s| <= sbuf.Length
    modifies sbuf
    ensures len == 2 + 2 * |s| && sbuf[..len] == Descriptor(s)
    ensures forall k :: len <= k < sbuf.Length ==> sbuf[k] == old(sbuf[k])
  {
    sbuf[0] := LengthByte(|s|);
    sbuf[1] := 3;
    len := 2;
    for i := 0 to |s|
      invariant len == 2 + 2 * i && sbuf[..len] == [LengthByte(|s|), 3] + Utf16(s[..i])
      invariant forall k :: len <= k < sbuf.Length ==> sbuf[k] == old(sbuf[k])
    {
      PutPair(sbuf, len, CharByte(s[i]));
      Utf16Step([LengthByte(|s|), 3], s, i);
      len := len + 2;
    }
    assert s[..|s|] == s;
  }

  lemma Utf16Step(head: seq<byte>, s: string, i: nat)
    requires i < |s|
    ensures head + Utf16(s[..i + 1]) == head + Utf16(s[..i]) + [CharByte(s[i]), 0]
  {
    assert s[..i + 1][..i] == s[..i];
    assert head + (Utf16(s[..i]) + [CharByte(s[i]), 0]) == head + Utf16(s[..i]) + [CharByte(s[i]), 0];
  }

  lemma LayoutLength(boot: nat, app: nat)
    ensures |LayoutText(boot, app)| == 44 + |Decimal(boot)| + |Decimal(app)|
  {
    HeadingPlain();
  }

  lemma LayoutHasNoNul(boot: nat, app: nat)
    ensures '\0' !in LayoutText(boot, app)
  {
    DecimalReads(boot);
    DecimalReads(app);
    HeadingPlain();
  }

  /**
   Descriptor 4: print the layout into the 60-byte string with count 59, then build the descriptor.
   With at most five digits in the two counts together nothing is truncated, the descriptor fits the
   100-byte buffer, and its length byte is the length sent.
   */
  method DfuseDescriptor(bootKb: word, appKb: word, sbuf: array<byte>) returns (len: nat)
    requires sbuf.Length == 100 && bootKb < 0x8000_0000 && appKb < 0x8000_0000
    requires |Decimal(bootKb / 4)| + |Decimal(appKb / 4)| <= 5
    modifies sbuf
    ensures len <= 100 && sbuf[0] as int == len
    ensures sbuf[..len] == Descriptor(LayoutText(bootKb / 4, appKb / 4))
  {
    var str := new char[60];
    var boot, app := bootKb / 4, appKb / 4;
    ghost var before := str[..];
    LayoutPrinted(boot, app);
    LayoutLength(boot, app);
    var n := Snprintf(str, 59, HEADING + FIRST, LayoutArgs(boot, app));
    ghost var text := LayoutText(boot, app);
    LayoutHasNoNul(boot, app);
    assert text[..n] == text && str[..] == text + ['\0'] + before[n + 1..];
    Terminated(text, before[n + 1..]);
    n := StrNLen(str[..], None);
    assert str[..n] == text;
    len := BuildDescriptor(str[..n], sbuf);
    DescriptorStart(text);
  }

  lemma {:induction false} Terminated(t: string, rest: string)
    requires '\0' !in t
    ensures StrLen(t + ['\0'] + rest) == |t|
    decreases |t|
  {
    var s := t + ['\0'] + rest;
    if t != "" {
      Terminated(t[1..], rest);
      assert s[1..] == t[1..] + ['\0'] + rest;
    }
  }

  lemma DescriptorStart(s: string)
    requires |s| <= 49
    ensures Descriptor(s)[0] as int == 2 + 2 * |s|
  {
    LengthByteFits(|s|);
  }

  lemma LengthByteFits(n: nat)
    requires n <= 49
    ensures LengthByte(n) as int == 2 + 2 * n
  {
    var x := (2 + (n % 0x100) * 2) % 0x100;
    assert x == 2 + 2 * n;
    assert (x as byte) as int == x;
  }
}
