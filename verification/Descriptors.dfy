/** GET_DESCRIPTOR (src_stage2/usb.cpp): which descriptor wValue names, and the layout string over the wire. */
module Descriptors {
  import opened Base
  import opened Usb
  import opened Device
  import opened Runs
  import opened Enumeration
  import opened Layout

  /** A C string that fits the 100-byte descriptor buffer. */
  type Label = s: string | |s| <= 49 && forall i :: 0 <= i < |s| ==> '\0' < s[i] < '\U{0100}' witness ""

  /** The fixed data: two binary descriptors, three strings and the two memory sizes in KB. */
  datatype Table = Table(device: Response, configuration: Response,
                         manufacturer: Label, product: Label, serial: Label, bootKb: word, appKb: word)

  /** The two sector counts have at most five digits together, so the layout string fits. */
  predicate Printable(t: Table) {
    t.bootKb < 0x8000_0000 && t.appKb < 0x8000_0000 && |Decimal(t.bootKb / 4)| + |Decimal(t.appKb / 4)| <= 5
  }

  function StringOf(t: Table, index: nat): string {
    match index
    case 1 => t.manufacturer
    case 2 => t.product
    case 3 => t.serial
    case 4 => LayoutText(t.bootKb / 4, t.appKb / 4)
    case _ => ""
  }

  /** The descriptor for wValue: type in the high byte, index in the low byte. */
  function Describe(t: Table, value: u16): (r: Response)
    requires Printable(t)
  {
    match value / 256
    case 1 => t.device
    case 2 => t.configuration
    case 3 =>
      if value % 256 == 0 then [4, 3, 0x09, 0x04]
      else
        StringFits(t, value % 256);
        DescriptorLength(StringOf(t, value % 256));
        Descriptor(StringOf(t, value % 256))
    case _ => []
  }

  lemma StringFits(t: Table, index: nat)
    requires Printable(t)
    ensures |StringOf(t, index)| <= 49
  {
    LayoutLength(t.bootKb / 4, t.appKb / 4);
  }

  lemma {:induction false} Utf16Length(s: string)
    ensures |Utf16(s)| == 2 * |s|
    decreases |s|
  {
    if s != "" { Utf16Length(s[..|s| - 1]); }
  }

  lemma DescriptorLength(s: string)
    ensures |Descriptor(s)| == 2 + 2 * |s|
  {
    Utf16Length(s);
  }

  /** The GET_DESCRIPTOR branch: strings are built in the 100-byte buffer. */
  method GetDescriptor(t: Table, value: u16, sbuf: array<byte>) returns (r: Response)
    requires Printable(t) && sbuf.Length == 100
    modifies sbuf
    ensures r == Describe(t, value)
  {
    var kind, index := value / 256, value % 256;
    if kind == 1 {
      r := t.device;
    } else if kind == 2 {
      r := t.configuration;
    } else if kind == 3 {
      if index == 0 {
        sbuf[0], sbuf[1], sbuf[2], sbuf[3] := 4, 3, 0x09, 0x04;
        r := sbuf[..4];
      } else {
        var len := PutString(t, index, sbuf);
        r := sbuf[..len];
      }
    } else {
      r := [];
    }
  }

  method PutString(t: Table, index: nat, sbuf: array<byte>) returns (len: nat)
    requires Printable(t) && sbuf.Length == 100
    modifies sbuf
    ensures len <= 100 && sbuf[..len] == Descriptor(StringOf(t, index))
  {
    if index == 1 {
      len := BuildDescriptor(t.manufacturer, sbuf);
    } else if index == 2 {
      len := BuildDescriptor(t.product, sbuf);
    } else if index == 3 {
      len := BuildDescriptor(t.serial, sbuf);
    } else if index == 4 {
      len := DfuseDescriptor(t.bootKb, t.appKb, sbuf);
    } else {
      len := BuildDescriptor("", sbuf);
    }
  }

  // ---------- What a host makes of a string descriptor ----------

  /** A UTF-16 code unit, low byte first. */
  function Unit(low: byte, high: byte): char {
    var u := low as int + 0x100 * high as int;
    if 0 <= u < 0xD800 then u as char else '?'
  }

  function FromUtf16(b: seq<byte>): string {
    if |b| < 2 then "" else FromUtf16(b[..|b| - 2]) + [Unit(b[|b| - 2], b[|b| - 1])]
  }

  lemma UnitBack(c: char)
    requires c < '\U{0100}'
    ensures Unit(CharByte(c), 0) == c
  {
    ByteValue(c as int % 0x100);
  }

  lemma FromUtf16Snoc(b: seq<byte>, low: byte, high: byte)
    ensures FromUtf16(b + [low, high]) == FromUtf16(b) + [Unit(low, high)]
  {
    assert (b + [low, high])[..|b|] == b;
  }

  lemma {:induction false} Utf16Reads(s: string)
    requires forall i :: 0 <= i < |s| ==> s[i] < '\U{0100}'
    ensures FromUtf16(Utf16(s)) == s
    decreases |s|
  {
    if s != "" {
      var init, c := s[..|s| - 1], s[|s| - 1];
      Utf16Reads(init);
      UnitBack(c);
      FromUtf16Snoc(Utf16(init), CharByte(c), 0);
      assert s == init + [c];
    }
  }

  /** A string descriptor carries its own length, the type 3 and the string. */
  lemma DescriptorReads(s: string)
    requires |s| <= 49 && forall i :: 0 <= i < |s| ==> s[i] < '\U{0100}'
    ensures var d := Descriptor(s);
            |d| == 2 + 2 * |s| && d[0] as int == |d| && d[1] == 3 && FromUtf16(d[2..]) == s
  {
    DescriptorLength(s);
    DescriptorStart(s);
    Utf16Reads(s);
    assert Descriptor(s)[2..] == Utf16(s);
  }

  /** The strings a host reads under each index. */
  lemma StringsRead(t: Table)
    requires Printable(t)
    ensures FromUtf16(Describe(t, 0x0301)[2..]) == t.manufacturer
    ensures FromUtf16(Describe(t, 0x0302)[2..]) == t.product
    ensures FromUtf16(Describe(t, 0x0303)[2..]) == t.serial
    ensures Describe(t, 0x0300) == [4, 3, 0x09, 0x04]
    ensures Describe(t, 0x0100) == t.device && Describe(t, 0x0200) == t.configuration
  {
    OneString(t, 0x0301, 1, t.manufacturer);
    OneString(t, 0x0302, 2, t.product);
    OneString(t, 0x0303, 3, t.serial);
  }

  lemma OneString(t: Table, value: u16, index: nat, s: Label)
    requires Printable(t) && 0 < index < 256 && value == 0x0300 + index && StringOf(t, index) == s
    ensures |Describe(t, value)| >= 2 && FromUtf16(Describe(t, value)[2..]) == s
  {
    assert value / 256 == 3 && value % 256 == index;
    DescriptorReads(s);
  }

  lemma LayoutIsLatin(boot: nat, app: nat)
    ensures forall i :: 0 <= i < |LayoutText(boot, app)| ==> LayoutText(boot, app)[i] < '\U{0100}'
  {
    DecimalReads(boot);
    DecimalReads(app);
    HeadingIsLatin();
  }

  lemma HeadingIsLatin()
    ensures forall i :: 0 <= i < |HEADING| ==> HEADING[i] < '\U{0100}'
  {
  }

  /** What the bytes `d` say to a DfuSe host: a string descriptor whose text is a layout of two segments. */
  ghost predicate ShowsLayout(d: seq<byte>, boot: nat, app: nat) {
    && |d| >= 2 && d[0] as int == |d| && d[1] == 3
    && ParseLayout(FromUtf16(d[2..])) == Some((0, [Segment(boot, 4096, 'a'), Segment(app, 4096, 'g')]))
  }

  /**
   The memory layout over the wire: a host that reads string descriptor 4 to its end gets a descriptor whose
   length byte is its length and whose text parses to the two segments, from address 0, that `SegmentsTile`
   shows to tile flash with the boundary at the application's address.
   */
  lemma LayoutOverUsb(env: Env, ss: seq<Sys>, es: seq<Event>, os: seq<Output>, i: nat, j: nat,
                      t: Table, boot: nat, app: nat)
    requires Printable(t) && t.bootKb == 4 * boot && t.appKb == 4 * app
    requires Run(env, ss, es, os) && i < j <= |es| && Undisturbed(es, i + 1, j) && ss[j].usb.phase == Idle
    requires es[i].SetupToken? && Standard(es[i].setup) && ToHost(es[i].setup) && es[i].setup.length >= 100
    requires es[i].setup.request == 6 && es[i].setup.value == 0x0304
    requires env.descriptors(es[i].setup.value) == Describe(t, es[i].setup.value)
    ensures ShowsLayout(Payload(Armed(os, i, j)), boot, app)
  {
    DescribedShows(t, es[i].setup.value, boot, app);
    WholeRead(env, ss, es, os, i, j, env.descriptors(es[i].setup.value), boot, app);
  }

  lemma WholeRead(env: Env, ss: seq<Sys>, es: seq<Event>, os: seq<Output>, i: nat, j: nat,
                  d: seq<byte>, boot: nat, app: nat)
    requires Run(env, ss, es, os) && i < j <= |es| && Undisturbed(es, i + 1, j) && ss[j].usb.phase == Idle
    requires es[i].SetupToken? && Standard(es[i].setup) && ToHost(es[i].setup) && es[i].setup.length >= 100
    requires es[i].setup.request == 6 && env.descriptors(es[i].setup.value) == d
    requires |d| <= 100 && ShowsLayout(d, boot, app)
    ensures ShowsLayout(Payload(Armed(os, i, j)), boot, app)
  {
    WholeDescriptor(env, ss, es, os, i, j, d);
  }

  lemma DescribedShows(t: Table, value: u16, boot: nat, app: nat)
    requires Printable(t) && t.bootKb == 4 * boot && t.appKb == 4 * app && value == 0x0304
    ensures ShowsLayout(Describe(t, value), boot, app) && |Describe(t, value)| <= 100
  {
    LayoutDescribed(t, value, boot, app);
    LayoutDescriptorReads(t, boot, app);
  }

  lemma LayoutDescribed(t: Table, value: u16, boot: nat, app: nat)
    requires Printable(t) && boot == t.bootKb / 4 && app == t.appKb / 4 && value == 0x0304
    ensures Describe(t, value) == Descriptor(LayoutText(boot, app)) && |Describe(t, value)| <= 100
  {
    var index := value % 256;
    assert value / 256 == 3 && index == 4;
    StringFits(t, index);
    DescriptorLength(StringOf(t, index));
  }

  lemma LayoutDescriptorReads(t: Table, boot: nat, app: nat)
    requires Printable(t) && boot == t.bootKb / 4 && app == t.appKb / 4
    ensures ShowsLayout(Descriptor(LayoutText(boot, app)), boot, app)
  {
    LayoutLength(boot, app);
    LayoutIsLatin(boot, app);
    DescriptorReads(LayoutText(boot, app));
    LayoutReads(boot, app);
  }
}
