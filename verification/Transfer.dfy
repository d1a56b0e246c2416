/** What a conforming DFU host puts on the bus, and what one exchange does to the engine and the flash. */
module Transfer {
  import opened Base
  import opened Dfu
  import opened Usb
  import opened Device
  import opened Runs

  /** A DNLOAD payload: 1 to 4096 bytes. */
  type Chunk = s: seq<byte> | 1 <= |s| <= 4096 witness [0]

  /** Anything but a SETUP that resets the device or opens a data stage for the engine. */
  predicate Harmless(e: Event) {
    !AsksForReset(e) && !(OpensOutStage(e) && e.setup.request == DNLOAD)
  }

  predicate IsInterlude(es: seq<Event>) {
    && es != [] && (es[0].SetupToken? || es[0].BusReset?)
    && forall i :: 0 <= i < |es| ==> Harmless(es[i])
  }

  /**
   Other traffic: control transfers (finished or not) and bus resets, in any number and with any tokens
   after them. Enumeration, GETSTATE, CLRSTATUS, ABORT and every standard request are such traffic.
   */
  type Interlude = es: seq<Event> | IsInterlude(es) witness [BusReset]

  /** A DNLOAD followed by a GETSTATUS, a GETSTATUS alone, or other traffic. */
  datatype Item = Download(block: u16, data: Chunk) | Poll | Aside(events: Interlude)

  const GET_STATUS := Setup(0xA1, 3, 0, 0, 6)

  function Dnload(block: u16, data: Chunk): Setup {
    Setup(0x21, 1, block, 0, |data|)
  }

  function PacketCount(data: Chunk): nat {
    (|data| + 63) / 64
  }

  function PacketOf(data: Chunk, k: nat): Packet
    requires k < PacketCount(data)
  {
    data[64 * k..Min(64 * k + 64, |data|)]
  }

  function OutEvents(data: Chunk): seq<Event> {
    seq(PacketCount(data), k requires 0 <= k < PacketCount(data) => OutToken(0, PacketOf(data, k)))
  }

  const POLL_EVENTS: seq<Event> := [SetupToken(GET_STATUS), InToken(0), OutToken(0, [])]

  function ItemEvents(t: Item): seq<Event> {
    match t
    case Poll => POLL_EVENTS
    case Aside(es) => es
    case Download(block, data) =>
      [SetupToken(Dnload(block, data))] + OutEvents(data) + [InToken(0)] + POLL_EVENTS
  }

  // ---------- The DNLOAD half ----------

  /** The engine as the DNLOAD request leaves it. */
  function Opened(d: Dfu, block: u16): Dfu {
    d.(state := DnloadSync, status := Ok, block := block)
  }

  /** The engine before a GETSTATUS that left it as `d`. */
  function Unpolled(d: Dfu): Dfu {
    d.(state := if d.status == Ok then DnloadSync else Error)
  }

  /** `es` begins with a DNLOAD of `data`: the request, then the data in 64-byte packets. */
  ghost predicate BeginsDownload(es: seq<Event>, block: u16, data: Chunk) {
    && PacketCount(data) < |es|
    && es[0] == SetupToken(Dnload(block, data))
    && forall k: nat :: k < PacketCount(data) ==> es[k + 1] == OutToken(0, PacketOf(data, k))
  }

  lemma OpenDownload(env: Env, ss: seq<Sys>, es: seq<Event>, os: seq<Output>, block: u16, data: Chunk)
    requires Run(env, ss, es, os) && BeginsDownload(es, block, data)
    ensures Reassembling(ss[1].usb, Dnload(block, data), [])
    ensures ss[1].dfu == Opened(ss[0].dfu, block) && ss[1].flash == ss[0].flash
    ensures os[0].delivered == None
  {
    assert Turned(env, ss, es, os, 0);
  }

  /** An OUT packet inside a data stage either leaves engine and flash alone or hands the stream over. */
  lemma PacketTurn(env: Env, ss: seq<Sys>, es: seq<Event>, os: seq<Output>, k: nat,
                   q: Setup, sent: seq<byte>, p: Packet)
    requires Run(env, ss, es, os) && k < |es| && es[k] == OutToken(0, p) && q.request == DNLOAD
    requires Reassembling(ss[k].usb, q, sent)
    ensures if ss[k + 1].usb.phase == DataOut then
              && Reassembling(ss[k + 1].usb, q, sent + p)
              && ss[k + 1].dfu == ss[k].dfu && ss[k + 1].flash == ss[k].flash && os[k].delivered == None
            else
              && ss[k + 1].usb.phase == Idle
              && os[k].delivered == Some(Take4096(sent + p))
              && DataStep(env.healthy, ss[k].dfu, ss[k].flash, Take4096(sent + p), ss[k + 1].dfu, ss[k + 1].flash)
    ensures ss[k + 1].usb.phase == DataOut <==> |p| == 64 && (q.length - |sent| - |p|) % 0x1_0000 != 0
  {
    assert Turned(env, ss, es, os, k);
    OutPacket(ss[k].usb, q, sent, p);
    CountDown(q.length - |sent|, |p|);
  }

  /** Before the last packet nothing has reached the engine. */
  lemma {:induction false} Packets(env: Env, ss: seq<Sys>, es: seq<Event>, os: seq<Output>,
                                   block: u16, data: Chunk, k: nat)
    requires Run(env, ss, es, os) && BeginsDownload(es, block, data) && k < PacketCount(data)
    ensures Reassembling(ss[k + 1].usb, Dnload(block, data), data[..64 * k])
    ensures ss[k + 1].dfu == Opened(ss[0].dfu, block) && ss[k + 1].flash == ss[0].flash
    ensures forall i :: 0 <= i <= k ==> os[i].delivered == None
  {
    if k == 0 {
      OpenDownload(env, ss, es, os, block, data);
    } else {
      Packets(env, ss, es, os, block, data, k - 1);
      var sent := data[..64 * (k - 1)];
      PacketTurn(env, ss, es, os, k, Dnload(block, data), sent, PacketOf(data, k - 1));
      assert sent + PacketOf(data, k - 1) == data[..64 * k];
    }
  }

  /** A conforming DNLOAD of 1 to 4096 bytes hands the engine exactly those bytes, exactly once. */
  lemma DownloadDelivers(env: Env, ss: seq<Sys>, es: seq<Event>, os: seq<Output>, block: u16, data: Chunk)
    requires Run(env, ss, es, os) && BeginsDownload(es, block, data)
    ensures var n := PacketCount(data);
            && os[n].delivered == Some(data) && ss[n + 1].usb.phase == Idle
            && (forall i :: 0 <= i < n ==> os[i].delivered == None)
            && DataStep(env.healthy, Opened(ss[0].dfu, block), ss[0].flash, data, ss[n + 1].dfu, ss[n + 1].flash)
  {
    var n := PacketCount(data);
    Packets(env, ss, es, os, block, data, n - 1);
    var sent, p := data[..64 * (n - 1)], PacketOf(data, n - 1);
    PacketTurn(env, ss, es, os, n, Dnload(block, data), sent, p);
    assert sent + p == data;
  }

  // ---------- The GETSTATUS half ----------

  /** The six bytes a GETSTATUS reads. */
  function Report(d: Dfu): seq<byte> {
    [StatusCode(d.status), 10, 0, 0, StateCode(Polled(d.state)), 0]
  }

  lemma PollStarts(env: Env, ss: seq<Sys>, es: seq<Event>, os: seq<Output>, k: nat)
    requires Run(env, ss, es, os) && k < |es| && es[k] == SetupToken(GET_STATUS)
    ensures ss[k + 1].dfu == ss[k].dfu.(state := Polled(ss[k].dfu.state)) && ss[k + 1].flash == ss[k].flash
    ensures ss[k + 1].usb.phase == DataIn && ss[k + 1].usb.remaining == 6
    ensures os[k] == Output(Some(Tx(Report(ss[k].dfu), true)), None)
  {
    assert Turned(env, ss, es, os, k);
    SingleReply(ss[k].usb, GET_STATUS, Report(ss[k].dfu));
  }

  /** Turns that only finish a control transfer: engine and flash stay as they are. */
  lemma Closing(env: Env, ss: seq<Sys>, es: seq<Event>, os: seq<Output>, k: nat)
    requires Run(env, ss, es, os) && k < |es|
    requires es[k] == InToken(0) || (es[k] == OutToken(0, []) && ss[k].usb.phase == Idle)
    ensures ss[k + 1].dfu == ss[k].dfu && ss[k + 1].flash == ss[k].flash && os[k].delivered == None
    ensures ss[k].usb.phase == Idle || (ss[k].usb.phase == DataIn && 0 < ss[k].usb.remaining <= 64) ==>
              ss[k + 1].usb.phase == Idle
  {
    assert Turned(env, ss, es, os, k);
  }

  lemma PollDone(env: Env, ss: seq<Sys>, es: seq<Event>, os: seq<Output>, k: nat)
    requires Run(env, ss, es, os) && k + 3 <= |es|
    requires es[k] == SetupToken(GET_STATUS) && es[k + 1] == InToken(0) && es[k + 2] == OutToken(0, [])
    ensures ss[k + 3].dfu == ss[k].dfu.(state := Polled(ss[k].dfu.state)) && ss[k + 3].flash == ss[k].flash
    ensures os[k].tx == Some(Tx(Report(ss[k].dfu), true))
    ensures forall i :: k <= i < k + 3 ==> os[i].delivered == None
  {
    PollStarts(env, ss, es, os, k);
    Closing(env, ss, es, os, k + 1);
    Closing(env, ss, es, os, k + 2);
  }

  // ---------- Other traffic ----------

  /** Engine and flash as other traffic may leave them: an error may be cleared, nothing else that matters moves. */
  ghost predicate Untouched(s: Sys, s': Sys) {
    && s'.flash == s.flash && s'.dfu.address == s.dfu.address
    && (s'.dfu.status == s.dfu.status || s'.dfu.status == Ok)
  }

  lemma InterludeTurn(env: Env, ss: seq<Sys>, es: seq<Event>, os: seq<Output>, k: nat)
    requires Run(env, ss, es, os) && k < |es| && Harmless(es[k])
    requires AwaitsBlock(ss[k].usb) ==> es[k].SetupToken? || es[k].BusReset?
    ensures !AwaitsBlock(ss[k + 1].usb) && Untouched(ss[k], ss[k + 1]) && os[k].delivered == None
  {
    assert Turned(env, ss, es, os, k);
  }

  /** Other traffic hands nothing to the engine and leaves flash and target alone, even half-way through a stage. */
  lemma {:induction false} InterludeRun(env: Env, ss: seq<Sys>, es: seq<Event>, os: seq<Output>, k: nat)
    requires Run(env, ss, es, os) && IsInterlude(es) && 0 < k <= |es|
    ensures Untouched(ss[0], ss[k]) && !AwaitsBlock(ss[k].usb)
    ensures forall i :: 0 <= i < k ==> os[i].delivered == None
  {
    if k > 1 { InterludeRun(env, ss, es, os, k - 1); }
    InterludeTurn(env, ss, es, os, k - 1);
  }

  // ---------- A whole exchange ----------

  /** What an exchange does: a download is one `DataStep`, anything else leaves flash and target alone. */
  ghost predicate Stepped(healthy: bool, s: Sys, t: Item, s': Sys) {
    if t.Download? then
      DataStep(healthy, Opened(s.dfu, t.block), s.flash, t.data, Unpolled(s'.dfu), s'.flash)
    else Untouched(s, s')
  }

  /** The status byte the host reads in an exchange whose events produced `os`. */
  ghost predicate ReadsStatus(os: seq<Output>, status: Status) {
    && |os| >= 3
    && os[|os| - 3].tx.Some? && os[|os| - 3].tx.value.data != []
    && os[|os| - 3].tx.value.data[0] == StatusCode(status)
  }

  lemma ItemShape(t: Item)
    requires !t.Aside?
    ensures var es := ItemEvents(t); var n := |es|;
            && n >= 3
            && es[n - 3] == SetupToken(GET_STATUS) && es[n - 2] == InToken(0) && es[n - 1] == OutToken(0, [])
    ensures t.Download? ==>
              && BeginsDownload(ItemEvents(t), t.block, t.data)
              && |ItemEvents(t)| == PacketCount(t.data) + 5
              && ItemEvents(t)[PacketCount(t.data) + 1] == InToken(0)
  {
  }

  lemma ItemRun(env: Env, ss: seq<Sys>, os: seq<Output>, t: Item)
    requires Run(env, ss, ItemEvents(t), os)
    ensures var n := |ItemEvents(t)|;
            && n > 0 && Stepped(env.healthy, ss[0], t, ss[n])
            && (!t.Aside? ==> ReadsStatus(os, ss[n].dfu.status))
  {
    var es := ItemEvents(t);
    var n := |es|;
    if t.Aside? {
      InterludeRun(env, ss, es, os, n);
    } else {
      ExchangeRun(env, ss, os, t);
    }
  }

  lemma ExchangeRun(env: Env, ss: seq<Sys>, os: seq<Output>, t: Item)
    requires Run(env, ss, ItemEvents(t), os) && !t.Aside?
    ensures var n := |ItemEvents(t)|;
            Stepped(env.healthy, ss[0], t, ss[n]) && ReadsStatus(os, ss[n].dfu.status)
  {
    var es := ItemEvents(t);
    var n := |es|;
    ItemShape(t);
    PollDone(env, ss, es, os, n - 3);
    if t.Download? {
      var m := PacketCount(t.data);
      DownloadDelivers(env, ss, es, os, t.block, t.data);
      Closing(env, ss, es, os, m + 1);
      DataOutcome(env.healthy, Opened(ss[0].dfu, t.block), ss[0].flash, t.data, ss[m + 1].dfu, ss[m + 1].flash);
      assert Unpolled(ss[n].dfu) == ss[m + 1].dfu;
    }
  }

  /** The data handler leaves dfuDNLOAD-SYNC exactly when it reports an error. */
  lemma DataOutcome(healthy: bool, d: Dfu, f: seq<byte>, data: seq<byte>, d': Dfu, g: seq<byte>)
    requires DataStep(healthy, d, f, data, d', g) && d.state == DnloadSync && d.status == Ok
    ensures d'.state == if d'.status == Ok then DnloadSync else Error
  {
  }
}
