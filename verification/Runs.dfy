/** Properties of every run of the device, whatever the host sends and however the flash behaves. */
module Runs {
  import opened Base
  import opened Flash
  import opened Dfu
  import opened Usb
  import opened Device

  // ---------- Reachable DFU states ----------

  /** The states the engine can be in when the main loop polls. */
  ghost predicate Serving(s: State) {
    s in {DfuIdle, DnloadSync, DnBusy, DnloadIdle, UploadIdle, Error}
  }

  /** A SETUP packet that makes the pass handling it end in a reset. */
  predicate AsksForReset(e: Event) {
    && e.SetupToken? && Class(e.setup)
    && (e.setup.request == DETACH || (e.setup.request == DNLOAD && e.setup.length == 0))
  }

  /** One pass from a serving state: it resets exactly on request, and otherwise serves on. */
  lemma PassStates(env: Env, s: Sys, e: Event, s': Sys, o: Output)
    requires Head(s) && Serving(s.dfu.state) && Pass(env, s, e, s', o)
    requires s.dfu.status != Ok ==> s.dfu.state == Error
    ensures Resets(s') <==> AsksForReset(e)
    ensures Resets(s') || Serving(s'.dfu.state)
    ensures s'.dfu.status != Ok ==> s'.dfu.state == Error
  {
  }

  ghost predicate Starts(ss: seq<Sys>) {
    |ss| > 0 && ss[0].usb == POWER_UP && ss[0].dfu == Dfu(DfuIdle, Ok, 0, 0)
  }

  /**
   Composed reachability: the main loop only ever polls in six of the eleven states (so GETSTATUS never
   finds a manifest state), an error status is always accompanied by the error state, and a reset
   follows exactly a class DETACH or zero-length DNLOAD.
   */
  lemma {:induction false} Reachable(env: Env, ss: seq<Sys>, es: seq<Event>, os: seq<Output>, k: nat)
    requires Run(env, ss, es, os) && Starts(ss) && k <= |es|
    ensures Resets(ss[k]) || Serving(ss[k].dfu.state)
    ensures ss[k].dfu.status != Ok ==> ss[k].dfu.state == Error
    ensures k > 0 ==> (Resets(ss[k]) <==> AsksForReset(es[k - 1]))
  {
    if k > 0 {
      Reachable(env, ss, es, os, k - 1);
      assert Turned(env, ss, es, os, k - 1);
      PassStates(env, ss[k - 1], es[k - 1], ss[k], os[k - 1]);
    }
  }

  // ---------- Error reporting ----------

  /** Request code 1 carries an OUT data stage only as a DFU class request. */
  predicate Disciplined(e: Event) {
    e.SetupToken? && e.setup.request == DNLOAD && e.setup.length > 0 && !ToHost(e.setup) ==> Class(e.setup)
  }

  ghost predicate AwaitsBlock(u: Usb) {
    u.phase == DataOut && u.request == DNLOAD
  }

  lemma PassErrors(env: Env, s: Sys, e: Event, s': Sys, o: Output)
    requires Head(s) && Pass(env, s, e, s', o) && Disciplined(e)
    requires AwaitsBlock(s.usb) ==> s.dfu.state == DnloadSync
    requires s.dfu.state == Error <==> s.dfu.status != Ok
    ensures AwaitsBlock(s'.usb) ==> s'.dfu.state == DnloadSync
    ensures s'.dfu.state == Error <==> s'.dfu.status != Ok
  {
  }

  /** A pending block means dfuDNLOAD-SYNC, and the error state and an error status go together. */
  lemma {:induction false} ErrorsAgree(env: Env, ss: seq<Sys>, es: seq<Event>, os: seq<Output>, k: nat)
    requires Run(env, ss, es, os) && Starts(ss) && k <= |es|
    requires forall i :: 0 <= i < |es| ==> Disciplined(es[i])
    ensures AwaitsBlock(ss[k].usb) ==> ss[k].dfu.state == DnloadSync
    ensures ss[k].dfu.state == Error <==> ss[k].dfu.status != Ok
  {
    if k > 0 {
      ErrorsAgree(env, ss, es, os, k - 1);
      assert Turned(env, ss, es, os, k - 1);
      PassErrors(env, ss[k - 1], es[k - 1], ss[k], os[k - 1]);
    }
  }

  predicate ClearsError(e: Event) {
    e.SetupToken? && Class(e.setup) && e.setup.request in {0, 1, 2, 4, 6}
  }

  /** An error stays, unchanged, until DETACH, DNLOAD, UPLOAD, CLRSTATUS or ABORT. */
  lemma {:induction false} ErrorSticks(env: Env, ss: seq<Sys>, es: seq<Event>, os: seq<Output>, i: nat, j: nat)
    requires Run(env, ss, es, os) && Starts(ss) && i <= j <= |es|
    requires forall k :: 0 <= k < |es| ==> Disciplined(es[k])
    requires ss[i].dfu.state == Error
    requires forall k :: i <= k < j ==> !ClearsError(es[k])
    ensures ss[j].dfu == ss[i].dfu && ss[j].dfu.status != Ok
  {
    ErrorsAgree(env, ss, es, os, i);
    if i < j {
      ErrorSticks(env, ss, es, os, i, j - 1);
      assert Turned(env, ss, es, os, j - 1);
      ErrorsAgree(env, ss, es, os, j - 1);
    }
  }

  /** What the host sees of a response to a request of `length` bytes. */
  function Cut(r: seq<byte>, length: nat): seq<byte> {
    if 0 < length < |r| then r[..length] else r
  }

  /** A response of one packet is armed at once, as DATA1. */
  lemma SingleReply(u: Usb, q: Setup, r: Response)
    requires q.length == 0 || ToHost(q)
    requires 0 < |r| <= 64
    ensures OnSetup(u, q, r).1 == Some(Tx(Cut(r, q.length), true))
  {
    assert r[..|r|] == r;
  }

  /** ... and every GETSTATUS and GETSTATE meanwhile reports it. */
  lemma ErrorReported(env: Env, ss: seq<Sys>, es: seq<Event>, os: seq<Output>, i: nat, j: nat)
    requires Run(env, ss, es, os) && Starts(ss) && i <= j < |es|
    requires forall k :: 0 <= k < |es| ==> Disciplined(es[k])
    requires ss[i].dfu.state == Error
    requires forall k :: i <= k < j ==> !ClearsError(es[k])
    requires es[j].SetupToken? && Class(es[j].setup) && (es[j].setup.length == 0 || ToHost(es[j].setup))
    ensures es[j].setup.request == GETSTATUS ==>
              os[j].tx == Some(Tx(Cut([StatusCode(ss[i].dfu.status), 10, 0, 0, 10, 0], es[j].setup.length), true))
    ensures es[j].setup.request == GETSTATE ==> os[j].tx == Some(Tx([10], true))
    ensures StatusCode(ss[i].dfu.status) != 0
  {
    ErrorSticks(env, ss, es, os, i, j);
    assert Turned(env, ss, es, os, j);
    var (pending, d, response) := Route(env, ss[j].usb.pending, ss[j].dfu, es[j].setup);
    if es[j].setup.request == GETSTATUS || es[j].setup.request == GETSTATE {
      SingleReply(ss[j].usb.(pending := pending), es[j].setup, response);
    }
  }

  /** The SETUP of a five-byte command ... */
  lemma CommandSetup(env: Env, s: Sys, q: Setup, d: Dfu) returns (s1: Sys, o1: Output)
    requires Head(s) && q.request == DNLOAD && q.length == 5 && !ToHost(q) && d.state != ManifestSync
    requires Route(env, s.usb.pending, s.dfu, q) == (s.usb.pending, d, [])
    ensures Pass(env, s, SetupToken(q), s1, o1) && Head(s1) && s1.dfu == d && s1.flash == s.flash
    ensures s1.usb.phase == DataOut && s1.usb.request == DNLOAD && s1.usb.remaining == 5 && s1.usb.rx == []
  {
    var (u, t) := OnSetup(s.usb, q, []);
    s1, o1 := s.(usb := u, dfu := d), Output(t, None);
  }

  /** ... and its data. */
  lemma CommandData(env: Env, s: Sys, p: Packet, d': Dfu) returns (s2: Sys, o2: Output)
    requires Head(s) && |p| == 5
    requires s.usb.phase == DataOut && s.usb.request == DNLOAD && s.usb.remaining == 5 && s.usb.rx == []
    requires DataStep(env.healthy, s.dfu, s.flash, p, d', s.flash) && d'.state != ManifestSync
    requires DataTrace(s.dfu, s.flash, p, d'.status, s.flash, [])
    ensures Pass(env, s, OutToken(0, p), s2, o2) && Head(s2) && s2.dfu == d' && s2.flash == s.flash
  {
    var (v, delivered, t) := OnOut(s.usb, p);
    assert [] + p == p && s.log[|s.log|..] == [];
    s2, o2 := s.(usb := v, dfu := d'), Output(t, delivered);
  }

  /** A run extended by a five-byte command under the SETUP `q`. */
  lemma CommandRun(env: Env, ss: seq<Sys>, es: seq<Event>, os: seq<Output>, q: Setup, p: Packet, d: Dfu, d': Dfu)
    returns (ss': seq<Sys>, es': seq<Event>, os': seq<Output>)
    requires Run(env, ss, es, os) && !Resets(ss[|es|])
    requires q.request == DNLOAD && q.length == 5 && !ToHost(q) && |p| == 5
    requires Route(env, ss[|es|].usb.pending, ss[|es|].dfu, q) == (ss[|es|].usb.pending, d, [])
    requires DataStep(env.healthy, d, ss[|es|].flash, p, d', ss[|es|].flash)
    requires DataTrace(d, ss[|es|].flash, p, d'.status, ss[|es|].flash, [])
    requires Serving(d.state) && Serving(d'.state)
    ensures Run(env, ss', es', os') && ss <= ss' && |es'| == |es| + 2
    ensures ss'[|es'|].dfu == d' && ss'[|es'|].flash == ss[|es|].flash && !Resets(ss'[|es'|])
  {
    var s := ss[|es|];
    var s1, o1 := CommandSetup(env, s, q, d);
    var s2, o2 := CommandData(env, s1, p, d');
    RunTwoSteps(env, ss, es, os, SetupToken(q), s1, o1, OutToken(0, p), s2, o2);
    ss', es', os' := ss + [s1, s2], es + [SetupToken(q), OutToken(0, p)], os + [o1, o2];
  }

  const BAD_COMMAND: Packet := [0, 0, 0, 0, 0]
  const SET_TARGET: Packet := [0x21, 0, 0x40, 0, 0]
  const CLASS_DNLOAD := Setup(0x21, 1, 0, 0, 5)
  const VENDOR_DNLOAD := Setup(0x40, 1, 0, 0, 5)

  /** An unknown command is an error ... */
  lemma BadCommand(env: Env, pending: nat, d: Dfu, e: Dfu, f: seq<byte>)
    requires e == d.(state := DnloadSync, status := Ok, block := 0)
    ensures Route(env, pending, d, CLASS_DNLOAD) == (pending, e, [])
    ensures DataStep(env.healthy, e, f, BAD_COMMAND, e.(state := Error, status := ErrUnknown), f)
    ensures DataTrace(e, f, BAD_COMMAND, ErrUnknown, f, [])
  {
  }

  /** ... that a SET_ADDRESS sent as vendor data wipes from the status alone. */
  lemma VendorTarget(env: Env, pending: nat, d: Dfu, f: seq<byte>)
    requires d.block == 0
    ensures Route(env, pending, d, VENDOR_DNLOAD) == (pending, d, [])
    ensures DataStep(env.healthy, d, f, SET_TARGET, d.(address := Operand(SET_TARGET), status := Ok), f)
    ensures DataTrace(d, f, SET_TARGET, Ok, f, [])
  {
  }

  /**
   Why the discipline is needed: the data of a vendor request with code 1 reaches the engine too, which
   then drops an error status without leaving the error state.
   */
  lemma ErrorForgotten(env: Env, flash: seq<byte>) returns (ss: seq<Sys>, es: seq<Event>, os: seq<Output>)
    requires |flash| == 0x4_0000
    ensures Run(env, ss, es, os) && Starts(ss) && |es| == 4
    ensures ss[2].dfu.state == Error && ss[2].dfu.status == ErrUnknown
    ensures ss[4].dfu.state == Error && ss[4].dfu.status == Ok
  {
    var d := Dfu(DfuIdle, Ok, 0, 0);
    var e := d.(state := DnloadSync);
    var e' := e.(state := Error, status := ErrUnknown);
    ss, es, os := [Sys(POWER_UP, d, flash, [])], [], [];
    BadCommand(env, 0, d, e, flash);
    ss, es, os := CommandRun(env, ss, es, os, CLASS_DNLOAD, BAD_COMMAND, e, e');
    VendorTarget(env, ss[2].usb.pending, e', flash);
    var e'' := e'.(address := Operand(SET_TARGET), status := Ok);
    ss, es, os := CommandRun(env, ss, es, os, VENDOR_DNLOAD, SET_TARGET, e', e'');
  }

  // ---------- OUT data stages ----------

  /** No SETUP and no bus reset among the events `i..j`. */
  ghost predicate Undisturbed(es: seq<Event>, i: nat, j: nat) {
    j <= |es| && forall k :: i <= k < j ==> !es[k].SetupToken? && !es[k].BusReset?
  }

  /** The bytes sent to endpoint 0 in the OUT packets among the events `i..j`, in order. */
  function OutBytes(es: seq<Event>, i: nat, j: nat): seq<byte>
    requires i <= j <= |es|
  {
    if i == j then [] else OutBytes(es, i, j - 1) + Carried(es[j - 1])
  }

  function Carried(e: Event): seq<byte> {
    if e.OutToken? && e.ep == 0 then e.data else []
  }

  function Take4096(s: seq<byte>): seq<byte> {
    if |s| <= 4096 then s else s[..4096]
  }

  predicate OpensOutStage(e: Event) {
    e.SetupToken? && e.setup.length > 0 && !ToHost(e.setup)
  }

  /** The receive buffer against the stream `sent` of OUT bytes since the SETUP `q`. */
  ghost predicate Reassembling(u: Usb, q: Setup, sent: seq<byte>) {
    && u.phase == DataOut && u.request == q.request && u.toggle
    && u.rx == Take4096(sent)
    && |sent| % 64 == 0
    && u.remaining == (q.length - |sent|) % 0x1_0000 && u.remaining > 0
  }

  lemma CountDown(x: int, n: int)
    ensures (x % 0x1_0000 - n) % 0x1_0000 == (x - n) % 0x1_0000
  {
    var q := x / 0x1_0000;
    assert x - n == (x % 0x1_0000 - n) + 0x1_0000 * q;
    SameModulo(x % 0x1_0000 - n, q);
  }

  lemma SameModulo(a: int, q: int)
    ensures (a + 0x1_0000 * q) % 0x1_0000 == a % 0x1_0000
  {
    var k := a / 0x1_0000;
    assert a + 0x1_0000 * q == 0x1_0000 * (k + q) + a % 0x1_0000;
  }

  lemma FullPackets(n: nat)
    requires n % 64 == 0
    ensures (n + 64) % 64 == 0 && (n < 4096 ==> n + 64 <= 4096)
  {
    var q := n / 64;
    assert n == 64 * q && n + 64 == 64 * (q + 1);
  }

  /** The buffer takes every packet of the first 4096 bytes whole, and none after them. */
  lemma Received(sent: seq<byte>, p: Packet)
    requires |sent| < 4096 ==> |sent| + 64 <= 4096
    ensures var rx := Take4096(sent); Take4096(sent + p) == if |rx| + |p| <= 4096 then rx + p else rx
  {
    if |sent| >= 4096 {
      assert (sent + p)[..4096] == sent[..4096];
      if |p| == 0 { assert sent + p == sent; }
    }
  }

  /** One OUT packet either extends the stage or ends it and delivers the whole stream so far. */
  lemma OutPacket(u: Usb, q: Setup, sent: seq<byte>, p: Packet)
    requires Reassembling(u, q, sent)
    ensures var (v, delivered, tx) := OnOut(u, p);
            if v.phase == DataOut then Reassembling(v, q, sent + p) && delivered == None && tx == None
            else
              && v.phase == Idle && tx == Some(Tx([], true))
              && delivered == if q.request == 1 then Some(Take4096(sent + p)) else None
  {
    FullPackets(|sent|);
    Received(sent, p);
    CountDown(q.length - |sent|, |p|);
    assert q.length - |sent| - |p| == q.length - |sent + p|;
  }

  /** The SETUP that opens a data-out stage delivers nothing and starts with an empty stream. */
  lemma StageOpens(env: Env, ss: seq<Sys>, es: seq<Event>, os: seq<Output>, k: nat)
    requires Run(env, ss, es, os) && k < |es| && OpensOutStage(es[k])
    ensures Reassembling(ss[k + 1].usb, es[k].setup, []) && os[k] == Output(None, None)
  {
    assert Turned(env, ss, es, os, k);
  }

  /** What a turn without SETUP or reset does to a data-out stage, and that it starts none. */
  lemma StageTurn(env: Env, ss: seq<Sys>, es: seq<Event>, os: seq<Output>, k: nat, q: Setup, sent: seq<byte>)
    requires Run(env, ss, es, os) && k < |es| && !es[k].SetupToken? && !es[k].BusReset?
    ensures ss[k].usb.phase == Idle ==> ss[k + 1].usb.phase == Idle && os[k] == Output(None, None)
    ensures Reassembling(ss[k].usb, q, sent) ==>
              if ss[k + 1].usb.phase == DataOut then
                Reassembling(ss[k + 1].usb, q, sent + Carried(es[k])) && os[k] == Output(None, None)
              else
                && ss[k + 1].usb.phase == Idle && os[k].tx == Some(Tx([], true))
                && os[k].delivered == if q.request == DNLOAD then Some(Take4096(sent + Carried(es[k]))) else None
  {
    assert Turned(env, ss, es, os, k);
    if Reassembling(ss[k].usb, q, sent) {
      if es[k].OutToken? && es[k].ep == 0 {
        OutPacket(ss[k].usb, q, sent, es[k].data);
      } else {
        assert sent + [] == sent;
      }
    }
  }

  /**
   Reassembly: from the SETUP at `i` on, as long as no SETUP or reset intervenes, the buffer holds the
   first 4096 bytes of the stream; at most one delivery happens, it hands over exactly those bytes,
   and only if the request code is DNLOAD. The end of the stage, and nothing else, is acknowledged with an
   empty DATA1 packet.
   */
  lemma {:induction false} OutStage(env: Env, ss: seq<Sys>, es: seq<Event>, os: seq<Output>, i: nat, j: nat)
    returns (end: nat)
    requires Run(env, ss, es, os) && i < j <= |es|
    requires OpensOutStage(es[i]) && Undisturbed(es, i + 1, j)
    ensures i < end <= j
    ensures end == j ==> Reassembling(ss[j].usb, es[i].setup, OutBytes(es, i + 1, j))
    ensures end < j ==>
              && ss[j].usb.phase == Idle && os[end].tx == Some(Tx([], true))
              && os[end].delivered ==
                 if es[i].setup.request == DNLOAD then Some(Take4096(OutBytes(es, i + 1, end + 1))) else None
    ensures forall m :: i <= m < j && m != end ==> os[m] == Output(None, None)
    decreases j
  {
    if j == i + 1 {
      StageOpens(env, ss, es, os, i);
      end := j;
    } else {
      end := OutStage(env, ss, es, os, i, j - 1);
      StageTurn(env, ss, es, os, j - 1, es[i].setup, OutBytes(es, i + 1, j - 1));
      if end == j - 1 && ss[j].usb.phase == DataOut { end := j; }
    }
  }

  /**
   Nothing is ever delivered from a data stage that was cut off: whenever data reaches the DFU engine,
   all of it was sent after the latest SETUP, with no bus reset since, and that SETUP opened a DNLOAD stage.
   */
  lemma DeliveryOrigin(env: Env, ss: seq<Sys>, es: seq<Event>, os: seq<Output>, k: nat) returns (i: nat)
    requires Run(env, ss, es, os) && ss[0].usb.phase != DataOut && k < |es|
    requires os[k].delivered.Some?
    ensures i < k && OpensOutStage(es[i]) && es[i].setup.request == DNLOAD && Undisturbed(es, i + 1, k)
    ensures os[k].delivered == Some(Take4096(OutBytes(es, i + 1, k + 1)))
  {
    DeliversInStage(env, ss, es, os, k);
    i := StageOrigin(env, ss, es, os, k);
    var end := OutStage(env, ss, es, os, i, k);
    StageTurn(env, ss, es, os, k, es[i].setup, OutBytes(es, i + 1, k));
  }

  lemma DeliversInStage(env: Env, ss: seq<Sys>, es: seq<Event>, os: seq<Output>, k: nat)
    requires Run(env, ss, es, os) && k < |es| && os[k].delivered.Some?
    ensures es[k].OutToken? && ss[k].usb.phase == DataOut
  {
    assert Turned(env, ss, es, os, k);
  }

  lemma {:induction false} StageOrigin(env: Env, ss: seq<Sys>, es: seq<Event>, os: seq<Output>, k: nat) returns (i: nat)
    requires Run(env, ss, es, os) && ss[0].usb.phase != DataOut && k <= |es|
    requires ss[k].usb.phase == DataOut
    ensures i < k && OpensOutStage(es[i]) && Undisturbed(es, i + 1, k)
  {
    assert Turned(env, ss, es, os, k - 1);
    if es[k - 1].SetupToken? {
      i := k - 1;
    } else {
      i := StageOrigin(env, ss, es, os, k - 1);
    }
  }

  // ---------- What a delivered command does to flash ----------

  /** The flash operations launched in turn `k`. */
  function Ops(ss: seq<Sys>, k: nat): seq<Launch>
    requires k + 1 < |ss| && |ss[k].log| <= |ss[k + 1].log|
  {
    ss[k + 1].log[|ss[k].log|..]
  }

  /** Flash changes, and operations are launched, only in a turn that hands a command over. */
  lemma FlashMoves(env: Env, ss: seq<Sys>, es: seq<Event>, os: seq<Output>, k: nat)
    requires Run(env, ss, es, os) && k < |es|
    ensures ss[k].log <= ss[k + 1].log
    ensures os[k].delivered == None ==> ss[k + 1].flash == ss[k].flash && ss[k + 1].log == ss[k].log
    ensures os[k].delivered.Some? ==>
              var data := os[k].delivered.value;
              && |data| <= 4096 && |ss[k].flash| == 0x4_0000
              && DataStep(env.healthy, ss[k].dfu, ss[k].flash, data, ss[k + 1].dfu, ss[k + 1].flash)
              && DataTrace(ss[k].dfu, ss[k].flash, data, ss[k + 1].dfu.status, ss[k + 1].flash, Ops(ss, k))
  {
    assert Turned(env, ss, es, os, k);
  }

  /**
   Register discipline over whole runs, failing operations included: every operation ever launched had exactly
   one mode bit set, no result flag left over from an earlier one, and the controller unlocked.
   */
  lemma {:induction false} LaunchesClean(env: Env, ss: seq<Sys>, es: seq<Event>, os: seq<Output>, k: nat, i: nat)
    requires Run(env, ss, es, os) && k <= |es| && ss[0].log == [] && i < |ss[k].log|
    ensures Clean(ss[k].log[i])
    decreases k
  {
    if k > 0 {
      FlashMoves(env, ss, es, os, k - 1);
      var n := |ss[k - 1].log|;
      if i < n {
        LaunchesClean(env, ss, es, os, k - 1, i);
      } else {
        assert ss[k].log[i] == Ops(ss, k - 1)[i - n];
      }
    }
  }

  /**
   A data block on flash that may fail or misprogram: it is refused, with nothing changed, exactly if it
   does not fit; otherwise only the pages it covers may change, and status OK means they hold the data.
   `BlockTrace` says how it went: erases before programs, each page programmed once, and which of them, if
   any, the error status stands for.
   */
  lemma BlockOutcome(env: Env, ss: seq<Sys>, es: seq<Event>, os: seq<Output>, k: nat, data: seq<byte>, wa: word)
    returns (split: nat, n: nat)
    requires Run(env, ss, es, os) && k < |es| && os[k].delivered == Some(data)
    requires Decode(ss[k].dfu.address, ss[k].dfu.block, data) == Program(wa) && wa % 256 == 0 && wa <= FLASH_END
    ensures ss[k + 1].dfu.status == ErrAddress <==> wa + |data| > FLASH_END
    ensures wa + |data| > FLASH_END ==> ss[k + 1].flash == ss[k].flash && ss[k + 1].log == ss[k].log
    ensures wa + |data| <= FLASH_END ==>
              && wa + PageCeiling(|data|) <= FLASH_END
              && SameOutside(ss[k].flash, ss[k + 1].flash, wa, wa + PageCeiling(|data|))
              && (ss[k + 1].dfu.status == Ok ==> Holds(ss[k + 1].flash, wa, data))
              && (env.healthy ==> ss[k + 1].dfu.status == Ok)
    ensures wa + |data| <= FLASH_END ==>
              && 256 * n == PageCeiling(|data|) && ss[k].log <= ss[k + 1].log
              && BlockTrace(Ops(ss, k), split, ss[k].flash, wa, n, data, ss[k + 1].flash, ss[k + 1].dfu.status)
  {
    FlashMoves(env, ss, es, os, k);
    BlockStep(env.healthy, ss[k].dfu, ss[k].flash, data, ss[k + 1].dfu, ss[k + 1].flash, wa);
    split, n := BlockOps(ss[k].dfu, ss[k].flash, data, ss[k + 1].dfu.status, ss[k + 1].flash, Ops(ss, k), wa);
  }

  lemma BlockStep(healthy: bool, d: Dfu, f: seq<byte>, data: seq<byte>, d': Dfu, g: seq<byte>, wa: word)
    requires DataStep(healthy, d, f, data, d', g) && |data| <= 4096
    requires Decode(d.address, d.block, data) == Program(wa) && wa % 256 == 0 && wa <= FLASH_END
    ensures d'.status == ErrAddress <==> wa + |data| > FLASH_END
    ensures wa + |data| > FLASH_END ==> g == f
    ensures wa + |data| <= FLASH_END ==>
              wa + PageCeiling(|data|) <= FLASH_END && ProgramEffect(healthy, f, wa, data, g, d'.status == Ok)
  {
    assert Add(wa, |data|) == wa + |data|;
    if wa + |data| <= FLASH_END {
      var n := PageCount(|data|);
      PagesFit(wa, |data|, n);
    }
  }

  lemma BlockOps(d: Dfu, f: seq<byte>, data: seq<byte>, s: Status, g: seq<byte>, ops: seq<Launch>, wa: word)
    returns (split: nat, n: nat)
    requires DataTrace(d, f, data, s, g, ops) && |data| <= 4096
    requires Decode(d.address, d.block, data) == Program(wa) && wa % 256 == 0 && wa <= FLASH_END
    ensures wa + |data| > FLASH_END ==> ops == []
    ensures wa + |data| <= FLASH_END ==> 256 * n == PageCeiling(|data|) && BlockTrace(ops, split, f, wa, n, data, g, s)
  {
    assert Add(wa, |data|) == wa + |data|;
    split, n := 0, 0;
    if wa + |data| <= FLASH_END {
      split, n :| 256 * n == PageCeiling(|data|) && BlockTrace(ops, split, f, wa, n, data, g, s);
    }
  }

  /**
   The erase command refines a plain 4 KB erase, whichever way it takes: status OK means the sector reads
   as erased, a blank sector is left alone, and bytes outside the sector change only if it starts a 32 KB
   block, and then only inside that block. `EraseTrace` says which operations ran and which one failed.
   */
  lemma EraseOutcome(env: Env, ss: seq<Sys>, es: seq<Event>, os: seq<Output>, k: nat, data: seq<byte>, a: word)
    requires Run(env, ss, es, os) && k < |es| && os[k].delivered == Some(data)
    requires Decode(ss[k].dfu.address, ss[k].dfu.block, data) == EraseSector(a) && InFlash(SectorBase(a), 4096)
    ensures var s, f, g := Offset(SectorBase(a)), ss[k].flash, ss[k + 1].flash;
            && (ss[k + 1].dfu.status == Ok ==> Blank(g, s, s + 4096))
            && (ss[k + 1].dfu.status != Ok ==>
                  ss[k + 1].dfu.status == ErrErase && ss[k + 1].dfu.state == Error && !env.healthy)
            && (Blank(f, s, s + 4096) ==> g == f && ss[k + 1].dfu.status == Ok)
            && SameOutside(f, g, s, s + if s % 32768 == 0 then 32768 else 4096)
            && ss[k].log <= ss[k + 1].log && EraseTrace(Ops(ss, k), f, s, g, ss[k + 1].dfu.status)
  {
    FlashMoves(env, ss, es, os, k);
    assert EraseEffect(env.healthy, ss[k].flash, Offset(SectorBase(a)), ss[k + 1].flash, ss[k + 1].dfu.status == Ok);
  }

  // ---------- IN data stages ----------

  /** The packets armed in the turns `i..j`, in order. */
  function Armed(os: seq<Output>, i: nat, j: nat): seq<Tx>
    requires i <= j <= |os|
  {
    if i == j then [] else Armed(os, i, j - 1) + Packeted(os[j - 1])
  }

  function Packeted(o: Output): seq<Tx> {
    if o.tx.Some? then [o.tx.value] else []
  }

  function Payload(ps: seq<Tx>): seq<byte> {
    if ps == [] then [] else Payload(ps[..|ps| - 1]) + ps[|ps| - 1].data
  }

  /** Packets as section 8.5.3 of USB 2.0 wants them: all but the last full, toggles from DATA1. */
  ghost predicate WellPacketed(ps: seq<Tx>) {
    && (forall i :: 0 <= i < |ps| - 1 ==> |ps[i].data| == 64)
    && (forall i :: 0 <= i < |ps| ==> |ps[i].data| <= 64 && ps[i].data1 == (i % 2 == 0))
  }

  /** Sending `body`: `ps` are the packets armed so far, the last one not yet acknowledged. */
  ghost predicate Sending(u: Usb, body: seq<byte>, ps: seq<Tx>) {
    && u.phase == DataIn && u.length <= |u.response| && u.response[..u.length] == body
    && u.remaining <= u.length
    && ps != [] && WellPacketed(ps)
    && Payload(ps) == body[..|body| - u.remaining + Min(64, u.remaining)]
    && |ps[|ps| - 1].data| == Min(64, u.remaining)
    && u.toggle == (|ps| % 2 == 0)
  }

  lemma PayloadStep(ps: seq<Tx>, p: Tx)
    ensures Payload(ps + [p]) == Payload(ps) + p.data
  {
    assert (ps + [p])[..|ps|] == ps;
  }

  lemma PacketsStep(ps: seq<Tx>, p: Tx)
    requires WellPacketed(ps) && ps != [] && |ps[|ps| - 1].data| == 64
    requires |p.data| <= 64 && p.data1 == (|ps| % 2 == 0)
    ensures WellPacketed(ps + [p]) && Payload(ps + [p]) == Payload(ps) + p.data
  {
    PayloadStep(ps, p);
  }

  /** The next packet of a body of which `n` bytes have been sent. */
  lemma NextPacket(body: seq<byte>, n: nat, left: nat)
    requires n + left == |body|
    ensures body[..n] + FirstPacket(body[n..]) == body[..n + Min(64, left)]
    ensures |FirstPacket(body[n..])| == Min(64, left)
  {
  }

  lemma Alternates(n: nat)
    ensures (n % 2 == 0) != ((n + 1) % 2 == 0)
  {
  }

  lemma InMore(u: Usb, body: seq<byte>, ps: seq<Tx>)
    requires Sending(u, body, ps) && Sound(u) && u.remaining > 64
    ensures var (v, tx) := OnIn(u); v.phase == DataIn && tx.Some? && Sending(v, body, ps + [tx.value])
  {
    var left := u.remaining - 64;
    var n := |body| - left;
    assert u.response[u.length - left..u.length] == body[n..];
    NextPacket(body, n, left);
    var tx := Tx(FirstPacket(body[n..]), u.toggle);
    PacketsStep(ps, tx);
    Alternates(|ps|);
    assert (ps + [tx])[|ps|] == tx && |ps + [tx]| == |ps| + 1;
  }

  lemma InLast(u: Usb, body: seq<byte>, ps: seq<Tx>)
    requires Sending(u, body, ps) && Sound(u) && u.remaining <= 64
    ensures var (v, tx) := OnIn(u); tx == None && (v == u || (v.phase == Idle && Payload(ps) == body))
  {
    assert body[..|body|] == body;
  }

  /** An acknowledged packet is followed by the next one, or the response has been sent in full. */
  lemma InPacket(u: Usb, body: seq<byte>, ps: seq<Tx>)
    requires Sending(u, body, ps) && Sound(u)
    ensures var (v, tx) := OnIn(u);
            if v.phase == DataIn then
              if tx.Some? then Sending(v, body, ps + [tx.value]) else v == u
            else v.phase == Idle && tx == None && Payload(ps) == body
  {
    if u.remaining > 64 { InMore(u, body, ps); } else { InLast(u, body, ps); }
  }

  /** What a turn without SETUP or reset does to a data-in stage; an idle device arms nothing. */
  lemma SendTurn(env: Env, ss: seq<Sys>, es: seq<Event>, os: seq<Output>, k: nat, body: seq<byte>, ps: seq<Tx>)
    requires Run(env, ss, es, os) && k < |es| && !es[k].SetupToken? && !es[k].BusReset?
    ensures ss[k].usb.phase == Idle ==> ss[k + 1].usb.phase == Idle && os[k].tx == None
    ensures Sending(ss[k].usb, body, ps) ==>
              if ss[k + 1].usb.phase == DataIn then Sending(ss[k + 1].usb, body, ps + Packeted(os[k]))
              else ss[k + 1].usb.phase == Idle && os[k].tx == None && Payload(ps) == body
  {
    assert Turned(env, ss, es, os, k);
    assert ps + [] == ps;
    if Sending(ss[k].usb, body, ps) && es[k].InToken? && es[k].ep == 0 {
      InPacket(ss[k].usb, body, ps);
    }
  }

  /** The body a SETUP puts on the wire: its response, cut to what the host asked for. */
  function Body(env: Env, s: Sys, q: Setup): seq<byte> {
    var r := Route(env, s.usb.pending, s.dfu, q).2;
    if q.length > 0 then r[..Min(|r|, q.length)] else r
  }

  lemma FirstSent(u: Usb, response: seq<byte>, n: u16)
    requires n <= |response| && u.toggle
    ensures var (v, tx) := StartIn(u, response, n);
            tx.Some? && Sending(v, response[..n], [tx.value])
  {
    var (v, tx) := StartIn(u, response, n);
    assert [tx.value][..0] == [];
  }

  /** A data-in stage with `body`: still sending it, or done with all of it, in well-formed packets. */
  ghost predicate SentSoFar(u: Usb, body: seq<byte>, ps: seq<Tx>) {
    && WellPacketed(ps)
    && if u.phase == DataIn then Sending(u, body, ps) else u.phase == Idle && Payload(ps) == body
  }

  lemma SendStep(env: Env, ss: seq<Sys>, es: seq<Event>, os: seq<Output>, k: nat, body: seq<byte>, ps: seq<Tx>)
    requires Run(env, ss, es, os) && k < |es| && !es[k].SetupToken? && !es[k].BusReset?
    requires SentSoFar(ss[k].usb, body, ps)
    ensures SentSoFar(ss[k + 1].usb, body, ps + Packeted(os[k]))
  {
    SendTurn(env, ss, es, os, k, body, ps);
    assert ps + [] == ps;
  }

  /**
   IN chunking: from a SETUP answered with data on, as long as no SETUP or reset intervenes, the packets
   armed are a prefix of the body cut into full packets with alternating toggles, and once the stage has
   ended they are exactly the body.
   */
  lemma {:induction false} InStage(env: Env, ss: seq<Sys>, es: seq<Event>, os: seq<Output>, i: nat, j: nat)
    requires Run(env, ss, es, os) && i < j <= |es|
    requires es[i].SetupToken? && ss[i + 1].usb.phase == DataIn && Undisturbed(es, i + 1, j)
    ensures SentSoFar(ss[j].usb, Body(env, ss[i], es[i].setup), Armed(os, i, j))
    decreases j
  {
    if j == i + 1 {
      SendOpens(env, ss, es, os, i);
      assert Armed(os, i, j) == Packeted(os[i]);
    } else {
      InStage(env, ss, es, os, i, j - 1);
      SendStep(env, ss, es, os, j - 1, Body(env, ss[i], es[i].setup), Armed(os, i, j - 1));
    }
  }

  /** How many IN tokens on endpoint 0 there are among the events `i..j`. */
  function Tokens(es: seq<Event>, i: nat, j: nat): nat
    requires i <= j <= |es|
  {
    if i == j then 0 else Tokens(es, i, j - 1) + if es[j - 1] == InToken(0) then 1 else 0
  }

  lemma TokenTurn(env: Env, ss: seq<Sys>, es: seq<Event>, os: seq<Output>, k: nat)
    requires Run(env, ss, es, os) && k < |es| && !es[k].SetupToken? && !es[k].BusReset?
    ensures ss[k].usb.phase == Idle ==> ss[k + 1].usb.phase == Idle
    ensures ss[k].usb.phase == DataIn && ss[k].usb.remaining > 0 ==>
              if es[k] != InToken(0) then ss[k + 1].usb == ss[k].usb
              else if ss[k].usb.remaining <= 64 then ss[k + 1].usb.phase == Idle
              else ss[k + 1].usb.phase == DataIn && ss[k + 1].usb.remaining == ss[k].usb.remaining - 64
  {
    assert Turned(env, ss, es, os, k);
  }

  /** A data-in stage ends: every IN token takes 64 bytes of a body that is not empty, until none are left. */
  lemma {:induction false} InStageEnds(env: Env, ss: seq<Sys>, es: seq<Event>, os: seq<Output>, i: nat, j: nat)
    requires Run(env, ss, es, os) && i < j <= |es|
    requires es[i].SetupToken? && ss[i + 1].usb.phase == DataIn && Undisturbed(es, i + 1, j)
    requires Body(env, ss[i], es[i].setup) != []
    ensures var left := |Body(env, ss[i], es[i].setup)| - 64 * Tokens(es, i + 1, j);
            if left > 0 then ss[j].usb.phase == DataIn && ss[j].usb.remaining == left else ss[j].usb.phase == Idle
    decreases j
  {
    if j == i + 1 {
      BodyLength(env, ss, es, os, i);
    } else {
      InStageEnds(env, ss, es, os, i, j - 1);
      TokenTurn(env, ss, es, os, j - 1);
    }
  }

  lemma BodyLength(env: Env, ss: seq<Sys>, es: seq<Event>, os: seq<Output>, k: nat)
    requires Run(env, ss, es, os) && k < |es| && es[k].SetupToken? && ss[k + 1].usb.phase == DataIn
    ensures ss[k + 1].usb.remaining == |Body(env, ss[k], es[k].setup)|
  {
    assert Turned(env, ss, es, os, k);
  }

  lemma SendOpens(env: Env, ss: seq<Sys>, es: seq<Event>, os: seq<Output>, k: nat)
    requires Run(env, ss, es, os) && k < |es| && es[k].SetupToken? && ss[k + 1].usb.phase == DataIn
    ensures Sending(ss[k + 1].usb, Body(env, ss[k], es[k].setup), Packeted(os[k]))
  {
    assert Turned(env, ss, es, os, k);
    var q := es[k].setup;
    var (pending, d, r) := Route(env, ss[k].usb.pending, ss[k].dfu, q);
    assert r[..|r|] == r;
    FirstSent(ss[k].usb.(pending := pending, request := q.request, toggle := true), r,
              if q.length > 0 then Min(|r|, q.length) else |r|);
  }
}
