/**
 What the host reads, in the numbers of DFU 1.1 (section 6.1.2 and appendix A): states and statuses after
 CLRSTATUS, ABORT, UPLOAD and DNLOAD, over any run.
 */
module Reports {
  import opened Base
  import opened Flash
  import opened Dfu
  import opened Commands
  import opened Usb
  import opened Device
  import opened Runs
  import opened Errors

  /** A class request, by its number, that the host may have answered. */
  predicate Asks(e: Event, number: u8) {
    e.SetupToken? && Class(e.setup) && e.setup.request == number
  }

  predicate Reads(e: Event, number: u8) {
    Asks(e, number) && (e.setup.length == 0 || ToHost(e.setup))
  }

  /** Traffic that does not concern the engine. */
  predicate Bystander(e: Event) {
    e.SetupToken? ==> !Class(e.setup) && !Impostor(e)
  }

  ghost predicate Bystanders(es: seq<Event>, i: nat, j: nat) {
    j <= |es| && forall k :: i <= k < j ==> Bystander(es[k])
  }

  /** Without a block pending, such traffic leaves the engine as it is. */
  lemma {:induction false} EngineRests(env: Env, ss: seq<Sys>, es: seq<Event>, os: seq<Output>, i: nat, j: nat)
    requires Run(env, ss, es, os) && i <= j <= |es| && !AwaitsBlock(ss[i].usb) && Bystanders(es, i, j)
    ensures ss[j].dfu == ss[i].dfu && !AwaitsBlock(ss[j].usb)
    decreases j
  {
    if i < j {
      EngineRests(env, ss, es, os, i, j - 1);
      RestsOnce(env, ss, es, os, j - 1);
    }
  }

  lemma RestsOnce(env: Env, ss: seq<Sys>, es: seq<Event>, os: seq<Output>, k: nat)
    requires Run(env, ss, es, os) && k < |es| && !AwaitsBlock(ss[k].usb) && Bystander(es[k])
    ensures ss[k + 1].dfu == ss[k].dfu && !AwaitsBlock(ss[k + 1].usb)
  {
    assert Turned(env, ss, es, os, k);
  }

  // ---------- GETSTATUS and GETSTATE ----------

  /** bStatus. */
  function Number(s: Status): byte {
    match s
    case Ok => 0
    case ErrWrite => 3
    case ErrErase => 4
    case ErrVerify => 7
    case ErrAddress => 8
    case ErrUnknown => 14
  }

  /** bState, for the states that are ever reported. */
  function Place(s: State): byte
    requires s in {DfuIdle, DnloadSync, DnBusy, DnloadIdle, UploadIdle, Error}
  {
    match s
    case DfuIdle => 2
    case DnloadSync => 3
    case DnBusy => 4
    case DnloadIdle => 5
    case UploadIdle => 9
    case Error => 10
  }

  /** Where GETSTATUS takes the engine before it reports. */
  function Onward(s: State): State {
    if s == DnloadSync then DnBusy else if s == DnBusy then DnloadIdle else s
  }

  /** GETSTATUS: status, a poll timeout of 10 ms, the state it moves to, no string. */
  lemma StatusReply(env: Env, ss: seq<Sys>, es: seq<Event>, os: seq<Output>, j: nat)
    requires Run(env, ss, es, os) && j < |es| && Reads(es[j], 3) && Serving(ss[j].dfu.state)
    ensures Serving(Onward(ss[j].dfu.state))
    ensures os[j].tx == Some(Tx(Cut([Number(ss[j].dfu.status), 10, 0, 0, Place(Onward(ss[j].dfu.state)), 0],
                                    es[j].setup.length), true))
    ensures ss[j + 1].dfu == ss[j].dfu.(state := Onward(ss[j].dfu.state)) && !AwaitsBlock(ss[j + 1].usb)
  {
    assert Turned(env, ss, es, os, j);
    var (pending, d, response) := Route(env, ss[j].usb.pending, ss[j].dfu, es[j].setup);
    SingleReply(ss[j].usb.(pending := pending), es[j].setup, response);
  }

  /** GETSTATE: the state, unmoved. */
  lemma StateReply(env: Env, ss: seq<Sys>, es: seq<Event>, os: seq<Output>, j: nat)
    requires Run(env, ss, es, os) && j < |es| && Reads(es[j], 5) && Serving(ss[j].dfu.state)
    ensures os[j].tx == Some(Tx([Place(ss[j].dfu.state)], true))
    ensures ss[j + 1].dfu == ss[j].dfu && !AwaitsBlock(ss[j + 1].usb)
  {
    assert Turned(env, ss, es, os, j);
    var (pending, d, response) := Route(env, ss[j].usb.pending, ss[j].dfu, es[j].setup);
    SingleReply(ss[j].usb.(pending := pending), es[j].setup, response);
  }

  // ---------- CLRSTATUS, ABORT, UPLOAD ----------

  lemma Settles(env: Env, ss: seq<Sys>, es: seq<Event>, os: seq<Output>, i: nat)
    requires Run(env, ss, es, os) && i < |es|
    ensures Asks(es[i], 4) || Asks(es[i], 6) ==> ss[i + 1].dfu == ss[i].dfu.(state := DfuIdle, status := Ok)
    ensures Asks(es[i], 2) ==> ss[i + 1].dfu == ss[i].dfu.(state := UploadIdle, status := Ok)
    ensures Asks(es[i], 2) || Asks(es[i], 4) || Asks(es[i], 6) ==> !AwaitsBlock(ss[i + 1].usb)
  {
    assert Turned(env, ss, es, os, i);
  }

  /** After CLRSTATUS or ABORT, in whatever state they came, the next poll reads dfuIDLE and OK. */
  lemma ClearedReport(env: Env, ss: seq<Sys>, es: seq<Event>, os: seq<Output>, i: nat, j: nat)
    requires Run(env, ss, es, os) && i < j < |es| && (Asks(es[i], 4) || Asks(es[i], 6)) && Bystanders(es, i + 1, j)
    ensures Reads(es[j], 3) ==> os[j].tx == Some(Tx(Cut([0, 10, 0, 0, 2, 0], es[j].setup.length), true))
    ensures Reads(es[j], 5) ==> os[j].tx == Some(Tx([2], true))
  {
    Settles(env, ss, es, os, i);
    EngineRests(env, ss, es, os, i + 1, j);
    if Reads(es[j], 3) { StatusReply(env, ss, es, os, j); }
    if Reads(es[j], 5) { StateReply(env, ss, es, os, j); }
  }

  /** After UPLOAD it reads dfuUPLOAD-IDLE and OK; UPLOAD itself is answered with no data. */
  lemma UploadReport(env: Env, ss: seq<Sys>, es: seq<Event>, os: seq<Output>, i: nat, j: nat)
    requires Run(env, ss, es, os) && i < j < |es| && Asks(es[i], 2) && Bystanders(es, i + 1, j)
    ensures Reads(es[i], 2) ==> os[i].tx == Some(Tx([], true))
    ensures Reads(es[j], 3) ==> os[j].tx == Some(Tx(Cut([0, 10, 0, 0, 9, 0], es[j].setup.length), true))
    ensures Reads(es[j], 5) ==> os[j].tx == Some(Tx([9], true))
  {
    Settles(env, ss, es, os, i);
    EngineRests(env, ss, es, os, i + 1, j);
    if Reads(es[j], 3) { StatusReply(env, ss, es, os, j); }
    if Reads(es[j], 5) { StateReply(env, ss, es, os, j); }
    assert Turned(env, ss, es, os, i);
  }

  // ---------- DNLOAD ----------

  /** A class DNLOAD whose data was handed over in turn `k`. */
  ghost predicate Downloaded(es: seq<Event>, os: seq<Output>, i: nat, k: nat) {
    && i < k < |es| == |os| && Asks(es[i], 1) && OpensOutStage(es[i]) && Undisturbed(es, i + 1, k)
    && os[k].delivered.Some?
  }

  /** Such a DNLOAD leaves dfuDNLOAD-SYNC and OK, or dfuERROR and an error. */
  lemma AfterDownload(env: Env, ss: seq<Sys>, es: seq<Event>, os: seq<Output>, i: nat, k: nat)
    requires Run(env, ss, es, os) && Downloaded(es, os, i, k)
    ensures ss[k + 1].dfu.state == (if ss[k + 1].dfu.status == Ok then DnloadSync else Error)
    ensures !AwaitsBlock(ss[k + 1].usb)
  {
    DeliversInStage(env, ss, es, os, k);
    StageIdle(env, ss, es, os, i, k);
    OpenedFresh(env, ss, es, os, i);
    Delivered(env, ss, es, os, k);
  }

  lemma OpenedFresh(env: Env, ss: seq<Sys>, es: seq<Event>, os: seq<Output>, i: nat)
    requires Run(env, ss, es, os) && i < |es| && Asks(es[i], 1) && OpensOutStage(es[i])
    ensures ss[i + 1].dfu.state == DnloadSync && ss[i + 1].dfu.status == Ok
  {
    assert Turned(env, ss, es, os, i);
  }

  lemma Delivered(env: Env, ss: seq<Sys>, es: seq<Event>, os: seq<Output>, k: nat)
    requires Run(env, ss, es, os) && k < |es| && os[k].delivered.Some?
    requires ss[k].dfu.state == DnloadSync && ss[k].dfu.status == Ok
    ensures ss[k + 1].dfu.state == (if ss[k + 1].dfu.status == Ok then DnloadSync else Error)
    ensures !AwaitsBlock(ss[k + 1].usb)
  {
    assert Turned(env, ss, es, os, k);
  }

  /** The polls after a DNLOAD that went well read dfuDNBUSY, then dfuDNLOAD-IDLE, and stay there. */
  lemma DownloadPolls(env: Env, ss: seq<Sys>, es: seq<Event>, os: seq<Output>, i: nat, k: nat, p: nat, q: nat, r: nat)
    requires Run(env, ss, es, os) && Downloaded(es, os, i, k) && ss[k + 1].dfu.status == Ok
    requires k < p < q < r < |es| && Reads(es[p], 3) && Reads(es[q], 3) && Reads(es[r], 3)
    requires Bystanders(es, k + 1, p) && Bystanders(es, p + 1, q) && Bystanders(es, q + 1, r)
    ensures os[p].tx == Some(Tx(Cut([0, 10, 0, 0, 4, 0], es[p].setup.length), true))
    ensures os[q].tx == Some(Tx(Cut([0, 10, 0, 0, 5, 0], es[q].setup.length), true))
    ensures os[r].tx == Some(Tx(Cut([0, 10, 0, 0, 5, 0], es[r].setup.length), true))
  {
    AfterDownload(env, ss, es, os, i, k);
    EngineRests(env, ss, es, os, k + 1, p);
    StatusReply(env, ss, es, os, p);
    EngineRests(env, ss, es, os, p + 1, q);
    StatusReply(env, ss, es, os, q);
    EngineRests(env, ss, es, os, q + 1, r);
    StatusReply(env, ss, es, os, r);
  }

  /** Before the first poll, GETSTATE reads dfuDNLOAD-SYNC. */
  lemma DownloadState(env: Env, ss: seq<Sys>, es: seq<Event>, os: seq<Output>, i: nat, k: nat, p: nat)
    requires Run(env, ss, es, os) && Downloaded(es, os, i, k) && ss[k + 1].dfu.status == Ok
    requires k < p < |es| && Reads(es[p], 5) && Bystanders(es, k + 1, p)
    ensures os[p].tx == Some(Tx([3], true))
  {
    AfterDownload(env, ss, es, os, i, k);
    EngineRests(env, ss, es, os, k + 1, p);
    StateReply(env, ss, es, os, p);
  }

  /** The poll after a DNLOAD that failed reads dfuERROR and the number of what went wrong. */
  lemma FailureReport(env: Env, ss: seq<Sys>, es: seq<Event>, os: seq<Output>, i: nat, k: nat, p: nat)
    requires Run(env, ss, es, os) && Downloaded(es, os, i, k) && ss[k + 1].dfu.status != Ok
    requires k < p < |es| && Reads(es[p], 3) && Bystanders(es, k + 1, p)
    ensures os[p].tx == Some(Tx(Cut([Number(ss[k + 1].dfu.status), 10, 0, 0, 10, 0], es[p].setup.length), true))
    ensures Number(ss[k + 1].dfu.status) in {3, 4, 7, 8, 14}
  {
    AfterDownload(env, ss, es, os, i, k);
    EngineRests(env, ss, es, os, k + 1, p);
    StatusReply(env, ss, es, os, p);
  }

  // ---------- Commands ----------

  /** Nothing but the engine itself is concerned: flash and its log stay as they are. */
  ghost predicate FlashRests(ss: seq<Sys>, k: nat)
    requires k + 1 < |ss|
  {
    ss[k + 1].flash == ss[k].flash && ss[k + 1].log == ss[k].log
  }

  /**
   The commands of block 0 that do not touch flash, in literal bytes: 0x21 sets the target and reports OK, an
   unknown command byte is errUNKNOWN, and fewer than five bytes do nothing at all; nor does block 1.
   */
  lemma CommandOutcome(env: Env, ss: seq<Sys>, es: seq<Event>, os: seq<Output>, k: nat, data: seq<byte>, a: word)
    requires Run(env, ss, es, os) && k < |es| && os[k].delivered == Some(data) && ss[k].dfu.block <= 1
    ensures ss[k].dfu.block == 0 && IsCommand(data, 0x21, a) ==>
              ss[k + 1].dfu == ss[k].dfu.(address := a, status := Ok) && FlashRests(ss, k)
    ensures ss[k].dfu.block == 0 && |data| >= 5 && data[0] != 0x21 && data[0] != 0x41 ==>
              ss[k + 1].dfu == ss[k].dfu.(state := Error, status := ErrUnknown) && FlashRests(ss, k)
    ensures ss[k].dfu.block == 1 || |data| < 5 ==> ss[k + 1].dfu == ss[k].dfu && FlashRests(ss, k)
  {
    FlashMoves(env, ss, es, os, k);
    if ss[k].dfu.block == 0 {
      CommandRead(ss[k].dfu.address, data, a);
    } else {
      BlockRead(ss[k].dfu.address, 1, data);
    }
    CommandStep(env.healthy, ss[k].dfu, ss[k].flash, data, ss[k + 1].dfu, ss[k + 1].flash, Ops(ss, k));
    if Ops(ss, k) == [] { assert ss[k + 1].log == ss[k].log + Ops(ss, k); }
  }

  lemma CommandStep(healthy: bool, d: Dfu, f: seq<byte>, data: seq<byte>, d': Dfu, g: seq<byte>, ops: seq<Launch>)
    requires DataStep(healthy, d, f, data, d', g) && DataTrace(d, f, data, d'.status, g, ops)
    ensures match Decode(d.address, d.block, data)
            case SetAddress(a) => d' == d.(address := a, status := Ok) && g == f && ops == []
            case Unknown => d' == d.(state := Error, status := ErrUnknown) && g == f && ops == []
            case Nothing => d' == d && g == f && ops == []
            case _ => true
  {
  }

  // ---------- Requests without data ----------

  /** Requests with no data stage and nothing to say are acknowledged with an empty DATA1 packet. */
  lemma Acknowledged(env: Env, ss: seq<Sys>, es: seq<Event>, os: seq<Output>, i: nat)
    requires Run(env, ss, es, os) && i < |es| && es[i].SetupToken? && es[i].setup.length == 0
    requires Standard(es[i].setup) ==> es[i].setup.request !in {6, 8}
    requires Class(es[i].setup) ==> es[i].setup.request !in {3, 5}
    ensures os[i] == Output(Some(Tx([], true)), None) && ss[i + 1].usb.phase == StatusIn
  {
    assert Turned(env, ss, es, os, i);
  }
}
