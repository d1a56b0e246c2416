/**
 The stage-2 device as a whole: USB events in, packets and flash changes out.
 `Pass` specifies one turn of the main loop, `Run` a whole run; class `Device` is the code.
 */
module Device {
  import opened Base
  import opened Flash
  import opened Dfu
  import opened Usb

  /** Fixed surroundings: whether the flash part works, and the descriptor table. */
  datatype Env = Env(healthy: bool, descriptors: u16 -> Response)

  /** The state of the device; `log` is every flash operation launched so far. */
  datatype Sys = Sys(usb: Usb, dfu: Dfu, flash: seq<byte>, log: seq<Launch>)

  /** What a pass sends out: a packet armed for the host, and data handed to the DFU engine. */
  datatype Output = Output(tx: Option<Tx>, delivered: Option<seq<byte>>)

  /** Pending address, engine state and response after routing a SETUP packet. */
  function Route(env: Env, pending: nat, d: Dfu, q: Setup): (nat, Dfu, Response) {
    if Standard(q) then
      match q.request
      case 5 => (q.value % 128, d, [])
      case 6 => (pending, d, env.descriptors(q.value))
      case 8 => (pending, d, [1])
      case _ => (pending, d, [])
    else if Class(q) then
      var (d', r) := Request(d, q.request, q.value, q.length);
      (pending, d', r)
    else (pending, d, [])
  }

  /** What the main loop does to the DFU state after each poll. */
  function Settle(d: Dfu): Dfu {
    if d.state == ManifestSync then d.(state := ManifestWaitReset) else d
  }

  function Settled(s: Sys): Sys {
    s.(dfu := Settle(s.dfu))
  }

  /** The main loop calls `system_reset` at the end of a pass that leaves this state. */
  predicate Resets(s: Sys) {
    s.dfu.state == ManifestWaitReset || s.dfu.state == AppDetach
  }

  ghost predicate Head(s: Sys) {
    Sound(s.usb) && |s.flash| == 0x4_0000 && s.dfu.state != ManifestSync
  }

  /** One turn of the main loop: poll one event, then settle. */
  ghost predicate Pass(env: Env, s: Sys, e: Event, s': Sys, o: Output)
    requires Head(s)
  {
    match e
    case SetupToken(q) =>
      var (pending, d, response) := Route(env, s.usb.pending, s.dfu, q);
      var (u, tx) := OnSetup(s.usb.(pending := pending), q, response);
      s' == s.(usb := u, dfu := Settle(d)) && o == Output(tx, None)
    case InToken(ep) =>
      var (u, tx) := if ep == 0 then OnIn(s.usb) else (s.usb, None);
      s' == s.(usb := u) && o == Output(tx, None)
    case OutToken(ep, p) =>
      var (u, delivered, tx) := if ep == 0 then OnOut(s.usb, p) else (s.usb, None, None);
      && s'.usb == u
      && o == Output(tx, delivered)
      && (match delivered
          case None => s'.dfu == s.dfu && s'.flash == s.flash && s'.log == s.log
          case Some(data) =>
            && DataStep(env.healthy, s.dfu, s.flash, data, s'.dfu, s'.flash)
            && s.log <= s'.log && DataTrace(s.dfu, s.flash, data, s'.dfu.status, s'.flash, s'.log[|s.log|..]))
    case BusReset => s' == s.(usb := OnReset(s.usb)) && o == Output(None, None)
    case Other => s' == s && o == Output(None, None)
  }

  lemma PassKeepsHead(env: Env, s: Sys, e: Event, s': Sys, o: Output)
    requires Head(s) && Pass(env, s, e, s', o)
    ensures Head(s')
  {
  }

  /** The `i`-th turn of a run. */
  ghost predicate Turned(env: Env, ss: seq<Sys>, es: seq<Event>, os: seq<Output>, i: nat) {
    && i < |es| == |os| && |ss| == |es| + 1
    && Head(ss[i]) && !Resets(ss[i])
    && Pass(env, ss[i], es[i], ss[i + 1], os[i])
  }

  /** `es` was handled from `ss[0]` on, and only the last state may be one that resets. */
  ghost predicate Run(env: Env, ss: seq<Sys>, es: seq<Event>, os: seq<Output>) {
    && |ss| == |es| + 1 && |os| == |es|
    && (forall i: nat :: i < |es| ==> Turned(env, ss, es, os, i))
    && Head(ss[|es|])
  }

  lemma RunStep(env: Env, ss: seq<Sys>, es: seq<Event>, os: seq<Output>, e: Event, s: Sys, o: Output)
    requires Run(env, ss, es, os) && !Resets(ss[|es|]) && Pass(env, ss[|es|], e, s, o)
    ensures Run(env, ss + [s], es + [e], os + [o])
  {
    PassKeepsHead(env, ss[|es|], e, s, o);
    forall i: nat | i < |es| + 1 ensures Turned(env, ss + [s], es + [e], os + [o], i) {
      if i < |es| { assert Turned(env, ss, es, os, i); }
    }
  }

  /** Two more turns at the end of a run. */
  lemma RunTwoSteps(env: Env, ss: seq<Sys>, es: seq<Event>, os: seq<Output>,
                    e1: Event, s1: Sys, o1: Output, e2: Event, s2: Sys, o2: Output)
    requires Run(env, ss, es, os) && !Resets(ss[|es|]) && Pass(env, ss[|es|], e1, s1, o1)
    requires !Resets(s1) && Head(s1) && Pass(env, s1, e2, s2, o2)
    ensures Run(env, ss + [s1, s2], es + [e1, e2], os + [o1, o2])
  {
    RunStep(env, ss, es, os, e1, s1, o1);
    RunStep(env, ss + [s1], es + [e1], os + [o1], e2, s2, o2);
    assert ss + [s1] + [s2] == ss + [s1, s2] && es + [e1] + [e2] == es + [e1, e2] && os + [o1] + [o2] == os + [o1, o2];
  }

  class Device {
    const engine: Engine
    const descriptors: u16 -> Response
    const rxBuffer: array<byte>
    var rxOffset: nat
    var phase: Phase
    var response: seq<byte>
    var length: nat
    var remaining: u16
    var request: u8
    var pending: nat
    var devAddr: nat
    var toggle: bool

    ghost predicate Valid()
      reads this, rxBuffer, engine, engine.fmc, engine.fmc.flash
    {
      && rxBuffer.Length == TRANSFER && rxOffset <= TRANSFER
      && rxBuffer != engine.fmc.flash
      && engine.fmc.Valid()
      && Head(View())
    }

    ghost function View(): Sys
      requires rxOffset <= rxBuffer.Length
      reads this, rxBuffer, engine, engine.fmc, engine.fmc.flash
    {
      Sys(UsbView(), engine.View(), engine.fmc.flash[..], engine.fmc.log)
    }

    ghost function UsbView(): Usb
      requires rxOffset <= rxBuffer.Length
      reads this, rxBuffer
    {
      Usb(phase, response, length, remaining, request, pending, devAddr, toggle, rxBuffer[..rxOffset])
    }

    ghost function Surroundings(): Env
      reads this, engine, engine.fmc
    {
      Env(engine.fmc.healthy, descriptors)
    }

    constructor (healthy: bool, descriptors: u16 -> Response)
      ensures Valid()
      ensures View().usb == POWER_UP && View().dfu == Dfu(DfuIdle, Ok, 0, 0) && View().log == []
      ensures Surroundings() == Env(healthy, descriptors)
      ensures fresh(rxBuffer) && fresh(engine) && fresh(engine.fmc) && fresh(engine.fmc.flash)
    {
      var fmc := new Fmc(healthy);
      engine := new Engine(fmc);
      this.descriptors := descriptors;
      rxBuffer := new byte[TRANSFER];
      rxOffset := 0;
      phase, response, length, remaining, request := Idle, [], 0, 0, 0;
      pending, devAddr, toggle := 0, 0, true;
    }

    method Ep0Send(data: seq<byte>) returns (tx: Option<Tx>)
      modifies this`toggle
      ensures tx == Some(Tx(FirstPacket(data), old(toggle))) && toggle == !old(toggle)
    {
      var n := if |data| > 64 then 64 else |data|;
      assert n == |data| ==> data[..n] == data;
      tx := Some(Tx(data[..n], toggle));
      toggle := !toggle;
    }

    method RouteRequest(q: Setup) returns (r: Response)
      modifies this`pending, engine
      ensures (pending, engine.View(), r) == Route(Surroundings(), old(pending), old(engine.View()), q)
    {
      r := [];
      if Standard(q) {
        if q.request == SET_ADDRESS {
          pending := q.value % 128;
        } else if q.request == GET_DESCRIPTOR {
          r := descriptors(q.value);
        } else if q.request == GET_CONFIGURATION {
          r := [1];
        }
      } else if Class(q) {
        r := engine.HandleRequest(q.request, q.value, q.length);
      }
    }

    method StartIn(r: seq<byte>, l: u16) returns (tx: Option<Tx>)
      requires l <= |r|
      modifies this`response, this`length, this`remaining, this`phase, this`toggle
      ensures phase == DataIn && response == r && length == l && remaining == l && toggle == !old(toggle)
      ensures tx == Some(Tx(FirstPacket(r[..l]), old(toggle)))
    {
      response, length, remaining := r, l, l;
      phase := DataIn;
      tx := Ep0Send(r[..l]);
    }

    method PollSetup(q: Setup) returns (tx: Option<Tx>)
      requires Valid()
      modifies this, engine
      ensures rxOffset <= rxBuffer.Length
      ensures var (pend, d, r) := Route(Surroundings(), old(pending), old(engine.View()), q);
              var (u, t) := OnSetup(old(View()).usb.(pending := pend), q, r);
              View() == old(View()).(usb := u, dfu := d) && tx == t
    {
      var r := RouteRequest(q);
      tx := Answer(q, r);
    }

    /** The stage that follows a SETUP answered with `r`. */
    method Answer(q: Setup, r: Response) returns (tx: Option<Tx>)
      requires rxOffset <= rxBuffer.Length
      modifies this
      ensures rxOffset <= rxBuffer.Length
      ensures (UsbView(), tx) == OnSetup(old(UsbView()), q, r)
    {
      request := q.request;
      toggle := true;
      if q.length == 0 {
        if |r| == 0 {
          phase := StatusIn;
          tx := Ep0Send([]);
        } else {
          tx := StartIn(r, |r|);
        }
      } else if ToHost(q) {
        var l := |r|;
        if l > q.length { l := q.length; }
        tx := StartIn(r, l);
      } else {
        phase := DataOut;
        remaining := q.length;
        rxOffset := 0;
        tx := None;
      }
    }

    method PollIn(ep: nat) returns (tx: Option<Tx>)
      requires Valid()
      modifies this
      ensures rxOffset <= rxBuffer.Length
      ensures var (u, t) := if ep == 0 then OnIn(old(View()).usb) else (old(View()).usb, None);
              View() == old(View()).(usb := u) && tx == t
    {
      tx := None;
      if ep == 0 {
        if phase == DataIn && remaining > 0 {
          var sent := if remaining > 64 then 64 else remaining;
          remaining := remaining - sent;
          if remaining > 0 {
            var n := if remaining > 64 then 64 else remaining;
            var from := length - remaining;
            assert response[from..from + n] == FirstPacket(response[from..length]);
            tx := Ep0Send(response[from..from + n]);
          } else {
            phase := Idle;
            if request == SET_ADDRESS { devAddr := pending; }
          }
        } else if phase == StatusIn {
          phase := Idle;
          if request == SET_ADDRESS { devAddr := pending; }
        }
      }
    }

    /** The receiving half of an OUT token: copy the packet if it fits. */
    method Receive(p: Packet)
      requires rxBuffer.Length == TRANSFER && rxOffset <= TRANSFER
      modifies this`rxOffset, rxBuffer
      ensures rxOffset <= rxBuffer.Length
      ensures rxBuffer[..rxOffset] ==
              if |old(rxBuffer[..rxOffset])| + |p| <= 4096 then old(rxBuffer[..rxOffset]) + p
              else old(rxBuffer[..rxOffset])
    {
      if rxOffset + |p| <= TRANSFER {
        for i := 0 to |p|
          invariant rxOffset == old(rxOffset) && rxBuffer[..rxOffset] == old(rxBuffer[..rxOffset])
          invariant forall k :: 0 <= k < i ==> rxBuffer[rxOffset + k] == p[k]
        {
          rxBuffer[rxOffset + i] := p[i];
        }
        rxOffset := rxOffset + |p|;
      }
    }

    /** The EP0 half of an OUT token: whether the stage ended with a DNLOAD block to hand over. */
    method Accept(p: Packet) returns (tx: Option<Tx>, deliver: bool)
      requires rxBuffer.Length == TRANSFER && rxOffset <= TRANSFER
      modifies this, rxBuffer
      ensures rxOffset <= TRANSFER
      ensures var (u, delivered, t) := OnOut(old(UsbView()), p);
              && UsbView() == u && tx == t
              && deliver == delivered.Some? && (deliver ==> delivered.value == rxBuffer[..rxOffset])
    {
      tx, deliver := None, false;
      if phase == DataOut {
        Receive(p);
        remaining := (remaining - |p|) % 0x1_0000;
        if remaining == 0 || |p| < 64 {
          deliver := request == DNLOAD;
          phase := Idle;
          tx := Ep0Send([]);
        }
      }
    }

    method PollOut(ep: nat, p: Packet) returns (tx: Option<Tx>, ghost delivered: Option<seq<byte>>)
      requires Valid()
      modifies this, rxBuffer, engine, engine.fmc, engine.fmc.flash
      ensures engine.fmc.Valid() && old(engine.fmc.log) <= engine.fmc.log && rxOffset <= TRANSFER
      ensures Pass(Surroundings(), old(View()), OutToken(ep, p), View(), Output(tx, delivered))
    {
      tx, delivered := None, None;
      if ep == 0 {
        var deliver;
        tx, deliver := Accept(p);
        if deliver {
          delivered := Some(rxBuffer[..rxOffset]);
          engine.HandleData(rxBuffer, rxOffset);
        }
      }
    }

    /** Handle one event of the bus. */
    method Poll(e: Event) returns (tx: Option<Tx>, ghost delivered: Option<seq<byte>>)
      requires Valid()
      modifies this, rxBuffer, engine, engine.fmc, engine.fmc.flash
      ensures engine.fmc.Valid() && old(engine.fmc.log) <= engine.fmc.log && rxOffset <= TRANSFER
      ensures Pass(Surroundings(), old(View()), e, Settled(View()), Output(tx, delivered))
    {
      tx, delivered := None, None;
      match e {
        case SetupToken(q) => tx := PollSetup(q);
        case InToken(ep) => tx := PollIn(ep);
        case OutToken(ep, p) => tx, delivered := PollOut(ep, p);
        case BusReset =>
          toggle := true;
          devAddr := 0;
          phase := Idle;
        case Other =>
      }
    }

    /** One turn of the main loop. The result says whether it ended in `system_reset`. */
    method Turn(e: Event) returns (tx: Option<Tx>, reset: bool, ghost delivered: Option<seq<byte>>)
      requires Valid()
      modifies this, rxBuffer, engine, engine.fmc, engine.fmc.flash
      ensures Valid() && old(engine.fmc.log) <= engine.fmc.log
      ensures Pass(Surroundings(), old(View()), e, View(), Output(tx, delivered))
      ensures reset == Resets(View())
    {
      tx, delivered := Poll(e);
      ghost var s := Settled(View());
      PassKeepsHead(Surroundings(), old(View()), e, s, Output(tx, delivered));
      if engine.state == ManifestSync {
        engine.state := ManifestWaitReset;
      }
      assert View() == s;
      reset := false;
      if engine.state == ManifestWaitReset { reset := true; }
      if engine.state == AppDetach { reset := true; }
    }

    /** The main loop over the events the bus delivers, until they run out or the device resets. */
    method Serve(events: seq<Event>) returns (count: nat, reset: bool, ghost ss: seq<Sys>, ghost os: seq<Output>)
      requires Valid() && !Resets(View())
      modifies this, rxBuffer, engine, engine.fmc, engine.fmc.flash
      ensures Valid() && old(engine.fmc.log) <= engine.fmc.log
      ensures count <= |events| && (reset || count == |events|)
      ensures Run(Surroundings(), ss, events[..count], os)
      ensures ss[0] == old(View()) && ss[count] == View() && reset == Resets(View())
    {
      count, reset, ss, os := 0, false, [View()], [];
      while !reset && count < |events|
        invariant Valid() && old(engine.fmc.log) <= engine.fmc.log && count <= |events|
        invariant Run(Surroundings(), ss, events[..count], os)
        invariant ss[0] == old(View()) && ss[count] == View() && reset == Resets(View())
        decreases |events| - count
      {
        var tx; ghost var delivered;
        tx, reset, delivered := Turn(events[count]);
        RunStep(Surroundings(), ss, events[..count], os, events[count], View(), Output(tx, delivered));
        assert events[..count + 1] == events[..count] + [events[count]];
        ss, os := ss + [View()], os + [Output(tx, delivered)];
        count := count + 1;
      }
    }
  }
}
