/** SET_ADDRESS takes effect only after its status stage (section 9.4.6 of USB 2.0). */
module Addressing {
  import opened Base
  import opened Dfu
  import opened Usb
  import opened Device
  import opened Runs

  // ---------- The register, for any host whatsoever ----------

  /**
   What the events say about the address: the value of the last SET_ADDRESS asked for, the register, and
   whether the next IN token on endpoint 0 will load the one into the other.
   */
  datatype Track = Track(asked: nat, register: nat, due: bool)

  /** Requests with code 5 that end in an IN token: SET_ADDRESS, GETSTATE, and any with no data stage. */
  predicate Arms(q: Setup) {
    q.request == SET_ADDRESS && (q.length == 0 || (ToHost(q) && Class(q)))
  }

  function Follow(t: Track, e: Event): Track {
    match e
    case SetupToken(q) => Track(if SetsAddress(q) then q.value % 128 else t.asked, t.register, Arms(q))
    case InToken(ep) => if ep == 0 && t.due then Track(t.asked, t.asked, false) else t
    case BusReset => Track(t.asked, 0, false)
    case _ => t
  }

  function Followed(es: seq<Event>, k: nat): Track
    requires k <= |es|
  {
    if k == 0 then Track(0, 0, false) else Follow(Followed(es, k - 1), es[k - 1])
  }

  ghost predicate OnTrack(u: Usb, t: Track) {
    && u.devAddr == t.register && u.pending == t.asked
    && (t.due <==> u.request == SET_ADDRESS && (u.phase == StatusIn || (u.phase == DataIn && u.remaining > 0)))
    && (t.due ==> u.remaining <= 64 || u.phase == StatusIn)
  }

  lemma TrackTurn(env: Env, ss: seq<Sys>, es: seq<Event>, os: seq<Output>, k: nat, t: Track)
    requires Run(env, ss, es, os) && k < |es| && OnTrack(ss[k].usb, t)
    ensures OnTrack(ss[k + 1].usb, Follow(t, es[k]))
  {
    assert Turned(env, ss, es, os, k);
  }

  /** The address register and the pending address, for every run from power-up and every host. */
  lemma {:induction false} RegisterFollows(env: Env, ss: seq<Sys>, es: seq<Event>, os: seq<Output>, k: nat)
    requires Run(env, ss, es, os) && Starts(ss) && k <= |es|
    ensures ss[k].usb.devAddr == Followed(es, k).register && ss[k].usb.pending == Followed(es, k).asked
    ensures OnTrack(ss[k].usb, Followed(es, k))
  {
    if k > 0 {
      RegisterFollows(env, ss, es, os, k - 1);
      TrackTurn(env, ss, es, os, k - 1, Followed(es, k - 1));
    }
  }

  // ---------- What the host may rely on ----------

  /**
   What the host knows: the address of the last SET_ADDRESS completed since the last bus reset, and
   the address asked for by a SET_ADDRESS whose status stage is still to come.
   */
  datatype HostView = HostView(done: Option<nat>, open: Option<nat>)

  function Observe(h: HostView, e: Event): HostView {
    match e
    case SetupToken(q) => h.(open := if SetsAddress(q) && q.length == 0 then Some(q.value % 128) else None)
    case InToken(ep) => if ep == 0 && h.open.Some? then HostView(h.open, None) else h
    case BusReset => HostView(None, None)
    case _ => h
  }

  function Observed(es: seq<Event>, k: nat): HostView
    requires k <= |es|
  {
    if k == 0 then HostView(None, None) else Observe(Observed(es, k - 1), es[k - 1])
  }

  /** The address the device should have: the last one accepted since the last bus reset, or 0. */
  function Address(h: HostView): nat {
    if h.done.Some? then h.done.value else 0
  }

  lemma {:induction false} OpenIsDue(es: seq<Event>, k: nat)
    requires k <= |es|
    ensures var h, t := Observed(es, k), Followed(es, k);
            h.open.Some? ==> t.due && t.asked == h.open.value
  {
    if k > 0 { OpenIsDue(es, k - 1); }
  }

  /**
   The one step that goes wrong: an IN token completes a code-5 request that is not a SET_ADDRESS, while
   the last address asked for is not the one the device should have.
   */
  predicate Stray(es: seq<Event>, k: nat)
    requires k < |es|
  {
    && es[k] == InToken(0) && Followed(es, k).due && Observed(es, k).open == None
    && Followed(es, k).asked != Address(Observed(es, k))
  }

  predicate Right(es: seq<Event>, k: nat)
    requires k <= |es|
  {
    Followed(es, k).register == Address(Observed(es, k))
  }

  lemma RightStep(es: seq<Event>, k: nat)
    requires k < |es| && Right(es, k)
    ensures Right(es, k + 1) <==> !Stray(es, k)
  {
    OpenIsDue(es, k);
  }

  lemma {:induction false} RightUpTo(es: seq<Event>, n: nat)
    requires n <= |es| && forall k: nat :: k < n ==> !Stray(es, k)
    ensures Right(es, n)
  {
    if n > 0 {
      RightUpTo(es, n - 1);
      RightStep(es, n - 1);
    }
  }

  /**
   Deferred address, exactly: over any run the register is always the last address accepted since the last
   bus reset, or 0, if and only if no stray step occurs. The host can tell a stray step before it happens.
   */
  lemma DeferredAddress(env: Env, ss: seq<Sys>, es: seq<Event>, os: seq<Output>, n: nat)
    requires Run(env, ss, es, os) && Starts(ss) && n <= |es|
    ensures (forall k: nat :: k <= n ==> ss[k].usb.devAddr == Address(Observed(es, k))) <==>
            (forall k: nat :: k < n ==> !Stray(es, k))
  {
    forall k: nat | k <= n ensures ss[k].usb.devAddr == Address(Observed(es, k)) <==> Right(es, k) {
      RegisterFollows(env, ss, es, os, k);
    }
    if forall k: nat :: k < n ==> !Stray(es, k) {
      forall k: nat | k <= n ensures Right(es, k) { RightUpTo(es, k); }
    } else {
      var k: nat :| k < n && Stray(es, k);
      if Right(es, k) { RightStep(es, k); }
    }
  }

  /**
   A host that lets each SET_ADDRESS finish, gives it no data stage, and uses request code 5 for
   anything else (DFU_GETSTATE) only once it has addressed the device since the last reset.
   */
  predicate Orderly(h: HostView, e: Event) {
    e.SetupToken? ==>
      && h.open == None
      && (SetsAddress(e.setup) ==> e.setup.length == 0)
      && (e.setup.request == SET_ADDRESS && !Standard(e.setup) ==> h.done.Some?)
  }

  predicate OrderlyAt(es: seq<Event>, i: nat)
    requires i < |es|
  {
    Orderly(Observed(es, i), es[i])
  }

  ghost predicate InOrder(t: Track, h: HostView) {
    && (h.open == None && h.done.Some? ==> t.asked == h.done.value)
    && (h.open == None && t.due ==> h.done.Some?)
  }

  lemma {:induction false} OrderKept(es: seq<Event>, k: nat)
    requires k <= |es| && forall i: nat :: i < k ==> OrderlyAt(es, i)
    ensures InOrder(Followed(es, k), Observed(es, k))
  {
    if k > 0 {
      OrderKept(es, k - 1);
      OpenIsDue(es, k - 1);
      assert OrderlyAt(es, k - 1);
    }
  }

  /** Such a host never makes a stray step, so it can rely on the address. */
  lemma OrderlyHost(env: Env, ss: seq<Sys>, es: seq<Event>, os: seq<Output>, n: nat)
    requires Run(env, ss, es, os) && Starts(ss) && n <= |es|
    requires forall i: nat :: i < n ==> OrderlyAt(es, i)
    ensures forall k: nat :: k < n ==> !Stray(es, k)
    ensures ss[n].usb.devAddr == Address(Observed(es, n))
  {
    forall k: nat | k < n ensures !Stray(es, k) { OrderKept(es, k); }
    DeferredAddress(env, ss, es, os, n);
  }

  /** For any host whatsoever, a SETUP never moves the address register. */
  lemma SetupKeepsAddress(env: Env, ss: seq<Sys>, es: seq<Event>, os: seq<Output>, k: nat)
    requires Run(env, ss, es, os) && k < |es| && es[k].SetupToken?
    ensures ss[k + 1].usb.devAddr == ss[k].usb.devAddr
  {
    assert Turned(env, ss, es, os, k);
  }

  const ADDRESS_7 := Setup(0, 5, 7, 0, 0)
  const GET_STATE := Setup(0xA1, 5, 0, 0, 1)
  const SILENT := Output(None, None)

  /** A complete SET_ADDRESS, then a bus reset: the register is 0 again, the pending value stays. */
  lemma AddressThenReset(env: Env, s: Sys) returns (s1: Sys, s2: Sys, s3: Sys, o: Output)
    requires Head(s)
    ensures Pass(env, s, SetupToken(ADDRESS_7), s1, o)
    ensures Pass(env, s1, InToken(0), s2, SILENT)
    ensures Pass(env, s2, BusReset, s3, SILENT)
    ensures Head(s3) && s3.dfu == s.dfu && s3.usb.pending == 7
  {
    var (u, t) := OnSetup(s.usb.(pending := 7), ADDRESS_7, []);
    s1, o := s.(usb := u), Output(t, None);
    s2 := s1.(usb := OnIn(s1.usb).0);
    s3 := s2.(usb := OnReset(s2.usb));
  }

  lemma GetStateReadsBack(env: Env, s: Sys) returns (s1: Sys, s2: Sys, o: Output)
    requires Head(s) && s.usb.pending == 7 && s.dfu.state == DfuIdle
    ensures Pass(env, s, SetupToken(GET_STATE), s1, o)
    ensures Pass(env, s1, InToken(0), s2, SILENT)
    ensures s2.usb.devAddr == 7
  {
    var (u, t) := OnSetup(s.usb, GET_STATE, [2]);
    s1, o := s.(usb := u), Output(t, None);
    s2 := s1.(usb := OnIn(s1.usb).0);
  }

  lemma AddressRun(env: Env, s: Sys) returns (ss: seq<Sys>, es: seq<Event>, os: seq<Output>)
    requires Head(s) && !Resets(s)
    ensures Run(env, ss, es, os) && es == [SetupToken(ADDRESS_7), InToken(0), BusReset]
    ensures ss[0] == s && ss[3].dfu == s.dfu && ss[3].usb.pending == 7
  {
    var s1, s2, s3, o := AddressThenReset(env, s);
    ss, es, os := [s, s1, s2], [SetupToken(ADDRESS_7), InToken(0)], [o, SILENT];
    RunTwoSteps(env, [s], [], [], es[0], s1, o, es[1], s2, SILENT);
    assert [s] + [s1, s2] == ss && [] + es == es && [] + os == os;
    RunStep(env, ss, es, os, BusReset, s3, SILENT);
    ss, es, os := ss + [s3], es + [BusReset], os + [SILENT];
  }

  lemma GetStateRun(env: Env, ss: seq<Sys>, es: seq<Event>, os: seq<Output>)
    returns (ss': seq<Sys>, es': seq<Event>, os': seq<Output>)
    requires Run(env, ss, es, os) && ss[|es|].usb.pending == 7 && ss[|es|].dfu.state == DfuIdle
    ensures Run(env, ss', es', os') && ss <= ss' && es' == es + [SetupToken(GET_STATE), InToken(0)]
    ensures ss'[|es'|].usb.devAddr == 7
  {
    var s1, s2, o := GetStateReadsBack(env, ss[|es|]);
    RunTwoSteps(env, ss, es, os, SetupToken(GET_STATE), s1, o, InToken(0), s2, SILENT);
    ss', es', os' := ss + [s1, s2], es + [SetupToken(GET_STATE), InToken(0)], os + [o, SILENT];
  }

  /** After a reset the host has seen no address accepted, and a GETSTATE changes nothing about that. */
  lemma NothingAccepted(es: seq<Event>)
    requires |es| == 5 && es[2] == BusReset && es[3] == SetupToken(GET_STATE) && es[4] == InToken(0)
    ensures Address(Observed(es, 5)) == 0
  {
    assert Observed(es, 3) == HostView(None, None);
  }

  /**
   Without order on the host's side the property fails: a GETSTATE between a bus reset and the next
   SET_ADDRESS brings the address from before the reset back.
   */
  lemma StaleAddress(env: Env, flash: seq<byte>) returns (ss: seq<Sys>, es: seq<Event>, os: seq<Output>)
    requires |flash| == 0x4_0000
    ensures Run(env, ss, es, os) && Starts(ss) && |es| == 5
    ensures Address(Observed(es, 5)) == 0 && ss[5].usb.devAddr == 7
  {
    ss, es, os := AddressRun(env, Sys(POWER_UP, Dfu(DfuIdle, Ok, 0, 0), flash, []));
    ss, es, os := GetStateRun(env, ss, es, os);
    NothingAccepted(es);
  }
}
