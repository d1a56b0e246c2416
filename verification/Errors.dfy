/**
 Error reporting, exactly. `Runs.ErrorsAgree` promises agreement of error state and error status to a
 disciplined host; here is what every host gets, and precisely which traffic breaks the promise.
 */
module Errors {
  import opened Base
  import opened Dfu
  import opened Usb
  import opened Device
  import opened Runs

  // ---------- A pending block ----------

  /** While a data stage is open nothing happens to the engine. */
  lemma {:induction false} StageIdle(env: Env, ss: seq<Sys>, es: seq<Event>, os: seq<Output>, i: nat, k: nat)
    requires Run(env, ss, es, os) && i < k <= |es| && Undisturbed(es, i + 1, k) && ss[k].usb.phase == DataOut
    ensures ss[k].dfu == ss[i + 1].dfu && ss[k].usb.request == ss[i + 1].usb.request
    decreases k
  {
    if k > i + 1 {
      assert Turned(env, ss, es, os, k - 1);
      StageIdle(env, ss, es, os, i, k - 1);
    }
  }

  /** An OUT data stage whose bytes go to the engine, opened by something other than a class DNLOAD. */
  predicate Impostor(e: Event) {
    OpensOutStage(e) && e.setup.request == DNLOAD && !Class(e.setup)
  }

  lemma StageSetup(env: Env, ss: seq<Sys>, es: seq<Event>, os: seq<Output>, i: nat)
    requires Run(env, ss, es, os) && i < |es| && OpensOutStage(es[i])
    ensures ss[i + 1].usb.request == es[i].setup.request && ss[i + 1].usb.phase == DataOut
    ensures es[i].setup.request == DNLOAD ==>
              ss[i + 1].dfu.state == if Class(es[i].setup) then DnloadSync else Settle(ss[i].dfu).state
  {
    assert Turned(env, ss, es, os, i);
  }

  /** A pending block was announced by the latest SETUP, and the engine is in the state that left it in. */
  lemma PendingBlock(env: Env, ss: seq<Sys>, es: seq<Event>, os: seq<Output>, k: nat) returns (i: nat)
    requires Run(env, ss, es, os) && Starts(ss) && k <= |es| && AwaitsBlock(ss[k].usb)
    ensures i < k && OpensOutStage(es[i]) && es[i].setup.request == DNLOAD && Undisturbed(es, i + 1, k)
    ensures ss[k].dfu.state == if Class(es[i].setup) then DnloadSync else ss[i].dfu.state
  {
    i := StageOrigin(env, ss, es, os, k);
    StageIdle(env, ss, es, os, i, k);
    StageSetup(env, ss, es, os, i);
    assert Turned(env, ss, es, os, i);
  }

  ghost predicate PendingInSync(s: Sys) {
    AwaitsBlock(s.usb) ==> s.dfu.state == DnloadSync
  }

  /** An impostor at `k` finds the engine waiting for a block anyway. */
  ghost predicate Excused(ss: seq<Sys>, es: seq<Event>, k: nat)
    requires k < |es| < |ss|
  {
    Impostor(es[k]) ==> ss[k].dfu.state == DnloadSync
  }

  /** A pending block always means dfuDNLOAD-SYNC if and only if every impostor came in that state. */
  lemma PendingExactly(env: Env, ss: seq<Sys>, es: seq<Event>, os: seq<Output>, n: nat)
    requires Run(env, ss, es, os) && Starts(ss) && n <= |es|
    ensures (forall k: nat :: k <= n ==> PendingInSync(ss[k])) <==> (forall k: nat :: k < n ==> Excused(ss, es, k))
  {
    if forall k: nat :: k < n ==> Excused(ss, es, k) {
      forall k: nat | k <= n ensures PendingInSync(ss[k]) {
        if AwaitsBlock(ss[k].usb) {
          var i := PendingBlock(env, ss, es, os, k);
          assert Excused(ss, es, i);
        }
      }
    } else {
      var k: nat :| k < n && !Excused(ss, es, k);
      StageSetup(env, ss, es, os, k);
      assert Turned(env, ss, es, os, k);
      assert !PendingInSync(ss[k + 1]);
    }
  }

  // ---------- Error state and error status ----------

  ghost predicate Agrees(d: Dfu) {
    d.state == Error <==> d.status != Ok
  }

  /** In turn `k` the engine, in the error state, takes a command and reports OK for it. */
  ghost predicate Forgets(ss: seq<Sys>, os: seq<Output>, k: nat)
    requires k < |os| < |ss|
  {
    ss[k].dfu.state == Error && os[k].delivered.Some? && ss[k + 1].dfu.status == Ok
  }

  lemma AgreeStep(env: Env, ss: seq<Sys>, es: seq<Event>, os: seq<Output>, k: nat)
    requires Run(env, ss, es, os) && k < |es| && Agrees(ss[k].dfu)
    ensures Agrees(ss[k + 1].dfu) <==> !Forgets(ss, os, k)
  {
    if os[k].delivered.Some? {
      FlashMoves(env, ss, es, os, k);
      AgreeData(env.healthy, ss[k].dfu, ss[k].flash, os[k].delivered.value, ss[k + 1].dfu, ss[k + 1].flash);
    } else {
      AgreeOtherwise(env, ss, es, os, k);
    }
  }

  lemma AgreeData(healthy: bool, d: Dfu, f: seq<byte>, data: seq<byte>, d': Dfu, g: seq<byte>)
    requires DataStep(healthy, d, f, data, d', g) && Agrees(d)
    ensures Agrees(d') <==> !(d.state == Error && d'.status == Ok)
  {
  }

  lemma AgreeOtherwise(env: Env, ss: seq<Sys>, es: seq<Event>, os: seq<Output>, k: nat)
    requires Run(env, ss, es, os) && k < |es| && Agrees(ss[k].dfu) && os[k].delivered == None
    ensures Agrees(ss[k + 1].dfu)
  {
    assert Turned(env, ss, es, os, k);
  }

  lemma {:induction false} AgreeUpTo(env: Env, ss: seq<Sys>, es: seq<Event>, os: seq<Output>, n: nat)
    requires Run(env, ss, es, os) && Starts(ss) && n <= |es|
    requires forall k: nat :: k < n ==> !Forgets(ss, os, k)
    ensures Agrees(ss[n].dfu)
  {
    if n > 0 {
      AgreeUpTo(env, ss, es, os, n - 1);
      AgreeStep(env, ss, es, os, n - 1);
    }
  }

  /** For any host and any flash: error state and error status always agree if and only if no turn forgets. */
  lemma ErrorsAgreeExactly(env: Env, ss: seq<Sys>, es: seq<Event>, os: seq<Output>, n: nat)
    requires Run(env, ss, es, os) && Starts(ss) && n <= |es|
    ensures (forall k: nat :: k <= n ==> Agrees(ss[k].dfu)) <==> (forall k: nat :: k < n ==> !Forgets(ss, os, k))
  {
    if forall k: nat :: k < n ==> !Forgets(ss, os, k) {
      forall k: nat | k <= n ensures Agrees(ss[k].dfu) { AgreeUpTo(env, ss, es, os, k); }
    } else {
      var k: nat :| k < n && Forgets(ss, os, k);
      if Agrees(ss[k].dfu) { AgreeStep(env, ss, es, os, k); }
    }
  }

  // ---------- What the host can tell beforehand ----------

  /**
   Whatever reaches the engine in the error state was sent by the host in a stage that an impostor opened,
   with no other SETUP and no bus reset since.
   */
  lemma ErrorOrigin(env: Env, ss: seq<Sys>, es: seq<Event>, os: seq<Output>, k: nat) returns (i: nat)
    requires Run(env, ss, es, os) && Starts(ss) && k < |es|
    requires ss[k].dfu.state == Error && os[k].delivered.Some?
    ensures i < k && Impostor(es[i]) && Undisturbed(es, i + 1, k)
    ensures os[k].delivered == Some(Take4096(OutBytes(es, i + 1, k + 1)))
  {
    DeliversInStage(env, ss, es, os, k);
    i := DeliveryOrigin(env, ss, es, os, k);
    StageIdle(env, ss, es, os, i, k);
    StageSetup(env, ss, es, os, i);
  }

  /** Commands that report OK: SET_ADDRESS always, erases and blocks if they fit and the flash does its part. */
  predicate Wipes(d: Dfu, data: seq<byte>) {
    match Decode(d.address, d.block, data)
    case SetAddress(_) => true
    case EraseSector(_) => true
    case Program(wa) => Add(wa, |data|) <= FLASH_END
    case _ => false
  }

  /** An erase of a sector of flash, or a block on a page boundary that does not wrap, or no flash command. */
  predicate Predictable(d: Dfu, data: seq<byte>) {
    match Decode(d.address, d.block, data)
    case EraseSector(a) => InFlash(SectorBase(a), 4096)
    case Program(wa) => Add(wa, |data|) <= FLASH_END ==> wa % 256 == 0 && wa + |data| <= FLASH_END
    case _ => true
  }

  /** What the host has handed over in turn `k` wipes the status of an engine in the error state. */
  predicate WipesAt(ss: seq<Sys>, os: seq<Output>, k: nat)
    requires k < |os| < |ss|
  {
    ss[k].dfu.state == Error && os[k].delivered.Some? && Wipes(ss[k].dfu, os[k].delivered.value)
  }

  /**
   Which payloads lose an error: on any flash only those that wipe, SET_ADDRESS always; on working flash
   exactly those that wipe.
   */
  lemma ForgetsByPayload(env: Env, ss: seq<Sys>, es: seq<Event>, os: seq<Output>, k: nat)
    requires Run(env, ss, es, os) && k < |es| && Agrees(ss[k].dfu)
    ensures Forgets(ss, os, k) ==> WipesAt(ss, os, k)
    ensures WipesAt(ss, os, k) && Decode(ss[k].dfu.address, ss[k].dfu.block, os[k].delivered.value).SetAddress? ==>
              Forgets(ss, os, k)
    ensures env.healthy && WipesAt(ss, os, k) && Predictable(ss[k].dfu, os[k].delivered.value) ==> Forgets(ss, os, k)
  {
    if ss[k].dfu.state == Error && os[k].delivered.Some? {
      FlashMoves(env, ss, es, os, k);
      OutcomeOf(env.healthy, ss[k].dfu, ss[k].flash, os[k].delivered.value, ss[k + 1].dfu, ss[k + 1].flash);
    }
  }

  lemma OutcomeOf(healthy: bool, d: Dfu, f: seq<byte>, data: seq<byte>, d': Dfu, g: seq<byte>)
    requires DataStep(healthy, d, f, data, d', g) && d.status != Ok
    ensures d'.status == Ok ==> Wipes(d, data)
    ensures Decode(d.address, d.block, data).SetAddress? ==> d'.status == Ok
    ensures healthy && Wipes(d, data) && Predictable(d, data) ==> d'.status == Ok
  {
  }

  /**
   On working flash, with everything the host can check before it sends: error state and error status
   always agree if and only if no payload that wipes is handed over in the error state.
   */
  lemma {:induction false} ErrorsAgreeByPayload(env: Env, ss: seq<Sys>, es: seq<Event>, os: seq<Output>, n: nat)
    requires Run(env, ss, es, os) && Starts(ss) && n <= |es| && env.healthy
    requires forall k: nat :: k < n && os[k].delivered.Some? ==> Predictable(ss[k].dfu, os[k].delivered.value)
    ensures (forall k: nat :: k <= n ==> Agrees(ss[k].dfu)) <==> (forall k: nat :: k < n ==> !WipesAt(ss, os, k))
    decreases n
  {
    if n > 0 {
      ErrorsAgreeByPayload(env, ss, es, os, n - 1);
      if Agrees(ss[n - 1].dfu) {
        AgreeStep(env, ss, es, os, n - 1);
        ForgetsByPayload(env, ss, es, os, n - 1);
      }
    }
  }

  /** On any flash: a host that hands over no wiping payload in the error state never loses an error. */
  lemma {:induction false} NoWipesNoLoss(env: Env, ss: seq<Sys>, es: seq<Event>, os: seq<Output>, n: nat)
    requires Run(env, ss, es, os) && Starts(ss) && n <= |es|
    requires forall k: nat :: k < n ==> !WipesAt(ss, os, k)
    ensures Agrees(ss[n].dfu)
    decreases n
  {
    if n > 0 {
      NoWipesNoLoss(env, ss, es, os, n - 1);
      AgreeStep(env, ss, es, os, n - 1);
      ForgetsByPayload(env, ss, es, os, n - 1);
    }
  }
}
