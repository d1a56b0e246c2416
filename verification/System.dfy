/** The two stages together: the code of a whole update, from power-up in DFU mode to the next boot. */
module System {
  import opened Base
  import opened Usb
  import opened Device
  import opened Runs
  import opened Transfer
  import opened Boot
  import opened Download
  import opened Image

  /** No exchange of a script asks for a reset. */
  lemma ItemServes(t: Item)
    ensures forall i :: 0 <= i < |ItemEvents(t)| ==> !AsksForReset(ItemEvents(t)[i])
  {
  }

  lemma {:induction false} ScriptServes(ts: Script, i: nat)
    requires i < |ScriptEvents(ts)|
    ensures !AsksForReset(ScriptEvents(ts)[i])
    decreases |ts|
  {
    var n := |ItemEvents(ts[0])|;
    ItemServes(ts[0]);
    if i >= n { ScriptServes(ts[1..], i - n); }
  }

  /** An event that asks for a reset is not a quiet one. */
  lemma {:induction false} BusyServes(es: seq<Event>, i: nat)
    requires i < |es| && AsksForReset(es[i])
    ensures exists j :: 0 <= j < |BusyEvents(es)| && AsksForReset(BusyEvents(es)[j])
    decreases |es|
  {
    var n := |es| - 1;
    if i == n {
      assert BusyEvents(es)[|BusyEvents(es)| - 1] == es[n];
    } else {
      BusyServes(es[..n], i);
      var j :| 0 <= j < |BusyEvents(es[..n])| && AsksForReset(BusyEvents(es[..n])[j]);
      assert BusyEvents(es)[j] == BusyEvents(es[..n])[j];
    }
  }

  lemma CarriedServes(es: seq<Event>, ts: Script, i: nat)
    requires CarriesOut(es, ts) && i < |es| - 1
    ensures !AsksForReset(es[i])
  {
    if AsksForReset(es[i]) {
      BusyServes(es[..|es| - 1], i);
      var j :| 0 <= j < |ScriptEvents(ts)| && AsksForReset(ScriptEvents(ts)[j]);
      ScriptServes(ts, j);
    }
  }

  /** What a host may have done first: anything that does not ask for a reset. */
  ghost predicate Session(es: seq<Event>, i: nat, ts: Script) {
    && i <= |es| && CarriesOut(es[i..], ts)
    && forall k :: 0 <= k < i ==> !AsksForReset(es[k])
  }

  /** The main loop gets through a whole session, and resets only at its end. */
  lemma WholeSession(env: Env, ss: seq<Sys>, es: seq<Event>, os: seq<Output>, i: nat, ts: Script, count: nat)
    requires Session(es, i, ts) && count <= |es|
    requires Run(env, ss, es[..count], os) && Starts(ss)
    requires Resets(ss[count]) || count == |es|
    ensures count == |es|
  {
    Reachable(env, ss, es[..count], os, count);
    if i < count < |es| {
      CarriedServes(es[i..], ts, count - 1 - i);
    }
  }

  /**
   Power up stage 2 and let a host do anything at all, then carry out a script; the result is what flash
   holds at the reset.
   */
  method Update(healthy: bool, descriptors: u16 -> Response, events: seq<Event>, ghost i: nat, ghost ts: Script)
    returns (flash: seq<byte>, ghost ss: seq<Sys>, ghost os: seq<Output>)
    requires Session(events, i, ts)
    ensures Run(Env(healthy, descriptors), ss, events, os) && Starts(ss)
    ensures Resets(ss[|events|]) && flash == ss[|events|].flash
  {
    var device := new Device(healthy, descriptors);
    var count, reset;
    count, reset, ss, os := device.Serve(events);
    ghost var env := Env(healthy, descriptors);
    WholeSession(env, ss, events, os, i, ts, count);
    assert events[..count] == events;
    ManifestResets(env, ss, events, os, count - 1);
    flash := device.engine.fmc.flash[..];
  }

  /**
   A whole session and the boot after it: the application boots if the flash part works, or if the host
   read status OK after every download. `beyond` is what can be read above flash.
   */
  method UpdateAndBoot(healthy: bool, descriptors: u16 -> Response, events: seq<Event>, ghost i: nat, ghost ts: Script,
                       ghost img: seq<byte>, marker: nat, pinHigh: bool, beyond: seq<byte>)
    returns (outcome: Outcome, ghost os: seq<Output>)
    requires Session(events, i, ts) && Delivers(ts, img) && GoodImage(img)
    requires |beyond| >= 0x4008
    ensures |os| == |events|
    ensures Trusted(Env(healthy, descriptors), events[i..], os[i..], ts) ==>
              (outcome == ToApplication <==> pinHigh && marker != BOOT_TO_DFU_MARKER)
  {
    var flash;
    ghost var ss;
    flash, ss, os := Update(healthy, descriptors, events, i, ts);
    ghost var env := Env(healthy, descriptors);
    HeadOfRun(env, ss, events, os, |events|);
    var m := flash + beyond;
    if Trusted(env, events[i..], os[i..], ts) {
      DeliveryBoots(env, ss, events, os, i, ts, img, m);
    }
    var stage1 := new Stage1(marker);
    outcome := stage1.Decide(m, pinHigh);
  }
}
