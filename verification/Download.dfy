/** Whole downloads: what a script of exchanges leaves in flash, and that the result boots. */
module Download {
  import opened Base
  import opened Flash
  import opened Dfu
  import opened Usb
  import opened Device
  import opened Transfer
  import opened Boot

  type Script = seq<Item>

  function ScriptEvents(ts: Script): seq<Event> {
    if ts == [] then [] else ItemEvents(ts[0]) + ScriptEvents(ts[1..])
  }

  /** The host read status OK after every download. */
  ghost predicate AllOk(ts: Script, os: seq<Output>) {
    ts == [] ||
    var n := |ItemEvents(ts[0])|;
    |os| >= n && (ts[0].Download? ==> ReadsStatus(os[..n], Ok)) && AllOk(ts[1..], os[n..])
  }

  /** The command a script item carries when the target address is `target`. */
  function CommandOf(t: Item, target: word): Command {
    if t.Download? then Decode(target, t.block, t.data) else Nothing
  }

  function TargetAfter(t: Item, target: word): word {
    if CommandOf(t, target).SetAddress? then CommandOf(t, target).a else target
  }

  datatype Piece = Piece(at: nat, data: seq<byte>)

  /** The pieces of flash a script writes, in order. */
  function Pieces(ts: Script, target: word): seq<Piece> {
    if ts == [] then []
    else
      var c := CommandOf(ts[0], target);
      (if c.Program? then [Piece(c.wa, ts[0].data)] else []) + Pieces(ts[1..], TargetAfter(ts[0], target))
  }

  /** The pieces whose own status the host read as OK. */
  ghost function OkPieces(ts: Script, target: word, os: seq<Output>): seq<Piece>
    decreases |ts|
  {
    if ts == [] || |os| < |ItemEvents(ts[0])| then []
    else
      var c, n := CommandOf(ts[0], target), |ItemEvents(ts[0])|;
      (if c.Program? && ReadsStatus(os[..n], Ok) then [Piece(c.wa, ts[0].data)] else [])
      + OkPieces(ts[1..], TargetAfter(ts[0], target), os[n..])
  }

  lemma {:induction false} AllPiecesOk(ts: Script, target: word, os: seq<Output>)
    requires AllOk(ts, os)
    ensures OkPieces(ts, target, os) == Pieces(ts, target)
    decreases |ts|
  {
    if ts != [] {
      AllPiecesOk(ts[1..], TargetAfter(ts[0], target), os[|ItemEvents(ts[0])|..]);
    }
  }

  /**
   Rising order, one item: targets on page boundaries inside flash, and what is erased or written lies
   at or above the end `done` of what was written before.
   */
  predicate Rises(t: Item, target: word, done: nat) {
    match CommandOf(t, target)
    case SetAddress(a) => a % 256 == 0 && a <= FLASH_END
    case EraseSector(a) => a < FLASH_END && done <= SectorBase(a)
    case Program(wa) => target % 256 == 0 && target <= FLASH_END && done <= wa
    case _ => true
  }

  /** The bound that an item puts on the rest of its script. */
  function MarkAfter(t: Item, target: word, done: nat): nat {
    var c := CommandOf(t, target);
    if c.Program? then c.wa + |t.data| else done
  }

  predicate Ascending(ts: Script, target: word, done: nat) {
    ts == [] ||
    (Rises(ts[0], target, done) && Ascending(ts[1..], TargetAfter(ts[0], target), MarkAfter(ts[0], target, done)))
  }

  ghost predicate SameUpTo(f: seq<byte>, g: seq<byte>, n: nat) {
    |f| == |g| && forall i :: 0 <= i < |f| && i < n ==> g[i] == f[i]
  }

  /** One exchange in rising order: nothing below `done` moves, and if it went well its piece is in flash. */
  lemma ItemEffect(healthy: bool, s: Sys, t: Item, s': Sys, done: nat)
    requires |s.flash| == 0x4_0000 && Stepped(healthy, s, t, s') && Rises(t, s.dfu.address, done)
    ensures s'.dfu.address == TargetAfter(t, s.dfu.address)
    ensures SameUpTo(s.flash, s'.flash, done)
    ensures var c := CommandOf(t, s.dfu.address);
            c.Program? && s'.dfu.status == Ok ==> c.wa + |t.data| <= FLASH_END && Holds(s'.flash, c.wa, t.data)
  {
    match CommandOf(t, s.dfu.address)
    case EraseSector(a) =>
      assert Offset(SectorBase(a)) == SectorBase(a) && InFlash(SectorBase(a), 4096);
    case Program(wa) =>
      AlignedTarget(s.dfu.address, t.block);
    case _ =>
  }

  lemma BlockOffset(block: u16)
    requires block >= 2
    ensures (block - 2) * 4096 == 256 * (16 * (block - 2)) && 0 <= (block - 2) * 4096 < 0x1000_0000
  {
  }

  lemma PageMultiple(q: nat, n: nat)
    ensures (256 * q + 256 * n) % 256 == 0
  {
    assert 256 * q + 256 * n == 256 * (q + n);
  }

  lemma AlignedTarget(target: word, block: u16)
    requires target % 256 == 0 && target <= FLASH_END && block >= 2
    ensures var wa := Add(target, (block - 2) * 4096);
            wa == target + (block - 2) * 4096 && wa % 256 == 0 && wa < 0x2000_0000
  {
    BlockOffset(block);
    PageMultiple(target / 256, 16 * (block - 2));
  }

  /** A run splits at any point into two runs. */
  lemma RunSplit(env: Env, ss: seq<Sys>, es: seq<Event>, os: seq<Output>, n: nat)
    requires Run(env, ss, es, os) && n <= |es|
    ensures Run(env, ss[..n + 1], es[..n], os[..n]) && Run(env, ss[n..], es[n..], os[n..])
  {
    if n < |es| { assert Turned(env, ss, es, os, n); }
    var ss', es', os' := ss[..n + 1], es[..n], os[..n];
    forall i: nat | i < |es'| ensures Turned(env, ss', es', os', i) {
      assert Turned(env, ss, es, os, i);
    }
    var ss'', es'', os'' := ss[n..], es[n..], os[n..];
    forall i: nat | i < |es''| ensures Turned(env, ss'', es'', os'', i) {
      assert Turned(env, ss, es, os, n + i);
    }
  }

  // ---------- Polls that find nothing ----------

  /** A poll that finds nothing for endpoint 0. */
  predicate Quiet(e: Event) {
    e.Other? || (e.InToken? && e.ep != 0) || (e.OutToken? && e.ep != 0)
  }

  function BusyEvents(es: seq<Event>): seq<Event> {
    if es == [] then []
    else
      var n := |es| - 1;
      BusyEvents(es[..n]) + if Quiet(es[n]) then [] else [es[n]]
  }

  function BusyOutputs(es: seq<Event>, os: seq<Output>): (r: seq<Output>)
    requires |os| == |es|
    ensures |r| == |BusyEvents(es)|
  {
    if es == [] then []
    else
      var n := |es| - 1;
      BusyOutputs(es[..n], os[..n]) + if Quiet(es[n]) then [] else [os[n]]
  }

  /** Quiet polls can be left out of a run: what remains is a run between the same two states. */
  lemma {:induction false} Stutter(env: Env, ss: seq<Sys>, es: seq<Event>, os: seq<Output>) returns (ss': seq<Sys>)
    requires Run(env, ss, es, os)
    ensures Run(env, ss', BusyEvents(es), BusyOutputs(es, os))
    ensures ss'[0] == ss[0] && ss'[|BusyEvents(es)|] == ss[|es|]
    decreases |es|
  {
    if es == [] {
      ss' := ss;
    } else {
      var n := |es| - 1;
      RunSplit(env, ss, es, os, n);
      ss' := Stutter(env, ss[..n + 1], es[..n], os[..n]);
      LastTurn(env, ss, es, os, n);
      if !Quiet(es[n]) {
        RunStep(env, ss', BusyEvents(es[..n]), BusyOutputs(es[..n], os[..n]), es[n], ss[n + 1], os[n]);
        ss' := ss' + [ss[n + 1]];
      } else {
        assert BusyEvents(es) == BusyEvents(es[..n]) && BusyOutputs(es, os) == BusyOutputs(es[..n], os[..n]);
      }
    }
  }

  lemma LastTurn(env: Env, ss: seq<Sys>, es: seq<Event>, os: seq<Output>, n: nat)
    requires Run(env, ss, es, os) && n < |es|
    ensures Head(ss[n]) && !Resets(ss[n]) && Pass(env, ss[n], es[n], ss[n + 1], os[n])
    ensures Quiet(es[n]) ==> ss[n + 1] == ss[n]
  {
    assert Turned(env, ss, es, os, n);
  }

  // ---------- Chains ----------

  /** The states between the exchanges of a script. */
  ghost predicate Chain(healthy: bool, cs: seq<Sys>, ts: Script) {
    && |cs| == |ts| + 1
    && (forall k :: 0 <= k < |cs| ==> |cs[k].flash| == 0x4_0000)
    && forall k: nat :: k < |ts| ==> Linked(healthy, cs, ts, k)
  }

  ghost predicate Linked(healthy: bool, cs: seq<Sys>, ts: Script, k: nat) {
    k < |ts| && k + 1 < |cs| && Stepped(healthy, cs[k], ts[k], cs[k + 1])
  }

  /** No download of the chain failed. */
  ghost predicate NoErrors(cs: seq<Sys>, ts: Script)
    requires |cs| == |ts| + 1
  {
    forall k: nat :: k < |ts| ==> Succeeded(cs, ts, k)
  }

  ghost predicate Succeeded(cs: seq<Sys>, ts: Script, k: nat)
    requires |cs| == |ts| + 1 && k < |ts|
  {
    ts[k].Download? ==> cs[k + 1].dfu.status == Ok
  }

  lemma OkOnly(s: Status)
    ensures StatusCode(s) == StatusCode(Ok) <==> s == Ok
  {
  }

  /** The run of a script, taken apart into its first exchange and the rest. */
  lemma ScriptStep(env: Env, ss: seq<Sys>, os: seq<Output>, ts: Script) returns (ss': seq<Sys>, n: nat)
    requires ts != [] && Run(env, ss, ScriptEvents(ts), os)
    ensures n == |ItemEvents(ts[0])| <= |os|
    ensures Run(env, ss', ScriptEvents(ts[1..]), os[n..]) && ss'[|os| - n] == ss[|os|]
    ensures Stepped(env.healthy, ss[0], ts[0], ss'[0]) && |ss[0].flash| == 0x4_0000 == |ss'[0].flash|
    ensures ts[0].Download? ==> (ReadsStatus(os[..n], Ok) <==> ss'[0].dfu.status == Ok)
  {
    var es := ScriptEvents(ts);
    n := |ItemEvents(ts[0])|;
    RunSplit(env, ss, es, os, n);
    assert es[..n] == ItemEvents(ts[0]) && es[n..] == ScriptEvents(ts[1..]);
    ItemRun(env, ss[..n + 1], os[..n], ts[0]);
    OkOnly(ss[n].dfu.status);
    ss' := ss[n..];
    HeadOfRun(env, ss, es, os, 0);
    HeadOfRun(env, ss, es, os, n);
  }

  lemma HeadOfRun(env: Env, ss: seq<Sys>, es: seq<Event>, os: seq<Output>, k: nat)
    requires Run(env, ss, es, os) && k <= |es|
    ensures Head(ss[k]) && |ss[k].flash| == 0x4_0000
  {
    if k < |es| { assert Turned(env, ss, es, os, k); }
  }

  /** The run of a script as a chain of exchanges; the statuses the host read are the engine's. */
  lemma {:induction false} ScriptChain(env: Env, ss: seq<Sys>, os: seq<Output>, ts: Script) returns (cs: seq<Sys>)
    requires Run(env, ss, ScriptEvents(ts), os)
    ensures Chain(env.healthy, cs, ts) && cs[0] == ss[0] && cs[|ts|] == ss[|os|]
    ensures AllOk(ts, os) <==> NoErrors(cs, ts)
    decreases |ts|
  {
    if ts == [] {
      cs := [ss[0]];
    } else {
      var ss', n := ScriptStep(env, ss, os, ts);
      var rest := ScriptChain(env, ss', os[n..], ts[1..]);
      cs := [ss[0]] + rest;
      ChainCons(env.healthy, ss[0], rest, ts);
    }
  }

  lemma ChainCons(healthy: bool, s: Sys, rest: seq<Sys>, ts: Script)
    requires ts != [] && Chain(healthy, rest, ts[1..]) && |s.flash| == 0x4_0000 && Stepped(healthy, s, ts[0], rest[0])
    ensures Chain(healthy, [s] + rest, ts)
    ensures NoErrors([s] + rest, ts) <==> (ts[0].Download? ==> rest[0].dfu.status == Ok) && NoErrors(rest, ts[1..])
  {
    var cs := [s] + rest;
    forall k: nat | k < |ts| ensures Linked(healthy, cs, ts, k) {
      if k > 0 { assert Linked(healthy, rest, ts[1..], k - 1); }
    }
    forall k: nat | k < |ts| - 1 ensures Succeeded(rest, ts[1..], k) <==> Succeeded(cs, ts, k + 1) {
    }
    if NoErrors(cs, ts) {
      assert Succeeded(cs, ts, 0);
      forall k: nat | k < |ts| - 1 ensures Succeeded(rest, ts[1..], k) { assert Succeeded(cs, ts, k + 1); }
    } else {
      var k: nat :| k < |ts| && !Succeeded(cs, ts, k);
      if k > 0 { assert !Succeeded(rest, ts[1..], k - 1); }
    }
  }

  lemma ChainTail(healthy: bool, cs: seq<Sys>, ts: Script)
    requires Chain(healthy, cs, ts) && ts != []
    ensures Chain(healthy, cs[1..], ts[1..]) && Stepped(healthy, cs[0], ts[0], cs[1])
  {
    assert Linked(healthy, cs, ts, 0);
    var cs', ts' := cs[1..], ts[1..];
    forall k: nat | k < |ts'| ensures Linked(healthy, cs', ts', k) {
      assert Linked(healthy, cs, ts, k + 1);
    }
  }

  // ---------- Rising order is safe ----------

  ghost predicate HoldsAll(f: seq<byte>, ps: seq<Piece>) {
    forall i :: 0 <= i < |ps| ==> Holds(f, ps[i].at, ps[i].data)
  }

  lemma HoldsBelow(f: seq<byte>, g: seq<byte>, mark: nat, at: nat, data: seq<byte>)
    requires SameUpTo(f, g, mark) && Holds(f, at, data) && at + |data| <= mark
    ensures Holds(g, at, data)
  {
  }

  /**
   Coarse erase is safe for downloads in rising order, whether or not all of them succeed: nothing below
   the starting mark changes, and every piece whose own status was OK is in flash at the end. In
   particular no 32 KB erase destroyed anything written earlier.
   */
  lemma {:induction false} AscendingDownload(env: Env, ss: seq<Sys>, os: seq<Output>, ts: Script, done: nat)
    requires Run(env, ss, ScriptEvents(ts), os) && Ascending(ts, ss[0].dfu.address, done)
    ensures SameUpTo(ss[0].flash, ss[|os|].flash, done)
    ensures HoldsAll(ss[|os|].flash, OkPieces(ts, ss[0].dfu.address, os))
    decreases |ts|
  {
    if ts != [] {
      var ss', n := ScriptStep(env, ss, os, ts);
      var target := ss[0].dfu.address;
      ItemEffect(env.healthy, ss[0], ts[0], ss'[0], done);
      AscendingDownload(env, ss', os[n..], ts[1..], MarkAfter(ts[0], target, done));
      FirstPiece(ts, target, os, done, ss'[0], ss[|os|].flash);
    }
  }

  /** The first piece of a script survives the rest of it. */
  lemma FirstPiece(ts: Script, target: word, os: seq<Output>, done: nat, s: Sys, g: seq<byte>)
    requires ts != [] && |ItemEvents(ts[0])| <= |os| && Rises(ts[0], target, done)
    requires var c, n := CommandOf(ts[0], target), |ItemEvents(ts[0])|;
             c.Program? && ReadsStatus(os[..n], Ok) ==> Holds(s.flash, c.wa, ts[0].data)
    requires SameUpTo(s.flash, g, MarkAfter(ts[0], target, done))
    requires HoldsAll(g, OkPieces(ts[1..], TargetAfter(ts[0], target), os[|ItemEvents(ts[0])|..]))
    ensures HoldsAll(g, OkPieces(ts, target, os))
    ensures MarkAfter(ts[0], target, done) >= done && SameUpTo(s.flash, g, done)
  {
    var c, n := CommandOf(ts[0], target), |ItemEvents(ts[0])|;
    if c.Program? && ReadsStatus(os[..n], Ok) {
      HoldsBelow(s.flash, g, MarkAfter(ts[0], target, done), c.wa, ts[0].data);
    }
  }

  // ---------- On a working part nothing fails ----------

  /** An item a working part carries out: known commands, sectors and blocks inside flash. */
  predicate Fits(t: Item, target: word) {
    match CommandOf(t, target)
    case Unknown => false
    case EraseSector(a) => a < FLASH_END
    case Program(wa) => target % 256 == 0 && target <= FLASH_END && wa + |t.data| <= FLASH_END
    case _ => true
  }

  predicate AllFit(ts: Script, target: word) {
    ts == [] || (Fits(ts[0], target) && AllFit(ts[1..], TargetAfter(ts[0], target)))
  }

  /** A download a working part can carry out succeeds, whatever happened before. */
  lemma ItemSucceeds(s: Sys, t: Item, s': Sys)
    requires |s.flash| == 0x4_0000 && Stepped(true, s, t, s') && Fits(t, s.dfu.address)
    ensures t.Download? ==> s'.dfu.status == Ok
    ensures s'.dfu.address == TargetAfter(t, s.dfu.address)
  {
    match CommandOf(t, s.dfu.address)
    case EraseSector(a) =>
      assert Offset(SectorBase(a)) == SectorBase(a) && InFlash(SectorBase(a), 4096);
    case Program(wa) =>
      AlignedTarget(s.dfu.address, t.block);
    case _ =>
  }

  lemma {:induction false} HealthyChain(cs: seq<Sys>, ts: Script)
    requires Chain(true, cs, ts) && AllFit(ts, cs[0].dfu.address)
    ensures NoErrors(cs, ts)
    decreases |ts|
  {
    if ts != [] {
      ChainTail(true, cs, ts);
      ItemSucceeds(cs[0], ts[0], cs[1]);
      HealthyChain(cs[1..], ts[1..]);
      forall k: nat | k < |ts| ensures Succeeded(cs, ts, k) {
        if k > 0 { assert Succeeded(cs[1..], ts[1..], k - 1); }
      }
    }
  }

  /** On working flash every download of a script that fits reads status OK, from any state. */
  lemma HealthyScript(env: Env, ss: seq<Sys>, os: seq<Output>, ts: Script)
    requires env.healthy && Run(env, ss, ScriptEvents(ts), os) && AllFit(ts, ss[0].dfu.address)
    ensures AllOk(ts, os)
  {
    var cs := ScriptChain(env, ss, os, ts);
    HealthyChain(cs, ts);
  }

  // ---------- End to end ----------

  /** The zero-length DNLOAD that ends a download. */
  predicate Manifests(e: Event) {
    e.SetupToken? && Class(e.setup) && e.setup.request == DNLOAD && e.setup.length == 0
  }

  /** The pieces a script writes make up `img` at `at`. */
  ghost predicate Assembles(ts: Script, target: word, at: nat, img: seq<byte>) {
    forall f: seq<byte> :: HoldsAll(f, Pieces(ts, target)) ==> Holds(f, at, img)
  }

  lemma ManifestResets(env: Env, ss: seq<Sys>, es: seq<Event>, os: seq<Output>, k: nat)
    requires Run(env, ss, es, os) && k < |es| && Manifests(es[k])
    ensures Resets(ss[k + 1]) && ss[k + 1].flash == ss[k].flash
  {
    assert Turned(env, ss, es, os, k);
  }

  /** The polls of `es` that found something carried out the script `ts`, then came the zero-length DNLOAD. */
  ghost predicate CarriesOut(es: seq<Event>, ts: Script) {
    es != [] && Manifests(es[|es| - 1]) && BusyEvents(es[..|es| - 1]) == ScriptEvents(ts)
  }

  /** The flash part works and the script fits, or the host read status OK after every download. */
  ghost predicate WentWell(env: Env, target: word, es: seq<Event>, os: seq<Output>, ts: Script)
    requires |es| == |os| > 0
  {
    (env.healthy && AllFit(ts, target)) || AllOk(ts, BusyOutputs(es[..|es| - 1], os[..|es| - 1]))
  }

  /** A rising script that went well leaves every piece in flash. */
  lemma ScriptHeld(env: Env, ss: seq<Sys>, es: seq<Event>, os: seq<Output>, ts: Script)
    requires Run(env, ss, es, os) && CarriesOut(es, ts) && Ascending(ts, ss[0].dfu.address, 0)
    requires WentWell(env, ss[0].dfu.address, es, os, ts)
    ensures HoldsAll(ss[|es|].flash, Pieces(ts, ss[0].dfu.address)) && Resets(ss[|es|])
  {
    var n := |es| - 1;
    RunSplit(env, ss, es, os, n);
    var ss' := Stutter(env, ss[..n + 1], es[..n], os[..n]);
    var os' := BusyOutputs(es[..n], os[..n]);
    if env.healthy && AllFit(ts, ss[0].dfu.address) { HealthyScript(env, ss', os', ts); }
    AllPiecesOk(ts, ss[0].dfu.address, os');
    AscendingDownload(env, ss', os', ts, 0);
    ManifestResets(env, ss, es, os, n);
  }

  /**
   End to end, from any state of the device: an image that stage 1 would accept, put together at
   APP_ADDRESS by a rising script that went well and ended by a zero-length DNLOAD, makes the device
   reset; and memory at the next boot, which starts with that flash, holds a bootable application.
   */
  lemma DownloadThenBoot(env: Env, ss: seq<Sys>, es: seq<Event>, os: seq<Output>, ts: Script,
                         img: seq<byte>, m: seq<byte>)
    requires Run(env, ss, es, os) && CarriesOut(es, ts) && Ascending(ts, ss[0].dfu.address, 0)
    requires WentWell(env, ss[0].dfu.address, es, os, ts)
    requires Assembles(ts, ss[0].dfu.address, APP_ADDRESS, img) && GoodImage(img)
    requires Readable(m) && m[..FLASH_END] == ss[|es|].flash
    ensures Resets(ss[|es|]) && Bootable(m)
  {
    ScriptHeld(env, ss, es, os, ts);
    assert Holds(ss[|es|].flash, APP_ADDRESS, img);
    HeadOfRun(env, ss, es, os, |es|);
    HoldsInside(m, ss[|es|].flash, APP_ADDRESS, img);
    GoodImageBoots(m, img);
  }

  lemma HoldsInside(m: seq<byte>, f: seq<byte>, at: nat, img: seq<byte>)
    requires |f| <= |m| && m[..|f|] == f && Holds(f, at, img)
    ensures Holds(m, at, img)
  {
    forall i | 0 <= i < |img| ensures m[at + i] == img[i] {
      assert m[..|f|][at + i] == f[at + i];
    }
  }
}
