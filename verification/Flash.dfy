/**
 The flash controller and its driver (src_stage2/flash.h).

 The hardware side (`WriteCtl`, `ReadWord`, ...) is adversarial: an operation started with a
 well-formed register setting touches only the page or block it names, leaves whatever it likes
 there and raises whatever flags it likes; an operation started with any other setting may do
 anything to the whole flash. On a `healthy` part well-formed operations work.
 */
module Flash {
  import opened Base

  // ---------- What flash contents mean ----------

  /** Erased flash reads as the word 0xE339E339 at every aligned address. */
  function ErasedByte(i: int): byte {
    if i % 2 == 0 then 0x39 else 0xE3
  }

  predicate Blank(f: seq<byte>, lo: int, hi: int) {
    0 <= lo <= hi <= |f| && forall i :: lo <= i < hi ==> f[i] == ErasedByte(i)
  }

  ghost predicate SameOutside(f: seq<byte>, g: seq<byte>, lo: int, hi: int) {
    |f| == |g| && forall i :: 0 <= i < |f| && !(lo <= i < hi) ==> g[i] == f[i]
  }

  ghost predicate Holds(f: seq<byte>, at: int, data: seq<byte>) {
    0 <= at && at + |data| <= |f| && forall i :: 0 <= i < |data| ==> f[at + i] == data[i]
  }

  /** Rewriting the window right after a region that holds `data[..n]` extends the region. */
  lemma HoldsExtend(f: seq<byte>, g: seq<byte>, at: int, data: seq<byte>, n: int, m: int)
    requires 0 <= n <= m <= |data|
    requires Holds(f, at, data[..n]) && SameOutside(f, g, at + n, at + m) && Holds(g, at + n, data[n..m])
    ensures Holds(g, at, data[..m])
  {
    forall i | 0 <= i < m ensures g[at + i] == data[..m][i] {
      if i < n {
        assert f[at + i] == data[..n][i];
      } else {
        assert g[at + n + (i - n)] == data[n..m][i - n];
      }
    }
  }

  function WordAt(f: seq<byte>, i: nat): bv32
    requires i + 4 <= |f|
  {
    WordOf(f[i], f[i + 1], f[i + 2], f[i + 3])
  }

  lemma ErasedPattern(b0: byte, b1: byte, b2: byte, b3: byte)
    ensures WordOf(b0, b1, b2, b3) == 0xE339E339 <==> b0 == 0x39 && b1 == 0xE3 && b2 == 0x39 && b3 == 0xE3
  {
    assert WordOf(0x39, 0xE3, 0x39, 0xE3) == 0xE339E339;
    if WordOf(b0, b1, b2, b3) == 0xE339E339 {
      WordOfInjective(b0, b1, b2, b3, 0x39, 0xE3, 0x39, 0xE3);
    }
  }

  lemma ErasedFour(i: nat)
    requires i % 4 == 0
    ensures ErasedByte(i) == 0x39 && ErasedByte(i + 1) == 0xE3 && ErasedByte(i + 2) == 0x39 && ErasedByte(i + 3) == 0xE3
  {
    Parities(i, i / 4);
  }

  lemma Parities(i: nat, q: nat)
    requires i == 4 * q
    ensures i % 2 == 0 && (i + 1) % 2 == 1 && (i + 2) % 2 == 0 && (i + 3) % 2 == 1
  {
    Parity(i, 2 * q);
    Parity(i + 2, 2 * q + 1);
  }

  lemma Parity(i: nat, h: nat)
    requires i == 2 * h
    ensures i % 2 == 0 && (i + 1) % 2 == 1
  {
  }

  lemma BlankFour(f: seq<byte>, i: nat)
    requires i + 4 <= |f|
    ensures Blank(f, i, i + 4) <==>
              && f[i] == ErasedByte(i) && f[i + 1] == ErasedByte(i + 1)
              && f[i + 2] == ErasedByte(i + 2) && f[i + 3] == ErasedByte(i + 3)
  {
  }

  lemma FourBlank(f: seq<byte>, i: nat)
    requires i + 4 <= |f| && i % 4 == 0
    ensures Blank(f, i, i + 4) <==> f[i] == 0x39 && f[i + 1] == 0xE3 && f[i + 2] == 0x39 && f[i + 3] == 0xE3
  {
    ErasedFour(i);
    BlankFour(f, i);
  }

  lemma ErasedWord(f: seq<byte>, i: nat)
    requires i + 4 <= |f| && i % 4 == 0
    ensures WordAt(f, i) == 0xE339E339 <==> Blank(f, i, i + 4)
  {
    FourBlank(f, i);
    ErasedPattern(f[i], f[i + 1], f[i + 2], f[i + 3]);
  }

  /** One more word of a page that is blank so far. */
  lemma BlankSoFar(f: seq<byte>, o: nat, i: nat)
    requires o % 256 == 0 && i < 64 && o + 256 <= |f| && Blank(f, o, o + 4 * i)
    ensures WordAt(f, o + 4 * i) == 0xE339E339 <==> Blank(f, o, o + 4 * i + 4)
    ensures WordAt(f, o + 4 * i) != 0xE339E339 ==> !Blank(f, o, o + 256)
  {
    var q := o / 256;
    assert o + 4 * i == 4 * (64 * q + i);
    ErasedWord(f, o + 4 * i);
  }

  // ---------- Controller operations ----------

  datatype Ctl = Pg | Start | Lock | FastLock | FastProgram | FastErase | Ber32 | FastStart
  datatype Stat = PgErr | WpErr | EndOp

  const MODES: set<Ctl> := {FastErase, Ber32, FastProgram}

  datatype Store = Store(at: word, value: bv32)

  datatype Operation =
    | ErasePageAt(base: nat)
    | EraseBlockAt(base: nat)
    | ProgramPageAt(base: nat)
    | Wild

  /** What the registers looked like when an operation was started, and the flags it ended with. */
  datatype Launch =
    Launch(op: Operation, modes: set<Ctl>, stale: set<Stat>, locked: bool, ready: bool, raised: set<Stat>)

  /** A page erase, a block erase and a page program as the driver launches them. */
  function PageErase(base: nat, raised: set<Stat>): Launch {
    Launch(ErasePageAt(base), {FastErase}, {}, false, true, raised)
  }

  function BlockErase(base: nat, raised: set<Stat>): Launch {
    Launch(EraseBlockAt(base), {Ber32}, {}, false, true, raised)
  }

  function PageProgram(base: nat, onBlank: bool, raised: set<Stat>): Launch {
    Launch(ProgramPageAt(base), {FastProgram}, {}, false, onBlank, raised)
  }

  /** The flags of the latest operation. */
  function Latest(log: seq<Launch>): set<Stat>
    requires log != []
  {
    log[|log| - 1].raised
  }

  /** Every operation from `n` on, up to `m`, ended with END alone. */
  ghost predicate EndedWell(log: seq<Launch>, n: nat, m: int) {
    m <= |log| && forall k :: n <= k < m ==> log[k].raised == {EndOp}
  }

  /** Register discipline: exactly one mode bit, no leftover result flag, controller unlocked. */
  ghost predicate Clean(l: Launch) {
    && (l.modes == {FastErase} || l.modes == {Ber32} || l.modes == {FastProgram})
    && l.stale == {}
    && !l.locked
  }

  predicate FillsPage(stores: seq<Store>) {
    && |stores| == 64
    && 0x0800_0000 <= stores[0].at
    && stores[0].at % 256 == 0
    && stores[0].at + 256 <= 0x0804_0000
    && forall i :: 0 <= i < 64 ==> stores[i].at == stores[0].at + 4 * i
  }

  /** The operation selected by the registers at the moment of a start strobe. */
  function Selected(ctl: set<Ctl>, start: bool, fast: bool, addr: word, stores: seq<Store>): Operation {
    var modes := ctl * MODES;
    if Lock in ctl || FastLock in ctl then Wild
    else if modes == {FastErase} && start && !fast
            && 0x0800_0000 <= addr && addr % 256 == 0 && addr + 256 <= 0x0804_0000 then
      ErasePageAt(addr - 0x0800_0000)
    else if modes == {Ber32} && start && !fast
            && 0x0800_0000 <= addr && addr % 32768 == 0 && addr + 32768 <= 0x0804_0000 then
      EraseBlockAt(addr - 0x0800_0000)
    else if modes == {FastProgram} && fast && !start && FillsPage(stores) then
      ProgramPageAt(stores[0].at - 0x0800_0000)
    else Wild
  }

  function CachedByte(stores: seq<Store>, i: int): byte
    requires FillsPage(stores) && 0 <= i < 256
  {
    ByteOf(stores[i / 4].value, i % 4)
  }

  /** Everything promised about an operation. Its flags are readable only if none was left over. */
  ghost predicate Effect(op: Operation, healthy: bool, stores: seq<Store>, f: seq<byte>, g: seq<byte>,
                         stale: set<Stat>, stat: set<Stat>) {
    && |f| == |g|
    && stale <= stat
    && match op
       case ErasePageAt(b) =>
         && SameOutside(f, g, b, b + 256)
         && (healthy && stale == {} ==> stat == {EndOp} && Blank(g, b, b + 256))
       case EraseBlockAt(b) =>
         && SameOutside(f, g, b, b + 32768)
         && (stale == {} && stat == {EndOp} ==> Blank(g, b, b + 32768))
         && (healthy && stale == {} ==> stat == {EndOp})
       case ProgramPageAt(b) =>
         && SameOutside(f, g, b, b + 256)
         && (healthy && stale == {} && Blank(f, b, b + 256) && FillsPage(stores) ==>
               stat == {EndOp} && forall i :: 0 <= i < 256 ==> g[b + i] == CachedByte(stores, i))
       case Wild => true
  }

  /** From index `n` on, the log is one page program after another starting at `o`, each on a blank page. */
  ghost predicate ProgramsFrom(log: seq<Launch>, n: nat, o: nat) {
    forall k :: n <= k < |log| ==> log[k] == PageProgram(o + 256 * (k - n), true, log[k].raised)
  }

  /** `p` page programs from `o`, all ended well except perhaps the latest. */
  ghost predicate ProgramLog(log0: seq<Launch>, log: seq<Launch>, o: nat, p: nat, ok: bool) {
    && log0 <= log && |log| == |log0| + p && ProgramsFrom(log, |log0|, o)
    && (if ok then EndedWell(log, |log0|, |log|)
        else p > 0 && EndedWell(log, |log0|, |log| - 1) && Latest(log) != {EndOp})
  }

  lemma ProgramLogStep(log0: seq<Launch>, log: seq<Launch>, log': seq<Launch>, o: nat, p: nat, ok: bool)
    requires ProgramLog(log0, log, o, p, true)
    requires log' != [] && log' == log + [PageProgram(o + 256 * p, true, Latest(log'))]
    requires ok <==> Latest(log') == {EndOp}
    ensures ProgramLog(log0, log', o, p + 1, ok)
  {
  }

  /** From index `n` on, the log is one page erase after another starting at `o`. */
  ghost predicate ErasesFrom(log: seq<Launch>, n: nat, o: nat) {
    forall k :: n <= k < |log| ==> log[k] == PageErase(o + 256 * (k - n), log[k].raised)
  }

  /** The latest operation was a page erase that raised an error, or left its page not blank. */
  ghost predicate FailedErase(log: seq<Launch>, g: seq<byte>) {
    && log != [] && log[|log| - 1].op.ErasePageAt?
    && (Latest(log) != {EndOp} || !Blank(g, log[|log| - 1].op.base, log[|log| - 1].op.base + 256))
  }

  /** Progress of a page-by-page erase of `n` pages from `o`, after `p` of them. */
  ghost predicate Erasing(f0: seq<byte>, f: seq<byte>, o: nat, n: nat, p: nat, log0: seq<Launch>, log: seq<Launch>) {
    && p <= n && SameOutside(f0, f, o, o + 256 * n) && Blank(f, o, o + 256 * p)
    && log0 <= log && |log| == |log0| + p
    && ErasesFrom(log, |log0|, o) && EndedWell(log, |log0|, |log|)
  }

  lemma ErasingStep(f0: seq<byte>, f: seq<byte>, g: seq<byte>, o: nat, n: nat, p: nat,
                    log0: seq<Launch>, log: seq<Launch>, log': seq<Launch>, ok: bool)
    requires Erasing(f0, f, o, n, p, log0, log) && p < n && o + 256 * n <= |f0|
    requires SameOutside(f, g, o + 256 * p, o + 256 * p + 256)
    requires log' != [] && log' == log + [PageErase(o + 256 * p, Latest(log'))]
    requires ok <==> Latest(log') == {EndOp} && Blank(g, o + 256 * p, o + 256 * p + 256)
    ensures SameOutside(f0, g, o, o + 256 * n)
    ensures log0 <= log' && |log0| < |log'| <= |log0| + n
    ensures ErasesFrom(log', |log0|, o) && EndedWell(log', |log0|, |log'| - 1)
    ensures if ok then Erasing(f0, g, o, n, p + 1, log0, log') else FailedErase(log', g)
  {
  }

  lemma PageAt(o: nat, p: nat)
    requires o % 256 == 0
    ensures (o + 256 * p) % 256 == 0
  {
    Remainder256(o, p);
  }

  /** What one page program at `b` promises: the page, and on a healthy part its contents and success. */
  ghost predicate PageProgrammed(f: seq<byte>, g: seq<byte>, b: nat, page: seq<byte>, healthy: bool, ok: bool) {
    && SameOutside(f, g, b, b + 256)
    && (healthy && Blank(f, b, b + 256) ==> ok && Holds(g, b, page))
  }

  /** Progress of a multi-page write over `n` pages from `o`, after `p` of them. */
  ghost predicate Progress(f0: seq<byte>, f: seq<byte>, o: nat, n: nat, p: nat, d: seq<byte>, healthy: bool) {
    && p <= n && 256 * n <= |d|
    && SameOutside(f0, f, o, o + 256 * p)
    && (healthy && Blank(f0, o, o + 256 * n) ==> Holds(f, o, d[..256 * p]))
  }

  lemma ProgressStep(f0: seq<byte>, f: seq<byte>, g: seq<byte>, o: nat, n: nat, p: nat, d: seq<byte>,
                     healthy: bool, ok: bool)
    requires Progress(f0, f, o, n, p, d, healthy) && p < n && o + 256 * n <= |f0|
    requires PageProgrammed(f, g, o + 256 * p, d[256 * p..256 * p + 256], healthy, ok)
    ensures Progress(f0, g, o, n, p + 1, d, healthy)
    ensures Blank(f0, o, o + 256 * n) ==> Blank(f, o + 256 * p, o + 256 * p + 256) && (healthy ==> ok)
  {
    if healthy && Blank(f0, o, o + 256 * n) {
      HoldsExtend(f, g, o, d, 256 * p, 256 * p + 256);
    }
  }

  /** A cache loaded from 64 consecutive words of `data` holds exactly those 256 bytes. */
  lemma CacheHolds(stores: seq<Store>, p: word, data: seq<byte>, from: nat)
    requires 0x0800_0000 <= p && p % 256 == 0 && p + 256 <= 0x0804_0000
    requires from + 256 <= |data| && |stores| == 64
    requires forall i :: 0 <= i < 64 ==> stores[i] == Store(Add(p, 4 * i), WordAt(data, from + 4 * i))
    ensures FillsPage(stores) && stores[0].at == p
    ensures forall i :: 0 <= i < 256 ==> CachedByte(stores, i) == data[from + i]
  {
    forall i | 0 <= i < 256 ensures CachedByte(stores, i) == data[from + i] {
      var j := from + 4 * (i / 4);
      assert stores[i / 4].value == WordAt(data, j);
      BytesOfWord(data[j], data[j + 1], data[j + 2], data[j + 3]);
    }
  }

  lemma PageFromCache(f: seq<byte>, o: nat, cache: seq<Store>, data: seq<byte>, from: nat)
    requires FillsPage(cache) && o + 256 <= |f| && from + 256 <= |data|
    requires forall i :: 0 <= i < 256 ==> f[o + i] == CachedByte(cache, i)
    requires forall i :: 0 <= i < 256 ==> CachedByte(cache, i) == data[from + i]
    ensures Holds(f, o, data[from..from + 256])
  {
    var page := data[from..from + 256];
    forall i | 0 <= i < |page| ensures f[o + i] == page[i] { assert f[o + i] == CachedByte(cache, i); }
  }

  lemma OnlyEnd(s: set<Stat>)
    ensures PgErr !in s && WpErr !in s ==> s <= {EndOp}
  {
    forall x | x in s && PgErr !in s && WpErr !in s ensures x == EndOp {
      match x case PgErr => case WpErr => case EndOp =>
    }
  }

  class Fmc {
    const flash: array<byte>
    const healthy: bool
    var ctl: set<Ctl>
    var stat: set<Stat>
    var addr: word
    var stores: seq<Store>     // write cache
    ghost var log: seq<Launch> // every operation ever started

    /** Registers at rest, and every operation so far was started in good order. */
    ghost predicate Valid()
      reads this
    {
      && flash.Length == 0x4_0000
      && ctl * MODES == {} && Start !in ctl && FastStart !in ctl
      && stat == {}
      && stores == []
      && forall k :: 0 <= k < |log| ==> Clean(log[k])
    }

    ghost predicate Unlocked()
      reads this
    {
      Lock !in ctl && FastLock !in ctl
    }

    constructor (healthy: bool)
      ensures Valid() && fresh(flash) && this.healthy == healthy && log == []
    {
      flash := new byte[0x4_0000];
      this.healthy := healthy;
      ctl := {Lock, FastLock};
      stat := {};
      addr := 0;
      stores := [];
      log := [];
    }

    // ---------- Hardware ----------

    method Scramble(lo: nat, hi: nat)
      requires lo <= hi <= flash.Length
      modifies flash
      ensures SameOutside(old(flash[..]), flash[..], lo, hi)
    {
      for i := lo to hi
        invariant SameOutside(old(flash[..]), flash[..], lo, hi)
      {
        flash[i] := *;
      }
    }

    method Fill(lo: nat, hi: nat)
      requires lo <= hi <= flash.Length
      modifies flash
      ensures SameOutside(old(flash[..]), flash[..], lo, hi)
      ensures Blank(flash[..], lo, hi)
    {
      for i := lo to hi
        invariant SameOutside(old(flash[..]), flash[..], lo, hi)
        invariant Blank(flash[..], lo, i)
      {
        flash[i] := ErasedByte(i);
      }
    }

    /** One operation, from its start strobe until BUSY drops. */
    method Operate(op: Operation)
      requires flash.Length == 0x4_0000
      requires op.ErasePageAt? || op.ProgramPageAt? ==> op.base + 256 <= 0x4_0000
      requires op.EraseBlockAt? ==> op.base + 32768 <= 0x4_0000
      requires op.ProgramPageAt? ==> FillsPage(stores)
      modifies this`stat, flash
      ensures Effect(op, healthy, stores, old(flash[..]), flash[..], old(stat), stat)
    {
      var raised: set<Stat> := *;
      match op {
      case ErasePageAt(b) =>
        if healthy { Fill(b, b + 256); raised := {EndOp}; } else { Scramble(b, b + 256); }
      case EraseBlockAt(b) =>
        if healthy { raised := {EndOp}; }
        if raised == {EndOp} { Fill(b, b + 32768); } else { Scramble(b, b + 32768); }
      case ProgramPageAt(b) =>
        if healthy && Blank(flash[..], b, b + 256) {
          raised := {EndOp};
          Program(b);
        } else {
          Scramble(b, b + 256);
        }
      case Wild =>
        Scramble(0, flash.Length);
      }
      stat := stat + raised;
      assert old(stat) == {} ==> stat == raised;
    }

    method Program(b: nat)
      requires b + 256 <= flash.Length && FillsPage(stores)
      modifies flash
      ensures SameOutside(old(flash[..]), flash[..], b, b + 256)
      ensures forall i :: 0 <= i < 256 ==> flash[b + i] == CachedByte(stores, i)
    {
      for k := 0 to 256
        invariant SameOutside(old(flash[..]), flash[..], b, b + 256)
        invariant forall i :: 0 <= i < k ==> flash[b + i] == CachedByte(stores, i)
      {
        flash[b + k] := CachedByte(stores, k);
      }
    }

    /** Write to CTL. A rising START or FASTSTART runs the selected operation to completion. */
    method WriteCtl(v: set<Ctl>)
      requires flash.Length == 0x4_0000
      modifies this, flash
      ensures addr == old(addr)
      ensures (Start in old(ctl) || Start !in v) && (FastStart in old(ctl) || FastStart !in v) ==>
                && ctl == v && stat == old(stat) && stores == old(stores) && log == old(log)
                && flash[..] == old(flash[..])
      ensures (Start !in old(ctl) && Start in v) || (FastStart !in old(ctl) && FastStart in v) ==>
                var start := Start !in old(ctl) && Start in v;
                var fast := FastStart !in old(ctl) && FastStart in v;
                var op := Selected(v, start, fast, addr, old(stores));
                && (ctl == v - {FastStart} || ctl == v - {FastStart, Start})
                && stores == []
                && log == old(log) + [Launch(op, v * MODES, old(stat), Lock in v || FastLock in v,
                                             op.ProgramPageAt? ==> Blank(old(flash[..]), op.base, op.base + 256),
                                             stat)]
                && Effect(op, healthy, old(stores), old(flash[..]), flash[..], old(stat), stat)
    {
      var start := Start !in ctl && Start in v;
      var fast := FastStart !in ctl && FastStart in v;
      ctl := v;
      if start || fast {
        ghost var op := Selected(v, start, fast, addr, stores);
        ghost var stale, ready := stat, op.ProgramPageAt? ==> Blank(flash[..], op.base, op.base + 256);
        Operate(Selected(v, start, fast, addr, stores));
        log := log + [Launch(op, v * MODES, stale, Lock in v || FastLock in v, ready, stat)];
        stores := [];
        ctl := ctl - {FastStart};
        if * { ctl := ctl - {Start}; }
      }
    }

    /** STAT is write-1-to-clear. */
    method ClearStat(flags: set<Stat>)
      modifies this`stat
      ensures stat == old(stat) - flags
    {
      stat := stat - flags;
    }

    /** The two key sequences; they run only while the corresponding lock bit reads as set. */
    method FastUnlock()
      modifies this`ctl
      ensures ctl == old(ctl) - {Lock, FastLock}
    {
      if Lock in ctl { ctl := ctl - {Lock}; }
      if FastLock in ctl { ctl := ctl - {FastLock}; }
    }

    /** Read a word through the physical alias; outside flash the value is anything. */
    method ReadWord(at: int) returns (w: bv32)
      requires flash.Length == 0x4_0000
      ensures 0x0800_0000 <= at && at + 4 <= 0x0804_0000 ==> w == WordAt(flash[..], at - 0x0800_0000)
    {
      if 0x0800_0000 <= at && at + 4 <= 0x0804_0000 {
        var i := at - 0x0800_0000;
        w := WordOf(flash[i], flash[i + 1], flash[i + 2], flash[i + 3]);
      } else {
        w := *;
      }
    }

    method ReadByte(at: int) returns (b: byte)
      requires flash.Length == 0x4_0000
      ensures 0x0800_0000 <= at < 0x0804_0000 ==> b == flash[at - 0x0800_0000]
    {
      if 0x0800_0000 <= at < 0x0804_0000 { b := flash[at - 0x0800_0000]; } else { b := *; }
    }

    /** A store through the flash alias: it goes to the write cache. */
    method StoreWord(at: word, w: bv32)
      modifies this`stores
      ensures stores == old(stores) + [Store(at, w)]
    {
      stores := stores + [Store(at, w)];
    }

    // ---------- Driver ----------

    /** Are the 64 words at `a` all the erased pattern? */
    method PageIsErased(a: word) returns (erased: bool)
      requires flash.Length == 0x4_0000
      ensures InFlash(a, 256) && Offset(a) % 256 == 0 ==> erased == Blank(flash[..], Offset(a), Offset(a) + 256)
    {
      var p: int := Physical(a);
      for i := 0 to 64
        invariant InFlash(a, 256) && Offset(a) % 256 == 0 ==> Blank(flash[..], Offset(a), Offset(a) + 4 * i)
      {
        var w := ReadWord(p + 4 * i);
        if InFlash(a, 256) && Offset(a) % 256 == 0 { BlankSoFar(flash[..], Offset(a), i); }
        if w != 0xE339E339 { return false; }
      }
      return true;
    }

    /** Read the result flags, restore the registers, and say whether the operation ended cleanly. */
    method Conclude(mode: Ctl) returns (ok: bool)
      requires flash.Length == 0x4_0000
      requires ctl * MODES == {mode} && FastStart !in ctl
      modifies this, flash
      ensures ctl * MODES == {} && Start !in ctl && FastStart !in ctl
      ensures stat == {}
      ensures ok <==> old(stat) == {EndOp}
      ensures flash[..] == old(flash[..]) && log == old(log) && stores == old(stores)
      ensures Unlocked() == old(Unlocked())
    {
      var st := stat;
      OnlyEnd(st);
      OnlyEnd(st - {EndOp} - {PgErr, WpErr});
      ClearStat({EndOp});
      WriteCtl(ctl - {mode});
      WriteCtl(ctl - {Start});
      if PgErr in st || WpErr in st {
        ClearStat({PgErr, WpErr});
        return false;
      }
      if EndOp !in st { return false; }
      assert st == {EndOp};
      return true;
    }

    method ErasePage(a: word) returns (ok: bool)
      requires Valid()
      modifies this, flash
      ensures Valid() && Unlocked() && old(log) <= log && |log| == |old(log)| + 1
      ensures ok ==> Latest(log) == {EndOp}
      ensures InFlash(a, 256) && Offset(a) % 256 == 0 ==>
                && SameOutside(old(flash[..]), flash[..], Offset(a), Offset(a) + 256)
                && (ok <==> Latest(log) == {EndOp} && Blank(flash[..], Offset(a), Offset(a) + 256))
                && (healthy ==> ok)
                && log == old(log) + [PageErase(Offset(a), Latest(log))]
    {
      FastUnlock();
      WriteCtl(ctl + {FastErase});
      addr := Physical(a);
      assert (ctl + {Start}) * MODES == {FastErase};
      WriteCtl(ctl + {Start});
      assert ctl * MODES == {FastErase};
      ok := Conclude(FastErase);
      if !ok { return false; }
      ok := PageIsErased(a);
    }

    method Erase32k(a: word) returns (ok: bool)
      requires Valid()
      modifies this, flash
      ensures Valid() && Unlocked() && old(log) <= log && |log| == |old(log)| + 1
      ensures ok <==> Latest(log) == {EndOp}
      ensures InFlash(a, 32768) && Offset(a) % 32768 == 0 ==>
                && SameOutside(old(flash[..]), flash[..], Offset(a), Offset(a) + 32768)
                && (ok ==> Blank(flash[..], Offset(a), Offset(a) + 32768))
                && (healthy ==> ok)
                && log == old(log) + [BlockErase(Offset(a), Latest(log))]
    {
      FastUnlock();
      WriteCtl(ctl + {Ber32});
      addr := Physical(a);
      assert (ctl + {Start}) * MODES == {Ber32};
      WriteCtl(ctl + {Start});
      assert ctl * MODES == {Ber32};
      ok := Conclude(Ber32);
    }

    /** Erase `kb` kilobytes page by page. */
    method EraseRange(start: word, kb: nat) returns (ok: bool)
      requires Valid()
      modifies this, flash
      ensures Valid() && old(log) <= log
      ensures InFlash(start, kb * 1024) && Offset(start) % 256 == 0 ==>
                && SameOutside(old(flash[..]), flash[..], Offset(start), Offset(start) + kb * 1024)
                && (ok ==> Blank(flash[..], Offset(start), Offset(start) + kb * 1024))
                && (healthy ==> ok)
                && ErasesFrom(log, |old(log)|, Offset(start)) && |log| <= |old(log)| + kb * 4
                && EndedWell(log, |old(log)|, |log| - 1)
                && (if ok then |log| == |old(log)| + kb * 4 && EndedWell(log, |old(log)|, |log|)
                    else |old(log)| < |log| && FailedErase(log, flash[..]))
    {
      var a := start;
      ghost var inside := InFlash(start, kb * 1024) && Offset(start) % 256 == 0;
      ghost var o, n, f0, log0 := Offset(start), kb * 4, flash[..], log;
      for i := 0 to kb * 4
        invariant Valid() && log0 <= log
        invariant inside && i < n ==> Offset(a) == o + 256 * i
        invariant inside ==> Erasing(f0, flash[..], o, n, i, log0, log)
      {
        if inside {
          PageAt(o, i);
          if i + 1 < n { OffsetStep(a, 256); }
        }
        ghost var f, logged := flash[..], log;
        var done := ErasePage(a);
        if inside { ErasingStep(f0, f, flash[..], o, n, i, log0, logged, log, done); }
        if !done { return false; }
        a := Add(a, 256);
      }
      return true;
    }

    /** Load 256 bytes of `data` from `from` into the write cache, word by word. */
    method LoadCache(p: word, data: array<byte>, from: nat)
      requires from + 256 <= data.Length && stores == []
      requires data != flash
      modifies this`stores
      ensures |stores| == 64
      ensures forall i :: 0 <= i < 64 ==> stores[i] == Store(Add(p, 4 * i), WordAt(data[..], from + 4 * i))
    {
      for i := 0 to 64
        invariant |stores| == i
        invariant forall k :: 0 <= k < i ==> stores[k] == Store(Add(p, 4 * k), WordAt(data[..], from + 4 * k))
      {
        var j := from + 4 * i;
        StoreWord(Add(p, 4 * i), WordOf(data[j], data[j + 1], data[j + 2], data[j + 3]));
      }
    }

    /** The first half of `WriteBlock`: fill the cache and commit it. */
    method Strobe(a: word, data: array<byte>, from: nat)
      requires Valid() && Unlocked()
      requires from + 256 <= data.Length && data != flash
      modifies this, flash
      ensures ctl * MODES == {FastProgram} && Start !in ctl && FastStart !in ctl && Unlocked() && stores == []
      ensures |log| == |old(log)| + 1 && log[..|old(log)|] == old(log) && Clean(log[|old(log)|]) && Latest(log) == stat
      ensures InFlash(a, 256) && Offset(a) % 256 == 0 ==>
                && SameOutside(old(flash[..]), flash[..], Offset(a), Offset(a) + 256)
                && (healthy && Blank(old(flash[..]), Offset(a), Offset(a) + 256) ==>
                      stat == {EndOp} && Holds(flash[..], Offset(a), data[from..from + 256]))
                && log[|old(log)|] == PageProgram(Offset(a), Blank(old(flash[..]), Offset(a), Offset(a) + 256), stat)
    {
      WriteCtl(ctl + {FastProgram});
      LoadCache(Physical(a), data, from);
      if InFlash(a, 256) && Offset(a) % 256 == 0 { CacheHolds(stores, Physical(a), data[..], from); }
      assert (ctl + {FastStart}) * MODES == {FastProgram};
      ghost var cache := stores;
      WriteCtl(ctl + {FastStart});
      assert ctl * MODES == {FastProgram};
      if InFlash(a, 256) && Offset(a) % 256 == 0 && healthy && Blank(old(flash[..]), Offset(a), Offset(a) + 256) {
        PageFromCache(flash[..], Offset(a), cache, data[..], from);
        assert data[..][from..from + 256] == data[from..from + 256];
      }
    }

    /** Program one page from 256 bytes of `data`. */
    method WriteBlock(a: word, data: array<byte>, from: nat) returns (ok: bool)
      requires Valid() && Unlocked()
      requires from + 256 <= data.Length && data != flash
      modifies this, flash
      ensures Valid() && Unlocked() && old(log) <= log && |log| == |old(log)| + 1
      ensures ok <==> Latest(log) == {EndOp}
      ensures InFlash(a, 256) && Offset(a) % 256 == 0 ==>
                && PageProgrammed(old(flash[..]), flash[..], Offset(a), data[from..from + 256], healthy, ok)
                && log == old(log) + [PageProgram(Offset(a), Blank(old(flash[..]), Offset(a), Offset(a) + 256),
                                                  Latest(log))]
    {
      Strobe(a, data, from);
      var st := stat;
      OnlyEnd(st);
      OnlyEnd(st - {EndOp} - {PgErr, WpErr});
      WriteCtl(ctl - {Pg});
      WriteCtl(ctl - {FastProgram});
      ClearStat({EndOp});
      if PgErr in st || WpErr in st {
        ClearStat({PgErr, WpErr});
        return false;
      }
      if EndOp !in st { return false; }
      assert st == {EndOp};
      return true;
    }

    /**
     The loop invariant of `Write`: `p` of the `n` pages at `o` are done, in order, with nothing else
     touched; all of them ended well, except perhaps the latest if `ok` is false.
     */
    ghost predicate Writing(f0: seq<byte>, log0: seq<Launch>, o: nat, n: nat, p: nat, d: seq<byte>, ok: bool)
      reads this, flash
    {
      && Progress(f0, flash[..], o, n, p, d, healthy)
      && (Blank(f0, o, o + 256 * n) ==> ProgramLog(log0, log, o, p, ok))
    }

    /** One turn of the loop in `Write`. */
    method WriteNext(a: word, data: array<byte>, from: nat,
                     ghost f0: seq<byte>, ghost log0: seq<Launch>, ghost o: nat, ghost n: nat, ghost p: nat)
      returns (ok: bool)
      requires Valid() && Unlocked() && data != flash
      requires from == 256 * p && p < n && 256 * n <= data.Length
      modifies this, flash
      ensures Valid() && Unlocked() && old(log) <= log
      ensures o % 256 == 0 && o + 256 * n <= 0x4_0000 == |f0| && Offset(a) == o + from
              && old(Writing(f0, log0, o, n, p, data[..], true)) ==>
                && Writing(f0, log0, o, n, p + 1, data[..], ok)
                && (healthy && Blank(f0, o, o + 256 * n) ==> ok)
    {
      ghost var before, logged, d := flash[..], log, data[..];
      ghost var steady := o % 256 == 0 && o + 256 * n <= 0x4_0000 == |f0| && Offset(a) == o + from
                          && Writing(f0, log0, o, n, p, d, true);
      ok := WriteBlock(a, data, from);
      if steady {
        assert data[from..from + 256] == d[256 * p..256 * p + 256];
        ProgressStep(f0, before, flash[..], o, n, p, d, healthy, ok);
        if Blank(f0, o, o + 256 * n) { ProgramLogStep(log0, logged, log, o, p, ok); }
        assert data[..] == d;
      }
    }

    /** Program `size` bytes of `data`, rounded up to `n` whole pages. */
    method Write(start: word, data: array<byte>, size: nat, ghost n: nat) returns (ok: bool)
      requires Valid()
      requires size <= 256 * n < size + 256
      requires 256 * n <= data.Length && data != flash
      modifies this, flash
      ensures Valid() && old(log) <= log
      ensures InFlash(start, 256 * n) && Offset(start) % 256 == 0 ==>
                && SameOutside(old(flash[..]), flash[..], Offset(start), Offset(start) + 256 * n)
                && (Blank(old(flash[..]), Offset(start), Offset(start) + 256 * n) ==>
                      && old(log) <= log && ProgramsFrom(log, |old(log)|, Offset(start))
                      && |log| <= |old(log)| + n && EndedWell(log, |old(log)|, |log| - 1)
                      && (if ok then |log| == |old(log)| + n && EndedWell(log, |old(log)|, |log|)
                          else |old(log)| < |log| && Latest(log) != {EndOp})
                      && (healthy ==> ok && Holds(flash[..], Offset(start), data[..256 * n])))
    {
      FastUnlock();
      ghost var f0, log0, o, p := flash[..], log, Offset(start), 0;
      ghost var inside := InFlash(start, 256 * n) && o % 256 == 0;
      var a, from, left := start, 0, size as int;
      while left > 0
        invariant from == 256 * p && left == size - from && p <= n
        invariant Valid() && Unlocked() && old(log) <= log
        invariant inside && left > 0 ==> Offset(a) == o + from
        invariant inside ==> Writing(f0, log0, o, n, p, data[..], true)
        decreases left
      {
        var done := WriteNext(a, data, from, f0, log0, o, n, p);
        p := p + 1;
        if !done { return false; }
        if inside && left > 256 { OffsetStep(a, 256); }
        a, from, left := Add(a, 256), from + 256, left - 256;
      }
      return true;
    }

    method Verify(a: word, data: array<byte>, size: nat) returns (ok: bool)
      requires flash.Length == 0x4_0000 && size <= data.Length
      ensures InFlash(a, size) ==> ok == Holds(flash[..], Offset(a), data[..size])
    {
      var p: int := Physical(a);
      for i := 0 to size
        invariant InFlash(a, size) ==> Holds(flash[..], Offset(a), data[..i])
      {
        var b := ReadByte(p + i);
        if b != data[i] {
          assert InFlash(a, size) ==> flash[..][Offset(a) + i] != data[..size][i];
          return false;
        }
      }
      return true;
    }
  }
}
