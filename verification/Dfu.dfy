/**
 The DFU / DfuSe engine (src_stage2/dfu.cpp): class requests, DfuSe commands and data blocks.
 `Request` and `DataStep` are the specification; class `Engine` is the code.
 */
module Dfu {
  import opened Base
  import opened Flash

  datatype State =
    | AppIdle | AppDetach | DfuIdle | DnloadSync | DnBusy | DnloadIdle
    | ManifestSync | Manifest | ManifestWaitReset | UploadIdle | Error

  datatype Status = Ok | ErrWrite | ErrErase | ErrVerify | ErrAddress | ErrUnknown

  function StateCode(s: State): byte {
    match s
    case AppIdle => 0 case AppDetach => 1 case DfuIdle => 2 case DnloadSync => 3 case DnBusy => 4
    case DnloadIdle => 5 case ManifestSync => 6 case Manifest => 7 case ManifestWaitReset => 8
    case UploadIdle => 9 case Error => 10
  }

  function StatusCode(s: Status): byte {
    match s
    case Ok => 0 case ErrWrite => 3 case ErrErase => 4 case ErrVerify => 7 case ErrAddress => 8 case ErrUnknown => 14
  }

  datatype Dfu = Dfu(state: State, status: Status, address: word, block: nat)

  // ---------- Class requests ----------

  const DETACH: nat := 0
  const DNLOAD: nat := 1
  const UPLOAD: nat := 2
  const GETSTATUS: nat := 3
  const CLRSTATUS: nat := 4
  const GETSTATE: nat := 5
  const ABORT: nat := 6

  /** New engine state and response of a class request. */
  function Request(d: Dfu, code: nat, value: nat, length: nat): (Dfu, seq<byte>) {
    match code
    case 0 => (d.(state := AppDetach, status := Ok), [])
    case 1 =>
      if length == 0 then (d.(state := ManifestSync, status := Ok), [])
      else (d.(state := DnloadSync, status := Ok, block := value), [])
    case 2 => (d.(state := UploadIdle, status := Ok), [])
    case 3 =>
      var s := Polled(d.state);
      (d.(state := s), [StatusCode(d.status), 10, 0, 0, StateCode(s), 0])
    case 4 => (d.(state := DfuIdle, status := Ok), [])
    case 5 => (d, [StateCode(d.state)])
    case 6 => (d.(state := DfuIdle, status := Ok), [])
    case _ => (d, [])
  }

  /** How GETSTATUS moves the state. */
  function Polled(s: State): State {
    match s
    case DnloadSync => DnBusy
    case DnBusy => DnloadIdle
    case ManifestSync => Manifest
    case _ => s
  }

  // ---------- Data ----------

  datatype Command = Nothing | SetAddress(a: word) | EraseSector(a: word) | Unknown | Program(wa: word)

  /** Little-endian 32-bit operand of a DfuSe command. */
  function Operand(data: seq<byte>): word
    requires |data| >= 5
  {
    data[1] as int + 0x100 * data[2] as int + 0x1_0000 * data[3] as int + 0x100_0000 * data[4] as int
  }

  function Decode(address: word, block: nat, data: seq<byte>): Command {
    if block == 0 && |data| >= 5 then
      if data[0] == 0x21 then SetAddress(Operand(data))
      else if data[0] == 0x41 then EraseSector(Operand(data))
      else Unknown
    else if block >= 2 && |data| > 0 then Program(Add(address, (block - 2) * 4096))
    else Nothing
  }

  /** How far above sector `s` an erase of `s` may reach. */
  function EraseTop(s: nat): nat {
    if s % 32768 == 0 then s + 32768 else s + 4096
  }

  /** Which of the two erases runs decides how far it reaches, inside flash. */
  lemma SectorReach(base: word)
    requires base % 4096 == 0 && InFlash(base, 4096)
    ensures Offset(base) % 256 == 0
    ensures base % 32768 == 0 ==>
              InFlash(base, 32768) && Offset(base) % 32768 == 0 && EraseTop(Offset(base)) == Offset(base) + 32768
    ensures base % 32768 != 0 ==> EraseTop(Offset(base)) == Offset(base) + 4096
  {
    OffsetAlignment(base);
    Sixteenth(base, base / 4096);
  }

  lemma Sixteenth(base: nat, q: nat)
    requires base == 4096 * q
    ensures base % 256 == 0
  {
    assert base == 256 * (16 * q);
  }

  /** The erase command on the sector at offset `s`, whichever of its three strategies ran. */
  ghost predicate EraseEffect(healthy: bool, f: seq<byte>, s: nat, g: seq<byte>, ok: bool) {
    if Blank(f, s, s + 4096) then ok && g == f
    else
      && SameOutside(f, g, s, EraseTop(s))
      && (ok ==> Blank(g, s, EraseTop(s)))
      && (healthy ==> ok)
  }

  /** A data block written at `wa`. */
  ghost predicate ProgramEffect(healthy: bool, f: seq<byte>, wa: nat, data: seq<byte>, g: seq<byte>, ok: bool) {
    && SameOutside(f, g, wa, wa + PageCeiling(|data|))
    && (ok ==> Holds(g, wa, data))
    && (healthy ==> ok)
  }

  ghost predicate Finished(d: Dfu, d': Dfu, errors: set<Status>) {
    d' == d.(status := Ok) || (d' == d.(status := d'.status, state := Error) && d'.status in errors)
  }

  /** Everything the data handler promises, for every address and every flash behaviour. */
  ghost predicate DataStep(healthy: bool, d: Dfu, f: seq<byte>, data: seq<byte>, d': Dfu, g: seq<byte>) {
    && |f| == |g|
    && match Decode(d.address, d.block, data)
       case Nothing => d' == d && g == f
       case SetAddress(a) => d' == d.(address := a, status := Ok) && g == f
       case Unknown => d' == d.(status := ErrUnknown, state := Error) && g == f
       case EraseSector(a) =>
         && Finished(d, d', {ErrErase})
         && (InFlash(SectorBase(a), 4096) ==> EraseEffect(healthy, f, Offset(SectorBase(a)), g, d'.status == Ok))
       case Program(wa) =>
         if Add(wa, |data|) > FLASH_END then
           d' == d.(status := ErrAddress, state := Error) && g == f
         else
           && Finished(d, d', {ErrErase, ErrWrite, ErrVerify})
           && (wa % 256 == 0 && wa + |data| <= FLASH_END ==>
                 ProgramEffect(healthy, f, wa, data, g, d'.status == Ok))
  }

  lemma PageCount(len: nat) returns (n: nat)
    ensures 256 * n == PageCeiling(len)
  {
    n := (len + 255) / 256;
  }

  /** Rounding up to whole pages stays inside flash and inside the receive buffer. */
  lemma PagesFit(wa: nat, len: nat, n: nat)
    requires wa % 256 == 0 && wa + len <= FLASH_END && 256 * n < len + 256
    ensures wa + 256 * n <= FLASH_END
  {
    var q := wa / 256;
    assert wa == 256 * q;
  }

  /** The `p`-th page of a block is a page of flash, and one of the `n`. */
  lemma PageInside(wa: nat, len: nat, n: nat, p: nat)
    requires wa % 256 == 0 && wa + len <= FLASH_END && 256 * p < len <= 256 * n
    ensures p < n && wa + 256 * p + 256 <= FLASH_END && (wa + 256 * p) % 256 == 0
    ensures Offset(wa + 256 * p) == wa + 256 * p
  {
    var q := wa / 256;
    assert wa == 256 * q && wa + 256 * p == 256 * (q + p);
  }

  lemma BufferSuffices(len: nat, n: nat)
    requires len <= 4096 && 256 * n < len + 256
    ensures 256 * n <= 4096
  {
  }

  /**
   How a data block came to its status. `ops` are the operations launched for it: erases of the pages inside
   the block that were not blank, then, from `split` on, one program for each page of the block in order.
   Each status says what went wrong: an erase, and nothing was programmed; the latest program; or the contents.
   */
  ghost predicate BlockTrace(ops: seq<Launch>, split: nat, f: seq<byte>, wa: nat, n: nat, data: seq<byte>,
                             g: seq<byte>, s: Status) {
    && split <= |ops| <= split + n
    && ErasesWithin(f, ops, 0, split, wa, wa + 256 * n) && ProgramsFrom(ops, split, wa)
    && EndedWell(ops, split, |ops| - 1)
    && (s == ErrErase <==> |ops| == split)
    && (s == ErrErase ==> FailedErase(ops, g))
    && (s == ErrWrite <==> |ops| > split && Latest(ops) != {EndOp})
    && (s == ErrVerify <==> |ops| == split + n && Latest(ops) == {EndOp} && !Holds(g, wa, data))
    && (s == Ok <==> |ops| == split + n && Latest(ops) == {EndOp} && Holds(g, wa, data))
  }

  /** What making `n` pages from `wa` blank promises. */
  ghost predicate Cleared(healthy: bool, f: seq<byte>, g: seq<byte>, wa: nat, n: nat,
                          log: seq<Launch>, log': seq<Launch>, ok: bool) {
    && SameOutside(f, g, wa, wa + 256 * n) && (ok ==> Blank(g, wa, wa + 256 * n)) && (healthy ==> ok)
    && log <= log' && ErasesWithin(f, log', |log|, |log'|, wa, wa + 256 * n)
    && (!ok ==> |log| < |log'| && FailedErase(log', g))
  }

  /** What programming and verifying `n` blank pages from `wa` promises. */
  ghost predicate Programmed(healthy: bool, f: seq<byte>, g: seq<byte>, wa: nat, n: nat, data: seq<byte>,
                             log: seq<Launch>, log': seq<Launch>, s: Status) {
    && SameOutside(f, g, wa, wa + 256 * n) && (healthy ==> s == Ok)
    && log <= log' && |log| < |log'| <= |log| + n
    && ProgramsFrom(log', |log|, wa) && EndedWell(log', |log|, |log'| - 1)
    && (if s == ErrWrite then Latest(log') != {EndOp}
        else |log'| == |log| + n && Latest(log') == {EndOp} && s == if Holds(g, wa, data) then Ok else ErrVerify)
  }

  lemma ErasureTrace(healthy: bool, log: seq<Launch>, log': seq<Launch>, f: seq<byte>, wa: word, n: nat,
                     data: seq<byte>, g: seq<byte>)
    requires n > 0 && Cleared(healthy, f, g, wa, n, log, log', false)
    ensures Burnt(healthy, f, wa, data, g, log'[|log|..], |log'| - |log|, n, ErrErase)
  {
    var ops := log'[|log|..];
    assert ops[|ops| - 1] == log'[|log'| - 1];
  }

  lemma ProgramTrace(healthy: bool, log: seq<Launch>, erased: seq<Launch>, log': seq<Launch>, f: seq<byte>,
                     e: seq<byte>, wa: word, n: nat, data: seq<byte>, g: seq<byte>, s: Status)
    requires n > 0 && Cleared(healthy, f, e, wa, n, log, erased, true)
    requires Programmed(healthy, e, g, wa, n, data, erased, log', s)
    ensures Burnt(healthy, f, wa, data, g, log'[|log|..], |erased| - |log|, n, s)
  {
    var ops, split := log'[|log|..], |erased| - |log|;
    assert ops[|ops| - 1] == log'[|log'| - 1];
    assert forall k :: 0 <= k < |ops| ==> ops[k] == log'[|log| + k];
    assert forall k :: |log| <= k < |erased| ==> log'[k] == erased[k];
  }

  /** How an erase of the sector at `b` came to its status, whichever of its three strategies ran. */
  ghost predicate EraseTrace(ops: seq<Launch>, f: seq<byte>, b: nat, g: seq<byte>, s: Status) {
    if Blank(f, b, b + 4096) then ops == []
    else if b % 32768 == 0 then
      |ops| == 1 && ops[0] == BlockErase(b, Latest(ops)) && (s == Ok <==> Latest(ops) == {EndOp})
    else
      && 0 < |ops| <= 16 && ErasesFrom(ops, 0, b) && EndedWell(ops, 0, |ops| - 1)
      && (s == Ok <==> |ops| == 16 && Latest(ops) == {EndOp} && Blank(g, b, b + 4096))
      && (s == ErrErase <==> FailedErase(ops, g))
  }

  lemma SectorTrace(log: seq<Launch>, log': seq<Launch>, f: seq<byte>, b: nat, g: seq<byte>, ok: bool)
    requires log <= log' && |log'| <= |log| + 16 && !Blank(f, b, b + 4096) && b % 32768 != 0
    requires ErasesFrom(log', |log|, b) && EndedWell(log', |log|, |log'| - 1)
    requires if ok then |log'| == |log| + 16 && EndedWell(log', |log|, |log'|) && Blank(g, b, b + 4096)
             else |log| < |log'| && FailedErase(log', g)
    ensures EraseTrace(log'[|log|..], f, b, g, if ok then Ok else ErrErase)
  {
    var ops := log'[|log|..];
    assert ops[|ops| - 1] == log'[|log'| - 1];
    assert ok ==> Blank(g, ops[|ops| - 1].op.base, ops[|ops| - 1].op.base + 256);
  }

  /** The operations launched for a payload, all of them in good order. */
  ghost predicate DataTrace(d: Dfu, f: seq<byte>, data: seq<byte>, s: Status, g: seq<byte>, ops: seq<Launch>) {
    && (forall k :: 0 <= k < |ops| ==> Clean(ops[k]))
    && match Decode(d.address, d.block, data)
       case EraseSector(a) =>
         InFlash(SectorBase(a), 4096) ==> EraseTrace(ops, f, Offset(SectorBase(a)), g, s)
       case Program(wa) =>
         if Add(wa, |data|) > FLASH_END then ops == []
         else wa % 256 == 0 && wa + |data| <= FLASH_END ==>
                exists split: nat, n: nat ::
                  256 * n == PageCeiling(|data|) && BlockTrace(ops, split, f, wa, n, data, g, s)
       case _ => ops == []
  }

  lemma CleanTail(log: seq<Launch>, n: nat)
    requires n <= |log| && forall k :: 0 <= k < |log| ==> Clean(log[k])
    ensures forall k :: 0 <= k < |log[n..]| ==> Clean(log[n..][k])
  {
  }

  /** What burning a block promises, where the block lies on page boundaries inside flash. */
  ghost predicate Burnt(healthy: bool, f: seq<byte>, wa: word, data: seq<byte>, g: seq<byte>, ops: seq<Launch>,
                        split: int, n: nat, s: Status) {
    wa % 256 == 0 && wa + |data| <= FLASH_END ==>
      && SameOutside(f, g, wa, wa + 256 * n) && (healthy ==> s == Ok)
      && split >= 0 && BlockTrace(ops, split, f, wa, n, data, g, s)
  }

  lemma BlockRefused(healthy: bool, d: Dfu, f: seq<byte>, data: seq<byte>, d': Dfu, log: seq<Launch>, wa: word)
    requires d.block >= 2 && |data| > 0 && wa == Add(d.address, (d.block - 2) * 4096) && Add(wa, |data|) > FLASH_END
    requires d' == d.(status := ErrAddress, state := Error)
    ensures DataStep(healthy, d, f, data, d', f) && DataTrace(d, f, data, d'.status, f, log[|log|..])
  {
    assert Decode(d.address, d.block, data) == Program(wa) && log[|log|..] == [];
  }

  lemma BlockDone(healthy: bool, d: Dfu, f: seq<byte>, data: seq<byte>, d': Dfu, g: seq<byte>, ops: seq<Launch>,
                  wa: word, n: nat, split: int)
    requires |f| == |g| && d.block >= 2 && |data| > 0
    requires wa == Add(d.address, (d.block - 2) * 4096) && Add(wa, |data|) <= FLASH_END
    requires Finished(d, d', {ErrErase, ErrWrite, ErrVerify})
    requires 256 * n == PageCeiling(|data|) && forall k :: 0 <= k < |ops| ==> Clean(ops[k])
    requires Burnt(healthy, f, wa, data, g, ops, split, n, d'.status)
    ensures DataStep(healthy, d, f, data, d', g) && DataTrace(d, f, data, d'.status, g, ops)
  {
    assert Decode(d.address, d.block, data) == Program(wa);
  }

  /** Log entries `lo..hi` are page erases inside `[from, to)`, of pages that were not blank in `f`. */
  ghost predicate ErasesWithin(f: seq<byte>, log: seq<Launch>, lo: nat, hi: nat, from: nat, to: nat) {
    && hi <= |log|
    && forall k :: lo <= k < hi ==>
         log[k].op.ErasePageAt? && from <= log[k].op.base < to && !Blank(f, log[k].op.base, log[k].op.base + 256)
  }

  lemma HoldsPrefix(f: seq<byte>, at: int, d: seq<byte>, e: seq<byte>)
    requires Holds(f, at, d) && e <= d
    ensures Holds(f, at, e)
  {
  }

  /** Progress of making `n` pages from `wa` blank, after `p` of them. */
  ghost predicate Clearing(f0: seq<byte>, f: seq<byte>, wa: nat, n: nat, p: nat, log0: seq<Launch>, log: seq<Launch>) {
    && SameOutside(f0, f, wa, wa + 256 * p) && Blank(f, wa, wa + 256 * p)
    && log0 <= log && ErasesWithin(f0, log, |log0|, |log|, wa, wa + 256 * n)
  }

  /** What making the page at `o` blank promises. */
  ghost predicate PageCleared(healthy: bool, f: seq<byte>, g: seq<byte>, o: nat,
                              log: seq<Launch>, log': seq<Launch>, ok: bool) {
    && SameOutside(f, g, o, o + 256) && (ok ==> Blank(g, o, o + 256)) && (healthy ==> ok)
    && log <= log' && ErasesWithin(f, log', |log|, |log'|, o, o + 1)
    && (!ok ==> |log| < |log'| && FailedErase(log', g))
  }

  lemma ClearingStep(healthy: bool, f0: seq<byte>, f: seq<byte>, g: seq<byte>, wa: nat, n: nat, p: nat,
                     log0: seq<Launch>, log: seq<Launch>, log': seq<Launch>, ok: bool)
    requires Clearing(f0, f, wa, n, p, log0, log) && p < n && wa + 256 * p + 256 <= |f|
    requires PageCleared(healthy, f, g, wa + 256 * p, log, log', ok)
    ensures if ok then Clearing(f0, g, wa, n, p + 1, log0, log')
            else Cleared(healthy, f0, g, wa, n, log0, log', false)
  {
    assert Blank(f0, wa + 256 * p, wa + 256 * p + 256) ==> Blank(f, wa + 256 * p, wa + 256 * p + 256);
  }

  lemma ClearingDone(healthy: bool, f0: seq<byte>, g: seq<byte>, wa: nat, len: nat, n: nat, p: nat,
                     log0: seq<Launch>, log': seq<Launch>)
    requires Clearing(f0, g, wa, n, p, log0, log') && len <= 256 * n < len + 256 && 256 * p >= len && p <= n
    ensures Cleared(healthy, f0, g, wa, n, log0, log', true)
  {
    assert p == n;
  }

  class Engine {
    const fmc: Fmc
    var state: State
    var status: Status
    var address: word
    var block: nat

    constructor (fmc: Fmc)
      ensures this.fmc == fmc && View() == Dfu(DfuIdle, Ok, 0, 0)
    {
      this.fmc := fmc;
      state, status, address, block := DfuIdle, Ok, 0, 0;
    }

    ghost function View(): Dfu
      reads this
    {
      Dfu(state, status, address, block)
    }

    method HandleRequest(code: nat, value: nat, length: nat) returns (response: seq<byte>)
      modifies this
      ensures (View(), response) == Request(old(View()), code, value, length)
    {
      response := [];
      if code == DETACH {
        if value == 0 {
          status := Ok;
          state := AppDetach;
        } else {
          state := AppDetach;
          status := Ok;
        }
      } else if code == DNLOAD {
        if length == 0 {
          state := ManifestSync;
          status := Ok;
        } else {
          block := value;
          state := DnloadSync;
          status := Ok;
        }
      } else if code == UPLOAD {
        state := UploadIdle;
        status := Ok;
      } else if code == GETSTATUS {
        if state == DnloadSync {
          state := DnBusy;
        } else if state == DnBusy {
          state := DnloadIdle;
        } else if state == ManifestSync {
          state := Manifest;
        }
        response := [StatusCode(status), 10, 0, 0, StateCode(state), 0];
      } else if code == CLRSTATUS {
        status := Ok;
        state := DfuIdle;
      } else if code == GETSTATE {
        response := [StateCode(state)];
      } else if code == ABORT {
        state := DfuIdle;
        status := Ok;
      }
    }

    /** Is every page of the sector at `base` blank? */
    method SectorIsErased(base: word) returns (erased: bool)
      requires fmc.Valid() && base % 4096 == 0
      ensures InFlash(base, 4096) ==> erased == Blank(fmc.flash[..], Offset(base), Offset(base) + 4096)
    {
      erased := true;
      SectorLimit(base);
      Sixteenth(base, base / 4096);
      ghost var inside, n := InFlash(base, 4096), 0;
      var a: int, limit := base, Add(base, 4096);
      while a < limit
        invariant a == base + 256 * n && n <= 16
        invariant inside ==> Blank(fmc.flash[..], Offset(base), Offset(base) + 256 * n)
        decreases 16 - n
      {
        if inside { PageStep(base, n); }
        var blank := fmc.PageIsErased(a);
        if !blank { return false; }
        a, n := a + 256, n + 1;
      }
    }

    method EraseCommand(a: word)
      requires fmc.Valid()
      modifies this, fmc, fmc.flash
      ensures fmc.Valid() && old(fmc.log) <= fmc.log
      ensures Finished(old(View()), View(), {ErrErase})
      ensures InFlash(SectorBase(a), 4096) ==>
                && EraseEffect(fmc.healthy, old(fmc.flash[..]), Offset(SectorBase(a)), fmc.flash[..], status == Ok)
                && EraseTrace(fmc.log[|old(fmc.log)|..], old(fmc.flash[..]), Offset(SectorBase(a)), fmc.flash[..],
                              status)
    {
      var base: word := SectorBase(a);
      var erased := SectorIsErased(base);
      if erased {
        status := Ok;
      } else {
        var success;
        ghost var f, log := fmc.flash[..], fmc.log;
        if InFlash(base, 4096) { SectorReach(base); }
        if base % 32768 == 0 {
          success := fmc.Erase32k(base);
        } else {
          success := fmc.EraseRange(base, 4);
        }
        if !success {
          status := ErrErase;
          state := Error;
        } else {
          status := Ok;
        }
        if InFlash(base, 4096) && base % 32768 != 0 {
          SectorTrace(log, fmc.log, f, Offset(base), fmc.flash[..], success);
        }
      }
    }

    /** One turn of the erase loop: leave a blank page alone, erase any other. */
    method EnsureErased(a: word) returns (ok: bool)
      requires fmc.Valid()
      modifies fmc, fmc.flash
      ensures fmc.Valid() && old(fmc.log) <= fmc.log
      ensures InFlash(a, 256) && Offset(a) % 256 == 0 ==>
                PageCleared(fmc.healthy, old(fmc.flash[..]), fmc.flash[..], Offset(a), old(fmc.log), fmc.log, ok)
    {
      ok := fmc.PageIsErased(a);
      if !ok { ok := fmc.ErasePage(a); }
    }

    /** Blank every page that a write of `len` bytes at `wa` will touch; `n` is how many those are. */
    method ErasePages(wa: word, len: nat, ghost n: nat) returns (ok: bool)
      requires fmc.Valid() && 0 < len && Add(wa, len) <= FLASH_END
      requires len <= 256 * n < len + 256
      modifies fmc, fmc.flash
      ensures fmc.Valid() && old(fmc.log) <= fmc.log
      ensures wa % 256 == 0 && wa + len <= FLASH_END ==>
                Cleared(fmc.healthy, old(fmc.flash[..]), fmc.flash[..], wa, n, old(fmc.log), fmc.log, ok)
    {
      ghost var inside := wa % 256 == 0 && wa + len <= FLASH_END;
      ghost var f0, log0, p := fmc.flash[..], fmc.log, 0;
      var a: int, limit := PageBase(wa), Add(wa, len);
      while a < limit
        invariant fmc.Valid() && log0 <= fmc.log
        invariant inside ==> a == wa + 256 * p && p <= n
        invariant inside ==> Clearing(f0, fmc.flash[..], wa, n, p, log0, fmc.log)
      {
        if inside { PageInside(wa, len, n, p); }
        ghost var f, log := fmc.flash[..], fmc.log;
        var done := EnsureErased(a);
        if inside { ClearingStep(fmc.healthy, f0, f, fmc.flash[..], wa, n, p, log0, log, fmc.log, done); }
        if !done { return false; }
        a, p := a + 256, p + 1;
      }
      if inside { ClearingDone(fmc.healthy, f0, fmc.flash[..], wa, len, n, p, log0, fmc.log); }
      return true;
    }

    /**
     Erase, program and verify the `n` pages of a block. `split` marks, in the operation log, where
     erasing ended and programming began: the page programs are exactly the pages made blank, in order.
     */
    method Burn(wa: word, buf: array<byte>, len: nat, ghost n: nat) returns (result: Status, ghost split: nat)
      requires fmc.Valid() && buf != fmc.flash && 0 < len && Add(wa, len) <= FLASH_END
      requires len <= 256 * n < len + 256 && 256 * n <= buf.Length
      modifies fmc, fmc.flash
      ensures fmc.Valid() && old(fmc.log) <= fmc.log && result in {Ok, ErrErase, ErrWrite, ErrVerify}
      ensures Burnt(fmc.healthy, old(fmc.flash[..]), wa, buf[..len], fmc.flash[..], fmc.log[|old(fmc.log)|..],
                    split - |old(fmc.log)|, n, result)
    {
      ghost var inside, f, log := wa % 256 == 0 && wa + len <= FLASH_END, fmc.flash[..], fmc.log;
      if inside { PagesFit(wa, len, n); }
      var done := ErasePages(wa, len, n);
      split := |fmc.log|;
      if !done {
        if inside { ErasureTrace(fmc.healthy, log, fmc.log, f, wa, n, buf[..len], fmc.flash[..]); }
        return ErrErase, split;
      }
      ghost var e, erased := fmc.flash[..], fmc.log;
      result := WriteAndVerify(wa, buf, len, n);
      if inside { ProgramTrace(fmc.healthy, log, erased, fmc.log, f, e, wa, n, buf[..len], fmc.flash[..], result); }
    }

    /** The second half of `Burn`, on pages that are blank. */
    method WriteAndVerify(wa: word, buf: array<byte>, len: nat, ghost n: nat) returns (result: Status)
      requires fmc.Valid() && buf != fmc.flash && 0 < len && len <= 256 * n < len + 256 && 256 * n <= buf.Length
      modifies fmc, fmc.flash
      ensures fmc.Valid() && old(fmc.log) <= fmc.log && result in {Ok, ErrWrite, ErrVerify}
      ensures wa % 256 == 0 && wa + 256 * n <= FLASH_END && Blank(old(fmc.flash[..]), wa, wa + 256 * n) ==>
                Programmed(fmc.healthy, old(fmc.flash[..]), fmc.flash[..], wa, n, buf[..len], old(fmc.log), fmc.log,
                           result)
    {
      ghost var d := buf[..256 * n];
      var done := fmc.Write(wa, buf, len, n);
      if !done { return ErrWrite; }
      done := fmc.Verify(wa, buf, len);
      assert Holds(fmc.flash[..], wa, d) ==> Holds(fmc.flash[..], wa, buf[..len]) by {
        if Holds(fmc.flash[..], wa, d) { HoldsPrefix(fmc.flash[..], wa, d, buf[..len]); }
      }
      return if done then Ok else ErrVerify;
    }

    /** A data block that fits, for which `wa` is the address. */
    method BurnBlock(wa: word, buf: array<byte>, len: nat)
      requires fmc.Valid() && buf != fmc.flash && 0 < len <= buf.Length == TRANSFER && block >= 2
      requires wa == Add(address, (block - 2) * 4096) && Add(wa, len) <= FLASH_END
      modifies this, fmc, fmc.flash
      ensures fmc.Valid() && old(fmc.log) <= fmc.log
      ensures DataStep(fmc.healthy, old(View()), old(fmc.flash[..]), buf[..len], View(), fmc.flash[..])
      ensures DataTrace(old(View()), old(fmc.flash[..]), buf[..len], status, fmc.flash[..], fmc.log[|old(fmc.log)|..])
    {
      ghost var n := PageCount(len);
      BufferSuffices(len, n);
      ghost var log := fmc.log;
      var result;
      ghost var split;
      result, split := Burn(wa, buf, len, n);
      status := result;
      if result != Ok { state := Error; }
      CleanTail(fmc.log, |log|);
      assert Finished(old(View()), View(), {ErrErase, ErrWrite, ErrVerify});
      BlockDone(fmc.healthy, old(View()), old(fmc.flash[..]), buf[..len], View(), fmc.flash[..], fmc.log[|log|..],
                wa, n, split - |log|);
    }

    /** A data block. */
    method ProgramBlock(buf: array<byte>, len: nat)
      requires fmc.Valid() && buf != fmc.flash && 0 < len <= buf.Length == TRANSFER
      requires block >= 2
      modifies this, fmc, fmc.flash
      ensures fmc.Valid() && old(fmc.log) <= fmc.log
      ensures DataStep(fmc.healthy, old(View()), old(fmc.flash[..]), buf[..len], View(), fmc.flash[..])
      ensures DataTrace(old(View()), old(fmc.flash[..]), buf[..len], status, fmc.flash[..], fmc.log[|old(fmc.log)|..])
    {
      var wa := Add(address, (block - 2) * 4096);
      if Add(wa, len) > FLASH_END {
        status := ErrAddress;
        state := Error;
        BlockRefused(fmc.healthy, old(View()), fmc.flash[..], buf[..len], View(), fmc.log, wa);
      } else {
        BurnBlock(wa, buf, len);
      }
    }

    /** `buf[..len]` is what the host sent; `buf` itself is the whole receive buffer. */
    method HandleData(buf: array<byte>, len: nat)
      requires fmc.Valid() && buf != fmc.flash && len <= buf.Length == TRANSFER
      modifies this, fmc, fmc.flash
      ensures fmc.Valid() && old(fmc.log) <= fmc.log
      ensures DataStep(fmc.healthy, old(View()), old(fmc.flash[..]), buf[..len], View(), fmc.flash[..])
      ensures DataTrace(old(View()), old(fmc.flash[..]), buf[..len], status, fmc.flash[..], fmc.log[|old(fmc.log)|..])
    {
      if block == 0 && len >= 5 {
        var cmd, addr := buf[0], Operand(buf[..len]);
        if cmd == 0x21 {
          address := addr;
          status := Ok;
        } else if cmd == 0x41 {
          EraseCommand(addr);
        } else {
          status := ErrUnknown;
          state := Error;
        }
        return;
      }
      if block >= 2 && len > 0 {
        ProgramBlock(buf, len);
      }
    }
  }
}
