/** The bootloader's own flash survives every run in which the host stays in the application region. */
module Region {
  import opened Base
  import opened Dfu
  import opened Usb
  import opened Device
  import opened Runs

  predicate InRegion(a: int) {
    APP_ADDRESS <= a < FLASH_END
  }

  /** Step `k` of a run delivered a SET_ADDRESS command. */
  ghost predicate SetsTarget(ss: seq<Sys>, os: seq<Output>, k: nat)
    requires k < |os| && |ss| == |os| + 1
  {
    os[k].delivered.Some? && Decode(ss[k].dfu.address, ss[k].dfu.block, os[k].delivered.value).SetAddress?
  }

  /** A SET_ADDRESS was delivered before step `k`. */
  ghost predicate Targeted(ss: seq<Sys>, os: seq<Output>, k: nat)
    requires k <= |os| && |ss| == |os| + 1
  {
    exists m: nat :: m < k && SetsTarget(ss, os, m)
  }

  /**
   What the host may have delivered at step `k`: targets and erase addresses in the application region,
   targets on page boundaries, and no data block before the first target.
   */
  ghost predicate Confined(ss: seq<Sys>, os: seq<Output>, k: nat)
    requires k < |os| && |ss| == |os| + 1
  {
    os[k].delivered.Some? ==>
      match Decode(ss[k].dfu.address, ss[k].dfu.block, os[k].delivered.value)
      case SetAddress(a) => InRegion(a) && a % 256 == 0
      case EraseSector(a) => InRegion(a)
      case Program(_) => Targeted(ss, os, k)
      case _ => true
  }

  ghost predicate SameBelow(f: seq<byte>, g: seq<byte>, limit: nat) {
    |f| == |g| && limit <= |f| && forall i :: 0 <= i < limit ==> g[i] == f[i]
  }

  lemma AlignedBlock(a: nat, block: nat)
    requires a % 256 == 0 && block >= 2
    ensures (a + (block - 2) * 4096) % 256 == 0
  {
    var q := a / 256;
    assert a + (block - 2) * 4096 == 256 * (q + 16 * (block - 2));
  }

  lemma NoWrap(a: nat, block: nat, n: nat)
    requires a < 0x4_0000 && 2 <= block < 0x1_0000 && n <= 4096
    ensures Add(a, (block - 2) * 4096) == a + (block - 2) * 4096
    ensures Add(Add(a, (block - 2) * 4096), n) == a + (block - 2) * 4096 + n
  {
  }

  lemma SectorInRegion(a: word)
    requires InRegion(a)
    ensures 0x4000 <= SectorBase(a) && SectorBase(a) + 4096 <= 0x4_0000
  {
    var q := a / 4096;
    assert SectorBase(a) == 4096 * q;
  }

  lemma EraseStaysAbove(healthy: bool, d: Dfu, f: seq<byte>, data: seq<byte>, d': Dfu, g: seq<byte>, a: word)
    requires |f| == 0x4_0000 && DataStep(healthy, d, f, data, d', g)
    requires Decode(d.address, d.block, data) == EraseSector(a) && InRegion(a)
    ensures SameBelow(f, g, 0x4000)
  {
    SectorInRegion(a);
    assert EraseEffect(healthy, f, SectorBase(a), g, d'.status == Ok);
  }

  lemma ProgramStaysAbove(healthy: bool, d: Dfu, f: seq<byte>, data: seq<byte>, d': Dfu, g: seq<byte>, wa: word)
    requires |f| == 0x4_0000 && DataStep(healthy, d, f, data, d', g)
    requires d.block < 0x1_0000 && |data| <= 4096
    requires Decode(d.address, d.block, data) == Program(wa) && InRegion(d.address) && d.address % 256 == 0
    ensures SameBelow(f, g, 0x4000)
  {
    NoWrap(d.address, d.block, |data|);
    AlignedBlock(d.address, d.block);
    assert wa + |data| <= FLASH_END ==> ProgramEffect(healthy, f, wa, data, g, d'.status == Ok);
  }

  /** Whatever a confined command does, it does at or above APP_ADDRESS. */
  lemma DataStaysAbove(healthy: bool, d: Dfu, f: seq<byte>, data: seq<byte>, d': Dfu, g: seq<byte>)
    requires |f| == 0x4_0000 && DataStep(healthy, d, f, data, d', g)
    requires d.block < 0x1_0000 && |data| <= 4096
    requires match Decode(d.address, d.block, data)
             case EraseSector(a) => InRegion(a)
             case Program(_) => InRegion(d.address) && d.address % 256 == 0
             case _ => true
    ensures SameBelow(f, g, 0x4000)
  {
    match Decode(d.address, d.block, data)
    case EraseSector(a) => EraseStaysAbove(healthy, d, f, data, d', g, a);
    case Program(wa) => ProgramStaysAbove(healthy, d, f, data, d', g, wa);
    case _ =>
  }

  /** Effect of one turn on the target address and on the protected bytes. */
  lemma RegionTurn(env: Env, ss: seq<Sys>, es: seq<Event>, os: seq<Output>, k: nat)
    requires Run(env, ss, es, os) && k < |es| && ss[k].dfu.block < 0x1_0000
    requires Confined(ss, os, k)
    requires Targeted(ss, os, k) ==> InRegion(ss[k].dfu.address) && ss[k].dfu.address % 256 == 0
    ensures SameBelow(ss[k].flash, ss[k + 1].flash, 0x4000) && ss[k + 1].dfu.block < 0x1_0000
    ensures SetsTarget(ss, os, k) ==> InRegion(ss[k + 1].dfu.address) && ss[k + 1].dfu.address % 256 == 0
    ensures !SetsTarget(ss, os, k) ==> ss[k + 1].dfu.address == ss[k].dfu.address
  {
    assert Turned(env, ss, es, os, k);
    if os[k].delivered.Some? {
      DataStaysAbove(env.healthy, ss[k].dfu, ss[k].flash, os[k].delivered.value, ss[k + 1].dfu, ss[k + 1].flash);
    }
  }

  /** No byte below APP_ADDRESS ever changes. */
  lemma {:induction false} BootloaderPreserved(env: Env, ss: seq<Sys>, es: seq<Event>, os: seq<Output>, k: nat)
    requires Run(env, ss, es, os) && Starts(ss) && k <= |es|
    requires forall i: nat :: i < |es| ==> Confined(ss, os, i)
    ensures SameBelow(ss[0].flash, ss[k].flash, APP_ADDRESS)
    ensures Targeted(ss, os, k) ==> InRegion(ss[k].dfu.address) && ss[k].dfu.address % 256 == 0
    ensures ss[k].dfu.block < 0x1_0000
  {
    assert Head(ss[0]) by {
      if |es| > 0 { assert Turned(env, ss, es, os, 0); }
    }
    if k > 0 {
      BootloaderPreserved(env, ss, es, os, k - 1);
      RegionTurn(env, ss, es, os, k - 1);
      if Targeted(ss, os, k) && !SetsTarget(ss, os, k - 1) {
        var m: nat :| m < k && SetsTarget(ss, os, m);
        assert m < k - 1;
      }
    }
  }
}
