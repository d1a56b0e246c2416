/** The download scripts real hosts use, and the end-to-end theorem for each of them. */
module Image {
  import opened Base
  import opened Flash
  import opened Dfu
  import opened Usb
  import opened Device
  import opened Commands
  import opened Transfer
  import opened Boot
  import opened Download

  // ---------- Items ----------

  /** `t` sends the five bytes of SET_ADDRESS: 0x21 and the address, lowest byte first. */
  predicate Points(t: Item, a: word) {
    t.Download? && t.block == 0 && IsCommand(t.data, 0x21, a)
  }

  /** `t` sends the five bytes of an erase: 0x41 and the address, lowest byte first. */
  predicate Clears(t: Item, a: word) {
    t.Download? && t.block == 0 && IsCommand(t.data, 0x41, a)
  }

  lemma PointsAnywhere(t: Item, a: word, target: word)
    requires Points(t, a)
    ensures CommandOf(t, target) == SetAddress(a)
  {
    CommandRead(target, t.data, a);
  }

  lemma ClearsAnywhere(t: Item, a: word, target: word)
    requires Clears(t, a)
    ensures CommandOf(t, target) == EraseSector(a)
  {
    CommandRead(target, t.data, a);
  }

  /** The five bytes that point the engine at APP_ADDRESS. */
  lemma TargetBytes()
    ensures Points(Download(0, [0x21, 0x00, 0x40, 0x00, 0x00]), APP_ADDRESS)
  {
  }

  lemma ConsItem(t: Item, ts: Script, target: word, done: nat)
    ensures Ascending([t] + ts, target, done) <==>
              Rises(t, target, done) && Ascending(ts, TargetAfter(t, target), MarkAfter(t, target, done))
    ensures AllFit([t] + ts, target) <==> Fits(t, target) && AllFit(ts, TargetAfter(t, target))
    ensures Pieces([t] + ts, target) ==
            (if CommandOf(t, target).Program? then [Piece(CommandOf(t, target).wa, t.data)] else [])
            + Pieces(ts, TargetAfter(t, target))
  {
    assert ([t] + ts)[1..] == ts;
  }

  lemma PrependErase(t: Item, ts: Script, base: word, target: word, done: nat)
    requires base < 0x4_0000 && done <= SectorBase(base) && CommandOf(t, target) == EraseSector(base)
    requires Ascending(ts, target, done) && AllFit(ts, target)
    ensures Ascending([t] + ts, target, done) && AllFit([t] + ts, target)
    ensures Pieces([t] + ts, target) == Pieces(ts, target)
  {
    ConsItem(t, ts, target, done);
  }

  lemma PrependTarget(t: Item, ts: Script, base: word, target: word, done: nat)
    requires base % 256 == 0 && base < 0x4_0000 && CommandOf(t, target) == SetAddress(base)
    requires Ascending(ts, base, done) && AllFit(ts, base)
    ensures Ascending([t] + ts, target, done) && AllFit([t] + ts, target)
    ensures Pieces([t] + ts, target) == Pieces(ts, base)
  {
    ConsItem(t, ts, target, done);
  }

  lemma WriteItem(t: Item, target: word, done: nat)
    requires t.Download? && 2 <= t.block && target % 256 == 0 && target <= FLASH_END
    requires done <= At(target, t.block) && At(target, t.block) + |t.data| <= FLASH_END
    ensures CommandOf(t, target) == Program(At(target, t.block))
    ensures Rises(t, target, done) && Fits(t, target)
    ensures TargetAfter(t, target) == target && MarkAfter(t, target, done) == At(target, t.block) + |t.data|
  {
    AlignedTarget(target, t.block);
  }

  lemma PrependWrite(t: Item, ts: Script, target: word, done: nat)
    requires t.Download? && 2 <= t.block && target % 256 == 0 && target <= FLASH_END
    requires done <= At(target, t.block) && At(target, t.block) + |t.data| <= FLASH_END
    requires Ascending(ts, target, At(target, t.block) + |t.data|) && AllFit(ts, target)
    ensures Ascending([t] + ts, target, done) && AllFit([t] + ts, target)
    ensures Pieces([t] + ts, target) == [Piece(At(target, t.block), t.data)] + Pieces(ts, target)
  {
    WriteItem(t, target, done);
    ConsItem(t, ts, target, done);
  }

  lemma HoldsCons(f: seq<byte>, p: Piece, ps: seq<Piece>)
    requires HoldsAll(f, [p] + ps)
    ensures Holds(f, p.at, p.data) && HoldsAll(f, ps)
  {
    assert ([p] + ps)[0] == p;
    assert forall i :: 0 <= i < |ps| ==> ps[i] == ([p] + ps)[i + 1];
  }

  lemma HoldsJoin(f: seq<byte>, at: nat, img: seq<byte>, n: nat)
    requires n <= |img| && Holds(f, at, img[..n]) && Holds(f, at + n, img[n..])
    ensures Holds(f, at, img)
  {
    forall i | 0 <= i < |img| ensures f[at + i] == img[i] {
      if i < n { assert img[..n][i] == img[i]; } else { assert f[at + n + (i - n)] == img[n..][i - n]; }
    }
  }

  // ---------- Blocks 2, 3, ... ----------

  function Head4096(img: seq<byte>): Chunk
    requires img != []
  {
    if |img| <= 4096 then img else img[..4096]
  }

  function Tail4096(img: seq<byte>): seq<byte> {
    if |img| <= 4096 then [] else img[4096..]
  }

  /** Where block `block` lands. */
  function At(target: word, block: u16): int {
    target + (block - 2) * 4096
  }

  /** The image in blocks of 4096 bytes, numbered from `block`. */
  function Blocks(img: seq<byte>, block: u16): Script
    requires 4096 * block as int + |img| < 0x1000_0000
    decreases |img|
  {
    if img == [] then []
    else [Download(block, Head4096(img))] + if |img| <= 4096 then [] else Blocks(img[4096..], block + 1)
  }

  /** Blocks rise, fit, and put the image together. */
  lemma {:induction false} BlocksWork(img: seq<byte>, block: u16, target: word, done: nat)
    requires 2 <= block && 4096 * block as int + |img| < 0x1000_0000
    requires target % 256 == 0 && target <= FLASH_END && done <= At(target, block)
    requires At(target, block) + |img| <= FLASH_END
    ensures Ascending(Blocks(img, block), target, done) && AllFit(Blocks(img, block), target)
    ensures img != [] ==>
              forall f :: HoldsAll(f, Pieces(Blocks(img, block), target)) ==> Holds(f, At(target, block), img)
    decreases |img|
  {
    if img != [] {
      var c, at := Head4096(img), At(target, block);
      var rest := if |img| <= 4096 then [] else Blocks(img[4096..], block + 1);
      if |img| > 4096 { BlocksWork(img[4096..], block + 1, target, at + 4096); }
      PrependWrite(Download(block, c), rest, target, done);
      HeldAll(img, at, Pieces(rest, target));
    }
  }

  // ---------- Polls and other traffic in between ----------

  /** The downloads of a script, without polls and other traffic. */
  function Downloads(ts: Script): Script {
    if ts == [] then []
    else (if ts[0].Download? then [ts[0]] else []) + Downloads(ts[1..])
  }

  /** Only the downloads decide whether a script rises and fits, and what it writes. */
  lemma {:induction false} OnlyDownloadsCount(ts: Script, target: word, done: nat)
    ensures Ascending(ts, target, done) <==> Ascending(Downloads(ts), target, done)
    ensures AllFit(ts, target) <==> AllFit(Downloads(ts), target)
    ensures Pieces(ts, target) == Pieces(Downloads(ts), target)
    decreases |ts|
  {
    if ts != [] {
      var t, rest := ts[0], ts[1..];
      OnlyDownloadsCount(rest, TargetAfter(t, target), MarkAfter(t, target, done));
      if t.Download? {
        ConsItem(t, Downloads(rest), target, done);
      } else {
        assert [] + Downloads(rest) == Downloads(rest);
      }
    }
  }

  /** From whatever target, the script rises, fits, and its pieces make up `img` at APP_ADDRESS. */
  ghost predicate Delivers(ts: Script, img: seq<byte>) {
    forall target: word :: DeliversFrom(ts, img, target)
  }

  ghost predicate DeliversFrom(ts: Script, img: seq<byte>, target: word) {
    Ascending(ts, target, 0) && AllFit(ts, target) && Assembles(ts, target, APP_ADDRESS, img)
  }

  lemma DownloadsDeliver(ts: Script, img: seq<byte>)
    requires Delivers(Downloads(ts), img)
    ensures Delivers(ts, img)
  {
    forall target: word ensures DeliversFrom(ts, img, target) {
      assert DeliversFrom(Downloads(ts), img, target);
      OnlyDownloadsCount(ts, target, 0);
    }
  }

  lemma {:induction false} AppendTarget(ts: Script, t: Item, a: word, target: word, done: nat)
    requires Ascending(ts, target, done) && AllFit(ts, target)
    requires Points(t, a) && a % 256 == 0 && a <= FLASH_END
    ensures Ascending(ts + [t], target, done) && AllFit(ts + [t], target)
    ensures Pieces(ts + [t], target) == Pieces(ts, target)
    decreases |ts|
  {
    if ts == [] {
      PointsAnywhere(t, a, target);
      assert [] + [t] == [t] + [];
      ConsItem(t, [], target, done);
    } else {
      var first, rest := ts[0], ts[1..];
      AppendTarget(rest, t, a, TargetAfter(first, target), MarkAfter(first, target, done));
      assert ts + [t] == [first] + (rest + [t]) && ts == [first] + rest;
      ConsItem(first, rest + [t], target, done);
      ConsItem(first, rest, target, done);
    }
  }

  /** A host may set the target once more before it leaves, as DfuSe hosts do. */
  lemma TargetAtEnd(ts: Script, img: seq<byte>, t: Item, a: word)
    requires Delivers(ts, img) && Points(t, a) && a % 256 == 0 && a <= FLASH_END
    ensures Delivers(ts + [t], img)
  {
    forall target: word ensures DeliversFrom(ts + [t], img, target) {
      assert DeliversFrom(ts, img, target);
      AppendTarget(ts, t, a, target, 0);
    }
  }

  // ---------- The plain script ----------

  /** Set the target once, then send blocks 2, 3, ... */
  ghost predicate PlainScript(ts: Script, img: seq<byte>)
    requires |img| <= 0x4_0000
  {
    ts != [] && Points(ts[0], APP_ADDRESS) && ts[1..] == Blocks(img, 2)
  }

  /** The plain script with any polls and other traffic in between. */
  ghost predicate ImageScript(ts: Script, img: seq<byte>)
    requires |img| <= 0x4_0000
  {
    PlainScript(Downloads(ts), img)
  }

  lemma PlainScriptWorks(ts: Script, img: seq<byte>, target: word)
    requires 0 < |img| <= FLASH_END - APP_ADDRESS && PlainScript(ts, img)
    ensures DeliversFrom(ts, img, target)
  {
    BlocksWork(img, 2, APP_ADDRESS, 0);
    PointsAnywhere(ts[0], APP_ADDRESS, target);
    PrependTarget(ts[0], Blocks(img, 2), APP_ADDRESS, target, 0);
    assert ts == [ts[0]] + Blocks(img, 2);
  }

  lemma ImageScriptWorks(ts: Script, img: seq<byte>)
    requires 0 < |img| <= FLASH_END - APP_ADDRESS && ImageScript(ts, img)
    ensures Delivers(ts, img)
  {
    forall target: word ensures DeliversFrom(Downloads(ts), img, target) {
      PlainScriptWorks(Downloads(ts), img, target);
    }
    DownloadsDeliver(ts, img);
  }

  /**
   End to end for any script that rises and puts the image together, carried out from any point `i` of any
   run: whatever the host did before, and whatever other traffic and idle polls there are in between.
   */
  lemma ScriptBoots(env: Env, ss: seq<Sys>, es: seq<Event>, os: seq<Output>, i: nat, ts: Script,
                    img: seq<byte>, m: seq<byte>)
    requires Run(env, ss, es, os) && i <= |es| && CarriesOut(es[i..], ts)
    requires Ascending(ts, ss[i].dfu.address, 0) && Assembles(ts, ss[i].dfu.address, APP_ADDRESS, img) && GoodImage(img)
    requires WentWell(env, ss[i].dfu.address, es[i..], os[i..], ts)
    requires Readable(m) && m[..FLASH_END] == ss[|es|].flash
    ensures Resets(ss[|es|]) && Bootable(m)
  {
    RunSplit(env, ss, es, os, i);
    DownloadThenBoot(env, ss[i..], es[i..], os[i..], ts, img, m);
  }

  /** The flash part works, or the host read status OK after every download. */
  ghost predicate Trusted(env: Env, es: seq<Event>, os: seq<Output>, ts: Script)
    requires |es| == |os| > 0
  {
    env.healthy || AllOk(ts, BusyOutputs(es[..|es| - 1], os[..|es| - 1]))
  }

  /** End to end for a script that needs no particular target to start from. */
  lemma DeliveryBoots(env: Env, ss: seq<Sys>, es: seq<Event>, os: seq<Output>, i: nat, ts: Script,
                      img: seq<byte>, m: seq<byte>)
    requires Run(env, ss, es, os) && i <= |es| && CarriesOut(es[i..], ts) && Trusted(env, es[i..], os[i..], ts)
    requires Delivers(ts, img) && GoodImage(img)
    requires Readable(m) && m[..FLASH_END] == ss[|es|].flash
    ensures Resets(ss[|es|]) && Bootable(m)
  {
    assert DeliversFrom(ts, img, ss[i].dfu.address);
    ScriptBoots(env, ss, es, os, i, ts, img, m);
  }

  /** End to end for the plain script: on a working part without any assumption about statuses. */
  lemma ImageBoots(env: Env, ss: seq<Sys>, es: seq<Event>, os: seq<Output>, i: nat, ts: Script,
                   img: seq<byte>, m: seq<byte>)
    requires Run(env, ss, es, os) && i <= |es| && CarriesOut(es[i..], ts) && Trusted(env, es[i..], os[i..], ts)
    requires GoodImage(img) && ImageScript(ts, img)
    requires Readable(m) && m[..FLASH_END] == ss[|es|].flash
    ensures Resets(ss[|es|]) && Bootable(m)
  {
    ImageScriptWorks(ts, img);
    DeliveryBoots(env, ss, es, os, i, ts, img, m);
  }

  // ---------- Erasing as well ----------

  /** All erases first, in any order and of any sectors. */
  ghost predicate Erases(ts: Script, addrs: seq<word>) {
    |ts| == |addrs| && forall i :: 0 <= i < |ts| ==> addrs[i] < FLASH_END && Clears(ts[i], addrs[i])
  }

  lemma FrontItem(t: Item, rest: Script, ts: Script)
    ensures ([t] + rest) + ts == [t] + (rest + ts)
  {
  }

  lemma {:induction false} EraseFirst(es: Script, addrs: seq<word>, ts: Script, target: word)
    requires Erases(es, addrs) && Ascending(ts, target, 0) && AllFit(ts, target)
    ensures Ascending(es + ts, target, 0) && AllFit(es + ts, target)
    ensures Pieces(es + ts, target) == Pieces(ts, target)
    decreases |es|
  {
    if es == [] {
      assert es + ts == ts;
    } else {
      var first, rest := es[0], es[1..];
      EraseFirst(rest, addrs[1..], ts, target);
      ClearsAnywhere(first, addrs[0], target);
      PrependErase(first, rest + ts, addrs[0], target, 0);
      FrontItem(first, rest, ts);
      assert es == [first] + rest;
    }
  }

  /** The downloads of `ts` are the erases `erases`, then a plain script. */
  ghost predicate EraseFirstScript(ts: Script, erases: Script, addrs: seq<word>, img: seq<byte>)
    requires |img| <= 0x4_0000
  {
    && Erases(erases, addrs) && erases <= Downloads(ts)
    && PlainScript(Downloads(ts)[|erases|..], img)
  }

  lemma EraseThenPlain(erases: Script, addrs: seq<word>, plain: Script, img: seq<byte>, target: word)
    requires 0 < |img| <= FLASH_END - APP_ADDRESS && Erases(erases, addrs) && PlainScript(plain, img)
    ensures DeliversFrom(erases + plain, img, target)
  {
    PlainScriptWorks(plain, img, target);
    EraseFirst(erases, addrs, plain, target);
  }

  lemma EraseFirstWorks(ts: Script, erases: Script, addrs: seq<word>, img: seq<byte>)
    requires 0 < |img| <= FLASH_END - APP_ADDRESS && EraseFirstScript(ts, erases, addrs, img)
    ensures Delivers(ts, img)
  {
    var plain := Downloads(ts)[|erases|..];
    assert Downloads(ts) == erases + plain;
    forall target: word ensures DeliversFrom(Downloads(ts), img, target) {
      EraseThenPlain(erases, addrs, plain, img, target);
    }
    DownloadsDeliver(ts, img);
  }

  /** Erase a sector, point at it, write it, and so on upwards. */
  predicate SectorSteps(ts: Script, img: seq<byte>, base: word)
    requires base as int + |img| <= 0x4_0000
    decreases |img|
  {
    if img == [] then ts == []
    else
      && |ts| >= 3
      && Clears(ts[0], base) && Points(ts[1], base) && ts[2] == Download(2, Head4096(img))
      && SectorSteps(ts[3..], Tail4096(img), if |img| <= 4096 then base else base + 4096)
  }

  /** Sector by sector, with any polls and other traffic in between. */
  ghost predicate SectorScript(ts: Script, img: seq<byte>)
    requires |img| <= FLASH_END - APP_ADDRESS
  {
    SectorSteps(Downloads(ts), img, APP_ADDRESS)
  }

  lemma SectorAlignment(base: word)
    requires base % 4096 == 0
    ensures base % 256 == 0 && (base as int + 4096) % 4096 == 0 && SectorBase(base) == base
  {
    var q := base / 4096;
    assert base == 256 * (16 * q) && base as int + 4096 == 4096 * (q + 1);
  }

  /** A command to set the target and one to write its first block, in front of the rest. */
  lemma OneTarget(point: Item, c: Chunk, rest: Script, base: word, target: word, done: nat)
    requires base % 256 == 0 && base as int + |c| <= 0x4_0000 && done <= base < 0x4_0000
    requires CommandOf(point, target) == SetAddress(base)
    requires Ascending(rest, base, base as int + |c|) && AllFit(rest, base)
    ensures var ts := [point] + ([Download(2, c)] + rest);
            && Ascending(ts, target, done) && AllFit(ts, target)
            && Pieces(ts, target) == [Piece(base, c)] + Pieces(rest, base)
  {
    PrependWrite(Download(2, c), rest, base, done);
    PrependTarget(point, [Download(2, c)] + rest, base, target, done);
  }

  /** The three items of a sector, in front of the rest. */
  lemma OneSector(erase: Item, point: Item, c: Chunk, rest: Script, base: word, target: word, done: nat)
    requires base % 4096 == 0 && base as int + |c| <= 0x4_0000 && done <= base < 0x4_0000
    requires CommandOf(erase, target) == EraseSector(base) && CommandOf(point, target) == SetAddress(base)
    requires Ascending(rest, base, base as int + |c|) && AllFit(rest, base)
    ensures var ts := [erase] + ([point] + ([Download(2, c)] + rest));
            && Ascending(ts, target, done) && AllFit(ts, target)
            && Pieces(ts, target) == [Piece(base, c)] + Pieces(rest, base)
  {
    SectorAlignment(base);
    OneTarget(point, c, rest, base, target, done);
    PrependErase(erase, [point] + ([Download(2, c)] + rest), base, target, done);
  }

  /** A script for a nonempty image starts with one sector. */
  lemma SectorFirst(ts: Script, img: seq<byte>, base: word, target: word, done: nat)
    requires img != [] && base % 4096 == 0 && base as int + |img| <= 0x4_0000 && done <= base
    requires SectorSteps(ts, img, base)
    requires Ascending(ts[3..], base, base as int + |Head4096(img)|) && AllFit(ts[3..], base)
    ensures Ascending(ts, target, done) && AllFit(ts, target)
    ensures Pieces(ts, target) == [Piece(base, Head4096(img))] + Pieces(ts[3..], base)
  {
    var c, rest := Head4096(img), ts[3..];
    ClearsAnywhere(ts[0], base, target);
    PointsAnywhere(ts[1], base, target);
    OneSector(ts[0], ts[1], c, rest, base, target, done);
    assert ts == [ts[0]] + ([ts[1]] + ([Download(2, c)] + rest));
  }

  lemma SectorRest(ts: Script, img: seq<byte>, base: word)
    requires img != [] && base as int + |img| <= 0x4_0000 && SectorSteps(ts, img, base)
    ensures |ts| >= 3
    ensures if |img| <= 4096 then ts[3..] == [] else SectorSteps(ts[3..], img[4096..], base + 4096)
  {
  }

  /** The first sector and the rest of the image make up the image. */
  lemma HeldAll(img: seq<byte>, at: nat, rest: seq<Piece>)
    requires img != []
    requires |img| > 4096 ==> forall f :: HoldsAll(f, rest) ==> Holds(f, at + 4096, img[4096..])
    ensures forall f :: HoldsAll(f, [Piece(at, Head4096(img))] + rest) ==> Holds(f, at, img)
  {
    forall f | HoldsAll(f, [Piece(at, Head4096(img))] + rest) ensures Holds(f, at, img) {
      HeldSector(f, at, img, rest);
    }
  }

  lemma {:induction false} Sectors(ts: Script, img: seq<byte>, base: word, target: word, done: nat)
    requires base % 4096 == 0 && base as int + |img| <= 0x4_0000 && done <= base && SectorSteps(ts, img, base)
    ensures Ascending(ts, target, done) && AllFit(ts, target)
    ensures img != [] ==> forall f :: HoldsAll(f, Pieces(ts, target)) ==> Holds(f, base, img)
    decreases |img|
  {
    if img != [] {
      var rest := ts[3..];
      SectorAlignment(base);
      SectorRest(ts, img, base);
      if |img| > 4096 { Sectors(rest, img[4096..], base + 4096, base, base + 4096); }
      SectorFirst(ts, img, base, target, done);
      HeldAll(img, base, Pieces(rest, base));
    }
  }

  lemma HeldSector(f: seq<byte>, at: nat, img: seq<byte>, ps: seq<Piece>)
    requires img != [] && HoldsAll(f, [Piece(at, Head4096(img))] + ps)
    requires |img| > 4096 ==> (HoldsAll(f, ps) ==> Holds(f, at + 4096, img[4096..]))
    ensures Holds(f, at, img)
  {
    HoldsCons(f, Piece(at, Head4096(img)), ps);
    if |img| > 4096 { HoldsJoin(f, at, img, 4096); }
  }

  lemma SectorScriptWorks(ts: Script, img: seq<byte>)
    requires 0 < |img| <= FLASH_END - APP_ADDRESS && SectorScript(ts, img)
    ensures Delivers(ts, img)
  {
    forall target: word ensures DeliversFrom(Downloads(ts), img, target) {
      Sectors(Downloads(ts), img, APP_ADDRESS, target, 0);
    }
    DownloadsDeliver(ts, img);
  }

  /** End to end for the scripts that erase: sector by sector, or everything first. */
  lemma ErasingImageBoots(env: Env, ss: seq<Sys>, es: seq<Event>, os: seq<Output>, i: nat, ts: Script,
                          erases: Script, addrs: seq<word>, img: seq<byte>, m: seq<byte>)
    requires Run(env, ss, es, os) && i <= |es| && CarriesOut(es[i..], ts) && Trusted(env, es[i..], os[i..], ts)
    requires GoodImage(img) && (SectorScript(ts, img) || EraseFirstScript(ts, erases, addrs, img))
    requires Readable(m) && m[..FLASH_END] == ss[|es|].flash
    ensures Resets(ss[|es|]) && Bootable(m)
  {
    if SectorScript(ts, img) {
      SectorScriptWorks(ts, img);
    } else {
      EraseFirstWorks(ts, erases, addrs, img);
    }
    DeliveryBoots(env, ss, es, os, i, ts, img, m);
  }
}
