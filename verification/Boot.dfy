/** Stage 1: the boot decision (src_stage1/main.cpp) and the checksum loop (src_stage1/ch32_crc.c). */
module Boot {
  import opened Base
  import opened Flash
  import opened Crc

  /**
   Memory as stage 1 reads it from address 0: flash, then whatever lies above it. A header may claim up
   to 256 KB, so the checksum can read past the end of flash.
   */
  ghost predicate Readable(m: seq<byte>) {
    |m| >= 0x4_4008
  }

  /** The image size in the second header word of an image at `at`. */
  function ImageSize(m: seq<byte>, at: nat): word
    requires at + 12 <= |m|
  {
    m[at + 4] as int + 0x100 * m[at + 5] as int + 0x1_0000 * m[at + 6] as int + 0x100_0000 * m[at + 7] as int
  }

  function Checksum(m: seq<byte>, at: nat): bv32
    requires at + 12 <= |m|
  {
    WordAt(m, at + 8)
  }

  /** `n` little-endian words from `at` on. */
  function WordsFrom(m: seq<byte>, at: nat, n: nat): seq<bv32>
    requires at + 4 * n <= |m|
  {
    seq(n, i requires 0 <= i < n => WordAt(m, at + 4 * i))
  }

  /** `n` words from the end of the header. */
  function Words(m: seq<byte>, at: nat, n: nat): seq<bv32>
    requires at + 12 + 4 * n <= |m|
  {
    WordsFrom(m, at + 12, n)
  }

  /** The development header that asks for no checksum. */
  predicate Unhashed(m: seq<byte>, at: nat)
    requires at + 12 <= |m|
  {
    ImageSize(m, at) == 0x1234 && Checksum(m, at) == 0x5678
  }

  predicate SizeSane(m: seq<byte>, at: nat)
    requires at + 12 <= |m|
  {
    0 < ImageSize(m, at) < 0x4_0000
  }

  /** A header with a sane size and either the development marker or the right checksum. */
  ghost predicate Accepted(m: seq<byte>, at: nat)
    requires at + 12 <= |m|
    requires SizeSane(m, at) && !Unhashed(m, at) ==> at + 12 + 4 * (ImageSize(m, at) / 4) <= |m|
  {
    && SizeSane(m, at)
    && (Unhashed(m, at) || Crc32(Words(m, at, ImageSize(m, at) / 4)) == Checksum(m, at))
  }

  ghost predicate Bootable(m: seq<byte>)
    requires Readable(m)
  {
    Accepted(m, APP_ADDRESS)
  }

  const BOOT_TO_DFU_MARKER: nat := 0xDEAD_BEEF_CC00_FFEE

  datatype Outcome = ToApplication | ToDfu

  /** Why stage 1 enters DFU, as the bits of `go_dfu`. */
  ghost function Reasons(marker: nat, pinHigh: bool, m: seq<byte>): bv32
    requires Readable(m)
  {
    if marker == BOOT_TO_DFU_MARKER || !pinHigh then
      (if marker == BOOT_TO_DFU_MARKER then 1 else 0) | (if pinHigh then 0 else 2)
    else if !SizeSane(m, APP_ADDRESS) then 16
    else if Bootable(m) then 0
    else 8
  }

  class Stage1 {
    const crc: CrcUnit
    var marker: nat // the 64-bit word at the start of RAM
    var goDfu: bv32

    /** A fresh boot with whatever the marker word holds. */
    constructor (marker: nat)
      ensures this.marker == marker && goDfu == 0 && fresh(crc)
    {
      crc := new CrcUnit();
      this.marker := marker;
      goDfu := 0;
    }

    method RebootIntoBootloader()
      modifies this`marker
      ensures marker == BOOT_TO_DFU_MARKER
    {
      marker := BOOT_TO_DFU_MARKER;
    }

    method ClearRebootFlags()
      modifies this`marker
      ensures marker == 0
    {
      marker := 0;
    }

    /** Feed `n` words from `at` to the CRC unit and read the result. */
    method Ch32Crc(m: seq<byte>, at: nat, n: nat) returns (r: bv32)
      requires at + 4 * n <= |m|
      modifies crc
      ensures r == Crc32(WordsFrom(m, at, n))
    {
      crc.Reset();
      ghost var ws := WordsFrom(m, at, n);
      for p := 0 to n
        invariant crc.data == Fold(Absorb, SEED, ws[..p])
      {
        FoldNext(Absorb, SEED, ws, p);
        crc.Write(WordAt(m, at + 4 * p));
      }
      assert ws[..n] == ws;
      r := crc.data;
    }

    /** The decision, and the marker cleared whatever it was. */
    method Decide(m: seq<byte>, pinHigh: bool) returns (outcome: Outcome)
      requires Readable(m) && goDfu == 0
      modifies this, crc
      ensures outcome == ToApplication <==>
                old(marker) != BOOT_TO_DFU_MARKER && pinHigh && Bootable(m)
      ensures goDfu == Reasons(old(marker), pinHigh, m)
      ensures marker == 0
    {
      if marker == BOOT_TO_DFU_MARKER { goDfu := goDfu | 1; }
      if !pinHigh { goDfu := goDfu | 2; }
      var imageSize, checksum := ImageSize(m, APP_ADDRESS), Checksum(m, APP_ADDRESS);
      if goDfu == 0 && imageSize > 0 && imageSize < 256 * 1024 {
        if imageSize != 0x1234 || checksum != 0x5678 {
          var computed := Ch32Crc(m, APP_ADDRESS + 12, imageSize / 4);
          if computed != checksum { goDfu := goDfu | 8; }
        }
      } else if goDfu == 0 {
        goDfu := goDfu | 16;
      }
      ClearRebootFlags();
      outcome := if goDfu == 0 then ToApplication else ToDfu;
    }
  }

  /**
   Asking for DFU works once: after `RebootIntoBootloader` the next boot enters DFU because of the marker,
   whatever the image and the pin, and the boot after that decides as if it had never been asked.
   */
  method RebootTwice(marker: nat, m: seq<byte>, pinHigh: bool, m': seq<byte>, pinHigh': bool)
    returns (first: Outcome, reasons: bv32, second: Outcome, reasons': bv32)
    requires Readable(m) && Readable(m')
    ensures first == ToDfu && reasons == if pinHigh then 1 else 3
    ensures second == ToApplication <==> pinHigh' && Bootable(m')
    ensures reasons' == 0 || reasons' == 2 || reasons' == 8 || reasons' == 16
    ensures reasons' == 2 <==> !pinHigh'
  {
    var running := new Stage1(marker);
    running.RebootIntoBootloader();
    var boot := new Stage1(running.marker);
    first := boot.Decide(m, pinHigh);
    reasons := boot.goDfu;
    var boot' := new Stage1(boot.marker);
    second := boot'.Decide(m', pinHigh');
    reasons' := boot'.goDfu;
  }

  // ---------- What the decision depends on ----------

  predicate SameFour(m: seq<byte>, at: nat, m': seq<byte>, at': nat)
    requires at + 4 <= |m| && at' + 4 <= |m'|
  {
    m[at] == m'[at'] && m[at + 1] == m'[at' + 1] && m[at + 2] == m'[at' + 2] && m[at + 3] == m'[at' + 3]
  }

  lemma SameHeader(m: seq<byte>, at: nat, m': seq<byte>, at': nat)
    requires at + 12 <= |m| && at' + 12 <= |m'|
    requires SameFour(m, at + 4, m', at' + 4) && SameFour(m, at + 8, m', at' + 8)
    ensures ImageSize(m, at) == ImageSize(m', at') && Checksum(m, at) == Checksum(m', at')
  {
  }

  /** `img`, from byte `from` to byte `to`, is found at `at` in `m`. */
  ghost predicate Matches(m: seq<byte>, at: nat, img: seq<byte>, from: nat, to: nat) {
    to <= |img| && at + to <= |m| && forall i :: from <= i < to ==> img[i] == m[at + i]
  }

  lemma SameWords(m: seq<byte>, at: nat, img: seq<byte>, n: nat)
    requires Matches(m, at, img, 12, 12 + 4 * n)
    ensures Words(m, at, n) == Words(img, 0, n)
  {
    forall k | 0 <= k < n ensures Words(m, at, n)[k] == Words(img, 0, n)[k] {
      assert SameFour(img, 12 + 4 * k, m, at + 12 + 4 * k);
    }
  }

  /** How many bytes of an image, from the start of its header, decide whether it is accepted. */
  function Extent(m: seq<byte>, at: nat): nat
    requires at + 12 <= |m|
  {
    if SizeSane(m, at) && !Unhashed(m, at) then 12 + 4 * (ImageSize(m, at) / 4) else 12
  }

  /** Equal headers and equal covered words give equal verdicts. */
  lemma SameParts(m: seq<byte>, at: nat, img: seq<byte>)
    requires |img| >= 12 && Extent(img, 0) <= |img| && at + Extent(img, 0) <= |m|
    requires ImageSize(m, at) == ImageSize(img, 0) && Checksum(m, at) == Checksum(img, 0)
    requires SizeSane(img, 0) && !Unhashed(img, 0) ==>
               Words(m, at, ImageSize(img, 0) / 4) == Words(img, 0, ImageSize(img, 0) / 4)
    ensures Extent(m, at) == Extent(img, 0)
    ensures Accepted(m, at) <==> Accepted(img, 0)
  {
  }

  /**
   The decision depends on the size, the checksum and the covered words, and on nothing else: an image
   is judged the same wherever it lies and whatever surrounds it.
   */
  lemma SameVerdict(m: seq<byte>, at: nat, img: seq<byte>)
    requires |img| >= 12 && Extent(img, 0) <= |img|
    requires Matches(m, at, img, 4, Extent(img, 0))
    ensures Extent(m, at) == Extent(img, 0)
    ensures Accepted(m, at) <==> Accepted(img, 0)
  {
    assert SameFour(img, 4, m, at + 4) && SameFour(img, 8, m, at + 8);
    SameHeader(img, 0, m, at);
    if SizeSane(img, 0) && !Unhashed(img, 0) {
      SameWords(m, at, img, ImageSize(img, 0) / 4);
    }
    SameParts(m, at, img);
  }

  /** A file that stage 1 would accept if it were in place: header, and all the words it covers. */
  ghost predicate GoodImage(img: seq<byte>) {
    |img| >= 12 && Extent(img, 0) <= |img| <= FLASH_END - APP_ADDRESS && Accepted(img, 0)
  }

  /** A good image at APP_ADDRESS boots, whatever else is in memory. */
  lemma GoodImageBoots(m: seq<byte>, img: seq<byte>)
    requires Readable(m) && GoodImage(img) && Holds(m, APP_ADDRESS, img)
    ensures Bootable(m)
  {
    SameVerdict(m, APP_ADDRESS, img);
  }

  // ---------- Tampering ----------

  /** `m` and `m'` agree except in the four bytes at `at`. */
  ghost predicate DifferOnlyAt(m: seq<byte>, m': seq<byte>, at: nat) {
    && |m| == |m'| && at + 4 <= |m|
    && (forall i :: 0 <= i < |m| && !(at <= i < at + 4) ==> m[i] == m'[i])
    && (exists i :: at <= i < at + 4 && m[i] != m'[i])
  }

  lemma WordDiffers(m: seq<byte>, m': seq<byte>, at: nat)
    requires DifferOnlyAt(m, m', at)
    ensures WordAt(m, at) != WordAt(m', at)
  {
    if WordAt(m, at) == WordAt(m', at) {
      WordOfInjective(m[at], m[at + 1], m[at + 2], m[at + 3], m'[at], m'[at + 1], m'[at + 2], m'[at + 3]);
    }
  }

  lemma CoveredWordChanged(m: seq<byte>, m': seq<byte>, at: nat, n: nat, k: nat)
    requires k < n && at + 12 + 4 * n <= |m| && DifferOnlyAt(m, m', at + 12 + 4 * k)
    ensures Crc32(Words(m, at, n)) != Crc32(Words(m', at, n))
  {
    WordDiffers(m, m', at + 12 + 4 * k);
    forall i | 0 <= i < n && i != k ensures Words(m, at, n)[i] == Words(m', at, n)[i] {
      assert SameFour(m, at + 12 + 4 * i, m', at + 12 + 4 * i);
    }
    OneWordDetected(Words(m, at, n), Words(m', at, n), k);
  }

  lemma TamperedRejected(m: seq<byte>, m': seq<byte>, at: nat, k: nat)
    requires at + 12 <= |m| && at + Extent(m, at) <= |m| && Accepted(m, at) && !Unhashed(m, at)
    requires k < ImageSize(m, at) / 4 && DifferOnlyAt(m, m', at + 12 + 4 * k)
    ensures Extent(m', at) == Extent(m, at) && !Accepted(m', at)
  {
    assert SameFour(m, at + 4, m', at + 4) && SameFour(m, at + 8, m', at + 8);
    SameHeader(m, at, m', at);
    CoveredWordChanged(m, m', at, ImageSize(m, at) / 4, k);
  }

  /** Changing any one covered word of a checksummed, bootable image makes it unbootable. */
  lemma TamperingDetected(m: seq<byte>, m': seq<byte>, k: nat)
    requires Readable(m) && Bootable(m) && !Unhashed(m, APP_ADDRESS)
    requires k < ImageSize(m, APP_ADDRESS) / 4 && DifferOnlyAt(m, m', APP_ADDRESS + 12 + 4 * k)
    ensures !Bootable(m')
  {
    TamperedRejected(m, m', APP_ADDRESS, k);
  }
}
