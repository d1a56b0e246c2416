/**
 Firmware files in literal bytes (README.md, "Firmware header"): a 4-byte jump, the size, the checksum, the
 code. What stage 1 does with them, with GDB's `crc32` as the measure of the checksum.
 */
module Firmware {
  import opened Base
  import opened Flash
  import opened Wire
  import opened Boot
  import opened Gdb
  import opened Device
  import opened Download
  import opened Image

  /** `img` is a firmware file with this size, checksum and code. */
  predicate IsFirmware(img: seq<byte>, size: word, crc: bv32, code: seq<byte>) {
    && |img| == 12 + |code|
    && Spells(img[4..8], size) && img[8..12] == Le(crc) && img[12..] == code
  }

  predicate Sane(size: word) {
    0 < size < 262144
  }

  /** The development header: size 0x1234 with checksum 0x5678. */
  predicate Development(size: word, crc: bv32) {
    size == 0x1234 && crc == 0x5678
  }

  /** The file holds the words its checksum covers. */
  predicate Covered(size: word, crc: bv32, code: seq<byte>) {
    Sane(size) && !Development(size, crc) ==> 4 * (size / 4) <= |code|
  }

  /** The checksum is GDB's of the covered words, the bytes of each in reverse order. */
  predicate Checks(size: word, crc: bv32, code: seq<byte>)
    requires 4 * (size / 4) <= |code|
  {
    crc == GdbCrc(Swapped(code, 0, size / 4))
  }

  lemma SizeRead(img: seq<byte>, size: word)
    requires |img| >= 12
    ensures ImageSize(img, 0) == size <==> Spells(img[4..8], size)
  {
    var b := img[4..8];
    assert b[0] == img[4] && b[1] == img[5] && b[2] == img[6] && b[3] == img[7];
  }

  lemma ChecksumRead(img: seq<byte>, crc: bv32)
    requires |img| >= 12
    ensures Checksum(img, 0) == crc <==> img[8..12] == Le(crc)
  {
    var b := img[8..12];
    assert b == [img[8], img[9], img[10], img[11]];
    LeOf(img[8], img[9], img[10], img[11]);
    if b == Le(crc) { WordOfLe(crc); }
  }

  lemma CodeRead(img: seq<byte>, code: seq<byte>, n: nat)
    requires |img| == 12 + |code| && img[12..] == code && 4 * n <= |code|
    ensures Words(img, 0, n) == WordsFrom(code, 0, n)
  {
    forall k | 0 <= k < n ensures Words(img, 0, n)[k] == WordsFrom(code, 0, n)[k] {
      SameBytes(img, code, 4 * k);
    }
  }

  lemma SameBytes(img: seq<byte>, code: seq<byte>, i: nat)
    requires |img| == 12 + |code| && img[12..] == code && i + 4 <= |code|
    ensures WordAt(img, 12 + i) == WordAt(code, i)
  {
    assert img[12..][i] == img[12 + i] && img[12..][i + 1] == img[12 + i + 1];
    assert img[12..][i + 2] == img[12 + i + 2] && img[12..][i + 3] == img[12 + i + 3];
  }

  /** Stage 1 accepts a firmware file exactly if its size is sane and it is a development or a checked one. */
  lemma AcceptedExactly(img: seq<byte>, size: word, crc: bv32, code: seq<byte>)
    requires IsFirmware(img, size, crc, code) && Covered(size, crc, code)
    ensures SizeSane(img, 0) == Sane(size) && Unhashed(img, 0) == Development(size, crc) && Extent(img, 0) <= |img|
    ensures Accepted(img, 0) <==> Sane(size) && (Development(size, crc) || Checks(size, crc, code))
  {
    SizeRead(img, size);
    ChecksumRead(img, crc);
    if Sane(size) && !Development(size, crc) {
      CodeRead(img, code, size / 4);
      UnitIsGdbSwapped(code, 0, size / 4);
    }
  }

  /** Every such file of at most 240 KB is a good image. */
  lemma FirmwareIsGood(img: seq<byte>, size: word, crc: bv32, code: seq<byte>)
    requires IsFirmware(img, size, crc, code) && Covered(size, crc, code) && |img| <= 245760
    requires Sane(size) && (Development(size, crc) || Checks(size, crc, code))
    ensures GoodImage(img)
  {
    AcceptedExactly(img, size, crc, code);
  }

  /** Why stage 1 does not boot, as the bits of `go_dfu`; 0 if it does. */
  function Verdict(marker: nat, pinHigh: bool, size: word, crc: bv32, code: seq<byte>): bv32
    requires Covered(size, crc, code)
  {
    if marker == 0xDEAD_BEEF_CC00_FFEE then (if pinHigh then 1 else 3)
    else if !pinHigh then 2
    else if !Sane(size) then 16
    else if Development(size, crc) || Checks(size, crc, code) then 0
    else 8
  }

  lemma ReasonsRead(marker: nat, pinHigh: bool, m: seq<byte>, img: seq<byte>, size: word, crc: bv32, code: seq<byte>)
    requires Readable(m) && Holds(m, APP_ADDRESS, img)
    requires IsFirmware(img, size, crc, code) && Covered(size, crc, code)
    ensures Reasons(marker, pinHigh, m) == Verdict(marker, pinHigh, size, crc, code)
  {
    AcceptedExactly(img, size, crc, code);
    SameVerdict(m, APP_ADDRESS, img);
    assert SameFour(img, 4, m, APP_ADDRESS + 4) && SameFour(img, 8, m, APP_ADDRESS + 8);
    SameHeader(img, 0, m, APP_ADDRESS);
  }

  /** The code of stage 1 on memory that holds a firmware file at 0x4000. */
  method BootFirmware(marker: nat, pinHigh: bool, m: seq<byte>,
                      ghost img: seq<byte>, ghost size: word, ghost crc: bv32, ghost code: seq<byte>)
    returns (outcome: Outcome, reasons: bv32)
    requires Readable(m) && Holds(m, 0x4000, img)
    requires IsFirmware(img, size, crc, code) && Covered(size, crc, code)
    ensures reasons == Verdict(marker, pinHigh, size, crc, code)
    ensures outcome == ToApplication <==> reasons == 0
  {
    ReasonsRead(marker, pinHigh, m, img, size, crc, code);
    var stage1 := new Stage1(marker);
    outcome := stage1.Decide(m, pinHigh);
    reasons := stage1.goDfu;
  }

  /** A file that stage 1 accepts. */
  predicate IsSound(img: seq<byte>, size: word, crc: bv32, code: seq<byte>) {
    && IsFirmware(img, size, crc, code) && Covered(size, crc, code) && |img| <= 245760
    && Sane(size) && (Development(size, crc) || Checks(size, crc, code))
  }

  lemma SoundIsGood(img: seq<byte>, size: word, crc: bv32, code: seq<byte>)
    requires IsSound(img, size, crc, code)
    ensures GoodImage(img)
  {
    FirmwareIsGood(img, size, crc, code);
  }

  lemma NoReason(m: seq<byte>)
    requires Readable(m) && Bootable(m)
    ensures Reasons(0, true, m) == 0
  {
  }

  /** End to end in literal bytes: a sound firmware file, downloaded by a script that delivers it, boots. */
  lemma FirmwareBoots(env: Env, ss: seq<Sys>, es: seq<Usb.Event>, os: seq<Output>, i: nat, ts: Script,
                      img: seq<byte>, size: word, crc: bv32, code: seq<byte>, m: seq<byte>)
    requires IsSound(img, size, crc, code) && Delivers(ts, img)
    requires Run(env, ss, es, os) && i <= |es| && CarriesOut(es[i..], ts) && Trusted(env, es[i..], os[i..], ts)
    requires Readable(m) && m[..FLASH_END] == ss[|es|].flash
    ensures Resets(ss[|es|]) && Bootable(m) && Reasons(0, true, m) == 0
  {
    SoundIsGood(img, size, crc, code);
    DeliveryBoots(env, ss, es, os, i, ts, img, m);
    NoReason(m);
  }
}
