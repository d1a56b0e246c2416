/** Machine types, the memory map and the arithmetic shared by every part of the model. */
module Base {

  type byte = bv8

  /** An unsigned 32-bit value; the operations below wrap as the processor does. */
  type word = x: int | 0 <= x < 0x1_0000_0000

  datatype Option<+T> = None | Some(value: T)

  // Memory map (bootloader_config.cmake, src_common/registers.h).
  const APP_ADDRESS: word := 0x4000
  const FLASH_END: word := 0x4_0000
  const PHYSICAL_BASE: word := 0x0800_0000

  // Flash geometry (src_stage2/usb.h, src_stage2/flash.h).
  const PAGE: nat := 256
  const SECTOR: nat := 4096
  const BLOCK: nat := 32768
  const TRANSFER: nat := 4096

  /** `a + n` in unsigned 32-bit arithmetic. */
  function Add(a: int, n: int): word {
    (a + n) % 0x1_0000_0000
  }

  /** `a & ~255` */
  function PageBase(a: nat): (r: nat)
    ensures r <= a < r + 256 && r % 256 == 0
  {
    a - a % 256
  }

  /** `a & ~4095` */
  function SectorBase(a: nat): (r: nat)
    ensures r <= a < r + 4096 && r % 4096 == 0
  {
    a - a % 4096
  }

  function PageCeiling(a: nat): (r: nat)
    ensures a <= r < a + 256 && r % 256 == 0
  {
    PageBase(a + 255)
  }

  /** `a | 0x08000000` for addresses far above flash. */
  function HighAlias(a: word): (r: word)
    requires a >= 0x1000_0000
    ensures r >= 0x1000_0000 && (r == a || r == a + 0x0800_0000)
  {
    if a % 0x1000_0000 >= 0x0800_0000 then a else a + 0x0800_0000
  }

  /** `a | 0x08000000`: the alias under which the controller and the readers see flash. */
  function Physical(a: word): word {
    if a < 0x0800_0000 then a + 0x0800_0000
    else if a < 0x1000_0000 then a
    else HighAlias(a)
  }

  /** Where in flash the address `a` lands; only meaningful when `InFlash` holds. */
  function Offset(a: word): nat
    ensures a < 0x0800_0000 ==> Offset(a) == a
  {
    Physical(a) - 0x0800_0000
  }

  predicate InFlash(a: word, n: nat) {
    Offset(a) + n <= 0x4_0000
  }

  /** Stepping an address inside flash steps its offset: the alias bit and the wrap never interfere. */
  lemma OffsetStep(a: word, n: nat)
    requires Offset(a) + n < 0x4_0000
    ensures Add(a, n) == a + n && Offset(Add(a, n)) == Offset(a) + n
  {
    assert a < 0x0804_0000;
  }

  /** The `k`-th page above a page-aligned address in flash is again a page of flash. */
  lemma PageStep(a: word, k: nat)
    requires InFlash(a, 256 * k + 256) && a % 256 == 0
    ensures Add(a, 256 * k) == a + 256 * k
    ensures Offset(Add(a, 256 * k)) == Offset(a) + 256 * k
    ensures Offset(Add(a, 256 * k)) % 256 == 0
  {
    OffsetStep(a, 256 * k);
    OffsetAlignment(a);
    Remainder256(Offset(a), k);
  }

  /** An offset is its address, or below it by a multiple of 128 MB. */
  lemma OffsetForm(a: word) returns (k: int)
    ensures Offset(a) == a + 32768 * k
  {
    k := if a < 0x0800_0000 then 0 else if a < 0x1000_0000 || HighAlias(a) == a then 0 - 4096 else 0;
  }

  lemma Remainder256(a: int, k: int)
    ensures (a + 256 * k) % 256 == a % 256
  {
    var q := a / 256;
    assert a + 256 * k == 256 * (q + k) + a % 256;
  }

  lemma Remainder32k(a: int, k: int)
    ensures (a + 32768 * k) % 32768 == a % 32768
  {
    var q := a / 32768;
    assert a + 32768 * k == 32768 * (q + k) + a % 32768;
  }

  lemma OffsetAlignment(a: word)
    ensures Offset(a) % 32768 == a % 32768 && Offset(a) % 256 == a % 256
    ensures a % 32768 == 0 && InFlash(a, 4096) ==> InFlash(a, 32768)
  {
    var k := OffsetForm(a);
    var o := Offset(a);
    Remainder32k(a, k);
    assert 32768 * k == 256 * (128 * k);
    Remainder256(a, 128 * k);
    if o % 32768 == 0 && o + 4096 <= 0x4_0000 { WholeBlock(o, o / 32768); }
  }

  lemma WholeBlock(o: nat, q: nat)
    requires o == 32768 * q && o + 4096 <= 0x4_0000
    ensures o + 32768 <= 0x4_0000
  {
  }

  /** The first address after a sector; the last sector of the address space wraps to 0. */
  lemma SectorLimit(base: word)
    requires base % 4096 == 0
    ensures Add(base, 4096) == if base == 0xFFFF_F000 then 0 else base + 4096
  {
    var q := base / 4096;
    assert base == 4096 * q && q < 0x10_0000;
  }

  // Little-endian words.

  function WordOf(b0: byte, b1: byte, b2: byte, b3: byte): bv32 {
    (b0 as bv32) | ((b1 as bv32) << 8) | ((b2 as bv32) << 16) | ((b3 as bv32) << 24)
  }

  function ByteOf(w: bv32, k: nat): byte
    requires k < 4
  {
    match k
    case 0 => (w & 0xFF) as byte
    case 1 => ((w >> 8) & 0xFF) as byte
    case 2 => ((w >> 16) & 0xFF) as byte
    case _ => ((w >> 24) & 0xFF) as byte
  }

  /** Splitting a word into bytes undoes assembling it. */
  lemma BytesOfWord(b0: byte, b1: byte, b2: byte, b3: byte)
    ensures ByteOf(WordOf(b0, b1, b2, b3), 0) == b0
    ensures ByteOf(WordOf(b0, b1, b2, b3), 1) == b1
    ensures ByteOf(WordOf(b0, b1, b2, b3), 2) == b2
    ensures ByteOf(WordOf(b0, b1, b2, b3), 3) == b3
  {
  }

  lemma WordOfInjective(a0: byte, a1: byte, a2: byte, a3: byte, b0: byte, b1: byte, b2: byte, b3: byte)
    requires WordOf(a0, a1, a2, a3) == WordOf(b0, b1, b2, b3)
    ensures a0 == b0 && a1 == b1 && a2 == b2 && a3 == b3
  {
    BytesOfWord(a0, a1, a2, a3);
    BytesOfWord(b0, b1, b2, b3);
  }

  lemma NextByte(b: byte)
    requires b != 255
    ensures (b + 1) as int == b as int + 1
  {
  }

  lemma ByteBack(b: byte)
    ensures 0 <= b as int < 256 && (b as int) as byte == b
  {
  }

  lemma {:induction false} ByteWith(x: int) returns (b: byte)
    requires 0 <= x < 256
    ensures b as int == x
    decreases x
  {
    if x == 0 {
      b := 0;
    } else {
      b := ByteWith(x - 1);
      NextByte(b);
      b := b + 1;
    }
  }

  lemma ByteValue(x: int)
    requires 0 <= x < 256
    ensures (x as byte) as int == x
  {
    var b := ByteWith(x);
    ByteBack(b);
  }

  function Min(a: int, b: int): int {
    if a < b then a else b
  }
}
