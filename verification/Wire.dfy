/** Bytes as a host writes them, independent of how the device reads them. */
module Wire {
  import opened Base

  /** `b` is the 32-bit number `a`, lowest byte first. */
  predicate Spells(b: seq<byte>, a: word) {
    && |b| == 4
    && a == b[0] as int + 0x100 * b[1] as int + 0x1_0000 * b[2] as int + 0x100_0000 * b[3] as int
  }

  lemma Digits256(a: word)
    ensures a == a % 256 + 256 * (a / 256 % 256) + 65536 * (a / 65536 % 256) + 16777216 * (a / 16777216)
  {
    var q1 := a / 256;
    var q2 := q1 / 256;
    assert a / 65536 == q2 && a / 16777216 == q2 / 256;
  }

  lemma Places(a: int, x0: nat, x1: nat, x2: nat, x3: nat)
    requires x0 < 256 && x1 < 256 && x2 < 256 && x3 < 256
    requires a == x0 + 256 * x1 + 65536 * x2 + 16777216 * x3
    ensures 0 <= a < 0x1_0000_0000
    ensures a % 256 == x0 && a / 256 % 256 == x1 && a / 65536 % 256 == x2 && a / 16777216 == x3
  {
    assert a / 256 == x1 + 256 * x2 + 65536 * x3;
    assert a / 65536 == x2 + 256 * x3;
  }

  /** A number is spelled by exactly one sequence of bytes: its digits to the base 256. */
  lemma SpellsDigits(b: seq<byte>, x0: nat, x1: nat, x2: nat, x3: nat, a: word)
    requires |b| == 4 && x0 == b[0] as int && x1 == b[1] as int && x2 == b[2] as int && x3 == b[3] as int
    requires x0 < 256 && x1 < 256 && x2 < 256 && x3 < 256
    ensures Spells(b, a) <==>
              a % 256 == x0 && a / 256 % 256 == x1 && a / 65536 % 256 == x2 && a / 16777216 == x3
  {
    Digits256(a);
    if a == x0 + 0x100 * x1 + 0x1_0000 * x2 + 0x100_0000 * x3 { Places(a, x0, x1, x2, x3); }
  }

  /** A machine word, lowest byte first. */
  function Le(w: bv32): seq<byte> {
    [(w & 0xFF) as byte, ((w >> 8) & 0xFF) as byte, ((w >> 16) & 0xFF) as byte, ((w >> 24) & 0xFF) as byte]
  }

  lemma LeOf(b0: byte, b1: byte, b2: byte, b3: byte)
    ensures Le(WordOf(b0, b1, b2, b3)) == [b0, b1, b2, b3]
  {
    BytesOfWord(b0, b1, b2, b3);
  }

  lemma WordOfLe(w: bv32)
    ensures WordOf((w & 0xFF) as byte, ((w >> 8) & 0xFF) as byte,
                   ((w >> 16) & 0xFF) as byte, ((w >> 24) & 0xFF) as byte) == w
  {
  }
}
