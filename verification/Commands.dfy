/** DfuSe commands in literal bytes: what the engine takes a payload for, and which payloads those are. */
module Commands {
  import opened Base
  import opened Dfu
  import opened Wire

  /** A command byte and a 32-bit operand, lowest byte first; the engine ignores what follows. */
  predicate IsCommand(data: seq<byte>, op: byte, a: word) {
    |data| >= 5 && data[0] == op && Spells(data[1..5], a)
  }

  /** The operand is read as the host wrote it. */
  lemma OperandRead(data: seq<byte>, a: word)
    requires |data| >= 5
    ensures Operand(data) == a <==> Spells(data[1..5], a)
  {
    var b := data[1..5];
    assert b[0] == data[1] && b[1] == data[2] && b[2] == data[3] && b[3] == data[4];
  }

  /**
   In block 0 the engine sees SET_ADDRESS exactly in 0x21 and erase exactly in 0x41, with exactly the operand
   sent, for every address; anything shorter than five bytes is ignored, anything else is unknown.
   */
  lemma CommandRead(address: word, data: seq<byte>, a: word)
    ensures Decode(address, 0, data) == SetAddress(a) <==> IsCommand(data, 0x21, a)
    ensures Decode(address, 0, data) == EraseSector(a) <==> IsCommand(data, 0x41, a)
    ensures Decode(address, 0, data) == Unknown <==> |data| >= 5 && data[0] != 0x21 && data[0] != 0x41
    ensures Decode(address, 0, data) == Nothing <==> |data| < 5
  {
    if |data| >= 5 { OperandRead(data, a); }
  }

  /** Block 1 and empty payloads do nothing; block `b` from 2 on goes 4096 * (b - 2) bytes above the target. */
  lemma BlockRead(address: word, block: nat, data: seq<byte>)
    requires block > 0
    ensures Decode(address, block, data) ==
            if block == 1 || data == [] then Nothing
            else Program((address + 4096 * (block - 2)) % 0x1_0000_0000)
  {
  }
}
