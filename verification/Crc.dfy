/**
 The CRC unit (src_stage1/ch32_crc.c), modelled as an MSB-first CRC-32 with polynomial 0x04C11DB7 that
 starts from all ones and takes a 32-bit word at a time.
 */
module Crc {
  const POLY: bv32 := 0x04C1_1DB7
  const SEED: bv32 := 0xFFFF_FFFF
  const WIDTH: nat := 32

  /** The bit that a shift pushes out. */
  predicate Top(c: bv32) {
    c & 0x8000_0000 != 0
  }

  function Up(c: bv32): bv32 {
    c << 1
  }

  function Xor(a: bv32, b: bv32): bv32 {
    a ^ b
  }

  function Feedback(t: bool): bv32 {
    if t then POLY else 0
  }

  /** Shift one bit out at the top; if it was set, feed the polynomial back. */
  function Shift(c: bv32): bv32 {
    Xor(Up(c), Feedback(Top(c)))
  }

  lemma XorUndone(a: bv32, x: bv32)
    ensures Xor(Xor(a, x), x) == a
  {
  }

  lemma XorRight(a: bv32, b: bv32, x: bv32)
    requires Xor(a, x) == Xor(b, x)
    ensures a == b
  {
    XorUndone(a, x);
    XorUndone(b, x);
  }

  lemma XorCommutes(a: bv32, b: bv32)
    ensures Xor(a, b) == Xor(b, a)
  {
  }

  lemma XorLeft(x: bv32, a: bv32, b: bv32)
    requires Xor(x, a) == Xor(x, b)
    ensures a == b
  {
    XorCommutes(x, a);
    XorCommutes(x, b);
    XorRight(a, b, x);
  }

  lemma UpKeepsRest(c: bv32, d: bv32)
    requires (c & 0x8000_0000 != 0) == (d & 0x8000_0000 != 0) && c << 1 == d << 1
    ensures c == d
  {
  }

  lemma UpInjective(c: bv32, d: bv32)
    requires Top(c) == Top(d) && Up(c) == Up(d)
    ensures c == d
  {
    UpKeepsRest(c, d);
  }

  predicate Odd(c: bv32) {
    c & 1 != 0
  }

  lemma UpIsEven(c: bv32)
    ensures !Odd(Up(c))
  {
  }

  lemma OddOfXor(a: bv32, b: bv32)
    ensures Odd(Xor(a, b)) == (Odd(a) != Odd(b))
  {
  }

  /** The polynomial is odd, so the lowest bit after a shift tells whether it was fed back. */
  lemma FeedbackShows(c: bv32)
    ensures Odd(Shift(c)) == Top(c)
  {
    UpIsEven(c);
    OddOfXor(Up(c), Feedback(Top(c)));
    assert Odd(POLY);
  }

  lemma ShiftInjective(c: bv32, d: bv32)
    requires Shift(c) == Shift(d)
    ensures c == d
  {
    FeedbackShows(c);
    FeedbackShows(d);
    XorRight(Up(c), Up(d), Feedback(Top(c)));
    UpInjective(c, d);
  }

  function Iterate<S>(f: S -> S, c: S, n: nat): S
    decreases n
  {
    if n == 0 then c else Iterate(f, f(c), n - 1)
  }

  lemma {:induction false} IterateInjective<S(!new)>(f: S -> S, c: S, d: S, n: nat)
    requires (forall x, y :: f(x) == f(y) ==> x == y) && Iterate(f, c, n) == Iterate(f, d, n)
    ensures c == d
    decreases n
  {
    if n > 0 { IterateInjective(f, f(c), f(d), n - 1); }
  }

  /** What writing `w` to the data register does to the unit's state. */
  function Absorb(c: bv32, w: bv32): bv32 {
    Iterate(Shift, Xor(c, w), WIDTH)
  }

  lemma ShiftsInjective(c: bv32, d: bv32)
    requires Iterate(Shift, c, WIDTH) == Iterate(Shift, d, WIDTH)
    ensures c == d
  {
    forall x, y | Shift(x) == Shift(y) ensures x == y { ShiftInjective(x, y); }
    IterateInjective(Shift, c, d, WIDTH);
  }

  /** From a given state, different words lead to different states ... */
  lemma AbsorbInWord(c: bv32, v: bv32, w: bv32)
    requires Absorb(c, v) == Absorb(c, w)
    ensures v == w
  {
    ShiftsInjective(Xor(c, v), Xor(c, w));
    XorLeft(c, v, w);
  }

  /** ... and a given word keeps different states apart. */
  lemma AbsorbInState(c: bv32, d: bv32, w: bv32)
    requires Absorb(c, w) == Absorb(d, w)
    ensures c == d
  {
    ShiftsInjective(Xor(c, w), Xor(d, w));
    XorRight(c, d, w);
  }

  lemma AbsorbFaithful()
    ensures Faithful(Absorb)
  {
    forall c, v, w | Absorb(c, v) == Absorb(c, w) ensures v == w { AbsorbInWord(c, v, w); }
    forall c, d, w | Absorb(c, w) == Absorb(d, w) ensures c == d { AbsorbInState(c, d, w); }
  }

  /** A step that loses neither the state nor the word it absorbs. */
  ghost predicate Faithful<S(!new), W(!new)>(step: (S, W) -> S) {
    && (forall c, v, w :: step(c, v) == step(c, w) ==> v == w)
    && (forall c, d, w :: step(c, w) == step(d, w) ==> c == d)
  }

  function Fold<S, W>(step: (S, W) -> S, c: S, ws: seq<W>): S {
    if ws == [] then c else step(Fold(step, c, ws[..|ws| - 1]), ws[|ws| - 1])
  }

  lemma FoldNext<S, W>(step: (S, W) -> S, c: S, ws: seq<W>, k: nat)
    requires k < |ws|
    ensures Fold(step, c, ws[..k + 1]) == step(Fold(step, c, ws[..k]), ws[k])
  {
    assert ws[..k + 1][..k] == ws[..k];
  }

  /** With a faithful step, runs of words that differ in exactly one place end in different states. */
  lemma {:induction false} OneChangeShows<S(!new), W(!new)>(step: (S, W) -> S, c: S, vs: seq<W>, ws: seq<W>, k: nat)
    requires Faithful(step)
    requires |vs| == |ws| && k < |vs| && vs[k] != ws[k]
    requires forall i :: 0 <= i < |vs| && i != k ==> vs[i] == ws[i]
    ensures Fold(step, c, vs) != Fold(step, c, ws)
    decreases |vs|
  {
    var n := |vs| - 1;
    if k == n {
      assert vs[..n] == ws[..n];
    } else {
      OneChangeShows(step, c, vs[..n], ws[..n], k);
    }
  }

  /** The checksum of a run of words. */
  function Crc32(ws: seq<bv32>): bv32 {
    Fold(Absorb, SEED, ws)
  }

  /** Two images of the same length that differ in exactly one word never share a CRC. */
  lemma OneWordDetected(vs: seq<bv32>, ws: seq<bv32>, k: nat)
    requires |vs| == |ws| && k < |vs| && vs[k] != ws[k]
    requires forall i :: 0 <= i < |vs| && i != k ==> vs[i] == ws[i]
    ensures Crc32(vs) != Crc32(ws)
  {
    AbsorbFaithful();
    OneChangeShows(Absorb, SEED, vs, ws, k);
  }

  class CrcUnit {
    var data: bv32

    constructor ()
      ensures data == SEED
    {
      data := SEED;
    }

    /** Writing the reset bit loads all ones. */
    method Reset()
      modifies this
      ensures data == SEED
    {
      data := SEED;
    }

    method Write(w: bv32)
      modifies this
      ensures data == Absorb(old(data), w)
    {
      data := Absorb(data, w);
    }
  }
}
