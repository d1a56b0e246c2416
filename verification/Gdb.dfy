/**
 The README promises the algorithm of GDB's `crc32`: one byte at a time, through a table of 256 entries.
 The CRC unit takes a word at a time; it computes GDB's checksum of the image with the four bytes of
 each word in reverse order.
 */
module Gdb {
  import opened Base
  import opened Flash
  import opened Crc
  import opened Boot

  // ---------- Any linear shift register ----------

  /** Bits in a byte. */
  const BYTE: nat := 8

  /** States `S` that are added by `plus`, with a byte `B` at the top that eight shifts push out. */
  datatype Register<!S, !B> = Register(
    shift: S -> S, plus: (S, S) -> S, up: S -> S, low: S -> S, top: S -> B, high: B -> S, mix: (B, B) -> B)

  ghost predicate LinearAt<S, B>(r: Register<S, B>, a: S, b: S) {
    r.shift(r.plus(a, b)) == r.plus(r.shift(a), r.shift(b))
  }

  /** A state is its top byte and the rest, and eight shifts only move the rest. */
  ghost predicate SplitsAt<S, B>(r: Register<S, B>, x: S) {
    r.plus(r.high(r.top(x)), r.low(x)) == x && Iterate(r.shift, r.low(x), BYTE) == r.up(x)
  }

  ghost predicate AddsAt<S, B>(r: Register<S, B>, a: S, b: S) {
    r.top(r.plus(a, b)) == r.mix(r.top(a), r.top(b)) && r.up(r.plus(a, b)) == r.plus(r.up(a), r.up(b))
  }

  ghost predicate RegroupsAt<S, B>(r: Register<S, B>, a: S, b: S, c: S) {
    r.plus(a, r.plus(b, c)) == r.plus(r.plus(b, a), c)
  }

  /** Four moves leave nothing of a word. */
  ghost predicate EmptiesAt<S, B>(r: Register<S, B>, x: S, w: S) {
    r.plus(x, r.up(r.up(r.up(r.up(w))))) == x
  }

  ghost predicate Laws<S(!new), B(!new)>(r: Register<S, B>) {
    && (forall a, b :: LinearAt(r, a, b))
    && (forall x :: SplitsAt(r, x))
    && (forall a, b :: AddsAt(r, a, b))
    && (forall a, b, c :: RegroupsAt(r, a, b, c))
    && (forall x, w :: EmptiesAt(r, x, w))
  }

  /** The table-driven step. */
  function Step<S, B>(r: Register<S, B>, c: S, b: B): S {
    r.plus(r.up(c), Iterate(r.shift, r.high(r.mix(r.top(c), b)), BYTE))
  }

  lemma {:induction false} IterateLinear<S(!new), B(!new)>(r: Register<S, B>, a: S, b: S, n: nat)
    requires Laws(r)
    ensures Iterate(r.shift, r.plus(a, b), n) == r.plus(Iterate(r.shift, a, n), Iterate(r.shift, b, n))
    decreases n
  {
    if n > 0 {
      assert LinearAt(r, a, b);
      IterateLinear(r, r.shift(a), r.shift(b), n - 1);
    }
  }

  lemma {:induction false} IterateCompose<S>(f: S -> S, c: S, m: nat, n: nat)
    ensures Iterate(f, c, m + n) == Iterate(f, Iterate(f, c, m), n)
    decreases m
  {
    if m > 0 { IterateCompose(f, f(c), m - 1, n); }
  }

  /** Eight shifts with a word coming in: a table step, and the rest of the word still to come. */
  lemma OneByte<S(!new), B(!new)>(r: Register<S, B>, c: S, w: S)
    requires Laws(r)
    ensures Iterate(r.shift, r.plus(c, w), BYTE) == r.plus(Step(r, c, r.top(w)), r.up(w))
  {
    var x := r.plus(c, w);
    assert SplitsAt(r, x) && AddsAt(r, c, w);
    IterateLinear(r, r.high(r.top(x)), r.low(x), BYTE);
    assert RegroupsAt(r, Iterate(r.shift, r.high(r.top(x)), BYTE), r.up(c), r.up(w));
  }

  function Spell<S, B>(r: Register<S, B>, w: S): seq<B> {
    [r.top(w), r.top(r.up(w)), r.top(r.up(r.up(w))), r.top(r.up(r.up(r.up(w))))]
  }

  /** Thirty-two shifts are four table steps, highest byte first. */
  lemma FourBytes<S(!new), B(!new)>(r: Register<S, B>, c: S, w: S)
    requires Laws(r)
    ensures Iterate(r.shift, r.plus(c, w), 32) ==
            Step(r, Step(r, Step(r, Step(r, c, r.top(w)), r.top(r.up(w))), r.top(r.up(r.up(w)))),
                 r.top(r.up(r.up(r.up(w)))))
  {
    var w1 := r.up(w);
    var w2 := r.up(w1);
    var w3 := r.up(w2);
    var c1 := Step(r, c, r.top(w));
    var c2 := Step(r, c1, r.top(w1));
    var c3 := Step(r, c2, r.top(w2));
    IterateCompose(r.shift, r.plus(c, w), 8, 24);
    OneByte(r, c, w);
    IterateCompose(r.shift, r.plus(c1, w1), 8, 16);
    OneByte(r, c1, w1);
    IterateCompose(r.shift, r.plus(c2, w2), 8, BYTE);
    OneByte(r, c2, w2);
    OneByte(r, c3, w3);
    assert EmptiesAt(r, Step(r, c3, r.top(w3)), w);
  }

  ghost predicate AbsorbsAt<S, B>(r: Register<S, B>, absorb: (S, S) -> S, c: S, w: S) {
    absorb(c, w) == Iterate(r.shift, r.plus(c, w), 32)
  }

  ghost predicate StepsAt<S, B>(r: Register<S, B>, step: (S, B) -> S, c: S, b: B) {
    step(c, b) == Step(r, c, b)
  }

  /** `absorb` and `step` are the word-wide and the table-driven form of the same register. */
  ghost predicate Forms<S(!new), B(!new)>(r: Register<S, B>, absorb: (S, S) -> S, step: (S, B) -> S) {
    (forall c, w :: AbsorbsAt(r, absorb, c, w)) && (forall c, b :: StepsAt(r, step, c, b))
  }

  lemma FourSteps<S(!new), B(!new)>(r: Register<S, B>, absorb: (S, S) -> S, step: (S, B) -> S, c: S, w: S)
    requires Laws(r) && Forms(r, absorb, step)
    ensures var q := Spell(r, w); absorb(c, w) == step(step(step(step(c, q[0]), q[1]), q[2]), q[3])
  {
    var q := Spell(r, w);
    var c1 := step(c, q[0]);
    var c2 := step(c1, q[1]);
    var c3 := step(c2, q[2]);
    assert AbsorbsAt(r, absorb, c, w);
    FourBytes(r, c, w);
    assert StepsAt(r, step, c, q[0]) && StepsAt(r, step, c1, q[1]);
    assert StepsAt(r, step, c2, q[2]) && StepsAt(r, step, c3, q[3]);
  }

  lemma FoldFour<S, B>(step: (S, B) -> S, c: S, bs: seq<B>, q: seq<B>)
    requires |q| == 4
    ensures Fold(step, c, bs + q) == step(step(step(step(Fold(step, c, bs), q[0]), q[1]), q[2]), q[3])
  {
    var n, s := |bs|, bs + q;
    FoldNext(step, c, s, n);
    FoldNext(step, c, s, n + 1);
    FoldNext(step, c, s, n + 2);
    FoldNext(step, c, s, n + 3);
    assert s[..n] == bs && s[..n + 4] == s;
  }

  function SpellAll<S, B>(r: Register<S, B>, ws: seq<S>): seq<B> {
    if ws == [] then [] else SpellAll(r, ws[..|ws| - 1]) + Spell(r, ws[|ws| - 1])
  }

  /** Word by word or byte by byte through the table, a register ends in the same state. */
  lemma {:induction false} WordsAreBytes<S(!new), B(!new)>(r: Register<S, B>, absorb: (S, S) -> S, step: (S, B) -> S,
                                                           c: S, ws: seq<S>)
    requires Laws(r) && Forms(r, absorb, step)
    ensures Fold(absorb, c, ws) == Fold(step, c, SpellAll(r, ws))
    decreases |ws|
  {
    if ws != [] {
      var n := |ws| - 1;
      var d := Fold(absorb, c, ws[..n]);
      WordsAreBytes(r, absorb, step, c, ws[..n]);
      FourSteps(r, absorb, step, d, ws[n]);
      FoldFour(step, c, SpellAll(r, ws[..n]), Spell(r, ws[n]));
    }
  }

  // ---------- The CRC unit is one ----------

  function Up8(x: bv32): bv32 {
    x << 8
  }

  function Low24(x: bv32): bv32 {
    x & 0x00FF_FFFF
  }

  function TopByte(x: bv32): byte {
    (x >> 24) as byte
  }

  function AtTop(b: byte): bv32 {
    (b as bv32) << 24
  }

  function XorByte(a: byte, b: byte): byte {
    a ^ b
  }

  const UNIT: Register<bv32, byte> := Register(Shift, Xor, Up8, Low24, TopByte, AtTop, XorByte)

  // Each law, first for the functions themselves.

  lemma XorAssociates(a: bv32, b: bv32, c: bv32)
    ensures Xor(Xor(a, b), c) == Xor(a, Xor(b, c))
  {
  }

  lemma XorRegroups(a: bv32, b: bv32, c: bv32)
    ensures Xor(a, Xor(b, c)) == Xor(Xor(b, a), c)
  {
    XorAssociates(a, b, c);
    XorCommutes(a, b);
  }

  lemma XorExchanges(a: bv32, b: bv32, c: bv32, d: bv32)
    ensures Xor(Xor(a, b), Xor(c, d)) == Xor(Xor(a, c), Xor(b, d))
  {
    XorAssociates(a, b, Xor(c, d));
    XorRegroups(b, c, d);
    XorAssociates(c, b, d);
    XorAssociates(a, c, Xor(b, d));
  }

  lemma FeedbackOfXor(t: bool, u: bool)
    ensures Xor(Feedback(t), Feedback(u)) == Feedback(t != u)
  {
  }

  lemma TopBitOfXor(a: bv32, b: bv32)
    ensures Top(Xor(a, b)) == (Top(a) != Top(b))
  {
  }

  lemma OneUpOfXor(a: bv32, b: bv32)
    ensures Up(Xor(a, b)) == Xor(Up(a), Up(b))
  {
  }

  lemma FedBackOfXor(a: bv32, b: bv32)
    ensures Feedback(Top(Xor(a, b))) == Xor(Feedback(Top(a)), Feedback(Top(b)))
  {
    TopBitOfXor(a, b);
    FeedbackOfXor(Top(a), Top(b));
  }

  lemma ShiftOfSum(a: bv32, b: bv32, x: bv32, ua: bv32, ub: bv32, fa: bv32, fb: bv32)
    requires Up(a) == ua && Up(b) == ub && Feedback(Top(a)) == fa && Feedback(Top(b)) == fb
    requires Up(x) == Xor(ua, ub) && Feedback(Top(x)) == Xor(fa, fb)
    ensures Shift(x) == Xor(Shift(a), Shift(b))
  {
    XorExchanges(ua, fa, ub, fb);
  }

  lemma ShiftOfXor(a: bv32, b: bv32)
    ensures Shift(Xor(a, b)) == Xor(Shift(a), Shift(b))
  {
    OneUpOfXor(a, b);
    FedBackOfXor(a, b);
    ShiftOfSum(a, b, Xor(a, b), Up(a), Up(b), Feedback(Top(a)), Feedback(Top(b)));
  }

  lemma UnitLinear(a: bv32, b: bv32)
    ensures LinearAt(UNIT, a, b)
  {
    ShiftOfXor(a, b);
  }

  lemma ClearStep(x: bv32, n: nat)
    requires n > 0 && x & 0x8000_0000 == 0
    ensures Iterate(Shift, x, n) == Iterate(Shift, x << 1, n - 1)
  {
  }

  lemma UpTwice(x: bv32)
    ensures (x << 1) << 1 == x << 2 && (x << 2) << 2 == x << 4 && (x << 4) << 4 == x << 8
  {
  }

  lemma ClearBits2(x: bv32)
    requires x & 0xC000_0000 == 0
    ensures x & 0x8000_0000 == 0 && (x << 1) & 0x8000_0000 == 0
  {
  }

  lemma ClearBits4(x: bv32)
    requires x & 0xF000_0000 == 0
    ensures x & 0xC000_0000 == 0 && (x << 2) & 0xC000_0000 == 0
  {
  }

  lemma ClearBits8(x: bv32)
    requires x & 0xFF00_0000 == 0
    ensures x & 0xF000_0000 == 0 && (x << 4) & 0xF000_0000 == 0
  {
  }

  lemma ClearTwo(x: bv32, n: nat)
    requires n > 1 && x & 0xC000_0000 == 0
    ensures Iterate(Shift, x, n) == Iterate(Shift, x << 2, n - 2)
  {
    ClearBits2(x);
    ClearStep(x, n);
    ClearStep(x << 1, n - 1);
    UpTwice(x);
  }

  lemma ClearFour(x: bv32, n: nat)
    requires n > 3 && x & 0xF000_0000 == 0
    ensures Iterate(Shift, x, n) == Iterate(Shift, x << 4, n - 4)
  {
    ClearBits4(x);
    ClearTwo(x, n);
    ClearTwo(x << 2, n - 2);
    UpTwice(x);
  }

  /** Zeros at the top cost nothing: the rest just moves up. */
  lemma ClearEight(x: bv32)
    requires x & 0xFF00_0000 == 0
    ensures Iterate(Shift, x, BYTE) == x << 8
  {
    ClearBits8(x);
    ClearFour(x, 8);
    ClearFour(x << 4, 4);
    UpTwice(x);
  }

  lemma LowIsClear(x: bv32)
    ensures (x & 0x00FF_FFFF) & 0xFF00_0000 == 0 && (x & 0x00FF_FFFF) << 8 == x << 8
  {
  }

  lemma LowMoves(x: bv32)
    ensures Iterate(Shift, Low24(x), BYTE) == Up8(x)
  {
    LowIsClear(x);
    ClearEight(x & 0x00FF_FFFF);
  }

  lemma Halves(x: bv32)
    ensures Xor(AtTop(TopByte(x)), Low24(x)) == x
  {
  }

  lemma UnitSplits(x: bv32)
    ensures SplitsAt(UNIT, x)
  {
    Halves(x);
    LowMoves(x);
  }

  lemma TopOfXor(a: bv32, b: bv32)
    ensures TopByte(Xor(a, b)) == XorByte(TopByte(a), TopByte(b))
  {
  }

  lemma UpOfXor(a: bv32, b: bv32)
    ensures Up8(Xor(a, b)) == Xor(Up8(a), Up8(b))
  {
  }

  lemma UnitAdds(a: bv32, b: bv32)
    ensures AddsAt(UNIT, a, b)
  {
    TopOfXor(a, b);
    UpOfXor(a, b);
  }

  lemma UnitRegroups(a: bv32, b: bv32, c: bv32)
    ensures RegroupsAt(UNIT, a, b, c)
  {
    XorRegroups(a, b, c);
  }

  lemma UnitEmpties(x: bv32, w: bv32)
    ensures EmptiesAt(UNIT, x, w)
  {
  }

  lemma UnitLaws()
    ensures Laws(UNIT)
  {
    forall a, b ensures LinearAt(UNIT, a, b) { UnitLinear(a, b); }
    forall x ensures SplitsAt(UNIT, x) { UnitSplits(x); }
    forall a, b ensures AddsAt(UNIT, a, b) { UnitAdds(a, b); }
    forall a, b, c ensures RegroupsAt(UNIT, a, b, c) { UnitRegroups(a, b, c); }
    forall x, w ensures EmptiesAt(UNIT, x, w) { UnitEmpties(x, w); }
  }

  // ---------- GDB's crc32 ----------

  /** The table: what eight shifts make of a byte. */
  function Table(b: byte): bv32 {
    Iterate(Shift, AtTop(b), BYTE)
  }

  function TableStep(c: bv32, b: byte): bv32 {
    Xor(Up8(c), Table(XorByte(TopByte(c), b)))
  }

  // By itself, with its own constants, as GDB builds its table and runs over memory:

  /** `c & 0x80000000 ? (c << 1) ^ 0x04c11db7 : (c << 1)` */
  function GdbShift(c: bv32): bv32 {
    if c & 0x8000_0000 != 0 then (c << 1) ^ 0x04C1_1DB7 else c << 1
  }

  function GdbShifts(c: bv32, n: nat): bv32
    decreases n
  {
    if n == 0 then c else GdbShifts(GdbShift(c), n - 1)
  }

  const ROUNDS: nat := 8

  /** Entry `b` of the table: `b << 24` shifted eight times. */
  function GdbEntry(b: byte): bv32 {
    GdbShifts((b as bv32) << 24, ROUNDS)
  }

  /** `(crc << 8) ^ table[((crc >> 24) ^ b) & 255]` */
  function GdbStep(c: bv32, b: byte): bv32 {
    (c << 8) ^ GdbEntry(GdbIndex(c, b))
  }

  function GdbIndex(c: bv32, b: byte): byte {
    ((c >> 24) as byte) ^ b
  }

  function GdbRun(c: bv32, bs: seq<byte>): bv32
    decreases |bs|
  {
    if bs == [] then c else GdbRun(GdbStep(c, bs[0]), bs[1..])
  }

  /** GDB's checksum of a run of bytes. */
  function GdbCrc(bs: seq<byte>): bv32 {
    GdbRun(0xFFFF_FFFF, bs)
  }

  lemma FedBack(c: bv32)
    requires Top(c)
    ensures GdbShift(c) == Shift(c)
  {
  }

  lemma XorNothing(y: bv32)
    ensures Xor(y, 0) == y
  {
  }

  lemma NotFedBack(c: bv32)
    requires !Top(c)
    ensures GdbShift(c) == Shift(c)
  {
    XorNothing(Up(c));
  }

  lemma {:induction false} SameShifts(c: bv32, n: nat)
    ensures GdbShifts(c, n) == Iterate(Shift, c, n)
    decreases n
  {
    if n > 0 {
      if Top(c) { FedBack(c); } else { NotFedBack(c); }
      SameShifts(Shift(c), n - 1);
    }
  }

  lemma SameEntry(b: byte)
    ensures GdbEntry(b) == Table(b)
  {
    SameShifts(AtTop(b), BYTE);
  }

  lemma SameIndex(c: bv32, b: byte)
    ensures GdbIndex(c, b) == XorByte(TopByte(c), b)
  {
  }

  lemma SameStep(c: bv32, b: byte)
    ensures GdbStep(c, b) == TableStep(c, b)
  {
    SameIndex(c, b);
    SameEntry(GdbIndex(c, b));
  }

  lemma {:induction false} FoldFront<S, W>(step: (S, W) -> S, c: S, ws: seq<W>)
    requires ws != []
    ensures Fold(step, c, ws) == Fold(step, step(c, ws[0]), ws[1..])
    decreases |ws|
  {
    var n := |ws| - 1;
    if n > 0 {
      FoldFront(step, c, ws[..n]);
      assert ws[..n][1..] == ws[1..][..n - 1];
    }
  }

  /** The table-driven form of the register is GDB's algorithm. */
  lemma {:induction false} RunIsFold(c: bv32, bs: seq<byte>)
    ensures GdbRun(c, bs) == Fold(TableStep, c, bs)
    decreases |bs|
  {
    if bs != [] {
      SameStep(c, bs[0]);
      RunIsFold(TableStep(c, bs[0]), bs[1..]);
      FoldFront(TableStep, c, bs);
    }
  }

  lemma UnitAbsorbs(c: bv32, w: bv32)
    ensures AbsorbsAt(UNIT, Absorb, c, w)
  {
  }

  lemma UnitSteps(c: bv32, b: byte)
    ensures StepsAt(UNIT, TableStep, c, b)
  {
  }

  lemma UnitForms()
    ensures Forms(UNIT, Absorb, TableStep)
  {
    forall c, w ensures AbsorbsAt(UNIT, Absorb, c, w) { UnitAbsorbs(c, w); }
    forall c, b ensures StepsAt(UNIT, TableStep, c, b) { UnitSteps(c, b); }
  }

  /** `n` words from `at`, each with its bytes reversed. */
  function Swapped(m: seq<byte>, at: nat, n: nat): seq<byte>
    requires at + 4 * n <= |m|
  {
    if n == 0 then []
    else
      var i := at + 4 * (n - 1);
      Swapped(m, at, n - 1) + [m[i + 3], m[i + 2], m[i + 1], m[i]]
  }

  lemma WordBytes(b0: byte, b1: byte, b2: byte, b3: byte)
    ensures Spell(UNIT, WordOf(b0, b1, b2, b3)) == [b3, b2, b1, b0]
  {
  }

  lemma {:induction false} SpelledSwapped(m: seq<byte>, at: nat, n: nat)
    requires at + 4 * n <= |m|
    ensures SpellAll(UNIT, WordsFrom(m, at, n)) == Swapped(m, at, n)
    decreases n
  {
    if n > 0 {
      var i := at + 4 * (n - 1);
      SpelledSwapped(m, at, n - 1);
      assert WordsFrom(m, at, n)[..n - 1] == WordsFrom(m, at, n - 1);
      WordBytes(m[i], m[i + 1], m[i + 2], m[i + 3]);
    }
  }

  /** The unit's checksum of any run of words is GDB's of the same bytes, swapped within each word. */
  lemma UnitIsGdbSwapped(m: seq<byte>, at: nat, n: nat)
    requires at + 4 * n <= |m|
    ensures Crc32(WordsFrom(m, at, n)) == GdbCrc(Swapped(m, at, n))
  {
    UnitLaws();
    UnitForms();
    WordsAreBytes(UNIT, Absorb, TableStep, SEED, WordsFrom(m, at, n));
    SpelledSwapped(m, at, n);
    RunIsFold(SEED, Swapped(m, at, n));
  }

  /** What a host has to put into the header: GDB's checksum of the covered words, each byte-swapped. */
  lemma VerdictByGdb(m: seq<byte>, at: nat)
    requires at + 12 <= |m| && at + Extent(m, at) <= |m|
    ensures Accepted(m, at) <==>
              && SizeSane(m, at)
              && (Unhashed(m, at) || GdbCrc(Swapped(m, at + 12, ImageSize(m, at) / 4)) == Checksum(m, at))
  {
    if SizeSane(m, at) && !Unhashed(m, at) { UnitIsGdbSwapped(m, at + 12, ImageSize(m, at) / 4); }
  }

  // ---------- In memory order ----------

  /** Pointwise sums of two runs of words. */
  function Sums<S>(plus: (S, S) -> S, vs: seq<S>, ws: seq<S>): seq<S>
    requires |vs| == |ws|
  {
    seq(|vs|, i requires 0 <= i < |vs| => plus(vs[i], ws[i]))
  }

  ghost predicate AdditiveAt<S>(absorb: (S, S) -> S, plus: (S, S) -> S, c: S, d: S, v: S, w: S) {
    absorb(plus(c, d), plus(v, w)) == plus(absorb(c, v), absorb(d, w))
  }

  /** Folding an additive step over sums gives the sum of the folds. */
  lemma {:induction false} FoldAdds<S(!new)>(absorb: (S, S) -> S, plus: (S, S) -> S, c: S, d: S, vs: seq<S>, ws: seq<S>)
    requires |vs| == |ws| && forall c, d, v, w :: AdditiveAt(absorb, plus, c, d, v, w)
    ensures Fold(absorb, plus(c, d), Sums(plus, vs, ws)) == plus(Fold(absorb, c, vs), Fold(absorb, d, ws))
    decreases |vs|
  {
    if vs != [] {
      var n := |vs| - 1;
      FoldAdds(absorb, plus, c, d, vs[..n], ws[..n]);
      assert Sums(plus, vs, ws)[..n] == Sums(plus, vs[..n], ws[..n]);
      assert AdditiveAt(absorb, plus, Fold(absorb, c, vs[..n]), Fold(absorb, d, ws[..n]), vs[n], ws[n]);
    }
  }

  lemma RegisterAdds<S(!new), B(!new)>(r: Register<S, B>, absorb: (S, S) -> S, c: S, d: S, v: S, w: S)
    requires Laws(r) && AbsorbsAt(r, absorb, c, v) && AbsorbsAt(r, absorb, d, w)
    requires AbsorbsAt(r, absorb, r.plus(c, d), r.plus(v, w))
    requires r.plus(r.plus(c, d), r.plus(v, w)) == r.plus(r.plus(c, v), r.plus(d, w))
    ensures AdditiveAt(absorb, r.plus, c, d, v, w)
  {
    IterateLinear(r, r.plus(c, v), r.plus(d, w), 32);
  }

  lemma UnitExchanges(c: bv32, d: bv32, v: bv32, w: bv32)
    ensures UNIT.plus(UNIT.plus(c, d), UNIT.plus(v, w)) == UNIT.plus(UNIT.plus(c, v), UNIT.plus(d, w))
  {
    XorExchanges(c, d, v, w);
  }

  lemma PlusIsXor()
    ensures UNIT.plus == Xor
  {
  }

  lemma UnitAdditive(c: bv32, d: bv32, v: bv32, w: bv32)
    ensures AdditiveAt(Absorb, Xor, c, d, v, w)
  {
    UnitLaws();
    UnitAbsorbs(c, v);
    UnitAbsorbs(d, w);
    UnitAbsorbs(UNIT.plus(c, d), UNIT.plus(v, w));
    UnitExchanges(c, d, v, w);
    RegisterAdds(UNIT, Absorb, c, d, v, w);
    PlusIsXor();
  }

  lemma XorSelf(a: bv32)
    ensures Xor(a, a) == 0
  {
  }

  lemma XorZero(a: bv32, b: bv32)
    ensures Xor(a, b) == 0 <==> a == b
  {
    XorSelf(b);
    if Xor(a, b) == 0 { XorRight(a, b, b); }
  }

  /** Two runs of words share a CRC if and only if their difference, folded from zero, vanishes. */
  lemma SameCrc(vs: seq<bv32>, ws: seq<bv32>)
    requires |vs| == |ws|
    ensures Crc32(vs) == Crc32(ws) <==> Fold(Absorb, 0, Sums(Xor, vs, ws)) == 0
  {
    forall c, d, v, w ensures AdditiveAt(Absorb, Xor, c, d, v, w) { UnitAdditive(c, d, v, w); }
    FoldAdds(Absorb, Xor, SEED, SEED, vs, ws);
    XorZero(SEED, SEED);
    XorZero(Crc32(vs), Crc32(ws));
  }

  /** Word `k` reads the same with its bytes reversed. */
  predicate Palindrome(m: seq<byte>, k: nat)
    requires 4 * k + 4 <= |m|
  {
    m[4 * k] == m[4 * k + 3] && m[4 * k + 1] == m[4 * k + 2]
  }

  lemma {:induction false} SwappedLength(m: seq<byte>, n: nat)
    requires 4 * n <= |m|
    ensures |Swapped(m, 0, n)| == 4 * n
    decreases n
  {
    if n > 0 { SwappedLength(m, n - 1); }
  }

  lemma {:induction false} SwappedAt(m: seq<byte>, n: nat, k: nat)
    requires 4 * n <= |m| && k < n
    ensures |Swapped(m, 0, n)| == 4 * n
    ensures Swapped(m, 0, n)[4 * k..4 * k + 4] == [m[4 * k + 3], m[4 * k + 2], m[4 * k + 1], m[4 * k]]
    decreases n
  {
    var init := Swapped(m, 0, n - 1);
    SwappedLength(m, n - 1);
    if k < n - 1 {
      SwappedAt(m, n - 1, k);
      PrefixSlice(init, Swapped(m, 0, n), 4 * k, 4 * k + 4);
    }
  }

  lemma PrefixSlice(s: seq<byte>, t: seq<byte>, i: nat, j: nat)
    requires s <= t && i <= j <= |s|
    ensures t[i..j] == s[i..j]
  {
  }

  lemma SwappedWord(m: seq<byte>, n: nat, k: nat)
    requires 4 * n <= |m| && k < n
    ensures |Swapped(m, 0, n)| == 4 * n
    ensures var s := Swapped(m, 0, n);
            && s[4 * k] == m[4 * k + 3] && s[4 * k + 1] == m[4 * k + 2]
            && s[4 * k + 2] == m[4 * k + 1] && s[4 * k + 3] == m[4 * k]
  {
    SwappedAt(m, n, k);
    var s, q := Swapped(m, 0, n), Swapped(m, 0, n)[4 * k..4 * k + 4];
    assert s[4 * k] == q[0] && s[4 * k + 1] == q[1] && s[4 * k + 2] == q[2] && s[4 * k + 3] == q[3];
  }

  lemma {:induction false} SwapTwice(m: seq<byte>, s: seq<byte>, n: nat, i: nat)
    requires |m| == 4 * n == |s| && s == Swapped(m, 0, n) && i <= n
    ensures Swapped(s, 0, i) == m[..4 * i]
    decreases i
  {
    if i > 0 {
      var k := i - 1;
      SwapTwice(m, s, n, k);
      SwappedWord(m, n, k);
      assert m[..4 * i] == m[..4 * k] + [m[4 * k], m[4 * k + 1], m[4 * k + 2], m[4 * k + 3]];
    }
  }

  lemma WordUnchanged(m: seq<byte>, n: nat, k: nat)
    requires |m| == 4 * n && k < n
    ensures |Swapped(m, 0, n)| == 4 * n
    ensures WordAt(m, 4 * k) == WordAt(Swapped(m, 0, n), 4 * k) <==> Palindrome(m, k)
  {
    SwappedWord(m, n, k);
    var i := 4 * k;
    if WordAt(m, i) == WordAt(Swapped(m, 0, n), i) {
      WordOfInjective(m[i], m[i + 1], m[i + 2], m[i + 3], m[i + 3], m[i + 2], m[i + 1], m[i]);
    }
  }

  /** What GDB computes over the bytes in memory order: the unit's CRC of the byte-swapped words. */
  lemma GdbIsUnitSwapped(m: seq<byte>, n: nat)
    requires |m| == 4 * n
    ensures |Swapped(m, 0, n)| == 4 * n && GdbCrc(m) == Crc32(WordsFrom(Swapped(m, 0, n), 0, n))
  {
    SwappedLength(m, n);
    var s := Swapped(m, 0, n);
    SwapTwice(m, s, n, n);
    UnitIsGdbSwapped(s, 0, n);
    assert m[..4 * n] == m;
  }

  /** The words of an image, each combined with its own byte reversal. */
  function Asymmetries(m: seq<byte>, n: nat): seq<bv32>
    requires |m| == 4 * n
  {
    SwappedLength(m, n);
    Sums(Xor, WordsFrom(m, 0, n), WordsFrom(Swapped(m, 0, n), 0, n))
  }

  /**
   In memory order, for images of any length: the two checksums agree if and only if the asymmetries,
   folded from zero, vanish. So they agree if every word is a byte palindrome, and they differ if exactly
   one is not.
   */
  lemma GdbInMemoryOrder(m: seq<byte>, n: nat)
    requires |m| == 4 * n
    ensures Crc32(WordsFrom(m, 0, n)) == GdbCrc(m) <==> Fold(Absorb, 0, Asymmetries(m, n)) == 0
    ensures (forall k: nat :: k < n ==> Palindrome(m, k)) ==> Crc32(WordsFrom(m, 0, n)) == GdbCrc(m)
    ensures forall k: nat :: k < n && !Palindrome(m, k) && (forall j: nat :: j < n && j != k ==> Palindrome(m, j)) ==>
              Crc32(WordsFrom(m, 0, n)) != GdbCrc(m)
  {
    GdbIsUnitSwapped(m, n);
    var vs, ws := WordsFrom(m, 0, n), WordsFrom(Swapped(m, 0, n), 0, n);
    SameCrc(vs, ws);
    forall k: nat | k < n ensures vs[k] == ws[k] <==> Palindrome(m, k) { WordUnchanged(m, n, k); }
    if forall k: nat :: k < n ==> Palindrome(m, k) { assert vs == ws; }
    forall k: nat | k < n && !Palindrome(m, k) && forall j: nat :: j < n && j != k ==> Palindrome(m, j)
      ensures Crc32(vs) != Crc32(ws)
    {
      OneWordDetected(vs, ws, k);
    }
  }
}
