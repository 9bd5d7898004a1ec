// The scrambling of the cycle counter in the lottery scheduler.
module Temper {
  import opened Machine
  import opened Words

  function Step1(x: bv32): bv32 { x ^ ((x >> 11) & 0x9908b0df) }
  function Step2(x: bv32): bv32 { x ^ ((x << 7) & 0xffffffff) }
  function Step3(x: bv32): bv32 { x ^ ((x << 15) & 0x9d2c5680) }
  function Step4(x: bv32): bv32 { x ^ ((x >> 18) & 0xefc60000) }

  function Temper(seed: bv32): bv32 {
    Step4(Step3(Step2(Step1(seed))))
  }

  // The inverses: each step is the identity plus a shift that vanishes when repeated.
  function Undo1(y: bv32): bv32 {
    var t := (y >> 11) & 0x9908b0df;
    y ^ t ^ ((t >> 11) & 0x9908b0df)
  }

  // One more round of the inversion of step 2: each gets seven more bits right.
  function Again2(y: bv32, t: bv32): bv32 { y ^ ((t << 7) & 0xffffffff) }

  function Undo2(y: bv32): bv32 {
    Again2(y, Again2(y, Again2(y, Again2(y, y))))
  }

  function Undo3(y: bv32): bv32 {
    var t := (y << 15) & 0x9d2c5680;
    y ^ t ^ ((t << 15) & 0x9d2c5680)
  }

  function Untemper(y: bv32): bv32 {
    Undo1(Undo2(Undo3(y)))
  }

  lemma Step1Inverts(x: bv32)
    ensures Undo1(Step1(x)) == x && Step1(Undo1(x)) == x
  {
  }

  predicate Agree(a: bv32, b: bv32, mask: bv32) {
    a & mask == b & mask
  }

  lemma MoreBitsAgree(y: bv32, a: bv32, b: bv32, mask: bv32, wider: bv32)
    requires Agree(a, b, mask) && wider == (mask << 7) | 0x7f
    ensures Agree(Again2(y, a), Again2(y, b), wider)
  {
  }

  lemma Step2Fixpoint(x: bv32)
    ensures Again2(Step2(x), x) == x && Agree(Step2(x), x, 0x7f)
  {
  }

  lemma Undo2AfterStep2(x: bv32)
    ensures Undo2(Step2(x)) == x
  {
    var y := Step2(x);
    var t1 := Again2(y, y);
    var t2 := Again2(y, t1);
    Step2Fixpoint(x);
    MoreBitsAgree(y, y, x, 0x7f, 0x3fff);
    MoreBitsAgree(y, t1, x, 0x3fff, 0x1f_ffff);
    MoreBitsAgree(y, t2, x, 0x1f_ffff, 0xfff_ffff);
    MoreBitsAgree(y, Again2(y, t2), x, 0xfff_ffff, 0xffff_ffff);
  }

  lemma Settled(y: bv32, t: bv32)
    requires Agree(t, Again2(y, t), 0xfff_ffff)
    ensures Step2(Again2(y, t)) == y
  {
  }

  lemma FirstBits(y: bv32)
    ensures Agree(y, Again2(y, y), 0x7f)
  {
  }

  lemma Step2AfterUndo2(y: bv32)
    ensures Step2(Undo2(y)) == y
  {
    var t1 := Again2(y, y);
    var t2 := Again2(y, t1);
    var t3 := Again2(y, t2);
    FirstBits(y);
    MoreBitsAgree(y, y, t1, 0x7f, 0x3fff);
    MoreBitsAgree(y, t1, t2, 0x3fff, 0x1f_ffff);
    MoreBitsAgree(y, t2, t3, 0x1f_ffff, 0xfff_ffff);
    Settled(y, t3);
  }

  lemma Step3Inverts(x: bv32)
    ensures Undo3(Step3(x)) == x && Step3(Undo3(x)) == x
  {
  }

  // The mask of the last step keeps none of the 14 bits the shift leaves.
  lemma Step4IsIdentity(x: bv32)
    ensures Step4(x) == x
  {
  }

  lemma IsPermutation(x: bv32)
    ensures Untemper(Temper(x)) == x
    ensures Temper(Untemper(x)) == x
  {
    Step1Inverts(x);
    Undo2AfterStep2(Step1(x));
    Step3Inverts(Step2(Step1(x)));
    Step4IsIdentity(Step3(Step2(Step1(x))));
    Step3Inverts(x);
    Step2AfterUndo2(Undo3(x));
    Step1Inverts(Undo2(Undo3(x)));
    Step4IsIdentity(x);
  }

  // The same on numbers: what `seed` holds after the four steps.
  function Scramble(seed: Word): (r: Word) {
    ValueInRange(Temper(WordOf(seed)));
    Value(Temper(WordOf(seed)))
  }

  function Unscramble(r: Word): (seed: Word) {
    ValueInRange(Untemper(WordOf(r)));
    Value(Untemper(WordOf(r)))
  }

  lemma ScrambleIsPermutation(v: Word)
    ensures Unscramble(Scramble(v)) == v
    ensures Scramble(Unscramble(v)) == v
  {
    IsPermutation(WordOf(v));
    WordOfValue(Temper(WordOf(v)));
    WordOfValue(Untemper(WordOf(v)));
    ValueOfWordOf(v);
  }
}
