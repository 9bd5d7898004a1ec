// Which permutation the scrambling is: each bit of the seed acts on its own, and what it
// becomes is known.
module TemperBits {
  import opened Machine
  import opened Words
  import opened Temper

  lemma SameWord(p: bv32, q: bv32)
    requires Agree(p, q, 0x0000_00ff)
    requires Agree(p, q, 0x0000_ff00)
    requires Agree(p, q, 0x00ff_0000)
    requires Agree(p, q, 0xff00_0000)
    ensures p == q
  {
  }

  lemma Step1Byte0(a: bv32, b: bv32)
    ensures Agree(Step1(a ^ b), Step1(a) ^ Step1(b), 0x0000_00ff)
  {
  }

  lemma Step1Byte1(a: bv32, b: bv32)
    ensures Agree(Step1(a ^ b), Step1(a) ^ Step1(b), 0x0000_ff00)
  {
  }

  lemma Step1Byte2(a: bv32, b: bv32)
    ensures Agree(Step1(a ^ b), Step1(a) ^ Step1(b), 0x00ff_0000)
  {
  }

  lemma Step1Byte3(a: bv32, b: bv32)
    ensures Agree(Step1(a ^ b), Step1(a) ^ Step1(b), 0xff00_0000)
  {
  }

  lemma Step1IsLinear(x: bv32, a: bv32, b: bv32)
    requires IsXor(x, a, b)
    ensures IsXor(Step1(x), Step1(a), Step1(b))
  {
    OnlyXor(x, a, b);
    Step1OfXor(a, b);
  }

  lemma Step1OfXor(a: bv32, b: bv32)
    ensures IsXor(Step1(a ^ b), Step1(a), Step1(b))
  {
    Step1Bytes(a, b);
  }

  lemma Step1Bytes(a: bv32, b: bv32)
    ensures Step1(a ^ b) == Step1(a) ^ Step1(b)
  {
    Step1Byte0(a, b);
    Step1Byte1(a, b);
    Step1Byte2(a, b);
    Step1Byte3(a, b);
    SameWord(Step1(a ^ b), Step1(a) ^ Step1(b));
  }

  lemma Step2Byte0(a: bv32, b: bv32)
    ensures Agree(Step2(a ^ b), Step2(a) ^ Step2(b), 0x0000_00ff)
  {
  }

  lemma Step2Byte1(a: bv32, b: bv32)
    ensures Agree(Step2(a ^ b), Step2(a) ^ Step2(b), 0x0000_ff00)
  {
  }

  lemma Step2Byte2(a: bv32, b: bv32)
    ensures Agree(Step2(a ^ b), Step2(a) ^ Step2(b), 0x00ff_0000)
  {
  }

  lemma Step2Byte3(a: bv32, b: bv32)
    ensures Agree(Step2(a ^ b), Step2(a) ^ Step2(b), 0xff00_0000)
  {
  }

  lemma Step2IsLinear(x: bv32, a: bv32, b: bv32)
    requires IsXor(x, a, b)
    ensures IsXor(Step2(x), Step2(a), Step2(b))
  {
    OnlyXor(x, a, b);
    Step2OfXor(a, b);
  }

  lemma Step2OfXor(a: bv32, b: bv32)
    ensures IsXor(Step2(a ^ b), Step2(a), Step2(b))
  {
    Step2Bytes(a, b);
  }

  lemma Step2Bytes(a: bv32, b: bv32)
    ensures Step2(a ^ b) == Step2(a) ^ Step2(b)
  {
    Step2Byte0(a, b);
    Step2Byte1(a, b);
    Step2Byte2(a, b);
    Step2Byte3(a, b);
    SameWord(Step2(a ^ b), Step2(a) ^ Step2(b));
  }

  lemma Step3Byte0(a: bv32, b: bv32)
    ensures Agree(Step3(a ^ b), Step3(a) ^ Step3(b), 0x0000_00ff)
  {
  }

  lemma Step3Byte1(a: bv32, b: bv32)
    ensures Agree(Step3(a ^ b), Step3(a) ^ Step3(b), 0x0000_ff00)
  {
  }

  lemma Step3Byte2(a: bv32, b: bv32)
    ensures Agree(Step3(a ^ b), Step3(a) ^ Step3(b), 0x00ff_0000)
  {
  }

  lemma Step3Byte3(a: bv32, b: bv32)
    ensures Agree(Step3(a ^ b), Step3(a) ^ Step3(b), 0xff00_0000)
  {
  }

  lemma Step3IsLinear(x: bv32, a: bv32, b: bv32)
    requires IsXor(x, a, b)
    ensures IsXor(Step3(x), Step3(a), Step3(b))
  {
    OnlyXor(x, a, b);
    Step3OfXor(a, b);
  }

  lemma Step3OfXor(a: bv32, b: bv32)
    ensures IsXor(Step3(a ^ b), Step3(a), Step3(b))
  {
    Step3Bytes(a, b);
  }

  lemma Step3Bytes(a: bv32, b: bv32)
    ensures Step3(a ^ b) == Step3(a) ^ Step3(b)
  {
    Step3Byte0(a, b);
    Step3Byte1(a, b);
    Step3Byte2(a, b);
    Step3Byte3(a, b);
    SameWord(Step3(a ^ b), Step3(a) ^ Step3(b));
  }

  lemma Step4Byte0(a: bv32, b: bv32)
    ensures Agree(Step4(a ^ b), Step4(a) ^ Step4(b), 0x0000_00ff)
  {
  }

  lemma Step4Byte1(a: bv32, b: bv32)
    ensures Agree(Step4(a ^ b), Step4(a) ^ Step4(b), 0x0000_ff00)
  {
  }

  lemma Step4Byte2(a: bv32, b: bv32)
    ensures Agree(Step4(a ^ b), Step4(a) ^ Step4(b), 0x00ff_0000)
  {
  }

  lemma Step4Byte3(a: bv32, b: bv32)
    ensures Agree(Step4(a ^ b), Step4(a) ^ Step4(b), 0xff00_0000)
  {
  }

  lemma Step4IsLinear(x: bv32, a: bv32, b: bv32)
    requires IsXor(x, a, b)
    ensures IsXor(Step4(x), Step4(a), Step4(b))
  {
    OnlyXor(x, a, b);
    Step4OfXor(a, b);
  }

  lemma Step4OfXor(a: bv32, b: bv32)
    ensures IsXor(Step4(a ^ b), Step4(a), Step4(b))
  {
    Step4Bytes(a, b);
  }

  lemma Step4Bytes(a: bv32, b: bv32)
    ensures Step4(a ^ b) == Step4(a) ^ Step4(b)
  {
    Step4Byte0(a, b);
    Step4Byte1(a, b);
    Step4Byte2(a, b);
    Step4Byte3(a, b);
    SameWord(Step4(a ^ b), Step4(a) ^ Step4(b));
  }

  lemma FourStepsAreLinear(x: bv32, a: bv32, b: bv32)
    requires IsXor(x, a, b)
    ensures IsXor(Temper.Temper(x), Temper.Temper(a), Temper.Temper(b))
  {
    Step1IsLinear(x, a, b);
    Step2IsLinear(Step1(x), Step1(a), Step1(b));
    Step3IsLinear(Step2(Step1(x)), Step2(Step1(a)), Step2(Step1(b)));
    Step4IsLinear(Step3(Step2(Step1(x))), Step3(Step2(Step1(a))), Step3(Step2(Step1(b))));
  }

  // Each bit of the seed acts on its own. (Words with the same number are the same.)
  lemma TemperIsLinear(a: bv32, b: bv32)
    ensures Value(Temper.Temper(a ^ b)) == Value(Temper.Temper(a) ^ Temper.Temper(b))
  {
    FourStepsAreLinear(a ^ b, a, b);
  }

  // The lottery's number for a seed is that of its scrambled word.
  lemma ScrambleOfWord(x: bv32)
    ensures Value(x) < WORD && Scramble(Value(x)) == Value(Temper.Temper(x))
  {
    ValueInRange(x);
    WordOfValue(x);
  }

  // So the bits of the seed act on their own in the lottery, too.
  lemma ScrambleIsLinear(a: bv32, b: bv32)
    ensures Value(a ^ b) < WORD
    ensures Scramble(Value(a ^ b)) == Value(Temper.Temper(a) ^ Temper.Temper(b))
  {
    ScrambleOfWord(a ^ b);
    TemperIsLinear(a, b);
  }

  // What each bit becomes.
  lemma TemperOfBits()
    ensures Temper.Temper(0x1) == 0x00000081 && Temper.Temper(0x2) == 0x00000102
    ensures Temper.Temper(0x4) == 0x01000204 && Temper.Temper(0x8) == 0x00040408
    ensures Temper.Temper(0x10) == 0x04080810 && Temper.Temper(0x20) == 0x08001020
    ensures Temper.Temper(0x40) == 0x10202040 && Temper.Temper(0x80) == 0x00004080
    ensures Temper.Temper(0x100) == 0x00008100 && Temper.Temper(0x200) == 0x81010200
    ensures Temper.Temper(0x400) == 0x00020400 && Temper.Temper(0x800) == 0x04040881
    ensures Temper.Temper(0x1000) == 0x08081102 && Temper.Temper(0x2000) == 0x11102204
    ensures Temper.Temper(0x4000) == 0x00244408 && Temper.Temper(0x8000) == 0x04488810
    ensures Temper.Temper(0x10000) == 0x80810000 && Temper.Temper(0x20000) == 0x11222040
    ensures Temper.Temper(0x40000) == 0x02044080 && Temper.Temper(0x80000) == 0x04080000
    ensures Temper.Temper(0x100000) == 0x08100000 && Temper.Temper(0x200000) == 0x10200000
    ensures Temper.Temper(0x400000) == 0x20400000 && Temper.Temper(0x800000) == 0x48881000
    ensures Temper.Temper(0x1000000) == 0x91102000 && Temper.Temper(0x2000000) == 0x02000000
    ensures Temper.Temper(0x4000000) == 0x04408000 && Temper.Temper(0x8000000) == 0x08000000
    ensures Temper.Temper(0x10000000) == 0x10000000 && Temper.Temper(0x20000000) == 0x20000000
    ensures Temper.Temper(0x40000000) == 0x44080000 && Temper.Temper(0x80000000) == 0x80000000
  {
  }

  lemma ScrambleOf(v: Word, r: Word, x: bv32, y: bv32)
    requires v == Value(x) && y == Temper.Temper(x) && r == Value(y)
    ensures Scramble(v) == r
  {
    WordOfValue(x);
  }

  lemma ScrambleOfBits0()
    ensures Scramble(0x1) == 0x81
    ensures Scramble(0x2) == 0x102
    ensures Scramble(0x4) == 0x1000204
    ensures Scramble(0x8) == 0x40408
  {
    HexDigits();
    TemperOfBits();
    HexWord(0x00000001, 0x0, 0x0, 0x0, 0x0, 0x0, 0x0, 0x0);
    HexWord(0x00000081, 0x8, 0x0, 0x0, 0x0, 0x0, 0x0, 0x0);
    ScrambleOf(0x1, 0x81, 0x1, 0x81);
    HexWord(0x00000002, 0x0, 0x0, 0x0, 0x0, 0x0, 0x0, 0x0);
    HexWord(0x00000102, 0x10, 0x1, 0x0, 0x0, 0x0, 0x0, 0x0);
    ScrambleOf(0x2, 0x102, 0x2, 0x102);
    HexWord(0x00000004, 0x0, 0x0, 0x0, 0x0, 0x0, 0x0, 0x0);
    HexWord(0x01000204, 0x100020, 0x10002, 0x1000, 0x100, 0x10, 0x1, 0x0);
    ScrambleOf(0x4, 0x1000204, 0x4, 0x1000204);
    HexWord(0x00000008, 0x0, 0x0, 0x0, 0x0, 0x0, 0x0, 0x0);
    HexWord(0x00040408, 0x4040, 0x404, 0x40, 0x4, 0x0, 0x0, 0x0);
    ScrambleOf(0x8, 0x40408, 0x8, 0x40408);
  }

  lemma ScrambleOfBits1()
    ensures Scramble(0x10) == 0x4080810
    ensures Scramble(0x20) == 0x8001020
    ensures Scramble(0x40) == 0x10202040
    ensures Scramble(0x80) == 0x4080
  {
    HexDigits();
    TemperOfBits();
    HexWord(0x00000010, 0x1, 0x0, 0x0, 0x0, 0x0, 0x0, 0x0);
    HexWord(0x04080810, 0x408081, 0x40808, 0x4080, 0x408, 0x40, 0x4, 0x0);
    ScrambleOf(0x10, 0x4080810, 0x10, 0x4080810);
    HexWord(0x00000020, 0x2, 0x0, 0x0, 0x0, 0x0, 0x0, 0x0);
    HexWord(0x08001020, 0x800102, 0x80010, 0x8001, 0x800, 0x80, 0x8, 0x0);
    ScrambleOf(0x20, 0x8001020, 0x20, 0x8001020);
    HexWord(0x00000040, 0x4, 0x0, 0x0, 0x0, 0x0, 0x0, 0x0);
    HexWord(0x10202040, 0x1020204, 0x102020, 0x10202, 0x1020, 0x102, 0x10, 0x1);
    ScrambleOf(0x40, 0x10202040, 0x40, 0x10202040);
    HexWord(0x00000080, 0x8, 0x0, 0x0, 0x0, 0x0, 0x0, 0x0);
    HexWord(0x00004080, 0x408, 0x40, 0x4, 0x0, 0x0, 0x0, 0x0);
    ScrambleOf(0x80, 0x4080, 0x80, 0x4080);
  }

  lemma ScrambleOfBits2()
    ensures Scramble(0x100) == 0x8100
    ensures Scramble(0x200) == 0x81010200
    ensures Scramble(0x400) == 0x20400
    ensures Scramble(0x800) == 0x4040881
  {
    HexDigits();
    TemperOfBits();
    HexWord(0x00000100, 0x10, 0x1, 0x0, 0x0, 0x0, 0x0, 0x0);
    HexWord(0x00008100, 0x810, 0x81, 0x8, 0x0, 0x0, 0x0, 0x0);
    ScrambleOf(0x100, 0x8100, 0x100, 0x8100);
    HexWord(0x00000200, 0x20, 0x2, 0x0, 0x0, 0x0, 0x0, 0x0);
    HexWord(0x81010200, 0x8101020, 0x810102, 0x81010, 0x8101, 0x810, 0x81, 0x8);
    ScrambleOf(0x200, 0x81010200, 0x200, 0x81010200);
    HexWord(0x00000400, 0x40, 0x4, 0x0, 0x0, 0x0, 0x0, 0x0);
    HexWord(0x00020400, 0x2040, 0x204, 0x20, 0x2, 0x0, 0x0, 0x0);
    ScrambleOf(0x400, 0x20400, 0x400, 0x20400);
    HexWord(0x00000800, 0x80, 0x8, 0x0, 0x0, 0x0, 0x0, 0x0);
    HexWord(0x04040881, 0x404088, 0x40408, 0x4040, 0x404, 0x40, 0x4, 0x0);
    ScrambleOf(0x800, 0x4040881, 0x800, 0x4040881);
  }

  lemma ScrambleOfBits3()
    ensures Scramble(0x1000) == 0x8081102
    ensures Scramble(0x2000) == 0x11102204
    ensures Scramble(0x4000) == 0x244408
    ensures Scramble(0x8000) == 0x4488810
  {
    HexDigits();
    TemperOfBits();
    HexWord(0x00001000, 0x100, 0x10, 0x1, 0x0, 0x0, 0x0, 0x0);
    HexWord(0x08081102, 0x808110, 0x80811, 0x8081, 0x808, 0x80, 0x8, 0x0);
    ScrambleOf(0x1000, 0x8081102, 0x1000, 0x8081102);
    HexWord(0x00002000, 0x200, 0x20, 0x2, 0x0, 0x0, 0x0, 0x0);
    HexWord(0x11102204, 0x1110220, 0x111022, 0x11102, 0x1110, 0x111, 0x11, 0x1);
    ScrambleOf(0x2000, 0x11102204, 0x2000, 0x11102204);
    HexWord(0x00004000, 0x400, 0x40, 0x4, 0x0, 0x0, 0x0, 0x0);
    HexWord(0x00244408, 0x24440, 0x2444, 0x244, 0x24, 0x2, 0x0, 0x0);
    ScrambleOf(0x4000, 0x244408, 0x4000, 0x244408);
    HexWord(0x00008000, 0x800, 0x80, 0x8, 0x0, 0x0, 0x0, 0x0);
    HexWord(0x04488810, 0x448881, 0x44888, 0x4488, 0x448, 0x44, 0x4, 0x0);
    ScrambleOf(0x8000, 0x4488810, 0x8000, 0x4488810);
  }

  lemma ScrambleOfBits4()
    ensures Scramble(0x10000) == 0x80810000
    ensures Scramble(0x20000) == 0x11222040
    ensures Scramble(0x40000) == 0x2044080
    ensures Scramble(0x80000) == 0x4080000
  {
    HexDigits();
    TemperOfBits();
    HexWord(0x00010000, 0x1000, 0x100, 0x10, 0x1, 0x0, 0x0, 0x0);
    HexWord(0x80810000, 0x8081000, 0x808100, 0x80810, 0x8081, 0x808, 0x80, 0x8);
    ScrambleOf(0x10000, 0x80810000, 0x10000, 0x80810000);
    HexWord(0x00020000, 0x2000, 0x200, 0x20, 0x2, 0x0, 0x0, 0x0);
    HexWord(0x11222040, 0x1122204, 0x112220, 0x11222, 0x1122, 0x112, 0x11, 0x1);
    ScrambleOf(0x20000, 0x11222040, 0x20000, 0x11222040);
    HexWord(0x00040000, 0x4000, 0x400, 0x40, 0x4, 0x0, 0x0, 0x0);
    HexWord(0x02044080, 0x204408, 0x20440, 0x2044, 0x204, 0x20, 0x2, 0x0);
    ScrambleOf(0x40000, 0x2044080, 0x40000, 0x2044080);
    HexWord(0x00080000, 0x8000, 0x800, 0x80, 0x8, 0x0, 0x0, 0x0);
    HexWord(0x04080000, 0x408000, 0x40800, 0x4080, 0x408, 0x40, 0x4, 0x0);
    ScrambleOf(0x80000, 0x4080000, 0x80000, 0x4080000);
  }

  lemma ScrambleOfBits5()
    ensures Scramble(0x100000) == 0x8100000
    ensures Scramble(0x200000) == 0x10200000
    ensures Scramble(0x400000) == 0x20400000
    ensures Scramble(0x800000) == 0x48881000
  {
    HexDigits();
    TemperOfBits();
    HexWord(0x00100000, 0x10000, 0x1000, 0x100, 0x10, 0x1, 0x0, 0x0);
    HexWord(0x08100000, 0x810000, 0x81000, 0x8100, 0x810, 0x81, 0x8, 0x0);
    ScrambleOf(0x100000, 0x8100000, 0x100000, 0x8100000);
    HexWord(0x00200000, 0x20000, 0x2000, 0x200, 0x20, 0x2, 0x0, 0x0);
    HexWord(0x10200000, 0x1020000, 0x102000, 0x10200, 0x1020, 0x102, 0x10, 0x1);
    ScrambleOf(0x200000, 0x10200000, 0x200000, 0x10200000);
    HexWord(0x00400000, 0x40000, 0x4000, 0x400, 0x40, 0x4, 0x0, 0x0);
    HexWord(0x20400000, 0x2040000, 0x204000, 0x20400, 0x2040, 0x204, 0x20, 0x2);
    ScrambleOf(0x400000, 0x20400000, 0x400000, 0x20400000);
    HexWord(0x00800000, 0x80000, 0x8000, 0x800, 0x80, 0x8, 0x0, 0x0);
    HexWord(0x48881000, 0x4888100, 0x488810, 0x48881, 0x4888, 0x488, 0x48, 0x4);
    ScrambleOf(0x800000, 0x48881000, 0x800000, 0x48881000);
  }

  lemma ScrambleOfBits6()
    ensures Scramble(0x1000000) == 0x91102000
    ensures Scramble(0x2000000) == 0x2000000
    ensures Scramble(0x4000000) == 0x4408000
    ensures Scramble(0x8000000) == 0x8000000
  {
    HexDigits();
    TemperOfBits();
    HexWord(0x01000000, 0x100000, 0x10000, 0x1000, 0x100, 0x10, 0x1, 0x0);
    HexWord(0x91102000, 0x9110200, 0x911020, 0x91102, 0x9110, 0x911, 0x91, 0x9);
    ScrambleOf(0x1000000, 0x91102000, 0x1000000, 0x91102000);
    HexWord(0x02000000, 0x200000, 0x20000, 0x2000, 0x200, 0x20, 0x2, 0x0);
    HexWord(0x02000000, 0x200000, 0x20000, 0x2000, 0x200, 0x20, 0x2, 0x0);
    ScrambleOf(0x2000000, 0x2000000, 0x2000000, 0x2000000);
    HexWord(0x04000000, 0x400000, 0x40000, 0x4000, 0x400, 0x40, 0x4, 0x0);
    HexWord(0x04408000, 0x440800, 0x44080, 0x4408, 0x440, 0x44, 0x4, 0x0);
    ScrambleOf(0x4000000, 0x4408000, 0x4000000, 0x4408000);
    HexWord(0x08000000, 0x800000, 0x80000, 0x8000, 0x800, 0x80, 0x8, 0x0);
    HexWord(0x08000000, 0x800000, 0x80000, 0x8000, 0x800, 0x80, 0x8, 0x0);
    ScrambleOf(0x8000000, 0x8000000, 0x8000000, 0x8000000);
  }

  lemma ScrambleOfBits7()
    ensures Scramble(0x10000000) == 0x10000000
    ensures Scramble(0x20000000) == 0x20000000
    ensures Scramble(0x40000000) == 0x44080000
    ensures Scramble(0x80000000) == 0x80000000
  {
    HexDigits();
    TemperOfBits();
    HexWord(0x10000000, 0x1000000, 0x100000, 0x10000, 0x1000, 0x100, 0x10, 0x1);
    HexWord(0x10000000, 0x1000000, 0x100000, 0x10000, 0x1000, 0x100, 0x10, 0x1);
    ScrambleOf(0x10000000, 0x10000000, 0x10000000, 0x10000000);
    HexWord(0x20000000, 0x2000000, 0x200000, 0x20000, 0x2000, 0x200, 0x20, 0x2);
    HexWord(0x20000000, 0x2000000, 0x200000, 0x20000, 0x2000, 0x200, 0x20, 0x2);
    ScrambleOf(0x20000000, 0x20000000, 0x20000000, 0x20000000);
    HexWord(0x40000000, 0x4000000, 0x400000, 0x40000, 0x4000, 0x400, 0x40, 0x4);
    HexWord(0x44080000, 0x4408000, 0x440800, 0x44080, 0x4408, 0x440, 0x44, 0x4);
    ScrambleOf(0x40000000, 0x44080000, 0x40000000, 0x44080000);
    HexWord(0x80000000, 0x8000000, 0x800000, 0x80000, 0x8000, 0x800, 0x80, 0x8);
    HexWord(0x80000000, 0x8000000, 0x800000, 0x80000, 0x8000, 0x800, 0x80, 0x8);
    ScrambleOf(0x80000000, 0x80000000, 0x80000000, 0x80000000);
  }

  // What each bit of the seed contributes.
  lemma ScrambleOfBits()
    ensures Scramble(0x1) == 0x81 && Scramble(0x2) == 0x102
    ensures Scramble(0x4) == 0x1000204 && Scramble(0x8) == 0x40408
    ensures Scramble(0x10) == 0x4080810 && Scramble(0x20) == 0x8001020
    ensures Scramble(0x40) == 0x10202040 && Scramble(0x80) == 0x4080
    ensures Scramble(0x100) == 0x8100 && Scramble(0x200) == 0x81010200
    ensures Scramble(0x400) == 0x20400 && Scramble(0x800) == 0x4040881
    ensures Scramble(0x1000) == 0x8081102 && Scramble(0x2000) == 0x11102204
    ensures Scramble(0x4000) == 0x244408 && Scramble(0x8000) == 0x4488810
    ensures Scramble(0x10000) == 0x80810000 && Scramble(0x20000) == 0x11222040
    ensures Scramble(0x40000) == 0x2044080 && Scramble(0x80000) == 0x4080000
    ensures Scramble(0x100000) == 0x8100000 && Scramble(0x200000) == 0x10200000
    ensures Scramble(0x400000) == 0x20400000 && Scramble(0x800000) == 0x48881000
    ensures Scramble(0x1000000) == 0x91102000 && Scramble(0x2000000) == 0x2000000
    ensures Scramble(0x4000000) == 0x4408000 && Scramble(0x8000000) == 0x8000000
    ensures Scramble(0x10000000) == 0x10000000 && Scramble(0x20000000) == 0x20000000
    ensures Scramble(0x40000000) == 0x44080000 && Scramble(0x80000000) == 0x80000000
  {
    ScrambleOfBits0();
    ScrambleOfBits1();
    ScrambleOfBits2();
    ScrambleOfBits3();
    ScrambleOfBits4();
    ScrambleOfBits5();
    ScrambleOfBits6();
    ScrambleOfBits7();
  }
}
