/** The assembly routine lcma: it keeps the product of its arguments in r4 across the call
    of gcfa and divides it by the gcd with the run-time division. */
module ArmLcm {
  import opened Arm
  import opened Lcm
  import opened Divisibility
  import ArmGcd

  // The frame below the caller's stack pointer: three saved registers, five words of room.
  ghost predicate InFrame(c: State, s: State) {
    && c.r.sp >= 64
    && s.r.fp == c.r.sp - 4 && s.r.sp == c.r.sp - 32
    && Load(s.mem, c.r.sp - 12) == c.r.r4
    && Load(s.mem, c.r.sp - 8) == c.r.fp
    && Load(s.mem, c.r.sp - 4) == c.r.lr
    && SameAbove(c.mem, s.mem, c.r.sp)
  }

  function Framed(s: State): State
    requires 64 <= s.r.sp
  {
    var sp := s.r.sp;
    s.(pc := s.pc + 3, r := s.r.(fp := sp - 4, sp := sp - 32),
       mem := s.mem[sp - 12 := s.r.r4][sp - 8 := s.r.fp][sp - 4 := s.r.lr])
  }

  lemma Prologue(s: State, x: Scratch)
    requires 64 <= s.r.sp && s.pc == LCMA
    ensures Run(s, x, 3) == Framed(s)
  {
    hide Run, Step, Code;
    LcmaListing();
    var s1 := Execute(PushSaved, s, x);
    var s2 := Execute(AddImm(FP, SP, 8), s1, x);
    RunFirst(s, x, PushSaved, 2);
    RunFirst(s1, x, AddImm(FP, SP, 8), 1);
    RunFirst(s2, x, SubImm(SP, SP, 20), 0);
  }

  // Both arguments are stored and loaded again.
  function Stored(s: State): State
    requires 32 <= s.r.fp
  {
    s.(pc := s.pc + 4, r := s.r.(r3 := s.r.r0, r2 := s.r.r1),
       mem := s.mem[s.r.fp - 24 := s.r.r0][s.r.fp - 28 := s.r.r1])
  }

  lemma StoreArguments(s: State, x: Scratch)
    requires 32 <= s.r.fp && s.pc == 108
    ensures Run(s, x, 4) == Stored(s)
  {
    hide Run, Step, Code;
    LcmaListing();
    var s1 := Execute(Str(R0, FP, 24), s, x);
    var s2 := Execute(Str(R1, FP, 28), s1, x);
    var s3 := Execute(Ldr(R3, FP, 24), s2, x);
    RunFirst(s, x, Str(R0, FP, 24), 3);
    RunFirst(s1, x, Str(R1, FP, 28), 2);
    RunFirst(s2, x, Ldr(R3, FP, 24), 1);
    RunFirst(s3, x, Ldr(R2, FP, 28), 0);
  }

  // r4 = product, arguments back in place, call.
  function Calling(s: State): State
    requires 32 <= s.r.fp
  {
    s.(pc := 0, r := s.r.(r4 := Wrap(s.r.r2 * s.r.r3), r1 := Load(s.mem, s.r.fp - 28),
                          r0 := Load(s.mem, s.r.fp - 24), lr := 116))
  }

  lemma CallGcfa(s: State, x: Scratch)
    requires 32 <= s.r.fp && s.pc == 112
    ensures Run(s, x, 4) == Calling(s)
  {
    hide Run, Step, Code;
    LcmaListing();
    var s1 := Execute(Mul(R4, R2, R3), s, x);
    var s2 := Execute(Ldr(R1, FP, 28), s1, x);
    var s3 := Execute(Ldr(R0, FP, 24), s2, x);
    RunFirst(s, x, Mul(R4, R2, R3), 3);
    RunFirst(s1, x, Ldr(R1, FP, 28), 2);
    RunFirst(s2, x, Ldr(R0, FP, 24), 1);
    RunFirst(s3, x, Bl(0), 0);
  }

  // The product and the gcd become the operands of the division.
  lemma Divided(s: State, x: Scratch)
    requires s.pc == 116
    ensures Run(s, x, 4) == CallIdiv(s.(pc := 119, r := s.r.(r3 := s.r.r0, r1 := s.r.r0, r0 := s.r.r4)), x)
  {
    hide Run, Step, Code;
    LcmaListing();
    var s1 := Execute(Mov(R3, R0), s, x);
    var s2 := Execute(Mov(R1, R3), s1, x);
    var s3 := Execute(Mov(R0, R4), s2, x);
    RunFirst(s, x, Mov(R3, R0), 3);
    RunFirst(s1, x, Mov(R1, R3), 2);
    RunFirst(s2, x, Mov(R0, R4), 1);
    RunFirst(s3, x, BlIdiv, 0);
  }

  // lcm is stored and loaded again as the result.
  lemma StoreResult(s: State, x: Scratch)
    requires 32 <= s.r.fp && s.pc == 120
    ensures Run(s, x, 4) == s.(pc := 124, r := s.r.(r3 := s.r.r0), mem := s.mem[s.r.fp - 16 := s.r.r0])
  {
    hide Run, Step, Code;
    LcmaListing();
    var s1 := Execute(Mov(R3, R0), s, x);
    var s2 := Execute(Str(R3, FP, 16), s1, x);
    var s3 := Execute(Ldr(R3, FP, 16), s2, x);
    RunFirst(s, x, Mov(R3, R0), 3);
    RunFirst(s1, x, Str(R3, FP, 16), 2);
    RunFirst(s2, x, Ldr(R3, FP, 16), 1);
    RunFirst(s3, x, Mov(R0, R3), 0);
  }

  function Unframed(s: State): State
    requires 32 <= s.r.fp < WORD_LIMIT - 4
  {
    s.(pc := Load(s.mem, s.r.fp),
       r := s.r.(r4 := Load(s.mem, s.r.fp - 8), fp := Load(s.mem, s.r.fp - 4), sp := s.r.fp + 4))
  }

  lemma Epilogue(s: State, x: Scratch)
    requires 32 <= s.r.fp < WORD_LIMIT - 4 && s.pc == 124
    ensures Run(s, x, 2) == Unframed(s)
  {
    hide Run, Step, Code;
    LcmaListing();
    var s1 := Execute(SubImm(SP, FP, 8), s, x);
    RunFirst(s, x, SubImm(SP, FP, 8), 1);
    RunFirst(s1, x, PopSaved, 0);
  }

  // ---------- up to the call ----------

  lemma FrameBuilt(c: State)
    requires c.r.sp >= 64
    ensures InFrame(c, Stored(Framed(c)))
    ensures InFrame(c, Calling(Stored(Framed(c))))
    ensures var s := Calling(Stored(Framed(c))); s.r.r0 == c.r.r0 && s.r.r1 == c.r.r1
  {
  }

  lemma BeforeCall(c: State, x: Scratch)
    requires Callable(c, LCMA, 64)
    ensures Run(c, x, 11) == Calling(Stored(Framed(c)))
  {
    hide Run, Step, Execute, Code;
    Prologue(c, x);
    StoreArguments(Framed(c), x);
    RunAdd(c, x, 3, 4);
    CallGcfa(Stored(Framed(c)), x);
    RunAdd(c, x, 7, 4);
  }

  // gcfa leaves the frame and the product in r4 alone.
  lemma AcrossCall(c: State, s: State, t: State, result: int)
    requires InFrame(c, s) && Returned(s, t, result)
    ensures InFrame(c, t) && t.r.r4 == s.r.r4 && t.pc == s.r.lr && Signed(t.r.r0) == result
  {
  }

  // The division leaves the frame alone as well.
  lemma AcrossDivision(c: State, s: State, x: Scratch)
    requires InFrame(c, s)
    ensures InFrame(c, CallIdiv(s, x))
  {
  }

  lemma FrameLeft(c: State, s: State)
    requires InFrame(c, s)
    ensures var t := s.(pc := 124, r := s.r.(r3 := s.r.r0), mem := s.mem[s.r.fp - 16 := s.r.r0]);
      Returned(c, Unframed(t), Signed(s.r.r0))
  {
  }

  lemma AfterDivision(c: State, s: State, x: Scratch)
    requires s.pc == 120 && InFrame(c, s)
    ensures Returned(c, Run(s, x, 6), Signed(s.r.r0))
  {
    hide Run, Step, Execute, Code, Returned;
    FrameLeft(c, s);
    assert 32 <= s.r.fp < WORD_LIMIT - 4;
    StoreResult(s, x);
    Epilogue(Run(s, x, 4), x);
    RunAdd(s, x, 4, 2);
  }

  lemma AfterCall(c: State, s: State, x: Scratch)
    requires s.pc == 116 && InFrame(c, s) && Signed(s.r.r0) > 0
    ensures Returned(c, Run(s, x, 10), Signed(Wrap(TruncDiv(Signed(s.r.r4), Signed(s.r.r0)))))
  {
    hide Run, Step, Execute, Code;
    Divided(s, x);
    var t := s.(pc := 119, r := s.r.(r3 := s.r.r0, r1 := s.r.r0, r0 := s.r.r4));
    AcrossDivision(c, t, x);
    AfterDivision(c, CallIdiv(t, x), x);
    RunAdd(s, x, 4, 6);
  }

  // ---------- the result ----------

  // What lcma computes from its 32-bit product.
  function Computed(a: Word, b: Word): int
    requires ArmGcd.Positive(a) && ArmGcd.Positive(b)
  {
    Signed(Wrap(TruncDiv(Signed(Wrap(b * a)), Gcd(a, b))))
  }

  lemma Lcma(c: State, x: Scratch) returns (k: nat)
    requires Callable(c, LCMA, 64) && ArmGcd.Positive(c.r.r0) && ArmGcd.Positive(c.r.r1)
    ensures Returned(c, Run(c, x, k), Computed(c.r.r0, c.r.r1))
  {
    hide Run, Code, Returned, InFrame, Gcd;
    BeforeCall(c, x);
    FrameBuilt(c);
    var s := Run(c, x, 11);
    ProductInR4(c);
    var n := ArmGcd.Gcfa(s, x);
    RunAdd(c, x, 11, n);
    var t := Run(c, x, 11 + n);
    AcrossCall(c, s, t, Gcd(c.r.r0, c.r.r1));
    AfterCall(c, t, x);
    RunAdd(c, x, 11 + n, 10);
    k := 21 + n;
  }

  lemma ProductInR4(c: State)
    requires Callable(c, LCMA, 64)
    ensures var s := Calling(Stored(Framed(c)));
      s.r.r4 == Wrap(c.r.r1 * c.r.r0) && Callable(s, GCFA, 32) && s.r.lr == 116
  {
  }

  // The result is the least common multiple exactly when the product fits in an int.
  lemma ComputedIsLcm(a: Word, b: Word)
    requires ArmGcd.Positive(a) && ArmGcd.Positive(b)
    ensures Computed(a, b) == LeastMultiple(a, b) <==> a * b < 0x8000_0000
  {
    var l := LeastMultipleShape(a, b);
    var g, p := Gcd(a, b), a * b;
    assert b * a == p;
    MulLe(1, g, l);
    MulLe(1, a, b);
    if p < INT_LIMIT {
      assert TruncDiv(p, g) == p / g;
    } else {
      WrongWhenWrapped(p, g, l);
    }
  }

  // For two equal arguments of 2^16 the product is 2^32, which a register keeps as zero.
  lemma ProductWraps()
    ensures Computed(0x1_0000, 0x1_0000) == 0 && LeastMultiple(0x1_0000, 0x1_0000) == 0x1_0000
  {
    assert Gcd(0x1_0000, 0x1_0000) == 0x1_0000;
  }

  lemma WrongWhenWrapped(p: int, g: int, l: int)
    requires 0 < g && 0 < l && l * g == p && p >= INT_LIMIT
    ensures Signed(Wrap(TruncDiv(Signed(Wrap(p)), g))) != l
  {
    var w := Signed(Wrap(p));
    var q := TruncDiv(w, g);
    assert w < p;
    QuotientSize(w, g);
    if w >= 0 {
      assert q * g <= w < l * g;
      if q >= l { MulLe(l, q, g); }
    }
  }

  lemma QuotientSize(w: int, g: int)
    requires g > 0 && -INT_LIMIT <= w < INT_LIMIT
    ensures -INT_LIMIT <= TruncDiv(w, g) < INT_LIMIT
    ensures w >= 0 ==> 0 <= TruncDiv(w, g) * g <= w
    ensures w < 0 ==> TruncDiv(w, g) <= 0
  {
    var m := AbsInt(w);
    var q := m / g;
    assert q * g <= m;
    if q < 0 { MulLe(q, -1, g); }
    MulLe(1, g, q);
  }
}
