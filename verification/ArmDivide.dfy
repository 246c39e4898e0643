/** The assembly routines divide and remain: repeated subtraction in a frame of four words,
    with the quotient and remainder of the C routines as results. */
module ArmDivide {
  import opened Arm
  import opened Lcm

  // After str fp / add / sub: the caller's frame pointer, then room for five words.
  ghost predicate InFrame(c: State, s: State) {
    && c.r.sp >= 32
    && s.r.fp == c.r.sp - 4 && s.r.sp == c.r.sp - 24 && s.r.r4 == c.r.r4 && s.r.lr == c.r.lr
    && Load(s.mem, c.r.sp - 4) == c.r.fp
    && SameAbove(c.mem, s.mem, c.r.sp)
  }

  // The divisor and the running remainder, which both routines keep in the frame.
  ghost predicate Locals(c: State, s: State, b: Word, r: Word) {
    InFrame(c, s) && Load(s.mem, c.r.sp - 24) == b && Load(s.mem, c.r.sp - 12) == r
  }

  function Framed(s: State): State
    requires 32 <= s.r.sp
  {
    s.(pc := s.pc + 3, r := s.r.(fp := s.r.sp - 4, sp := s.r.sp - 24), mem := s.mem[s.r.sp - 4 := s.r.fp])
  }

  lemma Prologue(s: State, x: Scratch)
    requires 32 <= s.r.sp && s.pc < CODE_SIZE - 3
    requires Code(s.pc) == PushFp && Code(s.pc + 1) == AddImm(FP, SP, 0) && Code(s.pc + 2) == SubImm(SP, SP, 20)
    ensures Run(s, x, 3) == Framed(s)
  {
    hide Run, Step, Code;
    var s1 := Execute(PushFp, s, x);
    var s2 := Execute(AddImm(FP, SP, 0), s1, x);
    RunFirst(s, x, PushFp, 2);
    RunFirst(s1, x, AddImm(FP, SP, 0), 1);
    RunFirst(s2, x, SubImm(SP, SP, 20), 0);
  }

  // The arguments are stored, and the dividend once more as the running remainder.
  function Stored(s: State): State
    requires 28 <= s.r.fp
  {
    s.(pc := s.pc + 4, r := s.r.(r3 := s.r.r0),
       mem := s.mem[s.r.fp - 16 := s.r.r0][s.r.fp - 20 := s.r.r1][s.r.fp - 8 := s.r.r0])
  }

  lemma StoreArguments(s: State, x: Scratch)
    requires 28 <= s.r.fp && s.pc < CODE_SIZE - 4
    requires Code(s.pc) == Str(R0, FP, 16) && Code(s.pc + 1) == Str(R1, FP, 20)
    requires Code(s.pc + 2) == Ldr(R3, FP, 16) && Code(s.pc + 3) == Str(R3, FP, 8)
    ensures Run(s, x, 4) == Stored(s)
  {
    hide Run, Step, Code;
    var s1 := Execute(Str(R0, FP, 16), s, x);
    var s2 := Execute(Str(R1, FP, 20), s1, x);
    var s3 := Execute(Ldr(R3, FP, 16), s2, x);
    RunFirst(s, x, Str(R0, FP, 16), 3);
    RunFirst(s1, x, Str(R1, FP, 20), 2);
    RunFirst(s2, x, Ldr(R3, FP, 16), 1);
    RunFirst(s3, x, Str(R3, FP, 8), 0);
  }

  // r = r - b
  function Reduced(s: State): State
    requires 28 <= s.r.fp
  {
    var r, b := Load(s.mem, s.r.fp - 8), Load(s.mem, s.r.fp - 20);
    s.(pc := s.pc + 4, r := s.r.(r2 := r, r3 := Wrap(r - b)), mem := s.mem[s.r.fp - 8 := Wrap(r - b)])
  }

  lemma Subtract(s: State, x: Scratch)
    requires 28 <= s.r.fp && s.pc < CODE_SIZE - 4
    requires Code(s.pc) == Ldr(R2, FP, 8) && Code(s.pc + 1) == Ldr(R3, FP, 20)
    requires Code(s.pc + 2) == Sub(AL, R3, R2, R3) && Code(s.pc + 3) == Str(R3, FP, 8)
    ensures Run(s, x, 4) == Reduced(s)
  {
    hide Run, Step, Code;
    var s1 := Execute(Ldr(R2, FP, 8), s, x);
    var s2 := Execute(Ldr(R3, FP, 20), s1, x);
    var s3 := Execute(Sub(AL, R3, R2, R3), s2, x);
    RunFirst(s, x, Ldr(R2, FP, 8), 3);
    RunFirst(s1, x, Ldr(R3, FP, 20), 2);
    RunFirst(s2, x, Sub(AL, R3, R2, R3), 1);
    RunFirst(s3, x, Str(R3, FP, 8), 0);
  }

  // return the word in the local at fp - imm
  function Unframed(s: State, imm: nat): State
    requires 28 <= s.r.fp < WORD_LIMIT - 4 && imm <= 20
  {
    var w := Load(s.mem, s.r.fp - imm);
    s.(pc := s.r.lr, r := s.r.(r3 := w, r0 := w, sp := s.r.fp + 4, fp := Load(s.mem, s.r.fp)))
  }

  lemma Epilogue(s: State, x: Scratch, imm: nat)
    requires 28 <= s.r.fp < WORD_LIMIT - 4 && imm <= 20 && s.pc < CODE_SIZE - 5
    requires Code(s.pc) == Ldr(R3, FP, imm) && Code(s.pc + 1) == Mov(R0, R3)
    requires Code(s.pc + 2) == AddImm(SP, FP, 0) && Code(s.pc + 3) == PopFp && Code(s.pc + 4) == BxLr
    ensures Run(s, x, 5) == Unframed(s, imm)
  {
    hide Run, Step, Code;
    var s1 := Execute(Ldr(R3, FP, imm), s, x);
    var s2 := Execute(Mov(R0, R3), s1, x);
    var s3 := Execute(AddImm(SP, FP, 0), s2, x);
    var s4 := Execute(PopFp, s3, x);
    RunFirst(s, x, Ldr(R3, FP, imm), 4);
    RunFirst(s1, x, Mov(R0, R3), 3);
    RunFirst(s2, x, AddImm(SP, FP, 0), 2);
    RunFirst(s3, x, PopFp, 1);
    RunFirst(s4, x, BxLr, 0);
  }

  lemma FrameLeft(c: State, s: State, imm: nat)
    requires InFrame(c, s) && imm <= 20
    ensures Returned(c, Unframed(s, imm), Signed(Load(s.mem, c.r.sp - 4 - imm)))
  {
  }

  lemma FrameBuilt(c: State)
    requires c.r.sp >= 32
    ensures Locals(c, Stored(Framed(c)), c.r.r1, c.r.r0)
  {
  }

  // Both routines begin with the same seven instructions.
  lemma SharedEntry(pc: nat)
    requires pc == DIVIDE || pc == REMAIN
    ensures Code(pc) == PushFp && Code(pc + 1) == AddImm(FP, SP, 0) && Code(pc + 2) == SubImm(SP, SP, 20)
    ensures Code(pc + 3) == Str(R0, FP, 16) && Code(pc + 4) == Str(R1, FP, 20)
    ensures Code(pc + 5) == Ldr(R3, FP, 16) && Code(pc + 6) == Str(R3, FP, 8)
  {
    hide Code;
    DivideListing();
    RemainListing();
  }

  // Both routines reach their loops with the dividend as remainder.
  lemma Entered(c: State, x: Scratch)
    requires Callable(c, DIVIDE, 32) || Callable(c, REMAIN, 32)
    ensures Run(c, x, 7) == Stored(Framed(c)) && Locals(c, Run(c, x, 7), c.r.r1, c.r.r0)
  {
    SharedEntry(c.pc);
    hide Run, Step, Execute, Code, Locals;
    FrameBuilt(c);
    RunAdd(c, x, 3, 4);
    Prologue(c, x);
    StoreArguments(Framed(c), x);
  }

  // One subtraction of the loop body; the remainder stays non-negative.
  lemma BodySubtracts(c: State, s: State, x: Scratch, b: Word, r: Word)
    requires (s.pc == 68 || s.pc == 92) && Locals(c, s, b, r) && 0 < Signed(b) <= Signed(r)
    ensures var t := Run(s, x, 4); t.pc == s.pc + 4 && Locals(c, t, b, r - b)
    ensures Load(Run(s, x, 4).mem, c.r.sp - 16) == Load(s.mem, c.r.sp - 16)
  {
    hide Run, Step, Execute, Code;
    DivideListing();
    RemainListing();
    Subtract(s, x);
  }

  lemma LoopTestCode(pc: nat)
    requires pc == 75 || pc == 96
    ensures Code(pc) == Ldr(R2, FP, 8) && Code(pc + 1) == Ldr(R3, FP, 20) && Code(pc + 2) == Cmp(R2, R3)
    ensures Code(pc + 3) == B(GE, if pc == 75 then 68 else 92)
  {
    hide Code;
    DivideListing();
    RemainListing();
  }

  lemma LoopTest(c: State, s: State, x: Scratch, b: Word, r: Word)
    requires (s.pc == 75 || s.pc == 96) && Locals(c, s, b, r)
    ensures var t := Run(s, x, 4);
      && t.pc == (if Signed(r) >= Signed(b) then (if s.pc == 75 then 68 else 92) else s.pc + 4)
      && Locals(c, t, b, r) && t.mem == s.mem
  {
    hide Run, Step, Execute, Code;
    LoopTestCode(s.pc);
    CompareWords(s, x, 8, 20);
    hide Compare;
    ComparesSigned(r, b);
    Branch(Run(s, x, 3), x, GE, if s.pc == 75 then 68 else 92);
    RunAdd(s, x, 3, 1);
  }

  // ---------- divide ----------

  ghost predicate Counting(c: State, s: State, b: Word, r: Word, cnt: nat) {
    Locals(c, s, b, r) && Load(s.mem, c.r.sp - 16) == cnt
  }

  // cnt = 0, then to the loop test
  lemma ClearCount(s: State, x: Scratch)
    requires s.pc == 65 && 28 <= s.r.fp
    ensures Run(s, x, 3) == s.(pc := 75, r := s.r.(r3 := 0), mem := s.mem[s.r.fp - 12 := 0])
  {
    hide Run, Step, Code;
    DivideListing();
    var s1 := Execute(MovImm(R3, 0), s, x);
    var s2 := Execute(Str(R3, FP, 12), s1, x);
    RunFirst(s, x, MovImm(R3, 0), 2);
    RunFirst(s1, x, Str(R3, FP, 12), 1);
    RunFirst(s2, x, B(AL, 75), 0);
  }

  // cnt = cnt + 1
  lemma IncrementCount(s: State, x: Scratch)
    requires s.pc == 72 && 28 <= s.r.fp
    ensures var n := Wrap(Load(s.mem, s.r.fp - 12) + 1);
      Run(s, x, 3) == s.(pc := 75, r := s.r.(r3 := n), mem := s.mem[s.r.fp - 12 := n])
  {
    hide Run, Step, Code;
    DivideListing();
    var s1 := Execute(Ldr(R3, FP, 12), s, x);
    var s2 := Execute(AddImm(R3, R3, 1), s1, x);
    RunFirst(s, x, Ldr(R3, FP, 12), 2);
    RunFirst(s1, x, AddImm(R3, R3, 1), 1);
    RunFirst(s2, x, Str(R3, FP, 12), 0);
  }

  lemma DivideBody(c: State, s: State, x: Scratch, b: Word, r: Word, cnt: nat)
    requires s.pc == 68 && Counting(c, s, b, r, cnt) && 0 < Signed(b) <= Signed(r) && cnt < INT_LIMIT
    ensures var t := Run(s, x, 7); t.pc == 75 && Counting(c, t, b, r - b, cnt + 1)
  {
    hide Run, Step, Execute, Code;
    BodySubtracts(c, s, x, b, r);
    IncrementCount(Run(s, x, 4), x);
    RunAdd(s, x, 4, 3);
  }

  lemma DivideExit(c: State, s: State, x: Scratch, b: Word, r: Word, cnt: nat)
    requires s.pc == 79 && Counting(c, s, b, r, cnt) && cnt < INT_LIMIT
    ensures Returned(c, Run(s, x, 5), cnt)
  {
    hide Run, Step, Execute, Code;
    DivideListing();
    Epilogue(s, x, 12);
    FrameLeft(c, s, 12);
  }

  lemma {:induction false} DivideLoop(c: State, s: State, x: Scratch, b: Word, r: Word, cnt: nat) returns (k: nat)
    requires s.pc == 75 && Counting(c, s, b, r, cnt)
    requires Signed(b) > 0 || Signed(r) < Signed(b)
    requires cnt + (if Signed(r) > 0 then Signed(r) else 0) < INT_LIMIT
    ensures Returned(c, Run(s, x, k), cnt + Quotient(Signed(r), Signed(b)))
    decreases if Signed(r) > 0 then Signed(r) else 0
  {
    hide Run, Code, Returned;
    LoopTest(c, s, x, b, r);
    var t := Run(s, x, 4);
    if Signed(r) < Signed(b) {
      DivideExit(c, t, x, b, r, cnt);
      RunAdd(s, x, 4, 5);
      k := 9;
    } else {
      DivideBody(c, t, x, b, r, cnt);
      RunAdd(s, x, 4, 7);
      var u := Run(s, x, 11);
      var more := DivideLoop(c, u, x, b, r - b, cnt + 1);
      RunAdd(s, x, 11, more);
      k := 11 + more;
    }
  }

  lemma Divide(c: State, x: Scratch) returns (k: nat)
    requires Callable(c, DIVIDE, 32)
    requires Signed(c.r.r1) > 0 || Signed(c.r.r0) < Signed(c.r.r1)
    ensures Returned(c, Run(c, x, k), Quotient(Signed(c.r.r0), Signed(c.r.r1)))
  {
    hide Run, Step, Execute, Code, Returned;
    Entered(c, x);
    assert c.r.sp - 4 >= 28;
    var s := Run(c, x, 7);
    ClearCount(s, x);
    RunAdd(c, x, 7, 3);
    var more := DivideLoop(c, Run(c, x, 10), x, c.r.r1, c.r.r0, 0);
    RunAdd(c, x, 10, more);
    k := 10 + more;
  }

  // ---------- remain ----------

  lemma RemainExit(c: State, s: State, x: Scratch, b: Word, r: Word)
    requires s.pc == 100 && Locals(c, s, b, r)
    ensures Returned(c, Run(s, x, 5), Signed(r))
  {
    hide Run, Step, Execute, Code;
    RemainListing();
    Epilogue(s, x, 8);
    FrameLeft(c, s, 8);
  }

  lemma {:induction false} RemainLoop(c: State, s: State, x: Scratch, b: Word, r: Word) returns (k: nat)
    requires s.pc == 96 && Locals(c, s, b, r)
    requires Signed(b) > 0 || Signed(r) < Signed(b)
    ensures Returned(c, Run(s, x, k), Signed(r) - Quotient(Signed(r), Signed(b)) * Signed(b))
    decreases if Signed(r) > 0 then Signed(r) else 0
  {
    hide Run, Code, Returned, Locals;
    LoopTest(c, s, x, b, r);
    var t := Run(s, x, 4);
    if Signed(r) < Signed(b) {
      RemainExit(c, t, x, b, r);
      RunAdd(s, x, 4, 5);
      k := 9;
    } else {
      BodySubtracts(c, t, x, b, r);
      RunAdd(s, x, 4, 4);
      var more := RemainLoop(c, Run(s, x, 8), x, b, r - b);
      RunAdd(s, x, 8, more);
      k := 8 + more;
      var q := Quotient(Signed(r - b), Signed(b));
      assert (q + 1) * Signed(b) == q * Signed(b) + Signed(b);
    }
  }

  lemma Remain(c: State, x: Scratch) returns (k: nat)
    requires Callable(c, REMAIN, 32)
    requires Signed(c.r.r1) > 0 || Signed(c.r.r0) < Signed(c.r.r1)
    ensures Returned(c, Run(c, x, k),
                     Signed(c.r.r0) - Quotient(Signed(c.r.r0), Signed(c.r.r1)) * Signed(c.r.r1))
  {
    hide Run, Step, Execute, Code, Returned;
    RemainListing();
    Entered(c, x);
    Branch(Run(c, x, 7), x, AL, 96);
    RunAdd(c, x, 7, 1);
    var more := RemainLoop(c, Run(c, x, 8), x, c.r.r1, c.r.r0);
    RunAdd(c, x, 8, more);
    k := 8 + more;
  }
}
