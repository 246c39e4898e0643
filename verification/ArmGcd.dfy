/** The three assembly routines for the greatest common factor: each ends, returns to its
    caller with the preserved registers and the caller's stack intact, and leaves in r0 the
    gcd of its arguments, which is what the C loop returns. */
module ArmGcd {
  import opened Arm
  import opened Lcm

  predicate Positive(w: Word) { 0 < w < INT_LIMIT }

  // ---------- entering and leaving ----------

  // After mov ip, sp / stmfd / sub / sub: three saved registers and the code address below
  // the caller's stack pointer, then two words of locals.
  function Framed(s: State): State
    requires 32 <= s.r.sp
  {
    var sp := s.r.sp;
    s.(pc := s.pc + 4,
       r := s.r.(ip := sp, fp := sp - 4, sp := sp - 24),
       mem := s.mem[sp - 16 := s.r.fp][sp - 12 := sp][sp - 8 := s.r.lr][sp - 4 := Wrap(s.pc + 3)])
  }

  lemma Prologue(s: State, x: Scratch)
    requires 32 <= s.r.sp && s.pc < CODE_SIZE - 4
    requires Code(s.pc) == Mov(IP, SP) && Code(s.pc + 1) == PushFrame
    requires Code(s.pc + 2) == SubImm(FP, IP, 4) && Code(s.pc + 3) == SubImm(SP, SP, 8)
    ensures Run(s, x, 4) == Framed(s)
  {
    hide Run, Step, Code;
    var s1 := Execute(Mov(IP, SP), s, x);
    var s2 := Execute(PushFrame, s1, x);
    var s3 := Execute(SubImm(FP, IP, 4), s2, x);
    RunFirst(s, x, Mov(IP, SP), 3);
    RunFirst(s1, x, PushFrame, 2);
    RunFirst(s2, x, SubImm(FP, IP, 4), 1);
    RunFirst(s3, x, SubImm(SP, SP, 8), 0);
  }

  // sub sp, fp, #12 / ldmfd sp, {fp, sp, lr} / bx lr
  function Unframed(s: State): State
    requires 16 <= s.r.fp
  {
    var lr := Load(s.mem, s.r.fp - 4);
    s.(pc := lr, r := s.r.(fp := Load(s.mem, s.r.fp - 12), sp := Load(s.mem, s.r.fp - 8), lr := lr))
  }

  lemma Epilogue(s: State, x: Scratch)
    requires 16 <= s.r.fp && s.pc < CODE_SIZE - 3
    requires Code(s.pc) == SubImm(SP, FP, 12) && Code(s.pc + 1) == PopFrame && Code(s.pc + 2) == BxLr
    ensures Run(s, x, 3) == Unframed(s)
  {
    hide Run, Step, Code;
    var s1 := Execute(SubImm(SP, FP, 12), s, x);
    var s2 := Execute(PopFrame, s1, x);
    RunFirst(s, x, SubImm(SP, FP, 12), 2);
    RunFirst(s1, x, PopFrame, 1);
    RunFirst(s2, x, BxLr, 0);
  }

  // Where a routine stands while its frame is in place; c is the state at the call.
  ghost predicate InFrame(c: State, s: State) {
    && c.r.sp >= 32
    && s.r.fp == c.r.sp - 4 && s.r.sp == c.r.sp - 24 && s.r.r4 == c.r.r4
    && Load(s.mem, c.r.sp - 16) == c.r.fp
    && Load(s.mem, c.r.sp - 12) == c.r.sp
    && Load(s.mem, c.r.sp - 8) == c.r.lr
    && SameAbove(c.mem, s.mem, c.r.sp)
  }

  lemma FrameBuilt(c: State)
    requires c.r.sp >= 32
    ensures InFrame(c, Framed(c))
  {
  }

  // The two local words lie below the saved registers.
  lemma LocalsBelow(c: State, s: State, w: Word, imm: nat)
    requires InFrame(c, s) && (imm == 16 || imm == 20)
    ensures InFrame(c, s.(mem := s.mem[s.r.fp - imm := w]))
  {
  }

  lemma FrameLeft(c: State, s: State)
    requires InFrame(c, s)
    ensures Returned(c, Unframed(s), Signed(s.r.r0))
  {
  }

  // ---------- gcfa: both numbers live in memory ----------

  // str r0 / str r1 / b WHLCHK
  lemma GcfaArguments(s: State, x: Scratch)
    requires s.pc == 4 && s.r.fp >= 20
    ensures Run(s, x, 3) == s.(pc := 20, mem := s.mem[s.r.fp - 16 := s.r.r0][s.r.fp - 20 := s.r.r1])
  {
    hide Run, Step, Code;
    GcfaListing();
    var s1 := Execute(Str(R0, FP, 16), s, x);
    var s2 := Execute(Str(R1, FP, 20), s1, x);
    RunFirst(s, x, Str(R0, FP, 16), 2);
    RunFirst(s1, x, Str(R1, FP, 20), 1);
    RunFirst(s2, x, B(AL, 20), 0);
  }

  // One word of the frame minus another, stored back over the first.
  function Reduced(s: State, pc: nat, i: nat, j: nat): State
    requires i <= 24 && j <= 24 && s.r.fp >= 24
  {
    var a, b := Load(s.mem, s.r.fp - i), Load(s.mem, s.r.fp - j);
    s.(pc := pc, r := s.r.(r2 := b, r3 := Wrap(a - b)), mem := s.mem[s.r.fp - i := Wrap(a - b)])
  }

  lemma ReverseSubtract(s: State, x: Scratch, i: nat, j: nat)
    requires s.pc < CODE_SIZE - 4 && s.r.fp >= 24 && i <= 24 && j <= 24
    requires Code(s.pc) == Ldr(R3, FP, i) && Code(s.pc + 1) == Ldr(R2, FP, j)
    requires Code(s.pc + 2) == Rsb(R3, R2, R3) && Code(s.pc + 3) == Str(R3, FP, i)
    ensures Run(s, x, 4) == Reduced(s, s.pc + 4, i, j)
  {
    hide Run, Step, Code;
    var s1 := Execute(Ldr(R3, FP, i), s, x);
    var s2 := Execute(Ldr(R2, FP, j), s1, x);
    var s3 := Execute(Rsb(R3, R2, R3), s2, x);
    RunFirst(s, x, Ldr(R3, FP, i), 3);
    RunFirst(s1, x, Ldr(R2, FP, j), 2);
    RunFirst(s2, x, Rsb(R3, R2, R3), 1);
    RunFirst(s3, x, Str(R3, FP, i), 0);
  }

  // return a
  lemma GcfaResult(s: State, x: Scratch)
    requires s.pc == 24 && s.r.fp >= 20
    ensures var a := Load(s.mem, s.r.fp - 16);
      Run(s, x, 2) == s.(pc := 26, r := s.r.(r3 := a, r0 := a))
  {
    hide Run, Step, Code;
    GcfaListing();
    var s1 := Execute(Ldr(R3, FP, 16), s, x);
    RunFirst(s, x, Ldr(R3, FP, 16), 1);
    RunFirst(s1, x, Mov(R0, R3), 0);
  }

  ghost predicate Locals(c: State, s: State, a: Word, b: Word) {
    InFrame(c, s) && Load(s.mem, c.r.sp - 20) == a && Load(s.mem, c.r.sp - 24) == b
  }

  // The test at the loop's end: out at equality, else to the body.
  lemma GcfaTest(c: State, s: State, x: Scratch, a: Word, b: Word)
    requires s.pc == 20 && Locals(c, s, a, b)
    ensures Run(s, x, 4).pc == (if a == b then 24 else 7) && Locals(c, Run(s, x, 4), a, b)
  {
    hide Run, Step, Execute, Code;
    GcfaListing();
    ComparesSigned(a, b);
    CompareWords(s, x, 16, 20);
    Branch(Run(s, x, 3), x, NE, 7);
    RunAdd(s, x, 3, 1);
  }

  lemma GcfaBranch(c: State, s: State, x: Scratch, a: Word, b: Word)
    requires s.pc == 7 && Locals(c, s, a, b) && Positive(a) && Positive(b)
    ensures Run(s, x, 4).pc == (if a > b then 11 else 16) && Locals(c, Run(s, x, 4), a, b)
  {
    hide Run, Step, Execute, Code;
    GcfaListing();
    ComparesSigned(a, b);
    CompareWords(s, x, 16, 20);
    Branch(Run(s, x, 3), x, LE, 16);
    RunAdd(s, x, 3, 1);
  }

  lemma GcfaShrinkA(c: State, s: State, x: Scratch, a: Word, b: Word)
    requires s.pc == 11 && Locals(c, s, a, b) && a > b
    ensures Run(s, x, 5).pc == 20 && Locals(c, Run(s, x, 5), a - b, b)
  {
    hide Run, Step, Execute, Code;
    GcfaListing();
    ReverseSubtract(s, x, 16, 20);
    LocalsBelow(c, s, a - b, 16);
    Branch(Run(s, x, 4), x, AL, 20);
    RunAdd(s, x, 4, 1);
  }

  lemma GcfaShrinkB(c: State, s: State, x: Scratch, a: Word, b: Word)
    requires s.pc == 16 && Locals(c, s, a, b) && a < b
    ensures Run(s, x, 4).pc == 20 && Locals(c, Run(s, x, 4), a, b - a)
  {
    hide Run, Step, Execute, Code;
    GcfaListing();
    ReverseSubtract(s, x, 20, 16);
    LocalsBelow(c, s, b - a, 20);
  }

  lemma GcfaExit(c: State, s: State, x: Scratch, a: Word, b: Word)
    requires s.pc == 24 && Locals(c, s, a, b)
    ensures Returned(c, Run(s, x, 5), Signed(a))
  {
    hide Run, Step, Execute, Code;
    GcfaListing();
    GcfaResult(s, x);
    var t := Run(s, x, 2);
    Epilogue(t, x);
    FrameLeft(c, t);
    RunAdd(s, x, 2, 3);
  }

  // From the test to the same test with a smaller pair, or out.
  lemma GcfaTurn(c: State, s: State, x: Scratch, a: Word, b: Word) returns (k: nat)
    requires s.pc == 20 && Locals(c, s, a, b) && Positive(a) && Positive(b)
    ensures a == b ==> Returned(c, Run(s, x, k), a)
    ensures a > b ==> Run(s, x, k).pc == 20 && Locals(c, Run(s, x, k), a - b, b)
    ensures a < b ==> Run(s, x, k).pc == 20 && Locals(c, Run(s, x, k), a, b - a)
  {
    hide Run, Code, Locals, Returned;
    GcfaTest(c, s, x, a, b);
    var t := Run(s, x, 4);
    if a == b {
      GcfaExit(c, t, x, a, b);
      RunAdd(s, x, 4, 5);
      k := 9;
    } else {
      GcfaBranch(c, t, x, a, b);
      RunAdd(s, x, 4, 4);
      var u := Run(s, x, 8);
      if a > b {
        GcfaShrinkA(c, u, x, a, b);
        k := 13;
      } else {
        GcfaShrinkB(c, u, x, a, b);
        k := 12;
      }
      RunAdd(s, x, 8, k - 8);
    }
  }

  lemma {:induction false} GcfaLoop(c: State, s: State, x: Scratch, a: Word, b: Word) returns (k: nat)
    requires s.pc == 20 && Locals(c, s, a, b) && Positive(a) && Positive(b)
    ensures Returned(c, Run(s, x, k), Gcd(a, b))
    decreases a + b
  {
    hide Run, Locals, Returned;
    k := GcfaTurn(c, s, x, a, b);
    if a != b {
      var t := Run(s, x, k);
      var more := GcfaLoop(c, t, x, if a > b then a - b else a, if a > b then b else b - a);
      RunAdd(s, x, k, more);
      k := k + more;
    }
  }

  lemma GcfaStart(c: State, x: Scratch)
    requires Callable(c, GCFA, 32)
    ensures Run(c, x, 7).pc == 20 && Locals(c, Run(c, x, 7), c.r.r0, c.r.r1)
  {
    hide Run, Step, Execute, Code;
    GcfaListing();
    Prologue(c, x);
    FrameBuilt(c);
    var s := Framed(c);
    GcfaArguments(s, x);
    RunAdd(c, x, 4, 3);
    ArgumentsStored(c, s, c.r.r0, c.r.r1);
  }

  lemma ArgumentsStored(c: State, s: State, a: Word, b: Word)
    requires InFrame(c, s)
    ensures Locals(c, s.(mem := s.mem[s.r.fp - 16 := a][s.r.fp - 20 := b]), a, b)
  {
    LocalsBelow(c, s, a, 16);
    LocalsBelow(c, s.(mem := s.mem[s.r.fp - 16 := a]), b, 20);
  }

  lemma Gcfa(c: State, x: Scratch) returns (k: nat)
    requires Callable(c, GCFA, 32) && Positive(c.r.r0) && Positive(c.r.r1)
    ensures Returned(c, Run(c, x, k), Gcd(c.r.r0, c.r.r1))
  {
    hide Run, Code, Locals, Returned;
    GcfaStart(c, x);
    var more := GcfaLoop(c, Run(c, x, 7), x, c.r.r0, c.r.r1);
    RunAdd(c, x, 7, more);
    k := 7 + more;
  }

  // ---------- gcfa1: both numbers live in registers ----------

  ghost predicate InRegs(c: State, s: State, a: Word, b: Word) {
    InFrame(c, s) && s.r.r0 == a && s.r.r1 == b
  }

  // str r0 / str r1 / cmp r0, r1, at the head of both register loops
  lemma StoreCompare(s: State, x: Scratch)
    requires s.pc < CODE_SIZE - 3 && s.r.fp >= 20
    requires Code(s.pc) == Str(R0, FP, 16) && Code(s.pc + 1) == Str(R1, FP, 20) && Code(s.pc + 2) == Cmp(R0, R1)
    ensures Run(s, x, 3) == s.(pc := s.pc + 3, f := Compare(s.r.r0, s.r.r1),
                               mem := s.mem[s.r.fp - 16 := s.r.r0][s.r.fp - 20 := s.r.r1])
  {
    hide Run, Step, Code;
    var s1 := Execute(Str(R0, FP, 16), s, x);
    var s2 := Execute(Str(R1, FP, 20), s1, x);
    RunFirst(s, x, Str(R0, FP, 16), 2);
    RunFirst(s1, x, Str(R1, FP, 20), 1);
    RunFirst(s2, x, Cmp(R0, R1), 0);
  }

  lemma RegsCompared(c: State, s: State, x: Scratch, a: Word, b: Word)
    requires (s.pc == 33 || s.pc == 49) && InRegs(c, s, a, b)
    ensures var t := Run(s, x, 3); t.pc == s.pc + 3 && InRegs(c, t, a, b) && t.f == Compare(a, b)
  {
    hide Run, Step, Execute, Code;
    Gcfa1Listing();
    Gcfa2Listing();
    StoreCompare(s, x);
    ArgumentsStored(c, s, a, b);
  }

  // sub and the branch back to the loop head
  lemma SubtractBack(s: State, x: Scratch, rd: Reg, rn: Reg, rm: Reg)
    requires s.pc < CODE_SIZE - 2
    requires Code(s.pc) == Sub(AL, rd, rn, rm) && Code(s.pc + 1) == B(AL, 33)
    ensures Run(s, x, 2) == s.(pc := 33, r := s.r.Set(rd, Wrap(s.r.Get(rn) - s.r.Get(rm))))
  {
    hide Run, Step, Code;
    var s1 := Execute(Sub(AL, rd, rn, rm), s, x);
    RunFirst(s, x, Sub(AL, rd, rn, rm), 1);
    RunFirst(s1, x, B(AL, 33), 0);
  }

  lemma Gcfa1Exit(c: State, s: State, x: Scratch, a: Word)
    requires s.pc == 36 && InRegs(c, s, a, a) && s.f == Compare(a, a)
    ensures Returned(c, Run(s, x, 4), Signed(a))
  {
    hide Run, Step, Execute, Code, Compare;
    Gcfa1Listing();
    ComparesSigned(a, a);
    Branch(s, x, EQ, 42);
    var t := Run(s, x, 1);
    Epilogue(t, x);
    FrameLeft(c, t);
    RunAdd(s, x, 1, 3);
  }

  lemma Gcfa1Shrink(c: State, s: State, x: Scratch, a: Word, b: Word)
    requires s.pc == 36 && InRegs(c, s, a, b) && s.f == Compare(a, b)
    requires Positive(a) && Positive(b) && a != b
    ensures Run(s, x, 4).pc == 33
    ensures InRegs(c, Run(s, x, 4), if a > b then a - b else a, if a > b then b else b - a)
  {
    hide Run, Step, Execute, Code, Compare;
    Gcfa1Listing();
    ComparesSigned(a, b);
    Branch(s, x, EQ, 42);
    Branch(Run(s, x, 1), x, LT, 40);
    RunAdd(s, x, 1, 1);
    var t := Run(s, x, 2);
    if a > b {
      SubtractBack(t, x, R0, R0, R1);
    } else {
      SubtractBack(t, x, R1, R1, R0);
    }
    RunAdd(s, x, 2, 2);
  }

  lemma {:induction false} Gcfa1Loop(c: State, s: State, x: Scratch, a: Word, b: Word) returns (k: nat)
    requires s.pc == 33 && InRegs(c, s, a, b) && Positive(a) && Positive(b)
    ensures Returned(c, Run(s, x, k), Gcd(a, b))
    decreases a + b
  {
    hide Run, Code, Returned;
    RegsCompared(c, s, x, a, b);
    hide InRegs;
    k := 7;
    RunAdd(s, x, 3, 4);
    if a == b {
      Gcfa1Exit(c, Run(s, x, 3), x, a);
    } else {
      Gcfa1Shrink(c, Run(s, x, 3), x, a, b);
      var t := Run(s, x, 7);
      var more := Gcfa1Loop(c, t, x, if a > b then a - b else a, if a > b then b else b - a);
      RunAdd(s, x, 7, more);
      k := 7 + more;
    }
  }

  lemma Gcfa1(c: State, x: Scratch) returns (k: nat)
    requires Callable(c, GCFA1, 32) && Positive(c.r.r0) && Positive(c.r.r1)
    ensures Returned(c, Run(c, x, k), Gcd(c.r.r0, c.r.r1))
  {
    hide Run, Step, Execute, Code, Returned;
    Gcfa1Listing();
    Prologue(c, x);
    FrameBuilt(c);
    var more := Gcfa1Loop(c, Framed(c), x, c.r.r0, c.r.r1);
    RunAdd(c, x, 4, more);
    k := 4 + more;
  }

  // ---------- gcfa2: conditional execution keeps the flags of one cmp ----------

  // subgt / sublt / bne: neither subtraction changes the flags, so at most one is done and
  // the branch still tests the numbers compared.
  lemma ConditionalSubtract(s: State, x: Scratch)
    requires s.pc < CODE_SIZE - 3
    requires Code(s.pc) == Sub(GT, R0, R0, R1) && Code(s.pc + 1) == Sub(LT, R1, R1, R0)
    requires Code(s.pc + 2) == B(NE, 49)
    ensures var r0 := if Holds(GT, s.f) then Wrap(s.r.r0 - s.r.r1) else s.r.r0;
      var r1 := if Holds(LT, s.f) then Wrap(s.r.r1 - r0) else s.r.r1;
      Run(s, x, 3) == s.(pc := if Holds(NE, s.f) then 49 else s.pc + 3, r := s.r.(r0 := r0, r1 := r1))
  {
    hide Holds;
    hide Run, Step, Code;
    var s1 := Execute(Sub(GT, R0, R0, R1), s, x);
    var s2 := Execute(Sub(LT, R1, R1, R0), s1, x);
    RunFirst(s, x, Sub(GT, R0, R0, R1), 2);
    RunFirst(s1, x, Sub(LT, R1, R1, R0), 1);
    RunFirst(s2, x, B(NE, 49), 0);
  }

  lemma Gcfa2Turn(c: State, s: State, x: Scratch, a: Word, b: Word)
    requires s.pc == 49 && InRegs(c, s, a, b) && Positive(a) && Positive(b)
    ensures a == b ==> Returned(c, Run(s, x, 9), a)
    ensures a > b ==> Run(s, x, 6).pc == 49 && InRegs(c, Run(s, x, 6), a - b, b)
    ensures a < b ==> Run(s, x, 6).pc == 49 && InRegs(c, Run(s, x, 6), a, b - a)
  {
    hide Run, Step, Execute, Code, Compare;
    Gcfa2Listing();
    RegsCompared(c, s, x, a, b);
    ComparesSigned(a, b);
    ConditionalSubtract(Run(s, x, 3), x);
    RunAdd(s, x, 3, 3);
    if a == b {
      var u := Run(s, x, 6);
      Epilogue(u, x);
      FrameLeft(c, u);
      RunAdd(s, x, 6, 3);
    }
  }

  lemma {:induction false} Gcfa2Loop(c: State, s: State, x: Scratch, a: Word, b: Word) returns (k: nat)
    requires s.pc == 49 && InRegs(c, s, a, b) && Positive(a) && Positive(b)
    ensures Returned(c, Run(s, x, k), Gcd(a, b))
    decreases a + b
  {
    hide Run, InRegs, Returned;
    Gcfa2Turn(c, s, x, a, b);
    if a == b {
      k := 9;
    } else {
      var t := Run(s, x, 6);
      var more := Gcfa2Loop(c, t, x, if a > b then a - b else a, if a > b then b else b - a);
      RunAdd(s, x, 6, more);
      k := 6 + more;
    }
  }

  lemma Gcfa2(c: State, x: Scratch) returns (k: nat)
    requires Callable(c, GCFA2, 32) && Positive(c.r.r0) && Positive(c.r.r1)
    ensures Returned(c, Run(c, x, k), Gcd(c.r.r0, c.r.r1))
  {
    hide Run, Step, Execute, Code, Returned;
    Gcfa2Listing();
    Prologue(c, x);
    FrameBuilt(c);
    var more := Gcfa2Loop(c, Framed(c), x, c.r.r0, c.r.r1);
    RunAdd(c, x, 4, more);
    k := 4 + more;
  }
}
