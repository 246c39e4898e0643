/** The ARM instructions that lcmarm.s uses, as steps over registers, flags and stack
    words.  A code address is the number of an instruction in the table Code. */
module Arm {
  import opened Lcm

  const WORD_LIMIT: int := 0x1_0000_0000

  type Word = x: int | 0 <= x < WORD_LIMIT

  function Wrap(x: int): Word {
    if 0 <= x < WORD_LIMIT then x else x % WORD_LIMIT
  }

  // The two's complement reading of a word.
  function Signed(w: Word): int {
    if w < INT_LIMIT then w else w - WORD_LIMIT
  }

  // The words are the integers of C, each in one way.
  lemma WordsAreInts(x: int)
    ensures IsInt(x) <==> exists w: Word :: Signed(w) == x
    ensures forall v: Word, w: Word :: Signed(v) == Signed(w) ==> v == w
    ensures IsInt(x) ==> Signed(Wrap(x)) == x
  {
    if IsInt(x) {
      assert Signed(Wrap(x)) == x;
    }
  }

  datatype Reg = R0 | R1 | R2 | R3 | R4 | FP | IP | SP | LR

  datatype Cond = AL | EQ | NE | GT | GE | LT | LE

  // Offsets of Ldr and Str are subtracted from the base register, as in [fp, #-16].
  // PushFrame is stmfd sp!, {fp, ip, lr, pc} and PopFrame ldmfd sp, {fp, sp, lr};
  // PushFp is str fp, [sp, #-4]! and PopFp ldr fp, [sp], #4;
  // PushSaved is push {r4, fp, lr} and PopSaved pop {r4, fp, pc};
  // BlIdiv is bl __aeabi_idiv.
  datatype Instr =
    | Mov(rd: Reg, rm: Reg)
    | MovImm(rd: Reg, imm: nat)
    | AddImm(rd: Reg, rn: Reg, imm: nat)
    | SubImm(rd: Reg, rn: Reg, imm: nat)
    | Sub(cond: Cond, rd: Reg, rn: Reg, rm: Reg)
    | Rsb(rd: Reg, rn: Reg, rm: Reg)
    | Mul(rd: Reg, rm: Reg, rn: Reg)
    | Cmp(rn: Reg, rm: Reg)
    | Ldr(rd: Reg, rn: Reg, imm: nat)
    | Str(rd: Reg, rn: Reg, imm: nat)
    | B(cond: Cond, target: nat)
    | Bl(target: nat)
    | BlIdiv
    | BxLr
    | PushFrame
    | PopFrame
    | PushFp
    | PopFp
    | PushSaved
    | PopSaved

  const GCFA := 0
  const GCFA1 := 29
  const GCFA2 := 45
  const DIVIDE := 58
  const REMAIN := 84
  const LCMA := 105
  const CODE_SIZE := 126

  function Code(pc: nat): Instr
    requires pc < CODE_SIZE
  {
    if pc < GCFA1 then GcfaCode(pc)
    else if pc < GCFA2 then Gcfa1Code(pc)
    else if pc < DIVIDE then Gcfa2Code(pc)
    else if pc < REMAIN then DivideCode(pc)
    else if pc < LCMA then RemainCode(pc)
    else LcmaCode(pc)
  }

  function GcfaCode(pc: nat): Instr
    requires pc < GCFA1
  {
    match pc
    // gcfa:
    case 0 => Mov(IP, SP)
    case 1 => PushFrame
    case 2 => SubImm(FP, IP, 4)
    case 3 => SubImm(SP, SP, 8)
    case 4 => Str(R0, FP, 16)
    case 5 => Str(R1, FP, 20)
    case 6 => B(AL, 20)
    // LOOPBDY:
    case 7 => Ldr(R2, FP, 16)
    case 8 => Ldr(R3, FP, 20)
    case 9 => Cmp(R2, R3)
    case 10 => B(LE, 16)
    case 11 => Ldr(R3, FP, 16)
    case 12 => Ldr(R2, FP, 20)
    case 13 => Rsb(R3, R2, R3)
    case 14 => Str(R3, FP, 16)
    case 15 => B(AL, 20)
    // ELSBR:
    case 16 => Ldr(R3, FP, 20)
    case 17 => Ldr(R2, FP, 16)
    case 18 => Rsb(R3, R2, R3)
    case 19 => Str(R3, FP, 20)
    // WHLCHK:
    case 20 => Ldr(R2, FP, 16)
    case 21 => Ldr(R3, FP, 20)
    case 22 => Cmp(R2, R3)
    case 23 => B(NE, 7)
    case 24 => Ldr(R3, FP, 16)
    case 25 => Mov(R0, R3)
    case 26 => SubImm(SP, FP, 12)
    case 27 => PopFrame
    case _ => BxLr
  }

  function Gcfa1Code(pc: nat): Instr
    requires GCFA1 <= pc < GCFA2
  {
    match pc
    // gcfa1:
    case 29 => Mov(IP, SP)
    case 30 => PushFrame
    case 31 => SubImm(FP, IP, 4)
    case 32 => SubImm(SP, SP, 8)
    // gcfa1r:
    case 33 => Str(R0, FP, 16)
    case 34 => Str(R1, FP, 20)
    case 35 => Cmp(R0, R1)
    case 36 => B(EQ, 42)
    case 37 => B(LT, 40)
    case 38 => Sub(AL, R0, R0, R1)
    case 39 => B(AL, 33)
    // LESS:
    case 40 => Sub(AL, R1, R1, R0)
    case 41 => B(AL, 33)
    // END:
    case 42 => SubImm(SP, FP, 12)
    case 43 => PopFrame
    case _ => BxLr
  }

  function Gcfa2Code(pc: nat): Instr
    requires GCFA2 <= pc < DIVIDE
  {
    match pc
    // gcfa2:
    case 45 => Mov(IP, SP)
    case 46 => PushFrame
    case 47 => SubImm(FP, IP, 4)
    case 48 => SubImm(SP, SP, 8)
    // gcfa2r:
    case 49 => Str(R0, FP, 16)
    case 50 => Str(R1, FP, 20)
    case 51 => Cmp(R0, R1)
    case 52 => Sub(GT, R0, R0, R1)
    case 53 => Sub(LT, R1, R1, R0)
    case 54 => B(NE, 49)
    // END2:
    case 55 => SubImm(SP, FP, 12)
    case 56 => PopFrame
    case _ => BxLr
  }

  function DivideCode(pc: nat): Instr
    requires DIVIDE <= pc < REMAIN
  {
    match pc
    // divide:
    case 58 => PushFp
    case 59 => AddImm(FP, SP, 0)
    case 60 => SubImm(SP, SP, 20)
    case 61 => Str(R0, FP, 16)
    case 62 => Str(R1, FP, 20)
    case 63 => Ldr(R3, FP, 16)
    case 64 => Str(R3, FP, 8)
    case 65 => MovImm(R3, 0)
    case 66 => Str(R3, FP, 12)
    case 67 => B(AL, 75)
    // .L8:
    case 68 => Ldr(R2, FP, 8)
    case 69 => Ldr(R3, FP, 20)
    case 70 => Sub(AL, R3, R2, R3)
    case 71 => Str(R3, FP, 8)
    case 72 => Ldr(R3, FP, 12)
    case 73 => AddImm(R3, R3, 1)
    case 74 => Str(R3, FP, 12)
    // .L7:
    case 75 => Ldr(R2, FP, 8)
    case 76 => Ldr(R3, FP, 20)
    case 77 => Cmp(R2, R3)
    case 78 => B(GE, 68)
    case 79 => Ldr(R3, FP, 12)
    case 80 => Mov(R0, R3)
    case 81 => AddImm(SP, FP, 0)
    case 82 => PopFp
    case _ => BxLr
  }

  function RemainCode(pc: nat): Instr
    requires REMAIN <= pc < LCMA
  {
    match pc
    // remain:
    case 84 => PushFp
    case 85 => AddImm(FP, SP, 0)
    case 86 => SubImm(SP, SP, 20)
    case 87 => Str(R0, FP, 16)
    case 88 => Str(R1, FP, 20)
    case 89 => Ldr(R3, FP, 16)
    case 90 => Str(R3, FP, 8)
    case 91 => B(AL, 96)
    // .L12:
    case 92 => Ldr(R2, FP, 8)
    case 93 => Ldr(R3, FP, 20)
    case 94 => Sub(AL, R3, R2, R3)
    case 95 => Str(R3, FP, 8)
    // .L11:
    case 96 => Ldr(R2, FP, 8)
    case 97 => Ldr(R3, FP, 20)
    case 98 => Cmp(R2, R3)
    case 99 => B(GE, 92)
    case 100 => Ldr(R3, FP, 8)
    case 101 => Mov(R0, R3)
    case 102 => AddImm(SP, FP, 0)
    case 103 => PopFp
    case _ => BxLr
  }

  function LcmaCode(pc: nat): Instr
    requires LCMA <= pc < CODE_SIZE
  {
    match pc
    // lcma:
    case 105 => PushSaved
    case 106 => AddImm(FP, SP, 8)
    case 107 => SubImm(SP, SP, 20)
    case 108 => Str(R0, FP, 24)
    case 109 => Str(R1, FP, 28)
    case 110 => Ldr(R3, FP, 24)
    case 111 => Ldr(R2, FP, 28)
    case 112 => Mul(R4, R2, R3)
    case 113 => Ldr(R1, FP, 28)
    case 114 => Ldr(R0, FP, 24)
    case 115 => Bl(0)
    case 116 => Mov(R3, R0)
    case 117 => Mov(R1, R3)
    case 118 => Mov(R0, R4)
    case 119 => BlIdiv
    case 120 => Mov(R3, R0)
    case 121 => Str(R3, FP, 16)
    case 122 => Ldr(R3, FP, 16)
    case 123 => Mov(R0, R3)
    case 124 => SubImm(SP, FP, 8)
    case _ => PopSaved
  }

  // The table routine by routine, for proofs that hide the table itself.
  lemma GcfaListing()
    ensures Code(0) == Mov(IP, SP) && Code(1) == PushFrame
    ensures Code(2) == SubImm(FP, IP, 4) && Code(3) == SubImm(SP, SP, 8)
    ensures Code(4) == Str(R0, FP, 16) && Code(5) == Str(R1, FP, 20)
    ensures Code(6) == B(AL, 20) && Code(7) == Ldr(R2, FP, 16)
    ensures Code(8) == Ldr(R3, FP, 20) && Code(9) == Cmp(R2, R3)
    ensures Code(10) == B(LE, 16) && Code(11) == Ldr(R3, FP, 16)
    ensures Code(12) == Ldr(R2, FP, 20) && Code(13) == Rsb(R3, R2, R3)
    ensures Code(14) == Str(R3, FP, 16) && Code(15) == B(AL, 20)
    ensures Code(16) == Ldr(R3, FP, 20) && Code(17) == Ldr(R2, FP, 16)
    ensures Code(18) == Rsb(R3, R2, R3) && Code(19) == Str(R3, FP, 20)
    ensures Code(20) == Ldr(R2, FP, 16) && Code(21) == Ldr(R3, FP, 20)
    ensures Code(22) == Cmp(R2, R3) && Code(23) == B(NE, 7)
    ensures Code(24) == Ldr(R3, FP, 16) && Code(25) == Mov(R0, R3)
    ensures Code(26) == SubImm(SP, FP, 12) && Code(27) == PopFrame
    ensures Code(28) == BxLr
  {
  }

  lemma Gcfa1Listing()
    ensures Code(29) == Mov(IP, SP) && Code(30) == PushFrame
    ensures Code(31) == SubImm(FP, IP, 4) && Code(32) == SubImm(SP, SP, 8)
    ensures Code(33) == Str(R0, FP, 16) && Code(34) == Str(R1, FP, 20)
    ensures Code(35) == Cmp(R0, R1) && Code(36) == B(EQ, 42)
    ensures Code(37) == B(LT, 40) && Code(38) == Sub(AL, R0, R0, R1)
    ensures Code(39) == B(AL, 33) && Code(40) == Sub(AL, R1, R1, R0)
    ensures Code(41) == B(AL, 33) && Code(42) == SubImm(SP, FP, 12)
    ensures Code(43) == PopFrame && Code(44) == BxLr
  {
  }

  lemma Gcfa2Listing()
    ensures Code(45) == Mov(IP, SP) && Code(46) == PushFrame
    ensures Code(47) == SubImm(FP, IP, 4) && Code(48) == SubImm(SP, SP, 8)
    ensures Code(49) == Str(R0, FP, 16) && Code(50) == Str(R1, FP, 20)
    ensures Code(51) == Cmp(R0, R1) && Code(52) == Sub(GT, R0, R0, R1)
    ensures Code(53) == Sub(LT, R1, R1, R0) && Code(54) == B(NE, 49)
    ensures Code(55) == SubImm(SP, FP, 12) && Code(56) == PopFrame
    ensures Code(57) == BxLr
  {
  }

  lemma DivideListing()
    ensures Code(58) == PushFp && Code(59) == AddImm(FP, SP, 0)
    ensures Code(60) == SubImm(SP, SP, 20) && Code(61) == Str(R0, FP, 16)
    ensures Code(62) == Str(R1, FP, 20) && Code(63) == Ldr(R3, FP, 16)
    ensures Code(64) == Str(R3, FP, 8) && Code(65) == MovImm(R3, 0)
    ensures Code(66) == Str(R3, FP, 12) && Code(67) == B(AL, 75)
    ensures Code(68) == Ldr(R2, FP, 8) && Code(69) == Ldr(R3, FP, 20)
    ensures Code(70) == Sub(AL, R3, R2, R3) && Code(71) == Str(R3, FP, 8)
    ensures Code(72) == Ldr(R3, FP, 12) && Code(73) == AddImm(R3, R3, 1)
    ensures Code(74) == Str(R3, FP, 12) && Code(75) == Ldr(R2, FP, 8)
    ensures Code(76) == Ldr(R3, FP, 20) && Code(77) == Cmp(R2, R3)
    ensures Code(78) == B(GE, 68) && Code(79) == Ldr(R3, FP, 12)
    ensures Code(80) == Mov(R0, R3) && Code(81) == AddImm(SP, FP, 0)
    ensures Code(82) == PopFp && Code(83) == BxLr
  {
  }

  lemma RemainListing()
    ensures Code(84) == PushFp && Code(85) == AddImm(FP, SP, 0)
    ensures Code(86) == SubImm(SP, SP, 20) && Code(87) == Str(R0, FP, 16)
    ensures Code(88) == Str(R1, FP, 20) && Code(89) == Ldr(R3, FP, 16)
    ensures Code(90) == Str(R3, FP, 8) && Code(91) == B(AL, 96)
    ensures Code(92) == Ldr(R2, FP, 8) && Code(93) == Ldr(R3, FP, 20)
    ensures Code(94) == Sub(AL, R3, R2, R3) && Code(95) == Str(R3, FP, 8)
    ensures Code(96) == Ldr(R2, FP, 8) && Code(97) == Ldr(R3, FP, 20)
    ensures Code(98) == Cmp(R2, R3) && Code(99) == B(GE, 92)
    ensures Code(100) == Ldr(R3, FP, 8) && Code(101) == Mov(R0, R3)
    ensures Code(102) == AddImm(SP, FP, 0) && Code(103) == PopFp
    ensures Code(104) == BxLr
  {
  }

  lemma LcmaListing()
    ensures Code(105) == PushSaved && Code(106) == AddImm(FP, SP, 8)
    ensures Code(107) == SubImm(SP, SP, 20) && Code(108) == Str(R0, FP, 24)
    ensures Code(109) == Str(R1, FP, 28) && Code(110) == Ldr(R3, FP, 24)
    ensures Code(111) == Ldr(R2, FP, 28) && Code(112) == Mul(R4, R2, R3)
    ensures Code(113) == Ldr(R1, FP, 28) && Code(114) == Ldr(R0, FP, 24)
    ensures Code(115) == Bl(0) && Code(116) == Mov(R3, R0)
    ensures Code(117) == Mov(R1, R3) && Code(118) == Mov(R0, R4)
    ensures Code(119) == BlIdiv && Code(120) == Mov(R3, R0)
    ensures Code(121) == Str(R3, FP, 16) && Code(122) == Ldr(R3, FP, 16)
    ensures Code(123) == Mov(R0, R3) && Code(124) == SubImm(SP, FP, 8)
    ensures Code(125) == PopSaved
  {
  }

  // ---------- the machine ----------

  datatype Regs = Regs(r0: Word, r1: Word, r2: Word, r3: Word, r4: Word, fp: Word, ip: Word, sp: Word, lr: Word) {
    function Get(r: Reg): Word {
      match r
      case R0 => r0
      case R1 => r1
      case R2 => r2
      case R3 => r3
      case R4 => r4
      case FP => fp
      case IP => ip
      case SP => sp
      case LR => lr
    }

    function Set(r: Reg, w: Word): Regs {
      match r
      case R0 => this.(r0 := w)
      case R1 => this.(r1 := w)
      case R2 => this.(r2 := w)
      case R3 => this.(r3 := w)
      case R4 => this.(r4 := w)
      case FP => this.(fp := w)
      case IP => this.(ip := w)
      case SP => this.(sp := w)
      case LR => this.(lr := w)
    }
  }

  datatype Flags = Flags(n: bool, z: bool, v: bool)

  type Memory = map<Word, Word>

  datatype State = State(pc: nat, r: Regs, f: Flags, mem: Memory)

  // What a callee that obeys the procedure call standard may leave behind in the scratch
  // registers, the flags and the memory below the stack pointer.
  datatype Scratch = Scratch(r1: Word, r2: Word, r3: Word, ip: Word, lr: Word, f: Flags, below: Memory)

  function Load(m: Memory, a: Word): Word {
    if a in m then m[a] else 0
  }

  // The flags cmp sets from x - y.
  function Compare(x: Word, y: Word): Flags {
    var d := Wrap(x - y);
    Flags(d >= INT_LIMIT, d == 0, Signed(x) - Signed(y) != Signed(d))
  }

  predicate Holds(c: Cond, f: Flags) {
    match c
    case AL => true
    case EQ => f.z
    case NE => !f.z
    case GT => !f.z && f.n == f.v
    case GE => f.n == f.v
    case LT => f.n != f.v
    case LE => f.z || f.n != f.v
  }

  // The flags after cmp order their operands as signed numbers, also when x - y overflows.
  lemma ComparesSigned(x: Word, y: Word)
    ensures Holds(EQ, Compare(x, y)) <==> x == y
    ensures Holds(NE, Compare(x, y)) <==> x != y
    ensures Holds(GT, Compare(x, y)) <==> Signed(x) > Signed(y)
    ensures Holds(GE, Compare(x, y)) <==> Signed(x) >= Signed(y)
    ensures Holds(LT, Compare(x, y)) <==> Signed(x) < Signed(y)
    ensures Holds(LE, Compare(x, y)) <==> Signed(x) <= Signed(y)
  {
  }

  // __aeabi_idiv as section 4.3.1 of the Run-time ABI for the ARM Architecture gives it,
  // under the register rules of section 6.1.1 of AAPCS32.
  function CallIdiv(s: State, x: Scratch): State {
    var q := if s.r.r1 == 0 then 0 else Wrap(TruncDiv(Signed(s.r.r0), Signed(s.r.r1)));
    var kept := map a | a in s.mem && a >= s.r.sp :: s.mem[a];
    var lost := map a | a in x.below && a < s.r.sp :: x.below[a];
    State(s.pc + 1, s.r.(r0 := q, r1 := x.r1, r2 := x.r2, r3 := x.r3, ip := x.ip, lr := x.lr), x.f, kept + lost)
  }

  // What the caller of the division may rely on, and what it may not: the quotient whose
  // remainder has the sign of the dividend is in r0; the stack and the callee-saved registers
  // are kept; the scratch registers and the memory below the stack hold anything.
  lemma IdivContract(s: State, x: Scratch)
    ensures var t := CallIdiv(s, x);
      && t.pc == s.pc + 1 && t.f == x.f
      && t.r == Regs(t.r.r0, x.r1, x.r2, x.r3, s.r.r4, s.r.fp, x.ip, s.r.sp, x.lr)
      && (s.r.r1 != 0 ==> t.r.r0 == Wrap(TruncDiv(Signed(s.r.r0), Signed(s.r.r1))))
      && SameAbove(s.mem, t.mem, s.r.sp)
      && (forall a: Word :: a < s.r.sp ==> (a in t.mem <==> a in x.below) && (a in t.mem ==> t.mem[a] == x.below[a]))
  {
  }

  // Registers do not overlap.
  lemma RegistersApart(r: Regs, rd: Reg, rn: Reg, w: Word)
    ensures r.Set(rd, w).Get(rn) == if rn == rd then w else r.Get(rn)
  {
  }

  // The effect of one instruction at address s.pc.
  function Execute(i: Instr, s: State, x: Scratch): State {
    var next, r, m := s.pc + 1, s.r, s.mem;
    match i
    case Mov(rd, rm) => s.(pc := next, r := r.Set(rd, r.Get(rm)))
    case MovImm(rd, imm) => s.(pc := next, r := r.Set(rd, Wrap(imm)))
    case AddImm(rd, rn, imm) => s.(pc := next, r := r.Set(rd, Wrap(r.Get(rn) + imm)))
    case SubImm(rd, rn, imm) => s.(pc := next, r := r.Set(rd, Wrap(r.Get(rn) - imm)))
    case Sub(c, rd, rn, rm) =>
      if Holds(c, s.f) then s.(pc := next, r := r.Set(rd, Wrap(r.Get(rn) - r.Get(rm)))) else s.(pc := next)
    case Rsb(rd, rn, rm) => s.(pc := next, r := r.Set(rd, Wrap(r.Get(rm) - r.Get(rn))))
    case Mul(rd, rm, rn) => s.(pc := next, r := r.Set(rd, Wrap(r.Get(rm) * r.Get(rn))))
    case Cmp(rn, rm) => s.(pc := next, f := Compare(r.Get(rn), r.Get(rm)))
    case Ldr(rd, rn, imm) => s.(pc := next, r := r.Set(rd, Load(m, Wrap(r.Get(rn) - imm))))
    case Str(rd, rn, imm) => s.(pc := next, mem := m[Wrap(r.Get(rn) - imm) := r.Get(rd)])
    case B(c, target) => s.(pc := if Holds(c, s.f) then target else next)
    case Bl(target) => s.(pc := target, r := r.(lr := Wrap(next)))
    case BlIdiv => CallIdiv(s, x)
    case BxLr => s.(pc := r.lr)
    case PushFrame =>
      s.(pc := next, r := r.(sp := Wrap(r.sp - 16)),
         mem := m[Wrap(r.sp - 16) := r.fp][Wrap(r.sp - 12) := r.ip][Wrap(r.sp - 8) := r.lr]
                 [Wrap(r.sp - 4) := Wrap(s.pc + 2)])
    case PopFrame =>
      s.(pc := next, r := r.(fp := Load(m, r.sp), sp := Load(m, Wrap(r.sp + 4)), lr := Load(m, Wrap(r.sp + 8))))
    case PushFp =>
      s.(pc := next, r := r.(sp := Wrap(r.sp - 4)), mem := m[Wrap(r.sp - 4) := r.fp])
    case PopFp =>
      s.(pc := next, r := r.(fp := Load(m, r.sp), sp := Wrap(r.sp + 4)))
    case PushSaved =>
      s.(pc := next, r := r.(sp := Wrap(r.sp - 12)),
         mem := m[Wrap(r.sp - 12) := r.r4][Wrap(r.sp - 8) := r.fp][Wrap(r.sp - 4) := r.lr])
    case PopSaved =>
      s.(pc := Load(m, Wrap(r.sp + 8)),
         r := r.(r4 := Load(m, r.sp), fp := Load(m, Wrap(r.sp + 4)), sp := Wrap(r.sp + 12)))
  }

  function Step(s: State, x: Scratch): State {
    if s.pc < CODE_SIZE then Execute(Code(s.pc), s, x) else s
  }

  function Run(s: State, x: Scratch, k: nat): State
    decreases k
  {
    if k == 0 then s else Run(Step(s, x), x, k - 1)
  }

  // The first step of a run, when the instruction is known.
  lemma RunFirst(s: State, x: Scratch, i: Instr, k: nat)
    requires s.pc < CODE_SIZE && Code(s.pc) == i
    ensures Run(s, x, k + 1) == Run(Execute(i, s, x), x, k)
    ensures k == 0 ==> Run(s, x, 1) == Execute(i, s, x)
  {
    hide Code, Execute;
  }

  lemma {:induction false} RunAdd(s: State, x: Scratch, i: nat, j: nat)
    ensures Run(s, x, i + j) == Run(Run(s, x, i), x, j)
    decreases i
  {
    hide Step;
    if i > 0 {
      var t := Step(s, x);
      RunAdd(t, x, i - 1, j);
      assert Run(s, x, i + j) == Run(t, x, i - 1 + j);
    }
  }

  // Two common fragments: comparing two words of the frame, and a branch.
  lemma CompareWords(s: State, x: Scratch, i: nat, j: nat)
    requires s.pc < CODE_SIZE - 3 && s.r.fp >= 24 && i <= 24 && j <= 24
    requires Code(s.pc) == Ldr(R2, FP, i) && Code(s.pc + 1) == Ldr(R3, FP, j) && Code(s.pc + 2) == Cmp(R2, R3)
    ensures var a, b := Load(s.mem, s.r.fp - i), Load(s.mem, s.r.fp - j);
      Run(s, x, 3) == s.(pc := s.pc + 3, r := s.r.(r2 := a, r3 := b), f := Compare(a, b))
  {
    hide Run, Step, Code;
    var s1 := Execute(Ldr(R2, FP, i), s, x);
    var s2 := Execute(Ldr(R3, FP, j), s1, x);
    RunFirst(s, x, Ldr(R2, FP, i), 2);
    RunFirst(s1, x, Ldr(R3, FP, j), 1);
    RunFirst(s2, x, Cmp(R2, R3), 0);
  }

  lemma Branch(s: State, x: Scratch, c: Cond, target: nat)
    requires s.pc < CODE_SIZE && Code(s.pc) == B(c, target)
    ensures Run(s, x, 1) == s.(pc := if Holds(c, s.f) then target else s.pc + 1)
  {
    hide Run, Step, Code;
    RunFirst(s, x, B(c, target), 0);
  }

  // ---------- what a caller may rely on ----------

  ghost predicate SameAbove(m: Memory, m': Memory, limit: int) {
    forall a: Word :: a >= limit ==> (a in m <==> a in m') && (a in m ==> m'[a] == m[a])
  }

  // A public interface: the stack pointer is a multiple of 8 with room below it.
  ghost predicate Callable(s: State, entry: nat, room: nat) {
    s.pc == entry && s.r.sp % 8 == 0 && s.r.sp >= room
  }

  // Control is back at the caller, the callee-saved registers and the caller's stack
  // are as they were, and the result is in r0.
  ghost predicate Returned(s: State, t: State, result: int) {
    && t.pc == s.r.lr
    && Signed(t.r.r0) == result
    && t.r.sp == s.r.sp && t.r.fp == s.r.fp && t.r.r4 == s.r.r4
    && SameAbove(s.mem, t.mem, s.r.sp)
  }
}
