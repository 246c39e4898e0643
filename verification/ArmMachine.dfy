/** The processor with its registers, flags and memory updated in place, and the routines of
    lcmarm.s called on it. */
module ArmMachine {
  import opened Divisibility
  import opened Lcm
  import opened Arm
  import ArmGcd
  import ArmDivide
  import ArmLcm

  datatype Routine = Gcfa | Gcfa1 | Gcfa2 | Divide | Remain | Lcma

  function Entry(f: Routine): nat {
    match f
    case Gcfa => GCFA
    case Gcfa1 => GCFA1
    case Gcfa2 => GCFA2
    case Divide => DIVIDE
    case Remain => REMAIN
    case Lcma => LCMA
  }

  // Bytes below the stack pointer that a call may use.
  function Room(f: Routine): nat { if f == Lcma then 64 else 32 }

  // The arguments for which the loop of the routine ends.
  predicate Accepts(f: Routine, a: Word, b: Word) {
    if f == Divide || f == Remain then Signed(b) > 0 || Signed(a) < Signed(b)
    else ArmGcd.Positive(a) && ArmGcd.Positive(b)
  }

  // The value of the C function of the same name.
  function Value(f: Routine, a: Word, b: Word): int
    requires Accepts(f, a, b)
  {
    match f
    case Divide => Quotient(Signed(a), Signed(b))
    case Remain => Signed(a) - Quotient(Signed(a), Signed(b)) * Signed(b)
    case Lcma => ArmLcm.Computed(a, b)
    case _ => Gcd(a, b)
  }

  // Every routine comes back after some number of steps, with its value.
  lemma EveryRoutine(f: Routine, c: State, x: Scratch) returns (k: nat)
    requires Callable(c, Entry(f), Room(f)) && Accepts(f, c.r.r0, c.r.r1)
    ensures Returned(c, Run(c, x, k), Value(f, c.r.r0, c.r.r1))
  {
    hide Run, Returned, Quotient, Gcd;
    match f
    case Gcfa => k := ArmGcd.Gcfa(c, x);
    case Gcfa1 => k := ArmGcd.Gcfa1(c, x);
    case Gcfa2 => k := ArmGcd.Gcfa2(c, x);
    case Divide => k := ArmDivide.Divide(c, x);
    case Remain => k := ArmDivide.Remain(c, x);
    case Lcma => k := ArmLcm.Lcma(c, x);
  }

  // Outside the table nothing moves any more.
  lemma {:induction false} Halted(s: State, x: Scratch, k: nat)
    requires s.pc >= CODE_SIZE
    ensures Run(s, x, k) == s
    decreases k
  {
    if k > 0 {
      Halted(s, x, k - 1);
    }
  }

  // Addresses below the stack pointer, around the end of memory as well.
  lemma Below(sp: Word, m: nat, k: nat)
    requires k < m <= 16
    ensures Wrap(Wrap(sp - m) + k) == Wrap(sp - (m - k)) && Wrap(Wrap(sp - m) + m) == sp
    ensures Wrap(sp - m) != Wrap(sp - k)
  {
    if sp < m {
      QuotientIs(sp - m, WORD_LIMIT, -1, sp - m + WORD_LIMIT);
    }
    if sp < k {
      QuotientIs(sp - k, WORD_LIMIT, -1, sp - k + WORD_LIMIT);
    }
    if sp < m - k {
      QuotientIs(sp - (m - k), WORD_LIMIT, -1, sp - (m - k) + WORD_LIMIT);
    } else if sp < m {
      QuotientIs(sp - m + WORD_LIMIT + k, WORD_LIMIT, 1, sp - (m - k));
    }
    if sp < m {
      QuotientIs(sp + WORD_LIMIT, WORD_LIMIT, 1, sp);
    }
  }

  // Four words at different addresses.
  lemma FourStored(m: Memory, a: Word, b: Word, c: Word, d: Word, w: Word, x: Word, y: Word, z: Word)
    requires a != b && a != c && a != d && b != c && b != d && c != d
    ensures var n := m[a := w][b := x][c := y][d := z]; Load(n, a) == w && Load(n, b) == x && Load(n, c) == y
  {
  }

  lemma ThreeStored(m: Memory, a: Word, b: Word, c: Word, w: Word, x: Word, y: Word)
    requires a != b && a != c && b != c
    ensures var n := m[a := w][b := x][c := y]; Load(n, a) == w && Load(n, b) == x && Load(n, c) == y
  {
  }

  lemma FrameFound(s: State, x: Scratch)
    ensures var t := Execute(PopFrame, Execute(PushFrame, s, x), x);
      t.r.fp == s.r.fp && t.r.sp == s.r.ip && t.r.lr == s.r.lr
  {
    hide Wrap, Load, CallIdiv;
    var sp: int := s.r.sp;
    Below(sp, 16, 4);
    Below(sp, 16, 8);
    Below(sp, 16, 12);
    Below(sp, 12, 4);
    Below(sp, 12, 8);
    Below(sp, 8, 4);
    FourStored(s.mem, Wrap(sp - 16), Wrap(sp - 12), Wrap(sp - 8), Wrap(sp - 4), s.r.fp, s.r.ip, s.r.lr, Wrap(s.pc + 2));
  }

  lemma FpFound(s: State, x: Scratch)
    ensures var t := Execute(PopFp, Execute(PushFp, s, x), x);
      t.r.fp == s.r.fp && t.r.sp == s.r.sp
  {
    hide Wrap, CallIdiv;
    Below(s.r.sp, 4, 0);
  }

  lemma SavedFound(s: State, x: Scratch)
    ensures var t := Execute(PopSaved, Execute(PushSaved, s, x), x);
      t.r.r4 == s.r.r4 && t.r.fp == s.r.fp && t.r.sp == s.r.sp && t.pc == s.r.lr
  {
    hide Wrap, Load, CallIdiv;
    Below(s.r.sp, 12, 4);
    Below(s.r.sp, 12, 8);
    Below(s.r.sp, 8, 4);
    var sp: int := s.r.sp;
    ThreeStored(s.mem, Wrap(sp - 12), Wrap(sp - 8), Wrap(sp - 4), s.r.r4, s.r.fp, s.r.lr);
  }

  // What the three prologues store lies where the matching pops look for it, wherever the
  // stack pointer is: saved registers and stack pointer come back. (PopFrame takes the stack
  // pointer from the word where ip was stored.)
  lemma PopsFindPushes(s: State, x: Scratch)
    ensures var t := Execute(PopFrame, Execute(PushFrame, s, x), x);
      t.r.fp == s.r.fp && t.r.sp == s.r.ip && t.r.lr == s.r.lr
    ensures var t := Execute(PopFp, Execute(PushFp, s, x), x);
      t.r.fp == s.r.fp && t.r.sp == s.r.sp
    ensures var t := Execute(PopSaved, Execute(PushSaved, s, x), x);
      t.r.r4 == s.r.r4 && t.r.fp == s.r.fp && t.r.sp == s.r.sp && t.pc == s.r.lr
  {
    hide Execute;
    FrameFound(s, x);
    FpFound(s, x);
    SavedFound(s, x);
  }

  class Cpu {
    var pc: nat
    var r: Regs
    var f: Flags
    var mem: Memory

    ghost function View(): State
      reads this
    {
      State(pc, r, f, mem)
    }

    constructor (s: State)
      ensures View() == s
    {
      pc, r, f, mem := s.pc, s.r, s.f, s.mem;
    }

    // One instruction.
    method Advance(x: Scratch)
      requires pc < CODE_SIZE
      modifies this
      ensures View() == Step(old(View()), x)
    {
      hide Execute;
      var i := Code(pc);
      if i.PushFrame? || i.PopFrame? || i.PushFp? || i.PopFp? || i.PushSaved? || i.PopSaved? {
        Stack(i, x);
      } else if i.B? || i.Bl? || i.BlIdiv? || i.BxLr? {
        Transfer(i, x);
      } else {
        Compute(i, x);
      }
    }

    method Compute(i: Instr, ghost x: Scratch)
      requires !i.PushFrame? && !i.PopFrame? && !i.PushFp? && !i.PopFp? && !i.PushSaved? && !i.PopSaved?
      requires !i.B? && !i.Bl? && !i.BlIdiv? && !i.BxLr?
      modifies this
      ensures View() == Execute(i, old(View()), x)
    {
      hide Load, Wrap, Compare, Holds, Regs.Set, Regs.Get;
      match i {
        case Mov(rd, rm) => r := r.Set(rd, r.Get(rm));
        case MovImm(rd, imm) => r := r.Set(rd, Wrap(imm));
        case AddImm(rd, rn, imm) => r := r.Set(rd, Wrap(r.Get(rn) + imm));
        case SubImm(rd, rn, imm) => r := r.Set(rd, Wrap(r.Get(rn) - imm));
        case Sub(c, rd, rn, rm) =>
          if Holds(c, f) {
            r := r.Set(rd, Wrap(r.Get(rn) - r.Get(rm)));
          }
        case Rsb(rd, rn, rm) => r := r.Set(rd, Wrap(r.Get(rm) - r.Get(rn)));
        case Mul(rd, rm, rn) => r := r.Set(rd, Wrap(r.Get(rm) * r.Get(rn)));
        case Cmp(rn, rm) => f := Compare(r.Get(rn), r.Get(rm));
        case Ldr(rd, rn, imm) => r := r.Set(rd, Load(mem, Wrap(r.Get(rn) - imm)));
        case Str(rd, rn, imm) => mem := mem[Wrap(r.Get(rn) - imm) := r.Get(rd)];
      }
      pc := pc + 1;
    }

    method Transfer(i: Instr, x: Scratch)
      requires i.B? || i.Bl? || i.BlIdiv? || i.BxLr?
      modifies this
      ensures View() == Execute(i, old(View()), x)
    {
      match i {
        case B(c, target) => pc := if Holds(c, f) then target else pc + 1;
        case Bl(target) =>
          r := r.(lr := Wrap(pc + 1));
          pc := target;
        case BlIdiv =>
          var t := CallIdiv(State(pc, r, f, mem), x);
          pc, r, f, mem := t.pc, t.r, t.f, t.mem;
        case BxLr => pc := r.lr;
      }
    }

    method Stack(i: Instr, ghost x: Scratch)
      requires i.PushFrame? || i.PopFrame? || i.PushFp? || i.PopFp? || i.PushSaved? || i.PopSaved?
      modifies this
      ensures View() == Execute(i, old(View()), x)
    {
      hide Load, Wrap;
      match i {
        case PushFrame =>
          mem := mem[Wrap(r.sp - 16) := r.fp][Wrap(r.sp - 12) := r.ip]
                    [Wrap(r.sp - 8) := r.lr][Wrap(r.sp - 4) := Wrap(pc + 2)];
          r := r.(sp := Wrap(r.sp - 16));
          pc := pc + 1;
        case PopFrame =>
          r := r.(fp := Load(mem, r.sp), sp := Load(mem, Wrap(r.sp + 4)), lr := Load(mem, Wrap(r.sp + 8)));
          pc := pc + 1;
        case PushFp =>
          mem := mem[Wrap(r.sp - 4) := r.fp];
          r := r.(sp := Wrap(r.sp - 4));
          pc := pc + 1;
        case PopFp =>
          r := r.(fp := Load(mem, r.sp), sp := Wrap(r.sp + 4));
          pc := pc + 1;
        case PushSaved =>
          mem := mem[Wrap(r.sp - 12) := r.r4][Wrap(r.sp - 8) := r.fp][Wrap(r.sp - 4) := r.lr];
          r := r.(sp := Wrap(r.sp - 12));
          pc := pc + 1;
        case PopSaved =>
          pc := Load(mem, Wrap(r.sp + 8));
          r := r.(r4 := Load(mem, r.sp), fp := Load(mem, Wrap(r.sp + 4)), sp := Wrap(r.sp + 12));
      }
    }

    // Runs until control leaves the table.
    method RunToReturn(x: Scratch, ghost k: nat)
      requires Run(View(), x, k).pc >= CODE_SIZE
      modifies this
      ensures View() == Run(old(View()), x, k)
    {
      hide Step;
      ghost var i := 0;
      while pc < CODE_SIZE
        invariant i <= k && View() == Run(old(View()), x, i)
        decreases k - i
      {
        Advance(x);
        RunAdd(old(View()), x, i, 1);
        i := i + 1;
      }
      RunAdd(old(View()), x, i, k - i);
      Halted(View(), x, k - i);
    }

    // A call from outside the table: it ends, the value is in r0, and the caller finds its
    // stack and its saved registers as they were.
    method Call(routine: Routine, x: Scratch)
      requires pc == Entry(routine) && r.lr >= CODE_SIZE
      requires r.sp % 8 == 0 && r.sp >= if routine == Lcma then 64 else 32
      requires if routine == Divide || routine == Remain then Signed(r.r1) > 0 || Signed(r.r0) < Signed(r.r1)
               else Signed(r.r0) > 0 && Signed(r.r1) > 0
      modifies this
      ensures Returned(old(View()), View(), Value(routine, old(r.r0), old(r.r1)))
      ensures pc == old(r.lr) && Signed(r.r0) == Value(routine, old(r.r0), old(r.r1))
      ensures r.sp == old(r.sp) && r.fp == old(r.fp) && r.r4 == old(r.r4)
      ensures forall a: Word :: a >= r.sp ==> (a in mem <==> a in old(mem)) && (a in mem ==> mem[a] == old(mem)[a])
    {
      ghost var k := EveryRoutine(routine, View(), x);
      hide Run, Value;
      RunToReturn(x, k);
    }
  }
}
