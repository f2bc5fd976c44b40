/** The fetch-increment-decode-dispatch cycle of the simulated computer, and a
    run of it bounded by a number of cycles. */
module Execute {
  import opened Bits
  import opened Machine
  import opened Handlers

  /** The outcome of one cycle or of a bounded run: still going, stopped by
      TRAP x25, or stopped by a fault the Java simulator raises as an exception. */
  datatype Status = Running(state: State) | Halted(state: State) | Faulted(fault: Fault)

  /** The opcodes with a handler: BR, ADD, LD, ST, AND, NOT, TRAP. */
  predicate Implemented(opcode: nat)
  {
    opcode == 0 || opcode == 1 || opcode == 2 || opcode == 3 || opcode == 5 || opcode == 9 || opcode == 15
  }

  /** The instruction TRAP x25: opcode 1111 and trap vector 0x25. */
  predicate IsHalt(w: Word)
  {
    Opcode(w) == 15 && Unsigned(Slice(w, 8, 8)) == 0x25
  }

  /** The condition code is either the constructor's 000 or one-hot. */
  predicate ConditionCodeShape(cc: Cc)
  {
    cc == [false, false, false] || OneHot(cc)
  }

  /** Fetch: IR := memory[PC] (PC read unsigned; outside memory is a fault),
      then PC := PC + 1. Nothing else changes. */
  function Fetch(m: State): (r: Result<State>)
    ensures r.Ok? <==> m.pc < MaxMemory
    ensures r.Err? ==> r.fault == AddressOutOfRange(m.pc)
    ensures r.Ok? ==> r.value.ir == m.mem[m.pc]
    ensures r.Ok? ==> r.value.pc == m.pc + 1
    ensures r.Ok? ==> r.value == m.(pc := r.value.pc, ir := r.value.ir)
  {
    var address := m.pc;
    if address >= MaxMemory then Err(AddressOutOfRange(address))
    else Ok(m.(ir := m.mem[address], pc := address + 1))
  }

  function Lift(r: Result<State>): Status
  {
    match r
    case Ok(m) => Running(m)
    case Err(f) => Faulted(f)
  }

  /** Runs the handler the opcode in IR selects; any other opcode is a fault.
      No handler touches IR; only BR moves PC, only ST writes memory, only
      TRAP prints, only ADD and NOT set CC, and only DR may change among the
      registers. */
  function Dispatch(m: State): (r: Status)
    ensures r.Halted? <==> Opcode(m.ir) == 15 && Unsigned(Slice(m.ir, 8, 8)) == 0x25
    ensures !Implemented(Opcode(m.ir)) ==> r == Faulted(IllegalOpcode(Opcode(m.ir)))
    ensures (r.Running? || r.Halted?) ==> r.state.ir == m.ir
    ensures (r.Running? || r.Halted?) && Opcode(m.ir) != 15 ==> r.state.out == m.out
    ensures (r.Running? || r.Halted?) && Opcode(m.ir) != 0 ==> r.state.pc == m.pc
    ensures (r.Running? || r.Halted?) && Opcode(m.ir) != 3 ==> r.state.mem == m.mem
    ensures (r.Running? || r.Halted?) && Opcode(m.ir) != 1 && Opcode(m.ir) != 9 ==> r.state.cc == m.cc
    ensures (r.Running? || r.Halted?) ==> forall i :: 0 <= i < MaxRegisters && i != Dr(m.ir) ==> r.state.regs[i] == m.regs[i]
  {
    var opcode := Opcode(m.ir);
    if opcode == 0 then Lift(ExecuteBranch(m))
    else if opcode == 1 then Lift(ExecuteAdd(m))
    else if opcode == 2 then Lift(ExecuteLoad(m))
    else if opcode == 3 then Lift(ExecuteStore(m))
    else if opcode == 5 then Running(ExecuteAnd(m))
    else if opcode == 9 then Running(ExecuteNot(m))
    else if opcode == 15 then
      var (halt, next) := ExecuteTrap(m);
      if halt then Halted(next) else Running(next)
    else Faulted(IllegalOpcode(opcode))
  }

  /** The handlers' own faults are address, register and value faults, so a
      cycle reports an illegal opcode exactly when the opcode has no handler. */
  lemma DispatchIllegal(m: State)
    ensures Dispatch(m).Faulted? && Dispatch(m).fault.IllegalOpcode? <==> !Implemented(Opcode(m.ir))
  {
    var opcode := Opcode(m.ir);
    if opcode == 0 {
      assert Dispatch(m) == Lift(ExecuteBranch(m));
    } else if opcode == 1 {
      assert Dispatch(m) == Lift(ExecuteAdd(m));
    } else if opcode == 2 {
      assert Dispatch(m) == Lift(ExecuteLoad(m));
    } else if opcode == 3 {
      assert Dispatch(m) == Lift(ExecuteStore(m));
    }
  }

  /** One cycle of the loop: fetch, increment, decode, execute. */
  function Step(m: State): (r: Status)
    ensures m.pc >= MaxMemory ==> r == Faulted(AddressOutOfRange(m.pc))
    ensures r.Halted? <==> m.pc < MaxMemory && IsHalt(m.mem[m.pc])
    ensures r.Faulted? && r.fault.IllegalOpcode? <==>
              m.pc < MaxMemory && !Implemented(Opcode(m.mem[m.pc]))
  {
    match Fetch(m)
    case Err(f) => Faulted(f)
    case Ok(fetched) =>
      DispatchIllegal(fetched);
      Dispatch(fetched)
  }

  /** At most `fuel` cycles of a transition `step`, stopping early on a halt
      or a fault. A result of Running means the fuel ran out first. */
  function Iterate(step: State -> Status, m: State, fuel: nat): Status
    decreases fuel
  {
    if fuel == 0 then Running(m)
    else match step(m)
      case Running(next) => Iterate(step, next, fuel - 1)
      case other => other
  }

  /** The loop of `Computer.execute`, cut off after `fuel` cycles. */
  function Run(m: State, fuel: nat): Status
  {
    Iterate(Step, m, fuel)
  }

  // ---------------------------------------------------------------------
  // Properties of one cycle

  /** A cycle that does not fault leaves the fetched word in IR, and every
      instruction except BR leaves PC one past the fetched address. */
  lemma StepAdvancesPc(m: State)
    ensures var r := Step(m);
            (r.Running? || r.Halted?) ==>
              && m.pc < MaxMemory
              && r.state.ir == m.mem[m.pc]
              && (Opcode(r.state.ir) != 0 ==> r.state.pc == m.pc + 1)
  {
    if m.pc < MaxMemory {
      var f := Fetch(m).value;
      var op := Opcode(f.ir);
      if op == 0 {
      } else if op == 1 {
        var a := ExecuteAdd(f);
      } else if op == 2 {
        var a := ExecuteLoad(f);
      } else if op == 3 {
        var a := ExecuteStore(f);
      }
    }
  }

  /** BR never faults: from a PC inside memory the target always has a 16-bit
      form. A taken branch moves PC from the incremented PC by the
      sign-extended offset; an untaken one leaves it at the incremented PC. */
  lemma StepBranch(m: State)
    requires m.pc < MaxMemory && Opcode(m.mem[m.pc]) == 0
    ensures var f := Fetch(m).value;
            var r := Step(m);
            && r.Running?
            && (!BranchTaken(f) ==> r.state == f && r.state.pc == m.pc + 1)
            && (BranchTaken(f) ==>
                  SignedReading(r.state.pc) == m.pc + 1 + Offset9(f.ir)
                  && r.state == f.(pc := r.state.pc))
  {
    LoadAndStoreAddressAlike(Fetch(m).value);
  }

  /** Memory changes only under ST, and then only in the cell the incremented
      PC plus the offset addresses, which receives the source register. */
  lemma StepMemory(m: State)
    ensures var r := Step(m);
            (r.Running? || r.Halted?) ==>
              && m.pc < MaxMemory
              && (Opcode(m.mem[m.pc]) != 3 ==> r.state.mem == m.mem)
              && (var w := m.mem[m.pc];
                  var target := m.pc + 1 + Offset9(w);
                  Opcode(w) == 3 ==> 0 <= target < MaxMemory && r.state.mem == m.mem[target := m.regs[Dr(w)]])
  {
    if m.pc < MaxMemory {
      var f := Fetch(m).value;
      var op := Opcode(f.ir);
      if op == 1 {
        var a := ExecuteAdd(f);
      } else if op == 2 {
        var a := ExecuteLoad(f);
      } else if op == 3 {
        var a := ExecuteStore(f);
        LoadAndStoreAddressAlike(f);
      }
    }
  }

  /** Registers other than DR never change; a halt changes no register. */
  lemma StepRegisters(m: State)
    ensures var r := Step(m);
            (r.Running? || r.Halted?) ==>
              && m.pc < MaxMemory
              && (forall i :: 0 <= i < MaxRegisters && i != Dr(m.mem[m.pc]) ==> r.state.regs[i] == m.regs[i])
              && (r.Halted? ==> r.state.regs == m.regs)
  {
    if m.pc < MaxMemory {
      var f := Fetch(m).value;
      var op := Opcode(f.ir);
      if op == 1 {
        var a := ExecuteAdd(f);
      } else if op == 2 {
        var a := ExecuteLoad(f);
      } else if op == 3 {
        var a := ExecuteStore(f);
      }
    }
  }

  /** The output grows only under TRAP x21, by exactly the character printed
      for the low byte of R0. */
  lemma StepOutput(m: State)
    ensures var r := Step(m);
            (r.Running? || r.Halted?) ==>
              && m.pc < MaxMemory
              && var w := m.mem[m.pc];
                 (if Opcode(w) == 15 && Unsigned(Slice(w, 8, 8)) == 0x21
                  then r.state.out == m.out + [PrintedCode(Unsigned(Slice(m.regs[0], 8, 8)))]
                  else r.state.out == m.out)
  {
    if m.pc < MaxMemory {
      var f := Fetch(m).value;
      var op := Opcode(f.ir);
      if op == 0 {
        assert Step(m) == Lift(ExecuteBranch(f));
      } else if op == 1 {
        assert Step(m) == Lift(ExecuteAdd(f));
      } else if op == 2 {
        assert Step(m) == Lift(ExecuteLoad(f));
      } else if op == 3 {
        assert Step(m) == Lift(ExecuteStore(f));
      } else if op == 5 {
        assert Step(m) == Running(ExecuteAnd(f));
      } else if op == 9 {
        assert Step(m) == Running(ExecuteNot(f));
      }
    }
  }

  /** Only ADD and NOT write CC, and always one-hot; so a CC that is 000 or
      one-hot stays so, and once one-hot it stays one-hot. */
  lemma StepConditionCode(m: State)
    ensures var r := Step(m);
            (r.Running? || r.Halted?) ==>
              && m.pc < MaxMemory
              && (var op := Opcode(m.mem[m.pc]);
                  op != 1 && op != 9 ==> r.state.cc == m.cc)
              && (ConditionCodeShape(m.cc) ==> ConditionCodeShape(r.state.cc))
              && (OneHot(m.cc) ==> OneHot(r.state.cc))
  {
    if m.pc < MaxMemory {
      var f := Fetch(m).value;
      var op := Opcode(f.ir);
      if op == 1 {
        var a := ExecuteAdd(f);
      } else if op == 2 {
        var a := ExecuteLoad(f);
      } else if op == 3 {
        var a := ExecuteStore(f);
      }
    }
  }

  // ---------------------------------------------------------------------
  // Properties of bounded runs, for any transition

  /** Running a + b cycles is running a cycles and then, if still going, b more. */
  lemma {:induction false} IterateAdditive(step: State -> Status, m: State, a: nat, b: nat)
    ensures Iterate(step, m, a + b) == match Iterate(step, m, a)
                                       case Running(m') => Iterate(step, m', b)
                                       case other => other
    decreases a
  {
    if a != 0 {
      match step(m)
      case Running(next) =>
        IterateAdditive(step, next, a - 1, b);
        assert a + b - 1 == (a - 1) + b;
      case _ =>
    }
  }

  /** Once a run has halted or faulted, more fuel changes nothing. */
  lemma IterateStopped(step: State -> Status, m: State, a: nat, b: nat)
    requires a <= b && !Iterate(step, m, a).Running?
    ensures Iterate(step, m, b) == Iterate(step, m, a)
  {
    IterateAdditive(step, m, a, b - a);
  }

  /** A run still going after b cycles was still going after every a <= b. */
  lemma IterateRunningBefore(step: State -> Status, m: State, a: nat, b: nat)
    requires a <= b && Iterate(step, m, b).Running?
    ensures Iterate(step, m, a).Running?
  {
    if !Iterate(step, m, a).Running? {
      IterateStopped(step, m, a, b);
    }
  }

  /** Whatever the fuel, every run that halts halts in the same state. */
  lemma IterateHaltIsDeterministic(step: State -> Status, m: State, a: nat, b: nat)
    requires Iterate(step, m, a).Halted? && Iterate(step, m, b).Halted?
    ensures Iterate(step, m, a) == Iterate(step, m, b)
  {
    if a <= b {
      IterateStopped(step, m, a, b);
    } else {
      IterateStopped(step, m, b, a);
    }
  }

  /** The run with k cycles is the run with k - 1 cycles followed by one step. */
  lemma IterateLast(step: State -> Status, m: State, k: nat)
    requires k >= 1 && Iterate(step, m, k - 1).Running?
    ensures Iterate(step, m, k) == step(Iterate(step, m, k - 1).state)
  {
    IterateAdditive(step, m, k - 1, 1);
  }

  /** A property every cycle preserves holds after any number of cycles. */
  lemma {:induction false} IterateInvariant(step: State -> Status, inv: State -> bool, m: State, fuel: nat)
    requires forall s :: inv(s) && (step(s).Running? || step(s).Halted?) ==> inv(step(s).state)
    requires inv(m)
    ensures var r := Iterate(step, m, fuel);
            (r.Running? || r.Halted?) ==> inv(r.state)
    decreases fuel
  {
    if fuel != 0 && step(m).Running? {
      IterateInvariant(step, inv, step(m).state, fuel - 1);
    }
  }

  /** If every cycle appends at most one output entry, a run of `fuel` cycles
      appends at most `fuel`, keeping what was there. */
  lemma {:induction false} IterateOutputGrows(step: State -> Status, m: State, fuel: nat)
    requires forall s :: (step(s).Running? || step(s).Halted?) ==>
               |s.out| <= |step(s).state.out| <= |s.out| + 1 && step(s).state.out[..|s.out|] == s.out
    ensures var r := Iterate(step, m, fuel);
            (r.Running? || r.Halted?) ==>
              |m.out| <= |r.state.out| <= |m.out| + fuel && r.state.out[..|m.out|] == m.out
    decreases fuel
  {
    if fuel != 0 && step(m).Running? {
      var next := step(m).state;
      IterateOutputGrows(step, next, fuel - 1);
      var r := Iterate(step, next, fuel - 1);
      if r.Running? || r.Halted? {
        assert r.state.out[..|m.out|] == r.state.out[..|next.out|][..|m.out|];
      }
    }
  }

  // ---------------------------------------------------------------------
  // Properties of the computer's runs

  /** A run halts after exactly k cycles when k - 1 cycles leave it running and
      the next fetched word is TRAP x25. */
  lemma RunHaltsAt(m: State, k: nat)
    requires k >= 1 && Run(m, k - 1).Running?
    ensures var s := Run(m, k - 1).state;
            Run(m, k).Halted? <==> s.pc < MaxMemory && IsHalt(s.mem[s.pc])
  {
    IterateLast(Step, m, k - 1 + 1);
  }

  /** Only ADD and NOT write CC, and then one-hot: a CC that is 000 or
      one-hot stays so through a run, and once one-hot it stays one-hot. */
  lemma RunConditionCode(m: State, fuel: nat)
    ensures var r := Run(m, fuel);
            (r.Running? || r.Halted?) ==>
              && (ConditionCodeShape(m.cc) ==> ConditionCodeShape(r.state.cc))
              && (OneHot(m.cc) ==> OneHot(r.state.cc))
  {
    forall s: State | Step(s).Running? || Step(s).Halted?
      ensures ConditionCodeShape(s.cc) ==> ConditionCodeShape(Step(s).state.cc)
      ensures OneHot(s.cc) ==> OneHot(Step(s).state.cc)
    {
      StepConditionCode(s);
    }
    if ConditionCodeShape(m.cc) {
      IterateInvariant(Step, (s: State) => ConditionCodeShape(s.cc), m, fuel);
    }
    if OneHot(m.cc) {
      IterateInvariant(Step, (s: State) => OneHot(s.cc), m, fuel);
    }
  }

  /** A run prints at most one character per cycle and never takes back what
      it printed. */
  lemma RunOutputGrows(m: State, fuel: nat)
    ensures var r := Run(m, fuel);
            (r.Running? || r.Halted?) ==>
              |m.out| <= |r.state.out| <= |m.out| + fuel && r.state.out[..|m.out|] == m.out
  {
    forall s: State | Step(s).Running? || Step(s).Halted?
      ensures |s.out| <= |Step(s).state.out| <= |s.out| + 1 && Step(s).state.out[..|s.out|] == s.out
    {
      StepOutput(s);
    }
    IterateOutputGrows(Step, m, fuel);
  }
}
