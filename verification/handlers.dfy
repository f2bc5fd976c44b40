/** The seven instruction handlers of the simulated computer: BR, ADD, LD, ST,
    AND, NOT and TRAP. Each reads its operands from the IR already fetched and
    returns the next state, or the fault the Java simulator raises as an exception. */
module Handlers {
  import opened Bits
  import opened Machine

  // ---------------------------------------------------------------------
  // Instruction fields: bits [start, start + len) of the IR, bit 0 the most significant

  /** The opcode, bits 0..3, read unsigned. */
  function Opcode(ir: Word): (r: nat)
    ensures r < 16
  {
    Unsigned(Slice(ir, 0, 4))
  }

  /** Bits 4..6 read unsigned: DR of ADD, LD, AND and NOT, SR of ST. */
  function Dr(ir: Word): (r: nat)
    ensures r < MaxRegisters
  {
    Unsigned(Slice(ir, 4, 3))
  }

  /** Bits 7..9 read unsigned: SR1 of ADD and AND, SR of NOT. */
  function Sr1(ir: Word): (r: nat)
    ensures r < MaxRegisters
  {
    Unsigned(Slice(ir, 7, 3))
  }

  /** Bit 10: the second operand of ADD and AND is the immediate. */
  predicate ImmediateMode(ir: Word)
  {
    Unsigned(Slice(ir, 10, 1)) == 1
  }

  /** Bits 11..15 read as two's complement. */
  function Imm5(ir: Word): (r: int)
    ensures -16 <= r < 16
  {
    Signed(Slice(ir, 11, 5))
  }

  /** Bits 13..15 read as two's complement, as ADD reads SR2. */
  function Sr2Signed(ir: Word): (r: int)
    ensures -4 <= r < 4
  {
    Signed(Slice(ir, 13, 3))
  }

  /** Bits 13..15 read unsigned, as AND reads SR2. */
  function Sr2(ir: Word): (r: nat)
    ensures r < MaxRegisters
  {
    Unsigned(Slice(ir, 13, 3))
  }

  /** Bits 7..15 read as two's complement: the PC offset of BR, LD and ST. */
  function Offset9(ir: Word): (r: int)
    ensures -256 <= r < 256
  {
    Signed(Slice(ir, 7, 9))
  }

  /** Bits 8..15 read as two's complement: the trap vector. */
  function TrapVector(ir: Word): (r: int)
    ensures -128 <= r < 128
  {
    Signed(Slice(ir, 8, 8))
  }

  // Each field is the word's magnitude shifted right and masked; the signed
  // fields are those low bits read as two's complement.

  lemma OpcodeValue(ir: Word)
    ensures Opcode(ir) == Unsigned(ir) / 4096 % 16
  {
    SliceIsShiftAndMask(ir, 0, 4);
    assert Pow2(12) == 4096 && Pow2(4) == 16;
  }

  lemma DrValue(ir: Word)
    ensures Dr(ir) == Unsigned(ir) / 512 % 8
  {
    SliceIsShiftAndMask(ir, 4, 3);
    assert Pow2(9) == 512 && Pow2(3) == 8;
  }

  lemma Sr1Value(ir: Word)
    ensures Sr1(ir) == Unsigned(ir) / 64 % 8
  {
    SliceIsShiftAndMask(ir, 7, 3);
    assert Pow2(6) == 64 && Pow2(3) == 8;
  }

  lemma ImmediateModeValue(ir: Word)
    ensures ImmediateMode(ir) <==> Unsigned(ir) / 32 % 2 == 1
  {
    SliceIsShiftAndMask(ir, 10, 1);
    assert Pow2(5) == 32 && Pow2(1) == 2;
  }

  /** The low `len` bits, read either way, are the magnitude's remainder
      modulo 2^len read either way. */
  lemma LowField(ir: Word, len: nat)
    requires 1 <= len <= 16
    ensures Unsigned(Slice(ir, 16 - len, len)) == Unsigned(ir) % Pow2(len)
    ensures Signed(Slice(ir, 16 - len, len)) == SignedField(Unsigned(ir) % Pow2(len), len)
  {
    SliceIsShiftAndMask(ir, 16 - len, len);
    assert Pow2(0) == 1;
    SignedByMagnitude(Slice(ir, 16 - len, len));
  }

  lemma Sr2Value(ir: Word)
    ensures Sr2(ir) == Unsigned(ir) % 8
    ensures Sr2Signed(ir) == SignedField(Unsigned(ir) % 8, 3)
  {
    LowField(ir, 3);
    assert Pow2(3) == 8;
  }

  lemma Imm5Value(ir: Word)
    ensures Imm5(ir) == SignedField(Unsigned(ir) % 32, 5)
  {
    LowField(ir, 5);
    assert Pow2(5) == 32;
  }

  lemma Offset9Value(ir: Word)
    ensures Offset9(ir) == SignedField(Unsigned(ir) % 512, 9)
  {
    LowField(ir, 9);
    assert Pow2(9) == 512;
  }

  lemma TrapVectorValue(ir: Word)
    ensures TrapVector(ir) == SignedField(Unsigned(ir) % 256, 8)
    ensures Unsigned(Slice(ir, 8, 8)) == Unsigned(ir) % 256
  {
    LowField(ir, 8);
    assert Pow2(8) == 256;
  }

  // ---------------------------------------------------------------------
  // Writing a signed value into a 16-bit word

  /** A 16-bit word holding v in two's complement; a v with no such form is a
      fault rather than a guessed wrap-around. */
  function Set2sCompValue(v: int): (r: Result<Word>)
    ensures r.Ok? <==> -32768 <= v < 32768
    ensures r.Ok? ==> Signed(r.value) == v
    ensures r.Err? ==> r.fault == ValueOutOfRange(v)
  {
    Pow2Word();
    if FitsSigned(v, 16) then Ok(FromSigned(v, 16)) else Err(ValueOutOfRange(v))
  }

  /** Two words with the same two's-complement reading are the same bits. */
  lemma SignedInjective(a: Word, b: Word)
    requires Signed(a) == Signed(b)
    ensures a == b
  {
    FromSignedOfSigned(a);
    FromSignedOfSigned(b);
  }

  /** Writing back the reading of a word gives the same word. */
  lemma WordRoundTrip(w: Word)
    ensures Set2sCompValue(Signed(w)) == Ok(w)
  {
    Pow2Word();
    SignedInjective(Set2sCompValue(Signed(w)).value, w);
  }

  // ---------------------------------------------------------------------
  // BR

  /** Some condition bit tested by the instruction (IR bits 4..6, N Z P) is set in CC. */
  predicate BranchTaken(m: State)
  {
    var nzp := Slice(m.ir, 4, 3);
    exists i :: 0 <= i < 3 && nzp[i] && m.cc[i]
  }

  lemma BranchTakenIff(m: State)
    ensures var nzp := Slice(m.ir, 4, 3);
            BranchTaken(m) <==> (nzp[0] && m.cc[0]) || (nzp[1] && m.cc[1]) || (nzp[2] && m.cc[2])
  {
  }

  /** PC := its two's-complement reading plus `offset`, written back in two's
      complement; a target with no 16-bit form faults. */
  function Jump(m: State, offset: int): (r: Result<State>)
    ensures r.Ok? <==> -32768 <= SignedReading(m.pc) + offset < 32768
    ensures r.Ok? ==> SignedReading(r.value.pc) == SignedReading(m.pc) + offset && r.value == m.(pc := r.value.pc)
    ensures r.Err? ==> r.fault == ValueOutOfRange(SignedReading(m.pc) + offset)
  {
    var target := SignedReading(m.pc) + offset;
    if -32768 <= target < 32768 then Ok(m.(pc := MagnitudeOf(target)))
    else Err(ValueOutOfRange(target))
  }

  /** BR: when a tested condition holds, PC moves by the sign-extended offset
      from the incremented PC; otherwise nothing changes. Registers, memory and
      CC never change. */
  function ExecuteBranch(m: State): (r: Result<State>)
    ensures !BranchTaken(m) ==> r == Ok(m)
    ensures BranchTaken(m) ==> (r.Ok? <==> -32768 <= SignedReading(m.pc) + Offset9(m.ir) < 32768)
    ensures BranchTaken(m) && r.Ok? ==> SignedReading(r.value.pc) == SignedReading(m.pc) + Offset9(m.ir)
    ensures r.Ok? ==> r.value == m.(pc := r.value.pc)
    ensures r.Err? ==> r.fault == ValueOutOfRange(SignedReading(m.pc) + Offset9(m.ir))
  {
    var condition := Slice(m.ir, 4, 3);
    var offset := Offset9(m.ir);
    BranchTakenIff(m);
    if condition[0] && m.cc[0] then Jump(m, offset)        // negative
    else if condition[1] && m.cc[1] then Jump(m, offset)   // zero
    else if condition[2] && m.cc[2] then Jump(m, offset)   // positive
    else Ok(m)
  }

  /** With the constructor's CC of 000 no branch is ever taken. */
  lemma NoBranchWithoutConditionCode(m: State)
    requires m.cc == [false, false, false]
    ensures ExecuteBranch(m) == Ok(m)
  {
  }

  // ---------------------------------------------------------------------
  // ADD

  /** The outcome of writing `sum` into DR: a fault when it has no 16-bit form,
      else DR holds it, CC gives its sign, and nothing else changes. */
  predicate AddsTo(m: State, r: Result<State>, sum: int)
  {
    && (r.Ok? <==> -32768 <= sum < 32768)
    && (r.Err? ==> r.fault == ValueOutOfRange(sum))
    && (r.Ok? ==>
          && Signed(r.value.regs[Dr(m.ir)]) == sum
          && r.value.cc == SetConditionCode(sum)
          && (forall i :: 0 <= i < MaxRegisters && i != Dr(m.ir) ==> r.value.regs[i] == m.regs[i])
          && r.value == m.(regs := r.value.regs, cc := r.value.cc))
  }

  /** Writes `sum` into DR and sets CC from what DR then holds. */
  function StoreSum(m: State, sum: int): (r: Result<State>)
    ensures AddsTo(m, r, sum)
  {
    var dest := Dr(m.ir);
    match Set2sCompValue(sum)
    case Err(f) => Err(f)
    case Ok(w) =>
      var written := m.(regs := m.regs[dest := w]);
      Ok(written.(cc := SetConditionCode(Signed(written.regs[dest]))))
  }

  /** ADD: DR := SR1 + (sign-extended imm5, or SR2). SR2 is read as a signed
      three-bit index, so SR2 fields 4..7 name registers -4..-1 and fault. */
  function ExecuteAdd(m: State): (r: Result<State>)
    ensures ImmediateMode(m.ir) ==> AddsTo(m, r, Signed(m.regs[Sr1(m.ir)]) + Imm5(m.ir))
    ensures !ImmediateMode(m.ir) && Sr2Signed(m.ir) < 0 ==> r == Err(RegisterOutOfRange(Sr2Signed(m.ir)))
    ensures !ImmediateMode(m.ir) && Sr2Signed(m.ir) >= 0 ==>
              AddsTo(m, r, Signed(m.regs[Sr1(m.ir)]) + Signed(m.regs[Sr2Signed(m.ir)]))
  {
    var source := Signed(m.regs[Sr1(m.ir)]);
    if ImmediateMode(m.ir) then
      StoreSum(m, source + Imm5(m.ir))
    else
      var index := Sr2Signed(m.ir);
      if index < 0 then Err(RegisterOutOfRange(index))
      else StoreSum(m, source + Signed(m.regs[index]))
  }

  // ---------------------------------------------------------------------
  // LD and ST

  /** LD: DR := memory[PC + offset9], PC read unsigned. An address outside
      memory faults. CC is not touched. */
  function ExecuteLoad(m: State): (r: Result<State>)
    ensures var target := m.pc + Offset9(m.ir);
            && (r.Ok? <==> 0 <= target < MaxMemory)
            && (r.Err? ==> r.fault == AddressOutOfRange(target))
            && (r.Ok? ==> r.value == m.(regs := m.regs[Dr(m.ir) := m.mem[target]]))
  {
    var dest := Dr(m.ir);
    var target := m.pc + Offset9(m.ir);
    if target < 0 || target >= MaxMemory then Err(AddressOutOfRange(target))
    else
      WordRoundTrip(m.mem[target]);
      match Set2sCompValue(Signed(m.mem[target]))
      case Err(f) => Err(f)
      case Ok(w) => Ok(m.(regs := m.regs[dest := w]))
  }

  /** ST: memory[PC + offset9] := SR, PC read as two's complement. An address
      outside memory faults. Only that one memory cell changes. */
  function ExecuteStore(m: State): (r: Result<State>)
    ensures var target := SignedReading(m.pc) + Offset9(m.ir);
            && (r.Ok? <==> 0 <= target < MaxMemory)
            && (r.Err? ==> r.fault == AddressOutOfRange(target))
            && (r.Ok? ==> r.value == m.(mem := m.mem[target := m.regs[Dr(m.ir)]]))
  {
    var source := Dr(m.ir);
    var target := SignedReading(m.pc) + Offset9(m.ir);
    if target < 0 || target >= MaxMemory then Err(AddressOutOfRange(target))
    else
      WordRoundTrip(m.regs[source]);
      match Set2sCompValue(Signed(m.regs[source]))
      case Err(f) => Err(f)
      case Ok(w) => Ok(m.(mem := m.mem[target := w]))
  }

  /** While PC is below 2^15, the unsigned address base of LD and the signed
      one of ST coincide. */
  lemma LoadAndStoreAddressAlike(m: State)
    requires m.pc < 32768
    ensures SignedReading(m.pc) == m.pc
  {
  }

  // ---------------------------------------------------------------------
  // AND

  /** The second operand of AND: in immediate mode the imm5 field with its
      sign bit copied into the twelve high bits, else SR2. Either way its
      two's-complement reading is the operand's value. */
  function AndOperand(m: State): (r: Word)
    ensures ImmediateMode(m.ir) ==> Signed(r) == Imm5(m.ir)
    ensures !ImmediateMode(m.ir) ==> r == m.regs[Sr2(m.ir)]
  {
    if ImmediateMode(m.ir) then
      var imm := Slice(m.ir, 11, 5);
      var comparison := seq(12, _ => imm[0]) + imm[1..];
      assert comparison == SignExtend(imm, 16);
      SignExtendKeepsSigned(imm, 16);
      comparison
    else m.regs[Sr2(m.ir)]
  }

  /** AND: DR := SR1 AND operand, bit by bit. CC is not touched. */
  function ExecuteAnd(m: State): (r: State)
    ensures Unsigned(r.regs[Dr(m.ir)]) == AndValue(Unsigned(m.regs[Sr1(m.ir)]), Unsigned(AndOperand(m)), 16)
    ensures forall i :: 0 <= i < MaxRegisters && i != Dr(m.ir) ==> r.regs[i] == m.regs[i]
    ensures r == m.(regs := r.regs)
  {
    var source := m.regs[Sr1(m.ir)];
    var output := BitAnd(source, AndOperand(m));
    BitAndIsAndValue(source, AndOperand(m));
    m.(regs := m.regs[Dr(m.ir) := output])
  }

  // ---------------------------------------------------------------------
  // NOT

  /** NOT: DR := the complement of SR. CC comes from the DR field read as a
      three-bit two's-complement number, whatever the result is: DR 4..7 gives
      N, DR 0 gives Z, DR 1..3 gives P. */
  function ExecuteNot(m: State): (r: State)
    ensures Signed(r.regs[Dr(m.ir)]) == -Signed(m.regs[Sr1(m.ir)]) - 1
    ensures Unsigned(r.regs[Dr(m.ir)]) == 65535 - Unsigned(m.regs[Sr1(m.ir)])
    ensures Dr(m.ir) >= 4 ==> r.cc == [true, false, false]
    ensures Dr(m.ir) == 0 ==> r.cc == [false, true, false]
    ensures 1 <= Dr(m.ir) <= 3 ==> r.cc == [false, false, true]
    ensures forall i :: 0 <= i < MaxRegisters && i != Dr(m.ir) ==> r.regs[i] == m.regs[i]
    ensures r == m.(regs := r.regs, cc := r.cc)
  {
    var drField := Slice(m.ir, 4, 3);
    var srField := Slice(m.ir, 7, 3);
    var inverted := Invert(m.regs[Unsigned(srField)]);
    InvertSigned(m.regs[Unsigned(srField)]);
    InvertUnsigned(m.regs[Unsigned(srField)]);
    Pow2Word();
    SignedByMagnitude(drField);
    var written := m.(regs := m.regs[Unsigned(drField) := inverted]);
    written.(cc := SetConditionCode(Signed(drField)))
  }

  /** The NOT condition code ignores the result: R1 := NOT R0 with R0 = 0 stores
      -1 yet sets P. */
  lemma NotConditionCodeIgnoresResult(m: State)
    requires Dr(m.ir) == 1 && Sr1(m.ir) == 0 && Signed(m.regs[0]) == 0
    ensures Signed(ExecuteNot(m).regs[1]) == -1
    ensures ExecuteNot(m).cc == [false, false, true]
  {
  }

  // ---------------------------------------------------------------------
  // TRAP

  /** Java's narrowing of an int to a char: the low 16 bits. */
  function ToChar(v: int): (c: int)
    ensures 0 <= c < 65536
  {
    v % 65536
  }

  /** The character TRAP x21 prints for the low byte b of R0: the byte is read
      as two's complement before the narrowing, so bytes 0x80..0xFF come out
      as U+FF80..U+FFFF. */
  function PrintedCode(low: nat): nat
  {
    if low < 128 then low else low + 0xFF00
  }

  /** TRAP: vector x25 halts; x21 prints the low byte of R0 and continues; any
      other vector continues with nothing changed. The vector is read as
      two's complement, which for x21 and x25 is their plain value. */
  function ExecuteTrap(m: State): (r: (bool, State))
    ensures r.0 <==> Unsigned(Slice(m.ir, 8, 8)) == 0x25
    ensures Unsigned(Slice(m.ir, 8, 8)) == 0x21 ==>
              r.1 == m.(out := m.out + [PrintedCode(Unsigned(Slice(m.regs[0], 8, 8)))])
    ensures Unsigned(Slice(m.ir, 8, 8)) != 0x21 ==> r.1 == m
  {
    var vector := TrapVector(m.ir);
    SignedByMagnitude(Slice(m.ir, 8, 8));
    SignedByMagnitude(Slice(m.regs[0], 8, 8));
    assert Pow2(8) == 256;
    if vector == 0x21 then
      (false, m.(out := m.out + [ToChar(Signed(Slice(m.regs[0], 8, 8)))]))
    else if vector == 0x25 then
      (true, m)
    else
      (false, m)
  }
}
