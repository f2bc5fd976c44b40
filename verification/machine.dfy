/** The simulated computer's state: eight registers, fifty memory words, PC, IR
    and a three-bit condition code, together with the constructor, the program
    loader and the shared condition-code setter. */
module Machine {
  import opened Bits

  const MaxMemory: nat := 50
  const MaxRegisters: nat := 8

  /** The condition code: bits N, Z, P in that order. */
  type Cc = c: Bits | |c| == 3 witness [false, false, false]

  /** Why a load or a run stops with an error. */
  datatype Fault =
    | InvalidWords(count: nat)          // the program has no words, or too many
    | InvalidWord(position: nat)           // a program word is not 16 binary digits
    | AddressOutOfRange(address: int)   // fetch, load or store outside memory
    | RegisterOutOfRange(index: int)    // a register index read as a negative number
    | ValueOutOfRange(value: int)       // a value with no 16-bit two's-complement form
    | IllegalOpcode(opcode: nat)        // an opcode outside the seven implemented ones

  datatype Result<+T> = Ok(value: T) | Err(fault: Fault)

  type Registers = r: seq<Word> | |r| == MaxRegisters witness seq(MaxRegisters, _ => seq(16, _ => false))
  type Memory = s: seq<Word> | |s| == MaxMemory witness seq(MaxMemory, _ => seq(16, _ => false))

  /** The unsigned reading of a 16-bit word. */
  type Magnitude = n: nat | n < 65536

  /** The two's-complement reading of a 16-bit word, given its unsigned one. */
  function SignedReading(n: Magnitude): (r: int)
    ensures -32768 <= r < 32768
    ensures r < 0 <==> n >= 32768
    ensures r % 65536 == n
  {
    Pow2Word();
    SignedField(n, 16)
  }

  /** The unsigned reading of the word that holds v in two's complement. */
  function MagnitudeOf(v: int): (n: Magnitude)
    requires -32768 <= v < 32768
    ensures SignedReading(n) == v
  {
    if v < 0 then v + 65536 else v
  }

  /** The two readings of a bit string agree with the two readings of its magnitude. */
  lemma SignedReadingOfWord(w: Word)
    ensures Unsigned(w) < 65536 && SignedReading(Unsigned(w)) == Signed(w)
  {
    Pow2Word();
    SignedByMagnitude(w);
  }

  /** The PC is kept as the unsigned reading of its 16 bits: the fetch reads it
      unsigned, while BR and ST read it through SignedReading. `out` holds the
      UTF-16 code units printed by TRAP x21, oldest first. */
  datatype State = State(regs: Registers, mem: Memory, pc: Magnitude, ir: Word, cc: Cc, out: seq<int>)

  function Zero(): (w: Word)
    ensures Unsigned(w) == 0
  {
    UnsignedOfZeros(16);
    seq(16, _ => false)
  }

  lemma {:induction false} UnsignedOfZeros(n: nat)
    ensures Unsigned(seq(n, _ => false)) == 0
  {
    if n > 0 {
      assert seq(n, _ => false)[1..] == seq(n - 1, _ => false);
      UnsignedOfZeros(n - 1);
    }
  }

  /** A fresh computer: register i holds i, memory, PC and IR hold zero, and
      the condition code is 000, which is none of N, Z or P. */
  function Initial(): (m: State)
    ensures forall i :: 0 <= i < MaxRegisters ==> Unsigned(m.regs[i]) == i
    ensures forall a :: 0 <= a < MaxMemory ==> Unsigned(m.mem[a]) == 0
    ensures m.pc == 0 && Unsigned(m.ir) == 0
    ensures !m.cc[0] && !m.cc[1] && !m.cc[2]
    ensures m.out == []
  {
    Pow2Word();
    State(seq(MaxRegisters, i requires 0 <= i < MaxRegisters => FromUnsigned(i, 16)),
          seq(MaxMemory, _ => Zero()),
          0, Zero(), [false, false, false], [])
  }

  /** Exactly one of N, Z, P is set. */
  predicate OneHot(cc: Cc)
  {
    cc == [true, false, false] || cc == [false, true, false] || cc == [false, false, true]
  }

  /** The condition code for a value: 100 when negative, 010 when zero, 001 when positive. */
  function SetConditionCode(code: int): (cc: Cc)
    ensures OneHot(cc)
    ensures cc[0] <==> code < 0
    ensures cc[1] <==> code == 0
    ensures cc[2] <==> code > 0
  {
    if code == 0 then [false, true, false]
    else if code < 0 then [true, false, false]
    else [false, false, true]
  }

  /** One program word: the text with its spaces removed must be 16 binary digits. */
  function ParseWord(s: string): (r: Option<Word>)
    ensures r.Some? <==> |RemoveSpaces(s)| == 16 && ParseBits(RemoveSpaces(s)).Some?
    ensures r.Some? ==> Render(r.value) == RemoveSpaces(s)
  {
    var cleaned := RemoveSpaces(s);
    if |cleaned| != 16 then None
    else match ParseBits(cleaned)
      case None => None
      case Some(bits) =>
        RenderParse(cleaned);
        Some(bits)
  }

  /** A one-pass reading of program text from position i: spaces are skipped,
      each binary digit is shifted into `value`, and `count` digits are seen;
      any other character rejects the text. */
  function ScanDigits(s: string, i: nat, value: nat, count: nat): (r: Option<(nat, nat)>)
    decreases |s| - i
  {
    if i >= |s| then Some((value, count))
    else if s[i] == ' ' then ScanDigits(s, i + 1, value, count)
    else if s[i] == '0' then ScanDigits(s, i + 1, 2 * value, count + 1)
    else if s[i] == '1' then ScanDigits(s, i + 1, 2 * value + 1, count + 1)
    else None
  }

  lemma RemoveSpacesAt(s: string, i: nat)
    requires i < |s|
    ensures RemoveSpaces(s[i..]) == if s[i] == ' ' then RemoveSpaces(s[i + 1..]) else [s[i]] + RemoveSpaces(s[i + 1..])
  {
    var t := s[i..];
    assert t[0] == s[i] && t[1..] == s[i + 1..];
  }

  lemma ParseBitsCons(c: char, u: string)
    ensures ParseBits([c] + u) == if !IsBinaryDigit(c) then None
                                  else match ParseBits(u)
                                    case None => None
                                    case Some(b) => Some([c == '1'] + b)
  {
    assert ([c] + u)[0] == c && ([c] + u)[1..] == u;
  }

  lemma ShiftIn(value: nat, c: bool, b: Bits)
    ensures value * Pow2(|[c] + b|) + Unsigned([c] + b) == (2 * value + (if c then 1 else 0)) * Pow2(|b|) + Unsigned(b)
  {
    UnsignedCons(c, b);
    var p := Pow2(|b|);
    assert Pow2(|[c] + b|) == 2 * p;
    if c {
      ShiftArith(value, p, 1, Unsigned(b));
    } else {
      ShiftArith(value, p, 0, Unsigned(b));
    }
  }

  lemma ShiftArith(value: int, p: int, d: int, u: int)
    ensures value * (2 * p) + (d * p + u) == (2 * value + d) * p + u
  {
  }

  /** The reading the scan must agree with: remove the spaces from t, parse
      the binary digits, and shift them into `value`, counting them. */
  function ScanReading(t: string, value: nat, count: nat): Option<(nat, nat)>
  {
    match ParseBits(RemoveSpaces(t))
    case None => None
    case Some(b) => Some((value * Pow2(|b|) + Unsigned(b), count + |b|))
  }

  /** The reading of s[i..] in terms of the reading of s[i + 1..]. */
  lemma ScanReadingAt(s: string, i: nat, value: nat, count: nat)
    requires i < |s|
    ensures ScanReading(s[i..], value, count)
         == if s[i] == ' ' then ScanReading(s[i + 1..], value, count)
            else if s[i] == '0' then ScanReading(s[i + 1..], 2 * value, count + 1)
            else if s[i] == '1' then ScanReading(s[i + 1..], 2 * value + 1, count + 1)
            else None
  {
    RemoveSpacesAt(s, i);
    var u := RemoveSpaces(s[i + 1..]);
    if s[i] != ' ' {
      ParseBitsCons(s[i], u);
      if IsBinaryDigit(s[i]) && ParseBits(u).Some? {
        ShiftIn(value, s[i] == '1', ParseBits(u).value);
      }
    }
  }

  /** The scan from position i agrees with removing spaces and then parsing the rest. */
  lemma {:induction false} ScanDigitsIsParse(s: string, i: nat, value: nat, count: nat)
    requires i <= |s|
    ensures ScanDigits(s, i, value, count) == ScanReading(s[i..], value, count)
    decreases |s| - i
  {
    if i == |s| {
      assert s[i..] == "";
    } else {
      ScanReadingAt(s, i, value, count);
      if s[i] == ' ' {
        ScanDigitsIsParse(s, i + 1, value, count);
      } else if s[i] == '0' {
        ScanDigitsIsParse(s, i + 1, 2 * value, count + 1);
      } else if s[i] == '1' {
        ScanDigitsIsParse(s, i + 1, 2 * value + 1, count + 1);
      }
    }
  }

  /** A word parses exactly when the scan sees 16 digits and nothing else, and then
      its magnitude is the scanned value. */
  lemma ParseWordByScan(s: string)
    ensures ParseWord(s).Some? <==> ScanDigits(s, 0, 0, 0).Some? && ScanDigits(s, 0, 0, 0).value.1 == 16
    ensures ParseWord(s).Some? ==> Unsigned(ParseWord(s).value) == ScanDigits(s, 0, 0, 0).value.0
  {
    ScanDigitsIsParse(s, 0, 0, 0);
    assert s[0..] == s;
  }

  /** The word a program line denotes, given the outcome of scanning it. */
  lemma WordFromScan(s: string, v: nat)
    requires ScanDigits(s, 0, 0, 0) == Some((v, 16))
    ensures v < Pow2(16)
    ensures ParseWord(s) == Some(FromUnsigned(v, 16))
  {
    ParseWordByScan(s);
    var w := ParseWord(s).value;
    FromUnsignedOfUnsigned(w);
  }

  /** Stores a word at an address; an address outside memory is rejected. */
  function LoadWord(m: State, address: int, word: Word): (r: Result<State>)
    ensures r.Ok? <==> 0 <= address < MaxMemory
    ensures r.Ok? ==> r.value.mem[address] == word
    ensures r.Ok? ==> forall a :: 0 <= a < MaxMemory && a != address ==> r.value.mem[a] == m.mem[a]
    ensures r.Ok? ==> r.value == m.(mem := r.value.mem)
    ensures r.Err? ==> r.fault == AddressOutOfRange(address)
  {
    if address < 0 || address >= MaxMemory then Err(AddressOutOfRange(address))
    else Ok(m.(mem := m.mem[address := word]))
  }

  /** Every program word from index `from` on is well formed. */
  predicate WordsParse(words: seq<string>, from: nat)
  {
    forall j :: from <= j < |words| ==> ParseWord(words[j]).Some?
  }

  /** Loads words[i..] at addresses i.., stopping at the first malformed word. */
  function LoadWords(m: State, words: seq<string>, i: nat): (r: Result<State>)
    requires i <= |words| <= MaxMemory
    ensures r.Ok? <==> WordsParse(words, i)
    ensures r.Ok? ==> r.value == m.(mem := r.value.mem)
    ensures r.Ok? ==> forall a {:trigger ParseWord(words[a])} :: i <= a < |words| ==> r.value.mem[a] == ParseWord(words[a]).value
    ensures r.Ok? ==> forall a :: 0 <= a < MaxMemory && !(i <= a < |words|) ==> r.value.mem[a] == m.mem[a]
    ensures r.Err? ==> r.fault.InvalidWord? && i <= r.fault.position < |words|
                       && ParseWord(words[r.fault.position]).None?
                       && forall j :: i <= j < r.fault.position ==> ParseWord(words[j]).Some?
    decreases |words| - i
  {
    if i == |words| then Ok(m)
    else match ParseWord(words[i])
      case None => Err(InvalidWord(i))
      case Some(word) =>
        match LoadWord(m, i, word)
        case Err(f) => Err(f)
        case Ok(m') => LoadWords(m', words, i + 1)
  }

  /** Loads a program: between 1 and 49 words, word i (spaces removed) going to
      address i; nothing but the first |words| memory cells changes. */
  function LoadMachineCode(m: State, words: seq<string>): (r: Result<State>)
    ensures r.Ok? <==> 0 < |words| < MaxMemory && WordsParse(words, 0)
    ensures (|words| == 0 || |words| >= MaxMemory) ==> r == Err(InvalidWords(|words|))
    ensures r.Ok? ==> forall a {:trigger ParseWord(words[a])} :: 0 <= a < |words| ==> r.value.mem[a] == ParseWord(words[a]).value
    ensures r.Ok? ==> forall a :: |words| <= a < MaxMemory ==> r.value.mem[a] == m.mem[a]
    ensures r.Ok? ==> r.value.regs == m.regs && r.value.pc == m.pc && r.value.ir == m.ir
                      && r.value.cc == m.cc && r.value.out == m.out
  {
    if |words| == 0 || |words| >= MaxMemory then Err(InvalidWords(|words|))
    else LoadWords(m, words, 0)
  }
}
