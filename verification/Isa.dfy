/** Instructions as the simulator decodes them, and one instruction's effect on a value
    level. Both the pipeline and the sequential interpreter use these functions, so
    nothing here depends on timing.

    An Isa packages the decoder, the arithmetic unit and the branch comparator as
    arbitrary functions: the pipeline theorems hold for every one of them, and
    RiscvIsWellFormed shows the simulator's own decoder meets the only demands made. */
module Isa {
  import opened Words

  type Reg = r: int | 0 <= r < 32

  type Regs = s: seq<Word> | |s| == 32
    witness [0, 0, 0, 0, 0, 0, 0, 0, 0, 0, 0, 0, 0, 0, 0, 0, 0, 0, 0, 0, 0, 0, 0, 0, 0, 0, 0, 0, 0, 0, 0, 0]

  datatype Name =
    | Add | Mul | Sub | Sll | Mulh | Slt | Xor | Div | Srl | Sra | Or | Rem | And
    | Lb | Lh | Lw | Ld | Addi | Slli | Slti | Xori | Srli | Srai | Ori | Andi | Addiw
    | Jalr | Ecall | Sb | Sh | Sw | Sd | Beq | Bne | Blt | Bge | Auipc | Lui | Jal | Bltu | Bgeu
    | Lbu | Lhu | Lwu | Sltiu | Sltu | Slliw | Srliw | Sraiw | Addw | Subw | Sllw | Srlw | Sraw | Nop

  datatype Kind = RType | IType | SType | SBType | UType | UJType

  datatype Decoded = Decoded(name: Name, kind: Kind, srcA: Reg, srcB: Reg, imm: int, dstE: Reg, dstM: Reg)

  predicate IsLoad(n: Name) {
    n.Lb? || n.Lbu? || n.Lh? || n.Lhu? || n.Lw? || n.Lwu? || n.Ld?
  }

  predicate IsStore(n: Name) {
    n.Sb? || n.Sh? || n.Sw? || n.Sd?
  }

  /** Bytes moved by a load or store. */
  function AccessSize(n: Name): nat {
    match n
    case Lb => 1 case Lbu => 1 case Sb => 1
    case Lh => 2 case Lhu => 2 case Sh => 2
    case Lw => 4 case Lwu => 4 case Sw => 4
    case Ld => 8 case Sd => 8
    case _ => 0
  }

  // ----- instruction fields -----

  function Opcode(w: nat): nat { w % 128 }

  function Rd(w: nat): Reg { (w / 128) % 32 }

  function Funct3(w: nat): nat { (w / 4096) % 8 }

  function Rs1(w: nat): Reg { (w / 32768) % 32 }

  function Rs2(w: nat): Reg { (w / 0x100000) % 32 }

  function Funct7(w: nat): nat { (w / 0x2000000) % 128 }

  /** Sign extension of a value whose sign bit weighs `half`. */
  function SignExtend(half: nat, v: nat): int {
    if v >= half then v - 2 * half else v
  }

  function ImmI(w: nat): int {
    SignExtend(0x800, (w / 0x100000) % 0x1000)
  }

  function ImmU(w: nat): int {
    SignExtend(0x8000_0000, ((w / 0x1000) % 0x100000) * 0x1000)
  }

  function ImmUJ(w: nat): int {
    SignExtend(0x100000,
      ((w / 0x200000) % 0x400) * 2 + ((w / 0x100000) % 2) * 0x800 + ((w / 0x1000) % 0x100) * 0x1000
      + ((w / 0x8000_0000) % 2) * 0x100000)
  }

  function ImmSB(w: nat): int {
    SignExtend(0x1000,
      ((w / 0x100) % 0x10) * 2 + ((w / 0x2000000) % 0x40) * 0x20 + ((w / 0x80) % 2) * 0x800
      + ((w / 0x8000_0000) % 2) * 0x1000)
  }

  function ImmS(w: nat): int {
    SignExtend(0x800, (w / 0x80) % 0x20 + Funct7(w) * 0x20)
  }

  // ----- the decoder -----

  /** The decoder's opcode switch: None where it asserts. */
  function NameOf(w: nat): Option<(Name, Kind)> {
    var f3, f7 := Funct3(w), Funct7(w);
    match Opcode(w)
    case 0x37 => Some((Lui, UType))
    case 0x17 => Some((Auipc, UType))
    case 0x6f => Some((Jal, UJType))
    case 0x67 => Some((Jalr, IType))
    case 0x63 =>
      (match f3
       case 0 => Some((Beq, SBType)) case 1 => Some((Bne, SBType)) case 4 => Some((Blt, SBType))
       case 5 => Some((Bge, SBType)) case 6 => Some((Bltu, SBType)) case 7 => Some((Bgeu, SBType))
       case _ => None)
    case 0x3 =>
      (match f3
       case 0 => Some((Lb, IType)) case 1 => Some((Lh, IType)) case 2 => Some((Lw, IType))
       case 4 => Some((Lbu, IType)) case 5 => Some((Lhu, IType)) case 6 => Some((Lwu, IType))
       case 3 => Some((Ld, IType))
       case _ => None)
    case 0x23 =>
      (match f3
       case 0 => Some((Sb, SType)) case 1 => Some((Sh, SType)) case 2 => Some((Sw, SType))
       case 3 => Some((Sd, SType))
       case _ => None)
    case 0x13 =>
      (match f3
       case 0 => Some((Addi, IType)) case 1 => Some((Slli, IType)) case 2 => Some((Slti, IType))
       case 3 => Some((Sltiu, IType)) case 4 => Some((Xori, IType))
       case 5 => Some((if f7 > 0 then Srai else Srli, IType))
       case 6 => Some((Ori, IType)) case 7 => Some((Andi, IType))
       case _ => None)
    case 0x33 =>
      (match f3
       case 0 => Some((if f7 == 0 then Add else Sub, RType)) case 1 => Some((Sll, RType))
       case 2 => Some((Slt, RType)) case 3 => Some((Sltu, RType)) case 4 => Some((Xor, RType))
       case 5 => Some((if f7 == 0 then Srl else Sra, RType)) case 6 => Some((Or, RType))
       case 7 => Some((And, RType))
       case _ => None)
    case 0x1b =>
      (match f3
       case 0 => Some((Addiw, IType)) case 1 => Some((Slliw, IType))
       case 5 => Some((if f7 == 0 then Srliw else Sraiw, IType))
       case _ => None)
    case 0x3b =>
      (match f3
       case 0 => Some((if f7 == 0 then Addw else Subw, RType)) case 1 => Some((Sllw, RType))
       case 5 => Some((if f7 == 0 then Srlw else Sraw, RType))
       case _ => None)
    case 0x73 => Some((Ecall, RType))
    case 0 => Some((Nop, RType))
    case _ => None
  }

  function ImmOf(kind: Kind, w: nat): int {
    match kind
    case RType => 0
    case IType => ImmI(w)
    case SType => ImmS(w)
    case SBType => ImmSB(w)
    case UType => ImmU(w)
    case UJType => ImmUJ(w)
  }

  function Decode(w: nat): Option<Decoded> {
    match NameOf(w)
    case None => None
    case Some((name, kind)) =>
      var srcA := if kind.UType? || kind.UJType? then 0 else Rs1(w);
      var srcB := if kind.RType? || kind.SType? || kind.SBType? then Rs2(w) else 0;
      var rd := if kind.SType? || kind.SBType? then 0 else Rd(w);
      Some(Decoded(name, kind, srcA, srcB, ImmOf(kind, w),
                   if IsLoad(name) then 0 else rd, if IsLoad(name) then rd else 0))
  }

  // ----- the instruction set as a parameter -----

  datatype Isa = Isa(decode: nat -> Option<Decoded>,
                     alu: (Name, Word, Word, Word, int) -> Word,
                     taken: (Name, Word, Word) -> bool)

  /** What the fetch stage's own peek at the opcode and the hazard logic rely on. */
  predicate DecodedOk(w: nat, d: Decoded) {
    && (d.name.Jal? <==> Opcode(w) == 0x6f) && (d.name.Jal? ==> d.imm == ImmUJ(w))
    && (d.kind.SBType? <==> Opcode(w) == 0x63) && (d.kind.SBType? ==> d.imm == ImmSB(w) && d.dstE == 0)
    && (d.kind.SBType? ==> !d.name.Jal? && !d.name.Jalr? && !d.name.Ecall?)
    && (if IsLoad(d.name) then d.dstE == 0 && !d.kind.SBType? else d.dstM == 0)
    && (IsStore(d.name) ==> d.kind.SType? && d.dstE == 0)
    && (d.kind.UType? || d.kind.UJType? ==> d.srcA == 0)
    && (d.kind.IType? || d.kind.UType? || d.kind.UJType? ==> d.srcB == 0)
  }

  predicate DecodesOk(isa: Isa, w: nat) {
    isa.decode(w).Some? ==> DecodedOk(w, isa.decode(w).value)
  }

  ghost predicate WellFormed(isa: Isa) {
    forall w: nat :: DecodesOk(isa, w)
  }

  lemma DecodeOk(w: nat)
    ensures Decode(w).Some? ==> DecodedOk(w, Decode(w).value)
  {
    if Decode(w).Some? {
      var d := Decode(w).value;
      assert NameOf(w) == Some((d.name, d.kind));
    }
  }

  /** The simulator's decoder, with any arithmetic unit and comparator, is well formed. */
  lemma RiscvIsWellFormed(alu: (Name, Word, Word, Word, int) -> Word, taken: (Name, Word, Word) -> bool)
    ensures WellFormed(Isa((w: nat) => Decode(w), alu, taken))
  {
    var isa := Isa((w: nat) => Decode(w), alu, taken);
    forall w: nat
      ensures DecodesOk(isa, w)
    {
      DecodeOk(w);
    }
  }

  // ----- one instruction -----

  /** valE: what the execute stage computes. */
  function Compute(isa: Isa, d: Decoded, addr: Word, a: Word, b: Word): Word {
    if d.name.Jal? || d.name.Jalr? then Wrap(addr + 4)
    else if d.kind.SBType? then (if isa.taken(d.name, a, b) then 1 else 0)
    else if IsLoad(d.name) || IsStore(d.name) then Wrap(a + d.imm)
    else isa.alu(d.name, addr, a, b, d.imm)
  }

  /** The address of the next instruction. */
  function Successor(isa: Isa, d: Decoded, addr: Word, a: Word, b: Word): Word {
    if d.name.Jal? then Wrap(addr + d.imm)
    else if d.name.Jalr? then Wrap(a + d.imm) - Wrap(a + d.imm) % 2
    else if d.kind.SBType? && isa.taken(d.name, a, b) then Wrap(addr + d.imm)
    else Wrap(addr + 4)
  }

  function WriteRegs(regs: Regs, d: Decoded, valE: Word, valM: Word): Regs {
    var afterM: Regs := if d.dstM != 0 then regs[d.dstM := valM] else regs;
    if d.dstE != 0 then afterM[d.dstE := valE] else afterM
  }

  // ----- flat virtual memory -----

  type Mem = map<int, Byte>

  const LINE := 64

  /** The first byte is mapped and the access stays inside one cache line: otherwise the
      address translation or the cache asserts. */
  predicate CanAccess(mem: Mem, a: Word, n: nat) {
    a % LINE + n <= LINE && forall x | a <= x < a + n :: x in mem
  }

  function LoadBytes(mem: Mem, a: int, n: nat): nat
    decreases n
  {
    if n == 0 then 0 else (if a in mem then mem[a] else 0) + 256 * LoadBytes(mem, a + 1, n - 1)
  }

  function StoreBytes(mem: Mem, a: int, n: nat, v: nat): Mem
    decreases n
  {
    if n == 0 then mem else StoreBytes(mem[a := v % 256], a + 1, n - 1, v / 256)
  }

  /** The low n bytes of v, least significant first. */
  function Bytes(v: nat, n: nat): (bs: seq<Byte>)
    ensures |bs| == n
    decreases n
  {
    if n == 0 then [] else [v % 256] + Bytes(v / 256, n - 1)
  }

  lemma {:induction false} SameBytes(mem: Mem, a: int, n: nat, v: nat, w: nat)
    requires Bytes(v, n) == Bytes(w, n)
    ensures StoreBytes(mem, a, n, v) == StoreBytes(mem, a, n, w)
    decreases n
  {
    if n != 0 {
      assert Bytes(v, n)[0] == Bytes(w, n)[0] && Bytes(v, n)[1..] == Bytes(w, n)[1..];
      SameBytes(mem[a := v % 256], a + 1, n - 1, v / 256, w / 256);
    }
  }

  lemma {:induction false} StoreKeepsKeys(mem: Mem, a: int, n: nat, v: nat)
    requires forall x | a <= x < a + n :: x in mem
    ensures StoreBytes(mem, a, n, v).Keys == mem.Keys
    decreases n
  {
    if n != 0 {
      StoreKeepsKeys(mem[a := v % 256], a + 1, n - 1, v / 256);
    }
  }

  function Signed(half: nat, v: nat): Word {
    Wrap(SignExtend(half, v))
  }

  function FetchWord(mem: Mem, pc: Word): nat {
    LoadBytes(mem, pc, 4)
  }

  /** valM: the value a load delivers, sign- or zero-extended; 0 for other instructions. */
  function MemRead(d: Decoded, mem: Mem, valE: Word): Word {
    if !IsLoad(d.name) then 0 else
      var v := LoadBytes(mem, valE, AccessSize(d.name));
      match d.name
      case Lb => Signed(0x80, v)
      case Lh => Signed(0x8000, v)
      case Lw => Signed(0x8000_0000, v)
      case _ => Wrap(v)
  }

  /** A store writes the low bytes of valB; a faulting store never happens in a run that goes on. */
  function MemWrite(d: Decoded, mem: Mem, valE: Word, valB: Word): Mem {
    if IsStore(d.name) && CanAccess(mem, valE, AccessSize(d.name))
    then StoreBytes(mem, valE, AccessSize(d.name), valB) else mem
  }

  /** What becomes of valE: the result an instruction writes or the address it accesses. What a
      branch, a system call or an instruction without a target computes goes nowhere. */
  function Delivered(d: Decoded, valE: Word): Word {
    if (d.dstE != 0 && !d.name.Ecall?) || IsLoad(d.name) || IsStore(d.name) then valE else 0
  }

  /** The bytes an instruction puts into memory. */
  function StoredBytes(d: Decoded, valB: Word): seq<Byte> {
    if IsStore(d.name) then Bytes(valB, AccessSize(d.name)) else []
  }

  lemma SameStored(d: Decoded, mem: Mem, valE: Word, v: Word, w: Word)
    requires StoredBytes(d, v) == StoredBytes(d, w)
    ensures MemWrite(d, mem, valE, v) == MemWrite(d, mem, valE, w)
  {
    if IsStore(d.name) {
      SameBytes(mem, valE, AccessSize(d.name), v, w);
    }
  }

  lemma MemWriteKeys(d: Decoded, mem: Mem, valE: Word, valB: Word)
    ensures MemWrite(d, mem, valE, valB).Keys == mem.Keys
  {
    if IsStore(d.name) && CanAccess(mem, valE, AccessSize(d.name)) {
      StoreKeepsKeys(mem, valE, AccessSize(d.name), valB);
    }
  }

  predicate MemOk(d: Decoded, mem: Mem, valE: Word) {
    IsLoad(d.name) || IsStore(d.name) ==> CanAccess(mem, valE, AccessSize(d.name))
  }

  // ----- system calls -----

  /** The k-th ecall of a run may read input(k). */
  datatype Env = Env(input: nat -> Word)

  /** The stack pointer and its first value. */
  const SP: Reg := 2
  const STACK_TOP := 0x8000_0000

  const A0: Reg := 10
  const A7: Reg := 17

  /** Call 92 reads an integer into a0; the printing calls change nothing. */
  function SysRegs(env: Env, regs: Regs, k: nat): Regs {
    if regs[A7] == 92 then regs[A0 := env.input(k)] else regs
  }

  predicate SysExits(regs: Regs) {
    regs[A7] == 93
  }

  /** Call 91 prints through an uninitialised pointer: no behaviour is modelled. */
  predicate SysUndefined(regs: Regs) {
    regs[A7] == 91
  }
}
