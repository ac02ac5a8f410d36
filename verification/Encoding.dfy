/** The decoder against the instruction formats of the RISC-V unprivileged specification (section
    2.2, base instruction formats, and section 2.3, immediate encoding variants): a word assembled
    from its fields decodes to those fields, for every instruction that the decoder knows. Where it
    does not, the word and what it is taken for are stated. */
module Encoding {
  import opened Words
  import opened Isa
  import opened Division

  // ----- assembling words -----

  function EncodeR(op: nat, rd: nat, f3: nat, rs1: nat, rs2: nat, f7: nat): nat {
    op + 0x80 * rd + 0x1000 * f3 + 0x8000 * rs1 + 0x10_0000 * rs2 + 0x200_0000 * f7
  }

  function EncodeI(op: nat, rd: nat, f3: nat, rs1: nat, imm: int): nat {
    op + 0x80 * rd + 0x1000 * f3 + 0x8000 * rs1 + 0x10_0000 * (imm % 0x1000)
  }

  /** The low five bits where rd would be, the other seven where funct7 would be. */
  function EncodeS(op: nat, f3: nat, rs1: nat, rs2: nat, imm: int): nat {
    EncodeR(op, imm % 0x20, f3, rs1, rs2, imm / 0x20 % 0x80)
  }

  /** Bits 4 to 1 and 11, where rd would be. */
  function BranchLow(imm: int): (rd: nat)
    ensures rd < 0x20
  {
    imm / 2 % 0x10 * 2 + imm / 0x800 % 2
  }

  /** Bits 12 and 10 to 5, where funct7 would be. */
  function BranchHigh(imm: int): (f7: nat)
    ensures f7 < 0x80
  {
    imm / 0x1000 % 2 * 0x40 + imm / 0x20 % 0x40
  }

  function EncodeB(op: nat, f3: nat, rs1: nat, rs2: nat, imm: int): nat {
    EncodeR(op, BranchLow(imm), f3, rs1, rs2, BranchHigh(imm))
  }

  /** The upper twenty bits. */
  function EncodeU(op: nat, rd: nat, imm: int): nat {
    op + 0x80 * rd + 0x1000 * (imm / 0x1000 % 0x10_0000)
  }

  /** Bits 19 to 12, 11, 10 to 1 and 20, from the lowest place to the highest. */
  function EncodeJ(op: nat, rd: nat, imm: int): nat {
    op + 0x80 * rd + 0x1000 * (imm / 0x1000 % 0x100) + 0x10_0000 * (imm / 0x800 % 2)
    + 0x20_0000 * (imm / 2 % 0x400) + 0x8000_0000 * (imm / 0x10_0000 % 2)
  }

  // ----- the fields of an assembled word -----

  /** A field of the given size at the given place. */
  lemma Field(w: nat, low: nat, unit: nat, mid: nat, size: nat, high: nat)
    requires low < unit && mid < size && w == low + unit * (mid + size * high)
    ensures (w / unit) % size == mid
  {
    DivModUnique(w, unit, mid + size * high, low);
    DivModUnique(mid + size * high, size, high, mid);
  }

  lemma FieldsOf(op: nat, rd: nat, f3: nat, rs1: nat, rs2: nat, f7: nat)
    requires op < 0x80 && rd < 0x20 && f3 < 8 && rs1 < 0x20 && rs2 < 0x20 && f7 < 0x80
    ensures var w := EncodeR(op, rd, f3, rs1, rs2, f7);
      && Opcode(w) == op && Rd(w) == rd && Funct3(w) == f3 && Rs1(w) == rs1 && Rs2(w) == rs2 && Funct7(w) == f7
  {
    var w := EncodeR(op, rd, f3, rs1, rs2, f7);
    Field(w, 0, 1, op, 0x80, rd + 0x20 * f3 + 0x100 * rs1 + 0x2000 * rs2 + 0x4_0000 * f7);
    Field(w, op, 0x80, rd, 0x20, f3 + 8 * rs1 + 0x100 * rs2 + 0x2000 * f7);
    Field(w, op + 0x80 * rd, 0x1000, f3, 8, rs1 + 0x20 * rs2 + 0x400 * f7);
    Field(w, op + 0x80 * rd + 0x1000 * f3, 0x8000, rs1, 0x20, rs2 + 0x20 * f7);
    Field(w, op + 0x80 * rd + 0x1000 * f3 + 0x8000 * rs1, 0x10_0000, rs2, 0x20, f7);
    Field(w, op + 0x80 * rd + 0x1000 * f3 + 0x8000 * rs1 + 0x10_0000 * rs2, 0x200_0000, f7, 0x80, 0);
  }

  // ----- the immediates -----

  lemma SignExtends(half: nat, imm: int)
    requires half > 0 && -(half as int) <= imm < half
    ensures SignExtend(half, imm % (2 * half)) == imm
  {
    if imm >= 0 {
      DivModUnique(imm, 2 * half, 0, imm);
    } else {
      DivModUnique(imm, 2 * half, -1, imm + 2 * half);
    }
  }

  /** An I word as an R word: the immediate is where rs2 and funct7 would be. */
  lemma IFields(op: nat, rd: nat, f3: nat, rs1: nat, imm: int)
    requires op < 0x80 && rd < 0x20 && f3 < 8 && rs1 < 0x20 && -0x800 <= imm < 0x800
    ensures var w := EncodeI(op, rd, f3, rs1, imm);
      && Opcode(w) == op && Rd(w) == rd && Funct3(w) == f3 && Rs1(w) == rs1 && ImmI(w) == imm
      && Funct7(w) == imm % 0x1000 / 0x20
  {
    var w, u := EncodeI(op, rd, f3, rs1, imm), imm % 0x1000;
    assert w == EncodeR(op, rd, f3, rs1, u % 0x20, u / 0x20);
    FieldsOf(op, rd, f3, rs1, u % 0x20, u / 0x20);
    Field(w, op + 0x80 * rd + 0x1000 * f3 + 0x8000 * rs1, 0x10_0000, u, 0x1000, 0);
    SignExtends(0x800, imm);
  }

  lemma SImm(op: nat, f3: nat, rs1: nat, rs2: nat, imm: int)
    requires op < 0x80 && f3 < 8 && rs1 < 0x20 && rs2 < 0x20 && -0x800 <= imm < 0x800
    ensures ImmS(EncodeS(op, f3, rs1, rs2, imm)) == imm
  {
    FieldsOf(op, imm % 0x20, f3, rs1, rs2, imm / 0x20 % 0x80);
    Split(imm, 0x20, 0x80);
    SignExtends(0x800, imm);
  }

  lemma Distribute(a: nat, b: nat, q: int, r: int)
    ensures a * (b * q + r) == q * (a * b) + a * r
  {
  }

  lemma Scale(a: nat, x: nat, y: nat)
    requires x <= y
    ensures a * x <= a * y
  {
  }

  /** Two neighbouring fields of a number. */
  lemma Split(x: int, a: nat, b: nat)
    requires a > 0 && b > 0
    ensures x % (a * b) == x % a + a * (x / a % b)
  {
    var low, q := x % a, x / a;
    var high, top := q % b, q / b;
    var size, upper := a * b, a * high;
    assert x == top * size + (low + upper) by {
      assert x == a * q + low && q == b * top + high;
      Distribute(a, b, top, high);
    }
    assert 0 <= upper <= size - a by {
      Scale(a, 0, high);
      Scale(a, high, b - 1);
      Distribute(a, b, 1, -1);
    }
    DivModUnique(x, size, top, low + upper);
  }

  predicate Even(imm: int) {
    imm % 2 == 0
  }

  lemma BImm(w: nat, imm: int)
    requires Rd(w) == BranchLow(imm) && Funct7(w) == BranchHigh(imm) && -0x1000 <= imm < 0x1000 && Even(imm)
    ensures ImmSB(w) == imm
  {
    var b11, b4, b12, b10 := imm / 0x800 % 2, imm / 2 % 0x10, imm / 0x1000 % 2, imm / 0x20 % 0x40;
    PartsOfRd(w, b4, b11);
    PartsOfFunct7(w, b12, b10);
    assert ImmSB(w) == SignExtend(0x1000, b4 * 2 + b10 * 0x20 + b11 * 0x800 + b12 * 0x1000);
    BranchBits(imm);
    SignExtends(0x1000, imm);
  }

  lemma BFields(op: nat, f3: nat, rs1: nat, rs2: nat, imm: int)
    requires op < 0x80 && f3 < 8 && rs1 < 0x20 && rs2 < 0x20 && -0x1000 <= imm < 0x1000 && Even(imm)
    ensures var w := EncodeB(op, f3, rs1, rs2, imm);
      Opcode(w) == op && Funct3(w) == f3 && Rs1(w) == rs1 && Rs2(w) == rs2 && ImmSB(w) == imm
  {
    BParts(EncodeB(op, f3, rs1, rs2, imm), op, BranchLow(imm), f3, rs1, rs2, BranchHigh(imm), imm);
  }

  lemma BParts(w: nat, op: nat, rd: nat, f3: nat, rs1: nat, rs2: nat, f7: nat, imm: int)
    requires op < 0x80 && rd < 0x20 && f3 < 8 && rs1 < 0x20 && rs2 < 0x20 && f7 < 0x80
    requires w == EncodeR(op, rd, f3, rs1, rs2, f7) && rd == BranchLow(imm) && f7 == BranchHigh(imm)
    requires -0x1000 <= imm < 0x1000 && Even(imm)
    ensures Opcode(w) == op && Funct3(w) == f3 && Rs1(w) == rs1 && Rs2(w) == rs2 && ImmSB(w) == imm
  {
    FieldsOf(op, rd, f3, rs1, rs2, f7);
    BImm(w, imm);
  }

  lemma PartsOfRd(w: nat, high: nat, low: nat)
    requires Rd(w) == high * 2 + low && low < 2
    ensures w / 0x80 % 2 == low && w / 0x100 % 0x10 == high
  {
    var q := w / 0x80;
    assert w / 0x100 == q / 2;
  }

  lemma PartsOfFunct7(w: nat, high: nat, low: nat)
    requires Funct7(w) == high * 0x40 + low && low < 0x40
    ensures w / 0x200_0000 % 0x40 == low && w / 0x8000_0000 % 2 == high
  {
    var q := w / 0x200_0000;
    assert w / 0x8000_0000 == q / 0x40;
  }

  lemma BranchBits(imm: int)
    requires Even(imm)
    ensures imm % 0x2000
            == imm / 2 % 0x10 * 2 + imm / 0x20 % 0x40 * 0x20 + imm / 0x800 % 2 * 0x800 + imm / 0x1000 % 2 * 0x1000
  {
    Split(imm, 2, 0x10);
    Split(imm, 0x20, 0x40);
    Split(imm, 0x800, 2);
    Split(imm, 0x1000, 2);
  }

  lemma JFields(op: nat, rd: nat, imm: int)
    requires op < 0x80 && rd < 0x20 && -0x10_0000 <= imm < 0x10_0000 && Even(imm)
    ensures var w := EncodeJ(op, rd, imm);
      Opcode(w) == op && Rd(w) == rd && ImmUJ(w) == imm
  {
    var b19, b11, b10, b20 := imm / 0x1000 % 0x100, imm / 0x800 % 2, imm / 2 % 0x400, imm / 0x10_0000 % 2;
    var w := EncodeJ(op, rd, imm);
    Field(w, 0, 1, op, 0x80, rd + 0x20 * b19 + 0x2000 * b11 + 0x4000 * b10 + 0x100_0000 * b20);
    Field(w, op, 0x80, rd, 0x20, b19 + 0x100 * b11 + 0x200 * b10 + 0x8_0000 * b20);
    Field(w, op + 0x80 * rd, 0x1000, b19, 0x100, b11 + 2 * b10 + 0x800 * b20);
    Field(w, op + 0x80 * rd + 0x1000 * b19, 0x10_0000, b11, 2, b10 + 0x400 * b20);
    Field(w, op + 0x80 * rd + 0x1000 * b19 + 0x10_0000 * b11, 0x20_0000, b10, 0x400, b20);
    Field(w, op + 0x80 * rd + 0x1000 * b19 + 0x10_0000 * b11 + 0x20_0000 * b10, 0x8000_0000, b20, 2, 0);
    JumpBits(imm);
    SignExtends(0x10_0000, imm);
  }

  lemma JumpBits(imm: int)
    requires Even(imm)
    ensures imm % 0x20_0000
            == imm / 2 % 0x400 * 2 + imm / 0x800 % 2 * 0x800 + imm / 0x1000 % 0x100 * 0x1000
               + imm / 0x10_0000 % 2 * 0x10_0000
  {
    Split(imm, 2, 0x400);
    Split(imm, 0x800, 2);
    Split(imm, 0x1000, 0x100);
    Split(imm, 0x10_0000, 2);
  }

  lemma UFields(op: nat, rd: nat, imm: int)
    requires op < 0x80 && rd < 0x20 && -0x8000_0000 <= imm < 0x8000_0000 && imm % 0x1000 == 0
    ensures var w := EncodeU(op, rd, imm);
      Opcode(w) == op && Rd(w) == rd && ImmU(w) == imm
  {
    var u := imm / 0x1000 % 0x10_0000;
    var w := EncodeU(op, rd, imm);
    Field(w, 0, 1, op, 0x80, rd + 0x20 * u);
    Field(w, op, 0x80, rd, 0x20, u);
    Field(w, op + 0x80 * rd, 0x1000, u, 0x10_0000, 0);
    Split(imm, 0x1000, 0x10_0000);
    SignExtends(0x8000_0000, imm);
  }

  // ----- the instructions -----

  /** Opcode, funct3 and funct7 of the instructions on two registers. */
  function RCode(name: Name): Option<(nat, nat, nat)> {
    match name
    case Add => Some((0x33, 0, 0)) case Sub => Some((0x33, 0, 0x20)) case Sll => Some((0x33, 1, 0))
    case Slt => Some((0x33, 2, 0)) case Sltu => Some((0x33, 3, 0)) case Xor => Some((0x33, 4, 0))
    case Srl => Some((0x33, 5, 0)) case Sra => Some((0x33, 5, 0x20)) case Or => Some((0x33, 6, 0))
    case And => Some((0x33, 7, 0))
    case Addw => Some((0x3b, 0, 0)) case Subw => Some((0x3b, 0, 0x20)) case Sllw => Some((0x3b, 1, 0))
    case Srlw => Some((0x3b, 5, 0)) case Sraw => Some((0x3b, 5, 0x20))
    case _ => None
  }

  lemma RDecodes(name: Name, rd: Reg, rs1: Reg, rs2: Reg)
    requires RCode(name).Some?
    ensures var (op, f3, f7) := RCode(name).value;
      Decode(EncodeR(op, rd, f3, rs1, rs2, f7)) == Some(Decoded(name, RType, rs1, rs2, 0, rd, 0))
  {
    var (op, f3, f7) := RCode(name).value;
    FieldsOf(op, rd, f3, rs1, rs2, f7);
    RNamed(EncodeR(op, rd, f3, rs1, rs2, f7), name);
  }

  lemma RNamed(w: nat, name: Name)
    requires RCode(name) == Some((Opcode(w), Funct3(w), Funct7(w)))
    ensures NameOf(w) == Some((name, RType)) && !IsLoad(name)
  {
  }

  /** Opcode and funct3 of the instructions on a register and a 12-bit immediate. */
  function ICode(name: Name): Option<(nat, nat)> {
    match name
    case Addi => Some((0x13, 0)) case Slti => Some((0x13, 2)) case Sltiu => Some((0x13, 3))
    case Xori => Some((0x13, 4)) case Ori => Some((0x13, 6)) case Andi => Some((0x13, 7))
    case Addiw => Some((0x1b, 0)) case Jalr => Some((0x67, 0))
    case _ => None
  }

  lemma IDecodes(name: Name, rd: Reg, rs1: Reg, imm: int)
    requires ICode(name).Some? && -0x800 <= imm < 0x800
    ensures var (op, f3) := ICode(name).value;
      Decode(EncodeI(op, rd, f3, rs1, imm)) == Some(Decoded(name, IType, rs1, 0, imm, rd, 0))
  {
    var (op, f3) := ICode(name).value;
    IFields(op, rd, f3, rs1, imm);
  }

  function LoadCode(name: Name): Option<nat> {
    match name
    case Lb => Some(0) case Lh => Some(1) case Lw => Some(2) case Ld => Some(3)
    case Lbu => Some(4) case Lhu => Some(5) case Lwu => Some(6)
    case _ => None
  }

  lemma LoadDecodes(name: Name, rd: Reg, rs1: Reg, imm: int)
    requires LoadCode(name).Some? && -0x800 <= imm < 0x800
    ensures Decode(EncodeI(0x03, rd, LoadCode(name).value, rs1, imm)) == Some(Decoded(name, IType, rs1, 0, imm, 0, rd))
  {
    IFields(0x03, rd, LoadCode(name).value, rs1, imm);
  }

  function StoreCode(name: Name): Option<nat> {
    match name
    case Sb => Some(0) case Sh => Some(1) case Sw => Some(2) case Sd => Some(3)
    case _ => None
  }

  lemma StoreDecodes(name: Name, rs1: Reg, rs2: Reg, imm: int)
    requires StoreCode(name).Some? && -0x800 <= imm < 0x800
    ensures Decode(EncodeS(0x23, StoreCode(name).value, rs1, rs2, imm))
            == Some(Decoded(name, SType, rs1, rs2, imm, 0, 0))
  {
    FieldsOf(0x23, imm % 0x20, StoreCode(name).value, rs1, rs2, imm / 0x20 % 0x80);
    SImm(0x23, StoreCode(name).value, rs1, rs2, imm);
  }

  function BranchCode(name: Name): Option<nat> {
    match name
    case Beq => Some(0) case Bne => Some(1) case Blt => Some(4) case Bge => Some(5)
    case Bltu => Some(6) case Bgeu => Some(7)
    case _ => None
  }

  lemma BranchDecodes(name: Name, rs1: Reg, rs2: Reg, imm: int)
    requires BranchCode(name).Some? && -0x1000 <= imm < 0x1000 && Even(imm)
    ensures Decode(EncodeB(0x63, BranchCode(name).value, rs1, rs2, imm))
            == Some(Decoded(name, SBType, rs1, rs2, imm, 0, 0))
  {
    BFields(0x63, BranchCode(name).value, rs1, rs2, imm);
  }

  lemma UpperDecodes(rd: Reg, imm: int)
    requires -0x8000_0000 <= imm < 0x8000_0000 && imm % 0x1000 == 0
    ensures Decode(EncodeU(0x37, rd, imm)) == Some(Decoded(Lui, UType, 0, 0, imm, rd, 0))
    ensures Decode(EncodeU(0x17, rd, imm)) == Some(Decoded(Auipc, UType, 0, 0, imm, rd, 0))
  {
    UFields(0x37, rd, imm);
    UFields(0x17, rd, imm);
  }

  lemma JumpDecodes(rd: Reg, imm: int)
    requires -0x10_0000 <= imm < 0x10_0000 && Even(imm)
    ensures Decode(EncodeJ(0x6f, rd, imm)) == Some(Decoded(Jal, UJType, 0, 0, imm, rd, 0))
  {
    JFields(0x6f, rd, imm);
  }

  lemma CallDecodes()
    ensures Decode(0x73) == Some(Decoded(Ecall, RType, 0, 0, 0, 0, 0))
  {
  }

  /** A word of zeros in the opcode is the decoder's nop. */
  lemma NopDecodes(rd: Reg, f3: nat, rs1: Reg, rs2: Reg, f7: nat)
    requires f3 < 8 && f7 < 0x80
    ensures Decode(EncodeR(0, rd, f3, rs1, rs2, f7)) == Some(Decoded(Nop, RType, rs1, rs2, 0, rd, 0))
  {
    FieldsOf(0, rd, f3, rs1, rs2, f7);
  }

  /** The decoder gives up on a word exactly by its opcode and, for some opcodes, bits 12 to 14. */
  lemma UndecodedExact(w: nat)
    ensures var op, f3 := w % 0x80, w / 0x1000 % 8;
      Decode(w).None? <==>
      || op !in {0x00, 0x03, 0x13, 0x17, 0x1b, 0x23, 0x33, 0x37, 0x3b, 0x63, 0x67, 0x6f, 0x73}
      || (op == 0x63 && f3 in {2, 3})
      || (op == 0x03 && f3 == 7)
      || (op == 0x23 && f3 in {4, 5, 6, 7})
      || (op in {0x1b, 0x3b} && f3 in {2, 3, 4, 6, 7})
  {
  }

  // ----- shifts by a constant -----

  /** What stands where funct7 would be in a word with a shift amount. */
  lemma ShiftMark(imm: nat)
    requires imm < 0x800
    ensures imm % 0x1000 / 0x20 == imm / 0x20
    ensures imm < 0x20 ==> imm / 0x20 == 0
    ensures imm >= 0x20 ==> imm / 0x20 > 0
  {
    DivModUnique(imm, 0x1000, 0, imm);
  }

  lemma LeftShiftDecodes(rd: Reg, rs1: Reg, amount: nat)
    ensures amount < 64 ==>
      Decode(EncodeI(0x13, rd, 1, rs1, amount)) == Some(Decoded(Slli, IType, rs1, 0, amount, rd, 0))
    ensures amount < 32 ==>
      Decode(EncodeI(0x1b, rd, 1, rs1, amount)) == Some(Decoded(Slliw, IType, rs1, 0, amount, rd, 0))
  {
    if amount < 64 {
      IFields(0x13, rd, 1, rs1, amount);
      IFields(0x1b, rd, 1, rs1, amount);
    }
  }

  /** The two right shifts of each width are told apart by whether the immediate reaches 32. */
  lemma ShiftDecodes(rd: Reg, rs1: Reg, imm: nat)
    requires imm < 0x800
    ensures Decode(EncodeI(0x13, rd, 5, rs1, imm))
            == Some(Decoded(if imm < 0x20 then Srli else Srai, IType, rs1, 0, imm, rd, 0))
    ensures Decode(EncodeI(0x1b, rd, 5, rs1, imm))
            == Some(Decoded(if imm < 0x20 then Srliw else Sraiw, IType, rs1, 0, imm, rd, 0))
  {
    ShiftMark(imm);
    LongShift(rd, rs1, imm);
    WordShift(rd, rs1, imm);
  }

  lemma LongShift(rd: Reg, rs1: Reg, imm: nat)
    requires imm < 0x800
    ensures Decode(EncodeI(0x13, rd, 5, rs1, imm))
            == Some(Decoded(if imm % 0x1000 / 0x20 > 0 then Srai else Srli, IType, rs1, 0, imm, rd, 0))
  {
    IFields(0x13, rd, 5, rs1, imm);
  }

  lemma WordShift(rd: Reg, rs1: Reg, imm: nat)
    requires imm < 0x800
    ensures Decode(EncodeI(0x1b, rd, 5, rs1, imm))
            == Some(Decoded(if imm % 0x1000 / 0x20 == 0 then Srliw else Sraiw, IType, rs1, 0, imm, rd, 0))
  {
    IFields(0x1b, rd, 5, rs1, imm);
  }

  /** An arithmetic right shift keeps the bit that marks it, above the bits of its amount. */
  lemma ArithmeticShiftDecodes(rd: Reg, rs1: Reg, amount: nat)
    requires amount < 64
    ensures Decode(EncodeI(0x13, rd, 5, rs1, 0x400 + amount))
            == Some(Decoded(Srai, IType, rs1, 0, 0x400 + amount, rd, 0))
    ensures amount < 32 ==>
      Decode(EncodeI(0x1b, rd, 5, rs1, 0x400 + amount)) == Some(Decoded(Sraiw, IType, rs1, 0, 0x400 + amount, rd, 0))
  {
    ShiftDecodes(rd, rs1, 0x400 + amount);
  }

  /** The decoder takes a 64-bit logical right shift by 32 or more for an arithmetic one. */
  lemma LogicalShiftExact(rd: Reg, rs1: Reg, amount: nat)
    requires amount < 64
    ensures Decode(EncodeI(0x13, rd, 5, rs1, amount))
            == Some(Decoded(if amount < 32 then Srli else Srai, IType, rs1, 0, amount, rd, 0))
    ensures amount < 32 ==>
      Decode(EncodeI(0x1b, rd, 5, rs1, amount)) == Some(Decoded(Srliw, IType, rs1, 0, amount, rd, 0))
  {
    ShiftDecodes(rd, rs1, amount);
  }

  // ----- instructions the decoder does not know -----

  /** What a word with the opcode of the register instructions and funct7 1, a multiplication or
      division, is taken for: mul for sub, mulh for sll, div for xor, rem for or. */
  lemma MultiplyExact(rd: Reg, f3: nat, rs1: Reg, rs2: Reg)
    requires f3 < 8
    ensures Decode(EncodeR(0x33, rd, f3, rs1, rs2, 1))
            == Some(Decoded([Sub, Sll, Slt, Sltu, Xor, Sra, Or, And][f3], RType, rs1, rs2, 0, rd, 0))
  {
    FieldsOf(0x33, rd, f3, rs1, rs2, 1);
  }

  /** So the arithmetic unit's cases for these four are never reached. */
  lemma NeverMultiplies(w: nat)
    ensures Decode(w).Some? ==> var n := Decode(w).value.name; !n.Mul? && !n.Mulh? && !n.Div? && !n.Rem?
  {
  }
}
