/** What each instruction does to program counter, registers and memory in the interpreter, instruction
    by instruction, in numbers of bytes and addresses. What the pipeline does is related to it in
    Refinement.dfy. */
module Instructions {
  import opened Words
  import opened Isa
  import opened Sequential
  import D = Division

  // ----- numbers -----

  /** A 64-bit word as a signed number. */
  function ToSigned(w: Word): int {
    if w < 0x8000_0000_0000_0000 then w else w - 0x1_0000_0000_0000_0000
  }

  /** The values n bytes can hold. */
  function Span(n: nat): nat
    requires n in {1, 2, 4, 8}
  {
    if n == 1 then 0x100 else if n == 2 then 0x1_0000 else if n == 4 then 0x1_0000_0000 else 0x1_0000_0000_0000_0000
  }

  lemma {:induction false} LoadBelow(mem: Mem, a: int, n: nat)
    ensures n == 1 ==> LoadBytes(mem, a, n) < 0x100
    ensures n == 2 ==> LoadBytes(mem, a, n) < 0x1_0000
    ensures n == 4 ==> LoadBytes(mem, a, n) < 0x1_0000_0000
    ensures n == 8 ==> LoadBytes(mem, a, n) < 0x1_0000_0000_0000_0000
  {
    LoadBelowPower(mem, a, n);
    PowersOf256();
  }

  function Power256(n: nat): (r: nat)
    ensures r > 0
  {
    if n == 0 then 1 else 256 * Power256(n - 1)
  }

  lemma PowersOf256()
    ensures Power256(1) == 0x100 && Power256(2) == 0x1_0000 && Power256(4) == 0x1_0000_0000
    ensures Power256(8) == 0x1_0000_0000_0000_0000
  {
    assert Power256(4) == 256 * Power256(3) && Power256(3) == 256 * Power256(2);
    assert Power256(6) == 256 * Power256(5) && Power256(5) == 256 * Power256(4);
    assert Power256(8) == 256 * Power256(7) && Power256(7) == 256 * Power256(6);
  }

  lemma {:induction false} LoadBelowPower(mem: Mem, a: int, n: nat)
    ensures LoadBytes(mem, a, n) < Power256(n)
    decreases n
  {
    if n > 0 {
      LoadBelowPower(mem, a + 1, n - 1);
    }
  }

  // ----- loads -----

  /** A word that stands for the signed number which n bytes of value v mean. */
  predicate Means(w: Word, v: nat, n: nat)
    requires n in {1, 2, 4, 8}
  {
    -(Span(n) as int) <= 2 * ToSigned(w) < Span(n) && (ToSigned(w) - v) % Span(n) == 0
  }

  predicate LoadsSigned(d: Decoded, n: nat) {
    (d.name.Lb? && n == 1) || (d.name.Lh? && n == 2) || (d.name.Lw? && n == 4)
  }

  predicate LoadsPlain(d: Decoded, n: nat) {
    (d.name.Lbu? && n == 1) || (d.name.Lhu? && n == 2) || (d.name.Lwu? && n == 4) || (d.name.Ld? && n == 8)
  }

  lemma Wrapped(x: int)
    ensures -0x8000_0000_0000_0000 <= x < 0x8000_0000_0000_0000 ==> ToSigned(Wrap(x)) == x
    ensures 0 <= x < 0x1_0000_0000_0000_0000 ==> Wrap(x) == x
  {
    if 0 <= x < TWO64 {
      D.DivModUnique(x, TWO64, 0, x);
    } else if -TWO64 <= x < 0 {
      D.DivModUnique(x, TWO64, -1, x + TWO64);
    }
  }

  /** Sign extension from the highest bit of n bytes. */
  lemma ExtendedMeans(v: nat, n: nat)
    requires n in {1, 2, 4} && v < Span(n)
    ensures Means(Wrap(if 2 * v >= Span(n) then v - Span(n) else v), v, n)
  {
    var s: int := if 2 * v >= Span(n) then v - Span(n) else v;
    Wrapped(s);
    D.DivModUnique(s - v, Span(n), if 2 * v >= Span(n) then -1 else 0, 0);
  }

  lemma SignedRead(d: Decoded, mem: Mem, a: Word, n: nat)
    requires LoadsSigned(d, n)
    ensures var v := LoadBytes(mem, a, n);
      MemRead(d, mem, a) == Wrap(if 2 * v >= Span(n) then v - Span(n) else v)
  {
  }

  lemma PlainRead(d: Decoded, mem: Mem, a: Word, n: nat)
    requires LoadsPlain(d, n)
    ensures MemRead(d, mem, a) == Wrap(LoadBytes(mem, a, n))
  {
  }

  lemma LoadedSigned(d: Decoded, mem: Mem, a: Word, n: nat)
    requires LoadsSigned(d, n)
    ensures Means(MemRead(d, mem, a), LoadBytes(mem, a, n), n)
  {
    LoadBelow(mem, a, n);
    SignedRead(d, mem, a, n);
    ExtendedMeans(LoadBytes(mem, a, n), n);
  }

  lemma LoadedPlain(d: Decoded, mem: Mem, a: Word, n: nat)
    requires LoadsPlain(d, n)
    ensures MemRead(d, mem, a) == LoadBytes(mem, a, n)
  {
    LoadBelow(mem, a, n);
    PlainRead(d, mem, a, n);
    Wrapped(LoadBytes(mem, a, n));
  }

  function AddressOf(r: Run, k: nat): Word {
    var s := r.at(k);
    Wrap(s.regs[DecodeAt(r.isa, s).srcA] + DecodeAt(r.isa, s).imm)
  }

  /** A load of n bytes from rs1 + imm: its target register holds their value, sign-extended or
      plain; memory and the other registers stay, and the next word follows. */
  lemma LoadLaw(r: Run, k: nat, n: nat)
    requires IsRun(r) && WellFormed(r.isa)
    requires LoadsSigned(DecodeAt(r.isa, r.at(k)), n) || LoadsPlain(DecodeAt(r.isa, r.at(k)), n)
    ensures var s, t := r.at(k), r.at(k + 1); var d, v := DecodeAt(r.isa, s), LoadBytes(s.mem, AddressOf(r, k), n);
      && t.mem == s.mem && t.pc == Wrap(s.pc + 4) && t.ecalls == s.ecalls
      && (d.dstM != 0 && LoadsSigned(d, n) ==> Means(t.regs[d.dstM], v, n))
      && (d.dstM != 0 && LoadsPlain(d, n) ==> t.regs[d.dstM] == v)
      && forall x: Reg :: x != d.dstM || x == 0 ==> t.regs[x] == s.regs[x]
  {
    var d, mem, a := DecodeAt(r.isa, r.at(k)), r.at(k).mem, AddressOf(r, k);
    LoadStep(r, k);
    if LoadsSigned(d, n) {
      LoadedSigned(d, mem, a, n);
    } else {
      LoadedPlain(d, mem, a, n);
    }
  }

  lemma LoadStep(r: Run, k: nat)
    requires IsRun(r) && WellFormed(r.isa) && IsLoad(DecodeAt(r.isa, r.at(k)).name)
    ensures var s, t := r.at(k), r.at(k + 1); var d := DecodeAt(r.isa, s);
      && t.mem == s.mem && t.pc == Wrap(s.pc + 4) && t.ecalls == s.ecalls
      && (d.dstM != 0 ==> t.regs[d.dstM] == MemRead(d, s.mem, AddressOf(r, k)))
      && forall x: Reg :: x != d.dstM || x == 0 ==> t.regs[x] == s.regs[x]
  {
    FieldsFor(r, k);
    SeqRegs(r, k);
    SeqMem(r, k);
    SeqPC(r, k);
  }

  lemma FieldsFor(r: Run, k: nat)
    requires WellFormed(r.isa)
    ensures var d := DecodeAt(r.isa, r.at(k)); DecodesTo(d)
  {
    var w := FetchWord(r.at(k).mem, r.at(k).pc);
    assert DecodesOk(r.isa, w);
  }

  /** What a well-formed decoder says of the fields. */
  predicate DecodesTo(d: Decoded) {
    && (d.kind.SBType? ==> d.dstE == 0 && !d.name.Jal? && !d.name.Jalr? && !d.name.Ecall?)
    && (if IsLoad(d.name) then d.dstE == 0 && !d.kind.SBType? else d.dstM == 0)
    && (IsStore(d.name) ==> d.kind.SType? && d.dstE == 0)
  }

  // ----- stores -----

  predicate Stores(d: Decoded, n: nat) {
    (d.name.Sb? && n == 1) || (d.name.Sh? && n == 2) || (d.name.Sw? && n == 4) || (d.name.Sd? && n == 8)
  }

  /** Memory t is s with n bytes at a that have the value v. */
  ghost predicate Holds(s: Mem, t: Mem, a: Word, n: nat, v: nat) {
    && t.Keys == s.Keys && LoadBytes(t, a, n) == v
    && forall x: int :: x in s && !(a <= x < a + n) ==> t[x] == s[x]
  }

  lemma {:induction false} StoredReads(mem: Mem, a: int, n: nat, v: nat)
    ensures LoadBytes(StoreBytes(mem, a, n, v), a, n) == v % Power256(n)
    ensures forall x: int :: x < a || a + n <= x ==>
      (x in StoreBytes(mem, a, n, v) <==> x in mem) && (x in mem ==> StoreBytes(mem, a, n, v)[x] == mem[x])
    decreases n
  {
    if n > 0 {
      var m := mem[a := v % 256];
      StoredReads(m, a + 1, n - 1, v / 256);
      assert StoreBytes(mem, a, n, v)[a] == v % 256;
      SplitPower(v, Power256(n - 1));
    }
  }

  lemma SplitPower(v: nat, p: nat)
    requires p > 0
    ensures v % (256 * p) == v % 256 + 256 * (v / 256 % p)
  {
    var q := v / 256;
    assert v == 256 * q + v % 256 && q == q / p * p + q % p;
    var r := v % 256 + 256 * (q % p);
    assert v == q / p * (256 * p) + r;
    D.DivModUnique(v, 256 * p, q / p, r);
  }

  lemma StoredIn(mem: Mem, a: Word, n: nat, v: Word)
    requires n in {1, 2, 4, 8} && CanAccess(mem, a, n)
    ensures Holds(mem, StoreBytes(mem, a, n, v), a, n, v % Span(n))
  {
    StoreKeepsKeys(mem, a, n, v);
    StoredReads(mem, a, n, v);
    PowersOf256();
  }

  /** A store of n bytes at rs1 + imm that does not fault: there the value of rs2 modulo what n bytes
      hold, everywhere else and in the registers what was there. */
  lemma StoreLaw(r: Run, k: nat, n: nat)
    requires IsRun(r) && WellFormed(r.isa) && Stores(DecodeAt(r.isa, r.at(k)), n)
    requires CanAccess(r.at(k).mem, AddressOf(r, k), n)
    ensures var s, t := r.at(k), r.at(k + 1); var d := DecodeAt(r.isa, s);
      && t.regs == s.regs && t.pc == Wrap(s.pc + 4) && t.ecalls == s.ecalls
      && Holds(s.mem, t.mem, AddressOf(r, k), n, s.regs[d.srcB] % Span(n))
  {
    var s := r.at(k);
    StoreStep(r, k, n);
    StoredIn(s.mem, AddressOf(r, k), n, s.regs[DecodeAt(r.isa, s).srcB]);
  }

  lemma StoreStep(r: Run, k: nat, n: nat)
    requires IsRun(r) && WellFormed(r.isa) && Stores(DecodeAt(r.isa, r.at(k)), n)
    requires CanAccess(r.at(k).mem, AddressOf(r, k), n)
    ensures var s, t := r.at(k), r.at(k + 1); var d := DecodeAt(r.isa, s);
      && t.regs == s.regs && t.pc == Wrap(s.pc + 4) && t.ecalls == s.ecalls
      && t.mem == StoreBytes(s.mem, AddressOf(r, k), n, s.regs[d.srcB])
  {
    FieldsFor(r, k);
    SeqRegs(r, k);
    SeqMem(r, k);
    SeqPC(r, k);
  }

  /** A store and a load of the same size at the same address, one after the other. */
  lemma StoreThenLoad(r: Run, k: nat, n: nat)
    requires IsRun(r) && WellFormed(r.isa) && Stores(DecodeAt(r.isa, r.at(k)), n)
    requires LoadsSigned(DecodeAt(r.isa, r.at(k + 1)), n) || LoadsPlain(DecodeAt(r.isa, r.at(k + 1)), n)
    requires CanAccess(r.at(k).mem, AddressOf(r, k), n) && AddressOf(r, k + 1) == AddressOf(r, k)
    requires DecodeAt(r.isa, r.at(k + 1)).dstM != 0
    ensures var v := r.at(k).regs[DecodeAt(r.isa, r.at(k)).srcB] % Span(n); var d := DecodeAt(r.isa, r.at(k + 1));
      && (LoadsPlain(d, n) ==> r.at(k + 2).regs[d.dstM] == v)
      && (LoadsSigned(d, n) ==> Means(r.at(k + 2).regs[d.dstM], v, n))
  {
    StoreLaw(r, k, n);
    LoadLaw(r, k + 1, n);
  }

  /** Loads and stores fault exactly where some byte is not mapped or the access crosses a line of 64
      bytes; other instructions only where they cannot be fetched and decoded. */
  lemma FaultLaw(r: Run, k: nat, n: nat)
    requires WellFormed(r.isa)
    ensures var s := r.at(k); var d := DecodeAt(r.isa, s); var a := AddressOf(r, k);
      LoadsSigned(d, n) || LoadsPlain(d, n) || Stores(d, n) ==>
      (Execute(r.isa, r.env, s).Faulted? <==>
       || !Fetchable(r, k) || a % 64 + n > 64 || exists x :: a <= x < a + n && x !in s.mem)
    ensures var s := r.at(k); var d := DecodeAt(r.isa, s);
      !IsLoad(d.name) && !IsStore(d.name) && !d.name.Ecall? ==>
      (Execute(r.isa, r.env, s).Faulted? <==> !Fetchable(r, k))
  {
    var s := r.at(k);
    var d, a := DecodeAt(r.isa, s), AddressOf(r, k);
    if LoadsSigned(d, n) || LoadsPlain(d, n) || Stores(d, n) {
      FieldsFor(r, k);
      assert ValE(r.isa, s) == a;
    }
  }

  /** The four bytes of the word are mapped, in one line, and it decodes. */
  predicate Fetchable(r: Run, k: nat) {
    var s := r.at(k);
    && s.pc % 64 + 4 <= 64 && (forall x | s.pc <= x < s.pc + 4 :: x in s.mem)
    && r.isa.decode(FetchWord(s.mem, s.pc)).Some?
  }

  // ----- jumps and branches -----

  /** A call leaves the address of the next word in its target register. */
  lemma LinkLaw(r: Run, k: nat)
    requires IsRun(r) && WellFormed(r.isa)
    ensures var s, t := r.at(k), r.at(k + 1); var d := DecodeAt(r.isa, s);
      d.name.Jal? || d.name.Jalr? ==>
      && t.mem == s.mem && (d.dstE != 0 ==> t.regs[d.dstE] == Wrap(s.pc + 4))
      && forall x: Reg :: x != d.dstE || x == 0 ==> t.regs[x] == s.regs[x]
  {
    FieldsFor(r, k);
    assert Chained(r, k);
  }

  /** jal goes to pc + imm, jalr to rs1 + imm with the lowest bit cleared. */
  lemma JumpLaw(r: Run, k: nat)
    requires IsRun(r)
    ensures var s, t := r.at(k), r.at(k + 1); var d := DecodeAt(r.isa, s);
      && (d.name.Jal? ==> t.pc == Wrap(s.pc + d.imm))
      && (d.name.Jalr? ==> t.pc % 2 == 0 && 0 <= AddressOf(r, k) - t.pc <= 1)
  {
    SeqPC(r, k);
  }

  /** A jalr through a link register goes to the word behind the call. */
  lemma ReturnLaw(r: Run, k: nat, m: nat)
    requires IsRun(r) && WellFormed(r.isa)
    requires var d := DecodeAt(r.isa, r.at(k)); (d.name.Jal? || d.name.Jalr?) && d.dstE != 0 && r.at(k).pc % 2 == 0
    requires var d, e := DecodeAt(r.isa, r.at(k)), DecodeAt(r.isa, r.at(m));
      e.name.Jalr? && e.srcA == d.dstE && e.imm == 0 && r.at(m).regs[d.dstE] == r.at(k + 1).regs[d.dstE]
    ensures r.at(m + 1).pc == Wrap(r.at(k).pc + 4)
  {
    LinkLaw(r, k);
    JumpLaw(r, m);
  }

  /** A branch goes to pc + imm or to the next word, by what the comparator says of rs1 and rs2. */
  lemma BranchLaw(r: Run, k: nat)
    requires IsRun(r) && WellFormed(r.isa) && DecodeAt(r.isa, r.at(k)).kind.SBType?
    ensures var s, t := r.at(k), r.at(k + 1); var d := DecodeAt(r.isa, s);
      && t.regs == s.regs && t.mem == s.mem
      && t.pc == Wrap(s.pc + if r.isa.taken(d.name, s.regs[d.srcA], s.regs[d.srcB]) then d.imm else 4)
  {
    FieldsFor(r, k);
    assert Chained(r, k);
  }

  // ----- arithmetic and calls -----

  predicate Computes(d: Decoded) {
    !IsLoad(d.name) && !IsStore(d.name) && !d.name.Jal? && !d.name.Jalr? && !d.kind.SBType? && !d.name.Ecall?
  }

  /** Everything else puts what the arithmetic unit makes of rs1, rs2 and imm into its target. */
  lemma ComputeLaw(r: Run, k: nat)
    requires IsRun(r) && WellFormed(r.isa) && Computes(DecodeAt(r.isa, r.at(k)))
    ensures var s, t := r.at(k), r.at(k + 1); var d := DecodeAt(r.isa, s);
      && t.mem == s.mem && t.pc == Wrap(s.pc + 4)
      && (d.dstE != 0 ==> t.regs[d.dstE] == r.isa.alu(d.name, s.pc, s.regs[d.srcA], s.regs[d.srcB], d.imm))
      && forall x: Reg :: x != d.dstE || x == 0 ==> t.regs[x] == s.regs[x]
  {
    FieldsFor(r, k);
    assert Chained(r, k);
  }

  /** System calls, by register 17: 93 exits, 91 has no behaviour, 92 puts an input into register 10;
      any other changes nothing. */
  lemma CallLaw(r: Run, k: nat)
    requires IsRun(r) && WellFormed(r.isa) && DecodeAt(r.isa, r.at(k)).name.Ecall? && Fetchable(r, k)
    ensures var s, t := r.at(k), r.at(k + 1);
      && (Execute(r.isa, r.env, s).Exited? <==> s.regs[17] == 93)
      && (Execute(r.isa, r.env, s).Faulted? <==> s.regs[17] == 91)
      && t.mem == s.mem && t.pc == Wrap(s.pc + 4) && t.ecalls == s.ecalls + 1
      && (s.regs[17] == 92 ==> t.regs[10] == r.env.input(s.ecalls))
      && forall x: Reg :: x != 10 || s.regs[17] != 92 ==> t.regs[x] == s.regs[x]
  {
    FieldsFor(r, k);
    assert Chained(r, k);
  }
}
