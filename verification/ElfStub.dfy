/**
  The register-restore stub of the ELF dumper: a table of saved registers, instructions
  that load them back, and a hand-encoded JAL to the saved pc. A small RV64I interpreter,
  written from the RISC-V Unprivileged ISA manual (sections 2.3 and 2.5), runs it.
*/
module ElfStub {
  import opened Bytes
  import opened Options

  const STUB_SIZE: nat := 384
  const ENTRY_OFFSET: nat := 248
  const JUMP_OFFSET: nat := 380

  /** The literal instruction words of the dumper: auipc, addi, and one ld per register, a0 last. */
  const RESTORE: seq<nat> := [
    0x00000517, 0xf0050513, 0x00853083, 0x01053103, 0x01853183, 0x02053203, 0x02853283, 0x03053303, 0x03853383,
    0x04053403, 0x04853483, 0x05853583, 0x06053603, 0x06853683, 0x07053703, 0x07853783, 0x08053803, 0x08853883,
    0x09053903, 0x09853983, 0x0a053a03, 0x0a853a83, 0x0b053b03, 0x0b853b83, 0x0c053c03, 0x0c853c83, 0x0d053d03,
    0x0d853d83, 0x0e053e03, 0x0e853e83, 0x0f053f03, 0x0f853f83, 0x05053503]

  // ---------------------------------------------------------------- building the stub

  /** The words of `s`, each in `width` little-endian bytes. */
  function Words(s: seq<nat>, width: nat): seq<byte>
  {
    if s == [] then [] else Words(s[..|s| - 1], width) + Le(s[|s| - 1], width)
  }

  /** The JAL word for a 64-bit offset. The five fields occupy disjoint bits, so `|` is `+`. */
  function EncodeJal(offset: u64): nat {
    0x6f
    + (offset / 0x1000 % 0x100) * 0x1000
    + (offset / 0x800 % 2) * 0x10_0000
    + (offset / 2 % 0x400) * 0x20_0000
    + (offset / 0x10_0000 % 2) * 0x8000_0000
  }

  /** The dumper's guard: bits 63..21 all equal and bit 0 clear. Bit 20 is not looked at. */
  predicate OffsetAccepted(offset: u64) {
    && offset % 2 == 0
    && (offset / 0x20_0000 == 0 || offset / 0x20_0000 == 0x7FF_FFFF_FFFF)
  }

  /** The guard lets an even offset through if, as a signed number, it is within 2 MiB. */
  lemma {:induction false} GuardIff(offset: u64)
    ensures OffsetAccepted(offset) <==>
            offset % 2 == 0 && (offset < 0x20_0000 || offset >= 0x1_0000_0000_0000_0000 - 0x20_0000)
  {
  }

  /** The stub: table of x1..x31, code, jump. */
  function StubBytes(regs: seq<u64>, code: seq<nat>, jump: nat): seq<byte>
    requires |regs| == 32
  {
    Words(regs[1..], 8) + Words(code, 4) + Le(jump, 4)
  }

  function JumpOffset(start: nat, pc: u64): u64 {
    (pc - (start + JUMP_OFFSET)) % U64_LIMIT
  }

  /** Grow the register buffer as the dumper does; `None` is its "unexpected masked" error. */
  method BuildStub(regs: seq<u64>, pc: u64, start: nat) returns (r: Option<seq<byte>>)
    requires |regs| == 32
    ensures r.Some? <==> OffsetAccepted(JumpOffset(start, pc))
    ensures r.Some? ==> r.value == StubBytes(regs, RESTORE, EncodeJal(JumpOffset(start, pc)))
    ensures r.Some? ==> |r.value| == STUB_SIZE
  {
    r := BuildStubWith(regs, RESTORE, pc, start);
  }

  method BuildStubWith(regs: seq<u64>, code: seq<nat>, pc: u64, start: nat) returns (r: Option<seq<byte>>)
    requires |regs| == 32 && |code| == 33
    ensures r.Some? <==> OffsetAccepted(JumpOffset(start, pc))
    ensures r.Some? ==> r.value == StubBytes(regs, code, EncodeJal(JumpOffset(start, pc)))
    ensures r.Some? ==> |r.value| == STUB_SIZE
  {
    var buffer := PutWords([], regs[1..], 8);
    buffer := PutWords(buffer, code, 4);
    assert buffer == Words(regs[1..], 8) + Words(code, 4);
    BeforeJump(regs, code);
    var jumpPc := start + |buffer|;
    var offset := (pc - jumpPc) % U64_LIMIT;
    if !OffsetAccepted(offset) {
      return None;
    }
    return Some(buffer + Le(EncodeJal(offset), 4));
  }

  lemma {:induction false} BeforeJump(regs: seq<u64>, code: seq<nat>)
    requires |regs| == 32 && |code| == 33
    ensures |Words(regs[1..], 8)| + |Words(code, 4)| == JUMP_OFFSET
  {
    WordsLength(regs[1..], 8);
    WordsLength(code, 4);
  }

  method PutWords(buffer: seq<byte>, s: seq<nat>, width: nat) returns (r: seq<byte>)
    ensures r == buffer + Words(s, width)
  {
    r := buffer;
    for i := 0 to |s|
      invariant r == buffer + Words(s[..i], width)
    {
      assert s[..i + 1][..i] == s[..i];
      r := r + Le(s[i], width);
    }
    assert s[..|s|] == s;
  }

  lemma {:induction false} WordsLength(s: seq<nat>, width: nat)
    requires width == 4 || width == 8
    ensures |Words(s, width)| == width * |s|
  {
    if s != [] {
      WordsLength(s[..|s| - 1], width);
    }
  }

  lemma {:induction false} WordsAt(s: seq<nat>, width: nat, k: nat)
    requires width == 4 || width == 8
    requires k < |s|
    ensures |Words(s, width)| == width * |s|
    ensures Words(s, width)[width * k..width * k + width] == Le(s[k], width)
  {
    WordsLength(s, width);
    WordsLength(s[..k], width);
    var rest := WordsSplit(s, width, k);
    Middle(Words(s[..k], width), Le(s[k], width), rest);
  }

  predicate SplitsAt(s: seq<nat>, width: nat, k: nat, rest: seq<byte>)
    requires k < |s|
  {
    Words(s, width) == Words(s[..k], width) + Le(s[k], width) + rest
  }

  lemma {:induction false} WordsSplit(s: seq<nat>, width: nat, k: nat) returns (rest: seq<byte>)
    requires k < |s|
    ensures SplitsAt(s, width, k, rest)
  {
    var n := |s| - 1;
    assert s == s[..n] + [s[n]];
    if k < n {
      rest := WordsSplit(s[..n], width, k);
      SplitSnoc(s[..n], s[n], width, k, rest);
      rest := rest + Le(s[n], width);
    } else {
      rest := [];
    }
  }

  lemma {:induction false} SplitSnoc(init: seq<nat>, x: nat, width: nat, k: nat, rest: seq<byte>)
    requires k < |init| && SplitsAt(init, width, k, rest)
    ensures SplitsAt(init + [x], width, k, rest + Le(x, width))
  {
    var s := init + [x];
    assert s[..|s| - 1] == init && s[..k] == init[..k];
    Regroup(Words(init[..k], width) + Le(init[k], width), rest, Le(x, width));
  }

  lemma {:induction false} Regroup(a: seq<byte>, b: seq<byte>, c: seq<byte>)
    ensures a + b + c == a + (b + c)
  {
  }

  lemma {:induction false} Middle(a: seq<byte>, b: seq<byte>, c: seq<byte>)
    ensures (a + b + c)[|a|..|a| + |b|] == b
  {
  }

  // ---------------------------------------------------------------- interpreter

  datatype Instruction =
    | Auipc(rd: nat, imm: int)
    | Addi(rd: nat, rs1: nat, imm: int)
    | Ld(rd: nat, rs1: nat, imm: int)
    | Jal(rd: nat, imm: int)

  datatype Cpu = Cpu(regs: seq<u64>, pc: u64)

  /** `x` read as a two's complement number below `limit`. */
  function Signed(x: nat, limit: nat): int {
    if 2 * x < limit then x else x - limit
  }

  function ImmI(w: nat): int { Signed(w / 0x10_0000 % 0x1000, 0x1000) }

  function ImmU(w: nat): int { Signed(w / 0x1000 % 0x10_0000, 0x10_0000) * 0x1000 }

  function ImmJ(w: nat): int {
    Signed(
      (w / 0x20_0000 % 0x400) * 2 + (w / 0x10_0000 % 2) * 0x800
      + (w / 0x1000 % 0x100) * 0x1000 + (w / 0x8000_0000 % 2) * 0x10_0000,
      0x20_0000)
  }

  function Decode(w: nat): Option<Instruction> {
    var opcode, rd, funct3, rs1 := w % 0x80, w / 0x80 % 32, w / 0x1000 % 8, w / 0x8000 % 32;
    if opcode == 0x17 then Some(Auipc(rd, ImmU(w)))
    else if opcode == 0x13 && funct3 == 0 then Some(Addi(rd, rs1, ImmI(w)))
    else if opcode == 0x03 && funct3 == 3 then Some(Ld(rd, rs1, ImmI(w)))
    else if opcode == 0x6f then Some(Jal(rd, ImmJ(w)))
    else None
  }

  function Wrap(x: int): u64 { x % U64_LIMIT }

  function SetReg(regs: seq<u64>, rd: nat, v: u64): seq<u64>
    requires |regs| == 32 && rd < 32
  {
    if rd == 0 then regs else regs[rd := v]
  }

  predicate LegalRegisters(i: Instruction) {
    i.rd < 32 && (i.Addi? || i.Ld? ==> i.rs1 < 32)
  }

  /** Execute one instruction; `None` is a trap. */
  function Execute(mem: seq<byte>, c: Cpu, i: Instruction): Option<Cpu>
    requires |c.regs| == 32
  {
    if !LegalRegisters(i) then None
    else
      match i
      case Auipc(rd, imm) => Some(Cpu(SetReg(c.regs, rd, Wrap(c.pc + imm)), Wrap(c.pc + 4)))
      case Addi(rd, rs1, imm) => Some(Cpu(SetReg(c.regs, rd, Wrap(c.regs[rs1] + imm)), Wrap(c.pc + 4)))
      case Ld(rd, rs1, imm) =>
        var addr := Wrap(c.regs[rs1] + imm);
        if addr + 8 > |mem| then None
        else Some(Cpu(SetReg(c.regs, rd, Wrap(FromLe(mem[addr..addr + 8]))), Wrap(c.pc + 4)))
      case Jal(rd, imm) => Some(Cpu(SetReg(c.regs, rd, Wrap(c.pc + 4)), Wrap(c.pc + imm)))
  }

  /** The instruction a memory holds at each pc. */
  function Fetcher(mem: seq<byte>): nat -> Option<Instruction> {
    (pc: nat) => if pc + 4 > |mem| then None else Decode(FromLe(mem[pc..pc + 4]))
  }

  /** Fetch and execute `steps` instructions. */
  function Run(fetch: nat -> Option<Instruction>, mem: seq<byte>, c: Cpu, steps: nat): (r: Option<Cpu>)
    requires |c.regs| == 32
    ensures r.Some? ==> |r.value.regs| == 32
  {
    if steps == 0 then Some(c)
    else
      var before := Run(fetch, mem, c, steps - 1);
      if before.None? || fetch(before.value.pc).None? then None
      else Execute(mem, before.value, fetch(before.value.pc).value)
  }
}
