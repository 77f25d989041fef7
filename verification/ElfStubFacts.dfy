/**
  Running the stub restores every saved register, and jumps to the saved pc exactly when
  the offset fits the signed 21 bits of a JAL.
*/
module ElfStubFacts {
  import opened Bytes
  import opened Options
  import opened ElfStub

  // ---------------------------------------------------------------- the jump

  /** The offset, read as a signed number, fits the JAL immediate. */
  predicate InReach(offset: u64) {
    offset < 0x10_0000 || U64_LIMIT - 0x10_0000 <= offset
  }

  lemma {:induction false} JalFields(offset: u64)
    requires offset % 2 == 0
    ensures var w := EncodeJal(offset);
            w < U32_LIMIT && Decode(w) == Some(Jal(0, Signed(offset % 0x20_0000, 0x20_0000)))
  {
    FieldsOfWord(offset / 0x1000 % 0x100, offset / 0x800 % 2, offset / 2 % 0x400, offset / 0x10_0000 % 2);
    LowBits(offset);
  }

  lemma {:induction false} NoMultipleBetween(k: int, radix: nat)
    requires -(radix as int) < k * radix < radix
    ensures k == 0
  {
  }

  lemma {:induction false} Euclid(x: nat, d: nat)
    requires d > 0
    ensures x == x / d * d + x % d && x % d < d
  {
  }

  /** Digits in a mixed radix: the low one and the rest. */
  lemma {:induction false} Digits(high: nat, low: nat, radix: nat)
    requires low < radix
    ensures (high * radix + low) / radix == high && (high * radix + low) % radix == low
  {
    var x := high * radix + low;
    var q, r := x / radix, x % radix;
    assert x == q * radix + r by { Euclid(x, radix); }
    var k := q - high;
    assert k * radix == q * radix - high * radix;
    NoMultipleBetween(k, radix);
  }

  /** The four immediate fields of a JAL word are read back from where they were put. */
  lemma {:induction false} FieldsOfWord(hi: nat, b11: nat, lo: nat, b20: nat)
    requires hi < 0x100 && b11 < 2 && lo < 0x400 && b20 < 2
    ensures var w := 0x6f + hi * 0x1000 + b11 * 0x10_0000 + lo * 0x20_0000 + b20 * 0x8000_0000;
            w < U32_LIMIT
            && Decode(w) == Some(Jal(0, Signed(lo * 2 + b11 * 0x800 + hi * 0x1000 + b20 * 0x10_0000, 0x20_0000)))
  {
    var w := 0x6f + hi * 0x1000 + b11 * 0x10_0000 + lo * 0x20_0000 + b20 * 0x8000_0000;
    WordFields(w, hi, b11, lo, b20);
    WordOpcode(w, hi, b11 + 2 * lo + 0x800 * b20);
  }

  lemma {:induction false} WordFields(w: nat, hi: nat, b11: nat, lo: nat, b20: nat)
    requires hi < 0x100 && b11 < 2 && lo < 0x400 && b20 < 2
    requires w == 0x6f + hi * 0x1000 + b11 * 0x10_0000 + lo * 0x20_0000 + b20 * 0x8000_0000
    ensures w / 0x20_0000 % 0x400 == lo && w / 0x10_0000 % 2 == b11
    ensures w / 0x1000 % 0x100 == hi && w / 0x8000_0000 % 2 == b20
  {
    var tail12 := 0x6f;
    var tail20 := tail12 + hi * 0x1000;
    var tail21 := tail20 + b11 * 0x10_0000;
    var tail31 := tail21 + lo * 0x20_0000;
    Digits(b20, tail31, 0x8000_0000);
    Digits(lo + 0x400 * b20, tail21, 0x20_0000);
    Digits(b20, lo, 0x400);
    Digits(b11 + 2 * (lo + 0x400 * b20), tail20, 0x10_0000);
    Digits(lo + 0x400 * b20, b11, 2);
    Digits(hi + 0x100 * (b11 + 2 * (lo + 0x400 * b20)), tail12, 0x1000);
    Digits(b11 + 2 * (lo + 0x400 * b20), hi, 0x100);
  }

  lemma {:induction false} WordOpcode(w: nat, hi: nat, top: nat)
    requires w == 0x6f + hi * 0x1000 + top * 0x10_0000
    ensures w % 0x80 == 0x6f && w / 0x80 % 32 == 0
  {
    var rest := hi + top * 0x100;
    Digits(32 * rest, 0x6f, 0x80);
    Digits(rest, 0, 32);
  }

  /** An even offset's low 21 bits, field by field. */
  lemma {:induction false} LowBits(offset: u64)
    requires offset % 2 == 0
    ensures offset % 0x20_0000
            == (offset / 2 % 0x400) * 2 + (offset / 0x800 % 2) * 0x800
               + (offset / 0x1000 % 0x100) * 0x1000 + (offset / 0x10_0000 % 2) * 0x10_0000
  {
    var a, a0 := offset / 2, offset / 2 % 0x400;
    var b, b0 := a / 0x400, a / 0x400 % 2;
    var c, c0 := b / 2, b / 2 % 0x100;
    var d, d0 := c / 0x100, c / 0x100 % 2;
    Quotients(offset);
    var low := a0 * 2 + b0 * 0x800 + c0 * 0x1000 + d0 * 0x10_0000;
    assert offset == 2 * a && a == 0x400 * b + a0 && b == 2 * c + b0 && c == 0x100 * d + c0 && d == 2 * (d / 2) + d0;
    Digits(d / 2, low, 0x20_0000);
  }

  /** Dividing in steps is dividing at once. */
  lemma {:induction false} Quotients(n: nat)
    ensures n / 2 / 0x400 == n / 0x800 && n / 0x800 / 2 == n / 0x1000 && n / 0x1000 / 0x100 == n / 0x10_0000
  {
    DivideTwice(n, 2, 0x400);
    DivideTwice(n, 0x800, 2);
    DivideTwice(n, 0x1000, 0x100);
  }

  lemma {:induction false} DivideTwice(n: nat, a: nat, b: nat)
    requires a > 0 && b > 0 && a * b > 0
    ensures n / a / b == n / (a * b)
  {
    var q := n / a;
    var r, s, t := q / b, q % b, n % a;
    Euclid(n, a);
    Euclid(q, b);
    Nested(r, s, t, a, b);
    Digits(r, s * a + t, a * b);
  }

  lemma {:induction false} Nested(r: nat, s: nat, t: nat, a: nat, b: nat)
    requires s < b && t < a
    ensures (r * b + s) * a + t == r * (a * b) + (s * a + t) && s * a + t < a * b
  {
    assert (r * b + s) * a == (r * b) * a + s * a;
    assert (r * b) * a == r * (a * b);
    Grows(s + 1, b, a);
    assert (s + 1) * a == s * a + a;
  }

  lemma {:induction false} Grows(a: nat, b: nat, c: nat)
    requires a <= b
    ensures a * c <= c * b
  {
  }

  /** The decoded jump lands on `pc + offset`, for every offset the dumper accepts, iff it is in reach. */
  lemma {:induction false} JalRoundTripIff(pc: u64, offset: u64)
    requires OffsetAccepted(offset)
    ensures exists imm ::
              && Decode(EncodeJal(offset)) == Some(Jal(0, imm))
              && (Wrap(pc + imm) == Wrap(pc + offset) <==> InReach(offset))
  {
    var imm := Signed(offset % 0x20_0000, 0x20_0000);
    JalFields(offset);
    JalLands(pc, offset);
    assert Decode(EncodeJal(offset)) == Some(Jal(0, imm));
  }

  /** A machine stopped 1 MiB above its stub passes the guard, and its dump jumps 1 MiB below instead. */
  lemma {:induction false} GuardTooWide()
    ensures OffsetAccepted(0x10_0000) && !InReach(0x10_0000)
    ensures Decode(EncodeJal(0x10_0000)) == Some(Jal(0, -0x10_0000))
  {
    JalFields(0x10_0000);
  }

  lemma {:induction false} JalLands(pc: u64, offset: u64)
    requires OffsetAccepted(offset)
    ensures Wrap(pc + Signed(offset % 0x20_0000, 0x20_0000)) == Wrap(pc + offset) <==> InReach(offset)
  {
    SignedLowBits(offset);
    WrapEqual(pc, Signed(offset % 0x20_0000, 0x20_0000), offset);
  }

  lemma {:induction false} WrapEqual(pc: u64, imm: int, offset: u64)
    requires -0x10_0000 <= imm < 0x10_0000
    ensures Wrap(pc + imm) == Wrap(pc + offset) <==> imm == offset || imm == offset - U64_LIMIT
  {
  }

  lemma {:induction false} SignedLowBits(offset: u64)
    requires OffsetAccepted(offset)
    ensures var imm := Signed(offset % 0x20_0000, 0x20_0000);
            -0x10_0000 <= imm < 0x10_0000
            && (imm == offset || imm == offset - U64_LIMIT <==> InReach(offset))
  {
  }

  // ---------------------------------------------------------------- the register loads

  /** The register that load number `j` restores: x1..x9, x11..x31, and x10, the base, last. */
  function LoadTarget(j: nat): nat
    requires j < 31
  {
    if j < 9 then j + 1 else if j < 30 then j + 2 else 10
  }

  function LoadNumber(r: nat): nat
    requires 1 <= r < 32
  {
    if r < 10 then r - 1 else if r > 10 then r - 2 else 30
  }

  function Restoring(i: nat): Instruction
    requires i < 33
  {
    if i == 0 then Auipc(10, 0)
    else if i == 1 then Addi(10, 10, -256)
    else Ld(LoadTarget(i - 2), 10, 8 * LoadTarget(i - 2))
  }

  /** `ld rd, 8 * rd(a0)` */
  function LdWord(rd: nat): nat { 0x3 + rd * 0x80 + 0x3000 + 10 * 0x8000 + 8 * rd * 0x10_0000 }

  lemma {:induction false} LdFields(rd: nat)
    requires rd < 32
    ensures LdWord(rd) < U32_LIMIT && Decode(LdWord(rd)) == Some(Ld(rd, 10, 8 * rd))
  {
    LdDigits(rd);
  }

  lemma {:induction false} LdDigits(rd: nat)
    requires rd < 32
    ensures var w := LdWord(rd);
            w < U32_LIMIT && w % 0x80 == 0x3 && w / 0x80 % 32 == rd && w / 0x1000 % 8 == 3
            && w / 0x8000 % 32 == 10 && w / 0x10_0000 == 8 * rd
  {
    var w := LdWord(rd);
    assert w / 0x80 == rd + 32 * (3 + 8 * (10 + 256 * rd));
    assert w / 0x1000 == 3 + 8 * (10 + 256 * rd);
    assert w / 0x8000 == 10 + 256 * rd;
  }

  lemma {:induction false} RestoreIsLoads(i: nat)
    requires 2 <= i < 33
    ensures RESTORE[i] == LdWord(LoadTarget(i - 2))
  {
  }

  lemma {:induction false} RestoreDecodes(i: nat)
    requires i < 33
    ensures RESTORE[i] < U32_LIMIT && Decode(RESTORE[i]) == Some(Restoring(i))
  {
    if i >= 2 {
      RestoreIsLoads(i);
      LdFields(LoadTarget(i - 2));
    }
  }

  /** `code` decodes to the restore sequence. The lemmas below hold of any such code. */
  ghost predicate RestoreCode(code: seq<nat>) {
    |code| == 33 && forall i :: 0 <= i < 33 ==> code[i] < U32_LIMIT && Decode(code[i]) == Some(Restoring(i))
  }

  lemma {:induction false} RestoreIsCode()
    ensures RestoreCode(RESTORE)
  {
    forall i | 0 <= i < 33 ensures RESTORE[i] < U32_LIMIT && Decode(RESTORE[i]) == Some(Restoring(i)) {
      RestoreDecodes(i);
    }
  }

  /** The stub occupies `mem` from `start` on. */
  predicate StubAt(mem: seq<byte>, start: nat, saved: seq<u64>, code: seq<nat>, jump: nat)
    requires |saved| == 32
  {
    && start + STUB_SIZE <= |mem| < 0x8000_0000
    && jump < U32_LIMIT
    && mem[start..start + STUB_SIZE] == StubBytes(saved, code, jump)
  }

  /** A slice of a slice: `part` at `i` of `t`, which is at `lo` of `s`, is at `lo + i` of `s`. */
  lemma {:induction false} SubSlice(s: seq<byte>, lo: nat, t: seq<byte>, i: nat, part: seq<byte>)
    requires lo + |t| <= |s| && s[lo..lo + |t|] == t
    requires i + |part| <= |t| && t[i..i + |part|] == part
    ensures s[lo + i..lo + i + |part|] == part
  {
    forall k | 0 <= k < |part| ensures s[lo + i..lo + i + |part|][k] == part[k] {
      assert part[k] == t[i + k] == s[lo..lo + |t|][i + k];
    }
  }

  lemma {:induction false} StubParts(mem: seq<byte>, start: nat, saved: seq<u64>, code: seq<nat>, jump: nat)
    requires |saved| == 32 && |code| == 33 && StubAt(mem, start, saved, code, jump)
    ensures |Words(saved[1..], 8)| == 248 && mem[start..start + 248] == Words(saved[1..], 8)
    ensures |Words(code, 4)| == 132 && mem[start + 248..start + 248 + 132] == Words(code, 4)
    ensures mem[start + 380..start + 380 + 4] == Le(jump, 4)
  {
    WordsLength(saved[1..], 8);
    WordsLength(code, 4);
    var stub := StubBytes(saved, code, jump);
    assert stub[0..0 + 248] == Words(saved[1..], 8);
    assert stub[248..248 + 132] == Words(code, 4);
    assert stub[380..380 + 4] == Le(jump, 4);
    SubSlice(mem, start, stub, 0, Words(saved[1..], 8));
    SubSlice(mem, start, stub, 248, Words(code, 4));
    SubSlice(mem, start, stub, 380, Le(jump, 4));
  }

  /** Reading entry `k` of a table of 8- or 4-byte words laid out at `at`. */
  lemma {:induction false} LoadTable(mem: seq<byte>, at: nat, table: seq<nat>, k: nat)
    requires at + 8 * |table| <= |mem| && |Words(table, 8)| == 8 * |table|
    requires mem[at..at + 8 * |table|] == Words(table, 8)
    requires k < |table| && table[k] < U64_LIMIT
    ensures FromLe(mem[at + 8 * k..at + 8 * k + 8]) == table[k]
  {
    var i := 8 * k;
    assert mem[at + i..at + i + 8] == Le(table[k], 8) by {
      WordsAt(table, 8, k);
      SubSlice(mem, at, Words(table, 8), i, Le(table[k], 8));
    }
    FromLeLe64(table[k]);
  }

  lemma {:induction false} FetchTable(mem: seq<byte>, at: nat, table: seq<nat>, k: nat)
    requires at + 4 * |table| <= |mem| && |Words(table, 4)| == 4 * |table|
    requires mem[at..at + 4 * |table|] == Words(table, 4)
    requires k < |table| && table[k] < U32_LIMIT
    ensures FromLe(mem[at + 4 * k..at + 4 * k + 4]) == table[k]
  {
    var i := 4 * k;
    assert mem[at + i..at + i + 4] == Le(table[k], 4) by {
      WordsAt(table, 4, k);
      SubSlice(mem, at, Words(table, 4), i, Le(table[k], 4));
    }
    FromLeLe32(table[k]);
  }

  lemma {:induction false} FetchRestore(mem: seq<byte>, start: nat, saved: seq<u64>, code: seq<nat>, jump: nat, i: nat)
    requires |saved| == 32 && RestoreCode(code) && StubAt(mem, start, saved, code, jump) && i < 33
    ensures Fetcher(mem)(start + ENTRY_OFFSET + 4 * i) == Some(Restoring(i))
  {
    hide Fetcher, Decode, Restoring;
    StubParts(mem, start, saved, code, jump);
    FetchTable(mem, start + 248, code, i);
    FetchWord(mem, start + 248 + 4 * i, code[i], Restoring(i));
  }

  lemma {:induction false} FetchWord(mem: seq<byte>, at: nat, w: nat, instruction: Instruction)
    requires at + 4 <= |mem| && FromLe(mem[at..at + 4]) == w && Decode(w) == Some(instruction)
    ensures Fetcher(mem)(at) == Some(instruction)
  {
  }

  lemma {:induction false} FetchJump(mem: seq<byte>, start: nat, saved: seq<u64>, code: seq<nat>, offset: u64)
    requires |saved| == 32 && |code| == 33 && OffsetAccepted(offset)
    requires StubAt(mem, start, saved, code, EncodeJal(offset))
    ensures Fetcher(mem)(start + JUMP_OFFSET) == Some(Jal(0, Signed(offset % 0x20_0000, 0x20_0000)))
  {
    StubParts(mem, start, saved, code, EncodeJal(offset));
    assert FromLe(mem[start + JUMP_OFFSET..start + JUMP_OFFSET + 4]) == EncodeJal(offset) by {
      FromLeLe32(EncodeJal(offset));
    }
    JalFields(offset);
  }

  lemma {:induction false} LoadSaved(mem: seq<byte>, start: nat, saved: seq<u64>, code: seq<nat>, jump: nat, r: nat)
    requires |saved| == 32 && |code| == 33 && StubAt(mem, start, saved, code, jump) && 1 <= r < 32
    ensures FromLe(mem[start + 8 * (r - 1)..start + 8 * (r - 1) + 8]) == saved[r]
  {
    StubParts(mem, start, saved, code, jump);
    LoadTable(mem, start, saved[1..], r - 1);
  }

  /** What the run needs of the loaded stub: its instructions and its table. */
  ghost predicate StubLoaded(fetch: nat -> Option<Instruction>, mem: seq<byte>, start: nat, saved: seq<u64>)
    requires |saved| == 32
  {
    && start + STUB_SIZE <= |mem| < 0x8000_0000
    && (forall i :: 0 <= i < 33 ==> fetch(start + ENTRY_OFFSET + 4 * i) == Some(Restoring(i)))
    && (forall r :: 1 <= r < 32 ==> FromLe(mem[start + 8 * (r - 1)..start + 8 * (r - 1) + 8]) == saved[r])
  }

  lemma {:induction false} StubIsLoaded(mem: seq<byte>, start: nat, saved: seq<u64>, code: seq<nat>, jump: nat)
    requires |saved| == 32 && RestoreCode(code) && StubAt(mem, start, saved, code, jump)
    ensures StubLoaded(Fetcher(mem), mem, start, saved)
  {
    forall i | 0 <= i < 33 ensures Fetcher(mem)(start + ENTRY_OFFSET + 4 * i) == Some(Restoring(i)) {
      FetchRestore(mem, start, saved, code, jump, i);
    }
    forall r | 1 <= r < 32
      ensures FromLe(mem[start + 8 * (r - 1)..start + 8 * (r - 1) + 8]) == saved[r]
    {
      LoadSaved(mem, start, saved, code, jump, r);
    }
  }

  /** After `k` instructions: the base is in x10 until the last load, and the loads done have taken effect. */
  ghost predicate Midway(c: Cpu, start: nat, saved: seq<u64>, k: nat)
    requires |saved| == 32 && 2 <= k <= 33
  {
    && |c.regs| == 32 && c.regs[0] == 0
    && c.pc == start + ENTRY_OFFSET + 4 * k
    && (k < 33 ==> c.regs[10] == Wrap(start - 8))
    && (forall r :: 1 <= r < 32 && LoadNumber(r) < k - 2 ==> c.regs[r] == saved[r])
  }

  lemma {:induction false} RunNext(fetch: nat -> Option<Instruction>, mem: seq<byte>, c: Cpu, k: nat, i: Instruction)
    requires |c.regs| == 32 && Run(fetch, mem, c, k).Some?
    requires fetch(Run(fetch, mem, c, k).value.pc) == Some(i)
    ensures Run(fetch, mem, c, k + 1) == Execute(mem, Run(fetch, mem, c, k).value, i)
  {
  }

  /** The auipc and the addi leave the address before the table in x10. */
  lemma {:induction false} RunToTable(fetch: nat -> Option<Instruction>, mem: seq<byte>, c: Cpu, start: nat,
                                      saved: seq<u64>)
    requires |saved| == 32 && StubLoaded(fetch, mem, start, saved)
    requires |c.regs| == 32 && c.regs[0] == 0 && c.pc == start + ENTRY_OFFSET
    ensures Run(fetch, mem, c, 2).Some? && Midway(Run(fetch, mem, c, 2).value, start, saved, 2)
  {
    assert Run(fetch, mem, c, 0) == Some(c);
    assert fetch(start + ENTRY_OFFSET + 4 * 0) == Some(Restoring(0));
    RunNext(fetch, mem, c, 0, Restoring(0));
    var c1 := Cpu(c.regs[10 := c.pc], c.pc + 4);
    assert Run(fetch, mem, c, 1) == Some(c1);
    assert fetch(start + ENTRY_OFFSET + 4 * 1) == Some(Restoring(1));
    RunNext(fetch, mem, c, 1, Restoring(1));
  }

  lemma {:induction false} RunToLoad(fetch: nat -> Option<Instruction>, mem: seq<byte>, c: Cpu, start: nat,
                                     saved: seq<u64>, k: nat)
    requires |saved| == 32 && StubLoaded(fetch, mem, start, saved)
    requires |c.regs| == 32 && c.regs[0] == 0 && c.pc == start + ENTRY_OFFSET
    requires 2 <= k <= 33
    ensures Run(fetch, mem, c, k).Some? && Midway(Run(fetch, mem, c, k).value, start, saved, k)
  {
    if k == 2 {
      RunToTable(fetch, mem, c, start, saved);
    } else {
      RunToLoad(fetch, mem, c, start, saved, k - 1);
      assert fetch(start + ENTRY_OFFSET + 4 * (k - 1)) == Some(Restoring(k - 1));
      RunNext(fetch, mem, c, k - 1, Restoring(k - 1));
      ExecuteLoad(mem, Run(fetch, mem, c, k - 1).value, start, saved, k - 1);
    }
  }

  lemma {:induction false} LoadAddress(start: nat, r: nat)
    requires 1 <= r < 32 && start < 0x8000_0000
    ensures Wrap(Wrap(start - 8) + 8 * r) == start + 8 * (r - 1)
  {
  }

  lemma {:induction false} ExecuteLd(mem: seq<byte>, c: Cpu, rd: nat, imm: int, v: u64)
    requires |c.regs| == 32 && 1 <= rd < 32 && c.pc + 4 < U64_LIMIT
    requires var at := Wrap(c.regs[10] + imm); at + 8 <= |mem| && FromLe(mem[at..at + 8]) == v
    ensures Execute(mem, c, Ld(rd, 10, imm)) == Some(Cpu(c.regs[rd := v], c.pc + 4))
  {
  }

  lemma {:induction false} ExecuteLoad(mem: seq<byte>, c: Cpu, start: nat, saved: seq<u64>, k: nat)
    requires |saved| == 32 && start + STUB_SIZE <= |mem| < 0x8000_0000
    requires 2 <= k < 33 && Midway(c, start, saved, k)
    requires forall r :: 1 <= r < 32 ==> FromLe(mem[start + 8 * (r - 1)..start + 8 * (r - 1) + 8]) == saved[r]
    ensures var d := Execute(mem, c, Restoring(k));
            d.Some? && Midway(d.value, start, saved, k + 1)
  {
    var r := LoadTarget(k - 2);
    LoadAddress(start, r);
    ExecuteLd(mem, c, r, 8 * r, saved[r]);
    assert Execute(mem, c, Restoring(k)) == Some(Cpu(c.regs[r := saved[r]], c.pc + 4));
    forall q | 1 <= q < 32 && LoadNumber(q) < k - 1 ensures c.regs[r := saved[r]][q] == saved[q] {
      assert q == r || LoadNumber(q) < k - 2;
    }
  }

  /** From `c`, `steps` instructions lead to `d` without a trap. */
  ghost predicate Reaches(fetch: nat -> Option<Instruction>, mem: seq<byte>, c: Cpu, steps: nat, d: Cpu)
    requires |c.regs| == 32
  {
    Run(fetch, mem, c, steps) == Some(d)
  }

  lemma {:induction false} RunAll(fetch: nat -> Option<Instruction>, mem: seq<byte>, c: Cpu, start: nat,
      saved: seq<u64>, imm: int,
               loads: nat)
    requires |saved| == 32 && saved[0] == 0 && StubLoaded(fetch, mem, start, saved) && loads == 33
    requires fetch(start + JUMP_OFFSET) == Some(Jal(0, imm))
    requires |c.regs| == 32 && c.regs[0] == 0 && c.pc == start + ENTRY_OFFSET
    ensures Reaches(fetch, mem, c, loads + 1, Cpu(saved, Wrap(start + JUMP_OFFSET + imm)))
  {
    RunToLoad(fetch, mem, c, start, saved, loads);
    var d := Run(fetch, mem, c, loads).value;
    assert d.regs == saved;
  }

  /**
    From the ELF entry point, one step past the restore code: every register holds its saved
    value, and the pc is the saved pc exactly when the jump offset is in reach.
  */
  lemma {:induction false} StubRestores(mem: seq<byte>, c: Cpu, start: nat, saved: seq<u64>, code: seq<nat>, pc: u64)
      returns (target: u64)
    requires |saved| == 32 && saved[0] == 0 && RestoreCode(code)
    requires OffsetAccepted(JumpOffset(start, pc))
    requires StubAt(mem, start, saved, code, EncodeJal(JumpOffset(start, pc)))
    requires |c.regs| == 32 && c.regs[0] == 0 && c.pc == start + ENTRY_OFFSET
    ensures Reaches(Fetcher(mem), mem, c, |code| + 1, Cpu(saved, target))
    ensures target == pc <==> InReach(JumpOffset(start, pc))
  {
    var offset := JumpOffset(start, pc);
    StubIsLoaded(mem, start, saved, code, EncodeJal(offset));
    FetchJump(mem, start, saved, code, offset);
    var imm := Signed(offset % 0x20_0000, 0x20_0000);
    RunAll(Fetcher(mem), mem, c, start, saved, imm, |code|);
    StubLands(start, pc);
    target := Wrap(start + JUMP_OFFSET + imm);
  }

  lemma {:induction false} StubLands(start: nat, pc: u64)
    requires start + STUB_SIZE < U64_LIMIT && OffsetAccepted(JumpOffset(start, pc))
    ensures Wrap(start + JUMP_OFFSET + Signed(JumpOffset(start, pc) % 0x20_0000, 0x20_0000)) == pc
            <==> InReach(JumpOffset(start, pc))
  {
    JalLands(start + JUMP_OFFSET, JumpOffset(start, pc));
    JumpTarget(start, pc);
  }

  lemma {:induction false} JumpTarget(start: nat, pc: u64)
    requires start + STUB_SIZE < U64_LIMIT
    ensures Wrap(start + JUMP_OFFSET + JumpOffset(start, pc)) == pc
  {
  }
}
