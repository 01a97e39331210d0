/**
 * What the interpreter makes of encoded instructions: for bytes as an assembler would lay them
 * out at `eip`, the whole next state. Nothing here speaks of decoding.
 */
module Encodings {
  import opened Words
  import opened VirtualMemories
  import opened Emulators

  /** The bytes at `eip`. */
  ghost predicate Holds(m: Machine, code: seq<Byte>)
    requires Total(m.mem)
  {
    |code| <= 15 && Slice(m.mem, m.regs.eip, |code|) == code
  }

  lemma Fetched(m: Machine, code: seq<Byte>)
    requires Total(m.mem) && Holds(m, code)
    ensures forall i :: 0 <= i < |code| ==> Slice(m.mem, m.regs.eip, 15)[i] == code[i]
    ensures code != [] ==> Slice(m.mem, m.regs.eip, 15)[0] == code[0]
    ensures code != [] && code[0] != 0 ==> !AllZero(Slice(m.mem, m.regs.eip, 15))
    ensures |code| > 1 ==> Slice(m.mem, m.regs.eip, 15)[1] == code[1]
  {
    forall i | 0 <= i < |code| ensures Slice(m.mem, m.regs.eip, 15)[i] == code[i] {
      assert Slice(m.mem, m.regs.eip, |code|)[i] == code[i];
    }
    if code != [] && code[0] != 0 {
      assert Slice(m.mem, m.regs.eip, 15)[0] != 0;
    }
  }

  lemma FourBytes(d: seq<Byte>)
    requires |d| == 4
    ensures Unpack(d) == d[0] as int + 0x100 * (d[1] as int) + 0x1_0000 * (d[2] as int) + 0x100_0000 * (d[3] as int)
  {
    var d1, d2, d3 := d[1..], d[2..], d[3..];
    assert d1[1..] == d2 && d2[1..] == d3 && d3[1..] == [];
    assert Unpack(d3) == d[3];
    assert Unpack(d2) == d[2] as int + 256 * (d[3] as int);
  }

  /** An operand laid out after the opcode is read back, whatever its sign. */
  lemma Operand(op: seq<Byte>, v: int)
    requires |op| == 15 && op[1..5] == Pack(v, DWORD)
    ensures Dword(op) == v % 0x1_0000_0000
    ensures -0x8000_0000 <= v < 0x8000_0000 ==> Signed32(Dword(op)) == v
  {
    UnpackPack(v, DWORD);
    Powers();
    FourBytes(op[1..5]);
  }

  lemma FetchedOperand(m: Machine, b: Byte, v: int)
    requires Total(m.mem) && Holds(m, [b] + Pack(v, 4))
    ensures var op := Slice(m.mem, m.regs.eip, 15);
            && op[0] == b && (b != 0 ==> !AllZero(op)) && Dword(op) == v % 0x1_0000_0000
            && (-0x8000_0000 <= v < 0x8000_0000 ==> Signed32(Dword(op)) == v)
  {
    var op := Slice(m.mem, m.regs.eip, 15);
    Fetched(m, [b] + Pack(v, 4));
    assert op[1..5] == Pack(v, 4);
    Operand(op, v);
  }

  // ---------- Control flow ----------

  /** A CALL to any target in reach goes there, modulo 2^64, and pushes the address after it. */
  lemma CallGoes(m: Machine, target: int, is64: bool, apis: Apis, tick: int)
    requires Total(m.mem) && -0x8000_0000 <= target - (m.regs.eip + 5) < 0x8000_0000
    requires Holds(m, [0xE8] + Pack(target - (m.regs.eip + 5), 4))
    ensures var word := if is64 then 8 else 4;
            Step(m, is64, apis, tick) ==
            Next(Machine(Written(m.mem, m.regs.esp - word, Pack(m.regs.eip + 5, word)),
                         m.regs.(esp := m.regs.esp - word, eip := target % 0x1_0000_0000_0000_0000), m.report), false)
  {
    FetchedOperand(m, 0xE8, target - (m.regs.eip + 5));
    assert At(m) == Call(target - (m.regs.eip + 5));
  }

  /** A near jump to any target in reach goes there and changes nothing else. */
  lemma NearJumpGoes(m: Machine, target: int, is64: bool, apis: Apis, tick: int)
    requires Total(m.mem) && -0x8000_0000 <= target - (m.regs.eip + 5) < 0x8000_0000
    requires Holds(m, [0xE9] + Pack(target - (m.regs.eip + 5), 4))
    ensures Step(m, is64, apis, tick) == Next(m.(regs := m.regs.(eip := target)), false)
  {
    FetchedOperand(m, 0xE9, target - (m.regs.eip + 5));
    assert At(m) == Jump(target - m.regs.eip);
  }

  /** So does a short one. */
  lemma ShortJumpGoes(m: Machine, target: int, is64: bool, apis: Apis, tick: int)
    requires Total(m.mem) && -0x80 <= target - (m.regs.eip + 2) < 0x80
    requires Holds(m, [0xEB] + Pack(target - (m.regs.eip + 2), 1))
    ensures Step(m, is64, apis, tick) == Next(m.(regs := m.regs.(eip := target)), false)
  {
    Fetched(m, [0xEB] + Pack(target - (m.regs.eip + 2), 1));
    assert Pack(target - (m.regs.eip + 2), 1)[0] == (target - (m.regs.eip + 2)) % 256;
    assert At(m) == Jump(target - m.regs.eip);
  }

  /** A RET goes to the word on the stack and takes it off; it stops at zero and beyond 48 bits. */
  lemma RetGoes(m: Machine, addr: int, is64: bool, apis: Apis, tick: int)
    requires var word := if is64 then 8 else 4;
             Total(m.mem) && Holds(m, [0xC3]) && Slice(m.mem, m.regs.esp, word) == Pack(addr, word)
    ensures var word := if is64 then 8 else 4;
            var to := if is64 then addr % 0x1_0000_0000_0000_0000 else addr % 0x1_0000_0000;
            Step(m, is64, apis, tick) ==
            Next(m.(regs := m.regs.(esp := m.regs.esp + word, eip := to)), to == 0 || to >= 0x1_0000_0000_0000)
  {
    Fetched(m, [0xC3]);
    assert At(m) == Ret;
    UnpackPack(addr, if is64 then 8 else 4);
    Powers();
  }

  /** The interpreter stops of itself at fifteen zero bytes and at a RET to nowhere, and at nothing else. */
  lemma HaltsIff(m: Machine, is64: bool, apis: Apis, tick: int)
    requires Total(m.mem)
    ensures var to := Unpack(Slice(m.mem, m.regs.esp, if is64 then 8 else 4));
            Step(m, is64, apis, tick).halted <==>
              || Slice(m.mem, m.regs.eip, 15) == seq(15, _ => 0)
              || (m.mem[m.regs.eip] == 0xC3 && (to == 0 || to >= 0x1_0000_0000_0000))
  {
    var op := Slice(m.mem, m.regs.eip, 15);
    assert op[0] == m.mem[m.regs.eip + 0];
    if AllZero(op) {
      assert op == seq(15, _ => 0);
    }
  }

  // ---------- Registers ----------

  /** The registers by their number in an encoding. */
  function Numbered(r: Regs): seq<int> {
    [r.eax, r.ecx, r.edx, r.ebx, r.esp, r.ebp, r.esi, r.edi]
  }

  /** MOV of a double word sets exactly the register it names, to the operand as an unsigned number. */
  lemma MovSets(m: Machine, k: nat, v: int, is64: bool, apis: Apis, tick: int)
    requires Total(m.mem) && k < 8 && Holds(m, [0xB8 + k] + Pack(v, 4))
    ensures var n := Step(m, is64, apis, tick);
            && !n.halted && n.machine.mem == m.mem && n.machine.report == m.report
            && Numbered(n.machine.regs) == Numbered(m.regs)[k := v % 0x1_0000_0000]
            && n.machine.regs.eip == m.regs.eip + 5
  {
    FetchedOperand(m, 0xB8 + k, v);
    assert At(m) == MovImm32(k, v % 0x1_0000_0000);
  }

  lemma LowByte(x: int, v: Byte)
    ensures (x - x % 256 + v) % 256 == v && (x - x % 256 + v) / 256 == x / 256
  {
  }

  /** MOV of a byte sets the low byte of EAX or ECX; of the other byte registers, none. */
  lemma MovByteSets(m: Machine, k: nat, v: Byte, is64: bool, apis: Apis, tick: int)
    requires Total(m.mem) && k < 8 && Holds(m, [0xB0 + k, v])
    ensures var n := Step(m, is64, apis, tick);
            && !n.halted && n.machine.mem == m.mem && n.machine.report == m.report
            && n.machine.regs.eip == m.regs.eip + 2
            && (forall j :: 0 <= j < 8 && (j != k || k > 1) ==> Numbered(n.machine.regs)[j] == Numbered(m.regs)[j])
            && (k <= 1 ==>
                  && Numbered(n.machine.regs)[k] % 256 == v
                  && Numbered(n.machine.regs)[k] / 256 == Numbered(m.regs)[k] / 256)
  {
    Fetched(m, [0xB0 + k, v]);
    assert At(m) == MovImm8(k, v);
    LowByte(m.regs.eax, v);
    LowByte(m.regs.ecx, v);
  }

  /** An XOR is taken to clear EAX. */
  lemma XorClears(m: Machine, b: Byte, is64: bool, apis: Apis, tick: int)
    requires Total(m.mem) && b in {0x31, 0x33} && Holds(m, [b])
    ensures Step(m, is64, apis, tick) == Next(m.(regs := m.regs.(eax := 0, eip := m.regs.eip + 2)), false)
  {
    Fetched(m, [b]);
    assert At(m) == Clear;
  }

  /** Reading the time stamp counter is reported, and answered from the clock. */
  lemma RdtscReads(m: Machine, is64: bool, apis: Apis, tick: int)
    requires Total(m.mem) && Holds(m, [0x0F, 0x31])
    ensures Step(m, is64, apis, tick) ==
            Next(m.(regs := m.regs.(eax := tick % 0x1_0000_0000, edx := 0, eip := m.regs.eip + 2),
                    report := m.report.(evasions := m.report.evasions + [RdtscTiming])), false)
  {
    Fetched(m, [0x0F, 0x31]);
    assert At(m) == Rdtsc;
  }

  /** So is a look at the process environment block, in either encoding, whose length is skipped. */
  lemma PebWalkReads(m: Machine, code: seq<Byte>, is64: bool, apis: Apis, tick: int)
    requires Total(m.mem) && Holds(m, code)
    requires code == [0x64, 0xA1, 0x30, 0, 0, 0] || code == [0x65, 0x48, 0x8B, 0x04, 0x25, 0x60, 0, 0, 0]
    ensures Step(m, is64, apis, tick) ==
            Next(m.(regs := m.regs.(eax := 0x7FFD_F000, eip := m.regs.eip + |code|),
                    report := m.report.(evasions := m.report.evasions + [DirectPebWalk])), false)
  {
    Fetched(m, code);
    assert At(m) == PebWalk(|code|);
  }

  // ---------- The rest ----------

  /** The rotations by 13 that look up an API name, with one byte left open in each. */
  predicate Rotates(op: seq<Byte>) {
    |op| == 15 && ((op[0] == 0xC1 && op[2] == 0x0D) || (op[0] == 0x48 && op[1] == 0xC1 && op[3] == 0x0D))
  }

  /** A rotation with no known hash in EAX is stepped over. */
  lemma UnknownHash(m: Machine, is64: bool, apis: Apis, tick: int)
    requires Total(m.mem) && Rotates(Slice(m.mem, m.regs.eip, 15)) && m.regs.eax % 0x1_0000_0000 !in apis
    ensures Step(m, is64, apis, tick) == Next(m.(regs := m.regs.(eip := m.regs.eip + 2)), false)
  {
  }

  /** One with a known hash is the call of that API: what it answers, what is reported, and under which category. */
  lemma HashedCall(m: Machine, name: string, is64: bool, apis: Apis, tick: int)
    requires Total(m.mem) && Rotates(Slice(m.mem, m.regs.eip, 15))
    requires m.regs.eax % 0x1_0000_0000 in apis && apis[m.regs.eax % 0x1_0000_0000] == name
    ensures var n, before := Step(m, is64, apis, tick), m.report;
            var r, after := n.machine.regs, n.machine.report;
            && !n.halted && n.machine.mem == m.mem
            && r == m.regs.(eip := m.regs.eip + 2, eax := r.eax)
            && after.written == before.written
            && (name in ["IsDebuggerPresent", "CheckRemoteDebuggerPresent"] ==>
                  r.eax == 0 && after == before.(evasions := before.evasions + [HashedApi(name), AntiDebug(name)],
                                                 calls := before.calls + [ApiCall(name, 0, "anti_debug")]))
            && (name in ["Sleep", "SleepEx"] ==>
                  r.eax == 0 && after == before.(evasions := before.evasions + [HashedApi(name), Sleep],
                                                 calls := before.calls + [ApiCall(name, 0, "timing")]))
            && (name in ["VirtualAlloc", "VirtualAllocEx"] ==>
                  r.eax == 0x2000_0000 && after == before.(evasions := before.evasions + [HashedApi(name)],
                                                           rwxAllocations := before.rwxAllocations + 1,
                                                           reasons := before.reasons + ["Allocated executable memory (VirtualAlloc)"],
                                                           calls := before.calls + [ApiCall(name, 0x2000_0000, "memory")]))
            && (name in ["WriteProcessMemory", "CreateRemoteThread", "NtUnmapViewOfSection"] ==>
                  r.eax == 1 && after == before.(evasions := before.evasions + [HashedApi(name)],
                                                 reasons := before.reasons + ["Process Injection primitive called: " + name],
                                                 calls := before.calls + [ApiCall(name, 1, "injection")]))
            && (name !in ["IsDebuggerPresent", "CheckRemoteDebuggerPresent", "Sleep", "SleepEx", "VirtualAlloc", "VirtualAllocEx",
                          "WriteProcessMemory", "CreateRemoteThread", "NtUnmapViewOfSection"] ==>
                  r.eax == m.regs.eax && after == before.(evasions := before.evasions + [HashedApi(name)],
                                                          calls := before.calls + [ApiCall(name, m.regs.eax, "general")]))
  {
    var e := m.report.evasions;
    assert e + [HashedApi(name)] + [AntiDebug(name)] == e + [HashedApi(name), AntiDebug(name)];
    assert e + [HashedApi(name)] + [Sleep] == e + [HashedApi(name), Sleep];
  }

  /** Everything else is stepped over by a length that the first byte alone decides. */
  lemma OthersAreSkipped(m: Machine, is64: bool, apis: Apis, tick: int)
    requires Total(m.mem) && !Step(m, is64, apis, tick).halted && !Rotates(Slice(m.mem, m.regs.eip, 15))
    requires var b := m.mem[m.regs.eip];
             && b !in {0xAA, 0xAB, 0xE8, 0xC3, 0xEB, 0xE9, 0x31, 0x33} && !(0xB0 <= b <= 0xBF)
             && (b == 0x0F ==> m.mem[m.regs.eip + 1] != 0x31)
             && (b == 0x64 ==> m.mem[m.regs.eip + 1] != 0xA1)
             && (b == 0x65 ==> m.mem[m.regs.eip + 1] != 0x48)
    ensures var b := m.mem[m.regs.eip];
            var length := if b == 0x90 || 0x50 <= b < 0x60 then 1 else if b in {0x80, 0x83} then 3 else if b == 0x81 then 6 else 2;
            Step(m, is64, apis, tick) == Next(m.(regs := m.regs.(eip := m.regs.eip + length)), false)
  {
    var op := Slice(m.mem, m.regs.eip, 15);
    assert op[0] == m.mem[m.regs.eip + 0] && op[1] == m.mem[m.regs.eip + 1];
  }

  // ---------- Unpacking loops ----------

  /** `n` steps, none of which stops. */
  ghost predicate Runs(m: Machine, n: nat, end: Machine, is64: bool, apis: Apis, tick: int)
    requires Total(m.mem)
    decreases n
  {
    if n == 0 then end == m
    else
      var next := Step(m, is64, apis, tick);
      !next.halted && Runs(next.machine, n - 1, end, is64, apis, tick)
  }

  /** `n` bytes of EAX, or `n` of its double words. */
  function Filled(n: nat, unit: seq<Byte>): (r: seq<Byte>)
    ensures |r| == n * |unit|
  {
    if n == 0 then [] else unit + Filled(n - 1, unit)
  }

  /** The state after `n` stores of a unit at `edi`. */
  ghost function Stored(m: Machine, n: nat, unit: seq<Byte>): (r: Machine)
    requires Total(m.mem)
    ensures Total(r.mem)
  {
    Machine(Written(m.mem, m.regs.edi, Filled(n, unit)),
            m.regs.(edi := m.regs.edi + n * |unit|, eip := m.regs.eip + n),
            m.report.(written := m.report.written + n * |unit|))
  }

  /** One store, by either instruction. */
  lemma OneStore(m: Machine, b: Byte, unit: seq<Byte>, is64: bool, apis: Apis, tick: int)
    requires Total(m.mem) && Holds(m, [b]) && m.regs.edi != 0
    requires (b == 0xAA && unit == [m.regs.eax % 256]) || (b == 0xAB && unit == Pack(m.regs.eax, 4))
    ensures Step(m, is64, apis, tick) == Next(Stored(m, 1, unit), false)
  {
    Fetched(m, [b]);
    assert Filled(1, unit) == unit + [] == unit;
    assert 1 * |unit| == |unit|;
    assert Decode(Slice(m.mem, m.regs.eip, 15)) == if b == 0xAA then StoreByte else StoreDword;
  }

  lemma StoredMore(m: Machine, n: nat, unit: seq<Byte>)
    requires Total(m.mem)
    ensures Stored(Stored(m, 1, unit), n, unit) == Stored(m, n + 1, unit)
  {
    assert Filled(1, unit) == unit + [] == unit;
    WrittenJoin(m.mem, m.regs.edi, unit, Filled(n, unit));
    assert (n + 1) * |unit| == n * |unit| + |unit|;
  }

  /** Where the loop does not overwrite itself, it still holds the rest of its instructions after one store. */
  lemma LoopIntact(m: Machine, n: nat, b: Byte, unit: seq<Byte>)
    requires Total(m.mem) && n > 0
    requires Slice(m.mem, m.regs.eip, n) == seq(n, _ => b)
    requires m.regs.edi + |unit| <= m.regs.eip + 1 || m.regs.eip + n <= m.regs.edi
    ensures var next := Stored(m, 1, unit); Slice(next.mem, next.regs.eip, n - 1) == seq(n - 1, _ => b)
  {
    assert Filled(1, unit) == unit + [] == unit;
    var next := Stored(m, 1, unit);
    var rest := Slice(next.mem, next.regs.eip, n - 1);
    forall i | 0 <= i < n - 1 ensures rest[i] == b {
      assert next.mem[next.regs.eip + i] == m.mem[m.regs.eip + (i + 1)] == Slice(m.mem, m.regs.eip, n)[i + 1];
    }
  }

  /**
   * `n` stores in a row write `n` units one after the other and nothing else, and count every byte
   * of them, as long as they do not run over themselves and `edi` does not come to zero on the way.
   */
  lemma {:induction false} StoresInARow(m: Machine, n: nat, b: Byte, unit: seq<Byte>, is64: bool, apis: Apis, tick: int)
    requires Total(m.mem) && Slice(m.mem, m.regs.eip, n) == seq(n, _ => b)
    requires (b == 0xAA && unit == [m.regs.eax % 256]) || (b == 0xAB && unit == Pack(m.regs.eax, 4))
    requires m.regs.edi + n * |unit| <= m.regs.eip || m.regs.eip + n <= m.regs.edi
    requires forall k: nat :: k < n ==> m.regs.edi + k * |unit| != 0
    ensures Runs(m, n, Stored(m, n, unit), is64, apis, tick)
    decreases n
  {
    if n == 0 {
      WrittenNothing(m.mem, m.regs.edi);
    } else {
      assert Slice(m.mem, m.regs.eip, 1) == [Slice(m.mem, m.regs.eip, n)[0]];
      assert m.regs.edi + 0 * |unit| != 0;
      OneStore(m, b, unit, is64, apis, tick);
      StoresLater(m, n, unit);
      LoopIntact(m, n, b, unit);
      StoresInARow(Stored(m, 1, unit), n - 1, b, unit, is64, apis, tick);
      StoredMore(m, n - 1, unit);
    }
  }

  /** What is assumed of `n` stores holds of the ones after the first. */
  lemma StoresLater(m: Machine, n: nat, unit: seq<Byte>)
    requires Total(m.mem) && n > 0 && |unit| > 0
    requires m.regs.edi + n * |unit| <= m.regs.eip || m.regs.eip + n <= m.regs.edi
    requires forall k: nat :: k < n ==> m.regs.edi + k * |unit| != 0
    ensures var r := Stored(m, 1, unit).regs;
            && (r.edi + (n - 1) * |unit| <= r.eip || r.eip + (n - 1) <= r.edi)
            && forall k: nat :: k < n - 1 ==> r.edi + k * |unit| != 0
    ensures m.regs.edi + |unit| <= m.regs.eip + 1 || m.regs.eip + n <= m.regs.edi
  {
    var r := Stored(m, 1, unit).regs;
    assert n * |unit| == (n - 1) * |unit| + |unit|;
    forall k: nat | k < n - 1 ensures r.edi + k * |unit| != 0 {
      assert (k + 1) * |unit| == k * |unit| + |unit|;
      assert m.regs.edi + (k + 1) * |unit| != 0;
    }
  }

  /** With `edi` at zero nothing is stored. */
  lemma NoStoreAtZero(m: Machine, b: Byte, is64: bool, apis: Apis, tick: int)
    requires Total(m.mem) && Holds(m, [b]) && b in {0xAA, 0xAB} && m.regs.edi == 0
    ensures Step(m, is64, apis, tick) == Next(m.(regs := m.regs.(eip := m.regs.eip + 1)), false)
  {
    Fetched(m, [b]);
    assert At(m) == if b == 0xAA then StoreByte else StoreDword;
  }
}
