/**
 * The instruction interpreter of the sandbox. `Decode` and `Exec` say what one instruction
 * means on a flat memory; `DynamicEmulator.RunInterpreter` is the loop over the paged memory,
 * proved to go through exactly those steps; the shadow-stack theorems are about all runs.
 */
module Emulators {
  import opened Words
  import opened VirtualMemories

  datatype Regs = Regs(eax: int, ecx: int, edx: int, ebx: int, esp: int, ebp: int, esi: int, edi: int, eip: int)

  datatype ApiCall = ApiCall(name: string, result: int, category: string)

  datatype Evasion = RdtscTiming | DirectPebWalk | HashedApi(name: string) | AntiDebug(name: string) | Sleep | ExecutionTimeout

  datatype Report = Report(evasions: seq<Evasion>, calls: seq<ApiCall>, rwxAllocations: nat, written: nat, reasons: seq<string>)

  datatype Machine = Machine(mem: Memory, regs: Regs, report: Report)

  datatype Next = Next(machine: Machine, halted: bool)

  type Apis = map<int, string>

  datatype Instr =
    | Stop
    | Rdtsc
    | PebWalk(len: nat)
    | MovImm32(reg: nat, imm: nat)
    | MovImm8(reg: nat, val: Byte)
    | HashProbe
    | StoreByte
    | StoreDword
    | Call(rel: int)
    | Ret
    | Jump(delta: int)
    | Clear

  // ---------- Decoding ----------

  function Signed32(v: nat): int {
    if v < 0x8000_0000 then v else v - 0x1_0000_0000
  }

  function Signed8(b: Byte): int {
    if b < 0x80 then b else b - 0x100
  }

  /** The little-endian 32-bit operand after the opcode byte. */
  function Dword(op: seq<Byte>): nat
    requires |op| == 15
  {
    op[1] as int + 0x100 * (op[2] as int) + 0x1_0000 * (op[3] as int) + 0x100_0000 * (op[4] as int)
  }

  predicate AllZero(op: seq<Byte>) {
    forall i :: 0 <= i < |op| ==> op[i] == 0
  }

  function StepLength(b0: Byte): nat {
    if 0x50 <= b0 <= 0x5F then 1
    else if b0 == 0x83 || b0 == 0x80 then 3
    else if b0 == 0x81 then 6
    else 2
  }

  function Decode(op: seq<Byte>): Instr
    requires |op| == 15
  {
    var b0 := op[0];
    if AllZero(op) then Stop
    else if b0 == 0x0F && op[1] == 0x31 then Rdtsc
    else if b0 == 0x64 && op[1] == 0xA1 && op[2] == 0x30 && op[3] == 0 && op[4] == 0 && op[5] == 0 then PebWalk(6)
    else if b0 == 0x65 && op[1] == 0x48 && op[2] == 0x8B && op[3] == 0x04 && op[4] == 0x25 && op[5] == 0x60 && op[6] == 0 then PebWalk(9)
    else if 0xB8 <= b0 <= 0xBF then MovImm32(b0 - 0xB8, Dword(op))
    else if 0xB0 <= b0 <= 0xB7 then MovImm8(b0 - 0xB0, op[1])
    else if b0 == 0xC1 && op[2] == 0x0D then HashProbe
    else if b0 == 0x48 && op[1] == 0xC1 && op[3] == 0x0D then HashProbe
    else if b0 == 0xAA then StoreByte
    else if b0 == 0xAB then StoreDword
    else if b0 == 0xE8 then Call(Signed32(Dword(op)))
    else if b0 == 0xC3 then Ret
    else if b0 == 0x90 then Jump(1)
    else if b0 == 0xEB then Jump(2 + Signed8(op[1]))
    else if b0 == 0xE9 then Jump(5 + Signed32(Dword(op)))
    else if b0 == 0x31 || b0 == 0x33 then Clear
    else Jump(StepLength(b0))
  }

  // ---------- Meaning of one instruction ----------

  function SetReg(r: Regs, k: nat, v: int): Regs {
    match k
    case 0 => r.(eax := v)
    case 1 => r.(ecx := v)
    case 2 => r.(edx := v)
    case 3 => r.(ebx := v)
    case 4 => r.(esp := v)
    case 5 => r.(ebp := v)
    case 6 => r.(esi := v)
    case _ => r.(edi := v)
  }

  const DEBUG_CHECKS := ["IsDebuggerPresent", "CheckRemoteDebuggerPresent"]
  const SLEEPS := ["Sleep", "SleepEx"]
  const ALLOCATIONS := ["VirtualAlloc", "VirtualAllocEx"]
  const INJECTIONS := ["WriteProcessMemory", "CreateRemoteThread", "NtUnmapViewOfSection"]

  function ApiCategory(name: string): string {
    if name in DEBUG_CHECKS then "anti_debug"
    else if name in SLEEPS then "timing"
    else if name in ALLOCATIONS then "memory"
    else if name in INJECTIONS then "injection"
    else "general"
  }

  function ApiResult(name: string, eax: int): int {
    if name in DEBUG_CHECKS || name in SLEEPS then 0
    else if name in ALLOCATIONS then 0x2000_0000
    else if name in INJECTIONS then 1
    else eax
  }

  function ApiReport(name: string, result: int, rep: Report): Report {
    var evasions :=
      if name in DEBUG_CHECKS then rep.evasions + [AntiDebug(name)]
      else if name in SLEEPS then rep.evasions + [Sleep]
      else rep.evasions;
    var reasons :=
      if name in ALLOCATIONS then rep.reasons + ["Allocated executable memory (VirtualAlloc)"]
      else if name in INJECTIONS then rep.reasons + ["Process Injection primitive called: " + name]
      else rep.reasons;
    var rwx := if name in ALLOCATIONS then rep.rwxAllocations + 1 else rep.rwxAllocations;
    rep.(evasions := evasions, reasons := reasons, rwxAllocations := rwx,
         calls := rep.calls + [ApiCall(name, result, ApiCategory(name))])
  }

  function Width(is64: bool): nat {
    if is64 then QWORD else DWORD
  }

  /** Where a RET stops the emulation. */
  predicate Lost(addr: nat) {
    addr == 0 || addr > 0xFFFF_FFFF_FFFF
  }

  ghost function Exec(i: Instr, m: Machine, is64: bool, apis: Apis, tick: int): (n: Next)
    requires Total(m.mem)
    ensures Total(n.machine.mem)
  {
    var r := m.regs;
    var rep := m.report;
    match i
    case Stop => Next(m, true)
    case Rdtsc =>
      Next(m.(regs := r.(eax := tick % 0x1_0000_0000, edx := 0, eip := r.eip + 2),
              report := rep.(evasions := rep.evasions + [RdtscTiming])), false)
    case PebWalk(len) =>
      Next(m.(regs := r.(eax := 0x7FFD_F000, eip := r.eip + len),
              report := rep.(evasions := rep.evasions + [DirectPebWalk])), false)
    case MovImm32(k, imm) => var r' := SetReg(r, k, imm); Next(m.(regs := r'.(eip := r'.eip + 5)), false)
    case MovImm8(k, v) =>
      var r' := if k == 0 then r.(eax := r.eax - r.eax % 256 + v)
                else if k == 1 then r.(ecx := r.ecx - r.ecx % 256 + v)
                else r;
      Next(m.(regs := r'.(eip := r.eip + 2)), false)
    case HashProbe =>
      var h := r.eax % 0x1_0000_0000;
      if h in apis then
        var result := ApiResult(apis[h], r.eax);
        Next(m.(regs := r.(eax := result, eip := r.eip + 2),
                report := ApiReport(apis[h], result, rep.(evasions := rep.evasions + [HashedApi(apis[h])]))), false)
      else Next(m.(regs := r.(eip := r.eip + 2)), false)
    case StoreByte =>
      if r.edi == 0 then Next(m.(regs := r.(eip := r.eip + 1)), false)
      else Next(Machine(Written(m.mem, r.edi, [r.eax % 256]), r.(edi := r.edi + 1, eip := r.eip + 1),
                        rep.(written := rep.written + 1)), false)
    case StoreDword =>
      if r.edi == 0 then Next(m.(regs := r.(eip := r.eip + 1)), false)
      else Next(Machine(Written(m.mem, r.edi, Pack(r.eax, DWORD)), r.(edi := r.edi + 4, eip := r.eip + 1),
                        rep.(written := rep.written + 4)), false)
    case Call(rel) =>
      var sp := r.esp - Width(is64);
      Next(m.(mem := Written(m.mem, sp, Pack(r.eip + 5, Width(is64))),
              regs := r.(esp := sp, eip := (r.eip + 5 + rel) % 0x1_0000_0000_0000_0000)), false)
    case Ret =>
      var ret := Unpack(Slice(m.mem, r.esp, Width(is64)));
      Next(m.(regs := r.(esp := r.esp + Width(is64), eip := ret)), Lost(ret))
    case Jump(delta) => Next(m.(regs := r.(eip := r.eip + delta)), false)
    case Clear => Next(m.(regs := r.(eax := 0, eip := r.eip + 2)), false)
  }

  ghost function At(m: Machine): Instr
    requires Total(m.mem)
  {
    Decode(Slice(m.mem, m.regs.eip, 15))
  }

  ghost function Step(m: Machine, is64: bool, apis: Apis, tick: int): (n: Next)
    requires Total(m.mem)
    ensures Total(n.machine.mem)
  {
    Exec(At(m), m, is64, apis, tick)
  }

  ghost predicate Goes(m: Machine, m': Machine, is64: bool, apis: Apis, tick: int)
    requires Total(m.mem)
  {
    Step(m, is64, apis, tick) == Next(m', false)
  }

  /** Memory is total in every state. */
  ghost predicate Sound(run: seq<Machine>) {
    run != [] && Total(run[|run| - 1].mem) && (|run| > 1 ==> Sound(run[..|run| - 1]))
  }

  /** The machine states of a run that has not stopped, one per instruction boundary. */
  ghost predicate IsRun(run: seq<Machine>, is64: bool, apis: Apis, clock: nat -> int): (b: bool)
    ensures b ==> Sound(run)
  {
    && run != []
    && Total(run[|run| - 1].mem)
    && (|run| > 1 ==>
          var before := run[..|run| - 1];
          && IsRun(before, is64, apis, clock)
          && Goes(before[|before| - 1], run[|run| - 1], is64, apis, clock(|before| - 1)))
  }

  lemma Extends(run: seq<Machine>, m: Machine, is64: bool, apis: Apis, clock: nat -> int)
    requires IsRun(run, is64, apis, clock) && Goes(run[|run| - 1], m, is64, apis, clock(|run| - 1))
    ensures IsRun(run + [m], is64, apis, clock)
  {
    assert (run + [m])[..|run|] == run;
  }

  // ---------- The interpreter loop ----------

  class DynamicEmulator {
    const maxInstructions: nat
    const apis: Apis
    var vm: VirtualMemory

    constructor (maxInstructions: nat, apis: Apis, vm: VirtualMemory)
      ensures this.maxInstructions == maxInstructions && this.apis == apis && this.vm == vm
    {
      this.maxInstructions, this.apis, this.vm := maxInstructions, apis, vm;
    }

    method HandleApiCall(name: string, r: Regs, rep: Report) returns (r': Regs, rep': Report)
      ensures r' == r.(eax := ApiResult(name, r.eax)) && rep' == ApiReport(name, r'.eax, rep)
    {
      r', rep' := r, rep;
      var category := "general";
      if name in DEBUG_CHECKS {
        category := "anti_debug";
        rep' := rep'.(evasions := rep'.evasions + [AntiDebug(name)]);
        r' := r'.(eax := 0);
      } else if name in SLEEPS {
        category := "timing";
        rep' := rep'.(evasions := rep'.evasions + [Sleep]);
        r' := r'.(eax := 0);
      } else if name in ALLOCATIONS {
        category := "memory";
        rep' := rep'.(rwxAllocations := rep'.rwxAllocations + 1);
        r' := r'.(eax := 0x2000_0000);
        rep' := rep'.(reasons := rep'.reasons + ["Allocated executable memory (VirtualAlloc)"]);
      } else if name in INJECTIONS {
        category := "injection";
        rep' := rep'.(reasons := rep'.reasons + ["Process Injection primitive called: " + name]);
        r' := r'.(eax := 1);
      }
      rep' := rep'.(calls := rep'.calls + [ApiCall(name, r'.eax, category)]);
    }

    /** The branches that only touch registers and the report, in the order the loop tests them. */
    method RegisterStep(op: seq<Byte>, r: Regs, rep: Report, tick: int) returns (done: bool, r': Regs, rep': Report)
      requires |op| == 15 && !AllZero(op)
      ensures done <==> !(Decode(op).StoreByte? || Decode(op).StoreDword? || Decode(op).Call? || Decode(op).Ret?)
      ensures !done ==> r' == r && rep' == rep
      ensures done ==> forall mem: Memory, is64: bool | Total(mem) ::
                Exec(Decode(op), Machine(mem, r, rep), is64, apis, tick) == Next(Machine(mem, r', rep'), false)
    {
      r', rep', done := r, rep, true;
      var b0, b1 := op[0], op[1];
      if b0 == 0x0F && b1 == 0x31 {
        rep' := rep'.(evasions := rep'.evasions + [RdtscTiming]);
        r' := r'.(eax := tick % 0x1_0000_0000, edx := 0, eip := r'.eip + 2);
        return;
      }
      if (b0 == 0x64 && b1 == 0xA1 && op[2] == 0x30 && op[3] == 0 && op[4] == 0 && op[5] == 0) ||
         (b0 == 0x65 && b1 == 0x48 && op[2] == 0x8B && op[3] == 0x04 && op[4] == 0x25 && op[5] == 0x60 && op[6] == 0) {
        rep' := rep'.(evasions := rep'.evasions + [DirectPebWalk]);
        r' := r'.(eax := 0x7FFD_F000, eip := r'.eip + if b0 == 0x64 then 6 else 9);
        return;
      }
      if 0xB8 <= b0 <= 0xBF {
        r' := SetReg(r', b0 - 0xB8, Dword(op));
        r' := r'.(eip := r'.eip + 5);
        return;
      }
      if 0xB0 <= b0 <= 0xB7 {
        if b0 == 0xB0 {
          r' := r'.(eax := r'.eax - r'.eax % 256 + b1);
        } else if b0 == 0xB1 {
          r' := r'.(ecx := r'.ecx - r'.ecx % 256 + b1);
        }
        r' := r'.(eip := r'.eip + 2);
        return;
      }
      if (b0 == 0xC1 && op[2] == 0x0D) || (b0 == 0x48 && b1 == 0xC1 && op[3] == 0x0D) {
        var h := r'.eax % 0x1_0000_0000;
        if h in apis {
          rep' := rep'.(evasions := rep'.evasions + [HashedApi(apis[h])]);
          r', rep' := HandleApiCall(apis[h], r', rep');
        }
      }
      if b0 == 0xAA || b0 == 0xAB || b0 == 0xE8 || b0 == 0xC3 {
        done := false;
        return;
      }
      if b0 == 0x90 {
        r' := r'.(eip := r'.eip + 1);
        return;
      }
      if b0 == 0xEB {
        r' := r'.(eip := r'.eip + (2 + Signed8(b1)));
        return;
      }
      if b0 == 0xE9 {
        r' := r'.(eip := r'.eip + (5 + Signed32(Dword(op))));
        return;
      }
      if b0 == 0x31 || b0 == 0x33 {
        r' := r'.(eax := 0);
      }
      r' := r'.(eip := r'.eip + StepLength(b0));
    }

    /** After `steps` rounds, none of which started late, the loop is at the end of the run. */
    ghost predicate Reached(run: seq<Machine>, steps: nat, now: Machine, is64: bool, clock: nat -> int, late: nat -> bool) {
      IsRun(run, is64, apis, clock) && |run| == steps + 1 && run[steps] == now && forall k :: 0 <= k < steps ==> !late(k)
    }

    /** It stopped with a halting step, or in a round that started late. */
    ghost predicate Stopped(run: seq<Machine>, steps: nat, now: Machine, is64: bool, clock: nat -> int, late: nat -> bool) {
      run != [] &&
      var last := run[|run| - 1];
      if steps > 0 && Reached(run, steps - 1, last, is64, clock, late)
      then !late(steps - 1) && Step(last, is64, apis, clock(steps - 1)) == Next(now, true)
      else
        && steps < maxInstructions && late(steps) && Reached(run, steps, last, is64, clock, late)
        && now == last.(report := last.report.(evasions := last.report.evasions + [ExecutionTimeout]))
    }

    /**
     * `run` is the run the loop went through; it ends by exhausting the budget, with a halting
     * step, or in the first round that starts late. More than 64 written bytes count as a payload.
     */
    method RunInterpreter(regs: Regs, is64: bool, clock: nat -> int, late: nat -> bool)
      returns (r: Regs, rep: Report, steps: nat, payloads: seq<nat>, ghost run: seq<Machine>)
      requires vm.Valid()
      modifies vm
      ensures vm.Valid() && steps <= maxInstructions
      ensures run != [] && run[0] == Machine(old(vm.Contents()), regs, Report([], [], 0, 0, []))
      ensures var now := Machine(vm.Contents(), r, rep);
              || (steps == maxInstructions && Reached(run, steps, now, is64, clock, late))
              || Stopped(run, steps, now, is64, clock, late)
      ensures payloads == if rep.written > 64 then [rep.written] else []
    {
      r, rep, steps := regs, Report([], [], 0, 0, []), 0;
      run := [Machine(vm.Contents(), r, rep)];
      var stopped := false;
      while steps < maxInstructions && !stopped
        invariant steps <= maxInstructions && vm.Valid()
        invariant run != [] && run[0] == Machine(old(vm.Contents()), regs, Report([], [], 0, 0, []))
        invariant if stopped then Stopped(run, steps, Machine(vm.Contents(), r, rep), is64, clock, late)
                  else Reached(run, steps, Machine(vm.Contents(), r, rep), is64, clock, late)
        decreases maxInstructions - steps, !stopped
      {
        if late(steps) {
          rep := rep.(evasions := rep.evasions + [ExecutionTimeout]);
          stopped := true;
        } else {
          r, rep, steps, stopped, run := Round(r, rep, is64, clock, late, steps, run);
        }
      }
      payloads := if rep.written > 64 then [rep.written] else [];
    }

    /** A round that does not start late. */
    method Round(r0: Regs, rep0: Report, is64: bool, clock: nat -> int, late: nat -> bool, steps0: nat, ghost run0: seq<Machine>)
      returns (r: Regs, rep: Report, steps: nat, stopped: bool, ghost run: seq<Machine>)
      requires vm.Valid() && !late(steps0) && Reached(run0, steps0, Machine(vm.Contents(), r0, rep0), is64, clock, late)
      modifies vm
      ensures vm.Valid() && steps == steps0 + 1 && run != [] && run[0] == run0[0]
      ensures if stopped then Stopped(run, steps, Machine(vm.Contents(), r, rep), is64, clock, late)
              else Reached(run, steps, Machine(vm.Contents(), r, rep), is64, clock, late)
    {
      run, steps := run0, steps0 + 1;
      r, rep, stopped := StepOnce(r0, rep0, is64, clock(steps0));
      if !stopped {
        Extends(run, Machine(vm.Contents(), r, rep), is64, apis, clock);
        run := run + [Machine(vm.Contents(), r, rep)];
      }
    }

    /** One round of the loop. */
    method StepOnce(r0: Regs, rep0: Report, is64: bool, tick: int) returns (r: Regs, rep: Report, halted: bool)
      requires vm.Valid()
      modifies vm
      ensures vm.Valid()
      ensures Next(Machine(vm.Contents(), r, rep), halted) ==
              Step(Machine(old(vm.Contents()), r0, rep0), is64, apis, tick)
    {
      r, rep, halted := r0, rep0, false;
      var op := vm.ReadBytes(r.eip, 15);
      if AllZero(op) {
        return r, rep, true;
      }
      var done;
      done, r, rep := RegisterStep(op, r, rep, tick);
      if done {
        return;
      }
      r, rep, halted := MemoryStep(op, r, rep, is64, tick);
    }

    /** The branches that use memory. */
    method MemoryStep(op: seq<Byte>, r0: Regs, rep0: Report, is64: bool, ghost tick: int)
      returns (r: Regs, rep: Report, halted: bool)
      requires vm.Valid() && |op| == 15
      requires Decode(op).StoreByte? || Decode(op).StoreDword? || Decode(op).Call? || Decode(op).Ret?
      modifies vm
      ensures vm.Valid()
      ensures Next(Machine(vm.Contents(), r, rep), halted) ==
              Exec(Decode(op), Machine(old(vm.Contents()), r0, rep0), is64, apis, tick)
    {
      r, rep, halted := r0, rep0, false;
      if op[0] == 0xAA || op[0] == 0xAB {
        r, rep := StoreStep(op, r, rep, is64, tick);
      } else if op[0] == 0xE8 {
        r := CallStep(Signed32(Dword(op)), r, rep, is64, tick);
      } else {
        r, halted := RetStep(r, rep, is64, tick);
      }
    }

    method StoreStep(op: seq<Byte>, r0: Regs, rep0: Report, is64: bool, ghost tick: int) returns (r: Regs, rep: Report)
      requires vm.Valid() && |op| == 15 && (op[0] == 0xAA || op[0] == 0xAB)
      modifies vm
      ensures vm.Valid()
      ensures Next(Machine(vm.Contents(), r, rep), false) ==
              Exec(Decode(op), Machine(old(vm.Contents()), r0, rep0), is64, apis, tick)
    {
      if op[0] == 0xAA {
        r, rep := StoreByteStep(r0, rep0, is64, tick);
      } else {
        r, rep := StoreDwordStep(r0, rep0, is64, tick);
      }
    }

    method StoreByteStep(r0: Regs, rep0: Report, is64: bool, ghost tick: int) returns (r: Regs, rep: Report)
      requires vm.Valid()
      modifies vm
      ensures vm.Valid()
      ensures Next(Machine(vm.Contents(), r, rep), false) ==
              Exec(StoreByte, Machine(old(vm.Contents()), r0, rep0), is64, apis, tick)
    {
      r, rep := r0, rep0;
      var dest := r.edi;
      if dest != 0 {
        vm.WriteBytes(dest, [r.eax % 256]);
        r, rep := r.(edi := r.edi + 1), rep.(written := rep.written + 1);
      }
      r := r.(eip := r.eip + 1);
    }

    method StoreDwordStep(r0: Regs, rep0: Report, is64: bool, ghost tick: int) returns (r: Regs, rep: Report)
      requires vm.Valid()
      modifies vm
      ensures vm.Valid()
      ensures Next(Machine(vm.Contents(), r, rep), false) ==
              Exec(StoreDword, Machine(old(vm.Contents()), r0, rep0), is64, apis, tick)
    {
      r, rep := r0, rep0;
      var dest := r.edi;
      if dest != 0 {
        vm.WriteU32(dest, r.eax);
        r, rep := r.(edi := r.edi + 4), rep.(written := rep.written + 4);
      }
      r := r.(eip := r.eip + 1);
    }

    method CallStep(rel: int, r0: Regs, ghost rep: Report, is64: bool, ghost tick: int) returns (r: Regs)
      requires vm.Valid()
      modifies vm
      ensures vm.Valid()
      ensures Next(Machine(vm.Contents(), r, rep), false) ==
              Exec(Call(rel), Machine(old(vm.Contents()), r0, rep), is64, apis, tick)
    {
      hide Untouched, Flat, Written, Pack, Slice;
      var eip := r0.eip;
      r := r0.(eip := (eip + 5 + rel) % 0x1_0000_0000_0000_0000);
      r := r.(esp := r.esp - Width(is64));
      WriteWord(r.esp, eip + 5, is64);
    }

    method WriteWord(addr: int, val: int, is64: bool)
      requires vm.Valid()
      modifies vm
      ensures vm.Valid() && vm.Contents() == Written(old(vm.Contents()), addr, Pack(val, Width(is64)))
    {
      if is64 {
        vm.WriteU64(addr, val);
      } else {
        vm.WriteU32(addr, val);
      }
    }

    method RetStep(r0: Regs, ghost rep: Report, is64: bool, ghost tick: int) returns (r: Regs, halted: bool)
      requires vm.Valid()
      ensures Next(Machine(vm.Contents(), r, rep), halted) ==
              Exec(Ret, Machine(vm.Contents(), r0, rep), is64, apis, tick)
    {
      var ret;
      if is64 {
        ret := vm.ReadU64(r0.esp);
      } else {
        ret := vm.ReadU32(r0.esp);
      }
      r := r0.(esp := r0.esp + if is64 then QWORD else DWORD);
      r := r.(eip := ret);
      halted := Lost(ret);
    }
  }
}
