/**
 * What the emulated stack holds over whole runs. A shadow stack is kept beside the machine,
 * from the CALL and RET instructions alone; memory agrees with it as long as no store lands
 * on a live stack word and no MOV overwrites the stack pointer.
 */
module ShadowStacks {
  import opened Words
  import opened VirtualMemories
  import opened Emulators

  datatype Shadow = Shadow(base: int, words: seq<int>)

  /** From `sp` up to `base`, memory holds exactly these words, the first one on top. */
  ghost predicate Stacked(mem: Memory, sp: int, base: int, words: seq<int>, width: nat)
    requires Total(mem)
    decreases |words|
  {
    if words == [] then sp == base
    else Slice(mem, sp, width) == Pack(words[0], width) && Stacked(mem, sp + width, base, words[1..], width)
  }

  lemma {:induction false} StackedBelow(mem: Memory, sp: int, base: int, words: seq<int>, width: nat)
    requires Total(mem) && Stacked(mem, sp, base, words, width)
    ensures sp <= base
    ensures words != [] ==> sp + width <= base
    decreases |words|
  {
    if words != [] {
      StackedBelow(mem, sp + width, base, words[1..], width);
    }
  }

  lemma {:induction false} StackedFrame(mem: Memory, sp: int, base: int, words: seq<int>, width: nat, addr: int, data: seq<Byte>)
    requires Total(mem) && Stacked(mem, sp, base, words, width)
    requires addr + |data| <= sp || base <= addr
    ensures Stacked(Written(mem, addr, data), sp, base, words, width)
    decreases |words|
  {
    if words != [] {
      StackedBelow(mem, sp, base, words, width);
      ReadAfterWrite(mem, addr, data, sp, width);
      StackedFrame(mem, sp + width, base, words[1..], width, addr, data);
    }
  }

  ghost function ShadowStep(i: Instr, m: Machine, s: Shadow, width: nat): Shadow {
    match i
    case Call(_) => s.(words := [m.regs.eip + 5] + s.words)
    case Ret => if s.words == [] then s.(base := s.base + width) else s.(words := s.words[1..])
    case _ => s
  }

  ghost function ShadowOf(run: seq<Machine>, width: nat): Shadow
    requires Sound(run)
  {
    if |run| == 1 then Shadow(run[0].regs.esp, [])
    else
      var before := run[..|run| - 1];
      assert Sound(before);
      var last := before[|before| - 1];
      ShadowStep(At(last), last, ShadowOf(before, width), width)
  }

  /** The instruction leaves the words from `esp` to `base` and `esp` itself alone, CALL and RET aside. */
  ghost predicate StackSafe(i: Instr, m: Machine, base: int) {
    match i
    case MovImm32(k, _) => k != 4
    case StoreByte => m.regs.edi == 0 || m.regs.edi + 1 <= m.regs.esp || base <= m.regs.edi
    case StoreDword => m.regs.edi == 0 || m.regs.edi + 4 <= m.regs.esp || base <= m.regs.edi
    case _ => true
  }

  /** What one instruction does to `esp` and memory. */
  ghost predicate Moves(i: Instr, m: Machine, m': Machine, is64: bool)
    requires Total(m.mem)
  {
    match i
    case Call(_) =>
      && m'.regs.esp == m.regs.esp - Width(is64)
      && m'.mem == Written(m.mem, m'.regs.esp, Pack(m.regs.eip + 5, Width(is64)))
    case Ret => m'.regs.esp == m.regs.esp + Width(is64) && m'.mem == m.mem
    case MovImm32(k, _) => (k == 4 || m'.regs.esp == m.regs.esp) && m'.mem == m.mem
    case StoreByte =>
      && m'.regs.esp == m.regs.esp
      && m'.mem == if m.regs.edi == 0 then m.mem else Written(m.mem, m.regs.edi, [m.regs.eax % 256])
    case StoreDword =>
      && m'.regs.esp == m.regs.esp
      && m'.mem == if m.regs.edi == 0 then m.mem else Written(m.mem, m.regs.edi, Pack(m.regs.eax, DWORD))
    case _ => m'.regs.esp == m.regs.esp && m'.mem == m.mem
  }

  lemma GoesMoves(m: Machine, m': Machine, is64: bool, apis: Apis, tick: int)
    requires Total(m.mem) && Goes(m, m', is64, apis, tick)
    ensures Moves(At(m), m, m', is64)
  {
  }

  /** One step: memory and the shadow stack move together. */
  lemma StepKeepsStack(i: Instr, m: Machine, m': Machine, s: Shadow, is64: bool)
    requires Total(m.mem) && Total(m'.mem) && Moves(i, m, m', is64) && StackSafe(i, m, s.base)
    requires Stacked(m.mem, m.regs.esp, s.base, s.words, Width(is64))
    ensures var s' := ShadowStep(i, m, s, Width(is64));
            Stacked(m'.mem, m'.regs.esp, s'.base, s'.words, Width(is64))
  {
    match i {
      case Call(_) => CallKeepsStack(m, m', s, is64);
      case StoreByte => StoreKeepsStack(m, m', s, Width(is64), [m.regs.eax % 256]);
      case StoreDword => StoreKeepsStack(m, m', s, Width(is64), Pack(m.regs.eax, DWORD));
      case _ =>
    }
  }

  lemma StoreKeepsStack(m: Machine, m': Machine, s: Shadow, width: nat, data: seq<Byte>)
    requires Total(m.mem) && m'.regs.esp == m.regs.esp
    requires m'.mem == if m.regs.edi == 0 then m.mem else Written(m.mem, m.regs.edi, data)
    requires m.regs.edi == 0 || m.regs.edi + |data| <= m.regs.esp || s.base <= m.regs.edi
    requires Stacked(m.mem, m.regs.esp, s.base, s.words, width)
    ensures Stacked(m'.mem, m'.regs.esp, s.base, s.words, width)
  {
    if m.regs.edi != 0 {
      StackedFrame(m.mem, m.regs.esp, s.base, s.words, width, m.regs.edi, data);
    }
  }

  lemma CallKeepsStack(m: Machine, m': Machine, s: Shadow, is64: bool)
    requires Total(m.mem) && m'.regs.esp == m.regs.esp - Width(is64)
    requires m'.mem == Written(m.mem, m'.regs.esp, Pack(m.regs.eip + 5, Width(is64)))
    requires Stacked(m.mem, m.regs.esp, s.base, s.words, Width(is64))
    ensures Stacked(m'.mem, m'.regs.esp, s.base, [m.regs.eip + 5] + s.words, Width(is64))
  {
    var w := Width(is64);
    var pushed := Pack(m.regs.eip + 5, w);
    ReadAfterWrite(m.mem, m'.regs.esp, pushed, m'.regs.esp, w);
    StackedFrame(m.mem, m.regs.esp, s.base, s.words, w, m'.regs.esp, pushed);
    var words := [m.regs.eip + 5] + s.words;
    assert words[1..] == s.words;
  }

  /** Every instruction of the run was stack-safe for the shadow stack of that moment. */
  ghost predicate RunSafe(run: seq<Machine>, width: nat)
    requires Sound(run)
  {
    |run| == 1 ||
    var before := run[..|run| - 1];
    RunSafe(before, width) && StackSafe(At(before[|before| - 1]), before[|before| - 1], ShadowOf(before, width).base)
  }

  /** Memory and the shadow stack agree at the end of the run. */
  ghost predicate Agrees(run: seq<Machine>, is64: bool)
    requires Sound(run)
  {
    var last, s := run[|run| - 1], ShadowOf(run, Width(is64));
    Stacked(last.mem, last.regs.esp, s.base, s.words, Width(is64))
  }

  lemma AgreesNext(run: seq<Machine>, m: Machine, is64: bool)
    requires Sound(run) && Sound(run + [m]) && Agrees(run, is64)
    requires var last := run[|run| - 1];
             Moves(At(last), last, m, is64) && StackSafe(At(last), last, ShadowOf(run, Width(is64)).base)
    ensures Agrees(run + [m], is64)
  {
    var last, all := run[|run| - 1], run + [m];
    StepKeepsStack(At(last), last, m, ShadowOf(run, Width(is64)), is64);
    assert all[..|all| - 1] == run;
  }

  /**
   * Over any safe run, the words in memory from `esp` up to the base are exactly the
   * outstanding return addresses, modulo the word size.
   */
  lemma {:induction false} StackIsShadow(run: seq<Machine>, is64: bool, apis: Apis, clock: nat -> int)
    requires IsRun(run, is64, apis, clock) && RunSafe(run, Width(is64))
    ensures Agrees(run, is64)
  {
    if |run| > 1 {
      var before, m := run[..|run| - 1], run[|run| - 1];
      assert run == before + [m];
      StackIsShadow(before, is64, apis, clock);
      GoesMoves(before[|before| - 1], m, is64, apis, clock(|before| - 1));
      AgreesNext(before, m, is64);
    }
  }

  // ---------- Matching calls and returns ----------

  /** How an instruction changes the depth. */
  function Change(i: Instr): int {
    if i.Call? then 1 else if i.Ret? then -1 else 0
  }

  /** Calls minus returns among the completed instructions of a run. */
  ghost function Depth(run: seq<Machine>): int
    requires Sound(run)
  {
    if |run| == 1 then 0
    else
      var before := run[..|run| - 1];
      assert Sound(before);
      Depth(before) + Change(At(before[|before| - 1]))
  }

  /** The run starts with a CALL that no later instruction has returned from, all of it safe above that CALL's frame. */
  ghost predicate InsideCall(run: seq<Machine>)
    requires Sound(run)
  {
    |run| > 1 &&
    var before := run[..|run| - 1];
    assert Sound(before);
    var last := before[|before| - 1];
    if |run| == 2 then At(last).Call?
    else Depth(run) >= 1 && InsideCall(before) && StackSafe(At(last), last, run[0].regs.esp)
  }

  /** What the shadow stack says of a call that has not returned. */
  ghost predicate Called(run: seq<Machine>, width: nat)
    requires Sound(run)
  {
    var s := ShadowOf(run, width);
    && s.base == run[0].regs.esp
    && |s.words| == Depth(run) >= 1
    && s.words[|s.words| - 1] == run[0].regs.eip + 5
    && RunSafe(run, width)
  }

  lemma CallEntered(run: seq<Machine>, width: nat)
    requires Sound(run) && |run| == 2 && InsideCall(run)
    ensures Called(run, width)
  {
    var before := run[..1];
    assert before[0] == run[0];
    assert Depth(before) == 0 && RunSafe(before, width);
    assert StackSafe(At(before[0]), before[0], ShadowOf(before, width).base);
  }

  /** One step changes the words as it changes the depth, and leaves the oldest one alone while there is one. */
  lemma ShadowStepDepth(i: Instr, m: Machine, s: Shadow, width: nat)
    requires s.words != []
    ensures var s' := ShadowStep(i, m, s, width);
            && |s'.words| == |s.words| + Change(i)
            && s'.base == s.base
            && (s'.words != [] ==> s'.words[|s'.words| - 1] == s.words[|s.words| - 1])
  {
  }

  /** One more state: shadow stack, depth and safety by the instruction that led to it. */
  lemma OneMore(run: seq<Machine>, m: Machine, width: nat, i: Instr)
    requires Sound(run) && Sound(run + [m]) && i == At(run[|run| - 1])
    ensures ShadowOf(run + [m], width) == ShadowStep(i, run[|run| - 1], ShadowOf(run, width), width)
    ensures Depth(run + [m]) == Depth(run) + Change(i)
    ensures RunSafe(run + [m], width) <==> RunSafe(run, width) && StackSafe(i, run[|run| - 1], ShadowOf(run, width).base)
  {
    var all := run + [m];
    assert all[..|all| - 1] == run;
  }

  lemma CallContinues(run: seq<Machine>, all: seq<Machine>, width: nat, i: Instr)
    requires Sound(run) && Sound(all) && all[0] == run[0] && Called(run, width) && Depth(all) >= 1
    requires ShadowOf(all, width) == ShadowStep(i, run[|run| - 1], ShadowOf(run, width), width)
    requires Depth(all) == Depth(run) + Change(i) && RunSafe(all, width)
    ensures Called(all, width)
  {
    ShadowStepDepth(i, run[|run| - 1], ShadowOf(run, width), width);
  }

  lemma {:induction false} InsideCallShadow(run: seq<Machine>, width: nat)
    requires Sound(run) && InsideCall(run)
    ensures Called(run, width)
  {
    if |run| == 2 {
      CallEntered(run, width);
    } else {
      var before, m := run[..|run| - 1], run[|run| - 1];
      assert run == before + [m];
      InsideCallShadow(before, width);
      OneMore(before, m, width, At(before[|before| - 1]));
      CallContinues(before, run, width, At(before[|before| - 1]));
    }
  }

  lemma RetEffect(m: Machine, is64: bool, apis: Apis, tick: int)
    requires Total(m.mem) && At(m).Ret?
    ensures var ret, n := Unpack(Slice(m.mem, m.regs.esp, Width(is64))), Step(m, is64, apis, tick);
            && n.machine.regs.eip == ret && n.machine.regs.esp == m.regs.esp + Width(is64)
            && (n.halted <==> Lost(ret))
  {
  }

  lemma OneWord(mem: Memory, sp: int, base: int, words: seq<int>, width: nat)
    requires Total(mem) && Stacked(mem, sp, base, words, width) && |words| == 1
    ensures Slice(mem, sp, width) == Pack(words[0], width) && sp + width == base
  {
    assert Stacked(mem, sp + width, base, words[1..], width);
  }

  /** One word away from leaving the call, that word is the call's return address. */
  lemma LastWord(run: seq<Machine>, is64: bool, apis: Apis, clock: nat -> int)
    requires IsRun(run, is64, apis, clock) && InsideCall(run) && Depth(run) == 1
    ensures var last := run[|run| - 1];
            && Slice(last.mem, last.regs.esp, Width(is64)) == Pack(run[0].regs.eip + 5, Width(is64))
            && last.regs.esp + Width(is64) == run[0].regs.esp
  {
    InsideCallShadow(run, Width(is64));
    StackIsShadow(run, is64, apis, clock);
    AgreedWord(run, is64);
  }

  lemma AgreedWord(run: seq<Machine>, is64: bool)
    requires Sound(run) && Called(run, Width(is64)) && Agrees(run, is64) && Depth(run) == 1
    ensures var last := run[|run| - 1];
            && Slice(last.mem, last.regs.esp, Width(is64)) == Pack(run[0].regs.eip + 5, Width(is64))
            && last.regs.esp + Width(is64) == run[0].regs.esp
  {
    var last, s := run[|run| - 1], ShadowOf(run, Width(is64));
    OneWord(last.mem, last.regs.esp, s.base, s.words, Width(is64));
  }

  /**
   * The RET that matches the CALL at the start of the run goes to the instruction after
   * that CALL, modulo the word size, and puts `esp` back where it was.
   */
  lemma MatchedReturn(run: seq<Machine>, is64: bool, apis: Apis, clock: nat -> int, tick: int)
    requires IsRun(run, is64, apis, clock) && InsideCall(run) && Depth(run) == 1
    requires At(run[|run| - 1]).Ret?
    ensures var after := Step(run[|run| - 1], is64, apis, tick);
            && after.machine.regs.eip == (run[0].regs.eip + 5) % Power256(Width(is64))
            && after.machine.regs.esp == run[0].regs.esp
            && (after.halted <==> Lost(after.machine.regs.eip))
  {
    LastWord(run, is64, apis, clock);
    UnpackPack(run[0].regs.eip + 5, Width(is64));
    RetEffect(run[|run| - 1], is64, apis, tick);
  }
}
