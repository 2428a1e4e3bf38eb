/** The tree-walking interpreter of src/inter.rs: a fixed tape of
    `MEM_SIZE` cells, a data pointer and a program counter, driven by a
    fetch/execute loop over the IR.

    `Exec` and `RunFor` describe one step and a bounded run on a value
    `Machine`; the `Interpreter` class keeps the same state in fields and an
    array and is proved to follow them. Input is the sequence of bytes the
    reader will deliver (end of file once it is empty); output is the
    sequence of bytes written so far. */
module Interp {
  import opened Base
  import opened Ir
  import opened Errors
  import opened Frontend
  import opened Optimizer

  const MEM_SIZE: nat := 4 * 1024 * 1024

  datatype Machine = Machine(pc: u32, ptr: u32, tape: seq<u8>, input: seq<u8>, output: seq<u8>)

  /** The tape has its fixed size and the pointer is on it. */
  ghost predicate MachineOk(m: Machine) {
    |m.tape| == MEM_SIZE && m.ptr < MEM_SIZE
  }

  /** The state `Interpreter::new` builds: everything zero, nothing written. */
  function Initial(input: seq<u8>): (m: Machine)
  {
    Machine(0, 0, seq(MEM_SIZE, _ => 0), input, [])
  }

  /** `self.code.len() as u32`. */
  function CodeLen(code: seq<BfIR>): (n: u32)
    ensures n <= |code|
  {
    AsU32(|code|)
  }

  datatype StepResult = Next(m: Machine) | Fault(err: RuntimeError)

  /** One pass of the loop body of `run` at `m.pc`. Arithmetic on cells
      wraps; a pointer move that would leave the tape is an error that leaves
      the state as it was; `,` at end of input leaves the cell alone; `]`
      sets pc to `pos - 1` and the loop's `pc += 1` brings it to `pos`, both
      with wrap-around as in a release build. */
  function Exec(code: seq<BfIR>, m: Machine): (r: StepResult)
    requires MachineOk(m) && m.pc < CodeLen(code)
    ensures r.Next? ==> MachineOk(r.m)
  {
    var next := WrappingAdd32(m.pc, 1);
    var cell := m.tape[m.ptr];
    match code[m.pc]
    case AddVal(x) => Next(m.(tape := m.tape[m.ptr := WrappingAdd8(cell, x)], pc := next))
    case SubVal(x) => Next(m.(tape := m.tape[m.ptr := WrappingSub8(cell, x)], pc := next))
    case AddPtr(x) =>
      if WrappingSub32(AsU32(|m.tape|), m.ptr) <= x then Fault(PointerOverflow)
      else Next(m.(ptr := m.ptr + x, pc := next))
    case SubPtr(x) =>
      if m.ptr < x then Fault(PointerOverflow)
      else Next(m.(ptr := m.ptr - x, pc := next))
    case GetByte =>
      if m.input == [] then Next(m.(pc := next))
      else Next(m.(tape := m.tape[m.ptr := m.input[0]], input := m.input[1..], pc := next))
    case PutByte => Next(m.(output := m.output + [cell], pc := next))
    case Jz(pos) => Next(m.(pc := if cell == 0 then WrappingAdd32(pos, 1) else next))
    case Jnz(pos) => Next(m.(pc := WrappingAdd32(WrappingSub32(pos, 1), 1)))
  }

  datatype Outcome =
    | Halted(m: Machine)                       // pc reached the end of the code
    | Faulted(err: RuntimeError, m: Machine)   // `run` returned this error
    | OutOfFuel(m: Machine)                    // the step budget ran out first

  /** `run` with a budget of `fuel` loop passes. */
  function RunFor(code: seq<BfIR>, m: Machine, fuel: nat): (o: Outcome)
    requires MachineOk(m)
    ensures MachineOk(o.m)
    decreases fuel
  {
    if m.pc >= CodeLen(code) then Halted(m)
    else if fuel == 0 then OutOfFuel(m)
    else match Exec(code, m)
      case Next(m') => RunFor(code, m', fuel - 1)
      case Fault(e) => Faulted(e, m)
  }

  /** What the model's `Run` returns for an outcome: `None` when the budget
      ran out, otherwise what `run` returns. */
  function Report(o: Outcome): (r: Option<Result<(), VMError>>) {
    match o
    case Halted(_) => Some(Ok(()))
    case Faulted(e, _) => Some(Err(Runtime(e)))
    case OutOfFuel(_) => None
  }

  // ---------------------------------------------------------------------------
  // One step

  /** A pointer move fails exactly when its target is off the tape. */
  ghost predicate LeavesTape(ins: BfIR, ptr: nat) {
    (ins.AddPtr? && ptr + ins.off >= MEM_SIZE) || (ins.SubPtr? && ptr < ins.off)
  }

  /** The only runtime error is a pointer overflow, and it happens exactly
      when the move would leave the tape. */
  lemma FaultIff(code: seq<BfIR>, m: Machine)
    requires MachineOk(m) && m.pc < CodeLen(code)
    ensures Exec(code, m).Fault? <==> LeavesTape(code[m.pc], m.ptr)
    ensures Exec(code, m).Fault? ==> Exec(code, m).err == PointerOverflow
  {
  }

  /** What a step changes: the cell under the pointer (only for `+ - ,`), the
      pointer (only for `> <`, by exactly the offset), one byte of input (only
      for `,`), one byte of output (only for `.`, the current cell). */
  lemma ExecEffect(code: seq<BfIR>, m: Machine)
    requires MachineOk(m) && m.pc < CodeLen(code) && !LeavesTape(code[m.pc], m.ptr)
    ensures Exec(code, m).Next?
    ensures var ins, m' := code[m.pc], Exec(code, m).m;
      (forall k :: 0 <= k < MEM_SIZE && k != m.ptr ==> m'.tape[k] == m.tape[k])
      && (m'.tape[m.ptr] != m.tape[m.ptr] ==> ins.AddVal? || ins.SubVal? || ins.GetByte?)
      && (ins.AddVal? ==> m'.tape[m.ptr] == (m.tape[m.ptr] + ins.val) % 256)
      && (ins.SubVal? ==> m'.tape[m.ptr] == (m.tape[m.ptr] - ins.val) % 256)
      && m'.ptr == (if ins.AddPtr? then m.ptr + ins.off else if ins.SubPtr? then m.ptr - ins.off else m.ptr)
      && m'.input == (if ins.GetByte? && m.input != [] then m.input[1..] else m.input)
      && (ins.GetByte? && m.input != [] ==> m'.tape[m.ptr] == m.input[0])
      && (ins.GetByte? && m.input == [] ==> m'.tape == m.tape)
      && m'.output == (if ins.PutByte? then m.output + [m.tape[m.ptr]] else m.output)
  {
    FaultIff(code, m);
  }

  /** Every instruction but a jump moves on to the next one. */
  lemma ExecFallThrough(code: seq<BfIR>, m: Machine)
    requires MachineOk(m) && m.pc < CodeLen(code) && !LeavesTape(code[m.pc], m.ptr)
    requires !code[m.pc].Jz? && !code[m.pc].Jnz?
    ensures Exec(code, m).m.pc == m.pc + 1
  {
  }

  /** In linked code a `[` on a zero cell skips to just after its `]`, on any
      other cell it enters the loop; a `]` goes back to its `[`, which tests
      the cell again. So pc stays within the code. */
  lemma ExecJump(code: seq<BfIR>, m: Machine)
    requires MachineOk(m) && m.pc < CodeLen(code) && Linked(code) && |code| < U32_LIMIT
    ensures Exec(code, m).Next? ==> Exec(code, m).m.pc <= |code|
    ensures code[m.pc].Jz? ==>
      (Exec(code, m).m.pc == if m.tape[m.ptr] == 0 then code[m.pc].pos + 1 else m.pc + 1)
      && code[code[m.pc].pos].Jnz? && code[code[m.pc].pos].pos == m.pc
    ensures code[m.pc].Jnz? ==>
      var pc' := Exec(code, m).m.pc;
      pc' == code[m.pc].pos && code[pc'].Jz? && code[pc'].pos == m.pc
  {
    var ins := code[m.pc];
    if ins.Jz? {
      assert JzLinked(code, m.pc);
    } else if ins.Jnz? {
      assert ins.pos < m.pc;
    } else {
      FaultIff(code, m);
    }
  }

  /** `+x` then `-x` leave the machine as it was, apart from pc. */
  lemma ExecInverseVal(m: Machine, x: nat)
    requires MachineOk(m) && x < U8_LIMIT
    ensures var add := Exec([AddVal(x), SubVal(x)], m.(pc := 0)).m;
      Exec([AddVal(x), SubVal(x)], add).m == m.(pc := 2)
  {
    var c := m.tape[m.ptr];
    var add := Exec([AddVal(x), SubVal(x)], m.(pc := 0)).m;
    assert add.tape[m.ptr := c] == m.tape;
  }

  /** `>x` then `<x` leave the machine as it was, apart from pc, whenever
      the first move stays on the tape. */
  lemma ExecInversePtr(m: Machine, x: nat)
    requires MachineOk(m) && m.ptr + x < MEM_SIZE
    ensures var right := Exec([AddPtr(x), SubPtr(x)], m.(pc := 0)).m;
      Exec([AddPtr(x), SubPtr(x)], right).m == m.(pc := 2)
  {
  }

  /** Two cell updates of one variant act as the single update `fold_ir!`
      writes for them, whose argument is the wrapping sum of the two. */
  lemma MergeVal(m: Machine, a: u8, b: u8, add: bool)
    requires MachineOk(m)
    ensures var two := if add then [AddVal(a), AddVal(b)] else [SubVal(a), SubVal(b)];
      var one := if add then [AddVal(WrappingAdd8(a, b))] else [SubVal(WrappingAdd8(a, b))];
      var s1 := Exec(two, m.(pc := 0)).m;
      Exec(two, s1).m == Exec(one, m.(pc := 0)).m.(pc := 2)
  {
    var two := if add then [AddVal(a), AddVal(b)] else [SubVal(a), SubVal(b)];
    var s1 := Exec(two, m.(pc := 0)).m;
    assert s1.tape[m.ptr := 0] == m.tape[m.ptr := 0];
  }

  /** Two pointer moves of one direction fault exactly when the single move
      `fold_ir!` writes for them faults, and otherwise reach the same
      pointer. The offsets summing below 2^32, as every run of a compiled
      program does, is what makes the wrapping sum the true distance. */
  lemma MergePtr(m: Machine, a: u32, b: u32, right: bool)
    requires MachineOk(m) && a + b < U32_LIMIT
    ensures var two := if right then [AddPtr(a), AddPtr(b)] else [SubPtr(a), SubPtr(b)];
      var one := if right then [AddPtr(WrappingAdd32(a, b))] else [SubPtr(WrappingAdd32(a, b))];
      var s1 := Exec(two, m.(pc := 0));
      var j := Exec(one, m.(pc := 0));
      ((s1.Fault? || (s1.Next? && Exec(two, s1.m).Fault?)) <==> j.Fault?)
      && (s1.Next? && Exec(two, s1.m).Next? ==> Exec(two, s1.m).m == j.m.(pc := 2))
  {
  }

  /** From a fresh interpreter, a loop opened at instruction 0 is skipped:
      every cell starts at zero. (So the `Jnz(0)` that closes it, whose
      `pos - 1` underflows, is not reached by this step.) */
  lemma FirstLoopSkipped(code: seq<BfIR>, input: seq<u8>)
    requires 0 < CodeLen(code) && code[0].Jz?
    ensures Exec(code, Initial(input)).m.pc == WrappingAdd32(code[0].pos, 1)
  {
  }

  // ---------------------------------------------------------------------------
  // Runs

  /** A run that ends without an error ends with pc past the code; one that
      ends with an error ends at the instruction that raised it. */
  lemma {:induction false} RunEnd(code: seq<BfIR>, m: Machine, fuel: nat)
    requires MachineOk(m)
    ensures var o := RunFor(code, m, fuel);
      (o.Halted? ==> o.m.pc >= CodeLen(code))
      && (o.Faulted? ==> o.m.pc < CodeLen(code) && LeavesTape(code[o.m.pc], o.m.ptr))
      && (o.OutOfFuel? ==> o.m.pc < CodeLen(code))
    decreases fuel
  {
    if m.pc < CodeLen(code) && fuel > 0 {
      FaultIff(code, m);
      if Exec(code, m).Next? {
        RunEnd(code, Exec(code, m).m, fuel - 1);
      }
    }
  }

  /** On linked code pc never passes the end of the code, so a run that
      ends without an error ends with pc exactly at the end. */
  lemma {:induction false} RunPcBound(code: seq<BfIR>, m: Machine, fuel: nat)
    requires MachineOk(m) && Linked(code) && |code| < U32_LIMIT && m.pc <= |code|
    ensures RunFor(code, m, fuel).m.pc <= |code|
    ensures RunFor(code, m, fuel).Halted? ==> RunFor(code, m, fuel).m.pc == |code|
    decreases fuel
  {
    if m.pc < CodeLen(code) && fuel > 0 && Exec(code, m).Next? {
      ExecJump(code, m);
      RunPcBound(code, Exec(code, m).m, fuel - 1);
    }
  }

  /** b is what is left of a once some of its front has been consumed. */
  ghost predicate Suffix<T>(a: seq<T>, b: seq<T>) {
    |b| <= |a| && a[|a| - |b|..] == b
  }

  lemma SuffixTrans<T>(a: seq<T>, b: seq<T>, c: seq<T>)
    requires Suffix(a, b) && Suffix(b, c)
    ensures Suffix(a, c)
  {
    assert a[|a| - |c|..] == a[|a| - |b|..][|b| - |c|..];
  }

  /** One step appends at most one byte to the output and consumes at most
      one byte of input. */
  lemma ExecStreams(code: seq<BfIR>, m: Machine)
    requires MachineOk(m) && m.pc < CodeLen(code) && Exec(code, m).Next?
    ensures var m' := Exec(code, m).m;
      m.output <= m'.output && |m'.output| <= |m.output| + 1 && Suffix(m.input, m'.input)
  {
    var m' := Exec(code, m).m;
    if code[m.pc].PutByte? {
      assert m'.output == m.output + [m.tape[m.ptr]] && m'.input == m.input;
    } else if code[m.pc].GetByte? && m.input != [] {
      assert m'.output == m.output && m'.input == m.input[1..];
    } else {
      assert m'.output == m.output && m'.input == m.input;
    }
    assert m.input[|m.input| - |m.input|..] == m.input;
  }

  /** Output only grows and input is only consumed, in order: the final
      output extends the initial one and the final input is a suffix of the
      initial one. */
  lemma {:induction false} RunStreams(code: seq<BfIR>, m: Machine, fuel: nat)
    requires MachineOk(m)
    ensures var o := RunFor(code, m, fuel);
      m.output <= o.m.output && Suffix(m.input, o.m.input)
    decreases fuel
  {
    if m.pc < CodeLen(code) && fuel > 0 && Exec(code, m).Next? {
      var m' := Exec(code, m).m;
      ExecStreams(code, m);
      RunStreams(code, m', fuel - 1);
      SuffixTrans(m.input, m'.input, RunFor(code, m', fuel - 1).m.input);
      assert RunFor(code, m, fuel) == RunFor(code, m', fuel - 1);
    } else {
      assert RunFor(code, m, fuel).m == m;
      assert m.input[|m.input| - |m.input|..] == m.input;
    }
  }

  /** More fuel does not change a run that finished. */
  lemma {:induction false} RunMoreFuel(code: seq<BfIR>, m: Machine, fuel: nat, more: nat)
    requires MachineOk(m) && !RunFor(code, m, fuel).OutOfFuel? && fuel <= more
    ensures RunFor(code, m, more) == RunFor(code, m, fuel)
    decreases fuel
  {
    if m.pc < CodeLen(code) {
      if Exec(code, m).Next? {
        RunMoreFuel(code, Exec(code, m).m, fuel - 1, more - 1);
      }
    }
  }

  /** Running a then b steps is running a steps and continuing from where
      that stopped. */
  lemma {:induction false} RunSplit(code: seq<BfIR>, m: Machine, a: nat, b: nat)
    requires MachineOk(m)
    ensures var o := RunFor(code, m, a);
      RunFor(code, m, a + b) == if o.OutOfFuel? then RunFor(code, o.m, b) else o
    decreases a
  {
    if a > 0 && m.pc < CodeLen(code) && Exec(code, m).Next? {
      RunSplit(code, Exec(code, m).m, a - 1, b);
    }
  }

  // ---------------------------------------------------------------------------
  // The interpreter object

  class Interpreter {
    var pc: u32
    var ptr: u32
    const code: seq<BfIR>
    const memory: array<u8>
    var input: seq<u8>
    var output: seq<u8>

    ghost predicate Valid()
      reads this
    {
      memory.Length == MEM_SIZE && ptr < MEM_SIZE
    }

    ghost function State(): (r: Machine)
      reads this, memory
    {
      Machine(pc, ptr, memory[..], input, output)
    }

    /** The state built at the end of `Interpreter::new`. */
    constructor Init(code: seq<BfIR>, input: seq<u8>)
      ensures Valid() && this.code == code && State() == Initial(input) && fresh(memory)
    {
      this.code := code;
      memory := new u8[MEM_SIZE](_ => 0);
      pc, ptr := 0, 0;
      this.input := input;
      output := [];
      new;
      assert memory[..] == seq(MEM_SIZE, _ => 0);
    }

    /** One pass of the loop body of `run`: on success the state is one
        `Exec` step further, on error it is unchanged. */
    method Step() returns (r: Result<(), RuntimeError>)
      requires Valid() && pc < CodeLen(code)
      modifies this, memory
      ensures Valid()
      ensures var e := Exec(code, old(State()));
        if e.Next? then r.Ok? && State() == e.m else r == Err(e.err) && State() == old(State())
    {
      var next := WrappingAdd32(pc, 1);
      match code[pc] {
        case AddVal(x) =>
          memory[ptr] := WrappingAdd8(memory[ptr], x);
          pc := next;
        case SubVal(x) =>
          memory[ptr] := WrappingSub8(memory[ptr], x);
          pc := next;
        case AddPtr(x) =>
          // the tape length minus the pointer is at most the offset
          if WrappingSub32(AsU32(memory.Length), ptr) <= x {
            return Err(PointerOverflow);
          }
          ptr := ptr + x;
          pc := next;
        case SubPtr(x) =>
          if ptr < x {
            return Err(PointerOverflow);
          }
          ptr := ptr - x;
          pc := next;
        case GetByte =>
          // the reader returns 0 bytes at end of input and 1 otherwise
          if input != [] {
            memory[ptr] := input[0];
            input := input[1..];
          }
          pc := next;
        case PutByte =>
          output := output + [memory[ptr]];
          pc := next;
        case Jz(pos) =>
          if memory[ptr] == 0 {
            pc := pos;
          }
          pc := WrappingAdd32(pc, 1);
        case Jnz(pos) =>
          pc := WrappingSub32(pos, 1);
          pc := WrappingAdd32(pc, 1);
      }
      return Ok(());
    }

    /** `run`, for at most `fuel` passes of its loop: the state goes where
        `RunFor` says, and the result is `run`'s (`None` if the budget ran
        out first). */
    method Run(fuel: nat) returns (r: Option<Result<(), VMError>>)
      requires Valid()
      modifies this, memory
      ensures Valid()
      ensures State() == RunFor(code, old(State()), fuel).m
      ensures r == Report(RunFor(code, old(State()), fuel))
    {
      var codeLen := AsU32(|code|);
      var left: nat := fuel;
      while pc < codeLen
        invariant Valid()
        invariant left <= fuel
        invariant RunFor(code, State(), left) == RunFor(code, old(State()), fuel)
        decreases left
      {
        if left == 0 {
          return None;
        }
        var e := Step();
        if e.Err? {
          return Some(Err(Runtime(e.error)));
        }
        left := left - 1;
      }
      return Some(Ok(()));
    }

    /** `Interpreter::new` after the source has been read: compile, optimize
        on request, and build a fresh interpreter over the result. The code
        it runs is the instruction sequence of the source's bracket-linked
        IR, folded when `optimize` is set. (For sources of 2^32 characters or
        more the casts to u32 truncate jump targets, and nothing is
        promised.) */
    static method New(src: string, input: seq<u8>, optimize: bool) returns (r: Result<Interpreter, VMError>)
      requires Fits(src)
      ensures r.Err? <==> !Balanced(src)
      ensures r.Err? ==>
        r.error.Compile? && (r.error.cause.kind == UnexpectedRightBracket <==> !NeverNegative(src))
      ensures r.Err? && r.error.cause.kind == UnexpectedRightBracket ==>
        exists k :: StrayClose(src, k)
          && r.error.cause.line == AsU32(LineOf(src[..k + 1])) && r.error.cause.col == AsU32(ColOf(src[..k + 1]))
      ensures r.Err? && r.error.cause.kind == UncloseLeftBracket ==>
        var p := LastOpen(src, Depth(src) - 1);
        Unclosed(src, p)
        && r.error.cause.line == AsU32(LineOf(src[..p + 1])) && r.error.cause.col == AsU32(ColOf(src[..p + 1]))
      ensures r.Ok? ==>
        fresh(r.value) && fresh(r.value.memory) && r.value.Valid()
        && r.value.State() == Initial(input) && Linked(r.value.code)
        && Skeleton(r.value.code) == (if optimize then Fold(Units(Tokens(src))) else Units(Tokens(src)))
    {
      var compiled := Frontend.Compile(src);
      if compiled.Err? {
        return Err(VMError.Compile(compiled.error));
      }
      var ir := compiled.value;
      ShapedUnits(ir, Tokens(src));
      if optimize {
        var a := new BfIR[|ir|](k requires 0 <= k < |ir| => ir[k]);
        assert a[..] == ir;
        var n: nat;
        ghost var open: seq<nat>;
        n, open := OptimizeIr(a);
        FoldSkeleton(ir);
        ir := a[..n];
      }
      var vm := new Interpreter.Init(ir, input);
      return Ok(vm);
    }
  }
}
