/** `compile` (src/ir.rs): one pass over the source characters that emits an
    instruction per instruction character, links brackets with a stack, and
    tracks the line and column for error reports. */
module Frontend {
  import opened Base
  import opened Ir

  // ---------------------------------------------------------------------------
  // Reference definitions over the source text

  predicate IsInstrChar(ch: char) {
    ch == '+' || ch == '-' || ch == '>' || ch == '<' || ch == ',' || ch == '.' || ch == '[' || ch == ']'
  }

  /** The instruction characters of s, in order; everything else is a comment. */
  function Tokens(s: string): (t: string)
    ensures |t| <= |s|
    ensures forall i :: 0 <= i < |t| ==> IsInstrChar(t[i])
  {
    if s == [] then []
    else Tokens(s[..|s| - 1]) + (if IsInstrChar(s[|s| - 1]) then [s[|s| - 1]] else [])
  }

  /** The source character an instruction is compiled from. */
  function CharOf(ins: BfIR): (ch: char)
    ensures IsInstrChar(ch)
  {
    match ins
    case AddVal(_) => '+'
    case SubVal(_) => '-'
    case AddPtr(_) => '>'
    case SubPtr(_) => '<'
    case GetByte => ','
    case PutByte => '.'
    case Jz(_) => '['
    case Jnz(_) => ']'
  }

  /** Arithmetic instructions straight out of the lexer carry 1. */
  predicate UnitArg(ins: BfIR) {
    IsArith(ins) ==> ArgOf(ins) == 1
  }

  function CharDelta(ch: char): (r: int) {
    if ch == '[' then 1 else if ch == ']' then -1 else 0
  }

  /** Open brackets minus close brackets in s. */
  function Depth(s: string): (r: int) {
    if s == [] then 0 else Depth(s[..|s| - 1]) + CharDelta(s[|s| - 1])
  }

  /** No prefix of s has more `]` than `[`. */
  ghost predicate NeverNegative(s: string) {
    forall j :: 0 <= j <= |s| ==> Depth(s[..j]) >= 0
  }

  ghost predicate Balanced(s: string) {
    NeverNegative(s) && Depth(s) == 0
  }

  /** Newlines in s: the 0-based line of the next character. */
  function LineOf(s: string): (r: nat) {
    if s == [] then 0 else LineOf(s[..|s| - 1]) + (if s[|s| - 1] == '\n' then 1 else 0)
  }

  /** Characters of s after its last newline. For a prefix that ends with a
      character other than a newline, this is that character's 1-based column. */
  function ColOf(s: string): (r: nat) {
    if s == [] then 0 else if s[|s| - 1] == '\n' then 0 else ColOf(s[..|s| - 1]) + 1
  }

  /** The `]` at k has no `[` to close: it is where the depth first drops
      below zero. */
  ghost predicate StrayClose(s: string, k: int) {
    0 <= k < |s| && s[k] == ']' && NeverNegative(s[..k]) && Depth(s[..k]) == 0
  }

  /** The `[` at q is never closed in s. */
  ghost predicate Unclosed(s: string, q: int) {
    0 <= q < |s| && s[q] == '[' && forall e :: q < e <= |s| ==> Depth(s[..e]) > Depth(s[..q])
  }

  /** The last `[` of s opened at depth m, or -1. For m below the final depth
      this is the bracket at level m of the bracket stack. */
  function LastOpen(s: string, m: int): (p: int)
    ensures -1 <= p < |s|
  {
    if s == [] then -1
    else if s[|s| - 1] == '[' && Depth(s[..|s| - 1]) == m then |s| - 1
    else LastOpen(s[..|s| - 1], m)
  }

  // ---------------------------------------------------------------------------
  // Properties of the reference definitions

  /** There is only one stray `]` to report: the first one. */
  lemma StrayCloseUnique(s: string, k1: int, k2: int)
    requires StrayClose(s, k1) && StrayClose(s, k2)
    ensures k1 == k2
  {
    if k1 < k2 {
      StrayCloseIsFirst(s, k1, k2);
    } else if k2 < k1 {
      StrayCloseIsFirst(s, k2, k1);
    }
  }

  lemma StrayCloseIsFirst(s: string, k1: int, k2: int)
    requires StrayClose(s, k1) && k1 < k2 <= |s|
    ensures !NeverNegative(s[..k2])
  {
    assert s[..k1 + 1][..k1] == s[..k1];
    assert Depth(s[..k1 + 1]) == -1;
    assert s[..k2][..k1 + 1] == s[..k1 + 1];
  }

  /** When brackets stay open at the end, the top of the stack at level m is a
      `[` at depth m that is never closed, and the depth after it never falls
      back to m. */
  lemma {:induction false} LastOpenSpec(s: string, m: int)
    requires 0 <= m < Depth(s)
    ensures var p := LastOpen(s, m);
      0 <= p && s[p] == '[' && Depth(s[..p]) == m
      && forall e :: p < e <= |s| ==> Depth(s[..e]) > m
    decreases |s|
  {
    var init := s[..|s| - 1];
    assert s[..|s|] == s;
    if s[|s| - 1] == '[' && Depth(init) == m {
    } else {
      LastOpenSpec(init, m);
      var p := LastOpen(s, m);
      forall e | p < e <= |s|
        ensures Depth(s[..e]) > m
      {
        if e < |s| {
          assert s[..e] == init[..e];
        }
      }
      assert s[..p] == init[..p];
    }
  }

  /** `UncloseLeftBracket` names the right bracket: `LastOpen(s, Depth(s) - 1)`
      is unclosed, and every `[` after it is closed. */
  lemma LastUnclosed(s: string)
    requires Depth(s) > 0
    ensures Unclosed(s, LastOpen(s, Depth(s) - 1))
    ensures forall q :: LastOpen(s, Depth(s) - 1) < q < |s| ==> !Unclosed(s, q)
  {
    var m := Depth(s) - 1;
    LastOpenSpec(s, m);
    var p := LastOpen(s, m);
    forall q | p < q < |s|
      ensures !Unclosed(s, q)
    {
      assert s[..|s|] == s;
    }
  }

  // ---------------------------------------------------------------------------
  // compile

  /** The loop's facts about one more character of the source. */
  lemma PrefixStep(src: string, k: nat)
    requires k < |src|
    ensures var s, c := src[..k + 1], src[k];
      s[..k] == src[..k]
      && Tokens(s) == Tokens(src[..k]) + (if IsInstrChar(c) then [c] else [])
      && Depth(s) == Depth(src[..k]) + CharDelta(c)
      && LineOf(s) == LineOf(src[..k]) + (if c == '\n' then 1 else 0)
      && ColOf(s) == (if c == '\n' then 0 else ColOf(src[..k]) + 1)
      && (forall m :: LastOpen(s, m) == if c == '[' && Depth(src[..k]) == m then k else LastOpen(src[..k], m))
  {
    assert src[..k + 1][..k] == src[..k];
  }

  lemma NeverNegativeStep(src: string, k: nat)
    requires k < |src| && NeverNegative(src[..k]) && Depth(src[..k + 1]) >= 0
    ensures NeverNegative(src[..k + 1])
  {
    var t := src[..k + 1];
    forall j | 0 <= j <= |t|
      ensures Depth(t[..j]) >= 0
    {
      if j <= k {
        assert t[..j] == src[..k][..j];
      } else {
        assert t[..j] == src[..k + 1];
      }
    }
  }

  ghost predicate Fits(src: string) {
    |src| < U32_LIMIT
  }

  /** The saved line and column of every open bracket are those of the `[`
      that opened that level of the stack. */
  ghost predicate StackPositions(src: string, k: nat, stk: seq<(u32, u32, u32)>)
    requires k <= |src|
  {
    forall m :: 0 <= m < |stk| ==>
      var p := LastOpen(src[..k], m);
      0 <= p && stk[m].1 == AsU32(LineOf(src[..p + 1])) && stk[m].2 == AsU32(ColOf(src[..p + 1]))
  }

  /** `code` spells out the instruction characters `t`, one instruction per
      character, with argument 1 on the arithmetic ones. */
  ghost predicate Shaped(code: seq<BfIR>, t: string) {
    |code| == |t| && forall i :: 0 <= i < |code| ==> CharOf(code[i]) == t[i] && UnitArg(code[i])
  }

  lemma ShapedAppend(code: seq<BfIR>, t: string, x: BfIR)
    requires Shaped(code, t) && UnitArg(x)
    ensures Shaped(code + [x], t + [CharOf(x)])
  {
    var code', t' := code + [x], t + [CharOf(x)];
    forall i | 0 <= i < |code'|
      ensures CharOf(code'[i]) == t'[i] && UnitArg(code'[i])
    {
      if i < |code| {
        assert code'[i] == code[i] && t'[i] == t[i];
      }
    }
  }

  lemma ShapedPatch(code: seq<BfIR>, t: string, pos: nat, x: BfIR)
    requires Shaped(code, t) && pos < |code| && CharOf(code[pos]) == CharOf(x) && UnitArg(x)
    ensures Shaped(code[pos := x], t)
  {
    var code' := code[pos := x];
    forall i | 0 <= i < |code'|
      ensures CharOf(code'[i]) == t[i] && UnitArg(code'[i])
    {
      if i != pos {
        assert code'[i] == code[i];
      }
    }
  }

  /** The instruction an instruction character stands for, jump targets
      erased and arguments 1. */
  function Unit(ch: char): (ins: BfIR)
    requires IsInstrChar(ch)
    ensures CharOf(ins) == ch && UnitArg(ins)
  {
    match ch
    case '+' => AddVal(1)
    case '-' => SubVal(1)
    case '>' => AddPtr(1)
    case '<' => SubPtr(1)
    case ',' => GetByte
    case '.' => PutByte
    case '[' => Jz(0)
    case ']' => Jnz(0)
  }

  function Units(t: string): (r: seq<BfIR>)
    requires forall i :: 0 <= i < |t| ==> IsInstrChar(t[i])
  {
    seq(|t|, i requires 0 <= i < |t| => Unit(t[i]))
  }

  /** Code shaped after t is, with its jump targets erased, exactly the
      instructions of t. */
  lemma ShapedUnits(code: seq<BfIR>, t: string)
    requires forall i :: 0 <= i < |t| ==> IsInstrChar(t[i])
    ensures Shaped(code, t) <==> |code| == |t| && Skeleton(code) == Units(t)
  {
    if |code| == |t| && Skeleton(code) == Units(t) {
      forall i | 0 <= i < |code|
        ensures CharOf(code[i]) == t[i] && UnitArg(code[i])
      {
        assert Skeleton(code)[i] == Units(t)[i];
      }
    }
    if Shaped(code, t) {
      forall i | 0 <= i < |code|
        ensures Skeleton(code)[i] == Units(t)[i]
      {
        assert CharOf(code[i]) == t[i] && UnitArg(code[i]);
      }
    }
  }

  /** What the loop knows about the code emitted for `src[..k]`: its shape
      follows the tokens, its brackets obey the invariant under construction,
      and the stack's saved indices are the open placeholders. */
  ghost predicate CodeInv(src: string, k: nat, code: seq<BfIR>, stk: seq<(u32, u32, u32)>, open: seq<nat>)
    requires k <= |src|
  {
    Shaped(code, Tokens(src[..k]))
    && |open| == |stk| && (forall m :: 0 <= m < |stk| ==> stk[m].0 == open[m])
    && PartialLinked(code, open) && NoStrayJnz(code) && IrDepth(code) == |stk|
  }

  /** A character other than `[` leaves the open levels where they were. */
  lemma StackKeep(src: string, k: nat, stk: seq<(u32, u32, u32)>)
    requires k < |src| && src[k] != '['
    requires StackPositions(src, k, stk)
    ensures StackPositions(src, k + 1, stk)
  {
    PrefixStep(src, k);
  }

  /** `[` opens the next level at its own position. */
  lemma StackPush(src: string, k: nat, stk: seq<(u32, u32, u32)>, pos: u32, line: u32, col: u32)
    requires k < |src| && src[k] == '[' && |stk| == Depth(src[..k])
    requires line == AsU32(LineOf(src[..k + 1])) && col == AsU32(ColOf(src[..k + 1]))
    requires StackPositions(src, k, stk)
    ensures StackPositions(src, k + 1, stk + [(pos, line, col)])
  {
    PrefixStep(src, k);
    var stk' := stk + [(pos, line, col)];
    forall m | 0 <= m < |stk'|
      ensures var p := LastOpen(src[..k + 1], m);
        0 <= p && stk'[m].1 == AsU32(LineOf(src[..p + 1])) && stk'[m].2 == AsU32(ColOf(src[..p + 1]))
    {
      if m < |stk| {
        assert stk'[m] == stk[m];
      }
    }
  }

  /** A character that is not an instruction emits nothing. */
  lemma CodeSkip(src: string, k: nat, code: seq<BfIR>, stk: seq<(u32, u32, u32)>, open: seq<nat>)
    requires k < |src| && !IsInstrChar(src[k])
    requires CodeInv(src, k, code, stk, open)
    ensures CodeInv(src, k + 1, code, stk, open)
  {
    PrefixStep(src, k);
  }

  /** One of the six instruction characters that is not a bracket. */
  lemma CodePlain(src: string, k: nat, code: seq<BfIR>, stk: seq<(u32, u32, u32)>, open: seq<nat>, x: BfIR)
    requires k < |src| && CharOf(x) == src[k] && UnitArg(x) && !x.Jz? && !x.Jnz?
    requires CodeInv(src, k, code, stk, open)
    ensures CodeInv(src, k + 1, code + [x], stk, open)
  {
    PrefixStep(src, k);
    ShapedAppend(code, Tokens(src[..k]), x);
    LinkPlain(code, open, x);
    assert code[..|code|] == code;
    NoStrayJnzAppend(code, x);
  }

  /** `[`: push a placeholder and its position. */
  lemma CodeOpen(src: string, k: nat, code: seq<BfIR>, stk: seq<(u32, u32, u32)>, open: seq<nat>,
                 line: u32, col: u32)
    requires k < |src| && src[k] == '[' && |code| < U32_LIMIT
    requires CodeInv(src, k, code, stk, open)
    ensures CodeInv(src, k + 1, code + [Jz(0)], stk + [(|code|, line, col)], open + [|code|])
  {
    PrefixStep(src, k);
    ShapedAppend(code, Tokens(src[..k]), Jz(0));
    LinkOpen(code, open);
    assert code[..|code|] == code;
    NoStrayJnzAppend(code, Jz(0));
    PushStack(stk, open, (|code|, line, col));
  }

  lemma PushStack(stk: seq<(u32, u32, u32)>, open: seq<nat>, e: (u32, u32, u32))
    requires |open| == |stk| && forall m :: 0 <= m < |stk| ==> stk[m].0 == open[m]
    ensures var stk', open' := stk + [e], open + [e.0];
      |open'| == |stk'| && forall m :: 0 <= m < |stk'| ==> stk'[m].0 == open'[m]
  {
    var stk', open' := stk + [e], open + [e.0];
    forall m | 0 <= m < |stk'|
      ensures stk'[m].0 == open'[m]
    {
      if m < |stk| {
        assert stk'[m] == stk[m] && open'[m] == open[m];
      }
    }
  }

  /** `]` with a non-empty stack: pop, back-patch and push the `Jnz`. */
  lemma CodeClose(src: string, k: nat, code: seq<BfIR>, stk: seq<(u32, u32, u32)>, open: seq<nat>)
    requires k < |src| && src[k] == ']' && |stk| > 0
    requires |code| < U32_LIMIT && CodeInv(src, k, code, stk, open)
    ensures var pos := stk[|stk| - 1].0;
      CodeInv(src, k + 1, code[pos := Jz(|code|)] + [Jnz(pos)], stk[..|stk| - 1], open[..|open| - 1])
  {
    PrefixStep(src, k);
    var pos := stk[|stk| - 1].0;
    assert pos == open[|open| - 1];
    var code1 := code[pos := Jz(|code|)];
    ShapedPatch(code, Tokens(src[..k]), pos, Jz(|code|));
    ShapedAppend(code1, Tokens(src[..k]), Jnz(pos));
    LinkClose(code, open);
    CloseDepth(code, pos, |stk|);
    CloseStack(stk, open);
  }

  /** Back-patching a `Jz` keeps the depth profile; the `Jnz` then closes one level. */
  lemma CloseDepth(code: seq<BfIR>, pos: nat, n: nat)
    requires pos < |code| < U32_LIMIT && code[pos].Jz? && n > 0
    requires NoStrayJnz(code) && IrDepth(code) == n
    ensures var c := code[pos := Jz(|code|)] + [Jnz(pos)]; NoStrayJnz(c) && IrDepth(c) == n - 1
  {
    NoStrayJnzUpdate(code, pos, Jz(|code|));
    var code1 := code[pos := Jz(|code|)];
    assert code1[..|code1|] == code1;
    NoStrayJnzAppend(code1, Jnz(pos));
  }

  lemma CloseStack(stk: seq<(u32, u32, u32)>, open: seq<nat>)
    requires |open| == |stk| > 0 && forall m :: 0 <= m < |stk| ==> stk[m].0 == open[m]
    ensures var stk', open' := stk[..|stk| - 1], open[..|open| - 1];
      |open'| == |stk'| && forall m :: 0 <= m < |stk'| ==> stk'[m].0 == open'[m]
  {
  }

  /** Everything the compile loop knows after reading `src[..k]` without
      failing. */
  ghost predicate LoopInv(src: string, k: nat, code: seq<BfIR>, stk: seq<(u32, u32, u32)>, open: seq<nat>,
                          line: u32, col: u32)
  {
    k <= |src|
    && NeverNegative(src[..k])
    && |stk| == Depth(src[..k]) && |open| == |stk|
    && line == AsU32(LineOf(src[..k])) && col == AsU32(ColOf(src[..k]))
    && |code| == |Tokens(src[..k])| <= k
    && (forall m :: 0 <= m < |stk| ==> stk[m].0 < |code|)
    && StackPositions(src, k, stk)
    && (Fits(src) ==> CodeInv(src, k, code, stk, open))
  }

  lemma LoopInit(src: string)
    ensures LoopInv(src, 0, [], [], [], 0, 0)
  {
    assert src[..0] == [];
    LinkEmpty();
  }

  /** The counters after one more character that is not a newline. */
  lemma CountersStep(src: string, k: nat, line: u32, col: u32)
    requires k < |src| && src[k] != '\n'
    requires line == AsU32(LineOf(src[..k])) && col == AsU32(ColOf(src[..k]))
    ensures line == AsU32(LineOf(src[..k + 1])) && WrappingAdd32(col, 1) == AsU32(ColOf(src[..k + 1]))
  {
    PrefixStep(src, k);
    AsU32Succ(ColOf(src[..k]));
  }

  /** A newline: next line, column 0, nothing emitted. */
  lemma LoopNewline(src: string, k: nat, code: seq<BfIR>, stk: seq<(u32, u32, u32)>, open: seq<nat>,
                    line: u32, col: u32)
    requires k < |src| && src[k] == '\n' && LoopInv(src, k, code, stk, open, line, col)
    ensures LoopInv(src, k + 1, code, stk, open, WrappingAdd32(line, 1), 0)
  {
    PrefixStep(src, k);
    AsU32Succ(LineOf(src[..k]));
    NeverNegativeStep(src, k);
    StackKeep(src, k, stk);
    if Fits(src) { CodeSkip(src, k, code, stk, open); }
  }

  /** Any other character that is not an instruction. */
  lemma LoopComment(src: string, k: nat, code: seq<BfIR>, stk: seq<(u32, u32, u32)>, open: seq<nat>,
                    line: u32, col: u32)
    requires k < |src| && !IsInstrChar(src[k]) && src[k] != '\n'
    requires LoopInv(src, k, code, stk, open, line, col)
    ensures LoopInv(src, k + 1, code, stk, open, line, WrappingAdd32(col, 1))
  {
    PrefixStep(src, k);
    CountersStep(src, k, line, col);
    NeverNegativeStep(src, k);
    StackKeep(src, k, stk);
    if Fits(src) { CodeSkip(src, k, code, stk, open); }
  }

  /** `+ - > < , .`: emit the instruction. */
  lemma LoopPlain(src: string, k: nat, code: seq<BfIR>, stk: seq<(u32, u32, u32)>, open: seq<nat>,
                  line: u32, col: u32, x: BfIR)
    requires k < |src| && CharOf(x) == src[k] && UnitArg(x) && !x.Jz? && !x.Jnz?
    requires LoopInv(src, k, code, stk, open, line, col)
    ensures LoopInv(src, k + 1, code + [x], stk, open, line, WrappingAdd32(col, 1))
  {
    PrefixStep(src, k);
    CountersStep(src, k, line, col);
    NeverNegativeStep(src, k);
    StackKeep(src, k, stk);
    if Fits(src) { CodePlain(src, k, code, stk, open, x); }
  }

  /** `[`: push (position, line, column) and a placeholder `Jz(0)`. */
  lemma LoopOpen(src: string, k: nat, code: seq<BfIR>, stk: seq<(u32, u32, u32)>, open: seq<nat>,
                 line: u32, col: u32)
    requires k < |src| && src[k] == '['
    requires LoopInv(src, k, code, stk, open, line, col)
    ensures var col' := WrappingAdd32(col, 1);
      LoopInv(src, k + 1, code + [Jz(0)], stk + [(AsU32(|code|), line, col')], open + [|code|], line, col')
  {
    var col' := WrappingAdd32(col, 1);
    PrefixStep(src, k);
    CountersStep(src, k, line, col);
    NeverNegativeStep(src, k);
    StackPush(src, k, stk, AsU32(|code|), line, col');
    if Fits(src) { CodeOpen(src, k, code, stk, open, line, col'); }
  }

  /** `]` with an open bracket: pop it, back-patch its `Jz`, emit the `Jnz`. */
  lemma LoopClose(src: string, k: nat, code: seq<BfIR>, stk: seq<(u32, u32, u32)>, open: seq<nat>,
                  line: u32, col: u32)
    requires k < |src| && src[k] == ']' && |stk| > 0
    requires LoopInv(src, k, code, stk, open, line, col)
    ensures var pos := stk[|stk| - 1].0;
      LoopInv(src, k + 1, code[pos := Jz(AsU32(|code|))] + [Jnz(pos)], stk[..|stk| - 1], open[..|open| - 1],
              line, WrappingAdd32(col, 1))
  {
    PrefixStep(src, k);
    CountersStep(src, k, line, col);
    NeverNegativeStep(src, k);
    StackKeep(src, k, stk);
    if Fits(src) { CodeClose(src, k, code, stk, open); }
  }

  /** `]` with nothing open: this is the stray bracket. */
  lemma LoopStray(src: string, k: nat, code: seq<BfIR>, stk: seq<(u32, u32, u32)>, open: seq<nat>,
                  line: u32, col: u32)
    requires k < |src| && src[k] == ']' && |stk| == 0
    requires LoopInv(src, k, code, stk, open, line, col)
    ensures StrayClose(src, k) && !NeverNegative(src) && !Balanced(src)
    ensures line == AsU32(LineOf(src[..k + 1])) && WrappingAdd32(col, 1) == AsU32(ColOf(src[..k + 1]))
  {
    CountersStep(src, k, line, col);
    StrayCloseIsFirst(src, k, |src|);
    assert src[..|src|] == src;
  }

  /** The loop read all of `src` without a stray `]`: what remains on the
      stack decides between success and an unclosed `[`. */
  lemma LoopDone(src: string, code: seq<BfIR>, stk: seq<(u32, u32, u32)>, open: seq<nat>,
                 line: u32, col: u32)
    requires LoopInv(src, |src|, code, stk, open, line, col)
    ensures NeverNegative(src)
    ensures |stk| == 0 <==> Balanced(src)
    ensures |stk| > 0 ==>
      var p := LastOpen(src, Depth(src) - 1);
      Unclosed(src, p)
      && stk[|stk| - 1].1 == AsU32(LineOf(src[..p + 1])) && stk[|stk| - 1].2 == AsU32(ColOf(src[..p + 1]))
    ensures |stk| == 0 ==> |code| == |Tokens(src)|
    ensures |stk| == 0 && Fits(src) ==>
      Shaped(code, Tokens(src)) && Linked(code) && NoStrayJnz(code) && IrDepth(code) == 0
  {
    assert src[..|src|] == src;
    if |stk| > 0 {
      LastUnclosed(src);
    } else if Fits(src) {
      PartialLinkedDone(code);
    }
  }

  /** compile. On success the result has one instruction per instruction
      character of `src`, in order, with argument 1 for the arithmetic ones,
      and its brackets cross-linked and nested. It fails exactly when the
      brackets of `src` are unbalanced: at the first `]` that has nothing to
      close, or else at the innermost `[` that is never closed. (For sources of
      2^32 characters or more the source's `as u32` casts truncate, and
      nothing is promised about the contents of the result.) */
  method Compile(src: string) returns (r: Result<seq<BfIR>, CompileError>)
    ensures r.Ok? <==> Balanced(src)
    ensures r.Err? && r.error.kind == UnexpectedRightBracket <==> !NeverNegative(src)
    ensures r.Err? && r.error.kind == UnexpectedRightBracket ==>
      exists k :: StrayClose(src, k)
        && r.error.line == AsU32(LineOf(src[..k + 1])) && r.error.col == AsU32(ColOf(src[..k + 1]))
    ensures r.Err? && r.error.kind == UncloseLeftBracket ==>
      var p := LastOpen(src, Depth(src) - 1);
      Unclosed(src, p)
      && r.error.line == AsU32(LineOf(src[..p + 1])) && r.error.col == AsU32(ColOf(src[..p + 1]))
    ensures r.Ok? ==> |r.value| == |Tokens(src)|
    ensures r.Ok? && Fits(src) ==>
      Shaped(r.value, Tokens(src)) && Linked(r.value) && NoStrayJnz(r.value) && IrDepth(r.value) == 0
  {
    var code: seq<BfIR> := [];
    var stk: seq<(u32, u32, u32)> := [];
    ghost var open: seq<nat> := [];
    var line: u32 := 0;
    var col: u32 := 0;
    LoopInit(src);
    for k := 0 to |src|
      invariant LoopInv(src, k, code, stk, open, line, col)
    {
      ghost var col0 := col;
      col := WrappingAdd32(col, 1);
      match src[k] {
        case '\n' =>
          LoopNewline(src, k, code, stk, open, line, col0);
          line := WrappingAdd32(line, 1);
          col := 0;
        case '+' =>
          LoopPlain(src, k, code, stk, open, line, col0, AddVal(1));
          code := code + [AddVal(1)];
        case '-' =>
          LoopPlain(src, k, code, stk, open, line, col0, SubVal(1));
          code := code + [SubVal(1)];
        case '>' =>
          LoopPlain(src, k, code, stk, open, line, col0, AddPtr(1));
          code := code + [AddPtr(1)];
        case '<' =>
          LoopPlain(src, k, code, stk, open, line, col0, SubPtr(1));
          code := code + [SubPtr(1)];
        case ',' =>
          LoopPlain(src, k, code, stk, open, line, col0, GetByte);
          code := code + [GetByte];
        case '.' =>
          LoopPlain(src, k, code, stk, open, line, col0, PutByte);
          code := code + [PutByte];
        case '[' =>
          LoopOpen(src, k, code, stk, open, line, col0);
          var pos := AsU32(|code|);
          stk := stk + [(pos, line, col)];
          open := open + [|code|];
          code := code + [Jz(0)];
        case ']' =>
          if |stk| == 0 {
            LoopStray(src, k, code, stk, open, line, col0);
            return Err(CompileError(line, col, UnexpectedRightBracket));
          }
          LoopClose(src, k, code, stk, open, line, col0);
          var (pos, _, _) := stk[|stk| - 1];
          stk := stk[..|stk| - 1];
          open := open[..|open| - 1];
          code := code[pos := Jz(AsU32(|code|))];
          code := code + [Jnz(pos)];
        case _ =>
          LoopComment(src, k, code, stk, open, line, col0);
      }
    }
    LoopDone(src, code, stk, open, line, col);
    if |stk| > 0 {
      var (_, l, c) := stk[|stk| - 1];
      return Err(CompileError(l, c, UncloseLeftBracket));
    }
    return Ok(code);
  }
}
