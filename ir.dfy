/** The intermediate representation (src/ir.rs): the instruction type, the
    compile error type, and the bracket invariant that both `compile` and
    `optimize_ir` establish on the instruction vectors they produce. */
module Ir {
  import opened Base

  /** One IR instruction; the comment names the source character it comes from.
      `Jz` and `Jnz` carry the index of their partner bracket. */
  datatype BfIR =
    | AddVal(val: u8)   // +
    | SubVal(val: u8)   // -
    | AddPtr(off: u32)  // >
    | SubPtr(off: u32)  // <
    | GetByte           // ,
    | PutByte           // .
    | Jz(pos: u32)      // [
    | Jnz(pos: u32)     // ]

  datatype CompileErrorKind = UncloseLeftBracket | UnexpectedRightBracket

  /** `line` counts newlines before the offending character; `col` is its
      1-based column. */
  datatype CompileError = CompileError(line: u32, col: u32, kind: CompileErrorKind)

  // ---------------------------------------------------------------------------
  // The four arithmetic variants, seen as one family

  datatype ArithOp = AddValOp | SubValOp | AddPtrOp | SubPtrOp

  predicate IsArith(ins: BfIR) {
    ins.AddVal? || ins.SubVal? || ins.AddPtr? || ins.SubPtr?
  }

  function OpOf(ins: BfIR): (r: ArithOp)
    requires IsArith(ins)
  {
    match ins
    case AddVal(_) => AddValOp
    case SubVal(_) => SubValOp
    case AddPtr(_) => AddPtrOp
    case SubPtr(_) => SubPtrOp
  }

  function ArgOf(ins: BfIR): (r: nat)
    requires IsArith(ins)
  {
    if ins.AddVal? || ins.SubVal? then ins.val else ins.off
  }

  /** Value variants carry a u8, pointer variants a u32. */
  function Width(op: ArithOp): (r: nat) {
    if op == AddValOp || op == SubValOp then U8_LIMIT else U32_LIMIT
  }

  predicate HasOp(ins: BfIR, op: ArithOp) {
    IsArith(ins) && OpOf(ins) == op
  }

  /** The instruction of variant `op` with argument `v`. */
  function MakeArith(op: ArithOp, v: nat): (r: BfIR)
    requires v < Width(op)
    ensures HasOp(r, op) && ArgOf(r) == v
  {
    match op
    case AddValOp => AddVal(v)
    case SubValOp => SubVal(v)
    case AddPtrOp => AddPtr(v)
    case SubPtrOp => SubPtr(v)
  }

  // ---------------------------------------------------------------------------
  // Shapes and bracket depth

  /** The instruction with its jump target forgotten. */
  function Erase(ins: BfIR): (r: BfIR) {
    match ins
    case Jz(_) => Jz(0)
    case Jnz(_) => Jnz(0)
    case _ => ins
  }

  function Skeleton(c: seq<BfIR>): (r: seq<BfIR>) {
    seq(|c|, k requires 0 <= k < |c| => Erase(c[k]))
  }

  function Delta(ins: BfIR): (r: int) {
    if ins.Jz? then 1 else if ins.Jnz? then -1 else 0
  }

  /** Number of `Jz` minus number of `Jnz`. */
  function IrDepth(c: seq<BfIR>): (r: int) {
    if c == [] then 0 else IrDepth(c[..|c| - 1]) + Delta(c[|c| - 1])
  }

  /** No prefix closes more brackets than it opens: popping the bracket stack
      never fails. */
  ghost predicate NoStrayJnz(c: seq<BfIR>) {
    forall k :: 0 <= k <= |c| ==> IrDepth(c[..k]) >= 0
  }

  lemma {:induction false} IrDepthUpdate(c: seq<BfIR>, k: nat, x: BfIR)
    requires k < |c| && Delta(x) == Delta(c[k])
    ensures IrDepth(c[k := x]) == IrDepth(c)
    decreases |c|
  {
    var d := c[k := x];
    if k < |c| - 1 {
      assert d[..|d| - 1] == c[..|c| - 1][k := x];
      IrDepthUpdate(c[..|c| - 1], k, x);
    } else {
      assert d[..|d| - 1] == c[..|c| - 1];
    }
  }

  /** Replacing an instruction by one with the same bracket role keeps the
      stack discipline. */
  lemma NoStrayJnzUpdate(c: seq<BfIR>, k: nat, x: BfIR)
    requires k < |c| && Delta(x) == Delta(c[k]) && NoStrayJnz(c)
    ensures NoStrayJnz(c[k := x]) && IrDepth(c[k := x]) == IrDepth(c)
  {
    IrDepthUpdate(c, k, x);
    var d := c[k := x];
    forall j | 0 <= j <= |d|
      ensures IrDepth(d[..j]) >= 0
    {
      if k < j {
        assert d[..j] == c[..j][k := x];
        IrDepthUpdate(c[..j], k, x);
      } else {
        assert d[..j] == c[..j];
      }
    }
  }

  /** Appending one instruction moves the depth by its bracket role. */
  lemma NoStrayJnzAppend(c: seq<BfIR>, x: BfIR)
    requires NoStrayJnz(c) && IrDepth(c) + Delta(x) >= 0
    ensures NoStrayJnz(c + [x]) && IrDepth(c + [x]) == IrDepth(c) + Delta(x)
  {
    assert (c + [x])[..|c|] == c;
    forall j | 0 <= j <= |c| + 1
      ensures IrDepth((c + [x])[..j]) >= 0
    {
      if j <= |c| {
        assert (c + [x])[..j] == c[..j];
      } else {
        assert (c + [x])[..j] == c + [x];
      }
    }
  }

  // ---------------------------------------------------------------------------
  // The bracket invariant

  /** The `Jz` at i points to a `Jnz` after it that points back to i. */
  ghost predicate JzLinked(c: seq<BfIR>, i: int) {
    0 <= i < |c| && c[i].Jz? && i < c[i].pos < |c| && c[c[i].pos].Jnz? && c[c[i].pos].pos == i
  }

  /** Every `Jnz` points to a `Jz` before it that points back. */
  ghost predicate JnzLinked(c: seq<BfIR>) {
    forall i :: 0 <= i < |c| && c[i].Jnz? ==> c[i].pos < i && c[c[i].pos].Jz? && c[c[i].pos].pos == i
  }

  /** No two pairs cross: a `Jz` strictly inside the pair opened at i is
      closed before that pair is. */
  ghost predicate Nested(c: seq<BfIR>) {
    forall i, i' :: 0 <= i < i' < |c| && c[i].Jz? && c[i'].Jz? && i' < c[i].pos ==> c[i'].pos < c[i].pos
  }

  /** The bracket invariant of a finished vector: every `Jz` and every `Jnz`
      is cross-linked with its partner, and the pairs nest. */
  ghost predicate Linked(c: seq<BfIR>) {
    (forall i :: 0 <= i < |c| && c[i].Jz? ==> JzLinked(c, i))
    && JnzLinked(c)
    && Nested(c)
  }

  /** `open` is a strictly increasing list of indices of `Jz(0)` placeholders. */
  ghost predicate OpenStack(c: seq<BfIR>, open: seq<nat>) {
    (forall m :: 0 <= m < |open| ==> open[m] < |c| && c[open[m]] == Jz(0))
    && (forall m, m' :: 0 <= m < m' < |open| ==> open[m] < open[m'])
  }

  /** Every `Jz` is linked or still open. */
  ghost predicate JzLinkedOrOpen(c: seq<BfIR>, open: seq<nat>) {
    forall i :: 0 <= i < |c| && c[i].Jz? ==> JzLinked(c, i) || i in open
  }

  /** No pair encloses a bracket that is still open. */
  ghost predicate NoStraddle(c: seq<BfIR>, open: seq<nat>) {
    forall i, m :: 0 <= i < |c| && c[i].Jz? && 0 <= m < |open| && i < open[m] ==> c[i].pos < open[m]
  }

  /** The bracket invariant of a vector under construction: `open` is the
      bracket stack (the placeholders whose `Jnz` has not been seen yet), and
      every other bracket is linked as in `Linked`. */
  ghost predicate PartialLinked(c: seq<BfIR>, open: seq<nat>) {
    OpenStack(c, open) && JzLinkedOrOpen(c, open) && JnzLinked(c) && Nested(c) && NoStraddle(c, open)
  }

  /** With no bracket left open, the invariant under construction is the
      finished one. */
  lemma PartialLinkedDone(c: seq<BfIR>)
    requires PartialLinked(c, [])
    ensures Linked(c)
  {
  }

  lemma LinkEmpty()
    ensures PartialLinked([], [])
  {
  }

  /** Appending an instruction that is not a bracket. */
  lemma LinkPlain(c: seq<BfIR>, open: seq<nat>, x: BfIR)
    requires PartialLinked(c, open) && !x.Jz? && !x.Jnz?
    ensures PartialLinked(c + [x], open)
  {
    var d := c + [x];
    forall i | 0 <= i < |d| && d[i].Jz?
      ensures JzLinked(d, i) || i in open
    {
      assert i < |c| && d[i] == c[i];
      if JzLinked(c, i) { assert d[c[i].pos] == c[c[i].pos]; }
    }
  }

  /** Appending a `Jz(0)` placeholder and pushing its index. */
  lemma LinkOpen(c: seq<BfIR>, open: seq<nat>)
    requires PartialLinked(c, open)
    ensures PartialLinked(c + [Jz(0)], open + [|c|])
  {
    LinkOpenStack(c, open);
    LinkOpenJz(c, open);
    LinkOpenRest(c, open);
  }

  lemma LinkOpenStack(c: seq<BfIR>, open: seq<nat>)
    requires OpenStack(c, open)
    ensures OpenStack(c + [Jz(0)], open + [|c|])
  {
    var open' := open + [|c|];
    assert open'[|open|] == |c|;
    forall m | 0 <= m < |open|
      ensures open'[m] == open[m]
    {
    }
  }

  lemma LinkOpenJz(c: seq<BfIR>, open: seq<nat>)
    requires JzLinkedOrOpen(c, open)
    ensures JzLinkedOrOpen(c + [Jz(0)], open + [|c|])
  {
    var d, open' := c + [Jz(0)], open + [|c|];
    assert open'[|open|] == |c|;
    forall i | 0 <= i < |d| && d[i].Jz?
      ensures JzLinked(d, i) || i in open'
    {
      if i < |c| {
        if JzLinked(c, i) {
          assert d[c[i].pos] == c[c[i].pos];
        } else {
          assert i in open;
          var m :| 0 <= m < |open| && open[m] == i;
          assert open'[m] == i;
        }
      }
    }
  }

  lemma LinkOpenRest(c: seq<BfIR>, open: seq<nat>)
    requires PartialLinked(c, open)
    ensures var d := c + [Jz(0)]; JnzLinked(d) && Nested(d) && NoStraddle(d, open + [|c|])
  {
    var d, open' := c + [Jz(0)], open + [|c|];
    forall i | 0 <= i < |d| && d[i].Jnz?
      ensures d[i].pos < i && d[d[i].pos].Jz? && d[d[i].pos].pos == i
    {
      assert d[c[i].pos] == c[c[i].pos];
    }
    assert JnzLinked(d);
    forall i, i' | 0 <= i < i' < |d| && d[i].Jz? && d[i'].Jz? && i' < d[i].pos
      ensures d[i'].pos < d[i].pos
    {
      if i' == |c| {
        assert JzLinked(c, i) || i in open;
      }
    }
    assert Nested(d);
    forall i, m | 0 <= i < |d| && d[i].Jz? && 0 <= m < |open'| && i < open'[m]
      ensures d[i].pos < open'[m]
    {
      if m < |open| {
        assert open'[m] == open[m];
      } else {
        assert open'[m] == |c|;
        assert JzLinked(c, i) || i in open;
      }
    }
  }

  lemma LinkClose(c: seq<BfIR>, open: seq<nat>)
    requires PartialLinked(c, open) && |open| > 0 && |c| < U32_LIMIT
    ensures var s := open[|open| - 1];
      PartialLinked(c[s := Jz(|c|)] + [Jnz(s)], open[..|open| - 1])
  {
    var s := open[|open| - 1];
    var open' := open[..|open| - 1];
    var d := c[s := Jz(|c|)] + [Jnz(s)];
    LinkCloseOpen(c, open);
    LinkCloseJz(c, open);
    LinkCloseJnz(c, open);
    LinkCloseNested(c, open);
  }

  lemma LinkCloseOpen(c: seq<BfIR>, open: seq<nat>)
    requires PartialLinked(c, open) && |open| > 0 && |c| < U32_LIMIT
    ensures var s := open[|open| - 1];
      OpenStack(c[s := Jz(|c|)] + [Jnz(s)], open[..|open| - 1])
      && NoStraddle(c[s := Jz(|c|)] + [Jnz(s)], open[..|open| - 1])
  {
    var s := open[|open| - 1];
    var open' := open[..|open| - 1];
    var d := c[s := Jz(|c|)] + [Jnz(s)];
    forall m | 0 <= m < |open'|
      ensures open'[m] == open[m] && open[m] < s && d[open'[m]] == c[open[m]]
    {
    }
  }

  lemma LinkCloseJz(c: seq<BfIR>, open: seq<nat>)
    requires PartialLinked(c, open) && |open| > 0 && |c| < U32_LIMIT
    ensures var s := open[|open| - 1];
      JzLinkedOrOpen(c[s := Jz(|c|)] + [Jnz(s)], open[..|open| - 1])
  {
    var s := open[|open| - 1];
    var open' := open[..|open| - 1];
    var d := c[s := Jz(|c|)] + [Jnz(s)];
    forall i | 0 <= i < |d| && d[i].Jz?
      ensures JzLinked(d, i) || i in open'
    {
      assert i < |c|;
      if i == s {
        assert d[|c|] == Jnz(s);
      } else if JzLinked(c, i) {
        assert c[i].pos != s;
        assert d[c[i].pos] == c[c[i].pos];
      } else {
        var m :| 0 <= m < |open| && open[m] == i;
        assert m != |open| - 1;
        assert open'[m] == i;
      }
    }
  }

  lemma LinkCloseJnz(c: seq<BfIR>, open: seq<nat>)
    requires PartialLinked(c, open) && |open| > 0 && |c| < U32_LIMIT
    ensures var s := open[|open| - 1];
      JnzLinked(c[s := Jz(|c|)] + [Jnz(s)])
  {
    var s := open[|open| - 1];
    var d := c[s := Jz(|c|)] + [Jnz(s)];
    forall i | 0 <= i < |d| && d[i].Jnz?
      ensures d[i].pos < i && d[d[i].pos].Jz? && d[d[i].pos].pos == i
    {
      if i < |c| {
        assert d[i] == c[i];
        assert c[i].pos != s;
        assert d[c[i].pos] == c[c[i].pos];
      }
    }
  }

  lemma LinkCloseNested(c: seq<BfIR>, open: seq<nat>)
    requires PartialLinked(c, open) && |open| > 0 && |c| < U32_LIMIT
    ensures var s := open[|open| - 1];
      Nested(c[s := Jz(|c|)] + [Jnz(s)])
  {
    var s := open[|open| - 1];
    var d := c[s := Jz(|c|)] + [Jnz(s)];
    forall i, i' | 0 <= i < i' < |d| && d[i].Jz? && d[i'].Jz? && i' < d[i].pos
      ensures d[i'].pos < d[i].pos
    {
      assert i' < |c|;
      assert i != s ==> d[i] == c[i];
      if i == s {
        assert d[i'] == c[i'];
        if !JzLinked(c, i') { assert i' in open; }
      } else if i' != s {
        assert d[i'] == c[i'];
      }
    }
  }
}
