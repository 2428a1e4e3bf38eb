/** `optimize_ir` (src/ir.rs): folds every maximal run of the same arithmetic
    instruction into one instruction whose argument is the wrapping sum of the
    run, compacting the vector in place and re-linking the brackets with a
    stack as it goes.

    The specification is `Fold`, a function on the instruction sequence that
    forgets jump targets (they are recomputed, so only where the brackets are
    matters); the in-place method is proved to produce `Fold` of its input with
    the brackets linked. */
module Optimizer {
  import opened Base
  import opened Ir

  // ---------------------------------------------------------------------------
  // Specification

  /** Length of the leading run of `op` instructions in s. */
  function RunLen(s: seq<BfIR>, op: ArithOp): (n: nat)
    ensures n <= |s|
    ensures forall k :: 0 <= k < n ==> HasOp(s[k], op)
    ensures n < |s| ==> !HasOp(s[n], op)
  {
    if s == [] || !HasOp(s[0], op) then 0 else 1 + RunLen(s[1..], op)
  }

  /** The argument of an arithmetic instruction, 0 for the others. */
  function Arg(ins: BfIR): (r: nat) {
    if IsArith(ins) then ArgOf(ins) else 0
  }

  /** Sum of the arguments in s, without wrap-around. */
  function ArgSum(s: seq<BfIR>): (r: nat) {
    if s == [] then 0 else ArgSum(s[..|s| - 1]) + Arg(s[|s| - 1])
  }

  /** What `optimize_ir` leaves in the vector, with jump targets erased: each
      maximal run of one arithmetic variant becomes a single instruction of
      that variant carrying the run's argument sum modulo the variant's width;
      everything else is kept. */
  function Fold(s: seq<BfIR>): (r: seq<BfIR>)
    ensures |r| <= |s|
    ensures s != [] ==> r != [] && IsArith(r[0]) == IsArith(s[0])
    ensures s != [] && IsArith(s[0]) ==> HasOp(r[0], OpOf(s[0]))
    decreases |s|
  {
    if s == [] then []
    else if IsArith(s[0]) then
      var op := OpOf(s[0]);
      var n := 1 + RunLen(s[1..], op);
      [MakeArith(op, ArgSum(s[..n]) % Width(op))] + Fold(s[n..])
    else
      [Erase(s[0])] + Fold(s[1..])
  }

  /** No arithmetic instruction is followed by one of the same variant. */
  ghost predicate NoAdjacentRuns(c: seq<BfIR>) {
    forall k :: 0 < k < |c| ==> !(IsArith(c[k - 1]) && HasOp(c[k], OpOf(c[k - 1])))
  }

  /** Every jump target is 0. */
  ghost predicate Erased(c: seq<BfIR>) {
    forall k :: 0 <= k < |c| ==> Erase(c[k]) == c[k]
  }

  /** The instructions that are not arithmetic, targets erased, in order. */
  function Control(s: seq<BfIR>): (r: seq<BfIR>) {
    if s == [] then [] else (if IsArith(s[0]) then [] else [Erase(s[0])]) + Control(s[1..])
  }

  // ---------------------------------------------------------------------------
  // Properties of the specification

  /** The fold leaves no two neighbouring instructions that it could have
      merged: each run it produced was maximal. */
  lemma {:induction false} FoldMaximal(s: seq<BfIR>)
    ensures NoAdjacentRuns(Fold(s))
    decreases |s|
  {
    if s != [] {
      var n := if IsArith(s[0]) then 1 + RunLen(s[1..], OpOf(s[0])) else 1;
      var r, rest := Fold(s), Fold(s[n..]);
      assert r == [r[0]] + rest;
      FoldMaximal(s[n..]);
      forall k | 0 < k < |r|
        ensures !(IsArith(r[k - 1]) && HasOp(r[k], OpOf(r[k - 1])))
      {
        if k > 1 {
          assert r[k - 1] == rest[k - 2] && r[k] == rest[k - 1];
        } else if IsArith(r[0]) {
          assert s[n..][0] == s[1..][n - 1];
        }
      }
    }
  }

  lemma {:induction false} FoldErased(s: seq<BfIR>)
    ensures Erased(Fold(s))
    decreases |s|
  {
    if s != [] {
      var n := if IsArith(s[0]) then 1 + RunLen(s[1..], OpOf(s[0])) else 1;
      var r, rest := Fold(s), Fold(s[n..]);
      FoldErased(s[n..]);
      forall k | 0 <= k < |r|
        ensures Erase(r[k]) == r[k]
      {
        if k > 0 {
          assert r[k] == rest[k - 1];
        }
      }
    }
  }

  lemma MakeArithOf(ins: BfIR)
    requires IsArith(ins)
    ensures ArgOf(ins) < Width(OpOf(ins)) && MakeArith(OpOf(ins), ArgOf(ins)) == ins
  {
  }

  /** A vector without mergeable neighbours and without jump targets is left
      as it is. */
  lemma {:induction false} FoldFixpointIf(c: seq<BfIR>)
    requires NoAdjacentRuns(c) && Erased(c)
    ensures Fold(c) == c
    decreases |c|
  {
    if c != [] {
      NoAdjacentTail(c);
      FoldFixpointIf(c[1..]);
      assert Erase(c[0]) == c[0];
      if |c| > 1 {
        assert !(IsArith(c[0]) && HasOp(c[1], OpOf(c[0])));
      }
      FoldSingleHead(c);
      assert c == [c[0]] + c[1..];
    }
  }

  lemma NoAdjacentTail(c: seq<BfIR>)
    requires c != [] && NoAdjacentRuns(c) && Erased(c)
    ensures NoAdjacentRuns(c[1..]) && Erased(c[1..])
  {
    forall k | 0 < k < |c[1..]|
      ensures !(IsArith(c[1..][k - 1]) && HasOp(c[1..][k], OpOf(c[1..][k - 1])))
    {
      assert c[1..][k - 1] == c[k] && c[1..][k] == c[k + 1];
    }
  }

  /** The first instruction of such a vector is a run of one and folds to
      itself. */
  lemma FoldSingleHead(c: seq<BfIR>)
    requires c != [] && Erase(c[0]) == c[0]
    requires |c| > 1 && IsArith(c[0]) ==> !HasOp(c[1], OpOf(c[0]))
    ensures Fold(c) == [c[0]] + Fold(c[1..])
  {
    if IsArith(c[0]) {
      var op := OpOf(c[0]);
      RunLenSingle(c, op);
      assert ArgSum(c[..1]) == ArgOf(c[0]) by {
        assert c[..1] == [c[0]] && [c[0]][..0] == [];
      }
      MakeArithOf(c[0]);
      ModSmall(ArgOf(c[0]), Width(op));
    }
  }

  lemma RunLenSingle(c: seq<BfIR>, op: ArithOp)
    requires c != [] && (|c| > 1 ==> !HasOp(c[1], op))
    ensures RunLen(c[1..], op) == 0
  {
    if |c| > 1 {
      assert c[1..][0] == c[1];
    }
  }

  lemma ModSmall(a: nat, w: nat)
    requires a < w
    ensures a % w == a
  {
  }

  /** ...and only such a vector. */
  lemma FoldFixpointOnlyIf(c: seq<BfIR>)
    requires Fold(c) == c
    ensures NoAdjacentRuns(c) && Erased(c)
  {
    FoldMaximal(c);
    FoldErased(c);
  }

  /** Optimizing an optimized vector changes nothing but the jump targets,
      which it recomputes. */
  lemma FoldIdempotent(s: seq<BfIR>)
    ensures Fold(Fold(s)) == Fold(s)
  {
    FoldMaximal(s);
    FoldErased(s);
    FoldFixpointIf(Fold(s));
  }

  lemma {:induction false} ControlConcat(a: seq<BfIR>, b: seq<BfIR>)
    ensures Control(a + b) == Control(a) + Control(b)
    decreases |a|
  {
    if a != [] {
      assert (a + b)[0] == a[0] && (a + b)[1..] == a[1..] + b;
      ControlConcat(a[1..], b);
      var h := if IsArith(a[0]) then [] else [Erase(a[0])];
      calc {
        Control(a + b);
        h + Control(a[1..] + b);
        h + (Control(a[1..]) + Control(b));
        (h + Control(a[1..])) + Control(b);
        Control(a) + Control(b);
      }
    } else {
      assert a + b == b;
    }
  }

  lemma {:induction false} ControlRun(s: seq<BfIR>, op: ArithOp, n: nat)
    requires n <= |s| && forall k :: 0 <= k < n ==> HasOp(s[k], op)
    ensures Control(s[..n]) == []
    decreases n
  {
    if n > 0 {
      assert s[..n][1..] == s[1..][..n - 1];
      ControlRun(s[1..], op, n - 1);
    }
  }

  /** Folding touches only arithmetic: the I/O and bracket instructions come
      out in the same order. */
  lemma {:induction false} FoldControl(s: seq<BfIR>)
    ensures Control(Fold(s)) == Control(s)
    decreases |s|
  {
    if s != [] {
      if IsArith(s[0]) {
        var n := 1 + RunLen(s[1..], OpOf(s[0]));
        FoldControl(s[n..]);
        ControlArithHead(s);
      } else {
        FoldControl(s[1..]);
        assert Control(Fold(s)) == Control([Erase(s[0])] + Fold(s[1..]));
        ControlConcat([Erase(s[0])], Fold(s[1..]));
      }
    }
  }

  /** A leading run folds to one instruction, and neither has control
      instructions. */
  lemma ControlArithHead(s: seq<BfIR>)
    requires s != [] && IsArith(s[0])
    ensures var n := 1 + RunLen(s[1..], OpOf(s[0]));
      Control(Fold(s)) == Control(Fold(s[n..])) && Control(s) == Control(s[n..])
  {
    var op := OpOf(s[0]);
    var n := 1 + RunLen(s[1..], op);
    var h := MakeArith(op, ArgSum(s[..n]) % Width(op));
    assert Fold(s) == [h] + Fold(s[n..]);
    ControlConcat([h], Fold(s[n..]));
    RunPrefix(s, op);
    ControlRun(s, op, n);
    ControlSkipRun(s, n);
  }

  lemma ControlSkipRun(s: seq<BfIR>, n: nat)
    requires n <= |s| && Control(s[..n]) == []
    ensures Control(s) == Control(s[n..])
  {
    var a, b := s[..n], s[n..];
    ControlConcat(a, b);
    assert a + b == s;
  }

  /** The run of `s[0]`'s variant at the head of s, seen from s itself. */
  lemma RunPrefix(s: seq<BfIR>, op: ArithOp)
    requires s != [] && HasOp(s[0], op)
    ensures var n := 1 + RunLen(s[1..], op);
      n <= |s| && (forall k :: 0 <= k < n ==> HasOp(s[k], op)) && (n < |s| ==> !HasOp(s[n], op))
  {
    var n := 1 + RunLen(s[1..], op);
    forall k | 0 < k < n
      ensures HasOp(s[k], op)
    {
      assert s[k] == s[1..][k - 1];
    }
    assert n < |s| ==> s[n] == s[1..][n - 1];
  }

  lemma {:induction false} IrDepthConcat(a: seq<BfIR>, b: seq<BfIR>)
    ensures IrDepth(a + b) == IrDepth(a) + IrDepth(b)
    decreases |b|
  {
    if b != [] {
      var b' := b[..|b| - 1];
      assert (a + b)[..|a + b| - 1] == a + b';
      assert (a + b)[|a + b| - 1] == b[|b| - 1];
      IrDepthConcat(a, b');
      assert IrDepth(b) == IrDepth(b') + Delta(b[|b| - 1]);
    } else {
      assert a + b == a;
    }
  }

  lemma {:induction false} IrDepthControl(s: seq<BfIR>)
    ensures IrDepth(Control(s)) == IrDepth(s)
    decreases |s|
  {
    if s != [] {
      IrDepthControl(s[1..]);
      assert s == [s[0]] + s[1..];
      IrDepthConcat([s[0]], s[1..]);
      var h := if IsArith(s[0]) then [] else [Erase(s[0])];
      IrDepthConcat(h, Control(s[1..]));
      assert IrDepth([s[0]]) == Delta(s[0]) by { assert [s[0]][..0] == []; }
      if h != [] {
        assert IrDepth(h) == Delta(s[0]) by { assert h[..0] == []; }
      }
    }
  }

  /** Folding keeps the bracket balance, so the folded vector is balanced
      exactly when the input is. */
  lemma FoldDepth(s: seq<BfIR>)
    ensures IrDepth(Fold(s)) == IrDepth(s)
  {
    FoldControl(s);
    IrDepthControl(s);
    IrDepthControl(Fold(s));
  }

  /** The fold does not look at jump targets: erasing them first gives the
      same result. */
  lemma FoldSkeleton(s: seq<BfIR>)
    ensures Fold(Skeleton(s)) == Fold(s)
    decreases |s|, 1
  {
    if s != [] {
      if IsArith(s[0]) {
        FoldSkeletonRun(s);
      } else {
        FoldSkeletonOther(s);
      }
    }
  }

  lemma FoldSkeletonRun(s: seq<BfIR>)
    requires s != [] && IsArith(s[0])
    ensures Fold(Skeleton(s)) == Fold(s)
    decreases |s|, 0
  {
    var op := OpOf(s[0]);
    var n := 1 + RunLen(s[1..], op);
    var e := Skeleton(s);
    assert e[0] == s[0];
    SkeletonRun(s, op, n);
    SkeletonDrop(s, n);
    FoldSkeleton(s[n..]);
    FoldHead(s, n);
    FoldHead(e, n);
  }

  /** `Fold` of a suffix that starts with an instruction other than
      arithmetic. */
  lemma FoldOther(s: seq<BfIR>, i: nat)
    requires i < |s| && !IsArith(s[i])
    ensures Fold(s[i..]) == [Erase(s[i])] + Fold(s[i + 1..])
  {
    assert s[i..][0] == s[i] && s[i..][1..] == s[i + 1..];
  }

  /** `Fold` of a sequence that starts with a run of length n. */
  lemma FoldHead(s: seq<BfIR>, n: nat)
    requires s != [] && IsArith(s[0]) && n == 1 + RunLen(s[1..], OpOf(s[0]))
    ensures Fold(s) == [MakeArith(OpOf(s[0]), ArgSum(s[..n]) % Width(OpOf(s[0])))] + Fold(s[n..])
  {
  }

  lemma FoldSkeletonOther(s: seq<BfIR>)
    requires s != [] && !IsArith(s[0])
    ensures Fold(Skeleton(s)) == Fold(s)
    decreases |s|, 0
  {
    assert Skeleton(s)[0] == Erase(s[0]);
    SkeletonDrop(s, 1);
    FoldSkeleton(s[1..]);
  }

  /** Erasing jump targets leaves a run of arithmetic instructions alone. */
  lemma SkeletonRun(s: seq<BfIR>, op: ArithOp, n: nat)
    requires 0 < |s| && HasOp(s[0], op) && n == 1 + RunLen(s[1..], op)
    ensures Skeleton(s)[..n] == s[..n] && RunLen(Skeleton(s)[1..], op) == n - 1
  {
    var e := Skeleton(s);
    forall k | 0 <= k < n ensures e[k] == s[k] {
      assert k == 0 || HasOp(s[1..][k - 1], op);
    }
    assert n < |s| ==> e[n] == Erase(s[n]) && !HasOp(s[1..][n - 1], op);
    forall k | 0 <= k < n - 1 ensures HasOp(e[1..][k], op) {
      assert e[1..][k] == s[k + 1] && HasOp(s[1..][k], op);
    }
    RunLenExact(e[1..], op, n - 1);
  }

  lemma SkeletonDrop(s: seq<BfIR>, n: nat)
    requires n <= |s|
    ensures Skeleton(s)[n..] == Skeleton(s[n..])
  {
  }

  /** A run whose sum wraps to 0 is kept as a no-op instruction: the fold
      does not delete it. */
  lemma ZeroRunKept()
    ensures Fold([AddVal(255), AddVal(1)]) == [AddVal(0)]
  {
    var s := [AddVal(255), AddVal(1)];
    assert RunLen(s[1..], AddValOp) == 1;
    assert s[..2] == s && s[2..] == [];
    assert ArgSum(s) == 256 by { assert s[..1] == [AddVal(255)]; assert [AddVal(255)][..0] == []; }
  }

  // ---------------------------------------------------------------------------
  // Facts the loop uses

  lemma SkeletonAppend(c: seq<BfIR>, x: BfIR)
    ensures Skeleton(c + [x]) == Skeleton(c) + [Erase(x)]
  {
  }

  lemma SkeletonUpdate(c: seq<BfIR>, k: nat, x: BfIR)
    requires k < |c| && Erase(x) == Erase(c[k])
    ensures Skeleton(c[k := x]) == Skeleton(c)
  {
  }

  /** A run of arithmetic instructions does not change the bracket depth. */
  lemma {:induction false} DepthOverRun(s: seq<BfIR>, i: nat, j: nat)
    requires i <= j <= |s| && forall k :: i <= k < j ==> IsArith(s[k])
    ensures IrDepth(s[..j]) == IrDepth(s[..i])
    decreases j - i
  {
    if i < j {
      DepthOverRun(s, i, j - 1);
      assert s[..j][..j - 1] == s[..j - 1];
    }
  }

  lemma ArgSumStep(s: seq<BfIR>, i: nat, j: nat)
    requires i <= j < |s|
    ensures ArgSum(s[i..j + 1]) == ArgSum(s[i..j]) + Arg(s[j])
  {
    assert s[i..j + 1][..j - i] == s[i..j];
  }

  lemma ModStep(a: nat, b: nat, w: nat)
    requires w > 0
    ensures (a % w + b) % w == (a + b) % w
  {
    var y := a % w + b;
    ModUnique(a + b, w, a / w + y / w, y % w);
  }

  /** Euclidean division is unique. */
  lemma ModUnique(n: int, w: int, q: int, r: int)
    requires w > 0 && 0 <= r < w && n == q * w + r
    ensures n % w == r
  {
    var q', r' := n / w, n % w;
    assert n == q' * w + r';
    if q' < q {
      MulMono(q' + 1, q, w);
    } else if q < q' {
      MulMono(q + 1, q', w);
    }
  }

  lemma MulMono(a: int, b: int, w: int)
    requires a <= b && w >= 0
    ensures a * w <= b * w
  {
    assert b * w - a * w == (b - a) * w;
  }

  /** A run of exactly n `op` instructions. */
  lemma {:induction false} RunLenExact(s: seq<BfIR>, op: ArithOp, n: nat)
    requires n <= |s| && (forall k :: 0 <= k < n ==> HasOp(s[k], op)) && (n < |s| ==> !HasOp(s[n], op))
    ensures RunLen(s, op) == n
    decreases n
  {
    if n > 0 {
      RunLenExact(s[1..], op, n - 1);
    }
  }

  // ---------------------------------------------------------------------------
  // The in-place algorithm

  /** The `fold_ir!` macro: scans the run of `code[i]`'s variant that starts
      at i and accumulates its arguments with wrap-around. Returns the index
      after the run and the folded argument; `Fold` of the remaining input
      then begins with the folded instruction. */
  method FoldRun(code: array<BfIR>, i: nat) returns (j: nat, x: nat)
    requires i < code.Length && IsArith(code[i])
    ensures var s, op := code[..], OpOf(code[i]);
      j == i + 1 + RunLen(s[i + 1..], op)
      && x < Width(op) && x == ArgSum(s[i..j]) % Width(op)
      && Fold(s[i..]) == [MakeArith(op, x)] + Fold(s[j..])
  {
    ghost var s := code[..];
    var op := OpOf(code[i]);
    x := ArgOf(code[i]);
    RunStart(s, i);
    j := i + 1;
    while j < code.Length
      invariant RunAcc(s, i, j, op, x)
    {
      if !HasOp(code[j], op) {
        break;
      }
      // `x.wrapping_add(d)` in the variant's width
      AccStep(s, i, j, op, x);
      x := (x + ArgOf(code[j])) % Width(op);
      j := j + 1;
    }
    RunEnd(s, i, j, op, x);
  }

  /** The scan has read `s[i..j]`, all of variant op, into x. */
  ghost predicate RunAcc(s: seq<BfIR>, i: nat, j: nat, op: ArithOp, x: nat) {
    i < j <= |s| && (forall k :: i <= k < j ==> HasOp(s[k], op)) && x == ArgSum(s[i..j]) % Width(op)
  }

  lemma AccStep(s: seq<BfIR>, i: nat, j: nat, op: ArithOp, x: nat)
    requires RunAcc(s, i, j, op, x) && j < |s| && HasOp(s[j], op)
    ensures RunAcc(s, i, j + 1, op, (x + ArgOf(s[j])) % Width(op))
  {
    ArgSumStep(s, i, j);
    ModStep(ArgSum(s[i..j]), ArgOf(s[j]), Width(op));
  }

  lemma RunStart(s: seq<BfIR>, i: nat)
    requires i < |s| && IsArith(s[i])
    ensures ArgOf(s[i]) == ArgSum(s[i..i + 1]) % Width(OpOf(s[i]))
  {
    assert s[i..i + 1] == [s[i]] && [s[i]][..0] == [];
    MakeArithOf(s[i]);
  }

  /** The scan stopped at the end of the run: the run is `s[i..j]` and `Fold`
      of `s[i..]` starts with its folded instruction. */
  lemma RunEnd(s: seq<BfIR>, i: nat, j: nat, op: ArithOp, x: nat)
    requires i < j <= |s| && IsArith(s[i]) && OpOf(s[i]) == op
    requires forall k :: i <= k < j ==> HasOp(s[k], op)
    requires j < |s| ==> !HasOp(s[j], op)
    requires x == ArgSum(s[i..j]) % Width(op)
    ensures j == i + 1 + RunLen(s[i + 1..], op)
    ensures Fold(s[i..]) == [MakeArith(op, x)] + Fold(s[j..])
  {
    var t := s[i..];
    assert t[1..] == s[i + 1..];
    RunLenExact(t[1..], op, j - i - 1);
    assert t[..j - i] == s[i..j] && t[j - i..] == s[j..];
  }

  /** What the main loop knows after consuming `s[..i]` and writing `c[..pc]`:
      the unread input is intact, the stack has one entry per open bracket,
      each below pc, and (for vectors whose indices fit in u32, where `as u32`
      loses nothing) the written prefix is the fold so far with its brackets
      linked. */
  ghost predicate OptInv(s: seq<BfIR>, c: seq<BfIR>, i: nat, pc: nat, stk: seq<nat>) {
    OptFrame(s, c, i, pc, stk) && (|s| < U32_LIMIT ==> OptFits(s, c, i, pc, stk))
  }

  ghost predicate OptFrame(s: seq<BfIR>, c: seq<BfIR>, i: nat, pc: nat, stk: seq<nat>) {
    pc <= i <= |c| == |s|
    && c[i..] == s[i..]
    && |stk| == IrDepth(s[..i])
    && (forall m :: 0 <= m < |stk| ==> stk[m] < pc)
  }

  ghost predicate OptFits(s: seq<BfIR>, c: seq<BfIR>, i: nat, pc: nat, stk: seq<nat>)
    requires pc <= |c| && i <= |s|
  {
    Skeleton(c[..pc]) + Fold(s[i..]) == Fold(s) && PartialLinked(c[..pc], stk)
  }

  lemma OptInit(s: seq<BfIR>)
    ensures OptInv(s, s, 0, 0, [])
  {
    assert s[..0] == [];
    LinkEmpty();
  }

  /** The unread input and the stack bounds after consuming `s[i..j]` and
      writing one instruction. */
  lemma FrameStep(s: seq<BfIR>, c: seq<BfIR>, i: nat, j: nat, pc: nat, stk: seq<nat>, x: BfIR)
    requires OptFrame(s, c, i, pc, stk) && i < j <= |s| && IrDepth(s[..j]) == IrDepth(s[..i])
    ensures OptFrame(s, c[pc := x], j, pc + 1, stk)
  {
    assert c[pc := x][j..] == s[j..];
  }

  /** The fold so far grows by the instruction written for `s[i..j]`. */
  lemma SkelStep(d: seq<BfIR>, x: BfIR, s: seq<BfIR>, i: nat, j: nat)
    requires i <= j <= |s| && Skeleton(d) + Fold(s[i..]) == Fold(s)
    requires Fold(s[i..]) == [Erase(x)] + Fold(s[j..])
    ensures Skeleton(d + [x]) + Fold(s[j..]) == Fold(s)
  {
    SkeletonAppend(d, x);
    ConsumeHead(Skeleton(d), Erase(x), Fold(s), Fold(s[i..]), Fold(s[j..]));
  }

  lemma ConsumeHead(p: seq<BfIR>, e: BfIR, a: seq<BfIR>, b: seq<BfIR>, rest: seq<BfIR>)
    requires p + b == a && b == [e] + rest
    ensures (p + [e]) + rest == a
  {
    assert p + ([e] + rest) == (p + [e]) + rest;
  }

  /** Writing a non-bracket instruction at pc for the input `s[i..j]`. */
  lemma PlainFits(s: seq<BfIR>, c: seq<BfIR>, i: nat, j: nat, pc: nat, stk: seq<nat>, x: BfIR)
    requires pc <= i < j <= |c| == |s| && !x.Jz? && !x.Jnz?
    requires OptFits(s, c, i, pc, stk) && Fold(s[i..]) == [Erase(x)] + Fold(s[j..])
    ensures OptFits(s, c[pc := x], j, pc + 1, stk)
  {
    var d := c[..pc];
    assert c[pc := x][..pc + 1] == d + [x];
    SkelStep(d, x, s, i, j);
    LinkPlain(d, stk, x);
  }

  /** `normal_ir!`: `,` and `.` are copied down. */
  lemma OptCopy(s: seq<BfIR>, c: seq<BfIR>, i: nat, pc: nat, stk: seq<nat>)
    requires OptInv(s, c, i, pc, stk) && i < |s| && (s[i].GetByte? || s[i].PutByte?)
    ensures OptInv(s, c[pc := s[i]], i + 1, pc + 1, stk)
  {
    assert s[..i + 1][..i] == s[..i];
    FrameStep(s, c, i, i + 1, pc, stk, s[i]);
    if |s| < U32_LIMIT {
      FoldOther(s, i);
      PlainFits(s, c, i, i + 1, pc, stk, s[i]);
    }
  }

  /** `fold_ir!`: the run `s[i..j]` is written as one instruction. */
  lemma OptFold(s: seq<BfIR>, c: seq<BfIR>, i: nat, j: nat, pc: nat, stk: seq<nat>, x: BfIR)
    requires OptInv(s, c, i, pc, stk) && i < |s| && IsArith(c[i])
    requires j == i + 1 + RunLen(c[i + 1..], OpOf(c[i]))
    requires IsArith(x) && Fold(c[i..]) == [x] + Fold(c[j..])
    ensures OptInv(s, c[pc := x], j, pc + 1, stk)
  {
    assert c[i] == s[i] by { assert c[i..][0] == s[i..][0]; }
    assert c[i + 1..] == s[i + 1..] by { assert c[i + 1..] == c[i..][1..] && s[i + 1..] == s[i..][1..]; }
    assert j <= |s|;
    assert c[j..] == s[j..] by { assert c[j..] == c[i..][j - i..] && s[j..] == s[i..][j - i..]; }
    forall k | i < k < j
      ensures IsArith(s[k])
    {
      assert s[k] == s[i + 1..][k - i - 1];
    }
    DepthOverRun(s, i, j);
    FrameStep(s, c, i, j, pc, stk, x);
    if |s| < U32_LIMIT {
      PlainFits(s, c, i, j, pc, stk, x);
    }
  }

  /** `[`: a placeholder `Jz(0)` whose index is pushed. */
  lemma OptOpen(s: seq<BfIR>, c: seq<BfIR>, i: nat, pc: nat, stk: seq<nat>)
    requires OptInv(s, c, i, pc, stk) && i < |s| && s[i].Jz?
    ensures OptInv(s, c[pc := Jz(0)], i + 1, pc + 1, stk + [pc])
  {
    var c' := c[pc := Jz(0)];
    assert c'[i + 1..] == s[i + 1..];
    assert s[..i + 1][..i] == s[..i];
    assert forall m :: 0 <= m < |stk| ==> (stk + [pc])[m] == stk[m];
    if |s| < U32_LIMIT {
      OpenFits(s, c, i, pc, stk);
    }
  }

  lemma OpenFits(s: seq<BfIR>, c: seq<BfIR>, i: nat, pc: nat, stk: seq<nat>)
    requires pc <= i < |c| == |s| && s[i].Jz? && OptFits(s, c, i, pc, stk)
    ensures OptFits(s, c[pc := Jz(0)], i + 1, pc + 1, stk + [pc])
  {
    var d := c[..pc];
    assert c[pc := Jz(0)][..pc + 1] == d + [Jz(0)];
    FoldOther(s, i);
    SkelStep(d, Jz(0), s, i, i + 1);
    LinkOpen(d, stk);
  }

  /** `]` pops a bracket: there is one, since no prefix of the input closes
      more than it opens. */
  lemma OptCanPop(s: seq<BfIR>, c: seq<BfIR>, i: nat, pc: nat, stk: seq<nat>)
    requires OptInv(s, c, i, pc, stk) && i < |s| && s[i].Jnz? && NoStrayJnz(s)
    ensures |stk| > 0
  {
    assert s[..i + 1][..i] == s[..i];
    assert IrDepth(s[..i + 1]) >= 0;
  }

  /** `]`: write `Jnz` to the popped index and back-patch the `Jz` there. */
  lemma OptClose(s: seq<BfIR>, c: seq<BfIR>, i: nat, pc: nat, stk: seq<nat>)
    requires OptInv(s, c, i, pc, stk) && i < |s| && s[i].Jnz? && |stk| > 0
    ensures var top := stk[|stk| - 1];
      AsU32(top) < pc
      && OptInv(s, c[pc := Jnz(AsU32(top))][AsU32(top) := Jz(AsU32(pc))], i + 1, pc + 1, stk[..|stk| - 1])
  {
    var top := stk[|stk| - 1];
    var t := AsU32(top);
    var c' := c[pc := Jnz(t)][t := Jz(AsU32(pc))];
    assert c'[i + 1..] == s[i + 1..];
    assert s[..i + 1][..i] == s[..i];
    var stk' := stk[..|stk| - 1];
    assert forall m :: 0 <= m < |stk'| ==> stk'[m] == stk[m];
    if |s| < U32_LIMIT {
      CloseFits(s, c, i, pc, stk);
    }
  }

  lemma CloseFits(s: seq<BfIR>, c: seq<BfIR>, i: nat, pc: nat, stk: seq<nat>)
    requires pc <= i < |c| == |s| < U32_LIMIT && s[i].Jnz? && |stk| > 0
    requires OptFits(s, c, i, pc, stk)
    ensures var top := stk[|stk| - 1];
      OptFits(s, c[pc := Jnz(top)][top := Jz(pc)], i + 1, pc + 1, stk[..|stk| - 1])
  {
    var top := stk[|stk| - 1];
    var d := c[..pc];
    assert top < pc && d[top] == Jz(0);
    assert c[pc := Jnz(top)][top := Jz(pc)][..pc + 1] == d[top := Jz(pc)] + [Jnz(top)];
    CloseSkel(s, d, i, top);
    LinkClose(d, stk);
  }

  /** Patching the placeholder at top and appending its `Jnz` consumes the
      `Jnz` at i from the fold. */
  lemma CloseSkel(s: seq<BfIR>, d: seq<BfIR>, i: nat, top: nat)
    requires i < |s| && s[i].Jnz? && top < |d| < U32_LIMIT && d[top] == Jz(0)
    requires Skeleton(d) + Fold(s[i..]) == Fold(s)
    ensures Skeleton(d[top := Jz(|d|)] + [Jnz(top)]) + Fold(s[i + 1..]) == Fold(s)
  {
    var d' := d[top := Jz(|d|)];
    SkeletonUpdate(d, top, Jz(|d|));
    SkeletonAppend(d', Jnz(top));
    FoldOther(s, i);
    ConsumeHead(Skeleton(d), Jnz(0), Fold(s), Fold(s[i..]), Fold(s[i + 1..]));
  }

  /** `fold_ir!`: fold the run at i into code[pc]. */
  method FoldStep(code: array<BfIR>, ghost s: seq<BfIR>, ghost c: seq<BfIR>, i: nat, pc: nat, stk: seq<nat>)
    returns (i': nat, pc': nat, ghost c': seq<BfIR>)
    requires c == code[..] && OptInv(s, c, i, pc, stk) && i < |s| && IsArith(code[i])
    modifies code
    ensures i < i' && c' == code[..] && OptInv(s, c', i', pc', stk)
  {
    var op := OpOf(code[i]);
    var j, x := FoldRun(code, i);
    OptFold(s, c, i, j, pc, stk, MakeArith(op, x));
    code[pc] := MakeArith(op, x);
    c' := c[pc := MakeArith(op, x)];
    i', pc' := j, pc + 1;
  }

  /** `normal_ir!`: copy `,` or `.` down to code[pc]. */
  method CopyStep(code: array<BfIR>, ghost s: seq<BfIR>, ghost c: seq<BfIR>, i: nat, pc: nat, stk: seq<nat>)
    returns (i': nat, pc': nat, ghost c': seq<BfIR>)
    requires c == code[..] && OptInv(s, c, i, pc, stk) && i < |s| && (code[i].GetByte? || code[i].PutByte?)
    modifies code
    ensures i < i' && c' == code[..] && OptInv(s, c', i', pc', stk)
  {
    assert code[i] == s[i] by { assert c[i..][0] == s[i..][0]; }
    OptCopy(s, c, i, pc, stk);
    code[pc] := code[i];
    c' := c[pc := s[i]];
    i', pc' := i + 1, pc + 1;
  }

  /** `[`: write the placeholder `Jz(0)` and push its index. */
  method OpenStep(code: array<BfIR>, ghost s: seq<BfIR>, ghost c: seq<BfIR>, i: nat, pc: nat, stk: seq<nat>)
    returns (i': nat, pc': nat, stk': seq<nat>, ghost c': seq<BfIR>)
    requires c == code[..] && OptInv(s, c, i, pc, stk) && i < |s| && code[i].Jz?
    modifies code
    ensures i < i' && c' == code[..] && OptInv(s, c', i', pc', stk')
  {
    assert code[i] == s[i] by { assert c[i..][0] == s[i..][0]; }
    OptOpen(s, c, i, pc, stk);
    code[pc] := Jz(0);
    c' := c[pc := Jz(0)];
    stk' := stk + [pc];
    i', pc' := i + 1, pc + 1;
  }

  /** `]`: pop the matching `[`, write `Jnz` to it and back-patch its `Jz`. */
  method CloseStep(code: array<BfIR>, ghost s: seq<BfIR>, ghost c: seq<BfIR>, i: nat, pc: nat, stk: seq<nat>)
    returns (i': nat, pc': nat, stk': seq<nat>, ghost c': seq<BfIR>)
    requires c == code[..] && OptInv(s, c, i, pc, stk) && i < |s| && code[i].Jnz? && NoStrayJnz(s)
    modifies code
    ensures i < i' && c' == code[..] && OptInv(s, c', i', pc', stk')
  {
    assert code[i] == s[i] by { assert c[i..][0] == s[i..][0]; }
    OptCanPop(s, c, i, pc, stk);
    OptClose(s, c, i, pc, stk);
    var jzPos := AsU32(stk[|stk| - 1]);
    stk' := stk[..|stk| - 1];
    code[pc] := Jnz(jzPos);
    ghost var c1 := c[pc := Jnz(jzPos)];
    assert code[..] == c1;
    code[jzPos] := Jz(AsU32(pc));
    c' := c1[jzPos := Jz(AsU32(pc))];
    assert code[..] == c';
    i', pc' := i + 1, pc + 1;
  }

  /** `optimize_ir`. The vector keeps its length; `n` is the length that
      `truncate` cuts it to. The kept prefix is `Fold` of the input with the
      brackets linked afresh (for inputs below 2^32 instructions, where the
      source's `as u32` casts are exact); brackets the input leaves open stay
      `Jz(0)` and are returned in `open`. The `unwrap` on the bracket stack
      panics on a `Jnz` with nothing open, which callers rule out. */
  method OptimizeIr(code: array<BfIR>) returns (n: nat, ghost open: seq<nat>)
    requires NoStrayJnz(code[..])
    modifies code
    ensures n <= code.Length
    ensures |open| == IrDepth(old(code[..]))
    ensures code.Length < U32_LIMIT ==> Skeleton(code[..n]) == Fold(old(code[..])) && PartialLinked(code[..n], open)
    ensures code.Length < U32_LIMIT && IrDepth(old(code[..])) == 0 ==> Linked(code[..n])
  {
    ghost var s := code[..];
    ghost var c := s;
    var i: nat, pc: nat := 0, 0;
    var len := code.Length;
    var stk: seq<nat> := [];
    OptInit(s);
    while i < len
      invariant c == code[..] && OptInv(s, c, i, pc, stk)
      decreases len - i
    {
      match code[i] {
        case AddVal(_) | SubVal(_) | AddPtr(_) | SubPtr(_) =>
          i, pc, c := FoldStep(code, s, c, i, pc, stk);
        case GetByte | PutByte =>
          i, pc, c := CopyStep(code, s, c, i, pc, stk);
        case Jz(_) =>
          i, pc, stk, c := OpenStep(code, s, c, i, pc, stk);
        case Jnz(_) =>
          i, pc, stk, c := CloseStep(code, s, c, i, pc, stk);
      }
    }
    OptDone(s, c, pc, stk);
    n, open := pc, stk;
  }

  lemma OptDone(s: seq<BfIR>, c: seq<BfIR>, pc: nat, stk: seq<nat>)
    requires OptInv(s, c, |s|, pc, stk)
    ensures pc <= |c| && |stk| == IrDepth(s)
    ensures |s| < U32_LIMIT ==> Skeleton(c[..pc]) == Fold(s) && PartialLinked(c[..pc], stk)
    ensures |s| < U32_LIMIT && IrDepth(s) == 0 ==> Linked(c[..pc])
  {
    assert s[..|s|] == s && s[|s|..] == [];
    if |s| < U32_LIMIT && IrDepth(s) == 0 {
      PartialLinkedDone(c[..pc]);
    }
  }
}
