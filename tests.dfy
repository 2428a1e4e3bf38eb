/** The unit tests of src/ir.rs, derived from the contracts of `Compile`
    and `OptimizeIr` alone. */
module IrTests {
  import opened Base
  import opened Ir
  import opened Frontend
  import opened Optimizer

  /** `test_compile`, first case: a loop body is linked both ways. */
  method CompileLoop() returns (r: Result<seq<BfIR>, CompileError>)
    ensures r == Ok([AddVal(1), Jz(4), GetByte, PutByte, Jnz(1)])
  {
    LoopSource();
    r := Compile("+[,.]");
    LoopCode(r.value);
  }

  lemma LoopSource()
    ensures Balanced("+[,.]") && Tokens("+[,.]") == "+[,.]"
  {
    var src := "+[,.]";
    TokensAll(src);
    forall j | 0 <= j <= |src| ensures Depth(src[..j]) >= 0 {
      LoopDepth(src, j);
    }
    LoopDepth(src, 5);
    assert src[..5] == src;
  }

  /** The depth along `+[,.]`: 1 inside the loop, 0 outside. */
  lemma {:induction false} LoopDepth(src: string, j: nat)
    requires src == "+[,.]" && j <= 5
    ensures Depth(src[..j]) == if 2 <= j <= 4 then 1 else 0
  {
    if j == 0 {
      assert src[..0] == [];
    } else {
      assert src[..j] == src[..j - 1] + [src[j - 1]];
      Snoc(src[..j - 1], src[j - 1]);
      LoopDepth(src, j - 1);
    }
  }

  /** The only linked code spelling `+[,.]`. */
  lemma LoopCode(c: seq<BfIR>)
    requires Shaped(c, "+[,.]") && Linked(c)
    ensures c == [AddVal(1), Jz(4), GetByte, PutByte, Jnz(1)]
  {
    assert CharOf(c[0]) == '+' && UnitArg(c[0]) && CharOf(c[2]) == ',' && CharOf(c[3]) == '.';
    assert CharOf(c[1]) == '[' && CharOf(c[4]) == ']';
    assert JzLinked(c, 1);
  }

  /** `test_compile`, second case: an unclosed `[`. */
  method CompileUnclosed() returns (r: Result<seq<BfIR>, CompileError>)
    ensures r.Err? && r.error == CompileError(0, 1, UncloseLeftBracket)
  {
    var src := "[";
    assert src[..0] == [] && src[..1] == src;
    r := Compile(src);
    assert LastOpen(src, 0) == 0;
  }

  /** `test_compile`, third case: a `]` with nothing to close. */
  method CompileStray() returns (r: Result<seq<BfIR>, CompileError>)
    ensures r.Err? && r.error == CompileError(0, 1, UnexpectedRightBracket)
  {
    var src := "]";
    assert src[..0] == [] && src[..1] == src;
    assert Depth(src) == -1;
    r := Compile(src);
    ghost var k :| StrayClose(src, k) && r.error.line == AsU32(LineOf(src[..k + 1]))
      && r.error.col == AsU32(ColOf(src[..k + 1]));
    assert k == 0;
  }

  /** `test_optimize`: the run of seven `+` inside a loop becomes one
      instruction and the loop is linked again around it. */
  method OptimizeLoop() returns (code: seq<BfIR>)
    ensures code == [Jz(2), AddVal(7), Jnz(0)]
  {
    var src := "[+++++++]";
    SevenSource();
    var r := Compile(src);
    var ir := r.value;
    var a := new BfIR[|ir|](k requires 0 <= k < |ir| => ir[k]);
    assert a[..] == ir;
    var n: nat;
    ghost var open: seq<nat>;
    n, open := OptimizeIr(a);
    code := a[..n];
    ShapedUnits(ir, src);
    FoldSkeleton(ir);
    SevenUnits(src);
    FoldLoopOnes(7);
    SevenCode(code);
  }

  lemma SevenSource()
    ensures Balanced("[+++++++]") && Tokens("[+++++++]") == "[+++++++]"
  {
    var src := "[+++++++]";
    TokensAll(src);
    SevenOpen(src, 8);
    assert src[..8] + [src[8]] == src;
    Snoc(src[..8], src[8]);
    forall j | 0 <= j <= |src| ensures Depth(src[..j]) >= 0 {
      if 1 <= j <= 8 {
        SevenOpen(src, j);
      } else if j == 0 {
        assert src[..0] == [];
      } else {
        assert src[..j] == src;
      }
    }
  }

  /** Inside the loop of `[+++++++]` the depth is 1. */
  lemma {:induction false} SevenOpen(src: string, j: nat)
    requires src == "[+++++++]" && 1 <= j <= 8
    ensures Depth(src[..j]) == 1
  {
    assert src[..j] == src[..j - 1] + [src[j - 1]];
    Snoc(src[..j - 1], src[j - 1]);
    if j > 1 {
      SevenOpen(src, j - 1);
    } else {
      assert src[..0] == [];
    }
  }

  /** A text of instruction characters only is its own token sequence. */
  lemma {:induction false} TokensAll(s: string)
    requires forall i :: 0 <= i < |s| ==> IsInstrChar(s[i])
    ensures Tokens(s) == s
  {
    if s != [] {
      TokensAll(s[..|s| - 1]);
      assert s[..|s| - 1] + [s[|s| - 1]] == s;
    }
  }

  /** A loop around a run of n `+` folds to a loop around one `AddVal`
      carrying n modulo 256. */
  lemma FoldLoopOnes(n: nat)
    requires n > 0
    ensures Fold([Jz(0)] + seq(n, _ => AddVal(1)) + [Jnz(0)]) == [Jz(0), AddVal(n % 256), Jnz(0)]
  {
    var r := seq(n, _ => AddVal(1)) + [Jnz(0)];
    var s := [Jz(0)] + r;
    assert s == [Jz(0)] + seq(n, _ => AddVal(1)) + [Jnz(0)];
    assert s[0] == Jz(0) && s[0..] == s && s[1..] == r;
    FoldOther(s, 0);
    FoldOnes(n);
  }

  lemma SevenUnits(t: string)
    requires t == "[+++++++]"
    ensures Units(t) == [Jz(0)] + seq(7, _ => AddVal(1)) + [Jnz(0)]
  {
  }

  /** A run of n `+` folds to one `AddVal` carrying n modulo 256. */
  lemma FoldOnes(n: nat)
    requires n > 0
    ensures Fold(seq(n, _ => AddVal(1)) + [Jnz(0)]) == [AddVal(n % 256), Jnz(0)]
  {
    var ones := seq(n, _ => AddVal(1));
    var r := ones + [Jnz(0)];
    assert forall k :: 0 <= k < n - 1 ==> r[1..][k] == AddVal(1);
    assert r[1..][n - 1] == Jnz(0);
    RunLenExact(r[1..], AddValOp, n - 1);
    FoldHead(r, n);
    assert r[..n] == ones && r[n..] == [Jnz(0)];
    ArgSumOnes(n);
    FoldOther([Jnz(0)], 0);
    assert [Jnz(0)][0..] == [Jnz(0)] && [Jnz(0)][1..] == [];
  }

  lemma {:induction false} ArgSumOnes(n: nat)
    ensures ArgSum(seq(n, _ => AddVal(1))) == n
  {
    if n > 0 {
      ArgSumOnes(n - 1);
      assert seq(n, _ => AddVal(1))[..n - 1] == seq(n - 1, _ => AddVal(1));
    }
  }

  /** The only linked code whose skeleton is `[Jz(0), AddVal(7), Jnz(0)]`. */
  lemma SevenCode(c: seq<BfIR>)
    requires Skeleton(c) == [Jz(0), AddVal(7), Jnz(0)] && Linked(c)
    ensures c == [Jz(2), AddVal(7), Jnz(0)]
  {
    assert Skeleton(c)[0] == Erase(c[0]) && Skeleton(c)[1] == Erase(c[1]) && Skeleton(c)[2] == Erase(c[2]);
    assert JzLinked(c, 0);
  }

  /** Depth and Tokens extended by one character. */
  lemma Snoc(s: string, ch: char)
    ensures Depth(s + [ch]) == Depth(s) + CharDelta(ch)
    ensures Tokens(s + [ch]) == Tokens(s) + if IsInstrChar(ch) then [ch] else []
  {
    assert (s + [ch])[..|s|] == s;
  }
}
