/** The monitor's expression evaluator (nemu/src/monitor/expr.c): a recursion
    that splits a token array at its dominant operator, proved to compute the
    value of the expression tree the tokens were written from. */
module Expr {

  import opened Words

  datatype BinOp = Mul | Div | Add | Sub | Eq | Ne | And | Or

  datatype PrefixOp = Not | Neg | Deref

  /** A token after make_token.  Operand stands for NUM, HEX, REG and SYMB
      together with the value the leaf denotes. */
  datatype Token = LParen | RParen | Binary(op: BinOp) | Prefix(pre: PrefixOp) | Operand(value: Word)

  /** What a call of eval ends in.  Indeterminate is the uninitialised local read
      for a single operator token, Trap a division by zero, Abort the assert on a
      dominant token that is no operator, Hang the loop of dominant_op that stays
      at an unclosed parenthesis forever. */
  datatype Outcome = Val(v: Word) | Indeterminate | Trap | Abort | Hang {
    predicate Crash() { Trap? || Abort? || Hang? }
  }

  /** The returned value and the final content of *valid. */
  datatype Result = Result(out: Outcome, valid: bool)

  // ---------------------------------------------------------------------
  // Operators
  // ---------------------------------------------------------------------

  function Bit(b: bool): Word { if b then 1 else 0 }

  function Compute(op: BinOp, x: Word, y: Word): Outcome {
    match op
    case Add => Val(Wrap(x + y))
    case Sub => Val(Wrap(x - y))
    case Mul => Val(Wrap(x * y))
    case Div => if y == 0 then Trap else Val(x / y)
    case Eq => Val(Bit(x == y))
    case Ne => Val(Bit(x != y))
    case And => Val(Bit(x != 0 && y != 0))
    case Or => Val(Bit(x != 0 || y != 0))
  }

  function ApplyBinary(op: BinOp, x: Outcome, y: Outcome): Outcome {
    if x.Crash() then x
    else if y.Crash() then y
    else if x.Val? && y.Val? then Compute(op, x.v, y.v)
    else Indeterminate
  }

  function ApplyPrefix(op: PrefixOp, x: Outcome, load: Word -> Word): Outcome {
    if !x.Val? then x
    else
      match op
      case Not => Val(Bit(x.v == 0))
      case Neg => Val(Wrap(0x1_0000_0000 - x.v))
      case Deref => Val(load(x.v))
  }

  function Precedence(t: Token): nat {
    match t
    case Prefix(_) => 5
    case Binary(Mul) => 4
    case Binary(Div) => 4
    case Binary(Add) => 3
    case Binary(Sub) => 3
    case Binary(Eq) => 2
    case Binary(Ne) => 2
    case Binary(And) => 1
    case Binary(Or) => 0
    case _ => 10
  }

  // ---------------------------------------------------------------------
  // Parentheses
  // ---------------------------------------------------------------------

  function Nesting(t: Token): int {
    if t == LParen then 1 else if t == RParen then -1 else 0
  }

  /** Open parentheses minus closed ones among the first n tokens. */
  function Depth(s: seq<Token>, n: nat): int
    requires n <= |s|
  {
    if n == 0 then 0 else Depth(s, n - 1) + Nesting(s[n - 1])
  }

  ghost predicate Balanced(s: seq<Token>) {
    && (forall i :: 0 <= i <= |s| ==> Depth(s, i) >= 0)
    && Depth(s, |s|) == 0
  }

  /** Balanced but for an opening parenthesis in the last place, which
      check_parentheses does not count. */
  predicate DanglingOpen(s: seq<Token>) {
    && |s| > 0 && s[|s| - 1] == LParen
    && (forall i :: 0 <= i < |s| ==> Depth(s, i) >= 0)
    && Depth(s, |s| - 1) == 0
  }

  /** The first token opens a parenthesis that the last one closes. */
  ghost predicate Wrapped(s: seq<Token>) {
    && |s| >= 2 && s[0] == LParen && s[|s| - 1] == RParen && Balanced(s)
    && forall i :: 0 < i < |s| ==> Depth(s, i) > 0
  }

  predicate Splits(s: seq<Token>, i: nat)
    requires i < |s|
  {
    s[i] != LParen && s[i] != RParen && Depth(s, i) == 0
  }

  /** The rightmost of the lowest-precedence tokens outside all parentheses
      among the first n, or 0. */
  function DominantAmong(s: seq<Token>, n: nat): (k: nat)
    requires n <= |s| && |s| > 0
    ensures k < |s| && (k < n || k == 0)
  {
    if n == 0 then 0
    else
      var m := DominantAmong(s, n - 1);
      if Splits(s, n - 1) && Precedence(s[n - 1]) <= Precedence(s[m]) then n - 1 else m
  }

  /** eval on a slice of the token array. */
  ghost function Eval(s: seq<Token>, valid: bool, load: Word -> Word): Result
    decreases |s|
  {
    if |s| == 0 then Result(Val(0), valid)
    else if |s| == 1 then Result(if s[0].Operand? then Val(s[0].value) else Indeterminate, valid)
    else if Wrapped(s) then Eval(s[1..|s| - 1], true, load)
    else if Balanced(s) then
      var k := DominantAmong(s, |s|);
      var left := Eval(s[..k], true, load);
      var right := Eval(s[k + 1..], left.valid, load);
      Result(Combine(s[k], left.out, right.out, load), right.valid)
    else if DanglingOpen(s) then Result(Hang, true)
    else Result(Val(0), false)
  }

  /** The switch on the dominant token (expr.c:377-404). */
  function Combine(t: Token, x: Outcome, y: Outcome, load: Word -> Word): Outcome {
    if x.Crash() then x
    else if y.Crash() then y
    else
      match t
      case Binary(op) => ApplyBinary(op, x, y)
      case Prefix(op) => ApplyPrefix(op, y, load)
      case _ => Abort
  }

  // ---------------------------------------------------------------------
  // The loops and the recursion, which only read the token array
  // ---------------------------------------------------------------------

  method CheckParentheses(tokens: seq<Token>, p: nat, q: nat) returns (flag: bool, valid: bool)
    requires p < q < |tokens|
    ensures valid <==> Balanced(tokens[p..q + 1]) || DanglingOpen(tokens[p..q + 1])
    ensures flag <==> Wrapped(tokens[p..q + 1])
  {
    ghost var s := tokens[p..q + 1];
    flag := true;
    if tokens[p] != LParen || tokens[q] != RParen {
      flag := false;
    }
    var left, right := 0, 0;
    var i := p;
    while i < q
      invariant p <= i <= q
      invariant left >= 0 && right >= 0
      invariant right == 0 ==> left == Depth(s, i - p) && forall j :: 0 <= j <= i - p ==> Depth(s, j) >= 0
      invariant right > 0 ==> exists j :: 0 <= j <= i - p && Depth(s, j) < 0
      invariant right == 0 ==>
                  (flag <==> s[0] == LParen && s[q - p] == RParen && forall j :: 0 < j <= i - p ==> Depth(s, j) > 0)
    {
      assert tokens[i] == s[i - p];
      assert Depth(s, i - p + 1) == Depth(s, i - p) + Nesting(tokens[i]);
      if tokens[i] == LParen {
        left := left + 1;
      } else if tokens[i] == RParen {
        if left > 0 {
          left := left - 1;
          if left == 0 {
            flag := false;
          }
        } else {
          right := right + 1;
        }
      }
      i := i + 1;
    }
    assert tokens[q] == s[q - p];
    assert Depth(s, q - p + 1) == Depth(s, q - p) + Nesting(tokens[q]);
    if tokens[q] == RParen {
      if left > 0 {
        left := left - 1;
      } else {
        right := right + 1;
      }
    }
    assert |s| == q - p + 1 && s == tokens[p..q + 1];
    if left + right == 0 {
      assert forall j :: 0 <= j <= |s| ==> Depth(s, j) >= 0;
      assert tokens[q] != LParen ==> Balanced(s);
      assert flag ==> Wrapped(s);
      assert Wrapped(s) ==> flag;
      valid := true;
    } else {
      if right == 0 {
        assert Depth(s, |s|) != 0;
      }
      assert !Balanced(s);
      valid := false;
      flag := false;
    }
  }

  /** The inner loop of dominant_op: skips a parenthesised group. */
  method SkipGroup(tokens: seq<Token>, p: nat, q: nat, i: nat) returns (next: nat)
    requires p <= i <= q < |tokens| && tokens[i] == LParen
    requires Balanced(tokens[p..q + 1]) && Depth(tokens[p..q + 1], i - p) == 0
    ensures i < next <= q + 1
    ensures var s := tokens[p..q + 1];
            Depth(s, next - p) == 0 && DominantAmong(s, next - p) == DominantAmong(s, i - p)
  {
    ghost var s := tokens[p..q + 1];
    assert s[i - p] == LParen;
    next := i;
    var left, j := 1, 1;
    assert DominantAmong(s, i - p + 1) == DominantAmong(s, i - p);
    while i + j <= q
      invariant 1 <= j && i + j <= q + 1
      invariant left > 0 && left == Depth(s, i + j - p)
      invariant DominantAmong(s, i + j - p) == DominantAmong(s, i - p)
    {
      assert tokens[i + j] == s[i + j - p];
      assert !Splits(s, i + j - p);
      if tokens[i + j] == LParen {
        left := left + 1;
      } else if tokens[i + j] == RParen {
        left := left - 1;
        if left == 0 {
          return i + j + 1;
        }
      }
      j := j + 1;
    }
    assert false;
  }

  method DominantOp(tokens: seq<Token>, p: nat, q: nat) returns (min: nat)
    requires p <= q < |tokens| && Balanced(tokens[p..q + 1])
    ensures min == p + DominantAmong(tokens[p..q + 1], q + 1 - p)
  {
    ghost var s := tokens[p..q + 1];
    min := p;
    var i := p;
    while i <= q
      invariant p <= i <= q + 1 && p <= min <= q
      invariant Depth(s, i - p) == 0
      invariant min == p + DominantAmong(s, i - p)
    {
      assert tokens[i] == s[i - p] && tokens[min] == s[min - p];
      assert Depth(s, i - p + 1) >= 0;
      assert DominantAmong(s, i - p + 1)
          == if Splits(s, i - p) && Precedence(s[i - p]) <= Precedence(s[min - p]) then i - p else min - p;
      if tokens[i] == LParen {
        i := SkipGroup(tokens, p, q, i);
      } else if Precedence(tokens[i]) <= Precedence(tokens[min]) {
        min := i;
        i := i + 1;
      } else {
        i := i + 1;
      }
    }
  }

  lemma DanglingDepth(s: seq<Token>)
    ensures DanglingOpen(s) ==> Depth(s, |s|) == 1
  {
  }

  lemma EvalDangling(s: seq<Token>, valid: bool, load: Word -> Word)
    requires |s| >= 2
    ensures DanglingOpen(s) ==> !Balanced(s) && Eval(s, valid, load).out == Hang
  {
    DanglingDepth(s);
  }

  lemma EvalWrapped(s: seq<Token>, t: seq<Token>, valid: bool, load: Word -> Word)
    requires Wrapped(s) && t == s[1..|s| - 1]
    ensures Eval(s, valid, load) == Eval(t, true, load)
  {
  }

  lemma EvalWrappedAt(tokens: seq<Token>, p: int, q: int, valid: bool, load: Word -> Word)
    requires 0 <= p < q < |tokens| && Wrapped(tokens[p..q + 1])
    ensures p + 1 <= q && Eval(tokens[p..q + 1], valid, load) == Eval(tokens[p + 1..q], true, load)
  {
    SliceOfSlice(tokens, p, q + 1, 1, q - p);
    EvalWrapped(tokens[p..q + 1], tokens[p + 1..q], valid, load);
  }

  /** What eval makes of a sequence split at its k-th token (expr.c:375-404). */
  ghost function SplitResult(s: seq<Token>, k: nat, load: Word -> Word): Result
    requires k < |s|
  {
    var left := Eval(s[..k], true, load);
    var right := Eval(s[k + 1..], left.valid, load);
    Result(Combine(s[k], left.out, right.out, load), right.valid)
  }

  lemma EvalSplit(s: seq<Token>, k: nat, valid: bool, load: Word -> Word)
    requires |s| >= 2 && Balanced(s) && !Wrapped(s) && k == DominantAmong(s, |s|)
    ensures Eval(s, valid, load) == SplitResult(s, k, load)
  {
  }

  lemma EvalSplitAt(s: seq<Token>, n: nat, valid: bool, load: Word -> Word)
    requires |s| == n >= 2 && !Wrapped(s) && (Balanced(s) || DanglingOpen(s)) && Eval(s, valid, load).out != Hang
    ensures Balanced(s) && Eval(s, valid, load) == SplitResult(s, DominantAmong(s, n), load)
  {
    EvalDangling(s, valid, load);
    EvalSplit(s, DominantAmong(s, n), valid, load);
  }

  lemma EvalInvalid(s: seq<Token>, valid: bool, load: Word -> Word)
    requires |s| >= 2 && !Balanced(s) && !DanglingOpen(s)
    ensures Eval(s, valid, load) == Result(Val(0), false)
  {
  }

  lemma SliceOfSlice(t: seq<Token>, p: nat, q: nat, i: nat, j: nat)
    requires p <= q <= |t| && i <= j <= q - p
    ensures t[p..q][i..j] == t[p + i..p + j]
    ensures t[p..q][..j] == t[p..p + j]
    ensures j == q - p ==> t[p..q][i..] == t[p + i..q]
  {
    assert forall k :: 0 <= k < j - i ==> t[p..q][i..j][k] == t[p..q][i + k] == t[p + i..p + j][k];
  }

  method EvalTokens(tokens: seq<Token>, p: int, q: int, valid0: bool, load: Word -> Word)
      returns (out: Outcome, valid: bool)
    requires 0 <= p <= q + 1 <= |tokens|
    requires Eval(tokens[p..q + 1], valid0, load).out != Hang
    ensures out == Eval(tokens[p..q + 1], valid0, load).out
    ensures !out.Crash() ==> valid == Eval(tokens[p..q + 1], valid0, load).valid
    decreases q - p + 1, 3
  {
    ghost var s := tokens[p..q + 1];
    valid := valid0;
    if p > q {
      return Val(0), valid;
    }
    if p == q {
      assert s[0] == tokens[p];
      if tokens[p].Operand? {
        return Val(tokens[p].value), valid;
      } else {
        return Indeterminate, valid;
      }
    }
    out, valid := EvalRange(tokens, p, q, valid, load);
  }

  /** Ranges of two tokens or more (expr.c:367-409). */
  method EvalRange(tokens: seq<Token>, p: int, q: int, ghost valid0: bool, load: Word -> Word)
      returns (out: Outcome, valid: bool)
    requires 0 <= p < q < |tokens|
    requires Eval(tokens[p..q + 1], valid0, load).out != Hang
    ensures out == Eval(tokens[p..q + 1], valid0, load).out
    ensures !out.Crash() ==> valid == Eval(tokens[p..q + 1], valid0, load).valid
    decreases q - p + 1, 2
  {
    var flag;
    flag, valid := CheckParentheses(tokens, p, q);
    if flag {
      out, valid := EvalInside(tokens, p, q, valid0, valid, load);
    } else if valid {
      out, valid := EvalDominant(tokens, p, q, valid0, load);
    } else {
      EvalInvalid(tokens[p..q + 1], valid0, load);
      out := Val(0);
    }
  }

  /** Between the parentheses of a wrapped range (expr.c:367-370). */
  method EvalInside(tokens: seq<Token>, p: int, q: int, ghost valid0: bool, valid1: bool, load: Word -> Word)
      returns (out: Outcome, valid: bool)
    requires 0 <= p < q < |tokens| && Wrapped(tokens[p..q + 1]) && valid1
    requires Eval(tokens[p..q + 1], valid0, load).out != Hang
    ensures out == Eval(tokens[p..q + 1], valid0, load).out
    ensures !out.Crash() ==> valid == Eval(tokens[p..q + 1], valid0, load).valid
    decreases q - p + 1, 1
  {
    EvalWrappedAt(tokens, p, q, valid0, load);
    out, valid := EvalTokens(tokens, p + 1, q - 1, valid1, load);
  }

  lemma SplitSlices(tokens: seq<Token>, p: int, op: int, q: int)
    requires 0 <= p <= op <= q < |tokens|
    ensures var s, k := tokens[p..q + 1], op - p;
            s[..k] == tokens[p..op] && s[k + 1..] == tokens[op + 1..q + 1] && s[k] == tokens[op]
  {
    SliceOfSlice(tokens, p, q + 1, 0, op - p);
    SliceOfSlice(tokens, p, q + 1, op - p + 1, q + 1 - p);
  }

  /** Splitting a range at its dominant token (expr.c:373-404). */
  method EvalDominant(tokens: seq<Token>, p: int, q: int, ghost valid0: bool, load: Word -> Word)
      returns (out: Outcome, valid: bool)
    requires 0 <= p < q < |tokens| && !Wrapped(tokens[p..q + 1])
    requires Balanced(tokens[p..q + 1]) || DanglingOpen(tokens[p..q + 1])
    requires Eval(tokens[p..q + 1], valid0, load).out != Hang
    ensures out == Eval(tokens[p..q + 1], valid0, load).out
    ensures !out.Crash() ==> valid == Eval(tokens[p..q + 1], valid0, load).valid
    decreases q - p + 1, 1
  {
    EvalSplitAt(tokens[p..q + 1], q + 1 - p, valid0, load);
    var op := DominantOp(tokens, p, q);
    assert op - p == DominantAmong(tokens[p..q + 1], q + 1 - p);
    out, valid := EvalOperands(tokens, p, op, q, load);
  }

  /** The two recursive calls and the switch (expr.c:375-404). */
  method EvalOperands(tokens: seq<Token>, p: int, op: int, q: int, load: Word -> Word)
      returns (out: Outcome, valid: bool)
    requires 0 <= p <= op <= q < |tokens|
    requires SplitResult(tokens[p..q + 1], op - p, load).out != Hang
    ensures out == SplitResult(tokens[p..q + 1], op - p, load).out
    ensures !out.Crash() ==> valid == SplitResult(tokens[p..q + 1], op - p, load).valid
    decreases q - p + 1, 0
  {
    SplitSlices(tokens, p, op, q);
    var val1, val2;
    val1, valid := EvalTokens(tokens, p, op - 1, true, load);
    if val1.Crash() {
      return val1, valid;
    }
    val2, valid := EvalTokens(tokens, op + 1, q, valid, load);
    if val2.Crash() {
      return val2, valid;
    }
    match tokens[op] {
      case Binary(b) => out := ApplyBinary(b, val1, val2);
      case Prefix(u) => out := ApplyPrefix(u, val2, load);
      case _ => out := Abort;
    }
  }

  // ---------------------------------------------------------------------
  // Retagging: '*' and '-' become DEREF and NEG in place (expr.c:163-179)
  // ---------------------------------------------------------------------

  /** The tokens after which '*' and '-' are taken for prefix operators. */
  predicate BeforePrefix(t: Token) { t.Binary? || t == Prefix(Not) }

  predicate PrefixPlace(s: seq<Token>, i: nat)
    requires i < |s|
  {
    i == 0 || BeforePrefix(s[i - 1])
  }

  function Retagged(t: Token, place: bool): Token {
    if place && t == Binary(Mul) then Prefix(Deref)
    else if place && t == Binary(Sub) then Prefix(Neg)
    else t
  }

  /** Left to right: each token looks at its already retagged predecessor. */
  function Retag(s: seq<Token>): (r: seq<Token>)
    ensures |r| == |s|
  {
    if |s| == 0 then []
    else
      var r := Retag(s[..|s| - 1]);
      r + [Retagged(s[|s| - 1], |r| == 0 || BeforePrefix(r[|r| - 1]))]
  }

  method RetagTokens(tokens: array<Token>, n: nat)
    requires n <= tokens.Length
    modifies tokens
    ensures tokens[..n] == Retag(old(tokens[..n]))
    ensures tokens[n..] == old(tokens[n..])
  {
    ghost var raw := tokens[..];
    for i := 0 to n
      invariant tokens[..i] == Retag(raw[..i])
      invariant forall j :: i <= j < tokens.Length ==> tokens[j] == raw[j]
    {
      assert raw[..i + 1][..i] == raw[..i];
      assert i > 0 ==> tokens[i - 1] == tokens[..i][i - 1];
      if tokens[i] == Binary(Mul) && (i == 0 || BeforePrefix(tokens[i - 1])) {
        tokens[i] := Prefix(Deref);
      }
      if tokens[i] == Binary(Sub) && (i == 0 || BeforePrefix(tokens[i - 1])) {
        tokens[i] := Prefix(Neg);
      }
      assert tokens[..i] == Retag(raw[..i]);
      assert raw[..i + 1][i] == raw[i];
      assert tokens[..i + 1] == tokens[..i] + [tokens[i]];
    }
    assert raw[..n] == old(tokens[..n]);
    assert tokens[n..] == raw[n..];
  }

  // ---------------------------------------------------------------------
  // Expression trees
  // ---------------------------------------------------------------------

  /** Node(op, Missing, r) is an operator whose left operand is not written, as
      in "(- 5)"; the evaluator reads the empty range as 0. */
  datatype Tree =
    | Leaf(v: Word)
    | Paren(inner: Tree)
    | Prefixed(ops: seq<PrefixOp>, arg: Tree)
    | Node(op: BinOp, left: Tree, right: Tree)
    | Missing

  function Level(t: Tree): nat {
    match t
    case Prefixed(_, _) => 5
    case Node(op, _, _) => Precedence(Binary(op))
    case _ => 10
  }

  /** Left-associative operators by precedence; prefix operators before leaves
      and parentheses only. */
  predicate WellFormed(t: Tree) {
    match t
    case Leaf(_) => true
    case Missing => false
    case Paren(e) => WellFormed(e)
    case Prefixed(ops, arg) => |ops| > 0 && (arg.Leaf? || arg.Paren?) && WellFormed(arg)
    case Node(op, l, r) =>
      && (l.Missing? || WellFormed(l)) && WellFormed(r)
      && Level(l) >= Level(t) && Level(r) > Level(t)
  }

  function PrefixTokens(ops: seq<PrefixOp>): (s: seq<Token>)
    ensures |s| == |ops| && forall i :: 0 <= i < |s| ==> s[i] == Prefix(ops[i])
  {
    seq(|ops|, i requires 0 <= i < |ops| => Prefix(ops[i]))
  }

  /** The tokens a tree is written with. */
  function Render(t: Tree): (s: seq<Token>)
    ensures WellFormed(t) ==> |s| > 0
  {
    match t
    case Leaf(v) => [Operand(v)]
    case Paren(e) => [LParen] + Render(e) + [RParen]
    case Prefixed(ops, arg) => PrefixTokens(ops) + Render(arg)
    case Node(op, l, r) => Render(l) + [Binary(op)] + Render(r)
    case Missing => []
  }

  function ApplyAll(ops: seq<PrefixOp>, x: Outcome, load: Word -> Word): Outcome {
    if |ops| == 0 then x else ApplyPrefix(ops[0], ApplyAll(ops[1..], x, load), load)
  }

  /** The value of a tree in 32-bit arithmetic. */
  function Value(t: Tree, load: Word -> Word): Outcome {
    match t
    case Leaf(v) => Val(v)
    case Paren(e) => Value(e, load)
    case Prefixed(ops, arg) => ApplyAll(ops, Value(arg, load), load)
    case Node(op, l, r) => ApplyBinary(op, Value(l, load), Value(r, load))
    case Missing => Val(0)
  }

  /** The tree the evaluator in effect evaluates: of several prefix operators in
      a row only the innermost is applied. */
  function Innermost(t: Tree): (r: Tree)
  {
    match t
    case Paren(e) => Paren(Innermost(e))
    case Prefixed(ops, arg) =>
      if |ops| == 0 then t else Prefixed([ops[|ops| - 1]], Innermost(arg))
    case Node(op, l, r) => Node(op, Innermost(l), Innermost(r))
    case _ => t
  }

  /** Every run of prefix operators in the tree is harmless. */
  predicate HarmlessRuns(t: Tree) {
    match t
    case Paren(e) => HarmlessRuns(e)
    case Prefixed(ops, arg) => |ops| > 0 && Harmless(ops) && HarmlessRuns(arg)
    case Node(_, l, r) => HarmlessRuns(l) && HarmlessRuns(r)
    case _ => true
  }

  function Nots(ops: seq<PrefixOp>): nat {
    if |ops| == 0 then 0 else (if ops[0] == Not then 1 else 0) + Nots(ops[1..])
  }

  /** The negations in front of every other operator. */
  function LeadingNegs(ops: seq<PrefixOp>): nat {
    if |ops| == 0 || ops[0] != Neg then 0 else 1 + LeadingNegs(ops[1..])
  }

  /** The operators in front of the last one leave every result of it as it is. */
  predicate Cancels(dropped: seq<PrefixOp>, last: PrefixOp) {
    && Deref !in dropped && LeadingNegs(dropped) % 2 == 0
    && if last == Not then Nots(dropped) % 2 == 0 else Nots(dropped) == 0
  }

  /** The operators that eval drops cancel out. */
  predicate Harmless(ops: seq<PrefixOp>)
    requires |ops| > 0
  {
    Cancels(ops[..|ops| - 1], ops[|ops| - 1])
  }

  // ---------------------------------------------------------------------
  // Depth of concatenations
  // ---------------------------------------------------------------------

  lemma {:induction false} DepthConcat(a: seq<Token>, b: seq<Token>, n: nat)
    requires n <= |a| + |b|
    ensures Depth(a + b, n) == if n <= |a| then Depth(a, n) else Depth(a, |a|) + Depth(b, n - |a|)
  {
    if n > 0 {
      DepthConcat(a, b, n - 1);
      assert (a + b)[n - 1] == if n - 1 < |a| then a[n - 1] else b[n - 1 - |a|];
    }
  }

  lemma BalancedConcat(a: seq<Token>, b: seq<Token>)
    requires Balanced(a) && Balanced(b)
    ensures Balanced(a + b)
  {
    forall i | 0 <= i <= |a + b| ensures Depth(a + b, i) >= 0 {
      DepthConcat(a, b, i);
    }
    DepthConcat(a, b, |a| + |b|);
  }

  lemma SplitsConcat(a: seq<Token>, b: seq<Token>, i: nat)
    requires i < |a| + |b| && Depth(a, |a|) == 0
    ensures Splits(a + b, i) <==> if i < |a| then Splits(a, i) else Splits(b, i - |a|)
  {
    DepthConcat(a, b, i);
  }

  lemma SingletonDepth(t: Token)
    ensures Depth([t], 1) == Nesting(t) && Depth([t], 0) == 0
  {
  }

  lemma SingletonBalanced(t: Token)
    requires Nesting(t) == 0
    ensures Balanced([t])
  {
    SingletonDepth(t);
  }

  lemma ParenthesesWrap(e: seq<Token>)
    requires Balanced(e)
    ensures Wrapped([LParen] + e + [RParen])
    ensures forall i :: 0 <= i < |e| + 2 ==> !Splits([LParen] + e + [RParen], i)
  {
    var s := [LParen] + e + [RParen];
    assert s == [LParen] + (e + [RParen]);
    forall i | 0 <= i <= |s|
      ensures Depth(s, i) == if i == 0 || i == |s| then 0 else 1 + Depth(e, i - 1)
    {
      DepthConcat([LParen], e + [RParen], i);
      SingletonDepth(LParen);
      SingletonDepth(RParen);
      if i > 0 {
        DepthConcat(e, [RParen], i - 1);
      }
    }
  }

  /** Every token outside parentheses binds at least as tightly as c. */
  ghost predicate AllAtLeast(s: seq<Token>, c: nat) {
    forall i :: 0 <= i < |s| && Splits(s, i) ==> Precedence(s[i]) >= c
  }

  lemma AllAtLeastConcat(a: seq<Token>, b: seq<Token>, c: nat)
    requires Depth(a, |a|) == 0 && AllAtLeast(a, c) && AllAtLeast(b, c)
    ensures AllAtLeast(a + b, c)
  {
    forall i | 0 <= i < |a + b| && Splits(a + b, i)
      ensures Precedence((a + b)[i]) >= c
    {
      SplitsConcat(a, b, i);
    }
  }

  lemma {:induction false} PrefixTokensDepth(ops: seq<PrefixOp>, n: nat)
    requires n <= |ops|
    ensures Depth(PrefixTokens(ops), n) == 0
  {
    if n > 0 {
      PrefixTokensDepth(ops, n - 1);
    }
  }

  lemma PrefixTokensBalanced(ops: seq<PrefixOp>)
    ensures Balanced(PrefixTokens(ops)) && AllAtLeast(PrefixTokens(ops), 5)
  {
    forall i | 0 <= i <= |ops| ensures Depth(PrefixTokens(ops), i) == 0 {
      PrefixTokensDepth(ops, i);
    }
  }

  /** Renderings are balanced, and their weakest open token is the root. */
  lemma {:induction false} RenderShape(t: Tree)
    requires WellFormed(t) || t.Missing?
    ensures Balanced(Render(t)) && AllAtLeast(Render(t), Level(t))
  {
    match t
    case Leaf(v) => SingletonBalanced(Operand(v));
    case Missing =>
    case Paren(e) =>
      RenderShape(e);
      ParenthesesWrap(Render(e));
    case Prefixed(ops, arg) =>
      RenderShape(arg);
      PrefixTokensBalanced(ops);
      BalancedConcat(PrefixTokens(ops), Render(arg));
      AllAtLeastConcat(PrefixTokens(ops), Render(arg), 5);
    case Node(op, l, r) =>
      RenderShape(l);
      RenderShape(r);
      SingletonBalanced(Binary(op));
      BalancedConcat(Render(l), [Binary(op)]);
      BalancedConcat(Render(l) + [Binary(op)], Render(r));
      AllAtLeastConcat(Render(l), [Binary(op)], Level(t));
      AllAtLeastConcat(Render(l) + [Binary(op)], Render(r), Level(t));
  }

  // ---------------------------------------------------------------------
  // The dominant token of a rendering is its root
  // ---------------------------------------------------------------------

  lemma {:induction false} DominantBefore(s: seq<Token>, k: nat, n: nat)
    requires n <= k < |s|
    requires forall i :: 0 <= i <= k && Splits(s, i) ==> Precedence(s[i]) >= Precedence(s[k])
    requires Splits(s, k)
    ensures Precedence(s[DominantAmong(s, n)]) >= Precedence(s[k])
  {
    if n > 0 {
      DominantBefore(s, k, n - 1);
    } else if s[0] == LParen || s[0] == RParen {
      assert Precedence(s[k]) <= 5 || s[k].Operand?;
    } else {
      assert Splits(s, 0);
    }
  }

  lemma {:induction false} DominantAfter(s: seq<Token>, k: nat, n: nat)
    requires k < n <= |s|
    requires forall i :: 0 <= i <= k && Splits(s, i) ==> Precedence(s[i]) >= Precedence(s[k])
    requires forall i :: k < i < |s| && Splits(s, i) ==> Precedence(s[i]) > Precedence(s[k])
    requires Splits(s, k)
    ensures DominantAmong(s, n) == k
  {
    if n == k + 1 {
      DominantBefore(s, k, k);
    } else {
      DominantAfter(s, k, n - 1);
    }
  }

  lemma PrefixRunShape(ops: seq<PrefixOp>)
    requires |ops| >= 2
    ensures var s, n := PrefixTokens(ops), |ops|;
            && Balanced(s) && !Wrapped(s) && DominantAmong(s, n) == n - 1
            && s[..n - 1] == PrefixTokens(ops[..n - 1]) && s[n..] == []
  {
    var s, n := PrefixTokens(ops), |ops|;
    PrefixTokensBalanced(ops);
    forall i | 0 <= i < n ensures Splits(s, i) {
      PrefixTokensDepth(ops, i);
    }
    DominantAfter(s, n - 1, n);
  }

  /** Prefix tokens alone, the ignored left operand of the innermost one, cannot crash. */
  lemma {:induction false} PrefixRun(ops: seq<PrefixOp>, load: Word -> Word)
    ensures var r := Eval(PrefixTokens(ops), true, load); !r.out.Crash() && r.valid
  {
    var n := |ops|;
    if n >= 2 {
      PrefixRunShape(ops);
      EvalSplit(PrefixTokens(ops), n - 1, true, load);
      PrefixRun(ops[..n - 1], load);
      SplitAtPrefix(PrefixTokens(ops), n - 1, load);
    }
  }

  /** Splitting at the last token, a prefix operator. */
  lemma SplitAtPrefix(s: seq<Token>, k: nat, load: Word -> Word)
    requires |s| == k + 1 && s[k].Prefix?
    requires var left := Eval(s[..k], true, load); !left.out.Crash() && left.valid
    ensures var r := SplitResult(s, k, load); !r.out.Crash() && r.valid
  {
    assert s[k + 1..] == [];
  }

  lemma NodeSlices(a: seq<Token>, x: Token, b: seq<Token>)
    ensures var s := a + [x] + b;
            s[|a|] == x && s[..|a|] == a && s[|a| + 1..] == b && s == a + ([x] + b)
  {
  }

  /** An operator between balanced operands that bind tighter is dominant. */
  lemma OperatorDominant(a: seq<Token>, x: Token, b: seq<Token>)
    requires Balanced(a) && Balanced(b) && Nesting(x) == 0 && |b| > 0
    requires AllAtLeast(a, Precedence(x)) && AllAtLeast(b, Precedence(x) + 1)
    ensures var s := a + [x] + b;
            DominantAmong(s, |s|) == |a| && Balanced(s) && !Wrapped(s)
  {
    var s, k := a + [x] + b, |a|;
    NodeSlices(a, x, b);
    SingletonBalanced(x);
    BalancedConcat(a, [x]);
    BalancedConcat(a + [x], b);
    DepthConcat(a, [x] + b, k);
    assert AllAtLeast([x], Precedence(x));
    AllAtLeastConcat(a, [x], Precedence(x));
    forall i | 0 <= i < |s| && Splits(s, i)
      ensures Precedence(s[i]) >= Precedence(x) && (i > k ==> Precedence(s[i]) > Precedence(x))
    {
      SplitsConcat(a + [x], b, i);
    }
    DominantAfter(s, k, |s|);
  }

  lemma NodeDominant(t: Tree)
    requires WellFormed(t) && t.Node?
    ensures var s, k := Render(t), |Render(t.left)|;
            && DominantAmong(s, |s|) == k && s[k] == Binary(t.op)
            && s[..k] == Render(t.left) && s[k + 1..] == Render(t.right)
            && Balanced(s) && !Wrapped(s)
  {
    RenderShape(t.left);
    RenderShape(t.right);
    OperatorDominant(Render(t.left), Binary(t.op), Render(t.right));
    NodeSlices(Render(t.left), Binary(t.op), Render(t.right));
  }

  lemma PrefixedDominant(t: Tree)
    requires WellFormed(t) && t.Prefixed?
    ensures var s, k := Render(t), |t.ops| - 1;
            && DominantAmong(s, |s|) == k && s[k] == Prefix(t.ops[k])
            && s[..k] == PrefixTokens(t.ops[..k]) && s[k + 1..] == Render(t.arg)
            && Balanced(s) && !Wrapped(s)
  {
    var a, b := PrefixTokens(t.ops), Render(t.arg);
    var s, k := Render(t), |t.ops| - 1;
    RenderShape(t);
    RenderShape(t.arg);
    PrefixTokensDepth(t.ops, k);
    PrefixTokensDepth(t.ops, k + 1);
    DepthConcat(a, b, k);
    forall i | k < i < |s| && Splits(s, i)
      ensures Precedence(s[i]) > Precedence(s[k])
    {
      SplitsConcat(a, b, i);
    }
    DominantAfter(s, k, |s|);
  }

  // ---------------------------------------------------------------------
  // The theorems
  // ---------------------------------------------------------------------

  /** eval on a rendering computes the tree, except that of several prefix
      operators in a row it applies only the innermost; a division by zero
      anywhere in the tree traps. */
  lemma {:induction false} EvalRender(t: Tree, load: Word -> Word)
    requires WellFormed(t) || t.Missing?
    ensures Eval(Render(t), true, load) == Result(Value(Innermost(t), load), true)
    decreases t
  {
    match t
    case Leaf(v) =>
    case Missing =>
    case Paren(e) =>
      RenderShape(e);
      ParenthesesWrap(Render(e));
      EvalWrapped(Render(t), Render(e), true, load);
      EvalRender(e, load);
    case Prefixed(ops, arg) =>
      EvalRender(arg, load);
      EvalPrefixed(t, load);
    case Node(op, l, r) =>
      EvalRender(l, load);
      EvalRender(r, load);
      NodeDominant(t);
      EvalSplit(Render(t), |Render(l)|, true, load);
  }

  lemma EvalPrefixed(t: Tree, load: Word -> Word)
    requires WellFormed(t) && t.Prefixed?
    requires Eval(Render(t.arg), true, load) == Result(Value(Innermost(t.arg), load), true)
    ensures Eval(Render(t), true, load) == Result(Value(Innermost(t), load), true)
  {
    var k, x := |t.ops| - 1, Value(Innermost(t.arg), load);
    PrefixedDominant(t);
    PrefixRun(t.ops[..k], load);
    EvalSplit(Render(t), k, true, load);
    ApplyOne(t.ops[k], x, load);
  }

  lemma ApplyOne(op: PrefixOp, x: Outcome, load: Word -> Word)
    ensures ApplyAll([op], x, load) == ApplyPrefix(op, x, load)
  {
    assert [op][1..] == [];
    assert ApplyAll([], x, load) == x;
  }

  // ---------------------------------------------------------------------
  // When dropping the outer prefix operators does no harm
  // ---------------------------------------------------------------------

  function Negated(times: nat, x: Word): Word {
    if times % 2 == 0 then x else Wrap(0x1_0000_0000 - x)
  }

  lemma NegateOnce(times: nat, x: Word)
    ensures Negated(times + 1, x) == Wrap(0x1_0000_0000 - Negated(times, x))
    ensures Negated(times, x) == 0 <==> x == 0
  {
  }

  /** What a run without dereferences makes of a word. */
  lemma {:induction false} RunValue(ops: seq<PrefixOp>, x: Word, load: Word -> Word)
    requires Deref !in ops
    ensures ApplyAll(ops, Val(x), load) == Val(Negated(LeadingNegs(ops),
              if Nots(ops) == 0 then x else Bit((x == 0) == (Nots(ops) % 2 == 1))))
  {
    if |ops| > 0 {
      RunValue(ops[1..], x, load);
      var rest := ops[1..];
      var y := if Nots(rest) == 0 then x else Bit((x == 0) == (Nots(rest) % 2 == 1));
      NegateOnce(LeadingNegs(rest), y);
    }
  }

  lemma {:induction false} ApplySplit(ops: seq<PrefixOp>, x: Outcome, load: Word -> Word)
    requires |ops| > 0
    ensures ApplyAll(ops, x, load)
         == ApplyAll(ops[..|ops| - 1], ApplyPrefix(ops[|ops| - 1], x, load), load)
  {
    var n := |ops| - 1;
    if n == 0 {
      assert ops == [ops[0]];
      ApplyOne(ops[0], x, load);
    } else {
      ApplySplit(ops[1..], x, load);
      assert ops[1..][..n - 1] == ops[..n][1..];
    }
  }

  /** Where only address 5 holds 7 and all others 9, a run with a dereference
      loses the difference between two words that it does not turn into 5. */
  lemma {:induction false} DerefForgets(ops: seq<PrefixOp>, x: Word, y: Word, load: Word -> Word)
    requires Deref in ops && forall a: Word :: load(a) == if a == 5 then 7 else 9
    requires x in {0, 7, 0xffff_fffd} && y in {0, 1, 9}
    ensures ApplyAll(ops, Val(x), load) == ApplyAll(ops, Val(y), load)
  {
    if Deref in ops[1..] {
      DerefForgets(ops[1..], x, y, load);
    } else {
      RunValue(ops[1..], x, load);
      RunValue(ops[1..], y, load);
    }
  }

  /** Nothing but the innermost operator matters for the run. */
  ghost predicate InnermostOnly(ops: seq<PrefixOp>)
    requires |ops| > 0
  {
    forall v: Word, load: Word -> Word ::
      ApplyAll(ops, Val(v), load) == ApplyPrefix(ops[|ops| - 1], Val(v), load)
  }

  lemma HarmlessSuffices(ops: seq<PrefixOp>, x: Outcome, load: Word -> Word)
    requires |ops| > 0 && Harmless(ops)
    ensures ApplyAll(ops, x, load) == ApplyPrefix(ops[|ops| - 1], x, load)
  {
    ApplySplit(ops, x, load);
    if x.Val? {
      RunValue(ops[..|ops| - 1], ApplyPrefix(ops[|ops| - 1], x, load).v, load);
    } else {
      NoOperand(ops, x, load);
    }
  }

  lemma {:induction false} NoOperand(ops: seq<PrefixOp>, x: Outcome, load: Word -> Word)
    requires !x.Val?
    ensures ApplyAll(ops, x, load) == x
  {
    if |ops| > 0 {
      NoOperand(ops[1..], x, load);
    }
  }

  /** An operand on which the run shows that it is not harmless. */
  lemma HarmShown(ops: seq<PrefixOp>) returns (v: Word, load: Word -> Word)
    requires |ops| > 0 && !Harmless(ops)
    ensures ApplyAll(ops, Val(v), load) != ApplyPrefix(ops[|ops| - 1], Val(v), load)
  {
    var dropped, last := ops[..|ops| - 1], ops[|ops| - 1];
    if Deref in dropped {
      load := (a: Word) => if a == 5 then 7 else 9;
      v := if last == Deref then 5 else 3;
      ApplySplit(ops, Val(v), load);
      ApplySplit(ops, Val(0), load);
      DerefForgets(dropped, ApplyPrefix(last, Val(v), load).v, ApplyPrefix(last, Val(0), load).v, load);
      if ApplyAll(ops, Val(v), load) == ApplyPrefix(last, Val(v), load) {
        v := 0;
      }
    } else {
      load := (a: Word) => a;
      v := if last == Not then if Nots(dropped) % 2 == 1 then 5 else 0
           else if last == Neg then 0xffff_fffb else 5;
      ApplySplit(ops, Val(v), load);
      RunValue(dropped, ApplyPrefix(last, Val(v), load).v, load);
    }
  }

  /** Exactly the harmless runs are evaluated right on every operand. */
  lemma PrefixesExactly(ops: seq<PrefixOp>)
    requires |ops| > 0
    ensures InnermostOnly(ops) <==> Harmless(ops)
    ensures (forall v: Word, load: Word -> Word :: EvalRight(Prefixed(ops, Leaf(v)), load)) <==> Harmless(ops)
  {
    if Harmless(ops) {
      forall v: Word, load: Word -> Word
        ensures ApplyAll(ops, Val(v), load) == ApplyPrefix(ops[|ops| - 1], Val(v), load)
             && EvalRight(Prefixed(ops, Leaf(v)), load)
      {
        HarmlessSuffices(ops, Val(v), load);
        EvalRun(Prefixed(ops, Leaf(v)), load);
      }
    } else {
      var v, load := HarmShown(ops);
      EvalRun(Prefixed(ops, Leaf(v)), load);
      assert !EvalRight(Prefixed(ops, Leaf(v)), load);
    }
  }

  ghost predicate EvalRight(t: Tree, load: Word -> Word) {
    Eval(Render(t), true, load) == Result(Value(t, load), true)
  }

  lemma EvalRun(t: Tree, load: Word -> Word)
    requires t.Prefixed? && t.arg.Leaf? && |t.ops| > 0
    ensures EvalRight(t, load) <==>
              ApplyAll(t.ops, Val(t.arg.v), load) == ApplyPrefix(t.ops[|t.ops| - 1], Val(t.arg.v), load)
  {
    assert WellFormed(t);
    EvalRender(t, load);
    InnermostRun(t, load);
  }

  /** Where '-' and '*' are retagged, a run of two or more operators is harmless
      exactly when it begins and ends with '!', dereferences nothing and holds an
      odd number of '!'. */
  lemma VisibleRun(ops: seq<PrefixOp>)
    requires |ops| > 0 && VisibleOps(ops, true)
    ensures Harmless(ops) <==>
              |ops| == 1
              || (ops[0] == Not && ops[|ops| - 1] == Not && Deref !in ops && Nots(ops) % 2 == 1)
  {
    var n := |ops| - 1;
    if n > 0 {
      assert ops == ops[..n] + [ops[n]];
      VisibleCancels(ops, ops[..n], ops[n]);
    }
  }

  lemma VisibleCancels(ops: seq<PrefixOp>, dropped: seq<PrefixOp>, last: PrefixOp)
    requires |dropped| > 0 && ops == dropped + [last] && VisibleOps(ops, true)
    ensures Cancels(dropped, last) <==> ops[0] == Not && last == Not && Deref !in ops && Nots(ops) % 2 == 1
  {
    VisiblePart(ops, dropped, last);
    VisibleLeading(dropped);
    LastNots(dropped, last);
    if last != Not {
      assert VisibleOp(ops, |dropped|, true);
      LastNots(dropped[..|dropped| - 1], Not);
      assert dropped == dropped[..|dropped| - 1] + [Not];
    }
  }

  lemma VisiblePart(ops: seq<PrefixOp>, dropped: seq<PrefixOp>, last: PrefixOp)
    requires ops == dropped + [last] && VisibleOps(ops, true)
    ensures VisibleOps(dropped, true)
    ensures Deref in ops <==> Deref in dropped || last == Deref
  {
    forall i | 0 <= i < |dropped| ensures VisibleOp(dropped, i, true) {
      assert VisibleOp(ops, i, true);
    }
  }

  lemma {:induction false} LastNots(a: seq<PrefixOp>, op: PrefixOp)
    ensures Nots(a + [op]) == Nots(a) + if op == Not then 1 else 0
  {
    if |a| == 0 {
      assert a + [op] == [op] && [op][1..] == [];
    } else {
      LastNots(a[1..], op);
      assert (a + [op])[1..] == a[1..] + [op];
    }
  }

  lemma VisibleLeading(ops: seq<PrefixOp>)
    requires |ops| > 0 && VisibleOps(ops, true)
    ensures LeadingNegs(ops) == if ops[0] == Neg then 1 else 0
    ensures Deref !in ops ==> ops[0] != Deref
  {
    if |ops| > 1 {
      assert VisibleOp(ops, 1, true) && ops[1..][0] == ops[1];
    }
  }

  lemma {:induction false} HarmlessValue(t: Tree, load: Word -> Word)
    requires (WellFormed(t) || t.Missing?) && HarmlessRuns(t)
    ensures Value(Innermost(t), load) == Value(t, load)
    decreases t
  {
    match t
    case Paren(e) => HarmlessValue(e, load);
    case Prefixed(ops, arg) =>
      HarmlessValue(arg, load);
      ApplyOne(ops[|ops| - 1], Value(arg, load), load);
      HarmlessSuffices(ops, Value(arg, load), load);
    case Node(op, l, r) =>
      HarmlessValue(l, load);
      HarmlessValue(r, load);
    case _ =>
  }

  /** Where every run of prefix operators is harmless, eval computes the value. */
  lemma EvalCorrect(t: Tree, load: Word -> Word)
    requires WellFormed(t) && HarmlessRuns(t)
    ensures Eval(Render(t), true, load) == Result(Value(t, load), true)
  {
    EvalRender(t, load);
    HarmlessValue(t, load);
  }

  /** "! ! 5" is 1, but eval returns 0. */
  lemma StackedPrefixExample(load: Word -> Word)
    ensures var t := Prefixed([Not, Not], Leaf(5));
            Value(t, load) == Val(1) && Eval(Render(t), true, load).out == Val(0)
  {
    var t := Prefixed([Not, Not], Leaf(5));
    EvalRender(t, load);
    ApplyOne(Not, Val(5), load);
    assert [Not, Not][1..] == [Not];
  }

  // ---------------------------------------------------------------------
  // What the operators mean, in integer arithmetic
  // ---------------------------------------------------------------------

  /** The word z is x reduced modulo 2^32. */
  ghost predicate Congruent(z: Word, x: int) {
    exists k: int :: x == z + k * 0x1_0000_0000
  }

  ghost predicate Truth(out: Outcome, b: bool) {
    out == if b then Val(1) else Val(0)
  }

  /** out is what a binary operator makes of x and y. */
  ghost predicate Means(op: BinOp, x: Word, y: Word, out: Outcome) {
    match op
    case Add => out.Val? && Congruent(out.v, x + y)
    case Sub => out.Val? && Congruent(x, out.v + y)
    case Mul => out.Val? && Congruent(out.v, x * y)
    case Div => if y == 0 then out == Trap else out.Val? && out.v * y <= x < out.v * y + y
    case Eq => Truth(out, x == y)
    case Ne => Truth(out, x != y)
    case And => Truth(out, x > 0 && y > 0)
    case Or => Truth(out, x > 0 || y > 0)
  }

  /** out is what a prefix operator makes of x. */
  ghost predicate PrefixMeans(op: PrefixOp, x: Word, out: Outcome, load: Word -> Word) {
    match op
    case Not => Truth(out, x == 0)
    case Neg => out.Val? && Congruent(0, out.v + x)
    case Deref => out == Val(load(x))
  }

  lemma WrapCongruent(x: int)
    ensures Congruent(Wrap(x), x)
  {
    assert x == Wrap(x) + x / 0x1_0000_0000 * 0x1_0000_0000;
  }

  lemma DifferenceCongruent(x: Word, y: Word)
    ensures Congruent(x, Wrap(x - y) + y)
    ensures Congruent(0, Wrap(0x1_0000_0000 - y) + y)
  {
    var k := (x - y) / 0x1_0000_0000;
    assert Wrap(x - y) + y == x + (-k) * 0x1_0000_0000;
    var j := (0x1_0000_0000 - y) / 0x1_0000_0000;
    assert Wrap(0x1_0000_0000 - y) + y == 0 + (1 - j) * 0x1_0000_0000;
  }

  lemma QuotientBounds(x: nat, y: nat)
    requires y > 0
    ensures x / y * y <= x < x / y * y + y
  {
  }

  lemma ComputeMeans(op: BinOp, x: Word, y: Word)
    ensures Means(op, x, y, Compute(op, x, y))
  {
    WrapCongruent(x + y);
    WrapCongruent(x * y);
    DifferenceCongruent(x, y);
    if y > 0 {
      QuotientBounds(x, y);
    }
  }

  lemma ApplyPrefixMeans(op: PrefixOp, x: Word, load: Word -> Word)
    ensures PrefixMeans(op, x, ApplyPrefix(op, Val(x), load), load)
  {
    DifferenceCongruent(0, x);
  }

  /** Two words that are the same number modulo 2^32 are the same. */
  lemma CongruentUnique(z: Word, z': Word, x: int)
    requires Congruent(z, x) && Congruent(z', x)
    ensures z == z'
  {
  }

  /** The result of an operator is determined by what it means. */
  lemma MeansUnique(op: BinOp, x: Word, y: Word, out: Outcome, out': Outcome)
    requires Means(op, x, y, out) && Means(op, x, y, out')
    ensures out == out'
  {
    match op
    case Add => CongruentUnique(out.v, out'.v, x + y);
    case Mul => CongruentUnique(out.v, out'.v, x * y);
    case Sub => DifferenceUnique(x, y, out.v, out'.v);
    case Div =>
      if y > 0 {
        QuotientUnique(x, y, out.v, out'.v);
      }
    case _ =>
  }

  lemma DifferenceUnique(x: Word, y: Word, z: Word, z': Word)
    requires Congruent(x, z + y) && Congruent(x, z' + y)
    ensures z == z'
  {
  }

  lemma QuotientUnique(x: nat, y: nat, z: nat, z': nat)
    requires y > 0 && z * y <= x < z * y + y && z' * y <= x < z' * y + y
    ensures z == z'
  {
    MultiplesApart(z, z', y);
    MultiplesApart(z', z, y);
  }

  lemma MultiplesApart(z: nat, z': nat, y: nat)
    ensures z < z' ==> z * y + y <= z' * y
  {
    if z < z' {
      Distribute(z + 1, z' - z - 1, y);
      Distribute(z, 1, y);
    }
  }

  lemma Distribute(a: nat, b: nat, y: nat)
    ensures (a + b) * y == a * y + b * y && b * y >= 0
  {
  }

  /** The outcome of evaluating the tokens of a tree. */
  ghost function Outcomes(t: Tree, load: Word -> Word): Outcome {
    Eval(Render(t), true, load).out
  }

  /** What evaluating a tree yields, from what evaluating its parts yields: no
      operator is mistaken for another, and the operands keep their order. */
  lemma EvalMeans(t: Tree, load: Word -> Word)
    requires WellFormed(t)
    ensures Outcomes(t, load).Val? || Outcomes(t, load) == Trap
    ensures t.Leaf? ==> Outcomes(t, load) == Val(t.v)
    ensures t.Paren? ==> Outcomes(t, load) == Outcomes(t.inner, load)
    ensures t.Prefixed? ==>
              var x := Outcomes(t.arg, load);
              if x.Val? then PrefixMeans(t.ops[|t.ops| - 1], x.v, Outcomes(t, load), load)
              else Outcomes(t, load) == x
    ensures t.Node? ==>
              var x, y := if t.left.Missing? then Val(0) else Outcomes(t.left, load), Outcomes(t.right, load);
              if x.Val? && y.Val? then Means(t.op, x.v, y.v, Outcomes(t, load)) else Outcomes(t, load) == Trap
  {
    EvalRender(t, load);
    ValueOrTrap(t, load);
    match t
    case Leaf(v) =>
    case Paren(e) => EvalRender(e, load);
    case Prefixed(ops, arg) => PrefixedMeans(t, load);
    case Node(op, l, r) => NodeMeans(t, load);
  }

  lemma PrefixedMeans(t: Tree, load: Word -> Word)
    requires WellFormed(t) && t.Prefixed?
    ensures var x := Outcomes(t.arg, load);
            if x.Val? then PrefixMeans(t.ops[|t.ops| - 1], x.v, Outcomes(t, load), load)
            else Outcomes(t, load) == x
  {
    var op, x := t.ops[|t.ops| - 1], Value(Innermost(t.arg), load);
    EvalRender(t, load);
    EvalRender(t.arg, load);
    InnermostRun(t, load);
    if x.Val? {
      ApplyPrefixMeans(op, x.v, load);
    }
  }

  lemma InnermostRun(t: Tree, load: Word -> Word)
    requires t.Prefixed? && |t.ops| > 0
    ensures Value(Innermost(t), load) == ApplyPrefix(t.ops[|t.ops| - 1], Value(Innermost(t.arg), load), load)
  {
    ApplyOne(t.ops[|t.ops| - 1], Value(Innermost(t.arg), load), load);
  }

  lemma NodeMeans(t: Tree, load: Word -> Word)
    requires WellFormed(t) && t.Node?
    ensures var x, y := if t.left.Missing? then Val(0) else Outcomes(t.left, load), Outcomes(t.right, load);
            if x.Val? && y.Val? then Means(t.op, x.v, y.v, Outcomes(t, load)) else Outcomes(t, load) == Trap
  {
    EvalRender(t, load);
    EvalRender(t.left, load);
    EvalRender(t.right, load);
    ValueOrTrap(t.left, load);
    ValueOrTrap(t.right, load);
    AppliedMeans(t.op, Value(Innermost(t.left), load), Value(Innermost(t.right), load));
  }

  lemma AppliedMeans(op: BinOp, x: Outcome, y: Outcome)
    requires (x.Val? || x == Trap) && (y.Val? || y == Trap)
    ensures if x.Val? && y.Val? then Means(op, x.v, y.v, ApplyBinary(op, x, y)) else ApplyBinary(op, x, y) == Trap
  {
    if x.Val? && y.Val? {
      ComputeMeans(op, x.v, y.v);
    }
  }

  lemma {:induction false} ValueOrTrap(t: Tree, load: Word -> Word)
    requires WellFormed(t) || t.Missing?
    ensures Value(Innermost(t), load).Val? || Value(Innermost(t), load) == Trap
    decreases t
  {
    match t
    case Paren(e) => ValueOrTrap(e, load);
    case Prefixed(ops, arg) =>
      ValueOrTrap(arg, load);
      ApplyOne(ops[|ops| - 1], Value(Innermost(arg), load), load);
    case Node(op, l, r) =>
      ValueOrTrap(l, load);
      ValueOrTrap(r, load);
    case _ =>
  }

  /** Two words and an operator. */
  lemma OperatorMeans(op: BinOp, x: Word, y: Word, load: Word -> Word)
    ensures Means(op, x, y, Eval([Operand(x), Binary(op), Operand(y)], true, load).out)
  {
    var t := Node(op, Leaf(x), Leaf(y));
    RenderTwo(op, x, y);
    EvalMeans(t, load);
    EvalMeans(Leaf(x), load);
    EvalMeans(Leaf(y), load);
  }

  lemma RenderTwo(op: BinOp, x: Word, y: Word)
    ensures Render(Node(op, Leaf(x), Leaf(y))) == [Operand(x), Binary(op), Operand(y)]
  {
    assert Render(Leaf(x)) == [Operand(x)] && Render(Leaf(y)) == [Operand(y)];
  }

  /** a binds more tightly than b, as in C. */
  predicate Tighter(a: BinOp, b: BinOp) {
    match b
    case Or => a != Or
    case And => a != Or && a != And
    case Eq => a in {Add, Sub, Mul, Div}
    case Ne => a in {Add, Sub, Mul, Div}
    case Add => a == Mul || a == Div
    case Sub => a == Mul || a == Div
    case Mul => false
    case Div => false
  }

  /** Without parentheses the operator that binds more tightly comes first, and the
      left one of two that bind equally. */
  lemma Grouping(x: Word, a: BinOp, y: Word, b: BinOp, z: Word, load: Word -> Word)
    ensures Eval([Operand(x), Binary(a), Operand(y), Binary(b), Operand(z)], true, load)
         == Eval(if Tighter(b, a)
                 then [Operand(x), Binary(a), LParen, Operand(y), Binary(b), Operand(z), RParen]
                 else [LParen, Operand(x), Binary(a), Operand(y), RParen, Binary(b), Operand(z)], true, load)
  {
    var l, r := Node(a, Leaf(x), Leaf(y)), Node(b, Leaf(y), Leaf(z));
    RenderTwo(a, x, y);
    RenderTwo(b, y, z);
    if Tighter(b, a) {
      ParenthesizedRight(a, Leaf(x), r, load);
      assert [Operand(x)] + [Binary(a)] + [Operand(y), Binary(b), Operand(z)]
          == [Operand(x), Binary(a), Operand(y), Binary(b), Operand(z)];
      assert [Operand(x)] + [Binary(a)] + ([LParen] + [Operand(y), Binary(b), Operand(z)] + [RParen])
          == [Operand(x), Binary(a), LParen, Operand(y), Binary(b), Operand(z), RParen];
    } else {
      ParenthesizedLeft(b, l, Leaf(z), load);
      assert [Operand(x), Binary(a), Operand(y)] + [Binary(b)] + [Operand(z)]
          == [Operand(x), Binary(a), Operand(y), Binary(b), Operand(z)];
      assert [LParen] + [Operand(x), Binary(a), Operand(y)] + [RParen] + [Binary(b)] + [Operand(z)]
          == [LParen, Operand(x), Binary(a), Operand(y), RParen, Binary(b), Operand(z)];
    }
  }

  /** Parentheses around an operand that needs none. */
  lemma ParenthesizedLeft(op: BinOp, l: Tree, r: Tree, load: Word -> Word)
    requires WellFormed(l) && WellFormed(Node(op, l, r))
    ensures Eval(Render(l) + [Binary(op)] + Render(r), true, load)
         == Eval([LParen] + Render(l) + [RParen] + [Binary(op)] + Render(r), true, load)
  {
    ParenthesesIdle(op, l, r, load);
  }

  lemma ParenthesizedRight(op: BinOp, l: Tree, r: Tree, load: Word -> Word)
    requires WellFormed(l) && WellFormed(Node(op, l, r))
    ensures Eval(Render(l) + [Binary(op)] + Render(r), true, load)
         == Eval(Render(l) + [Binary(op)] + ([LParen] + Render(r) + [RParen]), true, load)
  {
    ParenthesesIdle(op, l, r, load);
  }

  lemma ParenthesesIdle(op: BinOp, l: Tree, r: Tree, load: Word -> Word)
    requires WellFormed(l) && WellFormed(Node(op, l, r))
    ensures var e := Eval(Render(Node(op, l, r)), true, load);
            && Eval(Render(Node(op, Paren(l), r)), true, load) == e
            && Eval(Render(Node(op, l, Paren(r))), true, load) == e
  {
    EvalRender(Node(op, l, r), load);
    EvalRender(Node(op, Paren(l), r), load);
    EvalRender(Node(op, l, Paren(r)), load);
    ParenValues(op, l, r, load);
  }

  lemma ParenValues(op: BinOp, l: Tree, r: Tree, load: Word -> Word)
    ensures var v := Value(Innermost(Node(op, l, r)), load);
            && Value(Innermost(Node(op, Paren(l), r)), load) == v
            && Value(Innermost(Node(op, l, Paren(r))), load) == v
  {
  }

  /** A prefix operator comes before every binary one. */
  lemma PrefixGrouping(op: PrefixOp, x: Word, b: BinOp, y: Word, load: Word -> Word)
    ensures Eval([Prefix(op), Operand(x), Binary(b), Operand(y)], true, load)
         == Eval([LParen, Prefix(op), Operand(x), RParen, Binary(b), Operand(y)], true, load)
  {
    var l := Prefixed([op], Leaf(x));
    assert Render(l) == PrefixTokens([op]) + [Operand(x)] == [Prefix(op), Operand(x)];
    ParenthesizedLeft(b, l, Leaf(y), load);
    assert [Prefix(op), Operand(x)] + [Binary(b)] + [Operand(y)] == [Prefix(op), Operand(x), Binary(b), Operand(y)];
    assert [LParen] + [Prefix(op), Operand(x)] + [RParen] + [Binary(b)] + [Operand(y)]
        == [LParen, Prefix(op), Operand(x), RParen, Binary(b), Operand(y)];
  }

  // ---------------------------------------------------------------------
  // Termination
  // ---------------------------------------------------------------------

  lemma {:induction false} SliceDepth(s: seq<Token>, i: nat, j: nat, n: nat)
    requires i <= j <= |s| && n <= j - i
    ensures Depth(s[i..j], n) == Depth(s, i + n) - Depth(s, i)
  {
    if n > 0 {
      SliceDepth(s, i, j, n - 1);
    }
  }

  lemma SliceBalanced(s: seq<Token>, i: nat, j: nat)
    requires i <= j <= |s| && Depth(s, i) == Depth(s, j)
    requires forall n :: i <= n <= j ==> Depth(s, n) >= Depth(s, i)
    ensures Balanced(s[i..j])
  {
    forall n | 0 <= n <= j - i ensures Depth(s[i..j], n) >= 0 {
      SliceDepth(s, i, j, n);
    }
    SliceDepth(s, i, j, j - i);
  }

  lemma BalancedSlices(s: seq<Token>, k: nat)
    requires Balanced(s) && k < |s| && Splits(s, k)
    ensures Balanced(s[..k]) && Balanced(s[k + 1..])
  {
    assert Depth(s, k + 1) == 0;
    SliceBalanced(s, 0, k);
    SliceBalanced(s, k + 1, |s|);
    assert s[0..k] == s[..k] && s[k + 1..|s|] == s[k + 1..];
  }

  lemma WrappedInside(s: seq<Token>)
    requires Wrapped(s)
    ensures Balanced(s[1..|s| - 1])
  {
    assert Depth(s, 1) == 1;
    assert Depth(s, |s|) == Depth(s, |s| - 1) - 1;
    SliceBalanced(s, 1, |s| - 1);
  }

  lemma {:induction false} DominantSplitsOrFirst(s: seq<Token>, n: nat)
    requires |s| > 0 && n <= |s|
    ensures Splits(s, DominantAmong(s, n)) || DominantAmong(s, n) == 0
  {
    if n > 0 {
      DominantSplitsOrFirst(s, n - 1);
    }
  }

  /** Dropping the opening parenthesis of balanced tokens leaves a range that
      check_parentheses reports as invalid. */
  lemma HeadlessIsInvalid(s: seq<Token>, load: Word -> Word)
    requires Balanced(s) && |s| >= 2 && s[0] == LParen
    ensures Eval(s[1..], true, load).out != Hang
  {
    var b := s[1..];
    assert s == [LParen] + b;
    SingletonDepth(LParen);
    DepthConcat([LParen], b, |s|);
    assert Depth(b, |b|) == -1;
    DanglingDepth(b);
  }

  /** The two ranges eval recurses into from a balanced one. */
  lemma SplitStaysBalanced(s: seq<Token>, k: nat)
    requires Balanced(s) && |s| >= 2 && k == DominantAmong(s, |s|)
    ensures (Balanced(s[..k]) && Balanced(s[k + 1..])) || (k == 0 && s[0] == LParen)
  {
    DominantSplitsOrFirst(s, |s|);
    if Splits(s, k) {
      BalancedSlices(s, k);
    } else {
      assert Depth(s, 1) == Depth(s, 0) + Nesting(s[0]);
    }
  }

  lemma SplitNeverHangs(s: seq<Token>, k: nat, a: seq<Token>, b: seq<Token>, load: Word -> Word)
    requires k < |s| && a == s[..k] && b == s[k + 1..]
    requires || (Eval(a, true, load).out != Hang && Eval(b, Eval(a, true, load).valid, load).out != Hang)
             || (k == 0 && Eval(b, true, load).out != Hang)
    ensures SplitResult(s, k, load).out != Hang
  {
  }

  lemma {:induction false} BalancedNeverHangs(s: seq<Token>, valid: bool, load: Word -> Word)
    requires Balanced(s)
    ensures Eval(s, valid, load).out != Hang
    decreases |s|
  {
    if |s| >= 2 {
      if Wrapped(s) {
        var inside := s[1..|s| - 1];
        WrappedInside(s);
        BalancedNeverHangs(inside, true, load);
        EvalWrapped(s, inside, valid, load);
      } else {
        var k := DominantAmong(s, |s|);
        SplitStaysBalanced(s, k);
        var a, b := s[..k], s[k + 1..];
        if Balanced(a) && Balanced(b) {
          BalancedNeverHangs(a, true, load);
          BalancedNeverHangs(b, Eval(a, true, load).valid, load);
        } else {
          HeadlessIsInvalid(s, load);
        }
        SplitNeverHangs(s, k, a, b, load);
        EvalSplit(s, k, valid, load);
      }
    }
  }

  /** eval returns on every token range except two or more tokens that end in a
      parenthesis opened after balanced ones: there dominant_op loops forever. */
  lemma HangExactly(s: seq<Token>, valid: bool, load: Word -> Word)
    ensures Eval(s, valid, load).out == Hang <==> |s| >= 2 && DanglingOpen(s)
  {
    if |s| >= 2 {
      EvalDangling(s, valid, load);
      if Balanced(s) {
        BalancedNeverHangs(s, valid, load);
      }
    }
  }

  /** "3 + (" never returns. */
  lemma HangExample(s: seq<Token>, load: Word -> Word)
    requires s == [Operand(3), Binary(Add), LParen]
    ensures Retag(s) == s && Eval(s, true, load).out == Hang
  {
    ThreePlusDangles(s);
    HangExactly(s, true, load);
    RetagUnique(s, s);
  }

  lemma ThreePlusDangles(s: seq<Token>)
    requires s == [Operand(3), Binary(Add), LParen]
    ensures DanglingOpen(s)
  {
    assert Depth(s, 0) == 0;
    assert Depth(s, 1) == 0;
    assert Depth(s, 2) == 0;
  }

  // ---------------------------------------------------------------------
  // Retagging recovers the prefix operators of a rendering
  // ---------------------------------------------------------------------

  /** The token make_token produces. */
  function RawToken(t: Token): Token {
    if t == Prefix(Neg) then Binary(Sub) else if t == Prefix(Deref) then Binary(Mul) else t
  }

  function Raw(s: seq<Token>): (r: seq<Token>)
    ensures |r| == |s|
  {
    seq(|s|, i requires 0 <= i < |s| => RawToken(s[i]))
  }

  /** '-' and '*' are prefix operators exactly at the start and after an operator
      that expr looks for. */
  ghost predicate TagsVisible(s: seq<Token>) {
    forall i :: 0 <= i < |s| ==>
      && (s[i] == Prefix(Neg) || s[i] == Prefix(Deref) ==> PrefixPlace(s, i))
      && (s[i] == Binary(Sub) || s[i] == Binary(Mul) ==> !PrefixPlace(s, i))
  }

  lemma {:induction false} RetagAt(s: seq<Token>, i: nat)
    requires i < |s|
    ensures Retag(s)[i] == Retagged(s[i], PrefixPlace(Retag(s), i))
    decreases |s|
  {
    var n := |s| - 1;
    if i < n {
      RetagAt(s[..n], i);
    }
  }

  lemma SamePlaces(r: seq<Token>, n: nat)
    requires n <= |r|
    ensures forall i :: 0 <= i < n ==> PrefixPlace(r[..n], i) == PrefixPlace(r, i)
  {
  }

  lemma {:induction false} RetagUnique(s: seq<Token>, r: seq<Token>)
    requires |r| == |s| && forall i :: 0 <= i < |s| ==> r[i] == Retagged(s[i], PrefixPlace(r, i))
    ensures r == Retag(s)
  {
    if |s| > 0 {
      var n := |s| - 1;
      SamePlaces(r, n);
      RetagUnique(s[..n], r[..n]);
      assert r == r[..n] + [r[n]];
    }
  }

  lemma RetagRecovers(s: seq<Token>)
    ensures Retag(Raw(s)) == s <==> TagsVisible(s)
  {
    if TagsVisible(s) {
      RetagUnique(Raw(s), s);
    }
    if Retag(Raw(s)) == s {
      forall i | 0 <= i < |s|
        ensures (s[i] == Prefix(Neg) || s[i] == Prefix(Deref) ==> PrefixPlace(s, i))
             && (s[i] == Binary(Sub) || s[i] == Binary(Mul) ==> !PrefixPlace(s, i))
      {
        RetagAt(Raw(s), i);
      }
    }
  }

  // Where the prefix operators of a tree may stand.

  predicate PlaceFrom(s: seq<Token>, i: nat, place: bool)
    requires i < |s|
  {
    if i == 0 then place else BeforePrefix(s[i - 1])
  }

  /** TagsVisible for tokens that follow others; place says whether the first of
      them is where '-' and '*' are taken for prefix operators. */
  ghost predicate VisibleFrom(s: seq<Token>, place: bool) {
    forall i :: 0 <= i < |s| ==>
      && (s[i] == Prefix(Neg) || s[i] == Prefix(Deref) ==> PlaceFrom(s, i, place))
      && (s[i] == Binary(Sub) || s[i] == Binary(Mul) ==> !PlaceFrom(s, i, place))
  }

  function PlaceAfter(s: seq<Token>, place: bool): bool {
    if |s| == 0 then place else BeforePrefix(s[|s| - 1])
  }

  lemma VisibleConcat(a: seq<Token>, b: seq<Token>, place: bool)
    ensures VisibleFrom(a + b, place) <==> VisibleFrom(a, place) && VisibleFrom(b, PlaceAfter(a, place))
  {
    var s, after := a + b, PlaceAfter(a, place);
    forall i | 0 <= i < |a| ensures s[i] == a[i] && PlaceFrom(s, i, place) == PlaceFrom(a, i, place) {
    }
    forall i | 0 <= i < |b| ensures s[|a| + i] == b[i] && PlaceFrom(s, |a| + i, place) == PlaceFrom(b, i, after) {
    }
    if VisibleFrom(a, place) && VisibleFrom(b, after) {
      forall i | 0 <= i < |s|
        ensures (s[i] == Prefix(Neg) || s[i] == Prefix(Deref) ==> PlaceFrom(s, i, place))
             && (s[i] == Binary(Sub) || s[i] == Binary(Mul) ==> !PlaceFrom(s, i, place))
      {
        if i >= |a| {
          assert s[|a| + (i - |a|)] == b[i - |a|];
        }
      }
    }
    if VisibleFrom(s, place) {
      forall i | 0 <= i < |b|
        ensures (b[i] == Prefix(Neg) || b[i] == Prefix(Deref) ==> PlaceFrom(b, i, after))
             && (b[i] == Binary(Sub) || b[i] == Binary(Mul) ==> !PlaceFrom(b, i, after))
      {
        assert s[|a| + i] == b[i];
      }
    }
  }

  predicate VisibleOp(ops: seq<PrefixOp>, i: nat, place: bool)
    requires i < |ops|
  {
    ops[i] == Not || if i == 0 then place else ops[i - 1] == Not
  }

  predicate VisibleOps(ops: seq<PrefixOp>, place: bool) {
    forall i {:trigger VisibleOp(ops, i, place)} :: 0 <= i < |ops| ==> VisibleOp(ops, i, place)
  }

  /** On trees: no negation or dereference right after an opening parenthesis or
      another one, and an omitted left operand only where '-' is kept binary. */
  predicate VisibleTree(t: Tree, place: bool) {
    match t
    case Leaf(_) => true
    case Missing => true
    case Paren(e) => VisibleTree(e, false)
    case Prefixed(ops, arg) => VisibleOps(ops, place) && VisibleTree(arg, false)
    case Node(op, l, r) =>
      && VisibleTree(l, place) && VisibleTree(r, true)
      && (l.Missing? && (op == Sub || op == Mul) ==> !place)
  }

  lemma {:induction false} RenderEnds(t: Tree)
    requires WellFormed(t)
    ensures !BeforePrefix(Render(t)[|Render(t)| - 1])
  {
    match t
    case Prefixed(_, arg) => RenderEnds(arg);
    case Node(_, _, r) => RenderEnds(r);
    case _ =>
  }

  lemma VisiblePrefixes(ops: seq<PrefixOp>, place: bool)
    ensures VisibleFrom(PrefixTokens(ops), place) <==> VisibleOps(ops, place)
  {
    var s := PrefixTokens(ops);
    forall i | 0 <= i < |ops|
      ensures PlaceFrom(s, i, place) <==> if i == 0 then place else ops[i - 1] == Not
    {
    }
    if VisibleFrom(s, place) {
      forall i | 0 <= i < |ops| ensures VisibleOp(ops, i, place) {
        assert s[i] == Prefix(ops[i]);
      }
    }
    if VisibleOps(ops, place) {
      assert forall i :: 0 <= i < |ops| && s[i] != Prefix(Not) ==> VisibleOp(ops, i, place);
    }
  }

  lemma {:induction false} RenderVisible(t: Tree, place: bool)
    requires WellFormed(t) || t.Missing?
    ensures VisibleFrom(Render(t), place) <==> VisibleTree(t, place)
    decreases t
  {
    match t
    case Leaf(_) =>
    case Missing =>
    case Paren(e) =>
      RenderVisible(e, false);
      ParenVisible(Render(e), place);
    case Prefixed(ops, arg) =>
      VisiblePrefixes(ops, place);
      VisibleConcat(PrefixTokens(ops), Render(arg), place);
      VisibleOperand(arg, PlaceAfter(PrefixTokens(ops), place));
      RenderVisible(arg, false);
    case Node(op, l, r) =>
      RenderVisible(l, place);
      RenderVisible(r, true);
      if !l.Missing? {
        RenderEnds(l);
      }
      NodeVisible(op, Render(l), Render(r), place);
  }

  lemma ParenVisible(e: seq<Token>, place: bool)
    ensures VisibleFrom([LParen] + e + [RParen], place) <==> VisibleFrom(e, false)
  {
    VisibleConcat([LParen], e, place);
    VisibleConcat([LParen] + e, [RParen], place);
  }

  lemma NodeVisible(op: BinOp, a: seq<Token>, b: seq<Token>, place: bool)
    ensures VisibleFrom(a + [Binary(op)] + b, place) <==>
              VisibleFrom(a, place) && VisibleFrom(b, true) && (op == Sub || op == Mul ==> !PlaceAfter(a, place))
  {
    VisibleConcat(a, [Binary(op)], place);
    VisibleConcat(a + [Binary(op)], b, place);
  }

  /** A leaf or a parenthesis starts with a token that is never retagged. */
  lemma VisibleOperand(t: Tree, place: bool)
    requires WellFormed(t) && (t.Leaf? || t.Paren?)
    ensures VisibleFrom(Render(t), place) <==> VisibleFrom(Render(t), false)
  {
    var s := Render(t);
    assert s[0] == LParen || s[0].Operand?;
    assert forall i :: 0 < i < |s| ==> PlaceFrom(s, i, place) == PlaceFrom(s, i, false);
  }

  /** From raw tokens to the value: the whole of expr after make_token. */
  lemma ExpressionCorrect(t: Tree, load: Word -> Word)
    requires WellFormed(t) && VisibleTree(t, true)
    ensures Eval(Retag(Raw(Render(t))), true, load) == Result(Value(Innermost(t), load), true)
    ensures HarmlessRuns(t) ==> Value(Innermost(t), load) == Value(t, load)
  {
    RenderVisible(t, true);
    assert TagsVisible(Render(t)) by {
      assert forall i :: 0 <= i < |Render(t)| ==> PrefixPlace(Render(t), i) == PlaceFrom(Render(t), i, true);
    }
    RetagRecovers(Render(t));
    EvalRender(t, load);
    if HarmlessRuns(t) {
      HarmlessValue(t, load);
    }
  }

  method EvalAll(s: seq<Token>, load: Word -> Word) returns (out: Outcome, valid: bool)
    requires |s| < 2 || !DanglingOpen(s)
    ensures out == Eval(s, true, load).out && (!out.Crash() ==> valid == Eval(s, true, load).valid)
  {
    HangExactly(s, true, load);
    assert s[0..|s| - 1 + 1] == s;
    out, valid := EvalTokens(s, 0, |s| - 1, true, load);
  }

  /** expr after a successful make_token: the value, and whether it is reported
      as valid. Hang is returned where the code does not return. */
  method EvalExpression(tokens: array<Token>, nrToken: nat, load: Word -> Word) returns (out: Outcome, success: bool)
    requires nrToken <= tokens.Length
    modifies tokens
    ensures var r := Eval(Retag(old(tokens[..nrToken])), true, load);
            && (r.out.Crash() ==> out == r.out)
            && (!r.out.Crash() ==> success == r.valid && out == if success then r.out else Val(0))
    ensures tokens[..nrToken] == Retag(old(tokens[..nrToken])) && tokens[nrToken..] == old(tokens[nrToken..])
  {
    RetagTokens(tokens, nrToken);
    if nrToken >= 2 && DanglingOpen(tokens[..nrToken]) {
      HangExactly(tokens[..nrToken], true, load);
      return Hang, false;
    }
    out, success := EvalAll(tokens[..nrToken], load);
    if !out.Crash() && !success {
      out := Val(0);
    }
  }
}
