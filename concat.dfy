/** `inlineStringConcats` (lib/index.js:129-149): `"a" + "b"` becomes `"ab"`
    anywhere in the program.

    The source visits binary expressions top down: a `+` whose two operands are
    already string literals is replaced and its children are not visited; any
    other binary expression has its children visited. A replaced node is not
    looked at again, so its parent, visited before it, is never folded. For a
    chain `"1" + "2" + "3"`, which parses as `("1" + "2") + "3"`, one run gives
    `"12" + "3"` where the test at test/cleanup.test.js:515-520 expects `"123"`.
    `PreOrder` below is the visit as written; `PostOrder`, which folds children
    before their parent, is the evidently intended one and the one
    `InlineStringConcats` uses. */
module Concat {
  import opened Wrappers
  import opened Ast

  datatype Order = PreOrder | PostOrder

  /** A `+` of two string literals, folded into one. */
  predicate Foldable(op: string, l: Expr, r: Expr) {
    op == "+" && l.Str? && r.Str?
  }

  function FoldExpr(e: Expr, o: Order): Expr
    decreases e, 1
  {
    match e
    case Ident(_) => e
    case Num(_) => e
    case Str(_) => e
    case Bool(_) => e
    case Unary(op, a) => Unary(op, FoldExpr(a, o))
    case Member(obj, p) => Member(FoldExpr(obj, o), FoldExpr(p, o))
    case Assign(op, t, v) => Assign(op, FoldExpr(t, o), FoldExpr(v, o))
    case Sequence(items) => Sequence(FoldExprs(items, o))
    case Call(callee, args) => Call(FoldExpr(callee, o), FoldExprs(args, o))
    case Binary(op, l, r) =>
      if o == PreOrder && Foldable(op, l, r) then Str(l.text + r.text)
      else
        var l', r' := FoldExpr(l, o), FoldExpr(r, o);
        if o == PostOrder && Foldable(op, l', r') then Str(l'.text + r'.text)
        else Binary(op, l', r')
    case ArrayLit(elems) => ArrayLit(FoldExprs(elems, o))
    case FuncExpr(f) => FuncExpr(FoldFunction(f, o))
    case Declaration(k, ds) => Declaration(k, FoldDecls(ds, o))
  }

  function FoldExprs(es: seq<Expr>, o: Order): (r: seq<Expr>)
    ensures |r| == |es|
    decreases es, 0
  {
    if |es| == 0 then [] else [FoldExpr(es[0], o)] + FoldExprs(es[1..], o)
  }

  function FoldOption(e: Option<Expr>, o: Order): Option<Expr>
    decreases e, 1
  {
    match e
    case None => None
    case Some(x) => Some(FoldExpr(x, o))
  }

  function FoldDecl(d: Declarator, o: Order): Declarator
    decreases d, 1
  {
    Declarator(FoldExpr(d.id, o), FoldOption(d.init, o))
  }

  function FoldDecls(ds: seq<Declarator>, o: Order): (r: seq<Declarator>)
    ensures |r| == |ds|
    decreases ds, 0
  {
    if |ds| == 0 then [] else [FoldDecl(ds[0], o)] + FoldDecls(ds[1..], o)
  }

  function FoldStmt(s: Stmt, o: Order): Stmt
    decreases s, 1
  {
    match s
    case ExprStmt(e) => ExprStmt(FoldExpr(e, o))
    case VarDecl(k, ds) => VarDecl(k, FoldDecls(ds, o))
    case Return(a) => Return(FoldOption(a, o))
    case FuncDecl(f) => FuncDecl(FoldFunction(f, o))
  }

  function FoldStmts(ss: seq<Stmt>, o: Order): (r: seq<Stmt>)
    ensures |r| == |ss|
    decreases ss, 0
  {
    if |ss| == 0 then [] else [FoldStmt(ss[0], o)] + FoldStmts(ss[1..], o)
  }

  function FoldFunction(f: Function, o: Order): Function
    decreases f, 1
  {
    Function(f.name, f.params, FoldStmts(f.body, o))
  }

  /** The pass as lib/index.js:131-146 writes it: one top-down run. */
  function InlineStringConcatsAsWritten(p: Program): (r: Program)
    ensures |r| == |p|
  {
    FoldStmts(p, PreOrder)
  }

  /** The pass with its children-first repair: it keeps the program's statements
      and leaves no `+` of two string literals anywhere in it. */
  function InlineStringConcats(p: Program): (r: Program)
    ensures |r| == |p|
    ensures FoldFreeStmts(r)
  {
    PostOrderFoldFreeStmts(p);
    FoldStmts(p, PostOrder)
  }

  /** No `+` of two string literals anywhere in the tree, functions included. */
  predicate FoldFreeExpr(e: Expr)
    decreases e, 1
  {
    match e
    case Ident(_) => true
    case Num(_) => true
    case Str(_) => true
    case Bool(_) => true
    case Unary(_, a) => FoldFreeExpr(a)
    case Member(obj, p) => FoldFreeExpr(obj) && FoldFreeExpr(p)
    case Assign(_, t, v) => FoldFreeExpr(t) && FoldFreeExpr(v)
    case Sequence(items) => FoldFreeExprs(items)
    case Call(callee, args) => FoldFreeExpr(callee) && FoldFreeExprs(args)
    case Binary(op, l, r) => !Foldable(op, l, r) && FoldFreeExpr(l) && FoldFreeExpr(r)
    case ArrayLit(elems) => FoldFreeExprs(elems)
    case FuncExpr(f) => FoldFreeStmts(f.body)
    case Declaration(_, ds) => FoldFreeDecls(ds)
  }

  predicate FoldFreeExprs(es: seq<Expr>)
    decreases es, 0
  {
    |es| == 0 || (FoldFreeExpr(es[0]) && FoldFreeExprs(es[1..]))
  }

  predicate FoldFreeDecls(ds: seq<Declarator>)
    decreases ds, 0
  {
    |ds| == 0 || (FoldFreeDecl(ds[0]) && FoldFreeDecls(ds[1..]))
  }

  predicate FoldFreeDecl(d: Declarator)
    decreases d, 1
  {
    FoldFreeExpr(d.id) && (match d.init case None => true case Some(x) => FoldFreeExpr(x))
  }

  predicate FoldFreeStmt(s: Stmt)
    decreases s, 1
  {
    match s
    case ExprStmt(e) => FoldFreeExpr(e)
    case VarDecl(_, ds) => FoldFreeDecls(ds)
    case Return(a) => a.None? || FoldFreeExpr(a.value)
    case FuncDecl(f) => FoldFreeStmts(f.body)
  }

  predicate FoldFreeStmts(ss: seq<Stmt>)
    decreases ss, 0
  {
    |ss| == 0 || (FoldFreeStmt(ss[0]) && FoldFreeStmts(ss[1..]))
  }

  /** The string an expression made only of string literals and `+` evaluates to. */
  function StrValue(e: Expr): Option<string> {
    match e
    case Str(s) => Some(s)
    case Binary(op, l, r) =>
      if op == "+" && StrValue(l).Some? && StrValue(r).Some? then Some(StrValue(l).value + StrValue(r).value)
      else None
    case _ => None
  }

  /** `s0 + s1 + ... + sn`, nested to the left as JavaScript parses it. */
  function Chain(ss: seq<string>): Expr
    requires |ss| > 0
  {
    if |ss| == 1 then Str(ss[0]) else Binary("+", Chain(ss[..|ss| - 1]), Str(ss[|ss| - 1]))
  }

  // ---------------------------------------------------------------------------
  // Properties

  /** Either visit keeps the string a literal-only expression evaluates to. */
  lemma {:induction false} FoldKeepsValue(e: Expr, o: Order)
    requires StrValue(e).Some?
    ensures StrValue(FoldExpr(e, o)) == StrValue(e)
  {
    if e.Binary? && !(o == PreOrder && Foldable(e.op, e.left, e.right)) {
      FoldKeepsValue(e.left, o);
      FoldKeepsValue(e.right, o);
    }
  }

  /** A chain evaluates to the concatenation of its parts. */
  lemma {:induction false} ChainValue(ss: seq<string>, joined: string)
    requires |ss| > 0
    requires joined == JoinAll(ss)
    ensures StrValue(Chain(ss)) == Some(joined)
  {
    if |ss| > 1 {
      ChainValue(ss[..|ss| - 1], JoinAll(ss[..|ss| - 1]));
    } else {
      assert JoinAll(ss[..0]) == "" && "" + ss[0] == ss[0];
    }
  }

  function JoinAll(ss: seq<string>): string {
    if |ss| == 0 then "" else JoinAll(ss[..|ss| - 1]) + ss[|ss| - 1]
  }

  /** As written: a chain of three or more literals is never reduced to one
      literal by a single run; its outermost `+` survives. */
  lemma SinglePassKeepsChain(ss: seq<string>)
    requires |ss| >= 3
    ensures FoldExpr(Chain(ss), PreOrder).Binary?
  {
    assert Chain(ss[..|ss| - 1]).Binary?;
  }

  /** As written, on the test's input: `"1" + "2" + "3"` gives `"12" + "3"`. */
  lemma SinglePassLeavesChain()
    ensures FoldExpr(Chain(["1", "2", "3"]), PreOrder) == Binary("+", Str("12"), Str("3"))
  {
    var ss := ["1", "2", "3"];
    assert ss[..2] == ["1", "2"] && ss[..2][..1] == ["1"];
    assert Chain(["1"]) == Str("1");
    assert Chain(["1", "2"]) == Binary("+", Str("1"), Str("2"));
    assert Chain(ss) == Binary("+", Binary("+", Str("1"), Str("2")), Str("3"));
    assert "1" + "2" == "12";
  }

  /** As written, one run on a chain folds exactly its innermost pair:
      `s0 + s1 + s2 + ...` becomes `(s0 s1) + s2 + ...`. */
  lemma {:induction false} SinglePassFoldsFirstPair(ss: seq<string>)
    requires |ss| >= 2
    ensures FoldExpr(Chain(ss), PreOrder) == Chain([ss[0] + ss[1]] + ss[2..])
    decreases |ss|
  {
    var merged := [ss[0] + ss[1]] + ss[2..];
    if |ss| == 2 {
      assert ss[..1] == [ss[0]];
    } else {
      var init := ss[..|ss| - 1];
      SinglePassFoldsFirstPair(init);
      assert init[..|init| - 1] == ss[..|ss| - 2];
      assert |ss| > 3 ==> Chain(ss[..|ss| - 2]).Binary?;
      assert merged[..|merged| - 1] == [init[0] + init[1]] + init[2..];
    }
  }

  /** Running the as-written pass `n` times. */
  function PreOrderRuns(e: Expr, n: nat): Expr
    decreases n
  {
    if n == 0 then e else PreOrderRuns(FoldExpr(e, PreOrder), n - 1)
  }

  /** Merging the first two parts keeps the concatenation. */
  lemma {:induction false} JoinMerged(ss: seq<string>)
    requires |ss| >= 2
    ensures JoinAll([ss[0] + ss[1]] + ss[2..]) == JoinAll(ss)
    decreases |ss|
  {
    var merged := [ss[0] + ss[1]] + ss[2..];
    if |ss| == 2 {
      assert ss[..1] == [ss[0]] && merged[..0] == [] && ss[..1][..0] == [];
      assert JoinAll(ss[..1]) == "" + ss[0] == ss[0];
      assert JoinAll(merged) == "" + (ss[0] + ss[1]);
    } else {
      var init := ss[..|ss| - 1];
      JoinMerged(init);
      assert merged[..|merged| - 1] == [init[0] + init[1]] + init[2..];
    }
  }

  /** As written, `n` parts need `n - 1` runs: iterating the pass to its fixpoint
      collapses a chain into the one literal it evaluates to, and one more run
      changes nothing. */
  lemma {:induction false} RunsCollapseChain(ss: seq<string>)
    requires |ss| > 0
    ensures PreOrderRuns(Chain(ss), |ss| - 1) == Str(JoinAll(ss))
    ensures FoldExpr(Str(JoinAll(ss)), PreOrder) == Str(JoinAll(ss))
    decreases |ss|
  {
    if |ss| == 1 {
      assert ss[..0] == [] && JoinAll(ss) == "" + ss[0];
    } else {
      var merged := [ss[0] + ss[1]] + ss[2..];
      SinglePassFoldsFirstPair(ss);
      RunsCollapseChain(merged);
      JoinMerged(ss);
    }
  }

  /** Corrected: children first, so any expression made only of string literals and
      `+` becomes the one literal it evaluates to. */
  lemma {:induction false} ChainCollapses(e: Expr)
    requires StrValue(e).Some?
    ensures FoldExpr(e, PostOrder) == Str(StrValue(e).value)
  {
    if e.Binary? {
      ChainCollapses(e.left);
      ChainCollapses(e.right);
    }
  }

  /** Corrected, on the test's input: `"1" + "2" + "3"` gives `"123"`. */
  lemma ChainExample()
    ensures FoldExpr(Chain(["1", "2", "3"]), PostOrder) == Str("123")
  {
    var ss := ["1", "2", "3"];
    assert ss[..2] == ["1", "2"] && ss[..2][..1] == ["1"] && ss[..2][..1][..0] == [];
    assert JoinAll(["1"]) == "1";
    assert JoinAll(["1", "2"]) == "12";
    assert JoinAll(ss) == "123";
    ChainValue(ss, "123");
    ChainCollapses(Chain(ss));
  }

  /** Corrected: a second run changes nothing. */
  lemma {:induction false} PostOrderIdempotent(e: Expr)
    ensures FoldExpr(FoldExpr(e, PostOrder), PostOrder) == FoldExpr(e, PostOrder)
    decreases e, 1
  {
    match e
    case Ident(_) =>
    case Num(_) =>
    case Str(_) =>
    case Bool(_) =>
    case Unary(op, a) => PostOrderIdempotent(a);
    case Member(obj, p) => PostOrderIdempotent(obj); PostOrderIdempotent(p);
    case Assign(op, t, v) => PostOrderIdempotent(t); PostOrderIdempotent(v);
    case Sequence(items) => PostOrderIdempotentExprs(items);
    case Call(callee, args) => PostOrderIdempotent(callee); PostOrderIdempotentExprs(args);
    case Binary(op, l, r) => PostOrderIdempotent(l); PostOrderIdempotent(r);
    case ArrayLit(elems) => PostOrderIdempotentExprs(elems);
    case FuncExpr(f) => PostOrderIdempotentStmts(f.body);
    case Declaration(k, ds) => PostOrderIdempotentDecls(ds);
  }

  lemma {:induction false} PostOrderIdempotentExprs(es: seq<Expr>)
    ensures FoldExprs(FoldExprs(es, PostOrder), PostOrder) == FoldExprs(es, PostOrder)
    decreases es, 0
  {
    if |es| > 0 {
      PostOrderIdempotent(es[0]);
      PostOrderIdempotentExprs(es[1..]);
      var once := FoldExprs(es, PostOrder);
      assert once[0] == FoldExpr(es[0], PostOrder) && once[1..] == FoldExprs(es[1..], PostOrder);
    }
  }

  lemma {:induction false} PostOrderIdempotentDecls(ds: seq<Declarator>)
    ensures FoldDecls(FoldDecls(ds, PostOrder), PostOrder) == FoldDecls(ds, PostOrder)
    decreases ds, 0
  {
    if |ds| > 0 {
      PostOrderIdempotentDecl(ds[0]);
      PostOrderIdempotentDecls(ds[1..]);
      var once := FoldDecls(ds, PostOrder);
      assert once[0] == FoldDecl(ds[0], PostOrder) && once[1..] == FoldDecls(ds[1..], PostOrder);
    }
  }

  lemma {:induction false} PostOrderIdempotentDecl(d: Declarator)
    ensures FoldDecl(FoldDecl(d, PostOrder), PostOrder) == FoldDecl(d, PostOrder)
    decreases d, 1
  {
    PostOrderIdempotent(d.id);
    if d.init.Some? {
      PostOrderIdempotent(d.init.value);
    }
  }

  lemma {:induction false} PostOrderIdempotentStmt(s: Stmt)
    ensures FoldStmt(FoldStmt(s, PostOrder), PostOrder) == FoldStmt(s, PostOrder)
    decreases s, 1
  {
    match s
    case ExprStmt(e) => PostOrderIdempotent(e);
    case VarDecl(k, ds) => PostOrderIdempotentDecls(ds);
    case Return(a) =>
      if a.Some? {
        PostOrderIdempotent(a.value);
      }
    case FuncDecl(f) => PostOrderIdempotentStmts(f.body);
  }

  lemma {:induction false} PostOrderIdempotentStmts(ss: seq<Stmt>)
    ensures FoldStmts(FoldStmts(ss, PostOrder), PostOrder) == FoldStmts(ss, PostOrder)
    decreases ss, 0
  {
    if |ss| > 0 {
      PostOrderIdempotentStmt(ss[0]);
      PostOrderIdempotentStmts(ss[1..]);
      var once := FoldStmts(ss, PostOrder);
      assert once[0] == FoldStmt(ss[0], PostOrder) && once[1..] == FoldStmts(ss[1..], PostOrder);
    }
  }

  /** Corrected: children first, so every `+` whose operands end up as two
      string literals is folded on the way up, and none is left. */
  lemma {:induction false} PostOrderFoldFree(e: Expr)
    ensures FoldFreeExpr(FoldExpr(e, PostOrder))
    decreases e, 1
  {
    match e
    case Ident(_) =>
    case Num(_) =>
    case Str(_) =>
    case Bool(_) =>
    case Unary(op, a) => PostOrderFoldFree(a);
    case Member(obj, p) => PostOrderFoldFree(obj); PostOrderFoldFree(p);
    case Assign(op, t, v) => PostOrderFoldFree(t); PostOrderFoldFree(v);
    case Sequence(items) => PostOrderFoldFreeExprs(items);
    case Call(callee, args) => PostOrderFoldFree(callee); PostOrderFoldFreeExprs(args);
    case Binary(op, l, r) => PostOrderFoldFree(l); PostOrderFoldFree(r);
    case ArrayLit(elems) => PostOrderFoldFreeExprs(elems);
    case FuncExpr(f) => PostOrderFoldFreeStmts(f.body);
    case Declaration(k, ds) => PostOrderFoldFreeDecls(ds);
  }

  lemma {:induction false} PostOrderFoldFreeExprs(es: seq<Expr>)
    ensures FoldFreeExprs(FoldExprs(es, PostOrder))
    decreases es, 0
  {
    if |es| > 0 {
      PostOrderFoldFree(es[0]);
      PostOrderFoldFreeExprs(es[1..]);
      var once := FoldExprs(es, PostOrder);
      assert once[0] == FoldExpr(es[0], PostOrder) && once[1..] == FoldExprs(es[1..], PostOrder);
    }
  }

  lemma {:induction false} PostOrderFoldFreeDecls(ds: seq<Declarator>)
    ensures FoldFreeDecls(FoldDecls(ds, PostOrder))
    decreases ds, 0
  {
    if |ds| > 0 {
      PostOrderFoldFreeDecl(ds[0]);
      PostOrderFoldFreeDecls(ds[1..]);
      var once := FoldDecls(ds, PostOrder);
      assert once[0] == FoldDecl(ds[0], PostOrder) && once[1..] == FoldDecls(ds[1..], PostOrder);
    }
  }

  lemma {:induction false} PostOrderFoldFreeDecl(d: Declarator)
    ensures FoldFreeDecl(FoldDecl(d, PostOrder))
    decreases d, 1
  {
    PostOrderFoldFree(d.id);
    if d.init.Some? {
      PostOrderFoldFree(d.init.value);
    }
  }

  lemma {:induction false} PostOrderFoldFreeStmt(s: Stmt)
    ensures FoldFreeStmt(FoldStmt(s, PostOrder))
    decreases s, 1
  {
    match s
    case ExprStmt(e) => PostOrderFoldFree(e);
    case VarDecl(k, ds) => PostOrderFoldFreeDecls(ds);
    case Return(a) =>
      if a.Some? {
        PostOrderFoldFree(a.value);
      }
    case FuncDecl(f) => PostOrderFoldFreeStmts(f.body);
  }

  lemma {:induction false} PostOrderFoldFreeStmts(ss: seq<Stmt>)
    ensures FoldFreeStmts(FoldStmts(ss, PostOrder))
    decreases ss, 0
  {
    if |ss| > 0 {
      PostOrderFoldFreeStmt(ss[0]);
      PostOrderFoldFreeStmts(ss[1..]);
      var once := FoldStmts(ss, PostOrder);
      assert once[0] == FoldStmt(ss[0], PostOrder) && once[1..] == FoldStmts(ss[1..], PostOrder);
    }
  }

  /** A chain of two or more literals still holds a `+` of two literals. */
  lemma {:induction false} ChainNotFoldFree(ss: seq<string>)
    requires |ss| >= 2
    ensures !FoldFreeExpr(Chain(ss))
    decreases |ss|
  {
    if |ss| > 2 {
      ChainNotFoldFree(ss[..|ss| - 1]);
    } else {
      assert ss[..1] == [ss[0]];
    }
  }

  /** As written, on a whole program: a statement holding a chain of three or more
      literals still holds a `+` of two literals after the pass. */
  lemma AsWrittenLeavesFoldable(ss: seq<string>)
    requires |ss| >= 3
    ensures !FoldFreeStmts(InlineStringConcatsAsWritten([ExprStmt(Chain(ss))]))
  {
    var p := [ExprStmt(Chain(ss))];
    SinglePassFoldsFirstPair(ss);
    ChainNotFoldFree([ss[0] + ss[1]] + ss[2..]);
    assert p[0] == ExprStmt(Chain(ss)) && p[1..] == [];
    assert FoldStmts(p, PreOrder) == [FoldStmt(p[0], PreOrder)] + FoldStmts([], PreOrder);
  }

  /** The repaired pass is idempotent on whole programs. */
  lemma InlineIdempotent(p: Program)
    ensures InlineStringConcats(InlineStringConcats(p)) == InlineStringConcats(p)
  {
    PostOrderIdempotentStmts(p);
  }
}
