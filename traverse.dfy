/** The tree walk behind `simplifySpreadParameters` and `simplifyDecoding`
    (lib/index.js:282-286, 392-400): every function node is visited after
    everything inside it (`this.traverse(path)` comes first), and the rewrite of a
    function sees its contents already rewritten. A rewrite may throw; the first
    throw in visiting order ends the walk. */
module Traverse {
  import opened Wrappers
  import opened Ast

  /** What a visitor does to one function node whose contents were already visited. */
  type Rewrite = Function -> Result<Function, string>

  /** Two results in visiting order: the first failure wins. */
  function Both<A, B>(a: Result<A, string>, b: Result<B, string>): Result<(A, B), string> {
    if a.Failure? then Failure(a.error)
    else if b.Failure? then Failure(b.error)
    else Success((a.value, b.value))
  }

  function WalkExpr(rw: Rewrite, e: Expr): Result<Expr, string>
    decreases e, 1
  {
    match e
    case Ident(_) => Success(e)
    case Num(_) => Success(e)
    case Str(_) => Success(e)
    case Bool(_) => Success(e)
    case Unary(op, a) =>
      var r := WalkExpr(rw, a);
      if r.Failure? then Failure(r.error) else Success(Unary(op, r.value))
    case Member(o, p) =>
      var r := Both(WalkExpr(rw, o), WalkExpr(rw, p));
      if r.Failure? then Failure(r.error) else Success(Member(r.value.0, r.value.1))
    case Assign(op, t, v) =>
      var r := Both(WalkExpr(rw, t), WalkExpr(rw, v));
      if r.Failure? then Failure(r.error) else Success(Assign(op, r.value.0, r.value.1))
    case Sequence(items) =>
      var r := WalkExprs(rw, items);
      if r.Failure? then Failure(r.error) else Success(Sequence(r.value))
    case Call(callee, args) =>
      var r := Both(WalkExpr(rw, callee), WalkExprs(rw, args));
      if r.Failure? then Failure(r.error) else Success(Call(r.value.0, r.value.1))
    case Binary(op, l, x) =>
      var r := Both(WalkExpr(rw, l), WalkExpr(rw, x));
      if r.Failure? then Failure(r.error) else Success(Binary(op, r.value.0, r.value.1))
    case ArrayLit(elems) =>
      var r := WalkExprs(rw, elems);
      if r.Failure? then Failure(r.error) else Success(ArrayLit(r.value))
    case FuncExpr(f) =>
      var r := WalkFunction(rw, f);
      if r.Failure? then Failure(r.error) else Success(FuncExpr(r.value))
    case Declaration(k, ds) =>
      var r := WalkDecls(rw, ds);
      if r.Failure? then Failure(r.error) else Success(Declaration(k, r.value))
  }

  function WalkExprs(rw: Rewrite, es: seq<Expr>): Result<seq<Expr>, string>
    decreases es, 0
  {
    if |es| == 0 then Success([])
    else
      var r := Both(WalkExpr(rw, es[0]), WalkExprs(rw, es[1..]));
      if r.Failure? then Failure(r.error) else Success([r.value.0] + r.value.1)
  }

  function WalkOption(rw: Rewrite, o: Option<Expr>): Result<Option<Expr>, string>
    decreases o, 1
  {
    match o
    case None => Success(None)
    case Some(e) =>
      var r := WalkExpr(rw, e);
      if r.Failure? then Failure(r.error) else Success(Some(r.value))
  }

  function WalkDecls(rw: Rewrite, ds: seq<Declarator>): Result<seq<Declarator>, string>
    decreases ds, 0
  {
    if |ds| == 0 then Success([])
    else
      var r := Both(WalkDecl(rw, ds[0]), WalkDecls(rw, ds[1..]));
      if r.Failure? then Failure(r.error) else Success([r.value.0] + r.value.1)
  }

  function WalkDecl(rw: Rewrite, d: Declarator): Result<Declarator, string>
    decreases d, 1
  {
    var r := Both(WalkExpr(rw, d.id), WalkOption(rw, d.init));
    if r.Failure? then Failure(r.error) else Success(Declarator(r.value.0, r.value.1))
  }

  function WalkStmt(rw: Rewrite, s: Stmt): Result<Stmt, string>
    decreases s, 1
  {
    match s
    case ExprStmt(e) =>
      var r := WalkExpr(rw, e);
      if r.Failure? then Failure(r.error) else Success(ExprStmt(r.value))
    case VarDecl(k, ds) =>
      var r := WalkDecls(rw, ds);
      if r.Failure? then Failure(r.error) else Success(VarDecl(k, r.value))
    case Return(a) =>
      var r := WalkOption(rw, a);
      if r.Failure? then Failure(r.error) else Success(Return(r.value))
    case FuncDecl(f) =>
      var r := WalkFunction(rw, f);
      if r.Failure? then Failure(r.error) else Success(FuncDecl(r.value))
  }

  function WalkStmts(rw: Rewrite, ss: seq<Stmt>): Result<seq<Stmt>, string>
    decreases ss, 0
  {
    if |ss| == 0 then Success([])
    else
      var r := Both(WalkStmt(rw, ss[0]), WalkStmts(rw, ss[1..]));
      if r.Failure? then Failure(r.error) else Success([r.value.0] + r.value.1)
  }

  /** The visitor on one function: its body first, then the rewrite. */
  function WalkFunction(rw: Rewrite, f: Function): Result<Function, string>
    decreases f, 1
  {
    var r := WalkStmts(rw, f.body);
    if r.Failure? then Failure(r.error) else rw(Function(f.name, f.params, r.value))
  }

  /** A rewrite that never throws. */
  ghost predicate Total(rw: Rewrite) {
    forall f :: rw(f).Success?
  }

  /** With a rewrite that never throws, the walk never throws, and it keeps the
      number of statements and expressions of every list it goes through. */
  lemma {:induction false} TotalWalkExpr(rw: Rewrite, e: Expr)
    requires Total(rw)
    ensures WalkExpr(rw, e).Success?
    decreases e, 1
  {
    match e
    case Ident(_) =>
    case Num(_) =>
    case Str(_) =>
    case Bool(_) =>
    case Unary(op, a) => TotalWalkExpr(rw, a);
    case Member(o, p) => TotalWalkExpr(rw, o); TotalWalkExpr(rw, p);
    case Assign(op, t, v) => TotalWalkExpr(rw, t); TotalWalkExpr(rw, v);
    case Sequence(items) => TotalWalkExprs(rw, items);
    case Call(callee, args) => TotalWalkExpr(rw, callee); TotalWalkExprs(rw, args);
    case Binary(op, l, x) => TotalWalkExpr(rw, l); TotalWalkExpr(rw, x);
    case ArrayLit(elems) => TotalWalkExprs(rw, elems);
    case FuncExpr(f) => TotalWalkFunction(rw, f);
    case Declaration(k, ds) => TotalWalkDecls(rw, ds);
  }

  lemma {:induction false} TotalWalkExprs(rw: Rewrite, es: seq<Expr>)
    requires Total(rw)
    ensures WalkExprs(rw, es).Success? && |WalkExprs(rw, es).value| == |es|
    decreases es, 0
  {
    if |es| > 0 {
      TotalWalkExpr(rw, es[0]);
      TotalWalkExprs(rw, es[1..]);
    }
  }

  lemma {:induction false} TotalWalkDecls(rw: Rewrite, ds: seq<Declarator>)
    requires Total(rw)
    ensures WalkDecls(rw, ds).Success? && |WalkDecls(rw, ds).value| == |ds|
    decreases ds, 0
  {
    if |ds| > 0 {
      TotalWalkDecl(rw, ds[0]);
      TotalWalkDecls(rw, ds[1..]);
    }
  }

  lemma {:induction false} TotalWalkDecl(rw: Rewrite, d: Declarator)
    requires Total(rw)
    ensures WalkDecl(rw, d).Success?
    decreases d, 1
  {
    TotalWalkExpr(rw, d.id);
    if d.init.Some? {
      TotalWalkExpr(rw, d.init.value);
    }
  }

  lemma {:induction false} TotalWalkStmt(rw: Rewrite, s: Stmt)
    requires Total(rw)
    ensures WalkStmt(rw, s).Success?
    decreases s, 1
  {
    match s
    case ExprStmt(e) => TotalWalkExpr(rw, e);
    case VarDecl(k, ds) => TotalWalkDecls(rw, ds);
    case Return(a) =>
      if a.Some? {
        TotalWalkExpr(rw, a.value);
      }
    case FuncDecl(f) => TotalWalkFunction(rw, f);
  }

  lemma {:induction false} TotalWalkStmts(rw: Rewrite, ss: seq<Stmt>)
    requires Total(rw)
    ensures WalkStmts(rw, ss).Success? && |WalkStmts(rw, ss).value| == |ss|
    decreases ss, 0
  {
    if |ss| > 0 {
      TotalWalkStmt(rw, ss[0]);
      TotalWalkStmts(rw, ss[1..]);
    }
  }

  lemma {:induction false} TotalWalkFunction(rw: Rewrite, f: Function)
    requires Total(rw)
    ensures WalkFunction(rw, f).Success?
    decreases f, 1
  {
    TotalWalkStmts(rw, f.body);
  }

  /** A walk that succeeds keeps the number of statements. */
  lemma {:induction false} WalkStmtsLength(rw: Rewrite, ss: seq<Stmt>)
    requires WalkStmts(rw, ss).Success?
    ensures |WalkStmts(rw, ss).value| == |ss|
    decreases ss
  {
    if |ss| > 0 {
      WalkStmtsLength(rw, ss[1..]);
    }
  }

  /** A walk that succeeds walks each statement on its own: the statement at `i`
      of the output is the walk of the statement at `i`. */
  lemma {:induction false} WalkStmtsAt(rw: Rewrite, ss: seq<Stmt>, i: nat)
    requires WalkStmts(rw, ss).Success? && i < |ss|
    ensures |WalkStmts(rw, ss).value| == |ss|
    ensures WalkStmt(rw, ss[i]).Success? && WalkStmts(rw, ss).value[i] == WalkStmt(rw, ss[i]).value
    decreases i
  {
    WalkStmtsLength(rw, ss);
    if i > 0 {
      WalkStmtsAt(rw, ss[1..], i - 1);
    }
  }

  /** A rewrite whose output is its own fixed point, and which keeps a body the
      walk leaves alone in a shape the walk leaves alone. */
  ghost predicate Settles(rw: Rewrite) {
    forall f {:trigger rw(f)} :: rw(f).Success? ==>
      && rw(rw(f).value) == rw(f)
      && (WalkStmts(rw, f.body) == Success(f.body) ==> WalkStmts(rw, rw(f).value.body) == Success(rw(f).value.body))
  }

  /** With such a rewrite the whole walk is idempotent: walking its output again
      changes nothing. */
  lemma {:induction false} SettledExpr(rw: Rewrite, e: Expr)
    requires Settles(rw)
    ensures WalkExpr(rw, e).Success? ==> WalkExpr(rw, WalkExpr(rw, e).value) == WalkExpr(rw, e)
    decreases e, 1
  {
    match e
    case Ident(_) =>
    case Num(_) =>
    case Str(_) =>
    case Bool(_) =>
    case Unary(op, a) => SettledExpr(rw, a);
    case Member(o, p) => SettledExpr(rw, o); SettledExpr(rw, p);
    case Assign(op, t, v) => SettledExpr(rw, t); SettledExpr(rw, v);
    case Sequence(items) => SettledExprs(rw, items);
    case Call(callee, args) => SettledExpr(rw, callee); SettledExprs(rw, args);
    case Binary(op, l, x) => SettledExpr(rw, l); SettledExpr(rw, x);
    case ArrayLit(elems) => SettledExprs(rw, elems);
    case FuncExpr(f) => SettledFunction(rw, f);
    case Declaration(k, ds) => SettledDecls(rw, ds);
  }

  lemma {:induction false} SettledExprs(rw: Rewrite, es: seq<Expr>)
    requires Settles(rw)
    ensures WalkExprs(rw, es).Success? ==> WalkExprs(rw, WalkExprs(rw, es).value) == WalkExprs(rw, es)
    decreases es, 0
  {
    if |es| > 0 && WalkExprs(rw, es).Success? {
      SettledExpr(rw, es[0]);
      SettledExprs(rw, es[1..]);
      var out := WalkExprs(rw, es).value;
      assert out[0] == WalkExpr(rw, es[0]).value;
      assert out[1..] == WalkExprs(rw, es[1..]).value;
    }
  }

  lemma {:induction false} SettledOption(rw: Rewrite, o: Option<Expr>)
    requires Settles(rw)
    ensures WalkOption(rw, o).Success? ==> WalkOption(rw, WalkOption(rw, o).value) == WalkOption(rw, o)
    decreases o, 1
  {
    if o.Some? {
      SettledExpr(rw, o.value);
    }
  }

  lemma {:induction false} SettledDecls(rw: Rewrite, ds: seq<Declarator>)
    requires Settles(rw)
    ensures WalkDecls(rw, ds).Success? ==> WalkDecls(rw, WalkDecls(rw, ds).value) == WalkDecls(rw, ds)
    decreases ds, 0
  {
    if |ds| > 0 && WalkDecls(rw, ds).Success? {
      SettledDecl(rw, ds[0]);
      SettledDecls(rw, ds[1..]);
      var out := WalkDecls(rw, ds).value;
      assert out[0] == WalkDecl(rw, ds[0]).value;
      assert out[1..] == WalkDecls(rw, ds[1..]).value;
    }
  }

  lemma {:induction false} SettledDecl(rw: Rewrite, d: Declarator)
    requires Settles(rw)
    ensures WalkDecl(rw, d).Success? ==> WalkDecl(rw, WalkDecl(rw, d).value) == WalkDecl(rw, d)
    decreases d, 1
  {
    SettledExpr(rw, d.id);
    SettledOption(rw, d.init);
  }

  lemma {:induction false} SettledStmt(rw: Rewrite, s: Stmt)
    requires Settles(rw)
    ensures WalkStmt(rw, s).Success? ==> WalkStmt(rw, WalkStmt(rw, s).value) == WalkStmt(rw, s)
    decreases s, 1
  {
    match s
    case ExprStmt(e) => SettledExpr(rw, e);
    case VarDecl(k, ds) => SettledDecls(rw, ds);
    case Return(a) => SettledOption(rw, a);
    case FuncDecl(f) => SettledFunction(rw, f);
  }

  lemma {:induction false} SettledStmts(rw: Rewrite, ss: seq<Stmt>)
    requires Settles(rw)
    ensures WalkStmts(rw, ss).Success? ==> WalkStmts(rw, WalkStmts(rw, ss).value) == WalkStmts(rw, ss)
    decreases ss, 0
  {
    if |ss| > 0 && WalkStmts(rw, ss).Success? {
      SettledStmt(rw, ss[0]);
      SettledStmts(rw, ss[1..]);
      var out := WalkStmts(rw, ss).value;
      assert out[0] == WalkStmt(rw, ss[0]).value;
      assert out[1..] == WalkStmts(rw, ss[1..]).value;
    }
  }

  lemma {:induction false} SettledFunction(rw: Rewrite, f: Function)
    requires Settles(rw)
    ensures WalkFunction(rw, f).Success? ==> WalkFunction(rw, WalkFunction(rw, f).value) == WalkFunction(rw, f)
    decreases f, 1
  {
    if WalkFunction(rw, f).Success? {
      SettledStmts(rw, f.body);
      var inner := Function(f.name, f.params, WalkStmts(rw, f.body).value);
      var g := rw(inner).value;
      assert WalkStmts(rw, inner.body) == Success(inner.body);
      assert WalkStmts(rw, g.body) == Success(g.body);
      assert Function(g.name, g.params, g.body) == g;
    }
  }
}
