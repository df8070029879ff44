/** The rest-parameter normaliser: `isLengthAssignment` (lib/index.js:151-161),
    the locals visitor of `createLocalsReplacementVisitor` (lib/index.js:163-216)
    and `simplifySpreadParameters` (lib/index.js:218-290). A function
    `f(...c) { c["length"] = N; ... }` becomes `f(param_0, ..., param_<N-1>)`;
    inside the rewritten region `c[i]` for an integer `0 <= i < N` becomes
    `param_i`, and every other literal index becomes `local_j`, numbered in the
    order the keys are first met. */
module RestParams {
  import opened Wrappers
  import opened JsStrings
  import opened Ast
  import Traverse

  /** `c["length"] = <number>` with any assignment operator (lib/index.js:151-161). */
  predicate IsLengthAssignment(e: Expr, rest: string) {
    e.Assign? && e.target.Member? && e.target.obj == Ident(rest)
    && e.target.prop == Str("length") && e.rhs.Num?
  }

  /** The rest parameter's name and the declared count `N`. A numeric literal may
      be any number, so `N` is a real. */
  datatype Capture = Capture(rest: string, count: real)

  function ParamName(i: nat): string {
    "param_" + Decimal(i)
  }

  function LocalName(j: nat): string {
    "local_" + Decimal(j)
  }

  /** What the locals visitor makes of `c[p]`, `p` already visited. */
  datatype Access = ParamAccess(index: nat) | LengthAccess | LocalAccess(key: Key) | OtherAccess

  /** The branches of lib/index.js:168-212, in their order. */
  function Classify(prop: Expr, count: real): Access {
    if prop.Num? && IsInteger(prop.value) && 0.0 <= prop.value < count then ParamAccess(prop.value.Floor)
    else if prop == Str("length") then LengthAccess
    else if prop.Num? then LocalAccess(NumKey(prop.value))
    else if prop.Unary? && prop.op == "-" && prop.arg.Num? then LocalAccess(NumKey(-prop.arg.value))
    else if prop.Str? then LocalAccess(StrKey(prop.text))
    else OtherAccess
  }

  predicate NoDup(keys: seq<Key>) {
    forall i, j :: 0 <= i < j < |keys| ==> keys[i] != keys[j]
  }

  /** The number `localsMap` gives `k`: its position among the keys met so far, or
      their count when `k` is new (`local_${localsMap.size}`). */
  function LocalIndex(keys: seq<Key>, k: Key): (j: nat)
    ensures j <= |keys|
    ensures j < |keys| ==> keys[j] == k
    ensures j == |keys| <==> k !in keys
    ensures forall i :: 0 <= i < j ==> keys[i] != k
    decreases |keys|
  {
    if |keys| == 0 then 0
    else if keys[0] == k then 0
    else
      var j := 1 + LocalIndex(keys[1..], k);
      assert k in keys ==> k in keys[1..] by {
        if k in keys {
          var i :| 0 <= i < |keys| && keys[i] == k;
          assert keys[1..][i - 1] == k;
        }
      }
      j
  }

  /** The keys after a `localsMap.set` for a missing key, or unchanged. */
  function Intern(keys: seq<Key>, k: Key): (r: seq<Key>)
    ensures keys <= r && k in r
    ensures NoDup(keys) ==> NoDup(r)
  {
    if k in keys then keys else keys + [k]
  }

  /** The locals map as the visitor holds it: a JavaScript `Map` from keys to the
      names already handed out, filled as the walk goes. */
  class LocalsMap {
    var names: map<Key, string>
    /** The keys in insertion order, which fixes their numbers. */
    ghost var keys: seq<Key>

    ghost predicate Valid()
      reads this
    {
      NoDup(keys) && |names| == |keys|
      && (forall k :: k in names <==> k in keys)
      && (forall i :: 0 <= i < |keys| ==> keys[i] in names && names[keys[i]] == LocalName(i))
    }

    constructor ()
      ensures Valid() && keys == []
    {
      names := map[];
      keys := [];
    }

    /** The name of `k`: the existing mapping if there is one, otherwise
        `local_<size>`, recorded for next time (lib/index.js:182-187). */
    method NameFor(k: Key) returns (name: string)
      requires Valid()
      modifies this
      ensures Valid()
      ensures keys == Intern(old(keys), k)
      ensures name == LocalName(LocalIndex(old(keys), k))
    {
      if k in names {
        ghost var j := LocalIndex(keys, k);
        assert keys[j] in names;
        name := names[k];
      } else {
        assert k !in keys;
        ghost var before, table := keys, names;
        name := LocalName(|names|);
        names := names[k := name];
        keys := keys + [k];
        forall i | 0 <= i < |keys|
          ensures keys[i] in names && names[keys[i]] == LocalName(i)
        {
          if i < |before| {
            assert keys[i] == before[i] != k;
            assert names[keys[i]] == table[before[i]];
          }
        }
      }
    }
  }

  /** A node after renaming, with the keys met so far. */
  datatype Renamed<T> = Renamed(node: T, keys: seq<Key>)

  /** `c[p]` once `obj` and `prop` have been visited (lib/index.js:166-213). */
  function RenameAccess(obj: Expr, prop: Expr, c: Capture, keys: seq<Key>): (r: Renamed<Expr>)
    ensures keys <= r.keys
    ensures NoDup(keys) ==> NoDup(r.keys)
  {
    if obj != Ident(c.rest) then Renamed(Member(obj, prop), keys)
    else match Classify(prop, c.count)
      case ParamAccess(i) => Renamed(Ident(ParamName(i)), keys)
      case LocalAccess(k) => Renamed(Ident(LocalName(LocalIndex(keys, k))), Intern(keys, k))
      case _ => Renamed(Member(obj, prop), keys)
  }

  /** The locals visitor over an expression: children first, left to right, then
      the node itself when it is a member access. */
  function RenameExpr(e: Expr, c: Capture, keys: seq<Key>): (r: Renamed<Expr>)
    ensures keys <= r.keys
    ensures NoDup(keys) ==> NoDup(r.keys)
    decreases e, 1
  {
    match e
    case Ident(_) => Renamed(e, keys)
    case Num(_) => Renamed(e, keys)
    case Str(_) => Renamed(e, keys)
    case Bool(_) => Renamed(e, keys)
    case Unary(op, a) =>
      var x := RenameExpr(a, c, keys);
      Renamed(Unary(op, x.node), x.keys)
    case Member(o, p) =>
      var x := RenameExpr(o, c, keys);
      var y := RenameExpr(p, c, x.keys);
      RenameAccess(x.node, y.node, c, y.keys)
    case Assign(op, t, v) =>
      var x := RenameExpr(t, c, keys);
      var y := RenameExpr(v, c, x.keys);
      Renamed(Assign(op, x.node, y.node), y.keys)
    case Sequence(items) =>
      var x := RenameExprs(items, c, keys);
      Renamed(Sequence(x.node), x.keys)
    case Call(callee, args) =>
      var x := RenameExpr(callee, c, keys);
      var y := RenameExprs(args, c, x.keys);
      Renamed(Call(x.node, y.node), y.keys)
    case Binary(op, l, v) =>
      var x := RenameExpr(l, c, keys);
      var y := RenameExpr(v, c, x.keys);
      Renamed(Binary(op, x.node, y.node), y.keys)
    case ArrayLit(elems) =>
      var x := RenameExprs(elems, c, keys);
      Renamed(ArrayLit(x.node), x.keys)
    case FuncExpr(f) =>
      var x := RenameStmts(f.body, c, keys);
      Renamed(FuncExpr(Function(f.name, f.params, x.node)), x.keys)
    case Declaration(k, ds) =>
      var x := RenameDecls(ds, c, keys);
      Renamed(Declaration(k, x.node), x.keys)
  }

  function RenameExprs(es: seq<Expr>, c: Capture, keys: seq<Key>): (r: Renamed<seq<Expr>>)
    ensures keys <= r.keys
    ensures NoDup(keys) ==> NoDup(r.keys)
    ensures |r.node| == |es|
    decreases es, 0
  {
    if |es| == 0 then Renamed([], keys)
    else
      var x := RenameExpr(es[0], c, keys);
      var y := RenameExprs(es[1..], c, x.keys);
      Renamed([x.node] + y.node, y.keys)
  }

  function RenameOption(o: Option<Expr>, c: Capture, keys: seq<Key>): (r: Renamed<Option<Expr>>)
    ensures keys <= r.keys
    ensures NoDup(keys) ==> NoDup(r.keys)
    decreases o, 1
  {
    match o
    case None => Renamed(None, keys)
    case Some(e) =>
      var x := RenameExpr(e, c, keys);
      Renamed(Some(x.node), x.keys)
  }

  function RenameDecl(d: Declarator, c: Capture, keys: seq<Key>): (r: Renamed<Declarator>)
    ensures keys <= r.keys
    ensures NoDup(keys) ==> NoDup(r.keys)
    decreases d, 1
  {
    var x := RenameExpr(d.id, c, keys);
    var y := RenameOption(d.init, c, x.keys);
    Renamed(Declarator(x.node, y.node), y.keys)
  }

  function RenameDecls(ds: seq<Declarator>, c: Capture, keys: seq<Key>): (r: Renamed<seq<Declarator>>)
    ensures keys <= r.keys
    ensures NoDup(keys) ==> NoDup(r.keys)
    decreases ds, 0
  {
    if |ds| == 0 then Renamed([], keys)
    else
      var x := RenameDecl(ds[0], c, keys);
      var y := RenameDecls(ds[1..], c, x.keys);
      Renamed([x.node] + y.node, y.keys)
  }

  function RenameStmt(s: Stmt, c: Capture, keys: seq<Key>): (r: Renamed<Stmt>)
    ensures keys <= r.keys
    ensures NoDup(keys) ==> NoDup(r.keys)
    decreases s, 1
  {
    match s
    case ExprStmt(e) =>
      var x := RenameExpr(e, c, keys);
      Renamed(ExprStmt(x.node), x.keys)
    case VarDecl(k, ds) =>
      var x := RenameDecls(ds, c, keys);
      Renamed(VarDecl(k, x.node), x.keys)
    case Return(a) =>
      var x := RenameOption(a, c, keys);
      Renamed(Return(x.node), x.keys)
    case FuncDecl(f) =>
      var x := RenameStmts(f.body, c, keys);
      Renamed(FuncDecl(Function(f.name, f.params, x.node)), x.keys)
  }

  function RenameStmts(ss: seq<Stmt>, c: Capture, keys: seq<Key>): (r: Renamed<seq<Stmt>>)
    ensures keys <= r.keys
    ensures NoDup(keys) ==> NoDup(r.keys)
    ensures |r.node| == |ss|
    decreases ss, 0
  {
    if |ss| == 0 then Renamed([], keys)
    else
      var x := RenameStmt(ss[0], c, keys);
      var y := RenameStmts(ss[1..], c, x.keys);
      Renamed([x.node] + y.node, y.keys)
  }

  /** How many times `for (let i = 0; i < N; i++)` runs: the least natural number
      not below `N`, or none for `N <= 0`. */
  function ParamCount(n: real): (k: nat)
    ensures n <= 0.0 ==> k == 0
    ensures n > 0.0 ==> (k - 1) as real < n <= k as real
  {
    if n <= 0.0 then 0 else -((-n).Floor)
  }

  /** `param_0, ..., param_<k-1>` as plain parameters. */
  function ParamNames(n: real): (ps: seq<Param>)
    ensures |ps| == ParamCount(n)
  {
    seq(ParamCount(n), i requires 0 <= i => Plain(ParamName(i)))
  }

  /** The parameter loop of lib/index.js:230-239: one plain `param_i` pushed for
      each `i < N`. */
  method PushParams(n: real) returns (params: seq<Param>)
    ensures params == ParamNames(n)
  {
    params := [];
    var i: nat := 0;
    while (i as real) < n
      invariant i <= ParamCount(n)
      invariant params == ParamNames(n)[..i]
      decreases ParamCount(n) - i
    {
      params := params + [Plain(ParamName(i))];
      i := i + 1;
    }
  }

  /** The three shapes of the length check (lib/index.js:225, 242-244, 262-266). */
  datatype Shape = AloneShape | SequenceShape | CallShape | NoShape

  function ShapeOf(f: Function): Shape {
    if !(|f.params| == 1 && f.params[0].Rest? && |f.body| > 0) then NoShape
    else
      var rest, first := f.params[0].name, f.body[0];
      if first.ExprStmt? && IsLengthAssignment(first.expr, rest) then AloneShape
      else if first.ExprStmt? && first.expr.Sequence? && |first.expr.items| > 0
        && IsLengthAssignment(first.expr.items[0], rest) then SequenceShape
      else if first.ExprStmt? && first.expr.Call? && first.expr.callee.Ident? && |first.expr.args| > 0
        && IsLengthAssignment(first.expr.args[0], rest) then CallShape
      else NoShape
  }

  /** The declared count `N`, read from the length check. */
  function CountOf(f: Function): real
    requires ShapeOf(f) != NoShape
  {
    match ShapeOf(f)
    case AloneShape => f.body[0].expr.rhs.value
    case SequenceShape => f.body[0].expr.items[0].rhs.value
    case CallShape => f.body[0].expr.args[0].rhs.value
  }

  /** `callee(a0, a1, ...)` as its first statement loses `a0`. */
  function DropFirstArgument(body: seq<Stmt>): seq<Stmt> {
    if |body| > 0 && body[0].ExprStmt? && body[0].expr.Call? && |body[0].expr.args| > 0 then
      [ExprStmt(Call(body[0].expr.callee, body[0].expr.args[1..]))] + body[1..]
    else body
  }

  /** The function visitor of `simplifySpreadParameters` on one function whose
      nested functions were already rewritten (lib/index.js:219-281). Each shape
      renames its own region with a fresh locals map:
      - alone: the length statement is removed, then the rest of the body is renamed;
      - in a sequence: the first element is removed, then only the remaining
        elements of that sequence are renamed;
      - in a call: the whole body is renamed, then the call loses its first argument. */
  function SimplifySpread(f: Function): Function {
    match ShapeOf(f)
    case NoShape => f
    case AloneShape =>
      var c := Capture(f.params[0].name, CountOf(f));
      Function(f.name, ParamNames(c.count), RenameStmts(f.body[1..], c, []).node)
    case SequenceShape =>
      var c := Capture(f.params[0].name, CountOf(f));
      var items := RenameExprs(f.body[0].expr.items[1..], c, []).node;
      Function(f.name, ParamNames(c.count), [ExprStmt(Sequence(items))] + f.body[1..])
    case CallShape =>
      var c := Capture(f.params[0].name, CountOf(f));
      Function(f.name, ParamNames(c.count), DropFirstArgument(RenameStmts(f.body, c, []).node))
  }

  /** The visitor as a rewrite the walk can apply; it never throws. */
  function SpreadRewrite(f: Function): Result<Function, string> {
    Success(SimplifySpread(f))
  }

  /** `simplifySpreadParameters` on a parsed program: every function, innermost
      first. */
  function SimplifySpreadParameters(p: Program): (r: Program)
    ensures |r| == |p|
  {
    Traverse.TotalWalkStmts(SpreadRewrite, p);
    Traverse.WalkStmts(SpreadRewrite, p).value
  }

  // ---------------------------------------------------------------------------
  // Properties

  /** What the pass does to a function declared at the top of the program: its
      body is walked first (the same pass on the body), then the function itself
      goes through the visitor. */
  lemma TopFunctionRewritten(p: Program, i: nat)
    requires i < |p| && p[i].FuncDecl?
    ensures SimplifySpreadParameters(p)[i] ==
      FuncDecl(SimplifySpread(Function(p[i].fn.name, p[i].fn.params, SimplifySpreadParameters(p[i].fn.body))))
  {
    Traverse.TotalWalkStmts(SpreadRewrite, p);
    Traverse.WalkStmtsAt(SpreadRewrite, p, i);
    Traverse.TotalWalkStmts(SpreadRewrite, p[i].fn.body);
  }

  /** Any other top-level statement is walked for the functions inside it. */
  lemma TopStatementWalked(p: Program, i: nat)
    requires i < |p|
    ensures Traverse.WalkStmt(SpreadRewrite, p[i]).Success?
    ensures SimplifySpreadParameters(p)[i] == Traverse.WalkStmt(SpreadRewrite, p[i]).value
  {
    Traverse.TotalWalkStmts(SpreadRewrite, p);
    Traverse.WalkStmtsAt(SpreadRewrite, p, i);
  }

  /** Generated names differ exactly when their numbers differ. */
  lemma NamesInjective(m: nat, n: nat)
    ensures ParamName(m) == ParamName(n) ==> m == n
    ensures LocalName(m) == LocalName(n) ==> m == n
    ensures ParamName(m) != LocalName(n)
  {
    if ParamName(m) == ParamName(n) {
      assert ParamName(m)[6..] == Decimal(m) && ParamName(n)[6..] == Decimal(n);
      DecimalInjective(m, n);
    }
    if LocalName(m) == LocalName(n) {
      assert LocalName(m)[6..] == Decimal(m) && LocalName(n)[6..] == Decimal(n);
      DecimalInjective(m, n);
    }
    assert ParamName(m)[0] == 'p' && LocalName(n)[0] == 'l';
  }

  /** After a match the parameters are `param_0 .. param_<k-1>`: plain names, no
      rest parameter, no two alike. */
  lemma ParamNamesPlain(n: real)
    ensures forall i :: 0 <= i < |ParamNames(n)| ==> ParamNames(n)[i] == Plain(ParamName(i))
    ensures forall i, j :: 0 <= i < j < |ParamNames(n)| ==> ParamNames(n)[i] != ParamNames(n)[j]
  {
    forall i, j | 0 <= i < j < |ParamNames(n)|
      ensures ParamNames(n)[i] != ParamNames(n)[j]
    {
      NamesInjective(i, j);
    }
  }

  /** A key met before keeps its number however many keys come after it, so every
      later access with the same key gets the same `local_j`. */
  lemma SameKeySameName(keys: seq<Key>, more: seq<Key>, k: Key)
    requires keys <= more && k in keys
    ensures LocalIndex(more, k) == LocalIndex(keys, k)
  {
    assert forall i :: 0 <= i < |keys| ==> more[i] == keys[i];
  }

  /** Different keys get different locals: the number 74, the string "74" and the
      number -74 are three keys, hence three names. */
  lemma DistinctKeysDistinctNames(keys: seq<Key>, k1: Key, k2: Key)
    requires k1 in keys && k2 in keys && k1 != k2
    ensures LocalName(LocalIndex(keys, k1)) != LocalName(LocalIndex(keys, k2))
  {
    NamesInjective(LocalIndex(keys, k1), LocalIndex(keys, k2));
  }

  /** What the visitor does to `c[p]` for a literal index `p`: an integer in
      `0 <= p < N` gives `param_p`; the string "length" is left alone; any other
      number, negated number or string becomes the local of that key, a new key
      taking the next number. */
  lemma LiteralAccess(c: Capture, prop: Expr, keys: seq<Key>)
    requires prop.Num? || prop.Str? || (prop.Unary? && prop.op == "-" && prop.arg.Num?)
    ensures var r := RenameExpr(Member(Ident(c.rest), prop), c, keys);
      && (prop.Num? && IsInteger(prop.value) && 0.0 <= prop.value < c.count
          ==> r == Renamed(Ident(ParamName(prop.value.Floor)), keys))
      && (prop.Num? && !(IsInteger(prop.value) && 0.0 <= prop.value < c.count)
          ==> r == Renamed(Ident(LocalName(LocalIndex(keys, NumKey(prop.value)))), Intern(keys, NumKey(prop.value))))
      && (prop.Unary?
          ==> r == Renamed(Ident(LocalName(LocalIndex(keys, NumKey(-prop.arg.value)))), Intern(keys, NumKey(-prop.arg.value))))
      && (prop == Str("length") ==> r == Renamed(Member(Ident(c.rest), prop), keys))
      && (prop.Str? && prop.text != "length"
          ==> r == Renamed(Ident(LocalName(LocalIndex(keys, StrKey(prop.text)))), Intern(keys, StrKey(prop.text))))
  {
    assert RenameExpr(Ident(c.rest), c, keys) == Renamed(Ident(c.rest), keys);
    if prop.Unary? {
      assert RenameExpr(prop.arg, c, keys) == Renamed(prop.arg, keys);
    }
    assert RenameExpr(prop, c, keys) == Renamed(prop, keys);
  }

  /** A function of none of the three shapes is left as it is. One that matches
      ends with exactly `N` rounded up plain parameters and no rest parameter, so
      it matches no more and a second run changes nothing. */
  lemma SpreadParams(f: Function)
    ensures ShapeOf(f) == NoShape ==> SimplifySpread(f) == f
    ensures ShapeOf(f) != NoShape ==> SimplifySpread(f).params == ParamNames(CountOf(f))
    ensures ShapeOf(f) != NoShape ==>
      forall i :: 0 <= i < |SimplifySpread(f).params| ==> SimplifySpread(f).params[i].Plain?
    ensures ShapeOf(SimplifySpread(f)) == NoShape
    ensures SimplifySpread(SimplifySpread(f)) == SimplifySpread(f)
  {
  }

  /** Where the length check goes: a statement of its own is removed; as the first
      element of a sequence, only that element is removed and the statements after
      it are not touched; as the first argument of a call, the call stays with one
      argument fewer. */
  lemma SpreadRemovesCheck(f: Function)
    ensures ShapeOf(f) == AloneShape ==> |SimplifySpread(f).body| == |f.body| - 1
    ensures ShapeOf(f) == SequenceShape ==>
      && |SimplifySpread(f).body| == |f.body|
      && SimplifySpread(f).body[1..] == f.body[1..]
      && SimplifySpread(f).body[0].ExprStmt? && SimplifySpread(f).body[0].expr.Sequence?
      && |SimplifySpread(f).body[0].expr.items| == |f.body[0].expr.items| - 1
    ensures ShapeOf(f) == CallShape ==>
      && |SimplifySpread(f).body| == |f.body|
      && SimplifySpread(f).body[0].ExprStmt? && SimplifySpread(f).body[0].expr.Call?
      && SimplifySpread(f).body[0].expr.callee == f.body[0].expr.callee
      && |SimplifySpread(f).body[0].expr.args| == |f.body[0].expr.args| - 1
  {
    if ShapeOf(f) == CallShape {
      var c := Capture(f.params[0].name, CountOf(f));
      var r := RenameStmts(f.body, c, []);
      var x := RenameStmt(f.body[0], c, []);
      assert r.node[0] == x.node;
      var call := f.body[0].expr;
      assert RenameExpr(call.callee, c, []) == Renamed(call.callee, []);
      assert RenameExpr(call, c, []).node == Call(call.callee, RenameExprs(call.args, c, []).node);
    }
  }

  lemma NameValues()
    ensures LocalName(0) == "local_0" && LocalName(1) == "local_1"
    ensures ParamName(0) == "param_0" && ParamName(1) == "param_1"
  {
    assert Decimal(0) == "0" && Decimal(1) == "1";
  }

  lemma NegativeKeyRenamed(c: Capture)
    requires c.rest == "B"
    ensures RenameExprs([Assign("=", Member(Ident("B"), Unary("-", Num(7.0))), Str(""))], c, []).node
      == [Assign("=", Ident("local_0"), Str(""))]
  {
    LiteralAccess(c, Unary("-", Num(7.0)), []);
    NameValues();
  }

  /** `B["length"] = 0, B[-7] = ""` as the first statement of `function (...B)`:
      the function loses its rest parameter and the statement keeps only
      `local_0 = ""` (test/cleanup.test.js:355-368). */
  lemma SequenceExample(rest: Stmt)
    ensures
      var f := Function("test", [Rest("B")], [ExprStmt(Sequence([
        Assign("=", Member(Ident("B"), Str("length")), Num(0.0)),
        Assign("=", Member(Ident("B"), Unary("-", Num(7.0))), Str(""))])), rest]);
      SimplifySpread(f)
        == Function("test", [], [ExprStmt(Sequence([Assign("=", Ident("local_0"), Str(""))])), rest])
  {
    var local := Assign("=", Member(Ident("B"), Unary("-", Num(7.0))), Str(""));
    var f := Function("test", [Rest("B")], [ExprStmt(Sequence([
      Assign("=", Member(Ident("B"), Str("length")), Num(0.0)), local])), rest]);
    assert f.body[0].expr.items[1..] == [local];
    NegativeKeyRenamed(Capture("B", 0.0));
  }

  /** A number index that is not a parameter and was not met before becomes the
      next local; one met before reuses its local. */
  lemma NumberIndexRenamed(c: Capture, v: real, keys: seq<Key>)
    requires !(IsInteger(v) && 0.0 <= v < c.count)
    ensures NumKey(v) !in keys ==>
      RenameExpr(Member(Ident(c.rest), Num(v)), c, keys) == Renamed(Ident(LocalName(|keys|)), keys + [NumKey(v)])
    ensures forall j :: 0 <= j < |keys| && keys[j] == NumKey(v) && NumKey(v) !in keys[..j] ==>
      RenameExpr(Member(Ident(c.rest), Num(v)), c, keys) == Renamed(Ident(LocalName(j)), keys)
  {
    LiteralAccess(c, Num(v), keys);
    forall j | 0 <= j < |keys| && keys[j] == NumKey(v) && NumKey(v) !in keys[..j]
      ensures LocalIndex(keys, NumKey(v)) == j
    {
      var i := LocalIndex(keys, NumKey(v));
      assert i <= j;
      assert forall t :: 0 <= t < j ==> keys[..j][t] == keys[t];
    }
  }

  /** An assignment is renamed target first, then value. */
  lemma AssignRenamed(op: string, t: Expr, v: Expr, c: Capture, keys: seq<Key>, x: Renamed<Expr>, y: Renamed<Expr>)
    requires x == RenameExpr(t, c, keys) && y == RenameExpr(v, c, x.keys)
    ensures RenameExpr(Assign(op, t, v), c, keys) == Renamed(Assign(op, x.node, y.node), y.keys)
  {
  }

  /** A call is renamed callee first, then its arguments. */
  lemma CallRenamed(callee: Expr, args: seq<Expr>, c: Capture, keys: seq<Key>, x: Renamed<Expr>, y: Renamed<seq<Expr>>)
    requires x == RenameExpr(callee, c, keys) && y == RenameExprs(args, c, x.keys)
    ensures RenameStmt(ExprStmt(Call(callee, args)), c, keys) == Renamed(ExprStmt(Call(x.node, y.node)), y.keys)
  {
  }

  /** A list is renamed head first, the tail continuing with the keys met. */
  lemma ExprsRenamed(es: seq<Expr>, c: Capture, keys: seq<Key>, x: Renamed<Expr>, y: Renamed<seq<Expr>>)
    requires |es| > 0 && x == RenameExpr(es[0], c, keys) && y == RenameExprs(es[1..], c, x.keys)
    ensures RenameExprs(es, c, keys) == Renamed([x.node] + y.node, y.keys)
  {
  }

  lemma StmtsRenamed(ss: seq<Stmt>, c: Capture, keys: seq<Key>, x: Renamed<Stmt>, y: Renamed<seq<Stmt>>)
    requires |ss| > 0 && x == RenameStmt(ss[0], c, keys) && y == RenameStmts(ss[1..], c, x.keys)
    ensures RenameStmts(ss, c, keys) == Renamed([x.node] + y.node, y.keys)
  {
  }

  lemma FirstLocalRenamed(c: Capture)
    requires c == Capture("D", 2.0)
    ensures RenameExpr(Assign("=", Member(Ident("D"), Num(74.0)), Member(Ident("D"), Num(1.0))), c, [])
      == Renamed(Assign("=", Ident(LocalName(0)), Ident(ParamName(1))), [NumKey(74.0)])
  {
    NumberIndexRenamed(c, 74.0, []);
    LiteralAccess(c, Num(1.0), [NumKey(74.0)]);
    AssignRenamed("=", Member(Ident("D"), Num(74.0)), Member(Ident("D"), Num(1.0)), c, [],
      Renamed(Ident(LocalName(0)), [NumKey(74.0)]), Renamed(Ident(ParamName(1)), [NumKey(74.0)]));
  }

  lemma StringIndexRenamed(c: Capture)
    requires c == Capture("D", 2.0)
    ensures RenameExpr(Member(Ident("D"), Str("b")), c, [NumKey(74.0)])
      == Renamed(Ident(LocalName(1)), [NumKey(74.0), StrKey("b")])
  {
    var k1 := [NumKey(74.0)];
    LiteralAccess(c, Str("b"), k1);
    assert LocalIndex(k1, StrKey("b")) == 1;
    assert Intern(k1, StrKey("b")) == [NumKey(74.0), StrKey("b")];
  }

  lemma NumberIndexReused(c: Capture)
    requires c == Capture("D", 2.0)
    ensures RenameExpr(Member(Ident("D"), Num(74.0)), c, [NumKey(74.0), StrKey("b")])
      == Renamed(Ident(LocalName(0)), [NumKey(74.0), StrKey("b")])
  {
    var k2 := [NumKey(74.0), StrKey("b")];
    assert k2[..0] == [];
    NumberIndexRenamed(c, 74.0, k2);
  }

  lemma SecondLocalRenamed(c: Capture)
    requires c == Capture("D", 2.0)
    ensures RenameExpr(Assign("=", Member(Ident("D"), Str("b")), Member(Ident("D"), Num(74.0))), c, [NumKey(74.0)])
      == Renamed(Assign("=", Ident(LocalName(1)), Ident(LocalName(0))), [NumKey(74.0), StrKey("b")])
  {
    var k2 := [NumKey(74.0), StrKey("b")];
    StringIndexRenamed(c);
    NumberIndexReused(c);
    AssignRenamed("=", Member(Ident("D"), Str("b")), Member(Ident("D"), Num(74.0)), c, [NumKey(74.0)],
      Renamed(Ident(LocalName(1)), k2), Renamed(Ident(LocalName(0)), k2));
  }

  lemma LengthCheckKept(c: Capture)
    requires c == Capture("D", 2.0)
    ensures RenameExpr(Assign("=", Member(Ident("D"), Str("length")), Num(2.0)), c, [])
      == Renamed(Assign("=", Member(Ident("D"), Str("length")), Num(2.0)), [])
  {
    LiteralAccess(c, Str("length"), []);
    AssignRenamed("=", Member(Ident("D"), Str("length")), Num(2.0), c, [],
      Renamed(Member(Ident("D"), Str("length")), []), Renamed(Num(2.0), []));
  }

  lemma LastArgumentRenamed(c: Capture)
    requires c == Capture("D", 2.0)
    ensures RenameExprs([Assign("=", Member(Ident("D"), Str("b")), Member(Ident("D"), Num(74.0)))], c, [NumKey(74.0)])
      == Renamed([Assign("=", Ident(LocalName(1)), Ident(LocalName(0)))], [NumKey(74.0), StrKey("b")])
  {
    var a2 := Assign("=", Member(Ident("D"), Str("b")), Member(Ident("D"), Num(74.0)));
    var r2 := Assign("=", Ident(LocalName(1)), Ident(LocalName(0)));
    var k2 := [NumKey(74.0), StrKey("b")];
    SecondLocalRenamed(c);
    assert [a2][1..] == [];
    ExprsRenamed([a2], c, [NumKey(74.0)], Renamed(r2, k2), Renamed([], k2));
    assert [r2] + [] == [r2];
  }

  lemma LastArgumentsRenamed(c: Capture)
    requires c == Capture("D", 2.0)
    ensures RenameExprs([
        Assign("=", Member(Ident("D"), Num(74.0)), Member(Ident("D"), Num(1.0))),
        Assign("=", Member(Ident("D"), Str("b")), Member(Ident("D"), Num(74.0)))], c, [])
      == Renamed([
        Assign("=", Ident(LocalName(0)), Ident(ParamName(1))),
        Assign("=", Ident(LocalName(1)), Ident(LocalName(0)))], [NumKey(74.0), StrKey("b")])
  {
    var a1 := Assign("=", Member(Ident("D"), Num(74.0)), Member(Ident("D"), Num(1.0)));
    var a2 := Assign("=", Member(Ident("D"), Str("b")), Member(Ident("D"), Num(74.0)));
    var r1 := Assign("=", Ident(LocalName(0)), Ident(ParamName(1)));
    var r2 := Assign("=", Ident(LocalName(1)), Ident(LocalName(0)));
    FirstLocalRenamed(c);
    LastArgumentRenamed(c);
    assert [a1, a2][1..] == [a2];
    ExprsRenamed([a1, a2], c, [], Renamed(r1, [NumKey(74.0)]), Renamed([r2], [NumKey(74.0), StrKey("b")]));
    assert [r1] + [r2] == [r1, r2];
  }

  /** The call `var_65(D["length"] = 2, D[74] = D[1], D["b"] = D[74])` with its
      arguments renamed. */
  lemma CallArgumentsRenamed(c: Capture)
    requires c == Capture("D", 2.0)
    ensures
      RenameExprs([
        Assign("=", Member(Ident("D"), Str("length")), Num(2.0)),
        Assign("=", Member(Ident("D"), Num(74.0)), Member(Ident("D"), Num(1.0))),
        Assign("=", Member(Ident("D"), Str("b")), Member(Ident("D"), Num(74.0)))], c, [])
      == Renamed([
        Assign("=", Member(Ident("D"), Str("length")), Num(2.0)),
        Assign("=", Ident(LocalName(0)), Ident(ParamName(1))),
        Assign("=", Ident(LocalName(1)), Ident(LocalName(0)))], [NumKey(74.0), StrKey("b")])
  {
    var a0 := Assign("=", Member(Ident("D"), Str("length")), Num(2.0));
    var a1 := Assign("=", Member(Ident("D"), Num(74.0)), Member(Ident("D"), Num(1.0)));
    var a2 := Assign("=", Member(Ident("D"), Str("b")), Member(Ident("D"), Num(74.0)));
    var r1 := Assign("=", Ident(LocalName(0)), Ident(ParamName(1)));
    var r2 := Assign("=", Ident(LocalName(1)), Ident(LocalName(0)));
    LengthCheckKept(c);
    LastArgumentsRenamed(c);
    assert [a0, a1, a2][1..] == [a1, a2];
    ExprsRenamed([a0, a1, a2], c, [], Renamed(a0, []), Renamed([r1, r2], [NumKey(74.0), StrKey("b")]));
    assert [a0] + [r1, r2] == [a0, r1, r2];
  }

  lemma ReturnRenamed(c: Capture)
    requires c == Capture("D", 2.0)
    ensures RenameStmts([Return(Some(Member(Ident("D"), Str("b"))))], c, [NumKey(74.0), StrKey("b")])
      == Renamed([Return(Some(Ident(LocalName(1))))], [NumKey(74.0), StrKey("b")])
  {
    var k2 := [NumKey(74.0), StrKey("b")];
    var ret := Return(Some(Member(Ident("D"), Str("b"))));
    var renamedRet := Return(Some(Ident(LocalName(1))));
    assert RenameExpr(Member(Ident("D"), Str("b")), c, k2) == Renamed(Ident(LocalName(1)), k2) by {
      LiteralAccess(c, Str("b"), k2);
      assert LocalIndex(k2, StrKey("b")) == 1;
    }
    assert RenameStmt(ret, c, k2) == Renamed(renamedRet, k2);
    assert [ret][1..] == [];
    StmtsRenamed([ret], c, k2, Renamed(renamedRet, k2), Renamed([], k2));
    assert [renamedRet] + [] == [renamedRet];
  }

  lemma CallBodyRenamed(c: Capture)
    requires c == Capture("D", 2.0)
    ensures
      RenameStmts([
        ExprStmt(Call(Ident("var_65"), [
          Assign("=", Member(Ident("D"), Str("length")), Num(2.0)),
          Assign("=", Member(Ident("D"), Num(74.0)), Member(Ident("D"), Num(1.0))),
          Assign("=", Member(Ident("D"), Str("b")), Member(Ident("D"), Num(74.0)))])),
        Return(Some(Member(Ident("D"), Str("b"))))], c, [])
      == Renamed([
        ExprStmt(Call(Ident("var_65"), [
          Assign("=", Member(Ident("D"), Str("length")), Num(2.0)),
          Assign("=", Ident(LocalName(0)), Ident(ParamName(1))),
          Assign("=", Ident(LocalName(1)), Ident(LocalName(0)))])),
        Return(Some(Ident(LocalName(1))))], [NumKey(74.0), StrKey("b")])
  {
    var args := [
      Assign("=", Member(Ident("D"), Str("length")), Num(2.0)),
      Assign("=", Member(Ident("D"), Num(74.0)), Member(Ident("D"), Num(1.0))),
      Assign("=", Member(Ident("D"), Str("b")), Member(Ident("D"), Num(74.0)))];
    var renamedArgs := [
      Assign("=", Member(Ident("D"), Str("length")), Num(2.0)),
      Assign("=", Ident(LocalName(0)), Ident(ParamName(1))),
      Assign("=", Ident(LocalName(1)), Ident(LocalName(0)))];
    var k2 := [NumKey(74.0), StrKey("b")];
    var ret := Return(Some(Member(Ident("D"), Str("b"))));
    var call := ExprStmt(Call(Ident("var_65"), args));
    var renamedCall := ExprStmt(Call(Ident("var_65"), renamedArgs));
    var renamedRet := Return(Some(Ident(LocalName(1))));
    CallArgumentsRenamed(c);
    ReturnRenamed(c);
    CallRenamed(Ident("var_65"), args, c, [], Renamed(Ident("var_65"), []), Renamed(renamedArgs, k2));
    assert [call, ret][1..] == [ret];
    StmtsRenamed([call, ret], c, [], Renamed(renamedCall, k2), Renamed([renamedRet], k2));
    assert [renamedCall] + [renamedRet] == [renamedCall, renamedRet];
  }

  lemma TwoParams()
    ensures ParamNames(2.0) == [Plain(ParamName(0)), Plain(ParamName(1))]
  {
    assert ParamCount(2.0) == 2;
  }

  /** Two parameters inside a call, as in test/cleanup.test.js:399-418: `D[1]`
      becomes `param_1`, the number 74 and the string "b" become `local_0` and
      `local_1`, and a later `D[74]` reuses `local_0`. */
  lemma CallExample()
    ensures
      var f := Function("var_63", [Rest("D")], [
        ExprStmt(Call(Ident("var_65"), [
          Assign("=", Member(Ident("D"), Str("length")), Num(2.0)),
          Assign("=", Member(Ident("D"), Num(74.0)), Member(Ident("D"), Num(1.0))),
          Assign("=", Member(Ident("D"), Str("b")), Member(Ident("D"), Num(74.0)))])),
        Return(Some(Member(Ident("D"), Str("b"))))]);
      SimplifySpread(f) == Function("var_63", [Plain(ParamName(0)), Plain(ParamName(1))], [
        ExprStmt(Call(Ident("var_65"), [
          Assign("=", Ident(LocalName(0)), Ident(ParamName(1))),
          Assign("=", Ident(LocalName(1)), Ident(LocalName(0)))])),
        Return(Some(Ident(LocalName(1))))])
  {
    var c := Capture("D", 2.0);
    var args := [
      Assign("=", Member(Ident("D"), Str("length")), Num(2.0)),
      Assign("=", Member(Ident("D"), Num(74.0)), Member(Ident("D"), Num(1.0))),
      Assign("=", Member(Ident("D"), Str("b")), Member(Ident("D"), Num(74.0)))];
    var renamedArgs := [
      Assign("=", Member(Ident("D"), Str("length")), Num(2.0)),
      Assign("=", Ident(LocalName(0)), Ident(ParamName(1))),
      Assign("=", Ident(LocalName(1)), Ident(LocalName(0)))];
    var ret := Return(Some(Member(Ident("D"), Str("b"))));
    var renamedRet := Return(Some(Ident(LocalName(1))));
    var f := Function("var_63", [Rest("D")], [ExprStmt(Call(Ident("var_65"), args)), ret]);
    var body := [ExprStmt(Call(Ident("var_65"), renamedArgs)), renamedRet];
    assert ShapeOf(f) == CallShape && CountOf(f) == 2.0 by {
      assert IsLengthAssignment(args[0], "D");
    }
    CallBodyRenamed(c);
    TwoParams();
    assert DropFirstArgument(body) == [ExprStmt(Call(Ident("var_65"), renamedArgs[1..])), renamedRet] by {
      assert body[1..] == [renamedRet];
    }
    assert renamedArgs[1..] == [Assign("=", Ident(LocalName(0)), Ident(ParamName(1))),
      Assign("=", Ident(LocalName(1)), Ident(LocalName(0)))];
  }
}
