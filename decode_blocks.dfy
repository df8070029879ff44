/** `simplifyDecoding` (lib/index.js:292-400): a function whose body opens with an
    inline copy of the decode routine is cut down to one call of `decodeHelper`
    followed by the function's last statement. Two openings are recognised:

    - a declaration whose first declarator initialises a variable with the
      alphabet (lib/index.js:317-352); the decoded bytes go to the variable the
      final `return f(x)` passes on, and the seed is the first parameter;
    - a call `g(x = "<alphabet>", ...)` (lib/index.js:354-390); the names are then
      fixed: `local_3` and `param_0`, the ones the rest-parameter pass produces.

    An alphabet is recognised by its length alone: 91, 98 or 101 characters. */
module DecodeBlocks {
  import opened Wrappers
  import opened Ast
  import Traverse
  import Decode

  /** The alphabet lengths the recogniser accepts (lib/index.js:297, 307). */
  predicate IsCodeLength(n: nat) {
    n == 91 || n == 98 || n == 101
  }

  /** `x = "<alphabet>"` with any assignment operator (lib/index.js:292-299). */
  predicate IsCodeStringAssignment(e: Expr) {
    e.Assign? && e.target.Ident? && e.rhs.Str? && IsCodeLength(|e.rhs.text|)
  }

  /** `x = "<alphabet>"` as a declarator (lib/index.js:301-309). */
  predicate IsCodeStringInit(d: Declarator) {
    d.id.Ident? && d.init.Some? && d.init.value.Str? && IsCodeLength(|d.init.value.text|)
  }

  /** `const local = decodeHelper("<alphabet>", param);`, the statement both shapes
      put first (lib/index.js:331-350, 368-388). */
  function HelperDecl(local: string, alphabet: string, param: string): Stmt {
    ExprStmt(Declaration(Const, [
      Declarator(Ident(local), Some(Call(Ident("decodeHelper"), [Str(alphabet), Ident(param)])))]))
  }

  /** A statement of the form `HelperDecl` builds. */
  predicate IsHelperDecl(s: Stmt) {
    && s.ExprStmt? && s.expr.Declaration? && s.expr.kind == Const && |s.expr.decls| == 1
    && s.expr.decls[0].id.Ident? && s.expr.decls[0].init.Some?
    && s.expr.decls[0].init.value.Call? && s.expr.decls[0].init.value.callee == Ident("decodeHelper")
    && |s.expr.decls[0].init.value.args| == 2
    && s.expr.decls[0].init.value.args[0].Str? && s.expr.decls[0].init.value.args[1].Ident?
  }

  /** The alphabet a decode call passes. */
  function HelperAlphabet(s: Stmt): string
    requires IsHelperDecl(s)
  {
    s.expr.decls[0].init.value.args[0].text
  }

  /** The `name` of a node as the rewrite reads it: an identifier's name, and for
      any other node (a literal, a call, a rest parameter) the missing value, which
      the identifier built from it carries as the text `undefined`. */
  const Undefined: string := "undefined"

  function NameOf(e: Expr): (r: string)
    ensures e.Ident? ==> r == e.name
    ensures !e.Ident? ==> r == Undefined
  {
    if e.Ident? then e.name else Undefined
  }

  function ParamNameOf(p: Param): (r: string)
    ensures p.Plain? ==> r == p.name
    ensures p.Rest? ==> r == Undefined
  {
    if p.Plain? then p.name else Undefined
  }

  /** `return f(x, ...)`: a returned call with at least one argument. */
  predicate ReturnsCallWithArgs(s: Stmt) {
    s.Return? && s.arg.Some? && s.arg.value.Call? && |s.arg.value.args| > 0
  }

  /** The declaration shape (lib/index.js:317-352). A first declaration without a
      declarator, a last statement that is not `return f(x, ...)`, and a function
      without parameters are where the source reads a property of `undefined`;
      they fail. A first argument or first parameter that is not a plain name has
      no `name`, and the identifier built from it is named `undefined`. */
  function RewriteInit(f: Function): Result<Function, string> {
    if !(|f.body| > 0 && f.body[0].VarDecl?) then Success(f)
    else if |f.body[0].decls| == 0 then Failure("declarations[0] is undefined")
    else if !IsCodeStringInit(f.body[0].decls[0]) then Success(f)
    else
      var last := f.body[|f.body| - 1];
      if !ReturnsCallWithArgs(last) then Failure("the last statement does not return a call with arguments")
      else if |f.params| == 0 then Failure("params[0] is undefined")
      else
        var local := NameOf(last.arg.value.args[0]);
        var alphabet := f.body[0].decls[0].init.value.text;
        Success(Function(f.name, f.params, [HelperDecl(local, alphabet, ParamNameOf(f.params[0])), last]))
  }

  /** The call shape (lib/index.js:354-390): the call must name its callee and its
      first argument must assign the alphabet to a name. */
  predicate OpensWithCodeCall(f: Function) {
    && |f.body| > 0 && f.body[0].ExprStmt? && f.body[0].expr.Call? && f.body[0].expr.callee.Ident?
    && |f.body[0].expr.args| > 0 && IsCodeStringAssignment(f.body[0].expr.args[0])
  }

  function RewriteCall(f: Function): Function {
    if OpensWithCodeCall(f) then
      var alphabet := f.body[0].expr.args[0].rhs.text;
      Function(f.name, f.params, [HelperDecl("local_3", alphabet, "param_0"), f.body[|f.body| - 1]])
    else f
  }

  /** The function visitor (lib/index.js:312-391): nothing for an empty body, else
      the declaration shape and then the call shape on what it left. */
  function SimplifyBlock(f: Function): (r: Result<Function, string>)
    ensures r.Success? ==> r.value.name == f.name && r.value.params == f.params
    ensures r.Success? && r.value != f ==>
      && |f.body| > 0 && |r.value.body| == 2 && r.value.body[1] == f.body[|f.body| - 1]
      && IsHelperDecl(r.value.body[0]) && IsCodeLength(|HelperAlphabet(r.value.body[0])|)
    ensures r.Failure? <==>
      && |f.body| > 0 && f.body[0].VarDecl?
      && (|f.body[0].decls| == 0
          || (IsCodeStringInit(f.body[0].decls[0]) && (!ReturnsCallWithArgs(f.body[|f.body| - 1]) || |f.params| == 0)))
  {
    if |f.body| == 0 then Success(f)
    else
      var a := RewriteInit(f);
      if a.Failure? then a else Success(RewriteCall(a.value))
  }

  /** `simplifyDecoding` on a parsed program: every function, innermost first; the
      first failure ends the run. */
  function SimplifyDecoding(p: Program): Result<Program, string> {
    Traverse.WalkStmts(SimplifyBlock, p)
  }

  // ---------------------------------------------------------------------------
  // Properties

  /** Every alphabet the rewrite passes on fits the decoder's bound, so the
      `decodeHelper` call it emits meets `Decode.DecodeHelper`'s requirement. */
  lemma AlphabetFitsDecoder(f: Function)
    ensures SimplifyBlock(f).Success? && SimplifyBlock(f).value != f ==>
      |HelperAlphabet(SimplifyBlock(f).value.body[0])| <= Decode.MaxAlphabet
  {
  }

  /** A function whose body opens with neither shape is left alone; an empty body
      in particular. */
  lemma UnrecognisedUnchanged(f: Function)
    requires !(|f.body| > 0 && f.body[0].VarDecl? && |f.body[0].decls| > 0 && IsCodeStringInit(f.body[0].decls[0]))
    requires !(|f.body| > 0 && f.body[0].VarDecl? && |f.body[0].decls| == 0)
    requires !OpensWithCodeCall(f)
    ensures SimplifyBlock(f) == Success(f)
  {
  }

  /** The declaration shape with a well-formed ending: the alphabet is the
      declared string, the local is named after the first argument of the
      returned call and the seed after the first parameter (`undefined` where
      either is not a plain name). */
  lemma InitShapeRewritten(f: Function)
    requires |f.body| > 0 && f.body[0].VarDecl? && |f.body[0].decls| > 0 && IsCodeStringInit(f.body[0].decls[0])
    requires ReturnsCallWithArgs(f.body[|f.body| - 1]) && |f.params| > 0
    ensures SimplifyBlock(f) == Success(Function(f.name, f.params,
      [HelperDecl(NameOf(f.body[|f.body| - 1].arg.value.args[0]), f.body[0].decls[0].init.value.text,
        ParamNameOf(f.params[0])), f.body[|f.body| - 1]]))
  {
    var g := RewriteInit(f).value;
    assert !OpensWithCodeCall(g);
  }

  /** A rest first parameter and a returned literal have no name: the rewrite
      still goes through, with `undefined` standing for both names. */
  lemma UnnamedBecomeUndefined(f: Function, arg: Expr, p: Param)
    requires |f.body| > 0 && f.body[0].VarDecl? && |f.body[0].decls| > 0 && IsCodeStringInit(f.body[0].decls[0])
    requires ReturnsCallWithArgs(f.body[|f.body| - 1])
    requires arg == f.body[|f.body| - 1].arg.value.args[0] && arg.Str?
    requires |f.params| > 0 && p == f.params[0] && p.Rest?
    ensures SimplifyBlock(f).Success?
    ensures SimplifyBlock(f).value.body[0] == HelperDecl(Undefined, f.body[0].decls[0].init.value.text, Undefined)
  {
    InitShapeRewritten(f);
  }

  /** The call shape (the declaration shape cannot apply to it): the names are
      fixed whatever the function's own parameter is. */
  lemma CallShapeRewritten(f: Function)
    requires OpensWithCodeCall(f)
    ensures SimplifyBlock(f) == Success(Function(f.name, f.params,
      [HelperDecl("local_3", f.body[0].expr.args[0].rhs.text, "param_0"), f.body[|f.body| - 1]]))
  {
  }

  /** A rewritten function is not rewritten again. */
  lemma BlockIdempotent(f: Function)
    ensures SimplifyBlock(f).Success? ==> SimplifyBlock(SimplifyBlock(f).value) == SimplifyBlock(f)
  {
    if SimplifyBlock(f).Success? && SimplifyBlock(f).value != f {
      var g := SimplifyBlock(f).value;
      assert g.body[0].ExprStmt? && g.body[0].expr.Declaration?;
      UnrecognisedUnchanged(g);
    }
  }

  /** The statement the rewrite builds holds no function, so the walk leaves it. */
  lemma HelperDeclWalked(rw: Traverse.Rewrite, s: Stmt)
    requires IsHelperDecl(s)
    ensures Traverse.WalkStmt(rw, s) == Success(s)
  {
    var d := s.expr.decls[0];
    var call := d.init.value;
    var tail := call.args[1..];
    assert tail[1..] == [] && [tail[0]] + [] == tail;
    assert Traverse.WalkExprs(rw, tail) == Success(tail);
    assert [call.args[0]] + tail == call.args;
    assert Traverse.WalkExprs(rw, call.args) == Success(call.args);
    assert Traverse.WalkExpr(rw, call) == Success(call);
    assert Traverse.WalkDecl(rw, d) == Success(d);
    assert s.expr.decls[1..] == [] && [d] + [] == s.expr.decls;
    assert Traverse.WalkDecls(rw, s.expr.decls) == Success(s.expr.decls);
  }

  /** A statement list the walk leaves alone has each statement left alone. */
  lemma {:induction false} WalkedLast(rw: Traverse.Rewrite, ss: seq<Stmt>)
    requires |ss| > 0 && Traverse.WalkStmts(rw, ss) == Success(ss)
    ensures Traverse.WalkStmt(rw, ss[|ss| - 1]) == Success(ss[|ss| - 1])
    decreases |ss|
  {
    if |ss| > 1 {
      assert Traverse.WalkStmts(rw, ss[1..]) == Success(ss[1..]);
      WalkedLast(rw, ss[1..]);
    }
  }

  lemma SimplifyBlockSettles()
    ensures Traverse.Settles(SimplifyBlock)
  {
    forall f | SimplifyBlock(f).Success?
      ensures SimplifyBlock(SimplifyBlock(f).value) == SimplifyBlock(f)
      ensures Traverse.WalkStmts(SimplifyBlock, f.body) == Success(f.body) ==>
        Traverse.WalkStmts(SimplifyBlock, SimplifyBlock(f).value.body) == Success(SimplifyBlock(f).value.body)
    {
      BlockIdempotent(f);
      var g := SimplifyBlock(f).value;
      if g != f && Traverse.WalkStmts(SimplifyBlock, f.body) == Success(f.body) {
        HelperDeclWalked(SimplifyBlock, g.body[0]);
        WalkedLast(SimplifyBlock, f.body);
        var rest := g.body[1..];
        assert rest == [g.body[1]] && rest[1..] == [] && [rest[0]] + [] == rest;
        assert Traverse.WalkStmts(SimplifyBlock, rest) == Success(rest);
        assert [g.body[0]] + rest == g.body;
      }
    }
  }

  /** Running the pass on its own output changes nothing. */
  lemma SimplifyDecodingIdempotent(p: Program)
    ensures SimplifyDecoding(p).Success? ==> SimplifyDecoding(SimplifyDecoding(p).value) == SimplifyDecoding(p)
  {
    SimplifyBlockSettles();
    Traverse.SettledStmts(SimplifyBlock, p);
  }

  /** The declaration shape of test/cleanup.test.js:169-202: `function __Array(__Array)`
      declaring the alphabet and returning `dkJAw8(__Buffer)` becomes the decode
      call into `__Buffer` seeded with `__Array`, followed by that return. */
  lemma InitExample(alphabet: string, moreDecls: seq<Declarator>, middle: seq<Stmt>)
    requires |alphabet| == 91
    ensures
      var ret := Return(Some(Call(Ident("dkJAw8"), [Ident("__Buffer")])));
      var f := Function("__Array", [Plain("__Array")],
        [VarDecl(Var, [Declarator(Ident("utf8ArrayToStr"), Some(Str(alphabet)))] + moreDecls)] + middle + [ret]);
      SimplifyBlock(f) == Success(Function("__Array", [Plain("__Array")],
        [HelperDecl("__Buffer", alphabet, "__Array"), ret]))
  {
    var ret := Return(Some(Call(Ident("dkJAw8"), [Ident("__Buffer")])));
    var first := VarDecl(Var, [Declarator(Ident("utf8ArrayToStr"), Some(Str(alphabet)))] + moreDecls);
    var f := Function("__Array", [Plain("__Array")], [first] + middle + [ret]);
    assert f.body[0] == first && f.body[|f.body| - 1] == ret;
    InitShapeRewritten(f);
  }

  /** The call shape of test/cleanup.test.js:203-242: `var_65(local_0 = "<alphabet>", ...)`
      opening `function __Buffer(param_0)` becomes the decode call into `local_3`. */
  lemma CallExample(alphabet: string, moreArgs: seq<Expr>, middle: seq<Stmt>, ret: Stmt)
    requires |alphabet| == 98
    ensures
      var f := Function("__Buffer", [Plain("param_0")],
        [ExprStmt(Call(Ident("var_65"), [Assign("=", Ident("local_0"), Str(alphabet))] + moreArgs))] + middle + [ret]);
      SimplifyBlock(f) == Success(Function("__Buffer", [Plain("param_0")],
        [HelperDecl("local_3", alphabet, "param_0"), ret]))
  {
    var first := ExprStmt(Call(Ident("var_65"), [Assign("=", Ident("local_0"), Str(alphabet))] + moreArgs));
    var f := Function("__Buffer", [Plain("param_0")], [first] + middle + [ret]);
    assert f.body[0] == first && f.body[|f.body| - 1] == ret;
    CallShapeRewritten(f);
  }
}
