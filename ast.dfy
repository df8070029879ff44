/** The syntax tree the rewrite passes inspect: only the node kinds the passes look
    at. A tree is a value; where the JavaScript code replaces a node in place, the
    model returns the rebuilt tree. */
module Ast {
  import opened Wrappers

  /** A numeric literal holds a JavaScript number. Literals in source text are never
      negative (a minus sign is a unary operator) and never NaN, so a `real` holds
      every value a literal can have; `-0` and `0` are the same real, as they are the
      same key in a JavaScript `Map`. */
  datatype Expr =
    | Ident(name: string)
    | Num(value: real)
    | Str(text: string)
    | Bool(truth: bool)
    | Unary(op: string, arg: Expr)
    /** `obj[prop]`; a dotted access `obj.x` has the identifier `x` as its property */
    | Member(obj: Expr, prop: Expr)
    /** `target op value`, with `op` one of `=`, `+=`, `|=`, ... */
    | Assign(op: string, target: Expr, rhs: Expr)
    | Sequence(items: seq<Expr>)
    | Call(callee: Expr, args: seq<Expr>)
    | Binary(op: string, left: Expr, right: Expr)
    | ArrayLit(elems: seq<Expr>)
    | FuncExpr(fn: Function)
    /** A variable declaration standing where an expression belongs. The parser never
        builds one; the decode-block rewrite does, and the printer then writes the
        declaration followed by an empty statement. */
    | Declaration(kind: DeclKind, decls: seq<Declarator>)

  datatype DeclKind = Var | Let | Const

  datatype Declarator = Declarator(id: Expr, init: Option<Expr>)

  datatype Stmt =
    | ExprStmt(expr: Expr)
    | VarDecl(kind: DeclKind, decls: seq<Declarator>)
    | Return(arg: Option<Expr>)
    | FuncDecl(fn: Function)

  /** A parameter is a plain name or a rest capture `...name`. */
  datatype Param = Plain(name: string) | Rest(name: string)

  /** A function declaration, function expression or class method. */
  datatype Function = Function(name: string, params: seq<Param>, body: seq<Stmt>)

  /** A JavaScript value used as a `Map` key: a number, a string, or `undefined` (the
      `value` of a node that has none, such as an identifier). Keys are compared as
      `Map` compares them, so the number 1 and the string "1" are different keys. */
  datatype Key = NumKey(num: real) | StrKey(str: string) | NoKey

  /** A parsed program: its top-level statements. */
  type Program = seq<Stmt>
}
