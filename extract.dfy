/** The extractors that read values out of parsed code: `parseParameters`
    (lib/index.js:96-100), `extractArrayValues` (lib/index.js:117-127) and
    `extractArrayName` (lib/index.js:458-463). Each takes the tree the parser
    would build; where the source reads a property of `undefined` on a tree of
    an unexpected shape, the model fails. */
module Extract {
  import opened Wrappers
  import opened Ast
  import Escaping
  import TextPasses

  // ---------------------------------------------------------------------------
  // parseParameters

  datatype PropKind = Get | Set | Init

  /** What a member's body opens with, as `print(p.body.body[0].argument)` reads it:
      no statement at all; a first statement with an argument (`return <expression>`
      or `throw <expression>`), given by the printed text of that argument; or a
      first statement without one (a bare `return;`, or a statement of any other
      kind), whose missing argument prints as the empty text. */
  datatype Opening = EmptyBody | Argument(printed: string) | NoArgument

  /** A member of the parameters object literal: its kind, its key and what its body
      opens with. */
  datatype Property = Property(kind: PropKind, key: Key, opening: Opening)
  {
    /** The text the Map takes from this member, or `None` when reading it throws
        (`body.body[0]` is `undefined` in an empty body). */
    function Printed(): (r: Option<string>)
      ensures r.None? <==> opening.EmptyBody?
      ensures opening.NoArgument? ==> r == Some("")
      ensures opening.Argument? ==> r == Some(opening.printed)
    {
      match opening
      case EmptyBody => None
      case Argument(t) => Some(t)
      case NoArgument => Some("")
    }
  }

  /** A JavaScript `Map` from keys to values, as its entries in insertion order. */
  type Entries = TextPasses.Entries

  predicate DistinctKeys(m: Entries) {
    forall i, j :: 0 <= i < j < |m| ==> m[i].0 != m[j].0
  }

  /** `map.get(k)`. */
  function Lookup(m: Entries, k: Key): Option<string> {
    if |m| == 0 then None
    else if m[0].0 == k then Some(m[0].1)
    else Lookup(m[1..], k)
  }

  /** `map.set(k, v)`: a present key keeps its place and takes the new value; a new
      key goes last. */
  function Put(m: Entries, k: Key, v: string): (r: Entries)
    ensures |r| == |m| || |r| == |m| + 1
    ensures forall i :: 0 <= i < |m| ==> r[i].0 == m[i].0
    ensures |r| == |m| + 1 ==> r[|m|] == (k, v)
  {
    if |m| == 0 then [(k, v)]
    else if m[0].0 == k then [(k, v)] + m[1..]
    else [m[0]] + Put(m[1..], k, v)
  }

  /** `new Map(pairs)`: the pairs set one after the other. */
  function FromPairs(pairs: Entries): Entries
    decreases |pairs|
  {
    if |pairs| == 0 then [] else Put(FromPairs(pairs[..|pairs| - 1]), pairs[|pairs| - 1].0, pairs[|pairs| - 1].1)
  }

  /** The getters, in order (`filter(p => p.kind === "get")`). */
  function Getters(props: seq<Property>): (r: seq<Property>)
    ensures |r| <= |props|
    ensures forall i :: 0 <= i < |r| ==> r[i].kind == Get
  {
    if |props| == 0 then []
    else if props[0].kind == Get then [props[0]] + Getters(props[1..])
    else Getters(props[1..])
  }

  /** `getters.map(p => [p.key.value, print(p.body.body[0].argument)])`: fails at the
      first getter with an empty body. */
  function GetterPairs(getters: seq<Property>): Result<Entries, string> {
    if |getters| == 0 then Success([])
    else if getters[0].Printed().None? then Failure("a getter has an empty body")
    else
      var rest := GetterPairs(getters[1..]);
      if rest.Failure? then rest else Success([(getters[0].key, getters[0].Printed().value)] + rest.value)
  }

  /** `parseParameters` on the members of the parsed object literal. */
  function ParseParameters(props: seq<Property>): Result<Entries, string> {
    var pairs := GetterPairs(Getters(props));
    if pairs.Failure? then Failure(pairs.error) else Success(FromPairs(pairs.value))
  }

  /** The value of the last getter for `k`, scanning from the end: what the Map ends
      up holding for `k`. */
  function LastGetter(props: seq<Property>, k: Key): Option<string>
    decreases |props|
  {
    if |props| == 0 then None
    else
      var p := props[|props| - 1];
      if p.kind == Get && p.key == k then p.Printed()
      else LastGetter(props[..|props| - 1], k)
  }

  function LastValue(pairs: Entries, k: Key): Option<string>
    decreases |pairs|
  {
    if |pairs| == 0 then None
    else if pairs[|pairs| - 1].0 == k then Some(pairs[|pairs| - 1].1)
    else LastValue(pairs[..|pairs| - 1], k)
  }

  // Properties of the Map model

  lemma {:induction false} PutLookup(m: Entries, k: Key, v: string, k': Key)
    ensures Lookup(Put(m, k, v), k') == if k' == k then Some(v) else Lookup(m, k')
    decreases |m|
  {
    if |m| > 0 {
      if m[0].0 == k {
        assert ([(k, v)] + m[1..])[1..] == m[1..];
      } else {
        assert ([m[0]] + Put(m[1..], k, v))[1..] == Put(m[1..], k, v);
        PutLookup(m[1..], k, v, k');
      }
    }
  }

  lemma {:induction false} PutDistinct(m: Entries, k: Key, v: string)
    requires DistinctKeys(m)
    ensures DistinctKeys(Put(m, k, v))
    decreases |m|
  {
    if |m| > 0 && m[0].0 != k {
      var tail := Put(m[1..], k, v);
      PutDistinct(m[1..], k, v);
      var r := [m[0]] + tail;
      forall i, j | 0 <= i < j < |r|
        ensures r[i].0 != r[j].0
      {
        if i > 0 {
          assert r[i] == tail[i - 1] && r[j] == tail[j - 1];
        } else {
          assert r[j] == tail[j - 1];
        }
      }
    } else if |m| > 0 {
      var r := [(k, v)] + m[1..];
      forall i, j | 0 <= i < j < |r|
        ensures r[i].0 != r[j].0
      {
        assert r[j] == m[j];
        if i > 0 {
          assert r[i] == m[i];
        }
      }
    }
  }

  /** Every key of a Map built from pairs is distinct, and each maps to the value of
      the last pair that has it. */
  lemma {:induction false} FromPairsSpec(pairs: Entries)
    ensures DistinctKeys(FromPairs(pairs))
    ensures forall k :: Lookup(FromPairs(pairs), k) == LastValue(pairs, k)
    decreases |pairs|
  {
    if |pairs| > 0 {
      var prefix := pairs[..|pairs| - 1];
      var last := pairs[|pairs| - 1];
      FromPairsSpec(prefix);
      PutDistinct(FromPairs(prefix), last.0, last.1);
      forall k
        ensures Lookup(FromPairs(pairs), k) == LastValue(pairs, k)
      {
        PutLookup(FromPairs(prefix), last.0, last.1, k);
      }
    }
  }

  // Properties of parseParameters

  /** A getter with an empty body makes the whole parse fail. */
  lemma {:induction false} GetterPairsFails(getters: seq<Property>)
    ensures GetterPairs(getters).Success? ==> forall i :: 0 <= i < |getters| ==> getters[i].Printed().Some?
    decreases |getters|
  {
    if |getters| > 0 {
      GetterPairsFails(getters[1..]);
      assert forall i :: 0 < i < |getters| ==> getters[i] == getters[1..][i - 1];
    }
  }

  /** Getters whose bodies are all non-empty give one pair each, in order. */
  lemma {:induction false} GetterPairsAll(getters: seq<Property>)
    requires forall i :: 0 <= i < |getters| ==> getters[i].Printed().Some?
    ensures GetterPairs(getters).Success?
    ensures |GetterPairs(getters).value| == |getters|
    ensures forall i :: 0 <= i < |getters| ==>
      GetterPairs(getters).value[i] == (getters[i].key, getters[i].Printed().value)
    decreases |getters|
  {
    if |getters| > 0 {
      assert forall i :: 0 < i < |getters| ==> getters[i] == getters[1..][i - 1];
      GetterPairsAll(getters[1..]);
      var pairs := GetterPairs(getters).value;
      forall i | 0 < i < |getters|
        ensures pairs[i] == (getters[i].key, getters[i].Printed().value)
      {
        assert pairs[i] == GetterPairs(getters[1..]).value[i - 1];
      }
    }
  }

  /** Pairs that match getters one for one have the same last value per key. */
  lemma {:induction false} SameLast(pairs: Entries, getters: seq<Property>, k: Key)
    requires |pairs| == |getters|
    requires forall i :: 0 <= i < |getters| ==>
      getters[i].kind == Get && getters[i].Printed().Some? && pairs[i] == (getters[i].key, getters[i].Printed().value)
    ensures LastValue(pairs, k) == LastGetter(getters, k)
    decreases |pairs|
  {
    if |pairs| > 0 {
      SameLast(pairs[..|pairs| - 1], getters[..|getters| - 1], k);
    }
  }

  /** Only getters count: a list's last getter for `k` is its last getter for `k`
      once the other members are dropped. */
  lemma {:induction false} GettersLast(props: seq<Property>, k: Key)
    ensures LastGetter(Getters(props), k) == LastGetter(props, k)
    decreases |props|
  {
    if |props| > 0 {
      var init := props[..|props| - 1];
      var p := props[|props| - 1];
      GettersAppend(init, p);
      GettersLast(init, k);
      assert props == init + [p];
      var g := Getters(init);
      assert LastGetter(props, k) == if p.kind == Get && p.key == k then p.Printed() else LastGetter(init, k);
      if p.kind == Get {
        assert Getters(props) == g + [p];
        assert (g + [p])[..|g|] == g;
        assert LastGetter(g + [p], k) == if p.key == k then p.Printed() else LastGetter(g, k);
      } else {
        assert Getters(props) == g;
      }
    }
  }

  lemma {:induction false} GettersAppend(init: seq<Property>, p: Property)
    ensures Getters(init + [p]) == Getters(init) + (if p.kind == Get then [p] else [])
    decreases |init|
  {
    if |init| == 0 {
      assert [p][1..] == [];
    } else {
      assert (init + [p])[1..] == init[1..] + [p];
      GettersAppend(init[1..], p);
    }
  }

  /** `parseParameters` fails exactly when some getter has an empty body;
      otherwise its keys are distinct and each holds the text the last getter for
      that key yields. Setters and plain members are ignored. */
  lemma ParseParametersSpec(props: seq<Property>)
    ensures ParseParameters(props).Success? <==>
      forall i :: 0 <= i < |Getters(props)| ==> !Getters(props)[i].opening.EmptyBody?
    ensures ParseParameters(props).Success? ==>
      && DistinctKeys(ParseParameters(props).value)
      && forall k :: Lookup(ParseParameters(props).value, k) == LastGetter(props, k)
  {
    var getters := Getters(props);
    GetterPairsFails(getters);
    assert ParseParameters(props).Success? == GetterPairs(getters).Success?;
    if forall i :: 0 <= i < |getters| ==> getters[i].Printed().Some? {
      GetterPairsAll(getters);
      var pairs := GetterPairs(getters).value;
      FromPairsSpec(pairs);
      forall k
        ensures Lookup(ParseParameters(props).value, k) == LastGetter(props, k)
      {
        GettersLast(props, k);
        SameLast(pairs, getters, k);
      }
    } else {
      var i :| 0 <= i < |getters| && getters[i].Printed().None?;
      assert !GetterPairs(getters).Success?;
      assert !ParseParameters(props).Success?;
      assert Getters(props)[i].Printed().None?;
    }
  }

  /** A getter and a setter for the same key, as in test/cleanup.test.js:14-26: the
      Map holds what the getter returns. */
  lemma GetterWinsOverSetter(k: Key, getText: string, setText: string)
    ensures
      var props := [Property(Get, k, Argument(getText)), Property(Set, k, Argument(setText))];
      ParseParameters(props) == Success([(k, getText)])
  {
    var props := [Property(Get, k, Argument(getText)), Property(Set, k, Argument(setText))];
    assert Getters(props[1..]) == [];
    assert Getters(props) == [props[0]];
    var getter := props[0];
    assert [getter][1..] == [] && GetterPairs([]) == Success([]);
    assert [(k, getText)] + [] == [(k, getText)];
    assert GetterPairs([getter]) == Success([(k, getText)]);
    assert FromPairs([(k, getText)]) == Put([], k, getText);
  }

  /** A getter that opens with a bare `return;` or with a statement of another
      kind does not throw: its key maps to the empty text. */
  lemma NoArgumentGivesEmpty(k: Key, o: Opening)
    requires !o.EmptyBody? && !o.Argument?
    ensures ParseParameters([Property(Get, k, o)]) == Success([(k, "")])
  {
    var props := [Property(Get, k, o)];
    assert props[1..] == [] && Getters(props) == props;
    assert GetterPairs(props[1..]) == Success([]);
    assert [(k, "")] + [] == [(k, "")];
    assert FromPairs([(k, "")]) == Put([], k, "");
  }

  // ---------------------------------------------------------------------------
  // extractArrayValues

  /** What an element of the array becomes: a string as the text of a double-quoted
      literal, a number or a boolean as itself, anything else as `undefined`. */
  datatype ArrayValue = Quoted(text: string) | NumberValue(num: real) | BoolValue(truth: bool) | Undefined

  function ElementValue(e: Expr): ArrayValue {
    match e
    case Str(s) => Quoted("\"" + Escaping.EscapeJSString(s) + "\"")
    case Num(n) => NumberValue(n)
    case Bool(b) => BoolValue(b)
    case _ => Undefined
  }

  function ElementValues(es: seq<Expr>): (r: seq<ArrayValue>)
    ensures |r| == |es|
    ensures forall i :: 0 <= i < |es| ==> r[i] == ElementValue(es[i])
  {
    if |es| == 0 then [] else [ElementValue(es[0])] + ElementValues(es[1..])
  }

  /** The filter's test on one statement: `const` with a first declarator named
      `name`. A `const` without declarators fails. */
  function IsNamedConst(s: Stmt, name: string): Result<bool, string> {
    if !(s.VarDecl? && s.kind == Const) then Success(false)
    else if |s.decls| == 0 then Failure("declarations[0] is undefined")
    else Success(s.decls[0].id == Ident(name))
  }

  /** The statements that pass the filter, in order. */
  function NamedConsts(body: seq<Stmt>, name: string): (r: Result<seq<Stmt>, string>)
    ensures r.Success? ==> forall i :: 0 <= i < |r.value| ==>
      r.value[i].VarDecl? && r.value[i].kind == Const && |r.value[i].decls| > 0 && r.value[i].decls[0].id == Ident(name)
  {
    if |body| == 0 then Success([])
    else
      var here := IsNamedConst(body[0], name);
      if here.Failure? then Failure(here.error)
      else
        var rest := NamedConsts(body[1..], name);
        if rest.Failure? then rest
        else if here.value then Success([body[0]] + rest.value)
        else rest
  }

  /** The statements of the first top-level function. The source's check of the
      program body's `type` compares an array's `type`, which is `undefined`, so
      it always takes this path. */
  function FirstFunctionBody(p: Program): Result<seq<Stmt>, string> {
    if |p| > 0 && p[0].FuncDecl? then Success(p[0].fn.body)
    else Failure("the program does not open with a function declaration")
  }

  /** `extractArrayValues`: `None` for the source's `null`. */
  function ExtractArrayValues(p: Program, name: string): Result<Option<seq<ArrayValue>>, string> {
    var body := FirstFunctionBody(p);
    if body.Failure? then Failure(body.error)
    else
      var found := NamedConsts(body.value, name);
      if found.Failure? then Failure(found.error)
      else if |found.value| == 0 then Success(None)
      else
        var init := found.value[0].decls[0].init;
        if init.Some? && init.value.ArrayLit? then Success(Some(ElementValues(init.value.elems)))
        else Failure("the declared value is not an array literal")
  }

  /** The statement `extractArrayValues` reads: the first `const` whose first
      declarator is `name`, if the filter gets past every statement. */
  function FirstNamedConst(body: seq<Stmt>, name: string): (r: Option<nat>)
    ensures r.Some? ==> r.value < |body| && IsNamed(body[r.value], name)
    ensures forall j :: 0 <= j < |body| && (r.None? || j < r.value) ==> !IsNamed(body[j], name)
  {
    if |body| == 0 then None
    else if IsNamed(body[0], name) then Some(0)
    else
      var rest := FirstNamedConst(body[1..], name);
      if rest.Some? then Some(rest.value + 1) else None
  }

  predicate IsNamed(s: Stmt, name: string) {
    s.VarDecl? && s.kind == Const && |s.decls| > 0 && s.decls[0].id == Ident(name)
  }

  predicate WellFormedConsts(body: seq<Stmt>) {
    forall i :: 0 <= i < |body| ==> body[i].VarDecl? && body[i].kind == Const ==> |body[i].decls| > 0
  }

  lemma {:induction false} NamedConstsSpec(body: seq<Stmt>, name: string)
    ensures NamedConsts(body, name).Success? <==> WellFormedConsts(body)
    ensures NamedConsts(body, name).Success? ==>
      (|NamedConsts(body, name).value| == 0 <==> FirstNamedConst(body, name).None?)
    ensures NamedConsts(body, name).Success? && FirstNamedConst(body, name).Some? ==>
      FirstNamedConst(body, name).value < |body|
      && NamedConsts(body, name).value[0] == body[FirstNamedConst(body, name).value]
    decreases |body|
  {
    if |body| > 0 {
      NamedConstsSpec(body[1..], name);
      assert WellFormedConsts(body) <==> (
        (body[0].VarDecl? && body[0].kind == Const ==> |body[0].decls| > 0) && WellFormedConsts(body[1..])) by {
        assert forall i :: 0 < i < |body| ==> body[i] == body[1..][i - 1];
      }
    }
  }

  /** `extractArrayValues` answers `null` unless the first function's body holds a
      `const` whose first declarator is `name`; otherwise it reads the first such
      statement, and an array literal there gives one value per element, in order,
      each string element quoted and escaped. */
  lemma ExtractArrayValuesSpec(f: Function, rest: Program, name: string)
    requires WellFormedConsts(f.body)
    ensures var r := ExtractArrayValues([FuncDecl(f)] + rest, name);
      && r.Success? == (FirstNamedConst(f.body, name).None? || (
        var s := f.body[FirstNamedConst(f.body, name).value];
        s.decls[0].init.Some? && s.decls[0].init.value.ArrayLit?))
      && (FirstNamedConst(f.body, name).None? ==> r == Success(None))
      && (r.Success? && FirstNamedConst(f.body, name).Some? ==>
        var elems := f.body[FirstNamedConst(f.body, name).value].decls[0].init.value.elems;
        && r.value.Some? && |r.value.value| == |elems|
        && forall i :: 0 <= i < |elems| ==> r.value.value[i] == ElementValue(elems[i]))
  {
    NamedConstsSpec(f.body, name);
  }

  /** A quoted value is a valid double-quoted literal of the original string: it has
      no raw line break or tab, and unescaping its inside gives the string back. */
  lemma QuotedRoundTrip(s: string)
    ensures var q := ElementValue(Str(s)).text;
      && |q| >= 2 && q[0] == '"' && q[|q| - 1] == '"'
      && (forall i :: 0 <= i < |q| ==> q[i] != '\n' && q[i] != '\r' && q[i] != '\t')
      && Escaping.Unescape(q[1..|q| - 1]) == Success(s)
  {
    var e := Escaping.EscapeJSString(s);
    var q := "\"" + e + "\"";
    assert q[1..|q| - 1] == e;
    Escaping.UnescapeEscape(s);
    assert forall i :: 0 < i < |q| - 1 ==> q[i] == e[i - 1];
  }

  /** A `var` or `let` declaration is not read, whatever it holds
      (test/cleanup.test.js:65-70, 119-131). */
  lemma VarIsNotRead(k: DeclKind, name: string, elems: seq<Expr>)
    requires k != Const
    ensures ExtractArrayValues([FuncDecl(Function("test", [], [VarDecl(k, [Declarator(Ident(name), Some(ArrayLit(elems)))])]))], name)
      == Success(None)
  {
    var body := [VarDecl(k, [Declarator(Ident(name), Some(ArrayLit(elems)))])];
    assert NamedConsts(body[1..], name) == Success([]);
  }

  /** A string with no backslash, quote, line break or tab is quoted as it is. */
  lemma {:induction false} PlainEscapesToItself(s: string)
    requires forall i :: 0 <= i < |s| ==> s[i] !in "\\\"\n\r\t"
    ensures Escaping.EscapeChars(s) == s
    decreases |s|
  {
    if |s| > 0 {
      PlainEscapesToItself(s[1..]);
      assert s == [s[0]] + s[1..];
    }
  }

  /** The mixed array of test/cleanup.test.js:81-88 (`["text", 42, true]`): a string
      is quoted, a number and a boolean are kept. */
  lemma MixedArrayExample(name: string, text: string, n: real, b: bool)
    requires forall i :: 0 <= i < |text| ==> text[i] !in "\\\"\n\r\t"
    ensures ExtractArrayValues([FuncDecl(Function("test", [], [VarDecl(Const, [Declarator(Ident(name), Some(ArrayLit([Str(text), Num(n), Bool(b)])))])]))], name)
      == Success(Some([Quoted("\"" + text + "\""), NumberValue(n), BoolValue(b)]))
  {
    PlainEscapesToItself(text);
    var elems := [Str(text), Num(n), Bool(b)];
    var body := [VarDecl(Const, [Declarator(Ident(name), Some(ArrayLit(elems)))])];
    assert NamedConsts(body[1..], name) == Success([]);
    assert IsNamedConst(body[0], name) == Success(true);
    assert [body[0]] + [] == body;
    assert NamedConsts(body, name) == Success(body);
    var vs := ElementValues(elems);
    assert vs[0] == Quoted("\"" + text + "\"") && vs[1] == NumberValue(n) && vs[2] == BoolValue(b);
    assert vs == [Quoted("\"" + text + "\""), NumberValue(n), BoolValue(b)];
  }

  // ---------------------------------------------------------------------------
  // extractArrayName

  /** `extractArrayName`: the name of the first declarator of the second statement
      of the first function; `None` when that declarator binds a pattern rather
      than a name (the source's `undefined`). */
  function ExtractArrayName(p: Program): (r: Result<Option<string>, string>)
    ensures r.Success? <==>
      |p| > 0 && p[0].FuncDecl? && |p[0].fn.body| > 1 && p[0].fn.body[1].VarDecl? && |p[0].fn.body[1].decls| > 0
    ensures r.Success? && r.value.Some? ==> p[0].fn.body[1].decls[0].id == Ident(r.value.value)
  {
    if !(|p| > 0 && p[0].FuncDecl?) then Failure("the program does not open with a function declaration")
    else if |p[0].fn.body| < 2 then Failure("body[1] is undefined")
    else if !p[0].fn.body[1].VarDecl? then Failure("the second statement declares nothing")
    else if |p[0].fn.body[1].decls| == 0 then Failure("declarations[0] is undefined")
    else
      var id := p[0].fn.body[1].decls[0].id;
      if id.Ident? then Success(Some(id.name)) else Success(None)
  }

  /** The name `extractArrayName` finds leads `extractArrayValues` to the array it
      names, when that second statement is a `const` array and the first
      statement is not a `const` of the same name. */
  lemma ArrayNameFindsValues(f: Function, rest: Program, name: string, elems: seq<Expr>)
    requires |f.body| > 1 && WellFormedConsts(f.body)
    requires ExtractArrayName([FuncDecl(f)] + rest) == Success(Some(name))
    requires f.body[1].kind == Const && f.body[1].decls[0].init == Some(ArrayLit(elems))
    requires !IsNamed(f.body[0], name)
    ensures ExtractArrayValues([FuncDecl(f)] + rest, name) == Success(Some(ElementValues(elems)))
  {
    NamedConstsSpec(f.body, name);
    assert FirstNamedConst(f.body[1..], name) == Some(0);
  }

  /** test/cleanup.test.js:447-458: the second statement of `dummy` is the `const`
      array; its name is found, and reading that name gives the array. */
  lemma ArrayNameExample(vars: seq<Declarator>, name: string)
    requires |vars| > 0
    ensures var p := [FuncDecl(Function("dummy", [Plain("var_1")], [VarDecl(Var, vars), VarDecl(Const, [Declarator(Ident(name), Some(ArrayLit([Num(0.0), Num(1.0)])))])]))];
      && ExtractArrayName(p) == Success(Some(name))
      && ExtractArrayValues(p, name) == Success(Some([NumberValue(0.0), NumberValue(1.0)]))
  {
    var f := Function("dummy", [Plain("var_1")], [VarDecl(Var, vars), VarDecl(Const, [Declarator(Ident(name), Some(ArrayLit([Num(0.0), Num(1.0)])))])]);
    assert WellFormedConsts(f.body);
    assert [FuncDecl(f)] + [] == [FuncDecl(f)];
    ArrayNameFindsValues(f, [], name, [Num(0.0), Num(1.0)]);
    var vs := ElementValues([Num(0.0), Num(1.0)]);
    assert vs[0] == NumberValue(0.0) && vs[1] == NumberValue(1.0);
    assert vs == [NumberValue(0.0), NumberValue(1.0)];
  }
}
