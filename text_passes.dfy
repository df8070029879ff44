/** The text-level steps of the cleanup: finding the text between two markers
    (lib/index.js:56-71), splitting the obfuscated wrapper into its body, parameter
    object and environment name (lib/index.js:78-94), substituting parameter values
    back into the code (lib/index.js:104-116) and naming the output files
    (lib/index.js:434-456). */
module TextPasses {
  import opened Wrappers
  import opened JsStrings
  import Escaping
  import opened Ast

  // ---------------------------------------------------------------------------
  // findInside, findInsideGreedy

  /** The text between the first `prefix` and the last `suffix`; empty when the last
      `suffix` starts before the end of the first `prefix`, as `slice` makes it. */
  function FindInsideGreedy(str: string, prefix: string, suffix: string): (r: Option<string>)
    ensures r.Some? <==> Contains(str, prefix) && Contains(str, suffix)
    ensures r.Some? ==>
              exists i, j :: FirstFrom(str, prefix, 0, i) && LastAt(str, suffix, j) &&
                             r.value == (if i + |prefix| <= j then str[i + |prefix|..j] else "")
  {
    var start := IndexOf(str, prefix, 0);
    var end := LastIndexOf(str, suffix);
    if start != -1 && end != -1 then Some(Slice(str, start + |prefix|, end)) else None
  }

  /** `prefix` first occurs at `i`, and `suffix` first occurs after it at `j`. */
  predicate Enclosed(str: string, prefix: string, suffix: string, i: int, j: int) {
    FirstFrom(str, prefix, 0, i) && FirstFrom(str, suffix, i + |prefix|, j)
  }

  /** The text between the first `prefix` and the first `suffix` after it. */
  function FindInside(str: string, prefix: string, suffix: string): (r: Option<string>)
    ensures r.Some? ==>
              exists i, j :: Enclosed(str, prefix, suffix, i, j) && r.value == str[i + |prefix|..j]
    ensures r.None? ==>
              !Contains(str, prefix) ||
              exists i :: FirstFrom(str, prefix, 0, i) &&
                          forall j :: i + |prefix| <= j ==> !OccursAt(str, suffix, j)
  {
    var start := IndexOf(str, prefix, 0);
    var end := IndexOf(str, suffix, start + |prefix|);
    assert start != -1 ==> StartPosition(str, start + |prefix|) == start + |prefix|;
    assert start != -1 && end != -1 ==> Enclosed(str, prefix, suffix, start, end);
    if start != -1 && end != -1 then Some(Slice(str, start + |prefix|, end)) else None
  }

  // ---------------------------------------------------------------------------
  // extractParameters

  /** What `extractParameters` returns. `environment` is `None` where the code holds
      `null`. */
  datatype Extracted = Extracted(cleaned: string, parameters: string, environment: Option<string>)

  /** A template literal prints `null` for a missing value. */
  function OrNull(o: Option<string>): string {
    if o.Some? then o.value else "null"
  }

  /** The runnable form of the extracted body: a function taking the environment
      name, called with the parameter object. */
  function DummyWrapper(environment: string, body: string, parameters: string): string {
    "function dummy(" + environment + ") {\n        " + body + "\n    }\n    dummy(" + parameters + ")\n    "
  }

  /** `extractParameters` for the wrapper
      `Function("<env>","<escaped body>")(<parameters>)` followed by two characters.
      The body is read back with `Escaping.Unescape`; the whole extraction fails
      exactly when that does. */
  function ExtractParameters(str: string): (r: Result<Extracted, string>)
    ensures r.Success? <==> Escaping.Unescape(OrNull(FindInsideGreedy(str, "\",\"", "\")("))).Success?
    ensures r.Success? ==> r.value.environment == FindInside(str, "Function(\"", "\",\"")
    ensures r.Success? ==> |r.value.parameters| <= |str|
  {
    var data := FindInsideGreedy(str, "\",\"", "\")(");
    match Escaping.Unescape(OrNull(data))
    case Failure(e) => Failure(e)
    case Success(body) =>
      var end := LastIndexOf(str, "\")(");
      var parameters := Slice(str, end + 3, |str| - 2);
      var environment := FindInside(str, "Function(\"", "\",\"");
      Success(Extracted(DummyWrapper(OrNull(environment), body, parameters), parameters, environment))
  }

  predicate IsIdentifierChar(c: char) {
    'a' <= c <= 'z' || 'A' <= c <= 'Z' || '0' <= c <= '9' || c == '_' || c == '$'
  }

  /** `lead + Function("<env>","<e>")(<after>`, with `e` the literal's text as it
      stands in the file. */
  function Wrapper(lead: string, env: string, e: string, after: string): string {
    lead + "Function(\"" + env + "\",\"" + e + "\")(" + after
  }

  /** The obfuscated file's wrapper: some text without quotes, then
      `Function("<env>","<escaped body>")(<parameters>` and two closing characters. */
  function WrapperText(lead: string, env: string, body: string, args: string, tail: string): string {
    Wrapper(lead, env, Escaping.EscapeJSString(body), args + tail)
  }

  lemma ExtractParametersIs(str: string, data: string, body: string, end: nat, env: string, args: string)
    requires FindInsideGreedy(str, "\",\"", "\")(") == Some(data)
    requires Escaping.Unescape(data) == Success(body)
    requires LastIndexOf(str, "\")(") == end && end + 3 <= |str| - 2
    requires str[end + 3..|str| - 2] == args
    requires FindInside(str, "Function(\"", "\",\"") == Some(env)
    ensures ExtractParameters(str) == Success(Extracted(DummyWrapper(env, body, args), args, Some(env)))
  {
  }

  lemma FindInsideGreedyIs(str: string, prefix: string, suffix: string, i: nat, j: nat, v: string)
    requires IndexOf(str, prefix, 0) == i && LastIndexOf(str, suffix) == j && i + |prefix| <= j
    requires str[i + |prefix|..j] == v
    ensures FindInsideGreedy(str, prefix, suffix) == Some(v)
  {
  }

  lemma FindInsideIs(str: string, prefix: string, suffix: string, i: nat, j: nat, v: string)
    requires IndexOf(str, prefix, 0) == i && IndexOf(str, suffix, i + |prefix|) == j && i + |prefix| <= j
    requires str[i + |prefix|..j] == v
    ensures FindInside(str, prefix, suffix) == Some(v)
  {
  }

  lemma SliceMiddle(a: string, b: string, c: string)
    ensures (a + b + c)[|a|..|a| + |b|] == b
  {
    assert (a + b + c)[|a|..|a| + |b|] == (a + b)[|a|..];
  }

  /** Where the first `Function("` is when the text before it has no quote. */
  lemma FunctionMarkerFirst(lead: string, rest: string)
    requires '"' !in lead
    ensures IndexOf(lead + "Function(\"" + rest, "Function(\"", 0) == |lead|
  {
    var fn := "Function(\"";
    var s := lead + fn + rest;
    assert s[|lead|..|lead| + 10] == fn;
    forall k | 0 <= k < |lead| ensures !OccursAt(s, fn, k) {
      assert s[k + 9] == (if k + 9 < |lead| then lead[k + 9] else fn[k + 9 - |lead|]);
      NotOccursAt(s, fn, k, 9);
    }
    IndexOfIs(s, fn, 0, |lead|);
  }

  /** Where the first `","` is: right after the environment name. */
  lemma SeparatorFirst(head: string, env: string, rest: string)
    requires |head| > 0 && head[|head| - 1] == '"' && '"' !in head[..|head| - 1]
    requires |env| > 0 && forall i :: 0 <= i < |env| ==> IsIdentifierChar(env[i])
    ensures IndexOf(head + env + "\",\"" + rest, "\",\"", 0) == |head| + |env|
    ensures IndexOf(head + env + "\",\"" + rest, "\",\"", |head|) == |head| + |env|
  {
    var sep := "\",\"";
    var s := head + env + sep + rest;
    var p := |head| + |env|;
    assert s[p..p + 3] == sep;
    forall k | 0 <= k < p ensures !OccursAt(s, sep, k) {
      if k < |head| - 1 {
        assert s[k] == head[..|head| - 1][k];
        NotOccursAt(s, sep, k, 0);
      } else if k == |head| - 1 {
        assert s[k + 1] == env[0];
        NotOccursAt(s, sep, k, 1);
      } else {
        assert s[k] == env[k - |head|];
        NotOccursAt(s, sep, k, 0);
      }
    }
    IndexOfIs(s, sep, 0, p);
    IndexOfIs(s, sep, |head|, p);
  }

  /** Where the last `")(` is when nothing after it has a quote. */
  lemma CloseLast(front: string, after: string)
    requires '"' !in after
    ensures LastIndexOf(front + "\")(" + after, "\")(") == |front|
  {
    var close := "\")(";
    var s := front + close + after;
    assert s[|front|..|front| + 3] == close;
    forall k | |front| < k <= |s| ensures !OccursAt(s, close, k) {
      if k < |front| + 3 {
        NotOccursAt(s, close, k, 0);
      } else if k < |s| {
        assert s[k] == after[k - |front| - 3];
        NotOccursAt(s, close, k, 0);
      }
    }
    LastIndexOfIs(s, close, |front|);
  }

  lemma WrapperFunction(lead: string, env: string, e: string, after: string)
    requires '"' !in lead
    ensures IndexOf(Wrapper(lead, env, e, after), "Function(\"", 0) == |lead|
  {
    var rest := env + "\",\"" + e + "\")(" + after;
    assert Wrapper(lead, env, e, after) == lead + "Function(\"" + rest;
    FunctionMarkerFirst(lead, rest);
  }

  lemma WrapperSeparator(lead: string, env: string, e: string, after: string)
    requires '"' !in lead
    requires |env| > 0 && forall i :: 0 <= i < |env| ==> IsIdentifierChar(env[i])
    ensures IndexOf(Wrapper(lead, env, e, after), "\",\"", 0) == |lead| + 10 + |env|
    ensures IndexOf(Wrapper(lead, env, e, after), "\",\"", |lead| + 10) == |lead| + 10 + |env|
  {
    var head := lead + "Function(\"";
    var rest := e + "\")(" + after;
    assert head[..|head| - 1] == lead + "Function(";
    assert Wrapper(lead, env, e, after) == head + env + "\",\"" + rest;
    SeparatorFirst(head, env, rest);
  }

  lemma WrapperClose(lead: string, env: string, e: string, after: string)
    requires '"' !in after
    ensures LastIndexOf(Wrapper(lead, env, e, after), "\")(") == |lead| + 13 + |env| + |e|
  {
    CloseLast(lead + "Function(\"" + env + "\",\"" + e, after);
  }

  /** Where the environment name, the literal and the parameters sit. */
  lemma WrapperSlices(lead: string, env: string, e: string, after: string)
    ensures var w, h := Wrapper(lead, env, e, after), |lead| + 10;
      w[h..h + |env|] == env && w[h + |env| + 3..h + |env| + 3 + |e|] == e &&
      w[h + |env| + |e| + 6..] == after
  {
    var w := Wrapper(lead, env, e, after);
    var head := lead + "Function(\"";
    assert w == head + env + ("\",\"" + e + "\")(" + after);
    SliceMiddle(head, env, "\",\"" + e + "\")(" + after);
    assert w == (head + env + "\",\"") + e + ("\")(" + after);
    SliceMiddle(head + env + "\",\"", e, "\")(" + after);
  }

  /** The parameters sit between the last `")(` and the two closing characters. */
  lemma WrapperParameters(lead: string, env: string, e: string, args: string, after: string)
    requires |after| == |args| + 2 && after[..|args|] == args
    ensures var w := Wrapper(lead, env, e, after);
      w[|w| - |args| - 2..|w| - 2] == args
  {
    var front := lead + "Function(\"" + env + "\",\"" + e + "\")(";
    assert Wrapper(lead, env, e, after) == front + args + after[|args|..];
    SliceMiddle(front, args, after[|args|..]);
  }

  /** In `lead + Function("<env>","<e>")(<after>`, the greedy find between
      `","` and `")(` gives `e`, whatever `e` holds, and the last `")(` is the one
      just before `after`. */
  lemma BodyMarkers(lead: string, env: string, e: string, after: string)
    requires '"' !in lead && '"' !in after
    requires |env| > 0 && forall i :: 0 <= i < |env| ==> IsIdentifierChar(env[i])
    ensures FindInsideGreedy(Wrapper(lead, env, e, after), "\",\"", "\")(") == Some(e)
    ensures LastIndexOf(Wrapper(lead, env, e, after), "\")(") == |Wrapper(lead, env, e, after)| - |after| - 3
  {
    var p := |lead| + 10 + |env|;
    WrapperSeparator(lead, env, e, after);
    WrapperClose(lead, env, e, after);
    WrapperSlices(lead, env, e, after);
    FindInsideGreedyIs(Wrapper(lead, env, e, after), "\",\"", "\")(", p, p + 3 + |e|, e);
  }

  /** In the same text, the find between `Function("` and `","` gives the
      environment name. */
  lemma EnvironmentMarkers(lead: string, env: string, e: string, after: string)
    requires '"' !in lead
    requires |env| > 0 && forall i :: 0 <= i < |env| ==> IsIdentifierChar(env[i])
    ensures FindInside(Wrapper(lead, env, e, after), "Function(\"", "\",\"") == Some(env)
  {
    WrapperFunction(lead, env, e, after);
    WrapperSeparator(lead, env, e, after);
    WrapperSlices(lead, env, e, after);
    FindInsideIs(Wrapper(lead, env, e, after), "Function(\"", "\",\"", |lead|, |lead| + 10 + |env|, env);
  }

  /** Extraction from a wrapper whose literal text `e` reads back as `body`. */
  lemma ExtractFromWrapper(lead: string, env: string, e: string, body: string, args: string, after: string)
    requires '"' !in lead && '"' !in after
    requires |after| == |args| + 2 && after[..|args|] == args
    requires |env| > 0 && forall i :: 0 <= i < |env| ==> IsIdentifierChar(env[i])
    requires Escaping.Unescape(e) == Success(body)
    ensures ExtractParameters(Wrapper(lead, env, e, after))
      == Success(Extracted(DummyWrapper(env, body, args), args, Some(env)))
  {
    BodyMarkers(lead, env, e, after);
    EnvironmentMarkers(lead, env, e, after);
    WrapperParameters(lead, env, e, args, after);
    ExtractParametersIs(Wrapper(lead, env, e, after), e, body, |Wrapper(lead, env, e, after)| - |args| - 5, env, args);
  }

  /** Splitting a wrapper built from an environment name, a body and a parameter
      text gives back exactly those three. */
  lemma ExtractParametersRoundTrip(lead: string, env: string, body: string, args: string, tail: string)
    requires '"' !in lead && '"' !in args && '"' !in tail && |tail| == 2
    requires |env| > 0 && forall i :: 0 <= i < |env| ==> IsIdentifierChar(env[i])
    ensures ExtractParameters(WrapperText(lead, env, body, args, tail))
      == Success(Extracted(DummyWrapper(env, body, args), args, Some(env)))
  {
    Escaping.UnescapeEscape(body);
    assert (args + tail)[..|args|] == args;
    ExtractFromWrapper(lead, env, Escaping.EscapeJSString(body), body, args, args + tail);
  }

  // ---------------------------------------------------------------------------
  // replaceParameters

  /** A parameter table as `forEach` visits it: keys with the text `${value}` gives
      their values, in insertion order. An array is the table of its indices. */
  type Entries = seq<(Key, string)>

  predicate IntegerKeys(entries: Entries) {
    forall i :: 0 <= i < |entries| ==> (entries[i].0.NumKey? ==> IsInteger(entries[i].0.num))
  }

  /** `<env>[0x<k in lower-case hexadecimal>]`, the text the numeric-key pattern
      matches. */
  function NumericPattern(env: string, k: int): (p: string)
    ensures |p| > |env| + 3
  {
    env + "[0x" + IntHex(k) + "]"
  }

  predicate IsWordChar(c: char) {
    'a' <= c <= 'z' || 'A' <= c <= 'Z' || '0' <= c <= '9' || c == '_'
  }

  predicate IsWordAt(s: string, i: int) {
    0 <= i < |s| && IsWordChar(s[i])
  }

  /** `\b` at position `k`: a word character on exactly one side. */
  predicate Boundary(s: string, k: int) {
    IsWordAt(s, k - 1) != IsWordAt(s, k)
  }

  /** The regular expression `\b<env>[<chars>]\b` matches at `k`: `env`, then one of
      `chars`, with word boundaries on both sides. */
  predicate ClassMatchAt(s: string, env: string, chars: string, k: nat) {
    k + |env| + 1 <= |s| && s[k..k + |env|] == env && s[k + |env|] in chars
    && Boundary(s, k) && Boundary(s, k + |env| + 1)
  }

  /** Global replacement of `\b<env>[<chars>]\b` by `value`, scanning from `k`
      without overlap; boundaries are judged on the original text. */
  function ClassReplaceFrom(s: string, env: string, chars: string, value: string, k: nat): string
    decreases |s| - k
  {
    if k >= |s| then ""
    else if ClassMatchAt(s, env, chars, k) then value + ClassReplaceFrom(s, env, chars, value, k + |env| + 1)
    else [s[k]] + ClassReplaceFrom(s, env, chars, value, k + 1)
  }

  /** The text `${key}` gives. */
  function KeyText(key: Key): string
    requires !key.NumKey?
  {
    if key.StrKey? then key.str else "undefined"
  }

  /** One `forEach` step: a numeric key replaces `env[0x<hex>]`; any other key goes
      through the character-class pattern of lib/index.js:112. */
  function ReplaceEntry(code: string, env: string, key: Key, value: string): string
    requires key.NumKey? ==> IsInteger(key.num)
  {
    if key.NumKey? then ReplaceAll(code, NumericPattern(env, key.num.Floor), value)
    else ClassReplaceFrom(code, env, KeyText(key), value, 0)
  }

  /** All entries, in order, each applied to the result of the previous one. */
  function ReplaceEntries(code: string, entries: Entries, env: string): string
    requires IntegerKeys(entries)
    decreases |entries|
  {
    if |entries| == 0 then code
    else ReplaceEntries(ReplaceEntry(code, env, entries[0].0, entries[0].1), entries[1..], env)
  }

  /** `replaceParameters`: a missing table is an error; otherwise `code` is
      reassigned once per entry. */
  method ReplaceParameters(code: string, parameters: Option<Entries>, env: string)
    returns (r: Result<string, string>)
    requires parameters.Some? ==> IntegerKeys(parameters.value)
    ensures parameters.None? <==> r.Failure?
    ensures parameters.Some? ==> r == Success(ReplaceEntries(code, parameters.value, env))
  {
    if parameters.None? {
      return Failure("Parameters is null");
    }
    var entries := parameters.value;
    var text := code;
    for i := 0 to |entries|
      invariant ReplaceEntries(text, entries[i..], env) == ReplaceEntries(code, entries, env)
    {
      assert entries[i..][1..] == entries[i + 1..];
      text := ReplaceEntry(text, env, entries[i].0, entries[i].1);
    }
    assert entries[|entries|..] == [];
    return Success(text);
  }

  /** Numeric entries whose patterns do not occur leave the code unchanged. */
  lemma {:induction false} ReplaceEntriesAbsent(code: string, entries: Entries, env: string)
    requires IntegerKeys(entries)
    requires forall i :: 0 <= i < |entries| ==>
                         entries[i].0.NumKey? && !Contains(code, NumericPattern(env, entries[i].0.num.Floor))
    ensures ReplaceEntries(code, entries, env) == code
    decreases |entries|
  {
    if |entries| > 0 {
      ReplaceAllAbsent(code, NumericPattern(env, entries[0].0.num.Floor), entries[0].1);
      ReplaceEntriesAbsent(code, entries[1..], env);
    }
  }

  /** For a numeric key, the first `env[0x<hex>]` is replaced by the value verbatim,
      the text before it is kept, and replacement goes on after it. */
  lemma NumericEntryFirst(a: string, b: string, env: string, k: int, value: string)
    requires forall j :: 0 <= j < |a| ==> !OccursAt(a + NumericPattern(env, k) + b, NumericPattern(env, k), j)
    ensures ReplaceEntry(a + NumericPattern(env, k) + b, env, NumKey(k as real), value)
      == a + value + ReplaceEntry(b, env, NumKey(k as real), value)
  {
    assert (k as real).Floor == k;
    ReplaceAllFirst(a, NumericPattern(env, k), b, value);
  }

  /** Where the class pattern matches nowhere from `k` on, the rest of the text is
      kept as it is. */
  lemma {:induction false} ClassReplaceNoMatch(s: string, env: string, chars: string, value: string, k: nat)
    requires k <= |s|
    requires forall j :: k <= j < |s| ==> !ClassMatchAt(s, env, chars, j)
    ensures ClassReplaceFrom(s, env, chars, value, k) == s[k..]
    decreases |s| - k
  {
    if k < |s| {
      ClassReplaceNoMatch(s, env, chars, value, k + 1);
      assert s[k..] == [s[k]] + s[k + 1..];
    }
  }

  /** As written, the string-key pattern `\bvar_1[cr]\b` is a character class: it
      matches `var_1c` or `var_1r`, and the bracket access `var_1["cr"]` is left
      as it was. */
  lemma StringKeyMissesBracketAccess()
    ensures ReplaceEntry("var_1[\"cr\"]", "var_1", StrKey("cr"), "typeof global") == "var_1[\"cr\"]"
    ensures ReplaceEntry("var_1c", "var_1", StrKey("cr"), "typeof global") == "typeof global"
  {
    var s := "var_1[\"cr\"]";
    forall k | 0 <= k < |s| ensures !ClassMatchAt(s, "var_1", "cr", k) {
      assert s[5] == '[';
      assert k == 0 || k + 6 > |s| || s[k] != 'v';
    }
    ClassReplaceNoMatch(s, "var_1", "cr", "typeof global", 0);
    var t := "var_1c";
    assert ClassMatchAt(t, "var_1", "cr", 0);
  }

  /** The replacement the string-key branch is meant to make: every `env["key"]`
      becomes the value. */
  function ReplaceBracketKey(code: string, env: string, key: string, value: string): string {
    ReplaceAll(code, env + "[\"" + key + "\"]", value)
  }

  /** With the bracket pattern, the first `env["key"]` is replaced by the value, the
      text before it is kept and replacement goes on after it. */
  lemma BracketKeyReplaced(a: string, b: string, env: string, key: string, value: string)
    requires forall j :: 0 <= j < |a| ==>
      !OccursAt(a + (env + "[\"" + key + "\"]") + b, env + "[\"" + key + "\"]", j)
    ensures ReplaceBracketKey(a + (env + "[\"" + key + "\"]") + b, env, key, value)
      == a + value + ReplaceBracketKey(b, env, key, value)
  {
    ReplaceAllFirst(a, env + "[\"" + key + "\"]", b, value);
  }

  // ---------------------------------------------------------------------------
  // Output file names

  /** `src` with a final `.js` replaced by `tag`, or `tag` appended when the text
      after the last dot is anything else or there is no dot. */
  function DerivedFileName(src: string, tag: string): (r: string)
    ensures EndsWith(src, ".js") ==> r == src[..|src| - 3] + tag
    ensures !EndsWith(src, ".js") ==> r == src + tag
  {
    var dot := LastIndexOf(src, ".");
    LastDotOfJs(src);
    if dot == -1 then src + tag
    else if Slice(src, dot, |src|) == ".js" then src[..dot] + tag
    else src + tag
  }

  /** The text from the last dot on is `.js` exactly when the name ends in `.js`. */
  lemma LastDotOfJs(src: string)
    ensures EndsWith(src, ".js") ==> LastIndexOf(src, ".") == |src| - 3
    ensures LastIndexOf(src, ".") != -1 && Slice(src, LastIndexOf(src, "."), |src|) == ".js"
      ==> EndsWith(src, ".js")
  {
    var dot := LastIndexOf(src, ".");
    if dot != -1 {
      OccursAtChar(src, ".", dot, 0);
    }
    if EndsWith(src, ".js") {
      assert src[|src| - 3..] == ".js";
      assert src[|src| - 3] == '.' && src[|src| - 2] == 'j' && src[|src| - 1] == 's';
      assert OccursAt(src, ".", |src| - 3);
    }
  }

  function EnvironmentFileName(src: string): (r: string)
    ensures EndsWith(src, ".js") ==> r == src[..|src| - 3] + ".environment.js"
    ensures !EndsWith(src, ".js") ==> r == src + ".environment.js"
  {
    DerivedFileName(src, ".environment.js")
  }

  function ParametersFileName(src: string): (r: string)
    ensures EndsWith(src, ".js") ==> r == src[..|src| - 3] + ".parameters.js"
    ensures !EndsWith(src, ".js") ==> r == src + ".parameters.js"
  {
    DerivedFileName(src, ".parameters.js")
  }

  function CleanedFileName(src: string): (r: string)
    ensures EndsWith(src, ".js") ==> r == src[..|src| - 3] + ".cleaned.js"
    ensures !EndsWith(src, ".js") ==> r == src + ".cleaned.js"
  {
    DerivedFileName(src, ".cleaned.js")
  }

  /** The three names never coincide, and none is the source file itself. */
  lemma FileNamesDistinct(src: string)
    ensures EnvironmentFileName(src) != ParametersFileName(src)
    ensures EnvironmentFileName(src) != CleanedFileName(src)
    ensures ParametersFileName(src) != CleanedFileName(src)
    ensures EnvironmentFileName(src) != src && CleanedFileName(src) != src
  {
    var b := if EndsWith(src, ".js") then src[..|src| - 3] else src;
    assert EnvironmentFileName(src)[|b|..] == ".environment.js";
    assert ParametersFileName(src)[|b|..] == ".parameters.js";
    assert CleanedFileName(src)[|b|..] == ".cleaned.js";
  }
}
