# fallen-angel cleanup passes, modelled in Dafny

fallen-angel is a JavaScript deobfuscator. Its library (`lib/index.js`) does three kinds of work:

- It cuts an obfuscated bundle of the form `Function("<env>","<escaped body>")(<parameters>)` into its pieces.
- It reads the parameter object and the constants array out of parsed code.
- It rewrites the syntax tree with a few canonicalising passes:
  - folding `"a" + "b"`;
  - turning rest-parameter functions `f(...c)` back into `f(param_0, ..., param_<N-1>)`, with `local_j` names for the other captured slots;
  - replacing every inline copy of the string-decoding routine by a call to one canonical `decodeHelper`.

The model covers each of these operations. There is one module per concern, and each file holds one module.

| module | file | what it holds |
|---|---|---|
| `Wrappers` | wrappers.dfy | `Option`, `Result` |
| `JsStrings` | js_strings.dfy | the string built-ins the code relies on: `indexOf`, `lastIndexOf`, `slice`, global literal replacement, base-10/base-16 formatting |
| `Ast` | ast.dfy | the syntax tree: only the node kinds the passes look at |
| `Escaping` | escaping.dfy | `escapeJSString`, and the evaluation of a string literal that `unescapeJSString` performs |
| `TextPasses` | text_passes.dfy | `findInside`, `findInsideGreedy`, `extractParameters`, `replaceParameters`, the output file names |
| `Extract` | extract.dfy | `parseParameters`, `extractArrayValues`, `extractArrayName` |
| `Concat` | concat.dfy | `inlineStringConcats` |
| `Traverse` | traverse.dfy | the children-first walk that both function visitors use |
| `RestParams` | rest_params.dfy | `isLengthAssignment`, the locals visitor, `simplifySpreadParameters` |
| `DecodeBlocks` | decode_blocks.dfy | `isCodeStringAssignment`, `isCodeStringInit`, `simplifyDecoding` |
| `Decode` | decode.dfy | the canonical routine `decodeHelper` in `helperFunctionCode` |

Parsing and printing are done by external libraries (recast and @babel/parser). The model therefore works on trees, not text: each tree pass takes and returns a tree. Where the code replaces a node in place (`path.replace`, or assigning `targetNode.body.body`), the model returns the rebuilt tree.

Imperative code is modelled as imperative Dafny:
- the decode loop (`Decode.DecodeHelper`, with its inner `do`-`while` in `Decode.AddPair`);
- the `forEach` that reassigns `code` (`TextPasses.ReplaceParameters`);
- the loop that pushes the new parameters (`RestParams.PushParams`);
- the locals map the visitor fills as it walks (`RestParams.LocalsMap`).

Each of these is proved against a function that the lemmas are about.

Some shapes make the JavaScript read a property of `undefined` and throw, for example a decode block whose last statement is not `return g(x)`. These become `Failure` results, not preconditions. Reading a property that a node lacks (the `name` of a string literal or of a rest parameter) gives `undefined` without throwing, and the model carries that value on. A tree walk stops at the first such failure, as the thrown exception would.

## Model

| member | source | states |
|---|---|---|
| JsStrings.IndexOf | lib/index.js:68-69 | `indexOf(p, position)` with the position clamped: the result is the first occurrence at or after the position, and -1 exactly when there is none |
| JsStrings.LastIndexOf | lib/index.js:58 | the result is the last occurrence, and -1 exactly when `p` does not occur |
| JsStrings.Slice | lib/index.js:59 | `slice` with in-range bounds is the subsequence between them; it is never longer than the string |
| JsStrings.ReplaceAllAbsent | lib/index.js:109 | a global replace of a pattern that does not occur returns the text unchanged |
| JsStrings.ReplaceAllFirst | lib/index.js:109 | a global replace keeps the text before the first occurrence, puts the replacement in its place and goes on after it |
| JsStrings.DecimalValue | lib/index.js:175 | the decimal text of `n`, read back as digits, is `n` (so `param_${i}` and `local_${size}` name distinct numbers) |
| JsStrings.HexValue | lib/index.js:109 | `k.toString(16)` read back in base 16 is `k` |
| JsStrings.IntHex | lib/index.js:109 | `toString(16)` of a negative integer is a minus sign followed by the digits of its magnitude |
| Escaping.EscapeJSString | lib/index.js:14-16 | the five global replacements escape each character on its own (backslash, quote, `\n`, `\r`, `\t`), and the result holds no raw line break or tab |
| Escaping.EscapeIsPerChar | lib/index.js:15 | because backslashes are replaced first, the chain of replacements equals escaping character by character |
| Escaping.Unescape | lib/index.js:10-12 | evaluating `"` + text + `"` follows the strict-mode string-literal grammar: malformed, octal or out-of-range escapes and raw quotes or line breaks fail; a high-surrogate `\u` escape followed by a low-surrogate one is the single character the pair stands for |
| Escaping.SurrogatePairRead | lib/index.js:10-12 | a high-surrogate `\uXXXX` followed by a low-surrogate `\uXXXX` reads as one character above U+FFFF |
| Escaping.SurrogatesCover | lib/index.js:10-12 | every character above U+FFFF is the one some surrogate pair stands for |
| Escaping.CombineInjective | lib/index.js:10-12 | two surrogate pairs that stand for the same character are equal |
| Escaping.EmojiExample | lib/index.js:10-12 | `\uD83D\uDE00` reads as U+1F600 |
| Escaping.UnescapeEscape | lib/index.js:10-16 | round trip: `unescapeJSString(escapeJSString(s)) == s` for every string |
| TextPasses.FindInsideGreedy | lib/index.js:56-60 | present exactly when both markers occur; it is then the text from the end of the first prefix to the start of the last suffix (empty when they overlap, as `slice` makes it) |
| TextPasses.FindInside | lib/index.js:67-71 | present only when the suffix follows the first prefix; the text lies between that prefix and the first suffix after it. Absent when the prefix is missing or no suffix follows it |
| TextPasses.FindInsideGreedyIs | lib/index.js:56-60 | given the first prefix and last suffix positions, the result is the slice between them |
| TextPasses.FindInsideIs | lib/index.js:67-71 | given the first prefix and the first suffix after it, the result is the slice between them |
| TextPasses.ExtractParameters | lib/index.js:78-94 | succeeds exactly when the greedy body (or the text `null`) unescapes (surrogate-pair escapes included). The environment is the `findInside` between `Function("` and `","`, and the parameters text is no longer than the input |
| TextPasses.ExtractParametersIs | lib/index.js:78-94 | the result is `function dummy(<env>) { <unescaped body> } dummy(<parameters>)`, with the parameter text and environment taken from the located markers |
| TextPasses.ExtractFromWrapper | lib/index.js:78-94 | on `Function("<env>","<e>")(<args>..)` the pieces come back: env, the unescaped `e`, and args |
| TextPasses.ExtractParametersRoundTrip | lib/index.js:78-94 | building the wrapper from an escaped body and extracting gives back the body, the arguments and the environment name |
| TextPasses.ReplaceParameters | lib/index.js:104-116 | a null table throws. Otherwise every entry is applied in insertion order, each to the result of the previous one |
| TextPasses.ReplaceEntriesAbsent | lib/index.js:106-109 | numeric entries whose `env[0x<hex>]` does not occur leave the code unchanged |
| TextPasses.NumericEntryFirst | lib/index.js:107-109 | a numeric key replaces the first `env[0x<lower-case hex>]` by its value verbatim and goes on after it |
| TextPasses.ClassReplaceNoMatch | lib/index.js:110-113 | where the string-key pattern matches nowhere, the text is kept |
| TextPasses.StringKeyMissesBracketAccess | lib/index.js:110-113 | as written, the string-key pattern `\bvar_1[cr]\b` leaves `var_1["cr"]` alone and replaces `var_1c` |
| TextPasses.BracketKeyReplaced | lib/index.js:110-113 | corrected: replacing `env["key"]` by the value keeps the text before the first occurrence and goes on after it |
| TextPasses.DerivedFileName | lib/index.js:434-456 | a final `.js` is replaced by the tag; any other name (no dot, or another extension) gets the tag appended |
| TextPasses.LastDotOfJs | lib/index.js:435-437 | "the text from the last dot is `.js`" is the same as "ends with `.js`" |
| TextPasses.EnvironmentFileName | lib/index.js:434-440 | `x.js` gives `x.environment.js`; anything else gets `.environment.js` appended (test/cleanup.test.js:38-53) |
| TextPasses.ParametersFileName | lib/index.js:442-448 | `x.js` gives `x.parameters.js`; anything else gets `.parameters.js` appended |
| TextPasses.CleanedFileName | lib/index.js:450-456 | `x.js` gives `x.cleaned.js`; anything else gets `.cleaned.js` appended |
| TextPasses.FileNamesDistinct | lib/index.js:434-456 | the three output names differ from each other, and the environment and cleaned names differ from the input name |
| Extract.Put | lib/index.js:99 | `Map.set` keeps every existing key in its place; a new key goes last with its value |
| Extract.PutLookup | lib/index.js:99 | after `set(k, v)`, `get(k)` is `v` and every other key reads as before |
| Extract.FromPairsSpec | lib/index.js:99 | `new Map(pairs)` has distinct keys, and each key holds the value of its last pair |
| Extract.Getters | lib/index.js:98 | the filter keeps only getters |
| Extract.GettersLast | lib/index.js:98 | dropping setters and plain members does not change the last getter of any key |
| Extract.Printed | lib/index.js:99 | the text a getter contributes: the printed argument of its first statement, the empty text when that statement has no argument (a bare `return;` or another kind of statement), and a throw only for an empty body |
| Extract.GetterPairsFails | lib/index.js:99 | a getter with an empty body (`body.body[0]` is `undefined`) makes the map building throw |
| Extract.GetterPairsAll | lib/index.js:98-99 | getters with non-empty bodies give one pair each, in order: the key and the printed argument of the first statement |
| Extract.ParseParametersSpec | lib/index.js:96-100 | fails exactly when some getter has an empty body. Otherwise the keys are distinct and each maps to the text the last getter for that key yields |
| Extract.NoArgumentGivesEmpty | lib/index.js:99 | a getter opening with a bare `return;` or another statement without an argument maps its key to the empty text |
| Extract.GetterWinsOverSetter | test/cleanup.test.js:14-26 | a getter and a setter for the same key give a map holding only the getter's text |
| Extract.ElementValues | lib/index.js:126 | one value per element, in order |
| Extract.NamedConsts | lib/index.js:124 | the filter keeps only `const` statements whose first declarator is the name |
| Extract.FirstNamedConst | lib/index.js:124-125 | the first such statement; none before it qualifies |
| Extract.NamedConstsSpec | lib/index.js:124-125 | the filter throws exactly on a `const` without declarators; otherwise it is empty exactly when no statement qualifies, and it starts with the first one that does |
| Extract.ExtractArrayValuesSpec | lib/index.js:117-127 | the result is null unless a `const` in the first function names the variable. The first such statement is read: an array literal gives one value per element in order, and anything else throws |
| Extract.QuotedRoundTrip | lib/index.js:126 | a quoted string element is `"…"` with no raw line break or tab inside, and unescaping its inside gives the element back |
| Extract.PlainEscapesToItself | lib/index.js:15 | text with no backslash, quote, line break or tab is quoted unchanged |
| Extract.VarIsNotRead | test/cleanup.test.js:65-70 | `var` and `let` arrays are not read: the result is null |
| Extract.MixedArrayExample | test/cleanup.test.js:81-88 | `["text", 42, true]` gives `"\"text\""`, 42 and true |
| Extract.ExtractArrayName | lib/index.js:458-463 | succeeds exactly when the program opens with a function whose second statement declares something. The result names that statement's first declarator |
| Extract.ArrayNameFindsValues | lib/index.js:458-463 | the name found leads `extractArrayValues` to that second statement's array |
| Extract.ArrayNameExample | test/cleanup.test.js:447-458 | `function dummy(var_1) { var …; const h8F1BC = [0x0, 0x1]; }` gives the name `h8F1BC` and the values 0, 1 |
| Concat.InlineStringConcats | lib/index.js:129-149 | corrected (children first): the pass keeps the number of top-level statements and leaves no `+` of two string literals anywhere in the program |
| Concat.AsWrittenLeavesFoldable | lib/index.js:131-146 | as written, on a whole program: a statement holding a chain of three or more literals still holds a `+` of two literals after one run |
| Concat.FoldKeepsValue | lib/index.js:133-139 | either visiting order keeps the string that an all-literal `+` expression evaluates to |
| Concat.SinglePassKeepsChain | lib/index.js:131-146 | as written, one run leaves a `+` at the top of any chain of three or more literals |
| Concat.SinglePassLeavesChain | lib/index.js:131-146 | as written, `"1" + "2" + "3"` becomes `"12" + "3"` |
| Concat.SinglePassFoldsFirstPair | lib/index.js:131-146 | as written, one run folds exactly the innermost pair of a left-nested chain |
| Concat.RunsCollapseChain | lib/index.js:129-149 | repeating the as-written pass `n - 1` times collapses an `n`-part chain to its concatenation, which a further run leaves alone |
| Concat.ChainValue | lib/index.js:138 | a chain evaluates to the concatenation of its parts |
| Concat.ChainCollapses | lib/index.js:129-149 | corrected (children first): any all-literal `+` expression becomes the single literal it evaluates to |
| Concat.ChainExample | test/cleanup.test.js:515-520 | corrected: `"1" + "2" + "3"` becomes `"123"` |
| Concat.InlineIdempotent | lib/index.js:129-149 | running the corrected pass twice gives the same program as running it once |
| Traverse.TotalWalkStmts | lib/index.js:392-400 | with a rewrite that never throws, the walk succeeds and keeps the statement count |
| Traverse.SettledStmts | lib/index.js:282-286 | with a rewrite that settles after one application, walking twice gives the same result as walking once |
| Traverse.SettledFunction | lib/index.js:219-220 | the same for one function, whose contents are walked before the function itself |
| RestParams.LocalIndex | lib/index.js:180-184 | the position of a key among the keys met so far: the first equal one, or the count when it is new |
| RestParams.Intern | lib/index.js:182-184 | recording a key extends the keys met so far and keeps them duplicate-free |
| RestParams.LocalsMap.NameFor | lib/index.js:180-189 | the existing mapping, or `local_<size>` recorded for the new key; the map stays consistent with the key order |
| RestParams.RenameExpr | lib/index.js:166-213 | renaming only ever adds keys, and it keeps them duplicate-free |
| RestParams.RenameStmts | lib/index.js:229 | the same for a statement list, whose length is kept |
| RestParams.LiteralAccess | lib/index.js:168-212 | in `c[k]`: an integer `0 <= k < N` becomes `param_k`; `"length"` is kept; any other number, `-number` or string becomes the `local_j` of its key |
| RestParams.NumberIndexRenamed | lib/index.js:179-189 | a new numeric key takes the next local number and is recorded last; a known key reuses its number |
| RestParams.SameKeySameName | lib/index.js:180-181 | a key met earlier keeps its name however many keys come after it |
| RestParams.DistinctKeysDistinctNames | lib/index.js:182-183 | different keys get different names, so the number 74 and the string "74" are separate locals |
| RestParams.NamesInjective | lib/index.js:175 | `param_i` and `local_j` names are distinct for distinct numbers and never coincide with each other |
| RestParams.ParamCount | lib/index.js:231 | the loop `i < N` runs `ceil(N)` times for positive N and never otherwise |
| RestParams.ParamNames | lib/index.js:230-239 | the new parameter list has one entry per loop iteration |
| RestParams.PushParams | lib/index.js:230-239 | the pushing loop builds exactly the specified parameter list |
| RestParams.ParamNamesPlain | lib/index.js:232-238 | the new parameters are `param_0 … param_{n-1}`, plain and pairwise distinct |
| RestParams.SpreadParams | lib/index.js:222-280 | a function of none of the three shapes is unchanged. After a match the parameters are `param_0..` with no rest parameter, so the function no longer matches and a second run changes nothing |
| RestParams.SpreadRemovesCheck | lib/index.js:222-280 | the length check is removed: the whole first statement, the first sequence element (the rest of the body untouched), or the first call argument |
| RestParams.SimplifySpreadParameters | lib/index.js:284-288 | the pass keeps the number of top-level statements |
| RestParams.TopFunctionRewritten | lib/index.js:219-220 | a function declared at the top of the program has its body put through the same pass first, and then goes through the visitor (`SimplifySpread`) |
| RestParams.TopStatementWalked | lib/index.js:284-288 | each top-level statement of the output is the walk of the statement at the same place |
| Traverse.WalkStmtsAt | lib/index.js:282-286 | a successful walk handles each statement of a list on its own, at its own place |
| RestParams.NegativeKeyRenamed | lib/index.js:190-200 | `B[-7]` becomes `local_0` |
| RestParams.SequenceExample | test/cleanup.test.js:355-368 | `B["length"] = 0, B[-7] = ""` in `function (...B)` gives a function with no parameters whose first statement is `local_0 = ""` |
| RestParams.CallExample | test/cleanup.test.js:399-418 | `var_65(D["length"] = 2, D[74] = D[1], D["b"] = D[74]); return D["b"]` gives `(param_0, param_1)`, `var_65(local_0 = param_1, local_1 = local_0); return local_1` |
| DecodeBlocks.SimplifyBlock | lib/index.js:312-391 | name and parameters are kept. A rewritten function has exactly two statements: a `decodeHelper` declaration whose alphabet has length 91, 98 or 101, then the original last statement. It fails exactly when the body opens with a declaration that has no declarator, or with the alphabet declaration while the last statement is not `return f(x, ...)` or there is no parameter |
| DecodeBlocks.UnrecognisedUnchanged | lib/index.js:315-358 | a function with an empty body, or with neither opening, is left as it is |
| DecodeBlocks.InitShapeRewritten | lib/index.js:317-352 | declaration opening: `const <x> = decodeHelper(<alphabet>, <first param>)`, where x is the name of the first argument of the final `return g(x)`, followed by that return; a name that is missing is `undefined` |
| DecodeBlocks.UnnamedBecomeUndefined | lib/index.js:326-345 | a rest first parameter and a string literal as the returned call's argument do not throw: both names in the declaration become `undefined` |
| DecodeBlocks.CallShapeRewritten | lib/index.js:354-390 | call opening: `const local_3 = decodeHelper(<alphabet>, param_0)` followed by the last statement |
| DecodeBlocks.AlphabetFitsDecoder | lib/index.js:298 | every alphabet the rewrite passes on is short enough for the 32-bit arithmetic of `decodeHelper` |
| DecodeBlocks.BlockIdempotent | lib/index.js:312-391 | a rewritten function is not rewritten again |
| DecodeBlocks.SimplifyDecodingIdempotent | lib/index.js:392-400 | running the pass on its own output changes nothing |
| DecodeBlocks.InitExample | test/cleanup.test.js:169-202 | `function __Array(__Array)` declaring a 91-character alphabet and returning `dkJAw8(__Buffer)` becomes `const __Buffer = decodeHelper(<alphabet>, __Array); return dkJAw8(__Buffer)` |
| DecodeBlocks.CallExample | test/cleanup.test.js:203-242 | `var_65(local_0 = "<alphabet>", …)` in `function __Buffer(param_0)` becomes `const local_3 = decodeHelper(<alphabet>, param_0)` and the last statement |
| Decode.Symbols | lib/index.js:416-417 | every seed character found in the alphabet becomes its index, which is below the alphabet length |
| Decode.DecodeHelper | lib/index.js:404-432 | the loop computes exactly the specified decoding. Every pushed value is in 0..255, and an empty or missing seed gives `[]` |
| Decode.AddPair | lib/index.js:421-425 | one completed pair adds one or two bytes and leaves at most 7 pending bits, with the accumulator below 2^(bits+1) |
| Decode.PairStepBounds | lib/index.js:421 | the accumulator stays below 2^22, so 32-bit `|`, `<<` and `>>` are exact. A pair leaves at least 8 pending bits and at most two whole bytes to drain |
| Decode.DecodeBytesInRange | lib/index.js:423 | every decoded value is a byte |
| Decode.DecodeLength | lib/index.js:415-430 | `n` symbols give between `n/2 + n%2` and `2*(n/2) + n%2` bytes |
| Decode.UnpairedAddsOneByte | lib/index.js:428-430 | a final unpaired symbol adds exactly one byte |
| Decode.DecodePrefix | lib/index.js:415-427 | the bytes of whole pairs are a prefix of the bytes of any longer input |
| Decode.SymbolsConcat | lib/index.js:415-417 | symbols of a concatenated seed are the concatenated symbols |
| Decode.SkipForeign | lib/index.js:416-417 | a seed character that is not in the alphabet does not change the output |

## Left out

- Parsing and printing (lib/index.js:18-49) are done by external libraries. The model starts from the tree. A parse error and the printer's layout (including the `;;` after an inserted declaration) are not modelled.
- `unescapeJSString` evaluates arbitrary code with `eval`. The model evaluates only a string-literal body: the JavaScript escape set, in strict mode.
- Escaping.Unescape: a surrogate escape without its partner (`\uD83D` alone, or `\u{DE00}`) denotes a lone UTF-16 code unit, which JavaScript accepts but a Dafny string cannot hold; the model fails on it, and so does TextPasses.ExtractParameters on a body that holds one.
- Strings are sequences of characters. JavaScript counts UTF-16 code units, so the lengths 91/98/101 and the indices in `decodeHelper` match only for text without astral characters.
- Numbers are reals. How a number is printed is not modelled; `Decimal` covers only the non-negative integers that name `param_i` and `local_j`.
- TextPasses.ReplaceParameters: requires numeric keys to be integers, because `toString(16)` of a fraction prints digits after a point and the model's base-16 formatting covers integers only.
- TextPasses.ReplaceParameters: the regular-expression hazards are assumed absent. `environment` is interpolated unescaped, and `$` sequences in a value are expanded by `String.replace`. The string-key character class (lib/index.js:112) is modelled as the plain set of the key's characters: a leading `^` (which negates the class), an `a-b` range, and a `\` or `]` in the key, all of which change the class in the source, are not modelled.
- The `debug` annotation path (lib/index.js:102, 108, 111) is dead code, because the constant is false.
- The `console.dir` in `visitDeclareFunction` (lib/index.js:396-399) only prints.
- Decode.DecodeHelper: requires an alphabet of at most 179 characters, which keeps every value below 2^22 so that the 32-bit operators are exact. The decode-block rewrite only ever passes alphabets of 91, 98 or 101 characters (DecodeBlocks.AlphabetFitsDecoder).
- Decode.DecodeHelper: the seed is a string or missing. The source's `"" + (seed || "")` on other values (numbers, `0`, `false`) is not modelled.
- Class methods (`visitClassMethod`) and node kinds other than those in `Ast` (loops, conditionals, objects, classes, arrow functions) are not in the tree. The passes visit nothing inside them.
- RestParams: a `Sequence` with no elements, or a declaration without declarators, does not match a shape. The parser never produces either; the source would throw on them.
- RestParams.SpreadParams: proves that a second run changes nothing for one function, not for a whole program tree.
- RestParams.SimplifySpreadParameters: what the pass does is stated for top-level statements (RestParams.TopFunctionRewritten, RestParams.TopStatementWalked); functions nested in expressions are reached by the same walk, but no lemma names them one by one.
- Extract.ParseParameters: takes the members of the parsed object literal. A parameters text that is not an object literal (which makes the source throw) is not modelled, and neither is the printed form of an argument, which is taken as given text. That a missing argument prints as the empty text is a property of recast, which is not part of this model.
- Extract.ExtractArrayValues: an array element that is not a string, number or boolean literal (a `null` literal among them) gives `undefined`. A hole, as in `[1, , 2]`, is a `null` entry of the element list and makes the source throw when it reads its `type`; `Ast` cannot represent a hole, so that failure is not modelled.
- `inlineDecodeHelperCalls` is used by cleanup.js:11 and test/cleanup.test.js:9, but it is not defined in lib/index.js. It is not part of this model.
- The command-line drivers cleanup.js and reformat.js (file I/O, pass order, formatting) are not part of this model.

## Findings

| source | as written | input that shows it | evidently intended | confidence | as-written member | corrected member |
|---|---|---|---|---|---|---|
| lib/index.js:131-146 | a folded `+` node is replaced and not revisited, and its parent was visited before it, so a chain is folded one pair per run | `"1" + "2" + "3"` gives `"12" + "3"` | `"123"`, as test/cleanup.test.js:515-520 expects: fold children before their parent | not executed | Concat.SinglePassLeavesChain | Concat.ChainCollapses |
| lib/index.js:112 | the string key is placed inside the brackets of a regular expression, which makes them a character class: `\bvar_1[cr]\b` | `var_1["cr"]` is left unchanged, while `var_1c` is replaced | replace `var_1["cr"]` by the value, as test/cleanup.test.js:28-35 expects | not executed | TextPasses.StringKeyMissesBracketAccess | TextPasses.BracketKeyReplaced |
