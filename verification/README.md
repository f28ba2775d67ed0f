# A Dafny model of the brenns10/lisp interpreter core

This project models the core of a small Lisp interpreter written in C. The interpreter has these parts:

- a table-driven maximal-munch lexer (`src/lex.c`, `src/lex.h`);
- the Lisp token set and a recursive-descent parser (`src/parse.c`);
- the value types with their reference counts (`src/lisp.h`, `src/types.c`);
- scopes (`src/scope.c`);
- the builtin functions and the global scope (`src/functions.c`);
- the evaluator and `lisp_run` (`src/eval.c`).

Every operation is a pure function over immutable datatypes, and the properties are proved with the Dafny verifier.

Modules, one per part of the program:

| module | file | models |
|---|---|---|
| `Wrappers` | wrappers.dfy | `Option` and `Result` |
| `Faults` | errors.dfy | the ways an operation can fail (C's crash, undefined behaviour or silent garbage become an error value) |
| `Values` | values.dfy | the value types of `lisp.h`; list cells; `lisp_list_length`; integer text; `tp_print` |
| `Heap` | heap.dfy | objects with 32-bit reference counts; `lisp_incref` / `lisp_decref`; `tp_alloc` / `tp_dealloc`; `lisp_scope_delete` |
| `Scopes` | scope.dfy | scope tables, `wchar_hash` and the key comparison |
| `Builtins` | functions.dfy | `get_type`, `get_args`, every builtin, `lisp_create_globals` |
| `Tokenizer` | lex.dfy | the generic lexer: pattern registration, the step-by-step simulation, `lex_yylex`, `lex_load` |
| `LispTokens` | lisp_tokens.dfy | the Lisp token tags and recognisers (`lisp_create_lexer`), and what `lex_yylex` returns on them |
| `LispLex` | lisp_lex.dfy | `lisp_lex`: the whole input turned into tokens |
| `Parser` | parse.dfy | `lisp_parse_rec`, `lisp_parse_list`, `lisp_parse`, and a writer that inverts them |
| `Eval` | eval.dfy | `lisp_evaluate`, `lisp_evaluate_list`, `lisp_if`, `lisp_define`, `lisp_run` |
| `Runs` | runs.dfy | whole runs on small programs |

Modelling decisions:

- **Regular expressions.** Each pattern is an abstract recogniser: a function from the text consumed so far to the simulation state. The Lisp patterns of `src/parse.c:89-95` are hand-written recognisers with the same character classes.
- **Stuck lexer.** When no pattern matches at some offset, `lex_yylex` returns token 0 with length 0. `lisp_lex` then loops forever without advancing. The model reports `Stuck(offset)` instead.
- **Builtins get the caller's scope.** `src/eval.c:69` calls a builtin with its argument list only, although `lisp_if` and `lisp_define` read a scope parameter. The model hands them the scope of the call.
- **Arguments are always evaluated.** The evaluator never reads a builtin's `eval` flag. So `if`, `lambda` and `define` also receive evaluated arguments, and `define` can never bind a name.
- **Closures.** A closure (`lisp_function`) has no type object in `src/types.c`. Evaluating one is an error, and the heap cannot hold one.
- **Undefined behaviour.** Signed overflow of a `long` is the error `IntegerOverflow`. A null dereference is `NullValue`. A pointer to a freed object is `Dangling`.
- **Heap layout.** The heap is a map from addresses to objects, and a bump allocator hands out the addresses. Storing a value lays its children out before the parent. The C parser allocates a list cell before its value, but the counts and the values read back are the same either way.
- **Subtraction as written.** The evaluator dispatches `-` to `Builtins.SubtractAsWritten`, which fails on two or more arguments as `src/functions.c:154` does. `Builtins.Subtract` is the corrected version; see "## Findings".
- **Hash table.** A scope's table is a Dafny `map`. The hash (`wchar_hash`) and the key comparison (`wcscmp`) are modelled and related on their own.

## Model

| member | source | states |
|---|---|---|
| `Values.ListLength` | src/types.c:243-251 | the count of cells before the first null value is the number of elements; zero exactly for an empty list |
| `Values.ArgList` | src/eval.c:33-42 | the fresh list the evaluator builds holds exactly the given values, in order |
| `Values.ParsedList` | src/parse.c:209-224 | the list the parser builds holds exactly the given values, in order |
| `Values.Nth` | src/functions.c:76-86 | following i next pointers reaches the i-th element, and nothing past the end |
| `Values.Digits` | src/types.c:67-72 | the decimal text of a number is non-empty and made only of digits |
| `Values.DigitsRoundTrip` | src/types.c:67-72 | reading the printed digits back gives the number printed |
| `Values.ReadLong` | src/parse.c:264-268 | a digit string reads as its decimal value exactly when that value fits a long, and is an overflow otherwise |
| `Values.ReadPrinted` | src/parse.c:264-268 | a long prints as a minus sign exactly when negative, then the digits of its magnitude; a non-negative long read back by the parser is itself |
| `Values.ReadMagnitude` | src/parse.c:264-268 | the digits of a negative long's magnitude read back as that magnitude exactly when it is not the least long, whose magnitude overflows |
| `Values.ReadPrintedNegative` | src/types.c:67-72 | a negative number prints as a minus sign followed by the digits of its magnitude |
| `Values.Spaces` | src/types.c:42-47 | the indentation before a printed value is exactly n spaces |
| `Values.Print` | src/types.c:67-272 | every value that prints ends with a newline; only lists, calls and closures can fail; a closure has no printer, and a call with a null function slot is a null dereference |
| `Values.PrintCells` | src/types.c:220-234 | a list with no elements prints nothing between its brackets |
| `Values.PrintCall` | src/types.c:171-189 | a call with a null function slot is a null dereference |
| `Values.PrintCallArgs` | src/types.c:180-185 | an argument list whose first cell holds no value fails at once on the null value |
| `Values.PrintCallArgsFails` | src/types.c:180-185 | the argument loop of the call printer always reaches the null value of the last cell |
| `Values.PrintFuncCallFails` | src/types.c:171-189 | printing any function call dereferences a null value |
| `Values.PrintOnePlusTwo` | src/types.c:171-189 | the call (+ 1 2) fails to print as written and prints as "(+", a blank line, " 1", " 2", ")" when corrected |
| `Values.PrintDigit` | src/types.c:67-72 | a one-digit integer prints as that digit and a newline, whatever the indent |
| `Values.PrintDigitCell` | src/types.c:220-234 | a list cell holding a one-digit integer prints as one line indented by one space |
| `Values.PrintCallFixed` | src/types.c:171-189 | with the loop stopping at the null value, a call prints exactly when its function and arguments print |
| `Values.PrintCellsOk` | src/types.c:220-234 | a list prints exactly when each of its elements prints |
| `Heap.Zeroed` | src/types.c:58-265 | a freshly allocated object has the type asked for, no children, an integer value of 0, no text, and a builtin with no function and the eval flag set |
| `Heap.Alloc` | src/types.c:58-65 | allocation returns an address not in use holding a zeroed object of the type asked for with one reference, and leaves every live object untouched |
| `Heap.AllocLoad` | src/types.c:58-265 | a fresh integer reads back as 0 and a fresh list as the empty list; a fresh atom, identifier or builtin is a null value, and a fresh call is no value |
| `Heap.AllocRelease` | src/types.c:29-36 | dropping the one reference of a fresh object frees it and leaves every other object as it was |
| `Heap.CountUp` | src/types.c:23-27 | an unsigned count goes up by one, wrapping from 2^32-1 to 0 |
| `Heap.CountDown` | src/types.c:29-36 | an unsigned count goes down by one, wrapping from 0 to 2^32-1 |
| `Heap.Incref` | src/types.c:23-27 | null is ignored; a live object's count goes up by one and nothing else changes; a dead one is an error |
| `Heap.Decref` | src/types.c:29-36 | null is ignored; a dead object is an error; otherwise objects are only freed, never added, and no payload changes |
| `Heap.DecrefLowers` | src/types.c:29-36 | an object that had references is either freed or keeps a count between one and its old count |
| `Heap.DecrefShared` | src/types.c:29-36 | dropping one of several references only lowers that object's count |
| `Heap.DecrefLast` | src/types.c:29-36 | dropping the last reference frees the object |
| `Heap.IncrefDecref` | src/types.c:23-36 | an incref then a decref of a live object restores the heap exactly |
| `Heap.Store` | src/types.c:202-218 | storing a value adds a fresh root object and leaves every live object untouched |
| `Heap.StoreValue` | src/parse.c:209-292 | the objects built for a value lie in a fresh address range, the root last, each with one reference |
| `Heap.StoreCell` | src/parse.c:209-224 | the objects built for a list lie in a fresh address range, the first cell last, each with one reference |
| `Heap.LoadValue` | src/types.c:163-189 | a value read from an object has the object's type, an integer object reads as its value, a text object as an atom or identifier, and a dangling address is an error |
| `Heap.LoadCell` | src/types.c:212-234 | a list read from an object starts at a list object, has a first element exactly when the object holds a value, and is chained on exactly when the object has a next cell |
| `Heap.DecrefLastStep` | src/types.c:212-218 | releasing a last reference releases the value and then the next cell |
| `Heap.ReleaseValue` | src/types.c:163-169 | releasing the root of a stored value tree frees exactly that tree |
| `Heap.ReleaseCell` | src/types.c:212-218 | releasing the first cell of a stored list frees exactly the list's objects |
| `Heap.StoreRelease` | src/types.c:29-36 | a value stored and then released leaves the live objects as they were |
| `Heap.LoadStore` | src/types.c:153-161 | a stored value reads back from the heap as itself |
| `Heap.ScopeDelete` | src/scope.c:49-59 | deleting a scope decrefs its values: objects are only freed, never added, and no payload changes |
| `Heap.ScopeDeleteLowers` | src/scope.c:49-59 | after deleting a scope, an object that had references is either freed or keeps a count between one and its old count |
| `Heap.ScopeDeleteShared` | src/scope.c:49-59 | deleting a scope whose values are referenced elsewhere frees nothing and lowers each value's count by one |
| `Scopes.Create` | src/scope.c:41-47 | a new scope has no parent and binds nothing |
| `Scopes.Lookup` | src/eval.c:75-80 | a lookup finds a binding exactly when the name is in the scope's own table |
| `Scopes.Bind` | src/functions.c:268-278 | binding sets that name and leaves every other name as it was |
| `Scopes.HashStep` | src/scope.c:20-31 | one step of the hash stays within 32 bits |
| `Scopes.HashStepPoly` | src/scope.c:20-31 | the shift-and-subtract step equals multiplying by 31 and adding the character, modulo 2^32 |
| `Scopes.Hash` | src/scope.c:20-31 | the hash of a key is the polynomial in 31 over its characters, modulo 2^32, and 0 for the empty key |
| `Scopes.Compare` | src/scope.c:33-39 | the comparison returns -1, 0 or 1 |
| `Scopes.CompareZeroIff` | src/scope.c:33-39 | two keys compare equal exactly when they are the same string |
| `Scopes.CompareAntisymmetric` | src/scope.c:33-39 | swapping the keys flips the sign |
| `Scopes.EqualKeysHashEqual` | src/scope.c:20-39 | keys that compare equal hash equally, so a key is found under its own hash |
| `Builtins.GetType` | src/functions.c:27-44 | exactly the characters d, l, a, i, b and c name a type |
| `Builtins.FirstMismatch` | src/functions.c:76-86 | the first argument whose type the format rejects, with all earlier ones accepted |
| `Builtins.GetArgs` | src/functions.c:59-89 | arguments are accepted exactly when their count and each type match the format; otherwise the error names the expected count, or the first bad index and both type names |
| `Builtins.AllIntsCons` | src/functions.c:94-107 | a list is all integers exactly when its head and its tail are |
| `Builtins.RunningCons` | src/functions.c:94-107 | the running sums stay in range exactly when the first one does and the rest do from there |
| `Builtins.AddFromSum` | src/functions.c:94-107 | the add loop succeeds exactly when every argument is an integer and every partial sum fits a long, and then it gives the sum |
| `Builtins.Add` | src/functions.c:94-107 | add returns an integer whenever it succeeds |
| `Builtins.AddIsSum` | src/functions.c:94-107 | add succeeds exactly on integer lists whose partial sums fit, and returns their sum |
| `Builtins.SubtractLoopAsWrittenFails` | src/functions.c:154-160 | the loop as written always reaches the null value of the last cell |
| `Builtins.SubtractLoopIsDifference` | src/functions.c:154-160 | the corrected loop subtracts every remaining argument |
| `Builtins.SubtractAsWrittenNeedsOne` | src/functions.c:128-165 | as written, subtract succeeds only with one argument and fails with two or more |
| `Builtins.SubtractFiveTwo` | src/functions.c:128-165 | (- 5 2) fails as written and gives 3 when corrected |
| `Builtins.Subtract` | src/functions.c:128-165 | the corrected subtract rejects no arguments and a non-integer first argument, and returns an integer |
| `Builtins.SubtractAsWritten` | src/functions.c:128-165 | subtract as written rejects no arguments and a non-integer first argument, and agrees with the corrected one on zero or one argument |
| `Builtins.SubtractIsDifference` | src/functions.c:128-165 | the corrected subtract rejects no arguments and non-integers, negates one argument, and otherwise subtracts the rest from the first |
| `Builtins.Length` | src/functions.c:112-123 | length succeeds exactly on one list argument whose element count fits an int, and returns that count; a longer list is an overflow |
| `Builtins.Car` | src/functions.c:167-180 | car succeeds exactly on one non-empty list and returns its first element; an empty list is an error |
| `Builtins.Cdr` | src/functions.c:182-194 | cdr succeeds on one list argument unless it is the bare empty list, and returns the elements after the first; the bare empty list is a null value |
| `Builtins.CarCdrCons` | src/functions.c:167-211 | car and cdr take apart what cons builds |
| `Builtins.ConsList` | src/functions.c:196-211 | cons succeeds exactly on two arguments whose second is a list, and returns that list's elements with the first argument in front |
| `Builtins.NullP` | src/functions.c:330-346 | null? succeeds exactly on one argument and answers 1 exactly for a list with no elements; other counts name null? in the error |
| `Builtins.NumCompare` | src/functions.c:280-328 | each comparison takes two integers and answers 1 or 0 by its relation, reporting errors as "=" |
| `Builtins.CompareDuals` | src/functions.c:280-328 | a < b is b > a, and >= and <= are the negations of < and > |
| `Builtins.TruthyReplies` | src/functions.c:22-25 | the answers of the comparisons and of null? are truthy exactly when the tested property holds; 0 and the empty list are not truthy |
| `Builtins.Exit` | src/functions.c:213-226 | exit always asks to stop, returning the first argument or 0 |
| `Builtins.Lambda` | src/functions.c:241-266 | lambda succeeds exactly on two arguments and keeps the second as the body; the parameters are the list given, a call's function followed by its arguments, an empty cell before a call's arguments when it has no function, and none for any other value; two arguments or an error naming lambda |
| `Builtins.LambdaParams` | src/functions.c:241-266 | a call-shaped first argument becomes the parameter list, function first |
| `Builtins.BindAll` | src/functions.c:351-424 | a run of insertions binds exactly the old names plus the new ones, each to one of the new values or as before |
| `Builtins.BindAllBinds` | src/functions.c:351-424 | with distinct names, each name is bound to its own value |
| `Builtins.GlobalValues` | src/functions.c:351-424 | each global is a builtin whose eval flag is set except for if, lambda and define |
| `Builtins.Globals` | src/functions.c:351-424 | the global scope has no parent and binds exactly the global names |
| `Builtins.GlobalNamesDistinct` | src/functions.c:351-424 | the global names are distinct |
| `Builtins.GlobalsBindings` | src/functions.c:351-424 | each global name is bound to its own builtin |
| `Builtins.GlobalsUnevaluated` | src/functions.c:351-424 | exactly the last three globals, if, lambda and define, have the eval flag clear |
| `Tokenizer.Create` | src/lex.c:30-42 | a new lexer has no patterns |
| `Tokenizer.AddToken` | src/lex.c:76-81 | registering appends one pattern and its token and keeps the earlier ones |
| `Tokenizer.StatesAt` | src/lex.c:157-196 | the simulation state of each pattern is its state on the text consumed |
| `Tokenizer.FirstAcceptingFrom` | src/lex.c:170-186 | the first accepting pattern from an index, or -1 exactly when none accepts |
| `Tokenizer.FirstAcceptingIs` | src/lex.c:170-186 | the least accepting index is the one chosen |
| `Tokenizer.Start` | src/lex.c:135-155 | a simulation starts with no input, no match and not finished |
| `Tokenizer.Scan` | src/lex.c:170-186 | the scan over the patterns finds the first accepting one, and "finished" exactly when all reject |
| `Tokenizer.Step` | src/lex.c:157-196 | a step consumes a character, records the first accepting pattern at this length, and finishes exactly when all patterns reject |
| `Tokenizer.StepKeepsValid` | src/lex.c:157-196 | a step keeps the simulation's counters consistent |
| `Tokenizer.GetToken` | src/lex.c:198-209 | a token is returned exactly when the simulation finished after some match, and it is that pattern's token |
| `Tokenizer.GetLength` | src/lex.c:211-219 | the length is -1 before finishing and one past the last match after |
| `Tokenizer.NoneAccepting` | src/lex.c:170-186 | when every pattern rejects, none accepts |
| `Tokenizer.StepTracks` | src/lex.c:157-196 | each step keeps the simulation in step with the input: consumed prefix, last longest match, finished flag |
| `Tokenizer.Drive` | src/lex.c:234-247 | driving the simulation stops exactly when some prefix makes every pattern reject |
| `Tokenizer.Yylex` | src/lex.c:234-247 | a match is within the input, has a token exactly when it is non-empty, and the token is the first pattern accepting the match |
| `Tokenizer.RejectedStays` | src/lex.c:157-196 | a pattern that has rejected keeps rejecting |
| `Tokenizer.YylexLongestMatch` | src/lex.c:234-247 | the match is the longest prefix some pattern accepts |
| `Tokenizer.YylexSomeIff` | src/lex.c:234-247 | lex_yylex returns exactly when some prefix makes every pattern reject |
| `Tokenizer.YylexFinishes` | src/lex.c:234-247 | an input every pattern rejects makes lex_yylex return |
| `Tokenizer.FirstTab` | src/lex.c:90-107 | the first tab of a line, or its length when it has none |
| `Tokenizer.LoadLine` | src/lex.c:90-107 | a line loads exactly when it has a tab; the pattern is the text before the first tab, the token the text after |
| `Tokenizer.LoadLineSplits` | src/lex.c:90-107 | a pattern, a tab and a token load as that pattern and token |
| `Tokenizer.Entries` | src/lex.c:109-133 | the entries are lines of the file, none a comment, and every line that is not a comment is one |
| `Tokenizer.EntriesAppend` | src/lex.c:109-133 | the entries of two blocks of lines are those of the first, then those of the second |
| `Tokenizer.FirstBad` | src/lex.c:109-133 | the first entry without a tab, with all earlier ones having one |
| `Tokenizer.TokenTexts` | src/lex.c:109-133 | one token text per entry |
| `Tokenizer.Compiled` | src/lex.c:109-133 | each entry registers the compiled text before its first tab |
| `Tokenizer.EntriesStep` | src/lex.c:109-133 | an entry with a tab registers its pattern and token ahead of those of the later lines |
| `Tokenizer.Load` | src/lex.c:109-133 | loading skips comments, registers each entry's compiled pattern and token text in order up to the first entry without a tab, and succeeds exactly when there is none |
| `LispTokens.LispLexer` | src/parse.c:86-97 | the Lisp lexer registers the seven patterns in order, each with its tag |
| `LispTokens.WhitespaceState` | src/parse.c:89 | the whitespace pattern accepts exactly the non-empty runs of space characters |
| `LispTokens.SingleState` | src/parse.c:90-91 | a one-character pattern accepts exactly that character |
| `LispTokens.OpenParenState` | src/parse.c:90 | the pattern accepts exactly "(" |
| `LispTokens.CloseParenState` | src/parse.c:91 | the pattern accepts exactly ")" |
| `LispTokens.IdentifierState` | src/parse.c:92 | the identifier pattern accepts exactly a start character followed by name characters |
| `LispTokens.AtomState` | src/parse.c:93 | the atom pattern accepts exactly a quote followed by one or more name characters, and a lone quote is still alive |
| `LispTokens.IntegerState` | src/parse.c:94 | the integer pattern accepts exactly the non-empty runs of digits |
| `LispTokens.OpenListState` | src/parse.c:95 | the pattern accepts exactly "'(", and a lone quote is still alive |
| `LispTokens.Patterns` | src/parse.c:89-95 | there is one pattern per tag |
| `LispTokens.PatternsSpell` | src/parse.c:89-95 | the pattern registered with each tag accepts exactly the words spelled like that tag |
| `LispTokens.PatternsAbsorbing` | src/parse.c:89-95 | once a Lisp pattern rejects, it rejects every extension |
| `LispTokens.NulRejected` | src/parse.c:89-95 | every pattern rejects text containing the terminating nul |
| `LispTokens.LispYylexFinishes` | src/parse.c:99-134 | on nul-terminated text lex_yylex returns with a match before the nul |
| `LispTokens.TagOf` | src/parse.c:109-115 | the null token reads as tag 0, whitespace |
| `LispTokens.AcceptedIsSpelled` | src/parse.c:89-95 | text a pattern accepts is spelled like the first accepting pattern's tag |
| `LispTokens.LispYylexSound` | src/parse.c:99-134 | each match is spelled like its tag, and has a token exactly when it is non-empty |
| `LispTokens.YylexNoMatch` | src/lex.c:234-247 | when every pattern rejects before any accepts, the match is empty |
| `LispTokens.NothingAcceptedFrom` | src/parse.c:89-95 | once every pattern rejects, no longer prefix is accepted |
| `LispTokens.OtherRejected` | src/parse.c:89-95 | a character in no class is rejected at once, so '<' and '>' cannot be lexed |
| `LispTokens.QuoteThenStopRejected` | src/parse.c:93-95 | a quote followed by neither '(' nor a name character is rejected |
| `LispTokens.NothingAcceptsQuote` | src/parse.c:93-95 | a lone quote is accepted by no pattern |
| `LispTokens.Rank` | src/parse.c:89-95 | each tag has one position in the registration order |
| `LispTokens.SpelledFirstAccepting` | src/parse.c:89-95 | a word spelled like a tag is first accepted by that tag's pattern |
| `LispTokens.SpelledThenStopRejected` | src/parse.c:89-95 | a word followed by a character that ends its class is rejected by every pattern |
| `LispTokens.YylexSpelledLength` | src/lex.c:234-247 | lex_yylex matches exactly the spelled word before its stop character |
| `LispTokens.YylexWithin` | src/lex.c:234-247 | the match ends before the first prefix every pattern rejects |
| `LispTokens.YylexAtLeast` | src/lex.c:234-247 | the match is no shorter than any accepted prefix |
| `LispTokens.YylexSpelled` | src/lex.c:234-247 | lex_yylex returns the word's tag and length |
| `LispLex.ClassRun` | src/parse.c:89-95 | the longest run of one character class from an offset |
| `LispLex.Munch` | src/parse.c:99-134 | the match at an offset lies within the text, has a token exactly when non-empty, is spelled like its tag, and is followed by a character that ends it |
| `LispLex.RunSlice` | src/parse.c:89-95 | a run of class characters is spelled as that class |
| `LispLex.AtomSlice` | src/parse.c:93 | a quote and name characters spell an atom |
| `LispLex.MunchIsYylex` | src/parse.c:105-109 | the direct scan gives exactly what lex_yylex gives on the rest of the text |
| `LispLex.MunchMatchIsYylex` | src/parse.c:105-109 | for a non-empty match, the direct scan agrees with lex_yylex |
| `LispLex.MunchNothingIsYylex` | src/parse.c:105-109 | for an empty match, the direct scan agrees with lex_yylex |
| `LispLex.LexFrom` | src/parse.c:99-134 | lexing from an offset gives well-formed tokens, or fails only by making no progress |
| `LispLex.Prepend` | src/parse.c:128-129 | a token is appended in front of a successful rest, and an error passes through |
| `LispLex.TokenAt` | src/parse.c:116-125 | a kept token carries its text exactly for atoms, identifiers and integers |
| `LispLex.Lex` | src/parse.c:99-134 | every token lisp_lex keeps is well formed: no whitespace, text exactly where the tag needs it |
| `Parser.ParseRec` | src/parse.c:237-292 | a parse consumes at least one token, gives null exactly at `)`, and gives code outside list mode and data inside it |
| `Parser.ParseLiteral` | src/parse.c:270-282 | a literal list, after `'(` or after `(` inside list mode, parses as list data |
| `Parser.ParseCall` | src/parse.c:274-279 | `(` outside list mode parses as a call |
| `Parser.ParseList` | src/parse.c:209-224 | the cells read up to `)` form a well-built list of code, or of data in list mode |
| `Parser.Parse` | src/parse.c:294-297 | a parsed form is code the evaluator accepts |
| `Parser.Unparse` | src/parse.c:237-292 | every writable value is written as at least one token |
| `Parser.UnparseCells` | src/parse.c:209-224 | every writable list is written as at least one token |
| `Parser.LexedConcat` | src/parse.c:99-134 | joined well-formed token sequences stay well formed |
| `Parser.UnparseLexed` | src/parse.c:99-134 | the writer's tokens are the kind lisp_lex produces |
| `Parser.UnparseCellsLexed` | src/parse.c:99-134 | the writer's list tokens are the kind lisp_lex produces |
| `Parser.ParseUnparse` | src/parse.c:237-292 | reading back a written value gives the value and stops right after it |
| `Parser.ParseUnparseInt` | src/parse.c:264-268 | a written integer reads back |
| `Parser.ParseRecInt` | src/parse.c:264-268 | an integer token reads as the long it spells |
| `Parser.ParseUnparseWord` | src/parse.c:248-263 | a written atom or identifier reads back |
| `Parser.ParseUnparseList` | src/parse.c:280-282 | a written literal list reads back |
| `Parser.ParseUnparseCall` | src/parse.c:274-279 | a written call reads back |
| `Parser.ParseUnparseCallHead` | src/parse.c:274-279 | a written call with a function reads back, split into `(`, the function and the arguments |
| `Parser.ParseUnparseCallSome` | src/parse.c:274-279 | a written call with a function reads back |
| `Parser.ParseUnparseCallNone` | src/parse.c:274-279 | a written call with a null function slot reads back |
| `Parser.ParseRecList` | src/parse.c:280-282 | `'(` parses the list that follows in list mode |
| `Parser.ParseRecCall` | src/parse.c:274-279 | `(` parses a function form and then the argument list |
| `Parser.ParseUnparseCells` | src/parse.c:209-224 | a written list of cells reads back |
| `Parser.ParseUnparseCons` | src/parse.c:209-224 | a written element followed by a written list reads back as one list |
| `Parser.ParseListCons` | src/parse.c:209-224 | a parsed element followed by a parsed list makes one cell |
| `Parser.ParseWritten` | src/parse.c:294-297 | every writable value, written as tokens, parses back as itself |
| `Eval.ElementsEvaluated` | src/eval.c:33-42 | the elements of an evaluated list are evaluated |
| `Eval.ElementEvaluated` | src/eval.c:33-42 | each element of an evaluated list is evaluated and is not a call |
| `Eval.Evaluate` | src/eval.c:49-83 | integers, atoms, lists and builtins evaluate to themselves; an identifier gives its binding in the scope's own table exactly when it has one and is unbound otherwise; a closure and a call with a null function slot are errors; every result is an evaluated value in a scope of evaluated bindings |
| `Eval.EvaluateCall` | src/eval.c:63-74 | a call evaluates its function slot, then its arguments, stops at the first error, rejects a callee that is not a builtin, and otherwise gives what the builtin gives, in the same scope |
| `Eval.EvaluateIdempotent` | src/eval.c:57-62 | the value of an evaluation, unless a closure, evaluates to itself in any scope |
| `Eval.EvaluateList` | src/eval.c:33-42 | the evaluated list has one element per original element, in a fresh list |
| `Eval.Pure` | src/functions.c:94-346 | add succeeds exactly on integers whose partial sums fit and returns their sum; subtract as written fails on two or more arguments; lambda succeeds exactly on two; every result is an evaluated value |
| `Eval.Apply` | src/eval.c:67-72 | only exit asks to stop, returning its first argument or 0; if returns its second or third argument by the truth of the first; a builtin that only computes succeeds exactly when its computation does and leaves the scope as it was |
| `Eval.If` | src/functions.c:228-239 | if succeeds exactly on three arguments whose condition and chosen branch are not closures, and returns the second for a truthy condition and the third otherwise, in the same scope |
| `Eval.Define` | src/functions.c:268-278 | a successful define had a name and a value, does not ask to stop, and leaves the name bound to the value it returns |
| `Eval.DefineNeverBinds` | src/functions.c:268-278 | define always fails, because its first argument was already evaluated and so is never an identifier |
| `Eval.EvaluateKeepsScope` | src/eval.c:49-83 | evaluation never changes the scope |
| `Eval.EvaluateListKeepsScope` | src/eval.c:33-42 | evaluating a list never changes the scope |
| `Eval.ApplyKeepsScope` | src/eval.c:67-72 | applying a builtin never changes the scope |
| `Eval.IfKeepsScope` | src/functions.c:228-239 | if never changes the scope |
| `Eval.EvaluateListElementwise` | src/eval.c:33-42 | a list evaluates exactly when each element does, and each result is that element's value |
| `Eval.IfChooses` | src/functions.c:228-239 | if returns the second argument for a non-zero integer condition and the third otherwise |
| `Eval.GlobalsEvaluated` | src/functions.c:351-424 | every global binding is an evaluated value |
| `Eval.Run` | src/eval.c:85-100 | a successful run gives an evaluated value |
| `Eval.RunIsEvaluate` | src/eval.c:85-94 | running a text that lexes to the tokens of a form gives exactly what evaluating that form in the globals gives |
| `Runs.LexFromToken` | src/parse.c:99-134 | a kept token is prepended to the tokens of the rest |
| `Runs.LexFromSpace` | src/parse.c:111-113 | whitespace is skipped |
| `Runs.LexStep` | src/parse.c:116-129 | a kept token goes in front of the tokens of the rest |
| `Runs.DigitText` | src/types.c:67-72 | a digit prints as itself, which is a digit and a name character |
| `Runs.MunchDigit` | src/parse.c:94 | a digit followed by a blank or `)` is an integer token of length one |
| `Runs.MunchBlank` | src/parse.c:89 | a blank followed by a non-blank is whitespace of length one |
| `Runs.MunchCall` | src/parse.c:89-95 | the match at each offset of "(op a b)" |
| `Runs.LexCallArgs` | src/parse.c:99-134 | " a b)" from offset 3 lexes to the two integers and `)` |
| `Runs.LexCallTokens` | src/parse.c:99-134 | "(op a b)" lexes to `(`, the name, the two integers and `)` |
| `Runs.UnparseCallValue` | src/parse.c:237-292 | the writer gives the same five tokens for the call of op on a and b |
| `Runs.LexCall` | src/parse.c:99-134 | "(op a b)" lexes to the tokens of the call of op on a and b |
| `Runs.LexLessThan` | src/parse.c:89-95 | "(< 1 2)" cannot be lexed: no progress at offset 1 |
| `Runs.RunLessThan` | src/eval.c:85-100 | running "(< 1 2)" stops in the lexer |
| `Runs.ParseOnePlusTwo` | src/parse.c:237-297 | the tokens of "(+ 1 2)" parse to a call of + on 1 and 2 |
| `Runs.EvaluateTwoInts` | src/eval.c:33-42 | two integer arguments evaluate to themselves in a list with no tail |
| `Runs.AddOneTwo` | src/functions.c:94-107 | 1 + 2 = 3 |
| `Runs.EvaluateOnePlusTwo` | src/eval.c:49-83 | where + is the add builtin, (+ 1 2) evaluates to 3 and leaves the scope unchanged |
| `Runs.GlobalsBindPlus` | src/functions.c:351-424 | the globals bind + to add |
| `Runs.EvaluateOnePlusTwoInGlobals` | src/eval.c:85-100 | in the globals, (+ 1 2) evaluates to 3 |
| `Runs.RunOnePlusTwo` | src/eval.c:85-100 | running "(+ 1 2)" gives 3 |
| `Runs.EvaluateDefineX` | src/eval.c:49-83 | (define x 1) fails with x unbound, because x is looked up before define runs |
| `Runs.XNotGlobal` | src/functions.c:351-424 | x is not a global name |
| `Runs.GlobalsBindDefine` | src/functions.c:351-424 | the globals bind define, with its eval flag clear, and leave x unbound |
| `Runs.EvaluateDefineXInGlobals` | src/eval.c:85-100 | in the globals, (define x 1) fails with x unbound |
| `Runs.EvaluateFiveMinusTwo` | src/eval.c:49-83 | where - is the subtract builtin, (- 5 2) fails on a null value |
| `Runs.SecondGlobal` | src/functions.c:351-424 | the second global name is - and its builtin is subtract |
| `Runs.GlobalsBindMinus` | src/functions.c:351-424 | the globals bind - to subtract |
| `Runs.RunFiveMinusTwo` | src/eval.c:85-100 | running "(- 5 2)" fails on a null value where 3 was meant |

## Left out

- The interactive loop (`lisp_interact`, `src/eval.c:102-124`), reading source files (`lisp_lex_file`), and the file-reading lexer entry points (`lex_fyylex`) are left out, because they are I/O.
- The output stream of `tp_print` is left out. Printing is a function returning the text.
- Freeing tokens, `lex_destroy` and `lex_delete` are left out. Memory release is modelled only for reference-counted values.
- `lex_add_pattern` (`src/lex.c:83-88`) registers the caller's pointer, not its own copy. That pointer points into the buffer `lex_load` frees at `src/lex.c:131`. String lifetimes are not modelled, so the model keeps the text.
- Compiling a regular expression into an automaton belongs to an external library. `lex_add_pattern` and `Tokenizer.Load` take the compiler as a parameter.
- Splitting the loaded file into lines belongs to an external library. `Tokenizer.Load` takes the sequence of lines.
- The reference-count traffic inside the evaluator and the builtins is not tracked alongside evaluation. The `Heap` module models counting, release and layout on their own.
- Heap.Decref: removes an object from the heap before releasing its children, where the C code frees it after. The two differ only for cyclic object graphs, which no value the model stores can form.
- Closures made by `lambda` are never applied, because the evaluator only applies builtins.
- Values.ListLength: the `int` counter of `lisp_list_length` is not bounded; `Builtins.Length` states the `int` bound where `length` returns it.
- Scopes.Hash: a null key hashes to 0 in the C code; a Dafny string is never null, so that case is left out.
- The order in which `lisp_scope_delete` visits the table is the hash table's; `Heap.ScopeDelete` takes it as a sequence.
- Builtins.SubtractIsDifference: says that an overflow is an error, but not exactly which argument lists overflow.
- Builtins.Lambda: when the first argument is neither a list nor a call, the C code leaves the closure's parameter list as allocated; the model records no parameter list. `tp_function` is declared in none of the modelled files.
- A closure has no type object, so `Heap.Storable` excludes closures.
- Builtins.Cdr: on the empty list, whose only cell has no next cell, the C code returns a null pointer (`src/functions.c:191-192`). The evaluator would keep that null as a value, which silently ends an enclosing argument list, and the printer dereferences it at the top level. The model reports `NullValue` at the `cdr` itself, so it does not promise what a null in the middle of an argument list does.
- Eval.Run: does not print the result (`src/eval.c:95`); `Values.Print` gives the text that would be printed.

## Findings

| source | as written | input that shows it | evidently intended | confidence | as-written member | corrected member |
|---|---|---|---|---|---|---|
| src/functions.c:154 | `lisp_subtract` loops `while (params)` over the remaining cells; the last cell of every argument list holds a null value, which the loop dereferences | `(- 5 2)` | loop while the cell holds a value, so `(- 5 2)` is 3 | not executed | `Builtins.SubtractAsWrittenNeedsOne` | `Builtins.SubtractIsDifference` |
| src/types.c:181 | the call printer loops `while (l != NULL)` over the argument cells and so reaches the null value of the terminating cell | printing `(+ 1 2)` as a call | stop at the cell whose value is null, as the list printer does | not executed | `Values.PrintFuncCallFails` | `Values.PrintCallFixed` |
