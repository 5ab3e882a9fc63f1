# moon: lexer, scope stack and evaluator, in Dafny

A model of the core of `moon`, a small Lua-like interpreter written in Rust.
It has three parts, and for each one the properties are proved:

- **Lexer** (`src/parser.rs`), in module `Parser`:
  - `Separator::next` cuts the source characters into fragments. Spaces and
    tabs separate fragments. Each of `= , ; ( )` is a one-character
    fragment. A `"` toggles a quoted mode in which spaces and tabs are kept.
  - `Tokenizer::next` classifies each fragment as a string constant, one of
    the keywords `=`, `true`, `false`, `nil`, or a name.
  - Each call to `next` is a pure function of the characters and the
    cursor. It returns the item, if any, and the new cursor.
- **Scope-stack environment** (`Environment` in `src/interpreter.rs`), in
  module `Environment`:
  - a sequence of `string -> Value` maps, plus the index `stack_indice` of
    the innermost scope;
  - `set_variable` and `get_variable`;
  - the `local` declaration;
  - the scope push and pop of a block.
- **Tree-walking evaluator** (`exec_statement`, `is_true`, `evaluate`), in
  module `Interpreter`:
  - Native functions are host code. `Host.call` gives their results and
    `Host.divide` the quotient of two numbers.
  - Every native call is recorded in a trace, so evaluation order is part of
    each result.
  - Calling a value that is not a native function (a panic in the source)
    becomes the error result `NotAFunction`.
  - `While` runs on fuel and stops with `OutOfFuel` when the fuel is spent.

The tree types `Value`, `Statement`, `Expression`, `Binop` and `Variable` (module `Ast`) are imported by
the interpreter from a `parser` module that is not part of this model; they
are reconstructed from the interpreter's match arms, with `Number` an
integer.

`src/interpretor.rs` is an older copy of `src/interpreter.rs`. Its variable
accessors are named `set_value` and `get_value`. Module `Interpretor` gives
those names, with the same contracts, to the members of `Environment` and
`Interpreter`.

The model follows the code as written. The lexer departs from a Lua-like
lexer in several ways, and the model keeps every one:
- Only space and tab are blanks; a newline is an ordinary character.
- `+` is not punctuation, and `'` is not a quote.
- A punctuation character ends a fragment even inside an open quote.
- The closing `"` does not end its fragment.
- The quoted mode restarts off at every call of `Separator::next`.

**`If` runs its then-list in both arms** (src/interpreter.rs:61-71,
src/interpretor.rs:53-63). The else-list is never executed. The arm binds
`elseBlock` and never reads it, and its else branch repeats the then branch
word for word, so the else-list was evidently meant for a false condition.
`Interpreter.Exec` reproduces the code as written, and
`Interpreter.IfRunsThenList` and `Interpreter.IfIgnoresElse` state its
behaviour. `Interpreter.ExecIfIntended` is the corrected arm, and
"## Findings" records the difference.

## Model

| member | source | states |
|---|---|---|
| Parser.SkipBlanks | src/parser.rs:51-54 | the cursor passes exactly the run of spaces and tabs ahead of it and stops at the first other character or at the end |
| Parser.Scan | src/parser.rs:48-69 | the loop of `Separator::next`; the cursor only moves forward and never passes the end of the input |
| Parser.ScanSlice | src/parser.rs:48-69 | the word built is the word so far followed by one contiguous slice of the input, starting after the leading blanks when the word was empty |
| Parser.ScanEmpty | src/parser.rs:51-54 | the loop produces nothing exactly when nothing was read and only blanks remain, and then it reaches the end |
| Parser.ScanQuotes | src/parser.rs:62-64 | a space or tab enters the word only while an odd number of `"` precede it in the word |
| Parser.ScanPunct | src/parser.rs:55-61 | a punctuation character enters only an empty word, which it then ends, so the result is punctuation-free or one punctuation character |
| Parser.ScanStop | src/parser.rs:53 | a word that stops before the end stops at punctuation or at an unquoted blank |
| Parser.ScanRun | src/parser.rs:62-66 | a punctuation-free stretch whose blanks are all quoted is appended to the word whole |
| Parser.ScanCloses | src/parser.rs:53 | a non-empty word at the end, before punctuation or before an unquoted blank is returned as it is, without moving the cursor |
| Parser.SeparatorNext | src/parser.rs:45-75 | `None` exactly when the unread input is only blanks (the cursor then at the end); otherwise a non-empty fragment and a cursor advanced by at least one |
| Parser.SeparatorNextShape | src/parser.rs:45-75 | a returned fragment is the input slice after the skipped blanks; its blanks are quoted; it is punctuation-free or a single punctuation character; a punctuation-free one ends at the end, at punctuation or at an unquoted blank |
| Parser.PunctuationLeftForNextCall | src/parser.rs:55-61 | punctuation that ends a word is not consumed: the next call returns it alone and moves past it |
| Parser.PunctNext | src/parser.rs:55-59 | after blanks, a punctuation character is returned as a one-character fragment |
| Parser.WordNext | src/parser.rs:48-74 | after blanks, a fragment-shaped slice followed by the end, punctuation or an unquoted blank is returned whole |
| Parser.SeparateFrom | src/parser.rs:42-76 | the iterator's fragment sequence is finite and empty exactly when only blanks remain |
| Parser.SeparateBlankInput | src/parser.rs:70-71 | input made only of spaces and tabs gives no fragment at all |
| Parser.SeparateFromFragments | src/parser.rs:45-75 | every fragment is a single punctuation character, or a non-empty punctuation-free word that does not start with a blank and whose blanks are all quoted |
| Parser.SeparateConserves | src/parser.rs:51-68 | the fragments put together, spaces and tabs removed, are the input with spaces and tabs removed: no other character is dropped or duplicated |
| Parser.SeparateFromConserves | src/parser.rs:51-68 | the same conservation from any cursor position |
| Parser.SeparateSingle | src/parser.rs:45-75 | a word separates into exactly itself if and only if it has the shape of a fragment |
| Parser.Classify | src/parser.rs:83-96 | a fragment starting with `"` is a string with the first character removed and then the last one if any is left; exactly `=`, `true`, `false`, `nil` are `Equal`, `True`, `False`, `Nil`; everything else is a name, verbatim |
| Parser.TokenizerNext | src/parser.rs:81-101 | `None` exactly when only blanks remain; a name it returns is never empty, never a keyword and never starts with `"` |
| Parser.TokenizeFrom | src/parser.rs:78-101 | every name in the token stream is non-empty, not a keyword and not starting with `"` |
| Parser.TokenizeIsClassifiedSeparate | src/parser.rs:81-101 | exactly one token per fragment, each the classification of its fragment |
| Parser.TokenizeRender | src/parser.rs:81-101 | writing out a token as one fragment and tokenizing it gives back exactly that token |
| Parser.SeparateExample | tests/lib.rs:5-8 | `"x=true\t\ty = false"` splits into `x`, `=`, `true`, `y`, `=`, `false` |
| Parser.NewlineAndPlusAreOrdinary | src/parser.rs:50-66 | a newline and a `+` are ordinary word characters |
| Parser.ClosingQuoteDoesNotCloseFragment | src/parser.rs:62-65 | the closing `"` does not end the fragment, and a quoted space stays inside it |
| Parser.SingleQuoteIsOrdinary | src/parser.rs:62-66 | `'` does not quote: `'a b'` splits at the space |
| Parser.PunctuationBreaksQuotes | src/parser.rs:55-61 | punctuation inside an open quote still splits the fragment |
| Environment.New | src/interpreter.rs:16-21 | one empty global scope with the cursor on it, so the invariant `stack_indice == \|stack\| - 1` holds and no name is bound |
| Environment.Lookup | src/interpreter.rs:111-118 | the search gives the binding from the highest scope at or below the cursor that binds the name, and `Nil` when none does |
| Environment.GetVariable | src/interpreter.rs:111-118 | `get_variable` gives the innermost binding or `Nil`, and returns no new state |
| Environment.LookupAgrees | src/interpreter.rs:111-118 | a read depends only on how the searched scopes bind that name |
| Environment.SetAt | src/interpreter.rs:92-105 | the recursion of `set_variable` changes only its target scope: the innermost scope from 1 up that binds the name, else scope 0 |
| Environment.SetVariable | src/interpreter.rs:92-105 | `set_variable` writes the innermost local binding, else the global scope; stack size, cursor and every other scope are unchanged |
| Environment.WriteTargetUnique | src/interpreter.rs:92-105 | every write has exactly one target scope |
| Environment.SetThenGet | src/interpreter.rs:92-118 | after `set_variable(n, v)`, `get_variable(n)` gives `v` |
| Environment.SetThenGetOther | src/interpreter.rs:92-118 | a write leaves every other name reading as before |
| Environment.DeclareLocal | src/interpreter.rs:35-41 | `local n` binds `n` to `Nil` in the current scope and changes no other scope |
| Environment.DeclareLocalThenGet | src/interpreter.rs:35-41 | after `local n`, `n` reads as `Nil`, and inside a block a later write to `n` lands in the current scope |
| Environment.Push | src/interpreter.rs:46-47 | entering a block adds one empty innermost scope and keeps the invariant |
| Environment.Pop | src/interpreter.rs:51-52 | leaving a block drops the last scope, keeps the others and keeps the invariant |
| Environment.PopPush | src/interpreter.rs:45-53 | pop after push restores the environment |
| Environment.PushReadsThrough | src/interpreter.rs:111-118 | a fresh empty innermost scope hides no binding |
| Environment.SetInsidePush | src/interpreter.rs:92-105 | a write made inside a fresh block, after the block is left, equals the same write made outside it |
| Interpreter.IsTrue | src/interpreter.rs:79-84 | false exactly for `False` and `Nil` |
| Interpreter.TruthyValues | src/interpreter.rs:79-84 | zero, the empty string, native functions and `True` are all true |
| Interpreter.ApplyBinop | src/interpreter.rs:149-164 | an operand that is not a number gives `Nil`; on two numbers, comparisons give only `True` or `False` and arithmetic gives a number |
| Interpreter.ApplyBinopValues | src/interpreter.rs:152-161 | on two numbers, `+`, `-` and `*` give the sum, difference and product, `/` gives the host's quotient, and each comparison gives `True` exactly when it holds of the two numbers |
| Interpreter.ComparisonsAgree | src/interpreter.rs:156-161 | the six comparisons are consistent: `<` is flipped `>`, `<=` is flipped `>=`, `==` is symmetric, `~=` is its negation, `<=` is `<` or `==`, and `>=` is not `<` |
| Interpreter.Evaluate | src/interpreter.rs:125-167 | a successful evaluation makes exactly one native call per call node; a failed one fails with `NotAFunction` and makes fewer |
| Interpreter.EvalArgs | src/interpreter.rs:137-140 | one value per argument, each the value that argument evaluates to; the loop fails exactly when some argument does |
| Interpreter.EvalArgsCalls | src/interpreter.rs:138-140 | a successful argument loop makes the calls of its arguments in order, first argument first |
| Interpreter.EvalArgsStopsAtFirstFailure | src/interpreter.rs:138-140 | a failing argument loop makes the calls of the arguments before the first failing one, in order, then that one's, and evaluates no later argument |
| Interpreter.ArgCallsAppend | src/interpreter.rs:138-140 | the calls of two runs of arguments are those of the first run followed by those of the second |
| Interpreter.FirstFailure | src/interpreter.rs:138-140 | the position it gives is that of the first argument that fails: every earlier one evaluates |
| Interpreter.NoCallsNoTrace | src/interpreter.rs:125-134 | an expression without calls always evaluates and calls nothing |
| Interpreter.NotCallable | src/interpreter.rs:135-144 | calling a value that is not a native function fails after the callee's calls, before any argument is evaluated |
| Interpreter.CallOrder | src/interpreter.rs:135-141 | a call makes the callee's calls, then its arguments' calls left to right, then the native call, with each argument's value; the call's value is the native function's result |
| Interpreter.BinopLeftThenRight | src/interpreter.rs:146-148 | the left operand is evaluated before the right one, and a failing left operand stops the evaluation |
| Interpreter.BinopNonNumberIsNil | src/interpreter.rs:149-164 | operand values that are not two numbers give `Nil` |
| Interpreter.EvaluateAgrees | src/interpreter.rs:125-134 | evaluation depends only on what the variables read as |
| Interpreter.Exec | src/interpreter.rs:25-73 | a completed statement, a block included, leaves the number of scopes and the cursor as they were, so the invariant is kept |
| Interpreter.ExecList | src/interpreter.rs:48-50 | a completed statement list leaves the number of scopes and the cursor as they were |
| Interpreter.Loop | src/interpreter.rs:54-60 | a completed loop leaves the number of scopes and the cursor as they were, so the invariant is kept |
| Interpreter.ExecFuelMonotone | src/interpreter.rs:54-60 | once a statement completes without running out of fuel, more fuel gives the same result |
| Interpreter.LoopFuelMonotone | src/interpreter.rs:54-60 | the same for a loop |
| Interpreter.ExecListFuelMonotone | src/interpreter.rs:48-50 | the same for a statement list |
| Interpreter.IfRunsThenList | src/interpreter.rs:61-71 | `If` evaluates its condition once and then runs the then-list, whatever the condition gave |
| Interpreter.IfIgnoresElse | src/interpreter.rs:61-71 | the else-list is never run: replacing it changes nothing |
| Interpreter.ExecIfIntended | src/interpreter.rs:61-71 | the corrected `If`: a failing condition stops it with the condition's error, and a completed one keeps the number of scopes and the cursor |
| Interpreter.IfIntendedAgreesUnlessFalse | src/interpreter.rs:61-71 | the corrected `If` and the code's agree whenever the condition fails or is true |
| Interpreter.IfIntendedFalseRunsElse | src/interpreter.rs:61-71 | the corrected `If` with a false condition runs exactly the else-list |
| Interpreter.IfDefectExample | src/interpreter.rs:61-71 | `if false then x = 1 else x = 2 end` leaves `x = 1` as the code is written and `x = 2` when corrected |
| Interpreter.WhileStopsWhenFalse | src/interpreter.rs:55 | a loop whose condition is false runs nothing and changes nothing |
| Interpreter.WhileUnrolls | src/interpreter.rs:55-59 | a loop whose condition is true runs its body once and then is the same loop again |
| Interpreter.WhileRuns | src/interpreter.rs:54-60 | a loop passing through a run of environments, one iteration per step with the condition false at the end, ends at the last environment |
| Interpreter.WhileRunsFrom | src/interpreter.rs:54-60 | the same, from any step of the run |
| Interpreter.LoopStepUnrolls | src/interpreter.rs:55-59 | one iteration takes the loop from one environment of a run to the next |
| Interpreter.AssignThenRead | src/interpreter.rs:27-34 | an assignment fails exactly when its value does; afterwards the target reads as the value and every other name as before |
| Interpreter.SetLocalThenRead | src/interpreter.rs:35-41 | `local n` makes no call and leaves `n` reading as `Nil` |
| Interpreter.CallStatementKeepsEnv | src/interpreter.rs:42-44 | a call statement makes the call's native calls, discards the value and changes no variable |
| Interpreter.BlockOfAssignment | src/interpreter.rs:45-53 | a block holding only an assignment does exactly what the assignment does |
| Interpreter.GlobalFallback | src/interpreter.rs:92-105 | from inside a block, assigning a name no enclosing local scope declares creates it in the global scope, where it survives the block |
| Interpreter.LocalDoesNotLeak | src/interpreter.rs:35-53 | a local declared and assigned inside a block reads as the value there, and leaving the block restores the environment exactly |
| Interpreter.LocalExample | src/interpreter.rs:35-53 | `do local x; x = 5 end` run in a new environment completes and gives back exactly the new environment, so `x` reads as `Nil` |
| Interpreter.CountLoopExample | src/interpreter.rs:54-60 | `while x < 3 do x = x + 1 end` from `x = 0` stops with `x = 3`, given fuel for its three passes |
| Interpretor.New | src/interpretor.rs:10-15 | one empty global scope with the cursor on it; no name is bound |
| Interpretor.IsTrue | src/interpretor.rs:67-72 | false exactly for `False` and `Nil` |
| Interpretor.SetValue | src/interpretor.rs:74-87 | `set_value` writes the innermost local binding, else scope 0; the cursor is restored and no other scope changes |
| Interpretor.GetValue | src/interpretor.rs:89-96 | `get_value` searches innermost to outermost and defaults to `Nil` |
| Interpretor.SetValueThenGetValue | src/interpretor.rs:74-96 | after `set_value(n, v)`, `get_value(n)` gives `v` |
| Interpretor.Evaluate | src/interpretor.rs:98-140 | one native call per call node when evaluation succeeds, fewer and `NotAFunction` when it fails |
| Interpretor.BinopNonNumberIsNil | src/interpretor.rs:119-138 | a `Binop` with an operand that is not a number gives `Nil` |
| Interpretor.ExecStatement | src/interpretor.rs:17-65 | a completed statement, a block included, restores the number of scopes and the cursor |
| Interpretor.IfRunsThenList | src/interpretor.rs:53-63 | `If` runs the then-list whatever the condition gives, and never the else-list |

## Findings

| source | as written | input that shows it | evidently intended | confidence | as-written member | corrected member |
|---|---|---|---|---|---|---|
| src/interpreter.rs:61-71 | the else arm runs `instructions`, the then-list; `elseBlock` is bound and never read (same at src/interpretor.rs:53-63) | `if false then x = 1 else x = 2 end` from a new environment leaves `x = 1` | a false condition runs the else-list, leaving `x = 2` | high, not executed | Interpreter.IfDefectExample | Interpreter.IfIntendedFalseRunsElse |

## Left out

- `src/main.rs` is a demo driver that prints tokens. It is pure I/O and is not part of this model.
- `Number` is an `f32` in the source and an unbounded integer here, so addition, subtraction and multiplication are exact. Rounding, overflow to infinity, NaN and division by zero are not modelled.
- Interpreter.ApplyBinopValues: for `Div` it says only that the quotient is `Host.divide` of the two numbers. The source divides in `f32`, which the model does not have.
- Integer arithmetic is exact here, so identities such as `(a + b) - b == a` hold in the model. They fail for the source's `f32` arithmetic, where `(1.0 + 1e8) - 1e8` gives `0.0`. No property of the model depends on such an identity.
- The bodies of native functions (`RustFunction`) are foreign code. They are modelled as `Host.call`, a pure function of the function's identifier and its arguments. Their side effects show only as the order of entries in the call trace.
- The `panic!("NOT A FUNCTION")` of `evaluate` becomes the result `Abort(NotAFunction, calls)`. The environment at the moment of the panic is not returned.
- `While` need not terminate. Execution takes a fuel bound, and a loop still running when the fuel is spent stops with `OutOfFuel`. Nested loops share the remaining fuel. What a program would do beyond any fuel bound is not modelled.
- The tokenizer and statement tests in tests/lib.rs:11-112 target a newer parser: numbers, `Binop` tokens, `'` strings, `Token::Variable` and a statement builder. None of these is in the `src/parser.rs` modelled here.
- `HashMap` and `clone` mechanics become Dafny maps and value semantics.
- `Separator::new` and `Tokenizer::new` (src/parser.rs:26-39) are the start of the iteration at cursor 0 (`Parser.Separate`, `Parser.Tokenize`).
- The `Debug` printing of tokens is not modelled.
- The environment operations require only `stack_indice < |stack|`, which their indexing needs. The cursor invariant `stack_indice == |stack| - 1` is `Environment.Valid`:
  - `Environment.New` establishes it;
  - `Interpreter.Exec` preserves it;
  - the block lemmas assume it.
  The struct's fields are private, so no other environment can arise.
