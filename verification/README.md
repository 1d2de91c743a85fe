# IFQL query engine: a Dafny model

This project models the parts of the IFQL engine whose correctness rests on several functions
working together, and proves what they are for.

* **Row functions.** A lambda such as `(r) => r.value > threshold` is interpreted directly
  (`interpreter/`), or resolved against the scope it captures and compiled to a tree of typed
  evaluators (`compiler/`). `Semantic`, `Interpreter`, `Compiler`, `Resolve` and
  `CompilationCache` model the expression language, its static types, both evaluators, the three
  operator tables, the substitution of captured values and the memo trie of compiled functions.
  `Arithmetic` says what the operators compute, `Bodies` which bodies compile and which have a value,
  and `CompilerCorrectness` proves that compiling preserves meaning.
* **Query DAG.** `QueryDomain` and `QueryCompile` model how builtin calls make tables and how tables
  become a spec of operations and edges; `QuerySpec` models the depth-first topological sort that
  validates a spec and walks it.
* **Packrat parser.** `Packrat` models the runtime of the generated PromQL parser: savepoints, the
  memo table, and the recursive `parse…` methods.
* **Sort-merge join.** `MergeJoin` models join keys, their comparison, the merge loop, and the sort
  the loop depends on.
* **Streaming operators.** `Moments` (standard deviation, skew, covariance and Pearson correlation),
  `Windows` (fixed windows), `Percentile`, `StateTracking` and `Sample` model operators that keep
  state from one chunk of rows to the next, against definitions over the whole input.

Code that the engine runs as a loop or by updating fields is a method or a class here, proved against
a specification function; recursive and table-like code is functions and lemmas. `Options` holds the
option type, `Integers` truncating division, `Decimals` printed numbers, `Sequences` facts about
concatenation and `Strings` the byte-wise order of strings.

## Conventions

* Integers of the row language wrap at 64 bits and divide towards zero. Floating-point values of the
  row language are bit patterns, and arithmetic on them, conversions and regular-expression matching
  are functions of a `Platform` that both evaluators share. The statistics use exact reals.
* `Outcome` separates a result, a reported error and a run-time panic, so that a theorem can say which
  of the three happens. A missing static type is `NoType`.
* Go ranges over maps in no fixed order. Where that order can be seen (`joinKey.Less`,
  `compiledFn.validate`), the model covers every order.
* Square root and power are parameters of the read-out methods, constrained only at the point where
  they are used.

## Where the code differs from what it is said to do

Each of these is a lemma at a concrete input and a theorem that says exactly when the code is right.

* `Resolve` rejects every captured array and object, because `resolveValue` compares their types with
  kinds (`Resolve.CapturedArrayIsRejected`, `Resolve.ResolveSucceedsIff`), and leaves members of captured
  objects unresolved (`Resolve.CapturedMemberIsKept`, `Resolve.ResolvedIsClosedIff`).
* A compiled unary operator ignores its operator (`CompilerCorrectness.UnaryOperatorIgnored`,
  `UnaryExact`). A compiled object literal panics if a property has a kind that `eval` does not know, and
  accepts repeated keys (`NestedObjectPanics`, `RepeatedKeyIsKept`, `ObjectLiteralExact`). Indexing an array has no static type
  (`ArrayIndexHasNoType`, `MemberExact`). Logical operands that are not booleans are an error for the
  interpreter only (`NumberIsNoOperand`, `LogicalExact`).
* Comparing a negative integer with an unsigned one, `>` and `>=` answer as if it were the greater one
  (`Arithmetic.NegativeIsGreater`, `ComparisonIff`).
* The compilation cache looks only at the parameters, so a type map with further names can be answered
  with the result for another one (`CompilationCache.ExtraNamesAreConfused`, `AnswerIsExactIff`,
  `ClosedAnswerIsExactIff`).
* `Spec.Walk` says that an operation is visited only after all of its parents. The search starts at
  operations without parents, so a cycle that no root reaches is not reported and left out of the order,
  and a child of it is visited although that parent never is (`QuerySpec.HiddenCycleIsAccepted`,
  `OrderCompleteIffAcyclic`, `HiddenParentIsMissing`, `ParentsFirstIff`). A failed `prepare` leaves a partial
  list behind, children first, that the next `Walk` takes as it is (`QuerySpec.WalkAfterFailure`,
  `FailedWalkIff`).
* Operation identifiers are a function name followed by a counter; two names can share an identifier
  exactly when one is the other followed by a number, and some run then gives a spec with a duplicate
  (`QueryDomain.DigitNamesCollide`, `NamesCollideIff`, `AlwaysUniqueIffApart`).
* `joinKey.Less` is not an order with two or more tags, and a merge can then lose rows
  (`MergeJoin.TwoTagsCanLoseRows`, `MergesAllIffOneTag`); the sort before the merge helps only when no value
  column precedes a tag column (`ValueFirstMisleads`, `SortDeliversIffTagsLead`). `JoinsAllIff` puts both
  together.
* `Time.Truncate` rounds towards zero, so a time before the epoch can miss its first window
  (`Windows.NegativeTimeIsMissed`, `AssignedIsDueIff`, `MissesIff`), and long windows that clamp to the same bounds give a
  row to one builder several times (`LongWindowsRepeat`, `DueIsDistinctIff`, `AssignedIsDistinctIff`).

## Model

| member | source | states |
|---|---|---|
| `CompilerCorrectness.BinaryTablesAgree` | compiler/runtime.go:973-1866 | for every operator and pair of operands, the compiled and the interpreted operator tables hold the same function: the same value, panic or absence |
| `CompilerCorrectness.BinarySignaturesAgree` | interpreter/interpreter.go:1019-1441 | the interpreter's table and the compiler's table each have an entry for a pair of values exactly when the compiler has a signature for their kinds |
| `CompilerCorrectness.StaticSignaturesAgree` | semantic/binary_types.go:10-118 | the static type table and the compiled table accept the same operand kinds |
| `CompilerCorrectness.BinaryTypesAgree` | semantic/binary_types.go:10-118 | a value that an operator yields has the kind the static table gives it |
| `Arithmetic.IntArithmetic` | interpreter/interpreter.go:1019-1441 | sums, differences, products and truncated quotients of signed integers are the integer between -2^63 and 2^63 that differs from the exact result by a multiple of 2^64; a division by zero panics |
| `Arithmetic.UIntArithmetic` | interpreter/interpreter.go:1019-1441 | the same for unsigned integers between 0 and 2^64 |
| `Arithmetic.SignedIsUnique` | interpreter/interpreter.go:1019-1441 | there is just one such integer, and it is the exact result where that fits |
| `Arithmetic.UnsignedIsUnique` | interpreter/interpreter.go:1019-1441 | likewise for unsigned integers |
| `Arithmetic.Negation` | interpreter/interpreter.go:114-135 | minus on an integer and on a duration is zero minus it, wrapped |
| `Arithmetic.IntBody` | compiler/runtime.go:973-1866 | a body that adds, subtracts, multiplies or divides integers has that value both interpreted and compiled |
| `Arithmetic.ComparisonIff` | interpreter/interpreter.go:1019-1441 | a comparison of two numbers of any kinds answers as their values compare if and only if it does not ask whether a negative integer or an unsigned one is greater |
| `Arithmetic.NegativeIsGreater` | interpreter/interpreter.go:1019-1441 | a negative integer that is greater than an unsigned one, which is not greater than it |
| `Arithmetic.FloatArithmetic` | interpreter/interpreter.go:1019-1441 | floating-point operators are those of the platform, with the operands in order |
| `Arithmetic.StringOperators` | interpreter/interpreter.go:1019-1441 | strings compare by equality, and a regular expression matches on either side |
| `Arithmetic.BooleanOperators` | interpreter/interpreter.go:114-205 | `and`, `or` and `not` have their truth tables |
| `Arithmetic.IdentityRoundTrip` | compiler/runtime.go:43-86 | compiling the identity for the type of a value and evaluating it gives the value back if and only if it is neither a duration nor an array, which are errors |
| `Arithmetic.PropertyRoundTrip` | compiler/runtime.go:258-277 | a value becomes a property of an object if and only if it is no duration, array or object, which panic |
| `Arithmetic.IndexRoundTrip` | interpreter/interpreter.go:776-785 | the decimals below the length of an array find its elements in order, and every other decimal is an error |
| `CompilerCorrectness.CompiledType` | compiler/compiler.go:80-174 | the type of an evaluator is the static type of the expression it was compiled from |
| `Bodies.CompilesIff` | compiler/compiler.go:80-174 | a body compiles if and only if every node asked for its type has one, every literal has an evaluator and the static type table has an entry for every binary node; without a type it panics, without an evaluator or entry it is an error |
| `Bodies.ObjectTypeIff` | semantic/types.go:254-285 | an object literal has a type if and only if its values have one and no key ends with the nil type; a key has the type of its last property |
| `Bodies.EvaluatedCompiles` | compiler/compiler.go:32-174 | a body to which the interpreter gives a value compiles, if its literals have evaluators and its unevaluated operands compile |
| `Bodies.PanicNeedsDivision` | interpreter/interpreter.go:87-245 | only a body with a division in it can make the interpreter panic; anything else that goes wrong is an error |
| `Bodies.NeededIsBound` | interpreter/interpreter.go:87-245 | a body has a value only if every identifier that it cannot help evaluating is bound in some scope |
| `Bodies.MemberOfLiteral` | interpreter/interpreter.go:106-113 | reading back a property of an object literal gives the value it was built from, and any other name is an error |
| `CompilerCorrectness.CompilePreservesMeaning` | compiler/compiler.go:32-174 | whenever a supported expression compiles and the interpreter yields a value for it, the evaluator's type is the value's type and its method of that kind returns the same value, short-circuiting and mixed numeric operators included |
| `CompilerCorrectness.PropertiesPreserveMeaning` | compiler/runtime.go:443-471 | the same for the properties of an object literal, whatever was set before them |
| `CompilerCorrectness.CheckedSameOutcome` | compiler/runtime.go:515-970 | on bodies whose operand kinds fit, compiled and interpreted outcomes are equal, panics included, and neither is an error |
| `CompilerCorrectness.ObjectLiteralExact` | compiler/runtime.go:258-277 | where the properties of an object literal run, its compiled form yields the interpreted object if and only if no key is repeated and `eval` has a value for the kind of every property |
| `CompilerCorrectness.NestedObjectPanics` | compiler/runtime.go:258-277 | an object literal with an object in it, which the interpreter builds and the compiled form panics on |
| `CompilerCorrectness.RepeatedKeyIsKept` | interpreter/interpreter.go:230-245 | object literals with a repeated key, which the interpreter rejects and the compiled form evaluates to the last value |
| `CompilerCorrectness.UnaryExact` | compiler/runtime.go:610-650 | a compiled unary expression has the interpreter's outcome if and only if the operator is `not` on a boolean or minus on an integer or float |
| `CompilerCorrectness.UnaryOperatorIgnored` | compiler/runtime.go:610-650 | a concrete body that the interpreter rejects and the compiled form evaluates |
| `CompilerCorrectness.EvalReportsNoError` | compiler/runtime.go:515-970 | an evaluator returns a value or panics and never reports an error |
| `CompilerCorrectness.LogicalExact` | compiler/runtime.go:515-534 | a compiled logical expression has the interpreter's outcome if and only if its operands are booleans, as far as they are evaluated |
| `CompilerCorrectness.NumberIsNoOperand` | compiler/runtime.go:515-534 | a logical expression with a number, an error when interpreted and a panic when compiled |
| `CompilerCorrectness.MemberExact` | semantic/graph.go:462-468 | the compiled form of a member that the interpreter finds has its type and value if and only if the object is not an array |
| `CompilerCorrectness.ArrayIndexHasNoType` | semantic/graph.go:462-468 | an element of an array argument that the interpreter finds and the compiled function reports an error for |
| `CompilerCorrectness.EvalDecidedIff` | compiler/runtime.go:43-51 | `Eval` has one outcome, however the map of types is ranged over, if and only if no argument is missing while another is mistyped |
| `CompilerCorrectness.DeclareBinds` | compiler/compiler.go:10-16 | declaring the parameters gives every identifier an argument of its type |
| `CompilerCorrectness.DeclarePreservesMeaning` | compiler/compiler.go:10-16 | declaring the parameters does not change what a body means in any scope |
| `CompilerCorrectness.CompiledFunctionCorrect` | compiler/runtime.go:43-86 | `Compile` followed by `Eval` returns the interpreter's value for arguments of the announced types, or an error for a kind without a method |
| `CompilerCorrectness.CheckedFunctionExact` | compiler/runtime.go:43-86 | on checked bodies `Compile` followed by `Eval` is the interpreter, failures included |
| `Resolve.ResolveSucceedsIff` | interpreter/interpreter.go:562-753 | resolving succeeds if and only if every identifier outside the parameters and outside member expressions is bound to a scalar in the captured scope |
| `Resolve.CapturedArrayIsRejected` | interpreter/interpreter.go:687-753 | a closure over an array that the interpreter runs and `Resolve` rejects |
| `Resolve.ResolvedIsClosedIff` | interpreter/interpreter.go:562-685 | a resolved body mentions only parameters if and only if every member access is rooted at one |
| `Resolve.CapturedMemberIsKept` | interpreter/interpreter.go:562-685 | a member of a captured object, which resolves to itself and fails without the captured scope |
| `Resolve.LiteralRoundTrip` | interpreter/interpreter.go:687-753 | a value becomes a literal if and only if it is a scalar, and interpreting the literal gives the value back |
| `Resolve.CapturedIrrelevant` | interpreter/interpreter.go:368-377 | a body that mentions only its arguments means the same with and without the captured scope |
| `Resolve.ResolvePreservesMeaning` | interpreter/interpreter.go:553-753 | under any arguments, the resolved body alone and the original body in its captured scope have the same outcome, be it a value, an error or a panic |
| `Interpreter.InterpretIsCanonical` | interpreter/interpreter.go:208-245 | interpreting in a scope of well-formed values yields a well-formed value: every element of an array has its element type |
| `Interpreter.ArrayExact` | interpreter/interpreter.go:208-228 | an array literal has a value if and only if all its elements have values of one type, which are then its elements in order |
| `Resolve.ClosureCompiledCorrectly` | interpreter/interpreter.go:513-560 | resolving a closure, compiling it and evaluating it returns what calling the closure returns |
| `CompilationCache.Node.Grow` | compiler/compiler.go:218-226 | a missing child is added without disturbing the tree or what it keeps |
| `CompilationCache.Node.Child` | compiler/compiler.go:215-226 | the child for a type, found or made; the nodes stay a tree and keep what they held |
| `CompilationCache.Node.Compile` | compiler/compiler.go:208-228 | the answer is the one kept at the leaf of the parameter types, or a compilation that is kept there; no other leaf changes |
| `CompilationCache.Cache.constructor` | compiler/compiler.go:186-191 | a new cache holds nothing |
| `CompilationCache.Cache.Compile` | compiler/compiler.go:195-197 | one call is one step of the memo |
| `CompilationCache.FollowInjective` | compiler/compiler.go:214-217 | trails of the same parameters end at the same leaf only for types that agree on all of them |
| `CompilationCache.LeafIdentifiesTypes` | compiler/compiler.go:214-217 | type maps with exactly the parameter names reach the same leaf only when equal |
| `CompilationCache.SameLeafIff` | compiler/compiler.go:214-217 | two type maps with any keys reach the same leaf if and only if, for every parameter, both give it the same type or neither gives it one |
| `CompilationCache.AnswerIsCompilation` | compiler/compiler.go:208-228 | from a faithful memo, an answer is a direct compilation, and the memo stays faithful |
| `CompilationCache.EveryAnswerIsCompilation` | compiler/compiler.go:180-228 | over every sequence of calls, each answer is a direct compilation of its types, errors included |
| `CompilationCache.CacheAgreesWithCompiler` | compiler/compiler.go:180-228 | the same for the modelled compiler, from an empty cache |
| `CompilationCache.AnswerIsFirstCompilation` | compiler/compiler.go:208-212 | for type maps with any keys, an answer is the compilation of the first call that reached the same leaf, unless that one panicked |
| `CompilationCache.AnswerIsExactIff` | compiler/compiler.go:208-228 | a call is answered as the compiler would if and only if its type map, further names included, equals that of the first call at its leaf, when that one compiles |
| `CompilationCache.ClosedAnswerIsExactIff` | compiler/compiler.go:208-228 | for a body over the parameters and a first call that may also end in an error, a later call at its leaf is answered as the compiler would if and only if the two type maps are equal or the body does not compile |
| `CompilationCache.KeptForever` | compiler/compiler.go:208-212 | what a leaf keeps never changes |
| `CompilationCache.CompiledOncePerLeaf` | compiler/compiler.go:208-212 | over every sequence of calls on which the compiler does not panic, the leaves filled are those the calls reach and the compiler runs once for each |
| `CompilationCache.ExtraNamesAreConfused` | compiler/compiler.go:214-217 | two type maps with a further name for which the cache gives one answer and the compiler two |
| `QuerySpec.Spec.ComputeLookup` | query/query.go:103-112 | fails exactly on a duplicate identifier; otherwise the lookup is the map from identifiers to operations |
| `QuerySpec.Spec.LinkEdges` | query/query.go:114-134 | fails exactly on an edge that names an unknown operation, with the error of the first such edge and of its child before its parent; otherwise children and parents are the edges read both ways |
| `QuerySpec.Spec.DetermineParentsChildrenAndRoots` | query/query.go:114-143 | in addition, the roots are the operations no edge leads to |
| `QuerySpec.Spec.FindRoots` | query/query.go:136-142 | the roots are the operations without parents, in the order of the spec |
| `QuerySpec.Spec.Visit` | query/query.go:147-165 | terminates and keeps the list children first; on success lists exactly what is newly reachable; on failure there is a walk that repeats an operation; either way the end of the chain of first children is listed, and an endless unmarked chain fails without listing anything |
| `QuerySpec.Spec.VisitChildren` | query/query.go:154-160 | the same for the loop over the children of an operation |
| `QuerySpec.Spec.VisitRoots` | query/query.go:90-94 | fails exactly when a root reaches a cycle, leaving a list, children first, that it describes from the first such root on; otherwise the list read backwards is a topological order |
| `QuerySpec.Spec.VisitRoot` | query/query.go:90-94 | the visit from one root marks exactly what the roots so far reach, or fails at the first root that reaches a cycle |
| `QuerySpec.Spec.ReverseSorted` | query/query.go:95-98 | reverses the list in place |
| `QuerySpec.Spec.Prepare` | query/query.go:74-101 | succeeds if and only if identifiers are unique, edges known, there is a root, and no root reaches a cycle; then `sorted` is the topological order of what roots reach; otherwise it is a partial list, children first, and the error says which of these was violated first |
| `QuerySpec.Spec.Walk` | query/query.go:28-41 | calls the callback along a list that is already there, or else along the topological order of an accepted spec, on all of it unless a call fails |
| `QuerySpec.RejectedOnce` | query/query.go:74-143 | a spec that is not accepted has exactly one error: a duplicate identifier, the unknown end of the first bad edge, no roots, or a cycle, in this order |
| `QuerySpec.SettledIsOrder` | query/query.go:74-101 | a finished list read backwards holds exactly the operations reachable from roots, each once, every edge going forward |
| `QuerySpec.SettledHasNoCycle` | query/query.go:147-165 | a listed operation reaches no cycle |
| `QuerySpec.AcyclicFromRoot` | query/query.go:136-142 | in an acyclic spec every operation is reachable from a root |
| `QuerySpec.AcyclicIsAccepted` | query/query.go:74-101 | every non-empty acyclic spec with unique identifiers and known edges is accepted |
| `QuerySpec.OrderCompleteIffAcyclic` | query/query.go:74-101 | the order of an accepted spec is a permutation of all operations if and only if the spec is acyclic |
| `QuerySpec.ParentsFirstIff` | query/query.go:25-41 | every operation of the order comes after all of its parents if and only if whatever a root reaches has only parents that roots reach |
| `QuerySpec.HiddenCycleIsAccepted` | query/query.go:74-101 | an accepted spec with a cycle, which its order leaves out |
| `QuerySpec.HiddenParentIsMissing` | query/query.go:25-41 | in that order an operation comes without one of its parents |
| `QuerySpec.StaleParentsFirstIff` | query/query.go:28-41 | the list that a failed `prepare` leaves has parents first if and only if it holds nothing but roots |
| `QuerySpec.FailedWalkIff` | query/query.go:28-165 | in terms of the spec: the list that a failed `prepare` leaves has parents first if and only if the roots before the first one that reaches a cycle have no children and from that one the chain of first children never ends |
| `QuerySpec.WalkAfterFailure` | query/query.go:28-48 | a spec that fails to validate and is then walked without an error, a child before its parent |
| `QuerySpec.ForwardIsAcyclic` | query/query.go:147-165 | edges that all go forward in some list form no cycle |
| `QueryCompile.SpecBuilder.BuildSpec` | query/compile.go:149-167 | the recursive method that appends to a spec and marks what it visited computes the functional listing |
| `QueryCompile.BuildLists` | query/compile.go:149-167 | listing keeps every operation after its parents, adds only ancestors not yet listed, and one edge for every link |
| `QueryCompile.TableToSpec` | query/compile.go:142-147 | the spec of a table lists exactly the table and its ancestors, each once and after its parents, with one edge for every link |
| `QueryCompile.ListedIsAccepted` | query/compile.go:149-167 | such a listing is an acyclic spec with unique identifiers that `prepare` accepts |
| `QueryCompile.LinksAreDistinct` | query/compile.go:149-167 | with distinct parents no link gives rise to two edges |
| `QueryDomain.NamesCollideIff` | query/compile.go:280-288 | two function names can share an identifier if and only if one is the other followed by a number that does not start with 0 |
| `Decimals.DecimalParse` | query/compile.go:280-282 | printing the number that a digit string denotes gives the string back |
| `Decimals.ParseDecimal` | query/compile.go:280-282 | reading a printed counter gives the counter back |
| `QueryDomain.DigitNamesCollide` | query/compile.go:280-282 | two calls that share an identifier |
| `QueryDomain.Administration.Add` | query/compile.go:255-263 | a parent is added unless one with its identifier is there |
| `QueryDomain.FinalParentsSorted` | query/compile.go:329-334 | the parents of a call are those added, one for each identifier, in increasing order |
| `QueryDomain.ParentsAreCanonical` | query/compile.go:329-334 | the parents of a call do not depend on the order in which they were added |
| `QueryDomain.QueryDomain.Run` | query/compile.go:319-350 | a builtin call takes the next counter, and appends and returns its table; a failed call only takes the counter |
| `QueryDomain.QueryDomain.ToSpec` | query/compile.go:290-297 | the spec of a domain is the listing of its tables in turn |
| `QueryDomain.StepIsSound` | query/compile.go:319-350 | a call with earlier tables as parents keeps identifiers unique and parents earlier |
| `QueryDomain.RunIsSound` | query/compile.go:319-350 | so does every run of calls |
| `QueryDomain.BuildAllIsListed` | query/compile.go:290-297 | over a sound domain the listing is the calls' tables in call order with all their links |
| `QueryDomain.GeneratedSpecIsValid` | query/compile.go:290-297 | over every run of calls, failed ones included, whose names cannot collide, the spec lists each operation once after its parents, has each link as exactly one edge and unique identifiers, is acyclic, and is accepted by `prepare` when not empty |
| `QueryDomain.SpecOfCalls` | query/compile.go:131-167 | over every such run the spec has one operation for each call that does not fail, in call order, of that call's kind and with its name followed by the number of calls before it as identifier |
| `QueryDomain.EdgesOfCalls` | query/compile.go:149-167 | and the edges into the operation of a call come from exactly the identifiers of the parents that the call added |
| `QueryDomain.NoOtherEdges` | query/compile.go:149-167 | there are no other edges, and none twice |
| `QueryDomain.SucceedingIff` | query/compile.go:319-350 | the numbers listed are those of the calls that do not fail |
| `QueryDomain.SucceedingIncreases` | query/compile.go:319-350 | in increasing order |
| `QueryDomain.DigitFreeSpecIsValid` | query/compile.go:290-297 | the same for names that do not end in a digit |
| `QueryDomain.AlwaysUniqueIffApart` | query/compile.go:280-297 | every legal run of functions with given names yields a spec with unique identifiers if and only if no name is another one followed by a number |
| `Packrat.PlainMonotone` | promql/promql.go:4333-4394 | the result of an unmemoised parse does not depend on the recursion depth allowed to it |
| `Packrat.PlainIsProper` | promql/promql.go:4396-4743 | every failing parse leaves the offset where it began, and no parse moves it back or past the end |
| `Packrat.PlainIsMemoised` | promql/promql.go:4333-4394 | from any sound memo, wherever plain parsing returns, memoised parsing returns the same at the same depth and keeps the memo sound |
| `Packrat.MemoisedIsPlain` | promql/promql.go:4333-4394 | conversely, whatever memoised parsing returns is the result of a plain parse |
| `Packrat.PackratReturnsIff` | promql/promql.go:4333-4394 | memoised parsing terminates if and only if plain parsing does |
| `Packrat.PackratIsPlain` | promql/promql.go:4304-4394 | and then both give the same match flag and end offset |
| `Packrat.StoreIsSound` | promql/promql.go:4213-4223 | storing a plain result keeps every memo entry the result of a plain parse |
| `Packrat.AnyTakesRune` | promql/promql.go:4443-4456 | any rune but the error rune is consumed, and the match ends one width later |
| `Packrat.SingleClasses` | promql/promql.go:4458-4522 | a class of one character, one range or one Unicode class consumes a rune, in lower case where case is ignored, if and only if it is that character, between the ends of that range or in that class |
| `Packrat.ClassUnion` | promql/promql.go:4458-4522 | two classes put together match exactly what either of them matches |
| `Packrat.ClassInverted` | promql/promql.go:4458-4522 | an inverted class matches exactly the runes, other than the error rune, that the class does not |
| `Packrat.LitIff` | promql/promql.go:4575-4600 | a literal matches if and only if its runes stand one after another from the offset, in lower case where asked, and ends behind the last |
| `Packrat.LookAheadIsDoubleNot` | promql/promql.go:4430-4441 | a look-ahead is two negations |
| `Packrat.NotIff` | promql/promql.go:4614-4627 | a negation succeeds exactly where its expression fails, and moves nothing |
| `Packrat.OptionIsChoice` | promql/promql.go:4733-4743 | an option is a choice between its expression and nothing |
| `Packrat.PlusIsSequence` | promql/promql.go:4629-4649 | one or more is the expression followed by none or more of it |
| `Packrat.StarIsGreedy` | promql/promql.go:4715-4731 | a repetition ends at an offset at which its expression fails |
| `Packrat.Parser.Read` | promql/promql.go:4167-4184 | moves by the width of the current rune and loads the next |
| `Packrat.Parser.Restore` | promql/promql.go:4186-4195 | puts a savepoint back, although it compares offsets only |
| `Packrat.Parser.Recall` | promql/promql.go:4201-4211 | a hit replays the stored flag and end; a miss moves nothing |
| `Packrat.Parser.Remember` | promql/promql.go:4213-4223 | records the flag and the current end under the start offset |
| `Packrat.Parser.Parse` | promql/promql.go:4232-4291 | whenever plain matching of the start rule returns, the parser terminates with that flag and offset and a sound memo |
| `Packrat.Parser.ParseRule` | promql/promql.go:4304-4331 | is memoised matching of a rule, memo included |
| `Packrat.Parser.ParseExpr` | promql/promql.go:4333-4394 | is memoised matching of an expression, memo included |
| `Packrat.Parser.ParseNode` | promql/promql.go:4333-4394 | dispatches to the match of each expression kind |
| `Packrat.Parser.ParseAny` | promql/promql.go:4443-4456 | consumes one rune, failing at the end of the data |
| `Packrat.Parser.ParseCharClass` | promql/promql.go:4458-4522 | consumes one rune of the class, or of its complement when inverted |
| `Packrat.Parser.HeldByClass` | promql/promql.go:4458-4522 | the loops over characters, ranges and Unicode classes find a rune exactly when the class holds it |
| `Packrat.Parser.ParseLit` | promql/promql.go:4575-4600 | consumes a literal, case folded where asked, or restores the start |
| `Packrat.Parser.ParseChoice` | promql/promql.go:4539-4558 | takes the first alternative that matches |
| `Packrat.Parser.ParseSeq` | promql/promql.go:4680-4697 | matches all parts in order or restores the start |
| `Packrat.Parser.ParseStar` | promql/promql.go:4715-4731 | repeats an expression until it fails |
| `MergeJoin.RowKey` | functions/join.go:590-601 | the key of a row is its time and its strings by tag |
| `MergeJoin.EqualRowKeys` | functions/join.go:603-616 | rows compare equal exactly when their keys are equal |
| `MergeJoin.Equal` | functions/join.go:623-632 | keys compare equal exactly when times agree and every tag of the first agrees |
| `MergeJoin.Less` | functions/join.go:634-643 | the answer is one that some order of ranging over the tags gives |
| `MergeJoin.ReliableIffOneTag` | functions/join.go:634-643 | `Less` agrees with the sort order on all keys, however the map is ranged over, if and only if there is at most one tag |
| `MergeJoin.KeyBeforeTotal` | functions/join.go:634-643 | the sort order of keys is total |
| `MergeJoin.KeyBeforeTransitive` | functions/join.go:634-643 | and transitive |
| `Strings.BeforeIff` | functions/join.go:634-643 | a string is before another if and only if it is a proper start of it or has the smaller byte where they first differ |
| `MergeJoin.Advance` | functions/join.go:566-579 | finds the maximal group of rows with the key of the first |
| `MergeJoin.EmitBlock` | functions/join.go:524-548 | emits every pair of two groups once, left rows outermost |
| `MergeJoin.Join` | functions/join.go:517-562 | terminates on any two tables and emits rows that some outcomes of `Less` give |
| `MergeJoin.GroupIsWhole` | functions/join.go:566-579 | in a sorted table a group holds all rows with its key |
| `MergeJoin.MergeIsNestedLoop` | functions/join.go:517-562 | on key-sorted tables whose keys `Less` can tell apart, every merge emits the rows of the nested-loop join in the same order |
| `MergeJoin.NestedLoopExact` | functions/join.go:522-562 | the nested-loop join holds exactly the pairs with equal keys, each once |
| `MergeJoin.EmittedFromCells` | functions/join.go:517-562 | on any two tables, every emitted row has the time and, for exactly the tags of the left table, the strings of both rows it joins |
| `MergeJoin.EmittedAscends` | functions/join.go:524-548 | and emitted rows come by left row, then by right row |
| `MergeJoin.SameKeyIffCellsAgree` | functions/join.go:623-632 | keys compare equal if and only if the rows agree on the time and on the tags of the left table |
| `MergeJoin.EmittedAtMostOnce` | functions/join.go:517-562 | on any two tables a pair of rows is emitted at most once, and not at all unless its times and tags agree |
| `MergeJoin.JoinEmitsExactly` | functions/join.go:459-562 | where the join is an inner join, a pair of rows is emitted exactly once if its times and tags agree, and not at all otherwise |
| `MergeJoin.TwoTagsCanLoseRows` | functions/join.go:634-643 | two sorted tables with two tags whose merge can emit nothing although they share a key |
| `MergeJoin.MergesAllIffOneTag` | functions/join.go:517-562 | for any columns, every merge of two key-sorted tables is the nested-loop join if and only if there is at most one tag |
| `MergeJoin.SortDeliversIffTagsLead` | query/execute/block.go:747-759 | sorting by all columns in column order sorts every table by key if and only if no value column precedes a tag column |
| `MergeJoin.ValueFirstMisleads` | query/execute/block.go:961-972 | for any columns with a value before a tag, a table sorted by its columns but not by key, on which a merge goes the wrong way |
| `MergeJoin.JoinIsInnerJoin` | functions/join.go:459-562 | sorting two tables with the same tags, at most one, and any value columns, by the labels of the left one, whose tag precedes its values, and merging them gives the inner join |
| `MergeJoin.JoinsAllIff` | functions/join.go:459-562 | for any two lists of columns with the same tags, sorting by the labels of the left one and merging gives the inner join of all tables over them if and only if there is at most one tag and no value precedes it on the left |
| `MergeJoin.SortColumnsLead` | query/execute/block.go:747-759 | sorting the right table by the labels of the left one compares time first and its tags in the left table's order before any value |
| `Moments.MeanStep` | functions/stddev.go:112-121 | adding a value's share of its deviation to the mean gives the mean of all values |
| `Moments.CoDeviationShift` | functions/covariance.go:195-218 | how the two-pass sum of products changes with its centre |
| `Moments.CubedDeviationShift` | functions/skew.go:118-129 | how the two-pass sum of cubes changes with its centre |
| `Moments.CovariationStep` | functions/covariance.go:203-216 | the one-pass update of the sum of products gives the two-pass sum |
| `Moments.SkewStep` | functions/skew.go:120-127 | the one-pass update of the sum of cubes gives the two-pass sum |
| `Moments.CauchySchwarz` | functions/covariance.go:195-227 | the square of the sum of products is at most the product of the sums of squares, which are not negative |
| `Moments.SpreadIffVarying` | functions/covariance.go:195-227 | a column's sum of squares is zero if and only if the column is constant, and then so is its sum of cubes |
| `Moments.PearsonBound` | functions/covariance.go:219-227 | the correlation lies between -1 and 1 when both columns vary, is not a number otherwise, and is never infinite |
| `Moments.LineIsPerfect` | functions/covariance.go:219-227 | the correlation of a varying column with a multiple of it plus a constant is the sign of the multiple, in particular 1 with itself |
| `Moments.PerfectIffLine` | functions/covariance.go:219-227 | the correlation of two varying columns is 1 if and only if one is a positive multiple of the other plus a constant, and -1 if and only if it is a negative one |
| `Moments.StddevAgg.DoFloat` | functions/stddev.go:112-121 | after any chunks, the fields are the count, mean and two-pass sum of squares of all values |
| `Moments.StddevAgg.ValueFloat` | functions/stddev.go:125-130 | the root of the sample variance, whose argument is not negative; not a number below two values |
| `Moments.SkewAgg.Add` | functions/skew.go:120-127 | one value keeps the fields equal to the two-pass moments |
| `Moments.SkewAgg.DoFloat` | functions/skew.go:118-129 | after any chunks, the fields are the count, mean and two-pass sums of squares and cubes of all values |
| `Moments.SkewAgg.ValueFloat` | functions/skew.go:133-138 | not a number exactly below two values or on a constant column, and never infinite; otherwise it times the power of the sum of squares is the root of the count times the sum of cubes |
| `Moments.Covariance.Add` | functions/covariance.go:197-216 | one row keeps the fields equal to the two-pass moments |
| `Moments.Covariance.DoFloat` | functions/covariance.go:195-218 | after any chunks, the fields are the count, both means and the three two-pass sums of all rows |
| `Moments.Covariance.Value` | functions/covariance.go:219-227 | the sample covariance, or a correlation in [-1, 1] that is not a number exactly when a column is constant, and that times the root of the product of the sums of squares is the sum of products; not a number below two rows |
| `Windows.TruncateIsAligned` | query/execute/time.go:29-35 | truncation gives the multiple next to a time on the side of zero |
| `Windows.ContainedIff` | functions/window.go:209-244 | the grid windows that contain a time are exactly those numbered from one point up to another |
| `Windows.ClampIsIntersection` | functions/window.go:226-233 | clamped bounds contain exactly the times that both bounds contain |
| `Windows.DueExact` | functions/window.go:209-244 | the windows due to a time are, in grid order, the clamps of exactly the grid windows containing it, and none outside the global bounds |
| `Windows.FixedWindowTransformation.constructor` | functions/window.go:153-167 | the offset is the start's distance from the truncated start |
| `Windows.FixedWindowTransformation.GetWindowBounds` | functions/window.go:209-244 | for every interval and period for which the search ends, it returns the windows due, without the first one where the search starts past it, and none without a positive interval |
| `Windows.SearchEndsIff` | functions/window.go:216-241 | the search ends if and only if the interval is positive or longer than the period |
| `Windows.AssignedIsDueIff` | functions/window.go:209-244 | exactly the windows due are returned if and only if the window before the first one tried does not contain the time, which holds of every non-negative time; otherwise only the first is missing |
| `Windows.MissesIff` | functions/window.go:209-213 | the first window is missed if and only if the remainder of the start exceeds that of the time by more than the interval and by no more than interval and period together, inside the global bounds |
| `Windows.NegativeTimeIsMissed` | functions/window.go:210-213 | a time before the epoch that is due one window and given none |
| `Windows.ClampsMeetIff` | functions/window.go:226-233 | two grid windows clamp to the same bounds exactly when both cover the global bounds |
| `Windows.DueIsDistinctIff` | functions/window.go:226-238 | a time inside the global bounds is due no bounds twice if and only if no two grid windows cover the global bounds |
| `Windows.AssignedIsDistinctIff` | functions/window.go:209-244 | it is given no bounds twice if and only if no two of the windows assigned cover the global bounds |
| `Windows.LongWindowsRepeat` | functions/window.go:226-238 | windows that give a time the same bounds more than once |
| `Windows.TumblingAssignsOne` | functions/window.go:209-244 | when period and interval agree, a time inside the global bounds gets exactly one window, which contains it, or none where it is missed |
| `Windows.TumblingDisjoint` | functions/window.go:209-244 | windows of two times are equal or disjoint |
| `Windows.TumblingPartitions` | functions/window.go:182-207 | each builder receives, once and in order, exactly the rows that have its window |
| `Windows.FixedWindowTransformation.AppendRow` | functions/window.go:190-202 | a row is appended to the builder of each of its windows and to no other |
| `Windows.FixedWindowTransformation.Process` | functions/window.go:182-207 | every builder of the block's tags gains, in order, the rows assigned its bounds; builders of other tags do not change |
| `Percentile.SortedIsUnique` | functions/percentile.go:243-244 | sorted sequences of the same values are equal |
| `Percentile.SortSorts` | functions/percentile.go:243-244 | sorting yields the same values in order |
| `Percentile.ReadOutDefinedIff` | functions/percentile.go:246-257 | both indices are in range if and only if there is one value, or several and a quantile between 0 and 1 |
| `Percentile.ReadIsLinear` | functions/percentile.go:246-257 | between neighbouring sorted values the read-out runs along a straight line, and it passes through each of them |
| `Percentile.ReadOutIsLinear` | functions/percentile.go:246-257 | at the quantile (k + f) / (n - 1) the read-out is a fraction f of the way from the k-th sorted value to the next |
| `Percentile.ReadSplits` | functions/percentile.go:250-257 | the value read is above all sorted values up to its position and below all from it on |
| `Percentile.PercentileIsWellBehaved` | functions/percentile.go:243-260 | the percentile lies between the least and greatest value, which are those of 0 and 1, and grows with the quantile |
| `Percentile.OrderIsIrrelevant` | functions/percentile.go:235-260 | the percentile depends only on the values, not on their order |
| `Percentile.Interpolate` | functions/percentile.go:246-260 | the branches of the read-out give the interpolation at the quantile's position, or fail out of range |
| `Percentile.ExactPercentileAgg.DoFloat` | functions/percentile.go:235-237 | values of all chunks are kept |
| `Percentile.ExactPercentileAgg.ValueFloat` | functions/percentile.go:243-260 | the percentile of all values seen, however chunked and however often read; it fails exactly outside the defined range |
| `StateTracking.RunExact` | functions/state_tracking.go:258-275 | the run length counts exactly the maximal run of matches at the end |
| `StateTracking.TrackExact` | functions/state_tracking.go:251-291 | every emitted row has count and duration -1 outside the state; inside it, the length of the maximal run it ends and the truncated quotient of the time since that run's first row |
| `StateTracking.DurationIff` | functions/state_tracking.go:276-279 | the duration is d if and only if d whole units fit into the time since the first row of the run, counting backwards for a negative time; without a unit it is 0 |
| `StateTracking.StateTracker.Do` | functions/state_tracking.go:251-284 | one row keeps the variables and the output those of all rows seen; a row whose predicate fails is skipped without ending a run |
| `StateTracking.StateTracker.DoTime` | functions/state_tracking.go:249-286 | however the rows are chunked, the output is that of the whole run of rows |
| `Sample.StridedExact` | functions/sample.go:164-172 | the selected indices are exactly those below the total that are whole steps from the start |
| `Sample.StridedIncreases` | functions/sample.go:164-172 | they increase, so each is selected once |
| `Sample.ChunkContinues` | functions/sample.go:164-172 | a chunk's own indices, from the offset the last chunk left, continue the selection over all rows |
| `Sample.SteppingEndsIff` | functions/sample.go:167-169 | the loop over a chunk ends if and only if N is positive or the offset lies past the chunk |
| `Sample.SampleSelector.Reset` | functions/sample.go:131-137 | sampling starts at the position, or at the number drawn for a negative one |
| `Sample.SampleSelector.SelectSample` | functions/sample.go:164-172 | over any chunks whose loop ends, the rows selected so far are start, start + N, start + 2N, … below the number of rows seen |

## Left out

- Statement bodies, calls, function values and default arguments of row functions: block bodies copy local declarations without re-typing them, so the static types the compiler reads are not those of the body.
- In-place rewriting by `resolveIdentifiers`: the rewritten tree is the result of a function; sharing of nodes between the original and the copy is not modelled.
- The static types that array and object expressions cache and that a copy keeps: types are computed afresh, so a body whose type was asked for before its parameters were declared is not modelled.
- Scopes that are changed while a body runs: `arrowFunc.Call` is modelled by a scope that holds the arguments in front of the captured ones.
- Floating-point rounding, NaN and infinities in the statistics, and the integer variants `DoInt` and `DoUInt`, which convert and then do the same.
- Moments.StddevAgg.ValueFloat: the square root is a parameter.
- Moments.SkewAgg.ValueFloat: the square root and the power 3/2 are parameters, the latter zero exactly at zero.
- Moments.Covariance.Value: the square root is a parameter, correct at the product of the two sums of squares.
- 64-bit overflow of times in the window arithmetic: times are unbounded integers.
- Windows.FixedWindowTransformation.GetWindowBounds: intervals and periods for which the search does not end (Windows.SearchEndsIff) are excluded; that a falling time wraps around at 64 bits is not modelled.
- Sample.SampleSelector.SelectSample: chunks on which the loop does not end (Sample.SteppingEndsIff) are excluded.
- Packrat.Parser.Parse: semantic actions, code predicates, throw and recovery, error lists, statistics and the limit on expressions play no part; the ghost depth bounds only parses that the plain parser finishes too.
- MergeJoin.Join: evaluation of the join function on a pair of rows, and its errors; emitted rows are pairs of row numbers with their key.
- Block builders, allocation, datasets, triggers and watermarks: blocks are sequences of rows.
- The planner, push-down rules, storage reader, HTTP server, REPL, tracing, the t-digest percentile and all JSON encodings.
- Group, set, shift, limit, sum, count, spread, difference, derivative and integral: they would add only easy members.
