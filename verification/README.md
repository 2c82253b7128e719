# SigScheme in Dafny

SigScheme is a Scheme interpreter written in C. This project models its most
intricate algorithms in Dafny and proves what they promise, for all inputs, all
heaps and all runs. Nothing here executes the interpreter: the models follow the
C code branch by branch, in the form the C code has (a context or a port whose
functions update it is a class, an in-place algorithm works on an explicit cell
heap or an array, a loop is a loop with its invariants), and each is proved against
an independent definition of what it is for.

The build options assumed are those with strict argument and encoding checks,
R7RS, hygienic macros, vectors and nested (escape-only) continuations.

| files | what they model |
|---|---|
| SyntaxRules, PatternMeaning, TemplateMeaning, RuleMeaning | what section 4.3.2 of R7RS says of patterns and templates as they are written, and that compiled rules mean just that |
| Forms, Patterns, PairHeap, Matcher, BindingLists | `syntax-rules` matching: a declarative pattern relation, and the matcher that builds nested binding lists by relinking cells in place |
| Compiler, CompilationContext, Nesting, Templates, Transcriber, RoundTrip | the pattern and template compiler and what it guarantees about matches, the transcriber driven by an index vector, and the match/transcribe round trip |
| Environments, Expander | hygiene: far symbols, identifier lookup and comparison, and a whole macro expansion |
| Collector | the mark-and-sweep collector, heap growth and the table of protected variables |
| DynamicExtent, Continuations, DynamicContexts | dynamic-wind, escape-only continuations, exception handlers, guard and parameterize as one state machine, and a reference in which every active call has its handlers and parameter values |
| Quasiquote | quasiquotation by copy-on-write list and vector translators |
| Cycles, Unwrapping, Unwrapper | lists and far symbols in cyclic data (Floyd's algorithm), and the copy that unwraps far symbols |
| Labels, Resolution, Reading | datum labels: placeholders and the worklist that replaces them |
| ModuleTables, Namespaces | the module hash table, qualified identifiers, and the isolation of the builtin namespace |
| Codecs, CodecTables, MultibytePorts | UTF-8 and EUC-JP against tables of byte ranges and sums, strings and ports in them |
| Fixnums, Reductions | fixnum arithmetic, `expt`, `gcd`, `lcm` and `exact-integer-sqrt` with exact overflow |

Main results, hardest first.

* `syntax-rules` means what section 4.3.2 of R7RS says of the patterns and templates
  as written. A rule is accepted exactly if its pattern and template are ones
  (`RuleAccepted`); it matches exactly the forms that the pattern matches, a literal
  only an identifier that means the same, and binds each variable in the only way; its
  result is the only instance of the template, a variable standing for its form wherever
  it occurs, whenever every ellipsis ends with its shortest variable, as with equal
  lengths or without nested ellipses (`RuleMeans`, `ExpansionMeans`, `LiteralMeans`).
* Matching is exact: on every finite form both passes of `match` succeed iff the
  pattern relation holds, every variable gets its unique nested binding list in
  source order, and no pair of the form is written (`MatchContext.Match`); it is an error
  exactly when the first test that fails, in the order of the text, compares a literal
  with an identifier that strayed (`FirstDecides`).
* Compiling a pattern also as the template, matching and transcribing rebuilds the
  input, for every pattern without literals and underscores whose ellipses have
  variables (`MatchTranscribe`). For any lengths an ellipsis ends with the shortest of
  its variables that are under no other ellipsis, unless one hidden by an inner ellipsis
  ends before (`TimesIsShortest`, `PlainTimes`); every match of a compiled rule can be
  transcribed if the lengths under each ellipsis agree, or if no ellipsis is under
  another (`MatchFitsTemplate`), but not every match otherwise (`InnerHidesEnd`).
* What an expansion inserts keeps its meaning wherever the expansion is put and
  whatever is bound around it, with two exceptions, exactly known (`Hygiene`). An
  identifier that another macro captured outside all frames, in a toplevel macro used
  at another toplevel, is looked up at the use (`CapturedAtUse`). A qualified
  identifier is inserted itself, and every frame above the definition that binds it
  captures it (`QualifiedMeans`, `QualifiedCaptured`). A lookup answers the innermost
  frame and the position that bind the identifier, or what the module and the wrapped
  identifier say, and nothing else (`LookupResolves`). Literals are compared by what
  they denote, or it is an error, exactly for identifiers captured deeper than the
  definition (`IdentifierEqualMeans`, `ExpandHygienicMacro`).
* A collection keeps exactly the cells that a chain of fields leads to from the stack,
  a protected variable, the elements of a new vector or the symbol table; every cell is
  allocated or on the freelist once; allocation fails exactly when the heap is exhausted
  (`MarkAndSweep`, `Alloc`, `LiveIsReached`).
* In every run of dynamic-wind, call/cc, escapes, handlers, parameterize and guard
  the handlers, the parameter values, the handlers called and the thunks run are those
  of a reference machine without an extent, in which each active call has its own
  handlers and values (`RunsAgree`); they are functions of the dynamic extent; an escape leaves
  each crossed frame once, innermost first, and lands in the extent of its call/cc; a
  guard without a matching clause restores the raise (`StepKeeps`, `EscapeLands`,
  `GuardRestores`). Swapping parameter values twice restores them if and only if no
  parameter is bound twice (`SwapTwiceRestores`).
* The quasiquote translators compute the recursive definition at every level, and by
  that definition a form means a datum exactly if it is a well-formed template, and then
  the template with its holes filled (`Internal`, `DatumMeans`).
* `wrappedp` terminates on every graph and finds a far symbol iff one is reached
  along branches off the path, although it remembers only list heads (`Wrappedp`,
  `ContainsFarSymbol`). The unwrapping copy ends on every graph too, writes no old
  cell, holds the same as the object at every place but for far symbols (`SamePlaces`),
  shares exactly what has none and no tail of a copied list but the last
  (`SharedExactly`, `TailSharedExactly`), and leaves a far symbol exactly if one is
  reached from the object through a cycle (`UnwrappedExactly`). `scm_length` classifies
  every cdr chain exactly (`Length`).
* Reading a datum with labels fails exactly for an undefined reference or a label
  that stands for itself, and otherwise gives the graph that the text spells, each
  reference being the object of the newest label of that number before it, without
  placeholders (`ScmRead`).
* No REPL definition, assignment or import changes what a module sees or the value
  of a builtin (`BuiltinsIsolated`, `ReplChangesNothing`); every definition and
  assignment is seen by exactly those who share the location (`BuiltinSeen`,
  `DefineIsShared`, `ModuleSetSeen`).
* The codecs scan, decode and encode exactly the characters of tables of byte ranges,
  with their numbers as sums (`ScanIs`, `DecodeIs`, `EncodeIs`). A port gives on any
  stream the character of the tables that the stream begins with, the end, or an error,
  exactly when (`PeekedIs`).
  Every sequence of non-NUL characters written to a port is read back (`RoundTrip`
  of MultibytePorts). On any stream peeking leaves what it found, exactly if that is
  not NUL (`PeekedStays`). Decoding then encoding is the identity exactly for the
  shortest form: the UTF-8 scanner accepts overlong forms (`Utf8DecodeEncode`).
* `expt` by squaring overflows iff the power is out of range; `gcd`, `lcm` and
  `exact-integer-sqrt` are exact with no overflow inside a step (`Expt`, `Gcd`, `Lcm`,
  `ExactIntegerSqrt`), and a reduction over several arguments overflows iff one of
  its intermediate results is out of range (`GcdReduce`, `LcmReduce`).

## Model

| member | source | states |
|---|---|---|
| RuleMeaning.RuleAccepted | src/macro.c:342-355 | A rule compiles iff, as written, its pattern is one (an ellipsis after an element, one a list, in a vector only at the end), no variable occurs in it twice, and its template is one: no variable under fewer ellipses than in the pattern, and before each ellipsis one under exactly as many |
| RuleMeaning.RuleMeans | src/macro.c:729-1200 | A compiled rule matches exactly the forms that the pattern as written matches, where a literal matches only an identifier that is the same; and whenever every ellipsis ends with its shortest variable, as with equal lengths or without nested ellipses, its instance is the only instance of the template as written |
| RuleMeaning.ExpansionMeans | src/macro.c:242-269 | An expansion by a rule is the instance of its template as written for the only bindings with which its pattern as written matches the arguments, what is inserted renamed |
| RuleMeaning.EqualZips | src/macro.c:1183-1196 | With equal lengths under each ellipsis every ellipsis ends with its shortest variable |
| RuleMeaning.FlatZips | src/macro.c:1183-1196 | and so it does for any lengths in a template without nested ellipses |
| PatternMeaning.Accepted | src/macro.c:498-669 | A pattern compiles iff it is one without a variable twice; the table then has the identifiers that are neither ellipsis nor literal, underscores without a name, each with the number of ellipses over it |
| PatternMeaning.PatternEnters | src/macro.c:505-669 | The same for a part of a pattern, from any table without duplicates |
| PatternMeaning.CompiledPatternMeans | src/macro.c:648-669 | The compiled pattern matches iff the pattern as written does, and the bindings of the table are the only environment with which it does: a literal is compared and binds nothing, a variable under an ellipsis has one binding for each element |
| PatternMeaning.PatternMeans | src/macro.c:505-669 | The same for a part of a pattern and any environment |
| TemplateMeaning.TemplateAccepted | src/macro.c:498-705 | A template compiles iff it is one for the levels of the table, and has a controlling variable iff one of its variables is under as many ellipses as in the pattern; the form (... template) escapes the ellipsis |
| TemplateMeaning.RepeatsIs | src/macro.c:1151-1200 | A subtemplate before an ellipsis is repeated as often as its shortest repeated variable has bindings |
| TemplateMeaning.InstanceMeans | src/macro.c:1037-1149 | The transcription is the only instance of the template as written: a variable stands for its form at every place, under any number of further ellipses, an element before an ellipsis for one instance a repetition, any other identifier for itself renamed |
| Patterns.MatchIsRelation | src/macro.c:766-844 | The declarative relation between a pattern, a form and bindings holds for exactly one list of bindings, the one the recursive matcher computes, and for none when that fails |
| Patterns.PairIsRelation | src/macro.c:780-803 | The same for list patterns: one ellipsis anywhere with patterns and a dotted tail after it, or none |
| Patterns.RepComplete | src/macro.c:859-946 | Every way of splitting a list between an ellipsis and the patterns after it is the one found by counting pairs |
| Patterns.RepSound | src/macro.c:859-946 | What the matcher finds for an ellipsis is such a split |
| Patterns.JudgeIsMatch | src/macro.c:766-844 | The verdict of the matcher is a match iff the form matches |
| Patterns.FirstDecides | src/macro.c:766-844 | The verdict is that of the first test that fails in the order of the text, the length of a vector before its elements: an error iff a literal strays and everything before it matches |
| Patterns.StrayComparison | src/macro.c:831-838 | An error of the matcher comes from comparing some literal of the pattern with some identifier of the form |
| Matcher.MatchContext.constructor | src/macro.c:733-742 | A match starts without collecting |
| Matcher.MatchContext.Match | src/macro.c:729-752 | The verdict is that of the specification; a result exists iff the relation holds and is the stack of binding lists of the unique bindings; all pairs of the form and of older lists are as they were |
| Matcher.MatchContext.MatchRec | src/macro.c:766-844 | Verdict and pushed bindings are those of the specification, in both passes |
| Matcher.MatchContext.MatchReppat | src/macro.c:859-946 | The same for an ellipsis in a list, with patterns and a tail after it |
| Matcher.MatchContext.MatchVector | src/macro.c:805-830 | The same for a vector pattern with an ellipsis at its end |
| Matcher.MatchContext.MatchRepvec | src/macro.c:901-946 | The same for an ellipsis in a vector |
| Matcher.MatchContext.MatchPvars | src/macro.c:882-900 | A repeated variable is bound to the matched elements in order: to the form itself when nothing follows the ellipsis, otherwise to a new list |
| Matcher.MatchContext.MatchRepeats | src/macro.c:911-945 | Repetitions of a pattern give, per variable, the list of its bindings in each repetition, in order |
| Matcher.MatchContext.MatchElements | src/macro.c:911-931 | The loop over the elements keeps the accumulated bindings of the elements passed and stops at the first that does not match |
| Matcher.MatchContext.MergeSubs | src/macro.c:956-971 | Each cell of the new stack is moved onto the accumulator of its variable; nothing else is written |
| Matcher.MatchContext.ReverseX | src/macro.c:1347-1362 | In-place reversal: the same cells in reverse order, only their cdrs written |
| Matcher.MatchContext.CountObjPairs | src/macro.c:847-856 | The number of pairs on the spine of the form |
| BindingLists.ReadBinding | src/macro.c:1100-1120 | A binding list in the heap of pairs, read to the depth of its variable, is the nested list of forms that it stands for |
| BindingLists.MatchAndRead | src/macro.c:729-752 | The verdict of match, and the list it returns read back as the bindings of the variables |
| Compiler.CompiledPat | src/macro.c:497-705 | A compiled pattern is well formed and its variables are exactly those added to the table, with their number in each ellipsis |
| Compiler.CompiledVec | src/macro.c:575-635 | A compiled vector pattern has at most one ellipsis, at its end |
| Compiler.CompiledTmpl | src/macro.c:497-705 | In a compiled template every variable is under enough ellipses and every ellipsis has a variable that controls it |
| CompilationContexts.CompilationContext.constructor | src/macro.c:448-466 | The ellipsis is escaped iff it is one of the literals |
| CompilationContexts.CompilationContext.CompilePattern | src/macro.c:497-705 | The imperative compiler gives the pattern and the table of the compiling function, literals kept and all other identifiers entered (PatternEnters, PatternMeans), and counts the variables entered; it fails iff that fails |
| CompilationContexts.CompilationContext.CompilePatternList | src/macro.c:506-574 | The loop over a list pattern: patterns after one ellipsis, misplaced and repeated ellipses rejected |
| CompilationContexts.CompilationContext.EllipsisAtEnd | src/macro.c:585-608 | The scan of a vector pattern accepts an ellipsis at the end only |
| CompilationContexts.CompilationContext.CompileTemplate | src/macro.c:497-705 | The imperative compiler gives the template of the compiling function and counts the controlling variables; it fails iff that fails |
| CompilationContexts.CompilationContext.CompileTemplateList | src/macro.c:506-574 | The loop over a list template: a repeatable subtemplate without a controlling variable is rejected |
| CompilationContexts.CompilationContext.FindIndex | src/macro.c:1364-1377 | The first position of a variable, or -1 |
| CompilationContexts.CompilationContext.CompileOne | src/macro.c:342-355 | One rule: pattern, then template with the variables of the pattern, from an empty table; a pattern or template that is the ellipsis itself is refused |
| Templates.TimesBound | src/macro.c:1151-1200 | The loop of a repeatable subtemplate ends: there is a first repetition that is not instantiated, at the latest past the end of the longest binding |
| Templates.StopsAtEnded | src/macro.c:1107-1115 | The level reported as exhausted is that of a variable of the template whose index is one past its end |
| Templates.EndedTogether | src/macro.c:1183-1193 | When all variables that an ellipsis repeats have ended, a subtemplate stops there iff it has one of them, through any inner ellipses |
| Templates.TimesIsShortest | src/macro.c:1183-1196 | Whatever the lengths are, an ellipsis that ends repeats as often as one of its variables has bindings, and no more often than any that is under no inner ellipsis: if the shortest is one of those, as often as that |
| Templates.PlainTimes | src/macro.c:1183-1196 | An ellipsis without another under it always ends, with its shortest variable |
| Templates.FlatRuns | src/macro.c:1104-1121 | No lengths make a template without nested ellipses meet a variable past its end |
| Templates.InnerHidesEnd | src/macro.c:1108-1109 | With nested ellipses some do: an inner ellipsis ends before a variable that has ended is looked at, and the next repetition finds it past its end, where the source has an assertion |
| Nesting.CompiledDepths | src/macro.c:649-659 | The levels recorded for the variables are the numbers of ellipses over them in the pattern |
| Nesting.CompiledVars | src/macro.c:670-701 | Each variable in a compiled template has the level of the table |
| Nesting.MatchNested | src/macro.c:859-946 | The binding of a variable under n ellipses is a list of lists of forms, n deep |
| Nesting.EqualLengthsRun | src/macro.c:1038-1196 | For bindings of those depths, equal lengths under each ellipsis are enough to transcribe, and every ellipsis repeats as often as any of its variables has bindings |
| Nesting.MatchFitsTemplate | src/macro.c:342-355 | Every match of a compiled rule has those depths, and is transcribed if its lengths agree or no ellipsis of the template is under another |
| Transcriber.TranscriptionContext.Transcribe | src/macro.c:1011-1035 | For bindings nested as the template says, of any lengths, the transcription is the recursive instantiation, unless a variable is met past its end, where the source has an assertion; every identifier it inserts has been wrapped |
| Transcriber.TranscriptionContext.TranscribeRec | src/macro.c:1037-1149 | Whatever the indices leave of each variable: the instance, or the level of the first ended variable that is met from left to right |
| Transcriber.TranscriptionContext.TranscribeReppat | src/macro.c:1151-1200 | The loop of a repeatable subtemplate ends with the first repetition in which a variable that it repeats has ended, and passes on an ellipsis further out that has |
| Transcriber.TranscriptionContext.TranscribeItems | src/macro.c:1073-1098 | Elements and splices of a list template in order, up to its last cdr |
| Transcriber.TranscriptionContext.Reference | src/macro.c:1099-1120 | Following the index vector as far as the variable is deep, whatever the level of the template, selects its binding, or reports the exhausted level; InstanceMeans says that this is its form at every place |
| Transcriber.TranscriptionContext.Wrap | src/macro.c:1123-1141 | An identifier is wrapped once, when first met |
| RoundTrip.SameTemplate | src/macro.c:497-705 | Compiling a pattern again as a template gives its mirror image, fails exactly when an ellipsis has no variable |
| RoundTrip.Rebuild | src/macro.c:766-844 | Instantiating that template with the bindings of a match rebuilds the form, whatever is renamed, and no variable is met past its end |
| RoundTrip.MatchInstantiate | src/macro.c:498-705 | The template compiles iff every ellipsis has a variable, and then its instance for a match is the form that matched |
| RoundTrip.MatchTranscribe | src/macro.c:729-1200 | Compile with the imperative compiler, match with the matcher in the heap of pairs, transcribe its bindings with the imperative transcriber: every form that matches a pattern without literals and underscores comes back |
| RoundTrip.NamesApart | src/macro.c:648-662 | A table of pattern variables has no duplicates |
| Environments.WrapKeepsMeaning | src/env.c:250-271 | The identifier made for an identifier means in an extension of the environment what the identifier means in the environment, even where the identifier itself is bound, iff no new frame binds the identifier made, which for a qualified one is the identifier itself; it belongs to the same toplevel in any case |
| Environments.QualifyKeepsMeaning | src/env.c:142-149 | A symbol qualified by a toplevel means in an environment what the symbol means there iff no frame binds the qualified identifier |
| Environments.PushKeepsWf | src/env.c:285-298 | Binding identifiers captured below keeps an environment well formed |
| Environments.IdentifierEqualMeans | src/env.c:221-243 | An error iff one of two different identifiers was captured deeper than the definition and is not bound, while the frames above do not bind the one of the use. Otherwise true iff the literal in the environment of the definition and the identifier in that of the use denote the same location or the same toplevel symbol, except for one and the same identifier captured deeper than the definition: it equals itself, though it denotes nothing there |
| Environments.IdentifierEqualWraps | src/env.c:221-243 | Unless that is the error, it agrees with comparing the wrapped literal without allocating the wrapper, for a qualified literal if no frame above the definition binds it |
| Environments.QualifiedLiteral | src/env.c:221-243 | A qualified literal is compared with every identifier as wrapping it would be iff no frame above the definition binds it; otherwise it is found to differ from itself |
| Environments.StrayThoughSame | src/env.c:454-455 | A literal and an identifier that denote the same, compared with the error |
| Environments.NotBelow | src/env.c:433-470 | A far symbol is not bound at or below the depth where it was captured |
| Environments.FramePosIs | src/env.c:473-495 | The position found is that of the first of the formals that is the identifier, or the one past the formals for the rest parameter |
| Environments.InFramesIs | src/env.c:185-198 | The location found is that position in the innermost frame that binds the identifier; none is found iff no frame does |
| Environments.LocationsApart | src/env.c:473-495 | Different identifiers bound by the frames have different locations |
| Environments.LookupResolves | src/env.c:376-470 | A lookup answers the innermost binding in the frames, else the location in the module of the toplevel, else the same for the identifier that was wrapped where it was captured, or that there is none, or bad scope: each exactly when |
| Environments.LookupFrame | src/env.c:473-495 | The loop over formals and actuals gives the position of the identifier in a frame, the rest parameter included, which FramePosIs characterises |
| Environments.LookupNFrames | src/env.c:185-198 | The loop finds the binding in the innermost of the first n frames |
| Environments.LookupEnvironment | src/env.c:376-420 | Lookup through frames, module and the wrapped identifier, as the recursive definition |
| Environments.LookupFarSymbol | src/env.c:433-470 | Lookup of a far symbol in the frames where it was captured |
| Environments.IdentifierEqualP | src/env.c:221-243 | The branches and lookups compute the comparison or the error |
| Expander.ExpandHygienicMacro | src/macro.c:242-269 | The matcher tries the rules on the arguments in the heap of pairs, and the first that is not refused decides: an error if an identifier strayed, else its template instantiated with an identifier of its own for each that it inserts; "no matching pattern" iff all are refused |
| Expander.InsertedMeans | src/macro.c:1123-1141 | What is inserted for an identifier means what the identifier means at its origin (for a symbol of a macro defined outside all frames the toplevel of the definition, for any other identifier the environment of the definition below the use) iff no frame above the definition binds what is inserted |
| Expander.RuleMatches | src/macro.c:262-267 | A compiled rule is refused, strays or matches as the matcher says; a match has the depths that the template needs, and can be transcribed if the lengths agree or no ellipsis is under another |
| Expander.LiteralMeans | src/macro.c:262-267 | A literal is compared in the environment of the definition with the identifier in that of the use: it strays exactly when, and otherwise matches iff both mean the same |
| Expander.WrongContextThoughSame | src/macro.c:262-267 | A use of a macro by another, bound further in, that is an error although the literal and the identifier denote the same |
| Expander.Hygiene | src/macro.c:242-269 | An inserted identifier belongs at the use, under any further bindings, to the toplevel where it belonged at the definition iff it is not one that another macro captured outside all frames, in a toplevel macro used at another toplevel. It means what it meant there (such a one: at the use) iff no frame above the definition binds what is inserted; for an unqualified identifier only a frame inside the expansion can |
| Expander.QualifiedMeans | src/env.c:258-262 | A qualified identifier that is inserted means what it meant at the definition iff no frame between that and its place binds it, in any environment |
| Expander.QualifiedCaptured | src/env.c:258-262 | An expansion in which one does: let binds qualified identifiers too (src/syntax.c:616), against what the comment at the cited lines says |
| Expander.CapturedAtUse | src/macro.c:1127-1134 | An expansion in which that happens: the identifier is a location of the library of the macro, and what is inserted is a variable of the REPL |
| Expander.InsertedIsRenamed | src/macro.c:1123-1141 | No identifier of a template is inserted without being wrapped |
| Collector.ClosedSetReaches | src/storage-gc.c:644-715 | A marked set closed under references holds everything the roots reach |
| Collector.KidsAreFields | src/storage-gc.c:644-715 | What a cell refers to is what its fields hold |
| Collector.Storage.HeldIsRoot | src/storage-gc.c:864-900 | The roots are the cells on the stack and those that a protected variable, an element of a vector being made or the symbol table refers to |
| Collector.Storage.LiveIsReached | src/storage-gc.c:864-900 | A cell is reached from the roots iff a chain of fields leads to it from one of those |
| Collector.Storage.LiveNotSpare | src/storage-gc.c:284-307 | A cell can be taken by an allocation iff it is free or no such chain leads to it |
| Collector.Storage.constructor | src/storage-gc.c:487-506 | The storage before its first heap satisfies the invariant |
| Collector.Storage.WithinHeap | src/storage-gc.c:728-765 | A stack word is accepted iff it is the address of a cell |
| Collector.Storage.MarkObj | src/storage-gc.c:644-715 | Marks what the object reaches and nothing else; terminates on cyclic heaps |
| Collector.Storage.Mark | src/storage-gc.c:864-900 | After marking, the marked cells are exactly those the roots reach |
| Collector.Storage.MarkLocations | src/storage-gc.c:805-818 | Every object of a location range is marked |
| Collector.Storage.Sweep | src/storage-gc.c:1017-1056 | Unmarked allocated cells are freed, free cells stay free, marked cells are unchanged, all marks are cleared |
| Collector.Storage.SweepHeap | src/storage-gc.c:1022-1050 | The same for the cells of one heap |
| Collector.Storage.AddHeap | src/storage-gc.c:508-537 | A new heap adds its cells to the freelist, up to the maximum number of heaps |
| Collector.Storage.MarkAndSweep | src/storage-gc.c:555-573 | A cell that was allocated is unchanged iff it was live: a chain of fields led to it from the stack, a protected variable, a vector being made or the symbol table; earlier free cells stay free; the count collected is exact |
| Collector.Storage.Alloc | src/storage-gc.c:284-307 | Heap exhausted, out of cells or a cell, exactly when; live cells are untouched and every cell stays allocated or on the freelist once |
| Collector.Storage.AllocVector | src/storage-gc.c:271-282 | The outcomes of an allocation with the elements among the roots, each exactly when; the elements survive the collection that it causes |
| Collector.Storage.Take | src/storage-gc.c:294-304 | The head of the freelist is taken |
| Collector.Storage.Locate | src/storage-gc.c:332-348 | Finds a slot that holds the variable, or an empty one |
| Collector.Storage.Protect | src/storage-gc.c:351-366 | One empty slot is reused if there is one; the counter of empty slots stays exact |
| Collector.Storage.Unprotect | src/storage-gc.c:375-386 | One slot of the variable is emptied, if any; the counter of empty slots stays exact |
| DynamicExtent.SwapFromIs | src/r7rs.c:374-389 | Swapping exchanges the value of every parameter with its pair and touches nothing else |
| DynamicExtent.SwapTwiceRestores | src/r7rs.c:374-389 | Calling it twice restores all values, whatever they are, iff no parameter is bound twice |
| DynamicExtent.SwapIn | src/r7rs.c:374-421 | Entering a parameterize binds its parameters and saves the values around |
| DynamicExtent.SwapOut | src/r7rs.c:374-421 | Leaving it undoes that |
| DynamicExtent.EnterFrame | src/continuation.c:228-242 | Entering a frame keeps handlers and parameters those of the extent |
| DynamicExtent.ExitFrame | src/continuation.c:228-242 | Leaving a frame keeps them so and leaves the frame ready to be entered again |
| DynamicExtent.ExitFrames | src/continuation.c:193-205 | Leaving several frames runs each after once, innermost first |
| DynamicExtent.EnterFrames | src/continuation.c:175-191 | Entering them again runs each before once, outermost first, and restores handlers and parameters |
| Continuations.StepKeeps | src/continuation.c:175-371 | Every step of wind, return, call/cc, escape, handlers, parameterize and guard keeps the invariant: extent and stack follow the C stack, each continuation holds the extent of its active call/cc, handlers and parameters follow the extent, befores and afters balance |
| Continuations.RunKeeps | src/continuation.c:175-371 | So does every run |
| Continuations.RunFollowsExtent | src/module-srfi34.c:256-279 | After every run the handlers are those of the innermost handler frame, each parameter has its innermost binding, and each frame of the extent was entered once more than left |
| Continuations.StackedSuffixes | src/continuation.c:272-371 | Without a guard in its clauses, the extent of each stacked continuation is a suffix of those above it and of the current extent |
| Continuations.UnguardedOutward | src/continuation.c:344-371 | In such runs every escape goes to an extent around the current one |
| Continuations.UnguardedRun | src/continuation.c:175-371 | A run without guards needs no condition on its escapes |
| Continuations.UnguardedFollows | src/continuation.c:175-371 | In every such run handlers and parameters follow the extent, each frame of it was entered once more than left, and the extent of every callable continuation is around the current one |
| Continuations.EscapeLands | src/continuation.c:344-371 | A continuation is expired iff its call/cc is no longer active; otherwise the escape runs each crossed after once, innermost first, no before, lands in its extent, and expires it and those made within |
| Continuations.ActiveIsCallable | src/continuation.c:294-371 | Being callable is having its call/cc on the C stack |
| Continuations.ControlDetermines | src/continuation.c:175-371 | Equal C stacks have equal extents, continuations, handlers, parameters and saved values, whatever happened in between |
| DynamicContexts.RunsAgree | src/module-srfi34.c:256-338 | After every run the handlers and parameter values are those of the innermost active call in a machine that has no extent, where each call gets its own (a with-exception-handler its handler before those around, a raise those after the first, a parameterize its values) and an escape returns to those of its call/cc; the handlers called are the innermost at each raise, and the same thunks have run in the same order |
| DynamicContexts.StepShows | src/continuation.c:175-371 | Every step agrees with the step of that machine |
| DynamicContexts.ReboundIs | src/r7rs.c:392-421 | A parameterize makes its values those of its parameters and leaves all others |
| Continuations.GuardRestores | src/module-srfi34.c:415-457 | A guard runs its clauses in its own extent, and when none matches the extent, handlers, parameters and continuations of the raise are restored, whatever the clauses did |
| Continuations.GuardReached | src/module-srfi34.c:313-338 | When a handler is called that was installed, its frame is in the extent, so that its guard can leave for the extent around it |
| Continuations.ReturnPossible | src/continuation.c:165-172 | "corrupted dynamic extent" is never reported |
| Continuations.CrossedIs | src/continuation.c:175-205 | Walking the extent list by cell identity to a suffix passes exactly the frames above it |
| Continuations.Primitives.constructor | src/continuation.c:118-155 | The initial state |
| Continuations.Primitives.EnterDynamicExtent | src/continuation.c:175-191 | The two loops run the befores of the frames between the current extent and the destination, outermost first |
| Continuations.Primitives.ExitDynamicExtent | src/continuation.c:193-205 | The loop runs the afters up to the destination, innermost first |
| Continuations.Primitives.ContinuationStackUnwind | src/continuation.c:272-286 | Continuations are popped and invalidated down to the destination, or all if it is not there |
| Continuations.Primitives.Wind | src/continuation.c:228-242 | The before thunk runs, then the frame is pushed |
| Continuations.Primitives.WindReturn | src/continuation.c:228-242 | The frame is popped, then the after thunk runs |
| Continuations.Primitives.CallCC | src/continuation.c:294-317 | The continuation records the current extent and is pushed |
| Continuations.Primitives.CallCCReturn | src/continuation.c:318-341 | It expires when the procedure returns |
| Continuations.Primitives.CallContinuation | src/continuation.c:344-371 | The escape, or "expired continuation" exactly for an invalid one |
| Continuations.Primitives.WithExceptionHandler | src/module-srfi34.c:265-295 | The handlers are the one given and then the previous ones, within a wind that restores those |
| Continuations.Primitives.RaiseInternal | src/module-srfi34.c:313-338 | Calls the first handler with the others installed, fatal iff there is none |
| Continuations.Primitives.Parameterize | src/r7rs.c:392-421 | Winds the swap of the new values, an error iff some binding is not of a parameter |
| Continuations.Primitives.GuardExit | src/module-srfi34.c:432-437 | Leaves for the extent of the guard without escaping |
| Continuations.Primitives.GuardReenter | src/module-srfi34.c:450-456 | Enters the extent of the raise again |
| Quasiquote.ListTranslator.constructor | src/qquote.c:190-195 | Nothing is copied yet |
| Quasiquote.ListTranslator.CopyDeferred | src/qquote.c:288-292 | The cells passed since the last change are copied, in order |
| Quasiquote.ListTranslator.Execute | src/qquote.c:264-313 | Replace and splice put the object after what was passed; a splice must be a proper list; NOP writes nothing |
| Quasiquote.ListTranslator.Next | src/qquote.c:278-280 | The cell passed is copied later unless it was changed |
| Quasiquote.ListTranslator.SetSubls | src/qquote.c:284-305 | The rest of the list is replaced |
| Quasiquote.VectorTranslator.ExecuteNext | src/qquote.c:320-360 | Changes are recorded under signed indices; growth is the exact change in length; a splice must be a proper list |
| Quasiquote.VectorTranslator.Append | src/qquote.c:379-382 | A spliced list fills one slot per element |
| Quasiquote.VectorTranslator.Extract | src/qquote.c:362-399 | The new vector is the concatenation of what each element became, every slot filled once |
| Quasiquote.EncodeNone | src/qquote.c:362-405 | With no change recorded the elements are those of the source |
| Quasiquote.Quasiquoter.Internal | src/qquote.c:421-533 | The message is the meaning of the template by the recursive definition at this level; NOP means that it stands for itself |
| Quasiquote.Quasiquoter.Pairs | src/qquote.c:444-515 | The same for a list: levels, unquote in the tail, splicing at the head only, improper tails |
| Quasiquote.Quasiquoter.Vector | src/qquote.c:436-441 | The same for a vector |
| Quasiquote.Quasiquoter.Quasiquote | src/qquote.c:535-557 | The value of a quasiquote form; splicing outside a list or vector is an error |
| Quasiquote.ClassifyMeans | src/qquote.c:453-505 | What the first element says about the level agrees with the recursive definition |
| Quasiquote.TemplateMeans | src/qquote.c:421-533 | For every well-formed template of the grammar of section 7.1.4 of R5RS, at every level, the meaning is the template with its holes filled |
| Quasiquote.DatumMeans | src/qquote.c:421-533 | A form means a datum, at any level, iff it is a well-formed template by the grammar of section 7.1.4 of R5RS whose splices are lists, and that datum is the template with its holes filled; so anything else is spliced or an error |
| Quasiquote.SplicedMeans | src/qquote.c:483-505 | A list is spliced iff by an unquote-splicing of level 1 with one argument |
| Cycles.LengthUnique | src/list.c:241-290 | Exactly one length code describes a cdr chain |
| Cycles.Length | src/list.c:264-290 | Terminates on every cdr graph: n for a proper list of n pairs, ~n for n pairs with another end, the circular code iff the chain never ends |
| Cycles.FiniteLength | src/list.c:241-252 | The same code on finite chains |
| Cycles.Floyd | src/list.c:264-290 | On a chain longer than twice the heap the two pointers meet |
| Cycles.OnlyThose | src/macro.c:1264-1279 | When they meet, every cell of the chain has been passed |
| Cycles.Wrappedp | src/macro.c:1238-1278 | On every graph and for every path: terminates, and true iff a far symbol is reached along branches of lists and vectors that are not on the path |
| Cycles.WrappedList | src/macro.c:1264-1279 | The same for a list of which only the head is put on the path |
| Cycles.WrappedVector | src/macro.c:1256-1262 | The same for a vector |
| Cycles.ContainsFarSymbol | src/macro.c:1238-1278 | From the top, true iff a far symbol is reachable |
| Cycles.NoReturn | src/macro.c:1249-1253 | A walk along branches to a far symbol need not come back to where it starts, so the path may be avoided |
| Cycles.FarBranchStep | src/macro.c:1249-1262 | A far symbol is reached from an object off the path iff it is reached from one of its branches with the object on the path |
| Cycles.FarBranchBetween | src/macro.c:1238-1278 | Along branches off the path is reached what is reached by any walk off it, and nothing that is not reachable |
| Cycles.OnPathp | src/macro.c:1228-1236 | Membership in the path |
| Unwrappers.Unwrapper.UnwrapCopy | src/macro.c:1283-1323 | On every graph: terminates, changes no cell that was there, and gives the copy that Copy describes; an object that is shared costs no cell |
| Unwrappers.Unwrapper.CopyList | src/macro.c:1307-1323 | A list is copied pair by pair up to its end, or up to the pair where the two pointers first meet, which becomes the tail itself |
| Unwrappers.Unwrapper.CopyVector | src/macro.c:1299-1305 | The same for a vector: a new vector of copied elements |
| Unwrappers.Unwrapper.UnwrapFarsymbol | src/macro.c:1218-1226 | The symbol at the root of any chain of far symbols |
| Unwrappers.Unwrapper.UnwrapSyntax | src/macro.c:1325-1333 | From the top, on every graph: nothing old is written, the result is the argument iff that has no far symbol, has one left iff one is reached through a cycle, and holds the same at every place |
| Unwrapping.MadeOnce | src/macro.c:1283-1323 | There is one way to copy an object on a path: two copies differ only in their new cells |
| Unwrapping.UnwrappedExactly | src/macro.c:1280-1323 | On every graph the copy has a far symbol left iff some walk from the object to a far symbol comes back to an object that it has passed |
| Unwrapping.CircleKeepsFar | src/macro.c:1316-1321 | A circular list of one far symbol keeps it |
| Unwrapping.SamePlaces | src/macro.c:1283-1323 | On every graph object and copy have the same places, with pairs at pairs, vectors of the same length at vectors, the far symbol or the symbol at its root at far symbols, and the same anywhere else |
| Unwrapping.UnwrappedEverywhere | src/macro.c:1283-1323 | If no far symbol is reached through a cycle, the copy holds the root of every far symbol and otherwise what the object holds |
| Unwrapping.SharedExactly | src/macro.c:1280-1295 | On every graph the copy of an object is the object itself iff that has no far symbol |
| Unwrapping.TailSharedExactly | src/macro.c:1307-1323 | Of a list that is copied a tail is shared iff it is the cycle, or it is what follows the last pair and no far symbol is reached from it along branches off the path |
| Labels.Reader.NewLabel | src/read.c:930-933 | A new label with a fresh placeholder and no datum |
| Labels.Reader.SetDatum | src/read.c:934-938 | The label gets its datum; placeholders in use still stand for data that are no placeholders, or for themselves |
| Labels.Reader.Assv | src/read.c:940-945 | The newest label of that number |
| Labels.FindIs | src/read.c:940-945 | The label found is the newest of that number among those made |
| Labels.Reader.Read | src/read.c:912-948 | An error iff a reference precedes its label; otherwise the object is built as the text says, with placeholders exactly for labels being read |
| Resolution.Resolver.ResolveLabel | src/read.c:951-968 | The datum of a placeholder, an error iff it is the placeholder itself, any other object as it is |
| Resolution.Resolver.ResolveElements | src/read.c:991-995 | Every slot of a vector is resolved and made pending |
| Resolution.Resolver.VisitPair | src/read.c:986-989 | A pair is resolved and its parts made pending |
| Resolution.Resolver.VisitVector | src/read.c:990-995 | So is a vector |
| Resolution.Resolver.ResolveLabels | src/read.c:972-999 | Terminates on the graph that it makes cyclic; fails iff a label that stands for itself occurs; otherwise every slot of every reached cell is resolved and all other cells are unchanged |
| Reading.TroubleIsSelfish | src/read.c:951-999 | Resolution fails exactly for a text in which a label is its own datum, directly or through other labels |
| Reading.ResolvedDenotes | src/read.c:912-999 | After resolution the object is the graph the text describes |
| Reading.DenotesSpells | src/read.c:912-999 | With an object for each label, #n= stands before the object of its label and #n# is the object of the newest label n before it |
| Reading.PlaceholdersGone | src/read.c:972-999 | and no placeholder is reachable |
| Reading.ScmRead | src/read.c:466-491 | A datum iff every reference is defined and no label stands for itself; it is the graph that the text spells, with no placeholder left |
| ModuleTables.ModuleTable.constructor | src/library.c:168-188 | An empty table of 16 buckets |
| ModuleTables.ModuleTable.Lookup | src/library.c:235-248 | The location of a symbol, if any |
| ModuleTables.ModuleTable.Rehash | src/library.c:250-268 | Twice as many buckets, the same entries in the buckets of their new hash |
| ModuleTables.ModuleTable.Bind | src/library.c:282-306 | The table is the old map with one binding changed; keys unique, buckets a power of two, entries at most twice the buckets |
| ModuleTables.PrependKeeps | src/library.c:299-305 | A new key in front of its bucket changes no other lookup |
| ModuleTables.Toplevels.Register | src/library.c:191-205 | The next number is given; older numbers stay, also when the vector is doubled |
| ModuleTables.Toplevels.IdentifierToplevel | src/library.c:503-514 | The toplevel of a qualified identifier |
| ModuleTables.QualifyRoundTrip | src/library.c:490-514 | Qualifying is undone, whatever modules are made later |
| ModuleTables.QualifyInjective | src/library.c:490-499 | Identifiers qualified in different toplevels differ |
| Namespaces.StepKeeps | src/env.c:693-769 | Every definition, assignment, import and registration keeps each valued builtin equal in its location and in the builtin half of its value cell |
| Namespaces.BuiltinsIsolated | src/library.c:407-459 | In every reachable state the builtin namespace and importing libraries see a builtin's own value |
| Namespaces.ReplChangesNothing | src/env.c:693-735 | No sequence of REPL definitions, assignments and imports changes what a module sees or a builtin |
| Namespaces.ReplKeeps | src/env.c:693-706 | The REPL writes value cells only |
| Namespaces.ModuleKeeps | src/library.c:309-322 | Libraries write only locations that they own, never a builtin |
| Namespaces.RegisterKeepsExactly | src/library.c:376-391 | Registering a bound symbol as a builtin keeps the builtins isolated iff it does not forward to an imported value |
| Namespaces.LocationsNeverChange | src/library.c:282-322 | In every run a symbol keeps the location it got and a location its owner |
| Namespaces.DefineIsShared | src/library.c:309-322 | A definition is refused exactly for a binding that is not owned, without effect; otherwise exactly those who share the location see the new value |
| Namespaces.ImportShares | src/library.c:534-550 | An import shares the location; another binding of the same name is refused |
| Namespaces.ReplSees | src/library.c:564-583 | The REPL sees what it defined, and through an import the location |
| Namespaces.BuiltinSeen | src/library.c:407-428 | The builtin namespace and all who share the location see the value defined or assigned, others see what they saw; the REPL sees it too, unless set! finds a variable of its own there |
| Namespaces.EarlyBuiltinSeen | src/library.c:405-415 | Before the builtin module is made a builtin is in the value cell alone |
| Namespaces.RegisteredSeen | src/library.c:376-403 | Registering makes exactly the bound symbols builtins with the value they had, and auxiliary syntax builtins without; no one sees anything else change |
| Namespaces.ModuleSetSeen | src/env.c:710-751 | Assignment in a library is refused iff the library does not own the binding, without effect; otherwise exactly those who share the location see the value |
| Namespaces.NewModuleSeen | src/library.c:168-188 | A new module binds nothing and changes nothing |
| Namespaces.Library.constructor | src/library.c:133-155 | The initial state satisfies the invariant |
| Namespaces.Library.WriteCell | src/env.c:693-706 | The value cell after a write from the REPL or the builtin namespace |
| Namespaces.Library.WriteBuiltinLocation | src/library.c:418-428 | The location of the builtin has the value, made if needed |
| Namespaces.Library.SetToplevel | src/env.c:710-735 | Assignment at a toplevel; refused in a library |
| Namespaces.Library.DefineToplevel | src/env.c:753-769 | Definition at the REPL, in the builtin module or in a library |
| Namespaces.Library.ModuleImportX | src/library.c:534-550 | Import into a module |
| Namespaces.Library.GlobalImportX | src/library.c:564-583 | Import into the REPL |
| Namespaces.Library.RegisterBoundSymbols | src/library.c:376-391 | All bound symbols become builtins |
| Codecs.Utf8ScanChar | src/encoding.c:789-823 | The scanner with its loop over trailing bytes computes the specified length, error or incompleteness |
| Codecs.CodecLaw | src/encoding.c:479-585 | In UTF-8 and EUC-JP an encoded character is scanned whole whatever follows, decodes to itself, and every proper prefix is incomplete; CodecTables says which characters and bytes these are |
| Codecs.Utf8Bytes | src/encoding.c:826-883 | Encoding then decoding a UTF-8 character, its lead byte and trailing bytes |
| Codecs.EucBytes | src/encoding.c:518-585 | The same for EUC-JP |
| Codecs.Utf8DecodeEncode | src/encoding.c:789-883 | Decoding then encoding gives the same bytes iff they are the shortest form of a character up to U+10FFFF |
| Codecs.OverlongNul | src/encoding.c:789-883 | NUL written in two bytes is accepted and written in one |
| Codecs.EucDecodeEncode | src/encoding.c:479-585 | The same for EUC-JP iff they are not a single shift 3 before a space or delete |
| Codecs.SingleShiftSpace | src/encoding.c:479-585 | A single shift 3 before a space is accepted and cannot be written |
| Codecs.NoNul | src/encoding.c:549-585 | Only the NUL character has a NUL byte |
| CodecTables.ScanIs | src/encoding.c:479-823 | With the byte ranges written as numbers: the scanner returns the length of the character that the bytes begin with, incomplete iff they begin one without ending it, and otherwise an error |
| CodecTables.DecodeIs | src/encoding.c:518-853 | Decoding a character of the tables gives its number, the sum of its digits |
| CodecTables.EncodeIs | src/encoding.c:549-883 | Encoding gives the bytes of the character of the tables with that number, and fails iff there is none: in UTF-8 the shortest form up to U+10FFFF, in EUC-JP none with a single shift 3 before a space or delete |
| CodecTables.Utf8Writes | src/encoding.c:855-883 | UTF-8 has bytes exactly for the numbers up to U+10FFFF |
| MultibytePorts.MbStrlen | src/encoding.c:278-297 | The number of characters scanned, on any bytes |
| MultibytePorts.PiecesCounted | src/encoding.c:278-331 | On any bytes the length is the number of pieces, and skipping n characters skips n of them: characters of the tables, single bytes where there is none, and what begins one at the end |
| MultibytePorts.LengthOfEncoded | src/encoding.c:278-297 | For an encoded string, how many were encoded |
| MultibytePorts.MbSubstring | src/encoding.c:308-331 | The offset and size of the characters skipped and taken |
| MultibytePorts.SubstringOfEncoded | src/encoding.c:308-331 | For an encoded string, the encoding of the slice |
| MultibytePorts.FilledFirst | src/scmport-mbchar.c:254-292 | On any stream, bytes are read until the buffer first holds a character or an error; at the end of the stream an incomplete character is dropped |
| MultibytePorts.PeekedIs | src/scmport-mbchar.c:212-292 | On any stream: the character of the tables that the stream begins with; the end iff there is nothing or only the beginning of one; "broken character" otherwise |
| MultibytePorts.FilledEncoded | src/scmport-mbchar.c:254-292 | On encoded characters the buffer is filled with exactly the next one, and that is what peeking gives |
| MultibytePorts.FilledNul | src/scmport-mbchar.c:254-292 | On any stream a filled buffer holds no NUL, or NUL alone |
| MultibytePorts.PeekedStays | src/scmport-mbchar.c:254-292 | On any stream, what was peeked is found again iff it is not NUL, which is lost |
| MultibytePorts.MbPort.FillRbuf | src/scmport-mbchar.c:254-292 | The loop over any stream, with its errors |
| MultibytePorts.MbPort.PeekChar | src/scmport-mbchar.c:212-228 | The character in the filled buffer, left there |
| MultibytePorts.MbPort.GetChar | src/scmport-mbchar.c:187-210 | The same, and the buffer is emptied; newlines are counted |
| MultibytePorts.MbPort.PutChar | src/scmport-mbchar.c:239-252 | Its bytes are written, or "invalid character" iff it has none |
| MultibytePorts.RoundTrip | src/scmport-mbchar.c:187-292 | Any sequence of non-NUL writable characters is read back, then the end |
| Fixnums.IntMultiply | src/number.c:91-101 | The overflow test is exact |
| Fixnums.IntQuotient | src/number.c:103-113 | Truncated quotient; an error iff the divisor is 0 or the result out of range |
| Fixnums.IntRemainder | src/number.c:115-126 | Remainder of truncated division, without the overflowing case |
| Fixnums.IntModulo | src/number.c:128-138 | The remainder with the sign of the divisor |
| Fixnums.CDivIs | src/number.c:103-126 | Truncated division: quotient and remainder give back the dividend, the remainder has its sign |
| Fixnums.Expt | src/number.c:757-784 | Squaring signals overflow iff the power is out of range |
| Fixnums.Gcd | src/number.c:802-819 | The greatest common divisor with its Bezout coefficients; overflow iff it is one more than the largest fixnum |
| Fixnums.GcdUnique | src/number.c:802-819 | There is only one |
| Reductions.GcdReduce | src/number.c:821-852 | gcd of any number of arguments; overflow iff the gcd of some of the first is out of range |
| Reductions.GcdNext | src/number.c:833-843 | A step of the reduction has the common divisors of all arguments so far |
| Fixnums.Lcm | src/number.c:873-899 | The least common multiple of two numbers; overflow iff it is out of range |
| Fixnums.LcmIs | src/number.c:882-888 | x times y over the gcd divides every common multiple |
| Reductions.LcmReduce | src/number.c:854-899 | lcm of any number of arguments; overflow iff that of some of the first is out of range |
| Reductions.LcmNext | src/number.c:873-890 | A step of the reduction has the common multiples of all arguments so far |
| Reductions.OverflowOnTheWay | src/number.c:815-816 | (gcd m m 1) for the least fixnum m overflows although the result is 1 |
| Reductions.OverflowBeforeZero | src/number.c:883-894 | (lcm a b 0) overflows whenever (lcm a b) does, although the result is 0 |
| Fixnums.ExactIntegerSqrt | src/r7rs.c:616-639 | The s with s * s <= n < (s + 1) * (s + 1), and n - s * s; no sum or product on the way overflows |
| Fixnums.NewtonAbove | src/r7rs.c:630-636 | A step of Newton's method does not go below the root |

## Left out

Weaker than a full account of the code:

- Transcriber.TranscriptionContext.Transcribe: what happens after the failed assertion of src/macro.c:1109 is not modelled; Runs says exactly when it fails.
- Transcriber.TranscriptionContext.TranscribeRec: binding lists are values, read from the heap of pairs by ReadBinding beforehand; the vector of indices is a sequence.
- RoundTrip.MatchTranscribe: patterns with literals or underscores are not rebuilt by the code either.
- RuleMeaning.RuleMeans: with nested ellipses and unequal lengths, when one hidden by an inner ellipsis ends an outer one early, the result is what TimesIsShortest says and not an instance in the sense of R7RS, where that is an error.
- Environments.WrapKeepsMeaning: frames changed by internal definitions between capture and lookup are not covered.
- Expander.ExpandHygienicMacro: uses that make that assertion fail are excluded (Transcribable); no flat template has any, by RuleMatches.
- CompilationContexts.CompilationContext.CompilePattern: a vector is its list of items, a vector without identifiers is compiled like any other instead of being returned itself, and pattern variable markers are not cached.
- Matcher.MatchContext.Match: vectors of the form are immutable, and there is one heap for the form and the bindings.
- Collector.Storage.MarkAndSweep: only the full-size storage layout; freeing of strings, ports and vectors held by swept cells, and how stack words are collected, are not modelled.
- Continuations.EscapeLands: an escape from the clauses of a guard into the extent that they have left is excluded, which no run without guards can do (UnguardedRun); wind thunks return normally.
- Continuations.StepKeeps: a parameterize of one parameter twice is excluded from runs; SwapTwiceRestores says what happens to it.
- Quasiquote.Quasiquoter.Internal: evaluation is an abstract total function, and the template shares no cell with its values, so that the identity test for an unchanged copy is a flag; spliced lists are values.
- Unwrappers.Unwrapper.UnwrapCopy: the new list is put together when its elements are known, so that no cell is written twice; far symbols wrap identifiers, and no reference leaves the heap.
- Labels.Reader.Read: the text is its syntax tree, so that list loops are recursion; datum comments, bytevectors and label numbers too large for a fixnum are not part of it.
- ModuleTables.ModuleTable.Bind: masking the hash with a power of two less one is written as a remainder.
- Namespaces.StepKeeps: libraries do not define into or import into the builtin module, and auxiliary syntax, whose location is unbound, is excluded; registering a symbol that forwards to an imported value breaks the invariant (RegisterKeepsExactly) and is excluded from runs.
- MultibytePorts.MbPort.FillRbuf: blocking reads only; a change of codec between reads is not modelled.
- Fixnums.Expt: negative exponents, which give reals or an error, are only an error here.
- Fixnums.ExactIntegerSqrt: the range must reach at least from -5 to 4.

Not modelled:

- floating point, and parsing and printing of numbers
- file and network input and output, loading, arguments, signals and `setjmp` itself: a jump is a step back to the saved point
- the evaluator, its dispatch of C functions, error objects and debugging output
- the writer, symbols' interning and the public headers
- Shift_JIS, EUC-CN, EUC-KR and ISO-2022 encodings
- the alternative collectors and the compact storage layout
- SRFI procedures other than exception handling, bytevectors, strings and characters
