# Verification of ecp's freshness, attribution and scanning logic

`ecp` answers questions about a code base from a graph of it. This project models the parts
of it whose correctness is least visible in any one body, and proves what they promise:

* **The session overlay.** Any number of short-lived query processes share one manifest of
  dirty files and one directory of fragment bins, while files change under them.
  `Overlay.dfy` holds the data, `Protocol.dfy` the transition system (every stat, read,
  parse and publish is a step of its own), `Freshness.dfy` and `Fragments.dfy` what every
  run keeps, `Refresh.dfy` one refresh start to end and the warm attach built on it,
  `ProtocolLimits.dfy` runs that leave the stated conditions.
* **Call and read attribution.** `Sweep.dfy` is the heap sweep, `Holder.dfy` the scan it
  replaces, `HolderKinds.dfy` which kinds of node can hold what, `ValueRuns.dfy` and
  `HolderTargets.dfy` the proof that three sweeps give what the scan gives, `HolderLimits.dfy`
  where they do not, `Reads.dfy` name reads and the local names that hide them,
  `Shadowing.dfy` the rules of that hiding. `Nodes.dfy` and `Positions.dfy` hold the shared data.
* **The C/C++ preprocessor scanner.** `Automaton.dfy` reads a source one byte at a time, after
  sections 5.9 and 5.13.5 of ISO/IEC 14882:2017; `Tokens.dfy` and `Lexer.dfy` are the
  line-by-line lexer that refines it; `LexText.dfy` says in terms of text what opens a
  directive, a splice, a raw string and a number, `Heads.dfy` what heads a brace. `Nesting.dfy` relates a stack to balanced marks,
  `BraceDepth.dfy` and `Guards.dfy` are the brace depths and the include guards,
  `PreprocText.dfy` and `DirectiveText.dfy` the byte and text tests. What those test is told in
  texts: `Spelling.dfy` is text given by its tokens with any blanks and comments between them,
  `GuardText.dfy` and `GuardLines.dfy` the guards, `HeadText.dfy` the heads of file-scope
  blocks, `Conditionals.dfy` and `TameConditionals.dfy` the conditionals. `Stretches.dfy` shows that
  whole lines are scanned alike alone and inside a source; on it `LaterText.dfy` and
  `Exchange.dfy` prove what later branches of conditionals can change; `TameText.dfy` works
  that out for text given by its lines, and `HeadLimits.dfy` is an instance that does change.
* **Parity accounting.** `UnionFind.dfy` is the label-class map, `ForestTheory.dfy` what path
  halving keeps, `LabelClasses.dfy` what overlapping classes mean; `DiffRows.dfy` and
  `DiffAccounting.dfy` are the pairing passes, the aggregate and the review listing,
  `DiffFates.dfy` what becomes of a row, told by the rows alone,
  `DiffOrders.dfy` what set iteration orders do to their counts, and `DiffDumps.dfy` what the
  files of a dump do.
* **Smaller parts.** `Scoping.dfy` (types of Rust function-pointer variables), `SpanRemap.dfy`
  (positions of embedded scripts), `ArgSplit.dfy` (the splitter of annotation arguments),
  `Dedup.dfy` (one entry point for each handler), `ShellWords.dfy` and `RetryJob.dfy` (the
  background job). `Options.dfy`, `Sets.dfy` and `Sorting.dfy` are helpers.

Code that updates state is modelled by classes, arrays and loops, each proved against a
specification; what the source promises is then proved of that specification.

## What turned out to hold only under a condition

* The aggregate and the review listing, run on one dump, agree on their counts for every pair
  of set iteration orders exactly if the orders leave no choice that matters and either a full
  listing has rows or the difference files hold nothing to count (`DiffDumps.ScriptsAgreeIff`):
  only the aggregate falls back to those, and `DiffDumps.StaleDumpDisagrees` is a dump of them.
  They hold nothing to count (`DiffDumps.RowsCountNothing`) when every row but routes and route
  entries is label-equivalent to the other side or a double emit, each rs route is the
  method-prefixed form of a ref route of its own, and in every file the other ref routes are as
  many as the route entries. Orders have a choice in a file with R route entries on one side
  and E routes on the other when the smaller number is neither 0 nor the number of routes, and
  some but not all of those routes would be matched by a method-prefixed route
  (`DiffOrders.OrderFree`); then two orders do count differently (`DiffOrders.OrderMatters`).
* The sweep and the scan give one holder when, besides nesting, the values that end with the
  smallest value around the position stand side by side in start order and have all begun by
  the position, for every list of declarators exactly if of each name among them the value
  with the lowest node index starts first (`HolderTargets.PicksAgreeIff`): one searches the
  run in span order, the other in node order. `HolderLimits.SameNameMatters` is a statement of
  two declarators on which they differ.
* A served or skipped fragment bin is right in every steady run, processes of different
  builders and caps included, and a step keeps it right exactly if it is steady
  (`Fragments.StepKeepsBins`). Two things are not steady. A file over the cap when it is parsed
  may not be when its id is hashed: `ProtocolLimits.ShrinkingFileSpoilsABin` stores an omission
  under the id of the smaller content, which another file shares. And a publish that stops
  before its manifest may have moved bins into place that a manifest of another builder or cap
  names: `ProtocolLimits.AnotherBuilderSpoilsABin`. The code comments say the first race only
  errs toward parsing again; the row does, the shared bin does not.
* Retire keeps the fragment of a dirty file while HEAD stays where the probe saw it. A
  tombstone has no mtime to compare, and `ProtocolLimits.TombstoneCanBeRetired` retires one of
  a file that is dirty.
* The flat scope list of a Rust file agrees with the language's scoping wherever no declaration
  of the name ends at the position; where some end, it answers with the innermost of those, so
  it agrees exactly if that one has the type the language finds (`Scoping.TypeInFile`). A scope
  holds its end, and code that starts right where a block ends still sees that block's bindings
  (`Scoping.EndOfBlockSeesLet`).
* The comment over the brace depths says that only the first branch of a conditional counts.
  Exchanging the lines of a later branch for others that leave no comment, literal, splice or
  conditional open keeps every depth outside, at shifted offsets, exactly if the first brace
  counted after the exchange heads a file-scope block before and after or neither time
  (`Exchange.ExchangeKeepsDepths`). The code that heads it is read back to the last `;`, `{` or
  `}`, and so may reach into the later branch: `HeadLimits.LaterTextReachesOut` is a source
  whose `namespace` in an `#else` moves the depth after the `#endif`.
* A number of the scanner runs to the longest number there is, as the standard has it, but for
  one form: a sign also goes on a number whose `e` stands right after a separator, as in
  `1'e+5`, which section 5.9 of ISO/IEC 14882:2017 ends before the sign
  (`LexText.NumberIsLongest`).
* A head that ends with `"C"` or `"C++"` is judged by the word before that alone, so a namespace
  earlier in the head does not count (`HeadText.HeadsIff`).
* Splitting undoes printing exactly for lists of arguments that are not empty: the empty list
  splits into one empty part (`ArgSplit.SplitUndoesJoin`).
* The smallest enclosing span is the same before and after a script is moved into its file for
  spans that nest, as the spans of one syntax tree do. That hypothesis is needed: of two that
  overlapped without nesting, which no syntax tree gives the code, the order could turn around
  (`SpanRemap.OverlapTurnsAround`).

## Model

| member | source | states |
|---|---|---|
| Freshness.StepKeepsInv | crates/ecp-cli/src/auto_ensure.rs:886-920 | every step of any process or of the environment keeps: a row, published, staged or snapshotted, whose mtime the file still has names the file's present content; an mtime is never later than the file's last; a tombstone has no fragment |
| Freshness.RunKeepsInv | crates/ecp-cli/src/auto_ensure.rs:834-986 | the same over every run of any number of processes, edits, commits and collections |
| Freshness.GateSkipIsCurrent | crates/ecp-cli/src/auto_ensure.rs:1690-1738 | in every run, if the gate's stat does not make it parse a dirty path again, the row's fragment id is that of the file's present content, or the row is a tombstone and the path is absent |
| Freshness.RetireComparesRows | crates/ecp-cli/src/auto_ensure.rs:1768-1820 | retire removes a row exactly if it is unclaimed and still equals the row snapshotted before the probe; every other row, one published later included, stays as it is |
| Freshness.RetireKeepsDirtyFragments | crates/ecp-cli/src/auto_ensure.rs:674-700 | over all interleavings, with HEAD where the probe saw it, retire never removes the current fragment row of a file that is dirty at the removal |
| Fragments.StepKeepsBins | crates/ecp-cli/src/session/overlay_writer.rs:510-563 | a step of any process keeps every bin right, and every bin the manifest names of the manifest's builder and cap, if and only if it is steady |
| Fragments.SteadyRunKeepsBins | crates/ecp-cli/src/session/overlay_writer.rs:423-537 | in every steady run of processes of any builders and caps, each readable bin holds the analysis of the content its id names |
| Fragments.ServedIsCurrent | crates/ecp-cli/src/auto_ensure.rs:886-895 | in every such run, whatever the overlay serves for a path is the reader's own analysis of the file as it is |
| Fragments.SkippedBinIsCurrent | crates/ecp-cli/src/auto_ensure.rs:1683-1731 | in every such run, the bin for which the gate skips a parse holds an analysis of the file as it is, and the reader's own while the manifest has that row for the reader's builder and cap |
| ProtocolLimits.AnotherBuilderSpoilsABin | crates/ecp-cli/src/session/overlay_writer.rs:510-537 | a run in which a publish of another builder stops between its bin and its manifest, after which a file is served the other builder's analysis |
| ProtocolLimits.ShrinkingFileSpoilsABin | crates/ecp-cli/src/auto_ensure.rs:886-895 | a run in which a file shrinks below the cap between its parse and the hash of its id, after which another file is served an omission |
| ProtocolLimits.TombstoneCanBeRetired | crates/ecp-cli/src/auto_ensure.rs:1768-1774 | a run in which retire removes the tombstone of a file that is dirty, HEAD unmoved |
| Refresh.ReachedSessionFits | crates/ecp-cli/src/auto_ensure.rs:1077-1091 | every session a steady run can reach meets what a refresh of the now quiet tree asks of it |
| Refresh.Session.RetainStaleFragments | crates/ecp-cli/src/auto_ensure.rs:1653-1738 | of the dirty paths exactly those are left out whose fragment the overlay, based on HEAD, already serves, or whose removal it already has; every mtime noted is the file's |
| Refresh.Session.StatRemaining | crates/ecp-cli/src/auto_ensure.rs:900-920 | after the stats every present path has its mtime, and the absent ones are exactly those to bury |
| Refresh.Session.WriteDirtyEvents | crates/ecp-cli/src/session/overlay_writer.rs:423-563 | every written present path is served, every absent one removed, and a path not named keeps its answer |
| Refresh.Session.RetireUnclaimed | crates/ecp-cli/src/auto_ensure.rs:1775-1820 | claimed paths keep their answers, and the session still fits the tree |
| Refresh.Session.Promote | crates/ecp-cli/src/auto_ensure.rs:1975-2000 | whatever a HEAD change drops, the session still fits the tree, and is based on the new HEAD |
| Refresh.RefreshOverlay | crates/ecp-cli/src/auto_ensure.rs:834-986 | after a refresh that does not fail every dirty path is served its present analysis or is removed and absent; it reports nothing to do if and only if no path is dirty or the overlay, based on HEAD, had settled every one before; it reports paths parsed only when it ends based on HEAD |
| Refresh.KeptIffUnsettled | crates/ecp-cli/src/auto_ensure.rs:1690-1738 | for every row, file and bin a session can have, the gate keeps a path if and only if the overlay neither serves its present analysis nor has it removed |
| Refresh.RefreshTwice | crates/ecp-cli/src/auto_ensure.rs:834-880 | a second refresh of an unchanged tree, whatever it claims, finds nothing to do when the first archived everything |
| Refresh.CoverWarmAttach | crates/ecp-cli/src/auto_ensure.rs:1077-1165 | when the cover succeeds, the sibling's index overridden by the overlay answers every path as an index of the working tree does, deletions included; over the limit nothing changes; within it only a failed write leaves it uncovered |
| Sweep.EnclosingTargets | crates/ecp-analyzer/src/calls.rs:2257-2289 | every entry, in any order of the list, gets the container around it that is least by (width, sorted index), and none exactly if none is around it |
| Sweep.TargetIsUnique | crates/ecp-analyzer/src/calls.rs:2257-2289 | an entry has one such answer |
| Nodes.ContainersOfTier | crates/ecp-analyzer/src/calls.rs:2034-2051 | the containers are the nodes of the tier, each once, by start, width and node index |
| Holder.HolderAtPos | crates/ecp-analyzer/src/calls.rs:204-282 | the single pass over the nodes gives the smallest node of each tier, the declared value among those that end together, and the first tier that has one |
| HolderKinds.HolderByKind | crates/ecp-analyzer/src/calls.rs:218-237 | in terms of kinds: the nearest function, method or constructor holds the position whatever else is around it; with none, a constant, variable or property around it or the nearest type; never a node of another kind; nothing only if no function and no type is around |
| HolderKinds.LoneValueHolds | crates/ecp-analyzer/src/calls.rs:263-282 | with no function around, a value that alone ends where it ends, and that no declarators divide, holds the position, types around it notwithstanding |
| Holder.SmallestIsSmallest | crates/ecp-analyzer/src/calls.rs:248-262 | the best node of a tier holds the position, is no wider than any other that does, and is the first of equals |
| Holder.PickIsFirstClaim | crates/ecp-analyzer/src/calls.rs:2098-2132 | the pick is the first value of the run that bears the name of the first declarator around the position whose own range holds it and whose name the run bears; with none, the only value of the run unless a sibling declarator around the position bears its name, else none |
| Holder.PickDeclaredLoop | crates/ecp-analyzer/src/calls.rs:2098-2132 | the loop with its early return and its flag for siblings gives that pick |
| Holder.TierAgrees | crates/ecp-analyzer/src/calls.rs:2025-2051 | where spans nest, the sweep's answer of a tier is the scan's, ties included: nested spans of one width are one span |
| Positions.NestedWidths | crates/ecp-analyzer/src/calls.rs:2025-2032 | nesting never widens, and nested spans have one width only if they are equal |
| ValueRuns.BuildValueSpans | crates/ecp-analyzer/src/calls.rs:2154-2171 | the loop over the sorted values keeps one span for each run |
| ValueRuns.BlockIsRun | crates/ecp-analyzer/src/calls.rs:2053-2059 | values that end together and stand side by side make exactly one run, headed by the first |
| HolderTargets.ValueRunsAgree | crates/ecp-analyzer/src/calls.rs:2204-2216 | the run the sweep finds has the members of the run the scan finds, one start and one end, and finds the first of each name alike exactly if of each name the lowest node index starts first |
| HolderTargets.PicksAgreeIff | crates/ecp-analyzer/src/calls.rs:2098-2132 | where the runs meet, the sweep and the scan pick one value for every list of declarators if and only if of each name in the run the value with the lowest node index starts first |
| HolderTargets.HolderTargets | crates/ecp-analyzer/src/calls.rs:2291-2337 | every entry gets its narrowest callable, else the value picked from the run of its narrowest value span, else its narrowest type; for an entry whose spans nest and whose runs agree, that is the holder the scan gives |
| HolderTargets.AttachPendingCalls | crates/ecp-analyzer/src/calls.rs:2339-2350 | for every list of calls, each node gains exactly the calls whose target it is, in call order, and no node changes otherwise; a call that nests with the nodes around it goes where the scan puts it |
| HolderLimits.SameNameMatters | crates/ecp-analyzer/src/calls.rs:2098-2127 | two values of one name, with the two declarators of their statement, on which the sweep and the scan differ |
| Reads.SweepTargets | crates/ecp-analyzer/src/calls.rs:2257-2289 | the sweep gives what looking at every container gives |
| Reads.Pick | crates/ecp-analyzer/src/calls.rs:2220-2228 | the halving search and cut-off over the sorted declarators pick what all declarators would |
| Reads.TargetsOf | crates/ecp-analyzer/src/calls.rs:2182-2200 | every read lands on the smallest function around it, else on the declared value of the smallest run around it |
| Reads.BindAll | crates/ecp-analyzer/src/calls.rs:1475-1509 | the two passes over the bindings list, by name, exactly the scopes of all bindings |
| Reads.Attach | crates/ecp-analyzer/src/calls.rs:1459-1537 | each node gains exactly the names that reads of it bring, in order of first such read, but those that the bindings hide; no node changes otherwise |
| Reads.RefsOnExact | crates/ecp-analyzer/src/calls.rs:1511-1536 | a name is added to a node once, and exactly if some read with it is that node's |
| Reads.AttachedIffUnshadowed | crates/ecp-analyzer/src/calls.rs:1459-1465 | a node gains a name exactly if some read of it lands there outside every scope bound to its key; a hidden read takes nothing from a visible one |
| Shadowing.AttachedIffNotHidden | crates/ecp-analyzer/src/calls.rs:1459-1537 | a node gains a name exactly if some read of it lands there that no binding hides, hiding told by binding, position and name alone |
| Shadowing.ComprehensionRule | crates/ecp-analyzer/src/calls.rs:1490-1500 | a name that only comprehensions of a function bind is hidden exactly inside those, and a read of it anywhere else is attached |
| Shadowing.ParameterRule | crates/ecp-analyzer/src/calls.rs:1490-1500 | a parameter or local hides its name exactly at the positions of its function |
| Shadowing.GlobalRule | crates/ecp-analyzer/src/calls.rs:1475-1490 | a name that global statements place in the module is hidden nowhere: its reads are attached |
| Shadowing.LambdaRule | crates/ecp-analyzer/src/calls.rs:2230-2254 | a name that only lambdas that are no nodes bind is hidden exactly inside those |
| Shadowing.OwnNameRule | crates/ecp-analyzer/src/calls.rs:2230-2254 | a declaration's own name hides nothing in it: reads of it are attached |
| Shadowing.QualifiedRule | crates/ecp-analyzer/src/calls.rs:1515-1532 | a qualified function is hidden exactly where its text before the first dot is, and nowhere when qualifiers have a scope of their own |
| Shadowing.UnqualifiedRule | crates/ecp-analyzer/src/calls.rs:1515-1532 | a function named without a qualifier is never hidden |
| Automaton.RawStringCloses | crates/ecp-analyzer/src/preproc_fallback.rs:77-105 | a raw string ends at the first occurrence of its close in the rest of the source, and reaches to the end without one |
| PreprocText.RawOpenInLine | crates/ecp-analyzer/src/preproc_fallback.rs:77-105 | a raw string opens the same whether its line or the whole source is looked at |
| PreprocText.PpNumberEnd | crates/ecp-analyzer/src/preproc_fallback.rs:60-75 | a preprocessing number runs over exactly the bytes it takes |
| LexText.NumberIsLongest | crates/ecp-analyzer/src/preproc_fallback.rs:60-75 | that end is the end of the longest preprocessing number at the digit, numbers given by their grammar |
| LexText.RawOpens | crates/ecp-analyzer/src/preproc_fallback.rs:77-100 | a quote after R, LR, uR, UR or u8R that no identifier runs into, before at most 16 bytes that may be in a delimiter and a parenthesis, opens a raw string that closes with that delimiter |
| LexText.RawIsOpened | crates/ecp-analyzer/src/preproc_fallback.rs:77-100 | and no other quote opens one |
| Tokens.ScanLine | crates/ecp-analyzer/src/preproc_fallback.rs:127-190 | one line, a token at a time, leaves the state of the byte automaton at its end and finds exactly its code punctuation |
| Lexer.ScanLines | crates/ecp-analyzer/src/preproc_fallback.rs:107-213 | every line's bounds, directive, splice, directive membership and blankness are what the automaton over the whole source says; the braces are those of the lines outside directives |
| LexText.HashIff | crates/ecp-analyzer/src/preproc_fallback.rs:130-150 | a line is a directive exactly if it is blanks, a hash and anything |
| LexText.SpliceIff | crates/ecp-analyzer/src/preproc_fallback.rs:190-213 | a line is joined to the next exactly if it ends with a backslash, or with one before a carriage return |
| Lexer.LinesTile | crates/ecp-analyzer/src/preproc_fallback.rs:117-130 | every byte lies in exactly one line or is the line end after it |
| Lexer.BracesAscend | crates/ecp-analyzer/src/preproc_fallback.rs:178-190 | the recorded braces ascend strictly, and each is a brace in code on a line outside directives |
| Lexer.BracesHoldAll | crates/ecp-analyzer/src/preproc_fallback.rs:178-190 | no brace in code on such a line is missing |
| Heads.HeadsAreExact | crates/ecp-analyzer/src/preproc_fallback.rs:178-190 | the code that heads a brace starts behind the last semicolon or brace before it that is code outside directives, or with the source |
| Nesting.StackIsOpen | crates/ecp-analyzer/src/preproc_fallback.rs:449-488 | a stack holds exactly the opens from which on every stretch opens more than it closes |
| DirectiveText.StripCommentsLoop | crates/ecp-analyzer/src/preproc_fallback.rs:215-239 | the loop drops every comment, leaves a space for a block comment, and trims |
| DirectiveText.StripsOnce | crates/ecp-analyzer/src/preproc_fallback.rs:215-239 | no comment is left, none appears where pieces meet, and stripping again changes nothing |
| BraceDepth.BraceDepths | crates/ecp-analyzer/src/preproc_fallback.rs:445-488 | for every brace outside later branches, in order, its offset and the number of counting opens up to it that no such brace has closed |
| BraceDepth.Depths | crates/ecp-analyzer/src/preproc_fallback.rs:445-488 | the same from the source text, through the lexer |
| HeadText.HeadsIff | crates/ecp-analyzer/src/preproc_fallback.rs:418-443 | a head opens a file-scope block exactly if its lines that are no directives, comments left out, end with `extern "C"` or `extern "C++"`, any blanks between and after, or end with neither literal and have the word `namespace`; the search before it never decides |
| HeadText.HeadOfText | crates/ecp-analyzer/src/preproc_fallback.rs:418-443 | so it is of every text before a brace, split at its line ends |
| Conditionals.EntryIff | crates/ecp-analyzer/src/preproc_fallback.rs:455-475 | a brace has a depth entry exactly if no conditional around it, told by the words its lines say, has opened a later branch before it |
| Conditionals.LaterBranchIsSkipped | crates/ecp-analyzer/src/preproc_fallback.rs:455-475 | with if, ifdef or ifndef, then elif, else, elifdef or elifndef, then endif, no line from the second of these to the third counts, nested conditionals and further branches among them or not |
| Conditionals.FirstBranchCounts | crates/ecp-analyzer/src/preproc_fallback.rs:455-475 | a line of the first branch counts if the conditional does |
| Conditionals.CountsAgain | crates/ecp-analyzer/src/preproc_fallback.rs:455-475 | and so does a line after the endif |
| TameConditionals.EntriesOfConditional | crates/ecp-analyzer/src/preproc_fallback.rs:445-490 | for every source of one conditional with lines before, between and after, the depths have an entry for every brace but exactly those from the second branch to the endif |
| BraceDepth.AnyIsSkipped | crates/ecp-analyzer/src/preproc_fallback.rs:455-475 | the flags of the open conditionals say exactly whether some conditional around the line has reached a second or later branch |
| Stretches.BeforeInside | crates/ecp-analyzer/src/preproc_fallback.rs:102-213 | whole lines inside a source that begin as code are read, byte for byte, as they are alone |
| Stretches.LineInside | crates/ecp-analyzer/src/preproc_fallback.rs:102-213 | and give the lines they give alone, offsets and rows shifted |
| Stretches.BracesInside | crates/ecp-analyzer/src/preproc_fallback.rs:178-190 | and the braces, of which only the first can be headed by code before them |
| Exchange.ExchangeKeepsDepths | crates/ecp-analyzer/src/preproc_fallback.rs:445-490 | exchanging whole lines of a later branch for others, both leaving no comment, literal, splice or conditional open, keeps every depth outside, offsets shifted, if and only if the first brace counted after them heads a file-scope block both times or neither |
| Exchange.OwnHeadKeepsDepths | crates/ecp-analyzer/src/preproc_fallback.rs:445-490 | so it does whenever the code that heads that brace starts after the exchange |
| Exchange.ExchangeKeepsDepthAt | crates/ecp-analyzer/src/preproc_fallback.rs:492-496 | then no offset outside the exchange changes its depth |
| TameText.ScanOfLines | crates/ecp-analyzer/src/preproc_fallback.rs:102-213 | lines without comments, literals and splices are scanned as they are, each a directive exactly if it starts with a hash |
| TameText.HeadsDecide | crates/ecp-analyzer/src/preproc_fallback.rs:423-490 | for all sources of such lines that end with their one brace, an exchange in a later branch keeps its depth if and only if all the text before it heads a file-scope block both times or neither |
| HeadLimits.LaterTextReachesOut | crates/ecp-analyzer/src/preproc_fallback.rs:423-443 | a source in which taking `namespace` out of an `#else` changes the depth after the `#endif` |
| BraceDepth.DepthIsUnmatched | crates/ecp-analyzer/src/preproc_fallback.rs:476-490 | the running depth is the number of unmatched counting opens, so it is never negative |
| BraceDepth.DepthAtIsScan | crates/ecp-analyzer/src/preproc_fallback.rs:492-496 | the binary search gives the depth a scan from the end finds |
| BraceDepth.DepthAtIsUnmatched | crates/ecp-analyzer/src/preproc_fallback.rs:492-496 | the depth at an offset counts the unmatched counting opens among the counted braces before it |
| Guards.PreprocRows | crates/ecp-analyzer/src/preproc_fallback.rs:347-399 | the push and pop loop yields exactly the guard rows, and the rows of directives |
| Guards.GuardRowsExact | crates/ecp-analyzer/src/preproc_fallback.rs:315-330 | a row is one exactly if its line defines, as a guard, what the significant line before it tests at depth 0, unless it defines it as 1 and its `#endif` comes next; the rows ascend |
| GuardText.GuardedNameIff | crates/ecp-analyzer/src/preproc_fallback.rs:248-274 | the tests recognised are exactly `ifndef X`, `if !defined X` and `if !defined(X)`, X any identifier, with any blanks and comments before, between and after the tokens |
| GuardText.GuardSpellingIff | crates/ecp-analyzer/src/preproc_fallback.rs:285-301 | a name is spelt like a guard exactly if it is a stem, one of the six endings in letters of any case, and any underscores |
| GuardText.DefinesIff | crates/ecp-analyzer/src/preproc_fallback.rs:274-283 | a definition is a guard's exactly if it is the name alone or the name and 1, with any blanks and comments, the name so spelt |
| GuardLines.GuardRowsAreText | crates/ecp-analyzer/src/preproc_fallback.rs:315-399 | the guard rows of every source in those terms: a line that defines X so, the significant line before it one of the tests of X with no conditional open, and not an endif next if the value is 1 |
| GuardLines.OpeningGuard | crates/ecp-analyzer/src/preproc_fallback.rs:315-399 | a header that opens with such a test and such a definition has the second row among its guards |
| GuardLines.PlainSpellings | crates/ecp-analyzer/src/preproc_fallback.rs:248-283 | so spelt are, of every identifier, the three tests and both definitions with single blanks |
| GuardLines.PlainHeader | crates/ecp-analyzer/src/preproc_fallback.rs:315-399 | so for every name X spelt like a guard, a source that opens with `#ifndef X`, `#define X` or `#define X 1`, and code has the second row among its guards |
| Guards.PopsThisGuard | crates/ecp-analyzer/src/preproc_fallback.rs:375-380 | every pop withdraws the unconfirmed guard and no other |
| Guards.GuardDepth | crates/ecp-analyzer/src/preproc_fallback.rs:375-380 | the depth test beside the pop never fails |
| UnionFind.KindSets.Find | scripts/parity/parity_aggregate.py:85-89 | adds an unseen kind as its own root, returns the root, and halves the path without moving any root |
| UnionFind.KindSets.Union | scripts/parity/parity_aggregate.py:91-94 | merges the two components and changes no other |
| UnionFind.BuildEquivMap | scripts/parity/parity_aggregate.py:76-106 | for any classes in any member order, each kind maps to exactly the kinds that chains of classes link to it |
| LabelClasses.LinkedIsEquivalence | scripts/parity/parity_aggregate.py:76-82 | linkage is an equivalence that holds every class |
| LabelClasses.LinkedIsLeast | scripts/parity/parity_aggregate.py:76-82 | and the least one |
| ForestTheory.HalvingKeepsRoots | scripts/parity/parity_aggregate.py:85-89 | halving a path keeps the root of every kind |
| DiffAccounting.PairRouteAliases | scripts/parity/parity_aggregate.py:257-280 | for given iteration orders, drops from each side the rows whose rank in their file is below the smaller of the file's numbers of route entries and routes, so pairs that many in each file |
| DiffAccounting.PairMethodPrefix | scripts/parity/parity_aggregate.py:229-254 | pairs each prefixed route with the bare route of its file, and drops exactly those |
| DiffAccounting.PairConstFunction | scripts/parity/parity_aggregate.py:140-175 | drops exactly the constants that are a second emission of a function |
| DiffAccounting.PairTemplateClass | scripts/parity/parity_aggregate.py:178-219 | drops exactly the templates that are a second emission of a class |
| DiffAccounting.LangSummary | scripts/parity/parity_aggregate.py:294-393 | for all inputs and iteration orders, the rows of both sides are the model, label and real rows plus the pairs, and the model and real counts are the numbers of rows that only one model knows and that nothing explains, with the routes and route entries that are left after the pairs |
| DiffAccounting.ClassifyLang | scripts/parity/review_diffs.py:198-412 | the listing's buckets hold exactly the rows the passes leave, each once; a row that is no route is listed as real, model, label or double exactly as the rows of its path and name on the two sides say |
| DiffAccounting.CountsByRows | scripts/parity/parity_aggregate.py:316-390 | the counts of given orders as numbers of rows, those of every kind but routes told without any of the passes |
| DiffFates.UnseenIsReported | scripts/parity/parity_aggregate.py:338-376 | a row, no route or route entry, whose path and name the other side does not have is counted as real, or as model when only its side knows its kind |
| DiffFates.LabelledIsTwin | scripts/parity/parity_aggregate.py:351-372 | a row is a label exactly if the other side has its path and name with a kind linked to its own |
| DiffFates.ConstDoubleIsArrow | scripts/parity/parity_aggregate.py:140-175 | a constant is dropped as a double exactly if both sides have a function of its path and name |
| DiffFates.TemplateDoubleIsType | scripts/parity/parity_aggregate.py:178-219 | a template is dropped as a double exactly if both sides have a type of its path and name |
| DiffFates.RouteEntryIff | scripts/parity/parity_aggregate.py:257-280 | the route entries are the entry points named `route@` and a file |
| DiffFates.MatchableIsPrefixed | scripts/parity/parity_aggregate.py:222-254 | a ref route can be matched exactly if some rs route of its file is its name after one of the eleven methods and a blank |
| DiffOrders.SomeOrder | scripts/parity/parity_aggregate.py:257-280 | every choice of rows that pairs the smaller number in each file is what some iteration orders drop |
| DiffDumps.Summary | scripts/parity/parity_aggregate.py:294-316 | the aggregate of the four files of a dump: from the full listings, from the difference files when both of those are empty, missing when all are |
| DiffDumps.Review | scripts/parity/review_diffs.py:198-412 | the listing of the same dump: from the full listings only, empty when both are |
| DiffDumps.ReachesNothingIff | scripts/parity/parity_aggregate.py:294-393 | some iteration orders make the aggregate count nothing if and only if the rows leave nothing to count: but for routes and route entries all are label-equivalent or double emits, each rs route prefixes a ref route of its own, and in every file the other ref routes are as many as the route entries |
| DiffDumps.ScriptsAgreeIff | scripts/parity/review_diffs.py:153-212 | the two agree on their model, real_rs and real_ref counts for every pair of iteration orders if and only if the orders leave no choice that matters and a full listing has rows or the rows of the difference files leave nothing to count |
| DiffDumps.StaleDumpDisagrees | scripts/parity/parity_aggregate.py:310-316 | a dump of difference files only that one counts and the other does not |
| DiffDumps.RunBoth | scripts/parity/review_diffs.py:153-181 | the two runs themselves give equal counts under that condition on the rows |
| DiffOrders.OrdersAgreeIff | scripts/parity/parity_aggregate.py:229-280 | all iteration orders lead to one count if and only if no file leaves them a choice that matters |
| DiffOrders.OrderFreeAgrees | scripts/parity/parity_aggregate.py:229-280 | without such a file any two orders count alike |
| DiffOrders.OrderMatters | scripts/parity/parity_aggregate.py:229-280 | with one, there are two orders whose counts differ by one real row |
| DiffOrders.OrderMattersExample | scripts/parity/parity_aggregate.py:229-280 | such an input exists |
| Scoping.FlatIsLookup | crates/ecp-analyzer/src/indirect_dispatch.rs:51-131 | in any surroundings, the declarations of a stretch of code type a name as the environment carried down the tree does |
| Scoping.FileIsLookup | crates/ecp-analyzer/src/indirect_dispatch.rs:51-60 | at every position of a file, the innermost declaration that holds it before its end is what the language finds: initializers see the outer binding, inner ones hide outer ones, a nested function sees no name of any function around it |
| Scoping.CollectFnVars | crates/ecp-analyzer/src/indirect_dispatch.rs:74-131 | the work-stack walk declares exactly the hidden names, parameters, lets and nested functions |
| Scoping.FnPtrVars.TypeAt | crates/ecp-analyzer/src/indirect_dispatch.rs:435-451 | the loop with a running best gives the type of the best entry |
| Scoping.BestIsChosen | crates/ecp-analyzer/src/indirect_dispatch.rs:435-451 | the best entry holds the position, none that does is narrower, and of equals it is the last tracked one, if any is tracked |
| Scoping.FileNests | crates/ecp-analyzer/src/indirect_dispatch.rs:51-131 | of the declarations of a file that hold a position, ends included, any two nest |
| Scoping.BestIsInnermost | crates/ecp-analyzer/src/indirect_dispatch.rs:435-451 | so the entry the list answers with is the innermost declaration of the name that holds the position, its end included |
| Scoping.BestEnds | crates/ecp-analyzer/src/indirect_dispatch.rs:435-451 | where a declaration of the name ends at the position, the answer is the innermost of those that end there |
| Scoping.BestWins | crates/ecp-analyzer/src/indirect_dispatch.rs:435-451 | where none ends there, it is the innermost that holds the position, as the language has it |
| Scoping.TypeInFile | crates/ecp-analyzer/src/indirect_dispatch.rs:51-181 | collecting a file and asking for a name gives the language's answer if no declaration of the name ends at the position, else the type of the innermost that does; so it is right if and only if none ends there or that one's type is the language's |
| Scoping.EndOfBlockSeesLet | crates/ecp-analyzer/src/indirect_dispatch.rs:440-447 | a call right where a block ends is given the block's binding, which is out of scope |
| SpanRemap.ByteToRowCol | crates/ecp-analyzer/src/framework_helpers.rs:1065-1081 | the row and column of the byte, or of the end when the byte lies past it |
| SpanRemap.BytePositionToSpan | crates/ecp-analyzer/src/framework_helpers.rs:1054-1063 | both ends, cut at 32 bits |
| SpanRemap.AtCounts | crates/ecp-analyzer/src/framework_helpers.rs:1065-1081 | the row counts the line ends before the byte, the column the bytes since the last |
| SpanRemap.AtAscends | crates/ecp-analyzer/src/framework_helpers.rs:1065-1081 | later bytes have later positions |
| SpanRemap.OffsetIsOuter | crates/ecp-analyzer/src/sfc_common.rs:89-110 | the offset position of a script byte is its position in the file, cut at 32 bits on both sides |
| SpanRemap.OffsetKeepsContainment | crates/ecp-analyzer/src/sfc_common.rs:89-110 | without overflow, containment of points and spans, and equality, hold after exactly if before |
| SpanRemap.SameEnclosing | crates/ecp-analyzer/src/framework_helpers.rs:200-212 | of nesting spans the smallest around a point is the same before and after |
| SpanRemap.OverlapTurnsAround | crates/ecp-analyzer/src/framework_helpers.rs:200-212 | two overlapping spans of which another is the smallest after |
| SpanRemap.MergeAll | crates/ecp-analyzer/src/sfc_common.rs:180-222 | one node for each span and name that matched, at its place in the file |
| SpanRemap.NodeSays | crates/ecp-analyzer/src/sfc_common.rs:186-206 | it is exported if any match is; a constant or variable becomes a function if any match is one, else the first kind stays |
| ArgSplit.SplitArgs | crates/ecp-analyzer/src/route_detector.rs:295-330 | the quote, escape and depth loop gives the parts of the text |
| ArgSplit.SplitUndoesJoin | crates/ecp-analyzer/src/route_detector.rs:291-330 | any list of arguments of balanced brackets and closed literals, joined, closed and followed by anything, splits into itself, if and only if it is not empty |
| ArgSplit.PartsAreWhole | crates/ecp-analyzer/src/route_detector.rs:295-330 | for any text, every part but an unfinished last one is balanced with its literals closed: alone, it splits into itself |
| ArgSplit.JoinedIsPrefix | crates/ecp-analyzer/src/route_detector.rs:295-330 | for any text, the parts joined again are a stretch of it from the start |
| Dedup.DedupKeepHighest | crates/ecp-analyzer/src/entry_points.rs:259-303 | the fold over the sorted entries, sorted again |
| Dedup.DedupIsExact | crates/ecp-analyzer/src/entry_points.rs:255-303 | one entry for each uid, by score and uid; it has the uid's highest score, of those the least tag, and every reason of that uid in its own |
| Dedup.DedupTwice | crates/ecp-analyzer/src/entry_points.rs:255-258 | a second run changes nothing |
| ShellWords.CommandLineIsRead | crates/ecp-cli/src/background.rs:118-123 | for every list of arguments, a reader of sections 2.2.1 and 2.2.2 of the POSIX.1-2017 Shell Command Language reads the quoted, joined text back as that list |
| ShellWords.QuotedIsRead | crates/ecp-cli/src/background.rs:181-185 | a quoted argument, whatever stands after it, is read as one word with its characters |
| ShellWords.CommandLinesDiffer | crates/ecp-cli/src/background.rs:118-123 | two lists share a command line only if they are equal |
| RetryJob.Files.Run | crates/ecp-cli/src/background.rs:137-178 | the attempts run up to the first that succeeds and no more than `max`, a sleep between each two; the log lists them; the second command runs once, after a success |
| RetryJob.RunLeavesOneMarker | crates/ecp-cli/src/background.rs:137-178 | exactly one marker is left, the success one exactly if one of `max` attempts succeeds, whatever was there before |

## Left out

- Tree-sitter grammars, queries and node walks: spans, declarators, bindings, reads and abstract trees are inputs.
- git, the file system, mmap, tantivy and `flock`: steps on abstract maps; `git status` is a probe of one path at a time, so an edit can land between two.
- Hash collisions: a fragment id is the route and the content themselves.
- The route of a path: the text after its last dot stands for it; path classes are all source.
- What a shadow candidate is: the set is any set.
- Promotion and garbage collection: any rows and bins may go, or all.
- `Refresh.CoverWarmAttach`: an archive that cannot be written (`unarchived`) leaves its path out, and no path is skipped by git's output.
- `Refresh.RefreshOverlay`: the tree does not change while it runs; `Freshness` and `Fragments` are about trees that do.
- The closure store, config files, heartbeats and the background rebuild of the graph.
- `Freshness.RetireKeepsDirtyFragments`: a file is dirty against HEAD, as git status has it; the refresh that takes its dirty set from the walk over mtimes newer than the build (auto_ensure.rs:776-795) can miss an edit made before the build, and is not modelled.
- `Fragments.SkippedBinIsCurrent`: about the moment the bin is read, while the file keeps the mtime the gate statted.
- `Protocol.Step`: a publish moves its bins and its manifest under one lock, so in one step; a publish that stops early is the other step, after any of its bins. With nothing to write the code returns early (overlay_writer.rs:440-442), which is the second step with no bins; the first may then publish an empty manifest too, so the runs are a superset of the code's. A lock held by a process that died is not modelled.
- `HolderTargets.PicksAgreeIff`: speaks of every list of none or at least two declarators; those that one statement yields have ranges side by side, and the only-if half is not shown for these alone.
- `DiffAccounting.ClassifyLang`: lists rows; the fields of an entry other than the row are not modelled, and neither is the order in which a bucket lists them.
- `Holder.HolderAtPos`: the ranking by area (`holder_of_span`) is the same scan over another key.
- `Reads.Attach`: the text encoding of a name reference; a reference is its kind and name.
- `Reads.Pick`: a declarator ends no earlier than it starts.
- The collection of `#define` names and the lazily filled fields of `Preproc`.
- `Lexer.ScanLines`: bytes are characters of which only ASCII ones are tested for; row numbers are unbounded.
- `Scoping.CollectFnVars`: patterns bind each name once, as Rust requires; `let` stands directly in a block; the C and C++ collectors are not modelled.
- `SpanRemap.OffsetIsOuter`: the caller's `as u32` of the script's start equals the cut below 2^32 rows and columns.
- `SpanRemap.MergeAll`: imports and the other fields of a node.
- The owner-stamping passes: they rank by the same area as `SpanRemap.SameEnclosing`.
- `ArgSplit.SplitArgs`: the keys and string literals read from the parts, `method_argument` and `verbs_in_method_value`.
- `Dedup.DedupKeepHighest`: scores are reals; the order of NaN scores is not modelled.
- `ShellWords.CommandLineIsRead`: the lossy conversion of paths that are no UTF-8.
- `RetryJob.Files.Run`: a job killed part way, and `record_launch_failure`, which takes no lock.
