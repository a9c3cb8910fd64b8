# Models of the compiler's measuring and landing tools

The repository holds an optimizing compiler and the Python tools that measure it, compare it with other compilers and
land changes to it. This project models the algorithms those tools rest on and proves what they promise, for all
inputs. It has one module per file; a module's first comment names what it models.

**Innermost loops** (`tools/innerloops.py`). A worklist follows control flow through machine code; dominators come
from Cooper, Harvey and Kennedy's iteration over reverse postorder, from a virtual root over several entries; natural
loops are collected by header, and those without another header inside are kept. `ControlFlow` defines dominance by
paths and nothing else. `DepthFirst`, `Forest`, `DominatorStep` and `Dominators` prove that the iteration ends with
it, on every graph, reducible or not; `Decoding`, `NaturalLoops` and `InnerLoops` carry that to the loops reported,
which do not overlap.

**The form of a function** (`canonical` of `tools/loopinterchange_oracle.py`). Blocks in depth-first order, names by
place, phi arms sorted. `WalkOrder` tells that order by the places of labels on last lines, without the walk.
`FormDecides.FormDecidesIsomorphism` is the point of the form: for two legible functions the forms are equal if and
only if the functions are isomorphic over the blocks listed. Legible means that nothing shown can be mistaken and
nothing is cut: no name that stays is one given to a block or value of the function, no label is renamed twice, and
every phi has a type of one word and no operand with a bracket. `FormExact.LegibleIffDecided` proves that the
condition is exact. `Terminators` and `HiddenBlocks` tell what is listed from what control reaches, and when the form
decides sameness in all of it. `FormLimits` shows that the layout does not matter.

**The JPEG reference** (`tools/jpeg_reference.py`), against ITU-T T.81. `Bits` and `BitReader` are byte stuffing and
the bit reader, `Huffman` the canonical tables and their decoder, `Coefficients` the run and size coding of a block,
`Scans` the blocks of several components one after the other, `Idct` the fixed-point transform. On all bytes the
decoder succeeds exactly where legal blocks come, and yields what they mean; coded blocks come back exactly, from
stuffed bytes to coefficients; and each sample is within one of the exact transform.

**Group testing and bisection.** `Batching` and `GroupTesting` (`tools/parity_squash.py`), `Reduce`
(`tools/reduce.py`) and `Bisection` (`tools/qcport_sweep.py`, `tools/postland.py`) search with an opaque test. What
they promise holds for every deterministic test; how often they ask is counted.

**Readers and accountants.** `Omf`, `IteratedData` and `ObjectRecords` (`tools/sizes.py`) read the iterated data,
indices and records of OMF objects; `MergeDriver` (`tools/merge_tests_append.py`) joins diff3 conflicts; `SelfTimes`
(`tools/compile_map.py`) splits nested events into self times; `LeafSites` with `Distributions`
(`tools/leaf_sites.py`) pushes container cost up a call graph with cycles; `Closures` (`tools/parity_smoke.py`,
`tools/parity_squash.py`) are the two dependency closures, each the other's reverse.

Code that changes things step by step is modelled by methods with loops, and by classes where the tool keeps state in
fields or in a dictionary it shares (`BitReader.Reader`, `Batching.Landing`, `LeafSites.Sharing`). External tests
(`keeps`, `passes`, `red_with`, `is_bad`, `fails`) and the instruction decoder are functions passed in; `asked` counts
calls. `Lists`, `Arithmetic` and `Sorting` hold what several modules need.

## Where the code and what is said of it part

- `canonical` mistakes a name that stays, such as an argument's, for one it gives when they are spelled alike
  (`FormLimits.GeneratedNamesConfuse`), and it renames a label twice when the label's new name is itself replaced.
  Names like `%v7` that it replaces do no harm. For every function where one of the two happens in a line that is
  shown, there is another on which equality of forms and isomorphism disagree (`KeptNames.KeptNameConfuses`,
  `FormExact.TwiceRenamedTells`).
- `canonical` keeps of a phi its first word after `phi` and the arms it finds, and finds no arm whose operand has a
  bracket. So `phi ptr addrspace(1)` and `phi ptr`, or `phi <2 x i32>` and `phi <2 x i64>`, come out alike
  (`DroppedText.AddressSpaceDropped`), and every function with such a phi has the form of a different one
  (`DroppedText.DroppedConfuses`). Where no shown phi is cut, no shown name is mistaken and no shown label is renamed
  twice, equality of forms and isomorphism agree, and only there (`FormExact.LegibleIffDecided`).
- The form holds no header: functions that differ in the order or types of their parameters or in their result type,
  and in nothing else, have one form. In the model a function has no header.
- `canonical` takes a block's successors from its last line of text. A `switch` is printed over several lines, the
  last of them `]`, so blocks that only a switch leads to are not in the form, and functions that differ in them have
  the same one (`HiddenBlocks.SwitchHidesCases`). The form shows all that control reaches if and only if every label
  on any line of a listed block is listed (`Terminators.ShownIffWhole`); this is exactly when it tells legible
  functions apart in all of it (`HiddenBlocks.WholeIffDecided`). The copy in `tools/simpleloopunswitch_oracle.py`
  joins a switch into one line first.
- `iterated` does not notice content that the body cuts short; it counts it in full
  (`IteratedData.CutShortCountsInFull`). It answers for what is written exactly where every leaf it comes to lies
  inside the body, length byte and content (`IteratedData.BlockReadIffWritten`).
- `share` loses the cost of a container function all of whose callers are recorded at no cost: `sum(...) or 1` then
  divides zeros by one. Every list of own costs arrives in full, from an empty memo, if and only if there is no such
  function (`LeafSites.ConservesIffCosted`).
- `_dominates` calls an instruction no entry reaches dominated by itself alone (`NaturalLoops.IsDominator`); with the
  entry list of `loops` there is no such instruction (`InnerLoops.EveryInstructionReached`).

## Model

| member | source | states |
|---|---|---|
| `ControlFlow.DominatesAntisymmetric` | tools/innerloops.py:271-274 | two reached instructions that dominate each other are one |
| `ControlFlow.DominatorsComparable` | tools/innerloops.py:271-274 | of two dominators of a reached instruction, one dominates the other, so "immediate" has a meaning |
| `DepthFirst.Search` | tools/innerloops.py:281-291 | one search with its stack of half-read iterators keeps the whole search state: what is finished, open and unseen, the tree, and that only reached instructions are seen; it ends |
| `DepthFirst.ReversePostorder` | tools/innerloops.py:278-292 | the reversed finishing order lists exactly the reached instructions, each once, and each but the entries hangs from an earlier one |
| `DominatorStep.Recomputed` | tools/innerloops.py:312-321 | in any pass, the common ancestor of the predecessors lies above the old parent: a parent only ever moves up its own chain |
| `DominatorStep.UpdateKeeps` | tools/innerloops.py:322-324 | moving a parent keeps the whole invariant of the iteration: a forest over the order, chains that hold every dominator, entries under the root |
| `Dominators.Intersect` | tools/innerloops.py:301-307 | the two-finger climb ends at the nearest common ancestor: what is above it is exactly what is above both arguments |
| `Dominators.NearestCommon` | tools/innerloops.py:318-320 | folding `intersect` over the known predecessors gives what is above all of them and nothing else |
| `Dominators.Predecessors` | tools/innerloops.py:294-297 | lists for each node exactly the listed nodes with an edge to it |
| `Dominators.WeightFalls` | tools/innerloops.py:322-324 | every change makes a measure of the whole map smaller: the reason the iteration ends |
| `Dominators.Visit` | tools/innerloops.py:313-324 | one node of a pass keeps the invariant; a change moves its parent up its chain, and no change means the parent is already the nearest common ancestor of its predecessors |
| `Dominators.Pass` | tools/innerloops.py:311-324 | a pass either makes the measure smaller or leaves the map as it was with every node fixed |
| `Dominators.FixpointIsIdom` | tools/innerloops.py:309-324 | a map no pass changes holds the immediate dominators, on every graph and with several entries |
| `Dominators.ChainIsDominators` | tools/innerloops.py:309-324 | at the fixpoint, the chain above a reached instruction is exactly the set of its dominators |
| `Dominators.Dominators` | tools/innerloops.py:271-324 | the iteration ends, and its list gives for every instruction -2 exactly if no entry reaches it, -1 if nothing else dominates it, and else the strict dominator that all its others dominate (all paths from all entries) |
| `Dominators.EntryUnderRoot` | tools/innerloops.py:299-299 | every entry hangs from the virtual root, whatever other code jumps to it |
| `Dominators.IdomUnique` | tools/innerloops.py:271-274 | that description fixes the whole list |
| `NaturalLoops.IsDominator` | tools/innerloops.py:327-332 | climbing the list answers dominance exactly for a reached instruction; an unreached one is dominated by itself alone |
| `NaturalLoops.HeaderDominates` | tools/innerloops.py:335-340 | the header dominates every member of its loop |
| `NaturalLoops.Nested` | tools/innerloops.py:335-340 | a loop whose header another loop's header dominates, and that shares a member with it, lies within it |
| `NaturalLoops.NestedOrDisjoint` | tools/innerloops.py:335-340 | two loops with different headers that share a reached member are nested, one way or the other |
| `NaturalLoops.CollectedExactly` | tools/innerloops.py:348-359 | a body closed under predecessors but at its header is the header with exactly what reaches a back edge's source without passing it |
| `NaturalLoops.AddSource` | tools/innerloops.py:351-358 | the worklist adds exactly what reaches the source without passing the header, and ends |
| `NaturalLoops.TakeEdge` | tools/innerloops.py:348-358 | an edge changes the bodies only if it is a back edge, and then its header's alone |
| `NaturalLoops.Bodies` | tools/innerloops.py:346-358 | over all edges, the headers are exactly the targets of back edges and each body is its merged loop |
| `NaturalLoops.NaturalLoops` | tools/innerloops.py:335-360 | every natural loop is listed once, by ascending header, its members ascending: the header and all that reaches the source of a back edge without passing it |
| `Instructions.WhereIs` | tools/innerloops.py:275-275 | each address gives the index of its instruction, the later of two at one address |
| `Instructions.SuccessorsAreFlow` | tools/innerloops.py:260-268 | the graph has an edge from one instruction to another exactly when the first falls through or branches to the address of the second, which is the last at that address |
| `Decoding.Follow` | tools/innerloops.py:243-257 | one walk keeps everything found reached and every target found or waiting, leaves no address half followed, and either finds more or changes nothing |
| `Decoding.LeastClosed` | tools/innerloops.py:236-238 | whatever holds the decodable entries and is closed under fall-through, branch and call targets holds every address control reaches |
| `Decoding.FoundIsReached` | tools/innerloops.py:239-257 | with nothing waiting, the found addresses are exactly those control reaches |
| `Decoding.Decode` | tools/innerloops.py:234-258 | the decoded text is exactly the instructions control reaches from the entries, in ascending order of address |
| `Decoding.EntriesOrderIrrelevant` | tools/innerloops.py:234-241 | neither the order of the entries nor repetitions among them change the text |
| `InnerLoops.EveryInstructionReached` | tools/innerloops.py:400-405 | with starts and call targets among the entries, every decoded instruction is reached, so no dominator is -2 |
| `InnerLoops.KeptDisjoint` | tools/innerloops.py:407-411 | two loops that contain no other loop's header share no instruction |
| `InnerLoops.Innermost` | tools/innerloops.py:406-415 | the filter keeps exactly the loops without another header inside and, unless asked for, without calls |
| `InnerLoops.Loops` | tools/innerloops.py:392-415 | from bytes to loops: the decoded text is what control reaches, the entries are exactly the instructions at the start, the public names, the procedure names and the known call targets, each once; all of the text is reached from them; the kept loops are exactly the innermost natural loops of the text's graph for those entries, and no two overlap |
| `IrFunctions.OrderIsReached` | tools/loopinterchange_oracle.py:163-174 | on every function the tool gets through, the depth-first order lists exactly the blocks that the labels on last lines lead to from the entry, each once |
| `WalkOrder.OrderDepthFirst` | tools/loopinterchange_oracle.py:163-174 | told without the walk: the entry is listed first, and each next block is the first label not yet listed, by place, on the last line of the latest listed block that has one |
| `WalkOrder.NextUnique` | tools/loopinterchange_oracle.py:163-174 | no other block may come next, so that leaves one order |
| `ArmTexts.FoundIff` | tools/loopinterchange_oracle.py:203-203 | the expression that lists the arms matches the text of an arm exactly when no closing bracket is in its operand |
| `ArmTexts.MatchedIff` | tools/loopinterchange_oracle.py:185-185 | the expression that renames the block of an arm matches its text exactly when neither a comma nor a closing bracket is in its operand, and then takes the block for the name |
| `ArmSorting.SortedEqual` | tools/loopinterchange_oracle.py:203-203 | sorted phi arms agree exactly when the same arms, with repetitions, were sorted |
| `ArmSorting.MappedEqual` | tools/loopinterchange_oracle.py:183-187 | a renaming that keeps arms apart does not confuse lists of them up to order |
| `Names.DecimalInjective` | tools/loopinterchange_oracle.py:175-181 | different numbers are written differently, so generated names are different |
| `Names.OnceMapped` | tools/loopinterchange_oracle.py:165-165 | renaming apart commutes with dropping repeated successors |
| `Canonical.DepthFirst` | tools/loopinterchange_oracle.py:163-174 | the stack loop yields the order that `WalkOrder` tells apart from it, and stops with an error exactly when a block it is led to is missing or empty |
| `Canonical.NumberBlocks` | tools/loopinterchange_oracle.py:175-175 | the n-th block of the order becomes `B<n>` |
| `Canonical.NumberValues` | tools/loopinterchange_oracle.py:176-181 | each name defined in that order becomes `v<n>`, n the number of names defined before it, whether or not it is defined twice |
| `Canonical.Write` | tools/loopinterchange_oracle.py:189-205 | the lines are each block's new name and its statements, renamed; of a phi, its first word after `phi` and those arms whose operand has no bracket, sorted, and nothing else |
| `Canonical.Canonical` | tools/loopinterchange_oracle.py:160-206 | on any list of blocks, whatever their labels, definitions and phis: the form the theorems are about, no form for no blocks, or the error of a missing or empty block |
| `SameForm.OrdersCorrespond` | tools/loopinterchange_oracle.py:167-174 | a bijection between two functions takes one depth-first order to the other |
| `SameForm.RenderTheSame` | tools/loopinterchange_oracle.py:183-204 | corresponding statements whose labels are not renamed twice are rendered alike, phi arms in any order, whatever of the phis is dropped |
| `SameForm.IsomorphicSameForm` | tools/loopinterchange_oracle.py:133-206 | isomorphic functions in which no label is renamed twice have equal forms: label and value names do not matter |
| `FormDecides.BlocksAlike` | tools/loopinterchange_oracle.py:189-206 | equal forms have as many blocks, rendered alike one by one |
| `FormDecides.PhiCorresponds` | tools/loopinterchange_oracle.py:201-204 | legible phis rendered alike have the same type and the same arms up to order under the bijection the two orders define |
| `FormDecides.FormDecidesIsomorphism` | tools/loopinterchange_oracle.py:133-206 | for functions that are legible, phis in full included, forms are equal if and only if a bijection of listed blocks and the values they define, fixing the entry and every name not replaced, maps one function to the other up to phi-arm order |
| `FormLimits.LayoutIrrelevant` | tools/loopinterchange_oracle.py:160-206 | the layout of the blocks after the entry does not matter, whatever the names |
| `FormLimits.GeneratedNamesConfuse` | tools/loopinterchange_oracle.py:183-187 | an input that is not legible: with an argument named `%v0`, returning it and returning the first value defined have one form and are not isomorphic |
| `KeptNames.KeptNameConfuses` | tools/loopinterchange_oracle.py:183-187 | every function that shows a kept name which is given elsewhere: the one with the owner's name in its place, in one line, has the same form and is not isomorphic |
| `Relabelling.RelabelledIsomorphic` | tools/loopinterchange_oracle.py:175-181 | a function with fresh names for all that is replaced is valid and isomorphic to the one it comes from |
| `Relabelling.RelabelledNoWorse` | tools/loopinterchange_oracle.py:183-187 | in it no label is renamed twice, and no more names are mistaken |
| `DroppedText.AddressSpaceDropped` | tools/loopinterchange_oracle.py:201-204 | an input whose phi is not kept in full: `phi ptr addrspace(1)` and `phi ptr` give one form and the functions are not isomorphic |
| `DroppedText.DroppedConfuses` | tools/loopinterchange_oracle.py:201-204 | every function that shows a phi with a second word to its type or an arm with a bracket in its operand: without them it has the same form and is not isomorphic |
| `FormExact.TwiceRenamedTells` | tools/loopinterchange_oracle.py:183-187 | every function that shows a label which is renamed twice: the one with fresh names is isomorphic and has another form |
| `FormExact.LegibleIffDecided` | tools/loopinterchange_oracle.py:133-206 | so the condition is exact: equality of forms is isomorphism for a function, against all that are no worse to read, if and only if no shown name is mistaken, no shown label is renamed twice and no shown phi is cut |
| `Terminators.ShownIffWhole` | tools/loopinterchange_oracle.py:163-165 | the form shows every block that control reaches, over all lines of a terminator, if and only if every label of a listed block is listed |
| `Terminators.ListedIsomorphic` | tools/loopinterchange_oracle.py:133-206 | isomorphism as the form decides it is isomorphism over the listed blocks, as the next is over those control reaches |
| `Terminators.FormDecidesControl` | tools/loopinterchange_oracle.py:133-206 | under that condition, for legible functions, equal forms mean isomorphic in every block control reaches, and conversely |
| `HiddenBlocks.SwitchHidesCases` | tools/loopinterchange_oracle.py:163-165 | an input where it fails: the entry ends with a switch, whose last line `]` has no label, so the form shows the entry alone and a function with another case has the same form |
| `HiddenBlocks.HiddenBlockConfuses` | tools/loopinterchange_oracle.py:163-165 | every function with a block that a listed one leads to and that is not listed: another body there leaves the form as it is and is not the same |
| `HiddenBlocks.WholeIffDecided` | tools/loopinterchange_oracle.py:163-165 | so for a legible function this condition is exact too |
| `Bits.StuffingRoundTrip` | tools/jpeg_reference.py:29-37 | bits packed into bytes with 0xFF stuffed (section F.1.2.3 of ITU-T T.81) are read back as themselves, followed by fewer than eight ones |
| `BitReader.Reader.constructor` | tools/jpeg_reference.py:22-23 | a new reader stands before all data bits of its bytes |
| `BitReader.Reader.Refill` | tools/jpeg_reference.py:30-34 | taking the next byte, and the zero after 0xFF, changes no remaining bit |
| `BitReader.Reader.Bit` | tools/jpeg_reference.py:29-37 | fails exactly when no bit remains, else gives the first remaining bit and keeps the rest |
| `BitReader.Reader.Receive` | tools/jpeg_reference.py:39-43 | fails exactly when fewer than n bits remain, else gives the number the first n denote and keeps the rest |
| `Huffman.Build` | tools/jpeg_reference.py:52-61 | the three tables hold, per length, the last code, the place of the first value and the first code (section C.2 of T.81) |
| `Huffman.KraftSumIs` | tools/jpeg_reference.py:52-61 | the codes assigned up to a length, weighed by length, are the Kraft sum |
| `Huffman.CodeFits` | tools/jpeg_reference.py:52-61 | under Kraft's inequality every code fits in its length |
| `Huffman.LongerBeyond` | tools/jpeg_reference.py:64-71 | what a longer code starts with is at least the next unassigned code of the shorter length, the invariant of decoding |
| `Huffman.PrefixFree` | tools/jpeg_reference.py:52-61 | under Kraft's inequality no code word starts another |
| `Huffman.TakesUnique` | tools/jpeg_reference.py:64-71 | at most one value's code word starts a stream |
| `Huffman.WordsTaken` | tools/jpeg_reference.py:64-71 | a concatenation of code words decodes to their values in order, consuming exactly their lengths |
| `Huffman.WordsTakenUniquely` | tools/jpeg_reference.py:64-71 | and to nothing else |
| `Huffman.Decode` | tools/jpeg_reference.py:64-71 | the decoder gives the value whose code word comes next and consumes that word alone; it fails exactly when none does; the index into the values is always in range |
| `Coefficients.ZigzagOnce` | tools/jpeg_reference.py:14-15 | the zigzag table visits each of the 64 places once |
| `Coefficients.ZigzagSteps` | tools/jpeg_reference.py:14-15 | the order of figure A.6 of T.81, apart from the table: one step up-right along an antidiagonal where row plus column is even, down-left where it is odd, and at a border on to the next |
| `Coefficients.ExtendRoundTrip` | tools/jpeg_reference.py:74-75 | a nonzero value is recovered from its category and extra bits (section F.1.2.1 of T.81) |
| `Coefficients.NextSymbol` | tools/jpeg_reference.py:172-183 | what the encoder of section F.1.2.2 emits next: an end of block, sixteen zeros, or a run and a size |
| `Coefficients.BlockCodedReads` | tools/jpeg_reference.py:168-183 | the stream of a coded block, with any two valid tables and whatever follows, means exactly the coefficients that were coded |
| `Coefficients.LegalIffReads` | tools/jpeg_reference.py:168-183 | a stream is legal for a block exactly when it means some coefficients |
| `Coefficients.BlockLegalUnique` | tools/jpeg_reference.py:168-183 | where a legal block ends is determined |
| `Coefficients.ReadByte` | tools/jpeg_reference.py:169-174 | a byte is read exactly when the word of one comes next, and that word is consumed |
| `Coefficients.Turn` | tools/jpeg_reference.py:173-183 | on every stream one turn of the coefficient loop goes on exactly where the symbol that comes may stand there, and fails where none comes, its run leads past the block or its value lacks bits; the coefficients it means are put in place |
| `Coefficients.Block` | tools/jpeg_reference.py:168-183 | on every stream the block is read exactly when a legal one comes, which is consumed; what comes out is what it means, each coefficient times its quantizer in its zigzag place and the DC coefficient for the next prediction |
| `Coefficients.BlockInBytes` | tools/jpeg_reference.py:29-37 | packed and stuffed into bytes, a block's bits reach the reader unchanged with whatever follows |
| `Scans.CodedScan` | tools/jpeg_reference.py:165-183 | blocks coded one after the other, each after the last of its own component, mean the coefficients that were coded |
| `Scans.Blocks` | tools/jpeg_reference.py:165-183 | on every stream blocks of several components in scan order are read exactly when legal blocks come, which are consumed; each means its coefficients after the last of its own component |
| `Scans.Scan` | tools/jpeg_reference.py:153-183 | on all bytes the scan succeeds exactly when they begin with legal blocks, and yields what these mean; where they are coded blocks, packed and stuffed, every coefficient of every block comes back |
| `Idct.TmulBounds` | tools/jpeg_reference.py:78-81 | a truncated product is less than one unit off, toward zero |
| `Idct.TmulWhole` | tools/jpeg_reference.py:89-89 | the product with a whole number is exact |
| `Idct.SumOdd` | tools/jpeg_reference.py:78-97 | truncation is toward zero: with every coefficient negated, the sum of the second pass is negated |
| `Idct.FirstPass` | tools/jpeg_reference.py:85-89 | for any integer table in place of the cosines, the first pass is the exact sum |
| `Idct.WithinOne` | tools/jpeg_reference.py:92-98 | each sample is within one of the exact double sum rounded and clamped, and equal to it unless the fraction is within 8184/2^20 of a whole number |
| `Idct.ClampHidesTruncation` | tools/jpeg_reference.py:95-98 | truncation toward zero and floor agree after the clamp |
| `Idct.ClampNearest` | tools/jpeg_reference.py:98-98 | a sample is the nearest number from 0 to 255, and no other is as near |
| `Idct.Idct` | tools/jpeg_reference.py:84-99 | both passes in place: all 64 samples within one of the exact ones |
| `GroupTesting.FoundRedAlone` | tools/parity_squash.py:1350-1357 | with no assumption on the predicate, every member found is red alone, and they come in the order of the members |
| `GroupTesting.CulpritsFound` | tools/parity_squash.py:1350-1357 | if a set is red exactly when it holds a culprit, exactly the culprits are found, in order, with at most 1 + 2k ceil(log2 n) questions for k among n |
| `GroupTesting.AskedExtremes` | tools/parity_squash.py:1350-1357 | one question when nothing is red, one less than twice the members when every set is |
| `GroupTesting.NamedRedAlone` | tools/parity_squash.py:1360-1363 | with or without the question about sets, the members named are red alone and in order, and none is named only when none is red alone; unless halving found some, they are all the members red alone |
| `Batching.Landing.Batch` | tools/parity_squash.py:949-979 | each request is landed or refused, once only if the hook repeats none, and landed ones keep their order; each one landed did so in a list that passed on top of what had landed, and each one refused was in a list that failed there, alone or named by the hook among others; tested on top, the final landed list is the list the last successful test was about; at most 2n - 1 tests whatever the hook names; with independent culprits and a hook that names only culprits exactly the culprits are refused, without a hook in order and in at most 1 + 2k ceil(log2 n) tests, with one that names them all in at most two unless all are culprits |
| `Reduce.Pass` | tools/reduce.py:30-37 | one pass drops, from the front, each chunk that can go from what is left then: a subsequence comes back, shorter and accepted if anything was dropped; if nothing was, no chunk at a multiple of the size can go; exactly ceil(m/size) questions |
| `Reduce.PassCost` | tools/reduce.py:28-40 | what a pass asks, the passes after it need no longer, whether chunks halve or single elements go |
| `Reduce.TotalBound` | tools/reduce.py:28-28 | all the passes together ask at most n(n + 1)/2 + 2n times, within n * n + 3 * n |
| `Reduce.Ddmin` | tools/reduce.py:26-40 | for any predicate, monotone or not: it ends within that many questions, on a subsequence from which no single element can go, accepted unless nothing was dropped; it gives its input back only if, for half its length, half that and so on down to one, no chunk of that size at a multiple of it can go |
| `Reduce.Blocks` | tools/reduce.py:43-51 | the blocks joined are the lines again, each ends with its blank line but perhaps the last |
| `Reduce.DividedOnce` | tools/reduce.py:43-51 | there is one way to divide a text so |
| `Reduce.FlattenSubsequence` | tools/reduce.py:54-59 | leaving blocks out leaves lines out |
| `Reduce.Reduce` | tools/reduce.py:54-59 | blocks first or not, the lines returned are a subsequence, 1-minimal line by line, and accepted unless nothing was dropped; line by line, a text comes back whole only if no chunk of any of those sizes can go; blocks first, the same search over its blocks comes before the one over the lines that are left |
| `Bisection.Probe` | tools/qcport_sweep.py:168-173 | the probe is the nearest commit that builds at or above the middle, else the nearest below; none only if nothing in the range builds; exactly one test, and one for each commit passed over |
| `Bisection.FirstBad` | tools/qcport_sweep.py:160-180 | on every history the answer is bad if the last commit is, and only commits that do not build separate it from a good one or the start; at most 2 ceil(log2 n) (1 + u) tests with u commits that do not build, at most ceil(log2 n) when all do, and never less than floor(log2 n) |
| `Bisection.UnbuiltIs` | tools/qcport_sweep.py:166-173 | u is the number of places whose commit does not build |
| `Bisection.FlipIsFirst` | tools/qcport_sweep.py:160-164 | with a single flip, no commit before the answer is bad |
| `Bisection.FlipIsUnique` | tools/qcport_sweep.py:160-164 | and the answer is the first bad commit that builds |
| `Bisection.FlipOfTwo` | tools/qcport_sweep.py:160-180 | when everything builds, the answer's predecessor is good, or it is the first: the two searches promise the same |
| `Bisection.Culprit` | tools/postland.py:40-51 | nothing exactly when there is no commit or the last passes; else a failing commit whose predecessor passes, or the oldest, in at most 1 + ceil(log2 n) tests and at least 1 + floor(log2 n) |
| `Bisection.LastingFailure` | tools/postland.py:40-41 | when failing is for good, that is the first commit that fails |
| `Omf.Block` | tools/sizes.py:92-104 | on any bytes, a block that is read starts inside the body and ends further on |
| `Omf.Iterated` | tools/sizes.py:92-104 | the recursion with its running position is that reading, and ends on any bytes |
| `Omf.Expanded` | tools/sizes.py:107-113 | so is the loop over a record |
| `IteratedData.WrittenSize` | tools/sizes.py:94-97 | a repeat count of two bytes, four in the wide form, and a block count of two |
| `IteratedData.BlockIsLength` | tools/sizes.py:92-104 | for every tree of nested blocks, 16-bit or wide, the size is the length of its full expansion and the end is its exact end, whatever surrounds it |
| `IteratedData.RecordIsLength` | tools/sizes.py:107-113 | a record of blocks expands to the sum of their expansions |
| `IteratedData.TreeOf` | tools/sizes.py:92-104 | a block that is read and ends inside the body is the serialization of some tree |
| `IteratedData.InsideIff` | tools/sizes.py:92-104 | the reading ends inside the body exactly when every leaf it comes to has its length byte and its content inside, and ends where the last of them does |
| `IteratedData.BlockReadIffWritten` | tools/sizes.py:92-104 | so a block is written at a place if and only if every leaf met from there lies inside the body, and the answer is then the length of its expansion and the end of its last leaf |
| `IteratedData.RecordReadIffWritten` | tools/sizes.py:107-113 | written blocks fill a record if and only if every leaf read from it lies inside, and the answer is then their sum |
| `IteratedData.CutShortCountsInFull` | tools/sizes.py:98-99 | past the end it is not so: content that the body cuts short is counted in full |
| `ObjectRecords.IndexReadIffWritten` | tools/sizes.py:73-77 | an index is read exactly where it is written in its short or its long form |
| `ObjectRecords.Records` | tools/sizes.py:126-129 | the walk over the records ends and yields what the specification says |
| `ObjectRecords.RecordsOfFile` | tools/sizes.py:125-129 | a file of records, with any checksums, is walked back into exactly those records |
| `MergeDriver.StartsWithIff` | tools/merge_tests_append.py:26-33 | a marker line is the marker with anything after it, or nothing |
| `MergeDriver.SidesKept` | tools/merge_tests_append.py:22-22 | each side's whole file is in the joined file, in order |
| `MergeDriver.ConflictJoined` | tools/merge_tests_append.py:36-36 | a conflict is joined to OURS first and THEIRS last, with one newline between exactly when OURS ends without one |
| `MergeDriver.InsertionsJoined` | tools/merge_tests_append.py:22-46 | on a concrete file with the four markers spelled out, the two insertions come out in that order |
| `MergeDriver.ReadOnce` | tools/merge_tests_append.py:24-45 | a file can be divided into text and well-marked conflicts in one way only |
| `MergeDriver.BegunIsNoFile` | tools/merge_tests_append.py:46-46 | a file whose last conflict is not closed cannot be divided so |
| `MergeDriver.Resolved` | tools/merge_tests_append.py:22-46 | on every list of lines: joined exactly when it divides into text and conflicts that all have an empty base and no item defined on both sides, and then to each conflict's OURS, a newline where one is missing, and THEIRS; refused in every other case |
| `SelfTimes.SortedOrdered` | tools/compile_map.py:167-167 | the events in order of start, the longer first, none lost |
| `SelfTimes.SortedStable` | tools/compile_map.py:167-167 | events with one start and one duration stay in the order of the trace |
| `SelfTimes.TopIsParent` | tools/compile_map.py:170-174 | after the pops, the top of the stack is the last earlier event still running |
| `SelfTimes.OwnTimes` | tools/compile_map.py:168-174 | the walk leaves every event its duration less its direct children's, laminar or not |
| `SelfTimes.OwnTimeNatural` | tools/compile_map.py:178-178 | in a laminar family no own time is negative, so the cut at zero cuts nothing |
| `SelfTimes.OutermostCover` | tools/compile_map.py:165-166 | the outermost events cover every covered instant, and once |
| `SelfTimes.SelfTimesPartition` | tools/compile_map.py:165-174 | for every laminar family in any order, own times are natural and add up to the number of instants at which anything runs |
| `SelfTimes.SelfTimes` | tools/compile_map.py:165-179 | every name of an event is reported, with the own times of its events |
| `SelfTimes.ReportedCovers` | tools/compile_map.py:175-179 | what is reported for all names together is the time covered |
| `Distributions.TotalAdded` | tools/leaf_sites.py:62-64 | adding a distribution in proportion adds its total in proportion |
| `Distributions.Add` | tools/leaf_sites.py:62-62 | the loop over a distribution's entries, in any order, is that addition |
| `LeafSites.Sharing.Ask` | tools/leaf_sites.py:51-65 | the memoized recursion is its specification, and ends on every graph, cycles included |
| `LeafSites.ShareIsDistribution` | tools/leaf_sites.py:51-65 | where container functions that are called cost something, every answer about one and everything remembered is a distribution summing to 1 over "(root)", the functions outside the container code that call into it and, if a container function calls itself, "(self)" |
| `LeafSites.ChainCut` | tools/leaf_sites.py:54-55 | a chain of container callers is cut after thirteen steps, and all goes to "(root)", whoever calls the function it has come to |
| `LeafSites.ConservesIffCosted` | tools/leaf_sites.py:51-69 | from an empty memo, every list of own costs arrives in full, class by class, if and only if no container function is called at no cost at all; one unit of such a function is lost |
| `LeafSites.ShareIsWeight` | tools/leaf_sites.py:51-65 | when container chains have no cycle and at most twelve steps, neither the depth limit nor what is remembered matters: the answer is the share that proportion defines |
| `LeafSites.ShareRemembers` | tools/leaf_sites.py:50-65 | cycles or not, every answer is remembered and nothing remembered ever changes |
| `LeafSites.ChargedByMemo` | tools/leaf_sites.py:50-69 | all functions share one memo: each is charged by the answer that is in it at the end |
| `LeafSites.OneCharged` | tools/leaf_sites.py:66-69 | charging one function gives its class its own cost and no other class anything |
| `LeafSites.Sharing.Charge` | tools/leaf_sites.py:66-69 | the loop charges each container function by its share of its own cost; under that condition, class by class, the cost over all sites is the own cost of the container functions, and no site is container code |
| `Closures.Dependants` | tools/parity_smoke.py:534-539 | the rounds end, cyclic graphs too, with exactly what depends on a touched package through some chain |
| `Closures.Needs` | tools/parity_squash.py:655-663 | the worklist ends with exactly what the package depends on through some chain |
| `Closures.ClosuresDual` | tools/parity_smoke.py:534-539 | p is among the dependants of t if and only if t is among the needs of p |

## Left out

- Processes, git, GitHub, cargo, perf, valgrind, thread pools, locks, caches on disk and reports: plumbing around the modelled cores.
- Instruction decoding (x86, MSP430): an instruction is its address, the next one, its flow kind and its known target; the decoder is a function from addresses, and a decoded instruction is at the address asked for.
- The default entry list `[0]` of `natural_loops`, the naming, listing and latch of each loop, and the other images of a file: easy once the loops are known.
- The regular expressions of `canonical`: a function is its blocks with their tokens, definitions, and phi types and arms. A line is taken after the substitutions that cut comments, delete `, align N` and metadata, unquote globals and respell floating literals; what those make equal is equal. Forms are lines of tokens, not characters.
- Names in quotes, which the expressions of `canonical` do not read, are text; a phi that defines one is a plain line. A quoted string in an operand that holds ` ]` or `[ ` is found in pieces by the tool; in the model the arm of an operand with a closing bracket is dropped.
- An entry without a heading is a block named `%entry`; phi arms call it by its number, which is then a name that stays.
- `FormDecides.FormDecidesIsomorphism`: is about functions in which names are defined once, no block is empty, and last lines lead to blocks of the function, as LLVM prints them; what `Canonical.Canonical` does on others is its error, or a form about which nothing is claimed.
- `HiddenBlocks.WholeIffDecided`: supposes that every label on a line of a listed block names a block, as it does in IR that parses; `Terminators.ShownIffWhole` and `Terminators.FormDecidesControl` do not.
- The order of phi arms is any total order on renamed arms, of which the order of their text is one.
- The three sibling copies of `canonical`: two differ in the metadata they drop, and the one of `tools/simpleloopunswitch_oracle.py` also joins the lines of a switch before it reads them; the joining is not modelled.
- `restart` between intervals, marker segments, colour conversion, the floating path and the bitmap header of the JPEG reference; `int(x / 1024)` is exact truncation, which holds for the sizes that occur.
- `Scans.Blocks`: takes the components of the blocks in scan order as a list; the loops over rows, columns and sampling factors that make the list are not modelled.
- That `COS10` approximates cosines: the transform is stated for any integer 8 by 8 table.
- `Batching.Landing.Batch`: models landings that succeed; a head that moved, a wait list or a rescan that drops a member late, and the push itself, are not modelled.
- The suspects-first variant of `red_members`, and grouping by unit: the same searches over other lists.
- `ObjectRecords.Records`: yields kinds and bodies; what `segments` adds up per segment from names, definitions and data records is not modelled.
- `Omf.Iterated`: models unbounded recursion; Python's recursion limit is not modelled.
- The text of lines in `MergeDriver` is given as lines with their ends, and `defined` is a function to sets of items: splitting lines and finding items by regular expression are not modelled.
- `SelfTimes.SelfTimes`: takes the complete events that are not totals, with their report names; filtering and naming are text.
- `LeafSites.ShareIsDistribution`: weights are real numbers, so rounding of floats is not modelled; which functions are container code is a given set, and the file is taken as read.
- Float rounding, wall-clock time and memory limits everywhere: not modelled.
