# Verified model of the dwarfpp algorithms

dwarfpp reads DWARF debugging information through libdwarf and adds algorithms of its own on top. This project
models those algorithms in Dafny, over abstract graphs, trees and byte sequences, and proves what they are for.
`dafny verify dfyconfig.toml` checks all of it. `Wrappers` has the optional value that all parts use.

**The type graph.** `TypeGraph` is a finite graph of types, possibly cyclic, with ordered labelled edges and a node
for void. `EdgeIterator` is the iterator that yields every edge; `Scc` the resumable search for strongly connected
components, and `SccCache` the results that `get_scc` caches in the types over any sequence of calls. `WalkType` is
the recursive walk, `WalkIterator` the iterator that is meant to visit the same sequence, and `WalkEquivalence` says
when it does. `TypeEquality` is the structural equality that breaks cycles by assumption; `TypeShapes` says kind by
kind what makes two types equal, `EqualityLaws` when equality is an equivalence and which graphs it ends on, and
`AssumedEquality` which verdicts given under assumptions are right. `EqualityCache` has the classes of equal types and
the order on iterators built on them. `Summary` and `SummaryLaws` are the summary codes by containment, and
`SummaryContents` says what goes into them. `Acyclic` has the ranks that recursion over graphs without cycles goes by.

**The tree of entries (DIEs).** `DieTree` lays the tree out in preorder. `DieRoot` is the root object, which answers
first-child, next-sibling and parent queries from partly filled caches. `DieIterators` has depth-first, `BreadthFirst`
and `BfSearch` breadth-first iteration and the pruned search by offset, and `DieAlloc` the making of new entries in
memory and finding them again.

**Frame tables and locations.** `Leb128` and `FrameInstrs` decode call-frame instructions, `FrameTable` interprets them
into unwind rows, and `FrameRules` says when these give the rules that are meant. `FrameMeaning` has the instructions
of DWARF 4 with their bytes and their meaning, one by one, and connects all three to them. `LocEval` evaluates location
expressions and lists; `LocArithmetic` says what each operation computes, `LocStacks` what evaluation does to the stack
whatever the values, and `LocPieces` what resuming after a piece gives. `CfaRewrite` and `LoclistRewrite` replace
registers by the canonical frame address in location lists, and `LocAdditive` replaces the frame base by an addition.

**Address ranges.** `RangeIntervals` maps the addresses of an object that lies in several ranges to offsets in it.

Objects whose methods update fields are classes here too; loops are loops. Their contracts refer to functions and
predicates about which the lemmas then say what the source promises.

Where the code falls short of its intent, the model follows the code, and a lemma says exactly when the result is
still right:

- The walk iterator takes a finished type for one that it may enter again, even when it is on the stack: on a
  structure with two members of a type that points to itself it never ends (`NeverEnds`). It also skips all the edges
  of a type whose first edge leads back (`LeavesOutParameter`), and finds the targets of later edges by `get_type`,
  not through the defining entry. It visits what the recursive walk does, and ends, exactly when at each visit either
  no edge leads back and the targets agree, or all edges lead back, the first to a type not yet finished
  (`IteratorIsWalkIff`).
- All kinds of types but those with data members and subprograms turn a verdict that rests on an assumption into a
  plain one (`MarkIsDropped`), so that `equal` can cache a wrong result: `EqualVerdictRestsOnAssumption` is an
  instance on types that have no summary code (`ListHasNoCode`). A verdict other than unequal is right exactly when
  the assumptions consulted for it are (`VerdictRightIff`), so it is if the whole comparison ends other than unequal
  (`InsideIsRight`).
- A missing name compares equal to any name, so equality need not be transitive (`NamesBreakTransitivity`). It is
  exactly when no type is equal to two types of different names (`TransitiveIff`).
- `read_uleb128` shifts in `int`. With that width it inverts encoding for values below 2^31, with 64 bits for values
  below 2^63 (`UlebRoundTrip`, `SlebRoundTrip`).
- The two `val_offset` instructions read their operands with the kinds of number swapped (`ParseEncoded`, through
  `ValOffsetReads` and `ValOffsetSfReads`).
- Advances are not multiplied by the code alignment factor (`FactorIsLost`): the rules at all addresses are the right
  ones exactly when the factor is 1 or the rules change only where a set_loc is (`RulesAlikeIff`).
- Offsets are stored in an `int` (`LargeOffsetIsLost`): the table gives the right rules exactly when at no advance, nor
  at the end if the last row is not empty, a rule depends on an offset that does not fit (`TableRightIff`).
- A register definition holds all its alternatives at once, so that an old offset can come back (`StaleOffset`).
- `DW_OP_breg`, `DW_OP_bregx` and `DW_OP_lit` push a zero under their value: the stack is that of section 2.5.1 of
  DWARF 4 exactly when none of them comes before the first piece (`ExtraZeroIff`). Rewriting is proved with the single
  push; with the extra zero it keeps an expression's meaning only if it replaces nothing (`ExtraZeroLosesMeaning`).
- `DW_OP_shra` shifts in zeros. It is the arithmetic shift of section 2.5.1.4 exactly when the top bit is clear or
  nothing is shifted (`ShiftsAlikeIff`).
- A rewritten list keeps each original entry next to the rewritten ones, and the first match counts: an address selects
  a rewritten expression exactly when a row that has the address begins no later than the original entry
  (`RowsTakeEffectIff`); `LaterRowIsShadowed` is a row that never takes effect.
- `absolute_loclist_to_additive_loclist` adds each offset to whatever is on top of the stack. An expression that meant
  the same has exactly one use of the frame base (`AdditiveNeedsOneUse`). Then the operations after the use decide
  (`TheRestDecides`): the meaning is kept if nothing is left on the stack before it, and the state of the top is right
  or set again (`AdditiveMeansTheSame`), or if all that is left is added to it at once (`AddedLaterMeansTheSame`). If
  only some of it is added, the rest has to be the frame base (`SomeAddedMeansTheSameIff`); one other operation has to
  treat the two alike (`OneValueMeansTheSameIff`), as `ProductIsLost` does not.
- `evaluator::eval` steps past a piece when it stops and once more when it resumes, so that the first operation of the
  next piece is lost, and it keeps the state of the top from the piece before (`SecondPieceIsLost`,
  `RegisterPieceIsLost`, `EmptyPieceIsFilled`). Stack and state are right exactly if the lost operation does not push
  and the state it would leave is the one kept, or is set by a later operation; for an empty piece, exactly if what is
  evaluated instead leaves nothing and the state of an address (`ResumedIsRightIff`).
- `rangelist::find_addr` agrees with the interval map only on address-sorted lists (`AgreeIffSorted`). The distance
  it returns is the length of the list, not the place of the range.

## Model

| member | source | states |
|---|---|---|
| EdgeIterator.VisitEdges | src/dies.cpp:626-711 | from any start type of any finite graph, the iterator yields each labelled edge whose source is reachable exactly once, no other, and then ends |
| EdgeIterator.EdgeIterator.Increment | src/dies.cpp:626-711 | one step yields exactly one edge that was not yielded before, or ends having yielded nothing more; the stack stays a path of grey types from the start |
| EdgeIterator.Descend | src/dies.cpp:657-670 | entering a white type makes it grey, keeps the stack a grey path, and yields its first edge and nothing else |
| EdgeIterator.Sideways | src/dies.cpp:676-693 | a sideways step takes the next edge out of the current edge's source, which is grey and on top of the stack |
| EdgeIterator.Backtrack | src/dies.cpp:694-706 | blackening the top of the stack when its edges are exhausted keeps the invariant and changes nothing in what has been yielded |
| EdgeIterator.BlackAtEnd | src/dies.cpp:626-711 | when the stack is empty, the edges yielded are those with a source reachable from the start |
| Scc.BuildSccs | src/dies.cpp:2420-2576 | the builder ends having numbered the types reachable outside the cached ones, two with the same number exactly when each reaches the other |
| Scc.SccBuilder.Increment | src/dies.cpp:2420-2561 | a run up to the next white type keeps the invariant and has numbered at least one more type, so the resumable loop ends |
| Scc.SccBuilder.VisitNode | src/dies.cpp:2454-2466 | a white type gets the next preorder number and goes on the stack and both lists |
| Scc.SccBuilder.ScanEdges | src/dies.cpp:2471-2524 | the edges are followed up to the first to a white type; edges to cached types are passed over |
| Scc.SccBuilder.MergeSegments | src/dies.cpp:2503-2520 | popping candidates later than the target of a back edge keeps the invariant, and leaves no candidate the edge goes behind |
| Scc.SccBuilder.AssignComponent | src/dies.cpp:2531-2547 | all types seen since the current one, and no others, get the new component number |
| Scc.SccBuilder.CloseNode | src/dies.cpp:2526-2555 | a type whose edges are done becomes black, with its component assigned if it is the last candidate |
| Scc.SccBuilder.Backtrack | src/dies.cpp:2436-2453 | leaving a black type resumes the type below it at the edge after the one it was entered by |
| Scc.RunIsComponent | src/dies.cpp:2531-2547 | the types assigned together are a whole strongly connected component |
| Scc.MergeKeepsInv | src/dies.cpp:2503-2520 | every candidate merged away is mutually reachable with the one that stays |
| Scc.AssignKeepsInv | src/dies.cpp:2531-2555 | assigning a component and finishing its first type keeps the builder's invariant |
| Scc.AtEndComponents | src/dies.cpp:2427-2561 | with an empty stack, the types reached are all assigned, and equal numbers mean mutual reachability |
| SccCache.TypeSccs.GetScc | src/dies.cpp:2257-2687 | over any sequence of calls, the cache stays right; earlier results stay; every type reached without passing a cached one gets its result |
| SccCache.TypeSccs.Install | src/dies.cpp:2641-2680 | the results of a run are installed in the types reached, null for types on no cycle; no type of a cyclic component has a result yet |
| SccCache.TypeSccs.Forget | src/dies.cpp:2672-2674 | a type on no cycle is not kept alive, and its cached result may go away with it |
| SccCache.CollectEdges | src/dies.cpp:2579-2639 | each created component gets exactly the edges with both ends in it |
| SccCache.CutReach | src/dies.cpp:2477-2485 | a path between two types of an uncached component never meets a cached type |
| SccCache.CutKeepsComponents | src/dies.cpp:2477-2485 | while the cached types are whole components, dropping the edges into them changes no uncached type's component |
| SccCache.BuiltComponents | src/dies.cpp:2477-2576 | numbers given in the cut graph are those of the components of the whole graph |
| SccCache.CycleHasEdge | src/dies.cpp:2642-2656 | a type is on some cycle exactly when its component has an edge with both ends in it |
| SccCache.CreatedCyclic | src/dies.cpp:2587-2656 | an edge set is empty exactly for types on no cycle, and otherwise is exactly the edges within the component |
| SccCache.InstalledUnion | src/dies.cpp:2641-2680 | after installing, the cached types are whole components again |
| SccCache.InstalledOk | src/dies.cpp:2641-2680 | after installing, two cyclic types share one component object exactly when they are mutually reachable |
| SccCache.ForgetKeepsOk | src/dies.cpp:2647-2680 | dropping the result of a type on no cycle keeps the cache right |
| WalkType.WalkFrom | src/dies.cpp:763-828 | on every finite graph, cyclic or not, the recursion terminates, and no type is twice on the path of any call |
| WalkType.WalkVisitsReachable | src/dies.cpp:763-828 | the walk visits exactly the types that can be reached |
| WalkType.WalkIsUnfold | src/dies.cpp:763-828 | on an acyclic graph the walk is the plain unfolding: the check for types being walked never cuts it |
| WalkIterator.WalkIterator.Increment | src/dies.cpp:535-617 | on every graph, a step goes deeper along the first edge unless that leads to a grey type or is to be skipped, and else sideways |
| WalkIterator.WalkIterator.Sideways | src/dies.cpp:578-617 | backtracks to the nearest type on the stack with another edge, finishing every type it leaves |
| WalkEquivalence.RunIterator | src/dies.cpp:535-617 | on every graph, the positions visited are those of the run of steps, up to any bound |
| WalkEquivalence.IteratorIsWalkIff | src/dies.cpp:535-828 | on every graph, the iterator visits the positions of the recursive walk, in order, and ends, exactly when at each visit no edge leads back and both find the same targets, or all edges lead back and the first to a type not yet finished |
| WalkEquivalence.AcyclicIteratorIsWalkIff | src/dies.cpp:535-828 | on an acyclic graph, exactly when both find the same targets at every reachable type |
| WalkEquivalence.NeverEnds | src/dies.cpp:560-577 | on a structure with two members of a self-referential type the iterator visits positions without end |
| WalkEquivalence.LeavesOutParameter | src/dies.cpp:560-577 | under a function type that returns a type on the path, the iterator never visits the parameters, which the recursive walk visits |
| WalkEquivalence.WalkLikeTheRecursion | src/dies.cpp:535-828 | a run as long as the recursive walk, and one more, visits the same positions exactly under that condition |
| TypeEquality.EqualsIffBisimilar | src/dies.cpp:2688-2732 | with no assumptions, the verdict is other than unequal exactly when some bisimulation for the local tests relates the types |
| TypeEquality.EqualsIsSound | src/dies.cpp:2688-2732 | under assumptions, a verdict other than unequal comes with a bisimulation up to them |
| TypeEquality.MayEqualIsSound | src/dies.cpp:3699-3830 | types with data members that compare equal while assumed equal have members related up to that assumption |
| TypeEquality.EqualsIsComplete | src/dies.cpp:2688-2732 | types related by a bisimulation up to the assumptions never compare unequal under them |
| TypeEquality.EqualsIffBisimilarUpTo | src/dies.cpp:2688-2732 | under any assumptions, the verdict is other than unequal exactly when a bisimulation up to them relates the types |
| TypeEquality.NoVerdictByAssumption | src/dies.cpp:2688-2732 | with no assumptions the verdict is never by assumption |
| TypeShapes.EqualsSymmetric | src/dies.cpp:2688-2732 | the verdict, with or without its mark, is the same in either order |
| TypeShapes.SubprogramsCompare | src/dies.cpp:4537-4583 | two subroutine types of the same tag, name and code compare other than unequal exactly when both are variadic or neither, they have as many parameters, and both the results, if any, and the parameters at each place do; the verdict is marked exactly when one of these is |
| TypeShapes.DataMembersCompare | src/dies.cpp:3699-3825 | likewise for types with data members: their names or else associated names, and members at the same locations with types that compare other than unequal if the two are assumed equal; marked exactly when one of these is and other assumptions are in force |
| TypeShapes.BasesCompare | src/dies.cpp:3129-3157 | base types are equal exactly when name, code, encoding and sizes are |
| TypeShapes.ChainsCompare | src/dies.cpp:3483-3515 | pointers, references, qualified types and the like compare by what they refer to; one without a name is like one of any name |
| TypeShapes.TypedefsCompare | src/dies.cpp:3472-3482 | typedefs compare by name and by what they refer to |
| TypeShapes.PtrsToMembersCompare | src/dies.cpp:3235-3246 | distinct pointers to members never compare equal |
| TypeShapes.ArraysCompare | src/dies.cpp:3252-3291 | arrays compare by the types of their subranges, where both have them, and by their elements |
| TypeShapes.EnumerationsCompare | src/dies.cpp:3397-3433 | enumerations compare by their type and their enumerators |
| TypeShapes.SubrangesCompare | src/dies.cpp:3366-3394 | subranges compare by their type, bounds and count |
| TypeShapes.StringsCompare | src/dies.cpp:3327-3349 | strings are equal exactly when their dynamic length is the same, or else their size |
| TypeShapes.UnspecifiedCompare | src/dies.cpp:3570-3575 | unspecified types of the same tag, name and code are equal |
| AssumedEquality.MarkIsDropped | src/dies.cpp:3483-3515 | a comparison of types without data members and other than subprograms never ends with the mark of an assumption |
| AssumedEquality.VerdictRightIff | src/dies.cpp:2688-2732 | under any assumptions, a verdict other than unequal, cached or not, is right exactly when all the assumptions met on the way to it are |
| AssumedEquality.AssumedReferences | src/dies.cpp:3483-3515 | types of those kinds whose references are the same or assumed equal get the plain verdict equal, right exactly when what they refer to is equal |
| AssumedEquality.AssumedTargets | src/dies.cpp:3483-3515 | so do pointers and the like with targets that are assumed equal |
| AssumedEquality.InsideIsRight | src/dies.cpp:2688-2732 | every verdict given at any depth inside a comparison that starts without assumptions and ends other than unequal is right |
| AssumedEquality.EqualVerdictRestsOnAssumption | src/dies.cpp:3483-3515 | inside the comparison of two structures that ends unequal, pointers to them get the plain verdict equal, which is wrong |
| AssumedEquality.ListHasNoCode | src/dies.cpp:2858-2880 | such structures and pointers have no summary codes, so that these do not decide the comparison |
| EqualityLaws.TransitiveIff | src/dies.cpp:2688-2732 | equality is transitive exactly when no type is equal to two types with different names |
| EqualityLaws.EqualityIsEquivalence | src/dies.cpp:2688-2732 | so it is where no unnamed type has the tag of two differently named ones; and it is reflexive, symmetric and respects summary codes |
| EqualityLaws.NamesBreakTransitivity | src/dies.cpp:2688-2732 | an unnamed pointer equals two pointers of different names |
| EqualityLaws.CyclesGiveRank | src/dies.cpp:2688-2732 | the comparison ends on every finite graph whose cycles pass through types with data members |
| EqualityLaws.RanksExistIff | src/dies.cpp:2688-2732 | a measure for it exists on no others |
| EqualityCache.TypeEqualityCache.Equal | src/dies.cpp:2733-3112 | for any equivalence that respects codes and any nested comparisons, cached equality gives its verdict, and afterwards both types have a class |
| EqualityCache.TypeEqualityCache.CheckCached | src/dies.cpp:2745-2810 | a hit, positive or negative, is the uncached verdict; it is a hit exactly when both types have a class |
| EqualityCache.TypeEqualityCache.FindOrCreate | src/dies.cpp:2954-2997 | whatever the comparisons with candidates cache meanwhile, the class found is that of an equal type; if none is found there is none in the cache as it is then, and a new last class is made |
| EqualityCache.TypeEqualityCache.Install | src/dies.cpp:3086-3101 | an entry found missing before the search is put in, or is there already with the class that was found |
| EqualityCache.TypeEqualityCache.Cache | src/dies.cpp:2999-3112 | caching a verdict keeps the classes non-empty, disjoint, inequivalent and indexed by code |
| EqualityCache.TypeEqualityCache.Less | src/iter.cpp:165-220 | the order's verdict is that of the places of the two classes, which it has made sure exist |
| EqualityCache.NotInAnyClass | src/dies.cpp:2954-2997 | a type unequal to a member of each class under its code equals no classified type |
| EqualityCache.AddKeepsInv | src/dies.cpp:3002-3053 | adding a type to the class it belongs to keeps the classes pairwise inequivalent |
| EqualityCache.IncomparableIffEqual | src/iter.cpp:165-220 | two decided positions are incomparable exactly when they are equal types or the same position |
| EqualityCache.StrictWeakOrder | src/iter.cpp:165-220 | the order is irreflexive and transitive, and so is incomparability |
| EqualityCache.VerdictStands | src/iter.cpp:165-220 | a verdict of the order is the same in every later state |
| Summary.SummaryUnaffected | src/dies.cpp:842-1119 | a summary does not change when types reached only through pointers or references become declarations of the same name |
| Summary.SameName | src/dies.cpp:181-413 | nor do abstract names |
| Summary.ContainmentSummary | src/dies.cpp:842-1119 | the recursion with the word built in place computes the summary function, and ends |
| Summary.IncorporateMembers | src/dies.cpp:1040-1073 | each counted member puts in its offset and then its type's abstract name, if that is a pointer, or summary |
| Summary.IncorporateType | src/dies.cpp:974-983 | a pointer under typedefs puts in its abstract name only |
| Summary.SummaryWord.PutString | include/dwarfpp/dies.hpp:212-223 | characters go in one by one, then the check against zero; an absent word stays absent |
| Summary.SummaryWord.PutWord | include/dwarfpp/dies.hpp:224-232 | an absent code makes the word absent |
| SummaryLaws.WordsKeepAbsence | include/dwarfpp/dies.hpp:188-234 | absence is absorbing for everything that can be put in |
| SummaryLaws.AbsentStep | src/dies.cpp:842-1119 | a type has no summary exactly when it lacks one of itself or a part whose summary goes in has none |
| SummaryLaws.AbsentIffContainsLacking | src/dies.cpp:842-1119 | so exactly when it contains, at any depth but not behind a cut-off pointer, an undefined declaration, an unspecified type, an opaque pointer or an array of void |
| SummaryLaws.CyclesTerminate | src/dies.cpp:974-983 | the recursion ends on every graph whose cycles go through a pointer or reference and a type with members |
| SummaryLaws.NamesEnd | src/dies.cpp:197-202 | and so do abstract names |
| SummaryLaws.PointersAllTheWay | src/dies.cpp:1065-1072 | the recursion enters a pointer only from a pointer or typedef |
| SummaryContents.SameCodeSameStream | include/dwarfpp/dies.hpp:188-234 | for a hash that loses nothing, of which there is one, equal codes are made from the same numbers, characters and codes, in the same order |
| SummaryContents.StructureCode | src/dies.cpp:1033-1075 | what a type with members puts in: its name, and for each member with an offset that is no declaration this offset, and the abstract name of a pointer or the code of another type; a declaration is its definition, if any |
| SummaryContents.StructuresTell | src/dies.cpp:1033-1075 | if the hash loses nothing, such types with equal codes have the same name, and members that put in the same |
| SummaryContents.ArrayCode | src/dies.cpp:1076-1092 | what an array puts in: its elements, under all the arrays and typedefs, and the product of the counts on the way there, or zero if one is not known |
| SummaryContents.ArraysTell | src/dies.cpp:3640-3664 | if the hash loses nothing, arrays with equal codes have elements that put in the same, and the same product |
| SummaryContents.PointerCode | src/dies.cpp:1002-1032 | what a pointer or reference puts in: tag, size, address class and the code of its target; it has no code if its chain ends in a declaration without a definition |
| SummaryContents.PointersTell | src/dies.cpp:1002-1032 | if the hash loses nothing, those with equal codes agree in tag and size, and have targets with equal codes |
| SummaryContents.SubprogramCode | src/dies.cpp:971-1001 | what a subroutine type puts in: its result, the characters (), its parameters in order and, if it is variadic, three dots |
| SummaryContents.EnumerationCode | src/dies.cpp:903-950 | what an enumeration puts in: its name, its enumerators and the code of its type, if any |
| SummaryContents.SubrangeCode | src/dies.cpp:951-970 | what a subrange puts in: the code of its type, if any, and the bounds it has |
| SummaryContents.PlainCodes | src/dies.cpp:878-902 | void has the code zero and unspecified types have none; what base types and strings put in is their numbers |
| SummaryContents.ChainCode | src/dies.cpp:875-882 | typedefs and qualified types have the code of the type under all of them |
| SummaryContents.PrefixedNames | src/dies.cpp:181-404 | the abstract name of a pointer, reference or array is a fixed prefix before that of its target, and that of a typedef is its target's |
| SummaryContents.OwnNames | src/dies.cpp:181-404 | void and unspecified types are called void; base types, enumerations and types with members have names of their own, strings their length |
| SummaryContents.SubprogramNames | src/dies.cpp:181-404 | the abstract name of a subroutine type has those of its parameters, and then that of its result |
| SummaryContents.ParamNamesAre | src/dies.cpp:181-404 | each parameter's name comes in order, after its number |
| Acyclic.RankDrops | src/dies.cpp:842-1119 | in a finite graph without cycles the longest walk gets shorter along every edge: the measure of the recursion |
| DieRoot.Root.GetFirstChild | src/root.cpp:275-339 | from any consistent caches the first child is that of the tree, and the caches stay consistent |
| DieRoot.Root.GetNextSibling | src/root.cpp:530-584 | likewise the next sibling |
| DieRoot.Root.GetParent | src/root.cpp:236-257 | the cached parent of an issued entry is its parent in the tree |
| BfSearch.Parent | src/root.cpp:217-261 | the parent of any entry, issued or never reached, is its parent in the tree, found downwards if need be |
| DieRoot.RecordFirstChild | src/root.cpp:325-338 | recording an edge that was found keeps the caches consistent with the tree |
| DieRoot.RecordNextSibling | src/root.cpp:569-583 | likewise for siblings: the parent of the sibling is the common parent |
| DieTree.ClimbKeepsEnd | include/dwarfpp/iter.hpp:582-604 | where an entry has no next sibling, its parent's subtree ends with its own |
| DieIterators.IncrementDepthFirst | include/dwarfpp/iter.hpp:582-604 | one step leads to the next entry in preorder, and from the last to the end |
| DieIterators.Traverse | include/dwarfpp/iter.hpp:582-604 | from the root, all entries in preorder by strictly increasing offset, whatever the caches hold |
| BfSearch.BfIterator.Increment | include/dwarfpp/iter.hpp:659-696 | queues the first child, then goes to the next sibling or the head of the queue |
| BfSearch.BfIterator.IncrementSkippingSubtree | include/dwarfpp/iter.hpp:715-737 | the same without queueing |
| BfSearch.FindDownwards | include/dwarfpp/root-inl.hpp:346-437 | returns the entry at the offset if there is one, else the end, and the assertion on offsets holds at every step |
| BfSearch.SkipStep | include/dwarfpp/root-inl.hpp:416-422 | skipping a subtree that the offsets exclude does not lose the target |
| BfSearch.ResetStep | include/dwarfpp/root-inl.hpp:383-415 | nor does starting afresh, with an empty queue, when the offset lies between the two positions |
| BreadthFirst.StepKeepsInv | include/dwarfpp/root-inl.hpp:346-437 | every step, full or skipping, moves strictly forward in breadth-first order |
| BreadthFirst.StepCovers | include/dwarfpp/iter.hpp:659-696 | a full step loses only the current entry |
| BreadthFirst.BetweenIsBelow | include/dwarfpp/root-inl.hpp:373-384 | on one level, the entries between the two positions in preorder are exactly those below the first |
| DieAlloc.MakeNew | src/root.cpp:662-676 | the new entry is a new last child, with the offset after that of the last entry of the old subtree; none is made exactly when there is no room |
| DieAlloc.FreshOffsetUnder | src/root.cpp:766-844 | one more than the offset of the last entry below the parent, with its edges cached; none exactly when the next entry has that offset |
| DieAlloc.FreshCuOffset | src/root.cpp:733-764 | for a compilation unit, an offset past every other, as the last child of the root |
| DieAlloc.RoomIsUsed | src/root.cpp:802-820 | as many more entries can be made under one as there are offsets between the end of its subtree and the next entry |
| DieAlloc.HighestInSubtree | src/root.cpp:775-793 | the last entry of the subtree, having noted the last child of the entry |
| DieAlloc.LinkedIsConsistent | src/root.cpp:823-842 | linking the new entry by a first-child or a next-sibling edge keeps root and tree consistent |
| DieAlloc.InsertIsLayout | src/root.cpp:766-844 | preorder offsets stay strictly increasing |
| DieAlloc.InsertedNextSibling | src/root.cpp:823-838 | the only new sibling edge is from the former last child of the parent |
| DieAlloc.InsertedParent | src/root.cpp:840 | every entry keeps its parent |
| DieAlloc.RunKeepsDies | src/root.cpp:662-676 | over any run of new entries, the existing ones keep offset, depth and parent |
| DieAlloc.RunIssuesFresh | src/root.cpp:662-676 | and an issued offset is new, belongs to a child of the entry it was issued under, and is never issued again |
| DieAlloc.FindUpwards | include/dwarfpp/root-inl.hpp:270-306 | climbing the cached parents gives the entry with its right depth exactly for known offsets |
| DieAlloc.Find | include/dwarfpp/root-inl.hpp:310-336 | finds the entry at an offset whether or not it was reached before |
| Leb128.ReadUleb128 | src/frame.cpp:286-302 | the loop reads the number that the groups of seven bits make, or has no defined result |
| Leb128.UlebReads | src/frame.cpp:286-302 | any encoding, padded or not, is read exactly when its length and value are within the shift |
| Leb128.UlebRoundTrip | src/frame.cpp:286-302 | decoding undoes encoding exactly below the limit of the shift |
| Leb128.SlebRoundTrip | src/frame.cpp:303-314 | signed numbers come back exactly within the stated bounds, by sign extension in 64 bits |
| Leb128.SignExtendValue | src/frame.cpp:303-314 | shifting up and back down takes the top bit of the last group as the sign |
| FrameInstrs.DecodeOne | src/frame.cpp:132-269 | one instruction is decoded as its opcode's format says |
| FrameInstrs.ParseInstrs | src/frame.cpp:126-274 | the loop parses the whole list, or has no defined result |
| FrameInstrs.ParseEncoded | src/frame.cpp:126-274 | parsing an encoded list gives back every instruction, factored operands multiplied by the data alignment factor, and consumes all bytes, exactly when all operands are readable |
| FrameInstrs.DecodeEncoded | src/frame.cpp:132-269 | an encoded instruction is consumed whole, and comes back exactly when its operands are readable |
| FrameInstrs.ValOffsetReads | src/frame.cpp:239-242 | val_offset is right exactly when the top bit of its unsigned operand is clear or the factor cancels it |
| FrameInstrs.ValOffsetSfReads | src/frame.cpp:244-247 | val_offset_sf is right exactly when its operand is not negative or the factor cancels that |
| FrameMeaning.DecodesLiteral | src/frame.cpp:132-269 | from the bytes of each instruction of section 7.23 of DWARF 4, by its literal opcode, decoding gives its register, offset or block exactly when the operands are within limits written out for each |
| FrameMeaning.ParsesLiteral | src/frame.cpp:126-274 | so it is for a list of instructions, which is consumed whole |
| FrameMeaning.UnknownOpcode | src/frame.cpp:265-266 | every other opcode is refused |
| FrameTable.DecodeFde | src/frame.cpp:764-786 | the row found at each address up to the final bound gives the rules of section 6.4.3 of DWARF 4 for the instructions, valid with their offsets as stored, and no row is found elsewhere |
| FrameTable.InterpretInstructions | src/frame.cpp:788-963 | rows are ordered and disjoint, and give the rules at every address up to the unfinished row |
| FrameTable.ExecuteMeans | src/frame.cpp:848-955 | each instruction does to the definitions what section 6.4.2 says it does to the rules, nested remember and restore included |
| FrameTable.RestoreMeans | src/frame.cpp:902-939 | restore goes back to the initial rule; the search of the initial rows never finds anything |
| FrameTable.AddRowLookup | include/dwarfpp/frame.hpp:302-332 | adding a row, with empty rows dropped and equal ones joined, changes lookups at its own addresses only |
| FrameTable.AddRowWithin | src/frame.cpp:837-848 | rows stay ordered and disjoint |
| FrameTable.NoneLeftToJoin | include/dwarfpp/frame.hpp:302-332 | no row is without definitions, and neighbouring rows with the same rules, none of which is of a kind that never compares equal, are joined |
| FrameMeaning.DecodeTable | src/frame.cpp:764-786 | for instructions given by name, the table made from their bytes gives at each address up to its end the rules that sections 6.4.2 and 6.4.3 of DWARF 4 write for them, with advances not scaled and offsets as an int keeps them |
| FrameMeaning.EffectMeans | src/frame.cpp:842-955 | what each instruction, by name, does to rules, stack and location, and when it has no meaning |
| FrameMeaning.AdvanceMeans | src/frame.cpp:828-838 | which instructions, by name, advance, and where to |
| FrameMeaning.RunMeans | src/frame.cpp:788-963 | over a whole list, the machine after it and the rules at every address |
| FrameTable.RowsBeginAlikeIff | src/frame.cpp:828-838 | rows begin where the code alignment factor puts them exactly when it is 1 or nothing advances |
| FrameTable.RunsAlikeIff | src/frame.cpp:828-838 | for valid instructions, leaving out the factor changes no machine of the run, its location included, exactly when it is 1 or nothing advances |
| FrameRules.RulesAlikeIff | src/frame.cpp:828-838 | for valid instructions, leaving out the factor changes no rule at any address exactly when it is 1 or every advance across which the rules change is a set_loc |
| FrameRules.FactorIsLost | src/frame.cpp:828-838 | with factor 2, the rules after an advance by 4 are given from address 4 on instead of 8 |
| FrameTable.AsStoredIff | src/frame.cpp:842-892 | every single instruction is stored as it is exactly when all offsets fit an int, used or not |
| FrameRules.StepBut | src/frame.cpp:842-955 | each instruction changes which offsets and registers of the rules are not those meant as tracked, remembered and initial rules included |
| FrameRules.EntryBut | src/frame.cpp:764-786 | a valid entry is valid as stored, and ends at the same location |
| FrameRules.TableRightIff | src/frame.cpp:764-955 | the decoded table gives the rules that a valid entry means exactly when at no advance, nor at the end if the last row is not empty, a rule has an offset or register that did not fit an int |
| FrameRules.LargeOffsetIsLost | src/frame.cpp:842-892 | an offset of 2^31 is stored as its negative |
| FrameTable.StaleOffset | include/dwarfpp/frame.hpp:244-286 | after a frame address by expression, def_cfa_register brings back the old offset, where DWARF gives no meaning |
| FrameTable.ToIntIsExact | src/frame.cpp:842-892 | storing an offset in an int is exact exactly when it fits |
| LocEval.EvaluateList | src/expr.cpp:35-91 | the first entry that has the address is evaluated |
| LocArithmetic.FirstThatCovers | src/expr.cpp:35-91 | evaluating a list evaluates the first entry that covers the address, relative to the last base address before it, and has no result if none does |
| LocArithmetic.InOrder | src/expr.cpp:97-205 | an expression is evaluated by its operations one after the other, up to the first piece |
| LocArithmetic.SumsAndProducts | include/dwarfpp/spec.hpp:556-562 | plus and mul are sum and product modulo 2^64; minus gives what, added to the value on top, makes the one under it |
| LocArithmetic.Divisions | include/dwarfpp/spec.hpp:555-557 | div and mod: signed, the quotient towards zero, so that the remainder has the sign of the dividend and is smaller than the divisor; none for zero, nor for the least number and -1 |
| LocArithmetic.BitOperations | include/dwarfpp/spec.hpp:554-567 | and, or and xor: each of the 64 bits of the result from those of the operands |
| LocArithmetic.Shifts | include/dwarfpp/spec.hpp:564-566 | shl, shr and shra: multiples and parts by the power of two, none for 64 or more |
| LocArithmetic.Comparisons | include/dwarfpp/spec.hpp:569-574 | the six comparisons: 1 exactly when the signed order holds, else 0, the top on the right |
| LocArithmetic.OneOperand | include/dwarfpp/spec.hpp:553-563 | abs of a signed number, neg modulo 2^64, not on every bit, and the addition of a constant |
| LocArithmetic.Moves | include/dwarfpp/spec.hpp:545-551 | dup, drop, over, swap and rot: the whole stack after each |
| LocArithmetic.Picks | include/dwarfpp/spec.hpp:548 | pick copies the value so many places under the top, if there is one |
| LocArithmetic.PushesConstants | include/dwarfpp/spec.hpp:533-544 | addresses and constants push their operand |
| LocArithmetic.PushesValues | include/dwarfpp/spec.hpp:529-577 | literals and registers push their values, after a zero as coded, and the frame base without one |
| LocArithmetic.SetsOnlyState | src/expr.cpp:158-200 | named registers, stack values and implicit pointers set the state of the top |
| LocArithmetic.NoResult | src/expr.cpp:97-205 | anything else, and any operation on too few values, has no result |
| LocEval.Evaluate | src/expr.cpp:97-215 | operations are applied in order up to the end or the first piece |
| LocEval.Evaluator.Run | src/expr.cpp:97-215 | a resumed evaluation starts with an empty stack, one operation after where it stopped, and goes up to the end or past the next piece |
| LocPieces.ResumedIsRightIff | src/expr.cpp:105-158 | resuming gives the stack and state of the next piece, if that evaluates, exactly when the lost first operation does not push and leaves the state that was kept or a later one sets it, or the piece is empty and what is evaluated instead leaves nothing and an address |
| LocPieces.EvaluateNext | include/dwarfpp/expr.hpp:420 | evaluating an expression and then its next piece gives what the second piece should exactly under that condition |
| LocPieces.SecondPieceIsLost | src/expr.cpp:105-158 | the address of the second of two pieces is lost |
| LocPieces.RegisterPieceIsLost | src/expr.cpp:105-158 | a second piece in a register is taken for an address |
| LocPieces.EmptyPieceIsFilled | src/expr.cpp:105-158 | an empty second piece gets the location of the third |
| LocStacks.EvalSameIff | src/expr.cpp:128-205 | the state of the top before an expression does not matter exactly when some operation sets it, or there is no result |
| LocStacks.ExtraZeroIff | include/dwarfpp/spec.hpp:529-530 | evaluation as coded gives the stack of section 2.5.1, if either has a result, exactly when no lit, breg or bregx comes before the first piece |
| LocStacks.ShiftsAlikeIff | include/dwarfpp/spec.hpp:566 | shra is the arithmetic shift exactly when the top bit is clear or nothing is shifted |
| CfaRewrite.WalkToCfa | src/frame.cpp:1279-1335 | following predecessors gives the sum of differences, exactly for registers that the search reached |
| CfaRewrite.CompletedIsTree | src/frame.cpp:1271-1277 | when no edge leads on from the registers reached, they are a tree of predecessors around the frame address; so there is one for every row |
| CfaRewrite.PathSumIsDifference | src/frame.cpp:1311-1335 | that sum is the register minus the frame address, modulo 2^64 |
| CfaRewrite.RewriteExpr | src/frame.cpp:1209-1426 | every reached register reference is replaced in place, and nothing else changes |
| CfaRewrite.RewriteKeepsMeaning | src/frame.cpp:1209-1426 | the rewritten expression evaluates to the same stack, for all register values that agree with the row |
| CfaRewrite.ExtraZeroLosesMeaning | include/dwarfpp/spec.hpp:529-530 | with the extra zero as coded, an expression that evaluates keeps its meaning exactly when nothing is replaced |
| LoclistRewrite.RewriteLoclist | src/frame.cpp:1098-1460 | every entry is an original one or is rewritten for a row it overlaps; no original interval and no visited overlap is missing |
| LoclistRewrite.RewriteOverFdes | src/frame.cpp:1144-1440 | all rows of the visited frame entries are dealt with, and nothing done before is undone |
| LoclistRewrite.EntriesAppear | src/frame.cpp:1133-1180 | the rewritten list has an entry for the addresses that an expression and a row have in common whenever any of its operations refers to a register and the row's entry is reached; an expression that refers to none has only its own entry |
| LoclistRewrite.RewrittenMeansTheSame | src/frame.cpp:1098-1460 | the rewritten list evaluates to the same stack as the original at every address, whichever of overlapping entries is picked |
| LoclistRewrite.RowsTakeEffectIff | src/frame.cpp:1449-1459 | an address selects an expression rewritten for a row exactly when some visited row has the address and begins no later than the original entry, and then one such row that ends first; else it selects the original |
| LoclistRewrite.LaterRowIsShadowed | src/frame.cpp:1449-1459 | a row that begins after the original entry has its rewritten entry in the list, and no address selects it |
| LoclistRewrite.SearchExists | src/frame.cpp:1271-1277 | there is a search as the rewriting needs, for all rows |
| LocAdditive.AbsoluteToAdditive | src/expr.cpp:421-442 | each frame-base-relative operation becomes a constant and an addition |
| LocAdditive.TheRestDecides | src/expr.cpp:421-442 | the meaning is kept exactly when the operations after the one use make the same of the stacks that it has before and after |
| LocAdditive.AdditiveMeansTheSame | src/expr.cpp:421-442 | if nothing is left on the stack before the use, the meaning is kept exactly when the state is that of an address or is set again, or there is no result |
| LocAdditive.AddedLaterMeansTheSame | src/expr.cpp:421-442 | if any number of values is left there and all are added at once, the meaning is kept, whatever follows |
| LocAdditive.SomeAddedMeansTheSameIff | src/expr.cpp:421-442 | if some are added and nothing follows, exactly when all the others are the frame base |
| LocAdditive.OneValueMeansTheSameIff | src/expr.cpp:421-442 | with one binary operation after, it does exactly if that operation gives the same with the offset on the one operand as on the other |
| LocAdditive.EvaluatedKeepsOut | src/expr.cpp:421-442 | what evaluates on an empty stack never looks at what may lie under it |
| LocAdditive.ProductIsLost | src/expr.cpp:421-442 | five times an address 3 above a frame base of 100 is 515 before and 800 after |
| LocAdditive.AdditiveNeedsOneUse | src/expr.cpp:421-442 | and one that does so has exactly one |
| RangeIntervals.FileRelativeIntervals | src/dies.cpp:4144-4178 | one interval for each non-empty range of a disjoint list; of overlapping ranges the first counts |
| RangeIntervals.InsertKeepsTable | src/dies.cpp:4161-4176 | cumulative values are distinct and not zero, so no interval is absorbed or joined |
| RangeIntervals.SpansIffCovered | src/dies.cpp:4323-4345 | an address has an offset exactly when a range covers it |
| RangeIntervals.SpansIsInjective | src/dies.cpp:4323-4345 | no two addresses share an offset |
| RangeIntervals.SpansBelowTotal | src/dies.cpp:4323-4345 | the offset lies within the part of the object that is the address's range |
| RangeIntervals.SpansIsSurjective | src/dies.cpp:4323-4345 | every offset below the total length is that of an address |
| RangeIntervals.TotalFits | src/dies.cpp:4161-4176 | the total length of disjoint ranges is at most the highest address, so cumulative sizes do not overflow |
| RangeIntervals.FindAddr | src/attr.cpp:631-681 | finds exactly the covered addresses, with the number of covered addresses below |
| RangeIntervals.CoveredBelowCounts | src/attr.cpp:641-659 | that number goes up by one at each covered address and nowhere else |
| RangeIntervals.AgreeIffSorted | src/attr.cpp:631-681 | it is the offset in the object, for all covered addresses, exactly when the non-empty ranges are in address order |

## Left out

- libdwarf, ELF files, handles, reference counts and payload lifetimes: what the file holds is a parameter, or a set of live entries.
- Printing, attribute tables, name lookup, and the older ways of computing summary codes.
- The summary word that get_scc makes of a component's edges: the components are modelled as edge sets.
- EqualityCache.TypeEqualityCache.Equal: takes the uncached verdict as an arbitrary equivalence that respects codes, and the comparisons made during it and during the searches for a class as an arbitrary tree of calls; a class is represented by any of its members rather than the least.
- EqualityCache.TypeEqualityCache.Less: one root only; across roots the order compares addresses.
- TypeEquality.EqualsIffBisimilar: the order of tests within one may_equal is not modelled, since without the cache it has no effect.
- Summary.SummaryUnaffected: the hash is any fold, so nothing is said about collisions; caching of codes is not modelled, nor address classes, which the source asserts are zero.
- Summary.ContainmentSummary: what the enumerators of an enumeration put in is a given list of tokens.
- Summary.SameName: lower bounds and counts in the names of subranges are a given prefix.
- DieAlloc.Find: does not model that finding offset zero also records the root as its own parent, which no climb reads, nor the record of who refers to what.
- LocEval.Evaluate: memory access and branches are not modelled.
- LoclistRewrite.RewriteLoclist: the shortest-path search is any function that gives a tree of predecessors, and finding the frame entry for an address is any function; sums of differences do not overflow an int.
- LoclistRewrite.RewrittenMeansTheSame: for lists of disjoint proper intervals, without base address selection entries or rows beginning where one would.
- FrameInstrs.DecodeOne: reading past the end of the bytes and shifts without a defined value are one outcome, no result.
- FrameTable.DecodeFde: instructions that section 6.4.2 gives no meaning to are outside its contract; the rules are those without the code alignment factor, as RunsAlikeIff has it; each instruction list has its own stack of remembered rows.
- RangeIntervals.FileRelativeIntervals: range lists only; single intervals from bounds, locations and symbols are easier cases.
- RangeIntervals.FindAddr: no base address selection entries, on which the source asserts.
