# A verified model of STG

STG compares the ABIs of two binaries. Types, members and symbols are nodes of a graph, in which two root
nodes, symbol tables, are compared. The result is a graph of differences, which is printed as a report. This
project models that core in Dafny and proves what it decides, what it records and what it prints.

* **Components** (`Scc`, `SccSearch`, `SccTraversal`, on `Reachability`). The path-based finder of strongly
  connected components is a class with the fields of the original. Whatever search follows its protocol, each
  non-empty result of `Close` is exactly one component of the graph searched, and components come out leaves
  first.
* **Order** (`Order`, `InputOrder`, `Sequences`). The reconciliation of two orderings, the permutation in place
  and their combination, as the loops over arrays they are, with a full specification, and exactly when the
  result does not depend on the order of the input.
* **Comparison** (`Strings`, `Graph`, `Matching`, `Diffs`, `Scripts`, `ScriptCases`, `Verdicts`,
  `CompareInvariant`, `CompareSteps`, `CompareProtocol`, `Compare`, `CompareRoots`). No `Equals` method looks
  at the answer it gets for a child. So each pair of nodes has a fixed *script* of local differences, removed
  and added nodes, and children to compare, and the pairs form a *comparison graph*. Two nodes are the *same*
  if no pair with a difference of its own can be reached from them. `Compare`, with its tentative answers for
  open pairs and its provisional diffs, is proved to decide just that, and to record exactly the right diffs.
* **Scripts** (`Keys`, `Ends`, `Attributes`). What scripts say: which nodes are compared with each other, by the
  names they have or are given; that each node is compared, removed or added once, on its own side and in which
  order; and that exactly the attributes that change are mentioned, with their values before and after.
* **Sameness** (`Forms`, `Sameness`, `Equivalence`). What scripts come to, without reference to any order of
  comparison; sameness is reflexive and symmetric, and transitive under exact conditions, whatever is ignored.
* **Reports** (`DiffGraph`, `Sections`, `FlatReport`, `FlatPrinter`, `PlainReport`, `Marks`, `PlainPrinter`,
  `Reporting`, `Accounts`, `Stgdiff`). The flat reports, printed from a worklist, and the plain report, printed in one
  recursion. They end, they expand every pair that holds changes once, they lose no change, and they say no more
  than that: `Accounts` gives the exact lines that belong in each format in terms of scripts alone, down to the
  end-to-end statement about `Stgdiff.Diff`.
* **Names** (`Names`, `Declarators`, `Descriptions`, `Describer`, `TypeNames`, `OtherNames`). Names of types are
  built around the place of a declarator. A parser for the grammar of sections 6.7.6 and 6.7.7 of ISO C11,
  extended by references, recovers the type from its name, also from the declaration of a member or symbol. The
  names of anonymous structs tell those of their members. The cache of names is transparent.
* **BTF** (`BtfFormat`, `BtfEncoding`, `BtfGraph`, `BtfPull`, `BtfReader`, `BtfUnique`, `BtfRecovery`). The reader
  of BTF type sections (section 2.2 of the Linux kernel's BTF specification), which allocates ids when types are
  first met, is proved to read back whatever records are written by the format, and to construct a declarative
  reading of the section, which is unique up to the choice of ids and from which the records can be recovered.

## Conventions

The fields of the original's objects are fields of Dafny classes, and its loops are loops. Each such method is
proved against a function or a predicate on values (`Scc.Snapshot`, `CompareInvariant.StateView`,
`BtfGraph.View`), about which the lemmas are. Ghost fields record what the proofs speak of and the code does
not keep: the path of a search, the log of an examination, the roles of ids.

Failing checks of the original are preconditions that are proved where they are internal errors, and failure
results where they are errors of the input (`BtfPull`, `BtfReader`).

What comparison asks of a graph is `Graph.WellFormed`: nodes that are referred to are set, symbol tables are
sorted (they are instances of `std::map`), and no chain of qualifiers, of typedefs, or of nodes that may take
their matching key from each other leads back to itself. The original would not return from such chains of
qualifiers or typedefs. For matching keys the condition is sufficient: the original stops at the first member
that has a key, so it can return where a later member would lead back.
Reports also ask for `Reporting.CyclesBroken`: every cycle of types passes through a named struct or union, or
a symbol table. `Descriptions.QualifiersApply` says that qualifiers do not qualify members or symbols.

Where the code and its comments differ, the model follows the code. That the result of `Reorder` does not depend
on the order of its input, as its comment says, is proved for what it is given, the pairs of a matching
(`InputOrder.MatchedIgnoresInputOrder`), and for any data exactly under a condition on them
(`InputOrder.IgnoresInputOrderIffSettled`).

## Model

| member | source | states |
|---|---|---|
| Scc.SCC.Open | scc.h:91-105 | returns a handle exactly if the node was not open; a new node is pushed as a possible root, an open one merges every segment above it, and the finder's invariant (open nodes reach each other as the stack says) is kept |
| Scc.SCC.Close | scc.h:107-119 | returns the whole top segment exactly if the handle is the last possible root, and nothing otherwise; both ways the invariant is kept |
| Scc.SCC.IdleIsEmpty | scc.h:81-89 | when no node is under examination the finder carries no state |
| Scc.PushKeepsInv | scc.h:101-104 | opening a node keeps the invariant: every open node still reaches those opened after it |
| Scc.MergeKeepsInv | scc.h:92-99 | meeting an open node again and dropping exactly the roots above it keeps the invariant: the merged segment is mutually connected |
| Scc.RemoveKeepsInv | scc.h:110-117 | removing the top segment keeps the invariant for what stays open |
| Scc.TopSegmentIsolated | scc.h:110-117 | when a root is closed, every edge out of its segment leads into it or to nodes already handed back |
| SccSearch.CloseYieldsComponent | scc.h:71-79 | what Close hands back is exactly one maximal set of mutually reachable nodes, and everything handed back so far is closed under edges |
| SccSearch.OutermostIsRoot | scc.h:81-82 | at the outermost level the node under examination is always a root, so its whole component is closed |
| SccTraversal.Traversal.Dfs | scc_test.cc:113-131 | one call leaves the node handed back, or open with its edge on record; at top level it is handed back and nothing stays open |
| SccTraversal.Process | scc_test.cc:133-150 | searching from every node in turn finds every node's component, once, leaves first |
| Order.ExtendOrder | order.h:45-61 | the greedy loop computes the merge that the other members describe |
| Order.ExtendedReconciles | order.h:32-61 | the merge has no repetitions, holds exactly the union, keeps the left ordering, keeps the right ordering but for the values it drops, puts each new value directly after its last kept predecessor, and drops only what was overtaken |
| Order.KeepsAllIffCompatible | order.h:35-37 | nothing is dropped, so both orderings are kept in full, exactly if the common items come in the same relative order |
| Order.Permute | order.h:98-112 | in place, for any permutation: every item ends up where the permutation says, the permutation becomes the identity, and there are as many swaps as indices less cycles |
| Order.CycleStepPlacesMore | order.h:104-109 | each swap puts one more index in its final place, which is why the loops end although the array is not a permutation of itself in between |
| Order.CycleStepAddsCycle | order.h:104-109 | each swap makes one cycle of the permutation into two |
| Order.CyclesAreDisjoint | order.h:98-112 | what an index leads to, following the permutation, is its cycle, and two indices on one cycle have the same |
| Order.Reorder | order.h:166-198 | in place, the data becomes the reordered data; the internal checks of Permute cannot fail |
| Order.ReorderKeepsItems | order.h:166-198 | the result is a permutation of the input |
| Order.ReorderedIsPermutation | order.h:194-197 | the merged index order is a permutation of all indices |
| Order.FirstPositionsAscend | order.h:120-121 | the first positions always come out in order |
| Order.SecondPositionsAscendIffUncrossed | order.h:120-121 | the second positions come out in order, too, exactly if no two items are placed one way by the first positions and the other way by the second |
| Order.MergeCommutesWithRenaming | order.h:45-61 | merging commutes with any injective renaming of items |
| InputOrder.IgnoresInputOrderIffSettled | order.h:124-131 | every shuffling of the input gives the identical output exactly if items with the same first position are the same, and whenever an item has the second position of one that has no first position, some item comes after it by first and before it by second positions |
| InputOrder.SettledIgnoresInputOrder | order.h:166-198 | the one direction, by exchanging neighbours: only indices on one level of the second ordering change places, and then the item placed by both is already passed, so it moves nothing |
| InputOrder.IgnoresLevelAreOvertaken | order.h:45-61 | the other: of an item placed by both, and a new one on its level, whichever comes first in the input comes first in the output, unless the former is overtaken |
| InputOrder.DistinctIgnoresInputOrder | order.h:130-131 | that is so if present positions are pairwise distinct on either side |
| InputOrder.MatchedIgnoresInputOrder | stg.cc:572-580 | and so it is for what is reordered, the pairs of a matching |
| InputOrder.TiesFollowInputOrder | order.h:166-198 | an instance where it is not: two items with the same first position stay in either order in which they come |
| Strings.KeyCompareMirrors | stg.h:515-543 | comparing symbol keys the other way round gives the opposite answer |
| Strings.KeyCompareTransitive | stg.h:515-543 | symbol keys are totally ordered, by path and then by name |
| Strings.CompareIsLexicographic | stg.cc:539-540 | strings are ordered character by character: one comes before another exactly if it is a proper beginning of it, or has the smaller character where they first differ |
| Strings.KeyCompareIsLexicographic | stg.h:515-543 | symbol keys are ordered by path, and by name where the paths are the same |
| Strings.DecimalReads | stg.cc:535-537 | the digits that number nodes without a key read as that number, so no two numbers look the same |
| Graph.ResolveQualifiers | stg.cc:62-66 | the loop ends on acyclic chains, at the node and with the qualifiers that Unqualified describes |
| Graph.Unqualified | stg.cc:898-917 | the end of the chain is not qualified, and no qualifiers are left on arrays and functions |
| Graph.ResolveTypedefs | stg.cc:68-73 | the loop ends on acyclic chains, at the node and with the names that Resolved describes |
| Graph.Resolved | stg.cc:919-927 | the end of the chain is not a typedef, and differs from its start exactly if that is one |
| Matching.MatchingKeys | stg.cc:526-541 | the loop and sort give each node's key, anonymous ones numbered in order, sorted by key and then by index |
| Keys.KeyIsName | stg.cc:929-956 | a node's key is its name, or else that at the end of a walk from each node to the first that has a name to give: the type of a base class or unnamed member, the first member of an unnamed struct that leads to one; it is empty exactly if no walk leads to a name |
| Keys.KeysAreLabels | stg.cc:526-541 | in a list, each key is the node's name in that sense, or else its number among the nodes before it that have none |
| Keys.ComparedShareLabels | stg.cc:572-597 | two structs are compared by comparing only such base classes, methods and members as have the same name in that sense, or the same number among those without one |
| Keys.SameStructsSameTags | stg.cc:629-655 | structs that are the same have base classes, methods and members with the same labels, each as often |
| Keys.SameStructsSameNames | stg.cc:935-939 | structs that are the same have named members with the same names, each as often, exactly if the labels of their other members agree |
| Keys.NamedStructsSameNames | stg.cc:935-939 | so they do if all members are named |
| Keys.NamedAndUnnamedAreSame | stg.cc:935-956 | an instance where they do not: a member named a, and an unnamed one whose anonymous struct begins with a member named a |
| Matching.PairUp | stg.cc:543-570 | the loop over two iterators is a merge join |
| Matching.PairUpCoversAll | stg.cc:543-570 | every index of either side is in exactly one pair |
| Matching.PairUpMatchesByRank | stg.cc:543-570 | for each key the k-th occurrence on one side is paired with the k-th on the other, up to the smaller count; the rest are removed or added |
| Diffs.Result.AddNodeDiff | stg.h:139-144 | the nodes differ, the change is marked and noted |
| Diffs.Result.MaybeAddNodeDiff | stg.h:146-167 | an attribute is noted exactly if it changed |
| Diffs.Result.MaybeAddOptionalNodeDiff | stg.h:169-184 | an optional attribute is noted as changed, removed or added as the case may be |
| Diffs.Result.AddEdgeDiff | stg.h:186-190 | the nodes differ, and the edge is noted without marking a change of the node |
| Diffs.Result.MaybeAddEdgeDiff | stg.h:192-211 | equality is that of the child so far, and the edge is noted if a comparison came back |
| Diffs.Result.MarkIncomparable | stg.h:132-137 | the nodes differ, and nothing is noted |
| Scripts.MergeFindsDifferences | stg.cc:236-253 | the merge of two qualifier sets notes exactly the qualifiers that only one side has |
| Scripts.NodeScriptWithin | stg.cc:468-896 | comparing two nodes leads to comparing nodes they refer to, one of each side; a removed node is one the first refers to, an added node one the second refers to |
| Ends.GoneOnOwnSide | stg.cc:165-175 | the same for any pair, with qualifiers and typedefs: what is removed belongs to the first side, what is added to the second |
| Ends.TablesAreCompared | stg.cc:850-896 | of two symbol tables, exactly the symbols whose keys only the first has are gone with a first end alone, exactly those whose keys only the second has with a second end alone, and exactly those with the same key are compared |
| Ends.TableStepsInOrder | stg.cc:884-895 | removed symbols come first, then added ones, then those that are compared, each in the order of its table |
| Ends.TablesUseEachOnce | stg.cc:850-896 | the symbols that only the first table has and those that both have are together all of its symbols, each once |
| Ends.EndsOfLists | stg.cc:572-597 | every node of two lists is compared, removed or added once, those of the first list in its order if they are reordered, and in that of their keys if not |
| Ends.EndsOfStructs | stg.cc:640-655 | base classes, methods and members each once, in this order; base classes and members as the first struct lists them, methods by key |
| Ends.EndsOfFunctions | stg.cc:712-763 | the return types, and then all parameters in order, each once on its side |
| Ends.FunctionsAreCompared | stg.cc:712-763 | step by step: the return types, then by number the parameters that both have, with both their names, and then those that only one has, gone on its side |
| Ends.NodesUseEachOnce | stg.cc:464-896 | unless two nodes cannot be compared, whatever either is made of is compared, removed or added once |
| Ends.KeyOrderIsAlphabetical | stg.cc:526-541 | the order of keys is alphabetical, and nodes with the same key come as they are listed |
| Compare.SplitSymbols | stg.cc:856-882 | the loop over two sorted tables finds exactly the symbols only the first has, only the second has, and both have |
| Attributes.TextsAreTrue | stg.h:146-184 | whatever the script says of an attribute, enumerator or declaration is true: the value before is that of the first node, the value after that of the second, and they differ |
| Attributes.ChangesAreSaid | stg.cc:468-848 | and it says all: every attribute that changes is mentioned, but for the byte size of an integer type that fills its bytes |
| Attributes.DeclarationsAreSaid | stg.cc:502-524 | that only one side is defined is said exactly if it is so and is not ignored |
| Attributes.EnumeratorsAreSaid | stg.cc:674-707 | every enumerator is kept, or said to be changed or removed |
| Attributes.NewEnumeratorsAreSaid | stg.cc:674-707 | every enumerator whose name is new is said to be added |
| Attributes.EnumeratorsInOrder | stg.cc:674-707 | what is said of the first enumeration's enumerators follows their order |
| Attributes.WhatIsIncomparable | stg.cc:468-670 | two nodes cannot be compared exactly if they differ in kind, in what sort of pointer or struct they are, or in name |
| Attributes.WhatHoldsChanges | stg.cc:263-275 | a pair holds changes exactly if, without qualifiers on either side, both begin with typedefs of the same name, or are structs, unions or enumerations of the same kind and name that is not empty, or symbol tables |
| Attributes.QualifiersAreOnChain | stg.cc:62-66 | the qualifiers of a node are exactly those on its chain, unless that ends at an array or function |
| Attributes.QualifierChangesAreSaid | stg.cc:236-253 | a qualifier is reported as removed exactly if only the first node has it, and as added exactly if only the second has |
| Attributes.TypedefsAreFollowed | stg.cc:68-73 | what a typedef stands for is at the end of its chain |
| Verdicts.SameIsGreatestBisimulation | stg.cc:177-201 | sameness is a set of locally equal pairs that is closed under comparison of children, and contains all other such sets |
| Verdicts.DifferenceHasCause | stg.cc:189-193 | a pair that differs without a difference of its own has a child that differs |
| Verdicts.OutcomesAreUnique | stg.cc:202-306 | what a comparison must record is determined by which pairs were compared |
| Compare.State.Compare | stg.cc:202-306 | a known pair is answered with its verdict; an open or unfinished pair with a tentative answer that speaks for all pairs opened in between, and its edge is on record; the state's invariant is kept; the recursion ends because each call opens a pair not seen before |
| Compare.State.Finish | stg.cc:279-306 | the provisional diff is kept, or the closed component committed, so that the invariant holds again |
| Compare.State.Commit | stg.cc:287-297 | every member of the component gets the same verdict, its diff exactly if that is inequality, and loses its provisional entry, which was there |
| Compare.State.Examine | stg.cc:229-277 | the result of the first visit tells exactly the script of the pair; neither Typedef::Equals nor Qualified::Equals can be reached |
| Compare.State.CompareQualifiers | stg.cc:238-253 | the loop notes the differences between the qualifier sets in order |
| Compare.State.CompareNodes | stg.cc:572-597 | children matched by key are compared, and the others noted as removed or added, in order |
| Compare.State.EqualsStructUnion | stg.cc:629-655 | the result tells the script of two structs or unions |
| Compare.State.EqualsEnumeration | stg.cc:657-710 | the result tells the script of two enumerations |
| Compare.State.EqualsFunction | stg.cc:712-763 | the result tells the script of two functions |
| Compare.State.EqualsElfSymbol | stg.cc:765-848 | the result tells the script of two ELF symbols |
| Compare.State.EqualsSymbols | stg.cc:850-896 | the result tells the script of two symbol tables |
| Compare.State.EqualsInteger | stg.cc:491-500 | the result tells the script of two integer types, with 32-bit wrap-around of the bits in the bytes |
| CompareInvariant.ExaminedDiff | stg.cc:279-280 | a finished examination leaves the diff of the script without the children known to be the same |
| CompareInvariant.ExaminedVerdict | stg.cc:189-193 | the tentative verdict is equality exactly if nothing known speaks against the pair or those opened above it |
| CompareSteps.CleanComponentIsSame | stg.cc:195-196 | if nothing speaks against any member of a closed component, all are the same |
| CompareSteps.UncleanComponentDiffers | stg.cc:195-196 | if something speaks against one member, all differ |
| CompareSteps.ClosedOff | stg.cc:282-302 | committing a component keeps the invariant: all verdicts and all outcomes are right |
| CompareSteps.LeftOpen | stg.cc:304-305 | leaving a pair open keeps the invariant, and what is returned is tentative as promised |
| CompareRoots.CompareRoots | stg.cc:202-306 | from any state between comparisons: the verdict is sameness; exactly the pairs reached become known, each with the right verdict; outcomes are exact; every pair was examined once; the finder is empty |
| CompareRoots.QuiescentOutcomes | stg.cc:279-305 | between comparisons nothing is provisional, and the outcomes are those of the pairs known |
| CompareRoots.OutcomesAgree | stg.cc:279-305 | the diff of a pair is the same whatever else was compared, or when |
| Forms.PairedInStep | stg.cc:543-570 | everything is matched exactly if the key lists are the same, and then item by item |
| Forms.MatchedInStep | stg.cc:572-580 | the same for matched lists in whichever order they are compared |
| Forms.NoSymbolGone | stg.cc:861-882 | no symbol is gone exactly if the tables have the same keys |
| Sameness.NodesComeTo | stg.cc:464-896 | the comparison of two nodes finds no difference of their own exactly if they are alike, and then compares their children place by place, in an order that belongs to each node alone |
| Sameness.PairComesTo | stg.cc:229-277 | the same for any pair, with qualifiers and typedefs |
| Sameness.SameUnfolds | stg.cc:202-306 | sameness, one step at a time |
| Sameness.SameReflexive | stg.cc:202-306 | every node is the same as itself, whatever the options |
| Sameness.SameSymmetric | stg.cc:202-306 | the verdict does not depend on the direction, whatever the options |
| Equivalence.SameTransitive | stg.cc:202-306 | the verdict is transitive, through uneven typedef chains, dropped qualifiers and repeated keys, if integer types are unambiguous and all that an ignored declaration or untyped symbol stands for is the same |
| Equivalence.TransitiveIffUnambiguous | stg.cc:202-306 | under any options the verdict is transitive exactly if no integer type that fills its bytes stands between two that do not and have different sizes, and any two definitions that an ignored declaration stands for, and any two typed symbols that an ignored untyped one stands for, are the same |
| Equivalence.UnambiguousSuffices | stg.cc:497-498 | if nothing is ignored, or no declaration shares kind and name with two definitions and no untyped symbol its attributes with two typed ones, the sizes of integer types alone decide |
| Equivalence.RoundedUpIsUnambiguous | stg.h:348-349 | that is so if every integer's size in bytes is its size in bits rounded up |
| Equivalence.PaddingIsAmbiguous | stg.cc:497-498 | an instance of the condition: three integer types for which the verdict is not transitive |
| Equivalence.IgnoredDeclarationsAreAmbiguous | stg.cc:513-524 | an instance of the condition: with declaration changes ignored, three enumerations for which the verdict is not transitive |
| Equivalence.IgnoredSymbolTypesAreAmbiguous | stg.cc:835-843 | another: with the presence of symbol types ignored, three symbols for which the verdict is not transitive |
| DiffGraph.InterestingStep | reporting.cc:171-181 | whether a tree is interesting, defined by what can be reached in it, is what the code computes node by node |
| DiffGraph.FrontierIsCut | reporting.cc:154-160 | the pairs queued by a tree are exactly those holding changes that are met before any other such pair |
| Sections.LayoutHolds | reporting.cc:138-190 | the layout of a tree holds, as one block, that of every pair in it at which it is not cut, in a small report of every such pair that is of interest |
| Sections.DetailsLayoutLines | reporting.cc:138-190 | the layout of a pair's details is, in order, the exact lines for each: a difference of the nodes and a removed or added node have a line of their own; a pair of children has a headline, and below it, unless it holds changes, the lines for its own details, indented further; in a small report it has nothing exactly if its tree has nothing of interest |
| DiffGraph.AllInSomeTree | reporting.cc:192-215 | cutting the graph into trees loses nothing |
| FlatPrinter.Printer.FlatPrint | reporting.cc:138-190 | prints exactly the tree's layout, returns whether it was interesting, and queues its frontier; the recursion ends because no cycle avoids the pairs that hold changes; its internal errors cannot happen |
| FlatPrinter.ReportFlat | reporting.cc:192-215 | the worklist loop prints exactly the report, and its trees in the same order whether the report is full or not |
| FlatReport.HeadsAreExact | reporting.cc:206-214 | the worklist comes to each reachable pair that holds changes exactly once, and to nothing else |
| FlatReport.ReportLosesNothing | reporting.cc:131-137 | every reachable pair has its layout in the full report as one block, and in the small one if it is of interest |
| FlatReport.ReportOpens | reporting.cc:192-205 | the report opens with exactly the lines for the details of the root, in order |
| FlatReport.HeadParagraph | reporting.cc:206-214 | the paragraph of a pair is its headline and exactly the lines for its details; in a small report it is left out exactly if there is nothing of interest in its tree |
| FlatReport.HeadsFollowMentions | reporting.cc:192-215 | the paragraphs come in the order in which the full report mentions their pairs first, whether the report is full or not |
| FlatReport.ReportIsEmptyIffNoChange | reporting.cc:192-215 | the small report is empty exactly if no change can be reached |
| PlainPrinter.Printer.Print | reporting.cc:72-123 | prints exactly the tree, with the record of started and finished pairs in step with the pairs being printed and those expanded |
| PlainPrinter.ReportPlain | reporting.cc:125-132 | prints exactly the plain report |
| PlainReport.ReportIsComplete | reporting.cc:72-123 | each reachable pair that holds changes is expanded exactly once, nothing else is; every reachable pair has a place where its headline is followed by the lines for all its details; the report is exactly the lines for all details of the root |
| Marks.MarksAreTrue | reporting.cc:80-106 | a reachable pair that holds changes has one place in the text where its headline is followed by the lines for all its details; it is not mentioned before; every mention within those lines is followed by the mark that it is being reported, and every mention after them by the mark that it was reported already |
| Reporting.OutcomesReportable | reporting.cc:83-84 | the outcomes of a comparison are complete, so no comparison is missing, and if every cycle of types passes through a named struct or union, or a symbol table, printing comes to an end |
| Reporting.PrintingEndsIffCyclesCut | reporting.cc:154-160 | below a root there is a measure that falls along all the edges that printing follows without a break exactly if none of their cycles avoids the pairs that hold changes |
| Reporting.PairChildBelow | stg.cc:636-638 | a pair that does not hold changes is compared by pairs strictly below it in the type graph, on at least one side and never above |
| Reporting.HoldingHasDetails | reporting.cc:92-98 | an outcome that holds changes has details, so a finished repeat is always said to be reported already |
| Reporting.DifferencesAreReported | stg.cc:279-305 | every node that differs and every removed or added node that the roots lead to is on record, and the record leads to it |
| Reporting.UnequalHasDifference | stg.cc:179-182 | tables that are not the same lead to a difference |
| Accounts.InterestAgrees | reporting.cc:134-137 | what is of interest on record is what is of interest in the comparison graph: a pair that differs in its nodes, or in a node removed or added, is reached before any pair that holds changes |
| Accounts.NewsAgrees | reporting.cc:206-214 | the same for what is printed below a pair that holds changes |
| Accounts.LinesOfPair | reporting.cc:108-190 | the lines for what is on record of a pair are lines for its script: one for each difference of its nodes and each removed or added node, which is named on its own side; none for children that are the same, and in a small report none for children that lead to nothing of interest; for all others the headline and what belongs below it |
| Accounts.FlatIsAccounted | reporting.cc:192-215 | a flat report consists of exactly the lines for the script of the roots and the paragraphs of the heads |
| Accounts.FlatReportIsUnique | reporting.cc:192-215 | scripts and heads leave no choice about the text of a flat report, full or small |
| Accounts.HeadsAreInOrder | reporting.cc:192-215 | the heads are exactly the pairs that differ, hold changes and are reached from a child of the roots, each once, in the order in which the full report mentions them first |
| Accounts.PlainIsAccounted | reporting.cc:72-132 | a plain report consists of the lines for the script of the roots, and tells the whole script of each of those pairs in one place, with all other mentions of it marked as the place demands |
| Stgdiff.SectionOf | reporting.cc:138-215 | a pair that the roots lead to and that differs has a section in a plain or full report, and in a small one if it differs by itself: its headline, followed by exactly the lines for its whole script |
| Reporting.TablesHaveEdgesOnly | stg.cc:850-896 | symbol tables differ in their symbols only, so reports may take every detail of the root to have an edge |
| Stgdiff.Diff | stgdiff.cc:119-135 | end to end, for two symbol tables and any list of formats: the verdict is sameness; an output is empty exactly if they are the same; otherwise each output is a report in its format, consisting of exactly the lines for the scripts that belong in it, and has a section for every pair that differs, in the small format for every pair that differs by itself. (That the finder is empty is asserted in the body, as it is checked in the original.) |
| Declarators.DescribeIsNameOf | stg.cc:84-127 | the name made from the outside in is that of the type read from the inside out |
| Declarators.LayersSurround | stg.cc:84-105 | each layer of a type is written around the place where a declared name would stand, and whatever stands there, with parentheses exactly where a pointer follows an array or function |
| Declarators.DescribeParses | stg.cc:316-356 | parsing the name of a type by the declarator grammar recovers the type, with qualifier chains merged, and dropped on arrays and functions |
| Declarators.DeclarationParses | stg.cc:84-105 | with any name put at that place, parsing by the declarator grammar finds the name there and recovers the type |
| Declarators.NamesAreUnambiguous | stg.cc:316-356 | two types have the same name exactly if they are the same up to that |
| Declarators.UnqualifiedIsRebuilt | stg.cc:316-356 | for types without qualifiers nothing is lost |
| Declarators.RebuiltReads | stg.cc:107-127 | every reading is that of a type, so the normal form has no junk |
| Describer.Describer.GetDescription | stg.cc:137-145 | ends on any graph, cyclic or not, and makes each name at most once; unless the names that the requested one is made from go round in a circle, it is that of the recursive rendering without a cache, whatever other names do |
| Describer.Describer.MakeDescription | stg.cc:308-442 | makes the name from the names in the cache; qualifiers are only ever added to names that take them |
| Describer.DescribeAll | stg.cc:137-145 | in any sequence of requests that share a cache, all those whose names do not lead into a circle get the recursive rendering |
| TypeNames.RenderingHasNoHole | stg.cc:139-140 | a name never shows the placeholder |
| TypeNames.RenderingIsDescribe | stg.cc:334-345 | the name of a type node is the name of the type tree it stands for |
| TypeNames.NodeNamesAreUnambiguous | stg.cc:316-421 | type nodes have the same name exactly if their types read the same, and parsing the name recovers that reading |
| OtherNames.DeclaredAtPlace | stg.cc:362-370 | the name of a member or symbol is that of its type with its own name, and the size of a bit-field, at the place for it |
| OtherNames.DeclarationIsRead | stg.cc:432-438 | parsed as a declaration, it gives the type back |
| OtherNames.MethodNamesAreUnambiguous | stg.cc:372-376 | methods have the same name exactly if their names and their mangled names are the same, and it begins with the name |
| OtherNames.RenderingIsClosed | stg.cc:308-442 | in every name braces come in pairs, and semicolons stand inside them |
| OtherNames.MembersAreTold | stg.cc:378-390 | splitting what is in the outer braces of an anonymous struct or union at its semicolons gives the names of its members, in order |
| OtherNames.EnumeratorsAreTold | stg.cc:392-404 | what is in the braces of an anonymous enumeration are its enumerators, in order |
| OtherNames.DeclarationsSayTheirKind | stg.cc:378-404 | without name and definition only the keyword is left |
| BtfPull.MemoryRange.Pull | btf_reader.cc:64-70 | advances, or fails at the end of the section |
| BtfPull.GetName | btf_reader.cc:455-462 | the loop finds the zero-terminated string, or fails at the end of the section |
| BtfPull.PullRecord | btf_reader.cc:238-453 | pulls exactly the record that the format describes, and leaves the range at its end; a record that was written there by the rules of the format is the one that is pulled |
| BtfEncoding.RecordIsRead | btf_reader.cc:238-453 | whatever record is written in the words of its kind, by the numbers of the format, with its names anywhere in the string section, is read back, and the reader goes on behind it; members with and without bit-fields, signed enumerators and all kinds included |
| BtfEncoding.RecordsAreRead | btf_reader.cc:218-236 | so is any sequence of records |
| BtfEncoding.EncodeIsRead | btf_reader.cc:455-462 | in particular with a string section made of all their names |
| BtfGraph.AllocatedMeaning | btf_reader.cc:76-108 | a new id for anything that may be allocated keeps the partial reading right |
| BtfGraph.TypeDefined | btf_reader.cc:246-249 | defining the next type sets a node that was not set, and completes the reading of its record |
| BtfReader.Structs.GetIdRaw | btf_reader.cc:89-98 | an index keeps its id, and gets a new one when first met, forward references included |
| BtfReader.Structs.GetId | btf_reader.cc:100-103 | index zero is the one void type |
| BtfReader.Structs.GetParameterId | btf_reader.cc:105-108 | index zero is the one variadic type |
| BtfReader.Structs.BuildMembers | btf_reader.cc:160-183 | each member gets its own node, which means what its record says |
| BtfReader.Structs.BuildOneType | btf_reader.cc:238-453 | the record is read, unless it is a symbol whose name is taken; no node is set twice |
| BtfReader.BuildTypes | btf_reader.cc:218-236 | succeeds exactly if the section is well-formed and no symbol is defined twice; then the table holds exactly the reading of the section besides what was there before; the type index does not wrap |
| BtfGraph.UnsetAreMissing | btf_reader.cc:89-98 | the ids left without a node are exactly those of types that are mentioned but not defined, sections included |
| BtfGraph.SharedIfMentioned | btf_reader.cc:75-87 | void and variadic types are there exactly if they are mentioned |
| BtfUnique.ReadingsAgree | btf_reader.cc:218-453 | two readings of a section have corresponding nodes: a reading is unique up to the choice of ids |
| BtfUnique.RolesAgree | btf_reader.cc:218-453 | whatever has an id in one reading has one in any other |
| BtfRecovery.RecordsAreRecovered | btf_reader.cc:238-453 | whatever ids the reader chose, writing its nodes down again gives the records it read; only the size of an enumeration without enumerators is lost |

## Left out

- The readers of ABI XML and of ELF symbol tables. Their allocation of ids repeats that of the BTF reader.
- The header of BTF data and its bounds checks, and the assembly of 32-bit words from bytes. The model starts from the words of the type section and the characters of the string section.
- `linux/btf.h` is not part of this model; the record layout follows section 2.2 of the kernel's BTF specification.
- Argument parsing, timing and file output of the tools.
- Post-processing of reports, including the short format, and the graph description format.
- The wording of messages, quoting, and white space. The text of a detail is a value that says what changed from what to what; reports are sequences of tokens. In particular the round trip of names is about tokens, not characters.
- Which of two descriptions a report shows for a pair, and the resolution of typedefs for that purpose (`GetResolvedDescription`). Headlines are about the pair.
- The names of anonymous types inside other types, in the round trip of type names. Names of anonymous structs, unions and enumerations are taken apart by `OtherNames` on their own.
- Hash functions and hash tables. Maps and sets are mathematical.
- `std::stable_sort` is a function that sorts by insertion, keys that are equal in their original order.
- Integer widths, except where a product wraps in 32 bits (`Scripts.Bits`) and where the BTF type index must not.
- The dynamic type test of two nodes is a comparison of their kinds, and `Equals` methods are told apart by name.
- SccTraversal.Process: uses one finder for all searches, which the original's comment allows for, and not a new one for each.
- BtfPull.PullRecord: all words of a record are pulled before its names are looked up, where the original takes turns; both fail on the same sections.
