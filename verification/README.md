# Kernel algorithms of GAP, modelled and verified in Dafny

This project models algorithms that the GAP kernel is built on and proves what they are for:

* **Todd-Coxeter coset tables** (`src/costab.c`). A coset table has one column for every generator and
  one for its inverse; the two columns of an involution may be one and the same list. Handling a
  coincidence, drawing the consequences of a definition, standardizing a table, finding the canonical
  form of a relator, entering words into a tree, and the low-index scan are all modelled.
* **The single collector** for finite polycyclic groups (`src/collectors.cc`), with the arithmetic on
  reduced words that is built on it, and the avector that `lib/rwspcsng.gi` computes for it.
* **Scapegoat trees** (`src/baltree.h`), down to the pointers.
* **The coder** (`src/code.c`, `src/code.h`), which turns the actions of the reader into code.
* **Bit-packed boolean lists** (`src/bits_intern.h`, `src/blister.c`).

The main results:

* `HandleCoinc` leaves the quotient of the table by the *least* congruence that identifies the two
  cosets, marks of minimal gaps pass to the representatives, the outcome is unique down to the entries
  that are not defined, and the link lists that serve as live list, queue, forwarding forest and free
  list at once stay well formed throughout (`Coincidence`, `Gaps`, `CosetEnumeration`).
* Whatever `MakeConsequences` derives holds in every action of the generators that satisfies the
  relators and the subgroup generators; the call ends; and unless the table is so large that the list of
  deductions may have to be compressed, it finds all consequences, shared columns or not: afterwards every
  relator, and at coset 1 every subgroup generator, closes wherever all but one of its letters can be
  traced. Every scan on the way has one possible outcome, which the log of the call names, and firstDef
  and lastDef end at the last survivors (`Scans`, `Derivation`, `Closure`, `Consequences`).
* `StandardizeTable` keeps exactly the orbit of coset 1 and changes neither which words fix a coset nor
  which words lie in the subgroup, cosets are numbered in the order in which they are first met, row by
  row, and tables that are equal up to renaming standardize to the same table (`CosetStandard`).
* `MakeCanonical` finds the largest of all rotations of a cyclically reduced word and of its inverse; two
  freely reduced words get the same representative if and only if one is conjugate, in the free group, to
  the other or to its inverse (`Rotations`, `InPlaceRotation`, `CanonicalRelator`, `Conjugacy`).
* `TreeEntry` returns an index that stands for the word in every group, or, in the abelianized case, for
  the vector in the buffer of the tree; asking again finds the same entry (`WordTree`, `AbelianTree`).
* In trees of words, a product is only entered if nothing cancels between its factors. But cancelling looks
  at factors one level deep: multiplying by v and then by -v leads back to the index it started from if
  and only if one pair of inner factors cancels at most, and nothing else after it (`WordTree`).
* The low-index scan computes the least extension of the table in which every relator closes wherever all
  but one of its letters can be traced, and fails if and only if there is none; so it agrees with every
  completion of the table (`RelatorLoops`, `LowIndexScan`, `LowIndex`).
* Collection multiplies the word into the vector, in every group that satisfies the presentation; it
  ends, because generators can be given weights that outweigh all they can cause to be pushed; and it
  fails if and only if the stack is not deeper than the run of the collector is, which the same weights
  bound, so that retrying with a larger stack ends, too. Products, left quotients, commutators and powers
  follow (`PcPresentation` to `PcGroups`).
* `ReducedQuotient` is wrong for some inputs. Whenever its second collection overflows, the next attempt
  starts from the inverse of u. The result is w times the inverse of u if and only if this happens an even
  number of times or u times u is trivial, and how often it happens is a function of the presentation, the
  stack and the two words. It does not happen if and only if the second collection needs no more than what
  the limit has been doubled to when u has been inverted; and it does happen: for a generator of order 3
  that squares n - 1 commuting generators of order 7, with the 256 frames that collectors start with and
  256 <= n < 512, the quotient comes out wrong (`PcWords`, `PcOverflow`).
* After every history of insertions, removals and clearings a scapegoat tree stands for the map of the
  history and obeys the documented height bound; and n operations take O(n log n) calls, since what makes
  rebuilding necessary has paid for it (`ScapegoatTree`, `ScapegoatHeap`, `ScapegoatCost`).
* The code of every expression evaluates as the expression does, constants being folded on the way and
  large integers being kept in a list of values, and the body of a function comes to its statements, in
  order, and ends in a return (`Coder`).
* `CopyBits` copies exactly the requested bits, whatever the alignment; all ways of uniting a boolean list
  with a sublist agree with one definition, for every total order of the elements (`CopyBits`,
  `BooleanListUnite`); packing and unpacking in place
  are inverse to each other; and a packed list that is assigned to or shortened behaves as an ordinary
  list does (`BooleanLists`, `BooleanListUpdates`).

`dafny verify dfyconfig.toml` checks the whole project.

## How to read it

Mutable state is in classes (`CosetEnumerator`, `Application`, `Scanner`, `TreeTable`, `AbelianTree`,
`Collector`, `Workspace`, `Node`, `ScapegoatMap`, `CodeState`, `BooleanList`) and in arrays that methods
change in place. Functions and lemmas on values say what the methods compute. Groups are met through
actions: a lemma about every action of the generators on every set speaks about every group, since a
group acts on itself from the right (`PcGroups.RegularSatisfies` spells this out).

| module | what it is about |
|---|---|
| `CosetTable`, `CosetLists` | tables with shared columns; the lists that live in the link arrays |
| `Coincidence`, `Gaps`, `CosetEnumeration` | coincidences: quotients of tables, marks of minimal gaps, and the kernel routine |
| `Tracing`, `Scans`, `Derivation` | relator scans and what they can come to, runs of events and their soundness |
| `RelatorLoops` | loops of relators through a table, and what it means that all consequences have been drawn |
| `Deductions`, `Closure`, `Consequences` | the deduction list: which entries it covers, how long it gets; what holds when it is empty |
| `CosetStandard`, `Pigeonhole` | renumbering the cosets |
| `Rotations`, `InPlaceRotation`, `CanonicalRelator`, `Conjugacy` | canonical forms of relators, and which relators share one |
| `WordTree`, `AbelianTree` | trees of words, and of vectors |
| `LowIndexScan`, `LowIndex` | the scan of one relator, and the low-index scan |
| `PcPresentation`, `PcAction` | presentations and what words mean |
| `CollectorStack`, `CollectorSteps`, `CollectorWeights`, `CollectorLead`, `CollectorProgress` | the steps of collection: meaning, termination, leading exponents |
| `CollectorRun` | whole runs of the collector as functions: result, depth, meaning |
| `SingleCollector`, `PcVectors`, `PcArithmetic` | the collector and the operations on reduced words |
| `PcWords`, `PcOverflow` | what these operations compute, as functions; quotients that come out wrong |
| `Avector`, `PcGroups` | the avector; groups |
| `Powers`, `ScapegoatTree`, `ScapegoatHistory`, `ScapegoatCost`, `ScapegoatHeap` | scapegoat trees: values, histories, costs, pointers |
| `CoderExpressions`, `CoderStatements`, `Coder` | the coder |
| `CopyBits` | blocks of bits in words |
| `BooleanLists`, `BooleanListUnite`, `BooleanListUpdates` | boolean lists: marking sublists, changing the representation, assigning |

## Model

| member | source | states |
|---|---|---|
| `CosetTable.MoveEntryImage` | src/costab.c:272-282 | moving an entry of a merged coset to its representative changes no edge between classes |
| `CosetTable.DropEntryImage` | src/costab.c:284-295 | dropping an entry that the representative already has, also where column and inverse column are one list, changes no edge between classes |
| `CosetTable.MoveEntryConsistent` | src/costab.c:272-276 | columns and inverse columns stay mutually inverse when an entry moves |
| `CosetTable.DropEntryConsistent` | src/costab.c:286-289 | columns and inverse columns stay mutually inverse when an entry is dropped |
| `CosetLists.EnqueueDropped` | src/costab.c:323-334 | taking a coset out of the live list and queueing it keeps all lists in the link arrays well formed and disjoint |
| `CosetLists.RetireHead` | src/costab.c:348-358 | moving the head of the queue to the free list keeps all lists well formed |
| `CosetLists.QueueGoesOn` | src/costab.c:298-309 | a coset that the walk does not stop at is queued and forwards to a smaller one, live or queued later |
| `CosetLists.LastSurvivorMoves` | src/costab.c:317-321 | a removed firstDef or lastDef is replaced by the last surviving coset before it |
| `Coincidence.LeastCongruence` | src/costab.c:211-362 | the representatives of a coincidence describe the least congruence that identifies the two cosets |
| `Coincidence.CoincidenceUnique` | src/costab.c:211-362 | a coincidence has one outcome only: same representatives, same defined entries |
| `Coincidence.QuotientingMerge` | src/costab.c:311-335 | identifying the targets of two entries is forced, and keeps the table a quotient in the making |
| `Coincidence.ColumnDropped` | src/costab.c:284-336 | dropping an entry and merging the targets keeps the table a quotient in the making |
| `Coincidence.CoincidenceEnd` | src/costab.c:258-361 | when the queue is empty, the table is the quotient and no entry mentions a dead coset |
| `Coincidence.CoincidenceCount` | src/costab.c:348-360 | exactly the merged cosets are moved to the free list |
| `Coincidence.EvolvedTrans` | src/costab.c:404-527 | coincidences one after the other compose |
| `Gaps.PassingGap` | src/costab.c:338-343 | handing on a mark keeps what is known about marks: none is made up, none is lost but to a defined entry |
| `Gaps.PassingEnd` | src/costab.c:258-361 | at the end a coset that survives has a mark exactly where it, or a coset that was merged into it, had one and no entry is defined; merged cosets have none |
| `Gaps.GapsSpare` | src/costab.c:338-343 | a table without negative entries has none afterwards, and one whose negative entries are marks has no others |
| `Gaps.OutcomeUnique` | src/costab.c:211-362 | a coincidence has one outcome only, entry by entry |
| `CosetEnumeration.CosetEnumerator.CompressDeductionList` | src/costab.c:165-200 | keeps exactly the deductions that are still defined, in order, apart from one at index 0 |
| `CosetEnumeration.CompressedHead` | src/costab.c:165-200 | the deduction in work comes first if it is still defined and was not at index 0; else the one behind it takes its place |
| `CosetEnumeration.CosetEnumerator.AddDeduction` | src/costab.c:277-281 | a deduction is appended, after compressing a full list |
| `CosetEnumeration.CosetEnumerator.FindRep` | src/costab.c:297-302 | following the links ends at the live representative |
| `CosetEnumeration.CosetEnumerator.Identify` | src/costab.c:314-334 | merges two live cosets: lists, representatives, firstDef and lastDef |
| `CosetEnumeration.CosetEnumerator.WorkOffHead` | src/costab.c:260-360 | replaces one queued coset by its representative in all columns and frees it |
| `CosetEnumeration.CosetEnumerator.HandleCoinc` | src/costab.c:211-362 | the table becomes the quotient; marks of minimal gaps are handed on if minGaps is not 0, and other entries that are not defined stay as they are; the live list becomes its survivors in order, the free list is extended by exactly the merged cosets, nrdel counts them, firstDef and lastDef go back to the last survivors; new or moved entries are on the deduction list, which gets longer by a bounded number of places for each merged coset |
| `CosetEnumeration.DefsThen` | src/costab.c:317-321 | the last survivors of two coincidences, one after the other, are the last survivors of both |
| `Tracing.WalkCloses` | src/costab.c:490-501 | a relator with one letter missing acts trivially if and only if that letter joins the two cosets |
| `Tracing.CoincidenceRespects` | src/costab.c:211-362 | a map to an action that agrees with the table and identifies the two cosets agrees with the quotient |
| `Tracing.DeduceRespects` | src/costab.c:508-510 | a deduction that holds in an action keeps the table compatible with it |
| `Scans.ClosedIdle` | src/costab.c:500-523 | where a relator closes there is nothing to be entered and nothing to be marked |
| `Scans.WideIdle` | src/costab.c:519-523 | neither is there where two missing letters are not next to each other, or minimal gaps are not marked |
| `Scans.MetUnique` | src/costab.c:490-498 | scanning first from the right and then from the left leaves one letter that is determined by relator, coset and table |
| `Derivation.EventSound` | src/costab.c:500-523 | a coincidence, deduction or gap mark drawn from a relator holds in every action where the relator is trivial |
| `Derivation.RunSound` | src/costab.c:369-538 | over whole runs, every map to an action that satisfies relators and subgroup generators stays compatible and gives merged cosets equal images |
| `Derivation.EventUnique` | src/costab.c:485-523 | scanning a word from a coset has one outcome only: the same table, entry by entry, and the same merged cosets |
| `Derivation.RunSpares` | src/costab.c:369-538 | over whole runs, a table without negative entries stays so if minGaps is 0, and marks are the only negative entries if they were |
| `Consequences.Scan` | src/costab.c:490-498 | scanning from both ends leaves walks that meet or stop at missing entries |
| `Consequences.Application.Process` | src/costab.c:485-523 | a scan ends in one justified event: a coincidence, a deduction, the marks of a minimal gap, or nothing, and nothing only if there is nothing to be done; firstDef and lastDef follow |
| `Consequences.Application.ApplySubGens` | src/costab.c:415-475 | the subgroup generators are applied; those removed from the list close at coset 1, those that closed when the call began are removed, and the others have no gap there that could be closed |
| `Consequences.Application.MakeConsequences` | src/costab.c:369-538 | ends, with a run of justified events from the old table to the new one, the number of deleted cosets, and removed subgroup generators that close at coset 1; firstDef and lastDef end at the last survivors up to where they were; without marks of minimal gaps no entry becomes negative; if the table is roomy no deduction is lost; and then, for relator lists with all rotations and inverses, every relator closes wherever all but one of its letters can be traced, and so does, at coset 1, every subgroup generator that is still listed |
| `Consequences.DefinitionAwaited` | lib/grpfp.gi:1254-1270 | after such a call, the definition of a new coset is the only thing that relators and subgroup generators wait for, which is what the next call presupposes |
| `Consequences.SubsStay` | src/costab.c:404-528 | what subgroup generators wait for stays on the list, from one deduction to the next |
| `Consequences.SmallTable` | src/costab.c:56-58 | 6 times the number of entries below the size of the deduction list is roomy enough |
| `Consequences.OneLetter` | src/costab.c:478-523 | at a coset that has been merged, only a relator of one letter makes an entry, and this entry breaks the table |
| `Closure.WorkedOff` | src/costab.c:477-527 | when the relators from an entry have been applied, no relator waits for this entry any longer, in whichever direction it runs through it |
| `Closure.DeductionDone` | src/costab.c:404-530 | from one deduction to the next: what waits, waits for deductions that are on the list |
| `Deductions.SpendsMove` | src/costab.c:272-282 | moving an entry and its mirror image costs five places of the deduction list at most, undefined entries included |
| `Deductions.SpendsDrop` | src/costab.c:284-295 | so does dropping an entry |
| `CosetStandard.PairConjugated` | src/costab.c:710-727 | exchanging two rows conjugates the two columns of a generator by the transposition |
| `CosetStandard.SharedConjugated` | src/costab.c:710-719 | the same where both columns are one list |
| `CosetStandard.SwapPair` | src/costab.c:710-727 | in place, both columns are conjugated, whether or not they are one list |
| `CosetStandard.SwapRows` | src/costab.c:706-728 | every column is conjugated by the transposition, and the table stays inverse-consistent |
| `CosetStandard.ReadEntry` | src/costab.c:700-735 | a coset that is met for the first time becomes the next one; what has been read is not touched |
| `CosetStandard.StandardizeTable` | src/costab.c:656-746 | the table is renamed by a bijection that fixes 1; cosets are first met in the order of their numbers, reading rows of the columns of generators only (semilenlex) or of all columns (lenlex), up to the last coset met; the columns are shortened to these rows |
| `CosetStandard.StandardMeans` | src/costab.c:682-735 | what the loops keep up is the order of first occurrences: every coset is first met after all smaller ones, in the row of a smaller one, in the columns that the standard reads |
| `CosetStandard.ShortenedTable` | src/costab.c:742-746 | the rows that remain are a table of their own, in standard order |
| `CosetStandard.Enumerated` | src/costab.c:656-740 | the tables of an enumeration without marks of minimal gaps, which `HandleCoinc` and `MakeConsequences` keep so, can be standardized |
| `CosetStandard.StabilizerKept` | src/costab.c:656-746 | standardizing does not change which words fix a coset; at coset 1, which words lie in the subgroup |
| `CosetStandard.StandardUnique` | src/costab.c:693-740 | two standard forms of one table have the same rows, with the same names |
| `CosetStandard.Closed` | src/costab.c:742-746 | no entry of the remaining rows leads out of them |
| `CosetStandard.OrbitRemains` | src/costab.c:693-746 | the remaining rows are exactly the orbit of coset 1 |
| `CosetStandard.Canonical` | src/costab.c:656-746 | tables that are equal up to a renaming that fixes 1 have one and the same standard form |
| `Rotations.BestPeriodic` | src/costab.c:1445-1447 | when a rotation comes again all later ones have been seen: the early exit is right |
| `Rotations.LargestUnique` | src/costab.c:1379-1517 | there is only one largest rotation |
| `Rotations.LargestTurned` | src/costab.c:1379-1517 | words that are rotations of each other or of each other's inverses have the same largest word |
| `InPlaceRotation.GcdFacts` | src/costab.c:1506-1507 | the greatest common divisor divides both numbers and is a combination of them |
| `InPlaceRotation.TourFacts` | src/costab.c:1509-1515 | each cycle passes once through every place with its remainder and through no other |
| `InPlaceRotation.RotateCycle` | src/costab.c:1510-1515 | every place of one cycle gets the entry i places further on |
| `InPlaceRotation.RotateInPlace` | src/costab.c:1504-1517 | the list is rotated by i places |
| `CanonicalRelator.CyclicReduce` | src/costab.c:1396-1409 | the word becomes its cyclically reduced form |
| `CanonicalRelator.Extremes` | src/costab.c:1411-1425 | first place of the largest, last place of the smallest letter |
| `CanonicalRelator.CompareForward` | src/costab.c:1433-1444 | decides how two rotations compare |
| `CanonicalRelator.BestForward` | src/costab.c:1431-1449 | finds the start of a largest rotation |
| `CanonicalRelator.BestBackward` | src/costab.c:1455-1473 | finds the start of a largest rotation of the inverse |
| `CanonicalRelator.InvertInPlace` | src/costab.c:1491-1502 | the word is inverted in place |
| `CanonicalRelator.FindLargest` | src/costab.c:1411-1489 | finds where the largest of all rotations of the word and its inverse starts |
| `CanonicalRelator.MakeCanonical` | src/costab.c:1379-1517 | the relator becomes the largest of all rotations of its cyclically reduced form and of the inverse of that |
| `Conjugacy.SameRepresentative` | src/costab.c:1379-1517 | freely reduced words get the same representative if and only if one is conjugate in the free group to the other or to its inverse |
| `Conjugacy.ConjugateIs` | src/costab.c:1379-1517 | conjugating letter by letter is free reduction of x w x^-1 |
| `Conjugacy.CoreInverse` | src/costab.c:1396-1409 | cyclic reduction commutes with inversion |
| `Conjugacy.ReducedRotation` | src/costab.c:1396-1409 | a proper rotation of a freely reduced word is freely reduced if and only if first and last letter do not cancel, and it then is a conjugate |
| `Conjugacy.UnreducedRotation` | src/costab.c:1396-1409 | for rotations that are not reduced nothing of the kind holds: an example |
| `CanonicalRelator.CanonicalIdempotent` | src/costab.c:1379-1517 | for freely reduced relators the representative is its own representative |
| `CanonicalRelator.CoreNonempty` | src/costab.c:1396-1409 | a nonempty freely reduced word does not vanish |
| `WordTree.ValInverse` | src/costab.c:1698-1706 | the negative index stands for the inverse |
| `WordTree.CancelledVal` | src/costab.c:1688-1729 | cancelling factors keeps the product; it ends because the indices get smaller |
| `WordTree.CancelledStuck` | src/costab.c:1696-1729 | two indices are left over only if nothing cancels between them: no factor of one against the other, no facing inner factors |
| `WordTree.ProductVal` | src/costab.c:1686-1770 | the index found or made stands for the product, in every group; old entries keep their meaning |
| `WordTree.ProductAgain` | src/costab.c:1731-1769 | a product that has been entered is found again in every continuation of the tree |
| `WordTree.ProductTidy` | src/costab.c:1731-1769 | entering a product keeps the tree tidy: every entry is a product with nothing to be cancelled between its factors, and no two entries are the same |
| `WordTree.ProductInverse` | src/costab.c:1686-1770 | in such a tree the inverse of a product has the negative index, and enters nothing more |
| `WordTree.UndoExact` | src/costab.c:1686-1770 | in such a tree, multiplying by v and then by -v leads back to the index it started from, without another entry, if and only if one pair of inner factors cancels at most, and then nothing else does |
| `WordTree.NotUndone` | src/costab.c:1723-1727 | a tree and two indices for which it does not, since two pairs of inner factors cancel |
| `WordTree.CollectAgain` | src/costab.c:1683-1773 | asking for the same word again gives the same index and leaves the tree as it is |
| `WordTree.CollectMore` | src/costab.c:1683-1687 | one more letter multiplies what has been collected from the right |
| `WordTree.EntryVal` | src/costab.c:1531-1773 | the index stands for the given word, in every group |
| `WordTree.TreeTable.CheckTree` | src/costab.c:1653-1659 | accepts exactly the trees whose entries refer to smaller indices |
| `WordTree.TreeTable.ReduceWord` | src/costab.c:1661-1681 | freely reduces the word in place, and fails exactly at letters that are no indices |
| `WordTree.ReducedIs` | src/costab.c:1661-1681 | the result has no letter 0 and no adjacent inverse letters, and words without them stay as they are |
| `WordTree.TreeTable.Multiply` | src/costab.c:1686-1770 | computes the product of two indices, and keeps the tree tidy |
| `WordTree.TreeTable.TreeEntry` | src/costab.c:1648-1773 | computes the index of the freely reduced word, and keeps the tree tidy; which inputs are refused |
| `AbelianTree.SameNorm` | src/costab.c:1584-1606 | two vectors share an entry if and only if they are equal or opposite |
| `AbelianTree.EnteredStands` | src/costab.c:1579-1646 | the index stands for the vector in the buffer; entries stay as they are, and different |
| `AbelianTree.EnteredAgain` | src/costab.c:1600-1620 | asking again, for the vector or its negative, finds the same entry in every later state |
| `AbelianTree.IndexUnique` | src/costab.c:1608-1636 | no two indices stand for one vector |
| `AbelianTree.WordEntered` | src/costab.c:1579-1583 | the index stands for the given word if and only if that is what the buffer holds: of the argument only the length is looked at |
| `AbelianTree.AbelianTree.TreeEntry` | src/costab.c:1579-1646 | computes the index and the entries, refuses exactly words of another length, and leaves the vector upright |
| `RelatorLoops.SettledCarried` | src/costab.c:2025-2042 | new entries can only disturb relators that run through them, and these entries are on the stack |
| `RelatorLoops.SettledRot` | lib/grpfp.gi:3071-3095 | a relator that has been scanned from one of its letters on needs no scan from the others |
| `RelatorLoops.StableAwaits` | src/costab.c:2079-2124 | a table that waits for nothing is one in which every relator closes wherever all but one of its letters can be traced |
| `RelatorLoops.TracedCloses` | src/costab.c:1996-2001 | a relator that leads back to its coset closes whatever loop there is from it |
| `RelatorLoops.WideGap` | src/costab.c:2043-2044 | where two letters are missing, nothing can be deduced from this coset |
| `LowIndexScan.ScanSettles` | src/costab.c:1980-2047 | after a scan that does not fail, all loops of the relator from this coset are closed |
| `LowIndexScan.ClashWithin` | src/costab.c:2019-2024 | scans that have met at different cosets rule out every stable extension |
| `LowIndexScan.ScanWithin` | src/costab.c:1980-2047 | a scan does not fail, and deduces what is so, in every stable extension |
| `LowIndex.Scanner.RelatorScan` | src/costab.c:1980-2047 | how far both scans get, what is reported and which entry is made, exactly |
| `LowIndex.Scanner.ScanEntry` | src/costab.c:2081-2124 | the relators that start with an entry, from either end, are settled; whatever is deduced goes onto the stack and into every stable extension |
| `LowIndex.Discharge` | src/costab.c:2081-2124 | once these relators are settled, no relator waits for the entry any longer |
| `LowIndex.Scanner.CosetScan` | src/costab.c:2057-2136 | ends, and extends the table by entries of every stable extension; where the relators come with all rotations, the answer is True if and only if there is a stable extension, and the table has then become the least one |
| `LowIndex.Scanner.Try` | lib/grpfp.gi:3007-3021 | a new entry in a stable table: the table is stable again, below every stable extension that has the entry, or there is no such extension |
| `LowIndex.OneEntry` | lib/grpfp.gi:3016-3020 | a stable table with one more entry waits for that entry only, which is what the caller puts onto the stack |
| `LowIndex.BlankStable` | lib/grpfp.gi:3117 | the search starts from a stable table |
| `LowIndex.LeastModels` | src/costab.c:2057-2136 | every deduction agrees with every action in which the relators are trivial and cosets stand for different points |
| `LowIndex.LeastCompletion` | src/costab.c:2057-2136 | every deduction agrees with every completion, so False means that there is none |
| `LowIndex.CompleteStable` | lib/grpfp.gi:3037-3047 | a complete table is stable if and only if all relators fix all cosets |
| `PcAction.Conjugated` | src/collectors.cc:566-579 | moving a generator to the left past a power of a later one |
| `PcAction.PowersOut` | src/collectors.cc:586-593 | multiples of the relative order are powers of the right hand side |
| `PcAction.WordsPastVec` | src/collectors.cc:541-543 | what the avector promises: words in generators from g on move past generators above the avector entry of g |
| `CollectorStack.PushesAct` | src/collectors.cc:554-579 | stacking up conjugates is moving the generator to the left |
| `CollectorSteps.MovedSame` | src/collectors.cc:537-584 | moving one letter step by step keeps vector times stack |
| `CollectorSteps.StayedSame` | src/collectors.cc:539-552 | so does moving past entries with trivial conjugates |
| `CollectorSteps.DirectSame` | src/collectors.cc:500-513 | so does moving a whole syllable that commutes with all later generators |
| `CollectorSteps.ReducedSame` | src/collectors.cc:586-593 | so does replacing relative orders by powers |
| `CollectorSteps.NegativeSame` | src/collectors.cc:460-466 | so does replacing a negative exponent by the word for the inverse |
| `CollectorSteps.NextSame` | src/collectors.cc:468-492 | so does going on to the next syllable, round or word |
| `CollectorWeights.WeighAll` | src/collectors.cc:457-596 | generators can be given weights that outweigh what they cause to be pushed |
| `CollectorWeights.LetterWeight` | src/collectors.cc:537-593 | moving a letter makes the stack lighter, each frame counting one |
| `CollectorWeights.DirectWeight` | src/collectors.cc:500-593 | so does moving a syllable |
| `CollectorWeights.NegativeWeight` | src/collectors.cc:460-466 | so does replacing a negative exponent |
| `CollectorLead.LettersLed` | src/collectors.cc:500-539 | what the leading generator comes to is kept when letters move into the vector |
| `CollectorLead.ReducedLed` | src/collectors.cc:586-593 | and drops by a multiple of its relative order when an exponent is reduced |
| `CollectorProgress.MoveStep` | src/collectors.cc:537-593 | a whole step of moving a letter: meaning, leading exponent, normal vector, lighter stack |
| `CollectorProgress.DirectStep` | src/collectors.cc:500-593 | a whole step of moving a syllable |
| `SingleCollector.FindConjugate` | src/collectors.cc:545-552 | finds the highest entry that has a nontrivial conjugate |
| `CollectorRun.StepKeeps` | src/collectors.cc:453-596 | one step of the loop, whatever branch it takes: same meaning, same leading total modulo the order, normal vector, lighter stack |
| `CollectorRun.RunKeeps` | src/collectors.cc:453-596 | so does the whole run |
| `CollectorRun.CollectActs` | src/collectors.cc:327-596 | the collected vector is the old one times the word, in every action of the presentation, and its leading entry is what the exponents add up to |
| `CollectorRun.DepthBound` | src/collectors.cc:327-596 | the depth of the run is bounded by the weight of the word |
| `SingleCollector.StackUp` | src/collectors.cc:554-579 | stacks up exactly the conjugates of the entries above g, or fails, if and only if the stack would reach its limit |
| `SingleCollector.Place` | src/collectors.cc:537-584 | the step for one letter, with the last nonzero entry kept up to date; fails if and only if the stack would reach its limit |
| `SingleCollector.ReduceEntry` | src/collectors.cc:586-593 | reduces an exponent and pushes the power; fails if and only if the stack would reach its limit |
| `SingleCollector.Run` | src/collectors.cc:453-596 | ends; fails if and only if the depth of the run reaches the limit; else leaves the collected vector |
| `SingleCollector.Collector.CollectWord` | src/collectors.cc:327-596 | returns -1 if and only if there is no room for max + 2 frames or the depth of the run is max or more, and then the stack has grown; else leaves the collected vector, zero above the result |
| `PcVectors.UnpackPack` | src/collectors.cc:144-234 | a vector is read back from its word |
| `PcVectors.PackUnpack` | src/collectors.cc:144-234 | a reduced word is read back from its vector |
| `PcVectors.PackReduced` | src/collectors.cc:145-177 | the word of a normal vector is reduced |
| `PcVectors.UnpackAct` | src/collectors.cc:217-234 | the vector of a reduced word acts as the word does |
| `PcVectors.VectorWord` | src/collectors.cc:190-236 | writes the exponents into the vector; fails exactly for generators that do not exist |
| `PcVectors.WordVectorAndClear` | src/collectors.cc:145-177 | reads off the word and clears the entries |
| `PcWords.LeadExact` | src/collectors.cc:657-668 | after collecting, the leading entry is the one of the right hand side |
| `PcWords.SolveStep` | src/collectors.cc:657-670 | one more entry of the solution |
| `PcWords.SolveActs` | src/collectors.cc:605-672 | the solution solves ww x = uu, in every action of the presentation |
| `PcArithmetic.Solution` | src/collectors.cc:605-672 | leaves the solution in uu and clears ww; fails if and only if one of the collections does |
| `PcWords.AmpleFor` | src/collectors.cc:78-97 | one stack depth is enough for all reduced words |
| `PcWords.SolveDepthAmple` | src/collectors.cc:605-672 | and for solving equations between normal vectors |
| `PcWords.FormActs` | src/collectors.cc:1320-1347 | the reduced form equals the word, in every action of the presentation |
| `PcWords.ProductActs` | src/collectors.cc:1398-1422 | the product word acts as w and then u |
| `PcWords.LeftQuotientActs` | src/collectors.cc:1353-1391 | w times the left quotient is u |
| `PcWords.CommActs` | src/collectors.cc:1262-1315 | u w times the commutator is w u |
| `PcWords.InverseActs` | src/collectors.cc:1454-1475 | the inverse word undoes the word, from either side |
| `PcWords.PowerActs` | src/collectors.cc:1430-1516 | the power word acts as the power, for every integer exponent |
| `PcArithmetic.Workspace.ReducedForm` | src/collectors.cc:1320-1347 | computes the reduced form, through all retries |
| `PcArithmetic.Workspace.ReducedProduct` | src/collectors.cc:1398-1422 | computes the product word, through all retries |
| `PcArithmetic.Workspace.ReducedLeftQuotient` | src/collectors.cc:1353-1391 | computes the left quotient, through all retries |
| `PcArithmetic.Workspace.ReducedComm` | src/collectors.cc:1262-1315 | computes the commutator, through all retries |
| `PcArithmetic.Workspace.PositivePower` | src/collectors.cc:1474-1514 | computes powers by halving and repeated products |
| `PcArithmetic.Workspace.ReducedPowerSmallInt` | src/collectors.cc:1430-1516 | computes the power word for every integer exponent, through all retries |
| `PcWords.QuotientActs` | src/collectors.cc:1523-1566 | what the attempt that succeeds comes to, by the number of attempts before it |
| `PcWords.QuotientRight` | src/collectors.cc:1559-1562 | the result is w times the inverse of u if and only if the second collection fails an even number of times or u times u is trivial |
| `PcWords.NoFlip` | src/collectors.cc:1523-1562 | the second collection never fails if and only if it needs less than what the limit has been doubled to for the inversion |
| `PcWords.AmpleRight` | src/collectors.cc:1523-1566 | with a stack that is large enough for all reduced words the quotient is right |
| `PcOverflow.SquaringAvector` | lib/rwspcsng.gi:711-752 | the avector of these presentations is the one that the library computes |
| `PcOverflow.OneFlip` | src/collectors.cc:1559-1562 | for these presentations and words the second collection fails exactly once, with the limit that collectors start with and whatever memory |
| `PcOverflow.WrongQuotient` | src/collectors.cc:1750-1761 | so the quotient is wrong, in an action that satisfies the presentation |
| `PcArithmetic.Workspace.ReducedQuotient` | src/collectors.cc:1523-1566 | computes the word of which `QuotientRight` speaks, for the stack at entry |
| `Avector.LeastIsLeast` | lib/rwspcsng.gi:720-721 | the entry is the smallest number that separates |
| `Avector.MakeAvector` | lib/rwspcsng.gi:711-752 | every entry is the smallest j from i on such that generators from i on commute with those above j |
| `Avector.AvectorCommutes` | lib/rwspcsng.gi:720-721 | such an avector has the meaning that collection needs |
| `PcGroups.WordRegular` | src/collectors.cc:327-596 | in the regular action a word multiplies by what it evaluates to |
| `PcGroups.RegularSatisfies` | src/collectors.cc:327-596 | every group that satisfies the relations is covered |
| `PcGroups.GroupEqual` | src/collectors.cc:1320-1347 | equal words have the same value in the group |
| `PcGroups.GroupProduct` | src/collectors.cc:1398-1422 | products of words are products in the group |
| `PcGroups.GroupPower` | src/collectors.cc:1430-1516 | powers of words are powers in the group, for every integer exponent |
| `Powers.GrowthEnough` | src/baltree.h:129-139 | a path on which all nodes are weight-balanced is too long only in a tree with that many nodes |
| `ScapegoatTree.FindEntries` | src/baltree.h:229-240 | looking up finds exactly what the map holds |
| `ScapegoatTree.BalancedInorder` | src/baltree.h:174-203 | rebuilding keeps the order of the items |
| `ScapegoatTree.BalancedDepth` | src/baltree.h:174-214 | a rebuilt tree of n nodes has floor(log2 n) + 1 levels |
| `ScapegoatTree.InsertReturn` | src/baltree.h:250-302 | a nonzero result is the exact size of a subtree with a weight-balanced path |
| `ScapegoatTree.ScapegoatExists` | src/baltree.h:374-396 | insertion into a whole tree returns 0: there always is a scapegoat |
| `ScapegoatTree.InsertEntries` | src/baltree.h:250-302 | insertion keeps the search tree and updates the map |
| `ScapegoatTree.RebuiltLow` | src/baltree.h:288-301 | rebuilding a subtree that is not weight-balanced undoes the growth of its depth |
| `ScapegoatTree.InsertLow` | src/baltree.h:250-302 | the depth grows only where the number of nodes allows it |
| `ScapegoatTree.RemoveEntries` | src/baltree.h:312-356 | removal keeps the search tree and deletes one key |
| `ScapegoatHistory.ApplyKeeps` | src/baltree.h:312-418 | every operation keeps the invariant and refines its counterpart on maps |
| `ScapegoatHistory.HistoryKeeps` | src/baltree.h:250-418 | after every history the counters are right, the tree is dense enough for its height, 3 nodes > 2 maxnodes unless both are 0, and the tree stands for the map of the history |
| `ScapegoatHistory.HeightBound` | src/baltree.h:304-310 | the documented bound: height <= log of the nodes to the base 3/2, plus 1 |
| `ScapegoatHistory.TableLargeEnough` | src/baltree.h:108-110 | the table of thresholds is never read beyond its end |
| `ScapegoatCost.ScapegoatPays` | src/baltree.h:293-301 | a subtree that is rebuilt is skew enough to pay for it |
| `ScapegoatCost.InsertPays` | src/baltree.h:250-302 | the calls of an insertion are paid by the levels passed and by the skewness that goes |
| `ScapegoatCost.HistoryPays` | src/baltree.h:14-18 | calls and savings after a history |
| `ScapegoatCost.Amortized` | src/baltree.h:14-18 | n operations take at most 21 (d + 2) n calls, d being above log n to the base 3/2 |
| `ScapegoatHeap.Linearize` | src/baltree.h:163-171 | the nodes are linked through their right pointers, in order, in front of the list |
| `ScapegoatHeap.Treeify` | src/baltree.h:173-203 | the first n nodes become the tree that halving gives; the rest of the list is untouched |
| `ScapegoatHeap.Rebalance` | src/baltree.h:205-214 | in place, the same nodes form the rebuilt tree |
| `ScapegoatHeap.Count` | src/baltree.h:216-222 | the number of nodes |
| `ScapegoatHeap.Height` | src/baltree.h:418-425 | the number of levels |
| `ScapegoatHeap.Search` | src/baltree.h:229-240 | the node that holds the key, if there is one |
| `ScapegoatHeap.RemoveNode` | src/baltree.h:312-332 | a root with two children takes its successor's item, and the successor is unlinked |
| `ScapegoatHeap.RemoveAux` | src/baltree.h:342-356 | the tree without the key |
| `ScapegoatHeap.ScapegoatMap.InsertAux` | src/baltree.h:250-302 | the tree with the item, and whether a scapegoat is still wanted |
| `ScapegoatHeap.ScapegoatMap.Insert` | src/baltree.h:374-399 | refines insertion into a finite map |
| `ScapegoatHeap.ScapegoatMap.Remove` | src/baltree.h:333-356 | refines deletion from a finite map, rebuilding a tree that has shrunk too far |
| `ScapegoatHeap.ScapegoatMap.Lookup` | src/baltree.h:401-404 | finds exactly what the map holds |
| `ScapegoatHeap.ScapegoatMap.Clear` | src/baltree.h:411-416 | the empty map |
| `CoderExpressions.TagsRoundTrip` | src/code.h:422-466 | immediate references are read back, and no reference is of two kinds |
| `CoderExpressions.DecodeGrown` | src/code.c:240-272 | what has been coded stays what it is when the arena grows |
| `CoderExpressions.FoldEval` | src/code.c:1482-1496 | folding constants does not change what an expression evaluates to, whatever operators and variables mean |
| `CoderExpressions.FoldNormal` | src/code.c:1482-1552 | afterwards no literal is negated and no small integer but the smallest is inverted; expressions like that stay as they are |
| `CoderStatements.FlattenAppend` | src/code.c:356-390 | what a list of statements comes to is what its parts come to |
| `CoderStatements.FlattenSame` | src/code.c:240-272 | packed statements stay what they are when the arena grows or the first sequence is filled |
| `CoderStatements.LastReturns` | src/code.c:856-864 | a return found inside nested sequences is the last statement |
| `Coder.CodeState.New` | src/code.c:240-272 | a node is allocated at the end of the arena |
| `Coder.CodeState.PushUnaryOp` | src/code.c:488-501 | the operand is popped and the operator pushed |
| `Coder.CodeState.PushBinaryOp` | src/code.c:512-529 | the operands are popped in the right order |
| `Coder.CodeState.CodeNot` | src/code.c:1482-1496 | negation, with literals folded |
| `Coder.CodeState.CodeAInv` | src/code.c:1538-1552 | additive inversion, with small integers folded |
| `Coder.CodeState.CodeIntExpr` | src/code.c:1587-1606 | small integers are coded in the reference, all others through the list of values |
| `Coder.CodeState.Code` | src/code.c:1482-1606 | for every expression, the actions push one entry that stands for the folded expression, and leave all else as it was |
| `CoderExpressions.ResolveEval` | src/code.c:1596-1602 | looking up large integers in the list of values is evaluating them |
| `Coder.CodeEvaluates` | src/code.c:1482-1606 | the code evaluates as the expression does |
| `Coder.CodeState.PopSeqStat` | src/code.c:356-390 | the packed statement comes to the statements, in order; its type says how many it executes |
| `Coder.CodeState.PopLoopStat` | src/code.c:392-418 | so does the body of a loop; up to three statements are left alone, others are packed into one |
| `Coder.CodeState.EndWithReturn` | src/code.c:843-869 | a return without a value is added if and only if the innermost last statement is no return |
| `Coder.CodeState.CodeFuncExprEnd` | src/code.c:833-886 | the body comes to the statements that were coded, in order, and ends in a return, which is added if and only if it is missing; up to seven statements are left alone, of more the first six |
| `CopyBits.MaskNumber` | src/bits_intern.h:39-42 | the mask is the difference of two powers of two |
| `CopyBits.CopyInWord` | src/bits_intern.h:50-59 | exactly the bits of the block are replaced |
| `CopyBits.CopiedThen` | src/bits_intern.h:62-154 | copies of adjacent blocks of bits compose |
| `CopyBits.CopyAligned` | src/bits_intern.h:74-101 | the same where both blocks have the same alignment |
| `CopyBits.CopyShifted` | src/bits_intern.h:103-153 | the same where they have not |
| `CopyBits.CopyBits` | src/bits_intern.h:62-154 | the bits are copied, no other bit changes, and only words that hold requested bits are read |
| `BooleanLists.SetRange` | src/blister.c:1325-1331 | exactly the bits of the range are set, whole blocks at a time |
| `BooleanLists.UniteRangeRange` | src/blister.c:1306-1332 | a range in a range: marks exactly the places whose elements lie in sub |
| `BooleanLists.UniteListInRange` | src/blister.c:1334-1356 | a list in a range: the same |
| `BooleanLists.BinarySearch` | src/blister.c:1373-1381 | finds where an element would have to stand, for every total order |
| `BooleanLists.UniteBySearch` | src/blister.c:1365-1388 | a small list in a set: the same |
| `BooleanLists.UniteInParallel` | src/blister.c:1390-1425 | a large list in a set: the same |
| `BooleanLists.UniteUnsorted` | src/blister.c:1429-1477 | a list that is not a set: the same |
| `BooleanListUnite.SetList` | src/blister.c:1392-1396 | the elements in ascending order, each once |
| `BooleanListUnite.Unite` | src/blister.c:1281-1482 | whichever way is taken, exactly the places whose elements lie in sub are marked, and unused bits stay zero |
| `BooleanLists.PaddedMarked` | src/blister.c:1281-1482 | unused bits stay zero |
| `BooleanLists.EqualBlocks` | src/blister.c:269-294 | comparing blockwise is comparing elements, since unused bits are zero |
| `BooleanLists.FlipOrSetAll` | src/blister.c:1595-1678 | all elements are inverted or set, and unused bits stay zero |
| `BooleanListUpdates.WithBitList` | src/blister.c:569-597 | setting or clearing a bit is assigning to the list, and unused bits stay zero |
| `BooleanListUpdates.Shortened` | src/blister.c:533-537 | unbinding the last element shortens the list, and unused bits stay zero |
| `BooleanListUpdates.BooleanList.Assign` | src/blister.c:564-610 | the list changes as an ordinary list would; it stays packed if and only if a boolean goes to a place up to one beyond the end |
| `BooleanListUpdates.BooleanList.Unbind` | src/blister.c:529-543 | the list changes as an ordinary list would; it stays packed if and only if the place is not before the last |
| `BooleanLists.PlainInPlace` | src/blister.c:731-748 | the bits become entries in place, none being overwritten before it is read |
| `BooleanLists.ConvInPlace` | src/blister.c:805-835 | the entries become bits in place, unused bits being zero |
| `BooleanLists.PlainAfterConv` | src/blister.c:731-835 | entries that are packed and unpacked are the old entries |
| `BooleanLists.ConvAfterPlain` | src/blister.c:731-835 | blocks that are unpacked and packed are the very same blocks if and only if unused bits were zero |

## Left out

- Consequences.Application.MakeConsequences: relators have at least two letters, because one of one letter can write into the row of a coset that was merged earlier in the same loop over relators (`Consequences.OneLetter`); that all consequences are found is stated for relator lists as `lib/grpfp.gi` makes them, where slots with one column have one list, and for calls that do not lose a deduction.
- CosetEnumeration.CosetEnumerator.CompressDeductionList: when the list is full, deductions may be lost: the one at index 0, because the source compares `j < i`; and where the deduction in work goes, the one behind it takes its place (`CosetEnumeration.CompressedHead`) and is passed over when the caller goes on to the next index. What consequences are missed then is not stated; `Consequences.SmallTable` says when the list cannot become full.
- Columns of relators are given by their numbers, not by pointers to the lists; the two lists dedgen and dedcos are one list of pairs.
- CosetStandard.StandardizeTable: the shortened columns are returned, since arrays keep their length; for the semilenlex order `Closed`, `OrbitRemains` and `Canonical` need a complete table.
- WordTree.TreeTable.TreeEntry: the allocated size of the tree lists is not modelled, nor is it for `AbelianTree`.
- LowIndex.Scanner.CosetScan: the stack has no limit, so growing it is not modelled; that the result is the least stable extension is stated for lists that hold all rotations of their relators, which is how `lib/grpfp.gi` makes them.
- TreeEntryC, AddCosetFactor2 and the other routines of the Reduced Reidemeister-Schreier method are not part of this model.
- FuncLOWINDEX_IS_FIRST and FuncTC_QUICK_SCAN are not part of this model.
- Machine integers: exponents and cosets are unbounded, except that exponents of words are stored in a limited number of bits (`PcVectors.Stored`).
- The five stacks of the collector are one stack of frames; only their common size is modelled, and enlarging them is one event.
- The branches of SingleCollectWord that add words directly (lines 515-535) can never be reached and are not modelled.
- CombiCollectWord is not part of this model.
- PcVectors.VectorWord: vectors have the right length from the start, so fixing it is not modelled.
- PcArithmetic.Workspace.PositivePower: does the work for positive exponents, which the source does in the same function as the inversion.
- Powers.MinNodes: exact integers instead of double arithmetic for the table of thresholds.
- ScapegoatHeap.ScapegoatMap.Remove: the address of the pointer to a node is modelled by returning the new pointer, so that rebuilding happens after the pointers have been written back; freeing memory is not modelled.
- Coder.CodeState.New: growing the bag of the body, line numbers, and the error for nodes of more than 24 bits of size are not modelled; sizes and statement references count words.
- Coder.CodeState.Code: calls, records, lists and strings are not modelled.
- BooleanListUnite.Unite: the order of the elements is a parameter, total and by size on integers; sub is turned into a set by a function instead of the kernel's sorting.
- BooleanListUpdates.BooleanList.Assign: once the list is plain, further assignments are those of plain lists, which are not modelled; nor are the filters of the list.
- CopyBits.CopyShifted: the source computes the mask for the last words even when no bits are left, which for a block that ends with a word shifts a 64-bit word by 64; C leaves this undefined, the model takes an unspecified word (`beyond`) for the mask, on which nothing depends.
- CopyBits.CopyBits: words are sequences of 64 bits, on which the operators of C are defined bit by bit.
- The compiler (`src/compiler.c`) is not part of this model.
- Allocation, garbage collection and type checks of arguments are not part of this model.
