# pyranges: the legacy `GRanges` container and its row generator

This project models, in Dafny, the core of an early version of pyranges, a
library of genomic intervals held in a pandas data frame with the columns
Chromosome, Start, End and (optionally) Strand.

- `create_ncls` / `create_ncls_dict` split the frame with `groupby` on
  Chromosome, or on (Chromosome, Strand) when the frame has a Strand column.
  Each group gets an interval index over its (Start, End, index label)
  triples.
- `GRanges.__init__` keeps the frame and builds that dictionary once.
  `GRanges.__getitem__` reads a selector and does one of three things:
  it returns a new `GRanges` over the selected rows, it raises, or it falls
  through and returns `None`. The selector forms are a chromosome or strand
  string, a bare slice, `(chromosome, slice)`, `(strand, slice)`,
  `(chromosome, strand)` and `(chromosome, strand, slice)`.
- `mysort`, from the property tests, turns a generated
  (chromosome, position, position, strand) tuple into a row
  `[Chromosome, Start, End, Strand]`.

Modules:

- `Intervals` (`intervals.dfy`) holds rows, frames, group keys, the
  half-open overlap test, and Python's order on strings and key tuples.
- `NclsDict` (`ncls_dict.dfy`) holds the groups, the per-key indexes, the
  order in which `groupby` lists its keys, and the facts that the groups
  partition the frame.
- `GRangesModel` (`granges.dfy`) holds the `GRanges` value and its
  invariant, plus the frame operations `df.loc[mask]` and `df.loc[labels]`.
  `Select` is `__getitem__` branch by branch. `GetItem` is the method that
  runs the two `extend` loops and is proved equal to `Select`.
- `GetItemProperties` (`getitem_properties.dfy`) states, for each selector
  form, which rows it selects, which bounds it fills in, which errors it
  raises and which selectors return `None`.
- `HypothesisRows` (`mysort.dfy`) models `mysort` and `sorted` on key/value
  pairs, with the properties the tests rely on.

Modelling choices:

- A frame is `Table(hasStrand, rows)`. A row is its index label plus the four
  columns. A strand is `"+"` or `"-"`.
- `GRanges` is a value. `__init__` sets both fields once and nothing assigns
  them later, so `Valid()` states the one invariant: `ncls == CreateNclsDict(df)`.
- `df.groupby` lists its keys in sorted order. For strings this is code-point
  order (`StrLess`); for key tuples it is lexicographic (`KeyLess`).
  `dict.values()` follows that insertion order.
- The index library is foreign code. `FindOverlap` gives its query the
  half-open rule `Start < stop && start < End`, with results in row order.
  No property depends on that order.
- `df.loc[labels]` returns, label by label, every row with that label
  (`Loc`). `df.loc[mask]` keeps the matching rows in frame order (`Where`).
- `x or d` uses `d` when `x` is `None` or `0` (`Truthy`, `OrZero`).
- Errors are values: `InvalidString` for the `Exception` at line 109;
  `NoStrandColumn` for the AttributeError of `df.Strand` on a frame without
  that column; `MissingKey` for the KeyError of a missing index;
  `UnboundChromosome` for reading `chromosome` at line 127 before it is
  bound; `NotASlice` for `.start` on a third tuple element that is no slice.
- Several properties need unique index labels (`UniqueIds`), which holds for
  the default RangeIndex. Without them, `df.loc` repeats rows that share a
  label, and the model does the same.

## Model

| member | source | states |
|---|---|---|
| Intervals.StrLessIrreflexive | pyranges/pyranges.py:33-35 | no string sorts before itself in Python's string order, the order `groupby` sorts chromosome names by |
| Intervals.StrLessTransitive | pyranges/pyranges.py:33-35 | Python's string order is transitive |
| Intervals.StrLessTotal | pyranges/pyranges.py:33-35 | any two different strings are ordered one way or the other |
| Intervals.KeyLessIrreflexive | pyranges/pyranges.py:33-35 | no group key sorts before itself |
| Intervals.KeyLessTransitive | pyranges/pyranges.py:33-35 | the lexicographic order on (chromosome, strand) keys is transitive |
| Intervals.KeyLessTotal | pyranges/pyranges.py:33-35 | any two different group keys are ordered, so the groupby order is total |
| NclsDict.GroupMembers | pyranges/pyranges.py:32-37 | a group holds exactly the rows whose key is the group's key |
| NclsDict.CreateNcls | pyranges/pyranges.py:23-27 | the index of a group is built from one (Start, End, label) triple per row, in row order |
| NclsDict.CreateNclsDict | pyranges/pyranges.py:30-39 | `create_ncls_dict`: one index per groupby key, built by `CreateNcls` from that key's rows. Its contract is stated by `SortedKeys`, `OrderedKeys`, `DictKeyedByColumns`, `RowIndexedUnderItsKey`, `RowInNoOtherIndex` and `GroupsPartitionRows` |
| NclsDict.InsertKeySorted | pyranges/pyranges.py:37 | adding a key to a strictly sorted key list keeps it strictly sorted and adds exactly that key |
| NclsDict.SortedKeys | pyranges/pyranges.py:32-37 | the keys `groupby` visits are strictly sorted and are exactly the keys of the rows |
| NclsDict.OrderedKeys | pyranges/pyranges.py:37 | the dictionary's iteration order is strictly sorted and covers exactly its keys, which are the frame's keys |
| NclsDict.FindOverlap | pyranges/pyranges.py:118-119 | a query reports exactly the labels of the indexed triples that overlap the half-open range |
| NclsDict.GroupsPartitionRows | pyranges/pyranges.py:30-39 | the indexes taken in iteration order hold, as a multiset, exactly one triple per row of the frame |
| NclsDict.DictKeyedByColumns | pyranges/pyranges.py:32-37 | a key has an index iff some row has it; keys are (chromosome, strand) pairs exactly when there is a Strand column; no index is empty |
| NclsDict.RowIndexedUnderItsKey | pyranges/pyranges.py:37 | every row's triple is in the index of its own key |
| NclsDict.RowInNoOtherIndex | pyranges/pyranges.py:37 | with unique labels, no row's triple is in the index of another key |
| GRangesModel.New | pyranges/pyranges.py:46-50 | a new GRanges keeps the frame and its indexes are `create_ncls_dict` of it |
| GRangesModel.Where | pyranges/pyranges.py:105 | `df.loc[mask]` with a boolean mask; `GetItemProperties.WhereInOrder`, `WhereCounts` and `WhereIsFilter` state that it keeps exactly the matching rows, in frame order, with their multiplicity |
| GRangesModel.Labelled | pyranges/pyranges.py:121 | `df.loc[x]` gives exactly the rows labelled x |
| GRangesModel.Loc | pyranges/pyranges.py:121 | `df.loc[labels]`: the rows of each listed label in turn; `GetItemProperties.LocMembership` and `LocNoDup` state which rows it holds and that none repeats |
| GRangesModel.MaxEnd | pyranges/pyranges.py:154 | `End.max()` bounds every End and is the End of some row |
| GRangesModel.DefaultStop | pyranges/pyranges.py:116-117 | a truthy stop is used as given; otherwise the stop is at least the start and every End, and is the start or some End |
| GRangesModel.DistinctChroms | pyranges/pyranges.py:129 | `drop_duplicates` lists every chromosome of the frame exactly once |
| GRangesModel.DistinctChromsFirstAppearance | pyranges/pyranges.py:129 | `drop_duplicates` keeps first appearances: every occurrence of a chromosome is preceded by an occurrence of each chromosome listed before it |
| GRangesModel.GatherAll | pyranges/pyranges.py:156-158 | the labels the bare-slice loop gathers, index after index in `ks` order; `GetItemProperties.GatherAllMembership`, `GatherAllNoDup` and `BareSliceLabels` state which labels those are |
| GRangesModel.GatherStrand | pyranges/pyranges.py:128-130 | the strand loop with its KeyError; `GetItemProperties.GatherStrandCompletes`, `GatherStrandStopsAtFirst` and `GatherStrandIds` state when it raises and what it gathers |
| GRangesModel.GatherStrandStaysMissing | pyranges/pyranges.py:128-130 | once the strand loop meets a missing key it raises, whatever chromosomes follow |
| GRangesModel.GatherAllLoop | pyranges/pyranges.py:156-158 | the bare-slice loop, run over the dictionary's keys in order, gathers exactly the labels the specification of that loop lists |
| GRangesModel.GatherStrandLoop | pyranges/pyranges.py:128-130 | the strand loop over the distinct chromosomes either raises at the missing key or gathers exactly the labels the specification of that loop lists |
| GRangesModel.GetItem | pyranges/pyranges.py:100-162 | the method that runs the `extend` loops of lines 128-130 and 156-158 returns exactly what `__getitem__` specifies |
| GRangesModel.Select | pyranges/pyranges.py:100-162 | `__getitem__` branch by branch; the `GetItemProperties` selector lemmas (`StringSelectsChromosome` to `UnmatchedSelectorsReturnNone`) state what each form selects or raises |
| GRangesModel.SelectTuple | pyranges/pyranges.py:111-149 | the four tuple forms tried in source order; `ChromSliceQueriesBothStrands`, `StrandSliceSelectsStrand`, `PairSelectsChromAndStrand`, `ChromStrandSliceQueriesOneKey` and `UnmatchedSelectorsReturnNone` state their results |
| GetItemProperties.WhereInOrder | pyranges/pyranges.py:105 | the rows a boolean mask keeps appear in frame order |
| GetItemProperties.WhereCounts | pyranges/pyranges.py:105 | a boolean mask keeps each row as often as it occurs in the frame where the mask holds, and never otherwise |
| GetItemProperties.WhereIsFilter | pyranges/pyranges.py:105 | a boolean mask keeps, in frame order and with their multiplicity, exactly the rows it holds for |
| GetItemProperties.LocMembership | pyranges/pyranges.py:121 | `df.loc[labels]` contains exactly the rows whose label is listed |
| GetItemProperties.LocNoDup | pyranges/pyranges.py:121 | with unique frame labels and distinct listed labels, `df.loc[labels]` has no row twice |
| GetItemProperties.IndexMembership | pyranges/pyranges.py:147 | one index reports exactly the labels of the rows under its key that overlap the query |
| GetItemProperties.IndexesDisjoint | pyranges/pyranges.py:118-119 | with unique labels, two indexes never report the same label |
| GetItemProperties.BareSliceLabels | pyranges/pyranges.py:156-158 | the bare-slice loop gathers exactly the labels of the rows that overlap the range, whatever their key |
| GetItemProperties.GatherAllNoDup | pyranges/pyranges.py:156-158 | with unique labels, the bare-slice loop gathers no label twice |
| GetItemProperties.GatherStrandCompletes | pyranges/pyranges.py:128-130 | the strand loop finishes iff every chromosome it visits has an index for the strand |
| GetItemProperties.GatherStrandStopsAtFirst | pyranges/pyranges.py:128-130 | when the strand loop raises, it names the first chromosome without an index for the strand |
| GetItemProperties.GatherStrandIds | pyranges/pyranges.py:128-130 | when it finishes, it gathers exactly the labels some visited index reports |
| GetItemProperties.StringSelectsChromosome | pyranges/pyranges.py:103-105 | a chromosome string selects exactly that chromosome's rows, in frame order, each as often as in the frame; this is tested before any strand |
| GetItemProperties.StringNotChromosome | pyranges/pyranges.py:106-109 | any other string: "+"/"-" selects exactly the rows on that strand, or raises without a Strand column; anything else raises |
| GetItemProperties.PairSelectsChromAndStrand | pyranges/pyranges.py:134-139 | `(chromosome, strand)` selects exactly the rows with both values, or raises without a Strand column |
| GetItemProperties.BareSliceSelectsOverlaps | pyranges/pyranges.py:151-160 | a bare slice uses bounds `start or 0` and `stop or max(End.max(), start)`, and selects each row overlapping that range exactly once |
| GetItemProperties.FullSliceSelectsEveryRow | pyranges/pyranges.py:151-160 | on rows with 0 <= Start < End, `g[:]` selects every row exactly once |
| GetItemProperties.ChromDefaultStop | pyranges/pyranges.py:116-117 | the default stop in the chromosome forms is at least every End on that chromosome and is either the start or one of those Ends |
| GetItemProperties.ChromSliceQueriesBothStrands | pyranges/pyranges.py:113-121 | `(chromosome, slice)` needs both the "+" and "-" indexes ("+" missing raises first). It selects each row of that chromosome on either strand that overlaps the range, exactly once |
| GetItemProperties.StrandSliceSelectsStrand | pyranges/pyranges.py:123-132 | `(strand, slice)` without a stop raises (unbound `chromosome`). Otherwise it raises KeyError at the first chromosome with no row on the strand, or selects each row on that strand that overlaps the range, exactly once |
| GetItemProperties.ChromStrandSliceQueriesOneKey | pyranges/pyranges.py:141-149 | `(chromosome, strand, slice)` raises on a third element that is no slice and on a missing key. Otherwise it selects each row on that chromosome and strand that overlaps the range, exactly once |
| GetItemProperties.UnmatchedSelectorsReturnNone | pyranges/pyranges.py:111-162 | other selector types return None; a tuple returns None iff it fits none of the four tuple forms, e.g. any triple whose first element is no chromosome |
| HypothesisRows.MySort | tests/test_hypothesis.py:24-31 | `mysort`: bump equal positions, then sort the four elements by key or raise TypeError; `ClashOnlyAtEnds`, `MySortOrdersByKey`, `MySortInRange`, `GeneratedRowIsInterval`, `MySortIdempotent` and `MySortOutOfRange` state its results |
| HypothesisRows.Bump | tests/test_hypothesis.py:26-27 | equal positions get the second increased by one; afterwards the positions always differ |
| HypothesisRows.InsertKeeps | tests/test_hypothesis.py:31 | inserting a pair keeps every pair and adds it |
| HypothesisRows.SortByKeyKeeps | tests/test_hypothesis.py:31 | sorting keeps every pair (a permutation) |
| HypothesisRows.InsertIncreasing | tests/test_hypothesis.py:31 | inserting a pair with a new key into a key-increasing list keeps it key-increasing |
| HypothesisRows.SortByKeyIncreasing | tests/test_hypothesis.py:31 | pairs with distinct keys come out strictly increasing by key, as a permutation of the input |
| HypothesisRows.SortFour | tests/test_hypothesis.py:29-31 | four pairs with the least key first and the greatest last are sorted by swapping only the middle two when needed |
| HypothesisRows.ClashOnlyAtEnds | tests/test_hypothesis.py:26-31 | after the bump, `sorted` compares a str with an int iff a position equals -1 or 1e10 |
| HypothesisRows.MySortOrdersByKey | tests/test_hypothesis.py:24-31 | without such a tie, the result is the tuple's elements in strictly increasing key order, each exactly once |
| HypothesisRows.MySortInRange | tests/test_hypothesis.py:29-31 | with both positions strictly between -1 and 1e10, the result is [chromosome, lo, hi, strand], with lo < hi the two positions after the bump |
| HypothesisRows.GeneratedRowIsInterval | tests/test_hypothesis.py:24-36 | every generated tuple becomes four elements: the chromosome, then 0 <= Start < End (the positions after the bump, as a multiset), then the strand |
| HypothesisRows.EqualPositionsBumped | tests/test_hypothesis.py:26-27 | equal generated positions p, p become the interval [p, p + 1) |
| HypothesisRows.MySortIdempotent | tests/test_hypothesis.py:24-31 | applying `mysort` to its own output on a generated tuple returns the same row |
| HypothesisRows.MySortOutOfRange | tests/test_hypothesis.py:29-31 | a position of -1 in either place raises TypeError, and a first position below -1, with the second strictly between -1 and 1e10, is sorted in front of the chromosome |

## Left out

- `overlap`, `intersection`, `overlap_join`, `cluster`, `tile` and `coverage` (pyranges/pyranges.py:56-97): they only forward to `pyranges.methods`, which is not part of this model.
- The interval index library's internals: the nested containment list is not modelled. Its query is the assumed half-open predicate `FindOverlap`, and its results are taken in row order.
- The `print` in `__init__`, `__str__`/`__repr__` and `__getattr__` (pyranges/pyranges.py:52, 164-191): console output, table formatting and dynamic column lookup.
- The toggling of the pandas option `chained_assignment` (pyranges/pyranges.py:102, 162): a side effect on library state, with no effect on what is selected.
- The parameter `n` of `create_ncls_dict` and `GRanges`: it is never used.
- Slice bounds other than integers or `None`; selector elements other than strings, slices and "other"; chromosome values other than strings. Columns other than the four are not carried in a row.
- GRangesModel.DefaultStop: on a frame with no rows pandas gives NaN for `End.max()`. The model uses the start, because no index exists to query there.
- GRangesModel.Select: `df.loc[labels]` for a label missing from the frame would raise KeyError. Every label comes from an index of the same frame, so this cannot happen and it is not modelled.
- HypothesisRows.MySort: only tuples of a string, two ints and a string are modelled, as the test's strategy builds them. `sorted` is modelled for keys that differ, which is all it needs: any tie between a string's key and a position raises TypeError, and the bump makes the positions differ.
- The hypothesis strategies, the Rle arithmetic tests and the bedtools comparison tests (tests/test_hypothesis.py:33-90, 126-277): random generation, floating point in another library, and subprocess and temporary-file I/O.
