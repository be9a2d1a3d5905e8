# Difference reports of golangplus/testing `assert`, in Dafny

When an equality assertion fails, the `assert` package of golangplus/testing
prints what differs between the actual and the expected value. This project
models that part of `assert/assert.go` and proves properties of it.

Maps are reported entry by entry:

- `collectAndSortMapKeys` collects each map's keys and sorts them by their
  `%+v` rendering. It uses `sort.Sort` over two parallel arrays that are
  swapped in lockstep.
- `collectMapDiffKeys` walks the two sorted key lists with two pointers, a
  merge-join. It classifies each key as
  - missing: only in the expected map;
  - changed: in both maps, with different values;
  - extra: only in the actual map.

  Keys whose renderings are equal are not assumed equal: inside such a run,
  each key is looked up in the other map by itself.
- `mapDiff` logs a title, a header, then the missing, changed and extra
  entries, with values rendered by `mapValueToStr`.

Sequences are reported line by line:

- `sliceToStrings` renders each element.
- `stringSliceEqual` compares the renderings.
- If they differ, `linesEqual` logs a title and walks a partial matching of
  the two sides:
  - an unmatched expected line is shown as removed (`---`);
  - an unmatched actual line is shown as added (`+++`);
  - a matched pair is shown only when its lines differ.

Files:

- `string_order.dfy` (module `StringOrder`): Go's `<` on strings, which is
  lexicographic.
- `diff_report.dfy` (module `DiffReport`): titles, the report shape, the
  header, and `%d` / `%3d`.
- `key_sort.dfy` (module `KeySort`): `collectAndSortMapKeys`. It is
  imperative: two arrays, a lockstep `Swap`, and a selection sort.
- `map_diff.dfy` (module `MapDiff`):
  - `collectMapDiffKeys` as a loop, proved equal to filter functions
    (`Absent`, `Changed`);
  - `mapValueToStr`;
  - `mapDiff`.
- `lines_diff.dfy` (module `LinesDiff`):
  - `sliceToStrings` and `stringSliceEqual`;
  - the walk of `linesEqual`, proved equal to a recursive function
    `WalkFrom`, and that function proved to meet the walk's specification
    `WalkSpec`;
  - `linesEqual` itself.

A report is modelled as a `Report`: a `Title` plus the lines in the order
they are logged. `RenderReport`, `LineText` and `MapLineText` give the text
each `t.Error` / `t.Log` / `t.Logf` call receives; `MapReportText` and
`LinesReportText` put them together with each report's unit ("entries" or
"lines") and line format.

`%+v` is a parameter: `render` for keys and elements, `show` for values.
`%q` is a parameter too: `quote`. `reflect.DeepEqual` on values is Dafny
equality, and `MapIndex(...).IsValid()` is map membership.

## Model

| member | source | states |
|---|---|---|
| StringOrder.Less | assert/assert.go:78 | Go's `<` on strings, used by the sort's `LessF` and the merge-join's cases: `a < b` exactly when `a` is a proper prefix of `b`, or when `a` has the smaller character at the first position where they differ |
| StringOrder.LessTrichotomous | assert/assert.go:93-99 | exactly one of `<`, `==`, `>` holds between two renderings, so the merge-join's three cases are exhaustive and exclusive |
| StringOrder.LessTransitive | assert/assert.go:76-79 | the `LessF` order on renderings is transitive, which sorting relies on |
| StringOrder.LessIrreflexive | assert/assert.go:76-79 | no rendering sorts before itself |
| KeySort.MapKeys | assert/assert.go:70 | the keys collected are those of the map, each exactly once (as a multiset), in an unspecified order |
| KeySort.Swap | assert/assert.go:80-83 | the `SwapF` closure exchanges positions `i` and `j` in both arrays at once and changes nothing else |
| KeySort.SortByRendering | assert/assert.go:75-84 | after the sort the renderings are non-decreasing, the keys are a permutation of the keys before it, and each rendering still sits beside its own key |
| KeySort.PlaceLeast | assert/assert.go:75-84 | one sorting step extends the sorted, final prefix by one position while keeping the arrays paired and the keys a permutation |
| KeySort.IndexOfLeast | assert/assert.go:76-79 | finds, using `LessF` only, a position whose rendering is no greater than any later one |
| KeySort.CollectAndSortMapKeys | assert/assert.go:69-86 | returns every key of the map once, with `keyStrs[i]` the rendering of `keys[i]`, sorted by rendering |
| KeySort.PermutationOfSet | assert/assert.go:69-86 | a key list with the map's key multiset has no repeats, has the map's size, and holds exactly the map's keys |
| MapDiff.CollectMapDiffKeys | assert/assert.go:88-132 | the merge-join returns exactly the expected keys absent from `act` (missing), the expected keys in both maps with unequal values (changed), and the actual keys absent from `exp` (extra), each in list order |
| MapDiff.MergeStep | assert/assert.go:92-127 | one round of the merge-join keeps its invariant and advances at least one pointer: every key passed on one side renders before every key still ahead on the other, and the lists so far classify exactly the keys passed |
| MapDiff.MissingPassed | assert/assert.go:93-95 | when the expected key renders before the current actual key, that key is absent from `act`, and appending it to missing while advancing `i` keeps the merge-join's invariant |
| MapDiff.ExtraPassed | assert/assert.go:97-99 | when the actual key renders before the current expected key, that key is absent from `exp`, and appending it to extra while advancing `j` keeps the merge-join's invariant |
| MapDiff.CollectExpRun | assert/assert.go:104-117 | over a run of expected keys with one rendering, each key goes to missing if `act` lacks it, to changed if the values differ, and nowhere if they are equal; the run is consumed to its end |
| MapDiff.CollectActRun | assert/assert.go:118-126 | over a run of actual keys with one rendering, a key that `exp` holds is skipped, since the expected run dealt with it, and any other goes to extra |
| MapDiff.BeforeAllOthers | assert/assert.go:93-99 | a key that renders strictly before the other side's current key cannot be among the other side's keys, which is why the strict branches can decide missing or extra without a lookup |
| MapDiff.Leftover | assert/assert.go:129-130 | once one list is used up, every key left on the other is absent from the other map, so flushing the tail completes the classification |
| MapDiff.RunsPassed | assert/assert.go:102-126 | after both runs of one rendering are consumed, every passed key still renders before every key ahead on the other side |
| MapDiff.AbsentMembers | assert/assert.go:93-130 | the missing (or extra) list holds exactly the listed keys the other map lacks |
| MapDiff.ChangedMembers | assert/assert.go:107-116 | the changed list holds exactly the listed keys that both maps hold with unequal values |
| MapDiff.ClassificationExact | assert/assert.go:88-132 | soundness and completeness, both ways: a key is missing iff only `exp` has it, changed iff both have it with unequal values, extra iff only `act` has it |
| MapDiff.EachKeyOnce | assert/assert.go:88-132 | every expected key lands in exactly one of missing, changed or silently matched, and no list repeats a key |
| MapDiff.ClassificationSorted | assert/assert.go:91-130 | the missing, changed and extra lists are each in non-decreasing order of rendering |
| MapDiff.NothingToReportIffEqual | assert/assert.go:104-131 | the three lists are all empty exactly when the two maps are equal |
| MapDiff.CollisionKeptApart | assert/assert.go:102-126 | two distinct keys with the same rendering, one only in `exp` and one only in `act`, are reported as missing and extra, never paired as one changed entry |
| MapDiff.MapDiff | assert/assert.go:143-178 | the title comes from the two map sizes; the lines are every missing key with its expected value, then every changed key as an expected/actual pair, then every extra key with its actual value; the lists are exact, repeat-free and sorted by rendering; there are no lines iff the maps are equal |
| MapDiff.ClassifyKeys | assert/assert.go:145-150 | both maps' keys are collected, sorted and classified, and the counts for the title are the maps' sizes |
| MapDiff.EmitEntries | assert/assert.go:162-166 | the loop over missing (or extra) keys logs one line per key, in list order, with that key's value on its side |
| MapDiff.EmitChanged | assert/assert.go:167-172 | the loop over changed keys logs, per key and in list order, the expected value's line and then the actual value's line |
| MapDiff.MapReportEmptyIffEqual | assert/assert.go:162-177 | the emitted lines are empty exactly when the maps are equal |
| MapDiff.MapValueToStr | assert/assert.go:134-141 | the value part is empty exactly when the value prints as `{}`; otherwise it is `: ` followed by the quoted rendering |
| MapDiff.MapLineText | assert/assert.go:164 | a map line is four spaces, the side's marker and a space, then the quoted key rendering, then the value part |
| DiffReport.TitleFor | assert/assert.go:154-158 | the title is "both N" exactly when the two counts are equal, and it carries both counts either way |
| DiffReport.SizesText | assert/assert.go:154-158 | the sizes part starts with "both " exactly when the title is for equal sizes, and ends with " <unit>"; for equal sizes the digits after "both " are `Decimal(N)` and read back as N; otherwise "exp ", the digits of the expected count, ", act " and the digits of the actual count follow, and each read back as its count |
| DiffReport.TitleText | assert/assert.go:153-157 | the title text is the call-site prefix, then "Unexpected <name>: ", then the sizes part, so it ends with " <unit>" |
| DiffReport.RenderReport | assert/assert.go:159-160 | the sink receives the title as an error, then the header, then one log entry per report line, in order |
| MapDiff.MapReportText | assert/assert.go:153-176 | what mapDiff hands the sink: the title as an error, ending " entries" and saying "both " exactly for equal sizes, then the header, then each report line as `MapLineText`, in order |
| LinesDiff.LinesReportText | assert/assert.go:324-356 | what linesEqual hands the sink: the title as an error, ending " lines" and saying "both " exactly for equal sizes, then the header, then each walk line as `LineText`, in order |
| DiffReport.Decimal | assert/assert.go:346 | `%d` of a natural number is a non-empty string of digits with no leading zero |
| DiffReport.DecimalRoundTrip | assert/assert.go:346 | reading the printed digits back gives the number |
| DiffReport.PadLeft | assert/assert.go:346 | `%3d` pads with spaces on the left up to three characters and never truncates |
| LinesDiff.SliceToStrings | assert/assert.go:296-302 | the result has one entry per element, entry `i` being the rendering of element `i` |
| LinesDiff.StringSliceEqual | assert/assert.go:304-316 | true exactly when the two slices are equal: same length and equal at every position |
| LinesDiff.DiffWalk | assert/assert.go:343-359 | the loop logs exactly the lines of `WalkFrom` from positions (0, 0), the case-by-case definition of the walk |
| LinesDiff.WalkMeetsSpec | assert/assert.go:343-359 | given a valid matching, the walk shows each unmatched expected line once as `---`, each unmatched actual line once as `+++`, and each matched pair with differing lines as a `---` immediately followed by its `+++`; it shows nothing for a matched pair of equal lines; each side's lines appear in position order |
| LinesDiff.WalkShowsSpec | assert/assert.go:343-359 | from any point where the walk's invariant holds, the lines shown so far followed by the rest of the walk meet the walk's specification |
| LinesDiff.StepRemoved | assert/assert.go:345-347 | the first case only ever takes an unmatched expected line, and showing it keeps the walk's invariant |
| LinesDiff.StepAdded | assert/assert.go:348-350 | the second case only ever takes an unmatched actual line, and showing it keeps the walk's invariant |
| LinesDiff.StepPaired | assert/assert.go:351-357 | in the default case the current lines are partners of each other; showing both when they differ, or nothing when they are equal, keeps the walk's invariant |
| LinesDiff.PairChanged | assert/assert.go:352-355 | a differing matched pair is shown as its `---` line then its `+++` line, ranked right after the gap before it |
| LinesDiff.PairSame | assert/assert.go:351-357 | an equal matched pair is passed without showing anything |
| LinesDiff.PartnersMeet | assert/assert.go:343-357 | with a valid matching, when neither current line is unmatched, they are matched to each other |
| LinesDiff.WalkRanksSorted | assert/assert.go:343-359 | in the walk's output, unmatched expected lines come before unmatched actual lines within each gap between matched pairs, and gaps come in order |
| LinesDiff.DifferenceShown | assert/assert.go:343-359 | given a valid matching, a walk that shows no line means the two sides are equal, so a reported difference always shows at least one line |
| LinesDiff.SameWhenNothingShown | assert/assert.go:343-359 | when neither side has a line to show, every line is matched to an identical one and the sequences are equal |
| LinesDiff.IdentityMatching | assert/assert.go:333 | a valid matching that leaves no line unmatched has equal-length sides and pairs each position with itself |
| LinesDiff.LinesEqual | assert/assert.go:318-362 | returns true exactly when the renderings agree position by position, and then reports nothing; otherwise the report's title comes from the two lengths and its lines are the walk; with a valid matching those lines meet the walk's specification and are never empty |
| LinesDiff.LineText | assert/assert.go:346-354 | a walk line is four spaces, the marker and a space, the 1-based position padded to three places, `: `, then the quoted rendering |

## Left out

- `match` (called at assert/assert.go:333) is not part of this model. Its result arrives as the inputs `expMat` and `actMat`, and the properties of the walk assume `ValidMatching`:
  - a negative entry means unmatched;
  - matched entries point at each other;
  - matched pairs do not cross.

  `DiffWalk` and `LinesEqual` themselves need only the two lengths, as the loop does. The cost value `match` returns is unused by the loop and is not modelled.
- `fmt` and `reflect` are parameters or Dafny built-ins:
  - `%+v` is `render` / `show`;
  - `%q` is `quote`;
  - `reflect.DeepEqual` is Dafny equality on values;
  - `MapIndex(...).IsValid()` is map membership.

  Because `render` is a function, equal keys render equally; distinct keys may collide.
- `reflect.Value.MapKeys` returns keys in an unspecified order. `KeySort.MapKeys` picks them with a nondeterministic choice.
- `sort.Sort`'s own algorithm is not modelled. `KeySort.SortByRendering` is a selection sort that uses only `LessF` and `SwapF`, and is proved to meet what `sort.Sort` promises: sorted and a permutation. Nothing is assumed about the order within a run of equal renderings.
- `KeySort.SortByRendering` states its permutation property for the keys array only. The renderings follow from `Paired`.
- Go compares strings by UTF-8 bytes, and the model compares characters. For valid UTF-8 the two orders agree.
- Keys are assumed equal to themselves, as Dafny map keys are. A Go map key that is a floating-point NaN is not. `MapIndex` cannot find it, so the source would classify it as both missing and extra, and its missing line would panic in `mapValueToStr`. The model does not cover such keys.
- Equal keys are assumed to render equally, because `render` is a function of the key. Under Go's `==` a floating-point -0 and +0 are the same key but print as "-0" and "+0", and so are struct or array keys holding them. Such a key sorts by the rendering, not by equality. With exp = {-0: 1, 5: 1} and act = {+0: 1, 5: 2}, the source reports -0 as missing and +0 as extra, although `act` holds that key with an equal value. The model cannot express such a pair of keys. `ClassificationExact` holds only for keys whose equal copies render alike.
- Value equality in the model is Dafny's `==`, which is reflexive. `reflect.DeepEqual` is not: a NaN value, or a value holding a non-nil func, is unequal to itself. The source reports a key with such a value as changed even when both maps hold the very same value. The model never does.
- `reflect.DeepEqual` tells a nil map from an empty one, so `Equal` reaches `mapDiff` with two maps of no entries. The source then logs the title "both 0 entries" and the header with no lines. `MapReportEmptyIffEqual` speaks of Dafny map equality, under which the two are equal, so it covers that case as "no lines".
- The call-site prefix built by `assertPos` and `IncludeFilePosition` (assert/assert.go:22-57) is a `prefix` parameter of `TitleText`, because it comes from `runtime.Caller`.
- The sink (`testing.TB`) is a returned sequence of log entries (`RenderReport`), not calls.
- The assertion wrappers and the `StringEqual` / `sameTypeDiff` dispatch are not modelled; they are glue over `reflect` and `testing.TB`. testing.go (`WriterTB`) is I/O plumbing and is not modelled either.
- `SeqLine.index` is the 0-based position. `LineText` prints it plus one, as the source does.
- In `DiffWalk`, each case computes the lines it logs, and they are appended once after the `switch`. The source logs inside each case; the order of the lines is the same.
- `MapDiff.MapDiff` returns its three key lists as ghost outputs, so that its contract can speak of them. The source keeps them local.
