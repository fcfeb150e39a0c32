# A verified model of the errorer String generator

errorer is a fork of Go's `stringer` tool. Given a named integer type, it
collects the type's declared constants and writes a `String()` method for the
type. That method returns the name of the constant with the receiver's value,
or `T(%d)` when no constant has that value.

This project models the core of `stringer.go`:

- `Generate`, which turns the constants into runs.
- `splitIntoRuns`, which does three things in order:
  - sorts the constants stably with `byValue.Less`;
  - removes duplicates in place, keeping the first-declared name;
  - splits what remains into maximal runs of consecutive values.
- The table builders `usize`, `createIndexAndNameDecl`,
  `declareIndexAndNameVars`, `declareNameVars` and `buildMap`.
- The three shapes of generated code:
  - a single run (`stringOneRun` and `stringOneRunWithOffset`);
  - a switch over at most ten runs (`buildMultipleRuns`);
  - a map (`stringMap`).

The model gives the generated code a meaning. `Lookup.StringOf` is what
the emitted `String()` method returns, or that it panics. Go's fixed-width
integer behaviour is written out: `i -= first` and the `i+1` of the slice
`_T_index[i+1]` wrap in the enum's type, and the run test `value + 1` wraps
on `uint64`. Go strings are byte sequences: a constant's name is the UTF-8
encoding of its identifier (`Values.Bytes`), so the offsets and lengths that
`bytes.Buffer.Len` and `len` produce count bytes, as in Go.

Modules, one per file:

- `Values` (`values.dfy`): a constant as a name in bytes, a 64-bit pattern
  and a signedness flag, `byValue.Less`, the integer types and their
  wrap-around, the first-declared name of a number, and what `String()`
  returns.
- `Normalizer` (`normalizer.dfy`): `splitIntoRuns`.
  - The stable sort is an in-place insertion sort on an `array`, proved
    equal to a functional stable sort.
  - The duplicate removal is the source's in-place loop with index `j`.
  - The run split is the source's peeling loop.
- `Tables` (`tables.dfy`): `usize`, the concatenated-name constants and
  index slices, and the flat name table with the entries of the map.
- `Lookup` (`lookup.dfy`): the semantics of the three kinds of generated
  `String()` method, and the lemmas that each returns the first-declared name.
- `Generator` (`generator.dfy`): `Generate`, the builders, and the theorems
  that tie them together.

The central result is `Generator.Generate`. For every non-empty list of
constants of an integer type, it guarantees the following:

- the runs are a split of the sorted, deduplicated constants;
- the shape of the code follows the number of runs;
- the generated `String()` returns the name of the first-declared constant
  with value `x`, or the number `x` for an undeclared value, for every value
  `x` of the type.

The last guarantee holds for the map in all cases. For the single-run and
switch shapes it holds under a side condition `Safe`, which in turn holds
whenever the type's largest value is at least the number of constants.

## Model

| member | source | states |
|---|---|---|
| Values.Less | stringer.go:249-254 | `byValue.Less`: the signedness of the left operand decides whether both patterns are compared as int64 or as uint64 |
| Values.Succ | stringer.go:202 | the run test `values[i].value == values[i-1].value+1`, with `+1` wrapping on uint64 |
| Values.LessIsKeyOrder | stringer.go:249-254 | for two constants of one type, `Less` is the order of the numbers the bit patterns denote (int64 or uint64 reading), and equal patterns are exactly equal numbers |
| Values.SuccIsNextKey | stringer.go:202 | on strictly increasing constants of one type, the raw test `b.value == a.value+1` (wrapping on uint64) holds exactly when b's number is a's number plus one, for signed and unsigned types alike |
| Values.Wrap | stringer.go:463-466 | the two's-complement wrap-around of the enum type: the result is a value of the type, congruent to the exact result modulo 2^bits, and equal to it when it already fits |
| Values.WrapOffset | stringer.go:463-466 | after the wrapped `i -= first`, the bounds test fails exactly for the values of the run; `i` is then the slot of `x`; and the wrapped `i + first` of the fallback gives `x` back |
| Normalizer.Insert | stringer.go:184 | one pass of a stable insertion sort: x goes after every element of t that is not greater than it under `Less` |
| Normalizer.StableSorted | stringer.go:183-184 | the stable sort of the constants, as repeated insertion of each constant in declaration order |
| Normalizer.InsertAt | stringer.go:184 | one insertion step places the new constant after every constant that is not greater than it, and before the greater ones that follow |
| Normalizer.InsertSorted | stringer.go:184 | inserting into a sorted sequence keeps it sorted |
| Normalizer.InsertWithKey | stringer.go:183-184 | insertion keeps the constants that denote one number in their original order, with the inserted one last |
| Normalizer.StableSortedIsStableSort | stringer.go:183-184 | the stable sort is sorted, a permutation of its input, and stable: for each number, its constants keep declaration order |
| Normalizer.SiftDown | stringer.go:184 | one pass of the in-place insertion sort turns the array prefix into the insertion of the next element, and leaves the rest of the array unchanged |
| Normalizer.StableSort | stringer.go:184 | the array ends up holding the stable sort of its old contents |
| Normalizer.Deduped | stringer.go:185-197 | duplicate removal: a constant is kept when its bit pattern differs from its predecessor's; the result is never longer, and it keeps the last value |
| Normalizer.DedupedMembers | stringer.go:190-197 | duplicate removal keeps only constants from its input |
| Normalizer.DedupedStrictlySorted | stringer.go:185-197 | on a sorted input, the deduplicated sequence is strictly increasing: no number appears twice |
| Normalizer.DedupedKeepsFirst | stringer.go:185-189 | on a sorted input, the constants that denote one number reduce to the first of them, and no number is dropped |
| Normalizer.Dedup | stringer.go:190-197 | the in-place loop leaves the deduplicated sequence in `values[:j]`, with `1 <= j <= len(values)` |
| Normalizer.SplitRuns | stringer.go:198-208 | the peeling loop yields runs that concatenate back to its input, each a non-empty chain of successors, none continuing the one before it |
| Normalizer.RunSplitUnique | stringer.go:179-181 | two run splits of one sequence are equal, so the runs splitIntoRuns returns are determined by the values |
| Normalizer.GoldenRuns | stringer_test.go:187-215 | the values 100, 101, 103, 104, 105 split into exactly the runs 100-101 and 103-105 |
| Normalizer.SplitIntoRuns | stringer.go:182-209 | the runs concatenate to the stable sort of the input with duplicates removed, and form a run split |
| Normalizer.RunsAreMaximalBlocks | stringer.go:179-181 | on a strictly increasing input, every run is a block of consecutive numbers, and a gap of at least one number separates consecutive runs |
| Normalizer.NormalizedIncreasing | stringer.go:242-254 | after splitIntoRuns' sort and dedup, the constants are strictly increasing under `byValue.Less` itself |
| Normalizer.NormalizedKeepsFirstDeclared | stringer.go:183-189 | after sort and dedup the constants are strictly increasing, all of the declared type, and each number's surviving constant is its first-declared one |
| Tables.Usize | stringer.go:354-364 | the result is 8, 16 or 32; it is the smallest of these whose unsigned type holds `n`, for `0 <= n < 2^32`; from 2^16 on it is always 32 |
| Tables.UsizeBoundaries | stringer.go:354-364 | usize is 8 up to 255, 16 from 256 to 65535, and 32 from 65536 |
| Tables.ConcatNames | stringer.go:396-400 | the buffer after writing the names of a run in order: their bytes concatenated |
| Tables.NameSlice | stringer.go:398-400 | the name of the m-th constant sits in the concatenated names between the buffer lengths before and after it |
| Tables.CreateIndexAndNameDecl | stringer.go:395-413 | the name constant is the concatenation of the run's names. The index starts at 0, ends at the length of the names, and has one more entry than the run. Each consecutive pair of offsets slices out the name in that position. Its element width is `usize` of the names' length |
| Tables.IndexFitsWidth | stringer.go:351-353 | every offset of the index is a value of the chosen `uintW` element type, for names shorter than 2^32 bytes |
| Tables.DeclareIndexAndNameVars | stringer.go:368-385 | one table per run, in run order, each the table of its run |
| Tables.DeclareNameVars | stringer.go:417-425 | the name constant is every run's names concatenated, in run order |
| Tables.BuildMapTable | stringer.go:500-510 | buildMap: the names of declareNameVars, and one map entry per constant, in order, keyed by its number; the running byte offset `n` makes each entry's `[n:n+len(name)]` slice out exactly that constant's name |
| Tables.GoldenIndex | stringer_test.go:8-22 | the basic fixture's five names, of 8, 13, 7, 14 and 16 bytes, give the index `{0, 8, 21, 28, 42, 58}` with `uint8` elements |
| Lookup.SliceAt | stringer.go:452 | Go's slice expression `s[lo:hi]`: the bytes between lo and hi, or a panic unless `0 <= lo <= hi <= len(s)` |
| Lookup.SliceName | stringer.go:489 | `_T_name[_T_index[i]:_T_index[i+1]]` with `i+1` computed in the enum's type, so that it wraps, and every index and slice bounds-checked |
| Lookup.SliceNameOfTable | stringer.go:452 | looking up slot i of a run's table returns the name of the run's i-th constant without panicking, when `i+1` does not wrap (i below the type's largest value) |
| Lookup.StringOneRun | stringer.go:448-470 | the two single-run templates: without an offset, the test `[i < 0 ||] i >= T(len(_T_index)-1)`; with one, the wrapped `i -= first` first and the fallback printing the wrapped `i + first` |
| Lookup.StringMultipleRuns | stringer.go:474-496 | the switch: the first case that matches decides; an equality case returns its name, a range case subtracts lo (wrapping) when it has an offset and slices; without a match, the default prints the fallback |
| Lookup.StringMap | stringer.go:516-521 | the map lookup: the entry with key x gives its slice of the names, otherwise the fallback |
| Lookup.StringOf | stringer.go:166-176 | what the generated `String()` returns for x, in the shape Generate picked |
| Lookup.Safe | stringer.go:485-489 | the side condition of the generated code: a single run's count is a value of the type, and every switch range spans less than the type's largest value |
| Lookup.OneRunBoundsTest | stringer.go:448-470 | the generated single-run `String()`, with or without the offset, looks up slot `x - first` exactly for the run's values and prints the fallback with `x` for every other value |
| Lookup.OneRunAgrees | stringer.go:428-470 | the single-run method returns the name of the first-declared constant with value x, or the number x |
| Lookup.CaseAgrees | stringer.go:479-491 | for a run shorter than the type's largest value plus one, its switch case decides exactly the values of the run, with that constant's name; any other value falls through to the following cases |
| Lookup.MultipleRunsAgree | stringer.go:474-496 | the switch over all runs returns the first-declared name for x, or the default's fallback |
| Lookup.MapAgrees | stringer.go:500-521 | the map lookup returns the first-declared name for x, or the fallback |
| Lookup.WideSignedCasePanics | stringer.go:485-489 | in int8, the case for a run -100..100 computes `i -= -100` for i = 100, which wraps to -56, so the slice panics; this is a switch case that `Safe` excludes |
| Lookup.MaxSpanCasePanics | stringer.go:485-489 | in int8, the case for a run -128..-1 maps -1 to slot 127, whose `i+1` wraps to -128, so the index panics; a range spanning exactly the largest value is not `Safe` |
| Generator.SelectStrategy | stringer.go:166-176 | one run gives the single-run form; two to ten runs give the switch; more than ten give the map |
| Generator.SelectStrategyBoundaries | stringer.go:166-176 | the crossovers sit at 1, 2, 10 and 11 runs |
| Generator.BuildOneRun | stringer.go:428-442 | the code uses the run's table; it subtracts the first value exactly when its bit pattern is not 0, and tests `i < 0` exactly for signed types |
| Generator.BuildMultipleRuns | stringer.go:474-496 | one case per run, in run order. A run of one constant becomes an equality test returning its name. A longer run becomes a range test over its first and last value, with `i -= lo` exactly when lo's pattern is not 0 |
| Generator.RunsOfDecls | stringer.go:182-209 | each run of a type's constants is a non-empty consecutive block of values of the type, and the runs together name every number as the declarations do |
| Generator.SingleAgrees | stringer.go:166-168 | with one run, the generated code agrees with the first-declared name on every value of the type, when it is `Safe` |
| Generator.SwitchAgrees | stringer.go:172-173 | with two to ten runs, the switch agrees with the first-declared name on every value of the type, when it is `Safe` |
| Generator.MapAgreesWithDecls | stringer.go:174-175 | with more than ten runs, the map agrees with the first-declared name on every value |
| Generator.SafeWhenFewConstants | stringer.go:182-209 | when the type's largest value is at least the number of constants, the generated code is `Safe` |
| Generator.Generate | stringer.go:136-177 | fails with "no values" exactly when there are no constants. Otherwise the runs split the sorted, deduplicated constants. The shape follows the number of runs. `String()` returns the first-declared name or the number for every value of the type when the code is `Safe`, which holds whenever the type's largest value is at least the number of constants |

## Left out

- Parsing and type checking (`ParsePackageDir`, `ParsePackageFiles`, `parsePackage`, `check`, `genDecl`, `genComm`) are not modelled. The constants arrive as a parameter. `Generator.DeclsOf` states what the type checker guarantees about them: one signedness, and every number a value of the type.
- The emitted Go text (`Printf`, `Format`, the `%q` and `%d` formatting, gofmt) is not modelled; the model keeps only what that text means. The fallback's characters are not modelled either: `Values.Text.Number(x)` records the number that `fmt.Sprintf("T(%d)", i)` prints.
- The UTF-8 encoding of identifiers is not modelled: each constant's name arrives as its bytes.
- `errorer.go` and `jsoner.go` are not part of this model. Neither are `buildErrorMethod`, `buildErrStrToValueMap` and `buildJsonMethods`, which `Generate` also calls in the single-run branch.
- The `msg` and `str` fields of `Value` are not modelled. `str` is only the decimal text of the number, which `Values.Key` stands for.
- `sort.Stable`'s own algorithm is replaced by an insertion sort on the array. The result is the same, because a stable sort's output is unique.
- `log.Fatalf` on an empty list becomes the `Failure(NoValues(typeName))` result.
- Generate: agreement for the single-run and switch shapes is stated only under `Lookup.Safe`.
  - For the single-run shape, `Safe` means the constant count fits in the type. Otherwise the generated `T(len(_T_index)-1)` is a constant overflow and does not compile. Compilation errors are not modelled.
  - For the switch shape, `Safe` means every range spans less than the type's largest value. Otherwise `i -= lo` or the `i+1` of the slice wraps and the lookup panics, as `Lookup.WideSignedCasePanics` and `Lookup.MaxSpanCasePanics` show.
  - Both conditions hold whenever the type's largest value is at least the number of constants (`Generator.SafeWhenFewConstants`).
- The Go map is modelled as a scan of the entries in declaration order. The keys are distinct after duplicate removal, so the first match is the only one. The slices in the map literal are of a constant string with constant bounds, so Go would reject an out-of-range one at compile time; the model reports a panic at lookup instead, and `Tables.BuildMapTable` proves neither can happen.
- Tables.Usize: for names of 2^32 bytes or more, the `uint32` index would overflow; only shorter names are claimed to fit.
- Normalizer.Dedup: the contents of the array past index `j` are left unspecified. The source reslices to `values[:j]` and never reads them.
- Aliasing between the runs and the sorted array (Go's runs are subslices of `values`) is not modelled: the runs are sequence values.
