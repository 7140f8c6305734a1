# Experimental-data lookups and mixture-form parsing, in Dafny

This project models the data logic of a desktop application that predicts
PC-SAFT parameters and plots mixture properties against experimental data:

- **Experimental-data engine** (`app/utils_data.py`). Each dataset is a sequence of
  rows. The engine does the following:
  - resolves component identifiers;
  - matches a binary pair in either storage order;
  - re-expresses the composition as `x_c1`, the fraction of the caller's first
    component;
  - filters by exact pressure and by a strict ±0.001 composition window;
  - converts mass density to molar density;
  - sorts by temperature;
  - summarises the available data as sorted groups with their temperature range.
- **Mixture form** (`app/mixture_screen.py`):
  - the whitespace tokenizing of the text fields;
  - the count checks of `_get_inputs`;
  - `_set_kij_values`, which fills the n×n binary-interaction matrix in place;
  - `_fill_inputs_binary`, which rewrites text fields from a summary row;
  - the experimental overlays of the density and bubble-pressure plots.

Modules, one per file:

| module | what it holds |
|---|---|
| `Wrappers` | `Option`, `Result` |
| `Sequences` | order-preserving `Filter` and `Map` |
| `Series` | (T, value) points and the sort by `T_K` |
| `Aggregation` | `group_by(...).agg(min, max).sort(...)` over lexicographic keys; `round(2)` |
| `ExperimentalData` | the six retrieval functions of `app/utils_data.py` and their invariance lemmas |
| `FormText` | `str.split(" ")`, `str.strip()`, the token comprehension, `float()` over tokens |
| `KijMatrix` | `_set_kij_values`, as a method over `array2<real>` |
| `MixtureScreen` | `_get_inputs`, `_fill_inputs_binary` (a class holding the form's text fields), and the plot overlays |

The model makes these choices:

- Numbers are `real`.
- A division the source performs by a zero molecular weight gives `NotFinite`, which stands for the float infinity or NaN.
- Calls the model cannot see are parameters:
  - identifier conversion (`smilestoinchi`, `get_smiles_from_input`), with failure as `None`;
  - `float()`;
  - `str()` and the `:.2f` format.
- A raised `ValueError` becomes the `Err` case of a `Result`.

## Model

| member | source | states |
|---|---|---|
| ExperimentalData.MatchPair | app/utils_data.py:95-99 | every kept row stores the pair in one slot order or the other and comes from the dataset; every such row of the dataset is kept |
| ExperimentalData.MatchPairOrderInvariant | app/utils_data.py:95-99 | naming the two components in the other order selects exactly the same rows |
| ExperimentalData.FilterNorm | app/utils_data.py:100-105 | the k-th normalised row is the k-th matched row, so every matched row appears once, in dataset order; `x_c1` is `mole_fraction_c1` when `inchi1` is the caller's first component, else `mole_fraction_c2` |
| ExperimentalData.RemapFollowsCallerOrder | app/utils_data.py:100-105 | `x_c1` is the stored fraction of the caller's first component whichever slot holds it; swapping the storage slots changes neither the match nor `x_c1` |
| ExperimentalData.RemapQuerySwap | app/utils_data.py:146-151 | with stored fractions summing to one, querying the pair the other way gives `1 - x_c1` |
| ExperimentalData.RemapExample | app/utils_data.py:173-182 | a row stored as (B, A, 0.6, 0.4) queried as (A, B) yields one row with `x_c1` = 0.4 |
| ExperimentalData.WindowBoundary | app/utils_data.py:106-110 | both window edges `x1 ± 0.001` are excluded; an offset is inside exactly when it is strictly below 0.001 in size |
| ExperimentalData.WindowComplement | app/utils_data.py:152 | `x` is in the window around `x1` exactly when `1 - x` is in the window around `1 - x1` |
| ExperimentalData.FilterNormCons | app/utils_data.py:173-182 | `_filter_norm` processes the dataset one row at a time, in order |
| ExperimentalData.Divide | app/utils_data.py:23 | the quotient is finite exactly when the divisor is non-zero, and then multiplies back to the dividend |
| ExperimentalData.MolarDensitySlotInvariant | app/utils_data.py:116-125 | with fractions summing to one, the weighted molecular weight `WeightedMolWeight` and the molar density `BinaryMolarDensity` both do not depend on the slot order of the row |
| ExperimentalData.MolarDensityExample | app/utils_data.py:119-124 | fractions (0.3, 0.7) with weights (18, 46) give `rho*1000/(0.3*18 + 0.7*46)` in either storage order |
| ExperimentalData.PureRows | app/utils_data.py:56 | the rows kept are exactly the dataset's rows whose `inchi1` is the component |
| ExperimentalData.RetrieveRhoPure | app/utils_data.py:12-26 | an unresolvable identifier is an error; otherwise every row measured at exactly the pressure yields (T, rho*1000/molweight1), that quotient being `PureMolarDensity`, and every point comes from such a row |
| ExperimentalData.RetrieveVpPure | app/utils_data.py:29-42 | an unresolvable identifier is an error; otherwise every row with `temp_min <= T_K <= temp_max` (both inclusive) yields (T, VP), and every point comes from such a row |
| ExperimentalData.PureTemperaturesExact | app/utils_data.py:71-73 | the temperature column lists exactly the temperatures of the component's vapour-pressure rows |
| ExperimentalData.PureVpRange | app/utils_data.py:71-76 | `None` exactly when the component has no vapour-pressure row; otherwise both ends are measured temperatures and every row lies between them |
| ExperimentalData.RetrieveAvailablePure | app/utils_data.py:45-78 | an unresolvable identifier gives (None, None); density groups exist exactly when the component has density rows and summarise them per exact pressure; the vapour-pressure range is `PureVpRange` |
| ExperimentalData.ResolvePair | app/utils_data.py:87 | both identifiers are resolved, first then second; the error names the first one that fails |
| ExperimentalData.DensityRowsSelect | app/utils_data.py:95-111 | the pipeline `DensityRows` (match, remap, then pressure and window filter) keeps exactly the rows that match the pair, have the exact pressure and have `x_c1` strictly inside the window, in dataset order |
| ExperimentalData.RetrieveRhoBinary | app/utils_data.py:81-128 | any count other than two gives None before any resolution; a resolution error is passed on; None exactly when no row is selected; otherwise the points are sorted by T and are a permutation of the selected rows' (T, molar density), each built by `DensityPoint` |
| ExperimentalData.BubbleRowsSelect | app/utils_data.py:141-153 | the bubble pipeline `BubbleRows` keeps exactly the matched rows whose `x_c1` is strictly inside the window, in dataset order |
| ExperimentalData.RetrieveBubble | app/utils_data.py:131-159 | as for density, with no pressure filter and (T, bubble_point_kPa) points built by `BubblePoint` |
| ExperimentalData.RetrieveAvailableBinary | app/utils_data.py:162-216 | any count other than two gives (None, None); a resolution error is passed on; each summary exists exactly when the pair has rows in that dataset, and it aggregates the remapped rows by (`P_kPa`, `x_c1`) or by `round(x_c1, 2)`, the keys that `DensitySample` and `BubbleSample` give each row |
| ExperimentalData.DensitySummaryCoversRows | app/utils_data.py:186-195 | every matched density row lies inside the temperature range of the group of its (`P_kPa`, `x_c1`) |
| ExperimentalData.DensitySummaryFromRows | app/utils_data.py:186-195 | every density group's `T_min` and `T_max` are each the temperature of a matched row with that key |
| ExperimentalData.BubbleSummaryCoversRows | app/utils_data.py:199-212 | every matched bubble-point row lies inside the temperature range of the isopleth its `x_c1` rounds to |
| ExperimentalData.BubbleSummaryFromRows | app/utils_data.py:199-212 | every isopleth's `T_min` and `T_max` are each the temperature of a matched row whose `x_c1` rounds to its key |
| ExperimentalData.FilterNormStorageInvariant | app/utils_data.py:173-182 | re-storing rows with their slots swapped leaves the remapped samples unchanged |
| ExperimentalData.AvailabilityStorageInvariant | app/utils_data.py:162-216 | the binary availability summary does not depend on the slot order the rows were stored in |
| ExperimentalData.DensityPointsStorageInvariant | app/utils_data.py:116-125 | with fractions summing to one, the selected density points do not depend on the storage slot order |
| ExperimentalData.RhoBinaryStorageInvariant | app/utils_data.py:81-128 | binary density retrieval does not depend on the storage slot order of the rows |
| ExperimentalData.BubblePointsStorageInvariant | app/utils_data.py:141-159 | the selected bubble points do not depend on the storage slot order |
| ExperimentalData.BubbleStorageInvariant | app/utils_data.py:131-159 | bubble retrieval does not depend on the storage slot order of the rows |
| ExperimentalData.SelectedForDensityQuerySwap | app/utils_data.py:95-110 | a row is selected for (i1, i2, x1) exactly when it is selected for (i2, i1, 1 - x1) |
| ExperimentalData.DensitySelectorQuerySwap | app/utils_data.py:95-110 | the rows selected for (i1, i2, x1) and for (i2, i1, 1 - x1) are the same sequence |
| ExperimentalData.DensityRowsQuerySwap | app/utils_data.py:95-111 | the density pipeline gives the same rows for the reversed query with the complementary composition |
| ExperimentalData.RhoBinaryQuerySwap | app/utils_data.py:81-128 | reversing the component list and complementing the composition gives the same density series |
| ExperimentalData.SelectedForBubbleQuerySwap | app/utils_data.py:141-152 | the bubble selection of a row is unchanged by reversing the pair and complementing the composition |
| ExperimentalData.BubbleSelectorQuerySwap | app/utils_data.py:141-152 | the same for the selected sequence |
| ExperimentalData.BubbleRowsQuerySwap | app/utils_data.py:141-153 | the same for the bubble pipeline |
| ExperimentalData.BubbleQuerySwap | app/utils_data.py:131-159 | reversing the component list and complementing the composition gives the same bubble series |
| ExperimentalData.RhoBinaryScenario | app/utils_data.py:81-128 | a (B, A, 0.6, 0.4) row at 100 kPa is found for (A, B) at x1 = 0.4 and not at x1 = 0.6 |
| Sequences.Filter | app/utils_data.py:18-20 | the kept elements satisfy the predicate and come from the input; every satisfying element is kept; nothing is duplicated |
| Sequences.FilterMultiplicity | app/utils_data.py:18-20 | every copy of a satisfying element is kept, and every copy of the others is dropped |
| Sequences.FilterPositions | app/utils_data.py:18-20 | the kept elements sit at strictly increasing positions of the input and every satisfying position is among them, so the filter keeps dataset order |
| Sequences.Map | app/utils_data.py:21-24 | same length, and each element is the function applied to the element at the same index |
| Sequences.FilterCongruent | app/utils_data.py:106-110 | two predicates agreeing on every row select the same rows |
| Sequences.FilterCons | app/utils_data.py:18-20 | filtering proceeds one row at a time, in order |
| Sequences.MapCons | app/utils_data.py:21-24 | mapping proceeds one row at a time, in order |
| Sequences.MapAppend | app/utils_data.py:21-24 | mapping distributes over concatenation |
| Series.SortedTail | app/utils_data.py:126 | the tail of a series sorted by `T_K` is sorted, and its first two points are in order |
| Series.InsertByT | app/utils_data.py:126 | inserting into a sorted series keeps it sorted and adds exactly that point |
| Series.SortByT | app/utils_data.py:126 | `sort("T_K")`: the result is sorted by temperature and a permutation of the input |
| Series.SortedCons | app/utils_data.py:159 | a point no later than the head keeps a sorted series sorted |
| Series.InsertBehindHead | app/utils_data.py:159 | the recursive step of the sort keeps sortedness and adds exactly the inserted point |
| Aggregation.LexIrreflexive | app/utils_data.py:193 | no key sorts strictly before itself |
| Aggregation.LexTransitive | app/utils_data.py:193 | the multi-column key order is transitive |
| Aggregation.LexTotal | app/utils_data.py:193 | two distinct keys are ordered one way or the other |
| Aggregation.TemperaturesAt | app/utils_data.py:188-192 | the temperatures of a key are exactly those of the samples with that key |
| Aggregation.Widen | app/utils_data.py:189-191 | the widened range covers the new temperature and the old range, and each bound is an old bound or the new temperature |
| Aggregation.AddSample | app/utils_data.py:188-193 | folding a sample in keeps the keys strictly ascending; every group of another key is kept, and no group of another key appears that was not there before |
| Aggregation.AddSampleContents | app/utils_data.py:188-193 | the group of the sample's key is widened, or a new single-sample group is inserted when there was none; no other group changes |
| Aggregation.WidenHeadContents | app/utils_data.py:189-191 | the case where the first group already has the sample's key |
| Aggregation.InsertFrontContents | app/utils_data.py:193 | the case where the sample's key is new and sorts first |
| Aggregation.BehindHeadContents | app/utils_data.py:193 | the case where the first group sorts before the sample's key and is kept in front |
| Aggregation.KeptGroup | app/utils_data.py:188-192 | a group of another key still aggregates its samples exactly after one more sample |
| Aggregation.WidenedGroup | app/utils_data.py:189-191 | the widened group of the sample's key aggregates its samples exactly |
| Aggregation.TemperaturesAtAbsent | app/utils_data.py:188 | a key that no sample has has no temperatures |
| Aggregation.NewGroup | app/utils_data.py:189-191 | a new key yields the single-sample group (t, t) |
| Aggregation.AddSampleGroups | app/utils_data.py:188-192 | after the fold every group is the exact min and max of its key's samples |
| Aggregation.AddSampleCovers | app/utils_data.py:188 | after the fold every sample's key has a group |
| Aggregation.Summarize | app/utils_data.py:186-195 | one group per distinct key, keys strictly ascending, each group's bounds the minimum and maximum temperature of its key, and every sample's key present; empty exactly when there are no samples |
| Aggregation.SummaryBoundsOrdered | app/utils_data.py:190-191 | `T_min <= T_max` in every group |
| Aggregation.SummaryCovers | app/utils_data.py:188-192 | every sample lies within the range of its key's group |
| Aggregation.RangeOf | app/utils_data.py:73-74 | both bounds are elements of the list and every element lies between them |
| Aggregation.Round2 | app/utils_data.py:204 | `round(x, 2)` lies within 0.005 of `x` |
| Aggregation.SameIsoplethClose | app/utils_data.py:204-205 | two compositions in one rounded isopleth differ by at most 0.01 |
| Aggregation.IsoplethExample | app/utils_data.py:204-205 | 0.201 and 0.204 share the isopleth 0.20; 0.215 falls in the isopleth 0.22 |
| FormText.SplitSpaces | app/mixture_screen.py:119 | `split(" ")` yields at least one piece, no piece contains a space, and joining the pieces with single spaces (`JoinSpaces`) gives the text back |
| FormText.FirstSpace | app/mixture_screen.py:119 | the position of the first space, or the length when there is none |
| FormText.FirstSpaceAfterWord | app/mixture_screen.py:119 | a space-free word followed by a space has its first space right after the word |
| FormText.SpaceSeparatedPrefix | app/mixture_screen.py:119 | a space-free word followed by a space determines the word and the rest |
| FormText.SpaceFreeNotSplit | app/mixture_screen.py:119 | a space-free word never contains a separated word |
| FormText.JoinInjective | app/mixture_screen.py:119 | joining non-empty lists of space-free pieces is injective |
| FormText.SplitJoin | app/mixture_screen.py:119 | splitting the join of space-free pieces gives the pieces back |
| FormText.JoinAppend | app/mixture_screen.py:119 | joining a concatenation puts one space between the two joins |
| FormText.SpaceFreeAppend | app/mixture_screen.py:119 | concatenating space-free piece lists keeps them space-free |
| FormText.SplitAppend | app/mixture_screen.py:119 | splitting `a + " " + b` gives the pieces of `a` followed by those of `b` |
| FormText.StripStart | app/mixture_screen.py:121 | a suffix of the text; everything removed is whitespace as `IsSpace` defines it (the characters for which Python's `str.isspace` holds); the result does not start with whitespace |
| FormText.StripEnd | app/mixture_screen.py:121 | a prefix of the text; everything removed is whitespace; the result does not end with whitespace |
| FormText.LeadingSpaces | app/mixture_screen.py:121 | the first n characters are whitespace and the next one, if any, is not; what follows them is `lstrip()`'s result |
| FormText.Strip | app/mixture_screen.py:143 | the result neither starts nor ends with whitespace |
| FormText.PrefixOfSuffix | app/mixture_screen.py:143 | a prefix of a suffix is a slice, and the tail beyond it lies at the matching positions |
| FormText.StripSlice | app/mixture_screen.py:143 | `strip()` gives a slice of the text with only whitespace before and after it |
| FormText.StripStripped | app/mixture_screen.py:121 | a stripped text is its own strip |
| FormText.StripSpaceFree | app/mixture_screen.py:121 | stripping a space-free piece leaves it space-free |
| FormText.DropEmptyAppend | app/mixture_screen.py:121 | dropping empty strings distributes over concatenation |
| FormText.DropEmptyKeeps | app/mixture_screen.py:121 | `DropEmpty` (the `if s.strip()` guard): only non-empty strings survive, each satisfying what every non-empty input did |
| FormText.DropEmptyNone | app/mixture_screen.py:121 | a list without empty strings passes through unchanged |
| FormText.TokensAreTokens | app/mixture_screen.py:120-122 | `Tokens`, the comprehension over the split pieces: every token is non-empty, stripped and space-free |
| FormText.StripTokens | app/mixture_screen.py:121 | stripping every token changes nothing |
| FormText.TokensEmpty | app/mixture_screen.py:120-122 | an empty field has no tokens |
| FormText.TokensOfJoin | app/mixture_screen.py:120-122 | tokens joined with single spaces read back as the same tokens |
| FormText.TokensAppend | app/mixture_screen.py:120-122 | the tokens of `a + " " + b` are those of `a` followed by those of `b` |
| FormText.TokensOfOne | app/mixture_screen.py:120-122 | a single token reads as itself |
| FormText.TokensLeadingSpace | app/mixture_screen.py:124-126 | a leading space adds no token |
| FormText.DoubleSpace | app/mixture_screen.py:124 | two spaces between words are one space followed by one more |
| FormText.RepeatedSpaces | app/mixture_screen.py:124-126 | two tokens separated by two spaces read as exactly those two tokens; the empty piece is discarded |
| FormText.ParseAll | app/mixture_screen.py:126 | a value for every token exactly when every token parses, each the parse of the token at the same index |
| FormText.ConvertAll | app/mixture_screen.py:120-122 | every token converted exactly when each conversion succeeds; otherwise the index of the first token that fails, with all before it succeeding |
| KijMatrix.RowStartClosedForm | app/mixture_screen.py:177-182 | the counter at the start of row `i` is `i(2n - i - 1)/2` |
| KijMatrix.RowStartEnd | app/mixture_screen.py:171-182 | the counter ends at `UpperCount(n)`, which is `n(n-1)//2` |
| KijMatrix.RowStartMonotone | app/mixture_screen.py:177-182 | the counter never decreases from row to row |
| KijMatrix.TriIndexInRow | app/mixture_screen.py:177-182 | the counter values of row `i` lie between the row's start and the next row's start, and below `n(n-1)//2` |
| KijMatrix.TriIndexRowMajor | app/mixture_screen.py:178-182 | values are consumed in row-major upper-triangle order, so no two pairs share a value |
| KijMatrix.TriIndexOnto | app/mixture_screen.py:177-182 | every value below `n(n-1)//2` is consumed by some pair |
| KijMatrix.PlanKij | app/mixture_screen.py:155-182 | empty text leaves the matrix alone; a non-numeric token is an error; one token is a uniform fill with that token's value whatever n is; otherwise the count must be `n(n-1)//2`, or the error names expected and actual counts |
| KijMatrix.EntryShape | app/mixture_screen.py:164-182 | `Entry` is each entry's value after the fill; the diagonal keeps its old value, and a uniform or list fill makes the off-diagonal part symmetric |
| KijMatrix.TriangleValuePlacement | app/mixture_screen.py:177-182 | in a list fill the k-th value lands on exactly one pair i < j and its mirror |
| KijMatrix.ThreeComponentOrder | app/mixture_screen.py:170 | with three components, k12 k13 k23 fill (0,1), (0,2), (1,2) |
| KijMatrix.FillUniform | app/mixture_screen.py:164-168 | every off-diagonal entry becomes the value; the diagonal is unchanged |
| KijMatrix.FillTriangle | app/mixture_screen.py:177-182 | each value is written at its pair and the mirror; the diagonal is unchanged; the returned counter `k_idx` ends at `n(n-1)//2`, the number of values |
| KijMatrix.SetKijValues | app/mixture_screen.py:155-182 | the error raised, exactly as `PlanKij` decides, with nothing written on an error; otherwise every entry is as the plan fills it |
| MixtureScreen.PressureUnitsRoundTrip | app/mixture_screen.py:187 | over the reals, kPa→Pa (`KPaToPa`) and Pa→kPa (`PaToKPa`) undo each other |
| MixtureScreen.ReadForm | app/mixture_screen.py:117-141 | success exactly when every component converts, every fraction parses, the counts agree and both temperatures parse; each failure gives the error of the first failing check, in source order |
| MixtureScreen.LookupPressure | app/mixture_screen.py:370-382 | the pressure parses exactly when there is a lookup pressure, and that pressure in Pa is the parsed value |
| MixtureScreen.DensityOverlay | app/mixture_screen.py:364-386 | a form failing the guard `ReadyToPlot` (empty components or fractions, or a temperature of 0.0) gives no overlay and no error; after the guard, a non-numeric pressure is the only error; an overlay exists exactly when the mixture is binary and the lookup at the kPa pressure and the first fraction succeeds and finds rows; retrieval errors are swallowed |
| MixtureScreen.BubbleOverlay | app/mixture_screen.py:401-422 | an overlay exists exactly when the form passes the guard `ReadyToPlot`, the mixture is binary and the lookup at the first fraction finds rows; each point keeps its temperature, and its pressure is the retrieved kPa value ×1000 (`BubblePointInPa`) |
| MixtureScreen.PrefilledFractionsRead | app/mixture_screen.py:193 | the pre-filled fraction text `FractionsText` reads back as exactly the two formatted fractions |
| MixtureScreen.PrefilledPressureLookup | app/mixture_screen.py:184-187 | a pressure pre-filled in Pa from a kPa summary row is looked up at the original kPa value, when `float` inverts `str` |
| MixtureScreen.IsoplethPrefillMissesRow | app/mixture_screen.py:238-240 | a bubble row at `x_c1` = 0.204 is summarised in the isopleth 0.20, yet the lookup at 0.20 does not retrieve it |
| MixtureScreen.NewKijMatrix | app/mixture_screen.py:143-147 | a fresh n×n zero matrix filled as `PlanKij` decides, or its error; symmetric with a zero diagonal |
| MixtureScreen.MixtureLayout.GetInputs | app/mixture_screen.py:117-153 | the form's error, or the kij error, or the form's values with a fresh n×n matrix whose entries are the plan's fill over zeros, symmetric with a zero diagonal |
| MixtureScreen.MixtureLayout.FillInputsBinary | app/mixture_screen.py:184-193 | each given value is written to its field: the pressure ×1000, the temperatures as text, the composition as both fractions to two decimals; other fields keep their text |

## Left out

- Parquet loading and file paths: I/O. Each dataset is a `seq<Row>` parameter. The source does not catch a missing file, and the model claims nothing about one.
- Identifier conversion (`smilestoinchi`, `inchitosmiles`, `get_smiles_from_input`): calls into a chemistry library. They are function parameters that may fail, and the model does not say which failures raise `ValueError` and which raise `RuntimeError`.
- `float()`, `str()` and the `:.2f` format: parameters. PrefilledFractionsRead and PrefilledPressureLookup assume what they need of them: formatted numbers are tokens, and `float` inverts `str`.
- IEEE-754 arithmetic: all numbers are exact reals. `rho * 1000 / ...`, `p_val / 1000.0` and `x ± 0.001` carry no rounding, so a pressure that survives the Pa/kPa round trip here may not survive it in floating point.
- Aggregation.Round2: rounds halves away from zero on exact reals. polars `round(2)` on binary floats can differ at ties; only the 0.005 bound and the examples are claimed.
- Series.SortByT: it fixes one order among points with equal temperature. Callers may rely only on sortedness and permutation, because polars' sort is not stable by default.
- Nulls in the dataframes are not modelled. Every row has every column.
- ExperimentalData.RetrieveRhoPure: the result is stated as a set of points, with membership in both directions. Dataset order is kept by construction but is not stated.
- ExperimentalData.RetrieveVpPure: the same as for RetrieveRhoPure.
- The solvers and the plotting that follow the overlays are left out: `mix_den`, `mix_vp`, the plots, the parameter prediction in `on_submit`, and the critical-point and ternary plots. They are foreign numerical code and GUI.
- No ternary experimental-data lookup exists in the source, so none is modelled.
- Kivy widgets, dropdowns, alerts and screen switching are left out. The dropdown callbacks appear only as the arguments they pass to `_fill_inputs_binary`.
- The plot guard `not kij_matrix` is not checked separately. The matrix has one row per component, so it is empty exactly when the component list is, which `MixtureScreen.ReadyToPlot` already tests.
