# ROOT branch exploration, modelled in Dafny

This project models the pure core of two exploration scripts for ROOT files,
`src/ttree_exploration.py` and `src/branch_exploration.py`.

- **The branch-type classifier `categorize_dtype`.** Endianness markers such
  as `>f4` and `<f4` are rewritten to canonical names such as `float32`. The
  rewriting uses twelve sequential Python `str.replace` calls. A shape tier
  is then picked: jagged, fixed array, or scalar. Inside the tier, the token
  tests run in a fixed order (`float32`, then `float64`, `int32`, and so on,
  with `uint8` and a case-insensitive `bool` last). The first test whose token
  occurs anywhere in the string decides the category. So a jagged string that
  mentions `int32` before `float32` is still `vector<float>`.
- **The per-branch records of `get_branch_info` and `analyze_file`.** Each
  record holds the category, the byte counts and the compression ratio, with
  its zero-byte fallbacks. A `get_branch_info` record also holds the
  container name. A branch whose metadata cannot be read is skipped.
- **`summarize_by_dtype`.** Records are grouped by category, with summed byte
  counts and a branch count per group. The groups are ordered by compressed
  bytes, largest first.
- **The `nlargest` selection of `print_top_branches`.**
- **The part of `create_branch_df` that does not touch files.**
  - Rows are selected: `vector<float>` branches whose names contain none of
    the exclusion strings.
  - Each row is tagged with the file's base name.
  - The statistics columns start unset. For a branch with at least one value
    they are filled with min, max and dynamic range over the flattened values.

Files, one module each:

| file | module | what |
|---|---|---|
| `optional.dfy` | `Optional` | `Option`, for the paths where the source raises or returns `None` |
| `text.dfy` | `Text` | substring containment, `str.replace`, ASCII `str.lower`, and when a replacement can be done piece by piece |
| `dtype.dfy` | `Dtype` | the categories, the normalisation, the classifier, the same classifier as an ordered rule table, and its properties |
| `seqs.dfy` | `Seqs` | sums, distinct tags, subsequences, filtering, and what a permutation preserves |
| `ordering.dfy` | `Ordering` | sorting by a key, largest first, and top-`n` selection |
| `values.dfy` | `Values` | flattening, minimum and maximum of a branch's values |
| `branch_info.dfy` | `BranchInfo` | compression ratio, container, `get_branch_info`, `analyze_file` |
| `summary.dfy` | `Summary` | `summarize_by_dtype` and the top-`n` selection |
| `branch_exploration.dfy` | `BranchExploration` | `create_branch_df` |

Byte counts are natural numbers. The compression ratio is an exact `real`
with a separate infinite variant. Branch values are exact reals.

Some inputs come from file access in the source. Here they are parameters:
- the trees of a file, as a list of `Tree`s for `analyze_file` and as a map
  from tree name to branches for `create_branch_df`;
- each branch's metadata, as an `Option`, where `None` means that reading it
  raised;
- the values of a branch, as a function `load` from branch name to nested
  values.

Behaviour worth noting:
- **Empty frame.** `get_branch_info` and `analyze_file` build
  `pd.DataFrame([])` when no branch can be read, and that frame has no
  columns. So `summarize_by_dtype`, `nlargest` and the `dtype_category`
  selection in `create_branch_df` raise a `KeyError` on it. The model returns
  `None` there. It also returns `None` when the tree asked for is not in the
  file, where `create_branch_df` passes `None` on to `get_branch_info`.
- **Scalar `double`.** Only the jagged tier tests for `double`. The scalar
  tier looks for `float64` alone, so a scalar interpretation mentioning only
  `double` is `other`.
- **Equal compressed sizes.** `sort_values` and `nlargest` leave the order of
  rows with equal compressed sizes unspecified. The model claims nothing about
  it.
- **Zero compressed bytes.** The per-category ratio divides by the summed
  compressed bytes with no fallback. The model defines it only where that
  sum is positive.

## Model

| member | source | states |
|---|---|---|
| Text.ReplaceAbsent | src/ttree_exploration.py:20-25 | `str.replace` leaves a string that does not contain the pattern unchanged |
| Text.ReplaceSplit | src/ttree_exploration.py:20-25 | replacing in `x + y` is replacing in `x` and in `y` separately, provided no occurrence of the pattern straddles the seam |
| Text.ReplaceAround | src/ttree_exploration.py:20-25 | for a three-character marker, a middle piece that cannot complete or start an occurrence across its edges splits the replacement into three independent parts |
| Text.ContainsIffOccurs | src/ttree_exploration.py:29 | Python's `p in s` holds exactly when `p` occurs at some index of `s` |
| Text.ContainsTransitive | src/ttree_exploration.py:34-39 | a string containing `q` contains everything `q` contains |
| Dtype.Categorize | src/ttree_exploration.py:14-66 | the classifier is total; its answer is a vector category iff the normalised string contains `var *` or `Jagged`, an array category iff it does not but contains both `[` and `]`, and a scalar category otherwise |
| Dtype.Classify | src/ttree_exploration.py:29-66 | the tier of the category chosen by the decision chain is the tier the shape markers call for |
| Dtype.FirstMatch | src/ttree_exploration.py:29-66 | in an ordered rule list, the category of the first rule that fires wins, and the fallback is taken when none fires |
| Dtype.ClassifyFollowsRules | src/ttree_exploration.py:29-66 | the decision chain equals "pick the tier, then the first firing rule of that tier's table, else the tier's `other`" on every string |
| Dtype.EndiannessIrrelevant | src/ttree_exploration.py:18-25 | swapping a `>f4`, `>f8`, `>i4`, `>i8`, `>u4` or `>u8` marker anywhere in an interpretation for its `<` twin never changes the category |
| Dtype.SwapInvisible | src/ttree_exploration.py:20-25 | after any list of well-formed rewrite lines that includes the code, the `>` and `<` markers of that code are indistinguishable |
| Dtype.OwnMarkerRewritten | src/ttree_exploration.py:20-25 | one rewrite line turns a marker of its own code, of either endianness, into the canonical name and treats the text on both sides independently |
| Dtype.OtherMarkerUntouched | src/ttree_exploration.py:20-25 | a rewrite line passes the marker of a different code through unchanged and treats the text on both sides independently |
| Dtype.UInt32ReadsAsInt32 | src/ttree_exploration.py:34-39 | a string containing `uint32` and no float token is labelled `vector<int32>` (jagged, without `double`), `array<other>` (fixed array) or `int32` (scalar) |
| Dtype.UInt64ReadsAsInt64 | src/ttree_exploration.py:36-37 | a string containing `uint64` and no earlier token is labelled `vector<int64>` or `int64` |
| Dtype.TokenSurvives | src/ttree_exploration.py:20-25 | text without `<` or `>` that cannot complete a marker across its left edge comes through any list of rewrite lines unchanged, with the text on its two sides rewritten independently |
| Dtype.MarkerBecomesToken | src/ttree_exploration.py:20-25 | a marker of a listed code, of either endianness, leaves that code's canonical name in the rewritten text when the later lines cannot touch the name |
| Dtype.NormalizedMarkerToken | src/ttree_exploration.py:18-25 | after the twelve replacements, a `>` or `<` marker of any of the six codes always leaves its canonical name (`float32` … `uint64`) in the string |
| Dtype.U4ReadsAsInt32 | src/ttree_exploration.py:24-62 | an interpretation with a raw `>u4` or `<u4` marker is, when jagged, `vector<float>`, `vector<double>` or `vector<int32>`, and, when scalar, `float`, `double` or `int32`; it is exactly `vector<int32>` or `int32` when no float token occurs |
| Dtype.U8ReadsAsInt64 | src/ttree_exploration.py:25-60 | an interpretation with a raw `>u8` or `<u8` marker is, when jagged, `vector<float>`, `vector<double>`, `vector<int32>` or `vector<int64>`, and, when scalar, `float`, `double`, `int32` or `int64`; it is exactly `vector<int64>` or `int64` when no earlier token occurs |
| Dtype.UInt32Unreachable | src/ttree_exploration.py:38-39 | no interpretation string is ever labelled `vector<uint32>` or `uint32` |
| Dtype.OtherWhenNoToken | src/ttree_exploration.py:42-43 | with no numeric or bool token, each tier answers its `other` category |
| Dtype.VectorFloatLabel | src/branch_exploration.py:19 | comparing the label with `'vector<float>'` is the same as comparing the category with `vector<float>` |
| Dtype.ParseLabelInverts | src/ttree_exploration.py:29-66 | every returned label reads back as the category it was returned for |
| Dtype.LabelInjective | src/ttree_exploration.py:147 | distinct categories have distinct labels, so grouping by the label string, as pandas does, is grouping by category |
| BranchInfo.CompressionRatio | src/ttree_exploration.py:78-81 | 1.0 when the branch is empty; infinite iff it holds data but no compressed bytes; otherwise a positive value that multiplied by the compressed size gives the uncompressed size, and above 1 iff compression shrank the branch |
| BranchInfo.ContainerOf | src/ttree_exploration.py:85 | the container is a prefix of the branch name without `.`, followed in the name by `.` when shorter, and the whole name when there is no `.` |
| BranchInfo.GetBranchInfo | src/ttree_exploration.py:69-95 | one row per branch whose metadata can be read |
| BranchInfo.GetBranchInfoMaps | src/ttree_exploration.py:71-93 | skipping the branches that raise while building rows gives row `i` built from the `i`-th readable branch |
| BranchInfo.GetBranchInfoRows | src/ttree_exploration.py:73-91 | row `i` records the name, category, interpretation, byte counts and ratio of the `i`-th readable branch, and names its container |
| BranchInfo.GetBranchInfoAppend | src/ttree_exploration.py:71-95 | the rows for a branch list are the rows for its two halves, in order |
| BranchInfo.SkipsUnreadable | src/ttree_exploration.py:92-93 | a branch whose metadata raises contributes nothing and changes no other row |
| BranchInfo.BuildersAgree | src/ttree_exploration.py:115-137 | `analyze_file` and `get_branch_info` build the same record for every branch of a tree |
| BranchInfo.AnalyzeFile | src/ttree_exploration.py:98-141 | `None` iff the file has no tree; otherwise one row per readable branch over all trees, tree after tree: the rows of `trees[k]` start after the readable branches of the trees before it, and row `i` among them records the `i`-th readable branch of `trees[k]`, tagged with that tree's own name |
| BranchInfo.AllTreeRowsLayout | src/ttree_exploration.py:110-137 | the rows of each tree form one block, placed right after the blocks of the trees before it, and each row of the block records its branch and names its own tree |
| BranchInfo.AllTreeRowsAppend | src/ttree_exploration.py:110-137 | the rows for a list of trees are the rows for its two halves, in order |
| BranchInfo.TreeRowsRecords | src/ttree_exploration.py:115-137 | row `i` of a tree's rows records the `i`-th readable branch of that tree and carries the tree's name |
| BranchInfo.AllTreeRowsFacts | src/ttree_exploration.py:110-139 | there are as many rows as readable branches over all trees, and each names a tree of the file; which tree is the layout lemma's business |
| Seqs.SumByPermutation | src/ttree_exploration.py:162 | reordering does not change a sum |
| Seqs.DistinctByPermutation | src/ttree_exploration.py:162 | reordering keeps tags distinct |
| Seqs.FilterFilter | src/branch_exploration.py:19-24 | filtering twice is filtering once by the conjunction |
| Seqs.FilterAgree | src/branch_exploration.py:22-24 | filters whose predicates agree on every element give the same result |
| Seqs.FilterMultiplicity | src/branch_exploration.py:19-24 | a boolean mask keeps every copy of an element that passes and no copy of one that does not |
| Seqs.FilterIsSubsequence | src/branch_exploration.py:19 | filtering keeps the input order |
| Ordering.Insert | src/ttree_exploration.py:162 | inserting into a sequence sorted largest-first keeps it sorted and adds exactly the new element |
| Ordering.SortDesc | src/ttree_exploration.py:162 | the result is sorted largest key first and is a permutation of the input |
| Ordering.TopN | src/ttree_exploration.py:233 | `min(n, |s|)` elements of `s`, sorted largest key first, none with a smaller key than an element left out |
| Summary.OfCategory | src/ttree_exploration.py:147 | a category's selection is non-empty iff some record has that category |
| Summary.AddRecordRows | src/ttree_exploration.py:147-151 | adding a record changes only its category's row, which gains its bytes and one branch, and opens a row at the end iff the category had none |
| Summary.AddRecordTotals | src/ttree_exploration.py:148-150 | adding a record adds its bytes and one branch to the totals over rows |
| Summary.Group | src/ttree_exploration.py:147-151 | one row per category present and no other, each holding the sums and the count of that category's records; the rows' totals equal the totals over all records |
| Summary.GroupStep | src/ttree_exploration.py:147-151 | adding the last record to a summary of the others gives a summary of all of them |
| Summary.SummaryPermutation | src/ttree_exploration.py:162 | reordering the rows of a summary leaves a summary |
| Summary.SummarizeByDtype | src/ttree_exploration.py:144-164 | `None` iff there are no records; otherwise a summary of the records, one row per distinct category, ordered by compressed bytes, largest first |
| Summary.CategoryRatio | src/ttree_exploration.py:153 | for a group with compressed bytes, the ratio multiplied by them gives the uncompressed bytes |
| Summary.TopBranches | src/ttree_exploration.py:233 | `None` iff there are no records; otherwise `min(n, |records|)` records, largest compressed size first, none smaller than a record left out |
| Values.Flatten | src/branch_exploration.py:38 | the flat length is the sum of the inner lengths |
| Values.FlattenAppend | src/branch_exploration.py:38 | flattening concatenates in order: it commutes with concatenation of the outer sequence |
| Values.FlattenMembers | src/branch_exploration.py:38 | a value is in the flattened data iff it is in one of the inner sequences |
| Values.FlattenEmpty | src/branch_exploration.py:38-39 | the flattened data is empty iff every inner sequence is |
| Values.Min | src/branch_exploration.py:42 | the minimum is one of the values and no value is smaller |
| Values.Max | src/branch_exploration.py:43 | the maximum is one of the values and no value is larger |
| BranchExploration.BaseName | src/branch_exploration.py:16 | the base name is a suffix of the path without `/`, preceded in the path by `/` when shorter, and the whole path when it has no `/` |
| BranchExploration.BaseNameOfJoin | src/branch_exploration.py:16 | the base name of `dir + "/" + name` is `name` for any name without `/` |
| BranchExploration.Exclude | src/branch_exploration.py:24 | one exclusion step keeps a subsequence of the rows: no copy of a row whose branch name contains the string, and every copy of every other row, in input order |
| BranchExploration.ExcludeAllKeepsClear | src/branch_exploration.py:22-24 | the exclusion loop keeps exactly the rows that contain none of the strings, in order |
| BranchExploration.SelectBranches | src/branch_exploration.py:19-24 | the selection equals the reference "wanted rows in order" filter: it keeps input order, holds only `vector<float>` rows whose names contain no exclusion string, and keeps every such row |
| BranchExploration.NoFiltersIsEmptyList | src/branch_exploration.py:19-22 | with `filters=None` the selection is exactly the `vector<float>` filter, the same as with an empty list of exclusions |
| BranchExploration.FilterOrderIrrelevant | src/branch_exploration.py:22-24 | exclusion lists with the same members select the same rows, whatever their order or repeats |
| BranchExploration.ComputeStatsMeaning | src/branch_exploration.py:38-44 | unset iff the branch holds no value; otherwise min and max are values of the branch that bound all of its values, and the dynamic range is their non-negative difference |
| BranchExploration.FillStats | src/branch_exploration.py:27-50 | starting from unset statistics and filling the rows one at a time gives, for every row, the statistics of that row's own values, and changes no other column |
| BranchExploration.CreateBranchTable | src/branch_exploration.py:11-50 | `None` iff the tree is missing or none of its branches can be read; otherwise one row per selected branch, in order, tagged with the file's base name and carrying its statistics |

## Left out

- Opening ROOT files and listing trees (`list_trees`, the file access in `analyze_file`) and loading branch arrays (`load_branch_data`): trees, metadata and values are parameters.
- The exception raised while reading a branch's metadata is modelled as `None` metadata; the warning printed for it is left out.
- Console printing (`print_summary`, `print_top_branches` apart from its `nlargest`), CSV export and all plotly figures and histograms: presentation only.
- The per-category MB sizes, percentage shares and `reduction_pct`, and the branch mean and standard deviation: floating-point presentation.
- Dtype.Categorize: `str(interpretation)` is taken as given; the model starts from the interpretation string.
- Text.ReplaceAll: only non-empty patterns are modelled; the source only replaces three-character markers.
- Dtype.HasBool: `str.lower` is modelled on ASCII letters only.
- BranchExploration.Exclude: pandas `str.contains` treats the filter as a regular expression; the model treats it as a literal substring, which agrees for filters without regular-expression metacharacters.
- BranchInfo.CompressionRatio: the ratio is an exact real; floating-point rounding of the division is not modelled.
- BranchExploration.ComputeStatsMeaning: min, max and their difference are exact reals; floating-point rounding of the subtraction is not modelled.
- Summary.CategoryRatio: defined only for groups with compressed bytes; the source divides by zero there and pandas yields infinity or NaN.
- Summary.SummarizeByDtype: the order among groups with equal compressed bytes is not stated; pandas does not fix it.
- Summary.TopBranches: `n` is a natural number; the order among records with equal compressed bytes is not stated.
- Values.Flatten: one nesting level, as for the `vector<float>` branches the selection keeps.
