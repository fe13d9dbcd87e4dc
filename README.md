# Keyword attention analysis and result-file parsing, in Dafny

This project models the non-plumbing logic of a small research pipeline. The
pipeline compares how a sequence-to-sequence transformer attends to symbolic and
verbal phrasings of the same word problem. Two pieces are modelled:

- **Keyword locator and keyword-attention ratio** (`analysis.py`), in module
  `Analysis`. `GetKeywordIndices` scans a token list once and keeps the positions
  whose token matches the rule for the input-type tag:
  - `"symbolic"`: the token, or the token with its leading and trailing runs of
    `= + - * /` stripped, is one of twelve symbols;
  - `"verbal"`: the token is exactly one of six Chinese keywords;
  - any other tag: no positions.

  `KeywordAttentionRatio` divides the attention mass on those columns by the
  total mass plus 1e-10. An empty index list gives exactly 0.0.
  `AnalyzeAttention` composes the two.
- **Result-file name parsing** (`plot_analysis.py`), in module `PlotAnalysis`.
  The driver saves one file per problem, phrasing and layer, named as in
  `main.py:66`; that name is `ResultFileName`. `CollectData` walks a directory
  listing and keeps the names ending in ".pkl", in listing order. For each kept
  name, `ParseName` applies `rstrip(".pkl")`, splits on '_' and reads fields 1, 2
  and 4, or "Unknown" when there are fewer than five fields.

Module `PyStr` models the Python string methods these rely on: `strip`,
`lstrip` and `rstrip` with a character-set argument, `split` and `join` on one
character, `endswith`, and `str` of a non-negative integer.

The attention matrix is a `seq<seq<real>>`: square, with non-negative entries.
The ratio is computed over `real`, with 1e-10 as an exact real constant.

On tokens `["a", "b", "c"]` with tag `"symbolic"` the locator returns
`[0, 1]`, not just `[0]`, since "b" is a symbolic keyword too
(`Analysis.ThreeTokenExample`). With the 3×3 anti-diagonal permutation matrix
the ratio is therefore 2/(3 + 1e-10), not about 1/3 (`Analysis.ThreeTokenRatio`).

## Model

| member | source | states |
|---|---|---|
| `PyStr.LStrip` | analysis.py:64 | the definition of `lstrip`, one half of `strip`; characterized by `LStripRemovesLongestPrefix` and `LStripSkipsHead` |
| `PyStr.RStrip` | plot_analysis.py:28 | the definition of `rstrip`; characterized by `RStripRemovesLongestSuffix` and `RStripSkipsTail` |
| `PyStr.Strip` | analysis.py:64 | the definition of `strip` as `lstrip` then `rstrip`; characterized by `StripRemovesBothRuns` and `StripAround` |
| `PyStr.LStripSkipsHead` | analysis.py:64 | putting strip characters in front of a string does not change what `lstrip` leaves |
| `PyStr.LStripRemovesLongestPrefix` | analysis.py:64 | what `lstrip` leaves is a suffix of the input, everything removed is a strip character, and what is left is empty or starts with a non-strip character (the removed prefix is the longest one) |
| `PyStr.RStripRemovesLongestSuffix` | plot_analysis.py:28 | what `rstrip` leaves is a prefix of the input, everything removed is a strip character, and what is left is empty or ends with a non-strip character |
| `PyStr.RStripSkipsTail` | plot_analysis.py:28 | appending strip characters to a string does not change what `rstrip` leaves |
| `PyStr.StripRemovesBothRuns` | analysis.py:64 | `strip` leaves a slice of the token with only strip characters on either side, neither of its ends is a strip character, and a token made only of strip characters strips to "" |
| `PyStr.StripAround` | analysis.py:64 | a word that neither starts nor ends with a strip character is exactly what `strip` recovers from it wrapped in strip characters |
| `PyStr.Join` | main.py:66 | the definition of `'_'.join`; `Split` and `SplitJoin` tie it to `split`, and `PlotAnalysis.JoinResultFields` shows the file-name format is such a join |
| `PyStr.EndsWith` | plot_analysis.py:23 | the definition of `endswith`; `PlotAnalysis.PklNamesSelects` states the filter built on it |
| `PyStr.Split` | plot_analysis.py:28 | `split('_')` gives one more piece than there are separators, no piece holds a separator, and joining the pieces with '_' gives back the string |
| `PyStr.SplitJoin` | plot_analysis.py:28 | `split` undoes `join` for separator-free pieces |
| `PyStr.DecimalString` | main.py:66 | `str` of a non-negative integer is a non-empty run of decimal digits with no leading zero, so it holds no '_' |
| `PyStr.DecimalStringValue` | main.py:66 | the digits `str(n)` writes, read back left to right by `DigitsValue`, denote `n` |
| `Analysis.IsSymbolicKeyword` | analysis.py:61-66 | the symbolic matching rule, the stripped token or the token as written in the twelve-symbol set; `OperatorRunMatchesIffSingle`, `FusedOperatorsMatch` and `VerbalMatchIsExact` state its consequences |
| `Analysis.IsKeyword` | analysis.py:58-73 | the rule the tag selects, nothing for an unknown tag; `KeywordPositionsCharacterized` ties the locator to it |
| `Analysis.KeywordPositions` | analysis.py:58-73 | every located position is a position of the token list |
| `Analysis.KeywordPositionsCharacterized` | analysis.py:58-73 | the located positions are strictly increasing, and position i is located iff token i matches the rule of the tag |
| `Analysis.UnknownTypeHasNoKeywords` | analysis.py:58-73 | a tag other than "symbolic" or "verbal" locates nothing, whatever the tokens |
| `Analysis.GetKeywordIndices` | analysis.py:47-73 | the loop returns the keyword positions in range, strictly increasing (so distinct), and i is returned iff token i matches the rule of the tag |
| `Analysis.OperatorRunMatchesIffSingle` | analysis.py:61-66 | a token (empty included) made only of `= + - * /` matches the symbolic rule iff it has length 1 ("+" matches, "==" strips to "" and does not) |
| `Analysis.FusedOperatorsMatch` | analysis.py:61-66 | a variable or 求 with operator runs fused to either side (such as "+x") matches the symbolic rule |
| `Analysis.VerbalMatchIsExact` | analysis.py:61-72 | "求=" is not a verbal keyword (no stripping there) but is a symbolic one |
| `Analysis.SymbolicExample` | analysis.py:58-66 | `["x", "=", "+", "cat"]` with "symbolic" locates `[0, 1, 2]` |
| `Analysis.VerbalExample` | analysis.py:67-72 | `["求", "猫"]` with "verbal" locates `[0]` |
| `Analysis.ThreeTokenExample` | analysis.py:58-66 | `["a", "b", "c"]` with "symbolic" locates `[0, 1]` |
| `Analysis.ThreeTokenRatio` | analysis.py:35-45 | on `["a", "b", "c"]` with "symbolic" and the anti-diagonal 3×3 matrix, the ratio is `Share(2, 3)`, that is 2/(3 + 1e-10) |
| `Analysis.Share` | analysis.py:45 | the definition of the final division, part / (total + 1e-10); `RatioBelowOne` and `RatioWithAllMassOnKeywords` bound the ratio built on it |
| `Analysis.TotalMass` | analysis.py:42 | the definition of `attn_matrix.sum()`; `TotalMassNonNegative` bounds it and `KeywordMassAtMostTotal` compares it with the keyword mass |
| `Analysis.KeywordMass` | analysis.py:39 | the definition of `attn_matrix[:, idx].sum()` through the selected submatrix; `KeywordMassByColumns` equates it with the independent column-sum definition |
| `Analysis.TotalMassNonNegative` | analysis.py:42 | the total attention mass of a non-negative matrix is non-negative |
| `Analysis.KeywordAttentionRatio` | analysis.py:24-45 | an empty index list gives exactly 0.0 whatever the (square, non-negative) matrix, and the ratio is never negative (its upper bound is `RatioBelowOne`) |
| `Analysis.KeywordMassByColumns` | analysis.py:39 | the sum of `m[:, idx]` equals the sum, over each occurrence of an index in the list, of that column's full sum, so a repeated index counts once per occurrence |
| `Analysis.DuplicateIndexCountsAgain` | analysis.py:39 | listing a column once more adds its column sum once more |
| `Analysis.KeywordMassAtMostTotal` | analysis.py:39-42 | with non-negative entries and distinct indices, the keyword mass is at most the total mass |
| `Analysis.RatioBelowOne` | analysis.py:39-45 | with non-negative entries and distinct indices, the ratio lies in [0, 1) |
| `Analysis.KeywordMassIsTotal` | analysis.py:39-42 | when every entry outside the listed distinct columns is zero, the keyword mass equals the total mass |
| `Analysis.RatioWithAllMassOnKeywords` | analysis.py:35-45 | the upper bound is tight: with all mass on the listed distinct columns the ratio is `Share(total, total)`, that is total / (total + 1e-10) |
| `Analysis.AnalyzeAttention` | analysis.py:75-93 | the keyword ratio is the ratio on the located positions, it is 0.0 for an unrecognised tag, and it lies in [0, 1) |
| `PlotAnalysis.ResultFileName` | main.py:66 | the driver's file name; `JoinResultFields` and `ParseResultFileName` state its shape and that it parses back |
| `PlotAnalysis.Stem` | plot_analysis.py:28 | `filename.rstrip(".pkl")`; `StemOfPklName` and `StemEatsIntoName` state what it keeps |
| `PlotAnalysis.ParseName` | plot_analysis.py:28-38 | a stem with fewer than four '_' gives "Unknown" three times; otherwise the three fields read off hold no '_' |
| `PlotAnalysis.ParseNamePositions` | plot_analysis.py:28-34 | with at least four '_' in the stem, the problem id, input type and layer are its second, third and fifth '_'-separated fields |
| `PlotAnalysis.StemEatsIntoName` | plot_analysis.py:28 | `rstrip(".pkl")` strips a character set: whatever comes before it, a name ending in "model.pkl" loses "l.pkl" and keeps "...mode" |
| `PlotAnalysis.StemOfPklName` | plot_analysis.py:28 | a stem ending in a character other than '.', 'p', 'k' or 'l' is recovered exactly from stem + ".pkl" |
| `PlotAnalysis.JoinResultFields` | main.py:66 | the driver's file stem is its six fields joined by '_' |
| `PlotAnalysis.SplitResultStem` | main.py:66 | with '_'-free fields, splitting the driver's stem on '_' gives back its six fields |
| `PlotAnalysis.ParseResultFileName` | plot_analysis.py:28-38 | round trip: parsing the name built at main.py:66 gives back str(pid), the input type and str(layer + 1), whose digits denote pid and layer + 1, for an input type free of '_' |
| `PlotAnalysis.PklNames` | plot_analysis.py:22-23 | the listed names ending in ".pkl", in listing order; characterized by `PklNamesSelects` and `PklNamesKeepsOrder` |
| `PlotAnalysis.PklNamesSelects` | plot_analysis.py:22-23 | a name is kept iff it is listed and ends in ".pkl" |
| `PlotAnalysis.PklNamesKeepsOrder` | plot_analysis.py:22-47 | filtering keeps the listing's order: the kept names of a concatenation are those of the first part followed by those of the second |
| `PlotAnalysis.ToRecord` | plot_analysis.py:40-46 | one summary row: the three parsed name fields and the stored entropy and ratio; `CollectData` builds one per kept name |
| `PlotAnalysis.CollectData` | plot_analysis.py:21-47 | one row per kept name, in listing order, each built from that name's parsed fields and the entropy and ratio loaded from that file |

## Left out

- `calculate_attention_entropy` (analysis.py:5-22) and the entropy field of the analysis result: they rest on floating-point `np.log`. `AnalyzeAttention` returns only the keyword ratio.
- Floating point: the ratio is computed over `real`, with 1e-10 as an exact real. The model makes no claim of bit-exact agreement with numpy.
- `KeywordAttentionRatio` and `AnalyzeAttention` require a square matrix with non-negative entries, as attention weights are. With negative entries the divisor total + 1e-10 could be zero; Python would then give inf or nan, which reals cannot express.
- Out-of-range column indices: numpy raises an IndexError, and the model states this as a precondition. For `AnalyzeAttention` that precondition is a matrix side equal to the token count. numpy's negative indices are not modelled, because indices are `nat` and the locator never produces a negative one.
- Reading directories and files (`os.listdir`, `os.path.join`, `load_pkl`): the listing is a parameter of `CollectData`, in whatever order the listing gives. `load` is a function parameter that stands for the contents of the named file.
- The pandas DataFrame built from the rows (plot_analysis.py:49-50), `plot_bar` and the plotting and CSV half of `main` in plot_analysis.py: library rendering and output.
- main.py apart from its file-name format: model loading, the forward pass, head averaging (a float tensor mean), printing and pickling. The modules model_loader.py, attention_extractor.py, check_model_layers.py and visualization.py are not part of this model, nor is the constant dataset in data.py.
- `ResultFileName` takes the problem id as a non-negative integer rendered in decimal, as the dataset's integer ids are.
- Strings are sequences of characters, with no Unicode normalisation.
