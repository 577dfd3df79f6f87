# hgmd marker detection — a Dafny model of its sequential core

hgmd (HG_marker_detection) looks for marker genes of a cell cluster in
single-cell expression data. This project models the parts of the program
that are ordinary sequential logic around the statistical engine, and
proves what they promise:

- `singleton_test` (`hgmd/hgmd.py`): every gene column is sorted by
  expression (descending), the 0/1 cluster-membership vector is built in that
  order, the XL-mHG cutoff index is slid up to the first cell holding the
  cutoff value, and the genes are finally ranked by the sum of two
  average-tie ranks (module `Singleton`, with `Ranking` for pandas' average
  rank).
- `read_data` (`hgmd/__main__.py`): the cell filter against the expression
  matrix, the gene-list file parser (one comma-separated line, or one item
  per line with comma items expanded), the order-keeping selection of the
  listed genes that exist, and the stratified downsampling of the cluster
  series (modules `GeneList`, `Text`, `ClusterSeries`).
- `process` (`hgmd/__main__.py`): the 150-gene abbreviation shortlist, the
  `rank` column and `head(Trim)` of the pair/triple/quad tables, the fusion
  of the singleton table's mHG rank and fold-change rank, and the Plot marks
  (module `Ordering`).
- `main` (`hgmd/__main__.py`): defaults and bounds of Trim, C and K, the
  sorted cluster list and its cutting into batches of `cores` clusters
  (module `Launch`).

Expression values, p-values, statistics and fold changes are only compared,
so they are `real`s; NaN is not among them (see "Left out"). The XL-mHG test
and the t-test enter as function parameters, the random index stream of the
downsampling as a sequence of picks. pandas' `sort_values` is not stable. For
the per-gene column sort, whose tie order feeds the XL-mHG test, the
properties are proved for any sorted permutation (`Singleton.TestGenes` takes
the sorted columns as given by `SortsColumns`). The other sorts, by combined
rank in `Singleton.RankAndSort`, by mHG_stat in `Ordering.Abbreviate`, by
p-value or statistic in `Ordering.RankedTable` and the three sorts of
`Ordering.FuseRanks`, use one fixed sort: their lemmas hold for any order
among ties, but the order among tied rows they return, and for
`Ordering.RankedTable` which tied rows survive the `head(Trim)` cut, is that
sort's.

## Model

| member | source | states |
|---|---|---|
| Singleton.SortDescending | hgmd/hgmd.py:121-122 | the sorted column is a permutation of the gene's column and descending by expression |
| Singleton.Membership | hgmd/hgmd.py:123 | the membership vector has one entry per cell |
| Singleton.MembershipVector | hgmd/hgmd.py:121-123 | one entry per cell, in descending-expression order, 1 exactly when that cell is in the cluster and 0 otherwise; its sum is the cluster size |
| Singleton.SearchSorted | hgmd/hgmd.py:131-133 | `searchsorted(side='left')` returns an index in 0..n |
| Singleton.SearchSortedSplits | hgmd/hgmd.py:131-133 | on an ascending array, a position is before the result exactly when its value is below the searched value |
| Singleton.Slide | hgmd/hgmd.py:125-133 | the slid index is at most the original index and holds the same value |
| Singleton.SlideSplits | hgmd/hgmd.py:84-93 | after the slide, a cell is before the index exactly when its expression is strictly above the cutoff value |
| Singleton.SlideCountsGreater | hgmd/hgmd.py:125-133 | the slid index is the number of expression values strictly greater than the cutoff value |
| Singleton.SlideIdempotent | hgmd/hgmd.py:125-133 | sliding the slid index again gives the same index |
| Singleton.SlideExample | hgmd/hgmd.py:126-128 | for [5.3, 1.2, 0, 0, 0, 0] and cutoff index 4 the slid index is 2 |
| Singleton.GeneRowOf | hgmd/hgmd.py:134-146 | the output row carries the gene's name, the XL-mHG statistic and p-value, and the t statistic and p-value of the in-cluster expression against the out-of-cluster expression |
| Singleton.TestGene | hgmd/hgmd.py:121-146 | a gene's test fails exactly when the XL-mHG cutoff index is past the last cell, with that gene and index as the error; otherwise the row is the gene's |
| Singleton.GeneRowStats | hgmd/hgmd.py:123-146 | each collected row's mHG statistic and p-value are the XL-mHG test's on the gene's membership vector, its t statistic and p-value are the t-test's on the gene's in-cluster and out-of-cluster samples, and the two samples together hold the gene's expression in every cell, each value once |
| Singleton.GeneRowCutoff | hgmd/hgmd.py:124-133 | a row's cutoff value is the sorted column's value at the XL-mHG index, which is in range, and is one of the gene's expression values; its cutoff index is that index slid up, at most the XL-mHG index, and counts the values strictly above the cutoff value |
| Singleton.ValuesWhere | hgmd/hgmd.py:135-137 | a t-test sample holds at most one value per cell |
| Singleton.ValuesWherePartition | hgmd/hgmd.py:135-137 | the in-cluster sample and the out-of-cluster population together hold every expression value of the column, each once |
| Singleton.Outcomes | hgmd/hgmd.py:109 | one test outcome per gene column reached |
| Singleton.OutcomeAt | hgmd/hgmd.py:109-147 | outcome g is the test of gene g on its sorted column |
| Singleton.CollectSpec | hgmd/hgmd.py:109-147 | the loop succeeds exactly when every gene's test succeeds, and then yields one row per gene in gene order; a failure is the first failing gene's |
| Singleton.CollectStep | hgmd/hgmd.py:147 | one more gene appends its row, or stops the loop with its error |
| Singleton.FailureSticks | hgmd/hgmd.py:109-147 | once a gene fails, the genes after it change nothing |
| Singleton.SortsColumnsExtend | hgmd/hgmd.py:121-122 | one more descending permutation of the next column keeps every column sorted |
| Singleton.CollectAppend | hgmd/hgmd.py:147 | after genes that all succeeded, one more gene appends its row or ends the loop with its error |
| Singleton.OutcomesOf | hgmd/hgmd.py:109-147 | outcomes that are, gene by gene, the tests of the sorted columns are the loop's outcomes |
| Singleton.TestGenes | hgmd/hgmd.py:109-147 | every column the loop sorted is a descending permutation of its column, and the loop's result is the collected outcomes of the genes it reached: the first failure, or one row per gene |
| Singleton.SingletonTest | hgmd/hgmd.py:105-153 | every column the loop sorted is a descending permutation of its column; an error is the first failing gene's; otherwise every gene has a row and the result is those rows ranked and sorted |
| Singleton.MhgPvals | hgmd/hgmd.py:149 | one mHG p-value per output row |
| Singleton.TPvals | hgmd/hgmd.py:150 | one t-test p-value per output row |
| Singleton.CombinedRanks | hgmd/hgmd.py:149-152 | one combined rank per gene row, carrying that row, in the rows' order |
| Singleton.CombinedRankFacts | hgmd/hgmd.py:149-151 | a combined rank lies in [2, 2n]; a gene no worse on both p-values and better on one has a strictly smaller combined rank |
| Singleton.CombinedRankSum | hgmd/hgmd.py:149-151 | the combined ranks of n genes add up to n(n+1), whatever the ties |
| Singleton.RankAndSort | hgmd/hgmd.py:149-153 | the result is a permutation of the ranked rows, sorted ascending by combined rank |
| Ranking.Ranks | hgmd/hgmd.py:149-150 | `Series.rank()` gives one rank per value |
| Ranking.RankBounds | hgmd/hgmd.py:149-150 | every average-tie rank lies in [1, n] |
| Ranking.RankOrder | hgmd/hgmd.py:149-150 | equal values have equal ranks, and a strictly smaller value a strictly smaller rank |
| Ranking.RankSum | hgmd/hgmd.py:149-150 | the ranks sum to n(n+1)/2 |
| Ranking.SumRealAdd | hgmd/hgmd.py:151 | the sum of two rank columns added entry by entry is the sum of their sums |
| Ranking.Trichotomy | hgmd/hgmd.py:149-150 | the values below, equal to and above a value together count n |
| Ranking.BelowGrows | hgmd/hgmd.py:149-150 | for a < b, the values below b include those below or equal to a |
| Sorting.SortBy | hgmd/hgmd.py:153 | `sort_values` gives a sorted permutation |
| Sorting.SmallerKeyEarlier | hgmd/hgmd.py:153 | in a sorted table a row with a strictly smaller key comes strictly earlier |
| Text.Upper | hgmd/__main__.py:119 | `str.upper` keeps the length |
| Text.UpperIdempotent | hgmd/__main__.py:119 | upper-casing twice is upper-casing once |
| Text.UpperKeeps | hgmd/__main__.py:119-120 | upper-casing leaves every non-letter, such as the comma, exactly where it was |
| Text.Split | hgmd/__main__.py:120 | `split(",")` gives at least one part and no part contains the separator |
| Text.JoinSplit | hgmd/__main__.py:120 | joining the parts of a split with the separator gives back the string |
| Text.SplitJoin | hgmd/__main__.py:120 | splitting a join of separator-free parts gives back the parts |
| Text.ReadLines | hgmd/__main__.py:115 | `readlines()` gives no line exactly for an empty file |
| Text.ReadLinesConcat | hgmd/__main__.py:115 | the lines put back together are the file |
| Text.ReadLinesShape | hgmd/__main__.py:115 | every line is non-empty, every line but the last ends in its only newline, the last has no newline except maybe at its end |
| Text.FirstLine | hgmd/__main__.py:118 | `splitlines()[0]` is a prefix of the text without a line boundary, followed by one or by the end |
| GeneList.StripLines | hgmd/__main__.py:122-126 | one item per line |
| GeneList.UpperAll | hgmd/__main__.py:104 | one upper-cased name per name |
| GeneList.RemoveFirst | hgmd/__main__.py:130 | `list.remove` drops exactly one entry |
| GeneList.RemoveBehindBare | hgmd/__main__.py:127-130 | removing a comma item that follows only comma-free items takes out that very item |
| GeneList.GeneListOf | hgmd/__main__.py:113-132 | whatever the file, no gene of the parsed list contains a comma |
| GeneList.BareNoCommas | hgmd/__main__.py:127-128 | the items kept verbatim contain no comma |
| GeneList.ExpandedNoCommas | hgmd/__main__.py:129-132 | the appended pieces contain no comma |
| GeneList.UpperAllNoCommas | hgmd/__main__.py:132 | upper-casing comma-free pieces keeps them comma-free |
| GeneList.OneLineRoundTrip | hgmd/__main__.py:116-120 | for a one-line file, joining the genes with "," gives back the upper-cased first line, and splitting that again gives the genes |
| GeneList.EmptyFile | hgmd/__main__.py:121-132 | an empty file gives an empty gene list |
| GeneList.BareMembers | hgmd/__main__.py:122-128 | a name stays verbatim exactly when it is an item without a comma |
| GeneList.ExpandedMembers | hgmd/__main__.py:127-132 | a name is appended exactly when it is an upper-cased piece of some comma item |
| GeneList.MultiLineMembers | hgmd/__main__.py:121-132 | a multi-line file lists a name exactly when it is a comma-free item or an upper-cased piece of a comma item |
| GeneList.StripAll | hgmd/__main__.py:122-126 | the loop builds one item per line, each line without its trailing newline |
| GeneList.AppendUpper | hgmd/__main__.py:131-132 | the loop appends the upper-cased pieces in order |
| GeneList.ItemStep | hgmd/__main__.py:127-132 | visiting a comma-free item changes nothing; a comma item is in the list, is removed, and its upper-cased pieces are appended |
| GeneList.PendingStart | hgmd/__main__.py:127 | before the first visit the list is the stripped items |
| GeneList.PendingEnd | hgmd/__main__.py:127-132 | after the last visit the list is the comma-free items then the pieces |
| GeneList.ExpandItems | hgmd/__main__.py:127-132 | the expansion loop leaves the comma-free items in order followed by the upper-cased pieces of each comma item in order |
| GeneList.ParseGeneList | hgmd/__main__.py:113-132 | the parser's list is the gene list of the file: the upper-cased first line split on commas for one line, the expanded items otherwise |
| GeneList.FirstIndex | hgmd/__main__.py:136 | the first position of a name in the list |
| GeneList.Selection | hgmd/__main__.py:135-142 | only listed genes that name exactly one column are selected, none twice: a missing gene raises KeyError and a gene naming two columns raises ValueError on assignment, and the bare `except` skips both |
| GeneList.SelectionSpec | hgmd/__main__.py:135-142 | a gene is selected exactly when it is listed and names exactly one column; no gene twice; selected genes in order of their first listing |
| GeneList.FirstIndexPrefix | hgmd/__main__.py:136 | appending to the list keeps the first positions of the names already in it |
| GeneList.SelectGenes | hgmd/__main__.py:135-142 | the selection loop computes the selection |
| GeneList.GeneFilter | hgmd/__main__.py:103-142 | the filter selects from the upper-cased columns the genes of the parsed list |
| GeneList.TwoLineItems | hgmd/__main__.py:115-126 | the file "cd4\ncd8" has two lines, stripped to "cd4" and "cd8" |
| GeneList.TwoLineLists | hgmd/__main__.py:121-132 | the file "cd4\ncd8" gives ["cd4", "cd8"] as written and ["CD4", "CD8"] upper-cased |
| GeneList.TwoGeneSelections | hgmd/__main__.py:135-142 | from columns CD4 and CD8, the lower-case names select nothing and the upper-case names both |
| GeneList.LowerCaseLinesMissed | hgmd/__main__.py:121-142 | a file listing cd4 and cd8 one per line selects nothing from a matrix with genes cd4 and cd8, while upper-casing the items selects both |
| GeneList.SplitUpper | hgmd/__main__.py:129-132 | splitting an upper-cased item on commas gives the upper-cased pieces of the item |
| GeneList.BareUpper | hgmd/__main__.py:122-128 | upper-casing the items first keeps the same comma-free items, upper-cased |
| GeneList.ExpandedUpper | hgmd/__main__.py:127-132 | upper-casing the items first appends the very same pieces |
| GeneList.ParseGeneListIntended | hgmd/__main__.py:113-132 | the parser with each line upper-cased as it is read yields the corrected gene list |
| GeneList.GeneFilterIntended | hgmd/__main__.py:103-142 | the filter over the corrected parser selects the corrected list's genes among the upper-cased columns |
| GeneList.UpperAllMembers | hgmd/__main__.py:104 | a name is an upper-cased column exactly when some column upper-cases to it |
| GeneList.IntendedMatchesAnyCase | hgmd/__main__.py:121-142 | with every item upper-cased, a comma-free line is selected exactly when one column, and only one, equals it up to letter case; the selected name is then a column's name up to letter case |
| ClusterSeries.Listed | hgmd/__main__.py:96-100 | the filter keeps no more cells than there are, each named by a column |
| ClusterSeries.ListedMembers | hgmd/__main__.py:96-100 | a cell survives the filter exactly when its name is a column, and the survivors are drawn from the series |
| ClusterSeries.ListedAll | hgmd/__main__.py:96-100 | when every cell is a column nothing is dropped |
| ClusterSeries.ListedIdempotent | hgmd/__main__.py:96-100 | filtering twice drops nothing more |
| ClusterSeries.FilteredSpec | hgmd/__main__.py:96-100 | the drop loop raises KeyError exactly when a name that is not a column occurs twice in the series, naming such a name; otherwise it keeps exactly the cells named by a column, in order |
| ClusterSeries.FilteredFailureSticks | hgmd/__main__.py:96-100 | once the drop loop has raised on a prefix of the series, the whole loop raises the same KeyError |
| ClusterSeries.FilterCells | hgmd/__main__.py:93-100 | as many columns as cells leaves the series alone; otherwise the result is the drop loop's: KeyError at the second cell of an unlisted name, else the cells named by a column, in order |
| ClusterSeries.InClusterConcat | hgmd/__main__.py:179-180 | cluster sizes add up over concatenation |
| ClusterSeries.InClusterRemoveAt | hgmd/__main__.py:204-208 | dropping a cell lowers its own cluster's size by one and no other |
| ClusterSeries.InClusterAbsent | hgmd/__main__.py:177-180 | a cluster without cells has no cell in anything drawn from the series |
| ClusterSeries.Target | hgmd/__main__.py:162-174 | with more than 3000 genes the target is min(D, 2500), otherwise D |
| ClusterSeries.Quota | hgmd/__main__.py:185 | a cluster's quota q is the ceiling of size × M / N: q·N ≥ size·M > (q − 1)·N |
| ClusterSeries.QuotaBound | hgmd/__main__.py:184-185 | with a target below the series length no quota exceeds its cluster's size, nor does the first cell's share |
| ClusterSeries.CountClusters | hgmd/__main__.py:177-180 | `counts` has one key per cluster holding that cluster's size |
| ClusterSeries.QuotaTable | hgmd/__main__.py:183-185 | `take_nums` holds ceil(size × M / N) for every cluster |
| ClusterSeries.FirstTallies | hgmd/__main__.py:190-197 | the reset `counts` hold the kept counts of the series holding only the first cell |
| ClusterSeries.VisitStart | hgmd/__main__.py:190-199 | before the visits the first cell is kept and all others are unvisited |
| ClusterSeries.VisitStep | hgmd/__main__.py:201-208 | a visit keeps the loop state: per cluster, the kept count is the visited count capped by the larger of quota and first-cell share |
| ClusterSeries.DrawnStep | hgmd/__main__.py:204-208 | kept and unvisited cells remain drawn from the series, the first cell first |
| ClusterSeries.CountedStep | hgmd/__main__.py:203-208 | a cell is accepted exactly while its cluster is under quota |
| ClusterSeries.VisitCluster | hgmd/__main__.py:203-208 | one visit as seen from one cluster |
| ClusterSeries.CountStep | hgmd/__main__.py:203-207 | the capped count grows by one exactly when it was below the quota |
| ClusterSeries.TallyStep | hgmd/__main__.py:203-207 | the `counts` dict follows the kept cells through a visit |
| ClusterSeries.VisitEnd | hgmd/__main__.py:201-212 | after the last visit the kept series is downsampled |
| ClusterSeries.KeepQuotas | hgmd/__main__.py:177-212 | for any valid random picks: the first cell is kept first, the kept cells are drawn from the series, and each cluster keeps the larger of its quota and its first-cell share |
| ClusterSeries.Downsample | hgmd/__main__.py:158-212 | no target or a series no longer than the target leaves the series unchanged; an empty series over a negative target fails on its missing first cell; otherwise the result is downsampled |
| ClusterSeries.KeptQuota | hgmd/__main__.py:177-208 | with a positive target below N each cluster keeps exactly min(size, ceil(size × M / N)) cells |
| ClusterSeries.KeptDistinct | hgmd/__main__.py:193-208 | distinct cells stay distinct: no cell is kept twice |
| ClusterSeries.TotalCanExceedTarget | hgmd/__main__.py:184-208 | three cells in three clusters with target 1 keep all three cells: the total can exceed M |
| Counting.Map | hgmd/__main__.py:253-258 | one entry per row |
| Counting.MapPermutation | hgmd/__main__.py:395-400 | permuted rows give permuted columns |
| Ordering.Abbreviate | hgmd/__main__.py:245-260 | the table is a permutation sorted ascending by mHG_stat; a bare `-Abbrev` (None) fails as `len(None)` raises TypeError, and only it; an empty request gives no shortlist, otherwise the genes of the first min(150, n) rows |
| Ordering.ShortlistBest | hgmd/__main__.py:245-258 | any gene with a strictly smaller mHG_stat than the last shortlisted row is on the shortlist |
| Ordering.RankColumn | hgmd/__main__.py:328 | one rank per row |
| Ordering.HeadLength | hgmd/__main__.py:329 | `head(n)` never keeps more rows than there are |
| Ordering.Head | hgmd/__main__.py:329 | `head(n)` is a prefix of the table, of min(n, len) rows for n ≥ 0 and max(len + n, 0) rows for negative n |
| Ordering.RankedTable | hgmd/__main__.py:325-329 | the exported table (pair here, triple and quad at lines 426-443) has `head(Trim)`'s number of rows, ranked 1, 2, ... in order; which rows of equal key survive the cut is the fixed sort's |
| Ordering.RankedTableShape | hgmd/__main__.py:325-329 | cut from any sorted permutation of the rows, the exported pair table (and likewise the triple and quad tables of lines 426-443) has `head(Trim)`'s number of rows, ranks 1..k in order, keys ascending |
| Ordering.RankedTableTop | hgmd/__main__.py:426-443 | cut from any sorted permutation of the rows, in the exported triple and quad tables (and likewise the pair table of lines 325-329) every exported row is an input row, and a row with a strictly smaller key than an exported row is exported before it |
| Ordering.HgRanks | hgmd/__main__.py:393-395 | one row per input row, in ascending mHG_stat order, with hgrank its 1-based position |
| Ordering.FcRanks | hgmd/__main__.py:396-397 | one row per input row, in descending fold-change order, with fcrank its 1-based position |
| Ordering.FinalRanks | hgmd/__main__.py:398-400 | one final rank per row |
| Ordering.FuseRanks | hgmd/__main__.py:393-401 | the fused table has one row per gene |
| Ordering.HgRanksRows | hgmd/__main__.py:393-395 | numbering by mHG_stat keeps the rows |
| Ordering.FcRanksRows | hgmd/__main__.py:396-397 | re-sorting by fold change keeps the rows, each with its hgrank |
| Ordering.FinalRanksRows | hgmd/__main__.py:398-400 | re-sorting by finrank keeps the rows, each with its hgrank and fcrank |
| Ordering.FuseRanksPermutation | hgmd/__main__.py:393-401 | the fused table is a permutation of the input rows |
| Ordering.FcRanksKeepHgrank | hgmd/__main__.py:395-397 | the fold-change sort permutes the hgrank column |
| Ordering.FinalRanksKeepRanks | hgmd/__main__.py:395-400 | the finrank sort permutes the hgrank and fcrank columns |
| Ordering.HgrankPositions | hgmd/__main__.py:395 | in mHG_stat order the hgrank column is 1, 2, ..., n |
| Ordering.FcrankPositions | hgmd/__main__.py:397 | in fold-change order the fcrank column is 1, 2, ..., n |
| Ordering.FuseRankColumns | hgmd/__main__.py:393-401 | in the fused table the hgrank column and the fcrank column are each a permutation of 1..n |
| Ordering.HgRanksConsistent | hgmd/__main__.py:393-395 | a strictly smaller mHG_stat has a strictly smaller hgrank |
| Ordering.FcRanksConsistent | hgmd/__main__.py:396-397 | after the fold-change sort, hgrank still follows mHG_stat and a strictly larger fold change has a strictly smaller fcrank |
| Ordering.FinalRanksOrder | hgmd/__main__.py:398-400 | ranks 1..n in table order, hgrank + fcrank never decreases, and a row better on both statistics comes strictly earlier |
| Ordering.FuseRanksOrder | hgmd/__main__.py:393-400 | the final rank is 1..n ordered by the mean of hgrank and fcrank, and a gene with strictly smaller mHG_stat and strictly larger fold change is ranked before the other |
| Ordering.MarkPlot | hgmd/__main__.py:402-407 | row k is marked exactly when k < 99; nothing else in any row changes |
| Ordering.PlotCount | hgmd/__main__.py:402-407 | exactly min(99, n) rows are marked, not 100 |
| Launch.Normalise | hgmd/__main__.py:534-554 | K is at most 4 and X, L pass through |
| Launch.NormaliseDefaults | hgmd/__main__.py:534-551 | with nothing given: Trim 2000, C 1, no X or L, K 2 |
| Launch.NormaliseBounds | hgmd/__main__.py:534-554 | each option on its own: an absent Trim becomes 2000 and a given one is kept; an absent C becomes 1 and a given one loses its sign; an absent K becomes 2, a given K above 4 becomes 4 and any other given K is kept |
| Launch.NormaliseIdempotent | hgmd/__main__.py:534-554 | normalising normal settings again changes nothing |
| Launch.InsertUnique | hgmd/__main__.py:601-602 | inserting into a strictly increasing list keeps it strictly increasing and adds exactly the new label |
| Launch.ClusterList | hgmd/__main__.py:601-602 | the cluster list is strictly increasing and holds exactly the series' labels |
| Launch.PlanBatches | hgmd/__main__.py:607-629 | the plan fails with a division by zero exactly when min(C, #clusters) is 0; otherwise ceil(n / cores) batches, all of `cores` clusters but the last, which holds 1..cores, and together the cluster list in order |
| Launch.RestBound | hgmd/__main__.py:613-629 | before the last round more than `cores` clusters remain, at the last round between 1 and `cores` |
| Common.CeilDivSpec | hgmd/__main__.py:185 | the exact ceiling q of a / n satisfies q·n ≥ a > (q − 1)·n |

## Left out

- File and OS input and output: the CSV and TSV reads, opening the gene file (its text is a parameter), creating and removing directories, the CSV and pickle exports and the metadata file.
- `hg.xlmhg_test` and `ss.ttest_ind` are library calls with floating-point results; they are the parameters `xlmhg` and `ttest` of `Singleton.SingletonTest`, taken as total functions.
- `random.randint` is replaced by the `picks` sequence; `ClusterSeries.ValidPicks` states its bounds.
- The worker processes of `main()` are not modelled: neither `multiprocessing.Process` nor the `join` on only the last worker of a batch. Only the batch plan is.
- The engine modules that `process()` calls (the discretiser, the pair/triple/quad products, the hypergeometric tests, TP/TN and the ranker) are not part of this model, and neither is plotting.
- ClusterSeries.KeepQuotas: the quota is the exact integer ceiling of size × M / N. Python's `math.ceil(counts*(M/N))` divides in floating point and may differ by one when size × M / N is a whole number that the float misses.
- ClusterSeries.Downsample: `cls_ser[init_rand_num]` and `drop(index)` are taken positionally. With integer cell labels pandas reads `cls_ser[i]` by label; with duplicate cell names `drop` removes every entry of that name.
- ClusterSeries: the sum `summ` of the quotas is computed but never used, so it is not modelled.
- ClusterSeries.Downsample: the tSNE table and the expression matrix pass through unchanged and are not carried. A `D` that `int()` cannot parse is not modelled.
- Text.Upper: ASCII letters only. Python upper-cases all of Unicode, and a few characters change length.
- Text.ReadLines: the file is taken with '\n' line ends. Python's text mode first turns "\r\n" and "\r" into "\n".
- Launch.Normalise: options come in as integers. An option string that `int()` rejects is not modelled.
- The cleanup of `marker_exp` rows in `main()` (`hgmd/__main__.py:574-579`) and `hgmd.add_complements` are not part of this model.
- Singleton.SingletonTest: the order it returns among genes of equal combined rank is the model's fixed sort (ties keep their gene order), while pandas' unstable `sort_values` may order them otherwise. What holds for any order is `Singleton.RankAndSort`'s contract: sorted by rank and a permutation of the ranked rows. The same holds for `Ordering.Abbreviate` and `Ordering.FuseRanks`.
- Ordering.Abbreviate: the option's default `[]` is represented by the empty string, since only its length is read here. The later uses of `abbrev` inside the triple computation belong to the engine and are not modelled.
- Ordering.RankedTable: when rows tie on HG_pval or HG_stat at the `head(Trim)` cut, the rows it exports are those the model's fixed sort puts first; pandas' unstable `sort_values` may export other rows of the same key. `Ordering.RankedTableShape` and `Ordering.RankedTableTop` are proved for any sorted permutation, so they hold whichever rows pandas keeps.
- ClusterSeries.FilterCells: the survivors are gathered into a new sequence rather than dropped from the series in place. A cell whose name was already dropped is recognised by an earlier cell of that name, which is when pandas' `drop` raises KeyError.
- Singleton.CombinedRanks: NaN p-values are not modelled. `ss.ttest_ind` gives NaN when both samples are constant (a gene zero in every cell) or a sample has one cell. pandas' `rank()` leaves NaN unranked and ranks the other rows among themselves, and `sort_values` puts the NaN rows last. On such data the [2, 2n] bound of `Singleton.CombinedRankFacts` and the sum of `Singleton.CombinedRankSum` are not the program's.
- Ordering: the rows of the pair, triple and quad tables are taken as rows with a sort key. Their columns come from the engine and are not modelled.

## Findings

| source | as written | input that shows it | evidently intended | confidence | as-written member | corrected member |
|---|---|---|---|---|---|---|
| hgmd/__main__.py:121-132 | in a multi-line gene file only the pieces of comma items are upper-cased; a line without a comma is kept as written, while the matrix's gene names were all upper-cased at line 104 | the file "cd4\ncd8" with genes cd4 and cd8 in the matrix selects no gene | every listed name is upper-cased, as for a one-line file, so a gene is found in any letter case (when exactly one column has that name) | not executed | GeneList.LowerCaseLinesMissed | GeneList.IntendedMatchesAnyCase |
