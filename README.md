# Blocklist features of seqBLQscorer, modelled in Dafny

seqBLQscorer scores the quality of a sequencing run from how many of its
reads fall into the genome's blocklisted regions. The script
`deriveBLfeatures.py` maps a FASTQ file with Bowtie2, converts the alignment
to BED, takes the midpoint ("summit") of every mapped read, buckets the
summits, and counts them per blocklist region with
`count_reads_in_regions`. It has two modes:

- **Restricted mode** (no `--btidx`). Reads are mapped to a Bowtie2 index
  built from the blocklist regions only. A read's reference name is then a
  blocklist ID, summits are bucketed by ID, and every region whose ID has a
  bucket gets a row counting that bucket.
- **Whole-genome mode** (`--btidx` given). Summits are bucketed by
  `"chr" + reference name`. A region gets a row when some summit lies
  strictly inside it.

The helpers in `utils/utils.py` are modelled as well:
- the file-name helper `getFileName`;
- the blocklist loader `read_blocklist`;
- the integer part of the Bowtie2 report reader `read_Bowtie_stats`.

The Dafny modules:

| file | module | models |
|---|---|---|
| `wrappers.dfy` | `Wrappers` | `Option` and `Result`, used for Python's exceptions and `None` results |
| `file_names.dfy` | `FileNames` | `getFileName`, including its slicing quirks |
| `bowtie_stats.dfy` | `BowtieStats` | the seven-line check and the five leading integers of a Bowtie2 report |
| `blocklist.dfy` | `Blocklist` | `read_blocklist`: type codes, 1-based ordinals, grouping by chromosome |
| `region_counter.dfy` | `RegionCounter` | `count_reads_in_regions` with its seven-column table |
| `derive_features.dfy` | `DeriveFeatures` | the script's argument handling, chromosome list, summit bucketing, and the whole run from arguments to table |

How the model is organised:
- Loops of the source are methods with loops, proved against specification
  functions:
  - `ReadBlocklist` against the recursive `GroupByChrom`;
  - `CountReadsInRegions` against `RestrictedRows` and `GenomeRows`, both
    built from the recursive `ConcatRows`;
  - `BucketSummits` against `Buckets`, a map comprehension over the
    recursive `SummitsOf`.
- `ReadBowtieStats` has no loop: it reads the five lines one after another
  with `LeadingCount`.
- Lemmas about those functions state what the source promises.
- Python exceptions become `Failure` values that name the row, line or key
  that raised them.

## Model

| member | source | states |
|---|---|---|
| FileNames.FindFromEnd | utils/utils.py:10 | `s[::-1].find(c)`: -1 exactly when `c` does not occur; otherwise the distance of the last `c` from the end, with no `c` after it |
| FileNames.BaseName | utils/utils.py:10 | without '/' the first character is dropped; with a trailing '/' the whole path is kept; otherwise the result is the non-empty, '/'-free suffix after the last '/' |
| FileNames.StripReadExtensions | utils/utils.py:11-16 | the name is the result followed by one of "", ".gz", ".fastq", ".fq", ".fastq.gz", ".fq.gz" |
| FileNames.StripReadExtensionsLongest | utils/utils.py:11-16 | what comes off is the longest read extension the name ends with: ".fastq.gz" 9 characters, ".fq.gz" and ".fastq" 6, ".gz" and ".fq" 3 |
| FileNames.ReadPathParts | utils/utils.py:11-16 | a name ending in `.fastq` or `.fq`, optionally followed by `.gz`, loses exactly that extension |
| FileNames.GetFileName | utils/utils.py:9-17 | the file name is never longer than the path; after a '/' that is not the last character, it contains no '/' |
| FileNames.GetFileNameOfOtherFile | utils/utils.py:9-17 | a file that is not a read file keeps its name, minus a trailing ".gz": `dir/x.txt.gz` gives `x.txt`, `dir/x.fastq.bz2` gives `x.fastq.bz2` |
| FileNames.BaseNameAfterSlash | utils/utils.py:10 | for any directory, the text after the last '/' is the file name, when that name is non-empty and has no '/' |
| FileNames.StripReadExtensionsRoundTrip | utils/utils.py:11-16 | `.fastq` or `.fq`, optionally followed by `.gz`, is stripped back to the stem |
| FileNames.GetFileNameOfReadPath | utils/utils.py:9-17 | `getFileName(dir + "/" + stem + ext [+ ".gz"])` is `stem` |
| FileNames.GetFileNameWithoutDirectory | utils/utils.py:9-17 | a path without '/' loses its first character: the result is `stem[1..]` |
| BowtieStats.TakeWord | utils/utils.py:55 | the longest whitespace-free prefix of a line |
| BowtieStats.FirstToken | utils/utils.py:55 | `split()[0]` is absent exactly for blank lines; otherwise it is a non-empty token without whitespace |
| BowtieStats.ParseInt | utils/utils.py:55 | `int()` accepts only non-empty tokens; an unsigned numeral is never negative |
| BowtieStats.LeadingCount | utils/utils.py:55-59 | a line fails as `Blank` exactly when it is all whitespace |
| BowtieStats.IsSpace | utils/utils.py:55 | the whitespace `split()` separates on (ASCII only) |
| BowtieStats.ReadBowtieStats | utils/utils.py:52-64 | fails with the line count exactly when there are not 7 lines; otherwise reports the first of lines 0-4 that does not start with an integer; then fails with `ZeroTotal` exactly when the total is 0, where the percentages divide by zero; succeeds exactly when none of these happens, with the five integers and `overall = 1time + multi` |
| BowtieStats.DecimalValue | utils/utils.py:55 | the decimal numeral of `n` reads back as `n` |
| BowtieStats.ParseIntRoundTrip | utils/utils.py:55 | `int(str(n)) == n` for every integer |
| BowtieStats.FirstTokenOf | utils/utils.py:55 | after leading whitespace, the first token is the word up to the next whitespace |
| BowtieStats.TakeWordOf | utils/utils.py:55 | a whitespace-free word followed by whitespace or end of line is taken whole |
| BowtieStats.ReportLineRoundTrip | utils/utils.py:55-59 | a report line holding an indented count followed by nothing or by text that starts with whitespace reads back as that count |
| Blocklist.FirstField | utils/utils.py:84 | `ID.split('_')[0]` is the longest '_'-free prefix of the ID |
| Blocklist.TypeName | utils/utils.py:84 | `ID.split('_')[0][2:]`; its meaning is stated by `TypeNameSpan` |
| Blocklist.TypeNameSpan | utils/utils.py:84 | the type name is the text from the third character of the ID up to its first '_', and is empty exactly when a '_' comes within the first three characters |
| Blocklist.TypeCode | utils/utils.py:7 | a type code is absent, 1 or 2 |
| Blocklist.TypeCodeCharacterization | utils/utils.py:84-86 | code 1 exactly when the first field is 2 characters then "LM"; code 2 exactly when it is 2 characters then "HSR" |
| Blocklist.TypeCodes | utils/utils.py:84-86 | one code per row |
| Blocklist.CodesShowTyped | utils/utils.py:84-86 | codes matching `bl_type_map` on a prefix show that prefix typed, and on all rows are the row codes |
| Blocklist.OnChrom | utils/utils.py:81-86 | the regions of one chromosome are exactly the regions naming it, in order; increasing ordinals stay increasing |
| Blocklist.GroupByChrom | utils/utils.py:80-86 | the grouping loop of `read_blocklist`: each tuple appended in order to its chromosome's list; its meaning is stated by `GroupByChromIsFilter` |
| Blocklist.GroupByChromIsFilter | utils/utils.py:80-86 | a chromosome is a key exactly when some region names it, and its list is that chromosome's regions in order |
| Blocklist.LoadedRegionMatchesKey | utils/utils.py:79-86 | every stored tuple names its key as chromosome, has a binID in 1..rows, and is the tuple of row binID-1 |
| Blocklist.LoadedEveryRow | utils/utils.py:79-86 | every row's tuple is stored under its chromosome |
| Blocklist.LoadedListsAscend | utils/utils.py:79-86 | within each chromosome's list the ordinals strictly increase |
| Blocklist.ReadBlocklist | utils/utils.py:68-87 | succeeds exactly when every ID has a known type; the result is the rows' tuples grouped by chromosome; otherwise it names the first row with an unknown type, and its type name |
| Blocklist.DictKeys | utils/utils.py:81-82 | the keys of a dict filled in order: exactly the names given, each once, never more than the names |
| Blocklist.DictKeysOfDistinct | utils/utils.py:81-82 | distinct names keep their order and all entries |
| Blocklist.ChromosomeOrder | utils/utils.py:81-82 | the dictionary's keys in insertion order: each chromosome with a region, once |
| Blocklist.ChromosomeKeysAreGroups | utils/utils.py:81-82 | a chromosome names some tuple exactly when the loaded dictionary has a list for it |
| Blocklist.ChromosomeKeyIsGroup | utils/utils.py:81-82 | the same for one chromosome |
| Blocklist.ChromosomeOrderStep | utils/utils.py:81-82 | one more tuple adds its chromosome to the key order unless it is already a key |
| Blocklist.RegionTotalUpdateAbsent | utils/utils.py:82 | adding a key outside the counted keys changes no count |
| Blocklist.RegionTotalUpdatePresent | utils/utils.py:85 | replacing one counted list changes the total by the change in its length |
| Blocklist.GroupByChromConserves | utils/utils.py:79-86 | the lists hold exactly as many tuples as there are regions |
| Blocklist.ReadBlocklistConservesRows | utils/utils.py:79-86 | the loaded dictionary holds one tuple per input row |
| RegionCounter.Table.Append | utils/utils.py:114-117 | appending one value to each column keeps the seven columns equally long and appends exactly one row |
| RegionCounter.EmptyTable | utils/utils.py:105-106 | the initial table is well formed and empty |
| RegionCounter.RowFor | utils/utils.py:114-117 | the row of a region copies its tuple's binID, chromosome, bounds, ID and type beside the count, as both loops do (also lines 132-135) |
| RegionCounter.CountInside | utils/utils.py:129 | the strict count never exceeds the number of summits |
| RegionCounter.CountInsideZero | utils/utils.py:129-131 | the count is 0 exactly when no summit lies strictly between start and end |
| RegionCounter.CountInsideAppend | utils/utils.py:129 | counting is additive over concatenated summit lists |
| RegionCounter.CountInsideRemove | utils/utils.py:129 | removing one summit lowers the count by one exactly when that summit is inside |
| RegionCounter.MultisetRemove | utils/utils.py:129 | removing the same summit from two lists that are permutations of each other leaves two permutations |
| RegionCounter.CountInsidePermutation | utils/utils.py:129 | the count depends only on the multiset of summits, not their order |
| RegionCounter.CountInsideBoundaries | utils/utils.py:129 | region 100-200 with summits 100, 150, 199, 200 counts 2: boundary summits never count |
| RegionCounter.GenomeRegionRows | utils/utils.py:124-135 | a chromosome yields at most one row per region |
| RegionCounter.RestrictedRegionRows | utils/utils.py:111-117 | a chromosome yields at most one row per region |
| RegionCounter.GenomeRegionRowsMembers | utils/utils.py:124-135 | a whole-genome row is exactly a region with a non-zero strict count, its fields copied unchanged beside that count |
| RegionCounter.RestrictedRegionRowsMembers | utils/utils.py:111-117 | a restricted row is exactly a region whose ID is a summit key, with count `len(summits[ID])` |
| RegionCounter.RestrictedRegionRowsComplete | utils/utils.py:111-117 | when every ID is a summit key, each region yields exactly one row |
| RegionCounter.GenomeRows | utils/utils.py:119-135 | the whole-genome walk: the rows of each listed chromosome present in both maps, in order; its meaning is stated by the `GenomeRows*` lemmas |
| RegionCounter.RestrictedRows | utils/utils.py:108-117 | the restricted walk: the rows of each listed chromosome that has regions, in order; its meaning is stated by the `RestrictedRows*` lemmas |
| RegionCounter.Mismatch | utils/utils.py:125-127 | some listed chromosome present in both maps stores a region naming another chromosome |
| RegionCounter.GenomeRowsAppend | utils/utils.py:119-135 | whole-genome rows follow `chrom_size_map` order: splitting the chromosome list splits the rows |
| RegionCounter.RestrictedRowsAppend | utils/utils.py:108-117 | restricted rows follow `chrom_size_map` order: splitting the chromosome list splits the rows |
| RegionCounter.ConcatRowsAppend | utils/utils.py:108-135 | both walks over `chrom_size_map` emit chromosome by chromosome: walking a concatenated chromosome list concatenates the two walks' rows |
| RegionCounter.ConcatRowsMembers | utils/utils.py:108-135 | a row is emitted by the walk exactly when some listed chromosome emits it |
| RegionCounter.ConcatRowsStep | utils/utils.py:108-135 | one more chromosome's rows are written after those of the chromosomes before it |
| RegionCounter.GenomeRowsMembers | utils/utils.py:119-135 | whole-genome rows are exactly the rows of listed chromosomes present in both maps |
| RegionCounter.RestrictedRowsMembers | utils/utils.py:108-117 | restricted rows are exactly the rows of listed chromosomes that have regions; summits keyed by chromosome play no part |
| RegionCounter.RestrictedRowsComplete | utils/utils.py:108-117 | when every region on a listed chromosome has a bucket, there is one row per region stored under the listed chromosomes |
| RegionCounter.LoadedBlocklistNeverMismatches | utils/utils.py:124-127 | a dictionary built by `read_blocklist` never triggers the chromosome check |
| RegionCounter.RestrictedRowsStep | utils/utils.py:109-112 | one more chromosome appends its regions' rows, or nothing when it has no regions |
| RegionCounter.RestrictedRegionRowsStep | utils/utils.py:112-117 | one more region appends its row exactly when its ID is a summit key |
| RegionCounter.GenomeRowsStep | utils/utils.py:120-124 | one more chromosome appends its rows, or nothing when it lacks summits or regions |
| RegionCounter.GenomeRegionRowsStep | utils/utils.py:124-135 | one more region appends its row exactly when its count is non-zero |
| RegionCounter.NoMismatchStep | utils/utils.py:124-127 | a chromosome whose regions all name it adds no mismatch |
| RegionCounter.CountRestrictedChromosome | utils/utils.py:111-117 | the table grows by exactly the restricted rows of one chromosome's regions, and its columns stay aligned |
| RegionCounter.CountGenomeChromosome | utils/utils.py:124-135 | None exactly when some region names another chromosome; otherwise the table grows by exactly that chromosome's whole-genome rows |
| RegionCounter.CountReadsInRegions | utils/utils.py:89-136 | restricted mode always yields the restricted rows; whole-genome mode yields None exactly when a visited region is stored under another chromosome, and the whole-genome rows otherwise; the columns are always equally long |
| DeriveFeatures.Configure | deriveBLfeatures.py:34-44 | fails exactly when `--outdir` is empty; the directory ends in '/', extends the argument by at most that '/', and is unchanged when it already ends in '/'; the name is `--name` or `getFileName(fastq)`; the index is `--btidx` or the repository's restricted index; the mode is restricted exactly when `--btidx` is absent |
| DeriveFeatures.WithoutSexChromosomes | deriveBLfeatures.py:55 | keeps exactly the names other than "chrX" and "chrY" |
| DeriveFeatures.WithoutSexChromosomesAppend | deriveBLfeatures.py:55 | the filter keeps the table order |
| DeriveFeatures.ChromosomeKeys | deriveBLfeatures.py:55-56 | `chrom_size_map`'s keys are exactly the table's names other than chrX and chrY, each once |
| DeriveFeatures.WithoutSexChromosomesDistinct | deriveBLfeatures.py:55 | the filter keeps distinct names distinct |
| DeriveFeatures.ChromosomeKeysKeepOrder | deriveBLfeatures.py:55-56 | with distinct names in the size table, `chrom_size_map`'s keys are the table's names in table order without chrX and chrY, the order in which the counter visits them |
| DeriveFeatures.Summit | deriveBLfeatures.py:94 | `int((start+end)/2.0)` truncates the exact half toward zero |
| DeriveFeatures.SummitWithinRead | deriveBLfeatures.py:94 | a read's summit lies between its start and end |
| DeriveFeatures.BucketKey | deriveBLfeatures.py:93 | the bucket of a read: its reference name, or `"chr"` + that name with `--btidx` |
| DeriveFeatures.SummitsOf | deriveBLfeatures.py:90-94 | one bucket's summits in file order, never more than the reads |
| DeriveFeatures.SummitsOfStep | deriveBLfeatures.py:90-94 | one more line appends one summit to its own bucket and leaves every other bucket unchanged |
| DeriveFeatures.Buckets | deriveBLfeatures.py:87-89 | the buckets are exactly the pre-initialised keys |
| DeriveFeatures.SummitsOfMembers | deriveBLfeatures.py:90-94 | a bucket holds exactly the summits of the lines whose key is that bucket |
| DeriveFeatures.SummitTotalStep | deriveBLfeatures.py:93-94 | one more line adds one summit to the buckets exactly when its key is a bucket |
| DeriveFeatures.BucketsConserveReads | deriveBLfeatures.py:90-94 | when every line has a bucket, the buckets hold one summit per line |
| DeriveFeatures.ZeroSummits | deriveBLfeatures.py:87-89 | the buckets start empty |
| DeriveFeatures.BucketSummits | deriveBLfeatures.py:87-94 | succeeds exactly when every line's key is a bucket, giving the buckets of all lines; otherwise it names the first line without a bucket |
| DeriveFeatures.BlocklistIDs | deriveBLfeatures.py:88-89 | the `ID` column of the blocklist, in file order |
| DeriveFeatures.BlocklistIDsMembers | deriveBLfeatures.py:88-89 | the restricted-mode bucket keys are exactly the IDs of the rows |
| DeriveFeatures.BucketNames | deriveBLfeatures.py:87-89 | the bucket keys are exactly the blocklist IDs without `--btidx`, and exactly the size table's names other than chrX and chrY with it |
| DeriveFeatures.ChrPrefixedReadHasNoBucket | deriveBLfeatures.py:84-94 | with `--btidx`, reads already named "chr1", "chr2", ... are keyed "chrchr1", ...: unless the size table lists such names, they have no bucket and stop the script |
| DeriveFeatures.SexChromosomeReadHasNoBucket | deriveBLfeatures.py:55-94 | in whole-genome mode a read on "X" or "Y" has no bucket, so the script stops with KeyError |
| DeriveFeatures.RestrictedModeCoversBlocklist | deriveBLfeatures.py:88-97 | restricted mode gives every region stored under a listed chromosome a bucket, and writes that region's own row, counting its bucket (possibly 0); the rows number exactly those regions |
| DeriveFeatures.DeriveBlocklistFeatures | deriveBLfeatures.py:34-99 | stops at the first exception: empty `--outdir`, unknown blocklist type, a line without a bucket (naming that line and its key); otherwise yields the counter's table for the chosen mode, the counter never returning None |

## Left out

- External tools are not modelled: `get_file_length` (which shells out
  to `wc`) and the bowtie2 / samtools / bedtools calls. The mapped reads
  are a parameter of `DeriveFeatures.DeriveBlocklistFeatures`. The "skip if
  the file exists" checks, `makedirs` and the CSV output are not modelled.
- File and text reading are not modelled. The model receives:
  - the blocklist as rows (`chr`, `start`, `end`, `ID`) rather than a
    tab-separated file read by pandas;
  - the chromosome-size table as its list of names;
  - each BED line as an already-split `(name, start, end)` record, so the
    IndexError or ValueError of a short or non-numeric BED line is not
    modelled.
- Console messages are not modelled: the diagnostic that
  `count_reads_in_regions` prints before returning None (utils/utils.py
  line 126) and the script's progress messages (`deriveBLfeatures.py`
  lines 64, 75 and 86).
- The DataFrame that `count_reads_in_regions` returns is modelled as its
  seven column lists.
- `read_Bowtie_stats` is modelled over the list of lines that
  `split('\n')` produces. The file-existence check and the floating-point
  values of the percentages are not modelled; their division by a total of
  0 is, as the `ZeroTotal` error.
- BowtieStats.ParseInt: accepts an optional sign and ASCII digits only.
  Python's `int()` also accepts underscores between digits and non-ASCII
  decimal digits.
- BowtieStats.IsSpace: is ASCII whitespace only. Python's `str.split()`
  also splits on non-ASCII whitespace.
- DeriveFeatures.Summit: is exact truncation of the half-sum. Python
  computes it in double precision, which differs once `start + end`
  exceeds 2^53.
- Blocklist.LoadedRegionMatchesKey, Blocklist.LoadedEveryRow and
  Blocklist.LoadedListsAscend: are stated for any list of type codes, not
  only those of `bl_type_map`. Every shape fact therefore holds whatever
  the codes are.
- Argument parsing is not modelled: argparse, the `--assembly` choices,
  `--cores`, and the derivation of `script_dir` from `argv[0]`
  (`scriptDir` is a parameter). Chromosome sizes themselves are not
  modelled either, since only the table's key order is used.
- seqBLQscorer.py is not part of this model. It is the classifier that
  consumes the features.
- `count_reads_in_regions` returning None would crash the script at
  `to_csv`. The model shows this cannot happen for a blocklist loaded by
  `read_blocklist` (`RegionCounter.LoadedBlocklistNeverMismatches`), so
  that crash has no error value.
- Full-index chromosome names: a comment of `deriveBLfeatures.py` (lines
  84-85) asks for chromosome names "chr1", "chr2", ... with `--btidx`,
  while line 93 prefixes the read's reference name with "chr". The model
  follows the code, and `DeriveFeatures.ChrPrefixedReadHasNoBucket` shows
  that reads already named "chr1" then have no bucket. Whether the comment
  means the index or the size table is not settled by the code, so no
  corrected behaviour is modelled.
- Type-name example: the counter accepts any region IDs. An ID such as
  `BL_LM_1`, however, would be rejected by `read_blocklist` because its
  type field `'BL'[2:]` is empty. The model follows the code: type names
  are the characters after the first two of the first `_`-separated field.
