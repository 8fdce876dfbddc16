/**
 * The feature-derivation script deriveBLfeatures.py, minus its external
 * tools: argument normalisation, the chromosome list taken from the
 * chromosome-size table, the bucketing of read midpoints ("summits"), and the
 * composition of blocklist loader, bucketing and region counter.
 *
 * The mode is chosen by `--btidx`: without it, reads were mapped to the
 * blocklist-restricted index, the reference names of the mapped reads are
 * blocklist IDs, and summits are bucketed by region ID; with it, reads were
 * mapped to a whole genome, and summits are bucketed by "chr" + reference name.
 */
module DeriveFeatures {
  import opened Wrappers
  import opened FileNames
  import opened Blocklist
  import opened RegionCounter

  // ---------------------------------------------------------------- arguments

  /** The parsed command line; absent options are None. */
  datatype Args = Args(fastq: string, assembly: string, btidx: Option<string>, outdir: string, name: Option<string>)

  /** What the script derives from its arguments before any work starts. */
  datatype Settings = Settings(outdir: string, outName: string, bowtieIndex: string, blMapping: bool)

  /** The ways the script stops with an exception. */
  datatype RunError =
    | EmptyOutdir                                 // `args.outdir[-1]` on "" (IndexError)
    | BadBlocklist(cause: LoadError)              // unknown type name in the blocklist (KeyError)
    | NoBucket(read: nat, key: string)            // a read whose bucket does not exist (KeyError)

  /**
   * Lines 34-44: the output directory gains a trailing '/' when it has none,
   * the output name is the FASTQ file name unless `--name` is given, and
   * without `--btidx` the repository's blocklist-restricted Bowtie2 index is
   * used and the counter runs in blocklist-mapping mode.
   */
  method Configure(args: Args, scriptDir: string) returns (r: Result<Settings, RunError>)
    ensures r.Failure? <==> args.outdir == []
    ensures r.Failure? ==> r.error == EmptyOutdir
    ensures r.Success? ==>
      && EndsWith(r.value.outdir, "/")
      && |args.outdir| <= |r.value.outdir| <= |args.outdir| + 1
      && r.value.outdir[..|args.outdir|] == args.outdir
      && (EndsWith(args.outdir, "/") ==> r.value.outdir == args.outdir)
    ensures r.Success? ==> r.value.outName == if args.name.Some? then args.name.value else GetFileName(args.fastq)
    ensures r.Success? ==>
      r.value.bowtieIndex == if args.btidx.Some? then args.btidx.value else scriptDir + "utils/idxBowtie2/BL/" + args.assembly
    ensures r.Success? ==> (r.value.blMapping <==> args.btidx.None?)
  {
    if args.outdir == [] {
      return Failure(EmptyOutdir);
    }
    var outdir := if args.outdir[|args.outdir| - 1] == '/' then args.outdir else args.outdir + "/";
    var outName := GetFileName(args.fastq);
    if args.name.Some? {
      outName := args.name.value;
    }
    var index: string;
    if args.btidx.Some? {
      index := args.btidx.value;
    } else {
      index := scriptDir + "utils/idxBowtie2/BL/" + args.assembly;
    }
    assert outdir[..|args.outdir|] == args.outdir;
    return Success(Settings(outdir, outName, index, args.btidx.None?));
  }

  // ---------------------------------------------------------------- chromosome list

  /** Line 55: the chromosome names of the size table without "chrX" and "chrY", in table order. */
  function WithoutSexChromosomes(names: seq<string>): (r: seq<string>)
    ensures |r| <= |names|
    ensures forall x :: x in r <==> x in names && x != "chrX" && x != "chrY"
  {
    if names == [] then []
    else
      var m := |names| - 1;
      assert names == names[..m] + [names[m]];
      WithoutSexChromosomes(names[..m]) + if names[m] != "chrX" && names[m] != "chrY" then [names[m]] else []
  }

  /** The filter keeps the order of the table: filtering a concatenation concatenates the filtered parts. */
  lemma {:induction false} WithoutSexChromosomesAppend(a: seq<string>, b: seq<string>)
    ensures WithoutSexChromosomes(a + b) == WithoutSexChromosomes(a) + WithoutSexChromosomes(b)
  {
    if b == [] {
      assert a + b == a;
    } else {
      var m := |b| - 1;
      assert (a + b)[..|a| + m] == a + b[..m];
      assert (a + b)[|a| + m] == b[m];
      WithoutSexChromosomesAppend(a, b[..m]);
    }
  }

  /** Lines 55-56: the key order of `chrom_size_map`. */
  function ChromosomeKeys(names: seq<string>): (r: seq<string>)
    ensures forall x :: x in r <==> x in names && x != "chrX" && x != "chrY"
    ensures forall k, l :: 0 <= k < l < |r| ==> r[k] != r[l]
  {
    DictKeys(WithoutSexChromosomes(names))
  }

  /** The filter keeps distinct names distinct. */
  lemma {:induction false} WithoutSexChromosomesDistinct(names: seq<string>)
    requires forall k, l :: 0 <= k < l < |names| ==> names[k] != names[l]
    ensures forall k, l :: 0 <= k < l < |WithoutSexChromosomes(names)| ==>
      WithoutSexChromosomes(names)[k] != WithoutSexChromosomes(names)[l]
  {
    if names != [] {
      var m := |names| - 1;
      var front := names[..m];
      assert forall k :: 0 <= k < m ==> front[k] == names[k];
      WithoutSexChromosomesDistinct(front);
      assert names[m] !in front;
      assert names[m] !in WithoutSexChromosomes(front);
    }
  }

  /**
   * With distinct names in the size table, `chrom_size_map` keeps the table's
   * order without chrX and chrY: the order in which the counter visits them.
   */
  lemma ChromosomeKeysKeepOrder(names: seq<string>)
    requires forall k, l :: 0 <= k < l < |names| ==> names[k] != names[l]
    ensures ChromosomeKeys(names) == WithoutSexChromosomes(names)
  {
    var kept := WithoutSexChromosomes(names);
    WithoutSexChromosomesDistinct(names);
    DictKeysOfDistinct(kept);
    assert ChromosomeKeys(names) == DictKeys(kept);
  }

  // ---------------------------------------------------------------- summits

  /** One line of the BED file of mapped reads: reference name, start and end. */
  datatype BedRead = BedRead(name: string, start: int, end: int)

  /** `int((start + end) / 2.0)`: the midpoint, truncated toward zero. */
  function Summit(start: int, end: int): (s: int)
    ensures start + end >= 0 ==> 0 <= (start + end) - 2 * s <= 1
    ensures start + end < 0 ==> 0 <= 2 * s - (start + end) <= 1
  {
    var total := start + end;
    if total >= 0 then total / 2 else -((-total) / 2)
  }

  /** A read's summit lies within the read. */
  lemma SummitWithinRead(start: int, end: int)
    requires start <= end
    ensures start <= Summit(start, end) <= end
  {
  }

  /** The bucket a read's summit goes to: its reference name, or "chr" + that name on a whole genome. */
  function BucketKey(read: BedRead, blMapping: bool): string {
    if blMapping then read.name else "chr" + read.name
  }

  /** The summits of the reads whose bucket is `key`, in file order. */
  function SummitsOf(bed: seq<BedRead>, key: string, blMapping: bool): (s: seq<int>)
    ensures |s| <= |bed|
  {
    if bed == [] then []
    else
      var m := |bed| - 1;
      SummitsOf(bed[..m], key, blMapping)
        + if BucketKey(bed[m], blMapping) == key then [Summit(bed[m].start, bed[m].end)] else []
  }

  /**
   * One more read extends its own bucket by its summit and leaves every other
   * bucket as it was; it stays within the pre-initialised keys.
   */
  lemma SummitsOfStep(bed: seq<BedRead>, i: nat, keys: seq<string>, blMapping: bool, summits: map<string, seq<int>>)
    requires i < |bed|
    requires summits.Keys == set k | k in keys
    requires forall k :: k in summits ==> summits[k] == SummitsOf(bed[..i], k, blMapping)
    requires forall j :: 0 <= j < i ==> BucketKey(bed[j], blMapping) in keys
    requires BucketKey(bed[i], blMapping) in summits
    ensures var key := BucketKey(bed[i], blMapping);
      var next := summits[key := summits[key] + [Summit(bed[i].start, bed[i].end)]];
      && next.Keys == set k | k in keys
      && (forall k :: k in next ==> next[k] == SummitsOf(bed[..i + 1], k, blMapping))
      && forall j :: 0 <= j < i + 1 ==> BucketKey(bed[j], blMapping) in keys
  {
    assert bed[..i + 1][..i] == bed[..i];
  }

  /** The buckets after all reads: every pre-initialised key with its summits in file order. */
  function Buckets(bed: seq<BedRead>, keys: seq<string>, blMapping: bool): (b: map<string, seq<int>>)
    ensures b.Keys == set k | k in keys
  {
    map k | k in keys :: SummitsOf(bed, k, blMapping)
  }

  /** A summit sits in a bucket exactly when some read of that bucket has it as its midpoint. */
  lemma {:induction false} SummitsOfMembers(bed: seq<BedRead>, key: string, blMapping: bool)
    ensures forall s :: s in SummitsOf(bed, key, blMapping) <==>
      exists i :: 0 <= i < |bed| && BucketKey(bed[i], blMapping) == key && s == Summit(bed[i].start, bed[i].end)
  {
    if bed != [] {
      var m := |bed| - 1;
      SummitsOfMembers(bed[..m], key, blMapping);
      assert forall i :: 0 <= i < m ==> bed[..m][i] == bed[i];
    }
  }

  /** The number of summits held in the buckets of `keys`. */
  function SummitTotal(bed: seq<BedRead>, keys: seq<string>, blMapping: bool): nat
  {
    if keys == [] then 0
    else
      var n := |keys| - 1;
      SummitTotal(bed, keys[..n], blMapping) + |SummitsOf(bed, keys[n], blMapping)|
  }

  /** One more read, whose bucket is `key`, adds one summit to the buckets of `keys` when `key` is one of them, and none otherwise. */
  lemma {:induction false} SummitTotalStep(bed: seq<BedRead>, keys: seq<string>, blMapping: bool, key: string)
    requires bed != [] && key == BucketKey(bed[|bed| - 1], blMapping)
    requires forall k, l :: 0 <= k < l < |keys| ==> keys[k] != keys[l]
    ensures SummitTotal(bed, keys, blMapping) == SummitTotal(bed[..|bed| - 1], keys, blMapping) + if key in keys then 1 else 0
  {
    if keys != [] {
      var n := |keys| - 1;
      var front := keys[..n];
      assert forall k, l :: 0 <= k < l < n ==> front[k] == keys[k] && front[l] == keys[l];
      SummitTotalStep(bed, front, blMapping, key);
      var m := |bed| - 1;
      assert |SummitsOf(bed, keys[n], blMapping)|
        == |SummitsOf(bed[..m], keys[n], blMapping)| + if key == keys[n] then 1 else 0;
      assert key in keys <==> key in front || key == keys[n] by {
        assert keys == front + [keys[n]];
      }
      if key == keys[n] {
        assert key !in front;
      }
    }
  }

  /**
   * Each read puts exactly one summit into exactly one bucket: when every
   * read has a bucket, the buckets together hold one summit per read.
   */
  lemma {:induction false} BucketsConserveReads(bed: seq<BedRead>, keys: seq<string>, blMapping: bool)
    requires forall k, l :: 0 <= k < l < |keys| ==> keys[k] != keys[l]
    requires forall i :: 0 <= i < |bed| ==> BucketKey(bed[i], blMapping) in keys
    ensures SummitTotal(bed, keys, blMapping) == |bed|
  {
    if bed == [] {
      ZeroSummits(keys, blMapping);
    } else {
      var m := |bed| - 1;
      assert forall i :: 0 <= i < m ==> bed[..m][i] == bed[i];
      BucketsConserveReads(bed[..m], keys, blMapping);
      SummitTotalStep(bed, keys, blMapping, BucketKey(bed[m], blMapping));
    }
  }

  /** Without reads every bucket is empty. */
  lemma {:induction false} ZeroSummits(keys: seq<string>, blMapping: bool)
    ensures SummitTotal([], keys, blMapping) == 0
  {
    if keys != [] {
      ZeroSummits(keys[..|keys| - 1], blMapping);
    }
  }

  /**
   * Lines 87-94: the buckets are created empty for every key, then each read
   * appends its summit to its bucket; a read whose bucket does not exist
   * stops the script.
   */
  method BucketSummits(bed: seq<BedRead>, keys: seq<string>, blMapping: bool)
    returns (r: Result<map<string, seq<int>>, RunError>)
    ensures r.Success? <==> forall i :: 0 <= i < |bed| ==> BucketKey(bed[i], blMapping) in keys
    ensures r.Success? ==> r.value == Buckets(bed, keys, blMapping)
    ensures r.Failure? ==>
      && r.error.NoBucket? && r.error.read < |bed|
      && r.error.key == BucketKey(bed[r.error.read], blMapping) && r.error.key !in keys
      && forall i :: 0 <= i < r.error.read ==> BucketKey(bed[i], blMapping) in keys
  {
    var summits: map<string, seq<int>> := map k | k in keys :: [];
    for i := 0 to |bed|
      invariant summits.Keys == set k | k in keys
      invariant forall k :: k in summits ==> summits[k] == SummitsOf(bed[..i], k, blMapping)
      invariant forall j :: 0 <= j < i ==> BucketKey(bed[j], blMapping) in keys
    {
      var read := bed[i];
      var key := BucketKey(read, blMapping);
      if key !in summits {
        return Failure(NoBucket(i, key));
      }
      SummitsOfStep(bed, i, keys, blMapping, summits);
      summits := summits[key := summits[key] + [Summit(read.start, read.end)]];
    }
    assert bed[..|bed|] == bed;
    assert summits == Buckets(bed, keys, blMapping);
    return Success(summits);
  }

  // ---------------------------------------------------------------- the whole script

  /** The `ID` column of the blocklist file, in file order: the restricted-mode bucket keys. */
  function BlocklistIDs(rows: seq<BedRow>): seq<string> {
    seq(|rows|, i requires 0 <= i < |rows| => rows[i].id)
  }

  /** The restricted-mode bucket keys are exactly the IDs of the rows. */
  lemma BlocklistIDsMembers(rows: seq<BedRow>)
    ensures forall x :: x in BlocklistIDs(rows) <==> exists i :: 0 <= i < |rows| && rows[i].id == x
  {
    var ids := BlocklistIDs(rows);
    forall i | 0 <= i < |rows|
      ensures rows[i].id in ids
    {
      assert ids[i] == rows[i].id;
    }
  }

  /** The bucket keys of a mode: blocklist IDs without `--btidx`, the listed chromosomes with it. */
  function BucketNames(rows: seq<BedRow>, sizeNames: seq<string>, blMapping: bool): (r: seq<string>)
    ensures blMapping ==> forall x :: x in r <==> exists i :: 0 <= i < |rows| && rows[i].id == x
    ensures !blMapping ==> forall x :: x in r <==> x in sizeNames && x != "chrX" && x != "chrY"
  {
    BlocklistIDsMembers(rows);
    if blMapping then BlocklistIDs(rows) else ChromosomeKeys(sizeNames)
  }

  /**
   * Reads mapped to "X" or "Y" on a whole genome have no bucket, since the
   * chromosome list drops "chrX" and "chrY": they stop the script.
   */
  lemma SexChromosomeReadHasNoBucket(sizeNames: seq<string>, read: BedRead)
    requires read.name == "X" || read.name == "Y"
    ensures BucketKey(read, false) !in ChromosomeKeys(sizeNames)
  {
    assert BucketKey(read, false) == "chrX" || BucketKey(read, false) == "chrY";
  }

  /**
   * Reads already named "chr1", "chr2", ... on a whole genome are keyed
   * "chrchr1", "chrchr2", ...: unless the size table itself lists such names,
   * they have no bucket and stop the script.
   */
  lemma ChrPrefixedReadHasNoBucket(sizeNames: seq<string>, read: BedRead)
    requires |read.name| >= 3 && read.name[..3] == "chr"
    requires forall n :: n in sizeNames ==> |n| < 6 || n[..6] != "chrchr"
    ensures BucketKey(read, false) !in ChromosomeKeys(sizeNames)
  {
    var key := BucketKey(read, false);
    assert key[..6] == "chr" + read.name[..3];
  }

  /**
   * Restricted mode: every region of the blocklist has a bucket, so the
   * counter writes one row, possibly with count 0, for every region stored
   * under a listed chromosome.
   */
  lemma RestrictedModeCoversBlocklist(rows: seq<BedRow>, codes: seq<int>, chroms: seq<string>, summits: map<string, seq<int>>)
    requires |rows| == |codes|
    requires summits.Keys == set k | k in BlocklistIDs(rows)
    ensures var regions := GroupByChrom(Tuples(rows, codes));
      forall i, k :: 0 <= i < |chroms| && chroms[i] in regions && 0 <= k < |regions[chroms[i]]| ==>
        && regions[chroms[i]][k].id in summits
        && RowFor(regions[chroms[i]][k], |summits[regions[chroms[i]][k].id]|) in RestrictedRows(chroms, summits, regions)
    ensures var regions := GroupByChrom(Tuples(rows, codes));
      |RestrictedRows(chroms, summits, regions)| == RegionTotal(regions, chroms)
  {
    var regions: map<string, seq<Region>> := GroupByChrom(Tuples(rows, codes));
    RestrictedRowsMembers(chroms, summits, regions);
    forall i, k | 0 <= i < |chroms| && chroms[i] in regions && 0 <= k < |regions[chroms[i]]|
      ensures regions[chroms[i]][k].id in summits
      ensures RowFor(regions[chroms[i]][k], |summits[regions[chroms[i]][k].id]|) in RestrictedRows(chroms, summits, regions)
    {
      var c := chroms[i];
      var x := regions[c][k];
      LoadedRegionMatchesKey(rows, codes, c, k);
      var j := x.binID - 1;
      assert x.id == rows[j].id;
      var ids := BlocklistIDs(rows);
      assert ids[j] == rows[j].id && ids[j] in ids;
      RestrictedRegionRowsMembers(regions[c], summits);
      assert RowFor(x, |summits[x.id]|) in RestrictedRegionRows(regions[c], summits);
    }
    RestrictedRowsComplete(chroms, summits, regions);
  }

  /** What the script writes: its settings and the feature table. */
  datatype Output = Output(settings: Settings, features: Table)

  /**
   * The script from argument handling to the feature table, given the
   * blocklist rows, the chromosome names of the size table and the BED lines
   * of the mapped reads. It stops at the first exception the script raises;
   * the counter's None never occurs, because a loaded blocklist stores every
   * region under its own chromosome.
   */
  method DeriveBlocklistFeatures(
    args: Args, scriptDir: string, blRows: seq<BedRow>, sizeNames: seq<string>, bed: seq<BedRead>)
    returns (r: Result<Output, RunError>)
    ensures args.outdir == [] ==> r == Failure(EmptyOutdir)
    ensures args.outdir != [] && !AllTyped(blRows) ==> r.Failure? && r.error.BadBlocklist?
    ensures r.Success? <==>
      && args.outdir != [] && AllTyped(blRows)
      && forall i :: 0 <= i < |bed| ==> BucketKey(bed[i], args.btidx.None?) in BucketNames(blRows, sizeNames, args.btidx.None?)
    ensures r.Failure? && args.outdir != [] && AllTyped(blRows) ==>
      && r.error.NoBucket? && r.error.read < |bed|
      && r.error.key == BucketKey(bed[r.error.read], args.btidx.None?)
      && r.error.key !in BucketNames(blRows, sizeNames, args.btidx.None?)
    ensures r.Success? ==>
      && AllTyped(blRows)
      && r.value.features.WellFormed()
      && var regions := GroupByChrom(Tuples(blRows, TypeCodes(blRows)));
         var chroms := ChromosomeKeys(sizeNames);
         var summits := Buckets(bed, BucketNames(blRows, sizeNames, args.btidx.None?), args.btidx.None?);
         if args.btidx.None? then
           && r.value.features.Rows() == RestrictedRows(chroms, summits, regions)
           && |r.value.features.Rows()| == RegionTotal(regions, chroms)
         else
           r.value.features.Rows() == GenomeRows(chroms, summits, regions)
  {
    var settings :- Configure(args, scriptDir);
    var loaded := ReadBlocklist(blRows);
    if loaded.Failure? {
      return Failure(BadBlocklist(loaded.error));
    }
    var blocklist := loaded.value;
    var chroms := ChromosomeKeys(sizeNames);
    var keys := BucketNames(blRows, sizeNames, settings.blMapping);
    var summits :- BucketSummits(bed, keys, settings.blMapping);
    ghost var codes := TypeCodes(blRows);
    if settings.blMapping {
      RestrictedModeCoversBlocklist(blRows, codes, chroms, summits);
    } else {
      LoadedBlocklistNeverMismatches(blRows, codes, chroms, summits);
    }
    var counted := CountReadsInRegions(summits, blocklist, chroms, settings.blMapping);
    return Success(Output(settings, counted.value));
  }
}
