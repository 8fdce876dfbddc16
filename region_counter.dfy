/**
 * The region counter `count_reads_in_regions` (utils/utils.py). It walks the
 * chromosomes in the order of the chromosome-size table and, on each, the
 * blocklist regions in list order, appending one row per counted region to
 * the seven parallel columns of the feature table.
 *
 * Restricted mode (`bl_mapping`): summits are already bucketed by region ID;
 * a region whose ID is a bucket key gets a row with that bucket's size.
 * Whole-genome mode: summits are bucketed by chromosome; a region gets a row
 * when some summit lies strictly between its start and end, and a region
 * stored under a key other than its own chromosome aborts the count (None).
 */
module RegionCounter {
  import opened Wrappers
  import opened Blocklist

  /** One row of the feature table, in the source's column order. */
  datatype Row = Row(binID: int, chr: string, start: int, end: int, count: int, blID: string, blType: int)

  /** The `bincov` dictionary: seven parallel column lists. */
  datatype Table = Table(
    binID: seq<int>, chr: seq<string>, start: seq<int>, end: seq<int>,
    count: seq<int>, blID: seq<string>, blType: seq<int>)
  {
    /** All seven columns have the same length. */
    predicate WellFormed() {
      && |chr| == |binID| && |start| == |binID| && |end| == |binID|
      && |count| == |binID| && |blID| == |binID| && |blType| == |binID|
    }

    /** The table read row by row. */
    function Rows(): seq<Row>
      requires WellFormed()
    {
      seq(|binID|, k requires 0 <= k < |binID| =>
        Row(binID[k], chr[k], start[k], end[k], count[k], blID[k], blType[k]))
    }

    /** Appending one value to each column appends one row and keeps the columns aligned. */
    function Append(row: Row): (t: Table)
      requires WellFormed()
      ensures t.WellFormed()
      ensures t.Rows() == Rows() + [row]
    {
      var t := Table(binID + [row.binID], chr + [row.chr], start + [row.start], end + [row.end],
        count + [row.count], blID + [row.blID], blType + [row.blType]);
      assert forall k :: 0 <= k < |binID| ==> t.Rows()[k] == Rows()[k];
      t
    }
  }

  /** The empty `bincov`. */
  function EmptyTable(): (t: Table)
    ensures t.WellFormed() && t.Rows() == []
  {
    Table([], [], [], [], [], [], [])
  }

  /** The row the counter writes for a region: the region's fields with the count. */
  function RowFor(region: Region, count: int): Row {
    Row(region.binID, region.chr, region.start, region.end, count, region.id, region.blType)
  }

  /**
   * `len(list(filter(lambda x: x > start and x < end, summits)))`: how many
   * summits, duplicates included, lie strictly between `lo` and `hi`.
   */
  function CountInside(summits: seq<int>, lo: int, hi: int): (n: nat)
    ensures n <= |summits|
  {
    if summits == [] then 0
    else
      var m := |summits| - 1;
      CountInside(summits[..m], lo, hi) + if lo < summits[m] < hi then 1 else 0
  }

  /** The count is zero exactly when no summit lies strictly inside the region. */
  lemma {:induction false} CountInsideZero(summits: seq<int>, lo: int, hi: int)
    ensures CountInside(summits, lo, hi) == 0 <==> forall k :: 0 <= k < |summits| ==> !(lo < summits[k] < hi)
  {
    if summits != [] {
      var m := |summits| - 1;
      CountInsideZero(summits[..m], lo, hi);
      assert forall k :: 0 <= k < m ==> summits[..m][k] == summits[k];
    }
  }

  /** Counting over a concatenation adds the counts of the parts. */
  lemma {:induction false} CountInsideAppend(a: seq<int>, b: seq<int>, lo: int, hi: int)
    ensures CountInside(a + b, lo, hi) == CountInside(a, lo, hi) + CountInside(b, lo, hi)
  {
    if b != [] {
      var m := |b| - 1;
      assert (a + b)[..|a| + m] == a + b[..m];
      assert (a + b)[|a| + m] == b[m];
      CountInsideAppend(a, b[..m], lo, hi);
      assert CountInside(b, lo, hi) == CountInside(b[..m], lo, hi) + if lo < b[m] < hi then 1 else 0;
    } else {
      assert a + b == a;
    }
  }

  /** Taking one summit out of the list lowers the count by one exactly when that summit is inside. */
  lemma CountInsideRemove(b: seq<int>, j: nat, lo: int, hi: int)
    requires j < |b|
    ensures CountInside(b, lo, hi) == CountInside(b[..j] + b[j + 1..], lo, hi) + if lo < b[j] < hi then 1 else 0
  {
    assert b == b[..j] + [b[j]] + b[j + 1..];
    CountInsideAppend(b[..j] + [b[j]], b[j + 1..], lo, hi);
    CountInsideAppend(b[..j], [b[j]], lo, hi);
    CountInsideAppend(b[..j], b[j + 1..], lo, hi);
    assert [b[j]][..0] == [];
  }

  /** Removing the same value from two lists with equal multisets leaves equal multisets. */
  lemma MultisetRemove(a: seq<int>, b: seq<int>, j: nat)
    requires a != [] && j < |b| && b[j] == a[|a| - 1]
    requires multiset(a) == multiset(b)
    ensures multiset(a[..|a| - 1]) == multiset(b[..j] + b[j + 1..])
  {
    var x := b[j];
    assert a == a[..|a| - 1] + [x];
    assert b == b[..j] + [x] + b[j + 1..];
    assert multiset(a[..|a| - 1]) == multiset(a) - multiset{x};
    assert multiset(b[..j] + b[j + 1..]) == multiset(b) - multiset{x};
  }

  /** The count depends only on the multiset of summits, not on their order. */
  lemma {:induction false} CountInsidePermutation(a: seq<int>, b: seq<int>, lo: int, hi: int)
    requires multiset(a) == multiset(b)
    ensures CountInside(a, lo, hi) == CountInside(b, lo, hi)
  {
    if a == [] {
      assert |b| == |multiset(b)| == 0;
    } else {
      var m := |a| - 1;
      assert a[m] in multiset(b) by { assert a[m] in multiset(a); }
      var j :| 0 <= j < |b| && b[j] == a[m];
      MultisetRemove(a, b, j);
      CountInsidePermutation(a[..m], b[..j] + b[j + 1..], lo, hi);
      CountInsideRemove(b, j, lo, hi);
    }
  }

  /** Summits on the region boundaries never count: region 100-200 with summits 100, 150, 199, 200 counts 2. */
  lemma CountInsideBoundaries()
    ensures CountInside([100, 150, 199, 200], 100, 200) == 2
  {
    var s := [100, 150, 199, 200];
    assert s[..3] == [100, 150, 199] && s[..3][..2] == [100, 150] && s[..3][..2][..1] == [100];
    assert CountInside([100], 100, 200) == 0 by { assert [100][..0] == []; }
    assert CountInside([100, 150], 100, 200) == 1;
    assert CountInside([100, 150, 199], 100, 200) == 2;
  }

  // ---------------------------------------------------------------- the walk over chromosomes

  /** The rows of each chromosome of `chroms`, concatenated in the order of `chroms`. */
  function ConcatRows(chroms: seq<string>, rowsOf: string -> seq<Row>): seq<Row> {
    if chroms == [] then []
    else
      var m := |chroms| - 1;
      ConcatRows(chroms[..m], rowsOf) + rowsOf(chroms[m])
  }

  /** The walk keeps the chromosome order: walking a concatenation concatenates the walks. */
  lemma {:induction false} ConcatRowsAppend(a: seq<string>, b: seq<string>, rowsOf: string -> seq<Row>)
    ensures ConcatRows(a + b, rowsOf) == ConcatRows(a, rowsOf) + ConcatRows(b, rowsOf)
  {
    if b == [] {
      assert a + b == a;
    } else {
      var m := |b| - 1;
      assert (a + b)[..|a| + m] == a + b[..m];
      assert (a + b)[|a| + m] == b[m];
      ConcatRowsAppend(a, b[..m], rowsOf);
    }
  }

  /** One more chromosome appends its rows after those of the chromosomes before it. */
  lemma ConcatRowsStep(chroms: seq<string>, i: nat, rowsOf: string -> seq<Row>)
    requires i < |chroms|
    ensures ConcatRows(chroms[..i + 1], rowsOf) == ConcatRows(chroms[..i], rowsOf) + rowsOf(chroms[i])
  {
    assert chroms[..i + 1][..i] == chroms[..i];
  }

  /** The walk's rows are exactly the rows of its chromosomes. */
  lemma {:induction false} ConcatRowsMembers(chroms: seq<string>, rowsOf: string -> seq<Row>)
    ensures forall row :: row in ConcatRows(chroms, rowsOf) <==> exists i :: 0 <= i < |chroms| && row in rowsOf(chroms[i])
  {
    if chroms != [] {
      var m := |chroms| - 1;
      var prefix := chroms[..m];
      ConcatRowsMembers(prefix, rowsOf);
      assert forall i :: 0 <= i < m ==> prefix[i] == chroms[i];
    }
  }

  // ---------------------------------------------------------------- whole-genome mode

  /** Whole-genome rows of one chromosome: each region with a non-zero count, in list order. */
  function GenomeRegionRows(regions: seq<Region>, summits: seq<int>): (r: seq<Row>)
    ensures |r| <= |regions|
  {
    if regions == [] then []
    else
      var m := |regions| - 1;
      var region := regions[m];
      var count := CountInside(summits, region.start, region.end);
      GenomeRegionRows(regions[..m], summits) + if count != 0 then [RowFor(region, count)] else []
  }

  /** The rows a whole-genome walk writes for chromosome `c`: none unless it has both summits and regions. */
  function GenomeChromosome(summits: map<string, seq<int>>, regions: map<string, seq<Region>>): string -> seq<Row> {
    c => if c in summits && c in regions then GenomeRegionRows(regions[c], summits[c]) else []
  }

  /** Whole-genome rows of the chromosomes in `chroms`, in that order. */
  function GenomeRows(chroms: seq<string>, summits: map<string, seq<int>>, regions: map<string, seq<Region>>): seq<Row> {
    ConcatRows(chroms, GenomeChromosome(summits, regions))
  }

  /** Some region the whole-genome walk visits is stored under a key other than its chromosome. */
  predicate Mismatch(chroms: seq<string>, summits: map<string, seq<int>>, regions: map<string, seq<Region>>) {
    exists i, k :: 0 <= i < |chroms| && chroms[i] in summits && chroms[i] in regions
      && 0 <= k < |regions[chroms[i]]| && regions[chroms[i]][k].chr != chroms[i]
  }

  // ---------------------------------------------------------------- restricted mode

  /** Restricted rows of one chromosome: each region whose ID is a bucket key, with the bucket's size. */
  function RestrictedRegionRows(regions: seq<Region>, summits: map<string, seq<int>>): (r: seq<Row>)
    ensures |r| <= |regions|
  {
    if regions == [] then []
    else
      var m := |regions| - 1;
      var region := regions[m];
      RestrictedRegionRows(regions[..m], summits)
        + if region.id in summits then [RowFor(region, |summits[region.id]|)] else []
  }

  /** The rows a restricted walk writes for chromosome `c`: none unless it has regions. */
  function RestrictedChromosome(summits: map<string, seq<int>>, regions: map<string, seq<Region>>): string -> seq<Row> {
    c => if c in regions then RestrictedRegionRows(regions[c], summits) else []
  }

  /** Restricted rows of the chromosomes in `chroms`, in that order. */
  function RestrictedRows(chroms: seq<string>, summits: map<string, seq<int>>, regions: map<string, seq<Region>>): seq<Row> {
    ConcatRows(chroms, RestrictedChromosome(summits, regions))
  }

  // ---------------------------------------------------------------- what the rows are

  /**
   * A whole-genome row of one chromosome is exactly a region of its list with
   * a non-zero strict count, its fields copied unchanged beside that count.
   */
  lemma {:induction false} GenomeRegionRowsMembers(regions: seq<Region>, summits: seq<int>)
    ensures forall row :: row in GenomeRegionRows(regions, summits) <==>
      exists k :: 0 <= k < |regions| && CountInside(summits, regions[k].start, regions[k].end) != 0
        && row == RowFor(regions[k], CountInside(summits, regions[k].start, regions[k].end))
  {
    if regions != [] {
      var m := |regions| - 1;
      var prefix := regions[..m];
      GenomeRegionRowsMembers(prefix, summits);
      assert forall k :: 0 <= k < m ==> prefix[k] == regions[k];
      forall row | row in GenomeRegionRows(regions, summits)
        ensures exists k :: 0 <= k < |regions| && CountInside(summits, regions[k].start, regions[k].end) != 0
                              && row == RowFor(regions[k], CountInside(summits, regions[k].start, regions[k].end))
      {
        if row !in GenomeRegionRows(prefix, summits) {
          assert CountInside(summits, regions[m].start, regions[m].end) != 0;
        }
      }
    }
  }

  /** A restricted row of one chromosome is exactly a region of its list whose ID is a bucket key, counted by that bucket's size. */
  lemma {:induction false} RestrictedRegionRowsMembers(regions: seq<Region>, summits: map<string, seq<int>>)
    ensures forall row :: row in RestrictedRegionRows(regions, summits) <==>
      exists k :: 0 <= k < |regions| && regions[k].id in summits && row == RowFor(regions[k], |summits[regions[k].id]|)
  {
    if regions != [] {
      var m := |regions| - 1;
      var prefix := regions[..m];
      RestrictedRegionRowsMembers(prefix, summits);
      assert forall k :: 0 <= k < m ==> prefix[k] == regions[k];
      forall row | row in RestrictedRegionRows(regions, summits)
        ensures exists k :: 0 <= k < |regions| && regions[k].id in summits && row == RowFor(regions[k], |summits[regions[k].id]|)
      {
        if row !in RestrictedRegionRows(prefix, summits) {
          assert regions[m].id in summits;
        }
      }
    }
  }

  /** A region list whose IDs are all bucket keys yields one restricted row per region. */
  lemma {:induction false} RestrictedRegionRowsComplete(regions: seq<Region>, summits: map<string, seq<int>>)
    requires forall k :: 0 <= k < |regions| ==> regions[k].id in summits
    ensures |RestrictedRegionRows(regions, summits)| == |regions|
  {
    if regions != [] {
      var m := |regions| - 1;
      assert forall k :: 0 <= k < m ==> regions[..m][k] == regions[k];
      RestrictedRegionRowsComplete(regions[..m], summits);
    }
  }

  /** Whole-genome rows follow the chromosome order: a split of the order splits the rows. */
  lemma GenomeRowsAppend(a: seq<string>, b: seq<string>, summits: map<string, seq<int>>, regions: map<string, seq<Region>>)
    ensures GenomeRows(a + b, summits, regions) == GenomeRows(a, summits, regions) + GenomeRows(b, summits, regions)
  {
    ConcatRowsAppend(a, b, GenomeChromosome(summits, regions));
  }

  /** Restricted rows follow the chromosome order: a split of the order splits the rows. */
  lemma RestrictedRowsAppend(a: seq<string>, b: seq<string>, summits: map<string, seq<int>>, regions: map<string, seq<Region>>)
    ensures RestrictedRows(a + b, summits, regions) == RestrictedRows(a, summits, regions) + RestrictedRows(b, summits, regions)
  {
    ConcatRowsAppend(a, b, RestrictedChromosome(summits, regions));
  }

  /** Whole-genome rows are exactly the rows of the listed chromosomes present in both the summits and the regions. */
  lemma GenomeRowsMembers(chroms: seq<string>, summits: map<string, seq<int>>, regions: map<string, seq<Region>>)
    ensures forall row :: row in GenomeRows(chroms, summits, regions) <==>
      exists i :: 0 <= i < |chroms| && chroms[i] in summits && chroms[i] in regions
        && row in GenomeRegionRows(regions[chroms[i]], summits[chroms[i]])
  {
    ConcatRowsMembers(chroms, GenomeChromosome(summits, regions));
  }

  /** Restricted rows are exactly the rows of the listed chromosomes that have regions. */
  lemma RestrictedRowsMembers(chroms: seq<string>, summits: map<string, seq<int>>, regions: map<string, seq<Region>>)
    ensures forall row :: row in RestrictedRows(chroms, summits, regions) <==>
      exists i :: 0 <= i < |chroms| && chroms[i] in regions && row in RestrictedRegionRows(regions[chroms[i]], summits)
  {
    ConcatRowsMembers(chroms, RestrictedChromosome(summits, regions));
  }

  /**
   * When every region on a listed chromosome has a bucket, restricted mode
   * writes one row per region stored under the listed chromosomes.
   */
  lemma {:induction false} RestrictedRowsComplete(chroms: seq<string>, summits: map<string, seq<int>>, regions: map<string, seq<Region>>)
    requires forall i, k :: 0 <= i < |chroms| && chroms[i] in regions && 0 <= k < |regions[chroms[i]]| ==>
      regions[chroms[i]][k].id in summits
    ensures |RestrictedRows(chroms, summits, regions)| == RegionTotal(regions, chroms)
  {
    if chroms != [] {
      var m := |chroms| - 1;
      assert forall i :: 0 <= i < m ==> chroms[..m][i] == chroms[i];
      RestrictedRowsComplete(chroms[..m], summits, regions);
      RestrictedRowsStep(chroms, m, summits, regions);
      assert chroms[..m + 1] == chroms;
      if chroms[m] in regions {
        RestrictedRegionRowsComplete(regions[chroms[m]], summits);
      }
    }
  }

  /** A blocklist loaded by `read_blocklist` never triggers the whole-genome chromosome check. */
  lemma LoadedBlocklistNeverMismatches(rows: seq<BedRow>, codes: seq<int>, chroms: seq<string>, summits: map<string, seq<int>>)
    requires |rows| == |codes|
    ensures !Mismatch(chroms, summits, GroupByChrom(Tuples(rows, codes)))
  {
    var regions: map<string, seq<Region>> := GroupByChrom(Tuples(rows, codes));
    forall i, k | 0 <= i < |chroms| && chroms[i] in summits && chroms[i] in regions && 0 <= k < |regions[chroms[i]]|
      ensures regions[chroms[i]][k].chr == chroms[i]
    {
      LoadedRegionMatchesKey(rows, codes, chroms[i], k);
    }
  }

  // ---------------------------------------------------------------- one step of the walk

  /** The restricted rows of one more chromosome follow those of the chromosomes before it. */
  lemma RestrictedRowsStep(chroms: seq<string>, i: nat, summits: map<string, seq<int>>, regions: map<string, seq<Region>>)
    requires i < |chroms|
    ensures RestrictedRows(chroms[..i + 1], summits, regions) == RestrictedRows(chroms[..i], summits, regions)
      + if chroms[i] in regions then RestrictedRegionRows(regions[chroms[i]], summits) else []
  {
    ConcatRowsStep(chroms, i, RestrictedChromosome(summits, regions));
  }

  /** The restricted row of one more region, if any, follows those of the regions before it. */
  lemma RestrictedRegionRowsStep(list: seq<Region>, j: nat, summits: map<string, seq<int>>)
    requires j < |list|
    ensures RestrictedRegionRows(list[..j + 1], summits) == RestrictedRegionRows(list[..j], summits)
      + if list[j].id in summits then [RowFor(list[j], |summits[list[j].id]|)] else []
  {
    assert list[..j + 1][..j] == list[..j];
  }

  /** The whole-genome rows of one more chromosome follow those of the chromosomes before it. */
  lemma GenomeRowsStep(chroms: seq<string>, i: nat, summits: map<string, seq<int>>, regions: map<string, seq<Region>>)
    requires i < |chroms|
    ensures GenomeRows(chroms[..i + 1], summits, regions) == GenomeRows(chroms[..i], summits, regions)
      + if chroms[i] in summits && chroms[i] in regions then GenomeRegionRows(regions[chroms[i]], summits[chroms[i]]) else []
  {
    ConcatRowsStep(chroms, i, GenomeChromosome(summits, regions));
  }

  /** The whole-genome row of one more region, if any, follows those of the regions before it. */
  lemma GenomeRegionRowsStep(list: seq<Region>, j: nat, summits: seq<int>)
    requires j < |list|
    ensures var count := CountInside(summits, list[j].start, list[j].end);
      GenomeRegionRows(list[..j + 1], summits) == GenomeRegionRows(list[..j], summits)
        + if count != 0 then [RowFor(list[j], count)] else []
  {
    assert list[..j + 1][..j] == list[..j];
  }

  /** A chromosome whose stored regions all name it adds no mismatch to the walk. */
  lemma NoMismatchStep(chroms: seq<string>, i: nat, summits: map<string, seq<int>>, regions: map<string, seq<Region>>)
    requires i < |chroms|
    requires !Mismatch(chroms[..i], summits, regions)
    requires chroms[i] in summits && chroms[i] in regions ==>
      forall k :: 0 <= k < |regions[chroms[i]]| ==> regions[chroms[i]][k].chr == chroms[i]
    ensures !Mismatch(chroms[..i + 1], summits, regions)
  {
    assert forall l :: 0 <= l < i ==> chroms[..i + 1][l] == chroms[..i][l];
  }

  // ---------------------------------------------------------------- the counter

  /**
   * The inner loop of restricted mode (lines 111-117): the rows of one
   * chromosome's regions are appended to the table in list order.
   */
  method CountRestrictedChromosome(bincov: Table, list: seq<Region>, summits: map<string, seq<int>>)
    returns (t: Table)
    requires bincov.WellFormed()
    ensures t.WellFormed()
    ensures t.Rows() == bincov.Rows() + RestrictedRegionRows(list, summits)
  {
    t := bincov;
    for j := 0 to |list|
      invariant t.WellFormed()
      invariant t.Rows() == bincov.Rows() + RestrictedRegionRows(list[..j], summits)
    {
      var region := list[j];
      RestrictedRegionRowsStep(list, j, summits);
      if region.id in summits {
        t := t.Append(RowFor(region, |summits[region.id]|));
      }
    }
    assert list[..|list|] == list;
  }

  /**
   * The inner loop of whole-genome mode (lines 124-135): the rows of one
   * chromosome's regions are appended in list order, and the first region
   * that names another chromosome aborts the count.
   */
  method CountGenomeChromosome(bincov: Table, chrom: string, list: seq<Region>, summits: seq<int>)
    returns (r: Option<Table>)
    requires bincov.WellFormed()
    ensures r.None? <==> exists k :: 0 <= k < |list| && list[k].chr != chrom
    ensures r.Some? ==> r.value.WellFormed() && r.value.Rows() == bincov.Rows() + GenomeRegionRows(list, summits)
  {
    var t := bincov;
    for j := 0 to |list|
      invariant t.WellFormed()
      invariant t.Rows() == bincov.Rows() + GenomeRegionRows(list[..j], summits)
      invariant forall k :: 0 <= k < j ==> list[k].chr == chrom
    {
      var region := list[j];
      if chrom != region.chr {
        return None;
      }
      GenomeRegionRowsStep(list, j, summits);
      var count := CountInside(summits, region.start, region.end);
      if count != 0 {
        t := t.Append(RowFor(region, count));
      }
    }
    assert list[..|list|] == list;
    return Some(t);
  }

  /**
   * `count_reads_in_regions(summits, regions, chrom_size_map, bl_mapping)`,
   * with `chroms` the key order of `chrom_size_map`. Restricted mode always
   * yields a table; whole-genome mode yields None exactly when a visited
   * region is stored under a key other than its own chromosome.
   */
  method CountReadsInRegions(
    summits: map<string, seq<int>>, regions: map<string, seq<Region>>, chroms: seq<string>, blMapping: bool)
    returns (r: Option<Table>)
    ensures r.Some? ==> r.value.WellFormed()
    ensures blMapping ==> r.Some? && r.value.Rows() == RestrictedRows(chroms, summits, regions)
    ensures !blMapping ==> (r.None? <==> Mismatch(chroms, summits, regions))
    ensures !blMapping && r.Some? ==> r.value.Rows() == GenomeRows(chroms, summits, regions)
  {
    var bincov := EmptyTable();
    if blMapping {
      for i := 0 to |chroms|
        invariant bincov.WellFormed()
        invariant bincov.Rows() == RestrictedRows(chroms[..i], summits, regions)
      {
        var chrom := chroms[i];
        RestrictedRowsStep(chroms, i, summits, regions);
        if chrom !in regions {
          continue;
        }
        bincov := CountRestrictedChromosome(bincov, regions[chrom], summits);
      }
      assert chroms[..|chroms|] == chroms;
      return Some(bincov);
    } else {
      for i := 0 to |chroms|
        invariant bincov.WellFormed()
        invariant bincov.Rows() == GenomeRows(chroms[..i], summits, regions)
        invariant !Mismatch(chroms[..i], summits, regions)
      {
        var chrom := chroms[i];
        GenomeRowsStep(chroms, i, summits, regions);
        if chrom !in summits || chrom !in regions {
          NoMismatchStep(chroms, i, summits, regions);
          continue;
        }
        var counted := CountGenomeChromosome(bincov, chrom, regions[chrom], summits[chrom]);
        if counted.None? {
          var k :| 0 <= k < |regions[chrom]| && regions[chrom][k].chr != chrom;
          assert chroms[i] in summits && chroms[i] in regions && regions[chroms[i]][k].chr != chroms[i];
          return None;
        }
        bincov := counted.value;
        NoMismatchStep(chroms, i, summits, regions);
      }
      assert chroms[..|chroms|] == chroms;
      return Some(bincov);
    }
  }
}
