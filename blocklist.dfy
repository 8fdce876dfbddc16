/**
 * The blocklist loader `read_blocklist` (utils/utils.py): the rows of the
 * four-column region file become per-chromosome lists of region tuples,
 * each carrying its 1-based line number and a type code derived from its ID.
 */
module Blocklist {
  import opened Wrappers

  /** One line of the region file: chromosome, start, end and region ID. */
  datatype BedRow = BedRow(chr: string, start: int, end: int, id: string)

  /** A loaded region `(binID, chr, start, end, type code, ID)`; binID is the 1-based line number. */
  datatype Region = Region(binID: int, chr: string, start: int, end: int, blType: int, id: string)

  /** Why loading stops: `bl_type_map` has no entry for the type name of row `row`. */
  datatype LoadError = UnknownType(row: nat, typeName: string)

  /** `ID.split('_')[0]`: the ID up to its first '_'. */
  function FirstField(id: string): (r: string)
    ensures |r| <= |id| && r == id[..|r|]
    ensures '_' !in r
    ensures |r| == |id| || id[|r|] == '_'
  {
    if id == [] || id[0] == '_' then [] else [id[0]] + FirstField(id[1..])
  }

  /** `ID.split('_')[0][2:]`: the first field without its two leading characters. */
  function TypeName(id: string): string
  {
    var field := FirstField(id);
    if |field| <= 2 then [] else field[2..]
  }

  /**
   * The type name is the text from the third character of the ID up to its
   * first '_': empty exactly when a '_' comes within the first three characters.
   */
  lemma TypeNameSpan(id: string)
    ensures TypeName(id) == [] <==> |id| <= 2 || '_' in id[..3]
    ensures var r := TypeName(id); r != [] ==>
      && 2 + |r| <= |id| && id[2..2 + |r|] == r && '_' !in id[..2 + |r|]
      && (2 + |r| == |id| || id[2 + |r|] == '_')
  {
    var field := FirstField(id);
    if |id| > 2 && '_' in id[..3] {
      var k :| 0 <= k < 3 && id[..3][k] == '_';
      assert id[k] == '_';
    }
  }

  /** `bl_type_map`: the two region types of the blocklists. */
  const TypeMap: map<string, int> := map["LM" := 1, "HSR" := 2]

  /**
   * `bl_type_map[...]` of the type name; a name outside the map raises
   * KeyError in the source (None here).
   */
  function TypeCode(id: string): (r: Option<int>)
    ensures r.None? || r == Some(1) || r == Some(2)
  {
    var name := TypeName(id);
    if name in TypeMap then Some(TypeMap[name]) else None
  }

  /**
   * An ID is of type LM exactly when its first '_'-separated field is two
   * characters followed by "LM", and of type HSR likewise with "HSR".
   */
  lemma TypeCodeCharacterization(id: string)
    ensures TypeCode(id) == Some(1) <==> |id| >= 4 && id[2..4] == "LM" && '_' !in id[..4] && (|id| == 4 || id[4] == '_')
    ensures TypeCode(id) == Some(2) <==> |id| >= 5 && id[2..5] == "HSR" && '_' !in id[..5] && (|id| == 5 || id[5] == '_')
  {
    var field := FirstField(id);
    var name := TypeName(id);
    assert name == "LM" ==> |field| == 4 && id[..4] == field && field[2..] == "LM";
    assert name == "HSR" ==> |field| == 5 && id[..5] == field && field[2..] == "HSR";
    if |id| >= 4 && id[2..4] == "LM" && '_' !in id[..4] && (|id| == 4 || id[4] == '_') {
      assert forall k :: 0 <= k < 4 ==> id[k] != '_';
      assert |field| == 4;
      assert field[2..] == id[2..4];
    }
    if |id| >= 5 && id[2..5] == "HSR" && '_' !in id[..5] && (|id| == 5 || id[5] == '_') {
      assert forall k :: 0 <= k < 5 ==> id[k] != '_';
      assert |field| == 5;
      assert field[2..] == id[2..5];
    }
  }

  /** Every row's ID has a known type. */
  predicate AllTyped(rows: seq<BedRow>) {
    forall i :: 0 <= i < |rows| ==> TypeCode(rows[i].id).Some?
  }

  /** The type codes of all rows, in file order. */
  function TypeCodes(rows: seq<BedRow>): (codes: seq<int>)
    requires AllTyped(rows)
    ensures |codes| == |rows|
  {
    seq(|rows|, i requires 0 <= i < |rows| => TypeCode(rows[i].id).value)
  }

  /** Codes found for the first `i` rows show those rows typed, and for all rows they are the type codes. */
  lemma CodesShowTyped(rows: seq<BedRow>, codes: seq<int>, i: nat)
    requires |codes| == i <= |rows|
    requires forall j :: 0 <= j < i ==> TypeCode(rows[j].id) == Some(codes[j])
    ensures AllTyped(rows[..i])
    ensures i == |rows| ==> AllTyped(rows) && codes == TypeCodes(rows)
  {
    assert forall j :: 0 <= j < i ==> rows[..i][j] == rows[j];
  }

  /** The tuple the loader makes of row `i` with type code `codes[i]`. */
  function RegionAt(rows: seq<BedRow>, codes: seq<int>, i: nat): Region
    requires i < |rows| == |codes|
  {
    Region(i + 1, rows[i].chr, rows[i].start, rows[i].end, codes[i], rows[i].id)
  }

  /** The tuples of all rows, in file order. */
  function Tuples(rows: seq<BedRow>, codes: seq<int>): seq<Region>
    requires |rows| == |codes|
  {
    seq(|rows|, i requires 0 <= i < |rows| => RegionAt(rows, codes, i))
  }

  /** Tuples are numbered by line, so their binIDs strictly increase along the file. */
  predicate Numbered(regions: seq<Region>) {
    forall k, l :: 0 <= k < l < |regions| ==> regions[k].binID < regions[l].binID
  }

  /**
   * The tuples on chromosome `c`, in their order: each names `c`, each tuple
   * on `c` is kept, and ascending numbering is kept.
   */
  function OnChrom(regions: seq<Region>, c: string): (r: seq<Region>)
    ensures |r| <= |regions|
    ensures forall x :: x in r <==> x in regions && x.chr == c
    ensures Numbered(regions) ==> Numbered(r)
  {
    if regions == [] then []
    else
      var n := |regions| - 1;
      var prefix := OnChrom(regions[..n], c);
      assert forall x :: x in regions <==> x in regions[..n] || x == regions[n];
      if regions[n].chr == c then prefix + [regions[n]] else prefix
  }

  /** The grouping `read_blocklist` performs: each tuple is appended, in order, to its chromosome's list. */
  function GroupByChrom(regions: seq<Region>): map<string, seq<Region>>
  {
    if regions == [] then map[]
    else
      var n := |regions| - 1;
      var g := GroupByChrom(regions[..n]);
      var x := regions[n];
      g[x.chr := (if x.chr in g then g[x.chr] else []) + [x]]
  }

  /**
   * Grouping is filtering: the list of chromosome `c` holds exactly the tuples
   * on `c`, in their order, and a chromosome without tuples gets no list.
   */
  lemma {:induction false} GroupByChromIsFilter(regions: seq<Region>)
    ensures forall c :: c in GroupByChrom(regions) <==> OnChrom(regions, c) != []
    ensures forall c :: c in GroupByChrom(regions) ==> GroupByChrom(regions)[c] == OnChrom(regions, c)
  {
    if regions != [] {
      var n := |regions| - 1;
      GroupByChromIsFilter(regions[..n]);
    }
  }

  /**
   * In the dictionary `read_blocklist` returns, every tuple stored under a key
   * names that key as its chromosome and is the tuple of the row its binID
   * numbers.
   */
  lemma LoadedRegionMatchesKey(rows: seq<BedRow>, codes: seq<int>, c: string, k: int)
    requires |rows| == |codes|
    requires var g := GroupByChrom(Tuples(rows, codes)); c in g && 0 <= k < |g[c]|
    ensures var x := GroupByChrom(Tuples(rows, codes))[c][k];
      x.chr == c && 1 <= x.binID <= |rows| && x == RegionAt(rows, codes, x.binID - 1)
  {
    var t: seq<Region> := Tuples(rows, codes);
    var g: map<string, seq<Region>> := GroupByChrom(t);
    GroupByChromIsFilter(t);
    var x := g[c][k];
    assert x in OnChrom(t, c) by {
      assert g[c] == OnChrom(t, c);
    }
    var j :| 0 <= j < |t| && t[j] == x;
    assert t[j] == RegionAt(rows, codes, j);
  }

  /** Every row of the file is stored, under its own chromosome. */
  lemma LoadedEveryRow(rows: seq<BedRow>, codes: seq<int>)
    requires |rows| == |codes|
    ensures var g := GroupByChrom(Tuples(rows, codes));
      forall i :: 0 <= i < |rows| ==> rows[i].chr in g && RegionAt(rows, codes, i) in g[rows[i].chr]
  {
    var t: seq<Region> := Tuples(rows, codes);
    var g: map<string, seq<Region>> := GroupByChrom(t);
    GroupByChromIsFilter(t);
    forall i | 0 <= i < |rows|
      ensures rows[i].chr in g && RegionAt(rows, codes, i) in g[rows[i].chr]
    {
      assert t[i] == RegionAt(rows, codes, i);
      assert t[i] in OnChrom(t, rows[i].chr);
    }
  }

  /** Within each chromosome's list the line numbers strictly increase. */
  lemma LoadedListsAscend(rows: seq<BedRow>, codes: seq<int>)
    requires |rows| == |codes|
    ensures var g := GroupByChrom(Tuples(rows, codes));
      forall c :: c in g ==> Numbered(g[c])
  {
    var t: seq<Region> := Tuples(rows, codes);
    GroupByChromIsFilter(t);
    assert Numbered(t);
  }

  /**
   * `read_blocklist`: reads the rows in file order, appending each row's tuple
   * to its chromosome's list. The first row whose type name is not in
   * `bl_type_map` aborts the load (the source's KeyError).
   */
  method ReadBlocklist(rows: seq<BedRow>) returns (r: Result<map<string, seq<Region>>, LoadError>)
    ensures r.Success? <==> AllTyped(rows)
    ensures r.Success? ==> AllTyped(rows) && r.value == GroupByChrom(Tuples(rows, TypeCodes(rows)))
    ensures r.Failure? ==>
      && r.error.row < |rows|
      && TypeCode(rows[r.error.row].id).None?
      && r.error.typeName == TypeName(rows[r.error.row].id)
      && AllTyped(rows[..r.error.row])
  {
    var blocklist: map<string, seq<Region>> := map[];
    ghost var tuples: seq<Region> := [];
    ghost var codes: seq<int> := [];
    for i := 0 to |rows|
      invariant |codes| == i && forall j :: 0 <= j < i ==> TypeCode(rows[j].id) == Some(codes[j])
      invariant |tuples| == i && forall j :: 0 <= j < i ==> tuples[j] == Region(j + 1, rows[j].chr, rows[j].start, rows[j].end, codes[j], rows[j].id)
      invariant blocklist == GroupByChrom(tuples)
    {
      var row := rows[i];
      if row.chr !in blocklist {
        blocklist := blocklist[row.chr := []];
      }
      var code := TypeCode(row.id);
      if code.None? {
        CodesShowTyped(rows, codes, i);
        return Failure(UnknownType(i, TypeName(row.id)));
      }
      var region := Region(i + 1, row.chr, row.start, row.end, code.value, row.id);
      blocklist := blocklist[row.chr := blocklist[row.chr] + [region]];
      assert (tuples + [region])[..i] == tuples;
      tuples := tuples + [region];
      codes := codes + [code.value];
    }
    assert rows[..|rows|] == rows;
    CodesShowTyped(rows, codes, |rows|);
    assert tuples == Tuples(rows, codes);
    return Success(blocklist);
  }

  /** The keys of a Python dict filled from `names` in order: each name once, at its first occurrence. */
  function DictKeys(names: seq<string>): (r: seq<string>)
    ensures |r| <= |names|
    ensures forall x :: x in r <==> x in names
    ensures forall k, l :: 0 <= k < l < |r| ==> r[k] != r[l]
  {
    if names == [] then []
    else
      var m := |names| - 1;
      assert names == names[..m] + [names[m]];
      var prefix := DictKeys(names[..m]);
      if names[m] in prefix then prefix else prefix + [names[m]]
  }

  /** Names that are already distinct keep their order and all their entries. */
  lemma {:induction false} DictKeysOfDistinct(names: seq<string>)
    requires forall k, l :: 0 <= k < l < |names| ==> names[k] != names[l]
    ensures DictKeys(names) == names
  {
    if names != [] {
      var m := |names| - 1;
      DictKeysOfDistinct(names[..m]);
      assert names[m] !in names[..m];
      assert names == names[..m] + [names[m]];
    }
  }

  /** The chromosome of each tuple, in order. */
  function Chromosomes(regions: seq<Region>): seq<string> {
    seq(|regions|, i requires 0 <= i < |regions| => regions[i].chr)
  }

  /** The key order of the dict `read_blocklist` fills: each chromosome at its first tuple. */
  function ChromosomeOrder(regions: seq<Region>): (r: seq<string>)
    ensures forall c :: c in r <==> c in GroupByChrom(regions)
    ensures forall k, l :: 0 <= k < l < |r| ==> r[k] != r[l]
  {
    ChromosomeKeysAreGroups(regions);
    DictKeys(Chromosomes(regions))
  }

  /** A chromosome names some tuple exactly when it has a list. */
  lemma ChromosomeKeysAreGroups(regions: seq<Region>)
    ensures forall c :: c in Chromosomes(regions) <==> c in GroupByChrom(regions)
  {
    forall c {
      ChromosomeKeyIsGroup(regions, c);
    }
  }

  lemma {:induction false} ChromosomeKeyIsGroup(regions: seq<Region>, c: string)
    ensures c in Chromosomes(regions) <==> c in GroupByChrom(regions)
  {
    if regions != [] {
      var n := |regions| - 1;
      ChromosomeKeyIsGroup(regions[..n], c);
      assert Chromosomes(regions) == Chromosomes(regions[..n]) + [regions[n].chr];
    }
  }

  /** One more tuple adds its chromosome to the key order unless it is already there. */
  lemma ChromosomeOrderStep(regions: seq<Region>)
    requires regions != []
    ensures var n := |regions| - 1; var keys := ChromosomeOrder(regions[..n]);
      ChromosomeOrder(regions) == if regions[n].chr in keys then keys else keys + [regions[n].chr]
  {
    var n := |regions| - 1;
    assert Chromosomes(regions)[..n] == Chromosomes(regions[..n]);
  }

  /** The number of tuples stored under `keys` (a key listed twice counts twice). */
  function RegionTotal(g: map<string, seq<Region>>, keys: seq<string>): nat
  {
    if keys == [] then 0
    else
      var c := keys[|keys| - 1];
      RegionTotal(g, keys[..|keys| - 1]) + (if c in g then |g[c]| else 0)
  }

  lemma {:induction false} RegionTotalUpdateAbsent(g: map<string, seq<Region>>, keys: seq<string>, c: string, v: seq<Region>)
    requires c !in keys
    ensures RegionTotal(g[c := v], keys) == RegionTotal(g, keys)
  {
    if keys != [] {
      RegionTotalUpdateAbsent(g, keys[..|keys| - 1], c, v);
    }
  }

  lemma {:induction false} RegionTotalUpdatePresent(g: map<string, seq<Region>>, keys: seq<string>, c: string, v: seq<Region>)
    requires c in keys && c in g
    requires forall k, l :: 0 <= k < l < |keys| ==> keys[k] != keys[l]
    ensures RegionTotal(g[c := v], keys) == RegionTotal(g, keys) - |g[c]| + |v|
  {
    var n := |keys| - 1;
    if keys[n] == c {
      assert c !in keys[..n];
      RegionTotalUpdateAbsent(g, keys[..n], c, v);
    } else {
      assert c in keys[..n];
      RegionTotalUpdatePresent(g, keys[..n], c, v);
    }
  }

  /** Grouping conserves tuples: the lists hold as many tuples, in all, as were grouped. */
  lemma {:induction false} GroupByChromConserves(regions: seq<Region>)
    ensures RegionTotal(GroupByChrom(regions), ChromosomeOrder(regions)) == |regions|
  {
    if regions != [] {
      var n := |regions| - 1;
      var x := regions[n];
      GroupByChromConserves(regions[..n]);
      var g := GroupByChrom(regions[..n]);
      var keys := ChromosomeOrder(regions[..n]);
      ChromosomeOrderStep(regions);
      var v := (if x.chr in g then g[x.chr] else []) + [x];
      assert GroupByChrom(regions) == g[x.chr := v];
      if x.chr in keys {
        RegionTotalUpdatePresent(g, keys, x.chr, v);
      } else {
        RegionTotalUpdateAbsent(g, keys, x.chr, v);
        assert (keys + [x.chr])[..|keys|] == keys;
      }
    }
  }

  /** Loading conserves rows: the loaded lists hold as many tuples, in all, as the file has rows. */
  lemma ReadBlocklistConservesRows(rows: seq<BedRow>, codes: seq<int>)
    requires |rows| == |codes|
    ensures var t := Tuples(rows, codes); RegionTotal(GroupByChrom(t), ChromosomeOrder(t)) == |rows|
  {
    GroupByChromConserves(Tuples(rows, codes));
  }
}
