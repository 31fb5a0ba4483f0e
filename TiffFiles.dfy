/** The TIFF file grouper, find_tiff_files: every *.tif name of the overview directory is filed
    under the well id taken from its stem (the second-to-last '_'-separated token), and every
    group is then sorted. Files are represented by their names, all in the one directory. */
module TiffFiles {
  import opened Results
  import opened Text

  /** Well id -> names of that well's planes. The source's dict order is never observed, so a
      map stands for it. */
  type TiffGroups = map<string, seq<string>>

  /** path.stem.split("_")[-2]; None where that index raises (fewer than two tokens). A key
      exists exactly when the stem has a '_', and it has no '_' itself. */
  function WellKey(name: string): (r: Option<string>)
    ensures r.Some? <==> !NoUnderscore(Stem(name))
    ensures r.Some? ==> NoUnderscore(r.value)
  {
    SplitMeaning(Stem(name));
    var tokens := Split(Stem(name));
    if |tokens| < 2 then None else Some(tokens[|tokens| - 2])
  }

  function Bucket(groups: TiffGroups, well: string): seq<string> {
    if well in groups then groups[well] else []
  }

  // ---------------------------------------------------------------------------------------------
  // Reference definition. The grouping is stated for any key function (`key`), so that its
  // proofs do not depend on how a key is cut out of a name; find_tiff_files uses WellKey.

  /** The append loop, from `groups`, over the remaining names. */
  function GroupFrom(groups: TiffGroups, names: seq<string>, key: string -> Option<string>): Result<TiffGroups>
    decreases |names|
  {
    if names == [] then Ok(groups)
    else
      match key(names[0])
      case None => Err(MalformedTiffName(names[0]))
      case Some(well) => GroupFrom(groups[well := Bucket(groups, well) + [names[0]]], names[1..], key)
  }

  /** The sort loop: every group replaced by its sorted version. */
  function SortGroups(groups: TiffGroups): TiffGroups {
    map well | well in groups :: SortNames(groups[well])
  }

  /** find_tiff_files on the directory listing `listing` (in the order the directory returns
      its entries): glob("*.tif") keeps the names ending in ".tif"; none is an error; otherwise the
      grouping succeeds exactly when every kept name has a well key. */
  function TiffGroupsOf(listing: seq<string>): (r: Result<TiffGroups>)
    ensures Matching(listing, ".tif") == [] ==> r == Err(NoTiffFiles)
    ensures r.Ok? <==> Matching(listing, ".tif") != [] && AllNamed(Matching(listing, ".tif"), WellKey)
  {
    var names := Matching(listing, ".tif");
    if |names| == 0 then Err(NoTiffFiles)
    else
      GroupFromSucceeds(map[], names, WellKey);
      match GroupFrom(map[], names, WellKey)
      case Err(e) => Err(e)
      case Ok(groups) => Ok(SortGroups(groups))
  }

  // ---------------------------------------------------------------------------------------------
  // The source's loops.

  method FindTiffFiles(listing: seq<string>) returns (r: Result<TiffGroups>)
    ensures r == TiffGroupsOf(listing)
  {
    var tiffFiles := Matching(listing, ".tif");
    if |tiffFiles| == 0 {
      return Err(NoTiffFiles);
    }
    var groups: TiffGroups := map[];
    var i := 0;
    while i < |tiffFiles|
      invariant 0 <= i <= |tiffFiles|
      invariant GroupFrom(groups, tiffFiles[i..], WellKey) == GroupFrom(map[], tiffFiles, WellKey)
    {
      var well := WellKey(tiffFiles[i]);
      if well.None? {
        return Err(MalformedTiffName(tiffFiles[i]));
      }
      assert tiffFiles[i..][0] == tiffFiles[i] && tiffFiles[i..][1..] == tiffFiles[i + 1..];
      groups := AppendToGroup(groups, well.value, tiffFiles[i]);
      i := i + 1;
    }
    assert tiffFiles[i..] == [];
    var sorted := SortEachGroup(groups);
    return Ok(sorted);
  }

  /** `if well not in tiff_paths: tiff_paths[well] = []` then `tiff_paths[well].append(path)`. */
  method AppendToGroup(groups: TiffGroups, well: string, path: string) returns (next: TiffGroups)
    ensures next == groups[well := Bucket(groups, well) + [path]]
  {
    next := groups;
    if well !in next {
      next := next[well := []];
    }
    next := next[well := next[well] + [path]];
  }

  /** The loop `for paths in tiff_paths.values(): paths.sort()`. */
  method SortEachGroup(groups: TiffGroups) returns (sorted: TiffGroups)
    ensures sorted == SortGroups(groups)
  {
    var pending := groups.Keys;
    sorted := groups;
    while pending != {}
      invariant pending <= groups.Keys && sorted.Keys == groups.Keys
      invariant forall w :: w in groups && w !in pending ==> sorted[w] == SortNames(groups[w])
      invariant forall w :: w in pending ==> sorted[w] == groups[w]
      decreases pending
    {
      var w :| w in pending;
      sorted := sorted[w := SortNames(sorted[w])];
      pending := pending - {w};
    }
    assert forall w :: w in sorted ==> sorted[w] == SortGroups(groups)[w];
  }

  // ---------------------------------------------------------------------------------------------
  // What the result is.

  /** The names with key `well`, in listing order. */
  function FilesOf(names: seq<string>, well: string, key: string -> Option<string>): seq<string>
    decreases |names|
  {
    if names == [] then []
    else (if key(names[0]) == Some(well) then [names[0]] else []) + FilesOf(names[1..], well, key)
  }

  lemma {:induction false} FilesOfSound(names: seq<string>, well: string, key: string -> Option<string>, f: string)
    requires f in FilesOf(names, well, key)
    ensures f in names && key(f) == Some(well)
    decreases |names|
  {
    if !(key(names[0]) == Some(well) && f == names[0]) {
      FilesOfSound(names[1..], well, key, f);
    }
  }

  lemma {:induction false} FilesOfComplete(names: seq<string>, f: string, key: string -> Option<string>)
    requires f in names && key(f).Some?
    ensures f in FilesOf(names, key(f).value, key)
    decreases |names|
  {
    if names[0] != f {
      FilesOfComplete(names[1..], f, key);
    }
  }

  predicate AllNamed(names: seq<string>, key: string -> Option<string>) {
    forall i :: 0 <= i < |names| ==> key(names[i]).Some?
  }

  /** The append loop succeeds exactly when every name has a key. */
  lemma {:induction false} GroupFromSucceeds(groups: TiffGroups, names: seq<string>, key: string -> Option<string>)
    ensures GroupFrom(groups, names, key).Ok? <==> AllNamed(names, key)
    decreases |names|
  {
    if names != [] && key(names[0]).Some? {
      var well := key(names[0]).value;
      GroupFromSucceeds(groups[well := Bucket(groups, well) + [names[0]]], names[1..], key);
      assert AllNamed(names, key) <==> AllNamed(names[1..], key) by {
        assert forall i :: 1 <= i < |names| ==> names[i] == names[1..][i - 1];
      }
    }
  }

  /** Name i is the first without a key. */
  predicate FirstUnnamedAt(names: seq<string>, i: int, key: string -> Option<string>) {
    0 <= i < |names| && key(names[i]).None? && forall k :: 0 <= k < i ==> key(names[k]).Some?
  }

  /** The append loop stops at the first name without a key and reports that name. */
  lemma {:induction false} GroupFromFirstMalformed(groups: TiffGroups, names: seq<string>, key: string -> Option<string>)
    requires !AllNamed(names, key)
    ensures exists i :: FirstUnnamedAt(names, i, key) && GroupFrom(groups, names, key) == Err(MalformedTiffName(names[i]))
    decreases |names|
  {
    if key(names[0]).None? {
      assert FirstUnnamedAt(names, 0, key);
    } else {
      var well := key(names[0]).value;
      var next := groups[well := Bucket(groups, well) + [names[0]]];
      assert !AllNamed(names[1..], key) by {
        var j :| 0 <= j < |names| && key(names[j]).None?;
        assert names[1..][j - 1] == names[j];
      }
      GroupFromFirstMalformed(next, names[1..], key);
      var i :| FirstUnnamedAt(names[1..], i, key) && GroupFrom(next, names[1..], key) == Err(MalformedTiffName(names[1..][i]));
      FirstUnnamedShifts(names, i, key);
    }
  }

  lemma FirstUnnamedShifts(names: seq<string>, i: int, key: string -> Option<string>)
    requires names != [] && key(names[0]).Some? && FirstUnnamedAt(names[1..], i, key)
    ensures FirstUnnamedAt(names, i + 1, key) && names[i + 1] == names[1..][i]
  {
    assert forall k :: 1 <= k < i + 1 ==> names[k] == names[1..][k - 1];
  }

  /** The append loop files each name under its key, keeping listing order within a group:
      the group of `w` is what it held before followed by the names with key `w`. */
  lemma {:induction false} GroupFromContents(groups: TiffGroups, names: seq<string>, key: string -> Option<string>,
                                             w: string)
    requires GroupFrom(groups, names, key).Ok?
    ensures var result := GroupFrom(groups, names, key).value;
            (w in result <==> w in groups || FilesOf(names, w, key) != []) &&
            Bucket(result, w) == Bucket(groups, w) + FilesOf(names, w, key)
    decreases |names|
  {
    if names != [] {
      var f := names[0];
      var well := key(f).value;
      var next := groups[well := Bucket(groups, well) + [f]];
      GroupFromContents(next, names[1..], key, w);
      if w == well {
        assert Bucket(next, w) == Bucket(groups, w) + [f];
      } else {
        assert Bucket(next, w) == Bucket(groups, w);
      }
    }
  }

  lemma SortGroupsAt(raw: TiffGroups, w: string)
    requires w in raw
    ensures w in SortGroups(raw)
    ensures Sorted(SortGroups(raw)[w]) && multiset(SortGroups(raw)[w]) == multiset(raw[w])
  {
  }

  lemma SortedGroupAt(names: seq<string>, key: string -> Option<string>, raw: TiffGroups, w: string)
    requires GroupFrom(map[], names, key) == Ok(raw) && w in raw
    ensures w in SortGroups(raw)
    ensures Sorted(SortGroups(raw)[w])
    ensures multiset(SortGroups(raw)[w]) == multiset(FilesOf(names, w, key))
    ensures FilesOf(names, w, key) != []
  {
    GroupFromContents(map[], names, key, w);
    SortGroupsAt(raw, w);
    assert raw[w] == Bucket(map[], w) + FilesOf(names, w, key);
  }

  lemma GroupMemberHasKey(names: seq<string>, key: string -> Option<string>, raw: TiffGroups, w: string, f: string)
    requires GroupFrom(map[], names, key) == Ok(raw) && w in raw && f in SortGroups(raw)[w]
    ensures f in names && key(f) == Some(w)
  {
    SortedGroupAt(names, key, raw, w);
    assert f in multiset(SortGroups(raw)[w]);
    assert f in multiset(FilesOf(names, w, key));
    FilesOfSound(names, w, key, f);
  }

  lemma NameInItsGroup(names: seq<string>, key: string -> Option<string>, raw: TiffGroups, f: string)
    requires GroupFrom(map[], names, key) == Ok(raw) && f in names && key(f).Some?
    ensures key(f).value in SortGroups(raw) && f in SortGroups(raw)[key(f).value]
  {
    var w := key(f).value;
    GroupFromContents(map[], names, key, w);
    FilesOfComplete(names, f, key);
    assert w in raw;
    SortedGroupAt(names, key, raw, w);
    assert f in multiset(FilesOf(names, w, key));
    assert f in multiset(SortGroups(raw)[w]);
  }

  /** After grouping by any key and sorting, no group is empty and every group is the sorted
      arrangement of the names with its key. */
  lemma GroupsSortedPermutations(names: seq<string>, key: string -> Option<string>, raw: TiffGroups)
    requires GroupFrom(map[], names, key) == Ok(raw)
    ensures forall w :: w in SortGroups(raw) ==>
              Sorted(SortGroups(raw)[w]) && SortGroups(raw)[w] != [] &&
              multiset(SortGroups(raw)[w]) == multiset(FilesOf(names, w, key))
  {
    forall w | w in SortGroups(raw)
      ensures Sorted(SortGroups(raw)[w]) && SortGroups(raw)[w] != [] &&
              multiset(SortGroups(raw)[w]) == multiset(FilesOf(names, w, key))
    {
      SortedGroupAt(names, key, raw, w);
      assert |multiset(SortGroups(raw)[w])| == |multiset(FilesOf(names, w, key))| > 0;
    }
  }

  /** Every group find_tiff_files returns is non-empty and is the sorted arrangement of the
      globbed names of its well. */
  lemma TiffGroupsSorted(listing: seq<string>, groups: TiffGroups)
    requires TiffGroupsOf(listing) == Ok(groups)
    ensures forall w :: w in groups ==>
              Sorted(groups[w]) && groups[w] != [] &&
              multiset(groups[w]) == multiset(FilesOf(Matching(listing, ".tif"), w, WellKey))
  {
    var raw := GroupFrom(map[], Matching(listing, ".tif"), WellKey).value;
    GroupsSortedPermutations(Matching(listing, ".tif"), WellKey, raw);
  }

  /** The successful result of find_tiff_files is the sorted version of the append loop's. */
  lemma TiffGroupsRaw(listing: seq<string>, groups: TiffGroups) returns (raw: TiffGroups)
    requires TiffGroupsOf(listing) == Ok(groups)
    ensures GroupFrom(map[], Matching(listing, ".tif"), WellKey) == Ok(raw) && groups == SortGroups(raw)
  {
    raw := GroupFrom(map[], Matching(listing, ".tif"), WellKey).value;
  }

  /** A group of find_tiff_files' result holds only listed ".tif" names of its own well; so an
      entry that glob("*.tif") does not match is in no group. */
  lemma TiffGroupsOnlyOwnWell(listing: seq<string>, groups: TiffGroups, w: string, f: string)
    requires TiffGroupsOf(listing) == Ok(groups) && w in groups && f in groups[w]
    ensures f in listing && EndsWith(f, ".tif") && WellKey(f) == Some(w)
  {
    var raw := TiffGroupsRaw(listing, groups);
    GroupMemberHasKey(Matching(listing, ".tif"), WellKey, raw, w, f);
    MatchingMembers(listing, ".tif", f);
  }

  /** Every listed ".tif" name is in the group of its own well (and, by TiffGroupsOnlyOwnWell,
      in no other). */
  lemma TiffGroupsEveryName(listing: seq<string>, groups: TiffGroups)
    requires TiffGroupsOf(listing) == Ok(groups)
    ensures forall f :: f in listing && EndsWith(f, ".tif") ==>
              WellKey(f).Some? && WellKey(f).value in groups && f in groups[WellKey(f).value]
  {
    var names := Matching(listing, ".tif");
    var raw := TiffGroupsRaw(listing, groups);
    forall f | f in listing && EndsWith(f, ".tif")
      ensures WellKey(f).Some? && WellKey(f).value in groups && f in groups[WellKey(f).value]
    {
      MatchingMembers(listing, ".tif", f);
      var i :| 0 <= i < |names| && names[i] == f;
      assert WellKey(names[i]).Some?;
      NameInItsGroup(names, WellKey, raw, f);
    }
  }

  /** The first globbed name without a well key is the one reported. */
  lemma TiffGroupsFirstMalformed(listing: seq<string>)
    requires Matching(listing, ".tif") != [] && !AllNamed(Matching(listing, ".tif"), WellKey)
    ensures var names := Matching(listing, ".tif");
            exists i :: 0 <= i < |names| && WellKey(names[i]).None? &&
                        (forall k :: 0 <= k < i ==> WellKey(names[k]).Some?) &&
                        TiffGroupsOf(listing) == Err(MalformedTiffName(names[i]))
  {
    GroupFromFirstMalformed(map[], Matching(listing, ".tif"), WellKey);
  }

  /** `well` and `index` are the last two '_' tokens of `stem`, and `prefix` is what comes before
      them, if anything. */
  predicate LastTwoTokens(stem: string, prefix: string, well: string, index: string) {
    NoUnderscore(well) && NoUnderscore(index) &&
    (stem == well + "_" + index || stem == prefix + "_" + well + "_" + index)
  }

  /** The well key is the second-to-last '_' token of the stem. */
  lemma WellKeyIsToken(name: string)
    requires WellKey(name).Some?
    ensures exists p, x :: LastTwoTokens(Stem(name), p, WellKey(name).value, x)
  {
    var tokens := Split(Stem(name));
    var n := |tokens|;
    SplitMeaning(Stem(name));
    JoinSnoc(tokens);
    var front := tokens[..n - 1];
    if n == 2 {
      assert LastTwoTokens(Stem(name), "", tokens[0], tokens[1]);
    } else {
      JoinSnoc(front);
      assert front[..n - 2] == tokens[..n - 2];
      var p := Join(tokens[..n - 2]);
      assert LastTwoTokens(Stem(name), p, tokens[n - 2], tokens[n - 1]);
    }
  }

  /** Conversely, a stem whose last two '_' tokens are WELL and INDEX has key WELL, whatever
      comes before them. */
  lemma WellKeyOfStem(name: string, prefix: string, well: string, index: string)
    requires LastTwoTokens(Stem(name), prefix, well, index)
    ensures WellKey(name) == Some(well)
  {
    SplitAtSeparator(well, index);
    SplitNoUnderscore(well);
    SplitNoUnderscore(index);
    if Stem(name) != well + "_" + index {
      SplitAtSeparator(prefix, well + "_" + index);
      assert prefix + "_" + well + "_" + index == prefix + "_" + (well + "_" + index);
    }
  }

  /** The file naming convention ..._<WELL>_<INDEX>.tif yields WELL as the well key. */
  lemma WellKeyOfConventionalName(prefix: string, well: string, index: string)
    requires NoUnderscore(well) && NoUnderscore(index)
    ensures WellKey(prefix + "_" + well + "_" + index + ".tif") == Some(well)
  {
    var base := prefix + "_" + well + "_" + index;
    StemOfTif(base);
    assert base + ".tif" == prefix + "_" + well + "_" + index + ".tif";
    WellKeyOfStem(base + ".tif", prefix, well, index);
  }

  /** A dot inside the prefix does not change the key. */
  lemma DottedPrefixKey()
    ensures WellKey("plate.v2_B03_1.tif") == Some("B03")
  {
    assert NoUnderscore("B03") && NoUnderscore("1");
    WellKeyOfConventionalName("plate.v2", "B03", "1");
    assert "plate.v2" + "_" + "B03" + "_" + "1" + ".tif" == "plate.v2_B03_1.tif";
  }

  lemma ExampleWellKey()
    ensures WellKey("p_B03_1.tif") == Some("B03")
  {
    var base := "p_B03_1";
    assert base == "p" + "_" + "B03" + "_" + "1";
    assert base + ".tif" == "p_B03_1.tif";
    assert NoUnderscore("B03") && NoUnderscore("1");
    assert forall j :: 0 <= j < |base| ==> base[j] != '.';
    WellKeyOfConventionalName("p", "B03", "1");
  }

  lemma ExampleMatching()
    ensures Matching(["p_B03_1.tif", "notes.txt"], ".tif") == ["p_B03_1.tif"]
  {
    var listing := ["p_B03_1.tif", "notes.txt"];
    assert "notes.txt"[5..] == ".txt";
    assert "p_B03_1.tif"[7..] == ".tif";
    assert listing[1..] == ["notes.txt"] && listing[1..][1..] == [];
  }

  lemma ExampleGrouping()
    ensures GroupFrom(map[], ["p_B03_1.tif"], WellKey) == Ok(map["B03" := ["p_B03_1.tif"]])
  {
    ExampleWellKey();
    GroupFromSingle("p_B03_1.tif", "B03", WellKey);
  }

  lemma GroupFromSingle(name: string, well: string, key: string -> Option<string>)
    requires key(name) == Some(well)
    ensures GroupFrom(map[], [name], key) == Ok(map[well := [name]])
  {
    var names := [name];
    assert names[0] == name && names[1..] == [];
    var empty: TiffGroups := map[];
    assert Bucket(empty, well) + [name] == names;
    assert GroupFrom(empty, names, key) == GroupFrom(empty[well := names], [], key);
  }

  lemma ExampleSorting()
    ensures SortGroups(map["B03" := ["p_B03_1.tif"]]) == map["B03" := ["p_B03_1.tif"]]
  {
    var names := ["p_B03_1.tif"];
    assert names[1..] == [];
    assert SortNames(names) == names;
  }

  /** Only the entries glob("*.tif") matches are grouped: a note file beside a plane is ignored. */
  lemma GlobIgnoresOtherFiles()
    ensures TiffGroupsOf(["p_B03_1.tif", "notes.txt"]) == Ok(map["B03" := ["p_B03_1.tif"]])
  {
    ExampleMatching();
    ExampleGrouping();
    ExampleSorting();
  }
}
