/** The naming part of one extraction run: every VBA module the workbook
    yields, in order, goes through `build_unique_save_path` with one shared
    `used_names` set. Reading the workbook and writing the files are not part
    of this model; the module names arrive as a sequence. */
module Extraction {
  import opened Text
  import opened Sanitizer
  import opened Paths
  import opened UniquePath

  /** The lower-cased forms of `names`. */
  function LowerSet(names: seq<string>): (r: set<string>)
    ensures forall i :: 0 <= i < |names| ==> Lower(names[i]) in r
    ensures forall x :: x in r ==> exists i :: 0 <= i < |names| && x == Lower(names[i])
  {
    set i | 0 <= i < |names| :: Lower(names[i])
  }

  /** The names chosen for `rawNames`, in order: each one allocated against
      the lower-cased names chosen before it in the same run. */
  function AllocateRun(rawNames: seq<string>): (names: seq<string>)
    ensures |names| == |rawNames|
    decreases |rawNames|
  {
    if rawNames == [] then []
    else
      var earlier := AllocateRun(rawNames[..|rawNames| - 1]);
      earlier + [Allocate(Sanitize(rawNames[|rawNames| - 1]), LowerSet(earlier))]
  }

  predicate PairwiseDistinctIgnoringCase(names: seq<string>) {
    forall i, j :: 0 <= i < j < |names| ==> Lower(names[i]) != Lower(names[j])
  }

  lemma LowerSetAppend(names: seq<string>, x: string)
    ensures LowerSet(names + [x]) == LowerSet(names) + {Lower(x)}
  {
    var all := names + [x];
    forall y | y in LowerSet(all)
      ensures y in LowerSet(names) + {Lower(x)}
    {
      var i :| 0 <= i < |all| && y == Lower(all[i]);
      if i < |names| {
        assert all[i] == names[i];
      }
    }
    forall y | y in LowerSet(names) + {Lower(x)}
      ensures y in LowerSet(all)
    {
      if y == Lower(x) {
        assert all[|names|] == x;
      } else {
        var i :| 0 <= i < |names| && y == Lower(names[i]);
        assert all[i] == names[i];
      }
    }
  }

  /** Distinct names, ignoring case, have as many lower-cased forms as there are names. */
  lemma {:induction false} LowerSetSize(names: seq<string>)
    requires PairwiseDistinctIgnoringCase(names)
    ensures |LowerSet(names)| == |names|
    decreases |names|
  {
    if names != [] {
      var init := names[..|names| - 1];
      var last := names[|names| - 1];
      assert names == init + [last];
      assert PairwiseDistinctIgnoringCase(init);
      LowerSetSize(init);
      LowerSetAppend(init, last);
      assert Lower(last) !in LowerSet(init);
    }
  }

  /** A name whose lower-cased form is new keeps a list pairwise distinct. */
  lemma AppendFreshKeepsDistinct(names: seq<string>, x: string)
    requires PairwiseDistinctIgnoringCase(names)
    requires Lower(x) !in LowerSet(names)
    ensures PairwiseDistinctIgnoringCase(names + [x])
  {
    var all := names + [x];
    assert forall i :: 0 <= i < |names| ==> all[i] == names[i];
  }

  /** The last name of a run is allocated against the names before it, so it is new to them. */
  lemma AllocateRunLast(rawNames: seq<string>)
    requires rawNames != []
    ensures var earlier := AllocateRun(rawNames[..|rawNames| - 1]);
      var name := Allocate(Sanitize(rawNames[|rawNames| - 1]), LowerSet(earlier));
      && AllocateRun(rawNames) == earlier + [name]
      && Lower(name) !in LowerSet(earlier)
  {
  }

  /** Every name of a run differs, ignoring case, from all names chosen before
      it, so the names of a run are pairwise distinct and `used_names` ends
      with exactly one entry per module. */
  lemma {:induction false} AllocateRunDistinct(rawNames: seq<string>)
    ensures PairwiseDistinctIgnoringCase(AllocateRun(rawNames))
    ensures |LowerSet(AllocateRun(rawNames))| == |rawNames|
    decreases |rawNames|
  {
    if rawNames != [] {
      var init := rawNames[..|rawNames| - 1];
      AllocateRunDistinct(init);
      AllocateRunLast(rawNames);
      AppendFreshKeepsDistinct(AllocateRun(init), AllocateRun(rawNames)[|rawNames| - 1]);
    }
    LowerSetSize(AllocateRun(rawNames));
  }

  /** Every name of a run is safe, as `AllocateIsSafe` states for one name. */
  lemma {:induction false} AllocateRunSafe(rawNames: seq<string>)
    ensures forall i :: 0 <= i < |rawNames| ==> IsSafeStage(AllocateRun(rawNames)[i])
    decreases |rawNames|
  {
    if rawNames != [] {
      var init := rawNames[..|rawNames| - 1];
      AllocateRunSafe(init);
      AllocateRunLast(rawNames);
      AllocateIsSafe(rawNames[|rawNames| - 1], LowerSet(AllocateRun(init)));
    }
  }

  lemma LegalHasNoSeparator(s: string)
    requires HasNoIllegalChar(s)
    ensures '/' !in s
  {
  }

  /** `name + ".txt"` for a safe name has no separator, so `basename` gives it back. */
  lemma FileNameHasNoSeparator(name: string)
    requires IsSafeStage(name)
    ensures '/' !in name + TextExtension
  {
    LegalHasNoSeparator(name);
    assert forall i :: |name| <= i < |name + TextExtension| ==> (name + TextExtension)[i] == TextExtension[i - |name|];
  }

  /** Appending the same extension keeps two names apart, ignoring case. */
  lemma ExtensionKeepsCaseDistinction(a: string, b: string)
    requires Lower(a) != Lower(b)
    ensures Lower(a + TextExtension) != Lower(b + TextExtension)
  {
    LowerConcat(a, TextExtension);
    LowerConcat(b, TextExtension);
    if |a| == |b| {
      assert (Lower(a) + Lower(TextExtension))[..|a|] == Lower(a);
      assert (Lower(b) + Lower(TextExtension))[..|b|] == Lower(b);
    }
  }

  /** One more module extends the run by its allocated name, and the set of
      lower-cased names by that name's lower-cased form. */
  lemma AllocateRunStep(rawNames: seq<string>, k: nat)
    requires k < |rawNames|
    ensures var earlier := AllocateRun(rawNames[..k]);
      var name := Allocate(Sanitize(rawNames[k]), LowerSet(earlier));
      && AllocateRun(rawNames[..k + 1]) == earlier + [name]
      && LowerSet(AllocateRun(rawNames[..k + 1])) == LowerSet(earlier) + {Lower(name)}
  {
    assert rawNames[..k + 1][..k] == rawNames[..k];
    var earlier := AllocateRun(rawNames[..k]);
    LowerSetAppend(earlier, Allocate(Sanitize(rawNames[k]), LowerSet(earlier)));
  }

  /** The allocated names with `.txt` stay pairwise distinct ignoring case. */
  lemma FileNamesDistinct(names: seq<string>, files: seq<string>)
    requires |files| == |names|
    requires forall i :: 0 <= i < |names| ==> files[i] == names[i] + TextExtension
    requires PairwiseDistinctIgnoringCase(names)
    ensures PairwiseDistinctIgnoringCase(files)
  {
    forall i, j | 0 <= i < j < |files|
      ensures Lower(files[i]) != Lower(files[j])
    {
      ExtensionKeepsCaseDistinction(names[i], names[j]);
    }
  }

  /** Joined under one directory, safe names with `.txt` stay pairwise distinct ignoring case. */
  lemma SavePathsDistinct(outputDir: string, names: seq<string>, paths: seq<string>)
    requires |paths| == |names|
    requires forall i :: 0 <= i < |names| ==> IsSafeStage(names[i])
    requires forall i :: 0 <= i < |names| ==> paths[i] == JoinPath(outputDir, names[i] + TextExtension)
    requires PairwiseDistinctIgnoringCase(names)
    ensures PairwiseDistinctIgnoringCase(paths)
  {
    forall i, j | 0 <= i < j < |paths|
      ensures Lower(paths[i]) != Lower(paths[j])
    {
      FileNameHasNoSeparator(names[i]);
      FileNameHasNoSeparator(names[j]);
      ExtensionKeepsCaseDistinction(names[i], names[j]);
      JoinPathKeepsCaseDistinction(outputDir, names[i] + TextExtension, names[j] + TextExtension);
    }
  }

  /** The base name of the path built for a safe name is that name with `.txt`. */
  lemma BaseNameOfSavePath(outputDir: string, name: string)
    requires IsSafeStage(name)
    ensures BaseName(JoinPath(outputDir, name + TextExtension)) == name + TextExtension
  {
    FileNameHasNoSeparator(name);
    BaseNameOfJoin(outputDir, name + TextExtension);
  }

  /** `files` are `names` with `.txt`, position by position. */
  predicate FileNamesOf(names: seq<string>, files: seq<string>) {
    |files| == |names| && forall i :: 0 <= i < |names| ==> files[i] == names[i] + TextExtension
  }

  /** `paths` are `names` with `.txt` under `dir`, position by position. */
  predicate PathsOf(dir: string, names: seq<string>, paths: seq<string>) {
    |paths| == |names| && forall i :: 0 <= i < |names| ==> paths[i] == JoinPath(dir, names[i] + TextExtension)
  }

  lemma FileNamesOfAppend(names: seq<string>, files: seq<string>, name: string)
    requires FileNamesOf(names, files)
    ensures FileNamesOf(names + [name], files + [name + TextExtension])
  {
  }

  lemma PathsOfAppend(dir: string, names: seq<string>, paths: seq<string>, name: string, path: string)
    requires PathsOf(dir, names, paths) && path == JoinPath(dir, name + TextExtension)
    ensures PathsOf(dir, names + [name], paths + [path])
  {
  }

  /** vbaEXTRACTOR.py: the naming loop of `extract_vba_from_excel`. It returns
      the module count and the base names of the files written, which are the
      allocated names with `.txt` and pairwise distinct ignoring case. */
  method NameModules(outputDir: string, moduleNames: seq<string>)
    returns (count: nat, extractedFileNames: seq<string>)
    ensures count == |moduleNames| == |extractedFileNames|
    ensures forall i :: 0 <= i < count ==>
      extractedFileNames[i] == AllocateRun(moduleNames)[i] + TextExtension
    ensures PairwiseDistinctIgnoringCase(extractedFileNames)
  {
    count := 0;
    var usedNames := new NameSet();
    extractedFileNames := [];
    ghost var chosen: seq<string> := [];
    while count < |moduleNames|
      invariant count <= |moduleNames|
      invariant chosen == AllocateRun(moduleNames[..count])
      invariant usedNames.elems == LowerSet(chosen)
      invariant FileNamesOf(chosen, extractedFileNames)
    {
      ghost var name := Allocate(Sanitize(moduleNames[count]), usedNames.elems);
      AllocateRunStep(moduleNames, count);
      AllocateIsSafe(moduleNames[count], usedNames.elems);
      var savePath := BuildUniqueSavePath(outputDir, moduleNames[count], usedNames);
      BaseNameOfSavePath(outputDir, name);
      FileNamesOfAppend(chosen, extractedFileNames, name);
      extractedFileNames := extractedFileNames + [BaseName(savePath)];
      chosen := chosen + [name];
      count := count + 1;
    }
    assert moduleNames[..count] == moduleNames;
    AllocateRunDistinct(moduleNames);
    FileNamesDistinct(chosen, extractedFileNames);
  }

  /** vba_extractor.py: the run loop of `extract_vba_from_excel`. It returns
      the module count and the paths written, one per module, which are the
      allocated names with `.txt` under `outputDir` and pairwise distinct
      ignoring case, so no file of the run overwrites another. */
  method SavePaths(outputDir: string, moduleNames: seq<string>)
    returns (count: nat, savePaths: seq<string>)
    ensures count == |moduleNames| == |savePaths|
    ensures forall i :: 0 <= i < count ==>
      savePaths[i] == JoinPath(outputDir, AllocateRun(moduleNames)[i] + TextExtension)
    ensures PairwiseDistinctIgnoringCase(savePaths)
  {
    count := 0;
    var usedNames := new NameSet();
    savePaths := [];
    ghost var chosen: seq<string> := [];
    while count < |moduleNames|
      invariant count <= |moduleNames|
      invariant chosen == AllocateRun(moduleNames[..count])
      invariant usedNames.elems == LowerSet(chosen)
      invariant PathsOf(outputDir, chosen, savePaths)
    {
      ghost var name := Allocate(Sanitize(moduleNames[count]), usedNames.elems);
      AllocateRunStep(moduleNames, count);
      var savePath := BuildUniqueSavePath(outputDir, moduleNames[count], usedNames);
      PathsOfAppend(outputDir, chosen, savePaths, name, savePath);
      savePaths := savePaths + [savePath];
      chosen := chosen + [name];
      count := count + 1;
    }
    assert moduleNames[..count] == moduleNames;
    AllocateRunDistinct(moduleNames);
    AllocateRunSafe(moduleNames);
    SavePathsDistinct(outputDir, chosen, savePaths);
  }

  // ---------------------------------------------------------------------
  // Examples

  /** Two clean module names that are equal ignoring case: the first keeps its
      name, the second gets `_1`. */
  lemma RepeatedNameRun(first: string, second: string)
    requires IsClean(first) && IsClean(second) && |second| <= MaxLength - 2
    requires Lower(first) == Lower(second)
    ensures AllocateRun([first, second]) == [first, second + "_1"]
  {
    var run := [first, second];
    assert run[..1] == [first] && run[1] == second;
    FirstNameOfRunKept(run[..1]);
    LowerSetSingle(first);
    RepeatedNameGetsFirstSuffix(second, first);
    RunOfTwo(run, first, second + "_1");
  }

  /** A run of two modules whose first name is `x` and whose second module, allocated
      against `x`, is named `y`, is `[x, y]`. */
  lemma RunOfTwo(run: seq<string>, x: string, y: string)
    requires |run| == 2
    requires AllocateRun(run[..1]) == [x]
    requires Allocate(Sanitize(run[1]), LowerSet([x])) == y
    ensures AllocateRun(run) == [x, y]
  {
  }

  lemma FirstNameOfRunKept(run: seq<string>)
    requires |run| == 1 && IsClean(run[0])
    ensures AllocateRun(run) == [run[0]]
  {
    assert run[..0] == [];
    assert LowerSet([]) == {};
    CleanNameUnchanged(run[0]);
    AllocateSuffixRule(run[0], {});
  }

  lemma LowerSetSingle(x: string)
    ensures LowerSet([x]) == {Lower(x)}
  {
    LowerSetAppend([], x);
    assert [] + [x] == [x];
    assert LowerSet([]) == {};
  }

  /** A workbook with two modules called `Module1` yields `Module1.txt`, then `Module1_1.txt`. */
  lemma RepeatedModuleRun()
    ensures AllocateRun(["Module1", "Module1"]) == ["Module1", "Module1_1"]
  {
    ModuleOneIsClean();
    RepeatedNameRun("Module1", "Module1");
    SuffixedModuleName();
  }

  lemma SuffixedModuleName()
    ensures "Module1" + "_1" == "Module1_1"
  {
  }
}
