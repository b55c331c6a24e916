/** `build_unique_save_path`: sanitize a raw module name, then find a name
    that no earlier module of the same extraction run has taken, ignoring
    case, by appending `_1`, `_2`, ... and record it in the caller's
    `used_names` set. */
module UniquePath {
  import opened Text
  import opened Sanitizer
  import opened Paths

  const TextExtension: string := ".txt"

  /** `f"_{index}"`. */
  function Suffix(k: nat): string {
    "_" + DecimalString(k)
  }

  /** `max(1, 120 - len(suffix))`: how much of the base name a suffixed candidate keeps. */
  function Allowed(k: nat): nat {
    if MaxLength - |Suffix(k)| < 1 then 1 else MaxLength - |Suffix(k)|
  }

  /** `s[:n]`, which Python clamps to the length of `s`. */
  function Clip(s: string, n: nat): (r: string)
    ensures |r| <= n && |r| <= |s| && r == s[..|r|]
    ensures |r| == n || r == s
  {
    if n < |s| then s[..n] else s
  }

  /** The candidate vbaEXTRACTOR.py lines 49-51 build for the counter `k`: the base clipped to
      `Allowed(k)` characters, followed by the suffix. */
  function Candidate(base: string, k: nat): string {
    Clip(base, Allowed(k)) + Suffix(k)
  }

  /** The suffix ends with a digit, so the `rstrip(" .")` of vbaEXTRACTOR.py line 52 never removes anything. */
  lemma CandidateKeptByRStrip(base: string, k: nat)
    ensures RStrip(Clip(base, Allowed(k)) + Suffix(k), IsSpaceOrDot) == Candidate(base, k)
  {
    var s := Clip(base, Allowed(k)) + Suffix(k);
    assert s[|s| - 1] == DecimalString(k)[|DecimalString(k)| - 1];
    assert IsDigit(s[|s| - 1]);
  }

  /** A suffixed candidate fits in `MaxLength` as long as the suffix itself does not exceed 119 characters. */
  lemma CandidateLength(base: string, k: nat)
    requires |Suffix(k)| <= MaxLength - 1
    ensures |Candidate(base, k)| <= MaxLength
  {
  }

  /** The counter a (lower-cased) candidate was made with: the digits after its last `_`. */
  function SuffixIndex(name: string): nat {
    ParseDecimal(AfterLast(name, '_'))
  }

  /** Lower-casing keeps `_` and the digits, so the counter can be read back from the lower-cased candidate. */
  lemma SuffixIndexOfCandidate(base: string, k: nat)
    ensures SuffixIndex(Lower(Candidate(base, k))) == k
  {
    var head := Lower(Clip(base, Allowed(k)));
    LowerCandidate(base, k);
    DigitsHaveNoUnderscore(k);
    AfterLastAppend(head + "_", DecimalString(k), '_');
    assert AfterLast(head + "_", '_') == [];
    ParseDecimalString(k);
  }

  lemma LowerCandidate(base: string, k: nat)
    ensures Lower(Candidate(base, k)) == Lower(Clip(base, Allowed(k))) + "_" + DecimalString(k)
  {
    LowerSuffix(k);
    LowerConcat(Clip(base, Allowed(k)), Suffix(k));
  }

  lemma LowerSuffix(k: nat)
    ensures Lower(Suffix(k)) == Suffix(k)
  {
    var s := Suffix(k);
    assert forall i :: 1 <= i < |s| ==> s[i] == DecimalString(k)[i - 1];
    LowerKeepsNonLetters(s);
  }

  lemma DigitsHaveNoUnderscore(k: nat)
    ensures '_' !in DecimalString(k)
  {
  }

  /** Different counters give candidates that differ even ignoring case. */
  lemma CandidatesDistinct(base: string, j: nat, k: nat)
    requires j != k
    ensures Lower(Candidate(base, j)) != Lower(Candidate(base, k))
  {
    SuffixIndexOfCandidate(base, j);
    SuffixIndexOfCandidate(base, k);
  }

  /** The lower-cased candidates for the counters 1 .. k-1. */
  ghost function TriedNames(base: string, k: nat): set<string>
    decreases k
  {
    if k <= 1 then {} else TriedNames(base, k - 1) + {Lower(Candidate(base, k - 1))}
  }

  /** Every name tried before counter `k` carries a suffix index below `k`. */
  lemma {:induction false} TriedNamesBelow(base: string, k: nat)
    ensures forall x :: x in TriedNames(base, k) ==> SuffixIndex(x) < k
    decreases k
  {
    if k > 1 {
      TriedNamesBelow(base, k - 1);
      SuffixIndexOfCandidate(base, k - 1);
    }
  }

  lemma {:induction false} TriedNamesCount(base: string, k: nat)
    requires 1 <= k
    ensures |TriedNames(base, k)| == k - 1
    decreases k
  {
    if k > 1 {
      var earlier := TriedNames(base, k - 1);
      var next := Lower(Candidate(base, k - 1));
      assert next !in earlier by {
        TriedNamesBelow(base, k - 1);
        SuffixIndexOfCandidate(base, k - 1);
      }
      TriedNamesCount(base, k - 1);
      assert TriedNames(base, k) == earlier + {next};
    }
  }

  lemma {:induction false} TriedNamesTaken(base: string, used: set<string>, k: nat)
    requires forall j :: 1 <= j < k ==> Lower(Candidate(base, j)) in used
    ensures TriedNames(base, k) <= used
    decreases k
  {
    if k > 1 {
      TriedNamesTaken(base, used, k - 1);
    }
  }

  lemma SubsetCardinality(a: set<string>, b: set<string>)
    requires a <= b
    ensures |a| <= |b|
  {
    assert b == a + (b - a);
  }

  /** Candidates 1 .. k-1 are pairwise different, so they can all be taken only when `used` has k-1 elements. */
  lemma TakenCandidatesBound(base: string, used: set<string>, k: nat)
    requires 1 <= k
    requires forall j :: 1 <= j < k ==> Lower(Candidate(base, j)) in used
    ensures k - 1 <= |used|
  {
    TriedNamesCount(base, k);
    TriedNamesTaken(base, used, k);
    SubsetCardinality(TriedNames(base, k), used);
  }

  /** The first counter from `k` on whose candidate is free, given that the ones before `k` are taken. */
  function FirstFreeIndex(base: string, used: set<string>, k: nat): (n: nat)
    requires 1 <= k
    requires forall j :: 1 <= j < k ==> Lower(Candidate(base, j)) in used
    ensures k <= n <= |used| + 1
    ensures Lower(Candidate(base, n)) !in used
    ensures forall j :: 1 <= j < n ==> Lower(Candidate(base, j)) in used
    decreases |used| + 1 - k
  {
    if Lower(Candidate(base, k)) !in used then
      TakenCandidatesBound(base, used, k);
      k
    else
      TakenCandidatesBound(base, used, k + 1);
      FirstFreeIndex(base, used, k + 1)
  }

  /** The counter the loop of vbaEXTRACTOR.py lines 48-53 stops at: 0 when the base name itself is free. */
  function ChosenIndex(base: string, used: set<string>): nat {
    if Lower(base) !in used then 0 else FirstFreeIndex(base, used, 1)
  }

  /** The name vbaEXTRACTOR.py lines 44-53 settle on for `base` against the set `used`. */
  function Allocate(base: string, used: set<string>): (name: string)
    ensures Lower(name) !in used
  {
    var k := ChosenIndex(base, used);
    if k == 0 then base else Candidate(base, k)
  }

  /** The suffix rule: the base when it is free; otherwise the clipped base
      with `_k` for the first free counter k, which is at most |used| + 1. */
  lemma AllocateSuffixRule(base: string, used: set<string>)
    ensures Lower(base) !in used ==> Allocate(base, used) == base
    ensures Lower(base) in used ==>
      var k := ChosenIndex(base, used);
      && 1 <= k <= |used| + 1
      && Allocate(base, used) == Clip(base, Allowed(k)) + Suffix(k)
      && Lower(Allocate(base, used)) !in used
      && forall j :: 1 <= j < k ==> Lower(Candidate(base, j)) in used
  {
    if Lower(base) in used {
    }
  }

  /** A suffixed candidate of a safe base is safe: the clipped base keeps its
      characters and the suffix is `_` and digits. */
  lemma CandidateIsSafe(base: string, k: nat)
    requires IsSafeStage(base)
    ensures IsSafeStage(Candidate(base, k))
  {
    var head := Clip(base, Allowed(k));
    var tail := Suffix(k);
    SliceKeepsLegal(base, 0, |head|);
    assert head == base[0..|head|];
    assert forall i :: 1 <= i < |tail| ==> tail[i] == DecimalString(k)[i - 1];
    assert HasNoIllegalChar(tail);
    var name := head + tail;
    assert forall i :: |head| <= i < |name| ==> name[i] == tail[i - |head|];
    assert name[|name| - 1] == tail[|tail| - 1];
  }

  /** Allocation keeps a safe base safe, and within `MaxLength` while the
      counter it may need, at most |used| + 1, has at most 118 digits. */
  lemma AllocateKeepsSafe(base: string, used: set<string>)
    requires IsSafeStage(base) && |base| <= MaxLength
    ensures IsSafeStage(Allocate(base, used))
    ensures |DecimalString(|used| + 1)| <= MaxLength - 2 ==> |Allocate(base, used)| <= MaxLength
  {
    var k := ChosenIndex(base, used);
    if k != 0 {
      CandidateIsSafe(base, k);
      if |DecimalString(|used| + 1)| <= MaxLength - 2 {
        DecimalStringLengthMonotone(k, |used| + 1);
        CandidateLength(base, k);
      }
    }
  }

  /** The name built for a module: never empty, no illegal character, no
      trailing dot, and within `MaxLength` while the counter has at most 118 digits. */
  lemma AllocateIsSafe(raw: string, used: set<string>)
    ensures IsSafeStage(Allocate(Sanitize(raw), used))
    ensures |DecimalString(|used| + 1)| <= MaxLength - 2 ==> |Allocate(Sanitize(raw), used)| <= MaxLength
  {
    SanitizeIsSafe(raw);
    AllocateKeepsSafe(Sanitize(raw), used);
  }

  /** The caller-owned `used_names` set of one extraction run: the lower-cased names handed out so far. */
  class NameSet {
    var elems: set<string>

    constructor ()
      ensures elems == {}
    {
      elems := {};
    }
  }

  /** A taken candidate sends the search on to the next counter. */
  lemma FirstFreeIndexStep(base: string, used: set<string>, k: nat)
    requires 1 <= k
    requires forall j :: 1 <= j < k ==> Lower(Candidate(base, j)) in used
    requires Lower(Candidate(base, k)) in used
    ensures FirstFreeIndex(base, used, k) == FirstFreeIndex(base, used, k + 1)
  {
  }

  lemma AddNewName(used: set<string>, x: string)
    requires x !in used
    ensures |used + {x}| == |used| + 1
  {
  }

  /** vbaEXTRACTOR.py lines 45-53: the loop that tries the base name, then `_1`, `_2`, ...
      until a name is free in `used`, ignoring case. */
  method FindFreeName(baseName: string, used: set<string>) returns (candidate: string)
    ensures candidate == Allocate(baseName, used)
  {
    candidate := baseName;
    var index := 1;
    while Lower(candidate) in used
      invariant 1 <= index
      invariant index == 1 ==> candidate == baseName
      invariant 1 < index ==> Lower(baseName) in used
      invariant 1 < index ==> candidate == Candidate(baseName, index - 1)
      invariant forall j :: 1 <= j < index - 1 ==> Lower(Candidate(baseName, j)) in used
      invariant 1 < index ==> ChosenIndex(baseName, used) == FirstFreeIndex(baseName, used, index - 1)
      decreases |used| + 1 - index
    {
      if 1 < index {
        FirstFreeIndexStep(baseName, used, index - 1);
        TakenCandidatesBound(baseName, used, index);
      }
      var suffix := "_" + DecimalString(index);
      var allowed := if MaxLength - |suffix| < 1 then 1 else MaxLength - |suffix|;
      assert suffix == Suffix(index) && allowed == Allowed(index);
      candidate := Clip(baseName, allowed) + suffix;
      CandidateKeptByRStrip(baseName, index);
      candidate := RStrip(candidate, IsSpaceOrDot);
      index := index + 1;
    }
  }

  /** `build_unique_save_path(output_dir, raw_name, used_names)`: the path of
      the allocated name with `.txt`, after recording the name, lower-cased, in
      `usedNames`, which grows by exactly that one name. */
  method BuildUniqueSavePath(outputDir: string, rawName: string, usedNames: NameSet) returns (path: string)
    modifies usedNames
    ensures var name := Allocate(Sanitize(rawName), old(usedNames.elems));
      && path == JoinPath(outputDir, name + TextExtension)
      && Lower(name) !in old(usedNames.elems)
      && usedNames.elems == old(usedNames.elems) + {Lower(name)}
    ensures |usedNames.elems| == |old(usedNames.elems)| + 1
  {
    var baseName := Sanitize(rawName);
    var candidate := FindFreeName(baseName, usedNames.elems);
    AddNewName(usedNames.elems, Lower(candidate));
    usedNames.elems := usedNames.elems + {Lower(candidate)};
    path := JoinPath(outputDir, candidate + TextExtension);
  }

  // ---------------------------------------------------------------------
  // Examples

  /** A base whose own name is taken but whose `_1` form is free gets `_1`. */
  lemma FirstSuffix(base: string, used: set<string>)
    requires |base| <= MaxLength - 2
    requires used == {Lower(base)}
    ensures Allocate(base, used) == base + "_1"
  {
    assert Lower(Candidate(base, 1)) !in used by {
      FirstCandidate(base);
      assert |Lower(Candidate(base, 1))| == |base| + 2;
    }
    assert ChosenIndex(base, used) == 1;
    FirstCandidate(base);
  }

  lemma FirstCandidate(base: string)
    requires |base| <= MaxLength - 2
    ensures Candidate(base, 1) == base + "_1"
  {
    assert Suffix(1) == "_1";
    assert Allowed(1) == MaxLength - 2;
  }

  lemma ModuleOneIsClean()
    ensures IsClean("Module1")
  {
    assert IsTidy("Module1");
    StemWithoutDot("Module1");
    NotReservedByLength("Module1");
  }

  lemma ModuleOneClean()
    ensures Sanitize("Module1") == "Module1"
  {
    ModuleOneIsClean();
    CleanNameUnchanged("Module1");
  }

  /** The first `Module1` of a run keeps its name. */
  lemma AllocateFirstModule()
    ensures Allocate(Sanitize("Module1"), {}) == "Module1"
  {
    ModuleOneClean();
  }

  /** A clean name seen again in the same run, in the same or another case,
      gets `_1`: `Module1` after `Module1` or after `module1` becomes `Module1_1`. */
  lemma RepeatedNameGetsFirstSuffix(raw: string, earlier: string)
    requires IsClean(raw) && |raw| <= MaxLength - 2
    requires Lower(earlier) == Lower(raw)
    ensures Allocate(Sanitize(raw), {Lower(earlier)}) == raw + "_1"
  {
    CleanNameUnchanged(raw);
    FirstSuffix(raw, {Lower(raw)});
  }
}
