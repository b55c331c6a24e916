/** `sanitize_filename`: an untrusted VBA module name made into a file name
    that Windows accepts. Both program versions carry the same definition,
    with the defaults `default_name="module"` and `max_length=120` that every
    caller uses. */
module Sanitizer {
  import opened Text

  const MaxLength: nat := 120
  const DefaultName: string := "module"

  /** `WINDOWS_RESERVED_NAMES`: DOS device names Windows refuses as a file stem. */
  const ReservedNames: set<string> := {
    "CON", "PRN", "AUX", "NUL",
    "COM1", "COM2", "COM3", "COM4", "COM5", "COM6", "COM7", "COM8", "COM9",
    "LPT1", "LPT2", "LPT3", "LPT4", "LPT5", "LPT6", "LPT7", "LPT8", "LPT9"
  }

  /** The character class `[<>:"/\\|?*\x00-\x1F]` of the replacement pattern. */
  predicate IsIllegalChar(c: char) {
    || c == '<' || c == '>' || c == ':' || c == '"' || c == '/'
    || c == '\\' || c == '|' || c == '?' || c == '*'
    || c as int < 0x20
  }

  predicate HasNoIllegalChar(s: string) {
    forall i :: 0 <= i < |s| ==> !IsIllegalChar(s[i])
  }

  /** `re.sub(pattern, "_", name)`: every illegal character becomes `_`, every other one stays. */
  function ReplaceIllegal(s: string): (r: string)
    ensures |r| == |s|
    ensures forall i :: 0 <= i < |s| && IsIllegalChar(s[i]) ==> r[i] == '_'
    ensures forall i :: 0 <= i < |s| && !IsIllegalChar(s[i]) ==> r[i] == s[i]
    ensures HasNoIllegalChar(r)
  {
    if s == [] then []
    else [if IsIllegalChar(s[0]) then '_' else s[0]] + ReplaceIllegal(s[1..])
  }

  /** `s.split(".")[0]`: everything before the first dot. */
  function Stem(s: string): (r: string)
    ensures |r| <= |s| && r == s[..|r|]
    ensures '.' !in r
    ensures |r| == |s| || s[|r|] == '.'
  {
    if s == [] || s[0] == '.' then [] else [s[0]] + Stem(s[1..])
  }

  /** The reserved-name test: the stem, upper-cased, is a device name. */
  predicate IsReservedStem(s: string) {
    Upper(Stem(s)) in ReservedNames
  }

  /** vbaEXTRACTOR.py lines 26-30: replacement, `strip()`, `rstrip(".")` and the fallback to the default name. */
  function Cleaned(name: string): string {
    var trimmed := RStrip(Strip(ReplaceIllegal(name)), IsDot);
    if trimmed == [] then DefaultName else trimmed
  }

  /** What every stage after the cleaning one keeps: not empty, legal, no trailing dot. */
  predicate IsSafeStage(s: string) {
    s != [] && HasNoIllegalChar(s) && s[|s| - 1] != '.'
  }

  /** `_` put in front of a name whose stem is reserved. */
  function PrefixReserved(c: string): string {
    if IsReservedStem(c) then "_" + c else c
  }

  /** The cut to `MaxLength`, followed by `rstrip(" .")`, applied only to a name that is too long. */
  function Truncate(p: string): (t: string)
    ensures |t| <= MaxLength
    ensures |p| <= MaxLength ==> t == p
  {
    if |p| > MaxLength then RStrip(p[..MaxLength], IsSpaceOrDot) else p
  }

  /** vbaEXTRACTOR.py lines 32-39: the reserved-name prefix, the cut, and the final fallback. */
  function Finish(c: string): string {
    var t := Truncate(PrefixReserved(c));
    if t == [] then DefaultName else t
  }

  /** `sanitize_filename(name)` with its default arguments. */
  function Sanitize(name: string): string {
    Finish(Cleaned(name))
  }

  /** The cut keeps a name legal, never leaves a trailing dot, and keeps a leading `_`. */
  lemma TruncateIsSafe(p: string)
    requires IsSafeStage(p)
    ensures HasNoIllegalChar(Truncate(p))
    ensures var t := Truncate(p); t == [] || t[|t| - 1] != '.'
    ensures p[0] == '_' ==> Truncate(p) != [] && Truncate(p)[0] == '_'
  {
    if |p| > MaxLength {
      var t := RStrip(p[..MaxLength], IsSpaceOrDot);
      SliceKeepsLegal(p, 0, MaxLength);
      SliceKeepsLegal(p[..MaxLength], 0, |t|);
      assert t == p[..MaxLength][0..|t|];
    }
  }

  lemma SliceKeepsLegal(s: string, lo: nat, hi: nat)
    requires lo <= hi <= |s|
    requires HasNoIllegalChar(s)
    ensures HasNoIllegalChar(s[lo..hi])
  {
    assert forall i :: 0 <= i < hi - lo ==> s[lo..hi][i] == s[lo + i];
  }

  lemma DefaultNameIsSafe()
    ensures IsSafeStage(DefaultName) && |DefaultName| <= MaxLength
    ensures !IsSpace(DefaultName[0]) && !IsSpace(DefaultName[|DefaultName| - 1])
  {
  }

  lemma DefaultNameNotReserved()
    ensures !IsReservedStem(DefaultName)
  {
    StemWithoutDot(DefaultName);
    NotReservedByLength(DefaultName);
  }

  lemma StemWithoutDot(s: string)
    requires '.' !in s
    ensures Stem(s) == s
  {
  }

  /** Every device name has three or four letters, so a stem of another length is never one. */
  lemma NotReservedByLength(s: string)
    requires |Stem(s)| < 3 || 4 < |Stem(s)|
    ensures !IsReservedStem(s)
  {
    assert |Upper(Stem(s))| == |Stem(s)|;
  }

  /** The cleaning stage never leaves an empty name, an illegal character or a trailing dot. */
  lemma CleanedIsSafe(name: string)
    ensures IsSafeStage(Cleaned(name))
  {
    var trimmed := RStrip(Strip(ReplaceIllegal(name)), IsDot);
    TrimmedIsLegal(name);
    if trimmed == [] {
      DefaultNameIsSafe();
    }
  }

  lemma TrimmedIsLegal(name: string)
    ensures HasNoIllegalChar(RStrip(Strip(ReplaceIllegal(name)), IsDot))
  {
    var replaced := ReplaceIllegal(name);
    var left := LStrip(replaced, IsSpace);
    var stripped := RStrip(left, IsSpace);
    var trimmed := RStrip(stripped, IsDot);
    SliceKeepsLegal(replaced, |replaced| - |left|, |replaced|);
    SliceKeepsLegal(left, 0, |stripped|);
    SliceKeepsLegal(stripped, 0, |trimmed|);
  }

  lemma PrefixReservedIsSafe(c: string)
    requires IsSafeStage(c)
    ensures IsSafeStage(PrefixReserved(c))
    ensures IsReservedStem(c) ==> PrefixReserved(c) == "_" + c
    ensures !IsReservedStem(c) ==> PrefixReserved(c) == c
  {
    if IsReservedStem(c) {
      PrefixKeepsLegal(c);
    }
  }

  /** Every character `_` or taken from a legal text is legal. */
  lemma PrefixKeepsLegal(s: string)
    requires HasNoIllegalChar(s)
    ensures HasNoIllegalChar("_" + s)
  {
    assert forall i :: 1 <= i < |"_" + s| ==> ("_" + s)[i] == s[i - 1];
  }

  /** A stem starting with `_` is never a device name. */
  lemma UnderscoreStemNotReserved(s: string)
    requires s != [] && s[0] == '_'
    ensures !IsReservedStem(s)
  {
    var u := Upper(Stem(s));
    assert |Stem(s)| > 0 && u[0] == '_';
  }

  lemma FinishIsSafe(c: string)
    requires IsSafeStage(c)
    ensures IsSafeStage(Finish(c)) && |Finish(c)| <= MaxLength
    ensures IsReservedStem(c) ==> Finish(c)[0] == '_'
    ensures |PrefixReserved(c)| <= MaxLength ==> Finish(c) == PrefixReserved(c)
  {
    PrefixReservedIsSafe(c);
    TruncateIsSafe(PrefixReserved(c));
    DefaultNameIsSafe();
  }

  // ---------------------------------------------------------------------
  // Properties of the result

  /** The result is never empty, at most `MaxLength` long, free of illegal
      characters, never ends with a dot, and starts with `_` when the cleaned
      name has a reserved stem. */
  lemma SanitizeIsSafe(name: string)
    ensures Sanitize(name) != []
    ensures |Sanitize(name)| <= MaxLength
    ensures HasNoIllegalChar(Sanitize(name))
    ensures Sanitize(name)[|Sanitize(name)| - 1] != '.'
    ensures IsReservedStem(Cleaned(name)) ==> Sanitize(name)[0] == '_'
  {
    CleanedIsSafe(name);
    FinishIsSafe(Cleaned(name));
  }

  /** If no cut to `MaxLength` happens, the stem of the result is never a device name. */
  lemma NotReservedWithoutTruncation(name: string)
    requires |PrefixReserved(Cleaned(name))| <= MaxLength
    ensures !IsReservedStem(Sanitize(name))
  {
    var c := Cleaned(name);
    CleanedIsSafe(name);
    FinishIsSafe(c);
    PrefixReservedIsSafe(c);
    if IsReservedStem(c) {
      UnderscoreStemNotReserved("_" + c);
    }
  }

  /** A reserved stem gets the `_` prefix, whatever extension follows it. */
  lemma ReservedStemGetsPrefix(name: string)
    requires IsReservedStem(Cleaned(name))
    ensures Sanitize(name)[0] == '_'
    ensures |Cleaned(name)| < MaxLength ==> Sanitize(name) == "_" + Cleaned(name)
  {
    CleanedIsSafe(name);
    FinishIsSafe(Cleaned(name));
    PrefixReservedIsSafe(Cleaned(name));
  }

  /** Empty input, input of only (non-control) whitespace, and input of only
      dots all fall back to the default name. */
  lemma DegenerateNameGivesDefault(name: string)
    requires
      || (forall i :: 0 <= i < |name| ==> IsSpace(name[i]) && !IsIllegalChar(name[i]))
      || (forall i :: 0 <= i < |name| ==> name[i] == '.')
    ensures Sanitize(name) == DefaultName
  {
    DegenerateNameCleaned(name);
    DefaultNameIsSafe();
    DefaultNameNotReserved();
    CleanNameFinished(DefaultName);
  }

  lemma DegenerateNameCleaned(name: string)
    requires
      || (forall i :: 0 <= i < |name| ==> IsSpace(name[i]) && !IsIllegalChar(name[i]))
      || (forall i :: 0 <= i < |name| ==> name[i] == '.')
    ensures Cleaned(name) == DefaultName
  {
    var replaced := ReplaceIllegal(name);
    assert replaced == name;
    var left := LStrip(name, IsSpace);
    var stripped := RStrip(left, IsSpace);
    if forall i :: 0 <= i < |name| ==> name[i] == '.' {
      if name != [] {
        assert !IsSpace(name[0]) && !IsSpace(name[|name| - 1]);
        assert left == name;
        assert stripped == name;
      }
      var trimmed := RStrip(stripped, IsDot);
      assert trimmed == [];
    } else {
      assert left == [];
    }
  }

  /** Nothing for the replacement, `strip()` or `rstrip(".")` to change. */
  predicate IsTidy(s: string) {
    && IsSafeStage(s)
    && !IsSpace(s[0])
    && !IsSpace(s[|s| - 1])
  }

  /** A tidy name passes the cleaning stage unchanged. */
  lemma TidyNameCleaned(s: string)
    requires IsTidy(s)
    ensures Cleaned(s) == s
  {
    assert ReplaceIllegal(s) == s;
    assert LStrip(s, IsSpace) == s;
    assert RStrip(s, IsSpace) == s;
    assert RStrip(s, IsDot) == s;
  }

  /** A name already clean: tidy, with a stem that is not a device name, and short enough. */
  predicate IsClean(s: string) {
    IsTidy(s) && !IsReservedStem(s) && |s| <= MaxLength
  }

  lemma CleanNameFinished(s: string)
    requires IsSafeStage(s) && !IsReservedStem(s) && |s| <= MaxLength
    ensures Finish(s) == s
  {
    FinishIsSafe(s);
  }

  /** A clean name comes back unchanged. */
  lemma CleanNameUnchanged(s: string)
    requires IsClean(s)
    ensures Sanitize(s) == s
  {
    TidyNameCleaned(s);
    CleanNameFinished(s);
  }

  /** The stem ends at the first dot. */
  lemma StemAtFirstDot(s: string, k: nat)
    requires k < |s| && s[k] == '.' && '.' !in s[..k]
    ensures Stem(s) == s[..k]
  {
  }

  /** A stem of one or two characters is never a device name. */
  lemma ShortNameNotReserved(s: string)
    requires |s| < 3
    ensures !IsReservedStem(s)
  {
    NotReservedByLength(s);
  }

  /** When the cleaning stage yields a short name without a reserved stem, that name is the result. */
  lemma CleanedNameFinished(name: string, c: string)
    requires Cleaned(name) == c
    requires !IsReservedStem(c) && |c| <= MaxLength
    ensures Sanitize(name) == c
  {
    CleanedIsSafe(name);
    CleanNameFinished(c);
  }

  /** When the cleaning stage yields a short name with a reserved stem, the result is that name after `_`. */
  lemma CleanedNamePrefixed(name: string, c: string)
    requires Cleaned(name) == c
    requires IsReservedStem(c) && |c| < MaxLength
    ensures Sanitize(name) == "_" + c
  {
    ReservedStemGetsPrefix(name);
  }

  /** When the cleaning stage yields a name longer than `MaxLength` without a
      reserved stem, the result is the cut name, or the default name when the
      cut leaves nothing. */
  lemma CleanedNameCut(name: string, c: string, r: string)
    requires Cleaned(name) == c
    requires !IsReservedStem(c) && |c| > MaxLength
    requires RStrip(c[..MaxLength], IsSpaceOrDot) == r
    ensures Sanitize(name) == if r == [] then DefaultName else r
  {
  }

  // ---------------------------------------------------------------------
  // Examples

  lemma SanitizeReplacesIllegal()
    ensures Sanitize("a:b/c") == "a_b_c"
  {
    IllegalReplacedWhenCleaned();
    UnderscoredNameNotReserved();
    CleanedNameFinished("a:b/c", "a_b_c");
  }

  lemma IllegalReplacedWhenCleaned()
    ensures Cleaned("a:b/c") == "a_b_c"
  {
    var c := "a_b_c";
    assert ReplaceIllegal("a:b/c") == c;
    assert IsTidy(c);
    TidyNameCleaned(c);
  }

  lemma UnderscoredNameNotReserved()
    ensures !IsReservedStem("a_b_c")
  {
    StemWithoutDot("a_b_c");
    NotReservedByLength("a_b_c");
  }

  lemma SanitizePrefixesDeviceName()
    ensures Sanitize("CON") == "_CON"
  {
    DeviceNameCleaned("CON");
    DeviceNameReserved();
    CleanedNamePrefixed("CON", "CON");
    PrefixedDeviceNames();
  }

  lemma SanitizePrefixesDeviceNameWithExtension()
    ensures Sanitize("con.txt") == "_con.txt"
  {
    DeviceNameCleaned("con.txt");
    DeviceNameWithExtensionReserved();
    CleanedNamePrefixed("con.txt", "con.txt");
    PrefixedDeviceNames();
  }

  /** The `_` prefixes of the two examples above, spelled out. */
  lemma PrefixedDeviceNames()
    ensures "_" + "CON" == "_CON" && "_" + "con.txt" == "_con.txt"
  {
  }

  lemma DeviceNameCleaned(s: string)
    requires s == "CON" || s == "con.txt"
    ensures Cleaned(s) == s
  {
    assert IsTidy(s);
    TidyNameCleaned(s);
  }

  lemma DeviceNameReserved()
    ensures IsReservedStem("CON")
  {
    StemWithoutDot("CON");
    assert Upper("CON") == "CON";
  }

  lemma DeviceNameWithExtensionReserved()
    ensures IsReservedStem("con.txt")
  {
    StemAtFirstDot("con.txt", 3);
    assert Upper("con") == "CON";
  }

  lemma SanitizeEmptyGivesDefault()
    ensures Sanitize("") == "module"
  {
    DegenerateNameGivesDefault("");
  }

  // ---------------------------------------------------------------------
  // Two things the code does not promise

  /** Sanitizing is not idempotent: `strip()` runs before `rstrip(".")`, so a
      space uncovered by removing the dots stays, and a second pass removes it. */
  lemma SanitizeNotIdempotent()
    ensures Sanitize("a .") == "a "
    ensures Sanitize("a ") == "a"
  {
    SanitizeKeepsUncoveredSpace();
    SanitizeStripsSpace();
  }

  lemma SanitizeKeepsUncoveredSpace()
    ensures Sanitize("a .") == "a "
  {
    DotRemovedWhenCleaned();
    ShortNameNotReserved("a ");
    CleanedNameFinished("a .", "a ");
  }

  lemma DotRemovedWhenCleaned()
    ensures Cleaned("a .") == "a "
  {
    DotNameNotReplaced();
    DotNameNotStripped();
    DotStripped();
  }

  lemma DotNameNotStripped()
    ensures Strip("a .") == "a ."
  {
    var n := "a .";
    assert n[0] == 'a' && n[|n| - 1] == '.';
    StripKeepsTrimmed(n);
  }

  lemma DotStripped()
    ensures RStrip("a .", IsDot) == "a "
  {
    var n := "a .";
    assert RStrip(n, IsDot) == RStrip(n[..2], IsDot);
    assert n[..2] == "a ";
  }

  lemma SanitizeStripsSpace()
    ensures Sanitize("a ") == "a"
  {
    SpaceStrippedWhenCleaned();
    ShortNameNotReserved("a");
    CleanedNameFinished("a ", "a");
  }

  lemma SpaceStrippedWhenCleaned()
    ensures Cleaned("a ") == "a"
  {
    SpaceNotReplaced();
    SpaceStripped();
    assert RStrip("a", IsDot) == "a";
  }

  lemma DotNameNotReplaced()
    ensures ReplaceIllegal("a .") == "a ."
  { }

  lemma SpaceNotReplaced()
    ensures ReplaceIllegal("a ") == "a "
  { }

  lemma SpaceStripped()
    ensures Strip("a ") == "a"
  {
    var m := "a ";
    assert LStrip(m, IsSpace) == m;
    assert m[..1] == "a";
    assert RStrip(m, IsSpace) == "a";
  }

  /** The reserved-name test looks at the name before the cut, so the cut can
      expose a device name: here the stem is `"CON "` until `rstrip(" .")`
      removes the space and the 116 dots after it. */
  lemma TruncationCanExposeReservedName()
    ensures var name := "CON " + seq(116, i => '.') + "x";
      |name| == MaxLength + 1 && Sanitize(name) == "CON" && IsReservedStem(Sanitize(name))
  {
    var name := "CON " + seq(116, i => '.') + "x";
    LongNameIsCleanedUnchanged(name);
    LongNameCutToDevice(name);
    CleanedNameCut(name, name, "CON");
    DeviceNameReserved();
  }

  lemma LongNameIsCleanedUnchanged(name: string)
    requires name == "CON " + seq(116, i => '.') + "x"
    ensures |name| == MaxLength + 1
    ensures Cleaned(name) == name && !IsReservedStem(name)
  {
    LongNameIsTidy(name);
    TidyNameCleaned(name);
    LongNameStem(name);
  }

  lemma LongNameIsTidy(name: string)
    requires name == "CON " + seq(116, i => '.') + "x"
    ensures |name| == MaxLength + 1 && IsTidy(name)
  {
    assert forall i :: 0 <= i < |name| ==> name[i] in "CON .x";
  }

  lemma LongNameStem(name: string)
    requires name == "CON " + seq(116, i => '.') + "x"
    ensures !IsReservedStem(name)
  {
    StemAtFirstDot(name, 4);
    assert name[..4] == "CON ";
    assert Upper("CON ") == "CON ";
  }

  lemma LongNameCutToDevice(name: string)
    requires name == "CON " + seq(116, i => '.') + "x"
    ensures RStrip(name[..MaxLength], IsSpaceOrDot) == "CON"
  {
    var cut := name[..MaxLength];
    var r := RStrip(cut, IsSpaceOrDot);
    assert forall i :: 3 <= i < |cut| ==> IsSpaceOrDot(cut[i]);
    assert !IsSpaceOrDot(cut[2]);
    assert |r| == 3;
    assert r == cut[..3] == "CON";
  }

  /** The last fallback of `sanitize_filename` is reachable: 120 dots and an `x`
      pass the cleaning stage, but the cut keeps only the dots, which
      `rstrip(" .")` removes entirely. */
  lemma CutToNothingGivesDefault()
    ensures var name := seq(MaxLength, i => '.') + "x";
      |name| == MaxLength + 1 && Sanitize(name) == DefaultName
  {
    var name := seq(MaxLength, i => '.') + "x";
    DottedNameIsCleanedUnchanged(name);
    DottedNameCutToNothing(name);
    CleanedNameCut(name, name, []);
  }

  lemma DottedNameIsCleanedUnchanged(name: string)
    requires name == seq(MaxLength, i => '.') + "x"
    ensures |name| == MaxLength + 1
    ensures Cleaned(name) == name && !IsReservedStem(name)
  {
    DottedNameIsTidy(name);
    TidyNameCleaned(name);
    DottedNameStem(name);
  }

  lemma DottedNameIsTidy(name: string)
    requires name == seq(MaxLength, i => '.') + "x"
    ensures |name| == MaxLength + 1 && IsTidy(name)
  {
    assert forall i :: 0 <= i < |name| ==> name[i] in ".x";
  }

  lemma DottedNameStem(name: string)
    requires name == seq(MaxLength, i => '.') + "x"
    ensures !IsReservedStem(name)
  {
    assert name[0] == '.';
    assert Stem(name) == [];
    assert Upper([]) == [];
  }

  lemma DottedNameCutToNothing(name: string)
    requires name == seq(MaxLength, i => '.') + "x"
    ensures RStrip(name[..MaxLength], IsSpaceOrDot) == []
  {
    var cut := name[..MaxLength];
    assert forall i :: 0 <= i < |cut| ==> IsSpaceOrDot(cut[i]);
  }
}
