/**
 * The naming rules of the conversion and archive stages (server.js): which
 * directory entries are converted (line 79), what the converted file is called
 * (line 80) and which listed paths become archive entries, under what name
 * (lines 119-121).
 */
module Naming {
  import opened Outcomes
  import opened NodePath

  /** The alternatives of `/\.(jpg|jpeg|png)$/i`, in lower case. */
  const SourceExtensions: set<string> := {"jpg", "jpeg", "png"}

  /** The extension the conversion writes and the archive requires. */
  const TargetExtension: string := ".webp"

  /** The stem of a name without a slash has none either. */
  lemma StemKeepsSlashFree(name: string)
    requires '/' !in name
    ensures '/' !in Stem(name)
  {
    var stem := Stem(name);
    forall j | 0 <= j < |stem|
      ensures stem[j] != '/'
    {
      assert stem[j] == name[j];
    }
  }

  /** `s` ends with `suffix` (given in lower case) when case is ignored. */
  predicate EndsWithIgnoringCase(s: string, suffix: string) {
    |suffix| <= |s| && Lower(s[|s| - |suffix|..]) == suffix
  }

  /**
   * `/\.(jpg|jpeg|png)$/i.test(name)` (server.js:79): the name ends, ignoring
   * case, in one of the three alternatives; that alternative is then the
   * name's final extension.
   */
  predicate IsConvertible(name: string): (b: bool)
    ensures b ==>
      && FinalExtensionStart(name).Some?
      && Lower(name[FinalExtensionStart(name).value + 1..]) in SourceExtensions
  {
    if EndsWithIgnoringCase(name, ".jpg") then SuffixExtension(name, "jpg"); true
    else if EndsWithIgnoringCase(name, ".jpeg") then SuffixExtension(name, "jpeg"); true
    else if EndsWithIgnoringCase(name, ".png") then SuffixExtension(name, "png"); true
    else false
  }

  /**
   * Where `/\.[^.]+$/` matches in `s`: at a dot followed by at least one
   * character and by no further dot up to the end of `s`.
   */
  function FinalExtensionStart(s: string): (r: Option<nat>)
    ensures r.Some? ==> r.value < |s| - 1 && s[r.value] == '.' && forall j :: r.value < j < |s| ==> s[j] != '.'
    ensures r.None? <==> LastIndexOf(s, '.').None? || LastIndexOf(s, '.').value == |s| - 1
  {
    match LastIndexOf(s, '.')
    case None => None
    case Some(i) =>
      if i < |s| - 1 then Some(i)
      else None
  }

  /**
   * `s.replace(/\.[^.]+$/, replacement)`: the stem followed by `replacement`,
   * or `s` itself when there is no final extension to replace.
   */
  function ReplaceFinalExtension(s: string, replacement: string): (r: string)
    ensures FinalExtensionStart(s).None? ==> r == s
    ensures FinalExtensionStart(s).Some? ==> r == Stem(s) + replacement
  {
    match FinalExtensionStart(s)
    case None => s
    case Some(i) => s[..i] + replacement
  }

  /**
   * `filePath.replace(/\.[^.]+$/, '.webp')` (server.js:80): a path with a final
   * extension becomes its stem plus `.webp`, whose own final extension then
   * starts right after the stem; any other path is kept.
   */
  function WebPPath(p: string): (w: string)
    ensures FinalExtensionStart(p).None? ==> w == p
    ensures FinalExtensionStart(p).Some? ==>
      w == Stem(p) + TargetExtension && FinalExtensionStart(w) == Some(|Stem(p)|)
  {
    if FinalExtensionStart(p).Some? then
      TargetFinalExtension(Stem(p));
      ReplaceFinalExtension(p, TargetExtension)
    else ReplaceFinalExtension(p, TargetExtension)
  }

  /**
   * What the conversion keeps of a name: a prefix of it, the whole name exactly
   * when there is no final extension, and otherwise everything before a dot
   * that is followed by at least one character and by no other dot.
   */
  function Stem(name: string): (stem: string)
    ensures stem <= name
    ensures stem == name <==> FinalExtensionStart(name).None?
    ensures stem != name ==>
      && |stem| < |name| - 1 && name[|stem|] == '.'
      && forall j :: |stem| < j < |name| ==> name[j] != '.'
  {
    match FinalExtensionStart(name)
    case None => name
    case Some(i) => name[..i]
  }

  /**
   * `path.extname(p).toLowerCase() === '.webp'` (server.js:119-120). A path the
   * filter keeps never has a basename that line 79 would select.
   */
  predicate IsWebPEntry(p: string): (b: bool)
    ensures b ==> !IsConvertible(Basename(p))
  {
    var e := Extname(p);
    if Lower(e) == TargetExtension then
      WebPSuffixNotSource(Basename(p), e);
      true
    else false
  }

  /** A name ending, in any case, in `.webp` does not end in `.jpg`, `.jpeg` or `.png`. */
  lemma WebPSuffixNotSource(n: string, e: string)
    requires |e| < |n| && n[|n| - |e|..] == e && Lower(e) == TargetExtension
    ensures !IsConvertible(n)
  {
    assert |e| == 5;
    assert LowerChar(n[|n| - 1]) == 'p' by {
      assert Lower(e)[4] == LowerChar(e[4]);
      assert e[4] == n[|n| - 1];
    }
    forall ext | ext in SourceExtensions
      ensures !EndsWithIgnoringCase(n, "." + ext)
    {
      var k := |"." + ext|;
      if k <= |n| {
        assert Lower(n[|n| - k..])[k - 1] == LowerChar(n[|n| - 1]);
        assert ("." + ext)[k - 1] == 'g';
      }
    }
    assert "." + "jpg" == ".jpg" && "." + "jpeg" == ".jpeg" && "." + "png" == ".png";
  }

  /** Lower-casing a suffix: the first character, then the rest. */
  lemma LowerCons(s: string)
    requires |s| > 0
    ensures Lower(s) == [LowerChar(s[0])] + Lower(s[1..])
  {
  }

  /** A name ending in "." + `ext` has its final extension there. */
  lemma SuffixExtension(name: string, ext: string)
    requires ext in SourceExtensions
    requires EndsWithIgnoringCase(name, "." + ext)
    ensures FinalExtensionStart(name) == Some(|name| - |ext| - 1)
    ensures Lower(name[|name| - |ext|..]) == ext
  {
    var i := |name| - |ext| - 1;
    var t := name[i..];
    assert Lower(t) == "." + ext;
    LowerCons(t);
    assert ("." + ext)[0] == '.' && ("." + ext)[1..] == ext;
    assert LowerChar(t[0]) == '.';
    LowerCharKeepsSeparators(name[i]);
    assert name[i] == '.';
    assert t[1..] == name[i + 1..];
    assert Lower(name[i + 1..]) == ext;
    assert '.' !in ext;
    forall j | i < j < |name|
      ensures name[j] != '.'
    {
      assert Lower(name[i + 1..])[j - i - 1] == LowerChar(name[j]);
      LowerCharKeepsSeparators(name[j]);
    }
    LastIndexOfAt(name, '.', i);
  }

  /** From a dot and a source extension after it back to the regex of line 79. */
  lemma ExtensionSuffix(name: string, i: nat)
    requires i < |name| && name[i] == '.'
    requires Lower(name[i + 1..]) in SourceExtensions
    ensures IsConvertible(name)
  {
    var ext := Lower(name[i + 1..]);
    LowerCons(name[i..]);
    assert name[i..][1..] == name[i + 1..];
    assert Lower(name[i..]) == "." + ext;
    assert name[|name| - |"." + ext|..] == name[i..];
    assert EndsWithIgnoringCase(name, "." + ext);
  }

  /**
   * A name is selected for conversion exactly when `/\.[^.]+$/` finds a final
   * extension in it and that extension is jpg, jpeg or png in any case.
   */
  lemma ConvertibleIffSourceExtension(name: string)
    ensures IsConvertible(name) <==>
      && FinalExtensionStart(name).Some?
      && Lower(name[FinalExtensionStart(name).value + 1..]) in SourceExtensions
  {
    if !IsConvertible(name) && FinalExtensionStart(name).Some? {
      var i := FinalExtensionStart(name).value;
      var ext := Lower(name[i + 1..]);
      if ext in SourceExtensions {
        ExtensionSuffix(name, i);
      }
    }
  }

  /** Replacing the final extension a second time changes nothing. */
  lemma WebPPathIdempotent(p: string)
    ensures WebPPath(WebPPath(p)) == WebPPath(p)
  {
    if FinalExtensionStart(p).Some? {
      var w := WebPPath(p);
      assert w[..|Stem(p)|] == Stem(p);
    }
  }

  /**
   * A selected name is a stem, a dot and a source extension; its converted name
   * replaces only that extension, keeping the stem as it is.
   */
  lemma ConvertedName(name: string)
    requires IsConvertible(name)
    ensures |Stem(name)| < |name| && name[..|Stem(name)|] == Stem(name)
    ensures name[|Stem(name)|] == '.'
    ensures Lower(name[|Stem(name)| + 1..]) in SourceExtensions
    ensures WebPPath(name) == Stem(name) + TargetExtension
  {
    ConvertibleIffSourceExtension(name);
  }

  /**
   * Conversely, a stem, a dot and a jpg, jpeg or png extension in any case
   * make a selected name with that stem, which becomes the stem plus `.webp`.
   */
  lemma StemAndSourceExtension(stem: string, ext: string)
    requires '.' !in ext && Lower(ext) in SourceExtensions
    ensures IsConvertible(stem + "." + ext)
    ensures Stem(stem + "." + ext) == stem && WebPPath(stem + "." + ext) == stem + TargetExtension
  {
    var name := stem + "." + ext;
    var i := |stem|;
    assert name[i] == '.' && name[i + 1..] == ext;
    ExtensionSuffix(name, i);
    assert name[..i] == stem;
  }

  /** The final extension of `dir/name` is the one found in `name`. */
  lemma FinalExtensionOfJoin(dir: string, name: string)
    requires FinalExtensionStart(name).Some?
    ensures FinalExtensionStart(Join(dir, name)) == Some(|dir| + 1 + FinalExtensionStart(name).value)
  {
    var i := FinalExtensionStart(name).value;
    var p := Join(dir, name);
    var k := |dir| + 1 + i;
    assert p[k] == '.';
    assert forall j :: k < j < |p| ==> p[j] == name[j - |dir| - 1];
    LastIndexOfAt(p, '.', k);
  }

  /** Converting `dir/name` writes beside it: the directory part is unchanged. */
  lemma WebPPathOfJoin(dir: string, name: string)
    requires FinalExtensionStart(name).Some?
    ensures WebPPath(Join(dir, name)) == Join(dir, WebPPath(name))
  {
    FinalExtensionOfJoin(dir, name);
    var i := FinalExtensionStart(name).value;
    var p := Join(dir, name);
    assert p[..|dir| + 1 + i] == dir + "/" + name[..i];
  }

  /** `stem + ".webp"` has its final extension right after `stem`. */
  lemma TargetFinalExtension(stem: string)
    ensures LastIndexOf(stem + TargetExtension, '.') == Some(|stem|)
    ensures FinalExtensionStart(stem + TargetExtension) == Some(|stem|)
  {
    var w := stem + TargetExtension;
    assert w[|stem|] == '.';
    assert forall j :: |stem| < j < |w| ==> w[j] == "webp"[j - |stem| - 1];
    LastIndexOfAt(w, '.', |stem|);
  }

  /** A converted name is never itself selected for conversion. */
  lemma OutputNotConvertible(stem: string)
    ensures !IsConvertible(stem + TargetExtension)
  {
    var w := stem + TargetExtension;
    assert w[|w| - 4..] == "webp";
    assert Lower("webp") == "webp";
    if |w| >= 5 {
      assert w[|w| - 5..] == TargetExtension;
      assert Lower(TargetExtension) == TargetExtension;
    }
  }

  /** A converted plain name is again a plain name, and is never a source name. */
  lemma ConvertedNamePlain(name: string)
    requires PlainName(name) && IsConvertible(name)
    ensures PlainName(WebPPath(name))
    ensures !IsConvertible(WebPPath(name))
  {
    ConvertedName(name);
    OutputNotConvertible(Stem(name));
    assert '/' !in TargetExtension;
  }

  /** To `path.extname`, `stem + ".webp"` has the extension `.webp` unless the stem is empty. */
  lemma TargetExtname(stem: string)
    requires '/' !in stem
    ensures Extname(stem + TargetExtension) == if stem == "" then "" else TargetExtension
  {
    var w := stem + TargetExtension;
    assert forall j :: |stem| <= j < |w| ==> w[j] == TargetExtension[j - |stem|];
    BasenameOfName(w);
    TargetFinalExtension(stem);
    assert w[|stem|..] == TargetExtension;
  }

  /** `.webp` is already in lower case. */
  lemma TargetIsLower()
    ensures Lower(TargetExtension) == TargetExtension
  {
    assert forall i :: 0 <= i < |TargetExtension| ==> Lower(TargetExtension)[i] == TargetExtension[i];
  }

  /** The archive filter of line 120 keeps `stem + ".webp"` exactly when the stem is not empty. */
  lemma WebPEntryIffStem(stem: string)
    requires '/' !in stem
    ensures IsWebPEntry(stem + TargetExtension) <==> stem != ""
  {
    TargetExtname(stem);
    if stem == "" {
      assert |Lower(Extname(stem + TargetExtension))| == 0;
    } else {
      TargetIsLower();
    }
  }

  /**
   * The archive filter of line 120 keeps the converted path of `name` exactly
   * when the stem is non-empty (for `.png` the output `.webp` has, to
   * `path.extname`, no extension at all); the entry is named by the converted
   * name alone.
   */
  lemma ArchivedIffStem(dir: string, name: string)
    requires PlainName(name) && IsConvertible(name)
    ensures IsWebPEntry(Join(dir, WebPPath(name))) <==> Stem(name) != ""
    ensures Basename(Join(dir, WebPPath(name))) == WebPPath(name)
  {
    ConvertedNamePlain(name);
    ConvertedName(name);
    var w := WebPPath(name);
    BasenameOfJoin(dir, w);
    ExtnameOfJoin(dir, w);
    StemKeepsSlashFree(name);
    WebPEntryIffStem(Stem(name));
  }
}
