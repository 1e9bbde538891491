/**
 * The file-name stem used for archive entries: main.go:65-67 takes
 * `strings.TrimSuffix(name, filepath.Ext(name))`. Go strings are bytes; the
 * model works on characters, which gives the same result because '.' and '/'
 * are single ASCII bytes that never occur inside a multi-byte UTF-8 sequence.
 */
module FilePath {
  import opened Base

  /** The path separator of the js/wasm target. */
  const Separator: char := '/'

  /** `strings.HasSuffix`, compared character by character from the end. */
  predicate HasSuffix(s: string, suffix: string)
    ensures HasSuffix(s, suffix) ==> |suffix| <= |s|
  {
    if |suffix| == 0 then true
    else if |s| == 0 then false
    else s[|s| - 1] == suffix[|suffix| - 1] && HasSuffix(s[..|s| - 1], suffix[..|suffix| - 1])
  }

  /** `s` ends with `suffix` exactly when its last |suffix| characters are `suffix`. */
  lemma {:induction false} HasSuffixIff(s: string, suffix: string)
    ensures HasSuffix(s, suffix) <==> |suffix| <= |s| && s[|s| - |suffix|..] == suffix
  {
    if |suffix| > 0 && |s| > 0 {
      var s', t' := s[..|s| - 1], suffix[..|suffix| - 1];
      HasSuffixIff(s', t');
      if |suffix| <= |s| {
        assert s[|s| - |suffix|..] == s'[|s'| - |t'|..] + [s[|s| - 1]];
        assert suffix == t' + [suffix[|suffix| - 1]];
      }
    }
  }

  /** Every '.' of `path` is followed, later on, by a separator: the path has no extension. */
  ghost predicate NoExtensionDot(path: string) {
    forall j :: 0 <= j < |path| && path[j] == '.' ==> exists m :: j < m < |path| && path[m] == Separator
  }

  /**
   * The backward scan of `filepath.Ext` over path[..end]: the position of
   * the first '.' met before any separator, or None when the scan reaches a
   * separator or the start of the string first.
   */
  function ExtStart(path: string, end: nat): (k: Option<nat>)
    requires end <= |path|
    ensures k.Some? ==> k.value < end && path[k.value] == '.'
    ensures k.Some? ==> forall j :: k.value < j < end ==> path[j] != '.' && path[j] != Separator
    ensures k.None? ==> forall j :: 0 <= j < end && path[j] == '.' ==> exists m :: j < m < end && path[m] == Separator
    decreases end
  {
    if end == 0 || path[end - 1] == Separator then None
    else if path[end - 1] == '.' then Some(end - 1)
    else ExtStart(path, end - 1)
  }

  /**
   * `filepath.Ext`: the suffix that starts at the last '.' after the last
   * separator, or "" when there is no such dot.
   */
  function Ext(path: string): string
  {
    match ExtStart(path, |path|)
    case None => ""
    case Some(k) => path[k..]
  }

  /**
   * The extension is a suffix of the path; when it is not empty it starts
   * with its only '.' and holds no separator.
   */
  lemma ExtShape(path: string)
    ensures HasSuffix(path, Ext(path))
    ensures Ext(path) != "" ==> (Ext(path)[0] == '.' &&
      forall i :: 1 <= i < |Ext(path)| ==> Ext(path)[i] != '.' && Ext(path)[i] != Separator)
  {
    var k := ExtStart(path, |path|);
    HasSuffixIff(path, Ext(path));
    if k.Some? {
      assert Ext(path) == path[k.value..];
      assert forall i :: 1 <= i < |Ext(path)| ==> Ext(path)[i] == path[k.value + i];
    }
  }

  /** The extension is empty exactly when every '.' of the path comes before a separator. */
  lemma ExtEmptyIff(path: string)
    ensures Ext(path) == "" <==> NoExtensionDot(path)
  {
    var k := ExtStart(path, |path|);
    if k.Some? {
      assert path[k.value] == '.';
      assert forall m :: k.value < m < |path| ==> path[m] != Separator;
    }
  }

  /** `strings.TrimSuffix`: `s` without `suffix` when it ends with it, `s` itself otherwise. */
  function TrimSuffix(s: string, suffix: string): string
  {
    if HasSuffix(s, suffix) then s[..|s| - |suffix|] else s
  }

  /** Trimming a suffix that is there leaves what comes before it; trimming one that is not changes nothing. */
  lemma TrimSuffixSpec(s: string, suffix: string)
    ensures HasSuffix(s, suffix) ==> TrimSuffix(s, suffix) + suffix == s
    ensures !HasSuffix(s, suffix) ==> TrimSuffix(s, suffix) == s
  {
    HasSuffixIff(s, suffix);
    if HasSuffix(s, suffix) {
      assert s == s[..|s| - |suffix|] + s[|s| - |suffix|..];
    }
  }

  /** The name an image gets in the archive before ".jpg" is appended (main.go:65-67). */
  function Stem(name: string): string
  {
    TrimSuffix(name, Ext(name))
  }

  /** The stem followed by the extension gives back the name. */
  lemma StemExtRoundTrip(name: string)
    ensures Stem(name) + Ext(name) == name
  {
    ExtShape(name);
    TrimSuffixSpec(name, Ext(name));
  }

  /** The stem is the whole name exactly when the name has no extension. */
  lemma StemUnchangedIff(name: string)
    ensures Stem(name) == name <==> NoExtensionDot(name)
  {
    ExtEmptyIff(name);
    StemExtRoundTrip(name);
    if Stem(name) == name {
      assert |Stem(name) + Ext(name)| == |name|;
    }
  }

  /**
   * When the name has an extension, the stem is everything before the last
   * '.' that comes after the last separator: it keeps every earlier dot.
   */
  lemma StemCutsAtLastDot(name: string)
    requires !NoExtensionDot(name)
    ensures exists k :: (0 <= k < |name| && name[k] == '.' && Stem(name) == name[..k]
      && forall j :: k < j < |name| ==> name[j] != '.' && name[j] != Separator)
  {
    ExtEmptyIff(name);
    ExtShape(name);
    var k := ExtStart(name, |name|).value;
    assert Ext(name) == name[k..];
    assert Stem(name) == name[..k];
  }

  /** Only the last extension is cut off. */
  lemma StemKeepsEarlierDots()
    ensures Stem("archive.tar.gz") == "archive.tar"
  {
    var name := "archive.tar.gz";
    assert ExtStart(name, 14) == ExtStart(name, 13) == ExtStart(name, 12) == Some(11);
    assert Ext(name) == name[11..] == ".gz";
    HasSuffixIff(name, ".gz");
    assert TrimSuffix(name, ".gz") == name[..11];
  }

  /** A name that starts with its only dot has an empty stem, so its entry is named ".jpg". */
  lemma StemOfDotName()
    ensures Stem(".png") == ""
  {
    var name := ".png";
    assert ExtStart(name, 4) == ExtStart(name, 3) == ExtStart(name, 2) == ExtStart(name, 1) == Some(0);
    assert Ext(name) == name;
    HasSuffixIff(name, name);
  }

  /** A dot inside a directory name is not an extension. */
  lemma StemIgnoresDirectoryDot()
    ensures Stem("shots.v2/photo") == "shots.v2/photo"
  {
    var name := "shots.v2/photo";
    assert name[8] == Separator;
    assert ExtStart(name, 14) == ExtStart(name, 13) == ExtStart(name, 12) == ExtStart(name, 11)
      == ExtStart(name, 10) == ExtStart(name, 9) == None;
  }
}
