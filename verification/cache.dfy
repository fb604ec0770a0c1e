/** The speech cache: how a (text, voice) pair becomes a readable file name
    under the cache directory, and how a request is answered from the cache
    or by one call to the speech provider. */
module Cache {
  import opened Wrappers
  import opened Text
  import opened Voices

  /** The characters removed from the text, in the order they are removed. */
  const InvalidChars: seq<char> := ['<', '>', ':', '"', '/', '\\', '|', '?', '*']

  /** Sanitised text is cut to this many characters before it is stripped. */
  const MaxStemLength: nat := 50

  const CacheDir: string := "tts_cache"
  const PathSeparator: char := '/'
  const AudioExtension: string := ".mp3"

  function InvalidSet(): set<char> {
    set c | c in InvalidChars
  }

  /** One `str.replace(c, '')` per character of `chars`, in order. */
  function RemoveEach(s: string, chars: seq<char>): (r: string)
    ensures r == Keep(s, set c | c in chars)
    decreases |chars|
  {
    if chars == [] then
      assert (set c | c in chars) == {};
      KeepClean(s, {});
      s
    else
      var rest := RemoveEach(Keep(s, {chars[0]}), chars[1..]);
      KeepKeep(s, {chars[0]}, set c | c in chars[1..]);
      assert {chars[0]} + (set c | c in chars[1..]) == set c | c in chars;
      rest
  }

  /** The text after the source's character-removal loop: the same as
      deleting all invalid characters at once. */
  function RemoveInvalid(text: string): (r: string)
    ensures r == Keep(text, InvalidSet())
    ensures forall c :: c in r ==> c !in InvalidChars
  {
    RemoveEach(text, InvalidChars)
  }

  /** `sanitize_filename`: delete the invalid characters, keep the first 50
      characters, then strip whitespace from both ends. */
  function Sanitize(text: string): (r: string)
    ensures r == Strip(Take(Keep(text, InvalidSet()), MaxStemLength))
  {
    Strip(Take(RemoveInvalid(text), MaxStemLength))
  }

  /** A sanitised stem has no invalid character, at most 50 characters, and
      no whitespace at either end. */
  lemma SanitizeClean(text: string)
    ensures var r := Sanitize(text);
      (forall c :: c in r ==> c !in InvalidChars)
      && |r| <= MaxStemLength
      && (r == [] || (!IsSpace(r[0]) && !IsSpace(r[|r| - 1])))
  {
    var cut := Take(Keep(text, InvalidSet()), MaxStemLength);
    assert forall c :: c in cut ==> c !in InvalidChars;
  }

  /** Sanitising an already sanitised string changes nothing. */
  lemma SanitizeIdempotent(text: string)
    ensures Sanitize(Sanitize(text)) == Sanitize(text)
  {
    var s := Sanitize(text);
    SanitizeClean(text);
    KeepClean(s, InvalidSet());
    assert Take(Keep(s, InvalidSet()), MaxStemLength) == s;
    StripFixesTrimmed(s);
  }

  /** Known limitation: texts whose sanitised forms agree on the first 50
      characters share one cache file, whatever follows. */
  lemma TruncationCollision(prefix: string, a: string, b: string)
    requires |Keep(prefix, InvalidSet())| >= MaxStemLength
    ensures Sanitize(prefix + a) == Sanitize(prefix + b)
  {
    TakeKeptPrefix(prefix, a);
    TakeKeptPrefix(prefix, b);
  }

  /** Once the kept prefix reaches the limit, the suffix is cut away. */
  lemma TakeKeptPrefix(prefix: string, a: string)
    requires |Keep(prefix, InvalidSet())| >= MaxStemLength
    ensures Take(Keep(prefix + a, InvalidSet()), MaxStemLength) == Keep(prefix, InvalidSet())[..MaxStemLength]
  {
    var p := Keep(prefix, InvalidSet());
    var ka := Keep(prefix + a, InvalidSet());
    KeepConcat(prefix, a, InvalidSet());
    assert ka[..MaxStemLength] == p[..MaxStemLength];
  }

  /** The cache file name "<sanitised text>-<voice short name>.mp3". There is
      no fallback for text that sanitises to nothing. */
  function CacheFileName(text: string, voiceId: string): (r: string)
    ensures |r| >= |AudioExtension| && r[|r| - |AudioExtension|..] == AudioExtension
    ensures PathSeparator !in r && '\\' !in r && ':' !in r
    ensures Sanitize(text) == [] ==> r == "-" + ShortName(voiceId) + AudioExtension
  {
    SanitizedStemClean(text);
    ShortNameShaped(voiceId);
    FileNameClean(Sanitize(text), ShortName(voiceId));
    FileNameFromParts(Sanitize(text), ShortName(voiceId))
  }

  lemma SanitizedStemClean(text: string)
    ensures PathSeparator !in Sanitize(text) && '\\' !in Sanitize(text) && ':' !in Sanitize(text)
  {
    assert InvalidChars[2] == ':' && InvalidChars[4] == PathSeparator && InvalidChars[5] == '\\';
  }

  lemma FileNameClean(stem: string, name: string)
    requires PathSeparator !in stem && '\\' !in stem && ':' !in stem
    requires PathSeparator !in name && '\\' !in name && ':' !in name
    ensures var r := FileNameFromParts(stem, name);
      PathSeparator !in r && '\\' !in r && ':' !in r
  {
    assert ':' !in AudioExtension && PathSeparator !in AudioExtension && '\\' !in AudioExtension;
  }

  /** The file name built from a stem and a short name, and the characters it
      cannot contain when neither part does. */
  function FileNameFromParts(stem: string, name: string): (r: string)
    ensures |r| >= |AudioExtension| && r[|r| - |AudioExtension|..] == AudioExtension
    ensures forall c :: c in r ==> c in stem || c in name || c == '-' || c in AudioExtension
    ensures stem == [] ==> r == "-" + name + AudioExtension
  {
    var r := stem + "-" + name + AudioExtension;
    assert stem == [] ==> stem + "-" == "-";
    r
  }

  /** `os.path.join(cache_dir, filename)`. */
  function InCacheDir(filename: string): string {
    CacheDir + [PathSeparator] + filename
  }

  function CachePath(text: string, voiceId: string): string {
    InCacheDir(CacheFileName(text, voiceId))
  }

  /** A file name splits back into its stem and short name when the short
      name holds no dash. */
  lemma FileNameSplits(s1: string, n1: string, s2: string, n2: string)
    requires '-' !in n1 && '-' !in n2
    requires FileNameFromParts(s1, n1) == FileNameFromParts(s2, n2)
    ensures s1 == s2 && n1 == n2
  {
    FileNameTail(s1, n1);
    FileNameTail(s2, n2);
    var e1 := n1 + AudioExtension;
    var e2 := n2 + AudioExtension;
    SplitAtLastDash(s1, e1, s2, e2);
    assert n1 == e1[..|n1|];
    assert n2 == e2[..|n2|];
  }

  /** The part of a file name after its stem's dash. */
  lemma FileNameTail(stem: string, name: string)
    requires '-' !in name
    ensures FileNameFromParts(stem, name) == stem + "-" + (name + AudioExtension)
    ensures '-' !in name + AudioExtension
  {
    NotInConcat('-', name, AudioExtension);
  }

  /** If `x1 + "-" + y1 == x2 + "-" + y2` and neither `y` holds a dash, the
      two splits are the same. */
  lemma SplitAtLastDash(x1: string, y1: string, x2: string, y2: string)
    requires x1 + "-" + y1 == x2 + "-" + y2
    requires '-' !in y1 && '-' !in y2
    ensures x1 == x2 && y1 == y2
  {
    var z := x1 + "-" + y1;
    FindLastCharBefore(x1, '-', y1);
    FindLastCharBefore(x2, '-', y2);
    assert |x1| == |x2|;
    assert x1 == z[..|x1|] && x2 == z[..|x2|];
    assert y1 == z[|x1| + 1..] && y2 == z[|x2| + 1..];
  }

  /** For catalogue voices, two requests share a cache file exactly when
      their texts sanitise alike and the voice is the same. */
  lemma CacheFileNameInjective(text1: string, i: nat, text2: string, j: nat)
    requires i < |Catalog| && j < |Catalog|
    ensures CacheFileName(text1, Catalog[i].id) == CacheFileName(text2, Catalog[j].id)
        <==> Sanitize(text1) == Sanitize(text2) && i == j
  {
    var n1 := ShortName(Catalog[i].id);
    var n2 := ShortName(Catalog[j].id);
    if CacheFileName(text1, Catalog[i].id) == CacheFileName(text2, Catalog[j].id) {
      ShortNameShaped(Catalog[i].id);
      ShortNameShaped(Catalog[j].id);
      FileNameSplits(Sanitize(text1), n1, Sanitize(text2), n2);
      ShortNamesDistinct();
      assert i < j ==> n1 != n2;
      assert j < i ==> n2 != n1;
    }
  }

  /** What the synthesis step did. It writes straight to the cache path, so a
      failure may leave a partial file behind. */
  datatype Synthesis = Saved | FailedBeforeWrite | FailedAfterPartialWrite

  /** The files present afterwards, the path returned (`None` when synthesis
      raised), and whether the provider was called. */
  datatype Resolution = Resolution(files: set<string>, path: Option<string>, calledProvider: bool)

  /** The cache step of `generate_speech_edgetts` for the cache path `p`,
      over the set of existing cache files. */
  function ResolvePath(files: set<string>, p: string, synthesis: Synthesis): (r: Resolution)
    ensures r.calledProvider <==> p !in files
    ensures p in files ==> r.path == Some(p) && r.files == files
    ensures r.path.Some? ==> r.path.value == p && p in r.files
    ensures files <= r.files <= files + {p}
    ensures r.path.None? <==> p !in files && synthesis != Saved
    ensures p !in files && synthesis == FailedBeforeWrite ==> r.files == files
  {
    if p in files then Resolution(files, Some(p), false)
    else match synthesis
      case Saved => Resolution(files + {p}, Some(p), true)
      case FailedBeforeWrite => Resolution(files, None, true)
      case FailedAfterPartialWrite => Resolution(files + {p}, None, true)
  }

  /** `generate_speech_edgetts`: the path depends only on the text and the
      voice id. */
  function Resolve(files: set<string>, text: string, voiceId: string, synthesis: Synthesis): (r: Resolution)
    ensures r.calledProvider <==> CachePath(text, voiceId) !in files
    ensures r.path.Some? ==> r.path.value == CachePath(text, voiceId) && r.path.value in r.files
    ensures r.path.None? <==> CachePath(text, voiceId) !in files && synthesis != Saved
    ensures files <= r.files && r.files - files <= {CachePath(text, voiceId)}
    ensures CachePath(text, voiceId) !in files && synthesis == FailedBeforeWrite ==> r.files == files
  {
    ResolvePath(files, CachePath(text, voiceId), synthesis)
  }

  /** After a request succeeds, the same request is answered from the cache
      whatever the provider would do: at most one synthesis per path. */
  lemma ResolveTwiceSynthesizesOnce(files: set<string>, p: string, first: Synthesis, second: Synthesis)
    requires ResolvePath(files, p, first).path.Some?
    ensures var r1 := ResolvePath(files, p, first);
      var r2 := ResolvePath(r1.files, p, second);
      && !r2.calledProvider
      && r2.path == r1.path
      && r2.files == r1.files
  {
  }

  /** Known limitation: a synthesis that fails after starting to write leaves
      a file that the next request takes for a cache hit. */
  lemma PartialWriteIsServedLater(files: set<string>, p: string, second: Synthesis)
    requires p !in files
    ensures var r1 := ResolvePath(files, p, FailedAfterPartialWrite);
      var r2 := ResolvePath(r1.files, p, second);
      && r1.path.None?
      && r2.path == Some(p)
      && !r2.calledProvider
  {
  }

  /** A synthesis that fails before writing leaves no file, so the next
      request for the same path calls the provider again. */
  lemma CleanFailureRetries(files: set<string>, p: string, second: Synthesis)
    requires p !in files
    ensures var r1 := ResolvePath(files, p, FailedBeforeWrite);
      var r2 := ResolvePath(r1.files, p, second);
      && r1.path.None?
      && r1.files == files
      && r2.calledProvider
      && r2 == ResolvePath(files, p, second)
  {
  }
}
