/** The soundboard: hotkey bindings from key names to cached clips, the list
    entries that show them, and what assigning, removing and pressing a key
    does to them. */
module Soundboard {
  import opened Wrappers
  import opened Text
  import Cache

  /** One entry of the bindings dictionary. */
  datatype Binding = Binding(key: string, path: string)

  /** The bindings dictionary, in insertion order (the order its items are
      iterated in). */
  type Bindings = seq<Binding>

  function Init(b: Bindings): Bindings
    requires b != []
  {
    b[..|b| - 1]
  }

  function Last(b: Bindings): Binding
    requires b != []
  {
    b[|b| - 1]
  }

  function KeysOf(b: Bindings): set<string>
    decreases |b|
  {
    if b == [] then {} else KeysOf(Init(b)) + {Last(b).key}
  }

  /** Every key occurs once, as in a dictionary. */
  predicate UniqueKeys(b: Bindings)
    decreases |b|
  {
    b == [] || (UniqueKeys(Init(b)) && Last(b).key !in KeysOf(Init(b)))
  }

  /** The dictionary as a map: a later entry for a key wins. */
  function ToMap(b: Bindings): map<string, string>
    decreases |b|
  {
    if b == [] then map[] else ToMap(Init(b))[Last(b).key := Last(b).path]
  }

  lemma {:induction false} ToMapKeys(b: Bindings)
    ensures ToMap(b).Keys == KeysOf(b)
    decreases |b|
  {
    if b != [] {
      ToMapKeys(Init(b));
    }
  }

  lemma AppendParts(b: Bindings, x: Binding)
    ensures Init(b + [x]) == b && Last(b + [x]) == x
  {
  }

  /** An entry of a dictionary with unique keys is what the map holds for its
      key. */
  lemma {:induction false} ToMapAt(b: Bindings, i: nat)
    requires UniqueKeys(b) && i < |b|
    ensures b[i].key in ToMap(b) && ToMap(b)[b[i].key] == b[i].path
    decreases |b|
  {
    if i < |b| - 1 {
      assert Init(b)[i] == b[i];
      ToMapAt(Init(b), i);
      ToMapKeys(Init(b));
    }
  }

  /** `del d[k]`, which also covers a missing key: every entry for `k` goes. */
  function Delete(b: Bindings, k: string): (r: Bindings)
    ensures |r| <= |b|
    ensures forall i :: 0 <= i < |r| ==> r[i].key != k
    decreases |b|
  {
    if b == [] then []
    else Delete(Init(b), k) + (if Last(b).key == k then [] else [Last(b)])
  }

  /** The entries that survive a deletion are exactly those under other
      keys. */
  lemma {:induction false} DeleteContents(b: Bindings, k: string)
    ensures forall x :: x in Delete(b, k) <==> x in b && x.key != k
    decreases |b|
  {
    if b != [] {
      DeleteContents(Init(b), k);
      assert b == Init(b) + [Last(b)];
    }
  }

  lemma {:induction false} DeleteKeys(b: Bindings, k: string)
    ensures KeysOf(Delete(b, k)) == KeysOf(b) - {k}
    ensures UniqueKeys(b) ==> UniqueKeys(Delete(b, k))
    decreases |b|
  {
    if b != [] {
      var d := Delete(Init(b), k);
      DeleteKeys(Init(b), k);
      if Last(b).key != k {
        DeleteStep(b, k);
      } else {
        assert Delete(b, k) == d;
      }
    }
  }

  /** One step of `DeleteKeys`: the last entry is kept. */
  lemma DeleteStep(b: Bindings, k: string)
    requires b != [] && Last(b).key != k
    requires KeysOf(Delete(Init(b), k)) == KeysOf(Init(b)) - {k}
    requires UniqueKeys(Init(b)) ==> UniqueKeys(Delete(Init(b), k))
    ensures KeysOf(Delete(b, k)) == KeysOf(b) - {k}
    ensures UniqueKeys(b) ==> UniqueKeys(Delete(b, k))
  {
    var d := Delete(Init(b), k);
    assert Delete(b, k) == d + [Last(b)];
    AppendParts(d, Last(b));
  }

  /** Deleting a key removes it from the map and nothing else. */
  lemma {:induction false} ToMapDelete(b: Bindings, k: string)
    ensures ToMap(Delete(b, k)) == ToMap(b) - {k}
    decreases |b|
  {
    if b != [] {
      ToMapDelete(Init(b), k);
      if Last(b).key != k {
        AppendParts(Delete(Init(b), k), Last(b));
      } else {
        assert Delete(b, k) == Delete(Init(b), k);
      }
    }
  }

  /** `d[k] = v` for a key that is not present: the entry goes at the end. */
  function Append(b: Bindings, k: string, v: string): (r: Bindings)
    requires k !in KeysOf(b)
    ensures UniqueKeys(b) ==> UniqueKeys(r)
    ensures ToMap(r) == ToMap(b)[k := v]
    ensures KeysOf(r) == KeysOf(b) + {k}
  {
    AppendParts(b, Binding(k, v));
    b + [Binding(k, v)]
  }

  /** The ESC branch: every entry whose path is `p` is deleted. */
  function DeleteAllFor(b: Bindings, p: string): (r: Bindings)
    ensures |r| <= |b|
    ensures forall i :: 0 <= i < |r| ==> r[i].path != p
    decreases |b|
  {
    if b == [] then []
    else DeleteAllFor(Init(b), p) + (if Last(b).path == p then [] else [Last(b)])
  }

  /** The entries that survive are exactly those bound to another
      clip. */
  lemma {:induction false} DeleteAllForContents(b: Bindings, p: string)
    ensures forall x :: x in DeleteAllFor(b, p) <==> x in b && x.path != p
    decreases |b|
  {
    if b != [] {
      DeleteAllForContents(Init(b), p);
      assert b == Init(b) + [Last(b)];
    }
  }

  /** The map with every key bound to `p` removed. */
  function DropValue(m: map<string, string>, p: string): map<string, string> {
    map k | k in m && m[k] != p :: m[k]
  }

  lemma {:induction false} DeleteAllForKeys(b: Bindings, p: string)
    ensures KeysOf(DeleteAllFor(b, p)) <= KeysOf(b)
    ensures UniqueKeys(b) ==> UniqueKeys(DeleteAllFor(b, p))
    decreases |b|
  {
    if b != [] {
      var d := DeleteAllFor(Init(b), p);
      DeleteAllForKeys(Init(b), p);
      if Last(b).path != p {
        assert DeleteAllFor(b, p) == d + [Last(b)];
        AppendParts(d, Last(b));
      } else {
        assert DeleteAllFor(b, p) == d;
      }
    }
  }

  /** Unbinding a clip removes exactly the keys that pointed at it. */
  lemma {:induction false} ToMapDeleteAllFor(b: Bindings, p: string)
    requires UniqueKeys(b)
    ensures ToMap(DeleteAllFor(b, p)) == DropValue(ToMap(b), p)
    decreases |b|
  {
    if b != [] {
      var c := Init(b);
      var x := Last(b);
      ToMapDeleteAllFor(c, p);
      ToMapKeys(c);
      DropValueUpdate(ToMap(c), x.key, x.path, p);
      if x.path == p {
        assert DeleteAllFor(b, p) == DeleteAllFor(c, p);
      } else {
        assert DeleteAllFor(b, p) == DeleteAllFor(c, p) + [x];
        AppendParts(DeleteAllFor(c, p), x);
      }
    }
  }

  /** Adding a new key and then dropping the keys bound to `p`. */
  lemma DropValueUpdate(m: map<string, string>, k: string, v: string, p: string)
    requires k !in m
    ensures v == p ==> DropValue(m[k := v], p) == DropValue(m, p)
    ensures v != p ==> DropValue(m[k := v], p) == DropValue(m, p)[k := v]
  {
  }

  /** The first entry, in dictionary order, whose path is `p`, searching
      from index `from`. */
  function FirstIndexFor(b: Bindings, p: string, from: nat := 0): (r: Option<nat>)
    ensures r.Some? ==> from <= r.value < |b| && b[r.value].path == p
    ensures r.Some? ==> forall j :: from <= j < r.value ==> b[j].path != p
    ensures r.None? ==> forall j :: from <= j < |b| ==> b[j].path != p
    decreases |b| - from
  {
    if from >= |b| then None
    else if b[from].path == p then Some(from)
    else FirstIndexFor(b, p, from + 1)
  }

  /** The key shown next to a clip: the first key bound to its path. */
  function FirstKeyFor(b: Bindings, p: string): (r: Option<string>)
    ensures UniqueKeys(b) && r.Some? ==> r.value in ToMap(b) && ToMap(b)[r.value] == p
    ensures r.None? ==> forall k :: k in ToMap(b) ==> ToMap(b)[k] != p
  {
    match FirstIndexFor(b, p)
    case Some(i) =>
      assert UniqueKeys(b) ==> b[i].key in ToMap(b) && ToMap(b)[b[i].key] == p by {
        if UniqueKeys(b) { ToMapAt(b, i); }
      }
      Some(b[i].key)
    case None =>
      NoValueNoKey(b, p);
      None
  }

  lemma {:induction false} NoValueNoKey(b: Bindings, p: string)
    requires forall j :: 0 <= j < |b| ==> b[j].path != p
    ensures forall k :: k in ToMap(b) ==> ToMap(b)[k] != p
    decreases |b|
  {
    if b != [] {
      forall j | 0 <= j < |Init(b)|
        ensures Init(b)[j].path != p
      {
        assert Init(b)[j] == b[j];
      }
      NoValueNoKey(Init(b), p);
    }
  }

  /** The marker between a clip's name and its key in a list entry. */
  const KeyTag: string := " [Key: "
  const KeyTagClose: char := ']'

  predicate EndsWith(s: string, suffix: string) {
    |s| >= |suffix| && s[|s| - |suffix|..] == suffix
  }

  /** Python's `filename[:-4]`, which is empty for a shorter name. */
  function DropExtension(filename: string): (r: string)
    ensures EndsWith(filename, Cache.AudioExtension) ==> r + Cache.AudioExtension == filename
  {
    if |filename| >= 4 then filename[..|filename| - 4] else []
  }

  /** A list entry: the name without ".mp3", followed by the key when there
      is a non-empty one. */
  function DisplayName(filename: string, hotkey: Option<string>): (r: string)
    ensures hotkey.None? || hotkey.value == [] ==> r == DropExtension(filename)
    ensures hotkey.Some? && hotkey.value != [] ==>
      && |r| == |DropExtension(filename)| + |KeyTag| + |hotkey.value| + 1
      && r[..|DropExtension(filename)|] == DropExtension(filename)
      && EndsWith(r, KeyTag + hotkey.value + [KeyTagClose])
  {
    var stem := DropExtension(filename);
    if hotkey.Some? && hotkey.value != [] then stem + KeyTag + hotkey.value + [KeyTagClose] else stem
  }

  /** The `.mp3` files of the cache directory, in listing order. */
  function Listing(files: seq<string>): (r: seq<string>)
    ensures forall i :: 0 <= i < |r| ==> EndsWith(r[i], Cache.AudioExtension) && r[i] in files
    ensures forall f :: f in files && EndsWith(f, Cache.AudioExtension) ==> f in r
  {
    if files == [] then []
    else (if EndsWith(files[0], Cache.AudioExtension) then [files[0]] else []) + Listing(files[1..])
  }

  /** `refresh_soundboard_list`: one entry per cached clip, showing the first
      key bound to its path. */
  function Entries(files: seq<string>, b: Bindings): (r: seq<string>)
    ensures |r| == |Listing(files)|
  {
    var clips := Listing(files);
    seq(|clips|, i requires 0 <= i < |clips| => DisplayName(clips[i], FirstKeyFor(b, Cache.InCacheDir(clips[i]))))
  }

  /** What `assign_hotkey` reads back from a list entry: the clip's file name
      and, when the entry shows one, the key it shows. */
  datatype Selection = Selection(filename: string, oldKey: Option<string>)

  /** `display.split(" [Key: ")`: part 0 ends at the first marker and part 1
      at the next one (or the end); `rstrip(']')` then removes every closing
      bracket at the end of part 1. */
  function ParseDisplay(display: string): (r: Selection)
    ensures r.oldKey.Some? <==> Contains(display, KeyTag)
    ensures r.oldKey.None? ==> r.filename == display + Cache.AudioExtension
  {
    match IndexFrom(display, KeyTag, 0)
    case None => Selection(display + Cache.AudioExtension, None)
    case Some(i) =>
      var start := i + |KeyTag|;
      var end := match IndexFrom(display, KeyTag, start) {
        case None => |display|
        case Some(j) => j
      };
      Selection(display[..i] + Cache.AudioExtension, Some(RStripChar(display[start..end], KeyTagClose)))
  }

  /** The full path of the clip a list entry names. */
  function SelectedPath(display: string): string {
    Cache.InCacheDir(ParseDisplay(display).filename)
  }

  /** With no '[' in the stem, the first marker is the one the display added. */
  lemma FirstTagAt(stem: string, rest: string)
    requires '[' !in stem
    ensures IndexFrom(stem + KeyTag + rest, KeyTag, 0) == Some(|stem|)
  {
    var s := stem + KeyTag + rest;
    assert s[|stem|..|stem| + |KeyTag|] == KeyTag;
    assert OccursAt(s, KeyTag, |stem|);
    forall j | 0 <= j < |stem|
      ensures !OccursAt(s, KeyTag, j)
    {
      assert s[j + 1] != '[' by {
        if j + 1 < |stem| {
          assert s[j + 1] == stem[j + 1];
        } else {
          assert s[j + 1] == KeyTag[0];
        }
      }
      assert s[j..j + |KeyTag|][1] == s[j + 1];
    }
  }

  /** With no '[' in `rest`, no marker starts inside it. */
  lemma NoTagAfter(prefix: string, rest: string)
    requires '[' !in rest
    ensures IndexFrom(prefix + rest, KeyTag, |prefix|) == None
  {
    var s := prefix + rest;
    forall j: nat | |prefix| <= j
      ensures !OccursAt(s, KeyTag, j)
    {
      if j + |KeyTag| <= |s| {
        assert s[j + 1] == rest[j + 1 - |prefix|];
        TagNeedsBracket(s, j);
      }
    }
  }

  /** The second character of a marker is '['. */
  lemma TagNeedsBracket(s: string, j: nat)
    requires j + |KeyTag| <= |s|
    ensures OccursAt(s, KeyTag, j) ==> s[j + 1] == '['
  {
    assert s[j..j + |KeyTag|][1] == s[j + 1];
  }

  /** A name without '[' holds no marker. */
  lemma NoBracketNoTag(s: string)
    requires '[' !in s
    ensures !Contains(s, KeyTag)
  {
    NoTagAfter([], s);
    assert [] + s == s;
  }

  /** Removing trailing brackets from `key + "]"` gives back `key` when the
      key does not itself end in a bracket. */
  lemma RStripOneBracket(key: string)
    requires key != [] && key[|key| - 1] != KeyTagClose
    ensures RStripChar(key + [KeyTagClose], KeyTagClose) == key
  {
    var s := key + [KeyTagClose];
    var r := RStripChar(s, KeyTagClose);
    assert s[|key| - 1] == key[|key| - 1];
    assert |r| != |s|;
    assert r == s[..|key|] == key;
  }

  /** A list entry decodes to its clip and key when neither holds '[' and the
      key does not end in ']'. Cache file names can hold '[', so the
      condition is a real limit of the encoding. */
  lemma DisplayRoundTrip(stem: string, key: string)
    requires '[' !in stem && '[' !in key
    requires key != [] && key[|key| - 1] != KeyTagClose
    ensures ParseDisplay(DisplayName(stem + Cache.AudioExtension, Some(key)))
      == Selection(stem + Cache.AudioExtension, Some(key))
  {
    var f := stem + Cache.AudioExtension;
    assert DropExtension(f) == stem;
    var d := stem + KeyTag + key + [KeyTagClose];
    assert DisplayName(f, Some(key)) == d;
    FirstTagAt(stem, key + [KeyTagClose]);
    assert d == stem + KeyTag + (key + [KeyTagClose]);
    var start := |stem| + |KeyTag|;
    assert '[' !in key + [KeyTagClose];
    NoTagAfter(stem + KeyTag, key + [KeyTagClose]);
    assert d[..|stem|] == stem;
    assert d[start..|d|] == key + [KeyTagClose];
    RStripOneBracket(key);
  }

  /** An entry without a key decodes to its clip when the stem holds no
      marker. */
  lemma PlainDisplayRoundTrip(stem: string)
    requires !Contains(stem, KeyTag)
    ensures ParseDisplay(DisplayName(stem + Cache.AudioExtension, None))
      == Selection(stem + Cache.AudioExtension, None)
  {
    assert DropExtension(stem + Cache.AudioExtension) == stem;
  }

  /** Known limitation: a key ending in ']' is not read back as itself. */
  lemma BracketKeyMisread(stem: string, key: string)
    requires key != [] && key[|key| - 1] == KeyTagClose
    ensures ParseDisplay(DisplayName(stem + Cache.AudioExtension, Some(key))).oldKey != Some(key)
  {
    var d := DisplayName(stem + Cache.AudioExtension, Some(key));
    assert d == DropExtension(stem + Cache.AudioExtension) + KeyTag + key + [KeyTagClose];
    var t := |DropExtension(stem + Cache.AudioExtension)|;
    assert OccursAt(d, KeyTag, t);
  }

  /** Known limitation: a clip whose name contains the marker is read back as
      a shorter name. */
  lemma TaggedStemMisread(stem: string, j: nat)
    requires OccursAt(stem, KeyTag, j)
    ensures ParseDisplay(DisplayName(stem + Cache.AudioExtension, None)).filename != stem + Cache.AudioExtension
  {
    assert DropExtension(stem + Cache.AudioExtension) == stem;
    OccursContains(stem, KeyTag, j);
    var i := IndexFrom(stem, KeyTag, 0).value;
    assert i <= j;
  }

  /** Each list entry of a clip whose name and key avoid '[' (and whose key
      does not end in ']') is read back as that clip's file, together with
      the first key bound to the clip when that key is non-empty. */
  lemma EntrySelectsClip(files: seq<string>, b: Bindings, i: nat)
    requires i < |Listing(files)|
    requires '[' !in DropExtension(Listing(files)[i])
    requires var k := FirstKeyFor(b, Cache.InCacheDir(Listing(files)[i]));
      k.Some? ==> '[' !in k.value && (k.value == [] || k.value[|k.value| - 1] != KeyTagClose)
    ensures ParseDisplay(Entries(files, b)[i]).filename == Listing(files)[i]
    ensures SelectedPath(Entries(files, b)[i]) == Cache.InCacheDir(Listing(files)[i])
    ensures var k := FirstKeyFor(b, Cache.InCacheDir(Listing(files)[i]));
      ParseDisplay(Entries(files, b)[i]).oldKey == (if k.Some? && k.value != [] then k else None)
  {
    var f := Listing(files)[i];
    var stem := DropExtension(f);
    assert stem + Cache.AudioExtension == f;
    var k := FirstKeyFor(b, Cache.InCacheDir(f));
    if k.Some? && k.value != [] {
      DisplayRoundTrip(stem, k.value);
    } else {
      NoBracketNoTag(stem);
      PlainDisplayRoundTrip(stem);
    }
  }

  /** The key name a captured key press is reduced to (`wait_for_keypress`):
      a printable key by its lower-cased character, a special key by its
      lower-cased name, anything else by its text without "Key.". */
  datatype KeyEvent =
    | KeyCode(text: string, repr: string)
    | Special(name: string)

  const EscName: string := "esc"
  const SpecialPrefix: string := "Key."

  function ListenerName(e: KeyEvent): (r: string)
    ensures forall i :: 0 <= i < |r| ==> !('A' <= r[i] <= 'Z')
    ensures e.KeyCode? && e.text != [] ==> |r| == |e.text| && forall i :: 0 <= i < |r| ==> r[i] == LowerChar(e.text[i])
    ensures e.Special? ==> |r| == |e.name| && forall i :: 0 <= i < |r| ==> r[i] == LowerChar(e.name[i])
  {
    match e
    case KeyCode(c, repr) => if c != [] then ToLower(c) else ToLower(ReplaceAll(repr, SpecialPrefix, ""))
    case Special(n) => ToLower(n)
  }

  function CaptureName(e: KeyEvent): (r: string)
    ensures e == Special(EscName) ==> r == EscName
    ensures forall i :: 0 <= i < |r| ==> !('A' <= r[i] <= 'Z')
    ensures e.KeyCode? && e.text != [] ==> |r| == |e.text| && forall i :: 0 <= i < |r| ==> r[i] == LowerChar(e.text[i])
  {
    if e == Special(EscName) then EscName
    else match e
      case KeyCode(c, repr) => if c != [] then ToLower(c) else ToLower(ReplaceAll(repr, SpecialPrefix, ""))
      case Special(n) => ToLower(n)
  }

  /** The name a key is stored under when assigned is the name the global
      listener looks up when it is pressed, and it holds no upper-case
      letter. */
  lemma CaptureMatchesListener(e: KeyEvent)
    ensures CaptureName(e) == ListenerName(e)
    ensures forall i :: 0 <= i < |CaptureName(e)| ==> !('A' <= CaptureName(e)[i] <= 'Z')
  {
    if e == Special(EscName) {
      assert ToLower(EscName) == EscName;
    }
  }

  /** The global listener's lookup: the clip bound to the pressed key. */
  function Lookup(b: Bindings, e: KeyEvent): (r: Option<string>)
    ensures r.Some? <==> ListenerName(e) in ToMap(b)
    ensures r.Some? ==> r.value == ToMap(b)[ListenerName(e)]
  {
    var k := ListenerName(e);
    if k in ToMap(b) then Some(ToMap(b)[k]) else None
  }

  /** The bindings after an action, and whether they were written out. */
  datatype Outcome = Outcome(bindings: Bindings, saved: bool)

  /** The bindings with the selected entry's shown key deleted, as
      `assign_hotkey` does before it waits for a key. */
  function WithoutShownKey(b: Bindings, display: string): (r: Bindings)
    ensures UniqueKeys(b) ==> UniqueKeys(r)
    ensures ToMap(r) == WithoutKey(ToMap(b), ParseDisplay(display).oldKey)
  {
    match ParseDisplay(display).oldKey
    case None => b
    case Some(k) =>
      DeleteKeys(b, k);
      ToMapDelete(b, k);
      Delete(b, k)
  }

  function WithoutKey(m: map<string, string>, k: Option<string>): map<string, string> {
    if k.Some? then m - {k.value} else m
  }

  /** `assign_hotkey` once the key press is known (`None` when nothing was
      captured). */
  function AssignHotkey(b: Bindings, display: string, captured: Option<string>): (r: Outcome)
    ensures UniqueKeys(b) ==> UniqueKeys(r.bindings)
    ensures r.saved <==> captured.Some? && captured.value != []
  {
    var b1 := WithoutShownKey(b, display);
    var p := SelectedPath(display);
    match captured
    case Some(k) =>
      if k != [] && k != EscName then
        DeleteKeys(b1, k);
        Outcome(Append(Delete(b1, k), k, p), true)
      else if k == EscName then
        DeleteAllForKeys(b1, p);
        Outcome(DeleteAllFor(b1, p), true)
      else Outcome(b1, false)
    case None => Outcome(b1, false)
  }

  /** A captured key other than ESC ends up bound to the selected clip; the
      only other change is that the entry's shown key is unbound. */
  lemma AssignKeyEffect(b: Bindings, display: string, k: string)
    requires k != [] && k != EscName
    ensures ToMap(AssignHotkey(b, display, Some(k)).bindings)
      == WithoutKey(ToMap(b), ParseDisplay(display).oldKey)[k := SelectedPath(display)]
  {
    var b1 := WithoutShownKey(b, display);
    DeleteKeys(b1, k);
    ToMapDelete(b1, k);
    assert (ToMap(b1) - {k})[k := SelectedPath(display)] == ToMap(b1)[k := SelectedPath(display)];
  }

  /** ESC unbinds every key of the selected clip (besides the shown key) and
      binds nothing. */
  lemma AssignEscEffect(b: Bindings, display: string)
    requires UniqueKeys(b)
    ensures var m := ToMap(AssignHotkey(b, display, Some(EscName)).bindings);
      m == DropValue(WithoutKey(ToMap(b), ParseDisplay(display).oldKey), SelectedPath(display))
  {
    var b1 := WithoutShownKey(b, display);
    ToMapDeleteAllFor(b1, SelectedPath(display));
  }

  /** When no key is captured nothing is added or saved, but the shown key
      has already been unbound in memory. */
  lemma AssignNothingEffect(b: Bindings, display: string, captured: Option<string>)
    requires captured.None? || captured == Some([])
    ensures AssignHotkey(b, display, captured).saved == false
    ensures ToMap(AssignHotkey(b, display, captured).bindings)
      == WithoutKey(ToMap(b), ParseDisplay(display).oldKey)
  {
  }

  /** Assigning a key and then pressing it plays the clip the entry names. */
  lemma AssignThenPress(b: Bindings, display: string, e: KeyEvent)
    requires CaptureName(e) != [] && CaptureName(e) != EscName
    ensures Lookup(AssignHotkey(b, display, Some(CaptureName(e))).bindings, e) == Some(SelectedPath(display))
  {
    CaptureMatchesListener(e);
    AssignKeyEffect(b, display, CaptureName(e));
  }

  /** `remove_hotkey`: for an entry that shows a key, the first key bound to
      its clip is deleted when it is non-empty. */
  function RemoveHotkey(b: Bindings, display: string): (r: Outcome)
    ensures UniqueKeys(b) ==> UniqueKeys(r.bindings)
    ensures !r.saved ==> r.bindings == b
    ensures r.saved ==> Contains(display, KeyTag)
  {
    if !Contains(display, KeyTag) then Outcome(b, false)
    else match FirstKeyFor(b, SelectedPath(display))
      case Some(k) =>
        if k != [] then
          DeleteKeys(b, k);
          Outcome(Delete(b, k), true)
        else Outcome(b, false)
      case None => Outcome(b, false)
  }

  /** A removal unbinds exactly one key: the first one, in dictionary order,
      bound to the selected clip. When an entry shows a key and nothing is
      removed, that first key is missing or empty. */
  lemma RemoveHotkeyEffect(b: Bindings, display: string)
    requires UniqueKeys(b)
    ensures var r := RemoveHotkey(b, display);
      var k := FirstKeyFor(b, SelectedPath(display));
      r.saved ==> (k.Some? && k.value != [] && k.value in ToMap(b) && ToMap(b)[k.value] == SelectedPath(display)
        && ToMap(r.bindings) == ToMap(b) - {k.value})
    ensures var r := RemoveHotkey(b, display);
      !r.saved && Contains(display, KeyTag) ==> FirstKeyFor(b, SelectedPath(display)) in {None, Some([])}
  {
    var r := RemoveHotkey(b, display);
    if r.saved {
      var k := FirstKeyFor(b, SelectedPath(display)).value;
      ToMapDelete(b, k);
    }
  }
}
