# A Dafny model of the text-to-speech soundboard's core

`tts.py` is a Tkinter desktop application. It speaks typed text through a
neural voice and plays the result on one or two audio output devices. It keeps
a cache of the generated clips, lets the user bind global hotkeys to cached
clips (the soundboard), and remembers its settings between runs. Most of the
file builds widgets. This project models the sequential logic underneath,
which falls into five pieces:

- **Voices and the cache file name** (`voices.dfy`, `cache.dfy`).
  - The fixed catalogue of fifteen voices.
  - `get_voice_short_name`, which turns `"en-US-JennyNeural"` into `"JennyFemaleUS"`.
  - `sanitize_filename`.
  - The file name `"<sanitised text>-<short name>.mp3"`.
  - The cache check of `generate_speech_edgetts`. Synthesis is an input outcome.
- **The volume and channel transform and the device loop** (`audio.dfy`).
  - Gain, then clipping to [-1, 1], then averaging a multi-channel frame to mono.
  - Per-device adaptation to mono, duplicated stereo, or a skip.
  - The dispatch loop, in which neither a skip nor a device error stops the other devices.
  - The target list built from the two device dropdowns.
- **The soundboard binding store** (`soundboard.dfy`).
  - The bindings dictionary as an insertion-ordered list of (key, path) pairs, with its map view.
  - The list entries `"<name> [Key: <key>]"` and how `assign_hotkey` parses them back.
  - Key-name normalisation in the capture dialog and in the global listener.
  - `assign_hotkey`, `remove_hotkey` and the listener's lookup.
- **The playback flag and the progress bar** (`playback.dfy`).
  - The pair (`is_playing`, progress) as a state machine.
  - Each button press and each worker step is one transition.
  - The progress loop is a method whose input is the flag it sees on each pass.
- **Settings** (`settings.dfy`).
  - `load_settings` over the values the INI file holds.
  - `save_settings`.
  - `on_volume_change`.

`text.dfy` gives the Python `str` operations these need, each with a contract
that characterises its result: `strip`, slicing, `replace`, `split`, `find`,
`in`, `lower` and `rstrip`. `wrappers.dfy` holds `Option`.

Device indices, decoded sample buffers, device capabilities, whether a device
call raises, the synthesis outcome and the captured key are all parameters.
Nothing in the model performs I/O.

## Model

| member | source | states |
|---|---|---|
| Text.Strip | tts.py:116 | `str.strip()`: the result is a contiguous slice of the input, everything cut from either end is whitespace, and the result neither starts nor ends with whitespace |
| Text.StripFixesTrimmed | tts.py:116 | a string with no whitespace at either end is unchanged by `strip()` |
| Text.Take | tts.py:115 | `text[:50]`: the whole string when it is short enough, otherwise its first 50 characters |
| Text.KeepKeep | tts.py:111-113 | deleting one set of characters and then another is the same as deleting their union, so the per-character `replace` loop can be read as one deletion |
| Text.IndexFrom | tts.py:566-569 | `find`: the index returned is an occurrence, no earlier occurrence exists, and `None` means there is no occurrence at all |
| Text.ContainsMeansOccurs | tts.py:566 | `pat in s` holds exactly when `pat` occurs somewhere in `s` |
| Text.SplitChar | tts.py:121 | `split('-')`: no piece holds the separator, and joining the pieces with it gives the input back |
| Text.SplitJoin | tts.py:121 | splitting a join of separator-free pieces gives back the pieces |
| Text.ReplaceAllSuffix | tts.py:124 | `replace` on `x + pat`, where no occurrence starts inside `x`, replaces only the final occurrence |
| Text.ReplaceAll | tts.py:124 | `replace(pat, rep)`: an occurrence at the start is replaced by `rep`; a replacement no longer than the pattern never lengthens the string; a string shorter than the pattern is unchanged; replacing a pattern by itself changes nothing |
| Text.ReplaceAllAbsent | tts.py:124 | a string in which the pattern does not occur is unchanged |
| Text.ReplaceAllSplit | tts.py:124 | in `x + pat + y` with no occurrence starting inside `x`, `x` is kept, that occurrence becomes `rep`, and replacement goes on in `y`: occurrences are replaced left to right without overlap |
| Text.ToLower | tts.py:614-618 | `lower()` keeps the length, maps each character, and leaves no upper-case ASCII letter |
| Text.RStripChar | tts.py:569 | `rstrip(']')` removes every trailing bracket, not only one: the result is a prefix, does not end in the bracket, and only brackets were removed |
| Voices.FindVoice | tts.py:127-129 | the catalogue search: a hit has the id asked for, and a miss means no entry has it |
| Voices.FindVoiceAt | tts.py:31-47 | the catalogue ids are distinct, so looking up entry `k`'s id finds entry `k` |
| Voices.GenderOf | tts.py:130-135 | the gender is "Female", "Male" or empty; it is "Female" exactly when the label contains "Female", even if it also contains "Male"; it is empty exactly when the label contains neither |
| Voices.GenderFemale | tts.py:130-131 | a label containing "Female" gives "Female", because "Female" is checked before "Male" |
| Voices.GenderMale | tts.py:132-133 | a label without 'F' that contains "Male" gives "Male" |
| Voices.ShortName | tts.py:118-138 | an id with fewer than three dash-separated parts, and an id that no catalogue voice has, both give "Voice" |
| Voices.ShortNameOfId | tts.py:121-137 | for an id "en-<region>-<name>Neural" found in the catalogue, the short name is the name without "Neural", then the label's gender, then the region |
| Voices.EntryShortName | tts.py:31-47 | a catalogue entry whose label and id follow the common pattern gets the short name built from that pattern's parts, and that name is free of dashes, colons and path separators |
| Voices.CatalogShortName | tts.py:118-138 | the short name of catalogue entry `k` is the `k`-th name of a hand-written table ("JennyFemaleUS", …, "PrabhatMaleIN") |
| Voices.ShortNameCharacterised | tts.py:118-138 | a catalogue id gets its table entry; an id outside the catalogue, or one with fewer than three dash parts, gets "Voice" |
| Voices.ShortNamesDistinct | tts.py:31-47 | distinct catalogue voices have distinct short names |
| Voices.ShortNameRange | tts.py:118-138 | every short name is a table entry or "Voice" |
| Voices.ShortNameShaped | tts.py:118-138 | no short name is empty, and none holds a dash, a colon or a path separator |
| Cache.RemoveEach | tts.py:111-113 | one `replace(c, '')` per character in order is the same as deleting the set of those characters |
| Cache.RemoveInvalid | tts.py:110-113 | the removal loop over `<>:"/\|?*` deletes exactly those characters |
| Cache.Sanitize | tts.py:108-116 | `sanitize_filename` is strip after cut-to-50 after deleting the invalid characters |
| Cache.SanitizeClean | tts.py:108-116 | a sanitised stem has no invalid character, at most 50 characters (the cut comes before the strip), and no whitespace at either end |
| Cache.SanitizeIdempotent | tts.py:108-116 | sanitising a sanitised stem changes nothing |
| Cache.TruncationCollision | tts.py:115 | texts whose kept characters agree on the first 50 share one stem, whatever follows |
| Cache.CacheFileName | tts.py:146-148 | the file name ends in ".mp3" and holds no path separator, backslash or colon; text that sanitises to nothing still gives "-<short name>.mp3" |
| Cache.FileNameSplits | tts.py:148 | a file name determines its stem and short name when the short name has no dash |
| Cache.SplitAtLastDash | tts.py:148 | two "x-y" strings split the same way at their last dash when neither y holds a dash |
| Cache.CacheFileNameInjective | tts.py:146-149 | for catalogue voices, two requests share a cache file name exactly when their texts sanitise alike and the voice is the same |
| Cache.ResolvePath | tts.py:150-163 | the provider is called exactly when the cache path is absent; a present path is returned untouched; only that path can be added; no path comes back when synthesis raised; a failure before writing leaves the files unchanged |
| Cache.Resolve | tts.py:140-163 | for a request (text, voice id), the provider is called exactly when the file named from that text and voice is missing; a returned path is that file and it exists afterwards; no path is returned exactly when synthesis ran and did not save; no other file appears; a failure before writing leaves the files unchanged |
| Cache.CleanFailureRetries | tts.py:150-163 | a synthesis that fails before writing returns no path and leaves no file, so the next request for the same path calls the provider again, exactly as if the failed attempt had not happened |
| Cache.ResolveTwiceSynthesizesOnce | tts.py:150-154 | after a successful request, the same request is a cache hit whatever the provider would do |
| Cache.PartialWriteIsServedLater | tts.py:157-162 | a synthesis that fails after it starts writing leaves a file that the next request treats as a hit |
| Audio.Clip | tts.py:708 | `np.clip(x, -1, 1)` lands in [-1, 1] and is the identity there |
| Audio.ClipNearest | tts.py:708 | the clipped value is the point of [-1, 1] nearest to the input |
| Audio.Gain | tts.py:707-708 | gain-then-clip keeps the length, is applied sample by sample, and every sample lands in [-1, 1] |
| Audio.GainOneIdentity | tts.py:707-708 | a multiplier of 1 leaves in-range audio unchanged |
| Audio.GainZeroSilence | tts.py:707-708 | a multiplier of 0 silences every sample |
| Audio.SumBounds | tts.py:711-712 | a sum of in-range samples lies within plus or minus the sample count |
| Audio.Mean | tts.py:711-712 | the mean of an in-range frame is in range |
| Audio.MeanBetween | tts.py:711-712 | for a frame of any number of channels, the mean lies between any lower and upper bound of its samples; a frame of copies of one sample has that sample as its mean |
| Audio.Prepare | tts.py:707-712 | the buffer handed to the devices has one sample per frame, all in range; a mono file gives its gained and clipped samples, and a multi-channel frame becomes the mean of its clipped channels |
| Audio.ClipBeforeAverage | tts.py:707-712 | clipping comes before averaging: a frame (1, 0) at gain 2 comes out as 0.5, not as the 1.0 that averaging first would give |
| Audio.AdaptForDevice | tts.py:715-725 | one output channel gives the mono buffer; two or more give two identical columns with the same frame count; fewer than one skips the device |
| Audio.StereoRoundTrip | tts.py:720-723 | the duplicated columns carry the same signal, so mixing them down at unit gain gives back the mono samples |
| Audio.Dispatch | tts.py:715-729 | one event per target in order: a failed device query, or a play that raises on a device with channels, is a failure; no output channel is a skip; otherwise the device plays the adapted buffer; no event stops the loop |
| Audio.Targets | tts.py:698-700 | the targets are the first index, plus the second index minus one exactly when the second index is positive |
| Audio.TargetsMatchDropdown | tts.py:367-368 | the second target names the device that the second dropdown shows after its leading "None", and "None" adds no target |
| Soundboard.ToMapKeys | tts.py:543-547 | the map view of the bindings has exactly the listed keys |
| Soundboard.ToMapAt | tts.py:543-547 | with unique keys, every listed pair is in the map view |
| Soundboard.Delete | tts.py:571 | `del bindings[k]`: the list never grows and no remaining entry has the key `k` |
| Soundboard.DeleteContents | tts.py:571 | the entries left after `del bindings[k]` are exactly the entries whose key is not `k` |
| Soundboard.DeleteKeys | tts.py:570-571 | `del bindings[k]` removes exactly `k` and keeps keys unique |
| Soundboard.ToMapDelete | tts.py:570-571 | deleting a key removes just that key from the map view |
| Soundboard.Append | tts.py:589-590 | adding a new key updates the map view at that key and keeps keys unique |
| Soundboard.DeleteAllForKeys | tts.py:595-597 | deleting every key bound to a path keeps keys unique and adds none |
| Soundboard.DeleteAllFor | tts.py:595-597 | the ESC loop: the list never grows and no remaining entry is bound to the clip |
| Soundboard.DeleteAllForContents | tts.py:595-597 | the entries left by the ESC loop are exactly those bound to some other clip |
| Soundboard.ToMapDeleteAllFor | tts.py:595-597 | deleting every key bound to a path drops exactly the map entries with that value |
| Soundboard.FirstIndexFor | tts.py:543-547 | the first binding, in dictionary order, whose path is the clip's path |
| Soundboard.FirstKeyFor | tts.py:543-547 | the key found maps to the clip's path; none found means no key maps to it |
| Soundboard.NoValueNoKey | tts.py:543-547 | a path that no listed binding has is not a value of the map view |
| Soundboard.Listing | tts.py:538 | exactly the ".mp3" files of the directory are listed |
| Soundboard.Entries | tts.py:540-554 | one list entry per cached clip |
| Soundboard.DropExtension | tts.py:550 | `filename[:-4]` gives back the stem of a ".mp3" name |
| Soundboard.DisplayName | tts.py:549-552 | without a non-empty key the entry is the file name less ".mp3"; with one, the entry starts with that stem, ends with `" [Key: <key>]"`, and holds nothing else |
| Soundboard.ParseDisplay | tts.py:566-572 | an entry yields an old key exactly when it contains " [Key: "; otherwise the file name is the entry plus ".mp3" |
| Soundboard.FirstTagAt | tts.py:567 | with no '[' in the stem, the first marker is the one that the entry encoding added |
| Soundboard.NoTagAfter | tts.py:569 | no marker starts in a tail that holds no '[' |
| Soundboard.RStripOneBracket | tts.py:569 | `rstrip(']')` removes exactly the closing bracket from a key that does not end in ']' |
| Soundboard.DisplayRoundTrip | tts.py:550-552 | a list entry decodes to its clip and key when neither holds '[' and the key does not end in ']' |
| Soundboard.PlainDisplayRoundTrip | tts.py:566-572 | an entry without a key decodes to its clip when the stem holds no marker |
| Soundboard.BracketKeyMisread | tts.py:569 | a key that ends in ']' is not read back as itself |
| Soundboard.TaggedStemMisread | tts.py:566-567 | a clip whose name contains " [Key: " is read back as a different file |
| Soundboard.EntrySelectsClip | tts.py:540-572 | each list entry whose name and key avoid '[' (and whose key does not end in ']') selects its own clip's path, and reads back as its old key the first key bound to the clip when that key is non-empty, and no key otherwise |
| Soundboard.ListenerName | tts.py:663-669 | the listener's key name has no upper-case letter; a key with a character gives that character lower-cased, and a named key gives its name lower-cased |
| Soundboard.CaptureName | tts.py:608-618 | ESC is stored as "esc"; the stored name has no upper-case letter; a key with a character is stored as that character lower-cased |
| Soundboard.CaptureMatchesListener | tts.py:611-618 | the name a key is stored under when it is assigned is the name the global listener looks up, and it holds no upper-case letter |
| Soundboard.Lookup | tts.py:663-673 | the listener plays a clip exactly when the normalised key is bound, and it plays the bound path |
| Soundboard.WithoutShownKey | tts.py:566-571 | `assign_hotkey` first unbinds the key that the selected entry shows |
| Soundboard.AssignHotkey | tts.py:556-599 | keys stay unique; the bindings are saved exactly when a non-empty key was captured |
| Soundboard.AssignKeyEffect | tts.py:584-590 | a key other than ESC ends up bound to the clip; the only other change is that the entry's shown key is unbound |
| Soundboard.AssignEscEffect | tts.py:594-597 | ESC unbinds every key of the clip and binds none |
| Soundboard.AssignNothingEffect | tts.py:566-599 | with no key captured nothing is added or saved, but the shown key is already unbound in memory |
| Soundboard.AssignThenPress | tts.py:584-590 | assigning a key and then pressing it plays the clip the entry names |
| Soundboard.RemoveHotkey | tts.py:629-657 | keys stay unique; nothing changes unless the entry shows a key |
| Soundboard.RemoveHotkeyEffect | tts.py:647-657 | a removal unbinds exactly one key: the first key, in dictionary order, bound to the clip, and it is non-empty; nothing is removed only when no key, or only an empty key, is found for it |
| Playback.ProgressValue | tts.py:1045 | the bar value at step `i` of 50 is in 0..100, is 0 only at the start and is 100 only at step 50 |
| Playback.ProgressValueMonotone | tts.py:1042-1045 | the bar value never decreases from step to step |
| Playback.PlayTts | tts.py:945-965 | nothing starts for blank text or while playing; otherwise the stripped text goes to the worker with the chosen voice and targets |
| Playback.Stop | tts.py:1048-1051 | `stop_playback` clears the flag and resets the bar |
| Playback.StopIdempotent | tts.py:1048-1051 | stopping twice is stopping once |
| Playback.SoundStartEffect | tts.py:686-691 | a soundboard play stops first and then sets the flag, so a text request made afterwards is refused |
| Playback.SoundExitKeepsProgress | tts.py:735-736 | the soundboard worker's `finally` clears only the flag; the text worker's `finally` also resets the bar |
| Playback.Apply | tts.py:967-1051 | every transition keeps the bar in 0..100; the text worker's `finally` and the Stop button both give idle with the bar at 0; setting the flag leaves the bar alone; a progress pass never changes the flag and changes nothing once the flag is cleared; the soundboard's `finally` clears only the flag |
| Playback.RunAppend | tts.py:967-1036 | running two sequences of transitions is running their concatenation |
| Playback.TtsWorkerEndsIdle | tts.py:967-1036 | the text worker always ends idle with the bar at 0, whatever ran before its `finally` and whether or not it raised |
| Playback.ProgressStaysInRange | tts.py:1036-1051 | no sequence of transitions moves the bar outside 0..100 |
| Playback.StoppedTicksDoNothing | tts.py:1043-1044 | once the flag is cleared, the remaining passes of the progress loop change nothing |
| Playback.TicksReachProgress | tts.py:1038-1046 | `n` uninterrupted progress passes from a playing state keep the flag set and leave the bar at the value of pass `n - 1` |
| Playback.UpdateProgress | tts.py:1038-1046 | at most 51 values, each in 0..100, starting at 0 and never decreasing; the loop stops at the first pass that sees the flag cleared; the last value is 100 exactly when the flag held through step 50; running as many progress transitions from a playing state ends with the bar at the last value |
| Settings.ApplyIndex | tts.py:775-791 | a stored index is applied only when it is within range |
| Settings.LoadSelections | tts.py:774-791 | the three indices are applied in order; each changes only to an in-range stored value, and a present in-range value is applied unless an earlier option could not be converted; an unconvertible value stops the load there |
| Settings.LoadPreferences | tts.py:793-809 | volume, dark mode and stay-on-top are applied in order; each changes only to its stored value, and a present value is applied unless an earlier option could not be converted; a stored volume sets both the percentage and the multiplier |
| Settings.LoadSettings | tts.py:766-811 | in-range selections stay in range; percentage and multiplier stay consistent; a missing file changes nothing; each changed field comes from the file, and each present (and, for indices, in-range) value is applied when every option before it could be converted |
| Settings.VolumeUnchecked | tts.py:793-798 | the stored volume is applied without a range check: a percentage above 200 gives a multiplier above 2.0 |
| Settings.UnparsableStopsLoad | tts.py:771-811 | a value that cannot be converted ends the load: for each of the six options, everything after it keeps the window's value |
| Settings.SaveLoadRoundTrip | tts.py:766-830 | loading what was saved restores it, whatever the window held before, as long as the indices are still in range |
| Settings.OutOfRangeIgnored | tts.py:781-784 | a saved device index that is now out of range leaves the current selection |
| Settings.SaveSettings | tts.py:814-824 | every option is written, none unconvertible, each holding the window's current value; only the percentage of the volume is stored |
| Settings.Truncate | tts.py:302 | `int()` of a float truncates toward zero |
| Settings.OnVolumeChange | tts.py:300-305 | the percentage is the slider value truncated toward zero and the multiplier is that percentage over 100; a slider value in 0..200 gives a multiplier in 0..2 |
| Settings.WholeSliderValue | tts.py:302 | a whole slider position is kept exactly |

## Left out

- The Tkinter interface: widgets, theming, frame switching, the listbox selection and the stay-on-top window attribute. Only the values these widgets hold are modelled.
- The edge-tts network call. It is the `Synthesis` parameter of `Cache.ResolvePath`, which says whether the call saved the file, failed before writing, or failed after writing part of it.
- Decoding with `soundfile` and device calls through `sounddevice` (query, play, wait, stop). Decoded buffers and device capabilities are inputs. `sd.play` implicitly stops earlier streams, and `sd.wait` blocks; neither is modelled.
- Threads, the pynput listeners and `time.sleep`. Each worker is a sequence of transitions. Interleavings of two workers, and the race between a worker's `finally` and a new play, are not modelled. `restart_hotkey_listener` is not modelled; the lookup always reads the current bindings.
- Reading and writing `soundboard.json` and `settings.ini`. Bindings are in memory. The settings file is given as one `Stored` value per option (missing, present, or not convertible). An unreadable file is `None`.
- The sample rate, the duration and the per-step sleep of the progress loop. These only affect timing.
- Float arithmetic. Samples, gains and means are exact reals, not float32.
- Playback.ProgressValue: exact `(i * 100) / 50` is used, while the source computes `int((i / 50) * 100)` in floating point, which gives 57 instead of 58 at step 29. The contract states only the bounds, the endpoints and monotonicity, which hold either way.
- Text.ToLower: only ASCII letters are lower-cased. Python's `lower()` also maps other Unicode letters.
- Soundboard.Listing: the files are listed in the given order, not in `sorted()` order. No property here depends on the order.
- Cache.CacheFileNameInjective: file names are compared exactly, and the set of existing files in `Cache.ResolvePath` and `Cache.Resolve` is looked up case-sensitively. On a case-insensitive file system (the default on Windows and macOS), `os.path.exists` also finds a file whose name differs only in letter case, so texts such as "Hello" and "hello" share one cache file there although their names differ.
- Cache.InCacheDir: `os.path.join` is modelled with '/' as the separator. On Windows it would be a backslash; neither character can occur in a cache file name.
- Settings.OnVolumeChange: the slider's own clamp to 0..200 and its resolution are Tk behaviour. The contract takes any real value and states the range only for values inside 0..200.
- Audio.Prepare: requires every frame of a multi-channel buffer to have at least one channel, which a decoder always yields. The mean of an empty frame is not modelled.
- Soundboard.DisplayRoundTrip: requires that neither the stem nor the key contain '['. This is stronger than "no `" [Key: "` in the name and no trailing ']' on the key", which is what the encoding really needs. `Soundboard.BracketKeyMisread` and `Soundboard.TaggedStemMisread` show that the real limits exist.
- Soundboard.RemoveHotkey: no button or key calls `remove_hotkey` in the source. It is modelled as written.
- Soundboard.EntrySelectsClip: requires that neither the clip name nor the key contain '[' and that the key not end in ']'. This is stronger than what the entry encoding needs; entries outside it are covered only by `Soundboard.BracketKeyMisread` and `Soundboard.TaggedStemMisread`.
- Settings.VolumeUnchecked: the Tk `Scale` linked to `volume_percent` (tts.py:268-280, set again at tts.py:798) may clamp the value to 0..200. That widget behaviour is not modelled, so the lemma states the loaded multiplier as the code computes it before any clamp.
- Soundboard.CaptureName: special keys other than ESC are named through `key.name`. The model's `Special(name)` stands for any key that has a name. The fallback `str(key)` path is `KeyCode` with empty text.

### Known behaviour of the code

- **Cache key.** The cache file is named only by the readable `"<sanitised>-<short>.mp3"`. `hashlib` is imported but never used.
- **Empty stems.** Text that sanitises to nothing gives `"-<short name>.mp3"`; there is no fallback token (see `Cache.CacheFileName`).
- **Partial files.** Synthesis writes straight to the cache path, so a failed write can leave a partial file that a later request treats as a hit (see `Cache.PartialWriteIsServedLater`).
- **No preemption of text.** `play_tts` refuses while the flag is set (see `Playback.PlayTts`). Only a soundboard play stops the current sound first (see `Playback.SoundStartEffect`).
