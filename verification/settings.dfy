/** Loading the saved settings and the volume slider. The settings file is
    given as the values it holds; reading and writing the file are not part of
    this model. */
module Settings {
  import opened Wrappers

  /** One option of the settings file: absent, readable, or present but not
      convertible (which makes `getint`/`getboolean` raise). */
  datatype Stored<T> = Missing | Present(value: T) | Unparsable

  datatype StoredSettings = StoredSettings(
    voiceIndex: Stored<int>,
    output1: Stored<int>,
    output2: Stored<int>,
    volume: Stored<int>,
    darkMode: Stored<bool>,
    stayOnTop: Stored<bool>)

  /** The settings held by the window: dropdown selections, the slider's
      percentage, the playback multiplier and the two check boxes. */
  datatype AppSettings = AppSettings(
    voiceIndex: int,
    output1: int,
    output2: int,
    volumePercent: int,
    volume: real,
    darkMode: bool,
    stayOnTop: bool)

  /** The dropdown selections are valid: a voice, a device, and "None" or a
      device for the second output. */
  predicate IndicesValid(a: AppSettings, voiceCount: nat, deviceCount: nat) {
    0 <= a.voiceIndex < voiceCount && 0 <= a.output1 < deviceCount && 0 <= a.output2 < deviceCount + 1
  }

  /** The multiplier agrees with the percentage. */
  predicate VolumeConsistent(a: AppSettings) {
    a.volume == a.volumePercent as real / 100.0
  }

  /** A stored index is applied only when it is in range. */
  function ApplyIndex(current: int, stored: Stored<int>, bound: int): (r: int)
    ensures r == current || (stored == Present(r) && 0 <= r < bound)
    ensures stored.Present? && 0 <= stored.value < bound ==> r == stored.value
  {
    if stored.Present? && 0 <= stored.value < bound then stored.value else current
  }

  function ApplyVolume(a: AppSettings, stored: Stored<int>): AppSettings {
    if stored.Present? then a.(volumePercent := stored.value, volume := stored.value as real / 100.0) else a
  }

  function ApplyFlag(current: bool, stored: Stored<bool>): bool {
    if stored.Present? then stored.value else current
  }

  /** Settings part-way through a load, and whether every option read so far
      could be converted. */
  datatype Partial = Partial(settings: AppSettings, complete: bool)

  /** The three dropdown indices, in file order, stopping at the first one
      that cannot be converted. */
  function LoadSelections(app: AppSettings, st: StoredSettings, voiceCount: nat, deviceCount: nat): (r: Partial)
    ensures r.settings.(voiceIndex := app.voiceIndex, output1 := app.output1, output2 := app.output2) == app
    ensures r.complete <==> !st.voiceIndex.Unparsable? && !st.output1.Unparsable? && !st.output2.Unparsable?
    ensures IndicesValid(app, voiceCount, deviceCount) ==> IndicesValid(r.settings, voiceCount, deviceCount)
    ensures r.settings.voiceIndex == app.voiceIndex
      || (st.voiceIndex == Present(r.settings.voiceIndex) && 0 <= r.settings.voiceIndex < voiceCount)
    ensures r.settings.output1 == app.output1
      || (st.output1 == Present(r.settings.output1) && 0 <= r.settings.output1 < deviceCount)
    ensures r.settings.output2 == app.output2
      || (st.output2 == Present(r.settings.output2) && 0 <= r.settings.output2 < deviceCount + 1)
    ensures st.voiceIndex.Present? && 0 <= st.voiceIndex.value < voiceCount
      ==> r.settings.voiceIndex == st.voiceIndex.value
    ensures !st.voiceIndex.Unparsable? && st.output1.Present? && 0 <= st.output1.value < deviceCount
      ==> r.settings.output1 == st.output1.value
    ensures !st.voiceIndex.Unparsable? && !st.output1.Unparsable?
      && st.output2.Present? && 0 <= st.output2.value < deviceCount + 1
      ==> r.settings.output2 == st.output2.value
  {
    if st.voiceIndex.Unparsable? then Partial(app, false) else
    var a1 := app.(voiceIndex := ApplyIndex(app.voiceIndex, st.voiceIndex, voiceCount));
    if st.output1.Unparsable? then Partial(a1, false) else
    var a2 := a1.(output1 := ApplyIndex(a1.output1, st.output1, deviceCount));
    if st.output2.Unparsable? then Partial(a2, false) else
    Partial(a2.(output2 := ApplyIndex(a2.output2, st.output2, deviceCount + 1)), true)
  }

  /** Volume, dark mode and stay-on-top, in file order, stopping at the first
      one that cannot be converted. */
  function LoadPreferences(app: AppSettings, st: StoredSettings): (r: AppSettings)
    ensures r.(volumePercent := app.volumePercent, volume := app.volume,
      darkMode := app.darkMode, stayOnTop := app.stayOnTop) == app
    ensures VolumeConsistent(app) ==> VolumeConsistent(r)
    ensures r.volumePercent == app.volumePercent || st.volume == Present(r.volumePercent)
    ensures st.volume.Unparsable? ==> r == app
    ensures r.darkMode == app.darkMode || st.darkMode == Present(r.darkMode)
    ensures r.stayOnTop == app.stayOnTop || st.stayOnTop == Present(r.stayOnTop)
    ensures st.volume.Present? ==> r.volumePercent == st.volume.value && r.volume == st.volume.value as real / 100.0
    ensures !st.volume.Unparsable? && st.darkMode.Present? ==> r.darkMode == st.darkMode.value
    ensures !st.volume.Unparsable? && !st.darkMode.Unparsable? && st.stayOnTop.Present?
      ==> r.stayOnTop == st.stayOnTop.value
  {
    if st.volume.Unparsable? then app else
    var a4 := ApplyVolume(app, st.volume);
    if st.darkMode.Unparsable? then a4 else
    var a5 := a4.(darkMode := ApplyFlag(a4.darkMode, st.darkMode));
    if st.stayOnTop.Unparsable? then a5 else
    a5.(stayOnTop := ApplyFlag(a5.stayOnTop, st.stayOnTop))
  }

  /** None of the first `n` options, in file order, is unconvertible. */
  predicate ReadableUpTo(st: StoredSettings, n: nat) {
    && (n >= 1 ==> !st.voiceIndex.Unparsable?)
    && (n >= 2 ==> !st.output1.Unparsable?)
    && (n >= 3 ==> !st.output2.Unparsable?)
    && (n >= 4 ==> !st.volume.Unparsable?)
    && (n >= 5 ==> !st.darkMode.Unparsable?)
  }

  /** `load_settings`. The options are read in order and the first one that
      cannot be converted ends the load: the ones before it stay applied.
      `None` stands for a missing or unreadable file. */
  function LoadSettings(app: AppSettings, file: Option<StoredSettings>, voiceCount: nat, deviceCount: nat): (r: AppSettings)
    ensures IndicesValid(app, voiceCount, deviceCount) ==> IndicesValid(r, voiceCount, deviceCount)
    ensures VolumeConsistent(app) ==> VolumeConsistent(r)
    ensures file.None? ==> r == app
    ensures r.voiceIndex == app.voiceIndex
      || (file.Some? && file.value.voiceIndex == Present(r.voiceIndex) && 0 <= r.voiceIndex < voiceCount)
    ensures r.output1 == app.output1
      || (file.Some? && file.value.output1 == Present(r.output1) && 0 <= r.output1 < deviceCount)
    ensures r.output2 == app.output2
      || (file.Some? && file.value.output2 == Present(r.output2) && 0 <= r.output2 < deviceCount + 1)
    ensures r.volumePercent == app.volumePercent || (file.Some? && file.value.volume == Present(r.volumePercent))
    ensures r.darkMode == app.darkMode || (file.Some? && file.value.darkMode == Present(r.darkMode))
    ensures r.stayOnTop == app.stayOnTop || (file.Some? && file.value.stayOnTop == Present(r.stayOnTop))
    ensures file.Some? && file.value.voiceIndex.Present? && 0 <= file.value.voiceIndex.value < voiceCount
      ==> r.voiceIndex == file.value.voiceIndex.value
    ensures file.Some? && ReadableUpTo(file.value, 1) && file.value.output1.Present?
      && 0 <= file.value.output1.value < deviceCount
      ==> r.output1 == file.value.output1.value
    ensures file.Some? && ReadableUpTo(file.value, 2) && file.value.output2.Present?
      && 0 <= file.value.output2.value < deviceCount + 1
      ==> r.output2 == file.value.output2.value
    ensures file.Some? && ReadableUpTo(file.value, 3) && file.value.volume.Present?
      ==> r.volumePercent == file.value.volume.value && r.volume == file.value.volume.value as real / 100.0
    ensures file.Some? && ReadableUpTo(file.value, 4) && file.value.darkMode.Present?
      ==> r.darkMode == file.value.darkMode.value
    ensures file.Some? && ReadableUpTo(file.value, 5) && file.value.stayOnTop.Present?
      ==> r.stayOnTop == file.value.stayOnTop.value
  {
    match file
    case None => app
    case Some(st) =>
      var p := LoadSelections(app, st, voiceCount, deviceCount);
      if p.complete then LoadPreferences(p.settings, st) else p.settings
  }

  /** The volume is applied without a range check: a stored percentage above
      200 gives a multiplier above 2.0, beyond what the slider allows. */
  lemma VolumeUnchecked(app: AppSettings, percent: int, voiceCount: nat, deviceCount: nat)
    ensures var r := LoadSettings(app, Some(StoredSettings(Missing, Missing, Missing, Present(percent), Missing, Missing)), voiceCount, deviceCount);
      r.volumePercent == percent && r.volume == percent as real / 100.0
      && (percent > 200 ==> r.volume > 2.0)
  {
  }

  /** An option that cannot be converted stops the load there: nothing after
      it is applied. */
  lemma UnparsableStopsLoad(app: AppSettings, st: StoredSettings, voiceCount: nat, deviceCount: nat)
    ensures st.voiceIndex.Unparsable? ==> LoadSettings(app, Some(st), voiceCount, deviceCount) == app
    ensures st.output1.Unparsable? ==>
      LoadSettings(app, Some(st), voiceCount, deviceCount) == app.(voiceIndex := LoadSettings(app, Some(st), voiceCount, deviceCount).voiceIndex)
    ensures var r := LoadSettings(app, Some(st), voiceCount, deviceCount);
      st.output2.Unparsable? ==> r == app.(voiceIndex := r.voiceIndex, output1 := r.output1)
    ensures var r := LoadSettings(app, Some(st), voiceCount, deviceCount);
      st.volume.Unparsable? ==> (r.volumePercent == app.volumePercent && r.volume == app.volume
        && r.darkMode == app.darkMode && r.stayOnTop == app.stayOnTop)
    ensures var r := LoadSettings(app, Some(st), voiceCount, deviceCount);
      st.darkMode.Unparsable? ==> (r.darkMode == app.darkMode && r.stayOnTop == app.stayOnTop)
    ensures var r := LoadSettings(app, Some(st), voiceCount, deviceCount);
      st.stayOnTop.Unparsable? ==> r.stayOnTop == app.stayOnTop
  {
  }

  /** `save_settings`: every option is written from the current state. */
  function SaveSettings(a: AppSettings): (r: StoredSettings)
    ensures ReadableUpTo(r, 5) && !r.stayOnTop.Unparsable?
    ensures r.voiceIndex == Present(a.voiceIndex) && r.output1 == Present(a.output1) && r.output2 == Present(a.output2)
    ensures r.volume == Present(a.volumePercent)
    ensures r.darkMode == Present(a.darkMode) && r.stayOnTop == Present(a.stayOnTop)
  {
    StoredSettings(Present(a.voiceIndex), Present(a.output1), Present(a.output2),
      Present(a.volumePercent), Present(a.darkMode), Present(a.stayOnTop))
  }

  /** Loading what was saved restores it, whatever the window held before,
      as long as the saved indices are still in range. */
  lemma SaveLoadRoundTrip(before: AppSettings, a: AppSettings, voiceCount: nat, deviceCount: nat)
    requires IndicesValid(a, voiceCount, deviceCount) && VolumeConsistent(a)
    ensures LoadSettings(before, Some(SaveSettings(a)), voiceCount, deviceCount) == a
  {
  }

  /** A saved index that is out of range (fewer devices now) leaves the
      current selection in place. */
  lemma OutOfRangeIgnored(before: AppSettings, a: AppSettings, voiceCount: nat, deviceCount: nat)
    requires a.output1 >= deviceCount
    ensures LoadSettings(before, Some(SaveSettings(a)), voiceCount, deviceCount).output1 == before.output1
  {
  }

  /** Python's `int()` on a float: truncation toward zero. */
  function Truncate(x: real): (r: int)
    ensures x >= 0.0 ==> r as real <= x < r as real + 1.0
    ensures x < 0.0 ==> r as real - 1.0 < x <= r as real
  {
    if x >= 0.0 then x.Floor else -((-x).Floor)
  }

  const SliderMin: int := 0
  const SliderMax: int := 200

  /** `on_volume_change`: the slider value becomes a whole percentage and the
      multiplier is that percentage over 100. */
  function OnVolumeChange(a: AppSettings, value: real): (r: AppSettings)
    ensures VolumeConsistent(r)
    ensures r.volumePercent == Truncate(value)
    ensures r == a.(volumePercent := r.volumePercent, volume := r.volume)
    ensures SliderMin as real <= value <= SliderMax as real ==> SliderMin <= r.volumePercent <= SliderMax
    ensures SliderMin as real <= value <= SliderMax as real ==> 0.0 <= r.volume <= 2.0
  {
    var p := Truncate(value);
    a.(volumePercent := p, volume := p as real / 100.0)
  }

  /** A whole slider position is kept exactly. */
  lemma WholeSliderValue(a: AppSettings, p: int)
    ensures OnVolumeChange(a, p as real).volumePercent == p
  {
  }
}
