/** The playback flag and the progress bar, as a sequential state machine:
    each button press and each step a worker thread takes is one transition
    of the pair (is_playing, progress). */
module Playback {
  import opened Wrappers
  import opened Text
  import Audio

  datatype PlayState = PlayState(isPlaying: bool, progress: int)

  const Idle: PlayState := PlayState(false, 0)

  /** The progress bar moves in this many steps. */
  const Steps: nat := 50

  /** The bar's value at step `i`, in percent. Exact arithmetic; see the
      notes on float rounding. */
  function ProgressValue(i: nat): (r: int)
    requires i <= Steps
    ensures 0 <= r <= 100
    ensures r == 0 <==> i == 0
    ensures r == 100 <==> i == Steps
  {
    (i * 100) / Steps
  }

  lemma ProgressValueMonotone(i: nat, j: nat)
    requires i <= j <= Steps
    ensures ProgressValue(i) <= ProgressValue(j)
  {
  }

  /** What `play_tts` hands to the worker thread. */
  datatype Job = Job(text: string, voiceIndex: int, targets: seq<int>)

  /** `play_tts`: nothing starts for blank text or while something plays;
      otherwise the stripped text goes to the worker with the chosen voice
      and devices. */
  function PlayTts(s: PlayState, boxText: string, voiceIndex: int, first: int, second: int): (r: Option<Job>)
    ensures r.None? <==> Strip(boxText) == [] || s.isPlaying
    ensures r.Some? ==> r.value.text == Strip(boxText)
    ensures r.Some? ==> r.value.text != [] && !IsSpace(r.value.text[0]) && !IsSpace(r.value.text[|r.value.text| - 1])
    ensures r.Some? ==> r.value.voiceIndex == voiceIndex && r.value.targets == Audio.Targets(first, second)
  {
    var text := Strip(boxText);
    if text == [] || s.isPlaying then None
    else Some(Job(text, voiceIndex, Audio.Targets(first, second)))
  }

  /** One transition of the playback state. */
  datatype Step =
    | TtsEnter            // `_tts_thread` sets the flag
    | Tick(i: nat)        // one pass of `_update_progress`
    | TtsExit(raised: bool) // the `finally` of `_tts_thread`, after success or an error
    | StopPressed         // `stop_playback`
    | SoundEnter          // `play_soundboard_sound` sets the flag after stopping
    | SoundExit           // the `finally` of `play_soundboard_sound`

  function Apply(s: PlayState, step: Step): (r: PlayState)
    ensures ValidProgress(s) ==> ValidProgress(r)
    ensures step.TtsExit? || step.StopPressed? ==> r == Idle
    ensures step.TtsEnter? || step.SoundEnter? ==> r.isPlaying && r.progress == s.progress
    ensures step.SoundExit? ==> !r.isPlaying && r.progress == s.progress
    ensures step.Tick? ==> r.isPlaying == s.isPlaying
    ensures step.Tick? && !s.isPlaying ==> r == s
  {
    match step
    case TtsEnter => s.(isPlaying := true)
    case Tick(i) => if s.isPlaying && i <= Steps then s.(progress := ProgressValue(i)) else s
    case TtsExit(_) => Idle
    case StopPressed => Idle
    case SoundEnter => s.(isPlaying := true)
    case SoundExit => s.(isPlaying := false)
  }

  /** The first `n` passes of `_update_progress`, uninterrupted. */
  function Ticks(n: nat): (r: seq<Step>)
    ensures |r| == n && AllTicks(r)
    ensures forall i :: 0 <= i < n ==> r[i] == Tick(i)
  {
    seq(n, i requires 0 <= i < n => Tick(i))
  }

  function Run(s: PlayState, steps: seq<Step>): PlayState
    decreases |steps|
  {
    if steps == [] then s else Run(Apply(s, steps[0]), steps[1..])
  }

  /** `stop_playback`: the flag is cleared and the bar reset. */
  function Stop(s: PlayState): (r: PlayState)
    ensures r == Apply(s, StopPressed)
    ensures !r.isPlaying && r.progress == 0
  {
    Idle
  }

  /** Stopping twice is stopping once. */
  lemma StopIdempotent(s: PlayState)
    ensures Stop(Stop(s)) == Stop(s)
  {
  }

  /** The steps `play_soundboard_sound` takes before it plays: stop, then set
      the flag. */
  const SoundStart: seq<Step> := [StopPressed, SoundEnter]

  /** A soundboard play first clears the flag and resets the bar, then sets
      the flag; a text request made afterwards is refused. */
  lemma SoundStartEffect(s: PlayState, boxText: string, voiceIndex: int, first: int, second: int)
    ensures !Apply(s, StopPressed).isPlaying
    ensures Run(s, SoundStart) == PlayState(true, 0)
    ensures PlayTts(Run(s, SoundStart), boxText, voiceIndex, first, second).None?
  {
    assert SoundStart[1..] == [SoundEnter];
    assert SoundStart[1..][1..] == [];
  }

  /** The end of a soundboard play clears the flag but leaves the bar where it
      was, unlike the end of a text play. */
  lemma SoundExitKeepsProgress(s: PlayState)
    ensures Apply(s, SoundExit) == PlayState(false, s.progress)
    ensures Apply(s, TtsExit(false)) == Idle && Apply(s, TtsExit(true)) == Idle
  {
  }

  lemma {:induction false} RunAppend(s: PlayState, a: seq<Step>, b: seq<Step>)
    ensures Run(s, a + b) == Run(Run(s, a), b)
    decreases |a|
  {
    if a != [] {
      assert (a + b)[0] == a[0];
      assert (a + b)[1..] == a[1..] + b;
      RunAppend(Apply(s, a[0]), a[1..], b);
    } else {
      assert a + b == b;
    }
  }

  /** The text worker always ends idle with the bar at zero, whatever ran
      before its `finally` and whether or not it raised. */
  lemma TtsWorkerEndsIdle(s: PlayState, body: seq<Step>, raised: bool)
    ensures Run(s, [TtsEnter] + body + [TtsExit(raised)]) == Idle
  {
    RunAppend(s, [TtsEnter] + body, [TtsExit(raised)]);
    assert [TtsExit(raised)][1..] == [];
  }

  predicate ValidProgress(s: PlayState) {
    0 <= s.progress <= 100
  }

  /** No sequence of transitions moves the bar outside 0..100. */
  lemma {:induction false} ProgressStaysInRange(s: PlayState, steps: seq<Step>)
    requires ValidProgress(s)
    ensures ValidProgress(Run(s, steps))
    decreases |steps|
  {
    if steps != [] {
      ProgressStaysInRange(Apply(s, steps[0]), steps[1..]);
    }
  }

  predicate AllTicks(steps: seq<Step>) {
    forall i :: 0 <= i < |steps| ==> steps[i].Tick?
  }

  /** Once playback is stopped, the remaining passes of the progress loop
      change nothing. */
  lemma {:induction false} StoppedTicksDoNothing(s: PlayState, ticks: seq<Step>)
    requires !s.isPlaying && AllTicks(ticks)
    ensures Run(s, ticks) == s
    decreases |ticks|
  {
    if ticks != [] {
      assert ticks[0].Tick?;
      assert AllTicks(ticks[1..]) by {
        forall i | 0 <= i < |ticks[1..]|
          ensures ticks[1..][i].Tick?
        {
          assert ticks[1..][i] == ticks[i + 1];
        }
      }
      StoppedTicksDoNothing(Apply(s, ticks[0]), ticks[1..]);
    }
  }

  /** `n` uninterrupted passes of the progress loop, from a playing state,
      leave the flag set and the bar at the value of the last pass. */
  lemma {:induction false} TicksReachProgress(s: PlayState, n: nat)
    requires s.isPlaying && 1 <= n <= Steps + 1
    ensures Run(s, Ticks(n)) == s.(progress := ProgressValue(n - 1))
  {
    if n == 1 {
      assert Ticks(1)[1..] == [];
    } else {
      assert Ticks(n) == Ticks(n - 1) + [Tick(n - 1)];
      RunAppend(s, Ticks(n - 1), [Tick(n - 1)]);
      TicksReachProgress(s, n - 1);
      assert [Tick(n - 1)][1..] == [];
    }
  }

  /** `_update_progress`: `flagAt(i)` is the value of the flag when pass `i`
      of the loop reads it. The bar values set are returned in order. */
  method UpdateProgress(flagAt: nat -> bool) returns (values: seq<int>)
    ensures |values| <= Steps + 1
    ensures forall i :: 0 <= i < |values| ==> flagAt(i)
    ensures |values| <= Steps ==> !flagAt(|values|)
    ensures forall i :: 0 <= i < |values| ==> 0 <= values[i] <= 100
    ensures |values| > 0 ==> values[0] == 0
    ensures forall i, j :: 0 <= i <= j < |values| ==> values[i] <= values[j]
    ensures (|values| > 0 && values[|values| - 1] == 100) <==> (forall i :: 0 <= i <= Steps ==> flagAt(i))
    ensures |values| > 0 ==> forall p :: Run(PlayState(true, p), Ticks(|values|)) == PlayState(true, values[|values| - 1])
  {
    values := [];
    var i: nat := 0;
    while i <= Steps
      invariant i <= Steps + 1
      invariant |values| == i
      invariant forall k :: 0 <= k < i ==> flagAt(k)
      invariant forall k :: 0 <= k < i ==> values[k] == ProgressValue(k)
    {
      if !flagAt(i) {
        break;
      }
      values := values + [ProgressValue(i)];
      i := i + 1;
    }
    forall a, b | 0 <= a <= b < |values|
      ensures values[a] <= values[b]
    {
      ProgressValueMonotone(a, b);
    }
    if |values| > 0 && values[|values| - 1] == 100 {
      assert |values| - 1 == Steps;
    }
    if |values| > 0 {
      forall p
        ensures Run(PlayState(true, p), Ticks(|values|)) == PlayState(true, values[|values| - 1])
      {
        TicksReachProgress(PlayState(true, p), |values|);
      }
    }
  }
}
