/** The volume and channel transform applied before playback, and the
    per-device dispatch loop. Samples are exact reals; the decoded buffer, the
    device table and the outcome of each device call are inputs. */
module Audio {
  import opened Wrappers

  /** A decoded sound file: one sample per frame for a mono file, one row of
      channel samples per frame otherwise. */
  datatype Buffer = Mono(samples: seq<real>) | Frames(rows: seq<seq<real>>)

  /** A decoder never yields a frame without channels. */
  predicate WellFormed(b: Buffer) {
    b.Frames? ==> forall i :: 0 <= i < |b.rows| ==> |b.rows[i]| >= 1
  }

  predicate InRange(s: seq<real>) {
    forall i :: 0 <= i < |s| ==> -1.0 <= s[i] <= 1.0
  }

  function Abs(x: real): real {
    if x < 0.0 then -x else x
  }

  /** `np.clip(x, -1.0, 1.0)`. */
  function Clip(x: real): (r: real)
    ensures -1.0 <= r <= 1.0
    ensures -1.0 <= x <= 1.0 ==> r == x
  {
    if x < -1.0 then -1.0 else if x > 1.0 then 1.0 else x
  }

  /** The clipped sample is the point of [-1, 1] closest to the input. */
  lemma ClipNearest(x: real, y: real)
    requires -1.0 <= y <= 1.0
    ensures Abs(Clip(x) - x) <= Abs(y - x)
  {
  }

  function Scale(x: real, g: real): real {
    x * g
  }

  /** `np.clip(data * g, -1.0, 1.0)` on one channel. */
  function Gain(s: seq<real>, g: real): (r: seq<real>)
    ensures |r| == |s|
    ensures InRange(r)
    ensures forall i :: 0 <= i < |s| ==> r[i] == Clip(Scale(s[i], g))
  {
    seq(|s|, i requires 0 <= i < |s| => Clip(Scale(s[i], g)))
  }

  /** A gain of one leaves in-range audio unchanged. */
  lemma GainOneIdentity(s: seq<real>)
    requires InRange(s)
    ensures Gain(s, 1.0) == s
  {
    forall i | 0 <= i < |s|
      ensures Gain(s, 1.0)[i] == s[i]
    {
    }
  }

  /** A gain of zero silences every sample. */
  lemma GainZeroSilence(s: seq<real>)
    ensures forall i :: 0 <= i < |s| ==> Gain(s, 0.0)[i] == 0.0
  {
    forall i | 0 <= i < |s|
      ensures Gain(s, 0.0)[i] == 0.0
    {
    }
  }

  function Sum(s: seq<real>): real {
    if s == [] then 0.0 else s[0] + Sum(s[1..])
  }

  /** A sum of in-range samples lies within the sample count. */
  lemma {:induction false} SumBounds(s: seq<real>)
    requires InRange(s)
    ensures -(|s| as real) <= Sum(s) <= |s| as real
  {
    if s != [] {
      assert InRange(s[1..]) by {
        forall i | 0 <= i < |s[1..]|
          ensures -1.0 <= s[1..][i] <= 1.0
        {
          assert s[1..][i] == s[i + 1];
        }
      }
      SumBounds(s[1..]);
    }
  }

  /** `ndarray.mean` over one frame's channels. */
  function Mean(row: seq<real>): (r: real)
    requires |row| >= 1
    ensures InRange(row) ==> -1.0 <= r <= 1.0
  {
    var n := |row| as real;
    assert InRange(row) ==> -n <= Sum(row) <= n by {
      if InRange(row) { SumBounds(row); }
    }
    Sum(row) / n
  }

  /** The samples handed to the devices: gain and clip first, then, for a
      multi-channel file, the mean of each frame. */
  function Prepare(b: Buffer, g: real): (r: seq<real>)
    requires WellFormed(b)
    ensures |r| == (if b.Mono? then |b.samples| else |b.rows|)
    ensures InRange(r)
    ensures b.Mono? ==> r == Gain(b.samples, g)
    ensures b.Frames? ==> forall i :: 0 <= i < |b.rows| ==> r[i] == Mean(Gain(b.rows[i], g))
  {
    match b
    case Mono(s) => Gain(s, g)
    case Frames(rows) => seq(|rows|, i requires 0 <= i < |rows| => Mean(Gain(rows[i], g)))
  }

  /** A sum of samples that all lie in [lo, hi] lies within the count times
      each bound. */
  lemma {:induction false} SumBetween(s: seq<real>, lo: real, hi: real)
    requires forall i :: 0 <= i < |s| ==> lo <= s[i] <= hi
    ensures |s| as real * lo <= Sum(s) <= |s| as real * hi
  {
    if s != [] {
      SumBetween(s[1..], lo, hi);
      assert |s| as real * lo == lo + (|s| - 1) as real * lo;
      assert |s| as real * hi == hi + (|s| - 1) as real * hi;
    }
  }

  /** The mean of a frame lies between any bounds of its channels; a frame of
      `n` copies of one sample, whatever `n`, has that sample as its mean. */
  lemma MeanBetween(row: seq<real>, lo: real, hi: real)
    requires |row| >= 1
    requires forall i :: 0 <= i < |row| ==> lo <= row[i] <= hi
    ensures lo <= Mean(row) <= hi
    ensures lo == hi ==> Mean(row) == lo
  {
    SumBetween(row, lo, hi);
    var n := |row| as real;
    assert Mean(row) == Sum(row) / n;
    QuotientBetween(Sum(row), n, lo, hi);
  }

  /** `n * lo <= a <= n * hi` with `n > 0` puts `a / n` in [lo, hi]. */
  lemma QuotientBetween(a: real, n: real, lo: real, hi: real)
    requires n > 0.0 && n * lo <= a <= n * hi
    ensures lo <= a / n <= hi
  {
    var q := a / n;
    assert q * n == a;
  }

  /** The mean of two equal samples is that sample. */
  lemma MeanOfPair(x: real)
    ensures Mean([x, x]) == x
  {
    assert [x, x][1..] == [x];
    assert [x][1..] == [];
    assert Sum([x]) == x;
    assert Sum([x, x]) == 2.0 * x;
  }

  /** Clipping before averaging is not the same as averaging before clipping:
      a frame with one loud and one silent channel comes out at half scale. */
  lemma ClipBeforeAverage()
    ensures Prepare(Frames([[1.0, 0.0]]), 2.0) == [0.5]
    ensures Clip(Scale(Mean([1.0, 0.0]), 2.0)) == 1.0
  {
    var row := [1.0, 0.0];
    assert row[1..] == [0.0];
    assert [0.0][1..] == [];
    assert Sum(row) == 1.0;
    var clipped := Gain(row, 2.0);
    assert clipped == [1.0, 0.0];
    assert Mean(clipped) == 0.5;
  }

  /** How one device's output is chosen from its maximum output channel
      count: the mono samples, the samples duplicated into two columns, or
      nothing when the device has no output channels. */
  function AdaptForDevice(data: seq<real>, maxChannels: int): (r: Option<Buffer>)
    ensures r.None? <==> maxChannels < 1
    ensures maxChannels == 1 ==> r == Some(Mono(data))
    ensures maxChannels >= 2 ==> r.Some? && r.value.Frames? && |r.value.rows| == |data|
    ensures maxChannels >= 2 ==> forall i :: 0 <= i < |data| ==> r.value.rows[i] == [data[i], data[i]]
  {
    if maxChannels == 1 then Some(Mono(data))
    else if maxChannels >= 2 then Some(Frames(seq(|data|, i requires 0 <= i < |data| => [data[i], data[i]])))
    else None
  }

  /** The two columns carry the same signal: mixing them down at unit gain
      gives back the mono samples. */
  lemma StereoRoundTrip(data: seq<real>, maxChannels: int)
    requires InRange(data) && maxChannels >= 2
    ensures AdaptForDevice(data, maxChannels).Some?
    ensures WellFormed(AdaptForDevice(data, maxChannels).value)
    ensures Prepare(AdaptForDevice(data, maxChannels).value, 1.0) == data
  {
    var b := AdaptForDevice(data, maxChannels).value;
    var r := Prepare(b, 1.0);
    forall i | 0 <= i < |data|
      ensures r[i] == data[i]
    {
      assert Gain(b.rows[i], 1.0) == [data[i], data[i]];
      MeanOfPair(data[i]);
    }
  }

  /** What `sounddevice` reports for a device index, and whether starting
      playback on it raises. An index missing from the table is one whose
      query raises. */
  datatype DeviceInfo = DeviceInfo(maxOutputChannels: int, playRaises: bool)

  datatype Event =
    | Played(device: int, output: Buffer)
    | Skipped(device: int)
    | Failed(device: int)

  /** The playback loop over the target devices: each device is handled on
      its own, and neither a skip nor an error stops the loop. */
  method Dispatch(data: seq<real>, targets: seq<int>, devices: map<int, DeviceInfo>) returns (events: seq<Event>)
    ensures |events| == |targets|
    ensures forall i :: 0 <= i < |targets| ==> events[i].device == targets[i]
    ensures forall i :: 0 <= i < |targets| ==>
      (events[i].Failed? <==>
        (targets[i] !in devices || (devices[targets[i]].maxOutputChannels >= 1 && devices[targets[i]].playRaises)))
    ensures forall i :: 0 <= i < |targets| ==>
      (events[i].Skipped? <==> targets[i] in devices && devices[targets[i]].maxOutputChannels < 1)
    ensures forall i :: 0 <= i < |targets| && events[i].Played? ==>
      targets[i] in devices && AdaptForDevice(data, devices[targets[i]].maxOutputChannels) == Some(events[i].output)
  {
    events := [];
    var k := 0;
    while k < |targets|
      invariant 0 <= k <= |targets|
      invariant |events| == k
      invariant forall i :: 0 <= i < k ==> events[i].device == targets[i]
      invariant forall i :: 0 <= i < k ==>
        (events[i].Failed? <==>
          (targets[i] !in devices || (devices[targets[i]].maxOutputChannels >= 1 && devices[targets[i]].playRaises)))
      invariant forall i :: 0 <= i < k ==>
        (events[i].Skipped? <==> targets[i] in devices && devices[targets[i]].maxOutputChannels < 1)
      invariant forall i :: 0 <= i < k && events[i].Played? ==>
        targets[i] in devices && AdaptForDevice(data, devices[targets[i]].maxOutputChannels) == Some(events[i].output)
    {
      var d := targets[k];
      var e: Event;
      if d !in devices {
        e := Failed(d);
      } else {
        var out := AdaptForDevice(data, devices[d].maxOutputChannels);
        if out.None? {
          e := Skipped(d);
        } else if devices[d].playRaises {
          e := Failed(d);
        } else {
          e := Played(d, out.value);
        }
      }
      events := events + [e];
      k := k + 1;
    }
  }

  /** The device indices to play on: the first dropdown's index, and the
      second dropdown's index minus one when it is not the leading "None". */
  function Targets(first: int, second: int): (r: seq<int>)
    ensures 1 <= |r| <= 2 && r[0] == first
    ensures |r| == 2 <==> second > 0
    ensures |r| == 2 ==> r[1] == second - 1
  {
    if second > 0 then [first, second - 1] else [first]
  }

  /** The second dropdown lists "None" before the device names. */
  function SecondChoices(names: seq<string>): seq<string> {
    ["None"] + names
  }

  /** The second target names exactly the device the second dropdown shows,
      and choosing "None" adds no target. */
  lemma TargetsMatchDropdown(names: seq<string>, first: int, second: int)
    requires 0 <= second < |SecondChoices(names)|
    ensures |Targets(first, second)| == 2 <==> second != 0
    ensures second != 0 ==>
      (0 <= Targets(first, second)[1] < |names| && names[Targets(first, second)[1]] == SecondChoices(names)[second])
  {
  }
}
