/** `document_to_podcast.utils.stack_audio_segments`: every audio segment is
    followed by a pause of silence, and the pieces are concatenated. The
    pause lengths, drawn at random in the source, are an input here. */
module Audio {
  import opened Base
  import opened Text

  /** `np.zeros(n)`. */
  function Zeros(n: nat): (z: seq<real>)
    ensures |z| == n && forall i :: 0 <= i < n ==> z[i] == 0.0
  {
    seq(n, _ => 0.0)
  }

  /** A pause length the draw `int((0.1 + r) * sample_rate)` with `r` in
      [0, 1) can give, in exact arithmetic: at least a tenth of the sample
      rate and at most 1.1 times it. */
  predicate PauseInRange(pause: nat, sampleRate: nat)
  {
    sampleRate / 10 <= pause && 10 * pause <= 11 * sampleRate
  }

  /** The list the loop builds: each segment followed by its pause. */
  function Interleave(segments: seq<seq<real>>, pauses: seq<nat>): seq<seq<real>>
    requires |pauses| == |segments|
  {
    if |segments| == 0 then []
    else
      var n := |segments| - 1;
      Interleave(segments[..n], pauses[..n]) + [segments[n], Zeros(pauses[n])]
  }

  /** Segment `k` sits at position `2k` of the list, its pause right after
      it, and nothing else is in the list. */
  lemma {:induction false} InterleaveLayout(segments: seq<seq<real>>, pauses: seq<nat>)
    requires |pauses| == |segments|
    ensures |Interleave(segments, pauses)| == 2 * |segments|
    ensures forall k :: 0 <= k < |segments| ==>
      Interleave(segments, pauses)[2 * k] == segments[k]
      && Interleave(segments, pauses)[2 * k + 1] == Zeros(pauses[k])
    decreases |segments|
  {
    if |segments| > 0 {
      var n := |segments| - 1;
      InterleaveLayout(segments[..n], pauses[..n]);
    }
  }

  function TotalLength(segments: seq<seq<real>>): nat
  {
    if |segments| == 0 then 0 else TotalLength(segments[..|segments| - 1]) + |segments[|segments| - 1]|
  }

  function Sum(xs: seq<nat>): nat
  {
    if |xs| == 0 then 0 else Sum(xs[..|xs| - 1]) + xs[|xs| - 1]
  }

  /** The output is as long as all segments and all pauses together. */
  lemma {:induction false} StackedLength(segments: seq<seq<real>>, pauses: seq<nat>)
    requires |pauses| == |segments|
    ensures |Concat(Interleave(segments, pauses))| == TotalLength(segments) + Sum(pauses)
    decreases |segments|
  {
    if |segments| > 0 {
      var n := |segments| - 1;
      var prefix := Interleave(segments[..n], pauses[..n]);
      StackedLength(segments[..n], pauses[..n]);
      assert prefix + [segments[n], Zeros(pauses[n])] == (prefix + [segments[n]]) + [Zeros(pauses[n])];
      ConcatSnoc(prefix + [segments[n]], Zeros(pauses[n]));
      ConcatSnoc(prefix, segments[n]);
    }
  }

  /** With pauses in range, the silence added lies between a tenth of a
      second and 1.1 seconds per segment. */
  lemma {:induction false} PauseTotalBounds(pauses: seq<nat>, sampleRate: nat)
    requires forall k :: 0 <= k < |pauses| ==> PauseInRange(pauses[k], sampleRate)
    ensures |pauses| * (sampleRate / 10) <= Sum(pauses)
    ensures 10 * Sum(pauses) <= |pauses| * (11 * sampleRate)
    decreases |pauses|
  {
    if |pauses| > 0 {
      var n := |pauses| - 1;
      var low, high := sampleRate / 10, 11 * sampleRate;
      PauseTotalBounds(pauses[..n], sampleRate);
      assert PauseInRange(pauses[n], sampleRate);
      MulSucc(n, low);
      MulSucc(n, high);
    }
  }

  lemma MulSucc(n: nat, x: nat)
    ensures (n + 1) * x == n * x + x
  {
  }

  /** The length of the output: the segments plus between a tenth of a
      second and 1.1 seconds of silence per segment. */
  lemma StackedLengthBounds(segments: seq<seq<real>>, pauses: seq<nat>, sampleRate: nat)
    requires |pauses| == |segments|
    requires forall k :: 0 <= k < |pauses| ==> PauseInRange(pauses[k], sampleRate)
    ensures TotalLength(segments) + |segments| * (sampleRate / 10) <= |Concat(Interleave(segments, pauses))|
    ensures 10 * |Concat(Interleave(segments, pauses))| <= 10 * TotalLength(segments) + |segments| * (11 * sampleRate)
  {
    StackedLength(segments, pauses);
    PauseTotalBounds(pauses, sampleRate);
  }

  const EmptyConcatenation := "need at least one array to concatenate"

  /** `stack_audio_segments(audio_segments, sample_rate)`, with the pause
      lengths given: each segment then its pause is appended to a list, and
      the list is concatenated, which fails when it is empty. */
  method StackAudioSegments(segments: seq<seq<real>>, pauses: seq<nat>, sampleRate: nat) returns (r: Result<seq<real>>)
    requires |pauses| == |segments|
    requires forall k :: 0 <= k < |pauses| ==> PauseInRange(pauses[k], sampleRate)
    ensures r.Err? <==> |segments| == 0
    ensures r.Err? ==> r.error == ValueError(EmptyConcatenation)
    ensures r.Ok? ==> r.value == Concat(Interleave(segments, pauses))
  {
    var stacked: seq<seq<real>> := [];
    for i := 0 to |segments|
      invariant stacked == Interleave(segments[..i], pauses[..i])
    {
      assert segments[..i + 1][..i] == segments[..i] && pauses[..i + 1][..i] == pauses[..i];
      stacked := stacked + [segments[i]];
      stacked := stacked + [Zeros(pauses[i])];
    }
    assert segments[..|segments|] == segments && pauses[..|pauses|] == pauses;
    if |stacked| == 0 {
      return Err(ValueError(EmptyConcatenation));
    }
    return Ok(Concat(stacked));
  }
}
