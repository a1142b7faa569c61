/** What the conference's pins hear, in terms of the samples that were sent (msconf.c). */
module Voices {
  import opened Octets
  import opened Powers
  import opened Results
  import opened Conference

  // ----- Samples as bytes -----

  /** A signed sample of 16 bits as a little-endian machine stores it. */
  function Stored(s: int): seq<byte>
    requires -32768 <= s < 32768
  {
    [s % 256, s / 256 % 256]
  }

  ghost predicate SixteenBits(samples: seq<int>) {
    forall j :: 0 <= j < |samples| ==> -32768 <= samples[j] < 32768
  }

  function StoredAll(samples: seq<int>): (r: seq<byte>)
    requires SixteenBits(samples)
    ensures |r| == 2 * |samples|
  {
    if samples == [] then [] else Stored(samples[0]) + StoredAll(samples[1..])
  }

  /** A stored sample is read back, negative ones too. */
  lemma SampleReadsBack(s: int)
    requires -32768 <= s < 32768
    ensures Sample(Stored(s), 0) == s
  {
    var high := s / 256;
    assert s == 256 * high + s % 256 && -128 <= high < 128;
    assert high % 256 == if high < 0 then high + 256 else high;
  }

  lemma SampleOfBytes(a: seq<byte>, j: nat, b: seq<byte>, k: nat)
    requires 2 * j + 1 < |a| && 2 * k + 1 < |b| && a[2 * j] == b[2 * k] && a[2 * j + 1] == b[2 * k + 1]
    ensures Sample(a, j) == Sample(b, k)
  {
  }

  lemma {:induction false} SamplesReadBack(samples: seq<int>, rest: seq<byte>, j: nat)
    requires SixteenBits(samples) && j < |samples|
    ensures Sample(StoredAll(samples) + rest, j) == samples[j]
  {
    hide Sample;
    var input, first := StoredAll(samples) + rest, Stored(samples[0]);
    if j == 0 {
      SampleReadsBack(samples[0]);
      SampleOfBytes(input, 0, first, 0);
    } else {
      SamplesReadBack(samples[1..], rest, j - 1);
      var tail := StoredAll(samples[1..]) + rest;
      assert input == first + tail;
      SampleOfBytes(input, j, tail, j - 1);
    }
  }

  // ----- Voices -----

  /** What each party says in a round, if anything. */
  ghost predicate Say(channels: seq<Channel>, voices: seq<Option<seq<int>>>, nsamples: nat)
    requires Inputs(channels)
  {
    && nsamples <= 640 && |voices| == |channels|
    && forall k :: 0 <= k < |channels| ==> Says(channels[k], voices[k], nsamples)
  }

  /** A channel holds a party's samples at the start of its input, or does not contribute. */
  ghost predicate Says(c: Channel, voice: Option<seq<int>>, nsamples: nat)
    requires |c.input| == INPUT_BYTES && nsamples <= 640
  {
    && c.hasContributed == voice.Some?
    && (voice.Some? ==>
          SixteenBits(voice.value) && |voice.value| == nsamples && c.input[..2 * nsamples] == StoredAll(voice.value))
  }

  ghost predicate Spoken(voices: seq<Option<seq<int>>>, nsamples: nat) {
    forall k :: 0 <= k < |voices| && voices[k].Some? ==> |voices[k].value| == nsamples
  }

  /** The sum of what the first n parties say at a time, except one. */
  ghost function Heard(voices: seq<Option<seq<int>>>, n: nat, pin: nat, j: nat, nsamples: nat): int
    requires Spoken(voices, nsamples) && n <= |voices| && j < nsamples
  {
    if n == 0 then 0
    else
      Heard(voices, n - 1, pin, j, nsamples)
        + if n - 1 == pin || voices[n - 1].None? then 0 else voices[n - 1].value[j]
  }

  /** Silence is heard as nothing, */
  lemma {:induction false} SilenceIsHeard(voices: seq<Option<seq<int>>>, n: nat, pin: nat, j: nat, nsamples: nat)
    requires n <= |voices| && j < nsamples && forall k :: 0 <= k < |voices| && k != pin ==> voices[k].None?
    requires Spoken(voices, nsamples)
    ensures Heard(voices, n, pin, j, nsamples) == 0
  {
    if n > 0 {
      SilenceIsHeard(voices, n - 1, pin, j, nsamples);
    }
  }

  /** and a party that starts to speak adds its samples to what every other party hears, and not to what it hears. */
  lemma {:induction false} OneMoreVoice(voices: seq<Option<seq<int>>>, k: nat, voice: seq<int>, n: nat, pin: nat,
      j: nat, nsamples: nat)
    requires Spoken(voices, nsamples) && n <= |voices| && j < nsamples
    requires k < |voices| && voices[k].None? && |voice| == nsamples
    ensures Heard(voices[k := Some(voice)], n, pin, j, nsamples) ==
            Heard(voices, n, pin, j, nsamples) + if k < n && k != pin then voice[j] else 0
  {
    if n > 0 {
      OneMoreVoice(voices, k, voice, n - 1, pin, j, nsamples);
    }
  }

  lemma SaysContribution(c: Channel, voice: Option<seq<int>>, nsamples: nat, j: nat)
    requires |c.input| == INPUT_BYTES && nsamples <= 640 && Says(c, voice, nsamples) && j < nsamples
    ensures Contribution(c, j) == if voice.None? then 0 else voice.value[j]
  {
    hide Sample, StoredAll;
    if voice.Some? {
      SamplesReadBack(voice.value, c.input[2 * nsamples..], j);
      assert c.input == StoredAll(voice.value) + c.input[2 * nsamples..];
    }
  }

  lemma {:induction false} OthersAreHeard(channels: seq<Channel>, voices: seq<Option<seq<int>>>, n: nat, pin: nat,
      j: nat, nsamples: nat)
    requires Inputs(channels) && Say(channels, voices, nsamples) && n <= |channels| && j < nsamples
    requires Spoken(voices, nsamples)
    ensures Others(channels, n, pin, j) == Heard(voices, n, pin, j, nsamples)
  {
    hide Contribution, Says;
    if n > 0 {
      OthersAreHeard(channels, voices, n - 1, pin, j, nsamples);
      SaysContribution(channels[n - 1], voices[n - 1], nsamples, j);
    }
  }

  /** A message holds what the other parties said, summed and kept within 32000 either way. */
  ghost predicate Hears(m: seq<int>, voices: seq<Option<seq<int>>>, pin: nat) {
    && Spoken(voices, |m|)
    && forall j :: 0 <= j < |m| ==>
         var heard := Heard(voices, |voices|, pin, j, |m|);
         m[j] == if heard > 32000 then 32000 else if heard < -32000 then -32000 else heard
  }

  lemma OutputIsHeard(channels: seq<Channel>, voices: seq<Option<seq<int>>>, nsamples: nat, pin: nat, m: seq<int>)
    requires Inputs(channels) && Say(channels, voices, nsamples) && |m| == nsamples
    requires forall j :: 0 <= j < nsamples ==> m[j] == Saturate(Others(channels, CONF_MAX_PINS, pin, j))
    ensures Hears(m, voices, pin)
  {
    hide Others, Heard, Contribution;
    forall j | 0 <= j < nsamples
      ensures Others(channels, CONF_MAX_PINS, pin, j) == Heard(voices, CONF_MAX_PINS, pin, j, nsamples)
    {
      OthersAreHeard(channels, voices, CONF_MAX_PINS, pin, j, nsamples);
    }
  }

  /** So does every linked pin's. */
  lemma DispatchedIsHeard(channels: seq<Channel>, voices: seq<Option<seq<int>>>, outputs: seq<bool>,
      out: seq<Option<seq<int>>>, nsamples: nat, pin: nat)
    requires Inputs(channels) && Say(channels, voices, nsamples) && Dispatched(channels, outputs, out, nsamples)
    requires pin < CONF_MAX_PINS && outputs[pin]
    ensures out[pin].Some? && |out[pin].value| == nsamples && Hears(out[pin].value, voices, pin)
  {
    hide Others, Saturate, Say, Hears;
    OutputIsHeard(channels, voices, nsamples, pin, out[pin].value);
  }

  // ----- A round -----

  /** The samples that are first in line on each channel, if it has enough for a round. */
  ghost predicate Waiting(channels: seq<Channel>, voices: seq<Option<seq<int>>>, gran: nat) {
    && |voices| == |channels|
    && forall k :: 0 <= k < |channels| ==> Waits(channels[k], voices[k], gran)
  }

  ghost predicate Waits(c: Channel, voice: Option<seq<int>>, gran: nat) {
    && voice.Some? == (|c.buff| >= gran)
    && (voice.Some? ==>
          SixteenBits(voice.value) && 2 * |voice.value| == gran && c.buff[..gran] == StoredAll(voice.value))
  }

  /** No data is dropped: the sound card's channel has not piled up, and no other is late. */
  ghost predicate OnTime(channels: seq<Channel>, gran: nat)
    requires channels != []
  {
    && gran <= |channels[0].buff| < 11 * gran
    && forall k :: 0 < k < |channels| ==> !Late(|channels[k].buff|, |channels[0].buff| - gran, gran)
  }

  lemma GrainIsSaid(c: Channel, chan: Channel, voice: Option<seq<int>>, gran: nat)
    requires Waits(c, voice, gran) && gran <= |chan.input| == INPUT_BYTES
    requires chan.hasContributed == (|c.buff| >= gran)
    requires chan.hasContributed ==> |chan.buff| + gran == |c.buff| && ReadsFrom(c.buff, chan.buff, chan.input, gran)
    ensures Says(chan, voice, gran / 2)
  {
  }

  /** In a round without voice detection in which no data is dropped, each pin hears what waited on the others. */
  lemma RoundIsHeard(step: Step, voices: seq<Option<seq<int>>>, outputs: seq<bool>, out: seq<Option<seq<int>>>,
      gran: nat, pin: nat)
    requires GoodStep(step, outputs, out, gran, false) && |step.before| == CONF_MAX_PINS && OnTime(step.before, gran)
    requires Waiting(step.before, voices, gran) && pin < CONF_MAX_PINS
    requires |outputs| == CONF_MAX_PINS && outputs[pin]
    ensures |out| == CONF_MAX_PINS && out[pin].Some? && |out[pin].value| == gran / 2
    ensures Hears(out[pin].value, voices, pin)
  {
    hide Total, Hears, StoredAll, Saturate, ReadsFrom, Suffix, Others, InStep, AllSettled, SixteenBits;
    var before, after := step.before, step.after;
    forall k | 0 <= k < CONF_MAX_PINS
      ensures Says(after[k], voices[k], gran / 2)
    {
      assert k > 0 ==> Served(before[k], after[k], k, |after[0].buff|, gran, false);
      GrainIsSaid(before[k], after[k], voices[k], gran);
    }
    hide Round, Says, Dispatched, Served;
    DispatchedIsHeard(after, voices, outputs, out, gran / 2, pin);
  }
}
