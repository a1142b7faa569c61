/** The conference filter's state and its processing (msconf.c). */
module Mixer {
  import opened Octets
  import opened Powers
  import opened Results
  import opened Conference
  import opened Voices

  class ConfState {
    var channels: seq<Channel>
    var sum: seq<int>
    var enableDirectmode: bool
    var enableVad: bool
    var mixMode: bool
    var adaptativeMsconfBuf: int
    const confGran: nat
    const confNsamples: nat

    constructor (samplerate: nat, preprocesses: bool)
      requires 50 <= samplerate <= 64000
      ensures Valid() && adaptativeMsconfBuf == 2 && enableVad && !enableDirectmode && mixMode
              && confGran == 16 * samplerate / 800
      ensures forall k :: 0 <= k < CONF_MAX_PINS ==>
        channels[k] == Channel([], seq(INPUT_BYTES, _ => 0), false, false, 0, preprocesses)
    {
      var gran := 16 * samplerate / 800;
      confGran, confNsamples := gran, gran / 2;
      channels := seq(CONF_MAX_PINS, _ => Channel([], seq(INPUT_BYTES, _ => 0), false, false, 0, preprocesses));
      sum := seq(640, _ => 0);
      enableDirectmode, enableVad, mixMode, adaptativeMsconfBuf := false, true, true, 2;
    }

    ghost predicate Valid()
      reads this
    {
      Inputs(channels) && |sum| == 640 && 0 < confGran <= INPUT_BYTES && confNsamples == confGran / 2
        && adaptativeMsconfBuf <= 6
    }

    lemma ValidHas()
      requires Valid()
      ensures CONF_MAX_PINS == 32 && INPUT_BYTES == 1280
      ensures Inputs(channels) && |channels| == CONF_MAX_PINS && |channels[0].input| == INPUT_BYTES
      ensures |sum| == 640 && 0 < confGran <= INPUT_BYTES && confNsamples == confGran / 2 <= 640
              && adaptativeMsconfBuf <= 6
    {
    }

    /** Adding a channel's samples to the sum. */
    method AddInput(chan: Channel)
      requires |sum| == 640 && confNsamples <= 640 && |chan.input| == INPUT_BYTES && chan.hasContributed
      modifies this`sum
      ensures |sum| == 640 && forall j :: 0 <= j < confNsamples ==> sum[j] == old(sum)[j] + Contribution(chan, j)
    {
      for j := 0 to confNsamples
        invariant |sum| == 640
        invariant forall k :: 0 <= k < j ==> sum[k] == old(sum)[k] + Contribution(chan, k)
        invariant forall k :: j <= k < 640 ==> sum[k] == old(sum)[k]
      {
        sum := sum[j := sum[j] + Sample(chan.input, j)];
      }
    }

    /** One round: the sum of what all channels contribute, and less than ten grains left of the sound card's data. */
    method ConfSum()
      requires Valid() && |channels[0].buff| >= confGran
      requires AllEnd(channels, LeftOver(channels, confGran), confGran, enableVad)
      modifies this`channels, this`sum, this`adaptativeMsconfBuf
      ensures Valid()
      ensures Round(old(channels), channels, sum, confGran, enableVad)
    {
      hide *;
      ValidHas();
      sum := seq(640, _ => 0);
      var chan, adaptative := CatchUp(channels[0], adaptativeMsconfBuf, confGran);
      adaptativeMsconfBuf := adaptative;
      ghost var first, avail0 := channels, LeftOver(channels, confGran);
      channels := channels[0 := chan];
      ghost var before := channels;
      LeftOverIs(first, confGran);
      RoundStarts(first, chan, confGran, enableVad);
      MixStarts(before, sum, avail0, confGran, enableVad);
      for i := 0 to CONF_MAX_PINS
        invariant |channels| == CONF_MAX_PINS && |sum| == 640 && adaptativeMsconfBuf == adaptative
        invariant Mixing(before, channels, i, sum, avail0, confGran, enableVad)
      {
        MixingAt(before, channels, i, sum, avail0, confGran, enableVad);
        chan := Serve(channels[i], i, |channels[0].buff|, confGran, channels[i].preprocesses && enableVad);
        ServedKeeps(before[i], chan, i, |channels[0].buff|, confGran, Detects(before[i], enableVad));
        ghost var sum0 := sum;
        if chan.hasContributed {
          AddInput(chan);
        } else {
          NoContribution(chan);
        }
        MixStep(before, channels, i, chan, sum0, sum, avail0, confGran, enableVad);
        channels := channels[i := chan];
      }
      RoundEnds(first, before, channels, sum, confGran, enableVad);
      RoundInputs(first, channels, sum, confGran, enableVad);
      ValidFrom();
    }

    lemma ValidFrom()
      requires Inputs(channels) && |sum| == 640 && 0 < confGran <= INPUT_BYTES && confNsamples == confGran / 2
               && adaptativeMsconfBuf <= 6
      ensures Valid()
    {
    }

    /** A pin's output: the saturated sum of all contributing channels except its own. */
    method ConfOutput(pin: nat) returns (m: seq<int>)
      requires Valid() && pin < CONF_MAX_PINS
      requires forall j :: 0 <= j < confNsamples ==> sum[j] == Total(channels, CONF_MAX_PINS, j)
      ensures |m| == confNsamples
      ensures forall j :: 0 <= j < confNsamples ==> m[j] == Saturate(Others(channels, CONF_MAX_PINS, pin, j))
      ensures forall voices :: Say(channels, voices, confNsamples) ==> Hears(m, voices, pin)
    {
      hide Saturate, Sample, Total, Others, Say, Hears;
      var chan := channels[pin];
      m := [];
      for i := 0 to confNsamples
        invariant |m| == i
        invariant forall j :: 0 <= j < i ==> m[j] == Saturate(Others(channels, CONF_MAX_PINS, pin, j))
      {
        TotalWithoutOwn(channels, CONF_MAX_PINS, pin, i);
        if chan.hasContributed {
          m := m + [Saturate(sum[i] - Sample(chan.input, i))];
        } else {
          m := m + [Saturate(sum[i])];
        }
      }
      forall voices | Say(channels, voices, confNsamples)
        ensures Hears(m, voices, pin)
      {
        OutputIsHeard(channels, voices, confNsamples, pin, m);
      }
    }

    /** A message for each output that is linked. */
    method ConfDispatch(outputs: seq<bool>) returns (out: seq<Option<seq<int>>>)
      requires Valid() && |outputs| == CONF_MAX_PINS
      requires forall j :: 0 <= j < confNsamples ==> sum[j] == Total(channels, CONF_MAX_PINS, j)
      ensures Dispatched(channels, outputs, out, confNsamples)
    {
      out := [];
      for i := 0 to CONF_MAX_PINS
        invariant |out| == i
        invariant forall pin :: 0 <= pin < i ==> PinDispatched(channels, outputs[pin], pin, out[pin], confNsamples)
      {
        if outputs[i] {
          var m := ConfOutput(i);
          out := out + [Some(m)];
        } else {
          out := out + [None];
        }
      }
    }

    /** Mixing goes on while the sound card's channel is in use and has a grain, unless only two parties are left. */
    method ShouldProcess() returns (should: bool)
      requires Valid()
      modifies this`channels, this`mixMode
      ensures Valid()
      ensures channels == if old(!channels[0].isUsed && |channels[0].buff| > confGran)
              then old(channels)[0 := old(channels[0]).(isUsed := true)]
                          else old(channels)
      ensures should ==> |channels[0].buff| >= confGran && channels[0].isUsed && mixMode
      ensures channels[0].isUsed ==> mixMode == (!enableDirectmode || Active(channels, CONF_MAX_PINS) > 1)
      ensures channels[0].isUsed && mixMode && !should ==> |channels[0].buff| < confGran
    {
      if |channels[0].buff| > confGran && !channels[0].isUsed {
        channels := channels[0 := channels[0].(isUsed := true)];
      } else if !channels[0].isUsed {
        return false;
      }
      var activeChannel := 0;
      for i := 1 to CONF_MAX_PINS
        invariant activeChannel == Active(channels, i)
      {
        if channels[i].isUsed {
          activeChannel := activeChannel + 1;
        }
      }
      mixMode := activeChannel > 1;
      if !enableDirectmode {
        mixMode := true;
      }
      if !mixMode {
        return false;
      }
      return |channels[0].buff| >= confGran;
    }

    /** The mixing loop of conf_process: it ends, and goes from round to round. */
    method Mix(outputs: seq<bool>) returns (rounds: seq<seq<Option<seq<int>>>>, ghost steps: seq<Step>)
      requires Valid() && MixEnds(channels, confGran, enableVad, enableDirectmode) && |outputs| == CONF_MAX_PINS
      modifies this`channels, this`sum, this`adaptativeMsconfBuf, this`mixMode
      ensures Valid() && InStep(old(channels), channels, confGran)
      ensures channels[0].isUsed && mixMode ==> |channels[0].buff| < confGran
      ensures |steps| == |rounds| && Chained(old(channels), steps) && FollowsOn(Reached(old(channels), steps), channels)
      ensures forall r :: 0 <= r < |steps| ==> GoodStep(steps[r], outputs, rounds[r], confGran, enableVad)
    {
      hide Inputs, AllEnd, InStep, Round, Dispatched, Active, Total, GoodStep, Chained, CaughtUp, MixEnds, LeftOver;
      NothingChained(channels);
      rounds, steps := [], [];
      ValidHas();
      var should := ShouldProcess();
      ValidHas();
      StillEnds(old(channels), channels, confGran, enableVad);
      if should {
        FirstRoundEnds(old(channels), channels, confGran, enableVad, enableDirectmode);
      }
      while should
        invariant Valid() && InStep(old(channels), channels, confGran)
        invariant |channels| == CONF_MAX_PINS && (should ==> |channels[0].buff| >= confGran)
        invariant should ==> AllEnd(channels, LeftOver(channels, confGran), confGran, enableVad)
        invariant !should && channels[0].isUsed && mixMode ==> |channels[0].buff| < confGran
        invariant |steps| == |rounds| && Chained(old(channels), steps)
                  && FollowsOn(Reached(old(channels), steps), channels)
        invariant forall r :: 0 <= r < |steps| ==> GoodStep(steps[r], outputs, rounds[r], confGran, enableVad)
        decreases |channels[0].buff|, should
      {
        ghost var before := channels;
        ConfSum();
        RoundInputs(before, channels, sum, confGran, enableVad);
        InStepThrough(old(channels), before, channels, confGran);
        var out := ConfDispatch(outputs);
        ghost var step := Step(before, channels, sum);
        ChainMore(old(channels), steps, step);
        StepIsGood(step, outputs, out, confGran, enableVad);
        if |channels[0].buff| >= confGran {
          NextRoundEnds(before, channels, sum, confGran, enableVad);
        }
        rounds, steps := rounds + [out], steps + [step];
        should := ShouldProcess();
        ValidHas();
        StillEnds(step.after, channels, confGran, enableVad);
        InStepThrough(old(channels), step.after, channels, confGran);
      }
    }

    /** What came in on each linked pin goes to its channel; a channel with data has not missed anything, and comes
        into use. */
    method Deliver(inputs: seq<Option<seq<byte>>>)
      requires Valid() && |inputs| == CONF_MAX_PINS
      modifies this`channels
      ensures Valid() && channels == AllDelivered(old(channels), inputs)
    {
      for i := 0 to CONF_MAX_PINS
        invariant Valid()
        invariant forall k :: 0 <= k < i ==> channels[k] == Delivered(old(channels)[k], inputs[k], k)
        invariant forall k :: i <= k < CONF_MAX_PINS ==> channels[k] == old(channels)[k]
      {
        if inputs[i].Some? {
          var chan := channels[i].(buff := channels[i].buff + inputs[i].value);
          if |chan.buff| > 0 {
            chan := chan.(missed := 0);
            if i > 0 && !chan.isUsed {
              chan := chan.(isUsed := true);
            }
          }
          channels := channels[i := chan];
        }
      }
    }

    /** Passing on a channel's whole grains, while there are any. */
    method Forward(pin: nat, linked: bool) returns (out: seq<seq<byte>>)
      requires Valid() && pin < CONF_MAX_PINS
      modifies this`channels
      ensures Valid() && Forwarded(old(channels), channels, pin, linked, out, confGran)
    {
      out := [];
      ghost var read: seq<byte> := [];
      while |channels[pin].buff| >= confGran
        invariant Valid() && channels == old(channels)[pin := channels[pin]]
        invariant channels[pin] == old(channels)[pin].(buff := channels[pin].buff, input := channels[pin].input)
        invariant old(channels)[pin].buff == read + channels[pin].buff
        invariant |channels[pin].buff| % confGran == |old(channels)[pin].buff| % confGran
        invariant if linked then Joined(out) == read && AllGrains(out, confGran) else out == []
        decreases |channels[pin].buff|
      {
        var chan := Taken(channels[pin], confGran);
        var grain := channels[pin].buff[..confGran];
        assert channels[pin].buff == grain + chan.buff && chan.input[..confGran] == grain;
        if linked {
          JoinedMore(out, grain);
          out := out + [chan.input[..confGran]];
        }
        RemainderStep(|channels[pin].buff|, confGran);
        GrainMoves(old(channels)[pin].buff, read, channels[pin].buff, grain, chan.buff);
        read := read + grain;
        channels := channels[pin := chan];
      }
      SmallRemainder(|channels[pin].buff|, confGran);
    }

    lemma GrainMoves(all: seq<byte>, read: seq<byte>, buff: seq<byte>, grain: seq<byte>, rest: seq<byte>)
      requires all == read + buff && buff == grain + rest
      ensures all == (read + grain) + rest
    {
    }

    /** Without mixing, two parties hear each other: the sound card and the first linked pin of odd number. */
    method Copy(linked: seq<bool>, outputs: seq<bool>) returns (toCard: seq<seq<byte>>, toPin: seq<seq<byte>>)
      requires Valid() && |linked| == |outputs| == CONF_MAX_PINS
      modifies this`channels
      ensures Valid() && Copied(old(channels), channels, linked, outputs, toCard, toPin, confGran)
    {
      toCard, toPin := [], [];
      var i := 1;
      while i < CONF_MAX_PINS && !linked[i]
        invariant i % 2 == 1 && i <= CONF_MAX_PINS + 1
        invariant forall k :: 0 <= k < i && k < CONF_MAX_PINS && k % 2 == 1 ==> !linked[k]
      {
        i := i + 2;
      }
      if i < CONF_MAX_PINS {
        if channels[i].isUsed {
          toCard := Forward(i, outputs[0]);
        }
        ghost var between := channels;
        if channels[0].isUsed {
          toPin := Forward(0, outputs[i]);
        }
        assert FirstOdd(linked, i);
        assert CopiedBetween(old(channels), between, channels, i, outputs, toCard, toPin, confGran);
      } else {
        assert forall pin :: !FirstOdd(linked, pin);
      }
    }

    /** One call of conf_process: what came in is mixed, or passed on between two parties. */
    method ConfProcess(inputs: seq<Option<seq<byte>>>, outputs: seq<bool>)
      returns (rounds: seq<seq<Option<seq<int>>>>, toCard: seq<seq<byte>>, toPin: seq<seq<byte>>,
               ghost mixed: seq<Channel>, ghost steps: seq<Step>)
      requires Valid() && |inputs| == |outputs| == CONF_MAX_PINS
      requires MixEnds(AllDelivered(channels, inputs), confGran, enableVad, enableDirectmode)
      modifies this`channels, this`sum, this`adaptativeMsconfBuf, this`mixMode
      ensures Valid()
      ensures var delivered := AllDelivered(old(channels), inputs);
              && InStep(delivered, channels, confGran) && |mixed| == CONF_MAX_PINS && |steps| == |rounds|
              && Chained(delivered, steps) && FollowsOn(Reached(delivered, steps), mixed)
      ensures forall r :: 0 <= r < |steps| ==> GoodStep(steps[r], outputs, rounds[r], confGran, enableVad)
      ensures mixMode ==>
        channels == mixed && toCard == toPin == [] && (channels[0].isUsed ==> |channels[0].buff| < confGran)
      ensures !mixMode ==> Copied(mixed, channels, Linked(inputs), outputs, toCard, toPin, confGran)
    {
      hide MixEnds, AllDelivered, Chained, GoodStep, FollowsOn, Reached, InStep, Copied;
      Deliver(inputs);
      rounds, steps := Mix(outputs);
      mixed, toCard, toPin := channels, [], [];
      if !mixMode {
        toCard, toPin := Copy(Linked(inputs), outputs);
        CopiedInStep(mixed, channels, Linked(inputs), outputs, toCard, toPin, confGran);
        InStepThrough(AllDelivered(old(channels), inputs), mixed, channels, confGran);
      }
    }
  }
}
