/** The conference mixer (msconf.c). A channel's bufferizer appears as its unread bytes. */
module Conference {
  import opened Octets
  import opened Powers
  import opened Results

  const CONF_MAX_PINS := 32
  const INPUT_BYTES := 1280   // CONF_NSAMPLES samples of two bytes

  datatype Channel = Channel(buff: seq<byte>, input: seq<byte>, hasContributed: bool, isUsed: bool, missed: nat,
    preprocesses: bool)

  // ----- Samples -----

  function Sample(input: seq<byte>, j: nat): int
    requires 2 * j + 1 < |input|
  {
    var word := input[2 * j] + 256 * (input[2 * j + 1] as int);
    if word < 0x8000 then word else word - 0x10000
  }

  function Saturate(sample: int): (r: int)
    ensures -32000 <= r <= 32000 && (-32000 <= sample <= 32000 ==> r == sample)
    ensures sample > 32000 ==> r == 32000
    ensures sample < -32000 ==> r == -32000
  {
    if sample > 32000 then 32000 else if sample < -32000 then -32000 else sample
  }

  ghost predicate Inputs(channels: seq<Channel>) {
    |channels| == CONF_MAX_PINS && forall k :: 0 <= k < |channels| ==> |channels[k].input| == INPUT_BYTES
  }

  ghost function Contribution(c: Channel, j: nat): int
    requires |c.input| == INPUT_BYTES && j < 640
  {
    if c.hasContributed then Sample(c.input, j) else 0
  }

  /** The contributions of the first n channels. */
  ghost function Total(channels: seq<Channel>, n: nat, j: nat): int
    requires Inputs(channels) && n <= |channels| && j < 640
  {
    if n == 0 then 0 else Total(channels, n - 1, j) + Contribution(channels[n - 1], j)
  }

  /** The contributions of the first n channels, one of them left out. */
  ghost function Others(channels: seq<Channel>, n: nat, pin: nat, j: nat): int
    requires Inputs(channels) && n <= |channels| && j < 640
  {
    if n == 0 then 0 else Others(channels, n - 1, pin, j) + if n - 1 == pin then 0 else Contribution(channels[n - 1], j)
  }

  lemma {:induction false} TotalWithoutOwn(channels: seq<Channel>, n: nat, pin: nat, j: nat)
    requires Inputs(channels) && n <= |channels| && pin < |channels| && j < 640
    ensures Total(channels, n, j) == Others(channels, n, pin, j) + if pin < n then Contribution(channels[pin], j) else 0
  {
    if n > 0 {
      TotalWithoutOwn(channels, n - 1, pin, j);
    }
  }

  lemma {:induction false} TotalOfFirst(channels: seq<Channel>, channels': seq<Channel>, n: nat, j: nat)
    requires Inputs(channels) && Inputs(channels') && n <= |channels| && j < 640 && channels[..n] == channels'[..n]
    ensures Total(channels, n, j) == Total(channels', n, j)
  {
    if n > 0 {
      assert channels[..n][n - 1] == channels'[..n][n - 1];
      assert channels[..n - 1] == channels[..n][..n - 1] == channels'[..n][..n - 1] == channels'[..n - 1];
      TotalOfFirst(channels, channels', n - 1, j);
    }
  }

  // ----- Reading -----

  /** One read of gran bytes, or of nothing. */
  function Taken(c: Channel, gran: nat): (r: Channel)
    requires 0 < gran <= |c.input|
    ensures |r.input| == |c.input|
  {
    if |c.buff| >= gran then c.(buff := c.buff[gran..], input := c.buff[..gran] + c.input[gran..]) else c
  }

  lemma QuotientBounds(a: nat, g: nat, k: nat)
    requires g > 0
    ensures a / g <= k ==> a < k * g + g
    ensures a / g > k ==> a >= k * g + g
  {
    assert a == g * (a / g) + a % g;
    if a / g <= k {
      assert g * (a / g) <= g * k;
    } else {
      assert g * (a / g) >= g * (k + 1);
    }
  }

  lemma RemainderStep(a: nat, g: nat)
    requires 0 < g <= a
    ensures (a - g) % g == a % g
  {
    var q, r := a / g, a % g;
    assert a == q * g + r;
    assert (q - 1) * g == q * g - g;
    DivModUnique(a - g, g, q - 1, r);
  }

  lemma SmallRemainder(a: nat, g: nat)
    requires a < g
    ensures a % g == a
  {
  }

  /** What a channel gives to a round: the last bytes that it reads, of which there are gran, and then what is left. */
  ghost predicate ReadsFrom(before: seq<byte>, after: seq<byte>, input: seq<byte>, gran: nat) {
    && gran <= |input| && |after| + gran <= |before| && after == before[|before| - |after|..]
    && input[..gran] == before[|before| - |after| - gran..|before| - |after|]
  }

  lemma ReadsBehind(first: seq<byte>, before: seq<byte>, after: seq<byte>, input: seq<byte>, gran: nat)
    requires Suffix(before, first) && ReadsFrom(before, after, input, gran)
    ensures ReadsFrom(first, after, input, gran)
  {
    var skip := |first| - |before|;
    assert forall k :: 0 <= k < |before| ==> before[k] == first[skip + k];
  }

  lemma ReadsAgain(before: seq<byte>, c: Channel, gran: nat)
    requires 0 < gran <= |c.input| && gran <= |c.buff| <= |before| && c.buff == before[|before| - |c.buff|..]
    ensures ReadsFrom(before, Taken(c, gran).buff, Taken(c, gran).input, gran)
  {
    var skip := |before| - |c.buff|;
    assert c.buff[gran..] == before[skip..][gran..] == before[skip + gran..];
    assert c.buff[..gran] == before[skip..][..gran] == before[skip..skip + gran];
  }

  /** The discard loop ends exactly when what is left over at the end does not exceed the sound card's data. */
  function Discarded(avail: nat, gran: nat, times: nat): nat {
    if times == 0 then avail
    else
      var rest := Discarded(avail, gran, times - 1);
      if rest >= gran then rest - gran else rest
  }

  lemma {:induction false} DiscardedRemainder(avail: nat, gran: nat, times: nat)
    requires gran > 0
    ensures Discarded(avail, gran, times) % gran == avail % gran && avail % gran <= Discarded(avail, gran, times)
    ensures Discarded(avail, gran, times) < gran || Discarded(avail, gran, times) <= avail - times
  {
    if times > 0 {
      DiscardedRemainder(avail, gran, times - 1);
      var rest := Discarded(avail, gran, times - 1);
      if rest >= gran {
        RemainderStep(rest, gran);
      }
    }
    if Discarded(avail, gran, times) < gran {
      SmallRemainder(Discarded(avail, gran, times), gran);
    } else {
      assert Discarded(avail, gran, times) % gran < gran;
    }
  }

  ghost predicate IsReached(avail: nat, avail0: nat, gran: nat) {
    exists times :: Discarded(avail, gran, times) <= avail0
  }

  lemma DiscardLoopEnds(avail: nat, avail0: nat, gran: nat)
    requires gran > 0
    ensures IsReached(avail, avail0, gran) <==> avail % gran <= avail0
  {
    forall times
      ensures avail % gran <= Discarded(avail, gran, times)
    {
      DiscardedRemainder(avail, gran, times);
    }
    DiscardedRemainder(avail, gran, avail + 1);
    SmallRemainder(Discarded(avail, gran, avail + 1), gran);
  }

  /** A channel has so much more data than the sound card that its discard loop is entered. */
  predicate Late(avail: nat, avail0: nat, gran: nat) {
    avail > gran && avail > avail0 + gran * 6
  }

  /** Serving a channel ends: it is not late, or voice detection is on, or what is left over can be reached. */
  predicate DiscardEnds(avail: nat, avail0: nat, gran: nat, detects: bool)
    requires gran > 0
  {
    Late(avail, avail0, gran) ==> detects || avail % gran <= avail0
  }

  /** A late channel without voice detection comes down to the sound card's data after some reads. */
  ghost predicate ComesDown(avail: nat, avail0: nat, gran: nat, detects: bool) {
    Late(avail, avail0, gran) && !detects ==> IsReached(avail, avail0, gran)
  }

  lemma DiscardEndsIff(avail: nat, avail0: nat, gran: nat, detects: bool)
    requires gran > 0
    ensures DiscardEnds(avail, avail0, gran, detects) <==> ComesDown(avail, avail0, gran, detects)
  {
    DiscardLoopEnds(avail, avail0, gran);
  }

  /** At 8000 Hz, a channel with 961 bytes is never brought down to a sound card that has none left. */
  lemma StuckChannel(times: nat)
    ensures Late(961, 0, 160) && !Late(960, 0, 160) && Discarded(961, 160, times) > 0
            && !DiscardEnds(961, 0, 160, false)
  {
    DiscardedRemainder(961, 160, times);
  }

  ghost predicate Suffix(after: seq<byte>, before: seq<byte>) {
    |after| <= |before| && after == before[|before| - |after|..]
  }

  lemma SuffixTaken(before: seq<byte>, c: Channel, gran: nat)
    requires 0 < gran <= |c.input| && Suffix(c.buff, before)
    ensures Suffix(Taken(c, gran).buff, before) && Taken(c, gran).buff == c.buff[|c.buff| - |Taken(c, gran).buff|..]
    ensures |Taken(c, gran).buff| % gran == |c.buff| % gran
  {
    if |c.buff| >= gran {
      RemainderStep(|c.buff|, gran);
      assert c.buff[gran..] == before[|before| - |c.buff|..][gran..];
    }
  }

  /** Voice detection, which may also change the samples in place. */
  method SpeexPreprocess(input: seq<byte>) returns (vad: bool, input': seq<byte>)
    ensures |input'| == |input|
  {
    vad := *;
    input' :| |input'| == |input|;
  }

  /** What a channel keeps while it reads: a suffix of its data, and everything but the data and the input. */
  ghost predicate Consumed(c: Channel, c': Channel, gran: nat)
    requires gran > 0
  {
    && c' == c.(buff := c'.buff, input := c'.input) && |c'.input| == |c.input|
    && Suffix(c'.buff, c.buff) && |c'.buff| % gran == |c.buff| % gran
  }

  lemma ConsumedTaken(c: Channel, c': Channel, gran: nat)
    requires 0 < gran <= |c'.input| && Consumed(c, c', gran)
    ensures Consumed(c, Taken(c', gran), gran)
    ensures |c'.buff| >= gran ==> ReadsFrom(c.buff, Taken(c', gran).buff, Taken(c', gran).input, gran)
  {
    SuffixTaken(c.buff, c', gran);
    if |c'.buff| >= gran {
      ReadsAgain(c.buff, c', gran);
    }
  }

  /** With voice detection, reading stops at the first voice, or where the data or what is too late of it ends. */
  ghost predicate Heeded(before: nat, after: nat, avail0: nat, gran: nat, verdicts: seq<bool>) {
    && verdicts != [] && before == after + Reads(|verdicts|, gran) && Silent(verdicts[..|verdicts| - 1])
    && (verdicts[|verdicts| - 1] || after < gran || after <= avail0)
  }

  ghost predicate Silent(verdicts: seq<bool>) {
    forall k :: 0 <= k < |verdicts| ==> !verdicts[k]
  }

  /** Going on after one more read. */
  ghost predicate Unheard(before: nat, after: nat, gran: nat, verdicts: seq<bool>) {
    before == after + Reads(|verdicts|, gran) && Silent(verdicts)
  }

  lemma HeedMore(before: nat, after: nat, avail0: nat, gran: nat, verdicts: seq<bool>, vad: bool)
    requires Unheard(before, after + gran, gran, verdicts)
    ensures vad || after < gran || after <= avail0 ==> Heeded(before, after, avail0, gran, verdicts + [vad])
    ensures !vad ==> Unheard(before, after, gran, verdicts + [vad])
  {
    OneRead(|verdicts|, gran);
    assert (verdicts + [vad])[..|verdicts|] == verdicts;
    hide Reads;
  }

  lemma HeedStarts(before: nat, gran: nat)
    ensures Unheard(before, before, gran, [])
  {
    OneRead(0, gran);
  }

  function Reads(n: nat, gran: nat): nat {
    n * gran
  }

  lemma OneRead(n: nat, gran: nat)
    ensures Reads(0, gran) == 0 && Reads(n + 1, gran) == Reads(n, gran) + gran
  {
  }

  /** Dropping a late channel's data down to the sound card's; voice detection may stop it earlier. */
  method Discard(c: Channel, avail0: nat, gran: nat, detects: bool) returns (chan: Channel, ghost verdicts: seq<bool>)
    requires 0 < gran <= |c.input| && Late(|c.buff|, avail0, gran) && DiscardEnds(|c.buff|, avail0, gran, detects)
    ensures Consumed(c, chan, gran) && avail0 < |chan.buff| + gran <= |c.buff|
    ensures !detects ==> |chan.buff| <= avail0 && ReadsFrom(c.buff, chan.buff, chan.input, gran)
    ensures detects ==> Heeded(|c.buff|, |chan.buff|, avail0, gran, verdicts)
  {
    hide ReadsFrom, Suffix, Heeded, Unheard;
    chan, verdicts := c, [];
    HeedStarts(|c.buff|, gran);
    StartsConsumed(c, gran);
    while |chan.buff| > avail0
      invariant Consumed(c, chan, gran) && (|chan.buff| > avail0 ==> |chan.buff| >= gran)
      invariant avail0 < |chan.buff| + gran
      invariant detects ==> Unheard(|c.buff|, |chan.buff|, gran, verdicts)
      invariant detects && |chan.buff| <= avail0 ==> Heeded(|c.buff|, |chan.buff|, avail0, gran, verdicts)
      invariant chan == c || (|chan.buff| + gran <= |c.buff|
                              && (!detects ==> ReadsFrom(c.buff, chan.buff, chan.input, gran)))
      decreases |chan.buff|
    {
      ConsumedTaken(c, chan, gran);
      chan := Taken(chan, gran);
      if detects {
        var vad, input := SpeexPreprocess(chan.input);
        chan := chan.(input := input);
        HeedMore(|c.buff|, |chan.buff|, avail0, gran, verdicts, vad);
        verdicts := verdicts + [vad];
        if vad {
          break;
        }
        if |chan.buff| < gran {
          break;
        }
      } else if |chan.buff| < gran {
        SmallRemainder(|chan.buff|, gran);
      }
    }
  }

  lemma StartsConsumed(c: Channel, gran: nat)
    requires gran > 0
    ensures Consumed(c, c, gran)
  {
  }

  /**
   * A channel's part of a round: it contributes exactly when it has gran bytes, and is dropped after fifteen missed
   * rounds. It gives up one grain, unless it is late: then all that the sound card's channel is behind.
   */
  ghost predicate Served(c: Channel, chan: Channel, i: nat, avail0: nat, gran: nat, detects: bool)
    requires gran > 0
  {
    && Suffix(chan.buff, c.buff) && |chan.buff| % gran == |c.buff| % gran
    && |chan.input| == |c.input| && chan.preprocesses == c.preprocesses
    && (chan.hasContributed <==> |c.buff| >= gran)
    && (chan.hasContributed ==> |chan.buff| + gran <= |c.buff| && chan.missed == c.missed && chan.isUsed == c.isUsed)
    && (chan.hasContributed && !detects ==> ReadsFrom(c.buff, chan.buff, chan.input, gran))
    && (chan.hasContributed && (i == 0 || !Late(|c.buff|, avail0, gran)) ==> |chan.buff| + gran == |c.buff|)
    && (i > 0 && Late(|c.buff|, avail0, gran) ==> |chan.buff| + gran > avail0 && (!detects ==> |chan.buff| <= avail0))
    && (!chan.hasContributed ==> chan.buff == c.buff && chan.isUsed == (c.isUsed && (i > 0 ==> chan.missed <= 15)))
    && (!chan.hasContributed ==> chan.missed == if i > 0 && c.isUsed then c.missed + 1 else c.missed)
  }

  /** A channel that is not late any more, and will not be when the sound card and it go on in step. */
  ghost predicate Settled(avail: nat, avail0: nat, gran: nat, detects: bool) {
    detects || avail <= gran || avail <= avail0 + gran * 5
  }

  method Serve(c: Channel, i: nat, avail0: nat, gran: nat, detects: bool) returns (chan: Channel)
    requires 0 < gran <= |c.input| && (i > 0 ==> DiscardEnds(|c.buff|, avail0, gran, detects))
    ensures Served(c, chan, i, avail0, gran, detects) && |chan.input| == |c.input|
    ensures i > 0 ==> Settled(|chan.buff|, avail0, gran, detects)
  {
    hide ReadsFrom;
    if i > 0 && |c.buff| > gran && |c.buff| > avail0 + gran * 6 {
      ghost var verdicts;
      chan, verdicts := Discard(c, avail0, gran, detects);
      chan := chan.(hasContributed := true);
    } else if |c.buff| >= gran {
      StartsConsumed(c, gran);
      ConsumedTaken(c, c, gran);
      chan := Taken(c, gran);
      if detects {
        var vad, input := SpeexPreprocess(chan.input);
        chan := chan.(input := input);
      }
      chan := chan.(hasContributed := true);
    } else {
      chan := c;
      if i > 0 && chan.isUsed {
        chan := chan.(missed := chan.missed + 1);
        if chan.missed > 15 {
          chan := chan.(isUsed := false);
        }
      }
      chan := chan.(hasContributed := false);
    }
  }

  /** What the sound card's channel is brought down to before a round. */
  function CaughtUp(avail: nat, gran: nat): (r: nat)
    requires 0 < gran <= avail
    ensures gran <= r <= avail && r % gran == avail % gran && r < 11 * gran && (avail < 11 * gran ==> r == avail)
  {
    QuotientBounds(avail, gran, 10);
    if avail / gran <= 10 then avail
    else
      FiveOver(avail, gran);
      if avail % gran == 0 then 6 * gran else 5 * gran + avail % gran
  }

  lemma FiveOver(avail: nat, gran: nat)
    requires gran > 0
    ensures 0 <= avail % gran < gran && (6 * gran) % gran == 0 && (5 * gran + avail % gran) % gran == avail % gran
  {
    DivModUnique(6 * gran, gran, 6, 0);
    DivModUnique(5 * gran + avail % gran, gran, 5, avail % gran);
  }

  lemma CaughtUpIs(avail: nat, gran: nat, r: nat)
    requires 0 < gran <= avail && avail / gran > 10 && r % gran == avail % gran && 5 * gran < r <= 6 * gran
    ensures r == CaughtUp(avail, gran)
  {
    FiveOver(avail, gran);
    var x := avail % gran;
    if r < 6 * gran {
      DivModUnique(r, gran, 5, r - 5 * gran);
    }
  }

  /** The sound card's channel before a round: late data is dropped, so that little stays queued after the round. */
  method CatchUp(c: Channel, adaptative: int, gran: nat) returns (chan: Channel, adaptative': int)
    requires 0 < gran <= |c.input| && gran <= |c.buff| && adaptative <= 6
    ensures Consumed(c, chan, gran) && |chan.input| == |c.input| && adaptative' <= 6
    ensures |chan.buff| == CaughtUp(|c.buff|, gran)
    ensures adaptative' ==
      if adaptative * gran < |c.buff| then (if |c.buff| / gran > 6 then 6 else |c.buff| / gran)
      else if adaptative * gran > |c.buff| && adaptative > 3 then |c.buff| / gran else adaptative
  {
    hide Suffix;
    chan, adaptative' := c, adaptative;
    StartsConsumed(c, gran);
    AtMostSix(adaptative, gran);
    if adaptative' * gran < |chan.buff| {
      var i := |chan.buff| / gran;
      QuotientBounds(|chan.buff|, gran, 10);
      adaptative' := i;
      if adaptative' > 10 {
        while |chan.buff| > gran * 6
          invariant Consumed(c, chan, gran) && |chan.buff| > gran * 5
          decreases |chan.buff|
        {
          ConsumedTaken(c, chan, gran);
          chan := Taken(chan, gran);
        }
        CaughtUpIs(|c.buff|, gran, |chan.buff|);
      }
    } else if adaptative' * gran > |chan.buff| {
      if adaptative' > 3 {
        adaptative' := |chan.buff| / gran;
      }
    }
    if adaptative' > 6 {
      adaptative' := 6;
    }
  }

  lemma AtMostSix(k: int, gran: nat)
    requires k <= 6
    ensures k * gran <= 6 * gran
  {
    assert (6 - k) * gran >= 0;
  }

  ghost predicate Detects(c: Channel, enableVad: bool) {
    c.preprocesses && enableVad
  }

  /** What a round leaves of the sound card's data. */
  function LeftOver(channels: seq<Channel>, gran: nat): nat
    requires channels != [] && 0 < gran <= |channels[0].buff|
  {
    CaughtUp(|channels[0].buff|, gran) - gran
  }

  lemma LeftOverIs(channels: seq<Channel>, gran: nat)
    requires channels != [] && 0 < gran <= |channels[0].buff|
    ensures CaughtUp(|channels[0].buff|, gran) == LeftOver(channels, gran) + gran
  {
  }

  /** Every channel beside the sound card's can be served. */
  ghost predicate AllEnd(channels: seq<Channel>, avail0: nat, gran: nat, enableVad: bool)
    requires gran > 0
  {
    forall i :: 0 < i < |channels| ==> DiscardEnds(|channels[i].buff|, avail0, gran, Detects(channels[i], enableVad))
  }

  ghost predicate AllSettled(channels: seq<Channel>, n: nat, avail0: nat, gran: nat, enableVad: bool)
    requires n <= |channels|
  {
    forall i :: 0 < i < n ==> Settled(|channels[i].buff|, avail0, gran, Detects(channels[i], enableVad))
  }

  /** In the middle of a round: some channels have been served, and the sum is theirs. */
  ghost predicate Mixing(before: seq<Channel>, channels: seq<Channel>, n: nat, sum: seq<int>, avail0: nat, gran: nat,
      enableVad: bool) {
    && 0 < gran <= INPUT_BYTES && Inputs(before) && Inputs(channels) && AllEnd(before, avail0, gran, enableVad)
    && n <= CONF_MAX_PINS && |sum| == 640 && AllSettled(channels, n, avail0, gran, enableVad)
    && gran <= |before[0].buff| == avail0 + gran
    && (forall k :: n <= k < CONF_MAX_PINS ==> channels[k] == before[k])
    && (forall k :: 0 <= k < n ==> Served(before[k], channels[k], k, avail0, gran, Detects(before[k], enableVad)))
    && (forall j :: 0 <= j < gran / 2 ==> sum[j] == Total(channels, n, j))
  }

  lemma MixStarts(before: seq<Channel>, sum: seq<int>, avail0: nat, gran: nat, enableVad: bool)
    requires 0 < gran <= INPUT_BYTES && Inputs(before) && |sum| == 640 && (forall j :: 0 <= j < 640 ==> sum[j] == 0)
    requires AllEnd(before, avail0, gran, enableVad) && |before[0].buff| == avail0 + gran
    ensures Mixing(before, before, 0, sum, avail0, gran, enableVad)
  {
  }

  lemma MixingAt(before: seq<Channel>, channels: seq<Channel>, n: nat, sum: seq<int>, avail0: nat, gran: nat,
      enableVad: bool)
    requires Mixing(before, channels, n, sum, avail0, gran, enableVad) && n < CONF_MAX_PINS
    ensures |channels| == |before| == CONF_MAX_PINS && |channels[n].input| == INPUT_BYTES && 0 < gran <= INPUT_BYTES
    ensures channels[n] == before[n]
    ensures n > 0 ==>
      |channels[0].buff| == avail0 && DiscardEnds(|channels[n].buff|, avail0, gran, Detects(before[n], enableVad))
    ensures Detects(channels[n], enableVad) <==> channels[n].preprocesses && enableVad
  {
    hide ReadsFrom, Suffix, Total;
    if n > 0 {
      assert Served(before[0], channels[0], 0, avail0, gran, Detects(before[0], enableVad));
    }
  }

  lemma MixStep(before: seq<Channel>, channels: seq<Channel>, n: nat, chan: Channel, sum: seq<int>, sum': seq<int>,
                avail0: nat, gran: nat, enableVad: bool)
    requires Mixing(before, channels, n, sum, avail0, gran, enableVad) && n < CONF_MAX_PINS && |sum'| == 640
    requires Served(before[n], chan, n, avail0, gran, Detects(before[n], enableVad))
    requires n > 0 ==> Settled(|chan.buff|, avail0, gran, Detects(before[n], enableVad))
    requires |chan.input| == INPUT_BYTES && chan.preprocesses == before[n].preprocesses
    requires forall j :: 0 <= j < gran / 2 ==> sum'[j] == sum[j] + Contribution(chan, j)
    ensures Mixing(before, channels[n := chan], n + 1, sum', avail0, gran, enableVad)
  {
    hide Served, Contribution, Settled, DiscardEnds;
    var after := channels[n := chan];
    forall j | 0 <= j < gran / 2
      ensures sum'[j] == Total(after, n + 1, j)
    {
      assert channels[..n] == after[..n];
      TotalOfFirst(channels, after, n, j);
    }
  }

  lemma ServedKeeps(c: Channel, chan: Channel, i: nat, avail0: nat, gran: nat, detects: bool)
    requires gran > 0 && Served(c, chan, i, avail0, gran, detects)
    ensures chan.preprocesses == c.preprocesses && |chan.buff| % gran == |c.buff| % gran
    ensures i == 0 ==> forall avail: nat :: Served(c, chan, i, avail, gran, detects)
  {
    hide ReadsFrom, Suffix;
  }

  lemma NoContribution(c: Channel)
    requires |c.input| == INPUT_BYTES && !c.hasContributed
    ensures forall j: nat :: j < 640 ==> Contribution(c, j) == 0
  {
  }

  /** Rounds take whole grains, and change no channel's voice detection. */
  ghost predicate InStep(before: seq<Channel>, after: seq<Channel>, gran: nat)
    requires gran > 0
  {
    && |before| == |after|
    && forall i :: 0 <= i < |before| ==>
      |after[i].buff| % gran == |before[i].buff| % gran && after[i].preprocesses == before[i].preprocesses
  }

  /**
   * A round from one state of the channels to the next: the sum is what all channels contribute; the sound card's
   * channel contributes, gives up at least a grain, and keeps less than ten; each other channel is served, and none is
   * late any more.
   */
  ghost predicate Round(before: seq<Channel>, after: seq<Channel>, sum: seq<int>, gran: nat, enableVad: bool) {
    && 0 < gran <= INPUT_BYTES && Inputs(before) && Inputs(after) && |sum| == 640
    && (forall j :: 0 <= j < gran / 2 ==> sum[j] == Total(after, CONF_MAX_PINS, j))
    && after[0].hasContributed && Suffix(after[0].buff, before[0].buff) && gran <= |before[0].buff|
    && (!Detects(before[0], enableVad) ==> ReadsFrom(before[0].buff, after[0].buff, after[0].input, gran))
    && |after[0].buff| == LeftOver(before, gran) < 10 * gran && InStep(before, after, gran)
    && (forall i :: 0 < i < CONF_MAX_PINS ==>
      Served(before[i], after[i], i, |after[0].buff|, gran, Detects(before[i], enableVad)))
    && AllSettled(after, CONF_MAX_PINS, |after[0].buff|, gran, enableVad)
  }

  lemma RoundStarts(first: seq<Channel>, chan: Channel, gran: nat, enableVad: bool)
    requires 0 < gran && Inputs(first) && gran <= |first[0].buff| && Consumed(first[0], chan, gran)
    requires AllEnd(first, LeftOver(first, gran), gran, enableVad)
    ensures Inputs(first[0 := chan]) && AllEnd(first[0 := chan], LeftOver(first, gran), gran, enableVad)
  {
  }

  lemma MixingEnds(first: seq<Channel>, before: seq<Channel>, after: seq<Channel>, sum: seq<int>, avail0: nat,
      gran: nat, enableVad: bool)
    requires Mixing(before, after, CONF_MAX_PINS, sum, avail0, gran, enableVad)
    requires Inputs(first) && before == first[0 := before[0]] && Consumed(first[0], before[0], gran)
    ensures InStep(first, after, gran) && Suffix(after[0].buff, first[0].buff) && after[0].hasContributed
            && |after[0].buff| == avail0
    ensures !Detects(first[0], enableVad) ==> ReadsFrom(first[0].buff, after[0].buff, after[0].input, gran)
  {
    hide Total, ReadsFrom, Settled, DiscardEnds;
    forall i | 0 <= i < CONF_MAX_PINS
      ensures |after[i].buff| % gran == |first[i].buff| % gran && after[i].preprocesses == first[i].preprocesses
    {
      ServedKeeps(before[i], after[i], i, avail0, gran, Detects(before[i], enableVad));
    }
    assert Served(before[0], after[0], 0, avail0, gran, Detects(before[0], enableVad));
    if !Detects(first[0], enableVad) {
      ReadsBehind(first[0].buff, before[0].buff, after[0].buff, after[0].input, gran);
    }
  }

  lemma RoundEnds(first: seq<Channel>, before: seq<Channel>, after: seq<Channel>, sum: seq<int>, gran: nat,
      enableVad: bool)
    requires gran > 0 && Inputs(first) && Inputs(before) && before == first[0 := before[0]]
             && Consumed(first[0], before[0], gran)
    requires gran <= |first[0].buff| && |before[0].buff| == CaughtUp(|first[0].buff|, gran)
    requires Mixing(before, after, CONF_MAX_PINS, sum, LeftOver(first, gran), gran, enableVad)
    ensures Round(first, after, sum, gran, enableVad)
  {
    var r := CaughtUp(|first[0].buff|, gran);
    MixingEnds(first, before, after, sum, LeftOver(first, gran), gran, enableVad);
    hide Total, Served, Settled, DiscardEnds, CaughtUp, InStep, Suffix, ReadsFrom;
  }

  lemma RoundInputs(before: seq<Channel>, after: seq<Channel>, sum: seq<int>, gran: nat, enableVad: bool)
    requires Round(before, after, sum, gran, enableVad)
    ensures Inputs(before) && Inputs(after) && |before| == |after| == CONF_MAX_PINS && |sum| == 640
    ensures forall j :: 0 <= j < gran / 2 ==> sum[j] == Total(after, CONF_MAX_PINS, j)
    ensures |after[0].buff| + gran <= |before[0].buff| && InStep(before, after, gran)
  {
    hide InStep, AllSettled, Total;
  }

  /** After a round everything is so much in step that the next one ends too. */
  lemma NextRoundEnds(before: seq<Channel>, after: seq<Channel>, sum: seq<int>, gran: nat, enableVad: bool)
    requires Round(before, after, sum, gran, enableVad) && gran <= |after[0].buff|
    ensures AllEnd(after, LeftOver(after, gran), gran, enableVad)
  {
    hide Served, Total, InStep;
  }

  ghost predicate PinDispatched(channels: seq<Channel>, linked: bool, pin: nat, out: Option<seq<int>>, nsamples: nat)
    requires Inputs(channels) && nsamples <= 640
  {
    if linked then
      && out.Some? && |out.value| == nsamples
      && forall j :: 0 <= j < nsamples ==> out.value[j] == Saturate(Others(channels, CONF_MAX_PINS, pin, j))
    else out.None?
  }

  /** Every linked pin gets the saturated sum of the others. */
  ghost predicate Dispatched(channels: seq<Channel>, outputs: seq<bool>, out: seq<Option<seq<int>>>, nsamples: nat)
    requires Inputs(channels)
  {
    && nsamples <= 640 && |outputs| == |out| == CONF_MAX_PINS
    && forall pin :: 0 <= pin < CONF_MAX_PINS ==> PinDispatched(channels, outputs[pin], pin, out[pin], nsamples)
  }

  /** The channels in use among the first n, the sound card's aside. */
  function Active(channels: seq<Channel>, n: nat): nat
    requires n <= |channels|
  {
    if n <= 1 then 0 else Active(channels, n - 1) + if channels[n - 1].isUsed then 1 else 0
  }

  lemma {:induction false} ActiveBelow(channels: seq<Channel>, n: nat)
    requires n <= |channels|
    ensures Active(channels, n) > 0 <==> exists i :: 0 < i < n && channels[i].isUsed
  {
    if n > 1 {
      ActiveBelow(channels, n - 1);
    }
  }

  /** More than one is active exactly when two parties beside the sound card are in use. */
  lemma {:induction false} ActiveMeans(channels: seq<Channel>, n: nat)
    requires n <= |channels|
    ensures Active(channels, n) > 1 <==> exists i, j :: 0 < i < j < n && channels[i].isUsed && channels[j].isUsed
  {
    if n > 1 {
      ActiveMeans(channels, n - 1);
      ActiveBelow(channels, n - 1);
      if i :| 0 < i < n - 1 && channels[i].isUsed && channels[n - 1].isUsed {
        assert Active(channels, n) > 1;
      }
      if i, j :| 0 < i < j < n && channels[i].isUsed && channels[j].isUsed {
        assert Active(channels, n) > 1;
      }
    }
  }

  /** A round of the loop: the channels before and after it, and the sum. */
  datatype Step = Step(before: seq<Channel>, after: seq<Channel>, sum: seq<int>)

  ghost predicate GoodStep(step: Step, outputs: seq<bool>, out: seq<Option<seq<int>>>, gran: nat, enableVad: bool) {
    Round(step.before, step.after, step.sum, gran, enableVad) && Dispatched(step.after, outputs, out, gran / 2)
  }

  lemma StepIsGood(step: Step, outputs: seq<bool>, out: seq<Option<seq<int>>>, gran: nat, enableVad: bool)
    requires Round(step.before, step.after, step.sum, gran, enableVad) && Inputs(step.after)
             && Dispatched(step.after, outputs, out, gran / 2)
    ensures GoodStep(step, outputs, out, gran, enableVad)
  {
  }

  /** Between rounds only the sound card may start to be used. */
  ghost predicate FollowsOn(before: seq<Channel>, after: seq<Channel>) {
    after == before || (before != [] && after == before[0 := before[0].(isUsed := true)])
  }

  ghost function Reached(first: seq<Channel>, steps: seq<Step>): seq<Channel> {
    if steps == [] then first else steps[|steps| - 1].after
  }

  ghost predicate Chained(first: seq<Channel>, steps: seq<Step>) {
    steps != [] ==>
      var n := |steps| - 1;
      FollowsOn(Reached(first, steps[..n]), steps[n].before) && Chained(first, steps[..n])
  }

  lemma NothingChained(first: seq<Channel>)
    ensures Chained(first, [])
  {
  }

  lemma ChainMore(first: seq<Channel>, steps: seq<Step>, step: Step)
    requires Chained(first, steps) && FollowsOn(Reached(first, steps), step.before)
    ensures Chained(first, steps + [step]) && Reached(first, steps + [step]) == step.after
  {
    assert (steps + [step])[..|steps|] == steps;
  }

  /** A channel's use has no part in whether a round ends. */
  lemma StillEnds(before: seq<Channel>, after: seq<Channel>, gran: nat, enableVad: bool)
    requires gran > 0 && before != [] && FollowsOn(before, after)
    ensures InStep(before, after, gran) && |after[0].buff| == |before[0].buff|
    ensures gran <= |before[0].buff| && AllEnd(before, LeftOver(before, gran), gran, enableVad) ==>
            AllEnd(after, LeftOver(after, gran), gran, enableVad)
  {
    hide CaughtUp;
  }

  lemma InStepThrough(a: seq<Channel>, b: seq<Channel>, c: seq<Channel>, gran: nat)
    requires gran > 0 && InStep(a, b, gran) && InStep(b, c, gran)
    ensures InStep(a, c, gran)
  {
  }

  /** The mixing loop will be entered. */
  ghost predicate WillMix(channels: seq<Channel>, gran: nat, enableDirectmode: bool)
    requires |channels| == CONF_MAX_PINS
  {
    && (channels[0].isUsed || |channels[0].buff| > gran) && |channels[0].buff| >= gran
    && (enableDirectmode ==> Active(channels, CONF_MAX_PINS) > 1)
  }

  /** The mixing loop ends: it is not entered, or every channel can be served in the first round. */
  ghost predicate MixEnds(channels: seq<Channel>, gran: nat, enableVad: bool, enableDirectmode: bool)
    requires |channels| == CONF_MAX_PINS && gran > 0
  {
    WillMix(channels, gran, enableDirectmode) ==> AllEnd(channels, LeftOver(channels, gran), gran, enableVad)
  }

  /** That is exact: otherwise some channel of the first round has a discard loop that goes on for ever. */
  lemma MixEndsIff(channels: seq<Channel>, gran: nat, enableVad: bool, enableDirectmode: bool)
    requires |channels| == CONF_MAX_PINS && gran > 0
    ensures MixEnds(channels, gran, enableVad, enableDirectmode) <==>
            (WillMix(channels, gran, enableDirectmode) ==>
               forall i :: 0 < i < CONF_MAX_PINS ==>
                 ComesDown(|channels[i].buff|, LeftOver(channels, gran), gran, Detects(channels[i], enableVad)))
  {
    hide DiscardEnds, ComesDown, CaughtUp, Active;
    if WillMix(channels, gran, enableDirectmode) {
      forall i | 0 < i < CONF_MAX_PINS
        ensures DiscardEnds(|channels[i].buff|, LeftOver(channels, gran), gran, Detects(channels[i], enableVad))
                <==> ComesDown(|channels[i].buff|, LeftOver(channels, gran), gran, Detects(channels[i], enableVad))
      {
        DiscardEndsIff(|channels[i].buff|, LeftOver(channels, gran), gran, Detects(channels[i], enableVad));
      }
    }
  }

  lemma {:induction false} ActiveAside(before: seq<Channel>, after: seq<Channel>, n: nat)
    requires n <= |before| == |after| && forall k :: 0 < k < n ==> after[k] == before[k]
    ensures Active(after, n) == Active(before, n)
  {
    if n > 1 {
      ActiveAside(before, after, n - 1);
    }
  }

  lemma FirstRoundEnds(before: seq<Channel>, after: seq<Channel>, gran: nat, enableVad: bool, enableDirectmode: bool)
    requires gran > 0 && |before| == CONF_MAX_PINS && MixEnds(before, gran, enableVad, enableDirectmode)
    requires after == if !before[0].isUsed && |before[0].buff| > gran then before[0 := before[0].(isUsed := true)]
             else before
    requires after[0].isUsed && |after[0].buff| >= gran && (enableDirectmode ==> Active(after, CONF_MAX_PINS) > 1)
    ensures AllEnd(after, LeftOver(after, gran), gran, enableVad)
  {
    hide AllEnd, Active;
    ActiveAside(before, after, CONF_MAX_PINS);
    StillEnds(before, after, gran, enableVad);
  }

  /** Every channel's data comes in whole grains, or voice detection is on. */
  ghost predicate Drains(channels: seq<Channel>, gran: nat, enableVad: bool)
    requires gran > 0
  {
    forall i :: 0 <= i < |channels| ==> Detects(channels[i], enableVad) || |channels[i].buff| % gran == 0
  }

  /** Then mixing ends, whatever is queued, */
  lemma DrainsMixEnds(channels: seq<Channel>, gran: nat, enableVad: bool, enableDirectmode: bool)
    requires |channels| == CONF_MAX_PINS && gran > 0 && Drains(channels, gran, enableVad)
    ensures MixEnds(channels, gran, enableVad, enableDirectmode)
  {
  }

  /** and it stays so. */
  lemma DrainsOn(before: seq<Channel>, after: seq<Channel>, gran: nat, enableVad: bool)
    requires gran > 0 && Drains(before, gran, enableVad) && InStep(before, after, gran)
    ensures Drains(after, gran, enableVad)
  {
  }

  function Delivered(c: Channel, input: Option<seq<byte>>, i: nat): Channel {
    if input.None? then c
    else
      var buff := c.buff + input.value;
      if buff == [] then c else c.(buff := buff, missed := 0, isUsed := c.isUsed || i > 0)
  }

  /** A channel with data has missed nothing and, unless it is the sound card's, is in use; one without stays as it
      is. */
  lemma DeliveredMeans(c: Channel, input: Option<seq<byte>>, i: nat)
    ensures var chan := Delivered(c, input, i);
      && chan.buff == c.buff + (if input.Some? then input.value else [])
      && chan == c.(buff := chan.buff, missed := chan.missed, isUsed := chan.isUsed)
      && (input.Some? && |chan.buff| > 0 ==> chan.missed == 0 && (chan.isUsed <==> i != 0 || c.isUsed))
      && (input.None? || |chan.buff| == 0 ==> chan == c)
  {
    assert c.buff + [] == c.buff;
  }

  function AllDelivered(channels: seq<Channel>, inputs: seq<Option<seq<byte>>>): seq<Channel>
    requires |inputs| == |channels|
  {
    seq(|channels|, i requires 0 <= i < |channels| => Delivered(channels[i], inputs[i], i))
  }

  function Linked(inputs: seq<Option<seq<byte>>>): seq<bool> {
    seq(|inputs|, i requires 0 <= i < |inputs| => inputs[i].Some?)
  }

  /** Without voice detection, data comes in whole grains. */
  ghost predicate WholeGrains(channels: seq<Channel>, inputs: seq<Option<seq<byte>>>, gran: nat, enableVad: bool)
    requires gran > 0 && |inputs| == |channels|
  {
    forall i :: 0 <= i < |channels| && inputs[i].Some? ==>
      Detects(channels[i], enableVad) || |inputs[i].value| % gran == 0
  }

  lemma RemainderSum(a: nat, b: nat, g: nat)
    requires g > 0 && a % g == 0 && b % g == 0
    ensures (a + b) % g == 0
  {
    assert a == (a / g) * g && b == (b / g) * g;
    assert a + b == (a / g + b / g) * g;
    DivModUnique(a + b, g, a / g + b / g, 0);
  }

  lemma DeliveredDrains(before: seq<Channel>, inputs: seq<Option<seq<byte>>>, gran: nat, enableVad: bool)
    requires gran > 0 && |before| == |inputs| && Drains(before, gran, enableVad)
             && WholeGrains(before, inputs, gran, enableVad)
    ensures Drains(AllDelivered(before, inputs), gran, enableVad)
  {
    var after := AllDelivered(before, inputs);
    forall i | 0 <= i < |after|
      ensures Detects(after[i], enableVad) || |after[i].buff| % gran == 0
    {
      if !Detects(before[i], enableVad) && inputs[i].Some? {
        RemainderSum(|before[i].buff|, |inputs[i].value|, gran);
      }
    }
  }

  /** A conference at 8000 Hz that has just begun, given 161 bytes from the sound card and 962 on the first pin,
      never mixes to an end. */
  lemma FreshConferenceIsStuck(channels: seq<Channel>, inputs: seq<Option<seq<byte>>>, enableVad: bool)
    requires |channels| == |inputs| == CONF_MAX_PINS && forall k :: 0 <= k < CONF_MAX_PINS ==> channels[k].buff == []
    requires inputs[0].Some? && |inputs[0].value| == 161 && inputs[1].Some? && |inputs[1].value| == 962
             && !channels[1].preprocesses
    ensures !MixEnds(AllDelivered(channels, inputs), 160, enableVad, false)
  {
    var d := AllDelivered(channels, inputs);
    assert |d[0].buff| == 161 && |d[1].buff| == 962;
    assert !DiscardEnds(|d[1].buff|, LeftOver(d, 160), 160, Detects(d[1], enableVad));
  }

  // ----- Two parties -----

  function Joined(grains: seq<seq<byte>>): seq<byte> {
    if grains == [] then [] else Joined(grains[..|grains| - 1]) + grains[|grains| - 1]
  }

  lemma JoinedMore(grains: seq<seq<byte>>, grain: seq<byte>)
    ensures Joined(grains + [grain]) == Joined(grains) + grain
  {
    assert (grains + [grain])[..|grains|] == grains;
  }

  ghost predicate AllGrains(out: seq<seq<byte>>, gran: nat) {
    forall k :: 0 <= k < |out| ==> |out[k]| == gran
  }

  /** A channel gave up its whole grains in order, to an output if that is linked. */
  ghost predicate Forwarded(before: seq<Channel>, after: seq<Channel>, pin: nat, linked: bool, out: seq<seq<byte>>,
      gran: nat)
    requires pin < |before| == |after| && gran > 0
  {
    && after == before[pin := before[pin].(buff := after[pin].buff, input := after[pin].input)]
    && |after[pin].buff| == |before[pin].buff| % gran && Suffix(after[pin].buff, before[pin].buff)
    && if linked then AllGrains(out, gran) && Joined(out) + after[pin].buff == before[pin].buff else out == []
  }

  /** Each of the two parties, if it is in use, gets the other's data. */
  ghost predicate CopiedBetween(before: seq<Channel>, between: seq<Channel>, after: seq<Channel>, pin: nat,
      outputs: seq<bool>,
                                toCard: seq<seq<byte>>, toPin: seq<seq<byte>>, gran: nat)
    requires 0 < pin < |before| == |between| == |after| == |outputs| && gran > 0
  {
    && (if before[pin].isUsed then Forwarded(before, between, pin, outputs[0], toCard, gran)
        else between == before && toCard == [])
    && (if before[0].isUsed then Forwarded(between, after, 0, outputs[pin], toPin, gran)
        else after == between && toPin == [])
  }

  ghost predicate FirstOdd(linked: seq<bool>, pin: nat) {
    pin < |linked| && pin % 2 == 1 && linked[pin] && forall k :: 0 <= k < pin && k % 2 == 1 ==> !linked[k]
  }

  ghost predicate Copied(before: seq<Channel>, after: seq<Channel>, linked: seq<bool>, outputs: seq<bool>,
                         toCard: seq<seq<byte>>, toPin: seq<seq<byte>>, gran: nat)
    requires |before| == |after| == |linked| == |outputs| && gran > 0
  {
    if exists pin :: FirstOdd(linked, pin) then
      exists pin, between: seq<Channel> ::
        FirstOdd(linked, pin) && |between| == |before|
          && CopiedBetween(before, between, after, pin, outputs, toCard, toPin, gran)
    else after == before && toCard == toPin == []
  }

  lemma ForwardedInStep(before: seq<Channel>, after: seq<Channel>, pin: nat, linked: bool, out: seq<seq<byte>>,
      gran: nat)
    requires gran > 0 && pin < |before| == |after| && Forwarded(before, after, pin, linked, out, gran)
    ensures InStep(before, after, gran)
  {
    SmallRemainder(|after[pin].buff|, gran);
  }

  lemma CopiedInStep(before: seq<Channel>, after: seq<Channel>, linked: seq<bool>, outputs: seq<bool>,
                     toCard: seq<seq<byte>>, toPin: seq<seq<byte>>, gran: nat)
    requires |before| == |after| == |linked| == |outputs| && gran > 0
             && Copied(before, after, linked, outputs, toCard, toPin, gran)
    ensures InStep(before, after, gran)
  {
    hide Forwarded, InStep;
    Unmoved(before, gran);
    if exists pin :: FirstOdd(linked, pin) {
      var pin: nat, between: seq<Channel> :| FirstOdd(linked, pin) && |between| == |before|
        && CopiedBetween(before, between, after, pin, outputs, toCard, toPin, gran);
      Unmoved(between, gran);
      if before[pin].isUsed { ForwardedInStep(before, between, pin, outputs[0], toCard, gran); }
      if before[0].isUsed { ForwardedInStep(between, after, 0, outputs[pin], toPin, gran); }
      InStepThrough(before, between, after, gran);
    }
  }

  lemma Unmoved(channels: seq<Channel>, gran: nat)
    requires gran > 0
    ensures InStep(channels, channels, gran)
  {
  }
}
