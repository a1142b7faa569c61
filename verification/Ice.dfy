/** Connectivity checks on candidate pairs (ice.c, built without RESTRICTIVE_ICE). */
module Ice {

  datatype Check = Testing | Waiting | RecvValid | SendValid | Valid | Invalid

  /** A STUN message that was accepted: which pairs' user names a request carries, or whose transaction an answer
      has. */
  datatype Message = Request(hits: seq<bool>) | Answer(hits: seq<bool>)

  predicate Worked(c: Check) {
    c == Valid || c == RecvValid || c == SendValid
  }

  /** The first pair that has worked, or -1. */
  function FirstWorked(pairs: seq<Check>): (first: int)
    ensures -1 <= first < |pairs| && (first >= 0 ==> Worked(pairs[first]))
    ensures forall k :: 0 <= k < (if first == -1 then |pairs| else first) ==> !Worked(pairs[k])
  {
    if pairs == [] then -1
    else if Worked(pairs[0]) then 0
    else
      var rest := FirstWorked(pairs[1..]);
      if rest == -1 then -1 else rest + 1
  }

  /** A pair that a message touches: requests are looked at only up to the first valid pair. */
  predicate Touches(pairs: seq<Check>, msg: Message, k: nat)
    requires k < |pairs| == |msg.hits|
  {
    msg.hits[k] && (msg.Request? ==> forall j :: 0 <= j <= k ==> pairs[j] != Valid)
  }

  /** What a message makes of a pair that it touches. */
  function Advanced(c: Check, msg: Message): Check {
    match msg
    case Request(_) => if c == RecvValid || c == Valid then Valid else SendValid
    case Answer(_) => if c == SendValid || c == Valid then Valid else RecvValid
  }

  function After(pairs: seq<Check>, msg: Message): (after: seq<Check>)
    requires |pairs| == |msg.hits|
    ensures |after| == |pairs|
  {
    seq(|pairs|, k requires 0 <= k < |pairs| => if Touches(pairs, msg, k) then Advanced(pairs[k], msg) else pairs[k])
  }

  /** The last pair among the first n that a message touches without its being valid already, or -1. */
  function Switch(pairs: seq<Check>, msg: Message, n: nat): (k: int)
    requires n <= |pairs| == |msg.hits|
    ensures -1 <= k < n && (k >= 0 ==> Touches(pairs, msg, k) && pairs[k] != Valid)
  {
    if n == 0 then -1
    else if Touches(pairs, msg, n - 1) && pairs[n - 1] != Valid then n - 1
    else Switch(pairs, msg, n - 1)
  }

  /** A message moves the remote address when it reaches a pair better than all that worked before. */
  predicate Moves(pairs: seq<Check>, msg: Message)
    requires |pairs| == |msg.hits|
  {
    var to := Switch(pairs, msg, |pairs|);
    to != -1 && (FirstWorked(pairs) == -1 || to < FirstWorked(pairs))
  }

  class IceSession {
    var pairs: seq<Check>
    var remoteAddress: nat

    constructor (n: nat, address: nat)
      ensures pairs == seq(n, _ => Testing) && remoteAddress == address
    {
      pairs, remoteAddress := seq(n, _ => Testing), address;
    }

    method AlreadyWorkedOnce() returns (pos: int)
      ensures pos == FirstWorked(pairs)
    {
      pos := 0;
      while pos < |pairs|
        invariant 0 <= pos <= |pairs| && forall k :: 0 <= k < pos ==> !Worked(pairs[k])
      {
        if Worked(pairs[pos]) {
          return;
        }
        pos := pos + 1;
      }
      return -1;
    }

    /** The loop for requests: the pair to switch to. */
    method ProcessRequest(hits: seq<bool>) returns (switchTo: int)
      requires |hits| == |pairs|
      modifies this`pairs
      ensures pairs == After(old(pairs), Request(hits)) && switchTo == Switch(old(pairs), Request(hits), |hits|)
    {
      ghost var before, msg := pairs, Request(hits);
      switchTo := -1;
      var pos := 0;
      while pos < |pairs| && pairs[pos] != Valid
        invariant 0 <= pos <= |pairs| == |before|
        invariant forall k :: 0 <= k < pos ==> before[k] != Valid && pairs[k] == After(before, msg)[k]
        invariant forall k :: pos <= k < |pairs| ==> pairs[k] == before[k]
        invariant switchTo == Switch(before, msg, pos)
      {
        if hits[pos] {
          switchTo := pos;
          if pairs[pos] == RecvValid {
            pairs := pairs[pos := Valid];
          } else {
            pairs := pairs[pos := SendValid];
          }
        }
        pos := pos + 1;
      }
      if pos < |pairs| {
        NoneTouchedPast(before, msg, pos);
      }
      assert pairs == After(before, msg);
    }

    method ProcessAnswer(hits: seq<bool>) returns (switchTo: int)
      requires |hits| == |pairs|
      modifies this`pairs
      ensures pairs == After(old(pairs), Answer(hits)) && switchTo == Switch(old(pairs), Answer(hits), |hits|)
    {
      ghost var before, msg := pairs, Answer(hits);
      switchTo := -1;
      for pos := 0 to |pairs|
        invariant |pairs| == |before|
        invariant forall k :: 0 <= k < pos ==> pairs[k] == After(before, msg)[k]
        invariant forall k :: pos <= k < |pairs| ==> pairs[k] == before[k]
        invariant switchTo == Switch(before, msg, pos)
      {
        if hits[pos] {
          if pairs[pos] != Valid {
            switchTo := pos;
          }
          if pairs[pos] == SendValid || pairs[pos] == Valid {
            if pairs[pos] != Valid {
              pairs := pairs[pos := Valid];
            }
          } else {
            pairs := pairs[pos := RecvValid];
          }
        }
      }
    }

    /** One message from an address. */
    method ProcessStunMessage(msg: Message, from: nat)
      requires |msg.hits| == |pairs|
      modifies this
      ensures pairs == After(old(pairs), msg)
      ensures remoteAddress == if Moves(old(pairs), msg) then from else old(remoteAddress)
    {
      hide After, Switch, FirstWorked;
      var alreadyWorkedOnce := AlreadyWorkedOnce();
      var switchTo;
      match msg {
        case Request(hits) => switchTo := ProcessRequest(hits);
        case Answer(hits) => switchTo := ProcessAnswer(hits);
      }
      if switchTo == -1 {
        return;
      }
      if switchTo < alreadyWorkedOnce || alreadyWorkedOnce == -1 {
        remoteAddress := from;
      }
    }
  }

  lemma {:induction false} NoneTouchedPast(pairs: seq<Check>, msg: Message, pos: nat)
    requires msg.Request? && pos < |pairs| == |msg.hits| && pairs[pos] == Valid
    ensures forall n :: pos <= n <= |pairs| ==> Switch(pairs, msg, n) == Switch(pairs, msg, pos)
    ensures forall k :: pos <= k < |pairs| ==> After(pairs, msg)[k] == pairs[k]
  {
    var n := pos;
    while n < |pairs|
      invariant pos <= n <= |pairs|
      invariant forall m :: pos <= m <= n ==> Switch(pairs, msg, m) == Switch(pairs, msg, pos)
    {
      assert !Touches(pairs, msg, n);
      n := n + 1;
    }
  }

  // ----- Runs -----

  ghost predicate Run(pairs: seq<Check>, msgs: seq<Message>) {
    forall i :: 0 <= i < |msgs| ==> |msgs[i].hits| == |pairs|
  }

  ghost function AfterAll(pairs: seq<Check>, msgs: seq<Message>): (after: seq<Check>)
    requires Run(pairs, msgs)
    ensures |after| == |pairs|
    decreases |msgs|
  {
    if msgs == [] then pairs else AfterAll(After(pairs, msgs[0]), msgs[1..])
  }

  /** The pairs that a run moves the remote address to, in order. */
  ghost function Targets(pairs: seq<Check>, msgs: seq<Message>): seq<int>
    requires Run(pairs, msgs)
    decreases |msgs|
  {
    if msgs == [] then []
    else
      (if Moves(pairs, msgs[0]) then [Switch(pairs, msgs[0], |pairs|)] else [])
        + Targets(After(pairs, msgs[0]), msgs[1..])
  }

  function Rank(c: Check): nat {
    if c == Valid then 2 else if Worked(c) then 1 else 0
  }

  lemma {:induction false} ChecksOnlyAdvance(pairs: seq<Check>, msgs: seq<Message>, k: nat)
    requires Run(pairs, msgs) && k < |pairs|
    ensures Rank(pairs[k]) <= Rank(AfterAll(pairs, msgs)[k])
    ensures pairs[k] == Valid ==> AfterAll(pairs, msgs)[k] == Valid
    decreases |msgs|
  {
    if msgs != [] {
      ChecksOnlyAdvance(After(pairs, msgs[0]), msgs[1..], k);
    }
  }

  /** A bound that every later target stays below. */
  ghost function Bound(pairs: seq<Check>): nat {
    if FirstWorked(pairs) == -1 then |pairs| else FirstWorked(pairs)
  }

  lemma BoundNeverGrows(pairs: seq<Check>, msg: Message)
    requires |pairs| == |msg.hits|
    ensures Bound(After(pairs, msg)) <= Bound(pairs)
    ensures Moves(pairs, msg) ==> Bound(After(pairs, msg)) <= Switch(pairs, msg, |pairs|) < Bound(pairs)
  {
    var after, first, to := After(pairs, msg), FirstWorked(pairs), Switch(pairs, msg, |pairs|);
    if first >= 0 {
      assert Worked(after[first]);
    }
    if Moves(pairs, msg) {
      assert Worked(after[to]);
    }
  }

  ghost predicate Decreasing(s: seq<int>) {
    forall i, j :: 0 <= i < j < |s| ==> s[j] < s[i]
  }

  /** Each move goes to a strictly better pair, so there are no more moves than candidates. */
  lemma {:induction false} MovesDecrease(pairs: seq<Check>, msgs: seq<Message>)
    requires Run(pairs, msgs)
    ensures Decreasing(Targets(pairs, msgs)) && forall i :: 0 <= i < |Targets(pairs, msgs)| ==>
            0 <= Targets(pairs, msgs)[i] < Bound(pairs)
    ensures |Targets(pairs, msgs)| <= Bound(pairs) <= |pairs|
    decreases |msgs|
  {
    if msgs != [] {
      BoundNeverGrows(pairs, msgs[0]);
      MovesDecrease(After(pairs, msgs[0]), msgs[1..]);
      hide FirstWorked, Switch, After, Bound;
    }
  }

  /**
   * Exactly when a message moves the remote address: it reaches a pair with none that worked up to it, and it does
   * not also reach a later one that is not valid yet.
   */
  lemma MovesIff(pairs: seq<Check>, msg: Message)
    requires |pairs| == |msg.hits|
    ensures Moves(pairs, msg) <==>
            exists k :: 0 <= k < |pairs| && msg.hits[k] && NoneWorked(pairs, k) && NoneReachedAfter(pairs, msg, k)
  {
    if Moves(pairs, msg) {
      var to := Switch(pairs, msg, |pairs|);
      SwitchIsLast(pairs, msg, |pairs|);
      assert msg.hits[to] && NoneWorked(pairs, to) && NoneReachedAfter(pairs, msg, to);
    }
    if k :| 0 <= k < |pairs| && msg.hits[k] && NoneWorked(pairs, k) && NoneReachedAfter(pairs, msg, k) {
      assert pairs[k] != Valid && Touches(pairs, msg, k);
      SwitchIsLast(pairs, msg, |pairs|);
    }
  }

  ghost predicate NoneWorked(pairs: seq<Check>, k: nat)
    requires k < |pairs|
  {
    forall j :: 0 <= j <= k ==> pairs[j] != Valid && pairs[j] != RecvValid && pairs[j] != SendValid
  }

  /** No later pair is reached, unless it is valid already or, for a request, lies behind a valid one. */
  ghost predicate NoneReachedAfter(pairs: seq<Check>, msg: Message, k: nat)
    requires |pairs| == |msg.hits|
  {
    forall m :: k < m < |pairs| && msg.hits[m] ==>
      pairs[m] == Valid || (msg.Request? && exists j :: 0 <= j < m && pairs[j] == Valid)
  }

  lemma {:induction false} SwitchIsLast(pairs: seq<Check>, msg: Message, n: nat)
    requires n <= |pairs| == |msg.hits|
    ensures var to := Switch(pairs, msg, n);
            forall k :: 0 <= k < n && Touches(pairs, msg, k) && pairs[k] != Valid ==> k <= to
  {
    if n > 0 {
      SwitchIsLast(pairs, msg, n - 1);
    }
  }

  /** A message that reaches a pair better than all that worked, but also a worse one, moves nothing. */
  lemma BetterPairIsMissed()
    ensures !Moves([Testing, SendValid, Testing], Answer([true, false, true]))
            && Moves([Testing, SendValid, Testing], Answer([true, false, false]))
  {
    var pairs, one, both := [Testing, SendValid, Testing], Answer([true, false, false]), Answer([true, false, true]);
    MovesIff(pairs, one);
    MovesIff(pairs, both);
    hide Moves;
    assert one.hits[0] && NoneWorked(pairs, 0) && NoneReachedAfter(pairs, one, 0);
    assert !NoneReachedAfter(pairs, both, 0) by {
      assert both.hits[2] && pairs[2] == Testing;
    }
    assert !NoneWorked(pairs, 2) by {
      assert pairs[1] == SendValid;
    }
  }

  // ----- Messages that reach one pair -----

  ghost predicate Reaches(msg: Message, k: nat) {
    k < |msg.hits| && forall j :: 0 <= j < |msg.hits| ==> (msg.hits[j] <==> j == k)
  }

  ghost predicate ReachesOne(msg: Message) {
    exists k :: Reaches(msg, k)
  }

  ghost function Better(a: int, b: nat): int {
    if a == -1 || b < a then b else a
  }

  /** A message to one pair makes that pair the best that worked, and moves the address there, if it is better. */
  lemma OneReached(pairs: seq<Check>, msg: Message, k: nat)
    requires |pairs| == |msg.hits| && Reaches(msg, k)
    ensures FirstWorked(After(pairs, msg)) == Better(FirstWorked(pairs), k)
    ensures Moves(pairs, msg) <==> FirstWorked(pairs) == -1 || k < FirstWorked(pairs)
    ensures Moves(pairs, msg) ==> Switch(pairs, msg, |pairs|) == k
  {
    hide Switch;
    var after, first := After(pairs, msg), FirstWorked(pairs);
    SwitchIsLast(pairs, msg, |pairs|);
    if first == -1 || k < first {
      assert Touches(pairs, msg, k) && Worked(after[k]);
    } else {
      assert Worked(after[first]);
    }
  }

  /** After any messages to one pair each, the last move went to the best pair that has worked. */
  lemma {:induction false} AddressIsBest(pairs: seq<Check>, msgs: seq<Message>)
    requires Run(pairs, msgs)
    requires forall i :: 0 <= i < |msgs| ==> ReachesOne(msgs[i])
    ensures var targets := Targets(pairs, msgs);
            FirstWorked(AfterAll(pairs, msgs)) ==
            if targets == [] then FirstWorked(pairs) else targets[|targets| - 1]
    decreases |msgs|
  {
    if msgs != [] {
      var k: nat :| Reaches(msgs[0], k);
      OneReached(pairs, msgs[0], k);
      hide FirstWorked, Switch, After, Moves, ReachesOne;
      AddressIsBest(After(pairs, msgs[0]), msgs[1..]);
    }
  }

  /** Whether some request of a run touched a pair. */
  ghost predicate Requested(pairs: seq<Check>, msgs: seq<Message>, k: nat)
    requires Run(pairs, msgs) && k < |pairs|
    decreases |msgs|
  {
    msgs != [] && ((msgs[0].Request? && Touches(pairs, msgs[0], k)) || Requested(After(pairs, msgs[0]), msgs[1..], k))
  }

  ghost predicate Answered(msgs: seq<Message>, k: nat)
    requires forall i :: 0 <= i < |msgs| ==> k < |msgs[i].hits|
  {
    exists i :: 0 <= i < |msgs| && msgs[i].Answer? && msgs[i].hits[k]
  }

  function CheckFor(requested: bool, answered: bool): Check {
    if requested && answered then Valid else if requested then SendValid else if answered then RecvValid else Testing
  }

  lemma {:induction false} CheckTellsHistory(pairs: seq<Check>, msgs: seq<Message>, k: nat, requested: bool,
      answered: bool)
    requires Run(pairs, msgs) && k < |pairs| && pairs[k] == CheckFor(requested, answered)
    ensures AfterAll(pairs, msgs)[k] == CheckFor(requested || Requested(pairs, msgs, k), answered || Answered(msgs, k))
    decreases |msgs|
  {
    if msgs != [] {
      var first, rest := msgs[0], msgs[1..];
      assert Answered(msgs, k) <==> (first.Answer? && first.hits[k]) || Answered(rest, k) by {
        if Answered(rest, k) {
          var i :| 0 <= i < |rest| && rest[i].Answer? && rest[i].hits[k];
          assert msgs[i + 1] == rest[i];
        }
      }
      CheckTellsHistory(After(pairs, first), rest, k,
                        requested || (first.Request? && Touches(pairs, first, k)),
                        answered || (first.Answer? && first.hits[k]));
    }
  }

  /** A pair that starts unchecked is valid exactly when both a request and an answer have reached it. */
  lemma ValidMeansBothWays(pairs: seq<Check>, msgs: seq<Message>, k: nat)
    requires Run(pairs, msgs) && k < |pairs| && pairs[k] == Testing
    ensures AfterAll(pairs, msgs)[k] == Valid <==> Requested(pairs, msgs, k) && Answered(msgs, k)
  {
    CheckTellsHistory(pairs, msgs, k, false, false);
  }
}
