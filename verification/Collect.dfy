/**
  ratchet.go, `collectCosignatures`: every witness is asked at once, and the
  replies are taken from a channel in the order in which they come.
 */
module Collecting {
  import opened Wrappers
  import opened Hashing

  datatype WitnessError =
    | InvalidProof | RootMismatch | Stale(size: nat) | BadRequest | UnknownLog | WitnessFailed
    | Unreachable | NoAddress | NoProof

  /** What asking one witness gives: a cosignature line or an error. */
  type Reply = Result<bytes, WitnessError>

  /** A witness that inspected the transition and refused it: never skipped. */
  predicate Fatal(r: Reply) {
    r.Err? && (r.error.InvalidProof? || r.error.RootMismatch?)
  }

  /** What the replies give, in the order they are received. */
  function Collected(replies: seq<Reply>): Result<seq<bytes>, WitnessError> {
    if replies == [] then Ok([])
    else if Fatal(replies[0]) then Err(replies[0].error)
    else
      var rest :- Collected(replies[1..]);
      Ok(if replies[0].Ok? then [replies[0].value] + rest else rest)
  }

  /** Receives the replies one by one. */
  method CollectCosignatures(replies: seq<Reply>) returns (r: Result<seq<bytes>, WitnessError>)
    ensures r == Collected(replies)
  {
    var lines: seq<bytes> := [];
    for i := 0 to |replies|
      invariant Collected(replies[..i]) == Ok(lines)
    {
      var reply := replies[i];
      CollectedSnoc(replies[..i], reply);
      assert lines + [] == lines;
      assert replies[..i + 1] == replies[..i] + [reply];
      if reply.Err? {
        if reply.error.InvalidProof? || reply.error.RootMismatch? {
          CollectedStops(replies[..i + 1], replies[i + 1..]);
          assert replies == replies[..i + 1] + replies[i + 1..];
          return Err(reply.error);
        }
        continue;
      }
      lines := lines + [reply.value];
    }
    assert replies[..|replies|] == replies;
    return Ok(lines);
  }

  lemma {:induction false} CollectedSnoc(replies: seq<Reply>, reply: Reply)
    requires Collected(replies).Ok?
    ensures Collected(replies + [reply])
         == if Fatal(reply) then Err(reply.error)
            else Ok(Collected(replies).value + if reply.Ok? then [reply.value] else [])
  {
    if replies == [] {
      assert [] + [reply] == [reply] && [reply][1..] == [];
      if reply.Ok? { assert [reply.value] + [] == [] + [reply.value]; }
    } else {
      CollectedSnoc(replies[1..], reply);
      assert (replies + [reply])[1..] == replies[1..] + [reply];
      var rest, more := Collected(replies[1..]).value, if reply.Ok? then [reply.value] else [];
      if replies[0].Ok? { assert [replies[0].value] + (rest + more) == ([replies[0].value] + rest) + more; }
    }
  }

  lemma {:induction false} CollectedStops(replies: seq<Reply>, more: seq<Reply>)
    requires Collected(replies).Err?
    ensures Collected(replies + more) == Collected(replies)
  {
    if !Fatal(replies[0]) { CollectedStops(replies[1..], more); }
    assert (replies + more)[1..] == replies[1..] + more;
  }

  // ---------- Arrival order ----------

  /** How often a line is among the replies. */
  function Times(replies: seq<Reply>, line: bytes): nat {
    multiset(replies)[Ok(line)]
  }

  /** Collecting fails if and only if some reply is fatal; else it gives the lines of the replies, each as often. */
  lemma {:induction false} CollectedIff(replies: seq<Reply>)
    ensures Collected(replies).Err? <==> exists r :: r in replies && Fatal(r)
    ensures Collected(replies).Ok? ==>
              forall line :: multiset(Collected(replies).value)[line] == Times(replies, line)
  {
    if replies != [] {
      CollectedIff(replies[1..]);
      assert replies == [replies[0]] + replies[1..];
    }
  }

  /**
    Arrival order does not matter: for any two orders of the same replies,
    collecting fails for both or for neither, and gives the same lines.
   */
  lemma OrderIrrelevant(a: seq<Reply>, b: seq<Reply>)
    requires multiset(a) == multiset(b)
    ensures Collected(a).Ok? == Collected(b).Ok?
    ensures Collected(a).Ok? ==> multiset(Collected(a).value) == multiset(Collected(b).value)
  {
    CollectedIff(a);
    CollectedIff(b);
    forall r
      ensures r in a <==> r in b
    {
      assert r in a <==> r in multiset(a);
    }
  }

  // ---------- The channel ----------

  /** Senders that have not sent yet, the channel's buffer, and what was received. */
  datatype Exchange = Exchange(pending: multiset<Reply>, buffer: seq<Reply>, received: seq<Reply>)

  datatype Action = Send(reply: Reply) | Receive

  /** The collector is done when every reply is in, or a fatal one is. */
  predicate Done(s: Exchange, capacity: nat) {
    |s.received| == capacity || (s.received != [] && Fatal(s.received[|s.received| - 1]))
  }

  /** The channel has room for one reply of each witness. */
  predicate Enabled(s: Exchange, capacity: nat, a: Action) {
    match a
    case Send(reply) => reply in s.pending && |s.buffer| < capacity
    case Receive => s.buffer != [] && !Done(s, capacity)
  }

  function Act(s: Exchange, a: Action): Exchange
    requires a.Send? ==> a.reply in s.pending
    requires a.Receive? ==> s.buffer != []
  {
    match a
    case Send(reply) => Exchange(s.pending - multiset{reply}, s.buffer + [reply], s.received)
    case Receive => Exchange(s.pending, s.buffer[1..], s.received + [s.buffer[0]])
  }

  predicate IsRun(s: Exchange, capacity: nat, actions: seq<Action>)
    decreases |actions|
  {
    actions == [] || (Enabled(s, capacity, actions[0]) && IsRun(Act(s, actions[0]), capacity, actions[1..]))
  }

  function Reached(s: Exchange, capacity: nat, actions: seq<Action>): Exchange
    requires IsRun(s, capacity, actions)
    decreases |actions|
  {
    if actions == [] then s else Reached(Act(s, actions[0]), capacity, actions[1..])
  }

  function Start(replies: seq<Reply>): Exchange {
    Exchange(multiset(replies), [], [])
  }

  function All(s: Exchange): multiset<Reply> {
    s.pending + multiset(s.buffer) + multiset(s.received)
  }

  /** All but the last received reply are harmless. */
  predicate Harmless(received: seq<Reply>) {
    received == [] || Collected(received[..|received| - 1]).Ok?
  }

  /** Every reply is in one of three places. */
  ghost predicate Accounted(s: Exchange, replies: seq<Reply>) {
    All(s) == multiset(replies) && Harmless(s.received)
  }

  /** No reply is lost and none is made up. */
  lemma ActKeepsAll(s: Exchange, a: Action)
    requires a.Send? ==> a.reply in s.pending
    requires a.Receive? ==> s.buffer != []
    ensures All(Act(s, a)) == All(s)
  {
    if a.Receive? {
      var r := s.buffer[0];
      assert s.buffer == [r] + s.buffer[1..];
      assert multiset(s.buffer) == multiset{r} + multiset(s.buffer[1..]);
    } else {
      assert s.pending == (s.pending - multiset{a.reply}) + multiset{a.reply};
    }
  }

  lemma ReceiveHarmless(received: seq<Reply>, r: Reply)
    requires Harmless(received) && (received == [] || !Fatal(received[|received| - 1]))
    ensures Harmless(received + [r])
  {
    var n := |received|;
    assert (received + [r])[..n] == received;
    if n > 0 {
      CollectedSnoc(received[..n - 1], received[n - 1]);
      assert received == received[..n - 1] + [received[n - 1]];
    }
  }

  lemma ActAccounted(s: Exchange, replies: seq<Reply>, a: Action)
    requires Accounted(s, replies) && Enabled(s, |replies|, a)
    ensures Accounted(Act(s, a), replies)
  {
    ActKeepsAll(s, a);
    if a.Receive? { ReceiveHarmless(s.received, s.buffer[0]); }
  }

  lemma {:induction false} RunAccounted(s: Exchange, replies: seq<Reply>, actions: seq<Action>)
    requires Accounted(s, replies) && IsRun(s, |replies|, actions)
    ensures Accounted(Reached(s, |replies|, actions), replies)
    decreases |actions|
  {
    if actions != [] {
      ActAccounted(s, replies, actions[0]);
      RunAccounted(Act(s, actions[0]), replies, actions[1..]);
    }
  }

  /**
    No sender ever blocks, also after the collector has returned, and while the
    collector waits there is something left to come: in every state of every run a
    sender that has not sent can send, and one of the two can go on until the
    collector is done.
   */
  lemma NobodyBlocks(replies: seq<Reply>, actions: seq<Action>)
    requires IsRun(Start(replies), |replies|, actions)
    ensures var s := Reached(Start(replies), |replies|, actions);
            && (forall r :: r in s.pending ==> Enabled(s, |replies|, Send(r)))
            && (Done(s, |replies|) || s.pending != multiset{} || Enabled(s, |replies|, Receive))
  {
    RunAccounted(Start(replies), replies, actions);
    var s := Reached(Start(replies), |replies|, actions);
    assert |s.pending| + |s.buffer| + |s.received| == |replies| by {
      assert |All(s)| == |multiset(replies)|;
    }
  }

  /**
    For every interleaving of senders and collector: once the collector is done,
    it fails if and only if some witness reported an invalid proof or a root
    mismatch, and otherwise it has the lines of all replies.
   */
  lemma EveryInterleaving(replies: seq<Reply>, actions: seq<Action>)
    requires IsRun(Start(replies), |replies|, actions)
    requires Done(Reached(Start(replies), |replies|, actions), |replies|)
    ensures var got := Collected(Reached(Start(replies), |replies|, actions).received);
            && (got.Err? <==> exists r :: r in replies && Fatal(r))
            && (got.Ok? ==> forall line :: multiset(got.value)[line] == Times(replies, line))
  {
    RunAccounted(Start(replies), replies, actions);
    var s := Reached(Start(replies), |replies|, actions);
    CollectedIff(s.received);
    CollectedIff(replies);
    forall r | r in s.received
      ensures r in replies
    {
      assert r in multiset(s.received) && r in multiset(replies);
    }
    if |s.received| == |replies| {
      assert |All(s)| == |multiset(replies)|;
      assert s.pending + multiset(s.buffer) == multiset{};
      assert multiset(s.received) == multiset(replies);
      OrderIrrelevant(s.received, replies);
    } else {
      assert s.received[|s.received| - 1] in s.received;
    }
  }
}
