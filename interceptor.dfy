/** The hook run before a chat message is created: when the game master's
    client sees a message carrying a roll whose owner has a forced value
    queued, it overrides the dice of the message's first roll with that value
    and consumes the value from the owner's queue. */
module Interceptor {
  import opened Wrappers
  import opened RollTerms
  import opened ForcedQueue

  /** The parts of a prospective chat message the hook looks at: the id of
      the user the message belongs to and the rolls it carries. */
  datatype Message = Message(ownerId: UserId, rolls: seq<Roll>)

  /** The message as updated by the hook and the queue table afterwards. */
  datatype Outcome = Outcome(message: Message, queues: Queues)

  /** The message with its first roll's dice forced to `v`; later rolls, if
      any, are kept. */
  function WithForcedRoll(msg: Message, v: int): (r: Message)
    requires |msg.rolls| > 0
  {
    msg.(rolls := msg.rolls[0 := ForceRoll(msg.rolls[0], v)])
  }

  /** The hook acts only on the game master's client, for a message that has
      a roll, when its owner has a value queued. */
  predicate Applies(isGM: bool, msg: Message, m: Queues)
  {
    isGM && |msg.rolls| > 0 && NextForced(m, msg.ownerId).Some?
  }

  /** The hook's effect as a function of its inputs and the table before it. */
  function Intercept(isGM: bool, msg: Message, m: Queues): (o: Outcome)
    ensures !Applies(isGM, msg, m) ==> o == Outcome(msg, m)
    ensures Applies(isGM, msg, m) ==>
      var v := m[msg.ownerId][0];
      o.queues == Consumed(m, msg.ownerId) &&
      o.message.ownerId == msg.ownerId &&
      |o.message.rolls| == |msg.rolls| &&
      o.message.rolls[0] == ForceRoll(msg.rolls[0], v) &&
      o.message.rolls[1..] == msg.rolls[1..]
  {
    if !isGM || |msg.rolls| == 0 then Outcome(msg, m)
    else match NextForced(m, msg.ownerId)
      case None => Outcome(msg, m)
      case Some(v) => Outcome(WithForcedRoll(msg, v), Consumed(m, msg.ownerId))
  }

  /** When the hook acts, the first roll of the updated message has the
      shape of a forced roll: every die result shows the owner's first queued
      value, and everything else about the roll is kept. */
  lemma InterceptForcesFirstRoll(isGM: bool, msg: Message, m: Queues)
    requires Applies(isGM, msg, m)
    ensures TermsForcedFrom(msg.rolls[0].terms, Intercept(isGM, msg, m).message.rolls[0].terms, m[msg.ownerId][0])
    ensures AllDiceShow(Intercept(isGM, msg, m).message.rolls[0].terms, m[msg.ownerId][0])
  {
    ForceTermsShape(msg.rolls[0].terms, m[msg.ownerId][0]);
  }

  /** The hook itself. `isGM` says whether the client running it is the game
      master's. The triggering user's id `userId` is received but not used:
      the queue consulted and consumed is that of the message's owner. */
  method OnPreCreateChatMessage(store: ForcedRollStore, isGM: bool, message: Message, userId: UserId)
    returns (updated: Message)
    modifies store
    ensures Outcome(updated, store.data) == Intercept(isGM, message, old(store.data))
  {
    updated := message;
    if !isGM {
      return;
    }
    if |message.rolls| == 0 {
      return;
    }
    var roll := message.rolls[0];
    var forcedResult := store.Peek(message.ownerId);
    if forcedResult.None? {
      return;
    }
    var terms := OverrideTerms(roll.terms, forcedResult.value);
    updated := message.(rolls := message.rolls[0 := Roll(terms)]);
    store.Consume(message.ownerId);
  }

  // ---------------------------------------------------------------------
  // Successive interceptions
  // ---------------------------------------------------------------------

  /** The messages after a run of hook calls on the game master's client and
      the table at the end. */
  datatype Session = Session(messages: seq<Message>, queues: Queues)

  /** Runs the hook on each message in turn, threading the table through. */
  function InterceptAll(ms: seq<Message>, m: Queues): (s: Session)
    ensures |s.messages| == |ms|
    decreases |ms|
  {
    if ms == [] then Session([], m)
    else
      var o := Intercept(true, ms[0], m);
      var rest := InterceptAll(ms[1..], o.queues);
      Session([o.message] + rest.messages, rest.queues)
  }

  /** A user's list, empty when the user has no entry. */
  function QueueOf(m: Queues, u: UserId): (q: seq<int>)
  {
    if u in m then m[u] else []
  }

  function Min(a: nat, b: nat): (r: nat)
  {
    if a <= b then a else b
  }

  /** One hook call for a message of `u`'s that carries a roll: untouched
      when `u` has nothing queued, otherwise forced to the head of `u`'s list,
      which loses that head. */
  lemma InterceptOwnMessage(msg: Message, m: Queues, u: UserId)
    requires msg.ownerId == u && |msg.rolls| > 0
    ensures QueueOf(m, u) == [] ==> Intercept(true, msg, m) == Outcome(msg, m)
    ensures QueueOf(m, u) != [] ==>
      Intercept(true, msg, m) == Outcome(WithForcedRoll(msg, QueueOf(m, u)[0]), m[u := QueueOf(m, u)[1..]])
  {
  }

  /** Unfolds one step of a run: the first message is handled against the
      starting table, the rest against the table it leaves. */
  lemma InterceptAllStep(ms: seq<Message>, m: Queues)
    requires ms != []
    ensures InterceptAll(ms, m).messages[0] == Intercept(true, ms[0], m).message
    ensures forall i :: 1 <= i < |ms| ==>
      InterceptAll(ms, m).messages[i] ==
      InterceptAll(ms[1..], Intercept(true, ms[0], m).queues).messages[i - 1]
  {
  }

  /** The table a run leaves is the one its tail leaves, started from the
      table the first message leaves. */
  lemma InterceptAllQueuesStep(ms: seq<Message>, m: Queues)
    requires ms != []
    ensures InterceptAll(ms, m).queues ==
      InterceptAll(ms[1..], Intercept(true, ms[0], m).queues).queues
  {
  }

  /** The table after a run of `u`'s rolls: `u`'s list has lost as many
      values from its front as there were rolls (or all of them); every other
      entry is unchanged. */
  lemma {:induction false} FifoQueues(ms: seq<Message>, m: Queues, u: UserId)
    requires forall i :: 0 <= i < |ms| ==> ms[i].ownerId == u && |ms[i].rolls| > 0
    ensures InterceptAll(ms, m).queues ==
      if u in m then m[u := m[u][Min(|ms|, |m[u]|)..]] else m
  {
    if ms != [] {
      var q := QueueOf(m, u);
      InterceptOwnMessage(ms[0], m, u);
      InterceptAllQueuesStep(ms, m);
      var o := Intercept(true, ms[0], m);
      FifoQueues(ms[1..], o.queues, u);
      if q == [] {
        if u in m {
          assert m[u := m[u]] == m;
        }
      } else {
        assert o.queues == m[u := q[1..]];
        var rest := q[1..][Min(|ms| - 1, |q| - 1)..];
        assert rest == q[Min(|ms|, |q|)..];
        assert InterceptAll(ms, m).queues == m[u := q[1..]][u := rest];
        assert m[u := q[1..]][u := rest] == m[u := rest];
      }
    }
  }

  /** In a run of `u`'s rolls, roll i is forced to `u`'s i-th queued value,
      for as long as values remain. */
  lemma {:induction false} FifoForced(ms: seq<Message>, m: Queues, u: UserId)
    requires forall i :: 0 <= i < |ms| ==> ms[i].ownerId == u && |ms[i].rolls| > 0
    ensures forall i :: 0 <= i < |ms| && i < |QueueOf(m, u)| ==>
      InterceptAll(ms, m).messages[i] == WithForcedRoll(ms[i], QueueOf(m, u)[i])
  {
    if ms != [] {
      var q := QueueOf(m, u);
      InterceptOwnMessage(ms[0], m, u);
      InterceptAllStep(ms, m);
      if q != [] {
        var o := Intercept(true, ms[0], m);
        FifoForced(ms[1..], o.queues, u);
        assert QueueOf(o.queues, u) == q[1..];
        forall i | 1 <= i < |ms| && i < |q|
          ensures InterceptAll(ms, m).messages[i] == WithForcedRoll(ms[i], q[i])
        {
          assert ms[1..][i - 1] == ms[i];
          assert q[1..][i - 1] == q[i];
        }
      }
    }
  }

  /** In a run of `u`'s rolls, every roll after the queued values are used up
      is left as it was. */
  lemma {:induction false} FifoUntouched(ms: seq<Message>, m: Queues, u: UserId)
    requires forall i :: 0 <= i < |ms| ==> ms[i].ownerId == u && |ms[i].rolls| > 0
    ensures forall i :: |QueueOf(m, u)| <= i < |ms| ==>
      InterceptAll(ms, m).messages[i] == ms[i]
  {
    if ms != [] {
      var q := QueueOf(m, u);
      InterceptOwnMessage(ms[0], m, u);
      InterceptAllStep(ms, m);
      var o := Intercept(true, ms[0], m);
      FifoUntouched(ms[1..], o.queues, u);
      assert q != [] ==> QueueOf(o.queues, u) == q[1..];
      forall i | |q| <= i < |ms| && 1 <= i
        ensures InterceptAll(ms, m).messages[i] == ms[i]
      {
        assert ms[1..][i - 1] == ms[i];
      }
    }
  }

  /** First in, first out: for a user whose list is `q`, the i-th message of
      theirs that carries a roll is forced to `q[i]` while values remain, and
      left untouched once the list is used up. The list ends with the values
      used removed from its front; every other entry is unchanged. */
  lemma FifoOrder(ms: seq<Message>, m: Queues, u: UserId)
    requires forall i :: 0 <= i < |ms| ==> ms[i].ownerId == u && |ms[i].rolls| > 0
    ensures forall i :: 0 <= i < |ms| && i < |QueueOf(m, u)| ==>
      InterceptAll(ms, m).messages[i] == WithForcedRoll(ms[i], QueueOf(m, u)[i])
    ensures forall i :: |QueueOf(m, u)| <= i < |ms| ==>
      InterceptAll(ms, m).messages[i] == ms[i]
    ensures InterceptAll(ms, m).queues ==
      if u in m then m[u := m[u][Min(|ms|, |m[u]|)..]] else m
  {
    FifoForced(ms, m, u);
    FifoUntouched(ms, m, u);
    FifoQueues(ms, m, u);
  }

  /** A queue `[a, b, c]`: three successive rolls by its user are forced to
      a, b and c in that order, a fourth is left as it was, and the user's
      entry is left present and empty. */
  lemma ThreeQueuedValues(m: Queues, u: UserId, a: int, b: int, c: int,
                          r1: Message, r2: Message, r3: Message, r4: Message)
    requires u in m && m[u] == [a, b, c]
    requires r1.ownerId == u && |r1.rolls| > 0
    requires r2.ownerId == u && |r2.rolls| > 0
    requires r3.ownerId == u && |r3.rolls| > 0
    requires r4.ownerId == u && |r4.rolls| > 0
    ensures InterceptAll([r1, r2, r3, r4], m) ==
      Session([WithForcedRoll(r1, a), WithForcedRoll(r2, b), WithForcedRoll(r3, c), r4],
              m[u := []])
  {
    var ms := [r1, r2, r3, r4];
    FifoOrder(ms, m, u);
    var s := InterceptAll(ms, m);
    assert s.messages[0] == WithForcedRoll(ms[0], a);
    assert s.messages[1] == WithForcedRoll(ms[1], b);
    assert s.messages[2] == WithForcedRoll(ms[2], c);
    assert s.messages[3] == ms[3];
    assert s.messages == [WithForcedRoll(r1, a), WithForcedRoll(r2, b), WithForcedRoll(r3, c), r4];
    assert m[u][Min(|ms|, |m[u]|)..] == [];
  }

  /** A message that is not one of `u`'s roll messages (owned by someone
      else, or carrying no roll) never changes what `u` has queued. */
  lemma OtherOwnersLeaveQueue(isGM: bool, msg: Message, m: Queues, u: UserId)
    requires !IsRollOf(msg, u)
    ensures QueueOf(Intercept(isGM, msg, m).queues, u) == QueueOf(m, u)
  {
  }

  // ---------------------------------------------------------------------
  // Runs in which several players' messages are interleaved
  // ---------------------------------------------------------------------

  /** `msg` belongs to `u` and carries a roll. */
  predicate IsRollOf(msg: Message, u: UserId)
  {
    msg.ownerId == u && |msg.rolls| > 0
  }

  /** How many of the messages are roll messages of `u`. */
  function RollsOf(ms: seq<Message>, u: UserId): (n: nat)
    ensures n <= |ms|
  {
    if ms == [] then 0 else (if IsRollOf(ms[0], u) then 1 else 0) + RollsOf(ms[1..], u)
  }

  /** Whatever else is interleaved, `u`'s list at the end of a run has lost
      one value from its front for each roll message of `u`'s in the run, or
      all of its values when there were more such messages than values. */
  lemma {:induction false} MixedFifoQueue(ms: seq<Message>, m: Queues, u: UserId)
    ensures QueueOf(InterceptAll(ms, m).queues, u) ==
      QueueOf(m, u)[Min(RollsOf(ms, u), |QueueOf(m, u)|)..]
  {
    if ms != [] {
      var q := QueueOf(m, u);
      var o := Intercept(true, ms[0], m);
      InterceptAllQueuesStep(ms, m);
      MixedFifoQueue(ms[1..], o.queues, u);
      if IsRollOf(ms[0], u) {
        InterceptOwnMessage(ms[0], m, u);
        if q != [] {
          assert QueueOf(o.queues, u) == q[1..];
          assert q[1..][Min(RollsOf(ms[1..], u), |q| - 1)..] == q[Min(RollsOf(ms, u), |q|)..];
        }
      } else {
        OtherOwnersLeaveQueue(true, ms[0], m, u);
      }
    }
  }

  /** Whatever else is interleaved, the roll message of `u`'s at position
      `i` of a run is forced to the value at position k of `u`'s list, where
      k is the number of `u`'s roll messages before it; once the list is used
      up the message is left as it was. */
  lemma {:induction false} MixedFifoForced(ms: seq<Message>, m: Queues, u: UserId, i: nat)
    requires i < |ms| && IsRollOf(ms[i], u)
    ensures var k := RollsOf(ms[..i], u);
      InterceptAll(ms, m).messages[i] ==
        if k < |QueueOf(m, u)| then WithForcedRoll(ms[i], QueueOf(m, u)[k]) else ms[i]
  {
    var q := QueueOf(m, u);
    var o := Intercept(true, ms[0], m);
    InterceptAllStep(ms, m);
    if i == 0 {
      InterceptOwnMessage(ms[0], m, u);
    } else {
      MixedFifoForced(ms[1..], o.queues, u, i - 1);
      assert ms[1..][i - 1] == ms[i];
      assert ms[..i][0] == ms[0] && ms[..i][1..] == ms[1..][..i - 1];
      var k' := RollsOf(ms[1..][..i - 1], u);
      if IsRollOf(ms[0], u) {
        InterceptOwnMessage(ms[0], m, u);
        assert RollsOf(ms[..i], u) == k' + 1;
        if q != [] {
          assert QueueOf(o.queues, u) == q[1..];
        }
      } else {
        OtherOwnersLeaveQueue(true, ms[0], m, u);
        assert RollsOf(ms[..i], u) == k';
      }
    }
  }
}
