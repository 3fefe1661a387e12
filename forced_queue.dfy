/** The forced-roll queue store: a table from user id to the ordered list of
    die values the game master has queued for that user's next rolls. The
    head of a list is the value used next (first in, first out). */
module ForcedQueue {
  import opened Wrappers

  type UserId = string

  /** The stored table; `{}` (the empty map) is the registered default. */
  type Queues = map<UserId, seq<int>>

  /** The first queued value for `user`; none when the user has no entry or
      an empty list. */
  function NextForced(m: Queues, user: UserId): (r: Option<int>)
  {
    if user in m && |m[user]| > 0 then Some(m[user][0]) else None
  }

  /** The list after an in-place `shift()`: the head removed, or still empty. */
  function Shift(q: seq<int>): (r: seq<int>)
  {
    if q == [] then [] else q[1..]
  }

  /** The table after consuming one value for `user`. An absent user leaves
      the table as it was; a present one keeps its key, even when the list
      becomes (or already was) empty. */
  function Consumed(m: Queues, user: UserId): (r: Queues)
    ensures r.Keys == m.Keys
    ensures forall w :: w in m && w != user ==> r[w] == m[w]
    ensures user !in m ==> r == m
    ensures user in m && m[user] != [] ==> [m[user][0]] + r[user] == m[user]
    ensures user in m && m[user] == [] ==> r[user] == []
  {
    if user !in m then m else m[user := Shift(m[user])]
  }

  /** The store as the host's world settings hold it. */
  class ForcedRollStore {
    var data: Queues

    constructor ()
      ensures data == map[]
    {
      data := map[];
    }

    /** Reads the next forced value for `user` without changing anything. */
    function Peek(user: UserId): (r: Option<int>)
      reads this
      ensures r.Some? <==> user in data && data[user] != []
      ensures r.Some? ==> r.value == data[user][0]
    {
      NextForced(data, user)
    }

    /** Removes the value just used from the head of `user`'s list and writes
        the table back; a user without an entry is left alone. */
    method Consume(user: UserId)
      modifies this
      ensures data == Consumed(old(data), user)
    {
      if user !in data {
        return;
      }
      var queue := data[user];
      if queue != [] {
        queue := queue[1..];
      }
      data := data[user := queue];
    }

    /** Replaces the whole table, as the configuration form does on submit. */
    method SetAll(m: Queues)
      modifies this
      ensures data == m
      ensures forall u :: Peek(u) == NextForced(m, u)
    {
      data := m;
    }
  }

  // ---------------------------------------------------------------------
  // How consumption interacts with peeking
  // ---------------------------------------------------------------------

  /** After one value is consumed, peeking gives the second queued value, or
      none when fewer than two were queued. */
  lemma PeekAfterConsume(m: Queues, user: UserId)
    ensures NextForced(Consumed(m, user), user) ==
      if user in m && |m[user]| >= 2 then Some(m[user][1]) else None
  {
  }

  /** Consuming for one user never changes what another user peeks. */
  lemma ConsumeKeepsOtherPeeks(m: Queues, user: UserId, other: UserId)
    requires other != user
    ensures NextForced(Consumed(m, user), other) == NextForced(m, other)
  {
  }
}
