/**
 * The data model of the bracket: one `bracket_matches` row per key
 * (round, position within the round), each holding two optional team
 * slots and an optional winner, plus the index arithmetic that links a
 * match to the slot its winner advances into.
 */
module Brackets {
  import opened Wrappers

  /** Team ids are SQLite `INTEGER PRIMARY KEY AUTOINCREMENT` values and so
      start at 1: Python's truthiness test on an id is exactly "present". */
  type TeamId = x: int | x >= 1 witness 1

  /** Logical key of a match row: its `round_index` and `match_index`. */
  datatype Key = Key(round: nat, index: nat)

  /** One match: the two slots and the recorded winner, each nullable. */
  datatype Match = Match(teamA: Option<TeamId>, teamB: Option<TeamId>, winner: Option<TeamId>)

  /** The matches of one tournament, keyed by (round, index). */
  type Bracket = map<Key, Match>

  /** The two positions of a match. */
  datatype Slot = A | B

  function SlotValue(m: Match, s: Slot): Option<TeamId>
  {
    if s == A then m.teamA else m.teamB
  }

  function Other(s: Slot): Slot
  {
    if s == A then B else A
  }

  /** `m` with slot `s` overwritten by `t`; the other slot and the winner are kept. */
  function WithSlot(m: Match, s: Slot, t: Option<TeamId>): (r: Match)
    ensures SlotValue(r, s) == t
    ensures SlotValue(r, Other(s)) == SlotValue(m, Other(s))
    ensures r.winner == m.winner
  {
    if s == A then m.(teamA := t) else m.(teamB := t)
  }

  /** The match of the next round that the winner of `k` advances into. */
  function Destination(k: Key): Key
  {
    Key(k.round + 1, k.index / 2)
  }

  /** The slot of `Destination(k)` the winner of `k` occupies: A for even indices. */
  function DestinationSlot(k: Key): Slot
  {
    if k.index % 2 == 0 then A else B
  }

  /** The match of the previous round whose winner feeds slot `s` of `k`;
      round-0 slots have no feeder. */
  function Feeder(k: Key, s: Slot): Option<Key>
  {
    if k.round == 0 then None
    else Some(Key(k.round - 1, 2 * k.index + (if s == A then 0 else 1)))
  }

  /** The feeder relation is exactly the inverse of the destination map: each
      slot of a later-round match is fed by one match, and every match feeds
      exactly one slot. */
  lemma FeederIsInverseOfDestination(src: Key, k: Key, s: Slot)
    ensures Feeder(k, s) == Some(src) <==> (Destination(src) == k && DestinationSlot(src) == s)
  {
    if Destination(src) == k && DestinationSlot(src) == s {
      assert src.index == 2 * (src.index / 2) + src.index % 2;
    }
  }

  /** The set of round numbers that occur in `b`. */
  function Rounds(b: Bracket): set<nat>
  {
    set k | k in b :: k.round
  }

  lemma RoundOfKey(b: Bracket, k: Key)
    requires k in b
    ensures k.round in Rounds(b)
  {
  }

  /** The largest element of a non-empty set of rounds. */
  lemma {:induction false} MaxOf(s: set<nat>) returns (m: nat)
    requires s != {}
    ensures m in s && forall y :: y in s ==> y <= m
  {
    var x :| x in s;
    if s == {x} {
      m := x;
    } else {
      var rest := MaxOf(s - {x});
      m := if x > rest then x else rest;
      forall y | y in s
        ensures y <= m
      {
        if y != x {
          assert y in s - {x};
        }
      }
    }
  }

  lemma MaxExists(s: set<nat>)
    requires s != {}
    ensures exists m :: m in s && forall y :: y in s ==> y <= m
  {
    var m := MaxOf(s);
  }

  /** `max(rounds.keys())` of the propagation routine. */
  function MaxRound(b: Bracket): (r: nat)
    requires b != map[]
    ensures r in Rounds(b)
    ensures forall k :: k in b ==> k.round <= r
    ensures forall x :: x in Rounds(b) ==> x <= r
  {
    var k0 :| k0 in b;
    RoundOfKey(b, k0);
    MaxExists(Rounds(b));
    var m :| m in Rounds(b) && forall y :: y in Rounds(b) ==> y <= m;
    assert forall k :: k in b ==> k.round in Rounds(b);
    m
  }

  /** Round `r` is missing although round `r + 1` is present: the loop of
      the propagation routine looks round `r` up and fails there. */
  predicate Gap(b: Bracket, r: nat)
  {
    r !in Rounds(b) && r + 1 in Rounds(b)
  }

  /** The first gap at or above `from`, if any. */
  function GapFrom(b: Bracket, from: nat): (g: Option<nat>)
    requires b != map[]
    ensures g.Some? ==> from <= g.value && Gap(b, g.value)
    ensures g.Some? ==> forall r :: from <= r < g.value ==> !Gap(b, r)
    ensures g.None? ==> forall r :: from <= r ==> !Gap(b, r)
    decreases MaxRound(b) - from
  {
    if from >= MaxRound(b) then None
    else if Gap(b, from) then Some(from)
    else GapFrom(b, from + 1)
  }

  /** The lowest round at which the propagation loop fails, if any. */
  function FirstGap(b: Bracket): (g: Option<nat>)
    ensures g.Some? ==> Gap(b, g.value) && forall r: nat :: r < g.value ==> !Gap(b, r)
    ensures g.None? ==> forall r: nat :: !Gap(b, r)
  {
    if b == map[] then None else GapFrom(b, 0)
  }

  /** The keys of round `round` in `b`. */
  function RoundKeys(b: Bracket, round: nat): (ks: set<Key>)
    ensures forall k :: k in ks <==> k in b && k.round == round
  {
    set k | k in b && k.round == round
  }
}
