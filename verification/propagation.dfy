/**
 * Winner propagation and completion. The routine loads every row of the
 * tournament once; for each round r below the highest one that has a round
 * r + 1, every decided match (r, m) writes its winner into slot A (m even)
 * or slot B (m odd) of match (r + 1, m / 2), when that row exists. Writes
 * read winners from the loaded rows and overwrite unconditionally. The
 * tournament is finished when the highest round holds exactly one match and
 * that match has a winner.
 */
module Propagation {
  import opened Wrappers
  import opened Brackets

  /** The team that the writes made by the sources in `done` leave in slot
      `s` of `k`: the winner of that slot's feeder, if the feeder was among
      `done` and had a winner. */
  function Fed(b: Bracket, done: set<Key>, k: Key, s: Slot): Option<TeamId>
  {
    match Feeder(k, s)
    case None => None
    case Some(src) => if src in done && src in b then b[src].winner else None
  }

  function Fill(m: Match, s: Slot, t: Option<TeamId>): Match
  {
    if t.Some? then WithSlot(m, s, t) else m
  }

  /** `b` after the writes of every source in `done` have been carried out. */
  function AfterWrites(b: Bracket, done: set<Key>): Bracket
  {
    map k | k in b :: Fill(Fill(b[k], A, Fed(b, done, k, A)), B, Fed(b, done, k, B))
  }

  /** The bracket after one full propagation pass over `b`. */
  function Propagated(b: Bracket): (r: Bracket)
    ensures r.Keys == b.Keys
    ensures forall k :: k in b ==> r[k].winner == b[k].winner
    ensures forall k :: k in b && k.round == 0 ==> r[k] == b[k]
    ensures forall k, s :: k in b && SlotValue(r[k], s) != SlotValue(b[k], s) ==>
              exists src :: src in b && Destination(src) == k && DestinationSlot(src) == s
                            && b[src].winner.Some? && b[src].winner == SlotValue(r[k], s)
  {
    var r := AfterWrites(b, b.Keys);
    forall k, s | k in b && SlotValue(r[k], s) != SlotValue(b[k], s)
      ensures exists src :: src in b && Destination(src) == k && DestinationSlot(src) == s
                            && b[src].winner.Some? && b[src].winner == SlotValue(r[k], s)
    {
      var src := Feeder(k, s).value;
      FeederIsInverseOfDestination(src, k, s);
    }
    r
  }

  /** One write of the loop: the loaded winner of `src` into its destination
      slot of `r`, provided the winner is set and the destination row exists. */
  function WriteWinner(b: Bracket, r: Bracket, src: Key): Bracket
    requires src in b
  {
    var w := b[src].winner;
    var d := Destination(src);
    if w.Some? && d in b && d in r then r[d := WithSlot(r[d], DestinationSlot(src), w)] else r
  }

  lemma FedStep(b: Bracket, done: set<Key>, src: Key, k: Key, s: Slot)
    requires src in b
    ensures Fed(b, done + {src}, k, s) ==
              if Feeder(k, s) == Some(src) then b[src].winner else Fed(b, done, k, s)
  {
  }

  /** Carrying out one more source's write is the loop's single update. */
  lemma WriteStep(b: Bracket, done: set<Key>, src: Key)
    requires src in b
    ensures AfterWrites(b, done + {src}) == WriteWinner(b, AfterWrites(b, done), src)
  {
    var before := AfterWrites(b, done);
    var after := AfterWrites(b, done + {src});
    var stepped := WriteWinner(b, before, src);
    assert after.Keys == stepped.Keys;
    forall k | k in b
      ensures after[k] == stepped[k]
    {
      FedStep(b, done, src, k, A);
      FedStep(b, done, src, k, B);
      FeederIsInverseOfDestination(src, k, A);
      FeederIsInverseOfDestination(src, k, B);
    }
  }

  /** Sources whose destination row does not exist write nothing: two sets
      of sources that agree on every source with a destination row make the
      same writes. */
  lemma WritesBeyondReachIrrelevant(b: Bracket, done: set<Key>, other: set<Key>)
    requires forall src :: src in b && Destination(src) in b ==> (src in done <==> src in other)
    ensures AfterWrites(b, done) == AfterWrites(b, other)
  {
    forall k, s | k in b
      ensures Fed(b, done, k, s) == Fed(b, other, k, s)
    {
      if Feeder(k, s).Some? {
        FeederIsInverseOfDestination(Feeder(k, s).value, k, s);
      }
    }
  }

  /** Every decided match's winner lands in its destination slot. */
  lemma PropagationDelivers(b: Bracket, src: Key)
    requires src in b && b[src].winner.Some? && Destination(src) in b
    ensures SlotValue(Propagated(b)[Destination(src)], DestinationSlot(src)) == b[src].winner
  {
    var d := Destination(src);
    FeederIsInverseOfDestination(src, d, DestinationSlot(src));
    assert Fed(b, b.Keys, d, DestinationSlot(src)) == b[src].winner;
  }

  /** Running propagation twice in a row is the same as running it once. */
  lemma PropagationIdempotent(b: Bracket)
    ensures Propagated(Propagated(b)) == Propagated(b)
  {
    var p := Propagated(b);
    var pp := Propagated(p);
    forall k | k in b
      ensures pp[k] == p[k]
    {
      assert Fed(p, p.Keys, k, A) == Fed(b, b.Keys, k, A);
      assert Fed(p, p.Keys, k, B) == Fed(b, b.Keys, k, B);
    }
  }

  /** `k` is the only match of the highest round. */
  predicate IsFinal(b: Bracket, k: Key)
  {
    && k in b
    && (forall k' :: k' in b ==> k'.round <= k.round)
    && (forall k' :: k' in b && k'.round == k.round ==> k' == k)
  }

  lemma SingletonSet<T>(s: set<T>)
    requires |s| == 1
    ensures exists x :: s == {x}
  {
    var x :| x in s;
    assert |s - {x}| == 0;
    assert s == {x};
  }

  /** The champion reported by the completion check, if the tournament is
      finished: the winner of the sole match of the highest round. */
  function Champion(b: Bracket): (r: Option<TeamId>)
    ensures r.Some? ==> exists k :: IsFinal(b, k) && b[k].winner == r
    ensures forall k :: IsFinal(b, k) ==> r == b[k].winner
  {
    if b == map[] then None
    else
      var top := MaxRound(b);
      var finals := RoundKeys(b, top);
      if |finals| == 1 then
        SingletonSet(finals);
        var f :| f in finals;
        assert IsFinal(b, f);
        b[f].winner
      else
        assert forall k :: IsFinal(b, k) ==> finals == {k};
        None
  }

  /** Completion depends only on keys and winners, which propagation keeps,
      so checking the loaded rows or the propagated ones agrees. */
  lemma ChampionUnaffectedByPropagation(b: Bracket)
    ensures Champion(Propagated(b)) == Champion(b)
  {
    var p := Propagated(b);
    forall k ensures IsFinal(p, k) <==> IsFinal(b, k) {
    }
  }

  /** A round with no successor round has no source whose destination exists. */
  lemma NoDestinationsFrom(b: Bracket, round: nat)
    requires round + 1 !in Rounds(b)
    ensures forall src :: src in b && src.round == round ==> Destination(src) !in b
  {
    forall src | src in b && src.round == round
      ensures Destination(src) !in b
    {
      if Destination(src) in b {
        RoundOfKey(b, Destination(src));
      }
    }
  }

  /** The rows of `b` below round `g`. */
  function KeysBelow(b: Bracket, g: nat): (ks: set<Key>)
    ensures forall k :: k in ks <==> k in b && k.round < g
  {
    set k | k in b && k.round < g
  }

  /** The rows the propagation routine leaves behind. Without a gap it makes
      every write. At the first gap it fails: only the writes of the rounds
      below the gap have been made, each already committed. */
  function Swept(b: Bracket): (r: Bracket)
    ensures r.Keys == b.Keys
    ensures forall k :: k in b ==> r[k].winner == b[k].winner
    ensures FirstGap(b).None? ==> r == Propagated(b)
    ensures FirstGap(b).Some? ==>
              forall k, s :: k in b && Feeder(k, s).Some? && Feeder(k, s).value.round >= FirstGap(b).value ==>
                SlotValue(r[k], s) == SlotValue(b[k], s)
    ensures FirstGap(b).Some? ==>
              forall src :: src in b && src.round < FirstGap(b).value && b[src].winner.Some? && Destination(src) in b ==>
                SlotValue(r[Destination(src)], DestinationSlot(src)) == b[src].winner
    ensures forall k :: k in b && k.round == 0 ==> r[k] == b[k]
    ensures FirstGap(b).Some? ==>
              forall k, s :: k in b && SlotValue(r[k], s) != SlotValue(b[k], s) ==>
                exists src :: src in b && src.round < FirstGap(b).value && Destination(src) == k
                              && DestinationSlot(src) == s && b[src].winner.Some? && b[src].winner == SlotValue(r[k], s)
  {
    match FirstGap(b)
    case None => Propagated(b)
    case Some(g) =>
      BelowGapDelivered(b, g);
      AboveGapUntouched(b, g);
      BelowGapTraced(b, g);
      AfterWrites(b, KeysBelow(b, g))
  }

  lemma BelowGapDelivered(b: Bracket, g: nat)
    ensures forall src :: src in b && src.round < g && b[src].winner.Some? && Destination(src) in b ==>
              SlotValue(AfterWrites(b, KeysBelow(b, g))[Destination(src)], DestinationSlot(src)) == b[src].winner
  {
    var r := AfterWrites(b, KeysBelow(b, g));
    forall src | src in b && src.round < g && b[src].winner.Some? && Destination(src) in b
      ensures SlotValue(r[Destination(src)], DestinationSlot(src)) == b[src].winner
    {
      var d := Destination(src);
      FeederIsInverseOfDestination(src, d, DestinationSlot(src));
      assert Fed(b, KeysBelow(b, g), d, DestinationSlot(src)) == b[src].winner;
    }
  }

  lemma AboveGapUntouched(b: Bracket, g: nat)
    ensures forall k, s :: k in b && Feeder(k, s).Some? && Feeder(k, s).value.round >= g ==>
              SlotValue(AfterWrites(b, KeysBelow(b, g))[k], s) == SlotValue(b[k], s)
  {
    forall k, s | k in b && Feeder(k, s).Some? && Feeder(k, s).value.round >= g
      ensures SlotValue(AfterWrites(b, KeysBelow(b, g))[k], s) == SlotValue(b[k], s)
    {
      assert Fed(b, KeysBelow(b, g), k, s) == None;
    }
  }

  /** At a gap every changed slot comes from a decided source below it, and
      round 0, which no source feeds, keeps its rows. */
  lemma BelowGapTraced(b: Bracket, g: nat)
    ensures forall k :: k in b && k.round == 0 ==> AfterWrites(b, KeysBelow(b, g))[k] == b[k]
    ensures forall k, s :: k in b && SlotValue(AfterWrites(b, KeysBelow(b, g))[k], s) != SlotValue(b[k], s) ==>
              exists src :: src in b && src.round < g && Destination(src) == k
                            && DestinationSlot(src) == s && b[src].winner.Some?
                            && b[src].winner == SlotValue(AfterWrites(b, KeysBelow(b, g))[k], s)
  {
    var r := AfterWrites(b, KeysBelow(b, g));
    forall k | k in b && k.round == 0
      ensures r[k] == b[k]
    {
      assert Fed(b, KeysBelow(b, g), k, A) == None;
      assert Fed(b, KeysBelow(b, g), k, B) == None;
    }
    forall k, s | k in b && SlotValue(r[k], s) != SlotValue(b[k], s)
      ensures exists src :: src in b && src.round < g && Destination(src) == k
                            && DestinationSlot(src) == s && b[src].winner.Some? && b[src].winner == SlotValue(r[k], s)
    {
      var src := Feeder(k, s).value;
      FeederIsInverseOfDestination(src, k, s);
    }
  }

  /** Two brackets with the same rows have the same gaps. */
  lemma SameKeysSameGap(b: Bracket, p: Bracket)
    requires p.Keys == b.Keys
    ensures FirstGap(p) == FirstGap(b)
  {
    assert Rounds(p) == Rounds(b);
    assert forall r: nat :: Gap(p, r) == Gap(b, r);
  }

  /** Making the writes of the same sources a second time changes nothing. */
  lemma RewriteBelowChangesNothing(b: Bracket, g: nat)
    ensures AfterWrites(AfterWrites(b, KeysBelow(b, g)), KeysBelow(b, g)) == AfterWrites(b, KeysBelow(b, g))
  {
    var done := KeysBelow(b, g);
    var p := AfterWrites(b, done);
    var pp := AfterWrites(p, done);
    forall k | k in b
      ensures pp[k] == p[k]
    {
      assert Fed(p, done, k, A) == Fed(b, done, k, A);
      assert Fed(p, done, k, B) == Fed(b, done, k, B);
    }
  }

  /** Running the routine again over the rows it left behind, whether it
      failed at a gap or not, changes nothing more. */
  lemma SweptIdempotent(b: Bracket)
    ensures Swept(Swept(b)) == Swept(b)
  {
    var p := Swept(b);
    SameKeysSameGap(b, p);
    match FirstGap(b)
    case None =>
      PropagationIdempotent(b);
    case Some(g) =>
      assert p == AfterWrites(b, KeysBelow(b, g));
      assert KeysBelow(p, g) == KeysBelow(b, g);
      RewriteBelowChangesNothing(b, g);
  }

  /** The inner loop of `propagate_winner` over the matches of one round:
      exactly the matches of that round make their writes. */
  method DeliverRound(b: Bracket, round: nat, r0: Bracket, ghost done0: set<Key>)
    returns (r: Bracket, ghost done: set<Key>)
    requires r0 == AfterWrites(b, done0)
    ensures r == AfterWrites(b, done)
    ensures done0 + RoundKeys(b, round) <= done
    ensures done <= done0 + RoundKeys(b, round)
  {
    r := r0;
    done := done0;
    var todo := RoundKeys(b, round);
    while todo != {}
      invariant todo <= RoundKeys(b, round)
      invariant done0 + (RoundKeys(b, round) - todo) <= done
      invariant done <= done0 + RoundKeys(b, round)
      invariant r == AfterWrites(b, done)
      decreases todo
    {
      var src :| src in todo;
      WriteStep(b, done, src);
      r := WriteWinner(b, r, src);
      done := done + {src};
      todo := todo - {src};
    }
  }

  /** `done` holds only sources below `round`, and all of them that have a
      destination row. */
  predicate DoneBelow(b: Bracket, done: set<Key>, round: nat)
  {
    && (forall src :: src in done ==> src in b && src.round < round)
    && (forall src :: src in b && src.round < round && Destination(src) in b ==> src in done)
  }

  lemma DoneAfterRound(b: Bracket, before: set<Key>, after: set<Key>, round: nat)
    requires DoneBelow(b, before, round)
    requires before + RoundKeys(b, round) <= after <= before + RoundKeys(b, round)
    ensures DoneBelow(b, after, round + 1)
  {
  }

  /** The state in which the loop fails: the first gap, with every source
      below it having made its write. */
  lemma StopsAtGap(b: Bracket, done: set<Key>, round: nat)
    requires b != map[] && round < MaxRound(b)
    requires Gap(b, round)
    requires FirstGap(b) == GapFrom(b, round)
    requires DoneBelow(b, done, round)
    ensures FirstGap(b) == Some(round)
    ensures AfterWrites(b, done) == Swept(b)
  {
    WritesBeyondReachIrrelevant(b, done, KeysBelow(b, round));
  }

  /** The state in which the loop ends normally: no gap anywhere, and every
      source with a destination row has made its write. */
  lemma RunsToEnd(b: Bracket, done: set<Key>)
    requires b != map[]
    requires FirstGap(b) == GapFrom(b, MaxRound(b))
    requires DoneBelow(b, done, MaxRound(b))
    ensures FirstGap(b) == None
    ensures AfterWrites(b, done) == Swept(b)
  {
    WritesBeyondReachIrrelevant(b, done, b.Keys);
  }

  /** `propagate_winner`: the loop over rounds below the highest one, each
      with a successor round, followed by the completion check. Looking up a
      missing round whose successor exists fails (`failed`): the writes made
      so far stay and the completion check is not reached. */
  method PropagateWinner(b: Bracket) returns (r: Bracket, champion: Option<TeamId>, failed: bool)
    ensures failed <==> FirstGap(b).Some?
    ensures r == Swept(b)
    ensures champion == if failed then None else Champion(b)
  {
    r := b;
    champion := None;
    failed := false;
    if b == map[] {
      assert AfterWrites(b, b.Keys) == b;
      return;
    }
    var maxRound := MaxRound(b);
    var rounds := Rounds(b);
    ghost var done: set<Key> := {};
    assert AfterWrites(b, {}) == b;
    var round := 0;
    while round < maxRound
      invariant round <= maxRound
      invariant FirstGap(b) == GapFrom(b, round)
      invariant DoneBelow(b, done, round)
      invariant r == AfterWrites(b, done)
    {
      if round + 1 in rounds {
        if round !in rounds {
          StopsAtGap(b, done, round);
          failed := true;
          return;
        }
        assert !Gap(b, round);
        ghost var before := done;
        r, done := DeliverRound(b, round, r, done);
        DoneAfterRound(b, before, done, round);
      } else {
        assert !Gap(b, round);
        NoDestinationsFrom(b, round);
      }
      round := round + 1;
    }
    RunsToEnd(b, done);
    champion := Champion(b);
  }
}
