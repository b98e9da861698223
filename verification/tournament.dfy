/**
 * The bracket rows of every tournament, and the two bracket operations that
 * change them: regenerating a tournament's bracket, and the winner button
 * handler (selection followed by propagation). Also the consequences of
 * running the engine as written from a generated bracket. Rows also vanish
 * when a team is deleted (foreign-key cascade); that is not modelled here.
 */
module Tournament {
  import opened Wrappers
  import opened Brackets
  import opened Generation
  import opened Selection
  import opened Propagation

  type TournamentId = nat

  /** `bracket_matches`, grouped by `tournament_id`. */
  type Store = map<TournamentId, Bracket>

  /** The rows of one tournament; a tournament with no entry has no rows. */
  function MatchesOf(s: Store, tid: TournamentId): Bracket
  {
    if tid in s then s[tid] else map[]
  }

  /** `generate_bracket`: deletes the tournament's rows and inserts the
      pairing of the shuffled list `order` (the shuffle is a parameter);
      other tournaments keep their rows. */
  method GenerateBracket(s: Store, tid: TournamentId, order: seq<TeamId>) returns (s': Store)
    ensures MatchesOf(s', tid) == Pairing(order)
    ensures forall t :: t != tid ==> MatchesOf(s', t) == MatchesOf(s, t)
  {
    var rows := Generate(order);
    s' := s[tid := rows];
  }

  /** What a winner button press leads to: rejected with nothing written;
      decided, with the propagated rows and the champion the completion check
      reports (if any); or failed inside propagation at a missing round,
      after the winner and the writes below that round were committed. */
  datatype CallbackOutcome =
    | Rejected(error: SelectError)
    | Decided(store: Store, champion: Option<TeamId>)
    | Failed(store: Store)

  /** The winner button handler: selection, then propagation of the
      tournament. */
  method WinnerCallback(s: Store, tid: TournamentId, k: Key, side: string, registered: set<TeamId>)
    returns (res: CallbackOutcome)
    ensures k !in MatchesOf(s, tid) ==> res == Rejected(MatchNotFound)
    ensures res.Rejected? <==> Select(MatchesOf(s, tid), k, side, registered).Failure?
    ensures res.Rejected? ==> res.error == Select(MatchesOf(s, tid), k, side, registered).error
    ensures !res.Rejected? ==>
              var decided := Select(MatchesOf(s, tid), k, side, registered).value;
              && MatchesOf(res.store, tid) == Swept(decided)
              && (forall t :: t != tid ==> MatchesOf(res.store, t) == MatchesOf(s, t))
              && (res.Failed? <==> FirstGap(decided).Some?)
              && (res.Decided? ==> res.champion == Champion(decided))
  {
    var selected := Select(MatchesOf(s, tid), k, side, registered);
    if selected.Failure? {
      return Rejected(selected.error);
    }
    var propagated, champion, failed := PropagateWinner(selected.value);
    var store := s[tid := propagated];
    assert MatchesOf(store, tid) == propagated;
    assert forall t :: t != tid ==> MatchesOf(store, t) == MatchesOf(s, t);
    if failed {
      res := Failed(store);
    } else {
      res := Decided(store, champion);
    }
  }

  /** One administrator button press. */
  datatype Press = Press(key: Key, side: string)

  /** The rows of one tournament after the winner presses `ps` in order,
      each followed by propagation; rejected presses leave the rows as they
      were. */
  function Replay(b: Bracket, ps: seq<Press>, registered: set<TeamId>): Bracket
    decreases |ps|
  {
    if ps == [] then b
    else
      var next := match Select(b, ps[0].key, ps[0].side, registered)
                  case Success(decided) => Swept(decided)
                  case Failure(_) => b;
      Replay(next, ps[1..], registered)
  }

  /** No press or propagation ever adds or removes a match row. */
  lemma {:induction false} ReplayKeepsRows(b: Bracket, ps: seq<Press>, registered: set<TeamId>)
    ensures Replay(b, ps, registered).Keys == b.Keys
    decreases |ps|
  {
    if ps != [] {
      var next := match Select(b, ps[0].key, ps[0].side, registered)
                  case Success(decided) => Swept(decided)
                  case Failure(_) => b;
      ReplayKeepsRows(next, ps[1..], registered);
    }
  }

  /** Generation creates no later round, so with three or more teams the
      highest round is round 0 with at least two matches: whatever winner
      buttons the administrator presses, the completion check never reports
      a champion. */
  lemma NoChampionFromThreeTeams(order: seq<TeamId>, ps: seq<Press>, registered: set<TeamId>)
    requires |order| >= 3
    ensures Champion(Replay(Pairing(order), ps, registered)) == None
  {
    var start := Pairing(order);
    var end := Replay(start, ps, registered);
    ReplayKeepsRows(start, ps, registered);
    assert Key(0, 0) in end && Key(0, 1) in end;
    forall k | k in end
      ensures !IsFinal(end, k)
    {
      assert k.round == 0;
      var other := if k == Key(0, 0) then Key(0, 1) else Key(0, 0);
      assert other in end && other.round == k.round && other != k;
    }
  }

  /** With two teams the single round-0 match is also the final: deciding it
      finishes the tournament with the chosen team as champion. */
  lemma TwoTeamsFinishAfterOneDecision(order: seq<TeamId>, registered: set<TeamId>, side: string)
    requires |order| == 2
    requires order[0] in registered && order[1] in registered
    requires side == "A" || side == "B"
    ensures Champion(Replay(Pairing(order), [Press(Key(0, 0), side)], registered))
            == Some(if side == "A" then order[0] else order[1])
  {
    var start := Pairing(order);
    assert start.Keys == {Key(0, 0)};
    var decided := Select(start, Key(0, 0), side, registered).value;
    var end := Propagated(decided);
    assert Replay(start, [Press(Key(0, 0), side)], registered) == Replay(end, [], registered);
    assert IsFinal(end, Key(0, 0));
  }

  /** A freshly generated bracket has only round 0, so the propagation loop
      cannot fail on it and writes nothing. */
  lemma PropagationOverGeneratedIsIdentity(order: seq<TeamId>)
    ensures FirstGap(Pairing(order)) == None
    ensures Swept(Pairing(order)) == Pairing(order)
  {
    var b := Pairing(order);
    assert forall k :: k in Propagated(b) ==> Propagated(b)[k] == b[k];
  }

  /** Rows restored with round 0 missing: the loop fails at round 0 before
      the completion check, although the sole match of the highest round is
      decided. */
  lemma MissingRoundZeroStopsCompletion()
    ensures var b := map[Key(1, 0) := Match(Some(1), Some(2), Some(1))];
            FirstGap(b) == Some(0) && Champion(b) == Some(1) && Swept(b) == b
  {
    var b := map[Key(1, 0) := Match(Some(1), Some(2), Some(1))];
    assert Rounds(b) == {1};
    assert Gap(b, 0);
    assert IsFinal(b, Key(1, 0));
    assert AfterWrites(b, KeysBelow(b, 0)) == b;
  }

  /** Rows in rounds 0, 2 and 3: the loop fails at the missing round 1, so
      the decided round-2 match never reaches round 3, while round 0 has no
      successor round to write into. */
  lemma MissingMiddleRoundStopsLaterWrites()
    ensures var b := map[Key(0, 0) := Match(Some(1), Some(2), Some(1)),
                         Key(2, 0) := Match(Some(3), Some(4), Some(3)),
                         Key(3, 0) := Match(None, None, None)];
            FirstGap(b) == Some(1) && Swept(b)[Key(3, 0)].teamA == None
            && Propagated(b)[Key(3, 0)].teamA == Some(3)
  {
    var b := map[Key(0, 0) := Match(Some(1), Some(2), Some(1)),
                 Key(2, 0) := Match(Some(3), Some(4), Some(3)),
                 Key(3, 0) := Match(None, None, None)];
    assert Rounds(b) == {0, 2, 3};
    assert !Gap(b, 0) && Gap(b, 1);
    PropagationDelivers(b, Key(2, 0));
  }

  /** Propagation never sets a winner, so a bye match (empty B slot) is never
      resolved by it: its winner stays unset until a press of side A. */
  lemma ByeNotAutoResolved(b: Bracket, k: Key)
    requires k in b && b[k].teamB.None? && b[k].winner.None?
    ensures Propagated(b)[k].winner.None?
    ensures k.round == 0 ==> !Offered(Propagated(b)[k])
  {
  }
}
