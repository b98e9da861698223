/**
 * Winner selection: the administrator's button press `win_<match>_<side>`
 * names a match and a side; the side is accepted only when that slot is
 * occupied, and the match's winner is then set to that team. A decided
 * match may be decided again: the winner is simply overwritten.
 */
module Selection {
  import opened Wrappers
  import opened Brackets
  import opened Generation

  /** Why a button press was rejected: no such match row, a side that is not
      "A"/"B" or names an empty slot, or a winner id missing from the teams
      table. */
  datatype SelectError = MatchNotFound | InvalidSelection | TeamNotFound

  /** The team a press of `side` picks in `m`, if that side is a real slot. */
  function ChosenTeam(m: Match, side: string): Option<TeamId>
  {
    if side == "A" && m.teamA.Some? then m.teamA
    else if side == "B" && m.teamB.Some? then m.teamB
    else None
  }

  /** Records the winner chosen by `side` for match `k`; `registered` is the
      set of ids in the teams table. */
  function Select(b: Bracket, k: Key, side: string, registered: set<TeamId>): (r: Result<Bracket, SelectError>)
    ensures k !in b ==> r == Failure(MatchNotFound)
    ensures k in b && !(side == "A" && b[k].teamA.Some?) && !(side == "B" && b[k].teamB.Some?) ==>
              r == Failure(InvalidSelection)
    ensures k in b && ChosenTeam(b[k], side).Some? && ChosenTeam(b[k], side).value !in registered ==>
              r == Failure(TeamNotFound)
    ensures r.Success? <==>
              k in b && ((side == "A" && b[k].teamA.Some? && b[k].teamA.value in registered)
                      || (side == "B" && b[k].teamB.Some? && b[k].teamB.value in registered))
    ensures r.Success? ==>
              && r.value.Keys == b.Keys
              && (forall k' :: k' in b && k' != k ==> r.value[k'] == b[k'])
              && r.value[k].teamA == b[k].teamA
              && r.value[k].teamB == b[k].teamB
              && r.value[k].winner.Some?
              && r.value[k].winner == (if side == "A" then b[k].teamA else b[k].teamB)
  {
    if k !in b then Failure(MatchNotFound)
    else
      var chosen := ChosenTeam(b[k], side);
      if chosen.None? then Failure(InvalidSelection)
      else if chosen.value !in registered then Failure(TeamNotFound)
      else Success(b[k := b[k].(winner := chosen)])
  }

  /** A match gets decision buttons only while undecided with both slots filled. */
  predicate Offered(m: Match)
  {
    m.winner.None? && m.teamA.Some? && m.teamB.Some?
  }

  /** Both buttons of an offered match are accepted, and the press takes the
      match off the offer list. */
  lemma OfferedChoicesAccepted(b: Bracket, k: Key, registered: set<TeamId>)
    requires k in b && Offered(b[k])
    requires b[k].teamA.value in registered && b[k].teamB.value in registered
    ensures Select(b, k, "A", registered).Success?
    ensures Select(b, k, "B", registered).Success?
    ensures !Offered(Select(b, k, "A", registered).value[k])
    ensures !Offered(Select(b, k, "B", registered).value[k])
  {
  }

  /** In a freshly generated bracket, a match is offered exactly when it has a
      B team, i.e. every match except the bye of an odd team count. */
  lemma GeneratedOffers(order: seq<TeamId>, k: Key)
    requires k in Pairing(order)
    ensures Offered(Pairing(order)[k]) <==> !(|order| % 2 == 1 && k.index == MatchCount(|order|) - 1)
  {
  }

  /** There is no already-decided check: a second press on a decided match
      replaces the winner. */
  lemma ReselectionOverwrites(b: Bracket, k: Key, registered: set<TeamId>)
    requires k in b && b[k].teamA.Some? && b[k].teamB.Some? && b[k].teamA != b[k].teamB
    requires b[k].teamA.value in registered && b[k].teamB.value in registered
    ensures var once := Select(b, k, "A", registered).value;
            Select(once, k, "B", registered).Success? &&
            Select(once, k, "B", registered).value[k].winner == b[k].teamB &&
            Select(once, k, "B", registered).value[k].winner != once[k].winner
  {
  }
}
