/**
 * Bracket generation: the shuffled team list is paired up, consecutive
 * teams forming the round-0 matches 0, 1, 2, ...; an odd team out gets a
 * match with an empty B slot. Nothing is padded and no later round is
 * created.
 */
module Generation {
  import opened Wrappers
  import opened Brackets

  /** Number of round-0 matches produced for `n` teams: ceil(n / 2). */
  function MatchCount(n: nat): nat
  {
    (n + 1) / 2
  }

  /** The keys of round-0 matches 0 .. c - 1. */
  function RoundZeroKeys(c: nat): (ks: set<Key>)
    ensures forall k :: k in ks <==> k.round == 0 && k.index < c
  {
    set j | 0 <= j < c :: Key(0, j)
  }

  lemma {:induction false} RoundZeroKeysCount(c: nat)
    ensures |RoundZeroKeys(c)| == c
  {
    if c == 0 {
      assert RoundZeroKeys(0) == {};
    } else {
      RoundZeroKeysCount(c - 1);
      assert RoundZeroKeys(c) == RoundZeroKeys(c - 1) + {Key(0, c - 1)};
    }
  }

  /** Round-0 match `j` of the list `order`: teams 2j and 2j+1, the second
      absent when the list ends first. */
  function PairAt(order: seq<TeamId>, j: nat): Match
    requires 2 * j < |order|
  {
    Match(Some(order[2 * j]), if 2 * j + 1 < |order| then Some(order[2 * j + 1]) else None, None)
  }

  /** The first `c` round-0 matches of `order`. */
  function PartialPairing(order: seq<TeamId>, c: nat): Bracket
    requires c <= MatchCount(|order|)
  {
    map k | k in RoundZeroKeys(c) :: PairAt(order, k.index)
  }

  /** The bracket that generation writes for the shuffled list `order`. */
  function Pairing(order: seq<TeamId>): (b: Bracket)
    ensures forall k :: k in b <==> k.round == 0 && k.index < MatchCount(|order|)
    ensures forall k :: k in b ==> b[k].teamA.Some? && b[k].winner.None?
    ensures forall k :: k in b ==>
              (b[k].teamB.None? <==> |order| % 2 == 1 && k.index == MatchCount(|order|) - 1)
  {
    PartialPairing(order, MatchCount(|order|))
  }

  /** The generation loop (`for i in range(0, len(teams), 2)`) over the
      already shuffled list; the result replaces every earlier row. */
  method Generate(order: seq<TeamId>) returns (b: Bracket)
    ensures b == Pairing(order)
  {
    b := map[];
    var i := 0;
    var matchIndex := 0;
    while i < |order|
      invariant i == 2 * matchIndex
      invariant matchIndex <= MatchCount(|order|)
      invariant i < |order| ==> matchIndex < MatchCount(|order|)
      invariant b == PartialPairing(order, matchIndex)
    {
      var teamA := order[i];
      var teamB := if i + 1 < |order| then Some(order[i + 1]) else None;
      b := b[Key(0, matchIndex) := Match(Some(teamA), teamB, None)];
      matchIndex := matchIndex + 1;
      i := i + 2;
    }
  }

  /** The teams of one match, slot A then slot B, skipping empty slots. */
  function SlotTeams(m: Match): seq<TeamId>
  {
    (if m.teamA.Some? then [m.teamA.value] else []) + (if m.teamB.Some? then [m.teamB.value] else [])
  }

  /** The round-0 slots of matches 0 .. c - 1 read left to right, skipping
      empty slots and missing matches. */
  function Entrants(b: Bracket, c: nat): seq<TeamId>
  {
    if c == 0 then []
    else Entrants(b, c - 1) + (if Key(0, c - 1) in b then SlotTeams(b[Key(0, c - 1)]) else [])
  }

  function Min(x: nat, y: nat): nat
  {
    if x <= y then x else y
  }

  /** The round-0 matches 0 .. c - 1 of `b` are those of the pairing of `order`. */
  predicate PairsOf(b: Bracket, order: seq<TeamId>, c: nat)
    requires c <= MatchCount(|order|)
  {
    forall j: nat :: j < c ==> Key(0, j) in b && b[Key(0, j)] == PairAt(order, j)
  }

  /** The teams of pair `j` extend the first 2j teams of `order` to the
      first 2j + 2 (or to all of them, at the end of the list). */
  lemma PairExtendsPrefix(order: seq<TeamId>, j: nat)
    requires 2 * j < |order|
    ensures order[..2 * j] + SlotTeams(PairAt(order, j)) == order[..Min(2 * j + 2, |order|)]
  {
    var i := 2 * j;
    assert order[..i + 1] == order[..i] + [order[i]];
    if i + 1 < |order| {
      assert order[..i + 2] == order[..i + 1] + [order[i + 1]];
    }
  }

  lemma {:induction false} EntrantsPrefix(b: Bracket, order: seq<TeamId>, c: nat)
    requires c <= MatchCount(|order|)
    requires PairsOf(b, order, c)
    ensures Entrants(b, c) == order[..Min(2 * c, |order|)]
  {
    if c > 0 {
      var j := c - 1;
      assert PairsOf(b, order, j);
      EntrantsPrefix(b, order, j);
      assert Min(2 * j, |order|) == 2 * j;
      assert b[Key(0, j)] == PairAt(order, j);
      PairExtendsPrefix(order, j);
    }
  }

  /** Reading the generated round-0 slots left to right gives back exactly
      the shuffled list. */
  lemma EntrantsRoundTrip(order: seq<TeamId>)
    ensures Entrants(Pairing(order), MatchCount(|order|)) == order
  {
    var c := MatchCount(|order|);
    assert PairsOf(Pairing(order), order, c);
    EntrantsPrefix(Pairing(order), order, c);
    assert order[..|order|] == order;
  }

  /** Generation yields exactly ceil(n / 2) matches. */
  lemma PairingSize(order: seq<TeamId>)
    ensures |Pairing(order)| == MatchCount(|order|)
  {
    var b := Pairing(order);
    assert b.Keys == RoundZeroKeys(MatchCount(|order|));
    RoundZeroKeysCount(MatchCount(|order|));
  }

  /** When `order` is a shuffle of the registered teams (distinct primary
      keys), every registered team sits in exactly one round-0 slot and no
      other team appears. */
  lemma EachTeamOnce(registered: seq<TeamId>, order: seq<TeamId>)
    requires multiset(order) == multiset(registered)
    requires forall i, j :: 0 <= i < j < |registered| ==> registered[i] != registered[j]
    ensures forall t :: t in registered ==> multiset(Entrants(Pairing(order), MatchCount(|order|)))[t] == 1
    ensures forall t :: t in Entrants(Pairing(order), MatchCount(|order|)) ==> t in registered
  {
    EntrantsRoundTrip(order);
    DistinctCountsOne(registered);
    forall t | t in order
      ensures t in registered
    {
      assert t in multiset(order);
    }
  }

  lemma {:induction false} DistinctCountsOne(s: seq<TeamId>)
    requires forall i, j :: 0 <= i < j < |s| ==> s[i] != s[j]
    ensures forall t :: t in s ==> multiset(s)[t] == 1
  {
    if s != [] {
      var rest := s[1..];
      DistinctCountsOne(rest);
      assert s == [s[0]] + rest;
      forall j | 0 <= j < |rest|
        ensures rest[j] != s[0]
      {
        assert rest[j] == s[j + 1];
      }
      assert s[0] !in rest;
      forall t | t in s
        ensures multiset(s)[t] == 1
      {
        if t != s[0] {
          assert t in rest;
        }
      }
    }
  }
}
