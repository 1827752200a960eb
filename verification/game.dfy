/** The game state and its rules: role allocation, the sheriff election, the
    day elimination and badge transfer, the night wolf-kill resolution and the
    win check. */
module WerewolfGame {
  import opened Types
  import opened Roles
  import opened Models
  import opened Roster
  import opened Tally
  import opened RoleActions
  import Shuffle

  datatype Game = Game(
    players: seq<Player>,
    dayCount: int,
    sheriff: Option<nat>,          // the seat `game.sheriff` refers to
    sheriffElect: bool,            // the election has been held
    wolfKillTarget: Option<string>,
    humanWolfVotes: Tally)         // wolf votes sent by human wolves tonight

  /** A game over the given seats, before anything has happened. */
  function NewGame(ps: seq<Player>): Game {
    Game(ps, 1, None, false, None, [])
  }

  // ---- role allocation ----

  /** Two wolves from five players up, otherwise one. */
  function WolfCount(n: nat): nat {
    if n >= 5 then 2 else 1
  }

  function Repeat(r: Role, k: nat): (s: seq<Role>)
    ensures |s| == k
  {
    if k == 0 then [] else [r] + Repeat(r, k - 1)
  }

  lemma {:induction false} RepeatCounts(r: Role, k: nat, x: Role)
    ensures multiset(Repeat(r, k))[x] == if x == r then k else 0
  {
    if k > 0 {
      RepeatCounts(r, k - 1, x);
      assert Repeat(r, k) == [r] + Repeat(r, k - 1);
    }
  }

  /** The roles dealt to `n` players before shuffling: the wolves, a seer, a
      witch, and villagers for the remaining seats (none when fewer than the
      special roles). */
  function Deck(n: nat): seq<Role> {
    var special := WolfCount(n) + 2;
    Repeat(Wolf, WolfCount(n)) + [Seer, NewWitch]
      + Repeat(Villager, if n > special then n - special else 0)
  }

  /** How often role `x` is in the deck for `n` players. */
  lemma DeckCount(n: nat, x: Role)
    ensures multiset(Deck(n))[x]
            == (if x == Wolf then WolfCount(n) else 0)
               + (if x == Seer then 1 else 0) + (if x == NewWitch then 1 else 0)
               + (if x == Villager && n > WolfCount(n) + 2 then n - WolfCount(n) - 2 else 0)
  {
    var v := if n > WolfCount(n) + 2 then n - WolfCount(n) - 2 else 0;
    var d1, d2, d3 := Repeat(Wolf, WolfCount(n)), [Seer, NewWitch], Repeat(Villager, v);
    assert Deck(n) == d1 + d2 + d3;
    assert multiset(Deck(n)) == multiset(d1) + multiset(d2) + multiset(d3);
    RepeatCounts(Wolf, WolfCount(n), x);
    RepeatCounts(Villager, v, x);
  }

  /** From three players up the deck has one card per player: the wolves, one
      seer, one fresh witch and villagers for the rest; no hunter is dealt. */
  lemma DeckCounts(n: nat)
    requires n >= 3
    ensures |Deck(n)| == n
    ensures multiset(Deck(n))[Wolf] == WolfCount(n)
    ensures multiset(Deck(n))[Seer] == 1
    ensures multiset(Deck(n))[NewWitch] == 1
    ensures multiset(Deck(n))[Villager] == n - WolfCount(n) - 2
    ensures forall x :: x !in {Wolf, Seer, NewWitch, Villager} ==> multiset(Deck(n))[x] == 0
  {
    DeckCount(n, Wolf);
    DeckCount(n, Seer);
    DeckCount(n, NewWitch);
    DeckCount(n, Villager);
    forall x | x !in {Wolf, Seer, NewWitch, Villager}
      ensures multiset(Deck(n))[x] == 0
    {
      DeckCount(n, x);
    }
  }

  /** There is a card for every player. */
  lemma DeckAtLeast(n: nat)
    ensures |Deck(n)| >= n
  {
  }

  lemma PrefixSubMultiset<T>(s: seq<T>, n: nat)
    requires n <= |s|
    ensures multiset(s[..n]) <= multiset(s)
  {
    assert s == s[..n] + s[n..];
  }

  /** Seat `j` takes card `j` (Python's `zip` stops at the shorter list). */
  function Deal(ps: seq<Player>, cards: seq<Role>): (qs: seq<Player>)
    requires |cards| >= |ps|
    ensures |qs| == |ps|
    ensures forall j :: 0 <= j < |ps| ==> qs[j] == ps[j].(role := Some(cards[j]))
  {
    seq(|ps|, j requires 0 <= j < |ps| => ps[j].(role := Some(cards[j])))
  }

  /** The roles of a fully dealt roster, seat by seat. */
  function RolesOf(ps: seq<Player>): (rs: seq<Role>)
    requires forall j :: 0 <= j < |ps| ==> ps[j].role.Some?
    ensures |rs| == |ps|
  {
    seq(|ps|, j requires 0 <= j < |ps| => ps[j].role.value)
  }

  /** The dealt roles are the first cards, one per seat. */
  lemma DealtRoles(ps: seq<Player>, cards: seq<Role>)
    requires |cards| >= |ps|
    ensures forall j :: 0 <= j < |ps| ==> Deal(ps, cards)[j].role.Some?
    ensures RolesOf(Deal(ps, cards)) == cards[..|ps|]
  {
  }

  /** `random_allocate`: shuffle the deck and deal it. Every player gets a role;
      from three players up the roles dealt are exactly the deck, whatever the
      shuffle drew, and with fewer players they are part of it. Nothing but the
      roles changes. */
  method RandomAllocate(g: Game, draw: nat -> nat) returns (r: Game)
    ensures |r.players| == |g.players|
    ensures forall j :: 0 <= j < |g.players| ==> r.players[j] == g.players[j].(role := r.players[j].role)
    ensures forall j :: 0 <= j < |r.players| ==> r.players[j].role.Some?
    ensures |g.players| >= 3 ==> multiset(RolesOf(r.players)) == multiset(Deck(|g.players|))
    ensures multiset(RolesOf(r.players)) <= multiset(Deck(|g.players|))
    ensures r.(players := g.players) == g
  {
    var n := |g.players|;
    DeckAtLeast(n);
    var cards := Shuffle.Shuffle(Deck(n), draw);
    var ps := Deal(g.players, cards);
    r := g.(players := ps);
    DealtRoles(g.players, cards);
    PrefixSubMultiset(cards, n);
    if n >= 3 {
      DeckCounts(n);
      assert cards[..n] == cards;
    }
  }

  // ---- the sheriff election ----

  /** Every tally is zero. */
  predicate NoVotes(ps: seq<Player>) {
    forall j :: 0 <= j < |ps| ==> ps[j].votes == 0
  }

  /** Every tally cleared, nothing else changed (`_reset_votes`). */
  function ClearVotes(g: Game): (r: Game)
    ensures NoVotes(r.players)
    ensures SameSeats(g.players, r.players) && SameAlive(g.players, r.players)
    ensures SameBadges(g.players, r.players)
    ensures r.(players := g.players) == g
  {
    g.(players := ResetVotes(g.players))
  }

  lemma ClearingClearedIsNoop(g: Game)
    requires NoVotes(g.players)
    ensures ClearVotes(g) == g
  {
    var ps := g.players;
    assert forall j :: 0 <= j < |ps| ==> ResetVotes(ps)[j] == ps[j];
    assert ResetVotes(ps) == ps;
  }

  /** Seat `i` wins the election: it takes the badge and becomes the sheriff,
      and the tallies are cleared. */
  function Crown(g: Game, i: nat): (r: Game)
    requires i < |g.players|
    ensures NoVotes(r.players)
    ensures SameSeats(g.players, r.players) && SameAlive(g.players, r.players)
    ensures r.sheriff == Some(i) && r.players[i].sheriff
    ensures forall j :: 0 <= j < |g.players| && j != i ==> r.players[j].sheriff == g.players[j].sheriff
    ensures r.(players := g.players, sheriff := g.sheriff) == g
  {
    g.(sheriff := Some(i), players := ResetVotes(GiveBadge(g.players, i)))
  }

  /** Round `round` of `elect_sheriff` and the rounds after it. It raises when
      nobody is alive (`max` of nothing). A unique leader among the alive takes
      the badge; otherwise the tallies are cleared and the next round looks at
      them again. */
  function ElectRounds(g: Game, round: nat): (r: Result<Game>)
    requires 1 <= round <= 3
    ensures r.Ok? <==> Any(g.players, Alive)
    decreases 3 - round
  {
    if !Any(g.players, Alive) then Fail(EmptyMax)
    else
      var c := Leaders(g.players);
      if |c| == 1 then Ok(Crown(g, c[0]))
      else if round == 3 then Ok(ClearVotes(g))
      else
        SameAliveSameSeats(g.players, ClearVotes(g).players, Alive);
        ElectRounds(ClearVotes(g), round + 1)
  }

  /** The alive filters look at alive flags only. */
  lemma SameAliveSameSeats(ps: seq<Player>, qs: seq<Player>, w: Want)
    requires SameAlive(ps, qs) && (w == Alive || w.AliveOther?)
    ensures Seats(ps, w) == Seats(qs, w)
    ensures Any(ps, w) == Any(qs, w)
  {
    SameAliveSameSeatsBelow(ps, qs, w, |ps|);
  }

  lemma {:induction false} SameAliveSameSeatsBelow(ps: seq<Player>, qs: seq<Player>, w: Want, n: nat)
    requires SameAlive(ps, qs) && (w == Alive || w.AliveOther?) && n <= |ps|
    ensures SeatsBelow(ps, w, n) == SeatsBelow(qs, w, n)
  {
    if n > 0 {
      SameAliveSameSeatsBelow(ps, qs, w, n - 1);
    }
  }

  /** With cleared tallies and two or more alive, nobody is strictly ahead. */
  lemma ClearedTieStaysTied(g: Game)
    requires Any(g.players, Alive) && |Seats(g.players, Alive)| >= 2
    ensures forall i: nat :: !UniqueLeader(ClearVotes(g).players, i)
  {
    var g' := ClearVotes(g);
    SameAliveSameSeats(g.players, g'.players, Alive);
    ZeroTallyLeaders(g'.players);
    LeadersSingleton(g'.players);
  }

  /** A unique leader wins the round at hand. */
  lemma LeaderWinsRound(g: Game, round: nat, i: nat)
    requires 1 <= round <= 3 && UniqueLeader(g.players, i)
    ensures ElectRounds(g, round) == Ok(Crown(g, i))
  {
    LeadersSingleton(g.players);
  }

  /** Without a unique leader no round elects anyone: the retry rounds look at
      cleared tallies, which tie every alive player. */
  lemma {:induction false} TieElectsNobody(g: Game, round: nat)
    requires 1 <= round <= 3 && Any(g.players, Alive)
    requires forall i: nat :: !UniqueLeader(g.players, i)
    ensures ElectRounds(g, round) == Ok(ClearVotes(g))
    decreases 3 - round
  {
    LeadersSingleton(g.players);
    assert |Leaders(g.players)| != 1;
    var g' := ClearVotes(g);
    if round < 3 {
      assert ElectRounds(g, round) == ElectRounds(g', round + 1);
      NoLeaderTwoAlive(g.players);
      ClearedTieStaysTied(g);
      SameAliveSameSeats(g.players, g'.players, Alive);
      TieElectsNobody(g', round + 1);
      ClearingClearedIsNoop(g');
    }
  }

  /** `elect_sheriff`: raises when nobody is alive. A unique leader after the
      collected votes becomes the sheriff and takes the badge, no other badge
      changes, and every tally is cleared on the way out. Without a unique
      leader nothing but the tallies changes: the retry rounds never elect. */
  function ElectSheriff(g: Game): (r: Result<Game>)
    ensures r.Ok? <==> Any(g.players, Alive)
    ensures r.Ok? ==> SameSeats(g.players, r.value.players) && SameAlive(g.players, r.value.players)
    ensures r.Ok? ==> NoVotes(r.value.players)
    ensures r.Ok? ==> r.value.(players := g.players, sheriff := g.sheriff) == g
    ensures r.Ok? ==> forall i: nat :: UniqueLeader(g.players, i) ==>
              && r.value.sheriff == Some(i) && r.value.players[i].sheriff
              && forall j :: 0 <= j < |g.players| && j != i ==>
                   r.value.players[j].sheriff == g.players[j].sheriff
    ensures r.Ok? && (forall i: nat :: !UniqueLeader(g.players, i)) ==>
              r.value == ClearVotes(g)
  {
    if Any(g.players, Alive) then
      LeadersSingleton(g.players);
      var c := Leaders(g.players);
      if |c| == 1 then
        SoleLeaderIsUnique(g.players);
        LeaderWinsRound(g, 1, c[0]);
        ElectRounds(g, 1)
      else
        TieElectsNobody(g, 1);
        ElectRounds(g, 1)
    else ElectRounds(g, 1)
  }

  /** A retry round starts from cleared tallies, so it elects somebody exactly
      when a single player is alive. */
  lemma RetryRoundElectsOnlyLoneSurvivor(g: Game)
    requires Any(g.players, Alive) && NoVotes(g.players)
    ensures |Seats(g.players, Alive)| == 1 ==>
              ElectRounds(g, 2) == Ok(Crown(g, Seats(g.players, Alive)[0]))
    ensures |Seats(g.players, Alive)| != 1 ==> ElectRounds(g, 2) == Ok(g)
  {
    if |Seats(g.players, Alive)| == 1 {
      LoneSurvivorLeads(g.players);
      LeaderWinsRound(g, 2, Seats(g.players, Alive)[0]);
    } else {
      assert |Seats(g.players, Alive)| >= 2;
      ClearedTieStaysTied(g);
      ClearingClearedIsNoop(g);
      TieElectsNobody(g, 2);
    }
  }

  // ---- the badge and the day vote ----

  /** `transfer_sheriff`: when some alive player lacks the badge, one of them
      (the draw decides which) receives it and becomes the sheriff; otherwise
      nothing changes. */
  function TransferSheriff(g: Game, pick: nat): (r: Game)
    ensures r.(players := g.players, sheriff := g.sheriff) == g
    ensures |r.players| == |g.players|
    ensures forall j :: 0 <= j < |g.players| ==>
              r.players[j] == g.players[j].(sheriff := r.players[j].sheriff)
    ensures !Any(g.players, AliveNonSheriff) ==> r == g
    ensures Any(g.players, AliveNonSheriff) ==>
              exists n :: 0 <= n < |g.players| && g.players[n].alive && !g.players[n].sheriff
                       && r.sheriff == Some(n) && r.players == GiveBadge(g.players, n)
  {
    var c := Seats(g.players, AliveNonSheriff);
    if |c| > 0 then
      var n := Pick(c, pick);
      g.(sheriff := Some(n), players := GiveBadge(g.players, n))
    else g
  }

  /** Every draw of the transfer is reachable. */
  lemma TransferReachesEveryone(g: Game, n: nat)
    requires n < |g.players| && g.players[n].alive && !g.players[n].sheriff
    ensures exists pick: nat :: TransferSheriff(g, pick).sheriff == Some(n)
  {
    var c := Seats(g.players, AliveNonSheriff);
    assert n in c;
    var k :| 0 <= k < |c| && c[k] == n;
    PickReachesAll(c, k);
    assert TransferSheriff(g, k).sheriff == Some(n);
  }

  /** Killing the badge holder leaves the same players eligible for the badge. */
  lemma KillingSheriffKeepsHeirs(ps: seq<Player>, k: nat)
    requires k < |ps| && ps[k].sheriff
    ensures Any(SetAlive(ps, k, false), AliveNonSheriff) == Any(ps, AliveNonSheriff)
  {
    var qs := SetAlive(ps, k, false);
    if Any(ps, AliveNonSheriff) {
      var j :| 0 <= j < |ps| && Wants(AliveNonSheriff, j, ps[j]);
      assert Wants(AliveNonSheriff, j, qs[j]);
    }
    if Any(qs, AliveNonSheriff) {
      var j :| 0 <= j < |qs| && Wants(AliveNonSheriff, j, qs[j]);
      assert Wants(AliveNonSheriff, j, ps[j]);
    }
  }

  /** The voted-out seat: it dies, and if it held the badge the badge may pass on. */
  function Eliminate(g: Game, k: nat, pick: nat): (r: Game)
    requires k < |g.players|
    ensures SameSeats(g.players, r.players) && SameVotes(g.players, r.players)
    ensures AliveOnlyAt(g.players, r.players, k, false)
    ensures r.(players := g.players, sheriff := g.sheriff) == g
    ensures forall j :: 0 <= j < |g.players| ==>
              r.players[j] == g.players[j].(alive := r.players[j].alive, sheriff := r.players[j].sheriff)
  {
    var g1 := g.(players := SetAlive(g.players, k, false));
    if g1.players[k].sheriff then TransferSheriff(g1, pick) else g1
  }

  /** What became of the badge when seat `k` is voted out: a non-holder leaves
      every flag alone; a holder keeps the flag, and the badge passes to some
      other alive non-holder when there is one. */
  lemma EliminateBadge(g: Game, k: nat, pick: nat)
    requires k < |g.players|
    ensures Eliminate(g, k, pick).players[k].sheriff == g.players[k].sheriff
    ensures !g.players[k].sheriff ==>
              SameBadges(g.players, Eliminate(g, k, pick).players)
              && Eliminate(g, k, pick).sheriff == g.sheriff
    ensures g.players[k].sheriff && !Any(g.players, AliveNonSheriff) ==>
              SameBadges(g.players, Eliminate(g, k, pick).players)
              && Eliminate(g, k, pick).sheriff == g.sheriff
    ensures g.players[k].sheriff && Any(g.players, AliveNonSheriff) ==>
              exists n :: 0 <= n < |g.players| && n != k && g.players[n].alive && !g.players[n].sheriff
                       && Eliminate(g, k, pick).sheriff == Some(n)
                       && Eliminate(g, k, pick).players == GiveBadge(SetAlive(g.players, k, false), n)
  {
    if g.players[k].sheriff {
      KillingSheriffKeepsHeirs(g.players, k);
    }
  }

  /** `vote`: raises when nobody is alive. A unique leader among the alive is
      voted out; if that player held the badge, it passes to a random alive
      non-holder, while the eliminated player keeps the flag. A tie eliminates
      nobody. Every tally is cleared afterwards. */
  function Vote(g: Game, pick: nat): (r: Result<Game>)
    ensures r.Ok? <==> Any(g.players, Alive)
    ensures r.Ok? ==> SameSeats(g.players, r.value.players) && NoVotes(r.value.players)
    ensures r.Ok? ==> r.value.(players := g.players, sheriff := g.sheriff) == g
    ensures r.Ok? ==> forall k: nat :: UniqueLeader(g.players, k) ==>
              r.value == ClearVotes(Eliminate(g, k, pick))
    ensures r.Ok? && (forall k: nat :: !UniqueLeader(g.players, k)) ==>
              SameAlive(g.players, r.value.players) && SameBadges(g.players, r.value.players)
              && r.value.sheriff == g.sheriff
    ensures r.Ok? && (forall k: nat :: !UniqueLeader(g.players, k)) ==> r.value == ClearVotes(g)
  {
    if !Any(g.players, Alive) then Fail(EmptyMax)
    else
      var c := Leaders(g.players);
      LeadersSingleton(g.players);
      if |c| == 1 then
        var e := Eliminate(g, c[0], pick);
        SameSeatsTransitive(g.players, e.players, ClearVotes(e).players);
        Ok(ClearVotes(e))
      else Ok(ClearVotes(g))
  }

  /** The day vote only takes lives: nobody alive afterwards was dead before. */
  lemma VoteOnlyTakesLives(g: Game, pick: nat, j: nat)
    requires Vote(g, pick).Ok? && j < |g.players|
    requires Vote(g, pick).value.players[j].alive
    ensures g.players[j].alive
  {
    if k: nat :| UniqueLeader(g.players, k) {
      var e := Eliminate(g, k, pick);
      assert Vote(g, pick).value.players[j].alive == e.players[j].alive;
    }
  }

  /** The day vote kills at most one player: the unique leader. */
  lemma VoteTakesAtMostOneLife(g: Game, pick: nat)
    requires Vote(g, pick).Ok?
    ensures var r := Vote(g, pick).value;
            forall j :: 0 <= j < |g.players| && g.players[j].alive && !r.players[j].alive ==>
              UniqueLeader(g.players, j)
  {
    var r := Vote(g, pick).value;
    if k: nat :| UniqueLeader(g.players, k) {
      var e := Eliminate(g, k, pick);
      assert r == ClearVotes(e);
      forall j | 0 <= j < |g.players| && g.players[j].alive && !r.players[j].alive
        ensures UniqueLeader(g.players, j)
      {
        assert r.players[j] == e.players[j].(votes := 0);
        assert j == k;
      }
    } else {
      assert SameAlive(g.players, r.players);
    }
  }

  /** At most one alive player wears the badge. */
  predicate OneLivingSheriff(ps: seq<Player>) {
    forall a, b ::
      (0 <= a < |ps| && 0 <= b < |ps| && ps[a].alive && ps[a].sheriff && ps[b].alive && ps[b].sheriff)
      ==> a == b
  }

  /** Clearing tallies touches no flag. */
  lemma ResetKeepsOneLivingSheriff(ps: seq<Player>)
    requires OneLivingSheriff(ps)
    ensures OneLivingSheriff(ResetVotes(ps))
  {
  }

  /** Voting out an alive player keeps at most one living badge holder. */
  lemma EliminateKeepsOneLivingSheriff(g: Game, k: nat, pick: nat)
    requires OneLivingSheriff(g.players)
    requires k < |g.players| && g.players[k].alive
    ensures OneLivingSheriff(Eliminate(g, k, pick).players)
  {
    var e := Eliminate(g, k, pick);
    EliminateBadge(g, k, pick);
    if g.players[k].sheriff && Any(g.players, AliveNonSheriff) {
      var n :| 0 <= n < |g.players| && n != k && g.players[n].alive && !g.players[n].sheriff
               && e.players == GiveBadge(SetAlive(g.players, k, false), n);
      forall j | 0 <= j < |e.players| && j != n && e.players[j].alive
        ensures !e.players[j].sheriff
      {
        var ps1 := SetAlive(g.players, k, false);
        assert GiveBadge(ps1, n)[j] == ps1[j];
        assert GiveBadge(ps1, n)[k] == ps1[k];
      }
    }
  }

  /** The day vote keeps at most one living badge holder, although a voted-out
      sheriff keeps the flag. */
  lemma VoteKeepsOneLivingSheriff(g: Game, pick: nat)
    requires OneLivingSheriff(g.players)
    requires Vote(g, pick).Ok?
    ensures OneLivingSheriff(Vote(g, pick).value.players)
  {
    if k: nat :| UniqueLeader(g.players, k) {
      var e := Eliminate(g, k, pick);
      EliminateKeepsOneLivingSheriff(g, k, pick);
      ResetKeepsOneLivingSheriff(e.players);
    }
  }

  /** A sheriff voted out keeps the flag: when the badge passes on, two players
      carry the flag, one of them dead. */
  lemma VotedOutSheriffKeepsFlag(g: Game, pick: nat, k: nat)
    requires UniqueLeader(g.players, k) && g.players[k].sheriff
    ensures Vote(g, pick).Ok?
    ensures var r := Vote(g, pick).value;
            !r.players[k].alive && r.players[k].sheriff
    ensures var r := Vote(g, pick).value;
            Any(g.players, AliveNonSheriff) ==>
              exists n :: 0 <= n < |r.players| && n != k && r.players[n].alive && r.players[n].sheriff
  {
    ClearedEliminationBadge(g, k, pick);
  }

  /** The badge after seat `k`, a holder, is eliminated and the tallies are
      cleared: the holder keeps the flag, and an alive non-holder, when there
      is one, now carries it too. */
  lemma ClearedEliminationBadge(g: Game, k: nat, pick: nat)
    requires k < |g.players| && g.players[k].sheriff
    ensures var r := ClearVotes(Eliminate(g, k, pick));
            !r.players[k].alive && r.players[k].sheriff
    ensures var r := ClearVotes(Eliminate(g, k, pick));
            Any(g.players, AliveNonSheriff) ==>
              exists n :: 0 <= n < |r.players| && n != k && r.players[n].alive && r.players[n].sheriff
  {
    var e := Eliminate(g, k, pick);
    EliminateBadge(g, k, pick);
    var r := ClearVotes(e);
    assert r.players[k].alive == e.players[k].alive && r.players[k].sheriff == e.players[k].sheriff;
    if Any(g.players, AliveNonSheriff) {
      var n :| 0 <= n < |g.players| && n != k && g.players[n].alive && !g.players[n].sheriff
               && e.players == GiveBadge(SetAlive(g.players, k, false), n);
      assert r.players[n].alive == e.players[n].alive && r.players[n].sheriff == e.players[n].sheriff;
    }
  }

  // ---- day and night ----

  /** `day_actions`: the day counter moves on by one, nothing else changes. */
  function DayActions(g: Game): (r: Game)
    ensures r.dayCount == g.dayCount + 1
    ensures r.(dayCount := g.dayCount) == g
  {
    g.(dayCount := g.dayCount + 1)
  }

  /** How many alive computer wolves below seat `n` vote for `x`: while an
      alive non-wolf exists, each draws one (wolf `j` with draw `picks(j)`) and
      votes for its name. */
  function AiWolfVotesFor(ps: seq<Player>, picks: nat -> nat, n: nat, x: string): nat
    requires n <= |ps|
  {
    if n == 0 then 0
    else AiWolfVotesFor(ps, picks, n - 1, x)
         + if IsWolf(ps[n - 1]) && ps[n - 1].alive && ps[n - 1].isAi && Any(ps, AliveNonWolf)
              && ps[PickSeat(ps, AliveNonWolf, picks(n - 1))].name == x
           then 1 else 0
  }

  /** The votes of the alive computer wolves (seats below `n`), each for the
      target its night action chose. Every name voted for is an alive
      non-wolf's. */
  function AiWolfVotes(ps: seq<Player>, picks: nat -> nat, n: nat): (t: Tally)
    requires n <= |ps|
    ensures Distinct(t) && Counted(t)
    ensures forall x :: Count(t, x) == AiWolfVotesFor(ps, picks, n, x)
    ensures forall x :: x in Keys(t) ==>
              exists j :: 0 <= j < |ps| && ps[j].alive && !IsWolf(ps[j]) && ps[j].name == x
  {
    if n == 0 then [] else AiWolfVote(ps, picks, n - 1, AiWolfVotes(ps, picks, n - 1))
  }

  /** Seat `i`'s vote added to tally `t`: an alive computer wolf adds one vote
      for the target its night action chose (draw `picks(i)`); anybody else
      leaves the tally alone. */
  function AiWolfVote(ps: seq<Player>, picks: nat -> nat, i: nat, t: Tally): (r: Tally)
    requires i < |ps| && Distinct(t) && Counted(t)
    ensures Distinct(r) && Counted(r)
    ensures forall x :: Count(r, x) == Count(t, x)
              + if IsWolf(ps[i]) && ps[i].alive && ps[i].isAi && Any(ps, AliveNonWolf)
                   && ps[PickSeat(ps, AliveNonWolf, picks(i))].name == x
                then 1 else 0
    ensures Keys(r) <= Keys(t) + (set j | 0 <= j < |ps| && ps[j].alive && !IsWolf(ps[j]) :: ps[j].name)
  {
    var p := ps[i];
    if IsWolf(p) && p.alive && p.isAi then
      match NightAction(ps, i, Dice(picks(i), false, false)).intent
      case Some(WolfVote(x)) =>
        AddKeepsDistinct(t, x, 1);
        AddKeepsCounted(t, x, 1);
        Add(t, x, 1)
      case _ => t
    else t
  }

  /** Tonight's wolf tally: the computer wolves' votes plus the human wolves'. */
  function WolfTally(g: Game, picks: nat -> nat): (t: Tally)
    ensures Distinct(t)
    ensures Counted(g.humanWolfVotes) ==> Counted(t)
    ensures forall x :: Count(t, x) == AiWolfVotesFor(g.players, picks, |g.players|, x)
                                       + Count(g.humanWolfVotes, x)
  {
    var ai := AiWolfVotes(g.players, picks, |g.players|);
    MergeKeepsDistinct(ai, g.humanWolfVotes);
    MergeKeepsCounted(ai, g.humanWolfVotes);
    Merge(ai, g.humanWolfVotes)
  }

  /** The name the wolves kill: a draw among the names with the top count, or
      none when nobody was voted for. */
  function KillTarget(t: Tally, pick: nat): (r: Option<string>)
    requires Distinct(t)
    ensures r.Some? <==> |t| > 0
    ensures r.Some? ==> r.value in Keys(t) && forall x :: Count(t, x) <= Count(t, r.value)
  {
    if |t| > 0 then
      var c := TopNames(t);
      var x := Pick(c, pick);
      TopNameIsMax(t, x);
      Some(x)
    else None
  }

  /** The seat the night kill lands on: the first seat carrying a non-empty
      name that some player has. */
  function Victim(ps: seq<Player>, target: Option<string>): (r: Option<nat>)
    ensures r.Some? ==> r.value < |ps| && target.Some? && ps[r.value].name == target.value
    ensures r.Some? ==> forall j :: 0 <= j < r.value ==> ps[j].name != target.value
    ensures r.None? && target.Some? && target.value != "" ==>
              forall j :: 0 <= j < |ps| ==> ps[j].name != target.value
    ensures r.Some? <==> target.Some? && target.value != "" && FindByName(ps, target.value).Some?
  {
    if target.Some? && target.value != "" then FindByName(ps, target.value) else None
  }

  /** The seat a target names depends on the names only. */
  lemma SameSeatsVictim(ps: seq<Player>, qs: seq<Player>, target: Option<string>)
    requires SameSeats(ps, qs)
    ensures Victim(ps, target) == Victim(qs, target)
  {
    if target.Some? {
      FindSeesOnlyNames(ps, qs, target.value);
    }
  }

  /** `night_actions`: tally the computer wolves' votes with the human wolves',
      kill the first seat carrying the drawn top name, and clear the human
      votes. Besides the target and the cleared human votes only alive flags
      change. */
  function NightActions(g: Game, picks: nat -> nat, killPick: nat): (r: Game)
    ensures r.humanWolfVotes == []
    ensures r.wolfKillTarget.Some? <==> |WolfTally(g, picks)| > 0
    ensures r.wolfKillTarget.Some? ==>
              && r.wolfKillTarget.value in Keys(WolfTally(g, picks))
              && forall x :: Count(WolfTally(g, picks), x) <= Count(WolfTally(g, picks), r.wolfKillTarget.value)
    ensures OnlyAliveChanged(g.players, r.players)
    ensures forall j :: 0 <= j < |g.players| ==>
              r.players[j].alive == (g.players[j].alive && Victim(g.players, r.wolfKillTarget) != Some(j))
    ensures r.(players := g.players, wolfKillTarget := g.wolfKillTarget, humanWolfVotes := g.humanWolfVotes) == g
  {
    var t := WolfTally(g, picks);
    var target := KillTarget(t, killPick);
    var v := Victim(g.players, target);
    var ps := if v.Some? then SetAlive(g.players, v.value, false) else g.players;
    g.(players := ps, wolfKillTarget := target, humanWolfVotes := [])
  }

  /** The night kills exactly the victim seat of its target, if there is one,
      and nobody else. */
  lemma NightKillsOnlyVictim(g: Game, picks: nat -> nat, killPick: nat)
    ensures var r := NightActions(g, picks, killPick);
            var v := Victim(g.players, r.wolfKillTarget);
            && (v.Some? ==> AliveOnlyAt(g.players, r.players, v.value, false))
            && (v.None? ==> SameAlive(g.players, r.players))
  {
  }

  /** With no wolf vote cast, the night kills nobody. */
  lemma EmptyTallyKillsNobody(g: Game, picks: nat -> nat, killPick: nat)
    requires |WolfTally(g, picks)| == 0
    ensures SameAlive(g.players, NightActions(g, picks, killPick).players)
  {
  }

  /** A tie among the wolves' targets spares nobody: every tied name is killed
      under some draw. */
  lemma WolfTieIsDrawn(g: Game, picks: nat -> nat, k: nat)
    requires |WolfTally(g, picks)| > 0
    requires k < |TopNames(WolfTally(g, picks))|
    ensures NightActions(g, picks, k).wolfKillTarget == Some(TopNames(WolfTally(g, picks))[k])
  {
    PickReachesAll(TopNames(WolfTally(g, picks)), k);
  }

  // ---- the win check ----

  /** `check_game_end`: the game is over when no wolf is alive or the alive
      wolves are at least as many as the alive others. */
  function CheckGameEnd(g: Game): (r: bool)
    ensures r <==> |AliveSet(g.players, true)| == 0
                   || |AliveSet(g.players, true)| >= |AliveSet(g.players, false)|
  {
    CountAliveIsCard(g.players, true);
    CountAliveIsCard(g.players, false);
    var wolves := CountAlive(g.players, true);
    var others := CountAlive(g.players, false);
    wolves == 0 || wolves >= others
  }

  /** With every wolf dead the game is over; with wolves alive and more
      non-wolves than wolves alive it goes on. */
  lemma GameEndCases(g: Game)
    ensures (forall j :: 0 <= j < |g.players| && g.players[j].alive ==> !IsWolf(g.players[j]))
            ==> CheckGameEnd(g)
    ensures ((exists j :: 0 <= j < |g.players| && g.players[j].alive && IsWolf(g.players[j]))
             && |AliveSet(g.players, true)| < |AliveSet(g.players, false)|) ==> !CheckGameEnd(g)
  {
    if forall j :: 0 <= j < |g.players| && g.players[j].alive ==> !IsWolf(g.players[j]) {
      assert AliveSet(g.players, true) == {};
    }
    if j :| 0 <= j < |g.players| && g.players[j].alive && IsWolf(g.players[j]) {
      assert j in AliveSet(g.players, true);
    }
  }
}
