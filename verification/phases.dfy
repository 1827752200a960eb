/** The phases the server drives: the sheriff election and the day vote with
    their human and computer ballots, the night's wolf, witch and seer
    sub-phases followed by the wolf-kill resolution, and the event loop that
    runs them until the game is over. Human replies and random draws arrive as
    inputs indexed by seat. */
module Phases {
  import opened Types
  import opened Roles
  import opened Models
  import opened Roster
  import opened Tally
  import opened RoleActions
  import opened WerewolfGame
  import opened Handlers

  // ---- ballots of the humans ----

  /** The weight of the ballot cast from seat `j`: one vote in the election;
      by day, one and a half while holding the badge. */
  function Weight(ps: seq<Player>, j: nat, day: bool): (w: nat)
    requires j < |ps|
    ensures w == OneVote || (day && ps[j].sheriff && w == SheriffVote)
  {
    if day then DayWeight(ps[j]) else OneVote
  }

  /** A human at seat `j` who is alive when the prompts go out. */
  predicate AliveHuman(ps: seq<Player>, j: nat)
    requires j < |ps|
  {
    ps[j].alive && !ps[j].isAi
  }

  /** The weight that lands from the humans below seat `n`: every alive human
      whose reply names a player adds its ballot's weight. */
  function HumanWeight(ps: seq<Player>, replies: nat -> Option<string>, n: nat, day: bool): nat
    requires n <= |ps|
  {
    if n == 0 then 0
    else HumanWeight(ps, replies, n - 1, day)
         + if AliveHuman(ps, n - 1) && Named(ps, replies(n - 1)).Some? then Weight(ps, n - 1, day) else 0
  }

  /** The weight that lands on seat `j` from the humans below seat `n`: the
      ballot weight of every alive human whose reply names that seat. */
  function HumanWeightFor(ps: seq<Player>, replies: nat -> Option<string>, n: nat, day: bool, j: nat): nat
    requires n <= |ps|
  {
    if n == 0 then 0
    else HumanWeightFor(ps, replies, n - 1, day, j)
         + if AliveHuman(ps, n - 1) && Named(ps, replies(n - 1)) == Some(j) then Weight(ps, n - 1, day) else 0
  }

  /** The ballots of the humans below seat `n`, one after the other (the
      server takes them in parallel; tallies add up the same in any order).
      Only tallies change, and they grow by exactly the weight that lands. */
  function HumanVotes(ps: seq<Player>, replies: nat -> Option<string>, n: nat, day: bool): (qs: seq<Player>)
    requires n <= |ps|
    ensures VotesGrew(ps, qs)
    ensures forall j :: 0 <= j < |ps| ==> qs[j].votes == ps[j].votes + HumanWeightFor(ps, replies, n, day, j)
    ensures TotalVotes(qs) == TotalVotes(ps) + HumanWeight(ps, replies, n, day)
  {
    if n == 0 then ps
    else
      var qs := HumanVotes(ps, replies, n - 1, day);
      var rs := HumanBallot(ps, qs, replies(n - 1), n - 1, day);
      VotesGrewTransitive(ps, qs, rs);
      rs
  }

  /** Seat `i`'s reply counted on `qs`, the roster `ps` with some ballots in:
      an alive human's ballot weight goes to the seat its reply names. */
  function HumanBallot(ps: seq<Player>, qs: seq<Player>, reply: Option<string>, i: nat, day: bool): (rs: seq<Player>)
    requires i < |ps| && VotesGrew(ps, qs)
    ensures VotesGrew(qs, rs)
    ensures forall j :: 0 <= j < |qs| ==>
              rs[j].votes == qs[j].votes + if AliveHuman(ps, i) && Named(ps, reply) == Some(j) then Weight(ps, i, day) else 0
    ensures TotalVotes(rs) == TotalVotes(qs) + if AliveHuman(ps, i) && Named(ps, reply).Some? then Weight(ps, i, day) else 0
  {
    if AliveHuman(ps, i) then
      VotesGrewFrames(ps, qs);
      NamedSeesOnlyNames(ps, qs, reply);
      Ballot(qs, reply, Weight(ps, i, day))
    else qs
  }

  // ---- ballots of the computer players ----

  /** The votes seat `j` receives from the first `k` computer election voters:
      one for each voter whose draw among the candidates `c` lands on it. */
  function AiSheriffVotesFor(c: seq<nat>, draws: nat -> nat, k: nat, j: nat): nat
    requires k <= |c|
  {
    if k == 0 then 0
    else AiSheriffVotesFor(c, draws, k - 1, j) + if Pick(c, draws(k - 1)) == j then OneVote else 0
  }

  /** The computer players' election ballots: the candidates `c` are the
      alive computer players, listed once before the ballots, and they are
      also the voters. The first `k` of them each pick one candidate, itself
      included (the `k`-th voter takes draw `draws(k)`), and add one vote. The
      humans are never candidates here. */
  function AiSheriffVotes(ps: seq<Player>, c: seq<nat>, draws: nat -> nat, k: nat): (qs: seq<Player>)
    requires k <= |c| && forall i :: 0 <= i < |c| ==> c[i] < |ps|
    ensures VotesGrew(ps, qs)
    ensures forall j :: 0 <= j < |ps| ==> qs[j].votes == ps[j].votes + AiSheriffVotesFor(c, draws, k, j)
    ensures TotalVotes(qs) == TotalVotes(ps) + OneVote * k
  {
    if k == 0 then ps
    else
      var qs := AiSheriffVotes(ps, c, draws, k - 1);
      var t := Pick(c, draws(k - 1));
      var rs := Bump(qs, t, OneVote);
      VotesGrewTransitive(ps, qs, rs);
      assert forall j :: 0 <= j < |ps| ==> rs[j].votes == qs[j].votes + if t == j then OneVote else 0;
      rs
  }

  /** Every computer election vote goes to one of the candidates. */
  lemma {:induction false} AiSheriffVotesGoToCandidates(c: seq<nat>, draws: nat -> nat, k: nat, j: nat)
    requires k <= |c| && AiSheriffVotesFor(c, draws, k, j) > 0
    ensures j in c
  {
    if Pick(c, draws(k - 1)) != j {
      AiSheriffVotesGoToCandidates(c, draws, k - 1, j);
    }
  }

  /** A computer player at seat `j` who votes by day: alive, with somebody
      else alive to vote for. */
  predicate AiDayVoter(ps: seq<Player>, j: nat)
    requires j < |ps|
  {
    ps[j].alive && ps[j].isAi && Any(ps, AliveOther(j))
  }

  /** How many of the seats below `n` cast a computer day ballot. */
  function AiDayVoters(ps: seq<Player>, n: nat): nat
    requires n <= |ps|
  {
    if n == 0 then 0 else AiDayVoters(ps, n - 1) + if AiDayVoter(ps, n - 1) then 1 else 0
  }

  /** The votes seat `j` receives from the computer day voters below seat
      `n`: one for each voter whose draw lands on it. */
  function AiDayVotesFor(ps: seq<Player>, draws: nat -> nat, n: nat, j: nat): nat
    requires n <= |ps|
  {
    if n == 0 then 0 else AiDayVotesFor(ps, draws, n - 1, j) + AiDayVote(ps, draws(n - 1), n - 1, j)
  }

  /** The vote seat `j` receives from computer voter `i` with draw `draw`. */
  function AiDayVote(ps: seq<Player>, draw: nat, i: nat, j: nat): nat
    requires i < |ps|
  {
    if AiDayVoter(ps, i) && PickSeat(ps, AliveOther(i), draw) == j then OneVote else 0
  }

  /** The computer players' day ballots, in seat order: each alive computer
      player picks an alive player other than itself (draw `draws(j)`) and adds
      exactly one vote, even while holding the badge. Voters and candidates
      are read off roster `rs`, the roster as the day's prompts went out;
      ballots change no alive flag, so it is also the roster each voter sees. */
  function AiDayVotes(ps: seq<Player>, rs: seq<Player>, draws: nat -> nat, n: nat): (qs: seq<Player>)
    requires n <= |rs| == |ps|
    ensures VotesGrew(ps, qs)
    ensures forall j :: 0 <= j < |ps| ==> qs[j].votes == ps[j].votes + AiDayVotesFor(rs, draws, n, j)
    ensures forall j :: 0 <= j < |ps| && qs[j].votes != ps[j].votes ==> rs[j].alive
    ensures TotalVotes(qs) == TotalVotes(ps) + OneVote * AiDayVoters(rs, n)
  {
    if n == 0 then ps
    else
      var qs := AiDayVotes(ps, rs, draws, n - 1);
      var ss := AiDayBallot(rs, qs, draws(n - 1), n - 1);
      VotesGrewTransitive(ps, qs, ss);
      ss
  }

  /** Seat `i`'s computer day ballot, drawn on roster `rs`, counted on `qs`. */
  function AiDayBallot(rs: seq<Player>, qs: seq<Player>, draw: nat, i: nat): (ss: seq<Player>)
    requires i < |rs| == |qs|
    ensures VotesGrew(qs, ss)
    ensures forall j :: 0 <= j < |qs| ==> ss[j].votes == qs[j].votes + AiDayVote(rs, draw, i, j)
    ensures forall j :: 0 <= j < |qs| && ss[j].votes != qs[j].votes ==> rs[j].alive
    ensures TotalVotes(ss) == TotalVotes(qs) + if AiDayVoter(rs, i) then OneVote else 0
  {
    if AiDayVoter(rs, i) then Bump(qs, PickSeat(rs, AliveOther(i), draw), OneVote) else qs
  }

  /** A computer day ballot never goes to its voter: a seat that gains a
      computer vote is alive and was drawn by another computer voter. */
  lemma {:induction false} AiDayVotesGoToOthers(ps: seq<Player>, draws: nat -> nat, n: nat, j: nat)
    requires n <= |ps| && j < |ps| && AiDayVotesFor(ps, draws, n, j) > 0
    ensures ps[j].alive
    ensures exists i :: 0 <= i < n && AiDayVoter(ps, i) && i != j && PickSeat(ps, AliveOther(i), draws(i)) == j
  {
    if !(AiDayVoter(ps, n - 1) && PickSeat(ps, AliveOther(n - 1), draws(n - 1)) == j) {
      AiDayVotesGoToOthers(ps, draws, n - 1, j);
    }
  }

  // ---- the election and the day ----

  /** One round of ballots: each human's reply and each computer voter's draw. */
  datatype Ballots = Ballots(replies: nat -> Option<string>, draws: nat -> nat)

  /** Every election ballot: the humans', then the computer players'. */
  function ElectionTally(ps: seq<Player>, b: Ballots): (qs: seq<Player>)
    ensures VotesGrew(ps, qs)
    ensures forall j :: 0 <= j < |ps| ==>
              qs[j].votes == ps[j].votes + HumanWeightFor(ps, b.replies, |ps|, false, j)
                             + AiSheriffVotesFor(Seats(ps, AliveAi), b.draws, |Seats(ps, AliveAi)|, j)
    ensures TotalVotes(qs) == TotalVotes(ps) + HumanWeight(ps, b.replies, |ps|, false)
                              + OneVote * |Seats(ps, AliveAi)|
  {
    var ps1 := HumanVotes(ps, b.replies, |ps|, false);
    var ps2 := AiSheriffVotes(ps1, Seats(ps, AliveAi), b.draws, |Seats(ps, AliveAi)|);
    VotesGrewTransitive(ps, ps1, ps2);
    ps2
  }

  /** The computer election ballots go to alive computer players only. */
  lemma ComputerVotesGoToComputers(ps: seq<Player>, b: Ballots, j: nat)
    requires AiSheriffVotesFor(Seats(ps, AliveAi), b.draws, |Seats(ps, AliveAi)|, j) > 0
    ensures j < |ps| && ps[j].alive && ps[j].isAi
  {
    AiSheriffVotesGoToCandidates(Seats(ps, AliveAi), b.draws, |Seats(ps, AliveAi)|, j);
  }

  /** `handle_sheriff_election`: the alive humans and the alive computer
      players cast their ballots, then `elect_sheriff` counts them. It raises
      when nobody is alive. */
  function HandleSheriffElection(g: Game, b: Ballots): (r: Result<Game>)
    ensures r.Ok? <==> Any(g.players, Alive)
    ensures r.Ok? ==> SameSeats(g.players, r.value.players) && SameAlive(g.players, r.value.players)
    ensures r.Ok? ==> NoVotes(r.value.players)
    ensures r.Ok? ==> r.value.(players := g.players, sheriff := g.sheriff) == g
    ensures r.Ok? ==> forall i: nat :: UniqueLeader(ElectionTally(g.players, b), i) ==>
              && r.value.sheriff == Some(i) && r.value.players[i].sheriff
              && forall j :: 0 <= j < |g.players| && j != i ==>
                   r.value.players[j].sheriff == g.players[j].sheriff
    ensures r.Ok? && (forall i: nat :: !UniqueLeader(ElectionTally(g.players, b), i)) ==>
              r.value.sheriff == g.sheriff && SameBadges(g.players, r.value.players)
  {
    var qs := ElectionTally(g.players, b);
    CountOfBallots(g, qs);
    ElectSheriff(g.(players := qs))
  }

  /** Counting ballots cast on `g`'s roster: the unique leader of the counted
      tallies takes the badge, and without one no badge moves. */
  lemma CountOfBallots(g: Game, qs: seq<Player>)
    requires VotesGrew(g.players, qs)
    ensures var r := ElectSheriff(g.(players := qs));
            && (r.Ok? <==> Any(g.players, Alive))
            && (r.Ok? ==> SameSeats(g.players, r.value.players) && SameAlive(g.players, r.value.players))
            && (r.Ok? ==> NoVotes(r.value.players))
            && (r.Ok? ==> r.value.(players := g.players, sheriff := g.sheriff) == g)
            && (r.Ok? ==> forall i: nat :: UniqueLeader(qs, i) ==>
                  && r.value.sheriff == Some(i) && r.value.players[i].sheriff
                  && forall j :: 0 <= j < |g.players| && j != i ==>
                       r.value.players[j].sheriff == g.players[j].sheriff)
            && (r.Ok? && (forall i: nat :: !UniqueLeader(qs, i)) ==>
                  r.value.sheriff == g.sheriff && SameBadges(g.players, r.value.players))
  {
    VotesGrewFrames(g.players, qs);
    SameAliveSameSeats(g.players, qs, Alive);
    var r := ElectSheriff(g.(players := qs));
    if r.Ok? {
      SameSeatsTransitive(g.players, qs, r.value.players);
    }
  }

  /** A sheriff the election makes was alive at the vote and holds the badge. */
  lemma ElectionCrownsTheLiving(g: Game, b: Ballots)
    ensures var r := HandleSheriffElection(g, b);
            r.Ok? && r.value.sheriff != g.sheriff ==>
              && r.value.sheriff.Some? && r.value.sheriff.value < |g.players|
              && g.players[r.value.sheriff.value].alive && r.value.players[r.value.sheriff.value].sheriff
  {
    var h := g.(players := ElectionTally(g.players, b));
    VotesGrewFrames(g.players, h.players);
    ElectedIsAlive(h);
  }

  /** Whoever the count elects was alive at the count and took the badge. */
  lemma ElectedIsAlive(g: Game)
    ensures var r := ElectSheriff(g);
            r.Ok? && r.value.sheriff != g.sheriff ==>
              && r.value.sheriff.Some? && r.value.sheriff.value < |g.players|
              && g.players[r.value.sheriff.value].alive && r.value.players[r.value.sheriff.value].sheriff
  {
    if i: nat :| UniqueLeader(g.players, i) {
    }
  }

  /** An election that leaves nobody sheriff moves no badge. */
  lemma ElectionWithoutWinner(g: Game, b: Ballots)
    requires HandleSheriffElection(g, b).Ok? && HandleSheriffElection(g, b).value.sheriff.None?
    ensures SameBadges(g.players, HandleSheriffElection(g, b).value.players)
  {
    var h := g.(players := ElectionTally(g.players, b));
    VotesGrewFrames(g.players, h.players);
    if i: nat :| UniqueLeader(h.players, i) {
    }
  }

  datatype DayInput = DayInput(ballots: Ballots, pick: nat)

  /** Every day ballot: the humans', then the computer players'. */
  function DayTally(ps: seq<Player>, b: Ballots): (qs: seq<Player>)
    ensures VotesGrew(ps, qs)
    ensures forall j :: 0 <= j < |ps| ==>
              qs[j].votes == ps[j].votes + HumanWeightFor(ps, b.replies, |ps|, true, j)
                             + AiDayVotesFor(ps, b.draws, |ps|, j)
    ensures TotalVotes(qs) == TotalVotes(ps) + HumanWeight(ps, b.replies, |ps|, true)
                              + OneVote * AiDayVoters(ps, |ps|)
  {
    var ps1 := HumanVotes(ps, b.replies, |ps|, true);
    var ps2 := AiDayVotes(ps1, ps, b.draws, |ps|);
    VotesGrewTransitive(ps, ps1, ps2);
    ps2
  }

  /** `handle_day_phase`: the day counter moves on, the alive humans and the
      alive computer players vote, and `vote` eliminates the unique leader. It
      raises when nobody is alive. */
  function HandleDayPhase(g: Game, d: DayInput): (r: Result<Game>)
    ensures r.Ok? <==> Any(g.players, Alive)
    ensures r.Ok? ==> r.value.dayCount == g.dayCount + 1
    ensures r.Ok? ==> SameSeats(g.players, r.value.players) && NoVotes(r.value.players)
    ensures r.Ok? ==> r.value.humanWolfVotes == g.humanWolfVotes && r.value.sheriffElect == g.sheriffElect
    ensures r.Ok? ==> forall k: nat :: UniqueLeader(DayTally(g.players, d.ballots), k) ==>
              AliveOnlyAt(g.players, r.value.players, k, false)
    ensures r.Ok? && (forall k: nat :: !UniqueLeader(DayTally(g.players, d.ballots), k)) ==>
              && SameAlive(g.players, r.value.players) && SameBadges(g.players, r.value.players)
              && r.value.sheriff == g.sheriff
  {
    var h := DayActions(g).(players := DayTally(g.players, d.ballots));
    VotesGrewFrames(g.players, h.players);
    SameAliveSameSeats(g.players, h.players, Alive);
    VoteOnBallots(g.players, h, d.pick);
    var r := Vote(h, d.pick);
    if r.Ok? then
      SameSeatsTransitive(g.players, h.players, r.value.players);
      r
    else r
  }

  /** The vote on ballots cast on roster `ps`: the unique leader of the
      counted tallies dies and nobody else does; without one, nobody dies and
      no badge moves. */
  lemma VoteOnBallots(ps: seq<Player>, h: Game, pick: nat)
    requires VotesGrew(ps, h.players)
    ensures var r := Vote(h, pick);
            && (r.Ok? ==> forall k: nat :: UniqueLeader(h.players, k) ==> AliveOnlyAt(ps, r.value.players, k, false))
            && (r.Ok? && (forall k: nat :: !UniqueLeader(h.players, k)) ==>
                  && SameAlive(ps, r.value.players) && SameBadges(ps, r.value.players)
                  && r.value.sheriff == h.sheriff)
  {
    VotesGrewFrames(ps, h.players);
    var r := Vote(h, pick);
    if r.Ok? {
      if k: nat :| UniqueLeader(h.players, k) {
        forall k: nat | UniqueLeader(h.players, k)
          ensures AliveOnlyAt(ps, r.value.players, k, false)
        {
          var e := Eliminate(h, k, pick);
          assert r.value.players == ClearVotes(e).players;
        }
      } else {
        assert r.value.players == ClearVotes(h).players;
      }
    }
  }

  /** Seats `a` and `b` both died between the two rosters only if they are the
      same seat. */
  predicate AtMostOneDied(ps: seq<Player>, qs: seq<Player>)
    requires |ps| == |qs|
  {
    forall a, b ::
      (0 <= a < |ps| && 0 <= b < |ps| && ps[a].alive && !qs[a].alive && ps[b].alive && !qs[b].alive)
      ==> a == b
  }

  /** The day vote gives no life back. */
  lemma DayGivesNoLife(g: Game, d: DayInput, j: nat)
    requires HandleDayPhase(g, d).Ok? && j < |g.players|
    requires HandleDayPhase(g, d).value.players[j].alive
    ensures g.players[j].alive
  {
    var h := DayActions(g).(players := DayTally(g.players, d.ballots));
    VotesGrewFrames(g.players, h.players);
    VoteOnlyTakesLives(h, d.pick, j);
  }

  /** The day vote takes at most one life. */
  lemma DayTakesAtMostOneLife(g: Game, d: DayInput)
    requires HandleDayPhase(g, d).Ok?
    ensures AtMostOneDied(g.players, HandleDayPhase(g, d).value.players)
  {
    var h := DayActions(g).(players := DayTally(g.players, d.ballots));
    VotesGrewFrames(g.players, h.players);
    VoteTakesAtMostOneLife(h, d.pick);
  }

  // ---- the night ----

  /** A human wolf at seat `j`, alive when the wolves are prompted. */
  predicate HumanWolf(ps: seq<Player>, j: nat)
    requires j < |ps|
  {
    ps[j].alive && IsWolf(ps[j]) && !ps[j].isAi
  }

  /** How many human wolves below seat `n` name `x`. */
  function WolfBallots(ps: seq<Player>, replies: nat -> Option<string>, n: nat, x: string): nat
    requires n <= |ps|
  {
    if n == 0 then 0
    else WolfBallots(ps, replies, n - 1, x) + if HumanWolf(ps, n - 1) && replies(n - 1) == Some(x) then 1 else 0
  }

  /** The wolf sub-phase: every alive human wolf below seat `n` replies, and
      each named target gains one vote in tonight's human tally. Nobody dies
      yet and the computer wolves do not vote until the night is resolved. */
  function WolfPhase(g: Game, replies: nat -> Option<string>, n: nat): (r: Game)
    requires n <= |g.players| && Distinct(g.humanWolfVotes)
    ensures r.(humanWolfVotes := g.humanWolfVotes) == g
    ensures Distinct(r.humanWolfVotes)
    ensures Counted(g.humanWolfVotes) ==> Counted(r.humanWolfVotes)
    ensures forall x :: Count(r.humanWolfVotes, x) == Count(g.humanWolfVotes, x) + WolfBallots(g.players, replies, n, x)
  {
    if n == 0 then g
    else
      var h := WolfPhase(g, replies, n - 1);
      if HumanWolf(g.players, n - 1) then WolfReply(h, replies(n - 1)) else h
  }

  /** Changes a night sub-phase may make: alive flags and spent potions. */
  predicate NightFrame(ps: seq<Player>, qs: seq<Player>) {
    SameSeats(ps, qs) && SameVotes(ps, qs) && SameBadges(ps, qs)
  }

  lemma NightFrameTransitive(ps: seq<Player>, qs: seq<Player>, rs: seq<Player>)
    requires NightFrame(ps, qs) && NightFrame(qs, rs)
    ensures NightFrame(ps, rs)
  {
    SameSeatsTransitive(ps, qs, rs);
  }

  /** Rosters with the same seats agree on who is a wolf and who is a witch. */
  lemma SameSeatsSameKinds(ps: seq<Player>, qs: seq<Player>)
    requires SameSeats(ps, qs)
    ensures forall j :: 0 <= j < |ps| ==> IsWolf(qs[j]) == IsWolf(ps[j]) && IsWitch(qs[j]) == IsWitch(ps[j])
  {
  }

  /** An alive computer witch at seat `j`. */
  predicate AiWitch(ps: seq<Player>, j: nat)
    requires j < |ps|
  {
    ps[j].alive && IsWitch(ps[j]) && ps[j].isAi
  }

  /** The computer witches below seat `n` act in seat order, each on the roster
      its predecessors left. Only their own potions are spent, and the only
      lives they touch are a dead non-wolf's (saved) or an alive wolf's
      (poisoned). */
  function AiWitches(ps: seq<Player>, dice: nat -> Dice, n: nat): (qs: seq<Player>)
    requires n <= |ps|
    ensures NightFrame(ps, qs)
    ensures forall j :: 0 <= j < |ps| && !(j < n && IsWitch(ps[j]) && ps[j].isAi) ==> qs[j].role == ps[j].role
    ensures forall j :: 0 <= j < |ps| && qs[j].alive != ps[j].alive ==> ps[j].alive == IsWolf(ps[j])
  {
    if n == 0 then ps
    else
      var qs := AiWitches(ps, dice, n - 1);
      if AiWitch(qs, n - 1) then
        AiWitchStep(qs, n - 1, dice(n - 1));
        var rs := NightAction(qs, n - 1, dice(n - 1)).players;
        NightFrameTransitive(ps, qs, rs);
        SameSeatsSameKinds(ps, qs);
        rs
      else qs
  }

  /** One computer witch's night: it spends only its own potions, and a life
      it touches was a dead non-wolf's or an alive wolf's. */
  lemma AiWitchStep(ps: seq<Player>, i: nat, d: Dice)
    requires i < |ps| && AiWitch(ps, i)
    ensures var qs := NightAction(ps, i, d).players;
            && NightFrame(ps, qs)
            && (forall j :: 0 <= j < |ps| && j != i ==> qs[j].role == ps[j].role)
            && (forall j :: 0 <= j < |ps| && qs[j].alive != ps[j].alive ==> ps[j].alive == IsWolf(ps[j]))
  {
    NightActionOnlySpends(ps, i, d);
    var r := WitchNight(ps, i, d);
    if r.intent.Some? {
      if r.intent.value.Save? {
        var t :| 0 <= t < |ps| && !ps[t].alive && !IsWolf(ps[t]) && OnlyFlipAndPotion(ps, r.players, t, true, i);
      } else {
        var t :| 0 <= t < |ps| && ps[t].alive && IsWolf(ps[t]) && OnlyFlipAndPotion(ps, r.players, t, false, i);
      }
    }
  }

  /** Without a computer witch below seat `n` the roster is left alone. */
  lemma {:induction false} NoAiWitchActs(ps: seq<Player>, dice: nat -> Dice, n: nat)
    requires n <= |ps|
    requires forall j :: 0 <= j < n ==> !(IsWitch(ps[j]) && ps[j].isAi)
    ensures AiWitches(ps, dice, n) == ps
  {
    if n > 0 {
      NoAiWitchActs(ps, dice, n - 1);
    }
  }

  /** With a single computer witch below seat `n`, alive at seat `w`, the
      sub-phase is exactly that witch's night action. */
  lemma {:induction false} OneAiWitchActs(ps: seq<Player>, dice: nat -> Dice, n: nat, w: nat)
    requires w < n <= |ps| && AiWitch(ps, w)
    requires forall j :: 0 <= j < n && j != w ==> !(IsWitch(ps[j]) && ps[j].isAi)
    ensures AiWitches(ps, dice, n) == NightAction(ps, w, dice(w)).players
  {
    var qs := AiWitches(ps, dice, n - 1);
    if n - 1 == w {
      NoAiWitchActs(ps, dice, w);
      assert qs == ps;
    } else {
      OneAiWitchActs(ps, dice, n - 1, w);
      SameSeatsSameKinds(ps, qs);
      assert !AiWitch(qs, n - 1);
      assert AiWitches(ps, dice, n) == qs;
    }
  }

  /** An alive human witch at seat `j`. */
  predicate HumanWitch(ps: seq<Player>, j: nat)
    requires j < |ps|
  {
    ps[j].alive && IsWitch(ps[j]) && !ps[j].isAi
  }

  /** The human witches below seat `n` answer in seat order (witch `j` with
      reply `replies(j)`). Only their own potions are spent. */
  function HumanWitches(ps: seq<Player>, replies: nat -> WitchReply, n: nat): (qs: seq<Player>)
    requires n <= |ps|
    ensures NightFrame(ps, qs)
    ensures forall j :: 0 <= j < |ps| && !(j < n && IsWitch(ps[j]) && !ps[j].isAi) ==> qs[j].role == ps[j].role
  {
    if n == 0 then ps
    else
      var qs := HumanWitches(ps, replies, n - 1);
      if HumanWitch(qs, n - 1) then
        var rs := ApplyWitchReply(qs, n - 1, replies(n - 1));
        NightFrameTransitive(ps, qs, rs);
        SameSeatsSameKinds(ps, qs);
        rs
      else qs
  }

  /** A life the human witches change belongs to a seat some human witch's
      reply names, for the save or for the poison. */
  lemma {:induction false} HumanWitchesTouchOnlyNamed(ps: seq<Player>, replies: nat -> WitchReply, n: nat, j: nat)
    requires n <= |ps| && j < |ps| && HumanWitches(ps, replies, n)[j].alive != ps[j].alive
    ensures exists w :: 0 <= w < n && IsWitch(ps[w]) && !ps[w].isAi
                        && (Named(ps, replies(w).save) == Some(j) || Named(ps, replies(w).poison) == Some(j))
  {
    var qs := HumanWitches(ps, replies, n - 1);
    if qs[j].alive != ps[j].alive {
      HumanWitchesTouchOnlyNamed(ps, replies, n - 1, j);
    } else {
      var w := n - 1;
      SameSeatsSameKinds(ps, qs);
      NamedSeesOnlyNames(ps, qs, replies(w).save);
      NamedSeesOnlyNames(ps, qs, replies(w).poison);
      assert Named(qs, replies(w).save) == Some(j) || Named(qs, replies(w).poison) == Some(j);
    }
  }

  /** Without a human witch below seat `n` the roster is left alone. */
  lemma {:induction false} NoHumanWitchAnswers(ps: seq<Player>, replies: nat -> WitchReply, n: nat)
    requires n <= |ps|
    requires forall j :: 0 <= j < n ==> !(IsWitch(ps[j]) && !ps[j].isAi)
    ensures HumanWitches(ps, replies, n) == ps
  {
    if n > 0 {
      NoHumanWitchAnswers(ps, replies, n - 1);
    }
  }

  /** With a single human witch below seat `n`, alive at seat `w`, the
      sub-phase is exactly that witch's reply applied. */
  lemma {:induction false} OneHumanWitchAnswers(ps: seq<Player>, replies: nat -> WitchReply, n: nat, w: nat)
    requires w < n <= |ps| && HumanWitch(ps, w)
    requires forall j :: 0 <= j < n && j != w ==> !(IsWitch(ps[j]) && !ps[j].isAi)
    ensures HumanWitches(ps, replies, n) == ApplyWitchReply(ps, w, replies(w))
  {
    var qs := HumanWitches(ps, replies, n - 1);
    if n - 1 == w {
      NoHumanWitchAnswers(ps, replies, w);
      assert qs == ps;
    } else {
      OneHumanWitchAnswers(ps, replies, n - 1, w);
      SameSeatsSameKinds(ps, qs);
      assert !HumanWitch(qs, n - 1);
      assert HumanWitches(ps, replies, n) == qs;
    }
  }

  /** An alive computer seer at seat `j`. */
  predicate AiSeer(ps: seq<Player>, j: nat)
    requires j < |ps|
  {
    ps[j].alive && IsSeer(ps[j]) && ps[j].isAi
  }

  /** The computer seers below seat `n` inspect somebody; what they learn is
      only logged, and the roster is left exactly as it was. */
  function AiSeers(ps: seq<Player>, dice: nat -> Dice, n: nat): (qs: seq<Player>)
    requires n <= |ps|
    ensures qs == ps
  {
    if n == 0 then ps
    else
      var qs := AiSeers(ps, dice, n - 1);
      if AiSeer(qs, n - 1) then NightAction(qs, n - 1, dice(n - 1)).players else qs
  }

  /** Everything a night consumes: the human wolves' and witches' replies, the
      draws of the computer witches, seers and wolves, and the draw among tied
      wolf targets. */
  datatype NightInput = NightInput(
    wolfReplies: nat -> Option<string>,
    witchDice: nat -> Dice,
    witchReplies: nat -> WitchReply,
    seerDice: nat -> Dice,
    wolfPicks: nat -> nat,
    killPick: nat)

  /** The roster the wolf kill is resolved on: after the wolves, the witches
      (computer ones first) and the seers. */
  function BeforeKill(g: Game, n: NightInput): (ps: seq<Player>)
    ensures NightFrame(g.players, ps)
  {
    var ws := AiWitches(g.players, n.witchDice, |g.players|);
    var hs := HumanWitches(ws, n.witchReplies, |ws|);
    NightFrameTransitive(g.players, ws, hs);
    AiSeers(hs, n.seerDice, |hs|)
  }

  /** Tonight's votes for `x`: the entries already in the human tally, the
      human wolves' ballots cast tonight, and the computer wolves' votes, drawn
      on the roster the witches and seers leave behind. */
  function NightVotes(g: Game, n: NightInput, x: string): nat {
    var ps := BeforeKill(g, n);
    Count(g.humanWolfVotes, x) + WolfBallots(g.players, n.wolfReplies, |g.players|, x)
    + AiWolfVotesFor(ps, n.wolfPicks, |ps|, x)
  }

  /** The computer wolf tally depends only on the draws of the computer wolves
      alive on the roster it is counted on. */
  lemma {:induction false} DeadWolvesCastNoVote(ps: seq<Player>, picks: nat -> nat, picks': nat -> nat, n: nat, x: string)
    requires n <= |ps|
    requires forall j :: 0 <= j < n && ps[j].alive && IsWolf(ps[j]) && ps[j].isAi ==> picks(j) == picks'(j)
    ensures AiWolfVotesFor(ps, picks, n, x) == AiWolfVotesFor(ps, picks', n, x)
  {
    if n > 0 {
      DeadWolvesCastNoVote(ps, picks, picks', n - 1, x);
    }
  }

  /** The computer wolves vote only after the witches: a wolf dead by then,
      poisoned tonight included, has no say in tonight's count whatever its
      draw. */
  lemma WitchedWolfHasNoSay(g: Game, n: NightInput, picks: nat -> nat, w: nat)
    requires w < |g.players| && !BeforeKill(g, n)[w].alive
    requires forall j: nat :: j != w ==> picks(j) == n.wolfPicks(j)
    ensures forall x :: NightVotes(g, n.(wolfPicks := picks), x) == NightVotes(g, n, x)
  {
    var ps := BeforeKill(g, n);
    assert BeforeKill(g, n.(wolfPicks := picks)) == ps;
    forall x {
      DeadWolvesCastNoVote(ps, picks, n.wolfPicks, |ps|, x);
    }
  }

  /** `handle_night_phase`: the wolves, then the witches, then the seers, then
      `night_actions` resolves the kill. The hunter sub-phase is not run. The
      kill target is a name with the most votes tonight, and there is one
      whenever anybody was voted for. Beyond what the witches did, the only
      death is the seat carrying the target's name; potions are as the witches
      left them, no name, tally or badge changes, and the human wolf tally is
      empty again at dawn. */
  function HandleNightPhase(g: Game, n: NightInput): (r: Game)
    requires Distinct(g.humanWolfVotes)
    ensures r.humanWolfVotes == []
    ensures NightFrame(g.players, r.players)
    ensures r.(players := g.players, wolfKillTarget := g.wolfKillTarget, humanWolfVotes := g.humanWolfVotes) == g
    ensures r.wolfKillTarget.Some? ==>
              forall x :: NightVotes(g, n, x) <= NightVotes(g, n, r.wolfKillTarget.value)
    ensures Counted(g.humanWolfVotes) ==>
              (r.wolfKillTarget.Some? <==> exists x :: NightVotes(g, n, x) > 0)
    ensures forall j :: 0 <= j < |g.players| ==>
              && r.players[j].alive == (BeforeKill(g, n)[j].alive && Victim(g.players, r.wolfKillTarget) != Some(j))
              && r.players[j].role == BeforeKill(g, n)[j].role
  {
    var g1 := WolfPhase(g, n.wolfReplies, |g.players|);
    var ps := BeforeKill(g, n);
    var r := NightActions(g1.(players := ps), n.wolfPicks, n.killPick);
    OnlyAliveFrames(ps, r.players);
    NightFrameTransitive(g.players, ps, r.players);
    NightTallyCounts(g, n);
    SameSeatsVictim(g.players, ps, r.wolfKillTarget);
    r
  }

  /** The tally the kill is drawn from counts exactly tonight's votes. */
  lemma NightTallyCounts(g: Game, n: NightInput)
    requires Distinct(g.humanWolfVotes)
    ensures var g1 := WolfPhase(g, n.wolfReplies, |g.players|);
            var t := WolfTally(g1.(players := BeforeKill(g, n)), n.wolfPicks);
            && (forall x :: Count(t, x) == NightVotes(g, n, x))
            && (Counted(g.humanWolfVotes) ==> (|t| > 0 <==> exists x :: NightVotes(g, n, x) > 0))
  {
    var g1 := WolfPhase(g, n.wolfReplies, |g.players|);
    var t := WolfTally(g1.(players := BeforeKill(g, n)), n.wolfPicks);
    forall x ensures Count(t, x) == NightVotes(g, n, x) {
    }
    if Counted(g.humanWolfVotes) {
      CountedNonEmpty(t);
    }
  }

  /** The witches act before the kill is resolved, so tonight's victim is
      beyond saving: the seat the wolves' target names is dead at dawn. */
  lemma TonightsVictimStaysDead(g: Game, n: NightInput)
    requires Distinct(g.humanWolfVotes)
    ensures var r := HandleNightPhase(g, n);
            var v := Victim(g.players, r.wolfKillTarget);
            v.Some? ==> !r.players[v.value].alive
  {
  }

}
