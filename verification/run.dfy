/** The server's event loop: the night and day events alternate, the sheriff
    election is held once, right after the first event's phase, a missing
    sheriff is replaced at random, and the win check runs after every event. */
module GameLoop {
  import opened Types
  import opened Models
  import opened Roster
  import opened Tally
  import opened WerewolfGame
  import opened Handlers
  import opened Phases

  datatype Event = NightEvent | DayEvent

  /** The events repeat in the order night, day. */
  function EventAt(k: nat): (e: Event)
    ensures e == NightEvent <==> k % 2 == 0
  {
    if k % 2 == 0 then NightEvent else DayEvent
  }

  /** What one event may consume: the night's inputs, the election's ballots,
      the draw of a badge transfer and the day's ballots. */
  datatype Inputs = Inputs(night: NightInput, election: Ballots, transferPick: nat, day: DayInput)

  /** What the loop relies on between events: the human wolf tally has one
      entry per name, and a sheriff exists only once the election was held. */
  predicate Sound(g: Game) {
    Distinct(g.humanWolfVotes) && (g.sheriff.Some? ==> g.sheriffElect)
  }

  /** The election step: held when there is no sheriff and none was elected
      before, and marked as held afterwards. When held, it fails exactly when
      nobody is alive, kills nobody, clears every tally, and crowns the unique
      leader of the ballots; with no unique leader nobody is sheriff and no
      badge moves. */
  function ElectionStep(g: Game, b: Ballots): (r: Result<Game>)
    ensures r.Ok? ==> r.value.humanWolfVotes == g.humanWolfVotes && r.value.dayCount == g.dayCount
    ensures r.Ok? ==> r.value.sheriffElect == (g.sheriffElect || g.sheriff.None?)
    ensures r.Ok? ==> SameAlive(g.players, r.value.players) && r.value.wolfKillTarget == g.wolfKillTarget
    ensures g.sheriff.Some? || g.sheriffElect ==> r == Ok(g)
    ensures g.sheriff.None? && !g.sheriffElect ==>
              && (r.Ok? <==> Any(g.players, Alive))
              && (r.Ok? ==> SameSeats(g.players, r.value.players) && SameAlive(g.players, r.value.players)
                            && NoVotes(r.value.players))
              && (r.Ok? ==> forall i: nat :: UniqueLeader(ElectionTally(g.players, b), i) ==>
                              r.value.sheriff == Some(i) && r.value.players[i].sheriff)
              && (r.Ok? && (forall i: nat :: !UniqueLeader(ElectionTally(g.players, b), i)) ==>
                    r.value.sheriff.None? && SameBadges(g.players, r.value.players))
  {
    if g.sheriff.None? && !g.sheriffElect then
      match HandleSheriffElection(g, b)
      case Ok(h) => Ok(h.(sheriffElect := true))
      case Fail(x) => Fail(x)
    else Ok(g)
  }

  /** One pass of the loop body for event `e`: the night phase on a night
      event; the election if due; then, with no sheriff after the election,
      the badge passes at random INSTEAD of the day phase, which otherwise
      runs on a day event. */
  function EventStep(g: Game, e: Event, inp: Inputs): (r: Result<Game>)
    requires Sound(g)
    ensures r.Ok? ==> Sound(r.value)
    ensures r.Ok? ==> r.value.sheriffElect
    ensures r.Ok? ==> r.value.sheriff.Some? || !Any(r.value.players, AliveNonSheriff)
    ensures e == NightEvent && r.Ok? ==>
              && SameAlive(HandleNightPhase(g, inp.night).players, r.value.players)
              && r.value.wolfKillTarget == HandleNightPhase(g, inp.night).wolfKillTarget
              && r.value.humanWolfVotes == []
    ensures g.sheriff.Some? && e == NightEvent ==> r == Ok(HandleNightPhase(g, inp.night))
    ensures g.sheriff.Some? && e == DayEvent ==> r == HandleDayPhase(g, inp.day)
  {
    var g1 := if e == NightEvent then HandleNightPhase(g, inp.night) else g;
    match ElectionStep(g1, inp.election)
    case Fail(x) => Fail(x)
    case Ok(g2) => AfterElection(g2, e, inp)
  }

  /** The rest of the loop body once the election is behind: with no sheriff
      the badge passes at random, and only otherwise does a day event run
      the day phase. */
  function AfterElection(g: Game, e: Event, inp: Inputs): (r: Result<Game>)
    requires Sound(g) && g.sheriffElect
    ensures r.Ok? ==> Sound(r.value) && r.value.sheriffElect
    ensures r.Ok? ==> r.value.sheriff.Some? || !Any(r.value.players, AliveNonSheriff)
    ensures g.sheriff.None? ==> r.Ok? && r.value.dayCount == g.dayCount && SameAlive(g.players, r.value.players)
    ensures e == NightEvent && r.Ok? ==>
              && SameAlive(g.players, r.value.players)
              && r.value.wolfKillTarget == g.wolfKillTarget && r.value.humanWolfVotes == g.humanWolfVotes
    ensures g.sheriff.Some? && e == NightEvent ==> r == Ok(g)
    ensures g.sheriff.Some? && e == DayEvent ==> r == HandleDayPhase(g, inp.day)
    ensures g.sheriff.None? ==> r == Ok(TransferSheriff(g, inp.transferPick))
  {
    if g.sheriff.None? then Ok(TransferSheriff(g, inp.transferPick))
    else if e == DayEvent then
      var r := HandleDayPhase(g, inp.day);
      if r.Ok? then
        DayKeepsSheriff(g, inp.day);
        r
      else r
    else Ok(g)
  }

  /** Once somebody is sheriff, the day keeps a sheriff. */
  lemma DayKeepsSheriff(g: Game, d: DayInput)
    requires HandleDayPhase(g, d).Ok? && g.sheriff.Some?
    ensures HandleDayPhase(g, d).value.sheriff.Some?
  {
    var h := DayActions(g).(players := DayTally(g.players, d.ballots));
    if k: nat :| UniqueLeader(h.players, k) {
      EliminateBadge(h, k, d.pick);
    }
  }

  /** The election is held at most once: once it has been, the ballots meant
      for it are never looked at again. */
  lemma ElectionHeldOnce(g: Game, e: Event, inp: Inputs, b: Ballots)
    requires Sound(g) && g.sheriffElect
    ensures EventStep(g, e, inp) == EventStep(g, e, inp.(election := b))
  {
  }

  /** On a day event with no sheriff after the election, the badge is handed
      out and the day vote is skipped: nobody dies and the day counter stays. */
  lemma NoSheriffSkipsTheDay(g: Game, inp: Inputs)
    requires Sound(g) && g.sheriff.None? && g.sheriffElect
    ensures EventStep(g, DayEvent, inp).Ok?
    ensures var r := EventStep(g, DayEvent, inp).value;
            r.dayCount == g.dayCount && SameAlive(g.players, r.players)
  {
  }

  /** An election held while nobody wears a flag ends with a sheriff or
      with an alive player the transfer can hand the badge to. */
  lemma ElectionLeavesAnHeir(g: Game, b: Ballots)
    requires g.sheriff.None? && !g.sheriffElect
    requires forall j :: 0 <= j < |g.players| ==> !g.players[j].sheriff
    requires ElectionStep(g, b).Ok?
    ensures ElectionStep(g, b).value.sheriff.Some? || Any(ElectionStep(g, b).value.players, AliveNonSheriff)
  {
    var e := HandleSheriffElection(g, b);
    assert e.Ok? && ElectionStep(g, b) == Ok(e.value.(sheriffElect := true));
    var h := e.value;
    if h.sheriff.None? {
      ElectionWithoutWinner(g, b);
      var a :| 0 <= a < |g.players| && g.players[a].alive;
      assert |h.players| == |g.players|;
      assert Wants(AliveNonSheriff, a, h.players[a]);
    }
  }

  /** The first night of a game nobody wears a flag in always ends with a
      sheriff: an election that elects nobody leaves every flag off, so the
      transfer that follows finds an alive player without one. */
  lemma FirstNightCrowns(g: Game, inp: Inputs)
    requires Sound(g) && g.sheriff.None? && !g.sheriffElect
    requires forall j :: 0 <= j < |g.players| ==> !g.players[j].sheriff
    ensures EventStep(g, NightEvent, inp).Ok? ==> EventStep(g, NightEvent, inp).value.sheriff.Some?
  {
    var g1 := HandleNightPhase(g, inp.night);
    assert SameBadges(g.players, g1.players);
    ElectionThenTransferCrowns(g1, inp.election, inp.transferPick);
  }

  /** The election followed, when it elects nobody, by the transfer. */
  lemma ElectionThenTransferCrowns(g: Game, b: Ballots, pick: nat)
    requires g.sheriff.None? && !g.sheriffElect
    requires forall j :: 0 <= j < |g.players| ==> !g.players[j].sheriff
    ensures var s := ElectionStep(g, b);
            s.Ok? ==> s.value.sheriffElect
                      && (s.value.sheriff.Some? || TransferSheriff(s.value, pick).sheriff.Some?)
  {
    if ElectionStep(g, b).Ok? {
      ElectionLeavesAnHeir(g, b);
    }
  }

  /** Once a sheriff exists, every event keeps one: the election is not held
      again and a badge only ever moves, so `game.sheriff` is never cleared. */
  lemma SheriffStays(g: Game, e: Event, inp: Inputs)
    requires Sound(g) && g.sheriff.Some?
    requires EventStep(g, e, inp).Ok?
    ensures EventStep(g, e, inp).value.sheriff.Some?
  {
    var g1 := if e == NightEvent then HandleNightPhase(g, inp.night) else g;
    assert ElectionStep(g1, inp.election) == Ok(g1);
    if e == DayEvent {
      DayKeepsSheriff(g, inp.day);
      assert EventStep(g, e, inp) == HandleDayPhase(g, inp.day);
    } else {
      assert EventStep(g, e, inp) == Ok(g1);
    }
  }

  /** A run started with a sheriff keeps one, so a day event never finds the
      badge missing and the transfer never takes the place of a day vote. */
  lemma {:induction false} PlayKeepsSheriff(g: Game, k: nat, ins: seq<Inputs>)
    requires Sound(g) && g.sheriff.Some?
    requires Play(g, k, ins).Ok?
    ensures Play(g, k, ins).value.game.sheriff.Some?
    decreases |ins|
  {
    if |ins| > 0 {
      SheriffStays(g, EventAt(k), ins[0]);
      var g1 := EventStep(g, EventAt(k), ins[0]).value;
      if !CheckGameEnd(g1) {
        PlayKeepsSheriff(g1, k + 1, ins[1..]);
      }
    }
  }

  /** A sheriff killed at night keeps the badge: `game.sheriff` still names
      that player, so no transfer happens until a day vote removes a badge
      holder. */
  lemma NightKillKeepsBadge(g: Game, inp: Inputs)
    requires Sound(g) && g.sheriff.Some?
    ensures EventStep(g, NightEvent, inp).Ok?
    ensures EventStep(g, NightEvent, inp).value.sheriff == g.sheriff
  {
  }

  /** The state of the loop after a run of events. */
  datatype Run = Run(game: Game, over: bool)

  /** The loop from event `k` on, one element of `ins` per event: after each
      event the win check decides whether the loop returns. A raised error
      ends the run. Running out of inputs leaves the game going. */
  function Play(g: Game, k: nat, ins: seq<Inputs>): (r: Result<Run>)
    requires Sound(g)
    ensures r.Ok? ==> Sound(r.value.game)
    ensures r.Ok? && r.value.over ==> CheckGameEnd(r.value.game)
    ensures r.Ok? && !r.value.over && |ins| > 0 ==> !CheckGameEnd(r.value.game)
    ensures r.Ok? && |ins| > 0 ==> r.value.game.sheriffElect
    decreases |ins|
  {
    if |ins| == 0 then Ok(Run(g, false))
    else
      match EventStep(g, EventAt(k), ins[0])
      case Fail(x) => Fail(x)
      case Ok(g1) =>
        if CheckGameEnd(g1) then Ok(Run(g1, true))
        else
          Play(g1, k + 1, ins[1..])
  }

  /** The loop checks for the end after every event: a run over `a + b`
      ends where the run over `a` ended if that one raised an error or found
      the game over, and otherwise carries on from its game with `b`, whose
      first event is event `j`, the one after the last of `a`. */
  lemma {:induction false} PlayAppend(g: Game, k: nat, a: seq<Inputs>, b: seq<Inputs>, j: nat)
    requires Sound(g) && j == k + |a|
    ensures Play(g, k, a).Fail? || Play(g, k, a).value.over ==> Play(g, k, a + b) == Play(g, k, a)
    ensures Play(g, k, a).Ok? && !Play(g, k, a).value.over ==>
              Play(g, k, a + b) == Play(Play(g, k, a).value.game, j, b)
    decreases |a|
  {
    if |a| == 0 {
      assert a + b == b;
    } else {
      var s := FirstEvent(g, k, a, b);
      if s.Ok? && !CheckGameEnd(s.value) {
        PlayAppend(s.value, k + 1, a[1..], b, j);
      }
    }
  }

  /** The first event of a run over `a + b` with `a` non-empty is the first
      event of the run over `a`: its outcome `s` decides both runs alike, and
      only a successful event on a game that is not over lets them go on. */
  lemma FirstEvent(g: Game, k: nat, a: seq<Inputs>, b: seq<Inputs>) returns (s: Result<Game>)
    requires Sound(g) && |a| > 0
    ensures s == EventStep(g, EventAt(k), a[0])
    ensures s.Ok? ==> Sound(s.value)
    ensures s.Fail? ==> Play(g, k, a) == Fail(s.error) && Play(g, k, a + b) == Fail(s.error)
    ensures s.Ok? && CheckGameEnd(s.value) ==>
              Play(g, k, a) == Ok(Run(s.value, true)) && Play(g, k, a + b) == Ok(Run(s.value, true))
    ensures s.Ok? && !CheckGameEnd(s.value) ==>
              && Play(g, k, a) == Play(s.value, k + 1, a[1..])
              && Play(g, k, a + b) == Play(s.value, k + 1, a[1..] + b)
  {
    assert (a + b)[0] == a[0] && (a + b)[1..] == a[1..] + b;
    s := EventStep(g, EventAt(k), a[0]);
  }
}
