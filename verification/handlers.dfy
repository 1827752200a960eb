/** The state logic of the server's per-player handlers: the status snapshot
    each human receives, and how one human's answer to a day vote, a sheriff
    vote, a wolf prompt, a witch prompt or a seer prompt changes the game.
    An answer is the decoded reply dictionary reduced to the fields the
    handler reads; an empty or undecodable reply is the absent field. */
module Handlers {
  import opened Types
  import opened Roles
  import opened Models
  import opened Tally
  import opened WerewolfGame

  // ---- the status snapshot ----

  /** What a viewer is told about a role it may not see. */
  const Unknown: string := "未知"

  /** One row of the snapshot: name, role name (or `Unknown`), alive, badge. */
  datatype Entry = Entry(name: string, role: string, alive: bool, sheriff: bool)

  /** The `game_status` message: the viewer's own role name, one row per seat,
      and the day counter. */
  datatype Status = Status(role: string, players: seq<Entry>, dayCount: int)

  /** Viewer `v` may see seat `j`'s role: its own, or a fellow wolf's. */
  predicate Visible(ps: seq<Player>, v: nat, j: nat)
    requires v < |ps| && j < |ps|
  {
    j == v || (IsWolf(ps[j]) && IsWolf(ps[v]))
  }

  /** No role is called `Unknown`, so a hidden role is told apart from a shown one. */
  lemma NoRoleIsUnknown(r: Role)
    ensures Name(r) != Unknown
  {
  }

  /** The snapshot sent to the human at seat `v`. The viewer must hold a role
      (its own role name is read unconditionally); other seats' roles are read
      only when visible, and a visible seat holds a role. */
  function StatusFor(g: Game, v: nat): (s: Status)
    requires v < |g.players| && g.players[v].role.Some?
    ensures s.role == Name(g.players[v].role.value) && s.dayCount == g.dayCount
    ensures |s.players| == |g.players|
    ensures forall j :: 0 <= j < |g.players| ==>
              && s.players[j].name == g.players[j].name
              && s.players[j].alive == g.players[j].alive
              && s.players[j].sheriff == g.players[j].sheriff
    ensures forall j :: 0 <= j < |g.players| ==>
              (s.players[j].role != Unknown <==> Visible(g.players, v, j))
    ensures forall j :: 0 <= j < |g.players| && Visible(g.players, v, j) ==>
              g.players[j].role.Some? && s.players[j].role == Name(g.players[j].role.value)
  {
    var ps := g.players;
    Status(
      Name(ps[v].role.value),
      seq(|ps|, j requires 0 <= j < |ps| =>
        Entry(ps[j].name,
              if Visible(ps, v, j) then (NoRoleIsUnknown(ps[j].role.value); Name(ps[j].role.value))
              else Unknown,
              ps[j].alive, ps[j].sheriff)),
      g.dayCount)
  }

  /** The rosters agree on everything the snapshot shows unconditionally. */
  predicate SamePublic(g: Game, h: Game) {
    && |g.players| == |h.players| && g.dayCount == h.dayCount
    && forall j :: 0 <= j < |g.players| ==>
         && g.players[j].name == h.players[j].name
         && g.players[j].alive == h.players[j].alive
         && g.players[j].sheriff == h.players[j].sheriff
  }

  /** A non-wolf learns nothing about anybody else's role: two games that
      differ only in the other seats' roles give it the same snapshot. */
  lemma NonWolfSeesOnlyItself(g: Game, h: Game, v: nat)
    requires SamePublic(g, h) && v < |g.players|
    requires g.players[v].role.Some? && h.players[v].role == g.players[v].role
    requires !IsWolf(g.players[v])
    ensures StatusFor(g, v) == StatusFor(h, v)
  {
    var s, t := StatusFor(g, v), StatusFor(h, v);
    forall j | 0 <= j < |g.players|
      ensures s.players[j] == t.players[j]
    {
      if j == v {
        assert s.players[j].role == t.players[j].role;
      } else {
        assert !Visible(g.players, v, j) && !Visible(h.players, v, j);
      }
    }
  }

  /** A wolf learns who the wolves are and nothing else: two games with the
      same wolves, differing in which non-wolf role each other seat holds,
      give it the same snapshot. */
  lemma WolfSeesOnlyThePack(g: Game, h: Game, v: nat)
    requires SamePublic(g, h) && v < |g.players|
    requires IsWolf(g.players[v]) && h.players[v].role == g.players[v].role
    requires forall j :: 0 <= j < |g.players| ==> (IsWolf(g.players[j]) <==> IsWolf(h.players[j]))
    ensures StatusFor(g, v) == StatusFor(h, v)
  {
    var s, t := StatusFor(g, v), StatusFor(h, v);
    forall j | 0 <= j < |g.players|
      ensures s.players[j] == t.players[j]
    {
      if IsWolf(g.players[j]) {
        assert g.players[j].role == Some(Wolf) == h.players[j].role;
      } else {
        assert !Visible(g.players, v, j) && !Visible(h.players, v, j);
      }
    }
  }

  // ---- ballots ----

  /** The sum of every seat's tally, in half-votes. */
  function TotalVotes(ps: seq<Player>): nat {
    if |ps| == 0 then 0 else TotalVotes(ps[..|ps| - 1]) + ps[|ps| - 1].votes
  }

  /** Replacing one seat changes the sum by exactly the change in its tally. */
  lemma {:induction false} TotalAfterUpdate(ps: seq<Player>, i: nat, p: Player)
    requires i < |ps|
    ensures TotalVotes(ps[i := p]) == TotalVotes(ps) - ps[i].votes + p.votes
  {
    var n := |ps|;
    if i == n - 1 {
      assert ps[i := p][..n - 1] == ps[..n - 1];
    } else {
      assert ps[i := p][..n - 1] == ps[..n - 1][i := p];
      TotalAfterUpdate(ps[..n - 1], i, p);
    }
  }

  /** `w` more half-votes for seat `t`; the sum grows by `w`. */
  function Bump(ps: seq<Player>, t: nat, w: nat): (qs: seq<Player>)
    requires t < |ps|
    ensures |qs| == |ps|
    ensures forall j :: 0 <= j < |ps| ==>
              qs[j] == if j == t then ps[j].(votes := ps[j].votes + w) else ps[j]
    ensures VotesGrew(ps, qs)
    ensures TotalVotes(qs) == TotalVotes(ps) + w
  {
    TotalAfterUpdate(ps, t, ps[t].(votes := ps[t].votes + w));
    AddVotes(ps, t, w)
  }

  /** Only tallies changed between the rosters, and none went down. */
  predicate VotesGrew(ps: seq<Player>, qs: seq<Player>) {
    && |qs| == |ps|
    && forall j :: 0 <= j < |ps| ==> qs[j] == ps[j].(votes := qs[j].votes) && qs[j].votes >= ps[j].votes
  }

  lemma VotesGrewTransitive(ps: seq<Player>, qs: seq<Player>, rs: seq<Player>)
    requires VotesGrew(ps, qs) && VotesGrew(qs, rs)
    ensures VotesGrew(ps, rs)
  {
    forall j | 0 <= j < |ps|
      ensures rs[j] == ps[j].(votes := rs[j].votes) && rs[j].votes >= ps[j].votes
    {
      assert qs[j] == ps[j].(votes := qs[j].votes);
    }
  }

  /** Ballots leave seats, alive flags and badges alone, so also who is alive. */
  lemma VotesGrewFrames(ps: seq<Player>, qs: seq<Player>)
    requires VotesGrew(ps, qs)
    ensures SameSeats(ps, qs) && SameAlive(ps, qs) && SameBadges(ps, qs)
  {
    forall j | 0 <= j < |ps|
      ensures qs[j].name == ps[j].name && qs[j].isAi == ps[j].isAi && qs[j].role == ps[j].role
      ensures qs[j].alive == ps[j].alive && qs[j].sheriff == ps[j].sheriff
    {
      assert qs[j] == ps[j].(votes := qs[j].votes);
    }
  }

  /** A ballot for a name: `w` half-votes go to the first seat carrying it; a
      missing name, or one nobody carries, changes nothing. */
  function Ballot(ps: seq<Player>, name: Option<string>, w: nat): (qs: seq<Player>)
    ensures VotesGrew(ps, qs)
    ensures forall j :: 0 <= j < |ps| && qs[j].votes != ps[j].votes ==>
              name.Some? && ps[j].name == name.value
    ensures forall j :: 0 <= j < |ps| ==> qs[j].votes == ps[j].votes + (if Named(ps, name) == Some(j) then w else 0)
    ensures TotalVotes(qs) == TotalVotes(ps) + (if name.Some? && FindByName(ps, name.value).Some? then w else 0)
  {
    if name.Some? then
      match FindByName(ps, name.value)
      case Some(t) => Bump(ps, t, w)
      case None => ps
    else ps
  }

  /** A human's day-vote weight: one and a half votes while holding the badge,
      one otherwise. */
  function DayWeight(p: Player): (w: nat)
    ensures w == OneVote || w == SheriffVote
    ensures p.sheriff <==> w > OneVote
  {
    if p.sheriff then SheriffVote else OneVote
  }

  /** `player_day_vote`: the human at seat `v` names somebody; the badge holder
      counts one and a half votes, anybody else one. The name is not checked
      against the candidate list sent out. */
  function PlayerDayVote(g: Game, v: nat, reply: Option<string>): (r: Game)
    requires v < |g.players|
    ensures r.(players := g.players) == g
    ensures SameSeats(g.players, r.players) && SameAlive(g.players, r.players)
    ensures SameBadges(g.players, r.players)
    ensures forall j :: 0 <= j < |g.players| ==>
              r.players[j].votes == g.players[j].votes +
                (if Named(g.players, reply) == Some(j) then
                   (if g.players[v].sheriff then SheriffVote else OneVote)
                 else 0)
    ensures TotalVotes(r.players) == TotalVotes(g.players) +
              (if reply.Some? && FindByName(g.players, reply.value).Some? then
                 (if g.players[v].sheriff then SheriffVote else OneVote)
               else 0)
  {
    g.(players := Ballot(g.players, reply, DayWeight(g.players[v])))
  }

  /** `player_sheriff_vote`: every ballot counts one vote, whoever casts it. A
      reply without a name ends the voter's thread without a vote. */
  function PlayerSheriffVote(g: Game, reply: Option<string>): (r: Game)
    ensures r.(players := g.players) == g
    ensures SameSeats(g.players, r.players) && SameAlive(g.players, r.players)
    ensures SameBadges(g.players, r.players)
    ensures forall j :: 0 <= j < |g.players| ==>
              r.players[j].votes == g.players[j].votes + (if Named(g.players, reply) == Some(j) then OneVote else 0)
    ensures TotalVotes(r.players) == TotalVotes(g.players) +
              (if reply.Some? && FindByName(g.players, reply.value).Some? then OneVote else 0)
  {
    g.(players := Ballot(g.players, reply, OneVote))
  }

  // ---- night replies ----

  /** A human wolf's reply: the named target gets one more vote in tonight's
      human tally; the name is not checked and no alive flag changes. */
  function WolfReply(g: Game, reply: Option<string>): (r: Game)
    requires Distinct(g.humanWolfVotes)
    ensures r.(humanWolfVotes := g.humanWolfVotes) == g
    ensures Distinct(r.humanWolfVotes)
    ensures Counted(g.humanWolfVotes) ==> Counted(r.humanWolfVotes)
    ensures forall x :: Count(r.humanWolfVotes, x)
                        == Count(g.humanWolfVotes, x) + (if reply == Some(x) then 1 else 0)
  {
    match reply
    case Some(x) =>
      AddKeepsDistinct(g.humanWolfVotes, x, 1);
      AddKeepsCounted(g.humanWolfVotes, x, 1);
      g.(humanWolfVotes := Add(g.humanWolfVotes, x, 1))
    case None => g
  }

  /** The fields of a human witch's reply. */
  datatype WitchReply = WitchReply(save: Option<string>, poison: Option<string>)

  /** The seat a reply field names, if it names somebody. */
  function Named(ps: seq<Player>, name: Option<string>): (r: Option<nat>)
    ensures r.Some? ==> name.Some? && r.value < |ps| && ps[r.value].name == name.value
  {
    if name.Some? then FindByName(ps, name.value) else None
  }

  /** The lookup sees names only. */
  lemma NamedSeesOnlyNames(ps: seq<Player>, qs: seq<Player>, name: Option<string>)
    requires |ps| == |qs|
    requires forall j :: 0 <= j < |ps| ==> ps[j].name == qs[j].name
    ensures Named(ps, name) == Named(qs, name)
  {
    if name.Some? {
      FindSeesOnlyNames(ps, qs, name.value);
    }
  }

  /** The save applies: the witch still holds the antidote and names a dead player. */
  predicate SaveApplies(ps: seq<Player>, w: nat, reply: WitchReply)
    requires w < |ps| && IsWitch(ps[w])
  {
    var t := Named(ps, reply.save);
    ps[w].role.value.hasAntidote && t.Some? && !ps[t.value].alive
  }

  /** The poison applies: the witch still holds the poison and names a player
      who is alive, or who the save in the same reply has just revived. */
  predicate PoisonApplies(ps: seq<Player>, w: nat, reply: WitchReply)
    requires w < |ps| && IsWitch(ps[w])
  {
    var t := Named(ps, reply.poison);
    && ps[w].role.value.hasPoison && t.Some?
    && (ps[t.value].alive || (SaveApplies(ps, w, reply) && Named(ps, reply.save) == t))
  }

  /** The save step of a reply: a dead named player revived, the antidote spent. */
  function Revive(ps: seq<Player>, w: nat, reply: WitchReply): (qs: seq<Player>)
    requires w < |ps| && IsWitch(ps[w])
    ensures SameSeats(ps, qs) && SameVotes(ps, qs) && SameBadges(ps, qs)
    ensures forall j :: 0 <= j < |ps| && j != w ==> qs[j].role == ps[j].role
    ensures IsWitch(qs[w]) && qs[w].role.value.hasPoison == ps[w].role.value.hasPoison
    ensures qs[w].role.value.hasAntidote == (ps[w].role.value.hasAntidote && !SaveApplies(ps, w, reply))
    ensures forall j :: 0 <= j < |ps| ==>
              qs[j].alive == (if SaveApplies(ps, w, reply) && Named(ps, reply.save) == Some(j) then true
                              else ps[j].alive)
  {
    if SaveApplies(ps, w, reply) then
      var t := Named(ps, reply.save).value;
      SetRole(SetAlive(ps, t, true), w, Witch(ps[w].role.value.hasPoison, false))
    else ps
  }

  /** The poison reaches its target: the witch holds the poison and the named
      player is alive. */
  predicate KillApplies(ps: seq<Player>, w: nat, name: Option<string>)
    requires w < |ps| && IsWitch(ps[w])
  {
    var t := Named(ps, name);
    ps[w].role.value.hasPoison && t.Some? && ps[t.value].alive
  }

  /** The poison step of a reply: an alive named player killed, the poison spent. */
  function Kill(ps: seq<Player>, w: nat, name: Option<string>): (qs: seq<Player>)
    requires w < |ps| && IsWitch(ps[w])
    ensures SameSeats(ps, qs) && SameVotes(ps, qs) && SameBadges(ps, qs)
    ensures forall j :: 0 <= j < |ps| && j != w ==> qs[j].role == ps[j].role
    ensures IsWitch(qs[w]) && qs[w].role.value.hasAntidote == ps[w].role.value.hasAntidote
    ensures qs[w].role.value.hasPoison == (ps[w].role.value.hasPoison && !KillApplies(ps, w, name))
    ensures forall j :: 0 <= j < |ps| ==>
              qs[j].alive == (if KillApplies(ps, w, name) && Named(ps, name) == Some(j) then false
                              else ps[j].alive)
  {
    if KillApplies(ps, w, name) then
      var t := Named(ps, name).value;
      SetRole(SetAlive(ps, t, false), w, Witch(false, ps[w].role.value.hasAntidote))
    else ps
  }

  /** After the save step, the poison reaches its target exactly when the
      reply's poison applies to the roster the witch was shown. */
  lemma PoisonAfterSave(ps: seq<Player>, w: nat, reply: WitchReply)
    requires w < |ps| && IsWitch(ps[w])
    ensures var ps1 := Revive(ps, w, reply);
            && Named(ps1, reply.poison) == Named(ps, reply.poison)
            && (KillApplies(ps1, w, reply.poison) <==> PoisonApplies(ps, w, reply))
  {
    var ps1 := Revive(ps, w, reply);
    NamedSeesOnlyNames(ps, ps1, reply.poison);
  }

  /** The human witch at seat `w` answers: the save is applied first, then the
      poison, each independently of the other, so one reply may spend both
      potions. A name nobody carries, or a potion already spent, is a no-op. */
  function ApplyWitchReply(ps: seq<Player>, w: nat, reply: WitchReply): (qs: seq<Player>)
    requires w < |ps| && IsWitch(ps[w])
    ensures SameSeats(ps, qs) && SameVotes(ps, qs) && SameBadges(ps, qs)
    ensures forall j :: 0 <= j < |ps| && j != w ==> qs[j].role == ps[j].role
    ensures IsWitch(qs[w])
    ensures qs[w].role.value.hasAntidote == (ps[w].role.value.hasAntidote && !SaveApplies(ps, w, reply))
    ensures qs[w].role.value.hasPoison == (ps[w].role.value.hasPoison && !PoisonApplies(ps, w, reply))
    ensures forall j :: 0 <= j < |ps| ==>
              qs[j].alive == (if PoisonApplies(ps, w, reply) && Named(ps, reply.poison) == Some(j) then false
                              else if SaveApplies(ps, w, reply) && Named(ps, reply.save) == Some(j) then true
                              else ps[j].alive)
  {
    var ps1 := Revive(ps, w, reply);
    PoisonAfterSave(ps, w, reply);
    SameSeatsTransitive(ps, ps1, Kill(ps1, w, reply.poison));
    Kill(ps1, w, reply.poison)
  }

  /** Unlike the computer witch, a human witch can spend both potions in one
      night: naming a dead player to save and a different alive player to
      poison does both. */
  lemma HumanWitchCanSpendBoth(ps: seq<Player>, w: nat, a: string, b: string)
    requires w < |ps| && ps[w].role == Some(NewWitch)
    requires FindByName(ps, a).Some? && !ps[FindByName(ps, a).value].alive
    requires FindByName(ps, b).Some? && ps[FindByName(ps, b).value].alive
    ensures var qs := ApplyWitchReply(ps, w, WitchReply(Some(a), Some(b)));
            qs[w].role == Some(Witch(false, false))
            && qs[FindByName(ps, a).value].alive && !qs[FindByName(ps, b).value].alive
  {
  }

  /** Naming the same dead player for both potions revives and then kills
      that player: the night ends with the player dead and both potions gone. */
  lemma SaveAndPoisonSamePlayer(ps: seq<Player>, w: nat, a: string)
    requires w < |ps| && ps[w].role == Some(NewWitch)
    requires FindByName(ps, a).Some? && !ps[FindByName(ps, a).value].alive
    ensures var qs := ApplyWitchReply(ps, w, WitchReply(Some(a), Some(a)));
            qs[w].role == Some(Witch(false, false)) && !qs[FindByName(ps, a).value].alive
  {
  }

  /** A human seer's reply: the answer names the first seat carrying the name
      as a wolf or as good; a missing or unknown name gets no answer. Nothing
      in the game changes. */
  function SeerAnswer(ps: seq<Player>, reply: Option<string>): (r: Option<string>)
    ensures r.Some? <==> Named(ps, reply).Some?
    ensures r.Some? ==> (r.value == WolfName <==> IsWolf(ps[Named(ps, reply).value]))
    ensures r.Some? ==> (r.value == GoodName <==> !IsWolf(ps[Named(ps, reply).value]))
  {
    match Named(ps, reply)
    case Some(t) => Some(if IsWolf(ps[t]) then WolfName else GoodName)
    case None => None
  }
}
