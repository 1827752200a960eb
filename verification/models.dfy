/** A player record and the queries and updates the engine performs on a roster.
    Players are told apart by their seat (index): the engine compares player
    objects by identity, never by name. */
module Models {
  import opened Types
  import opened Roles

  /** Votes are counted in half-votes so that the sheriff's 1.5 is a whole number. */
  const OneVote: nat := 2
  const SheriffVote: nat := 3

  datatype Player = Player(
    name: string,
    role: Option<Role>,
    isAi: bool,
    alive: bool,
    votes: nat,   // in half-votes
    sheriff: bool)

  /** A freshly seated player: alive, no votes, no badge and no role yet. */
  function NewPlayer(name: string, isAi: bool): (p: Player)
    ensures p.name == name && p.isAi == isAi
    ensures p.alive && p.votes == 0 && !p.sheriff
    ensures p.role.None?
    ensures !IsWolf(p) && !IsSeer(p) && !IsWitch(p) && !IsVillager(p)
  {
    Player(name, None, isAi, true, 0, false)
  }

  predicate IsWolf(p: Player) { p.role.Some? && p.role.value.Wolf? }
  predicate IsSeer(p: Player) { p.role.Some? && p.role.value.Seer? }
  predicate IsWitch(p: Player) { p.role.Some? && p.role.value.Witch? }
  predicate IsVillager(p: Player) { p.role.Some? && p.role.value.Villager? }

  /** The role predicates are exclusive: a player answers yes to at most one. */
  lemma RolePredicatesExclusive(p: Player)
    ensures (if IsWolf(p) then 1 else 0) + (if IsSeer(p) then 1 else 0)
          + (if IsWitch(p) then 1 else 0) + (if IsVillager(p) then 1 else 0) <= 1
    ensures IsWolf(p) <==> p.role == Some(Wolf)
    ensures IsWitch(p) <==> p.role.Some? && Name(p.role.value) == WitchName
  {
  }

  // ---- single-seat updates ----

  function SetAlive(ps: seq<Player>, i: nat, b: bool): seq<Player>
    requires i < |ps|
  {
    ps[i := ps[i].(alive := b)]
  }

  function SetRole(ps: seq<Player>, i: nat, r: Role): seq<Player>
    requires i < |ps|
  {
    ps[i := ps[i].(role := Some(r))]
  }

  function GiveBadge(ps: seq<Player>, i: nat): seq<Player>
    requires i < |ps|
  {
    ps[i := ps[i].(sheriff := true)]
  }

  function AddVotes(ps: seq<Player>, i: nat, w: nat): seq<Player>
    requires i < |ps|
  {
    ps[i := ps[i].(votes := ps[i].votes + w)]
  }

  /** Every player's tally back to zero; nothing else changes. */
  function ResetVotes(ps: seq<Player>): (qs: seq<Player>)
    ensures |qs| == |ps|
    ensures forall j :: 0 <= j < |ps| ==> qs[j] == ps[j].(votes := 0)
  {
    seq(|ps|, j requires 0 <= j < |ps| => ps[j].(votes := 0))
  }

  // ---- frames ----

  /** Optional roles related by `Spent`. */
  predicate RoleSpent(a: Option<Role>, b: Option<Role>) {
    a.None? == b.None? && (a.Some? ==> Spent(a.value, b.value))
  }

  /** Same seats: names, controllers and role variants agree, and witches have
      at most spent potions. */
  predicate SameSeats(ps: seq<Player>, qs: seq<Player>) {
    && |ps| == |qs|
    && forall j :: 0 <= j < |ps| ==>
         && ps[j].name == qs[j].name
         && ps[j].isAi == qs[j].isAi
         && RoleSpent(ps[j].role, qs[j].role)
  }

  lemma SameSeatsTransitive(ps: seq<Player>, qs: seq<Player>, rs: seq<Player>)
    requires SameSeats(ps, qs) && SameSeats(qs, rs)
    ensures SameSeats(ps, rs)
  {
    forall j | 0 <= j < |ps|
      ensures RoleSpent(ps[j].role, rs[j].role)
    {
      if ps[j].role.Some? {
        SpentIsTransitive(ps[j].role.value, qs[j].role.value, rs[j].role.value);
      }
    }
  }

  /** Every alive flag equals the old one, except at seat `t`, which becomes `b`. */
  predicate AliveOnlyAt(ps: seq<Player>, qs: seq<Player>, t: nat, b: bool) {
    && |ps| == |qs|
    && forall j :: 0 <= j < |ps| ==> qs[j].alive == (if j == t then b else ps[j].alive)
  }

  /** Only alive flags changed between the rosters. */
  predicate OnlyAliveChanged(ps: seq<Player>, qs: seq<Player>) {
    |qs| == |ps| && forall j :: 0 <= j < |ps| ==> qs[j] == ps[j].(alive := qs[j].alive)
  }

  lemma OnlyAliveFrames(ps: seq<Player>, qs: seq<Player>)
    requires OnlyAliveChanged(ps, qs)
    ensures SameSeats(ps, qs) && SameVotes(ps, qs) && SameBadges(ps, qs)
  {
    forall j | 0 <= j < |ps|
      ensures qs[j].name == ps[j].name && qs[j].isAi == ps[j].isAi && qs[j].role == ps[j].role
      ensures qs[j].votes == ps[j].votes && qs[j].sheriff == ps[j].sheriff
    {
      assert qs[j] == ps[j].(alive := qs[j].alive);
    }
  }

  /** Alive flags are unchanged. */
  predicate SameAlive(ps: seq<Player>, qs: seq<Player>) {
    |ps| == |qs| && forall j :: 0 <= j < |ps| ==> qs[j].alive == ps[j].alive
  }

  /** Sheriff badges are unchanged. */
  predicate SameBadges(ps: seq<Player>, qs: seq<Player>) {
    |ps| == |qs| && forall j :: 0 <= j < |ps| ==> qs[j].sheriff == ps[j].sheriff
  }

  /** Vote tallies are unchanged. */
  predicate SameVotes(ps: seq<Player>, qs: seq<Player>) {
    |ps| == |qs| && forall j :: 0 <= j < |ps| ==> qs[j].votes == ps[j].votes
  }

  // ---- lookup by name ----

  /** The first seat whose player carries `name`, as the engine's
      `next(p for p in players if p.name == name)` finds it. */
  function FindByName(ps: seq<Player>, name: string): (r: Option<nat>)
    ensures r.Some? ==> r.value < |ps| && ps[r.value].name == name
    ensures r.Some? ==> forall j :: 0 <= j < r.value ==> ps[j].name != name
    ensures r.None? ==> forall j :: 0 <= j < |ps| ==> ps[j].name != name
  {
    FindFrom(ps, name, 0)
  }

  function FindFrom(ps: seq<Player>, name: string, k: nat): (r: Option<nat>)
    requires k <= |ps|
    ensures r.Some? ==> k <= r.value < |ps| && ps[r.value].name == name
    ensures r.Some? ==> forall j :: k <= j < r.value ==> ps[j].name != name
    ensures r.None? ==> forall j :: k <= j < |ps| ==> ps[j].name != name
    decreases |ps| - k
  {
    if k == |ps| then None
    else if ps[k].name == name then Some(k)
    else FindFrom(ps, name, k + 1)
  }

  /** The lookup sees names only: rosters with the same names answer alike. */
  lemma FindSeesOnlyNames(ps: seq<Player>, qs: seq<Player>, name: string)
    requires |ps| == |qs|
    requires forall j :: 0 <= j < |ps| ==> ps[j].name == qs[j].name
    ensures FindByName(ps, name) == FindByName(qs, name)
  {
  }

  lemma SameSeatsFind(ps: seq<Player>, qs: seq<Player>, name: string)
    requires SameSeats(ps, qs)
    ensures FindByName(ps, name) == FindByName(qs, name)
  {
    FindSeesOnlyNames(ps, qs, name);
  }
}
