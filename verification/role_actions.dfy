/** What each role does when asked to act, and the player-level dispatch that
    asks it. An action returns an intent (the dictionary the engine returns, or
    `None`) together with the roster after any effect the role applied itself:
    the computer-controlled witch and hunter change alive flags directly. */
module RoleActions {
  import opened Types
  import opened Roles
  import opened Models
  import opened Roster

  /** The dictionaries a role action returns. */
  datatype Intent =
    | WolfVote(target: string)              // {"vote": name}
    | Save(target: string)                  // {"action": "save", "target": name}
    | Poison(target: string)                // {"action": "poison", "target": name}
    | Check(target: string, result: string) // {"action": "check", "target": name, "result": ...}
    | Shot(target: string)                  // {"target": name}

  /** The random draws one action may consume: one `random.choice` and the two
      `random.random() < p` rolls of the witch (0.7 to save, 0.3 to poison). */
  datatype Dice = Dice(pick: nat, saveRoll: bool, poisonRoll: bool)

  datatype Outcome = Outcome(intent: Option<Intent>, players: seq<Player>)

  /** Nothing returned, nothing changed. */
  predicate Quiet(r: Outcome, ps: seq<Player>) {
    r.intent.None? && r.players == ps
  }

  /** The roster changed only in seat `t`'s alive flag (to `b`) and in the
      potions of the witch at seat `w`. */
  predicate OnlyFlipAndPotion(ps: seq<Player>, qs: seq<Player>, t: nat, b: bool, w: nat) {
    && SameSeats(ps, qs) && SameVotes(ps, qs) && SameBadges(ps, qs)
    && AliveOnlyAt(ps, qs, t, b)
    && forall j :: 0 <= j < |ps| && j != w ==> qs[j].role == ps[j].role
  }

  /** Seat `t`'s alive flag set to `b` and the witch at seat `w` left holding
      potions `after`, which it held before. */
  function FlipAndSpend(ps: seq<Player>, t: nat, b: bool, w: nat, after: Role): (qs: seq<Player>)
    requires t < |ps| && w < |ps| && IsWitch(ps[w])
    requires after.Witch? && Spent(ps[w].role.value, after)
    ensures OnlyFlipAndPotion(ps, qs, t, b, w)
    ensures qs[w].role == Some(after)
  {
    SetRole(SetAlive(ps, t, b), w, after)
  }

  /** Wolf at night: a computer wolf votes for a random alive non-wolf; a human
      wolf answers through the network instead, so the role returns nothing. */
  function WolfNight(ps: seq<Player>, i: nat, d: Dice): (r: Outcome)
    requires i < |ps|
    ensures r.players == ps
    ensures r.intent.Some? <==> ps[i].isAi && Any(ps, AliveNonWolf)
    ensures r.intent.Some? ==> r.intent.value.WolfVote?
    ensures r.intent.Some? ==> exists t :: 0 <= t < |ps| && ps[t].alive && !IsWolf(ps[t])
                                        && ps[t].name == r.intent.value.target
    ensures r.intent.Some? ==> r.intent.value.target == ps[PickSeat(ps, AliveNonWolf, d.pick)].name
  {
    if ps[i].isAi then
      if Any(ps, AliveNonWolf) then
        var t := PickSeat(ps, AliveNonWolf, d.pick);
        Outcome(Some(WolfVote(ps[t].name)), ps)
      else Outcome(None, ps)
    else Outcome(None, ps)
  }

  /** Witch at night. A human witch answers through the network. A computer
      witch holding the antidote revives a random dead non-wolf when the save
      roll succeeds and returns at once; otherwise, holding the poison, it
      kills a random alive wolf when the poison roll succeeds. */
  function WitchNight(ps: seq<Player>, i: nat, d: Dice): (r: Outcome)
    requires i < |ps| && IsWitch(ps[i])
    ensures !ps[i].isAi ==> Quiet(r, ps)
    ensures r.intent.None? ==> r.players == ps
    ensures SameSeats(ps, r.players)
    ensures var w := ps[i].role.value;
            r.intent.Some? && r.intent.value.Save?
            <==> ps[i].isAi && w.hasAntidote && d.saveRoll && Any(ps, DeadNonWolf)
    ensures var w := ps[i].role.value;
            r.intent.Some? && r.intent.value.Poison?
            <==> && ps[i].isAi && w.hasPoison && d.poisonRoll && Any(ps, AliveWolf)
                 && !(w.hasAntidote && d.saveRoll && Any(ps, DeadNonWolf))
    ensures r.intent.Some? ==> r.intent.value.Save? || r.intent.value.Poison?
    ensures var w := ps[i].role.value;
            r.intent.Some? && r.intent.value.Save? ==>
              && r.players[i].role == Some(Witch(w.hasPoison, false))
              && exists t :: 0 <= t < |ps| && !ps[t].alive && !IsWolf(ps[t])
                          && ps[t].name == r.intent.value.target
                          && OnlyFlipAndPotion(ps, r.players, t, true, i)
    ensures var w := ps[i].role.value;
            r.intent.Some? && r.intent.value.Poison? ==>
              && r.players[i].role == Some(Witch(false, w.hasAntidote))
              && exists t :: 0 <= t < |ps| && ps[t].alive && IsWolf(ps[t])
                          && ps[t].name == r.intent.value.target
                          && OnlyFlipAndPotion(ps, r.players, t, false, i)
  {
    var w := ps[i].role.value;
    if !ps[i].isAi then Outcome(None, ps)
    else if w.hasAntidote && Any(ps, DeadNonWolf) && d.saveRoll then WitchSave(ps, i, d.pick)
    else if w.hasPoison && Any(ps, AliveWolf) && d.poisonRoll then WitchPoison(ps, i, d.pick)
    else Outcome(None, ps)
  }

  /** The antidote spent on a random dead non-wolf, who is alive again. */
  function WitchSave(ps: seq<Player>, i: nat, draw: nat): (r: Outcome)
    requires i < |ps| && IsWitch(ps[i]) && ps[i].role.value.hasAntidote && Any(ps, DeadNonWolf)
    ensures r.intent.Some? && r.intent.value.Save?
    ensures SameSeats(ps, r.players)
    ensures r.players[i].role == Some(Witch(ps[i].role.value.hasPoison, false))
    ensures exists t :: 0 <= t < |ps| && !ps[t].alive && !IsWolf(ps[t])
                     && ps[t].name == r.intent.value.target
                     && OnlyFlipAndPotion(ps, r.players, t, true, i)
  {
    var t := PickSeat(ps, DeadNonWolf, draw);
    Outcome(Some(Save(ps[t].name)), FlipAndSpend(ps, t, true, i, Witch(ps[i].role.value.hasPoison, false)))
  }

  /** The poison spent on a random alive wolf, who dies. */
  function WitchPoison(ps: seq<Player>, i: nat, draw: nat): (r: Outcome)
    requires i < |ps| && IsWitch(ps[i]) && ps[i].role.value.hasPoison && Any(ps, AliveWolf)
    ensures r.intent.Some? && r.intent.value.Poison?
    ensures SameSeats(ps, r.players)
    ensures r.players[i].role == Some(Witch(false, ps[i].role.value.hasAntidote))
    ensures exists t :: 0 <= t < |ps| && ps[t].alive && IsWolf(ps[t])
                     && ps[t].name == r.intent.value.target
                     && OnlyFlipAndPotion(ps, r.players, t, false, i)
  {
    var t := PickSeat(ps, AliveWolf, draw);
    Outcome(Some(Poison(ps[t].name)), FlipAndSpend(ps, t, false, i, Witch(false, ps[i].role.value.hasAntidote)))
  }

  /** Seer at night: a computer seer inspects a random alive other player and
      learns whether it is a wolf; nothing in the game changes. */
  function SeerNight(ps: seq<Player>, i: nat, d: Dice): (r: Outcome)
    requires i < |ps|
    ensures r.players == ps
    ensures r.intent.Some? <==> ps[i].isAi && Any(ps, AliveOther(i))
    ensures r.intent.Some? ==> r.intent.value.Check?
    ensures r.intent.Some? ==>
              exists t :: 0 <= t < |ps| && ps[t].alive && t != i
                       && ps[t].name == r.intent.value.target
                       && (r.intent.value.result == WolfName <==> IsWolf(ps[t]))
                       && (r.intent.value.result == GoodName <==> !IsWolf(ps[t]))
  {
    if !ps[i].isAi then Outcome(None, ps)
    else
      var c := Seats(ps, AliveOther(i));
      if |c| > 0 then
        var t := Pick(c, d.pick);
        Outcome(Some(Check(ps[t].name, if IsWolf(ps[t]) then WolfName else GoodName)), ps)
      else Outcome(None, ps)
  }

  /** Hunter by day: once dead, a computer hunter shoots a random alive other
      player. */
  function HunterDay(ps: seq<Player>, i: nat, d: Dice): (r: Outcome)
    requires i < |ps|
    ensures ps[i].alive ==> Quiet(r, ps)
    ensures r.intent.Some? <==> !ps[i].alive && ps[i].isAi && Any(ps, AliveOther(i))
    ensures r.intent.None? ==> r.players == ps
    ensures r.intent.Some? ==>
              && r.intent.value.Shot?
              && exists t :: 0 <= t < |ps| && ps[t].alive && t != i
                          && ps[t].name == r.intent.value.target
                          && OnlyFlipAndPotion(ps, r.players, t, false, i)
                          && r.players[i] == ps[i]
  {
    if !ps[i].alive then
      if !ps[i].isAi then Outcome(None, ps)
      else
        var c := Seats(ps, AliveOther(i));
        if |c| > 0 then
          var t := Pick(c, d.pick);
          Outcome(Some(Shot(ps[t].name)), SetAlive(ps, t, false))
        else Outcome(None, ps)
    else Outcome(None, ps)
  }

  /** `Player.night_action`: a player without a role does nothing; otherwise
      the role's night action answers. Villagers and hunters do nothing at
      night. */
  function NightAction(ps: seq<Player>, i: nat, d: Dice): (r: Outcome)
    requires i < |ps|
    ensures ps[i].role.None? ==> Quiet(r, ps)
    ensures ps[i].role == Some(Wolf) ==> r == WolfNight(ps, i, d)
    ensures IsWitch(ps[i]) ==> r == WitchNight(ps, i, d)
    ensures ps[i].role == Some(Seer) ==> r == SeerNight(ps, i, d)
    ensures ps[i].role == Some(Villager) || ps[i].role == Some(Hunter) ==> Quiet(r, ps)
  {
    match ps[i].role
    case None => Outcome(None, ps)
    case Some(Wolf) => WolfNight(ps, i, d)
    case Some(Villager) => Outcome(None, ps)
    case Some(Witch(_, _)) => WitchNight(ps, i, d)
    case Some(Seer) => SeerNight(ps, i, d)
    case Some(Hunter) => Outcome(None, ps)
  }

  /** `Player.day_action`: only the hunter has a day action. */
  function DayAction(ps: seq<Player>, i: nat, d: Dice): (r: Outcome)
    requires i < |ps|
    ensures ps[i].role == Some(Hunter) ==> r == HunterDay(ps, i, d)
    ensures ps[i].role != Some(Hunter) ==> Quiet(r, ps)
  {
    match ps[i].role
    case Some(Hunter) => HunterDay(ps, i, d)
    case _ => Outcome(None, ps)
  }

  /** Acting at night never changes who sits where or what role they hold,
      touches no tally and no badge, and a witch's potions only ever run out:
      no potion once spent comes back. */
  lemma NightActionOnlySpends(ps: seq<Player>, i: nat, d: Dice)
    requires i < |ps|
    ensures var r := NightAction(ps, i, d);
            SameSeats(ps, r.players) && SameVotes(ps, r.players) && SameBadges(ps, r.players)
  {
    var r := NightAction(ps, i, d);
    if IsWitch(ps[i]) && r.intent.Some? {
      var w := ps[i].role.value;
      if r.intent.value.Save? {
        var t :| 0 <= t < |ps| && OnlyFlipAndPotion(ps, r.players, t, true, i);
      } else {
        var t :| 0 <= t < |ps| && OnlyFlipAndPotion(ps, r.players, t, false, i);
      }
    }
  }

  /** A computer witch spends at most one potion per night: it never ends the
      call with both potions gone that it held at its start. */
  lemma AiWitchSpendsAtMostOne(ps: seq<Player>, i: nat, d: Dice)
    requires i < |ps| && IsWitch(ps[i])
    ensures var w := ps[i].role.value;
            var r := WitchNight(ps, i, d);
            var w' := r.players[i].role.value;
            !(w.hasPoison && !w'.hasPoison && w.hasAntidote && !w'.hasAntidote)
  {
  }
}
