/** The candidate lists the engine builds from the roster (its list
    comprehensions), the maximum-tally rule shared by the sheriff election and
    the day vote, and the alive-faction counts of the win check. */
module Roster {
  import opened Types
  import opened Roles
  import opened Models

  /** The filters the engine's comprehensions apply to a seat. */
  datatype Want =
    | Alive                   // p.alive
    | AliveNonWolf            // p.alive and not p.is_wolf()
    | DeadNonWolf             // not p.alive and not p.is_wolf()
    | AliveWolf               // p.alive and p.is_wolf()
    | AliveOther(self: nat)   // p.alive and p != player
    | AliveNonSheriff         // p.alive and not p.sheriff
    | AliveAi                 // alive players outside the human list
    | TopVotes(m: nat)        // p.alive and p.votes == m

  predicate Wants(w: Want, j: nat, p: Player) {
    match w
    case Alive => p.alive
    case AliveNonWolf => p.alive && !IsWolf(p)
    case DeadNonWolf => !p.alive && !IsWolf(p)
    case AliveWolf => p.alive && IsWolf(p)
    case AliveOther(self) => p.alive && j != self
    case AliveNonSheriff => p.alive && !p.sheriff
    case AliveAi => p.alive && p.isAi
    case TopVotes(m) => p.alive && p.votes == m
  }

  /** Some seat passes the filter. */
  predicate Any(ps: seq<Player>, w: Want) {
    exists j :: 0 <= j < |ps| && Wants(w, j, ps[j])
  }

  /** The seats passing the filter, in seating order. */
  function Seats(ps: seq<Player>, w: Want): (r: seq<nat>)
    ensures forall k :: 0 <= k < |r| ==> r[k] < |ps| && Wants(w, r[k], ps[r[k]])
    ensures forall j :: 0 <= j < |ps| && Wants(w, j, ps[j]) ==> j in r
    ensures forall a, b :: 0 <= a < b < |r| ==> r[a] < r[b]
    ensures |r| > 0 <==> Any(ps, w)
  {
    var r := SeatsBelow(ps, w, |ps|);
    assert Any(ps, w) ==> |r| > 0 by {
      if Any(ps, w) {
        var j :| 0 <= j < |ps| && Wants(w, j, ps[j]);
        assert j in r;
      }
    }
    assert |r| > 0 ==> Wants(w, r[0], ps[r[0]]);
    r
  }

  function SeatsBelow(ps: seq<Player>, w: Want, n: nat): (r: seq<nat>)
    requires n <= |ps|
    ensures forall k :: 0 <= k < |r| ==> r[k] < n && Wants(w, r[k], ps[r[k]])
    ensures forall j :: 0 <= j < n && Wants(w, j, ps[j]) ==> j in r
    ensures forall a, b :: 0 <= a < b < |r| ==> r[a] < r[b]
  {
    if n == 0 then []
    else
      var r := SeatsBelow(ps, w, n - 1);
      if Wants(w, n - 1, ps[n - 1]) then r + [n - 1] else r
  }

  /** `random.choice(cands)`, with the draw given as a raw number. */
  function Pick<T>(cands: seq<T>, draw: nat): (r: T)
    requires |cands| > 0
    ensures r in cands
  {
    cands[draw % |cands|]
  }

  /** `random.choice` over the seats passing a filter: the drawn seat passes it. */
  function PickSeat(ps: seq<Player>, w: Want, draw: nat): (t: nat)
    requires Any(ps, w)
    ensures t < |ps| && Wants(w, t, ps[t])
  {
    Pick(Seats(ps, w), draw)
  }

  /** Every choice is reachable by some draw. */
  lemma PickReachesAll<T>(cands: seq<T>, k: nat)
    requires k < |cands|
    ensures Pick(cands, k) == cands[k]
  {
  }

  // ---- the maximum-tally rule ----

  /** The highest tally among the given seats. */
  function MaxOver(ps: seq<Player>, idx: seq<nat>): (m: nat)
    requires |idx| > 0
    requires forall k :: 0 <= k < |idx| ==> idx[k] < |ps|
    ensures forall k :: 0 <= k < |idx| ==> ps[idx[k]].votes <= m
    ensures exists k :: 0 <= k < |idx| && ps[idx[k]].votes == m
  {
    if |idx| == 1 then ps[idx[0]].votes
    else
      var m := MaxOver(ps, idx[1..]);
      assert forall k :: 1 <= k < |idx| ==> idx[1..][k - 1] == idx[k];
      if ps[idx[0]].votes >= m then ps[idx[0]].votes else m
  }

  /** `max(p.votes for p in players if p.alive)`. */
  function MaxAliveVotes(ps: seq<Player>): (m: nat)
    requires Any(ps, Alive)
    ensures forall j :: 0 <= j < |ps| && ps[j].alive ==> ps[j].votes <= m
    ensures exists j :: 0 <= j < |ps| && ps[j].alive && ps[j].votes == m
  {
    var a := Seats(ps, Alive);
    var m := MaxOver(ps, a);
    assert forall j :: 0 <= j < |ps| && ps[j].alive ==> j in a;
    m
  }

  /** The alive players holding the highest tally, in seating order. */
  function Leaders(ps: seq<Player>): seq<nat>
    requires Any(ps, Alive)
  {
    Seats(ps, TopVotes(MaxAliveVotes(ps)))
  }

  /** Seat `i` is alive and strictly ahead of every other alive player. */
  predicate UniqueLeader(ps: seq<Player>, i: nat) {
    && i < |ps| && ps[i].alive
    && forall j :: 0 <= j < |ps| && j != i && ps[j].alive ==> ps[j].votes < ps[i].votes
  }

  /** A player strictly ahead of everyone alive is the whole leader list. */
  lemma UniqueLeaderLeads(ps: seq<Player>, i: nat)
    requires Any(ps, Alive)
    requires UniqueLeader(ps, i)
    ensures Leaders(ps) == [i]
  {
    var m := MaxAliveVotes(ps);
    var l := Leaders(ps);
    assert ps[i].votes == m;
    assert i in l;
    assert forall k :: 0 <= k < |l| ==> ps[l[k]].votes == m && ps[l[k]].alive;
    IncreasingAllSame(l, i);
  }

  /** A one-entry leader list names a player strictly ahead of everyone alive. */
  lemma SoleLeaderIsUnique(ps: seq<Player>)
    requires Any(ps, Alive)
    requires |Leaders(ps)| == 1
    ensures UniqueLeader(ps, Leaders(ps)[0])
  {
    var m := MaxAliveVotes(ps);
    var l := Leaders(ps);
    var i := l[0];
    assert Wants(TopVotes(m), i, ps[i]);
    assert forall j :: 0 <= j < |ps| && ps[j].alive && ps[j].votes == m ==> j in l;
  }

  /** The leader list has one entry exactly when one alive player is strictly
      ahead, and that entry is that player. */
  lemma LeadersSingleton(ps: seq<Player>)
    requires Any(ps, Alive)
    ensures |Leaders(ps)| == 1 <==> exists i: nat :: UniqueLeader(ps, i)
    ensures forall i: nat :: UniqueLeader(ps, i) ==> Leaders(ps) == [i]
  {
    forall i: nat | UniqueLeader(ps, i)
      ensures Leaders(ps) == [i]
    {
      UniqueLeaderLeads(ps, i);
    }
    if |Leaders(ps)| == 1 {
      SoleLeaderIsUnique(ps);
    }
  }

  /** With every tally at zero the leaders are all the alive players, so there is
      a single leader only when a single player is alive. */
  lemma ZeroTallyLeaders(ps: seq<Player>)
    requires Any(ps, Alive)
    requires forall j :: 0 <= j < |ps| ==> ps[j].votes == 0
    ensures |Leaders(ps)| == 1 <==> |Seats(ps, Alive)| == 1
  {
    LeadersSingleton(ps);
    if |Seats(ps, Alive)| == 1 {
      LoneSurvivorLeads(ps);
    }
    if |Leaders(ps)| == 1 {
      var i: nat :| UniqueLeader(ps, i);
      ZeroTallyLeaderIsAlone(ps, i);
    }
  }

  /** With every tally at zero nobody can be strictly ahead of another alive
      player, so a unique leader is the only one alive. */
  lemma ZeroTallyLeaderIsAlone(ps: seq<Player>, i: nat)
    requires UniqueLeader(ps, i)
    requires forall j :: 0 <= j < |ps| ==> ps[j].votes == 0
    ensures |Seats(ps, Alive)| == 1
  {
    var a := Seats(ps, Alive);
    assert forall k :: 0 <= k < |a| ==> a[k] == i;
    assert i in a;
    IncreasingAllSame(a, i);
  }

  /** A lone survivor leads whatever the tallies say. */
  lemma LoneSurvivorLeads(ps: seq<Player>)
    requires |Seats(ps, Alive)| == 1
    ensures UniqueLeader(ps, Seats(ps, Alive)[0])
  {
    var a := Seats(ps, Alive);
    assert forall j :: 0 <= j < |ps| && ps[j].alive ==> j in a;
  }

  /** Without a unique leader at least two players are alive. */
  lemma NoLeaderTwoAlive(ps: seq<Player>)
    requires Any(ps, Alive)
    requires forall i: nat :: !UniqueLeader(ps, i)
    ensures |Seats(ps, Alive)| >= 2
  {
    if |Seats(ps, Alive)| == 1 {
      LoneSurvivorLeads(ps);
    }
  }

  /** A strictly increasing sequence holding only `i`, and holding it, is `[i]`. */
  lemma IncreasingAllSame(a: seq<nat>, i: nat)
    requires forall x, y :: 0 <= x < y < |a| ==> a[x] < a[y]
    requires forall k :: 0 <= k < |a| ==> a[k] == i
    requires i in a
    ensures a == [i]
  {
    assert a[0] == a[|a| - 1];
  }

  // ---- faction counts ----

  /** Alive players in one faction: the wolves, or everyone else. */
  function CountAlive(ps: seq<Player>, wolves: bool): (n: nat)
    ensures n <= |ps|
  {
    if |ps| == 0 then 0
    else
      var p := ps[|ps| - 1];
      CountAlive(ps[..|ps| - 1], wolves) + (if p.alive && IsWolf(p) == wolves then 1 else 0)
  }

  /** The same faction as a set of seats. */
  function AliveSet(ps: seq<Player>, wolves: bool): set<nat> {
    set j | 0 <= j < |ps| && ps[j].alive && IsWolf(ps[j]) == wolves
  }

  /** The count is the size of the faction's seat set. */
  lemma {:induction false} CountAliveIsCard(ps: seq<Player>, wolves: bool)
    ensures CountAlive(ps, wolves) == |AliveSet(ps, wolves)|
  {
    if |ps| > 0 {
      var n := |ps| - 1;
      var q := ps[..n];
      CountAliveIsCard(q, wolves);
      var p := ps[n];
      if p.alive && IsWolf(p) == wolves {
        assert AliveSet(ps, wolves) == AliveSet(q, wolves) + {n};
      } else {
        assert AliveSet(ps, wolves) == AliveSet(q, wolves);
      }
    }
  }
}
