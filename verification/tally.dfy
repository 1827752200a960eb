/** A vote count keyed by target name: the engine's `defaultdict(int)`, kept as
    a list of (name, count) entries in insertion order, which is the order in
    which the engine lists the tied names before drawing one. */
module Tally {

  type Tally = seq<(string, nat)>

  /** Votes counted for `k` (zero when `k` has no entry). */
  function Count(t: Tally, k: string): nat {
    if |t| == 0 then 0
    else (if t[0].0 == k then t[0].1 else 0) + Count(t[1..], k)
  }

  function Keys(t: Tally): (r: set<string>)
    ensures forall x :: x in r <==> exists i :: 0 <= i < |t| && t[i].0 == x
  {
    if |t| == 0 then {}
    else
      assert forall i :: 1 <= i < |t| ==> t[1..][i - 1] == t[i];
      {t[0].0} + Keys(t[1..])
  }

  /** No name has two entries, as in a dictionary. */
  predicate Distinct(t: Tally) {
    forall i, j :: 0 <= i < j < |t| ==> t[i].0 != t[j].0
  }

  /** Every entry holds at least one vote: entries only come from ballots. */
  predicate Counted(t: Tally) {
    forall i :: 0 <= i < |t| ==> t[i].1 > 0
  }

  /** In a tally of cast ballots, the names with an entry are exactly the
      names with votes. */
  lemma {:induction false} CountedKeys(t: Tally, k: string)
    requires Counted(t)
    ensures k in Keys(t) <==> Count(t, k) > 0
  {
    if |t| > 0 {
      assert Counted(t[1..]) by {
        assert forall i :: 1 <= i < |t| ==> t[1..][i - 1] == t[i];
      }
      CountedKeys(t[1..], k);
    }
  }

  /** A tally of cast ballots is non-empty exactly when some name has votes. */
  lemma CountedNonEmpty(t: Tally)
    requires Counted(t)
    ensures |t| > 0 <==> exists x :: Count(t, x) > 0
  {
    if |t| > 0 {
      CountedKeys(t, t[0].0);
    }
  }

  /** `votes[k] += n`: a new name is appended, a known one counted in place. */
  function Add(t: Tally, k: string, n: nat): (r: Tally)
    ensures Count(r, k) == Count(t, k) + n
    ensures forall k' :: k' != k ==> Count(r, k') == Count(t, k')
    ensures Keys(r) == Keys(t) + {k}
  {
    if |t| == 0 then [(k, n)]
    else if t[0].0 == k then
      var r := [(k, t[0].1 + n)] + t[1..];
      assert r[1..] == t[1..];
      r
    else
      var rest := Add(t[1..], k, n);
      var r := [t[0]] + rest;
      assert r[1..] == rest;
      r
  }

  /** Adding keeps a dictionary-shaped tally dictionary-shaped. */
  lemma {:induction false} AddKeepsDistinct(t: Tally, k: string, n: nat)
    requires Distinct(t)
    ensures Distinct(Add(t, k, n))
  {
    if |t| > 0 && t[0].0 != k {
      var rest := Add(t[1..], k, n);
      AddKeepsDistinct(t[1..], k, n);
      assert t[0].0 !in Keys(t[1..]);
      var r := Add(t, k, n);
      assert r == [t[0]] + rest;
      forall i, j | 0 <= i < j < |r|
        ensures r[i].0 != r[j].0
      {
        if i == 0 {
          assert r[j].0 == rest[j - 1].0;
          assert rest[j - 1].0 in Keys(rest);
        } else {
          assert r[i] == rest[i - 1] && r[j] == rest[j - 1];
        }
      }
    } else if |t| > 0 {
      var r := Add(t, k, n);
      assert forall i :: 1 <= i < |r| ==> r[i] == t[i];
    }
  }

  /** Adding a positive count keeps every entry counted. */
  lemma {:induction false} AddKeepsCounted(t: Tally, k: string, n: nat)
    requires n > 0
    ensures Counted(t) ==> Counted(Add(t, k, n))
  {
    if Counted(t) && |t| > 0 {
      if t[0].0 != k {
        assert Counted(t[1..]) by {
          assert forall i :: 1 <= i < |t| ==> t[1..][i - 1] == t[i];
        }
        AddKeepsCounted(t[1..], k, n);
        assert Add(t, k, n) == [t[0]] + Add(t[1..], k, n);
      } else {
        assert Add(t, k, n) == [(k, t[0].1 + n)] + t[1..];
      }
    }
  }

  /** `for name, c in u.items(): t[name] += c`. */
  function Merge(t: Tally, u: Tally): (r: Tally)
    ensures forall k :: Count(r, k) == Count(t, k) + Count(u, k)
    ensures Keys(r) == Keys(t) + Keys(u)
    decreases |u|
  {
    if |u| == 0 then t
    else
      var t' := Add(t, u[0].0, u[0].1);
      var r := Merge(t', u[1..]);
      assert forall k :: Count(u, k) == Count(t', k) - Count(t, k) + Count(u[1..], k);
      r
  }

  lemma {:induction false} MergeKeepsDistinct(t: Tally, u: Tally)
    requires Distinct(t)
    ensures Distinct(Merge(t, u))
    decreases |u|
  {
    if |u| > 0 {
      AddKeepsDistinct(t, u[0].0, u[0].1);
      MergeKeepsDistinct(Add(t, u[0].0, u[0].1), u[1..]);
    }
  }

  lemma {:induction false} MergeKeepsCounted(t: Tally, u: Tally)
    requires Counted(t)
    ensures Counted(u) ==> Counted(Merge(t, u))
    decreases |u|
  {
    if Counted(u) && |u| > 0 {
      AddKeepsCounted(t, u[0].0, u[0].1);
      assert Counted(u[1..]) by {
        assert forall i :: 1 <= i < |u| ==> u[1..][i - 1] == u[i];
      }
      MergeKeepsCounted(Add(t, u[0].0, u[0].1), u[1..]);
    }
  }

  /** In a dictionary-shaped tally an entry's count is the name's count, and a
      name without an entry counts zero. */
  lemma {:induction false} EntryIsCount(t: Tally, i: nat)
    requires Distinct(t) && i < |t|
    ensures Count(t, t[i].0) == t[i].1
  {
    if i == 0 {
      AbsentCountsZero(t[1..], t[0].0);
    } else {
      EntryIsCount(t[1..], i - 1);
    }
  }

  lemma {:induction false} AbsentCountsZero(t: Tally, k: string)
    requires k !in Keys(t)
    ensures Count(t, k) == 0
  {
    if |t| > 0 {
      AbsentCountsZero(t[1..], k);
    }
  }

  /** `max(votes.values())`. */
  function MaxCount(t: Tally): (m: nat)
    requires |t| > 0
    ensures forall i :: 0 <= i < |t| ==> t[i].1 <= m
    ensures exists i :: 0 <= i < |t| && t[i].1 == m
  {
    if |t| == 1 then t[0].1
    else
      var m := MaxCount(t[1..]);
      assert forall i :: 1 <= i < |t| ==> t[1..][i - 1] == t[i];
      if t[0].1 >= m then t[0].1 else m
  }

  /** The names holding count `m`, in insertion order. */
  function NamesWith(t: Tally, m: nat): (r: seq<string>)
    ensures forall x :: x in r <==> exists i :: 0 <= i < |t| && t[i].0 == x && t[i].1 == m
  {
    if |t| == 0 then []
    else
      var rest := NamesWith(t[1..], m);
      assert forall i :: 1 <= i < |t| ==> t[1..][i - 1] == t[i];
      if t[0].1 == m then [t[0].0] + rest else rest
  }

  /** The names at the top of the tally. */
  function TopNames(t: Tally): (r: seq<string>)
    requires |t| > 0
    ensures |r| > 0
  {
    var m := MaxCount(t);
    var i :| 0 <= i < |t| && t[i].1 == m;
    assert t[i].0 in NamesWith(t, m);
    NamesWith(t, m)
  }

  /** A top name is counted at least as often as any name, and is in the tally. */
  lemma TopNameIsMax(t: Tally, x: string)
    requires Distinct(t) && |t| > 0
    requires x in TopNames(t)
    ensures x in Keys(t) && Count(t, x) == MaxCount(t)
    ensures forall k :: Count(t, k) <= Count(t, x)
  {
    var i :| 0 <= i < |t| && t[i].0 == x && t[i].1 == MaxCount(t);
    EntryIsCount(t, i);
    forall k
      ensures Count(t, k) <= Count(t, x)
    {
      if k in Keys(t) {
        var j :| 0 <= j < |t| && t[j].0 == k;
        EntryIsCount(t, j);
      } else {
        AbsentCountsZero(t, k);
      }
    }
  }
}
