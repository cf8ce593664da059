/**
 Properties of the `PlayerLives` model that relate several operations:
 the remaining/eliminated partition, container order, the state `start`
 produces, first-match lookup, the additivity of `loseLives`, and the
 save/load round trip.
 */
module PlayerLivesFacts {
  import opened Wrappers
  import opened PlayerLives

  // ---------------------------------------------------------------------
  // Filtered views
  //
  // The filter's membership and empty/full lemmas live in `PlayerLives`,
  // because the contracts of the queries there are proved from them; the
  // lemmas below are used only by the properties in this module.
  // ---------------------------------------------------------------------

  /** Filtering keeps container order: the view of a concatenation is the
      concatenation of the views. */
  lemma {:induction false} IdsWhereAppend(s: Lives, t: Lives, keep: Rec -> bool)
    ensures IdsWhere(s + t, keep) == IdsWhere(s, keep) + IdsWhere(t, keep)
  {
    if |s| == 0 {
      assert s + t == t;
    } else {
      var st := s + t;
      assert st[0] == s[0];
      assert st[1..] == s[1..] + t;
      IdsWhereAppend(s[1..], t, keep);
      IdsWhereCons(st, keep);
      IdsWhereCons(s, keep);
      var head := if keep(s[0]) then [s[0].id] else [];
      assert IdsWhere(st, keep) == head + (IdsWhere(s[1..], keep) + IdsWhere(t, keep));
      assert IdsWhere(s, keep) == head + IdsWhere(s[1..], keep);
    }
  }

  /** One step of the filter: the first record's id, if it passes, followed
      by the view of the rest. */
  lemma IdsWhereCons(s: Lives, keep: Rec -> bool)
    requires |s| > 0
    ensures IdsWhere(s, keep) == (if keep(s[0]) then [s[0].id] else []) + IdsWhere(s[1..], keep)
  {
  }

  /** When every record passes the filter the view is every id; when none
      does it is empty. */
  lemma {:induction false} IdsWhereAllOrNone(s: Lives, keep: Rec -> bool)
    ensures (forall i :: 0 <= i < |s| ==> keep(s[i])) ==> IdsWhere(s, keep) == Ids(s)
    ensures (forall i :: 0 <= i < |s| ==> !keep(s[i])) ==> IdsWhere(s, keep) == []
  {
    if |s| > 0 {
      IdsWhereAllOrNone(s[1..], keep);
      IdsCons(s);
    }
  }

  /** `remaining` and `eliminated` list ids in container order: each view
      distributes over concatenation and keeps a single record exactly
      when it passes its test. */
  lemma ViewsKeepContainerOrder(s: Lives, t: Lives, r: Rec)
    ensures Remaining(s + t) == Remaining(s) + Remaining(t)
    ensures Eliminated(s + t) == Eliminated(s) + Eliminated(t)
    ensures Remaining([r]) == if r.lives > 0 then [r.id] else []
    ensures Eliminated([r]) == if r.lives <= 0 then [r.id] else []
  {
    IdsWhereAppend(s, t, IsAlive);
    IdsWhereAppend(s, t, IsOut);
  }

  /** Every record passes exactly one of the alive and out filters. */
  lemma {:induction false} AliveOutCount(s: Lives)
    ensures |IdsWhere(s, IsAlive)| + |IdsWhere(s, IsOut)| == |s|
  {
    if |s| > 0 {
      AliveOutCount(s[1..]);
      IdsWhereCons(s, IsAlive);
      IdsWhereCons(s, IsOut);
    }
  }

  /** One step of `Ids`. */
  lemma IdsCons(s: Lives)
    requires |s| > 0
    ensures Ids(s) == [s[0].id] + Ids(s[1..])
  {
  }

  /** The alive and out filters hold the container's ids between them. */
  lemma {:induction false} AliveOutIds(s: Lives)
    ensures multiset(IdsWhere(s, IsAlive)) + multiset(IdsWhere(s, IsOut)) == multiset(Ids(s))
  {
    if |s| > 0 {
      var rest := s[1..];
      AliveOutIds(rest);
      var head := [s[0].id];
      IdsCons(s);
      assert multiset(Ids(s)) == multiset(head) + multiset(Ids(rest));
      IdsWhereCons(s, IsAlive);
      IdsWhereCons(s, IsOut);
      var k, d := IdsWhere(rest, IsAlive), IdsWhere(rest, IsOut);
      if s[0].lives > 0 {
        assert multiset(IdsWhere(s, IsAlive)) == multiset(head) + multiset(k);
        assert IdsWhere(s, IsOut) == d;
      } else {
        assert IdsWhere(s, IsAlive) == k;
        assert multiset(IdsWhere(s, IsOut)) == multiset(head) + multiset(d);
      }
    }
  }

  /** Every record is in exactly one of `remaining` and `eliminated`: the
      counts add up to the container size and the two views together hold
      the container's ids. */
  lemma RemainingEliminatedPartition(s: Lives)
    ensures NumRemaining(s) + NumEliminated(s) == |s|
    ensures multiset(Remaining(s)) + multiset(Eliminated(s)) == multiset(Ids(s))
  {
    AliveOutCount(s);
    AliveOutIds(s);
  }

  /** Before any `start` the container is empty and every query reports
      nothing or zero. */
  lemma EmptyBeforeStart(id: int)
    ensures Remaining([]) == [] && Eliminated([]) == [] && Leaders([]) == []
    ensures NumRemaining([]) == 0 && NumEliminated([]) == 0
    ensures HighestNumLives([]) == 0
    ensures LivesRemaining([], id) == 0 && PlayerEliminated([], id)
  {
  }

  // ---------------------------------------------------------------------
  // start
  // ---------------------------------------------------------------------

  lemma StartIds(n: int, k: int)
    ensures Ids(Start(n, k)) == Range(n)
    ensures UniqueIds(Start(n, k))
  {
  }

  /** Lookup in a freshly started container: ids 1..n hold `k` lives clamped
      at 0, every other id reads as 0. */
  lemma StartLivesRemaining(n: int, k: int, id: int)
    ensures LivesRemaining(Start(n, k), id) == if 1 <= id <= n && k > 0 then k else 0
  {
    var s := Start(n, k);
    if 1 <= id <= n {
      assert IsFirstMatch(s, id, id - 1);
    }
  }

  /** Right after `start(n, k)` with `k > 0` every player remains, none is
      eliminated, the highest count is `k` (0 when there are no players) and
      everyone leads. */
  lemma StartWithLives(n: int, k: int)
    requires k > 0
    ensures Remaining(Start(n, k)) == Range(n)
    ensures Eliminated(Start(n, k)) == []
    ensures NumRemaining(Start(n, k)) == |Range(n)| && NumEliminated(Start(n, k)) == 0
    ensures HighestNumLives(Start(n, k)) == if n > 0 then k else 0
    ensures Leaders(Start(n, k)) == Range(n)
  {
    var s := Start(n, k);
    StartIds(n, k);
    IdsWhereAllOrNone(s, IsAlive);
    IdsWhereAllOrNone(s, IsOut);
    var h := HighestNumLives(s);
    IdsWhereAllOrNone(s, (rec: Rec) => rec.lives == h);
  }

  /** Right after `start(n, k)` with `k <= 0` every player is eliminated and
      the highest count is 0. Because `leaders` compares raw counts with
      strict equality, everyone leads when `k == 0` and nobody when `k < 0`. */
  lemma StartWithoutLives(n: int, k: int)
    requires k <= 0
    ensures Remaining(Start(n, k)) == []
    ensures Eliminated(Start(n, k)) == Range(n)
    ensures HighestNumLives(Start(n, k)) == 0
    ensures Leaders(Start(n, k)) == if k == 0 then Range(n) else []
  {
    var s := Start(n, k);
    StartIds(n, k);
    IdsWhereAllOrNone(s, IsAlive);
    IdsWhereAllOrNone(s, IsOut);
    IdsWhereAllOrNone(s, (rec: Rec) => rec.lives == 0);
  }

  // ---------------------------------------------------------------------
  // Leaders
  // ---------------------------------------------------------------------

  /** While someone is still in the game there is at least one leader and
      every leader is a remaining player. */
  lemma LeadersAreRemaining(s: Lives)
    requires NumRemaining(s) > 0
    ensures |Leaders(s)| > 0
    ensures forall x :: x in Leaders(s) ==> x in Remaining(s)
  {
    var h := HighestNumLives(s);
    var i :| 0 <= i < |s| && s[i].lives == h;
    assert s[i].id in Leaders(s);
  }

  /** Once everyone is out, the leaders are exactly the players whose raw
      count is 0; players below 0 are not leaders. */
  lemma LeadersWhenAllOut(s: Lives)
    requires NumRemaining(s) == 0
    ensures forall x :: x in Leaders(s) <==> exists i :: 0 <= i < |s| && s[i].id == x && s[i].lives == 0
  {
  }

  /** A concrete container showing that the all-out leaders are not
      "everyone": the player at -1 is eliminated but does not lead. */
  lemma LeadersAllOutExample()
    ensures Eliminated([Rec(1, 0), Rec(2, -1)]) == [1, 2]
    ensures Leaders([Rec(1, 0), Rec(2, -1)]) == [1]
  {
    var s := [Rec(1, 0), Rec(2, -1)];
    assert HighestNumLives(s) == 0;
    assert s[1..] == [Rec(2, -1)];
  }

  // ---------------------------------------------------------------------
  // loseLife / loseLives
  // ---------------------------------------------------------------------

  /** `loseLife(id)` changes what `livesRemaining` reports for `id` only:
      for `id` it is the first match's raw count minus one, clamped. */
  lemma {:induction false} LoseLifeAffectsOnlyItsPlayer(s: Lives, id: int, other: int)
    ensures other != id ==> LivesRemaining(LoseLife(s, id), other) == LivesRemaining(s, other)
    ensures forall i :: IsFirstMatch(s, id, i) ==>
              LivesRemaining(LoseLife(s, id), id) == if s[i].lives > 1 then s[i].lives - 1 else 0
  {
    var t := LoseLife(s, id);
    forall i | IsFirstMatch(s, id, i)
      ensures IsFirstMatch(t, id, i)
    {
    }
    if other != id {
      if HasId(s, other) {
        var k := FindIndex(s, other).value;
        assert IsFirstMatch(t, other, k);
      } else {
        assert !HasId(t, other);
      }
    }
  }

  /** `loseLives(id, c)`: the first record carrying `id` loses exactly
      max(c, 0) lives; every other record, every id and the order are
      unchanged; an unknown id changes nothing. */
  lemma LoseLivesEffect(s: Lives, id: int, c: int)
    ensures |LoseLives(s, id, c)| == |s|
    ensures !HasId(s, id) ==> LoseLives(s, id, c) == s
    ensures forall i :: IsFirstMatch(s, id, i) ==>
              && LoseLives(s, id, c)[i] == Rec(id, s[i].lives - (if c > 0 then c else 0))
              && forall j :: 0 <= j < |s| && j != i ==> LoseLives(s, id, c)[j] == s[j]
  {
    match FindIndex(s, id)
    case None =>
    case Some(k) =>
      forall i | IsFirstMatch(s, id, i)
        ensures i == k
      {
      }
  }

  /** `loseLives` composes: losing `a` lives and then `b` is losing `a + b`. */
  lemma {:induction false} LoseLivesAdditive(s: Lives, id: int, a: int, b: int)
    requires a >= 0 && b >= 0
    ensures LoseLives(LoseLives(s, id, a), id, b) == LoseLives(s, id, a + b)
  {
    DropLivesCompose(s, id, a, b);
  }

  /** `loseLives(id, c)` with `c > 0` is `loseLives(id, c - 1)` followed by
      one more `loseLife(id)`. */
  lemma {:induction false} LoseLivesUnrolls(s: Lives, id: int, c: int)
    requires c > 0
    ensures LoseLives(s, id, c) == LoseLife(LoseLives(s, id, c - 1), id)
  {
    LoseLivesAdditive(s, id, c - 1, 1);
  }

  /** Duplicate ids, which `load` accepts, show first-match lookup: only the
      first record carrying the id loses lives, so the same id is then both
      eliminated and remaining. */
  lemma DuplicateIdOnlyFirstTouched()
    ensures LoseLife([Rec(7, 2), Rec(7, 2)], 7) == [Rec(7, 1), Rec(7, 2)]
    ensures LoseLives([Rec(7, 2), Rec(7, 2)], 7, 2) == [Rec(7, 0), Rec(7, 2)]
    ensures Eliminated([Rec(7, 0), Rec(7, 2)]) == [7] && Remaining([Rec(7, 0), Rec(7, 2)]) == [7]
    ensures PlayerEliminated([Rec(7, 0), Rec(7, 2)], 7)
  {
    var s := [Rec(7, 2), Rec(7, 2)];
    assert IsFirstMatch(s, 7, 0);
    var u := [Rec(7, 0), Rec(7, 2)];
    assert IsFirstMatch(u, 7, 0);
    assert u[1..] == [Rec(7, 2)];
  }

  /** The mutators never change the ids or their order, so a container with
      unique ids (as `start` builds) keeps them. */
  lemma MutatorsKeepIds(s: Lives, id: int, c: int)
    ensures Ids(LoseLife(s, id)) == Ids(s)
    ensures Ids(LoseLives(s, id, c)) == Ids(s)
    ensures UniqueIds(s) ==> UniqueIds(LoseLife(s, id)) && UniqueIds(LoseLives(s, id, c))
  {
  }

  /** With unique ids the per-player query agrees with the views:
      `playerEliminated(id)` holds exactly when `id` is listed as
      eliminated, and fails exactly when it is listed as remaining. */
  lemma PlayerEliminatedAgreesWithViews(s: Lives, id: int)
    requires UniqueIds(s) && HasId(s, id)
    ensures PlayerEliminated(s, id) <==> id in Eliminated(s)
    ensures !PlayerEliminated(s, id) <==> id in Remaining(s)
  {
    var k := FindIndex(s, id).value;
    assert forall i :: 0 <= i < |s| && s[i].id == id ==> i == k;
  }

  // ---------------------------------------------------------------------
  // save / load
  // ---------------------------------------------------------------------

  /** `load(save())` succeeds, whatever the current container, and restores
      the saved container, so every query answers as before. */
  lemma LoadSaveRoundTrip(s: Lives, current: Lives, id: int)
    ensures Load(current, Save(s)) == LoadOutcome(true, s)
    ensures var t := Load(s, Save(s)).lives;
            && Remaining(t) == Remaining(s) && Eliminated(t) == Eliminated(s)
            && Leaders(t) == Leaders(s) && HighestNumLives(t) == HighestNumLives(s)
            && LivesRemaining(t, id) == LivesRemaining(s, id)
  {
  }

  // ---------------------------------------------------------------------
  // Scenarios
  // ---------------------------------------------------------------------

  /** start(6, 3): all six remain, none is eliminated, 3 is the highest
      count and all six lead. */
  lemma ScenarioSixPlayersThreeLives()
    ensures Remaining(Start(6, 3)) == [1, 2, 3, 4, 5, 6]
    ensures NumRemaining(Start(6, 3)) == 6
    ensures Eliminated(Start(6, 3)) == []
    ensures HighestNumLives(Start(6, 3)) == 3
    ensures Leaders(Start(6, 3)) == [1, 2, 3, 4, 5, 6]
  {
    StartWithLives(6, 3);
    assert Range(6) == [1, 2, 3, 4, 5, 6];
  }

  /** start(5, 1) then loseLife(1): player 1 is the only one eliminated. */
  lemma ScenarioFirstPlayerOut()
    ensures Eliminated(LoseLife(Start(5, 1), 1)) == [1]
    ensures NumEliminated(LoseLife(Start(5, 1), 1)) == 1
    ensures Remaining(LoseLife(Start(5, 1), 1)) == [2, 3, 4, 5]
  {
    var tail := [Rec(2, 1), Rec(3, 1), Rec(4, 1), Rec(5, 1)];
    var t := [Rec(1, 0)] + tail;
    StartFiveThenLoseFirst();
    IdsWhereCons(t, IsAlive);
    IdsWhereCons(t, IsOut);
    assert t[1..] == tail;
    IdsWhereAllOrNone(tail, IsAlive);
    IdsWhereAllOrNone(tail, IsOut);
    assert Ids(tail) == [2, 3, 4, 5];
  }

  lemma StartFiveThenLoseFirst()
    ensures LoseLife(Start(5, 1), 1) == [Rec(1, 0), Rec(2, 1), Rec(3, 1), Rec(4, 1), Rec(5, 1)]
  {
    var s := Start(5, 1);
    assert IsFirstMatch(s, 1, 0);
  }

  /** start(3, 1) then loseLives(1, 2): the count reported for player 1 stops
      at 0 even though the raw count is -1. */
  lemma ScenarioOverdrawnPlayer()
    ensures LoseLives(Start(3, 1), 1, 2)[0] == Rec(1, -1)
    ensures LivesRemaining(LoseLives(Start(3, 1), 1, 2), 1) == 0
  {
    var s := Start(3, 1);
    assert IsFirstMatch(s, 1, 0);
    assert IsFirstMatch(LoseLives(s, 1, 2), 1, 0);
  }
}
