/**
 Model of the `PlayerLives` class: an in-memory record of each player's
 remaining lives in an elimination game.

 The class keeps one mutable array of `{id, lives}` objects. Here that array is
 an immutable sequence of `Rec` values; every query is a function of the
 sequence and every mutator returns the new sequence.
 */
module PlayerLives {
  import opened Wrappers

  /** One entry of the container: a player id and its raw life count, which
      may be zero or negative (it is clamped only when reported). */
  datatype Rec = Rec(id: int, lives: int)

  /** The container, in insertion order. */
  type Lives = seq<Rec>

  /** The persisted form of the container: an object whose `lives` field may
      be missing. */
  datatype Snapshot = Snapshot(lives: Option<Lives>)

  /** What `load` reports, together with the container it leaves behind. */
  datatype LoadOutcome = LoadOutcome(accepted: bool, lives: Lives)

  predicate IsAlive(r: Rec) { r.lives > 0 }

  predicate IsOut(r: Rec) { r.lives <= 0 }

  /** Some record of `s` carries `id`. */
  predicate HasId(s: Lives, id: int) {
    exists i :: 0 <= i < |s| && s[i].id == id
  }

  /** `i` is the index of the first record of `s` that carries `id`. */
  predicate IsFirstMatch(s: Lives, id: int, i: int) {
    && 0 <= i < |s|
    && s[i].id == id
    && forall j :: 0 <= j < i ==> s[j].id != id
  }

  /** No two records share an id. */
  predicate UniqueIds(s: Lives) {
    forall i, j :: 0 <= i < j < |s| ==> s[i].id != s[j].id
  }

  /** The ids of all records, in container order. */
  function Ids(s: Lives): seq<int> {
    seq(|s|, i requires 0 <= i < |s| => s[i].id)
  }

  /** The ids 1..n in ascending order (empty when n <= 0). */
  function Range(n: int): seq<int> {
    seq(if n > 0 then n else 0, i => i + 1)
  }

  /** Keep the records that satisfy `keep`, then take their ids: the ids of
      the passing records, in container order. */
  function IdsWhere(s: Lives, keep: Rec -> bool): (r: seq<int>)
    ensures |r| <= |s|
  {
    if |s| == 0 then []
    else (if keep(s[0]) then [s[0].id] else []) + IdsWhere(s[1..], keep)
  }

  /** The view is empty iff no record passes, and as long as the container
      iff every record passes. */
  lemma {:induction false} IdsWhereNoneOrAll(s: Lives, keep: Rec -> bool)
    ensures |IdsWhere(s, keep)| == 0 <==> forall i :: 0 <= i < |s| ==> !keep(s[i])
    ensures |IdsWhere(s, keep)| == |s| <==> forall i :: 0 <= i < |s| ==> keep(s[i])
  {
    if |s| > 0 {
      IdsWhereNoneOrAll(s[1..], keep);
      assert forall i :: 0 < i < |s| ==> s[i] == s[1..][i - 1];
    }
  }

  /** An id is in the view iff some record carrying it passes the test. */
  lemma {:induction false} IdsWhereMembers(s: Lives, keep: Rec -> bool)
    ensures forall x :: x in IdsWhere(s, keep) <==> exists i :: 0 <= i < |s| && s[i].id == x && keep(s[i])
  {
    if |s| > 0 {
      IdsWhereMembers(s[1..], keep);
      assert forall i :: 0 < i < |s| ==> s[i] == s[1..][i - 1];
    }
  }

  // ---------------------------------------------------------------------
  // Derived queries
  // ---------------------------------------------------------------------

  /** Getter `remaining`: ids of the players still in the game. */
  function Remaining(s: Lives): (r: seq<int>)
    ensures |r| <= |s|
    ensures forall x :: x in r <==> exists i :: 0 <= i < |s| && s[i].id == x && s[i].lives > 0
  {
    IdsWhereMembers(s, IsAlive);
    IdsWhere(s, IsAlive)
  }

  /** Getter `eliminated`: ids of the players whose raw count is at most 0. */
  function Eliminated(s: Lives): (r: seq<int>)
    ensures |r| <= |s|
    ensures forall x :: x in r <==> exists i :: 0 <= i < |s| && s[i].id == x && s[i].lives <= 0
  {
    IdsWhereMembers(s, IsOut);
    IdsWhere(s, IsOut)
  }

  /** Getter `numRemaining`. */
  function NumRemaining(s: Lives): (n: nat)
    ensures n <= |s|
    ensures n == 0 <==> forall i :: 0 <= i < |s| ==> s[i].lives <= 0
    ensures n == |s| <==> forall i :: 0 <= i < |s| ==> s[i].lives > 0
  {
    IdsWhereNoneOrAll(s, IsAlive);
    |Remaining(s)|
  }

  /** Getter `numEliminated`. */
  function NumEliminated(s: Lives): (n: nat)
    ensures n <= |s|
    ensures n == 0 <==> forall i :: 0 <= i < |s| ==> s[i].lives > 0
    ensures n == |s| <==> forall i :: 0 <= i < |s| ==> s[i].lives <= 0
  {
    IdsWhereNoneOrAll(s, IsOut);
    |Eliminated(s)|
  }

  /** The largest raw count of a non-empty container. */
  function MaxLives(s: Lives): (m: int)
    requires |s| > 0
    ensures forall i :: 0 <= i < |s| ==> s[i].lives <= m
    ensures exists i :: 0 <= i < |s| && s[i].lives == m
  {
    if |s| == 1 then s[0].lives
    else
      var rest := MaxLives(s[1..]);
      assert forall i :: 0 < i < |s| ==> s[i] == s[1..][i - 1];
      if s[0].lives >= rest then s[0].lives else rest
  }

  /** Getter `highestNumLives`: 0 for an empty container or one where every
      player is eliminated, otherwise the largest raw count. */
  function HighestNumLives(s: Lives): (h: nat)
    ensures h == 0 <==> forall i :: 0 <= i < |s| ==> s[i].lives <= 0
    ensures h > 0 ==> forall i :: 0 <= i < |s| ==> s[i].lives <= h
    ensures h > 0 ==> exists i :: 0 <= i < |s| && s[i].lives == h
  {
    if |s| == 0 || NumEliminated(s) == |s| then 0 else MaxLives(s)
  }

  /** Getter `leaders`: ids of the records whose raw count is strictly equal
      to `highestNumLives`. Once everyone is out this is the players sitting
      at exactly 0, not those below it. */
  function Leaders(s: Lives): (r: seq<int>)
    ensures |r| <= |s|
    ensures forall x :: x in r <==> exists i :: 0 <= i < |s| && s[i].id == x && s[i].lives == HighestNumLives(s)
  {
    var h := HighestNumLives(s);
    IdsWhereMembers(s, (rec: Rec) => rec.lives == h);
    IdsWhere(s, (rec: Rec) => rec.lives == h)
  }

  /** Private `getObjByPlayerID`, i.e. `Array.find` on the id: the index of
      the first record carrying `id`, or None. */
  function FindIndex(s: Lives, id: int): (o: Option<nat>)
    ensures o.None? <==> !HasId(s, id)
    ensures o.Some? ==> IsFirstMatch(s, id, o.value)
  {
    if |s| == 0 then None
    else if s[0].id == id then Some(0)
    else
      match FindIndex(s[1..], id)
      case None =>
        assert forall i :: 0 < i < |s| ==> s[i] == s[1..][i - 1];
        None
      case Some(k) => Some(k + 1)
  }

  /** `livesRemaining(id)`: the first matching record's raw count clamped at
      0, and 0 for an unknown id. */
  function LivesRemaining(s: Lives, id: int): (n: nat)
    ensures !HasId(s, id) ==> n == 0
    ensures forall i :: IsFirstMatch(s, id, i) ==> n == if s[i].lives > 0 then s[i].lives else 0
  {
    match FindIndex(s, id)
    case None => 0
    case Some(i) => if s[i].lives <= 0 then 0 else s[i].lives
  }

  /** `playerEliminated(id)`: true for an unknown id and for a first match
      whose raw count is at most 0. */
  function PlayerEliminated(s: Lives, id: int): (b: bool)
    ensures b <==> !HasId(s, id) || exists i :: IsFirstMatch(s, id, i) && s[i].lives <= 0
  {
    LivesRemaining(s, id) == 0
  }

  // ---------------------------------------------------------------------
  // Mutators
  // ---------------------------------------------------------------------

  /** `start(numPlayers, numLives)`: the prior container is discarded and
      players 1..numPlayers are pushed in ascending order, each with
      `numLives`. The loop does not run when numPlayers <= 0. */
  function Start(numPlayers: int, numLives: int): (r: Lives)
    decreases numPlayers
    ensures |r| == if numPlayers > 0 then numPlayers else 0
    ensures forall i :: 0 <= i < |r| ==> r[i] == Rec(i + 1, numLives)
  {
    if numPlayers <= 0 then [] else Start(numPlayers - 1, numLives) + [Rec(numPlayers, numLives)]
  }

  /** `loseLife(id)`: the first record carrying `id` loses one life; an
      unknown id changes nothing. */
  function LoseLife(s: Lives, id: int): (t: Lives)
    ensures |t| == |s|
    ensures forall j :: 0 <= j < |s| ==> t[j].id == s[j].id
    ensures !HasId(s, id) ==> t == s
    ensures forall i :: IsFirstMatch(s, id, i) ==>
              && t[i].lives == s[i].lives - 1
              && forall j :: 0 <= j < |s| && j != i ==> t[j] == s[j]
  {
    match FindIndex(s, id)
    case None => s
    case Some(i) => s[i := s[i].(lives := s[i].lives - 1)]
  }

  /** Closed form of repeated `loseLife`: the first record carrying `id`
      loses `n` lives at once, and an unknown id changes nothing. */
  function DropLives(s: Lives, id: int, n: int): Lives {
    match FindIndex(s, id)
    case None => s
    case Some(i) => s[i := s[i].(lives := s[i].lives - n)]
  }

  /** `loseLives(id, numLives)`: `loseLife(id)` called `numLives` times in a
      row. It is the closed form with the count floored at 0, so a count of
      0 or less is a no-op. */
  function LoseLives(s: Lives, id: int, count: int): (t: Lives)
    decreases count
    ensures t == DropLives(s, id, if count > 0 then count else 0)
  {
    if count <= 0 then
      assert DropLives(s, id, 0) == s;
      s
    else
      var once := LoseLife(s, id);
      DropOneIsLoseLife(s, id);
      DropLivesCompose(s, id, 1, count - 1);
      LoseLives(once, id, count - 1)
  }

  /** Two records sequences with the same ids in the same order have the
      same first match for every id. */
  lemma FirstMatchFollowsIds(s: Lives, t: Lives, id: int)
    requires |s| == |t| && forall j :: 0 <= j < |s| ==> s[j].id == t[j].id
    ensures FindIndex(s, id) == FindIndex(t, id)
  {
    if HasId(s, id) {
      var i := FindIndex(s, id).value;
      assert IsFirstMatch(t, id, i);
      var k := FindIndex(t, id).value;
      assert IsFirstMatch(s, id, k);
    } else {
      assert !HasId(t, id);
    }
  }

  /** Dropping one life is `loseLife`. */
  lemma DropOneIsLoseLife(s: Lives, id: int)
    ensures DropLives(s, id, 1) == LoseLife(s, id)
  {
  }

  /** Dropping `a` lives and then `b` is dropping `a + b`. */
  lemma DropLivesCompose(s: Lives, id: int, a: int, b: int)
    ensures DropLives(DropLives(s, id, a), id, b) == DropLives(s, id, a + b)
  {
    match FindIndex(s, id)
    case None =>
    case Some(i) =>
      var t := s[i := s[i].(lives := s[i].lives - a)];
      assert DropLives(s, id, a) == t;
      assert FindIndex(t, id) == Some(i) by {
        assert forall j :: 0 <= j < |s| ==> s[j].id == t[j].id;
        FirstMatchFollowsIds(s, t, id);
      }
      assert DropLives(t, id, b) == t[i := t[i].(lives := t[i].lives - b)];
  }

  // ---------------------------------------------------------------------
  // Persistence
  // ---------------------------------------------------------------------

  /** `save()`: a snapshot whose `lives` field is the whole container. Loading
      it succeeds from any state and restores exactly that container. */
  function Save(s: Lives): (snap: Snapshot)
    ensures forall prior :: Load(prior, snap) == LoadOutcome(true, s)
  {
    Snapshot(Some(s))
  }

  /** `load(json)`: a snapshot without the `lives` field is rejected and the
      container is kept; otherwise the container is replaced, unclamped, by
      the snapshot's list. */
  function Load(s: Lives, snap: Snapshot): (res: LoadOutcome)
    ensures res.accepted <==> snap.lives.Some?
    ensures !res.accepted ==> res.lives == s
    ensures res.accepted ==> res.lives == snap.lives.value
  {
    match snap.lives
    case None => LoadOutcome(false, s)
    case Some(loaded) => LoadOutcome(true, loaded)
  }
}
