/**
 * The record of one pass of `merge_groups` (Colouring.py and line_detection.py alike): the
 * groups that stay in the list, in list order, and what each of them absorbed at its turn.
 * A group whose turn comes takes in at most one later group that nobody absorbed before; a
 * group absorbed before its turn leaves the list.
 */
module PassRecords {

  /**
   * The turn of a group that stays in the list: it absorbed nothing, or the group at position
   * `partner`, joined at its own end `end` and the partner's end `partnerEnd`.
   */
  datatype Turn<E> = Alone | Took(partner: int, end: E, partnerEnd: E)

  /** The positions the turns absorbed. */
  function Taken<E>(turns: seq<Turn<E>>): set<int> {
    set j | 0 <= j < |turns| && turns[j].Took? :: turns[j].partner
  }

  /** A position is absorbed at most once, and only by a turn before it in the list. */
  ghost predicate TurnsWellOrdered<E>(n: int, pos: seq<int>, turns: seq<Turn<E>>)
    requires |pos| == |turns|
  {
    && (forall j, j' :: 0 <= j < j' < |pos| ==> pos[j] < pos[j'])
    && (forall j :: 0 <= j < |turns| && turns[j].Took? ==>
          pos[j] < turns[j].partner < n && turns[j].partner !in Taken(turns[..j]))
  }

  /**
   * The record after the turns of the first `a` of `n` positions: the kept positions `pos` are
   * increasing and below `a`, each turn absorbs a later position not absorbed before, and a
   * position below `a` is kept exactly when it was not absorbed.
   */
  ghost predicate ShapeUpTo<E>(a: int, n: int, pos: seq<int>, turns: seq<Turn<E>>) {
    && 0 <= a <= n && |pos| == |turns|
    && (forall j :: 0 <= j < |pos| ==> 0 <= pos[j] < a)
    && TurnsWellOrdered(n, pos, turns)
    && (forall k :: k in Taken(turns) ==> 0 <= k < n)
    && (forall k :: 0 <= k < a ==> (k in pos <==> k !in Taken(turns)))
  }

  /** The record of a whole pass over `n` positions. */
  ghost predicate PassShape<E>(n: int, pos: seq<int>, turns: seq<Turn<E>>) {
    ShapeUpTo(n, n, pos, turns)
  }

  /** Appending a turn keeps the earlier turns' prefixes and adds its partner, if any, to the taken positions. */
  lemma TakenAppend<E>(turns: seq<Turn<E>>, t: Turn<E>)
    ensures Taken(turns + [t]) == Taken(turns) + (if t.Took? then {t.partner} else {})
    ensures forall j :: 0 <= j <= |turns| ==> (turns + [t])[..j] == turns[..j]
  {
    var turns' := turns + [t];
    forall k | k in Taken(turns') ensures k in Taken(turns) + (if t.Took? then {t.partner} else {}) {
      var j :| 0 <= j < |turns'| && turns'[j].Took? && turns'[j].partner == k;
      if j < |turns| {
        assert turns[j] == turns'[j];
      }
    }
    forall k | k in Taken(turns) ensures k in Taken(turns') {
      var j :| 0 <= j < |turns| && turns[j].Took? && turns[j].partner == k;
      assert turns'[j] == turns[j];
    }
    if t.Took? {
      assert turns'[|turns|] == t;
    }
  }

  /** The record before the first turn. */
  lemma ShapeStart<E>(n: nat)
    ensures ShapeUpTo<E>(0, n, [], [])
  {
  }

  /** A position absorbed before its turn is passed over. */
  lemma ShapeSkip<E>(a: int, n: int, pos: seq<int>, turns: seq<Turn<E>>)
    requires ShapeUpTo(a, n, pos, turns) && a < n && a in Taken(turns)
    ensures ShapeUpTo(a + 1, n, pos, turns)
  {
    assert a !in pos;
  }

  /** A position not absorbed before its turn stays in the list, absorbing nothing or a later position not absorbed before. */
  lemma ShapeTurn<E>(a: int, n: int, pos: seq<int>, turns: seq<Turn<E>>, t: Turn<E>)
    requires ShapeUpTo(a, n, pos, turns) && a < n && a !in Taken(turns)
    requires t.Took? ==> a < t.partner < n && t.partner !in Taken(turns)
    ensures ShapeUpTo(a + 1, n, pos + [a], turns + [t])
    ensures Taken(turns + [t]) == Taken(turns) + (if t.Took? then {t.partner} else {})
  {
    TakenAppend(turns, t);
    var pos', turns' := pos + [a], turns + [t];
    assert turns'[..|turns|] == turns;
    forall j | 0 <= j < |turns'| && turns'[j].Took?
      ensures pos'[j] < turns'[j].partner < n && turns'[j].partner !in Taken(turns'[..j])
    {
      if j < |turns| {
        assert turns'[..j] == turns[..j];
      }
    }
    forall k | 0 <= k < a + 1 ensures k in pos' <==> k !in Taken(turns') {
      if k == a {
        assert pos'[|pos|] == a;
      } else {
        assert k in pos' <==> k in pos;
      }
    }
  }
}
