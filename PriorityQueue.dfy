/**
 * The mutable max-priority queue the selector uses: (score, read index) pairs with pop of
 * the maximum, lookup of an item's score and in-place change of an item's score.
 * Only the contract the selector relies on is modelled; the entries are held in a map
 * from item to score and `Pop` scans for the maximum.
 */
module PriorityQueues {
  import opened Wrappers

  /** The score tuple of a read: (first, second, quality), compared lexicographically. */
  datatype Score = Score(first: int, second: int, quality: int)

  predicate ScoreLess(a: Score, b: Score) {
    a.first < b.first ||
    (a.first == b.first && (a.second < b.second ||
    (a.second == b.second && a.quality < b.quality)))
  }

  /**
   * The order in which entries leave the queue: by score, ties broken in favour of the
   * larger item so that the order is total and every run is reproducible.
   */
  predicate EntryLe(s: Score, i: nat, t: Score, j: nat) {
    ScoreLess(s, t) || (s == t && i <= j)
  }

  /** `EntryLe` is a total order on entries with distinct items. */
  lemma EntryLeTotal(s: Score, i: nat, t: Score, j: nat)
    ensures EntryLe(s, i, t, j) || EntryLe(t, j, s, i)
  {
  }

  lemma EntryLeTrans(s: Score, i: nat, t: Score, j: nat, u: Score, k: nat)
    requires EntryLe(s, i, t, j) && EntryLe(t, j, u, k)
    ensures EntryLe(s, i, u, k)
  {
  }

  /** `item` is the entry `pop` returns: the greatest one in the `EntryLe` order. */
  ghost predicate IsTop(entries: map<nat, Score>, item: nat) {
    item in entries && forall k :: k in entries ==> EntryLe(entries[k], k, entries[item], item)
  }

  /** A queue with entries has a top entry. */
  lemma {:induction false} TopExists(entries: map<nat, Score>) returns (item: nat)
    requires entries != map[]
    ensures IsTop(entries, item)
    decreases |entries.Keys|
  {
    var k :| k in entries;
    var rest := entries - {k};
    assert rest.Keys == entries.Keys - {k};
    if rest == map[] {
      assert entries.Keys == rest.Keys + {k};
      item := k;
    } else {
      var t := TopExists(rest);
      EntryLeTotal(entries[k], k, entries[t], t);
      if EntryLe(entries[k], k, entries[t], t) {
        item := t;
        forall k' | k' in entries ensures EntryLe(entries[k'], k', entries[t], t) {
          if k' != k {
            assert k' in rest && rest[k'] == entries[k'] && rest[t] == entries[t];
          }
        }
      } else {
        item := k;
        forall k' | k' in entries ensures EntryLe(entries[k'], k', entries[k], k) {
          if k' != k {
            assert k' in rest && rest[k'] == entries[k'] && rest[t] == entries[t];
            EntryLeTrans(entries[k'], k', entries[t], t, entries[k], k);
          }
        }
      }
    }
  }

  /** The top entry is unique. */
  lemma TopUnique(entries: map<nat, Score>, item: nat)
    requires IsTop(entries, item)
    ensures forall x :: IsTop(entries, x) ==> x == item
  {
  }

  lemma HasTop(entries: map<nat, Score>)
    requires entries != map[]
    ensures exists item :: IsTop(entries, item)
  {
    var item := TopExists(entries);
  }

  /** The item `pop` removes from a queue with entries. */
  ghost function TopOf(entries: map<nat, Score>): (item: nat)
    requires entries != map[]
    ensures IsTop(entries, item)
  {
    HasTop(entries);
    var item :| IsTop(entries, item);
    item
  }

  class PriorityQueue {
    var entries: map<nat, Score>

    constructor ()
      ensures entries == map[]
    {
      entries := map[];
    }

    method Push(score: Score, item: nat)
      requires item !in entries
      modifies this
      ensures entries == old(entries)[item := score]
    {
      entries := entries[item := score];
    }

    method IsEmpty() returns (empty: bool)
      ensures empty <==> |entries| == 0
    {
      empty := |entries| == 0;
    }

    /** Removes and returns the entry that is greatest in the `EntryLe` order. */
    method Pop() returns (score: Score, item: nat)
      requires |entries| > 0
      modifies this
      ensures IsTop(old(entries), item) && score == old(entries)[item]
      ensures entries == old(entries) - {item}
    {
      var rest := entries.Keys;
      item :| item in rest;
      rest := rest - {item};
      while rest != {}
        invariant rest <= entries.Keys && item in entries && item !in rest
        invariant forall k :: k in entries && k !in rest ==> EntryLe(entries[k], k, entries[item], item)
        decreases rest
      {
        var k :| k in rest;
        if EntryLe(entries[item], item, entries[k], k) {
          item := k;
        }
        rest := rest - {k};
      }
      score := entries[item];
      entries := entries - {item};
    }

    /** The current score of `item`, or None when it is no longer in the queue. */
    method GetScoreByItem(item: nat) returns (score: Option<Score>)
      ensures score.Some? <==> item in entries
      ensures score.Some? ==> score.value == entries[item]
    {
      if item in entries {
        score := Some(entries[item]);
      } else {
        score := None;
      }
    }

    method ChangeScore(item: nat, score: Score)
      requires item in entries
      modifies this
      ensures entries == old(entries)[item := score]
    {
      entries := entries[item := score];
    }
  }
}
