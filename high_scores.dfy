/** The list logic of `HighScoreManager`: `add_score` appends an entry, sorts
    the table by score from highest to lowest (a stable sort, so entries with
    equal scores keep their order), and keeps the first ten. Reading and
    writing the JSON file is not modelled: the loaded table is a parameter. */
module HighScores {

  datatype Entry = Entry(name: string, score: int)

  /** The table keeps at most this many entries. */
  const MaxEntries := 10

  predicate SortedDesc(s: seq<Entry>)
  {
    forall i, j :: 0 <= i < j < |s| ==> s[i].score >= s[j].score
  }

  /** Every entry of `s` scores at least `v`. */
  predicate AllAtLeast(s: seq<Entry>, v: int)
  {
    forall i :: 0 <= i < |s| ==> s[i].score >= v
  }

  /** No entry of `s` scores more than `v`. */
  predicate AllAtMost(s: seq<Entry>, v: int)
  {
    forall i :: 0 <= i < |s| ==> s[i].score <= v
  }

  /** `e` placed into a table sorted from highest to lowest, after every entry
      that scores at least as much as `e` (which is what keeps the sort stable). */
  function Insert(t: seq<Entry>, e: Entry): (r: seq<Entry>)
    ensures |r| == |t| + 1
  {
    if t == [] then [e]
    else if t[0].score >= e.score then [t[0]] + Insert(t[1..], e)
    else [e] + t
  }

  /** Inserting adds exactly the one entry. */
  lemma {:induction false} InsertPermutes(t: seq<Entry>, e: Entry)
    ensures multiset(Insert(t, e)) == multiset(t) + multiset{e}
  {
    if t != [] && t[0].score >= e.score {
      InsertPermutes(t[1..], e);
      calc {
        multiset(Insert(t, e));
        multiset([t[0]] + Insert(t[1..], e));
        multiset([t[0]]) + multiset(Insert(t[1..], e));
        multiset([t[0]]) + multiset(t[1..]) + multiset{e};
        { assert t == [t[0]] + t[1..]; }
        multiset(t) + multiset{e};
      }
    }
  }

  /** An upper bound on the table and the entry is one on the result. */
  lemma {:induction false} InsertAtMost(t: seq<Entry>, e: Entry, v: int)
    requires AllAtMost(t, v) && e.score <= v
    ensures AllAtMost(Insert(t, e), v)
  {
    if t != [] && t[0].score >= e.score {
      InsertAtMost(t[1..], e, v);
    }
  }

  /** Inserting into a sorted table gives a sorted table. */
  lemma {:induction false} InsertSorted(t: seq<Entry>, e: Entry)
    requires SortedDesc(t)
    ensures SortedDesc(Insert(t, e))
  {
    if t != [] && t[0].score >= e.score {
      InsertSorted(t[1..], e);
      InsertAtMost(t[1..], e, t[0].score);
      var r := Insert(t, e);
      assert r == [t[0]] + Insert(t[1..], e);
    }
  }

  /** The sort of `add_score`: insertion from the front of the list, each
      entry after the ones equal to it that came earlier. */
  function SortDesc(s: seq<Entry>): (r: seq<Entry>)
    ensures |r| == |s|
    ensures multiset(r) == multiset(s)
    ensures SortedDesc(r)
    decreases |s|
  {
    if s == [] then []
    else
      var front, last := s[..|s| - 1], s[|s| - 1];
      assert s == front + [last];
      var sorted := SortDesc(front);
      InsertPermutes(sorted, last);
      InsertSorted(sorted, last);
      Insert(sorted, last)
  }

  /** The first `n` entries of `s`, or all of them if there are fewer (`s[:n]`). */
  function Prefix(s: seq<Entry>, n: nat): (r: seq<Entry>)
    ensures |r| == if |s| < n then |s| else n
    ensures r == s[..|r|]
  {
    if |s| <= n then s else s[..n]
  }

  /** The table after `add_score(name, score)`. */
  function AddScoreF(t: seq<Entry>, name: string, score: int): (r: seq<Entry>)
    ensures |r| == if |t| + 1 < MaxEntries then |t| + 1 else MaxEntries
    ensures SortedDesc(r)
    ensures multiset(r) <= multiset(t + [Entry(name, score)])
  {
    var all := SortDesc(t + [Entry(name, score)]);
    var r := Prefix(all, MaxEntries);
    KeptPrefix(all, |r|);
    r
  }

  /** A prefix of a sorted list is sorted and is part of the list. */
  lemma KeptPrefix(s: seq<Entry>, n: nat)
    requires SortedDesc(s) && n <= |s|
    ensures SortedDesc(s[..n])
    ensures multiset(s[..n]) <= multiset(s)
  {
    assert s == s[..n] + s[n..];
  }

  /** An entry scoring no more than every entry of the table goes to its end. */
  lemma {:induction false} InsertAtEnd(t: seq<Entry>, e: Entry)
    requires AllAtLeast(t, e.score)
    ensures Insert(t, e) == t + [e]
  {
    if t != [] {
      InsertAtEnd(t[1..], e);
    }
  }

  /** Sorting a table that is already sorted changes nothing: equal scores
      keep their order. */
  lemma {:induction false} SortSorted(s: seq<Entry>)
    requires SortedDesc(s)
    ensures SortDesc(s) == s
    decreases |s|
  {
    if s != [] {
      var front, last := s[..|s| - 1], s[|s| - 1];
      assert s == front + [last];
      SortSorted(front);
      InsertAtEnd(front, last);
    }
  }

  /** Where `Insert` puts the entry in a sorted table: after the first k
      entries, which are exactly those scoring at least as much. */
  lemma {:induction false} InsertPosition(t: seq<Entry>, e: Entry) returns (k: nat)
    requires SortedDesc(t)
    ensures k <= |t|
    ensures Insert(t, e) == t[..k] + [e] + t[k..]
    ensures forall i :: 0 <= i < k ==> t[i].score >= e.score
    ensures forall i :: k <= i < |t| ==> t[i].score < e.score
  {
    if t == [] {
      k := 0;
    } else if t[0].score >= e.score {
      var rest := t[1..];
      var k1 := InsertPosition(rest, e);
      k := k1 + 1;
      assert Insert(t, e) == [t[0]] + Insert(rest, e);
      assert t[..k] == [t[0]] + rest[..k1];
      assert t[k..] == rest[k1..];
      forall i | 0 < i < |t| ensures t[i] == rest[i - 1] { }
    } else {
      k := 0;
    }
  }

  /** `add_score` on a sorted table: the new entry goes right after the
      entries scoring at least as much as it, and the table is cut to ten. */
  lemma AddToSorted(t: seq<Entry>, name: string, score: int) returns (k: nat)
    requires SortedDesc(t)
    ensures k <= |t|
    ensures forall i :: 0 <= i < k ==> t[i].score >= score
    ensures forall i :: k <= i < |t| ==> t[i].score < score
    ensures AddScoreF(t, name, score) == Prefix(t[..k] + [Entry(name, score)] + t[k..], MaxEntries)
  {
    var e := Entry(name, score);
    var s := t + [e];
    assert s[..|s| - 1] == t;
    SortSorted(t);
    k := InsertPosition(t, e);
  }

  /** A new entry enters a table of fewer than ten entries, and enters a
      full sorted table if and only if it beats the last entry. */
  lemma NewEntryKept(t: seq<Entry>, name: string, score: int)
    requires SortedDesc(t)
    ensures |t| < MaxEntries ==> Entry(name, score) in AddScoreF(t, name, score)
    ensures |t| == MaxEntries ==>
              (Entry(name, score) in AddScoreF(t, name, score) <==>
                 (score > t[MaxEntries - 1].score || Entry(name, score) in t))
  {
    var e := Entry(name, score);
    var k := AddToSorted(t, name, score);
    var full := t[..k] + [e] + t[k..];
    assert full[k] == e;
    if |t| == MaxEntries {
      var r := AddScoreF(t, name, score);
      assert r == full[..MaxEntries];
      if score > t[MaxEntries - 1].score {
        assert k < MaxEntries;
        assert r[k] == e;
      } else {
        assert k == MaxEntries;
        assert r == t;
      }
    }
  }

  /** What `add_score` drops scores no more than anything it keeps. */
  lemma KeepsBest(t: seq<Entry>, name: string, score: int)
    ensures var all := SortDesc(t + [Entry(name, score)]);
            var r := AddScoreF(t, name, score);
            r == all[..|r|] &&
            forall i, j :: 0 <= i < |r| <= j < |all| ==> r[i].score >= all[j].score
  {
  }

  /** The high-score table, loaded when the manager is created. */
  class HighScoreManager {
    var highScores: seq<Entry>

    /** `__init__` followed by `load_high_scores`, given the table that was
        read (the empty table when there is no file). */
    constructor (loaded: seq<Entry>)
      ensures highScores == loaded
    {
      highScores := loaded;
    }

    /** `add_score(name, score)`, without the write to the file. */
    method AddScore(name: string, score: int)
      modifies this
      ensures highScores == AddScoreF(old(highScores), name, score)
      ensures |highScores| <= MaxEntries && SortedDesc(highScores)
    {
      highScores := highScores + [Entry(name, score)];
      highScores := SortDesc(highScores);
      highScores := Prefix(highScores, MaxEntries);
    }
  }
}
