/**
 * The permalink catalogue: one table, `haiku_permalinks`, whose primary key is
 * the permalink text and whose `is_visited` column is 0 or 1. The table is a
 * map from permalink to its visited flag, so a key occurs at most once.
 */
module HaikuDb {
  import opened Wrappers

  type Table = map<string, bool>

  /** Some row of `m` has not been visited yet. */
  predicate HasUnvisited(m: Table) {
    exists k :: k in m && !m[k]
  }

  /** One `INSERT` of `k` with `is_visited = 0`; a duplicate key violates the primary key and changes nothing. */
  function Insert(m: Table, k: string): (r: Table)
    ensures r.Keys == m.Keys + {k}
    ensures k !in m ==> !r[k]
    ensures forall j :: j in m ==> r[j] == m[j]
  {
    if k in m then m else m[k := false]
  }

  /** The inserts of `ks`, one after another. */
  function InsertAll(m: Table, ks: seq<string>): (r: Table)
    ensures m.Keys <= r.Keys
    ensures forall k :: k in ks ==> k in r
  {
    if ks == [] then m else Insert(InsertAll(m, ks[..|ks| - 1]), ks[|ks| - 1])
  }

  /** `UPDATE ... SET is_visited = 0` on every row. */
  function Cleared(m: Table): (r: Table)
    ensures r.Keys == m.Keys
    ensures forall k :: k in r ==> !r[k]
  {
    map k | k in m :: false
  }

  /** `UPDATE ... SET is_visited = 1 WHERE permalink = k`: zero rows when `k` is unknown. */
  function MarkVisited(m: Table, k: string): (r: Table)
    ensures r.Keys == m.Keys
    ensures k in m ==> r[k]
    ensures forall j :: j in m && j != k ==> r[j] == m[j]
  {
    if k in m then m[k := true] else m
  }

  /**
   * Inserting a batch adds exactly its keys, each new one unvisited, and keeps
   * every row already present as it was (duplicates in the batch included).
   */
  lemma {:induction false} InsertAllSpec(m: Table, ks: seq<string>)
    ensures InsertAll(m, ks).Keys == m.Keys + set k | k in ks
    ensures forall j :: j in m ==> InsertAll(m, ks)[j] == m[j]
    ensures forall j :: j in ks && j !in m ==> !InsertAll(m, ks)[j]
    decreases |ks|
  {
    if ks != [] {
      var init := ks[..|ks| - 1];
      var last := ks[|ks| - 1];
      InsertAllSpec(m, init);
      assert ks == init + [last];
      assert (set k | k in ks) == (set k | k in init) + {last};
    }
  }

  /** Inserting the same batch a second time changes nothing. */
  lemma InsertAllIdempotent(m: Table, ks: seq<string>)
    ensures InsertAll(InsertAll(m, ks), ks) == InsertAll(m, ks)
  {
    var once := InsertAll(m, ks);
    InsertAllSpec(m, ks);
    InsertAllSpec(once, ks);
    assert InsertAll(once, ks).Keys == once.Keys;
  }

  /** Clearing a non-empty table leaves an unvisited row, so the retry cannot come back empty. */
  lemma ClearedRefills(m: Table)
    requires m != map[]
    ensures HasUnvisited(Cleared(m))
  {
    var k :| k in m;
    assert k in Cleared(m) && !Cleared(m)[k];
  }

  /**
   * Marking `k` keeps it out of the next pick; the table is then exhausted, and
   * the next pick resets it, exactly when no row other than `k` was unvisited.
   * This holds for a visited or unknown `k` too.
   */
  lemma MarkedIsNotPicked(m: Table, k: string)
    ensures forall j :: j in MarkVisited(m, k) && !MarkVisited(m, k)[j] ==> j != k
    ensures !HasUnvisited(MarkVisited(m, k)) <==> forall j :: j in m && !m[j] ==> j == k
  {
  }

  /** The adapter over the open database; `rows` is the content of the table. */
  class HaikuDbAdapter {
    var rows: Table

    /** A freshly created table, before any permalink is added. */
    constructor ()
      ensures rows == map[]
    {
      rows := map[];
    }

    /** `addPermalink`: insert with the visited flag 0, the insert's result ignored. */
    method AddPermalink(permalink: string)
      modifies this
      ensures permalink !in old(rows) ==> rows == old(rows)[permalink := false]
      ensures permalink in old(rows) ==> rows == old(rows)
    {
      rows := Insert(rows, permalink);
    }

    /** `addPermalinks`: `addPermalink` on each element in turn. */
    method AddPermalinks(permalinks: seq<string>)
      modifies this
      ensures rows == InsertAll(old(rows), permalinks)
    {
      var i := 0;
      while i < |permalinks|
        invariant 0 <= i <= |permalinks|
        invariant rows == InsertAll(old(rows), permalinks[..i])
      {
        assert permalinks[..i + 1][..i] == permalinks[..i];
        AddPermalink(permalinks[i]);
        i := i + 1;
      }
      assert permalinks[..i] == permalinks;
    }

    /** `clearAllVisitedFlags`: every flag back to 0, no row added or removed. */
    method ClearAllVisitedFlags()
      modifies this
      ensures rows == Cleared(old(rows))
    {
      rows := Cleared(rows);
    }

    /** `SELECT permalink ... WHERE is_visited = 0 ORDER BY RANDOM() LIMIT 1`: any unvisited row. */
    method QueryUnvisited() returns (permalink: Option<string>)
      ensures permalink.None? <==> !HasUnvisited(rows)
      ensures permalink.Some? ==> permalink.value in rows && !rows[permalink.value]
    {
      if HasUnvisited(rows) {
        var k :| k in rows && !rows[k];
        permalink := Some(k);
      } else {
        permalink := None;
      }
    }

    /**
     * `fetchRandomPermalink`: an unvisited permalink, clearing every flag and
     * querying once more when all were visited; `None` only for an empty table.
     */
    method FetchRandomPermalink() returns (permalink: Option<string>)
      modifies this
      ensures permalink.None? <==> old(rows) == map[]
      ensures permalink.Some? ==> permalink.value in rows && !rows[permalink.value]
      ensures HasUnvisited(old(rows)) ==> rows == old(rows)
      ensures !HasUnvisited(old(rows)) ==> rows == Cleared(old(rows))
    {
      var i := 0;
      while i < 2
        invariant 0 <= i <= 2
        invariant i == 0 ==> rows == old(rows)
        invariant i > 0 ==> !HasUnvisited(old(rows)) && rows == Cleared(old(rows))
        invariant i == 2 ==> old(rows) == map[]
      {
        var c := QueryUnvisited();
        if c.Some? {
          return c;
        }
        if i == 1 && old(rows) != map[] {
          ClearedRefills(old(rows));
        }
        ClearAllVisitedFlags();
        i := i + 1;
      }
      return None;
    }

    /** `markPermalinkAsVisited`: sets the flag of that one row; an unknown permalink updates no row. */
    method MarkPermalinkAsVisited(permalink: string)
      modifies this
      ensures rows == MarkVisited(old(rows), permalink)
    {
      rows := MarkVisited(rows, permalink);
    }
  }
}
