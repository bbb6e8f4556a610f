/**
 * Which rows of the advanced tree the search box leaves visible.  The tree
 * is a sequence of rows in the order the tree iterator visits them, so every
 * row's parent comes before it.  A pref row is "shown" by the search when
 * the search text is empty or occurs, ignoring case, in its column-0 text or
 * tooltip; a row is visible after the search when the search is empty, when
 * it is itself shown, or when some shown row lies below it.
 */
module Visibility {
  import opened Rows
  import Text

  /** Parents come before their children; -1 marks a top-level row. */
  ghost predicate WellFormed(rows: seq<Row>) {
    forall i :: 0 <= i < |rows| ==> -1 <= rows[i].parent < i
  }

  /** No row hangs below a pref row: pref rows are leaves. */
  ghost predicate RowsKeepPrefsAsLeaves(rows: seq<Row>) {
    forall c :: 0 <= c < |rows| && 0 <= rows[c].parent < |rows| ==> rows[rows[c].parent].pref.None?
  }

  /** The search test applied to one pref row. */
  predicate Matches(r: Row, search: string) {
    search == [] || Text.ContainsIgnoringCase(r.name, search) || Text.ContainsIgnoringCase(r.tip, search)
  }

  /** Row `j` is a pref row that passes the search. */
  predicate Shown(rows: seq<Row>, search: string, j: int)
    requires 0 <= j < |rows|
  {
    rows[j].pref.Some? && Matches(rows[j], search)
  }

  /** Row `a` lies on the parent chain of row `j`. */
  ghost predicate Ancestor(rows: seq<Row>, a: int, j: int)
    decreases j
  {
    0 <= j < |rows| && 0 <= rows[j].parent < j &&
    (rows[j].parent == a || Ancestor(rows, a, rows[j].parent))
  }

  /** Some shown row with index below `bound` lies below row `i`. */
  ghost predicate ShownBelow(rows: seq<Row>, search: string, i: int, bound: int)
    requires bound <= |rows|
  {
    exists j :: 0 <= j < bound && Shown(rows, search, j) && Ancestor(rows, i, j)
  }

  /** Whether row `i` ends up visible once the search text is `search`. */
  ghost predicate Visible(rows: seq<Row>, search: string, i: int)
    requires 0 <= i < |rows|
  {
    search == [] || Shown(rows, search, i) || ShownBelow(rows, search, i, |rows|)
  }

  lemma {:induction false} AncestorIsEarlier(rows: seq<Row>, a: int, j: int)
    requires Ancestor(rows, a, j)
    ensures 0 <= a < j
    decreases j
  {
    if rows[j].parent != a {
      AncestorIsEarlier(rows, a, rows[j].parent);
    }
  }

  lemma {:induction false} AncestorTransitive(rows: seq<Row>, a: int, b: int, c: int)
    requires Ancestor(rows, a, b) && Ancestor(rows, b, c)
    ensures Ancestor(rows, a, c)
    decreases c
  {
    if rows[c].parent != b {
      AncestorTransitive(rows, a, b, rows[c].parent);
    }
  }

  /** A row with something below it has a child. */
  lemma {:induction false} AncestorHasChild(rows: seq<Row>, a: int, j: int)
    requires Ancestor(rows, a, j)
    ensures exists c :: 0 <= c < |rows| && rows[c].parent == a
    decreases j
  {
    if rows[j].parent != a {
      AncestorHasChild(rows, a, rows[j].parent);
    }
  }

  /** Extending the bound by one row adds exactly that row, when it is shown and below `i`. */
  lemma ShownBelowStep(rows: seq<Row>, search: string, i: int, bound: int)
    requires 0 <= bound < |rows|
    ensures ShownBelow(rows, search, i, bound + 1) <==>
            ShownBelow(rows, search, i, bound) || (Shown(rows, search, bound) && Ancestor(rows, i, bound))
  {
  }

  /** Nothing up to row `i` itself lies below row `i`. */
  lemma ShownBelowNone(rows: seq<Row>, search: string, i: int, bound: int)
    requires 0 <= bound <= i + 1 && bound <= |rows|
    ensures !ShownBelow(rows, search, i, bound)
  {
    if ShownBelow(rows, search, i, bound) {
      var j :| 0 <= j < bound && Shown(rows, search, j) && Ancestor(rows, i, j);
      AncestorIsEarlier(rows, i, j);
    }
  }

  /** Every row above a visible row is visible too. */
  lemma AncestorsOfVisibleAreVisible(rows: seq<Row>, search: string, a: int, j: int)
    requires 0 <= j < |rows| && Visible(rows, search, j) && Ancestor(rows, a, j)
    ensures 0 <= a < |rows| && Visible(rows, search, a)
  {
    AncestorIsEarlier(rows, a, j);
    if search != [] {
      if Shown(rows, search, j) {
        assert ShownBelow(rows, search, a, |rows|);
      } else {
        var k :| 0 <= k < |rows| && Shown(rows, search, k) && Ancestor(rows, j, k);
        AncestorTransitive(rows, a, j, k);
        assert ShownBelow(rows, search, a, |rows|);
      }
    }
  }

  /** In a tree whose pref rows are leaves, a pref row is visible exactly when it passes the search. */
  lemma PrefRowVisibleIffMatches(rows: seq<Row>, search: string, i: int)
    requires RowsKeepPrefsAsLeaves(rows)
    requires 0 <= i < |rows| && rows[i].pref.Some?
    ensures Visible(rows, search, i) <==> Matches(rows[i], search)
  {
    if ShownBelow(rows, search, i, |rows|) {
      var j :| 0 <= j < |rows| && Shown(rows, search, j) && Ancestor(rows, i, j);
      AncestorHasChild(rows, i, j);
      assert false;
    }
  }

  /** A grouping row is visible exactly when the search is empty or a visible pref row lies below it. */
  lemma GroupRowVisibleIffPrefBelowVisible(rows: seq<Row>, search: string, i: int)
    requires 0 <= i < |rows| && rows[i].pref.None?
    ensures Visible(rows, search, i) <==>
            search == [] ||
            exists j :: 0 <= j < |rows| && rows[j].pref.Some? && Ancestor(rows, i, j) && Visible(rows, search, j)
  {
    if search != [] {
      if Visible(rows, search, i) {
        var j :| 0 <= j < |rows| && Shown(rows, search, j) && Ancestor(rows, i, j);
        assert rows[j].pref.Some? && Visible(rows, search, j);
      }
      if exists j :: 0 <= j < |rows| && rows[j].pref.Some? && Ancestor(rows, i, j) && Visible(rows, search, j) {
        var j :| 0 <= j < |rows| && rows[j].pref.Some? && Ancestor(rows, i, j) && Visible(rows, search, j);
        AncestorsOfVisibleAreVisible(rows, search, i, j);
      }
    }
  }

  /** With an empty search every row, grouping or pref, is visible. */
  lemma EmptySearchShowsEveryRow(rows: seq<Row>, i: int)
    requires 0 <= i < |rows|
    ensures Visible(rows, [], i)
  {
  }
}
