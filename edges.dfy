/** Tables whose primary key is the whole row, such as a link table keyed by
    (source id, target id): rows are kept in insertion order and a row is
    present at most once. */
module Edges {
  import opened Common

  /** One row of a two-column relation keyed by the whole row: (source note id,
      target note id) in a link table, and (note id, tag id) in note_tags, where
      Targets are a note's tag ids. */
  type Edge = (nat, nat)

  /** `INSERT OR IGNORE`: the row is appended unless it is already present. */
  function InsertOrIgnore<T(==, !new)>(table: seq<T>, row: T): (r: seq<T>)
    ensures forall x :: x in r <==> x in table || x == row
    ensures row in table ==> r == table
  {
    if row in table then table else table + [row]
  }

  /** The old rows stay in place, at most one row is added, and no row is
      duplicated. */
  lemma InsertOrIgnoreExtends<T(!new)>(table: seq<T>, row: T)
    ensures var r := InsertOrIgnore(table, row);
      && |table| <= |r| <= |table| + 1 && r[..|table|] == table
      && (NoDup(table) ==> NoDup(r))
  {
  }

  /** Inserting a row twice leaves the table as inserting it once does. */
  lemma InsertOrIgnoreIdempotent<T(!new)>(table: seq<T>, row: T)
    ensures InsertOrIgnore(InsertOrIgnore(table, row), row) == InsertOrIgnore(table, row)
  {
  }

  /** Second components of the rows whose first component is `s`, in row order. */
  function Targets<S(==, !new), T(==, !new)>(table: seq<(S, T)>, s: S): (r: seq<T>)
    ensures forall t :: t in r <==> (s, t) in table
    ensures |r| <= |table|
  {
    if table == [] then []
    else
      var last := table[|table| - 1];
      assert table == table[..|table| - 1] + [last];
      Targets(table[..|table| - 1], s) + (if last.0 == s then [last.1] else [])
  }

  /** First components of the rows whose second component is `t`, in row order. */
  function Sources<S(==, !new), T(==, !new)>(table: seq<(S, T)>, t: T): (r: seq<S>)
    ensures forall s :: s in r <==> (s, t) in table
    ensures |r| <= |table|
  {
    if table == [] then []
    else
      var last := table[|table| - 1];
      assert table == table[..|table| - 1] + [last];
      Sources(table[..|table| - 1], t) + (if last.1 == t then [last.0] else [])
  }

  /** Appending a row extends the target list of its source only. */
  lemma TargetsAppend<S(!new), T(!new)>(table: seq<(S, T)>, row: (S, T), s: S)
    ensures Targets(table + [row], s) == Targets(table, s) + (if row.0 == s then [row.1] else [])
  {
    assert (table + [row])[..|table|] == table;
  }

  /** Appending a row extends the source list of its target only. */
  lemma SourcesAppend<S(!new), T(!new)>(table: seq<(S, T)>, row: (S, T), t: T)
    ensures Sources(table + [row], t) == Sources(table, t) + (if row.1 == t then [row.0] else [])
  {
    assert (table + [row])[..|table|] == table;
  }

  /** A value that starts no row has no targets. */
  lemma {:induction false} TargetsOfAbsent<S(!new), T(!new)>(table: seq<(S, T)>, s: S)
    requires forall row :: row in table ==> row.0 != s
    ensures Targets(table, s) == []
  {
    if table != [] {
      var init := table[..|table| - 1];
      assert table == init + [table[|table| - 1]];
      TargetsOfAbsent(init, s);
    }
  }

  /** A table without duplicate rows lists each target of a source once. */
  lemma {:induction false} TargetsNoDup<S(!new), T(!new)>(table: seq<(S, T)>, s: S)
    requires NoDup(table)
    ensures NoDup(Targets(table, s))
  {
    if table != [] {
      var init, last := table[..|table| - 1], table[|table| - 1];
      assert table == init + [last];
      TargetsNoDup(init, s);
      if last.0 == s {
        assert last !in init;
        assert last.1 !in Targets(init, s);
      }
    }
  }

  /** A table without duplicate rows lists each source of a target once. */
  lemma {:induction false} SourcesNoDup<S(!new), T(!new)>(table: seq<(S, T)>, t: T)
    requires NoDup(table)
    ensures NoDup(Sources(table, t))
  {
    if table != [] {
      var init, last := table[..|table| - 1], table[|table| - 1];
      assert table == init + [last];
      SourcesNoDup(init, t);
      if last.1 == t {
        assert last !in init;
        assert last.0 !in Sources(init, t);
      }
    }
  }

  /** Backward links are the inverse of forward links: `t` is a target of `s`
      exactly when `s` is a source of `t`. */
  lemma TargetsSourcesInverse<S(!new), T(!new)>(table: seq<(S, T)>, s: S, t: T)
    ensures t in Targets(table, s) <==> s in Sources(table, t)
  {
  }
}
