/** The `attendance_records` table: at most one row per
    `(school_id, section, date)`, written by insert-or-update on that key. */
module Store {
  import opened Wrappers

  type Key = (string, string, string)

  datatype Row = Row(
    schoolId: string,
    section: string,
    date: string,
    boys: int,
    girls: int,
    teacherId: Option<string>)

  function KeyOf(r: Row): Key {
    (r.schoolId, r.section, r.date)
  }

  /** The table as a map from the composite key to the row stored there. */
  type Table = map<Key, Row>

  /** Every row is filed under its own key, so two rows never share a key. */
  ghost predicate WellKeyed(t: Table) {
    forall k :: k in t ==> KeyOf(t[k]) == k
  }

  /** The rows of a batch have pairwise-distinct keys. */
  predicate DistinctKeys(rows: seq<Row>) {
    forall i, j :: 0 <= i < j < |rows| ==> KeyOf(rows[i]) != KeyOf(rows[j])
  }

  /** Insert-or-update on the composite key (`ON CONFLICT ... DO UPDATE`). */
  function Upsert(t: Table, r: Row): (t': Table)
    ensures KeyOf(r) in t' && t'[KeyOf(r)] == r
    ensures t'.Keys == t.Keys + {KeyOf(r)}
    ensures forall k :: k in t && k != KeyOf(r) ==> t'[k] == t[k]
    ensures WellKeyed(t) ==> WellKeyed(t')
  {
    t[KeyOf(r) := r]
  }

  /** The keys a batch writes. */
  function BatchKeys(rows: seq<Row>): (ks: set<Key>)
    ensures forall i :: 0 <= i < |rows| ==> KeyOf(rows[i]) in ks
    ensures forall k :: k in ks ==> exists i :: 0 <= i < |rows| && KeyOf(rows[i]) == k
    decreases |rows|
  {
    if |rows| == 0 then {}
    else
      var ks := BatchKeys(rows[1..]);
      assert forall i :: 1 <= i < |rows| ==> rows[i] == rows[1..][i - 1];
      {KeyOf(rows[0])} + ks
  }

  /** One statement upserting several rows, in order. */
  function UpsertAll(t: Table, rows: seq<Row>): (t': Table)
    ensures t'.Keys == t.Keys + BatchKeys(rows)
    ensures forall k :: k in t && k !in BatchKeys(rows) ==> t'[k] == t[k]
    ensures WellKeyed(t) ==> WellKeyed(t')
    decreases |rows|
  {
    if |rows| == 0 then t
    else UpsertAll(Upsert(t, rows[0]), rows[1..])
  }

  /** With pairwise-distinct keys, every row of the batch ends up stored under its key. */
  lemma {:induction false} UpsertAllStoresEveryRow(t: Table, rows: seq<Row>)
    requires DistinctKeys(rows)
    ensures forall i :: 0 <= i < |rows| ==> UpsertAll(t, rows)[KeyOf(rows[i])] == rows[i]
    decreases |rows|
  {
    if |rows| > 0 {
      var rest := rows[1..];
      assert DistinctKeys(rest) by {
        forall i, j | 0 <= i < j < |rest|
          ensures KeyOf(rest[i]) != KeyOf(rest[j])
        {
          assert rest[i] == rows[i + 1] && rest[j] == rows[j + 1];
        }
      }
      UpsertAllStoresEveryRow(Upsert(t, rows[0]), rest);
      assert KeyOf(rows[0]) !in BatchKeys(rest);
      forall i | 0 <= i < |rows|
        ensures UpsertAll(t, rows)[KeyOf(rows[i])] == rows[i]
      {
        if i > 0 {
          assert rows[i] == rest[i - 1];
        }
      }
    }
  }

  /** A later upsert on the same key erases every trace of the earlier one. */
  lemma LastWriterWins(t: Table, r1: Row, r2: Row)
    requires KeyOf(r1) == KeyOf(r2)
    ensures Upsert(Upsert(t, r1), r2) == Upsert(t, r2)
  {
  }

  /** Upserting a row that is already stored changes nothing. */
  lemma UpsertIdempotent(t: Table, r: Row)
    ensures Upsert(Upsert(t, r), r) == Upsert(t, r)
  {
  }
}
