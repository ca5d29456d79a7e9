/** GET /api/attendance-data: the stored rows, each joined with its school's
    name, narrowed by optional date bounds and school, most recent date first. */
module AttendanceQuery {
  import opened Wrappers
  import opened Strings
  import opened Store

  /** A row as the dashboard receives it: the stored row plus the joined
      school name (`None` when the join finds no school). */
  datatype Record = Record(row: Row, schoolName: Option<string>)

  /** The query-string parameters; a missing or empty one applies no filter. */
  datatype Filter = Filter(startDate: Option<string>, endDate: Option<string>, schoolId: Option<string>)

  /** Dates are `YYYY-MM-DD` text, for which the ordinal string order is the
      calendar order the table's comparison uses. */
  predicate Matches(f: Filter, r: Row) {
    && (Present(f.startDate) ==> AtMost(f.startDate.value, r.date))
    && (Present(f.endDate) ==> AtMost(r.date, f.endDate.value))
    && (Present(f.schoolId) ==> r.schoolId == f.schoolId.value)
  }

  function WithSchool(r: Row, names: map<string, string>): Record {
    Record(r, if r.schoolId in names then Some(names[r.schoolId]) else None)
  }

  /** Ordered by date, most recent first; equal dates in any order. */
  predicate NewestFirst(rs: seq<Record>) {
    forall i, j :: 0 <= i < j < |rs| ==> AtMost(rs[j].row.date, rs[i].row.date)
  }

  /** Where a record goes in a newest-first list: before the first element
      whose date is not later than its own. */
  function InsertionPoint(rs: seq<Record>, x: Record): (i: nat)
    ensures i <= |rs|
    ensures forall j :: 0 <= j < i ==> Less(x.row.date, rs[j].row.date)
    ensures i < |rs| ==> AtMost(rs[i].row.date, x.row.date)
    decreases |rs|
  {
    if |rs| == 0 then 0
    else if AtMost(rs[0].row.date, x.row.date) then 0
    else
      NotAtMost(rs[0].row.date, x.row.date);
      1 + InsertionPoint(rs[1..], x)
  }

  predicate Distinct(rs: seq<Record>) {
    forall i, j :: 0 <= i < j < |rs| ==> rs[i] != rs[j]
  }

  /** Insertion into a newest-first list. */
  function Insert(rs: seq<Record>, x: Record): (r: seq<Record>)
    requires NewestFirst(rs)
    ensures NewestFirst(r)
    ensures forall y :: y in r <==> y in rs || y == x
    ensures Distinct(rs) && x !in rs ==> Distinct(r)
  {
    var i := InsertionPoint(rs, x);
    var r := rs[..i] + [x] + rs[i..];
    assert forall a :: 0 <= a < |r| ==> r[a] == if a < i then rs[a] else if a == i then x else rs[a - 1];
    forall a, b | 0 <= a < b < |r|
      ensures AtMost(r[b].row.date, r[a].row.date)
    {
      if a == i && b - 1 > i {
        AtMostTransitive(rs[b - 1].row.date, rs[i].row.date, x.row.date);
      }
    }
    r
  }

  /** A record drawn from the table's visited keys that passes the filter. */
  ghost predicate Drawn(t: Table, visited: set<Key>, names: map<string, string>, f: Filter, x: Record) {
    && KeyOf(x.row) in visited && KeyOf(x.row) in t && t[KeyOf(x.row)] == x.row
    && Matches(f, x.row) && x == WithSchool(x.row, names)
  }

  /** The handler's query and its reply: the query never fails on a
      matching-nothing filter, it replies with an empty list. The table's
      order among equal dates is unspecified, so the choice of the next key
      to visit is left open. */
  method Query(t: Table, names: map<string, string>, f: Filter) returns (reply: Reply<seq<Record>>)
    requires WellKeyed(t)
    ensures reply.Success?
    ensures var data := reply.data;
            && (forall i :: 0 <= i < |data| ==>
                  && KeyOf(data[i].row) in t && t[KeyOf(data[i].row)] == data[i].row
                  && Matches(f, data[i].row) && data[i] == WithSchool(data[i].row, names))
            && (forall k :: k in t && Matches(f, t[k]) ==> WithSchool(t[k], names) in data)
            && (!Present(f.startDate) && !Present(f.endDate) && !Present(f.schoolId) ==>
                  forall k :: k in t ==> WithSchool(t[k], names) in data)
            && Distinct(data)
            && NewestFirst(data)
  {
    var todo := t.Keys;
    var data := [];
    while todo != {}
      invariant todo <= t.Keys
      invariant forall i :: 0 <= i < |data| ==> Drawn(t, t.Keys - todo, names, f, data[i])
      invariant forall k :: k in t.Keys - todo && Matches(f, t[k]) ==> WithSchool(t[k], names) in data
      invariant Distinct(data)
      invariant NewestFirst(data)
      decreases |todo|
    {
      var k :| k in todo;
      var x := WithSchool(t[k], names);
      ghost var before := data;
      if Matches(f, t[k]) {
        assert KeyOf(x.row) == k;
        forall i | 0 <= i < |data|
          ensures data[i] != x
        {
          assert Drawn(t, t.Keys - todo, names, f, data[i]);
          assert KeyOf(data[i].row) != k;
        }
        data := Insert(data, x);
      }
      todo := todo - {k};
      forall y | y in data
        ensures Drawn(t, t.Keys - todo, names, f, y)
      {
        if y != x {
          assert y in before;
        }
      }
    }
    reply := Success(data);
  }
}
