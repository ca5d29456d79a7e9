/** POST /api/attendance/bulk: every section of one school for one date in a
    single upsert statement. */
module BulkRoute {
  import opened Wrappers
  import opened Strings
  import opened Store
  import AttendanceRoute

  /** One element of `records`. */
  datatype Item = Item(section: string, boys: Option<string>, girls: Option<string>)

  /** The `records` field: absent or falsy, present but not an array, or an array. */
  datatype RecordsField = Missing | NotAnArray | Items(items: seq<Item>)

  datatype BulkSubmission = BulkSubmission(
    records: RecordsField,
    schoolId: Option<string>,
    date: Option<string>,
    teacherId: Option<string>)

  const BadEnvelope := "Missing required fields or invalid format"
  const SaveFailed := "Failed to save bulk attendance"

  /** `parseInt(v) || 0`: NaN (and an absent value) becomes 0, any parsed
      integer is kept, negative ones included. */
  function Coerce(v: Option<string>): int {
    match v
    case None => 0
    case Some(text) =>
      match ParseInt(text)
      case None => 0
      case Some(n) => n
  }

  lemma CoerceKeepsPrinted(n: int)
    ensures Coerce(Some(IntToDecimal(n))) == n
  {
    ParsePrinted(n);
  }

  /** Text with no digit after its optional sign is NaN to `parseInt`, and
      `|| 0` turns it into 0; so does an absent value. */
  lemma CoerceUnparsable(text: string)
    requires var body := if |text| > 0 && (text[0] == '-' || text[0] == '+') then text[1..] else text;
             |body| == 0 || !IsDigit(body[0])
    ensures ParseInt(text).None?
    ensures Coerce(Some(text)) == 0 && Coerce(None) == 0
  {
  }

  /** The rows handed to the upsert: school, date and teacher from the
      envelope, section and coerced counts from each item. */
  function Prepare(school: string, date: string, teacher: Option<string>, items: seq<Item>): (rows: seq<Row>)
    ensures |rows| == |items|
    ensures forall i :: 0 <= i < |rows| ==>
              rows[i] == Row(school, items[i].section, date, Coerce(items[i].boys), Coerce(items[i].girls), teacher)
  {
    seq(|items|, i requires 0 <= i < |items| =>
      Row(school, items[i].section, date, Coerce(items[i].boys), Coerce(items[i].girls), teacher))
  }

  predicate DistinctSections(items: seq<Item>) {
    forall i, j :: 0 <= i < j < |items| ==> items[i].section != items[j].section
  }

  predicate EnvelopeOk(s: BulkSubmission) {
    s.records.Items? && Present(s.schoolId) && Present(s.date)
  }

  /** The handler as written. No section is checked against the fixed set.
      Two items with one section make the single statement touch a key twice,
      which the table refuses as a whole: the 500 path. */
  function Post(t: Table, s: BulkSubmission): (out: (Reply<nat>, Table))
    ensures !EnvelopeOk(s) ==> out == (Failure(400, BadEnvelope), t)
    ensures out.0.Failure? ==> out.1 == t
    ensures out.0.Success? <==> EnvelopeOk(s) && DistinctSections(s.records.items)
    ensures out.0.Success? ==>
              var rows := Prepare(s.schoolId.value, s.date.value, s.teacherId, s.records.items);
              && out.0.data == |s.records.items|
              && out.1.Keys == t.Keys + BatchKeys(rows)
              && (forall i :: 0 <= i < |rows| ==> out.1[KeyOf(rows[i])] == rows[i])
              && (forall k :: k in t && k !in BatchKeys(rows) ==> out.1[k] == t[k])
    ensures WellKeyed(t) ==> WellKeyed(out.1)
  {
    if !EnvelopeOk(s) then (Failure(400, BadEnvelope), t)
    else
      var items := s.records.items;
      var rows := Prepare(s.schoolId.value, s.date.value, s.teacherId, items);
      if !DistinctSections(items) then (Failure(500, SaveFailed), t)
      else
        UpsertAllStoresEveryRow(t, rows);
        (Success(|rows|), UpsertAll(t, rows))
  }

  /** An empty array is a valid batch: zero rows reported, table unchanged. */
  lemma EmptyBatch(t: Table, school: string, date: string, teacher: Option<string>)
    requires school != "" && date != ""
    ensures Post(t, BulkSubmission(Items([]), Some(school), Some(date), teacher)) == (Success(0), t)
  {
  }

  /** The bulk path stores a section the single-record path refuses. */
  lemma BulkAcceptsUnknownSection(t: Table)
    ensures var s := BulkSubmission(Items([Item("9", Some("3"), Some("4"))]), Some("S1"), Some("2024-03-01"), None);
            && Post(t, s).0 == Success(1)
            && Post(t, s).1[("S1", "9", "2024-03-01")].section == "9"
            && "9" !in AttendanceRoute.ValidSections
  {
    var s := BulkSubmission(Items([Item("9", Some("3"), Some("4"))]), Some("S1"), Some("2024-03-01"), None);
    var rows := Prepare("S1", "2024-03-01", None, [Item("9", Some("3"), Some("4"))]);
    assert KeyOf(rows[0]) == ("S1", "9", "2024-03-01");
  }

  /** So the bulk path as written can break the fixed-section invariant
      that the single-record path keeps. */
  lemma BulkBreaksSectionsValid()
    ensures var s := BulkSubmission(Items([Item("9", Some("3"), Some("4"))]), Some("S1"), Some("2024-03-01"), None);
            AttendanceRoute.SectionsValid(map[]) && !AttendanceRoute.SectionsValid(Post(map[], s).1)
  {
    BulkAcceptsUnknownSection(map[]);
  }

  /** The handler with the single-record path's section check added after the
      envelope check. */
  function PostChecked(t: Table, s: BulkSubmission): (out: (Reply<nat>, Table))
    ensures !EnvelopeOk(s) ==> out == (Failure(400, BadEnvelope), t)
    ensures EnvelopeOk(s) && (exists i :: 0 <= i < |s.records.items| && s.records.items[i].section !in AttendanceRoute.ValidSections)
            ==> out == (Failure(400, "Invalid section"), t)
    ensures EnvelopeOk(s) && (forall i :: 0 <= i < |s.records.items| ==> s.records.items[i].section in AttendanceRoute.ValidSections)
            ==> out == Post(t, s)
    ensures out.0.Success? ==> out == Post(t, s)
  {
    if !EnvelopeOk(s) then (Failure(400, BadEnvelope), t)
    else if exists i :: 0 <= i < |s.records.items| && s.records.items[i].section !in AttendanceRoute.ValidSections then
      (Failure(400, "Invalid section"), t)
    else Post(t, s)
  }

  /** The checked handler keeps every stored section inside the fixed set. */
  lemma PostCheckedKeepsSectionsValid(t: Table, s: BulkSubmission)
    requires AttendanceRoute.SectionsValid(t)
    ensures AttendanceRoute.SectionsValid(PostChecked(t, s).1)
  {
    var out := PostChecked(t, s);
    if out.0.Success? {
      var rows := Prepare(s.schoolId.value, s.date.value, s.teacherId, s.records.items);
      forall k | k in out.1
        ensures out.1[k].section in AttendanceRoute.ValidSections
      {
        if k !in BatchKeys(rows) {
          assert out.1[k] == t[k];
        } else {
          var i :| 0 <= i < |rows| && KeyOf(rows[i]) == k;
          assert out.1[k] == rows[i];
          assert rows[i].section == s.records.items[i].section;
        }
      }
    }
  }
}
