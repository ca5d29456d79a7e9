/** POST /api/attendance: one section's counts for one school and date. */
module AttendanceRoute {
  import opened Wrappers
  import opened Strings
  import opened Store

  /** The sections the handler accepts. */
  const ValidSections: seq<string> := ["1A", "1B", "2", "3", "4", "5"]

  /** The JSON body. Every field may be absent (`None`); counts arrive as the
      text `parseInt` reads. */
  datatype Submission = Submission(
    schoolId: Option<string>,
    section: Option<string>,
    date: Option<string>,
    boys: Option<string>,
    girls: Option<string>,
    teacherId: Option<string>)

  /** School, section and date are truthy and neither count is `undefined`. */
  predicate HasRequiredFields(s: Submission) {
    Present(s.schoolId) && Present(s.section) && Present(s.date) && s.boys.Some? && s.girls.Some?
  }

  /** A falsy `teacher_id` is stored as null. */
  function StoredTeacher(teacherId: Option<string>): (t: Option<string>)
    ensures t.Some? <==> Present(teacherId)
    ensures t.Some? ==> t == teacherId
  {
    if Present(teacherId) then teacherId else None
  }

  /** The handler: validation, then the keyed upsert. A count that `parseInt`
      turns into NaN is sent to the table as null; the model assumes the count
      columns refuse null, and takes that refusal as the handler's 500 path. */
  function Post(t: Table, s: Submission): (out: (Reply<Row>, Table))
    ensures !HasRequiredFields(s) ==> out == (Failure(400, "Missing required fields"), t)
    ensures HasRequiredFields(s) && s.section.value !in ValidSections
            ==> out == (Failure(400, "Invalid section"), t)
    ensures out.0.Failure? ==> out.1 == t
    ensures out.0.Success? <==>
              HasRequiredFields(s) && s.section.value in ValidSections
              && ParseInt(s.boys.value).Some? && ParseInt(s.girls.value).Some?
    ensures out.0.Success? ==>
              var r := out.0.data;
              && r.schoolId == s.schoolId.value && r.section == s.section.value && r.date == s.date.value
              && Some(r.boys) == ParseInt(s.boys.value) && Some(r.girls) == ParseInt(s.girls.value)
              && r.teacherId == StoredTeacher(s.teacherId)
              && out.1.Keys == t.Keys + {KeyOf(r)}
              && out.1[KeyOf(r)] == r
              && (forall k :: k in t && k != KeyOf(r) ==> out.1[k] == t[k])
    ensures WellKeyed(t) ==> WellKeyed(out.1)
  {
    if !HasRequiredFields(s) then (Failure(400, "Missing required fields"), t)
    else if s.section.value !in ValidSections then (Failure(400, "Invalid section"), t)
    else
      var boys := ParseInt(s.boys.value);
      var girls := ParseInt(s.girls.value);
      if boys.None? || girls.None? then (Failure(500, "Failed to save attendance"), t)
      else
        var r := Row(s.schoolId.value, s.section.value, s.date.value, boys.value, girls.value,
                     StoredTeacher(s.teacherId));
        (Success(r), Upsert(t, r))
  }

  /** Two accepted submissions for the same key: the table holds the second's
      values and looks exactly as if the first had never been made. */
  lemma LastSubmissionWins(t: Table, s1: Submission, s2: Submission)
    requires Post(t, s1).0.Success? && Post(t, s2).0.Success?
    requires s1.schoolId == s2.schoolId && s1.section == s2.section && s1.date == s2.date
    ensures Post(Post(t, s1).1, s2) == Post(t, s2)
  {
    var r1 := Post(t, s1).0.data;
    LastWriterWins(t, r1, Post(t, s2).0.data);
  }

  /** Repeating a submission returns the same reply and leaves the table as
      the first one left it. */
  lemma SubmissionIdempotent(t: Table, s: Submission)
    ensures Post(Post(t, s).1, s) == Post(t, s)
  {
    if Post(t, s).0.Success? {
      UpsertIdempotent(t, Post(t, s).0.data);
    }
  }

  /** Counts are never range-checked: any integer, negative ones included,
      printed in decimal is stored as that integer. */
  lemma AnyCountAccepted(t: Table, school: string, section: string, date: string, boys: int, girls: int)
    requires school != "" && date != "" && section in ValidSections
    ensures var s := Submission(Some(school), Some(section), Some(date),
                                Some(IntToDecimal(boys)), Some(IntToDecimal(girls)), None);
            var out := Post(t, s);
            out.0.Success? && out.0.data.boys == boys && out.0.data.girls == girls
            && out.1[(school, section, date)].boys == boys
  {
    ParsePrinted(boys);
    ParsePrinted(girls);
  }

  /** Every stored section is one of the six the single-record path admits. */
  ghost predicate SectionsValid(t: Table) {
    forall k :: k in t ==> t[k].section in ValidSections
  }

  /** The single-record path keeps the table inside the fixed set of sections. */
  lemma PostKeepsSectionsValid(t: Table, s: Submission)
    requires SectionsValid(t)
    ensures SectionsValid(Post(t, s).1)
  {
  }
}
