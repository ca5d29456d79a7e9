/** The central-office dashboard's reductions over the fetched records:
    totals by section, by raw date and by gender, the summary cards, and the
    text of the CSV export. */
module Dashboard {
  import opened Wrappers
  import opened Strings
  import opened Store
  import opened AttendanceQuery

  datatype Field = Boys | Girls

  function Count(r: Record, f: Field): int {
    match f
    case Boys => r.row.boys
    case Girls => r.row.girls
  }

  /** Reference sum of one count over a list of records. */
  function Sum(rs: seq<Record>, f: Field): int
    decreases |rs|
  {
    if |rs| == 0 then 0 else Count(rs[0], f) + Sum(rs[1..], f)
  }

  datatype Grouping = BySection | ByDate

  function GroupKey(r: Record, g: Grouping): string {
    match g
    case BySection => r.row.section
    case ByDate => r.row.date
  }

  /** The records of one group, in input order. */
  function Where(rs: seq<Record>, g: Grouping, k: string): seq<Record>
    decreases |rs|
  {
    if |rs| == 0 then []
    else if GroupKey(rs[0], g) == k then [rs[0]] + Where(rs[1..], g, k)
    else Where(rs[1..], g, k)
  }

  /** The distinct group keys occurring in the input. */
  function Keys(rs: seq<Record>, g: Grouping): set<string> {
    set i | 0 <= i < |rs| :: GroupKey(rs[i], g)
  }

  // ---------------------------------------------------------------------
  // Facts about the reference definitions
  // ---------------------------------------------------------------------

  lemma {:induction false} SumAppend(a: seq<Record>, b: seq<Record>, f: Field)
    ensures Sum(a + b, f) == Sum(a, f) + Sum(b, f)
    decreases |a|
  {
    if |a| == 0 {
      assert a + b == b;
    } else {
      assert (a + b)[1..] == a[1..] + b;
      SumAppend(a[1..], b, f);
    }
  }

  lemma {:induction false} WhereAppend(a: seq<Record>, b: seq<Record>, g: Grouping, k: string)
    ensures Where(a + b, g, k) == Where(a, g, k) + Where(b, g, k)
    decreases |a|
  {
    if |a| == 0 {
      assert a + b == b;
    } else {
      assert (a + b)[1..] == a[1..] + b;
      WhereAppend(a[1..], b, g, k);
    }
  }

  lemma {:induction false} WhereOfAbsentKey(rs: seq<Record>, g: Grouping, k: string)
    requires k !in Keys(rs, g)
    ensures Where(rs, g, k) == []
    decreases |rs|
  {
    if |rs| > 0 {
      assert Keys(rs[1..], g) <= Keys(rs, g) by {
        forall x | x in Keys(rs[1..], g) ensures x in Keys(rs, g) {
          var i :| 0 <= i < |rs[1..]| && GroupKey(rs[1..][i], g) == x;
          assert GroupKey(rs[i + 1], g) == x;
        }
      }
      assert GroupKey(rs[0], g) in Keys(rs, g);
      WhereOfAbsentKey(rs[1..], g, k);
    }
  }

  /** A record occurs in a group as often as in the input when it has the
      group's key, and never otherwise. */
  lemma {:induction false} WhereMultiplicity(rs: seq<Record>, g: Grouping, k: string, x: Record)
    ensures multiset(Where(rs, g, k))[x] == if GroupKey(x, g) == k then multiset(rs)[x] else 0
    decreases |rs|
  {
    if |rs| > 0 {
      WhereMultiplicity(rs[1..], g, k, x);
      assert rs == [rs[0]] + rs[1..];
    }
  }

  /** Taking one record out of the list takes its count out of the sum. */
  lemma SumRemove(b: seq<Record>, j: int, f: Field)
    requires 0 <= j < |b|
    ensures Sum(b, f) == Count(b[j], f) + Sum(b[..j] + b[j + 1..], f)
  {
    assert b == b[..j] + [b[j]] + b[j + 1..];
    SumAppend(b[..j] + [b[j]], b[j + 1..], f);
    SumAppend(b[..j], [b[j]], f);
    SumAppend(b[..j], b[j + 1..], f);
  }

  lemma MultisetRemove(b: seq<Record>, j: int)
    requires 0 <= j < |b|
    ensures multiset(b[..j] + b[j + 1..]) == multiset(b) - multiset{b[j]}
  {
    assert b == b[..j] + [b[j]] + b[j + 1..];
  }

  lemma PermutationTail(a: seq<Record>, b: seq<Record>, j: int)
    requires multiset(a) == multiset(b)
    requires 0 < |a| && 0 <= j < |b| && b[j] == a[0]
    ensures multiset(a[1..]) == multiset(b[..j] + b[j + 1..])
  {
    MultisetRemove(b, j);
    assert a == [a[0]] + a[1..];
    assert multiset(a[1..]) == multiset(a) - multiset{a[0]};
  }

  /** The sum does not depend on the order of the records. */
  lemma {:induction false} SumPermutation(a: seq<Record>, b: seq<Record>, f: Field)
    requires multiset(a) == multiset(b)
    ensures Sum(a, f) == Sum(b, f)
    decreases |a|
  {
    if |a| == 0 {
      assert |b| == |multiset(b)| == 0;
    } else {
      assert a[0] in multiset(a);
      assert a[0] in b;
      var j :| 0 <= j < |b| && b[j] == a[0];
      var rest := b[..j] + b[j + 1..];
      SumRemove(b, j, f);
      PermutationTail(a, b, j);
      SumPermutation(a[1..], rest, f);
    }
  }

  lemma WherePermutation(a: seq<Record>, b: seq<Record>, g: Grouping, k: string)
    requires multiset(a) == multiset(b)
    ensures multiset(Where(a, g, k)) == multiset(Where(b, g, k))
  {
    forall x ensures multiset(Where(a, g, k))[x] == multiset(Where(b, g, k))[x] {
      WhereMultiplicity(a, g, k, x);
      WhereMultiplicity(b, g, k, x);
    }
  }

  lemma KeysPermutation(a: seq<Record>, b: seq<Record>, g: Grouping)
    requires multiset(a) == multiset(b)
    ensures Keys(a, g) == Keys(b, g)
  {
    forall x | x in Keys(a, g) ensures x in Keys(b, g) {
      var i :| 0 <= i < |a| && GroupKey(a[i], g) == x;
      assert a[i] in multiset(b);
      var j :| 0 <= j < |b| && b[j] == a[i];
    }
    forall x | x in Keys(b, g) ensures x in Keys(a, g) {
      var i :| 0 <= i < |b| && GroupKey(b[i], g) == x;
      assert b[i] in multiset(a);
      var j :| 0 <= j < |a| && a[j] == b[i];
    }
  }

  // ---------------------------------------------------------------------
  // Grouping (the `forEach` that fills `sectionMap` / `dateMap`)
  // ---------------------------------------------------------------------

  datatype Totals = Totals(boys: int, girls: int, total: int)

  /** The totals a group should have: its sums, and their sum. */
  function Expected(rs: seq<Record>, g: Grouping, k: string): Totals {
    var boys := Sum(Where(rs, g, k), Boys);
    var girls := Sum(Where(rs, g, k), Girls);
    Totals(boys, girls, boys + girls)
  }

  /** One step of the loop: create the entry at zero if missing, then add
      the record's counts. */
  function Tally(m: map<string, Totals>, k: string, r: Record): map<string, Totals> {
    var cur := if k in m then m[k] else Totals(0, 0, 0);
    m[k := Totals(cur.boys + r.row.boys, cur.girls + r.row.girls, cur.total + r.row.boys + r.row.girls)]
  }

  lemma KeysSnoc(init: seq<Record>, last: Record, g: Grouping)
    ensures Keys(init + [last], g) == Keys(init, g) + {GroupKey(last, g)}
  {
    var rs := init + [last];
    forall x | x in Keys(rs, g) ensures x in Keys(init, g) + {GroupKey(last, g)} {
      var i :| 0 <= i < |rs| && GroupKey(rs[i], g) == x;
      if i < |init| { assert rs[i] == init[i]; }
    }
    forall x | x in Keys(init, g) ensures x in Keys(rs, g) {
      var i :| 0 <= i < |init| && GroupKey(init[i], g) == x;
      assert rs[i] == init[i];
    }
    assert rs[|init|] == last;
  }

  /** Appending a record adds its counts to its own group only. */
  lemma ExpectedSnoc(init: seq<Record>, last: Record, g: Grouping, k: string)
    ensures var e, e' := Expected(init, g, k), Expected(init + [last], g, k);
            if GroupKey(last, g) == k
            then e' == Totals(e.boys + last.row.boys, e.girls + last.row.girls, e.total + last.row.boys + last.row.girls)
            else e' == e
  {
    WhereAppend(init, [last], g, k);
    SumAppend(Where(init, g, k), Where([last], g, k), Boys);
    SumAppend(Where(init, g, k), Where([last], g, k), Girls);
  }

  /** The map the loop builds, visiting the records front to back. */
  function GroupTotals(rs: seq<Record>, g: Grouping): (m: map<string, Totals>)
    ensures m.Keys == Keys(rs, g)
    ensures forall k :: k in m ==> m[k] == Expected(rs, g, k)
    decreases |rs|
  {
    if |rs| == 0 then map[]
    else
      var init := rs[..|rs| - 1];
      var last := rs[|rs| - 1];
      var m := GroupTotals(init, g);
      var m' := Tally(m, GroupKey(last, g), last);
      assert rs == init + [last];
      KeysSnoc(init, last, g);
      forall k | k in m'
        ensures m'[k] == Expected(rs, g, k)
      {
        ExpectedSnoc(init, last, g, k);
        if k == GroupKey(last, g) && k !in m {
          WhereOfAbsentKey(init, g, k);
        }
      }
      m'
  }

  // ---------------------------------------------------------------------
  // getSectionData
  // ---------------------------------------------------------------------

  predicate Ascending(ks: seq<string>) {
    forall i, j :: 0 <= i < j < |ks| ==> Less(ks[i], ks[j])
  }

  function InsertKey(ks: seq<string>, k: string): (r: seq<string>)
    requires Ascending(ks)
    ensures Ascending(r)
    ensures forall x :: x in r <==> x in ks || x == k
    decreases |ks|
  {
    if |ks| == 0 then [k]
    else if k == ks[0] then ks
    else if Less(k, ks[0]) then
      assert forall j :: 0 < j < |ks| ==> Less(k, ks[j]) by {
        forall j | 0 < j < |ks| ensures Less(k, ks[j]) { LessTransitive(k, ks[0], ks[j]); }
      }
      [k] + ks
    else
      NotAtMost(k, ks[0]);
      var rest := InsertKey(ks[1..], k);
      assert forall x :: x in rest ==> Less(ks[0], x);
      [ks[0]] + rest
  }

  /** The distinct sections in ascending order: the order the source's sort
      by `localeCompare` gives for the sections in use. */
  function SortedKeys(rs: seq<Record>, g: Grouping): (ks: seq<string>)
    ensures Ascending(ks)
    ensures forall x :: x in ks <==> x in Keys(rs, g)
    decreases |rs|
  {
    if |rs| == 0 then []
    else
      var init := rs[..|rs| - 1];
      var ks := InsertKey(SortedKeys(init, g), GroupKey(rs[|rs| - 1], g));
      assert forall x :: x in Keys(rs, g) <==> x in Keys(init, g) || x == GroupKey(rs[|rs| - 1], g) by {
        forall x | x in Keys(rs, g) ensures x in Keys(init, g) || x == GroupKey(rs[|rs| - 1], g) {
          var i :| 0 <= i < |rs| && GroupKey(rs[i], g) == x;
          if i < |init| { assert rs[i] == init[i]; }
        }
        forall x | x in Keys(init, g) ensures x in Keys(rs, g) {
          var i :| 0 <= i < |init| && GroupKey(init[i], g) == x;
          assert rs[i] == init[i];
        }
      }
      ks
  }

  /** The first element, or "" for an empty list. Being total, it lets a
      proof split on emptiness without an index check in a case that turns
      out to be impossible. */
  function Head(ys: seq<string>): string {
    if |ys| > 0 then ys[0] else ""
  }

  /** Two ascending lists with the same elements are the same list. */
  lemma {:induction false} AscendingUnique(xs: seq<string>, ys: seq<string>)
    requires Ascending(xs) && Ascending(ys)
    requires forall x :: x in xs <==> x in ys
    ensures xs == ys
    decreases |xs|
  {
    if |xs| == 0 {
      assert |ys| == 0 || Head(ys) in xs;
    } else {
      assert |ys| > 0 by { assert xs[0] in ys; }
      assert xs[0] in ys && ys[0] in xs;
      var i :| 0 <= i < |ys| && ys[i] == xs[0];
      var j :| 0 <= j < |xs| && xs[j] == ys[0];
      assert i == 0 || Less(ys[0], xs[0]);
      assert j == 0 || Less(xs[0], ys[0]);
      LessAsymmetric(xs[0], ys[0]);
      forall x ensures x in xs[1..] <==> x in ys[1..] {
        if x in xs[1..] {
          var i :| 0 <= i < |xs[1..]| && xs[1..][i] == x;
          assert Less(xs[0], x);
          LessIrreflexive(x);
          assert x in ys;
        }
        if x in ys[1..] {
          var i :| 0 <= i < |ys[1..]| && ys[1..][i] == x;
          assert Less(ys[0], x);
          LessIrreflexive(x);
          assert x in xs;
        }
      }
      AscendingUnique(xs[1..], ys[1..]);
      assert xs == [xs[0]] + xs[1..] && ys == [ys[0]] + ys[1..];
    }
  }

  datatype SectionPoint = SectionPoint(section: string, boys: int, girls: int, total: int)

  function SectionsOf(ps: seq<SectionPoint>): seq<string> {
    seq(|ps|, i requires 0 <= i < |ps| => ps[i].section)
  }

  /** One entry per section present, in ascending section order, each with
      the sums of its records: the summary a string-keyed `Map` would give. */
  function SectionSummary(rs: seq<Record>): (ps: seq<SectionPoint>)
    ensures Ascending(SectionsOf(ps))
    ensures forall s :: s in SectionsOf(ps) <==> s in Keys(rs, BySection)
    ensures forall i :: 0 <= i < |ps| ==>
              Totals(ps[i].boys, ps[i].girls, ps[i].total) == Expected(rs, BySection, ps[i].section)
  {
    var m := GroupTotals(rs, BySection);
    var ks := SortedKeys(rs, BySection);
    var ps := seq(|ks|, i requires 0 <= i < |ks| => SectionPoint(ks[i], m[ks[i]].boys, m[ks[i]].girls, m[ks[i]].total));
    assert SectionsOf(ps) == ks;
    ps
  }

  /** The names a plain object inherits from `Object.prototype`. Looking one
      of them up in `sectionMap` finds the inherited member, which is truthy,
      so no entry is created, the `+=` lands on the built-in, and
      `Object.entries` lists only own entries. */
  const ObjectMembers: set<string> :=
    {"constructor", "hasOwnProperty", "isPrototypeOf", "propertyIsEnumerable",
     "toLocaleString", "toString", "valueOf", "__proto__",
     "__defineGetter__", "__defineSetter__", "__lookupGetter__", "__lookupSetter__"}

  /** The records that get an own entry in `sectionMap`. */
  function Own(rs: seq<Record>): seq<Record>
    decreases |rs|
  {
    if |rs| == 0 then []
    else if rs[0].row.section in ObjectMembers then Own(rs[1..])
    else [rs[0]] + Own(rs[1..])
  }

  lemma {:induction false} InOwn(rs: seq<Record>, x: Record)
    ensures x in Own(rs) <==> x in rs && x.row.section !in ObjectMembers
    decreases |rs|
  {
    if |rs| > 0 {
      InOwn(rs[1..], x);
      assert rs == [rs[0]] + rs[1..];
    }
  }

  lemma KeysOwn(rs: seq<Record>)
    ensures forall s :: s in Keys(Own(rs), BySection) <==> s in Keys(rs, BySection) && s !in ObjectMembers
  {
    var own := Own(rs);
    forall s | s in Keys(own, BySection)
      ensures s in Keys(rs, BySection) && s !in ObjectMembers
    {
      var i :| 0 <= i < |own| && GroupKey(own[i], BySection) == s;
      InOwn(rs, own[i]);
      var j :| 0 <= j < |rs| && rs[j] == own[i];
    }
    forall s | s in Keys(rs, BySection) && s !in ObjectMembers
      ensures s in Keys(own, BySection)
    {
      var j :| 0 <= j < |rs| && GroupKey(rs[j], BySection) == s;
      InOwn(rs, rs[j]);
      var i :| 0 <= i < |own| && own[i] == rs[j];
    }
  }

  lemma {:induction false} WhereOwn(rs: seq<Record>, k: string)
    requires k !in ObjectMembers
    ensures Where(Own(rs), BySection, k) == Where(rs, BySection, k)
    decreases |rs|
  {
    if |rs| > 0 {
      WhereOwn(rs[1..], k);
      if rs[0].row.section !in ObjectMembers {
        assert ([rs[0]] + Own(rs[1..]))[1..] == Own(rs[1..]);
      }
    }
  }

  lemma {:induction false} OwnOfOwnSections(rs: seq<Record>)
    requires forall i :: 0 <= i < |rs| ==> rs[i].row.section !in ObjectMembers
    ensures Own(rs) == rs
    decreases |rs|
  {
    if |rs| > 0 {
      OwnOfOwnSections(rs[1..]);
      assert rs == [rs[0]] + rs[1..];
    }
  }

  /** `getSectionData` as written: one entry per section present that is not
      an inherited object member, in ascending section order, each with the
      sums of its records. */
  function SectionData(rs: seq<Record>): (ps: seq<SectionPoint>)
    ensures Ascending(SectionsOf(ps))
    ensures forall s :: s in SectionsOf(ps) <==> s in Keys(rs, BySection) && s !in ObjectMembers
    ensures forall i :: 0 <= i < |ps| ==>
              Totals(ps[i].boys, ps[i].girls, ps[i].total) == Expected(rs, BySection, ps[i].section)
  {
    var ps := SectionSummary(Own(rs));
    KeysOwn(rs);
    forall i | 0 <= i < |ps|
      ensures Expected(Own(rs), BySection, ps[i].section) == Expected(rs, BySection, ps[i].section)
    {
      assert SectionsOf(ps)[i] == ps[i].section;
      WhereOwn(rs, ps[i].section);
    }
    ps
  }

  /** Reordering the records leaves the section summary unchanged. */
  lemma {:induction false} SectionDataPermutation(a: seq<Record>, b: seq<Record>)
    requires multiset(a) == multiset(b)
    ensures SectionData(a) == SectionData(b)
  {
    var pa, pb := SectionData(a), SectionData(b);
    KeysPermutation(a, b, BySection);
    AscendingUnique(SectionsOf(pa), SectionsOf(pb));
    assert |pa| == |SectionsOf(pa)| == |SectionsOf(pb)| == |pb|;
    forall i | 0 <= i < |pa| ensures pa[i] == pb[i] {
      assert SectionsOf(pa)[i] == SectionsOf(pb)[i];
      var k := pa[i].section;
      WherePermutation(a, b, BySection, k);
      SumPermutation(Where(a, BySection, k), Where(b, BySection, k), Boys);
      SumPermutation(Where(a, BySection, k), Where(b, BySection, k), Girls);
    }
  }

  // ---------------------------------------------------------------------
  // getDateTrendData, without its label formatting and ordering
  // ---------------------------------------------------------------------

  /** Per raw date: the summed counts, and their sum as the total. */
  function DateTrend(rs: seq<Record>): (m: map<string, Totals>)
    ensures m.Keys == Keys(rs, ByDate)
    ensures forall d :: d in m ==> m[d] == Expected(rs, ByDate, d)
  {
    var dm := GroupTotals(rs, ByDate);
    map d | d in dm :: Totals(dm[d].boys, dm[d].girls, dm[d].boys + dm[d].girls)
  }

  lemma {:induction false} DateTrendPermutation(a: seq<Record>, b: seq<Record>)
    requires multiset(a) == multiset(b)
    ensures DateTrend(a) == DateTrend(b)
  {
    KeysPermutation(a, b, ByDate);
    forall d | d in DateTrend(a) ensures DateTrend(a)[d] == DateTrend(b)[d] {
      WherePermutation(a, b, ByDate, d);
      SumPermutation(Where(a, ByDate, d), Where(b, ByDate, d), Boys);
      SumPermutation(Where(a, ByDate, d), Where(b, ByDate, d), Girls);
    }
  }

  // ---------------------------------------------------------------------
  // getGenderData and the summary cards
  // ---------------------------------------------------------------------

  datatype GenderTotals = GenderTotals(boys: int, girls: int)

  /** The two running totals of the `forEach`. */
  method GenderData(rs: seq<Record>) returns (g: GenderTotals)
    ensures g.boys == Sum(rs, Boys) && g.girls == Sum(rs, Girls)
  {
    var totalBoys, totalGirls := 0, 0;
    for i := 0 to |rs|
      invariant totalBoys == Sum(rs[..i], Boys)
      invariant totalGirls == Sum(rs[..i], Girls)
    {
      SumAppend(rs[..i], [rs[i]], Boys);
      SumAppend(rs[..i], [rs[i]], Girls);
      assert rs[..i + 1] == rs[..i] + [rs[i]];
      totalBoys := totalBoys + rs[i].row.boys;
      totalGirls := totalGirls + rs[i].row.girls;
    }
    assert rs[..|rs|] == rs;
    g := GenderTotals(totalBoys, totalGirls);
  }

  /** `reduce((sum, r) => sum + r.<count>, acc)`. */
  function Reduce(rs: seq<Record>, f: Field, acc: int): (r: int)
    ensures r == acc + Sum(rs, f)
    decreases |rs|
  {
    if |rs| == 0 then acc else Reduce(rs[1..], f, acc + Count(rs[0], f))
  }

  /** The "Total Boys" / "Total Girls" cards. */
  function CardTotal(rs: seq<Record>, f: Field): (r: int)
    ensures r == Sum(rs, f)
  {
    Reduce(rs, f, 0)
  }

  // ---------------------------------------------------------------------
  // The section entries add up to the overall totals
  // ---------------------------------------------------------------------

  function PointCount(p: SectionPoint, f: Field): int {
    match f
    case Boys => p.boys
    case Girls => p.girls
  }

  function SumPoints(ps: seq<SectionPoint>, f: Field): int
    decreases |ps|
  {
    if |ps| == 0 then 0 else PointCount(ps[0], f) + SumPoints(ps[1..], f)
  }

  /** The group sums over a list of keys. */
  function KeySums(ks: seq<string>, rs: seq<Record>, g: Grouping, f: Field): int
    decreases |ks|
  {
    if |ks| == 0 then 0 else Sum(Where(rs, g, ks[0]), f) + KeySums(ks[1..], rs, g, f)
  }

  /** `v` for every position of `ks` holding `s`. */
  function Hits(ks: seq<string>, s: string, v: int): int
    decreases |ks|
  {
    if |ks| == 0 then 0 else (if ks[0] == s then v else 0) + Hits(ks[1..], s, v)
  }

  lemma {:induction false} HitsOnce(ks: seq<string>, s: string, v: int)
    requires Ascending(ks)
    ensures Hits(ks, s, v) == if s in ks then v else 0
    decreases |ks|
  {
    if |ks| > 0 {
      HitsOnce(ks[1..], s, v);
      if ks[0] == s {
        assert s !in ks[1..] by {
          forall j | 0 <= j < |ks[1..]| ensures ks[1..][j] != s {
            assert Less(ks[0], ks[j + 1]);
            LessIrreflexive(s);
          }
        }
      }
    }
  }

  lemma {:induction false} KeySumsEmpty(ks: seq<string>, g: Grouping, f: Field)
    ensures KeySums(ks, [], g, f) == 0
    decreases |ks|
  {
    if |ks| > 0 { KeySumsEmpty(ks[1..], g, f); }
  }

  lemma {:induction false} KeySumsCons(ks: seq<string>, x: Record, rest: seq<Record>, g: Grouping, f: Field)
    ensures KeySums(ks, [x] + rest, g, f) == Hits(ks, GroupKey(x, g), Count(x, f)) + KeySums(ks, rest, g, f)
    decreases |ks|
  {
    if |ks| > 0 {
      KeySumsCons(ks[1..], x, rest, g, f);
      assert ([x] + rest)[1..] == rest;
    }
  }

  /** Summing every group of a key list that covers each key once gives the overall sum. */
  lemma {:induction false} KeySumsCover(ks: seq<string>, rs: seq<Record>, g: Grouping, f: Field)
    requires Ascending(ks)
    requires forall x :: x in Keys(rs, g) ==> x in ks
    ensures KeySums(ks, rs, g, f) == Sum(rs, f)
    decreases |rs|
  {
    if |rs| == 0 {
      KeySumsEmpty(ks, g, f);
    } else {
      var rest := rs[1..];
      assert forall x :: x in Keys(rest, g) ==> x in Keys(rs, g) by {
        forall x | x in Keys(rest, g) ensures x in Keys(rs, g) {
          var i :| 0 <= i < |rest| && GroupKey(rest[i], g) == x;
          assert rs[i + 1] == rest[i];
        }
      }
      KeySumsCover(ks, rest, g, f);
      assert rs == [rs[0]] + rest;
      KeySumsCons(ks, rs[0], rest, g, f);
      assert GroupKey(rs[0], g) in Keys(rs, g);
      HitsOnce(ks, GroupKey(rs[0], g), Count(rs[0], f));
    }
  }

  lemma {:induction false} SumPointsIsKeySums(ps: seq<SectionPoint>, rs: seq<Record>, f: Field)
    requires forall i :: 0 <= i < |ps| ==>
               Totals(ps[i].boys, ps[i].girls, ps[i].total) == Expected(rs, BySection, ps[i].section)
    ensures SumPoints(ps, f) == KeySums(SectionsOf(ps), rs, BySection, f)
    decreases |ps|
  {
    if |ps| > 0 {
      SumPointsIsKeySums(ps[1..], rs, f);
      assert SectionsOf(ps)[1..] == SectionsOf(ps[1..]);
    }
  }

  /** With a string-keyed `Map` the section entries' boys (girls) would add
      up to the gender total and to the card: the three figures agree. */
  lemma {:induction false} SectionTotalsAgree(rs: seq<Record>, f: Field)
    ensures SumPoints(SectionSummary(rs), f) == Sum(rs, f) == CardTotal(rs, f)
  {
    var ps := SectionSummary(rs);
    SumPointsIsKeySums(ps, rs, f);
    KeySumsCover(SectionsOf(ps), rs, BySection, f);
  }

  /** As written, the section entries add up to the records with an own
      entry only; they match the cards when no section names an inherited
      object member, which holds for the six sections. */
  lemma SectionDataTotals(rs: seq<Record>, f: Field)
    ensures SumPoints(SectionData(rs), f) == Sum(Own(rs), f)
    ensures (forall i :: 0 <= i < |rs| ==> rs[i].row.section !in ObjectMembers)
            ==> SumPoints(SectionData(rs), f) == CardTotal(rs, f)
  {
    SectionTotalsAgree(Own(rs), f);
    if forall i :: 0 <= i < |rs| ==> rs[i].row.section !in ObjectMembers {
      OwnOfOwnSections(rs);
    }
  }

  /** A record filed under `toString` is missing from the section summary
      while the cards count it. */
  lemma PrototypeSectionDropped()
    ensures var r := Record(Row("S1", "toString", "2024-03-01", 5, 6, None), None);
            && SectionData([r]) == []
            && CardTotal([r], Boys) == 5 && CardTotal([r], Girls) == 6
  {
    var r := Record(Row("S1", "toString", "2024-03-01", 5, 6, None), None);
    var ps := SectionData([r]);
    assert Keys([r], BySection) == {"toString"};
    assert |ps| == 0 || Head(SectionsOf(ps)) in SectionsOf(ps);
  }

  /** Gender and card totals do not depend on record order either. */
  lemma TotalsPermutation(a: seq<Record>, b: seq<Record>, f: Field)
    requires multiset(a) == multiset(b)
    ensures CardTotal(a, f) == CardTotal(b, f)
  {
    SumPermutation(a, b, f);
  }

  /** No records: no sections, no dates, zero totals. */
  lemma EmptyInput(f: Field)
    ensures SectionData([]) == [] && DateTrend([]) == map[] && CardTotal([], f) == 0
  {
    assert |SectionsOf(SectionData([]))| == 0;
  }

  // ---------------------------------------------------------------------
  // exportToCSV: the text handed to the download
  // ---------------------------------------------------------------------

  const Headers: seq<string> := ["Date", "School", "Section", "Boys Present", "Girls Present", "Total"]

  /** `record.schools?.name || 'Unknown'`. */
  function SchoolLabel(r: Record): (shown: string)
    ensures r.schoolName.None? || r.schoolName == Some("") ==> shown == "Unknown"
    ensures r.schoolName.Some? && r.schoolName.value != "" ==> Some(shown) == r.schoolName
  {
    if r.schoolName.Some? && r.schoolName.value != "" then r.schoolName.value else "Unknown"
  }

  function CsvFields(r: Record): seq<string> {
    [r.row.date, SchoolLabel(r), r.row.section,
     IntToDecimal(r.row.boys), IntToDecimal(r.row.girls), IntToDecimal(r.row.boys + r.row.girls)]
  }

  /** `rows.map((row) => row.join(','))`. */
  function RowLines(rs: seq<Record>): (ls: seq<string>)
    ensures |ls| == |rs|
    ensures forall i :: 0 <= i < |rs| ==> ls[i] == CsvLine(rs[i])
    decreases |rs|
  {
    if |rs| == 0 then [] else [CsvLine(rs[0])] + RowLines(rs[1..])
  }

  function CsvLines(rs: seq<Record>): seq<string> {
    [Join(Headers, ',')] + RowLines(rs)
  }

  /** The CSV text; no records means no export at all. */
  function Csv(rs: seq<Record>): Option<string> {
    if |rs| == 0 then None else Some(Join(CsvLines(rs), '\n'))
  }

  /** Holds neither separator. */
  predicate Plain(s: string) {
    ',' !in s && '\n' !in s
  }

  /** The text columns of a record hold no separator. */
  predicate PlainText(r: Record) {
    Plain(r.row.date) && Plain(SchoolLabel(r)) && Plain(r.row.section)
  }

  lemma DecimalIsPlain(n: int)
    ensures Plain(IntToDecimal(n))
  {
  }

  /** One record's line splits back into its six fields; it holds no newline. */
  lemma CsvLineRoundTrip(r: Record)
    requires PlainText(r)
    ensures Split(CsvLine(r), ',') == CsvFields(r)
    ensures '\n' !in CsvLine(r)
    ensures ParseInt(CsvFields(r)[5]) == Some(r.row.boys + r.row.girls)
  {
    var fs := CsvFields(r);
    DecimalIsPlain(r.row.boys);
    DecimalIsPlain(r.row.girls);
    DecimalIsPlain(r.row.boys + r.row.girls);
    assert forall j :: 0 <= j < |fs| ==> Plain(fs[j]);
    SplitJoin(fs, ',');
    JoinAvoids(fs, ',', '\n');
    ParsePrinted(r.row.boys + r.row.girls);
  }

  lemma HeaderRoundTrip()
    ensures Split(Join(Headers, ','), ',') == Headers
    ensures '\n' !in Join(Headers, ',')
  {
    assert forall j :: 0 <= j < |Headers| ==> Plain(Headers[j]);
    SplitJoin(Headers, ',');
    JoinAvoids(Headers, ',', '\n');
  }

  function CsvLine(r: Record): string {
    Join(CsvFields(r), ',')
  }

  /** Every line of the export splits back into its fields and holds no newline. */
  lemma CsvLinesRoundTrip(rs: seq<Record>)
    requires forall i :: 0 <= i < |rs| ==> PlainText(rs[i])
    ensures forall j :: 0 <= j < |CsvLines(rs)| ==> '\n' !in CsvLines(rs)[j]
    ensures Split(CsvLines(rs)[0], ',') == Headers
    ensures forall i :: 0 <= i < |rs| ==>
              && Split(CsvLines(rs)[i + 1], ',') == CsvFields(rs[i])
              && ParseInt(CsvFields(rs[i])[5]) == Some(rs[i].row.boys + rs[i].row.girls)
  {
    HeaderRoundTrip();
    forall i | 0 <= i < |rs|
      ensures '\n' !in CsvLine(rs[i]) && Split(CsvLine(rs[i]), ',') == CsvFields(rs[i])
      ensures ParseInt(CsvFields(rs[i])[5]) == Some(rs[i].row.boys + rs[i].row.girls)
    {
      CsvLineRoundTrip(rs[i]);
    }
  }

  /** Splitting the export at newlines and then at commas recovers the header
      and one six-field row per record, in input order, provided the text
      columns hold no separator; the last field reads back as boys + girls. */
  lemma CsvRoundTrip(rs: seq<Record>)
    requires forall i :: 0 <= i < |rs| ==> PlainText(rs[i])
    ensures (Csv(rs) == None) <==> |rs| == 0
    ensures |rs| > 0 ==>
              var lines := Split(Csv(rs).value, '\n');
              && |lines| == |rs| + 1
              && Split(lines[0], ',') == Headers
              && forall i :: 0 <= i < |rs| ==>
                   && Split(lines[i + 1], ',') == CsvFields(rs[i])
                   && ParseInt(Split(lines[i + 1], ',')[5]) == Some(rs[i].row.boys + rs[i].row.girls)
  {
    if |rs| > 0 {
      CsvLinesRoundTrip(rs);
      SplitJoin(CsvLines(rs), '\n');
      assert Split(Csv(rs).value, '\n') == CsvLines(rs);
    }
  }
}
