/** The student dashboard's statistics: overall and per-subject totals, present and absent
    counts and an integer attendance percentage, over the student's attendance rows. */
module AttendanceStats {

  /** The columns of an attendance row that the statistics read. */
  datatype Att = Att(subject: string, status: string)

  /** The figures shown for a set of rows. */
  datatype Summary = Summary(total: nat, present: nat, absent: nat, percentage: nat)

  predicate IsPresent(a: Att)
  {
    a.status == "Present"
  }

  /** `len([a for a in atts if a.status == 'Present'])`. */
  function PresentCount(atts: seq<Att>): nat
  {
    if atts == [] then 0
    else PresentCount(atts[..|atts| - 1]) + (if IsPresent(atts[|atts| - 1]) then 1 else 0)
  }

  /** `len([a for a in atts if a.status != 'Present'])`. */
  function AbsentCount(atts: seq<Att>): nat
  {
    if atts == [] then 0
    else AbsentCount(atts[..|atts| - 1]) + (if IsPresent(atts[|atts| - 1]) then 0 else 1)
  }

  /** The rows of one subject, in order. */
  function OfSubject(atts: seq<Att>, subject: string): seq<Att>
  {
    if atts == [] then []
    else
      var last := atts[|atts| - 1];
      OfSubject(atts[..|atts| - 1], subject) + (if last.subject == subject then [last] else [])
  }

  /** `int(present / total * 100) if total > 0 else 0`, taken as the floor of the exact
      quotient. */
  function Percent(present: nat, total: nat): (p: nat)
    requires present <= total
    ensures total == 0 ==> p == 0
    ensures total > 0 ==> p * total <= 100 * present < (p + 1) * total
    ensures p <= 100
    ensures total > 0 && present == total ==> p == 100
  {
    if total > 0 then
      MulMono(present, total, 100);
      DivBounds(100 * present, total, 100);
      (100 * present) / total
    else 0
  }

  /** The floor quotient `n / d` brackets `n`, and stays within `k` when `n <= k * d`. */
  lemma DivBounds(n: nat, d: nat, k: nat)
    requires d > 0
    ensures (n / d) * d <= n < (n / d + 1) * d
    ensures n <= k * d ==> n / d <= k
    ensures n == k * d ==> n / d == k
  {
    var q, r := n / d, n % d;
    assert n == q * d + r && 0 <= r < d;
    assert (q + 1) * d == q * d + d;
    if n <= k * d && q > k {
      assert q >= k + 1;
      MulMono(k + 1, q, d);
    }
    if n == k * d && q < k {
      MulMono(q + 1, k, d);
    }
  }

  lemma MulMono(a: nat, b: nat, d: nat)
    requires a <= b
    ensures a * d <= b * d
  {
  }

  /** Every row is either present or absent. */
  lemma {:induction false} PresentAbsentTotal(atts: seq<Att>)
    ensures PresentCount(atts) + AbsentCount(atts) == |atts|
  {
    if atts != [] {
      PresentAbsentTotal(atts[..|atts| - 1]);
    }
  }

  /** The figures for a set of rows. */
  function Summarize(atts: seq<Att>): (s: Summary)
    ensures s.total == |atts| && s.present + s.absent == s.total && s.percentage <= 100
    ensures s.present == PresentCount(atts) && s.absent == AbsentCount(atts)
    ensures s.total > 0 ==> s.percentage * s.total <= 100 * s.present < (s.percentage + 1) * s.total
  {
    PresentAbsentTotal(atts);
    var p := PresentCount(atts);
    Summary(|atts|, p, AbsentCount(atts), Percent(p, |atts|))
  }

  /** The counts of a set of rows before the percentage is filled in. */
  function Tally(rows: seq<Att>): Summary
  {
    Summary(|rows|, PresentCount(rows), AbsentCount(rows), 0)
  }

  /** The subjects that occur in the rows. */
  function Subjects(atts: seq<Att>): set<string>
  {
    set a | a in atts :: a.subject
  }

  lemma SubjectsStep(atts: seq<Att>, i: nat)
    requires i < |atts|
    ensures Subjects(atts[..i + 1]) == Subjects(atts[..i]) + {atts[i].subject}
  {
    assert atts[..i + 1] == atts[..i] + [atts[i]];
  }

  /** The rows of a subject are exactly the rows that carry it. */
  lemma {:induction false} OfSubjectMembers(atts: seq<Att>, subject: string)
    ensures forall a :: a in OfSubject(atts, subject) <==> a in atts && a.subject == subject
  {
    if atts != [] {
      OfSubjectMembers(atts[..|atts| - 1], subject);
      assert atts == atts[..|atts| - 1] + [atts[|atts| - 1]];
    }
  }

  /** One more row counted into a subject's figures. */
  function Bump(t: Summary, a: Att): Summary
  {
    if IsPresent(a) then t.(total := t.total + 1, present := t.present + 1)
    else t.(total := t.total + 1, absent := t.absent + 1)
  }

  /** One more row adds one to its own subject's total and to exactly one of that subject's
      counts, and leaves the other subjects alone. */
  lemma TallyStep(atts: seq<Att>, i: nat, s: string)
    requires i < |atts|
    ensures var t := Tally(OfSubject(atts[..i], s));
      Tally(OfSubject(atts[..i + 1], s)) == if atts[i].subject == s then Bump(t, atts[i]) else t
  {
    assert atts[..i + 1][..i] == atts[..i];
    var r := OfSubject(atts[..i + 1], s);
    var p := OfSubject(atts[..i], s);
    if atts[i].subject == s {
      assert r == p + [atts[i]];
      assert r[..|r| - 1] == p;
    } else {
      assert r == p;
    }
  }

  /** `m` holds, for every subject of `rows` and no other, the counts of that subject. */
  ghost predicate Tallied(m: map<string, Summary>, rows: seq<Att>)
  {
    m.Keys == Subjects(rows) && forall s :: s in m ==> m[s] == Tally(OfSubject(rows, s))
  }

  /** A subject that has not occurred yet has zero counts. */
  lemma AbsentSubject(rows: seq<Att>, s: string)
    requires s !in Subjects(rows)
    ensures Tally(OfSubject(rows, s)) == Summary(0, 0, 0, 0)
  {
    OfSubjectMembers(rows, s);
  }

  /** Counting row `i` into its subject's entry, created with zero counts when missing,
      keeps the map in step with the rows. */
  lemma TalliedStep(m: map<string, Summary>, atts: seq<Att>, i: nat)
    requires i < |atts| && Tallied(m, atts[..i])
    ensures var a := atts[i];
      var t := if a.subject in m then m[a.subject] else Summary(0, 0, 0, 0);
      Tallied(m[a.subject := Bump(t, a)], atts[..i + 1])
  {
    var a := atts[i];
    SubjectsStep(atts, i);
    if a.subject !in m {
      AbsentSubject(atts[..i], a.subject);
    }
    var m' := m[a.subject := Bump(if a.subject in m then m[a.subject] else Summary(0, 0, 0, 0), a)];
    forall s | s in m'
      ensures m'[s] == Tally(OfSubject(atts[..i + 1], s))
    {
      TallyStep(atts, i, s);
    }
  }

  /** One row counted into the map, as the body of the counting loop does it. */
  method CountRow(bySubject: map<string, Summary>, att: Att) returns (m: map<string, Summary>)
    ensures m == bySubject[att.subject := Bump(if att.subject in bySubject then bySubject[att.subject] else Summary(0, 0, 0, 0), att)]
  {
    m := bySubject;
    if att.subject !in m {
      m := m[att.subject := Summary(0, 0, 0, 0)];
    }
    var data := m[att.subject];
    if IsPresent(att) {
      data := data.(total := data.total + 1, present := data.present + 1);
    } else {
      data := data.(total := data.total + 1, absent := data.absent + 1);
    }
    m := m[att.subject := data];
  }

  /** The counting loop of `student_dashboard`: every row is counted into its subject's entry,
      which is created with zero counts on the subject's first row. */
  method TallyBySubject(atts: seq<Att>) returns (bySubject: map<string, Summary>)
    ensures Tallied(bySubject, atts)
  {
    bySubject := map[];
    var i := 0;
    assert Subjects(atts[..0]) == {};
    while i < |atts|
      invariant 0 <= i <= |atts|
      invariant Tallied(bySubject, atts[..i])
    {
      ghost var before := bySubject;
      bySubject := CountRow(bySubject, atts[i]);
      TalliedStep(before, atts, i);
      i := i + 1;
    }
    assert atts[..i] == atts;
  }

  /** `student_dashboard`'s figures: the overall summary, and per subject the summary of that
      subject's rows, with one entry for every subject that occurs. */
  method StudentStats(atts: seq<Att>) returns (overall: Summary, bySubject: map<string, Summary>)
    ensures overall == Summarize(atts)
    ensures bySubject.Keys == Subjects(atts)
    ensures forall s :: s in bySubject ==> bySubject[s] == Summarize(OfSubject(atts, s))
  {
    bySubject := TallyBySubject(atts);
    var todo := bySubject.Keys;
    while todo != {}
      invariant todo <= bySubject.Keys == Subjects(atts)
      invariant forall s :: s in bySubject && s !in todo ==> bySubject[s] == Summarize(OfSubject(atts, s))
      invariant forall s :: s in todo ==> bySubject[s] == Tally(OfSubject(atts, s))
      decreases todo
    {
      var s :| s in todo;
      var data := bySubject[s];
      PresentAbsentTotal(OfSubject(atts, s));
      data := data.(percentage := Percent(data.present, data.total));
      bySubject := bySubject[s := data];
      todo := todo - {s};
    }
    overall := Summarize(atts);
  }
}
