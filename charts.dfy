/** The chart-data builder (`build_figures`) and the class summary: the numeric series
    handed to the chart renderer, computed from the students dictionary and the subjects. */
module Charts {
  import opened Text
  import opened Grading
  import opened Normalizer

  /** What the builder may rely on: the dictionary and subjects the normaliser returns. */
  ghost predicate Consistent(students: Roster, subjects: seq<string>)
  {
    students.Valid() && Sorted(subjects) && AllFit(students, subjects)
  }

  /** The six outputs of `build_figures`, reduced to the data series they carry.
      `NoFigures` stands for every chart being `{"data": [], "layout": {}}` and
      `per_student_att` being `[]`. */
  datatype Figures =
    | NoFigures
    | Figures(
        names: seq<string>,                           // x axis of the SGPA bar chart
        sgpas: seq<real>,                             // y axis of the SGPA bar chart
        gradeCounts: map<Grade, nat>,                 // the grade pie
        avgAttendance: seq<Reading>,                  // x axis of the attendance/SGPA scatter
        heatmap: seq<seq<real>>,                      // subjects x students
        stacks: seq<seq<real>>,                       // one bar series per subject
        perStudent: seq<(string, seq<Reading>)>)      // attendance by subject, per student

  /** `[students[n]["sgpa"] for n in names]` */
  function Sgpas(students: Roster): (r: seq<real>)
    requires students.Valid()
    ensures |r| == |students.names|
    ensures forall j :: 0 <= j < |r| ==> r[j] == students.records[students.names[j]].sgpa
    ensures forall k :: k in students.records ==> students.records[k].sgpa in r
  {
    var r := seq(|students.names|, j requires 0 <= j < |students.names| => students.records[students.names[j]].sgpa);
    assert forall k :: k in students.records ==> students.records[k].sgpa in r by {
      forall k | k in students.records ensures students.records[k].sgpa in r {
        var j :| 0 <= j < |students.names| && students.names[j] == k;
        assert r[j] == students.records[k].sgpa;
      }
    }
    r
  }

  /** `[students[n]["grade"] for n in names]` */
  function Grades(students: Roster): (r: seq<Grade>)
    requires students.Valid()
    ensures |r| == |students.names|
    ensures forall j :: 0 <= j < |r| ==> r[j] == students.records[students.names[j]].grade
    ensures forall k :: k in students.records ==> students.records[k].grade in r
  {
    var r := seq(|students.names|, j requires 0 <= j < |students.names| => students.records[students.names[j]].grade);
    assert forall k :: k in students.records ==> students.records[k].grade in r by {
      forall k | k in students.records ensures students.records[k].grade in r {
        var j :| 0 <= j < |students.names| && students.names[j] == k;
        assert r[j] == students.records[k].grade;
      }
    }
    r
  }

  function Count(gs: seq<Grade>, g: Grade): nat
  {
    if |gs| == 0 then 0 else Count(gs[..|gs| - 1], g) + (if gs[|gs| - 1] == g then 1 else 0)
  }

  /** `pd.Series(grades).value_counts()`: how often each occurring grade occurs. */
  function GradeCounts(gs: seq<Grade>): (m: map<Grade, nat>)
    ensures forall g :: g in m <==> g in gs
    ensures forall g :: g in m ==> m[g] == Count(gs, g) > 0
  {
    CountsPositive(gs);
    map g | g in gs :: Count(gs, g)
  }

  function CountOr0(m: map<Grade, nat>, g: Grade): nat
  {
    if g in m then m[g] else 0
  }

  /** The sum of all values of a grade-count map. */
  function CountsTotal(m: map<Grade, nat>): nat
  {
    CountOr0(m, O) + CountOr0(m, APlus) + CountOr0(m, A) + CountOr0(m, B) + CountOr0(m, C) + CountOr0(m, F)
  }

  lemma {:induction false} CountAbsentGrade(gs: seq<Grade>, g: Grade)
    requires g !in gs
    ensures Count(gs, g) == 0
  {
    if |gs| > 0 {
      CountAbsentGrade(gs[..|gs| - 1], g);
    }
  }

  lemma {:induction false} CountsAddUp(gs: seq<Grade>)
    ensures Count(gs, O) + Count(gs, APlus) + Count(gs, A) + Count(gs, B) + Count(gs, C) + Count(gs, F) == |gs|
  {
    if |gs| > 0 {
      CountsAddUp(gs[..|gs| - 1]);
    }
  }

  /** The pie's counts add up to the number of students. */
  lemma GradeCountsTotal(gs: seq<Grade>)
    ensures CountsTotal(GradeCounts(gs)) == |gs|
  {
    var m := GradeCounts(gs);
    forall g ensures CountOr0(m, g) == Count(gs, g) {
      if g !in gs {
        CountAbsentGrade(gs, g);
      }
    }
    CountsAddUp(gs);
  }

  /** How many grades carry the label `l`. */
  function CountLabel(gs: seq<Grade>, l: string): nat
  {
    if |gs| == 0 then 0 else CountLabel(gs[..|gs| - 1], l) + (if gs[|gs| - 1].Label() == l then 1 else 0)
  }

  /** Counting grades and counting their label strings give the same numbers, so the pie
      chart's slices, which are keyed by label, are the grade distribution. */
  lemma {:induction false} CountByLabel(gs: seq<Grade>, g: Grade)
    ensures Count(gs, g) == CountLabel(gs, g.Label())
  {
    if |gs| > 0 {
      CountByLabel(gs[..|gs| - 1], g);
      LabelInjective(gs[|gs| - 1], g);
    }
  }

  lemma CountsPositive(gs: seq<Grade>)
    ensures forall g :: g in gs ==> Count(gs, g) > 0
  {
    forall g | g in gs ensures Count(gs, g) > 0 {
      CountPositive(gs, g);
    }
  }

  lemma {:induction false} CountPositive(gs: seq<Grade>, g: Grade)
    requires g in gs
    ensures Count(gs, g) > 0
  {
    if gs[|gs| - 1] != g {
      assert g in gs[..|gs| - 1] by {
        var i :| 0 <= i < |gs| && gs[i] == g;
        assert gs[..|gs| - 1][i] == g;
      }
      CountPositive(gs[..|gs| - 1], g);
    }
  }

  /** In the canonical subject list, the position of the i-th subject is i. */
  lemma IndexOfCanonical(subjects: seq<string>, i: int)
    requires Sorted(subjects) && 0 <= i < |subjects|
    ensures IndexOf(subjects, subjects[i]) == i
  {
    var k := IndexOf(subjects, subjects[i]);
    if k < i {
      assert Less(subjects[k], subjects[i]);
      LessIrreflexive(subjects[i]);
    }
  }

  /** `[students[n]["attendance"].get(sub, 0) for sub in subjects]`; for a record that fits
      the subjects this is also `list(students[n]["attendance"].values())`, the map having
      been filled in subject order. */
  function AttendanceVector(rec: StudentRecord, subjects: seq<string>): (r: seq<Reading>)
    ensures |r| == |subjects|
  {
    seq(|subjects|, i requires 0 <= i < |subjects| =>
      if subjects[i] in rec.attendance then rec.attendance[subjects[i]] else Value(0.0))
  }

  /** For a record with an entry for exactly the subjects, the per-subject series is the
      attendance dictionary read in subject order, and every entry appears in it. */
  lemma AttendanceVectorOfFit(rec: StudentRecord, subjects: seq<string>)
    requires forall s :: s in rec.attendance <==> s in subjects
    ensures forall i :: 0 <= i < |subjects| ==> AttendanceVector(rec, subjects)[i] == rec.attendance[subjects[i]]
    ensures forall s :: s in rec.attendance ==> rec.attendance[s] in AttendanceVector(rec, subjects)
  {
    var r := AttendanceVector(rec, subjects);
    forall s | s in rec.attendance ensures rec.attendance[s] in r {
      var i :| 0 <= i < |subjects| && subjects[i] == s;
      assert r[i] == rec.attendance[s];
    }
  }

  /** The numbers of readings none of which is NaN. */
  function Percentages(vals: seq<Reading>): (xs: seq<real>)
    requires forall i :: 0 <= i < |vals| ==> vals[i].Value?
    ensures |xs| == |vals|
  {
    seq(|vals|, i requires 0 <= i < |vals| => vals[i].v)
  }

  /** `sum(att_vals) / len(att_vals) if att_vals else 0`: 0 without subjects, NaN as soon
      as one reading is NaN, otherwise a value between the lowest and highest reading. */
  function AverageAttendance(vals: seq<Reading>): (avg: Reading)
    ensures |vals| == 0 ==> avg == Value(0.0)
    ensures avg.NaN? <==> exists i :: 0 <= i < |vals| && vals[i].NaN?
    ensures avg.Value? && |vals| > 0 ==>
      MinOf(Percentages(vals)) <= avg.v <= MaxOf(Percentages(vals))
  {
    if |vals| == 0 then Value(0.0)
    else if exists i :: 0 <= i < |vals| && vals[i].NaN? then NaN
    else
      var xs := Percentages(vals);
      MeanBounds(xs, MinOf(xs), MaxOf(xs));
      Value(Mean(xs))
  }

  /** Attendance percentages within 0..100 average to a percentage within 0..100. */
  lemma AverageAttendanceInRange(vals: seq<Reading>)
    requires forall i :: 0 <= i < |vals| ==> vals[i].Value? && 0.0 <= vals[i].v <= 100.0
    ensures AverageAttendance(vals).Value?
    ensures 0.0 <= AverageAttendance(vals).v <= 100.0
  {
    if |vals| > 0 {
      MeanBounds(Percentages(vals), 0.0, 100.0);
    }
  }

  /** The mark a chart shows for student `n` in subject `i`: 0 for "Absent". */
  function MarkValue(students: Roster, subjects: seq<string>, n: string, i: int): real
    requires Consistent(students, subjects) && n in students.records && 0 <= i < |subjects|
  {
    Effective(students.records[n].marks[i])
  }

  /** A subjects-by-students matrix of the marks shown. */
  ghost predicate IsMarkMatrix(z: seq<seq<real>>, students: Roster, subjects: seq<string>)
    requires Consistent(students, subjects)
  {
    && |z| == |subjects|
    && (forall i :: 0 <= i < |subjects| ==> |z[i]| == |students.names|)
    && (forall i, j :: 0 <= i < |subjects| && 0 <= j < |students.names| ==>
          z[i][j] == MarkValue(students, subjects, students.names[j], i))
  }

  /** The `stacks` entry for one subject:
      `[m if isinstance(m, (int, float)) else 0 for n in names]`. */
  function StackRow(students: Roster, subjects: seq<string>, sub: string): (r: seq<real>)
    requires Consistent(students, subjects) && sub in subjects
    ensures |r| == |students.names|
    ensures forall j :: 0 <= j < |r| ==> r[j] == MarkValue(students, subjects, students.names[j], IndexOf(subjects, sub))
    ensures forall z :: IsMarkMatrix(z, students, subjects) ==> r == z[IndexOf(subjects, sub)]
  {
    seq(|students.names|, j requires 0 <= j < |students.names| =>
      Effective(students.records[students.names[j]].marks[IndexOf(subjects, sub)]))
  }

  /** The scatter's x values: each student's average attendance, in name order. */
  method AverageAttendances(students: Roster, subjects: seq<string>) returns (avgAtt: seq<Reading>)
    requires Consistent(students, subjects)
    ensures |avgAtt| == |students.names|
    ensures forall j :: 0 <= j < |students.names| ==>
      avgAtt[j] == AverageAttendance(AttendanceVector(students.records[students.names[j]], subjects))
  {
    var names := students.names;
    avgAtt := [];
    for j := 0 to |names|
      invariant |avgAtt| == j
      invariant forall j' :: 0 <= j' < j ==>
        avgAtt[j'] == AverageAttendance(AttendanceVector(students.records[names[j']], subjects))
    {
      var attVals := AttendanceVector(students.records[names[j]], subjects);
      avgAtt := avgAtt + [AverageAttendance(attVals)];
    }
  }

  /** The heatmap's `z`: one row per subject, one column per student. */
  method Heatmap(students: Roster, subjects: seq<string>) returns (heat: seq<seq<real>>)
    requires Consistent(students, subjects)
    ensures IsMarkMatrix(heat, students, subjects)
  {
    var names := students.names;
    heat := [];
    for i := 0 to |subjects|
      invariant |heat| == i
      invariant forall i' :: 0 <= i' < i ==> |heat[i']| == |names|
      invariant forall i', j :: 0 <= i' < i && 0 <= j < |names| ==>
        heat[i'][j] == MarkValue(students, subjects, names[j], i')
    {
      var sub := subjects[i];
      IndexOfCanonical(subjects, i);
      var row: seq<real> := [];
      for j := 0 to |names|
        invariant |row| == j
        invariant forall j' :: 0 <= j' < j ==> row[j'] == MarkValue(students, subjects, names[j'], i)
      {
        var val := students.records[names[j]].marks[IndexOf(subjects, sub)];
        row := row + [Effective(val)];
      }
      heat := heat + [row];
    }
  }

  /** The stacked chart's series, one per subject. */
  method Stacks(students: Roster, subjects: seq<string>) returns (stacks: seq<seq<real>>)
    requires Consistent(students, subjects)
    ensures IsMarkMatrix(stacks, students, subjects)
  {
    stacks := [];
    for i := 0 to |subjects|
      invariant |stacks| == i
      invariant forall i' :: 0 <= i' < i ==> |stacks[i']| == |students.names|
      invariant forall i', j :: 0 <= i' < i && 0 <= j < |students.names| ==>
        stacks[i'][j] == MarkValue(students, subjects, students.names[j], i')
    {
      IndexOfCanonical(subjects, i);
      stacks := stacks + [StackRow(students, subjects, subjects[i])];
    }
  }

  /** A mark matrix is fixed by the students and subjects. */
  lemma MarkMatrixUnique(z1: seq<seq<real>>, z2: seq<seq<real>>, students: Roster, subjects: seq<string>)
    requires Consistent(students, subjects)
    requires IsMarkMatrix(z1, students, subjects) && IsMarkMatrix(z2, students, subjects)
    ensures z1 == z2
  {
    forall i | 0 <= i < |subjects| ensures z1[i] == z2[i] {
      assert |z1[i]| == |z2[i]| == |students.names|;
      forall j | 0 <= j < |students.names| ensures z1[i][j] == z2[i][j] {
        assert z1[i][j] == MarkValue(students, subjects, students.names[j], i);
      }
    }
  }

  /** `per_student_att`: each name with its attendance per subject. */
  method PerStudentAttendance(students: Roster, subjects: seq<string>)
    returns (perStudent: seq<(string, seq<Reading>)>)
    requires Consistent(students, subjects)
    ensures |perStudent| == |students.names|
    ensures forall j :: 0 <= j < |students.names| ==>
      perStudent[j] == (students.names[j], AttendanceVector(students.records[students.names[j]], subjects))
  {
    var names := students.names;
    perStudent := [];
    for j := 0 to |names|
      invariant |perStudent| == j
      invariant forall j' :: 0 <= j' < j ==>
        perStudent[j'] == (names[j'], AttendanceVector(students.records[names[j']], subjects))
    {
      perStudent := perStudent + [(names[j], AttendanceVector(students.records[names[j]], subjects))];
    }
  }

  /** The chart data of a non-empty dictionary: the names in dictionary order with their
      SGPAs, the grade counts, each student's average attendance, the subjects-by-students
      mark matrix (heatmap and stacks alike) and each student's attendance by subject. */
  ghost predicate Depicts(figs: Figures, students: Roster, subjects: seq<string>)
    requires Consistent(students, subjects)
  {
    && figs.Figures?
    && figs.names == students.names
    && figs.sgpas == Sgpas(students)
    && figs.gradeCounts == GradeCounts(Grades(students))
    && |figs.avgAttendance| == |figs.names|
    && (forall j :: 0 <= j < |figs.names| ==>
          figs.avgAttendance[j] == AverageAttendance(AttendanceVector(students.records[figs.names[j]], subjects)))
    && IsMarkMatrix(figs.heatmap, students, subjects)
    && figs.stacks == figs.heatmap
    && |figs.perStudent| == |figs.names|
    && (forall j :: 0 <= j < |figs.names| ==>
          figs.perStudent[j] == (figs.names[j], AttendanceVector(students.records[figs.names[j]], subjects)))
  }

  /** `build_figures(students, subjects)`, the numeric part. */
  method BuildFigures(students: Roster, subjects: seq<string>) returns (figs: Figures)
    requires Consistent(students, subjects)
    ensures figs.NoFigures? <==> |students.names| == 0
    ensures figs.Figures? ==> Depicts(figs, students, subjects)
  {
    if |students.names| == 0 {
      return NoFigures;
    }
    var sgpas := Sgpas(students);
    var gradeCounts := GradeCounts(Grades(students));
    var avgAtt := AverageAttendances(students, subjects);
    var heat := Heatmap(students, subjects);
    var stacks := Stacks(students, subjects);
    MarkMatrixUnique(stacks, heat, students, subjects);
    var perStudent := PerStudentAttendance(students, subjects);
    figs := Figures(students.names, sgpas, gradeCounts, avgAtt, heat, stacks, perStudent);
  }

  /** The `class_summary` of the index page. */
  datatype Summary = Summary(avgSgpa: real, maxSgpa: real, minSgpa: real)

  /** `np.max(xs)` */
  function MaxOf(xs: seq<real>): (r: real)
    requires |xs| > 0
    ensures r in xs
    ensures forall i :: 0 <= i < |xs| ==> xs[i] <= r
  {
    if |xs| == 1 then xs[0]
    else
      var m := MaxOf(xs[..|xs| - 1]);
      if xs[|xs| - 1] > m then xs[|xs| - 1] else m
  }

  /** `np.min(xs)` */
  function MinOf(xs: seq<real>): (r: real)
    requires |xs| > 0
    ensures r in xs
    ensures forall i :: 0 <= i < |xs| ==> r <= xs[i]
  {
    if |xs| == 1 then xs[0]
    else
      var m := MinOf(xs[..|xs| - 1]);
      if xs[|xs| - 1] < m then xs[|xs| - 1] else m
  }

  /** Average, highest and lowest SGPA rounded to two decimals; all 0 without students. */
  function ClassSummary(sgpas: seq<real>): (s: Summary)
    ensures |sgpas| == 0 ==> s == Summary(0.0, 0.0, 0.0)
    ensures |sgpas| > 0 ==>
      && -0.005 <= s.avgSgpa - Mean(sgpas) <= 0.005
      && -0.005 <= s.maxSgpa - MaxOf(sgpas) <= 0.005
      && -0.005 <= s.minSgpa - MinOf(sgpas) <= 0.005
    ensures HasTwoDecimals(s.avgSgpa) && HasTwoDecimals(s.maxSgpa) && HasTwoDecimals(s.minSgpa)
    ensures |sgpas| > 0 && (s.avgSgpa - Mean(sgpas) == 0.005 || Mean(sgpas) - s.avgSgpa == 0.005) ==>
      (s.avgSgpa * 100.0).Floor % 2 == 0
    ensures |sgpas| > 0 && (s.maxSgpa - MaxOf(sgpas) == 0.005 || MaxOf(sgpas) - s.maxSgpa == 0.005) ==>
      (s.maxSgpa * 100.0).Floor % 2 == 0
    ensures |sgpas| > 0 && (s.minSgpa - MinOf(sgpas) == 0.005 || MinOf(sgpas) - s.minSgpa == 0.005) ==>
      (s.minSgpa * 100.0).Floor % 2 == 0
  {
    assert (0.0 * 100.0).Floor == 0;
    if |sgpas| == 0 then Summary(0.0, 0.0, 0.0)
    else Summary(Round2(Mean(sgpas)), Round2(MaxOf(sgpas)), Round2(MinOf(sgpas)))
  }

  /** The summary reads lowest <= average <= highest. */
  lemma SummaryOrdered(sgpas: seq<real>)
    ensures ClassSummary(sgpas).minSgpa <= ClassSummary(sgpas).avgSgpa <= ClassSummary(sgpas).maxSgpa
  {
    if |sgpas| > 0 {
      MeanBounds(sgpas, MinOf(sgpas), MaxOf(sgpas));
      Round2Monotone(MinOf(sgpas), Mean(sgpas));
      Round2Monotone(Mean(sgpas), MaxOf(sgpas));
    }
  }

  /** SGPAs on the 0..10 scale give a summary on the 0..10 scale. */
  lemma SummaryInRange(sgpas: seq<real>)
    requires forall i :: 0 <= i < |sgpas| ==> 0.0 <= sgpas[i] <= 10.0
    ensures 0.0 <= ClassSummary(sgpas).minSgpa && ClassSummary(sgpas).maxSgpa <= 10.0
  {
    SummaryOrdered(sgpas);
    if |sgpas| > 0 {
      Round2Monotone(0.0, MinOf(sgpas));
      Round2Monotone(MaxOf(sgpas), 10.0);
      Round2OfHundredths(0.0);
      Round2OfHundredths(10.0);
    }
  }

  /** SGPAs already have two decimals, so the highest and lowest in the summary are
      SGPAs some student actually has. */
  lemma SummaryExtremesAttained(sgpas: seq<real>)
    requires |sgpas| > 0
    requires forall i :: 0 <= i < |sgpas| ==> HasTwoDecimals(sgpas[i])
    ensures ClassSummary(sgpas).maxSgpa in sgpas
    ensures ClassSummary(sgpas).minSgpa in sgpas
  {
    var hi := MaxOf(sgpas);
    var lo := MinOf(sgpas);
    var i :| 0 <= i < |sgpas| && sgpas[i] == hi;
    var j :| 0 <= j < |sgpas| && sgpas[j] == lo;
    Round2OfHundredths(sgpas[i]);
    Round2OfHundredths(sgpas[j]);
  }

  /** What the upload page shows for a table: nothing readable, no student rows, or the
      students with their charts and class summary. */
  datatype Outcome =
    | Unreadable(error: ParseError)
    | NoStudents
    | Report(students: Roster, subjects: seq<string>, figs: Figures, summary: Summary)

  /** The SGPAs of a consistent dictionary all have two decimals. */
  lemma SgpasHaveTwoDecimals(students: Roster, subjects: seq<string>)
    requires Consistent(students, subjects)
    ensures forall i :: 0 <= i < |Sgpas(students)| ==>
      HasTwoDecimals(Sgpas(students)[i])
  {
    forall i | 0 <= i < |Sgpas(students)|
      ensures HasTwoDecimals(Sgpas(students)[i])
    {
      assert Fits(students.records[students.names[i]], subjects);
    }
  }

  /** The extremes in the summary of a non-empty consistent dictionary are SGPAs of
      actual students. */
  lemma SummaryOfConsistent(students: Roster, subjects: seq<string>)
    requires Consistent(students, subjects) && |students.names| > 0
    ensures ClassSummary(Sgpas(students)).maxSgpa in Sgpas(students)
    ensures ClassSummary(Sgpas(students)).minSgpa in Sgpas(students)
  {
    SgpasHaveTwoDecimals(students, subjects);
    SummaryExtremesAttained(Sgpas(students));
  }

  /** The charts and class summary for a non-empty dictionary of students. */
  method Summarise(students: Roster, subjects: seq<string>) returns (figs: Figures, summary: Summary)
    requires Consistent(students, subjects) && |students.names| > 0
    ensures Depicts(figs, students, subjects)
    ensures summary == ClassSummary(Sgpas(students))
    ensures summary.minSgpa <= summary.avgSgpa <= summary.maxSgpa
    ensures summary.maxSgpa in Sgpas(students) && summary.minSgpa in Sgpas(students)
  {
    SummaryOrdered(Sgpas(students));
    SummaryOfConsistent(students, subjects);
    summary := ClassSummary(Sgpas(students));
    figs := BuildFigures(students, subjects);
  }

  /** The upload handler after the CSV has been read: normalise, stop when there are no
      students, otherwise build the chart data and the class summary. */
  method Analyse(t: Table, conv: Conversions) returns (out: Outcome)
    ensures out.Unreadable? <==> |t.columns| == 0 && |t.rows| > 0
    ensures out.NoStudents? <==> |t.rows| == 0
    ensures out.Report? ==>
      && |t.columns| > 0 && |t.rows| > 0
      && Sorted(out.subjects)
      && (forall s :: s in out.subjects <==> s in SubjectNames(t.columns))
    ensures out.Report? && |t.columns| > 0 ==>
      var names := RowNames(t, conv);
      && out.students.names == Dedup(names)
      && forall i :: 0 <= i < |t.rows| && LastOfName(names, i) ==>
           && names[i] in out.students.records
           && out.students.records[names[i]] == RecordOf(t.columns, t.rows[i], out.subjects, conv)
    ensures out.Report? ==>
      && Consistent(out.students, out.subjects)
      && |out.students.names| > 0
      && Depicts(out.figs, out.students, out.subjects)
      && out.summary == ClassSummary(Sgpas(out.students))
    ensures out.Report? ==>
      && out.summary.minSgpa <= out.summary.avgSgpa <= out.summary.maxSgpa
      && out.summary.maxSgpa in Sgpas(out.students)
      && out.summary.minSgpa in Sgpas(out.students)
  {
    var parsed := ParseTable(t, conv);
    if parsed.Err? {
      return Unreadable(parsed.error);
    }
    var students, subjects := parsed.value.roster, parsed.value.subjects;
    if |students.names| == 0 {
      return NoStudents;
    }
    var figs, summary := Summarise(students, subjects);
    out := Report(students, subjects, figs, summary);
  }
}
