/** The table normaliser (`parse_df_to_students`): discovers the subjects from the
    `*_marks` column names, turns every row into a student record and collects the
    records in an insertion-ordered dictionary keyed by student name. */
module Normalizer {
  import opened Text
  import opened Grading

  datatype Option<T> = None | Some(value: T)

  datatype Result<T> = Ok(value: T) | Err(error: ParseError)

  /** Rows without any column to read the student name from (`df.columns[0]` fails). */
  datatype ParseError = NoNameColumn

  /** One cell of the table as the CSV reader hands it over: `Missing` is a blank field
      (pandas NaN), `Num` a field read as a number, `Str` any other text. */
  datatype Cell = Missing | Num(v: real) | Str(s: string)

  /** Column names and rows; a row shorter than the header reads as `Missing` past its end. */
  datatype Table = Table(columns: seq<string>, rows: seq<seq<Cell>>)

  /** Python's `float(s)` on text (None where it raises) and `str(x)` on a number. */
  datatype Conversions = Conversions(parseFloat: string -> Option<real>, show: real -> string)

  /** One entry of a record's `marks` list: the string "Absent" or a number. */
  datatype Mark = Absent | Numeric(v: real)

  /** An attendance value: a number, or the NaN that `float()` returns for a blank cell. */
  datatype Reading = Value(v: real) | NaN

  datatype StudentRecord = StudentRecord(
    marks: seq<Mark>,
    total: real,
    sgpa: real,
    grade: Grade,
    absents: nat,
    attendance: map<string, Reading>,
    suggestion: string)

  const MarksSuffix := "_marks"
  const AttendanceSuffix := "_attendance"
  const UnknownName := "Unknown"
  const WarningPrefix := " | \U{26A0} Improve attendance in: "
  const AttendanceLimit := 75.0

  // ---------------------------------------------------------------- schema

  predicate IsMarksColumn(c: string)
  {
    EndsWith(c, MarksSuffix)
  }

  /** `col.replace("_marks", "")` */
  function SubjectOf(c: string): string
  {
    RemoveAll(c, MarksSuffix)
  }

  /** The subject names the columns announce. */
  function SubjectNames(columns: seq<string>): set<string>
  {
    set c | c in columns && IsMarksColumn(c) :: SubjectOf(c)
  }

  /** For a column such as `Math_marks`, where `_marks` occurs once, the subject is the
      name without the suffix. */
  lemma SubjectOfPlainColumn(c: string)
    requires IsMarksColumn(c)
    requires forall i :: 0 <= i < |c| - |MarksSuffix| ==> !OccursAt(c, MarksSuffix, i)
    ensures SubjectOf(c) == c[..|c| - |MarksSuffix|]
  {
    RemoveAllSuffixOnly(c, MarksSuffix);
  }

  /** Such a column is found again by `f"{sub}_marks"`: the record reads its marks from
      the very column that announced the subject. */
  lemma MarksColumnRoundTrip(columns: seq<string>, row: seq<Cell>, c: string)
    requires c in columns && IsMarksColumn(c)
    requires forall i :: 0 <= i < |c| - |MarksSuffix| ==> !OccursAt(c, MarksSuffix, i)
    ensures SubjectOf(c) + MarksSuffix == c
    ensures Get(columns, row, SubjectOf(c) + MarksSuffix).Some?
  {
    SubjectOfPlainColumn(c);
    assert c == c[..|c| - |MarksSuffix|] + c[|c| - |MarksSuffix|..];
  }

  /** `replace` deletes every `_marks`, so a column `a_marks_marks` announces subject `a`,
      whose mark is then looked up under `a_marks` and, with no such column, reads
      "Absent". */
  lemma DoubleSuffixReadsAbsent(conv: Conversions)
    ensures SubjectOf("a_marks_marks") == "a"
    ensures MarkOf(Get(["a_marks_marks"], [Num(90.0)], SubjectOf("a_marks_marks") + MarksSuffix), conv) == Absent
  {
    var c := "a_marks_marks";
    assert c[..6][0] != MarksSuffix[0];
    assert c[1..][..6] == MarksSuffix && c[1..][6..] == MarksSuffix;
    assert RemoveAll(MarksSuffix[6..], MarksSuffix) == [];
    assert RemoveAll(c[1..][6..], MarksSuffix) == [];
    assert |"a" + MarksSuffix| != |c|;
  }

  lemma SubjectNamesSnoc(columns: seq<string>, c: string)
    ensures SubjectNames(columns + [c])
         == SubjectNames(columns) + (if IsMarksColumn(c) then {SubjectOf(c)} else {})
  {
    var cs := columns + [c];
    forall s | s in SubjectNames(cs)
      ensures s in SubjectNames(columns) || (IsMarksColumn(c) && s == SubjectOf(c))
    {
      var d :| d in cs && IsMarksColumn(d) && SubjectOf(d) == s;
      if d != c {
        assert d in columns;
      }
    }
  }

  /** The schema step: the subjects in canonical order, `sorted(set(...))` of the names
      taken from the `*_marks` columns. */
  method DiscoverSubjects(columns: seq<string>) returns (subjects: seq<string>)
    ensures Sorted(subjects)
    ensures forall s :: s in subjects <==> s in SubjectNames(columns)
  {
    var raw: seq<string> := [];
    for i := 0 to |columns|
      invariant forall s :: s in raw <==> s in SubjectNames(columns[..i])
    {
      SubjectNamesSnoc(columns[..i], columns[i]);
      assert columns[..i + 1] == columns[..i] + [columns[i]];
      if IsMarksColumn(columns[i]) {
        raw := raw + [SubjectOf(columns[i])];
      }
    }
    assert columns[..|columns|] == columns;
    subjects := Canonical(raw);
  }

  // ---------------------------------------------------------------- cells

  /** `row.get(col)`: the cell under the first column called `col`, None if there is none. */
  function Get(columns: seq<string>, row: seq<Cell>, col: string): (r: Option<Cell>)
    ensures r.None? <==> col !in columns
  {
    if |columns| == 0 then None
    else if columns[0] == col then Some(if |row| > 0 then row[0] else Missing)
    else Get(columns[1..], if |row| > 0 then row[1..] else [], col)
  }

  /** `row.get(col)` reads the cell under the first column called `col`, or NaN when the
      row is shorter. */
  lemma {:induction false} GetFirst(columns: seq<string>, row: seq<Cell>, col: string, i: nat)
    requires i < |columns| && columns[i] == col
    requires forall j :: 0 <= j < i ==> columns[j] != col
    ensures Get(columns, row, col) == Some(if i < |row| then row[i] else Missing)
  {
    if i > 0 {
      GetFirst(columns[1..], if |row| > 0 then row[1..] else [], col, i - 1);
    }
  }

  /** The mark cell is missing, NaN or whitespace only (`row.get(col, "")` then
      `pd.isna(val) or str(val).strip() == ""`). */
  predicate IsBlankMark(c: Option<Cell>)
    ensures c.None? || c == Some(Missing) ==> IsBlankMark(c)
    ensures c.Some? && c.value.Num? ==> !IsBlankMark(c)
    ensures c == Some(Str("")) || c == Some(Str(" \t")) ==> IsBlankMark(c)
    ensures c.Some? && c.value.Str? && (exists i :: 0 <= i < |c.value.s| && !IsSpace(c.value.s[i])) ==>
      !IsBlankMark(c)
  {
    match c
    case None => true
    case Some(Missing) => true
    case Some(Num(_)) => false
    case Some(Str(s)) => IsBlank(s)
  }

  /** One entry of `display_marks`: "Absent" exactly for a blank cell; otherwise the
      number, or 0.0 when `float()` rejects the text. */
  function MarkOf(c: Option<Cell>, conv: Conversions): (m: Mark)
    ensures m == Absent <==> IsBlankMark(c)
    ensures c.Some? && c.value.Num? ==> m == Numeric(c.value.v)
    ensures c.Some? && c.value.Str? && !IsBlank(c.value.s) ==>
      m == Numeric(if conv.parseFloat(c.value.s).Some? then conv.parseFloat(c.value.s).value else 0.0)
  {
    if IsBlankMark(c) then Absent
    else match c.value
      case Num(v) => Numeric(v)
      case Str(s) => (match conv.parseFloat(s) case Some(v) => Numeric(v) case None => Numeric(0.0))
      case Missing => Absent
  }

  /** One entry of `attendance`: `float(row.get(col, 0))`, 0.0 when that raises. */
  function AttendanceOf(c: Option<Cell>, conv: Conversions): (a: Reading)
    ensures a.NaN? <==> c == Some(Missing)
    ensures c.None? ==> a == Value(0.0)
    ensures c.Some? && c.value.Num? ==> a == Value(c.value.v)
    ensures c.Some? && c.value.Str? ==>
      a == Value(if conv.parseFloat(c.value.s).Some? then conv.parseFloat(c.value.s).value else 0.0)
  {
    match c
    case None => Value(0.0)
    case Some(Missing) => NaN
    case Some(Num(v)) => Value(v)
    case Some(Str(s)) => (match conv.parseFloat(s) case Some(v) => Value(v) case None => Value(0.0))
  }

  /** The number a mark adds to `marks` (and the heatmap shows): 0 for "Absent". */
  function Effective(m: Mark): real
  {
    match m
    case Absent => 0.0
    case Numeric(v) => v
  }

  function Numbers(ms: seq<Mark>): (xs: seq<real>)
  {
    seq(|ms|, j requires 0 <= j < |ms| => Effective(ms[j]))
  }

  function CountAbsent(ms: seq<Mark>): nat
  {
    if |ms| == 0 then 0
    else CountAbsent(ms[..|ms| - 1]) + (if ms[|ms| - 1] == Absent then 1 else 0)
  }

  predicate IsLow(r: Reading)
  {
    r.Value? && r.v < AttendanceLimit
  }

  /** `[sub for sub, att in attendance.items() if att < 75]`, the dictionary's items
      being in the order of `subjects`. */
  function LowAttendance(subjects: seq<string>, att: map<string, Reading>): (r: seq<string>)
    requires forall s :: s in subjects ==> s in att
    ensures forall s :: s in r <==> s in subjects && IsLow(att[s])
  {
    if |subjects| == 0 then []
    else
      var init := subjects[..|subjects| - 1];
      var last := subjects[|subjects| - 1];
      assert subjects == init + [last];
      LowAttendance(init, att) + (if IsLow(att[last]) then [last] else [])
  }

  /** The suggestion with the low-attendance clause appended when there is one. */
  function WithWarning(base: string, low: seq<string>): (r: string)
    ensures |base| <= |r| && r[..|base|] == base
    ensures r == base <==> |low| == 0
  {
    if |low| == 0 then base else base + WarningPrefix + Join(low, ", ") + "."
  }

  /** `str(row[name_col])`, or "Unknown" for a NaN name: the name is read from the row's
      first cell. */
  function RowName(columns: seq<string>, row: seq<Cell>, conv: Conversions): (name: string)
    requires |columns| > 0
    ensures var cell := if |row| > 0 then row[0] else Missing;
      && (cell.Missing? ==> name == UnknownName)
      && (cell.Num? ==> name == conv.show(cell.v))
      && (cell.Str? ==> name == cell.s)
  {
    GetFirst(columns, row, columns[0], 0);
    match Get(columns, row, columns[0]).value
    case Missing => UnknownName
    case Num(v) => conv.show(v)
    case Str(s) => s
  }

  // ---------------------------------------------------------------- records

  function MarksOf(columns: seq<string>, row: seq<Cell>, subjects: seq<string>, conv: Conversions): seq<Mark>
  {
    seq(|subjects|, j requires 0 <= j < |subjects| => MarkOf(Get(columns, row, subjects[j] + MarksSuffix), conv))
  }

  function AttendanceMap(columns: seq<string>, row: seq<Cell>, subjects: seq<string>, conv: Conversions)
    : map<string, Reading>
  {
    map s | s in subjects :: AttendanceOf(Get(columns, row, s + AttendanceSuffix), conv)
  }

  /** Appending one mark extends the numbers by its value and the absence count by its
      absence. */
  lemma AppendMark(ms: seq<Mark>, m: Mark)
    ensures Numbers(ms + [m]) == Numbers(ms) + [Effective(m)]
    ensures CountAbsent(ms + [m]) == CountAbsent(ms) + (if m == Absent then 1 else 0)
  {
    assert (ms + [m])[..|ms|] == ms;
  }

  /** The marks of one more subject are the marks so far and that subject's mark. */
  lemma MarksOfSnoc(columns: seq<string>, row: seq<Cell>, subjects: seq<string>, k: nat, conv: Conversions)
    requires k < |subjects|
    ensures MarksOf(columns, row, subjects[..k + 1], conv)
         == MarksOf(columns, row, subjects[..k], conv) + [MarkOf(Get(columns, row, subjects[k] + MarksSuffix), conv)]
  {
  }

  /** The attendance of one more subject adds that subject's entry. */
  lemma AttendanceMapSnoc(columns: seq<string>, row: seq<Cell>, subjects: seq<string>, k: nat, conv: Conversions)
    requires k < |subjects|
    ensures AttendanceMap(columns, row, subjects[..k + 1], conv)
         == AttendanceMap(columns, row, subjects[..k], conv)[subjects[k] := AttendanceOf(Get(columns, row, subjects[k] + AttendanceSuffix), conv)]
  {
    assert subjects[..k + 1] == subjects[..k] + [subjects[k]];
  }

  /** The record the source builds for one row, stated declaratively. */
  function RecordOf(columns: seq<string>, row: seq<Cell>, subjects: seq<string>, conv: Conversions)
    : (r: StudentRecord)
    ensures |r.marks| == |subjects|
    ensures forall s :: s in r.attendance <==> s in subjects
    ensures HasTwoDecimals(r.sgpa) && r.grade == AssignGrade(r.sgpa)
    ensures r.suggestion == GiveSuggestion(r.sgpa) <==> forall s :: s in subjects ==> !IsLow(r.attendance[s])
  {
    var marks := MarksOf(columns, row, subjects, conv);
    var att := AttendanceMap(columns, row, subjects, conv);
    var sgpa := Sgpa(Numbers(marks));
    var low := LowAttendance(subjects, att);
    assert |low| > 0 ==> low[0] in low;
    StudentRecord(
      marks, Sum(Numbers(marks)), sgpa, AssignGrade(sgpa), CountAbsent(marks), att,
      WithWarning(GiveSuggestion(sgpa), low))
  }

  /** The loop over `subjects` for one row: reads each subject's mark and attendance
      cells in canonical order, appending to `marks` and `display_marks`, counting
      absences and filling the attendance dictionary. */
  method ReadSubjects(columns: seq<string>, row: seq<Cell>, subjects: seq<string>, conv: Conversions)
    returns (marks: seq<real>, display: seq<Mark>, absents: nat, attendance: map<string, Reading>)
    ensures display == MarksOf(columns, row, subjects, conv)
    ensures marks == Numbers(display)
    ensures absents == CountAbsent(display)
    ensures attendance == AttendanceMap(columns, row, subjects, conv)
  {
    marks, display, absents, attendance := [], [], 0, map[];
    for k := 0 to |subjects|
      invariant display == MarksOf(columns, row, subjects[..k], conv)
      invariant marks == Numbers(display)
      invariant absents == CountAbsent(display)
      invariant attendance == AttendanceMap(columns, row, subjects[..k], conv)
    {
      var sub := subjects[k];
      var val := Get(columns, row, sub + MarksSuffix);
      var entry := MarkOf(val, conv);
      AppendMark(display, entry);
      MarksOfSnoc(columns, row, subjects, k, conv);
      ghost var before := display;
      if IsBlankMark(val) {
        marks := marks + [0.0];
        display := display + [Absent];
        absents := absents + 1;
      } else {
        var m := match val.value case Num(v) => v
          case Str(s) => (match conv.parseFloat(s) case Some(v) => v case None => 0.0)
          case Missing => 0.0;
        marks := marks + [m];
        display := display + [Numeric(m)];
      }
      assert display == before + [entry];
      AttendanceMapSnoc(columns, row, subjects, k, conv);
      attendance := attendance[sub := AttendanceOf(Get(columns, row, sub + AttendanceSuffix), conv)];
    }
    assert subjects[..|subjects|] == subjects;
  }

  /** The body of the per-row loop: the subjects' cells, then the SGPA, grade and
      suggestion, with the attendance warning appended when some subject is below 75. */
  method BuildRecord(columns: seq<string>, row: seq<Cell>, subjects: seq<string>, conv: Conversions)
    returns (rec: StudentRecord)
    ensures rec == RecordOf(columns, row, subjects, conv)
  {
    var marks, display, absents, attendance := ReadSubjects(columns, row, subjects, conv);
    var sgpa := Sgpa(marks);
    var grade := AssignGrade(sgpa);
    var suggestion := GiveSuggestion(sgpa);
    var low := LowAttendance(subjects, attendance);
    if |low| > 0 {
      suggestion := suggestion + WarningPrefix + Join(low, ", ") + ".";
    }
    var total := Sum(marks);
    rec := StudentRecord(display, total, sgpa, grade, absents, attendance, suggestion);
  }

  // ---------------------------------------------------------------- record properties

  /** A blank or missing mark is "Absent"; a non-blank mark that does not parse is 0.0. */
  lemma MarkCases(columns: seq<string>, row: seq<Cell>, subjects: seq<string>, conv: Conversions, j: int)
    requires 0 <= j < |subjects|
    ensures var c := Get(columns, row, subjects[j] + MarksSuffix);
      && (RecordOf(columns, row, subjects, conv).marks[j] == Absent <==> IsBlankMark(c))
      && (c.Some? && c.value.Str? && !IsBlank(c.value.s) && conv.parseFloat(c.value.s).None?
          ==> RecordOf(columns, row, subjects, conv).marks[j] == Numeric(0.0))
  {
  }

  /** A subject's attendance is 0.0 when its column is missing or its text does not
      parse, and NaN for a blank cell, which never counts as low. */
  lemma AttendanceCases(columns: seq<string>, row: seq<Cell>, subjects: seq<string>, conv: Conversions, j: int)
    requires 0 <= j < |subjects|
    ensures var c := Get(columns, row, subjects[j] + AttendanceSuffix);
      var a := RecordOf(columns, row, subjects, conv).attendance[subjects[j]];
      && (c.None? ==> a == Value(0.0))
      && (a.NaN? <==> c == Some(Missing))
      && (a.NaN? ==> !IsLow(a))
      && (c.Some? && c.value.Num? ==> a == Value(c.value.v))
      && (c.Some? && c.value.Str? && conv.parseFloat(c.value.s).None? ==> a == Value(0.0))
  {
  }

  /** The numeric entries of a marks list, "Absent" ones dropped. */
  function NumericEntries(ms: seq<Mark>): seq<real>
  {
    if |ms| == 0 then []
    else NumericEntries(ms[..|ms| - 1]) + (match ms[|ms| - 1] case Absent => [] case Numeric(v) => [v])
  }

  lemma {:induction false} SumAppend(xs: seq<real>, ys: seq<real>)
    ensures Sum(xs + ys) == Sum(xs) + Sum(ys)
  {
    if |ys| > 0 {
      assert (xs + ys)[..|xs + ys| - 1] == xs + ys[..|ys| - 1];
      SumAppend(xs, ys[..|ys| - 1]);
    } else {
      assert xs + ys == xs;
    }
  }

  /** Adding up the marks with "Absent" as 0 is adding up the numeric entries. */
  lemma {:induction false} SumNumbers(ms: seq<Mark>)
    ensures Sum(Numbers(ms)) == Sum(NumericEntries(ms))
  {
    if |ms| > 0 {
      var init := ms[..|ms| - 1];
      var last := ms[|ms| - 1];
      SumNumbers(init);
      assert Numbers(ms)[..|ms| - 1] == Numbers(init);
      var tail := match last case Absent => [] case Numeric(v) => [v];
      assert Sum(tail) == Effective(last);
      SumAppend(NumericEntries(init), tail);
    }
  }

  /** `absents` is the number of "Absent" entries; the rest are numeric. */
  lemma {:induction false} CountAbsentEntries(ms: seq<Mark>)
    ensures CountAbsent(ms) == multiset(ms)[Absent]
    ensures CountAbsent(ms) + |NumericEntries(ms)| == |ms|
  {
    if |ms| > 0 {
      var init := ms[..|ms| - 1];
      CountAbsentEntries(init);
      assert ms == init + [ms[|ms| - 1]];
      assert multiset(ms) == multiset(init) + multiset{ms[|ms| - 1]};
    }
  }

  /** `absents` counts the "Absent" entries, `total` adds up the numeric ones, and the
      SGPA is the total over all subjects (absences counting 0) divided by ten, rounded. */
  lemma RecordTotals(columns: seq<string>, row: seq<Cell>, subjects: seq<string>, conv: Conversions)
    ensures var r := RecordOf(columns, row, subjects, conv);
      && r.absents == multiset(r.marks)[Absent]
      && r.absents <= |subjects|
      && r.total == Sum(NumericEntries(r.marks))
      && (|subjects| == 0 ==> r.sgpa == 0.0)
      && (|subjects| > 0 ==> -0.005 <= r.sgpa - r.total / |subjects| as real / 10.0 <= 0.005)
  {
    var r := RecordOf(columns, row, subjects, conv);
    SumNumbers(r.marks);
    CountAbsentEntries(r.marks);
  }

  /** The low-attendance list names exactly the subjects below 75, in canonical order. */
  lemma {:induction false} LowAttendanceExact(subjects: seq<string>, att: map<string, Reading>)
    requires forall s :: s in subjects ==> s in att
    requires Sorted(subjects)
    ensures Sorted(LowAttendance(subjects, att))
    ensures forall s :: s in LowAttendance(subjects, att) <==> s in subjects && IsLow(att[s])
  {
    if |subjects| > 0 {
      var init := subjects[..|subjects| - 1];
      var last := subjects[|subjects| - 1];
      assert Sorted(init);
      LowAttendanceExact(init, att);
      var low := LowAttendance(init, att);
      forall s | s in low ensures Less(s, last) {
        var j :| 0 <= j < |init| && init[j] == s;
      }
      var r := LowAttendance(subjects, att);
      forall i, j | 0 <= i < j < |r| ensures Less(r[i], r[j]) {
        if j == |low| {
          assert r[i] in low;
        }
      }
      forall s | s in init ensures s in subjects { }
    }
  }

  /** The warning is appended exactly when some subject's attendance is below 75, and it
      then lists those subjects in canonical order. */
  lemma WarningExactlyWhenLow(columns: seq<string>, row: seq<Cell>, subjects: seq<string>, conv: Conversions)
    requires Sorted(subjects)
    ensures var r := RecordOf(columns, row, subjects, conv);
      var low := LowAttendance(subjects, r.attendance);
      && (r.suggestion == GiveSuggestion(r.sgpa) <==> forall s :: s in subjects ==> !IsLow(r.attendance[s]))
      && (forall s :: s in low <==> s in subjects && IsLow(r.attendance[s]))
      && Sorted(low)
      && (|low| > 0 ==> r.suggestion == GiveSuggestion(r.sgpa) + WarningPrefix + Join(low, ", ") + ".")
  {
    var r := RecordOf(columns, row, subjects, conv);
    LowAttendanceExact(subjects, r.attendance);
    var low := LowAttendance(subjects, r.attendance);
    if |low| > 0 {
      assert low[0] in low;
      assert |r.suggestion| > |GiveSuggestion(r.sgpa)|;
    }
  }

  // ---------------------------------------------------------------- the students dictionary

  predicate NoDuplicates(xs: seq<string>)
  {
    forall i, j :: 0 <= i < j < |xs| ==> xs[i] != xs[j]
  }

  /** `xs` with every repeat dropped, in order of first occurrence. */
  function Dedup(xs: seq<string>): (r: seq<string>)
    ensures NoDuplicates(r)
    ensures forall x :: x in r <==> x in xs
    ensures forall i, j :: 0 <= i < j < |r| ==> IndexOf(xs, r[i]) < IndexOf(xs, r[j])
  {
    if |xs| == 0 then []
    else
      var init := xs[..|xs| - 1];
      var d := Dedup(init);
      var x := xs[|xs| - 1];
      DedupFirstOrder(xs, d);
      if x in d then d else d + [x]
  }

  /** The first positions in `xs` of names already seen in its prefix are their first
      positions in the prefix, and all lie before a name that is new at the end. */
  lemma DedupFirstOrder(xs: seq<string>, d: seq<string>)
    requires |xs| > 0
    requires forall y :: y in d <==> y in xs[..|xs| - 1]
    ensures forall y :: y in d ==> IndexOf(xs, y) == IndexOf(xs[..|xs| - 1], y) < |xs| - 1
    ensures xs[|xs| - 1] !in d ==> IndexOf(xs, xs[|xs| - 1]) == |xs| - 1
  {
    var n := |xs| - 1;
    var init := xs[..n];
    forall y | y in d
      ensures IndexOf(xs, y) == IndexOf(init, y) < n
    {
      IndexOfPrefix(xs, n, y);
      var k := IndexOf(init, y);
      assert k < |init| == n;
    }
    if xs[n] !in d {
      forall j | 0 <= j < n ensures xs[j] != xs[n] {
        assert xs[..n][j] == xs[j];
      }
    }
  }

  /** A Python dictionary from student names to records: the keys in insertion order
      and the key-to-record map. */
  datatype Roster = Roster(names: seq<string>, records: map<string, StudentRecord>)
  {
    ghost predicate Valid()
    {
      NoDuplicates(names) && forall k :: k in records <==> k in names
    }

    /** `students[k] = v`: a new key goes last, an existing key keeps its place. */
    function Put(k: string, v: StudentRecord): (r: Roster)
      requires Valid()
      ensures r.Valid()
      ensures r.records == records[k := v]
      ensures r.names == if k in names then names else names + [k]
    {
      Roster(if k in names then names else names + [k], records[k := v])
    }
  }

  /** No row after `i` and before `n` carries the name of row `i`. */
  predicate LastBefore(names: seq<string>, i: int, n: int)
    requires 0 <= i < n <= |names|
  {
    forall j :: i < j < n ==> names[j] != names[i]
  }

  /** No later row than `i` carries the name of row `i`. */
  predicate LastOfName(names: seq<string>, i: int)
    requires 0 <= i < |names|
  {
    LastBefore(names, i, |names|)
  }

  /** The name of every row, in row order. */
  function RowNames(t: Table, conv: Conversions): (ns: seq<string>)
    requires |t.columns| > 0
  {
    seq(|t.rows|, i requires 0 <= i < |t.rows| => RowName(t.columns, t.rows[i], conv))
  }

  datatype Parsed = Parsed(roster: Roster, subjects: seq<string>)

  /** The record matches the subject list (one mark and one attendance entry per subject)
      and its SGPA has two decimals. */
  ghost predicate Fits(rec: StudentRecord, subjects: seq<string>)
  {
    && |rec.marks| == |subjects|
    && (forall s :: s in rec.attendance <==> s in subjects)
    && HasTwoDecimals(rec.sgpa)
  }

  /** After the first `n` rows, every name holds the record of its last row so far. */
  ghost predicate HoldsLastRecords(students: Roster, names: seq<string>, recs: seq<StudentRecord>, n: nat)
    requires n <= |names| == |recs|
  {
    forall p :: 0 <= p < n && LastBefore(names, p, n) ==>
      names[p] in students.records && students.records[names[p]] == recs[p]
  }

  /** Storing row `i` under its name keeps the "last row wins" picture up to date. */
  lemma StoreRow(students: Roster, names: seq<string>, recs: seq<StudentRecord>, i: nat)
    requires students.Valid()
    requires i < |names| == |recs|
    requires HoldsLastRecords(students, names, recs, i)
    ensures HoldsLastRecords(students.Put(names[i], recs[i]), names, recs, i + 1)
  {
    var after := students.Put(names[i], recs[i]);
    forall p | 0 <= p < i + 1 && LastBefore(names, p, i + 1)
      ensures names[p] in after.records && after.records[names[p]] == recs[p]
    {
      if p < i {
        assert names[p] != names[i];
        assert LastBefore(names, p, i);
      }
    }
  }

  /** Every record stored in the roster matches the subject list. */
  ghost predicate AllFit(students: Roster, subjects: seq<string>)
  {
    forall k :: k in students.records ==> Fits(students.records[k], subjects)
  }

  lemma PutFits(students: Roster, k: string, v: StudentRecord, subjects: seq<string>)
    requires students.Valid() && AllFit(students, subjects) && Fits(v, subjects)
    ensures AllFit(students.Put(k, v), subjects)
  {
  }

  /** Storing under the name of row `i` extends the first-occurrence name order. */
  lemma PutDedup(students: Roster, names: seq<string>, i: nat, v: StudentRecord)
    requires students.Valid()
    requires i < |names| && students.names == Dedup(names[..i])
    ensures students.Put(names[i], v).names == Dedup(names[..i + 1])
  {
    assert names[..i + 1][..i] == names[..i];
  }

  /** The record of every row, in row order. */
  function RowRecords(t: Table, subjects: seq<string>, conv: Conversions): seq<StudentRecord>
  {
    seq(|t.rows|, i requires 0 <= i < |t.rows| => RecordOf(t.columns, t.rows[i], subjects, conv))
  }

  /** `parse_df_to_students(df)`. A table without rows gives no students and the subjects
      of its columns; a table with rows but no columns has no name column. Otherwise the
      names appear in order of first occurrence and each name holds the record of the
      last row with that name. */
  method ParseTable(t: Table, conv: Conversions) returns (res: Result<Parsed>)
    ensures res.Err? <==> |t.columns| == 0 && |t.rows| > 0
    ensures res.Ok? ==> Sorted(res.value.subjects)
    ensures res.Ok? ==> forall s :: s in res.value.subjects <==> s in SubjectNames(t.columns)
    ensures res.Ok? ==> res.value.roster.Valid()
    ensures res.Ok? ==> forall k :: k in res.value.roster.records ==> Fits(res.value.roster.records[k], res.value.subjects)
    ensures res.Ok? && |t.rows| == 0 ==> res.value.roster == Roster([], map[])
    ensures res.Ok? && |t.rows| > 0 ==> res.value.roster.names == Dedup(RowNames(t, conv))
    ensures res.Ok? && |t.rows| > 0 ==>
      var names := RowNames(t, conv);
      forall i :: 0 <= i < |t.rows| && LastOfName(names, i) ==>
        res.value.roster.records[names[i]] == RecordOf(t.columns, t.rows[i], res.value.subjects, conv)
  {
    var subjects := DiscoverSubjects(t.columns);
    if |t.rows| == 0 {
      return Ok(Parsed(Roster([], map[]), subjects));
    }
    if |t.columns| == 0 {
      return Err(NoNameColumn);
    }
    var students := StoreRows(t, subjects, conv);
    res := Ok(Parsed(students, subjects));
  }

  /** The loop over the rows: each row's record is stored under its name, so a repeated
      name keeps its first place and takes the record of its last row. */
  method StoreRows(t: Table, subjects: seq<string>, conv: Conversions) returns (students: Roster)
    requires |t.columns| > 0
    ensures students.Valid()
    ensures students.names == Dedup(RowNames(t, conv))
    ensures AllFit(students, subjects)
    ensures HoldsLastRecords(students, RowNames(t, conv), RowRecords(t, subjects, conv), |t.rows|)
  {
    ghost var names := RowNames(t, conv);
    ghost var recs := RowRecords(t, subjects, conv);
    students := Roster([], map[]);
    for i := 0 to |t.rows|
      invariant students.Valid()
      invariant students.names == Dedup(names[..i])
      invariant AllFit(students, subjects)
      invariant HoldsLastRecords(students, names, recs, i)
    {
      var name := RowName(t.columns, t.rows[i], conv);
      var rec := BuildRecord(t.columns, t.rows[i], subjects, conv);
      StoreRow(students, names, recs, i);
      PutFits(students, name, rec, subjects);
      PutDedup(students, names, i, rec);
      students := students.Put(name, rec);
    }
    assert names[..|t.rows|] == names;
  }
}
