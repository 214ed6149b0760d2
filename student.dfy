/**
 * The `Student` record: a validated name and the insertion-ordered
 * `subjects` dict, with the operations that read and update them in place.
 * The CSV file is a sequence of rows, each row a sequence of fields; the
 * log is the sequence of entries `save_subjects` would write.
 */
module StudentModel {
  import opened Outcomes
  import opened Text
  import opened Names
  import opened Subjects

  /** A Python value passed as a grade or a test score. */
  datatype Value = Int(i: int) | Float(f: real) | Str(s: string)

  /** `isinstance(v, int) and 2 <= v <= 5` */
  predicate IsGrade(v: Value)
  {
    v.Int? && 2 <= v.i <= 5
  }

  /** `isinstance(v, int) and 0 <= v <= 100` */
  predicate IsTestScore(v: Value)
  {
    v.Int? && 0 <= v.i <= 100
  }

  const NameLabel := "Студент: "
  const SubjectsLabel := "Предметы: "

  /** The text of `__str__`: the name line, then the subjects line. */
  function SummaryText(name: string, keys: seq<string>): string
  {
    NameLabel + name + "\n" + SubjectsLabel + Join(keys, ", ")
  }

  /** The summary's first line is exactly the name line. */
  lemma SummaryFirstLine(name: string, keys: seq<string>)
    requires ValidName(name)
    ensures Split(SummaryText(name, keys), "\n")[0] == NameLabel + name
  {
    ValidNameIsOneLine(name);
    var head := NameLabel + name;
    var tail := "\n" + SubjectsLabel + Join(keys, ", ");
    assert SummaryText(name, keys) == head + tail;
    SplitAfterPlainPrefix(head, tail, "\n");
    assert tail[..1] == "\n";
    assert head + "" == head;
  }

  /** The summary ends with the subject names: nothing when there are no
      subjects, and otherwise text that splits back into the list of
      subjects when none of them contains a comma. */
  lemma SummaryListsSubjects(name: string, keys: seq<string>)
    requires Avoids(keys, ',')
    ensures var prefix := |NameLabel + name + "\n" + SubjectsLabel|;
      && |SummaryText(name, keys)| >= prefix
      && (keys == [] ==> SummaryText(name, keys)[prefix..] == "")
      && (keys != [] ==> Split(SummaryText(name, keys)[prefix..], ", ") == keys)
  {
    var prefix := NameLabel + name + "\n" + SubjectsLabel;
    assert SummaryText(name, keys)[|prefix|..] == Join(keys, ", ");
    if keys != [] {
      SplitJoin(keys, ", ");
    }
  }

  class Student {
    var name: string
    var subjects: Dict

    /** The name passed the check, and the dict is a dict. */
    ghost predicate Valid()
      reads this
    {
      ValidName(name) && subjects.WellFormed()
    }

    /** The field writes of `__init__` once the name has been accepted. */
    constructor (name: string)
      requires ValidName(name)
      ensures Valid() && this.name == name && subjects == EmptyDict
    {
      this.name := name;
      subjects := EmptyDict;
    }

    /** `Student(name, subjects_file)`: check the name, start with no
        subjects, load the file's rows, then write the file back. Returns
        the student (or the exception), the file's new contents and the log. */
    static method Create(name: string, file: seq<seq<string>>)
      returns (r: Result<Student>, written: seq<seq<string>>, log: seq<LogEntry>)
      ensures !ValidName(name) ==> r == Err(ValueError) && written == file && log == []
      ensures ValidName(name) && !NoEmptyRow(file) ==> r == Err(IndexError) && written == file && log == []
      ensures ValidName(name) && NoEmptyRow(file) ==>
        && r.Ok? && fresh(r.value) && r.value.Valid()
        && r.value.name == name && r.value.subjects == Loaded(EmptyDict, file)
        && written == SaveRows(r.value.subjects) && log == SaveLog(r.value.subjects)
      ensures r.Ok? ==> log == [] && forall i :: 0 <= i < |written| ==> |written[i]| == 3 && written[i][1] == "" && written[i][2] == ""
    {
      if !ValidName(name) {
        return Err(ValueError), file, [];
      }
      var s := new Student(name);
      var st := s.Load(file);
      if st.Raised? {
        return Err(st.error), file, [];
      }
      FirstEmptyRowNone(file);
      assert file[..|file|] == file;
      ghost var d := Loaded(EmptyDict, file);
      assert s.subjects == d;
      written, log := s.Save();
      LoadThenSaveClears(file);
      assert written == SaveRows(d) && log == SaveLog(d);
      r := Ok(s);
    }

    /** `self.name = value`: accepted only if it passes the name check;
        otherwise `ValueError` and the old name stays. */
    method SetName(value: string) returns (st: Status)
      requires Valid()
      modifies this`name
      ensures Valid()
      ensures ValidName(value) ==> st == Done && name == value
      ensures !ValidName(value) ==> st == Raised(ValueError) && name == old(name)
    {
      if !ValidName(value) {
        return Raised(ValueError);
      }
      name := value;
      return Done;
    }

    /** `self.subjects = d`: any other attribute is assigned unchecked. */
    method SetSubjects(d: Dict) returns (st: Status)
      requires Valid() && d.WellFormed()
      modifies this`subjects
      ensures Valid() && st == Done && subjects == d
    {
      subjects := d;
      return Done;
    }

    /** `student.<subject>`: the subject's record, or `AttributeError`. */
    function Lookup(subject: string): (r: Result<SubjectRecord>)
      reads this
      ensures r.Ok? <==> subject in subjects.records
      ensures r.Ok? ==> r.value == subjects.records[subject]
      ensures r.Err? ==> r.error == AttributeError
    {
      if subject in subjects.records then Ok(subjects.records[subject]) else Err(AttributeError)
    }

    /** `str(student)`: its first line names the student. */
    function Summary(): (r: string)
      requires Valid()
      reads this
      ensures Split(r, "\n")[0] == NameLabel + name
    {
      SummaryFirstLine(name, subjects.keys);
      SummaryText(name, subjects.keys)
    }

    /** `load_subjects`: registers each row's first field in row order; an
        empty row raises `IndexError` with the rows before it loaded. */
    method Load(rows: seq<seq<string>>) returns (st: Status)
      requires Valid()
      modifies this`subjects
      ensures Valid()
      ensures NoEmptyRow(rows[..FirstEmptyRow(rows)])
      ensures subjects == Loaded(old(subjects), rows[..FirstEmptyRow(rows)])
      ensures st == if NoEmptyRow(rows) then Done else Raised(IndexError)
    {
      var i := 0;
      while i < |rows|
        invariant 0 <= i <= |rows|
        invariant NoEmptyRow(rows[..i])
        invariant subjects.WellFormed()
        invariant subjects == Loaded(old(subjects), rows[..i])
      {
        if |rows[i]| == 0 {
          FirstEmptyRowAt(rows, i);
          return Raised(IndexError);
        }
        var subject := rows[i][0];
        NoEmptyRowSnoc(rows, i);
        LoadedSnoc(old(subjects), rows, i);
        ghost var before := subjects;
        if subject !in subjects.records {
          subjects := Dict(subjects.keys + [subject], subjects.records[subject := EmptyRecord]);
        }
        assert subjects == Register(before, subject);
        i := i + 1;
      }
      assert rows[..i] == rows;
      FirstEmptyRowNone(rows);
      return Done;
    }

    /** `add_grade`: registers the subject first, then appends the grade if
        it is an integer in 2..5 and raises `ValueError` otherwise. */
    method AddGrade(subject: string, grade: Value) returns (st: Status)
      requires Valid()
      modifies this`subjects
      ensures Valid()
      ensures st == if IsGrade(grade) then Done else Raised(ValueError)
      ensures subjects == if IsGrade(grade)
        then AppendGrade(Register(old(subjects), subject), subject, grade.i)
        else Register(old(subjects), subject)
      ensures InRange(old(subjects)) ==> InRange(subjects)
    {
      if subject !in subjects.records {
        subjects := Dict(subjects.keys + [subject], subjects.records[subject := EmptyRecord]);
      }
      RegisterInRange(old(subjects), subject);
      if !IsGrade(grade) {
        return Raised(ValueError);
      }
      var rec := subjects.records[subject];
      AppendGradeInRange(subjects, subject, grade.i);
      subjects := Dict(subjects.keys, subjects.records[subject := rec.(grades := rec.grades + [grade.i])]);
      return Done;
    }

    /** `add_test_score`: registers the subject first, then appends the
        score if it is an integer in 0..100 and raises `ValueError` otherwise. */
    method AddTestScore(subject: string, score: Value) returns (st: Status)
      requires Valid()
      modifies this`subjects
      ensures Valid()
      ensures st == if IsTestScore(score) then Done else Raised(ValueError)
      ensures subjects == if IsTestScore(score)
        then AppendTestScore(Register(old(subjects), subject), subject, score.i)
        else Register(old(subjects), subject)
      ensures InRange(old(subjects)) ==> InRange(subjects)
    {
      if subject !in subjects.records {
        subjects := Dict(subjects.keys + [subject], subjects.records[subject := EmptyRecord]);
      }
      RegisterInRange(old(subjects), subject);
      if !IsTestScore(score) {
        return Raised(ValueError);
      }
      var rec := subjects.records[subject];
      AppendTestScoreInRange(subjects, subject, score.i);
      subjects := Dict(subjects.keys, subjects.records[subject := rec.(testScores := rec.testScores + [score.i])]);
      return Done;
    }

    /** `get_average_test_score`: `ValueError` for an unregistered subject,
        `0` when it has no scores, otherwise the mean of its scores. */
    function AverageTestScore(subject: string): (r: Result<real>)
      reads this
      ensures subject !in subjects.records <==> r == Err(ValueError)
      ensures r.Ok? ==> r.value == Mean(subjects.records[subject].testScores)
      ensures r.Ok? && subjects.records[subject].testScores == [] ==> r.value == 0.0
      ensures r.Ok? && subjects.records[subject].testScores != [] ==>
        r.value * (|subjects.records[subject].testScores| as real) == Sum(subjects.records[subject].testScores) as real
      ensures r.Ok? && InRange(subjects) ==> 0.0 <= r.value <= 100.0
    {
      if subject !in subjects.records then Err(ValueError)
      else
        var scores := subjects.records[subject].testScores;
        if |scores| == 0 then Ok(0.0)
        else
          MeanTimesCount(scores);
          TestScoreMeanInRange(subjects, subject);
          Ok((Sum(scores) as real) / (|scores| as real))
    }

    /** `get_average_grade`: every subject's grades pooled in insertion
        order; `0` when there are none, otherwise their mean. */
    method AverageGrade() returns (avg: real)
      requires Valid()
      ensures avg == Mean(Pooled(subjects))
      ensures Pooled(subjects) == [] ==> avg == 0.0
      ensures InRange(subjects) && Pooled(subjects) != [] ==> 2.0 <= avg <= 5.0
    {
      var total: seq<int> := [];
      var i := 0;
      while i < |subjects.keys|
        invariant 0 <= i <= |subjects.keys|
        invariant total == PooledUpTo(subjects, i)
      {
        var grades := subjects.records[subjects.keys[i]].grades;
        if |grades| > 0 {
          total := total + grades;
        } else {
          assert total + grades == total;
        }
        i := i + 1;
      }
      assert total == Pooled(subjects);
      if |total| == 0 {
        return 0.0;
      }
      if InRange(subjects) {
        PooledMeanInRange(subjects);
      }
      return (Sum(total) as real) / (|total| as real);
    }

    /** `save_subjects`: one row per subject in insertion order, and a log
        entry for each subject with a grade or a test score. */
    method Save() returns (rows: seq<seq<string>>, log: seq<LogEntry>)
      requires Valid()
      ensures rows == SaveRows(subjects)
      ensures log == SaveLog(subjects)
    {
      rows, log := [], [];
      var i := 0;
      while i < |subjects.keys|
        invariant 0 <= i <= |subjects.keys|
        invariant rows == RowsUpTo(subjects, i)
        invariant log == LogUpTo(subjects, i)
      {
        var subject := subjects.keys[i];
        var values := subjects.records[subject];
        rows := rows + [[subject, JoinInts(values.grades), JoinInts(values.testScores)]];
        assert rows == RowsUpTo(subjects, i + 1);
        if values.grades != [] || values.testScores != [] {
          log := log + [LogEntry(subject, values.grades, values.testScores)];
        }
        assert log == LogUpTo(subjects, i + 1);
        i := i + 1;
      }
    }
  }
}
