/**
 * The student's `subjects` dict as a value: an insertion-ordered map from
 * subject name to its record, and the specification functions for what the
 * store's operations do to it (register, append, load rows, write rows,
 * pool grades), with the lemmas stating their properties.
 */
module Subjects {
  import opened Outcomes
  import opened Text

  /** One subject's record: its `grades` and its `test_scores`, in insertion order. */
  datatype SubjectRecord = SubjectRecord(grades: seq<int>, testScores: seq<int>)

  /** The record a subject gets when it is first registered. */
  const EmptyRecord := SubjectRecord([], [])

  /** No name occurs twice in `ks`. */
  predicate Distinct(ks: seq<string>)
  {
    forall i, j :: 0 <= i < j < |ks| ==> ks[i] != ks[j]
  }

  /** A Python dict from subject name to record: `keys` is the insertion
      order, `records` the mapping. */
  datatype Dict = Dict(keys: seq<string>, records: map<string, SubjectRecord>)
  {
    /** Every key occurs once in the order, and the order lists exactly the keys. */
    ghost predicate WellFormed()
    {
      && Distinct(keys)
      && (forall k :: k in records <==> k in keys)
    }
  }

  /** `{}` */
  const EmptyDict := Dict([], map[])

  /** Every record in `d` is empty. */
  ghost predicate AllEmpty(d: Dict)
  {
    forall k :: k in d.records ==> d.records[k] == EmptyRecord
  }

  /** Every element of `xs` lies in `lo..hi`. */
  predicate Bounded(xs: seq<int>, lo: int, hi: int)
  {
    forall i :: 0 <= i < |xs| ==> lo <= xs[i] <= hi
  }

  /** Every stored grade lies in 2..5 and every stored test score in 0..100:
      what the validated appends guarantee. */
  ghost predicate InRange(d: Dict)
  {
    forall k :: k in d.records ==> Bounded(d.records[k].grades, 2, 5) && Bounded(d.records[k].testScores, 0, 100)
  }

  /** `if subject not in subjects: subjects[subject] = {'grades': [], 'test_scores': []}` */
  function Register(d: Dict, subject: string): (r: Dict)
    requires d.WellFormed()
    ensures r.WellFormed()
    ensures r.records.Keys == d.records.Keys + {subject}
    ensures forall k :: k in d.records ==> r.records[k] == d.records[k]
    ensures subject !in d.records ==> r.records[subject] == EmptyRecord && r.keys == d.keys + [subject]
    ensures subject in d.records ==> r == d
  {
    if subject in d.records then d
    else Dict(d.keys + [subject], d.records[subject := EmptyRecord])
  }

  /** `subjects[subject]['grades'].append(g)` */
  function AppendGrade(d: Dict, subject: string, g: int): (r: Dict)
    requires d.WellFormed() && subject in d.records
    ensures r.WellFormed() && r.keys == d.keys && r.records.Keys == d.records.Keys
    ensures r.records[subject].grades == d.records[subject].grades + [g]
    ensures r.records[subject].testScores == d.records[subject].testScores
    ensures forall k :: k in d.records && k != subject ==> r.records[k] == d.records[k]
  {
    var rec := d.records[subject];
    Dict(d.keys, d.records[subject := rec.(grades := rec.grades + [g])])
  }

  /** `subjects[subject]['test_scores'].append(t)` */
  function AppendTestScore(d: Dict, subject: string, t: int): (r: Dict)
    requires d.WellFormed() && subject in d.records
    ensures r.WellFormed() && r.keys == d.keys && r.records.Keys == d.records.Keys
    ensures r.records[subject].testScores == d.records[subject].testScores + [t]
    ensures r.records[subject].grades == d.records[subject].grades
    ensures forall k :: k in d.records && k != subject ==> r.records[k] == d.records[k]
  {
    var rec := d.records[subject];
    Dict(d.keys, d.records[subject := rec.(testScores := rec.testScores + [t])])
  }

  /** Registering keeps the stored values in range. */
  lemma RegisterInRange(d: Dict, subject: string)
    requires d.WellFormed()
    ensures InRange(d) ==> InRange(Register(d, subject))
  {
    var r := Register(d, subject);
    if InRange(d) {
      forall k | k in r.records
        ensures Bounded(r.records[k].grades, 2, 5) && Bounded(r.records[k].testScores, 0, 100)
      {
        if k !in d.records {
          assert r.records[k] == EmptyRecord;
        }
      }
    }
  }

  /** Appending a grade in 2..5 keeps the stored values in range. */
  lemma AppendGradeInRange(d: Dict, subject: string, g: int)
    requires d.WellFormed() && subject in d.records && 2 <= g <= 5
    ensures InRange(d) ==> InRange(AppendGrade(d, subject, g))
  {
    if InRange(d) {
      var r := AppendGrade(d, subject, g);
      var gs := d.records[subject].grades;
      assert Bounded(gs, 2, 5);
      assert forall i :: 0 <= i < |gs| ==> (gs + [g])[i] == gs[i];
      assert Bounded(r.records[subject].grades, 2, 5);
    }
  }

  /** Appending a test score in 0..100 keeps the stored values in range. */
  lemma AppendTestScoreInRange(d: Dict, subject: string, t: int)
    requires d.WellFormed() && subject in d.records && 0 <= t <= 100
    ensures InRange(d) ==> InRange(AppendTestScore(d, subject, t))
  {
    if InRange(d) {
      var r := AppendTestScore(d, subject, t);
      var ts := d.records[subject].testScores;
      assert Bounded(ts, 0, 100);
      assert forall i :: 0 <= i < |ts| ==> (ts + [t])[i] == ts[i];
      assert Bounded(r.records[subject].testScores, 0, 100);
    }
  }

  // ---------------------------------------------------------------- loading

  /** Every row has a first field. */
  predicate NoEmptyRow(rows: seq<seq<string>>)
  {
    forall i :: 0 <= i < |rows| ==> |rows[i]| > 0
  }

  /** Where `row[0]` first raises `IndexError`: the index of the first empty
      row, or the number of rows when there is none. */
  function FirstEmptyRow(rows: seq<seq<string>>): (n: nat)
    ensures n <= |rows|
    ensures forall i :: 0 <= i < n ==> rows[i] != []
    ensures n < |rows| ==> rows[n] == []
    decreases |rows|
  {
    if |rows| == 0 || |rows[0]| == 0 then 0 else 1 + FirstEmptyRow(rows[1..])
  }

  /** With no empty row, `row[0]` never raises. */
  lemma FirstEmptyRowNone(rows: seq<seq<string>>)
    requires NoEmptyRow(rows)
    ensures FirstEmptyRow(rows) == |rows|
  {
  }

  /** `FirstEmptyRow` is the first index whose row is empty. */
  lemma FirstEmptyRowAt(rows: seq<seq<string>>, i: nat)
    requires i < |rows| && rows[i] == [] && NoEmptyRow(rows[..i])
    ensures FirstEmptyRow(rows) == i
  {
  }

  /** One more non-empty row keeps the prefix free of empty rows. */
  lemma NoEmptyRowSnoc(rows: seq<seq<string>>, i: nat)
    requires i < |rows| && NoEmptyRow(rows[..i]) && rows[i] != []
    ensures NoEmptyRow(rows[..i + 1])
  {
    assert forall j :: 0 <= j < i ==> rows[..i + 1][j] == rows[..i][j];
  }

  /** Loading one more row registers its first field. */
  lemma LoadedSnoc(d: Dict, rows: seq<seq<string>>, i: nat)
    requires d.WellFormed() && i < |rows| && NoEmptyRow(rows[..i + 1])
    ensures NoEmptyRow(rows[..i])
    ensures Loaded(d, rows[..i + 1]) == Register(Loaded(d, rows[..i]), rows[i][0])
  {
    assert rows[..i + 1][..i] == rows[..i];
    assert forall j :: 0 <= j < i ==> rows[..i][j] == rows[..i + 1][j];
  }

  /** The subjects named by the rows' first fields. */
  function Firsts(rows: seq<seq<string>>): (r: set<string>)
    requires NoEmptyRow(rows)
    ensures forall i :: 0 <= i < |rows| ==> rows[i][0] in r
    decreases |rows|
  {
    if |rows| == 0 then {}
    else
      var front := rows[..|rows| - 1];
      assert forall i :: 0 <= i < |front| ==> front[i] == rows[i];
      Firsts(front) + {rows[|rows| - 1][0]}
  }

  /** Only first fields are among the loaded subjects. */
  lemma {:induction false} FirstsOnly(rows: seq<seq<string>>, x: string)
    requires NoEmptyRow(rows) && x in Firsts(rows)
    ensures exists i :: 0 <= i < |rows| && rows[i][0] == x
    decreases |rows|
  {
    var front := rows[..|rows| - 1];
    if x != rows[|rows| - 1][0] {
      FirstsOnly(front, x);
      var i :| 0 <= i < |front| && front[i][0] == x;
      assert rows[i] == front[i];
    }
  }

  /** The loop of `load_subjects`: each row's first field is registered, in
      row order. */
  function Loaded(d: Dict, rows: seq<seq<string>>): (r: Dict)
    requires d.WellFormed() && NoEmptyRow(rows)
    ensures r.WellFormed()
    decreases |rows|
  {
    if |rows| == 0 then d
    else Register(Loaded(d, rows[..|rows| - 1]), rows[|rows| - 1][0])
  }

  /** Loading adds exactly the rows' first fields as keys, appends new keys
      after the existing ones, leaves existing records alone and gives every
      new key an empty record. */
  lemma LoadedEffect(d: Dict, rows: seq<seq<string>>)
    requires d.WellFormed() && NoEmptyRow(rows)
    ensures Loaded(d, rows).records.Keys == d.records.Keys + Firsts(rows)
    ensures forall k :: k in d.records ==> Loaded(d, rows).records[k] == d.records[k]
    ensures forall k :: k in Loaded(d, rows).records && k !in d.records ==> Loaded(d, rows).records[k] == EmptyRecord
    ensures d.keys <= Loaded(d, rows).keys
  {
    LoadedKeys(d, rows);
    LoadedRecords(d, rows);
  }

  /** The key part of `LoadedEffect`. */
  lemma {:induction false} LoadedKeys(d: Dict, rows: seq<seq<string>>)
    requires d.WellFormed() && NoEmptyRow(rows)
    ensures Loaded(d, rows).records.Keys == d.records.Keys + Firsts(rows)
    ensures d.keys <= Loaded(d, rows).keys
    decreases |rows|
  {
    if |rows| > 0 {
      LoadedLast(d, rows);
      LoadedKeys(d, rows[..|rows| - 1]);
    }
  }

  /** The record part of `LoadedEffect`. */
  lemma {:induction false} LoadedRecords(d: Dict, rows: seq<seq<string>>)
    requires d.WellFormed() && NoEmptyRow(rows)
    ensures forall k :: k in d.records ==> k in Loaded(d, rows).records && Loaded(d, rows).records[k] == d.records[k]
    ensures forall k :: k in Loaded(d, rows).records && k !in d.records ==> Loaded(d, rows).records[k] == EmptyRecord
    decreases |rows|
  {
    if |rows| > 0 {
      LoadedLast(d, rows);
      LoadedRecords(d, rows[..|rows| - 1]);
    }
  }

  /** Loading a non-empty row list is loading all but its last row, then
      registering the last row's first field. */
  lemma LoadedLast(d: Dict, rows: seq<seq<string>>)
    requires d.WellFormed() && NoEmptyRow(rows) && |rows| > 0
    ensures NoEmptyRow(rows[..|rows| - 1])
    ensures Loaded(d, rows) == Register(Loaded(d, rows[..|rows| - 1]), rows[|rows| - 1][0])
    ensures Firsts(rows) == Firsts(rows[..|rows| - 1]) + {rows[|rows| - 1][0]}
  {
  }

  /** Rows whose subjects are all registered already change nothing. */
  lemma {:induction false} LoadKnown(e: Dict, rows: seq<seq<string>>)
    requires e.WellFormed() && NoEmptyRow(rows) && Firsts(rows) <= e.records.Keys
    ensures Loaded(e, rows) == e
    decreases |rows|
  {
    if |rows| > 0 {
      LoadKnown(e, rows[..|rows| - 1]);
    }
  }

  /** Loading the same rows twice is the same as loading them once. */
  lemma LoadIdempotent(d: Dict, rows: seq<seq<string>>)
    requires d.WellFormed() && NoEmptyRow(rows)
    ensures Loaded(Loaded(d, rows), rows) == Loaded(d, rows)
  {
    LoadedEffect(d, rows);
    LoadKnown(Loaded(d, rows), rows);
  }

  // ----------------------------------------------------------------- saving

  /** The row `save_subjects` writes for one subject:
      `[subject, ','.join(map(str, grades)), ','.join(map(str, test_scores))]`. */
  function SaveRow(subject: string, rec: SubjectRecord): seq<string>
  {
    [subject, JoinInts(rec.grades), JoinInts(rec.testScores)]
  }

  /** The rows written for the first `n` subjects. */
  function RowsUpTo(d: Dict, n: nat): (rows: seq<seq<string>>)
    requires d.WellFormed() && n <= |d.keys|
    ensures |rows| == n
    decreases n
  {
    if n == 0 then [] else RowsUpTo(d, n - 1) + [SaveRow(d.keys[n - 1], d.records[d.keys[n - 1]])]
  }

  /** The whole file `save_subjects` writes. */
  function SaveRows(d: Dict): seq<seq<string>>
    requires d.WellFormed()
  {
    RowsUpTo(d, |d.keys|)
  }

  lemma {:induction false} RowsUpToAt(d: Dict, n: nat)
    requires d.WellFormed() && n <= |d.keys|
    ensures forall i :: 0 <= i < n ==> RowsUpTo(d, n)[i] == SaveRow(d.keys[i], d.records[d.keys[i]])
    decreases n
  {
    if n > 0 {
      RowsUpToAt(d, n - 1);
    }
  }

  /** The file holds one row per subject, in insertion order, each row the
      subject's name, its grades and its test scores. */
  lemma SaveRowsShape(d: Dict)
    requires d.WellFormed()
    ensures |SaveRows(d)| == |d.keys|
    ensures forall i :: 0 <= i < |d.keys| ==> SaveRows(d)[i] == SaveRow(d.keys[i], d.records[d.keys[i]])
  {
    RowsUpToAt(d, |d.keys|);
  }

  /** Row `i` of `rows` starts with `ks[i]`, for every row. */
  predicate FirstFieldsAre(rows: seq<seq<string>>, ks: seq<string>)
  {
    |rows| == |ks| && forall i :: 0 <= i < |rows| ==> |rows[i]| > 0 && rows[i][0] == ks[i]
  }

  /** Dropping the last row keeps both conditions on the rest. */
  lemma FrontRows(rows: seq<seq<string>>, ks: seq<string>)
    requires FirstFieldsAre(rows, ks) && Distinct(ks) && |rows| > 0
    ensures FirstFieldsAre(rows[..|rows| - 1], ks[..|ks| - 1])
    ensures Distinct(ks[..|ks| - 1])
    ensures ks[|ks| - 1] !in ks[..|ks| - 1]
    ensures ks[..|ks| - 1] + [ks[|ks| - 1]] == ks
  {
    var m := |ks| - 1;
    assert forall i :: 0 <= i < m ==> ks[..m][i] == ks[i];
    assert forall i :: 0 <= i < m ==> rows[..m][i] == rows[i];
  }

  /** Registering a name not yet present appends it and keeps every record empty. */
  lemma RegisterNewEmpty(before: Dict, ks: seq<string>, k: string)
    requires before.WellFormed() && before.keys == ks && k !in ks && AllEmpty(before)
    ensures Register(before, k).keys == ks + [k]
    ensures AllEmpty(Register(before, k))
  {
  }

  /** Rows whose first fields are distinct names load, into an empty dict,
      as exactly those names in row order, each with an empty record. */
  lemma {:induction false} LoadDistinct(rows: seq<seq<string>>, ks: seq<string>)
    requires FirstFieldsAre(rows, ks) && Distinct(ks)
    ensures NoEmptyRow(rows)
    ensures Loaded(EmptyDict, rows).keys == ks
    ensures AllEmpty(Loaded(EmptyDict, rows))
    decreases |rows|
  {
    if |rows| > 0 {
      var m := |rows| - 1;
      FrontRows(rows, ks);
      LoadDistinct(rows[..m], ks[..m]);
      RegisterNewEmpty(Loaded(EmptyDict, rows[..m]), ks[..m], ks[m]);
    }
  }

  /** Loading a saved file into an empty dict gives back every subject, in
      the same order, each with an empty record. */
  lemma SaveThenLoad(d: Dict)
    requires d.WellFormed()
    ensures NoEmptyRow(SaveRows(d))
    ensures Loaded(EmptyDict, SaveRows(d)).keys == d.keys
    ensures Loaded(EmptyDict, SaveRows(d)).records.Keys == d.records.Keys
    ensures AllEmpty(Loaded(EmptyDict, SaveRows(d)))
  {
    SaveRowsShape(d);
    LoadDistinct(SaveRows(d), d.keys);
    SameKeys(Loaded(EmptyDict, SaveRows(d)), d);
  }

  /** Two dicts with the same order have the same keys. */
  lemma SameKeys(a: Dict, b: Dict)
    requires a.WellFormed() && b.WellFormed() && a.keys == b.keys
    ensures a.records.Keys == b.records.Keys
  {
  }

  /** Each written row holds its subject's grades and test scores in full:
      its second and third fields parse back to the lists. */
  lemma SavedRowsDecode(d: Dict, i: nat)
    requires d.WellFormed() && i < |d.keys|
    ensures |SaveRows(d)[i]| == 3 && SaveRows(d)[i][0] == d.keys[i]
    ensures ParseInts(SaveRows(d)[i][1]) == Some(d.records[d.keys[i]].grades)
    ensures ParseInts(SaveRows(d)[i][2]) == Some(d.records[d.keys[i]].testScores)
  {
    SaveRowsShape(d);
    FieldRoundTrip(d.records[d.keys[i]].grades);
    FieldRoundTrip(d.records[d.keys[i]].testScores);
  }

  /** A record with a grade or a test score in it. */
  predicate HasEntries(rec: SubjectRecord)
  {
    rec.grades != [] || rec.testScores != []
  }

  /** What `logging.info` records for a written subject. */
  datatype LogEntry = LogEntry(subject: string, grades: seq<int>, testScores: seq<int>)

  /** The entry names a subject with a grade or a test score, and carries
      that subject's lists. */
  ghost predicate LoggedFaithfully(d: Dict, e: LogEntry)
  {
    e.subject in d.records && d.records[e.subject] == SubjectRecord(e.grades, e.testScores)
    && HasEntries(d.records[e.subject])
  }

  /** The log entries written for the first `n` subjects. */
  function LogUpTo(d: Dict, n: nat): seq<LogEntry>
    requires d.WellFormed() && n <= |d.keys|
    decreases n
  {
    if n == 0 then []
    else
      var k := d.keys[n - 1];
      var rec := d.records[k];
      LogUpTo(d, n - 1) + if HasEntries(rec) then [LogEntry(k, rec.grades, rec.testScores)] else []
  }

  lemma {:induction false} LogUpToSound(d: Dict, n: nat)
    requires d.WellFormed() && n <= |d.keys|
    ensures forall i :: 0 <= i < |LogUpTo(d, n)| ==> LoggedFaithfully(d, LogUpTo(d, n)[i])
    decreases n
  {
    if n > 0 {
      LogUpToSound(d, n - 1);
    }
  }

  lemma {:induction false} LogUpToComplete(d: Dict, n: nat, j: nat)
    requires d.WellFormed() && j < n <= |d.keys| && HasEntries(d.records[d.keys[j]])
    ensures exists i :: 0 <= i < |LogUpTo(d, n)| && LogUpTo(d, n)[i].subject == d.keys[j]
    decreases n
  {
    var front := LogUpTo(d, n - 1);
    if j < n - 1 {
      LogUpToComplete(d, n - 1, j);
      var i :| 0 <= i < |front| && front[i].subject == d.keys[j];
      assert LogUpTo(d, n)[i] == front[i];
    } else {
      assert LogUpTo(d, n)[|front|].subject == d.keys[j];
    }
  }

  /** The log `save_subjects` writes: one entry per subject that has a grade
      or a test score, in insertion order. */
  function SaveLog(d: Dict): seq<LogEntry>
    requires d.WellFormed()
  {
    LogUpTo(d, |d.keys|)
  }

  /** Exactly the subjects with a grade or a test score are logged, each with
      its own lists. */
  lemma SaveLogIff(d: Dict, subject: string)
    requires d.WellFormed()
    ensures (exists i :: 0 <= i < |SaveLog(d)| && SaveLog(d)[i].subject == subject) <==>
      subject in d.records && HasEntries(d.records[subject])
    ensures forall i :: 0 <= i < |SaveLog(d)| ==> LoggedFaithfully(d, SaveLog(d)[i])
  {
    LogUpToSound(d, |d.keys|);
    if exists i :: 0 <= i < |SaveLog(d)| && SaveLog(d)[i].subject == subject {
      var i :| 0 <= i < |SaveLog(d)| && SaveLog(d)[i].subject == subject;
      assert LoggedFaithfully(d, SaveLog(d)[i]);
    }
    if subject in d.records && HasEntries(d.records[subject]) {
      var j :| 0 <= j < |d.keys| && d.keys[j] == subject;
      LogUpToComplete(d, |d.keys|, j);
      var i :| 0 <= i < |LogUpTo(d, |d.keys|)| && LogUpTo(d, |d.keys|)[i].subject == subject;
      assert SaveLog(d)[i].subject == subject;
    }
  }

  /** Writing a dict whose records are all empty writes empty grade and
      score fields and logs nothing. */
  lemma SaveAllEmpty(d: Dict)
    requires d.WellFormed() && AllEmpty(d)
    ensures forall i :: 0 <= i < |SaveRows(d)| ==> |SaveRows(d)[i]| == 3 && SaveRows(d)[i][1] == "" && SaveRows(d)[i][2] == ""
    ensures SaveLog(d) == []
  {
    var out := SaveRows(d);
    SaveRowsShape(d);
    forall i | 0 <= i < |out| ensures |out[i]| == 3 && out[i][1] == "" && out[i][2] == "" {
      assert d.keys[i] in d.records;
      assert out[i] == SaveRow(d.keys[i], EmptyRecord);
    }
    LogUpToNone(d, |d.keys|);
  }

  lemma {:induction false} LogUpToNone(d: Dict, n: nat)
    requires d.WellFormed() && n <= |d.keys| && AllEmpty(d)
    ensures LogUpTo(d, n) == []
    decreases n
  {
    if n > 0 {
      LogUpToNone(d, n - 1);
      assert d.keys[n - 1] in d.records;
    }
  }

  /** Loading a file and writing it back writes only empty grade and score
      fields and logs nothing: the lists a file held are not carried over. */
  lemma LoadThenSaveClears(rows: seq<seq<string>>)
    requires NoEmptyRow(rows)
    ensures forall i :: 0 <= i < |SaveRows(Loaded(EmptyDict, rows))| ==>
      |SaveRows(Loaded(EmptyDict, rows))[i]| == 3 &&
      SaveRows(Loaded(EmptyDict, rows))[i][1] == "" && SaveRows(Loaded(EmptyDict, rows))[i][2] == ""
    ensures SaveLog(Loaded(EmptyDict, rows)) == []
  {
    LoadedEffect(EmptyDict, rows);
    SaveAllEmpty(Loaded(EmptyDict, rows));
  }

  // -------------------------------------------------------------- averages

  /** `sum(xs)` */
  function Sum(xs: seq<int>): int
    decreases |xs|
  {
    if |xs| == 0 then 0 else Sum(xs[..|xs| - 1]) + xs[|xs| - 1]
  }

  /** `sum(xs) / len(xs)`, and `0` for the empty list. */
  function Mean(xs: seq<int>): real
  {
    if |xs| == 0 then 0.0 else (Sum(xs) as real) / (|xs| as real)
  }

  lemma {:induction false} SumConcat(xs: seq<int>, ys: seq<int>)
    ensures Sum(xs + ys) == Sum(xs) + Sum(ys)
    decreases |ys|
  {
    if |ys| > 0 {
      assert (xs + ys)[..|xs + ys| - 1] == xs + ys[..|ys| - 1];
      assert (xs + ys)[|xs + ys| - 1] == ys[|ys| - 1];
      assert Sum(xs + ys) == Sum(xs + ys[..|ys| - 1]) + ys[|ys| - 1];
      SumConcat(xs, ys[..|ys| - 1]);
    } else {
      assert xs + ys == xs;
    }
  }

  lemma {:induction false} SumBounds(xs: seq<int>, lo: int, hi: int)
    requires Bounded(xs, lo, hi)
    ensures lo * |xs| <= Sum(xs) <= hi * |xs|
    decreases |xs|
  {
    if |xs| > 0 {
      var front := xs[..|xs| - 1];
      assert Bounded(front, lo, hi);
      SumBounds(front, lo, hi);
      assert lo * |xs| == lo * |front| + lo;
      assert hi * |xs| == hi * |front| + hi;
    }
  }

  /** The mean times the count is the sum. */
  lemma MeanTimesCount(xs: seq<int>)
    requires |xs| > 0
    ensures Mean(xs) * (|xs| as real) == Sum(xs) as real
  {
  }

  /** A quotient by a positive count inherits integer bounds on the dividend. */
  lemma DivideBounds(total: int, count: int, lo: int, hi: int)
    requires count > 0 && lo * count <= total <= hi * count
    ensures lo as real <= (total as real) / (count as real) <= hi as real
  {
  }

  /** The mean of a non-empty list lies within any bounds of its elements. */
  lemma MeanBounds(xs: seq<int>, lo: int, hi: int)
    requires |xs| > 0 && Bounded(xs, lo, hi)
    ensures lo as real <= Mean(xs) <= hi as real
  {
    SumBounds(xs, lo, hi);
    DivideBounds(Sum(xs), |xs|, lo, hi);
  }

  /** When every stored test score is valid, a subject's average test score
      lies in 0..100. */
  lemma TestScoreMeanInRange(d: Dict, subject: string)
    requires subject in d.records && d.records[subject].testScores != []
    ensures InRange(d) ==> 0.0 <= Mean(d.records[subject].testScores) <= 100.0
  {
    if InRange(d) {
      MeanBounds(d.records[subject].testScores, 0, 100);
    }
  }

  /** The pooled grades of the first `n` subjects, concatenated in insertion
      order: the `total_grades` list of `get_average_grade`. */
  function PooledUpTo(d: Dict, n: nat): seq<int>
    requires d.WellFormed() && n <= |d.keys|
    decreases n
  {
    if n == 0 then [] else PooledUpTo(d, n - 1) + d.records[d.keys[n - 1]].grades
  }

  /** Every grade of every subject, concatenated in insertion order. */
  function Pooled(d: Dict): seq<int>
    requires d.WellFormed()
  {
    PooledUpTo(d, |d.keys|)
  }

  /** The first `n` subjects' grade sums and counts, added up subject by subject. */
  function GradeTotals(d: Dict, n: nat): (int, nat)
    requires d.WellFormed() && n <= |d.keys|
    decreases n
  {
    if n == 0 then (0, 0)
    else
      var (s, c) := GradeTotals(d, n - 1);
      var gs := d.records[d.keys[n - 1]].grades;
      (s + Sum(gs), c + |gs|)
  }

  lemma {:induction false} PooledUpToTotals(d: Dict, n: nat)
    requires d.WellFormed() && n <= |d.keys|
    ensures (Sum(PooledUpTo(d, n)), |PooledUpTo(d, n)|) == GradeTotals(d, n)
    decreases n
  {
    if n > 0 {
      PooledUpToTotals(d, n - 1);
      SumConcat(PooledUpTo(d, n - 1), d.records[d.keys[n - 1]].grades);
    }
  }

  /** The average grade is weighted by grade count: its numerator and
      denominator are the sums, over subjects, of each subject's grade sum
      and grade count. */
  lemma PooledIsWeighted(d: Dict)
    requires d.WellFormed()
    ensures Sum(Pooled(d)) == GradeTotals(d, |d.keys|).0 && |Pooled(d)| == GradeTotals(d, |d.keys|).1
    ensures Pooled(d) != [] ==>
      GradeTotals(d, |d.keys|).1 > 0 &&
      Mean(Pooled(d)) == (GradeTotals(d, |d.keys|).0 as real) / (GradeTotals(d, |d.keys|).1 as real)
  {
    PooledUpToTotals(d, |d.keys|);
  }

  /** A subject with more grades weighs more: two grades of 4 and one of 2
      average to 10/3, not to the mean of the two subject means, 3. */
  lemma PooledIsNotMeanOfMeans()
    ensures var d := Dict(["Math", "History"], map["Math" := SubjectRecord([4, 4], []), "History" := SubjectRecord([2], [])]);
      d.WellFormed() && Mean(Pooled(d)) == 10.0 / 3.0 && (Mean([4, 4]) + Mean([2])) / 2.0 == 3.0
  {
    var d := Dict(["Math", "History"], map["Math" := SubjectRecord([4, 4], []), "History" := SubjectRecord([2], [])]);
    assert PooledUpTo(d, 1) == [4, 4];
    assert Pooled(d) == [4, 4] + [2];
    assert Sum([4, 4, 2]) == 10 by {
      assert [4, 4, 2][..2] == [4, 4];
      assert [4, 4][..1] == [4];
    }
    assert Sum([4, 4]) == 8 by {
      assert [4, 4][..1] == [4];
    }
  }

  lemma {:induction false} PooledUpToEmpty(d: Dict, n: nat)
    requires d.WellFormed() && n <= |d.keys|
    ensures PooledUpTo(d, n) == [] <==> forall j :: 0 <= j < n ==> d.records[d.keys[j]].grades == []
    decreases n
  {
    if n > 0 {
      PooledUpToEmpty(d, n - 1);
    }
  }

  /** There is nothing to average exactly when no subject has a grade. */
  lemma PooledEmpty(d: Dict)
    requires d.WellFormed()
    ensures Pooled(d) == [] <==> forall k :: k in d.records ==> d.records[k].grades == []
  {
    PooledUpToEmpty(d, |d.keys|);
    if Pooled(d) == [] {
      forall k | k in d.records ensures d.records[k].grades == [] {
        var j :| 0 <= j < |d.keys| && d.keys[j] == k;
      }
    }
  }

  lemma {:induction false} PooledUpToBounded(d: Dict, n: nat)
    requires d.WellFormed() && n <= |d.keys| && InRange(d)
    ensures Bounded(PooledUpTo(d, n), 2, 5)
    decreases n
  {
    if n > 0 {
      PooledUpToBounded(d, n - 1);
      var xs, ys := PooledUpTo(d, n - 1), d.records[d.keys[n - 1]].grades;
      assert Bounded(ys, 2, 5);
      assert forall i :: 0 <= i < |xs + ys| ==> (xs + ys)[i] == if i < |xs| then xs[i] else ys[i - |xs|];
    }
  }

  /** When every stored grade is valid, the average grade lies in 2..5. */
  lemma PooledMeanInRange(d: Dict)
    requires d.WellFormed() && InRange(d) && Pooled(d) != []
    ensures 2.0 <= Mean(Pooled(d)) <= 5.0
  {
    PooledUpToBounded(d, |d.keys|);
    MeanBounds(Pooled(d), 2, 5);
  }
}
