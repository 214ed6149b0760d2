# Student record store — a Dafny model

This project models the `Student` class of `taskDZ1.py`. A student has a
validated full name and a `subjects` dict that maps each subject name to two
integer lists, `grades` and `test_scores`, in insertion order. The class
supports these operations:

- assign the name, which checks it;
- register a subject and append a grade (2..5) or a test score (0..100);
- average the test scores of one subject;
- average all grades, pooled across subjects;
- look a subject up;
- render the student as text;
- load subject names from CSV rows and write the subjects back as rows,
  logging the subjects that have entries.

The constructor checks the name, loads the file and then writes it back.

The model has five modules:

- `Outcomes` (`outcomes.dfy`): the exceptions the class raises, and the
  `Result`, `Status` and `Option` wrappers that carry them.
- `Text` (`text.dfy`): `sep.join`, `str.split` and `str(int)`, with parsers
  proving that a written grade or score field loses nothing.
- `Names` (`names.dfy`): the name check (`isalpha` on the name with its
  spaces removed, and `istitle`), proved equal to a plain description of a
  well-formed name.
- `Subjects` (`subjects.dfy`): the insertion-ordered dict as a value (`Dict`
  is a key order plus a map), and the specification functions for
  registering, appending, loading rows, writing rows and logs, and pooling
  grades, with their lemmas.
- `StudentModel` (`student.dfy`): the `Student` class. Its fields `name` and
  `subjects` are updated in place, and its methods loop as the source does.
  Each method is proved against the specification functions.

A CSV file is a `seq<seq<string>>` of rows. The log is the sequence of
`LogEntry` values that `save_subjects` would pass to `logging.info`.
Exceptions are returned values: `Err(e)` for functions and
`Raised(e)` for methods.

`get_average_test_score` raises `ValueError` for an unregistered subject, so
`Student.AverageTestScore` returns `Err(ValueError)`, not a separate
lookup error.

## Model

| member | source | states |
|---|---|---|
| Names.IsAlpha | taskDZ1.py:40 | `str.isalpha`: at least one character, and every character a letter |
| Names.TitleScan | taskDZ1.py:40 | the left-to-right scan of `str.istitle`: an uppercase letter may not follow a cased character, a lowercase letter must, and some cased character must occur |
| Names.IsTitle | taskDZ1.py:40 | `str.istitle`: the scan started with no cased character seen |
| Names.ValidName | taskDZ1.py:40 | the setter's guard: the space-free value is alphabetic and the value is title case; `ValidNameIff` states what it accepts |
| Names.RemoveSpaces | taskDZ1.py:40 | `value.replace(' ', '')` holds no space, and has every other character as often as the value does |
| Names.AlphaWithoutSpaces | taskDZ1.py:40 | the space-free value is alphabetic iff the value has at least one letter and nothing but letters and spaces |
| Names.ScanFrom | taskDZ1.py:40 | the `istitle` scan from any position accepts iff the rest of the name has each letter uppercase exactly at a word start |
| Names.ValidNameIff | taskDZ1.py:38-42 | the setter accepts a value iff it is letters and spaces, has a letter, and each letter is uppercase exactly when it begins a word |
| Names.ValidNameIsOneLine | taskDZ1.py:40 | an accepted name holds no line break |
| Text.Join | taskDZ1.py:51 | `sep.join(parts)`, used with `', '` at line 51 and `','` at line 97: the parts in order with the separator between neighbours; `SplitJoin` states its inverse |
| Text.Split | taskDZ1.py:51 | `str.split` for a non-empty separator, always at least one piece; the source never splits, this is the inverse used to state what the joins keep |
| Text.IntToStr | taskDZ1.py:97 | `str(n)` for an integer: a minus sign before the digits of a negative number; `IntRoundTrip` states its inverse |
| Text.IntStrs | taskDZ1.py:97 | `map(str, xs)` |
| Text.JoinInts | taskDZ1.py:97 | `','.join(map(str, xs))`, one grades or scores field; `FieldRoundTrip` states its inverse |
| Text.ParseInt | taskDZ1.py:97 | reading an integer back from its text; not in the source, used only to state the round trips |
| Text.ParseInts | taskDZ1.py:97 | reading a written field back into its list, the empty field as the empty list; not in the source, used only to state the round trips |
| Text.SplitAfterPlainPrefix | taskDZ1.py:51 | splitting text whose prefix avoids the separator keeps that prefix whole at the front of the first piece |
| Text.SplitJoin | taskDZ1.py:97 | `split` undoes `join` when no part contains the separator's first character |
| Text.DigitChar | taskDZ1.py:97 | the digit character for 0..9 has that value |
| Text.NatToStr | taskDZ1.py:97 | `str(n)` of a natural number is a non-empty run of digits |
| Text.DigitsOfNat | taskDZ1.py:97 | reading the digits of `str(n)` gives back `n` |
| Text.IntRoundTrip | taskDZ1.py:97 | parsing `str(n)` gives back `n`, negative numbers included |
| Text.IntStrsAvoidComma | taskDZ1.py:97 | no `str(n)` contains a comma |
| Text.ParseAllStrs | taskDZ1.py:97 | parsing each `str(x)` of a list gives back the list |
| Text.JoinIntsEmpty | taskDZ1.py:97 | a joined field is empty iff the list is empty |
| Text.FieldRoundTrip | taskDZ1.py:97 | a written grade or score field parses back to exactly the list it was written from |
| Subjects.Dict.WellFormed | taskDZ1.py:34 | the insertion-ordered dict `Dict` (a key order and a map): every key once in the order, and the order lists exactly the map's keys |
| Subjects.Register | taskDZ1.py:58-59 | registering keeps the dict well formed, adds exactly the subject, keeps every old record, appends a new subject with an empty record and leaves a known one alone |
| Subjects.AppendGrade | taskDZ1.py:66 | the grade goes at the end of that subject's grades; its scores, the keys and every other record are unchanged |
| Subjects.AppendTestScore | taskDZ1.py:73 | the score goes at the end of that subject's test scores; its grades, the keys and every other record are unchanged |
| Subjects.RegisterInRange | taskDZ1.py:62-63 | registering keeps every stored grade in 2..5 and every stored score in 0..100 |
| Subjects.AppendGradeInRange | taskDZ1.py:64-66 | appending a grade that passed the check keeps every stored value in range |
| Subjects.AppendTestScoreInRange | taskDZ1.py:71-73 | appending a score that passed the check keeps every stored value in range |
| Subjects.FirstEmptyRow | taskDZ1.py:56-57 | the index where `row[0]` first fails: every earlier row is non-empty and the row there is empty |
| Subjects.FirstEmptyRowNone | taskDZ1.py:56-57 | with no empty row, `row[0]` never fails |
| Subjects.FirstEmptyRowAt | taskDZ1.py:57 | an empty row after only non-empty rows is where loading fails |
| Subjects.LoadedSnoc | taskDZ1.py:56-59 | loading one more row registers that row's first field |
| Subjects.Firsts | taskDZ1.py:57 | every row's first field is among the loaded names |
| Subjects.FirstsOnly | taskDZ1.py:57 | only rows' first fields are among the loaded names |
| Subjects.Loaded | taskDZ1.py:53-59 | loading rows keeps the dict well formed |
| Subjects.LoadedEffect | taskDZ1.py:53-59 | loading adds exactly the rows' first fields as keys, after the existing ones, keeps existing records and gives new keys empty records |
| Subjects.LoadedLast | taskDZ1.py:56-59 | loading rows is loading all but the last, then registering the last row's first field |
| Subjects.LoadedKeys | taskDZ1.py:56-59 | the key part of `LoadedEffect` |
| Subjects.LoadedRecords | taskDZ1.py:58-59 | the record part of `LoadedEffect` |
| Subjects.LoadKnown | taskDZ1.py:58 | rows naming only registered subjects change nothing |
| Subjects.LoadIdempotent | taskDZ1.py:53-59 | loading the same rows twice equals loading them once |
| Subjects.SaveRow | taskDZ1.py:97 | the row written for one subject: its name, its joined grades and its joined test scores |
| Subjects.SaveRows | taskDZ1.py:96-97 | the whole file written: the rows of all subjects in insertion order; `SaveRowsShape` and `SaveThenLoad` state its properties |
| Subjects.RowsUpTo | taskDZ1.py:96-97 | the first `n` subjects give `n` rows |
| Subjects.RowsUpToAt | taskDZ1.py:96-97 | row `i` is the `i`-th subject's name, joined grades and joined scores |
| Subjects.SaveRowsShape | taskDZ1.py:96-97 | one three-field row per subject, in insertion order |
| Subjects.LoadDistinct | taskDZ1.py:53-59 | rows starting with distinct names load, into an empty dict, as exactly those names in row order with empty records |
| Subjects.SaveThenLoad | taskDZ1.py:93-97 | loading the written rows into an empty dict gives back the same subjects in the same order, each with empty lists |
| Subjects.SavedRowsDecode | taskDZ1.py:97 | each written row names its subject, and its fields parse back to its grades and test scores |
| Subjects.LogUpTo | taskDZ1.py:96-99 | the `LogEntry` values (subject, grades, test scores) written for the first `n` subjects, one for each subject with a grade or a score |
| Subjects.SaveLog | taskDZ1.py:96-99 | the whole log of one write; `SaveLogIff` states which subjects it names |
| Subjects.LogUpToSound | taskDZ1.py:98-99 | every log entry names a subject with a grade or score and carries its lists |
| Subjects.LogUpToComplete | taskDZ1.py:98-99 | every subject with a grade or score is logged |
| Subjects.SaveLogIff | taskDZ1.py:96-99 | a subject is logged iff it has a grade or a test score, and each entry carries that subject's lists |
| Subjects.LogUpToNone | taskDZ1.py:98 | nothing is logged when every record is empty |
| Subjects.SaveAllEmpty | taskDZ1.py:96-99 | with all records empty, every row's grade and score fields are empty and nothing is logged |
| Subjects.LoadThenSaveClears | taskDZ1.py:32-36 | the constructor's write-back writes only empty grade and score fields and logs nothing |
| Subjects.Sum | taskDZ1.py:81 | `sum(xs)`, also at line 91 |
| Subjects.Mean | taskDZ1.py:79-81 | `0` for an empty list, else `sum(xs) / len(xs)` in exact arithmetic (also lines 89-91); `MeanTimesCount` and `MeanBounds` state its properties |
| Subjects.SumConcat | taskDZ1.py:88 | the sum of an extended list is the sum of its parts |
| Subjects.SumBounds | taskDZ1.py:81 | a sum of `n` values in `lo..hi` lies in `lo*n..hi*n` |
| Subjects.MeanTimesCount | taskDZ1.py:81 | average times count equals the sum |
| Subjects.DivideBounds | taskDZ1.py:81 | dividing a bounded total by its count keeps the bounds |
| Subjects.MeanBounds | taskDZ1.py:79-81 | the mean of a non-empty list lies between any bounds of its elements |
| Subjects.TestScoreMeanInRange | taskDZ1.py:75-81 | with valid stored scores, a subject's average test score is in 0..100 |
| Subjects.PooledUpTo | taskDZ1.py:84-88 | the `total_grades` list after the first `n` subjects: their grades concatenated in insertion order |
| Subjects.Pooled | taskDZ1.py:84-88 | `total_grades` after the loop: every subject's grades in insertion order |
| Subjects.GradeTotals | taskDZ1.py:83-91 | the reference the pooled average is compared with: per-subject grade sums and counts added up |
| Subjects.PooledUpToTotals | taskDZ1.py:84-88 | the pooled list's sum and length are the per-subject grade sums and counts added up |
| Subjects.PooledIsWeighted | taskDZ1.py:83-91 | the average grade is total grade sum over total grade count, weighted by each subject's count |
| Subjects.PooledIsNotMeanOfMeans | taskDZ1.py:83-91 | grades [4, 4] and [2] average to 10/3, not to the mean of the subject means, 3 |
| Subjects.PooledUpToEmpty | taskDZ1.py:85-88 | the pooled prefix is empty iff none of its subjects has a grade |
| Subjects.PooledEmpty | taskDZ1.py:87-90 | there is nothing to average iff no subject has a grade |
| Subjects.PooledUpToBounded | taskDZ1.py:84-88 | with valid stored grades, every pooled grade is in 2..5 |
| Subjects.PooledMeanInRange | taskDZ1.py:89-91 | with valid stored grades, the average grade is in 2..5 |
| StudentModel.IsGrade | taskDZ1.py:64 | a `Value` (an int, a float or a string) is accepted as a grade iff it is an int in 2..5 |
| StudentModel.IsTestScore | taskDZ1.py:71 | a `Value` is accepted as a test score iff it is an int in 0..100 |
| StudentModel.SummaryText | taskDZ1.py:51 | the text of `__str__`: `Студент: ` and the name, a line break, `Предметы: ` and the subjects joined by `, ` |
| StudentModel.SummaryFirstLine | taskDZ1.py:51 | the first line of `str(student)` is exactly `Студент: ` and the name |
| StudentModel.SummaryListsSubjects | taskDZ1.py:51 | after the subjects label, the text is empty when there are no subjects, and otherwise splits on `, ` back into the subject list when no subject contains a comma |
| StudentModel.Student.constructor | taskDZ1.py:32-34 | an accepted name is stored and the dict starts empty |
| StudentModel.Student.Create | taskDZ1.py:32-36 | a bad name raises `ValueError` and an empty row raises `IndexError`, both with the file untouched; otherwise the student holds the name and the loaded subjects, the file is rewritten from them with empty grade and score fields, and nothing is logged |
| StudentModel.Student.SetName | taskDZ1.py:38-42 | an accepted value becomes the name; a rejected one raises `ValueError` and the old name stays |
| StudentModel.Student.SetSubjects | taskDZ1.py:38-42 | an attribute other than `name` is assigned without a check |
| StudentModel.Student.Lookup | taskDZ1.py:44-48 | a registered subject gives its record, and any other name raises `AttributeError` |
| StudentModel.Student.Summary | taskDZ1.py:50-51 | the student's text starts with the name line |
| StudentModel.Student.Load | taskDZ1.py:53-59 | the dict becomes the rows loaded up to the first empty row; `IndexError` iff there is an empty row |
| StudentModel.Student.AddGrade | taskDZ1.py:61-66 | the subject is registered first; an int in 2..5 is appended and anything else raises `ValueError` with no list changed; stored values stay in range |
| StudentModel.Student.AddTestScore | taskDZ1.py:68-73 | the subject is registered first; an int in 0..100 is appended and anything else raises `ValueError` with no list changed; stored values stay in range |
| StudentModel.Student.AverageTestScore | taskDZ1.py:75-81 | `ValueError` iff the subject is unregistered, 0 for no scores, otherwise the mean, with mean times count equal to the sum and, for valid scores, a value in 0..100 |
| StudentModel.Student.AverageGrade | taskDZ1.py:83-91 | the mean of all grades pooled in insertion order, 0 when there are none, and in 2..5 for valid grades |
| StudentModel.Student.Save | taskDZ1.py:93-99 | the rows written and the log are exactly the specification's rows and log for the current dict |

## Left out

- File I/O and CSV encoding are not modelled: opening files, newlines, UTF-8, and the quoting done by `csv.writer` and undone by `csv.reader`. A grades field such as `4,4` contains commas, so the writer quotes it and the reader strips the quotes again; because of that round trip a file is faithfully its sequence of rows, each row its sequence of fields, and a comma inside a field never splits it.
- The logging sink is not modelled: `setup_logging`, timestamps, the log file and the message text. The model keeps the sequence of entries, each with the subject and its two lists.
- `parse_arguments`, the `__main__` demo and its console output are command-line plumbing and are not part of this model.
- Averages are exact `real` division, not IEEE floating point. `get_average_*` returns the int `0` for an empty list; the model returns `0.0`.
- `str.isalpha` and `str.istitle` know the Latin and basic Cyrillic letters only (А–я, Ё, ё); every other character counts as uncased and not a letter. (`str.replace(' ', '')` is modelled on every character.)
- `isinstance(v, int)` is modelled on a `Value` datatype of ints, floats and strings. That `bool` is an `int` in Python, so `True` passes as a grade, is not modelled.
- The dynamic `__setattr__`/`__getattr__` machinery becomes explicit methods: `SetName`, `SetSubjects` and `Lookup`. The model does not cover a subject named like a real attribute (such as `name`), which `__getattr__` never reaches. It also does not cover a non-string name, which would raise `AttributeError` inside the check.
- Aliasing is not modelled: records returned by `Lookup` are values, so mutating a returned record's lists does not reach the student.
- StudentModel.Student.Summary: states only the first line. The second line's subject list is stated by `SummaryListsSubjects`.
