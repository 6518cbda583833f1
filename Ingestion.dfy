/**
 * The row loop of load_data.py as a pure specification.  The Subjects and
 * Samples tables are maps keyed by their primary keys; a source row is a map
 * from column name to cell text; a run either produces the new tables or
 * stops with the error that made the loader roll back.
 */
module Ingestion {
  import opened Wrappers
  import opened IntText

  /** The columns of the source header that the loader reads. */
  datatype Column =
    | SubjectCol | ProjectCol | ConditionCol | AgeCol | SexCol | TreatmentCol | ResponseCol
    | SampleCol | SampleTypeCol | TimeCol | BCellCol | Cd8TCellCol | Cd4TCellCol | NkCellCol | MonocyteCol
  {
    /** The column's name in the header line of the source file. */
    function Header(): string {
      match this
      case SubjectCol => "subject"
      case ProjectCol => "project"
      case ConditionCol => "condition"
      case AgeCol => "age"
      case SexCol => "sex"
      case TreatmentCol => "treatment"
      case ResponseCol => "response"
      case SampleCol => "sample"
      case SampleTypeCol => "sample_type"
      case TimeCol => "time_from_treatment_start"
      case BCellCol => "b_cell"
      case Cd8TCellCol => "cd8_t_cell"
      case Cd4TCellCol => "cd4_t_cell"
      case NkCellCol => "nk_cell"
      case MonocyteCol => "monocyte"
    }
  }

  /**
   * `csv.DictReader` keys each row by header name, so a row keyed by `Column`
   * loses nothing: distinct columns have distinct header names.
   */
  lemma HeaderNamesDistinct(c: Column, d: Column)
    ensures c.Header() == d.Header() <==> c == d
  {
  }

  /**
   * One source row as csv.DictReader yields it, restricted to the columns the
   * loader reads: a column absent from the map is absent from the header.
   */
  type Row = map<Column, string>

  /** A row of the Subjects table, apart from its key subject_id. */
  datatype Subject = Subject(
    project: string, condition: string, age: int, sex: string, treatment: string, response: string)

  /** A row of the Samples table, apart from its key sample_id. */
  datatype Sample = Sample(
    subjectId: string, sampleType: string, time: int,
    bCell: int, cd8TCell: int, cd4TCell: int, nkCell: int, monocyte: int)

  datatype Tables = Tables(subjects: map<string, Subject>, samples: map<string, Sample>)

  /** Why a load ended without committing anything. */
  datatype LoadError =
    | SourceNotFound
    | MissingColumn(column: Column)
    | NotAnInteger(column: Column, text: string)
    | IntegerOutOfRange(column: Column, value: int)
    | DuplicateSubject(subjectId: string)
    | DuplicateSample(sampleId: string)

  /** The tables as initialize_database leaves them. */
  const EmptyTables := Tables(map[], map[])

  /** Columns the subject insert reads; only the first row of a subject reaches it. */
  const SubjectColumns: set<Column> := {ProjectCol, ConditionCol, AgeCol, SexCol, TreatmentCol, ResponseCol}

  /** Columns every row is read for: its subject and its sample. */
  const SampleColumns: set<Column> :=
    {SubjectCol, SampleCol, SampleTypeCol, TimeCol,
     BCellCol, Cd8TCellCol, Cd4TCellCol, NkCellCol, MonocyteCol}

  /** Sample columns that go through int(). */
  const SampleIntColumns: set<Column> :=
    {TimeCol, BCellCol, Cd8TCellCol, Cd4TCellCol, NkCellCol, MonocyteCol}

  /** `row[name]`, a KeyError when the header has no such column. */
  function Cell(row: Row, name: Column): Result<string, LoadError> {
    if name in row then Success(row[name]) else Failure(MissingColumn(name))
  }

  /** `int(row[name])`. */
  function IntCell(row: Row, name: Column): Result<int, LoadError> {
    if name !in row then Failure(MissingColumn(name))
    else match ParseInt(row[name])
      case None => Failure(NotAnInteger(name, row[name]))
      case Some(n) => Success(n)
  }

  /** SQLite's INTEGER range: a signed 64-bit value. */
  predicate IsSqliteInteger(n: int) {
    -0x8000_0000_0000_0000 <= n < 0x8000_0000_0000_0000
  }

  /** Binding `n` as an insert parameter; a wider integer raises OverflowError. */
  function Bind(name: Column, n: int): Result<int, LoadError> {
    if IsSqliteInteger(n) then Success(n) else Failure(IntegerOutOfRange(name, n))
  }

  /** A cell that `int()` accepts and whose value SQLite can store. */
  predicate StorableInteger(text: string) {
    ParseInt(text).Some? && IsSqliteInteger(ParseInt(text).value)
  }

  /**
   * The values tuple of the Subjects insert, evaluated field by field, then
   * bound as the statement's parameters.
   */
  function ParseSubject(row: Row): Result<Subject, LoadError> {
    var project :- Cell(row, ProjectCol);
    var condition :- Cell(row, ConditionCol);
    var age :- IntCell(row, AgeCol);
    var sex :- Cell(row, SexCol);
    var treatment :- Cell(row, TreatmentCol);
    var response :- Cell(row, ResponseCol);
    var boundAge :- Bind(AgeCol, age);
    Success(Subject(project, condition, boundAge, sex, treatment, response))
  }

  /** The values tuple of the Samples insert, evaluated field by field: the sample id and the rest of the row. */
  function ReadSample(row: Row, subjectId: string): (r: Result<(string, Sample), LoadError>)
    ensures r.Success? ==> SampleCol in row && r.value.0 == row[SampleCol] && r.value.1.subjectId == subjectId
  {
    var id :- Cell(row, SampleCol);
    var sampleType :- Cell(row, SampleTypeCol);
    var time :- IntCell(row, TimeCol);
    var bCell :- IntCell(row, BCellCol);
    var cd8 :- IntCell(row, Cd8TCellCol);
    var cd4 :- IntCell(row, Cd4TCellCol);
    var nk :- IntCell(row, NkCellCol);
    var monocyte :- IntCell(row, MonocyteCol);
    Success((id, Sample(subjectId, sampleType, time, bCell, cd8, cd4, nk, monocyte)))
  }

  /** Binding the integers of a sample tuple in parameter order. */
  function BindSample(sample: Sample): Result<Sample, LoadError> {
    var time :- Bind(TimeCol, sample.time);
    var bCell :- Bind(BCellCol, sample.bCell);
    var cd8 :- Bind(Cd8TCellCol, sample.cd8TCell);
    var cd4 :- Bind(Cd4TCellCol, sample.cd4TCell);
    var nk :- Bind(NkCellCol, sample.nkCell);
    var monocyte :- Bind(MonocyteCol, sample.monocyte);
    Success(sample)
  }

  /** The Samples insert up to its primary-key check: read the tuple, then bind it. */
  function ParseSample(row: Row, subjectId: string): (r: Result<(string, Sample), LoadError>)
    ensures r.Success? ==> SampleCol in row && r.value.0 == row[SampleCol] && r.value.1.subjectId == subjectId
  {
    var read :- ReadSample(row, subjectId);
    var sample :- BindSample(read.1);
    Success((read.0, sample))
  }

  /**
   * One iteration of the loop: insert the subject unless it was already
   * processed in this run (the Subjects primary key refuses a subject that is
   * already stored), then insert the sample (the Samples primary key refuses a
   * repeated sample id).
   */
  function InsertRow(t: Tables, processed: set<string>, row: Row): (r: Result<Tables, LoadError>)
    ensures r.Success? ==> SubjectCol in row
  {
    var subjectId :- Cell(row, SubjectCol);
    var subjects :-
      if subjectId in processed then Success(t.subjects)
      else
        var subject :- ParseSubject(row);
        if subjectId in t.subjects then Failure(DuplicateSubject(subjectId))
        else Success(t.subjects[subjectId := subject]);
    var sample :- ParseSample(row, subjectId);
    if sample.0 in t.samples then Failure(DuplicateSample(sample.0))
    else Success(Tables(subjects, t.samples[sample.0 := sample.1]))
  }

  /** The whole loop over `rows`, from tables `t` and the set of subjects already processed. */
  function LoadRows(t: Tables, processed: set<string>, rows: seq<Row>): Result<Tables, LoadError>
    decreases |rows|
  {
    if rows == [] then Success(t)
    else match InsertRow(t, processed, rows[0])
      case Failure(e) => Failure(e)
      case Success(t') => LoadRows(t', processed + {rows[0][SubjectCol]}, rows[1..])
  }

  /** One turn of the loop: a row that goes through leaves the rest of the rows to the new tables. */
  lemma LoadRowsStep(t: Tables, processed: set<string>, rows: seq<Row>)
    requires rows != []
    ensures InsertRow(t, processed, rows[0]).Failure? ==>
      LoadRows(t, processed, rows) == Failure(InsertRow(t, processed, rows[0]).error)
    ensures InsertRow(t, processed, rows[0]).Success? ==>
      LoadRows(t, processed, rows) ==
      LoadRows(InsertRow(t, processed, rows[0]).value, processed + {rows[0][SubjectCol]}, rows[1..])
  {
  }

  /** load_data: a missing file, or the rows of the file loaded in one transaction. */
  function LoadSource(t: Tables, source: Option<seq<Row>>): Result<Tables, LoadError> {
    match source
    case None => Failure(SourceNotFound)
    case Some(rows) => LoadRows(t, {}, rows)
  }

  /** Every sample refers to a stored subject (the foreign key, which SQLite leaves unchecked). */
  ghost predicate ReferencesKnownSubjects(t: Tables) {
    forall id :: id in t.samples ==> t.samples[id].subjectId in t.subjects
  }

  ghost function SubjectIds(rows: seq<Row>): set<string> {
    set i | 0 <= i < |rows| && SubjectCol in rows[i] :: rows[i][SubjectCol]
  }

  ghost function SampleIds(rows: seq<Row>): set<string> {
    set i | 0 <= i < |rows| && SampleCol in rows[i] :: rows[i][SampleCol]
  }

  /** Row `i` is the first of its subject in this run: the loop inserts its subject. */
  ghost predicate IsFirstOccurrence(processed: set<string>, rows: seq<Row>, i: int)
    requires 0 <= i < |rows|
  {
    && SubjectCol in rows[i]
    && rows[i][SubjectCol] !in processed
    && forall j :: 0 <= j < i && SubjectCol in rows[j] ==> rows[j][SubjectCol] != rows[i][SubjectCol]
  }

  /**
   * Independent statement of when a load commits: every row names its subject
   * and has a well-formed sample, the first row of each new subject has
   * well-formed subject fields and a subject id not yet stored, and sample ids
   * are new and pairwise distinct.
   */
  ghost predicate Admissible(t: Tables, processed: set<string>, rows: seq<Row>) {
    && (forall i :: 0 <= i < |rows| ==>
          SubjectCol in rows[i] && ParseSample(rows[i], rows[i][SubjectCol]).Success?)
    && (forall i :: 0 <= i < |rows| && IsFirstOccurrence(processed, rows, i) ==>
          ParseSubject(rows[i]).Success? && rows[i][SubjectCol] !in t.subjects)
    && (forall i :: 0 <= i < |rows| ==> rows[i][SampleCol] !in t.samples)
    && (forall i, j :: 0 <= i < j < |rows| ==> rows[i][SampleCol] != rows[j][SampleCol])
  }

  lemma SubjectIdsOfCons(rows: seq<Row>)
    requires rows != [] && SubjectCol in rows[0]
    ensures SubjectIds(rows) == {rows[0][SubjectCol]} + SubjectIds(rows[1..])
  {
    forall x | x in SubjectIds(rows) ensures x in {rows[0][SubjectCol]} + SubjectIds(rows[1..]) {
      var i :| 0 <= i < |rows| && SubjectCol in rows[i] && rows[i][SubjectCol] == x;
      if i > 0 { assert rows[1..][i - 1] == rows[i]; }
    }
    forall x | x in SubjectIds(rows[1..]) ensures x in SubjectIds(rows) {
      var i :| 0 <= i < |rows[1..]| && SubjectCol in rows[1..][i] && rows[1..][i][SubjectCol] == x;
      assert rows[i + 1] == rows[1..][i];
    }
  }

  lemma SampleIdsOfCons(rows: seq<Row>)
    requires rows != [] && SampleCol in rows[0]
    ensures SampleIds(rows) == {rows[0][SampleCol]} + SampleIds(rows[1..])
  {
    forall x | x in SampleIds(rows) ensures x in {rows[0][SampleCol]} + SampleIds(rows[1..]) {
      var i :| 0 <= i < |rows| && SampleCol in rows[i] && rows[i][SampleCol] == x;
      if i > 0 { assert rows[1..][i - 1] == rows[i]; }
    }
    forall x | x in SampleIds(rows[1..]) ensures x in SampleIds(rows) {
      var i :| 0 <= i < |rows[1..]| && SampleCol in rows[1..][i] && rows[1..][i][SampleCol] == x;
      assert rows[i + 1] == rows[1..][i];
    }
  }

  /** What one iteration needs in order to go through, and what it then stores. */
  lemma InsertRowCharacterized(t: Tables, processed: set<string>, row: Row)
    ensures InsertRow(t, processed, row).Success? <==>
      && SubjectCol in row
      && (row[SubjectCol] !in processed ==>
            ParseSubject(row).Success? && row[SubjectCol] !in t.subjects)
      && ParseSample(row, row[SubjectCol]).Success?
      && ParseSample(row, row[SubjectCol]).value.0 !in t.samples
    ensures InsertRow(t, processed, row).Success? ==>
      var s := row[SubjectCol];
      var sample := ParseSample(row, s).value;
      && InsertRow(t, processed, row).value.samples == t.samples[sample.0 := sample.1]
      && InsertRow(t, processed, row).value.subjects ==
           if s in processed then t.subjects else t.subjects[s := ParseSubject(row).value]
  {
  }

  /** On success every row names its subject, and Subjects gains exactly the subjects not processed before. */
  lemma {:induction false} LoadedSubjectKeys(t: Tables, processed: set<string>, rows: seq<Row>)
    requires LoadRows(t, processed, rows).Success?
    ensures forall i :: 0 <= i < |rows| ==> SubjectCol in rows[i]
    ensures LoadRows(t, processed, rows).value.subjects.Keys ==
      t.subjects.Keys + (SubjectIds(rows) - processed)
    decreases |rows|
  {
    if rows != [] {
      var t' := InsertRow(t, processed, rows[0]).value;
      var s := rows[0][SubjectCol];
      InsertRowSubjectKeys(t, processed, rows[0]);
      LoadRowsStep(t, processed, rows);
      LoadedSubjectKeys(t', processed + {s}, rows[1..]);
      forall i | 0 <= i < |rows| ensures SubjectCol in rows[i] {
        if i > 0 { assert rows[i] == rows[1..][i - 1]; }
      }
      SubjectIdsOfCons(rows);
    }
  }

  /** What a successful iteration does to the keys of Subjects. */
  lemma InsertRowSubjectKeys(t: Tables, processed: set<string>, row: Row)
    requires InsertRow(t, processed, row).Success?
    ensures SubjectCol in row
    ensures InsertRow(t, processed, row).value.subjects.Keys == t.subjects.Keys + ({row[SubjectCol]} - processed)
  {
    InsertRowCharacterized(t, processed, row);
  }

  /** A subject row, once stored, is never overwritten by later rows. */
  lemma {:induction false} SubjectsNeverOverwritten(t: Tables, processed: set<string>, rows: seq<Row>)
    requires LoadRows(t, processed, rows).Success?
    ensures forall s :: s in t.subjects ==>
      s in LoadRows(t, processed, rows).value.subjects &&
      LoadRows(t, processed, rows).value.subjects[s] == t.subjects[s]
    decreases |rows|
  {
    if rows != [] {
      var t' := InsertRow(t, processed, rows[0]).value;
      InsertRowCharacterized(t, processed, rows[0]);
      SubjectsNeverOverwritten(t', processed + {rows[0][SubjectCol]}, rows[1..]);
    }
  }

  /** The first row of a new subject fixes all its attributes. */
  lemma {:induction false} FirstRowFixesSubject(t: Tables, processed: set<string>, rows: seq<Row>, i: nat)
    requires LoadRows(t, processed, rows).Success?
    requires i < |rows| && IsFirstOccurrence(processed, rows, i)
    ensures ParseSubject(rows[i]).Success?
    ensures rows[i][SubjectCol] in LoadRows(t, processed, rows).value.subjects
    ensures LoadRows(t, processed, rows).value.subjects[rows[i][SubjectCol]] == ParseSubject(rows[i]).value
    decreases |rows|
  {
    var t' := InsertRow(t, processed, rows[0]).value;
    var s0 := rows[0][SubjectCol];
    InsertRowCharacterized(t, processed, rows[0]);
    if i == 0 {
      SubjectsNeverOverwritten(t', processed + {s0}, rows[1..]);
    } else {
      assert rows[1..][i - 1] == rows[i];
      assert IsFirstOccurrence(processed + {s0}, rows[1..], i - 1) by {
        forall j | 0 <= j < i - 1 && SubjectCol in rows[1..][j]
          ensures rows[1..][j][SubjectCol] != rows[i][SubjectCol]
        {
          assert rows[1..][j] == rows[j + 1];
        }
      }
      FirstRowFixesSubject(t', processed + {s0}, rows[1..], i - 1);
    }
  }

  /** What a successful iteration does to Samples, without the parsed values. */
  lemma InsertRowSampleKeys(t: Tables, processed: set<string>, row: Row)
    requires InsertRow(t, processed, row).Success?
    ensures SampleCol in row && row[SampleCol] !in t.samples
    ensures InsertRow(t, processed, row).value.samples.Keys == t.samples.Keys + {row[SampleCol]}
    ensures |InsertRow(t, processed, row).value.samples| == |t.samples| + 1
    ensures forall id :: id in t.samples ==> InsertRow(t, processed, row).value.samples[id] == t.samples[id]
  {
    var sample := ParseSample(row, row[SubjectCol]).value;
    assert InsertRow(t, processed, row).value.samples == t.samples[sample.0 := sample.1];
  }

  /** On success Samples gains one row per source row, keyed by the row's sample id. */
  lemma {:induction false} LoadedSampleKeys(t: Tables, processed: set<string>, rows: seq<Row>)
    requires LoadRows(t, processed, rows).Success?
    ensures |LoadRows(t, processed, rows).value.samples| == |t.samples| + |rows|
    ensures LoadRows(t, processed, rows).value.samples.Keys == t.samples.Keys + SampleIds(rows)
    decreases |rows|
  {
    if rows != [] {
      var t' := InsertRow(t, processed, rows[0]).value;
      InsertRowSampleKeys(t, processed, rows[0]);
      LoadRowsStep(t, processed, rows);
      LoadedSampleKeys(t', processed + {rows[0][SubjectCol]}, rows[1..]);
      SampleIdsOfCons(rows);
    }
  }

  /** Samples stored before a load are kept unchanged by it. */
  lemma {:induction false} SamplesNeverOverwritten(t: Tables, processed: set<string>, rows: seq<Row>)
    requires LoadRows(t, processed, rows).Success?
    ensures forall id :: id in t.samples ==>
      id in LoadRows(t, processed, rows).value.samples &&
      LoadRows(t, processed, rows).value.samples[id] == t.samples[id]
    decreases |rows|
  {
    if rows != [] {
      var t' := InsertRow(t, processed, rows[0]).value;
      InsertRowSampleKeys(t, processed, rows[0]);
      SamplesNeverOverwritten(t', processed + {rows[0][SubjectCol]}, rows[1..]);
    }
  }

  /** On success the sample of row `i` is stored under its sample id and refers to the row's subject. */
  lemma {:induction false} EachRowStoresItsSample(t: Tables, processed: set<string>, rows: seq<Row>, i: nat)
    requires LoadRows(t, processed, rows).Success?
    requires i < |rows|
    ensures SubjectCol in rows[i] && ParseSample(rows[i], rows[i][SubjectCol]).Success?
    ensures var loaded := LoadRows(t, processed, rows).value;
      && rows[i][SampleCol] in loaded.samples
      && loaded.samples[rows[i][SampleCol]] == ParseSample(rows[i], rows[i][SubjectCol]).value.1
      && loaded.samples[rows[i][SampleCol]].subjectId == rows[i][SubjectCol]
    decreases |rows|
  {
    var t' := InsertRow(t, processed, rows[0]).value;
    InsertRowCharacterized(t, processed, rows[0]);
    if i == 0 {
      SamplesNeverOverwritten(t', processed + {rows[0][SubjectCol]}, rows[1..]);
    } else {
      assert rows[1..][i - 1] == rows[i];
      EachRowStoresItsSample(t', processed + {rows[0][SubjectCol]}, rows[1..], i - 1);
    }
  }

  /** A load keeps every sample pointing at a stored subject: the subject insert precedes the sample insert. */
  lemma {:induction false} LoadKeepsReferences(t: Tables, processed: set<string>, rows: seq<Row>)
    requires ReferencesKnownSubjects(t)
    requires processed <= t.subjects.Keys
    requires LoadRows(t, processed, rows).Success?
    ensures ReferencesKnownSubjects(LoadRows(t, processed, rows).value)
    decreases |rows|
  {
    if rows != [] {
      var t' := InsertRow(t, processed, rows[0]).value;
      InsertRowCharacterized(t, processed, rows[0]);
      assert ReferencesKnownSubjects(t') by {
        forall id | id in t'.samples ensures t'.samples[id].subjectId in t'.subjects {
          if id in t.samples && id != ParseSample(rows[0], rows[0][SubjectCol]).value.0 {
            assert t'.samples[id] == t.samples[id];
          }
        }
      }
      LoadKeepsReferences(t', processed + {rows[0][SubjectCol]}, rows[1..]);
    }
  }

  /** After a first row that goes through, the rest of the rows face the same conditions, shifted by one. */
  lemma AdmissibleAfterFirstRow(t: Tables, processed: set<string>, rows: seq<Row>)
    requires rows != [] && InsertRow(t, processed, rows[0]).Success?
    ensures Admissible(t, processed, rows) ==>
      Admissible(InsertRow(t, processed, rows[0]).value, processed + {rows[0][SubjectCol]}, rows[1..])
  {
    var t' := InsertRow(t, processed, rows[0]).value;
    var p' := processed + {rows[0][SubjectCol]};
    var rest := rows[1..];
    InsertRowCharacterized(t, processed, rows[0]);
    if Admissible(t, processed, rows) {
      forall i | 0 <= i < |rest| ensures SubjectCol in rest[i] && ParseSample(rest[i], rest[i][SubjectCol]).Success? {
        assert rest[i] == rows[i + 1];
      }
      forall i | 0 <= i < |rest| && IsFirstOccurrence(p', rest, i)
        ensures ParseSubject(rest[i]).Success? && rest[i][SubjectCol] !in t'.subjects
      {
        assert rest[i] == rows[i + 1];
        assert IsFirstOccurrence(processed, rows, i + 1) by {
          forall j | 0 <= j < i + 1 && SubjectCol in rows[j] ensures rows[j][SubjectCol] != rows[i + 1][SubjectCol] {
            if j > 0 { assert rows[j] == rest[j - 1]; }
          }
        }
      }
      forall i | 0 <= i < |rest| ensures rest[i][SampleCol] !in t'.samples {
        assert rest[i] == rows[i + 1];
        assert rows[0][SampleCol] != rows[i + 1][SampleCol];
      }
      forall i, j | 0 <= i < j < |rest| ensures rest[i][SampleCol] != rest[j][SampleCol] {
        assert rest[i] == rows[i + 1] && rest[j] == rows[j + 1];
      }
    }
  }

  /** A first row that goes through, followed by admissible rows, makes the whole sequence admissible. */
  lemma AdmissibleBeforeFirstRow(t: Tables, processed: set<string>, rows: seq<Row>)
    requires rows != [] && InsertRow(t, processed, rows[0]).Success?
    requires Admissible(InsertRow(t, processed, rows[0]).value, processed + {rows[0][SubjectCol]}, rows[1..])
    ensures Admissible(t, processed, rows)
  {
    var t' := InsertRow(t, processed, rows[0]).value;
    InsertRowCharacterized(t, processed, rows[0]);
    RowsParseCons(rows);
    FirstOccurrencesCons(t, t', processed, rows);
    SampleIdsNewCons(t, t', rows);
    SampleIdsDistinctCons(t', rows);
  }

  lemma RowsParseCons(rows: seq<Row>)
    requires rows != [] && SubjectCol in rows[0] && ParseSample(rows[0], rows[0][SubjectCol]).Success?
    requires forall i :: 0 <= i < |rows[1..]| ==>
      SubjectCol in rows[1..][i] && ParseSample(rows[1..][i], rows[1..][i][SubjectCol]).Success?
    ensures forall i :: 0 <= i < |rows| ==>
      SubjectCol in rows[i] && ParseSample(rows[i], rows[i][SubjectCol]).Success?
  {
    forall i | 0 < i < |rows| ensures SubjectCol in rows[i] && ParseSample(rows[i], rows[i][SubjectCol]).Success? {
      assert rows[i] == rows[1..][i - 1];
    }
  }

  lemma FirstOccurrencesCons(t: Tables, t': Tables, processed: set<string>, rows: seq<Row>)
    requires rows != [] && SubjectCol in rows[0]
    requires rows[0][SubjectCol] !in processed ==>
      ParseSubject(rows[0]).Success? && rows[0][SubjectCol] !in t.subjects
    requires t.subjects.Keys <= t'.subjects.Keys
    requires forall i :: 0 <= i < |rows[1..]| && IsFirstOccurrence(processed + {rows[0][SubjectCol]}, rows[1..], i) ==>
      ParseSubject(rows[1..][i]).Success? && rows[1..][i][SubjectCol] !in t'.subjects
    ensures forall i :: 0 <= i < |rows| && IsFirstOccurrence(processed, rows, i) ==>
      ParseSubject(rows[i]).Success? && rows[i][SubjectCol] !in t.subjects
  {
    var p' := processed + {rows[0][SubjectCol]};
    var rest := rows[1..];
    forall i | 0 < i < |rows| && IsFirstOccurrence(processed, rows, i)
      ensures ParseSubject(rows[i]).Success? && rows[i][SubjectCol] !in t.subjects
    {
      assert rows[i] == rest[i - 1];
      assert IsFirstOccurrence(p', rest, i - 1) by {
        forall j | 0 <= j < i - 1 && SubjectCol in rest[j] ensures rest[j][SubjectCol] != rows[i][SubjectCol] {
          assert rest[j] == rows[j + 1];
        }
      }
    }
  }

  lemma SampleIdsNewCons(t: Tables, t': Tables, rows: seq<Row>)
    requires forall i :: 0 <= i < |rows| ==> SampleCol in rows[i]
    requires rows != [] && rows[0][SampleCol] !in t.samples
    requires t.samples.Keys <= t'.samples.Keys
    requires forall i :: 0 <= i < |rows[1..]| ==> rows[1..][i][SampleCol] !in t'.samples
    ensures forall i :: 0 <= i < |rows| ==> rows[i][SampleCol] !in t.samples
  {
    forall i | 0 < i < |rows| ensures rows[i][SampleCol] !in t.samples {
      assert rows[i] == rows[1..][i - 1];
    }
  }

  lemma SampleIdsDistinctCons(t': Tables, rows: seq<Row>)
    requires forall i :: 0 <= i < |rows| ==> SampleCol in rows[i]
    requires rows != [] && rows[0][SampleCol] in t'.samples
    requires forall i :: 0 <= i < |rows[1..]| ==> rows[1..][i][SampleCol] !in t'.samples
    requires forall i, j :: 0 <= i < j < |rows[1..]| ==> rows[1..][i][SampleCol] != rows[1..][j][SampleCol]
    ensures forall i, j :: 0 <= i < j < |rows| ==> rows[i][SampleCol] != rows[j][SampleCol]
  {
    forall i, j | 0 <= i < j < |rows| ensures rows[i][SampleCol] != rows[j][SampleCol] {
      assert rows[j] == rows[1..][j - 1];
      if i > 0 { assert rows[i] == rows[1..][i - 1]; }
    }
  }

  /** A first row that fails makes the sequence inadmissible. */
  lemma FailingFirstRowIsInadmissible(t: Tables, processed: set<string>, rows: seq<Row>)
    requires rows != [] && InsertRow(t, processed, rows[0]).Failure?
    ensures !Admissible(t, processed, rows)
  {
    InsertRowCharacterized(t, processed, rows[0]);
    if Admissible(t, processed, rows) {
      assert SubjectCol in rows[0] && ParseSample(rows[0], rows[0][SubjectCol]).Success?;
      if rows[0][SubjectCol] !in processed {
        assert IsFirstOccurrence(processed, rows, 0);
      }
      assert false;
    }
  }

  /** A load commits exactly when its rows are admissible; otherwise it rolls back. */
  lemma {:induction false} LoadCommitsIffAdmissible(t: Tables, processed: set<string>, rows: seq<Row>)
    ensures LoadRows(t, processed, rows).Success? <==> Admissible(t, processed, rows)
    decreases |rows|
  {
    if rows != [] {
      if InsertRow(t, processed, rows[0]).Success? {
        var t' := InsertRow(t, processed, rows[0]).value;
        LoadCommitsIffAdmissible(t', processed + {rows[0][SubjectCol]}, rows[1..]);
        AdmissibleAfterFirstRow(t, processed, rows);
        if Admissible(t', processed + {rows[0][SubjectCol]}, rows[1..]) {
          AdmissibleBeforeFirstRow(t, processed, rows);
        }
      } else {
        FailingFirstRowIsInadmissible(t, processed, rows);
      }
    }
  }

  /**
   * The sample insert needs every sample column, and the time and count cells
   * must be integers int() accepts and SQLite can store.
   */
  lemma ParsedSampleNeedsItsColumns(row: Row, subjectId: string, c: Column)
    requires ParseSample(row, subjectId).Success?
    requires c in SampleColumns - {SubjectCol}
    ensures c in row
    ensures c in SampleIntColumns ==> StorableInteger(row[c])
  {
  }

  /**
   * The subject insert needs every subject column, and the age cell must be an
   * integer int() accepts and SQLite can store.
   */
  lemma ParsedSubjectNeedsItsColumns(row: Row, c: Column)
    requires ParseSubject(row).Success?
    requires c in SubjectColumns
    ensures c in row
    ensures c == AgeCol ==> StorableInteger(row[c])
  {
  }

  /** Two rows with the same sample id roll the load back (the Samples primary key). */
  lemma DuplicateSampleIdRollsBack(t: Tables, processed: set<string>, rows: seq<Row>, i: nat, j: nat)
    requires i < j < |rows|
    requires SampleCol in rows[i] && SampleCol in rows[j] && rows[i][SampleCol] == rows[j][SampleCol]
    ensures LoadRows(t, processed, rows).Failure?
  {
    LoadCommitsIffAdmissible(t, processed, rows);
  }

  /**
   * A row with a missing sample column, or with a time or count cell that
   * int() rejects or SQLite cannot store, rolls the load back.
   */
  lemma MalformedSampleCellRollsBack(t: Tables, processed: set<string>, rows: seq<Row>, i: nat, c: Column)
    requires i < |rows| && c in SampleColumns
    requires c !in rows[i] || (c in SampleIntColumns && !StorableInteger(rows[i][c]))
    ensures LoadRows(t, processed, rows).Failure?
  {
    LoadCommitsIffAdmissible(t, processed, rows);
    if SubjectCol in rows[i] && ParseSample(rows[i], rows[i][SubjectCol]).Success? {
      ParsedSampleNeedsItsColumns(rows[i], rows[i][SubjectCol], c);
    }
  }

  /**
   * The first row of a new subject with a missing subject column, or an age
   * that int() rejects or SQLite cannot store, rolls the load back.
   */
  lemma MalformedFirstSubjectRowRollsBack(t: Tables, processed: set<string>, rows: seq<Row>, i: nat, c: Column)
    requires i < |rows| && IsFirstOccurrence(processed, rows, i) && c in SubjectColumns
    requires c !in rows[i] || (c == AgeCol && !StorableInteger(rows[i][c]))
    ensures LoadRows(t, processed, rows).Failure?
  {
    LoadCommitsIffAdmissible(t, processed, rows);
    if ParseSubject(rows[i]).Success? {
      ParsedSubjectNeedsItsColumns(rows[i], c);
    }
  }

  /** A row that is not the first of its subject: the loop skips its subject insert. */
  ghost predicate IsRepeatOccurrence(processed: set<string>, rows: seq<Row>, k: int)
    requires 0 <= k < |rows|
  {
    && SubjectCol in rows[k]
    && (rows[k][SubjectCol] in processed ||
        exists j :: 0 <= j < k && SubjectCol in rows[j] && rows[j][SubjectCol] == rows[k][SubjectCol])
  }

  lemma SampleReadsOnlySampleColumns(row: Row, other: Row, subjectId: string)
    requires forall c :: c in SampleColumns ==> (c in other <==> c in row) && (c in other ==> other[c] == row[c])
    ensures ParseSample(other, subjectId) == ParseSample(row, subjectId)
  {
    ReadReadsOnlySampleColumns(row, other, subjectId);
  }

  lemma ReadReadsOnlySampleColumns(row: Row, other: Row, subjectId: string)
    requires forall c :: c in SampleColumns ==> (c in other <==> c in row) && (c in other ==> other[c] == row[c])
    ensures ReadSample(other, subjectId) == ReadSample(row, subjectId)
  {
    assert Cell(other, SampleCol) == Cell(row, SampleCol);
    assert Cell(other, SampleTypeCol) == Cell(row, SampleTypeCol);
    assert IntCell(other, TimeCol) == IntCell(row, TimeCol);
    assert IntCell(other, BCellCol) == IntCell(row, BCellCol);
    assert IntCell(other, Cd8TCellCol) == IntCell(row, Cd8TCellCol);
    assert IntCell(other, Cd4TCellCol) == IntCell(row, Cd4TCellCol);
    assert IntCell(other, NkCellCol) == IntCell(row, NkCellCol);
    assert IntCell(other, MonocyteCol) == IntCell(row, MonocyteCol);
  }

  /**
   * Replacing a repeat row of a subject by a row that differs only in its
   * subject columns (project, condition, age, sex, treatment, response)
   * changes nothing: those cells are never read, so they neither overwrite
   * the stored subject nor can they make the load fail.
   */
  lemma {:induction false} RepeatRowSubjectCellsIgnored(
    t: Tables, processed: set<string>, rows: seq<Row>, k: nat, other: Row)
    requires k < |rows| && IsRepeatOccurrence(processed, rows, k)
    requires forall c :: c in SampleColumns ==>
      (c in other <==> c in rows[k]) && (c in other ==> other[c] == rows[k][c])
    ensures LoadRows(t, processed, rows[k := other]) == LoadRows(t, processed, rows)
    decreases |rows|
  {
    var changed := rows[k := other];
    LoadRowsStep(t, processed, rows);
    LoadRowsStep(t, processed, changed);
    if k == 0 {
      assert changed[1..] == rows[1..];
      RepeatRowInsertsSameSample(t, processed, rows[0], other);
    } else {
      assert changed[0] == rows[0];
      assert changed[1..] == rows[1..][k - 1 := other];
      if InsertRow(t, processed, rows[0]).Success? {
        var t' := InsertRow(t, processed, rows[0]).value;
        var p' := processed + {rows[0][SubjectCol]};
        RepeatOccurrenceShifts(processed, rows, k);
        assert rows[1..][k - 1] == rows[k];
        RepeatRowSubjectCellsIgnored(t', p', rows[1..], k - 1, other);
      }
    }
  }

  lemma RepeatRowInsertsSameSample(t: Tables, processed: set<string>, row: Row, other: Row)
    requires SubjectCol in row && row[SubjectCol] in processed
    requires forall c :: c in SampleColumns ==>
      (c in other <==> c in row) && (c in other ==> other[c] == row[c])
    ensures InsertRow(t, processed, other) == InsertRow(t, processed, row)
  {
    SampleReadsOnlySampleColumns(row, other, row[SubjectCol]);
    assert SubjectCol in SampleColumns;
  }

  /** A repeat occurrence after the first row is a repeat occurrence in the remaining rows. */
  lemma RepeatOccurrenceShifts(processed: set<string>, rows: seq<Row>, k: nat)
    requires 0 < k < |rows| && IsRepeatOccurrence(processed, rows, k) && SubjectCol in rows[0]
    ensures IsRepeatOccurrence(processed + {rows[0][SubjectCol]}, rows[1..], k - 1)
  {
    assert rows[1..][k - 1] == rows[k];
    if rows[k][SubjectCol] !in processed + {rows[0][SubjectCol]} {
      var j :| 0 <= j < k && SubjectCol in rows[j] && rows[j][SubjectCol] == rows[k][SubjectCol];
      assert j > 0;
      assert rows[1..][j - 1] == rows[j];
    }
  }

  /** Loading into the tables initialize_database creates: the committed tables in terms of the rows. */
  lemma LoadIntoEmptyTables(rows: seq<Row>)
    requires LoadRows(EmptyTables, {}, rows).Success?
    ensures var loaded := LoadRows(EmptyTables, {}, rows).value;
      && loaded.subjects.Keys == SubjectIds(rows)
      && loaded.samples.Keys == SampleIds(rows)
      && |loaded.samples| == |rows|
      && ReferencesKnownSubjects(loaded)
  {
    LoadedSubjectKeys(EmptyTables, {}, rows);
    LoadedSampleKeys(EmptyTables, {}, rows);
    LoadKeepsReferences(EmptyTables, {}, rows);
  }

  /**
   * Running the loader a second time without initialize_database fails on
   * the first row: its subject is already stored and the processed set
   * starts empty, so the Subjects primary key refuses it.
   */
  lemma ReloadWithoutInitializeFails(rows: seq<Row>)
    requires |rows| > 0 && LoadRows(EmptyTables, {}, rows).Success?
    ensures LoadRows(LoadRows(EmptyTables, {}, rows).value, {}, rows) == Failure(DuplicateSubject(rows[0][SubjectCol]))
  {
    var loaded := LoadRows(EmptyTables, {}, rows).value;
    FirstRowFixesSubject(EmptyTables, {}, rows, 0);
    InsertRowCharacterized(EmptyTables, {}, rows[0]);
  }
}
