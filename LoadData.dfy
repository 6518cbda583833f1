/**
 * load_data.py as a stateful store: the database file holds the Subjects and
 * Samples tables, initialize_database recreates them empty, and load_data
 * runs the row loop inside one transaction that is committed after the loop
 * or rolled back on the first failing row.
 */
module LoadData {
  import opened Wrappers
  import opened Ingestion

  /** The committed contents of the database file. */
  class Database {
    var subjects: map<string, Subject>
    var samples: map<string, Sample>

    /** Every sample refers to a stored subject. */
    ghost predicate Valid()
      reads this
    {
      ReferencesKnownSubjects(Contents())
    }

    function Contents(): Tables
      reads this
    {
      Tables(subjects, samples)
    }

    /** initialize_database: whatever the file held is discarded and both tables are created empty. */
    method Initialize()
      modifies this
      ensures Valid() && Contents() == EmptyTables
    {
      subjects := map[];
      samples := map[];
    }

    /**
     * load_data.  `source` is the content of the source file, None when the
     * file does not exist.  The loop inserts into the open transaction
     * `pending`; the fields, which hold what is committed, change only by the
     * single commit after the loop.  On any failing row the method returns
     * with the fields untouched (rollback).
     */
    method Load(source: Option<seq<Row>>) returns (outcome: Outcome<LoadError>)
      requires Valid()
      modifies this
      ensures Valid()
      ensures LoadSource(old(Contents()), source).Success? ==>
        outcome == Pass && Contents() == LoadSource(old(Contents()), source).value
      ensures LoadSource(old(Contents()), source).Failure? ==>
        outcome == Fail(LoadSource(old(Contents()), source).error) && Contents() == old(Contents())
    {
      if source.None? {
        return Fail(SourceNotFound);
      }
      var rows := source.value;
      var pending := Contents();
      var processed: set<string> := {};
      var i := 0;
      while i < |rows|
        invariant 0 <= i <= |rows|
        invariant Contents() == old(Contents())
        invariant LoadRows(Contents(), {}, rows) == LoadRows(pending, processed, rows[i..])
        invariant pending.subjects.Keys == subjects.Keys + processed
        invariant ReferencesKnownSubjects(pending)
      {
        assert rows[i..][0] == rows[i] && rows[i..][1..] == rows[i + 1..];
        LoadRowsStep(pending, processed, rows[i..]);
        var inserted;
        inserted, processed := ExecuteRow(pending, processed, rows[i]);
        if inserted.Failure? {
          return Fail(inserted.error);
        }
        pending := inserted.value;
        i := i + 1;
      }
      subjects, samples := pending.subjects, pending.samples;
      return Pass;
    }
  }

  /**
   * The body of the loop for one row, against the open transaction `pending`:
   * insert the subject unless already processed, then the sample.  A failing
   * row reports the error of the first statement that raised it.
   */
  method ExecuteRow(pending: Tables, processed: set<string>, row: Row)
    returns (inserted: Result<Tables, LoadError>, processedAfter: set<string>)
    ensures inserted == InsertRow(pending, processed, row)
    ensures inserted.Success? ==> processedAfter == processed + {row[SubjectCol]}
    ensures inserted.Success? && pending.subjects.Keys >= processed ==>
      inserted.value.subjects.Keys == pending.subjects.Keys + {row[SubjectCol]}
    ensures inserted.Success? && pending.subjects.Keys >= processed && ReferencesKnownSubjects(pending) ==>
      ReferencesKnownSubjects(inserted.value)
  {
    processedAfter := processed;
    if SubjectCol !in row {
      return Failure(MissingColumn(SubjectCol)), processedAfter;
    }
    var subjectId := row[SubjectCol];
    var subjects := pending.subjects;
    if subjectId !in processed {
      var subject := ParseSubject(row);
      if subject.Failure? {
        return Failure(subject.error), processedAfter;
      }
      if subjectId in subjects {
        return Failure(DuplicateSubject(subjectId)), processedAfter;
      }
      subjects := subjects[subjectId := subject.value];
      processedAfter := processed + {subjectId};
    }
    var sample := ParseSample(row, subjectId);
    if sample.Failure? {
      return Failure(sample.error), processedAfter;
    }
    if sample.value.0 in pending.samples {
      return Failure(DuplicateSample(sample.value.0)), processedAfter;
    }
    inserted := Success(Tables(subjects, pending.samples[sample.value.0 := sample.value.1]));
  }

  /**
   * The script's main block run twice on the same source: initialize, then
   * load.  Because initialization discards the earlier store, both runs end
   * with identical tables, namely the load of the source into empty tables.
   */
  method InitializeAndLoadTwice(source: Option<seq<Row>>) returns (first: Tables, second: Tables)
    ensures first == second
    ensures first == match LoadSource(EmptyTables, source)
                     case Success(loaded) => loaded
                     case Failure(_) => EmptyTables
  {
    var db := new Database;
    db.Initialize();
    var outcome := db.Load(source);
    first := db.Contents();
    db.Initialize();
    outcome := db.Load(source);
    second := db.Contents();
  }
}
