/**
 * The management command that seeds the database from CSV files
 * (api_yamdb/reviews/management/commands/import_csv_data.py).
 *
 * A CSV record is modelled as the sequence of fields the CSV reader has
 * already split; a directory is a map from file name to what opening that
 * file yields (a name absent from the map is a missing file); the ORM insert
 * is a fallible operation whose verdict is an abstract constraint `admits`
 * over the model, every table already stored (so that a foreign key into
 * another table can be checked) and the new row.
 */
module CsvImport {

  /** The storage models the importer fills. */
  datatype ModelName = Category | Genre | Title | GenreTitle | User | Review | Comment

  /** One record as the CSV reader splits it. */
  type Record = seq<string>

  /** One row handed to the ORM insert: the remapped header names and the record's fields. */
  datatype Row = Row(keys: seq<string>, values: Record)

  /** What opening and reading an existing file yields. */
  datatype FileState = Unreadable | Readable(records: seq<Record>)

  /** The outcome of reading one file. */
  datatype ReadOutcome = NotFound | ReadFailed | Rows(headers: seq<string>, rows: seq<Row>)

  /** The progress and error lines the command emits (their wording is not modelled). */
  datatype Message =
    | RowFailed(model: ModelName, row: Row)
    | FileLoaded(fileName: string, succeeded: nat, total: nat, failed: nat)
    | FileMissing(fileName: string)
    | FileUnreadable(fileName: string)

  /** The fixed, ordered file-to-model table: referenced tables are loaded before their referrers. */
  const FileNameModel: seq<(string, ModelName)> := [
    ("category.csv", Category),
    ("genre.csv", Genre),
    ("titles.csv", Title),
    ("genre_title.csv", GenreTitle),
    ("users.csv", User),
    ("review.csv", Review),
    ("comments.csv", Comment)
  ]

  /** Foreign-key column aliases and the storage column each one stands for. */
  const AliasForeignKeyField: map<string, string> := map["category" := "category_id", "author" := "author_id"]

  // ---------------------------------------------------------------------------
  // Header remapping
  // ---------------------------------------------------------------------------

  /** One header after remapping; an alias key never survives. */
  function RemapHeader(h: string): (r: string)
    ensures r !in AliasForeignKeyField
    ensures r == h || (h in AliasForeignKeyField && r == AliasForeignKeyField[h])
  {
    if h in AliasForeignKeyField then AliasForeignKeyField[h] else h
  }

  /** The whole header row after remapping, header by header. */
  function RemapAll(hs: seq<string>): (r: seq<string>)
    ensures |r| == |hs|
  {
    if hs == [] then [] else RemapAll(hs[..|hs| - 1]) + [RemapHeader(hs[|hs| - 1])]
  }

  /** Each alias key is replaced by its storage column, every other header is kept, in place. */
  lemma {:induction false} RemapAllAt(hs: seq<string>, i: nat)
    requires i < |hs|
    ensures hs[i] in AliasForeignKeyField ==> RemapAll(hs)[i] == AliasForeignKeyField[hs[i]]
    ensures hs[i] !in AliasForeignKeyField ==> RemapAll(hs)[i] == hs[i]
  {
    if i < |hs| - 1 {
      RemapAllAt(hs[..|hs| - 1], i);
    }
  }

  /** No alias key is left in a remapped header row. */
  lemma NoAliasAfterRemap(hs: seq<string>, i: nat)
    requires i < |hs|
    ensures RemapAll(hs)[i] !in AliasForeignKeyField
  {
    RemapAllAt(hs, i);
  }

  /** Remapping twice is remapping once: no storage column is itself an alias key. */
  lemma {:induction false} RemapIdempotent(hs: seq<string>)
    ensures RemapAll(RemapAll(hs)) == RemapAll(hs)
  {
    if hs != [] {
      var r := RemapAll(hs);
      RemapIdempotent(hs[..|hs| - 1]);
      assert r[..|r| - 1] == RemapAll(hs[..|hs| - 1]);
    }
  }

  /** Builds the remapped header row by appending one header at a time. */
  method RemapHeaders(csvFileHeaders: seq<string>) returns (headers: seq<string>)
    ensures headers == RemapAll(csvFileHeaders)
  {
    headers := [];
    for i := 0 to |csvFileHeaders|
      invariant headers == RemapAll(csvFileHeaders[..i])
    {
      assert csvFileHeaders[..i + 1][..i] == csvFileHeaders[..i];
      var header := csvFileHeaders[i];
      if header in AliasForeignKeyField {
        headers := headers + [AliasForeignKeyField[header]];
      } else {
        headers := headers + [header];
      }
    }
    assert csvFileHeaders[..|csvFileHeaders|] == csvFileHeaders;
  }

  // ---------------------------------------------------------------------------
  // Reading one file
  // ---------------------------------------------------------------------------

  /** The records after the header row, keyed by the headers; blank records are skipped. */
  function KeyRows(headers: seq<string>, records: seq<Record>): (r: seq<Row>)
    ensures |r| <= |records|
    ensures forall i :: 0 <= i < |r| ==> r[i].keys == headers && r[i].values != []
  {
    if records == [] then []
    else
      var last := records[|records| - 1];
      KeyRows(headers, records[..|records| - 1]) + (if last == [] then [] else [Row(headers, last)])
  }

  /** A blank record yields no row; any other record yields exactly one, keyed by the headers. */
  lemma KeyRowsOne(headers: seq<string>, record: Record)
    ensures KeyRows(headers, [record]) == if record == [] then [] else [Row(headers, record)]
  {
    assert [record][..0] == [];
  }

  /** Rows come out in record order: the rows of a + b are the rows of a followed by the rows of b. */
  lemma {:induction false} KeyRowsConcat(headers: seq<string>, a: seq<Record>, b: seq<Record>)
    ensures KeyRows(headers, a + b) == KeyRows(headers, a) + KeyRows(headers, b)
  {
    if b == [] {
      assert a + b == a;
    } else {
      KeyRowsConcat(headers, a, b[..|b| - 1]);
      assert (a + b)[..|a + b| - 1] == a + b[..|b| - 1];
    }
  }

  /** Without blank records, every record becomes exactly one row, in order. */
  lemma {:induction false} KeyRowsNoBlanks(headers: seq<string>, records: seq<Record>)
    requires forall i :: 0 <= i < |records| ==> records[i] != []
    ensures |KeyRows(headers, records)| == |records|
    ensures forall i :: 0 <= i < |records| ==> KeyRows(headers, records)[i] == Row(headers, records[i])
  {
    if records != [] {
      var init, last := records[..|records| - 1], records[|records| - 1];
      KeyRowsNoBlanks(headers, init);
      assert KeyRows(headers, records) == KeyRows(headers, init) + [Row(headers, last)];
    }
  }

  /** What reading the named file of a directory yields. */
  function Read(dir: map<string, FileState>, fileName: string): (r: ReadOutcome)
    ensures r.NotFound? <==> fileName !in dir
    ensures r.ReadFailed? <==> fileName in dir && (dir[fileName].Unreadable? || dir[fileName].records == [])
    ensures r.Rows? ==> r.headers == RemapAll(dir[fileName].records[0]) && |r.rows| < |dir[fileName].records|
  {
    if fileName !in dir then NotFound
    else match dir[fileName]
      case Unreadable => ReadFailed
      case Readable(records) =>
        if records == [] then ReadFailed
        else
          var headers := RemapAll(records[0]);
          Rows(headers, KeyRows(headers, records[1..]))
  }

  /** The header row is consumed once: the rows come from the records after it, keyed by its remapping. */
  lemma ReadConsumesHeader(dir: map<string, FileState>, fileName: string)
    requires Read(dir, fileName).Rows?
    ensures fileName in dir && dir[fileName].Readable? && dir[fileName].records != []
    ensures var records := dir[fileName].records;
            var out := Read(dir, fileName);
            out.headers == RemapAll(records[0]) &&
            out.rows == KeyRows(out.headers, records[1..]) &&
            |out.rows| <= |records| - 1 &&
            forall i :: 0 <= i < |out.rows| ==> out.rows[i].keys == out.headers
    ensures var records := dir[fileName].records;
            var out := Read(dir, fileName);
            (forall i :: 1 <= i < |records| ==> records[i] != []) ==>
              |out.rows| == |records| - 1 &&
              forall i :: 0 <= i < |out.rows| ==> out.rows[i] == Row(out.headers, records[i + 1])
  {
    var records := dir[fileName].records;
    var out := Read(dir, fileName);
    if forall i :: 1 <= i < |records| ==> records[i] != [] {
      KeyRowsNoBlanks(out.headers, records[1..]);
    }
  }

  /** Opens and reads one file; the header loop is RemapHeaders. */
  method ReadCsvFile(dir: map<string, FileState>, fileName: string) returns (out: ReadOutcome)
    ensures out == Read(dir, fileName)
    ensures out.NotFound? <==> fileName !in dir
  {
    if fileName !in dir {
      return NotFound;
    }
    match dir[fileName]
    case Unreadable =>
      out := ReadFailed;
    case Readable(records) =>
      if records == [] {
        out := ReadFailed;
      } else {
        var headers := RemapHeaders(records[0]);
        out := Rows(headers, KeyRows(headers, records[1..]));
      }
  }

  // ---------------------------------------------------------------------------
  // The store and loading one file
  // ---------------------------------------------------------------------------

  /** Every model's stored rows. */
  type Tables = map<ModelName, seq<Row>>

  /** Whether the database accepts a row for a model, given everything already stored. */
  type Constraint = (ModelName, Tables, Row) -> bool

  /** The rows of one model's table. */
  function TableOf(tables: map<ModelName, seq<Row>>, model: ModelName): seq<Row>
  {
    if model in tables then tables[model] else []
  }

  /** The database the importer writes to; `admits` decides whether an insert succeeds. */
  class Store {
    const admits: Constraint
    var tables: map<ModelName, seq<Row>>

    constructor (admits: Constraint, tables: map<ModelName, seq<Row>>)
      ensures this.admits == admits && this.tables == tables
    {
      this.admits := admits;
      this.tables := tables;
    }

    /** Inserts one row; a rejected row changes nothing. */
    method Create(model: ModelName, row: Row) returns (ok: bool)
      modifies this
      ensures ok == admits(model, old(tables), row)
      ensures tables == if ok then old(tables)[model := TableOf(old(tables), model) + [row]] else old(tables)
    {
      ok := admits(model, tables, row);
      if ok {
        tables := tables[model := TableOf(tables, model) + [row]];
      }
    }
  }

  /** The store after a sequence of inserts, the number that failed and one message per failure. */
  datatype Loaded = Loaded(tables: map<ModelName, seq<Row>>, failed: nat, log: seq<Message>)

  /** Inserting the rows in order, counting and reporting the ones that fail. */
  function Load(admits: Constraint, tables: map<ModelName, seq<Row>>,
                model: ModelName, data: seq<Row>): (r: Loaded)
    ensures r.failed <= |data|
    ensures |r.log| == r.failed
  {
    if data == [] then Loaded(tables, 0, [])
    else
      var prev := Load(admits, tables, model, data[..|data| - 1]);
      var row := data[|data| - 1];
      if admits(model, prev.tables, row)
      then Loaded(prev.tables[model := TableOf(prev.tables, model) + [row]], prev.failed, prev.log)
      else Loaded(prev.tables, prev.failed + 1, prev.log + [RowFailed(model, row)])
  }

  /** The loaded model's table grows by exactly the rows that did not fail, and keeps the rows it had. */
  lemma {:induction false} LoadGrowth(admits: Constraint, tables: Tables, model: ModelName, data: seq<Row>)
    ensures var l := Load(admits, tables, model, data);
            |TableOf(l.tables, model)| == |TableOf(tables, model)| + (|data| - l.failed) &&
            TableOf(l.tables, model)[..|TableOf(tables, model)|] == TableOf(tables, model)
  {
    if data != [] {
      LoadGrowth(admits, tables, model, data[..|data| - 1]);
    }
  }

  /** A failing row does not stop the rest: loading a + b is loading a, then b from where a left off. */
  lemma {:induction false} LoadConcat(admits: Constraint, tables: map<ModelName, seq<Row>>,
                                      model: ModelName, a: seq<Row>, b: seq<Row>)
    ensures var la := Load(admits, tables, model, a);
            var lb := Load(admits, la.tables, model, b);
            Load(admits, tables, model, a + b) == Loaded(lb.tables, la.failed + lb.failed, la.log + lb.log)
  {
    if b == [] {
      assert a + b == a;
    } else {
      var init, row := b[..|b| - 1], b[|b| - 1];
      LoadConcat(admits, tables, model, a, init);
      assert (a + b)[..|a + b| - 1] == a + init;
      assert (a + b)[|a + b| - 1] == row;
      var la := Load(admits, tables, model, a);
      var li := Load(admits, la.tables, model, init);
      assert Load(admits, tables, model, a + init) == Loaded(li.tables, la.failed + li.failed, la.log + li.log);
      assert Load(admits, la.tables, model, b) ==
             if admits(model, li.tables, row)
             then Loaded(li.tables[model := TableOf(li.tables, model) + [row]], li.failed, li.log)
             else Loaded(li.tables, li.failed + 1, li.log + [RowFailed(model, row)]);
      if !admits(model, li.tables, row) {
        assert la.log + li.log + [RowFailed(model, row)] == la.log + (li.log + [RowFailed(model, row)]);
      }
    }
  }

  /** Loading one more row adds exactly one to the failure count when, and only when, its insert fails. */
  lemma LoadOneMore(admits: Constraint, tables: map<ModelName, seq<Row>>,
                    model: ModelName, data: seq<Row>, row: Row)
    ensures var prev := Load(admits, tables, model, data);
            Load(admits, tables, model, data + [row]).failed ==
              prev.failed + (if admits(model, prev.tables, row) then 0 else 1)
  {
    LoadConcat(admits, tables, model, data, [row]);
  }

  /** Only the loaded model's table changes. */
  lemma {:induction false} LoadFrame(admits: Constraint, tables: map<ModelName, seq<Row>>,
                                     model: ModelName, data: seq<Row>, other: ModelName)
    requires other != model
    ensures TableOf(Load(admits, tables, model, data).tables, other) == TableOf(tables, other)
  {
    if data != [] {
      LoadFrame(admits, tables, model, data[..|data| - 1], other);
    }
  }

  /** Every message of a load reports a failed row of that model. */
  lemma {:induction false} LoadLogsOnlyRowFailures(admits: Constraint,
                                                   tables: map<ModelName, seq<Row>>, model: ModelName, data: seq<Row>)
    ensures forall i :: 0 <= i < |Load(admits, tables, model, data).log| ==>
              Load(admits, tables, model, data).log[i].RowFailed? &&
              Load(admits, tables, model, data).log[i].model == model
  {
    if data != [] {
      LoadLogsOnlyRowFailures(admits, tables, model, data[..|data| - 1]);
    }
  }

  /** Rows already stored are kept, and when every insert succeeds all rows are appended in order. */
  lemma {:induction false} LoadAllAdmitted(admits: Constraint, tables: map<ModelName, seq<Row>>,
                                           model: ModelName, data: seq<Row>)
    requires forall t, row :: admits(model, t, row)
    ensures Load(admits, tables, model, data).failed == 0
    ensures TableOf(Load(admits, tables, model, data).tables, model) == TableOf(tables, model) + data
  {
    if data != [] {
      LoadAllAdmitted(admits, tables, model, data[..|data| - 1]);
      assert data[..|data| - 1] + [data[|data| - 1]] == data;
    }
  }

  /** When every insert fails, every row is counted as an error and the table is untouched. */
  lemma {:induction false} LoadNoneAdmitted(admits: Constraint, tables: map<ModelName, seq<Row>>,
                                            model: ModelName, data: seq<Row>)
    requires forall t, row :: !admits(model, t, row)
    ensures Load(admits, tables, model, data).failed == |data|
    ensures Load(admits, tables, model, data).tables == tables
  {
    if data != [] {
      LoadNoneAdmitted(admits, tables, model, data[..|data| - 1]);
    }
  }

  /**
   * A row that must reference a row of another model fails while that model's
   * table is empty (its file was missing, unreadable or not yet loaded):
   * every row of the file is counted as an error and nothing is stored.
   */
  lemma {:induction false} LoadAgainstEmptyReference(admits: Constraint, tables: map<ModelName, seq<Row>>,
                                                     model: ModelName, data: seq<Row>, target: ModelName)
    requires target != model
    requires TableOf(tables, target) == []
    requires forall t, row :: admits(model, t, row) ==> TableOf(t, target) != []
    ensures Load(admits, tables, model, data).failed == |data|
    ensures Load(admits, tables, model, data).tables == tables
  {
    if data != [] {
      LoadAgainstEmptyReference(admits, tables, model, data[..|data| - 1], target);
    }
  }

  /** An insert constraint under which a table holds no row twice. */
  predicate UniqueInsert(model: ModelName, tables: Tables, row: Row)
  {
    row !in TableOf(tables, model)
  }

  /** Distinct rows that are not yet stored all load under the uniqueness constraint. */
  lemma {:induction false} LoadDistinctRows(tables: map<ModelName, seq<Row>>, model: ModelName, data: seq<Row>)
    requires forall i, j :: 0 <= i < j < |data| ==> data[i] != data[j]
    requires forall i :: 0 <= i < |data| ==> data[i] !in TableOf(tables, model)
    ensures Load(UniqueInsert, tables, model, data).failed == 0
    ensures TableOf(Load(UniqueInsert, tables, model, data).tables, model) == TableOf(tables, model) + data
  {
    if data != [] {
      var init := data[..|data| - 1];
      LoadDistinctRows(tables, model, init);
      var prev := Load(UniqueInsert, tables, model, init);
      assert data[|data| - 1] !in TableOf(prev.tables, model);
      assert Load(UniqueInsert, tables, model, data) ==
             Loaded(prev.tables[model := TableOf(prev.tables, model) + [data[|data| - 1]]], prev.failed, prev.log);
      assert init + [data[|data| - 1]] == data;
    }
  }

  /**
   * A file of distinct new rows followed by a repeat of one of them: every
   * distinct row is stored, and only the repeat fails and is reported.
   */
  lemma DuplicateRowFailsAlone(tables: map<ModelName, seq<Row>>, model: ModelName, data: seq<Row>, k: nat)
    requires forall i, j :: 0 <= i < j < |data| ==> data[i] != data[j]
    requires forall i :: 0 <= i < |data| ==> data[i] !in TableOf(tables, model)
    requires k < |data|
    ensures var l := Load(UniqueInsert, tables, model, data + [data[k]]);
            l.failed == 1 && l.log == [RowFailed(model, data[k])] &&
            TableOf(l.tables, model) == TableOf(tables, model) + data
  {
    LoadDistinctRows(tables, model, data);
    LoadConcat(UniqueInsert, tables, model, data, [data[k]]);
    var prev := Load(UniqueInsert, tables, model, data);
    assert TableOf(prev.tables, model)[|TableOf(tables, model)| + k] == data[k];
    assert |prev.log| == 0;
    assert !UniqueInsert(model, prev.tables, data[k]);
    assert [data[k]][..0] == [];
    assert Load(UniqueInsert, prev.tables, model, [data[k]]) == Loaded(prev.tables, 1, [RowFailed(model, data[k])]);
  }

  /** The summary line of a loaded file: successes are the rows that did not fail. */
  function Summary(fileName: string, total: nat, failed: nat): (m: Message)
    requires failed <= total
    ensures m.FileLoaded? && m.fileName == fileName && m.failed == failed
    ensures m.succeeded + m.failed == m.total == total
  {
    FileLoaded(fileName, total - failed, total, failed)
  }

  /** Loading one more row of a file after its first i rows. */
  lemma LoadPrefixStep(admits: Constraint, tables: Tables, model: ModelName, data: seq<Row>, i: nat)
    requires i < |data|
    ensures var prev := Load(admits, tables, model, data[..i]);
            Load(admits, tables, model, data[..i + 1]) ==
              if admits(model, prev.tables, data[i])
              then Loaded(prev.tables[model := TableOf(prev.tables, model) + [data[i]]], prev.failed, prev.log)
              else Loaded(prev.tables, prev.failed + 1, prev.log + [RowFailed(model, data[i])])
  {
    var prefix := data[..i + 1];
    assert prefix[..|prefix| - 1] == data[..i] && prefix[|prefix| - 1] == data[i];
  }

  /** Inserts each row, counting failures and carrying on after each one; ends with the summary line. */
  method LoadCsv(store: Store, data: seq<Row>, model: ModelName, fileName: string) returns (messages: seq<Message>)
    modifies store
    ensures var l := Load(store.admits, old(store.tables), model, data);
            store.tables == l.tables && messages == l.log + [Summary(fileName, |data|, l.failed)]
  {
    ghost var admits, start := store.admits, store.tables;
    var errorCounter := 0;
    messages := [];
    for i := 0 to |data|
      invariant Load(admits, start, model, data[..i]) == Loaded(store.tables, errorCounter, messages)
    {
      LoadPrefixStep(admits, start, model, data, i);
      var ok := store.Create(model, data[i]);
      if !ok {
        errorCounter := errorCounter + 1;
        messages := messages + [RowFailed(model, data[i])];
      }
    }
    assert data[..|data|] == data;
    var successCounter := |data| - errorCounter;
    messages := messages + [FileLoaded(fileName, successCounter, |data|, errorCounter)];
  }

  // ---------------------------------------------------------------------------
  // The command: every file of the table, in order
  // ---------------------------------------------------------------------------

  /** What processing one file does to the store and the messages emitted so far. */
  function Step(admits: Constraint, tables: map<ModelName, seq<Row>>, log: seq<Message>,
                dir: map<string, FileState>, entry: (string, ModelName)): (r: (map<ModelName, seq<Row>>, seq<Message>))
    ensures |r.1| > |log| && r.1[..|log|] == log
    ensures !r.1[|r.1| - 1].RowFailed? && r.1[|r.1| - 1].fileName == entry.0
    ensures !Read(dir, entry.0).Rows? ==> r.0 == tables
  {
    match Read(dir, entry.0)
    case NotFound => (tables, log + [FileMissing(entry.0)])
    case ReadFailed => (tables, log + [FileUnreadable(entry.0)])
    case Rows(_, rows) =>
      var l := Load(admits, tables, entry.1, rows);
      (l.tables, log + l.log + [Summary(entry.0, |rows|, l.failed)])
  }

  /** The store and the messages after processing the given file-to-model entries in order. */
  function Run(admits: Constraint, tables: map<ModelName, seq<Row>>,
               dir: map<string, FileState>, entries: seq<(string, ModelName)>): (r: (map<ModelName, seq<Row>>, seq<Message>))
    ensures |r.1| >= |entries|
  {
    if entries == [] then (tables, [])
    else
      var prev := Run(admits, tables, dir, entries[..|entries| - 1]);
      Step(admits, prev.0, prev.1, dir, entries[|entries| - 1])
  }

  /** The file a message is about, or nothing for a per-row failure. */
  function FileOutcomes(log: seq<Message>): (names: seq<string>)
    ensures |names| <= |log|
  {
    if log == [] then []
    else
      var m := log[|log| - 1];
      FileOutcomes(log[..|log| - 1]) + (if m.RowFailed? then [] else [m.fileName])
  }

  lemma {:induction false} FileOutcomesConcat(a: seq<Message>, b: seq<Message>)
    ensures FileOutcomes(a + b) == FileOutcomes(a) + FileOutcomes(b)
  {
    if b == [] {
      assert a + b == a;
    } else {
      FileOutcomesConcat(a, b[..|b| - 1]);
      assert (a + b)[..|a + b| - 1] == a + b[..|b| - 1];
    }
  }

  lemma {:induction false} FileOutcomesOfRowFailures(log: seq<Message>)
    requires forall i :: 0 <= i < |log| ==> log[i].RowFailed?
    ensures FileOutcomes(log) == []
  {
    if log != [] {
      FileOutcomesOfRowFailures(log[..|log| - 1]);
    }
  }

  function FileNames(entries: seq<(string, ModelName)>): (names: seq<string>)
    ensures |names| == |entries|
    ensures forall i :: 0 <= i < |entries| ==> names[i] == entries[i].0
  {
    seq(|entries|, i requires 0 <= i < |entries| => entries[i].0)
  }

  /** The run over a non-empty table is the run over all but its last entry, then one step. */
  lemma RunLast(admits: Constraint, tables: Tables, dir: map<string, FileState>, entries: seq<(string, ModelName)>)
    requires entries != []
    ensures var prev := Run(admits, tables, dir, entries[..|entries| - 1]);
            Run(admits, tables, dir, entries) == Step(admits, prev.0, prev.1, dir, entries[|entries| - 1])
  {
  }

  /** Row-failure lines add no file-level line, and one file-level line adds its file. */
  lemma FileLineAfterRowFailures(log: seq<Message>, failures: seq<Message>, line: Message)
    requires forall i :: 0 <= i < |failures| ==> failures[i].RowFailed?
    requires !line.RowFailed?
    ensures FileOutcomes(log + failures + [line]) == FileOutcomes(log) + [line.fileName]
  {
    FileOutcomesOfRowFailures(failures);
    FileOutcomesConcat(log + failures, [line]);
    FileOutcomesConcat(log, failures);
    assert FileOutcomes([line]) == [line.fileName] by {
      assert [line][..0] == [];
    }
  }

  /** One entry adds exactly one outcome line, naming its file, after any row failures. */
  lemma StepReportsFile(admits: Constraint, tables: map<ModelName, seq<Row>>, log: seq<Message>,
                        dir: map<string, FileState>, entry: (string, ModelName))
    ensures FileOutcomes(Step(admits, tables, log, dir, entry).1) == FileOutcomes(log) + [entry.0]
  {
    var out := Read(dir, entry.0);
    if out.NotFound? {
      FileLineAfterRowFailures(log, [], FileMissing(entry.0));
      assert log + [] == log;
    } else if out.ReadFailed? {
      FileLineAfterRowFailures(log, [], FileUnreadable(entry.0));
      assert log + [] == log;
    } else {
      var l := Load(admits, tables, entry.1, out.rows);
      LoadLogsOnlyRowFailures(admits, tables, entry.1, out.rows);
      FileLineAfterRowFailures(log, l.log, Summary(entry.0, |out.rows|, l.failed));
    }
  }

  /**
   * Every file gets exactly one outcome line (missing, unreadable or loaded),
   * in the order of the entries: a file that cannot be read does not stop the ones after it.
   */
  lemma {:induction false} RunReportsEveryFileInOrder(admits: Constraint,
                                                      tables: map<ModelName, seq<Row>>, dir: map<string, FileState>,
                                                      entries: seq<(string, ModelName)>)
    ensures FileOutcomes(Run(admits, tables, dir, entries).1) == FileNames(entries)
  {
    if entries != [] {
      var init, last := entries[..|entries| - 1], entries[|entries| - 1];
      var prev := Run(admits, tables, dir, init);
      RunLast(admits, tables, dir, entries);
      calc {
        FileOutcomes(Run(admits, tables, dir, entries).1);
        FileOutcomes(Step(admits, prev.0, prev.1, dir, last).1);
        { StepReportsFile(admits, prev.0, prev.1, dir, last); }
        FileOutcomes(prev.1) + [last.0];
        { RunReportsEveryFileInOrder(admits, tables, dir, init); }
        FileNames(init) + [last.0];
        FileNames(entries);
      }
    }
  }

  /** The command's own table reports its files in dependency order. */
  lemma HandleFileOrder(admits: Constraint, tables: map<ModelName, seq<Row>>,
                        dir: map<string, FileState>)
    ensures FileOutcomes(Run(admits, tables, dir, FileNameModel).1) ==
            ["category.csv", "genre.csv", "titles.csv", "genre_title.csv", "users.csv", "review.csv", "comments.csv"]
  {
    RunReportsEveryFileInOrder(admits, tables, dir, FileNameModel);
  }

  /** Each model appears once among the entries. */
  predicate DistinctModels(entries: seq<(string, ModelName)>)
  {
    forall i, j :: 0 <= i < j < |entries| ==> entries[i].1 != entries[j].1
  }

  /** A model that none of the entries names keeps its table. */
  lemma {:induction false} RunFrame(admits: Constraint, tables: map<ModelName, seq<Row>>,
                                    dir: map<string, FileState>, entries: seq<(string, ModelName)>, model: ModelName)
    requires forall i :: 0 <= i < |entries| ==> entries[i].1 != model
    ensures TableOf(Run(admits, tables, dir, entries).0, model) == TableOf(tables, model)
  {
    if entries != [] {
      var init := entries[..|entries| - 1];
      RunFrame(admits, tables, dir, init, model);
      var prev := Run(admits, tables, dir, init);
      var entry := entries[|entries| - 1];
      if Read(dir, entry.0).Rows? {
        LoadFrame(admits, prev.0, entry.1, Read(dir, entry.0).rows, model);
      }
    }
  }

  /** A missing or unreadable file loads nothing into its model's table. */
  lemma {:induction false} RunSkipsUnreadFile(admits: Constraint, tables: map<ModelName, seq<Row>>,
                                              dir: map<string, FileState>, entries: seq<(string, ModelName)>, k: nat)
    requires DistinctModels(entries)
    requires k < |entries|
    requires !Read(dir, entries[k].0).Rows?
    ensures TableOf(Run(admits, tables, dir, entries).0, entries[k].1) == TableOf(tables, entries[k].1)
  {
    var model := entries[k].1;
    if k == |entries| - 1 {
      RunFrame(admits, tables, dir, entries[..k], model);
    } else {
      var init := entries[..|entries| - 1];
      RunSkipsUnreadFile(admits, tables, dir, init, k);
      var prev := Run(admits, tables, dir, init);
      var entry := entries[|entries| - 1];
      if Read(dir, entry.0).Rows? {
        LoadFrame(admits, prev.0, entry.1, Read(dir, entry.0).rows, model);
      }
    }
  }

  lemma FileNameModelDistinct()
    ensures DistinctModels(FileNameModel)
  {
  }

  /** One pass of the file loop: reads the file, then loads it or reports why it was skipped. */
  method HandleEntry(store: Store, dir: map<string, FileState>, fileName: string, model: ModelName,
                     log: seq<Message>) returns (messages: seq<Message>)
    modifies store
    ensures (store.tables, messages) == Step(store.admits, old(store.tables), log, dir, (fileName, model))
  {
    ghost var before := store.tables;
    var data := ReadCsvFile(dir, fileName);
    match data
    case NotFound =>
      messages := log + [FileMissing(fileName)];
    case ReadFailed =>
      messages := log + [FileUnreadable(fileName)];
    case Rows(_, rows) =>
      var loaded := LoadCsv(store, rows, model, fileName);
      ghost var l := Load(store.admits, before, model, rows);
      assert log + loaded == log + l.log + [Summary(fileName, |rows|, l.failed)];
      messages := log + loaded;
  }

  /** Walks the file table in order, skipping files that are missing or unreadable. */
  method Handle(store: Store, dir: map<string, FileState>) returns (messages: seq<Message>)
    modifies store
    ensures (store.tables, messages) == Run(store.admits, old(store.tables), dir, FileNameModel)
  {
    ghost var start := store.tables;
    messages := [];
    for i := 0 to |FileNameModel|
      invariant (store.tables, messages) == Run(store.admits, start, dir, FileNameModel[..i])
    {
      assert FileNameModel[..i + 1][..i] == FileNameModel[..i];
      var (fileName, model) := FileNameModel[i];
      messages := HandleEntry(store, dir, fileName, model, messages);
    }
    assert FileNameModel[..|FileNameModel|] == FileNameModel;
  }
}
