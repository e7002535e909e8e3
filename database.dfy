/**
 * The loader that copies the cleaned records into the `concursos` table and
 * then closes the contests whose start date has passed. The MySQL server is
 * modelled by an in-memory table of rows; the statements' effects follow
 * MySQL's documented semantics for `INSERT ... ON DUPLICATE KEY UPDATE` and
 * `UPDATE ... WHERE`. The connection, commits and logs are outside the model.
 */
module Database {
  import opened Wrappers
  import opened Json
  import opened Dates

  const TITLE := "title"
  const URL := "url"
  const STATE := "state"
  const JOB := "job"
  const PROCESSED_AT := "processed_at"
  const PDF_URL := "pdf_url"

  /** The two values of the `status` column this program writes. */
  const OPEN := "Aberto"
  const CLOSED := "Encerrado"

  /**
   * One row of `concursos`. A text column holds the text the connector sent
   * for the item's value; `None` in any column is SQL NULL.
   */
  datatype Row = Row(
    title: Option<string>,
    url: Option<string>,
    state: Option<string>,
    job: Option<string>,
    processedAt: DateTime,
    startDate: Option<Date>,
    pdfUrl: Option<string>,
    status: string)

  // ---------------------------------------------------------------------
  // From a JSON item to the row the upsert writes

  /**
   * `datetime.fromisoformat(item["processed_at"])`: a missing key raises a
   * KeyError, a non-string a TypeError, a text `fromIso` refuses a ValueError.
   */
  function ProcessedAt(item: Record, fromIso: string -> Option<DateTime>): (r: Option<DateTime>)
    ensures r.Some? ==> PROCESSED_AT in item && item[PROCESSED_AT].Str?
    ensures r.Some? ==> r == fromIso(item[PROCESSED_AT].s)
  {
    if PROCESSED_AT in item && item[PROCESSED_AT].Str? then fromIso(item[PROCESSED_AT].s) else None
  }

  /** The inner try of `insert_data`: any exception parsing `start_date` gives NULL. */
  function StartDate(item: Record): (r: Option<Date>)
    ensures r.Some? ==> START_DATE in item && item[START_DATE].Str? && ValidDate(r.value)
  {
    if START_DATE in item then StrToDate(item[START_DATE]) else None
  }

  /** The keys read with `item[...]`, whose absence raises a KeyError. */
  predicate HasRequiredKeys(item: Record)
  {
    TITLE in item && URL in item && STATE in item && PDF_URL in item
  }

  /** The connector can send the value: an array or an object makes `cursor.execute` raise. */
  predicate Convertible(v: Value)
    ensures v.Null? || v.Str? || v.Scalar? ==> Convertible(v)
  {
    !v.Composite?
  }

  /** What a text column stores for a value the connector sends: NULL or its text. */
  function SqlValue(v: Value): (c: Option<string>)
    requires Convertible(v)
    ensures c.None? <==> v.Null?
    ensures v.Str? ==> c == Some(v.s)
    ensures v.Scalar? ==> c == Some(v.text)
  {
    match v
    case Null => None
    case Str(s) => Some(s)
    case Scalar(t, _) => Some(t)
  }

  /** The text sent for a non-null value the connector accepts. */
  function SentText(v: Value): string
    requires Convertible(v) && !v.Null?
  {
    if v.Str? then v.s else v.text
  }

  /**
   * Two values the connector accepts are stored as the same column value
   * exactly when both are null or both send the same text.
   */
  lemma StoredColumnsEqual(a: Value, b: Value)
    requires Convertible(a) && Convertible(b)
    ensures SqlValue(a) == SqlValue(b) <==>
              (a.Null? && b.Null?) || (!a.Null? && !b.Null? && SentText(a) == SentText(b))
  {
  }

  /** `"url": 5` and `"url": "5"` are stored alike; `5` and `7` are not. */
  lemma NumberAndItsTextStoreAlike()
    ensures SqlValue(Scalar("5", true)) == SqlValue(Str("5"))
    ensures SqlValue(Scalar("5", true)) != SqlValue(Scalar("7", true))
  {
    StoredColumnsEqual(Scalar("5", true), Str("5"));
    StoredColumnsEqual(Scalar("5", true), Scalar("7", true));
  }

  /** The item's values for the text columns of the statement can all be sent. */
  predicate ColumnsConvertible(item: Record)
    requires HasRequiredKeys(item)
  {
    && Convertible(item[TITLE]) && Convertible(item[URL]) && Convertible(item[STATE])
    && Convertible(Get(item, JOB)) && Convertible(item[PDF_URL])
  }

  /**
   * The row one item of `insert_data` writes, or `None` when the item raises
   * (building the parameters or executing the statement) and is logged and
   * skipped.
   */
  function ToRow(item: Record, fromIso: string -> Option<DateTime>): (r: Option<Row>)
    ensures r.Some? ==> r.value.status == OPEN
    ensures r.Some? ==> HasRequiredKeys(item) && (r.value.url.Some? <==> !item[URL].Null?)
  {
    match ProcessedAt(item, fromIso)
    case None => None
    case Some(at) =>
      if !HasRequiredKeys(item) || !ColumnsConvertible(item) then None
      else Some(Row(SqlValue(item[TITLE]), SqlValue(item[URL]), SqlValue(item[STATE]),
                    SqlValue(Get(item, JOB)), at, StartDate(item), SqlValue(item[PDF_URL]), OPEN))
  }

  /**
   * An item is skipped exactly when `processed_at` does not parse, a required
   * key is missing, or one of the values sent is an array or an object.
   */
  lemma ToRowSkips(item: Record, fromIso: string -> Option<DateTime>)
    ensures ToRow(item, fromIso).None? <==>
              || PROCESSED_AT !in item
              || !item[PROCESSED_AT].Str?
              || fromIso(item[PROCESSED_AT].s).None?
              || TITLE !in item || URL !in item || STATE !in item || PDF_URL !in item
              || item[TITLE].Composite? || item[URL].Composite? || item[STATE].Composite?
              || Get(item, JOB).Composite? || item[PDF_URL].Composite?
  {
  }

  /** Two items whose urls send different texts write rows with different urls. */
  lemma DistinctUrlTextsAreDistinct(a: Record, b: Record, fromIso: string -> Option<DateTime>)
    requires ToRow(a, fromIso).Some? && ToRow(b, fromIso).Some?
    requires a[URL].Scalar? && b[URL].Scalar? && a[URL].text != b[URL].text
    ensures ToRow(a, fromIso).value.url != ToRow(b, fromIso).value.url
  {
  }

  /** Whatever `start_date` holds, or its absence, never decides whether the item is written. */
  lemma StartDateNeverSkips(item: Record, v: Value, fromIso: string -> Option<DateTime>)
    ensures ToRow(item[START_DATE := v], fromIso).Some? == ToRow(item, fromIso).Some?
    ensures ToRow(item - {START_DATE}, fromIso).Some? == ToRow(item, fromIso).Some?
  {
  }

  /** A `start_date` that spells a real date is stored as that date. */
  lemma SpelledStartDateIsStored(item: Record, fromIso: string -> Option<DateTime>,
                                 d: Date, ds: Style, ms: Style)
    requires ToRow(item, fromIso).Some?
    requires ValidDate(d) && DayStyleFits(ds, d.day) && MonthStyleFits(ms, d.month)
    requires START_DATE in item && item[START_DATE] == Str(Spelling(d, ds, ms))
    ensures ToRow(item, fromIso).value.startDate == Some(d)
  {
    ParseSpelling(d, ds, ms);
  }

  /**
   * A missing `start_date`, a non-string one, or a text that spells no real
   * date is stored as NULL.
   */
  lemma BadStartDateIsNull(item: Record, fromIso: string -> Option<DateTime>)
    requires ToRow(item, fromIso).Some?
    requires START_DATE in item && item[START_DATE].Str? ==>
               forall d: Date, ds: Style, ms: Style ::
                 ValidDate(d) && DayStyleFits(ds, d.day) && MonthStyleFits(ms, d.month)
                 ==> item[START_DATE].s != Spelling(d, ds, ms)
    ensures ToRow(item, fromIso).value.startDate == None
  {
    if START_DATE in item && item[START_DATE].Str? && ParseDate(item[START_DATE].s).Some? {
      ParsedIsSpelling(item[START_DATE].s);
      assert false;
    }
  }

  // ---------------------------------------------------------------------
  // INSERT ... ON DUPLICATE KEY UPDATE

  /**
   * Two rows collide on the table's unique key: `url`, together with
   * `title` when `titleInKey`. A NULL key column never collides.
   */
  predicate SameKey(titleInKey: bool, a: Row, b: Row)
    ensures SameKey(titleInKey, a, b) ==> a.url.Some? && a.url == b.url
    ensures a.url.None? || b.url.None? ==> !SameKey(titleInKey, a, b)
    ensures titleInKey && (a.title.None? || a.title != b.title) ==> !SameKey(titleInKey, a, b)
  {
    && a.url.Some? && a.url == b.url
    && (titleInKey ==> a.title.Some? && a.title == b.title)
  }

  ghost predicate UniqueKeys(rows: seq<Row>, titleInKey: bool)
  {
    forall i, j :: 0 <= i < j < |rows| ==> !SameKey(titleInKey, rows[i], rows[j])
  }

  /** The row whose key the new row collides with, if any. */
  function FindDuplicate(rows: seq<Row>, n: Row, titleInKey: bool): (r: Option<nat>)
    ensures r.Some? ==> r.value < |rows| && SameKey(titleInKey, rows[r.value], n)
    ensures r.None? ==> forall i :: 0 <= i < |rows| ==> !SameKey(titleInKey, rows[i], n)
    decreases |rows|
  {
    if rows == [] then None
    else if SameKey(titleInKey, rows[0], n) then Some(0)
    else
      match FindDuplicate(rows[1..], n, titleInKey)
      case None => None
      case Some(i) => Some(i + 1)
  }

  /** `ON DUPLICATE KEY UPDATE`: every listed column takes the new value, status becomes 'Aberto'. */
  function Merge(existing: Row, n: Row): (r: Row)
    ensures r.url == existing.url && r.status == OPEN
    ensures existing.url == n.url && n.status == OPEN ==> r == n
  {
    existing.(title := n.title, state := n.state, job := n.job, processedAt := n.processedAt,
              startDate := n.startDate, pdfUrl := n.pdfUrl, status := OPEN)
  }

  /** The table after one upsert, and the affected-row count MySQL reports for it. */
  datatype Upserted = Upserted(rows: seq<Row>, rowCount: nat)

  /**
   * One execution of the upsert: a new key inserts the row (count 1); a
   * colliding key updates that row (count 2), or leaves it as it was when the
   * new values equal the old ones (count 0).
   */
  function Upsert(rows: seq<Row>, n: Row, titleInKey: bool): (u: Upserted)
    ensures u.rowCount <= 2
    ensures |u.rows| == |rows| + (if u.rowCount == 1 then 1 else 0)
  {
    match FindDuplicate(rows, n, titleInKey)
    case None => Upserted(rows + [n], 1)
    case Some(i) =>
      var m := Merge(rows[i], n);
      Upserted(rows[i := m], if m == rows[i] then 0 else 2)
  }

  /**
   * What one upsert does: count 1 appends the row and happens exactly when no
   * row shares its key; otherwise the table keeps its size and changes at most
   * one row, count 0 meaning it did not change at all. Either way a row written
   * with status 'Aberto' ends up in the table.
   */
  lemma UpsertEffect(rows: seq<Row>, n: Row, titleInKey: bool)
    requires n.status == OPEN
    ensures var u := Upsert(rows, n, titleInKey);
      && u.rowCount <= 2
      && (u.rowCount == 1 <==> forall i :: 0 <= i < |rows| ==> !SameKey(titleInKey, rows[i], n))
      && (u.rowCount == 1 ==> u.rows == rows + [n])
      && (u.rowCount != 1 ==>
            (|u.rows| == |rows|
             && exists i :: 0 <= i < |rows| && u.rows == rows[i := n] && SameKey(titleInKey, rows[i], n)))
      && (u.rowCount == 0 <==> u.rows == rows)
      && n in u.rows
  {
  }

  lemma UpsertKeepsKeysUnique(rows: seq<Row>, n: Row, titleInKey: bool)
    requires UniqueKeys(rows, titleInKey)
    ensures UniqueKeys(Upsert(rows, n, titleInKey).rows, titleInKey)
  {
  }

  /** A stored row whose key the new row does not share survives the upsert. */
  lemma UpsertKeepsOtherRows(rows: seq<Row>, n: Row, titleInKey: bool, x: Row)
    requires x in rows && !SameKey(titleInKey, x, n)
    ensures x in Upsert(rows, n, titleInKey).rows
  {
    match FindDuplicate(rows, n, titleInKey)
    case None =>
    case Some(i) =>
      var j :| 0 <= j < |rows| && rows[j] == x;
      assert j != i;
      assert Upsert(rows, n, titleInKey).rows[j] == x;
  }

  // ---------------------------------------------------------------------
  // The loop of insert_data

  /** The table and the two counters of `insert_data`. */
  datatype Batch = Batch(rows: seq<Row>, inserted: nat, updated: nat)

  /** One iteration: skip the item, or upsert its row and count by the reported row count. */
  function Step(b: Batch, item: Record, fromIso: string -> Option<DateTime>, titleInKey: bool): (r: Batch)
    ensures b.inserted <= r.inserted <= b.inserted + 1 && b.updated <= r.updated <= b.updated + 1
  {
    match ToRow(item, fromIso)
    case None => b
    case Some(n) =>
      var u := Upsert(b.rows, n, titleInKey);
      Batch(u.rows,
            b.inserted + (if u.rowCount == 1 then 1 else 0),
            b.updated + (if u.rowCount == 2 then 1 else 0))
  }

  function Run(b: Batch, data: seq<Record>, fromIso: string -> Option<DateTime>, titleInKey: bool): (r: Batch)
    ensures b.inserted <= r.inserted && b.updated <= r.updated
    decreases |data|
  {
    if data == [] then b
    else Step(Run(b, data[..|data| - 1], fromIso, titleInKey), data[|data| - 1], fromIso, titleInKey)
  }

  lemma {:induction false} RunAppend(b: Batch, xs: seq<Record>, ys: seq<Record>,
                                     fromIso: string -> Option<DateTime>, titleInKey: bool)
    ensures Run(b, xs + ys, fromIso, titleInKey) == Run(Run(b, xs, fromIso, titleInKey), ys, fromIso, titleInKey)
    decreases |ys|
  {
    if ys == [] {
      assert xs + ys == xs;
    } else {
      var ys' := ys[..|ys| - 1];
      assert (xs + ys)[..|xs + ys| - 1] == xs + ys';
      assert (xs + ys)[|xs + ys| - 1] == ys[|ys| - 1];
      RunAppend(b, xs, ys', fromIso, titleInKey);
    }
  }

  /** A skipped item leaves no trace: the batch goes on as if it were not there. */
  lemma SkippedItemIsNoOp(b: Batch, xs: seq<Record>, item: Record, ys: seq<Record>,
                          fromIso: string -> Option<DateTime>, titleInKey: bool)
    requires ToRow(item, fromIso).None?
    ensures Run(b, xs + [item] + ys, fromIso, titleInKey) == Run(b, xs + ys, fromIso, titleInKey)
  {
    RunAppend(b, xs + [item], ys, fromIso, titleInKey);
    RunAppend(b, xs, [item], fromIso, titleInKey);
    assert Run(Run(b, xs, fromIso, titleInKey), [item], fromIso, titleInKey) == Run(b, xs, fromIso, titleInKey) by {
      assert [item][..0] == [];
    }
    RunAppend(b, xs, ys, fromIso, titleInKey);
  }

  /**
   * The counters: each insert adds exactly one row, and at most one of the
   * two counters moves per item.
   */
  lemma {:induction false} RunCounts(b: Batch, data: seq<Record>,
                                     fromIso: string -> Option<DateTime>, titleInKey: bool)
    requires |b.rows| == b.inserted
    ensures var r := Run(b, data, fromIso, titleInKey);
      && |r.rows| == r.inserted
      && r.inserted + r.updated <= b.inserted + b.updated + |data|
      && b.updated <= r.updated
    decreases |data|
  {
    if data != [] {
      var init := data[..|data| - 1];
      RunCounts(b, init, fromIso, titleInKey);
      var c := Run(b, init, fromIso, titleInKey);
      match ToRow(data[|data| - 1], fromIso)
      case None =>
      case Some(n) => UpsertEffect(c.rows, n, titleInKey);
    }
  }

  /**
   * Over a whole `insert_data` call: `inserted_count + updated_count` is at
   * most the number of items, and the table grows by exactly `inserted_count`.
   */
  lemma RunCountsFrom(rows: seq<Row>, data: seq<Record>,
                      fromIso: string -> Option<DateTime>, titleInKey: bool)
    ensures var r := Run(Batch(rows, 0, 0), data, fromIso, titleInKey);
      r.inserted + r.updated <= |data| && |r.rows| == |rows| + r.inserted
  {
    var shifted := ShiftInserted(Batch(rows, 0, 0), |rows|);
    RunCounts(shifted, data, fromIso, titleInKey);
    RunShift(Batch(rows, 0, 0), data, fromIso, titleInKey, |rows|);
  }

  /** The same batch with the insert counter started at `k`. */
  function ShiftInserted(b: Batch, k: nat): Batch
  {
    b.(inserted := b.inserted + k)
  }

  lemma {:induction false} RunShift(b: Batch, data: seq<Record>,
                                    fromIso: string -> Option<DateTime>, titleInKey: bool, k: nat)
    ensures Run(ShiftInserted(b, k), data, fromIso, titleInKey)
            == ShiftInserted(Run(b, data, fromIso, titleInKey), k)
    decreases |data|
  {
    if data != [] {
      RunShift(b, data[..|data| - 1], fromIso, titleInKey, k);
    }
  }

  /** Every row of the table after the batch was there before or was written with status 'Aberto'. */
  lemma {:induction false} RunWritesOpen(b: Batch, data: seq<Record>,
                                         fromIso: string -> Option<DateTime>, titleInKey: bool)
    ensures forall r :: r in Run(b, data, fromIso, titleInKey).rows ==> r in b.rows || r.status == OPEN
    decreases |data|
  {
    if data != [] {
      var init := data[..|data| - 1];
      RunWritesOpen(b, init, fromIso, titleInKey);
      var c := Run(b, init, fromIso, titleInKey);
      match ToRow(data[|data| - 1], fromIso)
      case None =>
      case Some(n) =>
        match FindDuplicate(c.rows, n, titleInKey)
        case None =>
        case Some(i) =>
          forall r | r in c.rows[i := Merge(c.rows[i], n)] ensures r in b.rows || r.status == OPEN {
            var j :| 0 <= j < |c.rows| && c.rows[i := Merge(c.rows[i], n)][j] == r;
            if j != i { assert r in c.rows; }
          }
    }
  }

  /**
   * An item that is not skipped is stored, as its row, unless a later
   * item collides with it on the unique key (the later one then wins).
   */
  lemma {:induction false} AcceptedItemIsStored(b: Batch, data: seq<Record>, k: nat,
                                                fromIso: string -> Option<DateTime>, titleInKey: bool)
    requires k < |data| && ToRow(data[k], fromIso).Some?
    requires forall j :: k < j < |data| && ToRow(data[j], fromIso).Some? ==>
               !SameKey(titleInKey, ToRow(data[k], fromIso).value, ToRow(data[j], fromIso).value)
    ensures ToRow(data[k], fromIso).value in Run(b, data, fromIso, titleInKey).rows
    decreases |data|
  {
    var n := ToRow(data[k], fromIso).value;
    var init := data[..|data| - 1];
    var c := Run(b, init, fromIso, titleInKey);
    if k == |data| - 1 {
      UpsertEffect(c.rows, n, titleInKey);
    } else {
      assert init[k] == data[k];
      AcceptedItemIsStored(b, init, k, fromIso, titleInKey);
      match ToRow(data[|data| - 1], fromIso)
      case None =>
      case Some(m) => UpsertKeepsOtherRows(c.rows, m, titleInKey, n);
    }
  }

  lemma {:induction false} RunKeepsKeysUnique(b: Batch, data: seq<Record>,
                                              fromIso: string -> Option<DateTime>, titleInKey: bool)
    requires UniqueKeys(b.rows, titleInKey)
    ensures UniqueKeys(Run(b, data, fromIso, titleInKey).rows, titleInKey)
    decreases |data|
  {
    if data != [] {
      var init := data[..|data| - 1];
      RunKeepsKeysUnique(b, init, fromIso, titleInKey);
      match ToRow(data[|data| - 1], fromIso)
      case None =>
      case Some(n) => UpsertKeepsKeysUnique(Run(b, init, fromIso, titleInKey).rows, n, titleInKey);
    }
  }

  // ---------------------------------------------------------------------
  // UPDATE ... SET status = 'Encerrado' WHERE start_date < CURDATE() ...

  /** The WHERE clause of `update_expired_concursos`. */
  predicate Expirable(r: Row, today: Date)
    ensures Expirable(r, today) ==> r.(status := CLOSED) != r
    ensures !Expirable(r, today) && r.startDate.Some? && Before(r.startDate.value, today) ==> r.status == CLOSED
  {
    r.startDate.Some? && Before(r.startDate.value, today) && r.status != CLOSED
  }

  /**
   * The table after the UPDATE: rows with a start date before today are
   * 'Encerrado'; every other row, and every other column, is as before.
   */
  function ExpireAll(rows: seq<Row>, today: Date): (r: seq<Row>)
    ensures |r| == |rows|
    ensures forall i :: 0 <= i < |rows| && rows[i].startDate.Some? && Before(rows[i].startDate.value, today)
              ==> r[i].status == CLOSED
    ensures forall i :: 0 <= i < |rows| && !(rows[i].startDate.Some? && Before(rows[i].startDate.value, today))
              ==> r[i] == rows[i]
    ensures forall i :: 0 <= i < |rows| ==> r[i] == rows[i].(status := r[i].status)
  {
    seq(|rows|, i requires 0 <= i < |rows| =>
      if Expirable(rows[i], today) then rows[i].(status := CLOSED) else rows[i])
  }

  /** How many rows the WHERE clause selects. */
  function CountExpirable(rows: seq<Row>, today: Date): (n: nat)
    ensures n <= |rows|
    decreases |rows|
  {
    if rows == [] then 0
    else (if Expirable(rows[0], today) then 1 else 0) + CountExpirable(rows[1..], today)
  }

  /** How many positions of two equally long tables hold different rows. */
  function Changed(a: seq<Row>, b: seq<Row>): (n: nat)
    requires |a| == |b|
    ensures n <= |a|
    ensures a == b ==> n == 0
    decreases |a|
  {
    if a == [] then 0
    else (if a[0] != b[0] then 1 else 0) + Changed(a[1..], b[1..])
  }

  /** The count the UPDATE reports is the number of rows it changed. */
  lemma {:induction false} ExpireAllReportsChanges(rows: seq<Row>, today: Date)
    ensures CountExpirable(rows, today) == Changed(rows, ExpireAll(rows, today))
    decreases |rows|
  {
    if rows != [] {
      assert ExpireAll(rows, today)[1..] == ExpireAll(rows[1..], today);
      ExpireAllReportsChanges(rows[1..], today);
    }
  }

  lemma {:induction false} NoneExpirable(rows: seq<Row>, today: Date)
    requires forall i :: 0 <= i < |rows| ==> !Expirable(rows[i], today)
    ensures CountExpirable(rows, today) == 0
    decreases |rows|
  {
    if rows != [] {
      NoneExpirable(rows[1..], today);
    }
  }

  /** An immediate second UPDATE selects no row and changes nothing. */
  lemma SecondUpdateIsNoOp(rows: seq<Row>, today: Date)
    ensures CountExpirable(ExpireAll(rows, today), today) == 0
    ensures ExpireAll(ExpireAll(rows, today), today) == ExpireAll(rows, today)
  {
    NoneExpirable(ExpireAll(rows, today), today);
  }

  // ---------------------------------------------------------------------
  // The table

  /** The `concursos` table as this program sees it through its connection. */
  class Table {
    var rows: seq<Row>
    /** Whether the unique key the upsert collides on includes `title` besides `url`. */
    const titleInKey: bool

    ghost predicate Valid()
      reads this
    {
      UniqueKeys(rows, titleInKey)
    }

    constructor (titleInKey: bool)
      ensures Valid() && rows == [] && this.titleInKey == titleInKey
    {
      this.titleInKey := titleInKey;
      rows := [];
    }

    /** `cursor.execute` of the upsert, returning `cursor.rowcount`. */
    method Execute(n: Row) returns (rowCount: nat)
      requires Valid()
      modifies this
      ensures Valid()
      ensures Upserted(rows, rowCount) == Upsert(old(rows), n, titleInKey)
    {
      UpsertKeepsKeysUnique(rows, n, titleInKey);
      var u := Upsert(rows, n, titleInKey);
      rows, rowCount := u.rows, u.rowCount;
    }

    /**
     * `insert_data`: every item is turned into a row and upserted, skipping
     * the items that raise; returns the inserted and updated counts.
     */
    method InsertData(data: seq<Record>, fromIso: string -> Option<DateTime>)
      returns (inserted: nat, updated: nat)
      requires Valid()
      modifies this
      ensures Valid()
      ensures Batch(rows, inserted, updated) == Run(Batch(old(rows), 0, 0), data, fromIso, titleInKey)
      ensures inserted + updated <= |data| && |rows| == |old(rows)| + inserted
    {
      inserted, updated := 0, 0;
      for i := 0 to |data|
        invariant Valid()
        invariant Batch(rows, inserted, updated) == Run(Batch(old(rows), 0, 0), data[..i], fromIso, titleInKey)
      {
        var item := data[i];
        assert data[..i + 1][..i] == data[..i];
        match ToRow(item, fromIso)
        case None =>
          // the item raised: it is logged and the loop goes on
        case Some(n) =>
          var rowCount := Execute(n);
          if rowCount == 1 {
            inserted := inserted + 1;
          } else if rowCount == 2 {
            updated := updated + 1;
          }
      }
      assert data[..|data|] == data;
      RunCountsFrom(old(rows), data, fromIso, titleInKey);
    }

    /**
     * `update_expired_concursos`: closes every row whose start date is before
     * `today` and returns the affected-row count. When the statement raises
     * (`fails`), the transaction is rolled back and 0 is returned.
     */
    method UpdateExpired(today: Date, fails: bool) returns (affected: nat)
      requires Valid()
      modifies this
      ensures Valid()
      ensures fails ==> rows == old(rows) && affected == 0
      ensures !fails ==> rows == ExpireAll(old(rows), today) && affected == Changed(old(rows), rows)
    {
      if fails {
        affected := 0;
      } else {
        ExpireAllReportsChanges(rows, today);
        affected := CountExpirable(rows, today);
        rows := ExpireAll(rows, today);
      }
    }
  }
}
