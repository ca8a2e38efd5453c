/**
 * `Extractor.update_database`: every entry of every flat document dict
 * becomes one database row, inserted in order until an insert raises; the
 * connection is closed exactly once whatever happens.
 */
module Storage {
  import opened Wrappers
  import opened Dicts
  import opened Fields
  import opened Flatten

  /** The arguments every row of one call shares. */
  datatype Job = Job(clientId: string, sasUrl: string, docName: string, formType: string, accessId: string)

  /** The columns one `post2postgres_extract` call writes. */
  datatype Row = Row(
    clientId: string,
    docUrl: string,
    docName: string,
    docStatus: string,
    docType: string,
    fieldName: string,
    fieldValue: string,
    confidence: Option<real>,
    accessId: string)

  /** The calls made on the database connection, in order. */
  datatype DbCall = Insert(row: Row) | Close

  const ExtractedStatus: string := "extracted"

  /**
   * The row for one dict entry. A value/confidence record stores `str(value)`
   * and its confidence; any other entry stores `str(entry)` and no confidence.
   * `render` is Python's `str()`.
   */
  function EntryRow(job: Job, name: string, e: Entry, render: Value -> string): Row {
    var (text, confidence) :=
      match e
      case Record(v, c) => (render(v), c)
      case Plain(v) => (render(v), None);
    Row(job.clientId, job.sasUrl, job.docName, ExtractedStatus, job.formType, name, text, confidence, job.accessId)
  }

  /** The rows of one flat document, in the dict's insertion order. */
  function DocRows(job: Job, doc: Dict<Entry>, render: Value -> string): (rows: seq<Row>)
    ensures |rows| == |doc|
    ensures forall j :: 0 <= j < |doc| ==> rows[j] == EntryRow(job, doc[j].0, doc[j].1, render)
  {
    seq(|doc|, j requires 0 <= j < |doc| => EntryRow(job, doc[j].0, doc[j].1, render))
  }

  /** Reference order of all rows: document by document, each in insertion order. */
  function AllRows(job: Job, docs: seq<Dict<Entry>>, render: Value -> string): seq<Row>
    decreases |docs|
  {
    if |docs| == 0 then []
    else AllRows(job, docs[..|docs| - 1], render) + DocRows(job, docs[|docs| - 1], render)
  }

  /** The number of entries over all documents. */
  function EntryCount(docs: seq<Dict<Entry>>): nat
    decreases |docs|
  {
    if |docs| == 0 then 0 else EntryCount(docs[..|docs| - 1]) + |docs[|docs| - 1]|
  }

  /** The rows of all documents number as many as their entries. */
  lemma {:induction false} AllRowsLength(job: Job, docs: seq<Dict<Entry>>, render: Value -> string)
    ensures |AllRows(job, docs, render)| == EntryCount(docs)
    decreases |docs|
  {
    if |docs| > 0 {
      AllRowsLength(job, docs[..|docs| - 1], render);
    }
  }

  /**
   * One row per (document, entry) pair: entry `j` of document `i` is row
   * `EntryCount(docs[..i]) + j`, so rows follow document order and then
   * insertion order.
   */
  lemma {:induction false} AllRowsOrder(job: Job, docs: seq<Dict<Entry>>, render: Value -> string, i: nat, j: nat)
    requires i < |docs| && j < |docs[i]|
    ensures EntryCount(docs[..i]) + j < |AllRows(job, docs, render)|
    ensures var row := AllRows(job, docs, render)[EntryCount(docs[..i]) + j];
      var (name, e) := docs[i][j];
      && row.fieldName == name
      && (e.Record? ==> row.fieldValue == render(e.value) && row.confidence == e.confidence)
      && (e.Plain? ==> row.fieldValue == render(e.v) && row.confidence == None)
    decreases |docs|
  {
    var n := |docs| - 1;
    var prev := docs[..n];
    AllRowsLength(job, prev, render);
    if i < n {
      AllRowsOrder(job, prev, render, i, j);
      assert prev[..i] == docs[..i];
    } else {
      assert docs[..i] == prev;
    }
  }

  /** Every row carries the call's client, URL, document name, form type and access id, with status 'extracted'. */
  lemma {:induction false} AllRowsShared(job: Job, docs: seq<Dict<Entry>>, render: Value -> string)
    ensures forall r :: r in AllRows(job, docs, render) ==>
      && r.docStatus == ExtractedStatus && r.docType == job.formType && r.docUrl == job.sasUrl
      && r.clientId == job.clientId && r.docName == job.docName && r.accessId == job.accessId
    decreases |docs|
  {
    if |docs| > 0 {
      AllRowsShared(job, docs[..|docs| - 1], render);
    }
  }

  /** The rows of the first `i` documents come first. */
  lemma {:induction false} AllRowsPrefix(job: Job, docs: seq<Dict<Entry>>, render: Value -> string, i: nat)
    requires i <= |docs|
    ensures AllRows(job, docs[..i], render) <= AllRows(job, docs, render)
    decreases |docs| - i
  {
    if i < |docs| {
      AllRowsPrefix(job, docs, render, i + 1);
      assert docs[..i + 1][..i] == docs[..i];
    } else {
      assert docs[..i] == docs;
    }
  }

  /** The calls that insert `rows`, one after another. */
  function Inserts(rows: seq<Row>): (calls: seq<DbCall>)
    ensures |calls| == |rows|
    ensures forall n :: 0 <= n < |rows| ==> calls[n] == Insert(rows[n])
  {
    seq(|rows|, n requires 0 <= n < |rows| => Insert(rows[n]))
  }

  /** Whether row `n` of `rows`, inserted as call number `start + n`, succeeds. */
  predicate Accepted(rows: seq<Row>, accepts: (nat, Row) -> bool, start: nat, n: nat)
    requires n < |rows|
  {
    accepts(start + n, rows[n])
  }

  /**
   * The position of the first row whose insert raises, or `|rows|` when none
   * does. `accepts(c, row)` says whether the connection's insert call number
   * `c` succeeds; the rows here are calls `start`, `start + 1`, ...
   */
  function FirstRejected(rows: seq<Row>, accepts: (nat, Row) -> bool, start: nat): (k: nat)
    ensures k <= |rows|
    ensures forall n :: 0 <= n < k ==> Accepted(rows, accepts, start, n)
    ensures k < |rows| ==> !Accepted(rows, accepts, start, k)
  {
    ScanFrom(rows, accepts, start, 0)
  }

  /** FirstRejected, scanning from position `from` on. */
  function ScanFrom(rows: seq<Row>, accepts: (nat, Row) -> bool, start: nat, from: nat): (k: nat)
    requires from <= |rows|
    requires forall n :: 0 <= n < from ==> Accepted(rows, accepts, start, n)
    ensures from <= k <= |rows|
    ensures forall n :: 0 <= n < k ==> Accepted(rows, accepts, start, n)
    ensures k < |rows| ==> !Accepted(rows, accepts, start, k)
    decreases |rows| - from
  {
    if from == |rows| || !accepts(start + from, rows[from]) then from
    else ScanFrom(rows, accepts, start, from + 1)
  }

  /** The first rejection is the only position that meets FirstRejected's contract. */
  lemma FirstRejectedUnique(rows: seq<Row>, accepts: (nat, Row) -> bool, start: nat, k: nat)
    requires k <= |rows|
    requires forall n :: 0 <= n < k ==> Accepted(rows, accepts, start, n)
    requires k < |rows| ==> !Accepted(rows, accepts, start, k)
    ensures FirstRejected(rows, accepts, start) == k
  {
    var f := FirstRejected(rows, accepts, start);
    assert f < |rows| ==> !Accepted(rows, accepts, start, f);
  }

  /** Inserting `a` then `b`: the first rejection is in `a`, or else it is the first rejection of `b`. */
  lemma FirstRejectedConcat(a: seq<Row>, b: seq<Row>, accepts: (nat, Row) -> bool, start: nat)
    ensures var ka := FirstRejected(a, accepts, start);
      FirstRejected(a + b, accepts, start) ==
        if ka < |a| then ka else |a| + FirstRejected(b, accepts, start + |a|)
  {
    var ka := FirstRejected(a, accepts, start);
    var ab := a + b;
    if ka < |a| {
      forall n | 0 <= n < ka
        ensures Accepted(ab, accepts, start, n)
      {
        assert Accepted(a, accepts, start, n);
        assert ab[n] == a[n];
      }
      assert !Accepted(a, accepts, start, ka);
      assert ab[ka] == a[ka];
      FirstRejectedUnique(ab, accepts, start, ka);
    } else {
      var kb := FirstRejected(b, accepts, start + |a|);
      forall n | 0 <= n < |a| + kb
        ensures Accepted(ab, accepts, start, n)
      {
        if n < |a| {
          assert Accepted(a, accepts, start, n);
        } else {
          assert Accepted(b, accepts, start + |a|, n - |a|);
          assert ab[n] == b[n - |a|];
        }
      }
      if kb < |b| {
        assert !Accepted(b, accepts, start + |a|, kb);
        assert ab[|a| + kb] == b[kb];
      }
      FirstRejectedUnique(ab, accepts, start, |a| + kb);
    }
  }

  /**
   * The inner loop of `update_database` over one flat document: its rows are
   * inserted in order, starting at call number `start`, until one insert
   * raises. `attempted` are the rows whose insert was called.
   */
  method InsertDocument(job: Job, doc: Dict<Entry>, render: Value -> string, accepts: (nat, Row) -> bool, start: nat)
    returns (attempted: seq<Row>, failedField: Option<string>)
    ensures var rows := DocRows(job, doc, render);
      var k := FirstRejected(rows, accepts, start);
      && attempted == rows[..if k < |rows| then k + 1 else k]
      && failedField == (if k < |rows| then Some(rows[k].fieldName) else None)
  {
    ghost var rows := DocRows(job, doc, render);
    attempted := [];
    failedField := None;
    var j := 0;
    while j < |doc| && failedField.None?
      invariant 0 <= j <= |doc|
      invariant attempted == rows[..j]
      invariant failedField.None? ==> forall n :: 0 <= n < j ==> Accepted(rows, accepts, start, n)
      invariant failedField.Some? ==>
        && 0 < j
        && (forall n :: 0 <= n < j - 1 ==> Accepted(rows, accepts, start, n))
        && !Accepted(rows, accepts, start, j - 1)
        && failedField == Some(rows[j - 1].fieldName)
      decreases |doc| - j
    {
      var (name, entry) := doc[j];
      var row := EntryRow(job, name, entry, render);
      assert rows[..j + 1] == rows[..j] + [row];
      attempted := attempted + [row];
      if !accepts(start + j, row) {
        failedField := Some(name);
      }
      j := j + 1;
    }
    if failedField.None? {
      FirstRejectedUnique(rows, accepts, start, j);
    } else {
      FirstRejectedUnique(rows, accepts, start, j - 1);
    }
  }

  /**
   * `update_database`. Inserts the rows of `docs` in order; the first insert
   * that raises ends both loops (its field name is the one reported) and no
   * later row is attempted. The connection is closed exactly once, last.
   */
  method UpdateDatabase(job: Job, docs: seq<Dict<Entry>>, render: Value -> string, accepts: (nat, Row) -> bool)
    returns (calls: seq<DbCall>, failedField: Option<string>)
    ensures var rows := AllRows(job, docs, render);
      var k := FirstRejected(rows, accepts, 0);
      && calls == Inserts(rows[..if k < |rows| then k + 1 else k]) + [Close]
      && failedField == (if k < |rows| then Some(rows[k].fieldName) else None)
    ensures |calls| > 0 && calls[|calls| - 1] == Close
    ensures forall n :: 0 <= n < |calls| - 1 ==> calls[n].Insert?
  {
    ghost var rows := AllRows(job, docs, render);
    ghost var attempted: seq<Row> := [];
    calls := [];
    failedField := None;
    var i := 0;
    while i < |docs| && failedField.None?
      invariant 0 <= i <= |docs|
      invariant calls == Inserts(attempted)
      invariant failedField.None? ==>
        attempted == AllRows(job, docs[..i], render) && FirstRejected(attempted, accepts, 0) == |attempted|
      invariant failedField.Some? ==>
        var k := FirstRejected(rows, accepts, 0);
        k < |rows| && attempted == rows[..k + 1] && failedField == Some(rows[k].fieldName)
      decreases |docs| - i
    {
      var part, failed := InsertDocument(job, docs[i], render, accepts, |calls|);
      DocumentStep(job, docs, render, accepts, i, attempted, part, failed);
      InsertsConcat(attempted, part);
      attempted := attempted + part;
      calls := calls + Inserts(part);
      failedField := failed;
      i := i + 1;
    }
    if failedField.None? {
      assert docs[..i] == docs;
    }
    calls := calls + [Close];
  }

  /** Inserting `a` then `b` is inserting `a + b`. */
  lemma InsertsConcat(a: seq<Row>, b: seq<Row>)
    ensures Inserts(a + b) == Inserts(a) + Inserts(b)
  {
  }

  /** One iteration of UpdateDatabase's outer loop, in terms of the reference row order. */
  lemma DocumentStep(job: Job, docs: seq<Dict<Entry>>, render: Value -> string, accepts: (nat, Row) -> bool,
                     i: nat, attempted: seq<Row>, part: seq<Row>, failed: Option<string>)
    requires i < |docs|
    requires attempted == AllRows(job, docs[..i], render) && FirstRejected(attempted, accepts, 0) == |attempted|
    requires var rs := DocRows(job, docs[i], render);
      var k := FirstRejected(rs, accepts, |attempted|);
      && part == rs[..if k < |rs| then k + 1 else k]
      && failed == (if k < |rs| then Some(rs[k].fieldName) else None)
    ensures failed.None? ==>
      attempted + part == AllRows(job, docs[..i + 1], render) &&
      FirstRejected(attempted + part, accepts, 0) == |attempted + part|
    ensures failed.Some? ==>
      var rows := AllRows(job, docs, render);
      var k := FirstRejected(rows, accepts, 0);
      k < |rows| && attempted + part == rows[..k + 1] && failed == Some(rows[k].fieldName)
  {
    var rs := DocRows(job, docs[i], render);
    AllRowsNext(job, docs, render, i);
    AllRowsPrefix(job, docs, render, i + 1);
    PrefixStep(AllRows(job, docs, render), attempted, rs, part, accepts);
  }

  /** The rows of the first `i + 1` documents are those of the first `i` and then document `i`'s. */
  lemma AllRowsNext(job: Job, docs: seq<Dict<Entry>>, render: Value -> string, i: nat)
    requires i < |docs|
    ensures AllRows(job, docs[..i + 1], render) == AllRows(job, docs[..i], render) + DocRows(job, docs[i], render)
  {
    assert docs[..i + 1][..i] == docs[..i];
  }

  /**
   * Inserting the part `b` after an all-accepted prefix `a` of `rows`: either
   * all of `b` is accepted, or its first rejection is the first of `rows`.
   */
  lemma PrefixStep(rows: seq<Row>, a: seq<Row>, b: seq<Row>, part: seq<Row>, accepts: (nat, Row) -> bool)
    requires a + b <= rows
    requires FirstRejected(a, accepts, 0) == |a|
    requires var k := FirstRejected(b, accepts, |a|); part == b[..if k < |b| then k + 1 else k]
    ensures FirstRejected(b, accepts, |a|) == |b| ==> a + part == a + b && FirstRejected(a + part, accepts, 0) == |a + part|
    ensures var k := FirstRejected(b, accepts, |a|);
      k < |b| ==>
        && FirstRejected(rows, accepts, 0) == |a| + k
        && a + part == rows[..|a| + k + 1]
        && rows[|a| + k] == b[k]
  {
    var k := FirstRejected(b, accepts, |a|);
    if k < |b| {
      RejectedAfterPrefix(rows, a, b, accepts, k);
      assert rows[..|a| + k + 1] == a + b[..k + 1];
    } else {
      assert part == b;
      FirstRejectedConcat(a, b, accepts, 0);
    }
  }

  /** The first rejection `k` of `b`, placed after the all-accepted `a`, is the first of `rows`. */
  lemma RejectedAfterPrefix(rows: seq<Row>, a: seq<Row>, b: seq<Row>, accepts: (nat, Row) -> bool, k: nat)
    requires a + b <= rows
    requires FirstRejected(a, accepts, 0) == |a|
    requires k == FirstRejected(b, accepts, |a|) && k < |b|
    ensures FirstRejected(rows, accepts, 0) == |a| + k
  {
    forall n | 0 <= n < |a| + k
      ensures Accepted(rows, accepts, 0, n)
    {
      if n < |a| {
        assert Accepted(a, accepts, 0, n);
        assert rows[n] == (a + b)[n] == a[n];
      } else {
        assert Accepted(b, accepts, |a|, n - |a|);
        assert rows[n] == (a + b)[n] == b[n - |a|];
      }
    }
    assert !Accepted(b, accepts, |a|, k);
    assert rows[|a| + k] == (a + b)[|a| + k] == b[k];
    FirstRejectedUnique(rows, accepts, 0, |a| + k);
  }
}
