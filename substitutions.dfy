/**
  The substitution table (main.go:53, 67-84): a multimap from a canonical
  "from" key to the ordered list of canonical "to" keys read for it.
 */
module Substitutions {
  import opened Wrappers
  import opened PartKeys

  /** `map[string][]string`; a key that is absent reads as the empty list. */
  type Table = map<string, seq<string>>

  /** One record of the tab-separated input, as the CSV reader returns it. */
  type Record = seq<string>

  /** The CSV reader is configured to demand exactly this many fields per record. */
  const FieldsPerRecord: nat := 4

  /**
    The fatal outcomes of the record loop, both tagged with the 0-based index
    of the record: a record with the wrong number of fields (the reader's
    error, passed to log.Fatal), and a column index beyond the record (an
    index-out-of-range panic).
   */
  datatype ReadError = FieldCount(row: nat) | ColumnOutOfRange(row: nat)

  /** The list `substitutes[k]` reads, `nil` (empty) when `k` is absent. */
  function Successors(t: Table, k: string): seq<string> {
    if k in t then t[k] else []
  }

  /** One edge (main.go:81-83). */
  function AddEdge(t: Table, from: string, to: string): Table {
    if |from| > 0 && |to| > 0 then t[from := Successors(t, from) + [to]] else t
  }

  /**
    An edge changes the table only when both keys are non-empty; it then
    appends `to` at the end of the list of `from`, creating the list if
    absent, and leaves every other list as it was.
   */
  lemma AddEdgeEffect(t: Table, from: string, to: string)
    ensures AddEdge(t, from, to).Keys == if from != [] && to != [] then t.Keys + {from} else t.Keys
    ensures forall k :: Successors(AddEdge(t, from, to), k) ==
                        (if k == from && from != [] && to != [] then Successors(t, k) + [to] else Successors(t, k))
  {
  }

  /** The first edge of a key creates its list. */
  lemma AddEdgeNew(t: Table, from: string, to: string)
    requires from != [] && to != [] && from !in t
    ensures AddEdge(t, from, to) == t[from := [to]]
  {
    assert Successors(t, from) + [to] == [to];
  }

  /** A later edge of a key is appended to its list. */
  lemma AddEdgeExisting(t: Table, from: string, to: string)
    requires from != [] && to != [] && from in t
    ensures AddEdge(t, from, to) == t[from := t[from] + [to]]
  {
  }

  /** A record the loop can index: it has four fields and both columns exist in it. */
  predicate Readable(rec: Record, fromCol: nat, toCol: nat) {
    |rec| == FieldsPerRecord && fromCol < |rec| && toCol < |rec|
  }

  /** The effect of one record on the table, or the fatal error it raises. */
  function ReadRecord(t: Table, rec: Record, row: nat, fromCol: nat, toCol: nat): Result<Table, ReadError> {
    if |rec| != FieldsPerRecord then Failure(FieldCount(row))
    else if fromCol >= |rec| || toCol >= |rec| then Failure(ColumnOutOfRange(row))
    else Success(AddEdge(t, Normalize(rec[fromCol]), Normalize(rec[toCol])))
  }

  /** The table after reading `records` in order, or the first fatal error. */
  function Build(records: seq<Record>, fromCol: nat, toCol: nat): Result<Table, ReadError>
    decreases |records|
  {
    if records == [] then Success(map[])
    else
      match Build(records[..|records| - 1], fromCol, toCol)
      case Failure(e) => Failure(e)
      case Success(t) => ReadRecord(t, records[|records| - 1], |records| - 1, fromCol, toCol)
  }

  /**
    The record loop of main.go:67-84: the table is updated in place, one
    record at a time, and the first bad record aborts the run.
   */
  method LoadSubstitutes(records: seq<Record>, fromCol: nat, toCol: nat) returns (r: Result<Table, ReadError>)
    ensures r == Build(records, fromCol, toCol)
  {
    var substitutes: Table := map[];
    var i := 0;
    while i < |records|
      invariant 0 <= i <= |records|
      invariant Build(records[..i], fromCol, toCol) == Success(substitutes)
    {
      var record := records[i];
      assert records[..i + 1][..i] == records[..i];
      if |record| != FieldsPerRecord {
        BuildFailureSticks(records, i + 1, fromCol, toCol);
        return Failure(FieldCount(i));
      }
      if fromCol >= |record| || toCol >= |record| {
        BuildFailureSticks(records, i + 1, fromCol, toCol);
        return Failure(ColumnOutOfRange(i));
      }
      var partNumberFrom := Normalize(record[fromCol]);
      var partNumberTo := Normalize(record[toCol]);
      if |partNumberFrom| > 0 && |partNumberTo| > 0 {
        substitutes := substitutes[partNumberFrom := Successors(substitutes, partNumberFrom) + [partNumberTo]];
      }
      i := i + 1;
    }
    assert records[..i] == records;
    return Success(substitutes);
  }

  /** Reading one more readable record adds its edge to the table read so far. */
  lemma BuildAppend(records: seq<Record>, rec: Record, fromCol: nat, toCol: nat, t: Table)
    requires Build(records, fromCol, toCol) == Success(t)
    requires Readable(rec, fromCol, toCol)
    ensures Build(records + [rec], fromCol, toCol) == Success(AddEdge(t, Normalize(rec[fromCol]), Normalize(rec[toCol])))
  {
    assert (records + [rec])[..|records|] == records;
  }

  /** Once reading a prefix has failed, reading all records fails with the same error. */
  lemma {:induction false} BuildFailureSticks(records: seq<Record>, n: nat, fromCol: nat, toCol: nat)
    requires n <= |records|
    requires Build(records[..n], fromCol, toCol).Failure?
    ensures Build(records, fromCol, toCol) == Build(records[..n], fromCol, toCol)
    decreases |records| - n
  {
    if n < |records| {
      var longer := records[..n + 1];
      assert longer[..|longer| - 1] == records[..n];
      BuildFailureSticks(records, n + 1, fromCol, toCol);
    } else {
      assert records[..n] == records;
    }
  }

  /** Reading succeeds exactly when every record is readable. */
  lemma {:induction false} BuildSucceeds(records: seq<Record>, fromCol: nat, toCol: nat)
    ensures Build(records, fromCol, toCol).Success? <==>
            forall j :: 0 <= j < |records| ==> Readable(records[j], fromCol, toCol)
    decreases |records|
  {
    if records != [] {
      var prefix := records[..|records| - 1];
      BuildSucceeds(prefix, fromCol, toCol);
      assert forall j :: 0 <= j < |prefix| ==> prefix[j] == records[j];
    }
  }

  /**
    When reading fails, the error names the first unreadable record and says
    why it could not be read.
   */
  lemma {:induction false} BuildFailure(records: seq<Record>, fromCol: nat, toCol: nat)
    requires Build(records, fromCol, toCol).Failure?
    ensures var row := Build(records, fromCol, toCol).error.row;
            && row < |records|
            && !Readable(records[row], fromCol, toCol)
            && (forall j :: 0 <= j < row ==> Readable(records[j], fromCol, toCol))
            && (Build(records, fromCol, toCol).error.FieldCount? <==> |records[row]| != FieldsPerRecord)
    decreases |records|
  {
    var n := |records|;
    var prefix := records[..n - 1];
    assert forall j :: 0 <= j < |prefix| ==> prefix[j] == records[j];
    var before := Build(prefix, fromCol, toCol);
    if before.Failure? {
      assert Build(records, fromCol, toCol) == before;
      BuildFailure(prefix, fromCol, toCol);
    } else {
      assert Build(records, fromCol, toCol) == ReadRecord(before.value, records[n - 1], n - 1, fromCol, toCol);
      BuildSucceeds(prefix, fromCol, toCol);
    }
  }

  /** The edge a readable record contributes: its two normalised keys. */
  function EdgeOf(rec: Record, fromCol: nat, toCol: nat): (string, string)
    requires Readable(rec, fromCol, toCol)
  {
    (Normalize(rec[fromCol]), Normalize(rec[toCol]))
  }

  /**
    A definition of the list for `k` independent of the table: the "to" keys of
    the records, in input order, whose "from" key is `k` and whose two keys are
    both non-empty.
   */
  function Targets(records: seq<Record>, k: string, fromCol: nat, toCol: nat): seq<string>
    requires forall j :: 0 <= j < |records| ==> Readable(records[j], fromCol, toCol)
    decreases |records|
  {
    if records == [] then []
    else
      var last := records[|records| - 1];
      var (from, to) := EdgeOf(last, fromCol, toCol);
      Targets(records[..|records| - 1], k, fromCol, toCol) +
        (if from == k && from != [] && to != [] then [to] else [])
  }

  /**
    The table built from the records holds, for every key, exactly the
    targets of that key in input order (duplicates kept), and only keys with
    at least one target.
   */
  lemma {:induction false} BuildContents(records: seq<Record>, fromCol: nat, toCol: nat)
    requires Build(records, fromCol, toCol).Success?
    ensures forall j :: 0 <= j < |records| ==> Readable(records[j], fromCol, toCol)
    ensures forall k :: Successors(Build(records, fromCol, toCol).value, k) == Targets(records, k, fromCol, toCol)
    ensures forall k :: k in Build(records, fromCol, toCol).value <==> Targets(records, k, fromCol, toCol) != []
    decreases |records|
  {
    BuildSucceeds(records, fromCol, toCol);
    if records != [] {
      var prefix := records[..|records| - 1];
      assert forall j :: 0 <= j < |prefix| ==> prefix[j] == records[j];
      BuildContents(prefix, fromCol, toCol);
    }
  }

  /** Every key and every listed target is a non-empty canonical key, and no list is empty. */
  ghost predicate WellKeyed(t: Table) {
    forall k :: k in t ==>
      && IsKey(k) && t[k] != []
      && forall i :: 0 <= i < |t[k]| ==> IsKey(t[k][i])
  }

  /** Whatever the input, a table read without error is well keyed. */
  lemma {:induction false} BuildWellKeyed(records: seq<Record>, fromCol: nat, toCol: nat)
    requires Build(records, fromCol, toCol).Success?
    ensures WellKeyed(Build(records, fromCol, toCol).value)
    decreases |records|
  {
    if records != [] {
      var prefix := records[..|records| - 1];
      BuildWellKeyed(prefix, fromCol, toCol);
      var t := Build(prefix, fromCol, toCol).value;
      var last := records[|records| - 1];
      if Readable(last, fromCol, toCol) {
        var (from, to) := EdgeOf(last, fromCol, toCol);
        var t' := AddEdge(t, from, to);
        forall k | k in t'
          ensures IsKey(k) && t'[k] != []
          ensures forall i :: 0 <= i < |t'[k]| ==> IsKey(t'[k][i])
        {
          assert Successors(t', k) == t'[k];
          if k == from && from != [] && to != [] {
            assert t'[k] == Successors(t, k) + [to];
          } else {
            assert k in t && t'[k] == t[k];
          }
        }
      }
    }
  }
}
