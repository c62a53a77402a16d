/** Whole runs on small inputs, from the records to the text written. */
module Scenarios {
  import opened Wrappers
  import opened PartKeys
  import opened Substitutions
  import opened Circle
  import opened Ordering
  import opened Report

  /** The table read from three readable records: their three edges, in order. */
  lemma BuildThree(r0: Record, r1: Record, r2: Record, fromCol: nat, toCol: nat)
    requires Readable(r0, fromCol, toCol) && Readable(r1, fromCol, toCol) && Readable(r2, fromCol, toCol)
    ensures Build([r0, r1, r2], fromCol, toCol) ==
            Success(AddEdge(AddEdge(AddEdge(map[],
              EdgeOf(r0, fromCol, toCol).0, EdgeOf(r0, fromCol, toCol).1),
              EdgeOf(r1, fromCol, toCol).0, EdgeOf(r1, fromCol, toCol).1),
              EdgeOf(r2, fromCol, toCol).0, EdgeOf(r2, fromCol, toCol).1))
  {
    assert Build([], fromCol, toCol) == Success(map[]);
    BuildAppend([], r0, fromCol, toCol, map[]);
    assert [] + [r0] == [r0];
    var t1 := Build([r0], fromCol, toCol).value;
    BuildAppend([r0], r1, fromCol, toCol, t1);
    assert [r0] + [r1] == [r0, r1];
    var t2 := Build([r0, r1], fromCol, toCol).value;
    BuildAppend([r0, r1], r2, fromCol, toCol, t2);
    assert [r0, r1] + [r2] == [r0, r1, r2];
  }

  /** The table read from four readable records: their four edges, in order. */
  lemma BuildFour(r0: Record, r1: Record, r2: Record, r3: Record, fromCol: nat, toCol: nat)
    requires Readable(r0, fromCol, toCol) && Readable(r1, fromCol, toCol)
    requires Readable(r2, fromCol, toCol) && Readable(r3, fromCol, toCol)
    ensures Build([r0, r1, r2], fromCol, toCol).Success?
    ensures Build([r0, r1, r2, r3], fromCol, toCol) ==
            Success(AddEdge(Build([r0, r1, r2], fromCol, toCol).value,
              EdgeOf(r3, fromCol, toCol).0, EdgeOf(r3, fromCol, toCol).1))
  {
    BuildThree(r0, r1, r2, fromCol, toCol);
    BuildAppend([r0, r1, r2], r3, fromCol, toCol, Build([r0, r1, r2], fromCol, toCol).value);
    assert [r0, r1, r2] + [r3] == [r0, r1, r2, r3];
  }

  /**
    The table read from a circle a -> b -> c -> a and an unrelated edge d -> e,
    the keys being taken from the first two columns.
   */
  lemma ThreeCircleRead(a: string, b: string, c: string, d: string, e: string, x: string, y: string)
    requires IsKey(a) && IsKey(b) && IsKey(c) && IsKey(d) && IsKey(e)
    requires a != b && a != c && a != d && b != c && b != d && c != d
    ensures Build([[a, b, x, y], [b, c, x, y], [c, a, x, y], [d, e, x, y]], 0, 1)
            == Success(map[a := [b], b := [c], c := [a], d := [e]])
  {
    NormalizeCanonical(a);
    NormalizeCanonical(b);
    NormalizeCanonical(c);
    NormalizeCanonical(d);
    NormalizeCanonical(e);
    var r0: Record := [a, b, x, y];
    var r1: Record := [b, c, x, y];
    var r2: Record := [c, a, x, y];
    var r3: Record := [d, e, x, y];
    BuildFour(r0, r1, r2, r3, 0, 1);
    BuildThree(r0, r1, r2, 0, 1);
    CircleTable(a, b, c, d, e);
  }

  /** The four edges of the circle example, added to the empty table. */
  lemma CircleTable(a: string, b: string, c: string, d: string, e: string)
    requires IsKey(a) && IsKey(b) && IsKey(c) && IsKey(d) && IsKey(e)
    requires a != b && a != c && a != d && b != c && b != d && c != d
    ensures AddEdge(AddEdge(AddEdge(AddEdge(map[], a, b), b, c), c, a), d, e)
            == map[a := [b], b := [c], c := [a], d := [e]]
  {
    var t0: Table := map[];
    var t1 := t0[a := [b]];
    var t2 := t1[b := [c]];
    var t3 := t2[c := [a]];
    AddEdgeNew(t0, a, b);
    AddEdgeNew(t1, b, c);
    AddEdgeNew(t2, c, a);
    AddEdgeNew(t3, d, e);
  }

  /** In that table the three keys of the circle are flagged and d is not. */
  lemma ThreeCircleFlagged(a: string, b: string, c: string, d: string, e: string)
    requires a != b && a != c && a != d && b != c && b != d && c != d
    requires e != a && e != b && e != c && e != d
    ensures Flagged(map[a := [b], b := [c], c := [a], d := [e]]) == {a, b, c}
  {
    var t: Table := map[a := [b], b := [c], c := [a], d := [e]];
    FirstEntryDecides(0, a, t[a], t, 0);
    FirstEntryDecides(1, a, t[b], t, 0);
    SelfLoopFirst(2, a, [], t);
    assert t[c] == [a] + [];
    FirstEntryDecides(0, b, t[b], t, 0);
    FirstEntryDecides(1, b, t[c], t, 0);
    SelfLoopFirst(2, b, [], t);
    assert t[a] == [b] + [];
    FirstEntryDecides(0, c, t[c], t, 0);
    FirstEntryDecides(1, c, t[a], t, 0);
    SelfLoopFirst(2, c, [], t);
    assert t[b] == [c] + [];
    NoStopNoCircle(0, d, t[d], t);
  }

  /** The ascending listing of three keys given in ascending order. */
  lemma ThreeKeysSorted(a: string, b: string, c: string)
    requires a != b && a != c && b != c
    requires Below(a, b) && Below(b, c)
    ensures SortedKeys({a, b, c}) == [a, b, c]
  {
    var ks := [a, b, c];
    BelowTransitive(a, b, c);
    assert Sorted(ks);
    assert multiset(ks) == multiset({a, b, c});
    SortedUnique(ks, SortedKeys({a, b, c}));
  }

  /** Three lines, joined. */
  lemma JoinThree(a: string, b: string, c: string)
    ensures JoinLines([a, b, c]) == a + "\n" + b + "\n" + c + "\n"
  {
    calc {
      JoinLines([a, b, c]);
      a + "\n" + JoinLines([b, c]);
      { assert [b, c] == [a, b, c][1..]; }
      a + "\n" + (b + "\n" + JoinLines([c]));
      { assert JoinLines([c]) == c + "\n" + JoinLines([]); }
      a + "\n" + (b + "\n" + (c + "\n"));
      a + "\n" + b + "\n" + c + "\n";
    }
  }

  /** What a run writes once it has read the circle table. */
  lemma ThreeCircleOutput(a: string, b: string, c: string, d: string, e: string)
    requires IsKey(a) && IsKey(b) && IsKey(c)
    requires a != b && a != c && a != d && b != c && b != d && c != d
    requires e != a && e != b && e != c && e != d
    requires Below(a, b) && Below(b, c)
    ensures RunFrom(map[a := [b], b := [c], c := [a], d := [e]]) == Success(Some(a + "\n" + b + "\n" + c + "\n"))
  {
    var t: Table := map[a := [b], b := [c], c := [a], d := [e]];
    ThreeCircleFlagged(a, b, c, d, e);
    RunFromFlagged(t, {a, b, c});
    ThreeKeysSorted(a, b, c);
    JoinThree(a, b, c);
  }

  /**
    A whole run on a circle of three keys and one unrelated edge writes the
    three keys of the circle in ascending order, one per line, and not the
    unrelated ones.
   */
  lemma ThreeCircleRun(a: string, b: string, c: string, d: string, e: string, x: string, y: string)
    requires IsKey(a) && IsKey(b) && IsKey(c) && IsKey(d) && IsKey(e)
    requires a != b && a != c && a != d && b != c && b != d && c != d
    requires e != a && e != b && e != c && e != d
    requires Below(a, b) && Below(b, c)
    ensures RunResult([[a, b, x, y], [b, c, x, y], [c, a, x, y], [d, e, x, y]], 0, 1)
            == Success(Some(a + "\n" + b + "\n" + c + "\n"))
  {
    ThreeCircleRead(a, b, c, d, e, x, y);
    RunResultOfTable([[a, b, x, y], [b, c, x, y], [c, a, x, y], [d, e, x, y]], 0, 1, map[a := [b], b := [c], c := [a], d := [e]]);
    ThreeCircleOutput(a, b, c, d, e);
  }

  /** The keys of the four-record example are keys, distinct, and A1 < B2 < C3. */
  lemma ExampleKeys()
    ensures IsKey("A1") && IsKey("B2") && IsKey("C3") && IsKey("D4") && IsKey("E5")
    ensures "A1" != "B2" && "A1" != "C3" && "A1" != "D4" && "B2" != "C3" && "B2" != "D4" && "C3" != "D4"
    ensures "E5" != "A1" && "E5" != "B2" && "E5" != "C3" && "E5" != "D4"
    ensures Below("A1", "B2") && Below("B2", "C3")
    ensures "A1" + "\n" + "B2" + "\n" + "C3" + "\n" == "A1\nB2\nC3\n"
  {
  }

  /**
    The four-record example with columns 1 and 2: the circle A1 -> B2 -> C3
    -> A1 is written as "A1", "B2", "C3", one per line, and D4 -> E5 is not.
   */
  lemma CircleRun()
    ensures RunResult([["A1", "B2", "x", "y"], ["B2", "C3", "x", "y"], ["C3", "A1", "x", "y"], ["D4", "E5", "x", "y"]], 0, 1)
            == Success(Some("A1\nB2\nC3\n"))
  {
    ExampleKeys();
    ThreeCircleRun("A1", "B2", "C3", "D4", "E5", "x", "y");
  }

  /**
    Two records whose fields normalise to the same edge a -> b, and a third
    whose "to" field normalises to the empty key: the edge is kept twice, the
    third record is skipped, and the run writes nothing.
   */
  lemma RepeatedEdgeRun(r0: Record, r1: Record, r2: Record, a: string, b: string)
    requires Readable(r0, 0, 1) && Readable(r1, 0, 1) && Readable(r2, 0, 1)
    requires Normalize(r0[0]) == a && Normalize(r1[0]) == a && Normalize(r2[0]) == a
    requires Normalize(r0[1]) == b && Normalize(r1[1]) == b && Normalize(r2[1]) == []
    requires a != [] && b != [] && a != b
    ensures Build([r0, r1, r2], 0, 1) == Success(map[a := [b, b]])
    ensures RunResult([r0, r1, r2], 0, 1) == Success(None)
  {
    BuildThree(r0, r1, r2, 0, 1);
    var t0: Table := map[];
    var t1: Table := t0[a := [b]];
    var t2: Table := map[a := [b, b]];
    AddEdgeNew(t0, a, b);
    AddEdgeExisting(t1, a, b);
    assert t1[a] + [b] == [b, b];
    assert t1[a := [b, b]] == t2;
    NoStopNoCircle(0, a, t2[a], t2);
    RunNoOutput([r0, r1, r2], 0, 1, t2);
  }

  /** "a-1" and "A1" are the same key. */
  lemma KeyA1()
    ensures Normalize("a-1") == "A1" && Normalize("A1") == "A1"
  {
  }

  /** "b 2" and "B2" are the same key. */
  lemma KeyB2()
    ensures Normalize("b 2") == "B2" && Normalize("B2") == "B2"
  {
  }

  /** "--" is no key at all. */
  lemma NoKey()
    ensures Normalize("--") == []
  {
  }

  /**
    The records "a-1" / "b 2", "A1" / "B2" and "A1" / "--": the edge A1 -> B2
    is kept twice, the last record is skipped, and the run writes nothing.
   */
  lemma RepeatedEdgeExample()
    ensures RunResult([["a-1", "b 2", "", ""], ["A1", "B2", "", ""], ["A1", "--", "", ""]], 0, 1) == Success(None)
  {
    KeyA1();
    KeyB2();
    NoKey();
    RepeatedEdgeRun(["a-1", "b 2", "", ""], ["A1", "B2", "", ""], ["A1", "--", "", ""], "A1", "B2");
  }

  /** A record with three fields is fatal, and so is a column beyond the fourth. */
  lemma BadRecordRuns()
    ensures RunResult([["A1", "A1", "", ""], ["B2", "B2", ""]], 0, 1) == Failure(FieldCount(1))
    ensures RunResult([["A1", "A1", "", ""]], 0, 4) == Failure(ColumnOutOfRange(0))
  {
    var rs: seq<Record> := [["A1", "A1", "", ""], ["B2", "B2", ""]];
    assert rs[..1][..0] == [];
    assert Build(rs[..1], 0, 1).Success?;
    var single: seq<Record> := [["A1", "A1", "", ""]];
    assert single[..0] == [];
  }
}
