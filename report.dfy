/**
  The driver after the table is read (main.go:86-110): every "from" key is
  checked once, the keys found to be on a circle are collected as a set,
  sorted, and written one per line.
 */
module Report {
  import opened Wrappers
  import opened PartKeys
  import opened Substitutions
  import opened Circle
  import opened Ordering

  /** The keys that `substitutesCircle` ends up holding (main.go:86-91). */
  function Flagged(t: Table): set<string> {
    set k | k in t && !CheckCircle(0, k, t[k], t)
  }

  /**
    The loop of main.go:86-91. Go visits the map in an unspecified order; the
    loop here picks any key not yet visited, and the resulting set is the same
    for every order.
   */
  method FindCircles(substitutes: Table) returns (circle: set<string>)
    ensures forall k :: k in circle <==> k in substitutes && !CheckCircle(0, k, substitutes[k], substitutes)
    ensures circle == Flagged(substitutes)
  {
    circle := {};
    var rest := substitutes.Keys;
    while rest != {}
      invariant rest <= substitutes.Keys
      invariant forall k :: k in circle <==> k in substitutes.Keys - rest && !CheckCircle(0, k, substitutes[k], substitutes)
      decreases rest
    {
      var key :| key in rest;
      var result := CheckCircle(0, key, substitutes[key], substitutes);
      if !result {
        circle := circle + {key};
      }
      rest := rest - {key};
    }
  }

  /** The elements of a set, in some order. */
  ghost function SetToSeq(s: set<string>): (r: seq<string>)
    ensures multiset(r) == multiset(s)
  {
    if s == {} then []
    else
      var x :| x in s;
      var r := [x] + SetToSeq(s - {x});
      assert multiset(s) == multiset{x} + multiset(s - {x}) by {
        assert s == {x} + (s - {x});
      }
      r
  }

  /** The elements of a set in ascending order. */
  ghost function SortedKeys(s: set<string>): (r: seq<string>)
    ensures Sorted(r) && multiset(r) == multiset(s)
  {
    SortStrings(SetToSeq(s))
  }

  /** The ascending listing of a set has no repeated element, and holds exactly the set. */
  lemma SortedKeysDistinct(s: set<string>)
    ensures forall i, j :: 0 <= i < j < |SortedKeys(s)| ==> SortedKeys(s)[i] != SortedKeys(s)[j]
    ensures forall x :: x in SortedKeys(s) <==> x in s
  {
    var r := SortedKeys(s);
    forall i, j | 0 <= i < j < |r| ensures r[i] != r[j] {
      if r[i] == r[j] {
        RepeatedEntryCount(r, i, j);
      }
    }
    forall x ensures x in r <==> x in s {
      assert x in r <==> x in multiset(r);
    }
  }

  /** An entry that occurs at two positions is counted at least twice. */
  lemma RepeatedEntryCount(r: seq<string>, i: nat, j: nat)
    requires i < j < |r| && r[i] == r[j]
    ensures multiset(r)[r[i]] >= 2
  {
    assert r == r[..i] + [r[i]] + r[i + 1..j] + [r[j]] + r[j + 1..];
  }

  /** The non-empty entries of a sequence, in order. */
  function NonBlank(s: seq<string>): (r: seq<string>) {
    if s == [] then [] else (if s[0] != [] then [s[0]] else []) + NonBlank(s[1..])
  }

  lemma {:induction false} NonBlankAppend(a: seq<string>, b: seq<string>)
    ensures NonBlank(a + b) == NonBlank(a) + NonBlank(b)
  {
    if a != [] {
      assert (a + b)[0] == a[0] && (a + b)[1..] == a[1..] + b;
      NonBlankAppend(a[1..], b);
    } else {
      assert a + b == b;
    }
  }

  /**
    Dropping the empty entries keeps every other entry with its multiplicity
    and removes all empty ones.
   */
  lemma {:induction false} NonBlankMultiset(s: seq<string>)
    ensures multiset(NonBlank(s))[[]] == 0
    ensures forall x :: x != [] ==> multiset(NonBlank(s))[x] == multiset(s)[x]
  {
    if s != [] {
      NonBlankMultiset(s[1..]);
      assert s == [s[0]] + s[1..];
    }
  }

  /** Dropping entries from a sorted sequence leaves it sorted. */
  lemma {:induction false} NonBlankSorted(s: seq<string>)
    requires Sorted(s)
    ensures Sorted(NonBlank(s))
  {
    if s != [] {
      NonBlankSorted(s[1..]);
      var rest := NonBlank(s[1..]);
      if s[0] != [] {
        forall j | 0 <= j < |rest| ensures Below(s[0], rest[j]) {
          NonBlankMultiset(s[1..]);
          assert rest[j] in multiset(rest);
          assert rest[j] in s[1..];
        }
        assert NonBlank(s) == [s[0]] + rest;
      }
    }
  }

  /** Each key followed by a newline, concatenated in order. */
  function JoinLines(ks: seq<string>): string {
    if ks == [] then [] else ks[0] + "\n" + JoinLines(ks[1..])
  }

  lemma {:induction false} JoinLinesAppend(a: seq<string>, b: seq<string>)
    ensures JoinLines(a + b) == JoinLines(a) + JoinLines(b)
  {
    if a != [] {
      assert (a + b)[0] == a[0] && (a + b)[1..] == a[1..] + b;
      JoinLinesAppend(a[1..], b);
    } else {
      assert a + b == b;
    }
  }

  /** Appending one entry adds its line to the text, or nothing when it is empty. */
  lemma JoinLinesStep(pre: seq<string>, x: string)
    ensures JoinLines(NonBlank(pre + [x])) == JoinLines(NonBlank(pre)) + (if x != [] then x + "\n" else [])
  {
    NonBlankAppend(pre, [x]);
    JoinLinesAppend(NonBlank(pre), NonBlank([x]));
    assert [x][1..] == [];
    if x != [] {
      assert NonBlank([x]) == [x];
      assert JoinLines([x]) == x + "\n" + JoinLines([]);
    } else {
      assert NonBlank([x]) == [];
    }
  }

  /** The position of the first newline, or the length when there is none. */
  function IndexOfNewline(s: string): (i: nat)
    ensures i <= |s|
    ensures i < |s| ==> s[i] == '\n'
    ensures forall j :: 0 <= j < i ==> s[j] != '\n'
  {
    if s == [] || s[0] == '\n' then 0 else 1 + IndexOfNewline(s[1..])
  }

  /** The lines of a text, each ended by a newline or by the end of the text. */
  function Lines(s: string): seq<string>
    decreases |s|
  {
    if s == [] then []
    else
      var i := IndexOfNewline(s);
      if i == |s| then [s] else [s[..i]] + Lines(s[i + 1..])
  }

  /** A key that holds no newline. */
  predicate OneLine(k: string) {
    forall i :: 0 <= i < |k| ==> k[i] != '\n'
  }

  /** Splitting the joined text gives back the keys, when no key holds a newline. */
  lemma {:induction false} LinesOfJoinLines(ks: seq<string>)
    requires forall i :: 0 <= i < |ks| ==> OneLine(ks[i])
    ensures Lines(JoinLines(ks)) == ks
  {
    if ks != [] {
      var k := ks[0];
      var rest := JoinLines(ks[1..]);
      var s := k + "\n" + rest;
      assert IndexOfNewline(s) == |k| by {
        IndexOfNewlineOf(k, rest);
      }
      assert s[..|k|] == k && s[|k| + 1..] == rest;
      LinesOfJoinLines(ks[1..]);
      assert ks == [k] + ks[1..];
    }
  }

  lemma {:induction false} IndexOfNewlineOf(k: string, rest: string)
    requires OneLine(k)
    ensures IndexOfNewline(k + "\n" + rest) == |k|
  {
    if k != [] {
      assert (k + "\n" + rest)[1..] == k[1..] + "\n" + rest;
      IndexOfNewlineOf(k[1..], rest);
    }
  }

  /** The sixteen empty strings `make([]string, 16)` starts the key slice with. */
  function Padding(): seq<string> {
    seq(16, _ => "")
  }

  /** The padding holds no entry other than the empty string. */
  lemma PaddingIsBlank()
    ensures forall x :: x != "" ==> multiset(Padding())[x] == 0
  {
    forall x | x != "" ensures multiset(Padding())[x] == 0 {
      assert x !in Padding();
    }
  }

  /**
    main.go:97-101: the key slice starts as sixteen empty strings and every
    key of the set is appended, in whatever order the set is visited.
   */
  method CollectKeys(circle: set<string>) returns (substsKeys: seq<string>)
    ensures multiset(substsKeys) == multiset(Padding()) + multiset(circle)
  {
    substsKeys := Padding();
    var rest := circle;
    ghost var added: set<string> := {};
    while rest != {}
      invariant added !! rest && added + rest == circle
      invariant multiset(substsKeys) == multiset(Padding()) + multiset(added)
      decreases rest
    {
      var key :| key in rest;
      assert multiset(added + {key}) == multiset(added) + multiset{key};
      substsKeys := substsKeys + [key];
      rest := rest - {key};
      added := added + {key};
    }
  }

  /** main.go:105-110: every non-empty entry, followed by a newline, in order. */
  method WriteLines(substsKeys: seq<string>) returns (result: string)
    ensures result == JoinLines(NonBlank(substsKeys))
  {
    result := "";
    var k := 0;
    while k < |substsKeys|
      invariant 0 <= k <= |substsKeys|
      invariant result == JoinLines(NonBlank(substsKeys[..k]))
    {
      assert substsKeys[..k + 1] == substsKeys[..k] + [substsKeys[k]];
      JoinLinesStep(substsKeys[..k], substsKeys[k]);
      if substsKeys[k] != "" {
        result := result + substsKeys[k] + "\n";
      }
      k := k + 1;
    }
    assert substsKeys[..k] == substsKeys;
  }

  /**
    The output section of main.go:93-110: nothing is written when no key is
    flagged; otherwise the keys, padded with sixteen empty strings, are
    sorted and the non-empty ones written one per line. The result is the
    ascending listing of the flagged keys, so the padding never shows up and
    no key is written twice.
   */
  method FormatReport(circle: set<string>) returns (out: Option<string>)
    ensures out.None? <==> circle == {}
    ensures out.Some? ==> out.value == JoinLines(SortedKeys(circle - {[]}))
  {
    if |circle| == 0 {
      return None;
    }
    var substsKeys := CollectKeys(circle);
    substsKeys := SortStrings(substsKeys);
    var result := WriteLines(substsKeys);
    ListingOfPadded(substsKeys, circle);
    return Some(result);
  }

  /**
    A sorted permutation of the padding followed by the keys of a set, with
    its empty entries dropped, is the ascending listing of the set without
    the empty key.
   */
  lemma ListingOfPadded(sorted: seq<string>, circle: set<string>)
    requires Sorted(sorted)
    requires multiset(sorted) == multiset(Padding()) + multiset(circle)
    ensures NonBlank(sorted) == SortedKeys(circle - {[]})
  {
    var c := NonBlank(sorted);
    NonBlankSorted(sorted);
    NonBlankMultiset(sorted);
    var target := circle - {[]};
    assert forall x :: multiset(c)[x] == multiset(target)[x] by {
      forall x ensures multiset(c)[x] == multiset(target)[x] {
        if x != [] {
          PaddingIsBlank();
        }
      }
    }
    assert multiset(c) == multiset(target);
    SortedUnique(c, SortedKeys(target));
  }

  /** What a run produces: the fatal read error, no output file, or the text written. */
  ghost function RunResult(records: seq<Record>, fromCol: nat, toCol: nat): Result<Option<string>, ReadError> {
    match Build(records, fromCol, toCol)
    case Failure(e) => Failure(e)
    case Success(t) => RunFrom(t)
  }

  /**
    The body of `main` from the table to the output (main.go:53-110), with
    the records and the 0-based column indices given as parameters.
   */
  method Run(records: seq<Record>, fromCol: nat, toCol: nat) returns (r: Result<Option<string>, ReadError>)
    ensures r == RunResult(records, fromCol, toCol)
  {
    var loaded := LoadSubstitutes(records, fromCol, toCol);
    if loaded.Failure? {
      assert RunResult(records, fromCol, toCol) == Failure(loaded.error);
      return Failure(loaded.error);
    }
    var substitutes := loaded.value;
    var substitutesCircle := FindCircles(substitutes);
    var text := FormatReport(substitutesCircle);
    r := Success(text);
    if substitutesCircle == {} {
      assert text == None;
    } else {
      assert text == Some(JoinLines(SortedKeys(substitutesCircle - {[]})));
    }
    assert RunResult(records, fromCol, toCol) == RunFrom(substitutes) by {
      assert Build(records, fromCol, toCol) == Success(substitutes);
    }
  }

  /** What a run produces once the table has been read. */
  ghost function RunFrom(t: Table): Result<Option<string>, ReadError> {
    Success(if Flagged(t) == {} then None else Some(JoinLines(SortedKeys(Flagged(t) - {[]}))))
  }

  /** A canonical key holds no newline. */
  lemma CanonicalIsOneLine(k: string)
    requires IsCanonical(k)
    ensures OneLine(k)
  {
    forall i | 0 <= i < |k| ensures k[i] != '\n' {
      assert IsKeyChar(k[i]);
    }
  }

  /** Once the table is read, the run's result depends on the table alone. */
  lemma RunResultOfTable(records: seq<Record>, fromCol: nat, toCol: nat, t: Table)
    requires Build(records, fromCol, toCol) == Success(t)
    ensures RunResult(records, fromCol, toCol) == RunFrom(t)
  {
  }

  /**
    The text listing a non-empty set of non-empty canonical keys splits into
    exactly those keys, in strictly ascending order, none of them blank.
   */
  lemma ListingLines(flagged: set<string>)
    requires flagged != {}
    requires forall k :: k in flagged ==> IsKey(k)
    ensures var ls := Lines(JoinLines(SortedKeys(flagged)));
            && ls != []
            && (forall i, j :: 0 <= i < j < |ls| ==> Below(ls[i], ls[j]) && ls[i] != ls[j])
            && (forall i :: 0 <= i < |ls| ==> IsKey(ls[i]))
            && (forall k :: k in ls <==> k in flagged)
  {
    var ks := SortedKeys(flagged);
    SortedKeysDistinct(flagged);
    forall i | 0 <= i < |ks| ensures OneLine(ks[i]) {
      assert ks[i] in flagged;
      CanonicalIsOneLine(ks[i]);
    }
    LinesOfJoinLines(ks);
    var k :| k in flagged;
    assert k in ks;
    forall i | 0 <= i < |ks| ensures IsKey(ks[i]) {
      assert ks[i] in flagged;
    }
  }

  /**
    The text written for a table whose keys are all non-empty canonical keys,
    when there is one, splits into
    the flagged keys: in strictly ascending order (so no key twice), none of
    them blank, each a canonical key, and a line exists for a key exactly
    when the check from that key reports a circle.
   */
  lemma OutputLines(t: Table, out: string)
    requires forall k :: k in t ==> IsKey(k)
    requires RunFrom(t) == Success(Some(out))
    ensures Lines(out) != []
    ensures forall i, j :: 0 <= i < j < |Lines(out)| ==> Below(Lines(out)[i], Lines(out)[j]) && Lines(out)[i] != Lines(out)[j]
    ensures forall i :: 0 <= i < |Lines(out)| ==> IsKey(Lines(out)[i])
    ensures forall k :: k in Lines(out) <==> k in t && !CheckCircle(0, k, t[k], t)
  {
    OutputIsListing(t, out);
    ListingLines(Flagged(t));
  }

  /**
    The text written for a table whose keys are all non-empty canonical keys
    is the listing of its flagged keys, and there is at least one.
   */
  lemma OutputIsListing(t: Table, out: string)
    requires forall k :: k in t ==> IsKey(k)
    requires RunFrom(t) == Success(Some(out))
    ensures Flagged(t) != {} && out == JoinLines(SortedKeys(Flagged(t)))
    ensures forall k :: k in Flagged(t) ==> IsKey(k)
  {
    assert Flagged(t) - {[]} == Flagged(t);
  }

  /** The lines a run writes, when it writes any, are as `OutputLines` describes. */
  lemma RunOutputLines(records: seq<Record>, fromCol: nat, toCol: nat, t: Table, out: string)
    requires Build(records, fromCol, toCol) == Success(t)
    requires RunResult(records, fromCol, toCol) == Success(Some(out))
    ensures Lines(out) != []
    ensures forall i, j :: 0 <= i < j < |Lines(out)| ==> Below(Lines(out)[i], Lines(out)[j]) && Lines(out)[i] != Lines(out)[j]
    ensures forall i :: 0 <= i < |Lines(out)| ==> IsKey(Lines(out)[i])
    ensures forall k :: k in Lines(out) <==> k in t && !CheckCircle(0, k, t[k], t)
  {
    RunResultOfTable(records, fromCol, toCol, t);
    BuildWellKeyed(records, fromCol, toCol);
    OutputLines(t, out);
  }

  /** A run writes nothing exactly when no key's check reports a circle. */
  lemma RunNoOutput(records: seq<Record>, fromCol: nat, toCol: nat, t: Table)
    requires Build(records, fromCol, toCol) == Success(t)
    ensures RunResult(records, fromCol, toCol) == Success(None) <==> forall k :: k in t ==> CheckCircle(0, k, t[k], t)
  {
    RunResultOfTable(records, fromCol, toCol, t);
    if Flagged(t) != {} {
      var k :| k in Flagged(t);
      assert k in t && !CheckCircle(0, k, t[k], t);
    } else {
      forall k | k in t ensures CheckCircle(0, k, t[k], t) {
        assert k !in Flagged(t);
      }
    }
  }

  /** With a non-empty set of flagged keys, none of them empty, the run writes their ascending listing. */
  lemma RunFromFlagged(t: Table, flagged: set<string>)
    requires Flagged(t) == flagged && flagged != {} && [] !in flagged
    ensures RunFrom(t) == Success(Some(JoinLines(SortedKeys(flagged))))
  {
    assert flagged - {[]} == flagged;
  }

  /** A run that cannot read its records fails with the read error and writes nothing. */
  lemma RunFailure(records: seq<Record>, fromCol: nat, toCol: nat)
    requires Build(records, fromCol, toCol).Failure?
    ensures RunResult(records, fromCol, toCol) == Failure(Build(records, fromCol, toCol).error)
  {
  }

  /**
    Every key a run writes really is on a circle of the table: a chain of at
    most twelve keys leads from it back to itself.
   */
  lemma RunFlagsOnlyCircles(records: seq<Record>, fromCol: nat, toCol: nat, t: Table, out: string, k: string)
    requires Build(records, fromCol, toCol) == Success(t)
    requires RunResult(records, fromCol, toCol) == Success(Some(out))
    requires k in Lines(out)
    ensures exists p :: 2 <= |p| <= MaxDepth + 2 && p[0] == k && p[|p| - 1] == k && IsChain(t, p)
  {
    RunOutputLines(records, fromCol, toCol, t, out);
    FlaggedOnCircle(t, k);
  }

  /** A flagged key lies on a circle of at most twelve keys. */
  lemma FlaggedOnCircle(t: Table, k: string)
    requires k in t && !CheckCircle(0, k, t[k], t)
    ensures exists p :: 2 <= |p| <= MaxDepth + 2 && p[0] == k && p[|p| - 1] == k && IsChain(t, p)
  {
    CircleMeansChain(0, k, t[k], t);
    var q :| 1 <= |q| <= MaxDepth + 1 && q[0] in t[k] && q[|q| - 1] == k && IsChain(t, q);
    var p := [k] + q;
    ChainCons(t, k, q);
    assert p[0] == k && p[|p| - 1] == q[|q| - 1];
  }

  /** A key whose first successor is itself is always flagged. */
  lemma SelfLoopFlagged(t: Table, k: string)
    requires k in t && t[k] != [] && t[k][0] == k
    ensures k in Flagged(t)
  {
    SelfLoopFirst(0, k, t[k][1..], t);
    assert t[k] == [k] + t[k][1..];
  }

  /** A key without a list of its own is never flagged. */
  lemma UnlistedNotFlagged(t: Table, k: string)
    requires k !in t
    ensures k !in Flagged(t)
  {
  }

  /** A chain without a return edge flags nothing. */
  lemma ChainNotFlagged()
    ensures Flagged(map["A" := ["B"], "B" := ["C"]]) == {}
  {
    var t: Table := map["A" := ["B"], "B" := ["C"]];
    FirstEntryDecides(0, "A", t["A"], t, 0);
    NoStopNoCircle(1, "A", t["B"], t);
    NoStopNoCircle(0, "B", t["B"], t);
    assert !("A" in Flagged(t)) && !("B" in Flagged(t));
  }
}
