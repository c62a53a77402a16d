/**
  The circle check of main.go:117-135. It follows a single chain of
  successors: at each level it scans the list for the first element that is
  the start key (a circle) or has its own list (which it then follows), and
  it gives up, reporting "no circle", once the depth counter passes 10.
  There is no visited set.
 */
module Circle {
  import opened Wrappers
  import opened Substitutions

  /** The largest depth counter at which `checkCircle` still scans its list. */
  const MaxDepth: int := 10

  /** An element the scan stops at: the start key itself, or a key with its own list. */
  predicate StopsAt(key: string, t: Table, el: string) {
    el == key || el in t
  }

  /**
    The index of the first element of `list` the scan stops at, or None when
    it runs off the end.
   */
  function FirstStop(key: string, list: seq<string>, t: Table): (r: Option<nat>)
    ensures r.None? ==> forall j :: 0 <= j < |list| ==> !StopsAt(key, t, list[j])
    ensures r.Some? ==> r.value < |list| && StopsAt(key, t, list[r.value])
    ensures r.Some? ==> forall j :: 0 <= j < r.value ==> !StopsAt(key, t, list[j])
  {
    if list == [] then None
    else if list[0] == key || list[0] in t then Some(0)
    else
      match FirstStop(key, list[1..], t)
      case None => None
      case Some(i) => Some(i + 1)
  }

  /**
    `checkCircle(idx, key, list, &substitutes)`: false means a circle back to
    `key` was found, true means none was found. The table is only read.
   */
  function CheckCircle(idx: int, key: string, list: seq<string>, t: Table): bool
    decreases if idx > MaxDepth then 0 else MaxDepth + 1 - idx
  {
    if idx > MaxDepth then true
    else
      match FirstStop(key, list, t)
      case None => true
      case Some(i) => if list[i] == key then false else CheckCircle(idx + 1, key, t[list[i]], t)
  }

  /** Past the depth limit the answer is "no circle", whatever the list holds. */
  lemma CheckCircleGivesUp(idx: int, key: string, list: seq<string>, t: Table)
    requires idx > MaxDepth
    ensures CheckCircle(idx, key, list, t)
  {
  }

  /**
    An element equal to `key` that comes before every element with its own
    list makes the answer "circle".
   */
  lemma KeyBeforeAnyEntry(idx: int, key: string, list: seq<string>, t: Table, i: nat)
    requires idx <= MaxDepth
    requires i < |list| && list[i] == key
    requires forall j :: 0 <= j < i ==> list[j] != key && list[j] !in t
    ensures !CheckCircle(idx, key, list, t)
  {
    var r := FirstStop(key, list, t);
    assert r.Some? && r.value == i by {
      assert StopsAt(key, t, list[i]);
    }
  }

  /** A direct self-loop at the head of the list is always reported. */
  lemma SelfLoopFirst(idx: int, key: string, rest: seq<string>, t: Table)
    requires idx <= MaxDepth
    ensures !CheckCircle(idx, key, [key] + rest, t)
  {
    KeyBeforeAnyEntry(idx, key, [key] + rest, t, 0);
  }

  /**
    The first element with its own list decides the answer, provided it is not
    `key` and no element equal to `key` comes earlier: the answer is that of
    the recursive call on its list one level deeper.
   */
  lemma FirstEntryDecides(idx: int, key: string, list: seq<string>, t: Table, i: nat)
    requires idx <= MaxDepth
    requires i < |list| && list[i] != key && list[i] in t
    requires forall j :: 0 <= j < i ==> list[j] != key && list[j] !in t
    ensures CheckCircle(idx, key, list, t) == CheckCircle(idx + 1, key, t[list[i]], t)
  {
    var r := FirstStop(key, list, t);
    assert r.Some? && r.value == i by {
      assert StopsAt(key, t, list[i]);
    }
  }

  /**
    The elements after the first one the scan stops at are never looked at:
    replacing them by anything leaves the answer unchanged.
   */
  lemma LaterElementsIgnored(idx: int, key: string, list: seq<string>, t: Table, i: nat, rest: seq<string>)
    requires i < |list| && StopsAt(key, t, list[i])
    requires forall j :: 0 <= j < i ==> !StopsAt(key, t, list[j])
    ensures CheckCircle(idx, key, list[..i + 1] + rest, t) == CheckCircle(idx, key, list, t)
  {
    var other := list[..i + 1] + rest;
    assert forall j :: 0 <= j <= i ==> other[j] == list[j];
    var r := FirstStop(key, list, t);
    assert r.Some? && r.value == i by {
      assert StopsAt(key, t, list[i]);
    }
    var r' := FirstStop(key, other, t);
    assert r'.Some? && r'.value == i by {
      assert StopsAt(key, t, other[i]);
    }
  }

  /**
    When no element equals `key` and none has its own list, the answer is
    "no circle"; in particular for the empty list.
   */
  lemma NoStopNoCircle(idx: int, key: string, list: seq<string>, t: Table)
    requires forall j :: 0 <= j < |list| ==> list[j] != key && list[j] !in t
    ensures CheckCircle(idx, key, list, t)
  {
  }

  /**
    `checkCircle` instrumented with a count of its invocations, itself
    included: the answer is that of `CheckCircle`, and the count is one past
    the depth limit and at most `12 - idx` within it.
   */
  function CheckCircleCounted(idx: int, key: string, list: seq<string>, t: Table): (r: (bool, nat))
    ensures r.0 == CheckCircle(idx, key, list, t)
    ensures idx > MaxDepth ==> r.1 == 1
    ensures idx <= MaxDepth ==> 1 <= r.1 <= MaxDepth + 2 - idx
    decreases if idx > MaxDepth then 0 else MaxDepth + 1 - idx
  {
    if idx > MaxDepth then (true, 1)
    else
      match FirstStop(key, list, t)
      case None => (true, 1)
      case Some(i) =>
        if list[i] == key then (false, 1)
        else
          var (answer, calls) := CheckCircleCounted(idx + 1, key, t[list[i]], t);
          (answer, 1 + calls)
  }

  /** Started at depth 0, as the driver does, a check makes at most 12 nested calls. */
  lemma CallsFromZero(key: string, list: seq<string>, t: Table)
    ensures CheckCircleCounted(0, key, list, t).1 <= 12
  {
  }

  /** `p` follows edges of the table: each element is listed under the one before it. */
  ghost predicate IsChain(t: Table, p: seq<string>) {
    forall i :: 0 <= i < |p| - 1 ==> p[i] in t && p[i + 1] in t[p[i]]
  }

  /** A chain can be extended at the front by an edge into its first element. */
  lemma ChainCons(t: Table, k: string, q: seq<string>)
    requires IsChain(t, q) && q != []
    requires k in t && q[0] in t[k]
    ensures IsChain(t, [k] + q)
  {
    var p := [k] + q;
    forall i | 0 <= i < |p| - 1 ensures p[i] in t && p[i + 1] in t[p[i]] {
      if i > 0 {
        assert p[i] == q[i - 1] && p[i + 1] == q[i];
      }
    }
  }

  /**
    A "circle" answer is never spurious: some element of `list` starts a chain
    through the table that ends at `key`, with at most 11 - idx elements.
   */
  lemma {:induction false} CircleMeansChain(idx: int, key: string, list: seq<string>, t: Table)
    requires !CheckCircle(idx, key, list, t)
    ensures exists p :: 1 <= |p| <= MaxDepth + 1 - idx && p[0] in list && p[|p| - 1] == key && IsChain(t, p)
    decreases if idx > MaxDepth then 0 else MaxDepth + 1 - idx
  {
    var i := FirstStop(key, list, t).value;
    if list[i] == key {
      var p := [key];
      assert p[0] in list;
    } else {
      var el := list[i];
      CircleMeansChain(idx + 1, key, t[el], t);
      var q :| 1 <= |q| <= MaxDepth - idx && q[0] in t[el] && q[|q| - 1] == key && IsChain(t, q);
      var p := [el] + q;
      ChainCons(t, el, q);
      assert p[0] in list && p[|p| - 1] == q[|q| - 1];
    }
  }

  /**
    The check is not complete. A self-loop behind an earlier successor that
    has its own list is missed: the scan follows "B" and never reaches the
    second "A".
   */
  lemma MissedSelfLoop()
    ensures var t: Table := map["A" := ["B", "A"], "B" := ["C"]];
            IsChain(t, ["A", "A"]) && CheckCircle(0, "A", t["A"], t)
  {
  }

  /** The ring position `j`, where position `|ks|` is the start again. */
  function RingAt(ks: seq<string>, j: nat): string
    requires 1 <= |ks| && j <= |ks|
  {
    if j < |ks| then ks[j] else ks[0]
  }

  /**
    `ks` lists distinct keys that form one ring in the table: the only
    successor of each is the next one, and the last leads back to the first.
   */
  ghost predicate IsRing(t: Table, ks: seq<string>) {
    && |ks| >= 1
    && (forall i, j :: 0 <= i < j < |ks| ==> ks[i] != ks[j])
    && (forall i :: 1 <= i <= |ks| ==> ks[i - 1] in t && t[ks[i - 1]] == [RingAt(ks, i)])
  }

  /** The facts `IsRing` gives about position `j` of the ring. */
  lemma RingPosition(t: Table, ks: seq<string>, j: nat)
    requires IsRing(t, ks)
    requires 1 <= j < |ks|
    ensures RingAt(ks, j) == ks[j] && ks[j] != ks[0]
    ensures ks[j] in t && t[ks[j]] == [RingAt(ks, j + 1)]
  {
    var next := j + 1;
    assert ks[next - 1] in t && t[ks[next - 1]] == [RingAt(ks, next)];
  }

  /** A key whose only successor is `next` passes the check on to `next`, one level deeper. */
  lemma StepThrough(idx: int, key: string, el: string, next: string, t: Table)
    requires idx <= MaxDepth
    requires el != key && el in t && t[el] == [next]
    ensures CheckCircle(idx, key, [el], t) == CheckCircle(idx + 1, key, [next], t)
  {
    FirstEntryDecides(idx, key, [el], t, 0);
  }

  /**
    Walking a ring from position `j` at depth `idx`, the start key is met
    `|ks| - j` levels deeper, so it is found exactly when that level is still
    within the depth limit.
   */
  lemma {:induction false} RingWalk(t: Table, ks: seq<string>, idx: int, j: nat)
    requires IsRing(t, ks)
    requires 1 <= j <= |ks|
    ensures CheckCircle(idx, ks[0], [RingAt(ks, j)], t) <==> idx + |ks| - j > MaxDepth
    decreases |ks| - j
  {
    if idx > MaxDepth {
      CheckCircleGivesUp(idx, ks[0], [RingAt(ks, j)], t);
    } else if j == |ks| {
      assert RingAt(ks, j) == ks[0];
      SelfLoopFirst(idx, ks[0], [], t);
      assert [ks[0]] + [] == [ks[0]];
    } else {
      RingPosition(t, ks, j);
      StepThrough(idx, ks[0], ks[j], RingAt(ks, j + 1), t);
      RingWalk(t, ks, idx + 1, j + 1);
    }
  }

  /**
    A ring of n edges through the start key is reported exactly when n is at
    most 11: a circle of twelve or more edges is missed because of the depth
    limit, even though it is a real circle.
   */
  lemma RingReportedIff(t: Table, ks: seq<string>)
    requires IsRing(t, ks)
    ensures IsChain(t, ks + [ks[0]])
    ensures ks[0] in t
    ensures !CheckCircle(0, ks[0], t[ks[0]], t) <==> |ks| <= MaxDepth + 1
  {
    var p := ks + [ks[0]];
    forall i | 0 <= i < |p| - 1 ensures p[i] in t && p[i + 1] in t[p[i]] {
      assert p[i] == ks[i];
      assert p[i + 1] == RingAt(ks, i + 1);
    }
    var second := RingAt(ks, 1);
    assert ks[0] in t && t[ks[0]] == [second];
    RingWalk(t, ks, 0, 1);
  }
}
