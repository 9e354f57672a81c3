/** The threshold filter of `per_state_matcher`: every merged row is scored on
    its two names and kept, with its score, when the score exceeds 80. */
module Matching {
  import opened Records
  import opened Blocking

  datatype Option<T> = None | Some(value: T)

  /** The range of the fuzzy scorer. */
  type Score = x: int | 0 <= x <= 100

  /** Scores strictly above this value are accepted. */
  const Threshold: int := 80

  /** A merged row as the matcher reads it: the two keys and the two names
      (`name_x` from the left table, `name_y` from the right), either of which may be missing. */
  datatype MergedRow = MergedRow(businessId: string, entityId: string, nameX: Option<string>, nameY: Option<string>)

  /** A row of the result table. */
  datatype Match = Match(businessId: string, entityId: string, confidenceScore: Score)

  /** A missing name is scored as the empty string. */
  function NameOrEmpty(name: Option<string>): string {
    if name.Some? then name.value else ""
  }

  /** The score of a row: `fuzz.partial_ratio(text1, text2)`, the scorer being a parameter. */
  function ScoreOf(row: MergedRow, scorer: (string, string) -> Score): Score {
    scorer(NameOrEmpty(row.nameX), NameOrEmpty(row.nameY))
  }

  function MatchOf(row: MergedRow, scorer: (string, string) -> Score): Match {
    Match(row.businessId, row.entityId, ScoreOf(row, scorer))
  }

  predicate Accepts(row: MergedRow, scorer: (string, string) -> Score) {
    ScoreOf(row, scorer) > Threshold
  }

  /** The result of the matcher: the accepted rows, in input order. */
  function Accepted(rows: seq<MergedRow>, scorer: (string, string) -> Score): seq<Match> {
    if rows == [] then []
    else (if Accepts(rows[0], scorer) then [MatchOf(rows[0], scorer)] else []) + Accepted(rows[1..], scorer)
  }

  /** `per_state_matcher`: loop over the merged rows, append each accepted one. */
  method PerStateMatcher(rows: seq<MergedRow>, scorer: (string, string) -> Score) returns (results: seq<Match>)
    ensures results == Accepted(rows, scorer)
    ensures forall k :: 0 <= k < |results| ==> Threshold < results[k].confidenceScore <= 100
  {
    var dfs: seq<Match> := [];
    for i := 0 to |rows|
      invariant dfs == Accepted(rows[..i], scorer)
    {
      var row := rows[i];
      var text1 := if row.nameX.Some? then row.nameX.value else "";
      var text2 := if row.nameY.Some? then row.nameY.value else "";
      var score := scorer(text1, text2);
      if score > 80 {
        dfs := dfs + [Match(row.businessId, row.entityId, score)];
      }
      assert rows[..i + 1] == rows[..i] + [row];
      AcceptedAppend(rows[..i], [row], scorer);
    }
    assert rows[..|rows|] == rows;
    results := dfs;
    AcceptedScores(rows, scorer);
  }

  /** The filter works row by row: it commutes with concatenation, so the order
      of the input is kept. */
  lemma {:induction false} AcceptedAppend(a: seq<MergedRow>, b: seq<MergedRow>, scorer: (string, string) -> Score)
    ensures Accepted(a + b, scorer) == Accepted(a, scorer) + Accepted(b, scorer)
  {
    if a == [] {
      assert a + b == b;
    } else {
      assert (a + b)[1..] == a[1..] + b;
      AcceptedAppend(a[1..], b, scorer);
    }
  }

  /** Every accepted score lies strictly above 80 and at most at 100. */
  lemma {:induction false} AcceptedScores(rows: seq<MergedRow>, scorer: (string, string) -> Score)
    ensures forall k :: 0 <= k < |Accepted(rows, scorer)| ==>
      Threshold < Accepted(rows, scorer)[k].confidenceScore <= 100
  {
    if rows != [] {
      AcceptedScores(rows[1..], scorer);
    }
  }

  /** Positions one further on. */
  function Shift(xs: seq<nat>): (ys: seq<nat>)
    ensures |ys| == |xs|
    ensures forall k :: 0 <= k < |xs| ==> ys[k] == xs[k] + 1
  {
    seq(|xs|, k requires 0 <= k < |xs| => xs[k] + 1)
  }

  lemma ShiftMembers(xs: seq<nat>, j: nat)
    ensures j in xs <==> j + 1 in Shift(xs)
    ensures 0 !in Shift(xs)
  {
    if j + 1 in Shift(xs) {
      var k :| 0 <= k < |xs| && Shift(xs)[k] == j + 1;
      assert xs[k] == j;
    }
  }

  /** `idx` lists, in increasing order, the positions of the rows the filter
      keeps, and `ms` holds those rows' matches in the same order. */
  ghost predicate Selects(rows: seq<MergedRow>, scorer: (string, string) -> Score, ms: seq<Match>, idx: seq<nat>) {
    && |idx| == |ms|
    && (forall k :: 0 <= k < |idx| ==> idx[k] < |rows|)
    && (forall k, l :: 0 <= k < l < |idx| ==> idx[k] < idx[l])
    && (forall k :: 0 <= k < |idx| ==> ms[k] == MatchOf(rows[idx[k]], scorer))
    && (forall i :: 0 <= i < |rows| ==> (Accepts(rows[i], scorer) <==> i in idx))
  }

  /** The result is exactly the accepted rows in input order: the positions `idx`
      of the rows that are kept increase, they are exactly the rows scoring above
      80, and the k-th result is the k-th of those rows with its score. */
  lemma {:induction false} AcceptedSelects(rows: seq<MergedRow>, scorer: (string, string) -> Score)
    returns (idx: seq<nat>)
    ensures Selects(rows, scorer, Accepted(rows, scorer), idx)
  {
    if rows == [] {
      idx := [];
    } else {
      var tail := AcceptedSelects(rows[1..], scorer);
      idx := SelectsCons(rows, scorer, tail);
    }
  }

  lemma SelectsCons(rows: seq<MergedRow>, scorer: (string, string) -> Score, tail: seq<nat>)
    returns (idx: seq<nat>)
    requires rows != []
    requires Selects(rows[1..], scorer, Accepted(rows[1..], scorer), tail)
    ensures Selects(rows, scorer, Accepted(rows, scorer), idx)
  {
    var rest := Accepted(rows[1..], scorer);
    var shifted := Shift(tail);
    assert Selects(rows, scorer, rest, shifted) <==> !Accepts(rows[0], scorer) by {
      SelectsShift(rows, scorer, rest, tail);
    }
    if Accepts(rows[0], scorer) {
      idx := [0] + shifted;
      SelectsFront(rows, scorer, rest, tail);
    } else {
      idx := shifted;
    }
  }

  lemma SelectsShift(rows: seq<MergedRow>, scorer: (string, string) -> Score, rest: seq<Match>, tail: seq<nat>)
    requires rows != []
    requires Selects(rows[1..], scorer, rest, tail)
    ensures Selects(rows, scorer, rest, Shift(tail)) <==> !Accepts(rows[0], scorer)
  {
    var shifted := Shift(tail);
    forall k | 0 <= k < |shifted|
      ensures rest[k] == MatchOf(rows[shifted[k]], scorer)
    {
      assert rows[1..][tail[k]] == rows[shifted[k]];
    }
    forall i | 0 < i < |rows| ensures Accepts(rows[i], scorer) <==> i in shifted {
      ShiftMembers(tail, i - 1);
      assert rows[1..][i - 1] == rows[i];
    }
    ShiftMembers(tail, 0);
  }

  lemma SelectsFront(rows: seq<MergedRow>, scorer: (string, string) -> Score, rest: seq<Match>, tail: seq<nat>)
    requires rows != [] && Accepts(rows[0], scorer)
    requires Selects(rows[1..], scorer, rest, tail)
    ensures Selects(rows, scorer, [MatchOf(rows[0], scorer)] + rest, [0] + Shift(tail))
  {
    FrontOrder(|rows|, tail);
    FrontMatches(rows, scorer, rest, tail);
    FrontMembers(rows, scorer, tail);
  }

  lemma FrontOrder(n: nat, tail: seq<nat>)
    requires n > 0
    requires forall k :: 0 <= k < |tail| ==> tail[k] < n - 1
    requires forall k, l :: 0 <= k < l < |tail| ==> tail[k] < tail[l]
    ensures forall k :: 0 <= k < |[0] + Shift(tail)| ==> ([0] + Shift(tail))[k] < n
    ensures forall k, l :: 0 <= k < l < |[0] + Shift(tail)| ==> ([0] + Shift(tail))[k] < ([0] + Shift(tail))[l]
  {
    var idx := [0] + Shift(tail);
    forall k | 0 < k < |idx| ensures idx[k] == tail[k - 1] + 1 {
    }
  }

  lemma FrontMatches(rows: seq<MergedRow>, scorer: (string, string) -> Score, rest: seq<Match>, tail: seq<nat>)
    requires rows != [] && |tail| == |rest|
    requires forall k :: 0 <= k < |tail| ==> tail[k] < |rows| - 1
    requires forall k :: 0 <= k < |tail| ==> rest[k] == MatchOf(rows[1..][tail[k]], scorer)
    ensures forall k :: 0 <= k < |[0] + Shift(tail)| ==>
      ([MatchOf(rows[0], scorer)] + rest)[k] == MatchOf(rows[([0] + Shift(tail))[k]], scorer)
  {
    var idx := [0] + Shift(tail);
    var ms := [MatchOf(rows[0], scorer)] + rest;
    forall k | 0 < k < |idx| ensures ms[k] == MatchOf(rows[idx[k]], scorer) {
      assert rows[1..][tail[k - 1]] == rows[idx[k]];
    }
  }

  lemma FrontMembers(rows: seq<MergedRow>, scorer: (string, string) -> Score, tail: seq<nat>)
    requires rows != [] && Accepts(rows[0], scorer)
    requires forall i :: 0 <= i < |rows[1..]| ==> (Accepts(rows[1..][i], scorer) <==> i in tail)
    ensures forall i :: 0 <= i < |rows| ==> (Accepts(rows[i], scorer) <==> i in [0] + Shift(tail))
  {
    forall i | 0 < i < |rows| ensures Accepts(rows[i], scorer) <==> i in [0] + Shift(tail) {
      ShiftMembers(tail, i - 1);
      assert rows[1..][i - 1] == rows[i];
    }
  }

  /** Nothing is reported iff no row scores above 80. */
  lemma {:induction false} AcceptedEmpty(rows: seq<MergedRow>, scorer: (string, string) -> Score)
    ensures Accepted(rows, scorer) == [] <==> forall i :: 0 <= i < |rows| ==> ScoreOf(rows[i], scorer) <= Threshold
  {
    if rows != [] {
      AcceptedEmpty(rows[1..], scorer);
      assert forall i :: 1 <= i < |rows| ==> rows[i] == rows[1..][i - 1];
    }
  }

  /** The boundary: a score of 80 is rejected, a score of 81 accepted. */
  lemma Boundary(row: MergedRow, scorer: (string, string) -> Score)
    ensures ScoreOf(row, scorer) == 80 ==> Accepted([row], scorer) == []
    ensures ScoreOf(row, scorer) == 81 ==> Accepted([row], scorer) == [Match(row.businessId, row.entityId, 81)]
  {
    assert [row][1..] == [];
  }

  /** A missing name is scored as the empty string. */
  lemma MissingNames(row: MergedRow, scorer: (string, string) -> Score)
    ensures row.nameX.None? ==> ScoreOf(row, scorer) == scorer("", NameOrEmpty(row.nameY))
    ensures row.nameY.None? ==> ScoreOf(row, scorer) == scorer(NameOrEmpty(row.nameX), "")
  {
  }

  /** A candidate of the blocker as the matcher reads it. */
  function ToMergedRow(c: Candidate): MergedRow {
    MergedRow(c.left.businessId, c.right.entityId, Some(c.left.name), Some(c.right.name))
  }
}
