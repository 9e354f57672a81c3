/** The stages put together: preprocessed rows go through the blocker and the
    threshold filter.  The end-to-end scenarios (a shared address paired,
    different states never paired, dissimilar names rejected) follow from the
    properties of each stage. */
module Scenarios {
  import opened Chars
  import opened Records
  import opened Abbreviations
  import opened AbbreviationExamples
  import opened Cleaning
  import opened Blocking
  import opened Matching

  /** The merged table as the matcher reads it: both names are present. */
  function MergedRows(cs: seq<Candidate>): (rows: seq<MergedRow>)
    ensures |rows| == |cs|
    ensures forall i :: 0 <= i < |cs| ==> rows[i] == ToMergedRow(cs[i])
  {
    seq(|cs|, i requires 0 <= i < |cs| => ToMergedRow(cs[i]))
  }

  /** Rows whose states differ are never paired, whatever their names. */
  lemma DifferentStatesNeverPaired(ls: seq<LeftRow>, rs: seq<RightRow>, l: LeftRow, r: RightRow)
    requires l.state != r.state
    ensures Candidate(l, r) !in MergeTable(ls, rs)
  {
    MergeMembers(ls, rs, States, Candidate(l, r));
  }

  /** Rows of a state outside the five blocked ones are never paired. */
  lemma OtherStatesDropped(ls: seq<LeftRow>, rs: seq<RightRow>, c: Candidate)
    requires c.left.state !in States
    ensures c !in MergeTable(ls, rs)
  {
    MergeMembers(ls, rs, States, c);
  }

  /** Two preprocessed rows of a blocked state whose raw addresses normalize to
      the same text are paired by the blocker. */
  lemma SameNormalizedAddressPaired(raw: LeftRow, rawR: RightRow, ls: seq<LeftRow>, rs: seq<RightRow>)
    requires CleanLeft(raw) in ls && CleanRight(rawR) in rs
    requires raw.state == rawR.state && raw.state in States
    requires NormalizeAddress(raw.address) == NormalizeAddress(rawR.address)
    ensures Candidate(CleanLeft(raw), CleanRight(rawR)) in MergeTable(ls, rs)
  {
    MergeMembers(ls, rs, States, Candidate(CleanLeft(raw), CleanRight(rawR)));
  }

  /** A single left and a single right row that the blocker pairs give a merged
      table of exactly that pair. */
  lemma SinglePair(l: LeftRow, r: RightRow)
    requires l.state == r.state && l.state in States && l.address == r.address
    ensures MergeTable([l], [r]) == [Candidate(l, r)]
  {
    StatesAreDistinct();
    SingleMerge(l, r, States);
  }

  lemma SingleMerge(l: LeftRow, r: RightRow, states: seq<string>)
    requires Distinct(states)
    requires l.state == r.state && l.state in states && l.address == r.address
    ensures Merge([l], [r], states) == [Candidate(l, r)]
  {
    var m := Merge([l], [r], states);
    MergeMembers([l], [r], states, Candidate(l, r));
    MergeSize([l], [r], states);
    assert |m| <= 1;
    var k :| 0 <= k < |m| && m[k] == Candidate(l, r);
    assert m == [m[k]];
  }

  /** A left and a right row that the blocker pairs, with a score above 80 for
      their names: the pair is the whole result, carrying that score. */
  lemma PairMatched(a: LeftRow, b: RightRow, scorer: (string, string) -> Score)
    requires a.state == b.state && a.state in States && a.address == b.address
    requires scorer(a.name, b.name) > Threshold
    ensures Accepted(MergedRows(MergeTable([a], [b])), scorer) == [Match(a.businessId, b.entityId, scorer(a.name, b.name))]
  {
    var c := Candidate(a, b);
    SinglePair(a, b);
    assert MergedRows([c]) == [ToMergedRow(c)];
    AcceptedOne(ToMergedRow(c), scorer);
  }

  /** Two raw rows of a blocked state whose addresses normalize alike are paired
      by the blocker, and with a score above 80 for their cleaned names the pair
      is the whole result, carrying that score. */
  lemma RawPairMatched(l: LeftRow, r: RightRow, scorer: (string, string) -> Score)
    requires l.state == r.state && l.state in States
    requires NormalizeAddress(l.address) == NormalizeAddress(r.address)
    requires scorer(Clean(l.name), Clean(r.name)) > Threshold
    ensures MergeTable([CleanLeft(l)], [CleanRight(r)]) == [Candidate(CleanLeft(l), CleanRight(r))]
    ensures Accepted(MergedRows(MergeTable([CleanLeft(l)], [CleanRight(r)])), scorer)
      == [Match(l.businessId, r.entityId, scorer(Clean(l.name), Clean(r.name)))]
  {
    var a := CleanLeft(l);
    var b := CleanRight(r);
    assert a.state == b.state && a.address == b.address && a.name == Clean(l.name) && b.name == Clean(r.name);
    SinglePair(a, b);
    PairMatched(a, b, scorer);
  }

  /** The rows of the end-to-end scenario: "joes pizza" and "joe's pizza and
      grill", both at "100 n main st" in Erie, PA. */
  predicate JoesRows(l: LeftRow, r: RightRow) {
    && l.businessId == "B1" && l.name == "joes pizza" && l.address == "100 n main st"
    && l.city == "erie" && l.state == "PA"
    && r.entityId == "E1" && r.name == "joe's pizza and grill" && r.address == "100 n main st"
    && r.city == "erie" && r.state == "PA"
  }

  lemma MainStreetIsNormal()
    ensures IsNormal("100 n main st")
  {
    var a := "100 n main st";
    forall i | 0 <= i < |a| ensures IsKept(a[i]) && !IsUpper(a[i]) {
    }
  }

  /** Both raw addresses normalize to "100 north main street". */
  lemma JoesAddresses(l: LeftRow, r: RightRow)
    requires JoesRows(l, r)
    ensures NormalizeAddress(l.address) == "100 north main street"
    ensures NormalizeAddress(r.address) == "100 north main street"
  {
    MainStreetIsNormal();
    NormalizeCleanAddress("100 n main st");
    MainStreet();
  }

  /** The end-to-end scenario: the blocker pairs the two rows. */
  lemma JoesPizzaPaired(l: LeftRow, r: RightRow)
    requires JoesRows(l, r)
    ensures MergeTable([CleanLeft(l)], [CleanRight(r)]) == [Candidate(CleanLeft(l), CleanRight(r))]
  {
    assert l.address == r.address && l.state == r.state == "PA";
    SinglePair(CleanLeft(l), CleanRight(r));
  }

  /** The end-to-end scenario: with a score above 80 for the cleaned names, the
      pair is the whole result, with that score. */
  lemma JoesPizzaMatched(l: LeftRow, r: RightRow, scorer: (string, string) -> Score)
    requires JoesRows(l, r)
    requires scorer(Clean(l.name), Clean(r.name)) > Threshold
    ensures Accepted(MergedRows(MergeTable([CleanLeft(l)], [CleanRight(r)])), scorer)
      == [Match("B1", "E1", scorer(Clean(l.name), Clean(r.name)))]
  {
    assert l.address == r.address && l.state == r.state == "PA";
    RawPairMatched(l, r, scorer);
  }

  /** The filter on a single row. */
  lemma AcceptedOne(row: MergedRow, scorer: (string, string) -> Score)
    ensures Accepted([row], scorer) == if Accepts(row, scorer) then [MatchOf(row, scorer)] else []
  {
    assert [row][1..] == [];
  }

  /** A pair the blocker generates is still rejected when its names score 80 or
      less: it is generated, and the result is empty. */
  lemma DissimilarNamesRejected(l: LeftRow, r: RightRow, scorer: (string, string) -> Score)
    requires l.state == r.state && l.state in States && l.address == r.address
    requires scorer(l.name, r.name) <= Threshold
    ensures Candidate(l, r) in MergeTable([l], [r])
    ensures Accepted(MergedRows(MergeTable([l], [r])), scorer) == []
  {
    SinglePair(l, r);
    assert MergedRows([Candidate(l, r)]) == [ToMergedRow(Candidate(l, r))];
    AcceptedOne(ToMergedRow(Candidate(l, r)), scorer);
  }
}
