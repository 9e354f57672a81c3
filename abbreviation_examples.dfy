/** Worked examples of the abbreviation expander on concrete addresses. */
module AbbreviationExamples {
  import opened Abbreviations

  lemma GroupKeys()
    ensures WordKeys(StreetTypes) && WordKeys(Directions) && WordKeys(Buildings)
    ensures WordKeys(Names) && WordKeys(Ordinals)
  {
    StreetTypesAreOneWord();
    DirectionsAreOneWord();
    assert OneWordEntry(Buildings[0]);
    NamesAreGood();
    GoodTableHasWordKeys(Names);
    OrdinalsAreOneWord();
  }

  /** The table applied group after group. */
  lemma ExpandByGroups(u: string)
    ensures Expand(u, Table)
      == Expand(Expand(Expand(Expand(Expand(u, StreetTypes), Directions), Buildings), Names), Ordinals)
  {
    GroupKeys();
    ExpandAppend(u, StreetTypes, Directions);
    ExpandAppend(u, StreetTypes + Directions, Buildings);
    ExpandAppend(u, StreetTypes + Directions + Buildings, Names);
    ExpandAppend(u, StreetTypes + Directions + Buildings + Names, Ordinals);
  }

  /** Entries none of whose keys is a word of `ws` leave `JoinWords(ws)` unchanged. */
  lemma NoKeyFixed(ws: seq<string>, seg: seq<(string, string)>)
    requires forall i :: 0 <= i < |ws| ==> IsWordKey(ws[i])
    requires WordKeys(seg)
    requires forall k :: 0 <= k < |seg| ==> seg[k].0 !in ws
    ensures Expand(JoinWords(ws), seg) == JoinWords(ws)
  {
    WordsOfJoinWords(ws);
    ExpandFixedPoint(JoinWords(ws), seg);
  }

  /** A one-entry table whose key is a word replaces the whole words equal to it. */
  lemma SingleEntry(ws: seq<string>, key: string, full: string)
    requires IsWordKey(key)
    requires forall i :: 0 <= i < |ws| ==> IsWordKey(ws[i])
    ensures Expand(JoinWords(ws), [(key, full)]) == JoinWords(ReplaceEach(ws, key, full))
  {
    assert [(key, full)][..0] == [];
    ReSubIsWordReplacement(JoinWords(ws), key, full);
    ReplaceWordsOfJoinWords(ws, key, full);
  }

  /** Three consecutive pieces of a table: the first and the last fix `u0` and
      `u1`, the middle one maps `u0` to `u1`. */
  lemma ThreePieces(u0: string, u1: string, a: seq<(string, string)>, b: seq<(string, string)>, c: seq<(string, string)>)
    requires WordKeys(a) && WordKeys(b) && WordKeys(c)
    requires Expand(u0, a) == u0 && Expand(u0, b) == u1 && Expand(u1, c) == u1
    ensures Expand(u0, a + b + c) == u1
  {
    ExpandAppend(u0, a, b);
    ExpandAppend(u0, a + b, c);
  }

  /** Entries `i` to `j` of `g`, none of whose keys is a word of `ws`, leave
      `JoinWords(ws)` unchanged. */
  lemma NoKeyFixedSlice(ws: seq<string>, g: seq<(string, string)>, i: nat, j: nat)
    requires forall k :: 0 <= k < |ws| ==> IsWordKey(ws[k])
    requires WordKeys(g) && i <= j <= |g|
    requires forall k :: i <= k < j ==> g[k].0 !in ws
    ensures WordKeys(g[i..j])
    ensures Expand(JoinWords(ws), g[i..j]) == JoinWords(ws)
  {
    assert forall k :: 0 <= k < j - i ==> g[i..j][k] == g[i + k];
    NoKeyFixed(ws, g[i..j]);
  }

  /** Entry `i` of `g` alone replaces the word `g[i].0` of `ws`. */
  lemma OneEntrySlice(ws: seq<string>, g: seq<(string, string)>, i: nat)
    requires forall k :: 0 <= k < |ws| ==> IsWordKey(ws[k])
    requires WordKeys(g) && i < |g|
    ensures WordKeys(g[i..i + 1])
    ensures Expand(JoinWords(ws), g[i..i + 1]) == JoinWords(ReplaceEach(ws, g[i].0, g[i].1))
  {
    var key, full := g[i].0, g[i].1;
    assert IsWordKey(key);
    SliceOfOne(g, i);
    SingleEntry(ws, key, full);
  }

  lemma SliceOfOne(g: seq<(string, string)>, i: nat)
    requires i < |g|
    ensures g[i..i + 1] == [(g[i].0, g[i].1)]
  {
  }

  lemma MainStreetWords()
    ensures IsWordKey("100") && IsWordKey("n") && IsWordKey("main") && IsWordKey("st")
    ensures IsWordKey("street") && IsWordKey("north")
  {
  }

  lemma StreetTypeKeys()
    ensures forall k :: 0 <= k < 15 ==> StreetTypes[k].0 !in ["100", "n", "main", "st"]
    ensures StreetTypes[15] == ("st", "street")
    ensures forall k :: 15 < k < |StreetTypes| ==> StreetTypes[k].0 !in ["100", "n", "main", "street"]
  {
  }

  lemma DirectionKeys()
    ensures forall k :: 0 <= k < 3 ==> Directions[k].0 !in ["100", "n", "main", "street"]
    ensures Directions[3] == ("n", "north")
    ensures forall k :: 3 < k < |Directions| ==> Directions[k].0 !in ["100", "north", "main", "street"]
  {
  }

  lemma RestKeys()
    ensures forall k :: 0 <= k < |Buildings| ==> Buildings[k].0 !in ["100", "north", "main", "street"]
    ensures forall k :: 0 <= k < |Names| ==> Names[k].0 !in ["100", "north", "main", "street"]
    ensures forall k :: 0 <= k < |Ordinals| ==> Ordinals[k].0 !in ["100", "north", "main", "street"]
  {
  }

  /** A group in which only entry `i` has a key among the words turns `before`
      into `after`. */
  lemma OnlyEntryApplies(before: seq<string>, after: seq<string>, g: seq<(string, string)>, i: nat)
    requires forall k :: 0 <= k < |before| ==> IsWordKey(before[k])
    requires forall k :: 0 <= k < |after| ==> IsWordKey(after[k])
    requires WordKeys(g) && i < |g|
    requires forall k :: 0 <= k < i ==> g[k].0 !in before
    requires ReplaceEach(before, g[i].0, g[i].1) == after
    requires forall k :: i < k < |g| ==> g[k].0 !in after
    ensures Expand(JoinWords(before), g) == JoinWords(after)
  {
    var n := |g|;
    SplitAround(g, i);
    NoKeyFixedSlice(before, g, 0, i);
    OneEntrySlice(before, g, i);
    NoKeyFixedSlice(after, g, i + 1, n);
    ThreePieces(JoinWords(before), JoinWords(after), g[0..i], g[i..i + 1], g[i + 1..n]);
  }

  lemma SplitAround(g: seq<(string, string)>, i: nat)
    requires i < |g|
    ensures g == g[0..i] + g[i..i + 1] + g[i + 1..|g|]
  {
    assert g[0..i] + g[i..i + 1] == g[..i + 1];
    assert g[..i + 1] + g[i + 1..|g|] == g;
  }

  lemma ReplaceSt()
    ensures ReplaceEach(["100", "n", "main", "st"], "st", "street") == ["100", "n", "main", "street"]
  {
  }

  lemma ReplaceN()
    ensures ReplaceEach(["100", "n", "main", "street"], "n", "north") == ["100", "north", "main", "street"]
  {
  }

  /** The street types turn "st" into "street": entry 15 alone applies. */
  lemma MainStreetStreetTypes()
    ensures WordKeys(StreetTypes)
    ensures Expand(JoinWords(["100", "n", "main", "st"]), StreetTypes) == JoinWords(["100", "n", "main", "street"])
  {
    MainStreetWords();
    GroupKeys();
    StreetTypeKeys();
    ReplaceSt();
    OnlyEntryApplies(["100", "n", "main", "st"], ["100", "n", "main", "street"], StreetTypes, 15);
  }

  /** The directions turn "n" into "north": the last entry alone applies. */
  lemma MainStreetDirections()
    ensures WordKeys(Directions)
    ensures Expand(JoinWords(["100", "n", "main", "street"]), Directions) == JoinWords(["100", "north", "main", "street"])
  {
    MainStreetWords();
    GroupKeys();
    DirectionKeys();
    ReplaceN();
    OnlyEntryApplies(["100", "n", "main", "street"], ["100", "north", "main", "street"], Directions, 3);
  }

  /** No entry after the directions applies. */
  lemma MainStreetRest()
    ensures WordKeys(Buildings) && WordKeys(Names) && WordKeys(Ordinals)
    ensures var u := JoinWords(["100", "north", "main", "street"]);
      Expand(Expand(Expand(u, Buildings), Names), Ordinals) == u
  {
    var ws := ["100", "north", "main", "street"];
    MainStreetWords();
    GroupKeys();
    RestKeys();
    NoKeyFixed(ws, Buildings);
    NoKeyFixed(ws, Names);
    NoKeyFixed(ws, Ordinals);
  }

  lemma MainStreetBefore()
    ensures "100 n main st" == JoinWords(["100", "n", "main", "st"])
  {
  }

  lemma MainStreetAfter()
    ensures "100 north main street" == JoinWords(["100", "north", "main", "street"])
  {
  }

  /** "100 n main st" becomes "100 north main street": the whole words "st" and
      "n" are expanded, by the street-type and the direction entries. */
  lemma MainStreet()
    ensures Expand("100 n main st", Table) == "100 north main street"
  {
    MainStreetBefore();
    MainStreetAfter();
    ExpandByGroups(JoinWords(["100", "n", "main", "st"]));
    MainStreetStreetTypes();
    MainStreetDirections();
    MainStreetRest();
  }

  /** A word that merely contains a key ("brandt" contains "n", "nst" contains
      "n" and "st") is not a whole-word occurrence and is left alone. */
  lemma LongerWordsUntouched()
    ensures Expand("brandt", Table) == "brandt"
    ensures Expand("nst", Table) == "nst"
  {
    TableHasWordKeys();
    assert IsWordKey("brandt") && IsWordKey("nst");
    WordsOfWord("brandt");
    WordsOfWord("nst");
    NotAKey();
    assert forall j :: 0 <= j < |Table| ==> ShortKey(Table[j].0) by {
      TableIsGood();
    }
    ExpandFixedPoint("brandt", Table);
    ExpandFixedPoint("nst", Table);
  }

  /** "nst" is not a key of any group. */
  lemma NotAKey()
    ensures forall j :: 0 <= j < |Table| ==> Table[j].0 != "nst"
  {
    var w := "nst";
    assert forall j :: 0 <= j < |StreetTypes| ==> StreetTypes[j].0 != w;
    assert forall j :: 0 <= j < |Directions| ==> Directions[j].0 != w;
    assert forall j :: 0 <= j < |Buildings| ==> Buildings[j].0 != w;
    assert forall j :: 0 <= j < |Names| ==> Names[j].0 != w;
    assert forall j :: 0 <= j < |Ordinals| ==> Ordinals[j].0 != w;
    InGroups(w);
  }

  lemma InGroups(w: string)
    requires forall j :: 0 <= j < |StreetTypes| ==> StreetTypes[j].0 != w
    requires forall j :: 0 <= j < |Directions| ==> Directions[j].0 != w
    requires forall j :: 0 <= j < |Buildings| ==> Buildings[j].0 != w
    requires forall j :: 0 <= j < |Names| ==> Names[j].0 != w
    requires forall j :: 0 <= j < |Ordinals| ==> Ordinals[j].0 != w
    ensures forall j :: 0 <= j < |Table| ==> Table[j].0 != w
  {
    forall j | 0 <= j < |Table| ensures Table[j].0 != w {
      KeyOfTable(j);
    }
  }

  /** Entry `j` of the table is an entry of one of the groups. */
  lemma KeyOfTable(j: nat)
    requires j < |Table|
    ensures Table[j] in StreetTypes || Table[j] in Directions || Table[j] in Buildings
      || Table[j] in Names || Table[j] in Ordinals
  {
    var p := StreetTypes + Directions + Buildings + Names;
    assert Table == p + Ordinals;
    if j >= |p| {
      assert Table[j] == Ordinals[j - |p|];
    } else {
      assert Table[j] in p;
    }
  }
}
