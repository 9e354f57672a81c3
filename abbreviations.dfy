/** The abbreviation expander: each entry of a fixed table is applied once, in
    table order, as a whole-word regular-expression substitution. */
module Abbreviations {
  import opened Chars

  /** The USPS abbreviation table, in the order the source's dictionary iterates
      it: street types, directions, "bldg", two names and ordinals. */
  const Table: seq<(string, string)> := StreetTypes + Directions + Buildings + Names + Ordinals

  const StreetTypes: seq<(string, string)> := [
    ("aly", "alley"), ("ave", "avenue"), ("blvd", "boulevard"), ("byp", "bypass"),
    ("cir", "circle"), ("ct", "court"), ("dr", "drive"), ("expy", "expressway"),
    ("hwy", "highway"), ("ln", "lane"), ("pkwy", "parkway"), ("pl", "place"),
    ("pt", "point"), ("rd", "road"), ("sq", "square"), ("st", "street"),
    ("ter", "terrace"), ("trl", "trail"), ("ste", "suite")
  ]

  const Directions: seq<(string, string)> := [("e", "east"), ("w", "west"), ("s", "south"), ("n", "north")]

  const Buildings: seq<(string, string)> := [("bldg", "building")]

  const Names: seq<(string, string)> := [("mlk", "martin luther king"), ("jfk", "john f kennedy")]

  const Ordinals: seq<(string, string)> := [
    ("1st", "first"), ("2nd", "second"), ("3rd", "third"), ("4th", "fourth"), ("5th", "fifth"),
    ("6th", "sixth"), ("7th", "seventh"), ("8th", "eighth"), ("9th", "ninth"), ("10th", "tenth")
  ]

  /** A nonempty string of word characters. */
  predicate IsWordKey(k: string) {
    |k| > 0 && forall i :: 0 <= i < |k| ==> IsWordChar(k[i])
  }

  /** The number of word characters at the start of `t`: the length of its
      leading maximal word run. */
  function WordRun(t: string): (n: nat)
    ensures n <= |t|
    ensures n < |t| ==> !IsWordChar(t[n])
  {
    if t == [] || !IsWordChar(t[0]) then 0 else 1 + WordRun(t[1..])
  }

  lemma {:induction false} WordRunChars(t: string)
    ensures forall i :: 0 <= i < WordRun(t) ==> IsWordChar(t[i])
  {
    if t != [] && IsWordChar(t[0]) {
      WordRunChars(t[1..]);
      assert forall i :: 1 <= i < WordRun(t) ==> t[i] == t[1..][i - 1];
    }
  }

  // ---------------------------------------------------------------------------
  // `re.sub(r"\b" + key + r"\b", full, text)`, as the regular-expression engine
  // runs it: try a match at each position from left to right; on a match emit
  // `full` and resume after the matched text, otherwise copy one character.
  // ---------------------------------------------------------------------------

  /** `\b` holds between two neighbours iff exactly one of them is a word
      character; a missing neighbour (a string end) is not one. */
  predicate Boundary(beforeIsWord: bool, afterIsWord: bool) {
    beforeIsWord != afterIsWord
  }

  /** The pattern `\b key \b` matches at the start of `t`, where `prevWord` says
      whether the character before `t` in the subject string is a word character. */
  predicate MatchesAt(prevWord: bool, t: string, key: string)
    requires |key| > 0
  {
    && key <= t
    && Boundary(prevWord, IsWordChar(t[0]))
    && Boundary(IsWordChar(key[|key| - 1]), |t| > |key| && IsWordChar(t[|key|]))
  }

  function SubScan(prevWord: bool, t: string, key: string, full: string): string
    requires |key| > 0
    decreases |t|
  {
    if t == [] then []
    else if MatchesAt(prevWord, t, key) then
      full + SubScan(IsWordChar(key[|key| - 1]), t[|key|..], key, full)
    else
      [t[0]] + SubScan(IsWordChar(t[0]), t[1..], key, full)
  }

  /** `re.sub(r"\b{}\b".format(re.escape(key)), full, text)`. */
  function ReSub(text: string, key: string, full: string): string
    requires |key| > 0
  {
    SubScan(false, text, key, full)
  }

  // ---------------------------------------------------------------------------
  // The word-level reading: a string is a sequence of maximal word runs and
  // single non-word characters, and a word run equal to the key is replaced.
  // ---------------------------------------------------------------------------

  function ReplaceWords(t: string, key: string, full: string): string
    decreases |t|
  {
    if t == [] then []
    else
      var n := WordRun(t);
      if n == 0 then [t[0]] + ReplaceWords(t[1..], key, full)
      else (if t[..n] == key then full else t[..n]) + ReplaceWords(t[n..], key, full)
  }

  /** The maximal word runs of `t`, from left to right. */
  function Words(t: string): (ws: seq<string>)
    ensures forall i :: 0 <= i < |ws| ==> IsWordKey(ws[i])
    decreases |t|
  {
    if t == [] then []
    else
      var n := WordRun(t);
      WordRunChars(t);
      if n == 0 then Words(t[1..]) else [t[..n]] + Words(t[n..])
  }

  /** Replace every occurrence of the word `key` in `ws` by the words `fw`. */
  function SubstWords(ws: seq<string>, key: string, fw: seq<string>): seq<string>
  {
    if ws == [] then [] else (if ws[0] == key then fw else [ws[0]]) + SubstWords(ws[1..], key, fw)
  }

  /** A word boundary separates `a` from `b`. */
  predicate Junction(a: string, b: string) {
    a == [] || b == [] || !IsWordChar(a[|a| - 1]) || !IsWordChar(b[0])
  }

  // ---------------------------------------------------------------------------
  // The scan agrees with the word-level reading.
  // ---------------------------------------------------------------------------

  /** Before a non-word character (or at the end) it does not matter whether the
      previous character was a word character. */
  lemma ScanPrevIrrelevant(t: string, key: string, full: string)
    requires IsWordKey(key)
    requires t == [] || !IsWordChar(t[0])
    ensures SubScan(true, t, key, full) == SubScan(false, t, key, full)
  {
    if t != [] {
      assert IsWordChar(key[0]) && !IsWordChar(t[0]);
      assert !MatchesAt(true, t, key) && !MatchesAt(false, t, key);
    }
  }

  /** Inside a word the scan copies characters up to the end of the word run. */
  lemma {:induction false} ScanInsideWord(t: string, key: string, full: string)
    requires IsWordKey(key)
    ensures SubScan(true, t, key, full) == t[..WordRun(t)] + SubScan(false, t[WordRun(t)..], key, full)
    decreases |t|
  {
    if WordRun(t) == 0 {
      ScanPrevIrrelevant(t, key, full);
    } else {
      ScanInsideWord(t[1..], key, full);
      ScanInsideWordStep(t, key, full);
    }
  }

  /** One character of a word run is copied; the rest of the run is the hypothesis. */
  lemma ScanInsideWordStep(t: string, key: string, full: string)
    requires IsWordKey(key) && WordRun(t) > 0
    requires SubScan(true, t[1..], key, full)
      == t[1..][..WordRun(t[1..])] + SubScan(false, t[1..][WordRun(t[1..])..], key, full)
    ensures SubScan(true, t, key, full) == t[..WordRun(t)] + SubScan(false, t[WordRun(t)..], key, full)
  {
    var n := WordRun(t);
    assert !MatchesAt(true, t, key);
    assert SubScan(true, t, key, full) == [t[0]] + SubScan(true, t[1..], key, full);
    assert WordRun(t[1..]) == n - 1;
    FirstAndRest(t, n);
  }

  lemma FirstAndRest(t: string, n: nat)
    requires 0 < n <= |t|
    ensures [t[0]] + t[1..][..n - 1] == t[..n]
    ensures t[1..][n - 1..] == t[n..]
  {
  }

  /** A word run that differs from the key does not start a match. */
  lemma NoMatchInDifferentWord(t: string, key: string)
    requires IsWordKey(key) && WordRun(t) > 0 && t[..WordRun(t)] != key
    ensures !MatchesAt(false, t, key)
  {
    var n := WordRun(t);
    WordRunChars(t);
    if key <= t {
      forall i | 0 <= i < |key| ensures IsWordChar(t[i]) {
        assert t[i] == key[i];
      }
      if |key| < n {
        assert IsWordChar(t[|key|]);
      }
    }
  }

  /** A word run equal to the key starts a match. */
  lemma MatchInEqualWord(t: string, key: string)
    requires IsWordKey(key) && WordRun(t) > 0 && t[..WordRun(t)] == key
    ensures MatchesAt(false, t, key)
  {
  }

  /** For a key made of word characters, the regular-expression substitution
      replaces exactly the word runs equal to the key. */
  lemma {:induction false} ReSubIsWordReplacement(t: string, key: string, full: string)
    requires IsWordKey(key)
    ensures ReSub(t, key, full) == ReplaceWords(t, key, full)
    decreases |t|
  {
    if t != [] {
      var n := WordRun(t);
      if n == 0 {
        assert IsWordChar(key[0]) && !IsWordChar(t[0]);
        assert !MatchesAt(false, t, key);
        ReSubIsWordReplacement(t[1..], key, full);
      } else if t[..n] == key {
        MatchInEqualWord(t, key);
        ScanPrevIrrelevant(t[n..], key, full);
        ReSubIsWordReplacement(t[n..], key, full);
      } else {
        NoMatchInDifferentWord(t, key);
        ScanDifferentWord(t, key, full);
        ReSubIsWordReplacement(t[n..], key, full);
      }
    }
  }

  lemma ScanDifferentWord(t: string, key: string, full: string)
    requires IsWordKey(key) && WordRun(t) > 0 && !MatchesAt(false, t, key)
    ensures SubScan(false, t, key, full) == t[..WordRun(t)] + SubScan(false, t[WordRun(t)..], key, full)
  {
    var n := WordRun(t);
    assert SubScan(false, t, key, full) == [t[0]] + SubScan(true, t[1..], key, full);
    assert WordRun(t[1..]) == n - 1;
    ScanInsideWord(t[1..], key, full);
    FirstAndRest(t, n);
  }

  // ---------------------------------------------------------------------------
  // Words of a replacement.
  // ---------------------------------------------------------------------------

  lemma {:induction false} WordRunConcat(a: string, b: string)
    requires a != [] && Junction(a, b)
    ensures WordRun(a + b) == WordRun(a)
    decreases |a|
  {
    if IsWordChar(a[0]) && |a| > 1 {
      assert (a + b)[1..] == a[1..] + b;
      WordRunConcat(a[1..], b);
    } else if IsWordChar(a[0]) {
      assert (a + b)[1..] == b;
    }
  }

  /** Concatenation at a word boundary concatenates the words. */
  lemma {:induction false} WordsConcat(a: string, b: string)
    requires Junction(a, b)
    ensures Words(a + b) == Words(a) + Words(b)
    decreases |a|
  {
    if a == [] {
      assert a + b == b;
    } else if WordRun(a) == 0 {
      WordsConcat(a[1..], b);
      WordsConcatSkip(a, b);
    } else {
      var n := WordRun(a);
      WordsConcat(a[n..], b);
      WordsConcatRun(a, b);
    }
  }

  lemma WordsConcatSkip(a: string, b: string)
    requires a != [] && WordRun(a) == 0 && Junction(a, b)
    requires Words(a[1..] + b) == Words(a[1..]) + Words(b)
    ensures Words(a + b) == Words(a) + Words(b)
  {
    WordRunConcat(a, b);
    SplitConcat(a, b, 1);
    WordsSkip(a);
    WordsSkip(a + b);
  }

  lemma WordsConcatRun(a: string, b: string)
    requires a != [] && WordRun(a) > 0 && Junction(a, b)
    requires Words(a[WordRun(a)..] + b) == Words(a[WordRun(a)..]) + Words(b)
    ensures Words(a + b) == Words(a) + Words(b)
  {
    WordRunConcat(a, b);
    SplitConcat(a, b, WordRun(a));
    WordsRun(a);
    WordsRun(a + b);
  }

  lemma SplitConcat(a: string, b: string, n: nat)
    requires n <= |a|
    ensures (a + b)[..n] == a[..n] && (a + b)[n..] == a[n..] + b
  {
  }

  /** `Words` drops a leading non-word character. */
  lemma WordsSkip(t: string)
    requires t != [] && WordRun(t) == 0
    ensures Words(t) == Words(t[1..])
  {
  }

  /** `Words` takes a leading word run. */
  lemma WordsRun(t: string)
    requires WordRun(t) > 0
    ensures Words(t) == [t[..WordRun(t)]] + Words(t[WordRun(t)..])
  {
  }

  lemma WordsOfWord(w: string)
    requires IsWordKey(w)
    ensures Words(w) == [w]
  {
    assert WordRun(w) == |w|;
    assert w[..|w|] == w;
    assert w[|w|..] == [];
  }

  /** On words, `ReplaceWords` is `SubstWords`: no word is split, merged or
      altered except a whole word equal to the key. */
  lemma {:induction false} WordsOfReplaceWords(t: string, key: string, full: string)
    ensures Words(ReplaceWords(t, key, full)) == SubstWords(Words(t), key, Words(full))
    decreases |t|
  {
    if t != [] {
      var n := WordRun(t);
      WordRunChars(t);
      var rest := ReplaceWords(t[n..], key, full);
      if n == 0 {
        var out := [t[0]] + ReplaceWords(t[1..], key, full);
        assert out[1..] == ReplaceWords(t[1..], key, full);
        WordsOfReplaceWords(t[1..], key, full);
      } else {
        var piece := if t[..n] == key then full else t[..n];
        assert rest == [] || rest[0] == t[n];
        WordsConcat(piece, rest);
        WordsOfReplaceWords(t[n..], key, full);
        if t[..n] != key {
          WordsOfWord(t[..n]);
        }
        assert Words(t) == [t[..n]] + Words(t[n..]);
        assert ([t[..n]] + Words(t[n..]))[1..] == Words(t[n..]);
      }
    }
  }

  lemma {:induction false} SubstWordsMembers(ws: seq<string>, key: string, fw: seq<string>, w: string)
    ensures w in SubstWords(ws, key, fw) <==> (w in ws && w != key) || (key in ws && w in fw)
  {
    if ws != [] {
      SubstWordsMembers(ws[1..], key, fw, w);
      assert ws == [ws[0]] + ws[1..];
    }
  }

  /** A text in which the key is not a whole word is left unchanged. */
  lemma {:induction false} ReplaceWordsAbsent(t: string, key: string, full: string)
    requires key !in Words(t)
    ensures ReplaceWords(t, key, full) == t
    decreases |t|
  {
    if t != [] {
      var n := WordRun(t);
      if n == 0 {
        ReplaceWordsAbsent(t[1..], key, full);
      } else {
        assert Words(t) == [t[..n]] + Words(t[n..]);
        ReplaceWordsAbsent(t[n..], key, full);
      }
    }
  }

  /** Concatenation at a word boundary commutes with word replacement. */
  lemma {:induction false} ReplaceWordsConcat(a: string, b: string, key: string, full: string)
    requires Junction(a, b)
    ensures ReplaceWords(a + b, key, full) == ReplaceWords(a, key, full) + ReplaceWords(b, key, full)
    decreases |a|
  {
    if a == [] {
      assert a + b == b;
    } else {
      var n := WordRun(a);
      var m := if n == 0 then 1 else n;
      JunctionSuffix(a, b, m);
      ReplaceWordsConcat(a[m..], b, key, full);
      ReplaceWordsConcatStep(a, b, key, full, m);
    }
  }

  lemma JunctionSuffix(a: string, b: string, m: nat)
    requires Junction(a, b) && m <= |a|
    ensures Junction(a[m..], b)
  {
    if m < |a| {
      assert a[m..][|a| - m - 1] == a[|a| - 1];
    }
  }

  /** One step of `ReplaceWordsConcat`: the first piece of `a + b` is that of `a`. */
  lemma ReplaceWordsConcatStep(a: string, b: string, key: string, full: string, m: nat)
    requires a != [] && Junction(a, b)
    requires m == if WordRun(a) == 0 then 1 else WordRun(a)
    requires ReplaceWords(a[m..] + b, key, full) == ReplaceWords(a[m..], key, full) + ReplaceWords(b, key, full)
    ensures ReplaceWords(a + b, key, full) == ReplaceWords(a, key, full) + ReplaceWords(b, key, full)
  {
    ReplaceWordsFirstConcat(a, b, key, full, m);
    ReplaceWordsFirst(a, key, full);
    Regroup(ReplaceWords(a + b, key, full), ReplaceWords(a, key, full), FirstPiece(a, key, full),
            ReplaceWords(a[m..], key, full), ReplaceWords(b, key, full), ReplaceWords(a[m..] + b, key, full));
  }

  lemma Regroup(x: string, y: string, w: string, p: string, q: string, r: string)
    requires x == w + r && r == p + q && y == w + p
    ensures x == y + q
  {
  }

  /** Across a word boundary, the first piece of `a + b` is that of `a`. */
  lemma ReplaceWordsFirstConcat(a: string, b: string, key: string, full: string, m: nat)
    requires a != [] && Junction(a, b)
    requires m == if WordRun(a) == 0 then 1 else WordRun(a)
    ensures ReplaceWords(a + b, key, full) == FirstPiece(a, key, full) + ReplaceWords(a[m..] + b, key, full)
  {
    FirstPieceConcat(a, b, key, full);
    ReplaceWordsFirst(a + b, key, full);
    assert (a + b)[m..] == a[m..] + b;
  }

  lemma FirstPieceConcat(a: string, b: string, key: string, full: string)
    requires a != [] && Junction(a, b)
    ensures WordRun(a + b) == WordRun(a)
    ensures FirstPiece(a + b, key, full) == FirstPiece(a, key, full)
  {
    WordRunConcat(a, b);
    var n := WordRun(a);
    if n == 0 {
      assert (a + b)[..1] == a[..1];
    } else {
      assert (a + b)[..n] == a[..n];
    }
  }

  /** The replacement of the first piece of `t`: a non-word character, or a word run. */
  function FirstPiece(t: string, key: string, full: string): string
    requires t != []
  {
    var n := WordRun(t);
    if n == 0 then t[..1] else if t[..n] == key then full else t[..n]
  }

  lemma ReplaceWordsFirst(t: string, key: string, full: string)
    requires t != []
    ensures ReplaceWords(t, key, full)
      == FirstPiece(t, key, full) + ReplaceWords(t[if WordRun(t) == 0 then 1 else WordRun(t)..], key, full)
  {
    assert t[..1] == [t[0]];
  }

  /** A word followed by a space: the words are the word and those after the space. */
  lemma WordsSpace(a: string, b: string)
    requires IsWordKey(a)
    ensures Words(a + " " + b) == [a] + Words(b)
  {
    assert a + " " + b == a + (" " + b);
    WordsConcat(a, " " + b);
    WordsOfWord(a);
    assert (" " + b)[1..] == b;
  }

  /** Replacement in a word followed by a space. */
  lemma ReplaceWordsSpace(a: string, b: string, key: string, full: string)
    requires IsWordKey(a)
    ensures ReplaceWords(a + " " + b, key, full) == (if a == key then full else a) + " " + ReplaceWords(b, key, full)
  {
    ReplaceWordsSeparated(a, ' ', b, key, full);
  }

  /** Replacement in a word, a non-word character and the rest. */
  lemma ReplaceWordsSeparated(a: string, c: char, b: string, key: string, full: string)
    requires IsWordKey(a) && !IsWordChar(c)
    ensures ReplaceWords(a + [c] + b, key, full) == (if a == key then full else a) + [c] + ReplaceWords(b, key, full)
  {
    var cb := [c] + b;
    assert a + [c] + b == a + cb;
    ReplaceWordsConcat(a, cb, key, full);
    ReplaceWordsOfWord(a, key, full);
    ReplaceWordsAfterNonWord(c, b, key, full);
  }

  /** A single word is replaced iff it is the key. */
  lemma ReplaceWordsOfWord(a: string, key: string, full: string)
    requires IsWordKey(a)
    ensures ReplaceWords(a, key, full) == if a == key then full else a
  {
    assert WordRun(a) == |a|;
    ReplaceWordsFirst(a, key, full);
    assert a[..|a|] == a && a[|a|..] == [];
  }

  /** A leading non-word character is copied. */
  lemma ReplaceWordsAfterNonWord(c: char, b: string, key: string, full: string)
    requires !IsWordChar(c)
    ensures ReplaceWords([c] + b, key, full) == [c] + ReplaceWords(b, key, full)
  {
    ReplaceWordsFirst([c] + b, key, full);
    assert ([c] + b)[1..] == b;
  }

  // ---------------------------------------------------------------------------
  // The whole table, one entry after the other.
  // ---------------------------------------------------------------------------

  /** Every key of the table is a nonempty string of word characters. */
  predicate WordKeys(table: seq<(string, string)>) {
    forall i :: 0 <= i < |table| ==> IsWordKey(table[i].0)
  }

  /** No expansion of the table contains any key of the table as a whole word. */
  predicate Closed(table: seq<(string, string)>) {
    forall i, j :: 0 <= i < |table| && 0 <= j < |table| ==> table[j].0 !in Words(table[i].1)
  }

  /** No key of the table occurs in `t` as a whole word. */
  predicate NoKeyIn(t: string, table: seq<(string, string)>) {
    forall j :: 0 <= j < |table| ==> table[j].0 !in Words(t)
  }

  /** The text after the loop of `replace_abbreviations` has run over `table`:
      one substitution per entry, in table order. */
  function Expand(text: string, table: seq<(string, string)>): string
    requires forall i :: 0 <= i < |table| ==> |table[i].0| > 0
    decreases |table|
  {
    if table == [] then text
    else
      var last := table[|table| - 1];
      ReSub(Expand(text, table[..|table| - 1]), last.0, last.1)
  }

  /** `replace_abbreviations`: the loop over the table reassigns the text once per entry. */
  method ReplaceAbbreviations(text: string) returns (r: string)
    ensures r == Expand(text, Table)
    ensures NoKeyIn(r, Table)
  {
    TableHasWordKeys();
    r := text;
    for i := 0 to |Table|
      invariant r == Expand(text, Table[..i])
    {
      var (abbrev, full) := Table[i];
      assert Table[..i + 1][..i] == Table[..i];
      r := ReSub(r, abbrev, full);
    }
    assert Table[..|Table|] == Table;
    TableIsClosed();
    ExpandLeavesNoKey(text, Table);
  }

  lemma {:induction false} ExpandAppend(t: string, p: seq<(string, string)>, q: seq<(string, string)>)
    requires WordKeys(p) && WordKeys(q)
    ensures WordKeys(p + q)
    ensures Expand(t, p + q) == Expand(Expand(t, p), q)
    decreases |q|
  {
    if q == [] {
      assert p + q == p;
    } else {
      assert (p + q)[..|p + q| - 1] == p + q[..|q| - 1];
      ExpandAppend(t, p, q[..|q| - 1]);
    }
  }

  /** After the table has been applied, no key of a closed table is left as a whole word. */
  lemma {:induction false} ExpandLeavesNoKey(t: string, table: seq<(string, string)>)
    requires WordKeys(table) && Closed(table)
    ensures NoKeyIn(Expand(t, table), table)
    decreases |table|
  {
    if table != [] {
      var init := table[..|table| - 1];
      var (k, f) := table[|table| - 1];
      assert WordKeys(init) && Closed(init);
      ExpandLeavesNoKey(t, init);
      var u := Expand(t, init);
      ReSubIsWordReplacement(u, k, f);
      WordsOfReplaceWords(u, k, f);
      forall j | 0 <= j < |table| ensures table[j].0 !in Words(Expand(t, table)) {
        SubstWordsMembers(Words(u), k, Words(f), table[j].0);
        if j < |table| - 1 {
          assert init[j] == table[j];
        }
      }
    }
  }

  /** A text without any key as a whole word is a fixed point of the expansion. */
  lemma {:induction false} ExpandFixedPoint(u: string, table: seq<(string, string)>)
    requires WordKeys(table) && NoKeyIn(u, table)
    ensures Expand(u, table) == u
    decreases |table|
  {
    if table != [] {
      var init := table[..|table| - 1];
      var (k, f) := table[|table| - 1];
      assert NoKeyIn(u, init) by {
        forall j | 0 <= j < |init| ensures init[j].0 !in Words(u) {
          assert init[j] == table[j];
        }
      }
      ExpandFixedPoint(u, init);
      ReSubIsWordReplacement(u, k, f);
      ReplaceWordsAbsent(u, k, f);
    }
  }

  /** Expanding twice gives the same text as expanding once, for any table in
      which no expansion contains a key as a whole word. */
  lemma ExpandIdempotentFor(t: string, table: seq<(string, string)>)
    requires WordKeys(table) && Closed(table)
    ensures Expand(Expand(t, table), table) == Expand(t, table)
  {
    ExpandLeavesNoKey(t, table);
    ExpandFixedPoint(Expand(t, table), table);
  }

  /** The four-letter expansion words and the single letter "f": the only words
      of the expansions that are not longer than every key. */
  const ShortWords: seq<string> := ["lane", "road", "east", "west", "john", "king", "f"]

  /** Lower-case letters and spaces only. */
  predicate IsLowerText(s: string) {
    forall i :: 0 <= i < |s| ==> ('a' <= s[i] <= 'z') || s[i] == ' '
  }

  /** A word of at most four characters that is not one of `ShortWords`. */
  predicate ShortKey(k: string) {
    IsWordKey(k) && |k| <= 4 && k !in ShortWords
  }

  /** Every word of `e` is longer than four characters or one of `ShortWords`:
      so it is not a `ShortKey`. */
  predicate LongOrShortWords(e: string) {
    forall w :: w in Words(e) ==> LongOrShort(w)
  }

  /** Longer than four characters, or one of `ShortWords`. */
  predicate LongOrShort(w: string) {
    |w| > 4 || w in ShortWords
  }

  predicate GoodEntry(entry: (string, string)) {
    ShortKey(entry.0) && IsLowerText(entry.1) && LongOrShortWords(entry.1)
  }

  /** The shape of the source's table that the idempotence proof relies on. */
  predicate GoodTable(table: seq<(string, string)>) {
    forall i :: 0 <= i < |table| ==> GoodEntry(table[i])
  }

  /** An entry whose expansion is a single word. */
  predicate OneWordEntry(entry: (string, string)) {
    ShortKey(entry.0) && IsLowerText(entry.1) && IsWordKey(entry.1) && LongOrShort(entry.1)
  }

  lemma OneWordTable(table: seq<(string, string)>)
    requires forall i :: 0 <= i < |table| ==> OneWordEntry(table[i])
    ensures GoodTable(table)
  {
    forall i | 0 <= i < |table| ensures GoodEntry(table[i]) {
      WordsOfWord(table[i].1);
    }
  }

  lemma GoodTableAppend(a: seq<(string, string)>, b: seq<(string, string)>)
    requires GoodTable(a) && GoodTable(b)
    ensures GoodTable(a + b)
  {
    forall i | 0 <= i < |a + b| ensures GoodEntry((a + b)[i]) {
      if i < |a| {
        assert (a + b)[i] == a[i];
      } else {
        assert (a + b)[i] == b[i - |a|];
      }
    }
  }

  lemma StreetTypesAreOneWord()
    ensures forall i :: 0 <= i < |StreetTypes| ==> OneWordEntry(StreetTypes[i])
  {
    StreetTypesAreOneWord0();
    StreetTypesAreOneWord1();
    StreetTypesAreOneWord2();
  }

  lemma StreetTypesAreOneWord0()
    ensures forall i :: 0 <= i < 7 ==> OneWordEntry(StreetTypes[i])
  {
  }

  lemma StreetTypesAreOneWord1()
    ensures forall i :: 7 <= i < 13 ==> OneWordEntry(StreetTypes[i])
  {
  }

  lemma StreetTypesAreOneWord2()
    ensures forall i :: 13 <= i < |StreetTypes| ==> OneWordEntry(StreetTypes[i])
  {
  }

  lemma DirectionsAreOneWord()
    ensures forall i :: 0 <= i < |Directions| ==> OneWordEntry(Directions[i])
  {
  }

  lemma OrdinalsAreOneWord()
    ensures forall i :: 0 <= i < |Ordinals| ==> OneWordEntry(Ordinals[i])
  {
    OrdinalsAreOneWord0();
    OrdinalsAreOneWord1();
  }

  lemma OrdinalsAreOneWord0()
    ensures forall i :: 0 <= i < 5 ==> OneWordEntry(Ordinals[i])
  {
  }

  lemma OrdinalsAreOneWord1()
    ensures forall i :: 5 <= i < |Ordinals| ==> OneWordEntry(Ordinals[i])
  {
  }

  lemma NamesAreGood()
    ensures GoodTable(Names)
  {
    MartinLutherKingIsGood();
    JohnFKennedyIsGood();
    assert Names[0] == ("mlk", "martin luther king") && Names[1] == ("jfk", "john f kennedy");
    TwoGoodEntries(Names);
  }

  lemma TwoGoodEntries(table: seq<(string, string)>)
    requires |table| == 2 && GoodEntry(table[0]) && GoodEntry(table[1])
    ensures GoodTable(table)
  {
  }

  lemma MartinLutherKingIsGood()
    ensures GoodEntry(("mlk", "martin luther king"))
  {
    NamesAreLowerText();
    WordsOfMartinLutherKing();
    MultiWordEntry("mlk", "martin luther king", ["martin", "luther", "king"]);
  }

  lemma JohnFKennedyIsGood()
    ensures GoodEntry(("jfk", "john f kennedy"))
  {
    NamesAreLowerText();
    WordsOfJohnFKennedy();
    MultiWordEntry("jfk", "john f kennedy", ["john", "f", "kennedy"]);
  }

  lemma NamesAreLowerText()
    ensures IsLowerText("martin luther king") && IsLowerText("john f kennedy")
    ensures ShortKey("mlk") && ShortKey("jfk")
  {
  }

  /** An entry whose expansion has the words `ws`. */
  lemma MultiWordEntry(k: string, e: string, ws: seq<string>)
    requires ShortKey(k) && IsLowerText(e) && Words(e) == ws
    requires forall i :: 0 <= i < |ws| ==> LongOrShort(ws[i])
    ensures GoodEntry((k, e))
  {
  }

  lemma TableIsGood()
    ensures GoodTable(Table)
  {
    StreetTypesAreOneWord();
    OneWordTable(StreetTypes);
    DirectionsAreOneWord();
    OneWordTable(Directions);
    assert OneWordEntry(Buildings[0]);
    OneWordTable(Buildings);
    NamesAreGood();
    OrdinalsAreOneWord();
    OneWordTable(Ordinals);
    GoodTableAppend(StreetTypes, Directions);
    GoodTableAppend(StreetTypes + Directions, Buildings);
    GoodTableAppend(StreetTypes + Directions + Buildings, Names);
    GoodTableAppend(StreetTypes + Directions + Buildings + Names, Ordinals);
  }

  lemma GoodTableHasWordKeys(table: seq<(string, string)>)
    requires GoodTable(table)
    ensures WordKeys(table)
  {
  }

  /** In a good table no expansion contains a key as a whole word: every key has
      at most four characters and is not one of `ShortWords`, every word of an
      expansion is longer or one of them. */
  lemma GoodTableIsClosed(table: seq<(string, string)>)
    requires GoodTable(table)
    ensures Closed(table)
  {
    forall i, j | 0 <= i < |table| && 0 <= j < |table| ensures table[j].0 !in Words(table[i].1) {
      assert ShortKey(table[j].0) && LongOrShortWords(table[i].1);
    }
  }

  lemma TableHasWordKeys()
    ensures WordKeys(Table)
  {
    TableIsGood();
    GoodTableHasWordKeys(Table);
  }

  /** Words separated by single spaces. */
  function JoinWords(ws: seq<string>): string
  {
    if ws == [] then "" else if |ws| == 1 then ws[0] else ws[0] + " " + JoinWords(ws[1..])
  }

  /** Replace each element equal to `key` by `full`. */
  function ReplaceEach(ws: seq<string>, key: string, full: string): (r: seq<string>)
    ensures |r| == |ws|
    ensures forall i :: 0 <= i < |ws| ==> r[i] == if ws[i] == key then full else ws[i]
  {
    if ws == [] then [] else [if ws[0] == key then full else ws[0]] + ReplaceEach(ws[1..], key, full)
  }

  lemma {:induction false} WordsOfJoinWords(ws: seq<string>)
    requires forall i :: 0 <= i < |ws| ==> IsWordKey(ws[i])
    ensures Words(JoinWords(ws)) == ws
  {
    if |ws| == 1 {
      WordsOfWord(ws[0]);
    } else if |ws| > 1 {
      WordsSpace(ws[0], JoinWords(ws[1..]));
      WordsOfJoinWords(ws[1..]);
    }
  }

  lemma {:induction false} ReplaceWordsOfJoinWords(ws: seq<string>, key: string, full: string)
    requires forall i :: 0 <= i < |ws| ==> IsWordKey(ws[i])
    ensures ReplaceWords(JoinWords(ws), key, full) == JoinWords(ReplaceEach(ws, key, full))
  {
    var r := ReplaceEach(ws, key, full);
    if |ws| == 1 {
      var w := ws[0];
      assert WordRun(w) == |w| && w[..|w|] == w && w[|w|..] == [];
    } else if |ws| > 1 {
      ReplaceWordsSpace(ws[0], JoinWords(ws[1..]), key, full);
      ReplaceWordsOfJoinWords(ws[1..], key, full);
      assert r[1..] == ReplaceEach(ws[1..], key, full);
    }
  }

  lemma WordsOfMartinLutherKing()
    ensures Words("martin luther king") == ["martin", "luther", "king"]
  {
    assert IsWordKey("martin") && IsWordKey("luther") && IsWordKey("king");
    assert "martin luther king" == JoinWords(["martin", "luther", "king"]);
    WordsOfJoinWords(["martin", "luther", "king"]);
  }

  lemma WordsOfJohnFKennedy()
    ensures Words("john f kennedy") == ["john", "f", "kennedy"]
  {
    assert IsWordKey("john") && IsWordKey("f") && IsWordKey("kennedy");
    assert "john f kennedy" == JoinWords(["john", "f", "kennedy"]);
    WordsOfJoinWords(["john", "f", "kennedy"]);
  }

  /** The table is closed: no expansion contains a key as a whole word. */
  lemma TableIsClosed()
    ensures Closed(Table)
  {
    TableIsGood();
    GoodTableIsClosed(Table);
  }

  /** `replace_abbreviations` is idempotent. */
  lemma ExpandIdempotent(t: string)
    ensures Expand(Expand(t, Table), Table) == Expand(t, Table)
  {
    TableHasWordKeys();
    TableIsClosed();
    ExpandIdempotentFor(t, Table);
  }
}
