/** The preprocessing of both directories: zip and postal codes are cut to their
    primary part, free-text fields are stripped of punctuation and lower-cased,
    addresses are expanded, and duplicate keys are counted. */
module Cleaning {
  import opened Chars
  import opened Abbreviations
  import opened Records

  // ---------------------------------------------------------------------------
  // Free-text fields.
  // ---------------------------------------------------------------------------

  /** The characters that the pattern `[^\w\s\']` does not match. */
  predicate IsKept(c: char) {
    IsWordChar(c) || IsSpace(c) || c == '\''
  }

  /** A cleaned field: only kept characters and no upper-case letter. */
  predicate IsNormal(s: string) {
    forall i :: 0 <= i < |s| ==> IsKept(s[i]) && !IsUpper(s[i])
  }

  /** `re.sub(r'[^\w\s\']', '', s)`: delete every character that is not kept. */
  function StripPunctuation(s: string): (r: string)
    ensures forall i :: 0 <= i < |r| ==> IsKept(r[i])
    ensures forall c :: IsKept(c) ==> multiset(r)[c] == multiset(s)[c]
    ensures forall c :: c in r ==> IsKept(c)
    ensures |r| <= |s|
  {
    if s == [] then []
    else
      assert s == [s[0]] + s[1..];
      (if IsKept(s[0]) then [s[0]] else []) + StripPunctuation(s[1..])
  }

  /** `str.lower`. */
  function Lower(s: string): (r: string)
    ensures |r| == |s|
    ensures forall i :: 0 <= i < |s| ==> !IsUpper(r[i])
    ensures forall i :: 0 <= i < |s| ==> (IsUpper(s[i]) ==> r[i] as int == s[i] as int + 32)
    ensures forall i :: 0 <= i < |s| ==> (!IsUpper(s[i]) ==> r[i] == s[i])
  {
    if s == [] then [] else [ToLower(s[0])] + Lower(s[1..])
  }

  /** `re.sub(punctuation, '', str(x)).lower()`, applied to name, address and city. */
  function Clean(s: string): (r: string)
    ensures IsNormal(r)
    ensures |r| <= |s|
  {
    var t := StripPunctuation(s);
    var r := Lower(t);
    assert forall i :: 0 <= i < |r| ==> IsKept(r[i]) by {
      forall i | 0 <= i < |r| ensures IsKept(r[i]) {
        assert IsKept(t[i]);
        assert IsWordChar(r[i]) == IsWordChar(t[i]) && IsSpace(r[i]) == IsSpace(t[i]);
      }
    }
    r
  }

  lemma {:induction false} StripKeepsKept(s: string)
    requires forall i :: 0 <= i < |s| ==> IsKept(s[i])
    ensures StripPunctuation(s) == s
  {
    if s != [] {
      StripKeepsKept(s[1..]);
    }
  }

  lemma {:induction false} LowerKeepsLower(s: string)
    requires forall i :: 0 <= i < |s| ==> !IsUpper(s[i])
    ensures Lower(s) == s
  {
  }

  /** A normal field is left unchanged by cleaning. */
  lemma CleanNormal(s: string)
    requires IsNormal(s)
    ensures Clean(s) == s
  {
    StripKeepsKept(s);
    LowerKeepsLower(s);
  }

  /** Cleaning is idempotent. */
  lemma CleanIdempotent(s: string)
    ensures Clean(Clean(s)) == Clean(s)
  {
    CleanNormal(Clean(s));
  }

  // ---------------------------------------------------------------------------
  // Addresses: cleaned, then expanded.
  // ---------------------------------------------------------------------------

  /** The address column: `replace_abbreviations` applied to the cleaned text. */
  function NormalizeAddress(s: string): (r: string)
    ensures IsNormal(r)
    ensures NoKeyIn(r, Table)
  {
    TableHasWordKeys();
    TableIsClosed();
    TableIsNormal();
    ExpandLeavesNoKey(Clean(s), Table);
    ExpandKeepsNormal(Clean(s), Table);
    Expand(Clean(s), Table)
  }

  /** An address that is already clean is only expanded. */
  lemma NormalizeCleanAddress(s: string)
    requires IsNormal(s)
    ensures NormalizeAddress(s) == Expand(s, Table)
  {
    CleanNormal(s);
  }

  lemma {:induction false} ReplaceWordsKeepsNormal(t: string, key: string, full: string)
    requires IsNormal(t) && IsNormal(full)
    ensures IsNormal(ReplaceWords(t, key, full))
    decreases |t|
  {
    if t != [] {
      var n := WordRun(t);
      if n == 0 {
        ReplaceWordsKeepsNormal(t[1..], key, full);
      } else {
        ReplaceWordsKeepsNormal(t[n..], key, full);
      }
    }
  }

  /** Every expansion of the table is normal. */
  predicate NormalExpansions(table: seq<(string, string)>) {
    forall i :: 0 <= i < |table| ==> IsNormal(table[i].1)
  }

  lemma LowerTextIsNormal(s: string)
    requires IsLowerText(s)
    ensures IsNormal(s)
  {
  }

  lemma TableIsNormal()
    ensures NormalExpansions(Table)
  {
    TableIsGood();
    forall i | 0 <= i < |Table| ensures IsNormal(Table[i].1) {
      assert GoodEntry(Table[i]);
      LowerTextIsNormal(Table[i].1);
    }
  }

  lemma {:induction false} ExpandKeepsNormal(t: string, table: seq<(string, string)>)
    requires WordKeys(table) && NormalExpansions(table) && IsNormal(t)
    ensures IsNormal(Expand(t, table))
    decreases |table|
  {
    if table != [] {
      var init := table[..|table| - 1];
      var (k, f) := table[|table| - 1];
      assert WordKeys(init) && NormalExpansions(init);
      ExpandKeepsNormal(t, init);
      ReSubIsWordReplacement(Expand(t, init), k, f);
      ReplaceWordsKeepsNormal(Expand(t, init), k, f);
    }
  }

  /** Normalizing an address twice gives the same address as normalizing it once. */
  lemma NormalizeAddressIdempotent(s: string)
    ensures NormalizeAddress(NormalizeAddress(s)) == NormalizeAddress(s)
  {
    var a := NormalizeAddress(s);
    CleanNormal(a);
    ExpandIdempotent(Clean(s));
  }

  // ---------------------------------------------------------------------------
  // Zip and postal codes.
  // ---------------------------------------------------------------------------

  /** `s.split(sep)[0]`: the part of `s` before the first `sep`. */
  function BeforeFirst(s: string, sep: char): (r: string)
    ensures r <= s
    ensures sep !in r
    ensures |r| < |s| ==> s[|r|] == sep
    ensures sep !in s ==> r == s
  {
    if s == [] || s[0] == sep then [] else [s[0]] + BeforeFirst(s[1..], sep)
  }

  /** The body of the zip-code loop: a zip range `primary-secondary` keeps its primary part. */
  function TruncateZip(zip: string): (r: string)
    ensures '-' !in r
    ensures r <= zip
    ensures '-' in zip ==> |r| < |zip| && zip[|r|] == '-'
    ensures '-' !in zip ==> r == zip
  {
    if '-' in zip then BeforeFirst(zip, '-') else zip
  }

  /** `postal_code.split('.')[0]`: a spurious fractional suffix is cut off. */
  function TruncatePostal(postal: string): (r: string)
    ensures '.' !in r
    ensures r <= postal
    ensures '.' in postal ==> |r| < |postal| && postal[|r|] == '.'
    ensures '.' !in postal ==> r == postal
  {
    BeforeFirst(postal, '.')
  }

  // ---------------------------------------------------------------------------
  // Duplicate keys.
  // ---------------------------------------------------------------------------

  /** `duplicated(subset=[key]).sum()`: the number of rows whose key already
      occurs in an earlier row. */
  function DuplicateCount<K(==)>(keys: seq<K>): nat
    decreases |keys|
  {
    if keys == [] then 0
    else
      var init := keys[..|keys| - 1];
      DuplicateCount(init) + (if keys[|keys| - 1] in init then 1 else 0)
  }

  function KeySet<K>(keys: seq<K>): set<K> {
    set k | k in keys
  }

  /** The duplicate count is the number of rows minus the number of distinct keys. */
  lemma {:induction false} DuplicateCountIsRowsMinusKeys<K>(keys: seq<K>)
    ensures |KeySet(keys)| <= |keys|
    ensures DuplicateCount(keys) == |keys| - |KeySet(keys)|
    decreases |keys|
  {
    if keys != [] {
      var init := keys[..|keys| - 1];
      var last := keys[|keys| - 1];
      DuplicateCountIsRowsMinusKeys(init);
      assert keys == init + [last];
      assert KeySet(keys) == KeySet(init) + {last};
      if last in init {
        assert KeySet(keys) == KeySet(init);
      } else {
        assert last !in KeySet(init);
      }
    }
  }

  function BusinessIds(rows: seq<LeftRow>): (ids: seq<string>)
    ensures |ids| == |rows| && forall i :: 0 <= i < |rows| ==> ids[i] == rows[i].businessId
  {
    seq(|rows|, i requires 0 <= i < |rows| => rows[i].businessId)
  }

  function EntityIds(rows: seq<RightRow>): (ids: seq<string>)
    ensures |ids| == |rows| && forall i :: 0 <= i < |rows| ==> ids[i] == rows[i].entityId
  {
    seq(|rows|, i requires 0 <= i < |rows| => rows[i].entityId)
  }

  // ---------------------------------------------------------------------------
  // Whole rows and whole tables.
  // ---------------------------------------------------------------------------

  /** A left row after the zip-code loop and the column maps of `left_preprocess`. */
  function CleanLeft(r: LeftRow): (c: LeftRow)
    ensures c.businessId == r.businessId && c.state == r.state
    ensures IsNormal(c.name) && IsNormal(c.address) && IsNormal(c.city)
    ensures NoKeyIn(c.address, Table)
    ensures c.name == Clean(r.name) && c.city == Clean(r.city)
    ensures c.address == NormalizeAddress(r.address)
    ensures c.zipCode == TruncateZip(r.zipCode)
    ensures '-' !in c.zipCode && c.zipCode <= r.zipCode
    ensures '-' !in r.zipCode ==> c.zipCode == r.zipCode
  {
    LeftRow(r.businessId, Clean(r.name), NormalizeAddress(r.address), Clean(r.city), r.state,
            TruncateZip(r.zipCode))
  }

  /** A right row after the column maps of `right_preprocess`. */
  function CleanRight(r: RightRow): (c: RightRow)
    ensures c.entityId == r.entityId && c.state == r.state
    ensures IsNormal(c.name) && IsNormal(c.address) && IsNormal(c.city)
    ensures NoKeyIn(c.address, Table)
    ensures c.name == Clean(r.name) && c.city == Clean(r.city)
    ensures c.address == NormalizeAddress(r.address)
    ensures c.postalCode == TruncatePostal(r.postalCode)
    ensures '.' !in c.postalCode && c.postalCode <= r.postalCode
    ensures '.' !in r.postalCode ==> c.postalCode == r.postalCode
  {
    RightRow(r.entityId, Clean(r.name), NormalizeAddress(r.address), Clean(r.city), r.state,
             TruncatePostal(r.postalCode))
  }

  /** The three column maps of `left_preprocess`. */
  function CleanFields(r: LeftRow): LeftRow {
    r.(name := Clean(r.name), address := NormalizeAddress(r.address), city := Clean(r.city))
  }

  /** A left row after the zip-code loop. */
  function ZipTruncated(r: LeftRow): LeftRow {
    r.(zipCode := TruncateZip(r.zipCode))
  }

  /** The loop and then the column maps clean a row. */
  lemma CleanLeftInTwoSteps(r: LeftRow)
    ensures CleanFields(ZipTruncated(r)) == CleanLeft(r)
  {
  }

  /** The zip-code loop of `left_preprocess`: each row in turn, in place, keeps
      only the part of its zip code before the first `-`. */
  method TruncateZipCodes(rows: array<LeftRow>)
    modifies rows
    ensures forall i :: 0 <= i < rows.Length ==> rows[i] == ZipTruncated(old(rows[i]))
  {
    for i := 0 to rows.Length
      invariant forall k :: 0 <= k < i ==> rows[k] == ZipTruncated(old(rows[k]))
      invariant forall k :: i <= k < rows.Length ==> rows[k] == old(rows[k])
    {
      TruncateZipAt(rows, i);
    }
  }

  /** One iteration of the zip-code loop: row `i` alone is updated. */
  method TruncateZipAt(rows: array<LeftRow>, i: int)
    requires 0 <= i < rows.Length
    modifies rows
    ensures rows[i] == ZipTruncated(old(rows[i]))
    ensures forall k :: 0 <= k < rows.Length && k != i ==> rows[k] == old(rows[k])
  {
    if '-' in rows[i].zipCode {
      rows[i] := rows[i].(zipCode := BeforeFirst(rows[i].zipCode, '-'));
    }
  }

  /** `left_preprocess`: every row is kept, in order, and cleaned; the returned
      count (printed by the source) is the number of duplicate business ids. */
  method LeftPreprocess(raw: seq<LeftRow>) returns (table: seq<LeftRow>, duplicates: nat)
    ensures |table| == |raw|
    ensures forall i :: 0 <= i < |raw| ==> table[i] == CleanLeft(raw[i])
    ensures BusinessIds(table) == BusinessIds(raw)
    ensures duplicates == |raw| - |KeySet(BusinessIds(raw))|
  {
    var rows := new LeftRow[|raw|](i requires 0 <= i < |raw| => raw[i]);
    TruncateZipCodes(rows);
    var zipped := rows[..];
    assert forall i :: 0 <= i < |raw| ==> zipped[i] == ZipTruncated(raw[i]);
    table := seq(|zipped|, i requires 0 <= i < |zipped| => CleanFields(zipped[i]));
    forall i | 0 <= i < |raw| ensures table[i] == CleanLeft(raw[i]) {
      CleanLeftInTwoSteps(raw[i]);
    }
    SameBusinessIds(table, raw);
    duplicates := DuplicateCount(BusinessIds(table));
    DuplicateCountIsRowsMinusKeys(BusinessIds(raw));
  }

  lemma SameBusinessIds(table: seq<LeftRow>, raw: seq<LeftRow>)
    requires |table| == |raw|
    requires forall i :: 0 <= i < |raw| ==> table[i] == CleanLeft(raw[i])
    ensures BusinessIds(table) == BusinessIds(raw)
  {
    assert forall i :: 0 <= i < |raw| ==> table[i].businessId == raw[i].businessId;
  }

  /** `right_preprocess`: every row is kept, in order, and cleaned; the second
      component (printed by the source) is the number of duplicate entity ids. */
  function RightPreprocess(raw: seq<RightRow>): (out: (seq<RightRow>, nat))
    ensures |out.0| == |raw|
    ensures forall i :: 0 <= i < |raw| ==> out.0[i] == CleanRight(raw[i])
    ensures EntityIds(out.0) == EntityIds(raw)
    ensures out.1 == |raw| - |KeySet(EntityIds(raw))|
  {
    var table := seq(|raw|, i requires 0 <= i < |raw| => CleanRight(raw[i]));
    assert EntityIds(table) == EntityIds(raw);
    DuplicateCountIsRowsMinusKeys(EntityIds(raw));
    (table, DuplicateCount(EntityIds(table)))
  }
}
