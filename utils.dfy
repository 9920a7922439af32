/** The string helpers of `utils/utils.py`: the number recognisers, `filter_json`, the
    key listings over `PRAGMA` rows, the skeleton similarity, and the helpers nested in
    `sql_normalization` (quote-aware lowering, semicolon and quote fixes, tokenising). */
module Utils {
  import opened Wrappers
  import opened Text
  import opened Equivalence

  // ---------------------------------------------------------------------------
  // Number recognisers

  /** `isNegativeInt(string)`: a minus sign followed by digits. */
  predicate IsNegativeInt(s: string) {
    StartsWith(s, "-") && IsDigits(s[1..])
  }

  /** What `isFloat` looks at: the string without one leading minus sign. */
  function Unsigned(s: string): (t: string)
    ensures StartsWith(s, "-") ==> t == s[1..]
    ensures !StartsWith(s, "-") ==> t == s
  {
    if StartsWith(s, "-") then s[1..] else s
  }

  /** `isFloat(string)`: at most two dot-separated pieces, each a run of digits. */
  predicate IsFloat(s: string) {
    DigitPieces(Unsigned(s))
  }

  /** `t.split(".")` has at most two pieces and each is a run of digits. */
  predicate DigitPieces(t: string) {
    var parts := SplitOn(t, '.');
    |parts| <= 2 && forall k :: 0 <= k < |parts| ==> IsDigits(parts[k])
  }

  /** The accepted shapes, written out: digits, or digits, one dot, digits. */
  predicate FloatShape(t: string) {
    IsDigits(t) || exists i :: 0 < i < |t| - 1 && t[i] == '.' && IsDigits(t[..i]) && IsDigits(t[i + 1..])
  }

  lemma DigitsNoDot(t: string)
    requires IsDigits(t)
    ensures '.' !in t
  {
    assert forall i :: 0 <= i < |t| ==> t[i] != '.';
  }

  /** A dot with none before it is the first dot. */
  lemma FirstDot(t: string, i: nat)
    requires i < |t| && t[i] == '.' && '.' !in t[..i]
    ensures '.' in t && i == IndexOfChar(t, '.')
  {
    var i0 := IndexOfChar(t, '.');
    assert forall k :: 0 <= k < i ==> t[..i][k] == t[k];
    assert forall k :: 0 <= k < i0 ==> t[..i0][k] == t[k];
  }

  /** Splitting on the only dot gives the two sides. */
  lemma SplitOneDot(t: string, i: nat)
    requires i < |t| && t[i] == '.' && '.' !in t[..i] && '.' !in t[i + 1..]
    ensures SplitOn(t, '.') == [t[..i], t[i + 1..]]
  {
    FirstDot(t, i);
  }

  /** Without a dot, the digit pieces are the digit strings. */
  lemma PiecesNoDot(t: string)
    requires '.' !in t
    ensures DigitPieces(t) <==> FloatShape(t)
  {
    var parts := SplitOn(t, '.');
    assert parts == [t] && parts[0] == t && |parts| == 1;
    assert DigitPieces(t) <==> IsDigits(t);
    assert forall i :: 0 <= i < |t| ==> t[i] != '.';
  }

  /** With exactly one dot, both sides must be digit runs. */
  lemma PiecesOneDot(t: string, i0: nat)
    requires i0 < |t| && t[i0] == '.' && '.' !in t[..i0] && '.' !in t[i0 + 1..]
    ensures DigitPieces(t) <==> FloatShape(t)
  {
    SplitOneDot(t, i0);
    var parts := SplitOn(t, '.');
    assert parts[0] == t[..i0] && parts[1] == t[i0 + 1..];
    assert !IsDigits(t) by {
      assert t[i0] == '.';
    }
    if FloatShape(t) {
      var i :| 0 < i < |t| - 1 && t[i] == '.' && IsDigits(t[..i]) && IsDigits(t[i + 1..]);
      DigitsNoDot(t[..i]);
      FirstDot(t, i);
      FirstDot(t, i0);
    }
  }

  /** With two dots or more, neither side accepts. */
  lemma PiecesTwoDots(t: string, i0: nat)
    requires i0 < |t| && t[i0] == '.' && '.' !in t[..i0] && '.' in t[i0 + 1..]
    ensures !DigitPieces(t) && !FloatShape(t)
  {
    FirstDot(t, i0);
    var rest := t[i0 + 1..];
    assert |SplitOn(rest, '.')| >= 2;
    assert !IsDigits(t) by {
      assert t[i0] == '.';
    }
    var j :| 0 <= j < |rest| && rest[j] == '.';
    forall i | 0 < i < |t| - 1 && t[i] == '.' && IsDigits(t[..i])
      ensures !IsDigits(t[i + 1..])
    {
      DigitsNoDot(t[..i]);
      FirstDot(t, i);
      assert t[i + 1..][j] == '.';
    }
  }

  /** `isFloat` accepts exactly an optional minus sign followed by one or two
      non-empty digit runs joined by a dot. */
  lemma IsFloatShape(s: string)
    ensures IsFloat(s) <==> FloatShape(Unsigned(s))
  {
    var t := Unsigned(s);
    if '.' !in t {
      PiecesNoDot(t);
    } else {
      var i0 := IndexOfChar(t, '.');
      if '.' in t[i0 + 1..] {
        PiecesTwoDots(t, i0);
      } else {
        PiecesOneDot(t, i0);
      }
    }
  }

  /** Every negative integer is also accepted as a float. */
  lemma NegativeIntIsFloat(s: string)
    requires IsNegativeInt(s)
    ensures IsFloat(s)
  {
    IsFloatShape(s);
  }

  /** `isFloat` turns down a dangling dot. */
  lemma FloatRejectsTrailingDot()
    ensures !IsFloat("1.")
  {
    PiecesOneDot("1.", 1);
  }

  /** `isFloat` turns down a missing integer part. */
  lemma FloatRejectsLeadingDot()
    ensures !IsFloat(".5")
  {
    PiecesOneDot(".5", 0);
  }

  /** `isFloat` turns down a second dot. */
  lemma FloatRejectsTwoDots()
    ensures !IsFloat("1.2.3")
  {
    assert "1.2.3"[2..] == "2.3";
    PiecesTwoDots("1.2.3", 1);
  }

  /** `isFloat` takes a signed decimal. */
  lemma FloatAcceptsSigned()
    ensures IsFloat("-1.5")
  {
    assert Unsigned("-1.5") == "1.5";
    assert "1.5"[..1] == "1" && "1.5"[2..] == "5";
    PiecesOneDot("1.5", 1);
  }

  // ---------------------------------------------------------------------------
  // filter_json

  /** `filter_json(raw_response)`: from the first `{` to the last `}` inclusive; `None`
      stands for the `ValueError` raised when a brace is missing or they are out of
      order. */
  function FilterJson(raw: string): (r: Option<string>)
    ensures r.Some? ==> |r.value| >= 2 && r.value[0] == '{' && r.value[|r.value| - 1] == '}'
  {
    if '{' !in raw || '}' !in raw then None
    else
      var s := IndexOfChar(raw, '{');
      var e := LastIndexOfChar(raw, '}');
      if s > e then None else Some(raw[s..e + 1])
  }

  /** Some `{` comes before some `}`. */
  predicate BracePair(raw: string) {
    exists i, j :: 0 <= i < j < |raw| && raw[i] == '{' && raw[j] == '}'
  }

  /** `filter_json` succeeds exactly when some `{` precedes some `}`, and then returns
      the infix that starts at a `{` with none before it and ends at a `}` with none
      after it. */
  lemma FilterJsonSpec(raw: string)
    ensures FilterJson(raw).Some? <==> BracePair(raw)
    ensures FilterJson(raw).Some? ==>
      var r := FilterJson(raw).value;
      exists i: nat :: At(raw, i, r) && '{' !in raw[..i] && '}' !in raw[i + |r|..]
  {
    if BracePair(raw) {
      var i, j :| 0 <= i < j < |raw| && raw[i] == '{' && raw[j] == '}';
      assert '{' in raw && '}' in raw;
      var s := IndexOfChar(raw, '{');
      var e := LastIndexOfChar(raw, '}');
      assert forall k :: 0 <= k < s ==> raw[..s][k] == raw[k];
      assert forall k :: e < k < |raw| ==> raw[e + 1..][k - e - 1] == raw[k];
    }
    if FilterJson(raw).Some? {
      var s := IndexOfChar(raw, '{');
      var e := LastIndexOfChar(raw, '}');
      var r := FilterJson(raw).value;
      assert raw[s] == '{' && raw[e] == '}' && s < e;
      assert At(raw, s, r);
      assert raw[s + |r|..] == raw[e + 1..];
    }
  }

  // ---------------------------------------------------------------------------
  // Primary and foreign keys over given PRAGMA rows

  /** A `PRAGMA table_info` row: field 1 is the column name, field 5 the primary-key
      position (0 when the column is not part of the key). */
  datatype TableInfoRow = TableInfoRow(cid: int, name: string, colType: string, notNull: int, pk: int)

  /** A `PRAGMA foreign_key_list` row: fields 2, 3, 4 are the referenced table, the
      local column and the referenced column. */
  datatype ForeignKeyRow = ForeignKeyRow(id: int, seqNo: int, table: string, from: string, to: string)

  /** The names of the rows whose field 5 equals 1, in row order. */
  function PkNames(rows: seq<TableInfoRow>): seq<string> {
    if rows == [] then []
    else PkNames(rows[..|rows| - 1]) + (if rows[|rows| - 1].pk == 1 then [rows[|rows| - 1].name] else [])
  }

  /** `get_primary_key` over the rows its query returned. */
  method GetPrimaryKey(rows: seq<TableInfoRow>) returns (pks: seq<string>)
    ensures pks == PkNames(rows)
  {
    pks := [];
    for i := 0 to |rows|
      invariant pks == PkNames(rows[..i])
    {
      assert rows[..i + 1][..i] == rows[..i];
      if rows[i].pk == 1 {
        pks := pks + [rows[i].name];
      }
    }
    assert rows[..|rows|] == rows;
  }

  /** A name is listed exactly when some row carries it with field 5 equal to 1; a
      column that is the second part of a composite key (field 5 is 2) is not. */
  lemma {:induction false} PkNamesMembers(rows: seq<TableInfoRow>, x: string)
    ensures x in PkNames(rows) <==> exists i :: 0 <= i < |rows| && rows[i].pk == 1 && rows[i].name == x
    decreases |rows|
  {
    if rows != [] {
      var init := rows[..|rows| - 1];
      PkNamesMembers(init, x);
      if exists i :: 0 <= i < |init| && init[i].pk == 1 && init[i].name == x {
        var i :| 0 <= i < |init| && init[i].pk == 1 && init[i].name == x;
        assert rows[i] == init[i];
      }
      if exists i :: 0 <= i < |rows| && rows[i].pk == 1 && rows[i].name == x {
        var i :| 0 <= i < |rows| && rows[i].pk == 1 && rows[i].name == x;
        if i < |init| {
          assert init[i] == rows[i];
        }
      }
    }
  }

  /** One `(table_name.source, table.to)` entry. */
  function ForeignKeyText(tableName: string, row: ForeignKeyRow): string {
    "(" + tableName + "." + row.from + ", " + row.table + "." + row.to + ")"
  }

  /** `format_foreign_key(table_name, res)` */
  method FormatForeignKey(tableName: string, rows: seq<ForeignKeyRow>) returns (res: seq<string>)
    ensures |res| == |rows|
    ensures forall i :: 0 <= i < |rows| ==> res[i] == ForeignKeyText(tableName, rows[i])
  {
    res := [];
    for i := 0 to |rows|
      invariant |res| == i
      invariant forall j :: 0 <= j < i ==> res[j] == ForeignKeyText(tableName, rows[j])
    {
      res := res + [ForeignKeyText(tableName, rows[i])];
    }
  }

  /** Each entry names the source table first and is wrapped in parentheses. */
  lemma ForeignKeyTextShape(tableName: string, row: ForeignKeyRow)
    ensures var t := ForeignKeyText(tableName, row);
      StartsWith(t, "(" + tableName + ".") && t[|t| - 1] == ')'
  {
    var t := ForeignKeyText(tableName, row);
    assert t == ("(" + tableName + ".") + (row.from + ", " + row.table + "." + row.to + ")");
  }

  // ---------------------------------------------------------------------------
  // jaccard_similarity

  /** `skeleton.strip().split(" ")` */
  function SkeletonTokens(skeleton: string): (ts: seq<string>)
    ensures |ts| >= 1
  {
    SplitOn(Strip(skeleton), ' ')
  }

  /** Every index is below `n`. */
  predicate InRange(ids: seq<nat>, n: nat) {
    forall k | 0 <= k < |ids| :: ids[k] < n
  }

  predicate Increasing(ids: seq<nat>) {
    forall k, l | 0 <= k < l < |ids| :: ids[k] < ids[l]
  }

  predicate Distinct<T(==)>(xs: seq<T>) {
    forall i, j :: 0 <= i < j < |xs| ==> xs[i] != xs[j]
  }

  function Min(a: nat, b: nat): nat {
    if a <= b then a else b
  }

  /** Sum over the keys `ks` of the smaller of the two multiplicities. */
  function MinSum(ks: seq<string>, a: multiset<string>, b: multiset<string>): nat
    decreases |ks|
  {
    if ks == [] then 0 else MinSum(ks[..|ks| - 1], a, b) + Min(a[ks[|ks| - 1]], b[ks[|ks| - 1]])
  }

  /** `list_to_dict(tokens)`: the count of every token, and the dictionary's keys in
      insertion order (first occurrences). */
  method ListToDict(tokens: seq<string>) returns (d: map<string, int>, keys: seq<string>)
    ensures forall t :: Count(d, t) == multiset(tokens)[t]
    ensures Distinct(keys) && forall t :: t in keys <==> t in tokens
  {
    d := map[];
    keys := [];
    for i := 0 to |tokens|
      invariant forall t :: Count(d, t) == multiset(tokens[..i])[t]
      invariant Distinct(keys) && forall t :: t in keys <==> t in tokens[..i]
    {
      var t := tokens[i];
      assert tokens[..i + 1] == tokens[..i] + [t];
      if t !in keys {
        keys := keys + [t];
      }
      CountUpStep(d, tokens, i);
      d := Bump(d, t, 1);
    }
    assert tokens[..|tokens|] == tokens;
  }

  /** `jaccard_similarity(skeleton1, skeleton2)` as the pair (intersection, union) whose
      quotient the source returns: the intersection is the size of the common sub-bag
      of the two token bags. */
  method JaccardSimilarity(skeleton1: string, skeleton2: string) returns (inter: nat, union: nat)
    ensures var t1, t2 := SkeletonTokens(skeleton1), SkeletonTokens(skeleton2);
      inter == |multiset(t1) * multiset(t2)| && union == |t1| + |t2| - inter
  {
    var tokens1 := SkeletonTokens(skeleton1);
    var tokens2 := SkeletonTokens(skeleton2);
    var d1, keys1 := ListToDict(tokens1);
    var d2, keys2 := ListToDict(tokens2);
    ghost var m1, m2 := multiset(tokens1), multiset(tokens2);
    inter := SumCommon(keys1, d1, d2, m1, m2);
    MinSumIsIntersection(keys1, m1, m2);
    CommonBounded(m1, m2);
    union := |tokens1| + |tokens2| - inter;
  }

  /** The intersection loop: for each key of the first dictionary that the second one
      also holds, add the smaller count. */
  method SumCommon(keys1: seq<string>, d1: map<string, int>, d2: map<string, int>,
                   ghost m1: multiset<string>, ghost m2: multiset<string>) returns (inter: nat)
    requires forall t :: Count(d1, t) == m1[t] && Count(d2, t) == m2[t]
    ensures inter == MinSum(keys1, m1, m2)
  {
    inter := 0;
    for k := 0 to |keys1|
      invariant inter == MinSum(keys1[..k], m1, m2)
    {
      var t := keys1[k];
      assert keys1[..k + 1][..k] == keys1[..k];
      assert Count(d1, t) == m1[t] && Count(d2, t) == m2[t];
      if t in d2 {
        inter := inter + Min(Count(d1, t), d2[t]);
      }
    }
    assert keys1[..|keys1|] == keys1;
  }

  /** Summing the smaller multiplicity over every key of `a` gives the size of the
      common sub-bag. */
  lemma {:induction false} MinSumIsIntersection(ks: seq<string>, a: multiset<string>, b: multiset<string>)
    requires Distinct(ks) && forall x :: a[x] > 0 ==> x in ks
    ensures MinSum(ks, a, b) == |a * b|
    decreases |ks|
  {
    if ks == [] {
      assert a == multiset{};
    } else {
      var k := ks[|ks| - 1];
      var init := ks[..|ks| - 1];
      var a0 := a[k := 0];
      forall x | a0[x] > 0 ensures x in init {
        assert x in ks && x != k;
      }
      assert Distinct(init);
      MinSumIsIntersection(init, a0, b);
      MinSumAgree(init, a, a0, b);
      assert a * b == (a0 * b)[k := Min(a[k], b[k])];
    }
  }

  /** `MinSum` only looks at the listed keys. */
  lemma {:induction false} MinSumAgree(ks: seq<string>, a: multiset<string>, a0: multiset<string>, b: multiset<string>)
    requires forall i :: 0 <= i < |ks| ==> a[ks[i]] == a0[ks[i]]
    ensures MinSum(ks, a, b) == MinSum(ks, a0, b)
    decreases |ks|
  {
    if ks != [] {
      MinSumAgree(ks[..|ks| - 1], a, a0, b);
    }
  }

  /** The common sub-bag is no larger than either bag. */
  lemma CommonBounded(a: multiset<string>, b: multiset<string>)
    ensures |a * b| <= |a| && |a * b| <= |b|
  {
    assert a == (a * b) + (a - a * b);
    assert b == (a * b) + (b - a * b);
  }

  /** The union is at least 1 and the intersection never exceeds it, so the
      similarity lies between 0 and 1; both numbers are symmetric in the two skeletons. */
  lemma JaccardRange(t1: seq<string>, t2: seq<string>)
    requires |t1| >= 1 && |t2| >= 1
    ensures var inter := |multiset(t1) * multiset(t2)|;
      1 <= |t1| + |t2| - inter && inter <= |t1| + |t2| - inter
    ensures multiset(t1) * multiset(t2) == multiset(t2) * multiset(t1)
  {
    CommonBounded(multiset(t1), multiset(t2));
  }

  /** The similarity is 1 exactly when the two token bags are equal. */
  lemma JaccardOne(t1: seq<string>, t2: seq<string>)
    ensures var inter := |multiset(t1) * multiset(t2)|;
      inter == |t1| + |t2| - inter <==> multiset(t1) == multiset(t2)
  {
    var a, b := multiset(t1), multiset(t2);
    CommonBounded(a, b);
    if |a * b| == |t1| + |t2| - |a * b| {
      assert |a * b| == |a| && |a * b| == |b|;
      SubBagSameSize(a * b, a);
      SubBagSameSize(a * b, b);
    }
    if a == b {
      assert a * b == a;
    }
  }

  // ---------------------------------------------------------------------------
  // Helpers nested in sql_normalization

  /** An odd number of single quotes precede position `i`: it lies inside a quoted
      span (the opening quote counts as outside, the closing one as inside). */
  predicate InQuote(s: string, i: nat)
    requires i <= |s|
  {
    multiset(s[..i])['\''] % 2 == 1
  }

  /** What `lower(s)` should produce: each character lowered unless it is inside a
      single-quoted span. */
  function Lowered(s: string): (r: string)
    ensures |r| == |s|
  {
    seq(|s|, i requires 0 <= i < |s| => if InQuote(s, i) then s[i] else LowerChar(s[i]))
  }

  /** `lower(s)`: walk the characters, lowering outside quotes and toggling the quote
      flag at every `'`. */
  method Lower(s: string) returns (out: string)
    ensures out == Lowered(s)
  {
    var inQuotation := false;
    out := "";
    for i := 0 to |s|
      invariant out == Lowered(s)[..i]
      invariant inQuotation <==> InQuote(s, i)
    {
      var c := s[i];
      LoweredSnoc(s, i);
      if inQuotation {
        out := out + [c];
      } else {
        out := out + [LowerChar(c)];
      }
      InQuoteStep(s, i);
      if c == '\'' {
        inQuotation := !inQuotation;
      }
    }
  }

  /** A quote toggles the flag; any other character keeps it. */
  lemma InQuoteStep(s: string, i: nat)
    requires i < |s|
    ensures InQuote(s, i + 1) <==> (InQuote(s, i) != (s[i] == '\''))
  {
    MultisetSnoc(s, i);
  }

  /** The expected output grows by one character per step of the walk. */
  lemma LoweredSnoc(s: string, i: nat)
    requires i < |s|
    ensures Lowered(s)[..i + 1]
         == Lowered(s)[..i] + [if InQuote(s, i) then s[i] else LowerChar(s[i])]
  {
    assert Lowered(s)[..i + 1] == Lowered(s)[..i] + [Lowered(s)[i]];
  }

  /** Two strings with quotes at the same positions have as many quotes in each prefix. */
  lemma {:induction false} SameQuotes(s: string, r: string, i: nat)
    requires |r| == |s| && i <= |s|
    requires forall j | 0 <= j < |s| :: (r[j] == '\'') == (s[j] == '\'')
    ensures multiset(r[..i])['\''] == multiset(s[..i])['\'']
    decreases i
  {
    if i > 0 {
      SameQuotes(s, r, i - 1);
      MultisetSnoc(s, i - 1);
      MultisetSnoc(r, i - 1);
    }
  }

  /** Lowering never creates or removes a quote, so quoted spans stay where they were. */
  lemma LoweredQuotes(s: string, i: nat)
    requires i <= |s|
    ensures multiset(Lowered(s)[..i])['\''] == multiset(s[..i])['\'']
  {
    var r := Lowered(s);
    forall j | 0 <= j < |s| ensures (r[j] == '\'') == (s[j] == '\'') {
      assert r[j] == s[j] || r[j] == LowerChar(s[j]);
    }
    SameQuotes(s, r, i);
  }

  /** Lowering twice is lowering once, and text inside quotes is never touched. */
  lemma LoweredIdempotent(s: string)
    ensures Lowered(Lowered(s)) == Lowered(s)
    ensures forall i :: 0 <= i < |s| && InQuote(s, i) ==> Lowered(s)[i] == s[i]
  {
    var r := Lowered(s);
    forall i | 0 <= i < |s| ensures Lowered(r)[i] == r[i] {
      LoweredQuotes(s, i);
    }
  }

  /** `remove_semicolon(s)`: drop one trailing `;`. */
  function RemoveSemicolon(s: string): (r: string)
    ensures |s| - 1 <= |r| <= |s| && r == s[..|r|]
    ensures EndsWith(s, ";") <==> |r| < |s|
  {
    if EndsWith(s, ";") then s[..|s| - 1] else s
  }

  /** Only one semicolon goes: appending one and removing it is the identity. */
  lemma RemoveSemicolonInverse(s: string)
    ensures RemoveSemicolon(s + ";") == s
    ensures RemoveSemicolon(s + ";;") == s + ";"
  {
    assert (s + ";")[..|s|] == s;
    assert (s + ";;")[..|s| + 1] == s + ";";
  }

  /** `double2single(s)`: every double quote becomes a single quote. */
  function Double2Single(s: string): (r: string)
    ensures |r| == |s| && '"' !in r
    ensures forall i :: 0 <= i < |s| && s[i] != '"' ==> r[i] == s[i]
  {
    ReplaceChar(s, '"', '\'')
  }

  /** A string is left unchanged exactly when it holds no double quote, so the fix is
      idempotent. */
  lemma Double2SingleFixed(s: string)
    ensures Double2Single(s) == s <==> '"' !in s
    ensures Double2Single(Double2Single(s)) == Double2Single(s)
  {
    if '"' in s {
      var i :| 0 <= i < |s| && s[i] == '"';
      assert Double2Single(s)[i] != s[i];
    }
  }

  // sql_split

  /** Replacing a pattern by something shorter never lengthens the string, and
      shortens it when the pattern occurs. */
  lemma {:induction false} ReplaceShrinks(s: string, pat: string, rep: string)
    requires |pat| > 0 && |rep| < |pat|
    ensures |ReplaceAll(s, pat, rep)| <= |s|
    ensures Contains(s, pat) ==> |ReplaceAll(s, pat, rep)| < |s|
    decreases |s|
  {
    if |s| >= |pat| {
      if s[..|pat|] == pat {
        ReplaceShrinks(s[|pat|..], pat, rep);
      } else {
        ReplaceShrinks(s[1..], pat, rep);
        if Contains(s, pat) {
          var i: nat :| i <= |s| && At(s, i, pat);
          assert i > 0;
          assert At(s[1..], i - 1, pat) by {
            assert s[1..][i - 1..i - 1 + |pat|] == s[i..i + |pat|];
          }
        }
      }
    }
  }

  /** `while "  " in s: s = s.replace("  ", " ")` */
  function Squeeze(s: string): (r: string)
    ensures !Contains(r, "  ")
    decreases |s|
  {
    if Contains(s, "  ") then
      ReplaceShrinks(s, "  ", " ");
      Squeeze(ReplaceAll(s, "  ", " "))
    else s
  }

  /** Characters before the next `c`. */
  function UntilChar(s: string, c: char): (n: nat)
    ensures n <= |s|
  {
    if s == [] || s[0] == c then 0 else 1 + UntilChar(s[1..], c)
  }

  /** Spaces at the front. */
  function LeadingSpaces(s: string): (n: nat)
    ensures n <= |s|
  {
    if s != [] && s[0] == ' ' then 1 + LeadingSpaces(s[1..]) else 0
  }

  /** The length of the quoted token at the front of `s`: the opening quote, the text up
      to the next quote, and that quote when there is one. */
  function QuotedLen(s: string): (n: nat)
    requires s != [] && s[0] == '\''
    ensures 1 <= n <= |s|
  {
    var b := UntilChar(s[1..], '\'');
    if 1 + b < |s| then b + 2 else b + 1
  }

  /** How much of `s` the next round of the token loop consumes: a quoted token, or a
      word and the spaces after it. */
  function TokenEnd(s: string): (k: nat)
    requires s != []
    ensures 0 < k <= |s|
  {
    if s[0] == '\'' then QuotedLen(s)
    else
      var w := UntilChar(s, ' ');
      assert w > 0 || s[0] == ' ';
      w + LeadingSpaces(s[w..])
  }

  /** The token that round appends: the quoted text with its quotes, or the word. */
  function TokenText(s: string): string
    requires s != []
  {
    if s[0] == '\'' then s[..QuotedLen(s)] else s[..UntilChar(s, ' ')]
  }

  /** The token loop of `sql_split`, over the squeezed and stripped string: a token
      starting at a quote runs to the closing quote; any other token runs to the next
      space, and the spaces after it are skipped. */
  function Tokenize(s: string): seq<string>
    decreases |s|
  {
    if s == [] then [] else [TokenText(s)] + Tokenize(s[TokenEnd(s)..])
  }

  /** `sql_split(s)` */
  method SqlSplit(s0: string) returns (toks: seq<string>)
    ensures toks == Tokenize(Strip(Squeeze(s0)))
  {
    var s := SqueezeSpaces(s0);
    s := Strip(s);
    toks := TokenLoop(s);
  }

  /** The token loop proper, from the first character to the last. */
  method TokenLoop(s: string) returns (toks: seq<string>)
    ensures toks == Tokenize(s)
  {
    var i := 0;
    toks := [];
    while i < |s|
      invariant i <= |s|
      invariant toks + Tokenize(s[i..]) == Tokenize(s)
      decreases |s| - i
    {
      var tok: string;
      var j: nat;
      if s[i] == '\'' {
        tok, j := ScanQuoted(s, i);
        QuotedParts(s, i, j);
      } else {
        tok, j := ScanWord(s, i);
        WordParts(s, i, j);
      }
      TokenizeAt(s, i, j, tok);
      AppendStep(toks, tok, Tokenize(s[i..]), Tokenize(s[j..]), Tokenize(s));
      toks := toks + [tok];
      i := j;
    }
  }

  /** Moving the next token from the pending part to the collected part. */
  lemma AppendStep<T>(done: seq<T>, x: T, pending: seq<T>, rest: seq<T>, whole: seq<T>)
    requires done + pending == whole && pending == [x] + rest
    ensures (done + [x]) + rest == whole
  {
    assert (done + [x]) + rest == done + ([x] + rest);
  }

  /** The collapsing loop at the head of `sql_split`. */
  method SqueezeSpaces(s0: string) returns (s: string)
    ensures s == Squeeze(s0)
  {
    s := s0;
    while Contains(s, "  ")
      invariant Squeeze(s) == Squeeze(s0)
      decreases |s|
    {
      ReplaceShrinks(s, "  ", " ");
      s := ReplaceAll(s, "  ", " ");
    }
  }

  /** A round that consumes `s[i..j]` and appends `tok` turns the pending tokens at `i`
      into `tok` followed by the pending tokens at `j`. */
  lemma TokenizeAt(s: string, i: nat, j: nat, tok: string)
    requires i < |s| && TokenEnd(s[i..]) == j - i && TokenText(s[i..]) == tok
    ensures Tokenize(s[i..]) == [tok] + Tokenize(s[j..])
  {
    assert s[i..][j - i..] == s[j..];
  }

  /** Where the quoted token at `i` ends and what it is. */
  lemma QuotedParts(s: string, i: nat, j: nat)
    requires i < |s| && s[i] == '\'' && i < j <= |s| && j - i == QuotedLen(s[i..])
    ensures TokenEnd(s[i..]) == j - i && TokenText(s[i..]) == s[i..j]
  {
    assert s[i..][0] == s[i];
  }

  /** Where the word at `i` ends and what it is. */
  lemma WordParts(s: string, i: nat, j: nat)
    requires i < |s| && s[i] != '\''
    requires var w := UntilChar(s[i..], ' '); j == i + w + LeadingSpaces(s[i + w..])
    ensures TokenEnd(s[i..]) == j - i && TokenText(s[i..]) == s[i..i + UntilChar(s[i..], ' ')]
  {
    var t := s[i..];
    var w := UntilChar(t, ' ');
    assert t[0] == s[i];
    assert t[w..] == s[i + w..];
  }

  /** The quoted branch of the token loop: copy the opening quote, everything up to
      the next quote, and that quote if present. */
  method ScanQuoted(s: string, i0: nat) returns (tok: string, i: nat)
    requires i0 < |s| && s[i0] == '\''
    ensures i0 < i <= |s| && tok == s[i0..i] && i - i0 == QuotedLen(s[i0..])
  {
    tok := [s[i0]];
    i := i0 + 1;
    while i < |s| && s[i] != '\''
      invariant i0 < i <= |s| && tok == s[i0..i]
      invariant UntilChar(s[i0 + 1..], '\'') == (i - i0 - 1) + UntilChar(s[i..], '\'')
      decreases |s| - i
    {
      assert s[i..][1..] == s[i + 1..];
      tok := tok + [s[i]];
      i := i + 1;
    }
    if i < |s| {
      tok := tok + [s[i]];
      i := i + 1;
    }
    assert s[i0..][1..] == s[i0 + 1..];
  }

  /** The unquoted branch of the token loop: copy up to the next space, then skip the
      spaces. */
  method ScanWord(s: string, i0: nat) returns (tok: string, i: nat)
    requires i0 < |s| && s[i0] != '\''
    ensures i0 < i <= |s|
    ensures var w := UntilChar(s[i0..], ' ');
      tok == s[i0..i0 + w] && i == i0 + w + LeadingSpaces(s[i0 + w..])
  {
    tok, i := CopyUntilSpace(s, i0);
    ghost var e := i;
    i := SkipSpaces(s, i);
    assert i > i0 by {
      if e == i0 {
        assert s[i0..][0] == ' ';
      }
    }
  }

  method CopyUntilSpace(s: string, i0: nat) returns (tok: string, i: nat)
    requires i0 <= |s|
    ensures i == i0 + UntilChar(s[i0..], ' ') && tok == s[i0..i]
  {
    tok := "";
    i := i0;
    while i < |s| && s[i] != ' '
      invariant i0 <= i <= |s| && tok == s[i0..i]
      invariant UntilChar(s[i0..], ' ') == (i - i0) + UntilChar(s[i..], ' ')
      decreases |s| - i
    {
      assert s[i..][1..] == s[i + 1..];
      tok := tok + [s[i]];
      i := i + 1;
    }
  }

  method SkipSpaces(s: string, i0: nat) returns (i: nat)
    requires i0 <= |s|
    ensures i == i0 + LeadingSpaces(s[i0..])
  {
    i := i0;
    while i < |s| && s[i] == ' '
      invariant i0 <= i <= |s|
      invariant LeadingSpaces(s[i0..]) == (i - i0) + LeadingSpaces(s[i..])
      decreases |s| - i
    {
      assert s[i..][1..] == s[i + 1..];
      i := i + 1;
    }
  }

  // Properties of sql_split

  lemma {:induction false} UntilSpaceNoSpace(s: string)
    ensures ' ' !in s[..UntilChar(s, ' ')]
    ensures UntilChar(s, ' ') < |s| ==> s[UntilChar(s, ' ')] == ' '
    decreases |s|
  {
    if s != [] && s[0] != ' ' {
      UntilSpaceNoSpace(s[1..]);
      assert s[..UntilChar(s, ' ')] == [s[0]] + s[1..][..UntilChar(s[1..], ' ')];
    }
  }

  /** Every token either is a quoted segment, starting with a quote, or holds no
      space. */
  lemma {:induction false} TokenShape(s: string)
    ensures forall k :: 0 <= k < |Tokenize(s)| ==>
      var tok := Tokenize(s)[k];
      (|tok| > 0 && tok[0] == '\'') || ' ' !in tok
    decreases |s|
  {
    if s != [] {
      TokenShape(s[TokenEnd(s)..]);
      if s[0] != '\'' {
        UntilSpaceNoSpace(s);
      }
    }
  }

  /** A string of single spaces only between non-space characters: no quote, no two
      spaces in a row, and no space at either end. */
  predicate PlainWords(s: string) {
    s != [] && '\'' !in s && NoDoubleSpace(s) && s[0] != ' ' && s[|s| - 1] != ' '
  }

  lemma {:induction false} UntilSpaceIsIndex(s: string)
    requires ' ' in s
    ensures UntilChar(s, ' ') == IndexOfChar(s, ' ')
    decreases |s|
  {
    if s[0] != ' ' {
      assert ' ' in s[1..] by {
        var i :| 0 <= i < |s| && s[i] == ' ';
        assert s[1..][i - 1] == ' ';
      }
      UntilSpaceIsIndex(s[1..]);
    }
  }

  lemma UntilSpaceAll(s: string)
    requires ' ' !in s
    ensures UntilChar(s, ' ') == |s|
  {
    UntilSpaceNoSpace(s);
  }

  /** Without quotes, the tokens are the string split on single spaces. */
  lemma {:induction false} QuoteFreeTokens(s: string)
    requires PlainWords(s)
    ensures Tokenize(s) == SplitOn(s, ' ')
    decreases |s|
  {
    assert s[0] != '\'' by {
      assert s[0] in s;
    }
    if ' ' !in s {
      UntilSpaceAll(s);
      assert TokenText(s) == s && TokenEnd(s) == |s|;
      assert s[|s|..] == [];
    } else {
      UntilSpaceIsIndex(s);
      var w := UntilChar(s, ' ');
      PlainAfterSpace(s, w);
      var rest := s[w + 1..];
      QuoteFreeTokens(rest);
      assert TokenText(s) == s[..w] && TokenEnd(s) == w + 1;
    }
  }

  /** After a space of a string of plain words come plain words again. */
  lemma PlainAfterSpace(s: string, w: nat)
    requires PlainWords(s) && w < |s| && s[w] == ' '
    ensures w + 1 < |s| && LeadingSpaces(s[w..]) == 1 && PlainWords(s[w + 1..])
  {
    assert s[w + 1] != ' ';
    assert s[w..][1..] == s[w + 1..];
    var rest := s[w + 1..];
    assert rest[|rest| - 1] == s[|s| - 1];
    assert forall k :: 0 <= k < |rest| ==> rest[k] == s[w + 1 + k];
  }

  /** Characters of a replacement come from the input or from the replacement text. */
  lemma {:induction false} ReplaceChars(s: string, pat: string, rep: string, c: char)
    requires |pat| > 0 && c !in s && c !in rep
    ensures c !in ReplaceAll(s, pat, rep)
    decreases |s|
  {
    if |s| >= |pat| {
      if s[..|pat|] == pat {
        assert c !in s[|pat|..] by {
          assert forall k :: 0 <= k < |s| - |pat| ==> s[|pat|..][k] == s[|pat| + k];
        }
        ReplaceChars(s[|pat|..], pat, rep, c);
      } else {
        assert c !in s[1..] by {
          assert forall k :: 0 <= k < |s| - 1 ==> s[1..][k] == s[1 + k];
        }
        ReplaceChars(s[1..], pat, rep, c);
      }
    }
  }

  /** Collapsing spaces adds no other character. */
  lemma {:induction false} SqueezeChars(s: string, c: char)
    requires c !in s && c != ' '
    ensures c !in Squeeze(s)
    decreases |s|
  {
    if Contains(s, "  ") {
      ReplaceChars(s, "  ", " ", c);
      ReplaceShrinks(s, "  ", " ");
      SqueezeChars(ReplaceAll(s, "  ", " "), c);
    }
  }

  /** No two spaces in a row is inherited by every infix. */
  lemma InfixNoDoubleSpace(s: string, i: nat, r: string)
    requires At(s, i, r) && !Contains(s, "  ")
    ensures NoDoubleSpace(r) && forall c :: c in r ==> c in s
  {
    forall k | 0 <= k < |r| ensures r[k] == s[i + k] {
      assert s[i..i + |r|][k] == s[i + k];
    }
    forall k | 0 <= k < |r| - 1 ensures !(r[k] == ' ' && r[k + 1] == ' ') {
      assert s[i + k..i + k + 2] == [s[i + k], s[i + k + 1]];
      assert !At(s, i + k, "  ");
    }
  }

  /** For input without single quotes, `sql_split` is: collapse the spaces, strip, split
      on single spaces. */
  lemma QuoteFreeSplit(s0: string)
    requires '\'' !in s0 && Strip(Squeeze(s0)) != []
    ensures Tokenize(Strip(Squeeze(s0))) == SplitOn(Strip(Squeeze(s0)), ' ')
  {
    var q := Squeeze(s0);
    var t := Strip(q);
    SqueezeChars(s0, '\'');
    var i: nat :| i <= |q| && At(q, i, t);
    InfixNoDoubleSpace(q, i, t);
    QuoteFreeTokens(t);
  }

  /** A quoted segment followed by a space leaves an empty token behind it: the space
      is not skipped by the quoted branch, and the next round copies nothing before it. */
  lemma QuotedThenWord()
    ensures Tokenize("'x' b") == ["'x'", "", "b"]
  {
    var s := "'x' b";
    assert UntilChar(s[1..], '\'') == 1 by {
      assert s[1..] == "x' b" && s[1..][1..] == "' b";
    }
    assert TokenEnd(s) == 3 && s[..3] == "'x'";
    var r := s[3..];
    assert r == " b";
    assert UntilChar(r, ' ') == 0;
    assert LeadingSpaces(r) == 1 by {
      assert r[1..] == "b";
    }
    assert TokenText(r) == "" && TokenEnd(r) == 1;
    var r2 := r[1..];
    assert r2 == "b";
    assert UntilChar(r2, ' ') == 1 by {
      assert r2[1..] == [];
    }
    assert TokenText(r2) == "b" && TokenEnd(r2) == 1;
    assert r2[1..] == [];
  }
}
