/** Denotations (query results) and their order-free canonical form, as used by the
    self-consistency vote: cells, rows, column permutations, and the quick-rejection test. */
module Denotation {

  /** The Python type of a value the database driver returns. */
  datatype Tag = IntType | FloatType | StrType | NoneType | BytesType

  /** A result cell, known by its type and its `str()` rendering. Two cells are equal
      in the model when both agree, so an `int` and a `float` of the same value differ
      here, where Python's `==` equates them. */
  datatype Scalar = Scalar(tag: Tag, text: string)

  type Row = seq<Scalar>

  /** Every row has the width of the first one, as every database result does. */
  predicate Rectangular(t: seq<Row>) {
    forall i :: 0 <= i < |t| ==> |t[i]| == |t[0]|
  }

  /** A denotation: the rows a query returned, in the order it returned them. */
  type Table = t: seq<Row> | Rectangular(t) witness []

  /** `str(type(x))` */
  function TypeName(t: Tag): string {
    match t
    case IntType => "<class 'int'>"
    case FloatType => "<class 'float'>"
    case StrType => "<class 'str'>"
    case NoneType => "<class 'NoneType'>"
    case BytesType => "<class 'bytes'>"
  }

  /** The key `unorder_row` sorts cells by: `str(x) + str(type(x))`. */
  function SortKey(x: Scalar): string {
    x.text + TypeName(x.tag)
  }

  /** Python's `<=` on strings: code-point lexicographic order. */
  predicate LexLe(a: string, b: string) {
    |a| == 0 || (|b| > 0 && (a[0] < b[0] || (a[0] == b[0] && LexLe(a[1..], b[1..]))))
  }

  lemma {:induction false} LexTotal(a: string, b: string)
    ensures LexLe(a, b) || LexLe(b, a)
  {
    if |a| > 0 && |b| > 0 && a[0] == b[0] {
      LexTotal(a[1..], b[1..]);
    }
  }

  lemma {:induction false} LexAntisymmetric(a: string, b: string)
    requires LexLe(a, b) && LexLe(b, a)
    ensures a == b
  {
    if |a| > 0 && |b| > 0 {
      LexAntisymmetric(a[1..], b[1..]);
      assert a == [a[0]] + a[1..] && b == [b[0]] + b[1..];
    }
  }

  lemma {:induction false} LexTransitive(a: string, b: string, c: string)
    requires LexLe(a, b) && LexLe(b, c)
    ensures LexLe(a, c)
  {
    if |a| > 0 && |b| > 0 && |c| > 0 && a[0] == b[0] == c[0] {
      LexTransitive(a[1..], b[1..], c[1..]);
    }
  }

  lemma {:induction false} LexReflexive(a: string)
    ensures LexLe(a, a)
  {
    if |a| > 0 {
      LexReflexive(a[1..]);
    }
  }

  /** No type name is a proper suffix of another. */
  lemma TypeNameSuffixFree(t: Tag, u: Tag)
    requires |TypeName(t)| <= |TypeName(u)|
    requires TypeName(u)[|TypeName(u)| - |TypeName(t)|..] == TypeName(t)
    ensures t == u
  {
  }

  lemma KeyInjectiveOrdered(x: Scalar, y: Scalar)
    requires SortKey(x) == SortKey(y) && |TypeName(x.tag)| <= |TypeName(y.tag)|
    ensures x == y
  {
    var s := SortKey(x);
    var nx, ny := TypeName(x.tag), TypeName(y.tag);
    assert s[|s| - |nx|..] == nx;
    assert s[|s| - |ny|..] == ny;
    assert ny[|ny| - |nx|..] == s[|s| - |nx|..];
    TypeNameSuffixFree(x.tag, y.tag);
    assert x.text == s[..|s| - |nx|] == y.text;
  }

  /** The sort key determines the cell. */
  lemma SortKeyInjective(x: Scalar, y: Scalar)
    requires SortKey(x) == SortKey(y)
    ensures x == y
  {
    if |TypeName(x.tag)| <= |TypeName(y.tag)| {
      KeyInjectiveOrdered(x, y);
    } else {
      KeyInjectiveOrdered(y, x);
    }
  }

  /** The order `sorted(row, key=...)` puts cells in: Python string order on the keys. */
  predicate ScalarLe(x: Scalar, y: Scalar) {
    LexLe(SortKey(x), SortKey(y))
  }

  /** `le` is a total order under which no two distinct values tie. */
  ghost predicate TotalOrder<T(!new)>(le: (T, T) -> bool) {
    && (forall a, b :: le(a, b) || le(b, a))
    && (forall a, b :: le(a, b) && le(b, a) ==> a == b)
    && (forall a, b, c :: le(a, b) && le(b, c) ==> le(a, c))
  }

  /** Because the sort key is injective, sorting cells by key is sorting by a total order. */
  lemma ScalarLeTotalOrder()
    ensures TotalOrder(ScalarLe)
  {
    forall a, b ensures ScalarLe(a, b) || ScalarLe(b, a) {
      LexTotal(SortKey(a), SortKey(b));
    }
    forall a, b | ScalarLe(a, b) && ScalarLe(b, a) ensures a == b {
      LexAntisymmetric(SortKey(a), SortKey(b));
      SortKeyInjective(a, b);
    }
    forall a, b, c | ScalarLe(a, b) && ScalarLe(b, c) ensures ScalarLe(a, c) {
      LexTransitive(SortKey(a), SortKey(b), SortKey(c));
    }
  }

  predicate SortedBy<T>(le: (T, T) -> bool, s: seq<T>) {
    forall i, j :: 0 <= i < j < |s| ==> le(s[i], s[j])
  }

  /** Puts `x` before the first element not below it. */
  function InsertBy<T>(le: (T, T) -> bool, x: T, s: seq<T>): (r: seq<T>)
    ensures multiset(r) == multiset(s) + multiset{x}
  {
    if s == [] || le(x, s[0]) then [x] + s
    else
      assert s == [s[0]] + s[1..];
      [s[0]] + InsertBy(le, x, s[1..])
  }

  lemma {:induction false} InsertSorted<T(!new)>(le: (T, T) -> bool, x: T, s: seq<T>)
    requires TotalOrder(le) && SortedBy(le, s)
    ensures SortedBy(le, InsertBy(le, x, s))
  {
    if s != [] && !le(x, s[0]) {
      var rest := InsertBy(le, x, s[1..]);
      SortedTail(le, s);
      InsertSorted(le, x, s[1..]);
      HeadBelowInsert(le, x, s);
      ConsSorted(le, s[0], rest);
    }
  }

  /** When `x` goes after the head, the head stays below everything after it. */
  lemma HeadBelowInsert<T(!new)>(le: (T, T) -> bool, x: T, s: seq<T>)
    requires TotalOrder(le) && SortedBy(le, s) && s != [] && !le(x, s[0])
    ensures forall j | 0 <= j < |InsertBy(le, x, s[1..])| :: le(s[0], InsertBy(le, x, s[1..])[j])
  {
    var rest := InsertBy(le, x, s[1..]);
    forall j | 0 <= j < |rest| ensures le(s[0], rest[j]) {
      assert rest[j] in multiset(rest);
      if rest[j] != x {
        assert rest[j] in multiset(s[1..]);
        var k :| 0 <= k < |s[1..]| && s[1..][k] == rest[j];
        assert s[k + 1] == rest[j];
      }
    }
  }

  /** A head below every later element keeps a sorted sequence sorted. */
  lemma ConsSorted<T>(le: (T, T) -> bool, h: T, rest: seq<T>)
    requires SortedBy(le, rest) && forall j | 0 <= j < |rest| :: le(h, rest[j])
    ensures SortedBy(le, [h] + rest)
  {
    var r := [h] + rest;
    forall i, j | 0 <= i < j < |r| ensures le(r[i], r[j]) {
      assert r[j] == rest[j - 1];
      if i > 0 {
        assert r[i] == rest[i - 1];
      }
    }
  }

  /** Insertion sort under `le`. */
  function SortBy<T(!new)>(le: (T, T) -> bool, s: seq<T>): (r: seq<T>)
    requires TotalOrder(le)
    ensures SortedBy(le, r) && multiset(r) == multiset(s)
  {
    if s == [] then []
    else
      assert s == [s[0]] + s[1..];
      var rest := SortBy(le, s[1..]);
      InsertSorted(le, s[0], rest);
      InsertBy(le, s[0], rest)
  }

  /** Two sequences sorted under a total order with the same elements are equal. */
  lemma {:induction false} SortedUnique<T(!new)>(le: (T, T) -> bool, a: seq<T>, b: seq<T>)
    requires TotalOrder(le) && SortedBy(le, a) && SortedBy(le, b) && multiset(a) == multiset(b)
    ensures a == b
  {
    if a != [] {
      SortedSameHead(le, a, b);
      SortedTail(le, a);
      SortedTail(le, b);
      SortedUnique(le, a[1..], b[1..]);
      assert a == [a[0]] + a[1..] && b == [b[0]] + b[1..];
    } else {
      assert |b| == |multiset(b)| == 0;
    }
  }

  /** Sorted sequences with the same elements start alike and go on with the same
      elements. */
  lemma SortedSameHead<T(!new)>(le: (T, T) -> bool, a: seq<T>, b: seq<T>)
    requires TotalOrder(le) && SortedBy(le, a) && SortedBy(le, b) && multiset(a) == multiset(b)
    requires a != []
    ensures b != [] && a[0] == b[0] && multiset(a[1..]) == multiset(b[1..])
  {
    assert a[0] in multiset(b);
    SortedMinFirst(le, a, b[0]);
    SortedMinFirst(le, b, a[0]);
    assert a[0] == b[0];
    MultisetTail(a);
    MultisetTail(b);
  }

  lemma SortedMinFirst<T(!new)>(le: (T, T) -> bool, a: seq<T>, x: T)
    requires TotalOrder(le) && SortedBy(le, a) && x in multiset(a)
    ensures le(a[0], x)
  {
    var k :| 0 <= k < |a| && a[k] == x;
    if k == 0 {
      assert le(x, x) || le(x, x);
    }
  }

  lemma MultisetTail<T>(a: seq<T>)
    requires a != []
    ensures multiset(a[1..]) == multiset(a) - multiset{a[0]}
  {
    assert a == [a[0]] + a[1..];
  }

  lemma SortedTail<T>(le: (T, T) -> bool, a: seq<T>)
    requires SortedBy(le, a) && a != []
    ensures SortedBy(le, a[1..])
  {
    forall i, j | 0 <= i < j < |a| - 1 ensures le(a[1..][i], a[1..][j]) {
      assert a[1..][i] == a[i + 1] && a[1..][j] == a[j + 1];
    }
  }

  /** `unorder_row`: the cells of `row` sorted by their key. */
  function UnorderRow(row: Row): (r: Row)
    ensures SortedBy(ScalarLe, r) && multiset(r) == multiset(row)
  {
    ScalarLeTotalOrder();
    SortBy(ScalarLe, row)
  }

  /** `unorder_row` forgets the order of the cells and nothing else. */
  lemma UnorderRowInvariant(a: Row, b: Row)
    ensures UnorderRow(a) == UnorderRow(b) <==> multiset(a) == multiset(b)
  {
    if multiset(a) == multiset(b) {
      ScalarLeTotalOrder();
      SortedUnique(ScalarLe, UnorderRow(a), UnorderRow(b));
    }
  }

  /** No index appears twice (`len(perm) == len(set(perm))`). */
  predicate NoRepeats(p: seq<nat>) {
    forall i, j :: 0 <= i < j < |p| ==> p[i] != p[j]
  }

  /** `p` is a permutation of the columns `0..n-1`. */
  predicate IsPerm(p: seq<nat>, n: nat) {
    |p| == n && (forall k :: 0 <= k < n ==> p[k] < n) && NoRepeats(p)
  }

  /** `permute_tuple(e, p)`: the k-th cell of the result is cell `p[k]` of `e`. */
  function PermuteTuple<T>(e: seq<T>, p: seq<nat>): (r: seq<T>)
    requires |e| == |p| && forall k :: 0 <= k < |p| ==> p[k] < |e|
    ensures |r| == |e|
    ensures forall k :: 0 <= k < |r| ==> r[k] == e[p[k]]
  {
    seq(|p|, k requires 0 <= k < |p| => e[p[k]])
  }

  /** `[permute_tuple(row, p) for row in t]` */
  function PermuteAll(t: seq<Row>, p: seq<nat>): (r: seq<Row>)
    requires forall i :: 0 <= i < |t| ==> |t[i]| == |p|
    requires forall k :: 0 <= k < |p| ==> p[k] < |p|
    ensures |r| == |t| && forall i :: 0 <= i < |t| ==> r[i] == PermuteTuple(t[i], p)
  {
    seq(|t|, i requires 0 <= i < |t| => PermuteTuple(t[i], p))
  }

  /** `set(s)` */
  function ToSet(s: seq<Row>): (r: set<Row>)
    ensures forall x :: x in r <==> x in s
  {
    set x | x in s
  }

  /** `set(range(n))` */
  function Range(n: nat): (r: set<nat>)
    ensures |r| == n && forall i: int :: i in r <==> 0 <= i < n
  {
    if n == 0 then {}
    else
      var r := Range(n - 1);
      assert n - 1 !in r;
      r + {n - 1}
  }

  /** `set(p)` */
  function Elems(p: seq<nat>): (r: set<nat>)
    ensures forall x :: x in r <==> x in p
  {
    if p == [] then {}
    else
      assert p == p[..|p| - 1] + [p[|p| - 1]];
      Elems(p[..|p| - 1]) + {p[|p| - 1]}
  }

  lemma {:induction false} NoRepeatsCard(p: seq<nat>)
    requires NoRepeats(p)
    ensures |Elems(p)| == |p|
  {
    if p != [] {
      NoRepeatsCard(p[..|p| - 1]);
    }
  }

  /** Pigeonhole: a permutation of `0..n-1` hits every column. */
  lemma PermHitsAll(p: seq<nat>, n: nat, v: nat)
    requires IsPerm(p, n) && v < n
    ensures v in p
  {
    var a, b := Elems(p), Range(n);
    NoRepeatsCard(p);
    assert a <= b;
    assert a * b == a;
    assert a + b == b;
    assert |b - a| == 0;
    assert v in b;
  }

  lemma DropIndexPerm(p: seq<nat>, n: nat, j: nat) returns (p': seq<nat>)
    requires IsPerm(p, n) && j < n && p[j] == n - 1
    ensures p' == p[..j] + p[j + 1..] && IsPerm(p', n - 1)
  {
    p' := p[..j] + p[j + 1..];
    forall k | 0 <= k < n - 1 ensures p'[k] < n - 1 {
      if k < j { assert p'[k] == p[k] != p[j]; } else { assert p'[k] == p[k + 1] != p[j]; }
    }
    forall i, k | 0 <= i < k < n - 1 ensures p'[i] != p'[k] {
      var i', k' := if i < j then i else i + 1, if k < j then k else k + 1;
      assert p'[i] == p[i'] && p'[k] == p[k'] && i' < k';
    }
  }

  /** Permuting the cells of a row keeps the bag of cells. */
  lemma {:induction false} PermuteKeepsCells<T>(e: seq<T>, p: seq<nat>)
    requires IsPerm(p, |e|)
    ensures multiset(PermuteTuple(e, p)) == multiset(e)
  {
    var n := |e|;
    if n > 0 {
      var p' := PermuteLast(e, p);
      PermuteKeepsCells(e[..n - 1], p');
      assert e == e[..n - 1] + [e[n - 1]];
    }
  }

  /** Taking the last cell out of a row and its target out of the permutation. */
  lemma PermuteLast<T>(e: seq<T>, p: seq<nat>) returns (p': seq<nat>)
    requires IsPerm(p, |e|) && |e| > 0
    ensures IsPerm(p', |e| - 1)
    ensures multiset(PermuteTuple(e, p))
         == multiset(PermuteTuple(e[..|e| - 1], p')) + multiset{e[|e| - 1]}
  {
    var n := |e|;
    PermHitsAll(p, n, n - 1);
    var j :| 0 <= j < n && p[j] == n - 1;
    p' := DropIndexPerm(p, n, j);
    PermuteSplit(e, p, j, p');
    InsertKeepsCells(PermuteTuple(e[..n - 1], p'), j, e[n - 1]);
  }

  lemma InsertKeepsCells<T>(t: seq<T>, j: nat, x: T)
    requires j <= |t|
    ensures multiset(t[..j] + [x] + t[j..]) == multiset(t) + multiset{x}
  {
    assert t == t[..j] + t[j..];
  }

  lemma PermuteSplit<T>(e: seq<T>, p: seq<nat>, j: nat, p': seq<nat>)
    requires IsPerm(p, |e|) && j < |e| && p[j] == |e| - 1
    requires p' == p[..j] + p[j + 1..] && IsPerm(p', |e| - 1)
    ensures PermuteTuple(e, p) == PermuteTuple(e[..|e| - 1], p')[..j] + [e[|e| - 1]] + PermuteTuple(e[..|e| - 1], p')[j..]
  {
    var n := |e|;
    var t, t' := PermuteTuple(e, p), PermuteTuple(e[..n - 1], p');
    forall k | 0 <= k < n ensures t[k] == (t'[..j] + [e[n - 1]] + t'[j..])[k] {
      if k < j { assert p'[k] == p[k]; }
      else if k > j { assert p'[k - 1] == p[k]; }
    }
  }

  /** `[unorder_row(row) for row in t]` */
  function Unordered(t: seq<Row>): (u: seq<Row>)
    ensures |u| == |t| && forall i :: 0 <= i < |t| ==> u[i] == UnorderRow(t[i])
  {
    seq(|t|, i requires 0 <= i < |t| => UnorderRow(t[i]))
  }

  /** `quick_rej`: the canonical rows agree as a list (order matters) or as a set. */
  function QuickRej(r1: seq<Row>, r2: seq<Row>, orderMatters: bool): bool
  {
    var s1 := Unordered(r1);
    var s2 := Unordered(r2);
    if orderMatters then s1 == s2 else ToSet(s1) == ToSet(s2)
  }

  /** The final test of `result_eq` for one candidate column permutation:
      equal lists, or equal sets and equal bags. */
  predicate Matches(r1: seq<Row>, r2p: seq<Row>, orderMatters: bool) {
    if orderMatters then r1 == r2p
    else ToSet(r1) == ToSet(r2p) && multiset(r1) == multiset(r2p)
  }

  /** Permuting the columns leaves every canonical row unchanged. */
  lemma UnorderedPermuted(t: seq<Row>, p: seq<nat>)
    requires forall i :: 0 <= i < |t| ==> |t[i]| == |p|
    requires IsPerm(p, |p|)
    ensures Unordered(PermuteAll(t, p)) == Unordered(t)
  {
    forall i | 0 <= i < |t|
      ensures UnorderRow(PermuteTuple(t[i], p)) == UnorderRow(t[i])
    {
      PermuteKeepsCells(t[i], p);
      UnorderRowInvariant(PermuteTuple(t[i], p), t[i]);
    }
  }

  /** Rows with equal sets have equal sets of canonical rows. */
  lemma UnorderedSets(r1: seq<Row>, r2: seq<Row>)
    requires ToSet(r1) == ToSet(r2)
    ensures ToSet(Unordered(r1)) == ToSet(Unordered(r2))
  {
    var s1, s2 := Unordered(r1), Unordered(r2);
    forall x | x in s1 ensures x in s2 {
      var i :| 0 <= i < |r1| && s1[i] == x;
      assert r1[i] in ToSet(r2);
      var k :| 0 <= k < |r2| && r2[k] == r1[i];
      assert s2[k] == x;
    }
    forall x | x in s2 ensures x in s1 {
      var i :| 0 <= i < |r2| && s2[i] == x;
      assert r2[i] in ToSet(r1);
      var k :| 0 <= k < |r1| && r1[k] == r2[i];
      assert s1[k] == x;
    }
  }

  /** Quick rejection is a necessary condition: whenever some column permutation makes
      `r2` match `r1`, `quick_rej` lets the pair through. */
  lemma QuickRejNecessary(r1: seq<Row>, r2: seq<Row>, p: seq<nat>, orderMatters: bool)
    requires forall i :: 0 <= i < |r2| ==> |r2[i]| == |p|
    requires IsPerm(p, |p|)
    requires Matches(r1, PermuteAll(r2, p), orderMatters)
    ensures QuickRej(r1, r2, orderMatters)
  {
    var r2p := PermuteAll(r2, p);
    UnorderedPermuted(r2, p);
    if !orderMatters {
      UnorderedSets(r1, r2p);
    }
  }
}
