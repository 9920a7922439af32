/** `result_eq`: whether two denotations are the same up to a permutation of columns
    (and, when order does not matter, of rows), with its helpers `multiset_eq` and
    `get_constraint_permutation`. */
module Equivalence {
  import opened Denotation

  /** How many rows `get_constraint_permutation` samples. */
  const SampleCount: nat := 20

  /** Two tables denote the same thing: some column permutation `p` makes the
      permuted second table equal to the first (as a list, or as a bag of rows). */
  ghost predicate Equivalent(r1: seq<Row>, r2: seq<Row>, orderMatters: bool) {
    exists p :: Witness(r1, r2, orderMatters, p)
  }

  predicate Witness(r1: seq<Row>, r2: seq<Row>, orderMatters: bool, p: seq<nat>) {
    (forall i :: 0 <= i < |r2| ==> |r2[i]| == |p|) && IsPerm(p, |p|)
    && Matches(r1, PermuteAll(r2, p), orderMatters)
  }

  // ---------------------------------------------------------------------------
  // multiset_eq

  /** A `defaultdict(int)` lookup. */
  function Count<T>(d: map<T, int>, e: T): int {
    if e in d then d[e] else 0
  }

  /** `d[x] = d[x] + delta` on a `defaultdict(int)`. */
  function Bump<T>(d: map<T, int>, x: T, delta: int): map<T, int> {
    d[x := Count(d, x) + delta]
  }

  /** `multiset_eq(l1, l2)`: count `l1` up, count `l2` down, and fail as soon as a
      count goes negative. */
  method MultisetEq<T(==,!new)>(l1: seq<T>, l2: seq<T>) returns (eq: bool)
    ensures eq <==> multiset(l1) == multiset(l2)
  {
    if |l1| != |l2| {
      return false;
    }
    var d: map<T, int> := map[];
    for i := 0 to |l1|
      invariant forall e :: Count(d, e) == multiset(l1[..i])[e]
    {
      CountUpStep(d, l1, i);
      d := Bump(d, l1[i], 1);
    }
    assert l1[..|l1|] == l1;
    for j := 0 to |l2|
      invariant forall e :: Count(d, e) == multiset(l1)[e] as int - multiset(l2[..j])[e] as int
      invariant multiset(l2[..j]) <= multiset(l1)
    {
      var e := l2[j];
      CountDownStep(d, l1, l2, j);
      d := Bump(d, e, -1);
      if Count(d, e) < 0 {
        BagPrefixExceeds(l1, l2, j + 1, e);
        return false;
      }
      SubBagStep(l1, l2, j);
    }
    assert l2[..|l2|] == l2;
    SubBagSameSize(multiset(l2), multiset(l1));
    return true;
  }

  /** Counting `l[i]` up keeps `d` the bag of the prefix read so far. */
  lemma CountUpStep<T(!new)>(d: map<T, int>, l: seq<T>, i: nat)
    requires i < |l|
    requires forall e :: Count(d, e) == multiset(l[..i])[e]
    ensures forall e :: Count(Bump(d, l[i], 1), e) == multiset(l[..i + 1])[e]
  {
    MultisetSnoc(l, i);
  }

  /** Counting `l2[j]` down keeps `d` the difference of the two bags. */
  lemma CountDownStep<T(!new)>(d: map<T, int>, l1: seq<T>, l2: seq<T>, j: nat)
    requires j < |l2|
    requires forall e :: Count(d, e) == multiset(l1)[e] as int - multiset(l2[..j])[e] as int
    ensures forall e :: Count(Bump(d, l2[j], -1), e) == multiset(l1)[e] as int - multiset(l2[..j + 1])[e] as int
  {
    MultisetSnoc(l2, j);
  }

  lemma MultisetSnoc<T>(l: seq<T>, i: nat)
    requires i < |l|
    ensures multiset(l[..i + 1]) == multiset(l[..i]) + multiset{l[i]}
  {
    assert l[..i + 1] == l[..i] + [l[i]];
  }

  lemma SubBagStep<T>(l1: seq<T>, l2: seq<T>, j: nat)
    requires j < |l2| && multiset(l2[..j]) <= multiset(l1)
    requires multiset(l2[..j + 1])[l2[j]] <= multiset(l1)[l2[j]]
    ensures multiset(l2[..j + 1]) <= multiset(l1)
  {
    assert l2[..j + 1] == l2[..j] + [l2[j]];
  }

  lemma BagPrefixExceeds<T>(l1: seq<T>, l2: seq<T>, j: nat, e: T)
    requires j <= |l2| && multiset(l2[..j])[e] > multiset(l1)[e]
    ensures multiset(l1) != multiset(l2)
  {
    assert l2 == l2[..j] + l2[j..];
    assert multiset(l2) == multiset(l2[..j]) + multiset(l2[j..]);
  }

  /** A sub-bag as large as the bag is the bag. */
  lemma SubBagSameSize<T>(a: multiset<T>, b: multiset<T>)
    requires a <= b && |a| == |b|
    ensures a == b
  {
    var c := b - a;
    assert b == a + c;
    assert |c| == 0;
  }

  // ---------------------------------------------------------------------------
  // get_constraint_permutation

  /** `[{row[c] for row in r1} for c in range(n)]` */
  function ColumnSets(r1: Table, n: nat): (s: seq<set<Scalar>>)
    requires |r1| > 0 ==> |r1[0]| == n
    ensures |s| == n
    ensures forall c, x :: 0 <= c < n ==> (x in s[c] <==> exists i :: 0 <= i < |r1| && r1[i][c] == x)
  {
    seq(n, c requires 0 <= c < n => set i | 0 <= i < |r1| :: r1[i][c])
  }

  /** The row `random.choice(r2)` picks on the k-th draw. */
  function Drawn(r2: seq<Row>, draw: nat -> nat, k: nat): Row
    requires |r2| > 0
  {
    r2[draw(k) % |r2|]
  }

  /** Column `j` of the second table may still sit at position `c`: in each of the
      first `upto` sampled rows, its cell occurs in column `c` of the first table. */
  predicate Survives(tabSets: seq<set<Scalar>>, r2: Table, draw: nat -> nat, c: nat, j: nat, upto: nat)
    requires |r2| > 0 && j < |r2[0]| && c < |tabSets|
  {
    forall k :: 0 <= k < upto ==> Drawn(r2, draw, k)[j] in tabSets[c]
  }

  /** `get_constraint_permutation`: for each target column, the source columns that
      may be placed there. Tables of at most three columns keep every column; wider
      ones keep a column exactly when it survives all sampled rows. */
  method GetConstraintPermutation(tabSets: seq<set<Scalar>>, r2: Table, draw: nat -> nat)
    returns (cs: seq<set<nat>>)
    requires |r2| > 0 && |tabSets| == |r2[0]|
    ensures |cs| == |r2[0]|
    ensures forall c: nat, j: nat :: c < |cs| ==>
      (j in cs[c] <==> j < |cs| && (|cs| <= 3 || Survives(tabSets, r2, draw, c, j, SampleCount)))
  {
    var n := |r2[0]|;
    cs := seq(n, _ => Range(n));
    if n <= 3 {
      return;
    }
    for k := 0 to SampleCount
      invariant |cs| == n
      invariant forall c: nat, j: nat :: c < n ==> (j in cs[c] <==> j < n && Survives(tabSets, r2, draw, c, j, k))
    {
      var row := Drawn(r2, draw, k);
      for c := 0 to n
        invariant |cs| == n
        invariant forall c': nat, j: nat :: c' < c ==> (j in cs[c'] <==> j < n && Survives(tabSets, r2, draw, c', j, k + 1))
        invariant forall c': nat, j: nat :: c <= c' < n ==> (j in cs[c'] <==> j < n && Survives(tabSets, r2, draw, c', j, k))
      {
        var kept := PruneColumn(cs[c], row, tabSets[c]);
        forall j: nat ensures j in kept <==> j < n && Survives(tabSets, r2, draw, c, j, k + 1) {
          if j < n {
            SurvivesStep(tabSets, r2, draw, c, j, k);
          }
        }
        cs := cs[c := kept];
      }
    }
  }

  /** One pass of the innermost loop: iterate over a copy of the candidates and drop
      every column whose cell in `row` is not among the cells of the target column. */
  method PruneColumn(cands: set<nat>, row: Row, colSet: set<Scalar>) returns (kept: set<nat>)
    requires forall j :: j in cands ==> j < |row|
    ensures forall j :: j in kept <==> j in cands && row[j] in colSet
  {
    var pending := cands;
    kept := cands;
    while pending != {}
      invariant pending <= cands
      invariant forall j :: j in kept <==> j in cands && (j in pending || row[j] in colSet)
      decreases |pending|
    {
      var j :| j in pending;
      if row[j] !in colSet {
        kept := kept - {j};
      }
      pending := pending - {j};
    }
  }

  lemma SurvivesStep(tabSets: seq<set<Scalar>>, r2: Table, draw: nat -> nat, c: nat, j: nat, k: nat)
    requires |r2| > 0 && j < |r2[0]| && c < |tabSets|
    ensures Survives(tabSets, r2, draw, c, j, k + 1)
      <==> Survives(tabSets, r2, draw, c, j, k) && Drawn(r2, draw, k)[j] in tabSets[c]
  {
  }

  // ---------------------------------------------------------------------------
  // itertools.product

  /** `t` is one of the tuples `itertools.product(*cs)` yields (all columns below `n`). */
  predicate InProduct(cs: seq<set<nat>>, n: nat, t: seq<nat>) {
    |t| == |cs| && forall i :: 0 <= i < |t| ==> t[i] < n && t[i] in cs[i]
  }

  /** The members of `s` below `n`, ascending. */
  function Members(s: set<nat>, n: nat): (r: seq<nat>)
    ensures forall x :: x in r <==> x < n && x in s
  {
    if n == 0 then []
    else if n - 1 in s then Members(s, n - 1) + [n - 1]
    else Members(s, n - 1)
  }

  /** `[[h] + t for t in tails]` */
  function Prefix(h: nat, tails: seq<seq<nat>>): (r: seq<seq<nat>>)
    ensures forall t :: t in r <==> |t| > 0 && t[0] == h && t[1..] in tails
  {
    var r := seq(|tails|, i requires 0 <= i < |tails| => [h] + tails[i]);
    forall t | |t| > 0 && t[0] == h && t[1..] in tails ensures t in r {
      var i :| 0 <= i < |tails| && tails[i] == t[1..];
      assert r[i] == t;
    }
    r
  }

  /** `[[h] + t for h in heads for t in tails]` */
  function Extend(heads: seq<nat>, tails: seq<seq<nat>>): (r: seq<seq<nat>>)
    ensures forall t :: t in r <==> |t| > 0 && t[0] in heads && t[1..] in tails
  {
    if heads == [] then [] else Prefix(heads[0], tails) + Extend(heads[1..], tails)
  }

  /** `list(itertools.product(*cs))`, restricted to columns below `n`. */
  function Product(cs: seq<set<nat>>, n: nat): (r: seq<seq<nat>>)
    ensures forall t :: t in r <==> InProduct(cs, n, t)
  {
    if cs == [] then [[]]
    else
      var tails := Product(cs[1..], n);
      var r := Extend(Members(cs[0], n), tails);
      forall t ensures t in r <==> InProduct(cs, n, t) {
        if |t| > 0 {
          assert InProduct(cs, n, t) <==> t[0] < n && t[0] in cs[0] && InProduct(cs[1..], n, t[1..]);
        }
      }
      r
  }

  // ---------------------------------------------------------------------------
  // result_eq

  /** The table compared against `r1` for candidate `perm`; one-column tables are
      compared as they are. */
  function Permuted(r2: Table, perm: seq<nat>, n: nat): seq<Row>
    requires |r2| > 0 ==> |r2[0]| == n
    requires |perm| == n && forall k :: 0 <= k < n ==> perm[k] < n
  {
    if n == 1 then r2 else PermuteAll(r2, perm)
  }

  /** `result_eq(r1, r2, order_matters)`. The rows sampled by `random.choice` are
      `draw(0), draw(1), …` reduced modulo `len(r2)`; the answer does not depend on them. */
  method ResultEq(r1: Table, r2: Table, orderMatters: bool, draw: nat -> nat) returns (eq: bool)
    ensures eq == Equivalent(r1, r2, orderMatters)
  {
    if |r1| == 0 && |r2| == 0 {
      EmptyEquivalent(orderMatters);
      return true;
    }
    EquivalentShape(r1, r2, orderMatters);
    if |r1| != |r2| {
      return false;
    }
    var n := |r1[0]|;
    if |r2[0]| != n {
      return false;
    }
    EquivalentPassesQuickRej(r1, r2, orderMatters);
    if !QuickRej(r1, r2, orderMatters) {
      return false;
    }
    var tabSets := ColumnSets(r1, n);
    var cs := GetConstraintPermutation(tabSets, r2, draw);
    var perms := Product(cs, n);
    WitnessEnumerated(r1, r2, orderMatters, draw, tabSets, cs, perms);
    eq := FirstAccepted(r1, r2, orderMatters, n, cs, perms);
    if eq {
      var i :| 0 <= i < |perms| && Accepts(r1, r2, orderMatters, n, perms[i]);
      AcceptedIsWitness(r1, r2, orderMatters, n, perms[i]);
    }
  }

  /** The loop `for perm in product(...)`: true as soon as one candidate is accepted. */
  method FirstAccepted(r1: Table, r2: Table, orderMatters: bool, n: nat,
                       cs: seq<set<nat>>, perms: seq<seq<nat>>) returns (found: bool)
    requires |r2| > 0 && |r2[0]| == n
    requires |cs| == n && forall t :: t in perms ==> InProduct(cs, n, t)
    ensures found <==> exists i :: 0 <= i < |perms| && Accepts(r1, r2, orderMatters, n, perms[i])
  {
    for i := 0 to |perms|
      invariant forall i' :: 0 <= i' < i ==> !Accepts(r1, r2, orderMatters, n, perms[i'])
    {
      assert InProduct(cs, n, perms[i]);
      var hit := TryPermutation(r1, r2, orderMatters, n, perms[i]);
      if hit {
        return true;
      }
    }
    return false;
  }

  /** One iteration of the loop over candidates: skip a tuple with a repeated column,
      otherwise permute the second table and compare it with the first. */
  method TryPermutation(r1: Table, r2: Table, orderMatters: bool, n: nat, perm: seq<nat>)
    returns (hit: bool)
    requires |r2| > 0 && |r2[0]| == n
    requires |perm| == n && forall k :: 0 <= k < n ==> perm[k] < n
    ensures hit == Accepts(r1, r2, orderMatters, n, perm)
  {
    ElemsCard(perm);
    if NoRepeats(perm) {
      NoRepeatsCard(perm);
    }
    if |perm| != |Elems(perm)| {
      return false;
    }
    var r2p := Permuted(r2, perm, n);
    if orderMatters {
      hit := r1 == r2p;
    } else {
      hit := false;
      if ToSet(r1) == ToSet(r2p) {
        hit := MultisetEq(r1, r2p);
      }
    }
  }

  /** Candidate `perm` is a permutation and makes the tables match. */
  predicate Accepts(r1: Table, r2: Table, orderMatters: bool, n: nat, perm: seq<nat>)
    requires |r2| > 0 ==> |r2[0]| == n
  {
    IsPerm(perm, n) && Matches(r1, Permuted(r2, perm, n), orderMatters)
  }

  /** `len(p) == len(set(p))` decides `NoRepeats(p)`. */
  lemma {:induction false} ElemsCard(p: seq<nat>)
    ensures |Elems(p)| <= |p|
    ensures |Elems(p)| == |p| ==> NoRepeats(p)
  {
    if p != [] {
      var q, x := p[..|p| - 1], p[|p| - 1];
      ElemsCard(q);
      assert Elems(p) == Elems(q) + {x};
      if x !in q && |Elems(p)| == |p| {
        forall i, j | 0 <= i < j < |p| ensures p[i] != p[j] {
          if j < |p| - 1 {
            assert p[i] == q[i] && p[j] == q[j];
          } else {
            assert p[i] == q[i];
          }
        }
      }
    }
  }

  lemma EmptyEquivalent(orderMatters: bool)
    ensures Equivalent([], [], orderMatters)
  {
    assert Witness([], [], orderMatters, []);
  }

  /** Equivalent tables have as many rows, and as many columns. */
  lemma EquivalentShape(r1: Table, r2: Table, orderMatters: bool)
    ensures Equivalent(r1, r2, orderMatters) ==>
      |r1| == |r2| && (|r1| > 0 ==> |r1[0]| == |r2[0]|)
  {
    if Equivalent(r1, r2, orderMatters) {
      var p :| Witness(r1, r2, orderMatters, p);
      var r2p := PermuteAll(r2, p);
      if !orderMatters {
        assert |multiset(r1)| == |multiset(r2p)|;
      }
      if |r1| > 0 {
        assert r1[0] in ToSet(r2p);
      }
    }
  }

  lemma EquivalentPassesQuickRej(r1: Table, r2: Table, orderMatters: bool)
    ensures Equivalent(r1, r2, orderMatters) ==> QuickRej(r1, r2, orderMatters)
  {
    if Equivalent(r1, r2, orderMatters) {
      var p :| Witness(r1, r2, orderMatters, p);
      QuickRejNecessary(r1, r2, p, orderMatters);
    }
  }

  /** With one column, the only permutation leaves every row as it is. */
  lemma SingleColumn(r2: Table, perm: seq<nat>)
    requires |r2| > 0 && |r2[0]| == 1 && |perm| == 1 && perm[0] < 1
    ensures PermuteAll(r2, perm) == r2
  {
    forall i | 0 <= i < |r2| ensures PermuteTuple(r2[i], perm) == r2[i] {
    }
  }

  lemma AcceptedIsWitness(r1: Table, r2: Table, orderMatters: bool, n: nat, perm: seq<nat>)
    requires |r2| > 0 && |r2[0]| == n
    requires Accepts(r1, r2, orderMatters, n, perm)
    ensures Equivalent(r1, r2, orderMatters)
  {
    if n == 1 {
      SingleColumn(r2, perm);
    }
    assert Witness(r1, r2, orderMatters, perm);
  }

  /** A witness permutation survives the pruning: every cell it moves into column `c`
      is a cell of column `c` of the first table. */
  lemma WitnessSurvives(r1: Table, r2: Table, orderMatters: bool, p: seq<nat>, c: nat, k: nat)
    requires Witness(r1, r2, orderMatters, p)
    requires c < |p| && k < |r2|
    ensures exists i :: 0 <= i < |r1| && c < |r1[i]| && r1[i][c] == r2[k][p[c]]
  {
    var r2p := PermuteAll(r2, p);
    assert r2p[k] in ToSet(r2p);
    var i :| 0 <= i < |r1| && r1[i] == r2p[k];
    assert r1[i][c] == r2[k][p[c]];
  }

  /** Whenever the tables are equivalent, some enumerated candidate is accepted. */
  lemma WitnessEnumerated(r1: Table, r2: Table, orderMatters: bool, draw: nat -> nat,
                          tabSets: seq<set<Scalar>>, cs: seq<set<nat>>, perms: seq<seq<nat>>)
    requires |r1| == |r2| > 0 && |r1[0]| == |r2[0]|
    requires tabSets == ColumnSets(r1, |r1[0]|)
    requires |cs| == |r2[0]|
    requires forall c: nat, j: nat :: c < |cs| ==>
      (j in cs[c] <==> j < |cs| && (|cs| <= 3 || Survives(tabSets, r2, draw, c, j, SampleCount)))
    requires perms == Product(cs, |cs|)
    ensures Equivalent(r1, r2, orderMatters) ==>
      exists i :: 0 <= i < |perms| && Accepts(r1, r2, orderMatters, |cs|, perms[i])
  {
    var n := |cs|;
    if Equivalent(r1, r2, orderMatters) {
      var p :| Witness(r1, r2, orderMatters, p);
      WitnessInProduct(r1, r2, orderMatters, draw, tabSets, cs, p);
      var i :| 0 <= i < |perms| && perms[i] == p;
      if n == 1 {
        SingleColumn(r2, p);
      }
      assert Accepts(r1, r2, orderMatters, n, perms[i]);
    }
  }

  /** A witness permutation is among the tuples the pruned constraints still allow. */
  lemma WitnessInProduct(r1: Table, r2: Table, orderMatters: bool, draw: nat -> nat,
                         tabSets: seq<set<Scalar>>, cs: seq<set<nat>>, p: seq<nat>)
    requires |r1| == |r2| > 0 && |r1[0]| == |r2[0]|
    requires tabSets == ColumnSets(r1, |r1[0]|)
    requires |cs| == |r2[0]|
    requires forall c: nat, j: nat :: c < |cs| ==>
      (j in cs[c] <==> j < |cs| && (|cs| <= 3 || Survives(tabSets, r2, draw, c, j, SampleCount)))
    requires Witness(r1, r2, orderMatters, p)
    ensures InProduct(cs, |cs|, p)
  {
    var n := |cs|;
    assert |p| == n by { assert |r2[0]| == |p|; }
    forall c: nat | c < n ensures p[c] in cs[c] {
      if n > 3 {
        forall k | 0 <= k < SampleCount ensures Drawn(r2, draw, k)[p[c]] in tabSets[c] {
          WitnessSurvives(r1, r2, orderMatters, p, c, draw(k) % |r2|);
        }
      }
    }
  }

  // ---------------------------------------------------------------------------
  // Properties

  /** Every denotation is equivalent to itself, in either mode. */
  lemma EquivalentReflexive(r: Table, orderMatters: bool)
    ensures Equivalent(r, r, orderMatters)
  {
    var n := if |r| == 0 then 0 else |r[0]|;
    var id := seq(n, k requires 0 <= k < n => k);
    forall i | 0 <= i < |r| ensures PermuteTuple(r[i], id) == r[i] {
    }
    assert PermuteAll(r, id) == r;
    assert Witness(r, r, orderMatters, id);
  }

  /** Equal bags of rows are equivalent when order does not matter. */
  lemma SameBagEquivalent(r1: Table, r2: Table)
    requires multiset(r1) == multiset(r2)
    ensures Equivalent(r1, r2, false)
  {
    var n := if |r2| == 0 then 0 else |r2[0]|;
    var id := seq(n, k requires 0 <= k < n => k);
    forall i | 0 <= i < |r2| ensures PermuteTuple(r2[i], id) == r2[i] {
    }
    assert PermuteAll(r2, id) == r2;
    forall x ensures x in ToSet(r1) <==> x in ToSet(r2) {
      assert x in r1 <==> x in multiset(r1);
      assert x in r2 <==> x in multiset(r2);
    }
    assert Witness(r1, r2, false, id);
  }

  /** Equivalence with order is stricter than equivalence without it. */
  lemma OrderedImpliesUnordered(r1: Table, r2: Table)
    ensures Equivalent(r1, r2, true) ==> Equivalent(r1, r2, false)
  {
    if Equivalent(r1, r2, true) {
      var p :| Witness(r1, r2, true, p);
      assert Witness(r1, r2, false, p);
    }
  }
}
