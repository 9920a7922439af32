/** `match_shift`: when several question positions compete for schema items, the
    positions with the fewest candidate matches are resolved first; a later position
    that shares a match with those already taken keeps only the shared ones, otherwise it
    keeps its exact matches when it has any, all of its matches when not. Cell matches
    survive only at positions with no schema match at all. */
module MatchShift {
  import opened SchemaLinking
  import CellLinking
  import Denotation

  /** A `(type, c_t_id)` pair: the flag and the column or table id. */
  type Match = (Flag, nat)

  predicate IsColFlag(f: Flag) {
    f == CEM || f == CPM
  }

  predicate IsTabFlag(f: Flag) {
    f == TEM || f == TPM
  }

  predicate IsExactFlag(f: Flag) {
    f == CEM || f == TEM
  }

  /** The inputs as `compute_schema_linking` produces them: column flags in the column
      dictionary, table flags in the table dictionary. */
  predicate WellFlagged(col: map<Key, Flag>, tab: map<Key, Flag>) {
    && (forall k | k in col :: IsColFlag(col[k]))
    && (forall k | k in tab :: IsTabFlag(tab[k]))
  }

  /** Position `q` has some column or table match. */
  ghost predicate Relevant(col: map<Key, Flag>, tab: map<Key, Flag>, q: nat) {
    (exists k | k in col :: k.0 == q) || (exists k | k in tab :: k.0 == q)
  }

  /** `g` is `q_id_to_match` (after `list(set(...))`): the positions with a match, each
      mapped to the set of its `(flag, id)` pairs from both dictionaries. */
  ghost predicate GroupsOf(col: map<Key, Flag>, tab: map<Key, Flag>, g: map<nat, set<Match>>) {
    && (forall q | q in g :: g[q] != {})
    && (forall q, m | q in g && m in g[q] ::
          ((q, m.1) in col && col[(q, m.1)] == m.0) || ((q, m.1) in tab && tab[(q, m.1)] == m.0))
    && (forall k | k in col :: k.0 in g && (col[k], k.1) in g[k.0])
    && (forall k | k in tab :: k.0 in g && (tab[k], k.1) in g[k.0])
  }

  /** The grouped positions are exactly the relevant ones. */
  lemma GroupsAreRelevant(col: map<Key, Flag>, tab: map<Key, Flag>, g: map<nat, set<Match>>, q: nat)
    requires GroupsOf(col, tab, g)
    ensures q in g <==> Relevant(col, tab, q)
  {
    if q in g {
      var m :| m in g[q];
      assert (q, m.1) in col || (q, m.1) in tab;
    }
  }

  /** `g` holds, for each position, the pairs of `g0` plus the pairs `(d[k], k.1)` of
      the keys `k` of `d` at that position, and no position without a pair. */
  ghost predicate Adds(g0: map<nat, set<Match>>, d: map<Key, Flag>, done: set<Key>, g: map<nat, set<Match>>) {
    && (forall q | q in g :: g[q] != {})
    && (forall q | q in g0 :: q in g)
    && (forall q, m :: (q in g && m in g[q]) <==>
          (q in g0 && m in g0[q]) || ((q, m.1) in done && (q, m.1) in d && d[(q, m.1)] == m.0))
  }

  lemma AddsStep(g0: map<nat, set<Match>>, d: map<Key, Flag>, done: set<Key>, g: map<nat, set<Match>>, k: Key)
    requires Adds(g0, d, done, g) && k in d
    ensures Adds(g0, d, done + {k}, g[k.0 := (if k.0 in g then g[k.0] else {}) + {(d[k], k.1)}])
  {
  }

  /** One loop `for match_key in d.keys()`: every key `"q,c"` adds `(flag, c)` to the
      group of `q`. Dictionary order is left open. */
  method AddPairs(g0: map<nat, set<Match>>, d: map<Key, Flag>) returns (g: map<nat, set<Match>>)
    requires forall q | q in g0 :: g0[q] != {}
    ensures Adds(g0, d, d.Keys, g)
  {
    g := g0;
    var todo := d.Keys;
    while todo != {}
      invariant todo <= d.Keys
      invariant Adds(g0, d, d.Keys - todo, g)
      decreases |todo|
    {
      var k :| k in todo;
      AddsStep(g0, d, d.Keys - todo, g, k);
      g := g[k.0 := (if k.0 in g then g[k.0] else {}) + {(d[k], k.1)}];
      assert d.Keys - (todo - {k}) == (d.Keys - todo) + {k};
      todo := todo - {k};
    }
  }

  /** The first two loops of `match_shift`: `q_id_to_match` from both dictionaries. */
  method GroupByPosition(col: map<Key, Flag>, tab: map<Key, Flag>) returns (g: map<nat, set<Match>>)
    ensures GroupsOf(col, tab, g)
  {
    var g1 := AddPairs(map[], col);
    g := AddPairs(g1, tab);
    AddsBoth(col, tab, g1, g);
  }

  /** Adding the pairs of the column dictionary and then those of the table dictionary
      groups both. */
  lemma AddsBoth(col: map<Key, Flag>, tab: map<Key, Flag>, g1: map<nat, set<Match>>, g: map<nat, set<Match>>)
    requires Adds(map[], col, col.Keys, g1) && Adds(g1, tab, tab.Keys, g)
    ensures GroupsOf(col, tab, g)
  {
    AddsFrom(col, tab, g1, g);
    AddsAll(map[], col, g1);
    AddsAll(g1, tab, g);
    forall k | k in col ensures k.0 in g && (col[k], k.1) in g[k.0] {
      assert k.0 in g1 && (col[k], k.1) in g1[k.0];
    }
  }

  /** Every pair grouped comes from one of the dictionaries. */
  lemma AddsFrom(col: map<Key, Flag>, tab: map<Key, Flag>, g1: map<nat, set<Match>>, g: map<nat, set<Match>>)
    requires Adds(map[], col, col.Keys, g1) && Adds(g1, tab, tab.Keys, g)
    ensures forall q, m | q in g && m in g[q] ::
      ((q, m.1) in col && col[(q, m.1)] == m.0) || ((q, m.1) in tab && tab[(q, m.1)] == m.0)
  {
  }

  /** Every key of the dictionary added has its pair grouped. */
  lemma AddsAll(g0: map<nat, set<Match>>, d: map<Key, Flag>, g: map<nat, set<Match>>)
    requires Adds(g0, d, d.Keys, g)
    ensures forall k | k in d :: k.0 in g && (d[k], k.1) in g[k.0]
  {
    forall k | k in d ensures k.0 in g && (d[k], k.1) in g[k.0] {
      var m: Match := (d[k], k.1);
      assert (k.0, m.1) in d.Keys && d[(k.0, m.1)] == m.0;
    }
  }

  // ---------------------------------------------------------------------------
  // The priority list

  /** Python's `<=` on `(len, q_id)` tuples. */
  predicate PairLe(a: (nat, nat), b: (nat, nat)) {
    a.0 < b.0 || (a.0 == b.0 && a.1 <= b.1)
  }

  lemma PairLeTotalOrder()
    ensures Denotation.TotalOrder(PairLe)
  {
    forall a: (nat, nat), b: (nat, nat) | PairLe(a, b) && PairLe(b, a) ensures a == b {
    }
  }

  /** No position occurs twice. */
  predicate Distinct(pri: seq<(nat, nat)>) {
    forall i, j | 0 <= i < j < |pri| :: pri[i].1 != pri[j].1
  }

  /** `pri` lists, once each, the pairs `(len(g[q]), q)` of the grouped positions. */
  ghost predicate PairsOf(g: map<nat, set<Match>>, pri: seq<(nat, nat)>) {
    && Distinct(pri)
    && (forall x :: x in pri <==> x.1 in g && x.0 == |g[x.1]|)
  }

  /** A sequence without a repeated position holds each of its elements once. */
  lemma {:induction false} DistinctOnce(s: seq<(nat, nat)>, x: (nat, nat))
    requires Distinct(s)
    ensures multiset(s)[x] == if x in s then 1 else 0
  {
    if s != [] {
      assert s == [s[0]] + s[1..];
      DistinctOnce(s[1..], x);
    }
  }

  /** An element at two indices is counted at least twice. */
  lemma CountTwice(r: seq<(nat, nat)>, i: nat, j: nat)
    requires i < j < |r|
    ensures multiset(r)[r[i]] >= if r[i] == r[j] then 2 else 1
  {
    assert r == r[..i] + [r[i]] + r[i + 1..j] + [r[j]] + r[j + 1..];
  }

  /** A sorted copy keeps the pairs, and so keeps each position once. */
  lemma SortedStaysDistinct(s: seq<(nat, nat)>, r: seq<(nat, nat)>)
    requires Distinct(s) && multiset(r) == multiset(s)
    ensures Distinct(r)
  {
    forall i, j | 0 <= i < j < |r| ensures r[i].1 != r[j].1 {
      CountTwice(r, i, j);
      DistinctOnce(s, r[i]);
      DistinctOnce(s, r[j]);
      assert r[j] in multiset(r);
    }
  }

  /** The priority loop and `priority.sort()`: each grouped position once, as
      `(len(matches), q)`, in increasing order of match count, ties by position. */
  method Prioritize(g: map<nat, set<Match>>) returns (pri: seq<(nat, nat)>)
    ensures PairsOf(g, pri)
    ensures Denotation.SortedBy(PairLe, pri)
  {
    var unsorted: seq<(nat, nat)> := [];
    var todo := g.Keys;
    while todo != {}
      invariant todo <= g.Keys
      invariant Distinct(unsorted)
      invariant forall x :: x in unsorted <==> x.1 in g && x.1 !in todo && x.0 == |g[x.1]|
      decreases |todo|
    {
      var q :| q in todo;
      unsorted := unsorted + [(|g[q]|, q)];
      todo := todo - {q};
    }
    PairLeTotalOrder();
    pri := Denotation.SortBy(PairLe, unsorted);
    SortedStaysDistinct(unsorted, pri);
    forall x ensures x in pri <==> x in unsorted {
      assert x in pri <==> x in multiset(pri);
      assert x in unsorted <==> x in multiset(unsorted);
    }
  }

  // ---------------------------------------------------------------------------
  // Resolution in priority order

  /** The exact matches among `cur`. */
  function ExactOf(cur: set<Match>): (ex: set<Match>)
    ensures ex <= cur
    ensures forall m | m in cur :: m in ex <==> IsExactFlag(m.0)
  {
    set m | m in cur && IsExactFlag(m.0)
  }

  /** `res` for a position with matches `cur` when `taken` are the matches already
      taken: the shared ones if any, else the exact ones if any, else all. */
  function Pick(cur: set<Match>, taken: set<Match>): (res: set<Match>)
    ensures res <= cur
    ensures cur != {} ==> res != {}
  {
    if taken * cur != {} then taken * cur
    else if ExactOf(cur) != {} then ExactOf(cur)
    else cur
  }

  /** All positions of the priority list are grouped ones. */
  predicate Listed(g: map<nat, set<Match>>, pri: seq<(nat, nat)>) {
    forall j | 0 <= j < |pri| :: pri[j].1 in g
  }

  /** `matches` after the first `i` positions of the priority list: a position adds
      what it picks only when it shares nothing with what is taken. */
  function Taken(g: map<nat, set<Match>>, pri: seq<(nat, nat)>, i: nat): (t: set<Match>)
    requires i <= |pri| && Listed(g, pri)
  {
    if i == 0 then {}
    else
      var t := Taken(g, pri, i - 1);
      var cur := g[pri[i - 1].1];
      if t * cur == {} then t + Pick(cur, t) else t
  }

  /** What each of the first `i` positions of the priority list keeps. */
  function Chosen(g: map<nat, set<Match>>, pri: seq<(nat, nat)>, i: nat): (ch: map<nat, set<Match>>)
    requires i <= |pri| && Listed(g, pri)
    ensures forall q | q in ch :: q in g && ch[q] <= g[q]
    ensures forall j | 0 <= j < i :: pri[j].1 in ch
  {
    if i == 0 then map[]
    else
      var q := pri[i - 1].1;
      Chosen(g, pri, i - 1)[q := Pick(g[q], Taken(g, pri, i - 1))]
  }

  /** With each position listed once, position `pri[j].1` keeps what it picks against
      the matches taken by the positions before it. */
  lemma {:induction false} ChosenAt(g: map<nat, set<Match>>, pri: seq<(nat, nat)>, i: nat, j: nat)
    requires i <= |pri| && Listed(g, pri) && Distinct(pri) && j < i
    ensures Chosen(g, pri, i)[pri[j].1] == Pick(g[pri[j].1], Taken(g, pri, j))
  {
    var q := pri[i - 1].1;
    var prev := Chosen(g, pri, i - 1);
    assert Chosen(g, pri, i) == prev[q := Pick(g[q], Taken(g, pri, i - 1))];
    if j < i - 1 {
      ChosenAt(g, pri, i - 1, j);
      assert pri[j].1 != q;
    }
  }

  /** `new_q_col_match` and `new_q_tab_match` record, for every position of `ch`, each
      pair it keeps, in the dictionary its flag belongs to. */
  ghost predicate Written(ch: map<nat, set<Match>>, newCol: map<Key, Flag>, newTab: map<Key, Flag>) {
    && (forall k | k in newCol :: IsColFlag(newCol[k]))
    && (forall k | k in newTab :: IsTabFlag(newTab[k]))
    && (forall q, c | (q, c) in newCol :: q in ch && (newCol[(q, c)], c) in ch[q])
    && (forall q, c | (q, c) in newTab :: q in ch && (newTab[(q, c)], c) in ch[q])
    && (forall q, f, c | q in ch && (f, c) in ch[q] && IsColFlag(f) :: (q, c) in newCol && newCol[(q, c)] == f)
    && (forall q, f, c | q in ch && (f, c) in ch[q] && !IsColFlag(f) :: (q, c) in newTab && newTab[(q, c)] == f)
  }

  /** At most one column flag and one table flag per id in a set of pairs. */
  predicate OneFlagPerId(s: set<Match>) {
    forall a, b | a in s && b in s && a.1 == b.1 && IsColFlag(a.0) == IsColFlag(b.0) :: a == b
  }

  /** A position not yet reached has no entry. */
  lemma {:induction false} NotYetChosen(g: map<nat, set<Match>>, pri: seq<(nat, nat)>, i: nat, q: nat)
    requires i <= |pri| && Listed(g, pri)
    requires forall j | 0 <= j < i :: pri[j].1 != q
    ensures q !in Chosen(g, pri, i)
  {
    if i > 0 {
      NotYetChosen(g, pri, i - 1, q);
    }
  }

  /** No pair of `done` has `m`'s id and the same kind of flag but another flag. */
  predicate NoClash(done: set<Match>, m: Match) {
    forall f | (f, m.1) in done && IsColFlag(f) == IsColFlag(m.0) :: f == m.0
  }

  /** A position not yet written starts with nothing kept. */
  lemma WrittenFresh(ch: map<nat, set<Match>>, newCol: map<Key, Flag>, newTab: map<Key, Flag>, q: nat)
    requires q !in ch && Written(ch, newCol, newTab)
    ensures Written(ch[q := {}], newCol, newTab)
  {
  }

  /** Recording one more kept pair `m` of position `q`, with a column flag. */
  lemma WrittenColStep(ch: map<nat, set<Match>>, newCol: map<Key, Flag>, newTab: map<Key, Flag>,
                       q: nat, done: set<Match>, m: Match)
    requires q in ch && ch[q] == done && Written(ch, newCol, newTab)
    requires NoClash(done, m) && IsColFlag(m.0)
    ensures Written(ch[q := done + {m}], newCol[(q, m.1) := m.0], newTab)
  {
  }

  /** Recording one more kept pair `m` of position `q`, with a table flag. */
  lemma WrittenTabStep(ch: map<nat, set<Match>>, newCol: map<Key, Flag>, newTab: map<Key, Flag>,
                       q: nat, done: set<Match>, m: Match)
    requires q in ch && ch[q] == done && Written(ch, newCol, newTab)
    requires NoClash(done, m) && !IsColFlag(m.0)
    ensures Written(ch[q := done + {m}], newCol, newTab[(q, m.1) := m.0])
  {
  }

  /** One turn of the loop over `res`. */
  lemma WriteOne(ch: map<nat, set<Match>>, q: nat, res: set<Match>, todo: set<Match>,
                 nc: map<Key, Flag>, nt: map<Key, Flag>, m: Match)
    requires OneFlagPerId(res) && todo <= res && m in todo
    requires Written(ch[q := res - todo], nc, nt)
    ensures Written(ch[q := res - (todo - {m})],
                    if m.0 == CPM || m.0 == CEM then nc[(q, m.1) := m.0] else nc,
                    if m.0 == TPM || m.0 == TEM then nt[(q, m.1) := m.0] else nt)
  {
    var done := res - todo;
    assert NoClash(done, m);
    if IsColFlag(m.0) {
      WrittenColStep(ch[q := done], nc, nt, q, done, m);
    } else {
      WrittenTabStep(ch[q := done], nc, nt, q, done, m);
    }
    assert done + {m} == res - (todo - {m});
    assert ch[q := done][q := done + {m}] == ch[q := res - (todo - {m})];
  }

  /** `for match in res`: each kept pair goes to the dictionary of its flag. */
  method WriteMatches(ghost ch: map<nat, set<Match>>, q: nat, res: set<Match>,
                      newCol: map<Key, Flag>, newTab: map<Key, Flag>)
    returns (nc: map<Key, Flag>, nt: map<Key, Flag>)
    requires q !in ch && Written(ch, newCol, newTab)
    requires OneFlagPerId(res)
    ensures Written(ch[q := res], nc, nt)
  {
    nc, nt := newCol, newTab;
    var todo := res;
    WrittenFresh(ch, nc, nt, q);
    assert res - todo == {};
    while todo != {}
      invariant todo <= res
      invariant Written(ch[q := res - todo], nc, nt)
      decreases |todo|
    {
      var m :| m in todo;
      WriteOne(ch, q, res, todo, nc, nt, m);
      if m.0 == CPM || m.0 == CEM {
        nc := nc[(q, m.1) := m.0];
      }
      if m.0 == TPM || m.0 == TEM {
        nt := nt[(q, m.1) := m.0];
      }
      todo := todo - {m};
    }
  }

  /** The loop collecting `exact_matches` from a position's matches. */
  method CollectExact(cur: set<Match>) returns (ex: set<Match>)
    ensures ex == ExactOf(cur)
  {
    ex := {};
    var todo := cur;
    while todo != {}
      invariant todo <= cur
      invariant ex == ExactOf(cur - todo)
      decreases |todo|
    {
      var m :| m in todo;
      if m.0 == CEM || m.0 == TEM {
        ex := ex + {m};
      }
      assert cur - (todo - {m}) == (cur - todo) + {m};
      todo := todo - {m};
    }
  }

  /** A subset of a set with one flag of each kind per id has the same property. */
  lemma OneFlagPerIdSubset(s: set<Match>, r: set<Match>)
    requires OneFlagPerId(s) && r <= s
    ensures OneFlagPerId(r)
  {
  }

  /** One position of the priority loop: what it keeps, and what is taken after it. */
  lemma Advance(g: map<nat, set<Match>>, pri: seq<(nat, nat)>, i: nat, res: set<Match>)
    requires i < |pri| && Listed(g, pri)
    requires var t, cur := Taken(g, pri, i), g[pri[i].1];
      res == if t * cur != {} then t * cur else if ExactOf(cur) != {} then ExactOf(cur) else cur
    ensures Chosen(g, pri, i + 1) == Chosen(g, pri, i)[pri[i].1 := res]
    ensures var t := Taken(g, pri, i);
      Taken(g, pri, i + 1) == if t * g[pri[i].1] == {} then t + res else t
  {
  }

  /** One turn of the loop `for _, q_id in priority`: the position `pri[i]` keeps the
      matches it shares with those taken, or else its exact matches, or else all of them,
      and records them. */
  method ResolveOne(g: map<nat, set<Match>>, pri: seq<(nat, nat)>, i: nat, matches: set<Match>,
                    newCol: map<Key, Flag>, newTab: map<Key, Flag>)
    returns (matches': set<Match>, newCol': map<Key, Flag>, newTab': map<Key, Flag>)
    requires i < |pri| && Listed(g, pri) && Distinct(pri)
    requires forall q | q in g :: OneFlagPerId(g[q])
    requires matches == Taken(g, pri, i)
    requires Written(Chosen(g, pri, i), newCol, newTab)
    ensures matches' == Taken(g, pri, i + 1)
    ensures Written(Chosen(g, pri, i + 1), newCol', newTab')
  {
    var q := pri[i].1;
    var cur := g[q];
    var res;
    matches' := matches;
    if matches * cur == {} {
      var exact := CollectExact(cur);
      res := if exact != {} then exact else cur;
      matches' := matches + res;
    } else {
      res := matches * cur;
    }
    Advance(g, pri, i, res);
    NotYetChosen(g, pri, i, q);
    OneFlagPerIdSubset(cur, res);
    newCol', newTab' := WriteMatches(Chosen(g, pri, i), q, res, newCol, newTab);
  }

  /** The loop `for _, q_id in priority`: positions in priority order, each keeping what
      it picks against the matches taken so far. */
  method Resolve(g: map<nat, set<Match>>, pri: seq<(nat, nat)>) returns (newCol: map<Key, Flag>, newTab: map<Key, Flag>)
    requires Listed(g, pri) && Distinct(pri)
    requires forall q | q in g :: OneFlagPerId(g[q])
    ensures Written(Chosen(g, pri, |pri|), newCol, newTab)
  {
    var matches: set<Match> := {};
    newCol, newTab := map[], map[];
    var i := 0;
    while i < |pri|
      invariant i <= |pri|
      invariant matches == Taken(g, pri, i)
      invariant Written(Chosen(g, pri, i), newCol, newTab)
    {
      matches, newCol, newTab := ResolveOne(g, pri, i, matches, newCol, newTab);
      i := i + 1;
    }
  }

  /** The last loop: the cell matches at positions with no schema match. */
  method FilterCells(cell: map<Key, CellLinking.CellFlag>, g: map<nat, set<Match>>)
    returns (r: map<Key, CellLinking.CellFlag>)
    ensures forall k :: k in r <==> k in cell && k.0 !in g
    ensures forall k | k in r :: r[k] == cell[k]
  {
    r := map[];
    var todo := cell.Keys;
    while todo != {}
      invariant todo <= cell.Keys
      invariant forall k :: k in r <==> k in cell && k !in todo && k.0 !in g
      invariant forall k | k in r :: r[k] == cell[k]
      decreases |todo|
    {
      var k :| k in todo;
      if k.0 !in g {
        r := r[k := cell[k]];
      }
      todo := todo - {k};
    }
  }

  // ---------------------------------------------------------------------------
  // What match_shift guarantees

  /** With well-flagged inputs, a position's group holds one column flag and one table
      flag per id at most. */
  lemma GroupsOneFlag(col: map<Key, Flag>, tab: map<Key, Flag>, g: map<nat, set<Match>>)
    requires GroupsOf(col, tab, g) && WellFlagged(col, tab)
    ensures forall q | q in g :: OneFlagPerId(g[q])
  {
    forall q, a, b | q in g && a in g[q] && b in g[q] && a.1 == b.1 && IsColFlag(a.0) == IsColFlag(b.0)
      ensures a == b
    {
      if IsColFlag(a.0) {
        assert (q, a.1) in col && (q, b.1) in col;
      } else {
        assert (q, a.1) in tab && (q, b.1) in tab;
      }
    }
  }

  /** Every position of the priority list is a grouped one. */
  lemma PairsListed(g: map<nat, set<Match>>, pri: seq<(nat, nat)>)
    requires PairsOf(g, pri)
    ensures Listed(g, pri)
  {
    forall j | 0 <= j < |pri| ensures pri[j].1 in g {
      assert pri[j] in pri;
    }
  }

  /** `q_id_to_match` does not depend on the order the dictionaries are read in. */
  lemma GroupsUnique(col: map<Key, Flag>, tab: map<Key, Flag>, g1: map<nat, set<Match>>, g2: map<nat, set<Match>>)
    requires GroupsOf(col, tab, g1) && GroupsOf(col, tab, g2)
    ensures g1 == g2
  {
    forall q: nat ensures q in g1 <==> q in g2 {
      GroupsAreRelevant(col, tab, g1, q);
      GroupsAreRelevant(col, tab, g2, q);
    }
    forall q | q in g1 ensures g1[q] == g2[q] {
      forall m: Match ensures m in g1[q] <==> m in g2[q] {
        if m in g1[q] {
          assert ((q, m.1) in col && col[(q, m.1)] == m.0) || ((q, m.1) in tab && tab[(q, m.1)] == m.0);
        }
        if m in g2[q] {
          assert ((q, m.1) in col && col[(q, m.1)] == m.0) || ((q, m.1) in tab && tab[(q, m.1)] == m.0);
        }
      }
    }
  }

  /** The sorted priority list does not depend on the order the positions were listed
      in: sorting leaves no tie to break. */
  lemma PriorityUnique(g: map<nat, set<Match>>, a: seq<(nat, nat)>, b: seq<(nat, nat)>)
    requires PairsOf(g, a) && Denotation.SortedBy(PairLe, a)
    requires PairsOf(g, b) && Denotation.SortedBy(PairLe, b)
    ensures a == b
  {
    PairLeTotalOrder();
    forall x ensures multiset(a)[x] == multiset(b)[x] {
      DistinctOnce(a, x);
      DistinctOnce(b, x);
    }
    assert multiset(a) == multiset(b);
    Denotation.SortedUnique(PairLe, a, b);
  }

  /** What is kept fixes the new dictionaries, whatever order `res` is read in. */
  lemma WrittenUnique(ch: map<nat, set<Match>>, nc1: map<Key, Flag>, nt1: map<Key, Flag>,
                      nc2: map<Key, Flag>, nt2: map<Key, Flag>)
    requires Written(ch, nc1, nt1) && Written(ch, nc2, nt2)
    ensures nc1 == nc2 && nt1 == nt2
  {
    ColUnique(ch, nc1, nt1, nc2, nt2);
    ColUnique(ch, nc2, nt2, nc1, nt1);
    TabUnique(ch, nc1, nt1, nc2, nt2);
    TabUnique(ch, nc2, nt2, nc1, nt1);
  }

  lemma ColUnique(ch: map<nat, set<Match>>, nc1: map<Key, Flag>, nt1: map<Key, Flag>,
                  nc2: map<Key, Flag>, nt2: map<Key, Flag>)
    requires Written(ch, nc1, nt1) && Written(ch, nc2, nt2)
    ensures forall k | k in nc1 :: k in nc2 && nc2[k] == nc1[k]
  {
    forall k | k in nc1 ensures k in nc2 && nc2[k] == nc1[k] {
      assert (k.0, k.1) in nc1;
    }
  }

  lemma TabUnique(ch: map<nat, set<Match>>, nc1: map<Key, Flag>, nt1: map<Key, Flag>,
                  nc2: map<Key, Flag>, nt2: map<Key, Flag>)
    requires Written(ch, nc1, nt1) && Written(ch, nc2, nt2)
    ensures forall k | k in nt1 :: k in nt2 && nt2[k] == nt1[k]
  {
    forall k | k in nt1 ensures k in nt2 && nt2[k] == nt1[k] {
      assert (k.0, k.1) in nt1;
    }
  }

  /** Every kept pair is one of the inputs' entries: the new dictionaries are
      sub-dictionaries of the old ones. */
  lemma KeptAreInputs(col: map<Key, Flag>, tab: map<Key, Flag>, g: map<nat, set<Match>>,
                      ch: map<nat, set<Match>>, newCol: map<Key, Flag>, newTab: map<Key, Flag>)
    requires GroupsOf(col, tab, g) && WellFlagged(col, tab)
    requires forall q | q in ch :: q in g && ch[q] <= g[q]
    requires Written(ch, newCol, newTab)
    ensures forall k | k in newCol :: k in col && newCol[k] == col[k]
    ensures forall k | k in newTab :: k in tab && newTab[k] == tab[k]
  {
    forall k | k in newCol ensures k in col && newCol[k] == col[k] {
      assert (k.0, k.1) in newCol;
      assert (newCol[k], k.1) in g[k.0];
    }
    forall k | k in newTab ensures k in tab && newTab[k] == tab[k] {
      assert (k.0, k.1) in newTab;
      assert (newTab[k], k.1) in g[k.0];
    }
  }

  /** Every position with a schema match keeps at least one. */
  lemma RelevantKeepsOne(col: map<Key, Flag>, tab: map<Key, Flag>, g: map<nat, set<Match>>,
                         pri: seq<(nat, nat)>, newCol: map<Key, Flag>, newTab: map<Key, Flag>, q: nat)
    requires GroupsOf(col, tab, g) && PairsOf(g, pri) && Listed(g, pri)
    requires Written(Chosen(g, pri, |pri|), newCol, newTab)
    requires Relevant(col, tab, q)
    ensures (exists c :: (q, c) in newCol) || (exists c :: (q, c) in newTab)
  {
    GroupsAreRelevant(col, tab, g, q);
    assert (|g[q]|, q) in pri;
    var j :| 0 <= j < |pri| && pri[j] == (|g[q]|, q);
    ChosenAt(g, pri, |pri|, j);
    var ch := Chosen(g, pri, |pri|);
    var m: Match :| m in ch[q];
    if IsColFlag(m.0) {
      assert (q, m.1) in newCol;
    } else {
      assert (q, m.1) in newTab;
    }
  }

  /** `match_shift(q_col_match, q_tab_match, cell_match)` on dictionaries as
      `compute_schema_linking` produces them. `g` is `q_id_to_match` and `pri` the sorted
      priority list; both are fixed by the inputs whatever the dictionary order. */
  method MatchShiftLinks(col: map<Key, Flag>, tab: map<Key, Flag>, cell: map<Key, CellLinking.CellFlag>)
    returns (newCol: map<Key, Flag>, newTab: map<Key, Flag>, newCell: map<Key, CellLinking.CellFlag>,
             g: map<nat, set<Match>>, pri: seq<(nat, nat)>)
    requires WellFlagged(col, tab)
    ensures GroupsOf(col, tab, g) && PairsOf(g, pri) && Denotation.SortedBy(PairLe, pri) && Listed(g, pri)
    ensures Written(Chosen(g, pri, |pri|), newCol, newTab)
    ensures forall k | k in newCol :: k in col && newCol[k] == col[k]
    ensures forall k | k in newTab :: k in tab && newTab[k] == tab[k]
    ensures forall q: nat | Relevant(col, tab, q) :: (exists c :: (q, c) in newCol) || (exists c :: (q, c) in newTab)
    ensures forall k: Key :: k in newCell <==> k in cell && !Relevant(col, tab, k.0)
    ensures forall k | k in newCell :: newCell[k] == cell[k]
  {
    g := GroupByPosition(col, tab);
    pri := Prioritize(g);
    PairsListed(g, pri);
    GroupsOneFlag(col, tab, g);
    newCol, newTab := Resolve(g, pri);
    newCell := FilterCells(cell, g);
    KeptAreInputs(col, tab, g, Chosen(g, pri, |pri|), newCol, newTab);
    forall q: nat | Relevant(col, tab, q) ensures (exists c :: (q, c) in newCol) || (exists c :: (q, c) in newTab) {
      RelevantKeepsOne(col, tab, g, pri, newCol, newTab, q);
    }
    forall k: Key ensures k in newCell <==> k in cell && !Relevant(col, tab, k.0) {
      GroupsAreRelevant(col, tab, g, k.0);
    }
  }
}
