/** The example selectors of `prompt/ExampleSelectorTemplate.py` after their sort: the
    cross-domain index bookkeeping (`domain_mask`, `retrieve_index`) and the loops that
    walk the sorted candidates, pass over some of them and stop once enough are taken.
    Embeddings, distances and the sort itself are given: a selector receives one key per
    training example and the candidate order that Python's `sorted` produced. */
module ExampleSelector {
  import PromptIcl
  import Utils

  /** The fields of a training example (or of the target) that the selectors read;
      `skeleton` is the `query_skeleton` or `pre_skeleton` the selector compares. */
  datatype TrainItem = TrainItem(question: string, dbId: string, skeleton: string)

  /** `self.threshold` of the threshold selectors. */
  const Threshold: real := 0.85

  /** `self.db_ids` */
  function DbIds(train: seq<TrainItem>): (ds: seq<string>)
    ensures |ds| == |train|
  {
    seq(|train|, i requires 0 <= i < |train| => train[i].dbId)
  }

  /** `list(range(n))` */
  function Range(n: nat): (r: seq<nat>)
    ensures |r| == n && forall i | 0 <= i < n :: r[i] == i
  {
    seq(n, i requires 0 <= i < n => i)
  }

  // ---------------------------------------------------------------------------
  // domain_mask and retrieve_index

  /** `[i for i in range(len(self.db_ids)) if self.db_ids[i] != db_id]` */
  function CrossIndexes(dbIds: seq<string>, dbId: string): seq<nat> {
    if dbIds == [] then []
    else
      var n := |dbIds| - 1;
      CrossIndexes(dbIds[..n], dbId) + (if dbIds[n] != dbId then [n] else [])
  }

  /** The cross-domain positions are increasing, each has another database, and every
      position with another database is one of them. */
  lemma {:induction false} CrossIndexesMeans(dbIds: seq<string>, dbId: string)
    ensures var ids := CrossIndexes(dbIds, dbId);
      && Utils.InRange(ids, |dbIds|) && Utils.Increasing(ids)
      && (forall k | 0 <= k < |ids| :: dbIds[ids[k]] != dbId)
      && (forall i | 0 <= i < |dbIds| && dbIds[i] != dbId :: i in ids)
  {
    if dbIds != [] {
      var n := |dbIds| - 1;
      var init := dbIds[..n];
      CrossIndexesMeans(init, dbId);
      var before, ids := CrossIndexes(init, dbId), CrossIndexes(dbIds, dbId);
      forall k | 0 <= k < |ids| ensures ids[k] < |dbIds| && dbIds[ids[k]] != dbId && (k < |before| ==> ids[k] < n) {
        if k < |before| {
          assert ids[k] == before[k] && init[before[k]] == dbIds[before[k]];
        }
      }
      forall i | 0 <= i < |dbIds| && dbIds[i] != dbId ensures i in ids {
        if i < n {
          assert init[i] == dbIds[i];
          assert i in before;
        } else {
          assert ids[|ids| - 1] == i;
        }
      }
    }
  }

  /** `domain_mask`: the candidates at the cross-domain positions, in order. An index
      past the end of `candidates` raises in the source, hence the precondition. */
  function DomainMask<T>(candidates: seq<T>, dbIds: seq<string>, dbId: string): (r: seq<T>)
    requires |dbIds| <= |candidates|
    ensures |r| == |CrossIndexes(dbIds, dbId)|
  {
    CrossIndexesMeans(dbIds, dbId);
    PromptIcl.Chosen(candidates, CrossIndexes(dbIds, dbId))
  }

  /** `domain_mask` keeps exactly the candidates at positions of another database:
      entry `k` of the result is the candidate at the `k`-th such position. */
  lemma DomainMaskMeans<T>(candidates: seq<T>, dbIds: seq<string>, dbId: string)
    requires |dbIds| <= |candidates|
    ensures var ids, r := CrossIndexes(dbIds, dbId), DomainMask(candidates, dbIds, dbId);
      && Utils.Increasing(ids)
      && (forall k | 0 <= k < |r| :: ids[k] < |dbIds| && dbIds[ids[k]] != dbId && r[k] == candidates[ids[k]])
      && (forall i | 0 <= i < |dbIds| && dbIds[i] != dbId :: i in ids)
  {
    CrossIndexesMeans(dbIds, dbId);
  }

  /** `retrieve_index`: a position in the cross-domain list back to a training index.
      A position past the end raises in the source, hence the precondition. */
  function RetrieveIndex(dbIds: seq<string>, dbId: string, indexes: seq<nat>): (r: seq<nat>)
    requires Utils.InRange(indexes, |CrossIndexes(dbIds, dbId)|)
    ensures |r| == |indexes|
    ensures Utils.InRange(r, |dbIds|) && forall k | 0 <= k < |r| :: dbIds[r[k]] != dbId
    ensures Utils.Distinct(indexes) ==> Utils.Distinct(r)
  {
    var cross := CrossIndexes(dbIds, dbId);
    CrossIndexesMeans(dbIds, dbId);
    PromptIcl.Chosen(cross, indexes)
  }

  /** Picking from the masked candidates at some positions gives the candidates at the
      retrieved training indices: the two helpers are inverse bookkeeping. */
  lemma MaskThenRetrieve<T>(candidates: seq<T>, dbIds: seq<string>, dbId: string, indexes: seq<nat>)
    requires |dbIds| <= |candidates|
    requires Utils.InRange(indexes, |CrossIndexes(dbIds, dbId)|)
    ensures var masked, back := DomainMask(candidates, dbIds, dbId), RetrieveIndex(dbIds, dbId, indexes);
      Utils.InRange(back, |candidates|) && PromptIcl.Chosen(masked, indexes) == PromptIcl.Chosen(candidates, back)
  {
  }

  /** Masking `range(len(db_ids))` itself gives the cross-domain positions. */
  lemma MaskRange(dbIds: seq<string>, dbId: string)
    ensures DomainMask(Range(|dbIds|), dbIds, dbId) == CrossIndexes(dbIds, dbId)
  {
    CrossIndexesMeans(dbIds, dbId);
  }

  // ---------------------------------------------------------------------------
  // The selection loop

  /** `sorted(pairs, key=lambda x: x[0], reverse=reverse)`, seen through the indices:
      along `ids` the keys never decrease (never increase when `reverse`). */
  predicate SortedBy(keys: seq<real>, ids: seq<nat>, reverse: bool)
    requires Utils.InRange(ids, |keys|)
  {
    forall k, l | 0 <= k < l < |ids| ::
      if reverse then keys[ids[l]] <= keys[ids[k]] else keys[ids[k]] <= keys[ids[l]]
  }

  /** `order` is the sorted list of `(key, index)` pairs for every training index. */
  predicate IsSortOf(order: seq<nat>, keys: seq<real>, reverse: bool) {
    && |order| == |keys| && Utils.InRange(order, |keys|) && Utils.Distinct(order)
    && (forall i | 0 <= i < |keys| :: i in order)
    && SortedBy(keys, order, reverse)
  }

  lemma PrefixInRange(ids: seq<nat>, n: nat, i: nat)
    requires Utils.InRange(ids, n) && i <= |ids|
    ensures Utils.InRange(ids[..i], n)
  {
    forall k | 0 <= k < i ensures ids[..i][k] < n {
      assert ids[..i][k] == ids[k];
    }
  }

  /** The candidates of `order` that the loop does not pass over, in order. */
  function Kept(order: seq<nat>, skip: seq<bool>): seq<nat>
    requires Utils.InRange(order, |skip|)
  {
    if order == [] then []
    else
      var n := |order| - 1;
      PrefixInRange(order, |skip|, n);
      Kept(order[..n], skip) + (if skip[order[n]] then [] else [order[n]])
  }

  /** How many the loop appends at most, starting from `have` taken: it appends first
      and compares with `num_example` afterwards, so always at least one. */
  function Room(num: nat, have: nat): (r: nat)
    ensures 1 <= r && (have < num ==> have + r == num)
  {
    if have < num then num - have else 1
  }

  /** What the loop returns when it starts from `top`: `top` followed by the first
      `Room` kept candidates. */
  function Selected(order: seq<nat>, skip: seq<bool>, num: nat, top: seq<nat>): seq<nat>
    requires Utils.InRange(order, |skip|)
  {
    var ks, room := Kept(order, skip), Room(num, |top|);
    top + (if |ks| <= room then ks else ks[..room])
  }

  lemma KeptSnoc(order: seq<nat>, skip: seq<bool>, i: nat)
    requires Utils.InRange(order, |skip|) && i < |order|
    ensures Utils.InRange(order[..i], |skip|) && Utils.InRange(order[..i + 1], |skip|)
    ensures Kept(order[..i + 1], skip) == Kept(order[..i], skip) + (if skip[order[i]] then [] else [order[i]])
  {
    PrefixInRange(order, |skip|, i);
    PrefixInRange(order, |skip|, i + 1);
    var longer := order[..i + 1];
    assert longer[..i] == order[..i] && longer[i] == order[i];
  }

  /** Looking at a prefix of the order keeps a prefix of what the whole order keeps. */
  lemma {:induction false} KeptPrefix(order: seq<nat>, skip: seq<bool>, i: nat)
    requires Utils.InRange(order, |skip|) && i <= |order|
    ensures Utils.InRange(order[..i], |skip|)
    ensures var p, ks := Kept(order[..i], skip), Kept(order, skip);
      |p| <= |ks| && ks[..|p|] == p
    decreases |order|
  {
    PrefixInRange(order, |skip|, i);
    if i < |order| {
      var n := |order| - 1;
      var init := order[..n];
      KeptPrefix(init, skip, i);
      assert init[..i] == order[..i];
      var p, q := Kept(order[..i], skip), Kept(init, skip);
      assert Kept(order, skip)[..|q|] == q;
      assert Kept(order, skip)[..|p|] == q[..|p|];
    } else {
      assert order[..i] == order;
    }
  }

  /** The kept candidates are candidates of the order the loop does not pass over, and
      every such candidate is kept. */
  lemma {:induction false} KeptMembers(order: seq<nat>, skip: seq<bool>)
    requires Utils.InRange(order, |skip|)
    ensures var ks := Kept(order, skip);
      && Utils.InRange(ks, |skip|)
      && (forall k | 0 <= k < |ks| :: ks[k] in order && !skip[ks[k]])
      && (forall j | 0 <= j < |order| && !skip[order[j]] :: order[j] in ks)
  {
    if order != [] {
      var n := |order| - 1;
      var init := order[..n];
      KeptMembers(init, skip);
      var ks, before := Kept(order, skip), Kept(init, skip);
      forall k | 0 <= k < |ks| ensures ks[k] in order && !skip[ks[k]] && ks[k] < |skip| {
        if k < |before| {
          assert ks[k] == before[k];
        }
      }
      forall j | 0 <= j < |order| && !skip[order[j]] ensures order[j] in ks {
        if j < n {
          assert init[j] == order[j];
        }
      }
    }
  }

  /** A candidate appears once in the order, so it is kept at most once. */
  lemma {:induction false} KeptDistinct(order: seq<nat>, skip: seq<bool>)
    requires Utils.InRange(order, |skip|) && Utils.Distinct(order)
    ensures Utils.Distinct(Kept(order, skip))
  {
    if order != [] {
      var n := |order| - 1;
      var init := order[..n];
      KeptDistinct(init, skip);
      KeptMembers(init, skip);
      var before := Kept(init, skip);
      assert order[n] !in init;
      assert order[n] !in before;
    }
  }

  /** The kept candidates keep the order's key order. */
  lemma {:induction false} KeptSorted(order: seq<nat>, skip: seq<bool>, keys: seq<real>, reverse: bool)
    requires Utils.InRange(order, |skip|) && Utils.InRange(order, |keys|) && SortedBy(keys, order, reverse)
    ensures Utils.InRange(Kept(order, skip), |keys|) && SortedBy(keys, Kept(order, skip), reverse)
  {
    if order != [] {
      var n := |order| - 1;
      var init := order[..n];
      KeptSorted(init, skip, keys, reverse);
      KeptMembers(init, skip);
      var ks, before := Kept(order, skip), Kept(init, skip);
      forall k | 0 <= k < |before|
        ensures if reverse then keys[order[n]] <= keys[before[k]] else keys[before[k]] <= keys[order[n]]
      {
        var j :| 0 <= j < n && init[j] == before[k];
        assert order[j] == before[k];
      }
      forall k | 0 <= k < |ks| ensures ks[k] < |keys| {
        if k < |before| {
          assert ks[k] == before[k];
        }
      }
    }
  }

  /** The loop of every `get_examples` over the sorted pairs: pass over the candidates
      `skip` marks, append the others to `top`, and break as soon as `top` holds
      `num_example`. */
  method SelectLoop(order: seq<nat>, skip: seq<bool>, num: nat, top0: seq<nat>) returns (top: seq<nat>)
    requires Utils.InRange(order, |skip|)
    ensures top == Selected(order, skip, num, top0)
  {
    top := top0;
    var room := Room(num, |top0|);
    for i := 0 to |order|
      invariant Utils.InRange(order[..i], |skip|)
      invariant top == top0 + Kept(order[..i], skip)
      invariant |Kept(order[..i], skip)| < room
      invariant room == Room(num, |top0|)
    {
      var index := order[i];
      KeptSnoc(order, skip, i);
      if skip[index] {
        continue;
      }
      top := top + [index];
      if |top| >= num {
        BreakSelects(order, skip, num, top0, i + 1);
        return;
      }
    }
    assert order[..|order|] == order;
  }

  /** Breaking once `Room` candidates are kept returns what `Selected` describes. */
  lemma BreakSelects(order: seq<nat>, skip: seq<bool>, num: nat, top0: seq<nat>, i: nat)
    requires Utils.InRange(order, |skip|) && i <= |order|
    requires Utils.InRange(order[..i], |skip|) && |Kept(order[..i], skip)| == Room(num, |top0|)
    ensures top0 + Kept(order[..i], skip) == Selected(order, skip, num, top0)
  {
    KeptPrefix(order, skip, i);
  }

  /** No candidate left out of `picks` (and not passed over) has a better key than a
      pick: none is nearer (more similar, when `reverse`). */
  predicate Nearest(picks: seq<nat>, skip: seq<bool>, keys: seq<real>, reverse: bool)
    requires |skip| == |keys| && Utils.InRange(picks, |keys|)
  {
    forall i, k | 0 <= i < |keys| && !skip[i] && i !in picks && 0 <= k < |picks| ::
      if reverse then keys[i] <= keys[picks[k]] else keys[picks[k]] <= keys[i]
  }

  /** What one pass of the loop may add, with room for `room`: candidates in key
      order, none passed over, none twice, none worse than a candidate left out, at
      most `room` of them, and fewer only when nothing else was left. */
  predicate Pass(added: seq<nat>, skip: seq<bool>, keys: seq<real>, reverse: bool, room: nat)
    requires |skip| == |keys|
  {
    && Utils.InRange(added, |keys|) && Utils.Distinct(added) && SortedBy(keys, added, reverse)
    && (forall k | 0 <= k < |added| :: !skip[added[k]])
    && Nearest(added, skip, keys, reverse)
    && |added| <= room
    && (|added| < room ==> forall i | 0 <= i < |keys| && !skip[i] :: i in added)
  }

  /** Over a whole sort, the kept candidates are in key order, none twice, none passed
      over, and every candidate not passed over is kept. */
  lemma KeptOfSort(order: seq<nat>, skip: seq<bool>, keys: seq<real>, reverse: bool)
    requires IsSortOf(order, keys, reverse) && |skip| == |keys|
    ensures var ks := Kept(order, skip);
      && Utils.InRange(ks, |keys|) && Utils.Distinct(ks) && SortedBy(keys, ks, reverse)
      && (forall k | 0 <= k < |ks| :: !skip[ks[k]])
      && (forall i | 0 <= i < |keys| && !skip[i] :: i in ks)
  {
    KeptMembers(order, skip);
    KeptDistinct(order, skip);
    KeptSorted(order, skip, keys, reverse);
    var ks := Kept(order, skip);
    forall i | 0 <= i < |keys| && !skip[i] ensures i in ks {
      assert i in order;
      var j :| 0 <= j < |order| && order[j] == i;
    }
  }

  /** A prefix keeps order, distinctness and what was passed over. */
  lemma PrefixOf(ks: seq<nat>, skip: seq<bool>, keys: seq<real>, reverse: bool, m: nat)
    requires |skip| == |keys| && m <= |ks|
    requires Utils.InRange(ks, |keys|) && Utils.Distinct(ks) && SortedBy(keys, ks, reverse)
    requires forall k | 0 <= k < |ks| :: !skip[ks[k]]
    ensures var p := ks[..m];
      && Utils.InRange(p, |keys|) && Utils.Distinct(p) && SortedBy(keys, p, reverse)
      && (forall k | 0 <= k < |p| :: !skip[p[k]])
  {
    var p := ks[..m];
    assert forall k | 0 <= k < m :: p[k] == ks[k];
  }

  /** One pass of the loop, started from `top0`, keeps `top0` and adds a `Pass`. */
  lemma AddedMeans(order: seq<nat>, skip: seq<bool>, keys: seq<real>, reverse: bool, num: nat, top0: seq<nat>)
    requires IsSortOf(order, keys, reverse) && |skip| == |keys|
    ensures var s := Selected(order, skip, num, top0);
      && |top0| <= |s| && s[..|top0|] == top0
      && Pass(s[|top0|..], skip, keys, reverse, Room(num, |top0|))
  {
    var ks, room := Kept(order, skip), Room(num, |top0|);
    KeptOfSort(order, skip, keys, reverse);
    var s := Selected(order, skip, num, top0);
    var added := if |ks| <= room then ks else ks[..room];
    assert s[|top0|..] == added && s[..|top0|] == top0;
    if room < |ks| {
      PrefixOf(ks, skip, keys, reverse, room);
      PrefixNearest(ks, skip, keys, reverse, room);
    }
  }

  /** Cut from a sorted list holding every candidate not passed over, a prefix is
      nearest: whatever it leaves out sits later in the list. */
  lemma PrefixNearest(ks: seq<nat>, skip: seq<bool>, keys: seq<real>, reverse: bool, m: nat)
    requires |skip| == |keys| && m <= |ks|
    requires Utils.InRange(ks, |keys|) && SortedBy(keys, ks, reverse)
    requires forall i | 0 <= i < |keys| && !skip[i] :: i in ks
    ensures Utils.InRange(ks[..m], |keys|) && Nearest(ks[..m], skip, keys, reverse)
  {
    var p := ks[..m];
    assert forall k | 0 <= k < m :: p[k] == ks[k];
    forall i, k | 0 <= i < |keys| && !skip[i] && i !in p && 0 <= k < |p|
      ensures if reverse then keys[i] <= keys[p[k]] else keys[p[k]] <= keys[i]
    {
      var j :| 0 <= j < |ks| && ks[j] == i;
      if j < m {
        assert p[j] == i;
      }
    }
  }

  // ---------------------------------------------------------------------------
  // The selectors

  /** In cross-domain mode, the candidates of the target's database are passed over. */
  function SameDb(train: seq<TrainItem>, dbId: string, crossDomain: bool): (skip: seq<bool>)
    ensures |skip| == |train|
  {
    seq(|train|, i requires 0 <= i < |train| => crossDomain && train[i].dbId == dbId)
  }

  /** Fewer than `num_example` only when every candidate not passed over was taken. */
  predicate Exhausted(top: seq<nat>, skip: seq<bool>, num: nat) {
    |top| < num ==> forall i | 0 <= i < |skip| && !skip[i] :: i in top
  }

  /** `EuclideanDistanceExampleSelector.get_examples` (and the question-mask and
      skeleton-plus variants, which differ only in their keys): the nearest examples,
      nearest first. */
  method DistanceExamples(train: seq<TrainItem>, distances: seq<real>, order: seq<nat>,
                          target: TrainItem, num: nat, crossDomain: bool)
    returns (top: seq<nat>, examples: seq<TrainItem>)
    requires |distances| == |train| && IsSortOf(order, distances, false)
    ensures Utils.InRange(top, |train|) && examples == PromptIcl.Chosen(train, top)
    ensures |top| <= Room(num, 0) && Utils.Distinct(top) && SortedBy(distances, top, false)
    ensures crossDomain ==> forall k | 0 <= k < |top| :: train[top[k]].dbId != target.dbId
    ensures Exhausted(top, SameDb(train, target.dbId, crossDomain), num)
    ensures Nearest(top, SameDb(train, target.dbId, crossDomain), distances, false)
    ensures top == Selected(order, SameDb(train, target.dbId, crossDomain), num, [])
  {
    var skip := SameDb(train, target.dbId, crossDomain);
    top := SelectLoop(order, skip, num, []);
    AddedMeans(order, skip, distances, false, num, []);
    assert top[0..] == top;
    examples := PromptIcl.Chosen(train, top);
  }

  /** Passed over by the cosine selector: another database's rule as above, and any
      example whose question is the target's. */
  function SameDbOrQuestion(train: seq<TrainItem>, target: TrainItem, crossDomain: bool): (skip: seq<bool>)
    ensures |skip| == |train|
  {
    seq(|train|, i requires 0 <= i < |train| =>
      (crossDomain && train[i].dbId == target.dbId) || train[i].question == target.question)
  }

  /** `CosineSimilarExampleSelector.get_examples`: the most similar examples, most
      similar first, never the target's own question. */
  method CosineExamples(train: seq<TrainItem>, similarities: seq<real>, order: seq<nat>,
                        target: TrainItem, num: nat, crossDomain: bool)
    returns (top: seq<nat>, examples: seq<TrainItem>)
    requires |similarities| == |train| && IsSortOf(order, similarities, true)
    ensures Utils.InRange(top, |train|) && examples == PromptIcl.Chosen(train, top)
    ensures |top| <= Room(num, 0) && Utils.Distinct(top) && SortedBy(similarities, top, true)
    ensures forall k | 0 <= k < |top| ::
      train[top[k]].question != target.question && (crossDomain ==> train[top[k]].dbId != target.dbId)
    ensures Exhausted(top, SameDbOrQuestion(train, target, crossDomain), num)
    ensures Nearest(top, SameDbOrQuestion(train, target, crossDomain), similarities, true)
    ensures top == Selected(order, SameDbOrQuestion(train, target, crossDomain), num, [])
  {
    var skip := SameDbOrQuestion(train, target, crossDomain);
    top := SelectLoop(order, skip, num, []);
    AddedMeans(order, skip, similarities, true, num, []);
    assert top[0..] == top;
    examples := PromptIcl.Chosen(train, top);
  }

  /** Passed over by the threshold selector: another database's rule as above, and any
      example farther than `Threshold`. */
  function SameDbOrFar(train: seq<TrainItem>, distances: seq<real>, dbId: string, crossDomain: bool): (skip: seq<bool>)
    requires |distances| == |train|
    ensures |skip| == |train|
  {
    seq(|train|, i requires 0 <= i < |train| =>
      (crossDomain && train[i].dbId == dbId) || distances[i] > Threshold)
  }

  /** `EuclideanDistanceThresholdExampleSelector.get_examples`: the nearest examples
      within the threshold, nearest first. */
  method ThresholdExamples(train: seq<TrainItem>, distances: seq<real>, order: seq<nat>,
                           target: TrainItem, num: nat, crossDomain: bool)
    returns (top: seq<nat>, examples: seq<TrainItem>)
    requires |distances| == |train| && IsSortOf(order, distances, false)
    ensures Utils.InRange(top, |train|) && examples == PromptIcl.Chosen(train, top)
    ensures |top| <= Room(num, 0) && Utils.Distinct(top) && SortedBy(distances, top, false)
    ensures forall k | 0 <= k < |top| ::
      distances[top[k]] <= Threshold && (crossDomain ==> train[top[k]].dbId != target.dbId)
    ensures Exhausted(top, SameDbOrFar(train, distances, target.dbId, crossDomain), num)
    ensures Nearest(top, SameDbOrFar(train, distances, target.dbId, crossDomain), distances, false)
    ensures top == Selected(order, SameDbOrFar(train, distances, target.dbId, crossDomain), num, [])
  {
    var skip := SameDbOrFar(train, distances, target.dbId, crossDomain);
    top := SelectLoop(order, skip, num, []);
    AddedMeans(order, skip, distances, false, num, []);
    assert top[0..] == top;
    examples := PromptIcl.Chosen(train, top);
  }

  function Skeletons(train: seq<TrainItem>): (xs: seq<string>)
    ensures |xs| == |train|
  {
    seq(|train|, i requires 0 <= i < |train| => train[i].skeleton)
  }

  /** Passed over in the first (`high`) or second pass of the skeleton selectors:
      another database's rule as above, and a skeleton similarity on the wrong side of
      `Threshold`. */
  function SkeletonSkip(train: seq<TrainItem>, sims: seq<real>, dbId: string, crossDomain: bool, high: bool): (skip: seq<bool>)
    requires |sims| == |train|
    ensures |skip| == |train|
  {
    seq(|train|, i requires 0 <= i < |train| =>
      (crossDomain && train[i].dbId == dbId) || (if high then sims[i] < Threshold else sims[i] >= Threshold))
  }

  /** What the skeleton selectors promise of their picks `top`, given the skeleton
      similarity `sims` of each training example to the target: at most
      `num_example` (one when that is 0), none twice, none of the target's database in
      cross-domain mode, every similar pick before every dissimilar one, only similar
      picks without a second pass, and with one, fewer than `num_example` only when
      every example of another database was taken; and on each side of `Threshold`,
      the picks come nearest first and no example left out on that side is nearer
      than a pick on it. */
  predicate SkeletonPromise(train: seq<TrainItem>, sims: seq<real>, distances: seq<real>, dbId: string,
                            crossDomain: bool, num: nat, fill: bool, top: seq<nat>)
    requires |sims| == |train| == |distances| && Utils.InRange(top, |train|)
  {
    && |top| <= Room(num, 0) && Utils.Distinct(top)
    && (crossDomain ==> forall k | 0 <= k < |top| :: train[top[k]].dbId != dbId)
    && (forall k, l | 0 <= k < l < |top| :: sims[top[l]] >= Threshold ==> sims[top[k]] >= Threshold)
    && (!fill ==> forall k | 0 <= k < |top| :: sims[top[k]] >= Threshold)
    && (fill ==> Exhausted(top, SameDb(train, dbId, crossDomain), num))
    && (forall k, l | 0 <= k < l < |top| && (sims[top[k]] >= Threshold <==> sims[top[l]] >= Threshold) ::
          distances[top[k]] <= distances[top[l]])
    && (forall i, k | 0 <= i < |train| && !SameDb(train, dbId, crossDomain)[i] && i !in top && 0 <= k < |top|
                      && (sims[i] >= Threshold <==> sims[top[k]] >= Threshold) ::
          distances[top[k]] <= distances[i])
  }

  /** What the skeleton selectors return: the first pass over the similar examples,
      then, when `fill` is set and that left fewer than `num_example`, the second pass
      over the others. */
  function SkeletonSelected(train: seq<TrainItem>, sims: seq<real>, order: seq<nat>, dbId: string,
                            crossDomain: bool, num: nat, fill: bool): seq<nat>
    requires |sims| == |train| && Utils.InRange(order, |train|)
  {
    var first := Selected(order, SkeletonSkip(train, sims, dbId, crossDomain, true), num, []);
    if fill && |first| < num then Selected(order, SkeletonSkip(train, sims, dbId, crossDomain, false), num, first)
    else first
  }

  /** `EuclideanDistanceSkeletonSimilarThresholdSelector.get_examples` and its
      pre-skeleton variants: a first pass takes the nearest examples whose skeleton is
      at least `Threshold` similar to the target's; when that leaves fewer than
      `num_example` and `fill` is set, a second pass tops up with the others (the
      `...ThresholdShiftSelector` has no second pass). */
  method SkeletonExamples(train: seq<TrainItem>, distances: seq<real>, order: seq<nat>,
                          target: TrainItem, num: nat, crossDomain: bool, fill: bool)
    returns (top: seq<nat>, examples: seq<TrainItem>)
    requires |distances| == |train| && IsSortOf(order, distances, false)
    ensures Utils.InRange(top, |train|) && examples == PromptIcl.Chosen(train, top)
    ensures SkeletonPromise(train, PromptIcl.Similarities(Skeletons(train), target.skeleton), distances,
                            target.dbId, crossDomain, num, fill, top)
    ensures top == SkeletonSelected(train, PromptIcl.Similarities(Skeletons(train), target.skeleton), order,
                                    target.dbId, crossDomain, num, fill)
  {
    var sims := PromptIcl.SimilarityRow(Skeletons(train), target.skeleton);
    var high := SkeletonSkip(train, sims, target.dbId, crossDomain, true);
    top := SelectLoop(order, high, num, []);
    AddedMeans(order, high, distances, false, num, []);
    assert top[0..] == top;
    if fill && |top| < num {
      var first := top;
      var low := SkeletonSkip(train, sims, target.dbId, crossDomain, false);
      top := SelectLoop(order, low, num, first);
      AddedMeans(order, low, distances, false, num, first);
      TwoPasses(train, sims, distances, target.dbId, crossDomain, num, first, top);
    } else {
      OnePass(train, sims, distances, target.dbId, crossDomain, num, fill, top);
    }
    examples := PromptIcl.Chosen(train, top);
  }

  /** The first pass alone: all its picks are similar; with a second pass skipped, it
      already holds `num_example`. */
  lemma OnePass(train: seq<TrainItem>, sims: seq<real>, distances: seq<real>, dbId: string, crossDomain: bool,
                num: nat, fill: bool, top: seq<nat>)
    requires |sims| == |train| == |distances|
    requires Pass(top, SkeletonSkip(train, sims, dbId, crossDomain, true), distances, false, Room(num, 0))
    requires fill ==> |top| >= num
    ensures Utils.InRange(top, |train|) && SkeletonPromise(train, sims, distances, dbId, crossDomain, num, fill, top)
  {
    var high := SkeletonSkip(train, sims, dbId, crossDomain, true);
    assert forall k | 0 <= k < |top| :: !high[top[k]];
    forall i, k | 0 <= i < |train| && !SameDb(train, dbId, crossDomain)[i] && i !in top && 0 <= k < |top|
                  && (sims[i] >= Threshold <==> sims[top[k]] >= Threshold)
      ensures distances[top[k]] <= distances[i]
    {
      assert !high[top[k]] && !high[i];
    }
  }

  /** The two passes together: the first pass's picks, all similar, then the second's,
      all dissimilar, so nothing twice, similar ones first, each side nearest first
      and nearest of its side, and fewer than `num_example` only when every candidate
      of another database was taken. */
  lemma TwoPasses(train: seq<TrainItem>, sims: seq<real>, distances: seq<real>, dbId: string, crossDomain: bool, num: nat,
                  first: seq<nat>, top: seq<nat>)
    requires |sims| == |train| == |distances| && |first| <= |top| && top[..|first|] == first && |first| < num
    requires Pass(first, SkeletonSkip(train, sims, dbId, crossDomain, true), distances, false, Room(num, 0))
    requires Pass(top[|first|..], SkeletonSkip(train, sims, dbId, crossDomain, false), distances, false, Room(num, |first|))
    ensures Utils.InRange(top, |train|) && SkeletonPromise(train, sims, distances, dbId, crossDomain, num, true, top)
  {
    var low, added := SkeletonSkip(train, sims, dbId, crossDomain, false), top[|first|..];
    PassesSides(train, sims, distances, dbId, crossDomain, num, first, top);
    PassesOrder(train, sims, distances, dbId, crossDomain, num, first, top);
    PassesCover(train, sims, distances, dbId, crossDomain, num, first, top);
    forall i, k | 0 <= i < |train| && !SameDb(train, dbId, crossDomain)[i] && i !in top && 0 <= k < |top|
                  && (sims[i] >= Threshold <==> sims[top[k]] >= Threshold)
      ensures distances[top[k]] <= distances[i]
    {
      if sims[i] < Threshold {
        assert !low[i] && top[k] == added[k - |first|];
      }
    }
  }

  /** Each pick of the two passes is in range, of another database in cross-domain
      mode, and similar exactly when the first pass took it. */
  lemma PassesSides(train: seq<TrainItem>, sims: seq<real>, distances: seq<real>, dbId: string, crossDomain: bool, num: nat,
                    first: seq<nat>, top: seq<nat>)
    requires |sims| == |train| == |distances| && |first| <= |top| && top[..|first|] == first
    requires Pass(first, SkeletonSkip(train, sims, dbId, crossDomain, true), distances, false, Room(num, 0))
    requires Pass(top[|first|..], SkeletonSkip(train, sims, dbId, crossDomain, false), distances, false, Room(num, |first|))
    ensures Utils.InRange(top, |train|)
    ensures forall k | 0 <= k < |top| ::
      && !(crossDomain && train[top[k]].dbId == dbId)
      && (k < |first| <==> sims[top[k]] >= Threshold)
  {
    var added := top[|first|..];
    forall k | 0 <= k < |top|
      ensures top[k] < |train| && !(crossDomain && train[top[k]].dbId == dbId)
      ensures k < |first| <==> sims[top[k]] >= Threshold
    {
      if k < |first| {
        assert top[k] == first[k];
      } else {
        assert top[k] == added[k - |first|];
      }
    }
  }

  /** The two passes pick nothing twice, and each comes nearest first. */
  lemma PassesOrder(train: seq<TrainItem>, sims: seq<real>, distances: seq<real>, dbId: string, crossDomain: bool, num: nat,
                    first: seq<nat>, top: seq<nat>)
    requires |sims| == |train| == |distances| && |first| <= |top| && top[..|first|] == first
    requires Pass(first, SkeletonSkip(train, sims, dbId, crossDomain, true), distances, false, Room(num, 0))
    requires Pass(top[|first|..], SkeletonSkip(train, sims, dbId, crossDomain, false), distances, false, Room(num, |first|))
    requires forall k | 0 <= k < |top| :: k < |first| <==> sims[top[k]] >= Threshold
    ensures Utils.Distinct(top)
    ensures forall k, l | 0 <= k < l < |top| && (sims[top[k]] >= Threshold <==> sims[top[l]] >= Threshold) ::
      distances[top[k]] <= distances[top[l]]
  {
    var added := top[|first|..];
    forall k, l | 0 <= k < l < |top| ensures top[k] != top[l] {
      if l < |first| {
        assert top[k] == first[k] && top[l] == first[l];
      } else if |first| <= k {
        assert top[k] == added[k - |first|] && top[l] == added[l - |first|];
      }
    }
    forall k, l | 0 <= k < l < |top| && (sims[top[k]] >= Threshold <==> sims[top[l]] >= Threshold)
      ensures distances[top[k]] <= distances[top[l]]
    {
      if l < |first| {
        assert top[k] == first[k] && top[l] == first[l];
      } else {
        assert top[k] == added[k - |first|] && top[l] == added[l - |first|];
      }
    }
  }

  /** A first pass that fell short took every similar candidate; the second pass's
      picks are picks; and when the two fall short, every candidate was taken. */
  lemma PassesCover(train: seq<TrainItem>, sims: seq<real>, distances: seq<real>, dbId: string, crossDomain: bool, num: nat,
                    first: seq<nat>, top: seq<nat>)
    requires |sims| == |train| == |distances| && |first| <= |top| && top[..|first|] == first && |first| < num
    requires Pass(first, SkeletonSkip(train, sims, dbId, crossDomain, true), distances, false, Room(num, 0))
    requires Pass(top[|first|..], SkeletonSkip(train, sims, dbId, crossDomain, false), distances, false, Room(num, |first|))
    ensures forall i | 0 <= i < |train| && !SameDb(train, dbId, crossDomain)[i] && sims[i] >= Threshold :: i in top
    ensures forall j | 0 <= j < |top| - |first| :: top[|first|..][j] in top
    ensures Exhausted(top, SameDb(train, dbId, crossDomain), num)
  {
    var high, low, added := SkeletonSkip(train, sims, dbId, crossDomain, true),
                            SkeletonSkip(train, sims, dbId, crossDomain, false), top[|first|..];
    forall i | 0 <= i < |train| && !SameDb(train, dbId, crossDomain)[i] && sims[i] >= Threshold ensures i in top {
      assert !high[i];
      var j :| 0 <= j < |first| && first[j] == i;
      assert top[j] == i;
    }
    forall j | 0 <= j < |added| ensures added[j] in top {
      assert top[|first| + j] == added[j];
    }
    if |top| < num {
      forall i | 0 <= i < |train| && !SameDb(train, dbId, crossDomain)[i] && sims[i] < Threshold ensures i in top {
        assert !low[i];
        var k :| 0 <= k < |added| && added[k] == i;
      }
    }
  }
}
