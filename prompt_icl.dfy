/** In-context prompt assembly (`prompt/PromptICLTemplate.py`): the greedy packing of
    example texts in front of the target under a token budget, and the bookkeeping of
    how similar the chosen examples are to the target. The token counter, the example
    and target formatting and the example selector are parameters. Similarities are
    exact rationals rather than floats. */
module PromptIcl {
  import opened Wrappers
  import opened Text
  import Utils

  /** The fields of an example or target record that the prompt reads. */
  datatype Example = Example(question: string, dbId: string, query: string,
                             querySkeleton: string, questionPattern: string)

  /** What `format` returns. */
  datatype Prompt = Prompt(promptTokens: nat, prompt: string, response: string,
                           nExamples: nat, dbId: string)

  /** `SEP_EXAMPLE` */
  const SepExample := "\n\n"

  // ---------------------------------------------------------------------------
  // Similarities

  /** A ratio of naturals no larger than its positive denominator lies in [0, 1], and
      is 1 exactly when the two agree. */
  lemma RatioInUnit(n: nat, d: nat)
    requires 1 <= d && n <= d
    ensures 0.0 <= n as real / d as real <= 1.0
    ensures n as real / d as real == 1.0 <==> n == d
  {
    var q := n as real / d as real;
    assert q * d as real == n as real;
  }

  /** The intersection and union sizes of the two skeletons' token bags. */
  function JaccardParts(a: string, b: string): (p: (nat, nat))
    ensures 1 <= p.1 && p.0 <= p.1
  {
    var t1, t2 := Utils.SkeletonTokens(a), Utils.SkeletonTokens(b);
    var inter := |multiset(t1) * multiset(t2)|;
    Utils.JaccardRange(t1, t2);
    (inter, |t1| + |t2| - inter)
  }

  /** `jaccard_similarity(a, b)`: the size of the common sub-bag of the two skeletons'
      tokens over the size of their union. */
  function Similarity(a: string, b: string): (x: real)
    ensures 0.0 <= x <= 1.0
  {
    var p := JaccardParts(a, b);
    RatioInUnit(p.0, p.1);
    p.0 as real / p.1 as real
  }

  /** The similarity is symmetric. */
  lemma SimilaritySymmetric(a: string, b: string)
    ensures Similarity(a, b) == Similarity(b, a)
  {
    var t1, t2 := Utils.SkeletonTokens(a), Utils.SkeletonTokens(b);
    Utils.JaccardRange(t1, t2);
    var i1, i2 := |multiset(t1) * multiset(t2)|, |multiset(t2) * multiset(t1)|;
    assert i1 == i2;
    assert JaccardParts(a, b) == (i1, |t1| + |t2| - i1);
    assert JaccardParts(b, a) == (i2, |t2| + |t1| - i2);
  }

  /** The similarity is 1 exactly when the two token bags agree. */
  lemma SimilarityOne(a: string, b: string)
    ensures Similarity(a, b) == 1.0 <==>
      multiset(Utils.SkeletonTokens(a)) == multiset(Utils.SkeletonTokens(b))
  {
    Utils.JaccardOne(Utils.SkeletonTokens(a), Utils.SkeletonTokens(b));
    var p := JaccardParts(a, b);
    RatioInUnit(p.0, p.1);
  }

  /** The score of each string, in order. */
  function Scores(score: string -> real, xs: seq<string>): (row: seq<real>)
    ensures |row| == |xs|
  {
    seq(|xs|, k requires 0 <= k < |xs| => score(xs[k]))
  }

  lemma ScoresSnoc(score: string -> real, xs: seq<string>, i: nat)
    requires i < |xs|
    ensures Scores(score, xs[..i + 1]) == Scores(score, xs[..i]) + [score(xs[i])]
  {
    var longer, shorter := Scores(score, xs[..i + 1]), Scores(score, xs[..i]);
    forall k | 0 <= k < i + 1
      ensures longer[k] == (shorter + [score(xs[i])])[k]
    {
      assert xs[..i + 1][k] == xs[k];
      if k < i {
        assert xs[..i][k] == xs[k];
      }
    }
  }

  /** Similarity to `target`, as a score. */
  function SimilarityTo(target: string): (score: string -> real)
    ensures forall x :: 0.0 <= score(x) <= 1.0
  {
    x => Similarity(x, target)
  }

  /** The similarity of each string to `target`, in order. */
  function Similarities(xs: seq<string>, target: string): (row: seq<real>)
    ensures |row| == |xs| && InUnit(row)
  {
    Scores(SimilarityTo(target), xs)
  }

  lemma SimilaritiesSnoc(xs: seq<string>, target: string, i: nat)
    requires i < |xs|
    ensures Similarities(xs[..i + 1], target) == Similarities(xs[..i], target) + [Similarity(xs[i], target)]
  {
    ScoresSnoc(SimilarityTo(target), xs, i);
  }

  /** The loop of `record_example_quality` / `record_pattern_similarity`: one
      similarity per example, in order. */
  method SimilarityRow(xs: seq<string>, target: string) returns (row: seq<real>)
    ensures row == Similarities(xs, target)
  {
    row := [];
    for i := 0 to |xs|
      invariant row == Similarities(xs[..i], target)
    {
      var x := SimilarityOf(xs[i], target);
      SimilaritiesSnoc(xs, target, i);
      row := row + [x];
    }
    assert xs[..|xs|] == xs;
  }

  /** One call of `jaccard_similarity`. */
  method SimilarityOf(a: string, b: string) returns (x: real)
    ensures x == Similarity(a, b)
  {
    var inter, union := Utils.JaccardSimilarity(a, b);
    assert (inter, union) == JaccardParts(a, b);
    x := inter as real / union as real;
  }

  function Skeletons(es: seq<Example>): (xs: seq<string>)
    ensures |xs| == |es|
  {
    seq(|es|, k requires 0 <= k < |es| => es[k].querySkeleton)
  }

  function Patterns(es: seq<Example>): (xs: seq<string>)
    ensures |xs| == |es|
  {
    seq(|es|, k requires 0 <= k < |es| => es[k].questionPattern)
  }

  // ---------------------------------------------------------------------------
  // Means

  function Sum(xs: seq<real>): real {
    if xs == [] then 0.0 else Sum(xs[..|xs| - 1]) + xs[|xs| - 1]
  }

  /** `[num for row in rows for num in row]` */
  function Flatten(rows: seq<seq<real>>): (xs: seq<real>) {
    if rows == [] then [] else Flatten(rows[..|rows| - 1]) + rows[|rows| - 1]
  }

  predicate InUnit(xs: seq<real>) {
    forall k | 0 <= k < |xs| :: 0.0 <= xs[k] <= 1.0
  }

  predicate RowsInUnit(rows: seq<seq<real>>) {
    forall r | 0 <= r < |rows| :: InUnit(rows[r])
  }

  lemma {:induction false} SumInUnit(xs: seq<real>)
    requires InUnit(xs)
    ensures 0.0 <= Sum(xs) <= |xs| as real
  {
    if xs != [] {
      SumInUnit(xs[..|xs| - 1]);
    }
  }

  /** Flattening keeps every entry of every row, and only those. */
  lemma {:induction false} FlattenMeans(rows: seq<seq<real>>)
    ensures RowsInUnit(rows) ==> InUnit(Flatten(rows))
    ensures Flatten(rows) == [] <==> forall r | 0 <= r < |rows| :: rows[r] == []
  {
    if rows != [] {
      var init := rows[..|rows| - 1];
      FlattenMeans(init);
      assert forall r | 0 <= r < |init| :: init[r] == rows[r];
      var f := Flatten(rows);
      if RowsInUnit(rows) {
        var last := rows[|rows| - 1];
        assert InUnit(last);
        forall k | 0 <= k < |f| ensures 0.0 <= f[k] <= 1.0 {
          if k >= |Flatten(init)| {
            assert f[k] == last[k - |Flatten(init)|];
          } else {
            assert f[k] == Flatten(init)[k];
          }
        }
      }
    }
  }

  /** `get_example_quality` / `get_pattern_similarity`: 1 with nothing recorded,
      otherwise the mean of every recorded entry; `None` is the NaN that `np.mean`
      gives when every recorded list is empty. */
  function MeanOrOne(rows: seq<seq<real>>): (q: Option<real>)
    ensures rows == [] ==> q == Some(1.0)
    ensures q.None? <==> rows != [] && forall r | 0 <= r < |rows| :: rows[r] == []
    ensures RowsInUnit(rows) && q.Some? ==> 0.0 <= q.value <= 1.0
  {
    FlattenMeans(rows);
    var f := Flatten(rows);
    if rows == [] then Some(1.0)
    else if f == [] then None
    else
      SumInUnitIf(f);
      Some(Sum(f) / |f| as real)
  }

  /** The mean of entries in [0, 1] is in [0, 1]. */
  lemma SumInUnitIf(f: seq<real>)
    requires f != []
    ensures InUnit(f) ==> 0.0 <= Sum(f) / |f| as real <= 1.0
  {
    if InUnit(f) {
      SumInUnit(f);
    }
  }

  // ---------------------------------------------------------------------------
  // Greedy packing

  /** What the packing loop works with: the token counter, the prefix and the target
      text, the formatted example texts, the example limit and the budget. */
  datatype Budget = Budget(count: string -> nat, prefix: string, promptTarget: string,
                           formats: seq<string>, limit: nat, maxSeqLen: int, maxAnsLen: int)

  /** The texts of the chosen examples, in order. */
  function Texts(formats: seq<string>, ids: seq<nat>): (ts: seq<string>)
    requires forall k | 0 <= k < |ids| :: ids[k] < |formats|
    ensures |ts| == |ids|
  {
    seq(|ids|, k requires 0 <= k < |ids| => formats[ids[k]])
  }

  /** The prompt with the chosen examples in front of the target. */
  function WithExamples(b: Budget, ids: seq<nat>): string
    requires Utils.InRange(ids, |b.formats|)
  {
    b.prefix + Join(SepExample, Texts(b.formats, ids) + [b.promptTarget])
  }

  /** Example `j` fits after the examples `ids`: `forward_tokens + max_ans_len <= max_seq_len`. */
  predicate Fits(b: Budget, ids: seq<nat>, j: nat) {
    && Utils.InRange(ids, |b.formats|) && j < |b.formats|
    && b.count(WithExamples(b, ids + [j])) + b.maxAnsLen <= b.maxSeqLen
  }

  /** The budget test as a value, for the packing loop below. */
  function FitsOf(b: Budget): (seq<nat>, nat) -> bool {
    (ids: seq<nat>, j: nat) => Fits(b, ids, j)
  }

  /** The loop state: the chosen indices, and whether the loop has broken out. */
  datatype Packing = Packing(picked: seq<nat>, done: bool)

  /** The state after the loop has looked at the first `n` candidates: a candidate for
      which `fits` holds is taken, and the loop stops once `limit` are taken. */
  function PackUpTo(fits: (seq<nat>, nat) -> bool, limit: nat, n: nat): (p: Packing)
  {
    if n == 0 then Packing([], false)
    else
      var p := PackUpTo(fits, limit, n - 1);
      if p.done then p
      else if fits(p.picked, n - 1) then
        var q := p.picked + [n - 1];
        Packing(q, |q| >= limit)
      else p
  }

  /** Only candidates the loop has looked at are chosen. */
  lemma {:induction false} PackInRange(fits: (seq<nat>, nat) -> bool, limit: nat, n: nat)
    ensures Utils.InRange(PackUpTo(fits, limit, n).picked, n)
  {
    if n > 0 {
      PackInRange(fits, limit, n - 1);
    }
  }

  /** Once the loop has broken out, looking further changes nothing. */
  lemma {:induction false} DoneSticks(fits: (seq<nat>, nat) -> bool, limit: nat, n: nat, m: nat)
    requires n <= m && PackUpTo(fits, limit, n).done
    ensures PackUpTo(fits, limit, m) == PackUpTo(fits, limit, n)
    decreases m - n
  {
    if n < m {
      DoneSticks(fits, limit, n, m - 1);
    }
  }

  /** The chosen candidates keep their order. */
  lemma {:induction false} PackIncreasing(fits: (seq<nat>, nat) -> bool, limit: nat, n: nat)
    ensures Utils.Increasing(PackUpTo(fits, limit, n).picked)
  {
    if n > 0 {
      PackIncreasing(fits, limit, n - 1);
      PackInRange(fits, limit, n - 1);
    }
  }

  /** Each of `ids` passes `fits` after the ones before it. */
  predicate AllFit(fits: (seq<nat>, nat) -> bool, ids: seq<nat>) {
    forall k | 0 <= k < |ids| :: fits(ids[..k], ids[k])
  }

  /** Each chosen candidate passed `fits` after the ones chosen before it. */
  lemma {:induction false} PackFits(fits: (seq<nat>, nat) -> bool, limit: nat, n: nat)
    ensures AllFit(fits, PackUpTo(fits, limit, n).picked)
  {
    if n > 0 {
      PackFits(fits, limit, n - 1);
      var p := PackUpTo(fits, limit, n - 1);
      if !p.done && fits(p.picked, n - 1) {
        var q := p.picked + [n - 1];
        forall k | 0 <= k < |q| ensures fits(q[..k], q[k]) {
          if k < |p.picked| {
            assert q[..k] == p.picked[..k] && q[k] == p.picked[k];
            assert fits(p.picked[..k], p.picked[k]);
          } else {
            assert q[..k] == p.picked && q[k] == n - 1;
          }
        }
      }
    }
  }

  /** At most `limit` candidates are chosen (when `limit` is at least 1), and the loop
      has broken out exactly when `limit` are chosen. */
  lemma {:induction false} PackCount(fits: (seq<nat>, nat) -> bool, limit: nat, n: nat)
    ensures var p := PackUpTo(fits, limit, n);
      && (limit >= 1 ==> |p.picked| <= limit)
      && (p.done <==> |p.picked| >= limit && p.picked != [])
  {
    if n > 0 {
      PackCount(fits, limit, n - 1);
    }
  }

  /** Looking further only appends candidates numbered at least `n`. */
  lemma {:induction false} PackGrows(fits: (seq<nat>, nat) -> bool, limit: nat, n: nat, m: nat)
    requires n <= m
    ensures var p, q := PackUpTo(fits, limit, n).picked, PackUpTo(fits, limit, m).picked;
      |p| <= |q| && q[..|p|] == p && forall k | |p| <= k < |q| :: n <= q[k]
    decreases m - n
  {
    if n < m {
      PackGrows(fits, limit, n, m - 1);
    }
  }

  /** One step of the loop, from the state after candidate `i`. */
  lemma PackStep(fits: (seq<nat>, nat) -> bool, limit: nat, i: nat, picked: seq<nat>)
    requires PackUpTo(fits, limit, i) == Packing(picked, false)
    ensures fits(picked, i) ==> PackUpTo(fits, limit, i + 1) == Packing(picked + [i], |picked| + 1 >= limit)
    ensures !fits(picked, i) ==> PackUpTo(fits, limit, i + 1) == Packing(picked, false)
  {
  }

  /** Greedy: a candidate the loop reaches ends up chosen exactly when it passes `fits`
      after the candidates chosen before it. */
  lemma VisitedTakenIffFits(fits: (seq<nat>, nat) -> bool, limit: nat, n: nat, j: nat)
    requires j < n && !PackUpTo(fits, limit, j).done
    ensures j in PackUpTo(fits, limit, n).picked <==> fits(PackUpTo(fits, limit, j).picked, j)
  {
    var p, q, all := PackUpTo(fits, limit, j).picked, PackUpTo(fits, limit, j + 1).picked,
                     PackUpTo(fits, limit, n).picked;
    PackGrows(fits, limit, j + 1, n);
    PackStep(fits, limit, j, p);
    PackInRange(fits, limit, j);
    if j in all {
      var k :| 0 <= k < |all| && all[k] == j;
      assert k < |q|;
      assert q[k] == j && j !in p;
    }
    assert fits(p, j) ==> all[|p|] == j;
  }

  /** After breaking out at `n`, nothing more is chosen and no later candidate is
      reached. */
  lemma StopsAfter(fits: (seq<nat>, nat) -> bool, limit: nat, n: nat, m: nat, picked: seq<nat>)
    requires n <= m && PackUpTo(fits, limit, n) == Packing(picked, true)
    ensures PackUpTo(fits, limit, m).picked == picked
    ensures forall j | n <= j < m :: PackUpTo(fits, limit, j).done
  {
    DoneSticks(fits, limit, n, m);
    forall j | n <= j < m ensures PackUpTo(fits, limit, j).done {
      DoneSticks(fits, limit, n, j);
    }
  }

  /** The examples `format` keeps, by index. */
  function Picked(b: Budget): (ids: seq<nat>)
    ensures Utils.InRange(ids, |b.formats|)
  {
    PackInRange(FitsOf(b), b.limit, |b.formats|);
    PackUpTo(FitsOf(b), b.limit, |b.formats|).picked
  }

  /** Whether the loop reaches example `j` (and so checks its database id). */
  predicate Visits(b: Budget, j: nat) {
    !PackUpTo(FitsOf(b), b.limit, j).done
  }

  /** What `format` promises of the examples it keeps: their order is the selector's,
      each fitted the budget together with the ones kept before it, there are at most
      `NUM_EXAMPLE` of them, and an example the loop reached was kept exactly when it
      fitted. */
  lemma PickedMeans(b: Budget)
    requires b.limit >= 1
    ensures var ids := Picked(b);
      && Utils.Increasing(ids) && |ids| <= b.limit
      && (forall k | 0 <= k < |ids| :: Fits(b, ids[..k], ids[k]))
      && (forall j | 0 <= j < |b.formats| && Visits(b, j) ::
            j in ids <==> Fits(b, PackUpTo(FitsOf(b), b.limit, j).picked, j))
  {
    PackIncreasing(FitsOf(b), b.limit, |b.formats|);
    PackFits(FitsOf(b), b.limit, |b.formats|);
    PackCount(FitsOf(b), b.limit, |b.formats|);
    forall j | 0 <= j < |b.formats| && Visits(b, j)
      ensures j in Picked(b) <==> Fits(b, PackUpTo(FitsOf(b), b.limit, j).picked, j)
    {
      VisitedTakenIffFits(FitsOf(b), b.limit, |b.formats|, j);
    }
  }

  /** The items at the chosen indices, in the order of the indices. */
  function Chosen<T>(items: seq<T>, ids: seq<nat>): (r: seq<T>)
    requires Utils.InRange(ids, |items|)
    ensures |r| == |ids|
  {
    seq(|ids|, k requires 0 <= k < |ids| => items[ids[k]])
  }

  lemma ChosenSnoc(examples: seq<Example>, formats: seq<string>, ids: seq<nat>, j: nat)
    requires Utils.InRange(ids, |examples|) && j < |examples| == |formats|
    ensures Chosen(examples, ids + [j]) == Chosen(examples, ids) + [examples[j]]
    ensures Texts(formats, ids + [j]) == Texts(formats, ids) + [formats[j]]
  {
  }

  /** The text the loop counts for example `j` is the prompt with `j` chosen too. */
  lemma ForwardText(b: Budget, ids: seq<nat>, j: nat)
    requires Utils.InRange(ids, |b.formats|) && j < |b.formats|
    ensures b.prefix + Join(SepExample, Texts(b.formats, ids) + [b.formats[j], b.promptTarget])
         == WithExamples(b, ids + [j]) == PromptText(b, ids + [j])
  {
    assert Texts(b.formats, ids + [j]) == Texts(b.formats, ids) + [b.formats[j]];
    assert Texts(b.formats, ids) + [b.formats[j], b.promptTarget]
        == Texts(b.formats, ids + [j]) + [b.promptTarget];
  }

  /** `" ".join(query.split())[len("SELECT "):]` */
  function Response(query: string): string {
    var c := Join(" ", SplitWs(query));
    if |c| <= 7 then [] else c[7..]
  }

  /** The response is the single-spaced query less its first seven characters, and
      is itself single-spaced with plain spaces only. */
  lemma ResponseMeans(query: string)
    ensures var c, r := Join(" ", SplitWs(query)), Response(query);
      && NoDoubleSpace(r) && PlainSpacesOnly(r)
      && (|c| >= 7 ==> c == c[..7] + r)
      && (|c| <= 7 ==> r == [])
  {
    var ws := SplitWs(query);
    SplitWsWords(query);
    JoinWords(ws);
    var c := Join(" ", ws);
    if |c| > 7 {
      InfixKeepsSpacing(c, 7, c[7..]);
      assert c == c[..7] + c[7..];
    }
  }

  /** A query that starts with `SELECT ` is given back without it. */
  lemma ResponseDropsSelect(query: string)
    requires StartsWith(Join(" ", SplitWs(query)), "SELECT ")
    ensures "SELECT " + Response(query) == Join(" ", SplitWs(query))
  {
    var c := Join(" ", SplitWs(query));
    assert c[..7] == "SELECT ";
    assert c == c[..7] + c[7..];
  }

  /** The prompt an example count yields: the target alone, or the prefix with the
      examples and the target. */
  function PromptText(b: Budget, ids: seq<nat>): string
    requires Utils.InRange(ids, |b.formats|)
  {
    if ids == [] then b.promptTarget else WithExamples(b, ids)
  }

  // ---------------------------------------------------------------------------
  // BasicICLPrompt

  /** A prompt template: how many examples it wants, and the similarity lists it has
      recorded so far, one list per formatted target. */
  class BasicIclPrompt {
    const numExample: nat
    var exampleQualities: seq<seq<real>>
    var patternSimilarities: seq<seq<real>>

    ghost predicate Valid()
      reads this`exampleQualities, this`patternSimilarities
    {
      RowsInUnit(exampleQualities) && RowsInUnit(patternSimilarities)
    }

    constructor (n: nat)
      ensures Valid() && numExample == n
      ensures exampleQualities == [] && patternSimilarities == []
    {
      numExample := n;
      exampleQualities, patternSimilarities := [], [];
    }

    /** `record_example_quality`: one more list, with the skeleton similarity of each
        example to the target. */
    method RecordExampleQuality(examples: seq<Example>, target: Example)
      requires Valid()
      modifies this`exampleQualities
      ensures Valid()
      ensures exampleQualities
           == old(exampleQualities) + [Similarities(Skeletons(examples), target.querySkeleton)]
    {
      var row := SimilarityRow(Skeletons(examples), target.querySkeleton);
      exampleQualities := exampleQualities + [row];
      assert exampleQualities[|exampleQualities| - 1] == row;
    }

    /** `record_pattern_similarity`: the same over the question patterns. */
    method RecordPatternSimilarity(examples: seq<Example>, target: Example)
      requires Valid()
      modifies this`patternSimilarities
      ensures Valid()
      ensures patternSimilarities
           == old(patternSimilarities) + [Similarities(Patterns(examples), target.questionPattern)]
    {
      var row := SimilarityRow(Patterns(examples), target.questionPattern);
      patternSimilarities := patternSimilarities + [row];
      assert patternSimilarities[|patternSimilarities| - 1] == row;
    }

    /** `get_example_quality` */
    function ExampleQuality(): (q: Option<real>)
      reads this`exampleQualities
      ensures exampleQualities == [] ==> q == Some(1.0)
      ensures RowsInUnit(exampleQualities) && q.Some? ==> 0.0 <= q.value <= 1.0
    {
      MeanOrOne(exampleQualities)
    }

    /** `get_pattern_similarity` */
    function PatternSimilarity(): (q: Option<real>)
      reads this`patternSimilarities
      ensures patternSimilarities == [] ==> q == Some(1.0)
      ensures RowsInUnit(patternSimilarities) && q.Some? ==> 0.0 <= q.value <= 1.0
    {
      MeanOrOne(patternSimilarities)
    }

    /** `format`: `examples` are what the selector returned, `formats` their formatted
        texts, `promptTarget` the formatted target and `count` the token counter.
        `None` is the assertion a same-database example raises in cross-domain mode. */
    method Format(target: Example, promptTarget: string, examplePrefix: string,
                  examples: seq<Example>, formats: seq<string>, count: string -> nat,
                  maxSeqLen: int, maxAnsLen: int, crossDomain: bool)
      returns (res: Option<Prompt>)
      requires Valid() && |formats| == |examples|
      modifies this`exampleQualities, this`patternSimilarities
      ensures Valid()
      ensures numExample == 0 ==>
        && res == Some(Prompt(count(promptTarget), promptTarget, Response(target.query), 0, target.dbId))
        && exampleQualities == old(exampleQualities) && patternSimilarities == old(patternSimilarities)
      ensures numExample != 0 ==>
        var b := Budget(count, examplePrefix, promptTarget, formats, numExample, maxSeqLen, maxAnsLen);
        && (res.None? <==> crossDomain && SameDbVisited(b, examples, target.dbId))
        && (res.None? ==> exampleQualities == old(exampleQualities) && patternSimilarities == old(patternSimilarities))
        && (res.Some? ==>
              var ids := Picked(b);
              var chosen := Chosen(examples, ids);
              && res.value == Prompt(count(PromptText(b, ids)), PromptText(b, ids), Response(target.query), |ids|, target.dbId)
              && exampleQualities == old(exampleQualities) + [Similarities(Skeletons(chosen), target.querySkeleton)]
              && patternSimilarities == old(patternSimilarities) + [Similarities(Patterns(chosen), target.questionPattern)])
    {
      var response := Response(target.query);
      if numExample == 0 {
        return Some(Prompt(count(promptTarget), promptTarget, response, 0, target.dbId));
      }
      var b := Budget(count, examplePrefix, promptTarget, formats, numExample, maxSeqLen, maxAnsLen);
      var ok, promptExample, selected, sumTokens := PackExamples(b, examples, target.dbId, crossDomain);
      if !ok {
        return None;
      }
      RecordExampleQuality(selected, target);
      RecordPatternSimilarity(selected, target);
      var prompt := if |promptExample| > 0 then examplePrefix + Join(SepExample, promptExample + [promptTarget])
                    else Join(SepExample, promptExample + [promptTarget]);
      res := Some(Prompt(sumTokens, prompt, response, |promptExample|, target.dbId));
    }
  }

  /** The loop reaches an example from database `dbId`. */
  predicate SameDbVisited(b: Budget, examples: seq<Example>, dbId: string)
    requires |examples| == |b.formats|
  {
    exists j | 0 <= j < |examples| :: Visits(b, j) && examples[j].dbId == dbId
  }

  /** No visited example is from `dbId` when none of the first `n` is and none after
      them is visited. */
  lemma NoneVisited(b: Budget, examples: seq<Example>, dbId: string, n: nat)
    requires |examples| == |b.formats| && n <= |examples|
    requires OtherDbBefore(examples, dbId, n)
    requires forall j | n <= j < |examples| :: !Visits(b, j)
    ensures !SameDbVisited(b, examples, dbId)
  {
  }

  /** None of the first `n` examples is from database `dbId`. */
  predicate OtherDbBefore(examples: seq<Example>, dbId: string, n: nat)
    requires n <= |examples|
  {
    forall j | 0 <= j < n :: examples[j].dbId != dbId
  }

  lemma OtherDbSnoc(examples: seq<Example>, dbId: string, n: nat)
    requires n < |examples| && OtherDbBefore(examples, dbId, n) && examples[n].dbId != dbId
    ensures OtherDbBefore(examples, dbId, n + 1)
  {
  }

  /** The loop's lists and token count agree with the chosen indices `picked`. */
  predicate Tracks(b: Budget, examples: seq<Example>, picked: seq<nat>,
                   promptExample: seq<string>, selected: seq<Example>, sumTokens: nat)
    requires |examples| == |b.formats|
  {
    && Utils.InRange(picked, |examples|)
    && promptExample == Texts(b.formats, picked)
    && selected == Chosen(examples, picked)
    && sumTokens == b.count(PromptText(b, picked))
  }

  /** Before any example is taken, the count is that of the target alone. */
  lemma TracksStart(b: Budget, examples: seq<Example>)
    requires |examples| == |b.formats|
    ensures Tracks(b, examples, [], [], [], b.count(b.promptTarget))
  {
    assert Chosen(examples, []) == [];
  }

  /** Taking example `i` keeps the lists and the count in step; the count the loop
      computes for `i` decides `Fits`. */
  lemma TracksSnoc(b: Budget, examples: seq<Example>, picked: seq<nat>,
                   promptExample: seq<string>, selected: seq<Example>, sumTokens: nat, i: nat)
    requires |examples| == |b.formats| && i < |examples|
    requires Tracks(b, examples, picked, promptExample, selected, sumTokens)
    ensures var forward := b.count(b.prefix + Join(SepExample, promptExample + [b.formats[i], b.promptTarget]));
      && Tracks(b, examples, picked + [i], promptExample + [b.formats[i]], selected + [examples[i]], forward)
      && (FitsOf(b)(picked, i) <==> forward + b.maxAnsLen <= b.maxSeqLen)
  {
    ChosenSnoc(examples, b.formats, picked, i);
    ForwardText(b, picked, i);
  }

  /** The state in which the loop ends without meeting the target's database: it
      looked at the first `n` examples and either ran out of them or broke out. */
  lemma Finish(b: Budget, examples: seq<Example>, dbId: string, crossDomain: bool, n: nat,
               picked: seq<nat>, promptExample: seq<string>, selected: seq<Example>, sumTokens: nat)
    requires |examples| == |b.formats| && n <= |examples|
    requires PackUpTo(FitsOf(b), b.limit, n).picked == picked
    requires n == |examples| || PackUpTo(FitsOf(b), b.limit, n).done
    requires Tracks(b, examples, picked, promptExample, selected, sumTokens)
    requires crossDomain ==> OtherDbBefore(examples, dbId, n)
    ensures !(crossDomain && SameDbVisited(b, examples, dbId))
    ensures Tracks(b, examples, Picked(b), promptExample, selected, sumTokens)
  {
    if n < |examples| {
      StopsAfter(FitsOf(b), b.limit, n, |examples|, picked);
    }
    if crossDomain {
      NoneVisited(b, examples, dbId, n);
    }
  }

  /** The example loop of `format`: take each example that fits, stop after
      `b.limit` of them; `ok` is false when cross-domain mode meets an example of the
      target's database. */
  method PackExamples(b: Budget, examples: seq<Example>, dbId: string, crossDomain: bool)
    returns (ok: bool, promptExample: seq<string>, selected: seq<Example>, sumTokens: nat)
    requires |examples| == |b.formats|
    ensures ok <==> !(crossDomain && SameDbVisited(b, examples, dbId))
    ensures ok ==> Tracks(b, examples, Picked(b), promptExample, selected, sumTokens)
  {
    var formats, count, examplePrefix, promptTarget := b.formats, b.count, b.prefix, b.promptTarget;
    sumTokens := count(promptTarget);
    promptExample, selected := [], [];
    ghost var picked: seq<nat> := [];
    TracksStart(b, examples);
    for i := 0 to |examples|
      invariant PackUpTo(FitsOf(b), b.limit, i) == Packing(picked, false)
      invariant Tracks(b, examples, picked, promptExample, selected, sumTokens)
      invariant crossDomain ==> OtherDbBefore(examples, dbId, i)
    {
      if crossDomain && dbId == examples[i].dbId {
        assert Visits(b, i);
        return false, promptExample, selected, sumTokens;
      }
      if crossDomain {
        OtherDbSnoc(examples, dbId, i);
      }
      var exampleFormat := formats[i];
      var forwardTokens := count(examplePrefix + Join(SepExample, promptExample + [exampleFormat, promptTarget]));
      TracksSnoc(b, examples, picked, promptExample, selected, sumTokens, i);
      PackStep(FitsOf(b), b.limit, i, picked);
      if forwardTokens + b.maxAnsLen <= b.maxSeqLen {
        promptExample := promptExample + [exampleFormat];
        sumTokens := forwardTokens;
        selected := selected + [examples[i]];
        picked := picked + [i];
        if |promptExample| >= b.limit {
          Finish(b, examples, dbId, crossDomain, i + 1, picked, promptExample, selected, sumTokens);
          return true, promptExample, selected, sumTokens;
        }
      }
    }
    Finish(b, examples, dbId, crossDomain, |examples|, picked, promptExample, selected, sumTokens);
    ok := true;
  }
}
