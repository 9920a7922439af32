/** The self-consistency vote of `get_sqls`: each candidate query of a question is run,
    candidates whose results are equivalent are clustered together, and the first
    member of the largest cluster wins. Execution is an oracle. */
module Vote {
  import opened Wrappers
  import opened Text
  import opened Denotation
  import opened Equivalence
  import opened Cleanup

  /** What one execution returns: `("result", rows)` or `("exception", …)`. */
  datatype Outcome = Rows(rows: Table) | Failure

  /** What `get_exec_output` returns, or the `TypeError` it ends in when the database
      directory holds no `.sqlite` file (the loop falls through and returns `None`,
      which the caller cannot unpack). */
  datatype Exec = Ran(outcome: Outcome) | NoSqliteFile

  /** The world a vote runs in.
      - `listDir(db)`: the file names in the directory of database `db`, in listing order;
      - `removeDistinct(q)`: `q` without its DISTINCT tokens, `None` when the SQL
        tokenizer raises;
      - `run(db, file, q)`: executing `q` on one database file;
      - `draws(q, c, k)`: the random numbers behind the `random.choice` calls made when
        candidate `c` of question `q` is compared with the representative of cluster `k`. */
  datatype Env = Env(
    listDir: string -> seq<string>,
    removeDistinct: string -> Option<string>,
    run: (string, string, string) -> Outcome,
    draws: (nat, nat, nat) -> nat -> nat)

  /** Why a question gets no answer: no `.sqlite` file (`TypeError`) or no candidate at
      all with nothing executed (`IndexError` on `p_sqls[0]`). */
  datatype Error = MissingDatabase | NoCandidate

  datatype Answer<T> = Ok(value: T) | Raised(error: Error)

  /** One entry of `results`: a database id and its candidate queries. */
  datatype Item = Item(dbId: string, pSqls: seq<string>)

  /** `[name for name in names if ".sqlite" in name]` */
  function SqliteFiles(names: seq<string>): (r: seq<string>)
    ensures forall f :: f in r <==> f in names && Contains(f, ".sqlite")
  {
    if names == [] then []
    else if Contains(names[0], ".sqlite") then [names[0]] + SqliteFiles(names[1..])
    else SqliteFiles(names[1..])
  }

  /** `get_exec_output(db, sql)` with `keep_distinct` left `False`: post-process, drop
      DISTINCT (an unparsable query is an exception), then run on the first `.sqlite`
      file of the directory. */
  function GetExecOutput(env: Env, db: string, sql: string): (r: Exec)
    ensures r == NoSqliteFile <==>
      env.removeDistinct(Postprocess(sql)).Some? && SqliteFiles(env.listDir(db)) == []
    ensures env.removeDistinct(Postprocess(sql)).None? ==> r == Ran(Failure)
  {
    match env.removeDistinct(Postprocess(sql))
    case None => Ran(Failure)
    case Some(q) =>
      var files := SqliteFiles(env.listDir(db));
      if files == [] then NoSqliteFile else Ran(env.run(db, files[0], q))
  }

  predicate Succeeds(env: Env, db: string, sql: string) {
    GetExecOutput(env, db, sql) != NoSqliteFile && GetExecOutput(env, db, sql).outcome.Rows?
  }

  /** The denotation of a candidate that succeeds. */
  function Den(env: Env, db: string, sql: string): Table
    requires Succeeds(env, db, sql)
  {
    GetExecOutput(env, db, sql).outcome.rows
  }

  // ---------------------------------------------------------------------------
  // Specification of the clustering

  predicate NonEmptyClusters(cl: seq<seq<string>>) {
    forall k :: 0 <= k < |cl| ==> |cl[k]| > 0
  }

  predicate AllSucceed(env: Env, db: string, cl: seq<seq<string>>) {
    forall k, m :: 0 <= k < |cl| && m in cl[k] ==> Succeeds(env, db, m)
  }

  /** The first cluster from `id` on whose representative is equivalent to `t`, or
      `|cl|` when there is none. */
  ghost function FirstMatch(env: Env, db: string, cl: seq<seq<string>>, t: Table, id: nat): (k: nat)
    requires id <= |cl| && NonEmptyClusters(cl) && AllSucceed(env, db, cl)
    ensures id <= k <= |cl|
    ensures forall j :: id <= j < k ==> !Equivalent(Den(env, db, cl[j][0]), t, false)
    ensures k < |cl| ==> Equivalent(Den(env, db, cl[k][0]), t, false)
    decreases |cl| - id
  {
    if id == |cl| then id
    else if Equivalent(Den(env, db, cl[id][0]), t, false) then id
    else FirstMatch(env, db, cl, t, id + 1)
  }

  /** A successful candidate joins the first cluster it matches, or starts a new one. */
  ghost function Place(env: Env, db: string, cl: seq<seq<string>>, sql: string): (r: seq<seq<string>>)
    requires NonEmptyClusters(cl) && AllSucceed(env, db, cl) && Succeeds(env, db, sql)
    ensures NonEmptyClusters(r) && AllSucceed(env, db, r)
  {
    var k := FirstMatch(env, db, cl, Den(env, db, sql), 0);
    if k < |cl| then
      var r := cl[k := cl[k] + [sql]];
      assert forall j, m :: 0 <= j < |r| && m in r[j] ==> m in cl[j] || m == sql;
      r
    else
      var r := cl + [[sql]];
      assert forall j, m :: 0 <= j < |r| && m in r[j] ==> (j < |cl| && m in cl[j]) || m == sql;
      r
  }

  /** The clusters after the candidates `cands` have been processed in order. */
  ghost function Clusters(env: Env, db: string, cands: seq<string>): (cl: seq<seq<string>>)
    ensures NonEmptyClusters(cl) && AllSucceed(env, db, cl)
    decreases |cands|
  {
    if cands == [] then []
    else
      var cl := Clusters(env, db, cands[..|cands| - 1]);
      var sql := cands[|cands| - 1];
      if Succeeds(env, db, sql) then Place(env, db, cl, sql) else cl
  }

  /** Some candidate would make `get_exec_output` end in a `TypeError`. */
  predicate Crashes(env: Env, db: string, cands: seq<string>) {
    exists i :: 0 <= i < |cands| && GetExecOutput(env, db, cands[i]) == NoSqliteFile
  }

  /** The answer `get_sqls` gives for one question's (already truncated) candidates. */
  ghost function Winner(env: Env, db: string, cands: seq<string>): Answer<string> {
    if Crashes(env, db, cands) then Raised(MissingDatabase)
    else
      var cl := Clusters(env, db, cands);
      if cl == [] then
        if cands == [] then Raised(NoCandidate) else Ok(cands[0])
      else Ok(SortBySize(cl)[0][0])
  }

  // ---------------------------------------------------------------------------
  // Sorting clusters by size

  /** Sizes never increase along `cl`. */
  predicate SizeDescending(cl: seq<seq<string>>) {
    forall i, j :: 0 <= i < j < |cl| ==> |cl[i]| >= |cl[j]|
  }

  /** Insert `x` before the first cluster no larger than it; `x` comes from earlier in
      the original list than everything in `cl`, so equal sizes keep their order. */
  function InsertBySize(x: seq<string>, cl: seq<seq<string>>): (r: seq<seq<string>>)
    ensures multiset(r) == multiset(cl) + multiset{x}
    ensures |r| == |cl| + 1
  {
    if cl == [] || |cl[0]| <= |x| then [x] + cl
    else
      assert cl == [cl[0]] + cl[1..];
      [cl[0]] + InsertBySize(x, cl[1..])
  }

  lemma {:induction false} InsertKeepsDescending(x: seq<string>, cl: seq<seq<string>>)
    requires SizeDescending(cl)
    ensures SizeDescending(InsertBySize(x, cl))
  {
    if cl != [] && |cl[0]| > |x| {
      InsertKeepsDescending(x, cl[1..]);
      InsertBounded(x, cl[1..], |cl[0]|);
    }
  }

  lemma {:induction false} InsertBounded(x: seq<string>, cl: seq<seq<string>>, b: nat)
    requires |x| <= b && forall i :: 0 <= i < |cl| ==> |cl[i]| <= b
    ensures forall i :: 0 <= i < |cl| + 1 ==> |InsertBySize(x, cl)[i]| <= b
  {
    if cl != [] && |cl[0]| > |x| {
      InsertBounded(x, cl[1..], b);
    }
  }

  /** `cl.sort(key=len, reverse=True)`: a stable sort, largest first. */
  function SortBySize(cl: seq<seq<string>>): (r: seq<seq<string>>)
    ensures multiset(r) == multiset(cl) && |r| == |cl|
    ensures SizeDescending(r)
  {
    if cl == [] then [] else
      assert cl == [cl[0]] + cl[1..];
      var rest := SortBySize(cl[1..]);
      InsertKeepsDescending(cl[0], rest);
      InsertBySize(cl[0], rest)
  }

  /** The index of the first cluster of largest size. */
  function FirstLargest(cl: seq<seq<string>>): (k: nat)
    requires cl != []
    ensures k < |cl|
    ensures forall j :: 0 <= j < |cl| ==> |cl[j]| <= |cl[k]|
    ensures forall j :: 0 <= j < k ==> |cl[j]| < |cl[k]|
  {
    if |cl| == 1 then 0
    else
      var j := 1 + FirstLargest(cl[1..]);
      assert cl[j] == cl[1..][j - 1];
      if |cl[j]| <= |cl[0]| then 0 else j
  }

  /** The head of the stable sort is the first of the largest clusters. */
  lemma {:induction false} SortHead(cl: seq<seq<string>>)
    requires cl != []
    ensures SortBySize(cl)[0] == cl[FirstLargest(cl)]
  {
    if |cl| > 1 {
      SortHead(cl[1..]);
      var sorted := SortBySize(cl[1..]);
      var j := 1 + FirstLargest(cl[1..]);
      assert cl[j] == cl[1..][j - 1];
    }
  }

  // ---------------------------------------------------------------------------
  // The vote, as the source computes it

  /** The candidates `get_sqls` considers: it stops after the one numbered
      `select_number`, so a number outside `1..len` keeps them all. */
  method SelectCandidates(pSqls: seq<string>, selectNumber: int) returns (r: seq<string>)
    ensures 1 <= selectNumber <= |pSqls| ==> r == pSqls[..selectNumber]
    ensures !(1 <= selectNumber <= |pSqls|) ==> r == pSqls
  {
    r := [];
    for i := 0 to |pSqls|
      invariant r == pSqls[..i]
      invariant 1 <= selectNumber <= |pSqls| ==> i < selectNumber
    {
      r := r + [pSqls[i]];
      if i + 1 == selectNumber {
        return;
      }
    }
  }

  /** One question of `get_sqls`: cluster the candidates in order, then choose. `q` is
      the position of the question, used only to tell the random draws apart. */
  method VoteQuestion(env: Env, q: nat, db: string, cands: seq<string>) returns (a: Answer<string>)
    ensures a == Winner(env, db, cands)
  {
    var clusters: seq<seq<string>> := [];
    var denot: map<string, Table> := map[];
    for c := 0 to |cands|
      invariant clusters == Clusters(env, db, cands[..c])
      invariant !Crashes(env, db, cands[..c])
      invariant forall s :: s in denot ==> Succeeds(env, db, s) && denot[s] == Den(env, db, s)
      invariant forall k, m :: 0 <= k < |clusters| && m in clusters[k] ==> m in denot
    {
      var sql := cands[c];
      assert cands[..c + 1][..c] == cands[..c];
      var out := GetExecOutput(env, db, sql);
      if out == NoSqliteFile {
        assert cands[c] == sql;
        CrashesExtend(env, db, cands, c);
        return Raised(MissingDatabase);
      }
      CrashesStep(env, db, cands, c);
      if out.outcome == Failure {
        continue;
      }
      denot := denot[sql := out.outcome.rows];
      clusters := JoinCluster(env, q, c, db, clusters, denot, sql);
    }
    assert cands[..|cands|] == cands;
    if |clusters| == 0 {
      if |cands| == 0 {
        return Raised(NoCandidate);
      }
      return Ok(cands[0]);
    }
    clusters := SortBySize(clusters);
    return Ok(clusters[0][0]);
  }

  /** The inner loop of `get_sqls`: compare the new candidate's result with each
      representative in turn, join the first that matches, or open a new cluster. */
  method JoinCluster(env: Env, q: nat, c: nat, db: string, clusters: seq<seq<string>>,
                     denot: map<string, Table>, sql: string) returns (cl: seq<seq<string>>)
    requires NonEmptyClusters(clusters) && AllSucceed(env, db, clusters) && Succeeds(env, db, sql)
    requires forall s :: s in denot ==> Succeeds(env, db, s) && denot[s] == Den(env, db, s)
    requires forall k, m :: 0 <= k < |clusters| && m in clusters[k] ==> m in denot
    requires sql in denot
    ensures cl == Place(env, db, clusters, sql)
    ensures forall k, m :: 0 <= k < |cl| && m in cl[k] ==> m in denot
  {
    var t := denot[sql];
    for id := 0 to |clusters|
      invariant forall j :: 0 <= j < id ==> !Equivalent(Den(env, db, clusters[j][0]), t, false)
    {
      var center := clusters[id][0];
      var eq := ResultEq(denot[center], t, false, env.draws(q, c, id));
      if eq {
        FirstMatchIs(env, db, clusters, t, id);
        KnownAfterJoin(clusters, denot, sql, id);
        cl := clusters[id := clusters[id] + [sql]];
        return;
      }
    }
    FirstMatchIs(env, db, clusters, t, |clusters|);
    KnownAfterJoin(clusters, denot, sql, |clusters|);
    cl := clusters + [[sql]];
  }

  /** Every member of the clusters after placing `sql`, in cluster `id` or in a new one,
      has a known denotation. */
  lemma KnownAfterJoin<V>(clusters: seq<seq<string>>, denot: map<string, V>, sql: string, id: nat)
    requires id <= |clusters| && sql in denot
    requires forall k, m :: 0 <= k < |clusters| && m in clusters[k] ==> m in denot
    ensures id < |clusters| ==> var cl := clusters[id := clusters[id] + [sql]];
      forall k, m :: 0 <= k < |cl| && m in cl[k] ==> m in denot
    ensures id == |clusters| ==> var cl := clusters + [[sql]];
      forall k, m :: 0 <= k < |cl| && m in cl[k] ==> m in denot
  {
    if id < |clusters| {
      var cl := clusters[id := clusters[id] + [sql]];
      forall k, m | 0 <= k < |cl| && m in cl[k] ensures m in denot {
        if k != id {
          assert cl[k] == clusters[k];
        }
      }
    } else {
      var cl := clusters + [[sql]];
      forall k, m | 0 <= k < |cl| && m in cl[k] ensures m in denot {
        if k < |clusters| {
          assert cl[k] == clusters[k];
        }
      }
    }
  }

  lemma FirstMatchIs(env: Env, db: string, cl: seq<seq<string>>, t: Table, id: nat)
    requires id <= |cl| && NonEmptyClusters(cl) && AllSucceed(env, db, cl)
    requires forall j :: 0 <= j < id ==> !Equivalent(Den(env, db, cl[j][0]), t, false)
    requires id < |cl| ==> Equivalent(Den(env, db, cl[id][0]), t, false)
    ensures FirstMatch(env, db, cl, t, 0) == id
  {
  }

  lemma CrashesExtend(env: Env, db: string, cands: seq<string>, c: nat)
    requires c < |cands| && GetExecOutput(env, db, cands[c]) == NoSqliteFile
    ensures Crashes(env, db, cands)
  {
  }

  lemma CrashesStep(env: Env, db: string, cands: seq<string>, c: nat)
    requires c < |cands| && !Crashes(env, db, cands[..c])
    requires GetExecOutput(env, db, cands[c]) != NoSqliteFile
    ensures !Crashes(env, db, cands[..c + 1])
  {
    assert forall i :: 0 <= i < c ==> cands[..c + 1][i] == cands[..c][i];
  }

  /** `get_sqls(results, select_number)`: one chosen query per item, in order, unless
      some question raises, in which case the first error is raised. */
  method GetSqls(env: Env, results: seq<Item>, selectNumber: int) returns (a: Answer<seq<string>>)
    ensures a.Ok? ==> |a.value| == |results|
    ensures a.Ok? ==> forall i :: 0 <= i < |results| ==> ItemWinner(env, results[i], selectNumber) == Ok(a.value[i])
    ensures a.Raised? ==> exists i :: 0 <= i < |results|
                            && ItemWinner(env, results[i], selectNumber) == Raised(a.error)
                            && forall j :: 0 <= j < i ==> ItemWinner(env, results[j], selectNumber).Ok?
  {
    var allPSqls := SelectAll(results, selectNumber);
    var chosen: seq<string> := [];
    for i := 0 to |results|
      invariant |chosen| == i
      invariant forall j :: 0 <= j < i ==> ItemWinner(env, results[j], selectNumber) == Ok(chosen[j])
    {
      var w := VoteQuestion(env, i, results[i].dbId, allPSqls[i]);
      assert ItemWinner(env, results[i], selectNumber) == w;
      if w.Raised? {
        return Raised(w.error);
      }
      WinnersSnoc(env, results, selectNumber, chosen, w.value);
      chosen := chosen + [w.value];
    }
    return Ok(chosen);
  }

  /** One more item's winner extends the chosen queries. */
  lemma WinnersSnoc(env: Env, results: seq<Item>, selectNumber: int, chosen: seq<string>, w: string)
    requires |chosen| < |results|
    requires forall j :: 0 <= j < |chosen| ==> ItemWinner(env, results[j], selectNumber) == Ok(chosen[j])
    requires ItemWinner(env, results[|chosen|], selectNumber) == Ok(w)
    ensures forall j :: 0 <= j < |chosen| + 1 ==>
      ItemWinner(env, results[j], selectNumber) == Ok((chosen + [w])[j])
  {
    OkSnoc(item => ItemWinner(env, item, selectNumber), results, chosen, w);
  }

  /** The same for any function giving the answer of an element. */
  lemma OkSnoc<X, A>(f: X -> Answer<A>, xs: seq<X>, chosen: seq<A>, w: A)
    requires |chosen| < |xs|
    requires forall j | 0 <= j < |chosen| :: f(xs[j]) == Ok(chosen[j])
    requires f(xs[|chosen|]) == Ok(w)
    ensures forall j | 0 <= j < |chosen| + 1 :: f(xs[j]) == Ok((chosen + [w])[j])
  {
  }

  /** The first loop of `get_sqls`: the considered candidates of every item. */
  method SelectAll(results: seq<Item>, selectNumber: int) returns (all: seq<seq<string>>)
    ensures |all| == |results|
    ensures forall j :: 0 <= j < |results| ==> all[j] == Truncate(results[j].pSqls, selectNumber)
  {
    all := [];
    for i := 0 to |results|
      invariant |all| == i
      invariant forall j :: 0 <= j < i ==> all[j] == Truncate(results[j].pSqls, selectNumber)
    {
      var ps := SelectCandidates(results[i].pSqls, selectNumber);
      all := all + [ps];
    }
  }

  /** The answer for one item of `results`. */
  ghost function ItemWinner(env: Env, item: Item, selectNumber: int): Answer<string> {
    Winner(env, item.dbId, Truncate(item.pSqls, selectNumber))
  }

  /** The candidates `SelectCandidates` keeps. */
  function Truncate(pSqls: seq<string>, selectNumber: int): seq<string> {
    if 1 <= selectNumber <= |pSqls| then pSqls[..selectNumber] else pSqls
  }

  // ---------------------------------------------------------------------------
  // Properties of the vote

  /** The candidates that execute and return rows, in order. */
  function Successful(env: Env, db: string, cands: seq<string>): (r: seq<string>)
    ensures forall s :: s in r ==> Succeeds(env, db, s)
    decreases |cands|
  {
    if cands == [] then []
    else
      var last := cands[|cands| - 1];
      Successful(env, db, cands[..|cands| - 1]) + (if Succeeds(env, db, last) then [last] else [])
  }

  /** All members of all clusters, cluster after cluster. */
  function Flatten(cl: seq<seq<string>>): seq<string> {
    if cl == [] then [] else cl[0] + Flatten(cl[1..])
  }

  lemma {:induction false} FlattenJoin(cl: seq<seq<string>>, k: nat, x: string)
    requires k < |cl|
    ensures multiset(Flatten(cl[k := cl[k] + [x]])) == multiset(Flatten(cl)) + multiset{x}
  {
    var cl' := cl[k := cl[k] + [x]];
    if k == 0 {
      assert cl'[1..] == cl[1..];
    } else {
      FlattenJoin(cl[1..], k - 1, x);
      assert cl'[1..] == cl[1..][k - 1 := cl[1..][k - 1] + [x]];
    }
  }

  lemma {:induction false} FlattenOpen(cl: seq<seq<string>>, x: string)
    ensures multiset(Flatten(cl + [[x]])) == multiset(Flatten(cl)) + multiset{x}
  {
    if cl != [] {
      FlattenOpen(cl[1..], x);
      assert (cl + [[x]])[1..] == cl[1..] + [[x]];
    } else {
      assert Flatten([[x]]) == [x] + Flatten([]);
    }
  }

  /** Every successful candidate sits in exactly one cluster, and nothing else does. */
  lemma {:induction false} ClustersCover(env: Env, db: string, cands: seq<string>)
    ensures multiset(Flatten(Clusters(env, db, cands))) == multiset(Successful(env, db, cands))
    decreases |cands|
  {
    if cands != [] {
      var prefix := cands[..|cands| - 1];
      var sql := cands[|cands| - 1];
      var cl := Clusters(env, db, prefix);
      ClustersCover(env, db, prefix);
      if Succeeds(env, db, sql) {
        var k := FirstMatch(env, db, cl, Den(env, db, sql), 0);
        if k < |cl| {
          FlattenJoin(cl, k, sql);
        } else {
          FlattenOpen(cl, sql);
        }
      }
    }
  }

  /** Only successful candidates are clustered: no cluster exists exactly when no
      candidate returned rows. */
  lemma ClustersEmpty(env: Env, db: string, cands: seq<string>)
    ensures Clusters(env, db, cands) == [] <==> Successful(env, db, cands) == []
  {
    ClustersCover(env, db, cands);
    var cl := Clusters(env, db, cands);
    if cl != [] {
      assert cl[0][0] in multiset(Flatten(cl));
    }
  }

  /** Every member of a cluster has a result equivalent to its representative's. */
  lemma {:induction false} MembersMatchRepresentative(env: Env, db: string, cands: seq<string>)
    ensures forall k, m :: 0 <= k < |Clusters(env, db, cands)| && m in Clusters(env, db, cands)[k] ==>
      Equivalent(Den(env, db, Clusters(env, db, cands)[k][0]), Den(env, db, m), false)
    decreases |cands|
  {
    if cands != [] {
      var prefix := cands[..|cands| - 1];
      var sql := cands[|cands| - 1];
      var cl := Clusters(env, db, prefix);
      MembersMatchRepresentative(env, db, prefix);
      if Succeeds(env, db, sql) {
        var k := FirstMatch(env, db, cl, Den(env, db, sql), 0);
        var cl' := Clusters(env, db, cands);
        forall j, m | 0 <= j < |cl'| && m in cl'[j]
          ensures Equivalent(Den(env, db, cl'[j][0]), Den(env, db, m), false)
        {
          if j < |cl| && m in cl[j] {
            assert cl'[j][0] == cl[j][0];
          } else {
            assert m == sql;
            if j == |cl| {
              EquivalentReflexive(Den(env, db, sql), false);
            }
          }
        }
      }
    }
  }

  /** No two representatives have equivalent results: a candidate only opens a cluster
      when it matches none of the representatives before it. */
  lemma {:induction false} RepresentativesDiffer(env: Env, db: string, cands: seq<string>)
    ensures forall i, j :: 0 <= i < j < |Clusters(env, db, cands)| ==>
      !Equivalent(Den(env, db, Clusters(env, db, cands)[i][0]), Den(env, db, Clusters(env, db, cands)[j][0]), false)
    decreases |cands|
  {
    if cands != [] {
      var prefix := cands[..|cands| - 1];
      var sql := cands[|cands| - 1];
      RepresentativesDiffer(env, db, prefix);
      if Succeeds(env, db, sql) {
        PlaceKeepsApart(env, db, Clusters(env, db, prefix), sql);
      }
    }
  }

  /** No representative is equivalent to a later one. */
  ghost predicate RepsApart(env: Env, db: string, cl: seq<seq<string>>)
    requires NonEmptyClusters(cl) && AllSucceed(env, db, cl)
  {
    forall i, j :: 0 <= i < j < |cl| ==>
      !Equivalent(Den(env, db, cl[i][0]), Den(env, db, cl[j][0]), false)
  }

  /** Placing a candidate keeps the representatives pairwise apart. */
  lemma PlaceKeepsApart(env: Env, db: string, cl: seq<seq<string>>, sql: string)
    requires NonEmptyClusters(cl) && AllSucceed(env, db, cl) && Succeeds(env, db, sql)
    requires RepsApart(env, db, cl)
    ensures RepsApart(env, db, Place(env, db, cl, sql))
  {
    var cl' := Place(env, db, cl, sql);
    assert forall j :: 0 <= j < |cl| ==> cl'[j][0] == cl[j][0];
  }

  /** The winner is the representative of the first largest cluster. */
  lemma WinnerIsFirstLargest(env: Env, db: string, cands: seq<string>)
    requires !Crashes(env, db, cands) && Clusters(env, db, cands) != []
    ensures Winner(env, db, cands)
      == Ok(Clusters(env, db, cands)[FirstLargest(Clusters(env, db, cands))][0])
  {
    SortHead(Clusters(env, db, cands));
  }

  /** When no candidate returns rows, the first candidate is chosen. */
  lemma FallbackToFirst(env: Env, db: string, cands: seq<string>)
    requires !Crashes(env, db, cands) && cands != []
    requires forall i :: 0 <= i < |cands| ==> !Succeeds(env, db, cands[i])
    ensures Winner(env, db, cands) == Ok(cands[0])
  {
    NoneSucceed(env, db, cands);
    ClustersEmpty(env, db, cands);
  }

  lemma {:induction false} NoneSucceed(env: Env, db: string, cands: seq<string>)
    requires forall i :: 0 <= i < |cands| ==> !Succeeds(env, db, cands[i])
    ensures Successful(env, db, cands) == []
    decreases |cands|
  {
    if cands != [] {
      NoneSucceed(env, db, cands[..|cands| - 1]);
    }
  }
}
