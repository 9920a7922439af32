/** The clean-up rule the main loop applies to every candidate the model returns, and
    the lines it writes: one per candidate with a single sample, one chosen query per
    question with several. */
module AskLlm {
  import opened Text
  import opened Cleanup
  import opened Vote
  import Utils

  /** `" ".join(sql.replace("\n", " ").split())` */
  function Collapse(sql: string): (r: string)
    ensures NoDoubleSpace(r) && PlainSpacesOnly(r)
    ensures r == [] || (r[0] != ' ' && r[|r| - 1] != ' ')
  {
    var ws := SplitWs(ReplaceChar(sql, '\n', ' '));
    SplitWsWords(ReplaceChar(sql, '\n', ' '));
    JoinWords(ws);
    Join(" ", ws)
  }

  /** The prefixing step: keep a query that starts with SELECT, otherwise put SELECT in
      front (without a space when the query already starts with one). */
  function Prefix(sql: string): string {
    if StartsWith(sql, "SELECT") then sql
    else if StartsWith(sql, " ") then "SELECT" + sql
    else "SELECT " + sql
  }

  /** One candidate, cleaned: collapse whitespace, drop duplicated output after a
      comment opener, make it start with SELECT. */
  function Clean(sql: string): string {
    Prefix(ProcessDuplication(Collapse(sql)))
  }

  /** A cleaned candidate starts with SELECT and holds no newline, no two spaces in a
      row and no comment opener. */
  lemma CleanShape(sql: string)
    ensures StartsWith(Clean(sql), "SELECT")
    ensures '\n' !in Clean(sql) && NoDoubleSpace(Clean(sql)) && !Contains(Clean(sql), "/*")
  {
    var d := ProcessDuplication(Collapse(sql));
    CleanSpacing(Collapse(sql));
    NoCommentAfterPrefix(d);
  }

  /** What `process_duplication` leaves of a collapsed query is still single-spaced and
      free of other whitespace, and never starts with a space. */
  lemma CleanSpacing(c: string)
    requires NoDoubleSpace(c) && PlainSpacesOnly(c)
    ensures var d := ProcessDuplication(c);
      NoDoubleSpace(d) && PlainSpacesOnly(d) && !StartsWith(d, " ")
      && NoDoubleSpace(Prefix(d)) && PlainSpacesOnly(Prefix(d))
  {
    DuplicationSpacing(c);
    PrefixSpacing(ProcessDuplication(c));
  }

  /** The strip and the cut of `process_duplication` keep single spacing. */
  lemma DuplicationSpacing(c: string)
    requires NoDoubleSpace(c) && PlainSpacesOnly(c)
    ensures var d := ProcessDuplication(c);
      NoDoubleSpace(d) && PlainSpacesOnly(d) && !StartsWith(d, " ")
  {
    var st := Strip(c);
    var d := ProcessDuplication(c);
    var i: nat :| i <= |c| && At(c, i, st);
    InfixKeepsSpacing(c, i, st);
    InfixKeepsSpacing(st, 0, d);
  }

  /** Putting SELECT in front keeps single spacing. */
  lemma PrefixSpacing(d: string)
    requires NoDoubleSpace(d) && PlainSpacesOnly(d) && !StartsWith(d, " ")
    ensures NoDoubleSpace(Prefix(d)) && PlainSpacesOnly(Prefix(d))
  {
    var p := Prefix(d);
    if !StartsWith(d, "SELECT") {
      assert p == "SELECT " + d;
      forall k | 0 <= k < |p| - 1 ensures !(p[k] == ' ' && p[k + 1] == ' ') {
        if k >= 7 {
          assert p[k] == d[k - 7] && p[k + 1] == d[k - 6];
        } else if k == 6 {
          assert p[k + 1] == d[0];
        }
      }
      forall k | 0 <= k < |p| ensures p[k] == ' ' || !IsSpace(p[k]) {
        if k >= 7 {
          assert p[k] == d[k - 7];
        }
      }
    }
  }

  /** Prefixing adds no comment opener. */
  lemma NoCommentAfterPrefix(d: string)
    requires !Contains(d, "/*")
    ensures !Contains(Prefix(d), "/*")
  {
    var p := Prefix(d);
    var pre := p[..|p| - |d|];
    assert p == pre + d;
    assert '/' !in pre;
    forall i: nat | i <= |p| ensures !At(p, i, "/*") {
      if i >= |pre| && i + 2 <= |p| {
        assert p[i..i + 2] == d[i - |pre|..i - |pre| + 2];
        assert !At(d, i - |pre|, "/*");
      }
      if i < |pre| && i + 2 <= |p| {
        assert p[i] == pre[i];
        assert p[i..i + 2][0] == p[i];
      }
    }
  }

  /** The leading-space branch of the prefixing step is never taken. */
  lemma LeadingSpaceUnreachable(sql: string)
    ensures !StartsWith(ProcessDuplication(Collapse(sql)), " ")
  {
    var d := ProcessDuplication(Collapse(sql));
    if |d| > 0 {
      assert d[..1] == [d[0]];
    }
  }

  /** A query that already starts with SELECT is left as it is. */
  lemma SelectUntouched(d: string)
    requires StartsWith(d, "SELECT")
    ensures Prefix(d) == d
  {
  }

  /** The clean-up of one candidate, step by step as the main loop does it. */
  method CleanOne(raw: string) returns (sql: string)
    ensures sql == Clean(raw)
  {
    sql := Collapse(raw);
    sql := ProcessDuplication(sql);
    ghost var d := sql;
    if StartsWith(sql, "SELECT") {
    } else if StartsWith(sql, " ") {
      sql := "SELECT" + sql;
    } else {
      sql := "SELECT " + sql;
    }
    assert sql == Prefix(d);
  }

  /** With a single sample (`n == 1`): one cleaned line per returned candidate. */
  method CleanAll(response: seq<string>) returns (lines: seq<string>)
    ensures lines == Cleaned(response)
  {
    lines := [];
    for i := 0 to |response|
      invariant lines == Cleaned(response[..i])
    {
      var sql := CleanOne(response[i]);
      CleanedSnoc(response, i);
      lines := lines + [sql];
    }
    assert response[..|response|] == response;
  }

  lemma CleanedSnoc(sqls: seq<string>, i: nat)
    requires i < |sqls|
    ensures Cleaned(sqls[..i + 1]) == Cleaned(sqls[..i]) + [Clean(sqls[i])]
  {
    assert sqls[..i + 1][..i] == sqls[..i];
  }

  /** One question with several samples: clean its candidates and vote among them, as a
      batch of one. */
  method VoteOne(env: Env, sqls: seq<string>, dbId: string, n: int) returns (w: Answer<string>)
    ensures w == ItemWinner(env, Item(dbId, Cleaned(sqls)), n)
  {
    var processed := CleanAll(sqls);
    var finalSqls := GetSqls(env, [Item(dbId, processed)], n);
    if finalSqls.Raised? {
      w := Raised(finalSqls.error);
    } else {
      w := Ok(finalSqls.value[0]);
    }
  }

  /** The questions of a batch, zipped with their database ids, each with its cleaned
      candidates. */
  function Questions(response: seq<seq<string>>, dbIds: seq<string>): (qs: seq<Item>)
    ensures |qs| == Utils.Min(|response|, |dbIds|)
  {
    seq(Utils.Min(|response|, |dbIds|), i requires 0 <= i < Utils.Min(|response|, |dbIds|) => Item(dbIds[i], Cleaned(response[i])))
  }

  /** What the questions' votes come to, one answer per question. */
  ghost function Votes(env: Env, qs: seq<Item>, n: int): (vs: seq<Answer<string>>)
    ensures |vs| == |qs|
  {
    Map(q => ItemWinner(env, q, n), qs)
  }

  /** `f` applied to each element. */
  ghost function Map<A, B>(f: A -> B, xs: seq<A>): (ys: seq<B>)
    ensures |ys| == |xs|
    decreases |xs|
  {
    if xs == [] then [] else Map(f, xs[..|xs| - 1]) + [f(xs[|xs| - 1])]
  }

  lemma {:induction false} MapAt<A, B>(f: A -> B, xs: seq<A>, i: nat)
    requires i < |xs|
    ensures Map(f, xs)[i] == f(xs[i])
    decreases |xs|
  {
    if i < |xs| - 1 {
      MapAt(f, xs[..|xs| - 1], i);
    }
  }

  /** What the several-samples branch writes for the first `k` answers: the chosen
      queries in order, or the error of the first vote that raises. */
  function Written(vs: seq<Answer<string>>, k: nat): Answer<seq<string>>
    requires k <= |vs|
  {
    if k == 0 then Ok([])
    else match Written(vs, k - 1)
      case Raised(e) => Raised(e)
      case Ok(xs) =>
        match vs[k - 1]
        case Raised(e) => Raised(e)
        case Ok(x) => Ok(xs + [x])
  }

  /** With several samples: for each question of the batch (zipped with its database
      id) clean its candidates, vote, and write the one chosen query; the first question
      whose vote raises ends the run. */
  method VoteBatch(env: Env, response: seq<seq<string>>, dbIds: seq<string>, n: int)
    returns (a: Answer<seq<string>>)
    ensures a == Written(Votes(env, Questions(response, dbIds), n), Utils.Min(|response|, |dbIds|))
  {
    var lines: seq<string> := [];
    ghost var vs := Votes(env, Questions(response, dbIds), n);
    var m := Utils.Min(|response|, |dbIds|);
    for i := 0 to m
      invariant |lines| == i
      invariant forall j :: 0 <= j < i ==> vs[j] == Ok(lines[j])
    {
      var w := VoteAt(env, response, dbIds, n, i);
      if w.Raised? {
        WrittenFirstRaise(vs, i, m);
        return Raised(w.error);
      }
      OkPrefixExtends(vs, lines, w.value);
      lines := lines + [w.value];
    }
    WrittenAllOk(vs, lines);
    return Ok(lines);
  }

  /** The vote on the `i`-th question of the batch. */
  method VoteAt(env: Env, response: seq<seq<string>>, dbIds: seq<string>, n: int, i: nat)
    returns (w: Answer<string>)
    requires i < |response| && i < |dbIds|
    ensures w == Votes(env, Questions(response, dbIds), n)[i]
  {
    w := VoteOne(env, response[i], dbIds[i], n);
    MapAt(q => ItemWinner(env, q, n), Questions(response, dbIds), i);
  }

  /** The successful answers seen so far, extended by the next one. */
  lemma OkPrefixExtends(vs: seq<Answer<string>>, lines: seq<string>, x: string)
    requires |lines| < |vs| && vs[|lines|] == Ok(x)
    requires forall j :: 0 <= j < |lines| ==> vs[j] == Ok(lines[j])
    ensures forall j :: 0 <= j < |lines| + 1 ==> vs[j] == Ok((lines + [x])[j])
  {
  }

  /** When every vote succeeds, the lines are the winners in order. */
  lemma {:induction false} WrittenAllOk(vs: seq<Answer<string>>, lines: seq<string>)
    requires |lines| == |vs| && forall j :: 0 <= j < |vs| ==> vs[j] == Ok(lines[j])
    ensures Written(vs, |vs|) == Ok(lines)
    decreases |vs|
  {
    if vs != [] {
      var k := |vs| - 1;
      WrittenPrefix(vs, vs[..k], k);
      WrittenAllOk(vs[..k], lines[..k]);
      assert lines == lines[..k] + [lines[k]];
    }
  }

  /** The first `k` answers decide what is written for them, whatever follows. */
  lemma {:induction false} WrittenPrefix(vs: seq<Answer<string>>, us: seq<Answer<string>>, k: nat)
    requires k <= |vs| && k <= |us| && vs[..k] == us[..k]
    ensures Written(vs, k) == Written(us, k)
    decreases k
  {
    if k > 0 {
      assert vs[..k - 1] == vs[..k][..k - 1] && us[..k - 1] == us[..k][..k - 1];
      assert vs[k - 1] == vs[..k][k - 1];
      WrittenPrefix(vs, us, k - 1);
    }
  }

  /** The first vote that raises ends the batch with its error. */
  lemma WrittenFirstRaise(vs: seq<Answer<string>>, i: nat, m: nat)
    requires i < m <= |vs| && vs[i].Raised? && forall j :: 0 <= j < i ==> vs[j].Ok?
    ensures Written(vs, m) == Raised(vs[i].error)
  {
    WrittenOkPrefix(vs, i);
    WrittenRaisedSticks(vs, i + 1, m);
  }

  /** Answers that all succeed are written out in full. */
  lemma {:induction false} WrittenOkPrefix(vs: seq<Answer<string>>, k: nat)
    requires k <= |vs| && forall j :: 0 <= j < k ==> vs[j].Ok?
    ensures Written(vs, k).Ok?
    decreases k
  {
    if k > 0 {
      WrittenOkPrefix(vs, k - 1);
    }
  }

  /** Once a vote raises, the rest of the batch is not reached. */
  lemma {:induction false} WrittenRaisedSticks(vs: seq<Answer<string>>, k: nat, m: nat)
    requires k <= m <= |vs|
    requires Written(vs, k).Raised?
    ensures Written(vs, m) == Written(vs, k)
    decreases m
  {
    if m > k {
      WrittenRaisedSticks(vs, k, m - 1);
    }
  }

  /** A batch that completes writes one line per question, its vote's winner. */
  lemma {:induction false} WrittenLines(vs: seq<Answer<string>>, k: nat)
    requires k <= |vs|
    ensures Written(vs, k).Ok? ==>
      |Written(vs, k).value| == k && forall i :: 0 <= i < k ==> vs[i] == Ok(Written(vs, k).value[i])
    decreases k
  {
    if k > 0 {
      WrittenLines(vs, k - 1);
    }
  }

  /** A batch that raises does so with the error of one of its votes, the first that
      raises. */
  lemma {:induction false} WrittenError(vs: seq<Answer<string>>, k: nat)
    requires k <= |vs|
    ensures Written(vs, k).Raised? ==>
      exists i :: 0 <= i < k && vs[i] == Raised(Written(vs, k).error) && forall j :: 0 <= j < i ==> vs[j].Ok?
    decreases k
  {
    if k > 0 {
      WrittenError(vs, k - 1);
      WrittenLines(vs, k - 1);
    }
  }

  /** The cleaned candidates of one question, in order. */
  function Cleaned(sqls: seq<string>): seq<string>
    decreases |sqls|
  {
    if sqls == [] then [] else Cleaned(sqls[..|sqls| - 1]) + [Clean(sqls[|sqls| - 1])]
  }

  /** Cleaning keeps the number of candidates and cleans each one in place. */
  lemma {:induction false} CleanedAt(sqls: seq<string>)
    ensures |Cleaned(sqls)| == |sqls|
    ensures forall i :: 0 <= i < |sqls| ==> Cleaned(sqls)[i] == Clean(sqls[i])
    decreases |sqls|
  {
    if sqls != [] {
      var init := sqls[..|sqls| - 1];
      CleanedAt(init);
      forall i | 0 <= i < |sqls| - 1 ensures Cleaned(sqls)[i] == Clean(sqls[i]) {
        assert init[i] == sqls[i];
      }
    }
  }
}
