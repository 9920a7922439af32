/** Cell-value linking (`compute_cell_value_linking`): question tokens are looked up in
    the database column by column, and the looked-up positions are grouped into maximal
    runs of consecutive positions, each run flagged as an exact or a partial cell match.
    The database `LIKE` lookups and `float(word)` are oracles. */
module CellLinking {
  import opened Text
  import SchemaLinking
  import Utils

  type Key = SchemaLinking.Key

  datatype CellFlag = CellExact | CellPartial

  /** A schema column: its original name, its table's original name, and its type. */
  datatype Column = Column(name: string, table: string, typ: string)

  /** The lookups the routine makes: whether `float(word)` succeeds, and whether the
      partial (`db_word_partial_match`) or exact (`db_word_exact_match`) query on a
      column returns rows. */
  datatype Db = Db(isNumber: string -> bool,
                   partial: (string, string, string) -> bool,
                   exact: (string, string, string) -> bool)

  /** A token that is looked up at all: not blank, not a stopword, not punctuation. */
  predicate Considered(stop: set<string>, word: string) {
    !AllSpace(word) && word !in stop && !SchemaLinking.IsPunct(word)
  }

  /** Number and time columns: the only ones numeric tokens are linked to. */
  predicate NumDateColumn(c: Column) {
    c.typ == "number" || c.typ == "time"
  }

  /** `column.type.upper()` for a number or time column. */
  function NumDateTag(c: Column): (tag: string)
    requires NumDateColumn(c)
    ensures c.typ == "number" <==> tag == "NUMBER"
    ensures c.typ == "time" <==> tag == "TIME"
  {
    if c.typ == "number" then "NUMBER" else "TIME"
  }

  /** Position `q` is a numeric token linked to column `c`. */
  predicate NumDateHit(stop: set<string>, db: Db, tokens: seq<string>, c: Column, q: nat) {
    q < |tokens| && Considered(stop, tokens[q]) && db.isNumber(tokens[q]) && NumDateColumn(c)
  }

  /** Position `q` is a non-numeric token whose partial lookup in column `c` found rows. */
  predicate PartialHit(stop: set<string>, db: Db, tokens: seq<string>, c: Column, q: nat) {
    q < |tokens| && Considered(stop, tokens[q]) && !db.isNumber(tokens[q]) &&
    db.partial(tokens[q], c.name, c.table)
  }

  /** `match_q_ids` after the first `upto` tokens: the partial hits, in order. */
  function MatchIds(stop: set<string>, db: Db, tokens: seq<string>, c: Column, upto: nat): (ids: seq<nat>)
    requires upto <= |tokens|
    ensures Utils.Increasing(ids)
    ensures forall p | 0 <= p < |ids| :: ids[p] < upto
  {
    if upto == 0 then []
    else
      var prev := MatchIds(stop, db, tokens, c, upto - 1);
      if PartialHit(stop, db, tokens, c, upto - 1) then prev + [upto - 1] else prev
  }

  /** `match_q_ids` holds exactly the partial hits. */
  lemma {:induction false} MatchIdsAre(stop: set<string>, db: Db, tokens: seq<string>, c: Column, upto: nat)
    requires upto <= |tokens|
    ensures forall q: nat :: q in MatchIds(stop, db, tokens, c, upto) <==> q < upto && PartialHit(stop, db, tokens, c, q)
  {
    if upto > 0 {
      MatchIdsAre(stop, db, tokens, c, upto - 1);
    }
  }

  /** A numeric token is never cell-linked: it only goes to `num_date_match`. */
  lemma NumberNeverCell(stop: set<string>, db: Db, tokens: seq<string>, c: Column, q: nat)
    requires q < |tokens| && db.isNumber(tokens[q])
    ensures q !in MatchIds(stop, db, tokens, c, |tokens|)
  {
    MatchIdsAre(stop, db, tokens, c, |tokens|);
  }

  /** The positions among the first `upto` tokens that are linked to column `c` as
      numbers or dates. */
  function NumDateIds(stop: set<string>, db: Db, tokens: seq<string>, c: Column, upto: nat): (ids: set<nat>)
    requires upto <= |tokens|
    ensures forall q: nat :: q in ids <==> q < upto && NumDateHit(stop, db, tokens, c, q)
  {
    if upto == 0 then {}
    else
      var prev := NumDateIds(stop, db, tokens, c, upto - 1);
      if NumDateHit(stop, db, tokens, c, upto - 1) then prev + {upto - 1} else prev
  }

  /** Index `p` continues the run of index `p - 1`. */
  predicate Continues(ids: seq<nat>, p: nat)
    requires 0 < p < |ids|
  {
    ids[p] == ids[p - 1] + 1
  }

  /** The first index of the maximal run of consecutive positions holding index `p`. */
  function RunStart(ids: seq<nat>, p: nat): (s: nat)
    requires p < |ids|
    ensures s <= p
    ensures s == 0 || !Continues(ids, s)
    ensures forall x | s < x <= p :: Continues(ids, x)
  {
    if p > 0 && Continues(ids, p) then RunStart(ids, p - 1) else p
  }

  /** One past the last index of the maximal run holding index `p`. */
  function RunEnd(ids: seq<nat>, p: nat): (e: nat)
    requires p < |ids|
    ensures p < e <= |ids|
    ensures e == |ids| || !Continues(ids, e)
    ensures forall x | p < x < e :: Continues(ids, x)
    decreases |ids| - p
  {
    if p + 1 < |ids| && Continues(ids, p + 1) then RunEnd(ids, p + 1) else p + 1
  }

  /** The question tokens of the run holding index `p`: `tokens[q_f:q_t]`. */
  function RunWords(tokens: seq<string>, ids: seq<nat>, p: nat): seq<string>
    requires p < |ids|
    requires forall x | 0 <= x < |ids| :: ids[x] < |tokens|
    requires Utils.Increasing(ids)
  {
    tokens[ids[RunStart(ids, p)]..ids[RunEnd(ids, p) - 1] + 1]
  }

  /** The flag every position of the run holding index `p` gets: exact iff the run's
      joined words exact-match the column. */
  function RunFlag(db: Db, tokens: seq<string>, ids: seq<nat>, c: Column, p: nat): CellFlag
    requires p < |ids|
    requires forall x | 0 <= x < |ids| :: ids[x] < |tokens|
    requires Utils.Increasing(ids)
  {
    if db.exact(Join(" ", RunWords(tokens, ids, p)), c.name, c.table) then CellExact else CellPartial
  }

  /** Inside a run the positions are consecutive: the run's words are exactly the tokens
      at the run's positions. */
  lemma {:induction false} RunWordsAreTokens(tokens: seq<string>, ids: seq<nat>, p: nat)
    requires p < |ids|
    requires forall x | 0 <= x < |ids| :: ids[x] < |tokens|
    requires Utils.Increasing(ids)
    ensures var s, e := RunStart(ids, p), RunEnd(ids, p);
            |RunWords(tokens, ids, p)| == e - s &&
            forall x | s <= x < e :: RunWords(tokens, ids, p)[x - s] == tokens[ids[x]]
  {
    var s, e := RunStart(ids, p), RunEnd(ids, p);
    Consecutive(ids, s, e);
  }

  /** Between the ends of a stretch of continuing indices the positions go up by one. */
  lemma {:induction false} Consecutive(ids: seq<nat>, s: nat, e: nat)
    requires s < e <= |ids|
    requires forall x | s < x < e :: Continues(ids, x)
    ensures forall x | s <= x < e :: ids[x] == ids[s] + (x - s)
    decreases e - s
  {
    if e > s + 1 {
      Consecutive(ids, s, e - 1);
      assert Continues(ids, e - 1);
    }
  }

  /** Every index of a stretch that no continuing index enters or leaves has the stretch
      as its run. */
  lemma {:induction false} RunOfStretch(ids: seq<nat>, f: nat, t: nat, p: nat)
    requires f <= p < t <= |ids|
    requires f == 0 || !Continues(ids, f)
    requires t == |ids| || !Continues(ids, t)
    requires forall x | f < x < t :: Continues(ids, x)
    ensures RunStart(ids, p) == f && RunEnd(ids, p) == t
  {
    StartOfStretch(ids, f, t, p);
    EndOfStretch(ids, f, t, p);
  }

  lemma {:induction false} StartOfStretch(ids: seq<nat>, f: nat, t: nat, p: nat)
    requires f <= p < t <= |ids|
    requires f == 0 || !Continues(ids, f)
    requires forall x | f < x < t :: Continues(ids, x)
    ensures RunStart(ids, p) == f
    decreases p
  {
    if p > f {
      StartOfStretch(ids, f, t, p - 1);
    }
  }

  lemma {:induction false} EndOfStretch(ids: seq<nat>, f: nat, t: nat, p: nat)
    requires f <= p < t <= |ids|
    requires t == |ids| || !Continues(ids, t)
    requires forall x | f < x < t :: Continues(ids, x)
    ensures RunEnd(ids, p) == t
    decreases t - p
  {
    if p + 1 < t {
      EndOfStretch(ids, f, t, p + 1);
    }
  }

  /** Two indices of one run share the run, and so share the flag. */
  lemma SameRun(db: Db, tokens: seq<string>, ids: seq<nat>, c: Column, p: nat, p': nat)
    requires p < |ids| && RunStart(ids, p) <= p' < RunEnd(ids, p)
    requires forall x | 0 <= x < |ids| :: ids[x] < |tokens|
    requires Utils.Increasing(ids)
    ensures RunStart(ids, p') == RunStart(ids, p) && RunEnd(ids, p') == RunEnd(ids, p)
    ensures RunFlag(db, tokens, ids, c, p') == RunFlag(db, tokens, ids, c, p)
  {
    SameRunBounds(ids, p, p');
  }

  lemma SameRunBounds(ids: seq<nat>, p: nat, p': nat)
    requires p < |ids| && RunStart(ids, p) <= p' < RunEnd(ids, p)
    ensures RunStart(ids, p') == RunStart(ids, p) && RunEnd(ids, p') == RunEnd(ids, p)
  {
    RunOfStretch(ids, RunStart(ids, p), RunEnd(ids, p), p');
  }

  /** The token loop of one column: collects `match_q_ids` and records numeric tokens
      of a number or time column in `num_date_match`. */
  method CollectMatches(stop: set<string>, db: Db, tokens: seq<string>, colId: nat, c: Column,
                        numDate: map<Key, string>)
    returns (ids: seq<nat>, numOut: map<Key, string>)
    ensures ids == MatchIds(stop, db, tokens, c, |tokens|)
    ensures forall k: Key :: k in numOut <==> k in numDate || (k.1 == colId && NumDateHit(stop, db, tokens, c, k.0))
    ensures forall k: Key | k in numOut ::
      numOut[k] == if k.1 == colId && NumDateHit(stop, db, tokens, c, k.0) then NumDateTag(c) else numDate[k]
  {
    ids, numOut := [], numDate;
    ghost var tag := if NumDateColumn(c) then NumDateTag(c) else "";
    var q := 0;
    while q < |tokens|
      invariant q <= |tokens|
      invariant ids == MatchIds(stop, db, tokens, c, q)
      invariant Tagged(numDate, numOut, colId, NumDateIds(stop, db, tokens, c, q), tag)
    {
      var word := tokens[q];
      TokenStep(stop, db, tokens, c, q);
      if Strip(word) == [] || word in stop || SchemaLinking.IsPunct(word) {
        q := q + 1;
        continue;
      }
      if db.isNumber(word) {
        if c.typ == "number" || c.typ == "time" {
          TaggedStep(numDate, numOut, colId, NumDateIds(stop, db, tokens, c, q), tag, q);
          numOut := numOut[(q, colId) := NumDateTag(c)];
        }
      } else if db.partial(word, c.name, c.table) {
        ids := ids + [q];
      }
      q := q + 1;
    }
  }

  /** The token at `q` is skipped: blank, a stopword or punctuation. */
  predicate Skipped(stop: set<string>, word: string) {
    Strip(word) == [] || word in stop || SchemaLinking.IsPunct(word)
  }

  /** What token `q` adds to `match_q_ids` and to the numeric positions. */
  lemma TokenStep(stop: set<string>, db: Db, tokens: seq<string>, c: Column, q: nat)
    requires q < |tokens|
    ensures var w := tokens[q];
      MatchIds(stop, db, tokens, c, q + 1) ==
        if !Skipped(stop, w) && !db.isNumber(w) && db.partial(w, c.name, c.table)
        then MatchIds(stop, db, tokens, c, q) + [q] else MatchIds(stop, db, tokens, c, q)
    ensures var w := tokens[q];
      NumDateIds(stop, db, tokens, c, q + 1) ==
        if !Skipped(stop, w) && db.isNumber(w) && (c.typ == "number" || c.typ == "time")
        then NumDateIds(stop, db, tokens, c, q) + {q} else NumDateIds(stop, db, tokens, c, q)
  {
    TokenPartialStep(stop, db, tokens, c, q);
    TokenNumStep(stop, db, tokens, c, q);
  }

  lemma TokenPartialStep(stop: set<string>, db: Db, tokens: seq<string>, c: Column, q: nat)
    requires q < |tokens|
    ensures var w := tokens[q];
      MatchIds(stop, db, tokens, c, q + 1) ==
        if !Skipped(stop, w) && !db.isNumber(w) && db.partial(w, c.name, c.table)
        then MatchIds(stop, db, tokens, c, q) + [q] else MatchIds(stop, db, tokens, c, q)
  {
    StripEmpty(tokens[q]);
  }

  lemma TokenNumStep(stop: set<string>, db: Db, tokens: seq<string>, c: Column, q: nat)
    requires q < |tokens|
    ensures var w := tokens[q];
      NumDateIds(stop, db, tokens, c, q + 1) ==
        if !Skipped(stop, w) && db.isNumber(w) && (c.typ == "number" || c.typ == "time")
        then NumDateIds(stop, db, tokens, c, q) + {q} else NumDateIds(stop, db, tokens, c, q)
  {
    StripEmpty(tokens[q]);
  }

  /** `after` is `before` with the keys of column `colId` at positions `qs` set to `tag`. */
  ghost predicate Tagged(before: map<Key, string>, after: map<Key, string>, colId: nat, qs: set<nat>, tag: string) {
    && (forall k: Key :: k in after <==> k in before || (k.1 == colId && k.0 in qs))
    && (forall k: Key | k in after :: after[k] == if k.1 == colId && k.0 in qs then tag else before[k])
  }

  lemma TaggedStep(before: map<Key, string>, after: map<Key, string>, colId: nat, qs: set<nat>, tag: string, q: nat)
    requires Tagged(before, after, colId, qs, tag)
    ensures Tagged(before, after[(q, colId) := tag], colId, qs + {q}, tag)
  {
  }

  /** Writes `flag` for the positions `lo` to `hi - 1` of column `colId`. */
  method MarkRange(cell: map<Key, CellFlag>, lo: nat, hi: nat, colId: nat, flag: CellFlag)
    returns (r: map<Key, CellFlag>)
    ensures forall k: Key :: k in r <==> k in cell || (k.1 == colId && lo <= k.0 < hi)
    ensures forall k: Key | k in r :: r[k] == if k.1 == colId && lo <= k.0 < hi then flag else cell[k]
  {
    r := cell;
    var q := lo;
    while q < hi
      invariant lo <= q && (q <= hi || q == lo)
      invariant forall k: Key :: k in r <==> k in cell || (k.1 == colId && lo <= k.0 < q)
      invariant forall k: Key | k in r :: r[k] == if k.1 == colId && lo <= k.0 < q then flag else cell[k]
    {
      r := r[(q, colId) := flag];
      q := q + 1;
    }
  }

  /** `r` is `cell` after the runs of `ids` that start before index `f`: their
      positions hold their run's flag, and nothing else has changed. */
  ghost predicate GroupedUpTo(db: Db, tokens: seq<string>, ids: seq<nat>, colId: nat, c: Column,
                              cell: map<Key, CellFlag>, r: map<Key, CellFlag>, f: nat)
    requires Utils.Increasing(ids)
    requires forall x | 0 <= x < |ids| :: ids[x] < |tokens|
    requires f <= |ids|
  {
    && (forall k: Key :: k in r <==> k in cell || (k.1 == colId && k.0 in ids[..f]))
    && (forall k: Key | k in cell && !(k.1 == colId && k.0 in ids[..f]) :: r[k] == cell[k])
    && (forall p {:trigger RunFlag(db, tokens, ids, c, p)} | 0 <= p < f ::
          (ids[p], colId) in r && r[(ids[p], colId)] == RunFlag(db, tokens, ids, c, p))
  }

  /** Every index of a maximal stretch gets the flag of the stretch's words. */
  lemma StretchFlag(db: Db, tokens: seq<string>, ids: seq<nat>, c: Column, f: nat, t: nat, p: nat)
    requires Utils.Increasing(ids)
    requires forall x | 0 <= x < |ids| :: ids[x] < |tokens|
    requires f <= p < t <= |ids|
    requires f == 0 || !Continues(ids, f)
    requires t == |ids| || !Continues(ids, t)
    requires forall x | f < x < t :: Continues(ids, x)
    ensures RunFlag(db, tokens, ids, c, p)
         == if db.exact(Join(" ", tokens[ids[f]..ids[t - 1] + 1]), c.name, c.table) then CellExact else CellPartial
  {
    RunOfStretch(ids, f, t, p);
  }

  /** Writing the flag of the run from `f` to `t` over its positions extends the
      grouping to `t`. */
  lemma RunWritten(db: Db, tokens: seq<string>, ids: seq<nat>, colId: nat, c: Column,
                   cell: map<Key, CellFlag>, before: map<Key, CellFlag>, after: map<Key, CellFlag>,
                   f: nat, t: nat, flag: CellFlag)
    requires Utils.Increasing(ids)
    requires forall x | 0 <= x < |ids| :: ids[x] < |tokens|
    requires f < t <= |ids|
    requires f == 0 || !Continues(ids, f)
    requires t == |ids| || !Continues(ids, t)
    requires forall x | f < x < t :: Continues(ids, x)
    requires flag == if db.exact(Join(" ", tokens[ids[f]..ids[t - 1] + 1]), c.name, c.table) then CellExact else CellPartial
    requires GroupedUpTo(db, tokens, ids, colId, c, cell, before, f)
    requires forall k: Key :: k in after <==> k in before || (k.1 == colId && ids[f] <= k.0 < ids[t - 1] + 1)
    requires forall k: Key | k in after :: after[k] == if k.1 == colId && ids[f] <= k.0 < ids[t - 1] + 1 then flag else before[k]
    ensures GroupedUpTo(db, tokens, ids, colId, c, cell, after, t)
  {
    Consecutive(ids, f, t);
    forall p | f <= p < t
      ensures RunFlag(db, tokens, ids, c, p) == flag
    {
      StretchFlag(db, tokens, ids, c, f, t, p);
    }
    RangeIsRun(ids, f, t);
    assert ids[..t] == ids[..f] + ids[f..t];
  }

  /** The `f`/`t` loop of one column: each maximal run of consecutive positions of `ids`
      is looked up as a whole, and all its positions get the run's flag. */
  method GroupRuns(db: Db, tokens: seq<string>, ids: seq<nat>, colId: nat, c: Column,
                   cell: map<Key, CellFlag>)
    returns (r: map<Key, CellFlag>)
    requires Utils.Increasing(ids)
    requires forall x | 0 <= x < |ids| :: ids[x] < |tokens|
    ensures forall k: Key :: k in r <==> k in cell || (k.1 == colId && k.0 in ids)
    ensures forall k: Key | k in cell && !(k.1 == colId && k.0 in ids) :: r[k] == cell[k]
    ensures forall p {:trigger RunFlag(db, tokens, ids, c, p)} | 0 <= p < |ids| ::
      (ids[p], colId) in r && r[(ids[p], colId)] == RunFlag(db, tokens, ids, c, p)
  {
    r := cell;
    var f := 0;
    while f < |ids|
      invariant f <= |ids|
      invariant f == 0 || f == |ids| || !Continues(ids, f)
      invariant GroupedUpTo(db, tokens, ids, colId, c, cell, r, f)
    {
      var t := f + 1;
      while t < |ids| && ids[t] == ids[t - 1] + 1
        invariant f < t <= |ids|
        invariant forall x | f < x < t :: Continues(ids, x)
      {
        t := t + 1;
      }
      var qf, qt := ids[f], ids[t - 1] + 1;
      var words := tokens[qf..qt];
      var flag := if db.exact(Join(" ", words), c.name, c.table) then CellExact else CellPartial;
      ghost var before := r;
      r := MarkRange(r, qf, qt, colId, flag);
      RunWritten(db, tokens, ids, colId, c, cell, before, r, f, t, flag);
      f := t;
    }
    assert ids[..f] == ids;
  }

  /** A run's positions fill the range from its first to one past its last. */
  lemma RangeIsRun(ids: seq<nat>, f: nat, t: nat)
    requires Utils.Increasing(ids)
    requires f < t <= |ids|
    requires forall x | f <= x < t :: ids[x] == ids[f] + (x - f)
    ensures forall q: nat :: ids[f] <= q < ids[t - 1] + 1 <==> q in ids[f..t]
    ensures forall q: nat :: q in ids[..f] ==> q < ids[f]
  {
    forall q: nat | ids[f] <= q < ids[t - 1] + 1
      ensures q in ids[f..t]
    {
      assert ids[f..t][q - ids[f]] == q;
    }
  }

  /** The cell links of columns `1..col-1`: exactly the partial hits, each with the flag
      of its run. */
  ghost predicate CellsUpTo(stop: set<string>, db: Db, tokens: seq<string>, columns: seq<Column>,
                            cell: map<Key, CellFlag>, col: nat)
    requires col <= |columns|
  {
    && (forall k: Key :: k in cell <==>
          1 <= k.1 < col && PartialHit(stop, db, tokens, columns[k.1], k.0))
    && (forall c, p | 1 <= c < col && 0 <= p < |MatchIds(stop, db, tokens, columns[c], |tokens|)| ::
          var ids := MatchIds(stop, db, tokens, columns[c], |tokens|);
          (ids[p], c) in cell && cell[(ids[p], c)] == RunFlag(db, tokens, ids, columns[c], p))
  }

  /** The numeric links of columns `1..col-1`. */
  ghost predicate NumDateUpTo(stop: set<string>, db: Db, tokens: seq<string>, columns: seq<Column>,
                              numDate: map<Key, string>, col: nat)
    requires col <= |columns|
  {
    && (forall k: Key :: k in numDate <==>
          1 <= k.1 < col && NumDateHit(stop, db, tokens, columns[k.1], k.0))
    && (forall k: Key | k in numDate :: NumDateColumn(columns[k.1]) && numDate[k] == NumDateTag(columns[k.1]))
  }

  /** Grouping the runs of column `col` extends the cell links by that column. */
  lemma CellsStep(stop: set<string>, db: Db, tokens: seq<string>, columns: seq<Column>,
                  cell: map<Key, CellFlag>, cell': map<Key, CellFlag>, col: nat, ids: seq<nat>)
    requires 1 <= col < |columns|
    requires CellsUpTo(stop, db, tokens, columns, cell, col)
    requires ids == MatchIds(stop, db, tokens, columns[col], |tokens|)
    requires forall k: Key :: k in cell' <==> k in cell || (k.1 == col && k.0 in ids)
    requires forall k: Key | k in cell && !(k.1 == col && k.0 in ids) :: cell'[k] == cell[k]
    requires forall p {:trigger RunFlag(db, tokens, ids, columns[col], p)} | 0 <= p < |ids| ::
      (ids[p], col) in cell' && cell'[(ids[p], col)] == RunFlag(db, tokens, ids, columns[col], p)
    ensures CellsUpTo(stop, db, tokens, columns, cell', col + 1)
  {
    MatchIdsAre(stop, db, tokens, columns[col], |tokens|);
    forall c, p | 1 <= c < col + 1 && 0 <= p < |MatchIds(stop, db, tokens, columns[c], |tokens|)|
      ensures var ids' := MatchIds(stop, db, tokens, columns[c], |tokens|);
        (ids'[p], c) in cell' && cell'[(ids'[p], c)] == RunFlag(db, tokens, ids', columns[c], p)
    {
      var ids' := MatchIds(stop, db, tokens, columns[c], |tokens|);
      if c == col {
        assert RunFlag(db, tokens, ids, columns[col], p) == cell'[(ids[p], col)];
      } else {
        assert (ids'[p], c) in cell && cell[(ids'[p], c)] == RunFlag(db, tokens, ids', columns[c], p);
        assert (ids'[p], c).1 != col;
      }
    }
  }

  /** Collecting the matches of column `col` extends the numeric links by that column. */
  lemma NumDateStep(stop: set<string>, db: Db, tokens: seq<string>, columns: seq<Column>,
                    numDate: map<Key, string>, numOut: map<Key, string>, col: nat)
    requires 1 <= col < |columns|
    requires NumDateUpTo(stop, db, tokens, columns, numDate, col)
    requires forall k: Key :: k in numOut <==>
      k in numDate || (k.1 == col && NumDateHit(stop, db, tokens, columns[col], k.0))
    requires forall k: Key | k in numOut ::
      numOut[k] == if k.1 == col && NumDateHit(stop, db, tokens, columns[col], k.0)
                   then NumDateTag(columns[col]) else numDate[k]
    ensures NumDateUpTo(stop, db, tokens, columns, numOut, col + 1)
  {
  }

  /** The links `compute_cell_value_linking` produces: `cell` and `numDate` hold
      exactly the partial hits and the numeric hits of columns 1 on, each partial hit
      flagged as its run is, each numeric hit tagged with its column's type. */
  ghost predicate CellValueLinks(stop: set<string>, db: Db, tokens: seq<string>, columns: seq<Column>,
                                 numDate: map<Key, string>, cell: map<Key, CellFlag>)
  {
    && (forall k: Key :: k in cell <==> 1 <= k.1 < |columns| && PartialHit(stop, db, tokens, columns[k.1], k.0))
    && (forall col, p | 1 <= col < |columns| && 0 <= p < |MatchIds(stop, db, tokens, columns[col], |tokens|)| ::
          var ids := MatchIds(stop, db, tokens, columns[col], |tokens|);
          (ids[p], col) in cell && cell[(ids[p], col)] == RunFlag(db, tokens, ids, columns[col], p))
    && (forall k: Key :: k in numDate <==> 1 <= k.1 < |columns| && NumDateHit(stop, db, tokens, columns[k.1], k.0))
    && (forall k: Key | k in numDate :: NumDateColumn(columns[k.1]) && numDate[k] == NumDateTag(columns[k.1]))
  }

  /** `compute_cell_value_linking` with the lookups as oracles: column 0 (`*`) is
      skipped; a position is cell-linked to a column iff its token's partial lookup
      there found rows, with the exact flag iff its maximal run of such positions
      exact-matches as a whole; numeric tokens are linked, by type name, to number and
      time columns only. */
  method ComputeCellValueLinking(stop: set<string>, db: Db, tokens: seq<string>, columns: seq<Column>)
    returns (numDate: map<Key, string>, cell: map<Key, CellFlag>)
    ensures CellValueLinks(stop, db, tokens, columns, numDate, cell)
  {
    numDate, cell := map[], map[];
    var col := 0;
    while col < |columns|
      invariant col <= |columns|
      invariant CellsUpTo(stop, db, tokens, columns, cell, col)
      invariant NumDateUpTo(stop, db, tokens, columns, numDate, col)
    {
      if col == 0 {
        col := col + 1;
        continue;
      }
      var ids, numOut := CollectMatches(stop, db, tokens, col, columns[col], numDate);
      NumDateStep(stop, db, tokens, columns, numDate, numOut, col);
      var cell' := GroupRuns(db, tokens, ids, col, columns[col], cell);
      CellsStep(stop, db, tokens, columns, cell, cell', col, ids);
      numDate, cell := numOut, cell';
      col := col + 1;
    }
  }
}
