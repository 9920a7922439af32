/** Uses of the precomputed links (`utils/linking_utils/application.py`): masking the
    linked positions of a question, the question pattern that compares questions by
    structure, and the tables a question is linked to. Link keys arrive already parsed
    into `(question position, column or table id)` pairs. */
module Application {
  import opened Text
  import SchemaLinking
  import CellLinking
  import MatchShift
  import Utils

  type Key = SchemaLinking.Key

  /** One preprocessed example, as far as these functions read it. */
  datatype Linked = Linked(
    question: seq<string>,                       // question_for_copying
    colMatch: map<Key, SchemaLinking.Flag>,      // sc_link["q_col_match"]
    tabMatch: map<Key, SchemaLinking.Flag>,      // sc_link["q_tab_match"]
    cellMatch: map<Key, CellLinking.CellFlag>,   // cv_link["cell_match"]
    numDateMatch: map<Key, string>,              // cv_link["num_date_match"]
    tableNames: seq<string>,                     // table_names_original
    columnToTable: map<nat, nat>,                // column_to_table
    query: string)

  /** The question positions of a link dictionary: `int(key.split(',')[0])` over its keys. */
  function Positions<V>(m: map<Key, V>): set<nat> {
    set k | k in m :: k.0
  }

  // ---------------------------------------------------------------------------
  // mask

  /** What `mask(question_toks, mask_ids, tag)` returns: each listed position replaced by
      `tag`, every other token kept. */
  function Masked(toks: seq<string>, ids: set<nat>, tag: string): (r: seq<string>)
    ensures |r| == |toks|
  {
    seq(|toks|, i requires 0 <= i < |toks| => if i in ids then tag else toks[i])
  }

  /** `mask`: walk the tokens, appending `tag` for a listed position and the token
      otherwise. */
  method Mask(toks: seq<string>, ids: set<nat>, tag: string) returns (r: seq<string>)
    ensures r == Masked(toks, ids, tag)
  {
    r := [];
    for i := 0 to |toks|
      invariant r == Masked(toks[..i], ids, tag)
    {
      if i in ids {
        r := r + [tag];
      } else {
        r := r + [toks[i]];
      }
      assert r == Masked(toks[..i + 1], ids, tag);
    }
    assert toks[..|toks|] == toks;
  }

  /** Two masks with the same tag are one mask of both sets of positions. */
  lemma MaskedUnion(toks: seq<string>, a: set<nat>, b: set<nat>, tag: string)
    ensures Masked(Masked(toks, a, tag), b, tag) == Masked(toks, a + b, tag)
  {
    var m := Masked(Masked(toks, a, tag), b, tag);
    forall i | 0 <= i < |toks| ensures m[i] == Masked(toks, a + b, tag)[i] {
    }
  }

  /** The later mask wins: the earlier one may as well skip the positions it covers. */
  lemma MaskedOverride(toks: seq<string>, a: set<nat>, b: set<nat>, x: string, y: string)
    ensures Masked(Masked(toks, a, x), b, y) == Masked(Masked(toks, a - b, x), b, y)
  {
    var m := Masked(Masked(toks, a, x), b, y);
    forall i | 0 <= i < |toks| ensures m[i] == Masked(Masked(toks, a - b, x), b, y)[i] {
    }
  }

  // ---------------------------------------------------------------------------
  // mask_question_with_schema_linking

  /** Positions linked to a value: every number/date match and every cell match. */
  function ValuePositions(r: Linked): set<nat> {
    Positions(r.numDateMatch) + Positions(r.cellMatch)
  }

  /** Positions linked to a column or a table. */
  function SchemaPositions(r: Linked): set<nat> {
    Positions(r.colMatch) + Positions(r.tabMatch)
  }

  /** The tokens of the masked question: a schema-linked position carries `maskTag`, a
      position linked only to a value carries `valueTag`, any other keeps its token. */
  function MaskedTokens(r: Linked, maskTag: string, valueTag: string): (ts: seq<string>)
    ensures |ts| == |r.question|
    ensures forall i | 0 <= i < |ts| ::
      ts[i] == (if i in SchemaPositions(r) then maskTag
                else if i in ValuePositions(r) then valueTag
                else r.question[i])
  {
    Masked(Masked(r.question, ValuePositions(r), valueTag), SchemaPositions(r), maskTag)
  }

  /** `match_shift` does not change the masked question: every position with a schema
      link keeps at least one, no new position gains one, and the cell links it drops
      are at positions the schema mask covers anyway. */
  lemma ShiftIrrelevant(r: Linked, newCol: map<Key, SchemaLinking.Flag>,
                        newTab: map<Key, SchemaLinking.Flag>,
                        newCell: map<Key, CellLinking.CellFlag>, maskTag: string, valueTag: string)
    requires forall k | k in newCol :: k in r.colMatch
    requires forall k | k in newTab :: k in r.tabMatch
    requires forall q: nat | MatchShift.Relevant(r.colMatch, r.tabMatch, q) ::
      (exists c :: (q, c) in newCol) || (exists c :: (q, c) in newTab)
    requires forall k: Key :: k in newCell <==> k in r.cellMatch && !MatchShift.Relevant(r.colMatch, r.tabMatch, k.0)
    ensures Masked(Masked(r.question, Positions(r.numDateMatch) + Positions(newCell), valueTag),
                   Positions(newCol) + Positions(newTab), maskTag)
         == MaskedTokens(r, maskTag, valueTag)
  {
    var s := SchemaPositions(r);
    var v' := Positions(r.numDateMatch) + Positions(newCell);
    assert Positions(newCol) + Positions(newTab) == s by {
      forall q | q in s ensures q in Positions(newCol) + Positions(newTab) {
        assert MatchShift.Relevant(r.colMatch, r.tabMatch, q);
        if c :| (q, c) in newCol {
          assert q == (q, c).0;
        } else {
          var c :| (q, c) in newTab;
          assert q == (q, c).0;
        }
      }
    }
    assert v' - s == ValuePositions(r) - s by {
      forall q | q in ValuePositions(r) - s ensures q in v' {
        if q !in Positions(r.numDateMatch) {
          var k :| k in r.cellMatch && k.0 == q;
          assert !MatchShift.Relevant(r.colMatch, r.tabMatch, q);
          assert k in newCell;
        }
      }
      forall q | q in v' - s ensures q in ValuePositions(r) {
        if q !in Positions(r.numDateMatch) {
          var k :| k in newCell && k.0 == q;
          assert k in r.cellMatch;
        }
      }
    }
    MaskedOverride(r.question, v', s, valueTag, maskTag);
    MaskedOverride(r.question, ValuePositions(r), s, valueTag, maskTag);
  }

  /** One iteration of `mask_question_with_schema_linking`: shift the links, mask the
      value positions, then the schema positions, and join the tokens with spaces. The
      result is the masking of the unshifted links. */
  method MaskQuestion(r: Linked, maskTag: string, valueTag: string) returns (s: string)
    requires MatchShift.WellFlagged(r.colMatch, r.tabMatch)
    ensures s == Join(" ", MaskedTokens(r, maskTag, valueTag))
  {
    var newCol, newTab, newCell, g, pri := MatchShift.MatchShiftLinks(r.colMatch, r.tabMatch, r.cellMatch);
    var toks := Mask(r.question, Positions(r.numDateMatch) + Positions(newCell), valueTag);
    toks := Mask(toks, Positions(newCol) + Positions(newTab), maskTag);
    ShiftIrrelevant(r, newCol, newTab, newCell, maskTag, valueTag);
    s := Join(" ", toks);
  }

  /** `mask_question_with_schema_linking`: one masked question per example. The link
      flags are those `compute_schema_linking` produces. */
  method MaskQuestionsWithSchemaLinking(data: seq<Linked>, maskTag: string, valueTag: string)
    returns (out: seq<string>)
    requires forall i | 0 <= i < |data| :: MatchShift.WellFlagged(data[i].colMatch, data[i].tabMatch)
    ensures |out| == |data|
    ensures forall i | 0 <= i < |data| :: out[i] == Join(" ", MaskedTokens(data[i], maskTag, valueTag))
  {
    out := [];
    for i := 0 to |data|
      invariant |out| == i
      invariant forall j | 0 <= j < i :: out[j] == Join(" ", MaskedTokens(data[j], maskTag, valueTag))
    {
      var s := MaskQuestion(data[i], maskTag, valueTag);
      out := out + [s];
    }
  }

  // ---------------------------------------------------------------------------
  // get_question_pattern_with_schema_linking

  /** One iteration of `get_question_pattern_with_schema_linking`: both masks use `_`
      and the links are not shifted. The pattern is the question with every linked
      position replaced by `_`, and it is what the masking above gives with `_` for both
      tags. */
  method QuestionPattern(r: Linked) returns (s: string)
    ensures s == Join(" ", Masked(r.question, ValuePositions(r) + SchemaPositions(r), "_"))
    ensures s == Join(" ", MaskedTokens(r, "_", "_"))
  {
    var toks := Mask(r.question, Positions(r.numDateMatch) + Positions(r.cellMatch), "_");
    toks := Mask(toks, Positions(r.colMatch) + Positions(r.tabMatch), "_");
    MaskedUnion(r.question, ValuePositions(r), SchemaPositions(r), "_");
    s := Join(" ", toks);
  }

  /** `get_question_pattern_with_schema_linking`: one pattern per example. */
  method QuestionPatterns(data: seq<Linked>) returns (out: seq<string>)
    ensures |out| == |data|
    ensures forall i | 0 <= i < |data| ::
      out[i] == Join(" ", Masked(data[i].question, ValuePositions(data[i]) + SchemaPositions(data[i]), "_"))
  {
    out := [];
    for i := 0 to |data|
      invariant |out| == i
      invariant forall j | 0 <= j < i ::
        out[j] == Join(" ", Masked(data[j].question, ValuePositions(data[j]) + SchemaPositions(data[j]), "_"))
    {
      var s := QuestionPattern(data[i]);
      out := out + [s];
    }
  }

  // ---------------------------------------------------------------------------
  // get_relevant_tables

  /** The lookups `get_relevant_tables` makes succeed: every matched column, and every
      column with an exact cell match, has a table in `column_to_table`, and every table
      id reached names a table. */
  predicate Resolvable(r: Linked) {
    && (forall k | k in r.colMatch :: k.1 in r.columnToTable && r.columnToTable[k.1] < |r.tableNames|)
    && (forall k | k in r.tabMatch :: k.1 < |r.tableNames|)
    && (forall k | k in r.cellMatch && r.cellMatch[k] == CellLinking.CellExact ::
          k.1 in r.columnToTable && r.columnToTable[k.1] < |r.tableNames|)
  }

  function ColumnTables(keys: set<Key>, ctt: map<nat, nat>): set<nat>
    requires forall k | k in keys :: k.1 in ctt
  {
    set k | k in keys :: ctt[k.1]
  }

  function TableIds(keys: set<Key>): set<nat> {
    set k | k in keys :: k.1
  }

  function ExactKeys(cell: map<Key, CellLinking.CellFlag>): set<Key> {
    set k | k in cell && cell[k] == CellLinking.CellExact
  }

  /** The linked tables: those of the matched columns, the matched tables, and those of
      the columns some cell of which matches exactly (a partial cell match adds none). */
  function LinkedTables(r: Linked): (ts: set<nat>)
    requires Resolvable(r)
    ensures forall t | t in ts :: t < |r.tableNames|
    ensures forall k | k in r.tabMatch :: k.1 in ts
    ensures forall k | k in r.colMatch :: r.columnToTable[k.1] in ts
  {
    ColumnTables(r.colMatch.Keys, r.columnToTable) + TableIds(r.tabMatch.Keys)
      + ColumnTables(ExactKeys(r.cellMatch), r.columnToTable)
  }

  /** The loops over `q_col_match` and over the exact entries of `cell_match`: add the
      table of each column. */
  method AddColumnTables(acc0: set<nat>, keys: set<Key>, ctt: map<nat, nat>) returns (acc: set<nat>)
    requires forall k | k in keys :: k.1 in ctt
    ensures acc == acc0 + ColumnTables(keys, ctt)
  {
    acc := acc0;
    var todo := keys;
    while todo != {}
      invariant todo <= keys
      invariant acc == acc0 + ColumnTables(keys - todo, ctt)
      decreases |todo|
    {
      var k :| k in todo;
      assert ColumnTables(keys - (todo - {k}), ctt) == ColumnTables(keys - todo, ctt) + {ctt[k.1]};
      acc := acc + {ctt[k.1]};
      todo := todo - {k};
    }
    assert keys - todo == keys;
  }

  /** The loop over `q_tab_match`: add each matched table. */
  method AddTableIds(acc0: set<nat>, keys: set<Key>) returns (acc: set<nat>)
    ensures acc == acc0 + TableIds(keys)
  {
    acc := acc0;
    var todo := keys;
    while todo != {}
      invariant todo <= keys
      invariant acc == acc0 + TableIds(keys - todo)
      decreases |todo|
    {
      var k :| k in todo;
      assert TableIds(keys - (todo - {k})) == TableIds(keys - todo) + {k.1};
      acc := acc + {k.1};
      todo := todo - {k};
    }
    assert keys - todo == keys;
  }

  /** `list(set(xs))`: the distinct elements in some order (the order of a Python set is
      not modelled). */
  method ListOfSet<T>(s: set<T>) returns (xs: seq<T>)
    ensures Utils.Distinct(xs)
    ensures forall x :: x in xs <==> x in s
    ensures |xs| == |s|
  {
    xs := [];
    var todo := s;
    while todo != {}
      invariant todo <= s
      invariant Utils.Distinct(xs)
      invariant forall x :: x in xs <==> x in s && x !in todo
      invariant |xs| + |todo| == |s|
      decreases |todo|
    {
      var x :| x in todo;
      xs := xs + [x];
      todo := todo - {x};
    }
  }

  /** `[table_names[id] for id in ids]`, and all the names when that is empty. */
  function NamesOf(tableNames: seq<string>, ids: seq<nat>): seq<string>
    requires forall i | 0 <= i < |ids| :: ids[i] < |tableNames|
  {
    if ids == [] then tableNames
    else seq(|ids|, i requires 0 <= i < |ids| => tableNames[ids[i]])
  }

  /** `names` lists the names of the tables `ts`, each table once, in some order; or all
      table names when `ts` is empty. */
  ghost predicate ListsTables(tableNames: seq<string>, ts: set<nat>, names: seq<string>) {
    exists ids: seq<nat> ::
      && Utils.Distinct(ids)
      && (forall t :: t in ids <==> t in ts)
      && (forall i | 0 <= i < |ids| :: ids[i] < |tableNames|)
      && names == NamesOf(tableNames, ids)
  }

  /** The relevant names of an example: those of its linked tables. */
  ghost predicate RelevantNames(r: Linked, names: seq<string>) {
    Resolvable(r) && ListsTables(r.tableNames, LinkedTables(r), names)
  }

  /** What a listing of tables promises: its entries are table names, each listed table
      is among them, once; an empty listing stands for all of the tables. */
  lemma ListsTablesSound(tableNames: seq<string>, ts: set<nat>, names: seq<string>)
    requires ListsTables(tableNames, ts, names)
    ensures forall n | n in names :: n in tableNames
    ensures forall t | t in ts :: t < |tableNames| && tableNames[t] in names
    ensures ts == {} ==> names == tableNames
    ensures ts != {} ==> |names| == |ts|
  {
    var ids: seq<nat> :| && Utils.Distinct(ids)
                         && (forall t :: t in ids <==> t in ts)
                         && (forall i | 0 <= i < |ids| :: ids[i] < |tableNames|)
                         && names == NamesOf(tableNames, ids);
    if ids != [] {
      forall n | n in names ensures n in tableNames {
        var i :| 0 <= i < |names| && names[i] == n;
        assert ids[i] in ids;
      }
      forall t | t in ts ensures t < |tableNames| && tableNames[t] in names {
        var i :| 0 <= i < |ids| && ids[i] == t;
        assert names[i] == tableNames[t];
      }
      DistinctCard(ids, ts);
    } else {
      assert forall t :: t !in ts;
    }
  }

  /** What the relevant names of an example promise. */
  lemma RelevantNamesSound(r: Linked, names: seq<string>)
    requires Resolvable(r) && RelevantNames(r, names)
    ensures forall n | n in names :: n in r.tableNames
    ensures forall t | t in LinkedTables(r) :: r.tableNames[t] in names
    ensures LinkedTables(r) == {} ==> names == r.tableNames
    ensures LinkedTables(r) != {} ==> |names| == |LinkedTables(r)|
  {
    ListsTablesSound(r.tableNames, LinkedTables(r), names);
  }

  /** A sequence without repeats is as long as the set of its elements. */
  lemma {:induction false} DistinctCard<T>(xs: seq<T>, s: set<T>)
    requires Utils.Distinct(xs)
    requires forall x :: x in xs <==> x in s
    ensures |xs| == |s|
    decreases |xs|
  {
    if xs != [] {
      var last := xs[|xs| - 1];
      var init := xs[..|xs| - 1];
      forall x ensures x in init <==> x in s - {last} {
        if x in init {
          var i :| 0 <= i < |init| && init[i] == x;
          assert xs[i] == x;
        }
        if x in s - {last} {
          var i :| 0 <= i < |xs| && xs[i] == x;
          assert i != |xs| - 1;
          assert init[i] == x;
        }
      }
      DistinctCard(init, s - {last});
    }
  }

  /** `list(set(ids))` followed by the name lookup and the fallback to all names. */
  method NameTables(tableNames: seq<string>, ts: set<nat>) returns (ids: seq<nat>, names: seq<string>)
    requires forall t | t in ts :: t < |tableNames|
    ensures Utils.Distinct(ids) && (forall t :: t in ids <==> t in ts)
    ensures ListsTables(tableNames, ts, names)
  {
    ids := ListOfSet(ts);
    forall i | 0 <= i < |ids| ensures ids[i] < |tableNames| {
      assert ids[i] in ts;
    }
    names := if ids == [] then tableNames
             else seq(|ids|, i requires 0 <= i < |ids| => tableNames[ids[i]]);
    assert names == NamesOf(tableNames, ids);
  }

  /** The relevant-table part of one iteration of `get_relevant_tables`: collect the
      table ids, deduplicate them, and look up their names, falling back to all names. */
  method RelevantTableNames(r: Linked) returns (ids: seq<nat>, names: seq<string>)
    requires Resolvable(r)
    ensures Utils.Distinct(ids) && (forall t :: t in ids <==> t in LinkedTables(r))
    ensures RelevantNames(r, names)
  {
    var acc := AddColumnTables({}, r.colMatch.Keys, r.columnToTable);
    acc := AddTableIds(acc, r.tabMatch.Keys);
    acc := AddColumnTables(acc, ExactKeys(r.cellMatch), r.columnToTable);
    assert acc == LinkedTables(r);
    ids, names := NameTables(r.tableNames, acc);
  }

  /** `table_name.lower() in token.split('.')`: the (lowered) token names the table on its
      own or as one part of a dotted name. */
  predicate Mentions(token: string, name: string) {
    LowerStr(name) in SplitOn(token, '.')
  }

  /** The gold query's tables: the table names some token of the lowered query
      mentions. */
  function Mentioned(query: string, tableNames: seq<string>): set<string> {
    MentionedBy(SplitWs(LowerStr(query)), tableNames)
  }

  /** The table names some token of `tokens` mentions. */
  function MentionedBy(tokens: seq<string>, tableNames: seq<string>): set<string> {
    set n | n in tableNames && exists t | t in tokens :: Mentions(t, n)
  }

  /** The nested loops building `true_relevant_table_names`: each token of the lowered
      query against each table name. */
  method MentionedTables(query: string, tableNames: seq<string>) returns (found: set<string>)
    ensures found == Mentioned(query, tableNames)
    ensures forall n | n in found :: n in tableNames
  {
    var tokens := SplitWs(LowerStr(query));
    found := {};
    for i := 0 to |tokens|
      invariant found == MentionedBy(tokens[..i], tableNames)
    {
      found := AddMentioned(found, tokens[i], tableNames);
      MentionedByPrefix(tokens, i, tableNames);
    }
    assert tokens[..|tokens|] == tokens;
    MentionedByNames(tokens, tableNames);
  }

  /** The inner loop: each table name against one token. */
  method AddMentioned(found0: set<string>, token: string, tableNames: seq<string>) returns (found: set<string>)
    ensures found == found0 + MentionedBy([token], tableNames)
  {
    found := found0;
    for j := 0 to |tableNames|
      invariant found == found0 + MentionedBy([token], tableNames[..j])
    {
      if Mentions(token, tableNames[j]) {
        found := found + {tableNames[j]};
      }
      MentionedByStep(token, tableNames, j);
    }
    assert tableNames[..|tableNames|] == tableNames;
  }

  lemma MentionedByNames(tokens: seq<string>, tableNames: seq<string>)
    ensures forall n | n in MentionedBy(tokens, tableNames) :: n in tableNames
  {
  }

  lemma MentionedByPrefix(tokens: seq<string>, i: nat, tableNames: seq<string>)
    requires i < |tokens|
    ensures MentionedBy(tokens[..i + 1], tableNames)
         == MentionedBy(tokens[..i], tableNames) + MentionedBy([tokens[i]], tableNames)
  {
    assert tokens[..i + 1] == tokens[..i] + [tokens[i]];
    MentionedByAppend(tokens[..i], tokens[i], tableNames);
  }

  lemma MentionedByStep(token: string, tableNames: seq<string>, j: nat)
    requires j < |tableNames|
    ensures MentionedBy([token], tableNames[..j + 1])
         == MentionedBy([token], tableNames[..j])
            + (if Mentions(token, tableNames[j]) then {tableNames[j]} else {})
  {
    assert tableNames[..j + 1] == tableNames[..j] + [tableNames[j]];
  }

  lemma MentionedByAppend(tokens: seq<string>, token: string, tableNames: seq<string>)
    ensures MentionedBy(tokens + [token], tableNames)
         == MentionedBy(tokens, tableNames) + MentionedBy([token], tableNames)
  {
    forall n ensures n in MentionedBy(tokens + [token], tableNames)
                 ==> n in MentionedBy(tokens, tableNames) + MentionedBy([token], tableNames) {
      if n in MentionedBy(tokens + [token], tableNames) {
        var t :| t in tokens + [token] && Mentions(t, n);
        if t in tokens {
          assert n in MentionedBy(tokens, tableNames);
        } else {
          assert t == token;
        }
      }
    }
  }

  /** The `for true_table ...: if true_table not in relevant_table_names: ... break`
      loop: whether some gold table is missing from the relevant names. */
  method AnyMissing(trueTables: seq<string>, names: seq<string>) returns (missing: bool)
    ensures missing <==> exists t | t in trueTables :: t !in names
  {
    missing := false;
    for i := 0 to |trueTables|
      invariant !missing
      invariant forall j | 0 <= j < i :: trueTables[j] in names
    {
      if trueTables[i] !in names {
        missing := true;
        break;
      }
    }
  }

  /** A gold table of `r` is missing from `names`: the example is a bad case. */
  predicate Missed(r: Linked, names: seq<string>) {
    exists n | n in Mentioned(r.query, r.tableNames) :: n !in names
  }

  /** The number of bad cases among the examples. */
  function MissCount(data: seq<Linked>, tables: seq<seq<string>>): (n: nat)
    requires |tables| == |data|
    ensures n <= |data|
  {
    if data == [] then 0
    else MissCount(data[..|data| - 1], tables[..|tables| - 1])
         + (if Missed(data[|data| - 1], tables[|tables| - 1]) then 1 else 0)
  }

  /** One iteration of `get_relevant_tables` after the relevant names: the gold tables,
      and whether one of them is missing. */
  method RelevantFor(r: Linked) returns (names: seq<string>, missing: bool)
    requires Resolvable(r)
    ensures RelevantNames(r, names)
    ensures missing <==> Missed(r, names)
  {
    var ids;
    ids, names := RelevantTableNames(r);
    var found := MentionedTables(r.query, r.tableNames);
    var trueTables := ListOfSet(found);
    missing := AnyMissing(trueTables, names);
  }

  /** Every example of `data` has its relevant names in `tables`. */
  ghost predicate AllRelevant(data: seq<Linked>, tables: seq<seq<string>>)
    requires |tables| == |data|
  {
    forall j | 0 <= j < |data| :: RelevantNames(data[j], tables[j])
  }

  /** One more example with its relevant names extends the listing. */
  lemma RelevantStep(data: seq<Linked>, tables: seq<seq<string>>, i: nat, names: seq<string>)
    requires i < |data| && |tables| == i
    requires AllRelevant(data[..i], tables) && RelevantNames(data[i], names)
    ensures AllRelevant(data[..i + 1], tables + [names])
  {
    var d, t := data[..i + 1], tables + [names];
    forall j | 0 <= j < |d| ensures RelevantNames(d[j], t[j]) {
      if j < i {
        assert d[j] == data[..i][j] && t[j] == tables[j];
      }
    }
  }

  /** One more example adds one to the count exactly when it is a bad case. */
  lemma MissCountStep(data: seq<Linked>, tables: seq<seq<string>>, i: nat, names: seq<string>)
    requires i < |data| && |tables| == i
    ensures MissCount(data[..i + 1], tables + [names])
         == MissCount(data[..i], tables) + (if Missed(data[i], names) then 1 else 0)
  {
    assert data[..i + 1][..i] == data[..i];
    assert (tables + [names])[..i] == tables;
  }

  /** `get_relevant_tables`: the relevant table names of every example; every example
      adds one to the total count, and one whose gold query mentions a table outside its
      relevant names adds one to the bad count. */
  method GetRelevantTables(data: seq<Linked>, badCase0: int, totalCase0: int)
    returns (tables: seq<seq<string>>, badCase: int, totalCase: int)
    requires forall i | 0 <= i < |data| :: Resolvable(data[i])
    ensures |tables| == |data|
    ensures forall i | 0 <= i < |data| :: RelevantNames(data[i], tables[i])
    ensures totalCase == totalCase0 + |data|
    ensures badCase == badCase0 + MissCount(data, tables)
  {
    tables := [];
    badCase, totalCase := badCase0, totalCase0;
    for i := 0 to |data|
      invariant |tables| == i
      invariant AllRelevant(data[..i], tables)
      invariant totalCase == totalCase0 + i
      invariant badCase == badCase0 + MissCount(data[..i], tables)
    {
      var names, missing := RelevantFor(data[i]);
      totalCase := totalCase + 1;
      RelevantStep(data, tables, i, names);
      MissCountStep(data, tables, i, names);
      tables := tables + [names];
      if missing {
        badCase := badCase + 1;
      }
    }
    assert data[..|data|] == data;
  }
}
