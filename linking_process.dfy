/** Schema preprocessing (`utils/linking_process.py`): the per-database record of column
    names, table bounds, column/table maps and keys built by `preprocess_schema_uncached`,
    the per-database cache of `SpiderEncoderV2Preproc`, and its per-section list of
    preprocessed questions. Tokenisation is the presplit one (no word embedding), and
    dictionary keys written as `str(id)` are kept as the numbers themselves. */
module LinkingProcess {
  import opened Wrappers
  import opened Text
  import SchemaLinking
  import CellLinking

  /** The column a foreign key references, by the two attributes read of it: its id and
      its table's id. */
  datatype ColumnRef = ColumnRef(id: nat, table: Option<nat>)

  /** A schema column: its id, its presplit name tokens and original name, its type, the
      index of its table (none for the `*` column) and the column it references as a
      foreign key. */
  datatype Column = Column(id: nat, name: seq<string>, origName: string, typ: string,
                           table: Option<nat>, foreignKeyFor: Option<ColumnRef>)

  /** A schema table: its presplit name tokens, original name and primary-key column ids. */
  datatype Table = Table(name: seq<string>, origName: string, primaryKeys: seq<nat>)

  datatype Schema = Schema(dbId: string, columns: seq<Column>, tables: seq<Table>)

  /** The references of a schema point into it, and a foreign key joins two columns that
      both belong to a table (`column.table.id` and `foreign_key_for.table.id` are read). */
  predicate WellFormed(s: Schema) {
    && (forall i | 0 <= i < |s.columns| :: s.columns[i].table.Some? ==> s.columns[i].table.value < |s.tables|)
    && (forall i | 0 <= i < |s.columns| :: s.columns[i].foreignKeyFor.Some? ==>
          s.columns[i].table.Some? && s.columns[i].foreignKeyFor.value.table.Some?)
  }

  // ---------------------------------------------------------------------------
  // Column names

  const TableSep := "<table-sep>"
  const AnyTable := "<any-table>"

  function TypeTok(typ: string): string {
    "<type: " + typ + ">"
  }

  /** The (non-bert) name of a column: its type token, its name tokens and, when table
      names are included, the separator and its table's tokens or `<any-table>`. */
  function ColumnName(s: Schema, c: Column, includeTableName: bool): (n: seq<string>)
    requires c.table.Some? ==> c.table.value < |s.tables|
    ensures |n| >= 1 + |c.name|
  {
    [TypeTok(c.typ)] + c.name
      + (if !includeTableName then []
         else [TableSep] + (if c.table.None? then [AnyTable] else s.tables[c.table.value].name))
  }

  /** `column_names` after the first `n` columns. */
  function ColumnNames(s: Schema, includeTableName: bool, n: nat): (ns: seq<seq<string>>)
    requires WellFormed(s) && n <= |s.columns|
    ensures |ns| == n
  {
    seq(n, i requires 0 <= i < n => ColumnName(s, s.columns[i], includeTableName))
  }

  /** Each column name starts with its type token (the assertion in `preprocess_item`),
      and dropping it leaves the name tokens, followed by the table part if included. */
  lemma ColumnNameShape(s: Schema, c: Column, includeTableName: bool)
    requires c.table.Some? ==> c.table.value < |s.tables|
    ensures StartsWith(ColumnName(s, c, includeTableName)[0], "<type:")
    ensures !includeTableName ==> ColumnName(s, c, includeTableName)[1..] == c.name
    ensures includeTableName ==> ColumnName(s, c, includeTableName)[1 + |c.name|] == TableSep
  {
    assert TypeTok(c.typ)[..6] == "<type:";
  }

  /** `table_names` after the first `n` tables. */
  function TableNames(tables: seq<Table>, n: nat): (ns: seq<seq<string>>)
    requires n <= |tables|
    ensures |ns| == n && forall i | 0 <= i < n :: ns[i] == tables[i].name
  {
    seq(n, i requires 0 <= i < n => tables[i].name)
  }

  lemma ColumnNamesStep(s: Schema, includeTableName: bool, i: nat)
    requires WellFormed(s) && i < |s.columns|
    ensures ColumnNames(s, includeTableName, i + 1)
         == ColumnNames(s, includeTableName, i) + [ColumnName(s, s.columns[i], includeTableName)]
  {
  }

  // ---------------------------------------------------------------------------
  // Column and table maps

  /** `column_to_table` after the first `n` columns. */
  function ColumnToTable(cols: seq<Column>, n: nat): (m: map<nat, Option<nat>>)
    requires n <= |cols|
    ensures forall i: nat :: i in m <==> i < n
  {
    map i: nat | i < n :: cols[i].table
  }

  lemma ColumnToTableStep(cols: seq<Column>, i: nat)
    requires i < |cols|
    ensures ColumnToTable(cols, i + 1) == ColumnToTable(cols, i)[i := cols[i].table]
  {
  }

  /** `table_to_columns` after the first `n` columns: each column index appended to the
      list of its table. */
  function TableToColumns(cols: seq<Column>, n: nat): map<nat, seq<nat>>
    requires n <= |cols|
  {
    if n == 0 then map[]
    else
      var m := TableToColumns(cols, n - 1);
      match cols[n - 1].table
      case None => m
      case Some(t) => m[t := (if t in m then m[t] else []) + [n - 1]]
  }

  predicate Ascending(xs: seq<nat>) {
    forall a, b | 0 <= a < b < |xs| :: xs[a] < xs[b]
  }

  /** Each table with a column lists exactly the indices of its columns, in increasing
      order; a table without columns has no entry. */
  lemma {:induction false} TableToColumnsMeans(cols: seq<Column>, n: nat)
    requires n <= |cols|
    ensures forall t | t in TableToColumns(cols, n) ::
      TableToColumns(cols, n)[t] != [] && Ascending(TableToColumns(cols, n)[t])
    ensures forall t: nat, i: nat :: (t in TableToColumns(cols, n) && i in TableToColumns(cols, n)[t])
                                   <==> (i < n && cols[i].table == Some(t))
    ensures forall t | t in TableToColumns(cols, n) :: forall i | i in TableToColumns(cols, n)[t] :: i < n
  {
    if n > 0 {
      TableToColumnsMeans(cols, n - 1);
      var m := TableToColumns(cols, n - 1);
      match cols[n - 1].table
      case None =>
      case Some(t) =>
        var old_ := if t in m then m[t] else [];
        var m' := m[t := old_ + [n - 1]];
        assert m' == TableToColumns(cols, n);
        var ext := old_ + [n - 1];
        assert Ascending(ext) by {
          forall a, b | 0 <= a < b < |ext| ensures ext[a] < ext[b] {
            if b < |old_| {
              assert ext[a] == old_[a] && ext[b] == old_[b];
            } else {
              assert old_[a] in old_;
            }
          }
        }
    }
  }

  /** The table of the column before `i`; the table id the loop last recorded. */
  function Prev(cols: seq<Column>, i: nat): Option<nat>
    requires i <= |cols|
  {
    if i == 0 then None else cols[i - 1].table
  }

  /** Column `i` starts a new table run: its table differs from the last one recorded. */
  predicate IsBound(cols: seq<Column>, i: nat)
    requires i < |cols|
  {
    cols[i].table != Prev(cols, i)
  }

  /** `table_bounds` after the first `n` columns: the indices where the table changes
      (starting from no table). */
  function Bounds(cols: seq<Column>, n: nat): seq<nat>
    requires n <= |cols|
  {
    if n == 0 then []
    else Bounds(cols, n - 1) + (if IsBound(cols, n - 1) then [n - 1] else [])
  }

  /** The bounds are exactly the positions whose table differs from the previous one,
      in increasing order. */
  lemma {:induction false} BoundsMeans(cols: seq<Column>, n: nat)
    requires n <= |cols|
    ensures Ascending(Bounds(cols, n))
    ensures forall i: nat :: i in Bounds(cols, n) <==> i < n && IsBound(cols, i)
  {
    if n > 0 {
      BoundsMeans(cols, n - 1);
      var b := Bounds(cols, n - 1);
      if IsBound(cols, n - 1) {
        var ext := b + [n - 1];
        forall a, c | 0 <= a < c < |ext| ensures ext[a] < ext[c] {
          if c < |b| {
            assert ext[a] == b[a] && ext[c] == b[c];
          } else {
            assert b[a] in b;
          }
        }
      }
    }
  }

  /** Between two bounds the table does not change: a column whose index is passed by
      no bound since position `j` has the table of column `j`. */
  lemma {:induction false} SameTableWithinRun(cols: seq<Column>, n: nat, j: nat, i: nat)
    requires j <= i < n <= |cols|
    requires forall k: nat | j < k <= i :: k !in Bounds(cols, n)
    ensures cols[i].table == cols[j].table
    decreases i
  {
    if i > j {
      BoundsMeans(cols, n);
      assert i !in Bounds(cols, n);
      SameTableWithinRun(cols, n, j, i - 1);
    }
  }

  /** `foreign_keys` after the first `n` columns. */
  function ForeignKeys(s: Schema, n: nat): map<nat, nat>
    requires WellFormed(s) && n <= |s.columns|
  {
    if n == 0 then map[]
    else
      var m := ForeignKeys(s, n - 1);
      var c := s.columns[n - 1];
      match c.foreignKeyFor
      case None => m
      case Some(f) => m[c.id := f.id]
  }

  /** `foreign_keys_tables` after the first `n` columns (as sets; the source then turns
      each into a sorted list). */
  function ForeignKeyTables(s: Schema, n: nat): map<nat, set<nat>>
    requires WellFormed(s) && n <= |s.columns|
  {
    if n == 0 then map[]
    else
      var m := ForeignKeyTables(s, n - 1);
      var c := s.columns[n - 1];
      match c.foreignKeyFor
      case None => m
      case Some(f) =>
        var t := c.table.value;
        m[t := (if t in m then m[t] else {}) + {f.table.value}]
  }

  predicate UniqueIds(cols: seq<Column>) {
    forall i, j | 0 <= i < j < |cols| :: cols[i].id != cols[j].id
  }

  /** With distinct column ids, `foreign_keys` maps the id of each referencing column to
      the id of the column it references, and has no other entries. */
  lemma {:induction false} ForeignKeysMeans(s: Schema, n: nat)
    requires WellFormed(s) && n <= |s.columns| && UniqueIds(s.columns)
    ensures forall i | 0 <= i < n && s.columns[i].foreignKeyFor.Some? ::
      s.columns[i].id in ForeignKeys(s, n)
      && ForeignKeys(s, n)[s.columns[i].id] == s.columns[i].foreignKeyFor.value.id
    ensures forall k | k in ForeignKeys(s, n) ::
      exists i | 0 <= i < n :: s.columns[i].id == k && s.columns[i].foreignKeyFor.Some?
  {
    if n > 0 {
      ForeignKeysMeans(s, n - 1);
      var c := s.columns[n - 1];
      if c.foreignKeyFor.Some? {
        forall i | 0 <= i < n - 1 && s.columns[i].foreignKeyFor.Some?
          ensures ForeignKeys(s, n)[s.columns[i].id] == s.columns[i].foreignKeyFor.value.id
        {
          assert s.columns[i].id != c.id;
        }
      }
    }
  }

  /** Column `i` belongs to table `t` and is a foreign key into a column of table `u`. */
  predicate References(s: Schema, i: nat, t: nat, u: nat) {
    && i < |s.columns|
    && s.columns[i].foreignKeyFor.Some?
    && s.columns[i].table == Some(t)
    && s.columns[i].foreignKeyFor.value.table == Some(u)
  }

  /** `foreign_keys_tables` relates a table to exactly the tables that one of its
      columns references. */
  lemma {:induction false} ForeignKeyTablesMeans(s: Schema, n: nat)
    requires WellFormed(s) && n <= |s.columns|
    ensures forall i: nat, t: nat, u: nat | i < n && References(s, i, t, u) ::
      t in ForeignKeyTables(s, n) && u in ForeignKeyTables(s, n)[t]
    ensures forall t: nat, u: nat | t in ForeignKeyTables(s, n) && u in ForeignKeyTables(s, n)[t] ::
      exists i: nat | i < n :: References(s, i, t, u)
  {
    if n > 0 {
      ForeignKeyTablesMeans(s, n - 1);
      var m := ForeignKeyTables(s, n - 1);
      var m' := ForeignKeyTables(s, n);
      var c := s.columns[n - 1];
      if c.foreignKeyFor.Some? {
        var t0, u0 := c.table.value, c.foreignKeyFor.value.table.value;
        assert m' == m[t0 := (if t0 in m then m[t0] else {}) + {u0}];
        assert References(s, n - 1, t0, u0);
      } else {
        assert m' == m;
      }
    }
  }

  // ---------------------------------------------------------------------------
  // Primary keys

  /** The primary-key ids of every table, table after table. */
  function AllPrimaryKeys(tables: seq<Table>): seq<nat> {
    if tables == [] then []
    else AllPrimaryKeys(tables[..|tables| - 1]) + tables[|tables| - 1].primaryKeys
  }

  /** Each id of `pks` repeated `m` times in a row. */
  function Repeated(pks: seq<nat>, m: nat): seq<nat> {
    if pks == [] then [] else seq(m, _ => pks[0]) + Repeated(pks[1..], m)
  }

  /** `primary_keys`: with the issue-16 fix, every table's keys; without it, the
      comprehension iterates the last table's keys and, inside, all tables. */
  function PrimaryKeys(s: Schema, fix16: bool): seq<nat>
    requires |s.tables| > 0
  {
    if fix16 then AllPrimaryKeys(s.tables)
    else Repeated(s.tables[|s.tables| - 1].primaryKeys, |s.tables|)
  }

  /** With the fix, an id is listed exactly when some table has it as a primary key. */
  lemma {:induction false} AllPrimaryKeysMeans(tables: seq<Table>)
    ensures forall x :: x in AllPrimaryKeys(tables) <==>
      exists t | 0 <= t < |tables| :: x in tables[t].primaryKeys
  {
    if tables != [] {
      var init := tables[..|tables| - 1];
      AllPrimaryKeysMeans(init);
      forall x | x in AllPrimaryKeys(tables)
        ensures exists t | 0 <= t < |tables| :: x in tables[t].primaryKeys
      {
        if x in AllPrimaryKeys(init) {
          var t :| 0 <= t < |init| && x in init[t].primaryKeys;
          assert tables[t] == init[t];
        }
      }
      forall x | exists t | 0 <= t < |tables| :: x in tables[t].primaryKeys
        ensures x in AllPrimaryKeys(tables)
      {
        var t :| 0 <= t < |tables| && x in tables[t].primaryKeys;
        if t < |init| {
          assert tables[t] == init[t];
        }
      }
    }
  }

  /** One more multiple of a positive `m` is at least `m` more. */
  lemma MulMono(a: int, b: int, m: int)
    requires 0 < m && a < b
    ensures a * m + m <= b * m
  {
    var d := b - a;
    assert b * m == a * m + d * m;
    assert d * m == (d - 1) * m + m;
    assert (d - 1) * m >= 0;
  }

  /** The quotient is determined by any decomposition with remainder below `m`. */
  lemma DivUnique(p: int, m: int, q: int, r: int)
    requires 0 < m && 0 <= r < m && p == q * m + r
    ensures p / m == q
  {
    var q', r' := p / m, p % m;
    assert p == q' * m + r';
    if q' < q { MulMono(q', q, m); }
    if q < q' { MulMono(q, q', m); }
  }

  /** Integer division by `m` on the first block and on the following ones. */
  lemma DivStep(p: nat, m: nat)
    requires 0 < m
    ensures p < m ==> p / m == 0
    ensures m <= p ==> p / m == (p - m) / m + 1
  {
    if p < m {
      DivUnique(p, m, 0, p);
    } else {
      var q, rr := (p - m) / m, (p - m) % m;
      assert p - m == q * m + rr;
      assert p == (q + 1) * m + rr;
      DivUnique(p, m, q + 1, rr);
    }
  }

  /** Without the fix, the list has `|pks| * m` entries: each of the last table's keys
      `m` times in a row. */
  lemma RepeatedMeans(pks: seq<nat>, m: nat)
    ensures |Repeated(pks, m)| == |pks| * m
    ensures forall p | 0 <= p < |Repeated(pks, m)| ::
      0 < m && p / m < |pks| && Repeated(pks, m)[p] == pks[p / m]
  {
    RepeatedLength(pks, m);
    forall p | 0 <= p < |Repeated(pks, m)|
      ensures 0 < m && p / m < |pks| && Repeated(pks, m)[p] == pks[p / m]
    {
      RepeatedAt(pks, m, p);
    }
  }

  lemma {:induction false} RepeatedLength(pks: seq<nat>, m: nat)
    ensures |Repeated(pks, m)| == |pks| * m
  {
    if pks != [] {
      RepeatedLength(pks[1..], m);
      assert |pks| * m == m + |pks[1..]| * m;
    }
  }

  /** Entry `p` of the list is key `p / m`. */
  lemma {:induction false} RepeatedAt(pks: seq<nat>, m: nat, p: nat)
    requires p < |Repeated(pks, m)|
    ensures 0 < m && p / m < |pks| && Repeated(pks, m)[p] == pks[p / m]
  {
    var rest := pks[1..];
    RepeatedLength(rest, m);
    assert Repeated(pks, m) == seq(m, _ => pks[0]) + Repeated(rest, m);
    DivStep(p, m);
    if m <= p {
      RepeatedAt(rest, m, p - m);
    }
  }

  // ---------------------------------------------------------------------------
  // preprocess_schema_uncached

  /** The contents of a preprocessed schema. */
  datatype SchemaRecord = SchemaRecord(
    columnNames: seq<seq<string>>, tableNames: seq<seq<string>>, tableBounds: seq<nat>,
    columnToTable: map<nat, Option<nat>>, tableToColumns: map<nat, seq<nat>>,
    foreignKeys: map<nat, nat>, foreignKeysTables: map<nat, set<nat>>, primaryKeys: seq<nat>)

  /** Why `preprocess_schema_uncached` raises: the table changes do not match the
      tables (the `len(table_bounds)` assertion), or there is no last table. */
  predicate SchemaFails(s: Schema) {
    |Bounds(s.columns, |s.columns|)| != |s.tables| || |s.tables| == 0
  }

  /** A bound is recorded at most once per column. */
  lemma {:induction false} BoundsLength(cols: seq<Column>, n: nat)
    requires n <= |cols|
    ensures |Bounds(cols, n)| <= n
  {
    if n > 0 {
      BoundsLength(cols, n - 1);
    }
  }

  /** An accepted schema has a table, hence a bound, hence a column: the assertion of
      `preprocess_item` on the first column name has a column to look at. */
  lemma AcceptedHasColumns(s: Schema)
    requires !SchemaFails(s)
    ensures |s.columns| > 0
  {
    BoundsLength(s.columns, |s.columns|);
  }

  /** What `preprocess_schema_uncached` computes for a schema it accepts. */
  function Expected(s: Schema, includeTableName: bool, fix16: bool): (e: SchemaRecord)
    requires WellFormed(s) && !SchemaFails(s)
    ensures |e.tableBounds| == |s.tables| + 1 && |e.columnNames| == |s.columns|
  {
    SchemaRecord(ColumnNames(s, includeTableName, |s.columns|), TableNames(s.tables, |s.tables|),
                 Bounds(s.columns, |s.columns|) + [|s.columns|],
                 ColumnToTable(s.columns, |s.columns|), TableToColumns(s.columns, |s.columns|),
                 ForeignKeys(s, |s.columns|), ForeignKeyTables(s, |s.columns|), PrimaryKeys(s, fix16))
  }

  /** The record `preprocess_schema_uncached` fills (the bert-only normalized names are
      left out). */
  class PreprocessedSchema {
    var columnNames: seq<seq<string>>
    var tableNames: seq<seq<string>>
    var tableBounds: seq<nat>
    var columnToTable: map<nat, Option<nat>>
    var tableToColumns: map<nat, seq<nat>>
    var foreignKeys: map<nat, nat>
    var foreignKeysTables: map<nat, set<nat>>
    var primaryKeys: seq<nat>

    /** Every field starts empty. */
    constructor ()
      ensures columnNames == [] && tableNames == [] && tableBounds == [] && primaryKeys == []
      ensures columnToTable == map[] && tableToColumns == map[]
      ensures foreignKeys == map[] && foreignKeysTables == map[]
    {
      columnNames, tableNames, tableBounds, primaryKeys := [], [], [], [];
      columnToTable, tableToColumns := map[], map[];
      foreignKeys, foreignKeysTables := map[], map[];
    }

    /** The fields after the column loop has seen the first `n` columns. */
    predicate AfterColumns(s: Schema, includeTableName: bool, n: nat)
      reads this
      requires WellFormed(s) && n <= |s.columns|
    {
      && columnNames == ColumnNames(s, includeTableName, n)
      && columnToTable == ColumnToTable(s.columns, n)
      && tableToColumns == TableToColumns(s.columns, n)
      && tableBounds == Bounds(s.columns, n)
      && foreignKeys == ForeignKeys(s, n)
      && foreignKeysTables == ForeignKeyTables(s, n)
    }

    /** The fields, as one value. */
    function Contents(): SchemaRecord
      reads this
    {
      SchemaRecord(columnNames, tableNames, tableBounds, columnToTable, tableToColumns,
                   foreignKeys, foreignKeysTables, primaryKeys)
    }

    /** The fields are the preprocessing of `s`. */
    predicate Describes(s: Schema, includeTableName: bool, fix16: bool)
      reads this
      requires WellFormed(s)
    {
      !SchemaFails(s) && Contents() == Expected(s, includeTableName, fix16)
    }

    /** One step of the column loop: record column `i`. */
    method AddColumn(s: Schema, includeTableName: bool, i: nat, lastTable: Option<nat>)
      returns (newLast: Option<nat>)
      requires WellFormed(s) && i < |s.columns|
      requires AfterColumns(s, includeTableName, i) && lastTable == Prev(s.columns, i)
      modifies this
      ensures AfterColumns(s, includeTableName, i + 1) && newLast == Prev(s.columns, i + 1)
      ensures tableNames == old(tableNames) && primaryKeys == old(primaryKeys)
    {
      RecordColumn(s, includeTableName, i);
      newLast := RecordBound(s, i, lastTable);
      RecordForeignKey(s, i);
    }

    /** The column's name, its table, and its index in its table's column list. */
    method RecordColumn(s: Schema, includeTableName: bool, i: nat)
      requires WellFormed(s) && i < |s.columns|
      requires columnNames == ColumnNames(s, includeTableName, i)
      requires columnToTable == ColumnToTable(s.columns, i)
      requires tableToColumns == TableToColumns(s.columns, i)
      modifies this
      ensures columnNames == ColumnNames(s, includeTableName, i + 1)
      ensures columnToTable == ColumnToTable(s.columns, i + 1)
      ensures tableToColumns == TableToColumns(s.columns, i + 1)
      ensures tableBounds == old(tableBounds) && foreignKeys == old(foreignKeys)
      ensures foreignKeysTables == old(foreignKeysTables)
      ensures tableNames == old(tableNames) && primaryKeys == old(primaryKeys)
    {
      var c := s.columns[i];
      ColumnNamesStep(s, includeTableName, i);
      ColumnToTableStep(s.columns, i);
      columnNames := columnNames + [ColumnName(s, c, includeTableName)];
      columnToTable := columnToTable[i := c.table];
      if c.table.Some? {
        var t := c.table.value;
        var cs := if t in tableToColumns then tableToColumns[t] else [];
        tableToColumns := tableToColumns[t := cs + [i]];
      }
    }

    /** A new bound where the table changes. */
    method RecordBound(s: Schema, i: nat, lastTable: Option<nat>) returns (newLast: Option<nat>)
      requires i < |s.columns|
      requires tableBounds == Bounds(s.columns, i) && lastTable == Prev(s.columns, i)
      modifies this
      ensures tableBounds == Bounds(s.columns, i + 1) && newLast == Prev(s.columns, i + 1)
      ensures columnNames == old(columnNames) && columnToTable == old(columnToTable)
      ensures tableToColumns == old(tableToColumns) && foreignKeys == old(foreignKeys)
      ensures foreignKeysTables == old(foreignKeysTables)
      ensures tableNames == old(tableNames) && primaryKeys == old(primaryKeys)
    {
      var table := s.columns[i].table;
      newLast := lastTable;
      if lastTable != table {
        tableBounds := tableBounds + [i];
        newLast := table;
      }
    }

    /** The foreign key of the column, if it has one. */
    method RecordForeignKey(s: Schema, i: nat)
      requires WellFormed(s) && i < |s.columns|
      requires foreignKeys == ForeignKeys(s, i) && foreignKeysTables == ForeignKeyTables(s, i)
      modifies this
      ensures foreignKeys == ForeignKeys(s, i + 1) && foreignKeysTables == ForeignKeyTables(s, i + 1)
      ensures columnNames == old(columnNames) && columnToTable == old(columnToTable)
      ensures tableToColumns == old(tableToColumns) && tableBounds == old(tableBounds)
      ensures tableNames == old(tableNames) && primaryKeys == old(primaryKeys)
    {
      var c := s.columns[i];
      if c.foreignKeyFor.Some? {
        var f := c.foreignKeyFor.value;
        foreignKeys := foreignKeys[c.id := f.id];
        var t := c.table.value;
        var us := if t in foreignKeysTables then foreignKeysTables[t] else {};
        foreignKeysTables := foreignKeysTables[t := us + {f.table.value}];
      }
    }
  }

  /** `preprocess_schema_uncached` (non-bert): fill a fresh record column by column,
      close the bounds, check them against the tables, add the table names and the
      primary keys. `None` stands for the exceptions it raises. */
  method PreprocessSchemaUncached(s: Schema, includeTableName: bool, fix16: bool)
    returns (res: Option<PreprocessedSchema>)
    requires WellFormed(s)
    ensures res.None? <==> SchemaFails(s)
    ensures res.Some? ==> fresh(res.value) && res.value.Describes(s, includeTableName, fix16)
  {
    var r := new PreprocessedSchema();
    var lastTable: Option<nat> := None;
    for i := 0 to |s.columns|
      invariant r.AfterColumns(s, includeTableName, i) && lastTable == Prev(s.columns, i)
      invariant r.tableNames == [] && r.primaryKeys == []
    {
      lastTable := r.AddColumn(s, includeTableName, i, lastTable);
    }
    r.tableBounds := r.tableBounds + [|s.columns|];
    if |r.tableBounds| != |s.tables| + 1 {
      return None;
    }
    for i := 0 to |s.tables|
      invariant r.tableNames == TableNames(s.tables, i)
      invariant r.columnNames == ColumnNames(s, includeTableName, |s.columns|)
      invariant r.columnToTable == ColumnToTable(s.columns, |s.columns|)
      invariant r.tableToColumns == TableToColumns(s.columns, |s.columns|)
      invariant r.tableBounds == Bounds(s.columns, |s.columns|) + [|s.columns|]
      invariant |r.tableBounds| == |s.tables| + 1
      invariant r.foreignKeys == ForeignKeys(s, |s.columns|)
      invariant r.foreignKeysTables == ForeignKeyTables(s, |s.columns|)
    {
      r.tableNames := r.tableNames + [s.tables[i].name];
    }
    if |s.tables| == 0 {
      return None;
    }
    r.primaryKeys := PrimaryKeys(s, fix16);
    res := Some(r);
  }

  // ---------------------------------------------------------------------------
  // SpiderEncoderV2Preproc

  /** Every cached record is `Expected` of the schema it was built from, whose id is the
      record's key. */
  ghost predicate CacheSound(cache: map<string, SchemaRecord>, sources: map<string, Schema>,
                             includeTableName: bool, fix16: bool)
  {
    && sources.Keys == cache.Keys
    && forall db | db in cache ::
         && sources[db].dbId == db
         && WellFormed(sources[db]) && !SchemaFails(sources[db])
         && cache[db] == Expected(sources[db], includeTableName, fix16)
  }

  /** An item of the dataset: the question text and its presplit tokens. */
  datatype Item = Item(question: string, questionToks: seq<string>)

  /** What `preprocess_item` returns for an item. */
  datatype PreprocessedItem = PreprocessedItem(
    rawQuestion: string, dbId: string, question: seq<string>, questionForCopying: seq<string>,
    colMatch: map<SchemaLinking.Key, SchemaLinking.Flag>, tabMatch: map<SchemaLinking.Key, SchemaLinking.Flag>,
    numDateMatch: map<SchemaLinking.Key, string>, cellMatch: map<SchemaLinking.Key, CellLinking.CellFlag>,
    columns: seq<seq<string>>, tables: seq<seq<string>>, tableBounds: seq<nat>,
    columnToTable: map<nat, Option<nat>>, tableToColumns: map<nat, seq<nat>>,
    foreignKeys: map<nat, nat>, foreignKeysTables: map<nat, set<nat>>, primaryKeys: seq<nat>)

  /** The schema part of a preprocessed item. */
  function ItemSchema(p: PreprocessedItem): SchemaRecord {
    SchemaRecord(p.columns, p.tables, p.tableBounds, p.columnToTable, p.tableToColumns,
                 p.foreignKeys, p.foreignKeysTables, p.primaryKeys)
  }

  /** The columns as cell-value linking reads them: original name, the table's original
      name, type. */
  function CellColumns(s: Schema): (cs: seq<CellLinking.Column>)
    requires WellFormed(s)
    ensures |cs| == |s.columns|
  {
    seq(|s.columns|, i requires 0 <= i < |s.columns| =>
      var c := s.columns[i];
      CellLinking.Column(c.origName, if c.table.Some? then s.tables[c.table.value].origName else "", c.typ))
  }

  /** The column names with their type token dropped (`col[1:]`). */
  function WithoutTypes(names: seq<seq<string>>): (ns: seq<seq<string>>)
    ensures |ns| == |names|
  {
    seq(|names|, i requires 0 <= i < |names| => if names[i] == [] then [] else names[i][1..])
  }

  /** What `preprocess_item` returns for `item` and the schema `s` passed in, when
      the cached record is the preprocessing of `src`: the question tokens, the cached
      schema fields, and the schema and cell-value links when they are switched on
      (empty ones otherwise). */
  ghost predicate ItemMeans(p: PreprocessedItem, item: Item, s: Schema, src: Schema,
                            stop: set<string>, db: CellLinking.Db,
                            includeTableName: bool, fix16: bool, scLink: bool, cvLink: bool)
    requires WellFormed(s)
  {
    && p.rawQuestion == item.question && p.dbId == s.dbId
    && p.question == item.questionToks && p.questionForCopying == item.questionToks
    && WellFormed(src) && !SchemaFails(src) && src.dbId == s.dbId
    && ItemSchema(p) == Expected(src, includeTableName, fix16)
    && SchemaLinksOf(stop, p.question, p.columns, p.tables, scLink, p.colMatch, p.tabMatch)
    && CellLinksOf(stop, db, p.question, s, cvLink, p.numDateMatch, p.cellMatch)
  }

  /** The schema links of `preprocess_item`: the sweeps of `compute_schema_linking` over
      the column names without their type token and the table names, or none. */
  ghost predicate SchemaLinksOf(stop: set<string>, question: seq<string>, columns: seq<seq<string>>,
                                tables: seq<seq<string>>, scLink: bool,
                                colMatch: map<SchemaLinking.Key, SchemaLinking.Flag>,
                                tabMatch: map<SchemaLinking.Key, SchemaLinking.Flag>)
  {
    if scLink then
      && colMatch == SchemaLinking.Sweep(SchemaLinking.HitsFor(stop, question, WithoutTypes(columns), 1),
                                         SchemaLinking.CEM, SchemaLinking.CPM, 0, 0)
      && tabMatch == SchemaLinking.Sweep(SchemaLinking.HitsFor(stop, question, tables, 0),
                                         SchemaLinking.TEM, SchemaLinking.TPM, 0, 0)
    else
      colMatch == map[] && tabMatch == map[]
  }

  /** The cell-value links of `preprocess_item` over the columns of `s`, or none. */
  ghost predicate CellLinksOf(stop: set<string>, db: CellLinking.Db, question: seq<string>, s: Schema,
                              cvLink: bool, numDate: map<SchemaLinking.Key, string>,
                              cell: map<SchemaLinking.Key, CellLinking.CellFlag>)
    requires WellFormed(s)
  {
    if cvLink then CellLinking.CellValueLinks(stop, db, question, CellColumns(s), numDate, cell)
    else numDate == map[] && cell == map[]
  }

  /** The dictionary `preprocess_item` returns. */
  function BuildItem(item: Item, s: Schema, r: SchemaRecord,
                     colMatch: map<SchemaLinking.Key, SchemaLinking.Flag>, tabMatch: map<SchemaLinking.Key, SchemaLinking.Flag>,
                     numDate: map<SchemaLinking.Key, string>, cell: map<SchemaLinking.Key, CellLinking.CellFlag>)
    : (p: PreprocessedItem)
    ensures ItemSchema(p) == r
    ensures p.question == item.questionToks && p.questionForCopying == item.questionToks
    ensures p.colMatch == colMatch && p.tabMatch == tabMatch && p.numDateMatch == numDate && p.cellMatch == cell
  {
    PreprocessedItem(item.question, s.dbId, item.questionToks, item.questionToks, colMatch, tabMatch, numDate, cell,
                     r.columnNames, r.tableNames, r.tableBounds, r.columnToTable,
                     r.tableToColumns, r.foreignKeys, r.foreignKeysTables, r.primaryKeys)
  }

  /** Schema linking as `preprocess_item` does it. The assertion that the first column
      name starts with its type token always holds: an accepted schema has a column,
      and every column name starts that way. */
  method SchemaLinks(stop: set<string>, question: seq<string>, ghost src: Schema, r: SchemaRecord,
                     ghost includeTableName: bool, ghost fix16: bool, scLink: bool)
    returns (colMatch: map<SchemaLinking.Key, SchemaLinking.Flag>, tabMatch: map<SchemaLinking.Key, SchemaLinking.Flag>)
    requires WellFormed(src) && !SchemaFails(src) && r == Expected(src, includeTableName, fix16)
    ensures SchemaLinksOf(stop, question, r.columnNames, r.tableNames, scLink, colMatch, tabMatch)
  {
    colMatch, tabMatch := map[], map[];
    if scLink {
      AcceptedHasColumns(src);
      ColumnNameShape(src, src.columns[0], includeTableName);
      assert StartsWith(r.columnNames[0][0], "<type:");
      colMatch, tabMatch := SchemaLinking.ComputeSchemaLinking(stop, question, WithoutTypes(r.columnNames), r.tableNames);
    }
  }

  /** Cell-value linking as `preprocess_item` does it. */
  method CellLinks(stop: set<string>, db: CellLinking.Db, question: seq<string>, s: Schema, cvLink: bool)
    returns (numDate: map<SchemaLinking.Key, string>, cell: map<SchemaLinking.Key, CellLinking.CellFlag>)
    requires WellFormed(s)
    ensures CellLinksOf(stop, db, question, s, cvLink, numDate, cell)
  {
    numDate, cell := map[], map[];
    if cvLink {
      numDate, cell := CellLinking.ComputeCellValueLinking(stop, db, question, CellColumns(s));
    }
  }

  /** The body of `preprocess_item` once the schema record `r` of `src` is at hand:
      the question tokens, the record's fields, and the links as switched on. */
  method BuildFrom(item: Item, s: Schema, ghost src: Schema, r: SchemaRecord, stop: set<string>, db: CellLinking.Db,
                   includeTableName: bool, fix16: bool, scLink: bool, cvLink: bool)
    returns (p: PreprocessedItem)
    requires WellFormed(s) && WellFormed(src) && !SchemaFails(src) && src.dbId == s.dbId
    requires r == Expected(src, includeTableName, fix16)
    ensures ItemMeans(p, item, s, src, stop, db, includeTableName, fix16, scLink, cvLink)
  {
    var colMatch, tabMatch := SchemaLinks(stop, item.questionToks, src, r, includeTableName, fix16, scLink);
    var numDate, cell := CellLinks(stop, db, item.questionToks, s, cvLink);
    p := BuildItem(item, s, r, colMatch, tabMatch, numDate, cell);
  }

  /** The cache after `_preprocess_schema(s)`: unchanged on a hit or a failure,
      otherwise extended by the record of `s`. */
  ghost predicate CacheAfter(cache0: map<string, SchemaRecord>, sources0: map<string, Schema>,
                             cache: map<string, SchemaRecord>, sources: map<string, Schema>,
                             s: Schema, includeTableName: bool, fix16: bool)
    requires WellFormed(s)
  {
    if s.dbId in cache0 || SchemaFails(s) then cache == cache0 && sources == sources0
    else cache == cache0[s.dbId := Expected(s, includeTableName, fix16)] && sources == sources0[s.dbId := s]
  }

  /** One `preprocess_item` call, from the cache `cache0` to `cache`: it raises (`None`)
      exactly when the schema is not cached and its preprocessing fails, the cache
      changes as `_preprocess_schema` changes it, and a result is `ItemMeans` of the
      cached record's schema. */
  ghost predicate ItemStep(cache0: map<string, SchemaRecord>, sources0: map<string, Schema>,
                           cache: map<string, SchemaRecord>, sources: map<string, Schema>,
                           item: Item, s: Schema, stop: set<string>, db: CellLinking.Db,
                           includeTableName: bool, fix16: bool, scLink: bool, cvLink: bool,
                           res: Option<PreprocessedItem>)
    requires WellFormed(s)
  {
    && (res.None? <==> s.dbId !in cache0 && SchemaFails(s))
    && CacheAfter(cache0, sources0, cache, sources, s, includeTableName, fix16)
    && (res.Some? ==>
          && s.dbId in sources
          && ItemMeans(res.value, item, s, sources[s.dbId], stop, db, includeTableName, fix16, scLink, cvLink))
  }

  /** The preprocessor: its settings, the preprocessed items per section, and the cache
      of preprocessed schemas by database id. */
  class SpiderEncoderV2Preproc {
    const includeTableNameInColumn: bool
    const fixIssue16PrimaryKeys: bool
    const computeScLink: bool
    const computeCvLink: bool
    var texts: map<string, seq<PreprocessedItem>>
    /** The schema cache by database id, each record kept as its field values. */
    var preprocessedSchemas: map<string, SchemaRecord>
    /** The schema each cache entry was built from. */
    ghost var sources: map<string, Schema>

    /** Each cached record is the preprocessing of a schema with that database id. */
    ghost predicate Valid()
      reads this`preprocessedSchemas, this`sources
    {
      CacheSound(preprocessedSchemas, sources, includeTableNameInColumn, fixIssue16PrimaryKeys)
    }

    constructor (includeTableName: bool, fix16: bool, scLink: bool, cvLink: bool)
      ensures Valid()
      ensures includeTableNameInColumn == includeTableName && fixIssue16PrimaryKeys == fix16
      ensures computeScLink == scLink && computeCvLink == cvLink
      ensures texts == map[] && preprocessedSchemas == map[]
    {
      includeTableNameInColumn, fixIssue16PrimaryKeys := includeTableName, fix16;
      computeScLink, computeCvLink := scLink, cvLink;
      texts, preprocessedSchemas := map[], map[];
      sources := map[];
    }

    /** `_preprocess_schema`: the cached record when the database id has one (whatever
        schema is passed), otherwise a fresh record, cached when built. */
    method PreprocessSchema(s: Schema) returns (res: Option<SchemaRecord>)
      requires Valid() && WellFormed(s)
      modifies this`preprocessedSchemas, this`sources
      ensures Valid()
      ensures s.dbId in old(preprocessedSchemas) ==>
        && res == Some(old(preprocessedSchemas)[s.dbId])
        && preprocessedSchemas == old(preprocessedSchemas) && sources == old(sources)
      ensures s.dbId !in old(preprocessedSchemas) && SchemaFails(s) ==>
        res.None? && preprocessedSchemas == old(preprocessedSchemas) && sources == old(sources)
      ensures s.dbId !in old(preprocessedSchemas) && !SchemaFails(s) ==>
        && res == Some(Expected(s, includeTableNameInColumn, fixIssue16PrimaryKeys))
        && preprocessedSchemas == old(preprocessedSchemas)[s.dbId := res.value]
        && sources == old(sources)[s.dbId := s]
      ensures res.Some? ==> s.dbId in sources && res == Some(preprocessedSchemas[s.dbId])
      ensures CacheAfter(old(preprocessedSchemas), old(sources), preprocessedSchemas, sources, s,
                         includeTableNameInColumn, fixIssue16PrimaryKeys)
    {
      if s.dbId in preprocessedSchemas {
        return Some(preprocessedSchemas[s.dbId]);
      }
      var built := PreprocessSchemaUncached(s, includeTableNameInColumn, fixIssue16PrimaryKeys);
      if built.None? {
        return None;
      }
      var record := built.value.Contents();
      preprocessedSchemas := preprocessedSchemas[s.dbId := record];
      sources := sources[s.dbId := s];
      res := Some(record);
    }

    /** `preprocess_item`: tokens for copying are the presplit ones; the schema comes
        from the cache; schema linking runs on the column names without their type
        token, cell-value linking on the schema passed in. `None` stands for an
        exception, raised exactly when the schema is not cached and its preprocessing
        fails; the assertion on the first column name always holds. */
    method PreprocessItem(item: Item, s: Schema, stop: set<string>, db: CellLinking.Db)
      returns (res: Option<PreprocessedItem>)
      requires Valid() && WellFormed(s)
      modifies this`preprocessedSchemas, this`sources
      ensures Valid()
      ensures ItemStep(old(preprocessedSchemas), old(sources), preprocessedSchemas, sources, item, s, stop, db,
                       includeTableNameInColumn, fixIssue16PrimaryKeys, computeScLink, computeCvLink, res)
    {
      var pre := PreprocessSchema(s);
      if pre.None? {
        return None;
      }
      var p := BuildFrom(item, s, sources[s.dbId], pre.value, stop, db, includeTableNameInColumn,
                         fixIssue16PrimaryKeys, computeScLink, computeCvLink);
      res := Some(p);
    }

    /** `add_item`: preprocess the item and append it to its section's list; nothing is
        added when preprocessing raises. */
    method AddItem(item: Item, s: Schema, section: string, stop: set<string>, db: CellLinking.Db)
      returns (added: Option<PreprocessedItem>)
      requires Valid() && WellFormed(s)
      modifies this
      ensures Valid()
      ensures ItemStep(old(preprocessedSchemas), old(sources), preprocessedSchemas, sources, item, s, stop, db,
                       includeTableNameInColumn, fixIssue16PrimaryKeys, computeScLink, computeCvLink, added)
      ensures added.Some? ==>
        texts == old(texts)[section := (if section in old(texts) then old(texts)[section] else []) + [added.value]]
      ensures added.None? ==> texts == old(texts)
    {
      added := PreprocessItem(item, s, stop, db);
      if added.Some? {
        AppendText(section, added.value);
      }
    }

    /** `self.texts[section].append(preprocessed)` on the default dictionary. */
    method AppendText(section: string, p: PreprocessedItem)
      modifies this`texts
      ensures texts == old(texts)[section := (if section in old(texts) then old(texts)[section] else []) + [p]]
    {
      var items := if section in texts then texts[section] else [];
      texts := texts[section := items + [p]];
    }

    /** `clear_items`: forget every preprocessed item; the schema cache stays. */
    method ClearItems()
      requires Valid()
      modifies this`texts
      ensures Valid()
      ensures texts == map[]
      ensures preprocessedSchemas == old(preprocessedSchemas) && sources == old(sources)
    {
      texts := map[];
    }
  }
}
