/// The catalogue of a SQLite database: which tables exist and how each column is
/// declared. CREATE TABLE adds an entry, ALTER TABLE ... ADD COLUMN appends a
/// column to one; nothing in the storefront ever drops or renames either.
module Schema {
  import Tables

  datatype ColumnType = Integer | Real | Text | Datetime

  datatype Default = NoDefault | Number(n: int) | CurrentTimestamp

  /** A column declaration. `primaryKey` stands for `INTEGER PRIMARY KEY AUTOINCREMENT`,
      the only primary key the storefront declares. */
  datatype Column = Column(
    name: string,
    ctype: ColumnType,
    primaryKey: bool,
    notNull: bool,
    unique: bool,
    default: Default)

  datatype ForeignKey = ForeignKey(column: string, refTable: string, refColumn: string)

  /** A table's columns in declaration order, its table-level UNIQUE(...) constraints
      and its FOREIGN KEY clauses. */
  datatype TableDef = TableDef(columns: seq<Column>, uniqueKeys: seq<seq<string>>, foreignKeys: seq<ForeignKey>)

  type Catalog = map<string, TableDef>

  /** `id INTEGER PRIMARY KEY AUTOINCREMENT` */
  function IdColumn(): Column {
    Column("id", Integer, true, false, false, NoDefault)
  }

  /** A nullable column with no constraint and no default. */
  function Plain(name: string, ctype: ColumnType): Column {
    Column(name, ctype, false, false, false, NoDefault)
  }

  function Names(cols: seq<Column>): set<string> {
    set i | 0 <= i < |cols| :: cols[i].name
  }

  /** A statement that names these columns of `table` is accepted by the engine:
      SQLite refuses one that names a table or a column that does not exist. */
  predicate Accepts(s: Catalog, table: string, cols: set<string>) {
    table in s && cols <= Names(s[table].columns)
  }

  /** The declaration of the column called `name`, if the table has one. */
  function Find(cols: seq<Column>, name: string): (r: Tables.Option<Column>)
    ensures r.Some? <==> name in Names(cols)
    ensures r.Some? ==> r.value in cols && r.value.name == name
  {
    if cols == [] then Tables.None
    else if cols[0].name == name then Tables.Some(cols[0])
    else
      var r := Find(cols[1..], name);
      assert Names(cols) == {cols[0].name} + Names(cols[1..]) by {
        forall x | x in Names(cols) ensures x in {cols[0].name} + Names(cols[1..]) {
          var i :| 0 <= i < |cols| && cols[i].name == x;
          if i > 0 { assert cols[1..][i - 1] == cols[i]; }
        }
        forall x | x in Names(cols[1..]) ensures x in Names(cols) {
          var i :| 0 <= i < |cols[1..]| && cols[1..][i].name == x;
          assert cols[i + 1].name == x;
        }
      }
      r
  }
}
