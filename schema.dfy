/**
 * The `members` table of the roster store as a value: its column list (what
 * `PRAGMA table_info(members)` reports, in order), its rows keyed by the
 * `id` rowid, and the AUTOINCREMENT counter that `sqlite_sequence` keeps for
 * it; and the forward migrations that `runMigrations` applies to it.
 */
module Schema {
  import opened Wrappers
  import opened Ordering

  /** A cell: SQL NULL, an INTEGER or a TEXT. */
  datatype Value = Null | Int(i: int) | Text(s: string)

  /** A column of `members`: the ones the app declares, and the legacy `class`. */
  datatype Column =
    | Id | ClanId | Name | ClassName | Class | Role | Status | PhotoUri
    | Str | Def | Agi | Mag | Luck | CreatedAt

  /** The name `PRAGMA table_info` reports for a column. */
  function ColumnName(c: Column): string
  {
    match c
    case Id => "id"
    case ClanId => "clan_id"
    case Name => "name"
    case ClassName => "className"
    case Class => "class"
    case Role => "role"
    case Status => "status"
    case PhotoUri => "photoUri"
    case Str => "str"
    case Def => "def"
    case Agi => "agi"
    case Mag => "mag"
    case Luck => "luck"
    case CreatedAt => "created_at"
  }

  /** The column a name denotes, if any. */
  function ColumnNamed(n: string): Option<Column>
  {
    if n == "id" then Some(Id)
    else if n == "clan_id" then Some(ClanId)
    else if n == "name" then Some(Name)
    else if n == "className" then Some(ClassName)
    else if n == "class" then Some(Class)
    else if n == "role" then Some(Role)
    else if n == "status" then Some(Status)
    else if n == "photoUri" then Some(PhotoUri)
    else if n == "str" then Some(Str)
    else if n == "def" then Some(Def)
    else if n == "agi" then Some(Agi)
    else if n == "mag" then Some(Mag)
    else if n == "luck" then Some(Luck)
    else if n == "created_at" then Some(CreatedAt)
    else None
  }

  /** Every column is found again under its name. */
  lemma ColumnNamedOfName(c: Column)
    ensures ColumnNamed(ColumnName(c)) == Some(c)
  {
  }

  /** A name that denotes a column is that column's name. */
  lemma NameOfColumnNamed(n: string)
    ensures ColumnNamed(n).Some? ==> ColumnName(ColumnNamed(n).value) == n
  {
  }

  /** The `name` column of `PRAGMA table_info`, in column order. */
  function Names(columns: seq<Column>): (names: seq<string>)
  {
    seq(|columns|, i requires 0 <= i < |columns| => ColumnName(columns[i]))
  }

  /** `columnExists`: a name is listed exactly when it denotes one of the columns. */
  lemma NameListed(columns: seq<Column>, n: string)
    ensures n in Names(columns) <==> ColumnNamed(n).Some? && ColumnNamed(n).value in columns
  {
    var names := Names(columns);
    if n in names {
      var i :| 0 <= i < |names| && names[i] == n;
      ColumnNamedOfName(columns[i]);
    }
    if ColumnNamed(n).Some? && ColumnNamed(n).value in columns {
      var i :| 0 <= i < |columns| && columns[i] == ColumnNamed(n).value;
      NameOfColumnNamed(n);
      assert names[i] == n;
    }
  }

  /**
   * A row: one cell per column but `id`, which is the row's key. A column
   * the table does not have reads as NULL, as a column added by `ALTER TABLE
   * ... ADD COLUMN` does in every existing row.
   */
  datatype Row = Row(clanId: Value, name: Value, className: Value, legacyClass: Value,
                     role: Value, status: Value, photoUri: Value,
                     str: Value, def: Value, agi: Value, mag: Value, luck: Value,
                     createdAt: Value)

  /** The cell of column `c` (the id is the key, not a cell). */
  function Get(r: Row, c: Column): Value
  {
    match c
    case Id => Null
    case ClanId => r.clanId
    case Name => r.name
    case ClassName => r.className
    case Class => r.legacyClass
    case Role => r.role
    case Status => r.status
    case PhotoUri => r.photoUri
    case Str => r.str
    case Def => r.def
    case Agi => r.agi
    case Mag => r.mag
    case Luck => r.luck
    case CreatedAt => r.createdAt
  }

  /** The columns of `members` as `createTables` declares them, in order. */
  const MemberColumns: seq<Column> :=
    [Id, ClanId, Name, ClassName, Role, Status, PhotoUri, Str, Def, Agi, Mag, Luck, CreatedAt]

  /** The five attribute columns, in the order `migrateAddStats` adds them. */
  const StatColumns: seq<Column> := [Str, Def, Agi, Mag, Luck]

  datatype MembersTable = MembersTable(columns: seq<Column>, rows: map<int, Row>, lastId: int)

  predicate Distinct<T(==)>(s: seq<T>)
  {
    forall i, j :: 0 <= i < j < |s| ==> s[i] != s[j]
  }

  /** The columns that every version of the table has, and the rebuild copies by name. */
  predicate HasLegacyColumns(columns: seq<Column>)
  {
    Id in columns && ClanId in columns && Name in columns
    && Role in columns && Status in columns && CreatedAt in columns
  }

  /** The NOT NULL cells are filled, and the columns the table lacks are NULL. */
  predicate RowFits(r: Row, columns: seq<Column>)
  {
    r.clanId.Int? && r.name.Text? && r.createdAt.Text?
    && (ClassName !in columns ==> r.className == Null)
    && (Class !in columns ==> r.legacyClass == Null)
    && (PhotoUri !in columns ==> r.photoUri == Null)
    && (Str !in columns ==> r.str == Null)
    && (Def !in columns ==> r.def == Null)
    && (Agi !in columns ==> r.agi == Null)
    && (Mag !in columns ==> r.mag == Null)
    && (Luck !in columns ==> r.luck == Null)
  }

  /**
   * The columns every version has are there, and every row fits the columns
   * and has an id the counter has handed out.
   */
  ghost predicate WellFormed(t: MembersTable)
  {
    HasLegacyColumns(t.columns) && 0 <= t.lastId
    && (forall id :: id in t.rows ==> 1 <= id <= t.lastId && RowFits(t.rows[id], t.columns))
  }

  /** `CREATE TABLE members (...)` on a database that has none. */
  function EmptyMembers(): (t: MembersTable)
    ensures WellFormed(t) && t.rows == map[] && t.lastId == 0
  {
    MembersTable(MemberColumns, map[], 0)
  }

  /** Every column that the inserts and selects of the store name is there. */
  predicate CurrentSchema(columns: seq<Column>)
  {
    forall c :: c in MemberColumns ==> c in columns
  }

  /** The two tables have the same row ids. */
  ghost predicate SameIds<R>(a: map<int, R>, b: map<int, R>)
  {
    forall id :: id in a <==> id in b
  }

  // ---------------------------------------------------------------------------
  // The AUTOINCREMENT counter of a rebuilt table
  // ---------------------------------------------------------------------------

  /** `m` is the largest of `ids`. */
  predicate IsMax(m: int, ids: set<int>)
  {
    m in ids && forall k :: k in ids ==> k <= m
  }

  lemma {:induction false} HasMax(ids: set<int>, x: int)
    requires x in ids
    ensures exists m :: IsMax(m, ids)
    decreases |ids|
  {
    var rest := ids - {x};
    assert forall k :: k in ids ==> k == x || k in rest;
    if y :| y in rest {
      HasMax(rest, y);
      var m :| IsMax(m, rest);
      var top := if m < x then x else m;
      assert IsMax(top, ids);
    } else {
      assert IsMax(x, ids);
    }
  }

  lemma SomeMax(ids: set<int>)
    requires exists k :: k in ids
    ensures exists m :: IsMax(m, ids)
  {
    var x :| x in ids;
    HasMax(ids, x);
  }

  /** The largest id, 0 for none: what `sqlite_sequence` holds after inserting rows with explicit ids. */
  function MaxId(ids: set<int>): (m: int)
    ensures (forall k :: k !in ids) ==> m == 0
    ensures (exists k :: k in ids) ==> m in ids
    ensures forall k :: k in ids ==> k <= m
  {
    if exists k :: k in ids then
      SomeMax(ids);
      var m :| IsMax(m, ids);
      m
    else 0
  }

  // ---------------------------------------------------------------------------
  // migrateMembersClassToClassName
  // ---------------------------------------------------------------------------

  /** The guard of the rename: `!hasClassName && hasOldClass`. */
  predicate RenameApplies(columns: seq<Column>)
  {
    ClassName !in columns && Class in columns
  }

  /** One row of `INSERT INTO members_tmp (...) SELECT id, clan_id, name, class AS className, ... FROM members`. */
  function RebuildRow(row: Row): (r: Row)
    ensures RowFits(r, MemberColumns) <==> row.clanId.Int? && row.name.Text? && row.createdAt.Text?
    ensures r.legacyClass == Null && r.photoUri == Null
  {
    assert ClassName == MemberColumns[3];
    Row(clanId := row.clanId, name := row.name, className := row.legacyClass, legacyClass := Null,
        role := row.role, status := row.status, photoUri := Null,
        str := Null, def := Null, agi := Null, mag := Null, luck := Null,
        createdAt := row.createdAt)
  }

  /**
   * Create `members_tmp` with the current columns, copy every row into it,
   * drop `members` (and its `sqlite_sequence` entry) and rename `members_tmp`.
   * The counter becomes the largest copied id.
   */
  function Rebuild(t: MembersTable): (r: MembersTable)
    requires WellFormed(t)
    ensures WellFormed(r) && r.columns == MemberColumns && SameIds(r.rows, t.rows)
  {
    var rows := map id | id in t.rows :: RebuildRow(t.rows[id]);
    var last := MaxId(t.rows.Keys);
    MembersTable(MemberColumns, rows, last)
  }

  /** `migrateMembersClassToClassName`: the rebuild, when `class` has not yet become `className`. */
  function RenameClassToClassName(t: MembersTable): (r: MembersTable)
    requires WellFormed(t)
    ensures WellFormed(r) && SameIds(r.rows, t.rows)
    ensures forall id :: id in t.rows ==> r.rows[id].clanId == t.rows[id].clanId
  {
    if RenameApplies(t.columns) then Rebuild(t) else t
  }

  // ---------------------------------------------------------------------------
  // ALTER TABLE members ADD COLUMN
  // ---------------------------------------------------------------------------

  /** `ALTER TABLE members ADD COLUMN c`: appended last; every row reads NULL there. */
  function AddColumn(t: MembersTable, c: Column): (r: MembersTable)
    requires WellFormed(t) && c !in t.columns
    ensures WellFormed(r) && r.columns == t.columns + [c] && r.rows == t.rows && r.lastId == t.lastId
  {
    var r := MembersTable(t.columns + [c], t.rows, t.lastId);
    assert forall x :: x in t.columns ==> x in r.columns;
    r
  }

  /** The columns added one after another, in the order given. */
  function AddColumns(t: MembersTable, cols: seq<Column>): (r: MembersTable)
    requires WellFormed(t) && Distinct(cols) && forall c :: c in cols ==> c !in t.columns
    ensures WellFormed(r) && r.columns == t.columns + cols && r.rows == t.rows && r.lastId == t.lastId
    decreases |cols|
  {
    if cols == [] then
      assert t.columns + cols == t.columns;
      t
    else
      var init, last := cols[..|cols| - 1], cols[|cols| - 1];
      assert cols == init + [last];
      assert last !in init by {
        assert forall k :: 0 <= k < |init| ==> init[k] == cols[k];
      }
      var mid := AddColumns(t, init);
      assert (t.columns + init) + [last] == t.columns + cols;
      AddColumn(mid, last)
  }

  // ---------------------------------------------------------------------------
  // migrateAddPhotoUri, migrateAddStats, runMigrations
  // ---------------------------------------------------------------------------

  /** `migrateAddPhotoUri`: add `photoUri` when `columnExists` says it is missing. */
  function AddPhotoUri(t: MembersTable): (r: MembersTable)
    requires WellFormed(t)
    ensures WellFormed(r)
  {
    if PhotoUri in t.columns then t else AddColumn(t, PhotoUri)
  }

  /** `candidates.filter((k) => !names.includes(k))`. */
  function Missing(candidates: seq<Column>, names: seq<Column>): (r: seq<Column>)
    ensures forall c {:trigger c in r} :: c in r <==> c in candidates && c !in names
    ensures Distinct(candidates) ==> Distinct(r)
  {
    if candidates == [] then []
    else
      var rest := Missing(candidates[1..], names);
      assert forall c :: c in candidates <==> c == candidates[0] || c in candidates[1..];
      assert Distinct(candidates) ==> Distinct(candidates[1..]) by {
        assert forall i :: 0 <= i < |candidates[1..]| ==> candidates[1..][i] == candidates[i + 1];
      }
      if candidates[0] in names then rest
      else
        assert Distinct(candidates) ==> candidates[0] !in candidates[1..] && candidates[0] !in rest;
        [candidates[0]] + rest
  }

  /** The filter looks at the first candidate, then filters the rest. */
  lemma MissingCons(x: Column, t: seq<Column>, names: seq<Column>)
    ensures Missing([x] + t, names) == (if x in names then [] else [x]) + Missing(t, names)
  {
    assert ([x] + t)[0] == x && ([x] + t)[1..] == t;
  }

  /** The filter keeps the candidates' order: filtering a concatenation concatenates the filtered parts. */
  lemma {:induction false} MissingAppend(a: seq<Column>, b: seq<Column>, names: seq<Column>)
    ensures Missing(a + b, names) == Missing(a, names) + Missing(b, names)
  {
    if a == [] {
      assert a + b == b;
    } else {
      var x, t := a[0], a[1..];
      assert a == [x] + t && a + b == [x] + (t + b);
      MissingAppend(t, b, names);
      MissingCons(x, t + b, names);
      MissingCons(x, t, names);
      var h := if x in names then [] else [x];
      assert h + (Missing(t, names) + Missing(b, names)) == (h + Missing(t, names)) + Missing(b, names);
    }
  }

  /** Nothing is missing when every candidate is already a column. */
  lemma {:induction false} MissingNone(candidates: seq<Column>, names: seq<Column>)
    requires forall c :: c in candidates ==> c in names
    ensures Missing(candidates, names) == []
  {
    if candidates != [] {
      assert candidates[0] in candidates;
      MissingNone(candidates[1..], names);
    }
  }

  /** `migrateAddStats`: add each stat column that is missing, in the order of `StatColumns`. */
  function AddStats(t: MembersTable): (r: MembersTable)
    requires WellFormed(t)
    ensures WellFormed(r)
  {
    AddColumns(t, Missing(StatColumns, t.columns))
  }

  /** `runMigrations`: the three migrations, in order. */
  function Migrate(t: MembersTable): (r: MembersTable)
    requires WellFormed(t)
    ensures WellFormed(r)
  {
    AddStats(AddPhotoUri(RenameClassToClassName(t)))
  }

  // ---------------------------------------------------------------------------
  // Properties of the migrations
  // ---------------------------------------------------------------------------

  /** The rename changes the table exactly when `className` is absent and `class` present. */
  lemma RenameFiresOnlyOnLegacy(t: MembersTable)
    requires WellFormed(t)
    ensures RenameClassToClassName(t) != t <==> RenameApplies(t.columns)
  {
    if RenameApplies(t.columns) {
      assert ClassName in RenameClassToClassName(t).columns;
    }
  }

  /** When the rename fires, `className` replaces `class` among the columns and every id stays. */
  lemma RenameReplacesColumn(t: MembersTable)
    requires WellFormed(t) && RenameApplies(t.columns)
    ensures var r := RenameClassToClassName(t);
      ClassName in r.columns && Class !in r.columns && SameIds(r.rows, t.rows)
  {
    assert ClassName == MemberColumns[3];
  }

  /**
   * When the rename fires, every row keeps its `clan_id`, `name`, `role`,
   * `status` and `created_at`; `className` takes the old `class`; `photoUri`
   * and the five stats are NULL.
   */
  lemma RenameCopiesRows(t: MembersTable, id: int)
    requires WellFormed(t) && RenameApplies(t.columns) && id in t.rows
    ensures var before, after := t.rows[id], RenameClassToClassName(t).rows[id];
      && after.clanId == before.clanId && after.name == before.name
      && after.role == before.role && after.status == before.status
      && after.createdAt == before.createdAt
      && after.className == before.legacyClass
      && after.photoUri == Null
      && after.str == Null && after.def == Null && after.agi == Null
      && after.mag == Null && after.luck == Null
  {
    var r := RenameClassToClassName(t);
    assert r == Rebuild(t);
    assert r.rows[id] == RebuildRow(t.rows[id]);
  }

  /** After the rename, `className` is a column exactly when it or `class` was one. */
  lemma RenameKeepsClassName(t: MembersTable)
    requires WellFormed(t)
    ensures ClassName in RenameClassToClassName(t).columns <==> ClassName in t.columns || Class in t.columns
  {
    if RenameApplies(t.columns) {
      RenameReplacesColumn(t);
    }
  }

  /** `photoUri` is added only when missing, and no row changes. */
  lemma AddPhotoUriOnlyIfMissing(t: MembersTable)
    requires WellFormed(t)
    ensures var r := AddPhotoUri(t);
      && r.columns == (if PhotoUri in t.columns then t.columns else t.columns + [PhotoUri])
      && r.rows == t.rows
  {
  }

  /**
   * `migrateAddStats` appends exactly the stat columns that were missing, in
   * the order of `StatColumns`, and no row changes.
   */
  lemma AddStatsAddsMissing(t: MembersTable)
    requires WellFormed(t)
    ensures var r := AddStats(t);
      var added := Missing(StatColumns, t.columns);
      && r.columns == t.columns + added
      && (forall c :: c in added <==> c in StatColumns && c !in t.columns)
      && (forall c :: c in StatColumns ==> c in r.columns)
      && r.rows == t.rows
  {
    assert forall c :: c in StatColumns ==> c in t.columns || c in Missing(StatColumns, t.columns);
  }

  /** After one run, `photoUri` and the five stats are columns, and `className` is one iff it or `class` was. */
  lemma MigrateCompletes(t: MembersTable)
    requires WellFormed(t)
    ensures var r := Migrate(t);
      && PhotoUri in r.columns
      && (forall c :: c in StatColumns ==> c in r.columns)
      && (ClassName in r.columns <==> ClassName in t.columns || Class in t.columns)
  {
    var t1 := RenameClassToClassName(t);
    var t2 := AddPhotoUri(t1);
    RenameKeepsClassName(t);
    AddPhotoUriOnlyIfMissing(t1);
    AddStatsAddsMissing(t2);
  }

  /** No row is lost, gained or changed by the two column additions; the rename keeps every id. */
  lemma MigrateKeepsRows(t: MembersTable)
    requires WellFormed(t)
    ensures SameIds(Migrate(t).rows, t.rows)
    ensures !RenameApplies(t.columns) ==> Migrate(t).rows == t.rows
  {
    AddStatsAddsMissing(AddPhotoUri(RenameClassToClassName(t)));
  }

  /** A table that already has `className`, `photoUri` and the five stats is left as it is. */
  lemma MigrateCurrentUnchanged(t: MembersTable)
    requires WellFormed(t)
    requires ClassName in t.columns && PhotoUri in t.columns
    requires forall c :: c in StatColumns ==> c in t.columns
    ensures Migrate(t) == t
  {
    MissingNone(StatColumns, t.columns);
    assert t.columns + [] == t.columns;
  }

  /** Running the migrations a second time changes nothing. */
  lemma MigrateIdempotent(t: MembersTable)
    requires WellFormed(t)
    ensures Migrate(Migrate(t)) == Migrate(t)
  {
    var r := Migrate(t);
    MigrateCompletes(t);
    if ClassName in r.columns {
      MigrateCurrentUnchanged(r);
    } else {
      var t2 := AddPhotoUri(RenameClassToClassName(t));
      AddStatsAddsMissing(t2);
      assert Class !in t2.columns;
      assert Class !in r.columns;
      MissingNone(StatColumns, r.columns);
      assert r.columns + [] == r.columns;
    }
  }

  /** Every stat column appears once. */
  lemma StatColumnsDistinct()
    ensures Distinct(StatColumns)
  {
  }

  /** One step of adding `cols` in order: the next column is still missing, and adding it extends the prefix. */
  lemma AddColumnsStep(t: MembersTable, cols: seq<Column>, i: int)
    requires WellFormed(t) && Distinct(cols) && forall c :: c in cols ==> c !in t.columns
    requires 0 <= i < |cols|
    ensures Distinct(cols[..i]) && Distinct(cols[..i + 1])
    ensures forall c :: c in cols[..i + 1] ==> c in cols
    ensures cols[i] !in AddColumns(t, cols[..i]).columns
    ensures AddColumns(t, cols[..i + 1]) == AddColumn(AddColumns(t, cols[..i]), cols[i])
  {
    assert forall c :: c in cols[..i + 1] ==> c in cols;
    assert cols[..i + 1][..i] == cols[..i];
    assert cols[i] !in cols[..i];
  }

  /** After one run the store's columns are all there exactly when `className` or `class` was. */
  lemma MigrateCurrent(t: MembersTable)
    requires WellFormed(t)
    ensures CurrentSchema(Migrate(t).columns) <==> ClassName in t.columns || Class in t.columns
  {
    MigrateCompletes(t);
  }
}
