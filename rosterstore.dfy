/**
 * The roster store: the `clans` and `members` tables of the app's local SQLite
 * database, the connection's `foreign_keys` setting, and the operations the
 * screens call on them. The SQL engine is modelled by its effect on the
 * tables: maps keyed by rowid, the AUTOINCREMENT counters of `sqlite_sequence`,
 * and the `ON DELETE CASCADE` foreign key from `members.clan_id` to `clans.id`.
 */
module RosterStore {
  import opened Wrappers
  import opened JsText
  import opened Ordering
  import opened Schema

  /** The role text of a clan's leader. */
  const LeaderRole: string := "Líder"

  /** A row of `clans` (`name` and `created_at` are NOT NULL). */
  datatype Clan = Clan(name: string, createdAt: string)

  /** A row of `SELECT id, name, created_at FROM clans`. */
  datatype ClanRecord = ClanRecord(id: int, name: string, createdAt: string)

  /** Every clan id is one the `clans` counter has handed out. */
  ghost predicate ClansFit(clans: map<int, Clan>, clanSeq: int)
  {
    0 <= clanSeq && forall id :: id in clans ==> 1 <= id <= clanSeq
  }

  /** Every member's `clan_id` is an existing clan: what `FOREIGN KEY(clan_id) REFERENCES clans(id)` keeps. */
  ghost predicate Integrity(clans: map<int, Clan>, rows: map<int, Row>)
  {
    forall id :: id in rows ==> rows[id].clanId.Int? && rows[id].clanId.i in clans
  }

  predicate InClan(r: Row, c: int)
  {
    r.clanId == Int(c)
  }

  predicate IsLeader(r: Row)
  {
    r.role == Text(LeaderRole)
  }

  /** The members of clan `c` whose role is `'Líder'`: the rows `clanHasLeader` counts. */
  function Leaders(rows: map<int, Row>, c: int): set<int>
  {
    set id | id in rows && InClan(rows[id], c) && IsLeader(rows[id])
  }

  /** `COUNT(*) ... > 0` holds exactly when some member of the clan is its leader. */
  lemma LeaderCount(rows: map<int, Row>, c: int)
    ensures |Leaders(rows, c)| > 0 <==> exists id :: id in rows && InClan(rows[id], c) && IsLeader(rows[id])
  {
    var s := Leaders(rows, c);
    if |s| > 0 {
      SetHasElement(s);
      var id :| id in s;
      assert id in rows && InClan(rows[id], c) && IsLeader(rows[id]);
    }
    if exists id :: id in rows && InClan(rows[id], c) && IsLeader(rows[id]) {
      var id :| id in rows && InClan(rows[id], c) && IsLeader(rows[id]);
      assert id in s;
    }
  }

  // ---------------------------------------------------------------------------
  // Row updates
  // ---------------------------------------------------------------------------

  /** `UPDATE members SET role=v WHERE id=m`. */
  function SetRole(rows: map<int, Row>, m: int, v: Value): map<int, Row>
  {
    if m in rows then rows[m := rows[m].(role := v)] else rows
  }

  /** `UPDATE members SET status=v WHERE id=m`. */
  function SetStatus(rows: map<int, Row>, m: int, v: Value): map<int, Row>
  {
    if m in rows then rows[m := rows[m].(status := v)] else rows
  }

  /** `UPDATE members SET role='' WHERE clan_id=c AND role='Líder'`. */
  function Demote(rows: map<int, Row>, c: int): (r: map<int, Row>)
    ensures SameIds(r, rows)
    ensures forall id :: id in r ==> !(InClan(r[id], c) && IsLeader(r[id]))
    ensures forall id :: id in rows ==> SameButRoleStatus(rows[id], r[id]) && r[id].status == rows[id].status
    ensures forall id :: id in rows && !(InClan(rows[id], c) && IsLeader(rows[id])) ==> r[id] == rows[id]
  {
    map id | id in rows :: if InClan(rows[id], c) && IsLeader(rows[id]) then rows[id].(role := Text("")) else rows[id]
  }

  /** The two updates of `setLeader(c, m)`: demote the leaders of `c`, then promote `m`. */
  function SetLeaderRows(rows: map<int, Row>, c: int, m: int): (r: map<int, Row>)
    ensures SameIds(r, rows)
    ensures m in rows ==> IsLeader(r[m])
    ensures forall id :: id in r && InClan(r[id], c) && IsLeader(r[id]) ==> id == m
  {
    SetRole(Demote(rows, c), m, Text(LeaderRole))
  }

  /** `b` is `a` with at most its role and status changed. */
  predicate SameButRoleStatus(a: Row, b: Row)
  {
    b == a.(role := b.role, status := b.status)
  }

  /** Rows that differ only in role and status keep the table well formed and every foreign key. */
  lemma KeepsFit(clans: map<int, Clan>, t: MembersTable, rows: map<int, Row>)
    requires WellFormed(t) && Integrity(clans, t.rows)
    requires SameIds(rows, t.rows)
    requires forall id :: id in t.rows ==> SameButRoleStatus(t.rows[id], rows[id])
    ensures WellFormed(t.(rows := rows)) && Integrity(clans, rows)
  {
    forall id | id in rows
      ensures RowFits(rows[id], t.columns) && rows[id].clanId == t.rows[id].clanId
    {
      assert SameButRoleStatus(t.rows[id], rows[id]);
    }
  }

  /** Every row of `setLeader` keeps its id and all but its role. */
  lemma SetLeaderRowsShape(rows: map<int, Row>, c: int, m: int)
    ensures var r := SetLeaderRows(rows, c, m);
      SameIds(r, rows) && forall id :: id in rows ==> SameButRoleStatus(rows[id], r[id]) && r[id].status == rows[id].status
  {
  }

  /**
   * After `setLeader(c, m)` the only possible leader of clan `c` is `m`: when
   * `m` is a member of `c` it is the one leader, and when there is no member
   * `m` the clan is left without one.
   */
  lemma SetLeaderUnique(rows: map<int, Row>, c: int, m: int)
    ensures var r := SetLeaderRows(rows, c, m);
      && (forall id :: id in r && InClan(r[id], c) && IsLeader(r[id]) ==> id == m)
      && (m in rows ==> m in r && IsLeader(r[m]))
      && (m in rows && InClan(rows[m], c) ==> Leaders(r, c) == {m})
      && (m !in rows ==> forall id :: id in r ==> !(InClan(r[id], c) && IsLeader(r[id])))
  {
    var d := Demote(rows, c);
    var r := SetLeaderRows(rows, c, m);
    assert forall id :: id in d && InClan(d[id], c) ==> !IsLeader(d[id]);
    if m in rows && InClan(rows[m], c) {
      var l := Leaders(r, c);
      assert m in l;
      assert l <= {m} && {m} <= l;
    }
  }

  /**
   * `setLeader(c, m)` changes no member outside clan `c` except `m`, and in
   * `c` it only clears the role of the old leaders; it does not look at which
   * clan `m` belongs to.
   */
  lemma SetLeaderKeepsOthers(rows: map<int, Row>, c: int, m: int)
    ensures var r := SetLeaderRows(rows, c, m);
      && SameIds(r, rows)
      && (forall id :: id in rows && id != m && !InClan(rows[id], c) ==> r[id] == rows[id])
      && (forall id :: id in rows && id != m && InClan(rows[id], c) ==>
            r[id] == (if IsLeader(rows[id]) then rows[id].(role := Text("")) else rows[id]))
      && (m in rows ==> r[m] == rows[m].(role := Text(LeaderRole)))
  {
  }

  /**
   * With no membership check, promoting a member of another clan `d` leaves
   * `c` without a leader and gives `d` a second one next to its current leader.
   */
  lemma SetLeaderAcrossClans(rows: map<int, Row>, c: int, d: int, m: int, l: int)
    requires c != d && m != l
    requires m in rows && InClan(rows[m], d)
    requires l in rows && InClan(rows[l], d) && IsLeader(rows[l])
    ensures var r := SetLeaderRows(rows, c, m);
      && l in Leaders(r, d) && m in Leaders(r, d)
      && forall id :: id in r ==> !(InClan(r[id], c) && IsLeader(r[id]))
  {
    SetLeaderKeepsOthers(rows, c, m);
    SetLeaderUnique(rows, c, m);
  }

  /** `updateMemberRole` and `updateMemberStatus` touch one cell of one row, if the row exists. */
  lemma SetCellTouchesOne(rows: map<int, Row>, m: int, v: Value)
    ensures var r := SetRole(rows, m, v);
      SameIds(r, rows) && (forall id :: id in rows && id != m ==> r[id] == rows[id])
      && (m in rows ==> r[m].role == v && SameButRoleStatus(rows[m], r[m]) && r[m].status == rows[m].status)
    ensures var r := SetStatus(rows, m, v);
      SameIds(r, rows) && (forall id :: id in rows && id != m ==> r[id] == rows[id])
      && (m in rows ==> r[m].status == v && SameButRoleStatus(rows[m], r[m]) && r[m].role == rows[m].role)
  {
  }

  // ---------------------------------------------------------------------------
  // Cascade delete
  // ---------------------------------------------------------------------------

  /** The members left by `ON DELETE CASCADE` when clan `c` is deleted. */
  function CascadeDelete(rows: map<int, Row>, c: int): (r: map<int, Row>)
    ensures forall id :: id in r <==> id in rows && !InClan(rows[id], c)
    ensures forall id :: id in r ==> r[id] == rows[id]
  {
    map id | id in rows && !InClan(rows[id], c) :: rows[id]
  }

  /**
   * Deleting clan `c` removes exactly its members, leaves the others as they
   * were, and keeps every foreign key valid; deleting a clan that does not
   * exist removes no member.
   */
  lemma CascadeDeleteEffect(clans: map<int, Clan>, rows: map<int, Row>, c: int)
    requires Integrity(clans, rows)
    ensures var r := CascadeDelete(rows, c);
      && Integrity(clans - {c}, r)
      && (forall id :: id in r <==> id in rows && !InClan(rows[id], c))
      && (forall id :: id in r ==> r[id] == rows[id])
      && (c !in clans ==> SameIds(r, rows))
  {
    var r := CascadeDelete(rows, c);
    forall id | id in r
      ensures r[id].clanId.i in clans - {c}
    {
      assert r[id].clanId != Int(c);
    }
  }

  // ---------------------------------------------------------------------------
  // addMember
  // ---------------------------------------------------------------------------

  /** The `stats` object of `addMember`; a stat that is absent or null is None. */
  datatype Stats = Stats(str: Option<int>, def: Option<int>, agi: Option<int>, mag: Option<int>, luck: Option<int>)

  /** The argument of `addMember`; None stands for `undefined` or `null`. */
  datatype NewMember = NewMember(clanId: int, name: string, className: Option<string>, role: Option<string>,
                                 status: Option<string>, photoUri: Option<string>, stats: Option<Stats>)

  /** `stats || {}` destructured with `= null` defaults. */
  function StatsOrNone(s: Option<Stats>): Stats
  {
    if s.Some? then s.value else Stats(None, None, None, None, None)
  }

  function StatCell(x: Option<int>): Value
  {
    if x.Some? then Int(x.value) else Null
  }

  /** `photoUri || null`. */
  function PhotoCell(p: Option<string>): Value
  {
    if p.None? || p.value == "" then Null else Text(p.value)
  }

  /** The row `addMember` inserts; `now` is `new Date().toISOString()`. */
  function NewMemberRow(m: NewMember, now: string): (r: Row)
    ensures RowFits(r, MemberColumns) && r.legacyClass == Null
  {
    var s := StatsOrNone(m.stats);
    Row(clanId := Int(m.clanId), name := Text(Trim(m.name)),
        className := Text(OrEmpty(m.className)), legacyClass := Null,
        role := Text(OrEmpty(m.role)), status := Text(OrEmpty(m.status)),
        photoUri := PhotoCell(m.photoUri),
        str := StatCell(s.str), def := StatCell(s.def), agi := StatCell(s.agi),
        mag := StatCell(s.mag), luck := StatCell(s.luck),
        createdAt := Text(now))
  }

  /** The stat that `addMember` was given for a stat column. */
  function GivenStat(m: NewMember, c: Column): Option<int>
  {
    if m.stats.None? then None
    else
      match c
      case Str => m.stats.value.str
      case Def => m.stats.value.def
      case Agi => m.stats.value.agi
      case Mag => m.stats.value.mag
      case Luck => m.stats.value.luck
      case _ => None
  }

  /** The inserted row fits the current columns. */
  lemma NewMemberRowFits(m: NewMember, now: string, columns: seq<Column>)
    requires CurrentSchema(columns)
    ensures RowFits(NewMemberRow(m, now), columns)
  {
    assert ClassName == MemberColumns[3] && PhotoUri == MemberColumns[6];
    assert Str == MemberColumns[7] && Def == MemberColumns[8] && Agi == MemberColumns[9];
    assert Mag == MemberColumns[10] && Luck == MemberColumns[11];
  }

  /** A row that fits, of an existing clan, inserted under the next id keeps the table well formed. */
  lemma InsertKeepsFit(clans: map<int, Clan>, t: MembersTable, row: Row)
    requires WellFormed(t) && Integrity(clans, t.rows)
    requires RowFits(row, t.columns) && row.clanId.Int? && row.clanId.i in clans
    ensures t.lastId + 1 !in t.rows
    ensures var t' := t.(rows := t.rows[t.lastId + 1 := row], lastId := t.lastId + 1);
      WellFormed(t') && Integrity(clans, t'.rows)
  {
  }

  /** The row of `addMember`, of an existing clan, inserted under the next id keeps the table well formed. */
  lemma AddMemberKeepsFit(clans: map<int, Clan>, t: MembersTable, m: NewMember, now: string)
    requires WellFormed(t) && Integrity(clans, t.rows) && CurrentSchema(t.columns) && m.clanId in clans
    ensures t.lastId + 1 !in t.rows
    ensures var t' := t.(rows := t.rows[t.lastId + 1 := NewMemberRow(m, now)], lastId := t.lastId + 1);
      WellFormed(t') && Integrity(clans, t'.rows)
  {
    NewMemberRowFits(m, now, t.columns);
    InsertKeepsFit(clans, t, NewMemberRow(m, now));
  }

  /**
   * The inserted name is trimmed; a class, role or status is stored as given,
   * and as `''` when it is not given; a photo is stored as given, and as NULL
   * when it is not given or empty.
   */
  lemma NewMemberRowFields(m: NewMember, now: string)
    ensures var r := NewMemberRow(m, now);
      && r.clanId == Int(m.clanId) && r.createdAt == Text(now)
      && r.name == Text(Trim(m.name))
      && (m.className.Some? ==> r.className == Text(m.className.value))
      && (m.className.None? ==> r.className == Text(""))
      && (m.role.Some? ==> r.role == Text(m.role.value))
      && (m.role.None? ==> r.role == Text(""))
      && (m.status.Some? ==> r.status == Text(m.status.value))
      && (m.status.None? ==> r.status == Text(""))
      && (r.photoUri == Null <==> m.photoUri.None? || m.photoUri.value == "")
      && (r.photoUri != Null ==> m.photoUri.Some? && r.photoUri == Text(m.photoUri.value))
  {
  }

  /** Each stat is stored as the given number, or as NULL (never 0) when it is not given. */
  lemma NewMemberRowStats(m: NewMember, now: string, c: Column)
    requires c in StatColumns
    ensures var r := NewMemberRow(m, now);
      && (Get(r, c) == Null <==> GivenStat(m, c).None?)
      && (GivenStat(m, c).Some? ==> Get(r, c) == Int(GivenStat(m, c).value))
  {
    var s := StatsOrNone(m.stats);
    var given := if c == Str then s.str else if c == Def then s.def else if c == Agi then s.agi
      else if c == Mag then s.mag else s.luck;
    assert c == Str || c == Def || c == Agi || c == Mag || c == Luck;
    assert GivenStat(m, c) == given;
    assert Get(NewMemberRow(m, now), c) == StatCell(given);
  }

  /**
   * After `createTables` every column the queries name is there, unless an
   * existing table had neither `className` nor `class`.
   */
  lemma CreatedSchema(existed: bool, t: MembersTable)
    requires WellFormed(t) && (!existed ==> t == EmptyMembers())
    ensures CurrentSchema(Migrate(t).columns) <==> !existed || ClassName in t.columns || Class in t.columns
  {
    MigrateCurrent(t);
    assert ClassName in EmptyMembers().columns;
  }

  // ---------------------------------------------------------------------------
  // Query results
  // ---------------------------------------------------------------------------

  /** A row of `SELECT id, name, className, role, status, photoUri, str, def, agi, mag, luck FROM members`. */
  datatype MemberSummary = MemberSummary(id: int, name: Value, className: Value, role: Value, status: Value,
                                         photoUri: Value, str: Value, def: Value, agi: Value, mag: Value,
                                         luck: Value)

  /** A row of `SELECT id, clan_id, name, className, role, status, photoUri, str, def, agi, mag, luck, created_at FROM members`. */
  datatype MemberRecord = MemberRecord(id: int, clanId: Value, name: Value, className: Value, role: Value,
                                       status: Value, photoUri: Value, str: Value, def: Value, agi: Value,
                                       mag: Value, luck: Value, createdAt: Value)

  function SummaryOf(id: int, r: Row): MemberSummary
  {
    MemberSummary(id, r.name, r.className, r.role, r.status, r.photoUri, r.str, r.def, r.agi, r.mag, r.luck)
  }

  function RecordOf(id: int, r: Row): MemberRecord
  {
    MemberRecord(id, r.clanId, r.name, r.className, r.role, r.status, r.photoUri,
                 r.str, r.def, r.agi, r.mag, r.luck, r.createdAt)
  }

  /** The row a record was read from, but for the legacy `class` column, which is not selected. */
  function RowOf(rec: MemberRecord): (r: Row)
    ensures RecordOf(rec.id, r) == rec
  {
    Row(rec.clanId, rec.name, rec.className, Null, rec.role, rec.status, rec.photoUri,
        rec.str, rec.def, rec.agi, rec.mag, rec.luck, rec.createdAt)
  }

  /** The `created_at` text of a row (NOT NULL, so always a text in a well-formed table). */
  function CreatedAtText(r: Row): string
  {
    if r.createdAt.Text? then r.createdAt.s else ""
  }

  /** The sort key of `getClans`: `created_at` by clan id. */
  function ClanKey(clans: map<int, Clan>): (key: map<int, string>)
    ensures key.Keys == clans.Keys
  {
    map id | id in clans :: clans[id].createdAt
  }

  /** The sort key of `getMembersByClan(c)`: `created_at` of each member of `c`. */
  function MemberKey(rows: map<int, Row>, c: int): (key: map<int, string>)
    ensures forall id :: id in key <==> id in rows && InClan(rows[id], c)
  {
    map id | id in rows && InClan(rows[id], c) :: CreatedAtText(rows[id])
  }

  function ClanIds(res: seq<ClanRecord>): (ids: seq<int>)
    ensures |ids| == |res| && forall i :: 0 <= i < |res| ==> ids[i] == res[i].id
  {
    seq(|res|, i requires 0 <= i < |res| => res[i].id)
  }

  function MemberIds(res: seq<MemberSummary>): (ids: seq<int>)
    ensures |ids| == |res| && forall i :: 0 <= i < |res| ==> ids[i] == res[i].id
  {
    seq(|res|, i requires 0 <= i < |res| => res[i].id)
  }

  // ---------------------------------------------------------------------------
  // The database
  // ---------------------------------------------------------------------------

  class Database {
    /** `PRAGMA foreign_keys` of the connection; SQLite opens a connection with it off. */
    var foreignKeys: bool
    /** Whether the database has the two tables (a first launch has neither). */
    var tablesExist: bool
    var clans: map<int, Clan>
    /** The `sqlite_sequence` counter of `clans`. */
    var clanSeq: int
    var members: MembersTable

    ghost predicate Valid()
      reads this
    {
      ClansFit(clans, clanSeq) && WellFormed(members) && Integrity(clans, members.rows)
      && (!tablesExist ==> clans == map[] && clanSeq == 0 && members == EmptyMembers())
    }

    /** `createTables` has run and left every column the queries name. */
    ghost predicate Ready()
      reads this
    {
      Valid() && foreignKeys && tablesExist && CurrentSchema(members.columns)
    }

    /** A first launch: `openDatabaseAsync("clanes.db")` creates an empty file. */
    constructor Open()
      ensures Valid() && !foreignKeys && !tablesExist
    {
      foreignKeys := false;
      tablesExist := false;
      clans := map[];
      clanSeq := 0;
      members := EmptyMembers();
    }

    /** A file left by an earlier version of the app, with both tables. */
    constructor Existing(clans: map<int, Clan>, clanSeq: int, members: MembersTable)
      requires ClansFit(clans, clanSeq) && WellFormed(members) && Integrity(clans, members.rows)
      ensures Valid() && !foreignKeys && tablesExist
      ensures this.clans == clans && this.clanSeq == clanSeq && this.members == members
    {
      foreignKeys := false;
      tablesExist := true;
      this.clans := clans;
      this.clanSeq := clanSeq;
      this.members := members;
    }

    /** `PRAGMA table_info(table)`: the column names, none for a table that does not exist. */
    function TableInfo(table: string): (info: seq<string>)
      reads this
    {
      if !tablesExist then []
      else if table == "members" then Names(members.columns)
      else if table == "clans" then ["id", "name", "created_at"]
      else []
    }

    /**
     * What `table_info` lists: nothing before the tables exist; for `members`
     * the names of its columns, in table order; for `clans` its three columns;
     * nothing for any other table.
     */
    lemma TableInfoLists()
      ensures !tablesExist ==> TableInfo("members") == [] && TableInfo("clans") == []
      ensures tablesExist ==> var info := TableInfo("members");
        |info| == |members.columns|
        && forall i :: 0 <= i < |info| ==> ColumnNamed(info[i]) == Some(members.columns[i])
      ensures tablesExist ==> TableInfo("clans") == ["id", "name", "created_at"]
      ensures forall table :: table != "members" && table != "clans" ==> TableInfo(table) == []
    {
      forall i | 0 <= i < |members.columns|
        ensures ColumnNamed(Names(members.columns)[i]) == Some(members.columns[i])
      {
        ColumnNamedOfName(members.columns[i]);
      }
    }

    /** `columnExists(table, column)`. */
    function ColumnExists(table: string, column: string): (b: bool)
      reads this
      ensures tablesExist && table == "members" ==>
        (b <==> ColumnNamed(column).Some? && ColumnNamed(column).value in members.columns)
    {
      NameListed(members.columns, column);
      column in TableInfo(table)
    }

    /** `createTables`: turn foreign keys on, create the missing tables, run the migrations. */
    method CreateTables()
      requires Valid()
      modifies this
      ensures Valid() && foreignKeys && tablesExist
      ensures clans == old(clans) && clanSeq == old(clanSeq)
      ensures members == Migrate(old(members))
      ensures CurrentSchema(members.columns) <==> old(!tablesExist || ClassName in members.columns || Class in members.columns)
    {
      foreignKeys := true;
      CreateMissingTables();
      CreatedSchema(old(tablesExist), old(members));
      RunMigrations();
    }

    /**
     * `CREATE TABLE IF NOT EXISTS clans (...)` and `members (...)`: a missing
     * table is created empty, with the current columns, and an existing one is
     * left as it is.
     */
    method CreateMissingTables()
      requires Valid()
      modifies this`clans, this`clanSeq, this`members, this`tablesExist
      ensures Valid() && tablesExist
      ensures clans == (if old(tablesExist) then old(clans) else map[])
      ensures clanSeq == (if old(tablesExist) then old(clanSeq) else 0)
      ensures members == (if old(tablesExist) then old(members) else EmptyMembers())
    {
      if !tablesExist {
        clans := map[];
        clanSeq := 0;
        members := EmptyMembers();
        tablesExist := true;
      }
    }

    /** `runMigrations`: the three migrations, in order. */
    method RunMigrations()
      requires Valid() && tablesExist
      modifies this`members
      ensures Valid() && members == Migrate(old(members))
    {
      MigrateMembersClassToClassName();
      MigrateAddPhotoUri();
      MigrateAddStats();
    }

    /** `migrateMembersClassToClassName`: rebuild the table when it has `class` and not `className`. */
    method MigrateMembersClassToClassName()
      requires Valid() && tablesExist
      modifies this`members
      ensures Valid() && members == RenameClassToClassName(old(members))
    {
      var hasClassName := ColumnExists("members", "className");
      var hasOldClass := ColumnExists("members", "class");
      ColumnNamedOfName(ClassName);
      ColumnNamedOfName(Class);
      if !hasClassName && hasOldClass {
        members := Rebuild(members);
      }
      assert members == RenameClassToClassName(old(members));
    }

    /** `migrateAddPhotoUri`: `ALTER TABLE members ADD COLUMN photoUri TEXT` when it is missing. */
    method MigrateAddPhotoUri()
      requires Valid() && tablesExist
      modifies this`members
      ensures Valid() && members == AddPhotoUri(old(members))
    {
      var hasPhoto := ColumnExists("members", "photoUri");
      ColumnNamedOfName(PhotoUri);
      if !hasPhoto {
        members := AddColumn(members, PhotoUri);
      }
    }

    /** `migrateAddStats`: one `ALTER TABLE members ADD COLUMN` per missing stat, in order. */
    method MigrateAddStats()
      requires Valid() && tablesExist
      modifies this`members
      ensures Valid() && members == AddStats(old(members))
    {
      var toAdd := Missing(StatColumns, members.columns);
      StatColumnsDistinct();
      for i := 0 to |toAdd|
        invariant Valid() && tablesExist
        invariant Distinct(toAdd[..i]) && forall c :: c in toAdd[..i] ==> c !in old(members).columns
        invariant members == AddColumns(old(members), toAdd[..i])
      {
        AddColumnsStep(old(members), toAdd, i);
        members := AddColumn(members, toAdd[i]);
      }
      assert toAdd[..|toAdd|] == toAdd;
    }

    /** `addClan(name)`: a new clan with the trimmed name (which may be empty) and the given timestamp. */
    method AddClan(name: string, now: string) returns (id: int)
      requires Ready()
      modifies this`clans, this`clanSeq
      ensures Ready()
      ensures id == old(clanSeq) + 1 && id !in old(clans) && clanSeq == id
      ensures clans == old(clans)[id := Clan(Trim(name), now)]
    {
      id := clanSeq + 1;
      clans := clans[id := Clan(Trim(name), now)];
      clanSeq := id;
    }

    /** `getClans`: every clan, newest `created_at` first. */
    method GetClans() returns (res: seq<ClanRecord>)
      requires Ready()
      ensures multiset(ClanIds(res)) == multiset(clans.Keys)
      ensures forall i :: 0 <= i < |res| ==>
        res[i].id in clans && Clan(res[i].name, res[i].createdAt) == clans[res[i].id]
      ensures AllKeyed(ClanIds(res), ClanKey(clans)) && SortedDesc(ClanIds(res), ClanKey(clans))
    {
      var table := clans;
      var ids := SortDesc(ClanKey(table));
      assert forall i :: 0 <= i < |ids| ==> ids[i] in table;
      res := seq(|ids|, i requires 0 <= i < |ids| => ClanRecord(ids[i], table[ids[i]].name, table[ids[i]].createdAt));
      assert ClanIds(res) == ids;
    }

    /** `getClanById(c)`: the clan, or no row. */
    function GetClanById(c: int): (r: Option<ClanRecord>)
      reads this
      requires Ready()
      ensures r.Some? <==> c in clans
      ensures r.Some? ==> r.value.id == c && Clan(r.value.name, r.value.createdAt) == clans[c]
    {
      if c in clans then Some(ClanRecord(c, clans[c].name, clans[c].createdAt)) else None
    }

    /** `deleteClan(c)`: the clan and, by `ON DELETE CASCADE`, its members. */
    method DeleteClan(c: int)
      requires Ready()
      modifies this`clans, this`members
      ensures Ready()
      ensures clans == old(clans) - {c}
      ensures members == old(members).(rows := if c in old(clans) then CascadeDelete(old(members.rows), c) else old(members.rows))
    {
      if c in clans {
        CascadeDeleteEffect(clans, members.rows, c);
        clans := clans - {c};
        members := members.(rows := CascadeDelete(members.rows, c));
      }
    }

    /**
     * `addMember(m)`: the new row under the next id, or, when `m.clanId` is
     * not a clan, the foreign-key error (None) and no change.
     */
    method AddMember(m: NewMember, now: string) returns (id: Option<int>)
      requires Ready()
      modifies this`members
      ensures Ready() && members.columns == old(members.columns)
      ensures m.clanId in clans ==>
        && id == Some(old(members.lastId) + 1) && id.value !in old(members.rows)
        && members.rows == old(members.rows)[id.value := NewMemberRow(m, now)]
        && members.lastId == id.value
      ensures m.clanId !in clans ==> id == None && members == old(members)
    {
      if m.clanId !in clans {
        return None;
      }
      var next := members.lastId + 1;
      AddMemberKeepsFit(clans, members, m, now);
      var t := members.(rows := members.rows[next := NewMemberRow(m, now)], lastId := next);
      assert WellFormed(t) && Integrity(clans, t.rows) && CurrentSchema(t.columns);
      members := t;
      assert Valid();
      id := Some(next);
    }

    /** `getMembersByClan(c)`: the members of clan `c`, newest `created_at` first. */
    method GetMembersByClan(c: int) returns (res: seq<MemberSummary>)
      requires Ready()
      ensures multiset(MemberIds(res)) == multiset(MemberKey(members.rows, c).Keys)
      ensures forall i :: 0 <= i < |res| ==>
        res[i].id in members.rows && InClan(members.rows[res[i].id], c)
        && res[i] == SummaryOf(res[i].id, members.rows[res[i].id])
      ensures AllKeyed(MemberIds(res), MemberKey(members.rows, c))
      ensures SortedDesc(MemberIds(res), MemberKey(members.rows, c))
    {
      var rows := members.rows;
      var ids := SortDesc(MemberKey(rows, c));
      assert forall i :: 0 <= i < |ids| ==> ids[i] in rows && InClan(rows[ids[i]], c);
      res := seq(|ids|, i requires 0 <= i < |ids| => SummaryOf(ids[i], rows[ids[i]]));
      assert MemberIds(res) == ids;
    }

    /** `getMemberById(m)`: every selected column of the member, or no row. */
    function GetMemberById(m: int): (r: Option<MemberRecord>)
      reads this
      requires Ready()
      ensures r.Some? <==> m in members.rows
      ensures r.Some? ==> r.value.id == m && RowOf(r.value) == members.rows[m].(legacyClass := Null)
    {
      if m in members.rows then Some(RecordOf(m, members.rows[m])) else None
    }

    /** `deleteMember(m)`. */
    method DeleteMember(m: int)
      requires Ready()
      modifies this`members
      ensures Ready()
      ensures members == old(members).(rows := old(members.rows) - {m})
    {
      members := members.(rows := members.rows - {m});
    }

    /** `clanHasLeader(c)`: the count of members of `c` with role `'Líder'` is positive. */
    function ClanHasLeader(c: int): (b: bool)
      reads this
      requires Ready()
      ensures b <==> exists id :: id in members.rows && InClan(members.rows[id], c) && IsLeader(members.rows[id])
    {
      LeaderCount(members.rows, c);
      |Leaders(members.rows, c)| > 0
    }

    /** `setLeader(c, m)`: in one transaction, demote the leaders of `c` and promote `m`. */
    method SetLeader(c: int, m: int)
      requires Ready()
      modifies this`members
      ensures Ready()
      ensures members == old(members).(rows := SetLeaderRows(old(members.rows), c, m))
    {
      SetLeaderRowsShape(members.rows, c, m);
      KeepsFit(clans, members, SetLeaderRows(members.rows, c, m));
      members := members.(rows := Demote(members.rows, c));
      members := members.(rows := SetRole(members.rows, m, Text(LeaderRole)));
    }

    /** `updateMemberStatus(m, s)`; a null status is stored as NULL. */
    method UpdateMemberStatus(m: int, newStatus: Option<string>)
      requires Ready()
      modifies this`members
      ensures Ready()
      ensures members == old(members).(rows := SetStatus(old(members.rows), m,
                                                          if newStatus.Some? then Text(newStatus.value) else Null))
    {
      var v := if newStatus.Some? then Text(newStatus.value) else Null;
      SetCellTouchesOne(members.rows, m, v);
      KeepsFit(clans, members, SetStatus(members.rows, m, v));
      members := members.(rows := SetStatus(members.rows, m, v));
    }

    /** `updateMemberRole(m, r)`: `r || ""`. */
    method UpdateMemberRole(m: int, newRole: Option<string>)
      requires Ready()
      modifies this`members
      ensures Ready()
      ensures members == old(members).(rows := SetRole(old(members.rows), m, Text(OrEmpty(newRole))))
    {
      var v := Text(OrEmpty(newRole));
      SetCellTouchesOne(members.rows, m, v);
      KeepsFit(clans, members, SetRole(members.rows, m, v));
      members := members.(rows := SetRole(members.rows, m, v));
    }
  }
}
