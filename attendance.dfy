/**
 * The logic of the weekly attendance grid: the Monday-to-Sunday week that holds
 * a date, its seven `YYYY-MM-DD` days, the grid of `"<memberId>_<date>"` cells
 * that a tap toggles, and the list of marks that saving sends.
 */
module Attendance {
  import opened Wrappers
  import opened JsText
  import opened Calendar

  // ---------------------------------------------------------------------------
  // getWeekRange
  // ---------------------------------------------------------------------------

  /** `(getUTCDay() + 6) % 7`: how many days day `z` lies after the last Monday. */
  function DaysSinceMonday(z: int): (k: int)
    ensures 0 <= k <= 6
    ensures k == 0 <==> UtcWeekday(z) == 1
  {
    (UtcWeekday(z) + 6) % 7
  }

  /** The Monday on or before day `z` (`setUTCDate(getUTCDate() - day)`). */
  function WeekMonday(z: int): (m: int)
    ensures m <= z <= m + 6
    ensures UtcWeekday(m) == 1
  {
    z - DaysSinceMonday(z)
  }

  /** No other Monday is on or before `z` within a week of it. */
  lemma WeekMondayUnique(z: int, m: int)
    requires UtcWeekday(m) == 1 && m <= z <= m + 6
    ensures m == WeekMonday(z)
  {
    var w := WeekMonday(z);
    assert (m + 4) % 7 == (w + 4) % 7;
    assert -6 <= m - w <= 6;
  }

  datatype WeekRange = WeekRange(weekStart: string, weekEnd: string)

  /** The week of `z` lies in the years whose ISO text has four digits. */
  predicate WeekInRange(z: int)
  {
    InRange(WeekMonday(z)) && InRange(WeekMonday(z) + 6)
  }

  /** `getWeekRange(date)` for the calendar day `z` of `date`: two `YYYY-MM-DD` texts. */
  function GetWeekRange(z: int): (r: WeekRange)
    requires WeekInRange(z)
    ensures IsFullDateText(r.weekStart) && IsFullDateText(r.weekEnd)
  {
    var monday := WeekMonday(z);
    WeekRange(FullDate(monday), FullDate(monday + 6))
  }

  /** The week range starts on the Monday on or before the given day. */
  lemma WeekStartIsMonday(z: int)
    requires WeekInRange(z)
    ensures ParseFullDate(GetWeekRange(z).weekStart) == Some(WeekMonday(z))
  {
    ParseFullDateOfFullDate(WeekMonday(z));
  }

  /** The week range ends on the Sunday six days after that Monday. */
  lemma WeekEndIsSunday(z: int)
    requires WeekInRange(z)
    ensures ParseFullDate(GetWeekRange(z).weekEnd) == Some(WeekMonday(z) + 6)
  {
    var sunday := WeekMonday(z) + 6;
    assert GetWeekRange(z).weekEnd == FullDate(sunday);
    ParseFullDateOfFullDate(sunday);
  }

  /** The last day of the week range is a Sunday. */
  lemma WeekEndWeekday(z: int)
    ensures UtcWeekday(WeekMonday(z) + 6) == 0
  {
  }

  // ---------------------------------------------------------------------------
  // weekDays
  // ---------------------------------------------------------------------------

  /** The first day of the week that `weekStart` names, when it is a valid date in range. */
  predicate StartsWeekInRange(weekStart: string)
  {
    ParseFullDate(weekStart).Some?
    && InRange(ParseFullDate(weekStart).value) && InRange(ParseFullDate(weekStart).value + 6)
  }

  /** The `weekDays` builder: the texts of the seven days from `weekStart` on. */
  method WeekDays(weekStart: string) returns (days: seq<string>)
    requires StartsWeekInRange(weekStart)
    ensures |days| == 7
    ensures forall i :: 0 <= i < 7 ==> days[i] == FullDate(ParseFullDate(weekStart).value + i)
  {
    days := DaysFrom(ParseFullDate(weekStart).value);
  }

  /** The loop of `weekDays`: one `toISOString().slice(0, 10)` per day from `start`. */
  method DaysFrom(start: int) returns (days: seq<string>)
    requires InRange(start) && InRange(start + 6)
    ensures |days| == 7
    ensures forall i :: 0 <= i < 7 ==> days[i] == FullDate(start + i)
  {
    days := [];
    for i := 0 to 7
      invariant |days| == i
      invariant forall j :: 0 <= j < i ==> days[j] == FullDate(start + j)
    {
      var text := FullDate(start + i);
      days := days + [text];
    }
  }

  /** The `weekStart` of a week range in range can be handed to `WeekDays`. */
  lemma WeekRangeStartsWeek(z: int)
    requires WeekInRange(z)
    ensures StartsWeekInRange(GetWeekRange(z).weekStart)
  {
    WeekStartIsMonday(z);
  }

  /**
   * The seven texts that `WeekDays` builds from the week range of day `z`
   * (whose `weekStart` parses to `WeekMonday(z)`, by `WeekStartIsMonday`) run
   * from `weekStart` to `weekEnd`.
   */
  lemma WeekDaysSpanWeek(z: int, days: seq<string>)
    requires WeekInRange(z) && |days| == 7
    requires forall i :: 0 <= i < 7 ==> days[i] == FullDate(WeekMonday(z) + i)
    ensures days[0] == GetWeekRange(z).weekStart && days[6] == GetWeekRange(z).weekEnd
  {
    assert days[0] == FullDate(WeekMonday(z) + 0);
  }

  // ---------------------------------------------------------------------------
  // The grid of cells and handleToggle
  // ---------------------------------------------------------------------------

  /** The `values` object as its entries, in `Object.entries` order (insertion order). */
  type Grid = seq<(string, bool)>

  predicate UniqueKeys(g: Grid)
  {
    forall i, j :: 0 <= i < j < |g| ==> g[i].0 != g[j].0
  }

  function Lookup(g: Grid, key: string): (r: Option<bool>)
    ensures r.None? <==> forall i :: 0 <= i < |g| ==> g[i].0 != key
    ensures r.Some? ==> exists i :: 0 <= i < |g| && g[i] == (key, r.value)
  {
    if g == [] then None
    else if g[0].0 == key then Some(g[0].1)
    else
      var r := Lookup(g[1..], key);
      assert forall i :: 1 <= i < |g| ==> g[i] == g[1..][i - 1];
      r
  }

  /** `!!values[key]`: the cell is marked present. */
  predicate Marked(g: Grid, key: string)
  {
    Lookup(g, key) == Some(true)
  }

  /** `{ ...g, [key]: v }`: an existing key keeps its place, a new one goes last. */
  function SetKey(g: Grid, key: string, v: bool): (r: Grid)
    ensures Lookup(r, key) == Some(v)
    ensures forall k :: k != key ==> Lookup(r, k) == Lookup(g, k)
    ensures UniqueKeys(g) ==> UniqueKeys(r)
    ensures forall e :: e in r ==> e.0 == key || e in g
  {
    if g == [] then [(key, v)]
    else if g[0].0 == key then [(key, v)] + g[1..]
    else [g[0]] + SetKey(g[1..], key, v)
  }

  /** The key of the cell for member `memberId` on `date`: `${memberId}_${date}`. */
  function CellKey(memberId: nat, date: string): (k: string)
    ensures |k| > |date| + 1 && k[|k| - |date| - 1] == '_' && k[|k| - |date|..] == date
    ensures var id := k[..|k| - |date| - 1];
      id == NatToString(memberId) && '_' !in id
  {
    var id := NatToString(memberId);
    assert '_' !in id by {
      forall i | 0 <= i < |id| ensures id[i] != '_' { assert IsDigit(id[i]); }
    }
    var k := id + "_" + date;
    assert k[..|id|] == id && k[|id| + 1..] == date;
    k
  }

  /** `handleToggle(memberId, date)`: the cell's value becomes `!values[key]`. */
  function Toggle(g: Grid, memberId: nat, date: string): (r: Grid)
    ensures Lookup(r, CellKey(memberId, date)) == Some(!Marked(g, CellKey(memberId, date)))
    ensures forall k :: k != CellKey(memberId, date) ==> Lookup(r, k) == Lookup(g, k)
  {
    var key := CellKey(memberId, date);
    SetKey(g, key, !Marked(g, key))
  }

  /** A toggle flips its own cell and leaves every other cell as it was. */
  lemma ToggleFlipsOneCell(g: Grid, memberId: nat, date: string, other: string)
    requires other != CellKey(memberId, date)
    ensures Marked(Toggle(g, memberId, date), CellKey(memberId, date)) == !Marked(g, CellKey(memberId, date))
    ensures Lookup(Toggle(g, memberId, date), other) == Lookup(g, other)
  {
  }

  /** Toggling a cell twice restores whether every cell is marked; an unset cell ends up present but false. */
  lemma ToggleTwice(g: Grid, memberId: nat, date: string, key: string)
    ensures Marked(Toggle(Toggle(g, memberId, date), memberId, date), key) == Marked(g, key)
    ensures Lookup(g, CellKey(memberId, date)).None? ==>
      Lookup(Toggle(Toggle(g, memberId, date), memberId, date), CellKey(memberId, date)) == Some(false)
  {
  }

  // ---------------------------------------------------------------------------
  // Keys back into member ids and dates
  // ---------------------------------------------------------------------------

  /** `const [memberId, date] = key.split("_")`, with `Number(memberId)`. */
  function DecodeKey(key: string): (r: (JsNumber, Option<string>))
    ensures r.1.Some? <==> '_' in key
    ensures r.1.Some? ==> '_' !in r.1.value
    ensures '_' !in key ==> r.0 == ToNumber(key)
  {
    var parts := Split(key, '_');
    assert '_' !in key ==> parts == [key] by {
      if '_' !in key { SplitWithoutSeparator(key, '_'); }
    }
    (ToNumber(parts[0]), if |parts| > 1 then Some(parts[1]) else None)
  }

  /** A numeric id and a date without `_` come back out of their key unchanged. */
  lemma {:induction false} DecodeCellKey(memberId: nat, date: string)
    requires '_' !in date
    ensures DecodeKey(CellKey(memberId, date)) == (Num(memberId), Some(date))
  {
    var id := NatToString(memberId);
    assert CellKey(memberId, date) == id + ['_'] + date;
    SplitAtFirstSeparator(id, '_', date);
    SplitWithoutSeparator(date, '_');
    NumberOfNatToString(memberId);
  }

  /** The date texts of the grid never contain the key separator. */
  lemma FullDateHasNoSeparator(z: int)
    requires InRange(z)
    ensures '_' !in FullDate(z)
  {
    var s := FullDate(z);
    forall i | 0 <= i < |s| ensures s[i] != '_' {
      if i != 4 && i != 7 { assert '0' <= s[i] <= '9'; }
    }
  }

  /** The key decodes to a numeric id and a date that encode back to it. */
  predicate IsCellKey(key: string)
  {
    var (n, d) := DecodeKey(key);
    n.Num? && n.n >= 0 && d.Some? && CellKey(n.n, d.value) == key
  }

  predicate AllCellKeys(g: Grid)
  {
    forall i :: 0 <= i < |g| ==> IsCellKey(g[i].0)
  }

  /** Toggling keeps the grid's keys distinct and every one of them a cell key. */
  lemma ToggleKeepsKeys(g: Grid, memberId: nat, date: string)
    requires UniqueKeys(g) && AllCellKeys(g) && '_' !in date
    ensures UniqueKeys(Toggle(g, memberId, date)) && AllCellKeys(Toggle(g, memberId, date))
  {
    DecodeCellKey(memberId, date);
  }

  // ---------------------------------------------------------------------------
  // handleSave's payload
  // ---------------------------------------------------------------------------

  /** One payload entry: `{ member_id, date, present, clan_id }`. */
  datatype Mark = Mark(memberId: JsNumber, date: Option<string>, present: bool, clanId: int)

  function MarkOf(key: string, clanId: int): Mark
  {
    var (n, d) := DecodeKey(key);
    Mark(n, d, true, clanId)
  }

  /** The payload of the entries of `g`: one mark per entry whose value is true, in entry order. */
  function Marks(g: Grid, clanId: int): (ms: seq<Mark>)
    ensures |ms| <= |g|
    ensures forall m :: m in ms ==> m.present && m.clanId == clanId
  {
    if g == [] then []
    else
      var init := Marks(g[..|g| - 1], clanId);
      var last := g[|g| - 1];
      if last.1 then init + [MarkOf(last.0, clanId)] else init
  }

  /** The loop of `handleSave`: skip the false entries, decode the key of each true one. */
  method SavePayload(values: Grid, clanId: int) returns (payload: seq<Mark>)
    ensures payload == Marks(values, clanId)
  {
    payload := [];
    for i := 0 to |values|
      invariant payload == Marks(values[..i], clanId)
    {
      assert values[..i + 1][..i] == values[..i];
      var (key, present) := values[i];
      if !present {
        continue;
      }
      payload := payload + [MarkOf(key, clanId)];
    }
    assert values[..|values|] == values;
  }

  /** Every mark of the payload comes from an entry of the grid whose value is true. */
  lemma {:induction false} MarkFromEntry(g: Grid, clanId: int, m: Mark) returns (i: int)
    requires m in Marks(g, clanId)
    ensures 0 <= i < |g| && g[i].1 && MarkOf(g[i].0, clanId) == m
    decreases |g|
  {
    var init := g[..|g| - 1];
    if m in Marks(init, clanId) {
      i := MarkFromEntry(init, clanId, m);
      assert g[i] == init[i];
    } else {
      i := |g| - 1;
    }
  }

  /** Every entry of the grid whose value is true has its mark in the payload. */
  lemma {:induction false} EntryHasMark(g: Grid, clanId: int, i: int)
    requires 0 <= i < |g| && g[i].1
    ensures MarkOf(g[i].0, clanId) in Marks(g, clanId)
    decreases |g|
  {
    if i < |g| - 1 {
      EntryHasMark(g[..|g| - 1], clanId, i);
    }
  }

  /**
   * For a grid built by toggling cells, the payload holds the mark of member
   * `memberId` on `date` exactly when that cell is marked present.
   */
  lemma SavedIffMarked(g: Grid, clanId: int, memberId: nat, date: string)
    requires UniqueKeys(g) && AllCellKeys(g) && '_' !in date
    ensures Mark(Num(memberId), Some(date), true, clanId) in Marks(g, clanId)
        <==> Marked(g, CellKey(memberId, date))
  {
    var key := CellKey(memberId, date);
    var m := Mark(Num(memberId), Some(date), true, clanId);
    DecodeCellKey(memberId, date);
    if m in Marks(g, clanId) {
      var i := MarkFromEntry(g, clanId, m);
      assert IsCellKey(g[i].0);
      assert g[i].0 == key;
      var j :| 0 <= j < |g| && g[j] == (key, Lookup(g, key).value);
      assert j == i;
    }
    if Marked(g, key) {
      var i :| 0 <= i < |g| && g[i] == (key, true);
      EntryHasMark(g, clanId, i);
    }
  }

  /** A key that the entries before it do not hold has no mark among theirs yet. */
  lemma NewKeyNotMarked(init: Grid, clanId: int, key: string)
    requires AllCellKeys(init) && IsCellKey(key)
    requires forall i :: 0 <= i < |init| ==> init[i].0 != key
    ensures MarkOf(key, clanId) !in Marks(init, clanId)
  {
    if MarkOf(key, clanId) in Marks(init, clanId) {
      var i := MarkFromEntry(init, clanId, MarkOf(key, clanId));
      assert false;
    }
  }

  /** Distinct cell keys make distinct marks, so no cell is saved twice. */
  lemma {:induction false} MarksDistinct(g: Grid, clanId: int)
    requires UniqueKeys(g) && AllCellKeys(g)
    ensures forall i, j :: 0 <= i < j < |Marks(g, clanId)| ==> Marks(g, clanId)[i] != Marks(g, clanId)[j]
    decreases |g|
  {
    if g != [] {
      var init := g[..|g| - 1];
      var last := g[|g| - 1];
      assert forall i :: 0 <= i < |init| ==> init[i] == g[i];
      MarksDistinct(init, clanId);
      if last.1 {
        NewKeyNotMarked(init, clanId, last.0);
      }
    }
  }
}
