/**
 * The decision logic of the add-member form: the inputs are trimmed, the
 * chosen status label is mapped to its stored value, the power text becomes
 * an integer, role and class are joined into one role text, and the insert is
 * refused for a missing name or for a second member with status `'Líder'`.
 */
module MembersForm {
  import opened Wrappers
  import opened JsText
  import opened Schema
  import opened RosterStore

  /** A status as the form shows it, and the value it stores. */
  datatype StatusLabel = StatusLabel(shown: string, value: string)

  /** `STATUS_LABELS`. */
  const StatusLabels: seq<StatusLabel> := [
    StatusLabel("Nuevo miembro del clan", "Nuevo"),
    StatusLabel("Miembro del clan", "Miembro"),
    StatusLabel("Anciano", "Anciano"),
    StatusLabel("Líder", "Líder")
  ]

  /** The status the form starts with: "Miembro del clan". */
  const DefaultStatusIdx: int := 1

  /** The power text the form starts with. */
  const DefaultPower: string := "0"

  /** `STATUS_LABELS[statusIdx]?.value || 'Miembro'`. */
  function StatusValue(idx: int): (s: string)
    ensures 0 <= idx < |StatusLabels| ==> s == StatusLabels[idx].value
    ensures !(0 <= idx < |StatusLabels|) ==> s == "Miembro"
  {
    if 0 <= idx < |StatusLabels| && StatusLabels[idx].value != "" then StatusLabels[idx].value
    else "Miembro"
  }

  /** The stored status is always one of the values of `STATUS_LABELS`. */
  lemma StatusValueListed(idx: int)
    ensures exists i :: 0 <= i < |StatusLabels| && StatusValue(idx) == StatusLabels[i].value
  {
    var i := if 0 <= idx < |StatusLabels| then idx else 1;
    assert StatusValue(idx) == StatusLabels[i].value;
  }

  /** The form's default status stores `'Miembro'`, and only the last label stores `'Líder'`. */
  lemma StatusDefaults(idx: int)
    ensures StatusValue(DefaultStatusIdx) == "Miembro"
    ensures StatusValue(idx) == LeaderRole <==> idx == 3
  {
  }

  /** `Number(power) || 0`: a NaN or a zero gives 0. */
  function Power(power: string): (p: int)
    ensures p >= 0
    ensures ToNumber(power).NaN? ==> p == 0
    ensures AllSpace(power) ==> p == 0
  {
    match ToNumber(power)
    case Num(n) => n
    case NaN => 0
  }

  /** `t.replace(/[^\d]/g, '')`: the power field keeps only the digits typed. */
  function DigitsOnly(t: string): (r: string)
    ensures AllDigits(r) && |r| <= |t|
  {
    if t == [] then []
    else (if IsDigit(t[0]) then [t[0]] else []) + DigitsOnly(t[1..])
  }

  /** The filter keeps every digit, as often as it occurs, and nothing else. */
  lemma {:induction false} DigitsOnlyKeepsDigits(t: string, c: char)
    ensures multiset(DigitsOnly(t))[c] == if IsDigit(c) then multiset(t)[c] else 0
  {
    if t != [] {
      DigitsOnlyKeepsDigits(t[1..], c);
      assert t == [t[0]] + t[1..];
    }
  }

  /** Text that is all digits passes the filter unchanged, so filtering twice is filtering once. */
  lemma {:induction false} DigitsOnlyOfDigits(t: string)
    requires AllDigits(t)
    ensures DigitsOnly(t) == t
  {
    if t != [] {
      DigitsOnlyOfDigits(t[1..]);
      assert t == [t[0]] + t[1..];
    }
  }

  /** The filter works character by character and keeps the order of the text. */
  lemma {:induction false} DigitsOnlyAppend(a: string, b: string)
    ensures DigitsOnly(a + b) == DigitsOnly(a) + DigitsOnly(b)
  {
    if a != [] {
      DigitsOnlyAppend(a[1..], b);
      assert (a + b)[0] == a[0] && (a + b)[1..] == a[1..] + b;
    } else {
      assert a + b == b;
    }
  }

  /** On one character the filter keeps it exactly when it is a digit. */
  lemma DigitsOnlyOfChar(c: char)
    ensures DigitsOnly([c]) == if IsDigit(c) then [c] else []
  {
    assert [c][1..] == [];
  }

  /** After the filter, `Number` never gives NaN: the power is the decimal value of the digits. */
  lemma PowerOfFiltered(t: string)
    ensures var d := DigitsOnly(t); Power(d) == DecimalValue(d)
  {
    TrimDigits(DigitsOnly(t));
  }

  /** `k ? `${r}${r ? ' - ' : ''}${k}` : r`. */
  function RoleForDB(r: string, k: string): (s: string)
    ensures |s| == |r| + |k| + (if r != "" && k != "" then 3 else 0)
    ensures s[..|r|] == r && s[|s| - |k|..] == k
    ensures r != "" && k != "" ==> s[|r|..|r| + 3] == " - "
  {
    if k != "" then r + (if r != "" then " - " else "") + k else r
  }

  /** Role alone, class alone, or `role - class`. */
  lemma RoleForDBCases(r: string, k: string)
    ensures k == "" ==> RoleForDB(r, k) == r
    ensures k != "" && r == "" ==> RoleForDB(r, k) == k
    ensures k != "" && r != "" ==> RoleForDB(r, k) == r + " - " + k
    ensures |RoleForDB(r, k)| == |r| + |k| + (if r != "" && k != "" then 3 else 0)
  {
  }

  /** The row the form would insert (`created_at` is `datetime('now')`). */
  datatype FormRecord = FormRecord(clanId: int, name: string, role: string, status: string, power: int)

  /** The outcome of `insertMember`: one of its two refusals, or the row it inserts. */
  datatype Outcome = MissingName | LeaderTaken | Insert(record: FormRecord)

  /** The rows the pre-check counts: members of the clan whose status is `'Líder'`. */
  function StatusLeaders(rows: map<int, Row>, c: int): set<int>
  {
    set id | id in rows && InClan(rows[id], c) && rows[id].status == Text(LeaderRole)
  }

  lemma StatusLeaderCount(rows: map<int, Row>, c: int)
    ensures |StatusLeaders(rows, c)| > 0 <==>
      exists id :: id in rows && InClan(rows[id], c) && rows[id].status == Text(LeaderRole)
  {
    var s := StatusLeaders(rows, c);
    if |s| > 0 {
      Ordering.SetHasElement(s);
      var id :| id in s;
      assert id in rows && InClan(rows[id], c) && rows[id].status == Text(LeaderRole);
    }
    if exists id :: id in rows && InClan(rows[id], c) && rows[id].status == Text(LeaderRole) {
      var id :| id in rows && InClan(rows[id], c) && rows[id].status == Text(LeaderRole);
      assert id in s;
    }
  }

  /** `insertMember` on the form's fields and the `members` rows the pre-check reads. */
  function InsertMember(clanId: int, name: Option<string>, role: Option<string>, klass: Option<string>,
                        statusIdx: int, power: string, rows: map<int, Row>): (o: Outcome)
    ensures o == MissingName <==> AllSpace(OrEmpty(name))
    ensures o == LeaderTaken ==> StatusValue(statusIdx) == LeaderRole && |StatusLeaders(rows, clanId)| > 0
    ensures o.Insert? ==>
      && o.record.clanId == clanId && o.record.name == Trim(OrEmpty(name))
      && o.record.status == StatusValue(statusIdx) && o.record.power == Power(power)
      && (o.record.status == LeaderRole ==> |StatusLeaders(rows, clanId)| == 0)
  {
    var n := Trim(OrEmpty(name));
    var r := Trim(OrEmpty(role));
    var k := Trim(OrEmpty(klass));
    var s := StatusValue(statusIdx);
    var p := Power(power);
    if n == "" then MissingName
    else if s == LeaderRole && |StatusLeaders(rows, clanId)| > 0 then LeaderTaken
    else Insert(FormRecord(clanId, n, RoleForDB(r, k), s, p))
  }

  /** A name that is absent, empty or all whitespace is refused, and only such a name. */
  lemma InsertNeedsName(clanId: int, name: Option<string>, role: Option<string>, klass: Option<string>,
                        statusIdx: int, power: string, rows: map<int, Row>)
    ensures InsertMember(clanId, name, role, klass, statusIdx, power, rows) == MissingName
      <==> AllSpace(OrEmpty(name))
  {
  }

  /**
   * With a name, the insert is refused exactly when the chosen status is
   * `'Líder'` and the clan already has a member with that status; other
   * statuses skip the check.
   */
  lemma InsertOneLeader(clanId: int, name: Option<string>, role: Option<string>, klass: Option<string>,
                        statusIdx: int, power: string, rows: map<int, Row>)
    requires !AllSpace(OrEmpty(name))
    ensures InsertMember(clanId, name, role, klass, statusIdx, power, rows) == LeaderTaken <==>
      statusIdx == 3 && exists id :: id in rows && InClan(rows[id], clanId) && rows[id].status == Text(LeaderRole)
  {
    InsertLeaderDecision(clanId, name, role, klass, statusIdx, power, rows);
    StatusDefaults(statusIdx);
    StatusLeaderCount(rows, clanId);
  }

  lemma InsertLeaderDecision(clanId: int, name: Option<string>, role: Option<string>, klass: Option<string>,
                             statusIdx: int, power: string, rows: map<int, Row>)
    requires !AllSpace(OrEmpty(name))
    ensures InsertMember(clanId, name, role, klass, statusIdx, power, rows) == LeaderTaken <==>
      StatusValue(statusIdx) == LeaderRole && |StatusLeaders(rows, clanId)| > 0
  {
    assert Trim(OrEmpty(name)) != [];
  }

  /** An accepted insert stores the trimmed name, which is not blank. */
  lemma InsertedName(clanId: int, name: Option<string>, role: Option<string>, klass: Option<string>,
                     statusIdx: int, power: string, rows: map<int, Row>)
    ensures var o := InsertMember(clanId, name, role, klass, statusIdx, power, rows);
      o.Insert? ==> o.record.name == Trim(OrEmpty(name)) && !AllSpace(OrEmpty(name))
  {
  }

  /**
   * An accepted insert stores the clan, the joined trimmed role and class, the
   * chosen status's value and the power read from the text.
   */
  lemma InsertedRecord(clanId: int, name: Option<string>, role: Option<string>, klass: Option<string>,
                       statusIdx: int, power: string, rows: map<int, Row>)
    ensures var o := InsertMember(clanId, name, role, klass, statusIdx, power, rows);
      o.Insert? ==>
        && o.record.clanId == clanId
        && o.record.role == RoleForDB(Trim(OrEmpty(role)), Trim(OrEmpty(klass)))
        && o.record.status == StatusValue(statusIdx)
        && o.record.power == Power(power)
  {
  }

  /**
   * The pre-check reads `status`, while `clanHasLeader` and `setLeader` use
   * `role`: a clan whose leader was set with `setLeader`, and whose statuses
   * name no leader, still accepts a new member with status `'Líder'`.
   */
  lemma LeaderByRoleNotChecked(clanId: int, name: Option<string>, role: Option<string>, klass: Option<string>,
                               power: string, rows: map<int, Row>, l: int)
    requires !AllSpace(OrEmpty(name))
    requires l in rows && InClan(rows[l], clanId) && IsLeader(rows[l])
    requires forall id :: id in rows && InClan(rows[id], clanId) ==> rows[id].status != Text(LeaderRole)
    ensures l in Leaders(rows, clanId)
    ensures InsertMember(clanId, name, role, klass, 3, power, rows).Insert?
  {
    InsertOneLeader(clanId, name, role, klass, 3, power, rows);
  }
}
