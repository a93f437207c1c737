# Clan roster app: a Dafny model of its local store and screen logic

The clan roster app is a React Native app. A guild leader uses it to keep
clans and their members, to mark each member's weekly attendance, and to look
at a member's class avatar and attribute radar. This project models four
parts of it in Dafny and proves properties of that model:

- **The roster store** (`src/database/db.js`): a SQLite database with a
  `clans` table and a `members` table. Rows are keyed by rowid, with
  AUTOINCREMENT counters and an `ON DELETE CASCADE` foreign key.
  - `createTables` creates the tables and then runs three forward migrations:
    - a rebuild that renames the legacy `class` column to `className`;
    - `photoUri` is added when it is missing;
    - the five attribute columns are added when they are missing.
  - The CRUD operations the screens call are modelled as well.
  - It is the class `RosterStore.Database`, whose methods update its fields.
  - The `members` table, as a value, and the migrations as functions on it
    are in module `Schema`.
- **The weekly attendance grid** (`AttendanceByClanScreen.js`):
  - the Monday-to-Sunday week of a day and its seven `YYYY-MM-DD` days;
  - the grid of `"<memberId>_<date>"` cells that a tap toggles;
  - the list of marks that saving sends.

  Module `Attendance` models these, on top of `Calendar` (day numbers, civil
  dates, `getUTCDay` and the RFC 3339 `full-date` text) and `JsText`.
- **The member detail screen** (`MemberDetailScreen.js`): module
  `MemberDetail` models the normalised class key, the avatar it picks, and
  the five-value attribute profile, which comes either from the stored stats
  or from the class table.
- **The add-member form** (`MembersScreen.js`): module `MembersForm` models
  the status labels, the power text and its digit filter, the joined
  role/class text, and the two refusals of `insertMember`.

`JsText` models the JavaScript string primitives these rely on: `trim`,
`toLowerCase`, `String(n)`, `Number(s)`, `split` and `x || ""`. `Ordering`
models SQLite's `ORDER BY created_at DESC` over texts.

## Model

| member | source | states |
|---|---|---|
| JsText.LeadingSpaces | src/database/db.js:122 | the count of leading whitespace: all of it is whitespace, and the next character is not |
| JsText.TrailingSpaces | src/database/db.js:122 | the count of trailing whitespace: all of it is whitespace, and the character before it is not |
| JsText.Trim | src/database/db.js:122 | the result is the part of the input between its leading and its trailing whitespace: it follows a run of whitespace and is followed only by whitespace; it is empty exactly when the input is all whitespace, and otherwise starts and ends with a non-space |
| JsText.TrimIdempotent | src/screens/MembersScreen.js:41-43 | trimming twice is the same as trimming once |
| JsText.OrEmpty | src/database/db.js:213 | `x \|\| ""` is the string when there is one, and `""` for null or undefined |
| JsText.ToLower | src/screens/MemberDetailScreen.js:65 | `toLowerCase` keeps the length and lowers each character in place |
| JsText.ToLowerIsLower | src/screens/MemberDetailScreen.js:65 | lower-cased text has no capitals left |
| JsText.TrimOfLower | src/screens/MemberDetailScreen.js:65 | lower-casing then trimming gives the lowered characters of the text that follow its leading whitespace and are followed only by whitespace |
| JsText.TrimKeepsLower | src/screens/MemberDetailScreen.js:65 | trimming text without capitals leaves no capitals |
| JsText.ToLowerOfLower | src/screens/MemberDetailScreen.js:65 | `toLowerCase` leaves text without capitals as it is |
| JsText.TrimDigits | src/screens/MembersScreen.js:45 | `trim` leaves a string of digits as it is |
| JsText.NatToString | src/screens/AttendanceByClanScreen.js:57 | `String(n)` is a non-empty string of digits with no leading zero |
| JsText.DecimalValueOfNatToString | src/screens/AttendanceByClanScreen.js:57 | reading back the digits that `String(n)` wrote gives `n` |
| JsText.ToNumber | src/screens/MembersScreen.js:45 | `Number` gives 0 for blank text, and never a negative number on the app's inputs |
| JsText.NumberOfNatToString | src/screens/AttendanceByClanScreen.js:123 | `Number(String(n)) === n` for every non-negative integer |
| JsText.Split | src/screens/AttendanceByClanScreen.js:122 | `split` gives at least one part, exactly one when the separator does not occur, and no part contains the separator |
| JsText.SplitWithoutSeparator | src/screens/AttendanceByClanScreen.js:122 | a string without the separator splits into itself alone |
| JsText.SplitAtFirstSeparator | src/screens/AttendanceByClanScreen.js:122 | the split cuts at the first separator, and the part before it comes first |
| Calendar.CivilFromDays | src/screens/AttendanceByClanScreen.js:17 | the civil date of a day has a month in 1..12 and a day in 1..31 |
| Calendar.CivilFromDaysValid | src/screens/AttendanceByClanScreen.js:17 | the civil date of a day is valid: its day is at most its month's length, with 29 days for February in a Gregorian leap year and 28 otherwise |
| Calendar.CivilRoundTrip | src/screens/AttendanceByClanScreen.js:13-17 | converting a day number to its civil date and back gives the same day |
| Calendar.UtcWeekday | src/screens/AttendanceByClanScreen.js:14 | `getUTCDay` is in 0..6 |
| Calendar.YearInRange | src/screens/AttendanceByClanScreen.js:17 | a day in range has a year of at most four digits |
| Calendar.FullDate | src/screens/AttendanceByClanScreen.js:17 | `toISOString().slice(0, 10)` has ten characters: digits, with `-` at offsets 4 and 7 |
| Calendar.FullDateFields | src/screens/AttendanceByClanScreen.js:17 | the digits of the text spell the civil date of the day |
| Calendar.FullDateValid | src/screens/AttendanceByClanScreen.js:17 | the text is a valid date: month 01..12, and a day within that month's length |
| Calendar.ParseFullDate | src/screens/AttendanceByClanScreen.js:84 | in the modelled four-digit year range, `new Date(s + "T00:00:00Z")` is valid only for text of the `YYYY-MM-DD` shape |
| Calendar.ParseFullDateOfFullDate | src/screens/AttendanceByClanScreen.js:84-88 | parsing the text of a day gives that day back |
| Calendar.FullDateInjective | src/screens/AttendanceByClanScreen.js:17 | different days have different texts |
| Attendance.DaysSinceMonday | src/screens/AttendanceByClanScreen.js:14 | `(getUTCDay() + 6) % 7` is in 0..6, and it is 0 exactly on Mondays |
| Attendance.WeekMonday | src/screens/AttendanceByClanScreen.js:15 | a Monday, on or before the day and at most six days before it |
| Attendance.WeekMondayUnique | src/screens/AttendanceByClanScreen.js:15 | no other Monday lies on or before the day within a week of it |
| Attendance.GetWeekRange | src/screens/AttendanceByClanScreen.js:12-18 | `weekStart` and `weekEnd` are both `YYYY-MM-DD` texts; the days they name are stated by Attendance.WeekStartIsMonday and Attendance.WeekEndIsSunday |
| Attendance.WeekStartIsMonday | src/screens/AttendanceByClanScreen.js:12-18 | `weekStart` names the Monday of the day's week |
| Attendance.WeekEndIsSunday | src/screens/AttendanceByClanScreen.js:16-18 | `weekEnd` names the day six days after that Monday |
| Attendance.WeekEndWeekday | src/screens/AttendanceByClanScreen.js:16 | the week ends on a Sunday |
| Attendance.WeekRangeStartsWeek | src/screens/AttendanceByClanScreen.js:74-84 | the `weekStart` of a week range parses to a day whose week lies in range, so it can be handed to the `weekDays` builder |
| Attendance.WeekDays | src/screens/AttendanceByClanScreen.js:82-91 | seven texts, the i-th being the day `i` days after the one `weekStart` names |
| Attendance.DaysFrom | src/screens/AttendanceByClanScreen.js:85-89 | the loop pushes the texts of the seven days from the start, in order |
| Attendance.WeekDaysSpanWeek | src/screens/AttendanceByClanScreen.js:74-91 | the days built from the week range run from `weekStart` to `weekEnd` |
| Attendance.Lookup | src/screens/AttendanceByClanScreen.js:58 | a key is absent exactly when no entry holds it; a found value is the value of an entry with that key |
| Attendance.SetKey | src/screens/AttendanceByClanScreen.js:112 | `{ ...prev, [key]: v }` maps the key to `v` and every other key as before; it adds no other key and keeps keys distinct |
| Attendance.CellKey | src/screens/AttendanceByClanScreen.js:111 | the key is the id's decimal digits, `_`, then the date; the id part holds no `_`, so the first separator is the one after it |
| Attendance.Toggle | src/screens/AttendanceByClanScreen.js:110-113 | the tapped cell's entry becomes the negation of whether it was marked, and every other key's entry is as before |
| Attendance.ToggleFlipsOneCell | src/screens/AttendanceByClanScreen.js:110-113 | a tap flips its own cell and leaves every other cell as it was |
| Attendance.ToggleTwice | src/screens/AttendanceByClanScreen.js:110-113 | two taps on a cell restore whether every cell is marked; a cell that was unset is now present and false |
| Attendance.DecodeKey | src/screens/AttendanceByClanScreen.js:122-123 | the date part is there exactly when the key contains `_`, and never contains `_`; a key without `_` is read whole by `Number` |
| Attendance.DecodeCellKey | src/screens/AttendanceByClanScreen.js:110-123 | splitting a cell key gives back the numeric member id and the date |
| Attendance.FullDateHasNoSeparator | src/screens/AttendanceByClanScreen.js:88 | the date texts never contain `_` |
| Attendance.ToggleKeepsKeys | src/screens/AttendanceByClanScreen.js:110-113 | a tap keeps the grid's keys distinct, and each of them a cell key |
| Attendance.Marks | src/screens/AttendanceByClanScreen.js:119-124 | at most one mark per entry; every mark is present and carries the clan |
| Attendance.SavePayload | src/screens/AttendanceByClanScreen.js:119-124 | the loop with `continue` builds exactly the marks of the true entries, in entry order |
| Attendance.MarkFromEntry | src/screens/AttendanceByClanScreen.js:120-123 | each mark comes from an entry whose value is true |
| Attendance.EntryHasMark | src/screens/AttendanceByClanScreen.js:120-123 | each entry whose value is true has its mark in the payload |
| Attendance.SavedIffMarked | src/screens/AttendanceByClanScreen.js:110-124 | on a grid built by taps, member `m` on `date` is saved exactly when that cell is marked |
| Attendance.MarksDistinct | src/screens/AttendanceByClanScreen.js:119-124 | no cell is saved twice |
| Ordering.TextLeTotal | src/database/db.js:130 | any two `created_at` texts are ordered one way or the other |
| Ordering.TextLeTransitive | src/database/db.js:130 | the text order is transitive |
| Ordering.InsertDesc | src/database/db.js:130 | inserting one id keeps the ids descending by key, and adds exactly that id |
| Ordering.SortDesc | src/database/db.js:129-131 | the query's result is a permutation of the selected ids, descending by `created_at` |
| Schema.ColumnNamedOfName | src/database/db.js:49-56 | each column is found again under the name `table_info` reports |
| Schema.NameOfColumnNamed | src/database/db.js:49-56 | a name that denotes a column is that column's name |
| Schema.NameListed | src/database/db.js:53-56 | a name is listed exactly when it denotes one of the table's columns |
| Schema.EmptyMembers | src/database/db.js:26-42 | a new table has the declared columns, no rows and a zero counter, and is well formed |
| Schema.MaxId | src/database/db.js:78-83 | the largest id, or 0 for none: it is an id and no id exceeds it |
| Schema.Rebuild | src/database/db.js:64-84 | the rebuilt table has the current columns and the same ids, and is well formed |
| Schema.RebuildRow | src/database/db.js:78-80 | a copied row fits the current columns exactly when its clan, name and `created_at` are set; the copy has no legacy `class` cell and no photo |
| Schema.RenameClassToClassName | src/database/db.js:59-86 | the migration keeps the table well formed, every id, and every member's clan |
| Schema.AddColumn | src/database/db.js:93 | `ADD COLUMN` appends the column last and changes no row and not the counter |
| Schema.AddColumns | src/database/db.js:103-105 | the columns are appended in the order given; rows and counter are unchanged |
| Schema.AddPhotoUri | src/database/db.js:89-95 | the migration keeps the table well formed |
| Schema.Missing | src/database/db.js:102 | the filter keeps exactly the candidates not yet named, without repeats |
| Schema.MissingAppend | src/database/db.js:102 | the filter keeps the candidates' order: filtering a concatenation gives the concatenation of the filtered parts |
| Schema.AddStats | src/database/db.js:98-106 | the migration keeps the table well formed |
| Schema.Migrate | src/database/db.js:108-112 | the three migrations keep the table well formed |
| Schema.RenameFiresOnlyOnLegacy | src/database/db.js:61-63 | the rebuild changes the table exactly when `className` is absent and `class` present |
| Schema.RenameReplacesColumn | src/database/db.js:65-83 | when it fires, `className` replaces `class` among the columns and every id stays |
| Schema.RenameCopiesRows | src/database/db.js:78-80 | the copy keeps each row's clan, name, role, status and `created_at`, moves `class` into `className`, and leaves the photo and the stats NULL |
| Schema.RenameKeepsClassName | src/database/db.js:59-86 | after the rename `className` is a column exactly when it or `class` was |
| Schema.AddPhotoUriOnlyIfMissing | src/database/db.js:89-95 | `photoUri` is appended when it is missing, and otherwise nothing changes; no row changes |
| Schema.AddStatsAddsMissing | src/database/db.js:98-106 | exactly the missing stat columns are appended, in `str, def, agi, mag, luck` order; no row changes |
| Schema.MigrateCompletes | src/database/db.js:108-112 | after one run `photoUri` and the five stats are columns, and `className` is one exactly when it or `class` was |
| Schema.MigrateKeepsRows | src/database/db.js:108-112 | the ids are unchanged, and without the rebuild the rows are unchanged too |
| Schema.MigrateCurrentUnchanged | src/database/db.js:59-112 | a table whose columns are already all there is left as it is |
| Schema.MigrateIdempotent | src/database/db.js:108-112 | running the migrations a second time changes nothing |
| Schema.MigrateCurrent | src/database/db.js:108-112 | after one run every column the queries name is there exactly when `className` or `class` was |
| RosterStore.LeaderCount | src/database/db.js:189-196 | the count of leaders is positive exactly when some member of the clan has role `'Líder'` |
| RosterStore.Demote | src/database/db.js:201 | afterwards no member of the clan is a leader; every row keeps its id, its status and all but its role; rows that were not leaders of the clan are unchanged |
| RosterStore.SetLeaderRows | src/database/db.js:198-204 | the ids stay; `m`, if it exists, is a leader; no member of the clan but `m` is a leader |
| RosterStore.SetLeaderRowsShape | src/database/db.js:198-204 | every row keeps its id and all its cells but the role |
| RosterStore.SetLeaderUnique | src/database/db.js:198-204 | afterwards `m` is the clan's only possible leader: the sole leader when `m` is a member of the clan, none when there is no row `m` |
| RosterStore.SetLeaderKeepsOthers | src/database/db.js:201-202 | other clans' members except `m` are unchanged; in the clan only the old leaders' roles are cleared |
| RosterStore.SetLeaderAcrossClans | src/database/db.js:198-204 | with no membership check, promoting a member of clan `d` leaves `c` without a leader and gives `d` two |
| RosterStore.SetCellTouchesOne | src/database/db.js:206-214 | the update changes one cell of one row, if the row exists, and nothing else |
| RosterStore.CascadeDelete | src/database/db.js:142-145 | exactly the members of the other clans remain, each unchanged |
| RosterStore.CascadeDeleteEffect | src/database/db.js:142-145 | deleting a clan removes exactly its members, keeps the others unchanged and keeps every foreign key valid |
| RosterStore.NewMemberRow | src/database/db.js:153-158 | the inserted row fits a table with the declared columns and has no legacy `class` cell |
| RosterStore.NewMemberRowFits | src/database/db.js:155-158 | the inserted row fits a table with the current columns |
| RosterStore.NewMemberRowFields | src/database/db.js:153-158 | the clan and `created_at` are stored as given and the name trimmed; a given class, role or status is stored as given, and one not given as `''`; a given non-empty photo is stored as given, and one not given or empty as NULL |
| RosterStore.NewMemberRowStats | src/database/db.js:153-158 | each stat is stored as given, or as NULL (never 0) when not given |
| RosterStore.CreatedSchema | src/database/db.js:14-46 | after `createTables` the current columns are there unless an existing table had neither `className` nor `class` |
| RosterStore.RowOf | src/database/db.js:177 | a selected record determines its row, apart from the unselected `class` |
| RosterStore.ClanKey | src/database/db.js:130 | the sort key covers exactly the clans |
| RosterStore.MemberKey | src/database/db.js:168-169 | the sort key covers exactly the members of the clan |
| RosterStore.Database.Open | src/database/db.js:6-9 | a first launch has no tables, and foreign keys are off |
| RosterStore.Database.Existing | src/database/db.js:6-9 | a database from an earlier version holds its tables unchanged |
| RosterStore.Database.TableInfoLists | src/database/db.js:49-52 | `table_info` lists nothing before the tables exist; for `members` one name per column, each denoting the column at its position; for `clans` `id`, `name` and `created_at`; nothing for any other table |
| RosterStore.Database.ColumnExists | src/database/db.js:53-56 | true exactly when the name denotes a column of `members` |
| RosterStore.Database.CreateTables | src/database/db.js:14-46 | foreign keys on; tables present; clans unchanged; `members` is the migrated table; its columns are current exactly when it was new or had `className` or `class` |
| RosterStore.Database.CreateMissingTables | src/database/db.js:19-42 | a missing table is created empty with the current columns; an existing one is kept |
| RosterStore.Database.RunMigrations | src/database/db.js:108-112 | `members` becomes its migrated value |
| RosterStore.Database.MigrateMembersClassToClassName | src/database/db.js:59-86 | `members` becomes the renamed table |
| RosterStore.Database.MigrateAddPhotoUri | src/database/db.js:89-95 | `members` gets `photoUri` when it lacked it |
| RosterStore.Database.MigrateAddStats | src/database/db.js:98-106 | the loop adds the missing stats one by one, reaching `AddStats` of the old table |
| RosterStore.Database.AddClan | src/database/db.js:117-125 | the clan gets the next id, a fresh one, with the trimmed name and the timestamp; nothing else changes |
| RosterStore.Database.GetClans | src/database/db.js:127-132 | every clan once, with its name and time, newest first |
| RosterStore.Database.GetClanById | src/database/db.js:134-140 | a row exactly when the clan exists, and then the clan's own data |
| RosterStore.Database.DeleteClan | src/database/db.js:142-145 | the clan is gone; its members go with it when it existed; nothing else changes |
| RosterStore.Database.AddMember | src/database/db.js:150-161 | for an existing clan, the row goes under the next, fresh id; otherwise the foreign-key error and no change |
| RosterStore.Database.GetMembersByClan | src/database/db.js:163-172 | exactly the clan's members, once each, with their selected cells, newest first |
| RosterStore.Database.GetMemberById | src/database/db.js:174-182 | a row exactly when the member exists, holding every selected cell of it |
| RosterStore.Database.DeleteMember | src/database/db.js:184-187 | the member is gone and nothing else changes |
| RosterStore.Database.ClanHasLeader | src/database/db.js:189-196 | true exactly when some member of the clan has role `'Líder'` |
| RosterStore.Database.SetLeader | src/database/db.js:198-204 | the clan's leaders are demoted and `m` promoted, in one step |
| RosterStore.Database.UpdateMemberStatus | src/database/db.js:206-209 | only that member's status changes; null is stored as NULL |
| RosterStore.Database.UpdateMemberRole | src/database/db.js:211-214 | only that member's role changes, to the role or `''` |
| MemberDetail.ClassNamedOfKey | src/screens/MemberDetailScreen.js:14-22 | each class is found again under its key |
| MemberDetail.KeyOfClassNamed | src/screens/MemberDetailScreen.js:14-22 | a key that names a class is that class's key |
| MemberDetail.ClassStatsInRange | src/screens/MemberDetailScreen.js:25-33 | each default profile has one value per axis, each in 0..100 |
| MemberDetail.ClassKeyNormal | src/screens/MemberDetailScreen.js:65 | the class key has no capitals, is trimmed, and is its own key |
| MemberDetail.ClassKey | src/screens/MemberDetailScreen.js:65 | the key has no capitals and neither starts nor ends with whitespace; what it is made of is stated by MemberDetail.ClassKeyOfName and MemberDetail.ClassKeyOfNull |
| MemberDetail.ClassKeyOfName | src/screens/MemberDetailScreen.js:65 | the key of a class name is the name lower-cased and trimmed: the lowered characters of the name that follow its leading whitespace and are followed only by whitespace |
| MemberDetail.ClassKeyOfNull | src/screens/MemberDetailScreen.js:65 | a NULL class name gives the empty key |
| MemberDetail.ClassFor | src/screens/MemberDetailScreen.js:68-73 | the intended lookup of the Findings row, on the tables' own entries only: the named class, or `guerrero` when the key names none |
| MemberDetail.Avatar | src/screens/MemberDetailScreen.js:68 | by the intended own-entries lookup of the Findings row, the avatar class is the one whose key is the member's key, or `guerrero` when that key names none |
| MemberDetail.ClassForKey | src/screens/MemberDetailScreen.js:68 | the avatar is class `c` exactly when the key is `c`'s, or names no class and `c` is `guerrero` |
| MemberDetail.FromDb | src/screens/MemberDetailScreen.js:71 | one stored value per axis |
| MemberDetail.HasAllDbStats | src/screens/MemberDetailScreen.js:71-72 | `hasAllDb` holds exactly when all five stats are stored as numbers |
| MemberDetail.BaseStats | src/screens/MemberDetailScreen.js:73 | one value per axis, taking the class default by the intended own-entries lookup of the Findings row |
| MemberDetail.BaseStatsFromDb | src/screens/MemberDetailScreen.js:72-73 | with all five stats stored as numbers, the profile is exactly them, in axis order |
| MemberDetail.BaseStatsFromClass | src/screens/MemberDetailScreen.js:72-73 | with any stat missing, the whole profile is the avatar class's default, in 0..100 |
| MemberDetail.ChoiceAsWritten | src/screens/MemberDetailScreen.js:68-73 | `table[key] \|\| table.guerrero` is never `undefined` |
| MemberDetail.ConstructorClassAsWritten | src/screens/MemberDetailScreen.js:65-73 | class `Constructor` gets the key `constructor`, which the lookup as written resolves to an inherited property, where the intended lookup gives `guerrero` |
| MemberDetail.ClassForAgrees | src/screens/MemberDetailScreen.js:68-73 | for any other key, the intended lookup agrees with the one as written |
| MembersForm.StatusValue | src/screens/MembersScreen.js:25-44 | a chosen label's value, or `'Miembro'` for an index outside the list |
| MembersForm.StatusValueListed | src/screens/MembersScreen.js:25-44 | the stored status is always one of the listed values |
| MembersForm.StatusDefaults | src/screens/MembersScreen.js:37-44 | the default choice stores `'Miembro'`, and only the last label stores `'Líder'` |
| MembersForm.Power | src/screens/MembersScreen.js:45 | never negative; 0 for NaN and for blank text |
| MembersForm.DigitsOnly | src/screens/MembersScreen.js:182 | the filtered text is all digits and no longer than the input |
| MembersForm.DigitsOnlyKeepsDigits | src/screens/MembersScreen.js:182 | every digit is kept, as often as it occurs, and nothing else is |
| MembersForm.DigitsOnlyOfDigits | src/screens/MembersScreen.js:182 | digit text passes the filter unchanged, so filtering is idempotent |
| MembersForm.DigitsOnlyAppend | src/screens/MembersScreen.js:182 | the filter works character by character and keeps the order of the text |
| MembersForm.DigitsOnlyOfChar | src/screens/MembersScreen.js:182 | one character is kept exactly when it is a digit |
| MembersForm.PowerOfFiltered | src/screens/MembersScreen.js:45 | after the filter the power is the decimal value of the digits, never NaN |
| MembersForm.RoleForDB | src/screens/MembersScreen.js:68 | the joined text starts with the role and ends with the class, with ` - ` between them exactly when both are non-empty |
| MembersForm.RoleForDBCases | src/screens/MembersScreen.js:68 | role alone, class alone, or `role - class`, with the length that follows |
| MembersForm.StatusLeaderCount | src/screens/MembersScreen.js:56-60 | the count is positive exactly when a member of the clan has status `'Líder'` |
| MembersForm.InsertMember | src/screens/MembersScreen.js:41-74 | refused for a missing name exactly when the name is absent or blank; refused as a second leader only for status `'Líder'` with a counted leader; an accepted insert stores the clan, the trimmed name, the chosen status and the power, and a leader only when none was counted |
| MembersForm.InsertNeedsName | src/screens/MembersScreen.js:41-50 | the insert is refused for a missing name exactly when the name is absent or blank |
| MembersForm.InsertOneLeader | src/screens/MembersScreen.js:44-63 | with a name, refused exactly when `'Líder'` is chosen and the clan already has a member with that status |
| MembersForm.InsertLeaderDecision | src/screens/MembersScreen.js:55-63 | the second refusal in terms of the stored status and the counted rows |
| MembersForm.InsertedName | src/screens/MembersScreen.js:41-74 | an accepted insert stores the trimmed name, which is not blank |
| MembersForm.InsertedRecord | src/screens/MembersScreen.js:42-74 | an accepted insert stores the clan, the joined trimmed role and class, the status value and the power |
| MembersForm.LeaderByRoleNotChecked | src/screens/MembersScreen.js:55-63 | a clan whose leader is set by role but not by status still accepts a second `'Líder'` |

## Left out

- The SQL engine itself is not modelled: parsing, query planning and I/O.
  Each statement is modelled by its effect on the tables.
- The async/await plumbing and the `getDB` singleton are not modelled. Every
  store operation is one atomic step, and `setLeader`'s transaction is one
  step.
- The rename rebuild is one multi-statement script without a transaction. Its
  failure part-way is not modelled: the model treats it as one step.
- Wall-clock time and time zones are not modelled:
  - `new Date()` and `now` are parameters;
  - `getWeekRange` takes the calendar day that `Date.UTC(getFullYear(), getMonth(), getDate())` gives.
- `created_at` is an opaque text; its ordering is the BINARY collation.
- Dates are modelled from 0000-03-01 to 9999-12-31, the range with a
  four-digit ISO year. Six-digit extended years are not modelled.
- Calendar.ParseFullDate accepts a day number from 01 to 31 in any month and
  rolls it over, as the V8 engine does. Engines that reject such dates are
  not modelled.
- JsText.ToNumber models only blank text, digit strings and NaN. Signs,
  decimals, exponents and hexadecimal are not modelled; the app only feeds it
  digit text.
- JsText.ToLower lowers only A-Z and the Latin-1 capitals. The other Unicode
  case mappings are not modelled.
- Integers are unbounded, so rowids and numbers never overflow. The
  2^53 limit of JavaScript numbers and the 64-bit rowid limit are not
  modelled.
- Stats are integers or NULL. A text or a real stored in a stat column is not
  modelled.
- `className` is a text or NULL (ClassKey requires it not to be an integer).
  An integer stored there is not modelled.
- Legacy tables are limited to the columns the app knows and the `class`
  column. Columns of other versions are not modelled.
- Schema.HasLegacyColumns: every existing `members` table has the columns
  `id`, `clan_id`, `name`, `role`, `status` and `created_at`, which the rename
  rebuild's `SELECT` (src/database/db.js:78-80) reads. A legacy table that
  lacks any of them is not modelled; on it that `SELECT` would fail.
- Every member of a legacy database belongs to an existing clan. Databases
  that already break the foreign key are not modelled.
- After the rename rebuild, the members counter is the largest copied id:
  SQLite drops the old table's counter. Earlier ids above the largest that
  were handed out and deleted are forgotten, and the model keeps that.
- The CRUD methods require `Ready()`: `createTables` has run and left the
  current columns. App.js:24 runs `createTables` at startup, before any
  screen calls the store. A call before that is not modelled: tables that
  may be missing, foreign keys still off, so no cascade and no foreign-key
  check. Nor is a call on a legacy table that had neither `className` nor
  `class`.
- Member ids are taken to be non-negative integers (Attendance.CellKey takes a
  `nat`). A member without an id would give the key `"undefined_<date>"`
  (src/screens/AttendanceByClanScreen.js:57), and saving would post `NaN` as
  its `member_id` (src/screens/AttendanceByClanScreen.js:123). The list's
  `m.id ?? idx` fallback (src/screens/AttendanceByClanScreen.js:181) only
  names the row. These are not modelled.
- RosterStore.Database.UpdateMemberStatus stores NULL for `null` and
  `undefined` only. Other non-string JavaScript values are not modelled.
- The persistence path of `insertMember` is not modelled, only its decisions.
  As written, that path cannot succeed:
  - `getDB()` is not awaited (src/screens/MembersScreen.js:52);
  - it inserts into a `power` column that the `members` table lacks;
  - the file has stray top-level JSX (src/screens/MembersScreen.js:21).
- Before inserting a leader, the form counts members by `status`, while
  `clanHasLeader` and `setLeader` use `role`. The model keeps both as written
  (MembersForm.LeaderByRoleNotChecked).
- The network layer is not modelled: `api.post` in `handleSave`, and
  `getMembersByClan` from the sheets service. `handleSave` is modelled up to
  the payload it posts.
- The radar's geometry is not modelled: `polarToCartesian` and the polygon
  points are floating-point trigonometry. The `.map` over the profile is
  modelled only through the profile's shape.
- Rendering, navigation, alerts, the keyboard and React state setters are
  not modelled.

## Findings

| source | as written | input that shows it | evidently intended | confidence | as-written member | corrected member |
|---|---|---|---|---|---|---|
| src/screens/MemberDetailScreen.js:68-73 | `classImages[classKey] \|\| classImages.guerrero` and `classStats[classKey] \|\| classStats.guerrero` look the key up on plain object literals, so a key such as `constructor` or `__proto__` finds an inherited `Object.prototype` property instead of falling back | a member whose class is `Constructor`: the avatar source is the `Object` function, and without stored stats `baseStats` is a function, so `baseStats.map` throws | use only the tables' own entries; any other key falls back to `guerrero` | not executed | MemberDetail.ConstructorClassAsWritten | MemberDetail.ClassForKey |
