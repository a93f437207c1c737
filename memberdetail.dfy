/**
 * The member detail screen's choice of avatar and of the five-axis attribute
 * profile: the class name is normalised to a key, the key picks an entry of
 * the class tables (falling back to `guerrero`), and the profile comes either
 * from the five stats stored with the member or, as a whole, from the table.
 */
module MemberDetail {
  import opened Wrappers
  import opened JsText
  import opened Schema
  import opened RosterStore

  /** The radar's axes, in the order of the stats. */
  const Axes: seq<string> := ["Fuerza", "Defensa", "Agilidad", "Magia", "Suerte"]

  /** The classes that have an image and a default profile. */
  datatype ClassId = Ballestera | Guerrero | Lancero | Maga | Oscuraria | Taoista | Valiente

  /** The property name of a class in `classImages` and `classStats`. */
  function ClassKeyOf(c: ClassId): string
  {
    match c
    case Ballestera => "ballestera"
    case Guerrero => "guerrero"
    case Lancero => "lancero"
    case Maga => "maga"
    case Oscuraria => "oscuraria"
    case Taoista => "taoista"
    case Valiente => "valiente"
  }

  /** The class whose own property `key` is, if any. */
  function ClassNamed(key: string): Option<ClassId>
  {
    if key == "ballestera" then Some(Ballestera)
    else if key == "guerrero" then Some(Guerrero)
    else if key == "lancero" then Some(Lancero)
    else if key == "maga" then Some(Maga)
    else if key == "oscuraria" then Some(Oscuraria)
    else if key == "taoista" then Some(Taoista)
    else if key == "valiente" then Some(Valiente)
    else None
  }

  /** Keys and classes correspond one to one. */
  lemma ClassNamedOfKey(c: ClassId)
    ensures ClassNamed(ClassKeyOf(c)) == Some(c)
  {
  }

  lemma KeyOfClassNamed(key: string)
    ensures ClassNamed(key).Some? ==> ClassKeyOf(ClassNamed(key).value) == key
  {
  }

  /** `classStats`: the default profile of each class, one value per axis. */
  function ClassStats(c: ClassId): seq<int>
  {
    match c
    case Ballestera => [70, 40, 80, 30, 60]
    case Guerrero => [85, 70, 50, 20, 40]
    case Lancero => [75, 60, 70, 25, 50]
    case Maga => [40, 35, 55, 90, 65]
    case Oscuraria => [60, 45, 65, 85, 50]
    case Taoista => [55, 50, 60, 75, 70]
    case Valiente => [80, 65, 55, 35, 55]
  }

  /** Every default profile has one value per axis, each between 0 and 100. */
  lemma ClassStatsInRange(c: ClassId)
    ensures |ClassStats(c)| == |Axes|
    ensures forall i :: 0 <= i < |ClassStats(c)| ==> 0 <= ClassStats(c)[i] <= 100
  {
  }

  /**
   * `(member.className || "").toLowerCase().trim()`. The column has TEXT
   * affinity, so it holds a text or NULL.
   */
  function ClassKey(className: Value): (k: string)
    requires !className.Int?
    ensures IsLower(k)
    ensures k != [] ==> !IsJsSpace(k[0]) && !IsJsSpace(k[|k| - 1])
  {
    var s := if className.Text? then className.s else "";
    ToLowerIsLower(s);
    TrimKeepsLower(ToLower(s));
    Trim(ToLower(s))
  }

  /**
   * The key of a class name is the name lower-cased and trimmed: the lowered
   * characters of the name between its leading and its trailing whitespace.
   */
  lemma ClassKeyOfName(name: string)
    ensures IsLoweredTrim(name, ClassKey(Text(name)))
  {
    assert ClassKey(Text(name)) == Trim(ToLower(name));
    TrimOfLower(name);
  }

  /** A missing class name (NULL) gives the empty key. */
  lemma ClassKeyOfNull()
    ensures ClassKey(Null) == ""
  {
    assert ToLower("") == "";
  }

  /** The key is already normal: lower case, trimmed, and its own key. */
  lemma ClassKeyNormal(className: Value)
    requires !className.Int?
    ensures var k := ClassKey(className);
      IsLower(k) && Trim(k) == k && ClassKey(Text(k)) == k
  {
    var s := if className.Text? then className.s else "";
    TrimIdempotent(ToLower(s));
    ToLowerOfLower(ClassKey(className));
  }

  /**
   * The class of the avatar and of the default profile: the class named by the
   * key, otherwise `guerrero`.
   */
  function ClassFor(key: string): (c: ClassId)
    ensures ClassNamed(key).Some? ==> c == ClassNamed(key).value
    ensures ClassNamed(key).None? ==> c == Guerrero
  {
    ClassNamed(key).GetOr(Guerrero)
  }

  /** The avatar shows class `c` exactly when the key is `c`'s, or names no class and `c` is `guerrero`. */
  lemma ClassForKey(key: string, c: ClassId)
    ensures ClassFor(key) == c <==> key == ClassKeyOf(c) || (ClassNamed(key).None? && c == Guerrero)
  {
    ClassNamedOfKey(c);
    KeyOfClassNamed(key);
  }

  /** `avatarSource`: the image of the member's class. */
  function Avatar(m: MemberRecord): (a: ClassId)
    requires !m.className.Int?
    ensures ClassNamed(ClassKey(m.className)).Some? ==> ClassKeyOf(a) == ClassKey(m.className)
    ensures ClassNamed(ClassKey(m.className)).None? ==> a == Guerrero
  {
    KeyOfClassNamed(ClassKey(m.className));
    ClassFor(ClassKey(m.className))
  }

  /** `fromDb`: the five stats as stored, in axis order. */
  function FromDb(m: MemberRecord): (db: seq<Value>)
    ensures |db| == |Axes|
  {
    [m.str, m.def, m.agi, m.mag, m.luck]
  }

  /**
   * `hasAllDb`: every stat is a number that is not NaN. An INTEGER cell reads
   * as a number; NULL reads as `null` and a text as a string.
   */
  predicate HasAllDb(db: seq<Value>)
  {
    forall i :: 0 <= i < |db| ==> db[i].Int?
  }

  /** `hasAllDb` holds exactly when all five stats are stored as numbers. */
  lemma HasAllDbStats(m: MemberRecord)
    ensures HasAllDb(FromDb(m)) <==> m.str.Int? && m.def.Int? && m.agi.Int? && m.mag.Int? && m.luck.Int?
  {
    var db := FromDb(m);
    assert db[0] == m.str && db[1] == m.def && db[2] == m.agi && db[3] == m.mag && db[4] == m.luck;
  }

  /** `baseStats`: the stored stats when all five are numbers, else the class's default profile. */
  function BaseStats(m: MemberRecord): (stats: seq<int>)
    requires !m.className.Int?
    ensures |stats| == |Axes|
  {
    var db := FromDb(m);
    if HasAllDb(db) then [db[0].i, db[1].i, db[2].i, db[3].i, db[4].i]
    else ClassStats(ClassFor(ClassKey(m.className)))
  }

  /** With all five stored stats, the profile is exactly them, in axis order. */
  lemma BaseStatsFromDb(m: MemberRecord)
    requires !m.className.Int? && HasAllDb(FromDb(m))
    ensures forall i :: 0 <= i < |Axes| ==> FromDb(m)[i] == Int(BaseStats(m)[i])
  {
  }

  /**
   * With any stored stat missing, the whole profile is the default of the
   * avatar's class, so it lies in 0..100 and no stored stat is mixed in.
   */
  lemma BaseStatsFromClass(m: MemberRecord)
    requires !m.className.Int? && !HasAllDb(FromDb(m))
    ensures BaseStats(m) == ClassStats(Avatar(m))
    ensures forall i :: 0 <= i < |Axes| ==> 0 <= BaseStats(m)[i] <= 100
  {
    ClassStatsInRange(Avatar(m));
  }

  // ---------------------------------------------------------------------------
  // The lookup as written
  // ---------------------------------------------------------------------------

  /** What `classImages[key]` / `classStats[key]` yields on a plain object literal. */
  datatype Property = OwnEntry(c: ClassId) | FromObjectPrototype | Undefined

  /**
   * Property lookup on an object literal also finds what it inherits from
   * `Object.prototype`; of those names, `constructor` and `__proto__` are the
   * ones that a lower-cased key can spell, and both are truthy objects.
   */
  function LookupAsWritten(key: string): Property
  {
    if ClassNamed(key).Some? then OwnEntry(ClassNamed(key).value)
    else if key == "constructor" || key == "__proto__" then FromObjectPrototype
    else Undefined
  }

  /** `table[classKey] || table.guerrero` as written: only `undefined` falls back. */
  function ChoiceAsWritten(key: string): (p: Property)
    ensures p != Undefined
  {
    var p := LookupAsWritten(key);
    if p == Undefined then OwnEntry(Guerrero) else p
  }

  /**
   * A member whose class is written `Constructor` gets no class image, and,
   * without stored stats, `baseStats` is a function rather than a profile (so
   * the `.map` that draws the radar throws). `ClassFor` is the lookup the
   * screen means, restricted to the tables' own entries.
   */
  lemma ConstructorClassAsWritten()
    ensures ClassKey(Text("Constructor")) == "constructor"
    ensures ChoiceAsWritten(ClassKey(Text("Constructor"))) == FromObjectPrototype
    ensures ClassFor(ClassKey(Text("Constructor"))) == Guerrero
  {
    ConstructorKey();
    var k := "constructor";
    assert |k| == 11 && ClassNamed(k).None?;
    assert LookupAsWritten(k) == FromObjectPrototype;
  }

  /** The class written `Constructor` gets the key `constructor`. */
  lemma ConstructorKey()
    ensures ClassKey(Text("Constructor")) == "constructor"
  {
    LowerConstructor();
    TrimConstructor();
  }

  lemma LowerConstructor()
    ensures ToLower("Constructor") == "constructor"
  {
    var s, t := "Constructor", "constructor";
    forall i | 0 <= i < 11
      ensures ToLower(s)[i] == t[i]
    {
    }
  }

  lemma TrimConstructor()
    ensures Trim("constructor") == "constructor"
  {
    var t := "constructor";
    assert !IsJsSpace(t[0]) && !IsJsSpace(t[10]);
    assert LeadingSpaces(t) == 0 && TrailingSpaces(t) == 0;
    assert t[0..] == t && t[..11] == t;
  }

  /** Where the key is not an inherited name, the corrected lookup agrees with the one as written. */
  lemma ClassForAgrees(key: string)
    requires key != "constructor" && key != "__proto__"
    ensures ChoiceAsWritten(key) == OwnEntry(ClassFor(key))
  {
  }
}
