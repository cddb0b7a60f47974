/**
 * Run-time type checks on values that a TOML parser has already produced:
 * `isinstance` against a class or a union of classes, and the error
 * message that names the expected TOML type.
 */
module TomlValidation {
  import opened Wrappers
  import opened Text

  /** The Python classes a parsed TOML value can have, plus `tuple`, which a
      caller may pass although TOML never produces it. */
  datatype PyClass = Str | Bool | Int | Float | DateTime | Date | Time | Dict | List | NoneType | Tuple

  /** Python's class hierarchy restricted to these classes: `bool` derives
      from `int` and `datetime` from `date`. */
  predicate IsSubclass(c: PyClass, base: PyClass) {
    c == base || (c == Bool && base == Int) || (c == DateTime && base == Date)
  }

  /** The `__name__` of each class, used when a class has no TOML name. */
  function PyName(c: PyClass): string {
    match c
    case Str => "str"
    case Bool => "bool"
    case Int => "int"
    case Float => "float"
    case DateTime => "datetime"
    case Date => "date"
    case Time => "time"
    case Dict => "dict"
    case List => "list"
    case NoneType => "NoneType"
    case Tuple => "tuple"
  }

  /** A type descriptor: one class, or a union such as `list | None`. */
  datatype TomlType = Class(cls: PyClass) | Union(args: seq<TomlType>)

  /** A parsed value. Instants, days and times of day are counted from the
      least value of their kind; `VNone` is Python's `None` (an absent key). */
  datatype Value =
    | VStr(s: string)
    | VBool(b: bool)
    | VInt(i: int)
    | VFloat(f: real)
    | VDateTime(instant: nat)
    | VDate(day: nat)
    | VTime(second: nat)
    | VTable(entries: seq<(string, Value)>)
    | VArray(items: seq<Value>)
    | VNone
    | VTuple(elems: seq<Value>)

  function ClassOf(v: Value): PyClass {
    match v
    case VStr(_) => Str
    case VBool(_) => Bool
    case VInt(_) => Int
    case VFloat(_) => Float
    case VDateTime(_) => DateTime
    case VDate(_) => Date
    case VTime(_) => Time
    case VTable(_) => Dict
    case VArray(_) => List
    case VNone => NoneType
    case VTuple(_) => Tuple
  }

  /** `isinstance(v, t)`: a union admits a value that any of its members admits. */
  predicate IsInstance(v: Value, t: TomlType)
    ensures t == Class(ClassOf(v)) ==> IsInstance(v, t)
    ensures t == Class(NoneType) ==> (IsInstance(v, t) <==> v == VNone)
    ensures t == Union([]) ==> !IsInstance(v, t)
    decreases t
  {
    match t
    case Class(c) => IsSubclass(ClassOf(v), c)
    case Union(args) => exists i :: 0 <= i < |args| && IsInstance(v, args[i])
  }

  /** A descriptor built only from classes that have a TOML name (or are `NoneType`). */
  predicate Known(t: TomlType)
    decreases t
  {
    match t
    case Class(c) => c != Tuple
    case Union(args) => forall i :: 0 <= i < |args| ==> Known(args[i])
  }

  /** The table of TOML names, searched in this order: `bool` before `int`
      and `datetime` before `date`, so that a subclass gets its own name. */
  const TomlNames: seq<(PyClass, string)> := [
    (Str, "string"), (Bool, "bool"), (Int, "integer"), (Float, "float"),
    (DateTime, "datetime"), (Date, "date"), (Time, "time"),
    (Dict, "table"), (List, "array")
  ]

  /** Where a checked value sits in the document: a path given whole, or a
      key under a prefix path (the form `toml_check_get` builds). */
  datatype Path = At(text: string) | Under(prePath: string, key: string)

  /** The `ValueError`s with a fixed text that the program raises outside
      the checks (the text of `RepoNotFound` ends with the repository's id). */
  datatype Problem =
    | AuthorHasSlash
    | NameHasSlash
    | NoMatcher
    | IdNotAuthorName
    | GroupIdHasSpace
    | CacheNotLoaded
    | RepoNotFound(id: string)

  function ProblemText(p: Problem): string {
    match p
    case AuthorHasSlash => "author should not contain \"/\""
    case NameHasSlash => "name should not contain \"/\""
    case NoMatcher => "there should be at least a single matcher, like \".+\""
    case IdNotAuthorName => "`group.X.repos[N].id` should be of form \"author/name\""
    case GroupIdHasSpace => "id should contain no whitespace"
    case CacheNotLoaded => "cache was not loaded"
    case RepoNotFound(id) => "repo is not found: " + id
  }

  /** The exceptions the program raises, each with the data its message is
      formatted from: a `ValueError` with fixed text, the `ValueError` of a
      failed check, and the `NotImplementedError` for a class without a
      TOML name. */
  datatype Error =
    | Invalid(problem: Problem)
    | Mismatch(path: Path, expected: TomlType)
    | UnknownType(name: string)

  type Outcome<T> = Result<T, Error>

  /** Whether the exception is a `ValueError` (the class the program's
      callers catch), rather than a `NotImplementedError`. */
  predicate IsValueError(e: Error) {
    !e.UnknownType?
  }

  /** The search of `TomlNames` from entry `i` on; `NoneType` is named before
      any entry is compared. The search only ever starts at entry 0, so the
      entries before `i` are known not to match. */
  function LookupName(c: PyClass, i: nat): (r: Outcome<string>)
    requires i <= |TomlNames|
    requires i > 0 ==> c != NoneType
    requires forall j :: 0 <= j < i ==> !IsSubclass(c, TomlNames[j].0)
    ensures r.Success? <==> c != Tuple
    ensures r.Failure? ==> r.error == UnknownType(PyName(c))
    decreases |TomlNames| - i
  {
    if i == |TomlNames| then
      assert !IsSubclass(c, TomlNames[0].0) && !IsSubclass(c, TomlNames[1].0) && !IsSubclass(c, TomlNames[2].0);
      assert !IsSubclass(c, TomlNames[3].0) && !IsSubclass(c, TomlNames[4].0) && !IsSubclass(c, TomlNames[5].0);
      assert !IsSubclass(c, TomlNames[6].0) && !IsSubclass(c, TomlNames[7].0) && !IsSubclass(c, TomlNames[8].0);
      Failure(UnknownType(PyName(c)))
    else if c == NoneType then Success("absent")
    else if IsSubclass(c, TomlNames[i].0) then Success(TomlNames[i].1)
    else LookupName(c, i + 1)
  }

  /** What each class is called in a message: its own TOML name, `NoneType`
      "absent". Only `tuple` has none. */
  function OwnName(c: PyClass): Option<string> {
    match c
    case Str => Some("string")
    case Bool => Some("bool")
    case Int => Some("integer")
    case Float => Some("float")
    case DateTime => Some("datetime")
    case Date => Some("date")
    case Time => Some("time")
    case Dict => Some("table")
    case List => Some("array")
    case NoneType => Some("absent")
    case Tuple => None
  }

  /** Searching the table in order gives every class its own name, although
      `bool` is also a subclass of `int` and `datetime` of `date`: each
      subclass is listed before its base. */
  lemma LookupOwnName(c: PyClass)
    ensures OwnName(c).Some? ==> LookupName(c, 0) == Success(OwnName(c).value)
    ensures OwnName(c).None? ==> LookupName(c, 0) == Failure(UnknownType(PyName(c)))
  {
    match c
    case Str => assert LookupName(Str, 0) == Success("string");
    case Bool => assert LookupName(Bool, 0) == Success("bool");
    case Int => assert LookupName(Int, 0) == Success("integer");
    case Float => assert LookupName(Float, 0) == Success("float");
    case DateTime => assert LookupName(DateTime, 0) == Success("datetime");
    case Date => assert LookupName(Date, 0) == Success("date");
    case Time => assert LookupName(Time, 0) == Success("time");
    case Dict => assert LookupName(Dict, 0) == Success("table");
    case List => assert LookupName(List, 0) == Success("array");
    case NoneType => assert LookupName(NoneType, 0) == Success("absent");
    case Tuple =>
  }

  /** The name of a type as it appears in an error message: a union's member
      names joined by " or ", `NoneType` as "absent", any other class by the
      first table entry it is a subclass of. Fails exactly on an unknown
      class, which can only be `tuple`. */
  function TypeName(t: TomlType): (r: Outcome<string>)
    ensures r.Success? <==> Known(t)
    ensures r.Failure? ==> r.error == UnknownType(PyName(Tuple))
    decreases t, if t.Union? then |t.args| + 1 else 0
  {
    match t
    case Class(c) => LookupName(c, 0)
    case Union(args) =>
      var names :- ArgNames(t, 0);
      Success(Join(names, " or "))
  }

  /** The names of the union members `t.args[i..]`, failing at the first unknown one. */
  function ArgNames(t: TomlType, i: nat): (r: Outcome<seq<string>>)
    requires t.Union? && i <= |t.args|
    ensures r.Success? <==> forall j :: i <= j < |t.args| ==> Known(t.args[j])
    ensures r.Failure? ==> r.error == UnknownType(PyName(Tuple))
    ensures r.Success? ==> |r.value| == |t.args| - i
    ensures r.Success? ==> forall j :: i <= j < |t.args| ==> TypeName(t.args[j]) == Success(r.value[j - i])
    decreases t, |t.args| - i
  {
    if i == |t.args| then Success([])
    else
      var first := TypeName(t.args[i]);
      if first.Failure? then Failure(first.error)
      else
        var rest := ArgNames(t, i + 1);
        if rest.Failure? then Failure(rest.error)
        else Success([first.value] + rest.value)
  }

  /** The path under which `toml_check_get` reports `key`. */
  function KeyPath(prePath: string, key: string): (p: string)
    ensures prePath == "" ==> p == key
    ensures |p| >= |key| && p[|p| - |key|..] == key
    ensures prePath != "" ==> prePath + "." <= p
  {
    if prePath != "" then prePath + "." + key else key
  }

  function PathText(p: Path): string {
    match p
    case At(text) => text
    case Under(prePath, key) => KeyPath(prePath, key)
  }

  /** The text of the `ValueError` of a failed check. */
  function ShouldBe(path: string, name: string): string {
    "`" + path + "` should be a " + name
  }

  /** The text of the exception: "`<path>` should be a <type name>" for a
      failed check, "unknown type: <class name>" for an unknown class. */
  function Message(e: Error): (m: string)
    ensures e.Mismatch? ==> "`" + PathText(e.path) + "` should be a " <= m
    ensures e.UnknownType? ==> |m| >= |e.name| && m[|m| - |e.name|..] == e.name
  {
    match e
    case Invalid(problem) => ProblemText(problem)
    case Mismatch(path, expected) =>
      ShouldBe(PathText(path), if Known(expected) then TypeName(expected).value else "")
    case UnknownType(name) => "unknown type: " + name
  }

  /** `toml_check`: the value itself when it is an instance of the type;
      otherwise the `ValueError` naming the path and the type, or the
      exception that naming the type raises. */
  function TomlCheck(value: Value, typ: TomlType, path: Path): (r: Outcome<Value>)
    ensures r.Success? <==> IsInstance(value, typ)
    ensures r.Success? ==> r.value == value
    ensures r.Failure? && Known(typ) ==> r.error == Mismatch(path, typ) && IsValueError(r.error)
    ensures r.Failure? && !Known(typ) ==> r.error == UnknownType(PyName(Tuple)) && !IsValueError(r.error)
  {
    if IsInstance(value, typ) then Success(value)
    else if Known(typ) then Failure(Mismatch(path, typ))
    else Failure(UnknownType(PyName(Tuple)))
  }

  /** `data.get(key)`: the value stored under the key, `None` when there is none. */
  function Get(data: seq<(string, Value)>, key: string): Value {
    if data == [] then VNone
    else if data[0].0 == key then data[0].1
    else Get(data[1..], key)
  }

  /** The value under a key is the one of its first entry. */
  lemma {:induction false} GetFirst(data: seq<(string, Value)>, key: string, i: nat)
    requires i < |data| && data[i].0 == key
    requires forall j :: 0 <= j < i ==> data[j].0 != key
    ensures Get(data, key) == data[i].1
  {
    if i > 0 {
      assert data[0].0 != key;
      assert forall j :: 0 <= j < i - 1 ==> data[1..][j] == data[j + 1];
      GetFirst(data[1..], key, i - 1);
    }
  }

  /** A key without an entry reads as `None`. */
  lemma {:induction false} GetMissing(data: seq<(string, Value)>, key: string)
    requires forall j :: 0 <= j < |data| ==> data[j].0 != key
    ensures Get(data, key) == VNone
  {
    if data != [] {
      assert data[0].0 != key;
      assert forall j :: 0 <= j < |data| - 1 ==> data[1..][j] == data[j + 1];
      GetMissing(data[1..], key);
    }
  }

  /** `toml_check_get`: checks `data.get(key)` under the path `prePath.key`,
      or `key` alone when `prePath` is empty; a missing key is checked as `None`. */
  function TomlCheckGet(data: seq<(string, Value)>, key: string, typ: TomlType, prePath: string): (r: Outcome<Value>)
    ensures r.Success? <==> IsInstance(Get(data, key), typ)
    ensures r.Success? ==> r.value == Get(data, key)
    ensures r.Failure? && Known(typ) ==> r.error == Mismatch(Under(prePath, key), typ)
  {
    TomlCheck(Get(data, key), typ, Under(prePath, key))
  }

  /** `toml_check_seq`: the sequence itself when the checker accepts every
      element, otherwise the failure of the first element it rejects. */
  function TomlCheckSeq(items: seq<Value>, checker: Value -> Outcome<Value>): (r: Outcome<seq<Value>>)
    ensures r.Success? <==> forall i :: 0 <= i < |items| ==> checker(items[i]).Success?
    ensures r.Success? ==> r.value == items
  {
    if items == [] then Success(items)
    else if checker(items[0]).Failure? then Failure(checker(items[0]).error)
    else
      var rest := TomlCheckSeq(items[1..], checker);
      assert forall j :: 1 <= j < |items| ==> items[j] == items[1..][j - 1];
      if rest.Failure? then Failure(rest.error) else Success(items)
  }

  // Properties of the checks

  /** A rejected sequence fails with the error of the first element the
      checker rejects. */
  lemma {:induction false} TomlCheckSeqFailure(items: seq<Value>, checker: Value -> Outcome<Value>)
    requires TomlCheckSeq(items, checker).Failure?
    ensures FirstFailure(items, checker) < |items|
    ensures TomlCheckSeq(items, checker).error == checker(items[FirstFailure(items, checker)]).error
  {
    if checker(items[0]).Success? {
      TomlCheckSeqFailure(items[1..], checker);
    }
  }

  /** A failed check of a class names the class by its own name. */
  lemma MismatchMessage(path: Path, c: PyClass)
    requires OwnName(c).Some?
    ensures Message(Mismatch(path, Class(c))) == ShouldBe(PathText(path), OwnName(c).value)
  {
    LookupOwnName(c);
  }

  /** A check against a class that has no subclass here accepts exactly
      the values of that class. */
  lemma ExactInstances(v: Value)
    ensures IsInstance(v, Class(Str)) <==> v.VStr?
    ensures IsInstance(v, Class(Bool)) <==> v.VBool?
    ensures IsInstance(v, Class(Dict)) <==> v.VTable?
    ensures IsInstance(v, Class(List)) <==> v.VArray?
    ensures IsInstance(v, Class(DateTime)) <==> v.VDateTime?
  {
  }

  /** A union that lists `None` accepts an absent value. */
  lemma AbsentAccepted(args: seq<TomlType>, path: Path)
    requires Class(NoneType) in args
    ensures TomlCheck(VNone, Union(args), path) == Success(VNone)
  {
    var i :| 0 <= i < |args| && args[i] == Class(NoneType);
    assert IsInstance(VNone, args[i]);
  }

  /** A union of known members is named by its members' names joined by " or ". */
  lemma UnionName(args: seq<TomlType>)
    requires forall i :: 0 <= i < |args| ==> Known(args[i])
    ensures TypeName(Union(args)) ==
      Success(Join(seq(|args|, i requires 0 <= i < |args| => TypeName(args[i]).value), " or "))
  {
    var names := ArgNames(Union(args), 0).value;
    assert names == seq(|args|, i requires 0 <= i < |args| => TypeName(args[i]).value);
  }

  /** An optional key's type, `C | None`, accepts instances of `C` and the
      absent value, and nothing else. */
  lemma OptionalInstance(v: Value, c: PyClass)
    ensures IsInstance(v, Union([Class(c), Class(NoneType)])) <==> IsInstance(v, Class(c)) || v == VNone
  {
    var args := [Class(c), Class(NoneType)];
    if IsInstance(v, Class(c)) {
      assert IsInstance(v, args[0]);
    } else if v == VNone {
      assert IsInstance(v, args[1]);
    }
  }

  /** An optional key's type, `C | None`, is named "<name of C> or absent". */
  lemma OptionalName(c: PyClass)
    requires c != NoneType && c != Tuple
    ensures TypeName(Union([Class(c), Class(NoneType)])) == Success(OwnName(c).value + " or absent")
  {
    var args := [Class(c), Class(NoneType)];
    LookupOwnName(c);
    LookupOwnName(NoneType);
    UnionName(args);
    var names := seq(|args|, i requires 0 <= i < |args| => TypeName(args[i]).value);
    assert names == [OwnName(c).value, "absent"];
    assert names[1..] == ["absent"];
    assert Join(names, " or ") == OwnName(c).value + " or " + "absent";
    assert " or " + "absent" == " or absent";
    assert OwnName(c).value + " or " + "absent" == OwnName(c).value + (" or " + "absent");
  }

  /** A type that mentions `tuple` can only fail with the exception its name
      raises, and whether it fails at all depends on the value alone. */
  lemma UnknownTypeRaises(value: Value, typ: TomlType, path: Path)
    requires !Known(typ) && !IsInstance(value, typ)
    ensures TomlCheck(value, typ, path) == Failure(UnknownType("tuple"))
    ensures Message(TomlCheck(value, typ, path).error) == "unknown type: tuple"
  {
  }

  /** Because `bool` derives from `int`, a boolean passes a check for an
      integer (and a datetime one for a date), but not the other way round. */
  lemma SubclassInstances(b: bool, n: int, t: nat, path: Path)
    ensures TomlCheck(VBool(b), Class(Int), path) == Success(VBool(b))
    ensures TomlCheck(VDateTime(t), Class(Date), path) == Success(VDateTime(t))
    ensures TomlCheck(VInt(n), Class(Bool), path) == Failure(Mismatch(path, Class(Bool)))
    ensures TomlCheck(VDate(t), Class(DateTime), path) == Failure(Mismatch(path, Class(DateTime)))
  {
  }

  // The assertions that accompany the checks in their own module, one per lemma.

  lemma CheckAcceptsInt()
    ensures TomlCheck(VInt(2), Class(Int), At("")) == Success(VInt(2))
  {
  }

  lemma CheckAcceptsOptionalInt()
    ensures TomlCheck(VInt(2), Union([Class(Int), Class(NoneType)]), At("")) == Success(VInt(2))
  {
    assert IsInstance(VInt(2), Union([Class(Int), Class(NoneType)]).args[0]);
  }

  lemma CheckAcceptsAbsentOptionalInt()
    ensures TomlCheck(VNone, Union([Class(Int), Class(NoneType)]), At("")) == Success(VNone)
  {
    assert IsInstance(VNone, Union([Class(Int), Class(NoneType)]).args[1]);
  }

  lemma CheckAcceptsList()
    ensures TomlCheck(VArray([VInt(34)]), Class(List), At("")) == Success(VArray([VInt(34)]))
  {
  }

  lemma CheckRejectsIntAsString(path: string)
    ensures Message(TomlCheck(VInt(2), Class(Str), At(path)).error) == ShouldBe(path, "string")
  {
    MismatchMessage(At(path), Str);
  }

  lemma CheckRejectsTableAsOptionalArray(path: string)
    ensures Message(TomlCheck(VTable([]), Union([Class(List), Class(NoneType)]), At(path)).error)
         == ShouldBe(path, "array or absent")
  {
    var t := Union([Class(List), Class(NoneType)]);
    assert !IsInstance(VTable([]), t) by {
      assert forall i :: 0 <= i < |t.args| ==> !IsInstance(VTable([]), t.args[i]);
    }
    OptionalName(List);
  }

  lemma CheckRejectsTupleAsArray(path: string)
    ensures Message(TomlCheck(VTuple([]), Class(List), At(path)).error) == ShouldBe(path, "array")
  {
    MismatchMessage(At(path), List);
  }

  lemma CheckRejectsAbsentBool(path: string)
    ensures Message(TomlCheck(VNone, Class(Bool), At(path)).error) == ShouldBe(path, "bool")
  {
    MismatchMessage(At(path), Bool);
  }

  lemma CheckGetAcceptsNone()
    ensures TomlCheckGet([("a", VNone)], "a", Union([Class(Str), Class(NoneType)]), "") == Success(VNone)
  {
    assert IsInstance(VNone, Union([Class(Str), Class(NoneType)]).args[1]);
  }

  lemma CheckGetRejectsNone(key: string)
    ensures Message(TomlCheckGet([(key, VNone)], key, Class(Str), "").error) == ShouldBe(key, "string")
  {
    MismatchMessage(Under("", key), Str);
  }

  lemma CheckGetPrefixesPath(prePath: string, key: string)
    requires prePath != ""
    ensures Message(TomlCheckGet([(key, VNone)], key, Class(Dict), prePath).error)
         == ShouldBe(prePath + "." + key, "table")
  {
    MismatchMessage(Under(prePath, key), Dict);
  }

  lemma CheckSeqAcceptsExample()
    ensures TomlCheckSeq([VInt(1), VStr("ba"), VArray([])],
                         x => TomlCheck(x, Union([Class(List), Class(Str), Class(Int)]), At("")))
         == Success([VInt(1), VStr("ba"), VArray([])])
  {
    var any := Union([Class(List), Class(Str), Class(Int)]);
    assert IsInstance(VInt(1), any.args[2]);
    assert IsInstance(VStr("ba"), any.args[1]);
    assert IsInstance(VArray([]), any.args[0]);
  }

  lemma CheckSeqRejectsExample(path: Path)
    ensures TomlCheckSeq([VInt(1), VStr("ba"), VArray([])],
                         x => TomlCheck(x, Union([Class(Str), Class(NoneType)]), path))
         == Failure(Mismatch(path, Union([Class(Str), Class(NoneType)])))
  {
    var t := Union([Class(Str), Class(NoneType)]);
    assert !IsInstance(VInt(1), t) by {
      assert forall i :: 0 <= i < |t.args| ==> !IsInstance(VInt(1), t.args[i]);
    }
  }

  lemma OptionalStringMessage(path: string)
    ensures Message(Mismatch(At(path), Union([Class(Str), Class(NoneType)])))
         == ShouldBe(path, "string or absent")
  {
    var t := Union([Class(Str), Class(NoneType)]);
    OptionalName(Str);
    assert "string" + " or absent" == "string or absent";
    assert Known(t) && TypeName(t).value == "string or absent";
  }
}
