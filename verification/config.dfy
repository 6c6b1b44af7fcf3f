/** `ConfigParserDict` of config.py: dict-like access to a configparser where a
    plain key lives in section `main`, values are written as the text
    `f"{type(value)} {value}"` (for example `<class 'int'> 5`) and read back
    by parsing the type name out of that text and applying the builtin of
    that name to the rest.

    The parser is a plain map from section to a map from option to text. */
module Config {
  import opened Wrappers
  import opened PyText

  /** The Python values the application stores. */
  datatype Value = IntValue(i: int) | StrValue(s: string) | BoolValue(b: bool)

  /** The key of `config[key]`: a plain string or a tuple of strings. */
  datatype Key = Plain(name: string) | Tuple(items: seq<string>)

  datatype ConfigError =
    | TupleUnpack(size: nat)              // `section, key = key` on a tuple of another size
    | NoSection(section: string)          // configparser.NoSectionError
    | NoOption(section: string, option: string)  // configparser.NoOptionError
    | NoTypePrefix                        // the match is None: `match.group` raises
    | BuiltinNotModelled(name: string)    // `getattr(builtins, name)` for another name
    | ConversionFailed(text: string)      // `int(text)` raises ValueError

  type Store = map<string, map<string, string>>

  const MainSection: string := "main"

  /** `_key_conv`: a tuple is unpacked into section and key; anything else is
      a key of section `main`. */
  function KeyConv(key: Key): (r: Result<(string, string), ConfigError>)
    ensures key.Plain? ==> r == Success((MainSection, key.name))
    ensures key.Tuple? ==> (r.Success? <==> |key.items| == 2)
    ensures r.Success? && key.Tuple? ==> r.value == (key.items[0], key.items[1])
  {
    match key
    case Plain(name) => Success((MainSection, name))
    case Tuple(items) => if |items| == 2 then Success((items[0], items[1])) else Failure(TupleUnpack(|items|))
  }

  /** `type(value).__name__`. */
  function TypeName(v: Value): string {
    match v
    case IntValue(_) => "int"
    case StrValue(_) => "str"
    case BoolValue(_) => "bool"
  }

  /** `str(value)`. */
  function ValueText(v: Value): string {
    match v
    case IntValue(i) => IntToString(i)
    case StrValue(s) => s
    case BoolValue(b) => if b then "True" else "False"
  }

  const ClassPrefix: string := "<class '"
  const ClassSuffix: string := "'> "

  /** `f"{type(value)} {value}"`. */
  function Serialize(v: Value): (text: string)
    ensures StartsWith(text, ClassPrefix)
    ensures text[|ClassPrefix|..] == TypeName(v) + ClassSuffix + ValueText(v)
  {
    ClassPrefix + TypeName(v) + ClassSuffix + ValueText(v)
  }

  predicate OccursAt(s: string, pat: string, j: int) {
    0 <= j && j + |pat| <= |s| && s[j..j + |pat|] == pat
  }

  /** The last position at or below `n` where `pat` occurs in `s`. */
  function LastOccurrenceFrom(s: string, pat: string, n: int): (r: Option<nat>)
    ensures r.Some? ==> r.value <= n && OccursAt(s, pat, r.value)
    ensures forall j :: (if r.Some? then r.value else -1) < j <= n ==> !OccursAt(s, pat, j)
    decreases n + 1
  {
    if n < 0 then None
    else if OccursAt(s, pat, n) then Some(n)
    else LastOccurrenceFrom(s, pat, n - 1)
  }

  function LastOccurrence(s: string, pat: string): (r: Option<nat>)
    ensures r.Some? ==> OccursAt(s, pat, r.value)
    ensures forall j :: (if r.Some? then r.value else -1) < j ==> !OccursAt(s, pat, j)
  {
    LastOccurrenceFrom(s, pat, |s|)
  }

  /** `re.match(r"<class '(?P<type>.*)'> (?P<val>.*)", text)`: the greedy
      `type` group ends at the last `'> ` of the first line, and `val` is the
      rest of that line. */
  function MatchTyped(text: string): (r: Option<(string, string)>)
    ensures r.Some? ==> StartsWith(text, ClassPrefix)
    ensures r.Some? ==> Line(text[|ClassPrefix|..]) == r.value.0 + ClassSuffix + r.value.1
    ensures r.Some? ==> forall j :: |r.value.0| < j ==> !OccursAt(Line(text[|ClassPrefix|..]), ClassSuffix, j)
    ensures r.None? <==> !StartsWith(text, ClassPrefix) || LastOccurrence(Line(text[|ClassPrefix|..]), ClassSuffix).None?
  {
    if !StartsWith(text, ClassPrefix) then None
    else
      var line := Line(text[|ClassPrefix|..]);
      match LastOccurrence(line, ClassSuffix)
      case None => None
      case Some(k) =>
        SplitAtOccurrence(line, k);
        Some((line[..k], line[k + |ClassSuffix|..]))
  }

  lemma SplitAtOccurrence(line: string, k: nat)
    requires OccursAt(line, ClassSuffix, k)
    ensures line == line[..k] + ClassSuffix + line[k + |ClassSuffix|..]
  {
    assert line[k..k + 3] == ClassSuffix;
  }

  /** `getattr(builtins, name)(text)` for the builtins the application stores. */
  function ApplyBuiltin(name: string, text: string): Result<Value, ConfigError> {
    if name == "int" then
      match ParseInt(text)
      case Some(i) => Success(IntValue(i))
      case None => Failure(ConversionFailed(text))
    else if name == "str" then Success(StrValue(text))
    else if name == "bool" then Success(BoolValue(text != ""))
    else Failure(BuiltinNotModelled(name))
  }

  /** `_autotype` as written: the guard `type_ == bool` compares a string
      with the type object and never holds. */
  function AutoType(text: string): Result<Value, ConfigError> {
    match MatchTyped(text)
    case None => Failure(NoTypePrefix)
    case Some((name, val)) => ApplyBuiltin(name, val)
  }

  /** `_autotype` with the guard comparing the type's name, as evidently
      intended: a stored `False` reads back as `False`. */
  function AutoTypeIntended(text: string): Result<Value, ConfigError> {
    match MatchTyped(text)
    case None => Failure(NoTypePrefix)
    case Some((name, val)) =>
      if name == "bool" && val == "False" then Success(BoolValue(false))
      else ApplyBuiltin(name, val)
  }

  /** `__setitem__`: writes the typed text under the converted key, creating
      the section first when it is missing. */
  function SetItem(store: Store, key: Key, v: Value): (r: Result<Store, ConfigError>)
    ensures r.Success? <==> KeyConv(key).Success?
    ensures r.Success? ==>
              var (section, option) := KeyConv(key).value;
              && section in r.value && option in r.value[section]
              && r.value[section][option] == Serialize(v)
              && r.value.Keys == store.Keys + {section}
              && (forall s :: s in store && s != section ==> r.value[s] == store[s])
              && (section in store ==> r.value[section].Keys == store[section].Keys + {option})
              && (section !in store ==> r.value[section].Keys == {option})
              && (forall o :: section in store && o in store[section] && o != option ==>
                    r.value[section][o] == store[section][o])
  {
    var (section, option) :- KeyConv(key);
    var text := Serialize(v);
    if section in store then Success(store[section := store[section][option := text]])
    else Success(store[section := map[option := text]])
  }

  /** `configparser.get(section, option)`. */
  function Get(store: Store, section: string, option: string): (r: Result<string, ConfigError>)
    ensures r.Success? <==> section in store && option in store[section]
    ensures r.Success? ==> r.value == store[section][option]
    ensures section !in store ==> r == Failure(NoSection(section))
  {
    if section !in store then Failure(NoSection(section))
    else if option !in store[section] then Failure(NoOption(section, option))
    else Success(store[section][option])
  }

  /** `__getitem__`. */
  function GetItem(store: Store, key: Key): Result<Value, ConfigError> {
    var (section, option) :- KeyConv(key);
    var text :- Get(store, section, option);
    AutoType(text)
  }

  /** `__getitem__` over the corrected `_autotype`. */
  function GetItemIntended(store: Store, key: Key): Result<Value, ConfigError> {
    var (section, option) :- KeyConv(key);
    var text :- Get(store, section, option);
    AutoTypeIntended(text)
  }

  /** No `'` follows position `p`, so `'> ` cannot occur after it. */
  lemma NoSuffixAfter(line: string, p: nat)
    requires p <= |line|
    requires forall i :: p <= i < |line| ==> line[i] != '\''
    ensures forall j :: p <= j ==> !OccursAt(line, ClassSuffix, j)
  {
    forall j | p <= j
      ensures !OccursAt(line, ClassSuffix, j)
    {
      if j + 3 <= |line| {
        assert line[j..j + 3][0] == line[j];
      }
    }
  }

  /** The last `'> ` in `name + "'> " + val` is the one after `name` when
      neither `name` nor `val` holds a quote-free way to form another. */
  lemma LastSuffixAfterName(name: string, val: string)
    requires forall j :: !OccursAt(val, ClassSuffix, j)
    ensures LastOccurrence(name + ClassSuffix + val, ClassSuffix) == Some(|name|)
  {
    var rest := name + ClassSuffix + val;
    var k := |name|;
    assert rest[k..k + 3] == ClassSuffix;
    forall j | k < j
      ensures !OccursAt(rest, ClassSuffix, j)
    {
      if j + 3 <= |rest| {
        if j < k + 3 {
          assert rest[j..j + 3][0] == rest[j];
        } else {
          assert rest[j..j + 3] == val[j - k - 3..j - k];
          assert !OccursAt(val, ClassSuffix, j - k - 3);
        }
      }
    }
    LastOccurrenceIs(rest, ClassSuffix, k);
  }

  lemma LastOccurrenceIs(s: string, pat: string, k: nat)
    requires OccursAt(s, pat, k)
    requires forall j :: k < j ==> !OccursAt(s, pat, j)
    ensures LastOccurrence(s, pat) == Some(k)
  {
  }

  /** What `MatchTyped` finds in a serialised value whose text has no line
      break and no `'> `. */
  lemma MatchSerialized(v: Value)
    requires '\n' !in ValueText(v)
    requires forall j :: !OccursAt(ValueText(v), ClassSuffix, j)
    ensures MatchTyped(Serialize(v)) == Some((TypeName(v), ValueText(v)))
  {
    var name := TypeName(v);
    var val := ValueText(v);
    var rest := name + ClassSuffix + val;
    assert Serialize(v)[|ClassPrefix|..] == rest;
    assert '\n' !in rest;
    LineOfNewlineFree(rest);
    LastSuffixAfterName(name, val);
    assert rest[..|name|] == name;
    assert rest[|name| + 3..] == val;
  }

  /** A stored integer reads back unchanged: `int(str(n)) == n`. */
  lemma IntRoundTrip(n: int)
    ensures AutoType(Serialize(IntValue(n))) == Success(IntValue(n))
  {
    var val := IntToString(n);
    assert forall i :: 0 <= i < |val| ==> val[i] != '\'' && val[i] != '\n' by {
      assert n < 0 ==> val[0] == '-' && AllDigits(val[1..]);
      forall i | 0 <= i < |val|
        ensures val[i] != '\'' && val[i] != '\n'
      {
        if n < 0 && i > 0 {
          assert val[1..][i - 1] == val[i];
        }
      }
    }
    NoSuffixAfter(val, 0);
    MatchSerialized(IntValue(n));
    ParseIntOfIntToString(n);
  }

  /** A stored string without a line break or `'> ` reads back unchanged. */
  lemma StrRoundTrip(s: string)
    requires '\n' !in s
    requires forall j :: !OccursAt(s, ClassSuffix, j)
    ensures AutoType(Serialize(StrValue(s))) == Success(StrValue(s))
  {
    MatchSerialized(StrValue(s));
  }

  /** A line break cuts the stored string short: only its first line is read. */
  lemma StrWithLineBreakIsTruncated(first: string, rest: string)
    requires '\n' !in first
    requires forall j :: !OccursAt(first, ClassSuffix, j)
    ensures AutoType(Serialize(StrValue(first + "\n" + rest))) == Success(StrValue(first))
  {
    var text := Serialize(StrValue(first + "\n" + rest));
    var whole := "str" + ClassSuffix + first;
    assert text[|ClassPrefix|..] == whole + ("\n" + rest);
    LineOfNewlineFree(whole);
    LineStopsAtBreak(whole, rest);
    assert text == Serialize(StrValue(first)) + ("\n" + rest);
    MatchSerialized(StrValue(first));
    assert Serialize(StrValue(first))[|ClassPrefix|..] == whole;
  }

  /** As written, every stored boolean reads back as `True`: `bool("False")`
      is `True` because the string is not empty. */
  lemma BoolReadsTrue(b: bool)
    ensures AutoType(Serialize(BoolValue(b))) == Success(BoolValue(true))
  {
    var val := ValueText(BoolValue(b));
    assert forall i :: 0 <= i < |val| ==> val[i] != '\'';
    NoSuffixAfter(val, 0);
    MatchSerialized(BoolValue(b));
  }

  /** The concrete input that shows the bug: `config["k"] = False` reads back `True`. */
  lemma StoredFalseReadsTrue()
    ensures GetItem(map[], Plain("k")).Failure?
    ensures var r := SetItem(map[], Plain("k"), BoolValue(false));
            r.Success? && GetItem(r.value, Plain("k")) == Success(BoolValue(true))
  {
    BoolReadsTrue(false);
  }

  /** With the corrected guard every storable value round-trips: integers,
      both booleans, and strings without a line break or `'> `. */
  lemma IntendedRoundTrip(v: Value)
    requires v.StrValue? ==> '\n' !in v.s && forall j :: !OccursAt(v.s, ClassSuffix, j)
    ensures AutoTypeIntended(Serialize(v)) == Success(v)
  {
    match v
    case IntValue(n) =>
      IntRoundTrip(n);
      var val := IntToString(n);
      assert MatchTyped(Serialize(v)).Some?;
    case StrValue(s) =>
      MatchSerialized(v);
    case BoolValue(b) =>
      var val := ValueText(v);
      assert forall i :: 0 <= i < |val| ==> val[i] != '\'';
      NoSuffixAfter(val, 0);
      MatchSerialized(v);
  }

  /** Reading a key right after setting it: integers and plain strings come
      back unchanged, booleans come back `True`. */
  lemma SetThenGet(store: Store, key: Key, v: Value)
    requires KeyConv(key).Success?
    requires v.StrValue? ==> '\n' !in v.s && forall j :: !OccursAt(v.s, ClassSuffix, j)
    ensures var r := SetItem(store, key, v);
            && r.Success?
            && GetItem(r.value, key) == (if v.BoolValue? then Success(BoolValue(true)) else Success(v))
            && GetItemIntended(r.value, key) == Success(v)
  {
    match v
    case IntValue(n) => IntRoundTrip(n);
    case StrValue(s) => StrRoundTrip(s);
    case BoolValue(b) => BoolReadsTrue(b);
    IntendedRoundTrip(v);
  }

  /** Text that does not start with `<class '` cannot be read at all. */
  lemma UntypedTextRaises(store: Store, section: string, option: string)
    requires section in store && option in store[section]
    requires !StartsWith(store[section][option], ClassPrefix)
    ensures GetItem(store, Tuple([section, option])) == Failure(NoTypePrefix)
  {
  }
}
