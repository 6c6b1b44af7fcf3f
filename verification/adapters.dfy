/** The sqlite3 adapter and converter of adapters.py, which store a `User`
    of classes.py as the text `name;password;salt` and read it back. */
module Adapters {
  import opened Wrappers
  import opened PyText

  /** classes.py's `User`; `None` fields are Python's `None`. */
  datatype User = User(name: string, password: Option<string>, salt: Option<string>)

  /** `User(name, password, salt)`: the constructor keeps only the name and
      sets password and salt to `None`. */
  function NewUser(name: string, password: Option<string>, salt: Option<string>): (u: User)
    ensures u.name == name && u.password.None? && u.salt.None?
  {
    User(name, None, None)
  }

  /** How an f-string renders an optional field. */
  function FieldText(f: Option<string>): (text: string)
    ensures f.Some? ==> text == f.value
  {
    match f
    case None => "None"
    case Some(v) => v
  }

  /** `user_adapter`: `f"{user.name};{user.password};{user.salt}"`. */
  function UserAdapter(u: User): (text: string)
    ensures multiset(text)[';'] == 2 + multiset(u.name)[';'] + multiset(FieldText(u.password))[';'] + multiset(FieldText(u.salt))[';']
    ensures multiset(text)[';'] == 2 ==> Split(text, ';') == [u.name, FieldText(u.password), FieldText(u.salt)]
  {
    var text := u.name + ";" + FieldText(u.password) + ";" + FieldText(u.salt);
    AdapterFields(u);
    text
  }

  /** The unpacking `username, password, salt = ...` fails unless the split
      yields exactly three parts (Python raises ValueError). */
  datatype ConvertError = UnpackMismatch(parts: nat)

  /** `user_converter`. */
  function UserConverter(text: string): (r: Result<User, ConvertError>)
    ensures r.Failure? <==> multiset(text)[';'] != 2
    ensures r.Failure? ==> r.error.parts == 1 + multiset(text)[';']
    ensures r.Success? ==> r.value == User(Split(text, ';')[0], None, None)
  {
    var parts := Split(text, ';');
    SplitCount(text, ';');
    if |parts| != 3 then Failure(UnpackMismatch(|parts|))
    else Success(NewUser(parts[0], Some(parts[1]), Some(parts[2])))
  }

  /** The separators of the adapted text are the two the adapter writes plus
      those inside the fields. */
  lemma AdapterFields(u: User)
    ensures var text := u.name + ";" + FieldText(u.password) + ";" + FieldText(u.salt);
            && multiset(text)[';'] == 2 + multiset(u.name)[';'] + multiset(FieldText(u.password))[';'] + multiset(FieldText(u.salt))[';']
            && (multiset(text)[';'] == 2 ==> Split(text, ';') == [u.name, FieldText(u.password), FieldText(u.salt)])
  {
    var parts := [u.name, FieldText(u.password), FieldText(u.salt)];
    var text := u.name + ";" + FieldText(u.password) + ";" + FieldText(u.salt);
    assert multiset(text) == multiset(u.name) + multiset(";") + multiset(FieldText(u.password)) + multiset(";") + multiset(FieldText(u.salt));
    if multiset(text)[';'] == 2 {
      assert parts[1..] == [FieldText(u.password), FieldText(u.salt)];
      assert parts[1..][1..] == [FieldText(u.salt)];
      assert Join(parts[1..], ';') == FieldText(u.password) + ";" + FieldText(u.salt);
      assert Join(parts, ';') == text;
      forall i | 0 <= i < |parts|
        ensures ';' !in parts[i]
      {
      }
      SplitJoin(parts, ';');
    }
  }

  /** The converter accepts an adapted user exactly when no field holds the
      separator, and then gives back the user the constructor makes from the
      name: password and salt are lost. */
  lemma AdapterConverter(u: User)
    ensures UserConverter(UserAdapter(u)).Success? <==>
              (';' !in u.name && ';' !in FieldText(u.password) && ';' !in FieldText(u.salt))
    ensures UserConverter(UserAdapter(u)).Success? ==> UserConverter(UserAdapter(u)) == Success(User(u.name, None, None))
  {
  }

  /** A user as the constructor makes it survives the round trip unchanged
      when its name has no `;`. */
  lemma ConstructedUserRoundTrip(name: string, password: Option<string>, salt: Option<string>)
    requires ';' !in name
    ensures UserConverter(UserAdapter(NewUser(name, password, salt))) == Success(NewUser(name, password, salt))
  {
    AdapterConverter(NewUser(name, password, salt));
  }

  /** A name holding `;` splits into more than three parts. */
  lemma SeparatorInNameFails(u: User)
    requires ';' in u.name
    ensures UserConverter(UserAdapter(u)).Failure?
    ensures UserConverter(UserAdapter(u)).error.parts > 3
  {
  }
}
