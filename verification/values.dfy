/**
 * PHP scalars, the columns of an `rmsUsers` row, and the JSON values kept in
 * `rmsMeta`.
 */
module Values {
  import opened Outcomes

  /** A PHP scalar as it sits in a user row or arrives at the magic setter. */
  datatype Value = Null | Int(i: int) | Str(s: string) | Bool(b: bool)

  /** PHP's truthiness of a string: only "" and "0" are falsy. */
  predicate StrTruthy(s: string) {
    s != "" && s != "0"
  }

  /** PHP's truthiness of a scalar: null, 0, false, "" and "0" are falsy. */
  predicate Truthy(v: Value) {
    match v
    case Null => false
    case Int(i) => i != 0
    case Str(s) => StrTruthy(s)
    case Bool(b) => b
  }

  /** The integer a user id denotes in a query; any other scalar matches no row. */
  function IdKey(v: Value): Option<int> {
    if v.Int? then Some(v.i) else None
  }

  /** PHP's `(string)` cast of a scalar. */
  function AsString(v: Value): string {
    match v
    case Null => ""
    case Str(s) => s
    case Bool(b) => if b then "1" else ""
    case Int(i) => IntToDecimal(i)
  }

  function IntToDecimal(i: int): string
    decreases if i < 0 then 1 - i else i
  {
    if i < 0 then "-" + IntToDecimal(-i)
    else if i < 10 then [DigitChar(i)]
    else IntToDecimal(i / 10) + [DigitChar(i % 10)]
  }

  function DigitChar(d: int): char
    requires 0 <= d < 10
  {
    (48 + d) as char
  }

  /** Number of bytes of one character in UTF-8. */
  function Utf8Width(c: char): nat {
    if c as int < 0x80 then 1
    else if c as int < 0x800 then 2
    else if c as int < 0x10000 then 3
    else 4
  }

  /** PHP's `strlen`: the UTF-8 byte length of a string. */
  function ByteLength(s: string): (n: nat)
    ensures n >= |s|
    ensures n == |s| <==> forall i :: 0 <= i < |s| ==> s[i] as int < 0x80
  {
    if s == [] then 0 else Utf8Width(s[0]) + ByteLength(s[1..])
  }

  lemma {:induction false} ByteLengthAppend(a: string, b: string)
    ensures ByteLength(a + b) == ByteLength(a) + ByteLength(b)
  {
    if a != [] {
      assert (a + b)[1..] == a[1..] + b;
      ByteLengthAppend(a[1..], b);
    } else {
      assert a + b == b;
    }
  }

  /** The columns of `rmsUsers`. */
  datatype Field =
    Id | Username | Password | Lang | Removed | CanLogin | Created | Modified | LastLogin | LastLoginFrom

  /** The property name PHP code uses for a column. */
  function NameOf(f: Field): string {
    match f
    case Id => "id"
    case Username => "username"
    case Password => "password"
    case Lang => "lang"
    case Removed => "removed"
    case CanLogin => "canLogin"
    case Created => "created"
    case Modified => "modified"
    case LastLogin => "lastLogin"
    case LastLoginFrom => "lastLoginFrom"
  }

  /** The column a property name denotes, if any. */
  function FieldNamed(name: string): (r: Option<Field>)
    ensures r.Some? ==> NameOf(r.value) == name
    ensures r.None? ==> forall f :: NameOf(f) != name
  {
    if name == "id" then Some(Id)
    else if name == "username" then Some(Username)
    else if name == "password" then Some(Password)
    else if name == "lang" then Some(Lang)
    else if name == "removed" then Some(Removed)
    else if name == "canLogin" then Some(CanLogin)
    else if name == "created" then Some(Created)
    else if name == "modified" then Some(Modified)
    else if name == "lastLogin" then Some(LastLogin)
    else if name == "lastLoginFrom" then Some(LastLoginFrom)
    else None
  }

  lemma NamesRoundTrip(f: Field)
    ensures FieldNamed(NameOf(f)) == Some(f)
  {
  }

  /** One `rmsUsers` row, equally the `$data` array of a User instance. */
  datatype Row = Row(
    id: Value, username: Value, password: Value, lang: Value, removed: Value,
    canLogin: Value, created: Value, modified: Value, lastLogin: Value, lastLoginFrom: Value)
  {
    function Get(f: Field): Value {
      match f
      case Id => id
      case Username => username
      case Password => password
      case Lang => lang
      case Removed => removed
      case CanLogin => canLogin
      case Created => created
      case Modified => modified
      case LastLogin => lastLogin
      case LastLoginFrom => lastLoginFrom
    }

    /** The row with one column replaced. */
    function With(f: Field, v: Value): (r: Row)
      ensures r.Get(f) == v
      ensures forall g :: g != f ==> r.Get(g) == Get(g)
    {
      match f
      case Id => this.(id := v)
      case Username => this.(username := v)
      case Password => this.(password := v)
      case Lang => this.(lang := v)
      case Removed => this.(removed := v)
      case CanLogin => this.(canLogin := v)
      case Created => this.(created := v)
      case Modified => this.(modified := v)
      case LastLogin => this.(lastLogin := v)
      case LastLoginFrom => this.(lastLoginFrom := v)
    }
  }

  /** The all-null row of a fresh or reset User. */
  const NullRow := Row(Null, Null, Null, Null, Null, Null, Null, Null, Null, Null)

  /** Two rows are equal exactly when they agree on every column. */
  lemma RowExtensionality(a: Row, b: Row)
    requires forall f :: a.Get(f) == b.Get(f)
    ensures a == b
  {
    assert a.Get(Id) == b.Get(Id) && a.Get(Username) == b.Get(Username);
    assert a.Get(Password) == b.Get(Password) && a.Get(Lang) == b.Get(Lang);
    assert a.Get(Removed) == b.Get(Removed) && a.Get(CanLogin) == b.Get(CanLogin);
    assert a.Get(Created) == b.Get(Created) && a.Get(Modified) == b.Get(Modified);
    assert a.Get(LastLogin) == b.Get(LastLogin) && a.Get(LastLoginFrom) == b.Get(LastLoginFrom);
  }

  /** Column `f` of `top` if `f` is in `fs`, else of `base`. */
  function Pick(base: Row, top: Row, fs: set<Field>, f: Field): Value {
    if f in fs then top.Get(f) else base.Get(f)
  }

  /** The columns in `fs` taken from `top`, the others from `base`. */
  function Overlay(base: Row, top: Row, fs: set<Field>): (r: Row)
    ensures forall f :: r.Get(f) == if f in fs then top.Get(f) else base.Get(f)
  {
    Row(Pick(base, top, fs, Id), Pick(base, top, fs, Username), Pick(base, top, fs, Password),
        Pick(base, top, fs, Lang), Pick(base, top, fs, Removed), Pick(base, top, fs, CanLogin),
        Pick(base, top, fs, Created), Pick(base, top, fs, Modified), Pick(base, top, fs, LastLogin),
        Pick(base, top, fs, LastLoginFrom))
  }

  /** Column `f` from `rec` under its name if present, else from `base`. */
  function PickKnown(base: Row, rec: map<string, Value>, f: Field): Value {
    if NameOf(f) in rec then rec[NameOf(f)] else base.Get(f)
  }

  /** `array_merge($row, array_intersect_key($rec, $row))`: known keys of `rec` win. */
  function MergeKnown(base: Row, rec: map<string, Value>): (r: Row)
    ensures forall f :: r.Get(f) == if NameOf(f) in rec then rec[NameOf(f)] else base.Get(f)
  {
    Row(PickKnown(base, rec, Id), PickKnown(base, rec, Username), PickKnown(base, rec, Password),
        PickKnown(base, rec, Lang), PickKnown(base, rec, Removed), PickKnown(base, rec, CanLogin),
        PickKnown(base, rec, Created), PickKnown(base, rec, Modified), PickKnown(base, rec, LastLogin),
        PickKnown(base, rec, LastLoginFrom))
  }

  /** A row as the associative array `SELECT *` returns. */
  function AsArray(row: Row): (rec: map<string, Value>)
    ensures forall f :: NameOf(f) in rec && rec[NameOf(f)] == row.Get(f)
  {
    map[
      "id" := row.id, "username" := row.username, "password" := row.password,
      "lang" := row.lang, "removed" := row.removed, "canLogin" := row.canLogin,
      "created" := row.created, "modified" := row.modified,
      "lastLogin" := row.lastLogin, "lastLoginFrom" := row.lastLoginFrom]
  }

  /** A decoded JSON value as stored in `rmsMeta` and in a JWT. */
  datatype Json =
    | JNull
    | JBool(b: bool)
    | JNum(n: int)
    | JStr(s: string)
    | JArr(items: seq<Json>)
    | JObj(members: map<string, Json>)
}
