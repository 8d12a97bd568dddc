/** JSON values and the canonical printer both peers sign over: sorted keys, no
    whitespace, no escapes beyond the ones RFC 8259 requires. On values without
    fractional numbers the printed text determines the value. */
module Json {
  import opened Ordering

  /** A decoded JSON value. `Float` carries what Python's float prints as. */
  datatype Json =
    | Null
    | Bool(b: bool)
    | Int(n: int)
    | Float(text: string)
    | Str(s: string)
    | Arr(items: seq<Json>)
    | Obj(fields: map<string, Json>)

  type Fields = map<string, Json>

  /** `mapping.get(key)`. */
  function Get(m: Fields, key: string): Json {
    if key in m then m[key] else Null
  }

  /** No fractional number anywhere inside. */
  predicate Canonical(j: Json)
    decreases j
  {
    match j
    case Float(_) => false
    case Arr(items) => forall i :: 0 <= i < |items| ==> Canonical(items[i])
    case Obj(fields) => forall k :: k in fields ==> Canonical(fields[k])
    case _ => true
  }

  /** One step into a value: to an element or to a member. */
  datatype Way = Element(i: nat) | Member(key: string)

  /** What stands inside a value at the end of a path, if the path leads anywhere. */
  function Inside(j: Json, path: seq<Way>): Json
    decreases |path|
  {
    if path == [] then j
    else match (j, path[0])
         case (Arr(items), Element(i)) => if i < |items| then Inside(items[i], path[1..]) else Null
         case (Obj(fields), Member(key)) => if key in fields then Inside(fields[key], path[1..]) else Null
         case _ => Null
  }

  /** A value is canonical exactly when no path into it ends at a fractional number. */
  lemma {:induction false} CanonicalMeaning(j: Json)
    ensures Canonical(j) <==> forall path :: !Inside(j, path).Float?
    decreases j
  {
    if Canonical(j) {
      forall path
        ensures !Inside(j, path).Float?
      {
        NothingFractional(j, path);
      }
    } else {
      var path := FractionalAt(j);
    }
  }

  lemma {:induction false} NothingFractional(j: Json, path: seq<Way>)
    requires Canonical(j)
    ensures !Inside(j, path).Float?
    decreases |path|
  {
    if path != [] {
      match (j, path[0])
      case (Arr(items), Element(i)) => if i < |items| { NothingFractional(items[i], path[1..]); }
      case (Obj(fields), Member(key)) => if key in fields { NothingFractional(fields[key], path[1..]); }
      case _ =>
    }
  }

  lemma {:induction false} FractionalAt(j: Json) returns (path: seq<Way>)
    requires !Canonical(j)
    ensures Inside(j, path).Float?
    decreases j
  {
    match j {
      case Float(_) => path := [];
      case Arr(items) =>
        var i :| 0 <= i < |items| && !Canonical(items[i]);
        var rest := FractionalAt(items[i]);
        path := [Element(i)] + rest;
        assert path[1..] == rest;
      case Obj(fields) =>
        var k :| k in fields && !Canonical(fields[k]);
        var rest := FractionalAt(fields[k]);
        path := [Member(k)] + rest;
        assert path[1..] == rest;
    }
  }

  // ---- sorted keys --------------------------------------------------------------------

  predicate IsLeast(k: string, keys: set<string>) {
    k in keys && forall j :: j in keys ==> j == k || StringLess(k, j)
  }

  lemma {:induction false} LeastExists(keys: set<string>)
    requires keys != {}
    ensures exists k :: IsLeast(k, keys)
  {
    var k :| k in keys;
    var rest := keys - {k};
    if rest == {} {
      assert keys == {k};
      assert IsLeast(k, keys);
    } else {
      LeastExists(rest);
      var m :| IsLeast(m, rest);
      StringTrichotomy(k, m);
      if StringLess(k, m) {
        forall j | j in keys
          ensures j == k || StringLess(k, j)
        {
          if j != k && j != m {
            StringTransitive(k, m, j);
          }
        }
        assert IsLeast(k, keys);
      } else {
        assert IsLeast(m, keys);
      }
    }
  }

  lemma LeastUnique(k: string, l: string, keys: set<string>)
    requires IsLeast(k, keys) && IsLeast(l, keys)
    ensures k == l
  {
    StringTrichotomy(k, l);
  }

  function Least(keys: set<string>): (k: string)
    requires keys != {}
    ensures IsLeast(k, keys)
  {
    LeastExists(keys);
    assert forall k, l :: IsLeast(k, keys) && IsLeast(l, keys) ==> k == l by {
      forall k, l | IsLeast(k, keys) && IsLeast(l, keys)
        ensures k == l
      {
        LeastUnique(k, l, keys);
      }
    }
    var k :| IsLeast(k, keys);
    k
  }

  /** `sorted(mapping)`: every key once, in code point order. */
  function SortedKeys(keys: set<string>): (r: seq<string>)
    ensures forall k :: k in r <==> k in keys
    ensures forall i, j :: 0 <= i < j < |r| ==> StringLess(r[i], r[j])
    decreases keys
  {
    if keys == {} then [] else
      var k := Least(keys);
      [k] + SortedKeys(keys - {k})
  }

  // ---- numbers ------------------------------------------------------------------------

  function Digit(n: nat): (c: char)
    requires n < 10
    ensures IsDigit(c)
  {
    "0123456789"[n]
  }

  predicate IsDigit(c: char) {
    '0' <= c <= '9'
  }

  function Decimal(n: nat): (r: string)
    ensures r != "" && forall i :: 0 <= i < |r| ==> IsDigit(r[i])
  {
    if n < 10 then [Digit(n)] else Decimal(n / 10) + [Digit(n % 10)]
  }

  function IntText(n: int): (r: string)
    ensures r != ""
  {
    if n < 0 then "-" + Decimal(-n) else Decimal(n)
  }

  // ---- strings ------------------------------------------------------------------------

  function HexDigit(n: nat): char
    requires n < 16
  {
    "0123456789abcdef"[n]
  }

  /** What one character is written as inside quotes. */
  function EscapeChar(c: char): (r: string)
    ensures r != ""
  {
    if c == '"' then "\\\""
    else if c == '\\' then "\\\\"
    else if c == '\n' then "\\n"
    else if c == '\r' then "\\r"
    else if c == '\t' then "\\t"
    else if c as int == 8 then "\\b"
    else if c as int == 12 then "\\f"
    else if c as int < 32 then "\\u00" + [HexDigit(c as int / 16), HexDigit(c as int % 16)]
    else [c]
  }

  function Escape(s: string): string {
    if s == "" then "" else EscapeChar(s[0]) + Escape(s[1..])
  }

  function Quote(s: string): string {
    "\"" + Escape(s) + "\""
  }

  // ---- the printer --------------------------------------------------------------------

  function FloatText(text: string): string {
    if text == "inf" then "Infinity"
    else if text == "-inf" then "-Infinity"
    else if text == "nan" then "NaN"
    else text
  }

  /** `json.dumps(j, sort_keys=True, ensure_ascii=False, separators=(",", ":"))`. */
  function Dumps(j: Json): string
    decreases j, 1, 0
  {
    match j
    case Null => "null"
    case Bool(b) => if b then "true" else "false"
    case Int(n) => IntText(n)
    case Float(text) => FloatText(text)
    case Str(s) => Quote(s)
    case Arr(items) => "[" + DumpsItems(j, 0) + "]"
    case Obj(fields) => "{" + DumpsFields(j, SortedKeys(fields.Keys)) + "}"
  }

  /** The elements from index i on, separated by commas. */
  function DumpsItems(j: Json, i: nat): string
    requires j.Arr? && i <= |j.items|
    decreases j, 0, |j.items| - i
  {
    if i == |j.items| then ""
    else Dumps(j.items[i]) + if i + 1 == |j.items| then "" else "," + DumpsItems(j, i + 1)
  }

  /** The named members, separated by commas. */
  function DumpsFields(j: Json, keys: seq<string>): string
    requires j.Obj? && forall k :: k in keys ==> k in j.fields
    decreases j, 0, |keys|
  {
    if keys == [] then "" else
      var k := keys[0];
      var member := Quote(k) + ":" + Dumps(j.fields[k]);
      member + if |keys| == 1 then "" else "," + DumpsFields(j, keys[1..])
  }
}
