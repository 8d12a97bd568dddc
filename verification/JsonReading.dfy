/** Reading back what the canonical printer wrote: a reader of JSON text (RFC 8259) that knows
    nothing of the printer, and the round trip. It is what lets signed bytes stand for content. */
module JsonReading {
  import opened Json
  import opened Ordering
  import opened Text
  import opened Wrappers

  // ---- the reader ---------------------------------------------------------------------

  predicate IsScalar(n: int) {
    0 <= n < 0xD800 || 0xE000 <= n < 0x11_0000
  }

  /** The character an escape of one letter stands for. */
  function Escaped(c: char): Option<char> {
    if c == '"' || c == '\\' || c == '/' then Some(c)
    else if c == 'b' then Some(8 as char)
    else if c == 'f' then Some(12 as char)
    else if c == 'n' then Some(10 as char)
    else if c == 'r' then Some(13 as char)
    else if c == 't' then Some(9 as char)
    else None
  }

  /** One character inside quotes, and the text behind it. */
  function ReadChar(s: string): (r: Option<(char, string)>)
    requires s != ""
    ensures r.Some? ==> |r.value.1| < |s|
  {
    if s[0] == '"' || s[0] as int < 32 then None
    else if s[0] != '\\' then Some((s[0], s[1..]))
    else if |s| >= 2 && Escaped(s[1]).Some? then Some((Escaped(s[1]).value, s[2..]))
    else if |s| >= 6 && s[1] == 'u' then
      match (HexValue(s[2]), HexValue(s[3]), HexValue(s[4]), HexValue(s[5]))
      case (Some(a), Some(b), Some(c), Some(d)) =>
        var n := 4096 * a + 256 * b + 16 * c + d;
        if IsScalar(n) then Some((n as char, s[6..])) else None
      case _ => None
    else None
  }

  /** The characters up to the closing quote, behind those already read. */
  function ReadString(s: string, seen: string): (r: Option<(string, string)>)
    ensures r.Some? ==> |r.value.1| < |s|
    decreases |s|
  {
    if s == "" then None
    else if s[0] == '"' then Some((seen, s[1..]))
    else
      match ReadChar(s)
      case None => None
      case Some((c, rest)) => ReadString(rest, seen + [c])
  }

  /** Decimal digits, continuing a number already begun. */
  function ReadDigits(s: string, n: nat): (r: (nat, string))
    ensures |r.1| <= |s|
    ensures s != "" && '0' <= s[0] <= '9' ==> |r.1| < |s|
    decreases |s|
  {
    if s != "" && '0' <= s[0] <= '9' then ReadDigits(s[1..], 10 * n + (s[0] as int - '0' as int)) else (n, s)
  }

  function ReadNumber(s: string): (r: Option<(Json, string)>)
    requires s != ""
    ensures r.Some? ==> |r.value.1| < |s|
  {
    var digits := if s[0] == '-' then s[1..] else s;
    if digits == "" || !('0' <= digits[0] <= '9') then None
    else
      var (n, rest) := ReadDigits(digits, 0);
      Some((Int(if s[0] == '-' then 0 - n else n), rest))
  }

  function ReadWord(s: string, word: string, j: Json): (r: Option<(Json, string)>)
    requires word != ""
    ensures r.Some? ==> |r.value.1| < |s|
  {
    if word <= s then Some((j, s[|word|..])) else None
  }

  /** A value at the front of a text, and the text behind it; whole numbers only, and no
      blanks. */
  function ReadValue(s: string): (r: Option<(Json, string)>)
    ensures r.Some? ==> |r.value.1| < |s|
    decreases |s|, 1
  {
    if s == "" then None
    else if s[0] == 'n' then ReadWord(s, "null", Null)
    else if s[0] == 't' then ReadWord(s, "true", Bool(true))
    else if s[0] == 'f' then ReadWord(s, "false", Bool(false))
    else if s[0] == '"' then
      match ReadString(s[1..], "")
      case None => None
      case Some((text, rest)) => Some((Str(text), rest))
    else if s[0] == '[' then
      if |s| > 1 && s[1] == ']' then Some((Arr([]), s[2..])) else ReadItems(s[1..], [])
    else if s[0] == '{' then
      if |s| > 1 && s[1] == '}' then Some((Obj(map[]), s[2..])) else ReadMembers(s[1..], map[])
    else ReadNumber(s)
  }

  /** The elements of an array up to its bracket, behind those already read. */
  function ReadItems(s: string, seen: seq<Json>): (r: Option<(Json, string)>)
    ensures r.Some? ==> |r.value.1| < |s|
    decreases |s|, 2
  {
    match ReadValue(s)
    case None => None
    case Some((j, rest)) =>
      if rest == "" then None
      else if rest[0] == ']' then Some((Arr(seen + [j]), rest[1..]))
      else if rest[0] == ',' then ReadItems(rest[1..], seen + [j])
      else None
  }

  /** The members of an object up to its brace; a later member replaces one of its name. */
  function ReadMembers(s: string, seen: Fields): (r: Option<(Json, string)>)
    ensures r.Some? ==> |r.value.1| < |s|
    decreases |s|, 0
  {
    if s == "" || s[0] != '"' then None
    else
      match ReadString(s[1..], "")
      case None => None
      case Some((key, after)) =>
        if after == "" || after[0] != ':' then None
        else
          match ReadValue(after[1..])
          case None => None
          case Some((j, rest)) =>
            if rest == "" then None
            else if rest[0] == '}' then Some((Obj(seen[key := j]), rest[1..]))
            else if rest[0] == ',' then ReadMembers(rest[1..], seen[key := j])
            else None
  }

  // ---- numbers ------------------------------------------------------------------------

  /** What may follow a printed value inside a printed value. */
  predicate Ends(r: string) {
    r == "" || r[0] == ',' || r[0] == ']' || r[0] == '}'
  }

  lemma AfterHead(c: char, x: string)
    ensures ([c] + x)[0] == c && ([c] + x)[1..] == x
  {
  }

  lemma DigitReads(d: nat, x: string, n: nat)
    requires d < 10
    ensures ReadDigits([Digit(d)] + x, n) == ReadDigits(x, 10 * n + d)
  {
    AfterHead(Digit(d), x);
  }

  lemma DecimalStep(n: nat)
    ensures Decimal(n) == if n < 10 then [Digit(n % 10)] else Decimal(n / 10) + [Digit(n % 10)]
    ensures n == 10 * (n / 10) + n % 10
  {
    hide Digit;
  }

  lemma {:induction false} DecimalReads(n: nat, x: string)
    ensures ReadDigits(Decimal(n) + x, 0) == ReadDigits(x, n)
    decreases n
  {
    hide Decimal, ReadDigits, Digit;
    DigitReads(n % 10, x, n / 10);
    DecimalStep(n);
    if n >= 10 {
      var last := [Digit(n % 10)];
      DecimalReads(n / 10, last + x);
      assert Decimal(n) + x == Decimal(n / 10) + (last + x);
    }
  }

  lemma IntForm(n: int, x: string) returns (m: nat, digits: string)
    ensures m == (if n < 0 then 0 - n else n) && digits == Decimal(m) + x
    ensures digits != "" && IsDigit(digits[0])
    ensures var s := IntText(n) + x;
            s != "" && if s[0] == '-' then s[1..] == digits && n == 0 - m else s == digits && n == m
  {
    m := if n < 0 then 0 - n else n;
    var d := Decimal(m);
    digits := d + x;
    assert IsDigit(d[0]) && digits[0] == d[0];
    assert n < 0 ==> "-" + d + x == "-" + digits;
    hide Decimal;
  }

  lemma IntReads(n: int, x: string)
    requires Ends(x)
    ensures ReadValue(IntText(n) + x) == Some((Int(n), x))
  {
    var m, digits := IntForm(n, x);
    DecimalReads(m, x);
    assert ReadDigits(x, m) == (m, x);
    hide Decimal, IntText, ReadDigits, ReadValue;
    NumberReads(IntText(n) + x, n, m, digits, x);
  }

  lemma NumberReads(s: string, n: int, m: nat, digits: string, x: string)
    requires s != "" && digits != "" && IsDigit(digits[0]) && ReadDigits(digits, 0) == (m, x)
    requires if s[0] == '-' then s[1..] == digits && n == 0 - m else s == digits && n == m
    ensures ReadValue(s) == Some((Int(n), x))
  {
    hide ReadDigits, ReadItems, ReadMembers, ReadString, ReadWord;
  }

  lemma {:induction false} NoLeadingZero(n: nat)
    ensures Decimal(n)[0] == '0' <==> n == 0
  {
    if n >= 10 {
      NoLeadingZero(n / 10);
    }
  }

  /** A number is printed with a minus sign exactly when it is negative, and begins with a zero
      exactly when it is zero. */
  lemma NumberForm(n: int)
    ensures IntText(n)[0] == '-' <==> n < 0
    ensures IntText(n)[0] == '0' <==> n == 0
  {
    NoLeadingZero(if n < 0 then -n else n);
    assert IsDigit(Decimal(if n < 0 then -n else n)[0]);
    hide Decimal;
  }

  // ---- strings ------------------------------------------------------------------------

  lemma EscapeCharReads(c: char, x: string)
    ensures EscapeChar(c)[0] != '"' && ReadChar(EscapeChar(c) + x) == Some((c, x))
  {
    var e, n := EscapeChar(c), c as int;
    assert (e + x)[|e|..] == x && (e + x)[0] == e[0];
    if |e| == 2 {
      assert (e + x)[1] == e[1];
    } else if |e| == 6 {
      assert (e + x)[1..6] == e[1..];
      HexDigitValue(n / 16);
      HexDigitValue(n % 16);
    }
  }

  /** What is written plainly, and how the rest is written. */
  lemma EscapeTable(c: char)
    ensures EscapeChar(c) == [c] <==> c as int >= 32 && c != '"' && c != '\\'
    ensures c == '"' || c == '\\' ==> EscapeChar(c) == ['\\', c]
    ensures EscapeChar(8 as char) == "\\b" && EscapeChar(9 as char) == "\\t" && EscapeChar(10 as char) == "\\n"
    ensures EscapeChar(12 as char) == "\\f" && EscapeChar(13 as char) == "\\r"
    ensures c as int < 32 && (c as int < 8 || c as int == 11 || c as int > 13) ==>
              |EscapeChar(c)| == 6 && EscapeChar(c)[..4] == "\\u00"
  {
  }

  lemma EscapeSplit(s: string, x: string)
    requires s != ""
    ensures Escape(s) + "\"" + x == EscapeChar(s[0]) + (Escape(s[1..]) + "\"" + x)
    ensures (Escape(s) + "\"" + x)[0] == EscapeChar(s[0])[0]
  {
    hide EscapeChar;
  }

  lemma ReadStringStep(w: string, seen: string, c: char, rest: string)
    requires w != "" && w[0] != '"' && ReadChar(w) == Some((c, rest))
    ensures ReadString(w, seen) == ReadString(rest, seen + [c])
  {
    hide ReadChar;
  }

  lemma ReadStringEnd(s: string, seen: string, x: string)
    requires s == ""
    ensures ReadString(Escape(s) + "\"" + x, seen) == Some((seen + s, x))
  {
    assert Escape(s) + "\"" + x == ['"'] + x;
    AfterHead('"', x);
    assert seen + s == seen;
  }

  lemma {:induction false} StringReads(s: string, seen: string, x: string)
    ensures ReadString(Escape(s) + "\"" + x, seen) == Some((seen + s, x))
    decreases |s|
  {
    hide EscapeChar, ReadChar, Escape, ReadString;
    if s == "" {
      ReadStringEnd(s, seen, x);
    } else {
      var more := Escape(s[1..]) + "\"" + x;
      EscapeSplit(s, x);
      EscapeCharReads(s[0], more);
      ReadStringStep(Escape(s) + "\"" + x, seen, s[0], more);
      StringReads(s[1..], seen + [s[0]], x);
      assert seen + [s[0]] + s[1..] == seen + s;
    }
  }

  lemma QuoteReads(s: string, x: string)
    ensures (Quote(s) + x)[0] == '"' && ReadString((Quote(s) + x)[1..], "") == Some((s, x))
  {
    assert (Quote(s) + x)[1..] == Escape(s) + "\"" + x;
    StringReads(s, "", x);
    assert "" + s == s;
  }

  // ---- values -------------------------------------------------------------------------

  lemma WordReads(w: string, x: string)
    ensures w <= w + x && (w + x)[|w|..] == x && (w != "" ==> (w + x)[0] == w[0])
  {
  }

  /** The text of an array's elements from i on, with its bracket and what follows it. */
  function ItemsFrom(j: Json, i: nat, x: string): string
    requires j.Arr? && i <= |j.items|
  {
    DumpsItems(j, i) + "]" + x
  }

  function ItemsAfter(j: Json, i: nat, x: string): string
    requires j.Arr? && i < |j.items|
  {
    if i + 1 == |j.items| then "]" + x else "," + ItemsFrom(j, i + 1, x)
  }

  function FieldsFrom(j: Json, keys: seq<string>, x: string): string
    requires j.Obj? && forall k :: k in keys ==> k in j.fields
  {
    DumpsFields(j, keys) + "}" + x
  }

  function FieldsAfter(j: Json, keys: seq<string>, x: string): string
    requires j.Obj? && keys != [] && forall k :: k in keys ==> k in j.fields
  {
    if |keys| == 1 then "}" + x else "," + FieldsFrom(j, keys[1..], x)
  }

  lemma ItemsStep(j: Json, i: nat, x: string)
    requires j.Arr? && i < |j.items|
    ensures ItemsFrom(j, i, x) == Dumps(j.items[i]) + ItemsAfter(j, i, x)
  {
    hide Dumps;
    var more := if i + 1 == |j.items| then "" else "," + DumpsItems(j, i + 1);
    assert DumpsItems(j, i) == Dumps(j.items[i]) + more;
    assert ItemsAfter(j, i, x) == more + "]" + x;
  }

  lemma FieldsStep(j: Json, keys: seq<string>, x: string)
    requires j.Obj? && keys != [] && forall k :: k in keys ==> k in j.fields
    ensures FieldsFrom(j, keys, x) == Quote(keys[0]) + (":" + (Dumps(j.fields[keys[0]]) + FieldsAfter(j, keys, x)))
  {
    hide Quote, SortedKeys, Dumps;
    var more := if |keys| == 1 then "" else "," + DumpsFields(j, keys[1..]);
    assert DumpsFields(j, keys) == (Quote(keys[0]) + ":" + Dumps(j.fields[keys[0]])) + more;
    assert FieldsAfter(j, keys, x) == more + "}" + x;
  }

  lemma ReadItemsStep(s: string, seen: seq<Json>, j: Json, rest: string)
    requires ReadValue(s) == Some((j, rest)) && rest != ""
    ensures rest[0] == ']' ==> ReadItems(s, seen) == Some((Arr(seen + [j]), rest[1..]))
    ensures rest[0] == ',' ==> ReadItems(s, seen) == ReadItems(rest[1..], seen + [j])
  {
    hide ReadValue;
  }

  lemma {:induction false} ItemsRead(j: Json, i: nat, x: string)
    requires Canonical(j) && j.Arr? && i < |j.items|
    ensures ReadItems(ItemsFrom(j, i, x), j.items[..i]) == Some((j, x))
    decreases j, 0, |j.items| - i
  {
    var after := ItemsAfter(j, i, x);
    ItemsStep(j, i, x);
    DumpsReads(j.items[i], after);
    assert j.items[..i + 1] == j.items[..i] + [j.items[i]];
    ReadItemsStep(ItemsFrom(j, i, x), j.items[..i], j.items[i], after);
    hide Dumps, ReadValue, ItemsFrom, ReadItems;
    if i + 1 == |j.items| {
      assert j.items[..i + 1] == j.items;
      AfterHead(']', x);
    } else {
      AfterHead(',', ItemsFrom(j, i + 1, x));
      ItemsRead(j, i + 1, x);
    }
  }

  /** The members under some of an object's keys. */
  function Part(j: Json, keys: seq<string>): Fields
    requires j.Obj?
  {
    map k | k in keys && k in j.fields :: j.fields[k]
  }

  lemma {:induction false} MembersRead(j: Json, keys: seq<string>, x: string, seen: Fields)
    requires Canonical(j) && j.Obj? && keys != [] && forall k :: k in keys ==> k in j.fields
    ensures ReadMembers(FieldsFrom(j, keys, x), seen) == Some((Obj(seen + Part(j, keys)), x))
    decreases j, 0, |keys|
  {
    var key, value, after := keys[0], j.fields[keys[0]], FieldsAfter(j, keys, x);
    FieldsStep(j, keys, x);
    QuoteReads(key, ":" + (Dumps(value) + after));
    AfterHead(':', Dumps(value) + after);
    DumpsReads(value, after);
    PartStep(j, keys, seen);
    if |keys| == 1 {
      AfterHead('}', x);
    } else {
      AfterHead(',', FieldsFrom(j, keys[1..], x));
      MembersRead(j, keys[1..], x, seen[key := value]);
    }
    hide Dumps, ReadValue, ReadString, FieldsFrom, Quote, Part;
  }

  lemma PartStep(j: Json, keys: seq<string>, seen: Fields)
    requires j.Obj? && keys != [] && forall k :: k in keys ==> k in j.fields
    ensures seen[keys[0] := j.fields[keys[0]]] + Part(j, keys[1..]) == seen + Part(j, keys)
    ensures |keys| == 1 ==> seen[keys[0] := j.fields[keys[0]]] == seen + Part(j, keys)
  {
    assert keys == [keys[0]] + keys[1..];
    assert |keys| == 1 ==> keys[1..] == [];
  }

  lemma ObjectText(j: Json, x: string)
    requires j.Obj?
    ensures Dumps(j) + x == "{" + FieldsFrom(j, SortedKeys(j.fields.Keys), x)
  {
    hide SortedKeys, DumpsFields;
  }

  lemma WholePart(j: Json)
    requires j.Obj?
    ensures map[] + Part(j, SortedKeys(j.fields.Keys)) == j.fields
  {
  }

  /** No value is printed with a closing bracket in front. */
  lemma NotClosed(j: Json)
    requires Canonical(j)
    ensures Dumps(j) != "" && Dumps(j)[0] != ']'
  {
    hide DumpsItems, DumpsFields, SortedKeys, Escape;
  }

  lemma ReadBracket(r: string, x: string)
    ensures r == "]" + x ==> ReadValue("[" + r) == Some((Arr([]), x))
    ensures r != "" && r[0] != ']' ==> ReadValue("[" + r) == ReadItems(r, [])
  {
    var s := "[" + r;
    assert s[0] == '[' && s[1..] == r && (r != "" ==> s[1] == r[0] && s[2..] == r[1..]) by { AfterHead('[', r); }
    assert r == "]" + x ==> r[0] == ']' && r[1..] == x;
    hide ReadItems, ReadMembers, ReadString, ReadWord, ReadNumber;
    assert ReadValue(s) == if |s| > 1 && s[1] == ']' then Some((Arr([]), s[2..])) else ReadItems(s[1..], []);
  }

  lemma ReadBrace(r: string, x: string)
    ensures r == "}" + x ==> ReadValue("{" + r) == Some((Obj(map[]), x))
    ensures r != "" && r[0] != '}' ==> ReadValue("{" + r) == ReadMembers(r, map[])
  {
    var s := "{" + r;
    assert s[0] == '{' && s[1..] == r && (r != "" ==> s[1] == r[0] && s[2..] == r[1..]) by { AfterHead('{', r); }
    assert r == "}" + x ==> r[0] == '}' && r[1..] == x;
    hide ReadItems, ReadMembers, ReadString, ReadWord, ReadNumber;
    assert ReadValue(s) == if |s| > 1 && s[1] == '}' then Some((Obj(map[]), s[2..])) else ReadMembers(s[1..], map[]);
  }

  lemma {:induction false} ArrayReads(j: Json, x: string)
    requires Canonical(j) && j.Arr?
    ensures ReadValue(Dumps(j) + x) == Some((j, x))
    decreases j, 0, |j.items| + 1
  {
    var r := ItemsFrom(j, 0, x);
    assert Dumps(j) + x == "[" + r;
    ReadBracket(r, x);
    if j.items != [] {
      ItemsStep(j, 0, x);
      NotClosed(j.items[0]);
      ItemsRead(j, 0, x);
      assert j.items[..0] == [];
    }
    hide ReadValue, ReadItems, ItemsFrom, Dumps;
  }

  lemma {:induction false} ObjectReads(j: Json, x: string)
    requires Canonical(j) && j.Obj?
    ensures ReadValue(Dumps(j) + x) == Some((j, x))
    decreases j, 0, |SortedKeys(j.fields.Keys)| + 1
  {
    var keys := SortedKeys(j.fields.Keys);
    var r := FieldsFrom(j, keys, x);
    ObjectText(j, x);
    ReadBrace(r, x);
    if keys == [] {
      assert j.fields.Keys == {} && j.fields == map[];
    } else {
      FieldsStep(j, keys, x);
      QuoteReads(keys[0], ":" + (Dumps(j.fields[keys[0]]) + FieldsAfter(j, keys, x)));
      MembersRead(j, keys, x, map[]);
      WholePart(j);
    }
    hide ReadValue, ReadMembers, FieldsFrom, Dumps, SortedKeys;
  }

  /** Reading a printed value gives the value, and what stood behind it. */
  lemma {:induction false} DumpsReads(j: Json, x: string)
    requires Canonical(j) && Ends(x)
    ensures ReadValue(Dumps(j) + x) == Some((j, x))
    decreases j, 1, 0
  {
    match j {
      case Null =>
        WordReads("null", x);
      case Bool(v) =>
        WordReads(Dumps(j), x);
      case Int(n) =>
        IntReads(n, x);
      case Str(s) =>
        QuoteReads(s, x);
      case Arr(_) =>
        ArrayReads(j, x);
      case Obj(_) =>
        ObjectReads(j, x);
    }
  }

  /** The canonical text determines the value. */
  lemma DumpsInjective(a: Json, b: Json)
    requires Canonical(a) && Canonical(b) && Dumps(a) == Dumps(b)
    ensures a == b
  {
    assert Dumps(a) + "" == Dumps(a) && Dumps(b) + "" == Dumps(b);
    DumpsReads(a, "");
    DumpsReads(b, "");
  }

  // ---- the printed form ---------------------------------------------------------------

  /** The parts with commas between them. */
  function Commas(parts: seq<string>): string {
    if parts == [] then "" else if |parts| == 1 then parts[0] else parts[0] + "," + Commas(parts[1..])
  }

  lemma {:induction false} ItemsJoined(j: Json, i: nat)
    requires j.Arr? && i <= |j.items|
    ensures DumpsItems(j, i)
            == Commas(seq(|j.items| - i, n requires 0 <= n < |j.items| - i => Dumps(j.items[i + n])))
    decreases |j.items| - i
  {
    hide Dumps;
    var parts := seq(|j.items| - i, n requires 0 <= n < |j.items| - i => Dumps(j.items[i + n]));
    if i < |j.items| {
      ItemsJoined(j, i + 1);
      var left := |j.items| - (i + 1);
      assert parts[1..] == seq(left, n requires 0 <= n < left => Dumps(j.items[i + 1 + n]));
    }
  }

  lemma {:induction false} MembersJoined(j: Json, keys: seq<string>)
    requires j.Obj? && forall k :: k in keys ==> k in j.fields
    ensures DumpsFields(j, keys)
            == Commas(seq(|keys|, n requires 0 <= n < |keys| => Quote(keys[n]) + ":" + Dumps(j.fields[keys[n]])))
    decreases |keys|
  {
    hide Dumps, Quote;
    var parts := seq(|keys|, n requires 0 <= n < |keys| => Quote(keys[n]) + ":" + Dumps(j.fields[keys[n]]));
    if keys != [] {
      MembersJoined(j, keys[1..]);
      var rest := keys[1..];
      assert parts[1..] == seq(|rest|, n requires 0 <= n < |rest| => Quote(rest[n]) + ":" + Dumps(j.fields[rest[n]]));
    }
  }

  lemma {:induction false} OneAscent(keys: seq<string>, all: set<string>)
    requires forall k :: k in keys <==> k in all
    requires forall i, j :: 0 <= i < j < |keys| ==> StringLess(keys[i], keys[j])
    ensures keys == SortedKeys(all)
    decreases |keys|
  {
    var r := SortedKeys(all);
    if keys == [] {
      assert all == {};
    } else {
      assert keys[0] in all && r != [];
      LeastUnique(keys[0], r[0], all) by {
        assert IsLeast(keys[0], all);
        assert IsLeast(r[0], all);
      }
      forall k
        ensures k in keys[1..] <==> k in all - {keys[0]}
      {
        StringTrichotomy(keys[0], keys[0]);
        assert keys == [keys[0]] + keys[1..];
      }
      OneAscent(keys[1..], all - {keys[0]});
      assert keys == [keys[0]] + keys[1..];
    }
  }

  /** What is printed, character by character: no blanks, commas between, and an object's
      members in the one order in which each name comes before the next by code point. */
  lemma PrintedForm(j: Json, keys: seq<string>)
    requires j.Obj? ==> (forall k :: k in keys <==> k in j.fields)
                        && forall m, n :: 0 <= m < n < |keys| ==> Precedes(keys[m], keys[n])
    ensures j.Arr? ==>
      Dumps(j) == "[" + Commas(seq(|j.items|, n requires 0 <= n < |j.items| => Dumps(j.items[n]))) + "]"
    ensures j.Obj? ==>
      Dumps(j) == "{" + Commas(seq(|keys|, n requires 0 <= n < |keys| =>
                                     (assert keys[n] in keys; Quote(keys[n]) + ":" + Dumps(j.fields[keys[n]])))) + "}"
    ensures j == Float("inf") ==> Dumps(j) == "Infinity"
    ensures j == Float("-inf") ==> Dumps(j) == "-Infinity"
    ensures j == Float("nan") ==> Dumps(j) == "NaN"
    ensures j.Float? && j.text !in {"inf", "-inf", "nan"} ==> Dumps(j) == j.text
  {
    if j.Arr? {
      ItemsJoined(j, 0);
      hide Commas, DumpsItems;
      assert seq(|j.items| - 0, n requires 0 <= n < |j.items| - 0 => Dumps(j.items[0 + n]))
          == seq(|j.items|, n requires 0 <= n < |j.items| => Dumps(j.items[n]));
    } else if j.Obj? {
      forall m, n | 0 <= m < n < |keys|
        ensures StringLess(keys[m], keys[n])
      {
        StringLessMeaning(keys[m], keys[n]);
      }
      OneAscent(keys, j.fields.Keys);
      MembersJoined(j, keys);
      hide Commas, DumpsFields, Quote, SortedKeys;
    }
  }
}
