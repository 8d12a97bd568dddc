/** Frames as decoded JSON objects, the coercions both peers read them with, and the
    bytes a frame signature covers. */
module Frames {
  import opened Bits
  import opened Json
  import opened Text
  import opened Wrappers
  import JsonReading

  /** What the Python runtime decides and the protocol does not: how a list or an object
      prints through `str`, which texts and floats `int` reads, and the order an
      object's keys are walked in. */
  datatype Runtime = Runtime(
    showContainer: Json -> string,
    intOfText: string -> Option<int>,
    intOfFloat: string -> int,
    keyOrder: Fields -> seq<string>)
  {
    /** `str` of a list or an object is never empty: it has its brackets. */
    ghost predicate Faithful() {
      forall j :: showContainer(j) != ""
    }
  }

  // ---- coercions ----------------------------------------------------------------------

  predicate Truthy(j: Json) {
    match j
    case Null => false
    case Bool(b) => b
    case Int(n) => n != 0
    case Float(text) => text != "0.0" && text != "-0.0" && text != ""
    case Str(s) => s != ""
    case Arr(items) => items != []
    case Obj(fields) => fields != map[]
  }

  /** `str(j)`. */
  function Show(rt: Runtime, j: Json): string {
    match j
    case Null => "None"
    case Bool(b) => if b then "True" else "False"
    case Int(n) => IntText(n)
    case Float(text) => text
    case Str(s) => s
    case _ => rt.showContainer(j)
  }

  /** `str(j or "")`. */
  function TextOr(rt: Runtime, j: Json): string {
    if Truthy(j) then Show(rt, j) else ""
  }

  /** What `int` makes of a value: a number, a TypeError or ValueError, or the
      OverflowError an infinite float raises. */
  datatype IntRead = Number(n: int) | NotANumber | Overflow

  function ToInt(rt: Runtime, j: Json): IntRead {
    match j
    case Int(n) => Number(n)
    case Bool(b) => Number(if b then 1 else 0)
    case Str(s) => (match rt.intOfText(s) case Some(n) => Number(n) case None => NotANumber)
    case Float(text) =>
      if text == "inf" || text == "-inf" then Overflow
      else if text == "nan" then NotANumber
      else Number(rt.intOfFloat(text))
    case _ => NotANumber
  }

  /** `int(j or default)`. */
  function IntOr(rt: Runtime, j: Json, default: int): IntRead {
    ToInt(rt, if Truthy(j) then j else Int(default))
  }

  /** `[str(name) for name in (j or [])]`, or None where iterating raises. */
  function Names(rt: Runtime, j: Json): Option<seq<Json>> {
    if !Truthy(j) then Some([])
    else match j
      case Arr(items) => Some(seq(|items|, i requires 0 <= i < |items| => Str(Show(rt, items[i]))))
      case Str(s) => Some(seq(|s|, i requires 0 <= i < |s| => Str([s[i]])))
      case Obj(fields) =>
        var keys := rt.keyOrder(fields);
        Some(seq(|keys|, i requires 0 <= i < |keys| => Str(keys[i])))
      case _ => None
  }

  // ---- what the coercions come to -------------------------------------------------------

  lemma Falsy(j: Json)
    ensures !Truthy(j) <==> || j == Null || j == Bool(false) || j == Int(0) || j == Str("") || j == Arr([])
                            || j == Obj(map[]) || (j.Float? && j.text in {"0.0", "-0.0", ""})
  {
  }

  /** A field read as text: itself, or nothing when it is absent, null, false, zero or empty. */
  lemma TextRead(rt: Runtime, s: string, n: int, fields: Fields)
    ensures TextOr(rt, Str(s)) == s && TextOr(rt, Null) == ""
    ensures TextOr(rt, Bool(true)) == "True" && TextOr(rt, Bool(false)) == ""
    ensures TextOr(rt, Int(n)) == if n == 0 then "" else IntText(n)
    ensures TextOr(rt, Obj(fields)) == if fields == map[] then "" else rt.showContainer(Obj(fields))
    ensures Show(rt, Null) == "None" && Show(rt, Bool(false)) == "False" && Show(rt, Str(s)) == s
  {
  }

  /** A field read as a number: what is absent, null, false, zero or empty gives the default. */
  lemma NumberRead(rt: Runtime, n: int, s: string, fields: Fields, default: int)
    ensures IntOr(rt, Null, default) == Number(default)
    ensures IntOr(rt, Int(n), default) == Number(if n == 0 then default else n)
    ensures IntOr(rt, Bool(true), default) == Number(1) && IntOr(rt, Bool(false), default) == Number(default)
    ensures IntOr(rt, Str(""), default) == Number(default)
    ensures s != "" ==> IntOr(rt, Str(s), default)
                        == if rt.intOfText(s).Some? then Number(rt.intOfText(s).value) else NotANumber
    ensures fields != map[] ==> IntOr(rt, Obj(fields), default) == NotANumber
    ensures IntOr(rt, Float("inf"), default) == Overflow == IntOr(rt, Float("-inf"), default)
    ensures IntOr(rt, Float("nan"), default) == NotANumber
    ensures s !in {"inf", "-inf", "nan", "0.0", "-0.0", ""} ==>
              IntOr(rt, Float(s), default) == Number(rt.intOfFloat(s))
  {
  }

  /** A field read as names: the texts of a list's elements, a text's characters. */
  lemma NamesRead(rt: Runtime, items: seq<Json>, s: string, i: nat)
    ensures Names(rt, Null) == Some([]) && Names(rt, Bool(true)) == None
    ensures Names(rt, Arr(items)).Some? && |Names(rt, Arr(items)).value| == |items|
    ensures i < |items| ==> Names(rt, Arr(items)).value[i] == Str(Show(rt, items[i]))
    ensures Names(rt, Str(s)).Some? && |Names(rt, Str(s)).value| == |s|
    ensures i < |s| ==> Names(rt, Str(s)).value[i] == Str([s[i]])
  {
  }

  // ---- what a signature covers --------------------------------------------------------

  const SIG_DOMAIN := "vaf-a2a-sig/v2\n"
  const SIG_VERSION := 2
  const COVERED := ["kind", "to", "body", "reply_to", "must_understand", "ext"]

  /** A covered field in its normal form, or None where coercing it raises. */
  function Normal(rt: Runtime, frame: Fields, field: string): Option<Json> {
    var value := Get(frame, field);
    if field == "must_understand" then
      (match Names(rt, value) case Some(names) => Some(Arr(names)) case None => None)
    else if field == "reply_to" then
      Some(if Truthy(value) then Str(Show(rt, value)) else Null)
    else if field == "to" then
      Some(if value.Obj? && value.fields != map[] then value else Obj(map["room" := Bool(true)]))
    else if field == "body" || field == "ext" then
      Some(if value.Obj? then value else Obj(map[]))
    else
      Some(Str(TextOr(rt, value)))
  }

  predicate Signable(rt: Runtime, frame: Fields) {
    Names(rt, Get(frame, "must_understand")).Some?
  }

  /** The object that is printed and signed. */
  function Payload(rt: Runtime, frame: Fields, room: string): Fields
    requires Signable(rt, frame)
  {
    map["v" := Int(SIG_VERSION),
        "room" := Str(if room != "" then room else TextOr(rt, Get(frame, "room"))),
        "from" := Str(TextOr(rt, Get(frame, "from")))]
    + map field | field in COVERED :: Normal(rt, frame, field).value
  }

  /** `signing_bytes(frame, room)`, or None where it raises. */
  function SigningBytes(rt: Runtime, frame: Fields, room: string): Option<seq<Byte>> {
    if Signable(rt, frame)
    then Some(Utf8(SIG_DOMAIN + Dumps(Obj(Payload(rt, frame, room)))))
    else None
  }

  /** Every value the bytes cover is free of fractional numbers. */
  predicate CanonicalPayload(rt: Runtime, frame: Fields, room: string) {
    Signable(rt, frame) && Canonical(Obj(Payload(rt, frame, room)))
  }

  // ---- filling the payload field by field -------------------------------------------------

  /** The payload with the first i covered fields written into it. */
  ghost function Filled(rt: Runtime, frame: Fields, head: Fields, i: nat): Fields
    requires i <= |COVERED|
  {
    head + map field | field in COVERED[..i] && Normal(rt, frame, field).Some? :: Normal(rt, frame, field).value
  }

  lemma FilledStart(rt: Runtime, frame: Fields, head: Fields)
    ensures Filled(rt, frame, head, 0) == head
  {
  }

  lemma FilledStep(rt: Runtime, frame: Fields, head: Fields, i: nat)
    requires i < |COVERED| && Normal(rt, frame, COVERED[i]).Some?
    ensures Filled(rt, frame, head, i + 1)
            == Filled(rt, frame, head, i)[COVERED[i] := Normal(rt, frame, COVERED[i]).value]
  {
    CoveredPrefix(i);
    hide Normal, COVERED;
  }

  lemma CoveredPrefix(i: nat)
    requires i < |COVERED|
    ensures forall field :: field in COVERED[..i + 1] <==> field in COVERED[..i] || field == COVERED[i]
  {
    assert COVERED[..i + 1] == COVERED[..i] + [COVERED[i]];
  }

  lemma FilledEnd(rt: Runtime, frame: Fields, room: string)
    requires Signable(rt, frame)
    ensures var head := map["v" := Int(SIG_VERSION),
                            "room" := Str(if room != "" then room else TextOr(rt, Get(frame, "room"))),
                            "from" := Str(TextOr(rt, Get(frame, "from")))];
            Filled(rt, frame, head, |COVERED|) == Payload(rt, frame, room)
  {
    forall field | field in COVERED
      ensures Normal(rt, frame, field).Some?
    {
      NormalDefined(rt, frame, field);
    }
    hide Normal;
    assert COVERED[..|COVERED|] == COVERED;
  }

  lemma NormalDefined(rt: Runtime, frame: Fields, field: string)
    ensures Normal(rt, frame, field).None? <==> field == "must_understand" && !Signable(rt, frame)
  {
  }

  lemma NormalBranches(rt: Runtime, frame: Fields, field: string)
    ensures var value := Get(frame, field);
            Normal(rt, frame, field)
            == if field == "must_understand" then
                 if Names(rt, value).Some? then Some(Arr(Names(rt, value).value)) else None
               else Some(if field == "reply_to" then if Truthy(value) then Str(Show(rt, value)) else Null
                         else if field == "to" then
                           if value.Obj? && value.fields != map[] then value else Obj(map["room" := Bool(true)])
                         else if field == "body" || field == "ext" then if value.Obj? then value else Obj(map[])
                         else Str(TextOr(rt, value)))
  {
  }

  // ---- the bytes determine the content --------------------------------------------------

  /** The members of an object that has any, and otherwise the default. */
  function ObjectOr(j: Json, default: Fields): Fields {
    if j.Obj? && j.fields != map[] then j.fields else default
  }

  /** Two frames say the same under the same handle: field by field, with every default
      filled in. */
  ghost predicate SameContent(rt: Runtime, f: Fields, g: Fields) {
    var room: Fields := map["room" := Bool(true)];
    && TextOr(rt, Get(f, "from")) == TextOr(rt, Get(g, "from"))
    && TextOr(rt, Get(f, "kind")) == TextOr(rt, Get(g, "kind"))
    && ObjectOr(Get(f, "to"), room) == ObjectOr(Get(g, "to"), room)
    && ObjectOr(Get(f, "body"), map[]) == ObjectOr(Get(g, "body"), map[])
    && Truthy(Get(f, "reply_to")) == Truthy(Get(g, "reply_to"))
    && (Truthy(Get(f, "reply_to")) ==> Show(rt, Get(f, "reply_to")) == Show(rt, Get(g, "reply_to")))
    && Names(rt, Get(f, "must_understand")) == Names(rt, Get(g, "must_understand"))
    && ObjectOr(Get(f, "ext"), map[]) == ObjectOr(Get(g, "ext"), map[])
  }

  lemma ObjectOrForm(j: Json)
    ensures Obj(ObjectOr(j, map["room" := Bool(true)]))
            == if j.Obj? && j.fields != map[] then j else Obj(map["room" := Bool(true)])
    ensures Obj(ObjectOr(j, map[])) == if j.Obj? then j else Obj(map[])
  {
  }

  lemma CoveredNames()
    ensures forall field :: field in COVERED <==>
              || field == "kind" || field == "to" || field == "body" || field == "reply_to"
              || field == "must_understand" || field == "ext"
  {
  }

  /** The normal form of every covered field, by name. */
  lemma NormalByName(rt: Runtime, frame: Fields)
    ensures Normal(rt, frame, "kind") == Some(Str(TextOr(rt, Get(frame, "kind"))))
    ensures Normal(rt, frame, "to") == Some(Obj(ObjectOr(Get(frame, "to"), map["room" := Bool(true)])))
    ensures Normal(rt, frame, "body") == Some(Obj(ObjectOr(Get(frame, "body"), map[])))
    ensures Normal(rt, frame, "reply_to")
            == Some(if Truthy(Get(frame, "reply_to")) then Str(Show(rt, Get(frame, "reply_to"))) else Null)
    ensures Normal(rt, frame, "must_understand")
            == match Names(rt, Get(frame, "must_understand")) case Some(names) => Some(Arr(names)) case None => None
    ensures Normal(rt, frame, "ext") == Some(Obj(ObjectOr(Get(frame, "ext"), map[])))
  {
    ObjectOrForm(Get(frame, "to"));
    ObjectOrForm(Get(frame, "body"));
    ObjectOrForm(Get(frame, "ext"));
    hide ObjectOr, Truthy, Show, TextOr, Names;
  }

  /** Saying the same is having the covered fields in common. */
  lemma SameCovered(rt: Runtime, f: Fields, g: Fields)
    ensures SameContent(rt, f, g)
       <==> TextOr(rt, Get(f, "from")) == TextOr(rt, Get(g, "from"))
            && forall field :: field in COVERED ==> Normal(rt, f, field) == Normal(rt, g, field)
  {
    CoveredNames();
    NormalByName(rt, f);
    NormalByName(rt, g);
    hide ObjectOr, Truthy, Show, TextOr, Names, Normal, COVERED;
    assert SameContent(rt, f, g)
      <==> TextOr(rt, Get(f, "from")) == TextOr(rt, Get(g, "from"))
           && Normal(rt, f, "kind") == Normal(rt, g, "kind") && Normal(rt, f, "to") == Normal(rt, g, "to")
           && Normal(rt, f, "body") == Normal(rt, g, "body") && Normal(rt, f, "reply_to") == Normal(rt, g, "reply_to")
           && Normal(rt, f, "must_understand") == Normal(rt, g, "must_understand")
           && Normal(rt, f, "ext") == Normal(rt, g, "ext");
  }

  lemma PayloadField(rt: Runtime, f: Fields, room: string, field: string)
    requires Signable(rt, f) && field in COVERED
    ensures field in Payload(rt, f, room) && Some(Payload(rt, f, room)[field]) == Normal(rt, f, field)
  {
  }

  lemma PayloadHeader(rt: Runtime, f: Fields, room: string)
    requires Signable(rt, f)
    ensures var p := Payload(rt, f, room);
            && "v" in p && p["v"] == Int(2)
            && (forall k :: k in p <==> k == "v" || k == "room" || k == "from" || k in COVERED)
            && "room" in p && p["room"] == Str(if room != "" then room else TextOr(rt, Get(f, "room")))
            && "from" in p && p["from"] == Str(TextOr(rt, Get(f, "from")))
  {
    CoveredNames();
    hide Normal, TextOr, COVERED;
  }

  /** Equal signed bytes mean the same room, sender and content. */
  lemma SigningBytesInjective(rt: Runtime, f: Fields, g: Fields, r: string, s: string)
    requires r != "" && s != ""
    requires CanonicalPayload(rt, f, r) && CanonicalPayload(rt, g, s)
    requires SigningBytes(rt, f, r) == SigningBytes(rt, g, s)
    ensures r == s && SameContent(rt, f, g)
  {
    var p, q := Payload(rt, f, r), Payload(rt, g, s);
    var t, u := SIG_DOMAIN + Dumps(Obj(p)), SIG_DOMAIN + Dumps(Obj(q));
    Utf8Injective(t, u);
    assert t[|SIG_DOMAIN|..] == Dumps(Obj(p)) && u[|SIG_DOMAIN|..] == Dumps(Obj(q));
    JsonReading.DumpsInjective(Obj(p), Obj(q));
    PayloadHeader(rt, f, r);
    PayloadHeader(rt, g, s);
    forall field | field in COVERED
      ensures Normal(rt, f, field) == Normal(rt, g, field)
    {
      PayloadField(rt, f, r, field);
      PayloadField(rt, g, s, field);
    }
    SameCovered(rt, f, g);
  }

  /** Nothing else decides the bytes: in a given room, the same sender and content give
      the same bytes, whatever id, clock, sequence, time or role the frame carries. */
  lemma SigningBytesCoverContent(rt: Runtime, f: Fields, g: Fields, room: string)
    requires room != "" && SameContent(rt, f, g)
    ensures SigningBytes(rt, f, room) == SigningBytes(rt, g, room)
    ensures CanonicalPayload(rt, f, room) == CanonicalPayload(rt, g, room)
  {
    SameCovered(rt, f, g);
    hide SameContent, Normal;
    assert Signable(rt, f) == Signable(rt, g) by {
      NormalDefined(rt, f, "must_understand");
      NormalDefined(rt, g, "must_understand");
      assert "must_understand" in COVERED;
    }
    if Signable(rt, f) {
      assert Payload(rt, f, room) == Payload(rt, g, room);
    }
  }

  /** In given rooms the bytes of two canonical frames are equal exactly when the rooms are
      and the frames say the same. */
  lemma SigningBytesExactly(rt: Runtime, f: Fields, g: Fields, r: string, s: string)
    requires r != "" && s != ""
    requires CanonicalPayload(rt, f, r) && CanonicalPayload(rt, g, s)
    ensures SigningBytes(rt, f, r) == SigningBytes(rt, g, s) <==> r == s && SameContent(rt, f, g)
  {
    if SigningBytes(rt, f, r) == SigningBytes(rt, g, s) {
      SigningBytesInjective(rt, f, g, r, s);
    }
    if r == s && SameContent(rt, f, g) {
      SigningBytesCoverContent(rt, f, g, r);
    }
  }

  /** An object with the nine members a signature covers, each in its own words. */
  ghost predicate IsCovered(rt: Runtime, frame: Fields, room: string, q: Fields) {
    && q.Keys == {"v", "room", "from", "kind", "to", "body", "reply_to", "must_understand", "ext"}
    && q["v"] == Int(2) && q["room"] == Str(if room != "" then room else TextOr(rt, Get(frame, "room")))
    && q["from"] == Str(TextOr(rt, Get(frame, "from"))) && q["kind"] == Str(TextOr(rt, Get(frame, "kind")))
    && q["to"] == Obj(ObjectOr(Get(frame, "to"), map["room" := Bool(true)]))
    && q["body"] == Obj(ObjectOr(Get(frame, "body"), map[]))
    && q["reply_to"] == (if Truthy(Get(frame, "reply_to")) then Str(Show(rt, Get(frame, "reply_to"))) else Null)
    && q["must_understand"].Arr? && Names(rt, Get(frame, "must_understand")) == Some(q["must_understand"].items)
    && q["ext"] == Obj(ObjectOr(Get(frame, "ext"), map[]))
  }

  lemma CoveredNormal(rt: Runtime, frame: Fields, room: string, q: Fields)
    requires IsCovered(rt, frame, room, q)
    ensures Signable(rt, frame)
    ensures forall field :: field in COVERED ==> field in q && Normal(rt, frame, field) == Some(q[field])
    ensures forall k :: k in q <==> k == "v" || k == "room" || k == "from" || k in COVERED
  {
    CoveredNames();
    NormalByName(rt, frame);
    hide ObjectOr, Truthy, Show, TextOr, Normal, COVERED;
  }

  lemma CoveredHead(rt: Runtime, frame: Fields, room: string, q: Fields)
    requires IsCovered(rt, frame, room, q) && Signable(rt, frame)
    ensures var p := Payload(rt, frame, room);
            && "v" in p && "room" in p && "from" in p && "v" in q && "room" in q && "from" in q
            && p["v"] == q["v"] && p["room"] == q["room"] && p["from"] == q["from"]
  {
    PayloadHeader(rt, frame, room);
    hide Payload, Signable, Names, ObjectOr;
  }

  lemma PayloadIsCovered(rt: Runtime, frame: Fields, room: string, q: Fields)
    requires IsCovered(rt, frame, room, q) && Signable(rt, frame)
    ensures Payload(rt, frame, room) == q
  {
    hide *;
    CoveredNormal(rt, frame, room, q);
    CoveredHead(rt, frame, room, q);
    PayloadHeader(rt, frame, room);
    var p := Payload(rt, frame, room);
    forall field | field in COVERED
      ensures field in p && p[field] == q[field]
    {
      PayloadField(rt, frame, room, field);
    }
    assert p == q;
  }

  /** The text that is signed: the domain, and the print of the object with these nine members. */
  lemma SignedText(rt: Runtime, frame: Fields, room: string, q: Fields)
    requires IsCovered(rt, frame, room, q)
    ensures SigningBytes(rt, frame, room) == Some(Utf8("vaf-a2a-sig/v2\n" + Dumps(Obj(q))))
  {
    hide IsCovered, Payload, Signable, Utf8, Dumps;
    CoveredNormal(rt, frame, room, q);
    PayloadIsCovered(rt, frame, room, q);
  }

  lemma PayloadCanonical(rt: Runtime, frame: Fields, room: string)
    requires Signable(rt, frame)
    ensures Canonical(Obj(Payload(rt, frame, room)))
       <==> forall field :: field in COVERED ==>
              Normal(rt, frame, field).Some? && Canonical(Normal(rt, frame, field).value)
  {
    var p := Payload(rt, frame, room);
    PayloadHeader(rt, frame, room);
    assert Canonical(p["v"]) && Canonical(p["room"]) && Canonical(p["from"]);
    assert Canonical(Obj(p)) <==> forall k :: k in p ==> Canonical(p[k]);
    hide *;
    forall field | field in COVERED
      ensures field in p && Some(p[field]) == Normal(rt, frame, field)
    {
      PayloadField(rt, frame, room, field);
    }
  }

  lemma FieldsCanonical(rt: Runtime, frame: Fields)
    requires Signable(rt, frame)
    ensures (forall field :: field in COVERED ==>
               Normal(rt, frame, field).Some? && Canonical(Normal(rt, frame, field).value))
       <==> forall field :: field in ["to", "body", "ext"] && Get(frame, field).Obj? ==> Canonical(Get(frame, field))
  {
    CoveredNames();
    NormalByName(rt, frame);
    TextsOnly(rt, frame);
    ObjectsCanonical(Get(frame, "to"));
    ObjectsCanonical(Get(frame, "body"));
    ObjectsCanonical(Get(frame, "ext"));
    assert Canonical(Normal(rt, frame, "kind").value) && Canonical(Normal(rt, frame, "reply_to").value);
    hide *;
    assert Names(rt, Get(frame, "must_understand")).Some? by { NormalDefined(rt, frame, "must_understand"); }
    ThreeOfSix();
  }

  lemma ThreeOfSix()
    ensures forall field :: field in ["to", "body", "ext"] <==> field == "to" || field == "body" || field == "ext"
  {
  }

  /** The covered values are free of fractional numbers exactly when `to`, `body` and `ext` are;
      everything else covered is text. */
  lemma CanonicalExactly(rt: Runtime, frame: Fields, room: string)
    ensures CanonicalPayload(rt, frame, room)
       <==> Signable(rt, frame) && forall field :: field in ["to", "body", "ext"] && Get(frame, field).Obj?
                                     ==> Canonical(Get(frame, field))
  {
    hide Normal, Signable, Payload, Canonical, COVERED;
    if Signable(rt, frame) {
      PayloadCanonical(rt, frame, room);
      FieldsCanonical(rt, frame);
    }
  }

  lemma TextsOnly(rt: Runtime, frame: Fields)
    ensures var names := Names(rt, Get(frame, "must_understand")); names.Some? ==> Canonical(Arr(names.value))
  {
    var names := Names(rt, Get(frame, "must_understand"));
    if names.Some? {
      assert forall i :: 0 <= i < |names.value| ==> names.value[i].Str?;
    }
  }

  lemma ObjectsCanonical(j: Json)
    ensures Canonical(Obj(ObjectOr(j, map["room" := Bool(true)]))) <==> (j.Obj? ==> Canonical(j))
    ensures Canonical(Obj(ObjectOr(j, map[]))) <==> (j.Obj? ==> Canonical(j))
  {
  }

  /** What cannot be signed is what `must_understand` holds when it cannot be walked. */
  lemma SignableExactly(rt: Runtime, frame: Fields, room: string)
    ensures SigningBytes(rt, frame, room).None?
       <==> var j := Get(frame, "must_understand");
            (j.Bool? && j.b) || (j.Int? && j.n != 0) || (j.Float? && Truthy(j))
  {
  }

  /** A frame with every covered field replaced by its normal form. */
  function Normalised(rt: Runtime, frame: Fields): Fields
    requires Signable(rt, frame)
  {
    frame + map field | field in COVERED :: Normal(rt, frame, field).value
  }

  lemma NamesTwice(rt: Runtime, value: Json)
    requires Names(rt, value).Some?
    ensures Names(rt, Arr(Names(rt, value).value)) == Names(rt, value)
  {
    var names := Names(rt, value).value;
    assert forall i :: 0 <= i < |names| ==> names[i].Str?;
    assert seq(|names|, i requires 0 <= i < |names| => Str(Show(rt, names[i]))) == names;
  }

  lemma NormalTwice(rt: Runtime, frame: Fields, field: string)
    requires rt.Faithful() && Signable(rt, frame) && field in COVERED
    ensures Normal(rt, Normalised(rt, frame), field) == Normal(rt, frame, field)
  {
    var value, n := Get(frame, field), Normalised(rt, frame);
    var once := Normal(rt, frame, field).value;
    assert Get(n, field) == once;
    NormalBranches(rt, frame, field);
    NormalBranches(rt, n, field);
    if field == "must_understand" {
      NamesTwice(rt, value);
      hide Normal, Names, Show, TextOr, Truthy;
    } else if field == "reply_to" {
      assert Truthy(value) ==> Show(rt, value) != "";
      hide Normal, Names, TextOr;
    } else {
      hide Normal, Names;
    }
  }

  /** Normalising a frame first does not change its bytes. */
  lemma NormalisedSameBytes(rt: Runtime, frame: Fields, room: string)
    requires rt.Faithful() && Signable(rt, frame) && room != ""
    ensures SigningBytes(rt, Normalised(rt, frame), room) == SigningBytes(rt, frame, room)
  {
    var n := Normalised(rt, frame);
    assert "from" !in COVERED;
    assert Get(n, "from") == Get(frame, "from");
    forall field | field in COVERED
      ensures Normal(rt, n, field) == Normal(rt, frame, field)
    {
      NormalTwice(rt, frame, field);
    }
    SameCovered(rt, n, frame);
    SigningBytesCoverContent(rt, n, frame, room);
  }

  // ---- what an owner's attestation covers -------------------------------------------------

  const OWNER_DOMAIN := "vaf-a2a-owner/v1\n"
  const OWNER_VERSION := 1

  function OwnerPayload(room: string, owner: string, agent: string, agentKey: string): Fields {
    map["v" := Int(OWNER_VERSION), "room" := Str(room), "owner" := Str(owner),
        "agent" := Str(agent), "agent_key" := Str(agentKey)]
  }

  function OwnerBytes(room: string, owner: string, agent: string, agentKey: string): seq<Byte> {
    Utf8(OWNER_DOMAIN + Dumps(Obj(OwnerPayload(room, owner, agent, agentKey))))
  }

  lemma OwnerPayloadCanonical(room: string, owner: string, agent: string, agentKey: string)
    ensures Canonical(Obj(OwnerPayload(room, owner, agent, agentKey)))
  {
  }

  /** The text that is attested: the domain, and the print of the object with these five
      members. */
  lemma OwnerText(room: string, owner: string, agent: string, agentKey: string, q: Fields)
    requires q.Keys == {"v", "room", "owner", "agent", "agent_key"} && q["v"] == Int(1)
    requires q["room"] == Str(room) && q["owner"] == Str(owner)
    requires q["agent"] == Str(agent) && q["agent_key"] == Str(agentKey)
    ensures OwnerBytes(room, owner, agent, agentKey) == Utf8("vaf-a2a-owner/v1\n" + Dumps(Obj(q)))
  {
    var p := OwnerPayload(room, owner, agent, agentKey);
    assert p.Keys == q.Keys;
    hide Utf8, Dumps;
    assert p == q;
  }

  /** An attestation's bytes name exactly one room, owner, agent and key. */
  lemma OwnerBytesInjective(r: string, o: string, a: string, k: string, r': string, o': string, a': string, k': string)
    requires OwnerBytes(r, o, a, k) == OwnerBytes(r', o', a', k')
    ensures r == r' && o == o' && a == a' && k == k'
  {
    var p, q := OwnerPayload(r, o, a, k), OwnerPayload(r', o', a', k');
    OwnerPayloadCanonical(r, o, a, k);
    OwnerPayloadCanonical(r', o', a', k');
    hide Dumps, Utf8, Canonical;
    var t, u := OWNER_DOMAIN + Dumps(Obj(p)), OWNER_DOMAIN + Dumps(Obj(q));
    Utf8Injective(t, u);
    assert t[|OWNER_DOMAIN|..] == Dumps(Obj(p)) && u[|OWNER_DOMAIN|..] == Dumps(Obj(q));
    JsonReading.DumpsInjective(Obj(p), Obj(q));
    assert p["room"] == q["room"] && p["owner"] == q["owner"];
    assert p["agent"] == q["agent"] && p["agent_key"] == q["agent_key"];
  }

  /** No signed frame doubles as an attestation. */
  lemma DomainsApart(rt: Runtime, frame: Fields, room: string, r: string, o: string, a: string, k: string)
    ensures SigningBytes(rt, frame, room) != Some(OwnerBytes(r, o, a, k))
  {
    if Signable(rt, frame) {
      hide Dumps, Utf8, Payload, OwnerPayload, Signable;
      var x, y := Dumps(Obj(Payload(rt, frame, room))), Dumps(Obj(OwnerPayload(r, o, a, k)));
      TextsApart(x, y);
      if Utf8(SIG_DOMAIN + x) == Utf8(OWNER_DOMAIN + y) {
        Utf8Injective(SIG_DOMAIN + x, OWNER_DOMAIN + y);
      }
    }
  }

  lemma TextsApart(x: string, y: string)
    ensures SIG_DOMAIN + x != OWNER_DOMAIN + y
  {
    assert (SIG_DOMAIN + x)[8] == SIG_DOMAIN[8] == 's';
    assert (OWNER_DOMAIN + y)[8] == OWNER_DOMAIN[8] == 'o';
  }
}
