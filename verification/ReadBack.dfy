/** Reading the request text back: a reader for JSON text (RFC 8259, sections 2 to 7), and the proof
    that it recovers from the serialized body exactly the value that was serialized. */
module ReadBack {
  import opened Sequences
  import opened RequestBody
  import Json

  // ---------- the reader

  function HexDigit(c: char): Option<nat> {
    if '0' <= c <= '9' then Some(c as nat - '0' as nat)
    else if 'a' <= c <= 'f' then Some(c as nat - 'a' as nat + 10)
    else if 'A' <= c <= 'F' then Some(c as nat - 'A' as nat + 10)
    else None
  }

  /** The character behind four hex digits, if it is not half of a surrogate pair. */
  function HexChar(s: string): Option<char>
    requires |s| == 4
  {
    var a, b, c, d := HexDigit(s[0]), HexDigit(s[1]), HexDigit(s[2]), HexDigit(s[3]);
    if a.None? || b.None? || c.None? || d.None? then None
    else
      var n := 4096 * a.value + 256 * b.value + 16 * c.value + d.value;
      if n < 0xD800 then Some(n as char) else None
  }

  /** One character of a string and the length of its notation. */
  function OneChar(s: string): Option<(char, nat)>
    ensures OneChar(s).Some? ==> 0 < OneChar(s).value.1 <= |s|
  {
    if s == "" || s[0] == '\"' || s[0] as int < 0x20 then None
    else if s[0] != '\\' then Some((s[0], 1))
    else if |s| < 2 then None
    else if s[1] == 'u' then
      if |s| < 6 then None
      else
        var c := HexChar(s[2..6]);
        if c.None? then None else Some((c.value, 6))
    else if s[1] == '\"' || s[1] == '\\' || s[1] == '/' then Some((s[1], 2))
    else if s[1] == 'b' then Some((8 as char, 2))
    else if s[1] == 'f' then Some((12 as char, 2))
    else if s[1] == 'n' then Some((10 as char, 2))
    else if s[1] == 'r' then Some((13 as char, 2))
    else if s[1] == 't' then Some((9 as char, 2))
    else None
  }

  /** The characters up to the closing quote, and what follows it. */
  function ReadChars(s: string): Option<(string, string)>
    ensures ReadChars(s).Some? ==> |ReadChars(s).value.1| < |s|
    decreases |s|
  {
    if s != "" && s[0] == '\"' then Some(("", s[1..]))
    else
      var c := OneChar(s);
      if c.None? then None
      else
        var more := ReadChars(s[c.value.1..]);
        if more.None? then None else Some(([c.value.0] + more.value.0, more.value.1))
  }

  /** Reads a number, `true`, `false` or `null` and says what follows it. */
  type AtomReader = string -> Option<(Json.Value, string)>

  function ReadValue(atom: AtomReader, s: string): (r: Option<(Json.Value, string)>)
    ensures r.Some? ==> |r.value.1| < |s|
    decreases |s|, 0
  {
    if s == "" then None
    else if s[0] == '\"' then
      var r := ReadChars(s[1..]);
      if r.None? then None else Some((Json.Str(r.value.0), r.value.1))
    else if s[0] == '[' then
      if |s| > 1 && s[1] == ']' then Some((Json.Arr([]), s[2..]))
      else
        var r := ReadItems(atom, s[1..]);
        if r.None? then None else Some((Json.Arr(r.value.0), r.value.1))
    else if s[0] == '{' then
      if |s| > 1 && s[1] == '}' then Some((Json.Obj([]), s[2..]))
      else
        var r := ReadFields(atom, s[1..]);
        if r.None? then None else Some((Json.Obj(r.value.0), r.value.1))
    else
      var r := atom(s);
      if r.Some? && |r.value.1| < |s| then r else None
  }

  /** Values separated by commas, up to the closing bracket. */
  function ReadItems(atom: AtomReader, s: string): (r: Option<(seq<Json.Value>, string)>)
    ensures r.Some? ==> |r.value.1| < |s|
    decreases |s|, 1
  {
    var first := ReadValue(atom, s);
    if first.None? || first.value.1 == "" then None
    else
      var (v, rest) := first.value;
      if rest[0] == ']' then Some(([v], rest[1..]))
      else if rest[0] != ',' then None
      else
        var more := ReadItems(atom, rest[1..]);
        if more.None? then None else Some(([v] + more.value.0, more.value.1))
  }

  /** A key, a colon and a value. */
  function ReadField(atom: AtomReader, s: string): (r: Option<((string, Json.Value), string)>)
    ensures r.Some? ==> |r.value.1| < |s|
    decreases |s|, 1
  {
    if s == "" || s[0] != '\"' then None
    else
      var key := ReadChars(s[1..]);
      if key.None? || key.value.1 == "" || key.value.1[0] != ':' then None
      else
        var v := ReadValue(atom, key.value.1[1..]);
        if v.None? then None else Some(((key.value.0, v.value.0), v.value.1))
  }

  /** Fields separated by commas, up to the closing brace. */
  function ReadFields(atom: AtomReader, s: string): (r: Option<(Fields, string)>)
    ensures r.Some? ==> |r.value.1| < |s|
    decreases |s|, 2
  {
    var first := ReadField(atom, s);
    if first.None? || first.value.1 == "" then None
    else
      var (f, rest) := first.value;
      if rest[0] == '}' then Some(([f], rest[1..]))
      else if rest[0] != ',' then None
      else
        var more := ReadFields(atom, rest[1..]);
        if more.None? then None else Some(([f] + more.value.0, more.value.1))
  }

  // ---------- strings come back

  lemma EscapedCharReads(c: char, rest: string)
    ensures OneChar(EscapeChar(c) + rest) == Some((c, |EscapeChar(c)|))
    ensures EscapeChar(c) != "" && EscapeChar(c)[0] != '\"'
  {
    var e := EscapeChar(c);
    if |e| == 6 { LongReads(c, rest); } else { ShortReads(c, rest); }
  }

  lemma ShortReads(c: char, rest: string)
    requires |EscapeChar(c)| != 6
    ensures OneChar(EscapeChar(c) + rest) == Some((c, |EscapeChar(c)|))
    ensures EscapeChar(c) != "" && EscapeChar(c)[0] != '\"'
  {
    var e := EscapeChar(c);
    var s := e + rest;
    assert s[0] == e[0];
    assert |e| == 2 ==> s[1] == e[1];
  }

  lemma LongReads(c: char, rest: string)
    requires |EscapeChar(c)| == 6
    ensures OneChar(EscapeChar(c) + rest) == Some((c, 6)) && EscapeChar(c)[0] != '\"'
  {
    var n := c as int;
    var hex := "00" + [HEX[n / 16], HEX[n % 16]];
    assert EscapeChar(c) == "\\u" + hex;
    hide EscapeChar, HexChar, OneChar;
    HexCharReads(c);
    UnicodeReads(hex, c, rest);
  }

  lemma UnicodeReads(hex: string, c: char, rest: string)
    requires |hex| == 4 && HexChar(hex) == Some(c)
    ensures OneChar("\\u" + hex + rest) == Some((c, 6))
  {
    hide HexChar;
    var s := "\\u" + hex + rest;
    assert s[0] == '\\' && s[1] == 'u' && s[2..6] == hex;
  }

  lemma HexCharReads(c: char)
    requires c as int < 0x20
    ensures HexChar("00" + [HEX[c as int / 16], HEX[c as int % 16]]) == Some(c)
  {
    var n := c as int;
    HexReads(n);
    assert HexDigit('0') == Some(0);
    hide HexDigit;
    var hex := "00" + [HEX[n / 16], HEX[n % 16]];
    assert hex[0] == '0' && hex[1] == '0' && hex[2] == HEX[n / 16] && hex[3] == HEX[n % 16];
  }

  lemma HexReads(n: int)
    requires 0 <= n < 0x20
    ensures HexDigit(HEX[n / 16]) == Some(n / 16) && HexDigit(HEX[n % 16]) == Some(n % 16)
  {
  }

  lemma {:induction false} EscapedReads(x: string, rest: string)
    ensures ReadChars(Escape(x) + "\"" + rest) == Some((x, rest))
  {
    if x == "" {
      assert Escape(x) + "\"" + rest == "\"" + rest;
    } else {
      var e, tail := EscapeChar(x[0]), Escape(x[1..]) + "\"" + rest;
      EscapedReads(x[1..], rest);
      EscapedCharReads(x[0], tail);
      assert Escape(x) == e + Escape(x[1..]);
      hide EscapeChar, OneChar, ReadChars, Escape;
      ReadOne(e, tail, x[0]);
      EscapedText(e, Escape(x[1..]), rest);
      assert [x[0]] + x[1..] == x;
    }
  }

  lemma EscapedText(e: string, more: string, rest: string)
    ensures (e + more) + "\"" + rest == e + (more + "\"" + rest)
  {
  }

  lemma ReadOne(e: string, tail: string, c: char)
    requires e != "" && e[0] != '\"' && OneChar(e + tail) == Some((c, |e|))
    ensures ReadChars(e + tail) ==
      var more := ReadChars(tail);
      if more.None? then None else Some(([c] + more.value.0, more.value.1))
  {
    hide OneChar;
    assert (e + tail)[0] == e[0] && (e + tail)[|e|..] == tail;
  }

  /** A quoted string reads back as itself. */
  lemma QuoteReads(x: string, rest: string)
    ensures Quote(x) + rest != "" && (Quote(x) + rest)[0] == '\"'
    ensures ReadChars((Quote(x) + rest)[1..]) == Some((x, rest))
  {
    hide ReadChars, Escape;
    EscapedReads(x, rest);
    assert (Quote(x) + rest)[1..] == Escape(x) + "\"" + rest;
  }

  // ---------- values come back

  predicate Ends(rest: string) { rest == "" || rest[0] == ',' || rest[0] == ']' || rest[0] == '}' }

  predicate IsAtom(v: Json.Value) { !v.Str? && !v.Arr? && !v.Obj? }

  /** `atom` reads what `show` writes, and what it writes does not look like anything else. */
  ghost predicate ReadsAtoms(show: Json.Value -> string, atom: AtomReader) {
    forall v, rest :: IsAtom(v) && Ends(rest) ==> AtomReads(show, atom, v, rest)
  }

  ghost predicate AtomReads(show: Json.Value -> string, atom: AtomReader, v: Json.Value, rest: string) {
    && show(v) != "" && show(v)[0] !in "\"[{]}"
    && atom(show(v) + rest) == Some((v, rest))
  }

  /** Text does not start like the end of a list or object. */
  lemma Starts(show: Json.Value -> string, atom: AtomReader, v: Json.Value, rest: string)
    requires ReadsAtoms(show, atom)
    ensures Serialize(show, v) + rest != "" && (Serialize(show, v) + rest)[0] !in "]}"
  {
    hide SerializeItems, SerializeFields, Escape;
    if IsAtom(v) {
      assert Ends("");
      assert AtomReads(show, atom, v, "");
      assert (show(v) + rest)[0] == show(v)[0];
    }
  }

  lemma {:induction false} ValueReads(show: Json.Value -> string, atom: AtomReader, v: Json.Value, rest: string)
    requires ReadsAtoms(show, atom) && Ends(rest)
    ensures ReadValue(atom, Serialize(show, v) + rest) == Some((v, rest))
    decreases v, 1
  {
    match v
    case Str(x) =>
      hide Quote, ReadChars;
      QuoteReads(x, rest);
    case Arr(items) =>
      if items != [] { ItemsRead(show, atom, items, rest); }
      ArrReads(show, atom, items, rest);
    case Obj(fields) =>
      if fields != [] { FieldsRead(show, atom, fields, rest); }
      ObjReads(show, atom, fields, rest);
    case _ =>
      AtomValueReads(show, atom, v, rest);
  }

  lemma AtomValueReads(show: Json.Value -> string, atom: AtomReader, v: Json.Value, rest: string)
    requires ReadsAtoms(show, atom) && Ends(rest) && IsAtom(v)
    ensures ReadValue(atom, Serialize(show, v) + rest) == Some((v, rest))
  {
    assert AtomReads(show, atom, v, rest);
    assert (show(v) + rest)[0] == show(v)[0];
  }

  lemma ArrReads(show: Json.Value -> string, atom: AtomReader, items: seq<Json.Value>, rest: string)
    requires items != [] ==>
      var s := SerializeItems(show, items) + "]" + rest;
      s != "" && s[0] != ']' && ReadItems(atom, s) == Some((items, rest))
    ensures ReadValue(atom, Serialize(show, Json.Arr(items)) + rest) == Some((Json.Arr(items), rest))
  {
    hide ReadItems;
    var s := Serialize(show, Json.Arr(items)) + rest;
    if items == [] {
      assert s == "[]" + rest && s[2..] == rest;
    } else {
      hide SerializeItems;
      assert s[1..] == SerializeItems(show, items) + "]" + rest;
    }
  }

  lemma ObjReads(show: Json.Value -> string, atom: AtomReader, fields: Fields, rest: string)
    requires fields != [] ==>
      var s := SerializeFields(show, fields) + "}" + rest;
      s != "" && s[0] != '}' && ReadFields(atom, s) == Some((fields, rest))
    ensures ReadValue(atom, Serialize(show, Json.Obj(fields)) + rest) == Some((Json.Obj(fields), rest))
  {
    hide ReadFields;
    var s := Serialize(show, Json.Obj(fields)) + rest;
    if fields == [] {
      assert s == "{}" + rest && s[2..] == rest;
    } else {
      hide SerializeFields;
      assert s[1..] == SerializeFields(show, fields) + "}" + rest;
    }
  }

  lemma {:induction false} ItemsRead(
      show: Json.Value -> string, atom: AtomReader, items: seq<Json.Value>, rest: string)
    requires ReadsAtoms(show, atom) && items != []
    ensures var s := SerializeItems(show, items) + "]" + rest;
      s != "" && s[0] != ']' && ReadItems(atom, s) == Some((items, rest))
    decreases items, 0
  {
    var more := SerializeItems(show, items[1..]);
    var tail := if |items| == 1 then "]" + rest else "," + (more + "]" + rest);
    Starts(show, atom, items[0], tail);
    ValueReads(show, atom, items[0], tail);
    if |items| > 1 { ItemsRead(show, atom, items[1..], rest); }
    ItemsText(show, items, rest);
    hide Serialize, SerializeItems, ReadValue, ReadItems;
    ItemsUnfold(atom, items[0], Serialize(show, items[0]) + tail, more, rest, |items| == 1);
    assert items == [items[0]] + items[1..] && (|items| == 1 ==> items == [items[0]]);
  }

  lemma ItemsText(show: Json.Value -> string, items: seq<Json.Value>, rest: string)
    requires items != []
    ensures SerializeItems(show, items) + "]" + rest == Serialize(show, items[0]) +
      if |items| == 1 then "]" + rest else "," + (SerializeItems(show, items[1..]) + "]" + rest)
  {
    hide Serialize;
    if |items| == 1 {
      Closing(Serialize(show, items[0]), "]", rest);
    } else {
      Listing(Serialize(show, items[0]), SerializeItems(show, items[1..]), "]", rest);
    }
  }

  lemma Closing(a: string, close: string, rest: string)
    ensures a + close + rest == a + (close + rest)
  {
  }

  lemma Listing(a: string, more: string, close: string, rest: string)
    ensures (a + "," + more) + close + rest == a + ("," + (more + close + rest))
  {
  }

  /** How the reader goes on after the first value of a list. */
  lemma ItemsUnfold(atom: AtomReader, v: Json.Value, s: string, more: string, rest: string, last: bool)
    requires ReadValue(atom, s) == Some((v, if last then "]" + rest else "," + (more + "]" + rest)))
    ensures ReadItems(atom, s) ==
      if last then Some(([v], rest))
      else
        var r := ReadItems(atom, more + "]" + rest);
        if r.None? then None else Some(([v] + r.value.0, r.value.1))
  {
    hide ReadValue;
    var tail := if last then "]" + rest else "," + (more + "]" + rest);
    assert tail[1..] == if last then rest else more + "]" + rest;
  }

  lemma {:induction false} FieldReads(
      show: Json.Value -> string, atom: AtomReader, f: (string, Json.Value), rest: string)
    requires ReadsAtoms(show, atom) && Ends(rest)
    ensures var s := SerializeField(show, f) + rest;
      s != "" && s[0] == '\"' && ReadField(atom, s) == Some((f, rest))
    decreases f, 0
  {
    var v := Serialize(show, f.1) + rest;
    ValueReads(show, atom, f.1, rest);
    hide Serialize, ReadValue, ReadChars, Quote, ReadsAtoms;
    QuoteReads(f.0, ":" + v);
    FieldText(Quote(f.0), Serialize(show, f.1), rest);
    hide SerializeField;
    FieldUnfold(atom, f, Quote(f.0) + (":" + v), v);
  }

  lemma FieldText(key: string, value: string, rest: string)
    ensures (key + ":" + value) + rest == key + (":" + (value + rest))
  {
  }

  /** How the reader goes on after a key. */
  lemma FieldUnfold(atom: AtomReader, f: (string, Json.Value), s: string, v: string)
    requires s != "" && s[0] == '\"' && ReadChars(s[1..]) == Some((f.0, ":" + v))
    ensures ReadField(atom, s) ==
      var r := ReadValue(atom, v);
      if r.None? then None else Some(((f.0, r.value.0), r.value.1))
  {
    hide ReadChars, ReadValue;
    assert (":" + v)[1..] == v;
  }

  lemma {:induction false} FieldsRead(show: Json.Value -> string, atom: AtomReader, fields: Fields, rest: string)
    requires ReadsAtoms(show, atom) && fields != []
    ensures var s := SerializeFields(show, fields) + "}" + rest;
      s != "" && s[0] != '}' && ReadFields(atom, s) == Some((fields, rest))
    decreases fields, 0
  {
    var more := SerializeFields(show, fields[1..]);
    var tail := if |fields| == 1 then "}" + rest else "," + (more + "}" + rest);
    hide Serialize, SerializeField, SerializeFields, ReadField, ReadFields, ReadsAtoms;
    FieldReads(show, atom, fields[0], tail);
    if |fields| > 1 { FieldsRead(show, atom, fields[1..], rest); }
    FieldsText(show, fields, rest);
    FieldsUnfold(atom, fields[0], SerializeField(show, fields[0]) + tail, more, rest, |fields| == 1);
    assert fields == [fields[0]] + fields[1..] && (|fields| == 1 ==> fields == [fields[0]]);
  }

  lemma FieldsText(show: Json.Value -> string, fields: Fields, rest: string)
    requires fields != []
    ensures SerializeFields(show, fields) + "}" + rest == SerializeField(show, fields[0]) +
      if |fields| == 1 then "}" + rest else "," + (SerializeFields(show, fields[1..]) + "}" + rest)
  {
    hide SerializeField;
    if |fields| == 1 {
      Closing(SerializeField(show, fields[0]), "}", rest);
    } else {
      Listing(SerializeField(show, fields[0]), SerializeFields(show, fields[1..]), "}", rest);
    }
  }

  /** How the reader goes on after the first field of an object. */
  lemma FieldsUnfold(atom: AtomReader, f: (string, Json.Value), s: string, more: string, rest: string, last: bool)
    requires ReadField(atom, s) == Some((f, if last then "}" + rest else "," + (more + "}" + rest)))
    ensures ReadFields(atom, s) ==
      if last then Some(([f], rest))
      else
        var r := ReadFields(atom, more + "}" + rest);
        if r.None? then None else Some(([f] + r.value.0, r.value.1))
  {
    hide ReadField;
    var tail := if last then "}" + rest else "," + (more + "}" + rest);
    assert tail[1..] == if last then rest else more + "}" + rest;
  }

  /** The plain text of a request reads back as its body, with nothing left over. */
  lemma BodyReadsBack(show: Json.Value -> string, atom: AtomReader, req: Request, images: seq<ImageData>)
    requires ReadsAtoms(show, atom) && ExtraIsObject(req)
    ensures ReadValue(atom, PlainText(show, req, images)) == Some((BuildRequestBody(req, images).value, ""))
  {
    hide ReadValue, Serialize, BuildRequestBody;
    ValueReads(show, atom, BuildRequestBody(req, images).value, "");
    assert PlainText(show, req, images) + "" == PlainText(show, req, images);
  }
}
