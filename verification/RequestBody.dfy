/** VLM request bodies (src/vlm.rs:303-526, src/request.rs:9-30). `BuildRequestBytes` copies each
    image once, into a serialized skeleton with placeholders; it must give the same text as
    serializing the whole body. */
module RequestBody {
  import opened Sequences
  import opened Template
  import Json

  type Fields = seq<(string, Json.Value)>

  // ---------- compact serialization

  const HEX: string := "0123456789abcdef"

  function EscapeChar(c: char): string {
    var n := c as int;
    if c == '\"' then "\\\""
    else if c == '\\' then "\\\\"
    else if n == 8 then "\\b"
    else if n == 9 then "\\t"
    else if n == 10 then "\\n"
    else if n == 12 then "\\f"
    else if n == 13 then "\\r"
    else if 0 <= n < 0x20 then "\\u00" + [HEX[n / 16], HEX[n % 16]]
    else [c]
  }

  function Escape(s: string): string {
    if s == "" then "" else EscapeChar(s[0]) + Escape(s[1..])
  }

  function Quote(s: string): string { "\"" + Escape(s) + "\"" }

  /** `show` writes numbers, booleans and null. */
  function Serialize(show: Json.Value -> string, v: Json.Value): string
    decreases v, 1
  {
    match v
    case Str(s) => Quote(s)
    case Arr(items) => "[" + SerializeItems(show, items) + "]"
    case Obj(fields) => "{" + SerializeFields(show, fields) + "}"
    case _ => show(v)
  }

  function SerializeItems(show: Json.Value -> string, items: seq<Json.Value>): string
    decreases items, 0
  {
    if items == [] then ""
    else if |items| == 1 then Serialize(show, items[0])
    else Serialize(show, items[0]) + "," + SerializeItems(show, items[1..])
  }

  function SerializeField(show: Json.Value -> string, f: (string, Json.Value)): string
    decreases f, 0
  {
    Quote(f.0) + ":" + Serialize(show, f.1)
  }

  function SerializeFields(show: Json.Value -> string, fields: Fields): string
    decreases fields, 0
  {
    if fields == [] then ""
    else if |fields| == 1 then SerializeField(show, fields[0])
    else SerializeField(show, fields[0]) + "," + SerializeFields(show, fields[1..])
  }

  lemma {:induction false} EscapeAppend(a: string, b: string)
    ensures Escape(a + b) == Escape(a) + Escape(b)
  {
    if a == "" {
      assert a + b == b;
    } else {
      assert (a + b)[1..] == a[1..] + b;
      EscapeAppend(a[1..], b);
    }
  }

  predicate IsBase64(s: string) {
    forall i :: 0 <= i < |s| ==>
      'A' <= s[i] <= 'Z' || 'a' <= s[i] <= 'z' || '0' <= s[i] <= '9' || s[i] == '+' || s[i] == '/' || s[i] == '='
  }

  /** Base64 text needs no escaping. */
  lemma EscapeBase64(s: string)
    requires IsBase64(s)
    ensures Escape(s) == s
  {
    forall i | 0 <= i < |s| ensures Unescaped(s[i]) { Base64Plain(s[i]); }
    EscapePlain(s);
  }

  predicate Unescaped(c: char) { c as int >= 0x20 && c != '\\' && c != '\"' }

  lemma Base64Plain(c: char)
    requires 'A' <= c <= 'Z' || 'a' <= c <= 'z' || '0' <= c <= '9' || c == '+' || c == '/' || c == '='
    ensures Unescaped(c)
  {
  }

  // ---------- objects with sorted keys

  predicate Less(a: string, b: string) {
    b != "" && (a == "" || a[0] < b[0] || (a[0] == b[0] && Less(a[1..], b[1..])))
  }

  predicate HasKey(fields: Fields, key: string) {
    exists i :: 0 <= i < |fields| && fields[i].0 == key
  }

  function Replace(fields: Fields, key: string, v: Json.Value): (r: Fields)
    ensures |r| == |fields|
    ensures forall i :: 0 <= i < |r| ==> r[i] == if fields[i].0 == key then (key, v) else fields[i]
  {
    if fields == [] then []
    else [if fields[0].0 == key then (key, v) else fields[0]] + Replace(fields[1..], key, v)
  }

  /** Position of a new key. */
  function Slot(fields: Fields, key: string): (k: nat)
    ensures k <= |fields|
  {
    if fields == [] || Less(key, fields[0].0) then 0 else 1 + Slot(fields[1..], key)
  }

  function Set(fields: Fields, key: string, v: Json.Value): Fields {
    if HasKey(fields, key) then Replace(fields, key, v)
    else var k := Slot(fields, key); fields[..k] + [(key, v)] + fields[k..]
  }

  function Unset(fields: Fields, key: string): (r: Fields)
    ensures !HasKey(r, key)
  {
    if fields == [] then []
    else (if fields[0].0 == key then [] else [fields[0]]) + Unset(fields[1..], key)
  }

  /** Top-level overrides: null removes a key. */
  function Merge(base: Fields, extra: Fields): Fields
    decreases |extra|
  {
    if extra == [] then base
    else Merge(if extra[0].1.Null? then Unset(base, extra[0].0) else Set(base, extra[0].0, extra[0].1), extra[1..])
  }

  // ---------- the body

  datatype ImageData = ImageData(base64: string, mime: string, url: string)

  datatype Request = Request(
    model: string, maxTokens: Json.Value, temperature: Json.Value, prompt: string, detail: string,
    serverSideDownload: bool, streaming: bool, ignoreEos: bool, minTokens: Option<Json.Value>,
    extra: Option<Json.Value>, system: string)

  function ImagePart(req: Request, image: ImageData): Json.Value {
    var url := if req.serverSideDownload then image.url else "data:" + image.mime + ";base64," + image.base64;
    Json.Obj([("image_url", Json.Obj([("detail", Json.Str(req.detail)), ("url", Json.Str(url))])),
              ("type", Json.Str("image_url"))])
  }

  function ImageParts(req: Request, images: seq<ImageData>): seq<Json.Value> {
    if images == [] then [] else [ImagePart(req, images[0])] + ImageParts(req, images[1..])
  }

  function TextParts(req: Request): seq<Json.Value> {
    if req.prompt == "" then []
    else [Json.Obj([("text", Json.Str(req.prompt)), ("type", Json.Str("text"))])]
  }

  function UserMessage(content: seq<Json.Value>): Json.Value {
    Json.Obj([("content", Json.Arr(content)), ("role", Json.Str("user"))])
  }

  function SystemMessages(req: Request): seq<Json.Value> {
    if req.system == "" then []
    else [Json.Obj([("content", Json.Str(req.system)), ("role", Json.Str("system"))])]
  }

  function Messages(req: Request, images: seq<ImageData>): Json.Value {
    Json.Arr(SystemMessages(req) + [UserMessage(TextParts(req) + ImageParts(req, images))])
  }

  const MESSAGES: string := "messages"

  function BaseFields(req: Request, messages: Json.Value): Fields {
    var f1 := Set([], "model", Json.Str(req.model));
    var f2 := Set(f1, MESSAGES, messages);
    var f3 := Set(f2, "max_tokens", req.maxTokens);
    var f4 := Set(f3, "temperature", req.temperature);
    var f5 := Set(f4, "stream", Json.Bool(req.streaming));
    var f6 := if req.ignoreEos then Set(f5, "ignore_eos", Json.Bool(true)) else f5;
    var f7 := if req.minTokens.Some? then Set(f6, "min_tokens", req.minTokens.value) else f6;
    if req.streaming then Set(f7, "stream_options", Json.Obj([("include_usage", Json.Bool(true))])) else f7
  }

  predicate ExtraIsObject(req: Request) {
    req.extra.Some? ==> req.extra.value.Obj?
  }

  function ExtraFields(req: Request): Fields
    requires ExtraIsObject(req)
  {
    if req.extra.Some? then req.extra.value.fields else []
  }

  function BodyFields(req: Request, messages: Json.Value): Fields
    requires ExtraIsObject(req)
  {
    Merge(BaseFields(req, messages), ExtraFields(req))
  }

  /** `None` when the extra body is not an object. */
  function BuildRequestBody(req: Request, images: seq<ImageData>): (body: Option<Json.Value>)
    ensures body.Some? <==> ExtraIsObject(req)
  {
    if ExtraIsObject(req) then Some(Json.Obj(BodyFields(req, Messages(req, images)))) else None
  }

  /** Serializing the whole body at once. */
  function PlainText(show: Json.Value -> string, req: Request, images: seq<ImageData>): string
    requires ExtraIsObject(req)
  {
    Serialize(show, BuildRequestBody(req, images).value)
  }

  predicate ReplacesMessages(req: Request)
    requires ExtraIsObject(req)
  {
    HasKey(ExtraFields(req), MESSAGES)
  }

  // ---------- the messages field is the only one that depends on the images

  /** Same fields, except for the value of `messages`, which occurs at most once. */
  ghost predicate DifferInMessages(f: Fields, g: Fields) {
    && |f| == |g|
    && (forall i :: 0 <= i < |f| ==> f[i].0 == g[i].0 && (f[i].0 != MESSAGES ==> f[i].1 == g[i].1))
    && AtMostOnce(f)
  }

  ghost predicate AtMostOnce(f: Fields) {
    forall i, j :: 0 <= i < j < |f| ==> !(f[i].0 == MESSAGES && f[j].0 == MESSAGES)
  }

  lemma {:induction false} SlotByKeys(f: Fields, g: Fields, key: string)
    requires |f| == |g| && forall i :: 0 <= i < |f| ==> f[i].0 == g[i].0
    ensures Slot(f, key) == Slot(g, key)
  {
    if f != [] { SlotByKeys(f[1..], g[1..], key); }
  }

  lemma SameKeys(f: Fields, g: Fields, key: string)
    requires DifferInMessages(f, g)
    ensures HasKey(f, key) <==> HasKey(g, key)
  {
    if HasKey(f, key) { var i :| 0 <= i < |f| && f[i].0 == key; assert g[i].0 == key; }
    if HasKey(g, key) { var i :| 0 <= i < |g| && g[i].0 == key; assert f[i].0 == key; }
  }

  lemma ReplaceKeepsDifference(f: Fields, g: Fields, key: string, v: Json.Value)
    requires DifferInMessages(f, g)
    ensures DifferInMessages(Replace(f, key, v), Replace(g, key, v))
    ensures key == MESSAGES ==> Replace(f, key, v) == Replace(g, key, v)
  {
    hide Replace;
    var x := Replace(f, key, v);
    assert forall i :: 0 <= i < |x| ==> x[i].0 == f[i].0;
  }

  lemma SetKeepsDifference(f: Fields, g: Fields, key: string, v: Json.Value)
    requires DifferInMessages(f, g)
    ensures DifferInMessages(Set(f, key, v), Set(g, key, v))
    ensures key == MESSAGES ==> Set(f, key, v) == Set(g, key, v)
  {
    SameKeys(f, g, key);
    if HasKey(f, key) {
      ReplaceKeepsDifference(f, g, key, v);
    } else {
      SlotByKeys(f, g, key);
      InsertKeepsDifference(f, g, Slot(f, key), key, v);
    }
    hide DifferInMessages, Slot, Replace;
  }

  lemma InsertKeepsDifference(f: Fields, g: Fields, k: nat, key: string, v: Json.Value)
    requires DifferInMessages(f, g) && k <= |f| && forall i :: 0 <= i < |f| ==> f[i].0 != key
    ensures DifferInMessages(f[..k] + [(key, v)] + f[k..], g[..k] + [(key, v)] + g[k..])
    ensures key == MESSAGES ==> f[..k] + [(key, v)] + f[k..] == g[..k] + [(key, v)] + g[k..]
  {
    assert key == MESSAGES ==> f == g;
  }

  lemma ConsDiffers(x: (string, Json.Value), y: (string, Json.Value), f: Fields, g: Fields)
    requires DifferInMessages(f, g) && x.0 == y.0 && (x.0 != MESSAGES ==> x.1 == y.1)
    requires x.0 == MESSAGES ==> forall i :: 0 <= i < |f| ==> f[i].0 != MESSAGES
    ensures DifferInMessages([x] + f, [y] + g)
  {
  }

  lemma TailDiffers(f: Fields, g: Fields)
    requires DifferInMessages(f, g) && f != []
    ensures DifferInMessages(f[1..], g[1..])
    ensures f[0].0 == MESSAGES ==> forall i :: 0 <= i < |f[1..]| ==> f[1..][i].0 != MESSAGES
  {
  }

  lemma {:induction false} UnsetKeepsDifference(f: Fields, g: Fields, key: string)
    requires DifferInMessages(f, g)
    ensures DifferInMessages(Unset(f, key), Unset(g, key))
    ensures key == MESSAGES ==> Unset(f, key) == Unset(g, key)
  {
    if f != [] {
      TailDiffers(f, g);
      UnsetKeepsDifference(f[1..], g[1..], key);
      if f[0].0 != key {
        UnsetMembers(f[1..], key);
        forall i | 0 <= i < |Unset(f[1..], key)| && f[0].0 == MESSAGES ensures Unset(f[1..], key)[i].0 != MESSAGES {
          var j :| 0 <= j < |f[1..]| && f[1..][j] == Unset(f[1..], key)[i];
        }
        hide DifferInMessages, AtMostOnce;
        HeadsAgree(f, g);
        ConsDiffers(f[0], g[0], Unset(f[1..], key), Unset(g[1..], key));
      } else {
        HeadsAgree(f, g);
        assert Unset(f, key) == [] + Unset(f[1..], key) && Unset(g, key) == [] + Unset(g[1..], key);
      }
    }
  }

  lemma HeadsAgree(f: Fields, g: Fields)
    requires DifferInMessages(f, g) && f != []
    ensures g != [] && f[0].0 == g[0].0 && (f[0].0 != MESSAGES ==> f[0].1 == g[0].1)
  {
  }

  lemma {:induction false} UnsetMembers(f: Fields, key: string)
    ensures forall i :: 0 <= i < |Unset(f, key)| ==> Unset(f, key)[i] in f
  {
    if f != [] { UnsetMembers(f[1..], key); }
  }

  lemma {:induction false} MergeKeepsDifference(f: Fields, g: Fields, extra: Fields)
    requires DifferInMessages(f, g)
    ensures DifferInMessages(Merge(f, extra), Merge(g, extra))
    ensures HasKey(extra, MESSAGES) ==> Merge(f, extra) == Merge(g, extra)
    decreases |extra|
  {
    hide Set, Unset, DifferInMessages;
    if extra != [] {
      var (key, v) := extra[0];
      SetKeepsDifference(f, g, key, v);
      UnsetKeepsDifference(f, g, key);
      var f' := if v.Null? then Unset(f, key) else Set(f, key, v);
      var g' := if v.Null? then Unset(g, key) else Set(g, key, v);
      MergeKeepsDifference(f', g', extra[1..]);
      if HasKey(extra, MESSAGES) && key != MESSAGES {
        var i :| 0 <= i < |extra| && extra[i].0 == MESSAGES;
        assert extra[1..][i - 1].0 == MESSAGES;
      }
    }
  }

  lemma BaseKeepsDifference(req: Request, m: Json.Value, n: Json.Value)
    ensures DifferInMessages(BaseFields(req, m), BaseFields(req, n))
  {
    hide Set, DifferInMessages;
    var f1 := Set([], "model", Json.Str(req.model));
    ModelField(req.model, m, n);
    var f2, g2 := Set(f1, MESSAGES, m), Set(f1, MESSAGES, n);
    SetKeepsDifference(f2, g2, "max_tokens", req.maxTokens);
    var f3, g3 := Set(f2, "max_tokens", req.maxTokens), Set(g2, "max_tokens", req.maxTokens);
    SetKeepsDifference(f3, g3, "temperature", req.temperature);
    var f4, g4 := Set(f3, "temperature", req.temperature), Set(g3, "temperature", req.temperature);
    SetKeepsDifference(f4, g4, "stream", Json.Bool(req.streaming));
    var f5, g5 := Set(f4, "stream", Json.Bool(req.streaming)), Set(g4, "stream", Json.Bool(req.streaming));
    SetKeepsDifference(f5, g5, "ignore_eos", Json.Bool(true));
    var f6 := if req.ignoreEos then Set(f5, "ignore_eos", Json.Bool(true)) else f5;
    var g6 := if req.ignoreEos then Set(g5, "ignore_eos", Json.Bool(true)) else g5;
    if req.minTokens.Some? { SetKeepsDifference(f6, g6, "min_tokens", req.minTokens.value); }
    var f7 := if req.minTokens.Some? then Set(f6, "min_tokens", req.minTokens.value) else f6;
    var g7 := if req.minTokens.Some? then Set(g6, "min_tokens", req.minTokens.value) else g6;
    SetKeepsDifference(f7, g7, "stream_options", Json.Obj([("include_usage", Json.Bool(true))]));
  }

  lemma ModelField(model: string, m: Json.Value, n: Json.Value)
    ensures var f1 := Set([], "model", Json.Str(model));
      DifferInMessages(Set(f1, MESSAGES, m), Set(f1, MESSAGES, n))
  {
    var f1 := Set([], "model", Json.Str(model));
    assert f1 == [("model", Json.Str(model))];
    assert !HasKey(f1, MESSAGES) by { assert f1[0].0 != MESSAGES by { assert |"model"| != |MESSAGES|; } }
    var k := Slot(f1, MESSAGES);
    assert Set(f1, MESSAGES, m)[k] == (MESSAGES, m) && Set(f1, MESSAGES, n)[k] == (MESSAGES, n);
  }

  // ---------- where the messages value sits

  ghost predicate HoldsMessages(f: Fields, m: Json.Value) {
    exists i :: 0 <= i < |f| && f[i] == (MESSAGES, m)
  }

  lemma SetHolds(f: Fields, key: string, v: Json.Value, m: Json.Value)
    requires HoldsMessages(f, m) && key != MESSAGES
    ensures HoldsMessages(Set(f, key, v), m)
  {
    var i :| 0 <= i < |f| && f[i] == (MESSAGES, m);
    var g := Set(f, key, v);
    if HasKey(f, key) {
      assert g[i] == (MESSAGES, m);
    } else {
      var k := Slot(f, key);
      assert g[if i < k then i else i + 1] == (MESSAGES, m);
    }
  }

  lemma {:induction false} UnsetHolds(f: Fields, key: string, m: Json.Value)
    requires HoldsMessages(f, m) && key != MESSAGES
    ensures HoldsMessages(Unset(f, key), m)
  {
    var i :| 0 <= i < |f| && f[i] == (MESSAGES, m);
    var g := Unset(f, key);
    if i == 0 {
      assert g[0] == (MESSAGES, m);
    } else {
      assert f[1..][i - 1] == (MESSAGES, m);
      UnsetHolds(f[1..], key, m);
      var j :| 0 <= j < |Unset(f[1..], key)| && Unset(f[1..], key)[j] == (MESSAGES, m);
      assert g[if f[0].0 == key then j else j + 1] == (MESSAGES, m);
    }
  }

  lemma {:induction false} MergeHolds(f: Fields, extra: Fields, m: Json.Value)
    requires HoldsMessages(f, m) && !HasKey(extra, MESSAGES)
    ensures HoldsMessages(Merge(f, extra), m)
    decreases |extra|
  {
    hide Set, Unset, HoldsMessages;
    if extra != [] {
      var (key, v) := extra[0];
      assert key != MESSAGES;
      SetHolds(f, key, v, m);
      UnsetHolds(f, key, m);
      forall i | 0 <= i < |extra[1..]| ensures extra[1..][i].0 != MESSAGES {
        assert extra[1..][i] == extra[i + 1];
      }
      MergeHolds(if v.Null? then Unset(f, key) else Set(f, key, v), extra[1..], m);
    }
  }

  lemma KeysAreOther()
    ensures "max_tokens" != MESSAGES && "temperature" != MESSAGES && "stream" != MESSAGES
    ensures "ignore_eos" != MESSAGES && "min_tokens" != MESSAGES && "stream_options" != MESSAGES
  {
    assert |MESSAGES| == 8;
    assert |"max_tokens"| == 10 && |"temperature"| == 11 && |"stream"| == 6;
    assert |"ignore_eos"| == 10 && |"min_tokens"| == 10 && |"stream_options"| == 14;
  }

  lemma BaseHolds(req: Request, m: Json.Value)
    ensures HoldsMessages(BaseFields(req, m), m)
  {
    hide Set, HoldsMessages;
    KeysAreOther();
    var f1 := Set([], "model", Json.Str(req.model));
    MessagesSet(f1, m);
    var f2 := Set(f1, MESSAGES, m);
    SetHolds(f2, "max_tokens", req.maxTokens, m);
    var f3 := Set(f2, "max_tokens", req.maxTokens);
    SetHolds(f3, "temperature", req.temperature, m);
    var f4 := Set(f3, "temperature", req.temperature);
    SetHolds(f4, "stream", Json.Bool(req.streaming), m);
    var f5 := Set(f4, "stream", Json.Bool(req.streaming));
    SetHolds(f5, "ignore_eos", Json.Bool(true), m);
    var f6 := if req.ignoreEos then Set(f5, "ignore_eos", Json.Bool(true)) else f5;
    if req.minTokens.Some? { SetHolds(f6, "min_tokens", req.minTokens.value, m); }
    var f7 := if req.minTokens.Some? then Set(f6, "min_tokens", req.minTokens.value) else f6;
    SetHolds(f7, "stream_options", Json.Obj([("include_usage", Json.Bool(true))]), m);
  }

  lemma MessagesSet(f: Fields, m: Json.Value)
    ensures HoldsMessages(Set(f, MESSAGES, m), m)
  {
    var g := Set(f, MESSAGES, m);
    if HasKey(f, MESSAGES) {
      var i :| 0 <= i < |f| && f[i].0 == MESSAGES;
      assert g[i] == (MESSAGES, m);
    } else {
      assert g[Slot(f, MESSAGES)] == (MESSAGES, m);
    }
  }

  // ---------- templates

  function BeforeField(show: Json.Value -> string, fields: Fields): string {
    if fields == [] then "" else SerializeFields(show, fields) + ","
  }

  function AfterField(show: Json.Value -> string, fields: Fields): string {
    if fields == [] then "" else "," + SerializeFields(show, fields)
  }

  lemma FieldsCons(show: Json.Value -> string, fields: Fields)
    requires |fields| >= 2
    ensures SerializeFields(show, fields) == SerializeField(show, fields[0]) + "," + SerializeFields(show, fields[1..])
  {
  }

  lemma FieldsOne(show: Json.Value -> string, f: (string, Json.Value))
    ensures SerializeFields(show, [f]) == SerializeField(show, f)
  {
  }

  lemma {:induction false} FieldsAround(show: Json.Value -> string, fields: Fields, i: nat)
    requires i < |fields|
    ensures SerializeFields(show, fields)
         == BeforeField(show, fields[..i]) + SerializeField(show, fields[i]) + AfterField(show, fields[i + 1..])
    decreases i
  {
    hide SerializeField, SerializeFields, BeforeField, AfterField;
    if i == 0 {
      FieldsFirst(show, fields);
    } else {
      FieldsAround(show, fields[1..], i - 1);
      FieldsCons(show, fields);
      assert fields[1..][..i - 1] == fields[1..i] && fields[1..][i..] == fields[i + 1..];
      BeforeCons(show, fields, i);
      Reassociate(SerializeField(show, fields[0]) + ",", BeforeField(show, fields[1..i]),
                  SerializeField(show, fields[i]), AfterField(show, fields[i + 1..]));
    }
  }

  lemma Reassociate(a: string, b: string, c: string, d: string)
    ensures a + (b + c + d) == (a + b) + c + d
  {
  }

  lemma FieldsFirst(show: Json.Value -> string, fields: Fields)
    requires fields != []
    ensures SerializeFields(show, fields)
         == BeforeField(show, fields[..0]) + SerializeField(show, fields[0]) + AfterField(show, fields[1..])
  {
    hide SerializeFields, SerializeField;
    assert fields[..0] == [];
    var first := SerializeField(show, fields[0]);
    if |fields| == 1 {
      assert fields == [fields[0]] && fields[1..] == [];
      FieldsOne(show, fields[0]);
      assert "" + first + "" == first;
    } else {
      FieldsCons(show, fields);
      CommaMoves(first, SerializeFields(show, fields[1..]));
    }
  }

  lemma CommaMoves(a: string, b: string)
    ensures a + "," + b == "" + a + ("," + b)
  {
  }

  lemma BeforeCons(show: Json.Value -> string, fields: Fields, i: nat)
    requires 0 < i < |fields|
    ensures BeforeField(show, fields[..i]) == SerializeField(show, fields[0]) + "," + BeforeField(show, fields[1..i])
  {
    assert fields[..i][1..] == fields[1..i];
    if i == 1 {
      assert fields[..1] == [fields[0]];
      FieldsOne(show, fields[0]);
    } else {
      FieldsCons(show, fields[..i]);
    }
  }

  function PartHead(show: Json.Value -> string, req: Request, mime: string): string {
    "{" + Quote("image_url") + ":{" + Quote("detail") + ":" + Quote(req.detail) + "," + Quote("url") + ":\""
    + Escape("data:" + mime + ";base64,")
  }

  function PartTail(): string {
    "\"}," + Quote("type") + ":" + Quote("image_url") + "}"
  }

  lemma TwoFields(show: Json.Value -> string, f: (string, Json.Value), g: (string, Json.Value))
    ensures Serialize(show, Json.Obj([f, g])) == "{" + (SerializeField(show, f) + "," + SerializeField(show, g)) + "}"
  {
    hide SerializeFields, SerializeField;
    assert [f, g][1..] == [g];
    FieldsCons(show, [f, g]);
    FieldsOne(show, g);
  }

  lemma PartAroundPayload(show: Json.Value -> string, req: Request, image: ImageData)
    requires !req.serverSideDownload
    ensures Serialize(show, ImagePart(req, image))
         == PartHead(show, req, image.mime) + Escape(image.base64) + PartTail()
  {
    hide Escape, SerializeFields;
    var url := "data:" + image.mime + ";base64," + image.base64;
    EscapeAppend("data:" + image.mime + ";base64,", image.base64);
    var detail, link := ("detail", Json.Str(req.detail)), ("url", Json.Str(url));
    TwoFields(show, detail, link);
    TwoFields(show, ("image_url", Json.Obj([detail, link])), ("type", Json.Str("image_url")));
    assert Quote(url) == "\"" + (Escape("data:" + image.mime + ";base64,") + Escape(image.base64)) + "\"";
    hide Quote;
    PartText(Quote("image_url"), Quote("detail"), Quote(req.detail), Quote("url"),
             Escape("data:" + image.mime + ";base64,"), Escape(image.base64), Quote("type"));
  }

  /** Both ways to put the pieces of an image part together. */
  lemma PartText(part: string, detail: string, level: string, url: string, head: string, payload: string, kind: string)
    ensures "{" + (part + ":" + ("{" + (detail + ":" + level + ","
                                     + (url + ":" + ("\"" + (head + payload) + "\""))) + "}")
                   + "," + (kind + ":" + part)) + "}"
         == ("{" + part + ":{" + detail + ":" + level + "," + url + ":\"" + head) + payload
            + ("\"}," + kind + ":" + part + "}")
  {
  }

  function PartsTemplate(show: Json.Value -> string, req: Request, images: seq<ImageData>): (parts: seq<string>)
    ensures |parts| == |images| + 1
  {
    if images == [] then [""]
    else
      var rest := PartsTemplate(show, req, images[1..]);
      [PartHead(show, req, images[0].mime)]
      + Prefixed(PartTail() + (if |images| == 1 then "" else ","), rest)
  }

  function Payloads(images: seq<ImageData>): seq<string> {
    seq(|images|, i requires 0 <= i < |images| => images[i].base64)
  }

  function EscapeEach(ps: seq<string>): (r: seq<string>)
    ensures |r| == |ps|
  {
    seq(|ps|, i requires 0 <= i < |ps| => Escape(ps[i]))
  }

  /** The images with other payloads. */
  function Filled(images: seq<ImageData>, ps: seq<string>): (r: seq<ImageData>)
    requires |ps| == |images|
    ensures |r| == |images|
  {
    seq(|images|, i requires 0 <= i < |images| => images[i].(base64 := ps[i]))
  }

  lemma {:induction false} PartsWeave(show: Json.Value -> string, req: Request, images: seq<ImageData>, ps: seq<string>)
    requires !req.serverSideDownload && |ps| == |images|
    ensures SerializeItems(show, ImageParts(req, Filled(images, ps)))
         == Weave(PartsTemplate(show, req, images), EscapeEach(ps))
    decreases |images|
  {
    hide Escape, PartHead, PartTail, ImagePart, Serialize;
    var filled, fills := Filled(images, ps), EscapeEach(ps);
    if images != [] {
      PartsWeave(show, req, images[1..], ps[1..]);
      assert filled[1..] == Filled(images[1..], ps[1..]) && fills[1..] == EscapeEach(ps[1..]);
      PartAroundPayload(show, req, filled[0]);
      var sep := if |images| == 1 then "" else ",";
      var rest := PartsTemplate(show, req, images[1..]);
      WeavePrefixed(PartTail() + sep, rest, fills[1..]);
      ItemsCons(show, req, filled);
      assert PartsTemplate(show, req, images)[1..] == Prefixed(PartTail() + sep, rest);
      assert PartHead(show, req, images[0].mime) + Escape(ps[0]) + (PartTail() + sep + Weave(rest, fills[1..]))
          == (PartHead(show, req, images[0].mime) + Escape(ps[0]) + PartTail()) + sep + Weave(rest, fills[1..]);
    }
  }

  lemma ItemsCons(show: Json.Value -> string, req: Request, images: seq<ImageData>)
    requires images != []
    ensures SerializeItems(show, ImageParts(req, images))
         == Serialize(show, ImagePart(req, images[0])) + (if |images| == 1 then "" else ",")
            + SerializeItems(show, ImageParts(req, images[1..]))
  {
    hide Serialize, ImagePart;
    PartsCount(req, images[1..]);
    var items := ImageParts(req, images);
    assert items[1..] == ImageParts(req, images[1..]);
  }

  lemma {:induction false} PartsCount(req: Request, images: seq<ImageData>)
    ensures |ImageParts(req, images)| == |images|
  {
    if images != [] { PartsCount(req, images[1..]); }
  }

  /** Text in front of the image parts of the user message, and after them. */
  function ContentHead(show: Json.Value -> string, req: Request, some: bool): string {
    "{" + Quote("content") + ":["
    + SerializeItems(show, TextParts(req)) + (if req.prompt == "" || !some then "" else ",")
  }

  function ContentTail(): string {
    "]," + Quote("role") + ":" + Quote("user") + "}"
  }

  lemma UserAroundParts(show: Json.Value -> string, req: Request, parts: seq<Json.Value>)
    ensures Serialize(show, UserMessage(TextParts(req) + parts))
         == ContentHead(show, req, parts != []) + SerializeItems(show, parts) + ContentTail()
  {
    hide Escape, SerializeFields, SerializeItems, TextParts, Quote;
    var content := TextParts(req) + parts;
    TwoFields(show, ("content", Json.Arr(content)), ("role", Json.Str("user")));
    TextThenParts(show, req, parts);
    var key, role := Quote("content"), Quote("role") + ":" + Quote("user");
    var text, sep := SerializeItems(show, TextParts(req)), if req.prompt == "" || parts == [] then "" else ",";
    var items := SerializeItems(show, parts);
    assert "{" + (key + ":" + ("[" + (text + sep + items) + "]") + "," + role) + "}"
        == ("{" + key + ":[" + text + sep) + items + ("]," + role + "}");
    assert ContentTail() == "]," + role + "}";
  }

  lemma TextThenParts(show: Json.Value -> string, req: Request, parts: seq<Json.Value>)
    ensures SerializeItems(show, TextParts(req) + parts)
         == SerializeItems(show, TextParts(req)) + (if req.prompt == "" || parts == [] then "" else ",")
            + SerializeItems(show, parts)
  {
    hide Serialize;
    if req.prompt == "" {
      assert TextParts(req) + parts == parts;
    } else if parts == [] {
      assert TextParts(req) + parts == TextParts(req);
    } else {
      assert (TextParts(req) + parts)[1..] == parts;
    }
  }

  function SystemHead(show: Json.Value -> string, req: Request): string {
    "[" + SerializeItems(show, SystemMessages(req)) + (if req.system == "" then "" else ",")
  }

  lemma SystemThenUser(show: Json.Value -> string, req: Request, user: Json.Value)
    ensures Serialize(show, Json.Arr(SystemMessages(req) + [user]))
         == SystemHead(show, req) + Serialize(show, user) + "]"
  {
    hide Escape, SerializeFields;
    var items := SystemMessages(req) + [user];
    assert SerializeItems(show, [user]) == Serialize(show, user);
    if req.system == "" {
      assert items == [user];
    } else {
      assert items[1..] == [user];
      var first := SystemMessages(req)[0];
      assert SystemMessages(req) == [first] && items[0] == first;
      assert SerializeItems(show, [first]) == Serialize(show, first);
      assert SerializeItems(show, items) == Serialize(show, first) + "," + SerializeItems(show, [user]);
    }
  }

  /** Everything in the serialized messages value except the payloads. */
  function MessagesTemplate(show: Json.Value -> string, req: Request, images: seq<ImageData>): (parts: seq<string>)
    ensures |parts| == |images| + 1
  {
    Suffixed(Prefixed(SystemHead(show, req) + ContentHead(show, req, images != []), PartsTemplate(show, req, images)),
             ContentTail() + "]")
  }

  lemma MessagesWeave(show: Json.Value -> string, req: Request, images: seq<ImageData>, ps: seq<string>)
    requires !req.serverSideDownload && |ps| == |images|
    ensures Serialize(show, Messages(req, Filled(images, ps)))
         == Weave(MessagesTemplate(show, req, images), EscapeEach(ps))
  {
    hide Escape, Serialize, SerializeItems, PartsTemplate, SystemHead, ContentHead, ContentTail, ImageParts,
      UserMessage;
    var parts := ImageParts(req, Filled(images, ps));
    PartsCount(req, Filled(images, ps));
    PartsWeave(show, req, images, ps);
    UserAroundParts(show, req, parts);
    SystemThenUser(show, req, UserMessage(TextParts(req) + parts));
    var head, tail := SystemHead(show, req) + ContentHead(show, req, images != []), ContentTail() + "]";
    var inner := PartsTemplate(show, req, images);
    WeavePrefixed(head, inner, EscapeEach(ps));
    WeaveSuffixed(Prefixed(head, inner), EscapeEach(ps), tail);
  }

  /** For any payloads, the body is one fixed template woven with the escaped payloads. */
  lemma BodyTemplate(show: Json.Value -> string, req: Request, images: seq<ImageData>) returns (parts: seq<string>)
    requires !req.serverSideDownload && ExtraIsObject(req) && !ReplacesMessages(req)
    ensures |parts| == |images| + 1
    ensures forall ps :: |ps| == |images| ==>
              PlainText(show, req, Filled(images, ps)) == Weave(parts, EscapeEach(ps))
  {
    hide Serialize, SerializeFields, MessagesTemplate, Messages, BodyFields, EscapeEach;
    var m := Messages(req, images);
    var f := BodyFields(req, m);
    var i := MessagesPosition(req, m);
    var head := "{" + BeforeField(show, f[..i]) + Quote(MESSAGES) + ":";
    var tail := AfterField(show, f[i + 1..]) + "}";
    var inner := MessagesTemplate(show, req, images);
    parts := Suffixed(Prefixed(head, inner), tail);
    forall ps | |ps| == |images|
      ensures PlainText(show, req, Filled(images, ps)) == Weave(parts, EscapeEach(ps))
    {
      BodyAround(show, req, m, Messages(req, Filled(images, ps)), i);
      MessagesWeave(show, req, images, ps);
      WeavePrefixed(head, inner, EscapeEach(ps));
      WeaveSuffixed(Prefixed(head, inner), EscapeEach(ps), tail);
    }
  }

  lemma MessagesPosition(req: Request, m: Json.Value) returns (i: nat)
    requires ExtraIsObject(req) && !ReplacesMessages(req)
    ensures i < |BodyFields(req, m)| && BodyFields(req, m)[i] == (MESSAGES, m)
  {
    BaseHolds(req, m);
    MergeHolds(BaseFields(req, m), ExtraFields(req), m);
    i :| 0 <= i < |BodyFields(req, m)| && BodyFields(req, m)[i] == (MESSAGES, m);
  }

  lemma BodyAround(show: Json.Value -> string, req: Request, m: Json.Value, n: Json.Value, i: nat)
    requires ExtraIsObject(req) && !ReplacesMessages(req)
    requires i < |BodyFields(req, m)| && BodyFields(req, m)[i] == (MESSAGES, m)
    ensures var f := BodyFields(req, m);
      Serialize(show, Json.Obj(BodyFields(req, n)))
      == "{" + BeforeField(show, f[..i]) + Quote(MESSAGES) + ":" + Serialize(show, n)
         + (AfterField(show, f[i + 1..]) + "}")
  {
    hide SerializeFields, BaseFields, Merge, Quote, BeforeField, AfterField, DifferInMessages;
    var f, g := BodyFields(req, m), BodyFields(req, n);
    BaseKeepsDifference(req, m, n);
    MergeKeepsDifference(BaseFields(req, m), BaseFields(req, n), ExtraFields(req));
    var j := MessagesPosition(req, n);
    SameAround(f, g, i, j);
    FieldsAround(show, g, i);
    var before, key, value, after :=
      BeforeField(show, f[..i]), Quote(MESSAGES), Serialize(show, n), AfterField(show, f[i + 1..]);
    assert "{" + (before + (key + ":" + value) + after) + "}" == "{" + before + key + ":" + value + (after + "}");
  }

  lemma SameAround(f: Fields, g: Fields, i: nat, j: nat)
    requires DifferInMessages(f, g) && i < |f| && j < |g| && f[i].0 == MESSAGES && g[j].0 == MESSAGES
    ensures i == j && g[..i] == f[..i] && g[i + 1..] == f[i + 1..]
  {
    assert f[j].0 == MESSAGES;
  }

  /** An override of `messages` leaves nothing of the images in the body. */
  lemma ReplacedIgnoresImages(show: Json.Value -> string, req: Request, images: seq<ImageData>, others: seq<ImageData>)
    requires ExtraIsObject(req) && ReplacesMessages(req)
    ensures PlainText(show, req, images) == PlainText(show, req, others)
  {
    hide Serialize, BaseFields, Merge, Messages;
    var m, n := Messages(req, images), Messages(req, others);
    BaseKeepsDifference(req, m, n);
    MergeKeepsDifference(BaseFields(req, m), BaseFields(req, n), ExtraFields(req));
  }

  // ---------- the fast form

  function Digits(n: nat): string {
    if n < 10 then [HEX[n]] else Digits(n / 10) + [HEX[n % 10]]
  }

  /** Control characters around a name; they serialize as `\\u0001`. */
  function Placeholder(index: nat): string {
    [1 as char] + "metrum-ai-image-" + Digits(index) + [1 as char]
  }

  function Placeholders(count: nat): (r: seq<string>)
    ensures |r| == count
  {
    seq(count, i requires 0 <= i < count => Placeholder(i))
  }

  function InlineBytes(images: seq<ImageData>): nat {
    if images == [] then 0 else |images[0].base64| + InlineBytes(images[1..])
  }

  predicate Inline(req: Request, images: seq<ImageData>) {
    !req.serverSideDownload && InlineBytes(images) > 0
  }

  /** `Aborted` is the slice panic of overlapping splices. */
  datatype BytesResult = Bytes(text: string) | Rejected | Aborted

  predicate AllBase64(images: seq<ImageData>) {
    forall i :: 0 <= i < |images| ==> IsBase64(images[i].base64)
  }

  ghost function Skeleton(show: Json.Value -> string, req: Request, images: seq<ImageData>): string
    requires ExtraIsObject(req)
  {
    PlainText(show, req, Filled(images, Placeholders(|images|)))
  }

  lemma PlaceholderToken(index: nat)
    ensures Escape(Placeholder(index)) != "" && Escape(Placeholder(index))[0] == '\\'
  {
    var p := Placeholder(index);
    assert p[0] == 1 as char;
    assert EscapeChar(p[0]) == "\\u00" + [HEX[0], HEX[1]];
  }

  method BuildRequestBytes(show: Json.Value -> string, req: Request, images: seq<ImageData>) returns (r: BytesResult)
    ensures r.Rejected? <==> !ExtraIsObject(req)
    ensures ExtraIsObject(req) && AllBase64(images) && !ReplacesMessages(req) ==>
              r == Bytes(PlainText(show, req, images))
    ensures ExtraIsObject(req) && !Inline(req, images) ==> r == Bytes(PlainText(show, req, images))
    ensures ExtraIsObject(req) && AllBase64(images) && ReplacesMessages(req) && Inline(req, images) ==>
              (r == Bytes(PlainText(show, req, images))
               <==> !Placeable(Skeleton(show, req, images), EscapeEach(Placeholders(|images|))))
  {
    hide PlainText, Escape, EscapeEach, ReplacesMessages, Placeholder;
    if !ExtraIsObject(req) {
      return Rejected;
    }
    if !Inline(req, images) {
      return Bytes(PlainText(show, req, images));
    }
    var skeleton := PlainText(show, req, Filled(images, Placeholders(|images|)));
    var tokens := EscapeEach(Placeholders(|images|));
    var spans := FindSpans(skeleton, tokens);
    if spans.None? {
      return Bytes(PlainText(show, req, images));
    }
    assert Placeable(skeleton, tokens);
    var text := SpliceAll(skeleton, tokens, spans.value, Payloads(images));
    if AllBase64(images) && !ReplacesMessages(req) {
      SpliceIsPlain(show, req, images, spans.value);
    }
    if AllBase64(images) && ReplacesMessages(req) && text.Some? {
      SpliceDiffers(show, req, images, spans.value);
    }
    return if text.Some? then Bytes(text.value) else Aborted;
  }

  /** Unique hits are the real holes, so the splice is the plain serialization. */
  lemma SpliceIsPlain(show: Json.Value -> string, req: Request, images: seq<ImageData>, spans: seq<nat>)
    requires ExtraIsObject(req) && AllBase64(images) && !ReplacesMessages(req) && !req.serverSideDownload
    requires Placed(Skeleton(show, req, images), EscapeEach(Placeholders(|images|)), spans)
    ensures NonOverlapping(Skeleton(show, req, images), EscapeEach(Placeholders(|images|)), spans)
    ensures Splice(Skeleton(show, req, images), EscapeEach(Placeholders(|images|)), spans, Payloads(images), 0, 0)
         == PlainText(show, req, images)
  {
    hide PlainText, Escape, ReplacesMessages, Placeholder, Weave, Splice, Closed;
    var skeleton, tokens := Skeleton(show, req, images), EscapeEach(Placeholders(|images|));
    var parts := BodyTemplate(show, req, images);
    assert skeleton == Weave(parts, tokens);
    forall i | 0 <= i < |tokens| ensures spans[i] == HoleAt(parts, tokens, i) {
      HoleIsHit(parts, tokens, i);
      assert UniqueHit(skeleton, tokens[i], spans[i]);
    }
    forall i | 0 <= i < |tokens| - 1 ensures spans[i] + |tokens[i]| <= spans[i + 1] {
      HoleIsHit(parts, tokens, i);
    }
    forall i | 0 <= i < |tokens| ensures spans[i] + |tokens[i]| <= |skeleton| {
      assert UniqueHit(skeleton, tokens[i], spans[i]);
    }
    SpliceIsWeave(parts, tokens, spans, Payloads(images), 0);
    EmptyClosed(parts, tokens);
    assert parts[0..] == parts && Payloads(images)[0..] == Payloads(images);
    assert EscapeEach(Payloads(images)) == Payloads(images) by {
      forall i | 0 <= i < |images| ensures Escape(images[i].base64) == images[i].base64 {
        EscapeBase64(images[i].base64);
      }
    }
    assert Filled(images, Payloads(images)) == images;
  }

  lemma EmptyClosed(parts: seq<string>, fills: seq<string>)
    ensures |Closed(parts[..0], fills[..0])| == 0
  {
  }

  /** If `messages` was overridden, a splice that goes ahead loses backslashes the body has. */
  lemma SpliceDiffers(show: Json.Value -> string, req: Request, images: seq<ImageData>, spans: seq<nat>)
    requires ExtraIsObject(req) && AllBase64(images) && ReplacesMessages(req) && images != []
    requires Placed(Skeleton(show, req, images), EscapeEach(Placeholders(|images|)), spans)
    requires NonOverlapping(Skeleton(show, req, images), EscapeEach(Placeholders(|images|)), spans)
    ensures Splice(Skeleton(show, req, images), EscapeEach(Placeholders(|images|)), spans, Payloads(images), 0, 0)
         != PlainText(show, req, images)
  {
    hide PlainText, Escape, ReplacesMessages, Placeholder, Splice;
    var skeleton, tokens := Skeleton(show, req, images), EscapeEach(Placeholders(|images|));
    ReplacedIgnoresImages(show, req, Filled(images, Placeholders(|images|)), images);
    forall j | 0 <= j < |tokens| ensures '\\' in tokens[j] { PlaceholderToken(j); }
    forall j | 0 <= j < |tokens| ensures IsHit(skeleton, tokens[j], spans[j]) {
      assert UniqueHit(skeleton, tokens[j], spans[j]);
    }
    SpliceLoses(skeleton, tokens, spans, Payloads(images), '\\', 0, 0);
    assert skeleton[0..] == skeleton;
  }

  // ---------- the exception is real

  predicate NoBackslash(s: string) { forall i :: 0 <= i < |s| ==> s[i] != '\\' }

  /** A token with a backslash at both ends of its name occurs once in otherwise plain text. */
  lemma LonelyToken(a: string, name: string, b: string)
    requires NoBackslash(a) && NoBackslash(name) && NoBackslash(b) && name != ""
    ensures UniqueHit(a + ("\\u0001" + name + "\\u0001") + b, "\\u0001" + name + "\\u0001", |a|)
  {
    var token := "\\u0001" + name + "\\u0001";
    var s, last := a + token + b, |token| - 6;
    assert s[|a|..|a| + |token|] == token;
    forall i | 0 <= i < |s| && s[i] == '\\' ensures i == |a| || i == |a| + last {
      if |a| <= i < |a| + |token| { BackslashesOf(name, i - |a|); }
    }
    forall p: nat | IsHit(s, token, p) ensures p == |a| {
      assert s[p] == s[p..p + |token|][0] == '\\';
      assert s[p + last] == s[p..p + |token|][last] == '\\';
    }
  }

  lemma BackslashesOf(name: string, i: nat)
    requires NoBackslash(name) && i < |name| + 12
    ensures ("\\u0001" + name + "\\u0001")[i] == '\\' ==> i == 0 || i == |name| + 6
  {
    var mark := "\\u0001";
    var token := mark + name + mark;
    if i < 6 {
      assert token[i] == mark[i];
    } else if i < 6 + |name| {
      assert token[i] == name[i - 6];
    } else {
      assert token[i] == mark[i - 6 - |name|];
    }
  }

  lemma {:induction false} EscapePlain(s: string)
    requires forall i :: 0 <= i < |s| ==> Unescaped(s[i])
    ensures Escape(s) == s
  {
    if s != "" {
      EscapePlain(s[1..]);
      assert Unescaped(s[0]);
      assert EscapeChar(s[0]) == [s[0]];
      hide EscapeChar, Unescaped;
      assert s == [s[0]] + s[1..];
    }
  }

  const FIRST_NAME: string := "metrum-ai-image-0"

  lemma MarkEscaped()
    ensures Escape([1 as char]) == "\\u0001"
  {
    var mark := [1 as char];
    assert mark[1..] == "";
    assert Escape(mark) == EscapeChar(mark[0]) + Escape("");
    assert EscapeChar(mark[0]) == "\\u00" + [HEX[0], HEX[1]];
  }

  lemma FirstToken()
    ensures Escape(Placeholder(0)) == "\\u0001" + FIRST_NAME + "\\u0001"
  {
    hide Escape;
    var mark := [1 as char];
    assert Placeholder(0) == mark + (FIRST_NAME + mark) by {
      assert Digits(0) == "0";
      assert FIRST_NAME == "metrum-ai-image-" + "0";
    }
    EscapeAppend(mark, FIRST_NAME + mark);
    EscapeAppend(FIRST_NAME, mark);
    EscapePlain(FIRST_NAME);
    MarkEscaped();
  }

  /** The other fields of a body whose messages value is `v`, on both sides of it. */
  lemma OverrideAround(show: Json.Value -> string, req: Request, m: Json.Value, v: Json.Value, i: nat)
    requires i < |BaseFields(req, m)| && BaseFields(req, m)[i] == (MESSAGES, m)
    ensures var f := BaseFields(req, m);
      SerializeFields(show, Set(f, MESSAGES, v))
      == BeforeField(show, f[..i]) + SerializeField(show, (MESSAGES, v)) + AfterField(show, f[i + 1..])
  {
    hide SerializeFields, SerializeField, BaseFields;
    var f := BaseFields(req, m);
    BaseKeepsDifference(req, m, m);
    var g := Set(f, MESSAGES, v);
    OverrideOne(f, v, i);
    hide Set, Replace, HasKey, AtMostOnce;
    FieldsAround(show, g, i);
  }

  /** Overriding `messages` changes its one field and no other. */
  lemma OverrideOne(f: Fields, v: Json.Value, i: nat)
    requires i < |f| && f[i].0 == MESSAGES && AtMostOnce(f)
    ensures var g := Set(f, MESSAGES, v);
      |g| == |f| && g[i] == (MESSAGES, v) && g[..i] == f[..i] && g[i + 1..] == f[i + 1..]
  {
    assert HasKey(f, MESSAGES);
    hide Replace;
    var g := Set(f, MESSAGES, v);
    assert forall j :: 0 <= j < |f| && j != i ==> g[j] == f[j];
  }

  /** Overriding `messages` with the first placeholder itself makes the single-image splice go
      ahead, so the sent body differs from the plain serialization. */
  lemma OverrideIsSpliced(show: Json.Value -> string, req: Request, image: ImageData, i: nat)
    requires req.extra == Some(Json.Obj([(MESSAGES, Json.Str(Placeholder(0)))]))
    requires var f := BaseFields(req, Messages(req, Filled([image], Placeholders(1))));
      i < |f| && f[i].0 == MESSAGES && f[i].1 == Messages(req, Filled([image], Placeholders(1)))
      && NoBackslash(BeforeField(show, f[..i])) && NoBackslash(AfterField(show, f[i + 1..]))
    ensures ReplacesMessages(req)
    ensures Placeable(Skeleton(show, req, [image]), EscapeEach(Placeholders(1)))
  {
    hide SerializeFields, BaseFields, Messages, Escape, Set, Placeholder, BeforeField, AfterField;
    var m, v := Messages(req, Filled([image], Placeholders(1))), Json.Str(Placeholder(0));
    var f := BaseFields(req, m);
    var extra := [(MESSAGES, v)];
    assert ExtraFields(req) == extra && extra[0].0 == MESSAGES && extra[1..] == [];
    assert Merge(f, extra) == Merge(Set(f, MESSAGES, v), []);
    assert BodyFields(req, m) == Set(f, MESSAGES, v);
    OverrideAround(show, req, m, v, i);
    OverrideText(show, BeforeField(show, f[..i]), AfterField(show, f[i + 1..]));
    assert EscapeEach(Placeholders(1)) == [Escape(Placeholder(0))];
  }

  lemma OverrideText(show: Json.Value -> string, head: string, tail: string)
    requires NoBackslash(head) && NoBackslash(tail)
    ensures Placeable("{" + (head + SerializeField(show, (MESSAGES, Json.Str(Placeholder(0)))) + tail) + "}",
                      [Escape(Placeholder(0))])
  {
    hide Escape, Placeholder;
    FirstToken();
    EscapePlain(MESSAGES);
    var token, key := Escape(Placeholder(0)), "\"" + MESSAGES + "\"";
    var before, after := "{" + head + key + ":\"", "\"" + tail + "}";
    OverrideSplit(head, key, token, tail);
    LonelyToken(before, FIRST_NAME, after);
    OneToken(before + token + after, token, |before|);
  }

  lemma OverrideSplit(head: string, key: string, token: string, tail: string)
    ensures "{" + (head + (key + ":" + ("\"" + token + "\"")) + tail) + "}"
         == ("{" + head + key + ":\"") + token + ("\"" + tail + "}")
  {
  }

  lemma OneToken(s: string, token: string, at: nat)
    requires UniqueHit(s, token, at)
    ensures Placeable(s, [token])
  {
    hide UniqueHit;
    assert Placed(s, [token], [at]);
  }
}
