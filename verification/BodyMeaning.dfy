/** What a request body carries, key by key, without saying how it is put together
    (src/vlm.rs:298-406, src/request.rs:8-27). */
module BodyMeaning {
  import opened Sequences
  import opened RequestBody
  import Json

  // ---------- looking a key up

  lemma {:induction false} ReplaceLookup(f: Fields, k: string, v: Json.Value, key: string)
    ensures Json.Lookup(Replace(f, k, v), key) ==
      if key == k && HasKey(f, k) then Some(v) else Json.Lookup(f, key)
    ensures HasKey(f, key) <==> Json.Lookup(f, key).Some?
  {
    if f != [] {
      ReplaceLookup(f[1..], k, v, key);
      HasKeyCons(f, k);
      HasKeyCons(f, key);
    }
  }

  lemma HasKeyCons(f: Fields, key: string)
    requires f != []
    ensures HasKey(f, key) <==> f[0].0 == key || HasKey(f[1..], key)
  {
    if HasKey(f[1..], key) {
      var i :| 0 <= i < |f[1..]| && f[1..][i].0 == key;
      assert f[i + 1].0 == key;
    }
    if HasKey(f, key) && f[0].0 != key {
      var i :| 0 <= i < |f| && f[i].0 == key;
      assert f[1..][i - 1].0 == key;
    }
  }

  lemma {:induction false} LookupAppend(f: Fields, g: Fields, key: string)
    ensures Json.Lookup(f + g, key) ==
      if Json.Lookup(f, key).Some? then Json.Lookup(f, key) else Json.Lookup(g, key)
  {
    if f == [] {
      assert f + g == g;
    } else {
      assert (f + g)[1..] == f[1..] + g;
      LookupAppend(f[1..], g, key);
    }
  }

  /** Setting a key changes what that key carries and nothing else. */
  lemma SetLookup(f: Fields, k: string, v: Json.Value, key: string)
    ensures Json.Lookup(Set(f, k, v), key) == if key == k then Some(v) else Json.Lookup(f, key)
  {
    ReplaceLookup(f, k, v, key);
    ReplaceLookup(f, k, v, k);
    if !HasKey(f, k) {
      var n := Slot(f, k);
      assert f == f[..n] + f[n..];
      assert [(k, v)][1..] == [];
      LookupAppend(f[..n], f[n..], key);
      LookupAppend(f[..n] + [(k, v)], f[n..], key);
      LookupAppend(f[..n], [(k, v)], key);
      LookupAppend(f[..n], f[n..], k);
    }
  }

  lemma {:induction false} UnsetLookup(f: Fields, k: string, key: string)
    ensures Json.Lookup(Unset(f, k), key) == if key == k then None else Json.Lookup(f, key)
  {
    if f != [] {
      UnsetLookup(f[1..], k, key);
      assert ([f[0]] + Unset(f[1..], k))[1..] == Unset(f[1..], k);
      assert [] + Unset(f[1..], k) == Unset(f[1..], k);
    }
  }

  // ---------- overrides

  /** The last override of a key, if there is one. */
  ghost predicate LastOverride(extra: Fields, key: string, v: Option<Json.Value>) {
    if v.None? then !HasKey(extra, key)
    else exists i :: 0 <= i < |extra| && extra[i] == (key, v.value) && !HasKey(extra[i + 1..], key)
  }

  /** What a key carries after its last override: null removes it. */
  function Override(v: Option<Json.Value>, base: Option<Json.Value>): Option<Json.Value> {
    if v.None? then base else if v.value.Null? then None else v
  }

  lemma {:induction false} MergeLookup(base: Fields, extra: Fields, key: string) returns (v: Option<Json.Value>)
    ensures LastOverride(extra, key, v)
    ensures Json.Lookup(Merge(base, extra), key) == Override(v, Json.Lookup(base, key))
    decreases |extra|
  {
    hide Set, Unset;
    if extra == [] {
      v := None;
    } else {
      var (k, x) := extra[0];
      var next := if x.Null? then Unset(base, k) else Set(base, k, x);
      if x.Null? { UnsetLookup(base, k, key); } else { SetLookup(base, k, x, key); }
      var later := MergeLookup(next, extra[1..], key);
      v := if later.Some? then later else if k == key then Some(x) else None;
      hide Merge;
      OverrideCons(extra, key, later, v);
    }
  }

  lemma OverrideCons(extra: Fields, key: string, later: Option<Json.Value>, v: Option<Json.Value>)
    requires extra != [] && LastOverride(extra[1..], key, later)
    requires v == if later.Some? then later else if extra[0].0 == key then Some(extra[0].1) else None
    ensures LastOverride(extra, key, v)
  {
    HasKeyCons(extra, key);
    if later.Some? {
      var i :| 0 <= i < |extra[1..]| && extra[1..][i] == (key, later.value) && !HasKey(extra[1..][i + 1..], key);
      assert extra[i + 1] == (key, later.value) && extra[1..][i + 1..] == extra[i + 2..];
    } else if extra[0].0 == key {
      assert extra[0] == (key, extra[0].1);
    }
  }

  // ---------- messages

  ghost predicate IsMessage(m: Json.Value, role: string, content: Json.Value) {
    && m.Obj? && |m.fields| == 2
    && Json.Get(m, "role") == Some(Json.Str(role)) && Json.Get(m, "content") == Some(content)
  }

  ghost predicate IsText(part: Json.Value, text: string) {
    && part.Obj? && |part.fields| == 2
    && Json.Get(part, "type") == Some(Json.Str("text")) && Json.Get(part, "text") == Some(Json.Str(text))
  }

  /** Base64 inline as a data URL, or the original URL for the server to fetch. */
  ghost predicate IsImage(part: Json.Value, req: Request, image: ImageData) {
    && part.Obj? && |part.fields| == 2 && Json.Get(part, "type") == Some(Json.Str("image_url"))
    && var inner := Json.Get(part, "image_url");
       && inner.Some? && inner.value.Obj? && |inner.value.fields| == 2
       && Json.Get(inner.value, "detail") == Some(Json.Str(req.detail))
       && Json.Get(inner.value, "url") == Some(Json.Str(
            if req.serverSideDownload then image.url else "data:" + image.mime + ";base64," + image.base64))
  }

  /** The prompt, if there is one, then the images in order. */
  ghost predicate IsContent(parts: seq<Json.Value>, req: Request, images: seq<ImageData>) {
    var n := if req.prompt == "" then 0 else 1;
    && |parts| == n + |images|
    && (n == 1 ==> IsText(parts[0], req.prompt))
    && forall k :: 0 <= k < |images| ==> IsImage(parts[n + k], req, images[k])
  }

  /** The system prompt, if there is one, then one user message. */
  ghost predicate IsConversation(messages: Json.Value, req: Request, images: seq<ImageData>) {
    && messages.Arr?
    && var n := if req.system == "" then 0 else 1;
       && |messages.items| == n + 1
       && (n == 1 ==> IsMessage(messages.items[0], "system", Json.Str(req.system)))
       && exists parts :: IsMessage(messages.items[n], "user", Json.Arr(parts)) && IsContent(parts, req, images)
  }

  lemma TwoKeys(a: string, x: Json.Value, b: string, y: Json.Value)
    requires a != b
    ensures Json.Lookup([(a, x), (b, y)], a) == Some(x) && Json.Lookup([(a, x), (b, y)], b) == Some(y)
  {
    assert [(a, x), (b, y)][1..] == [(b, y)];
  }

  lemma Different()
    ensures "content" != "role" && "detail" != "url" && "image_url" != "type" && "text" != "type"
  {
    assert "content"[0] != "role"[0] && "detail"[0] != "url"[0] && "image_url"[0] != "type"[0];
    assert "text"[1] != "type"[1];
  }

  lemma ImagePartIs(req: Request, image: ImageData)
    ensures IsImage(ImagePart(req, image), req, image)
  {
    Different();
    var url := Json.Str(if req.serverSideDownload then image.url else "data:" + image.mime + ";base64," + image.base64);
    TwoKeys("detail", Json.Str(req.detail), "url", url);
    TwoKeys("image_url", Json.Obj([("detail", Json.Str(req.detail)), ("url", url)]), "type", Json.Str("image_url"));
  }

  lemma {:induction false} ImagePartsAre(req: Request, images: seq<ImageData>)
    ensures |ImageParts(req, images)| == |images|
    ensures forall k :: 0 <= k < |images| ==> IsImage(ImageParts(req, images)[k], req, images[k])
  {
    hide IsImage, ImagePart;
    if images != [] {
      ImagePartIs(req, images[0]);
      ImagePartsAre(req, images[1..]);
    }
  }

  lemma ContentIs(req: Request, images: seq<ImageData>)
    ensures IsContent(TextParts(req) + ImageParts(req, images), req, images)
  {
    hide IsImage, ImageParts;
    ImagePartsAre(req, images);
    Different();
    TwoKeys("text", Json.Str(req.prompt), "type", Json.Str("text"));
  }

  lemma MessagesAre(req: Request, images: seq<ImageData>)
    ensures IsConversation(Messages(req, images), req, images)
  {
    hide IsContent, ImageParts, TextParts;
    ContentIs(req, images);
    Different();
    var parts := TextParts(req) + ImageParts(req, images);
    TwoKeys("content", Json.Arr(parts), "role", Json.Str("user"));
    TwoKeys("content", Json.Str(req.system), "role", Json.Str("system"));
    assert IsMessage(UserMessage(parts), "user", Json.Arr(parts));
  }

  // ---------- the body

  /** What a key carries when nothing overrides it. */
  ghost predicate Requested(req: Request, images: seq<ImageData>, key: string, v: Option<Json.Value>) {
    if key == "model" then v == Some(Json.Str(req.model))
    else if key == "messages" then v.Some? && IsConversation(v.value, req, images)
    else if key == "max_tokens" then v == Some(req.maxTokens)
    else if key == "temperature" then v == Some(req.temperature)
    else if key == "stream" then v == Some(Json.Bool(req.streaming))
    else if key == "ignore_eos" then v == if req.ignoreEos then Some(Json.Bool(true)) else None
    else if key == "min_tokens" then v == req.minTokens
    else if key == "stream_options" then
      if req.streaming then
        && v.Some? && v.value.Obj? && |v.value.fields| == 1
        && Json.Get(v.value, "include_usage") == Some(Json.Bool(true))
      else v.None?
    else v.None?
  }

  /** Every key carries the last override of it or, without one, what the request asks for. */
  ghost predicate Carries(req: Request, images: seq<ImageData>, body: Json.Value) {
    forall key :: CarriesKey(req, images, body, key)
  }

  ghost predicate CarriesKey(req: Request, images: seq<ImageData>, body: Json.Value, key: string) {
    exists over, asked ::
      LastOverride(if req.extra.Some? && req.extra.value.Obj? then req.extra.value.fields else [], key, over)
      && Requested(req, images, key, asked)
      && Json.Get(body, key) == Override(over, asked)
  }

  lemma BaseLookup(req: Request, messages: Json.Value, key: string)
    ensures Json.Lookup(BaseFields(req, messages), key) ==
      if key == "stream_options" then
        if req.streaming then Some(Json.Obj([("include_usage", Json.Bool(true))])) else None
      else if key == "min_tokens" then req.minTokens
      else if key == "ignore_eos" then if req.ignoreEos then Some(Json.Bool(true)) else None
      else if key == "stream" then Some(Json.Bool(req.streaming))
      else if key == "temperature" then Some(req.temperature)
      else if key == "max_tokens" then Some(req.maxTokens)
      else if key == "messages" then Some(messages)
      else if key == "model" then Some(Json.Str(req.model))
      else None
  {
    hide Set;
    var f1 := Set([], "model", Json.Str(req.model));
    var f2 := Set(f1, MESSAGES, messages);
    var f3 := Set(f2, "max_tokens", req.maxTokens);
    var f4 := Set(f3, "temperature", req.temperature);
    var f5 := Set(f4, "stream", Json.Bool(req.streaming));
    var f6 := if req.ignoreEos then Set(f5, "ignore_eos", Json.Bool(true)) else f5;
    var f7 := if req.minTokens.Some? then Set(f6, "min_tokens", req.minTokens.value) else f6;
    SetLookup([], "model", Json.Str(req.model), key);
    SetLookup(f1, MESSAGES, messages, key);
    SetLookup(f2, "max_tokens", req.maxTokens, key);
    SetLookup(f3, "temperature", req.temperature, key);
    SetLookup(f4, "stream", Json.Bool(req.streaming), key);
    SetLookup(f5, "ignore_eos", Json.Bool(true), key);
    if req.minTokens.Some? { SetLookup(f6, "min_tokens", req.minTokens.value, key); }
    SetLookup(f7, "stream_options", Json.Obj([("include_usage", Json.Bool(true))]), key);
  }

  lemma BaseIsRequested(req: Request, images: seq<ImageData>, key: string)
    ensures Requested(req, images, key, Json.Lookup(BaseFields(req, Messages(req, images)), key))
  {
    hide BaseFields, Messages, IsConversation;
    BaseLookup(req, Messages(req, images), key);
    MessagesAre(req, images);
  }

  /** For every request, prompt, image list and extra object, every key of the body is right. */
  lemma BodyCarries(req: Request, images: seq<ImageData>)
    requires ExtraIsObject(req)
    ensures Carries(req, images, BuildRequestBody(req, images).value)
  {
    hide BaseFields, Messages, Merge, Requested, LastOverride;
    var body := BuildRequestBody(req, images).value;
    forall key ensures CarriesKey(req, images, body, key) {
      var over := MergeLookup(BaseFields(req, Messages(req, images)), ExtraFields(req), key);
      BaseIsRequested(req, images, key);
    }
  }

  // ---------- keys are sorted and unique

  ghost predicate Sorted(f: Fields) { forall i, j :: 0 <= i < j < |f| ==> Less(f[i].0, f[j].0) }

  lemma {:induction false} LessTotal(a: string, b: string)
    ensures a == b || Less(a, b) || Less(b, a)
    ensures !(Less(a, b) && Less(b, a)) && !Less(a, a)
  {
    if a != "" && b != "" {
      LessTotal(a[1..], b[1..]);
      LessTotal(a[1..], a[1..]);
      assert a == [a[0]] + a[1..] && b == [b[0]] + b[1..];
    } else if a != "" {
      LessTotal(a[1..], a[1..]);
    }
  }

  lemma {:induction false} LessChain(a: string, b: string, c: string)
    requires Less(a, b) && Less(b, c)
    ensures Less(a, c)
  {
    if a != "" && a[0] == b[0] && b[0] == c[0] { LessChain(a[1..], b[1..], c[1..]); }
  }

  lemma {:induction false} SlotSplits(f: Fields, key: string)
    requires Sorted(f) && !HasKey(f, key)
    ensures forall i :: 0 <= i < Slot(f, key) ==> Less(f[i].0, key)
    ensures forall i :: Slot(f, key) <= i < |f| ==> Less(key, f[i].0)
  {
    if f != [] {
      HasKeyCons(f, key);
      LessTotal(key, f[0].0);
      if Less(key, f[0].0) {
        forall i | 0 < i < |f| ensures Less(key, f[i].0) { LessChain(key, f[0].0, f[i].0); }
      } else {
        assert forall i :: 0 <= i < |f| - 1 ==> f[1..][i] == f[i + 1];
        SlotSplits(f[1..], key);
        forall i | Slot(f, key) <= i < |f| ensures Less(key, f[i].0) { assert f[i] == f[1..][i - 1]; }
        forall i | 0 < i < Slot(f, key) ensures Less(f[i].0, key) { assert f[i] == f[1..][i - 1]; }
      }
    }
  }

  lemma SetSorted(f: Fields, key: string, v: Json.Value)
    requires Sorted(f)
    ensures Sorted(Set(f, key, v))
  {
    hide Less;
    if !HasKey(f, key) {
      var k := Slot(f, key);
      SlotSplits(f, key);
      var g := f[..k] + [(key, v)] + f[k..];
      assert forall i :: 0 <= i < |g| ==> g[i].0 == if i < k then f[i].0 else if i == k then key else f[i - 1].0;
    }
  }

  lemma {:induction false} UnsetSorted(f: Fields, key: string)
    requires Sorted(f)
    ensures Sorted(Unset(f, key))
    ensures forall i :: 0 <= i < |Unset(f, key)| ==> HasKey(f, Unset(f, key)[i].0)
  {
    hide Less;
    if f != [] {
      UnsetSorted(f[1..], key);
      var rest, g := Unset(f[1..], key), Unset(f, key);
      forall i | 0 <= i < |rest| ensures HasKey(f, rest[i].0) && Less(f[0].0, rest[i].0) {
        var j :| 0 <= j < |f[1..]| && f[1..][j].0 == rest[i].0;
        assert f[j + 1].0 == rest[i].0;
      }
      assert HasKey(f, f[0].0);
      assert g == (if f[0].0 == key then [] else [f[0]]) + rest;
    }
  }

  lemma {:induction false} MergeSorted(base: Fields, extra: Fields)
    requires Sorted(base)
    ensures Sorted(Merge(base, extra))
    decreases |extra|
  {
    hide Sorted, Set, Unset;
    if extra != [] {
      SetSorted(base, extra[0].0, extra[0].1);
      UnsetSorted(base, extra[0].0);
      MergeSorted(if extra[0].1.Null? then Unset(base, extra[0].0) else Set(base, extra[0].0, extra[0].1), extra[1..]);
    }
  }

  /** The body is an object with every key once, in order; with `BodyCarries` that determines it. */
  lemma BodySorted(req: Request, images: seq<ImageData>)
    requires ExtraIsObject(req)
    ensures BuildRequestBody(req, images).value.Obj? && Sorted(BuildRequestBody(req, images).value.fields)
  {
    hide Sorted, Set, Merge, Messages;
    var messages := Messages(req, images);
    NothingSorted();
    var f1 := Set([], "model", Json.Str(req.model));
    var f2 := Set(f1, MESSAGES, messages);
    var f3 := Set(f2, "max_tokens", req.maxTokens);
    var f4 := Set(f3, "temperature", req.temperature);
    var f5 := Set(f4, "stream", Json.Bool(req.streaming));
    var f6 := if req.ignoreEos then Set(f5, "ignore_eos", Json.Bool(true)) else f5;
    var f7 := if req.minTokens.Some? then Set(f6, "min_tokens", req.minTokens.value) else f6;
    SetSorted([], "model", Json.Str(req.model));
    SetSorted(f1, MESSAGES, messages);
    SetSorted(f2, "max_tokens", req.maxTokens);
    SetSorted(f3, "temperature", req.temperature);
    SetSorted(f4, "stream", Json.Bool(req.streaming));
    SetSorted(f5, "ignore_eos", Json.Bool(true));
    if req.minTokens.Some? { SetSorted(f6, "min_tokens", req.minTokens.value); }
    SetSorted(f7, "stream_options", Json.Obj([("include_usage", Json.Bool(true))]));
    MergeSorted(BaseFields(req, messages), ExtraFields(req));
  }

  lemma NothingSorted()
    ensures Sorted([])
  {
  }
}
