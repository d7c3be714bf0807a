/** Opaque provider state in requests and responses: content is tagged with the scope of the provider
    that issued it, and a request to a provider carries back only what that provider can read. */
module EncryptedContent {
  import opened Wrappers
  import opened Splitting
  import opened Sequences
  import opened Json

  const MARKER_PREFIX := "codexhub:enc:v1:"
  const THINKING := "thinking"
  const REDACTED_THINKING := "redacted_thinking"

  datatype Kind = Thinking | RedactedThinking

  datatype Scope = Scope(protocol: string, footprint: string) {
    /** Protocol names are fixed words and footprints are hexadecimal: neither contains a colon. */
    predicate Valid() {
      ':' !in protocol && ':' !in footprint
    }
  }

  datatype Scoped = Unmarked | Matching(content: string) | Foreign

  predicate Marked(content: string) {
    MARKER_PREFIX <= content
  }

  // ---------- the envelope ----------

  function Envelope(scope: Scope, content: string): string {
    MARKER_PREFIX + (scope.protocol + (":" + (scope.footprint + (":" + content))))
  }

  function Encode(scope: Scope, content: string): string {
    if Marked(content) then content else Envelope(scope, content)
  }

  function Decode(scope: Scope, content: string): Scoped {
    if !Marked(content) then Unmarked
    else
      var first := SplitOnce(content[|MARKER_PREFIX|..], ":");
      if first.None? then Foreign
      else
        var second := SplitOnce(first.value.after, ":");
        if second.None? then Foreign
        else if first.value.before != scope.protocol || second.value.before != scope.footprint then Foreign
        else Matching(second.value.after)
  }

  function KindMarker(kind: Kind): string {
    match kind
    case Thinking => THINKING
    case RedactedThinking => REDACTED_THINKING
  }

  /** The text inside an Anthropic envelope. */
  function KindPayload(kind: Kind, content: string): string {
    KindMarker(kind) + (":" + content)
  }

  function EncodeAnthropic(scope: Scope, kind: Kind, content: string): string {
    if Marked(content) then content else Encode(scope, KindPayload(kind, content))
  }

  function StripKind(kind: Kind, payload: string): Option<string> {
    var m := KindMarker(kind) + ":";
    if m <= payload then Some(payload[|m|..]) else None
  }

  function DecodeAnthropic(scope: Scope, content: string): Option<(Kind, string)> {
    if scope.protocol != "anthropic" then None
    else
      match Decode(scope, content)
      case Matching(payload) =>
        var thinking := StripKind(Thinking, payload);
        if thinking.Some? then Some((Thinking, thinking.value))
        else
          var redacted := StripKind(RedactedThinking, payload);
          if redacted.Some? then Some((RedactedThinking, redacted.value)) else None
      case _ => None
  }

  lemma EnvelopeOpens(issuer: Scope, content: string)
    requires issuer.Valid() && !Marked(content)
    ensures var rest := Encode(issuer, content)[|MARKER_PREFIX|..];
            && Marked(Encode(issuer, content))
            && SplitOnce(rest, ":") == Some(Parts(issuer.protocol, issuer.footprint + (":" + content)))
            && SplitOnce(issuer.footprint + (":" + content), ":") == Some(Parts(issuer.footprint, content))
  {
    var tail := issuer.footprint + (":" + content);
    assert Encode(issuer, content)[|MARKER_PREFIX|..] == issuer.protocol + (":" + tail);
    SplitsAtColon(issuer.protocol, tail);
    SplitsAtColon(issuer.footprint, content);
  }

  /** Every unmarked payload, colons included, comes back to the scope it was issued in, and is foreign
      to every other scope. */
  lemma RoundTrip(issuer: Scope, reader: Scope, content: string)
    requires issuer.Valid() && reader.Valid() && !Marked(content)
    ensures Decode(reader, Encode(issuer, content)) == (if reader == issuer then Matching(content) else Foreign)
  {
    EnvelopeOpens(issuer, content);
  }

  /** Only the envelope itself decodes: a text matches a scope exactly when it is the scope's prefix
      followed by the content. */
  lemma DecodeExact(scope: Scope, text: string, content: string)
    requires scope.Valid()
    ensures Decode(scope, text) == Matching(content) <==> text == Envelope(scope, content)
  {
    var tail := scope.footprint + (":" + content);
    if text == MARKER_PREFIX + (scope.protocol + (":" + tail)) {
      assert text[|MARKER_PREFIX|..] == scope.protocol + (":" + tail);
      SplitsAtColon(scope.protocol, tail);
      SplitsAtColon(scope.footprint, content);
    }
    if Decode(scope, text) == Matching(content) {
      var rest := text[|MARKER_PREFIX|..];
      SplitOnceExact(rest, ":");
      SplitOnceExact(SplitOnce(rest, ":").value.after, ":");
      assert text == MARKER_PREFIX + rest;
    }
  }

  lemma KindPayloadRead(kind: Kind, content: string)
    ensures !Marked(KindPayload(kind, content))
    ensures StripKind(kind, KindPayload(kind, content)) == Some(content)
    ensures kind.RedactedThinking? ==> StripKind(Thinking, KindPayload(kind, content)).None?
  {
    var payload := KindPayload(kind, content);
    assert payload[0] == KindMarker(kind)[0] != MARKER_PREFIX[0];
    assert payload == (KindMarker(kind) + ":") + content;
    if kind.RedactedThinking? {
      assert payload[0] == 'r' && (THINKING + ":")[0] == 't';
    }
  }

  /** The Anthropic envelope also keeps whether the block was thinking or redacted thinking. */
  lemma AnthropicRoundTrip(issuer: Scope, reader: Scope, kind: Kind, content: string)
    requires issuer.Valid() && reader.Valid() && !Marked(content) && issuer.protocol == "anthropic"
    ensures DecodeAnthropic(reader, EncodeAnthropic(issuer, kind, content))
            == (if reader == issuer then Some((kind, content)) else None)
  {
    KindPayloadRead(kind, content);
    RoundTrip(issuer, reader, KindPayload(kind, content));
  }

  // ---------- responses ----------

  predicate IsPrivateType(t: string) {
    t == "reasoning" || t == "compaction" || t == "compaction_summary" || t == "context_compaction"
  }

  predicate IsPrivate(fields: map<string, Value>) {
    var t := StrAt(fields, "type");
    t.Some? && IsPrivateType(t.value)
  }

  /** `encode_response_object`: the object and whether it was changed. */
  function EncodeResponse(fields: map<string, Value>, scope: Scope): (map<string, Value>, bool) {
    if scope.protocol != "anthropic" || !IsPrivate(fields) then (fields, false)
    else
      var kind := if "summary" in fields && fields["summary"] != Null then Thinking else RedactedThinking;
      var content := StrAt(fields, "encrypted_content");
      if content.None? || content.value == "" || Marked(content.value) then (fields, false)
      else (fields["encrypted_content" := Str(EncodeAnthropic(scope, kind, content.value))], true)
  }

  /** What a response item was encoded with is what the same provider decodes, block kind included;
      encoding again changes nothing. */
  lemma ResponseRoundTrip(fields: map<string, Value>, scope: Scope)
    requires scope.Valid() && EncodeResponse(fields, scope).1
    ensures var encoded := EncodeResponse(fields, scope).0;
            var kind := if "summary" in fields && fields["summary"] != Null then Thinking else RedactedThinking;
            && StrAt(encoded, "encrypted_content").Some?
            && DecodeAnthropic(scope, StrAt(encoded, "encrypted_content").value)
               == Some((kind, StrAt(fields, "encrypted_content").value))
            && EncodeResponse(encoded, scope) == (encoded, false)
  {
    var kind := if "summary" in fields && fields["summary"] != Null then Thinking else RedactedThinking;
    var content := StrAt(fields, "encrypted_content").value;
    AnthropicRoundTrip(scope, scope, kind, content);
    var payload := KindMarker(kind) + (":" + content);
    assert Marked(EncodeAnthropic(scope, kind, content)) by {
      assert payload[0] != MARKER_PREFIX[0];
    }
  }

  // ---------- one item of a request ----------

  /** The opaque content of an item that carries some. */
  function Blob(item: Value): Option<string> {
    if item.Obj? && IsPrivate(item.fields) then StrAt(item.fields, "encrypted_content") else None
  }

  predicate Empty(v: Value) {
    v == Null || v == Arr([]) || v == Str("")
  }

  predicate HasReplayableContent(fields: map<string, Value>) {
    exists key :: key in fields
      && key != "type" && key != "id" && key != "status" && key != "internal_chat_message_metadata_passthrough"
      && (key == "summary" || key == "content" ==> !Empty(fields[key]))
  }

  function RemoveTransport(fields: map<string, Value>): map<string, Value> {
    var removed := fields - {"encrypted_content", "id", "status"};
    if "content" in removed && removed["content"] == Null then removed - {"content"} else removed
  }

  datatype Fate = Untouched | Decoded | Filtered | LegacyPreserved

  /** `prepare_input_item` decides by the content alone. */
  function FateOf(item: Value, scope: Scope, dropUnmarked: bool, dropAll: bool): Fate {
    var blob := Blob(item);
    if blob.None? then Untouched
    else if dropAll then Filtered
    else
      match Decode(scope, blob.value)
      case Matching(_) => Decoded
      case Foreign => Filtered
      case Unmarked => if dropUnmarked then Filtered else LegacyPreserved
  }

  /** The item afterwards, and whether it stays in the request. */
  function Prepare(item: Value, scope: Scope, dropUnmarked: bool, dropAll: bool): (Value, bool) {
    match FateOf(item, scope, dropUnmarked, dropAll)
    case Decoded =>
      (Obj(item.fields["encrypted_content" := Str(Decode(scope, Blob(item).value).content)]), true)
    case Filtered =>
      var fields := RemoveTransport(item.fields);
      (Obj(fields), HasReplayableContent(fields))
    case _ => (item, true)
  }

  datatype Stats = Stats(decoded: nat, filtered: nat, legacyPreserved: nat, droppedItems: nat)

  const NoStats := Stats(0, 0, 0, 0)

  function Count(stats: Stats, fate: Fate, kept: bool): Stats {
    var counted := match fate
      case Untouched => stats
      case Decoded => stats.(decoded := stats.decoded + 1)
      case Filtered => stats.(filtered := stats.filtered + 1)
      case LegacyPreserved => stats.(legacyPreserved := stats.legacyPreserved + 1);
    if kept then counted else counted.(droppedItems := counted.droppedItems + 1)
  }

  function PrepareItems(items: seq<Value>, scope: Scope, dropUnmarked: bool, dropAll: bool): (seq<Value>, Stats) {
    if items == [] then ([], NoStats)
    else
      var init, last := items[..|items| - 1], items[|items| - 1];
      var (prepared, stats) := PrepareItems(init, scope, dropUnmarked, dropAll);
      var (item, kept) := Prepare(last, scope, dropUnmarked, dropAll);
      (if kept then prepared + [item] else prepared, Count(stats, FateOf(last, scope, dropUnmarked, dropAll), kept))
  }

  /** `prepare_input`. */
  function PrepareInput(body: Value, scope: Scope, dropUnmarked: bool, dropAll: bool): (Value, Stats) {
    if !body.Obj? || "input" !in body.fields then (body, NoStats)
    else
      match body.fields["input"]
      case Arr(items) =>
        var (prepared, stats) := PrepareItems(items, scope, dropUnmarked, dropAll);
        (if prepared == [] then Obj(body.fields - {"input"}) else Obj(body.fields["input" := Arr(prepared)]), stats)
      case Obj(_) =>
        var input := body.fields["input"];
        var (item, kept) := Prepare(input, scope, dropUnmarked, dropAll);
        (if kept then Obj(body.fields["input" := item]) else Obj(body.fields - {"input"}),
         Count(NoStats, FateOf(input, scope, dropUnmarked, dropAll), kept))
      case _ => (body, NoStats)
  }

  /** A request whose body is edited in place. */
  class Request {
    var body: Value

    constructor (body: Value)
      ensures this.body == body
    {
      this.body := body;
    }

    method PrepareBody(scope: Scope, dropUnmarked: bool, dropAll: bool) returns (stats: Stats)
      modifies this
      ensures (body, stats) == PrepareInput(old(body), scope, dropUnmarked, dropAll)
    {
      stats := NoStats;
      if !body.Obj? || "input" !in body.fields {
        return;
      }
      ghost var fields := body.fields;
      var input := body.fields["input"];
      var removeInput := false;
      if input.Arr? {
        var kept: seq<Value> := [];
        for i := 0 to |input.items|
          invariant (kept, stats) == PrepareItems(input.items[..i], scope, dropUnmarked, dropAll)
        {
          var (item, keep) := Prepare(input.items[i], scope, dropUnmarked, dropAll);
          stats := Count(stats, FateOf(input.items[i], scope, dropUnmarked, dropAll), keep);
          if keep {
            kept := kept + [item];
          }
          assert input.items[..i + 1][..i] == input.items[..i];
        }
        assert input.items[..|input.items|] == input.items;
        removeInput := kept == [];
        body := Obj(body.fields["input" := Arr(kept)]);
      } else if input.Obj? {
        var (item, keep) := Prepare(input, scope, dropUnmarked, dropAll);
        stats := Count(stats, FateOf(input, scope, dropUnmarked, dropAll), keep);
        removeInput := !keep;
        body := Obj(body.fields["input" := item]);
      }
      if removeInput {
        assert body.fields - {"input"} == fields - {"input"};
        body := Obj(body.fields - {"input"});
      }
    }
  }

  // ---------- what preparing a request achieves ----------

  function KeptBefore(items: seq<Value>, scope: Scope, dropUnmarked: bool, dropAll: bool, i: nat): nat
    requires i <= |items|
  {
    |PrepareItems(items[..i], scope, dropUnmarked, dropAll).0|
  }

  lemma {:induction false} PrepareItemsPrefix(items: seq<Value>, scope: Scope, dropUnmarked: bool, dropAll: bool,
                                              i: nat)
    requires i <= |items|
    ensures PrepareItems(items[..i], scope, dropUnmarked, dropAll).0
            <= PrepareItems(items, scope, dropUnmarked, dropAll).0
    decreases |items|
  {
    if i == |items| {
      assert items[..i] == items;
    } else {
      assert items[..|items| - 1][..i] == items[..i];
      PrepareItemsPrefix(items[..|items| - 1], scope, dropUnmarked, dropAll, i);
    }
  }

  /** Order and content of the prepared items: item `i` stands right after the kept items before it when
      it is kept itself, and nothing else is there. */
  lemma ItemsKeepOrder(items: seq<Value>, scope: Scope, dropUnmarked: bool, dropAll: bool, i: nat)
    requires i < |items|
    ensures var prepared := PrepareItems(items, scope, dropUnmarked, dropAll).0;
            var (item, kept) := Prepare(items[i], scope, dropUnmarked, dropAll);
            var before := KeptBefore(items, scope, dropUnmarked, dropAll, i);
            && KeptBefore(items, scope, dropUnmarked, dropAll, i + 1) == before + (if kept then 1 else 0) <= |prepared|
            && (kept ==> prepared[before] == item)
            && KeptBefore(items, scope, dropUnmarked, dropAll, |items|) == |prepared|
  {
    PrepareItemsPrefix(items, scope, dropUnmarked, dropAll, i + 1);
    assert items[..i + 1][..i] == items[..i];
    assert items[..|items|] == items;
  }

  function CarryingBlobs(items: seq<Value>): nat {
    if items == [] then 0
    else CarryingBlobs(items[..|items| - 1]) + (if Blob(items[|items| - 1]).Some? then 1 else 0)
  }

  /** The statistics add up: every private item with string content is counted exactly once, and the
      dropped items are the ones that are missing afterwards. */
  lemma {:induction false} StatsAddUp(items: seq<Value>, scope: Scope, dropUnmarked: bool, dropAll: bool)
    ensures var (prepared, stats) := PrepareItems(items, scope, dropUnmarked, dropAll);
            && stats.decoded + stats.filtered + stats.legacyPreserved == CarryingBlobs(items)
            && stats.droppedItems + |prepared| == |items|
  {
    if items != [] {
      StatsAddUp(items[..|items| - 1], scope, dropUnmarked, dropAll);
    }
  }

  predicate ForeignTo(item: Value, scope: Scope) {
    Blob(item).Some? && Decode(scope, Blob(item).value) == Foreign
  }

  /** The payload a matching item is restored to. */
  function Restored(item: Value, scope: Scope): Option<string> {
    if Blob(item).Some? && Decode(scope, Blob(item).value).Matching?
    then Some(Decode(scope, Blob(item).value).content)
    else None
  }

  lemma PreparedBlob(item: Value, scope: Scope, dropUnmarked: bool, dropAll: bool)
    ensures Blob(Prepare(item, scope, dropUnmarked, dropAll).0)
            == match FateOf(item, scope, dropUnmarked, dropAll)
               case Decoded => Restored(item, scope)
               case LegacyPreserved => Blob(item)
               case _ => None
  {
    if FateOf(item, scope, dropUnmarked, dropAll) == Filtered {
      var fields := RemoveTransport(item.fields);
      assert "encrypted_content" !in fields;
    }
  }

  /** An item of the prepared request comes from a kept item of the original one. */
  lemma {:induction false} PreparedFrom(items: seq<Value>, scope: Scope, dropUnmarked: bool, dropAll: bool, j: nat)
    returns (i: nat)
    requires j < |PrepareItems(items, scope, dropUnmarked, dropAll).0|
    ensures i < |items|
    ensures Prepare(items[i], scope, dropUnmarked, dropAll)
            == (PrepareItems(items, scope, dropUnmarked, dropAll).0[j], true)
  {
    var init := items[..|items| - 1];
    var prepared := PrepareItems(init, scope, dropUnmarked, dropAll).0;
    if j < |prepared| {
      i := PreparedFrom(init, scope, dropUnmarked, dropAll, j);
    } else {
      i := |items| - 1;
    }
  }

  /** No foreign content leaves in a prepared request, unless a restored payload was itself marked for
      somebody else: the prepared items are free of foreign content exactly when no matching item's
      payload is foreign. */
  lemma NoForeignContentLeaves(items: seq<Value>, scope: Scope, dropUnmarked: bool)
    ensures var prepared := PrepareItems(items, scope, dropUnmarked, false).0;
            (forall j :: 0 <= j < |prepared| ==> !ForeignTo(prepared[j], scope))
            <==> forall i :: 0 <= i < |items| && Restored(items[i], scope).Some? ==>
                   Decode(scope, Restored(items[i], scope).value) != Foreign
  {
    var prepared := PrepareItems(items, scope, dropUnmarked, false).0;
    forall j | 0 <= j < |prepared| && ForeignTo(prepared[j], scope)
      ensures exists i :: 0 <= i < |items| && Restored(items[i], scope).Some?
                          && Decode(scope, Restored(items[i], scope).value) == Foreign
    {
      var i := PreparedFrom(items, scope, dropUnmarked, false, j);
      PreparedBlob(items[i], scope, dropUnmarked, false);
      assert Restored(items[i], scope).Some?;
    }
    forall i | 0 <= i < |items| && Restored(items[i], scope).Some?
        && Decode(scope, Restored(items[i], scope).value) == Foreign
      ensures exists j :: 0 <= j < |prepared| && ForeignTo(prepared[j], scope)
    {
      ItemsKeepOrder(items, scope, dropUnmarked, false, i);
      PreparedBlob(items[i], scope, dropUnmarked, false);
      var j := KeptBefore(items, scope, dropUnmarked, false, i);
      assert prepared[j] == Prepare(items[i], scope, dropUnmarked, false).0;
      assert ForeignTo(prepared[j], scope);
    }
  }

  predicate Settled(item: Value, scope: Scope) {
    Prepare(item, scope, false, false) == (item, true)
  }

  lemma {:induction false} SettledStay(items: seq<Value>, scope: Scope)
    requires forall i :: 0 <= i < |items| ==> Settled(items[i], scope)
    ensures PrepareItems(items, scope, false, false).0 == items
  {
    if items != [] {
      var n := |items| - 1;
      SettledStay(items[..n], scope);
      assert Settled(items[n], scope);
      assert items == items[..n] + [items[n]];
    }
  }

  lemma {:induction false} StayingSettled(items: seq<Value>, scope: Scope)
    requires PrepareItems(items, scope, false, false).0 == items
    ensures forall i :: 0 <= i < |items| ==> Settled(items[i], scope)
  {
    if items != [] {
      var n := |items| - 1;
      StatsAddUp(items[..n], scope, false, false);
      var prepared := PrepareItems(items[..n], scope, false, false).0;
      var (item, kept) := Prepare(items[n], scope, false, false);
      assert items == items[..n] + [items[n]];
      assert kept;
      SnocEqual(prepared, items[..n], item, items[n]);
      StayingSettled(items[..n], scope);
    }
  }

  lemma MatchingIsShorter(scope: Scope, content: string)
    requires Decode(scope, content).Matching?
    ensures |Decode(scope, content).content| < |content|
  {
    var rest := content[|MARKER_PREFIX|..];
    SplitOnceExact(rest, ":");
    SplitOnceExact(SplitOnce(rest, ":").value.after, ":");
  }

  /** An item that would stay as it is: it carries no private content, or unmarked content. */
  lemma SettledExactly(item: Value, scope: Scope)
    ensures Settled(item, scope) <==> Blob(item).None? || !Marked(Blob(item).value)
  {
    if Blob(item).Some? && Decode(scope, Blob(item).value).Matching? {
      MatchingIsShorter(scope, Blob(item).value);
      assert Prepare(item, scope, false, false).0.fields["encrypted_content"] != item.fields["encrypted_content"];
    }
    if ForeignTo(item, scope) {
      assert "encrypted_content" !in RemoveTransport(item.fields);
    }
  }

  /** Preparing twice is preparing once, exactly when no restored payload is itself marked. */
  lemma IdempotentExactly(items: seq<Value>, scope: Scope)
    ensures var prepared := PrepareItems(items, scope, false, false).0;
            PrepareItems(prepared, scope, false, false).0 == prepared
            <==> forall i :: 0 <= i < |items| && Restored(items[i], scope).Some? ==>
                !Marked(Restored(items[i], scope).value)
  {
    var prepared := PrepareItems(items, scope, false, false).0;
    if forall j :: 0 <= j < |prepared| ==> Settled(prepared[j], scope) {
      SettledStay(prepared, scope);
    }
    if PrepareItems(prepared, scope, false, false).0 == prepared {
      StayingSettled(prepared, scope);
    }
    forall j | 0 <= j < |prepared| && !Settled(prepared[j], scope)
      ensures exists i :: 0 <= i < |items| && Restored(items[i], scope).Some? && Marked(Restored(items[i], scope).value)
    {
      var i := PreparedFrom(items, scope, false, false, j);
      SettledExactly(prepared[j], scope);
      PreparedBlob(items[i], scope, false, false);
      assert Restored(items[i], scope).Some? && Marked(Restored(items[i], scope).value);
    }
    forall i | 0 <= i < |items| && Restored(items[i], scope).Some? && Marked(Restored(items[i], scope).value)
      ensures exists j :: 0 <= j < |prepared| && !Settled(prepared[j], scope)
    {
      ItemsKeepOrder(items, scope, false, false, i);
      PreparedBlob(items[i], scope, false, false);
      var j := KeptBefore(items, scope, false, false, i);
      assert prepared[j] == Prepare(items[i], scope, false, false).0;
      SettledExactly(prepared[j], scope);
      assert !Settled(prepared[j], scope);
    }
  }

  function ReasoningItem(content: string): Value {
    Obj(map["type" := Str("reasoning"), "encrypted_content" := Str(content)])
  }

  lemma ReasoningBlob(content: string)
    ensures Blob(ReasoningItem(content)) == Some(content)
  {
  }

  /** Any content at all, marked or not, is restored from an envelope around it. */
  lemma NestedRestored(scope: Scope, inner: string)
    requires scope.Valid()
    ensures Restored(ReasoningItem(Envelope(scope, inner)), scope) == Some(inner)
    ensures Prepare(ReasoningItem(Envelope(scope, inner)), scope, false, false) == (ReasoningItem(inner), true)
  {
    DecodeExact(scope, Envelope(scope, inner), inner);
    var item := ReasoningItem(Envelope(scope, inner));
    ReasoningBlob(Envelope(scope, inner));
    assert item.fields["encrypted_content" := Str(inner)] == ReasoningItem(inner).fields;
  }

  lemma ForeignReasoningDropped(scope: Scope, content: string)
    requires Decode(scope, content) == Foreign
    ensures ForeignTo(ReasoningItem(content), scope) && !Prepare(ReasoningItem(content), scope, false, false).1
  {
    ReasoningBlob(content);
    assert forall key :: key in RemoveTransport(ReasoningItem(content).fields) ==> key == "type";
  }

  /** A foreign envelope inside the reader's own one: preparing the request lets the foreign content out, and
      preparing it again drops the item. */
  lemma MarkedPayloadLeaves()
    ensures var reader, other := Scope("anthropic", "0a"), Scope("grok", "0b");
            var foreign := Envelope(other, "x");
            var prepared := PrepareItems([ReasoningItem(Envelope(reader, foreign))], reader, false, false).0;
            && prepared == [ReasoningItem(foreign)] && ForeignTo(prepared[0], reader)
            && PrepareItems(prepared, reader, false, false).0 == []
  {
    var reader, other := Scope("anthropic", "0a"), Scope("grok", "0b");
    var foreign := Envelope(other, "x");
    NestedRestored(reader, foreign);
    RoundTrip(other, reader, "x");
    ForeignReasoningDropped(reader, foreign);
    assert [ReasoningItem(Envelope(reader, foreign))][..0] == [] && [ReasoningItem(foreign)][..0] == [];
  }

  // ---------- the whole request ----------

  /** The items a request carries under `input`, as a list or as a single object. */
  function InputItems(body: Value): seq<Value> {
    if !body.Obj? || "input" !in body.fields then []
    else
      match body.fields["input"]
      case Arr(items) => items
      case Obj(_) => [body.fields["input"]]
      case _ => []
  }

  lemma PrepareOne(item: Value, scope: Scope, dropUnmarked: bool, dropAll: bool)
    ensures var (prepared, kept) := Prepare(item, scope, dropUnmarked, dropAll);
            && PrepareItems([item], scope, dropUnmarked, dropAll)
               == (if kept then [prepared] else [], Count(NoStats, FateOf(item, scope, dropUnmarked, dropAll), kept))
            && (item.Obj? ==> prepared.Obj?)
  {
    var none: seq<Value> := [];
    var (prepared, _) := Prepare(item, scope, dropUnmarked, dropAll);
    assert [item][..|[item]| - 1] == none && none + [prepared] == [prepared];
    assert PrepareItems(none, scope, dropUnmarked, dropAll) == ([], NoStats);
  }

  /** Preparing a request prepares its items, as above, and touches nothing else of it. */
  lemma RequestPreparesItems(body: Value, scope: Scope, dropUnmarked: bool, dropAll: bool)
    ensures var (prepared, stats) := PrepareInput(body, scope, dropUnmarked, dropAll);
            && (InputItems(prepared), stats) == PrepareItems(InputItems(body), scope, dropUnmarked, dropAll)
            && (body.Obj? ==> prepared.Obj? && prepared.fields - {"input"} == body.fields - {"input"})
            && (!body.Obj? ==> prepared == body)
  {
    if body.Obj? && "input" in body.fields && body.fields["input"].Obj? {
      PrepareOne(body.fields["input"], scope, dropUnmarked, dropAll);
    }
  }

  lemma SameItemsSameRequest(body: Value, scope: Scope)
    requires InputItems(PrepareInput(body, scope, false, false).0) == InputItems(body)
    requires body.Obj? && "input" in body.fields && body.fields["input"].Arr? ==> InputItems(body) != []
    ensures PrepareInput(body, scope, false, false).0 == body
  {
    RequestPreparesItems(body, scope, false, false);
    if body.Obj? && "input" in body.fields {
      var input := body.fields["input"];
      var prepared := PrepareInput(body, scope, false, false).0;
      if input.Arr? {
        assert prepared.fields == body.fields["input" := input];
        assert body.fields["input" := input] == body.fields;
      } else if input.Obj? {
        var (item, kept) := Prepare(input, scope, false, false);
        assert InputItems(prepared) == [input];
        assert kept && item == input;
        assert body.fields["input" := input] == body.fields;
      }
    }
  }

  /** Preparing a prepared request changes nothing exactly when no restored payload is itself marked. */
  lemma RequestIdempotentExactly(body: Value, scope: Scope)
    ensures var prepared := PrepareInput(body, scope, false, false).0; var items := InputItems(body);
            PrepareInput(prepared, scope, false, false).0 == prepared
            <==> forall i :: 0 <= i < |items| && Restored(items[i], scope).Some? ==>
                !Marked(Restored(items[i], scope).value)
  {
    var prepared := PrepareInput(body, scope, false, false).0;
    var again := PrepareInput(prepared, scope, false, false).0;
    RequestPreparesItems(body, scope, false, false);
    RequestPreparesItems(prepared, scope, false, false);
    IdempotentExactly(InputItems(body), scope);
    if InputItems(again) == InputItems(prepared) {
      SameItemsSameRequest(prepared, scope);
    }
  }

}
