/** Restoring the persisted conversation/thread bindings when the daemon starts: padded threads, keys that
    no configured Telegram target answers to, and second claims on a thread are dropped. */
module PersistedBindings {
  import opened Wrappers
  import opened Text
  import opened Splitting
  import opened Decimals

  datatype ProjectGroup = ProjectGroup(chatId: string, cwd: string)

  datatype Account = Account(accountId: string, enabled: bool, botToken: string,
                             allowedChatIds: seq<string>, projectGroups: seq<ProjectGroup>)

  type Config = seq<Account>

  datatype Platform = Feishu | Telegram | Wechat | Wecom

  datatype Route = Route(platform: Platform, conversationKey: string, accountId: string, chatId: string)

  datatype TopicState = TopicState(
    threadId: string, codexTitle: string, topicName: string, lastSyncedCodexTitle: string, lastSyncedTopicName: string,
    codexState: string, telegramState: string, archivedAt: Option<nat>, missingAt: Option<nat>,
    lifecycleGeneration: nat, lifecycleRevision: nat, lastCheckedAt: nat)

  const DEFAULT_STATE := TopicState("", "", "", "", "", "active", "open", None, None, 0, 0, 0)

  // ---------- message targets: a chat and possibly one of its topics ----------

  const SEPARATOR: string := "|topic="

  datatype Target = Target(chat: string, topic: Option<int>)

  function SplitMessageTarget(target: string): Target {
    var parts := SplitOnce(target, SEPARATOR);
    if parts.None? then Target(target, None)
    else
      var topic := ParseI64(parts.value.after);
      Target(parts.value.before, if topic.Some? && topic.value > 0 then topic else None)
  }

  function MessageTarget(chat: string, topic: Option<int>): string {
    var given := SplitMessageTarget(chat);
    var chosen := if topic.Some? then topic else given.topic;
    if chosen.Some? then given.chat + (SEPARATOR + Signed(chosen.value)) else given.chat
  }

  /** The separator cannot overlap itself: its first character does not occur again in it. */
  lemma NoEarlierSeparator(before: string, after: string)
    requires before != [] && !(SEPARATOR <= before)
    ensures !(SEPARATOR <= before + (SEPARATOR + after))
  {
    var s, k := before + (SEPARATOR + after), |before|;
    if k < |SEPARATOR| {
      assert s[k] == '|' && SEPARATOR[k] != '|';
    } else {
      assert s[..|SEPARATOR|] == before[..|SEPARATOR|];
    }
  }

  /** Text after a front without the topic separator is cut off at the separator that follows that front. */
  lemma {:induction false} SplitsAtJoin(before: string, after: string)
    requires SplitOnce(before, SEPARATOR).None?
    ensures SplitOnce(before + (SEPARATOR + after), SEPARATOR) == Some(Parts(before, after))
  {
    var s := before + (SEPARATOR + after);
    if before == [] {
      assert s == SEPARATOR + after && s[|SEPARATOR|..] == after;
    } else {
      SplitsAtJoin(before[1..], after);
      assert s[1..] == before[1..] + (SEPARATOR + after);
      NoEarlierSeparator(before, after);
      assert before == [before[0]] + before[1..];
    }
  }

  /** The chat and the topic written into a message target are read back from it; topics that are not
      positive are the exception. A topic already in the target survives when none is given. */
  lemma MessageTargetRoundTrip(chat: string, topic: Option<int>)
    requires topic.Some? ==> -I64_MAX - 1 <= topic.value <= I64_MAX
    ensures var given, back := SplitMessageTarget(chat), SplitMessageTarget(MessageTarget(chat, topic));
            && back.chat == given.chat
            && back.topic == if topic.None? then given.topic else if topic.value > 0 then topic else None
  {
    var given := SplitMessageTarget(chat);
    if SplitOnce(chat, SEPARATOR).Some? {
      SplitOnceExact(chat, SEPARATOR);
    }
    assert SplitOnce(given.chat, SEPARATOR).None?;
    var chosen := if topic.Some? then topic else given.topic;
    if chosen.Some? {
      SplitsAtJoin(given.chat, Signed(chosen.value));
      SignedRoundTrip(chosen.value);
    }
  }

  // ---------- conversation keys ----------

  function PlatformOf(channel: string): Option<Platform> {
    if channel == "feishu" then Some(Feishu)
    else if channel == "telegram" then Some(Telegram)
    else if channel == "wechat" then Some(Wechat)
    else if channel == "wecom" then Some(Wecom)
    else None
  }

  /** A conversation key has three parts; only the last may hold further colons. */
  function RouteFromConversationKey(key: string): Option<Route> {
    var first := SplitOnce(key, ":");
    if first.None? || PlatformOf(first.value.before).None? then None
    else
      var second := SplitOnce(first.value.after, ":");
      if second.None? then None
      else Some(Route(PlatformOf(first.value.before).value, key, second.value.before, second.value.after))
  }

  function TelegramKey(accountId: string, chatId: string): string {
    "telegram" + (":" + (accountId + (":" + chatId)))
  }

  lemma KeyOfRoute(key: string)
    requires RouteFromConversationKey(key).Some? && RouteFromConversationKey(key).value.platform == Telegram
    ensures var r := RouteFromConversationKey(key).value;
            ':' !in r.accountId && r.conversationKey == key && key == TelegramKey(r.accountId, r.chatId)
  {
    SplitOnceExact(key, ":");
    var after := SplitOnce(key, ":").value.after;
    SplitOnceExact(after, ":");
    NoColonBeforeColon(after);
  }

  lemma RouteOfKey(accountId: string, chatId: string)
    requires ':' !in accountId
    ensures var key := TelegramKey(accountId, chatId);
            RouteFromConversationKey(key) == Some(Route(Telegram, key, accountId, chatId))
  {
    SplitsAtColon("telegram", accountId + (":" + chatId));
    SplitsAtColon(accountId, chatId);
  }

  /** Exactly the keys built from a colon-free account id and a chat id are Telegram keys, and the route
      holds those two. */
  lemma TelegramKeysExact(key: string, accountId: string, chatId: string)
    ensures RouteFromConversationKey(key) == Some(Route(Telegram, key, accountId, chatId))
            <==> ':' !in accountId && key == TelegramKey(accountId, chatId)
  {
    if RouteFromConversationKey(key) == Some(Route(Telegram, key, accountId, chatId)) {
      KeyOfRoute(key);
    } else if ':' !in accountId {
      RouteOfKey(accountId, chatId);
    }
  }

  // ---------- which targets a configuration answers to ----------

  predicate IsActive(a: Account) {
    a.enabled && Trim(a.botToken) != ""
  }

  function FindAccount(config: Config, accountId: string): Option<Account> {
    if config == [] then None
    else if Trim(config[0].accountId) == Trim(accountId) then Some(config[0])
    else FindAccount(config[1..], accountId)
  }

  predicate IsProjectGroup(a: Account, chat: string) {
    exists g :: g in a.projectGroups && Trim(g.chatId) == Trim(chat) && Trim(g.cwd) != ""
  }

  predicate IsAllowedPrivateChat(a: Account, chat: string) {
    exists c :: c in a.allowedChatIds && Trim(c) == chat
  }

  /** `valid_persisted_telegram_route`. */
  function ValidRoute(config: Config, key: string): Option<Route> {
    var parsed := RouteFromConversationKey(key);
    if parsed.None? || parsed.value.platform != Telegram then None
    else
      var route := parsed.value;
      if Trim(route.accountId) != route.accountId || Trim(route.chatId) != route.chatId then None
      else
        var account := FindAccount(config, route.accountId);
        if account.None? then None
        else
          var target := SplitMessageTarget(route.chatId);
          var group := IsProjectGroup(account.value, target.chat);
          var targetValid :=
            if target.topic.Some? then group else IsAllowedPrivateChat(account.value, target.chat) || group;
          if !IsActive(account.value) || !targetValid then None else Some(route)
  }

  lemma ValidRouteHasKey(config: Config, key: string)
    requires ValidRoute(config, key).Some?
    ensures var r := ValidRoute(config, key).value;
            r.conversationKey == key && r.platform == Telegram && key == TelegramKey(r.accountId, r.chatId)
  {
    KeyOfRoute(key);
  }

  // ---------- who keeps a thread ----------

  type Bindings = map<string, string>
  type Topics = map<string, TopicState>

  predicate Claims(config: Config, bindings: Bindings, key: string) {
    key in bindings && Trim(bindings[key]) != "" && ValidRoute(config, key).Some?
  }

  predicate Rivals(config: Config, bindings: Bindings, key: string, other: string) {
    && Claims(config, bindings, key) && Claims(config, bindings, other)
    && Trim(bindings[key]) == Trim(bindings[other])
  }

  /** The least valid claimant of its thread. */
  ghost predicate Keeper(config: Config, bindings: Bindings, key: string) {
    Claims(config, bindings, key) && forall other :: Rivals(config, bindings, key, other) ==> Leq(key, other)
  }

  ghost function Restored(config: Config, bindings: Bindings): Bindings {
    map key | key in bindings && Keeper(config, bindings, key) :: Trim(bindings[key])
  }

  function RestoredTopic(topics: Topics, key: string, thread: string): TopicState {
    (if key in topics then topics[key] else DEFAULT_STATE).(threadId := thread, lifecycleGeneration := 0)
  }

  function RestoredTopics(topics: Topics, restored: Bindings): Topics {
    map key | key in restored :: RestoredTopic(topics, key, restored[key])
  }

  predicate KeyRouted(config: Config, restored: Bindings, routes: map<string, Route>, key: string) {
    key in restored ==> restored[key] in routes && Some(routes[restored[key]]) == ValidRoute(config, key)
  }

  predicate ThreadBound(restored: Bindings, routes: map<string, Route>, thread: string) {
    thread in routes ==> var key := routes[thread].conversationKey; key in restored && restored[key] == thread
  }

  /** Each restored thread, and no other, leads to the conversation it is bound to. */
  ghost predicate RoutesMatch(config: Config, restored: Bindings, routes: map<string, Route>) {
    && (forall key :: KeyRouted(config, restored, routes, key))
    && (forall thread :: ThreadBound(restored, routes, thread))
  }

  // ---------- the keys in order ----------

  predicate InOrder(keys: seq<string>, i: int, j: int)
    requires 0 <= i < j < |keys|
  {
    keys[i] != keys[j] && Leq(keys[i], keys[j])
  }

  predicate Sorted(keys: seq<string>) {
    forall i, j :: 0 <= i < j < |keys| ==> InOrder(keys, i, j)
  }

  function Insert(keys: seq<string>, key: string): seq<string> {
    if keys == [] || Leq(key, keys[0]) then [key] + keys else [keys[0]] + Insert(keys[1..], key)
  }

  lemma TailSorted(keys: seq<string>)
    requires Sorted(keys) && keys != []
    ensures Sorted(keys[1..])
  {
    forall i, j | 0 <= i < j < |keys| - 1 ensures InOrder(keys[1..], i, j) {
      assert InOrder(keys, i + 1, j + 1);
    }
  }

  lemma HeadIsLeast(keys: seq<string>, key: string)
    requires Sorted(keys) && keys != []
    ensures key in keys[1..] ==> key != keys[0] && Leq(keys[0], key)
  {
    if key in keys[1..] {
      var j :| 0 <= j < |keys[1..]| && keys[1..][j] == key;
      assert InOrder(keys, 0, j + 1);
    }
  }

  lemma {:induction false} InsertKeepsSorted(keys: seq<string>, key: string)
    requires Sorted(keys) && key !in keys
    ensures Sorted(Insert(keys, key))
    ensures forall k :: k in Insert(keys, key) <==> k == key || k in keys
  {
    var more := Insert(keys, key);
    if keys == [] {
    } else if Leq(key, keys[0]) {
      forall i, j | 0 <= i < j < |more| ensures InOrder(more, i, j) {
        if i > 0 {
          assert InOrder(keys, i - 1, j - 1);
        } else if j > 1 {
          assert InOrder(keys, 0, j - 1);
          LeqTransitive(key, keys[0], keys[j - 1]);
        }
      }
    } else {
      TailSorted(keys);
      InsertKeepsSorted(keys[1..], key);
      LeqTotal(key, keys[0]);
      forall i, j | 0 <= i < j < |more| ensures InOrder(more, i, j) {
        if i > 0 {
          assert InOrder(more[1..], i - 1, j - 1);
        } else {
          HeadIsLeast(keys, more[1..][j - 1]);
        }
      }
    }
  }

  /** The keys of the bindings in ascending order. */
  predicate KeysOf(bindings: Bindings, keys: seq<string>) {
    && Sorted(keys)
    && (forall key :: key in bindings ==> key in keys)
    && (forall i :: 0 <= i < |keys| ==> keys[i] in bindings)
  }

  /** The keys are put in order one by one (`sort_unstable_by_key`). */
  method SortedKeys(bindings: Bindings) returns (keys: seq<string>)
    ensures KeysOf(bindings, keys)
  {
    keys := [];
    var rest := bindings.Keys;
    while rest != {}
      invariant Sorted(keys)
      invariant forall key :: key in keys <==> key in bindings && key !in rest
      invariant rest <= bindings.Keys
      decreases |rest|
    {
      var key :| key in rest;
      InsertKeepsSorted(keys, key);
      keys := Insert(keys, key);
      rest := rest - {key};
    }
  }

  // ---------- the restoring loop ----------

  predicate ClaimsThread(config: Config, bindings: Bindings, key: string, thread: string) {
    Claims(config, bindings, key) && Trim(bindings[key]) == thread
  }

  /** One of the first `i` keys claims the thread. */
  ghost predicate ClaimedBefore(config: Config, bindings: Bindings, keys: seq<string>, i: nat, thread: string)
    requires i <= |keys|
  {
    exists j :: 0 <= j < i && ClaimsThread(config, bindings, keys[j], thread)
  }

  /** In ascending order, a claimant keeps its thread exactly when none before it claimed it. */
  lemma KeepsIffFirst(config: Config, bindings: Bindings, keys: seq<string>, i: nat)
    requires i < |keys| && KeysOf(bindings, keys)
    requires Claims(config, bindings, keys[i])
    ensures Keeper(config, bindings, keys[i]) <==> !ClaimedBefore(config, bindings, keys, i, Trim(bindings[keys[i]]))
  {
    var key := keys[i];
    var thread := Trim(bindings[key]);
    if ClaimedBefore(config, bindings, keys, i, thread) {
      var j :| 0 <= j < i && ClaimsThread(config, bindings, keys[j], thread);
      assert InOrder(keys, j, i) && Rivals(config, bindings, key, keys[j]);
      if Leq(key, keys[j]) {
        LeqAntisymmetric(key, keys[j]);
      }
    } else {
      forall other | Rivals(config, bindings, key, other) ensures Leq(key, other) {
        var j :| 0 <= j < |keys| && keys[j] == other;
        assert ClaimsThread(config, bindings, other, thread);
        if j == i {
          LeqReflexive(key);
        } else {
          assert j > i && InOrder(keys, i, j);
        }
      }
    }
  }

  ghost predicate RestoredAt(config: Config, bindings: Bindings, keys: seq<string>, i: nat, restored: Bindings,
                             key: string)
    requires i <= |keys|
  {
    && (key in restored <==> key in keys[..i] && Keeper(config, bindings, key))
    && (key in restored ==> key in bindings && restored[key] == Trim(bindings[key]))
  }

  ghost predicate ClaimedAt(config: Config, bindings: Bindings, keys: seq<string>, i: nat, claimed: set<string>,
                            thread: string)
    requires i <= |keys|
  {
    thread in claimed <==> ClaimedBefore(config, bindings, keys, i, thread)
  }

  /** The first `i` keys are restored. */
  ghost predicate Progress(config: Config, bindings: Bindings, keys: seq<string>, i: nat, claimed: set<string>,
                           restored: Bindings, routes: map<string, Route>)
    requires i <= |keys|
  {
    && (forall thread :: ClaimedAt(config, bindings, keys, i, claimed, thread))
    && (forall key :: RestoredAt(config, bindings, keys, i, restored, key))
    && RoutesMatch(config, restored, routes)
  }

  lemma ClaimedStep(config: Config, bindings: Bindings, keys: seq<string>, i: nat, thread: string)
    requires i < |keys|
    ensures ClaimedBefore(config, bindings, keys, i + 1, thread)
            <==> ClaimedBefore(config, bindings, keys, i, thread) || ClaimsThread(config, bindings, keys[i], thread)
  {
    if ClaimsThread(config, bindings, keys[i], thread) {
    } else if ClaimedBefore(config, bindings, keys, i + 1, thread) {
      var j :| 0 <= j < i + 1 && ClaimsThread(config, bindings, keys[j], thread);
      assert j < i;
    }
  }

  lemma RestoredStep(config: Config, bindings: Bindings, keys: seq<string>, i: nat, n: nat, claimed: set<string>,
                     restored: Bindings, routes: map<string, Route>, more: Bindings)
    requires i < |keys| && n == i + 1 && keys[i] in bindings
    requires Progress(config, bindings, keys, i, claimed, restored, routes)
    requires more
             == if Keeper(config, bindings, keys[i]) then restored[keys[i] := Trim(bindings[keys[i]])] else restored
    ensures forall k :: RestoredAt(config, bindings, keys, n, more, k)
  {
    assert keys[..n] == keys[..i] + [keys[i]];
    forall k ensures RestoredAt(config, bindings, keys, n, more, k) {
      assert RestoredAt(config, bindings, keys, i, restored, k);
    }
  }

  /** A key that does not claim, or whose thread is claimed already, is passed over. */
  lemma PassOver(config: Config, bindings: Bindings, keys: seq<string>, i: nat, claimed: set<string>,
                 restored: Bindings, routes: map<string, Route>)
    requires i < |keys| && KeysOf(bindings, keys)
    requires Progress(config, bindings, keys, i, claimed, restored, routes)
    requires Claims(config, bindings, keys[i]) ==> Trim(bindings[keys[i]]) in claimed
    ensures Progress(config, bindings, keys, i + 1, claimed, restored, routes)
  {
    var key, n := keys[i], i + 1;
    forall thread ensures ClaimedAt(config, bindings, keys, n, claimed, thread) {
      assert ClaimedAt(config, bindings, keys, i, claimed, thread);
      ClaimedStep(config, bindings, keys, i, thread);
    }
    if Claims(config, bindings, key) {
      assert ClaimedAt(config, bindings, keys, i, claimed, Trim(bindings[key]));
      KeepsIffFirst(config, bindings, keys, i);
    }
    RestoredStep(config, bindings, keys, i, n, claimed, restored, routes, restored);
  }

  /** What is restored so far was claimed by keys before. */
  lemma RestoredIsClaimed(config: Config, bindings: Bindings, keys: seq<string>, i: nat, claimed: set<string>,
                          restored: Bindings, routes: map<string, Route>, k: string)
    requires i < |keys| && KeysOf(bindings, keys) && k in restored
    requires Progress(config, bindings, keys, i, claimed, restored, routes)
    ensures restored[k] in claimed && k != keys[i]
  {
    assert RestoredAt(config, bindings, keys, i, restored, k);
    var j :| 0 <= j < i && keys[j] == k;
    assert ClaimsThread(config, bindings, keys[j], restored[k]);
    assert ClaimedAt(config, bindings, keys, i, claimed, restored[k]);
    assert InOrder(keys, j, i);
  }

  lemma BindKeepsMatch(config: Config, restored: Bindings, routes: map<string, Route>, key: string, thread: string)
    requires RoutesMatch(config, restored, routes)
    requires ValidRoute(config, key).Some? && ValidRoute(config, key).value.conversationKey == key
    requires key !in restored && forall k :: k in restored ==> restored[k] != thread
    ensures RoutesMatch(config, restored[key := thread], routes[thread := ValidRoute(config, key).value])
  {
    var bound, routed := restored[key := thread], routes[thread := ValidRoute(config, key).value];
    forall k ensures KeyRouted(config, bound, routed, k) {
      assert KeyRouted(config, restored, routes, k);
    }
    forall t ensures ThreadBound(bound, routed, t) {
      assert ThreadBound(restored, routes, t);
    }
  }

  /** A key that claims a free thread is bound to it. */
  lemma Keep(config: Config, bindings: Bindings, keys: seq<string>, i: nat, claimed: set<string>, restored: Bindings,
             routes: map<string, Route>)
    requires i < |keys| && KeysOf(bindings, keys)
    requires Progress(config, bindings, keys, i, claimed, restored, routes)
    requires Claims(config, bindings, keys[i]) && Trim(bindings[keys[i]]) !in claimed
    ensures var key, thread := keys[i], Trim(bindings[keys[i]]);
            Progress(config, bindings, keys, i + 1, claimed + {thread}, restored[key := thread],
                     routes[thread := ValidRoute(config, key).value])
  {
    var key, thread, n := keys[i], Trim(bindings[keys[i]]), i + 1;
    forall t ensures ClaimedAt(config, bindings, keys, n, claimed + {thread}, t) {
      assert ClaimedAt(config, bindings, keys, i, claimed, t);
      ClaimedStep(config, bindings, keys, i, t);
    }
    assert ClaimedAt(config, bindings, keys, i, claimed, thread);
    KeepsIffFirst(config, bindings, keys, i);
    RestoredStep(config, bindings, keys, i, n, claimed, restored, routes, restored[key := thread]);
    if key in restored {
      RestoredIsClaimed(config, bindings, keys, i, claimed, restored, routes, key);
    }
    forall k | k in restored ensures restored[k] != thread {
      RestoredIsClaimed(config, bindings, keys, i, claimed, restored, routes, k);
    }
    ValidRouteHasKey(config, key);
    BindKeepsMatch(config, restored, routes, key, thread);
  }

  lemma NothingDone(config: Config, bindings: Bindings, keys: seq<string>)
    ensures Progress(config, bindings, keys, 0, {}, map[], map[])
  {
    forall thread ensures ClaimedAt(config, bindings, keys, 0, {}, thread) {}
    forall key ensures RestoredAt(config, bindings, keys, 0, map[], key) {}
    forall key ensures KeyRouted(config, map[], map[], key) {}
    forall thread ensures ThreadBound(map[], map[], thread) {}
  }

  lemma TopicsStep(topics: Topics, restored: Bindings, key: string, thread: string)
    ensures RestoredTopics(topics, restored[key := thread])
            == RestoredTopics(topics, restored)[key := RestoredTopic(topics, key, thread)]
  {}

  lemma ProgressDone(config: Config, bindings: Bindings, keys: seq<string>, claimed: set<string>, restored: Bindings,
                     routes: map<string, Route>)
    requires KeysOf(bindings, keys)
    requires Progress(config, bindings, keys, |keys|, claimed, restored, routes)
    ensures restored == Restored(config, bindings)
  {
    assert keys[..|keys|] == keys;
    forall key ensures key in restored <==> key in Restored(config, bindings) {
      assert RestoredAt(config, bindings, keys, |keys|, restored, key);
    }
    forall key | key in restored ensures restored[key] == Restored(config, bindings)[key] {
      assert RestoredAt(config, bindings, keys, |keys|, restored, key);
    }
  }

  class PersistedState {
    var imThreadBindings: Bindings
    var topicStates: Topics

    constructor (bindings: Bindings, topics: Topics)
      ensures imThreadBindings == bindings && topicStates == topics
    {
      imThreadBindings, topicStates := bindings, topics;
    }

    method RestoreImBindings(config: Config) returns (routes: map<string, Route>, changed: bool)
      modifies this
      ensures imThreadBindings == Restored(config, old(imThreadBindings))
      ensures topicStates == RestoredTopics(old(topicStates), imThreadBindings)
      ensures RoutesMatch(config, imThreadBindings, routes)
      ensures changed <==> imThreadBindings != old(imThreadBindings) || topicStates != old(topicStates)
    {
      var bindings, topics := imThreadBindings, topicStates;
      var keys := SortedKeys(bindings);
      routes := map[];
      var restored: Bindings, restoredTopics: Topics := map[], map[];
      var claimed: set<string> := {};
      NothingDone(config, bindings, keys);
      for i := 0 to |keys|
        invariant Progress(config, bindings, keys, i, claimed, restored, routes)
        invariant restoredTopics == RestoredTopics(topics, restored)
      {
        var key := keys[i];
        var thread := Trim(bindings[key]);
        var route := ValidRoute(config, key);
        if thread == "" || route.None? || thread in claimed {
          PassOver(config, bindings, keys, i, claimed, restored, routes);
        } else {
          Keep(config, bindings, keys, i, claimed, restored, routes);
          TopicsStep(topics, restored, key, thread);
          claimed := claimed + {thread};
          routes := routes[thread := route.value];
          restored := restored[key := thread];
          restoredTopics := restoredTopics[key := RestoredTopic(topics, key, thread)];
        }
      }
      ProgressDone(config, bindings, keys, claimed, restored, routes);
      changed := restored != bindings || restoredTopics != topics;
      imThreadBindings, topicStates := restored, restoredTopics;
    }
  }

  // ---------- what restoring achieves ----------

  /** No two restored conversations share a thread. */
  lemma RestoredOneToOne(config: Config, bindings: Bindings, key: string, other: string)
    requires key in Restored(config, bindings) && other in Restored(config, bindings)
    requires Restored(config, bindings)[key] == Restored(config, bindings)[other]
    ensures key == other
  {
    assert Rivals(config, bindings, key, other) && Rivals(config, bindings, other, key);
    LeqAntisymmetric(key, other);
  }

  lemma {:induction false} LeastOf(keys: set<string>) returns (least: string)
    requires keys != {}
    ensures least in keys && forall k :: k in keys ==> Leq(least, k)
    decreases |keys|
  {
    var some :| some in keys;
    LeqReflexive(some);
    var rest := keys - {some};
    if rest == {} {
      assert keys == {some};
      return some;
    }
    var l := LeastOf(rest);
    LeqTotal(some, l);
    least := if Leq(some, l) then some else l;
    forall k | k in keys ensures Leq(least, k) {
      if k in rest && least == some {
        LeqTransitive(some, l, k);
      }
    }
  }

  /** Every thread that a valid conversation claims is restored, for the least of its valid claimants. */
  lemma LeastClaimantWins(config: Config, bindings: Bindings, claimant: string) returns (winner: string)
    requires Claims(config, bindings, claimant)
    ensures winner in Restored(config, bindings) && Restored(config, bindings)[winner] == Trim(bindings[claimant])
    ensures forall other :: Rivals(config, bindings, claimant, other) ==> Leq(winner, other)
  {
    var rivals := set other | other in bindings && Rivals(config, bindings, claimant, other);
    assert claimant in rivals;
    winner := LeastOf(rivals);
    forall other | Rivals(config, bindings, winner, other) ensures Leq(winner, other) {
      assert other in rivals;
    }
    forall other | Rivals(config, bindings, claimant, other) ensures Leq(winner, other) {
      assert other in rivals;
    }
  }

  /** A binding that is not valid has no influence on what is restored. */
  lemma InvalidNeverClaims(config: Config, bindings: Bindings, key: string)
    requires !Claims(config, bindings, key)
    ensures Restored(config, bindings - {key}) == Restored(config, bindings)
  {
    var without := bindings - {key};
    forall k, other ensures Rivals(config, bindings, k, other) <==> Rivals(config, without, k, other) {
      assert Claims(config, bindings, k) <==> Claims(config, without, k);
      assert Claims(config, bindings, other) <==> Claims(config, without, other);
    }
    forall k ensures Keeper(config, bindings, k) <==> Keeper(config, without, k) {
      assert Claims(config, bindings, k) <==> Claims(config, without, k);
    }
  }

  /** What a restored state looks like: only valid claims, trimmed, one per thread, and a topic state of
      generation 0 for exactly these conversations. */
  ghost predicate Clean(config: Config, bindings: Bindings, topics: Topics) {
    && (forall key :: key in bindings ==> Claims(config, bindings, key) && Trim(bindings[key]) == bindings[key])
    && (forall key, other :: key in bindings && other in bindings && bindings[key] == bindings[other] ==> key == other)
    && topics.Keys == bindings.Keys
    && (forall key :: key in topics ==> topics[key].threadId == bindings[key] && topics[key].lifecycleGeneration == 0)
  }

  lemma CleanIsUnchanged(config: Config, bindings: Bindings, topics: Topics)
    requires Clean(config, bindings, topics)
    ensures Restored(config, bindings) == bindings && RestoredTopics(topics, bindings) == topics
  {
    forall key | key in bindings ensures Keeper(config, bindings, key) {
      LeqReflexive(key);
      forall other | Rivals(config, bindings, key, other) ensures Leq(key, other) {
        assert key == other;
      }
    }
  }

  lemma UnchangedIsClean(config: Config, bindings: Bindings, topics: Topics)
    requires Restored(config, bindings) == bindings && RestoredTopics(topics, bindings) == topics
    ensures Clean(config, bindings, topics)
  {
    var restored := Restored(config, bindings);
    forall key, other | key in bindings && other in bindings && bindings[key] == bindings[other] ensures key == other {
      assert key in restored && other in restored;
      RestoredOneToOne(config, bindings, key, other);
    }
    forall key | key in bindings ensures Claims(config, bindings, key) && Trim(bindings[key]) == bindings[key] {
      assert key in restored;
    }
    var states := RestoredTopics(topics, bindings);
    forall key | key in states ensures states[key].threadId == bindings[key] && states[key].lifecycleGeneration == 0 {}
  }

  /** Restoring changes a state exactly when it is not clean. */
  lemma UnchangedIffClean(config: Config, bindings: Bindings, topics: Topics)
    ensures Restored(config, bindings) == bindings && RestoredTopics(topics, bindings) == topics
            <==> Clean(config, bindings, topics)
  {
    if Clean(config, bindings, topics) {
      CleanIsUnchanged(config, bindings, topics);
    } else if Restored(config, bindings) == bindings && RestoredTopics(topics, bindings) == topics {
      UnchangedIsClean(config, bindings, topics);
    }
  }

  /** A restored state is clean, so that a second restore reports no change. */
  lemma SecondRestoreChangesNothing(config: Config, bindings: Bindings, topics: Topics)
    ensures var once := Restored(config, bindings);
            var states := RestoredTopics(topics, once);
            && Clean(config, once, states)
            && Restored(config, once) == once && RestoredTopics(states, once) == states
  {
    var once := Restored(config, bindings);
    var states := RestoredTopics(topics, once);
    forall key | key in once ensures Claims(config, once, key) && Trim(once[key]) == once[key] {
      TrimTrims(bindings[key]);
      TrimTrims(once[key]);
    }
    forall key, other | key in once && other in once && once[key] == once[other] ensures key == other {
      RestoredOneToOne(config, bindings, key, other);
    }
    assert states.Keys == once.Keys;
    UnchangedIffClean(config, once, states);
  }

  lemma {:induction false} FoundAccount(config: Config, accountId: string)
    ensures FindAccount(config, accountId).Some? ==>
              var a := FindAccount(config, accountId).value; a in config && Trim(a.accountId) == Trim(accountId)
    ensures FindAccount(config, accountId).None? ==> forall a :: a in config ==> Trim(a.accountId) != Trim(accountId)
  {
    if config != [] {
      FoundAccount(config[1..], accountId);
      assert config == [config[0]] + config[1..];
    }
  }

  predicate Serves(a: Account, target: Target) {
    IsActive(a) && (IsProjectGroup(a, target.chat) || (target.topic.None? && IsAllowedPrivateChat(a, target.chat)))
  }

  lemma ValidRouteServed(config: Config, key: string) returns (a: Account)
    requires ValidRoute(config, key).Some?
    ensures var r := ValidRoute(config, key).value;
            a in config && Trim(a.accountId) == r.accountId && Serves(a, SplitMessageTarget(r.chatId))
  {
    var r := ValidRoute(config, key).value;
    FoundAccount(config, r.accountId);
    a := FindAccount(config, r.accountId).value;
  }

  /** A restored thread leads to a conversation of an active account and, in it, to a chat the account serves;
      a topic is restored only in a project group. */
  lemma RestoredRoutesServed(config: Config, bindings: Bindings, routes: map<string, Route>, thread: string)
      returns (a: Account)
    requires RoutesMatch(config, Restored(config, bindings), routes) && thread in routes
    ensures var r := routes[thread];
            && r.conversationKey == TelegramKey(r.accountId, r.chatId)
            && Keeper(config, bindings, r.conversationKey) && Trim(bindings[r.conversationKey]) == thread
            && a in config && Trim(a.accountId) == r.accountId && Serves(a, SplitMessageTarget(r.chatId))
  {
    var restored, key := Restored(config, bindings), routes[thread].conversationKey;
    assert ThreadBound(restored, routes, thread) && KeyRouted(config, restored, routes, key);
    ValidRouteHasKey(config, key);
    a := ValidRouteServed(config, key);
  }
}
