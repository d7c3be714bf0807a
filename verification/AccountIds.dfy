/** The normalisation of account ids in the configuration: padded ids are trimmed and blank ones are
    replaced by a fallback that no other account uses. */
module AccountIds {
  import opened Text
  import opened Decimals
  import opened Sequences

  datatype Account = Account(accountId: string, appId: string)

  type Fallback = Account -> string

  function WithSuffix(candidate: string, suffix: nat): string {
    candidate + ("-" + Decimal(suffix))
  }

  lemma SuffixInjective(candidate: string, n: nat, m: nat)
    requires WithSuffix(candidate, n) == WithSuffix(candidate, m)
    ensures n == m
  {
    var s, t := WithSuffix(candidate, n), WithSuffix(candidate, m);
    assert s[|candidate| + 1..] == Decimal(n) && t[|candidate| + 1..] == Decimal(m);
    DecimalInjective(n, m);
  }

  // ---------- the search for a free id ----------

  /** The ids tried before suffix `next`: the bare candidate and the suffixes from 2 on. */
  function Tried(candidate: string, next: nat): set<string> {
    if next <= 2 then {candidate} else Tried(candidate, next - 1) + {WithSuffix(candidate, next - 1)}
  }

  lemma {:induction false} SuffixIsNew(candidate: string, next: nat, suffix: nat)
    requires suffix >= next
    ensures WithSuffix(candidate, suffix) !in Tried(candidate, next)
  {
    if next <= 2 {
      assert |WithSuffix(candidate, suffix)| > |candidate|;
    } else {
      SuffixIsNew(candidate, next - 1, suffix);
      if WithSuffix(candidate, suffix) == WithSuffix(candidate, next - 1) {
        SuffixInjective(candidate, suffix, next - 1);
      }
    }
  }

  lemma {:induction false} TriedSize(candidate: string, next: nat)
    requires next >= 2
    ensures |Tried(candidate, next)| == next - 1
  {
    if next > 2 {
      TriedSize(candidate, next - 1);
      SuffixIsNew(candidate, next - 1, next - 1);
    }
  }

  lemma {:induction false} TriedAreUsed(candidate: string, next: nat, used: set<string>)
    requires candidate in used
    requires forall i :: 2 <= i < next ==> WithSuffix(candidate, i) in used
    ensures Tried(candidate, next) <= used
  {
    if next > 2 {
      TriedAreUsed(candidate, next - 1, used);
    }
  }

  /** The first suffix from `next` on that gives a free id. It exists: suffixes are injective, so only as
      many of them as there are used ids can be taken. */
  function FirstFree(candidate: string, next: nat, used: set<string>): (suffix: nat)
    requires next >= 2
    ensures suffix >= next && WithSuffix(candidate, suffix) !in used
    ensures forall i :: next <= i < suffix ==> WithSuffix(candidate, i) in used
    decreases used - Tried(candidate, next)
  {
    if WithSuffix(candidate, next) !in used then next
    else
      SuffixIsNew(candidate, next, next);
      FirstFree(candidate, next + 1, used)
  }

  function UniqueId(candidate: string, used: set<string>): string {
    if candidate !in used then candidate else WithSuffix(candidate, FirstFree(candidate, 2, used))
  }

  lemma SubsetSize(a: set<string>, b: set<string>)
    requires a <= b
    ensures |a| <= |b|
  {
    assert b == a + (b - a);
  }

  /** The search ends within one more candidate than there are used ids, and finds a free one. */
  lemma SearchIsBounded(candidate: string, used: set<string>)
    ensures UniqueId(candidate, used) !in used
    ensures candidate in used ==> FirstFree(candidate, 2, used) <= |used| + 1
  {
    if candidate in used {
      var suffix := FirstFree(candidate, 2, used);
      TriedSize(candidate, suffix);
      TriedAreUsed(candidate, suffix, used);
      SubsetSize(Tried(candidate, suffix), used);
    }
  }

  method UniqueAccountId(candidate: string, used: set<string>) returns (id: string)
    ensures id == UniqueId(candidate, used) && id !in used
  {
    if candidate !in used {
      return candidate;
    }
    var suffix := 2;
    while true
      invariant suffix >= 2 && FirstFree(candidate, 2, used) == FirstFree(candidate, suffix, used)
      decreases used - Tried(candidate, suffix)
    {
      var next := WithSuffix(candidate, suffix);
      if next !in used {
        return next;
      }
      SuffixIsNew(candidate, suffix, suffix);
      suffix := suffix + 1;
    }
  }

  // ---------- one list of accounts ----------

  predicate Blank(a: Account) {
    Trim(a.accountId) == ""
  }

  function Explicit(accounts: seq<Account>): set<string> {
    set i | 0 <= i < |accounts| && !Blank(accounts[i]) :: Trim(accounts[i].accountId)
  }

  function NormalId(a: Account, fallback: Fallback, used: set<string>): string {
    if Blank(a) then UniqueId(fallback(a), used) else Trim(a.accountId)
  }

  /** The accounts from the front on, with the ids in `used` taken. */
  function Normalized(accounts: seq<Account>, fallback: Fallback, used: set<string>): seq<Account> {
    if accounts == [] then []
    else
      var id := NormalId(accounts[0], fallback, used);
      [accounts[0].(accountId := id)] + Normalized(accounts[1..], fallback, used + {id})
  }

  function NormalizedList(accounts: seq<Account>, fallback: Fallback): seq<Account> {
    Normalized(accounts, fallback, Explicit(accounts))
  }

  lemma ExplicitSnoc(accounts: seq<Account>, a: Account)
    ensures Explicit(accounts + [a]) == Explicit(accounts) + (if Blank(a) then {} else {Trim(a.accountId)})
  {
    var more := accounts + [a];
    assert forall i :: 0 <= i < |accounts| ==> more[i] == accounts[i];
    assert more[|accounts|] == a;
  }

  /** The front of the list is done; what is left is normalised with the ids now in use. */
  predicate Progress(done: seq<Account>, accounts: seq<Account>, fallback: Fallback, used: set<string>, changed: bool) {
    && |done| <= |accounts|
    && done + Normalized(accounts[|done|..], fallback, used) == NormalizedList(accounts, fallback)
    && (changed <==> done != accounts[..|done|])
  }

  lemma ReplaceFirst(front: seq<Account>, accounts: seq<Account>, i: nat, a: Account)
    requires i < |accounts| && |front| == i
    ensures (front + accounts[i..])[i := a] == (front + [a]) + accounts[i + 1..]
  {}

  lemma ProgressStep(done: seq<Account>, accounts: seq<Account>, fallback: Fallback, used: set<string>, changed: bool)
    requires |done| < |accounts| && Progress(done, accounts, fallback, used, changed)
    ensures var i := |done|;
            var id := NormalId(accounts[i], fallback, used);
            var next := accounts[i].(accountId := id);
            && Progress(done + [next], accounts, fallback, used + {id}, changed || accounts[i].accountId != id)
            && (done + accounts[i..])[i := next] == (done + [next]) + accounts[i + 1..]
  {
    var i := |done|;
    assert accounts[i..][0] == accounts[i] && accounts[i..][1..] == accounts[i + 1..];
    var id := NormalId(accounts[i], fallback, used);
    var next := accounts[i].(accountId := id);
    Regroup(done, [next], Normalized(accounts[i + 1..], fallback, used + {id}));
    assert accounts[..i + 1] == accounts[..i] + [accounts[i]];
    SnocEqual(done, accounts[..i], next, accounts[i]);
    ReplaceFirst(done, accounts, i, next);
  }

  method NormalizeAccountIds(accounts: array<Account>, fallback: Fallback) returns (changed: bool)
    modifies accounts
    ensures accounts[..] == NormalizedList(old(accounts[..]), fallback)
    ensures changed <==> accounts[..] != old(accounts[..])
  {
    ghost var was := accounts[..];
    var used: set<string> := {};
    for i := 0 to accounts.Length
      invariant accounts[..] == was
      invariant used == Explicit(was[..i])
    {
      assert was[..i + 1] == was[..i] + [was[i]];
      ExplicitSnoc(was[..i], was[i]);
      if !Blank(accounts[i]) {
        used := used + {Trim(accounts[i].accountId)};
      }
    }
    assert was[..accounts.Length] == was;
    changed := false;
    ghost var done: seq<Account> := [];
    for i := 0 to accounts.Length
      invariant |done| == i && accounts[..] == done + was[i..]
      invariant Progress(done, was, fallback, used, changed)
    {
      var account := accounts[i];
      assert account == was[i];
      var normalized := Trim(account.accountId);
      if normalized == "" {
        normalized := UniqueAccountId(fallback(account), used);
      }
      ProgressStep(done, was, fallback, used, changed);
      if account.accountId != normalized {
        accounts[i] := account.(accountId := normalized);
        changed := true;
      }
      done := done + [account.(accountId := normalized)];
      used := used + {normalized};
    }
    assert accounts[..] == done && was[..accounts.Length] == was;
  }

  // ---------- what normalisation achieves ----------

  /** Explicit ids are only trimmed, and nothing but ids changes. */
  lemma {:induction false} ExplicitOnlyTrimmed(accounts: seq<Account>, fallback: Fallback, used: set<string>, i: nat)
    requires i < |accounts|
    ensures |Normalized(accounts, fallback, used)| == |accounts|
    ensures var a := Normalized(accounts, fallback, used)[i];
            && a == accounts[i].(accountId := a.accountId)
            && (!Blank(accounts[i]) ==> a.accountId == Trim(accounts[i].accountId))
  {
    if i > 0 {
      ExplicitOnlyTrimmed(accounts[1..], fallback, used + {NormalId(accounts[0], fallback, used)}, i - 1);
    } else if |accounts| > 1 {
      ExplicitOnlyTrimmed(accounts[1..], fallback, used + {NormalId(accounts[0], fallback, used)}, 0);
    }
  }

  /** The id given to a blank account is not in use when it is given. */
  lemma {:induction false} BlankGetsFreeId(accounts: seq<Account>, fallback: Fallback, used: set<string>, i: nat)
    requires i < |accounts| && Blank(accounts[i])
    ensures |Normalized(accounts, fallback, used)| == |accounts|
    ensures Normalized(accounts, fallback, used)[i].accountId !in used
    ensures var after := Normalized(accounts, fallback, used);
            forall j :: 0 <= j < i ==> after[i].accountId != after[j].accountId
  {
    ExplicitOnlyTrimmed(accounts, fallback, used, i);
    var id := NormalId(accounts[0], fallback, used);
    if i == 0 {
      SearchIsBounded(fallback(accounts[0]), used);
    } else {
      BlankGetsFreeId(accounts[1..], fallback, used + {id}, i - 1);
    }
  }

  /** A blank account gets an id that differs from the id of every other account of the list. */
  lemma BlankIdsDistinct(accounts: seq<Account>, fallback: Fallback, i: nat, j: nat)
    requires i < |accounts| && j < |accounts| && i != j && Blank(accounts[i])
    ensures |NormalizedList(accounts, fallback)| == |accounts|
    ensures NormalizedList(accounts, fallback)[i].accountId != NormalizedList(accounts, fallback)[j].accountId
  {
    var used := Explicit(accounts);
    ExplicitOnlyTrimmed(accounts, fallback, used, j);
    BlankGetsFreeId(accounts, fallback, used, i);
    if Blank(accounts[j]) {
      BlankGetsFreeId(accounts, fallback, used, j);
    } else {
      assert Trim(accounts[j].accountId) in used;
    }
  }

  /** The fallbacks of the source are trimmed and not empty. */
  ghost predicate GoodFallback(accounts: seq<Account>, fallback: Fallback) {
    forall i :: 0 <= i < |accounts| ==> fallback(accounts[i]) != "" && Trimmed(fallback(accounts[i]))
  }

  lemma UniqueIdTrimmed(candidate: string, used: set<string>)
    requires candidate != "" && Trimmed(candidate)
    ensures UniqueId(candidate, used) != "" && Trimmed(UniqueId(candidate, used))
  {
    if candidate in used {
      var suffix := FirstFree(candidate, 2, used);
      DecimalHasOnlyDigits(suffix);
      var id := WithSuffix(candidate, suffix);
      assert id[0] == candidate[0] && id[|id| - 1] == Decimal(suffix)[|Decimal(suffix)| - 1];
    }
  }

  lemma {:induction false} NormalIdsClean(accounts: seq<Account>, fallback: Fallback, used: set<string>, i: nat)
    requires i < |accounts| && GoodFallback(accounts, fallback)
    ensures |Normalized(accounts, fallback, used)| == |accounts|
    ensures var id := Normalized(accounts, fallback, used)[i].accountId; id != "" && Trimmed(id)
  {
    ExplicitOnlyTrimmed(accounts, fallback, used, i);
    if i == 0 {
      if Blank(accounts[0]) {
        UniqueIdTrimmed(fallback(accounts[0]), used);
      } else {
        TrimTrims(accounts[0].accountId);
      }
    } else {
      var id := NormalId(accounts[0], fallback, used);
      NormalIdsClean(accounts[1..], fallback, used + {id}, i - 1);
    }
  }

  lemma {:induction false} CleanStays(accounts: seq<Account>, fallback: Fallback, used: set<string>)
    requires forall i :: 0 <= i < |accounts| ==> accounts[i].accountId != "" && Trimmed(accounts[i].accountId)
    ensures Normalized(accounts, fallback, used) == accounts
  {
    if accounts != [] {
      TrimTrims(accounts[0].accountId);
      CleanStays(accounts[1..], fallback, used + {accounts[0].accountId});
      assert accounts == [accounts[0]] + accounts[1..];
    }
  }

  /** Normalising a normalised list changes nothing. */
  lemma NormalisationIsFixpoint(accounts: seq<Account>, fallback: Fallback)
    requires GoodFallback(accounts, fallback)
    ensures NormalizedList(NormalizedList(accounts, fallback), fallback) == NormalizedList(accounts, fallback)
  {
    var used := Explicit(accounts);
    var once := NormalizedList(accounts, fallback);
    forall i | 0 <= i < |once| ensures once[i].accountId != "" && Trimmed(once[i].accountId) {
      if accounts != [] {
        NormalIdsClean(accounts, fallback, used, 0);
        NormalIdsClean(accounts, fallback, used, i);
      }
    }
    CleanStays(once, fallback, Explicit(once));
  }

  // ---------- the four lists of the configuration ----------

  function FeishuFallback(bridgeAccountId: string): Fallback {
    (a: Account) =>
      if Trim(bridgeAccountId) != "" then Trim(bridgeAccountId)
      else if Trim(a.appId) != "" then Trim(a.appId)
      else "default"
  }

  function ConstantFallback(id: string): Fallback {
    (a: Account) => id
  }

  lemma SourceFallbacksGood(accounts: seq<Account>, bridgeAccountId: string)
    ensures GoodFallback(accounts, FeishuFallback(bridgeAccountId))
    ensures GoodFallback(accounts, ConstantFallback("telegram"))
    ensures GoodFallback(accounts, ConstantFallback("wechat"))
    ensures GoodFallback(accounts, ConstantFallback("wecom"))
  {
    TrimTrims(bridgeAccountId);
    forall i | 0 <= i < |accounts| ensures Trimmed(FeishuFallback(bridgeAccountId)(accounts[i])) {
      TrimTrims(accounts[i].appId);
    }
  }

  class AppConfig {
    const bridgeAccountId: string
    const feishu: array<Account>
    const telegram: array<Account>
    const wechat: array<Account>
    const wecom: array<Account>

    predicate Separate() {
      && feishu != telegram && feishu != wechat && feishu != wecom
      && telegram != wechat && telegram != wecom && wechat != wecom
    }

    constructor (bridgeAccountId: string, feishu: array<Account>, telegram: array<Account>,
                 wechat: array<Account>, wecom: array<Account>)
      ensures this.bridgeAccountId == bridgeAccountId && this.feishu == feishu && this.telegram == telegram
      ensures this.wechat == wechat && this.wecom == wecom
    {
      this.bridgeAccountId, this.feishu, this.telegram := bridgeAccountId, feishu, telegram;
      this.wechat, this.wecom := wechat, wecom;
    }

    method NormalizeImAccountIds() returns (changed: bool)
      requires Separate()
      modifies feishu, telegram, wechat, wecom
      ensures feishu[..] == NormalizedList(old(feishu[..]), FeishuFallback(bridgeAccountId))
      ensures telegram[..] == NormalizedList(old(telegram[..]), ConstantFallback("telegram"))
      ensures wechat[..] == NormalizedList(old(wechat[..]), ConstantFallback("wechat"))
      ensures wecom[..] == NormalizedList(old(wecom[..]), ConstantFallback("wecom"))
      ensures changed <==> feishu[..] != old(feishu[..]) || telegram[..] != old(telegram[..])
                           || wechat[..] != old(wechat[..]) || wecom[..] != old(wecom[..])
    {
      var a := NormalizeAccountIds(feishu, FeishuFallback(bridgeAccountId));
      var b := NormalizeAccountIds(telegram, ConstantFallback("telegram"));
      var c := NormalizeAccountIds(wechat, ConstantFallback("wechat"));
      var d := NormalizeAccountIds(wecom, ConstantFallback("wecom"));
      changed := a || b || c || d;
    }
  }
}
