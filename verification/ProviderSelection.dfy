/** The choice of a provider among the candidates for a model (`select_by_priority`): the highest
    effective weight wins, equal weights are spread by a score of session and route, and the
    route id decides the rest. */
module ProviderSelection {
  import opened Wrappers
  import opened Text

  datatype ProviderType = OpenAiResponses | DeepSeekResponses | GrokResponses | ChatCompletions | AnthropicMessages

  datatype Provider = Provider(name: string, providerType: ProviderType, baseUrl: string, weight: nat)

  function RouteKey(t: ProviderType): string {
    match t
    case OpenAiResponses => "openai_responses"
    case DeepSeekResponses => "deepseek_responses"
    case GrokResponses => "grok_responses"
    case ChatCompletions => "chat_completions"
    case AnthropicMessages => "anthropic_messages"
  }

  function RouteId(p: Provider): string {
    Trim(p.name) + "\0" + RouteKey(p.providerType) + "\0" + Trim(p.baseUrl)
  }

  function EffectiveWeight(p: Provider): nat {
    if p.weight < 1 then 1 else p.weight
  }

  /** The hash-based score of a session and a route id; only its order matters here. */
  type Score = (string, string) -> real

  function SessionOf(sessionId: Option<string>): Option<string> {
    if sessionId.Some? && Trim(sessionId.value) != "" then Some(Trim(sessionId.value)) else None
  }

  function ScoreOf(score: Score, session: Option<string>, p: Provider): real {
    if session.Some? then score(session.value, RouteId(p)) else 0.0
  }

  /** The comparator: `a` does not rank above `b`. */
  predicate AtMost(score: Score, session: Option<string>, a: Provider, b: Provider) {
    || EffectiveWeight(a) < EffectiveWeight(b)
    || (EffectiveWeight(a) == EffectiveWeight(b)
        && (|| ScoreOf(score, session, a) < ScoreOf(score, session, b)
            || (ScoreOf(score, session, a) == ScoreOf(score, session, b) && Leq(RouteId(a), RouteId(b)))))
  }

  /** `max_by`: of several maximal candidates the last one. */
  function Best(score: Score, session: Option<string>, candidates: seq<Provider>): Option<Provider> {
    if candidates == [] then None
    else
      var last := candidates[|candidates| - 1];
      var best := Best(score, session, candidates[..|candidates| - 1]);
      if best.Some? && !AtMost(score, session, best.value, last) then best else Some(last)
  }

  function SelectByPriority(score: Score, candidates: seq<Provider>, sessionId: Option<string>): Option<Provider> {
    Best(score, SessionOf(sessionId), candidates)
  }

  // ---------- the comparator is a total preorder that ties only on equal routes ----------

  lemma AtMostTotal(score: Score, session: Option<string>, a: Provider, b: Provider)
    ensures AtMost(score, session, a, b) || AtMost(score, session, b, a)
  {
    LeqTotal(RouteId(a), RouteId(b));
  }

  lemma AtMostTransitive(score: Score, session: Option<string>, a: Provider, b: Provider, c: Provider)
    requires AtMost(score, session, a, b) && AtMost(score, session, b, c)
    ensures AtMost(score, session, a, c)
  {
    if Leq(RouteId(a), RouteId(b)) && Leq(RouteId(b), RouteId(c)) {
      LeqTransitive(RouteId(a), RouteId(b), RouteId(c));
    }
  }

  lemma TiesShareRoute(score: Score, session: Option<string>, a: Provider, b: Provider)
    requires AtMost(score, session, a, b) && AtMost(score, session, b, a)
    ensures RouteId(a) == RouteId(b) && EffectiveWeight(a) == EffectiveWeight(b)
  {
    LeqAntisymmetric(RouteId(a), RouteId(b));
  }

  /** The selected provider is a candidate that no candidate ranks above; there is one as soon as there
      are candidates. */
  lemma {:induction false} SelectedIsMaximum(score: Score, session: Option<string>, candidates: seq<Provider>)
    ensures Best(score, session, candidates).None? <==> candidates == []
    ensures candidates != [] ==> Best(score, session, candidates).value in candidates
    ensures forall c :: c in candidates ==> AtMost(score, session, c, Best(score, session, candidates).value)
  {
    if candidates != [] {
      var init, last := candidates[..|candidates| - 1], candidates[|candidates| - 1];
      SelectedIsMaximum(score, session, init);
      var best := Best(score, session, candidates).value;
      AtMostTotal(score, session, last, last);
      if init != [] {
        var previous := Best(score, session, init).value;
        AtMostTotal(score, session, previous, last);
        forall c | c in init ensures AtMost(score, session, c, best) {
          AtMostTransitive(score, session, c, previous, best);
        }
      }
      assert candidates == init + [last];
    }
  }

  /** The choice survives any change of the candidates that keeps the chosen provider and brings no new
      one: reordering, repeating, and removing others all leave the chosen route as it is. */
  lemma SelectionIsStable(score: Score, candidates: seq<Provider>, others: seq<Provider>, sessionId: Option<string>)
    requires candidates != [] && SelectByPriority(score, candidates, sessionId).value in others
    requires forall c :: c in others ==> c in candidates
    ensures SelectByPriority(score, others, sessionId).Some?
    ensures RouteId(SelectByPriority(score, others, sessionId).value)
            == RouteId(SelectByPriority(score, candidates, sessionId).value)
  {
    var session := SessionOf(sessionId);
    SelectedIsMaximum(score, session, candidates);
    SelectedIsMaximum(score, session, others);
    TiesShareRoute(score, session, Best(score, session, candidates).value, Best(score, session, others).value);
  }

  lemma Inserted(candidates: seq<Provider>, p: Provider, position: nat, c: Provider)
    requires position <= |candidates|
    ensures c in candidates[..position] + [p] + candidates[position..] <==> c == p || c in candidates
  {
    assert candidates == candidates[..position] + candidates[position..];
  }

  /** A new provider can only win the choice for itself. */
  lemma NewProviderOnlyWinsItself(score: Score, candidates: seq<Provider>, p: Provider, position: nat,
                                  sessionId: Option<string>)
    requires candidates != [] && position <= |candidates|
    ensures var grown := candidates[..position] + [p] + candidates[position..];
            || RouteId(SelectByPriority(score, grown, sessionId).value)
               == RouteId(SelectByPriority(score, candidates, sessionId).value)
            || SelectByPriority(score, grown, sessionId) == Some(p)
  {
    var session := SessionOf(sessionId);
    var grown := candidates[..position] + [p] + candidates[position..];
    SelectedIsMaximum(score, session, candidates);
    SelectedIsMaximum(score, session, grown);
    var before, after := Best(score, session, candidates).value, Best(score, session, grown).value;
    Inserted(candidates, p, position, before);
    Inserted(candidates, p, position, after);
    if after != p {
      TiesShareRoute(score, session, before, after);
    }
  }

  /** Weight comes first, and without a usable session the greatest route id among the heaviest wins. */
  lemma WeightThenRoute(score: Score, candidates: seq<Provider>, sessionId: Option<string>, c: Provider)
    requires c in candidates
    ensures var best := SelectByPriority(score, candidates, sessionId).value;
            && EffectiveWeight(c) <= EffectiveWeight(best)
            && (SessionOf(sessionId).None? && EffectiveWeight(c) == EffectiveWeight(best) ==>
                Leq(RouteId(c), RouteId(best)))
            && (SessionOf(sessionId).Some? && EffectiveWeight(c) == EffectiveWeight(best) ==>
                  score(SessionOf(sessionId).value, RouteId(c)) <= score(SessionOf(sessionId).value, RouteId(best)))
  {
    SelectedIsMaximum(score, SessionOf(sessionId), candidates);
  }
}
