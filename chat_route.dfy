/**
 * The chat route (server/routes/chat.js): the per-mode specifications, message
 * sanitisation, the system prompt, the web-search decision, the scan for the latest user
 * message, and the payload returned to the client.
 */
module ChatRoute {
  import opened Wrappers
  import opened JsText

  // ---------------------------------------------------------------------------
  // Mode specifications
  // ---------------------------------------------------------------------------

  datatype Reasoning = Low | Medium | High

  datatype ModeSpec = ModeSpec(reasoning: Reasoning, defaultSearch: bool, disclaimer: Option<string>)

  const DoctorDisclaimer: string :=
    "This is not medical advice. For urgent or serious symptoms, contact a licensed clinician or emergency services."

  const TherapistDisclaimer: string :=
    "This is supportive conversation, not a substitute for professional mental health care. If in crisis, contact local emergency services or a crisis hotline."

  const BasicSpec := ModeSpec(Low, false, None)

  /** `MODE_SPECS[mode]`: `None` for a mode without a specification. */
  function SpecOf(mode: string): Option<ModeSpec>
  {
    if mode == "doctor" then Some(ModeSpec(High, false, Some(DoctorDisclaimer)))
    else if mode == "therapist" then Some(ModeSpec(High, false, Some(TherapistDisclaimer)))
    else if mode == "web" then Some(ModeSpec(Medium, true, None))
    else if mode == "basic" then Some(BasicSpec)
    else if mode == "excuse" then Some(ModeSpec(Medium, false, None))
    else None
  }

  /** `MODE_SPECS[mode] || MODE_SPECS.basic`. */
  function EffectiveSpec(mode: string): (s: ModeSpec)
    ensures SpecOf(mode).None? ==> s == BasicSpec
    ensures SpecOf(mode).Some? ==> s == SpecOf(mode).value
  {
    SpecOf(mode).GetOr(BasicSpec)
  }

  /** Only the doctor and therapist modes carry a disclaimer, and only web searches by default. */
  lemma SpecFacts(mode: string)
    ensures EffectiveSpec(mode).disclaimer.Some? <==> mode == "doctor" || mode == "therapist"
    ensures EffectiveSpec(mode).defaultSearch <==> mode == "web"
    ensures EffectiveSpec(mode).reasoning == High <==> mode == "doctor" || mode == "therapist"
  {
  }

  /** The mode the request names: `None` stands for a missing mode, which defaults to "basic". */
  function ModeOf(mode: Option<string>): string
  {
    mode.GetOr("basic")
  }

  /**
   * The effective web-search setting: an explicit boolean wins; otherwise the mode's
   * default, which is off for a mode without a specification.
   */
  function EffectiveWebSearch(webSearch: Option<bool>, mode: string): (b: bool)
    ensures webSearch.Some? ==> b == webSearch.value
    ensures webSearch.None? ==> (b <==> SpecOf(mode).Some? && SpecOf(mode).value.defaultSearch)
  {
    match webSearch
    case Some(w) => w
    case None => SpecOf(mode).Some? && SpecOf(mode).value.defaultSearch
  }

  /** Without an explicit setting only the web mode searches; an unknown mode never does. */
  lemma EffectiveWebSearchDefault(mode: string)
    ensures EffectiveWebSearch(None, mode) <==> mode == "web"
    ensures SpecOf(mode).None? ==> !EffectiveWebSearch(None, mode)
  {
  }

  // ---------------------------------------------------------------------------
  // Messages
  // ---------------------------------------------------------------------------

  datatype Role = SystemRole | AssistantRole | UserRole

  datatype Message = Message(role: Role, content: string)

  /**
   * One element of the request's message list. `role` and `content` are `None` when they
   * are not strings.
   */
  datatype RawMessage = RawMessage(role: Option<string>, content: Option<string>)

  /** The longest content kept. */
  const MaxContent := 8000

  /** "system" and "assistant" are kept; every other role is the user's. */
  function RoleOf(role: Option<string>): (r: Role)
    ensures r == SystemRole <==> role == Some("system")
    ensures r == AssistantRole <==> role == Some("assistant")
  {
    if role == Some("system") then SystemRole
    else if role == Some("assistant") then AssistantRole
    else UserRole
  }

  /** One element with its role mapped and its content cut to 8000 characters. */
  function Clean(m: RawMessage): (r: Message)
    ensures r.role == RoleOf(m.role)
    ensures m.content.None? ==> r.content == ""
    ensures m.content.Some? ==> |r.content| == (if |m.content.value| < MaxContent then |m.content.value| else MaxContent)
    ensures m.content.Some? ==> r.content == m.content.value[..|r.content|]
  {
    match m.content
    case None => Message(RoleOf(m.role), "")
    case Some(s) => Message(RoleOf(m.role), if |s| <= MaxContent then s else s[..MaxContent])
  }

  /** `.map(clean).filter(m => m.content)`, left to right. */
  function Kept(ms: seq<RawMessage>): (r: seq<Message>)
    ensures |r| <= |ms|
    ensures forall i :: 0 <= i < |r| ==> r[i].content != "" && |r[i].content| <= MaxContent
  {
    if ms == [] then []
    else
      var rest := Kept(ms[..|ms| - 1]);
      var c := Clean(ms[|ms| - 1]);
      if c.content != "" then rest + [c] else rest
  }

  /** Filtering distributes over concatenation: the order of the messages is kept. */
  lemma {:induction false} KeptAppend(a: seq<RawMessage>, b: seq<RawMessage>)
    ensures Kept(a + b) == Kept(a) + Kept(b)
    decreases |b|
  {
    if b == [] {
      assert a + b == a;
    } else {
      var b' := b[..|b| - 1];
      assert (a + b)[..|a + b| - 1] == a + b';
      KeptAppend(a, b');
    }
  }

  /** One element is kept exactly when its content is a non-empty string. */
  lemma KeptOne(m: RawMessage)
    ensures Kept([m]) == (if m.content.Some? && m.content.value != "" then [Clean(m)] else [])
  {
    assert [m][..0] == [];
  }

  /** Every kept message is the cleaned form of some element. */
  lemma {:induction false} KeptFrom(ms: seq<RawMessage>)
    ensures forall i :: 0 <= i < |Kept(ms)| ==> exists j :: 0 <= j < |ms| && Kept(ms)[i] == Clean(ms[j])
  {
    if ms != [] {
      var init := ms[..|ms| - 1];
      var c := Clean(ms[|ms| - 1]);
      KeptFrom(init);
      assert Kept(ms) == if c.content != "" then Kept(init) + [c] else Kept(init);
      forall i | 0 <= i < |Kept(ms)|
        ensures exists j :: 0 <= j < |ms| && Kept(ms)[i] == Clean(ms[j])
      {
        if i < |Kept(init)| {
          var j :| 0 <= j < |init| && Kept(init)[i] == Clean(init[j]);
          assert Kept(ms)[i] == Kept(init)[i];
          assert init[j] == ms[j];
        } else {
          var j := |ms| - 1;
          assert Kept(ms)[i] == Clean(ms[j]);
        }
      }
    } else {
      assert Kept(ms) == [];
    }
  }

  /**
   * `sanitizeMessages(messages)`: `None` stands for a value that is not an array, and a
   * `None` element for null or undefined, on which reading `role` throws.
   */
  function SanitizeMessages(raw: Option<seq<Option<RawMessage>>>): (r: Result<seq<Message>, string>)
    ensures raw.None? ==> r == Success([])
    ensures r.Failure? <==> raw.Some? && exists i :: 0 <= i < |raw.value| && raw.value[i].None?
    ensures r.Success? && raw.Some? ==>
      r.value == Kept(seq(|raw.value|, i requires 0 <= i < |raw.value| => raw.value[i].GetOr(RawMessage(None, None))))
  {
    match raw
    case None => Success([])
    case Some(xs) =>
      if exists i :: 0 <= i < |xs| && xs[i].None? then Failure("TypeError: cannot read properties of null")
      else Success(Kept(seq(|xs|, i requires 0 <= i < |xs| => xs[i].GetOr(RawMessage(None, None)))))
  }

  // ---------------------------------------------------------------------------
  // The system prompt and the final message list
  // ---------------------------------------------------------------------------

  /** `buildSystemPrompt(mode)`; the three-sentence prompts are their sentences joined with single spaces. */
  function SystemPrompt(mode: string): string
  {
    if mode == "doctor" then
      "You are a careful, evidence-informed medical assistant. "
      + "Ask relevant clarifying questions if needed. Provide possible considerations and next steps. "
      + "Be concise and clear. Avoid alarmist language."
    else if mode == "therapist" then
      "You are a supportive, empathetic, non-judgmental counselor. "
      + "Reflect feelings, ask gentle questions, and offer practical next steps. "
      + "Emphasize self-care and resources."
    else if mode == "web" then
      "You can use provided web results to answer. "
      + "Cite specific sources by domain (e.g., source: example.com) when referencing facts. "
      + "Be concise and avoid speculation."
    else if mode == "basic" then "You are a fast, helpful assistant. Keep answers short and practical."
    else if mode == "excuse" then "Generate a believable excuse tailored to the problem."
    else "You are a helpful assistant."
  }

  /** `[systemMsg, ...userMessages]`. */
  function FinalMessages(mode: string, msgs: seq<Message>): (r: seq<Message>)
    ensures |r| == |msgs| + 1
    ensures r[0] == Message(SystemRole, SystemPrompt(mode)) && r[1..] == msgs
  {
    [Message(SystemRole, SystemPrompt(mode))] + msgs
  }

  // ---------------------------------------------------------------------------
  // The latest user message
  // ---------------------------------------------------------------------------

  /** The content of the last user message, or the empty string when there is none. */
  function LastUserContent(msgs: seq<Message>): string
  {
    if msgs == [] then ""
    else if msgs[|msgs| - 1].role == UserRole then msgs[|msgs| - 1].content
    else LastUserContent(msgs[..|msgs| - 1])
  }

  /**
   * The scan reads the last user message: when there is one, the result is its content
   * and no later message is the user's; when there is none, the result is empty.
   */
  lemma {:induction false} LastUserContentSpec(msgs: seq<Message>)
    ensures (forall i :: 0 <= i < |msgs| ==> msgs[i].role != UserRole) ==> LastUserContent(msgs) == ""
    ensures forall k :: (0 <= k < |msgs| && msgs[k].role == UserRole &&
      (forall j :: k < j < |msgs| ==> msgs[j].role != UserRole)) ==> LastUserContent(msgs) == msgs[k].content
  {
    if msgs != [] {
      var init := msgs[..|msgs| - 1];
      LastUserContentSpec(init);
      assert forall i :: 0 <= i < |init| ==> init[i] == msgs[i];
    }
  }

  /** On sanitised messages the content is non-empty, so the scan gives "" exactly when no message is the user's. */
  lemma LastUserContentEmpty(raw: seq<RawMessage>)
    ensures LastUserContent(Kept(raw)) == "" <==> forall i :: 0 <= i < |Kept(raw)| ==> Kept(raw)[i].role != UserRole
  {
    var ms := Kept(raw);
    LastUserContentSpec(ms);
    if exists k :: 0 <= k < |ms| && ms[k].role == UserRole {
      var k := LastUser(ms);
      assert LastUserContent(ms) == ms[k].content;
    }
  }

  /** The index of the last user message of a list that has one. */
  lemma LastUser(ms: seq<Message>) returns (k: nat)
    requires exists k :: 0 <= k < |ms| && ms[k].role == UserRole
    ensures k < |ms| && ms[k].role == UserRole
    ensures forall j :: k < j < |ms| ==> ms[j].role != UserRole
  {
    k := |ms| - 1;
    while ms[k].role != UserRole
      invariant 0 <= k < |ms|
      invariant exists i :: 0 <= i <= k && ms[i].role == UserRole
      invariant forall j :: k < j < |ms| ==> ms[j].role != UserRole
      decreases k
    {
      k := k - 1;
    }
  }

  /** The handler's reverse loop over the sanitised messages. */
  method LatestUserContent(msgs: seq<Message>) returns (content: string)
    ensures content == LastUserContent(msgs)
  {
    content := "";
    var i := |msgs|;
    assert msgs[..i] == msgs;
    while i > 0
      invariant 0 <= i <= |msgs|
      invariant LastUserContent(msgs) == LastUserContent(msgs[..i])
      invariant content == ""
    {
      i := i - 1;
      assert msgs[..i + 1][..i] == msgs[..i];
      if msgs[i].role == UserRole {
        content := msgs[i].content;
        break;
      }
    }
  }

  // ---------------------------------------------------------------------------
  // The handler
  // ---------------------------------------------------------------------------

  /** What the handler hands to the model provider, with the latest user content beside it. */
  datatype Plan = Plan(reasoning: Reasoning, messages: seq<Message>, webSearch: bool, latestUser: string, disclaimer: Option<string>)

  /** The plan for a request, or the error sanitisation throws. */
  function PlanOf(mode: Option<string>, raw: Option<seq<Option<RawMessage>>>, webSearch: Option<bool>): Result<Plan, string>
  {
    var m := ModeOf(mode);
    match SanitizeMessages(raw)
    case Failure(e) => Failure(e)
    case Success(msgs) =>
      var spec := EffectiveSpec(m);
      Success(Plan(spec.reasoning, FinalMessages(m, msgs), EffectiveWebSearch(webSearch, m),
                   LastUserContent(msgs), spec.disclaimer))
  }

  /** The handler up to the provider call, with its reverse scan. */
  method PrepareChat(mode: Option<string>, raw: Option<seq<Option<RawMessage>>>, webSearch: Option<bool>)
    returns (r: Result<Plan, string>)
    ensures r == PlanOf(mode, raw, webSearch)
  {
    var m := ModeOf(mode);
    var sanitized := SanitizeMessages(raw);
    if sanitized.Failure? {
      return Failure(sanitized.error);
    }
    var msgs := sanitized.value;
    var spec := EffectiveSpec(m);
    var latest := LatestUserContent(msgs);
    var sys := Message(SystemRole, SystemPrompt(m));
    r := Success(Plan(spec.reasoning, [sys] + msgs, EffectiveWebSearch(webSearch, m), latest, spec.disclaimer));
  }

  /** An unknown mode is handled as the basic one, but with the generic prompt and no search by default. */
  lemma PlanUnknownMode(mode: string, raw: Option<seq<Option<RawMessage>>>, webSearch: Option<bool>)
    requires SpecOf(mode).None?
    requires PlanOf(Some(mode), raw, webSearch).Success?
    ensures var p := PlanOf(Some(mode), raw, webSearch).value;
      && p.reasoning == Low && p.disclaimer.None?
      && p.messages[0] == Message(SystemRole, "You are a helpful assistant.")
      && (webSearch.None? ==> !p.webSearch)
  {
  }

  /** A missing mode is the basic mode. */
  lemma PlanMissingMode(raw: Option<seq<Option<RawMessage>>>, webSearch: Option<bool>)
    ensures PlanOf(None, raw, webSearch) == PlanOf(Some("basic"), raw, webSearch)
  {
  }

  /** A request whose messages are not a list sends the system message alone. */
  lemma PlanWithoutMessages(mode: Option<string>, webSearch: Option<bool>)
    ensures PlanOf(mode, None, webSearch).Success?
    ensures var p := PlanOf(mode, None, webSearch).value;
      p.messages == [Message(SystemRole, SystemPrompt(ModeOf(mode)))] && p.latestUser == ""
  {
  }

  /** The reply the provider gave, as the handler reads it. */
  datatype ProviderReply = ProviderReply(text: string, modelUsed: string, provider: string)

  datatype Payload = Payload(message: Message, modelUsed: string, providerUsed: string, disclaimer: Option<string>, sources: seq<string>)

  /** The response body: the reply as an assistant message, the mode's disclaimer, and no sources. */
  function PayloadOf(plan: Plan, reply: ProviderReply): (p: Payload)
    ensures p.sources == [] && p.disclaimer == plan.disclaimer
    ensures p.message == Message(AssistantRole, reply.text)
  {
    Payload(Message(AssistantRole, reply.text), reply.modelUsed, reply.provider, plan.disclaimer, [])
  }

  /** The disclaimer reaches the client exactly for the doctor and therapist modes. */
  lemma PayloadDisclaimer(mode: Option<string>, raw: Option<seq<Option<RawMessage>>>, webSearch: Option<bool>, reply: ProviderReply)
    requires PlanOf(mode, raw, webSearch).Success?
    ensures PayloadOf(PlanOf(mode, raw, webSearch).value, reply).disclaimer.Some? <==>
      ModeOf(mode) == "doctor" || ModeOf(mode) == "therapist"
  {
    SpecFacts(ModeOf(mode));
  }
}
