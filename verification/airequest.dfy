/** The pure decisions of `generateWithAI` in
    wikischolar/services/aiService.ts: which provider, key and model serve a
    request, when it is refused for a missing key, which prompt carries the
    context, where the request is sent, how an unsuccessful HTTP status is
    reported, and how the JSON part of a reply is cut out of the text
    around it. The network, `window.puter` and `JSON.parse` are not
    modelled. */
module AiRequest {
  import opened Wrappers
  import opened Chars
  import opened Text

  // ---------------------------------------------------------------------------
  // Configuration
  // ---------------------------------------------------------------------------

  datatype Provider = OpenAi | Gemini | OpenRouter | CustomEndpoint | Puter

  function ProviderName(p: Provider): string {
    match p
    case OpenAi => "openai"
    case Gemini => "gemini"
    case OpenRouter => "openrouter"
    case CustomEndpoint => "custom"
    case Puter => "puter"
  }

  /** The settings record; optional fields are absent when unset. */
  datatype AiConfig = AiConfig(
    provider: Provider,
    apiKey: string,
    model: string,
    baseUrl: Option<string>,
    persona: string,
    useSeparateImageModel: Option<bool>,
    imageModelProvider: Option<Provider>,
    imageModel: Option<string>,
    imageApiKey: Option<string>)

  const DefaultImageModel: string := "gemini-2.5-flash-image-preview"

  /** The configuration a new user starts with: a free OpenRouter text
      model without a key, and Puter for images. */
  const DefaultConfig: AiConfig := AiConfig(
    OpenRouter, "", "google/gemma-3-27b-it:free", None, "High School Student",
    Some(true), Some(Puter), Some(DefaultImageModel), None)

  /** The kinds of request, with the payload each one takes. */
  datatype Request =
    | Flashcards
    | Quiz
    | Simplify
    | Custom(task: string)
    | StudyGuide
    | Expand
    | Diagram
    | RealWorld
    | ExamGen(questionCount: int, difficulty: string, style: string)
    | GradeAnswer(question: string, modelAnswer: string, userAnswer: string, marks: int)

  function TypeName(req: Request): string {
    match req
    case Flashcards => "flashcards"
    case Quiz => "quiz"
    case Simplify => "simplify"
    case Custom(_) => "custom"
    case StudyGuide => "study_guide"
    case Expand => "expand"
    case Diagram => "diagram"
    case RealWorld => "real_world"
    case ExamGen(_, _, _) => "exam_gen"
    case GradeAnswer(_, _, _, _) => "grade_answer"
  }

  /** Provider, key and model that serve a request, and whether a diagram
      goes through the image protocol. */
  datatype Effective = Effective(provider: Provider, apiKey: string, model: string, imageProtocol: bool)

  /** `s.trim()` is not empty. */
  predicate NonBlank(s: string) {
    Trim(s) != ""
  }

  /** The effective configuration. Text requests use the main settings.
      A diagram with a separate image model uses the image provider (Puter
      when unset), the image model (the default image model when unset or
      empty) and the image key when it is not blank. A diagram without a
      separate model and without a main key goes to Puter with the default
      image model. */
  function Resolve(config: AiConfig, req: Request): (r: Effective)
    ensures !req.Diagram? ==> r == Effective(config.provider, config.apiKey, config.model, false)
    ensures req.Diagram? && config.useSeparateImageModel == Some(true) ==>
              && r.provider == config.imageModelProvider.GetOr(Puter)
              && r.model == (if config.imageModel.GetOr("") == "" then DefaultImageModel else config.imageModel.value)
              && r.apiKey == (if config.imageApiKey.Some? && NonBlank(config.imageApiKey.value)
                              then config.imageApiKey.value else config.apiKey)
    ensures req.Diagram? && config.useSeparateImageModel != Some(true) ==>
              && r.apiKey == config.apiKey
              && (config.apiKey == "" ==> r.provider == Puter && r.model == DefaultImageModel)
              && (config.apiKey != "" ==> r.provider == config.provider && r.model == config.model)
    ensures r.imageProtocol <==> req.Diagram? && (r.provider == OpenRouter || r.provider == Puter)
  {
    if !req.Diagram? then Effective(config.provider, config.apiKey, config.model, false)
    else
      var separate := config.useSeparateImageModel == Some(true);
      var provider := if separate then config.imageModelProvider.GetOr(Puter) else config.provider;
      var model := if separate then (if config.imageModel.GetOr("") == "" then DefaultImageModel else config.imageModel.value)
                   else config.model;
      var key := if separate && config.imageApiKey.Some? && NonBlank(config.imageApiKey.value)
                 then config.imageApiKey.value else config.apiKey;
      var fallback := !separate && config.apiKey == "";
      var p := if fallback then Puter else provider;
      var m := if fallback then DefaultImageModel else model;
      Effective(p, key, m, p == OpenRouter || p == Puter)
  }

  const MissingKeyMessage: string := "API Key is missing. Please configure it in settings."

  /** The key check: every provider but Puter needs a key that is not
      blank. */
  predicate MissingKey(e: Effective) {
    e.provider != Puter && Trim(e.apiKey) == ""
  }

  // ---------------------------------------------------------------------------
  // Prompts
  // ---------------------------------------------------------------------------

  /** `context.substring(0, n)`. */
  function Excerpt(context: string, n: nat): (r: string)
    ensures |r| == (if n <= |context| then n else |context|)
    ensures r == context[..|r|]
  {
    if n <= |context| then context[..n] else context
  }

  /** The user prompt of each kind of request. */
  function Prompt(req: Request, context: string): string {
    match req
    case Custom(task) => "Task: " + task + "\nContext:\n" + Excerpt(context, 4500)
    case ExamGen(count, difficulty, style) =>
      "Create a " + IntToString(count) + " question exam on this topic. Difficulty: " + difficulty
      + ". Style: " + style + ".\nContext:\n" + Excerpt(context, 4500)
    case GradeAnswer(question, modelAnswer, userAnswer, marks) =>
      "Question: " + question + "\nModel Answer: " + modelAnswer + "\nStudent Answer: " + userAnswer
      + "\nMax Marks: " + IntToString(marks)
    case Diagram =>
      "Generate a detailed educational diagram about: " + Excerpt(context, 500) + ". Ensure clear labeling."
    case _ => "Task: " + Upper(TypeName(req)) + "\nContext:\n" + Excerpt(context, 4500)
  }

  /** How much of the context a request embeds. */
  function ContextLimit(req: Request): nat {
    match req
    case GradeAnswer(_, _, _, _) => 0
    case Diagram => 500
    case _ => 4500
  }

  /** The text before and after the embedded context. */
  function PromptFrame(req: Request): (string, string) {
    match req
    case Custom(task) => ("Task: " + task + "\nContext:\n", "")
    case ExamGen(count, difficulty, style) =>
      ("Create a " + IntToString(count) + " question exam on this topic. Difficulty: " + difficulty
       + ". Style: " + style + ".\nContext:\n", "")
    case GradeAnswer(question, modelAnswer, userAnswer, marks) =>
      ("Question: " + question + "\nModel Answer: " + modelAnswer + "\nStudent Answer: " + userAnswer
       + "\nMax Marks: " + IntToString(marks), "")
    case Diagram => ("Generate a detailed educational diagram about: ", ". Ensure clear labeling.")
    case _ => ("Task: " + Upper(TypeName(req)) + "\nContext:\n", "")
  }

  /** Every prompt is a fixed frame around the first `ContextLimit`
      characters of the context: at most 4500 of them, 500 for a diagram
      and none for grading. */
  lemma PromptEmbedsExcerpt(req: Request, context: string)
    ensures Prompt(req, context) == PromptFrame(req).0 + Excerpt(context, ContextLimit(req)) + PromptFrame(req).1
    ensures |Excerpt(context, ContextLimit(req))| <= 4500
  {
    if req.GradeAnswer? {
      assert Excerpt(context, 0) == [];
    }
  }

  /** Hence contexts that agree on their first `ContextLimit` characters
      give the same prompt. */
  lemma PromptIgnoresRest(req: Request, c1: string, c2: string)
    requires |c1| >= ContextLimit(req) && |c2| >= ContextLimit(req)
    requires c1[..ContextLimit(req)] == c2[..ContextLimit(req)]
    ensures Prompt(req, c1) == Prompt(req, c2)
  {
    PromptEmbedsExcerpt(req, c1);
    PromptEmbedsExcerpt(req, c2);
  }

  // ---------------------------------------------------------------------------
  // Where the request goes
  // ---------------------------------------------------------------------------

  const OpenAiUrl: string := "https://api.openai.com/v1/chat/completions"
  const OpenRouterUrl: string := "https://openrouter.ai/api/v1/chat/completions"

  function GeminiUrl(model: string, key: string): string {
    "https://generativelanguage.googleapis.com/v1beta/models/" + model + ":generateContent?key=" + key
  }

  /** The JSON body: a user-only chat for an OpenRouter image, a chat with
      the system prompt at temperature 0.5 for the other chat endpoints, and
      one text part joining both prompts for Gemini. */
  datatype Body =
    | ImageChat(model: string, user: string)
    | Chat(model: string, system: string, user: string)
    | GeminiText(text: string)

  /** What `generateWithAI` does before any network traffic. */
  datatype Dispatch =
    | Refused(message: string)
    | PuterImage(prompt: string, model: string)
    | Post(endpoint: string, headers: seq<(string, string)>, body: Body)

  /** Plans a request. `system` is the system prompt for the request and
      the configured persona; `origin` is the page origin sent to
      OpenRouter. */
  function Plan(config: AiConfig, req: Request, context: string, system: string, origin: string): (r: Dispatch)
    ensures var e := Resolve(config, req);
            && (r == Refused(MissingKeyMessage) <==> MissingKey(e))
            && (r.PuterImage? <==> !MissingKey(e) && e.provider == Puter && req.Diagram?)
            && (r.Refused? && r != Refused(MissingKeyMessage) <==> e.provider == Puter && !req.Diagram?)
  {
    var e := Resolve(config, req);
    var key := Trim(e.apiKey);
    if e.provider != Puter && key == "" then Refused(MissingKeyMessage)
    else
      var prompt := Prompt(req, context);
      var model := Trim(e.model);
      if e.provider == Puter && req.Diagram? then PuterImage(prompt, e.model)
      else
        match e.provider
        case Gemini =>
          Post(GeminiUrl(model, key), [("Content-Type", "application/json")],
               GeminiText(system + "\n\nUser Query: " + prompt))
        case Puter => Refused("Unsupported AI provider: " + ProviderName(e.provider))
        case _ =>
          var endpoint := if e.provider == OpenAi then OpenAiUrl
                          else if e.provider == OpenRouter then OpenRouterUrl
                          else config.baseUrl.GetOr("");
          var extra := if e.provider == OpenRouter then [("HTTP-Referer", origin), ("X-Title", "WikiScholar")] else [];
          var headers := [("Content-Type", "application/json"), ("Authorization", "Bearer " + key)] + extra;
          var body := if req.Diagram? && e.provider == OpenRouter && e.imageProtocol then ImageChat(model, prompt)
                      else Chat(model, system, prompt);
          Post(endpoint, headers, body)
  }

  /** A request that leaves for the network always carries a key that is
      not blank: in the Authorization header for the chat endpoints, in the
      URL for Gemini. It goes to the endpoint of its provider, and a diagram
      uses the user-only body exactly when it goes to OpenRouter. */
  lemma PostCarriesKey(config: AiConfig, req: Request, context: string, system: string, origin: string)
    ensures var e := Resolve(config, req);
            var r := Plan(config, req, context, system, origin);
            var key := Trim(e.apiKey);
            r.Post? ==>
            && key != ""
            && (e.provider == Gemini ==> r.endpoint == GeminiUrl(Trim(e.model), key))
            && (e.provider == OpenAi ==> r.endpoint == OpenAiUrl)
            && (e.provider == OpenRouter ==> r.endpoint == OpenRouterUrl)
            && (e.provider == CustomEndpoint ==> r.endpoint == config.baseUrl.GetOr(""))
            && (e.provider != Gemini ==> ("Authorization", "Bearer " + key) in r.headers)
            && (r.body.ImageChat? <==> req.Diagram? && e.provider == OpenRouter)
  {
    PostEndpoint(config, req, context, system, origin);
    PostHeaders(config, req, context, system, origin);
  }

  /** The endpoint half of `PostCarriesKey`. */
  lemma PostEndpoint(config: AiConfig, req: Request, context: string, system: string, origin: string)
    ensures var e := Resolve(config, req);
            var r := Plan(config, req, context, system, origin);
            var key := Trim(e.apiKey);
            r.Post? ==>
            && key != ""
            && (e.provider == Gemini ==> r.endpoint == GeminiUrl(Trim(e.model), key))
            && (e.provider == OpenAi ==> r.endpoint == OpenAiUrl)
            && (e.provider == OpenRouter ==> r.endpoint == OpenRouterUrl)
            && (e.provider == CustomEndpoint ==> r.endpoint == config.baseUrl.GetOr(""))
  {
    PostGeminiEndpoint(config, req, context, system, origin);
    PostChatEndpoint(config, req, context, system, origin);
  }

  /** A request that leaves has a key, and Gemini's carries it in the URL. */
  lemma PostGeminiEndpoint(config: AiConfig, req: Request, context: string, system: string, origin: string)
    ensures var e := Resolve(config, req);
            var r := Plan(config, req, context, system, origin);
            r.Post? ==> Trim(e.apiKey) != ""
                        && (e.provider == Gemini ==> r.endpoint == GeminiUrl(Trim(e.model), Trim(e.apiKey)))
  {
    PostHasKey(config, req, context, system, origin);
    if Resolve(config, req).provider == Gemini {
      PostGemini(config, req, context, system, origin);
    }
  }

  lemma PostHasKey(config: AiConfig, req: Request, context: string, system: string, origin: string)
    ensures Plan(config, req, context, system, origin).Post? ==> Trim(Resolve(config, req).apiKey) != ""
  {
  }

  lemma PostGemini(config: AiConfig, req: Request, context: string, system: string, origin: string)
    requires Resolve(config, req).provider == Gemini
    ensures var e := Resolve(config, req);
            var r := Plan(config, req, context, system, origin);
            r.Post? ==> r.endpoint == GeminiUrl(Trim(e.model), Trim(e.apiKey))
  {
  }

  /** The chat providers post to their own endpoints. */
  lemma PostChatEndpoint(config: AiConfig, req: Request, context: string, system: string, origin: string)
    ensures var e := Resolve(config, req);
            var r := Plan(config, req, context, system, origin);
            r.Post? ==>
            && (e.provider == OpenAi ==> r.endpoint == OpenAiUrl)
            && (e.provider == OpenRouter ==> r.endpoint == OpenRouterUrl)
            && (e.provider == CustomEndpoint ==> r.endpoint == config.baseUrl.GetOr(""))
  {
    var e := Resolve(config, req);
    if e.provider == OpenAi {
      PostOpenAi(config, req, context, system, origin);
    } else if e.provider == OpenRouter {
      PostOpenRouter(config, req, context, system, origin);
    } else if e.provider == CustomEndpoint {
      PostCustom(config, req, context, system, origin);
    }
  }

  lemma PostOpenAi(config: AiConfig, req: Request, context: string, system: string, origin: string)
    requires Resolve(config, req).provider == OpenAi
    ensures var r := Plan(config, req, context, system, origin); r.Post? ==> r.endpoint == OpenAiUrl
  {
  }

  lemma PostOpenRouter(config: AiConfig, req: Request, context: string, system: string, origin: string)
    requires Resolve(config, req).provider == OpenRouter
    ensures var r := Plan(config, req, context, system, origin); r.Post? ==> r.endpoint == OpenRouterUrl
  {
  }

  lemma PostCustom(config: AiConfig, req: Request, context: string, system: string, origin: string)
    requires Resolve(config, req).provider == CustomEndpoint
    ensures var r := Plan(config, req, context, system, origin); r.Post? ==> r.endpoint == config.baseUrl.GetOr("")
  {
  }

  /** The header and body half of `PostCarriesKey`. */
  lemma PostHeaders(config: AiConfig, req: Request, context: string, system: string, origin: string)
    ensures var e := Resolve(config, req);
            var r := Plan(config, req, context, system, origin);
            r.Post? ==>
            && (e.provider != Gemini ==> ("Authorization", "Bearer " + Trim(e.apiKey)) in r.headers)
            && (r.body.ImageChat? <==> req.Diagram? && e.provider == OpenRouter)
  {
    var r := Plan(config, req, context, system, origin);
    var e := Resolve(config, req);
    if r.Post? && e.provider != Gemini {
      assert r.headers[1] == ("Authorization", "Bearer " + Trim(e.apiKey));
    }
  }

  /** A new user can draw diagrams at once: with the default settings a
      diagram goes to Puter without a key, while a text request is refused
      until a key is entered. */
  lemma DefaultsDrawWithPuter(context: string, system: string, origin: string)
    ensures Plan(DefaultConfig, Diagram, context, system, origin).PuterImage?
    ensures Plan(DefaultConfig, Quiz, context, system, origin) == Refused(MissingKeyMessage)
  {
    assert Trim("") == "";
  }

  /** Without a main key and without a separate image model, a diagram is
      never refused for a missing key: it falls back to Puter. */
  lemma KeylessDiagramFallsBack(config: AiConfig, context: string, system: string, origin: string)
    requires config.useSeparateImageModel != Some(true) && config.apiKey == ""
    ensures Plan(config, Diagram, context, system, origin) == PuterImage(Prompt(Diagram, context), DefaultImageModel)
  {
  }

  // ---------------------------------------------------------------------------
  // Replies
  // ---------------------------------------------------------------------------

  /** The errors an unsuccessful reply raises. */
  datatype ApiError = QuotaExceeded | NoCredits | Unauthorized | HttpError(status: int)

  /** The error for a status; None when the status is in the successful
      range 200-299. Statuses 429, 402 and 401 have errors of their own. */
  function StatusError(status: int): (r: Option<ApiError>)
    ensures r.None? <==> 200 <= status <= 299
    ensures r == Some(QuotaExceeded) <==> status == 429
    ensures r == Some(NoCredits) <==> status == 402
    ensures r == Some(Unauthorized) <==> status == 401
    ensures r.Some? && r.value.HttpError? ==> r.value.status == status
  {
    if 200 <= status <= 299 then None
    else if status == 429 then Some(QuotaExceeded)
    else if status == 402 then Some(NoCredits)
    else if status == 401 then Some(Unauthorized)
    else Some(HttpError(status))
  }

  function Message(e: ApiError): string {
    match e
    case QuotaExceeded => "Your API Key quota has been exceeded (429 Too Many Requests)."
    case NoCredits => "Insufficient Credits (402). Try switching to 'Free (Puter.js)' in settings for images."
    case Unauthorized => "Unauthorized (401). Check API Key."
    case HttpError(status) => "AI API Error (" + IntToString(status) + ")"
  }

  /** Each unsuccessful status is reported by its own error. */
  lemma StatusErrorIdentifies(a: int, b: int)
    requires StatusError(a).Some? && StatusError(a) == StatusError(b)
    ensures a == b
  {
  }

  /** The generic message names the status it came from. */
  lemma HttpErrorMessageIdentifies(a: int, b: int)
    requires Message(HttpError(a)) == Message(HttpError(b))
    ensures a == b
  {
    GenericMessageInjective(IntToString(a), IntToString(b));
    IntToStringInjective(a, b);
  }

  lemma GenericMessageInjective(x: string, y: string)
    requires "AI API Error (" + x + ")" == "AI API Error (" + y + ")"
    ensures x == y
  {
    var m := "AI API Error (" + x + ")";
    assert x == m[14..|m| - 1];
    assert y == m[14..|m| - 1];
  }

  /** Different integers are written differently. */
  lemma IntToStringInjective(a: int, b: int)
    requires IntToString(a) == IntToString(b)
    ensures a == b
  {
  }

  /** `` /```json/gi ``: a code-fence tag in any letter case. */
  predicate IsFenceTag(t: string) {
    |t| == 7 && t[0] == '`' && t[1] == '`' && t[2] == '`'
    && ToLower(t[3]) == 'j' && ToLower(t[4]) == 's' && ToLower(t[5]) == 'o' && ToLower(t[6]) == 'n'
  }

  /** `content.replace(/```json/gi, '')`: tags are removed left to right. */
  function RemoveFenceTags(s: string): (r: string)
    ensures |r| <= |s|
    decreases |s|
  {
    if |s| < 7 then s
    else if IsFenceTag(s[..7]) then RemoveFenceTags(s[7..])
    else [s[0]] + RemoveFenceTags(s[1..])
  }

  /** A fence tag starts at position `k` of `p`. */
  predicate TagAt(p: string, k: int) {
    0 <= k && k + 7 <= |p| && IsFenceTag(p[k..k + 7])
  }

  /** No fence tag starts anywhere in `p`. */
  ghost predicate TagFree(p: string) {
    forall k :: !TagAt(p, k)
  }

  /** The pieces with one tag between each two of them. */
  function Weave(pieces: seq<string>, tags: seq<string>): string
    requires |pieces| == |tags| + 1
    decreases |tags|
  {
    if |tags| == 0 then pieces[0] else pieces[0] + tags[0] + Weave(pieces[1..], tags[1..])
  }

  /** `s` is tag-free pieces woven with fence tags, and `r` is the same
      pieces glued with nothing in between. */
  ghost predicate TagsCut(s: string, r: string, pieces: seq<string>, tags: seq<string>) {
    && |pieces| == |tags| + 1
    && (forall i :: 0 <= i < |tags| ==> IsFenceTag(tags[i]))
    && (forall i :: 0 <= i < |pieces| ==> TagFree(pieces[i]))
    && Weave(pieces, tags) == s
    && Join(pieces, "") == r
  }

  /** Removing fence tags cuts the reply, at the tags it removes, into
      pieces holding no tag, and keeps exactly those pieces. */
  lemma {:induction false} RemoveFenceTagsPieces(s: string)
    ensures exists pieces, tags :: TagsCut(s, RemoveFenceTags(s), pieces, tags)
    decreases |s|
  {
    if |s| < 7 {
      assert TagsCut(s, RemoveFenceTags(s), [s], []);
    } else if IsFenceTag(s[..7]) {
      var t := s[7..];
      RemoveFenceTagsPieces(t);
      var ps, ts :| TagsCut(t, RemoveFenceTags(t), ps, ts);
      TagsAfterTag(s, ps, ts);
      assert TagsCut(s, RemoveFenceTags(s), [""] + ps, [s[..7]] + ts);
    } else {
      var t := s[1..];
      RemoveFenceTagsPieces(t);
      var ps, ts :| TagsCut(t, RemoveFenceTags(t), ps, ts);
      TagsAfterChar(s, ps, ts);
      assert TagsCut(s, RemoveFenceTags(s), [[s[0]] + ps[0]] + ps[1..], ts);
    }
  }

  /** A tag at the front adds an empty first piece. */
  lemma TagsAfterTag(s: string, ps: seq<string>, ts: seq<string>)
    requires |s| >= 7 && IsFenceTag(s[..7])
    requires TagsCut(s[7..], RemoveFenceTags(s[7..]), ps, ts)
    ensures TagsCut(s, RemoveFenceTags(s), [""] + ps, [s[..7]] + ts)
  {
    var qs := [""] + ps;
    var us := [s[..7]] + ts;
    assert qs[1..] == ps && us[1..] == ts;
    assert Join(qs, "") == Join(ps, "");
    assert Weave(qs, us) == s[..7] + s[7..];
    assert s == s[..7] + s[7..];
    assert TagFree("");
    assert forall i :: 0 < i < |qs| ==> qs[i] == ps[i - 1];
    assert forall i :: 0 < i < |us| ==> us[i] == ts[i - 1];
  }

  /** A character that starts no tag joins the first piece. */
  lemma TagsAfterChar(s: string, ps: seq<string>, ts: seq<string>)
    requires |s| >= 7 && !IsFenceTag(s[..7])
    requires TagsCut(s[1..], RemoveFenceTags(s[1..]), ps, ts)
    ensures TagsCut(s, RemoveFenceTags(s), [[s[0]] + ps[0]] + ps[1..], ts)
  {
    var head := [s[0]] + ps[0];
    var qs := [head] + ps[1..];
    JoinConsHead(s[0], ps, "");
    WeaveConsHead(s[0], ps, ts);
    assert s == [s[0]] + s[1..];
    assert RemoveFenceTags(s) == [s[0]] + RemoveFenceTags(s[1..]);
    WeaveStartsWith(qs, ts);
    TagFreeHead(s, head, ps[0]);
    AllTagFreeCons(head, ps);
  }

  /** A tag-free piece in front of the later pieces keeps them all
      tag-free. */
  lemma AllTagFreeCons(head: string, ps: seq<string>)
    requires |ps| >= 1 && TagFree(head)
    requires forall i :: 0 <= i < |ps| ==> TagFree(ps[i])
    ensures var qs := [head] + ps[1..]; forall i :: 0 <= i < |qs| ==> TagFree(qs[i])
  {
    var qs := [head] + ps[1..];
    assert forall i :: 0 < i < |qs| ==> qs[i] == ps[i];
  }

  /** A prefix of `s` that is one character followed by a tag-free piece
      is itself tag-free, when no tag starts `s`. */
  lemma TagFreeHead(s: string, head: string, p: string)
    requires |s| >= 7 && !IsFenceTag(s[..7])
    requires head == [s[0]] + p && |head| <= |s| && s[..|head|] == head && TagFree(p)
    ensures TagFree(head)
  {
    forall k | 0 <= k && k + 7 <= |head| ensures !TagAt(head, k) {
      if k == 0 {
        assert head[0..7] == s[..7];
      } else {
        var j := k - 1;
        assert head[1..] == p;
        assert head[k..k + 7] == head[1..][j..j + 7];
        assert !TagAt(p, j);
      }
    }
  }

  /** Weaving pieces whose first piece has an extra character in front
      puts that character in front of the woven string. */
  lemma WeaveConsHead(c: char, ps: seq<string>, ts: seq<string>)
    requires |ps| == |ts| + 1
    ensures Weave([[c] + ps[0]] + ps[1..], ts) == [c] + Weave(ps, ts)
  {
    var qs := [[c] + ps[0]] + ps[1..];
    if |ts| > 0 {
      assert qs[1..] == ps[1..];
    }
  }

  /** The woven string starts with the first piece. */
  lemma WeaveStartsWith(ps: seq<string>, ts: seq<string>)
    requires |ps| == |ts| + 1
    ensures |ps[0]| <= |Weave(ps, ts)| && Weave(ps, ts)[..|ps[0]|] == ps[0]
  {
    if |ts| > 0 {
      assert Weave(ps, ts) == ps[0] + (ts[0] + Weave(ps[1..], ts[1..]));
    }
  }

  /** `.replace(/[\x00-\x1F\x7F]/g, "")`: exactly the characters that
      are not control characters are kept. */
  function RemoveControls(s: string): (r: string)
    ensures forall i :: 0 <= i < |r| ==> !IsControl(r[i])
    ensures forall c :: c in r <==> c in s && !IsControl(c)
    ensures |r| <= |s|
  {
    if |s| == 0 then []
    else
      var t := RemoveControls(s[1..]);
      assert forall c :: c in s <==> c == s[0] || c in s[1..] by {
        assert s == [s[0]] + s[1..];
      }
      (if IsControl(s[0]) then [] else [s[0]]) + t
  }

  /** Removing control characters works piecewise: text in front keeps its
      own clean-up. */
  lemma {:induction false} RemoveControlsConcat(a: string, b: string)
    ensures RemoveControls(a + b) == RemoveControls(a) + RemoveControls(b)
    decreases |a|
  {
    if |a| > 0 {
      assert (a + b)[1..] == a[1..] + b;
      RemoveControlsConcat(a[1..], b);
    } else {
      assert a + b == b;
    }
  }

  /** `r` is `s` with its fence tags cut out, as `TagsCut` describes. */
  ghost predicate TagsRemoved(s: string, r: string) {
    exists pieces, tags :: TagsCut(s, r, pieces, tags)
  }

  /** `r` is `s` with the occurrences of `pat` it is cut at left out,
      taking the leftmost occurrence left each time. */
  ghost predicate CutOut(s: string, pat: string, r: string) {
    exists pieces :: PiecesOf(s, pat, "", r, pieces)
  }

  /** Cutting out is exactly `s.replace(/pat/g, '')`: the cut exists and
      no other result is a cut, even for a pattern that overlaps itself
      such as the triple backquote. */
  lemma CutOutIsReplaceAll(s: string, pat: string, r: string)
    requires |pat| > 0
    ensures CutOut(s, pat, r) <==> r == ReplaceAll(s, pat, "")
  {
    ReplaceAllPieces(s, pat, "");
    if CutOut(s, pat, r) {
      var pieces :| PiecesOf(s, pat, "", r, pieces);
      PiecesDetermine(s, pat, "", r, pieces);
    }
  }

  /** Six backquotes in a row are two fences, and both go. */
  lemma SixBackquotesCutOut(r: string)
    ensures CutOut("``````", "```", r) <==> r == ""
  {
    CutOutIsReplaceAll("``````", "```", r);
    assert "``````"[..3] == "```" && "``````"[3..] == "```";
    assert "```"[..3] == "```" && "```"[3..] == "";
  }

  /** The cleanup before JSON extraction: fence tags, fences and `[/s]`
      markers are cut out in that order, control characters are removed,
      then the ends are trimmed. */
  function Cleanup(content: string): (r: string)
    ensures exists a, b, c :: && TagsRemoved(content, a) && CutOut(a, "```", b) && CutOut(b, "[/s]", c)
                              && r == Trim(RemoveControls(c))
    ensures forall i :: 0 <= i < |r| ==> !IsControl(r[i])
    ensures |r| > 0 ==> !IsSpace(r[0]) && !IsSpace(r[|r| - 1])
    ensures '`' !in content && Free(content, "[/s]") ==> r == Trim(RemoveControls(content))
  {
    var a := RemoveFenceTags(content);
    var b := ReplaceAll(a, "```", "");
    var c := ReplaceAll(b, "[/s]", "");
    CleanupCuts(content);
    var s := RemoveControls(c);
    TrimNoControl(s);
    MarkerFreeSteps(content);
    Trim(s)
  }

  /** Each removal step of the cleanup cuts its text at what it removes. */
  lemma CleanupCuts(content: string)
    ensures var a := RemoveFenceTags(content);
            var b := ReplaceAll(a, "```", "");
            TagsRemoved(content, a) && CutOut(a, "```", b) && CutOut(b, "[/s]", ReplaceAll(b, "[/s]", ""))
  {
    var a := RemoveFenceTags(content);
    var b := ReplaceAll(a, "```", "");
    RemoveFenceTagsPieces(content);
    ReplaceAllPieces(a, "```", "");
    ReplaceAllPieces(b, "[/s]", "");
  }

  /** A reply without backquotes or `[/s]` markers passes the three
      removals before the control characters unchanged. */
  lemma MarkerFreeSteps(content: string)
    ensures '`' !in content && Free(content, "[/s]") ==>
              ReplaceAll(ReplaceAll(RemoveFenceTags(content), "```", ""), "[/s]", "") == content
  {
    if '`' !in content && Free(content, "[/s]") {
      RemoveFenceTagsPlain(content);
      ReplaceAllAbsent(content, "```", "");
      ReplaceAllFree(content, "[/s]", "");
    }
  }

  /** Trimming adds no character. */
  lemma TrimNoControl(s: string)
    requires forall i :: 0 <= i < |s| ==> !IsControl(s[i])
    ensures forall i :: 0 <= i < |Trim(s)| ==> !IsControl(Trim(s)[i])
  {
    var r := Trim(s);
    var i, j :| 0 <= i <= j <= |s| && r == s[i..j];
    assert forall k :: 0 <= k < |r| ==> r[k] == s[i + k];
  }

  lemma {:induction false} RemoveFenceTagsPlain(s: string)
    requires '`' !in s
    ensures RemoveFenceTags(s) == s
    decreases |s|
  {
    if |s| >= 7 {
      assert s[0] != '`';
      assert s[1..] == s[1..];
      RemoveFenceTagsPlain(s[1..]);
      assert s == [s[0]] + s[1..];
    }
  }

  lemma {:induction false} ReplaceAllAbsent(s: string, pat: string, rep: string)
    requires |pat| > 0 && pat[0] !in s
    ensures ReplaceAll(s, pat, rep) == s
    decreases |s|
  {
    if |s| >= |pat| {
      assert s[..|pat|][0] == s[0];
      assert s[0] in s;
      ReplaceAllAbsent(s[1..], pat, rep);
      assert s == [s[0]] + s[1..];
    }
  }

  lemma {:induction false} RemoveControlsPlain(s: string)
    requires forall i :: 0 <= i < |s| ==> !IsControl(s[i])
    ensures RemoveControls(s) == s
    decreases |s|
  {
    if |s| > 0 {
      RemoveControlsPlain(s[1..]);
      assert s == [s[0]] + s[1..];
    }
  }

  /** A reply fenced as `` ```json …``` ``, with plain text before the
      opening tag and after the closing fence, loses exactly the tag and
      the fence: what is left is the text around and between them, stripped
      of control characters and trimmed. */
  lemma CleanupFencedReply(before: string, tag: string, body: string, after: string)
    requires IsFenceTag(tag)
    requires '`' !in before && '`' !in body && '`' !in after
    requires Free(before + body + after, "[/s]")
    requires |after| == 0 || ToLower(after[0]) != 'j'
    ensures Cleanup(before + tag + body + "```" + after) == Trim(RemoveControls(before + body + after))
  {
    FencedTagRemoved(before, tag, body, after);
    FenceRemoved(before + body, after);
    ReplaceAllFree(before + body + after, "[/s]", "");
  }

  /** Removing tags from a fenced reply removes just the opening tag. */
  lemma FencedTagRemoved(before: string, tag: string, body: string, after: string)
    requires IsFenceTag(tag)
    requires '`' !in before && '`' !in body && '`' !in after
    requires |after| == 0 || ToLower(after[0]) != 'j'
    ensures RemoveFenceTags(before + tag + body + "```" + after) == (before + body) + ("```" + after)
  {
    var fence := "```" + after;
    assert before + tag + body + "```" + after == before + (tag + (body + fence));
    RemoveFenceTagsAfterPlain(before, tag + (body + fence));
    RemoveFenceTagsAtTag(tag, body + fence);
    RemoveFenceTagsAfterPlain(body, fence);
    RemoveFenceTagsFence(after);
  }

  /** Removing fences from text with one fence removes just that fence. */
  lemma FenceRemoved(x: string, after: string)
    requires '`' !in x && '`' !in after
    ensures ReplaceAll(x + ("```" + after), "```", "") == x + after
  {
    var fence := "```" + after;
    ReplaceAllAfterPlain(x, fence, "```", "");
    assert fence[..3] == "```" && fence[3..] == after;
    ReplaceAllAbsent(after, "```", "");
  }

  /** Text without backquotes in front passes the tag removal unchanged. */
  lemma {:induction false} RemoveFenceTagsAfterPlain(x: string, y: string)
    requires '`' !in x
    ensures RemoveFenceTags(x + y) == x + RemoveFenceTags(y)
    decreases |x|
  {
    if |x| > 0 {
      var s := x + y;
      assert s[0] == x[0];
      assert s[1..] == x[1..] + y;
      RemoveFenceTagsAfterPlain(x[1..], y);
      RemoveFenceTagsStep(s);
      assert x == [x[0]] + x[1..];
    } else {
      assert x + y == y;
    }
  }

  /** A text that starts no tag keeps its first character. */
  lemma RemoveFenceTagsStep(s: string)
    requires |s| > 0 && (|s| < 7 || !IsFenceTag(s[..7]))
    ensures RemoveFenceTags(s) == [s[0]] + RemoveFenceTags(s[1..])
  {
    if |s| < 7 {
      assert s == [s[0]] + s[1..];
    }
  }

  /** A tag at the front is removed. */
  lemma RemoveFenceTagsAtTag(tag: string, z: string)
    requires IsFenceTag(tag)
    ensures RemoveFenceTags(tag + z) == RemoveFenceTags(z)
  {
    assert (tag + z)[..7] == tag && (tag + z)[7..] == z;
  }

  /** A closing fence followed by plain text that does not spell a tag
      with it is kept. */
  lemma RemoveFenceTagsFence(after: string)
    requires '`' !in after
    requires |after| == 0 || ToLower(after[0]) != 'j'
    ensures RemoveFenceTags("```" + after) == "```" + after
  {
    var s3 := "```" + after;
    var s2 := "``" + after;
    var s1 := "`" + after;
    TicksStartNoTag(after);
    TickKept(s3, s2);
    TickKept(s2, s1);
    TickKept(s1, after);
    RemoveFenceTagsPlain(after);
  }

  /** One, two or three backquotes in front of a text that holds none and
      does not start with `j` start no tag. */
  lemma TicksStartNoTag(after: string)
    requires '`' !in after
    requires |after| == 0 || ToLower(after[0]) != 'j'
    ensures var s3, s2, s1 := "```" + after, "``" + after, "`" + after;
            && s3 == "`" + s2 && s2 == "`" + s1
            && (|s3| < 7 || !IsFenceTag(s3[..7]))
            && (|s2| < 7 || !IsFenceTag(s2[..7]))
            && (|s1| < 7 || !IsFenceTag(s1[..7]))
  {
    var s3, s2, s1 := "```" + after, "``" + after, "`" + after;
    if |after| > 0 {
      assert s3[3] == after[0] && s2[2] == after[0] && s1[1] == after[0];
    }
  }

  /** A backquote that starts no tag is kept. */
  lemma TickKept(s: string, rest: string)
    requires s == "`" + rest && (|s| < 7 || !IsFenceTag(s[..7]))
    ensures RemoveFenceTags(s) == "`" + RemoveFenceTags(rest)
  {
    RemoveFenceTagsStep(s);
    assert s[1..] == rest;
  }

  /** Text in front that holds no first character of the pattern passes
      the replacement unchanged. */
  lemma {:induction false} ReplaceAllAfterPlain(x: string, y: string, pat: string, rep: string)
    requires |pat| > 0 && pat[0] !in x
    ensures ReplaceAll(x + y, pat, rep) == x + ReplaceAll(y, pat, rep)
    decreases |x|
  {
    if |x| > 0 {
      var s := x + y;
      assert s[1..] == x[1..] + y;
      ReplaceAllAfterPlain(x[1..], y, pat, rep);
      if |s| >= |pat| {
        assert s[..|pat|][0] == x[0];
      } else {
        ReplaceAllAbsentShort(y, pat, rep);
        ReplaceAllAbsentShort(x[1..] + y, pat, rep);
      }
      assert x == [x[0]] + x[1..];
    } else {
      assert x + y == y;
    }
  }

  /** A text shorter than the pattern is unchanged. */
  lemma ReplaceAllAbsentShort(s: string, pat: string, rep: string)
    requires |pat| > 0 && |s| < |pat|
    ensures ReplaceAll(s, pat, rep) == s
  {
  }

  /** A reply that is already clean JSON text passes the cleanup
      unchanged: no backquote, no `[/s]` marker, no control
      character and nothing to trim. */
  lemma CleanupKeepsCleanText(s: string)
    requires '`' !in s && Free(s, "[/s]")
    requires forall i :: 0 <= i < |s| ==> !IsControl(s[i])
    requires |s| > 0 ==> !IsSpace(s[0]) && !IsSpace(s[|s| - 1])
    ensures Cleanup(s) == s
  {
    RemoveControlsPlain(s);
    TrimPlain(s);
  }

  lemma TrimPlain(s: string)
    requires |s| > 0 ==> !IsSpace(s[0]) && !IsSpace(s[|s| - 1])
    ensures Trim(s) == s
  {
    if |s| > 0 {
      assert LeadingSpaces(s) == 0;
      assert TrailingSpaces(s) == 0;
      assert s[0..|s|] == s;
    }
  }

  /** A JSON opener. */
  predicate IsOpener(c: char) { c == '[' || c == '{' }

  function Closer(c: char): char {
    if c == '[' then ']' else '}'
  }

  /** The earlier of the first `[` and the first `{`. */
  function FirstOpener(s: string): (r: Option<nat>)
    ensures r.Some? ==> r.value < |s| && IsOpener(s[r.value])
    ensures r.Some? ==> forall j :: 0 <= j < r.value ==> !IsOpener(s[j])
    ensures r.None? ==> forall j :: 0 <= j < |s| ==> !IsOpener(s[j])
  {
    match (IndexOfChar(s, '['), IndexOfChar(s, '{'))
    case (Some(a), Some(b)) => Some(if a <= b then a else b)
    case (Some(a), None) => Some(a)
    case (None, Some(b)) => Some(b)
    case (None, None) => None
  }

  /** The JSON span: from the first opener to the last matching closer,
      or to the end when that closer does not occur; the whole text when
      there is no opener. */
  function ExtractJsonSpan(s: string): (r: string)
    ensures FirstOpener(s).None? ==> r == s
    ensures FirstOpener(s).Some? ==>
              var a := FirstOpener(s).value;
              && |r| >= 1 && a + |r| <= |s| && r == s[a..a + |r|]
              && (r[|r| - 1] == Closer(r[0]) || (a + |r| == |s| && Absent(s, a, Closer(r[0]))))
              && Absent(s, a + |r|, Closer(r[0]))
  {
    match FirstOpener(s)
    case None => s
    case Some(a) =>
      var t := s[a..];
      var c := Closer(t[0]);
      match LastIndexOfChar(t, c)
      case None =>
        assert forall j :: a <= j < |s| ==> s[j] == t[j - a];
        assert Absent(s, a, c);
        t
      case Some(e) =>
        assert forall j :: a + e + 1 <= j < |s| ==> s[j] == t[j - a];
        assert Absent(s, a + e + 1, c);
        t[..e + 1]
  }

  /** `c` does not occur in `s` from index `from` on. */
  predicate Absent(s: string, from: int, c: char) {
    forall j :: from <= j < |s| && 0 <= j ==> s[j] != c
  }

  /** Cutting out the span again changes nothing. */
  lemma ExtractJsonSpanIdempotent(s: string)
    ensures ExtractJsonSpan(ExtractJsonSpan(s)) == ExtractJsonSpan(s)
  {
    var r := ExtractJsonSpan(s);
    if FirstOpener(s).Some? {
      var a := FirstOpener(s).value;
      assert FirstOpener(r) == Some(0) by {
        assert IsOpener(r[0]);
      }
      var c := Closer(r[0]);
      assert r[0..] == r;
      if r[|r| - 1] == c {
        assert LastIndexOfChar(r, c) == Some(|r| - 1);
        assert r[..|r|] == r;
      } else {
        assert a + |r| == |s| && Absent(s, a, c);
        assert forall j :: 0 <= j < |r| ==> r[j] != c by {
          forall j | 0 <= j < |r| ensures r[j] != c {
            assert r[j] == s[a + j];
          }
        }
      }
    }
  }

  /** Text around a bracketed span is dropped: with no opener before it and
      no matching closer after it, exactly the span is extracted. */
  lemma ExtractsWrappedSpan(before: string, body: string, after: string, open: char)
    requires IsOpener(open)
    requires forall j :: 0 <= j < |before| ==> !IsOpener(before[j])
    requires forall j :: 0 <= j < |after| ==> after[j] != Closer(open)
    ensures ExtractJsonSpan(before + [open] + body + [Closer(open)] + after) == [open] + body + [Closer(open)]
  {
    var s := before + [open] + body + [Closer(open)] + after;
    var a := |before|;
    var e := a + |body| + 1;
    WrappedLayout(before, body, after, open);
    var r := ExtractJsonSpan(s);
    assert r[0] == open;
    assert a + |r| - 1 == e by {
      assert s[e] == Closer(open);
      assert !Absent(s, e, Closer(open));
      assert a + |r| > e;
      assert r[|r| - 1] == s[a + |r| - 1];
    }
    assert s[a..e + 1] == [open] + body + [Closer(open)];
  }

  /** Where the pieces of a wrapped span sit. */
  lemma WrappedLayout(before: string, body: string, after: string, open: char)
    requires IsOpener(open)
    requires forall j :: 0 <= j < |before| ==> !IsOpener(before[j])
    requires forall j :: 0 <= j < |after| ==> after[j] != Closer(open)
    ensures var s := before + [open] + body + [Closer(open)] + after;
            var e := |before| + |body| + 1;
            && FirstOpener(s) == Some(|before|)
            && s[|before|] == open && e < |s| && s[e] == Closer(open)
            && forall j :: e < j < |s| ==> s[j] != Closer(open)
  {
    var s := before + [open] + body + [Closer(open)] + after;
    var a := |before|;
    var e := a + |body| + 1;
    assert forall j :: 0 <= j < a ==> s[j] == before[j];
    assert forall j :: e < j < |s| ==> s[j] == after[j - e - 1];
    assert IsOpener(s[a]);
    var f := FirstOpener(s);
    assert f.Some?;
    assert f.value >= a;
    assert f.value <= a;
  }

  /** Which reply kinds return prose and which go through JSON extraction:
      simplify, custom, expand and real-world replies are returned trimmed;
      flashcards, quizzes, study guides, exams and grades are cut down to
      their JSON span. Diagram replies (URLs, SVG, images) are not
      modelled. */
  datatype Reply = Prose(text: string) | JsonCandidate(text: string) | Empty | ImageReply(content: string)

  function Interpret(req: Request, content: string): (r: Reply)
    ensures content == "" <==> r.Empty?
    ensures content != "" && req.Diagram? ==> r == ImageReply(content)
    ensures r.Prose? <==> content != "" && (req.Simplify? || req.Custom? || req.Expand? || req.RealWorld?)
    ensures content != "" && !req.Diagram? && !(req.Simplify? || req.Custom? || req.Expand? || req.RealWorld?)
            ==> r.JsonCandidate?
    ensures r.Prose? ==> r.text == Trim(content) && NonSpace(r.text) == NonSpace(content)
    ensures r.JsonCandidate? ==> r.text == ExtractJsonSpan(Cleanup(content))
  {
    if content == "" then Empty
    else if req.Diagram? then ImageReply(content)
    else if req.Simplify? || req.Custom? || req.Expand? || req.RealWorld? then Prose(Trim(content))
    else JsonCandidate(ExtractJsonSpan(Cleanup(content)))
  }
}
