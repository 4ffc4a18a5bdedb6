/**
 * The Tachyon chat client: the configuration read from the environment
 * (TachyonConfig.from_env) and the pure parts of TachyonClient.chat, namely
 * the request it builds and how it treats the reply. The HTTP exchange
 * itself is not modelled: the reply (status, text, decoded body) is an input.
 */
module Tachyon {
  import opened Wrappers
  import opened Text

  // ---------------------------------------------------------------------
  // Configuration

  /** The process environment, variable name to value. */
  type Env = map<string, string>

  const BaseUrlVar := "TACHYON_BASE_URL"
  const ApiKeyVar := "TACHYON_API_KEY"
  const ModelVar := "TACHYON_MODEL"
  const ChatPathVar := "TACHYON_CHAT_PATH"
  const TimeoutVar := "TACHYON_TIMEOUT_SECS"

  const DefaultChatPath := "/v1/chat/completions"
  const DefaultTimeout := "60"

  datatype Config = Config(baseUrl: string, apiKey: string, model: string, chatPath: string, timeoutSecs: int)

  datatype ConfigError =
    | BadTimeout(text: string)       // int() refused the timeout text (a ValueError)
    | Missing(vars: seq<string>)     // the TachyonError naming the empty required variables

  /** os.environ.get(name, default) */
  function Get(env: Env, name: string, default: string): string
  {
    if name in env then env[name] else default
  }

  /** Where a required variable stands in the fixed order of the check. */
  function Rank(name: string): nat
  {
    if name == BaseUrlVar then 0 else if name == ApiKeyVar then 1 else 2
  }

  /**
   * The names of the required variables whose trimmed value is empty,
   * listed in the fixed order base URL, API key, model.
   */
  function MissingVars(baseUrl: string, apiKey: string, model: string): (r: seq<string>)
    ensures forall v :: v in r <==>
              (v == BaseUrlVar && baseUrl == "") || (v == ApiKeyVar && apiKey == "") || (v == ModelVar && model == "")
    ensures r == [] <==> baseUrl != "" && apiKey != "" && model != ""
    ensures forall i :: 0 <= i < |r| - 1 ==> Rank(r[i]) < Rank(r[i + 1])
  {
    (if baseUrl == "" then [BaseUrlVar] else [])
      + (if apiKey == "" then [ApiKeyVar] else [])
      + (if model == "" then [ModelVar] else [])
  }

  /**
   * TachyonConfig.from_env. Every value is trimmed; the timeout is parsed
   * before the required variables are checked, so a malformed timeout
   * raises first.
   */
  function FromEnv(env: Env): (r: Result<Config, ConfigError>)
    ensures r.Success? ==> !EndsWith(r.value.baseUrl, "/") && StartsWith(r.value.chatPath, "/")
    ensures r.Success? ==> r.value.apiKey != "" && r.value.model != ""
    ensures r.Failure? && r.error.Missing? ==> r.error.vars != []
  {
    var baseUrl := Strip(Get(env, BaseUrlVar, ""));
    var apiKey := Strip(Get(env, ApiKeyVar, ""));
    var model := Strip(Get(env, ModelVar, ""));
    var chatPath := Strip(Get(env, ChatPathVar, DefaultChatPath));
    var timeoutText := Strip(Get(env, TimeoutVar, DefaultTimeout));
    match ParseInt(timeoutText)
    case None => Failure(BadTimeout(timeoutText))
    case Some(timeout) =>
      var missing := MissingVars(baseUrl, apiKey, model);
      if missing != [] then Failure(Missing(missing))
      else
        var path := if StartsWith(chatPath, "/") then chatPath else "/" + chatPath;
        Success(Config(RStripChar(baseUrl, '/'), apiKey, model, path, timeout))
  }

  /** Whether the timeout variable (or its default) is something int() accepts. */
  predicate TimeoutParses(env: Env)
  {
    ParseInt(Strip(Get(env, TimeoutVar, DefaultTimeout))).Some?
  }

  /**
   * Once the timeout parses, from_env raises exactly when one of the three
   * required variables is empty after trimming, and the error names exactly
   * those variables, in the fixed order.
   */
  lemma FromEnvRaisesIffMissing(env: Env)
    requires TimeoutParses(env)
    ensures var empty := MissingVars(Strip(Get(env, BaseUrlVar, "")), Strip(Get(env, ApiKeyVar, "")),
                                     Strip(Get(env, ModelVar, "")));
      && (FromEnv(env).Failure? <==> empty != [])
      && (FromEnv(env).Failure? ==> FromEnv(env).error == Missing(empty))
  {
  }

  /** A malformed timeout raises whatever the other variables hold. */
  lemma FromEnvBadTimeout(env: Env)
    requires !TimeoutParses(env)
    ensures FromEnv(env) == Failure(BadTimeout(Strip(Get(env, TimeoutVar, DefaultTimeout))))
  {
  }

  /**
   * The returned configuration: the base URL is the trimmed variable with
   * its trailing slashes removed; the API key and model are the trimmed
   * variables; the chat path is the trimmed variable, with a slash put in
   * front only when it lacks one.
   */
  lemma FromEnvNormalises(env: Env)
    requires FromEnv(env).Success?
    ensures var cfg := FromEnv(env).value;
      var base := Strip(Get(env, BaseUrlVar, ""));
      var path := Strip(Get(env, ChatPathVar, DefaultChatPath));
      && cfg.baseUrl <= base
      && (forall k :: |cfg.baseUrl| <= k < |base| ==> base[k] == '/')
      && cfg.apiKey == Strip(Get(env, ApiKeyVar, ""))
      && cfg.model == Strip(Get(env, ModelVar, ""))
      && (StartsWith(path, "/") ==> cfg.chatPath == path)
      && (!StartsWith(path, "/") ==> cfg.chatPath == "/" + path)
      && Some(cfg.timeoutSecs) == ParseInt(Strip(Get(env, TimeoutVar, DefaultTimeout)))
  {
  }

  /** The default chat path is already trimmed. */
  lemma DefaultChatPathTrimmed()
    ensures Strip(DefaultChatPath) == DefaultChatPath
  {
    StripUnspaced(DefaultChatPath);
  }

  /** The default timeout is already trimmed and reads as 60. */
  lemma DefaultTimeoutParses()
    ensures ParseInt(Strip(DefaultTimeout)) == Some(60)
  {
    StripUnspaced(DefaultTimeout);
    assert NatToString(60) == NatToString(6) + [DigitChar(0)];
    assert NatToString(60) == DefaultTimeout;
    ParseIntOfNatToString(60);
  }

  /** With the chat path and timeout variables unset, the defaults apply. */
  lemma FromEnvDefaults(env: Env)
    requires ChatPathVar !in env && TimeoutVar !in env
    requires FromEnv(env).Success?
    ensures FromEnv(env).value.chatPath == DefaultChatPath
    ensures FromEnv(env).value.timeoutSecs == 60
  {
    DefaultChatPathTrimmed();
    DefaultTimeoutParses();
    FromEnvNormalises(env);
    assert StartsWith(DefaultChatPath, "/");
  }

  // ---------------------------------------------------------------------
  // The request

  /** A decoded JSON value. Numbers with a fraction are reals (Python floats). */
  datatype Json =
    | JNull
    | JBool(b: bool)
    | JInt(i: int)
    | JReal(x: real)
    | JStr(s: string)
    | JArr(items: seq<Json>)
    | JObj(members: map<string, Json>)

  datatype Request = Request(url: string, headers: map<string, string>, body: map<string, Json>, timeoutSecs: int)

  /** A chat message as JSON: an object of string fields. */
  function MessageJson(m: map<string, string>): (j: Json)
    ensures j.JObj? && j.members.Keys == m.Keys
    ensures forall k :: k in m ==> j.members[k] == JStr(m[k])
  {
    JObj(map k | k in m :: JStr(m[k]))
  }

  /** f"{base_url}{chat_path}" */
  function ChatUrl(cfg: Config): string
  {
    cfg.baseUrl + cfg.chatPath
  }

  /** The four fields every request body carries before extra_body is merged in. */
  function BaseBody(cfg: Config, messages: seq<map<string, string>>, temperature: real, maxTokens: int): map<string, Json>
  {
    map["model" := JStr(cfg.model),
        "messages" := JArr(seq(|messages|, i requires 0 <= i < |messages| => MessageJson(messages[i]))),
        "temperature" := JReal(temperature),
        "max_tokens" := JInt(maxTokens)]
  }

  /**
   * The POST that chat sends: the URL is the base URL followed by the chat
   * path; the body holds model, messages, temperature and max_tokens, with
   * every extra_body key overriding (dict.update); the key goes in a Bearer
   * Authorization header. An absent extra_body is the empty map.
   */
  function ChatRequest(cfg: Config, messages: seq<map<string, string>>, temperature: real, maxTokens: int,
                       extraBody: map<string, Json>): (req: Request)
    ensures req.url == ChatUrl(cfg)
    ensures req.headers.Keys == {"Authorization", "Content-Type"}
    ensures req.headers["Authorization"] == "Bearer " + cfg.apiKey
    ensures req.headers["Content-Type"] == "application/json"
    ensures req.body.Keys == {"model", "messages", "temperature", "max_tokens"} + extraBody.Keys
    ensures forall k :: k in extraBody ==> req.body[k] == extraBody[k]
    ensures "model" !in extraBody ==> req.body["model"] == JStr(cfg.model)
    ensures "temperature" !in extraBody ==> req.body["temperature"] == JReal(temperature)
    ensures "max_tokens" !in extraBody ==> req.body["max_tokens"] == JInt(maxTokens)
    ensures "messages" !in extraBody ==>
              req.body["messages"].JArr? && |req.body["messages"].items| == |messages|
              && forall i :: 0 <= i < |messages| ==> req.body["messages"].items[i] == MessageJson(messages[i])
    ensures req.timeoutSecs == cfg.timeoutSecs
  {
    Request(ChatUrl(cfg),
            map["Authorization" := "Bearer " + cfg.apiKey, "Content-Type" := "application/json"],
            BaseBody(cfg, messages, temperature, maxTokens) + extraBody,
            cfg.timeoutSecs)
  }

  /**
   * With a configuration as from_env returns it (no trailing slash on the
   * base URL, a leading slash on the path), the URL is the base URL followed
   * by a `/`; the base URL does not end with `/`, so the join adds no slash of
   * its own (a chat path that itself starts with `//` keeps both).
   */
  lemma ChatUrlJoin(cfg: Config)
    requires !EndsWith(cfg.baseUrl, "/") && StartsWith(cfg.chatPath, "/")
    ensures var url := ChatUrl(cfg);
      && StartsWith(url, cfg.baseUrl)
      && url[|cfg.baseUrl|] == '/'
      && (cfg.baseUrl == [] || url[|cfg.baseUrl| - 1] != '/')
  {
    var url := ChatUrl(cfg);
    assert url[..|cfg.baseUrl|] == cfg.baseUrl;
    assert url[|cfg.baseUrl|] == cfg.chatPath[0];
  }

  // ---------------------------------------------------------------------
  // The reply

  const MaxErrorText := 2000

  /** What the server sent back: the status, the text, and the body if it decodes as JSON. */
  datatype Reply = Reply(status: int, text: string, json: Option<Json>)

  datatype ChatError =
    | HttpError(status: int, text: string)   // the TachyonError for a status of 400 or more
    | NotJson                                // resp.json() raised; this is not a TachyonError
    | BadShape(data: Json)                   // the TachyonError for a missing choices[0].message.content

  /**
   * data["choices"][0]["message"]["content"]. Each subscript succeeds only
   * on a JSON object holding the key (or, for [0], a non-empty array);
   * any other value raises, which chat turns into the shape error. A string
   * "choices" does subscript with [0], but its one-character result then
   * refuses ["message"], so it fails as well.
   */
  function Content(data: Json): Option<Json>
  {
    if !data.JObj? || "choices" !in data.members then None
    else
      var choices := data.members["choices"];
      if !choices.JArr? || |choices.items| == 0 then None
      else
        var first := choices.items[0];
        if !first.JObj? || "message" !in first.members then None
        else
          var message := first.members["message"];
          if !message.JObj? || "content" !in message.members then None
          else Some(message.members["content"])
  }

  /** An OpenAI-style reply body whose first choice carries `content`. */
  function ChatCompletion(content: Json, otherChoices: seq<Json>, message: map<string, Json>,
                          choice: map<string, Json>, top: map<string, Json>): Json
  {
    JObj(top["choices" := JArr([JObj(choice["message" := JObj(message["content" := content])])] + otherChoices)])
  }

  /**
   * The extraction returns exactly the content of the first choice,
   * whatever else the reply holds, and it finds a content only in a reply
   * of that shape.
   */
  lemma ContentOfChatCompletion(content: Json, otherChoices: seq<Json>, message: map<string, Json>,
                                choice: map<string, Json>, top: map<string, Json>)
    ensures Content(ChatCompletion(content, otherChoices, message, choice, top)) == Some(content)
  {
  }

  lemma ContentOnlyFromChatCompletion(data: Json)
    requires Content(data).Some?
    ensures exists others, message, choice, top ::
              data == ChatCompletion(Content(data).value, others, message, choice, top)
  {
    var choices := data.members["choices"];
    var first := choices.items[0];
    var message := first.members["message"];
    assert [first] + choices.items[1..] == choices.items;
    assert message.members["content" := Content(data).value] == message.members;
    assert first.members["message" := message] == first.members;
    assert data.members["choices" := choices] == data.members;
    assert data == ChatCompletion(Content(data).value, choices.items[1..], message.members, first.members, data.members);
  }

  /**
   * The status check, the JSON decode and the shape extraction of chat:
   * a status of 400 or more raises with the first 2000 characters of the
   * text (all of it when shorter), before the body is looked at.
   */
  function HandleReply(reply: Reply): (r: Result<Json, ChatError>)
    ensures reply.status >= 400 ==>
              r.Failure? && r.error.HttpError? && r.error.status == reply.status
              && r.error.text <= reply.text
              && (|reply.text| <= MaxErrorText ==> r.error.text == reply.text)
              && (|reply.text| > MaxErrorText ==> |r.error.text| == MaxErrorText)
    ensures reply.status < 400 && reply.json.None? ==> r == Failure(NotJson)
    ensures reply.status < 400 && reply.json.Some? ==>
              (r.Success? <==> Content(reply.json.value).Some?)
              && (r.Success? ==> r.value == Content(reply.json.value).value)
              && (r.Failure? ==> r.error == BadShape(reply.json.value))
  {
    if reply.status >= 400 then
      Failure(HttpError(reply.status, reply.text[..if |reply.text| < MaxErrorText then |reply.text| else MaxErrorText]))
    else if reply.json.None? then Failure(NotJson)
    else
      match Content(reply.json.value)
      case None => Failure(BadShape(reply.json.value))
      case Some(c) => Success(c)
  }
}
