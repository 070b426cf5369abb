/** The request assembly and answer extraction of `src/openai_api.rs`
    (`send_with_web_search` against the OpenAI Responses API). The HTTP
    exchange itself is not modelled: the reply arrives as a parameter, its
    status code and its body already parsed as JSON (or not). */
module OpenAiApi {
  import opened Base
  import opened Strings

  /** A parsed JSON value. An object keeps its members in document order;
      a key that occurs twice resolves to its last occurrence, as in
      `serde_json`'s map. */
  datatype Json =
    | Null
    | Bool(b: bool)
    | Number(literal: string)
    | Str(s: string)
    | Arr(items: seq<Json>)
    | Obj(fields: seq<(string, Json)>)

  /** The value of the last member named `key`. */
  function Lookup(fields: seq<(string, Json)>, key: string): (r: Option<Json>)
    ensures r.None? <==> forall i :: 0 <= i < |fields| ==> fields[i].0 != key
    ensures r.Some? ==> exists i :: 0 <= i < |fields| && fields[i] == (key, r.value)
                                  && forall j :: i < j < |fields| ==> fields[j].0 != key
    decreases |fields|
  {
    if fields == [] then None
    else
      var last := fields[|fields| - 1];
      if last.0 == key then Some(last.1)
      else
        var r := Lookup(fields[..|fields| - 1], key);
        LookupFront(fields, key, r);
        r
  }

  /** When the last member has another name, the answer for the members
      before it stands. */
  lemma LookupFront(fields: seq<(string, Json)>, key: string, r: Option<Json>)
    requires fields != [] && fields[|fields| - 1].0 != key
    requires var front := fields[..|fields| - 1];
      && (r.None? <==> forall i :: 0 <= i < |front| ==> front[i].0 != key)
      && (r.Some? ==> exists i :: 0 <= i < |front| && front[i] == (key, r.value)
                               && forall j :: i < j < |front| ==> front[j].0 != key)
    ensures r.None? <==> forall i :: 0 <= i < |fields| ==> fields[i].0 != key
    ensures r.Some? ==> exists i :: 0 <= i < |fields| && fields[i] == (key, r.value)
                                  && forall j :: i < j < |fields| ==> fields[j].0 != key
  {
    var front := fields[..|fields| - 1];
    assert forall i :: 0 <= i < |front| ==> front[i] == fields[i];
    if r.Some? {
      var i :| 0 <= i < |front| && front[i] == (key, r.value)
             && forall j :: i < j < |front| ==> front[j].0 != key;
      assert fields[i] == (key, r.value);
    }
  }

  /** `Value::get(key)`: a member of an object; nothing for any other value. */
  function Get(v: Json, key: string): (r: Option<Json>)
    ensures r.None? <==> !v.Obj? || forall i :: 0 <= i < |v.fields| ==> v.fields[i].0 != key
    ensures r.Some? ==> v.Obj? && exists i :: 0 <= i < |v.fields| && v.fields[i] == (key, r.value)
                                            && forall j :: i < j < |v.fields| ==> v.fields[j].0 != key
  {
    if v.Obj? then Lookup(v.fields, key) else None
  }

  /** `Value::as_array`. */
  function AsArray(v: Option<Json>): (r: Option<seq<Json>>)
    ensures r.Some? <==> v.Some? && v.value.Arr?
  {
    if v.Some? && v.value.Arr? then Some(v.value.items) else None
  }

  /** `Value::as_str`. */
  function AsStr(v: Option<Json>): (r: Option<string>)
    ensures r.Some? <==> v.Some? && v.value.Str?
  {
    if v.Some? && v.value.Str? then Some(v.value.s) else None
  }

  // ---------------------------------------------------------------------
  // Request items

  /** The two roles a history message can have in a request. */
  datatype HistoryRole = User | Assistant

  datatype HistoryMessage = HistoryMessage(role: HistoryRole, text: string)

  datatype ContentType = Input | Output

  function ContentTypeName(ct: ContentType): string
  {
    match ct
    case Input => "input_text"
    case Output => "output_text"
  }

  /** Reads an item of the shape `text_content` writes: its role, the type
      of its only content part, and that part's text. */
  function ReadTextContent(item: Json): Option<(string, string, string)>
  {
    var role := AsStr(Get(item, "role"));
    var content := AsArray(Get(item, "content"));
    if role.None? || content.None? || |content.value| != 1 then None
    else
      var part := content.value[0];
      var ty := AsStr(Get(part, "type"));
      var text := AsStr(Get(part, "text"));
      if ty.None? || text.None? then None else Some((role.value, ty.value, text.value))
  }

  /** `text_content`: one request item, a role with a single typed text
      part. */
  function TextContent(role: string, text: string, ct: ContentType): (item: Json)
    ensures item.Obj?
    ensures ReadTextContent(item) == Some((role, ContentTypeName(ct), text))
  {
    var part := Obj([("type", Str(ContentTypeName(ct))), ("text", Str(text))]);
    var item := Obj([("role", Str(role)), ("content", Arr([part]))]);
    assert Lookup(item.fields, "content") == Some(Arr([part]));
    assert Lookup(item.fields, "role") == Some(Str(role));
    assert Lookup(part.fields, "type") == Some(Str(ContentTypeName(ct)));
    assert Lookup(part.fields, "text") == Some(Str(text));
    item
  }

  /** A user message is input text; an assistant message is output text. */
  function RoleAndType(role: HistoryRole): (string, ContentType)
  {
    match role
    case User => ("user", Input)
    case Assistant => ("assistant", Output)
  }

  /** The history messages with something besides whitespace in them. */
  function NonBlank(ms: seq<HistoryMessage>): (r: seq<HistoryMessage>)
    ensures |r| <= |ms|
    ensures forall i :: 0 <= i < |r| ==> !IsBlank(r[i].text)
    decreases |ms|
  {
    if ms == [] then []
    else
      var rest := NonBlank(ms[1..]);
      if IsBlank(ms[0].text) then rest else [ms[0]] + rest
  }

  /** Only an all-blank history leaves nothing. */
  lemma {:induction false} NonBlankEmpty(ms: seq<HistoryMessage>)
    ensures NonBlank(ms) == [] <==> forall i :: 0 <= i < |ms| ==> IsBlank(ms[i].text)
    decreases |ms|
  {
    if ms != [] {
      NonBlankEmpty(ms[1..]);
      assert forall i :: 1 <= i < |ms| ==> ms[1..][i - 1] == ms[i];
    }
  }

  function MessageItem(m: HistoryMessage): Json
  {
    var (role, ct) := RoleAndType(m.role);
    TextContent(role, m.text, ct)
  }

  /** One item per message, in order. */
  function ItemsOf(ms: seq<HistoryMessage>): (r: seq<Json>)
    ensures |r| == |ms|
    ensures forall i :: 0 <= i < |ms| ==> r[i] == MessageItem(ms[i])
  {
    if ms == [] then [] else [MessageItem(ms[0])] + ItemsOf(ms[1..])
  }

  /** The loop over the history: one item per non-blank message, in order;
      blank messages are skipped. */
  function MessageItems(ms: seq<HistoryMessage>): (r: seq<Json>)
    ensures r == ItemsOf(NonBlank(ms))
    decreases |ms|
  {
    if ms == [] then []
    else
      var rest := MessageItems(ms[1..]);
      var tail := NonBlank(ms[1..]);
      if IsBlank(ms[0].text) then rest
      else
        assert ([ms[0]] + tail)[1..] == tail;
        [MessageItem(ms[0])] + rest
  }

  /** The history message an item stands for, if it is a user or assistant
      item of the right content type. */
  function ReadMessageItem(item: Json): Option<HistoryMessage>
  {
    match ReadTextContent(item)
    case None => None
    case Some((role, ty, text)) =>
      if role == "user" && ty == "input_text" then Some(HistoryMessage(User, text))
      else if role == "assistant" && ty == "output_text" then Some(HistoryMessage(Assistant, text))
      else None
  }

  lemma ReadMessageItemRoundTrip(m: HistoryMessage)
    ensures ReadMessageItem(MessageItem(m)) == Some(m)
  {
  }

  /** The error `send_with_web_search` returns before any request. */
  const NoContentMessage: string := "no content available for OpenAI call"

  /** The developer item for the system prompt, when the prompt is present
      and not blank. */
  function PromptItems(systemPrompt: Option<string>): (r: seq<Json>)
    ensures |r| <= 1
    ensures r != [] <==> systemPrompt.Some? && !IsBlank(systemPrompt.value)
    ensures r != [] ==> r[0] == TextContent("developer", systemPrompt.value, Input)
  {
    if systemPrompt.Some? && !IsBlank(systemPrompt.value) then
      [TextContent("developer", systemPrompt.value, Input)]
    else []
  }

  /** The `input` array of the request: the developer item first, then the
      messages; an error when there is nothing to send. */
  function InputItems(systemPrompt: Option<string>, messages: seq<HistoryMessage>): (r: Result<seq<Json>, string>)
    ensures r.Err? <==>
      (systemPrompt.None? || IsBlank(systemPrompt.value))
      && forall i :: 0 <= i < |messages| ==> IsBlank(messages[i].text)
    ensures r.Err? ==> r.error == NoContentMessage
    ensures r.Ok? ==> r.value != [] && r.value == PromptItems(systemPrompt) + MessageItems(messages)
  {
    NonBlankEmpty(messages);
    var items := PromptItems(systemPrompt) + MessageItems(messages);
    if items == [] then Err(NoContentMessage) else Ok(items)
  }

  /** Reading the message items of a request back gives the non-blank
      history, in order. */
  lemma {:induction false} MessageItemsRoundTrip(ms: seq<HistoryMessage>)
    ensures ReadMessages(MessageItems(ms)) == NonBlank(ms)
    decreases |ms|
  {
    if ms != [] {
      MessageItemsRoundTrip(ms[1..]);
      if !IsBlank(ms[0].text) {
        ReadMessageItemRoundTrip(ms[0]);
        var items := MessageItems(ms);
        assert items[1..] == MessageItems(ms[1..]);
      }
    }
  }

  /** The history messages a sequence of items stands for, skipping items
      of any other shape. */
  function ReadMessages(items: seq<Json>): seq<HistoryMessage>
    decreases |items|
  {
    if items == [] then []
    else
      var rest := ReadMessages(items[1..]);
      match ReadMessageItem(items[0])
      case None => rest
      case Some(m) => [m] + rest
  }

  /** The developer item is never read as a history message. */
  lemma PromptItemIsNotMessage(prompt: string)
    ensures ReadMessageItem(TextContent("developer", prompt, Input)).None?
  {
    assert ReadTextContent(TextContent("developer", prompt, Input)).Some?;
  }

  // ---------------------------------------------------------------------
  // Response text

  /** `filter_map(as_str)`: the string elements, in order. */
  function StringElements(items: seq<Json>): (r: seq<string>)
    ensures |r| <= |items|
    decreases |items|
  {
    if items == [] then []
    else
      var rest := StringElements(items[1..]);
      if items[0].Str? then [items[0].s] + rest else rest
  }

  /** The text of a content part whose `type` is `output_text` or `text`. */
  function PartText(part: Json): (r: Option<string>)
    ensures r.Some? ==> AsStr(Get(part, "type")) in {Some("output_text"), Some("text")}
  {
    var ty := AsStr(Get(part, "type"));
    if ty == Some("output_text") || ty == Some("text") then AsStr(Get(part, "text")) else None
  }

  function PartTexts(parts: seq<Json>): seq<string>
    decreases |parts|
  {
    if parts == [] then []
    else
      var rest := PartTexts(parts[1..]);
      match PartText(parts[0])
      case None => rest
      case Some(t) => [t] + rest
  }

  /** The texts of every output item's content parts, in document order. */
  function OutputTexts(output: seq<Json>): seq<string>
    decreases |output|
  {
    if output == [] then []
    else
      var content := AsArray(Get(output[0], "content"));
      (if content.Some? then PartTexts(content.value) else []) + OutputTexts(output[1..])
  }

  lemma {:induction false} OutputTextsAppend(a: seq<Json>, b: seq<Json>)
    ensures OutputTexts(a + b) == OutputTexts(a) + OutputTexts(b)
    decreases |a|
  {
    if a != [] {
      OutputTextsAppend(a[1..], b);
      assert (a + b)[1..] == a[1..] + b;
    } else {
      assert a + b == b;
    }
  }

  /** The top-level `output_text` array, when present and non-empty. */
  function TopLevelTexts(value: Json): Option<seq<Json>>
  {
    var arr := AsArray(Get(value, "output_text"));
    if arr.Some? && arr.value != [] then arr else None
  }

  /** The texts found under `output`, when `output` is an array. */
  function NestedTexts(value: Json): seq<string>
  {
    var output := AsArray(Get(value, "output"));
    if output.Some? then OutputTexts(output.value) else []
  }

  /** `extract_output_text`: a non-empty top-level `output_text` array wins
      (its strings joined with newlines, even when none of them is a
      string); otherwise the texts under `output`, joined with newlines;
      otherwise nothing. */
  function ExtractOutputText(value: Json): (r: Option<string>)
    ensures TopLevelTexts(value).Some? ==> r == Some(Join(StringElements(TopLevelTexts(value).value), "\n"))
    ensures TopLevelTexts(value).None? && NestedTexts(value) != [] ==> r == Some(Join(NestedTexts(value), "\n"))
    ensures r.None? <==> TopLevelTexts(value).None? && NestedTexts(value) == []
  {
    var top := AsArray(Get(value, "output_text"));
    if top.Some? && top.value != [] then
      Some(Join(StringElements(top.value), "\n"))
    else
      var output := AsArray(Get(value, "output"));
      if output.Some? then
        var chunks := OutputTexts(output.value);
        if chunks != [] then Some(Join(chunks, "\n")) else None
      else None
  }

  /** A content part of an assistant message, as the API writes it. */
  function OutputPart(text: string): Json
  {
    Obj([("type", Str("output_text")), ("text", Str(text))])
  }

  function OutputParts(texts: seq<string>): (r: seq<Json>)
    ensures |r| == |texts|
    ensures forall i :: 0 <= i < |r| ==> r[i] == OutputPart(texts[i])
  {
    if texts == [] then [] else [OutputPart(texts[0])] + OutputParts(texts[1..])
  }

  /** A response holding one assistant message with the given text parts
      and no top-level `output_text`. */
  function MessageResponse(texts: seq<string>): Json
  {
    Obj([("output", Arr([Obj([("type", Str("message")), ("content", Arr(OutputParts(texts)))])]))])
  }

  lemma {:induction false} PartTextsOfOutputParts(texts: seq<string>)
    ensures PartTexts(OutputParts(texts)) == texts
    decreases |texts|
  {
    if texts != [] {
      PartTextsOfOutputParts(texts[1..]);
      var p := OutputPart(texts[0]);
      assert Lookup(p.fields, "type") == Some(Str("output_text"));
      assert Lookup(p.fields, "text") == Some(Str(texts[0]));
      assert OutputParts(texts)[1..] == OutputParts(texts[1..]);
    }
  }

  lemma LookupOne(k: string, v: Json, key: string)
    ensures Lookup([(k, v)], key) == if k == key then Some(v) else None
  {
    assert [(k, v)][..0] == [];
  }

  lemma LookupTwo(k1: string, v1: Json, k2: string, v2: Json, key: string)
    ensures Lookup([(k1, v1), (k2, v2)], key) ==
      if k2 == key then Some(v2) else if k1 == key then Some(v1) else None
  {
    assert [(k1, v1), (k2, v2)][..1] == [(k1, v1)];
    LookupOne(k1, v1, key);
  }

  /** The texts of a message response come back joined with newlines. */
  lemma ExtractMessageResponse(texts: seq<string>)
    requires texts != []
    ensures ExtractOutputText(MessageResponse(texts)) == Some(Join(texts, "\n"))
  {
    var parts := OutputParts(texts);
    var item := Obj([("type", Str("message")), ("content", Arr(parts))]);
    var value := MessageResponse(texts);
    assert Get(value, "output_text").None? by {
      LookupOne("output", Arr([item]), "output_text");
    }
    assert AsArray(Get(value, "output")) == Some([item]) by {
      LookupOne("output", Arr([item]), "output");
    }
    assert OutputTexts([item]) == texts by {
      LookupTwo("type", Str("message"), "content", Arr(parts), "content");
      PartTextsOfOutputParts(texts);
      assert OutputTexts([item]) == PartTexts(parts) + OutputTexts([]);
    }
  }

  /** When no text holds a newline, splitting the extracted text on
      newlines recovers the individual texts. */
  lemma ExtractMessageResponseSplits(texts: seq<string>)
    requires texts != []
    requires forall i :: 0 <= i < |texts| ==> '\n' !in texts[i]
    ensures ExtractOutputText(MessageResponse(texts)).Some?
    ensures Split(ExtractOutputText(MessageResponse(texts)).value, '\n') == texts
  {
    ExtractMessageResponse(texts);
    SplitJoin(texts, '\n');
  }

  /** A response with a non-empty top-level `output_text` array answers from
      it, whatever `output` holds. */
  lemma TopLevelWins(value: Json, other: Json)
    requires value.Obj? && TopLevelTexts(value).Some?
    requires forall i :: 0 <= i < |value.fields| ==> value.fields[i].0 != "output"
    ensures ExtractOutputText(Obj(value.fields + [("output", other)])) == ExtractOutputText(value)
  {
    var f := value.fields + [("output", other)];
    assert f[..|f| - 1] == value.fields;
    assert Lookup(f, "output_text") == Lookup(value.fields, "output_text");
  }

  // ---------------------------------------------------------------------
  // send_with_web_search

  datatype ApiError =
    | NoContent
    | HttpStatus(status: nat)
    | InvalidJson
    | MissingTextOutput(response: Json)

  /** `StatusCode::is_success`: 200 to 299. */
  predicate IsSuccess(status: nat)
  {
    200 <= status <= 299
  }

  /** The answer: the extracted text trimmed, and an error when there is
      none or it is blank. */
  function FinalAnswer(response: Json): (r: Result<string, ApiError>)
    ensures r.Ok? <==> ExtractOutputText(response).Some? && !IsBlank(ExtractOutputText(response).value)
    ensures r.Ok? ==> r.value == Trim(ExtractOutputText(response).value)
    ensures r.Err? ==> r.error == MissingTextOutput(response)
  {
    TrimmedAnswer(ExtractOutputText(response), response)
  }

  /** The trimmed text, when there is a non-blank one. */
  function TrimmedAnswer(text: Option<string>, response: Json): (r: Result<string, ApiError>)
    ensures r.Ok? <==> text.Some? && !IsBlank(text.value)
    ensures r.Ok? ==> r.value == Trim(text.value)
    ensures r.Err? ==> r.error == MissingTextOutput(response)
  {
    match text
    case Some(t) =>
      var trimmed := Trim(t);
      if trimmed != [] then Ok(trimmed) else Err(MissingTextOutput(response))
    case None => Err(MissingTextOutput(response))
  }

  /** The answer is already trimmed: trimming it again changes nothing. */
  lemma FinalAnswerTrimmed(response: Json)
    requires FinalAnswer(response).Ok?
    ensures Trim(FinalAnswer(response).value) == FinalAnswer(response).value
  {
    TrimIdempotent(ExtractOutputText(response).value);
  }

  /** The answer is non-empty and neither starts nor ends with whitespace. */
  lemma FinalAnswerEnds(response: Json)
    requires FinalAnswer(response).Ok?
    ensures NonEmptyTrimmed(FinalAnswer(response).value)
  {
    TrimmedEnds(ExtractOutputText(response).value, FinalAnswer(response).value);
  }

  /** `send_with_web_search`, given the reply to the request it would send:
      its status code and its body (`None` when the body is not JSON). */
  function SendWithWebSearch(systemPrompt: Option<string>, messages: seq<HistoryMessage>,
                             status: nat, body: Option<Json>): (r: Result<string, ApiError>)
    ensures InputItems(systemPrompt, messages).Err? <==> r == Err(NoContent)
    ensures InputItems(systemPrompt, messages).Ok? && !IsSuccess(status) ==> r == Err(HttpStatus(status))
    ensures InputItems(systemPrompt, messages).Ok? && IsSuccess(status) && body.None? ==> r == Err(InvalidJson)
    ensures InputItems(systemPrompt, messages).Ok? && IsSuccess(status) && body.Some? ==> r == FinalAnswer(body.value)
  {
    if InputItems(systemPrompt, messages).Err? then Err(NoContent)
    else if !IsSuccess(status) then Err(HttpStatus(status))
    else if body.None? then Err(InvalidJson)
    else FinalAnswer(body.value)
  }
}
