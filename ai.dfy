/** `AiRecommender.recommendTitles`: the pre-checks, the request it would send to the
    Gemini API, and how a reply becomes a list of titles. The HTTP exchange is an input
    (`Reply`) and the JSON parser a function parameter returning the parsed element or
    the parser's error message. */
module Ai {
  import opened Common
  import opened Json

  const MissingKey: string := "Missing GEMINI_API_KEY"
  const PromptTitles: nat := 20

  // ---------------------------------------------------------------- request

  const Header: string := "User watched these movies:"
  const Instructions: string :=
    "Recommend 60 movie titles based on this history.\n"
    + "Return ONLY a JSON array of movie name strings, no extra text.\n"
    + "Example: [\"iron man\", \"the avengers\"]\n"

  /** One "- title" line per title. */
  function Bullets(titles: seq<string>): string {
    if titles == [] then "" else "- " + titles[0] + "\n" + Bullets(titles[1..])
  }

  function BulletLines(titles: seq<string>): (r: seq<string>)
    ensures |r| == |titles|
    ensures forall i :: 0 <= i < |r| ==> r[i] == "- " + titles[i]
  {
    seq(|titles|, i requires 0 <= i < |titles| => "- " + titles[i])
  }

  /** The prompt `buildString` produces (`appendLine` ends each line with "\n"). */
  function Prompt(titles: seq<string>): string {
    Header + "\n" + Bullets(Take(titles, PromptTitles)) + "\n" + Instructions
  }

  lemma LineHasNoBreak(t: string)
    requires NoneIn(t, {'\n'})
    ensures NoneIn("- " + t, {'\n'})
  {
    var line := "- " + t;
    assert forall j :: 2 <= j < |line| ==> line[j] == t[j - 2];
  }

  lemma {:induction false} SplitBullets(titles: seq<string>, tail: string)
    requires forall i :: 0 <= i < |titles| ==> NoneIn(titles[i], {'\n'})
    ensures Split(Bullets(titles) + tail, {'\n'}) == BulletLines(titles) + Split(tail, {'\n'})
    decreases |titles|
  {
    if titles != [] {
      var line := "- " + titles[0];
      var rest := Bullets(titles[1..]) + tail;
      LineHasNoBreak(titles[0]);
      assert Bullets(titles) == line + "\n" + Bullets(titles[1..]);
      assert Bullets(titles) + tail == line + ['\n'] + rest;
      SplitAfter(line, '\n', rest, {'\n'});
      SplitBullets(titles[1..], tail);
      calc {
        Split(Bullets(titles) + tail, {'\n'});
        Split(line + ['\n'] + rest, {'\n'});
        [line] + Split(rest, {'\n'});
        [line] + (BulletLines(titles[1..]) + Split(tail, {'\n'}));
        ([line] + BulletLines(titles[1..])) + Split(tail, {'\n'});
        { assert [line] + BulletLines(titles[1..]) == BulletLines(titles); }
        BulletLines(titles) + Split(tail, {'\n'});
      }
    } else {
      assert Bullets(titles) + tail == tail;
    }
  }

  lemma HeaderIsOneLine()
    ensures NoneIn(Header, {'\n'})
  {
  }

  /** The prompt is its title list followed by the fixed instructions; read line by
      line, the list is the header, one "- title" line for each of the first 20 titles
      in order, and a last empty piece (titles holding no line break). */
  lemma PromptLines(titles: seq<string>)
    requires forall i :: 0 <= i < |titles| ==> NoneIn(titles[i], {'\n'})
    ensures var shown := Take(titles, PromptTitles);
            var list := Header + "\n" + Bullets(shown);
            && |shown| == Min(|titles|, PromptTitles)
            && Prompt(titles) == list + "\n" + Instructions
            && Split(list, {'\n'}) == [Header] + BulletLines(shown) + [""]
  {
    var shown := Take(titles, PromptTitles);
    var bullets := BulletLines(shown);
    HeaderIsOneLine();
    assert Header + "\n" + Bullets(shown) == Header + ['\n'] + (Bullets(shown) + "");
    SplitAfter(Header, '\n', Bullets(shown) + "", {'\n'});
    SplitBullets(shown, "");
    assert Split("", {'\n'}) == [""];
    assert [Header] + (bullets + [""]) == [Header] + bullets + [""];
  }

  /** `generateContent` request: the URL carries the key, and the body asks for the
      prompt as a single user part. */
  datatype Request = Request(url: string, body: Json)

  function RequestUrl(apiKey: string): string {
    "https://generativelanguage.googleapis.com/v1beta/models/gemini-2.5-flash:generateContent?key=" + apiKey
  }

  function RequestBody(prompt: string): Json {
    JObject(map[
      "contents" := JArray([JObject(map[
        "role" := JString("user"),
        "parts" := JArray([JObject(map["text" := JString(prompt)])])])]),
      "generationConfig" := JObject(map[
        "temperature" := JNumber("0.6"),
        "maxOutputTokens" := JNumber("800"),
        "responseMimeType" := JString("application/json")])])
  }

  /** The request `recommendTitles` sends, and none at all without a key or a history. */
  function RequestFor(apiKey: string, titles: seq<string>): (r: Option<Request>)
    ensures r.None? <==> IsBlank(apiKey) || titles == []
  {
    if IsBlank(apiKey) || titles == [] then None
    else Some(Request(RequestUrl(apiKey), RequestBody(Prompt(titles))))
  }

  /** The prompt sits where the reply path of the reader expects text in a reply:
      `contents[0].parts[0].text`. */
  lemma RequestCarriesPrompt(apiKey: string, titles: seq<string>)
    requires !IsBlank(apiKey) && titles != []
    ensures var body := RequestFor(apiKey, titles).value.body;
            FieldContent(Element(FieldOf(Element(FieldOf(Some(body), "contents"), 0), "parts"), 0), "text")
              == Some(Prompt(titles))
  {
  }

  // ------------------------------------------------------------------ reply

  /** The HTTP exchange: no response at all (the exception's message), or a status code
      and the body text (`body?.string().orEmpty()`). */
  datatype Reply = Unreachable(message: string) | Response(code: int, body: string)

  /** The `candidates[0].content.parts[0].text` primitive's content, or "" when any step
      is missing or of the wrong kind; a non-object root reads as an empty object. */
  function ReplyText(root: Json): string {
    var candidate := Element(FieldOf(Some(root), "candidates"), 0);
    var part := Element(FieldOf(FieldOf(candidate, "content"), "parts"), 0);
    FieldContent(part, "text").GetOr("")
  }

  /** The reply path reads back the text it holds. */
  lemma ReplyTextPath(text: string)
    ensures ReplyText(JObject(map["candidates" := JArray([JObject(map["content" := JObject(map[
              "parts" := JArray([JObject(map["text" := JString(text)])])])])])])) == text
  {
  }

  /** The reply holds its text at `candidates[0].content.parts[0].text`: every step is
      there, of the right kind, and the last one is a primitive. */
  predicate HasReplyText(root: Json) {
    && root.JObject? && "candidates" in root.fields
    && var candidates := root.fields["candidates"];
    && candidates.JArray? && |candidates.items| > 0
    && var candidate := candidates.items[0];
    && candidate.JObject? && "content" in candidate.fields
    && var content := candidate.fields["content"];
    && content.JObject? && "parts" in content.fields
    && var parts := content.fields["parts"];
    && parts.JArray? && |parts.items| > 0
    && var part := parts.items[0];
    && part.JObject? && "text" in part.fields
    && IsPrimitive(part.fields["text"])
  }

  /** The `text` value at the end of a complete reply path. */
  function ReplyTextValue(root: Json): Json
    requires HasReplyText(root)
  {
    root.fields["candidates"].items[0].fields["content"].fields["parts"].items[0].fields["text"]
  }

  /** A complete path reads back the content of its `text` primitive. */
  lemma ReplyTextFound(root: Json)
    requires HasReplyText(root)
    ensures ReplyText(root) == Content(ReplyTextValue(root)).value
  {
  }

  /** A reply missing any step of the path, or whose `text` is an array or an object,
      reads as no text: no candidates, an empty candidate list, a candidate without
      `content`, missing or empty `parts`, a part without a primitive `text`. */
  lemma ReplyTextMissing(root: Json)
    requires !HasReplyText(root)
    ensures ReplyText(root) == ""
  {
  }

  const FenceJson: string := "```json"
  const Fence: string := "```"

  /** Drops one leading "```json", then one leading "```", then one trailing "```",
      and trims. */
  function Clean(text: string): string {
    Trim(RemoveSuffix(RemovePrefix(RemovePrefix(text, FenceJson), Fence), Fence))
  }

  /** The cleaned text has no leading and no trailing whitespace. */
  lemma CleanTrimmed(text: string)
    ensures var r := Clean(text); r == [] || (!IsWhitespace(r[0]) && !IsWhitespace(r[|r| - 1]))
  {
    var c := RemoveSuffix(RemovePrefix(RemovePrefix(text, FenceJson), Fence), Fence);
    assert Clean(text) == Trim(c);
  }

  /** A fenced JSON reply cleans to its trimmed payload, when the payload does not
      itself start with a backtick. */
  lemma CleanFenced(payload: string)
    requires payload != [] && payload[0] != '`'
    ensures Clean(FenceJson + payload + Fence) == Trim(payload)
  {
    var t := FenceJson + payload + Fence;
    assert t[..|FenceJson|] == FenceJson;
    var a := RemovePrefix(t, FenceJson);
    assert a == payload + Fence;
    assert !StartsWith(a, Fence) by {
      assert a[0] == payload[0];
    }
    assert a[|a| - |Fence|..] == Fence;
    assert RemoveSuffix(a, Fence) == payload;
  }

  /** The non-blank trimmed pieces of the text fallback: each piece is trimmed of
      whitespace and then of '"'. */
  function Pieces(pieces: seq<string>): (r: seq<string>)
    ensures |r| <= |pieces|
    ensures forall k :: 0 <= k < |r| ==> !IsBlank(r[k]) && r[k][0] != '"' && r[k][|r[k]| - 1] != '"'
  {
    if pieces == [] then []
    else
      var p := TrimChar(Trim(pieces[0]), '"');
      if IsBlank(p) then Pieces(pieces[1..]) else [p] + Pieces(pieces[1..])
  }

  /** The contents of the primitive elements, in order. */
  function Contents(items: seq<Json>): (r: seq<string>)
    ensures |r| <= |items|
  {
    if items == [] then []
    else
      var c := Content(items[0]);
      (if c.Some? then [c.value] else []) + Contents(items[1..])
  }

  const TextDelims: set<char> := {'\n', ','}

  /** `extractStringArray`: an array gives the contents of its primitive elements, a
      primitive its content split at line breaks and commas, an object nothing. */
  function ExtractStringArray(e: Json): (r: seq<string>)
    ensures e.JObject? ==> r == []
    ensures e.JArray? ==> |r| <= |e.items|
    ensures IsPrimitive(e) ==> forall k :: 0 <= k < |r| ==> !IsBlank(r[k]) && r[k][0] != '"' && r[k][|r[k]| - 1] != '"'
  {
    match e
    case JArray(items) => Contents(items)
    case JObject(_) => []
    case _ => Pieces(Split(Content(e).value, TextDelims))
  }

  /** An array of strings gives exactly those strings. */
  lemma {:induction false} StringArrayRoundTrip(titles: seq<string>)
    ensures ExtractStringArray(JArray(seq(|titles|, i requires 0 <= i < |titles| => JString(titles[i])))) == titles
    decreases |titles|
  {
    var items := seq(|titles|, i requires 0 <= i < |titles| => JString(titles[i]));
    if titles != [] {
      StringArrayRoundTrip(titles[1..]);
      assert items[1..] == seq(|titles| - 1, i requires 0 <= i < |titles| - 1 => JString(titles[1..][i]));
    }
  }

  /** Non-primitive elements of an array are skipped. */
  lemma ArrayDropsStructures(items: seq<Json>, k: nat)
    requires k < |items| && !IsPrimitive(items[k])
    ensures Contents(items) == Contents(items[..k]) + Contents(items[k + 1..])
    decreases k
  {
    if k > 0 {
      ArrayDropsStructures(items[1..], k - 1);
      assert items[1..][..k - 1] == items[..k][1..];
      assert items[1..][k..] == items[k + 1..];
    } else {
      assert items[..0] == [];
    }
  }

  /** Titles joined with commas. */
  function JoinCommas(titles: seq<string>): string
    requires titles != []
  {
    if |titles| == 1 then titles[0] else titles[0] + "," + JoinCommas(titles[1..])
  }

  /** A title that survives the text fallback unchanged. */
  predicate PlainTitle(t: string) {
    && t != []
    && !IsWhitespace(t[0]) && !IsWhitespace(t[|t| - 1])
    && t[0] != '"' && t[|t| - 1] != '"'
    && NoneIn(t, TextDelims)
  }

  lemma PlainPiece(t: string)
    requires PlainTitle(t)
    ensures TrimChar(Trim(t), '"') == t && !IsBlank(t)
  {
    assert Trim(t) == t;
  }

  lemma {:induction false} SplitJoin(titles: seq<string>)
    requires titles != [] && forall i :: 0 <= i < |titles| ==> PlainTitle(titles[i])
    ensures Split(JoinCommas(titles), TextDelims) == titles
    decreases |titles|
  {
    if |titles| == 1 {
      SplitWhole(titles[0], TextDelims);
    } else {
      assert JoinCommas(titles) == titles[0] + [','] + JoinCommas(titles[1..]);
      SplitAfter(titles[0], ',', JoinCommas(titles[1..]), TextDelims);
      SplitJoin(titles[1..]);
      assert [titles[0]] + titles[1..] == titles;
    }
  }

  lemma {:induction false} PiecesOfPlain(titles: seq<string>)
    requires forall i :: 0 <= i < |titles| ==> PlainTitle(titles[i])
    ensures Pieces(titles) == titles
    decreases |titles|
  {
    if titles != [] {
      PlainPiece(titles[0]);
      PiecesOfPlain(titles[1..]);
      assert [titles[0]] + titles[1..] == titles;
    }
  }

  /** The text fallback reads a comma-separated list of plain titles back exactly. */
  lemma TextFallbackRoundTrip(titles: seq<string>)
    requires titles != [] && forall i :: 0 <= i < |titles| ==> PlainTitle(titles[i])
    ensures ExtractStringArray(JString(JoinCommas(titles))) == titles
  {
    SplitJoin(titles);
    PiecesOfPlain(titles);
  }

  /** The error of a non-2xx reply: the code and the first 200 characters of the body
      on one line, trimmed. */
  function HttpError(code: int, body: string): string {
    "HTTP " + IntToString(code) + ": " + Trim(ReplaceChar(Take(body, 200), '\n', ' '))
  }

  /** `recommendTitles`: without a key a failure, without a history no titles; otherwise
      the reply's text, cleaned, parsed into a JSON element when it parses and taken as
      a string when it does not, and read with `extractStringArray`. */
  function RecommendTitles(apiKey: string, titles: seq<string>, reply: Reply,
                           parse: string -> Result<Json, string>): (r: Result<seq<string>, string>)
    ensures IsBlank(apiKey) ==> r == Failure(MissingKey)
    ensures !IsBlank(apiKey) && titles == [] ==> r == Success([])
    ensures (!IsBlank(apiKey) && titles != [] && reply.Response? && !(200 <= reply.code < 300))
              ==> r == Failure(HttpError(reply.code, reply.body))
    ensures r.Success? && titles != [] ==> reply.Response? && 200 <= reply.code < 300 && parse(reply.body).Success?
  {
    if IsBlank(apiKey) then Failure(MissingKey)
    else if titles == [] then Success([])
    else match reply
      case Unreachable(message) => Failure(message)
      case Response(code, body) =>
        if !(200 <= code < 300) then Failure(HttpError(code, body))
        else
          var root := parse(body);
          if root.Failure? then Failure(root.error)
          else
            var cleaned := Clean(ReplyText(root.value));
            var element := parse(cleaned);
            Success(ExtractStringArray(if element.Success? then element.value else JString(cleaned)))
  }

  /** Without a key nothing is asked: the outcome does not depend on any reply. */
  lemma BlankKeyAsksNothing(apiKey: string, titles: seq<string>, reply1: Reply, reply2: Reply,
                            parse: string -> Result<Json, string>)
    requires IsBlank(apiKey)
    ensures RecommendTitles(apiKey, titles, reply1, parse) == RecommendTitles(apiKey, titles, reply2, parse)
    ensures RequestFor(apiKey, titles).None?
  {
  }

  /** A successful reply missing any step of the reply path gives no titles, provided
      the parser rejects empty text. */
  lemma MissingPathGivesNothing(apiKey: string, titles: seq<string>, body: string, root: Json,
                                parse: string -> Result<Json, string>)
    requires !IsBlank(apiKey) && titles != []
    requires parse(body) == Success(root) && !HasReplyText(root)
    requires parse("").Failure?
    ensures RecommendTitles(apiKey, titles, Response(200, body), parse) == Success([])
  {
    ReplyTextMissing(root);
    assert Clean("") == "";
    assert Split("", TextDelims) == [""];
    assert IsBlank(TrimChar(Trim(""), '"'));
  }

  /** A fenced JSON array of strings in the reply text gives exactly those strings. */
  lemma FencedArrayGivesTitles(apiKey: string, titles: seq<string>, body: string, payload: string,
                               names: seq<string>, parse: string -> Result<Json, string>)
    requires !IsBlank(apiKey) && titles != []
    requires payload != [] && payload[0] != '`'
    requires parse(body).Success? && ReplyText(parse(body).value) == FenceJson + payload + Fence
    requires parse(Trim(payload)) == Success(JArray(seq(|names|, i requires 0 <= i < |names| => JString(names[i]))))
    ensures RecommendTitles(apiKey, titles, Response(200, body), parse) == Success(names)
  {
    CleanFenced(payload);
    StringArrayRoundTrip(names);
  }
}
