/**
 * The assistant service: a research query and an event extraction, both
 * sent to the Gemini generateContent endpoint. The HTTP exchange itself is
 * a parameter (what came back, or that nothing did); what is modelled is
 * the configuration guard, how the exchange's outcome becomes a text or an
 * error, and the extraction's fallback from the raw text to a cleaned one.
 * Text is treated character-wise, with ASCII white space only, as Go's
 * `bytes` package treats ASCII input.
 */
module AiService {
  import opened Wrappers

  // ----- the byte-string primitives used by cleanJSONResponse -----

  /** The ASCII white space that bytes.TrimSpace removes: \t \n \v \f \r and space. */
  predicate IsSpace(c: char) {
    c == '\t' || c == '\n' || c == '\U{000B}' || c == '\U{000C}' || c == '\r' || c == ' '
  }

  /** The suffix left after removing the longest run of leading white space. */
  function TrimLeftSpace(s: string): (r: string)
    ensures |r| <= |s| && r == s[|s| - |r|..]
    ensures forall i :: 0 <= i < |s| - |r| ==> IsSpace(s[i])
    ensures r != [] ==> !IsSpace(r[0])
  {
    if s != [] && IsSpace(s[0]) then TrimLeftSpace(s[1..]) else s
  }

  /** The prefix left after removing the longest run of trailing white space. */
  function TrimRightSpace(s: string): (r: string)
    ensures |r| <= |s| && r == s[..|r|]
    ensures forall i :: |r| <= i < |s| ==> IsSpace(s[i])
    ensures r != [] ==> !IsSpace(r[|r| - 1])
  {
    if s != [] && IsSpace(s[|s| - 1]) then TrimRightSpace(s[..|s| - 1]) else s
  }

  /**
   * bytes.TrimSpace on ASCII input: no white space is left at either end,
   * and a text that has none there is returned as it is.
   */
  function TrimSpace(s: string): (r: string)
    ensures |r| <= |s| && Trimmed(r)
    ensures Trimmed(s) ==> r == s
  {
    TrimRightSpace(TrimLeftSpace(s))
  }

  predicate HasPrefix(s: string, p: string) {
    |p| <= |s| && s[..|p|] == p
  }

  predicate HasSuffix(s: string, p: string) {
    |p| <= |s| && s[|s| - |p|..] == p
  }

  /** bytes.TrimPrefix: drop `p` once if `s` starts with it. */
  function TrimPrefix(s: string, p: string): (r: string)
    ensures HasPrefix(s, p) ==> s == p + r
    ensures !HasPrefix(s, p) ==> r == s
  {
    if HasPrefix(s, p) then s[|p|..] else s
  }

  /** bytes.TrimSuffix: drop `p` once if `s` ends with it. */
  function TrimSuffix(s: string, p: string): (r: string)
    ensures HasSuffix(s, p) ==> s == r + p
    ensures !HasSuffix(s, p) ==> r == s
  {
    if HasSuffix(s, p) then s[..|s| - |p|] else s
  }

  /** `r` occurs in `s` at offset `i`. */
  predicate OccursAt(r: string, s: string, i: int) {
    0 <= i <= |s| - |r| && s[i..i + |r|] == r
  }

  /** `r` occurs in `s` at some offset. */
  ghost predicate IsSubstring(r: string, s: string) {
    exists i :: OccursAt(r, s, i)
  }

  lemma SubstringTransitive(a: string, b: string, c: string)
    requires IsSubstring(a, b) && IsSubstring(b, c)
    ensures IsSubstring(a, c)
  {
    var i :| OccursAt(a, b, i);
    var j :| OccursAt(b, c, j);
    forall k | 0 <= k < |a|
      ensures c[j + i + k] == a[k]
    {
      assert a[k] == b[i + k];
      assert b[i + k] == c[j..j + |b|][i + k];
    }
    assert OccursAt(a, c, j + i);
  }

  /** A text with no white space at either end. */
  predicate Trimmed(s: string) {
    s == [] || (!IsSpace(s[0]) && !IsSpace(s[|s| - 1]))
  }

  /** TrimSpace keeps a piece of its input, with no white space at its ends. */
  lemma TrimSpaceShape(s: string)
    ensures |TrimSpace(s)| <= |s| && IsSubstring(TrimSpace(s), s) && Trimmed(TrimSpace(s))
  {
    var l := TrimLeftSpace(s);
    var r := TrimRightSpace(l);
    var i := |s| - |l|;
    assert s[i..i + |r|] == l[..|r|];
    assert OccursAt(r, s, i);
  }

  /** Removing a prefix or a suffix leaves a piece of the text. */
  lemma TrimFenceIsSubstring(s: string, p: string)
    ensures IsSubstring(TrimPrefix(s, p), s) && IsSubstring(TrimSuffix(s, p), s)
  {
    var a := TrimPrefix(s, p);
    assert OccursAt(a, s, |s| - |a|);
    var b := TrimSuffix(s, p);
    assert OccursAt(b, s, 0);
  }

  const JsonFence: string := "```json"
  const Fence: string := "```"

  /**
   * cleanJSONResponse: drop a leading "```json", then a leading "```", then
   * a trailing "```", then the white space at both ends. The fences are only
   * recognised at the very ends of the text.
   */
  function CleanJSONResponse(s: string): (r: string)
    ensures |r| <= |s| && Trimmed(r)
  {
    TrimSpace(TrimSuffix(TrimPrefix(TrimPrefix(s, JsonFence), Fence), Fence))
  }

  /** The cleaned text is a piece of the reply, no longer, with no white space at its ends. */
  lemma CleanJSONResponseShape(s: string)
    ensures |CleanJSONResponse(s)| <= |s|
    ensures IsSubstring(CleanJSONResponse(s), s)
    ensures Trimmed(CleanJSONResponse(s))
  {
    var a := TrimPrefix(s, JsonFence);
    var b := TrimPrefix(a, Fence);
    var c := TrimSuffix(b, Fence);
    TrimFenceIsSubstring(s, JsonFence);
    TrimFenceIsSubstring(a, Fence);
    TrimFenceIsSubstring(b, Fence);
    TrimSpaceShape(c);
    SubstringTransitive(b, a, s);
    SubstringTransitive(c, b, s);
    SubstringTransitive(TrimSpace(c), c, s);
  }

  /** A text that does not start with "```" does not start with "```json" either. */
  lemma NoFenceNoJsonFence(s: string)
    requires !HasPrefix(s, Fence)
    ensures !HasPrefix(s, JsonFence)
  {
  }

  /** A text without fences at its ends is only trimmed. */
  lemma CleanUnfenced(s: string)
    requires !HasPrefix(s, Fence) && !HasSuffix(s, Fence)
    ensures CleanJSONResponse(s) == TrimSpace(s)
  {
    NoFenceNoJsonFence(s);
  }

  /** A model reply fenced as a json code block cleans to its trimmed body. */
  lemma CleanJsonFence(body: string)
    requires body != [] && body[0] != '`'
    ensures CleanJSONResponse(JsonFence + body + Fence) == TrimSpace(body)
  {
    var s := JsonFence + body + Fence;
    assert s[..|JsonFence|] == JsonFence;
    var a := body + Fence;
    assert s[|JsonFence|..] == a;
    assert TrimPrefix(s, JsonFence) == a;
    assert a[0] == body[0];
    assert TrimPrefix(a, Fence) == a;
    assert a[|a| - 3..] == Fence;
    assert a[..|a| - 3] == body;
  }

  /** A reply fenced as a plain code block cleans to its trimmed body. */
  lemma CleanPlainFence(body: string)
    requires body != [] && body[0] != '`' && !HasPrefix(body, "json")
    ensures CleanJSONResponse(Fence + body + Fence) == TrimSpace(body)
  {
    var s := Fence + body + Fence;
    if |body| >= 4 {
      assert s[3..7] == body[..4];
    } else {
      assert s[6] == '`';
    }
    assert !HasPrefix(s, JsonFence);
    assert s[..3] == Fence;
    var a := body + Fence;
    assert s[3..] == a;
    assert TrimPrefix(s, Fence) == a;
    assert a[|a| - 3..] == Fence;
    assert a[..|a| - 3] == body;
  }

  /** Trimming a suffix keeps any prefix that lies before it. */
  lemma TrimSuffixKeepsPrefix(s: string, k: nat)
    requires k <= |s| && (!HasSuffix(s, Fence) || k <= |s| - |Fence|)
    ensures k <= |TrimSuffix(s, Fence)| && TrimSuffix(s, Fence)[..k] == s[..k]
  {
  }

  /** Left trimming stops at the first byte that is not white space. */
  lemma {:induction false} TrimLeftStopsAt(s: string, k: nat)
    requires k < |s| && !IsSpace(s[k])
    requires forall i :: 0 <= i < k ==> IsSpace(s[i])
    ensures TrimLeftSpace(s) == s[k..]
  {
    if k > 0 {
      TrimLeftStopsAt(s[1..], k - 1);
    }
  }

  /** Right trimming keeps every byte up to the last one that is not white space. */
  lemma TrimRightKeepsPrefix(s: string, k: nat)
    requires k < |s| && !IsSpace(s[k])
    ensures k < |TrimRightSpace(s)| && TrimRightSpace(s)[..k + 1] == s[..k + 1]
  {
  }

  /**
   * White space before a fence stops its removal: the opening fence
   * survives the cleaning, at the start of the result.
   */
  lemma LeadingSpaceKeepsFence(ws: char, body: string)
    requires IsSpace(ws)
    ensures HasPrefix(CleanJSONResponse([ws] + JsonFence + body), JsonFence)
  {
    var s := [ws] + JsonFence + body;
    assert s[0] == ws && s[7] == 'n';
    assert !HasPrefix(s, JsonFence) && !HasPrefix(s, Fence);
    TrimSuffixKeepsPrefix(s, 8);
    var c := TrimSuffix(s, Fence);
    assert c[..8] == [ws] + JsonFence;
    assert c[1] == '`';
    TrimLeftStopsAt(c, 1);
    var l := c[1..];
    assert l[..7] == JsonFence;
    TrimRightKeepsPrefix(l, 6);
    assert TrimRightSpace(l)[..7] == JsonFence;
  }

  // ----- the Gemini exchange -----

  datatype GeminiPart = GeminiPart(text: string)
  datatype GeminiContent = GeminiContent(parts: seq<GeminiPart>)
  datatype GeminiCandidate = GeminiCandidate(content: GeminiContent)
  datatype GeminiResponse = GeminiResponse(candidates: seq<GeminiCandidate>)

  /** What the HTTP call produced: no response at all, or a status and a body that did or did not decode. */
  datatype Exchange =
    | RequestFailed
    | Reply(statusCode: int, decoded: Option<GeminiResponse>)

  datatype EventExtraction = EventExtraction(title: string, date: string, time: string, location: string, description: string)

  datatype AiError =
    | NotConfigured          // "Gemini API key not configured"
    | TransportError         // building or sending the request failed
    | ApiError(status: int)  // "Gemini API error: <status> - <body>"
    | DecodeError            // the reply body was not a GeminiResponse
    | NoResponse             // "no response from Gemini"
    | ParseFailed            // "failed to parse event data"

  const StatusOK: int := 200

  /** The text of the first part of the first candidate, if there is one. */
  function FirstCandidateText(resp: GeminiResponse): (r: Result<string, AiError>)
    ensures r.Ok? <==> |resp.candidates| > 0 && |resp.candidates[0].content.parts| > 0
    ensures r.Ok? ==> r.value == resp.candidates[0].content.parts[0].text
    ensures r.Err? ==> r.error == NoResponse
  {
    if |resp.candidates| == 0 || |resp.candidates[0].content.parts| == 0 then Err(NoResponse)
    else Ok(resp.candidates[0].content.parts[0].text)
  }

  /** Candidates after the first one, and parts after its first, are never looked at. */
  lemma OnlyFirstCandidateCounts(p: GeminiPart, parts: seq<GeminiPart>, rest: seq<GeminiCandidate>)
    ensures FirstCandidateText(GeminiResponse([GeminiCandidate(GeminiContent([p] + parts))] + rest)) == Ok(p.text)
  {
  }

  /** callGemini, from the point where the exchange has produced its outcome. */
  function CallGemini(x: Exchange): (r: Result<string, AiError>)
    ensures x.RequestFailed? ==> r == Err(TransportError)
    ensures x.Reply? && x.statusCode != StatusOK ==> r == Err(ApiError(x.statusCode))
    ensures r.Ok? <==> x.Reply? && x.statusCode == StatusOK && x.decoded.Some? && FirstCandidateText(x.decoded.value).Ok?
    ensures r.Ok? ==> r.value == FirstCandidateText(x.decoded.value).value
  {
    match x
    case RequestFailed => Err(TransportError)
    case Reply(code, decoded) =>
      if code != StatusOK then Err(ApiError(code))
      else if decoded.None? then Err(DecodeError)
      else FirstCandidateText(decoded.value)
  }

  /** Research: without a key nothing is sent; otherwise the reply's text or its error. */
  function Research(apiKey: string, x: Exchange): (r: Result<string, AiError>)
    ensures apiKey == [] ==> r == Err(NotConfigured)
    ensures apiKey != [] ==> r == CallGemini(x)
  {
    if apiKey == [] then Err(NotConfigured) else CallGemini(x)
  }

  /**
   * The two-stage parse of ExtractEvent: the raw text first; the cleaned
   * text only when the raw text does not parse; `parse` stands for
   * json.Unmarshal into an EventExtraction.
   */
  function ParseEvent(text: string, parse: string -> Option<EventExtraction>): (r: Result<EventExtraction, AiError>)
    ensures parse(text).Some? ==> r == Ok(parse(text).value)
    ensures parse(text).None? && parse(CleanJSONResponse(text)).Some? ==> r == Ok(parse(CleanJSONResponse(text)).value)
    ensures r.Err? <==> parse(text).None? && parse(CleanJSONResponse(text)).None?
    ensures r.Err? ==> r.error == ParseFailed
  {
    match parse(text)
    case Some(e) => Ok(e)
    case None =>
      match parse(CleanJSONResponse(text))
      case Some(e) => Ok(e)
      case None => Err(ParseFailed)
  }

  /** ExtractEvent: the key guard, then the exchange, then the two-stage parse. */
  function ExtractEvent(apiKey: string, x: Exchange, parse: string -> Option<EventExtraction>): (r: Result<EventExtraction, AiError>)
    ensures apiKey == [] ==> r == Err(NotConfigured)
    ensures apiKey != [] && CallGemini(x).Err? ==> r == Err(CallGemini(x).error)
    ensures apiKey != [] && CallGemini(x).Ok? ==> r == ParseEvent(CallGemini(x).value, parse)
  {
    if apiKey == [] then Err(NotConfigured)
    else
      match CallGemini(x)
      case Err(e) => Err(e)
      case Ok(text) => ParseEvent(text, parse)
  }

  /**
   * The fallback cannot rescue a reply that has neither fences nor white
   * space at its ends: its cleaned form is the reply itself.
   */
  lemma FallbackOnlyHelpsFencedOrPadded(text: string, parse: string -> Option<EventExtraction>)
    requires !HasPrefix(text, Fence) && !HasSuffix(text, Fence) && Trimmed(text)
    ensures ParseEvent(text, parse).Ok? <==> parse(text).Some?
  {
    assert CleanJSONResponse(text) == text by {
      CleanUnfenced(text);
    }
  }

  /** A reply fenced as a json code block is extracted from its body when the raw reply does not parse. */
  lemma FencedReplyIsExtracted(body: string, parse: string -> Option<EventExtraction>)
    requires body != [] && body[0] != '`'
    requires parse(JsonFence + body + Fence).None? && parse(TrimSpace(body)).Some?
    ensures ParseEvent(JsonFence + body + Fence, parse) == Ok(parse(TrimSpace(body)).value)
  {
    CleanJsonFence(body);
  }
}
