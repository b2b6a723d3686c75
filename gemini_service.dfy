/**
 * The Gemini service: the sanitiser `cleanJsonOutput`, the prompt, and the order
 * of the guards in `fetchTopRestaurants`. The network call and `JSON.parse` are
 * foreign code; their outcomes are inputs here.
 */
module GeminiService {
  import opened Wrappers
  import opened EcmaString
  import opened Types

  /** The bare Markdown code fence. */
  const Fence: string := "```"

  /** The opening fence of a block tagged as JSON. */
  const JsonFence: string := "```json"

  /**
   * `s.replace(re, '')` for the anchored, non-global pattern `^tag` then `\s*`:
   * when `s` starts with `tag`, the match is `tag` followed by the longest run of
   * whitespace, and that is removed; otherwise nothing matches.
   */
  function StripLeading(s: string, tag: string): (r: string)
    ensures |r| <= |s| && r == s[|s| - |r|..]
    ensures !StartsWith(s, tag) ==> r == s
    ensures StartsWith(s, tag) ==>
              && |tag| <= |s| - |r| && AllWhiteSpace(s[|tag|..|s| - |r|])
              && (r == [] || !IsWhiteSpace(r[0]))
  {
    if StartsWith(s, tag) then
      var t := s[|tag|..];
      var r := TrimStart(t);
      var k := |s| - |r|;
      assert r == s[k..] && t[..|t| - |r|] == s[|tag|..k];
      r
    else s
  }

  /**
   * `s.replace(/\s*```$/, '')`. Without the `m` flag `$` is the end of input, so a
   * match ends there; the leftmost one starts where the whitespace run before the
   * final fence begins, and only that one is removed.
   */
  function StripTrailingFence(s: string): (r: string)
    ensures |r| <= |s| && r == s[..|r|]
    ensures !EndsWith(s, Fence) ==> r == s
    ensures EndsWith(s, Fence) ==>
              && |r| <= |s| - |Fence| && AllWhiteSpace(s[|r|..|s| - |Fence|])
              && (r == [] || !IsWhiteSpace(r[|r| - 1]))
  {
    if EndsWith(s, Fence) then
      var t := s[..|s| - |Fence|];
      var r := TrimEnd(t);
      assert r == s[..|r|] && s[|r|..|s| - |Fence|] == t[|r|..];
      r
    else s
  }

  /** `cleanJsonOutput`: trim, then remove one leading fence and one trailing fence. */
  function CleanJsonOutput(text: string): (r: string)
    ensures |r| <= |text|
  {
    var cleaned := Trim(text);
    if StartsWith(cleaned, JsonFence) then
      StripTrailingFence(StripLeading(cleaned, JsonFence))
    else if StartsWith(cleaned, Fence) then
      StripTrailingFence(StripLeading(cleaned, Fence))
    else
      cleaned
  }

  /** A text opening with the `json` fence opens with the bare fence. */
  lemma JsonFenceIsFence(s: string)
    requires StartsWith(s, JsonFence)
    ensures StartsWith(s, Fence)
  {
  }

  /** Text that does not open with a fence once trimmed comes back trimmed and otherwise intact. */
  lemma CleanWithoutFence(text: string)
    requires !StartsWith(Trim(text), Fence)
    ensures CleanJsonOutput(text) == Trim(text)
  {
    if StartsWith(Trim(text), JsonFence) {
      JsonFenceIsFence(Trim(text));
    }
  }

  /** Removing the opening fence keeps a contiguous piece. */
  lemma LeadingIsSlice(s: string, tag: string)
    ensures IsSlice(StripLeading(s, tag), s)
  {
    var r := StripLeading(s, tag);
    var k := |s| - |r|;
    assert 0 <= k <= |s| && s[k..|s|] == r;
  }

  /** Removing the closing fence keeps a contiguous piece. */
  lemma TrailingIsSlice(s: string)
    ensures IsSlice(StripTrailingFence(s), s)
  {
    var r := StripTrailingFence(s);
    assert 0 <= |r| <= |s| && s[0..|r|] == r;
  }

  /** The sanitised text is always a contiguous piece of the raw text, so never longer. */
  lemma CleanIsPieceOfInput(text: string)
    ensures IsSlice(CleanJsonOutput(text), text)
    ensures |CleanJsonOutput(text)| <= |text|
  {
    var cleaned := Trim(text);
    TrimIsSlice(text);
    if StartsWith(cleaned, Fence) {
      var tag := if StartsWith(cleaned, JsonFence) then JsonFence else Fence;
      var lead := StripLeading(cleaned, tag);
      var r := StripTrailingFence(lead);
      CleanOfTrimmed(text, cleaned);
      assert CleanJsonOutput(text) == r;
      LeadingIsSlice(cleaned, tag);
      TrailingIsSlice(lead);
      SliceTransitive(r, lead, cleaned);
      SliceTransitive(r, cleaned, text);
    } else {
      CleanWithoutFence(text);
    }
    SliceNoLonger(CleanJsonOutput(text), text);
  }

  /**
   * A JSON block between fences, with any whitespace around and inside the
   * fences, comes back as exactly its trimmed body.
   */
  lemma CleanJsonBlock(w1: string, gap1: string, body: string, gap2: string, w2: string)
    requires AllWhiteSpace(w1) && AllWhiteSpace(gap1) && AllWhiteSpace(gap2) && AllWhiteSpace(w2)
    requires IsTrimmed(body)
    ensures CleanJsonOutput(w1 + JsonFence + gap1 + body + gap2 + Fence + w2) == body
  {
    var t := JsonFence + gap1 + body + gap2 + Fence;
    FencedTrim(w1, JsonFence, gap1, body, gap2, w2);
    BlockStartsWithTag(JsonFence, gap1, body, gap2);
    OpenedBlock(JsonFence, gap1, body, gap2);
    CleanOfTrimmed(w1 + JsonFence + gap1 + body + gap2 + Fence + w2, t);
  }

  /**
   * A block opened by a bare fence comes back as exactly its trimmed content,
   * when the content does not itself read as a `json` tag. A fence inside the
   * content survives: only one fence is removed at each end.
   */
  lemma CleanBareBlock(w1: string, gap1: string, inner: string, gap2: string, w2: string)
    requires AllWhiteSpace(w1) && AllWhiteSpace(gap1) && AllWhiteSpace(gap2) && AllWhiteSpace(w2)
    requires IsTrimmed(inner)
    requires !StartsWith(gap1 + inner, "json")
    ensures CleanJsonOutput(w1 + Fence + gap1 + inner + gap2 + Fence + w2) == inner
  {
    var t := Fence + gap1 + inner + gap2 + Fence;
    FencedTrim(w1, Fence, gap1, inner, gap2, w2);
    BlockStartsWithTag(Fence, gap1, inner, gap2);
    NotJsonTagged(gap1, inner, gap2);
    OpenedBlock(Fence, gap1, inner, gap2);
    CleanOfTrimmed(w1 + Fence + gap1 + inner + gap2 + Fence + w2, t);
  }

  /** A fenced block starts with its opening tag. */
  lemma BlockStartsWithTag(tag: string, gap1: string, body: string, gap2: string)
    ensures StartsWith(tag + gap1 + body + gap2 + Fence, tag)
  {
    PrefixStartsWith(tag, []);
    assert tag + [] == tag;
    PrefixGrows(tag, tag, gap1);
    PrefixGrows(tag + gap1, tag, body);
    PrefixGrows(tag + gap1 + body, tag, gap2);
    PrefixGrows(tag + gap1 + body + gap2, tag, Fence);
  }

  /** `trim` keeps a fenced block whole and drops the whitespace around it. */
  lemma FencedTrim(w1: string, tag: string, gap1: string, body: string, gap2: string, w2: string)
    requires AllWhiteSpace(w1) && AllWhiteSpace(w2)
    requires tag != [] && tag[0] == '`'
    ensures Trim(w1 + tag + gap1 + body + gap2 + Fence + w2) == tag + gap1 + body + gap2 + Fence
  {
    var t := tag + gap1 + body + gap2 + Fence;
    assert t[0] == '`' && t[|t| - 1] == '`';
    assert w1 + tag + gap1 + body + gap2 + Fence + w2 == w1 + t + w2;
    TrimAround(w1, t, w2);
  }

  /** A bare-fenced block whose content is not `json`-tagged does not open the `json` fence. */
  lemma NotJsonTagged(gap1: string, inner: string, gap2: string)
    requires AllWhiteSpace(gap2) && !StartsWith(gap1 + inner, "json")
    ensures !StartsWith(Fence + gap1 + inner + gap2 + Fence, JsonFence)
  {
    var v := gap1 + inner;
    var t := Fence + gap1 + inner + gap2 + Fence;
    if |v| >= 4 {
      assert t[3..7] == v[..4] != "json";
      assert JsonFence[3..7] == "json";
      assert t[..7][3..] == t[3..7];
    } else if |t| >= 7 {
      assert t[3 + |v|] == (if gap2 == [] then '`' else gap2[0]);
      assert t[3 + |v|] != JsonFence[3 + |v|];
    }
  }

  /** What `cleanJsonOutput` does to text whose trimmed form is known. */
  lemma CleanOfTrimmed(text: string, t: string)
    requires Trim(text) == t
    ensures CleanJsonOutput(text) == if StartsWith(t, JsonFence) then StripTrailingFence(StripLeading(t, JsonFence))
                                     else if StartsWith(t, Fence) then StripTrailingFence(StripLeading(t, Fence))
                                     else t
  {
  }

  /** The shared step of the two block lemmas: strip one opening fence, then one closing fence. */
  lemma OpenedBlock(tag: string, gap1: string, body: string, gap2: string)
    requires AllWhiteSpace(gap1) && AllWhiteSpace(gap2) && IsTrimmed(body)
    ensures StripTrailingFence(StripLeading(tag + gap1 + body + gap2 + Fence, tag)) == body
  {
    var u := body + gap2 + Fence;
    assert tag + gap1 + body + gap2 + Fence == tag + gap1 + u;
    OpeningRemoved(tag, gap1, u);
    assert StripLeading(tag + gap1 + body + gap2 + Fence, tag) == TrimStart(u);
    ClosingRemoved(body, gap2);
    assert StripTrailingFence(TrimStart(u)) == body;
  }

  /** The opening tag and the whitespace after it go, and nothing more. */
  lemma OpeningRemoved(tag: string, gap: string, u: string)
    requires AllWhiteSpace(gap)
    ensures StripLeading(tag + gap + u, tag) == TrimStart(u)
  {
    var t := tag + gap + u;
    assert t[..|tag|] == tag;
    assert t[|tag|..] == gap + u;
    TrimStartAfterWhiteSpace(gap, u);
  }

  /** The closing fence and the whitespace before it go, and nothing more. */
  lemma ClosingRemoved(body: string, gap: string)
    requires AllWhiteSpace(gap) && IsTrimmed(body)
    ensures TrimStart(body + gap + Fence) == (if body == [] then TrimStart(gap + Fence) else body + gap + Fence)
    ensures StripTrailingFence(TrimStart(body + gap + Fence)) == body
  {
    var u := body + gap + Fence;
    if body == [] {
      assert u == gap + Fence;
      TrimStartAfterWhiteSpace(gap, Fence);
      assert TrimStart(u) == Fence;
      assert EndsWith(Fence, Fence) && Fence[..0] == [];
    } else {
      assert u[0] == body[0];
      assert TrimStart(u) == u;
      assert EndsWith(u, Fence) && u[..|u| - |Fence|] == body + gap;
      TrimEndBeforeWhiteSpace(body, gap);
    }
  }

  /**
   * Any other tag after the bare fence is not recognised: its word stays at the
   * head of the output, followed by the rest of the block.
   */
  lemma CleanKeepsUnknownTag(tag: string, gap1: string, body: string, gap2: string)
    requires tag != [] && !IsWhiteSpace(tag[0]) && !StartsWith(tag, "json")
    requires gap1 != [] && AllWhiteSpace(gap1) && AllWhiteSpace(gap2)
    requires body != [] && IsTrimmed(body)
    ensures CleanJsonOutput(Fence + tag + gap1 + body + gap2 + Fence) == tag + gap1 + body
  {
    var inner := tag + gap1 + body;
    assert IsTrimmed(inner) by {
      assert inner[0] == tag[0] && inner[|inner| - 1] == body[|body| - 1];
    }
    assert !StartsWith([] + inner, "json") by {
      var rest := gap1 + body;
      assert inner == tag + rest && rest[0] == gap1[0];
      assert IsWhiteSpace(rest[0]);
      JsonIsWord();
      NotStartsWithConcat(tag, rest, "json");
      assert [] + inner == inner;
    }
    Regroup6(Fence, tag, gap1, body, gap2, Fence);
    CleanBareBlock([], [], inner, gap2, []);
  }

  /** No letter of `json` is whitespace. */
  lemma JsonIsWord()
    ensures forall i :: 0 <= i < |"json"| ==> !IsWhiteSpace("json"[i])
  {
    assert "json"[0] == 'j' && "json"[1] == 's' && "json"[2] == 'o' && "json"[3] == 'n';
  }

  /**
   * The `json` test comes first, so a longer tag that begins with `json` loses
   * only those four letters: "```json5" leaves "5" at the head of the output.
   */
  lemma JsonTagTakesPrecedence(rest: string, gap1: string, body: string, gap2: string)
    requires rest != [] && !IsWhiteSpace(rest[0]) && IsTrimmed(body) && body != []
    requires AllWhiteSpace(gap1) && AllWhiteSpace(gap2)
    ensures CleanJsonOutput(JsonFence + rest + gap1 + body + gap2 + Fence) == rest + gap1 + body
  {
    var inner := rest + gap1 + body;
    assert IsTrimmed(inner) by {
      assert inner[0] == rest[0] && inner[|inner| - 1] == body[|body| - 1];
    }
    Regroup6(JsonFence, rest, gap1, body, gap2, Fence);
    CleanJsonBlock([], [], inner, gap2, []);
  }

  /** The regular expressions are anchored and non-global: fences nested inside a block survive. */
  lemma CleanRemovesOneFencePair(mid: string)
    ensures CleanJsonOutput(Fence + "\n" + Fence + mid + Fence + "\n" + Fence) == Fence + mid + Fence
  {
    var inner := Fence + mid + Fence;
    assert IsTrimmed(inner) by {
      assert inner[0] == '`' && inner[|inner| - 1] == '`';
    }
    assert !StartsWith("\n" + inner, "json") by {
      assert ("\n" + inner)[0] == '\n';
    }
    Regroup7(Fence, "\n", Fence, mid, Fence, "\n", Fence);
    CleanBareBlock([], "\n", inner, "\n", []);
  }

  // ---------------------------------------------------------------------------
  // fetchTopRestaurants

  /** The model the request names. */
  const ModelName: string := "gemini-2.5-flash"

  /** The prompt text before the quoted city. */
  const PromptIntro: string :=
    "\n" +
    "    I need you to act as a local food guide.\n" +
    "    1. Search for the top 5 most viral, famous, or highly-rated restaurants in "

  /** The prompt text after the quoted city. */
  const PromptRest: string :=
    " right now.\n" +
    "    2. Narrow this down to the top 3 best candidates based on popularity and recent positive feedback.\n" +
    "    3. For each of these 3 restaurants, perform a specific search to find:\n" +
    "       - Full address\n" +
    "       - Phone number\n" +
    "       - A Google Maps link (or a valid search link)\n" +
    "       - A publicly accessible URL of a high-quality photo of the restaurant's food or signature dish (e.g. from a review, article, or social media). \n" +
    "       - A summary of recent network reviews (what people are saying)\n" +
    "       - A score from 1 to 10 based on user sentiment.\n" +
    "    \n" +
    "    Output strictly in valid JSON format (Array of objects). Do not add any conversational text outside the JSON.\n" +
    "    \n" +
    "    The JSON structure for each object must be:\n" +
    "    {\n" +
    "      \"id\": \"unique_string\",\n" +
    "      \"name\": \"Restaurant Name\",\n" +
    "      \"cuisine\": \"Type of food (e.g. Italian, Fusion)\",\n" +
    "      \"address\": \"Full Address\",\n" +
    "      \"phoneNumber\": \"Phone Number or 'N/A'\",\n" +
    "      \"mapUrl\": \"URL to google maps\",\n" +
    "      \"imageUrl\": \"URL to an image of the food\",\n" +
    "      \"rating\": number (1-10),\n" +
    "      \"reviewSummary\": \"A concise summary of recent reviews (max 2 sentences).\",\n" +
    "      \"tags\": [\"tag1\", \"tag2\"]\n" +
    "    }\n" +
    "  "

  /** `"${city}"` inside the template. */
  function Quoted(city: string): (q: string)
    ensures |q| == |city| + 2 && q[0] == '"' && q[|q| - 1] == '"' && q[1..|q| - 1] == city
  {
    "\"" + city + "\""
  }

  /** The instruction sent to the model for `city`: the template of the source, verbatim.
      It holds the city between double quotes. */
  function Prompt(city: string): (p: string)
    ensures IsSlice(Quoted(city), p)
  {
    MiddleIsSlice(PromptIntro, Quoted(city), PromptRest);
    PromptIntro + Quoted(city) + PromptRest
  }

  /** Different cities give different prompts: the city can be read back from the prompt. */
  lemma PromptDeterminesCity(a: string, b: string)
    ensures Prompt(a) == Prompt(b) ==> a == b
  {
    if Prompt(a) == Prompt(b) {
      MiddleDetermined(PromptIntro, Quoted(a), Quoted(b), PromptRest);
      assert a == Quoted(a)[1..|a| + 1];
    }
  }

  /** What `generateContent` is called with: model, prompt, and the Google Search tool. */
  datatype GenerateRequest = GenerateRequest(model: string, contents: string, googleSearch: bool)

  /** The ways `fetchTopRestaurants` can throw. */
  datatype FetchError =
    | ApiKeyMissing            // "API Key is missing"
    | RequestFailed(reason: string)
    | NoContentGenerated       // "No content generated"
    | ParseFailed(reason: string)

  /** What one call did: the request it sent, the text it handed to the parser, and its outcome. */
  datatype FetchTrace = FetchTrace(
    request: Option<GenerateRequest>,
    parserInput: Option<string>,
    result: Result<seq<Restaurant>, FetchError>)

  /** JavaScript truthiness of a string that may be `undefined`. */
  predicate IsTruthy(s: Option<string>)
  {
    s.Some? && s.value != ""
  }

  /**
   * `fetchTopRestaurants(city)`. `apiKey` is `process.env.API_KEY`; `reply` is what
   * `generateContent` settles to (its `text`, or the reason it threw); `parse` is
   * `JSON.parse`. Errors thrown inside the `try` are logged and rethrown unchanged.
   */
  function FetchTopRestaurants(apiKey: Option<string>, city: string,
                               reply: Result<Option<string>, string>,
                               parse: string -> Result<seq<Restaurant>, string>): (t: FetchTrace)
    // The key is checked before any request is built or sent.
    ensures t.request.None? <==> !IsTruthy(apiKey)
    ensures !IsTruthy(apiKey) ==> t.result == Err(ApiKeyMissing)
    ensures t.request.Some? ==> t.request.value == GenerateRequest(ModelName, Prompt(city), true)
    // The parser runs exactly when a key is present and the model produced text.
    ensures t.parserInput.Some? <==> IsTruthy(apiKey) && reply.Ok? && IsTruthy(reply.value)
    ensures IsTruthy(apiKey) && reply.Ok? && !IsTruthy(reply.value) ==> t.result == Err(NoContentGenerated)
    ensures IsTruthy(apiKey) && reply.Err? ==> t.result == Err(RequestFailed(reply.error))
    // It sees exactly the sanitised text, and its verdict is the call's.
    ensures t.parserInput.Some? ==>
              && t.parserInput.value == CleanJsonOutput(reply.value.value)
              && t.result == match parse(t.parserInput.value)
                             case Ok(data) => Ok(data)
                             case Err(reason) => Err(ParseFailed(reason))
    ensures t.result.Ok? ==> t.parserInput.Some?
  {
    if !IsTruthy(apiKey) then
      FetchTrace(None, None, Err(ApiKeyMissing))
    else
      var request := GenerateRequest(ModelName, Prompt(city), true);
      match reply
      case Err(reason) => FetchTrace(Some(request), None, Err(RequestFailed(reason)))
      case Ok(text) =>
        if !IsTruthy(text) then
          FetchTrace(Some(request), None, Err(NoContentGenerated))
        else
          var cleaned := CleanJsonOutput(text.value);
          match parse(cleaned)
          case Ok(data) => FetchTrace(Some(request), Some(cleaned), Ok(data))
          case Err(reason) => FetchTrace(Some(request), Some(cleaned), Err(ParseFailed(reason)))
  }
}
