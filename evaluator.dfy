/** The screening evaluator (`calculate_similarity`, main.py:52-59) and the
    way the submit handler reads its result (main.py:143-144).  The language
    model chain and `json.loads` are not modelled: the chain's reply and the
    parser are inputs. */
module Evaluator {
  import opened Base
  import opened Strings

  /** The dictionary the chain's `invoke` returns (only string values are
      looked at). */
  type ChainResponse = map<string, string>

  /** What `json.loads` can hand back, reduced to what the handler reads:
      an object whose `score` and `missing_skills` keys may be absent, or a
      JSON value that is not an object. */
  datatype Reply =
    | Object(score: Option<real>, missingSkills: Option<seq<string>>)
    | NotObject

  /** `json.loads`: `None` stands for a `JSONDecodeError`. */
  type JsonParser = string -> Option<Reply>

  /** The opening fence of a JSON code block. */
  const JsonFence: string := "```json"

  /** The literal returned when parsing fails: `{"score": 0, "missing_skills": []}`. */
  const DefaultReply: Reply := Object(Some(0.0), Some([]))

  /** The chain's `"text"` entry, or the text `{}` when there is none. */
  function ResponseText(response: ChainResponse): (t: string)
    ensures "text" in response ==> t == response["text"]
    ensures "text" !in response ==> t == "{}"
  {
    if "text" in response then response["text"] else "{}"
  }

  /** Every `json` fence is removed, then every remaining fence, then the
      surrounding whitespace. */
  function CleanResponse(text: string): (r: string)
    ensures Trimmed(r)
  {
    Trim(RemoveAll(RemoveAll(text, JsonFence), Fence))
  }

  /** No fence is left in a cleaned reply. */
  lemma CleanLeavesNoFence(text: string)
    ensures !Contains(CleanResponse(text), Fence)
  {
    var unfenced := RemoveAll(RemoveAll(text, JsonFence), Fence);
    RemoveFenceLeavesNone(RemoveAll(text, JsonFence));
    var i := TrimIsSlice(unfenced);
    AbsentFromSlice(unfenced, i, i + |Trim(unfenced)|, Fence);
  }

  /** A reply without fences is only trimmed. */
  lemma CleanFenceFree(text: string)
    requires !Contains(text, Fence)
    ensures CleanResponse(text) == Trim(text)
  {
    AbsentExtension(text, Fence, JsonFence);
    RemoveAllAbsent(text, JsonFence);
    RemoveAllAbsent(text, Fence);
  }

  /** Cleaning twice is cleaning once. */
  lemma CleanIdempotent(text: string)
    ensures CleanResponse(CleanResponse(text)) == CleanResponse(text)
  {
    var once := CleanResponse(text);
    CleanLeavesNoFence(text);
    CleanFenceFree(once);
    TrimOfTrimmed(once);
  }

  /** A reply that is one fenced JSON block, the body on its own lines, is
      reduced to the body. */
  lemma CleanFencedBlock(body: string)
    requires '`' !in body && body != [] && !IsSpace(body[0]) && !IsSpace(body[|body| - 1])
    ensures CleanResponse(JsonFence + "\n" + body + "\n" + Fence) == body
  {
    var m := "\n" + body + "\n";
    assert '`' !in m;
    NoBacktickNoFence(m);
    AbsentExtension(m, Fence, JsonFence);
    var text := JsonFence + m + Fence;
    assert JsonFence + "\n" + body + "\n" + Fence == text;
    assert StartsWith(text, JsonFence);
    assert text[|JsonFence|..] == m + Fence;
    RemoveAllBeforeLast(m, Fence, JsonFence);
    RemoveAllAbsent(m, JsonFence);
    ShorterAbsent(Fence, JsonFence);
    RemoveAllAbsent(Fence, JsonFence);
    assert RemoveAll(text, JsonFence) == m + Fence;
    RemoveAllBeforeLast(m, Fence, Fence);
    RemoveAllAbsent(m, Fence);
    assert RemoveAll(Fence, Fence) == [];
    assert RemoveAll(m + Fence, Fence) == m;
    assert CleanResponse(text) == Trim(m);
    TrimAroundNewlines(body);
  }

  /** The reply `"```json\n{"score": 85, "missing_skills": []}\n```"` is
      cleaned to the JSON object between the fences. */
  lemma CleanFencedExample(text: string, body: string)
    requires body == "{\"score\": 85, \"missing_skills\": []}"
    requires text == "```json\n" + body + "\n```"
    ensures CleanResponse(text) == body
  {
    assert "```json\n" == JsonFence + "\n";
    assert "\n```" == "\n" + Fence;
    assert text == JsonFence + "\n" + body + "\n" + Fence;
    CleanFencedBlock(body);
  }

  /** A string without a backtick holds no fence. */
  lemma {:induction false} NoBacktickNoFence(s: string)
    requires '`' !in s
    ensures !Contains(s, Fence)
    decreases |s|
  {
    if s != [] {
      assert forall k :: 0 <= k < |s| - 1 ==> s[1..][k] == s[k + 1];
      NoBacktickNoFence(s[1..]);
      if |s| >= 3 {
        assert s[..3][0] == s[0];
      }
    }
  }

  /** A string shorter than `p` does not contain it. */
  lemma {:induction false} ShorterAbsent(s: string, p: string)
    requires |s| < |p|
    ensures !Contains(s, p)
    decreases |s|
  {
    if s != [] {
      ShorterAbsent(s[1..], p);
    }
  }

  /** Removing `p` from `s + q` (where `q` is a fence and `s` holds no
      backtick) removes it from `s` and leaves `q` as `RemoveAll(q, p)`. */
  lemma {:induction false} RemoveAllBeforeLast(s: string, q: string, p: string)
    requires '`' !in s && p != [] && p[0] == '`'
    ensures RemoveAll(s + q, p) == RemoveAll(s, p) + RemoveAll(q, p)
    decreases |s|
  {
    if s == [] {
      assert s + q == q;
    } else {
      assert !StartsWith(s + q, p);
      assert (s + q)[1..] == s[1..] + q;
      RemoveAllBeforeLast(s[1..], q, p);
    }
  }

  /** Stripping a newline on each side of a body that neither starts nor
      ends with whitespace gives the body. */
  lemma TrimAroundNewlines(body: string)
    requires body != [] && !IsSpace(body[0]) && !IsSpace(body[|body| - 1])
    ensures Trim("\n" + body + "\n") == body
  {
    var s := "\n" + body + "\n";
    assert s[1..] == body + "\n";
    assert TrimLeft(s) == TrimLeft(body + "\n");
    assert TrimLeft(body + "\n") == body + "\n";
    assert (body + "\n")[..|body|] == body;
  }

  /** `calculate_similarity`: what `json.loads` makes of the cleaned reply
      text, or the default object when it cannot be decoded. */
  function CalculateSimilarity(response: ChainResponse, parse: JsonParser): (r: Reply)
    ensures parse(CleanResponse(ResponseText(response))).None? ==> r == DefaultReply
    ensures parse(CleanResponse(ResponseText(response))).Some? ==>
              r == parse(CleanResponse(ResponseText(response))).value
  {
    match parse(CleanResponse(ResponseText(response)))
    case Some(value) => value
    case None => DefaultReply
  }

  /** What the handler keeps of a reply: the score and the missing skills. */
  datatype Screening = Screening(score: real, missingSkills: seq<string>)

  /** The score (0 when absent) and the missing skills (none when absent);
      `None` when the reply is not an object, where reading a key raises. */
  function ReadScreening(reply: Reply): (r: Option<Screening>)
    ensures r.None? <==> reply.NotObject?
    ensures r.Some? && reply.score.None? ==> r.value.score == 0.0
    ensures r.Some? && reply.score.Some? ==> r.value.score == reply.score.value
    ensures r.Some? && reply.missingSkills.None? ==> r.value.missingSkills == []
    ensures r.Some? && reply.missingSkills.Some? ==> r.value.missingSkills == reply.missingSkills.value
  {
    match reply
    case NotObject => None
    case Object(score, missing) => Some(Screening(score.GetOr(0.0), missing.GetOr([])))
  }

  /** A reply that cannot be decoded never raises: it reads as score 0 and
      no missing skills, whatever the chain said. */
  lemma ParseFailureDefaults(response: ChainResponse, parse: JsonParser)
    requires parse(CleanResponse(ResponseText(response))).None?
    ensures ReadScreening(CalculateSimilarity(response, parse)) == Some(Screening(0.0, []))
  {
  }

  /** A chain response without a `"text"` field is read as the text `{}`:
      with a parser that decodes `{}` as the empty object, it reads as score
      0 and no missing skills. */
  lemma MissingTextReadsAsEmptyObject(response: ChainResponse, parse: JsonParser)
    requires "text" !in response
    requires parse("{}") == Some(Object(None, None))
    ensures ReadScreening(CalculateSimilarity(response, parse)) == Some(Screening(0.0, []))
  {
    CleanBraces(ResponseText(response));
  }

  /** Cleaning leaves `{}` as it is. */
  lemma CleanBraces(s: string)
    requires s == "{}"
    ensures CleanResponse(s) == s
  {
    assert '`' !in s;
    NoBacktickNoFence(s);
    CleanFenceFree(s);
    TrimOfTrimmed(s);
  }
}
