/** How the resume evaluator turns the language model's text reply into
    what it shows the user (app.py, lines 80-95): cut the JSON candidate out
    of the reply's Markdown fencing, decode it, check that the three
    advertised fields are there, and display them. `json.loads` is not part
    of this model; it is the `decode` parameter. */
module ReplyParser {
  import opened Wrappers
  import opened PyStr
  import opened JsonValue

  /** The marker that opens and closes a Markdown code block. */
  const Fence: string := "```"

  /** The marker that opens a Markdown code block tagged as JSON. */
  const JsonFence: string := "```json"

  /** The three field names the prompt advertises; the check is
      case-sensitive. */
  const MatchKey: string := "JD Match"
  const KeywordsKey: string := "MissingKeywords"
  const SummaryKey: string := "Profile Summary"

  /** What the missing keywords are joined with for display. */
  const KeywordSeparator: string := ", "

  /** The defaults of the three `.get` calls of the display. */
  const MatchDefault: Json := JString("N/A")
  const KeywordsDefault: Json := JArray([])
  const SummaryDefault: Json := JString("No summary available.")

  /** The replies the model adapter substitutes for a response without
      text and for a failed call; they go through the same parser. */
  const InvalidFormatReply: string := "{\"error\": \"Invalid response format\"}"
  const ApiFailedReply: string := "{\"error\": \"API call failed\"}"

  /** The three fields shown on success. The match and the summary are the
      decoded values themselves; the keywords are already joined. */
  datatype Report = Report(jdMatch: Json, missingKeywords: string, profileSummary: Json)

  /** What one reply ends in. */
  datatype Outcome =
    | Shown(report: Report)
      /** "AI response was not in the expected format" */
    | ShapeFailure
      /** "JSON decoding error", with the decoder's message and the reply
          exactly as it arrived */
    | DecodeFailure(diagnostic: string, raw: string)
      /** an exception the handler does not catch */
    | Uncaught(error: PyError)

  /** `reply.split("```json")[-1].split("```")[0].strip()`: the text after
      the last JSON fence (or the whole reply), up to the next fence (or the
      end), without surrounding whitespace. */
  function ExtractCandidate(reply: string): (c: string)
    ensures !Contains(c, Fence)
    ensures IsStripped(c)
  {
    var afterTag := Last(Split(reply, JsonFence));
    var beforeClose := Split(afterTag, Fence)[0];
    SplitHeadFree(afterTag, Fence);
    StripKeepsAbsence(beforeClose, Fence);
    Strip(beforeClose)
  }

  /** The decoded object has all three advertised fields. */
  predicate HasRequiredKeys(members: seq<(string, Json)>) {
    HasKey(members, MatchKey) && HasKey(members, KeywordsKey) && HasKey(members, SummaryKey)
  }

  /** The three `in` tests of the shape check, joined by `and`: evaluated
      left to right, stopping at the first that is false or raises. */
  function RequiredKeysPresent(v: Json): (r: Result<bool, PyError>)
    ensures v.JObject? ==> r == Success(HasRequiredKeys(v.members))
    ensures v.JArray? ==> r == Success(JString(MatchKey) in v.items
                                       && JString(KeywordsKey) in v.items
                                       && JString(SummaryKey) in v.items)
    ensures v.JString? ==> r == Success(Contains(v.s, MatchKey)
                                        && Contains(v.s, KeywordsKey)
                                        && Contains(v.s, SummaryKey))
    ensures v.JNull? || v.JBool? || v.JNumber? ==> r == Failure(TypeError)
  {
    match In(MatchKey, v)
    case Failure(e) => Failure(e)
    case Success(false) => Success(false)
    case Success(true) =>
      match In(KeywordsKey, v)
      case Failure(e) => Failure(e)
      case Success(false) => Success(false)
      case Success(true) => In(SummaryKey, v)
  }

  /** The three display lines: the match, the keywords joined with ", ",
      the summary, each read with `.get` and its default. */
  function Display(v: Json): (r: Result<Report, PyError>)
    ensures !v.JObject? ==> r == Failure(AttributeError)
    ensures v.JObject? && r.Failure? ==> r.error == TypeError
    ensures v.JObject? && HasRequiredKeys(v.members) ==>
              (r.Success? <==> JoinValue(KeywordSeparator, Lookup(v.members, KeywordsKey).value).Success?)
    ensures v.JObject? && HasRequiredKeys(v.members) && r.Success? ==>
              && Lookup(v.members, MatchKey) == Some(r.value.jdMatch)
              && Lookup(v.members, SummaryKey) == Some(r.value.profileSummary)
              && JoinValue(KeywordSeparator, Lookup(v.members, KeywordsKey).value)
                   == Success(r.value.missingKeywords)
  {
    match Get(v, MatchKey, MatchDefault)
    case Failure(e) => Failure(e)
    case Success(jdMatch) =>
      match Get(v, KeywordsKey, KeywordsDefault)
      case Failure(e) => Failure(e)
      case Success(keywords) =>
        match JoinValue(KeywordSeparator, keywords)
        case Failure(e) => Failure(e)
        case Success(line) =>
          match Get(v, SummaryKey, SummaryDefault)
          case Failure(e) => Failure(e)
          case Success(summary) => Success(Report(jdMatch, line, summary))
  }

  /** The shape check and what follows it, for a decoded value. */
  function Classify(v: Json): (r: Outcome)
    ensures !r.DecodeFailure?
    ensures v.JObject? ==> (r.ShapeFailure? <==> !HasRequiredKeys(v.members))
    ensures r.Shown? ==>
              && v.JObject? && HasRequiredKeys(v.members)
              && Lookup(v.members, MatchKey) == Some(r.report.jdMatch)
              && Lookup(v.members, SummaryKey) == Some(r.report.profileSummary)
    ensures v.JObject? && HasRequiredKeys(v.members) ==>
              (r.Shown? <==> JoinValue(KeywordSeparator, Lookup(v.members, KeywordsKey).value).Success?)
    ensures v.JObject? && HasRequiredKeys(v.members) && !r.Shown? ==> r == Uncaught(TypeError)
    ensures v.JNull? || v.JBool? || v.JNumber? ==> r == Uncaught(TypeError)
    ensures v.JArray? ==>
              r == (if JString(MatchKey) in v.items && JString(KeywordsKey) in v.items
                       && JString(SummaryKey) in v.items
                    then Uncaught(AttributeError) else ShapeFailure)
    ensures v.JString? ==>
              r == (if Contains(v.s, MatchKey) && Contains(v.s, KeywordsKey)
                       && Contains(v.s, SummaryKey)
                    then Uncaught(AttributeError) else ShapeFailure)
  {
    match RequiredKeysPresent(v)
    case Failure(e) => Uncaught(e)
    case Success(false) => ShapeFailure
    case Success(true) =>
      match Display(v)
      case Failure(e) => Uncaught(e)
      case Success(report) => Shown(report)
  }

  /** The whole pipeline for one reply, with `decode` standing for
      `json.loads`: a decoding failure reports the reply as it arrived, not
      the candidate cut out of it. */
  function Evaluate(reply: string, decode: string -> Result<Json, string>): (r: Outcome)
    ensures decode(ExtractCandidate(reply)).Failure? ==>
              r == DecodeFailure(decode(ExtractCandidate(reply)).error, reply)
    ensures r.DecodeFailure? ==> r.raw == reply && decode(ExtractCandidate(reply)).Failure?
    ensures r.Shown? ==>
              var decoded := decode(ExtractCandidate(reply));
              && decoded.Success? && decoded.value.JObject? && HasRequiredKeys(decoded.value.members)
              && Lookup(decoded.value.members, MatchKey) == Some(r.report.jdMatch)
              && Lookup(decoded.value.members, SummaryKey) == Some(r.report.profileSummary)
    ensures var decoded := decode(ExtractCandidate(reply));
            decoded.Success? && decoded.value.JObject? ==>
              (r.ShapeFailure? <==> !HasRequiredKeys(decoded.value.members))
    ensures var decoded := decode(ExtractCandidate(reply));
            decoded.Success? && decoded.value.JObject? && HasRequiredKeys(decoded.value.members) ==>
              (r.Shown? <==>
                 JoinValue(KeywordSeparator, Lookup(decoded.value.members, KeywordsKey).value).Success?)
  {
    var candidate := ExtractCandidate(reply);
    match decode(candidate)
    case Failure(diagnostic) => DecodeFailure(diagnostic, reply)
    case Success(v) => Classify(v)
  }
}
