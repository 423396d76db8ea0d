/** What the reply parser promises, each stated against an independent
    description of the input: where the fences are, which keys the decoded
    object has, what the decoder makes of the candidate. */
module ReplyProperties {
  import opened Wrappers
  import opened PyStr
  import opened JsonValue
  import opened ReplyParser

  // ---------------------------------------------------------------------
  // The two markers

  /** Two JSON fences never share a character. */
  lemma JsonFenceNoSelfOverlap()
    ensures NoSelfOverlap(JsonFence)
  {
    forall d | 0 < d < |JsonFence|
      ensures !Overlaps(JsonFence, d)
    {
      if d == 1 {
        assert JsonFence[1..][2] != JsonFence[..6][2];
      } else if d == 2 {
        assert JsonFence[2..][1] != JsonFence[..5][1];
      } else {
        assert JsonFence[d..][0] != JsonFence[..7 - d][0];
      }
    }
  }

  /** A JSON fence begins with a plain fence, so a reply without plain
      fences has no JSON fence either. */
  lemma NoFenceNoJsonFence(s: string)
    requires !Contains(s, Fence)
    ensures !Contains(s, JsonFence)
  {
    assert JsonFence == Fence + "json";
    if Contains(s, Fence + "json") {
      ContainsPrefixOfPattern(s, Fence, "json");
    }
  }

  // ---------------------------------------------------------------------
  // Fence extraction, case by case

  /** A reply with no fence at all is only stripped. */
  lemma ExtractWithoutFences(reply: string)
    requires !Contains(reply, Fence)
    ensures ExtractCandidate(reply) == Strip(reply)
  {
    NoFenceNoJsonFence(reply);
    SplitWithoutSeparator(reply, JsonFence);
    SplitWithoutSeparator(reply, Fence);
  }

  /** With a plain fence but no JSON fence, the candidate is the stripped
      text before the first fence. */
  lemma ExtractUntaggedFence(reply: string, i: int)
    requires !Contains(reply, JsonFence)
    requires IsFirstOccurrence(reply, Fence, i)
    ensures ExtractCandidate(reply) == Strip(reply[..i])
  {
    SplitWithoutSeparator(reply, JsonFence);
    SplitHeadBeforeFirst(reply, Fence, i);
  }

  /** So a reply that opens with an untagged fence gives the empty candidate. */
  lemma ExtractLeadingUntaggedFence(reply: string)
    requires !Contains(reply, JsonFence)
    requires |reply| >= |Fence| && reply[..|Fence|] == Fence
    ensures ExtractCandidate(reply) == []
  {
    assert reply[..0] == [];
    StripEmpty();
    assert IsFirstOccurrence(reply, Fence, 0);
    ExtractUntaggedFence(reply, 0);
  }

  /** The candidate is the stripped first piece of the last piece. */
  lemma ExtractCandidateSteps(reply: string, afterTag: string, beforeClose: string)
    requires afterTag == Last(Split(reply, JsonFence))
    requires beforeClose == Split(afterTag, Fence)[0]
    ensures ExtractCandidate(reply) == Strip(beforeClose)
  {
  }

  /** After the last JSON fence, the candidate runs to the first fence that
      follows it. */
  lemma ExtractClosedJsonBlock(reply: string, j: int, i: int)
    requires IsLastOccurrence(reply, JsonFence, j)
    requires IsFirstOccurrence(reply[j + |JsonFence|..], Fence, i)
    ensures ExtractCandidate(reply) == Strip(reply[j + |JsonFence|..j + |JsonFence| + i])
  {
    var after := reply[j + |JsonFence|..];
    JsonFenceNoSelfOverlap();
    SplitLastAfterLast(reply, JsonFence, j);
    SplitHeadBeforeFirst(after, Fence, i);
    PrefixOfSuffix(reply, j + |JsonFence|, i);
    ExtractCandidateSteps(reply, after, reply[j + |JsonFence|..j + |JsonFence| + i]);
  }

  /** After the last JSON fence with no fence following, the candidate runs
      to the end of the reply. */
  lemma ExtractUnclosedJsonBlock(reply: string, j: int)
    requires IsLastOccurrence(reply, JsonFence, j)
    requires !Contains(reply[j + |JsonFence|..], Fence)
    ensures ExtractCandidate(reply) == Strip(reply[j + |JsonFence|..])
  {
    JsonFenceNoSelfOverlap();
    SplitLastAfterLast(reply, JsonFence, j);
    SplitWithoutSeparator(reply[j + |JsonFence|..], Fence);
  }

  /** Extracting from a candidate gives the candidate back. */
  lemma ExtractIdempotent(reply: string)
    ensures ExtractCandidate(ExtractCandidate(reply)) == ExtractCandidate(reply)
  {
    var c := ExtractCandidate(reply);
    ExtractWithoutFences(c);
    StripStripped(c);
  }

  /** A JSON block with text around it, lead + "```json" + body + "```" +
      trail, gives the stripped body, as long as the body has no fence and
      does not end in a backtick (one that would join the closing fence),
      and no JSON fence starts at or after the closing fence. The lead is
      unconstrained: only the last JSON fence counts. */
  lemma ExtractSurroundedBlock(lead: string, body: string, trail: string)
    requires !Contains(body, Fence)
    requires body == [] || body[|body| - 1] != '`'
    requires !Contains(Fence + trail, JsonFence)
    ensures ExtractCandidate(lead + JsonFence + body + Fence + trail) == Strip(body)
  {
    var reply := lead + JsonFence + body + Fence + trail;
    var after := body + Fence + trail;
    assert reply[|lead| + |JsonFence|..] == after;
    assert after[..|body|] == body;
    OpeningFenceLast(lead, body, trail);
    JsonFenceNoSelfOverlap();
    SplitLastAfterLast(reply, JsonFence, |lead|);
    ClosingFenceFirst(body, trail);
    SplitHeadBeforeFirst(after, Fence, |body|);
    ExtractCandidateSteps(reply, after, body);
  }

  /** A reply that is exactly one JSON block, "```json" + body + "```", gives
      the stripped body, as long as the body has no fence and does not end
      in a backtick. */
  lemma ExtractFencedBlock(body: string)
    requires !Contains(body, Fence)
    requires body == [] || body[|body| - 1] != '`'
    ensures ExtractCandidate(JsonFence + body + Fence) == Strip(body)
  {
    var reply := JsonFence + body + Fence;
    assert [] + JsonFence + body + Fence + [] == reply;
    NoJsonFenceInClosingFence();
    ExtractSurroundedBlock([], body, []);
  }

  /** A closing fence with nothing after it holds no JSON fence. */
  lemma NoJsonFenceInClosingFence()
    ensures !Contains(Fence + [], JsonFence)
  {
    assert |Fence + []| < |JsonFence|;
  }

  /** The opening "```json" of lead + "```json" + body + "```" + trail is its
      last JSON fence. */
  lemma OpeningFenceLast(lead: string, body: string, trail: string)
    requires !Contains(body, Fence)
    requires body == [] || body[|body| - 1] != '`'
    requires !Contains(Fence + trail, JsonFence)
    ensures IsLastOccurrence(lead + JsonFence + body + Fence + trail, JsonFence, |lead|)
  {
    var reply := lead + JsonFence + body + Fence + trail;
    var o := |lead|;
    var c := o + |JsonFence| + |body|;
    JsonFenceNoSelfOverlap();
    assert OccursAt(reply, JsonFence, o) by {
      assert reply[o..o + |JsonFence|] == JsonFence;
    }
    forall k | o < k
      ensures !OccursAt(reply, JsonFence, k)
    {
      if OccursAt(reply, JsonFence, k) {
        if k < o + |JsonFence| {
          OccurrencesApart(reply, JsonFence, o, k);
        } else if k + |Fence| <= c {
          FenceInsideBody(lead, body, trail, k);
        } else if k < c {
          LastBodyCharInFence(lead, body, trail, k);
        } else {
          JsonFenceInTrail(lead, body, trail, k);
        }
      }
    }
  }

  /** A JSON fence starting inside the body of lead + "```json" + body +
      "```" + trail, with its first three characters there, is a fence
      inside the body. */
  lemma FenceInsideBody(lead: string, body: string, trail: string, k: int)
    requires |lead| + |JsonFence| <= k && k + |Fence| <= |lead| + |JsonFence| + |body|
    requires OccursAt(lead + JsonFence + body + Fence + trail, JsonFence, k)
    ensures Contains(body, Fence)
  {
    var reply := lead + JsonFence + body + Fence + trail;
    var b := k - |lead| - |JsonFence|;
    assert reply[k..k + |Fence|] == JsonFence[..|Fence|] == Fence;
    assert body[b..b + |Fence|] == reply[k..k + |Fence|];
    assert OccursAt(body, Fence, b);
  }

  /** A JSON fence starting in the last two characters of the body would
      make the body end in a backtick. */
  lemma LastBodyCharInFence(lead: string, body: string, trail: string, k: int)
    requires |lead| + |JsonFence| <= k < |lead| + |JsonFence| + |body| < k + |Fence|
    requires OccursAt(lead + JsonFence + body + Fence + trail, JsonFence, k)
    ensures body[|body| - 1] == '`'
  {
    var reply := lead + JsonFence + body + Fence + trail;
    var c := |lead| + |JsonFence| + |body|;
    assert reply[c - 1] == body[|body| - 1];
    assert reply[k..k + |JsonFence|][c - 1 - k] == reply[c - 1];
  }

  /** A JSON fence starting at or after the closing fence lies in
      "```" + trail. */
  lemma JsonFenceInTrail(lead: string, body: string, trail: string, k: int)
    requires |lead| + |JsonFence| + |body| <= k
    requires OccursAt(lead + JsonFence + body + Fence + trail, JsonFence, k)
    ensures Contains(Fence + trail, JsonFence)
  {
    var reply := lead + JsonFence + body + Fence + trail;
    var c := |lead| + |JsonFence| + |body|;
    var rest := Fence + trail;
    assert reply[c..] == rest;
    assert rest[k - c..k - c + |JsonFence|] == reply[k..k + |JsonFence|];
    assert OccursAt(rest, JsonFence, k - c);
  }

  /** The fence closing body + "```" + trail is its first fence, as long as
      the body has no fence and does not end in a backtick. */
  lemma ClosingFenceFirst(body: string, trail: string)
    requires !Contains(body, Fence)
    requires body == [] || body[|body| - 1] != '`'
    ensures IsFirstOccurrence(body + Fence + trail, Fence, |body|)
  {
    var after := body + Fence + trail;
    var n := |body|;
    assert after[n..n + |Fence|] == Fence;
    forall k | 0 <= k < n
      ensures !OccursAt(after, Fence, k)
    {
      if k + |Fence| <= n {
        assert after[k..k + |Fence|] == body[k..k + |Fence|];
        assert !OccursAt(body, Fence, k);
      } else {
        assert after[k..k + |Fence|][n - 1 - k] == body[n - 1];
        assert Fence[n - 1 - k] == '`';
      }
    }
  }

  // ---------------------------------------------------------------------
  // The adapter's sentinel replies

  /** A reply without a backtick that neither starts nor ends with
      whitespace passes extraction unchanged. */
  lemma PlainReplyUnchanged(reply: string)
    requires '`' !in reply && IsStripped(reply)
    ensures ExtractCandidate(reply) == reply
  {
    AbsentCharacter(reply, Fence);
    ExtractWithoutFences(reply);
    StripStripped(reply);
  }

  /** The first sentinel has no backtick and no surrounding whitespace. */
  lemma InvalidFormatReplyIsPlain()
    ensures '`' !in InvalidFormatReply && IsStripped(InvalidFormatReply)
  {
  }

  /** The second sentinel has no backtick and no surrounding whitespace. */
  lemma ApiFailedReplyIsPlain()
    ensures '`' !in ApiFailedReply && IsStripped(ApiFailedReply)
  {
  }

  /** Both sentinel replies pass extraction unchanged. */
  lemma SentinelsPassExtraction()
    ensures ExtractCandidate(InvalidFormatReply) == InvalidFormatReply
    ensures ExtractCandidate(ApiFailedReply) == ApiFailedReply
  {
    InvalidFormatReplyIsPlain();
    PlainReplyUnchanged(InvalidFormatReply);
    ApiFailedReplyIsPlain();
    PlainReplyUnchanged(ApiFailedReply);
  }

  /** An error object, a single "error" member, is a shape failure. */
  lemma ErrorObjectFailsShapeCheck(reply: string, decode: string -> Result<Json, string>, message: string)
    requires decode(ExtractCandidate(reply)) == Success(JObject([("error", JString(message))]))
    ensures Evaluate(reply, decode) == ShapeFailure
  {
    assert !HasKey([("error", JString(message))], MatchKey);
  }

  /** Decoded as `json.loads` decodes them, both sentinels end in the
      shape failure: their only key is "error". */
  lemma SentinelsFailShapeCheck(decode: string -> Result<Json, string>)
    requires decode(InvalidFormatReply) == Success(JObject([("error", JString("Invalid response format"))]))
    requires decode(ApiFailedReply) == Success(JObject([("error", JString("API call failed"))]))
    ensures Evaluate(InvalidFormatReply, decode) == ShapeFailure
    ensures Evaluate(ApiFailedReply, decode) == ShapeFailure
  {
    SentinelsPassExtraction();
    ErrorObjectFailsShapeCheck(InvalidFormatReply, decode, "Invalid response format");
    ErrorObjectFailsShapeCheck(ApiFailedReply, decode, "API call failed");
  }

  // ---------------------------------------------------------------------
  // The shape check

  /** Appending members that use none of the three keys does not move the
      value the dict holds under any of them. */
  lemma LookupPastOtherKeys(members: seq<(string, Json)>, extra: seq<(string, Json)>, key: string)
    requires forall i :: 0 <= i < |extra| ==> extra[i].0 != key
    ensures Lookup(members + extra, key) == Lookup(members, key)
    ensures Lookup(extra + members, key) == Lookup(members, key)
  {
    if HasKey(members, key) {
      var i :| 0 <= i < |members| && members[i].0 == key;
      var last := LastMemberIndex(members, key, i);
      assert IsLastMember(members + extra, key, last);
      assert IsLastMember(extra + members, key, |extra| + last);
    } else {
      assert !HasKey(members + extra, key) by {
        forall i | 0 <= i < |members + extra|
          ensures (members + extra)[i].0 != key
        {
          if i >= |members| {
            assert (members + extra)[i] == extra[i - |members|];
          }
        }
      }
      assert !HasKey(extra + members, key) by {
        forall i | 0 <= i < |extra + members|
          ensures (extra + members)[i].0 != key
        {
          if i < |extra| {
            assert (extra + members)[i] == extra[i];
          } else {
            assert (extra + members)[i] == members[i - |extra|];
          }
        }
      }
    }
  }

  /** A key that some member has has a last member. */
  lemma {:induction false} LastMemberIndex(members: seq<(string, Json)>, key: string, i: int) returns (last: int)
    requires 0 <= i < |members| && members[i].0 == key
    ensures IsLastMember(members, key, last) && i <= last
    decreases |members| - i
  {
    if forall k :: i < k < |members| ==> members[k].0 != key {
      last := i;
    } else {
      var k :| i < k < |members| && members[k].0 == key;
      last := LastMemberIndex(members, key, k);
    }
  }

  /** The outcome for a decoded object depends on nothing but what it holds
      under the three advertised keys. */
  lemma ClassifyDependsOnlyOnRequiredKeys(a: seq<(string, Json)>, b: seq<(string, Json)>)
    requires Lookup(a, MatchKey) == Lookup(b, MatchKey)
    requires Lookup(a, KeywordsKey) == Lookup(b, KeywordsKey)
    requires Lookup(a, SummaryKey) == Lookup(b, SummaryKey)
    ensures Classify(JObject(a)) == Classify(JObject(b))
  {
  }

  /** Members under other keys, before or after, are ignored. */
  lemma ExtraMembersIgnored(members: seq<(string, Json)>, extra: seq<(string, Json)>)
    requires forall i :: 0 <= i < |extra| ==>
               extra[i].0 != MatchKey && extra[i].0 != KeywordsKey && extra[i].0 != SummaryKey
    ensures Classify(JObject(members + extra)) == Classify(JObject(members))
    ensures Classify(JObject(extra + members)) == Classify(JObject(members))
  {
    LookupPastOtherKeys(members, extra, MatchKey);
    LookupPastOtherKeys(members, extra, KeywordsKey);
    LookupPastOtherKeys(members, extra, SummaryKey);
    ClassifyDependsOnlyOnRequiredKeys(members + extra, members);
    ClassifyDependsOnlyOnRequiredKeys(extra + members, members);
  }

  /** An object with the three fields, the keywords a list of strings, is
      shown with the decoded match and summary and the keywords joined with
      ", " (the empty list showing as ""); the `.get` defaults never show. */
  lemma WellFormedObjectShown(members: seq<(string, Json)>, jdMatch: Json, keywords: seq<string>, summary: Json)
    requires Lookup(members, MatchKey) == Some(jdMatch)
    requires Lookup(members, KeywordsKey) == Some(StringArray(keywords))
    requires Lookup(members, SummaryKey) == Some(summary)
    ensures Classify(JObject(members)) == Shown(Report(jdMatch, Join(keywords, KeywordSeparator), summary))
    ensures keywords == [] ==> Classify(JObject(members)).report.missingKeywords == []
  {
  }

  /** An object that lacks any of the three fields is a shape failure,
      whatever else it holds. */
  lemma MissingFieldIsShapeFailure(reply: string, decode: string -> Result<Json, string>, members: seq<(string, Json)>)
    requires decode(ExtractCandidate(reply)) == Success(JObject(members))
    requires !HasKey(members, MatchKey) || !HasKey(members, KeywordsKey) || !HasKey(members, SummaryKey)
    ensures Evaluate(reply, decode) == ShapeFailure
  {
  }

  /** No keyword containing ", ", a non-empty keyword list can be read back
      from its display line. */
  lemma KeywordLineRecoversKeywords(keywords: seq<string>)
    requires |keywords| >= 1
    requires forall k :: 0 <= k < |keywords| ==> !Contains(keywords[k], KeywordSeparator)
    ensures Split(Join(keywords, KeywordSeparator), KeywordSeparator) == keywords
  {
    KeywordSeparatorNoSelfOverlap();
    SplitJoin(keywords, KeywordSeparator);
  }

  /** Two occurrences of ", " never overlap. */
  lemma KeywordSeparatorNoSelfOverlap()
    ensures NoSelfOverlap(KeywordSeparator)
  {
    assert KeywordSeparator[1..][0] != KeywordSeparator[..1][0];
  }

  // ---------------------------------------------------------------------
  // Whole replies

  /** Whatever the fencing, a reply whose candidate decodes to an object
      with the three fields and a list of strings as keywords is shown with
      the decoded values. */
  lemma WellFormedCandidateShown(reply: string, decode: string -> Result<Json, string>,
                                 members: seq<(string, Json)>, jdMatch: Json, keywords: seq<string>, summary: Json)
    requires decode(ExtractCandidate(reply)) == Success(JObject(members))
    requires Lookup(members, MatchKey) == Some(jdMatch)
    requires Lookup(members, KeywordsKey) == Some(StringArray(keywords))
    requires Lookup(members, SummaryKey) == Some(summary)
    ensures Evaluate(reply, decode) == Shown(Report(jdMatch, Join(keywords, KeywordSeparator), summary))
  {
    WellFormedObjectShown(members, jdMatch, keywords, summary);
  }

  /** The usual reply: a JSON block holding an object with the three
      fields, with commentary before and after it, is shown with the
      decoded values. */
  lemma SurroundedObjectShown(lead: string, body: string, trail: string, decode: string -> Result<Json, string>,
                              members: seq<(string, Json)>, jdMatch: Json, keywords: seq<string>, summary: Json)
    requires !Contains(body, Fence)
    requires body == [] || body[|body| - 1] != '`'
    requires !Contains(Fence + trail, JsonFence)
    requires decode(Strip(body)) == Success(JObject(members))
    requires Lookup(members, MatchKey) == Some(jdMatch)
    requires Lookup(members, KeywordsKey) == Some(StringArray(keywords))
    requires Lookup(members, SummaryKey) == Some(summary)
    ensures Evaluate(lead + JsonFence + body + Fence + trail, decode)
              == Shown(Report(jdMatch, Join(keywords, KeywordSeparator), summary))
  {
    ExtractSurroundedBlock(lead, body, trail);
    WellFormedCandidateShown(lead + JsonFence + body + Fence + trail, decode, members, jdMatch, keywords, summary);
  }

  /** A reply that is one JSON block holding an object with the three fields
      is shown with the decoded values. */
  lemma FencedObjectShown(body: string, decode: string -> Result<Json, string>,
                          members: seq<(string, Json)>, jdMatch: Json, keywords: seq<string>, summary: Json)
    requires !Contains(body, Fence)
    requires body == [] || body[|body| - 1] != '`'
    requires decode(Strip(body)) == Success(JObject(members))
    requires Lookup(members, MatchKey) == Some(jdMatch)
    requires Lookup(members, KeywordsKey) == Some(StringArray(keywords))
    requires Lookup(members, SummaryKey) == Some(summary)
    ensures Evaluate(JsonFence + body + Fence, decode)
              == Shown(Report(jdMatch, Join(keywords, KeywordSeparator), summary))
  {
    ExtractFencedBlock(body);
    WellFormedCandidateShown(JsonFence + body + Fence, decode, members, jdMatch, keywords, summary);
  }

  /** Fencing is optional: a reply that is plain JSON is decoded as it
      stands, stripped. */
  lemma UnfencedObjectShown(reply: string, decode: string -> Result<Json, string>,
                            members: seq<(string, Json)>, jdMatch: Json, keywords: seq<string>, summary: Json)
    requires !Contains(reply, Fence)
    requires decode(Strip(reply)) == Success(JObject(members))
    requires Lookup(members, MatchKey) == Some(jdMatch)
    requires Lookup(members, KeywordsKey) == Some(StringArray(keywords))
    requires Lookup(members, SummaryKey) == Some(summary)
    ensures Evaluate(reply, decode) == Shown(Report(jdMatch, Join(keywords, KeywordSeparator), summary))
  {
    ExtractWithoutFences(reply);
    WellFormedCandidateShown(reply, decode, members, jdMatch, keywords, summary);
  }

  /** A reply opening with an untagged fence decodes the empty candidate,
      which `json.loads` rejects: the failure shows the whole reply. */
  lemma LeadingUntaggedFenceFailsDecoding(reply: string, decode: string -> Result<Json, string>)
    requires !Contains(reply, JsonFence)
    requires |reply| >= |Fence| && reply[..|Fence|] == Fence
    requires decode([]).Failure?
    ensures Evaluate(reply, decode) == DecodeFailure(decode([]).error, reply)
  {
    ExtractLeadingUntaggedFence(reply);
  }
}
