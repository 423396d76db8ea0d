# Resume evaluator: parsing the model's reply

The resume evaluator (`app.py`) asks a generative language model to compare
a resume with a job description and to answer with a JSON object holding
three fields: `"JD Match"`, `"MissingKeywords"` and `"Profile Summary"`.
This project models what the application does with the model's text reply,
and proves properties of that model:

1. **Fence extraction** (app.py:82). `reply.split("```json")[-1].split("```")[0].strip()`
   keeps the text after the last JSON fence, or the whole reply if there is
   none. It cuts that text at the first following fence, or keeps it to the
   end. Then it strips surrounding whitespace. `str.split`, `str.join`,
   `str.strip` and substring search are modelled literally in `PyStr`.
2. **Decoding** (app.py:83). `json.loads` is the parameter
   `decode: string -> Result<Json, string>`. A failure carries the
   decoder's message. `Json` (module `JsonValue`) is the Python value the
   decoder returns. An object is its list of members. Lookup takes the last
   member with a key, and iteration visits keys in first-occurrence order,
   as for a Python `dict`.
3. **Shape check and display** (app.py:85-95). The three `in` tests, the
   three `.get` calls with their defaults, and the `", "`-join of the
   keywords are modelled on every kind of decoded value, with the exception
   each one raises on the wrong kind. `Outcome` is one of:
   - `Shown(report)`
   - `ShapeFailure`: "not in the expected format"
   - `DecodeFailure(diagnostic, raw)`: `raw` is the reply as it arrived
   - `Uncaught(error)`: a `TypeError` or `AttributeError` that the
     `except json.JSONDecodeError` clause does not catch

The model adapter's two sentinel replies (app.py:28, app.py:31) are
constants. They are proved to pass extraction unchanged and to end in the
shape failure.

Modules, leaves first: `Wrappers` (Option, Result), `PyStr`, `JsonValue`,
`ReplyParser` (the pipeline), `ReplyProperties` (lemmas relating the
pipeline to independent descriptions of its input).

The model follows the code in three places where a reader might expect
otherwise:
- A decoded value that is not an object is not uniformly a shape failure.
  `in` on a list tests for an element and on a string for a substring, so
  these are shape failures only if one of the three names is missing. With
  all three present, `.get` raises `AttributeError`. On a number, a boolean
  or `null`, `in` itself raises `TypeError`.
- The `.get` defaults (`'N/A'`, `[]`, `'No summary available.'`) can never
  show. The display runs only after all three keys were found
  (`WellFormedObjectShown`).
- `", ".join` accepts more than a list of strings. A string is joined
  character by character, and an object by its keys. A list with a
  non-string element, `null`, a number or a boolean raises `TypeError`.

## Model

| member | source | states |
|---|---|---|
| `PyStr.IndexOf` | app.py:82-85 | substring search, which also decides `Contains` (Python's `p in s` on two strings): the index found is the leftmost occurrence of the pattern, and there is none exactly when the pattern does not occur |
| `PyStr.SplitJoinsBack` | app.py:82 | `Split` is Python's `s.split(sep)`: no piece contains `sep`, and joining the pieces with `sep` gives `s` back |
| `PyStr.SplitHeadFree` | app.py:82 | piece `[0]` of a split never contains the separator |
| `PyStr.SplitWithoutSeparator` | app.py:82 | without an occurrence of the separator the split is the one-piece list `[s]` |
| `PyStr.SplitHeadBeforeFirst` | app.py:82 | piece `[0]` of a split is the text before the first occurrence of the separator |
| `PyStr.SplitLastAfterLast` | app.py:82 | for a separator that cannot overlap itself, piece `[-1]` is the text after the last occurrence |
| `PyStr.SplitJoin` | app.py:87 | `Join` is Python's `sep.join(parts)`: for a separator that cannot overlap itself, splitting the join of pieces that do not contain it gives the pieces back |
| `PyStr.TrimStart` | app.py:82 | the result is a suffix of the input; everything cut off is whitespace; the result does not start with whitespace |
| `PyStr.TrimEnd` | app.py:82 | the result is a prefix of the input; everything cut off is whitespace; the result does not end with whitespace |
| `PyStr.Strip` | app.py:82 | the result neither starts nor ends with whitespace |
| `PyStr.StripSlice` | app.py:82 | the result of stripping is a contiguous slice of the input, and everything outside it is whitespace |
| `PyStr.StripIdempotent` | app.py:82 | stripping twice is stripping once |
| `PyStr.StripKeepsAbsence` | app.py:82 | stripping cannot create an occurrence of a pattern |
| `JsonValue.Lookup` | app.py:86-88 | the dict holds a value under a key exactly when some member has that key, and the value is that of the last such member |
| `JsonValue.KeysInOrder` | app.py:87 | iterating the dict yields each of its keys exactly once and nothing else |
| `JsonValue.AllStrings` | app.py:87 | the strings are extracted exactly when every element is a string, and they rebuild the list |
| `JsonValue.In` | app.py:85 | `key in v` is, on a dict, whether a lookup finds the key; on a list, whether some element is the string `key`; on a str, whether a substring search finds `key`; anything else raises TypeError |
| `JsonValue.Get` | app.py:86-88 | `.get` raises AttributeError on anything but a dict, returns the looked-up value when the key is present and the default otherwise |
| `JsonValue.JoinValue` | app.py:87 | `", ".join` joins a list of strings, the characters of a string or the keys of a dict, and raises TypeError on a list with a non-string and on scalars |
| `ReplyParser.ExtractCandidate` | app.py:82 | the candidate never contains a fence and neither starts nor ends with whitespace |
| `ReplyParser.RequiredKeysPresent` | app.py:85 | the three `in` tests, for each kind of decoded value: all keys present on a dict, all names as elements of a list, all names as substrings of a string, TypeError on scalars |
| `ReplyParser.Display` | app.py:86-88 | only a dict can be displayed; on a dict the only error is the TypeError of the join; with the three keys present, the display succeeds exactly when the keywords value can be joined, and then the shown match and summary are the values held under their keys and the keyword line is the join of the keywords value |
| `ReplyParser.Classify` | app.py:85-90 | for a dict, shape failure exactly when a key is missing; with the three keys, shown exactly when the keywords value can be joined, and otherwise the uncaught TypeError of the join; a shown report carries the decoded match and summary; the outcome for lists, strings and scalars as described above; never a decoding failure |
| `ReplyParser.Evaluate` | app.py:80-95 | a decoding failure of the candidate yields the decoder's message together with the original reply (not the candidate), and only then; when the candidate decodes to a dict, shape failure exactly when a key is missing, and with the three keys, shown exactly when the keywords value can be joined; a shown report carries the match and summary held in the decoded dict |
| `ReplyProperties.JsonFenceNoSelfOverlap` | app.py:82 | two occurrences of "```json" never overlap |
| `ReplyProperties.ExtractWithoutFences` | app.py:82 | a reply with no fence yields exactly the stripped reply |
| `ReplyProperties.ExtractUntaggedFence` | app.py:82 | with a fence but no JSON fence, the candidate is the stripped text before the first fence |
| `ReplyProperties.ExtractLeadingUntaggedFence` | app.py:82 | a reply opening with an untagged fence (and no JSON fence) yields the empty candidate |
| `ReplyProperties.ExtractClosedJsonBlock` | app.py:82 | the candidate is the stripped text between the last JSON fence and the first fence after it |
| `ReplyProperties.ExtractUnclosedJsonBlock` | app.py:82 | with no fence after the last JSON fence, the candidate is the stripped rest of the reply |
| `ReplyProperties.ExtractSurroundedBlock` | app.py:82 | a reply lead + "```json" + body + "```" + trail yields the stripped body, whatever the lead, when the body has no fence and does not end in a backtick and no JSON fence starts at or after the closing fence |
| `ReplyProperties.ExtractIdempotent` | app.py:82 | extracting from a candidate returns it unchanged |
| `ReplyProperties.ExtractFencedBlock` | app.py:82 | a reply that is exactly "```json" + body + "```" yields the stripped body, when the body has no fence and does not end in a backtick |
| `ReplyProperties.PlainReplyUnchanged` | app.py:82 | a reply with no backtick and no surrounding whitespace passes extraction unchanged |
| `ReplyProperties.SentinelsPassExtraction` | app.py:28-31 | both sentinel replies pass extraction unchanged |
| `ReplyProperties.ErrorObjectFailsShapeCheck` | app.py:85-90 | a candidate decoding to a lone "error" member ends in the shape failure |
| `ReplyProperties.SentinelsFailShapeCheck` | app.py:28-31 | decoded as JSON, both sentinel replies end in the shape failure |
| `ReplyProperties.LookupPastOtherKeys` | app.py:85-88 | members under other keys, before or after, do not change what a key looks up |
| `ReplyProperties.ClassifyDependsOnlyOnRequiredKeys` | app.py:85-90 | two dicts that agree on the three keys have the same outcome |
| `ReplyProperties.ExtraMembersIgnored` | app.py:85-90 | adding members under other keys, before or after, does not change the outcome |
| `ReplyProperties.WellFormedObjectShown` | app.py:85-88 | a dict with the three keys and a list of strings as keywords is shown with the decoded match and summary and the keywords joined with ", "; the empty list shows as "" |
| `ReplyProperties.MissingFieldIsShapeFailure` | app.py:85-90 | a reply whose candidate decodes to a dict lacking any of the three keys ends in the shape failure |
| `ReplyProperties.WellFormedCandidateShown` | app.py:80-88 | any reply whose candidate decodes to a dict with the three keys and a list of strings as keywords is shown with the decoded match and summary and the keywords joined with ", " |
| `ReplyProperties.KeywordLineRecoversKeywords` | app.py:87 | a non-empty keyword list none of whose entries contains ", " can be split back from its display line |
| `ReplyProperties.SurroundedObjectShown` | app.py:80-88 | a reply with commentary before and after one JSON block holding a well-formed dict is shown with the decoded values, under the conditions of `ExtractSurroundedBlock` |
| `ReplyProperties.FencedObjectShown` | app.py:80-88 | a reply that is one JSON block holding a well-formed dict is shown with the decoded values, when the block's body has no fence and does not end in a backtick |
| `ReplyProperties.UnfencedObjectShown` | app.py:80-88 | a plain JSON reply without fencing is decoded as it stands and shown the same way |
| `ReplyProperties.LeadingUntaggedFenceFailsDecoding` | app.py:92-95 | a reply opening with an untagged fence decodes the empty candidate; when the decoder rejects it, the failure shows the whole reply |

## Left out

- The Gemini call (app.py:14-31) is network I/O through a foreign library, so it is not modelled. Only its two sentinel replies are, as constants. Every other reply is an arbitrary input string.
- The Streamlit widgets (app.py:42-50) and all rendering (app.py:86-98) are presentation, so the model ends in an `Outcome` instead. Three things are not modelled:
  - the emoji-decorated messages;
  - `str()` of a non-string match or summary, since the report carries the decoded value;
  - the match line that is already rendered when the keyword join then raises.
- PDF text extraction (app.py:33-39) works on opaque PyPDF2 page objects, so it is not modelled.
- The prompt template (app.py:52-76) is a fixed interpolated string with no behaviour of its own, so it is not modelled.
- API-key configuration (app.py:9-12) is process-wide external state, so it is not modelled.
- `json.loads` (app.py:83) is an abstract parameter, not a JSON grammar. Exceptions it raises other than `JSONDecodeError`, such as a recursion error on deep nesting, are not modelled. Numbers keep their source text, since nothing downstream reads their value.
- SentinelsFailShapeCheck: assumes `decode` maps each sentinel to the one-member object that `json.loads` produces for it. Nothing holds the parameter to that otherwise.
- KeysInOrder: its contract states that each key of the dict appears exactly once and that nothing else does. It does not state that the keys come in first-occurrence order, although the definition produces that order. Only a dict-valued `"MissingKeywords"` is joined by its keys, so only that case reads the order.
- ExtractFencedBlock: excludes a body ending in a backtick. There the closing fence starts one or two characters early, because "```" can overlap itself, and the candidate loses those backticks.
- Strings are sequences of Unicode scalar values. A Python `str` can also hold lone surrogates, which the model cannot represent.
- ExtractSurroundedBlock: excludes text after the block that starts with "json", "`json" or "``json", or that contains "```json". In the first three cases the closing fence becomes part of a JSON fence; in the last, a later JSON fence wins. Either way the candidate is taken from after that fence.
- Re-running the parser on the same reply gives the same outcome. Every member here is a pure function, so no separate lemma states this.
