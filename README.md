# e2s email router: a Dafny model of the body decoder and the rule matcher

e2s is an AWS Lambda function. It takes an email stored in an S3 bucket and
posts a Slack notification to a channel that a list of routing rules picks.
This project models the parts of `src/lambda_function.py` that hold logic,
in classes `Email` and `Filter` and in the routing step of `lambda_handler`:

- **Body choice and decoding** (`Email.body`, `Email.__multipart_body`), in
  module `Mail`. For a multipart message the body is the payload of the last
  `text/plain` part, or the text `''` when there is none; a single-part
  message uses its whole payload. The charset is the declared one; only
  without a declared charset is the detector asked. With no charset the body
  is `''`. Otherwise the codec decodes the body, and a codec failure is
  raised to the caller.
- **Full-text normalisation** (`Filter.__init__`, line 80), in module
  `Normalization`. Sender, recipient, subject and body are joined, and line
  feeds, carriage returns and spaces are removed by three `str.replace` calls.
  This is proved equal to a one-pass filter. The result holds none of the
  three characters, keeps the count of every other character, keeps their
  order, and is never longer than its input.
- **The rule matcher** (`Filter.__matched_filter`, `Filter.__is_matched`), in
  module `Rules`. It is a first-match scan over an ordered list of rule
  dictionaries:
  - A rule is skipped unless `post_channel` holds a value.
  - The `including_words`/`excluded_words` decision table works on key
    presence. `excluded_words` on its own is a positive condition.
  - The `from`/`to`/`subject` header patterns are OR'd with the word test.
  - When no rule matches, the last rule is the fallback.

  A rule key is an `Entry`: `Missing` (the key is absent), `Null` (present
  with `None`) or `Given(text)`. The method `MatchedFilter` follows the
  loop's branches. Its loop invariant says that no earlier rule matched. It
  is proved equal to the function `SelectAsWritten`, which raises
  `IndexError` on the empty list as `filters[-1]` does. The lemmas are about
  the corrected `Select`, which agrees with it on every non-empty list (see
  "## Findings").
- **Class `Filter`** and the **routing step of `lambda_handler`**
  (lines 109-118), in module `Filtering`. The channel and colour start as
  `'#general'` and `'good'`. When a rule is matched they become the rule's
  `post_channel` and `attachments_color`, looked up with `f[key]`, which can
  raise `KeyError`. A `Filter` is only ever built from a non-empty rule list,
  so `is_matched()` is always true; on the empty list the handler raises
  `IndexError`.

Three library calls are parameters of the model:
- the case-insensitive regular-expression search is `Search`;
- the charset detector `chardet.detect(...)['encoding']` is `Detector`;
- the codec `str(bytes, encoding=...)` is `Decoder`.

Python exceptions that the code does not catch are `Failure`s of a `Result`:
`IndexError`, `KeyError(key)`, and `CodecError(charset)` for a failing codec
(`LookupError` for an unknown charset name, `UnicodeDecodeError` for bytes that
are not valid in it).
The model has no state that lasts from one call to the next. Every result is
a function of the message, the rule list and the three parameters, so running
it twice on the same inputs gives the same result.

Points where the code's behaviour is easy to misread:
- The **last** `text/plain` part is the body, not the first (lines 31-33).
- A codec error is **raised** and not turned into an empty body (line 42).
- Only the text `''` of the multipart scan short-circuits to `''` (line 38). A
  payload of zero bytes is not equal to `''`, so it still goes through charset
  resolution and, if a charset resolves, the codec.
- The charset is always the top-level message's `charset` parameter (line 40),
  also for a multipart message: the chosen `text/plain` part's own charset is
  never consulted.
- A fallback rule is used as it is. When it has no `post_channel` key the
  handler raises `KeyError`. When its `post_channel` is `None` and it has an
  `attachments_color` key, the channel is `None`; without that key line 118
  raises `KeyError`. The defaults are not restored in any of these cases
  (lines 72, 117-118).

## Model

| member | source | states |
|---|---|---|
| `Mail.MultipartBody` | src/lambda_function.py:29-34 | the loop that overwrites the body with each `text/plain` payload ends with `LastPlainText` of the parts |
| `Mail.LastPlainTextAt` | src/lambda_function.py:29-34 | a part that is `text/plain` with no `text/plain` part after it supplies the body: the last plain-text part wins (`SelectedIsLastPlainPart` gives the converse) |
| `Mail.NoPlainTextPart` | src/lambda_function.py:29-34 | the scan keeps its initial `''` if and only if no part is `text/plain` |
| `Mail.SelectedIsLastPlainPart` | src/lambda_function.py:29-34 | a selected payload is that of some `text/plain` part with no `text/plain` part after it |
| `Mail.DecodeBody` | src/lambda_function.py:38-42 | no selected body gives `''`; no declared or detected charset gives `''`; a failure happens exactly when the codec fails under the resolved charset, and is raised rather than turned into `''`; any text the codec yields is the body, and a non-empty body always comes from the codec |
| `Mail.Body` | src/lambda_function.py:36-42 | the body of a message is the multipart selection (or the whole payload) decoded by `DecodeBody` |
| `Mail.NoPlainTextGivesEmptyBody` | src/lambda_function.py:29-42 | a multipart message without a `text/plain` part has body `''`, whatever the charset, detector and codec |
| `Mail.MultipartBodyIsLastPlainPart` | src/lambda_function.py:31-42 | a multipart body is decoded from the payload of the last `text/plain` part |
| `Mail.DeclaredCharsetWins` | src/lambda_function.py:40-42 | with a declared charset the detector plays no part, and when a payload is selected the body is the codec's result under that charset or its error |
| `Mail.UnresolvedCharsetGivesEmptyBody` | src/lambda_function.py:40-42 | with no declared charset and no guess from the detector the body is `''`, never an error |
| `Normalization.Remove` | src/lambda_function.py:80 | `s.replace(c, '')` contains no `c` and is no longer than `s` |
| `Normalization.NormalizeIsSqueeze` | src/lambda_function.py:80 | the three successive `replace` calls equal a single pass that keeps every character other than line feed, carriage return and space |
| `Normalization.FulltextContents` | src/lambda_function.py:80 | the full text of sender+recipient+subject+body contains no `'\n'`, `'\r'` or `' '`, keeps the count of every other character, is a subsequence of the joined fields and is no longer than them |
| `Rules.FirstMatch` | src/lambda_function.py:49-70 | the scan stops at the first rule that is eligible and matches, with no matching rule before it; when it does not stop, no rule matches |
| `Rules.SelectedIndex` | src/lambda_function.py:49-72 | a non-empty list always yields an index inside it, and the empty list yields none |
| `Rules.Select` | src/lambda_function.py:49-72 | the rule returned is an element of the list; none is returned only for the empty list |
| `Rules.SelectAsWritten` | src/lambda_function.py:72 | as written, the scan raises `IndexError` exactly for the empty list, and otherwise returns an element of the list |
| `Rules.MatchedFilter` | src/lambda_function.py:49-72 | the loop with its early returns and final `filters[-1]` computes `SelectAsWritten`: the first eligible matching rule, else the last rule, else `IndexError` for the empty list |
| `Rules.NullNeverHits` | src/lambda_function.py:45-47 | a criterion key present with `None` never counts as a match |
| `Rules.WordsDecisionTable` | src/lambda_function.py:54-65 | both keys: include found and exclude not found; only `including_words`: include found; only `excluded_words`: exclude found; neither: no match |
| `Rules.ExcludedNullReducesToInclude` | src/lambda_function.py:45-56 | both keys present with `excluded_words` equal to `None`: only the include search decides |
| `Rules.IncludedNullNeverMatchesWords` | src/lambda_function.py:45-65 | `including_words` equal to `None` makes the word test fail whatever `excluded_words` holds |
| `Rules.HeadersRescue` | src/lambda_function.py:67-70 | an eligible rule whose word test fails still matches exactly when a header pattern is found in its own unstripped header |
| `Rules.IneligibleOnlyAsFallback` | src/lambda_function.py:50-52 | a rule without a usable `post_channel` is selected only as the last rule, when no rule matched |
| `Rules.FirstMatchingRuleWins` | src/lambda_function.py:50-70 | the first rule in list order that is eligible and matches is the one selected |
| `Rules.EarlierMatchWins` | src/lambda_function.py:50-70 | of two matching rules the one selected is at or before the earlier |
| `Rules.LaterRulesIgnored` | src/lambda_function.py:50-70 | replacing every rule after the one the scan stops at changes neither the index nor the rule selected |
| `Rules.FallbackIsLast` | src/lambda_function.py:72 | when no rule matches, the result is the last element of the non-empty list |
| `Rules.EmptyRuleListRaises` | src/lambda_function.py:72 | as written, the empty rule list raises `IndexError`; the corrected selection yields no rule |
| `Rules.SelectAgreesWithCode` | src/lambda_function.py:72 | on every non-empty list the corrected selection returns the same rule as the code |
| `Filtering.Filter.constructor` | src/lambda_function.py:72-87 | built from a non-empty rule list (the empty list raises in `Handle`), the filter keeps the three headers and the body, its full text is the normalised join, its matched rule is `SelectAsWritten` over those texts, and `is_matched()` is always true |
| `Filtering.Lookup` | src/lambda_function.py:117-118 | `f[key]` raises `KeyError(key)` exactly when the key is absent, gives `None` for a `None` value and the string otherwise |
| `Filtering.Route` | src/lambda_function.py:109-118 | no match keeps `#general`/`good`; a matched rule without `post_channel` raises `KeyError('post_channel')`, one with `post_channel` but without `attachments_color` raises `KeyError('attachments_color')`, and these are the only failures; a matched rule with both keys supplies both values, `None` included |
| `Filtering.Handle` | src/lambda_function.py:109-118 | a body decoding error propagates first; then an empty rule list raises `IndexError`; otherwise the routing is `Route` of the rule `SelectAsWritten` picks for the message's texts |
| `Filtering.ScannedRuleSuppliesChannel` | src/lambda_function.py:50-70 | a rule the scan stops at routes to its own non-`None` channel, and can only fail on `attachments_color` |
| `Filtering.FallbackRouting` | src/lambda_function.py:115-118 | with no rule matching, a last rule without a `post_channel` key makes the handler raise `KeyError`, and one with `None` and an `attachments_color` key routes to channel `None` |
| `Filtering.EmptyRuleListRoutesToDefaults` | src/lambda_function.py:109-118 | with the corrected selection an empty rule list routes to `#general` with colour `good` |
| `Filtering.SenderRoutingExample` | src/lambda_function.py:67-72 | with a `from` rule for `#ops`/`danger` before a catch-all `#general`/`good`, a matching sender routes to `#ops` and any other sender falls back to `#general` |

## Findings

| source | as written | input that shows it | evidently intended | confidence | as-written member | corrected member |
|---|---|---|---|---|---|---|
| src/lambda_function.py:72 | `filters[-1]` raises `IndexError` for an empty rule list. So `is_matched()` (line 84) is never false, and the handler's own default `{'filter': []}` (line 100) makes `Filter(...)` (line 114) raise | a configuration with `filter: []` (a configuration without a `filter` key reaches the same crash, but line 100 also drops `webhook_url`, so that input would raise `KeyError` at line 122 even after the fix) | an empty rule list matches nothing, `is_matched()` is false and the message goes to `#general` with colour `good` | medium; not executed | `Rules.SelectAsWritten` (with `Rules.EmptyRuleListRaises`) | `Rules.Select` (with `Filtering.EmptyRuleListRoutesToDefaults`), the selection all the scan lemmas are stated for |

## Left out

- Header decoding (`Email.__header_value`, `from_`, `to`, `subject`, lines 17-27): RFC 2047 decoding is done by Python's email library. `Message` carries the decoded strings, which are `''` when a header is absent. Its failures are left out with it: an encoded word with an unknown charset or bytes that are not valid in it makes `str(make_header(decode_header(...)))` raise `LookupError` or `UnicodeDecodeError` when `Filter.__init__` reads the headers (lines 76-78), before the body is decoded. The model's headers never fail.
- MIME parsing (`message_from_bytes`, `is_multipart`, `get_payload`, `get_content_type`, `get_param`, lines 15 and 31-40): these are library calls. `Message` and `Part` carry their results. Charset parameters in RFC 2231 form, which the library returns as tuples, are not modelled.
- Charset detection and decoding (lines 41-42): these are statistical and use codec tables. They are the parameters `Detector` and `Decoder`.
- Regular expressions (line 46): `Search` is an abstract predicate, so the model does not capture that the search ignores case. Invalid patterns, which make `re.search` raise, are not modelled.
- Rule values that are not strings, and rule-list entries that are not dictionaries (which would make the code raise `TypeError`), are not modelled: every rule is a `Rule` and every value is an `Entry`.
- `Filter` inherits from `Email` in the source but uses none of that; the model has no inheritance.
- Configuration loading (lines 90-102) is left out: base64, YAML, the environment, `exit(1)` and the `username` default are I/O and process control. Note that line 100 replaces the whole configuration, so that branch also loses `webhook_url`.
- S3 access (lines 104-107), the Slack call (lines 122-124) and `print` (line 120) are network and console I/O.
- The attachment built at line 123 is left out together with the Slack call. This includes the second `email.body()` call that computes its text again. That call is not I/O, but its value only reaches Slack.
- The `__main__` debugging loop with `time.sleep` (lines 126-150) is process control.
