# Toxicity label extraction and the `/detect` decision

This project models the logic core of a small Flask service. The service sends
user text to a locally hosted language model and reports which category the
model chose. The core has two parts:

- **The label extractor** (`extract_label`). It maps the model's free-text
  reply to one label of the fixed, ordered set `toxic`, `hate speech`,
  `harassment`, `violent threat`, `safe`. It returns the sentinel `unknown`
  when no label is found. The reply is lower-cased, and the labels are tried
  in that order. The first label that occurs as a whole word wins, which is
  what the regular expression `\b<label>\b` finds.
- **The `/detect` decision.** The handler strips the submitted text. It answers
  400 `"No text provided"` for blank text, without calling the model.
  Otherwise it calls the model. On success it answers 200 with the label
  extracted from the stripped reply. On an exception it answers 500 with the
  exception's message.

Files:

- `pystr.dfy` (module `PyStr`): the Python string primitives the core uses,
  over ASCII. These are `\w` (`IsWordChar`), `str.lower()` (`Lower`,
  `LowerStr`), `str.isspace()` (`IsSpace`) and `str.strip()` (`Strip`).
- `labels.dfy` (module `LabelExtractor`): `LABELS`, the whole-word match
  `MatchesAt` / `OccursAsWord`, the scan `Search` that plays the part of
  `re.search`, the priority scan `FirstMatch`, `ExtractLabel`, and its
  properties.
- `detect.dfy` (module `Detect`): the inference outcome as a value
  (`Generated(response) | Failed(message)`), the JSON response, `Decide`,
  and `InvokesInference`.

Assumptions:

- Word characters are ASCII `[A-Za-z0-9_]`.
- Lower-casing maps only `A`-`Z`.
- Whitespace is the ASCII set that Python's `str.isspace()` accepts: space,
  `\t`, `\n`, `\v`, `\f`, `\r` and `\x1c`-`\x1f`.
- An absent reply (`None`), an absent `text` member and an absent `response`
  member are all modelled as the empty string. The source treats each of
  them that way: `if not text`, and `.get(..., "")`.

The `if not text` guard in `extract_label` does not change the result: no
label can occur in empty text. `ExtractIsScanOfLowered` proves this. The
`.strip()` of the reply does not change the result either: whitespace around
the text never creates or hides a whole-word match. `ExtractStripInvariant`
proves this, so `Decide` can promise the label of the raw reply.

## Model

| member | source | states |
|---|---|---|
| PyStr.Lower | backend/temp.py:16 | an upper-case ASCII letter becomes the lower-case letter at the same alphabet position; every other character is kept; word characters and whitespace keep their class |
| PyStr.LowerStr | backend/temp.py:16 | the length is kept; every upper-case ASCII letter becomes its own lower-case letter and every other character is kept; word characters and whitespace keep their class, position by position |
| PyStr.LowerStrIdempotent | backend/temp.py:16 | lower-casing twice equals lower-casing once |
| PyStr.Strip | backend/temp.py:181 | the result is a contiguous slice of the input with only whitespace removed on either side. It neither begins nor ends with whitespace. It is empty exactly when the input is all whitespace |
| PyStr.StripIdempotent | backend/temp.py:181 | stripping a stripped string changes nothing |
| LabelExtractor.LabelsDistinct | backend/temp.py:11 | the five labels and `unknown` are pairwise distinct |
| LabelExtractor.Search | backend/temp.py:18 | the scan returns true exactly when the word occurs with a word boundary on both sides at some start position from `from` onwards |
| LabelExtractor.FirstMatch | backend/temp.py:17-19 | the result is the index of the first label, in `LABELS` order, that occurs as a whole word. It is `|LABELS|` when none does, and every label scanned before it does not occur |
| LabelExtractor.ExtractLabel | backend/temp.py:13-20 | the result is one of the five labels or `unknown`. Empty input gives `unknown`. The result is `unknown` iff no label occurs as a whole word in the lower-cased text. A returned label occurs there, and no earlier label does |
| LabelExtractor.ExtractIsScanOfLowered | backend/temp.py:13-19 | the empty-input guard is redundant: the result is always the priority scan of the lower-cased text |
| LabelExtractor.ExtractCaseInsensitive | backend/temp.py:16 | lower-casing the input first does not change the label |
| LabelExtractor.EarlierLabelWins | backend/temp.py:17-19 | when a label occurs as a whole word, no label after it in priority order is returned |
| LabelExtractor.ExtractFindsOccurring | backend/temp.py:17-19 | when label k occurs, the result is label k or a label before it, and never `unknown` |
| LabelExtractor.EmbeddedWordOccurs | backend/temp.py:16-18 | text whose lower case is the word, with a non-word character or the text edge on each side, is a whole-word occurrence in the lower-cased text |
| LabelExtractor.EmbeddedLabelFound | backend/temp.py:16-19 | a label embedded as a standalone word, in any letter case, yields that label or one of higher priority |
| LabelExtractor.EmbeddedLabelExact | backend/temp.py:16-19 | a label embedded as a standalone word, in any letter case, in text where no higher-priority label occurs, yields exactly that label |
| LabelExtractor.ExtractQuotedReply | backend/temp.py:13-20 | the reply "This text is classified as: toxic." gives `toxic` |
| LabelExtractor.ExtractPriorityExample | backend/temp.py:17-19 | text with both "SAFE" and "Toxic" as words gives `toxic`, the earlier label |
| LabelExtractor.NoOccurrence | backend/temp.py:18 | a word does not occur when every occurrence of its first letter is too near the end or glued to a word character |
| LabelExtractor.ExtractNotInsideWords | backend/temp.py:18 | "toxicity" and "unsafe" give `unknown`: a label inside a longer word is not a match |
| LabelExtractor.OutputsAreLowerCase | backend/temp.py:11 | every possible answer is already lower case |
| LabelExtractor.ExtractOwnLabel | backend/temp.py:13-20 | a label in which no earlier label occurs is extracted from itself |
| LabelExtractor.EarlierLabelsAbsent | backend/temp.py:11 | no label occurs as a whole word inside a label of lower priority |
| LabelExtractor.NoLabelInUnknown | backend/temp.py:11 | no label occurs as a whole word in `unknown` |
| LabelExtractor.ExtractFixesOutputs | backend/temp.py:11-20 | applied to any of its answers (each label and `unknown`), the extractor returns that answer |
| LabelExtractor.ExtractIdempotent | backend/temp.py:13-20 | extracting from the extracted label gives the same label |
| LabelExtractor.LabelsWordBounded | backend/temp.py:11 | every label is non-empty and begins and ends with a word character |
| LabelExtractor.OccursInPadded | backend/temp.py:18 | a whole-word occurrence survives padding the text with whitespace |
| LabelExtractor.OccursInCore | backend/temp.py:18 | a whole-word occurrence of a word-bounded word in whitespace-padded text lies inside the unpadded text |
| LabelExtractor.FirstMatchSameOccurrences | backend/temp.py:17-19 | two texts in which the same labels occur get the same priority-scan result |
| LabelExtractor.LabelsIgnorePadding | backend/temp.py:18 | each label occurs in the text iff it occurs in the text padded with whitespace |
| LabelExtractor.ExtractIgnoresSurroundingSpace | backend/temp.py:197-198 | leading and trailing whitespace never changes the extracted label |
| LabelExtractor.ExtractStripInvariant | backend/temp.py:197-198 | extracting from the stripped reply gives the label of the raw reply |
| Detect.InvokesInference | backend/temp.py:181-184 | inference is invoked exactly when the submitted text has a non-whitespace character |
| Detect.Decide | backend/temp.py:181-201 | the status is 200, 400 or 500. Exactly one of `label` and `error` is present, with `label` iff the status is 200. It is 400 with "No text provided" iff inference is not invoked. It is 500 with the exception message iff inference is invoked and fails. On 200 the inference succeeded and the label is the extracted label of its reply, one of the six answers |
| Detect.DecideBlankIgnoresInference | backend/temp.py:183-184 | for blank text the response is 400 "No text provided" whatever the inference service would do |
| Detect.DecideDependsOnStrippedText | backend/temp.py:181 | the response for the text equals the response for its stripped form |
| PyStr.StripSurrounded | backend/temp.py:181 | stripping whitespace-only padding around an already stripped string gives that string back |
| PyStr.StripSplit | backend/temp.py:181 | every string is its leading whitespace, then its stripped form, then its trailing whitespace |
| PyStr.StripPadded | backend/temp.py:181 | extra whitespace before or after a string does not change its stripped form |
| Detect.DecideIgnoresPadding | backend/temp.py:181-184 | whitespace added before or after the submitted text never changes the response |
| Detect.DecideExamples | backend/temp.py:181-201 | "" and "  " give 400. A reply "This text is classified as: toxic." gives 200 `toxic`. A failed call gives 500 with its message |

## Left out

- The HTML page and its client-side script (backend/temp.py:23-176) are
  static markup and browser behaviour.
- Flask routing, JSON parsing of the request body, `jsonify` and `app.run`
  are web framework plumbing. This includes the uncaught failures when the
  body is not a JSON object or `text` is not a string: lines 180-181 sit
  outside the `try`, and Flask answers with its own error page.
- The ollama client and `client.generate` are an external network call. Only
  their outcome is modelled, as `Generated(response)` or `Failed(message)`.
  `Failed` also stands for an exception raised while reading the reply
  (a `response` member that is present but not a string), since line 197
  is inside the same `try`.
  The conversion of the exception to its message (`str(e)`) is taken as
  given.
- The prompt template (backend/temp.py:186-193) is string formatting that
  matters only to the external model. The model and host constants are left
  out for the same reason.
- Unicode: Python's `\w`, `str.lower()` and `str.isspace()` also act on
  non-ASCII characters. The model uses ASCII definitions, so a label next to
  a non-ASCII letter (`étoxic`) counts as a whole word here but not in
  Python.
- InvokesInference: treats only ASCII whitespace as blank. A text made only
  of non-ASCII whitespace, such as a lone U+00A0, is stripped to "" by
  Python and answered 400, whereas the model invokes inference for it.
- `re.escape`: every label consists only of letters and single spaces, so
  escaping leaves a literal pattern. The model matches the label text
  literally.
