# Blog post form: validation and submit rule

This project models the client-side core of the admin dashboard's blog post
form (`src/components/BlogForm/index.tsx`). It covers three pieces and proves
properties of each:

- **The validation schema.** Each of the four payload fields (`title`,
  `content`, `image`, `author`) has an ordered table of rules. Each rule is a
  check plus the literal message reported when the check fails. The messages
  are kept verbatim, including their copy-paste quirks:
  - the author's required message reads "title is required";
  - the content's minimum-length message mentions the title.

  As with the form's resolver, every failing rule of a field is collected, in
  table order.
- **The `is-not-empty` content test.** It applies a global regular-expression
  replacement that deletes markup tags (`<\/?[^>]+(>|$)`), then ECMAScript's
  `trim`, and asks whether anything is left.
  - `TagStrip` models the replacement as a left-to-right scan.
  - `MatchLength` is the length of the pattern's match at the scan position.
    It is proved to be the only match the pattern has there.
  - `EcmaTrim` models `trim` with the WhiteSpace and LineTerminator characters.
- **The form state.** Class `Form.BlogForm` holds the four values and the
  errors of the last validation pass.
  - Inputs, the editor and the file picker replace stored values in place.
  - `Submit` validates. Only a passing payload goes to the store's `addBlog`,
    whose outcome is a parameter.
  - If the store succeeds, the form resets to the empty defaults. If it
    throws, the form keeps the submitted values.

Each `char` of a Dafny `string` stands for one BMP character, that is one
UTF-16 code unit, so `|s|` is JavaScript's `s.length` for such text.

Three details of the code that the model keeps:
- `image` is validated as a string (`Yup.string().required`).
- The content's minimum-length failure carries its own message, not
  "content is required".
- An empty title fails two rules, required and minimum length, so both
  messages are reported.

## Model

| member | source | states |
|---|---|---|
| `TagStrip.MatchLength` | src/components/BlogForm/index.tsx:23 | a positive result is a match of the tag pattern at the start of the text, and no other length matches there; 0 means the pattern does not match there (a `<` that is last or followed by `>`) |
| `TagStrip.Strip` | src/components/BlogForm/index.tsx:23 | the global tag replacement never makes the text longer |
| `TagStrip.StripNoTags` | src/components/BlogForm/index.tsx:23 | text with no `<` is left unchanged |
| `TagStrip.StripPlainPrefix` | src/components/BlogForm/index.tsx:23 | a prefix with no `<` is copied, and the rest is stripped independently |
| `TagStrip.StripClosedTag` | src/components/BlogForm/index.tsx:23 | a complete tag `<…>` (including `</>`) at the front is deleted, whatever follows |
| `TagStrip.StripUnclosedTail` | src/components/BlogForm/index.tsx:23 | an unclosed `<x…` with no later `>` is deleted through to the end of the text |
| `TagStrip.StripIsInert` | src/components/BlogForm/index.tsx:23 | in the output every `<` is the last character or is followed by `>` |
| `TagStrip.StripInertFixed` | src/components/BlogForm/index.tsx:23 | text in which every `<` is last or followed by `>` is unchanged by stripping |
| `TagStrip.StripIdempotent` | src/components/BlogForm/index.tsx:23 | stripping twice gives the same result as stripping once |
| `TagStrip.StripOnlyDeletes` | src/components/BlogForm/index.tsx:23 | the output is a subsequence of the input: the replacement only deletes characters and keeps the rest in order |
| `TagStrip.StripCountsShrink` | src/components/BlogForm/index.tsx:23 | no character occurs more often in the output than in the input (multiset inclusion) |
| `EcmaTrim.IsWhiteSpace` | src/components/BlogForm/index.tsx:23 | the WhiteSpace and LineTerminator characters that `trim` removes; none of them is `<` or `>` |
| `EcmaTrim.TrimStart` | src/components/BlogForm/index.tsx:23 | the result is a suffix of the input, everything removed is white space, and the result does not start with white space |
| `EcmaTrim.TrimEnd` | src/components/BlogForm/index.tsx:23 | the result is a prefix of the input, everything removed is white space, and the result does not end with white space |
| `EcmaTrim.TrimEmptyIff` | src/components/BlogForm/index.tsx:23-25 | the trimmed text is empty exactly when every character is WhiteSpace or LineTerminator |
| `EcmaTrim.Trim` | src/components/BlogForm/index.tsx:23 | `.trim()`: the result is no longer than the input and, unless empty, neither starts nor ends with white space |
| `EcmaTrim.TrimBounds` | src/components/BlogForm/index.tsx:23 | the trimmed text is `s[i..j]` with only white space before `i` and from `j` on, so `i` is the first and `j - 1` the last non-white-space index (all white space gives "") |
| `Schema.Rules` | src/components/BlogForm/index.tsx:11-27 | the rule table with its verbatim messages; every field's first rule is the required check and every rule has a message |
| `Schema.VisibleText` | src/components/BlogForm/index.tsx:22-24 | the text the `is-not-empty` test measures is empty exactly when tag stripping leaves only white space, and is never longer than the value |
| `Schema.Holds` | src/components/BlogForm/index.tsx:12-26 | the meaning of each check; a value that passes the `is-not-empty` test or a positive minimum length is non-empty |
| `Schema.Failures` | src/components/BlogForm/index.tsx:11-27 | a value gets no messages exactly when it fails no rule of the table, and at most one message per rule |
| `Schema.FailuresMessages` | src/components/BlogForm/index.tsx:11-27 | the messages reported are exactly the messages of the rules the value fails |
| `Schema.FieldMessages` | src/components/BlogForm/index.tsx:11-27 | each field's messages are exactly those of the rules in its table that its value fails |
| `Schema.Errors` | src/components/BlogForm/index.tsx:11-27 | a field has an entry exactly when its value fails some rule of its table, and the entry holds the message of every rule it fails and no other |
| `Schema.Passes` | src/components/BlogForm/index.tsx:74 | submission proceeds exactly when no field fails any rule of its table |
| `Schema.TitleAcceptedIff` | src/components/BlogForm/index.tsx:12-15 | the title is accepted iff its length is between 30 and 100 inclusive |
| `Schema.EmptyTitleErrors` | src/components/BlogForm/index.tsx:12-14 | an empty title reports exactly "title is required" then the minimum-length message |
| `Schema.TitleLengthMessages` | src/components/BlogForm/index.tsx:14-15 | the minimum message is reported iff the title is shorter than 30; the maximum message iff it is longer than 100 |
| `Schema.AuthorAcceptedIff` | src/components/BlogForm/index.tsx:16 | the author is accepted iff non-empty; its only error is literally "title is required" |
| `Schema.ImageAcceptedIff` | src/components/BlogForm/index.tsx:17 | the image is accepted iff non-empty; its only error is "Blog photo is required" |
| `Schema.ContentAcceptedIff` | src/components/BlogForm/index.tsx:18-26 | content is accepted iff its raw length is at least 100 and some non-white-space character survives tag stripping |
| `Schema.ContentMessages` | src/components/BlogForm/index.tsx:18-26 | the minimum-length message is reported iff content is shorter than 100; "content is required" iff content is empty or strips to white space only |
| `Schema.InvisibleContentRejected` | src/components/BlogForm/index.tsx:21-25 | content that strips to white space only is rejected with "content is required", whatever its raw length |
| `Schema.StripEmptyParagraph` | src/components/BlogForm/index.tsx:23 | stripping `<p> </p>` in front of any text leaves a single space in front of the stripped text |
| `Schema.StripEmptyParagraphs` | src/components/BlogForm/index.tsx:23 | n copies of `<p> </p>` strip to n spaces |
| `Schema.EmptyParagraphsRejected` | src/components/BlogForm/index.tsx:20-25 | 13 or more copies of `<p> </p>` (104+ code units) pass the length rule yet fail with exactly "content is required" |
| `Schema.PassesIff` | src/components/BlogForm/index.tsx:11-27 | the payload passes iff title length is in [30,100], author and image are non-empty, content length is at least 100 and content has visible text |
| `Schema.DefaultFieldErrors` | src/components/BlogForm/index.tsx:46-51 | the exact message list of each field of the all-empty default payload |
| `Schema.DefaultsFailEveryField` | src/components/BlogForm/index.tsx:46-51 | the all-empty default payload fails on all four fields, with the listed messages |
| `Form.With` | src/components/BlogForm/index.tsx:29-34 | replacing one payload field sets that field and leaves the other three alone |
| `Form.BlogForm.constructor` | src/components/BlogForm/index.tsx:44-52 | a new form holds the empty defaults and no errors |
| `Form.BlogForm.Change` | src/components/BlogForm/index.tsx:135-190 | a title or author input, or the content editor, replaces exactly its own stored value; no input writes the image |
| `Form.BlogForm.SelectImage` | src/components/BlogForm/index.tsx:88-93 | the first selected file becomes the image value; an empty selection changes nothing |
| `Form.BlogForm.Submit` | src/components/BlogForm/index.tsx:54-61 | the store receives the exact current values iff they pass the schema; errors become the schema's result; after a successful store the values are the defaults, otherwise they are unchanged |
| `Form.SubmitUntouched` | src/components/BlogForm/index.tsx:74 | submitting an untouched form never calls the store, and every field has an error |
| `Form.FillAndSubmitTwice` | src/components/BlogForm/index.tsx:54-61 | a filled form reaches the store iff the payload passes. A success resets the form, so an immediate resubmit sends nothing. A thrown failure keeps the payload, so a resubmit sends it again |

## Left out

- Layout, styling, labels and the Cancel button without a handler are not modelled. Neither is the author input's red border, which follows the title's error. All of these are presentation.
- The image preview is not modelled. It uses the browser's object-URL API and the framework's image component.
- The rich-text editor widget and its remount on every value change are not modelled. Only its change notification is, as `Change`.
- The store's persistence is not modelled. Neither are `await` and the `console.error` log of a failed store call. The store's success or failure is an input to `Submit`, and `Submit` runs as one step.
- Form.BlogForm.Submit: a second submission while the store call is still pending is not modelled.
- The form library chooses which single message to display when a field fails several rules. That choice is not modelled; the model states the full list of failing messages instead.
- After a first submission, the form library re-validates a field when it changes. That is not modelled: `Change` and `SelectImage` leave the stored errors as they are. Touched and dirty flags and focusing the first invalid field are left out too.
- Form.BlogForm.SelectImage: the file picker really stores a `File` object, which the schema then checks as a string. The model stores the image as a string, as the payload type declares. It does not model how the validation library converts a non-string.
- Absent values (`undefined`, `null`) are not modelled: every field is always a string.
- Strings: a character outside the Basic Multilingual Plane is two UTF-16 code units in JavaScript. Here it would be a single `char`, so text containing such characters is outside this model.
