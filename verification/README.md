# NeuroReel: OCR text extraction and the home-page typewriter, in Dafny

NeuroReel turns an uploaded document into narrative scenes. This project models
the two pieces of its logic that can be pinned down:

- **`extractText`**, the server action in `actions/create.ts`. It rejects a
  missing file. It sends the file to the OCR.space provider and turns the
  decoded answer into a single text or an error message. An errored answer
  fails with the provider's `ErrorMessage`, or with `"OCR processing failed."`
  when that message is absent or empty. Otherwise every `ParsedText` is trimmed
  and the results are joined with one space. An empty join becomes the sentinel
  `"No text found."`.
  Module `OcrExtraction` (pure functions). The provider round trip is the
  parameter `ocr: UploadedFile -> OcrResponse`, consulted only when a file is
  present. JavaScript's `trim` and `join(" ")` are written out: `Trim` strips
  exactly the ECMAScript WhiteSpace and LineTerminator characters at both ends.
- **The typewriter headline** of `Home` in `app/page.tsx`. Each 80 ms tick
  of an interval types one more character of the current sentence. Once the
  whole sentence is shown it deletes one character per tick. Back at the empty
  prefix, it moves on to the next of the three sentences, cyclically.
  Module `TypewriterLoop`. The class `Typewriter` holds the closure variables
  `i`, `j`, `currentSentence` and `isDeleting`, plus the published `text`, and
  `Tick` is one run of the callback. `Tick` is proved against the value-level
  specification `Step` over `Snapshot`. The invariant `Inv` and the cycle
  lemmas are proved about `Step` and `Iterate`.

`Wrappers` holds the `Option` and `Result` datatypes. A thrown `Error` is
modelled as `Failure(message)`.

## Model

| member | source | states |
|---|---|---|
| `OcrExtraction.TrimStartSpec` | actions/create.ts:43 | the leading half of `trim`: its result is a suffix of the input, everything dropped is whitespace, and the result does not start with whitespace |
| `OcrExtraction.TrimEndSpec` | actions/create.ts:43 | the trailing half of `trim`: its result is a prefix of the input, everything dropped is whitespace, and the result does not end with whitespace |
| `OcrExtraction.TrimStartSkips` | actions/create.ts:43 | any amount of leading whitespace is dropped without changing the rest |
| `OcrExtraction.TrimEndSkips` | actions/create.ts:43 | any amount of trailing whitespace is dropped without changing the rest |
| `OcrExtraction.Trim` | actions/create.ts:43 | `trim()`: neither end of the result is whitespace, and the result is empty exactly when the input is all whitespace |
| `OcrExtraction.TrimOfPadded` | actions/create.ts:43 | trimming whitespace padding around a core that has no whitespace at its ends gives back exactly that core |
| `OcrExtraction.Join` | actions/create.ts:43 | `join(" ")` of n ≥ 1 parts has length sum-of-lengths + n − 1, and is empty exactly for no parts or one empty part |
| `OcrExtraction.JoinStartsWith` | actions/create.ts:43 | the join begins with the first part, followed by a space when more parts come |
| `OcrExtraction.JoinShift` | actions/create.ts:43 | past the first part and its single separator, the join is the join of the remaining parts |
| `OcrExtraction.OffsetInTail` | actions/create.ts:43 | the offset of part k is the first part's length plus one separator plus the offset of part k − 1 among the rest |
| `OcrExtraction.JoinAt` | actions/create.ts:43 | part k appears verbatim at offset (lengths of parts before it + k) of the join, followed by exactly one space unless it is the last |
| `OcrExtraction.TrimAll` | actions/create.ts:43 | the map keeps the provider order: entry k of the result is the trimmed `ParsedText` of entry k |
| `OcrExtraction.ProviderErrorMessage` | actions/create.ts:39 | the provider message or else `"OCR processing failed."`: a present non-empty message is used as is, an absent or empty one gives the generic message, so the message is never empty |
| `OcrExtraction.FullText` | actions/create.ts:42-44 | the text is never empty, and an absent or empty `ParsedResults` gives exactly `"No text found."` |
| `OcrExtraction.ExtractText` | actions/create.ts:17-49 | a missing file fails with `"No file received!"`; an errored response fails with the provider message (or the generic one) even when it carries results; success happens exactly for a present file and a non-errored response, its value is then the `FullText` of the response's `ParsedResults` (so an absent or empty list gives `"No text found."`), and it is never empty |
| `OcrExtraction.JoinedTextIsReturned` | actions/create.ts:42-49 | a non-errored response whose trimmed texts join to a non-empty string returns exactly that string: logging the preview changes nothing |
| `OcrExtraction.SuccessLayout` | actions/create.ts:42-49 | when the join is non-empty, the returned text has length sum of trimmed lengths + n − 1, and holds each trimmed `ParsedText` in provider order, separated by exactly one space |
| `OcrExtraction.BlankEntries` | actions/create.ts:42-44 | one whitespace-only entry gives the sentinel, but two whitespace-only entries give `" "`, which is not replaced |
| `TypewriterLoop.HomeSentencesWellFormed` | app/page.tsx:72-76 | the home page's three sentences are all non-empty |
| `TypewriterLoop.JsSlicePrefix` | app/page.tsx:86-94 | `slice(0, end)` gives a prefix of the sentence, and exactly the first `end` characters when `end` lies within it |
| `TypewriterLoop.Initial` | app/page.tsx:79-82 | the start state (`i = 0`, `j = 0`, typing, first sentence, empty text) satisfies `Inv` |
| `TypewriterLoop.Step` | app/page.tsx:85-101 | typing raises `j` by one and sets `isDeleting` exactly when `j` reaches the length; deleting lowers `j` by one and leaves `i` and the sentence alone, except when `j` hits 0: then it clears `isDeleting`, advances `i` modulo the number of sentences, and the text is `""`; when every sentence is non-empty (`WellFormed`), `Inv` (index in range, sentence is `sentences[i]`, `0 <= j <= length`, text is the prefix up to `j`) is preserved |
| `TypewriterLoop.Iterate` | app/page.tsx:84-103 | when every sentence is non-empty, `Inv` holds after any number of ticks from a state that satisfies it |
| `TypewriterLoop.NextSentence` | app/page.tsx:97-100 | the state after a sentence change is typing from the empty prefix of `sentences[(i + 1) % n]` and satisfies `Inv` |
| `TypewriterLoop.TypingPhase` | app/page.tsx:85-92 | from the empty prefix, k ticks show the first k characters, and deleting starts exactly at the full length |
| `TypewriterLoop.DeletingPhase` | app/page.tsx:93-101 | after the full sentence is typed, k more ticks leave length − k characters, and the tick that reaches 0 switches to the next sentence |
| `TypewriterLoop.FullCycle` | app/page.tsx:84-103 | from `j = 0` in typing mode, exactly 2·length ticks return to `j = 0` in typing mode with `i` advanced by one modulo the number of sentences; no earlier tick has `j = 0` |
| `TypewriterLoop.Typewriter.constructor` | app/page.tsx:79-82 | the object starts in `Initial(sentences)` and is valid |
| `TypewriterLoop.Typewriter.Tick` | app/page.tsx:84-103 | one callback run updates the closure variables and the published text exactly as `Step` does, and keeps the object invariant |

## Left out

- The multipart upload, the `fetch` to the OCR endpoint, the `OCR_API_KEY` lookup with its `"helloworld"` default, and `res.json()` (actions/create.ts:20-36). They are network I/O and library calls. The model starts from the decoded response, supplied by the `ocr` parameter. Transport errors thrown by `fetch` are not modelled.
- The `console.log` of the preview (actions/create.ts:47). It is a side effect; the model returns the preview unchanged, which is the computed text.
- `OcrExtraction.ExtractText`: the `!file` guard is modelled as an absent file (`None`). A present but empty `File` object is truthy in JavaScript and passes the guard, as in the model. A JSON `ErrorMessage` or `ParsedText` of a type other than the declared string is not modelled.
- `TypewriterLoop.JsSlicePrefix`, `TypewriterLoop.Step`, `TypewriterLoop.TypingPhase`, `TypewriterLoop.FullCycle`: the model's strings are sequences of Unicode characters, while JavaScript's `length` and `slice` (app/page.tsx:86, 89, 94) count UTF-16 code units. For a sentence with a character outside the Basic Multilingual Plane, such as an emoji, the source spends two ticks on that character and shows a lone surrogate in between; the model spends one. The tick counts proved here are exact only for sentences made of BMP characters. The home page's three sentences are such sentences; their only non-ASCII character is U+2014.
- The `setTimeout(() => {}, 1000)` at app/page.tsx:91 schedules an empty callback. It changes no state, so `Tick` has nothing for it.
- React rendering, `useState`/`setText` plumbing, the 80 ms `setInterval` timing and its `clearInterval` cleanup, and all JSX. The published text is the `text` field that `setText` would receive.
- `TypewriterLoop.Typewriter.constructor`: requires non-empty sentences. The home page's sentences satisfy this (`HomeSentencesWellFormed`). With an empty sentence the source would never switch to deleting, and the cursor bound would not hold.
- Scene generation and the scene-response parser are not modelled; neither is part of `extractText` or the `Home` typewriter.
- The Express server (backend/src/app.js), the layout, navigation and FAQ components, and the static content arrays. They have no modelled behaviour.
