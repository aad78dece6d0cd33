# Markdown sections and diagram cleanup, in Dafny

This project models the two non-presentational parts of a markdown editor that adds flowchart diagrams to each section:

- **The section parser** in the editor component. It splits the document into lines. Each line starting with `#` opens a section whose heading is the line minus its leading `#` run and one whitespace character when one follows the run; otherwise the heading is the whole line. Body lines are collected until the next heading and joined back with `\n`. A whitespace-only line directly in front of a heading is dropped. Lines before the first heading belong to no section. The editor then builds a heading → section map for the preview.
- **The diagram route** (`POST /api/claude/generate-diagram`). With no API key it answers 500 with a configuration error and never calls the model. An upstream failure is passed on with the upstream status and message. A thrown exception becomes a 500. A successful answer's text goes through a cleanup chain, in order:
  1. trim;
  2. remove every ` ```mermaid `;
  3. remove every ` ``` `;
  4. strip an explanatory preamble ending in "diagram";
  5. collapse repeated `flowchart LR|TB` declarations;
  6. trim;
  7. prefix `flowchart LR\n` unless the text already starts with `flowchart`.

The modules are:

- `Options` holds the optional value.
- `JsText` covers the JavaScript string built-ins the code relies on:
  - `\s`, which is also the set `trim` removes;
  - `startsWith`, `trim`;
  - `split('\n')` and `join('\n')`;
  - a global `replace` of a literal with `''`.
- `SectionParser`:
  - `ParseSections` is the imperative loop, a `while` over the lines that keeps the open section and its collected body.
  - It is proved equal to `Parse`, a declarative definition. There, the sections are the ones opened by the heading lines, in order, and each section's body is the lines up to the next heading.
  - The step function `Scan` connects the two. The loop invariant says that what the loop has emitted, followed by what `Scan` would emit from the current state, is the whole answer.
- `DiagramCleanup` gives each regular expression of the chain a definition over `seq<char>`. The global, lazy, look-ahead collapse regex is modelled operationally, as the left-to-right scan the regex engine performs. It is then proved equal to a positional description: keep what precedes the first declaration, then everything from the last declaration on. Under the `i` flag without `u`, no non-ASCII character folds onto an ASCII letter, so the preamble's "diagram" matches exactly the ASCII letters of that word in either case.
- `SectionExamples` parses a small document with an introduction, a blank line before a heading and an empty `# ` heading.
- `DiagramExamples` proves that two declarations collapse to the last one, and that a `Here is the diagram:` sentence is stripped and replaced by the default `flowchart LR` declaration.
- `DiagramRoute` covers the POST handler's decision over an abstract upstream outcome:
  - a non-OK response with its status and optional error message;
  - an OK response with its text;
  - an exception with its message.

Three consequences of the code's rules are easy to miss:

- A heading line `# ` gives a section with an **empty** heading (`HeadingTextStrips` with an empty rest, and `SectionExamples.ParseExample`).
- Two adjacent heading lines give two sections, and the first has empty content (`AdjacentHeadings`). So the number of sections always equals the number of lines starting with `#` (`SectionCount`).
- The line dropped in front of a heading is any **whitespace-only** line, not only an empty one, since the code tests `line.trim()`.

## Model

| member | source | states |
|---|---|---|
| SectionParser.ParseSections | src/components/MarkdownEditor.tsx:27-72 | The line-by-line pass returns exactly the declarative section list of the split document: one section per heading line, in document order, with its kept body lines joined by newlines. |
| SectionParser.Parse | src/components/MarkdownEditor.tsx:29-69 | The declarative parse (`SectionsOf` of the split lines) has one section per line starting with `#`. |
| SectionParser.ScanSections | src/components/MarkdownEditor.tsx:38-69 | From any line with no section open, the rest of the pass, including the final flush, emits precisely the sections opened by the heading lines from there on. |
| SectionParser.ScanPreamble | src/components/MarkdownEditor.tsx:52 | While no section is open, non-heading lines are skipped without effect. |
| SectionParser.ScanBody | src/components/MarkdownEditor.tsx:52-61 | Inside a section, the run of lines up to the next heading adds exactly the kept lines to the body. |
| SectionParser.ScanClose | src/components/MarkdownEditor.tsx:41-45 | At a heading or at the end of the document, the open section is emitted with its body joined by newlines. |
| SectionParser.KeptBody | src/components/MarkdownEditor.tsx:54-61 | The lines kept in a section body are the whole body, except that a whitespace-only last line is dropped when a heading line follows it. The last line of the document is never dropped. |
| SectionParser.SectionCount | src/components/MarkdownEditor.tsx:38-69 | The number of sections equals the number of lines starting with `#`. |
| SectionParser.SectionOrder | src/components/MarkdownEditor.tsx:39-51 | The heading line at index j opens the section at position (number of heading lines before j), with that line's heading text and body. |
| SectionParser.SectionSource | src/components/MarkdownEditor.tsx:39-51 | Every section comes from a heading line. |
| SectionParser.AdjacentHeadings | src/components/MarkdownEditor.tsx:39-51 | A heading line directly followed by another heading line gives a section with that heading and empty content. |
| SectionParser.NoHeadingLines | src/components/MarkdownEditor.tsx:29-69 | A document none of whose lines starts with `#` has no sections. |
| SectionParser.Preamble | src/components/MarkdownEditor.tsx:52 | Lines before the first heading are discarded: prefixing heading-free lines leaves the section list unchanged. |
| SectionParser.OpenedContent | src/components/MarkdownEditor.tsx:42 | A section's content splits back into its kept body lines, with `['']` for an empty body. |
| SectionParser.ContentHasNoHeadingLine | src/components/MarkdownEditor.tsx:39-61 | No line of any section's content starts with `#`. |
| SectionParser.HeadingText | src/components/MarkdownEditor.tsx:49 | The heading differs from the line exactly when the line's leading `#` run is followed by a whitespace character, and then it is shorter by that run and that character. `HeadingTextStrips` and `HeadingTextKeeps` give its value. |
| SectionParser.HeadingTextStrips | src/components/MarkdownEditor.tsx:49 | A heading made of one or more `#`, then one whitespace character, then the rest has exactly the rest as its text, which may be empty. |
| SectionParser.HeadingTextKeeps | src/components/MarkdownEditor.tsx:49 | A line in which no leading `#` run is followed by whitespace keeps its whole text as the heading. |
| SectionParser.HashRun | src/components/MarkdownEditor.tsx:49 | The leading run of `#` is maximal: all `#`, and the next character (if any) is not `#`. |
| SectionParser.HeadingLineStartsWith | src/components/MarkdownEditor.tsx:39 | A line opens a section exactly when it starts with `#`. |
| SectionParser.HeadingMap | src/components/MarkdownEditor.tsx:84-86 | Every entry maps a heading to a section of the list that has that heading. |
| SectionParser.HeadingMapKeys | src/components/MarkdownEditor.tsx:84-86 | A heading is a key of the map exactly when some section has it. |
| SectionParser.HeadingMapLast | src/components/MarkdownEditor.tsx:84-86 | A section whose heading no later section repeats is what that heading maps to. |
| SectionExamples.ParseExample | src/components/MarkdownEditor.tsx:38-69 | The lines `intro`, `# A`, `x`, an empty line, `# ` and `y` give two sections: heading `A` with content `x`, and an empty heading with content `y`. The introduction is dropped, and so is the empty line in front of `# `. |
| SectionExamples.ParseTextExample | src/components/MarkdownEditor.tsx:29-69 | The same document, parsed from its newline-joined text, gives the same two sections. |
| JsText.JoinSplit | src/components/MarkdownEditor.tsx:29 | Joining the lines of a split with `\n` gives back the document. |
| JsText.Join | src/components/MarkdownEditor.tsx:42 | No lines join to `''`, and a single line joins to itself. `JoinSplit` and `SplitJoin` show that joining is the inverse of splitting. |
| JsText.SplitJoin | src/components/MarkdownEditor.tsx:42 | Splitting the newline-join of newline-free lines gives back those lines. |
| JsText.Split | src/components/MarkdownEditor.tsx:29 | A split has at least one piece and no piece contains a newline. |
| JsText.Trim | src/components/MarkdownEditor.tsx:59 | Trimming gives the empty string exactly when the text is whitespace only. |
| JsText.TrimShape | src/app/api/claude/generate-diagram/route.ts:74 | Trimming removes a whitespace prefix and a whitespace suffix, and what remains neither starts nor ends with whitespace. |
| JsText.TrimKeeps | src/app/api/claude/generate-diagram/route.ts:82 | Text that neither starts nor ends with whitespace is unchanged by trimming. |
| JsText.RemoveAll | src/app/api/claude/generate-diagram/route.ts:78-79 | Global removal of a literal shortens the text by a whole number of pattern lengths. Text in which the pattern never occurs, or whose characters never include the pattern's first character, is unchanged. `RemoveFencesLeavesNone` states what the removal of ` ``` ` leaves. |
| DiagramCleanup.RemoveFencesLeavesNone | src/app/api/claude/generate-diagram/route.ts:79 | After the global removal of ` ``` ` no three consecutive backticks remain, even where removal joins backticks from both sides. |
| DiagramCleanup.PreambleWord | src/app/api/claude/generate-diagram/route.ts:80 | The preamble's "diagram", when there is one, is the last case-insensitive "diagram" that starts within the leading run of letters and whitespace, so only letters and whitespace precede it. When there is none, no "diagram" starts within that run. |
| DiagramCleanup.PreambleEnd | src/app/api/claude/generate-diagram/route.ts:80 | The preamble ends after "diagram", then a `:` whenever one follows the word, then the whole whitespace run that follows. |
| DiagramCleanup.StripPreamble | src/app/api/claude/generate-diagram/route.ts:80 | The result is a suffix of the input. It equals the input exactly when no case-insensitive "diagram" follows a leading run of letters and whitespace. When a preamble is stripped, the result is exactly the text after the preamble's end, that is after the last reachable "diagram", its `:` and its whitespace. Everything before the word is letters or whitespace, and the result does not start with whitespace. |
| DiagramCleanup.LastDiagramUpTo | src/app/api/claude/generate-diagram/route.ts:80 | The greedy lead-in picks the last occurrence of "diagram" that the lead-in can reach. |
| DiagramCleanup.StripLeadIn | src/app/api/claude/generate-diagram/route.ts:80 | A letters-and-spaces lead-in, then "diagram:", then whitespace, then a body is reduced to exactly the body. |
| DiagramCleanup.NextDecl | src/app/api/claude/generate-diagram/route.ts:81 | Finds the first `flowchart` + whitespace + `LR`/`TB` declaration at or after a position, or reports that there is none. |
| DiagramCleanup.DeclsApart | src/app/api/claude/generate-diagram/route.ts:81 | Declarations never overlap: none starts inside another. |
| DiagramCleanup.CollapseFrom | src/app/api/claude/generate-diagram/route.ts:81 | The scan from a position never yields more than the rest of the text. `CollapseScan` gives its exact result. |
| DiagramCleanup.CollapseDeclarations | src/app/api/claude/generate-diagram/route.ts:81 | The collapse never lengthens the text. `CollapseScan` gives its exact result. |
| DiagramCleanup.CollapseScan | src/app/api/claude/generate-diagram/route.ts:81 | The regex's left-to-right global replacement equals keeping the text before the first declaration and everything from the last declaration on. Text with no declaration is unchanged. |
| DiagramCleanup.CollapseLeavesOne | src/app/api/claude/generate-diagram/route.ts:81 | After the collapse at most one declaration remains. |
| DiagramCleanup.CollapseKeepsSingle | src/app/api/claude/generate-diagram/route.ts:81 | Text with at most one declaration is unchanged by the collapse. |
| DiagramCleanup.CollapseToLast | src/app/api/claude/generate-diagram/route.ts:81 | Text opening with a declaration and ending with a final declaration followed by a body without `f` collapses to that final declaration and body. |
| DiagramCleanup.CollapseWithoutF | src/app/api/claude/generate-diagram/route.ts:81 | Text without the letter `f` is unchanged by the collapse. |
| DiagramCleanup.StripKeepsNoFence | src/app/api/claude/generate-diagram/route.ts:80 | Stripping the preamble does not create a run of three backticks. |
| DiagramCleanup.TrimKeepsNoFence | src/app/api/claude/generate-diagram/route.ts:82 | Trimming does not create a run of three backticks. |
| DiagramCleanup.EnsureKeepsNoFence | src/app/api/claude/generate-diagram/route.ts:85-87 | Prefixing the declaration line does not create a run of three backticks. |
| DiagramCleanup.CollapseKeepsNoFence | src/app/api/claude/generate-diagram/route.ts:81 | The collapse does not create a run of three backticks. |
| DiagramCleanup.EnsureDeclaration | src/app/api/claude/generate-diagram/route.ts:85-87 | The result starts with `flowchart` and ends with the input. It equals the input exactly when the input already starts with `flowchart`; otherwise it is `flowchart LR\n` followed by the input. |
| DiagramCleanup.Cleanup | src/app/api/claude/generate-diagram/route.ts:74-87 | The cleaned diagram text always starts with `flowchart`. |
| DiagramCleanup.CleanupHasNoFence | src/app/api/claude/generate-diagram/route.ts:77-87 | The cleaned diagram text contains no code fence. |
| DiagramExamples.CollapseExample | src/app/api/claude/generate-diagram/route.ts:81 | `flowchart LR\nA-->B\nflowchart TB\nC-->D` collapses to `flowchart TB\nC-->D`. |
| DiagramExamples.ExamplePreamble | src/app/api/claude/generate-diagram/route.ts:80 | `Here is the diagram: A-->B` loses its preamble, leaving `A-->B`. |
| DiagramExamples.CleanupExample | src/app/api/claude/generate-diagram/route.ts:74-87 | The whole chain turns `Here is the diagram: A-->B` into `flowchart LR\nA-->B`. |
| DiagramRoute.ErrorDetails | src/app/api/claude/generate-diagram/route.ts:61 | The details are the upstream error message when it is present and non-empty, and "Unknown error" otherwise, so they are never empty. |
| DiagramRoute.Answer | src/app/api/claude/generate-diagram/route.ts:57-101 | Once the key was found, the answer carries a diagram exactly when the call succeeded, with status 200 and the cleaned text. Otherwise it carries "Failed to generate diagram" with details: the upstream status with the upstream message or "Unknown error", or 500 with the exception's message. |
| DiagramRoute.Post | src/app/api/claude/generate-diagram/route.ts:9-102 | The model is called exactly when an API key is configured: `!apiKey` rejects an absent key and the empty string. Without one the answer is 500 with the configuration error and no details. With one the answer is decided by the upstream outcome. |
| DiagramRoute.ResponseStatus | src/app/api/claude/generate-diagram/route.ts:57-102 | The status is 500 without a key, the upstream status on an upstream failure, 500 on an exception, and 200 with the cleaned text on success. |
| DiagramRoute.SuccessMeansDiagram | src/app/api/claude/generate-diagram/route.ts:57-91 | Given that a non-OK upstream status lies outside 200–299, as `response.ok` guarantees, the answer is 2xx exactly when it carries diagram text. That happens exactly when the key is configured and the upstream succeeded. The diagram then starts with `flowchart` and has no code fence. |
| DiagramRoute.FailureDetails | src/app/api/claude/generate-diagram/route.ts:57-101 | A failure carries details exactly when the model was called. The error is then "Failed to generate diagram", with the upstream message (or "Unknown error") or the exception message as details. |
| DiagramRoute.RateLimitExample | src/app/api/claude/generate-diagram/route.ts:57-71 | A 429 upstream answer is passed on as 429 with its message as details. A message-less failure gets "Unknown error". An empty key is treated as missing. |

## Left out

- Section ids: the code gives each section a random id (`Math.random`, src/components/MarkdownEditor.tsx:48) and uses the id's truthiness as "a section is open". The model uses an optional heading instead. It thereby ignores the case where the random draw yields an empty id, in which that section would be silently merged into the preamble.
- React state: `setSections`, the effect hook and the preview's heading-render override that looks sections up by the rendered heading's text are not modelled. The parser returns its list and `HeadingMap` is the map.
- Characters: Dafny `char`s are Unicode scalar values, while JavaScript strings are UTF-16 code units. Every `\s` character is a single code unit, so the whitespace rules agree, but lone surrogates cannot be represented.
- Request parsing: `req.json()` sits outside the `try` (src/app/api/claude/generate-diagram/route.ts:4). A malformed request body therefore escapes the handler. The model starts after the request text has been read, and the text only feeds the prompt, which is not modelled.
- Outbound call: `fetch`, the request headers, the prompt and system text, `process.env`, `console` logging and the `debug` payloads are not modelled. The key is a parameter and the upstream outcome is an input.
- Upstream exceptions: a reply that is not JSON, or that has no `content[0].text`, throws inside the `try`; the model folds these into the thrown-exception outcome.
- DiagramRoute.ResponseStatus: does not model that `new Response` itself throws for a status outside 200–599. The model mirrors whatever upstream status it is given.
- HTTP headers and JSON serialisation of the response bodies are not modelled; a body is a datatype.
- DiagramCleanup.Cleanup: no claim is made that the cleaned text holds exactly one declaration, nor that cleanup is idempotent. The prefix `flowchart LR\n` is added whenever the text does not start with `flowchart`, even when a declaration follows later. The preamble regex can also fire again on its own output.
- The diagram panel, the Mermaid renderer, authentication and the page components are not part of this model.
