# mkpdf service core, modelled in Dafny

mkpdf is a small service that turns a Markdown document into a PDF. Its
`POST /convert` handler reads `markdown`, `title` and `css` from a JSON body,
rejects a request without Markdown, parses the Markdown to an HTML fragment,
wraps the fragment in a full HTML document (`buildHtml`, with the title
escaped by `escapeHtml`), and prints that document to PDF in a headless
browser. This project models that logic as pure functions and proves what it
promises:

- `escape.dfy` (module `Escape`): `escapeHtml` as four global
  single-character replacements, `&` first. It is proved equal to a one-pass
  per-character map, so no replacement rewrites text an earlier one inserted.
  Further lemmas: the output has no `<`, `>` or `"`; every `&` starts one of
  the four entities; the length grows by a fixed amount per escaped
  character; decoding the entities gives the input back, so the escaper is
  injective.
- `document.dfy` (module `Document`): `buildHtml` with the template's exact
  markup and whitespace. Lemmas: the title element reads back as the escaped
  title, framed by `<title>` and `</title>`; between `<style>` and the
  template's `</style>` stand exactly the base rules, then the custom rules;
  the body fragment is inserted unescaped before the closing markup.
- `convert.dfy` (module `Convert`): the `/convert` handler and
  `convertMarkdownToPdf`. The Markdown library and the headless browser are
  function parameters that may fail. Lemmas cover the 400 path (no
  conversion attempted), the success path (which document reaches the
  browser), and the 500 path (a fixed message; the thrown error is never
  returned).
- `wrappers.dfy` (module `Wrappers`): `Option` for absent JSON fields and
  `Result` for calls that may throw.

The service has only `/convert`, no script injection, and its base
stylesheet is the empty string.

## Model

| member | source | states |
|---|---|---|
| `Escape.ReplaceAll` | src/server.ts:107-111 | one `.replace(/c/g, rep)` pass: a text without `c` is returned unchanged; every character of the result comes from `rep` or is a character of the input other than `c` |
| `Escape.EscapeHtml` | src/server.ts:106-112 | the escaped title contains no `<`, `>` or `"`; a title with none of `& < > "` is returned unchanged |
| `Escape.EscapeHtmlChar` | src/server.ts:107-111 | on one character the four passes give exactly its entity (or the character itself): text inserted by an earlier pass is never rewritten by a later one |
| `Escape.EscapeHtmlAppend` | src/server.ts:107-111 | escaping a concatenation escapes each part separately: each character is escaped once, in place, and the order is kept |
| `Escape.EscapeHtmlIsOnePass` | src/server.ts:107-111 | the four sequential passes equal one left-to-right per-character mapping (no double escaping) |
| `Escape.EscapeHtmlAmpersands` | src/server.ts:107-111 | every `&` in the output begins `&amp;`, `&lt;`, `&gt;` or `&quot;`; no bare ampersand survives |
| `Escape.EscapeHtmlLength` | src/server.ts:106-112 | output length is the input length plus 4 per `&`, 3 per `<` and `>`, 5 per `"`; hence never shorter than the input |
| `Escape.EscapeHtmlRoundTrip` | src/server.ts:106-112 | decoding the four entities of the output gives back the original title |
| `Escape.EscapeHtmlInjective` | src/server.ts:106-112 | two different titles never escape to the same text |
| `Escape.AmpersandLastWouldDoubleEscape` | src/server.ts:107-111 | for each of `<`, `>` and `"`, running the `&` pass after that character's pass would turn its entity into `&amp;lt;`, `&amp;gt;` or `&amp;quot;`, which differs from what `escapeHtml` writes: putting `&` first is what prevents double escaping |
| `Escape.EntityInTitleShownLiterally` | src/server.ts:107-111 | any of the four entities typed in the title is escaped once, its `&` becoming `&amp;` and the rest kept (`&lt;` gives `&amp;lt;`), so it is shown literally |
| `Document.Stylesheet` | src/server.ts:89 | `baseCss + (customCss ?? "")`: the base rules are a prefix, followed by the custom rules, or by nothing when they are absent |
| `Document.BuildHtml` | src/server.ts:83-104 | total; the document opens with the fixed head (doctype, `<html>`, `<head>`, charset, `<title>`) and ends with the closing body and html markup |
| `Document.TitleElementReadsBack` | src/server.ts:96 | the escaped title stands right after `<title>` and right before `</title>`; the text after `<title>` up to the next tag is exactly the escaped title, and unescaping it gives the title back |
| `Document.BuildHtmlTitleInjective` | src/server.ts:96 | documents built from different titles differ |
| `Document.StyleElementBaseThenCustom` | src/server.ts:89-97 | right after `<style>` come the base rules, then the custom rules (or nothing), then the template's `</style>`; the rules are inserted as text, unescaped |
| `Document.BodyInsertedVerbatim` | src/server.ts:99-101 | the body fragment appears unchanged right after the opening body tag and right before the closing markup |
| `Convert.Status` | src/server.ts:21-41 | every response is 200, 400 or 500, and 200 exactly for a PDF |
| `Convert.ConvertDocument` | src/server.ts:57-62 | the document given to the browser begins with the fixed head |
| `Convert.ConvertMarkdownToPdf` | src/server.ts:49-81 | succeeds exactly when parsing succeeds and rendering the assembled document succeeds, and then returns the rendered bytes |
| `Convert.HandleConvert` | src/server.ts:9-42 | the status is 400 exactly when `markdown` is missing or empty |
| `Convert.MissingMarkdownRejected` | src/server.ts:21-24 | missing or empty `markdown` gives 400 with `Markdown content is missing`, and the response does not depend on the parser or browser (no conversion is attempted) |
| `Convert.ConvertSucceeds` | src/server.ts:26-37 | with markdown present, a PDF comes back exactly when parse and render succeed; it is the render of the document built with title-or-`Resume`, empty base css and the request's css |
| `Convert.ConvertFailureIsGeneric` | src/server.ts:38-41 | a 500 occurs exactly when markdown is present and parsing or rendering fails; its body is always `Error converting Markdown to PDF` |
| `Convert.RequestDocumentTitle` | src/server.ts:28-33 | `title \|\| "Resume"`: the title of the rendered document reads back as the request's title, or `Resume` when it is missing or empty |
| `Convert.RequestDocumentStyle` | src/server.ts:26-33 | between `<style>` and the template's `</style>` stands exactly the request's css, or nothing when it is absent |
| `Convert.RequestDocumentBody` | src/server.ts:55-62 | the parsed fragment is the document's body, unescaped |

## Left out

- `marked.parse` (src/server.ts:55) is the external Markdown library. Here it is the parameter `parse`, a function that may fail. Its HTML output is not modelled.
- The headless browser (src/server.ts:64-80) is the parameter `render`, a function that may fail. It covers the launch, loading with `networkidle0`, and `pdf` with `printBackground`. Closing the browser in `finally` on every path is a resource guarantee of the runtime, and is not modelled.
- Express wiring, the 1 MB JSON body limit, the `Content-Type` and `Content-Disposition` headers, `res.send`, the `PORT` lookup, `app.listen` and `console` logging (src/server.ts:1-7, 35-37, 44-47) are I/O plumbing. The response is modelled as its kind, status and body only.
- JSON field values that are not strings (a number for `markdown`, say) and a request with no parsed body are not modelled. Every field is either an absent or a present string.
- Exceptions thrown by Express itself inside the `try` block are not modelled. Only failures of parsing and rendering map to the 500 response.
- Asynchrony and concurrent requests are not modelled. Each request is independent, and the model is one request at a time.
- src/index.ts, the command-line entry point, only resolves and logs a path. It has no conversion logic and is not part of this model.
- The css is inserted unescaped (src/server.ts:89, 97). The model proves where it stands in the text, not how a browser parses it: css containing `</style>` closes the style element early, and what follows is read as markup. The title, which is escaped, cannot do this.
- Strings are sequences of Unicode scalar values, while JavaScript strings are UTF-16 code units, so a lone surrogate from the JSON body cannot be represented. No behaviour of `escapeHtml` depends on this, because the four escaped characters are ASCII.
