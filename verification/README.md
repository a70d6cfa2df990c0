# ReadItLater: note construction for web pages

This project models how the ReadItLater plugin for Obsidian turns a captured
web page into a note. The model covers the website parser's string work and
the configuration record it reads its templates from.

- **Which branch.** The parser asks the readability extraction for an article.
  - A result that is present and has non-empty content gives a *readable-article* note.
  - Anything else gives a *nonreadable-article* note.
- **Readable article.**
  - An empty title falls back to `No title`.
  - The HTML content goes through the HTML-to-markdown converter.
  - The user's template is rendered by three global replacements, in this order: every `%articleTitle%`, then every `%articleURL%`, then every `%articleContent%`.
  - The file name is the title followed by `.md`.
- **Nonreadable article.**
  - Only the first `%articleURL%` of the template is replaced.
  - The file name is `Article (<date>).md`.
- **Configuration.** A record of 33 entries. The defaults are those of a fresh installation.

Modules:

- `Replace`: literal substring replacement with the semantics of JavaScript's `String.prototype.replace`.
  - `ReplaceAll` is the `/pat/g` form. It scans left to right, its matches never overlap, and it never rescans replaced text.
  - `ReplaceFirst` is the plain-string form.
  - Both are related to an index-based description of occurrences (`OccursAt`, `FirstAt`, `Absent`).
- `Settings`: the `ReadItLaterSettings` record and `DefaultSettings()`.
- `WebsiteParser`:
  - the extraction result (`Option<Article>`) and the `Note` it becomes;
  - `Test`;
  - the two renderers, `ParsableArticle`, `NotParsableArticle` and `PrepareNote`.
- `DefaultTemplates`: what the two default article templates render to.
  - Each default template is a fixed markdown frame around placeholder slots.
  - The frame contains no `%` and no letters at its ends, so each replacement pass works slot by slot.

The nonreadable-article note replaces a single occurrence of its URL
placeholder (`src/parsers/WebsiteParser.ts:61`), although its default
template uses that placeholder twice. `PrepareNote` follows the code; see
"Findings".

## Model

| member | source | states |
|---|---|---|
| Replace.ReplaceFirstAt | src/parsers/WebsiteParser.ts:61 | Replacing a string pattern changes exactly the leftmost occurrence. The text before it and after it is kept. |
| Replace.ReplaceFirstAbsent | src/parsers/WebsiteParser.ts:61 | A template without the pattern is returned unchanged by the single replacement. |
| Replace.ReplaceFirstSkip | src/parsers/WebsiteParser.ts:61 | No occurrence can start inside a prefix free of the pattern's first character, so the search skips over it. |
| Replace.ReplaceFirstAfterPrefix | src/parsers/WebsiteParser.ts:61 | After such a prefix, the occurrence that follows is the one replaced. Everything after it stays literal. |
| Replace.ReplaceAllAbsent | src/parsers/WebsiteParser.ts:49-52 | A global replacement leaves a string without the pattern unchanged. |
| Replace.ReplaceAllFirst | src/parsers/WebsiteParser.ts:49-52 | A global replacement replaces the leftmost occurrence and then resumes right after it. Nothing before the match changes, and replaced text is not rescanned. |
| Replace.ReplaceAllIsFirstWhenSingle | src/parsers/WebsiteParser.ts:49-52 | The global and single replacements agree when no occurrence follows the first one. |
| Replace.ReplaceAllLength | src/parsers/WebsiteParser.ts:49-52 | Each replaced match changes the length by the difference between the replacement and pattern lengths. |
| Replace.CountAbsent | src/parsers/WebsiteParser.ts:49-52 | A string without the pattern has no matches. |
| Replace.ReplaceAllJoin | src/parsers/WebsiteParser.ts:49-52 | A global replacement distributes over a concatenation that no match can straddle. |
| Replace.CountJoin | src/parsers/WebsiteParser.ts:49-52 | Match counts add up over such a concatenation. |
| Replace.UntouchedPrefix | src/parsers/WebsiteParser.ts:49-52 | Output positions holding no replacement character are the input's own characters. |
| Replace.ReplaceAllRemovesAll | src/parsers/WebsiteParser.ts:49-52 | A non-empty replacement that shares no character with the pattern leaves no occurrence behind. |
| Replace.ReplaceAllCanRecreate | src/parsers/WebsiteParser.ts:49-52 | Without that side condition an occurrence can survive. Removing `%x%` from `%%x%x%` leaves `%x%`. |
| Settings.DefaultSettings | src/settings.ts:37-72 | The assets directory is the inbox directory plus `/assets`. Every download toggle is on and every own-folder toggle is off, for images, Mastodon and Stack Exchange. The readable title template is `%title%` and the nonreadable one is `Article %date%`. |
| WebsiteParser.Test | src/parsers/WebsiteParser.ts:20-22 | The parser accepts exactly the URLs the shared URL check accepts. |
| WebsiteParser.DefaultTitle | src/parsers/WebsiteParser.ts:46 | An empty title becomes `No title`; any other title is kept unchanged. The result is never empty. |
| WebsiteParser.ParsableArticle | src/parsers/WebsiteParser.ts:45-56 | The readable file name is the defaulted title followed by `.md`. |
| WebsiteParser.NotParsableArticle | src/parsers/WebsiteParser.ts:58-65 | The nonreadable file name is `Article (` + date + `).md`. The body is the template with its first URL placeholder replaced. |
| WebsiteParser.PrepareNoteBranches | src/parsers/WebsiteParser.ts:40-42 | A present result with non-empty content gives the titled note over the converted content. A missing result, or empty content, gives the date-stamped note. |
| WebsiteParser.EmptyContentIsNotReadable | src/parsers/WebsiteParser.ts:40-42 | An article with empty content yields the same note as no article, whatever its title. |
| WebsiteParser.EmptyTitleIsReadable | src/parsers/WebsiteParser.ts:40-46 | An article with content but no title is still readable and is filed as `No title.md`. |
| WebsiteParser.PrepareNoteDependencies | src/parsers/WebsiteParser.ts:40-42 | The nonreadable note does not depend on the converter. The readable note does not depend on the date. |
| WebsiteParser.NotParsableFileNameIgnoresUrl | src/parsers/WebsiteParser.ts:63 | The nonreadable file name does not depend on the URL. |
| WebsiteParser.PlaceholderNotInPlaceholder | src/parsers/WebsiteParser.ts:50-52 | Two distinct `%name%` placeholders never occur inside one another. |
| WebsiteParser.ArticlePlaceholders | src/parsers/WebsiteParser.ts:50-52 | None of the three article placeholders occurs inside another. |
| WebsiteParser.RenderParsableWithoutPlaceholders | src/parsers/WebsiteParser.ts:49-52 | A template without the three placeholders renders to itself. |
| WebsiteParser.RenderParsableKeepsOtherPlaceholder | src/parsers/WebsiteParser.ts:49-52 | Any `%name%` placeholder other than the three article placeholders renders to itself. |
| WebsiteParser.RenderParsableKeepsUnknownPlaceholders | src/parsers/WebsiteParser.ts:49-52 | `%date%`, `%author%`, `%siteName%` and `%articleReadingTime%` stay literal in the readable body. |
| WebsiteParser.RenderNotParsableKeepsDate | src/parsers/WebsiteParser.ts:61 | `%date%` stays literal in the nonreadable body. |
| WebsiteParser.RenderParsableTitleBeforeUrl | src/parsers/WebsiteParser.ts:49-52 | Substitution order: a title that is the URL placeholder turns into the URL, with the URL's own content placeholders then filled. |
| WebsiteParser.RenderParsableContentVerbatim | src/parsers/WebsiteParser.ts:49-52 | The converted content, substituted last, appears verbatim even when it contains placeholders. |
| WebsiteParser.RenderParsableIsGlobal | src/parsers/WebsiteParser.ts:49-52 | A template holding the title placeholder twice gets the rendered title twice. |
| WebsiteParser.RenderNotParsableFirstOnly | src/parsers/WebsiteParser.ts:61 | Nonreadable rendering replaces the leftmost URL placeholder and keeps every later one literal. |
| DefaultTemplates.DefaultParsableTemplate | src/settings.ts:50 | The default readable template is a markdown frame with the title, URL and content placeholders in its three slots. |
| DefaultTemplates.DefaultNotParsableTemplate | src/settings.ts:52 | The default nonreadable template has the URL placeholder as both link text and link target. |
| DefaultTemplates.DefaultParsableCounts | src/settings.ts:50 | The default readable template holds each of its three placeholders exactly once. |
| DefaultTemplates.DefaultNotParsableCount | src/settings.ts:52 | The default nonreadable template holds the URL placeholder exactly twice. |
| DefaultTemplates.RenderDefaultParsable | src/parsers/WebsiteParser.ts:49-52 | The rendered default readable template has the title in the link text, the URL as the link target and the content after them. Each slot gets only the substitutions that come after its own. |
| DefaultTemplates.RenderDefaultNotParsable | src/parsers/WebsiteParser.ts:61 | The rendered default nonreadable template links the URL's text to a literal `%articleURL%` target. |
| DefaultTemplates.RenderDefaultNotParsableLeavesOne | src/parsers/WebsiteParser.ts:61 | Exactly one more URL placeholder is left than the URL itself contains. |
| DefaultTemplates.ReplaceAllDefaultNotParsable | src/settings.ts:52 | A global replacement would fill both the link text and the link target. |
| DefaultTemplates.DefaultNotParsableDiverges | src/parsers/WebsiteParser.ts:61 | The single and global replacements give the same default nonreadable note only for the URL that is the placeholder itself. |
| DefaultTemplates.DefaultNotParsableKeepsPlaceholder | src/parsers/WebsiteParser.ts:61 | Every default nonreadable note still contains a URL placeholder. |
| DefaultTemplates.DefaultNotParsableGlobal | src/settings.ts:52 | Global rendering of the default nonreadable template, with a URL free of `%`, links the URL to itself and leaves no placeholder. |
| DefaultTemplates.DefaultReadableNote | src/parsers/WebsiteParser.ts:40-56 | With the defaults, a readable page whose title and URL contain no `%` becomes `<title>.md`. Its body is the frame linking the title to the URL, followed by the content converted against the default assets directory. |
| DefaultTemplates.DefaultUnreadableNote | src/parsers/WebsiteParser.ts:40-65 | With the defaults, an unreadable page becomes `Article (<date>).md`. Its body links the URL's text to a literal `%articleURL%` target. |

## Left out

- The HTTP request, DOM parsing, the `<base>` element, sanitizing, the readerability heuristic and the readability extraction (`src/parsers/WebsiteParser.ts:25-38`) are I/O and foreign libraries. Their combined outcome is the `Option<Article>` argument of `PrepareNote`.
- The HTML-to-markdown converter (`parseHtmlContent`) downloads assets and is not part of this model. It is the `convert` parameter, applied to the article's HTML and the assets directory.
- `PrepareNote`: always returns a note. In the plugin a failed request (`src/parsers/WebsiteParser.ts:25`) or a failing conversion (`src/parsers/WebsiteParser.ts:47`) rejects the whole operation and no note is created; these failures are outside the model, which describes only the runs in which the page was fetched and its content converted.
- The URL check (`isValidUrl`) and the file-name date formatter live in the parser base class, which is not part of this model. They are a predicate parameter of `Test` and a date-string parameter.
- `Test`: states only that the parser defers to the URL check, because that check's definition is not part of this model.
- The notice shown for pages that are probably not readerable, and the error logged on the nonreadable path, are side effects without influence on the note.
- JavaScript's `$&`, `$1` and `$$` replacement patterns are not interpreted. `ReplaceAll` and `ReplaceFirst` insert the replacement text literally. A title, URL or content containing `$` may therefore render differently in the plugin.
- Strings are sequences of characters. Neither UTF-16 code units nor Unicode normalisation are modelled.
- The title templates (`parseableArticleNoteTitle`, `notParseableArticleNoteTitle`) are part of the record but are not read by the website parser: its file names are fixed.
- The settings screen (`src/views/settings-tab.ts`) is user interface only. It lists `%date%`, `%author%`, `%siteName%` and `%articleReadingTime%` among the readable template's variables, and `%date%` for the nonreadable one. This parser leaves all of them literal (`RenderParsableKeepsUnknownPlaceholders`, `RenderNotParsableKeepsDate`).
- The other parsers and the dispatcher that chooses among them are not part of this model.

## Findings

| source | as written | input that shows it | evidently intended | confidence | as-written member | corrected member |
|---|---|---|---|---|---|---|
| src/parsers/WebsiteParser.ts:61 | The nonreadable note replaces only the first `%articleURL%`. The default nonreadable template uses it twice (`src/settings.ts:52`), so the default note links to the literal target `%articleURL%`. | any URL, e.g. `https://example.com/a`, with the default settings | every placeholder replaced, so the link points to the URL: the default template puts `%articleURL%` in both the link text and the link target (`src/settings.ts:52`), the readable note replaces every occurrence of its placeholders (`src/parsers/WebsiteParser.ts:50-52`), and the settings screen offers `%articleURL%` as a variable of the nonreadable template (`src/views/settings-tab.ts:481`) | medium, not executed | DefaultTemplates.DefaultNotParsableKeepsPlaceholder | DefaultTemplates.DefaultNotParsableGlobal |

The as-written behaviour is `WebsiteParser.RenderNotParsable`. The corrected
rendering is `WebsiteParser.RenderNotParsableGlobal`. `PrepareNote` keeps the
code's single replacement, because it models what the plugin produces.
