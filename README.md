# Portfolio page script: a Dafny model

This project models the behaviour of `script.js`, the script behind a
personal portfolio page. The page lists projects read from a JSON data
file, lets the visitor filter them by technology, shows details of a
project in a modal with an image carousel, and sends a contact message
through a WhatsApp link. The model covers six parts of the script:

- **The projects section** (`renderProjetos`, `toggleVerMais`, the cache
  assignment in `fetchProjetos`). This is a class `ProjectsSection` with
  the page-wide project cache and "show all" flag. Its methods are proved
  against `Selected`, a function of the cache, the normalized filter and
  the flag. Lemmas state what `Selected` is:
  - with no filter, the first three featured projects or the first three
    projects, in list order;
  - with a filter, exactly the matching projects, at their positions;
  - with no filter and "show all" on, the whole list.
- **The text derived from a project.** This covers the card summary
  (`gerarResumoCurto`), with its first-sentence split and its word-boundary
  truncation; the modal description (`obterDescricaoModal`); and the
  technology line.
- **HTML escaping** (`escapeHtml`). The five sequential replacements are
  proved equal to a one-pass, per-character escape. The escaped text is
  proved inert (no raw markup, and every `&` begins an entity). A reference
  unescaper is proved to recover the input.
- **The modal.** This is a class `ProjectModal` holding the carousel state,
  the image and counter shown, the control visibility and the texts. It
  covers:
  - image collection (`coletarImagensProjeto`), as a loop proved against
    a filter over the image fields;
  - the carousel index arithmetic, with JavaScript's truncating `%` written
    out and proved to wrap correctly at both ends;
  - opening and closing, and the special project `sisvac` whose hosting
    link stays hidden;
  - the backdrop click and the keyboard handler.
- **The WhatsApp link** (`enviarWhats`). This covers trimming, the
  blank-field rejection, and `encodeURIComponent` (UTF-8 as in RFC 3629,
  percent-encoding as in section 2.1 of RFC 3986). A reference decoder is
  proved to give back the greeting text from the link.
- **Shared primitives.** These are ECMAScript whitespace, `trim`,
  `toLowerCase`, `includes`, decimal rendering and `join`.

Files:
- `seqs.dfy` — Option, order-preserving filter, subsequence embeddings.
- `text.dfy` — string primitives.
- `escape.dfy` — HTML escaping.
- `uri.dfy` — `encodeURIComponent` and its reference decoder.
- `project.dfy` — the project record.
- `project_text.dfy` — summary, modal description, technology line.
- `selection.dfy` — the projects section.
- `modal.dfy` — the modal.
- `contact.dfy` — the WhatsApp link.

## Model

| member | source | states |
|---|---|---|
| Seqs.Filter | script.js:184-190 | The kept elements all satisfy the predicate, and there are no more of them than in the input. |
| Seqs.FilterExact | script.js:196 | A filter result is the input read at exactly the positions whose elements satisfy the predicate, in increasing order. A position is read if and only if its element passes. |
| Seqs.FilterSnoc | script.js:328-333 | Filtering a list extended by one element extends the filtered list by that element exactly when it passes. |
| Seqs.FilterKeepsAll | script.js:337 | Filtering a list whose elements all pass returns the list unchanged. |
| Text.TrimSpec | script.js:12-13 | `trim` leaves a string that neither starts nor ends with whitespace, no longer than the input. It is empty exactly when the input is all whitespace. |
| Text.TrimStartSpec | script.js:12-13 | Leading-whitespace removal keeps a suffix of the input that does not start with whitespace. Every dropped character is whitespace. |
| Text.TrimEndSpec | script.js:12-13 | Trailing-whitespace removal keeps a prefix of the input that does not end with whitespace. Every dropped character is whitespace. |
| Text.TrimIdempotent | script.js:12-13 | Trimming twice is trimming once. |
| Text.TrimLowerCommute | script.js:167 | Trimming and lower-casing the filter commute. |
| Text.LowerChar | script.js:167 | The result is never a capital. A capital (ASCII A-Z, or a Latin-1 capital other than U+00D7) moves 32 code points up to its small letter. Every other character comes back unchanged. Whether a character is whitespace is kept. |
| Text.Lower | script.js:188 | Lower-casing keeps the length and leaves no capital behind. Non-capitals stay where they are, unchanged, and each capital becomes its small letter. |
| Text.Trim | script.js:12-13 | `String.prototype.trim`: leading, then trailing, whitespace removed. Its properties are stated by `Text.TrimSpec`. |
| Text.Contains | script.js:188 | `String.prototype.includes`. Its meaning is stated by `Text.ContainsIff`. |
| Text.Join | script.js:451 | `Array.prototype.join`. It is inverted by splitting, as `Text.SplitJoin` states. |
| Text.ContainsIff | script.js:188 | `includes` is true if and only if the substring occurs at some position (both directions). |
| Text.Decimal | script.js:351-353 | A counter number is rendered as at least one character, all of them decimal digits. A positive number has no leading zero, and 0 is "0". |
| Text.DecimalRoundTrip | script.js:351-353 | Reading a rendered number back gives the number. |
| Text.SplitJoin | script.js:451 | A non-empty list of comma-free names is recovered by splitting its ", "-join at the commas. |
| Escape.EscapeHtml | script.js:63-70 | The five global replacements, `&` first. Their combined effect is stated by `Escape.EscapeHtmlIsPerChar`, `Escape.EscapeHtmlInert` and `Escape.UnescapeEscapeHtml`. |
| Escape.EscapeHtmlIsPerChar | script.js:63-70 | The five sequential global replacements equal replacing every character by its own escape in one pass: the later passes never re-escape what the earlier ones produced. |
| Escape.EscapeHtmlConcat | script.js:63-70 | Escaping a concatenation concatenates the escapes. |
| Escape.EscapeHtmlChar | script.js:63-70 | On a single character, the five passes give that character's escape. |
| Escape.EscapeHtmlInert | script.js:63-70 | Escaped text contains no `<`, `>`, `"` or `'`, and every `&` in it begins one of the five entities. |
| Escape.EscapeHtmlPlain | script.js:63-70 | Text with none of the five special characters is returned unchanged. |
| Escape.UnescapeEscapeHtml | script.js:63-70 | Escaping loses nothing: the reference unescaper recovers the original text. |
| Escape.InertConcat | script.js:63-70 | Inert text followed by inert text is inert. |
| Uri.EncodeUriComponent | script.js:21 | Every character of the encoding is unreserved, `%` or an upper-case hexadecimal digit. |
| Uri.EncodeChar | script.js:21 | One character as `encodeURIComponent` writes it: an unreserved character as itself, any other as its UTF-8 bytes in `%XY` form. |
| Uri.Utf8Char | script.js:21 | A character is encoded as one to four bytes, and as exactly one byte if and only if it is ASCII. |
| Uri.DecodeEncode | script.js:21 | The reference decoder (percent-decoding, then UTF-8 decoding) recovers the encoded text. |
| Uri.PercentDecodeEncode | script.js:21 | Percent-decoding an encoding gives the UTF-8 bytes of the text. |
| Uri.Utf8RoundTrip | script.js:21 | UTF-8 decoding inverts UTF-8 encoding. |
| Uri.Utf8DecodeChar | script.js:21 | One encoded character is decoded back off the front of a byte sequence, for each encoded length. |
| Uri.EncodeConcat | script.js:21 | The encoding works character by character: it distributes over concatenation. |
| Uri.EncodeAcuteA | script.js:20-21 | The `á` of the greeting is sent as `%C3%A1`. |
| ProjectText.FirstBoundary | script.js:81 | The returned position is the first sentence boundary (a terminator followed by whitespace) at or after the start, or the end of the text. |
| ProjectText.FirstSentence | script.js:81-82 | The first piece of the split is a prefix ending at the first boundary, or the whole text. It is non-empty for non-empty text. |
| ProjectText.CutLastRun | script.js:86 | Cutting at the last whitespace run leaves a strict prefix that does not end in whitespace. What is cut off is whitespace followed by non-whitespace only. |
| ProjectText.DropTrailingWord | script.js:86 | `replace(/\s+\S*$/, "")` yields a prefix. It removes a trailing whitespace run with the partial word after it, and leaves text without whitespace unchanged. |
| ProjectText.DropTrailingWordLeftmost | script.js:86 | No position before the cut starts a match of `\s+\S*$`, so the cut is where the regular expression matches. |
| ProjectText.TruncatedIsWordCut | script.js:84-92 | Truncating the first 140 characters of a description that starts with a non-space gives its word cut. The word cut is those characters cut where their last whitespace run starts, or all of them when they hold no whitespace. It is never empty. |
| ProjectText.WordCutUnique | script.js:84-92 | A description has at most one word cut, so the cut summary is fully determined. |
| ProjectText.TruncatedSummary | script.js:84-92 | A truncated summary is the word cut of the description followed by "...", at most 143 characters. |
| ProjectText.DescriptionSummary | script.js:77-95 | The summary taken from a non-blank trimmed description. Its cases are stated by `ProjectText.DescriptionSummarySpec`. |
| ProjectText.DescriptionSummarySpec | script.js:80-95 | There are two cases. (1) The first sentence is shorter than 30 characters and the description is longer than 140, or the first sentence is longer than 140: the summary is the word cut of the description followed by "...". (2) Otherwise the summary is the first sentence, of at most 140 characters. |
| ProjectText.ShortSummary | script.js:73-96 | `gerarResumoCurto`. Its cases are stated by `ProjectText.ShortSummarySpec`. |
| ProjectText.ShortSummarySpec | script.js:73-96 | Covers every branch of the card summary. A missing project gives "". A non-blank `resumo` gives it trimmed. Both fields blank give "". Otherwise the trimmed description gives the summary, with the two cases of `ProjectText.DescriptionSummarySpec`. |
| ProjectText.ShortSummaryPrefersResumo | script.js:75 | A project whose `resumo` is "X" gets "X", whatever its description. |
| ProjectText.ModalDescription | script.js:313-322 | `obterDescricaoModal`. Its cases are stated by `ProjectText.ModalDescriptionSpec`. |
| ProjectText.ModalDescriptionSpec | script.js:313-322 | The modal description is never empty, and it starts and ends with a non-space. It is the trimmed detailed description when that is non-blank, else the trimmed description when non-blank, else "Sem descrição.". |
| ProjectText.TechText | script.js:449-452 | The technology line. Its meaning is stated by `ProjectText.TechTextRoundTrip`. |
| ProjectText.TechTextRoundTrip | script.js:449-452 | The technology line is the dash for a missing or empty list. For a non-empty list it is the dash only when the list's join is itself the dash (as for the list `["—"]`), never when a name holds a comma, and for names without commas splitting the line gives the list back. |
| Selection.NormalizeFilter | script.js:166-167 | The filter box's value, trimmed and lower-cased. `Selection.FilterIgnoresCase` states that its case does not matter. |
| Selection.MatchesTech | script.js:186-188 | A project matches when its technologies are a list and one of them, lower-cased, contains the filter. |
| Selection.ByTechnology | script.js:184-190 | The matching projects, in list order. Stated exactly by `Selection.FilteredSelection`. |
| Selection.Capped | script.js:195-201 | The default cap. Stated by `Selection.CappedSelection`. |
| Selection.Selected | script.js:182-201 | The list a render shows. Its cases are stated by `Selection.CappedSelection`, `Selection.FilteredSelection` and `Selection.ShowAllSelection`. |
| Selection.CappedSelection | script.js:193-201 | With no filter and "show all" off, at most three projects are shown, as a subsequence of the list. If at least three are featured, they are the first three featured, all featured. Otherwise they are the first three of the list. |
| Selection.FilteredSelection | script.js:184-190 | With a filter, exactly the projects that list a technology containing the filter are shown, in list order and at their positions, whatever the flag. The flag is off afterwards. |
| Selection.ShowAllSelection | script.js:193 | With no filter and "show all" on, the whole list is shown unchanged. |
| Selection.FilterIgnoresCase | script.js:167 | Typing the filter in any case selects the same projects. |
| Selection.ProjectsSection.constructor | script.js:28-29 | The cache starts empty and "show all" off. |
| Selection.ProjectsSection.Load | script.js:38-39 | A list payload replaces the cache, and anything else empties it. The section is then rendered as `Render` states. |
| Selection.ProjectsSection.Render | script.js:160-212 | Without the container nothing is shown and the flag is left alone. Otherwise the list shown is `Selected` of the cache, the trimmed lower-cased filter and the flag, and the flag stays on only if it was on and there is no filter. Nothing else changes. |
| Selection.ProjectsSection.ToggleShowMore | script.js:215-223 | Flips the flag, then renders with the flipped flag. Without the container only the flip happens. |
| Modal.CandidateSlots | script.js:328-333 | The image fields are inspected in the order `imagem`, `imagem2` … `imagem10`. |
| Modal.CollectedImages | script.js:325-338 | The images of a project. Stated by `Modal.CollectedImagesFacts` and `Modal.CollectedImagesPresent`. |
| Modal.CollectedImagesFacts | script.js:325-338 | A field position is collected if and only if its field is present. When some image field is present, the collected images are exactly the present fields, in field order. Otherwise they are the thumbnail alone, or nothing when it is absent. |
| Modal.CollectedImagesPresent | script.js:325-338 | At most ten images are collected, and none is empty. |
| Modal.CollectImages | script.js:325-338 | The loop over `imagem2` to `imagem10`, the thumbnail fallback and the final filter compute the collected images. |
| Modal.JsRem | script.js:342-344 | JavaScript's `%`: the remainder of division truncated toward zero. It has the sign of the dividend and is smaller than the divisor in magnitude. |
| Modal.WrapIndex | script.js:342-344 | The carousel index arithmetic `((k % n) + n) % n`. Stated by `Modal.WrapIsModulo`. |
| Modal.WrapIsModulo | script.js:342-344 | `((k % n) + n) % n`, with truncating `%`, is the mathematical remainder of `k` by `n`, always in `[0, n)`. |
| Modal.StepsWrap | script.js:357-365 | Next moves one image on and wraps from the last to the first. Previous moves one back and wraps from the first to the last. Each undoes the other. |
| Modal.CounterText | script.js:351-353 | The counter text "{i + 1} / {n}". Its digits are stated by `Text.Decimal`. |
| Modal.IsSentinel | script.js:376 | The project id, lower-cased, is "sisvac". Stated by `Modal.SentinelIgnoresCase`. |
| Modal.SentinelIgnoresCase | script.js:376 | The sentinel rule ignores case, matches only six-letter ids, and holds for "SisVac" but not "sisvac2". |
| Modal.SingleImage | script.js:396-399 | The single image: the first collected image, else the thumbnail, else the placeholder. Stated by `Modal.SingleImageSource`. |
| Modal.SingleImageSource | script.js:396-400 | Without a carousel the modal shows the one collected image, else the placeholder, never an empty source. |
| Modal.DescriptionHtml | script.js:446-447 | The escaped description in a paragraph. Stated by `Modal.DescriptionHtmlFacts`. |
| Modal.DescriptionHtmlFacts | script.js:446-447 | The description block is a paragraph whose content is inert and unescapes to the modal description. |
| Modal.TextOf | script.js:422-454 | The texts and links an opened modal shows. Stated by `Modal.TextOfFacts`. |
| Modal.TextOfFacts | script.js:422-454 | Only the sentinel project hides its hosting link and keeps the previous one, which may be empty. The repository link, the title and the hosting link of a project that is not the sentinel are never empty, and a present value is shown as given. The description and technology line are as specified. |
| Modal.ProjectModal.constructor | script.js:226-242 | The modal starts closed with an empty carousel. |
| Modal.ProjectModal.ShowIndex | script.js:340-355 | With the elements bound and a non-empty carousel, shows image `k % n` and the counter for it. Otherwise nothing changes. |
| Modal.ProjectModal.Next | script.js:357-360 | Moves to the next image, wrapping to the first, and keeps the modal's invariant. With an empty carousel nothing changes. |
| Modal.ProjectModal.Previous | script.js:362-365 | Moves to the previous image, wrapping to the last, and keeps the modal's invariant. With an empty carousel nothing changes. |
| Modal.ProjectModal.SetImages | script.js:374-415 | With two or more images: a carousel over them starting at the first, with controls shown. Otherwise: no carousel, the single image or the placeholder, and controls hidden. |
| Modal.ProjectModal.Open | script.js:370-466 | Without the modal's elements nothing changes. Otherwise the modal is shown with the project's images and texts, keeps its invariant, and for the sentinel project keeps the previous hosting link. |
| Modal.ProjectModal.Close | script.js:471-481 | Hides the modal and clears the carousel and its styling. Without the elements nothing changes. |
| Modal.ProjectModal.Click | script.js:272-275 | A click on the backdrop closes the modal. A click on the content changes nothing. |
| Modal.ProjectModal.KeyDown | script.js:281-299 | Escape closes an open modal, leaving the image and the counter as they were. The arrow keys step an open carousel of two or more images with wrap-around. Any other key, or a closed modal, changes nothing. |
| Contact.Greeting | script.js:20 | The message text before encoding. Its recovery from the link is stated by `Contact.WhatsAppLink`. |
| Contact.WhatsAppLink | script.js:7-22 | No link exactly when a field is missing or blank after trimming. Otherwise the link is the fixed `wa.me` prefix for the phone number followed by only URI-safe characters, which decode to "Olá, me chamo {name}. {message}" for the trimmed fields. |
| Contact.TrimmedFieldsSameLink | script.js:12-13 | Only the trimmed field values matter for the link. |

## Left out

- `fetchProjetos`: the network request, the status check, the JSON parse and the error message written to the page are I/O. Only the cache assignment and the render after it are modelled (`Load`). `Load` takes the parsed payload as an Option: None stands for "not an array".
- Project values that are not strings: the record fields are strings, with "" standing for an absent or falsy value. The JavaScript truthiness of numbers or objects in those fields is not modelled.
- `criarCard`, `criarTagTecnologias`, `limparContainer` and all DOM construction: `Render` returns the list of projects to render instead of building cards.
- The "Nenhum projeto encontrado." placeholder, the "Ver mais"/"Ver menos" label, `aria-pressed`, `aria-hidden`, `alt` texts, `tabindex` and focus handling are DOM and accessibility detail, outside the model's state.
- `bindModalElements`: the single `bound` flag stands for all the modal's elements being found. Each `if (modal.x)` guard on an optional element is taken as true.
- The second `isSisvac` test (script.js:434-440) has empty branches and is not modelled.
- `alert` and `window.open` are effects. `WhatsAppLink` returns None for the alert path and the URL for the opened link.
- `Text.LowerChar`: lower-casing covers ASCII and Latin-1 capitals only. Other Unicode case mappings of `toLowerCase` are not modelled.
- `ShortSummary` measures and cuts text in Unicode characters, while `.length` and `slice(0, 140)` count UTF-16 code units. Text with characters outside the Basic Multilingual Plane, such as emoji, is cut later in the model than on the page: 100 emoji are 200 units long and are cut on the page, but not in the model. A cut that splits a surrogate pair cannot occur in the model.
- `Text.IsSpace` is the ECMAScript whitespace set as a fixed list of code points. Strings are sequences of Dafny characters (Unicode scalar values), so lone UTF-16 surrogates, which `encodeURIComponent` rejects, cannot occur in the model.
- `Uri.EncodeAcuteA` is the only concrete encoding example proved. A full concrete link for a sample name and message is not stated.
- The `sisvac` comparison uses `String(p.id)`. Ids are modelled as strings, so a numeric id is not covered.
