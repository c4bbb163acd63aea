# Resolution renderer — a Dafny model

This project models the text pipeline of the `resolution` tool. The tool turns a UN-style
resolution, written as markdown with a front-matter block, into a laid-out PDF page.

- **Front matter.** `extractFrontMatter` cuts the `---` block off the top of the text, and
  `parseFrontMatter` reads its `key: value` lines into a record.
- **Body blocks.** `parseContent` classifies each body line as a heading, a preambular clause,
  an operative clause, a bullet, an empty line or a paragraph.
- **Text helpers.** `formatText` strips emphasis stars. `splitTextToLines` wraps text greedily.
  `splitIntoTwoLines` breaks a committee name at the space nearest its middle.
- **Emphasis.** `parseMarkdownToSegments` cuts a line into styled segments with a six-way
  regular expression. Here it is written as an explicit scanner.
- **Paragraph layout.** `renderMarkdownParagraph` cuts segments into words and whitespace runs,
  fills lines greedily, and moves the vertical cursor. It starts a new page when the cursor
  passes the page limit.
- **Header and body.** `addHeader` shrinks the committee name to fit or breaks it in two, then
  places the countries, the title and the article line. `addSection`, `addContent` and
  `createPdfDocument` move the cursor down the page and insert page breaks.
- **Small tables.** The committee table with its Security Council fallback, and the
  image-type helpers (extension, MIME type, supported check).
- **Legacy parser.** The front-matter parser of the older `main.js` preview, with its
  defaulting of missing fields to `""`.

The page surface is abstract:
- Text widths come from an uninterpreted oracle, `Measure`.
- Painting is a trace of `Text` and `NewPage` events.
- The cursor is a `real` value threaded through the layout functions.

For the paragraph layout, a functional specification (`Greedy` line filling plus `Place`
vertical placement) sits next to a method that follows the source's single loop. The method is
proved to produce the same events and final cursor as the specification.

Modules: `Wrappers`, `Strings` (the JavaScript string operations used), `Types`,
`FrontMatter`, `Emphasis`, `Flow`, `Blocks`, `Wrap`, `Committees`, `Header`, `Sections`,
`ImageTypes`, `Legacy`.

## Model

| member | source | states |
|---|---|---|
| FrontMatter.SplitFrontMatter | src/MarkdownParser.ts:19-20 | Success means the text is `---\n`, the front matter, `\n---\n`, and the content. No closing delimiter starts inside the front matter (the lazy match). There is no match exactly when the text does not open with `---\n` or has no later `\n---\n`. |
| FrontMatter.FrontMatterRoundTrip | src/MarkdownParser.ts:19-26 | Wrapping front matter and content in the delimiters, then splitting again, gives them back, provided the front matter cannot close the block early. |
| FrontMatter.ExtractFrontMatter | src/MarkdownParser.ts:15-30 | Fails with "Invalid markdown format - missing frontmatter" exactly when the opening line or a later closing line is missing. On success the text is rebuilt from the front matter and the content, the front matter ends at the first closing delimiter, and the metadata is the parse of the front matter. |
| FrontMatter.FieldOfAt | src/MarkdownParser.ts:37-41 | With `i` the first colon of a line: a line that starts with its colon defines nothing. Otherwise the key is the trimmed text before the colon. The value is the trimmed text after it, inner colons included. |
| FrontMatter.FieldOfNoColon | src/MarkdownParser.ts:37-38 | A line without a colon defines nothing. |
| FrontMatter.FieldOfInnerColon | src/MarkdownParser.ts:37-40 | `t: 10:30` maps `t` to `10:30`: inner colons survive. |
| FrontMatter.FieldOfIgnored | src/MarkdownParser.ts:38 | A line without a colon, and a line starting with a colon (empty key), define nothing. |
| FrontMatter.CollectKeys | src/MarkdownParser.ts:36-42 | A key is in the record exactly when some line defines it; keys that never appear are absent. |
| FrontMatter.CollectLast | src/MarkdownParser.ts:36-42 | A defined key holds the value of the last line that defines it: later duplicates overwrite earlier ones. |
| Emphasis.TryAlt | src/MarkdownParser.ts:65-66 | A result is a real match of that alternative. When the alternative matches at all, its unique match is the one found. |
| Emphasis.FirstMatch | src/MarkdownParser.ts:65-66 | From rank `k` on, returns the first alternative in pattern order that matches, and none when no alternative from `k` matches. |
| Emphasis.MatchAtSelects | src/MarkdownParser.ts:65-71 | At a position, the pattern selects the lowest-ranked alternative that matches (`***`, `**`, `*`, `__`, `_`, plain), and nothing when none matches. |
| Emphasis.NonMarkMatches | src/MarkdownParser.ts:66 | A position holding neither `*` nor `_` always starts a match (at least the plain run). |
| Emphasis.Tokenize | src/MarkdownParser.ts:62-132 | The pieces' raw texts concatenate to the line. Every match has a non-empty body free of the characters its alternative excludes. Every unmatched run is non-empty and made of `*` and `_` only. |
| Emphasis.TokenizeIsTheReading | src/MarkdownParser.ts:71-129 | A piece list reads the line the way the `exec` loop does, from position 0 with the pattern's selections, exactly when it is the tokenizer's output. |
| Emphasis.TokenizeFollowsPattern | src/MarkdownParser.ts:71-78 | Piece `i` starts where the earlier pieces' text ends. A matched piece is exactly what the pattern selects there. An unmatched run covers only positions where the pattern selects nothing, and it ends at the end of the line or where something is selected. |
| Emphasis.SegmentsStyles | src/MarkdownParser.ts:83-119 | No segment is empty. A `bolditalic` segment comes only from a `***x***` span whose body is the segment. |
| Emphasis.SegmentsDeleteOnlyMarks | src/MarkdownParser.ts:73-129 | The segments' text is the line with some `*` and `_` deleted and nothing else changed. |
| Emphasis.SegmentsOfEmpty | src/MarkdownParser.ts:124-131 | An empty line gives no segments. |
| Emphasis.SegmentsWithoutMarks | src/MarkdownParser.ts:103-106 | A non-empty line without `*` and `_` is one `normal` segment holding the whole line. |
| Emphasis.SegmentsPrecedence | src/MarkdownParser.ts:65-106 | `***a*** **b** *c* __d__ _e_` gives bolditalic a, bold b, italic c, bold d and italic e, with normal spaces between them. |
| Flow.Runs | src/MarkdownParser.ts:170-174 | The pieces of `split(/(\s+)/)` without the empty ones. They concatenate to the text, each is a non-empty run of only whitespace or only non-whitespace, and neighbours alternate. |
| Flow.RunsUnique | src/MarkdownParser.ts:170-174 | Any cut of the text into non-empty, uniform, alternating pieces is the one `Runs` gives. |
| Flow.TokensSpellSegments | src/MarkdownParser.ts:168-174 | The token texts, concatenated, are the segment contents concatenated. |
| Flow.TokensNonEmpty | src/MarkdownParser.ts:174 | Every token is a non-empty word or whitespace run. |
| Flow.GreedyLines | src/MarkdownParser.ts:184-215 | The lines spell the tokens in order, and no line is empty. A line of two or more tokens fits the maximum width, so only a single token can be over-long. Each line is full: the next line's first token would not have fitted on it. |
| Flow.PlaceSteps | src/MarkdownParser.ts:199-210 | Each line keeps its tokens, and the first sits at the start cursor. A page break follows a line exactly when the next cursor passes the limit. The line after a break sits at `startY`, any other one line height lower. The cursor ends one line height below the last line, and stays where it was when there are no lines. |
| Flow.PlaceWithinPage | src/MarkdownParser.ts:206-210 | Every line after the first is placed within the limit, or at `startY` right after a page break. |
| Flow.PlaceNoBreak | src/MarkdownParser.ts:199-210 | When no line before the last passes the limit, there is no page break and the cursor ends one line height per line lower. |
| Flow.LineEventsAt | src/MarkdownParser.ts:190-197 | Token `i` of a line is painted in its style at the left edge plus the widths of the tokens before it. |
| Flow.LayoutTokens | src/MarkdownParser.ts:164-231 | The source's loop (flush on overflow, page check after a flush, final line without a check) produces the events and cursor of the greedy-plus-placement specification. |
| Flow.Advance | src/MarkdownParser.ts:184-215 | One pass of the loop keeps the buffered line's width and fit invariant and leaves the eventual result unchanged. |
| Flow.Flush | src/MarkdownParser.ts:188-210 | Flushing a full line before a token that does not fit keeps the operations issued so far as a strict prefix. The cursor ends within the page or back at `startY`, and the eventual result is unchanged. |
| Flow.RenderParagraph | src/MarkdownParser.ts:147-237 | The whole paragraph renderer equals the specification `Render` (segments, then tokens, lines, placement). |
| Flow.LayoutPaintsTokens | src/MarkdownParser.ts:191-229 | The strings painted are the token texts in order, wherever the page breaks fall. |
| Flow.RenderPaintsText | src/MarkdownParser.ts:147-237 | The painted strings, concatenated, are the segment text: the markdown line with only emphasis markers removed. |
| Flow.RenderEmpty | src/MarkdownParser.ts:157-236 | An empty paragraph paints nothing and returns `startY`. |
| Flow.RenderOnOnePage | src/MarkdownParser.ts:199-230 | When all lines fit below `startY`, there is no new page and the cursor ends one line height per line lower. |
| Blocks.NumberedMeansPattern | src/pdfRenderer.ts:236 | The numbered test holds exactly when some non-empty run of leading digits is followed by a dot (`^\d+\.`). |
| Blocks.ClassifyWrittenAs | src/pdfRenderer.ts:216-256 | The trimmed line is the block written back out: heading markers `## ` or `# `, bullet markers `- ` or `* `, and the whole line for the other kinds. |
| Blocks.ClassifyFallThrough | src/pdfRenderer.ts:246-255 | A line gives `empty` exactly when it is blank. It gives a paragraph exactly when it is non-blank and no earlier test applies. |
| Blocks.ParseContent | src/pdfRenderer.ts:210-260 | One block per `\n`-separated line (line-breaks plus one), each the classification of its line, in order. |
| Blocks.HeadingBeforePreambular | src/pdfRenderer.ts:219-235 | `## **x**,` is a level-2 heading, not a preambular clause. |
| Blocks.BareHashesAreParagraph | src/pdfRenderer.ts:219-255 | A bare `##` is a paragraph. |
| Blocks.CloseFrom | src/pdfRenderer.ts:387 | The lazy body `(.*?)` closes at the first occurrence of the delimiter, and never across a line terminator. |
| Blocks.CloseFromNone | src/pdfRenderer.ts:387 | When no closing delimiter is found, every later delimiter lies past a line terminator. |
| Blocks.StripDeletesStars | src/pdfRenderer.ts:387 | Replacing star-delimited spans by their bodies only deletes stars. |
| Blocks.FormatTextDeletesStars | src/pdfRenderer.ts:386-388 | The formatted clause is the input with some `*` deleted and nothing else changed. |
| Blocks.FormatTextWithoutStars | src/pdfRenderer.ts:386-388 | A clause without stars is returned unchanged. |
| Wrap.WrapNoEmptyLine | src/pdfRenderer.ts:399-413 | No emitted line is empty. |
| Wrap.WrapEmpty | src/pdfRenderer.ts:395-415 | Empty text gives no lines. |
| Wrap.WrapTextFits | src/pdfRenderer.ts:399-409 | Every line is a single word of the text or fits the maximum width. |
| Wrap.WrapRoundTrip | src/pdfRenderer.ts:395-415 | Without empty words (no leading, trailing or doubled spaces), the lines joined by single spaces give back the text. |
| Wrap.WrapTextFull | src/pdfRenderer.ts:403-408 | Each line is full: the first word of the next line, added to it, would not fit. |
| Wrap.WrapTextSomeLine | src/pdfRenderer.ts:411-413 | Text holding a character other than a space gives at least one line. |
| Wrap.CutNearest | src/pdfRenderer.ts:433-446 | There is a cut exactly when the text has a space. The cut is a space, and no space is nearer the middle index `⌊len/2⌋`. On a tie, the later space wins. |
| Wrap.SplitTwoNoSpace | src/pdfRenderer.ts:448-451 | A text without a space gives the text and an empty second line. |
| Wrap.SplitTwoRoundTrip | src/pdfRenderer.ts:453-456 | With a space, the two lines are the text before and after the cut, and they rejoin with one space to the text. |
| Wrap.SplitTwoExample | src/pdfRenderer.ts:432-457 | `AAAA BBBB` splits into its two words. |
| Wrap.SplitTwoTie | src/pdfRenderer.ts:445 | `abc d efg` has spaces equally near the middle on both sides, and the later one wins. |
| Committees.ArticleText | src/committees.ts:4 | The article is printed as `Der` or `Die`, and the text reads back as the article. |
| Committees.Lookup | src/committees.ts:8-44 | The result is always an entry of the table. For a known abbreviation it is that entry, filed under and reporting that abbreviation. Otherwise it is the Security Council fallback (abbreviation `SR`). |
| Committees.TableKeys | src/committees.ts:8-37 | The table knows exactly SR, GV, AK, RE, WUT, WS, BG and HSR. |
| Committees.AbbreviationIsKey | src/committees.ts:8-37 | Every entry's abbreviation equals its key. |
| Committees.DefaultIsSecurityCouncil | src/committees.ts:9-44 | The fallback equals the SR entry. |
| Committees.LookupAbbreviation | src/committees.ts:8-44 | The looked-up committee reports the asked-for abbreviation exactly when that abbreviation is known. It is always the table's entry for the abbreviation it reports. |
| Header.FontSizeFits | src/pdfRenderer.ts:73-86 | The shrinking loop ends with the largest size from 8 to 24 at which the name fits in 105 units, or 8 when it fits at none. |
| Header.LargestFittingUnique | src/pdfRenderer.ts:73-86 | That size is unique. |
| Header.TwoLinesWhenNothingReadableFits | src/pdfRenderer.ts:104 | The name is broken into two lines exactly when it is too wide at every size from 14 to 24. |
| Header.CommitteeFontSize | src/pdfRenderer.ts:75-86 | The source's loop computes that largest fitting size. |
| Header.NameEventsSpellName | src/pdfRenderer.ts:104-116 | At a readable size the name is painted whole. Otherwise it is painted as two lines that rejoin with a space to the name, or as the name and an empty line when it has no space. |
| Header.LinesAtIndex | src/pdfRenderer.ts:148-151 | Line `i` of a block of lines is painted at `y + i·step`. |
| Header.CountriesNonEmpty | src/pdfRenderer.ts:142-147 | The sponsor-and-countries block always takes at least one line. |
| Header.HeaderHeight | src/pdfRenderer.ts:47-173 | The header returns its start plus 70, 6 per countries line and 8 per title line, so at least 76 below its start. The two-line name adds nothing. |
| Header.HeaderPaints | src/pdfRenderer.ts:47-173 | The header paints "Vereinte Nationen", the committee name, the countries lines, the title lines and the article line, in that order, and starts no page. |
| Header.UnknownCommitteeLine | src/pdfRenderer.ts:56-169 | An unknown abbreviation gives the line "Der Sicherheitsrat,". |
| Header.GeneralAssemblyLine | src/pdfRenderer.ts:169 | `GV` gives "Die Generalversammlung,". |
| Sections.PlaceLinesPaints | src/pdfRenderer.ts:280-287 | Lines placed with per-line page checks are painted in order, each once, with at most one page break per line. |
| Sections.PlaceLinesFirstBreak | src/pdfRenderer.ts:281-285 | The first line is preceded by a page break exactly when the cursor has passed the limit. It then sits at the top margin, and otherwise at the cursor. |
| Sections.PlaceLinesWithinPage | src/pdfRenderer.ts:298-306 | No line is painted below the limit. |
| Sections.SectionPaints | src/pdfRenderer.ts:262-384 | Wherever a block starts and wherever its page breaks fall, it paints the same strings. |
| Sections.HeadingRoundTrip | src/pdfRenderer.ts:274-289 | A heading without empty words is painted whole: its lines joined by spaces are the heading. |
| Sections.PreambularRoundTrip | src/pdfRenderer.ts:291-309 | A preambular clause is painted as its text with the emphasis stars deleted. |
| Sections.BulletRoundTrip | src/pdfRenderer.ts:344-360 | A bullet is painted as `• ` followed by its content. |
| Sections.OperativeKeepsText | src/pdfRenderer.ts:311-323 | An operative clause is painted as its markdown with only emphasis markers removed. |
| Sections.ParagraphKeepsText | src/pdfRenderer.ts:366-380 | So is a plain paragraph. |
| Sections.HeadingSpacing | src/pdfRenderer.ts:274-289 | A heading that fits starts no page and moves the cursor 8 + 7 per line + 5. |
| Sections.PreambularSpacing | src/pdfRenderer.ts:291-309 | A clause that fits has its first line at x 20 and the rest at 30, 6 apart, and moves the cursor 6 per line + 3. |
| Sections.BulletSpacing | src/pdfRenderer.ts:344-360 | A bullet that fits has its first line at x 30 and the rest at 35, 6 apart, and moves the cursor 6 per line. |
| Sections.EmptySpacing | src/pdfRenderer.ts:362-364 | An empty line paints nothing and moves the cursor 5. |
| Sections.AddContentCons | src/pdfRenderer.ts:192-207 | Each block starts after a page break when the cursor has passed 247, then its section follows, then the rest of the blocks. |
| Sections.ContentPaints | src/pdfRenderer.ts:175-208 | The body paints what its blocks paint, one after the other: page breaks never lose, repeat or reorder text. |
| Sections.TopsWithinPage | src/pdfRenderer.ts:192-196 | No block starts below 247. Each block starts where the previous one left the cursor, or at the top margin of a new page. |
| Sections.DocumentPaints | src/pdfRenderer.ts:10-45 | The document paints the header's strings and then every block's, in order. |
| Sections.BodyStart | src/pdfRenderer.ts:21-42 | Without a page break the header ends at 90 + 6 per countries line + 8 per title line. The body has at least one block, and the first block starts there or at the top of a new page. |
| ImageTypes.MimeType | src/SvgLoader.ts:13-23 | A known extension, in any letter case, gets its table entry. The fallback `image/*` comes exactly when the lower-cased extension is not supported. |
| ImageTypes.FileExtension | src/SvgLoader.ts:26-28 | The extension has no dot and is lower case. |
| ImageTypes.FileExtensionAfterLastDot | src/SvgLoader.ts:26-28 | The extension is the lower-cased text after the last dot, or the whole path lower-cased when there is no dot. |
| ImageTypes.TrailingDotIsEmpty | src/SvgLoader.ts:27 | A path ending in a dot has the empty extension. |
| ImageTypes.IsSupported | src/SvgLoader.ts:31-34 | A path is accepted exactly when its extension gets a MIME type of its own rather than the fallback, and that type is an `image/` type. |
| ImageTypes.MimeTypesCoverSupported | src/SvgLoader.ts:14-33 | The MIME table and the supported list name the same extensions. |
| ImageTypes.MimeTypeIgnoresCase | src/SvgLoader.ts:22 | Letter case does not change the MIME type. |
| ImageTypes.SupportedHasMimeType | src/SvgLoader.ts:22-34 | A supported path never gets the fallback, and an unsupported one always does. |
| ImageTypes.UpperCasePng | src/SvgLoader.ts:27-33 | `A.PNG` is supported and has type `image/png`. |
| Legacy.SplitColonSpaceIsSplitThenTrim | main.js:70 | Splitting on `/:\s*/` is splitting on colons and dropping the leading whitespace of every piece after the first. |
| Legacy.Entry | main.js:67-75 | A line defines an entry exactly when its trimmed text has a colon; blank lines define nothing. |
| Legacy.EntryKeyValue | main.js:70-73 | The key is the text before the first colon, lower-cased but not trimmed. The value is the rest with each piece's leading whitespace dropped, the pieces joined by `": "`, and the result trimmed. |
| Legacy.EntryKeyLowerCase | main.js:72 | Keys carry no colon and are already lower case. |
| Legacy.ParseKeysLowerCase | main.js:63-79 | Every key of the parsed record is lower case. |
| Legacy.ParseLastWins | main.js:74 | A key holds the value of the last line that defines it. |
| Legacy.KeyNotTrimmed | main.js:70-72 | `a : b` has the key `a ` (space kept) and the value `b`. |
| Legacy.InnerColonGetsSpace | main.js:70-73 | `t: 10:30` reads as `t` mapped to `10: 30`. |
| Legacy.FieldOr | main.js:38-41 | A field is its value when the key is present, and `""` otherwise. |
| Legacy.HeaderMissingTitle | main.js:38 | A title no line defines is read as `""`. |
| Legacy.CapitalisedTitle | main.js:38-72 | `Title: Draft` still sets the title, through the lower-cased key. |

## Left out

- Header.AddHeader: a missing front-matter key is not modelled. The source casts a partial record to `ResolutionMetadata`, so a missing key is `undefined`, and the behaviour differs by key:
  - a missing `Lander` or `Typ` paints the text `undefined` inside the countries line at src/pdfRenderer.ts:142;
  - a missing `title` reaches `splitTextToLines` at :158, where `text.split(" ")` at :395 throws, so no document is produced;
  - a missing `Ausschuss` falls back to the Security Council at :56.
  The model's `ResolutionMetadata` has all five fields as strings, and `Sections.RenderDocument` takes that record as given rather than the parsed map.
- Header.AddHeader: some header output is not painted in the model:
  - the random document symbol `S/<year>/<n>` at src/pdfRenderer.ts:58-68, which depends on the clock and on randomness;
  - "Verteilung: Allgemein" and the formatted date (:121-129 and `formatDate` at :418-425), which need the German locale;
  - the logo circle and image (:88-100) and the horizontal rule (:134-136).
- Header.AddHeader: the title's centre alignment (:162) is modelled only by painting at the page centre. Right alignment is not modelled.
- Header.NameEvents: the spacing jsPDF puts between the two lines of a broken committee name is a parameter, `lineGap`.
- Wrap.SplitTwo: strings are sequences of Unicode scalar values, not UTF-16 code units. For text outside the Basic Multilingual Plane, `Math.floor(text.length / 2)` at src/pdfRenderer.ts:433 counts differently in the source.
- Wrap.CutNearest: an exact tie goes to the later space, because the comparison at src/pdfRenderer.ts:445 is strict.
- Strings.ToLower: only ASCII and Latin-1 capitals are folded, while JavaScript's `toLowerCase` folds all of Unicode. This affects `ImageTypes.MimeType`, `ImageTypes.FileExtension` and `Legacy.Entry` only for such letters.
- Flow.Width: widths are exact `real` values given by the `Measure` oracle. The source's floating-point sums, and `getStringUnitWidth × fontSize / scaleFactor`, are not modelled. The same holds for `Header.FontSize`, `Wrap.WrapText` and every cursor value.
- Flow.PlaceSteps: after a page break inside a paragraph, the cursor goes back to the paragraph's own `startY` (src/MarkdownParser.ts:209), not to the top margin. This is modelled as written, so a paragraph that starts low on a page continues equally low on the next.
- Flow.RenderParagraph: `doc.internal.pageSize.getHeight()` is the parameter `pageHeight`. The `console.log` calls and the font switching are not modelled.
- Emphasis.Tokenize: the source's fallback branch at src/MarkdownParser.ts:107-111 is not modelled, because the sixth alternative always captures when nothing earlier matches.
- Committees.Lookup: the table is a plain map. JavaScript's `committees[key]` also finds inherited properties such as `constructor`; that is not modelled.
- ImageTypes.MimeType: the MIME table is a plain map. In the source, `mimeTypes[ext]` at src/SvgLoader.ts:22 also finds inherited properties. For the extensions `constructor` and `__proto__` it returns a truthy object, not `image/*`. So the model's "the fallback exactly when not supported" (also stated by `ImageTypes.IsSupported` and `ImageTypes.SupportedHasMimeType`) does not hold for those two names. The program never reaches this case: `getMimeType` is only called after `isSupportedImageType` has passed (:39-48, :77-120).
- FrontMatter.CollectKeys: the record is a plain map. In the source, `metadata["__proto__"] = value` at src/MarkdownParser.ts:40 goes to the prototype setter, which ignores a string, so a `__proto__:` line adds no key. The model stores it, so `FrontMatter.CollectKeys` and `FrontMatter.CollectLast` do not hold for that one key.
- Legacy.ParseLastWins: likewise, `data[key] = value` at main.js:74 ignores the key `__proto__`, while `Legacy.Parse` stores it. `Legacy.ParseLastWins` is not promised for that key.
- ImageTypes: `loadImageAsDataUrl`, `loadSvgAsDataUrl`, `convertImageToBase64` and `convertSvgToBase64` (src/SvgLoader.ts:37-146) are not modelled. They are fetch, Blob, URL and canvas I/O.
- Sections.RenderDocument: the async icon load and its module-level cache (src/pdfRenderer.ts:8, 24-30) are not modelled, and neither is the returned jsPDF object.
- Legacy: the marked extension's multi-line tokenizer regex (main.js:13-25), the HTML template (:44-53), and the registration and sample call (:88-109) are not modelled. They depend on the marked library. Only the parser and the `|| ""` defaulting are modelled.
- src/main.ts (page wiring, DOM events, timers) is not part of this model.
