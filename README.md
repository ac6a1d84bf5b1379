# zhihu-copy-as-markdown: the metadata and assembly layer, in Dafny

zhihu-copy-as-markdown is a browser user script for zhihu.com. It adds
buttons to question pages, answers and posts. The buttons download an answer
as Markdown or JSON. On a question page, a "抓取全部回答" button scrolls the
page until no more answers load and then downloads every collected answer as
one Markdown document.

This project models the layer around the rich-text converter:

- reading an answer's metadata out of the page (`extractAnswerData` in
  src/core/extractor.ts, and the default export of
  src/situation/NormalItem.ts);
- collecting answers without duplicates (`AddAnswer`);
- rendering the Markdown front matter and the question document;
- pruning duplicate copier buttons before a fresh button container goes in;
- the rule that ends the crawl.

Every DOM lookup is an input value. A missing element or a `null` attribute
is `None`. The Markdown body produced by the lexer and parser is an opaque
string, or a sequence of blocks. The random draws behind `getUUID` and the
locale formatting of dates are inputs as well.

Modules:

- `Wrappers`: `Option` and `Result`.
- `JsText`: the JavaScript string built-ins the code relies on, with
  ECMAScript semantics. They are `trim` and `\s` over the full whitespace
  set, `indexOf`/`includes`, `split`/`join` on a string separator, `parseInt`
  on decimal digits, and the decimal rendering of a natural number.
- `Uuid`: `getUUID`.
- `Dom`: elements, class lists, text content.
- `Extractor`: src/core/extractor.ts.
- `NormalItem`: src/situation/NormalItem.ts.
- `AnswerList`: `allAnswers` and `AddAnswer`, as a class over a sequence field.
- `AnswerMarkdown`: `generateSingleAnswerMarkdown`, the single-answer
  download and the question document.
- `ButtonContainer`: the pruning loop and the container installation, as a
  class whose `children` field the methods update.
- `CrawlStop`: the crawl loop's stop rule, as a method with a loop over the
  rounds observed.

src/index.ts imports `extractAnswerData` from `./core/answerExtractor`, which
is not part of this model. Only its call at src/index.ts:143 is visible: it
takes the answer element and the Markdown content and returns the answer
record. The function modelled here is `extractAnswerData` in
src/core/extractor.ts, which fits that call.

## Model

| member | source | states |
|---|---|---|
| `JsText.Trim` | src/core/extractor.ts:49 | `trim` never lengthens the text, and its result neither starts nor ends with whitespace |
| `JsText.TrimPadded` | src/core/extractor.ts:49 | `trim` gives back exactly a trimmed text surrounded by any whitespace |
| `JsText.TrimBlank` | src/core/extractor.ts:49 | `trim` gives "" exactly when the text is all whitespace, so a fallback after `trim()` is taken exactly for blank text |
| `JsText.TrimIdempotent` | src/core/extractor.ts:49 | trimming twice is trimming once |
| `JsText.ParseInt` | src/core/extractor.ts:56 | `parseInt` of a digit string is NaN exactly for the empty string |
| `JsText.NatToString` | src/index.ts:37 | a count renders as a non-empty run of decimal digits without a leading zero |
| `JsText.NatToStringRoundTrip` | src/core/extractor.ts:56 | parsing the decimal rendering of a number gives the number back |
| `JsText.IndexOf` | src/core/extractor.ts:97 | `indexOf` reports the first position where the pattern occurs, or that it occurs nowhere |
| `JsText.Includes` | src/core/extractor.ts:97 | `includes` holds exactly when the pattern occurs at some position |
| `JsText.Split` | src/core/extractor.ts:70 | `split` on a non-empty separator yields at least one piece, and no piece contains the separator |
| `JsText.SplitFirstPiece` | src/core/extractor.ts:70 | a text without the separator splits into itself alone; otherwise there are at least two pieces and the first is everything before the leftmost occurrence |
| `JsText.SplitRejoins` | src/index.ts:515 | the pieces of a `split`, joined with the same separator, give the text back |
| `JsText.JoinSplit` | src/index.ts:515 | splitting a `join` gives the pieces back, in order, when no piece runs into the separator |
| `JsText.SecondFieldAfterFirst` | src/core/extractor.ts:70 | `split(sep)[1]` of `a + sep + t` is `t` when `a` holds no earlier separator and `t` holds none |
| `JsText.NoSeparatorNoSecondField` | src/core/extractor.ts:70 | a text without the separator splits into itself alone, and `split(sep)[1]` is undefined |
| `JsText.SplitField` | src/core/extractor.ts:70 | `split(sep)[k]`: a field that exists holds no separator; field 0 always exists; a text without the separator has no field beyond 0 |
| `JsText.LastSegmentAfter` | src/situation/NormalItem.ts:60 | `split(c).pop()` is whatever follows the last `c` |
| `Uuid.HexDigitSpelling` | src/core/extractor.ts:26-30 | `v.toString(16)` spells 0..15 as the digits 0-9 followed by a-f |
| `Uuid.Fill` | src/core/extractor.ts:26-30 | the `replace` callback keeps the template's length; every output character is a lower-case hex digit; an `x` position holds its draw, a `y` position a value in 8..11 |
| `Uuid.GetUUID` | src/core/extractor.ts:25-31 | `getUUID` returns 8 lower-case hex digits, the i-th being the i-th random draw (the identical copy is at src/situation/NormalItem.ts:23-29) |
| `Extractor.ExtractInfo` | src/core/extractor.ts:41-52 | the meta attribute wins when it exists and is non-empty; otherwise, with a fallback selector, the fallback's trimmed text or ""; with no fallback selector, "" |
| `Extractor.MetaBeforeFallback` | src/core/extractor.ts:42-46 | once the meta attribute is usable, neither the fallback selector nor its text changes the result |
| `Extractor.KeepDigits` | src/core/extractor.ts:56 | `replace(/[^0-9]/g, "")` leaves only ASCII digits and never lengthens the text |
| `Extractor.KeepDigitsOfDigits` | src/core/extractor.ts:56 | stripping non-digits leaves a digit string unchanged |
| `Extractor.KeepDigitsOfNoDigits` | src/core/extractor.ts:56 | stripping non-digits from a text without digits leaves "" |
| `Extractor.CountFromText` | src/core/extractor.ts:56 | the count parsed from the text: the decimal value of the digits kept, and 0 when no digit is left |
| `Extractor.CountRoundTrip` | src/core/extractor.ts:54-57 | `extractCount` reads back a decimal count between digit-free labels exactly |
| `Extractor.CountWithoutDigits` | src/core/extractor.ts:56 | a text without digits counts as 0, since NaN falls back to 0 |
| `Extractor.ExtractCount` | src/core/extractor.ts:54-57 | the count comes from the usable meta attribute, else from the fallback element's trimmed text, and is 0 when there is no fallback element |
| `Extractor.AnswerSegment` | src/core/extractor.ts:70 | `answerUrl.split("/answer/")[1]`, read as "" when undefined, never contains "/answer/" |
| `Extractor.AnswerId` | src/core/extractor.ts:70 | the id is never empty: the zop id if non-empty, else the answer URL's `/answer/` field if non-empty, else the UUID |
| `Extractor.AnswerIdFromLink` | src/core/extractor.ts:69-70 | an answer link `<prefix>/answer/<id>` without a zop id yields `<id>` |
| `Extractor.AnswerIdWithoutLink` | src/core/extractor.ts:70 | without a zop id and without `/answer/` in the link, the id is the UUID |
| `Extractor.QuestionSegment` | src/core/extractor.ts:82 | the question id taken from the path never contains a `/`; its value on each shape of path is given by the next five rows |
| `Extractor.QuestionSegmentOf` | src/core/extractor.ts:82 | on a question page `/question/<q>`, `pathname.split("/")[2]` is `<q>` |
| `Extractor.QuestionSegmentUnder` | src/core/extractor.ts:82 | below a question page, `/question/<q>/<rest>` (such as the answer page `/question/<q>/answer/<a>`, or `/question/<q>/`), `pathname.split("/")[2]` is still `<q>` |
| `Extractor.LastPathPiece` | src/core/extractor.ts:82 | any path of exactly three `/`-pieces `<a>/<b>/<q>` has `<q>` as its third piece |
| `Extractor.ThirdPathPiece` | src/core/extractor.ts:82 | any path `<a>/<b>/<q>/<rest>` has `<q>` as its third piece, whatever `<rest>` holds |
| `Extractor.QuestionSegmentShortPath` | src/core/extractor.ts:82 | a path `<a>` or `/<a>` with no further `/` has no third piece, so the question id renders as "undefined" |
| `Extractor.SynthesizedUrl` | src/core/extractor.ts:82 | the URL built for an answer without a link starts with `https://www.zhihu.com/question/` and ends with the answer id |
| `Extractor.QuestionPrefixEndsCleanly` | src/core/extractor.ts:82 | the question URL prefix followed by a numeric question id holds no `/answer/` before the appended one |
| `Extractor.SynthesizedUrlRoundTrip` | src/core/extractor.ts:82 | a URL of the form `https://www.zhihu.com/question/<q>/answer/<id>`, with a numeric `<q>`, gives `<id>` back under the id rule of line 70 |
| `Extractor.SynthesizedUrlGivesId` | src/core/extractor.ts:70-82 | on a question page `/question/<q>`, the URL built for an answer without a link gives its id back under the id rule of line 70 |
| `Extractor.SynthesizedUrlUnderGivesId` | src/core/extractor.ts:70-82 | on a page below a question, `/question/<q>/<rest>`, the URL built for an answer without a link also gives its id back |
| `Extractor.RemoveFirstButton` | src/core/extractor.ts:76-79 | removing the first copier button changes nothing when none of the title element's direct children is one |
| `Extractor.RemoveFirstButtonSplit` | src/core/extractor.ts:76-79 | only the first copier button is removed, with everything around it kept in order |
| `Extractor.QuestionTitle` | src/core/extractor.ts:72-81 | the title is never empty and is trimmed: "未知问题" without a title element; with one, the trimmed text of the element without its first copier button when that is non-empty, else "未知问题" |
| `Extractor.TitleIgnoresCopierButton` | src/core/extractor.ts:72-81 | a copier button among the title element's direct children never changes the extracted title |
| `Extractor.AnswerUrl` | src/core/extractor.ts:68-69 | the answer URL is the time link's `href`, or "" when there is no time link |
| `Extractor.ExtractTimes` | src/core/extractor.ts:92-102 | the update time is "" when the time span lacks "编辑于", and whenever it would equal the creation time; a non-empty update time is the modified-meta value |
| `Extractor.HasEditorRecommendation` | src/core/extractor.ts:107-114 | the loop with `break` sets the flag exactly when some meta div's trimmed text is "编辑推荐" |
| `Extractor.AnswerPageUrl` | src/core/extractor.ts:82 | the answer's own link when non-empty, else the URL built from the page path and the id |
| `Extractor.AuthorName` | src/core/extractor.ts:85 | the author name is never empty and is trimmed: the link's trimmed text when non-empty, and "匿名用户" when there is no link or its text is blank |
| `Extractor.AuthorUrl` | src/core/extractor.ts:86 | the author URL is the author link's `href`, or "" when there is no author link |
| `Extractor.AuthorBadge` | src/core/extractor.ts:87 | the badge is defined exactly when the badge element exists, and then it is that element's trimmed text |
| `Extractor.AuthorBadgePadded` | src/core/extractor.ts:87 | a badge text padded with whitespace reads back as the badge alone |
| `Extractor.FollowedVoted` | src/core/extractor.ts:104-105 | the flag holds exactly when the vote-info element exists and "等人赞同" occurs somewhere in its text |
| `Extractor.FollowedVotedByMarker` | src/core/extractor.ts:104-105 | any vote-info text of the form `<a>等人赞同<c>` sets the flag |
| `Extractor.NotFollowedVotedWithoutMarker` | src/core/extractor.ts:104-105 | no vote-info element, or a text in which "等人赞同" occurs nowhere, leaves the flag false |
| `Extractor.ExtractAnswerData` | src/core/extractor.ts:65-131 | every field of the record follows its fallback chain; the content is the Markdown passed in |
| `NormalItem.OrElse` | src/situation/NormalItem.ts:65 | a string attribute is kept when it is defined and non-empty, and the fallback is used otherwise |
| `NormalItem.FirstDigitRun` | src/situation/NormalItem.ts:40 | `match(/\d+/)` fails exactly on text without digits; a match is a non-empty digit run |
| `NormalItem.FirstDigitRunOf` | src/situation/NormalItem.ts:40 | the match is exactly the maximal digit run after a digit-free prefix |
| `NormalItem.GetVoteCount` | src/situation/NormalItem.ts:31-45 | the vote count is 0 when the lookup throws, or there is no ContentItem or no vote button, and 0 for a trimmed label without digits; labels with digits are covered by the next two rows |
| `NormalItem.VoteCountOfCaption` | src/situation/NormalItem.ts:38-41 | a label `<caption><digits><rest>`, trimmed and padded with any whitespace, reads as the value of its first digit run |
| `NormalItem.VoteCountRoundTrip` | src/situation/NormalItem.ts:38-41 | a label such as " 赞同 1234 ", padded with any whitespace, reads back as the number it shows |
| `NormalItem.BlankVoteLabel` | src/situation/NormalItem.ts:38 | a missing or blank label reads as "0", so the count is 0 |
| `NormalItem.StripPublishedPrefix` | src/situation/NormalItem.ts:66 | the result is a suffix of the time text, and differs from it only when the text starts with "发布于" |
| `NormalItem.PublishedPrefixRemoved` | src/situation/NormalItem.ts:66 | "发布于" followed by at least one whitespace character, and then text, gives back that text |
| `NormalItem.PublishedPrefixNeedsSpace` | src/situation/NormalItem.ts:66 | "发布于" not followed by whitespace is left alone |
| `NormalItem.TimeText` | src/situation/NormalItem.ts:64-65 | the time text is the span's `data-tooltip` when non-empty, else its `aria-label` when non-empty, else ""; "" without a ContentItem or time span |
| `NormalItem.CreatedTime` | src/situation/NormalItem.ts:66 | the creation time is a suffix of the time text, and differs from it only when the text starts with "发布于" |
| `NormalItem.UpdatedTime` | src/situation/NormalItem.ts:67 | the `data-updated-time` attribute when non-empty, the creation time otherwise |
| `NormalItem.AuthorName` | src/situation/NormalItem.ts:59 | the author name is never empty and is trimmed: the link's trimmed `innerText` when non-empty, and "匿名用户" when there is no link or its text is blank |
| `NormalItem.AuthorId` | src/situation/NormalItem.ts:60 | the author id never contains a `/` |
| `NormalItem.ProfileUrl` | src/situation/NormalItem.ts:85 | the author URL is "" exactly when the id is empty, else `https://www.zhihu.com/people/<id>` |
| `NormalItem.ProfileUrlRoundTrip` | src/situation/NormalItem.ts:60-85 | a canonical profile link yields the same profile URL back |
| `NormalItem.AnswerUrl` | src/situation/NormalItem.ts:70-71 | the answer URL is the time link's `href` when non-empty, else "" |
| `NormalItem.AnswerId` | src/situation/NormalItem.ts:71-72 | the id is never empty: the `/answer/` field of the link if non-empty, else the UUID |
| `NormalItem.ContentSplitsIntoBlocks` | src/situation/NormalItem.ts:82 | splitting the content at blank lines gives the parser's blocks back, in order, when no block holds a blank line or ends with a line break |
| `NormalItem.FindAnswerItem` | src/situation/NormalItem.ts:52 | no card is found exactly when neither the AnswerItem nor the Post-content ancestor exists; the AnswerItem is preferred |
| `NormalItem.ExtractNormalItem` | src/situation/NormalItem.ts:47-92 | the export fails exactly when no answer card is found; otherwise the id is the answer id of the card's link, the author name is the card link's name, the content is the blocks joined with blank lines, and every other field follows its fallback |
| `AnswerList.AddedCases` | src/index.ts:18-23 | a repeated id leaves the list unchanged; a new one is appended at the end with earlier answers kept in place; afterwards the id is present |
| `AnswerList.AddedKeepsDistinct` | src/index.ts:18-23 | `AddAnswer` keeps the ids pairwise distinct |
| `AnswerList.AddedIdempotent` | src/index.ts:18-23 | adding the same answer twice is adding it once |
| `AnswerList.AddedIds` | src/index.ts:18-23 | the ids after `AddAnswer` are the old ids plus the new one |
| `AnswerList.Added` | src/index.ts:18-23 | `AddAnswer` keeps the old list as a prefix and adds at most one answer |
| `AnswerList.AddedAll` | src/index.ts:18-23 | a run of `AddAnswer` calls keeps the old list as a prefix and adds at most one answer per call |
| `AnswerList.AddedAllProperties` | src/index.ts:18-23 | any sequence of `AddAnswer` calls keeps the ids distinct and collects exactly the ids met |
| `AnswerList.AnswerStore.constructor` | src/index.ts:16 | the list starts empty, with distinct ids |
| `AnswerList.AnswerStore.AddAnswer` | src/index.ts:18-23 | pushes the answer unless its id is present; keeps the ids distinct |
| `AnswerMarkdown.StartsWithHeadingIff` | src/index.ts:26-31 | the output starts with "### " exactly when the title is non-empty and differs from the question title, and then with `### <title>` and a blank line; otherwise it starts with the "**作者**" line |
| `AnswerMarkdown.SingleAnswerMarkdown` | src/index.ts:52-54 | the output ends with "\n---\n\n" followed by the answer content, unchanged, so the body can be cut back out |
| `AnswerMarkdown.MetaLinesLabelled` | src/index.ts:31-51 | every metadata line starts with its own label, in the order author, link, votes, comments, then the optional creation time, update time and "编辑推荐" |
| `AnswerMarkdown.OptionalLines` | src/index.ts:43-51 | the creation-time, update-time and "编辑推荐" lines are present exactly when their fields are |
| `AnswerMarkdown.VoteLineMarksFollowed` | src/index.ts:37-41 | the vote line includes " (包含我关注的人)" exactly when `isFollowedVoted`; it is exactly `**赞同数**: <n> (包含我关注的人)` then, and `**赞同数**: <n>` otherwise |
| `AnswerMarkdown.AuthorLineBadge` | src/index.ts:31-35 | the author line has the ` (<badge>)` suffix exactly when the badge is non-empty |
| `AnswerMarkdown.Header` | src/index.ts:508-509 | the question header is `# <title>` and a blank line, followed by exactly `源问题链接: <url>` and a blank line |
| `AnswerMarkdown.RenderAll` | src/index.ts:511-513 | each answer is rendered against the question title, one part per answer, in list order |
| `AnswerMarkdown.QuestionMarkdown` | src/index.ts:508-515 | the document is the header followed by the rendered answers joined with "\n\n------\n\n"; with no answers it is the header alone |
| `AnswerMarkdown.QuestionMarkdownSplits` | src/index.ts:511-515 | the rendered answers can be split back out of the document, in order, when none runs into the separator |
| `AnswerMarkdown.SingleAnswerDocument` | src/index.ts:155-160 | the single-answer download is the header for the answer's own title followed by exactly the rendered answer |
| `AnswerMarkdown.SingleAnswerDocumentHasNoHeading` | src/index.ts:156-160 | the single-answer download never repeats its title as a "###" heading |
| `ButtonContainer.DropButtonsShape` | src/index.ts:129-133 | the dropped children form the leading run of copier buttons; what is left is the rest, untouched, and does not start with a copier button |
| `ButtonContainer.PrunedShape` | src/index.ts:128-133 | pruning keeps child 0 and removes the maximal run of copier buttons starting at index 1, leaving everything from the first other element on |
| `ButtonContainer.PrunedIdempotent` | src/index.ts:128-133 | pruning a pruned element changes nothing |
| `ButtonContainer.InstalledOnce` | src/index.ts:119-138 | after pruning and prepending the container, the element starts with exactly one copier button, so the next pass skips it |
| `ButtonContainer.DropButtons` | src/index.ts:129-133 | the loop's exit: never more children than before, and the rest does not start with a copier button |
| `ButtonContainer.Pruned` | src/index.ts:128-133 | pruning keeps the first child, never adds children, and leaves no copier button at index 1 |
| `ButtonContainer.RichText.PruneDuplicateButtons` | src/index.ts:128-133 | the loop over the snapshot leaves exactly the pruned children |
| `ButtonContainer.RichText.Prepare` | src/index.ts:119-138 | an element whose first child is a copier button is left alone; otherwise it is pruned and the container goes in front |
| `CrawlStop.NoChangeCountMeansRepeats` | src/index.ts:441-481 | the no-change counter is at least n exactly when each of the last n rounds repeated the height before it (0 before the first round) |
| `CrawlStop.HeightStableMeansThreeRepeats` | src/index.ts:468-477 | the crawl stops on height in round r exactly when rounds r-2, r-1 and r all repeated the height before them |
| `CrawlStop.GrowingPageNeverStable` | src/index.ts:468-481 | a page whose height keeps growing never ends the crawl on height |
| `CrawlStop.NoChangeCount` | src/index.ts:468-474 | the no-change counter never exceeds the number of rounds and is back to 0 after a round whose height changed |
| `CrawlStop.StopAt` | src/index.ts:468-481 | a round stops on height exactly when the counter reaches 3; it stops on nothing exactly when the counter is below 3 and neither "收起" nor the bottom bar shows; "收起" is the reason only when the bar shows and the counter is below 3; the bottom bar only without "收起" |
| `CrawlStop.Crawl` | src/index.ts:441-498 | the loop stops in the first round whose stop rule fires (the height counter reaching 3, then "收起", then the bottom bar), with that reason; otherwise it reports the last height and a counter below 3 |

## Left out

- The lexer, the parser, the token model and `savelex` are not part of this model. Their output is an input: `markdownContent` for `extractAnswerData`, and the block sequence for NormalItem.
- `zhihuLinkToNormalLink` and the `getParent`, `getTitle`, `getURL`, `getQuestionTitle` and `makeButton` utilities are not part of this model. Their results are inputs.
- src/core/articleExtractor.ts, src/processors/articleProcessor.ts, `processArticlePage` and the pin items are not modelled. Pin items are the loop over `.PinItem`, src/index.ts:214-336.
- DOM plumbing is not modelled: `waitForElement`, `sleep`, scrolling, `isBottomReached`, button creation and styling, event listeners, `saveAs`/`Blob` downloads, file names, and the `setTimeout`/`setInterval` driver. So are async sequencing and the `try`/`catch` around each answer.
- `new Date(t).toLocaleString()` depends on the locale and the time zone. It is the parameter `localeString`.
- `Math.random()` is replaced by the draws passed to `getUUID`.
- `ButtonContainer.RichText.Prepare` models only the copier-button guard of src/index.ts:119. The other skips at lines 115-125 are not modelled: a missing `.RichText`, an `Editable` parent, an image preview first, and a folded pin. Neither is the expand-button click at lines 108-112.
- `ButtonContainer.RichText.PruneDuplicateButtons` models `el.remove()` as removing the live child at index 1. The loop invariant shows that this is where the snapshot's element sits. Node identity and aliasing between elements are not modelled.
- `CrawlStop.Crawl` runs over a finite sequence of observed rounds. The source loops until a stop rule fires, so `Running` means it has not stopped yet. `processVisibleAnswers`, the load-more click at lines 451-455 and the button labels are not modelled.
- Counts are unbounded naturals. `parseInt` loses precision above 2^53, and `String(n)` switches to exponent notation at 10^21; neither is modelled.
- `Extractor.RemoveFirstButton` looks for the copier button only among the title element's direct children, where `querySelector` at src/core/extractor.ts:76 searches every descendant. The copier inserts its "抓取全部回答" button as a direct child of the title (src/index.ts:426 and 429), so that is the case modelled.
- `JsText.Join` and `JsText.LastSegment` carry no contract of their own. Their properties are the lemmas `JsText.SplitRejoins`, `JsText.JoinSplit` and `JsText.LastSegmentAfter`.
- `Extractor.QuestionSegment`: the value is stated for every path that starts with `/`, which `location.pathname` always does. The two-piece path `<a>/<b>` with a non-empty `<a>` is not stated, because no page path has that shape.
- `innerText` and `textContent` are both opaque strings. Layout effects on `innerText` are not modelled.
