/** The extractor for an ordinary answer card (src/situation/NormalItem.ts):
    it reads the author, the publication and update times, the answer link,
    the vote count and the rendered Markdown blocks of one answer, and fails
    when the answer card itself cannot be found. The Markdown blocks come
    from the lexer and parser, which are not part of this model; they are an
    input here, as are the page title and URL helpers and the random draws of
    `getUUID`. */
module NormalItem {
  import opened Wrappers
  import opened JsText
  import Uuid
  import Extractor

  datatype Author = Author(name: string, url: string)

  /** `AnswerData` */
  datatype AnswerData = AnswerData(
    id: string,
    title: string,
    content: string,
    author: Author,
    url: string,
    voteCount: nat,
    createdTime: string,
    updatedTime: string)

  /** What `getVoteCount` finds around the answer: the lookup may throw, the
      `ContentItem` ancestor or the up-vote button may be missing, and the
      button's `textContent` may be `null`. */
  datatype VoteLookup = LookupThrows | NoContentItem | NoVoteButton | VoteButton(text: Option<string>)

  /** `.ContentItem-time span`: its `data-tooltip` and `aria-label` attributes. */
  datatype TimeSpan = TimeSpan(tooltip: Option<string>, ariaLabel: Option<string>)

  /** The `.ContentItem` around the answer: its `data-updated-time` attribute,
      its time span and the `href` of its time link. */
  datatype ContentItem = ContentItem(
    updatedTimeAttr: Option<string>,
    timeSpan: Option<TimeSpan>,
    answerLink: Option<string>)

  /** `.UserLink-link`: its `innerText` and `href`. */
  datatype UserLink = UserLink(innerText: Option<string>, href: Option<string>)

  /** The answer card: the author link inside it and its closest `.ContentItem`. */
  datatype AnswerItem = AnswerItem(authorLink: Option<UserLink>, contentItem: Option<ContentItem>)

  /** Everything the default export looks up from the answer's DOM node:
      the `AnswerItem` and `Post-content` ancestors, the vote lookup, and what
      `getTitle` and `getURL` return for the page. */
  datatype ItemDom = ItemDom(
    answerItem: Option<AnswerItem>,
    postContent: Option<AnswerItem>,
    vote: VoteLookup,
    pageTitle: string,
    pageUrl: string)

  const PublishedMarker: string := "发布于"
  const PeopleUrlBase: string := "https://www.zhihu.com/people"
  const BlockSeparator: string := "\n\n"
  const MissingItemError: string := "Cannot find answer item"

  /** `x || fallback` for a string attribute that may be `null`/`undefined`. */
  function OrElse(x: Option<string>, fallback: string): (r: string)
    ensures x.Some? && x.value != "" ==> r == x.value
    ensures (x.None? || x.value == "") ==> r == fallback
  {
    if x.Some? && x.value != "" then x.value else fallback
  }

  // ---------------------------------------------------------------------
  // getVoteCount
  // ---------------------------------------------------------------------

  /** The digits at the front of `s`, up to the first non-digit. */
  function LeadingDigits(s: string): (ds: string)
    ensures AllDigits(ds) && |ds| <= |s| && ds == s[..|ds|]
    ensures |ds| < |s| ==> !IsDigit(s[|ds|])
    decreases |s|
  {
    if s == [] || !IsDigit(s[0]) then [] else [s[0]] + LeadingDigits(s[1..])
  }

  /** `s.match(/\d+/)?.[0]`: the first maximal run of digits. */
  function FirstDigitRun(s: string): (r: Option<string>)
    ensures r.None? <==> NoDigits(s)
    ensures r.Some? ==> r.value != [] && AllDigits(r.value)
    decreases |s|
  {
    if s == [] then None
    else if IsDigit(s[0]) then Some(LeadingDigits(s))
    else
      var r := FirstDigitRun(s[1..]);
      assert r.None? ==> NoDigits(s) by {
        if r.None? {
          forall k | 0 <= k < |s| ensures !IsDigit(s[k]) {
            if k > 0 { assert s[k] == s[1..][k - 1]; }
          }
        }
      }
      assert r.Some? ==> !NoDigits(s) by {
        if r.Some? {
          var k :| 0 <= k < |s[1..]| && IsDigit(s[1..][k]);
          assert s[k + 1] == s[1..][k];
        }
      }
      r
  }

  lemma {:induction false} LeadingDigitsOf(d: string, b: string)
    requires AllDigits(d)
    requires b == [] || !IsDigit(b[0])
    ensures LeadingDigits(d + b) == d
    decreases |d|
  {
    if d == [] {
      assert d + b == b;
    } else {
      assert (d + b)[1..] == d[1..] + b;
      LeadingDigitsOf(d[1..], b);
      assert d == [d[0]] + d[1..];
    }
  }

  /** The match is exactly the digit run that follows a digit-free prefix. */
  lemma {:induction false} FirstDigitRunOf(a: string, d: string, b: string)
    requires NoDigits(a) && d != [] && AllDigits(d)
    requires b == [] || !IsDigit(b[0])
    ensures FirstDigitRun(a + d + b) == Some(d)
    decreases |a|
  {
    var s := a + d + b;
    if a == [] {
      assert s == d + b;
      LeadingDigitsOf(d, b);
    } else {
      assert s[0] == a[0];
      assert s[1..] == a[1..] + d + b;
      FirstDigitRunOf(a[1..], d, b);
    }
  }

  /** `getVoteCount`: the first number in the trimmed up-vote caption (a blank
      caption reads as "0"), and 0 whenever a lookup fails or throws. */
  function GetVoteCount(lookup: VoteLookup): (n: nat)
    ensures !lookup.VoteButton? ==> n == 0
    ensures lookup.VoteButton? && NoDigits(Trim(lookup.text.GetOr(""))) ==> n == 0
  {
    match lookup
    case VoteButton(text) =>
      var trimmed := Trim(text.GetOr(""));
      var voteText := if trimmed != "" then trimmed else "0";
      (match FirstDigitRun(voteText)
       case Some(m) => DecimalValue(m)
       case None => 0)
    case _ => 0
  }

  /** Any button text reads as the value of the first digit run of its
      trimmed caption, whatever whitespace surrounds it: `w1` and `w2` are
      the padding `trim` removes, `caption` the digit-free text before the
      number, `d` the number and `rest` what follows it. */
  lemma {:induction false} VoteCountOfCaption(w1: string, caption: string, d: string, rest: string, w2: string)
    requires AllWhitespace(w1) && AllWhitespace(w2)
    requires NoDigits(caption) && d != [] && AllDigits(d) && (rest == [] || !IsDigit(rest[0]))
    requires IsTrimmed(caption + d + rest)
    ensures GetVoteCount(VoteButton(Some(w1 + (caption + d + rest) + w2))) == DecimalValue(d)
  {
    var t := caption + d + rest;
    TrimPadded(w1, t, w2);
    FirstDigitRunOf(caption, d, rest);
    VoteCountOfTrimmed(w1 + t + w2, t, d);
  }

  lemma {:induction false} VoteCountOfTrimmed(text: string, t: string, d: string)
    requires Trim(text) == t && FirstDigitRun(t) == Some(d)
    ensures GetVoteCount(VoteButton(Some(text))) == DecimalValue(d)
  {
    assert t != "";
    assert Trim(Some(text).GetOr("")) == t;
  }

  /** A caption such as " 赞同 1234 " reads back as the number it shows. */
  lemma {:induction false} VoteCountRoundTrip(w1: string, caption: string, n: nat, rest: string, w2: string)
    requires AllWhitespace(w1) && AllWhitespace(w2)
    requires NoDigits(caption) && (rest == [] || !IsDigit(rest[0]))
    requires IsTrimmed(caption + NatToString(n) + rest)
    ensures GetVoteCount(VoteButton(Some(w1 + (caption + NatToString(n) + rest) + w2))) == n
  {
    VoteCountOfCaption(w1, caption, NatToString(n), rest, w2);
    NatToStringRoundTrip(n);
  }

  /** A button without text, or with a blank one, counts as no votes. */
  lemma {:induction false} BlankVoteLabel(text: Option<string>)
    requires Trim(text.GetOr("")) == ""
    ensures GetVoteCount(VoteButton(text)) == 0
  {
    ZeroCaption();
    assert GetVoteCount(VoteButton(text)) == DecimalValue("0");
  }

  /** The stand-in caption "0" reads as 0. */
  lemma {:induction false} ZeroCaption()
    ensures FirstDigitRun("0") == Some("0") && DecimalValue("0") == 0
  {
    assert [] + "0" + [] == "0";
    FirstDigitRunOf([], "0", []);
    assert "0"[..0] == [];
  }

  // ---------------------------------------------------------------------
  // Times
  // ---------------------------------------------------------------------

  /** `timeText.replace(/^发布于\s+/, "")`: the marker and the whole run of
      whitespace after it go; without at least one whitespace character after
      the marker, the text is left alone. */
  function StripPublishedPrefix(timeText: string): (r: string)
    ensures |r| <= |timeText| && r == timeText[|timeText| - |r|..]
    ensures r != timeText ==> |timeText| > |PublishedMarker| && timeText[..|PublishedMarker|] == PublishedMarker
  {
    var m := |PublishedMarker|;
    if |timeText| > m && timeText[..m] == PublishedMarker && IsWhitespace(timeText[m]) then
      TrimStart(timeText[m..])
    else timeText
  }

  /** "发布于 2024-01-01 10:00" becomes "2024-01-01 10:00". */
  lemma {:induction false} PublishedPrefixRemoved(w: string, t: string)
    requires w != [] && AllWhitespace(w)
    requires t == [] || !IsWhitespace(t[0])
    ensures StripPublishedPrefix(PublishedMarker + w + t) == t
  {
    var s := PublishedMarker + w + t;
    var m := |PublishedMarker|;
    assert s[..m] == PublishedMarker;
    assert s[m] == w[0];
    assert s[m..] == w + t;
    TrimStartPadded(w, t);
  }

  /** The marker directly followed by text, with no space, stays. */
  lemma {:induction false} PublishedPrefixNeedsSpace(t: string)
    requires t == [] || !IsWhitespace(t[0])
    ensures StripPublishedPrefix(PublishedMarker + t) == PublishedMarker + t
  {
    var s := PublishedMarker + t;
    if |s| > |PublishedMarker| {
      assert s[|PublishedMarker|] == t[0];
    }
  }

  /** `timeSpan?.getAttribute("data-tooltip") || timeSpan?.getAttribute("aria-label") || ""` */
  function TimeText(contentItem: Option<ContentItem>): (t: string)
    ensures contentItem.None? || contentItem.value.timeSpan.None? ==> t == ""
    ensures contentItem.Some? && contentItem.value.timeSpan.Some? ==>
              var span := contentItem.value.timeSpan.value;
              (span.tooltip.GetOr("") != "" ==> t == span.tooltip.value) &&
              (span.tooltip.GetOr("") == "" && span.ariaLabel.GetOr("") != "" ==> t == span.ariaLabel.value) &&
              (span.tooltip.GetOr("") == "" && span.ariaLabel.GetOr("") == "" ==> t == "")
  {
    if contentItem.Some? && contentItem.value.timeSpan.Some? then
      var span := contentItem.value.timeSpan.value;
      OrElse(span.tooltip, OrElse(span.ariaLabel, ""))
    else ""
  }

  /** `timeText.replace(/^发布于\s+/, "")` */
  function CreatedTime(contentItem: Option<ContentItem>): (t: string)
    ensures |t| <= |TimeText(contentItem)| && t == TimeText(contentItem)[|TimeText(contentItem)| - |t|..]
    ensures t != TimeText(contentItem) ==>
              |TimeText(contentItem)| > |PublishedMarker| &&
              TimeText(contentItem)[..|PublishedMarker|] == PublishedMarker
  {
    StripPublishedPrefix(TimeText(contentItem))
  }

  /** `contentItem?.getAttribute("data-updated-time") || createdTime` */
  function UpdatedTime(contentItem: Option<ContentItem>): (t: string)
    ensures contentItem.Some? && contentItem.value.updatedTimeAttr.GetOr("") != "" ==>
              t == contentItem.value.updatedTimeAttr.value
    ensures (contentItem.None? || contentItem.value.updatedTimeAttr.GetOr("") == "") ==> t == CreatedTime(contentItem)
  {
    var updatedAttr := if contentItem.Some? then contentItem.value.updatedTimeAttr else None;
    OrElse(updatedAttr, CreatedTime(contentItem))
  }

  // ---------------------------------------------------------------------
  // Author
  // ---------------------------------------------------------------------

  /** `authorLink?.innerText?.trim() || "匿名用户"` */
  function AuthorName(link: Option<UserLink>): (name: string)
    ensures name != "" && IsTrimmed(name)
    ensures link.Some? && Trim(link.value.innerText.GetOr("")) != "" ==>
              name == Trim(link.value.innerText.value)
    ensures link.None? || Trim(link.value.innerText.GetOr("")) == "" ==> name == Extractor.AnonymousUser
  {
    var trimmed := if link.Some? && link.value.innerText.Some? then Trim(link.value.innerText.value) else "";
    assert IsTrimmed(Extractor.AnonymousUser) by {
      assert Extractor.AnonymousUser[0] == '匿' && Extractor.AnonymousUser[|Extractor.AnonymousUser| - 1] == '户';
    }
    if trimmed != "" then trimmed else Extractor.AnonymousUser
  }

  /** `authorLink?.href?.split("/").pop() || ""`: the last path piece of the
      profile link, which never contains a `/`. */
  function AuthorId(link: Option<UserLink>): (id: string)
    ensures !Includes(id, "/")
  {
    if link.Some? && link.value.href.Some? then
      var parts := Split(link.value.href.value, "/");
      assert !Includes(parts[|parts| - 1], "/");
      LastSegment(link.value.href.value, "/")
    else ""
  }

  /** `authorId ? "https://www.zhihu.com/people/" + authorId : ""` */
  function ProfileUrl(authorId: string): (url: string)
    ensures authorId == "" <==> url == ""
    ensures authorId != "" ==> url == PeopleUrlBase + "/" + authorId
  {
    if authorId != "" then PeopleUrlBase + "/" + authorId else ""
  }

  /** A canonical profile link gives back the same URL, so the author URL is
      stable under extraction. */
  lemma {:induction false} ProfileUrlRoundTrip(id: string)
    requires id != "" && '/' !in id
    ensures ProfileUrl(AuthorId(Some(UserLink(None, Some(PeopleUrlBase + "/" + id))))) == PeopleUrlBase + "/" + id
  {
    LastSegmentAfter(PeopleUrlBase, '/', id);
    assert PeopleUrlBase + ['/'] + id == PeopleUrlBase + "/" + id;
  }

  // ---------------------------------------------------------------------
  // Answer link, identifier and content
  // ---------------------------------------------------------------------

  /** `answerLink?.href || ""` */
  function AnswerUrl(contentItem: Option<ContentItem>): (url: string)
    ensures contentItem.Some? && contentItem.value.answerLink.GetOr("") != "" ==> url == contentItem.value.answerLink.value
    ensures contentItem.None? || contentItem.value.answerLink.GetOr("") == "" ==> url == ""
  {
    if contentItem.Some? then OrElse(contentItem.value.answerLink, "") else ""
  }

  /** `answerUrl.split("/answer/")[1] || getUUID()` */
  function AnswerId(answerUrl: string, draws: seq<nat>): (id: string)
    requires Uuid.ValidDraws(draws)
    ensures id != ""
    ensures Extractor.AnswerSegment(answerUrl) != "" ==> id == Extractor.AnswerSegment(answerUrl)
    ensures Extractor.AnswerSegment(answerUrl) == "" ==> id == Uuid.GetUUID(draws)
  {
    var segment := Extractor.AnswerSegment(answerUrl);
    if segment != "" then segment else Uuid.GetUUID(draws)
  }

  /** A block that neither contains a blank line nor ends with a line break
      is cut back out of the joined content at the same place. */
  lemma {:induction false} BlockEndsCleanly(b: string)
    requires !Includes(b, BlockSeparator) && (b == [] || b[|b| - 1] != '\n')
    ensures EndsCleanlyBefore(b, BlockSeparator)
  {
    var sep := BlockSeparator;
    var s := b + sep;
    assert OccursAt(s, sep, |b|) by { assert s[|b|..|b| + 2] == sep; }
    OccursAtChar(s, sep, 0);
    forall j | 0 <= j < |b|
      ensures !OccursAt(s, sep, j)
    {
      if j + 2 <= |b| {
        OccursInPrefix(b, sep, sep, j);
      } else {
        assert s[j] == b[|b| - 1];
      }
    }
    IndexOfUnique(s, sep, |b|);
  }

  /** `markdown.join("\n\n")` loses no block boundary: splitting the content
      at blank lines gives the blocks back. */
  lemma {:induction false} ContentSplitsIntoBlocks(blocks: seq<string>)
    requires |blocks| >= 1
    requires forall k :: 0 <= k < |blocks| ==>
               !Includes(blocks[k], BlockSeparator) && (blocks[k] == [] || blocks[k][|blocks[k]| - 1] != '\n')
    ensures Split(Join(blocks, BlockSeparator), BlockSeparator) == blocks
  {
    forall k | 0 <= k < |blocks|
      ensures EndsCleanlyBefore(blocks[k], BlockSeparator)
    {
      BlockEndsCleanly(blocks[k]);
    }
    JoinSplit(blocks, BlockSeparator);
  }

  // ---------------------------------------------------------------------
  // The default export
  // ---------------------------------------------------------------------

  /** `getParent(dom, "AnswerItem") || getParent(dom, "Post-content")` */
  function FindAnswerItem(dom: ItemDom): (item: Option<AnswerItem>)
    ensures item.None? <==> dom.answerItem.None? && dom.postContent.None?
    ensures dom.answerItem.Some? ==> item == dom.answerItem
  {
    if dom.answerItem.Some? then dom.answerItem else dom.postContent
  }

  /** The default export: fails exactly when neither the answer card nor the
      post body is found; otherwise every field follows its fallback chain. */
  function ExtractNormalItem(dom: ItemDom, blocks: seq<string>, draws: seq<nat>): (r: Result<AnswerData, string>)
    requires Uuid.ValidDraws(draws)
    ensures r.Err? <==> dom.answerItem.None? && dom.postContent.None?
    ensures r.Err? ==> r.error == MissingItemError
    ensures r.Ok? ==> r.value.id == AnswerId(AnswerUrl(FindAnswerItem(dom).value.contentItem), draws)
    ensures r.Ok? ==> r.value.author.name == AuthorName(FindAnswerItem(dom).value.authorLink)
    ensures r.Ok? ==> r.value.author.url == ProfileUrl(AuthorId(FindAnswerItem(dom).value.authorLink))
    ensures r.Ok? ==> r.value.title == dom.pageTitle && r.value.content == Join(blocks, BlockSeparator)
    ensures r.Ok? ==> r.value.voteCount == GetVoteCount(dom.vote)
    ensures r.Ok? ==> r.value.createdTime == CreatedTime(FindAnswerItem(dom).value.contentItem)
    ensures r.Ok? ==> r.value.updatedTime == UpdatedTime(FindAnswerItem(dom).value.contentItem)
    ensures r.Ok? ==> r.value.url == OrElse(Some(AnswerUrl(FindAnswerItem(dom).value.contentItem)), dom.pageUrl)
  {
    match FindAnswerItem(dom)
    case None => Err(MissingItemError)
    case Some(item) =>
      var answerUrl := AnswerUrl(item.contentItem);
      var profile := ProfileUrl(AuthorId(item.authorLink));
      Ok(AnswerData(
        AnswerId(answerUrl, draws),
        dom.pageTitle,
        Join(blocks, BlockSeparator),
        Author(AuthorName(item.authorLink), profile),
        OrElse(Some(answerUrl), dom.pageUrl),
        GetVoteCount(dom.vote),
        CreatedTime(item.contentItem),
        UpdatedTime(item.contentItem)))
  }
}
