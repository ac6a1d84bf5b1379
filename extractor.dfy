/** Metadata extraction for one answer (src/core/extractor.ts): each DOM
    lookup of `extractAnswerData` is an input (`None` when `querySelector`
    finds nothing or `getAttribute` returns null), and each field follows the
    source's fallback chain. */
module Extractor {
  import opened Wrappers
  import opened JsText
  import opened Dom
  import Uuid

  /** The record `extractAnswerData` returns (`ExtractedAnswerData`). */
  datatype ExtractedAnswerData = ExtractedAnswerData(
    id: string,
    url: string,
    title: string,
    authorName: string,
    authorBadge: Option<string>,
    authorUrl: string,
    upvoteCount: nat,
    commentCount: nat,
    createdTime: string,
    updatedTime: string,
    isFollowedVoted: bool,
    isEditorRecommended: bool,
    content: string)

  /** A meta tag lookup: `None` when no element matches the selector; the
      inner value is the attribute, `None` when `getAttribute` returns null. */
  type MetaLookup = Option<Option<string>>

  /** An anchor element: its `textContent` and its `href`. */
  datatype Anchor = Anchor(textContent: string, href: string)

  /** What `extractAnswerData` reads below the answer element. Each
      `Option<string>` text is the `textContent` of the element a selector
      finds, `None` when it finds none. */
  datatype AnswerElement = AnswerElement(
    zopId: Option<string>,            // dataset.zopId
    timeLink: Option<Anchor>,         // ".ContentItem-time a"
    authorLink: Option<Anchor>,       // ".AuthorInfo-name a"
    badgeText: Option<string>,        // ".AuthorInfo-badgeText"
    upvoteMeta: MetaLookup,           // meta[itemprop="upvoteCount"]
    upvoteButtonText: Option<string>, // "button.VoteButton--up"
    commentMeta: MetaLookup,          // meta[itemprop="commentCount"]
    commentButtonText: Option<string>,// "button:has(svg.Zi--Comment)"
    createdMeta: MetaLookup,          // meta[itemprop="dateCreated"]
    tooltipText: Option<string>,      // ".ContentItem-time [data-tooltip]"
    modifiedMeta: MetaLookup,         // meta[itemprop="dateModified"]
    timeSpanText: Option<string>,     // ".ContentItem-time span"
    voteInfoText: Option<string>,     // ".css-18k7i4m"
    metaDivTexts: seq<string>)        // ".ContentItem-meta div", in document order

  /** What it reads from the page: the children of `.QuestionHeader-title`
      (`None` when the page has none) and `document.location.pathname`. */
  datatype PageContext = PageContext(titleChildren: Option<seq<Node>>, pathname: string)

  const UpvoteButtonSelector: string := "button.VoteButton--up"
  const CommentButtonSelector: string := "button:has(svg.Zi--Comment)"
  const TooltipSelector: string := ".ContentItem-time [data-tooltip]"
  const TimeSpanSelector: string := ".ContentItem-time span"
  const AnswerMarker: string := "/answer/"
  const UnknownQuestion: string := "未知问题"
  const AnonymousUser: string := "匿名用户"
  const EditedMarker: string := "编辑于"
  const FollowedVotedMarker: string := "等人赞同"
  const EditorRecommended: string := "编辑推荐"

  // ---------------------------------------------------------------------
  // extractInfo and extractCount
  // ---------------------------------------------------------------------

  /** The meta tag exists and its attribute is a non-empty string. */
  predicate MetaUsable(meta: MetaLookup) {
    meta.Some? && meta.value.Some? && meta.value.value != ""
  }

  /** `extractInfo`: the meta attribute when it is non-empty; otherwise, when a
      fallback selector is given, the trimmed text of the element it finds
      (or ""); otherwise "". */
  function ExtractInfo(meta: MetaLookup, fallbackSelector: string, fallbackText: Option<string>): (r: string)
    ensures MetaUsable(meta) ==> r == meta.value.value
    ensures !MetaUsable(meta) && fallbackSelector != "" ==> r == Trim(fallbackText.GetOr(""))
    ensures !MetaUsable(meta) && fallbackSelector == "" ==> r == ""
    ensures !MetaUsable(meta) ==> IsTrimmed(r)
  {
    if meta.Some? && meta.value.Some? && meta.value.value != "" then
      meta.value.value
    else if fallbackSelector != "" then
      match fallbackText
      case Some(t) => if Trim(t) != "" then Trim(t) else ""
      case None => ""
    else
      ""
  }

  /** The meta tag takes priority: once it has a value, neither the fallback
      selector nor what it would find matters. */
  lemma {:induction false} MetaBeforeFallback(meta: MetaLookup, s1: string, t1: Option<string>, s2: string, t2: Option<string>)
    requires MetaUsable(meta)
    ensures ExtractInfo(meta, s1, t1) == ExtractInfo(meta, s2, t2) == meta.value.value
  {
  }

  /** `text.replace(/[^0-9]/g, "")`: the ASCII digits of `text`, in order. */
  function KeepDigits(text: string): (ds: string)
    ensures AllDigits(ds)
    ensures |ds| <= |text|
    decreases |text|
  {
    if text == [] then ""
    else (if IsDigit(text[0]) then [text[0]] else "") + KeepDigits(text[1..])
  }

  lemma {:induction false} KeepDigitsAppend(a: string, b: string)
    ensures KeepDigits(a + b) == KeepDigits(a) + KeepDigits(b)
    decreases |a|
  {
    if a != [] {
      assert (a + b)[0] == a[0];
      assert (a + b)[1..] == a[1..] + b;
      KeepDigitsAppend(a[1..], b);
    } else {
      assert a + b == b;
    }
  }

  lemma {:induction false} KeepDigitsOfDigits(ds: string)
    requires AllDigits(ds)
    ensures KeepDigits(ds) == ds
    decreases |ds|
  {
    if ds != [] {
      KeepDigitsOfDigits(ds[1..]);
    }
  }

  lemma {:induction false} KeepDigitsOfNoDigits(s: string)
    requires NoDigits(s)
    ensures KeepDigits(s) == ""
    decreases |s|
  {
    if s != [] {
      KeepDigitsOfNoDigits(s[1..]);
    }
  }

  /** `parseInt(text.replace(/[^0-9]/g, ""), 10) || 0`: the decimal value of
      the digits the text holds, read in order, and 0 when it holds none. */
  function CountFromText(text: string): (n: nat)
    ensures KeepDigits(text) != [] ==> n == DecimalValue(KeepDigits(text))
    ensures KeepDigits(text) == [] ==> n == 0
  {
    ParseInt(KeepDigits(text)).GetOr(0)
  }

  /** A count rendered in decimal and surrounded by digit-free text (a label
      such as "赞同 " or " 条评论") is read back exactly. */
  lemma {:induction false} CountRoundTrip(prefix: string, n: nat, suffix: string)
    requires NoDigits(prefix) && NoDigits(suffix)
    ensures CountFromText(prefix + NatToString(n) + suffix) == n
  {
    KeepDigitsBetween(prefix, NatToString(n), suffix);
    NatToStringRoundTrip(n);
  }

  /** Only the digits between two digit-free texts are kept. */
  lemma {:induction false} KeepDigitsBetween(prefix: string, digits: string, suffix: string)
    requires NoDigits(prefix) && NoDigits(suffix)
    requires AllDigits(digits)
    ensures KeepDigits(prefix + digits + suffix) == digits
  {
    KeepDigitsAppend(prefix + digits, suffix);
    KeepDigitsAppend(prefix, digits);
    KeepDigitsOfNoDigits(prefix);
    KeepDigitsOfNoDigits(suffix);
    KeepDigitsOfDigits(digits);
  }

  /** Text without any digit counts as 0 (`NaN || 0`). */
  lemma {:induction false} CountWithoutDigits(text: string)
    requires NoDigits(text)
    ensures CountFromText(text) == 0
  {
    KeepDigitsOfNoDigits(text);
  }

  /** `extractCount`: the count read from the meta attribute when it is
      usable, from the fallback element's text otherwise, and 0 when neither
      is there. */
  function ExtractCount(meta: MetaLookup, fallbackSelector: string, fallbackText: Option<string>): (n: nat)
    ensures MetaUsable(meta) ==> n == CountFromText(meta.value.value)
    ensures !MetaUsable(meta) && fallbackSelector != "" ==> n == CountFromText(Trim(fallbackText.GetOr("")))
    ensures !MetaUsable(meta) && (fallbackSelector == "" || fallbackText.None?) ==> n == 0
  {
    CountFromText(ExtractInfo(meta, fallbackSelector, fallbackText))
  }

  // ---------------------------------------------------------------------
  // Identifier and URL
  // ---------------------------------------------------------------------

  /** `answerUrl.split("/answer/")[1]`, with `undefined` read as "". */
  function AnswerSegment(answerUrl: string): (segment: string)
    ensures !Includes(segment, AnswerMarker)
  {
    assert !Includes("", AnswerMarker);
    SplitField(answerUrl, AnswerMarker, 1).GetOr("")
  }

  /** `dataset.zopId || answerUrl.split("/answer/")[1] || getUUID()` */
  function AnswerId(zopId: Option<string>, answerUrl: string, draws: seq<nat>): (id: string)
    requires Uuid.ValidDraws(draws)
    ensures id != ""
    ensures zopId.GetOr("") != "" ==> id == zopId.value
    ensures zopId.GetOr("") == "" && AnswerSegment(answerUrl) != "" ==> id == AnswerSegment(answerUrl)
    ensures zopId.GetOr("") == "" && AnswerSegment(answerUrl) == "" ==> id == Uuid.GetUUID(draws)
  {
    if zopId.GetOr("") != "" then zopId.value
    else if AnswerSegment(answerUrl) != "" then AnswerSegment(answerUrl)
    else Uuid.GetUUID(draws)
  }

  /** An answer link `<prefix>/answer/<id>` yields `<id>` when the prefix has
      no earlier `/answer/` and the id holds none. */
  lemma {:induction false} AnswerIdFromLink(prefix: string, id: string, draws: seq<nat>)
    requires Uuid.ValidDraws(draws)
    requires EndsCleanlyBefore(prefix, AnswerMarker)
    requires id != "" && !Includes(id, AnswerMarker)
    ensures AnswerId(None, prefix + AnswerMarker + id, draws) == id
  {
    SecondFieldAfterFirst(prefix, AnswerMarker, id);
  }

  /** Without a zop id or an answer link the identifier is a fresh UUID. */
  lemma {:induction false} AnswerIdWithoutLink(answerUrl: string, draws: seq<nat>)
    requires Uuid.ValidDraws(draws)
    requires !Includes(answerUrl, AnswerMarker)
    ensures AnswerId(None, answerUrl, draws) == Uuid.GetUUID(draws)
  {
    NoSeparatorNoSecondField(answerUrl, AnswerMarker);
  }

  /** `pathname.split("/")[2]`, which a template literal renders as
      "undefined" when the path has fewer pieces. */
  function QuestionSegment(pathname: string): (q: string)
    ensures !Includes(q, "/")
  {
    OneCharAbsent("undefined", '/');
    SplitField(pathname, "/", 2).GetOr("undefined")
  }

  const QuestionUrlPrefix: string := "https://www.zhihu.com/question/"

  /** The URL built when the answer has no link of its own. */
  function SynthesizedUrl(pathname: string, id: string): (url: string)
    ensures |QuestionUrlPrefix| <= |url| && url[..|QuestionUrlPrefix|] == QuestionUrlPrefix
    ensures |id| <= |url| && url[|url| - |id|..] == id
  {
    QuestionUrlPrefix + QuestionSegment(pathname) + AnswerMarker + id
  }

  /** For a numeric question id, the question URL prefix has no `/answer/`
      before the appended one. */
  lemma {:induction false} QuestionPrefixEndsCleanly(q: string)
    requires AllDigits(q)
    ensures EndsCleanlyBefore(QuestionUrlPrefix + q, AnswerMarker)
  {
    var p := QuestionUrlPrefix + q;
    var s := p + AnswerMarker;
    assert OccursAt(s, AnswerMarker, |p|) by {
      assert s[|p|..|p| + |AnswerMarker|] == AnswerMarker;
    }
    OccursAtChar(s, AnswerMarker, 1);
    assert 'a' !in QuestionUrlPrefix;
    forall k | 1 <= k <= |p|
      ensures s[k] != 'a'
    {
      if k < |QuestionUrlPrefix| {
        assert s[k] == QuestionUrlPrefix[k];
      } else if k < |p| {
        assert s[k] == q[k - |QuestionUrlPrefix|];
      } else {
        assert s[k] == AnswerMarker[0];
      }
    }
    IndexOfUnique(s, AnswerMarker, |p|);
  }

  /** The synthesized URL carries the identifier where `AnswerSegment` reads
      it back, for any numeric question id and any identifier without a `/`. */
  lemma {:induction false} SynthesizedUrlRoundTrip(q: string, id: string)
    requires AllDigits(q) && id != "" && '/' !in id
    ensures AnswerSegment(QuestionUrlPrefix + q + AnswerMarker + id) == id
  {
    QuestionPrefixEndsCleanly(q);
    assert !Includes(id, AnswerMarker) by {
      OccursAtChar(id, AnswerMarker, 0);
    }
    SecondFieldAfterFirst(QuestionUrlPrefix + q, AnswerMarker, id);
  }

  /** On a question page `/question/<q>` the question id is `<q>`. */
  lemma {:induction false} QuestionSegmentOf(q: string)
    requires '/' !in q
    ensures QuestionSegment("/question/" + q) == q
  {
    var path := "/question/" + q;
    assert path == "" + "/" + ("question" + "/" + q);
    LastPathPiece("", "question", q);
  }

  /** `(a/b/q).split("/")[2]` is `q` when `a`, `b`, `q` hold no `/`. */
  lemma {:induction false} LastPathPiece(a: string, b: string, q: string)
    requires '/' !in a && '/' !in b && '/' !in q
    ensures QuestionSegment(a + "/" + (b + "/" + q)) == q
  {
    SplitThreePieces(a, b, q, '/');
  }

  /** Below a question page, `/question/<q>/<rest>` (an answer page
      `/question/<q>/answer/<a>`, or `/question/<q>/` itself), the question
      id is still `<q>`. */
  lemma {:induction false} QuestionSegmentUnder(q: string, rest: string)
    requires '/' !in q
    ensures QuestionSegment("/question/" + q + "/" + rest) == q
  {
    var path := "/question/" + q + "/" + rest;
    assert path == "" + "/" + ("question" + "/" + (q + "/" + rest));
    ThirdPathPiece("", "question", q, rest);
  }

  /** `(a/b/q/rest).split("/")[2]` is `q` when `a`, `b`, `q` hold no `/`. */
  lemma {:induction false} ThirdPathPiece(a: string, b: string, q: string, rest: string)
    requires '/' !in a && '/' !in b && '/' !in q
    ensures QuestionSegment(a + "/" + (b + "/" + (q + "/" + rest))) == q
  {
    SplitThreePiecesThenRest(a, b, q, rest, '/');
  }

  /** A path with fewer than three `/`-pieces has no `split("/")[2]`, so the
      question id renders as "undefined". */
  lemma {:induction false} QuestionSegmentShortPath(a: string)
    requires '/' !in a
    ensures QuestionSegment(a) == "undefined"
    ensures QuestionSegment("/" + a) == "undefined"
  {
    CharFreeEndsCleanly("", '/');
    OneCharAbsent(a, '/');
    NoSeparatorNoSecondField(a, "/");
    SplitAfterFirst("", "/", a);
    assert "/" + a == "" + "/" + a;
  }

  /** The URL built on a question page `/question/<q>` for an answer without
      a link of its own gives its identifier back under the id rule. */
  lemma {:induction false} SynthesizedUrlGivesId(q: string, id: string)
    requires AllDigits(q) && id != "" && '/' !in id
    ensures AnswerSegment(SynthesizedUrl("/question/" + q, id)) == id
  {
    assert '/' !in q by {
      forall k | 0 <= k < |q| ensures q[k] != '/' { assert IsDigit(q[k]); }
    }
    QuestionSegmentOf(q);
    SynthesizedUrlRoundTrip(q, id);
  }

  /** The same below a question page, on `/question/<q>/<rest>`. */
  lemma {:induction false} SynthesizedUrlUnderGivesId(q: string, rest: string, id: string)
    requires AllDigits(q) && id != "" && '/' !in id
    ensures AnswerSegment(SynthesizedUrl("/question/" + q + "/" + rest, id)) == id
  {
    assert '/' !in q by {
      forall k | 0 <= k < |q| ensures q[k] != '/' { assert IsDigit(q[k]); }
    }
    QuestionSegmentUnder(q, rest);
    SynthesizedUrlRoundTrip(q, id);
  }

  // ---------------------------------------------------------------------
  // Question title
  // ---------------------------------------------------------------------

  /** `clone.querySelector(".zhihucopier-button")?.remove()` over the title's
      children: drops the first copier button, if any. */
  function RemoveFirstButton(nodes: seq<Node>): (r: seq<Node>)
    ensures (forall k :: 0 <= k < |nodes| ==> !IsButtonNode(nodes[k])) ==> r == nodes
    decreases |nodes|
  {
    if nodes == [] then []
    else if IsButtonNode(nodes[0]) then nodes[1..]
    else [nodes[0]] + RemoveFirstButton(nodes[1..])
  }

  lemma {:induction false} RemoveFirstButtonSplit(before: seq<Node>, b: Node, after: seq<Node>)
    requires forall k :: 0 <= k < |before| ==> !IsButtonNode(before[k])
    requires IsButtonNode(b)
    ensures RemoveFirstButton(before + [b] + after) == before + after
    decreases |before|
  {
    var s := before + [b] + after;
    if before == [] {
      assert s[1..] == after;
    } else {
      assert s[0] == before[0];
      assert s[1..] == before[1..] + [b] + after;
      RemoveFirstButtonSplit(before[1..], b, after);
    }
  }

  /** The title text, or "未知问题" when the page has no title element or its
      text (without the copier button) is blank. */
  function QuestionTitle(titleChildren: Option<seq<Node>>): (title: string)
    ensures title != "" && IsTrimmed(title)
    ensures titleChildren.None? ==> title == UnknownQuestion
    ensures titleChildren.Some? && Trim(TextContent(RemoveFirstButton(titleChildren.value))) != "" ==>
              title == Trim(TextContent(RemoveFirstButton(titleChildren.value)))
    ensures titleChildren.Some? && Trim(TextContent(RemoveFirstButton(titleChildren.value))) == "" ==>
              title == UnknownQuestion
  {
    match titleChildren
    case None => UnknownQuestion
    case Some(nodes) =>
      var t := Trim(TextContent(RemoveFirstButton(nodes)));
      assert IsTrimmed(UnknownQuestion) by {
        assert UnknownQuestion[0] == '未' && UnknownQuestion[|UnknownQuestion| - 1] == '题';
      }
      if t != "" then t else UnknownQuestion
  }

  /** The copier button the tool inserts into the title never leaks its label
      into the question title. */
  lemma {:induction false} TitleIgnoresCopierButton(before: seq<Node>, button: Element, after: seq<Node>)
    requires forall k :: 0 <= k < |before| ==> !IsButtonNode(before[k])
    requires forall k :: 0 <= k < |after| ==> !IsButtonNode(after[k])
    requires IsCopierButton(button)
    ensures QuestionTitle(Some(before + [ElementNode(button)] + after)) == QuestionTitle(Some(before + after))
  {
    var withButton := before + [ElementNode(button)] + after;
    RemoveFirstButtonSplit(before, ElementNode(button), after);
    assert RemoveFirstButton(withButton) == before + after;
    assert RemoveFirstButton(before + after) == before + after by {
      forall k | 0 <= k < |before + after|
        ensures !IsButtonNode((before + after)[k])
      {
        if k >= |before| {
          assert (before + after)[k] == after[k - |before|];
        }
      }
    }
  }

  // ---------------------------------------------------------------------
  // extractAnswerData
  // ---------------------------------------------------------------------

  function AnswerUrl(el: AnswerElement): (url: string)
    ensures el.timeLink.Some? ==> url == el.timeLink.value.href
    ensures el.timeLink.None? ==> url == ""
  {
    match el.timeLink
    case Some(a) => a.href
    case None => ""
  }

  function ModifiedTime(el: AnswerElement): string {
    ExtractInfo(el.modifiedMeta, TimeSpanSelector, el.timeSpanText)
  }

  /** The time span exists and does not say the answer was edited. */
  predicate NeverEdited(el: AnswerElement) {
    el.timeSpanText.Some? && !Includes(el.timeSpanText.value, EditedMarker)
  }

  /** Lines 92-102 of `extractAnswerData`: the creation time, and the update
      time, which is cleared for an answer whose time span does not say it was
      edited and whenever it equals the creation time. */
  method ExtractTimes(el: AnswerElement) returns (createdTime: string, updatedTime: string)
    ensures createdTime == ExtractInfo(el.createdMeta, TooltipSelector, el.tooltipText)
    ensures NeverEdited(el) ==> updatedTime == ""
    ensures updatedTime == createdTime ==> updatedTime == ""
    ensures updatedTime != "" ==> updatedTime == ModifiedTime(el)
    ensures !NeverEdited(el) && ModifiedTime(el) != createdTime ==> updatedTime == ModifiedTime(el)
  {
    createdTime := ExtractInfo(el.createdMeta, TooltipSelector, el.tooltipText);
    updatedTime := ExtractInfo(el.modifiedMeta, TimeSpanSelector, el.timeSpanText);
    if el.timeSpanText.Some? && !Includes(el.timeSpanText.value, EditedMarker) {
      updatedTime := createdTime;
    }
    if updatedTime == createdTime {
      updatedTime := "";
    }
  }

  /** Lines 107-114 of `extractAnswerData`: the answer is editor-recommended
      exactly when some `.ContentItem-meta div` reads "编辑推荐" once trimmed. */
  method HasEditorRecommendation(metaDivTexts: seq<string>) returns (isEditorRecommended: bool)
    ensures isEditorRecommended <==>
              exists k :: 0 <= k < |metaDivTexts| && Trim(metaDivTexts[k]) == EditorRecommended
  {
    isEditorRecommended := false;
    var i := 0;
    while i < |metaDivTexts|
      invariant 0 <= i <= |metaDivTexts|
      invariant !isEditorRecommended
      invariant forall k :: 0 <= k < i ==> Trim(metaDivTexts[k]) != EditorRecommended
    {
      if Trim(metaDivTexts[i]) == EditorRecommended {
        isEditorRecommended := true;
        break;
      }
      i := i + 1;
    }
  }

  /** `answerUrl || https://www.zhihu.com/question/<path piece>/answer/<id>` */
  function AnswerPageUrl(el: AnswerElement, page: PageContext, id: string): (url: string)
    ensures AnswerUrl(el) != "" ==> url == AnswerUrl(el)
    ensures AnswerUrl(el) == "" ==> url == SynthesizedUrl(page.pathname, id)
  {
    var answerUrl := AnswerUrl(el);
    if answerUrl != "" then answerUrl else SynthesizedUrl(page.pathname, id)
  }

  /** `authorElement?.textContent?.trim() || "匿名用户"`: never blank. */
  function AuthorName(el: AnswerElement): (name: string)
    ensures name != "" && IsTrimmed(name)
    ensures el.authorLink.Some? && Trim(el.authorLink.value.textContent) != "" ==>
              name == Trim(el.authorLink.value.textContent)
    ensures el.authorLink.None? || Trim(el.authorLink.value.textContent) == "" ==> name == AnonymousUser
  {
    var t := if el.authorLink.Some? then Trim(el.authorLink.value.textContent) else "";
    assert IsTrimmed(AnonymousUser) by {
      assert AnonymousUser[0] == '匿' && AnonymousUser[|AnonymousUser| - 1] == '户';
    }
    if t != "" then t else AnonymousUser
  }

  /** `authorElement?.href || ""` */
  function AuthorUrl(el: AnswerElement): (url: string)
    ensures el.authorLink.Some? ==> url == el.authorLink.value.href
    ensures el.authorLink.None? ==> url == ""
  {
    match el.authorLink
    case Some(a) => a.href
    case None => ""
  }

  /** `querySelector(".AuthorInfo-badgeText")?.textContent?.trim()`:
      `undefined` when the badge element is missing. */
  function AuthorBadge(el: AnswerElement): (badge: Option<string>)
    ensures badge.Some? <==> el.badgeText.Some?
    ensures badge.Some? ==> IsTrimmed(badge.value) && badge.value == Trim(el.badgeText.value)
  {
    match el.badgeText
    case Some(t) => Some(Trim(t))
    case None => None
  }

  /** `!!voteInfoElement && voteInfoElement.textContent?.includes("等人赞同")`:
      the vote note exists and "等人赞同" occurs somewhere in it. */
  function FollowedVoted(el: AnswerElement): (b: bool)
    ensures b <==> el.voteInfoText.Some? && exists j :: OccursAt(el.voteInfoText.value, FollowedVotedMarker, j)
  {
    el.voteInfoText.Some? && Includes(el.voteInfoText.value, FollowedVotedMarker)
  }

  /** A badge surrounded by whitespace reads as the badge text alone. */
  lemma {:induction false} AuthorBadgePadded(el: AnswerElement, w1: string, badge: string, w2: string)
    requires AllWhitespace(w1) && AllWhitespace(w2) && IsTrimmed(badge)
    requires el.badgeText == Some(w1 + badge + w2)
    ensures AuthorBadge(el) == Some(badge)
  {
    TrimPadded(w1, badge, w2);
  }

  /** A note such as "张三等人赞同了该回答" marks the answer, wherever the
      marker sits in it. */
  lemma {:induction false} FollowedVotedByMarker(el: AnswerElement, before: string, after: string)
    requires el.voteInfoText == Some(before + FollowedVotedMarker + after)
    ensures FollowedVoted(el)
  {
    var t := before + FollowedVotedMarker + after;
    assert t[|before|..|before| + |FollowedVotedMarker|] == FollowedVotedMarker;
    assert OccursAt(t, FollowedVotedMarker, |before|);
  }

  /** Without the note, or with a note that never says "等人赞同", the answer
      is not marked. */
  lemma {:induction false} NotFollowedVotedWithoutMarker(el: AnswerElement)
    requires el.voteInfoText.None? || forall j :: !OccursAt(el.voteInfoText.value, FollowedVotedMarker, j)
    ensures !FollowedVoted(el)
  {
  }

  /** `extractAnswerData`: every field of the record follows its fallback
      chain; the update time and the recommendation flag are computed step by
      step as the source does. */
  method ExtractAnswerData(el: AnswerElement, page: PageContext, markdownContent: string, draws: seq<nat>)
    returns (d: ExtractedAnswerData)
    requires Uuid.ValidDraws(draws)
    ensures d.id == AnswerId(el.zopId, AnswerUrl(el), draws)
    ensures d.url == AnswerPageUrl(el, page, d.id)
    ensures d.title == QuestionTitle(page.titleChildren)
    ensures d.authorName == AuthorName(el)
    ensures d.authorUrl == AuthorUrl(el)
    ensures d.authorBadge == AuthorBadge(el)
    ensures d.upvoteCount == ExtractCount(el.upvoteMeta, UpvoteButtonSelector, el.upvoteButtonText)
    ensures d.commentCount == ExtractCount(el.commentMeta, CommentButtonSelector, el.commentButtonText)
    ensures d.createdTime == ExtractInfo(el.createdMeta, TooltipSelector, el.tooltipText)
    ensures NeverEdited(el) ==> d.updatedTime == ""
    ensures d.updatedTime == d.createdTime ==> d.updatedTime == ""
    ensures d.updatedTime != "" ==> d.updatedTime == ModifiedTime(el)
    ensures !NeverEdited(el) && ModifiedTime(el) != d.createdTime ==> d.updatedTime == ModifiedTime(el)
    ensures d.isFollowedVoted == FollowedVoted(el)
    ensures d.isEditorRecommended <==>
              exists k :: 0 <= k < |el.metaDivTexts| && Trim(el.metaDivTexts[k]) == EditorRecommended
    ensures d.content == markdownContent
  {
    var id := AnswerId(el.zopId, AnswerUrl(el), draws);
    var createdTime, updatedTime := ExtractTimes(el);
    var isEditorRecommended := HasEditorRecommendation(el.metaDivTexts);
    d := ExtractedAnswerData(
      id, AnswerPageUrl(el, page, id), QuestionTitle(page.titleChildren),
      AuthorName(el), AuthorBadge(el), AuthorUrl(el),
      ExtractCount(el.upvoteMeta, UpvoteButtonSelector, el.upvoteButtonText),
      ExtractCount(el.commentMeta, CommentButtonSelector, el.commentButtonText),
      createdTime, updatedTime, FollowedVoted(el), isEditorRecommended, markdownContent);
  }
}
