/** The Markdown the tool downloads (`generateSingleAnswerMarkdown` and the
    question document in src/index.ts): each answer becomes an optional
    heading, a block of metadata lines, a rule, and the answer body; a
    question document is a title, a source link and every collected answer
    separated by a thicker rule.

    `new Date(t).toLocaleString()` depends on the locale and the clock's time
    zone; it is the parameter `localeString` here. */
module AnswerMarkdown {
  import opened JsText
  import opened Extractor

  const HeadingMark: string := "### "
  const AuthorLabel: string := "**作者**"
  const LinkLabel: string := "**回答链接**"
  const VoteLabel: string := "**赞同数**"
  const CommentLabel: string := "**评论数**"
  const CreatedLabel: string := "**创建时间**"
  const UpdatedLabel: string := "**更新时间**"
  const RecommendedLine: string := "**编辑推荐**\n"
  const FollowedSuffix: string := " (包含我关注的人)"
  /** The rule between the metadata and the body. */
  const BodyRule: string := "\n---\n\n"
  /** The rule between answers in a question document. */
  const AnswerSeparator: string := "\n\n------\n\n"

  /** `text.startsWith(prefix)` */
  predicate StartsWith(text: string, prefix: string) {
    |prefix| <= |text| && text[..|prefix|] == prefix
  }

  /** Some line starts with `caption`. */
  predicate HasLine(lines: seq<string>, caption: string) {
    exists k :: 0 <= k < |lines| && StartsWith(lines[k], caption)
  }

  /** The lines concatenated (each carries its own line break). */
  function Concat(lines: seq<string>): string
    decreases |lines|
  {
    if lines == [] then "" else lines[0] + Concat(lines[1..])
  }

  // ---------------------------------------------------------------------
  // One answer
  // ---------------------------------------------------------------------

  /** `### <title>` for a pin item that has a title of its own. */
  function Heading(answer: ExtractedAnswerData, questionTitle: string): string {
    if answer.title != "" && answer.title != questionTitle then HeadingMark + answer.title + "\n\n" else ""
  }

  /** `<caption>: <value>` and a line break. */
  function LabelledLine(caption: string, value: string): string {
    caption + (": " + value + "\n")
  }

  /** `**作者**: [name](url)`, then ` (badge)` for a non-empty badge. */
  function AuthorLine(answer: ExtractedAnswerData): string {
    var badge := if answer.authorBadge.GetOr("") != "" then " (" + answer.authorBadge.value + ")" else "";
    LabelledLine(AuthorLabel, "[" + answer.authorName + "](" + answer.authorUrl + ")" + badge)
  }

  /** `**赞同数**: n`, then ` (包含我关注的人)` when someone followed voted. */
  function VoteLine(answer: ExtractedAnswerData): string {
    LabelledLine(VoteLabel, NatToString(answer.upvoteCount) + (if answer.isFollowedVoted then FollowedSuffix else ""))
  }

  /** The metadata block, line by line: author, link, votes and comments
      always; the creation time, the update time and the recommendation mark
      only when present. */
  function MetaLines(answer: ExtractedAnswerData, localeString: string -> string): seq<string> {
    [AuthorLine(answer),
     LabelledLine(LinkLabel, answer.url),
     VoteLine(answer),
     LabelledLine(CommentLabel, NatToString(answer.commentCount))]
    + (if answer.createdTime != "" then [LabelledLine(CreatedLabel, localeString(answer.createdTime))] else [])
    + (if answer.updatedTime != "" then [LabelledLine(UpdatedLabel, localeString(answer.updatedTime))] else [])
    + (if answer.isEditorRecommended then [RecommendedLine] else [])
  }

  /** The label each metadata line starts with, line by line. */
  function MetaLabels(answer: ExtractedAnswerData): seq<string> {
    [AuthorLabel, LinkLabel, VoteLabel, CommentLabel]
    + (if answer.createdTime != "" then [CreatedLabel] else [])
    + (if answer.updatedTime != "" then [UpdatedLabel] else [])
    + (if answer.isEditorRecommended then [RecommendedLine] else [])
  }

  /** Everything before the rule: the optional heading and the metadata. */
  function FrontMatter(answer: ExtractedAnswerData, questionTitle: string, localeString: string -> string): string {
    Heading(answer, questionTitle) + Concat(MetaLines(answer, localeString))
  }

  /** `generateSingleAnswerMarkdown`: the front matter, then the rule, then
      the answer body, unchanged, so the body can be cut back out of it. */
  function SingleAnswerMarkdown(answer: ExtractedAnswerData, questionTitle: string, localeString: string -> string): (md: string)
    ensures |BodyRule| + |answer.content| <= |md|
    ensures md[|md| - |answer.content|..] == answer.content
    ensures md[|md| - |answer.content| - |BodyRule|..|md| - |answer.content|] == BodyRule
  {
    FrontMatter(answer, questionTitle, localeString) + BodyRule + answer.content
  }

  lemma {:induction false} StartsWithConcat(a: string, b: string)
    ensures StartsWith(a + b, a)
  {
    assert (a + b)[..|a|] == a;
  }

  /** Two prefixes that differ at their third character exclude each other. */
  lemma {:induction false} DistinctCaptions(text: string, a: string, b: string)
    requires |a| > 2 && |b| > 2 && a[2] != b[2]
    requires StartsWith(text, a)
    ensures !StartsWith(text, b)
  {
    assert text[2] == text[..|a|][2];
  }

  /** Each metadata line starts with its label. */
  lemma {:induction false} MetaLinesLabelled(answer: ExtractedAnswerData, localeString: string -> string)
    ensures |MetaLines(answer, localeString)| == |MetaLabels(answer)|
    ensures forall k :: 0 <= k < |MetaLabels(answer)| ==>
              StartsWith(MetaLines(answer, localeString)[k], MetaLabels(answer)[k])
  {
    var lines := MetaLines(answer, localeString);
    var labels := MetaLabels(answer);
    forall k | 0 <= k < |labels|
      ensures StartsWith(lines[k], labels[k])
    {
      if lines[k] == RecommendedLine {
        assert labels[k] == RecommendedLine;
        StartsWithConcat(RecommendedLine, "");
        assert RecommendedLine + "" == RecommendedLine;
      } else {
        assert exists v :: lines[k] == LabelledLine(labels[k], v);
        var v :| lines[k] == LabelledLine(labels[k], v);
        StartsWithConcat(labels[k], ": " + v + "\n");
      }
    }
  }

  lemma {:induction false} StartsWithTrans(text: string, mid: string, prefix: string)
    requires StartsWith(text, mid) && StartsWith(mid, prefix)
    ensures StartsWith(text, prefix)
  {
    assert text[..|prefix|] == text[..|mid|][..|prefix|];
  }

  /** The output opens with a heading exactly when the answer has a title of
      its own; otherwise it opens with the author line. */
  lemma {:induction false} StartsWithHeadingIff(answer: ExtractedAnswerData, questionTitle: string, localeString: string -> string)
    ensures StartsWith(SingleAnswerMarkdown(answer, questionTitle, localeString), HeadingMark)
            <==> answer.title != "" && answer.title != questionTitle
    ensures answer.title != "" && answer.title != questionTitle ==>
              StartsWith(SingleAnswerMarkdown(answer, questionTitle, localeString), HeadingMark + answer.title + "\n\n")
    ensures !(answer.title != "" && answer.title != questionTitle) ==>
              StartsWith(SingleAnswerMarkdown(answer, questionTitle, localeString), AuthorLabel)
  {
    var md := SingleAnswerMarkdown(answer, questionTitle, localeString);
    var front := FrontMatter(answer, questionTitle, localeString);
    var heading := Heading(answer, questionTitle);
    var lines := MetaLines(answer, localeString);
    assert md == front + (BodyRule + answer.content);
    StartsWithConcat(front, BodyRule + answer.content);
    StartsWithConcat(heading, Concat(lines));
    StartsWithTrans(md, front, heading);
    if answer.title != "" && answer.title != questionTitle {
      assert heading == HeadingMark + (answer.title + "\n\n");
      StartsWithConcat(HeadingMark, answer.title + "\n\n");
      StartsWithTrans(md, heading, HeadingMark);
    } else {
      assert heading == "";
      assert front == Concat(lines);
      assert Concat(lines) == lines[0] + Concat(lines[1..]);
      StartsWithConcat(lines[0], Concat(lines[1..]));
      StartsWithTrans(md, front, lines[0]);
      MetaLinesLabelled(answer, localeString);
      assert MetaLabels(answer)[0] == AuthorLabel;
      StartsWithTrans(md, lines[0], AuthorLabel);
      DistinctCaptions(md, AuthorLabel, HeadingMark);
    }
  }

  /** The metadata labels differ at their third character, so each optional
      line is present exactly when its field is. */
  lemma {:induction false} OptionalLines(answer: ExtractedAnswerData, localeString: string -> string)
    ensures HasLine(MetaLines(answer, localeString), CreatedLabel) <==> answer.createdTime != ""
    ensures HasLine(MetaLines(answer, localeString), UpdatedLabel) <==> answer.updatedTime != ""
    ensures HasLine(MetaLines(answer, localeString), RecommendedLine) <==> answer.isEditorRecommended
  {
    var lines := MetaLines(answer, localeString);
    var labels := MetaLabels(answer);
    MetaLinesLabelled(answer, localeString);
    OptionalLabel(answer, lines, CreatedLabel, answer.createdTime != "");
    OptionalLabel(answer, lines, UpdatedLabel, answer.updatedTime != "");
    OptionalLabel(answer, lines, RecommendedLine, answer.isEditorRecommended);
  }

  /** A line starting with one of the optional labels is there exactly when
      that label is among the labels. */
  lemma {:induction false} OptionalLabel(answer: ExtractedAnswerData, lines: seq<string>, caption: string, present: bool)
    requires caption in {CreatedLabel, UpdatedLabel, RecommendedLine}
    requires present <==> caption in MetaLabels(answer)
    requires |lines| == |MetaLabels(answer)|
    requires forall k :: 0 <= k < |lines| ==> StartsWith(lines[k], MetaLabels(answer)[k])
    ensures HasLine(lines, caption) <==> present
  {
    var labels := MetaLabels(answer);
    if present {
      var k :| 0 <= k < |labels| && labels[k] == caption;
      assert StartsWith(lines[k], caption);
    } else {
      forall k | 0 <= k < |lines| ensures !StartsWith(lines[k], caption) {
        assert labels[k] != caption;
        assert |labels[k]| > 2 && labels[k][2] != caption[2];
        DistinctCaptions(lines[k], labels[k], caption);
      }
    }
  }

  /** The vote line carries the " (包含我关注的人)" note exactly when someone
      the reader follows voted: otherwise it holds only the label, the
      count and the line break, none of which contains "包". */
  lemma {:induction false} VoteLineMarksFollowed(answer: ExtractedAnswerData)
    ensures Includes(VoteLine(answer), FollowedSuffix) <==> answer.isFollowedVoted
    ensures answer.isFollowedVoted ==>
              VoteLine(answer) == VoteLabel + ": " + NatToString(answer.upvoteCount) + FollowedSuffix + "\n"
    ensures !answer.isFollowedVoted ==>
              VoteLine(answer) == VoteLabel + ": " + NatToString(answer.upvoteCount) + "\n"
  {
    var digits := NatToString(answer.upvoteCount);
    var line := VoteLine(answer);
    var head := VoteLabel + ": " + digits;
    if answer.isFollowedVoted {
      assert line == head + FollowedSuffix + "\n";
      assert line[|head|..|head| + |FollowedSuffix|] == FollowedSuffix;
      assert OccursAt(line, FollowedSuffix, |head|);
    } else {
      assert line == head + "\n";
      assert FollowedSuffix[2] == '包';
      forall k | 0 <= k < |line| ensures line[k] != '包' {
        if k < |VoteLabel + ": "| {
          assert line[k] == (VoteLabel + ": ")[k];
        } else if k < |head| {
          assert line[k] == digits[k - |VoteLabel + ": "|];
        }
      }
      forall j | 0 <= j <= |line| ensures !OccursAt(line, FollowedSuffix, j) {
        if j + |FollowedSuffix| <= |line| {
          assert line[j..j + |FollowedSuffix|][2] == line[j + 2];
        }
      }
    }
  }

  /** The author line carries the badge in parentheses after the profile
      link exactly when the badge is non-empty. */
  lemma {:induction false} AuthorLineBadge(answer: ExtractedAnswerData)
    ensures answer.authorBadge.GetOr("") == "" ==>
              AuthorLine(answer) == AuthorLabel + ": [" + answer.authorName + "](" + answer.authorUrl + ")\n"
    ensures answer.authorBadge.GetOr("") != "" ==>
              AuthorLine(answer) == AuthorLabel + ": [" + answer.authorName + "](" + answer.authorUrl + ") ("
                                    + answer.authorBadge.value + ")\n"
  {
    var link := "[" + answer.authorName + "](" + answer.authorUrl + ")";
    if answer.authorBadge.GetOr("") == "" {
      assert AuthorLine(answer) == AuthorLabel + (": " + (link + "") + "\n");
    } else {
      assert AuthorLine(answer) == AuthorLabel + (": " + (link + (" (" + answer.authorBadge.value + ")")) + "\n");
    }
  }

  // ---------------------------------------------------------------------
  // Documents
  // ---------------------------------------------------------------------

  /** `# <title>\n\n源问题链接: <url>\n\n` */
  function Header(title: string, url: string): (h: string)
    ensures StartsWith(h, "# " + title + "\n\n")
    ensures h[|"# " + title + "\n\n"|..] == "源问题链接: " + url + "\n\n"
    ensures |url| + 2 <= |h| && h[|h| - |url| - 2..] == url + "\n\n"
  {
    "# " + title + "\n\n" + "源问题链接: " + url + "\n\n"
  }

  /** `answers.map(a => generateSingleAnswerMarkdown(a, title))` */
  function RenderAll(answers: seq<ExtractedAnswerData>, title: string, localeString: string -> string): (parts: seq<string>)
    ensures |parts| == |answers|
    ensures forall k :: 0 <= k < |answers| ==> parts[k] == SingleAnswerMarkdown(answers[k], title, localeString)
    decreases |answers|
  {
    if answers == [] then []
    else [SingleAnswerMarkdown(answers[0], title, localeString)] + RenderAll(answers[1..], title, localeString)
  }

  /** The question document: the header, then the answers in list order,
      separated by the answer rule. */
  function QuestionMarkdown(title: string, url: string, answers: seq<ExtractedAnswerData>, localeString: string -> string): (md: string)
    ensures StartsWith(md, Header(title, url))
    ensures answers == [] ==> md == Header(title, url)
    ensures md[|Header(title, url)|..] == Join(RenderAll(answers, title, localeString), AnswerSeparator)
  {
    var h := Header(title, url);
    var md := h + Join(RenderAll(answers, title, localeString), AnswerSeparator);
    assert md[..|h|] == h;
    assert md[|h|..] == Join(RenderAll(answers, title, localeString), AnswerSeparator);
    md
  }

  /** The answers can be cut back out of a question document, in order,
      whenever no rendered answer runs into the answer rule. */
  lemma {:induction false} QuestionMarkdownSplits(title: string, url: string, answers: seq<ExtractedAnswerData>, localeString: string -> string)
    requires answers != []
    requires forall k :: 0 <= k < |answers| ==>
               EndsCleanlyBefore(SingleAnswerMarkdown(answers[k], title, localeString), AnswerSeparator)
    ensures Split(QuestionMarkdown(title, url, answers, localeString)[|Header(title, url)|..], AnswerSeparator)
            == RenderAll(answers, title, localeString)
  {
    JoinSplit(RenderAll(answers, title, localeString), AnswerSeparator);
  }

  /** The single-answer download (the "下载Markdown" button): the header
      for the answer's own title, then the answer. */
  function SingleAnswerDocument(answer: ExtractedAnswerData, url: string, localeString: string -> string): (md: string)
    ensures StartsWith(md, Header(answer.title, url))
    ensures md[|Header(answer.title, url)|..] == SingleAnswerMarkdown(answer, answer.title, localeString)
  {
    var h := Header(answer.title, url);
    var md := h + SingleAnswerMarkdown(answer, answer.title, localeString);
    assert md[..|h|] == h;
    md
  }

  /** The single-answer download never repeats its title as a heading. */
  lemma {:induction false} SingleAnswerDocumentHasNoHeading(answer: ExtractedAnswerData, url: string, localeString: string -> string)
    ensures !StartsWith(SingleAnswerDocument(answer, url, localeString)[|Header(answer.title, url)|..], HeadingMark)
  {
    var h := Header(answer.title, url);
    var md := SingleAnswerDocument(answer, url, localeString);
    assert md[|h|..] == SingleAnswerMarkdown(answer, answer.title, localeString);
    StartsWithHeadingIff(answer, answer.title, localeString);
  }
}
