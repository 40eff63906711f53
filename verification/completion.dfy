/** The completion-text protocol shared by both parsers: the delimiter tags,
    the fields a first-turn reply carries, the index errors a parse can hit,
    and the facts about gluing tags and tag-free fields together that the
    round-trip proofs need. */
module Completion {
  import opened Results
  import opened PyStr

  /** The four fields of a first-turn story: the `story` record of api.py and
      the arguments apicalls.py passes to `create_story` and `StoryStep`. */
  datatype StoryFields = StoryFields(title: string, startContent: string, choice1: string, choice2: string)

  /** The IndexError a parse raises, by the list it indexes past:
      the `[start_content]` split (no body) or the `[choice_text]` split
      (fewer than two choices). */
  datatype ParseError = MissingStartContent | MissingChoice

  const Title: string := "[title]"
  /** The title tag as the earlier draft removes it: with its line break. */
  const TitleLine: string := "[title]\n"
  const StartContent: string := "[start_content]"
  const ChoiceText: string := "[choice_text]"
  const EndContent: string := "[end_content]"

  /** A tag opens with '[' and has no other '['. */
  predicate IsTag(t: string) {
    |t| >= 2 && t[0] == '[' && '[' !in t[1..]
  }

  /** Two tags that already differ in their second character. */
  predicate Apart(m: string, p: string) {
    IsTag(m) && IsTag(p) && m[1] != p[1]
  }

  /** A field value in which none of the four tags appears. */
  predicate TagFree(s: string) {
    && !Contains(s, Title)
    && !Contains(s, StartContent)
    && !Contains(s, ChoiceText)
    && !Contains(s, EndContent)
  }

  /** A field as a well-behaved reply delivers it: tag-free, no surrounding
      whitespace. */
  predicate IsField(s: string) {
    TagFree(s) && Stripped(s)
  }

  lemma TitleIsTag() ensures IsTag(Title) && Stripped(Title) {}
  lemma TitleLineIsTag() ensures IsTag(TitleLine) && TitleLine == Title + "\n" {}
  lemma StartContentIsTag() ensures IsTag(StartContent) && Stripped(StartContent) {}
  lemma ChoiceTextIsTag() ensures IsTag(ChoiceText) && Stripped(ChoiceText) {}
  lemma EndContentIsTag() ensures IsTag(EndContent) && Stripped(EndContent) {}

  /** The tag facts the round trips rely on: each tag is a tag, the four
      written tags carry no surrounding whitespace, and any two distinct tags
      other than the two spellings of the title tag are apart. */
  lemma AllTags()
    ensures IsTag(Title) && IsTag(TitleLine) && IsTag(StartContent) && IsTag(ChoiceText) && IsTag(EndContent)
    ensures Stripped(Title) && Stripped(StartContent) && Stripped(ChoiceText) && Stripped(EndContent)
    ensures Apart(Title, StartContent) && Apart(Title, ChoiceText) && Apart(Title, EndContent)
    ensures Apart(TitleLine, StartContent) && Apart(TitleLine, ChoiceText) && Apart(TitleLine, EndContent)
    ensures Apart(StartContent, ChoiceText) && Apart(StartContent, EndContent) && Apart(ChoiceText, EndContent)
    ensures Apart(ChoiceText, StartContent) && Apart(EndContent, StartContent) && Apart(EndContent, ChoiceText)
    ensures Apart(StartContent, Title) && Apart(ChoiceText, Title) && Apart(EndContent, Title)
    ensures TitleLine == Title + "\n"
  {
    TitleIsTag();
    TitleLineIsTag();
    StartContentIsTag();
    ChoiceTextIsTag();
    EndContentIsTag();
  }

  /** A tag written in front of a stripped, tag-free text comes off again
      under `strip`, remove-the-tag, `strip`. */
  lemma {:induction false} TagComesOff(tag: string, t: string)
    requires HeadUnique(tag) && Stripped(tag) && Stripped(t) && !Contains(t, tag)
    ensures Strip(Remove(Strip(tag + t), tag)) == t
  {
    StrippedConcat(tag, t);
    StripOfStripped(tag + t);
    RemoveLeadingOnly(t, tag);
    StripOfStripped(t);
  }

  /** The same with whitespace between the tag and the text: `strip` takes
      the whitespace once the tag is gone. */
  lemma {:induction false} TagComesOffSpaced(tag: string, w: string, t: string)
    requires HeadUnique(tag) && Stripped(tag) && AllSpace(w) && Stripped(t) && |t| > 0
    requires !Contains(w + t, tag)
    ensures Strip(Remove(Strip(tag + (w + t)), tag)) == t
  {
    var s := tag + (w + t);
    assert Stripped(s) by {
      assert s[0] == tag[0];
      assert s[|s| - 1] == t[|t| - 1];
    }
    StripOfStripped(s);
    RemoveLeadingOnly(w + t, tag);
    assert w + t == w + t + "";
    StripPadded(w, t, "");
  }

  /** Whitespace in front of a tag-free text keeps it tag-free. */
  lemma {:induction false} SpacedFree(w: string, t: string)
    requires AllSpace(w) && TagFree(t)
    ensures TagFree(w + t)
  {
    AllSpaceLacks(w, '[');
    TitleIsTag();
    StartContentIsTag();
    ChoiceTextIsTag();
    EndContentIsTag();
    if Contains(w + t, Title) { ContainsSkipHead(w, t, Title); }
    if Contains(w + t, StartContent) { ContainsSkipHead(w, t, StartContent); }
    if Contains(w + t, ChoiceText) { ContainsSkipHead(w, t, ChoiceText); }
    if Contains(w + t, EndContent) { ContainsSkipHead(w, t, EndContent); }
  }

  /** A tag never contains another tag it is apart from. */
  lemma {:induction false} ApartNotContained(m: string, p: string)
    requires Apart(m, p)
    ensures !Contains(m, p)
  {
    assert !IsPrefix(p, m) by { if |p| <= |m| { assert m[..|p|][1] == m[1]; } }
    HeadAbsentNeverContains(m[1..], p);
  }

  /** Writing tag m between two p-free strings creates no occurrence of a tag
      p apart from m: this is why tag-free fields survive the round trip. */
  lemma {:induction false} Glue(x: string, m: string, y: string, p: string)
    requires Apart(m, p)
    requires !Contains(x, p) && !Contains(y, p)
    ensures !Contains(x + m + y, p)
  {
    var t := m + y;
    assert !IsPrefix(p, t) by { assert |p| <= |t| ==> t[..|p|][1] == m[1]; }
    assert t[1..] == m[1..] + y;
    if Contains(m[1..] + y, p) {
      ContainsSkipHead(m[1..], y, p);
    }
    assert x + m + y == x + t;
    NoStraddle(x, t, p);
  }

  /** Glue for all four tags at once: two fields joined by a tag (other than
      the title tags) stay free of every tag but the one written. */
  lemma {:induction false} GlueFree(x: string, m: string, y: string)
    requires m == StartContent || m == ChoiceText || m == EndContent
    requires TagFree(x) && TagFree(y)
    ensures !Contains(x + m + y, Title)
    ensures m != StartContent ==> !Contains(x + m + y, StartContent)
    ensures m != ChoiceText ==> !Contains(x + m + y, ChoiceText)
    ensures m != EndContent ==> !Contains(x + m + y, EndContent)
  {
    AllTags();
    Glue(x, m, y, Title);
    if m != StartContent { Glue(x, m, y, StartContent); }
    if m != ChoiceText { Glue(x, m, y, ChoiceText); }
    if m != EndContent { Glue(x, m, y, EndContent); }
  }

  // ---------------------------------------------------------------------
  // The split both parsers share

  /** `response_parts[0]`: the text before the first [choice_text]. It is
      free of that tag and is either the whole reply or followed by it. */
  function Preamble(reply: string): (r: string)
    ensures IsPrefix(r, reply) && !Contains(r, ChoiceText)
    ensures r == reply || IsPrefix(r + ChoiceText, reply)
  {
    var parts := Split(reply, ChoiceText);
    SplitPiecesFree(reply, ChoiceText);
    JoinSplit(reply, ChoiceText);
    assert |parts| > 1 ==> reply == parts[0] + ChoiceText + Join(parts[1..], ChoiceText);
    parts[0]
  }

  /** The sections of a first-turn reply, cut the way both versions of
      `make_api_request` cut it: split on [choice_text], split the first
      piece on [start_content], strip every section. The title section keeps
      its tag here; each version removes it by its own rule.
      Indexing a piece that is not there is the IndexError of the source:
      the [start_content] piece is indexed first. */
  function Sections(reply: string): (r: Result<StoryFields, ParseError>)
    ensures r == Failure(MissingStartContent) <==> !Contains(Preamble(reply), StartContent)
    ensures r == Failure(MissingChoice) <==>
              Contains(Preamble(reply), StartContent) && Occurrences(reply, ChoiceText) < 2
    ensures r.Success? ==>
              && Stripped(r.value.title) && Stripped(r.value.startContent)
              && Stripped(r.value.choice1) && Stripped(r.value.choice2)
              && !Contains(r.value.title, ChoiceText) && !Contains(r.value.startContent, ChoiceText)
              && !Contains(r.value.title, StartContent) && !Contains(r.value.startContent, StartContent)
              && !Contains(r.value.choice1, ChoiceText) && !Contains(r.value.choice2, ChoiceText)
  {
    var parts := Split(reply, ChoiceText);
    var head := Split(parts[0], StartContent);
    SplitCount(reply, ChoiceText);
    SplitCutsIffContains(parts[0], StartContent);
    SplitPiecesFree(reply, ChoiceText);
    SplitPiecesFree(parts[0], StartContent);
    SplitPiecesInherit(parts[0], StartContent, ChoiceText);
    if |head| < 2 then Failure(MissingStartContent)
    else if |parts| < 3 then Failure(MissingChoice)
    else
      StripKeepsAbsence(head[0], ChoiceText);
      StripKeepsAbsence(head[0], StartContent);
      StripKeepsAbsence(head[1], ChoiceText);
      StripKeepsAbsence(head[1], StartContent);
      StripKeepsAbsence(parts[1], ChoiceText);
      StripKeepsAbsence(parts[2], ChoiceText);
      Success(StoryFields(Strip(head[0]), Strip(head[1]), Strip(parts[1]), Strip(parts[2])))
  }

  /** The sections read only the first three [choice_text] pieces. */
  lemma SectionsByPieces(r1: string, r2: string)
    requires |Split(r1, ChoiceText)| >= 3 && |Split(r2, ChoiceText)| >= 3
    requires Split(r1, ChoiceText)[..3] == Split(r2, ChoiceText)[..3]
    ensures Sections(r1) == Sections(r2)
  {
    var p1 := Split(r1, ChoiceText);
    var p2 := Split(r2, ChoiceText);
    assert p1[0] == p1[..3][0] == p2[..3][0] == p2[0];
    assert p1[1] == p1[..3][1] == p2[..3][1] == p2[1];
    assert p1[2] == p1[..3][2] == p2[..3][2] == p2[2];
  }

  /** How a well-formed first-turn reply is written: `title_tag` + title,
      body, two choices, each behind its tag. */
  function FirstTurnReply(titleTag: string, t: string, b: string, c1: string, c2: string): string {
    titleTag + t + StartContent + b + ChoiceText + c1 + ChoiceText + c2
  }

  /** The sections of such a reply, whatever whitespace surrounds its
      tag-free fields, are the stripped tagged title and the stripped fields. */
  lemma {:induction false} SectionsRoundTrip(titleTag: string, t: string, b: string, c1: string, c2: string)
    requires titleTag == Title || titleTag == TitleLine
    requires TagFree(t) && TagFree(b) && TagFree(c1) && TagFree(c2)
    ensures Sections(FirstTurnReply(titleTag, t, b, c1, c2))
              == Success(StoryFields(Strip(titleTag + t), Strip(b), Strip(c1), Strip(c2)))
  {
    var head := titleTag + t + StartContent + b;
    var reply := FirstTurnReply(titleTag, t, b, c1, c2);
    HeadSplit(titleTag, t, b);
    assert reply == head + ChoiceText + c1 + ChoiceText + c2;
    AllTags();
    SplitThree(head, c1, c2, ChoiceText);
  }

  /** Whitespace on either side of a tag-free text keeps it tag-free. */
  lemma {:induction false} PaddedFree(w1: string, t: string, w2: string)
    requires AllSpace(w1) && AllSpace(w2) && TagFree(t)
    ensures TagFree(w1 + t + w2)
  {
    SpacedFree(w1, t);
    var u := w1 + t;
    TitleIsTag();
    StartContentIsTag();
    ChoiceTextIsTag();
    EndContentIsTag();
    TrailingSpaceKeepsAbsence(u, w2, Title);
    TrailingSpaceKeepsAbsence(u, w2, StartContent);
    TrailingSpaceKeepsAbsence(u, w2, ChoiceText);
    TrailingSpaceKeepsAbsence(u, w2, EndContent);
  }

  /** The part of such a reply before the first [choice_text]: free of that
      tag, and it splits into tagged title and body. */
  lemma {:induction false} HeadSplit(titleTag: string, t: string, b: string)
    requires titleTag == Title || titleTag == TitleLine
    requires TagFree(t) && TagFree(b)
    ensures !Contains(titleTag + t + StartContent + b, ChoiceText)
    ensures Split(titleTag + t + StartContent + b, StartContent) == [titleTag + t, b]
  {
    AllTags();
    assert "" + titleTag + t == titleTag + t;
    Glue("", titleTag, t, ChoiceText);
    Glue("", titleTag, t, StartContent);
    Glue(titleTag + t, StartContent, b, ChoiceText);
    SplitTwo(titleTag + t, b, StartContent);
  }
}
