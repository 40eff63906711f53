/** api.py: the earlier draft of first-turn story generation. It cuts the
    reply exactly as apicalls.py does but clears the title by a different
    rule: strip first, then remove every "[title]" followed by a line break,
    with no final strip. It writes the story and its two steps (no character
    links) and hands back the four parsed fields. */
module Api {
  import opened Results
  import opened PyStr
  import opened Completion
  import opened Models
  import opened ApiCalls

  /** The draft parse (lines 30-46): the shared sections, with every
      "[title]\n" removed from the stripped title section. */
  function ParseDraft(reply: string): (r: Result<StoryFields, ParseError>)
    ensures r == Failure(MissingStartContent) <==> !Contains(Preamble(reply), StartContent)
    ensures r == Failure(MissingChoice) <==>
              Contains(Preamble(reply), StartContent) && Occurrences(reply, ChoiceText) < 2
    ensures r.Success? ==>
              && Stripped(r.value.startContent) && Stripped(r.value.choice1) && Stripped(r.value.choice2)
              && !Contains(r.value.startContent, ChoiceText) && !Contains(r.value.startContent, StartContent)
              && !Contains(r.value.choice1, ChoiceText) && !Contains(r.value.choice2, ChoiceText)
  {
    match Sections(reply)
    case Failure(e) => Failure(e)
    case Success(s) => Success(s.(title := Remove(s.title, TitleLine)))
  }

  /** The two versions fail on the same replies with the same IndexError and
      agree on the body and both choices; only the title rule differs. */
  lemma DraftAgreesWithFirstTurn(reply: string)
    ensures ParseDraft(reply).Failure? <==> ParseFirstTurn(reply).Failure?
    ensures ParseDraft(reply).Failure? ==> ParseDraft(reply).error == ParseFirstTurn(reply).error
    ensures ParseDraft(reply).Success? ==>
              && ParseDraft(reply).value.startContent == ParseFirstTurn(reply).value.startContent
              && ParseDraft(reply).value.choice1 == ParseFirstTurn(reply).value.choice1
              && ParseDraft(reply).value.choice2 == ParseFirstTurn(reply).value.choice2
  {
  }

  /** A reply written as `[title]\nT[start_content]B[choice_text]C1[choice_text]C2`
      with a non-empty title and tag-free, stripped fields parses back to
      exactly those fields. */
  lemma {:induction false} DraftRoundTrip(t: string, b: string, c1: string, c2: string)
    requires IsField(t) && IsField(b) && IsField(c1) && IsField(c2) && |t| > 0
    ensures ParseDraft(FirstTurnReply(TitleLine, t, b, c1, c2)) == Success(StoryFields(t, b, c1, c2))
  {
    SectionsRoundTrip(TitleLine, t, b, c1, c2);
    StripOfStripped(b);
    StripOfStripped(c1);
    StripOfStripped(c2);
    DraftTitleClears(t);
  }

  /** Stripping `"[title]\n" + t` keeps it whole, and removing the tag then
      leaves exactly t. */
  lemma {:induction false} DraftTitleClears(t: string)
    requires IsField(t) && |t| > 0
    ensures Remove(Strip(TitleLine + t), TitleLine) == t
  {
    TitleLineIsTag();
    TitleLineLeadsTitle(t);
    RemoveLeadingOnly(t, TitleLine);
  }

  /** "[title]\n" + t is already stripped, and t holds no "[title]\n". */
  lemma {:induction false} TitleLineLeadsTitle(t: string)
    requires IsField(t) && |t| > 0
    ensures Strip(TitleLine + t) == TitleLine + t
    ensures !Contains(t, TitleLine)
  {
    TitleLineIsTag();
    TitleIsTag();
    assert Stripped(TitleLine + t) by {
      assert (TitleLine + t)[0] == '[';
      assert (TitleLine + t)[|TitleLine + t| - 1] == t[|t| - 1];
    }
    StripOfStripped(TitleLine + t);
    if Contains(t, TitleLine) {
      assert IsPrefix(Title, TitleLine) by { assert TitleLine[..|Title|] == Title; }
      ContainsPrefixOfNeedle(t, Title, TitleLine);
    }
  }

  /** An empty title leaves the bare tag behind: stripping eats the line
      break before the removal can see it. */
  lemma {:induction false} DraftEmptyTitle(b: string, c1: string, c2: string)
    requires IsField(b) && IsField(c1) && IsField(c2)
    ensures ParseDraft(FirstTurnReply(TitleLine, "", b, c1, c2)) == Success(StoryFields(Title, b, c1, c2))
  {
    SectionsRoundTrip(TitleLine, "", b, c1, c2);
    StripOfStripped(b);
    StripOfStripped(c1);
    StripOfStripped(c2);
    BareTitleLine();
  }

  /** Stripping "[title]\n" leaves "[title]", which "[title]\n" is too long
      to occur in. */
  lemma {:induction false} BareTitleLine()
    ensures Strip(TitleLine + "") == Title
    ensures Remove(Title, TitleLine) == Title
  {
    TitleLineIsTag();
    TitleIsTag();
    var nl := TitleLine[|Title|..];
    assert TitleLine + "" == "" + Title + nl;
    assert AllSpace(nl) by { assert nl[0] == '\n' && nl[1..] == ""; }
    StripPadded("", Title, nl);
    ShortNeverContains(Title, TitleLine);
    RemoveFree(Title, TitleLine);
  }

  /** The draft's title rule only recognises the tag when a line break
      follows it: a title written after "[title]" and a space (or nothing)
      keeps the tag, where apicalls.py (TitleAfterSpace) yields the bare
      title. */
  lemma {:induction false} DraftKeepsTitleTag(w: string, t: string, b: string, c1: string, c2: string)
    requires AllSpace(w) && (|w| == 0 || w[0] != '\n') && IsField(t) && |t| > 0
    requires IsField(b) && IsField(c1) && IsField(c2)
    ensures ParseDraft(FirstTurnReply(Title, w + t, b, c1, c2)) == Success(StoryFields(Title + (w + t), b, c1, c2))
    ensures ParseFirstTurn(FirstTurnReply(Title, w + t, b, c1, c2)) == Success(StoryFields(t, b, c1, c2))
  {
    var u := w + t;
    SpacedFree(w, t);
    SectionsRoundTrip(Title, u, b, c1, c2);
    StripOfStripped(b);
    StripOfStripped(c1);
    StripOfStripped(c2);
    TitleAfterSpace(w, t, b, c1, c2);
    TitleIsTag();
    assert Stripped(Title + u) by {
      assert (Title + u)[0] == '[';
      assert (Title + u)[|Title + u| - 1] == t[|t| - 1];
    }
    StripOfStripped(Title + u);
    assert u[0] != '\n' by { if |w| == 0 { assert u[0] == t[0]; } }
    TitleGlued(u);
    RemoveFree(Title + u, TitleLine);
  }

  /** "[title]" written straight before a text that holds no "[title]" and
      does not open with a line break does not form "[title]\n". */
  lemma {:induction false} TitleGlued(u: string)
    requires !Contains(u, Title) && |u| > 0 && u[0] != '\n'
    ensures !Contains(Title + u, TitleLine)
  {
    TitleIsTag();
    TitleLineIsTag();
    var s := Title + u;
    assert !IsPrefix(TitleLine, s) by {
      assert s[|Title|] == u[0];
      assert |TitleLine| <= |s| ==> s[..|TitleLine|][|Title|] == u[0];
    }
    assert s[1..] == Title[1..] + u;
    if Contains(s[1..], TitleLine) {
      ContainsSkipHead(Title[1..], u, TitleLine);
      assert IsPrefix(Title, TitleLine) by { assert TitleLine[..|Title|] == Title; }
      ContainsPrefixOfNeedle(u, Title, TitleLine);
    }
  }

  /** The rows the draft commits (lines 48-55): the story under the next
      free key, then its two steps in choice order; no character links. */
  function WriteDraft(db: Db, fields: StoryFields, authorId: int): (r: Db)
    ensures r.stories == db.stories + [Story(|db.stories| + 1, fields.title, fields.startContent, authorId, false)]
    ensures r.steps == db.steps + [StoryStep(|db.steps| + 1, fields.choice1, |db.stories| + 1),
                                   StoryStep(|db.steps| + 2, fields.choice2, |db.stories| + 1)]
    ensures r.choices == db.choices && r.storyCharacters == db.storyCharacters
  {
    var (db', story) := CommitStory(db, fields.title, fields.startContent, authorId, false, [fields.choice1, fields.choice2]);
    assert db'.steps == db'.steps[..|db.steps|] + db'.steps[|db.steps|..];
    db'
  }

  /** The draft write keeps the story graph well formed. */
  lemma {:induction false} WriteDraftKeepsWellFormed(db: Db, fields: StoryFields, authorId: int)
    requires WellFormed(db)
    ensures WellFormed(WriteDraft(db, fields, authorId))
  {
    CommitKeepsWellFormed(db, fields.title, fields.startContent, authorId, false, [fields.choice1, fields.choice2]);
  }

  /** The draft `make_api_request` after the completion call (lines 29-57):
      a falsy response reaches `return story` with the name unbound and a
      reply missing its sections raises, both before any write; any other
      reply adds one open story under the next free key and its two steps
      in choice order, and the parsed fields are handed back. */
  function CreateDraft(db: Db, reply: Option<string>, authorId: int): (r: Result<(Db, StoryFields), RequestError>)
    ensures r == Failure(NoResponse) <==> reply.None?
    ensures r == Failure(Malformed(MissingStartContent)) <==>
              reply.Some? && !Contains(Preamble(reply.value), StartContent)
    ensures r == Failure(Malformed(MissingChoice)) <==>
              reply.Some? && Contains(Preamble(reply.value), StartContent) && Occurrences(reply.value, ChoiceText) < 2
    ensures r.Success? <==>
              reply.Some? && Contains(Preamble(reply.value), StartContent) && Occurrences(reply.value, ChoiceText) >= 2
    ensures r.Success? ==>
              && r.value.0.stories == db.stories + [Story(|db.stories| + 1, r.value.1.title, r.value.1.startContent, authorId, false)]
              && r.value.0.steps == db.steps + [StoryStep(|db.steps| + 1, r.value.1.choice1, |db.stories| + 1),
                                                StoryStep(|db.steps| + 2, r.value.1.choice2, |db.stories| + 1)]
              && r.value.0.choices == db.choices && r.value.0.storyCharacters == db.storyCharacters
              && Stripped(r.value.1.startContent) && Stripped(r.value.1.choice1) && Stripped(r.value.1.choice2)
              && r.value.1.startContent == ParseFirstTurn(reply.value).value.startContent
              && r.value.1.choice1 == ParseFirstTurn(reply.value).value.choice1
              && r.value.1.choice2 == ParseFirstTurn(reply.value).value.choice2
  {
    if reply.None? then Failure(NoResponse)
    else
      DraftAgreesWithFirstTurn(reply.value);
      match ParseDraft(reply.value)
      case Failure(e) => Failure(Malformed(e))
      case Success(fields) => Success((WriteDraft(db, fields, authorId), fields))
  }

  /** A draft request keeps the story graph well formed. */
  lemma {:induction false} CreateDraftKeepsWellFormed(db: Db, reply: Option<string>, authorId: int)
    requires WellFormed(db)
    ensures CreateDraft(db, reply, authorId).Success? ==> WellFormed(CreateDraft(db, reply, authorId).value.0)
  {
    if reply.Some? && ParseDraft(reply.value).Success? {
      WriteDraftKeepsWellFormed(db, ParseDraft(reply.value).value, authorId);
    }
  }

  /** End to end: a reply written as
      `[title]\nT[start_content]B[choice_text]C1[choice_text]C2` with a
      non-empty title and tag-free, stripped fields stores the story (T, B)
      and the steps C1 and C2, and hands back exactly those fields. */
  lemma {:induction false} CreateDraftRoundTrip(db: Db, t: string, b: string, c1: string, c2: string, authorId: int)
    requires IsField(t) && IsField(b) && IsField(c1) && IsField(c2) && |t| > 0
    ensures var r := CreateDraft(db, Some(FirstTurnReply(TitleLine, t, b, c1, c2)), authorId);
            && r.Success? && r.value.1 == StoryFields(t, b, c1, c2)
            && r.value.0.stories == db.stories + [Story(|db.stories| + 1, t, b, authorId, false)]
            && r.value.0.steps == db.steps + [StoryStep(|db.steps| + 1, c1, |db.stories| + 1),
                                              StoryStep(|db.steps| + 2, c2, |db.stories| + 1)]
  {
    DraftRoundTrip(t, b, c1, c2);
  }
}
