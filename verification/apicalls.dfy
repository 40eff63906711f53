/** apicalls.py: the current version of story generation. A completion reply
    is an input string (`None` when the response is falsy); what the module
    computes from it is the parse and the rows it commits. */
module ApiCalls {
  import opened Results
  import opened PyStr
  import opened Completion
  import opened Models

  /** What a continuation reply becomes: a terminal story, or a story with two options. */
  datatype Continuation =
    | Ending(endContent: string)
    | Branch(startContent: string, choice1: string, choice2: string)

  /** Why a generation call wrote nothing. */
  datatype RequestError =
    | NotFound                       // get_or_404 on the story or the choice
    | NoResponse                     // falsy response: `return new_story` on an unbound name
    | Malformed(cause: ParseError)   // IndexError while taking the reply apart

  // ---------------------------------------------------------------------
  // First turn

  /** The first-turn parse (lines 27-35): the shared sections, with the title
      stripped, cleared of every [title] and stripped again. */
  function ParseFirstTurn(reply: string): (r: Result<StoryFields, ParseError>)
    ensures r == Failure(MissingStartContent) <==> !Contains(Preamble(reply), StartContent)
    ensures r == Failure(MissingChoice) <==>
              Contains(Preamble(reply), StartContent) && Occurrences(reply, ChoiceText) < 2
    ensures r.Success? ==>
              && Stripped(r.value.title) && Stripped(r.value.startContent)
              && Stripped(r.value.choice1) && Stripped(r.value.choice2)
              && !Contains(r.value.startContent, ChoiceText) && !Contains(r.value.startContent, StartContent)
              && !Contains(r.value.choice1, ChoiceText) && !Contains(r.value.choice2, ChoiceText)
  {
    match Sections(reply)
    case Failure(e) => Failure(e)
    case Success(s) => Success(s.(title := Strip(Remove(s.title, Title))))
  }

  /** Any reply written as `[title]T[start_content]B[choice_text]C1[choice_text]C2`
      with tag-free T, B, C1 and C2, whatever whitespace they carry, parses
      to the four stripped fields. */
  lemma {:induction false} FirstTurnFields(t: string, b: string, c1: string, c2: string)
    requires TagFree(t) && TagFree(b) && TagFree(c1) && TagFree(c2)
    ensures ParseFirstTurn(FirstTurnReply(Title, t, b, c1, c2))
              == Success(StoryFields(Strip(t), Strip(b), Strip(c1), Strip(c2)))
  {
    SectionsRoundTrip(Title, t, b, c1, c2);
    TitleSectionClears(t);
  }

  /** The title rule of line 31 on `[title]` + t, t tag-free: the tag goes
      and what is left is t stripped. */
  lemma {:induction false} TitleSectionClears(t: string)
    requires TagFree(t)
    ensures Strip(Remove(Strip(Title + t), Title)) == Strip(t)
  {
    TitleIsTag();
    var r := StripRight(t);
    assert (Title + t)[0] == '[';
    StripLeftPadded("", Title + t);
    assert "" + (Title + t) == Title + t;
    StripRightConcat(Title, t);
    StripRightKeepsAbsence(t, Title);
    RemoveLeadingOnly(r, Title);
    StripOfStripRight(t);
  }

  /** A reply with tag-free, stripped fields parses back to exactly those
      fields. */
  lemma {:induction false} FirstTurnRoundTrip(t: string, b: string, c1: string, c2: string)
    requires IsField(t) && IsField(b) && IsField(c1) && IsField(c2)
    ensures ParseFirstTurn(FirstTurnReply(Title, t, b, c1, c2)) == Success(StoryFields(t, b, c1, c2))
  {
    FirstTurnFields(t, b, c1, c2);
    StripOfStripped(t);
    StripOfStripped(b);
    StripOfStripped(c1);
    StripOfStripped(c2);
  }

  /** Fields each followed by whitespace, such as line breaks before the next
      tag, still parse back to exactly those fields. */
  lemma {:induction false} FirstTurnTrailingSpace(t: string, b: string, c1: string, c2: string,
                                                  wt: string, wb: string, w1: string, w2: string)
    requires IsField(t) && IsField(b) && IsField(c1) && IsField(c2)
    requires AllSpace(wt) && AllSpace(wb) && AllSpace(w1) && AllSpace(w2)
    ensures ParseFirstTurn(FirstTurnReply(Title, t + wt, b + wb, c1 + w1, c2 + w2))
              == Success(StoryFields(t, b, c1, c2))
  {
    TrailingField(t, wt);
    TrailingField(b, wb);
    TrailingField(c1, w1);
    TrailingField(c2, w2);
    FirstTurnFields(t + wt, b + wb, c1 + w1, c2 + w2);
  }

  /** A field followed by whitespace is still tag-free and strips back to
      the field. */
  lemma {:induction false} TrailingField(f: string, w: string)
    requires IsField(f) && AllSpace(w)
    ensures TagFree(f + w) && Strip(f + w) == f
  {
    assert "" + f + w == f + w;
    PaddedFree("", f, w);
    StripPadded("", f, w);
  }

  /** Whitespace between [title] and the title, line break or not, is
      dropped with the tag. */
  lemma {:induction false} TitleAfterSpace(w: string, t: string, b: string, c1: string, c2: string)
    requires AllSpace(w) && IsField(t)
    requires IsField(b) && IsField(c1) && IsField(c2)
    ensures ParseFirstTurn(FirstTurnReply(Title, w + t, b, c1, c2)) == Success(StoryFields(t, b, c1, c2))
  {
    LeadingField(w, t);
    FirstTurnFields(w + t, b, c1, c2);
    StripOfStripped(b);
    StripOfStripped(c1);
    StripOfStripped(c2);
  }

  /** A field preceded by whitespace is still tag-free and strips back to
      the field. */
  lemma {:induction false} LeadingField(w: string, f: string)
    requires AllSpace(w) && IsField(f)
    ensures TagFree(w + f) && Strip(w + f) == f
  {
    assert w + f + "" == w + f;
    PaddedFree(w, f, "");
    StripPadded(w, f, "");
  }

  /** Only the first two choices are read: anything after a third
      [choice_text] leaves the parse unchanged. */
  lemma {:induction false} ExtraChoicesIgnored(reply: string, extra: string)
    requires Occurrences(reply, ChoiceText) >= 2
    ensures ParseFirstTurn(reply + ChoiceText + extra) == ParseFirstTurn(reply)
  {
    ChoiceTextIsTag();
    SplitAround(reply, extra, ChoiceText);
    SplitCount(reply, ChoiceText);
    SectionsByPieces(reply, reply + ChoiceText + extra);
  }

  /** One story-character link per selected id, in the order selected (lines 46-50). */
  function CharacterLinks(storyId: nat, characterIds: seq<int>): (links: seq<StoryCharacter>)
    ensures |links| == |characterIds|
    ensures forall i :: 0 <= i < |links| ==> links[i] == StoryCharacter(storyId, characterIds[i])
    decreases |characterIds|
  {
    if |characterIds| == 0 then []
    else [StoryCharacter(storyId, characterIds[0])] + CharacterLinks(storyId, characterIds[1..])
  }

  /** The rows a first turn commits (lines 37-50): the story, its two steps
      in choice order, and its character links, under the next free keys. */
  function WriteFirstTurn(db: Db, fields: StoryFields, authorId: int, selectedCharacters: seq<int>): (r: (Db, Story))
    ensures r.1 == Story(|db.stories| + 1, fields.title, fields.startContent, authorId, false)
    ensures r.0.stories == db.stories + [r.1]
    ensures r.0.steps == db.steps + [StoryStep(|db.steps| + 1, fields.choice1, r.1.id),
                                     StoryStep(|db.steps| + 2, fields.choice2, r.1.id)]
    ensures r.0.choices == db.choices
    ensures r.0.storyCharacters == db.storyCharacters + CharacterLinks(r.1.id, selectedCharacters)
  {
    var (db', story) := CommitStory(db, fields.title, fields.startContent, authorId, false, [fields.choice1, fields.choice2]);
    assert db'.steps == db'.steps[..|db.steps|] + db'.steps[|db.steps|..];
    (db'.(storyCharacters := db'.storyCharacters + CharacterLinks(story.id, selectedCharacters)), story)
  }

  /** A first turn keeps the story graph well formed. */
  lemma {:induction false} WriteFirstTurnKeepsWellFormed(db: Db, fields: StoryFields, authorId: int, selectedCharacters: seq<int>)
    requires WellFormed(db)
    ensures WellFormed(WriteFirstTurn(db, fields, authorId, selectedCharacters).0)
  {
    var options := [fields.choice1, fields.choice2];
    CommitKeepsWellFormed(db, fields.title, fields.startContent, authorId, false, options);
    var committed := CommitStory(db, fields.title, fields.startContent, authorId, false, options).0;
    var written := WriteFirstTurn(db, fields, authorId, selectedCharacters).0;
    assert written.stories == committed.stories && written.steps == committed.steps;
  }

  /** `make_api_request` after the completion call (lines 26-52): a falsy
      response or a reply missing its sections writes nothing and says why;
      any other reply adds one open story under the next free key, its two
      steps in choice order and one link per selected character. */
  function MakeApiRequest(db: Db, reply: Option<string>, authorId: int, selectedCharacters: seq<int>): (r: Result<(Db, Story), RequestError>)
    ensures r == Failure(NoResponse) <==> reply.None?
    ensures r == Failure(Malformed(MissingStartContent)) <==>
              reply.Some? && !Contains(Preamble(reply.value), StartContent)
    ensures r == Failure(Malformed(MissingChoice)) <==>
              reply.Some? && Contains(Preamble(reply.value), StartContent) && Occurrences(reply.value, ChoiceText) < 2
    ensures r.Success? <==>
              reply.Some? && Contains(Preamble(reply.value), StartContent) && Occurrences(reply.value, ChoiceText) >= 2
    ensures r.Success? ==>
              && r.value.1 == Story(|db.stories| + 1, ParseFirstTurn(reply.value).value.title,
                                    ParseFirstTurn(reply.value).value.startContent, authorId, false)
              && r.value.0.stories == db.stories + [r.value.1]
              && r.value.0.steps == db.steps + [StoryStep(|db.steps| + 1, ParseFirstTurn(reply.value).value.choice1, r.value.1.id),
                                                StoryStep(|db.steps| + 2, ParseFirstTurn(reply.value).value.choice2, r.value.1.id)]
              && r.value.0.choices == db.choices
              && r.value.0.storyCharacters == db.storyCharacters + CharacterLinks(r.value.1.id, selectedCharacters)
  {
    if reply.None? then Failure(NoResponse)
    else
      match ParseFirstTurn(reply.value)
      case Failure(e) => Failure(Malformed(e))
      case Success(fields) => Success(WriteFirstTurn(db, fields, authorId, selectedCharacters))
  }

  /** A first-turn request keeps the story graph well formed. */
  lemma {:induction false} MakeApiRequestKeepsWellFormed(db: Db, reply: Option<string>, authorId: int, selectedCharacters: seq<int>)
    requires WellFormed(db)
    ensures MakeApiRequest(db, reply, authorId, selectedCharacters).Success? ==>
              WellFormed(MakeApiRequest(db, reply, authorId, selectedCharacters).value.0)
  {
    if reply.Some? && ParseFirstTurn(reply.value).Success? {
      WriteFirstTurnKeepsWellFormed(db, ParseFirstTurn(reply.value).value, authorId, selectedCharacters);
    }
  }

  /** End to end: a reply written as
      `[title]T[start_content]B[choice_text]C1[choice_text]C2` with tag-free
      fields stores the story (T, B) and the steps C1 and C2, all stripped. */
  lemma {:induction false} MakeApiRequestRoundTrip(db: Db, t: string, b: string, c1: string, c2: string,
                                                   authorId: int, selectedCharacters: seq<int>)
    requires TagFree(t) && TagFree(b) && TagFree(c1) && TagFree(c2)
    ensures var r := MakeApiRequest(db, Some(FirstTurnReply(Title, t, b, c1, c2)), authorId, selectedCharacters);
            && r.Success?
            && r.value.1 == Story(|db.stories| + 1, Strip(t), Strip(b), authorId, false)
            && r.value.0.stories == db.stories + [r.value.1]
            && r.value.0.steps == db.steps + [StoryStep(|db.steps| + 1, Strip(c1), |db.stories| + 1),
                                              StoryStep(|db.steps| + 2, Strip(c2), |db.stories| + 1)]
  {
    FirstTurnFields(t, b, c1, c2);
    assert MakeApiRequest(db, Some(FirstTurnReply(Title, t, b, c1, c2)), authorId, selectedCharacters)
             == Success(WriteFirstTurn(db, StoryFields(Strip(t), Strip(b), Strip(c1), Strip(c2)), authorId, selectedCharacters));
  }

  // ---------------------------------------------------------------------
  // Continuation

  /** The reply with every [start_content] removed and its ends stripped (line 71). */
  function Cleaned(reply: string): (r: string)
    ensures Stripped(r) && |r| <= |reply|
  {
    Strip(Remove(reply, StartContent))
  }

  /** The continuation parse (lines 71-83): terminal as soon as [end_content]
      occurs in the cleaned reply, otherwise a body and two choices. */
  function ParseContinuation(reply: string): (r: Result<Continuation, ParseError>)
    ensures r.Success? && r.value.Ending? <==> Contains(Cleaned(reply), EndContent)
    ensures r.Failure? <==> !Contains(Cleaned(reply), EndContent) && Occurrences(Cleaned(reply), ChoiceText) < 2
    ensures r.Failure? ==> r.error == MissingChoice
    ensures r.Success? && r.value.Ending? ==> Stripped(r.value.endContent)
    ensures r.Success? && r.value.Branch? ==>
              && Stripped(r.value.startContent) && Stripped(r.value.choice1) && Stripped(r.value.choice2)
              && !Contains(r.value.startContent, ChoiceText)
              && !Contains(r.value.choice1, ChoiceText) && !Contains(r.value.choice2, ChoiceText)
              && !Contains(r.value.startContent, EndContent)
              && !Contains(r.value.choice1, EndContent) && !Contains(r.value.choice2, EndContent)
  {
    var content := Cleaned(reply);
    if Contains(content, EndContent) then
      Success(Ending(Strip(Remove(content, EndContent))))
    else
      var parts := Split(content, ChoiceText);
      SplitCount(content, ChoiceText);
      if |parts| < 3 then Failure(MissingChoice)
      else
        SplitPiecesFree(content, ChoiceText);
        SplitPiecesInherit(content, ChoiceText, EndContent);
        StripKeepsAbsence(parts[0], ChoiceText);
        StripKeepsAbsence(parts[1], ChoiceText);
        StripKeepsAbsence(parts[2], ChoiceText);
        StripKeepsAbsence(parts[0], EndContent);
        StripKeepsAbsence(parts[1], EndContent);
        StripKeepsAbsence(parts[2], EndContent);
        Success(Branch(Strip(parts[0]), Strip(parts[1]), Strip(parts[2])))
  }

  /** The parse once the cleaned reply is known to hold [end_content]. */
  lemma ParseOnEnding(reply: string, x: string)
    requires Cleaned(reply) == x && Contains(x, EndContent)
    ensures ParseContinuation(reply) == Success(Ending(Strip(Remove(x, EndContent))))
  {
  }

  /** The parse once the cleaned reply is known to split into exactly three
      pieces and to hold no [end_content]. */
  lemma ParseOnBranch(reply: string, x: string, p0: string, p1: string, p2: string)
    requires Cleaned(reply) == x && !Contains(x, EndContent)
    requires Split(x, ChoiceText) == [p0, p1, p2]
    ensures ParseContinuation(reply) == Success(Branch(Strip(p0), Strip(p1), Strip(p2)))
  {
    var parts := Split(x, ChoiceText);
    assert parts[0] == p0 && parts[1] == p1 && parts[2] == p2;
  }

  /** An [end_content] anywhere in the reply makes the story terminal, whatever
      else the reply holds, [choice_text] tags included. */
  lemma {:induction false} EndTagMakesTerminal(reply: string)
    requires Contains(reply, EndContent)
    ensures ParseContinuation(reply).Success? && ParseContinuation(reply).value.Ending?
  {
    AllTags();
    RemoveKeepsOther(reply, StartContent, EndContent);
    StripKeepsContains(Remove(reply, StartContent), EndContent);
  }

  /** Any reply written as `[start_content]B[choice_text]C1[choice_text]C2`
      with tag-free B, C1 and C2, whatever whitespace they carry, continues
      with the three stripped fields. */
  lemma {:induction false} ContinuationFields(b: string, c1: string, c2: string)
    requires TagFree(b) && TagFree(c1) && TagFree(c2)
    ensures ParseContinuation(StartContent + b + ChoiceText + c1 + ChoiceText + c2)
              == Success(Branch(Strip(b), Strip(c1), Strip(c2)))
  {
    var reply := StartContent + b + ChoiceText + c1 + ChoiceText + c2;
    var lb := StripLeft(b);
    var rc := StripRight(c2);
    BranchCleaned(b, c1, c2);
    ChoiceTextIsTag();
    StripLeftKeepsAbsence(b, ChoiceText);
    StripRightKeepsAbsence(c2, ChoiceText);
    SplitThree(lb, c1, rc, ChoiceText);
    ParseOnBranch(reply, lb + ChoiceText + c1 + ChoiceText + rc, lb, c1, rc);
    StripOfStripLeft(b);
    StripOfStripRight(c2);
  }

  /** A reply with tag-free, stripped fields continues with exactly those
      fields. */
  lemma {:induction false} ContinuationRoundTrip(b: string, c1: string, c2: string)
    requires IsField(b) && IsField(c1) && IsField(c2)
    ensures ParseContinuation(StartContent + b + ChoiceText + c1 + ChoiceText + c2)
              == Success(Branch(b, c1, c2))
  {
    ContinuationFields(b, c1, c2);
    StripOfStripped(b);
    StripOfStripped(c1);
    StripOfStripped(c2);
  }

  /** Fields each followed by whitespace still continue with exactly those
      fields. */
  lemma {:induction false} ContinuationTrailingSpace(b: string, c1: string, c2: string,
                                                     wb: string, w1: string, w2: string)
    requires IsField(b) && IsField(c1) && IsField(c2)
    requires AllSpace(wb) && AllSpace(w1) && AllSpace(w2)
    ensures ParseContinuation(StartContent + (b + wb) + ChoiceText + (c1 + w1) + ChoiceText + (c2 + w2))
              == Success(Branch(b, c1, c2))
  {
    TrailingField(b, wb);
    TrailingField(c1, w1);
    TrailingField(c2, w2);
    ContinuationFields(b + wb, c1 + w1, c2 + w2);
  }

  /** Cleaning `[start_content]B[choice_text]C1[choice_text]C2` drops the tag
      and strips the outer ends of B and C2 only; no [end_content] appears. */
  lemma {:induction false} BranchCleaned(b: string, c1: string, c2: string)
    requires TagFree(b) && TagFree(c1) && TagFree(c2)
    ensures Cleaned(StartContent + b + ChoiceText + c1 + ChoiceText + c2)
              == StripLeft(b) + ChoiceText + c1 + ChoiceText + StripRight(c2)
    ensures !Contains(StripLeft(b) + ChoiceText + c1 + ChoiceText + StripRight(c2), EndContent)
  {
    StartContentIsTag();
    ChoiceTextIsTag();
    BranchBodyFree(b, c1, c2);
    assert ChoiceText[0] == '[' && ChoiceText[|ChoiceText| - 1] == ']';
    CleanedShape(StartContent, b, ChoiceText, c1, c2);
    StripKeepsAbsence(b + ChoiceText + c1 + ChoiceText + c2, EndContent);
  }

  /** The shape of a cleaned branch, for any leading tag `p` and separator
      `t` that starts and ends in non-whitespace. */
  lemma {:induction false} CleanedShape(p: string, b: string, t: string, c1: string, c2: string)
    requires HeadUnique(p) && !Contains(b + t + c1 + t + c2, p)
    requires |t| > 0 && !IsSpace(t[0]) && !IsSpace(t[|t| - 1])
    ensures Strip(Remove(p + b + t + c1 + t + c2, p)) == StripLeft(b) + t + c1 + t + StripRight(c2)
    ensures Strip(b + t + c1 + t + c2) == StripLeft(b) + t + c1 + t + StripRight(c2)
  {
    var x := b + t + c1 + t + c2;
    Lead(p, b, t, c1, c2);
    RemoveLeadingOnly(x, p);
    var y := t + c1 + t;
    assert y[0] == t[0] && y[|y| - 1] == t[|t| - 1];
    Middle(b, t, c1, c2);
    Middle(StripLeft(b), t, c1, StripRight(c2));
    StripAround(b, y, c2);
  }


  lemma {:induction false} BranchBodyFree(b: string, c1: string, c2: string)
    requires TagFree(b) && TagFree(c1) && TagFree(c2)
    ensures !Contains(b + ChoiceText + c1 + ChoiceText + c2, StartContent)
    ensures !Contains(b + ChoiceText + c1 + ChoiceText + c2, EndContent)
  {
    AllTags();
    Glue(b, ChoiceText, c1, StartContent);
    Glue(b + ChoiceText + c1, ChoiceText, c2, StartContent);
    Glue(b, ChoiceText, c1, EndContent);
    Glue(b + ChoiceText + c1, ChoiceText, c2, EndContent);
  }

  /** `[start_content]B[end_content]` with a tag-free, stripped B ends the
      story with exactly B. */
  lemma {:induction false} EndingRoundTrip(b: string)
    requires IsField(b)
    ensures ParseContinuation(StartContent + b + EndContent) == Success(Ending(b))
  {
    EndingWithTail(b, "");
    assert StartContent + b + EndContent + "" == StartContent + b + EndContent;
    assert b + "" == b;
  }

  /** The terminal body is everything but the tags: choices written after
      [end_content] stay in it, [choice_text] tags included. */
  lemma {:induction false} EndingKeepsTrailingChoices(b: string, c1: string, c2: string)
    requires IsField(b) && IsField(c1) && IsField(c2)
    ensures ParseContinuation(StartContent + b + EndContent + ChoiceText + c1 + ChoiceText + c2)
              == Success(Ending(b + ChoiceText + c1 + ChoiceText + c2))
  {
    TrailingChoicesFree(c1, c2);
    EndingWithTail(b, ChoiceText + c1 + ChoiceText + c2);
    Regroup(StartContent + b + EndContent, ChoiceText, c1, c2);
    Regroup(b, ChoiceText, c1, c2);
  }

  lemma Regroup(a: string, t: string, c1: string, c2: string)
    ensures a + t + c1 + t + c2 == a + (t + c1 + t + c2)
  {
  }

  lemma Lead(p: string, b: string, t: string, c1: string, c2: string)
    ensures p + b + t + c1 + t + c2 == p + (b + t + c1 + t + c2)
  {
  }

  lemma Middle(a: string, t: string, c1: string, c2: string)
    ensures a + t + c1 + t + c2 == a + (t + c1 + t) + c2
  {
  }

  /** `[start_content]B[end_content]` followed by any stripped text free of
      both tags ends the story with B and that text. */
  lemma {:induction false} EndingWithTail(b: string, tail: string)
    requires IsField(b)
    requires !Contains(tail, StartContent) && !Contains(tail, EndContent) && Stripped(tail)
    ensures ParseContinuation(StartContent + b + EndContent + tail) == Success(Ending(b + tail))
  {
    StartContentIsTag();
    EndContentIsTag();
    EndingShape(StartContent, EndContent, b, tail);
    EndTagShape(EndContent, b, tail);
    ParseOnEnding(StartContent + b + EndContent + tail, b + EndContent + tail);
  }

  /** The choices written after an [end_content]: stripped and free of the
      two tags the continuation parse removes. */
  lemma {:induction false} TrailingChoicesFree(c1: string, c2: string)
    requires IsField(c1) && IsField(c2)
    ensures !Contains(ChoiceText + c1 + ChoiceText + c2, StartContent)
    ensures !Contains(ChoiceText + c1 + ChoiceText + c2, EndContent)
    ensures Stripped(ChoiceText + c1 + ChoiceText + c2)
  {
    AllTags();
    assert "" + ChoiceText + c1 == ChoiceText + c1;
    Glue("", ChoiceText, c1, StartContent);
    Glue("", ChoiceText, c1, EndContent);
    Glue(ChoiceText + c1, ChoiceText, c2, StartContent);
    Glue(ChoiceText + c1, ChoiceText, c2, EndContent);
    StrippedConcat(ChoiceText, c1);
    StrippedConcat(ChoiceText + c1, ChoiceText);
    StrippedConcat(ChoiceText + c1 + ChoiceText, c2);
  }

  /** The cleaning step on `sc + b + ec + tail`, for tags sc and ec and
      texts free of both: the leading tag goes, the rest is already stripped. */
  lemma {:induction false} EndingShape(sc: string, ec: string, b: string, tail: string)
    requires Apart(ec, sc) && Stripped(ec)
    requires !Contains(b, sc) && Stripped(b)
    requires !Contains(tail, sc) && Stripped(tail)
    ensures Strip(Remove(sc + b + ec + tail, sc)) == b + ec + tail
  {
    var x := b + ec + tail;
    Glue(b, ec, tail, sc);
    assert sc + b + ec + tail == sc + x;
    RemoveLeadingOnly(x, sc);
    StrippedConcat(b, ec);
    StrippedConcat(b + ec, tail);
    StripOfStripped(x);
  }

  /** The end-tag step on the cleaned text `b + ec + tail`: the tag is found,
      and removing it and stripping leaves `b + tail`. */
  lemma {:induction false} EndTagShape(ec: string, b: string, tail: string)
    requires HeadUnique(ec)
    requires !Contains(b, ec) && Stripped(b)
    requires !Contains(tail, ec) && Stripped(tail)
    ensures Contains(b + ec + tail, ec)
    ensures Strip(Remove(b + ec + tail, ec)) == b + tail
  {
    var x := b + ec + tail;
    assert x[|b|..][..|ec|] == ec;
    ContainsInSuffix(x, |b|, ec);
    RemoveInnerOnly(b, tail, ec);
    StrippedConcat(b, tail);
    StripOfStripped(b + tail);
  }

  /** The rows a continuation commits (lines 73-92): a terminal story with no
      steps, or an open story with its two steps in choice order. Either way
      the new story keeps the prior story's title. */
  function WriteContinuation(db: Db, prior: Story, next: Continuation, authorId: int): (r: (Db, Story))
    ensures r.1.id == |db.stories| + 1 && r.1.title == prior.title && r.1.authorId == authorId
    ensures r.0.stories == db.stories + [r.1]
    ensures r.0.choices == db.choices && r.0.storyCharacters == db.storyCharacters
    ensures r.1.end <==> next.Ending?
    ensures next.Ending? ==> r.1.startContent == next.endContent && r.0.steps == db.steps
    ensures next.Branch? ==>
              && r.1.startContent == next.startContent
              && r.0.steps == db.steps + [StoryStep(|db.steps| + 1, next.choice1, r.1.id),
                                          StoryStep(|db.steps| + 2, next.choice2, r.1.id)]
  {
    match next
    case Ending(e) =>
      var (db', story) := CommitStory(db, prior.title, e, authorId, true, []);
      assert db'.steps == db.steps;
      (db', story)
    case Branch(b, c1, c2) =>
      var (db', story) := CommitStory(db, prior.title, b, authorId, false, [c1, c2]);
      assert db'.steps == db'.steps[..|db.steps|] + db'.steps[|db.steps|..];
      (db', story)
  }

  /** A continuation keeps the story graph well formed. */
  lemma {:induction false} WriteContinuationKeepsWellFormed(db: Db, prior: Story, next: Continuation, authorId: int)
    requires WellFormed(db)
    ensures WellFormed(WriteContinuation(db, prior, next, authorId).0)
  {
    match next
    case Ending(e) =>
      CommitKeepsWellFormed(db, prior.title, e, authorId, true, []);
    case Branch(b, c1, c2) =>
      CommitKeepsWellFormed(db, prior.title, b, authorId, false, [c1, c2]);
  }

  /** `next_step` after the completion call (lines 56-94): an unknown story
      or choice is a 404, and a falsy response or a reply with neither
      [end_content] nor two choices writes nothing. Any other reply adds one
      story under the next free key, by the requesting author and with
      the prior story's title: terminal with no steps when the cleaned reply
      holds [end_content], otherwise open with its two steps. */
  function NextStep(db: Db, storyId: int, choiceId: int, reply: Option<string>, authorId: int): (r: Result<(Db, Story), RequestError>)
    ensures r == Failure(NotFound) <==>
              FindStory(db.stories, storyId).None? || FindChoice(db.choices, choiceId).None?
    ensures r == Failure(NoResponse) <==>
              FindStory(db.stories, storyId).Some? && FindChoice(db.choices, choiceId).Some? && reply.None?
    ensures r == Failure(Malformed(MissingChoice)) <==>
              && FindStory(db.stories, storyId).Some? && FindChoice(db.choices, choiceId).Some? && reply.Some?
              && !Contains(Cleaned(reply.value), EndContent) && Occurrences(Cleaned(reply.value), ChoiceText) < 2
    ensures r != Failure(Malformed(MissingStartContent))
    ensures r.Success? ==>
              && FindStory(db.stories, storyId).Some? && reply.Some?
              && r.value.1.id == |db.stories| + 1 && r.value.1.authorId == authorId
              && r.value.1.title == FindStory(db.stories, storyId).value.title
              && r.value.0.stories == db.stories + [r.value.1]
              && r.value.0.choices == db.choices && r.value.0.storyCharacters == db.storyCharacters
              && (r.value.1.end <==> Contains(Cleaned(reply.value), EndContent))
              && (r.value.1.end ==>
                    && r.value.1.startContent == ParseContinuation(reply.value).value.endContent
                    && r.value.0.steps == db.steps)
              && (!r.value.1.end ==>
                    && r.value.1.startContent == ParseContinuation(reply.value).value.startContent
                    && r.value.0.steps == db.steps + [StoryStep(|db.steps| + 1, ParseContinuation(reply.value).value.choice1, r.value.1.id),
                                                      StoryStep(|db.steps| + 2, ParseContinuation(reply.value).value.choice2, r.value.1.id)])
  {
    match FindStory(db.stories, storyId)
    case None => Failure(NotFound)
    case Some(prior) =>
      if FindChoice(db.choices, choiceId).None? then Failure(NotFound)
      else if reply.None? then Failure(NoResponse)
      else
        match ParseContinuation(reply.value)
        case Failure(e) => Failure(Malformed(e))
        case Success(next) => Success(WriteContinuation(db, prior, next, authorId))
  }

  /** A continuation request keeps the story graph well formed. */
  lemma {:induction false} NextStepKeepsWellFormed(db: Db, storyId: int, choiceId: int, reply: Option<string>, authorId: int)
    requires WellFormed(db)
    ensures NextStep(db, storyId, choiceId, reply, authorId).Success? ==>
              WellFormed(NextStep(db, storyId, choiceId, reply, authorId).value.0)
  {
    var r := NextStep(db, storyId, choiceId, reply, authorId);
    if r.Success? {
      WriteContinuationKeepsWellFormed(db, FindStory(db.stories, storyId).value,
                                       ParseContinuation(reply.value).value, authorId);
    }
  }

  /** For an existing story and choice, a reply holding [end_content]
      anywhere ends the story: a terminal story with the prior title and
      no new steps. */
  lemma {:induction false} NextStepEnding(db: Db, storyId: int, choiceId: int, reply: string, authorId: int)
    requires FindStory(db.stories, storyId).Some? && FindChoice(db.choices, choiceId).Some?
    requires Contains(reply, EndContent)
    ensures var r := NextStep(db, storyId, choiceId, Some(reply), authorId);
            && r.Success? && r.value.1.end
            && r.value.1.title == FindStory(db.stories, storyId).value.title
            && r.value.0.steps == db.steps
  {
    EndTagMakesTerminal(reply);
  }

  /** End to end: for an existing story and choice, a reply written as
      `[start_content]B[choice_text]C1[choice_text]C2` with tag-free fields
      stores an open story with the prior title and body B, and the steps
      C1 and C2, all stripped. */
  lemma {:induction false} NextStepRoundTrip(db: Db, storyId: int, choiceId: int, b: string, c1: string, c2: string, authorId: int)
    requires FindStory(db.stories, storyId).Some? && FindChoice(db.choices, choiceId).Some?
    requires TagFree(b) && TagFree(c1) && TagFree(c2)
    ensures var r := NextStep(db, storyId, choiceId, Some(StartContent + b + ChoiceText + c1 + ChoiceText + c2), authorId);
            && r.Success?
            && r.value.1 == Story(|db.stories| + 1, FindStory(db.stories, storyId).value.title, Strip(b), authorId, false)
            && r.value.0.steps == db.steps + [StoryStep(|db.steps| + 1, Strip(c1), |db.stories| + 1),
                                              StoryStep(|db.steps| + 2, Strip(c2), |db.stories| + 1)]
  {
    ContinuationFields(b, c1, c2);
    NextStepOnBranch(db, storyId, choiceId, StartContent + b + ChoiceText + c1 + ChoiceText + c2,
                     authorId, Branch(Strip(b), Strip(c1), Strip(c2)));
  }

  /** NextStep once the reply is known to continue with a body and two choices. */
  lemma NextStepOnBranch(db: Db, storyId: int, choiceId: int, reply: string, authorId: int, next: Continuation)
    requires FindStory(db.stories, storyId).Some? && FindChoice(db.choices, choiceId).Some?
    requires ParseContinuation(reply) == Success(next) && next.Branch?
    ensures var r := NextStep(db, storyId, choiceId, Some(reply), authorId);
            && r.Success?
            && r.value.1 == Story(|db.stories| + 1, FindStory(db.stories, storyId).value.title, next.startContent, authorId, false)
            && r.value.0.steps == db.steps + [StoryStep(|db.steps| + 1, next.choice1, |db.stories| + 1),
                                              StoryStep(|db.steps| + 2, next.choice2, |db.stories| + 1)]
  {
    var prior := FindStory(db.stories, storyId).value;
    var w := WriteContinuation(db, prior, next, authorId);
    assert NextStep(db, storyId, choiceId, Some(reply), authorId) == Success(w);
    WriteBranch(db, prior, next, authorId);
  }

  /** The open story and the two steps a branch continuation writes. */
  lemma WriteBranch(db: Db, prior: Story, next: Continuation, authorId: int)
    requires next.Branch?
    ensures WriteContinuation(db, prior, next, authorId).1 == Story(|db.stories| + 1, prior.title, next.startContent, authorId, false)
    ensures WriteContinuation(db, prior, next, authorId).0.steps
              == db.steps + [StoryStep(|db.steps| + 1, next.choice1, |db.stories| + 1),
                             StoryStep(|db.steps| + 2, next.choice2, |db.stories| + 1)]
  {
  }
}