# Story generation core: reply parsing, record writes, form validators, genre counter

This project models the deterministic core of a choose-your-own-adventure
web application. A language model is asked for a story in a tagged text
format, and the application takes that reply apart into story records:

- **First turn** (`make_api_request` in `apicalls.py`). The reply has the
  shape `[title]T [start_content]B [choice_text]C1 [choice_text]C2`.
  - It is split on `[choice_text]`.
  - The first piece is split on `[start_content]`.
  - Every section is stripped. The title is also cleared of `[title]` and
    stripped again.
  - The application then writes a story, two story steps (the options) and
    one story-character link per selected character.
- **Earlier draft** (`make_api_request` in `api.py`). It cuts the reply the
  same way but clears the title by removing `"[title]\n"`, with no final
  strip. It writes the story and two steps.
- **Continuation** (`next_step` in `apicalls.py`). Every `[start_content]`
  is removed and the text is stripped. Then:
  - if `[end_content]` occurs, the new story is terminal and its body is the
    text without that tag;
  - otherwise the text is split on `[choice_text]` into a body and two
    options.
  - The new story keeps the prior story's title.
- **Form validators** (`forms.py`): the `ComplexPassword` rule and the
  declared validator chains of the signup, login and character forms.
- **Genre counter** (`UserGenre.increment_count` in `models.py`): an upsert
  on the (user, genre) table.

How the model is put together:

- **Strings.** A Python `str` is a `string` (a sequence of code points).
  - `split`, `replace(p, '')`, `strip`, `in` and `count` are written out in
    module `PyStr`, with Python's semantics.
  - `split` is leftmost and non-overlapping.
  - `strip` removes Python's 29 `isspace` code points.
- **Index errors.** An `IndexError` while indexing the pieces is a
  `ParseError`. The `[start_content]` piece is indexed first, as in the
  source.
- **Database.** The database is an immutable value `Db`. A commit is a
  function from the old state to the new one, and keys are assigned 1, 2, 3,
  … as an auto-increment column does.
- **Inputs.** The completion reply is an input: `None` stands for a falsy
  response. So are the current user's id and the selected characters.

Modules:

| module | file | contents |
|---|---|---|
| Results | results.dfy | `Option`, `Result` |
| PyStr | pystr.dfy | the Python string operations and their laws |
| Completion | completion.dfy | the tags, the shared first-turn section split, gluing lemmas |
| Models | models.dfy | records, `Db`, commits, the well-formed story graph, the genre counter |
| ApiCalls | apicalls.dfy | first-turn and continuation parse and writes |
| Api | api.dfy | the earlier draft parse and writes |
| Forms | forms.dfy | `ComplexPassword`, WTForms chains, the three forms |

## Model

| member | source | states |
|---|---|---|
| PyStr.StripLeft | apicalls.py:31 | `lstrip` drops only leading whitespace: the result is a suffix of the input, the removed prefix is all whitespace, and the result does not start with whitespace |
| PyStr.StripRight | apicalls.py:31 | `rstrip` drops only trailing whitespace: the result is a prefix, the removed suffix is all whitespace, and the result does not end with whitespace |
| PyStr.Strip | apicalls.py:31-35 | `strip()` leaves no whitespace at either end and never lengthens the text |
| PyStr.StripPadded | apicalls.py:31-35 | stripping whitespace + r + whitespace gives back exactly r when r has no surrounding whitespace (the decomposition that determines `strip`) |
| PyStr.StripAbsorbs | apicalls.py:31-35 | stripping ignores any whitespace added around a text: `strip(w1 + s + w2) == strip(s)` |
| PyStr.StripEmptyIffAllSpace | apicalls.py:31 | `strip()` yields the empty string exactly when the text is all whitespace |
| PyStr.StripIdempotent | apicalls.py:31 | the second `.strip()` on an already stripped title changes nothing |
| PyStr.StripKeepsContains | apicalls.py:71-73 | stripping keeps an occurrence of a tag that starts and ends with non-whitespace |
| PyStr.ContainsInStrip | apicalls.py:71-73 | anything found in the stripped text was in the original |
| PyStr.StripKeepsAbsence | apicalls.py:32-35 | stripping never creates a tag occurrence |
| PyStr.Contains | apicalls.py:73 | the `in` test only finds a tag in a text at least as long as the tag (its partners are PyStr.ContainsInStrip and PyStr.StripKeepsContains) |
| PyStr.Occurrences | apicalls.py:28 | a positive `count` means the tag occurs |
| PyStr.Split | apicalls.py:28 | `split` always yields at least one piece (its partners, PyStr.JoinSplit and PyStr.SplitCount, state what the pieces are) |
| PyStr.JoinSplit | apicalls.py:28 | joining the `split` pieces with the separator gives back the input |
| PyStr.SplitCount | apicalls.py:28-35 | `split` yields one more piece than there are non-overlapping occurrences, which is when `response_parts[2]` exists |
| PyStr.SplitCutsIffContains | apicalls.py:30-32 | the `[start_content]` split has a second piece exactly when the tag occurs |
| PyStr.SplitPiecesFree | apicalls.py:28 | no `split` piece contains the separator |
| PyStr.SplitPiecesInherit | apicalls.py:78 | a piece of a text that lacks some tag lacks it too |
| PyStr.SplitFree | apicalls.py:28 | a text without the separator splits into itself alone |
| PyStr.SplitAround | apicalls.py:28 | splitting `s + sep + t` gives the pieces of `s` followed by the pieces of `t` |
| PyStr.SplitThree | apicalls.py:28 | `a + sep + b + sep + c` with separator-free parts splits into exactly `[a, b, c]` |
| PyStr.Remove | apicalls.py:71 | `replace(p, '')` never lengthens the text (PyStr.RemoveIsJoinedSplit states what it leaves) |
| PyStr.RemoveIsJoinedSplit | apicalls.py:71 | `replace(p, '')` equals joining the `split(p)` pieces with nothing between them |
| PyStr.RemoveFree | api.py:34 | removing a tag that does not occur changes nothing |
| PyStr.RemoveAround | apicalls.py:71 | removal distributes over `s + tag + t` |
| PyStr.RemoveLeadingOnly | apicalls.py:31 | removing a leading tag from `tag + x`, when x lacks it, leaves x |
| PyStr.RemoveInnerOnly | apicalls.py:74 | removing the only occurrence of a tag between x and y leaves `x + y` |
| PyStr.RemoveKeepsOther | apicalls.py:71-73 | removing `[start_content]` cannot destroy an `[end_content]` (the two tags differ in their second character) |
| Completion.Preamble | apicalls.py:28-30 | `response_parts[0]` is a prefix of the reply free of `[choice_text]`, and is either the whole reply or followed by the tag |
| Completion.Sections | apicalls.py:28-35 | the shared cut fails with the `[start_content]` IndexError exactly when the preamble lacks that tag, and with the choice IndexError exactly when it has it but the reply has fewer than two `[choice_text]`; on success every section is stripped and free of the tags it was cut on |
| Completion.SectionsRoundTrip | apicalls.py:28-35 | a reply written as title tag, title, body and two choices, with tag-free fields carrying any whitespace, cuts back into the stripped tagged title and the stripped body and choices |
| Completion.SectionsByPieces | apicalls.py:34-35 | the cut reads only the first three `[choice_text]` pieces |
| ApiCalls.ParseFirstTurn | apicalls.py:26-35 | both IndexError conditions as if-and-only-ifs; on success all four fields are stripped, the body holds neither `[choice_text]` nor `[start_content]`, and the choices hold no `[choice_text]` |
| ApiCalls.FirstTurnFields | apicalls.py:26-35 | parsing `[title]T[start_content]B[choice_text]C1[choice_text]C2` with tag-free fields, whatever whitespace they carry, yields the four stripped fields |
| ApiCalls.TitleSectionClears | apicalls.py:31 | strip, removal of `[title]` and strip again turn the section `[title]T` into the stripped T |
| ApiCalls.FirstTurnRoundTrip | apicalls.py:26-35 | parsing `[title]T[start_content]B[choice_text]C1[choice_text]C2` with tag-free, stripped fields yields exactly (T, B, C1, C2) |
| ApiCalls.FirstTurnTrailingSpace | apicalls.py:26-35 | the same reply with whitespace (such as the line breaks of `"[title]The Cave\n[start_content]You enter a dark cave.\n[choice_text]Go deeper\n[choice_text]Turn back"`) after each field still yields exactly (T, B, C1, C2) |
| ApiCalls.TitleAfterSpace | apicalls.py:31 | whitespace between `[title]` and the title, line break or not, goes with the tag |
| ApiCalls.ExtraChoicesIgnored | apicalls.py:34-35 | text after a third `[choice_text]` does not change the parse |
| ApiCalls.CharacterLinks | apicalls.py:46-50 | one link per selected character id, in the order selected, all under the new story |
| ApiCalls.WriteFirstTurn | apicalls.py:37-50 | the story gets the next key, its two steps follow in choice order under the next keys, the links are appended, and the choices table is untouched |
| ApiCalls.WriteFirstTurnKeepsWellFormed | apicalls.py:37-50 | a first turn keeps the story graph well formed (consecutive keys, every step under an existing story, two steps per open story) |
| ApiCalls.MakeApiRequest | apicalls.py:26-52 | a falsy response is reported as such; a reply whose preamble lacks `[start_content]`, or that has fewer than two `[choice_text]`, is reported as that IndexError; it succeeds exactly otherwise, adding one open story under the next key with the parsed title and body, its two steps under the next keys, the character links, and nothing else |
| ApiCalls.MakeApiRequestKeepsWellFormed | apicalls.py:26-52 | a successful first-turn request leaves a well-formed story graph well formed |
| ApiCalls.MakeApiRequestRoundTrip | apicalls.py:26-52 | end to end: a reply `[title]T[start_content]B[choice_text]C1[choice_text]C2` with tag-free fields stores the story (T, B) and the steps C1 then C2, all stripped, under the new story |
| ApiCalls.Cleaned | apicalls.py:71 | the cleaned reply has no surrounding whitespace and is no longer than the reply |
| ApiCalls.ParseContinuation | apicalls.py:71-83 | terminal if and only if `[end_content]` is in the cleaned reply; fails if and only if it is absent and fewer than two `[choice_text]` occur; every field is stripped and the branch fields hold neither tag |
| ApiCalls.EndTagMakesTerminal | apicalls.py:71-75 | an `[end_content]` anywhere in the raw reply makes the story terminal, whatever else the reply holds |
| ApiCalls.ContinuationFields | apicalls.py:71-83 | `[start_content]B[choice_text]C1[choice_text]C2` with tag-free fields, whatever whitespace they carry, continues with the three stripped fields |
| ApiCalls.ContinuationRoundTrip | apicalls.py:71-83 | `[start_content]B[choice_text]C1[choice_text]C2` with tag-free, stripped fields continues with exactly (B, C1, C2) |
| ApiCalls.ContinuationTrailingSpace | apicalls.py:71-83 | the same reply with whitespace after each field still continues with exactly (B, C1, C2) |
| ApiCalls.EndingRoundTrip | apicalls.py:71-74 | `[start_content]B[end_content]` ends the story with exactly B |
| ApiCalls.EndingKeepsTrailingChoices | apicalls.py:73-74 | choices written after `[end_content]` stay in the terminal body, `[choice_text]` tags included |
| ApiCalls.EndingWithTail | apicalls.py:71-74 | `[start_content]B[end_content]` followed by any stripped, tag-free text ends with B and that text |
| ApiCalls.WriteContinuation | apicalls.py:73-92 | the new story keeps the prior title and is terminal exactly for an ending; an ending writes no steps, a branch writes its two steps in choice order |
| ApiCalls.WriteContinuationKeepsWellFormed | apicalls.py:73-92 | a continuation keeps the story graph well formed |
| ApiCalls.NextStep | apicalls.py:54-94 | a 404 exactly when the story or the choice is unknown; otherwise a falsy response is reported as such, and a cleaned reply with neither `[end_content]` nor two `[choice_text]` as the choice IndexError; any other reply adds one story under the next key with the prior title and the new author, terminal with no steps exactly when the cleaned reply holds `[end_content]`, otherwise open with the parsed body and its two steps |
| ApiCalls.NextStepKeepsWellFormed | apicalls.py:54-94 | a successful continuation request leaves a well-formed story graph well formed |
| ApiCalls.NextStepEnding | apicalls.py:71-75 | for an existing story and choice, a reply with `[end_content]` anywhere yields a terminal story with the prior title and no new steps |
| ApiCalls.NextStepRoundTrip | apicalls.py:54-94 | end to end: for an existing story and choice, `[start_content]B[choice_text]C1[choice_text]C2` with tag-free fields stores an open story with the prior title and body B, and the steps C1 then C2, all stripped |
| Api.ParseDraft | api.py:29-46 | the same IndexError conditions as the current parse, as if-and-only-ifs; on success body and choices are stripped, the body holds neither `[choice_text]` nor `[start_content]`, and the choices hold no `[choice_text]` |
| Api.DraftAgreesWithFirstTurn | api.py:30-38 | the draft and the current parse fail on the same replies with the same error and agree on body and choices |
| Api.DraftRoundTrip | api.py:30-38 | `[title]\nT[start_content]B[choice_text]C1[choice_text]C2` with a non-empty, tag-free, stripped title parses back to exactly those fields |
| Api.DraftTitleClears | api.py:34 | for a non-empty stripped tag-free title, stripping `"[title]\n" + t` and removing `"[title]\n"` gives back exactly t |
| Api.DraftEmptyTitle | api.py:34 | with an empty title the draft yields the bare `[title]`, because stripping removes the line break first |
| Api.DraftKeepsTitleTag | api.py:34 | `[title]` followed by spaces (no line break) or directly by the title keeps the tag in the draft's title, while the current parse yields the bare title |
| Api.WriteDraft | api.py:48-55 | the story gets the next key and its two steps follow in choice order; no character links |
| Api.WriteDraftKeepsWellFormed | api.py:48-55 | the draft write keeps the story graph well formed |
| Api.CreateDraft | api.py:29-57 | the same failure conditions as the current version, each as an if-and-only-if; on success one open story with the returned title and body is added under the next key with its two steps, no character links, and the returned body and choices are the current parse's |
| Api.CreateDraftKeepsWellFormed | api.py:29-57 | a successful draft request leaves a well-formed story graph well formed |
| Api.CreateDraftRoundTrip | api.py:29-57 | end to end: `[title]\nT[start_content]B[choice_text]C1[choice_text]C2` with a non-empty title and tag-free, stripped fields stores the story (T, B) and the steps C1 then C2, and returns exactly those fields |
| Models.FindStory | apicalls.py:56 | `Story.query.get_or_404(id)`: the found story is in the table with that key; it is missing (the 404) exactly when no story has the key |
| Models.FindChoice | apicalls.py:57 | `Choice.query.get_or_404(id)`: the same for choices |
| Models.Get | apicalls.py:56-57 | `query.get` finds a row with the requested key if there is one, and finds none exactly when no row has it |
| Models.WellFormed | apicalls.py:37-44 | the story graph the commits keep: consecutive keys, every step under an existing story, two steps per open story and none per terminal one; a graph with no stories has no steps |
| Models.EmptyWellFormed | apicalls.py:37-44 | the empty database is well formed, so the invariant holds from the start |
| Models.StepRows | apicalls.py:39-40 | one step per option with consecutive keys, in option order |
| Models.CommitStory | apicalls.py:37-44 | the story is appended under the next key, the steps under the next keys, and nothing else changes |
| Models.StepCountAppend | apicalls.py:39-44 | steps per story add up over appended tables |
| Models.CommitKeepsWellFormed | apicalls.py:37-44 | a commit of a terminal story with no options, or an open story with two, keeps the graph well formed |
| Models.IncrementCount | models.py:147-158 | an absent pair is inserted with 1, a present one goes up by one, no other pair changes, and the returned row carries the new count |
| Models.IncrementTimesCounts | models.py:147-158 | n calls add exactly n to the pair's count and leave every other pair alone |
| Models.CountEqualsCalls | models.py:151-155 | starting from an absent pair, the count equals the number of calls |
| Forms.Search | forms.py:26-29 | `re.search` for one class finds the leftmost character of that class, and finds nothing exactly when none is there |
| Forms.ComplexPassword | forms.py:23-30 | an accepted password has at least four characters (the four classes need four distinct positions) |
| Forms.ComplexPasswordIff | forms.py:26-30 | accepted exactly when the password has an ASCII capital, an ASCII small letter, an ASCII digit and some other character |
| Forms.Classes | forms.py:26-29 | the classes present are exactly those the searches find, and there are no more of them than characters |
| Forms.ClassesConcat | forms.py:26-29 | the classes of a concatenation are those of its parts |
| Forms.ComplexPasswordGrows | forms.py:26-30 | adding text before or after an accepted password keeps it accepted |
| Forms.AnyOtherIsSpecial | forms.py:29 | any character other than an ASCII letter or digit, non-ASCII letters included, is special |
| Forms.DataRequired | forms.py:34 | a field that passes `DataRequired` is not empty |
| Forms.DataRequiredIsStrip | forms.py:34 | a field passes `DataRequired` exactly when its `strip()` is not empty |
| Forms.RunChain | forms.py:34-45 | WTForms' validation loop over a declared list: the field is reported clean only when nothing was reported before, and the errors grow by at most one per validator |
| Forms.Validate | forms.py:34-45 | a field under a declared validator list reports no error exactly when every validator in the list passes |
| Forms.RunChainEmpty | forms.py:34-45 | the loop ends with no errors exactly when it started with none and every validator passed |
| Forms.RunChainAppends | forms.py:41-44 | validators other than `DataRequired` only append their errors, in order, after those already reported |
| Forms.RequiredFirst | forms.py:34-45 | a list led by `DataRequired` reports the required error alone on a blank field, and otherwise exactly what the rest of the list reports |
| Forms.LengthErrorIsCheck | forms.py:35 | the model's length check reports the same as one run of `Length(min, max)` |
| Forms.PasswordRest | forms.py:42-44 | `Length(min=8)`, `EqualTo('confirm')` and `ComplexPassword()` report their errors in declaration order |
| Forms.SignupChains | forms.py:32-45 | the username and password errors are what the loop reports for their declared lists, and the form is accepted exactly when every declared list (lookups aside) reports nothing |
| Forms.LoginChains | forms.py:48-52 | the login password's errors are the loop's over `DataRequired(), Length(min=8)`, and the form is accepted exactly when both declared lists report nothing |
| Forms.CharacterChains | forms.py:78-84 | the name and description errors are the loop's over their declared lists, UniquePerUser aside |
| Forms.UsernameErrors | forms.py:34-36 | the username is accepted exactly when it is not blank and has 4 to 25 characters |
| Forms.SignupPasswordErrors | forms.py:41-44 | the password is accepted exactly when it is not blank, has at least 8 characters, equals the confirmation and is complex; each failed check reports its own error, and blankness alone reports the required error |
| Forms.SignupAccepted | forms.py:32-45 | the signup form is accepted exactly when the username is not blank and has 4 to 25 characters, the names, email and password are not blank, the password has at least 8 characters, equals the confirmation and is complex |
| Forms.LoginAccepted | forms.py:48-52 | the login form is accepted exactly when neither field is blank and the password has at least 8 characters |
| Forms.LoginPasswordErrors | forms.py:51-52 | the login password is accepted exactly when it is not blank and has at least 8 characters |
| Forms.SignupPasswordPassesLogin | forms.py:41-52 | a password accepted at signup is accepted at login |
| Forms.LoginDoesNotCheckComplexity | forms.py:51-52 | "password" passes login but fails signup with only the complexity error |
| Forms.CharacterNameErrors | forms.py:80-81 | the name is accepted exactly when it is not blank and has 2 to 25 characters |
| Forms.DescriptionErrors | forms.py:83-84 | the description is accepted exactly when it is not blank and has at most 250 characters |
| Forms.CharacterBounds | forms.py:80-84 | an accepted character has a 2-25 character name and a 1-250 character description, neither blank |

## Left out

- The completion call itself, its prompts and `create_prompt`: the model's reply is an input (`Option<string>`).
- Flask routes, templates, sessions and `current_user`: the author id is a parameter.
- SQLAlchemy sessions, timestamps, cascades and relationship loading: the database is a value whose tables are sequences with auto-increment keys.
- `Story.create_story` in `models.py:74-83` takes `(title, start_content, created_at)`. The callers pass `author_id` and `end`. The model gives the story an author id and an end flag as the callers intend.
- `Story` in `models.py` has no `end` column, and `create_story` only adds the story to the session, so its key is not assigned before the steps read `new_story.id` (apicalls.py:39-40). The model stores the end flag and links the steps to the new story's key, as the callers intend.
- `StoryCharacters` is imported from `models.py` (apicalls.py:1) but not defined there. The link row is modelled as `StoryCharacter(storyId, characterId)`.
- The second `commit()` per character link is not modelled separately. All links of one call are appended in one step.
- Walking the story/choice graph, genre lookups and the seed script: they are not part of the parsing core.
- Password hashing (bcrypt) and token signing: foreign libraries.
- `UniqueUser` (forms.py:36) is a database lookup and `Email()` (forms.py:40) checks the email grammar. Both are left out of the signup lists.
- Forms.CharacterNameErrors: leaves out `UniquePerUser(lambda: current_user)` (forms.py:82). As written, that validator is constructed with a lambda, and its call reads `self.user.id` on it (forms.py:74). So it raises AttributeError instead of a ValidationError. `Length` does not stop the chain, so every non-blank name reaches that line. As written, validating a `CharacterForm` with a non-blank name fails with that exception, and no character is ever accepted. The model, Forms.CharacterChains and Forms.CharacterBounds describe the two declared checks as if the uniqueness lookup passed.
- Forms.RunChain: follows WTForms' `Field._run_validation_chain` and `DataRequired`: errors are appended in order, and `DataRequired` clears them and stops the chain. WTForms' own code is not part of this model's sources. Its `pre_validate` step and validator messages are not modelled.
- `EditUserForm` and `GenreForm`: outside the modelled core.
- Validator messages: the model reports which validator failed, not its text.
- The mutable session state of `increment_count` (query, add, commit) is a map update returning the new table and row.
- ApiCalls.WriteContinuation: the terminal branch (apicalls.py:73-75) calls `create_story`, which only adds the story to the session (models.py:82) and is never followed by a commit, so the source never persists that story. The model treats it as written, as for an open story.
- ApiCalls.CharacterLinks: `make_api_request` first looks up every selected character (apicalls.py:12-13), and an unknown id raises on `character.name` before anything is written. The lookups are not modelled, so the model writes a link for any id.
- Models.IncrementCount: the counter is an unbounded `nat`. A database integer column's overflow is not modelled.
- Api.DraftRoundTrip: requires a non-empty title, because with an empty one the draft yields `[title]` (see Api.DraftEmptyTitle).
- Completion.Sections: states which tags the sections lack and that they are stripped. There is no existence statement that each section is literally a stripped substring of the reply.

## Findings

| source | as written | input that shows it | evidently intended | confidence | as-written member | corrected member |
|---|---|---|---|---|---|---|
| api.py:34 | the title is cleared by removing `"[title]\n"` only, so a tag not followed by a line break stays in the title, and an empty title leaves the bare tag | `"[title] X[start_content]B[choice_text]C1[choice_text]C2"` gives the title `"[title] X"`; `"[title]\n[start_content]B[choice_text]C1[choice_text]C2"` gives `"[title]"` | the tag is removed whatever follows it, as `apicalls.py:31` does: remove `[title]`, then strip | not executed | Api.DraftKeepsTitleTag | ApiCalls.TitleAfterSpace |
