/** The persistent records of models.py as immutable values. The database is
    a value too: a commit is a function from the old state to the new one.
    Primary keys are assigned like an auto-increment column: the n-th row of
    a table has id n. */
module Models {
  import opened Results

  datatype Story = Story(id: nat, title: string, startContent: string, authorId: int, end: bool)

  /** One of the (two) options offered at the end of a story. */
  datatype StoryStep = StoryStep(id: nat, content: string, storyId: nat)

  datatype Choice = Choice(id: nat, choiceText: string, fromStepId: Option<nat>, toStepId: Option<nat>, genreId: Option<nat>)

  /** The story-to-character link apicalls.py writes for each selected character. */
  datatype StoryCharacter = StoryCharacter(storyId: nat, characterId: int)

  datatype Db = Db(stories: seq<Story>, steps: seq<StoryStep>, choices: seq<Choice>, storyCharacters: seq<StoryCharacter>)

  /** `Model.query.get(id)` on a table whose rows carry their primary key
      as `key(row)`: the row with that key, if any. */
  function Get<T>(rows: seq<T>, key: T -> int, id: int): (r: Option<T>)
    ensures r.Some? ==> r.value in rows && key(r.value) == id
    ensures r.None? <==> forall i :: 0 <= i < |rows| ==> key(rows[i]) != id
    decreases |rows|
  {
    if |rows| == 0 then None
    else if key(rows[0]) == id then Some(rows[0])
    else Get(rows[1..], key, id)
  }

  /** `Story.query.get_or_404(id)`: None is the 404. */
  function FindStory(stories: seq<Story>, id: int): (r: Option<Story>)
    ensures r.Some? ==> r.value in stories && r.value.id == id
    ensures r.None? <==> forall i :: 0 <= i < |stories| ==> stories[i].id != id
  {
    Get(stories, (s: Story) => s.id, id)
  }

  /** `Choice.query.get_or_404(id)`: None is the 404. */
  function FindChoice(choices: seq<Choice>, id: int): (r: Option<Choice>)
    ensures r.Some? ==> r.value in choices && r.value.id == id
    ensures r.None? <==> forall i :: 0 <= i < |choices| ==> choices[i].id != id
  {
    Get(choices, (c: Choice) => c.id, id)
  }

  /** How many steps hang off the story with this id. */
  function StepCount(steps: seq<StoryStep>, storyId: nat): nat
  {
    if |steps| == 0 then 0
    else (if steps[0].storyId == storyId then 1 else 0) + StepCount(steps[1..], storyId)
  }

  /** The story graph as the generation code leaves it: keys are 1, 2, 3, ...
      in insertion order, every step belongs to an existing story, a terminal
      story has no steps and every other story has exactly two. */
  ghost predicate WellFormed(db: Db)
    ensures WellFormed(db) && |db.stories| == 0 ==> |db.steps| == 0
  {
    var owned := forall i :: 0 <= i < |db.steps| ==> 1 <= db.steps[i].storyId <= |db.stories|;
    assert owned && |db.steps| > 0 ==> 1 <= db.steps[0].storyId <= |db.stories|;
    && (forall i :: 0 <= i < |db.stories| ==> db.stories[i].id == i + 1)
    && (forall i :: 0 <= i < |db.steps| ==> db.steps[i].id == i + 1)
    && owned
    && (forall i :: 0 <= i < |db.stories| ==>
          StepCount(db.steps, db.stories[i].id) == if db.stories[i].end then 0 else 2)
  }

  /** The empty database is well formed, so every database the generation
      code builds from it by the commits below is too. */
  lemma EmptyWellFormed()
    ensures WellFormed(Db([], [], [], []))
  {
  }

  /** The rows written for one option per entry of `options`, all under `storyId`. */
  function StepRows(firstId: nat, options: seq<string>, storyId: nat): (rows: seq<StoryStep>)
    ensures |rows| == |options|
    ensures forall i :: 0 <= i < |rows| ==> rows[i] == StoryStep(firstId + i, options[i], storyId)
    decreases |options|
  {
    if |options| == 0 then []
    else [StoryStep(firstId, options[0], storyId)] + StepRows(firstId + 1, options[1..], storyId)
  }

  /** Adds a story and one step per option in a single commit, with the
      next free keys, and returns the new state and the new story. */
  function CommitStory(db: Db, title: string, startContent: string, authorId: int, end: bool, options: seq<string>): (r: (Db, Story))
    ensures r.1 == Story(|db.stories| + 1, title, startContent, authorId, end)
    ensures r.0.stories == db.stories + [r.1]
    ensures |r.0.steps| == |db.steps| + |options| && r.0.steps[..|db.steps|] == db.steps
    ensures forall i :: 0 <= i < |options| ==>
              r.0.steps[|db.steps| + i] == StoryStep(|db.steps| + 1 + i, options[i], r.1.id)
    ensures r.0.choices == db.choices && r.0.storyCharacters == db.storyCharacters
  {
    var story := Story(|db.stories| + 1, title, startContent, authorId, end);
    var steps := db.steps + StepRows(|db.steps| + 1, options, story.id);
    assert steps[..|db.steps|] == db.steps;
    (db.(stories := db.stories + [story], steps := steps), story)
  }

  lemma {:induction false} StepCountAppend(a: seq<StoryStep>, b: seq<StoryStep>, storyId: nat)
    ensures StepCount(a + b, storyId) == StepCount(a, storyId) + StepCount(b, storyId)
    decreases |a|
  {
    if |a| == 0 {
      assert a + b == b;
    } else {
      assert (a + b)[1..] == a[1..] + b;
      StepCountAppend(a[1..], b, storyId);
    }
  }

  lemma {:induction false} StepCountAbsent(steps: seq<StoryStep>, storyId: nat)
    requires forall i :: 0 <= i < |steps| ==> steps[i].storyId != storyId
    ensures StepCount(steps, storyId) == 0
    decreases |steps|
  {
    if |steps| > 0 {
      StepCountAbsent(steps[1..], storyId);
    }
  }

  lemma {:induction false} StepCountAll(steps: seq<StoryStep>, storyId: nat)
    requires forall i :: 0 <= i < |steps| ==> steps[i].storyId == storyId
    ensures StepCount(steps, storyId) == |steps|
    decreases |steps|
  {
    if |steps| > 0 {
      StepCountAll(steps[1..], storyId);
    }
  }

  /** A commit that writes a terminal story with no options, or an open story
      with exactly two, keeps the story graph well formed. */
  lemma {:induction false} CommitKeepsWellFormed(db: Db, title: string, startContent: string, authorId: int, end: bool, options: seq<string>)
    requires WellFormed(db)
    requires if end then |options| == 0 else |options| == 2
    ensures WellFormed(CommitStory(db, title, startContent, authorId, end, options).0)
  {
    var (db', story) := CommitStory(db, title, startContent, authorId, end, options);
    var added := db'.steps[|db.steps|..];
    assert db'.steps == db.steps + added;
    forall i | 0 <= i < |db'.stories|
      ensures StepCount(db'.steps, db'.stories[i].id) == if db'.stories[i].end then 0 else 2
    {
      StepCountAppend(db.steps, added, db'.stories[i].id);
      if i < |db.stories| {
        assert db'.stories[i] == db.stories[i];
        assert forall j :: 0 <= j < |added| ==> added[j].storyId == story.id;
        StepCountAbsent(added, db'.stories[i].id);
      } else {
        assert forall j :: 0 <= j < |db.steps| ==> db.steps[j].storyId <= |db.stories|;
        StepCountAbsent(db.steps, story.id);
        assert forall j :: 0 <= j < |added| ==> added[j].storyId == story.id;
        StepCountAll(added, story.id);
      }
    }
  }

  // ---------------------------------------------------------------------
  // UserGenre: per-(user, genre) usage counter

  datatype UserGenre = UserGenre(userId: int, genreId: int, count: nat)

  /** The user_genres table, keyed by its composite primary key (user_id, genre_id). */
  type GenreCounts = map<(int, int), nat>

  /** `UserGenre.increment_count`: an upsert. An absent pair is inserted with
      count 1, a present one goes up by one, no other pair is touched, and the
      returned row is the one for the requested pair. */
  function IncrementCount(counts: GenreCounts, userId: int, genreId: int): (r: (GenreCounts, UserGenre))
    ensures r.0.Keys == counts.Keys + {(userId, genreId)}
    ensures (userId, genreId) !in counts ==> r.0[(userId, genreId)] == 1
    ensures (userId, genreId) in counts ==> r.0[(userId, genreId)] == counts[(userId, genreId)] + 1
    ensures forall k :: k in counts && k != (userId, genreId) ==> r.0[k] == counts[k]
    ensures r.1 == UserGenre(userId, genreId, r.0[(userId, genreId)]) && r.1.count >= 1
  {
    var key := (userId, genreId);
    var row := if key in counts then UserGenre(userId, genreId, counts[key] + 1)
               else UserGenre(userId, genreId, 1);
    (counts[key := row.count], row)
  }

  /** The table after n calls of increment_count for the same pair. */
  function IncrementTimes(counts: GenreCounts, userId: int, genreId: int, n: nat): GenreCounts
    decreases n
  {
    if n == 0 then counts
    else IncrementTimes(IncrementCount(counts, userId, genreId).0, userId, genreId, n - 1)
  }

  /** n calls add exactly n to the pair's count (from 0 when it was absent) and
      leave every other pair alone. */
  lemma {:induction false} IncrementTimesCounts(counts: GenreCounts, userId: int, genreId: int, n: nat)
    ensures var after := IncrementTimes(counts, userId, genreId, n);
      && (n > 0 || (userId, genreId) in counts ==> (userId, genreId) in after)
      && ((userId, genreId) in after ==>
            after[(userId, genreId)] == n + (if (userId, genreId) in counts then counts[(userId, genreId)] else 0))
      && (forall k :: k in counts && k != (userId, genreId) ==> k in after && after[k] == counts[k])
      && (forall k :: k in after && k != (userId, genreId) ==> k in counts)
    decreases n
  {
    if n > 0 {
      var once := IncrementCount(counts, userId, genreId).0;
      IncrementTimesCounts(once, userId, genreId, n - 1);
    }
  }

  /** Starting from an absent pair, the count equals the number of calls. */
  lemma {:induction false} CountEqualsCalls(counts: GenreCounts, userId: int, genreId: int, n: nat)
    requires (userId, genreId) !in counts && n > 0
    ensures (userId, genreId) in IncrementTimes(counts, userId, genreId, n)
    ensures IncrementTimes(counts, userId, genreId, n)[(userId, genreId)] == n
  {
    IncrementTimesCounts(counts, userId, genreId, n);
  }
}
