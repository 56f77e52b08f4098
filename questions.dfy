/**
 * The suggested-question cache (`DB.questionInfo` and `DB.questions`): the
 * questions are regenerated only when the schema differs from the one they
 * were generated for. The fingerprint `JSON.stringify(DB.schema())` is
 * modelled by the schema value itself, since only its equality is observed.
 */
module Questions {
  import opened Wrappers
  import opened Store
  import opened Llm

  /** A snapshot of `DB.questionInfo`; every field starts out absent. */
  datatype Info = Info(schema: Option<seq<TableSchema>>, questions: Option<seq<string>>, error: Option<Failure>)

  /** What the page shows when the questions come back. */
  datatype Display =
    | ShowError(failure: Failure)
    | ShowQuestions(list: seq<string>)
    /** Neither an error nor a list: rendering the list would throw. */
    | NothingToShow

  function DisplayOf(info: Info): Display {
    if info.error.Some? then ShowError(info.error.value)
    else if info.questions.Some? then ShowQuestions(info.questions.value)
    else NothingToShow
  }

  predicate Stale(info: Info, current: seq<TableSchema>) {
    info.schema != Some(current)
  }

  /**
   * The cache after `DB.questions()` with `current` as the live schema and
   * `reply` as the answer the request would get: nothing changes when the
   * schema is the recorded one; otherwise the reply's questions or its error
   * are recorded and, either way, so is the schema.
   */
  function Refreshed(info: Info, current: seq<TableSchema>, reply: Result<seq<string>, Failure>): Info {
    if !Stale(info, current) then info
    else
      match reply
      case Ok(qs) => info.(schema := Some(current), questions := Some(qs))
      case Err(f) => info.(schema := Some(current), error := Some(f))
  }

  /** The demo pre-seeding: a non-empty list of questions shipped with a demo is stored against the live schema. */
  function Seeded(info: Info, current: seq<TableSchema>, qs: seq<string>): Info {
    if |qs| > 0 then info.(schema := Some(current), questions := Some(qs)) else info
  }

  /** After a refresh the cache is current, so a second refresh against the same schema changes nothing, whatever its reply. */
  lemma RefreshIdempotent(info: Info, current: seq<TableSchema>, first: Result<seq<string>, Failure>, second: Result<seq<string>, Failure>)
    ensures !Stale(Refreshed(info, current, first), current)
    ensures Refreshed(Refreshed(info, current, first), current, second) == Refreshed(info, current, first)
  {
  }

  /**
   * A failed refresh shows the error but keeps the earlier questions; a
   * successful one shows its questions unless an older error is recorded.
   */
  lemma RefreshDisplay(info: Info, current: seq<TableSchema>, reply: Result<seq<string>, Failure>)
    requires Stale(info, current)
    ensures reply.Err? ==>
      && DisplayOf(Refreshed(info, current, reply)) == ShowError(reply.error)
      && Refreshed(info, current, reply).questions == info.questions
    ensures reply.Ok? ==>
      DisplayOf(Refreshed(info, current, reply)) ==
        (if info.error.Some? then ShowError(info.error.value) else ShowQuestions(reply.value))
  {
  }

  /** After any refresh there is something to show: an error or a list. */
  lemma RefreshShowsSomething(info: Info, current: seq<TableSchema>, reply: Result<seq<string>, Failure>)
    requires info.schema.None? || DisplayOf(info) != NothingToShow
    ensures DisplayOf(Refreshed(info, current, reply)) != NothingToShow
  {
  }

  /** A demo with questions makes them current: the next refresh asks nothing. */
  lemma SeededIsCurrent(info: Info, current: seq<TableSchema>, qs: seq<string>, reply: Result<seq<string>, Failure>)
    requires |qs| > 0
    ensures Refreshed(Seeded(info, current, qs), current, reply) == Seeded(info, current, qs)
    ensures DisplayOf(Seeded(info, current, qs)) == if info.error.Some? then ShowError(info.error.value) else ShowQuestions(qs)
  {
  }

  /** Everything that can happen to the cache. */
  datatype Event =
    | Refresh(current: seq<TableSchema>, reply: Result<seq<string>, Failure>)
    | Seed(current: seq<TableSchema>, qs: seq<string>)

  function Step(info: Info, e: Event): Info {
    match e
    case Refresh(current, reply) => Refreshed(info, current, reply)
    case Seed(current, qs) => Seeded(info, current, qs)
  }

  function Replay(info: Info, events: seq<Event>): Info
    decreases |events|
  {
    if events == [] then info else Replay(Step(info, events[0]), events[1..])
  }

  /** A recorded error is never cleared: from then on the page shows an error instead of the questions. */
  lemma {:induction false} ErrorNeverCleared(info: Info, events: seq<Event>)
    requires info.error.Some?
    ensures Replay(info, events).error.Some?
    ensures DisplayOf(Replay(info, events)).ShowError?
    decreases |events|
  {
    if events != [] {
      ErrorNeverCleared(Step(info, events[0]), events[1..]);
    }
  }

  /** `DB.questionInfo` with `DB.questions()` as its one operation. */
  class QuestionCache {
    var schema: Option<seq<TableSchema>>
    var questions: Option<seq<string>>
    var error: Option<Failure>

    function Snapshot(): Info
      reads this
    {
      Info(schema, questions, error)
    }

    constructor ()
      ensures Snapshot() == Info(None, None, None)
    {
      schema := None;
      questions := None;
      error := None;
    }

    /**
     * `DB.questions()`: one request to the service when the live schema
     * differs from the recorded one, none otherwise; returns the cache.
     */
    method Refresh(db: Database, llm: Prompt -> Reply, decode: string -> Option<seq<string>>)
      returns (requests: nat, info: Info)
      modifies this
      ensures requests == (if Stale(old(Snapshot()), db.Schema()) then 1 else 0)
      ensures info == Snapshot()
      ensures Snapshot() == Refreshed(old(Snapshot()), db.Schema(),
                                      Structured(llm(QuestionsPrompt(SchemaText(db.Schema()))), decode))
    {
      var current := db.Schema();
      if schema != Some(current) {
        var response := Structured(llm(QuestionsPrompt(SchemaText(current))), decode);
        if response.Err? {
          error := Some(response.error);
        } else {
          questions := Some(response.value);
        }
        schema := Some(db.Schema());
        requests := 1;
      } else {
        requests := 0;
      }
      info := Snapshot();
    }
  }

  /** Opening a demo after its file is loaded: seed its questions, then set the dataset description. */
  method SeedDemo(db: Database, cache: QuestionCache, qs: seq<string>, context: string)
    modifies db`context, cache
    ensures cache.Snapshot() == Seeded(old(cache.Snapshot()), db.Schema(), qs)
    ensures db.context == context && db.tables == old(db.tables)
  {
    if |qs| > 0 {
      cache.schema := Some(db.Schema());
      cache.questions := Some(qs);
    }
    db.context := context;
  }
}
