/**
 * The page's session state: the generated query, the latest non-empty result
 * and its rendered preview, and the chart currently drawn. The query engine
 * and the evaluation of generated chart code are oracles handed to the
 * operations that use them.
 */
module Session {
  import opened Wrappers
  import opened Records
  import opened Store
  import opened Llm
  import opened Fence

  /** Running the generated query: the rows as objects, or the engine's error. */
  datatype ExecOutcome = Rows(rows: seq<Record>) | Fault(message: string)

  /** Compiling the chart code with `new Function("Chart", "data", code)` and calling it. */
  datatype EvalOutcome =
    /** The code does not compile: nothing has run. */
    | SyntaxFault(message: string)
    /** The code compiled but threw when called. */
    | RuntimeFault(message: string)
    /** The call returned a value. */
    | Returned(value: Returned)

  /** What the chart code returned, as far as the handler cares. */
  datatype Returned =
    /** a new Chart.js chart */
    | NewChart
    /** `undefined`, `null`, `false`, `0` or `""` */
    | Falsy
    /** any other value: it is truthy but has no `destroy` method */
    | NotAChart

  /** What `latestChart` holds. */
  datatype Held =
    | Nothing
    | Chart(handle: ChartHandle)
    /** a truthy value that is not a chart: calling its `destroy` throws */
    | Stuck

  /** The message of the `TypeError` thrown by calling `destroy` on a value without that method. */
  const NotDestroyable := "latestChart.destroy is not a function"

  const PreviewRows := 100
  const SampleRows := 3

  /** `s.slice(0, n)`. */
  function Prefix<T>(s: seq<T>, n: nat): (r: seq<T>)
    ensures |r| == if |s| < n then |s| else n
    ensures forall i :: 0 <= i < |r| ==> r[i] == s[i]
  {
    if |s| <= n then s else s[..n]
  }

  /** A Chart.js chart, seen only through whether it has been destroyed. */
  class ChartHandle {
    var destroyed: bool

    constructor ()
      ensures !destroyed
    {
      destroyed := false;
    }

    method Destroy()
      modifies this
      ensures destroyed
    {
      destroyed := true;
    }
  }

  datatype SubmitOutcome =
    /** The service returned an error object; the handler stops before touching any state. */
    | Unanswered(error: string)
    /** The query returned rows: the action buttons are shown. */
    | ShowActions
    | NoResults
    | QueryFault(message: string)

  /** The four buttons shown under a successful query. */
  datatype Action = DownloadCsv | ShowSql | ShowOutput | DrawChart

  datatype View =
    | CsvExport(rows: seq<Record>)
    | SqlText(sql: string)
    | TablePreview(rows: seq<Record>)
    | ChartForm

  datatype DrawOutcome =
    /** There is no result to chart. */
    | NotOffered
    | NoReply(error: string)
    /** The reply has no non-empty `js` block. */
    | NoCode
    | DrawFailed(message: string)
    | Drawn

  class Session {
    var generatedSql: string
    var latestQueryResult: seq<Record>
    /** The rows `tableHtml` renders. */
    var tableHtml: seq<Record>
    var latestChart: Held
    /** Every chart this session has drawn. */
    ghost var charts: set<ChartHandle>

    /**
     * The preview always renders the first hundred rows of the latest result,
     * and the latest chart is the only chart that may still be live.
     */
    ghost predicate Valid()
      reads this, charts
    {
      && tableHtml == Prefix(latestQueryResult, PreviewRows)
      && (latestChart.Chart? ==> latestChart.handle in charts)
      && forall c :: c in charts && !c.destroyed ==> latestChart == Chart(c)
    }

    constructor ()
      ensures Valid()
      ensures generatedSql == "" && latestQueryResult == [] && latestChart == Nothing && charts == {}
    {
      generatedSql := "";
      latestQueryResult := [];
      tableHtml := [];
      latestChart := Nothing;
      charts := {};
    }

    /**
     * The query form's submit handler: ask for SQL, keep the fenced part of
     * the reply (or all of it), run it, and keep the rows only when there are some.
     */
    method Submit(question: string, db: Database, llm: Prompt -> Reply, engine: string -> ExecOutcome)
      returns (outcome: SubmitOutcome)
      requires Valid()
      modifies this
      ensures Valid()
      ensures latestChart == old(latestChart) && charts == old(charts)
      ensures match llm(QueryPrompt(db.context, SchemaText(db.Schema()), question))
        case Refused(e) =>
          && outcome == Unanswered(e)
          && generatedSql == old(generatedSql) && latestQueryResult == old(latestQueryResult)
        case Answered(content) =>
          && generatedSql == ExtractSql(content)
          && match engine(generatedSql)
             case Rows(rows) =>
               if |rows| > 0 then outcome == ShowActions && latestQueryResult == rows
               else outcome == NoResults && latestQueryResult == old(latestQueryResult)
             case Fault(m) =>
               outcome == QueryFault(m) && latestQueryResult == old(latestQueryResult)
    {
      var reply := llm(QueryPrompt(db.context, SchemaText(db.Schema()), question));
      if reply.Refused? {
        return Unanswered(reply.error);
      }
      generatedSql := ExtractSql(reply.content);
      var result := engine(generatedSql);
      match result
      case Fault(m) =>
        outcome := QueryFault(m);
      case Rows(rows) =>
        if |rows| > 0 {
          latestQueryResult := rows;
          tableHtml := Prefix(rows, PreviewRows);
          outcome := ShowActions;
        } else {
          outcome := NoResults;
        }
    }

    /** The buttons' click handler: each action is available only while there is a non-empty result. */
    method Perform(action: Action) returns (view: Option<View>)
      requires Valid()
      ensures view.Some? <==> |latestQueryResult| > 0
      ensures view.Some? ==> view.value == match action
        case DownloadCsv => CsvExport(latestQueryResult)
        case ShowSql => SqlText(generatedSql)
        case ShowOutput => TablePreview(Prefix(latestQueryResult, PreviewRows))
        case DrawChart => ChartForm
    {
      if |latestQueryResult| == 0 {
        return None;
      }
      match action
      case DownloadCsv => view := Some(CsvExport(latestQueryResult));
      case ShowSql => view := Some(SqlText(generatedSql));
      case ShowOutput => view := Some(TablePreview(tableHtml));
      case DrawChart => view := Some(ChartForm);
    }

    /**
     * The draw handler: ask for chart code on a three-row sample, compile it,
     * destroy the previous chart, then run the code on the whole result and
     * keep what it returns. Once a truthy value that is not a chart is kept,
     * destroying it throws before the code runs, so every later draw fails
     * and the value stays.
     */
    method Draw(question: string, intent: string, llm: Prompt -> Reply, eval: (string, seq<Record>) -> EvalOutcome)
      returns (outcome: DrawOutcome)
      requires Valid()
      modifies this, charts
      ensures Valid()
      ensures generatedSql == old(generatedSql) && latestQueryResult == old(latestQueryResult)
      ensures forall c :: c in old(charts) && old(latestChart) != Chart(c) ==> c.destroyed == old(c.destroyed)
      ensures
        if |latestQueryResult| == 0 then
          outcome == NotOffered && latestChart == old(latestChart) && charts == old(charts)
        else
          match llm(ChartPrompt(question, Prefix(latestQueryResult, SampleRows), intent))
          case Refused(e) =>
            outcome == NoReply(e) && latestChart == old(latestChart) && charts == old(charts)
          case Answered(content) =>
            match ChartCode(content)
            case None =>
              outcome == NoCode && latestChart == old(latestChart) && charts == old(charts)
            case Some(code) =>
              var run := eval(code, latestQueryResult);
              if run.SyntaxFault? then
                && outcome == DrawFailed(run.message) && latestChart == old(latestChart) && charts == old(charts)
                && (old(latestChart).Chart? ==> latestChart.handle.destroyed == old(latestChart.handle.destroyed))
              else if old(latestChart).Stuck? then
                outcome == DrawFailed(NotDestroyable) && latestChart == old(latestChart) && charts == old(charts)
              else if run.RuntimeFault? then
                && outcome == DrawFailed(run.message) && latestChart == old(latestChart) && charts == old(charts)
                && (old(latestChart).Chart? ==> old(latestChart).handle.destroyed)
              else
                && outcome == Drawn
                && (old(latestChart).Chart? ==> old(latestChart).handle.destroyed)
                && match run.value
                   case NewChart =>
                     && latestChart.Chart? && fresh(latestChart.handle) && !latestChart.handle.destroyed
                     && charts == old(charts) + {latestChart.handle}
                   case Falsy => latestChart == Nothing && charts == old(charts)
                   case NotAChart => latestChart == Stuck && charts == old(charts)
    {
      if |latestQueryResult| == 0 {
        return NotOffered;
      }
      var reply := llm(ChartPrompt(question, Prefix(latestQueryResult, SampleRows), intent));
      if reply.Refused? {
        return NoReply(reply.error);
      }
      var code := ChartCode(reply.content);
      if code.None? {
        return NoCode;
      }
      var run := eval(code.value, latestQueryResult);
      if run.SyntaxFault? {
        return DrawFailed(run.message);
      }
      match latestChart {
        case Stuck =>
          return DrawFailed(NotDestroyable);
        case Chart(previous) =>
          previous.Destroy();
        case Nothing =>
      }
      if run.RuntimeFault? {
        return DrawFailed(run.message);
      }
      match run.value {
        case NewChart =>
          var c := new ChartHandle();
          latestChart := Chart(c);
          charts := charts + {c};
        case Falsy =>
          latestChart := Nothing;
        case NotAChart =>
          latestChart := Stuck;
      }
      outcome := Drawn;
    }
  }

  /** Under `Valid`, at most one chart is live at a time. */
  lemma AtMostOneLiveChart(s: Session, a: ChartHandle, b: ChartHandle)
    requires s.Valid()
    requires a in s.charts && b in s.charts && !a.destroyed && !b.destroyed
    ensures a == b
  {
  }
}
