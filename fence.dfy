/**
 * Pulling code out of a generated reply. Each regular expression of the
 * source is stated as a reference predicate over match positions, with the
 * regex engine's choice (leftmost start, then the shortest lazy parts), and
 * the index-search implementation is proved to make exactly that choice.
 */
module Fence {
  import opened Wrappers
  import opened Text

  const Ticks := "```"
  const JsOpen := "```js\n"
  const JsClose := "\n```"

  predicate NoBacktick(s: string) {
    forall i :: 0 <= i < |s| ==> s[i] != '`'
  }

  // ---------------------------------------------------------------------------
  // The query: /```.*?\n(.*?)```/s

  /** The query pattern matches with its opening ticks at `p`, the end of the info line at `q` and the closing ticks at `t`. */
  predicate SqlMatchAt(s: string, p: nat, q: nat, t: nat) {
    OccursAt(s, Ticks, p) && p + 3 <= q && OccursAt(s, "\n", q) && q + 1 <= t && OccursAt(s, Ticks, t)
  }

  /** The capture group of the query pattern, when it matches. */
  function SqlFence(s: string): Option<string> {
    match FindFrom(s, Ticks, 0)
    case None => None
    case Some(p) =>
      match FindFrom(s, "\n", p + 3)
      case None => None
      case Some(q) =>
        match FindFrom(s, Ticks, q + 1)
        case None => None
        case Some(t) =>
          FindFromSpec(s, Ticks, q + 1);
          Some(s[q + 1..t])
  }

  /** `match?.[1] ?? reply`: the fenced text, or the whole reply when nothing is fenced. */
  function ExtractSql(reply: string): string {
    SqlFence(reply).GetOr(reply)
  }

  /**
   * `SqlFence` finds a match exactly when the pattern matches somewhere, and
   * then returns the capture of the leftmost, laziest match.
   */
  lemma {:induction false} SqlFenceIsRegexMatch(s: string)
    ensures SqlFence(s).None? <==> forall p, q, t :: !SqlMatchAt(s, p, q, t)
    ensures SqlFence(s).Some? ==>
      exists p: nat, q: nat, t: nat :: SqlMatchAt(s, p, q, t) && SqlFence(s).value == s[q + 1..t] &&
        forall p': nat, q': nat, t': nat :: SqlMatchAt(s, p', q', t') ==>
          p < p' || (p == p' && (q < q' || (q == q' && t <= t')))
  {
    FindFromSpec(s, Ticks, 0);
    match FindFrom(s, Ticks, 0)
    case None =>
    case Some(p) =>
      FindFromSpec(s, "\n", p + 3);
      match FindFrom(s, "\n", p + 3)
      case None =>
        forall p': nat, q': nat | OccursAt(s, Ticks, p') && p' + 3 <= q' ensures !OccursAt(s, "\n", q') {
          assert p <= p';
        }
      case Some(q) =>
        FindFromSpec(s, Ticks, q + 1);
        match FindFrom(s, Ticks, q + 1)
        case None =>
          forall p': nat, q': nat, t': nat | OccursAt(s, Ticks, p') && p' + 3 <= q' && OccursAt(s, "\n", q') && q' + 1 <= t'
            ensures !OccursAt(s, Ticks, t')
          {
            assert p <= p';
            assert q <= q';
          }
        case Some(t) =>
          assert SqlMatchAt(s, p, q, t);
  }

  /** Where each of the three searches stops, given the characters the searches skip over. */
  lemma SqlFenceAt(s: string, p: nat, q: nat, t: nat)
    requires OccursAt(s, Ticks, p) && forall i :: 0 <= i < p ==> s[i] != '`'
    requires p + 3 <= q && OccursAt(s, "\n", q) && forall i :: p + 3 <= i < q ==> s[i] != '\n'
    requires q + 1 <= t && OccursAt(s, Ticks, t) && forall i :: q + 1 <= i < t ==> s[i] != '`'
    ensures SqlFence(s) == Some(s[q + 1..t])
  {
    FindAt(s, Ticks, 0, p, 0);
    FindAt(s, "\n", p + 3, q, 0);
    FindAt(s, Ticks, q + 1, t, 0);
  }

  /** A reply holding one fenced block, with nothing fence-like before it, yields exactly the block. */
  lemma SqlFenceRoundTrip(pre: string, info: string, code: string, post: string)
    requires NoBacktick(pre) && '\n' !in info && NoBacktick(code)
    ensures ExtractSql(pre + Ticks + info + "\n" + code + Ticks + post) == code
  {
    var s := pre + Ticks + info + "\n" + code + Ticks + post;
    var p := |pre|;
    var q := p + 3 + |info|;
    var t := q + 1 + |code|;
    assert s[p..p + 3] == Ticks;
    assert forall i :: 0 <= i < p ==> s[i] == pre[i];
    assert s[q..q + 1] == "\n";
    assert forall i :: p + 3 <= i < q ==> s[i] == info[i - p - 3];
    assert s[t..t + 3] == Ticks;
    assert forall i :: q + 1 <= i < t ==> s[i] == code[i - q - 1];
    assert s[q + 1..t] == code;
    SqlFenceAt(s, p, q, t);
  }

  /** A reply without any fence is taken whole as the query. */
  lemma UnfencedReplyIsQuery(reply: string)
    requires NoBacktick(reply)
    ensures ExtractSql(reply) == reply
  {
    FindFromSpec(reply, Ticks, 0);
    forall j: nat ensures !OccursAt(reply, Ticks, j) {
      if j + 3 <= |reply| {
        assert reply[j] != '`';
        assert reply[j..j + 3][0] == reply[j];
      }
    }
  }

  // ---------------------------------------------------------------------------
  // The chart: /```js\n(.*?)\n```/s

  /** The chart pattern matches with its opening at `p` and its closing newline at `t`. */
  predicate ChartMatchAt(s: string, p: nat, t: nat) {
    OccursAt(s, JsOpen, p) && p + 6 <= t && OccursAt(s, JsClose, t)
  }

  /** The capture group of the chart pattern, when it matches. */
  function ChartCapture(s: string): Option<string> {
    match FindFrom(s, JsOpen, 0)
    case None => None
    case Some(p) =>
      match FindFrom(s, JsClose, p + 6)
      case None => None
      case Some(t) =>
        FindFromSpec(s, JsClose, p + 6);
        Some(s[p + 6..t])
  }

  /** `code` as the draw handler sees it: absent when the pattern does not match or captures nothing (`!code`). */
  function ChartCode(reply: string): (r: Option<string>)
    ensures r.Some? ==> r.value != ""
  {
    match ChartCapture(reply)
    case Some(code) => if code == "" then None else Some(code)
    case None => None
  }

  /** `ChartCapture` returns the capture of the leftmost, laziest match, and nothing when there is none. */
  lemma {:induction false} ChartCaptureIsRegexMatch(s: string)
    ensures ChartCapture(s).None? <==> forall p, t :: !ChartMatchAt(s, p, t)
    ensures ChartCapture(s).Some? ==>
      exists p: nat, t: nat :: ChartMatchAt(s, p, t) && ChartCapture(s).value == s[p + 6..t] &&
        forall p': nat, t': nat :: ChartMatchAt(s, p', t') ==> p < p' || (p == p' && t <= t')
  {
    FindFromSpec(s, JsOpen, 0);
    match FindFrom(s, JsOpen, 0)
    case None =>
    case Some(p) =>
      FindFromSpec(s, JsClose, p + 6);
      match FindFrom(s, JsClose, p + 6)
      case None =>
        forall p': nat, t': nat | OccursAt(s, JsOpen, p') && p' + 6 <= t' ensures !OccursAt(s, JsClose, t') {
          assert p <= p';
        }
      case Some(t) =>
        assert ChartMatchAt(s, p, t);
  }

  /** Where each of the two searches stops, given the characters the searches skip over. */
  lemma ChartCaptureAt(s: string, p: nat, t: nat)
    requires OccursAt(s, JsOpen, p) && forall i :: 0 <= i < p ==> s[i] != '`'
    requires p + 6 <= t && OccursAt(s, JsClose, t) && forall i :: p + 7 <= i < t + 1 ==> s[i] != '`'
    ensures ChartCapture(s) == Some(s[p + 6..t])
  {
    FindAt(s, JsOpen, 0, p, 0);
    FindAt(s, JsClose, p + 6, t, 1);
  }

  /** A reply with one `js` block, and nothing fence-like before it or inside it, yields that block's code. */
  lemma ChartCodeRoundTrip(pre: string, code: string, post: string)
    requires NoBacktick(pre) && NoBacktick(code)
    ensures ChartCode(pre + JsOpen + code + JsClose + post) == if code == "" then None else Some(code)
  {
    var s := pre + JsOpen + code + JsClose + post;
    var p := |pre|;
    var t := p + 6 + |code|;
    assert s[p..p + 6] == JsOpen;
    assert forall i :: 0 <= i < p ==> s[i] == pre[i];
    assert s[t..t + 4] == JsClose;
    assert forall i :: p + 6 <= i < t ==> s[i] == code[i - p - 6];
    assert s[p + 6..t] == code;
    ChartCaptureAt(s, p, t);
  }
}
