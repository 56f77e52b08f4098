/** String helpers: substring search, joining, case-insensitive suffixes, character counts. */
module Text {
  import opened Wrappers

  /** `pat` occurs in `s` starting at index `i`. */
  predicate OccursAt(s: string, pat: string, i: nat) {
    i + |pat| <= |s| && s[i..i + |pat|] == pat
  }

  /** Index of the first occurrence of `pat` in `s` at or after `from` (JavaScript `indexOf`). */
  function FindFrom(s: string, pat: string, from: nat): Option<nat>
    decreases |s| - from
  {
    if from + |pat| > |s| then None
    else if OccursAt(s, pat, from) then Some(from)
    else FindFrom(s, pat, from + 1)
  }

  /** `FindFrom` returns an occurrence, and no occurrence lies between `from` and it (or anywhere after `from` when it returns none). */
  lemma {:induction false} FindFromSpec(s: string, pat: string, from: nat)
    ensures FindFrom(s, pat, from).Some? ==> from <= FindFrom(s, pat, from).value && OccursAt(s, pat, FindFrom(s, pat, from).value)
    ensures forall j :: from <= j && (FindFrom(s, pat, from).None? || j < FindFrom(s, pat, from).value) ==> !OccursAt(s, pat, j)
    decreases |s| - from
  {
    if from + |pat| <= |s| && !OccursAt(s, pat, from) {
      FindFromSpec(s, pat, from + 1);
    }
  }

  /** The first occurrence at or after `from` is the one at `k` when none lies in between. */
  lemma FindFromIs(s: string, pat: string, from: nat, k: nat)
    requires from <= k && OccursAt(s, pat, k)
    requires forall j :: from <= j < k ==> !OccursAt(s, pat, j)
    ensures FindFrom(s, pat, from) == Some(k)
  {
    FindFromSpec(s, pat, from);
  }

  /**
   * The search from `from` finds the occurrence at `start` when the `k`-th
   * character of `pat` appears nowhere it would have to for an earlier start.
   */
  lemma FindAt(s: string, pat: string, from: nat, start: nat, k: nat)
    requires from <= start && OccursAt(s, pat, start) && k < |pat|
    requires forall i :: from + k <= i < start + k ==> s[i] != pat[k]
    ensures FindFrom(s, pat, from) == Some(start)
  {
    forall j | from <= j < start ensures !OccursAt(s, pat, j) {
      if j + |pat| <= |s| {
        assert s[j..j + |pat|][k] == s[j + k];
      }
    }
    FindFromIs(s, pat, from, start);
  }

  /** `items.join(sep)`. */
  function Join(sep: string, items: seq<string>): string
    decreases |items|
  {
    if |items| == 0 then ""
    else if |items| == 1 then items[0]
    else items[0] + sep + Join(sep, items[1..])
  }

  function Count(c: char, s: string): nat {
    if s == [] then 0 else (if s[0] == c then 1 else 0) + Count(c, s[1..])
  }

  lemma {:induction false} CountConcat(c: char, a: string, b: string)
    ensures Count(c, a + b) == Count(c, a) + Count(c, b)
  {
    if a == [] {
      assert a + b == b;
    } else {
      assert (a + b)[1..] == a[1..] + b;
      CountConcat(c, a[1..], b);
    }
  }

  /** The number of `c` in a join is the separators' share plus each item's. */
  lemma {:induction false} CountJoin(c: char, sep: string, items: seq<string>)
    requires Count(c, sep) == 0
    requires forall i :: 0 <= i < |items| ==> Count(c, items[i]) == 1
    ensures Count(c, Join(sep, items)) == |items|
    decreases |items|
  {
    if |items| > 1 {
      CountJoin(c, sep, items[1..]);
      CountConcat(c, items[0], sep);
      CountConcat(c, items[0] + sep, Join(sep, items[1..]));
    }
  }

  /** ASCII lower-casing, which is what a JavaScript `/i` regex does for ASCII patterns. */
  function LowerChar(c: char): char {
    if 'A' <= c <= 'Z' then (c as int + 32) as char else c
  }

  function Lower(s: string): (r: string)
  {
    seq(|s|, i requires 0 <= i < |s| => LowerChar(s[i]))
  }

  /** `s` ends with the lower-case `suffix`, ignoring ASCII case (`/suffix$/i`). */
  predicate EndsWithCI(s: string, suffix: string) {
    |suffix| <= |s| && Lower(s[|s| - |suffix|..]) == suffix
  }

  /** A name that ends with `suffix` (case-insensitively) ends with `suffix`'s last character. */
  lemma EndsWithLastChar(s: string, suffix: string)
    requires EndsWithCI(s, suffix) && |suffix| > 0
    ensures LowerChar(s[|s| - 1]) == suffix[|suffix| - 1]
  {
    assert Lower(s[|s| - |suffix|..])[|suffix| - 1] == suffix[|suffix| - 1];
  }
}
