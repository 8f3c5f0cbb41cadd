/** The title clean-up of the extractor: the regular expression
    `\[.*?\]\s*` (no flags) applied once with `String.prototype.replace`,
    then `trim`.

    The pattern is not anchored: the engine tries start positions from left
    to right and removes the first match it finds, wherever it is. At a `[`
    the lazy `.*?` stops at the first `]`; since `.` does not match a line
    terminator, a line break before that `]` makes the attempt at this `[`
    fail. The greedy `\s*` then takes the whole run of white space after `]`. */
module BracketPattern {
  import opened Outcomes
  import opened JsString

  /** Positions k .. j-1 hold neither `]` nor a line terminator: `.*?` can
      cross them and has not yet reached a `]`. */
  predicate PlainRun(s: string, k: nat, j: nat)
    requires k <= j <= |s|
  {
    forall m :: k <= m < j ==> s[m] != ']' && !IsLineTerminator(s[m])
  }

  /** The match of the pattern that starts at `i`, closes at the `]` at `j`
      and ends (white space included) just before `e`. This is the regular
      expression's own meaning, with no search order in it. */
  ghost predicate IsMatch(s: string, i: nat, j: nat, e: nat) {
    i < j < e <= |s| && s[i] == '[' && s[j] == ']' && PlainRun(s, i + 1, j)
    && AllSpace(s[j + 1..e]) && (e == |s| || !IsJsSpace(s[e]))
  }

  /** A match that no match starting further left precedes: the one `exec`
      returns. */
  ghost predicate IsLeftmostMatch(s: string, i: nat, j: nat, e: nat) {
    IsMatch(s, i, j, e) && forall q: nat, j': nat, e': nat :: q < i ==> !IsMatch(s, q, j', e')
  }

  ghost predicate NoMatch(s: string) {
    forall i: nat, j: nat, e: nat :: !IsMatch(s, i, j, e)
  }

  /** The lazy `.*?\]` run from index `k`: the first `]` reachable without
      crossing a line terminator, if any. */
  function CloseBracket(s: string, k: nat): (j: Option<nat>)
    requires k <= |s|
    ensures j.Some? ==> k <= j.value < |s| && s[j.value] == ']' && PlainRun(s, k, j.value)
    ensures j.None? ==> forall m :: k <= m < |s| && s[m] == ']' ==> !PlainRun(s, k, m)
    decreases |s| - k
  {
    if k == |s| then None
    else if s[k] == ']' then Some(k)
    else if IsLineTerminator(s[k]) then None
    else CloseBracket(s, k + 1)
  }

  /** The greedy `\s*` from index `k`: the end of the run of white space. */
  function SkipSpaces(s: string, k: nat): (e: nat)
    requires k <= |s|
    ensures k <= e <= |s| && AllSpace(s[k..e]) && (e == |s| || !IsJsSpace(s[e]))
    decreases |s| - k
  {
    if k < |s| && IsJsSpace(s[k]) then
      var e := SkipSpaces(s, k + 1);
      assert s[k..e] == [s[k]] + s[k + 1..e];
      e
    else
      k
  }

  /** Where a match lies: from `start` to `end`, closed by the `]` at `close`. */
  datatype Span = Span(start: nat, close: nat, end: nat)

  /** The leftmost match starting at or after `p`. */
  function FirstMatchFrom(s: string, p: nat): (r: Option<Span>)
    requires p <= |s|
    ensures r.Some? ==> p <= r.value.start < r.value.close < r.value.end <= |s|
    decreases |s| - p
  {
    if p == |s| then None
    else if s[p] == '[' && CloseBracket(s, p + 1).Some? then
      var j := CloseBracket(s, p + 1).value;
      Some(Span(p, j, SkipSpaces(s, j + 1)))
    else
      FirstMatchFrom(s, p + 1)
  }

  /** The search finds the leftmost match at or after `p`, or reports that
      there is none. */
  lemma {:induction false} FirstMatchFromSpec(s: string, p: nat)
    requires p <= |s|
    ensures var r := FirstMatchFrom(s, p);
      (r.Some? ==> IsMatch(s, r.value.start, r.value.close, r.value.end))
      && (r.Some? ==> forall q: nat, j: nat, e: nat :: p <= q < r.value.start ==> !IsMatch(s, q, j, e))
      && (r.None? ==> forall q: nat, j: nat, e: nat :: p <= q ==> !IsMatch(s, q, j, e))
    decreases |s| - p
  {
    if p < |s| && !(s[p] == '[' && CloseBracket(s, p + 1).Some?) {
      FirstMatchFromSpec(s, p + 1);
    }
  }

  /** Two matches at the same start are the same match: the closing `]` and
      the end of the white space are both determined. */
  lemma MatchDetermined(s: string, i: nat, j: nat, e: nat, j': nat, e': nat)
    requires IsMatch(s, i, j, e) && IsMatch(s, i, j', e')
    ensures j == j' && e == e'
  {
    assert j == j';
    assert forall k :: j + 1 <= k < e' ==> IsJsSpace(s[k]) by {
      forall k | j + 1 <= k < e' ensures IsJsSpace(s[k]) { assert s[j + 1..e'][k - j - 1] == s[k]; }
    }
    assert forall k :: j + 1 <= k < e ==> IsJsSpace(s[k]) by {
      forall k | j + 1 <= k < e ensures IsJsSpace(s[k]) { assert s[j + 1..e][k - j - 1] == s[k]; }
    }
  }

  // `replace` with the pattern `\[.*?\]\s*` and an empty replacement.
  function StripFirstBracket(s: string): (r: string)
    ensures |r| <= |s|
  {
    match FirstMatchFrom(s, 0)
    case None => s
    case Some(m) => s[..m.start] + s[m.end..]
  }

  /** What `replace` with this pattern does, stated through the meaning of
      the pattern: text without a match is returned unchanged, otherwise the
      leftmost match (and only it) is cut out. */
  lemma StripFirstBracketSpec(s: string)
    ensures NoMatch(s) ==> StripFirstBracket(s) == s
    ensures forall i: nat, j: nat, e: nat :: IsLeftmostMatch(s, i, j, e) ==> StripFirstBracket(s) == s[..i] + s[e..]
  {
    FirstMatchFromSpec(s, 0);
    match FirstMatchFrom(s, 0)
    case None =>
    case Some(m) =>
      forall i: nat, j: nat, e: nat | IsLeftmostMatch(s, i, j, e)
        ensures StripFirstBracket(s) == s[..i] + s[e..]
      {
        MatchDetermined(s, i, j, e, m.close, m.end);
      }
  }

  /** The title normaliser of the extractor: strip the first bracketed group
      with its trailing white space, then trim. */
  function NormaliseTitle(raw: string): (title: string)
    ensures IsTrimmed(title)
  {
    Trim(StripFirstBracket(raw))
  }

  /** `x` has neither `]` nor a line terminator, so `.*?` crosses all of it. */
  predicate PlainRunOf(x: string) {
    forall m :: 0 <= m < |x| ==> x[m] != ']' && !IsLineTerminator(x[m])
  }

  /** The pattern is not anchored: the first bracketed group goes wherever
      it stands, together with the white space after it, and the text before
      it stays as it is. */
  lemma FirstGroupRemoved(pre: string, x: string, w: string, rest: string)
    requires '[' !in pre && PlainRunOf(x) && AllSpace(w)
    requires rest == [] || !IsJsSpace(rest[0])
    ensures StripFirstBracket(pre + "[" + x + "]" + w + rest) == pre + rest
  {
    var s := pre + "[" + x + "]" + w + rest;
    var i, j, e := |pre|, |pre| + |x| + 1, |pre| + |x| + 2 + |w|;
    assert s[j + 1..e] == w;
    assert PlainRun(s, i + 1, j) by {
      forall m | i + 1 <= m < j ensures s[m] != ']' && !IsLineTerminator(s[m]) {
        assert s[m] == x[m - i - 1];
      }
    }
    assert e == |s| || s[e] == rest[0];
    assert IsMatch(s, i, j, e);
    assert forall q: nat :: q < i ==> s[q] == pre[q];
    assert IsLeftmostMatch(s, i, j, e);
    StripFirstBracketSpec(s);
    assert s[..i] + s[e..] == pre + rest;
  }

  /** A group at the very start, as in a translated-title annotation
      (`[译] Foo` becomes `Foo`), leaves the trimmed rest. */
  lemma LeadingGroupRemoved(x: string, w: string, rest: string)
    requires PlainRunOf(x) && AllSpace(w)
    requires rest == [] || !IsJsSpace(rest[0])
    ensures NormaliseTitle("[" + x + "]" + w + rest) == Trim(rest)
  {
    var s := "[" + x + "]" + w + rest;
    assert StripFirstBracket(s) == rest by {
      FirstGroupRemoved([], x, w, rest);
      assert [] + "[" + x + "]" + w + rest == s;
    }
  }

  /** Text without `[` has no match and is left as it is. */
  lemma NoBracketUnchanged(s: string)
    requires '[' !in s
    ensures StripFirstBracket(s) == s
  {
    assert NoMatch(s) by {
      forall i: nat, j: nat, e: nat ensures !IsMatch(s, i, j, e) {
        assert i < |s| ==> s[i] in s;
      }
    }
    StripFirstBracketSpec(s);
  }

  /** A line break between `[` and the next `]` stops `.*?`: when that is
      the only `[`, nothing is removed. */
  lemma BrokenGroupKept(pre: string, x: string, lt: char, rest: string)
    requires '[' !in pre && '[' !in rest
    requires PlainRunOf(x) && '[' !in x && IsLineTerminator(lt)
    ensures StripFirstBracket(pre + "[" + x + [lt] + rest) == pre + "[" + x + [lt] + rest
  {
    var s := pre + "[" + x + [lt] + rest;
    var i, b := |pre|, |pre| + 1 + |x|;
    assert s[b] == lt;
    assert forall k :: 0 <= k < i ==> s[k] == pre[k];
    assert forall k :: i < k < b ==> s[k] == x[k - i - 1];
    assert forall k :: b < k < |s| ==> s[k] == rest[k - b - 1];
    assert NoMatch(s) by {
      forall q: nat, j: nat, e: nat ensures !IsMatch(s, q, j, e) {
        if q < b < j {
          assert IsLineTerminator(s[b]);
        }
      }
    }
    StripFirstBracketSpec(s);
  }
}
