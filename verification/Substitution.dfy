/**
 Environment substitution: a bounded rewriter that replaces the references of a string round
 by round, in place and from right to left, until none is left.
 */
module Substitution {
  import opened Wrappers
  import Strings = Text

  datatype SubstError = NotFound(name: string) | TooManyIterations

  /** What looking a name up gives, in the configuration's variables and in those of the process. */
  datatype Env = Env(config: string -> Option<string>, system: string -> Option<string>)

  type Substituted = Result<string, SubstError>

  const MAX_ITERATIONS := 10

  /** Rewriting rounds that can still end in success: the round that finds nothing counts too. */
  const MAX_ROUNDS := 8

  function GetVariableValue(name: string, env: Env): Option<string> {
    var configured := env.config(name);
    if configured.Some? then configured else env.system(name)
  }

  /** The first position at or after from where s continues with a and then b. */
  function FindPair(s: string, a: char, b: char, from: nat): (r: Option<nat>)
    ensures r.Some? ==> from <= r.value && r.value + 1 < |s|
    decreases |s| - from
  {
    if from + 1 >= |s| then None
    else if s[from] == a && s[from + 1] == b then Some(from)
    else FindPair(s, a, b, from + 1)
  }

  /** The value of a reference body: NAME, NAME:-default or NAME:+alternate, tried in the source's order. */
  function ResolveSpec(spec: string, env: Env): Substituted {
    var dash := FindPair(spec, ':', '-', 0);
    if dash.Some? then
      var value := GetVariableValue(spec[..dash.value], env);
      Ok(if value.Some? && |value.value| > 0 then value.value else spec[dash.value + 2..])
    else
      var plus := FindPair(spec, ':', '+', 0);
      if plus.Some? then
        var value := GetVariableValue(spec[..plus.value], env);
        Ok(if value.Some? && |value.value| > 0 then spec[plus.value + 2..] else "")
      else
        var value := GetVariableValue(spec, env);
        if value.Some? then Ok(value.value) else Err(NotFound(spec))
  }

  predicate NoPair(s: string, a: char, b: char) {
    forall i | 0 <= i < |s| - 1 :: !(s[i] == a && s[i + 1] == b)
  }

  lemma {:induction false} FindPairFirst(s: string, a: char, b: char, from: nat, at: nat)
    requires from <= at && at + 1 < |s| && s[at] == a && s[at + 1] == b
    requires forall i | from <= i < at :: !(s[i] == a && s[i + 1] == b)
    ensures FindPair(s, a, b, from) == Some(at)
    decreases at - from
  {
    if from >= at {
    } else {
      FindPairFirst(s, a, b, from + 1, at);
    }
  }

  lemma {:induction false} FindPairNone(s: string, a: char, b: char, from: nat)
    requires NoPair(s, a, b)
    ensures FindPair(s, a, b, from).None?
    decreases |s| - from
  {
    if from + 1 < |s| {
      FindPairNone(s, a, b, from + 1);
    }
  }

  /** NAME:-default: the default stands in for a variable that is unset or empty. The first ":-" divides. */
  lemma ResolveDefault(name: string, fallback: string, env: Env)
    requires NoPair(name, ':', '-')
    ensures var value := if env.config(name).Some? then env.config(name) else env.system(name);
            ResolveSpec(name + ":-" + fallback, env) ==
            Ok(if value.None? || value.value == "" then fallback else value.value)
  {
    var spec := name + ":-" + fallback;
    assert spec[|name|] == ':' && spec[|name| + 1] == '-';
    FindPairFirst(spec, ':', '-', 0, |name|);
    assert spec[..|name|] == name && spec[|name| + 2..] == fallback;
  }

  /** NAME:+alternate: the alternate replaces a variable that is set and not empty. */
  lemma ResolveAlternate(name: string, alternate: string, env: Env)
    requires NoPair(name, ':', '+') && NoPair(name, ':', '-') && NoPair(alternate, ':', '-')
    ensures var value := if env.config(name).Some? then env.config(name) else env.system(name);
            ResolveSpec(name + ":+" + alternate, env) ==
            Ok(if value.None? || value.value == "" then "" else alternate)
  {
    var spec := name + ":+" + alternate;
    assert spec[|name|] == ':' && spec[|name| + 1] == '+';
    forall i | 0 <= i < |spec| - 1 ensures !(spec[i] == ':' && spec[i + 1] == '-') {
      if i > |name| + 1 {
        assert spec[i] == alternate[i - |name| - 2] && spec[i + 1] == alternate[i - |name| - 1];
      }
    }
    FindPairNone(spec, ':', '-', 0);
    FindPairFirst(spec, ':', '+', 0, |name|);
    assert spec[..|name|] == name && spec[|name| + 2..] == alternate;
  }

  // ----- references -----

  /** The end of the reference starting at i: "${", then at least one character, then the first '}'. */
  function MatchEnd(s: string, i: nat): (r: Option<nat>)
    ensures r.Some? ==> i + 3 < r.value <= |s|
  {
    if i + 2 < |s| && s[i] == '$' && s[i + 1] == '{' && s[i + 2] != '}' then
      var close := Strings.Find(s, '}', i + 3);
      if close.Some? then Some(close.value + 1) else None
    else None
  }

  /** A reference is "${", at least one character that is not '}', and a '}'. */
  lemma MatchEndIff(s: string, i: nat, end: nat)
    ensures MatchEnd(s, i) == Some(end) <==>
            i + 3 < end <= |s| && s[i..i + 2] == "${" && '}' !in s[i + 2..end - 1] && s[end - 1] == '}'
  {
    if i + 3 < end <= |s| && s[i..i + 2] == "${" && '}' !in s[i + 2..end - 1] && s[end - 1] == '}' {
      forall k | i + 2 <= k < end - 1 ensures s[k] != '}' {
        assert s[i + 2..end - 1][k - i - 2] == s[k];
      }
      assert s[i..i + 2][0] == s[i] && s[i..i + 2][1] == s[i + 1];
      Strings.FindIs(s, '}', i + 3, end - 1);
    }
  }

  datatype Span = Span(start: nat, end: nat)

  /** Spans of at least four characters, left to right, between from and limit. */
  predicate Ordered(ms: seq<Span>, from: nat, limit: nat) {
    ms == [] ||
    (from <= ms[0].start && ms[0].start + 3 < ms[0].end <= limit && Ordered(ms[1..], ms[0].end, limit))
  }

  /** The leftmost references that do not overlap, in order. */
  function Matches(s: string, from: nat): (ms: seq<Span>)
    ensures Ordered(ms, from, |s|)
    decreases |s| - from
  {
    if from >= |s| then []
    else
      var end := MatchEnd(s, from);
      if end.Some? then [Span(from, end.value)] + Matches(s, end.value)
      else Matches(s, from + 1)
  }

  /** The spans are references, and every reference of s begins in one of them: none is skipped. */
  lemma {:induction false} MatchesCover(s: string, from: nat)
    ensures forall m | m in Matches(s, from) :: MatchEnd(s, m.start) == Some(m.end)
    ensures forall i | from <= i < |s| && MatchEnd(s, i).Some? ::
              exists m :: m in Matches(s, from) && m.start <= i < m.end
    decreases |s| - from
  {
    if from >= |s| {
    } else if MatchEnd(s, from).Some? {
      var first, rest := Span(from, MatchEnd(s, from).value), Matches(s, MatchEnd(s, from).value);
      assert Matches(s, from) == [first] + rest;
      MatchesCover(s, first.end);
      forall i | from <= i < |s| && MatchEnd(s, i).Some?
        ensures exists m :: m in Matches(s, from) && m.start <= i < m.end
      {
        if i < first.end {
          assert first in Matches(s, from);
        } else {
          var m :| m in rest && m.start <= i < m.end;
          assert m in Matches(s, from);
        }
      }
    } else {
      MatchesCover(s, from + 1);
    }
  }

  predicate NoMatch(s: string) {
    forall i | 0 <= i < |s| :: MatchEnd(s, i).None?
  }

  lemma {:induction false} MatchesNone(s: string, from: nat)
    ensures Matches(s, from) == [] <==> forall i | from <= i < |s| :: MatchEnd(s, i).None?
    decreases |s| - from
  {
    if from >= |s| {
    } else {
      if MatchEnd(s, from).None? {
        MatchesNone(s, from + 1);
      } else {
        assert exists i :: from <= i < |s| && MatchEnd(s, i).Some?;
      }
    }
  }

  // ----- one round, as a left-to-right rewriting -----

  /** First the value, then the rest. When both fail it is the rest, on the right, that is reported. */
  function Then(value: Substituted, rest: Substituted): Substituted {
    if rest.Err? then rest else if value.Err? then value else Ok(value.value + rest.value)
  }

  lemma ThenAssoc(a: string, b: string, rest: Substituted)
    ensures Then(Ok(a + b), rest) == Then(Ok(a), Then(Ok(b), rest))
  {
    if rest.Ok? {
      assert a + b + rest.value == a + (b + rest.value);
    }
  }

  lemma ThenNothing(rest: Substituted)
    ensures Then(Ok(""), rest) == rest
  {
    if rest.Ok? {
      assert "" + rest.value == rest.value;
    }
  }

  /** Rewrites every reference simultaneously. */
  function Rewrite(s: string, env: Env): Substituted
    decreases |s|
  {
    if s == "" then Ok("")
    else
      var end := MatchEnd(s, 0);
      if end.Some? then Then(ResolveSpec(s[2..end.value - 1], env), Rewrite(s[end.value..], env))
      else Then(Ok(s[..1]), Rewrite(s[1..], env))
  }

  /** The literal gaps after from joined with the resolved references ms, in order. */
  function Joined(s: string, ms: seq<Span>, from: nat, env: Env): Substituted
    requires from <= |s| && Ordered(ms, from, |s|)
  {
    if ms == [] then Ok(s[from..])
    else
      Then(Ok(s[from..ms[0].start]),
           Then(ResolveSpec(s[ms[0].start + 2..ms[0].end - 1], env), Joined(s, ms[1..], ms[0].end, env)))
  }

  lemma MatchEndShift(s: string, k: nat)
    requires k <= |s|
    ensures var r := MatchEnd(s, k);
            MatchEnd(s[k..], 0) == if r.Some? then Some(r.value - k) else None
  {
    Strings.FindShift(s, '}', k, 3);
  }

  /** Text before the first reference can be moved across the join. */
  lemma JoinedEarlier(s: string, ms: seq<Span>, from: nat, later: nat, env: Env)
    requires from <= later <= |s| && Ordered(ms, later, |s|)
    ensures Ordered(ms, from, |s|)
    ensures Joined(s, ms, from, env) == Then(Ok(s[from..later]), Joined(s, ms, later, env))
  {
    if ms == [] {
      assert s[from..] == s[from..later] + s[later..];
    } else {
      assert s[from..ms[0].start] == s[from..later] + s[later..ms[0].start];
      ThenAssoc(s[from..later], s[later..ms[0].start],
                Then(ResolveSpec(s[ms[0].start + 2..ms[0].end - 1], env), Joined(s, ms[1..], ms[0].end, env)));
    }
  }

  lemma Slices(s: string, from: nat, end: nat)
    requires from + 3 < end <= |s|
    ensures s[from..][end - from..] == s[end..]
    ensures s[from..][2..end - from - 1] == s[from + 2..end - 1]
  {
  }

  lemma RewriteMatched(s: string, end: nat, env: Env)
    requires MatchEnd(s, 0) == Some(end)
    ensures Rewrite(s, env) == Then(ResolveSpec(s[2..end - 1], env), Rewrite(s[end..], env))
  {
  }

  lemma RewriteUnmatched(s: string, env: Env)
    requires s != "" && MatchEnd(s, 0).None?
    ensures Rewrite(s, env) == Then(Ok(s[..1]), Rewrite(s[1..], env))
  {
  }

  lemma RewriteParts(s: string, end: nat, body: string, rest: string, env: Env)
    requires MatchEnd(s, 0) == Some(end) && s[2..end - 1] == body && s[end..] == rest
    ensures Rewrite(s, env) == Then(ResolveSpec(body, env), Rewrite(rest, env))
  {
    RewriteMatched(s, end, env);
  }

  /** Rewriting a string that starts with a reference, in terms of positions of s. */
  lemma RewriteAtMatch(s: string, from: nat, end: nat, env: Env)
    requires from < |s| && MatchEnd(s, from) == Some(end)
    ensures Rewrite(s[from..], env) == Then(ResolveSpec(s[from + 2..end - 1], env), Rewrite(s[end..], env))
  {
    MatchEndShift(s, from);
    Slices(s, from, end);
    RewriteParts(s[from..], end - from, s[from + 2..end - 1], s[end..], env);
  }

  lemma RewriteAtGap(s: string, from: nat, env: Env)
    requires from < |s| && MatchEnd(s, from).None?
    ensures Rewrite(s[from..], env) == Then(Ok(s[from..from + 1]), Rewrite(s[from + 1..], env))
  {
    MatchEndShift(s, from);
    RewriteUnmatched(s[from..], env);
    assert s[from..][1..] == s[from + 1..];
    assert s[from..][..1] == s[from..from + 1];
  }

  lemma JoinedAtMatch(s: string, ms: seq<Span>, from: nat, env: Env)
    requires ms != [] && Ordered(ms, from, |s|) && ms[0].start == from
    ensures Joined(s, ms, from, env) ==
            Then(ResolveSpec(s[from + 2..ms[0].end - 1], env), Joined(s, ms[1..], ms[0].end, env))
  {
    assert s[from..from] == "";
    ThenNothing(Then(ResolveSpec(s[from + 2..ms[0].end - 1], env), Joined(s, ms[1..], ms[0].end, env)));
  }

  lemma MatchesAtMatch(s: string, from: nat, end: nat)
    requires from < |s| && MatchEnd(s, from) == Some(end)
    ensures Matches(s, from) == [Span(from, end)] + Matches(s, end)
  {
  }

  lemma MatchesAtGap(s: string, from: nat)
    requires from < |s| && MatchEnd(s, from).None?
    ensures Matches(s, from) == Matches(s, from + 1)
  {
  }

  lemma OrderedCons(m: Span, ms: seq<Span>, from: nat, limit: nat)
    requires from <= m.start && m.start + 3 < m.end <= limit && Ordered(ms, m.end, limit)
    ensures ([m] + ms)[1..] == ms && Ordered([m] + ms, from, limit)
  {
    assert ([m] + ms)[1..] == ms;
  }

  lemma JoinedFrom(s: string, from: nat, end: nat, ms: seq<Span>, env: Env)
    requires from + 3 < end <= |s| && Ordered(ms, end, |s|)
    ensures Ordered([Span(from, end)] + ms, from, |s|)
    ensures Joined(s, [Span(from, end)] + ms, from, env) ==
            Then(ResolveSpec(s[from + 2..end - 1], env), Joined(s, ms, end, env))
  {
    OrderedCons(Span(from, end), ms, from, |s|);
    JoinedAtMatch(s, [Span(from, end)] + ms, from, env);
  }

  /** Rewriting is joining the gaps with the resolved references. */
  lemma {:induction false} RewriteIsJoined(s: string, from: nat, env: Env)
    requires from <= |s|
    ensures Rewrite(s[from..], env) == Joined(s, Matches(s, from), from, env)
    decreases |s| - from
  {
    if from == |s| {
      assert s[from..] == "";
    } else if MatchEnd(s, from).Some? {
      var end := MatchEnd(s, from).value;
      RewriteIsJoined(s, end, env);
      RewriteAtMatch(s, from, end, env);
      MatchesAtMatch(s, from, end);
      JoinedFrom(s, from, end, Matches(s, end), env);
    } else {
      RewriteIsJoined(s, from + 1, env);
      RewriteAtGap(s, from, env);
      MatchesAtGap(s, from);
      JoinedEarlier(s, Matches(s, from + 1), from, from + 1, env);
    }
  }

  lemma {:induction false} RewriteWithoutMatch(s: string, env: Env)
    requires NoMatch(s)
    ensures Rewrite(s, env) == Ok(s)
  {
    MatchesNone(s, 0);
    RewriteIsJoined(s, 0, env);
    assert s[0..] == s;
  }

  // ----- one round, in place -----

  lemma {:induction false} OrderedAt(ms: seq<Span>, from: nat, limit: nat, k: nat)
    requires Ordered(ms, from, limit) && k < |ms| && from <= limit
    ensures from <= ms[k].start && ms[k].start + 3 < ms[k].end <= limit
    ensures Ordered(ms[k..], from, limit) && Ordered(ms[k..], ms[k].start, limit)
    ensures Ordered(ms[k + 1..], ms[k].end, limit)
    decreases k
  {
    if k > 0 {
      OrderedAt(ms[1..], ms[0].end, limit, k - 1);
      assert ms[1..][k - 1..] == ms[k..];
      assert ms[1..][k..] == ms[k + 1..];
    } else {
      assert ms[0..] == ms;
    }
  }

  /** Replacing the k-th reference turns the join of the later ones into the join from the k-th on. */
  lemma JoinedStep(s: string, ms: seq<Span>, k: nat, p: nat, env: Env)
    requires Ordered(ms, 0, |s|) && k < |ms|
    requires p == if k + 1 < |ms| then ms[k + 1].start else |s|
    ensures ms[k].start + 3 < ms[k].end <= p <= |s|
    ensures Ordered(ms[k + 1..], p, |s|) && Ordered(ms[k..], ms[k].start, |s|)
    ensures Joined(s, ms[k..], ms[k].start, env) ==
            Then(ResolveSpec(s[ms[k].start + 2..ms[k].end - 1], env),
                 Then(Ok(s[ms[k].end..p]), Joined(s, ms[k + 1..], p, env)))
  {
    OrderedAt(ms, 0, |s|, k);
    if k + 1 < |ms| {
      assert ms[k + 1..][0] == ms[k + 1];
    }
    JoinedEarlier(s, ms[k + 1..], ms[k].end, p, env);
    assert ms[k..][1..] == ms[k + 1..];
    JoinedAtMatch(s, ms[k..], ms[k].start, env);
  }

  lemma ErrorPersists(s: string, ms: seq<Span>, k: nat, env: Env)
    requires Ordered(ms, 0, |s|) && k < |ms|
    requires Ordered(ms[k..], ms[k].start, |s|)
    requires Joined(s, ms[k..], ms[k].start, env).Err?
    ensures Joined(s, ms, 0, env) == Joined(s, ms[k..], ms[k].start, env)
    decreases k
  {
    OrderedAt(ms, 0, |s|, k);
    if k > 0 {
      var p := ms[k].start;
      JoinedStep(s, ms, k - 1, p, env);
      ErrorPersists(s, ms, k - 1, env);
    } else {
      assert ms[0..] == ms;
      JoinedEarlier(s, ms, 0, ms[0].start, env);
    }
  }

  /**
   The string once the references from the k-th on, the first of them at p, are replaced:
   untouched up to p, then the join of what follows.
   */
  ghost predicate Replaced(
    s: string, ms: seq<Span>, k: nat, p: nat, tail: string, result: string, env: Env)
  {
    && k <= |ms|
    && p == (if k < |ms| then ms[k].start else |s|)
    && p <= |s|
    && Ordered(ms[k..], p, |s|)
    && Joined(s, ms[k..], p, env) == Ok(tail)
    && result == s[..p] + tail
  }

  lemma NothingReplaced(s: string, ms: seq<Span>, env: Env)
    ensures Replaced(s, ms, |ms|, |s|, "", s, env)
  {
    assert ms[|ms|..] == [];
    assert s[|s|..] == "";
    assert s == s[..|s|] + "";
  }

  lemma SpliceAssoc(a: string, b: string, c: string)
    ensures a + b + c == a + (b + c)
  {
  }

  lemma SpliceBounds(s: string, p: nat, tail: string, start: nat, end: nat)
    requires start <= end <= p <= |s|
    ensures var result := s[..p] + tail;
            && p <= |result|
            && result[..start] == s[..start]
            && result[end..] == s[end..p] + tail
  {
  }

  /** One more replacement, with an offset computed before any other replacement was made. */
  lemma ReplacedOneMore(
    s: string, ms: seq<Span>, k: nat, p: nat, tail: string, result: string, value: string, env: Env)
    returns (next: string)
    requires Ordered(ms, 0, |s|) && k < |ms| && Replaced(s, ms, k + 1, p, tail, result, env)
    requires ms[k].start + 3 < ms[k].end <= |s| && ms[k].end <= |result|
    requires ResolveSpec(s[ms[k].start + 2..ms[k].end - 1], env) == Ok(value)
    ensures Replaced(s, ms, k, ms[k].start, next, result[..ms[k].start] + value + result[ms[k].end..], env)
  {
    var start, end := ms[k].start, ms[k].end;
    JoinedStep(s, ms, k, p, env);
    SpliceBounds(s, p, tail, start, end);
    next := value + (s[end..p] + tail);
    SpliceAssoc(s[..start], value, s[end..p] + tail);
  }

  lemma ReplacementFails(s: string, ms: seq<Span>, k: nat, p: nat, tail: string, result: string, env: Env)
    requires Ordered(ms, 0, |s|) && k < |ms| && Replaced(s, ms, k + 1, p, tail, result, env)
    requires ms[k].start + 3 < ms[k].end <= |s|
    requires ResolveSpec(s[ms[k].start + 2..ms[k].end - 1], env).Err?
    ensures Joined(s, ms, 0, env) == ResolveSpec(s[ms[k].start + 2..ms[k].end - 1], env)
  {
    JoinedStep(s, ms, k, p, env);
    ErrorPersists(s, ms, k, env);
  }

  /** Replacing whole spans never touches text to their left, so offsets taken beforehand stay good. */
  lemma OffsetsStayGood(s: string, ms: seq<Span>, k: nat, p: nat, tail: string, result: string, env: Env)
    requires Ordered(ms, 0, |s|) && k < |ms| && Replaced(s, ms, k + 1, p, tail, result, env)
    ensures ms[k].start + 3 < ms[k].end <= p <= |s| && p <= |result|
  {
    JoinedStep(s, ms, k, p, env);
  }

  lemma AllReplaced(s: string, ms: seq<Span>, p: nat, tail: string, result: string, env: Env)
    requires Ordered(ms, 0, |s|) && Replaced(s, ms, 0, p, tail, result, env)
    ensures Joined(s, ms, 0, env) == Ok(result)
  {
    assert ms[0..] == ms;
    JoinedEarlier(s, ms, 0, p, env);
    assert s[0..p] == s[..p];
  }

  lemma RoundIsJoined(s: string, ms: seq<Span>, env: Env)
    requires ms == Matches(s, 0)
    ensures Ordered(ms, 0, |s|) && Joined(s, ms, 0, env) == Rewrite(s, env)
    ensures ms == [] <==> NoMatch(s)
  {
    MatchesNone(s, 0);
    RewriteIsJoined(s, 0, env);
    assert s[0..] == s;
  }

  /** Replaces the spans ms of s in place, from the right, with the offsets they have in s. */
  method ReplaceFromRight(s: string, ms: seq<Span>, env: Env) returns (r: Substituted, changed: bool)
    requires Ordered(ms, 0, |s|)
    ensures r == Joined(s, ms, 0, env)
    ensures r.Ok? ==> (changed <==> ms != [])
    ensures r.Err? ==> ms != []
  {
    var result := s;
    changed := false;
    var k := |ms|;
    ghost var p: nat := |s|;
    ghost var tail := "";
    NothingReplaced(s, ms, env);
    while k > 0
      invariant 0 <= k <= |ms|
      invariant Replaced(s, ms, k, p, tail, result, env)
      invariant changed <==> k < |ms|
    {
      k := k - 1;
      OffsetsStayGood(s, ms, k, p, tail, result, env);
      var start, end := ms[k].start, ms[k].end;
      var value := ResolveSpec(s[start + 2..end - 1], env);
      if value.Err? {
        ReplacementFails(s, ms, k, p, tail, result, env);
        return value, changed;
      }
      ghost var next := ReplacedOneMore(s, ms, k, p, tail, result, value.value, env);
      result := result[..start] + value.value + result[end..];
      p, tail := start, next;
      changed := true;
    }
    AllReplaced(s, ms, p, tail, result, env);
    return Ok(result), changed;
  }

  /** One round: all references are located first, then replaced. */
  method RewriteInPlace(s: string, env: Env) returns (r: Substituted, changed: bool)
    ensures r == Rewrite(s, env)
    ensures r.Ok? ==> (changed <==> !NoMatch(s))
    ensures r.Err? ==> !NoMatch(s)
  {
    RoundIsJoined(s, Matches(s, 0), env);
    r, changed := ReplaceFromRight(s, Matches(s, 0), env);
  }

  // ----- the whole substitution -----

  /** The substitution of s after used rounds, each of which changed the string. */
  function SubstituteFrom(s: string, used: nat, env: Env): Substituted
    requires used <= MAX_ITERATIONS
    decreases MAX_ITERATIONS - used, s
  {
    if used == MAX_ITERATIONS then Err(TooManyIterations)
    else if NoMatch(s) then
      if used + 1 >= MAX_ITERATIONS then Err(TooManyIterations) else Ok(s)
    else
      var next := Rewrite(s, env);
      if next.Err? then next else SubstituteFrom(next.value, used + 1, env)
  }

  /** What is still to come of s after used rounds, the last of which changed it or not. */
  function Outcome(s: string, used: nat, changed: bool, env: Env): Substituted
    requires used <= MAX_ITERATIONS
  {
    if changed then SubstituteFrom(s, used, env)
    else if used >= MAX_ITERATIONS then Err(TooManyIterations)
    else Ok(s)
  }

  lemma RoundOf(s: string, used: nat, next: Substituted, changed: bool, env: Env)
    requires used < MAX_ITERATIONS && next == Rewrite(s, env)
    requires next.Ok? ==> (changed <==> !NoMatch(s))
    requires next.Err? ==> !NoMatch(s)
    ensures Outcome(s, used, true, env) ==
            if next.Err? then next else Outcome(next.value, used + 1, changed, env)
  {
    if NoMatch(s) {
      RewriteWithoutMatch(s, env);
    }
  }

  method SubstituteEnvVars(input: string, env: Env) returns (r: Substituted)
    ensures r == SubstituteFrom(input, 0, env)
  {
    var result := input;
    var changed := true;
    var iterations := 0;
    ghost var outcome := Outcome(input, 0, true, env);
    while changed && iterations < MAX_ITERATIONS
      invariant 0 <= iterations <= MAX_ITERATIONS
      invariant Outcome(result, iterations, changed, env) == outcome
      decreases MAX_ITERATIONS - iterations, changed
    {
      var next, rewritten := RewriteInPlace(result, env);
      RoundOf(result, iterations, next, rewritten, env);
      if next.Err? {
        return Err(next.error);
      }
      result, changed := next.value, rewritten;
      iterations := iterations + 1;
    }
    if iterations >= MAX_ITERATIONS {
      return Err(TooManyIterations);
    }
    return Ok(result);
  }

  /** n rounds of rewriting, stopping at the first error. */
  function Rounds(s: string, n: nat, env: Env): Substituted
    decreases n, s
  {
    if n == 0 then Ok(s)
    else
      var next := Rewrite(s, env);
      if next.Err? then next else Rounds(next.value, n - 1, env)
  }

  lemma {:induction false} RoundsWithoutMatch(s: string, n: nat, env: Env)
    requires NoMatch(s)
    ensures Rounds(s, n, env) == Ok(s)
    decreases n
  {
    if n == 0 {
    } else {
      RewriteWithoutMatch(s, env);
      RoundsWithoutMatch(s, n - 1, env);
    }
  }

  /** A ninth changing round is one too many, whatever it leads to. */
  lemma TooLate(s: string, env: Env)
    ensures SubstituteFrom(s, 9, env).Err?
  {
    if !NoMatch(s) {
      var next := Rewrite(s, env);
      assert next.Ok? ==> SubstituteFrom(next.value, MAX_ITERATIONS, env).Err?;
    }
  }

  lemma {:induction false} SubstituteFromIff(s: string, used: nat, env: Env, r: string)
    requires used <= MAX_ROUNDS
    ensures SubstituteFrom(s, used, env) == Ok(r) <==>
            Rounds(s, MAX_ROUNDS - used, env) == Ok(r) && NoMatch(r)
    decreases MAX_ROUNDS - used
  {
    if NoMatch(s) {
      RoundsWithoutMatch(s, MAX_ROUNDS - used, env);
    } else {
      var next := Rewrite(s, env);
      if next.Ok? {
        if used < MAX_ROUNDS {
          SubstituteFromIff(next.value, used + 1, env, r);
        } else {
          TooLate(next.value, env);
        }
      }
    }
  }

  /** Success means: eight rounds of rewriting, none of them failing, leave no reference. */
  lemma SubstituteIff(s: string, env: Env, r: string)
    ensures SubstituteFrom(s, 0, env) == Ok(r) <==> Rounds(s, 8, env) == Ok(r) && NoMatch(r)
  {
    SubstituteFromIff(s, 0, env, r);
  }

  /** The result holds no reference, and substituting it again changes nothing. */
  lemma SubstituteIdempotent(s: string, env: Env, env': Env)
    requires SubstituteFrom(s, 0, env).Ok?
    ensures var r := SubstituteFrom(s, 0, env).value;
            NoMatch(r) && SubstituteFrom(r, 0, env') == Ok(r)
  {
    SubstituteIff(s, env, SubstituteFrom(s, 0, env).value);
  }

  // ----- errors -----

  /** The body of a reference. */
  function Body(s: string, m: Span): string
    requires m.start + 3 < m.end <= |s|
  {
    s[m.start + 2..m.end - 1]
  }

  /** The k-th reference fails with e, and none to its right fails. */
  ghost predicate LastFailure(s: string, ms: seq<Span>, k: nat, env: Env, e: SubstError)
    requires forall m | m in ms :: m.start + 3 < m.end <= |s|
    requires k < |ms|
  {
    && ResolveSpec(Body(s, ms[k]), env) == Err(e)
    && forall j | k < j < |ms| :: ResolveSpec(Body(s, ms[j]), env).Ok?
  }

  lemma {:induction false} NoneFails(s: string, ms: seq<Span>, from: nat, env: Env)
    requires from <= |s| && Ordered(ms, from, |s|)
    requires forall m | m in ms :: m.start + 3 < m.end <= |s|
    requires forall j | 0 <= j < |ms| :: ResolveSpec(Body(s, ms[j]), env).Ok?
    ensures Joined(s, ms, from, env).Ok?
    decreases |ms|
  {
    if ms == [] {
    } else {
      NoneFails(s, ms[1..], ms[0].end, env);
      assert ResolveSpec(Body(s, ms[0]), env).Ok?;
    }
  }

  lemma {:induction false} AllResolve(s: string, ms: seq<Span>, from: nat, env: Env)
    requires from <= |s| && Ordered(ms, from, |s|)
    requires forall m | m in ms :: m.start + 3 < m.end <= |s|
    requires Joined(s, ms, from, env).Ok?
    ensures forall j | 0 <= j < |ms| :: ResolveSpec(Body(s, ms[j]), env).Ok?
    decreases |ms|
  {
    if ms == [] {
    } else {
      AllResolve(s, ms[1..], ms[0].end, env);
      forall j | 0 <= j < |ms| ensures ResolveSpec(Body(s, ms[j]), env).Ok? {
        if j > 0 {
          assert ms[j] == ms[1..][j - 1];
        }
      }
    }
  }

  lemma {:induction false} FailureJoined(s: string, ms: seq<Span>, from: nat, k: nat, env: Env, e: SubstError)
    requires from <= |s| && Ordered(ms, from, |s|)
    requires forall m | m in ms :: m.start + 3 < m.end <= |s|
    requires k < |ms| && LastFailure(s, ms, k, env, e)
    ensures Joined(s, ms, from, env) == Err(e)
    decreases k
  {
    var rest := ms[1..];
    assert forall j | 0 <= j < |rest| :: rest[j] == ms[j + 1];
    if k == 0 {
      NoneFails(s, rest, ms[0].end, env);
    } else {
      FailureJoined(s, rest, ms[0].end, k - 1, env, e);
    }
  }

  lemma {:induction false} JoinedFails(s: string, ms: seq<Span>, from: nat, env: Env) returns (k: nat)
    requires from <= |s| && Ordered(ms, from, |s|)
    requires forall m | m in ms :: m.start + 3 < m.end <= |s|
    requires Joined(s, ms, from, env).Err?
    ensures k < |ms| && LastFailure(s, ms, k, env, Joined(s, ms, from, env).error)
    decreases |ms|
  {
    var rest := ms[1..];
    assert forall j | 0 <= j < |rest| :: rest[j] == ms[j + 1];
    if Joined(s, rest, ms[0].end, env).Err? {
      k := JoinedFails(s, rest, ms[0].end, env);
      k := k + 1;
    } else {
      AllResolve(s, rest, ms[0].end, env);
      k := 0;
    }
  }

  lemma SpansLongEnough(s: string)
    ensures forall m | m in Matches(s, 0) :: m.start + 3 < m.end <= |s|
  {
    MatchesCover(s, 0);
  }

  /** A round fails with the error of the rightmost reference that fails. */
  lemma RoundErrorIff(s: string, env: Env, e: SubstError)
    ensures forall m | m in Matches(s, 0) :: m.start + 3 < m.end <= |s|
    ensures Rewrite(s, env) == Err(e) <==>
            exists k :: 0 <= k < |Matches(s, 0)| && LastFailure(s, Matches(s, 0), k, env, e)
  {
    SpansLongEnough(s);
    RoundIsJoined(s, Matches(s, 0), env);
    if Joined(s, Matches(s, 0), 0, env).Err? {
      var k := JoinedFails(s, Matches(s, 0), 0, env);
    }
    if k: nat :| k < |Matches(s, 0)| && LastFailure(s, Matches(s, 0), k, env, e) {
      FailureJoined(s, Matches(s, 0), 0, k, env, e);
    }
  }

  lemma {:induction false} UnresolvedFromIff(s: string, used: nat, env: Env, n: string)
    requires used <= 10
    ensures SubstituteFrom(s, used, env) == Err(NotFound(n)) <==> Rounds(s, 10 - used, env) == Err(NotFound(n))
    decreases 10 - used
  {
    if used == 10 {
    } else if NoMatch(s) {
      RoundsWithoutMatch(s, 10 - used, env);
    } else {
      var next := Rewrite(s, env);
      if next.Ok? {
        UnresolvedFromIff(next.value, used + 1, env, n);
      }
    }
  }

  /**
   The two errors: an unresolved name is reported exactly when one of ten rounds fails on it,
   and any other failure is that of too many rounds.
   */
  lemma SubstituteErrors(s: string, env: Env, n: string)
    ensures SubstituteFrom(s, 0, env) == Err(NotFound(n)) <==> Rounds(s, 10, env) == Err(NotFound(n))
    ensures SubstituteFrom(s, 0, env) == Err(TooManyIterations) <==>
            Rounds(s, 10, env).Ok? && !(Rounds(s, 8, env).Ok? && NoMatch(Rounds(s, 8, env).value))
  {
    UnresolvedFromIff(s, 0, env, n);
    if Rounds(s, 10, env).Err? {
      RoundsErrors(s, 10, env);
      UnresolvedFromIff(s, 0, env, Rounds(s, 10, env).error.name);
    } else {
      if SubstituteFrom(s, 0, env).Err? && SubstituteFrom(s, 0, env).error.NotFound? {
        UnresolvedFromIff(s, 0, env, SubstituteFrom(s, 0, env).error.name);
      }
      if SubstituteFrom(s, 0, env).Ok? {
        SubstituteIff(s, env, SubstituteFrom(s, 0, env).value);
      }
      if Rounds(s, 8, env).Ok? {
        SubstituteIff(s, env, Rounds(s, 8, env).value);
      }
    }
  }

  lemma {:induction false} RewriteErrors(s: string, env: Env)
    requires Rewrite(s, env).Err?
    ensures Rewrite(s, env).error.NotFound?
    decreases |s|
  {
    if s == "" {
    } else if MatchEnd(s, 0).Some? {
      if Rewrite(s[MatchEnd(s, 0).value..], env).Err? {
        RewriteErrors(s[MatchEnd(s, 0).value..], env);
      }
    } else if Rewrite(s[1..], env).Err? {
      RewriteErrors(s[1..], env);
    }
  }

  lemma {:induction false} RoundsErrors(s: string, n: nat, env: Env)
    requires Rounds(s, n, env).Err?
    ensures Rounds(s, n, env).error.NotFound?
    decreases n
  {
    if n == 0 {
    } else if Rewrite(s, env).Err? {
      RewriteErrors(s, env);
    } else {
      RoundsErrors(Rewrite(s, env).value, n - 1, env);
    }
  }
}
