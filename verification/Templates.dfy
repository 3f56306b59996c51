/**
 Substitution as recursive expansion: on templates built from plain text and references, the
 bounded rewriter computes the full recursive expansion, and succeeds exactly when every
 reachable name resolves within eight levels.
 */
module Templates {
  import opened Wrappers
  import opened Substitution
  import Strings = Text

  datatype Piece = Text(text: string) | Ref(name: string)

  type Template = seq<Piece>

  type Definitions = map<string, Template>

  predicate Plain(s: string) {
    '$' !in s && '{' !in s && '}' !in s
  }

  /** A reference body that is just a name: plain, not empty, without ":-" or ":+". */
  predicate GoodName(n: string) {
    n != "" && Plain(n) && NoPair(n, ':', '-') && NoPair(n, ':', '+')
  }

  predicate WellFormed(t: Template) {
    forall i | 0 <= i < |t| ::
      match t[i]
      case Text(s) => Plain(s)
      case Ref(n) => GoodName(n)
  }

  function RenderPiece(p: Piece): string {
    match p
    case Text(s) => s
    case Ref(n) => "${" + n + "}"
  }

  function Render(t: Template): string {
    if t == [] then "" else RenderPiece(t[0]) + Render(t[1..])
  }

  /** The configuration's variable n, or else that of the process, holds the rendered definition of n. */
  predicate DescribesAt(defs: Definitions, env: Env, n: string) {
    GoodName(n) ==>
      (if env.config(n).Some? then env.config(n) else env.system(n))
      == if n in defs then Some(Render(defs[n])) else None
  }

  /** The environment holds the rendered definitions, under the names that can be referred to. */
  ghost predicate Describes(defs: Definitions, env: Env) {
    && (forall n | n in defs :: WellFormed(defs[n]))
    && (forall n :: DescribesAt(defs, env, n))
  }

  // ----- full recursive expansion -----

  /** Every name reachable from t is defined, at most depth references deep. */
  predicate Nests(t: Template, depth: nat, defs: Definitions)
    decreases depth
  {
    forall i | 0 <= i < |t| && t[i].Ref? ::
      depth > 0 && t[i].name in defs && Nests(defs[t[i].name], depth - 1, defs)
  }

  predicate PieceNests(p: Piece, depth: nat, defs: Definitions) {
    p.Ref? ==> depth > 0 && p.name in defs && Nests(defs[p.name], depth - 1, defs)
  }

  function ExpandPiece(p: Piece, depth: nat, defs: Definitions): string
    requires PieceNests(p, depth, defs)
    decreases depth, 0
  {
    match p
    case Text(s) => s
    case Ref(n) => Expand(defs[n], depth - 1, defs)
  }

  function Expand(t: Template, depth: nat, defs: Definitions): string
    requires Nests(t, depth, defs)
    decreases depth, |t| + 1
  {
    if t == [] then ""
    else
      assert forall i | 0 <= i < |t[1..]| :: t[1..][i] == t[i + 1];
      ExpandPiece(t[0], depth, defs) + Expand(t[1..], depth, defs)
  }

  lemma NestsTail(t: Template, depth: nat, defs: Definitions)
    requires Nests(t, depth, defs) && t != []
    ensures Nests(t[1..], depth, defs)
    ensures t[0].Ref? ==> depth > 0 && t[0].name in defs && Nests(defs[t[0].name], depth - 1, defs)
  {
    assert forall i | 0 <= i < |t[1..]| :: t[1..][i] == t[i + 1];
  }

  /** A larger bound changes nothing: the expansion depends on the definitions alone. */
  lemma {:induction false} ExpandStable(t: Template, depth: nat, more: nat, defs: Definitions)
    requires Nests(t, depth, defs) && depth <= more
    ensures Nests(t, more, defs)
    ensures Expand(t, more, defs) == Expand(t, depth, defs)
    decreases depth, |t|
  {
    forall i | 0 <= i < |t| && t[i].Ref?
      ensures more > 0 && t[i].name in defs && Nests(defs[t[i].name], more - 1, defs)
    {
      ExpandStable(defs[t[i].name], depth - 1, more - 1, defs);
    }
    if t == [] {
    } else {
      NestsTail(t, depth, defs);
      ExpandStable(t[1..], depth, more, defs);
      if t[0].Ref? {
        ExpandStable(defs[t[0].name], depth - 1, more - 1, defs);
      }
    }
  }

  // ----- one level of expansion -----

  predicate AllDefined(t: Template, defs: Definitions) {
    forall i | 0 <= i < |t| && t[i].Ref? :: t[i].name in defs
  }

  /** Replaces each reference by its definition, once. */
  function Unfold(t: Template, defs: Definitions): Template
    requires AllDefined(t, defs)
  {
    if t == [] then []
    else
      assert forall i | 0 <= i < |t[1..]| :: t[1..][i] == t[i + 1];
      (match t[0]
       case Text(_) => [t[0]]
       case Ref(n) => defs[n])
      + Unfold(t[1..], defs)
  }

  lemma WellFormedTail(t: Template)
    requires WellFormed(t) && t != []
    ensures WellFormed(t[1..])
  {
    assert forall i | 0 <= i < |t[1..]| :: t[1..][i] == t[i + 1];
  }

  lemma AllDefinedTail(t: Template, defs: Definitions)
    requires t != []
    ensures AllDefined(t, defs) <==>
            (t[0].Ref? ==> t[0].name in defs) && AllDefined(t[1..], defs)
  {
    assert forall i | 0 <= i < |t[1..]| :: t[1..][i] == t[i + 1];
    if (t[0].Ref? ==> t[0].name in defs) && AllDefined(t[1..], defs) {
      forall i | 0 <= i < |t| && t[i].Ref? ensures t[i].name in defs {
        if i > 0 {
          assert t[1..][i - 1] == t[i];
        }
      }
    }
  }

  lemma {:induction false} UnfoldWellFormed(t: Template, defs: Definitions, env: Env)
    requires WellFormed(t) && AllDefined(t, defs) && Describes(defs, env)
    ensures WellFormed(Unfold(t, defs))
    decreases |t|
  {
    if t == [] {
    } else {
      WellFormedTail(t);
      AllDefinedTail(t, defs);
      UnfoldWellFormed(t[1..], defs, env);
    }
  }

  lemma {:induction false} RenderConcat(a: Template, b: Template)
    ensures Render(a + b) == Render(a) + Render(b)
    decreases |a|
  {
    if a == [] {
      assert a + b == b;
    } else {
      assert (a + b)[1..] == a[1..] + b;
      RenderConcat(a[1..], b);
    }
  }

  lemma NestsConcat(a: Template, b: Template, depth: nat, defs: Definitions)
    ensures Nests(a + b, depth, defs) <==> Nests(a, depth, defs) && Nests(b, depth, defs)
  {
    var c := a + b;
    if Nests(c, depth, defs) {
      forall i | 0 <= i < |a| && a[i].Ref?
        ensures depth > 0 && a[i].name in defs && Nests(defs[a[i].name], depth - 1, defs)
      {
        assert c[i] == a[i];
      }
      forall i | 0 <= i < |b| && b[i].Ref?
        ensures depth > 0 && b[i].name in defs && Nests(defs[b[i].name], depth - 1, defs)
      {
        assert c[|a| + i] == b[i];
      }
    }
  }

  lemma StringAssoc(a: string, b: string, c: string)
    ensures a + b + c == a + (b + c)
  {
  }

  lemma {:induction false} ExpandConcat(a: Template, b: Template, depth: nat, defs: Definitions)
    requires Nests(a + b, depth, defs) && Nests(a, depth, defs) && Nests(b, depth, defs)
    ensures Expand(a + b, depth, defs) == Expand(a, depth, defs) + Expand(b, depth, defs)
    decreases |a|
  {
    if a == [] {
      assert a + b == b;
    } else {
      assert (a + b)[1..] == a[1..] + b;
      NestsTail(a, depth, defs);
      NestsTail(a + b, depth, defs);
      ExpandConcat(a[1..], b, depth, defs);
      StringAssoc(ExpandPiece(a[0], depth, defs), Expand(a[1..], depth, defs), Expand(b, depth, defs));
    }
  }

  /** Unfolding once uses up one level of nesting and does not change the expansion. */
  lemma {:induction false} UnfoldStep(t: Template, depth: nat, defs: Definitions)
    ensures Nests(t, depth + 1, defs) <==> AllDefined(t, defs) && Nests(Unfold(t, defs), depth, defs)
    ensures Nests(t, depth + 1, defs) ==>
              Expand(t, depth + 1, defs) == Expand(Unfold(t, defs), depth, defs)
    decreases |t|
  {
    if t == [] {
    } else {
      UnfoldStep(t[1..], depth, defs);
      AllDefinedTail(t, defs);
      assert [t[0]] + t[1..] == t;
      NestsConcat([t[0]], t[1..], depth + 1, defs);
      if AllDefined(t, defs) {
        var head := match t[0] case Text(_) => [t[0]] case Ref(n) => defs[n];
        NestsConcat(head, Unfold(t[1..], defs), depth, defs);
        assert Nests([t[0]], depth + 1, defs) <==> Nests(head, depth, defs) by {
          assert [t[0]][0] == t[0];
        }
        if Nests(t, depth + 1, defs) {
          ExpandConcat(head, Unfold(t[1..], defs), depth, defs);
          if t[0].Text? {
            assert head[1..] == [];
            assert Expand(head, depth, defs) == t[0].text + Expand(head[1..], depth, defs);
          }
        }
      }
    }
  }

  // ----- one round on a rendered template -----

  /** A rendered reference is found as a whole, whatever follows it. */
  lemma RefIsMatched(n: string, rest: string)
    requires GoodName(n)
    ensures var s := "${" + n + "}" + rest;
            && MatchEnd(s, 0) == Some(|n| + 3)
            && s[2..|n| + 2] == n
            && s[|n| + 3..] == rest
  {
    var s := "${" + n + "}" + rest;
    assert forall i | 0 <= i < |n| :: s[i + 2] == n[i];
    assert s[|n| + 2] == '}';
    forall i | 3 <= i < |n| + 2 ensures s[i] != '}' {
      assert s[i] == n[i - 2];
    }
    assert s[2] == n[0];
    Strings.FindIs(s, '}', 3, |n| + 2);
  }

  lemma {:induction false} RewritePlain(a: string, rest: string, env: Env)
    requires Plain(a)
    ensures Rewrite(a + rest, env) == Then(Ok(a), Rewrite(rest, env))
    decreases |a|
  {
    if a == "" {
      assert a + rest == rest;
      ThenNothing(Rewrite(rest, env));
    } else {
      assert (a + rest)[0] == a[0] && a[0] in a;
      assert (a + rest)[..1] == a[..1] && (a + rest)[1..] == a[1..] + rest;
      RewriteUnmatched(a + rest, env);
      RewritePlain(a[1..], rest, env);
      assert a == a[..1] + a[1..];
      ThenAssoc(a[..1], a[1..], Rewrite(rest, env));
    }
  }

  lemma RewriteRef(n: string, rest: string, env: Env)
    requires GoodName(n)
    ensures var value := if env.config(n).Some? then env.config(n) else env.system(n);
            Rewrite("${" + n + "}" + rest, env) ==
            Then(if value.None? then Err(NotFound(n)) else Ok(value.value), Rewrite(rest, env))
  {
    FindPairNone(n, ':', '-', 0);
    FindPairNone(n, ':', '+', 0);
    RefIsMatched(n, rest);
    RewriteMatched("${" + n + "}" + rest, |n| + 3, env);
  }

  lemma RenderOne(p: Piece)
    ensures Render([p]) == RenderPiece(p)
  {
    assert [p][1..] == [];
    assert Render([p]) == RenderPiece(p) + Render([]);
  }

  /**
   A reference to a plain name takes the configuration's value if there is one, whatever the
   process environment holds, else that of the process environment; without either it fails.
   */
  lemma ReferenceValue(n: string, env: Env, v: string)
    requires GoodName(n)
    ensures env.config(n) == Some(v) && NoMatch(v) ==> SubstituteFrom("${" + n + "}", 0, env) == Ok(v)
    ensures env.config(n) == None && env.system(n) == Some(v) && NoMatch(v) ==>
              SubstituteFrom("${" + n + "}", 0, env) == Ok(v)
    ensures env.config(n) == None && env.system(n) == None ==>
              SubstituteFrom("${" + n + "}", 0, env) == Err(NotFound(n))
  {
    var s := "${" + n + "}";
    assert s + "" == s && v + "" == v;
    RefIsMatched(n, "");
    assert MatchEnd(s, 0).Some? && !NoMatch(s);
    RewriteRef(n, "", env);
  }

  /** A round unfolds every reference once, and fails when one of them is undefined. */
  lemma {:induction false} RewriteRender(t: Template, defs: Definitions, env: Env)
    requires WellFormed(t) && Describes(defs, env)
    ensures AllDefined(t, defs) ==> Rewrite(Render(t), env) == Ok(Render(Unfold(t, defs)))
    ensures !AllDefined(t, defs) ==> Rewrite(Render(t), env).Err?
    decreases |t|
  {
    if t == [] {
    } else {
      WellFormedTail(t);
      AllDefinedTail(t, defs);
      RewriteRender(t[1..], defs, env);
      match t[0]
      case Text(s) =>
        RewritePlain(s, Render(t[1..]), env);
        if AllDefined(t, defs) {
          RenderConcat([t[0]], Unfold(t[1..], defs));
          RenderOne(t[0]);
        }
      case Ref(n) =>
        assert DescribesAt(defs, env, n);
        RewriteRef(n, Render(t[1..]), env);
        if AllDefined(t, defs) {
          RenderConcat(defs[n], Unfold(t[1..], defs));
        }
    }
  }

  predicate HasRef(t: Template) {
    exists i :: 0 <= i < |t| && t[i].Ref?
  }

  lemma {:induction false} PlainWithoutRef(t: Template)
    requires WellFormed(t) && !HasRef(t)
    ensures '$' !in Render(t)
    decreases |t|
  {
    if t == [] {
    } else {
      WellFormedTail(t);
      assert t[0].Text?;
      forall i | 0 <= i < |t[1..]| ensures !t[1..][i].Ref? {
        assert t[1..][i] == t[i + 1];
      }
      PlainWithoutRef(t[1..]);
    }
  }

  lemma {:induction false} MatchInRender(t: Template, i: nat) returns (at: nat)
    requires WellFormed(t) && i < |t| && t[i].Ref?
    ensures at < |Render(t)| && MatchEnd(Render(t), at).Some?
    decreases |t|
  {
    WellFormedTail(t);
    var head := RenderPiece(t[0]);
    if i == 0 {
      RefIsMatched(t[0].name, Render(t[1..]));
      at := 0;
    } else {
      var inner := MatchInRender(t[1..], i - 1);
      at := |head| + inner;
      assert Render(t)[|head|..] == Render(t[1..]);
      MatchEndShift(Render(t)[|head|..], inner);
      MatchEndShift(Render(t), at);
      assert Render(t)[|head|..][inner..] == Render(t)[at..];
    }
  }

  /** References of the template are the references the rewriter sees. */
  lemma NoMatchIff(t: Template)
    requires WellFormed(t)
    ensures NoMatch(Render(t)) <==> !HasRef(t)
  {
    if HasRef(t) {
      var i :| 0 <= i < |t| && t[i].Ref?;
      var at := MatchInRender(t, i);
    } else {
      PlainWithoutRef(t);
      forall i | 0 <= i < |Render(t)| ensures MatchEnd(Render(t), i).None? {
        assert Render(t)[i] in Render(t);
      }
    }
  }

  // ----- refinement -----

  lemma {:induction false} ExpandWithoutRef(t: Template, defs: Definitions)
    ensures Nests(t, 0, defs) <==> !HasRef(t)
    ensures Nests(t, 0, defs) ==> Expand(t, 0, defs) == Render(t)
    decreases |t|
  {
    if t != [] && Nests(t, 0, defs) {
      NestsTail(t, 0, defs);
      ExpandWithoutRef(t[1..], defs);
    }
  }

  /** n rounds of rewriting end in r, which has no reference left. */
  predicate EndsIn(s: string, n: nat, env: Env, r: string) {
    Rounds(s, n, env) == Ok(r) && NoMatch(r)
  }

  predicate ExpandsTo(t: Template, n: nat, defs: Definitions, r: string) {
    Nests(t, n, defs) && r == Expand(t, n, defs)
  }

  lemma RoundsStep(s: string, n: nat, env: Env, r: string)
    requires n > 0
    ensures Rewrite(s, env).Err? ==> !EndsIn(s, n, env, r)
    ensures Rewrite(s, env).Ok? ==> (EndsIn(s, n, env, r) <==> EndsIn(Rewrite(s, env).value, n - 1, env, r))
  {
  }

  lemma UnfoldedRound(t: Template, n: nat, defs: Definitions, env: Env, r: string)
    requires n > 0 && WellFormed(t) && Describes(defs, env)
    ensures !AllDefined(t, defs) ==> !EndsIn(Render(t), n, env, r)
    ensures AllDefined(t, defs) ==>
              && WellFormed(Unfold(t, defs))
              && (EndsIn(Render(t), n, env, r) <==> EndsIn(Render(Unfold(t, defs)), n - 1, env, r))
  {
    RoundsStep(Render(t), n, env, r);
    RewriteRender(t, defs, env);
    if AllDefined(t, defs) {
      UnfoldWellFormed(t, defs, env);
    }
  }

  lemma ExpandStep(t: Template, n: nat, defs: Definitions, r: string)
    requires n > 0
    ensures !AllDefined(t, defs) ==> !ExpandsTo(t, n, defs, r)
    ensures AllDefined(t, defs) ==> (ExpandsTo(t, n, defs, r) <==> ExpandsTo(Unfold(t, defs), n - 1, defs, r))
  {
    UnfoldStep(t, n - 1, defs);
  }

  lemma ExpandEnds(t: Template, defs: Definitions, env: Env, r: string)
    requires WellFormed(t)
    ensures EndsIn(Render(t), 0, env, r) <==> ExpandsTo(t, 0, defs, r)
  {
    NoMatchIff(t);
    ExpandWithoutRef(t, defs);
  }

  /** n rounds reach a string without references exactly when the template nests at most n deep. */
  lemma {:induction false} RoundsExpand(t: Template, n: nat, defs: Definitions, env: Env, r: string)
    requires WellFormed(t) && Describes(defs, env)
    ensures EndsIn(Render(t), n, env, r) <==> ExpandsTo(t, n, defs, r)
    decreases n
  {
    if n == 0 {
      ExpandEnds(t, defs, env, r);
    } else {
      UnfoldedRound(t, n, defs, env, r);
      ExpandStep(t, n, defs, r);
      if AllDefined(t, defs) {
        RoundsExpand(Unfold(t, defs), n - 1, defs, env, r);
      }
    }
  }

  /**
   Substituting a rendered template succeeds with r exactly when every reachable name is
   defined within eight levels and r is the full recursive expansion.
   */
  lemma SubstituteExpands(t: Template, defs: Definitions, env: Env, r: string)
    requires WellFormed(t) && Describes(defs, env)
    ensures SubstituteFrom(Render(t), 0, env) == Ok(r) <==>
            Nests(t, 8, defs) && r == Expand(t, 8, defs)
  {
    SubstituteIff(Render(t), env, r);
    RoundsExpand(t, 8, defs, env, r);
  }

  ghost predicate RefersInto(t: Template, names: set<string>) {
    exists n :: n in names && Ref(n) in t
  }

  /** Each of these names is defined by a template that refers to one of them again. */
  ghost predicate Circular(names: set<string>, defs: Definitions) {
    forall n | n in names :: n in defs && RefersInto(defs[n], names)
  }

  lemma NestsRef(t: Template, n: string, depth: nat, defs: Definitions)
    requires Nests(t, depth, defs) && Ref(n) in t
    ensures depth > 0 && n in defs && Nests(defs[n], depth - 1, defs)
  {
    var i :| 0 <= i < |t| && t[i] == Ref(n);
    assert t[i].Ref?;
  }

  /** A template that refers to such a name nests at no depth. */
  lemma {:induction false} CircularNeverNests(t: Template, names: set<string>, depth: nat, defs: Definitions)
    requires Circular(names, defs) && RefersInto(t, names)
    ensures !Nests(t, depth, defs)
    decreases depth
  {
    var n :| n in names && Ref(n) in t;
    if Nests(t, depth, defs) {
      NestsRef(t, n, depth, defs);
      CircularNeverNests(defs[n], names, depth - 1, defs);
    }
  }

  /** The i-th name is defined by a template that refers to the next one, the last to the first. */
  predicate LinksOn(names: seq<string>, i: nat, defs: Definitions)
    requires i < |names|
  {
    var next := if i + 1 < |names| then i + 1 else 0;
    names[i] in defs && Ref(names[next]) in defs[names[i]]
  }

  ghost predicate Cycle(names: seq<string>, defs: Definitions) {
    forall i: nat | i < |names| :: LinksOn(names, i, defs)
  }

  lemma CycleIsCircular(names: seq<string>, defs: Definitions)
    requires Cycle(names, defs)
    ensures Circular((set n | n in names), defs)
  {
    forall n | n in names ensures n in defs && RefersInto(defs[n], (set m | m in names)) {
      var i: nat :| i < |names| && names[i] == n;
      assert LinksOn(names, i, defs);
    }
  }

  /** Substituting a template that refers to a name on a cycle of any length is an error. */
  lemma CycleIsError(t: Template, names: seq<string>, i: nat, defs: Definitions, env: Env)
    requires WellFormed(t) && Describes(defs, env)
    requires Cycle(names, defs) && i < |names| && Ref(names[i]) in t
    ensures SubstituteFrom(Render(t), 0, env).Err?
    ensures forall depth: nat :: !Nests(t, depth, defs)
  {
    CycleIsCircular(names, defs);
    forall depth: nat ensures !Nests(t, depth, defs) {
      CircularNeverNests(t, (set n | n in names), depth, defs);
    }
    if SubstituteFrom(Render(t), 0, env).Ok? {
      SubstituteExpands(t, defs, env, SubstituteFrom(Render(t), 0, env).value);
    }
  }
}
