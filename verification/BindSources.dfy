/** Containment of bind sources in the app data root (`packages/shared/src/compose-validate.ts`). */
module BindSources {
  import opened Text

  const APP_DATA_TOKEN := "${HOLA_APP_DATA}"

  predicate IsIdentifierStart(c: char) { 'A' <= c <= 'Z' || 'a' <= c <= 'z' || c == '_' }

  predicate IsIdentifierPart(c: char) { IsIdentifierStart(c) || IsDigit(c) }

  function IdentifierPrefix(s: string): (r: string)
    ensures r <= s && forall i | 0 <= i < |r| :: IsIdentifierPart(r[i])
    ensures |r| < |s| ==> !IsIdentifierPart(s[|r|])
  {
    if s != "" && IsIdentifierPart(s[0]) then [s[0]] + IdentifierPrefix(s[1..]) else ""
  }

  /** `s` starts with `${`, text without a closing brace, and a closing brace. */
  predicate IsBraced(s: string) { |s| >= 2 && s[0] == '$' && s[1] == '{' && '}' in s[2..] }

  /** `s` starts with a dollar and a name. */
  predicate IsUnbraced(s: string) { |s| >= 2 && s[0] == '$' && IsIdentifierStart(s[1]) }

  /** The variable reference at the head of `s`: `${...}`, else the longest `$name`, else a bare `$`. */
  function ReferenceAt(s: string): (r: string)
    requires s != "" && s[0] == '$'
    ensures r != "" && r <= s
    ensures IsBraced(s) ==> |r| >= 3 && r[..2] == "${" && r[|r| - 1] == '}' && '}' !in r[..|r| - 1]
    ensures IsUnbraced(s) ==> |r| >= 2 && forall i | 1 <= i < |r| :: IsIdentifierPart(r[i])
    ensures IsUnbraced(s) && |r| < |s| ==> !IsIdentifierPart(s[|r|])
    ensures !IsBraced(s) && !IsUnbraced(s) ==> r == "$"
  {
    var close := if |s| >= 2 then IndexOf(s[2..], '}') else -1;
    if |s| >= 2 && s[1] == '{' && close >= 0 then s[..close + 3]
    else if |s| >= 2 && IsIdentifierStart(s[1]) then
      assert s == [s[0]] + s[1..];
      "$" + IdentifierPrefix(s[1..])
    else s[..1]
  }

  function SuffixOf(source: string): string {
    if StartsWith(source, APP_DATA_TOKEN) then source[|APP_DATA_TOKEN|..] else source
  }

  function SourceInterpolation(source: string): (r: Option<string>)
    ensures r.None? <==> '$' !in SuffixOf(source)
  {
    var suffix := SuffixOf(source);
    var at := IndexOf(suffix, '$');
    if at < 0 then None else Some(ReferenceAt(suffix[at..]))
  }

  /** What is reported is the reference at the first dollar behind the token: braced, else named, else a bare dollar. */
  lemma FirstReferenceIsReported(source: string) returns (at: nat)
    requires SourceInterpolation(source).Some?
    ensures var suffix, r := SuffixOf(source), SourceInterpolation(source).value;
            && at < |suffix| && suffix[at] == '$' && '$' !in suffix[..at] && r <= suffix[at..]
            && (if IsBraced(suffix[at..]) then |r| >= 3 && r[..2] == "${" && r[|r| - 1] == '}' && '}' !in r[..|r| - 1]
                else if IsUnbraced(suffix[at..]) then
                  && |r| >= 2 && (forall i | 1 <= i < |r| :: IsIdentifierPart(r[i]))
                  && (|r| < |suffix[at..]| ==> !IsIdentifierPart(suffix[at..][|r|]))
                else r == "$")
  {
    hide ReferenceAt;
    at := IndexOf(SuffixOf(source), '$');
  }

  datatype Containment = Contained | Outside | Escapes(position: nat) | Interpolated

  /** The index of the first segment that walks above the starting directory, `depth` levels up being allowed. */
  function FirstEscape(segments: seq<string>, depth: nat): (r: Option<nat>)
    ensures r.Some? ==> r.value < |segments|
  {
    if segments == [] then None
    else
      var s := segments[0];
      if s == ".." && depth == 0 then Some(0)
      else
        var next := if s == "" || s == "." then depth else if s == ".." then depth - 1 else depth + 1;
        var rest := FirstEscape(segments[1..], next);
        if rest.None? then None else Some(rest.value + 1)
  }

  function Classify(source: string): Containment {
    if source == APP_DATA_TOKEN then Contained
    else if !StartsWith(source, APP_DATA_TOKEN + "/") then Outside
    else if SourceInterpolation(source).Some? then Interpolated
    else
      var escape := FirstEscape(Split(source[|APP_DATA_TOKEN| + 1..], '/'), 0);
      if escape.None? then Contained else Escapes(escape.value + 1)
  }

  lemma TokenIsPrefix(source: string)
    ensures StartsWith(source, APP_DATA_TOKEN + "/") ==> |APP_DATA_TOKEN| < |source|
  {}

  method AppDataContainment(source: string) returns (c: Containment)
    ensures c == Classify(source)
  {
    hide Split, SourceInterpolation, StartsWith, APP_DATA_TOKEN;
    TokenIsPrefix(source);
    if source == APP_DATA_TOKEN { return Contained; }
    if !StartsWith(source, APP_DATA_TOKEN + "/") { return Outside; }
    if SourceInterpolation(source).Some? { return Interpolated; }
    var depth: nat := 0;
    var segments := Split(source[|APP_DATA_TOKEN| + 1..], '/');
    ghost var whole := FirstEscape(segments, 0);
    assert segments[0..] == segments;
    for i := 0 to |segments|
      invariant var rest := FirstEscape(segments[i..], depth);
                whole == if rest.None? then None else Some(rest.value + i)
    {
      assert segments[i..][1..] == segments[i + 1..];
      var segment := segments[i];
      if segment == "" || segment == "." { continue; }
      if segment != ".." {
        depth := depth + 1;
        continue;
      }
      if depth == 0 { return Escapes(i + 1); }
      depth := depth - 1;
    }
    return Contained;
  }

  // ---------------------------------------------------------------------------
  // Path resolution
  // ---------------------------------------------------------------------------

  /** An absolute directory, as the names below the file-system root. */
  type Dir = seq<string>

  /** One step of lexical resolution; the parent of the file-system root is itself. */
  function Enter(dir: Dir, segment: string): Dir {
    if segment == "" || segment == "." then dir
    else if segment == ".." then (if dir == [] then [] else dir[..|dir| - 1])
    else dir + [segment]
  }

  function Resolve(dir: Dir, segments: seq<string>): Dir
    decreases |segments|
  {
    if segments == [] then dir else Resolve(Enter(dir, segments[0]), segments[1..])
  }

  /** After each of the first `n` steps the directory is still `root` or below it. */
  ghost predicate InsideFor(root: Dir, dir: Dir, segments: seq<string>, n: nat)
    requires n <= |segments|
  {
    forall k | 0 <= k <= n :: root <= Resolve(dir, segments[..k])
  }

  ghost predicate StaysInside(root: Dir, segments: seq<string>) {
    InsideFor(root, root, segments, |segments|)
  }

  lemma InsideStep(root: Dir, dir: Dir, segments: seq<string>, n: nat)
    requires 0 < n <= |segments|
    ensures InsideFor(root, dir, segments, n) <==>
            root <= dir && InsideFor(root, Enter(dir, segments[0]), segments[1..], n - 1)
  {
    hide Enter;
    assert segments[..0] == [];
    forall k | 0 < k <= n
      ensures Resolve(dir, segments[..k]) == Resolve(Enter(dir, segments[0]), segments[1..][..k - 1])
    {
      assert segments[..k][1..] == segments[1..][..k - 1];
    }
    if InsideFor(root, dir, segments, n) {
      forall k | 0 <= k <= n - 1
        ensures root <= Resolve(Enter(dir, segments[0]), segments[1..][..k])
      {
        assert root <= Resolve(dir, segments[..k + 1]);
      }
      assert root <= Resolve(dir, segments[..0]);
    }
  }

  lemma InsideForShrinks(root: Dir, dir: Dir, segments: seq<string>, n: nat, m: nat)
    requires n <= m <= |segments|
    ensures InsideFor(root, dir, segments, m) ==> InsideFor(root, dir, segments, n)
  {}

  lemma InsideForNothing(root: Dir, dir: Dir, segments: seq<string>)
    ensures InsideFor(root, dir, segments, 0) <==> root <= dir
  {
    assert segments[..0] == [];
    if InsideFor(root, dir, segments, 0) {
      assert root <= Resolve(dir, segments[..0]);
    }
  }

  /** The walk with its depth counter is resolution from `root`, `depth` levels below it. */
  lemma {:induction false} WalkIsResolution(root: Dir, below: Dir, segments: seq<string>)
    requires root != []
    ensures var escape := FirstEscape(segments, |below|);
            if escape.None? then InsideFor(root, root + below, segments, |segments|)
            else InsideFor(root, root + below, segments, escape.value)
                 && !InsideFor(root, root + below, segments, escape.value + 1)
    decreases |segments|
  {
    var dir := root + below;
    InsideForNothing(root, dir, segments);
    if segments != [] {
      var s := segments[0];
      var escape := FirstEscape(segments, |below|);
      if s == ".." && below == [] {
        InsideStep(root, dir, segments, 1);
        InsideForNothing(root, Enter(dir, s), segments[1..]);
        assert dir == root;
      } else {
        var below' := if s == "" || s == "." then below else if s == ".." then below[..|below| - 1] else below + [s];
        assert Enter(dir, s) == root + below';
        WalkIsResolution(root, below', segments[1..]);
        if escape.None? {
          InsideStep(root, dir, segments, |segments|);
        } else {
          InsideStep(root, dir, segments, escape.value + 1);
          if escape.value > 0 { InsideStep(root, dir, segments, escape.value); }
        }
      }
    }
  }

  /** What `contained` promises: the suffix is literal and never leaves the root, step by step. */
  ghost predicate UnderRoot(root: Dir, source: string) {
    || source == APP_DATA_TOKEN
    || (StartsWith(source, APP_DATA_TOKEN + "/")
        && '$' !in source[|APP_DATA_TOKEN|..]
        && StaysInside(root, Split(source[|APP_DATA_TOKEN| + 1..], '/')))
  }

  /** The classification against resolution from any app root; `escapes` names the first step that leaves it. */
  lemma ContainmentIsResolution(source: string, root: Dir)
    requires root != []
    ensures Classify(source) == Contained <==> UnderRoot(root, source)
    ensures Classify(source).Escapes? ==>
              var segments, p := Split(source[|APP_DATA_TOKEN| + 1..], '/'), Classify(source).position;
              && 1 <= p <= |segments|
              && InsideFor(root, root, segments, p - 1)
              && !(root <= Resolve(root, segments[..p]))
  {
    hide Split, IndexOf;
    if source != APP_DATA_TOKEN && StartsWith(source, APP_DATA_TOKEN + "/") {
      assert StartsWith(source, APP_DATA_TOKEN);
      var segments := Split(source[|APP_DATA_TOKEN| + 1..], '/');
      assert root + [] == root;
      WalkIsResolution(root, [], segments);
      var escape := FirstEscape(segments, 0);
      if escape.Some? && StaysInside(root, segments) {
        InsideForShrinks(root, root, segments, escape.value + 1, |segments|);
      }
      if escape.Some? {
        var p := escape.value + 1;
        var k :| 0 <= k <= p && !(root <= Resolve(root, segments[..k]));
        assert k == p by { assert InsideFor(root, root, segments, escape.value); }
      }
    }
  }

  /** Position `p` is reported exactly when a literal suffix leaves the root at step `p` for the first time. */
  lemma EscapesExactly(source: string, root: Dir, p: nat)
    requires root != []
    ensures Classify(source) == Escapes(p) <==>
              && StartsWith(source, APP_DATA_TOKEN + "/")
              && '$' !in source[|APP_DATA_TOKEN|..]
              && FirstLeaves(root, Split(source[|APP_DATA_TOKEN| + 1..], '/'), p)
  {
    hide Split, IndexOf, FirstEscape, InsideFor, StaysInside;
    ContainmentIsResolution(source, root);
    if StartsWith(source, APP_DATA_TOKEN + "/") && '$' !in source[|APP_DATA_TOKEN|..] {
      assert StartsWith(source, APP_DATA_TOKEN) && |source| > |APP_DATA_TOKEN|;
      var segments := Split(source[|APP_DATA_TOKEN| + 1..], '/');
      assert UnderRoot(root, source) <==> StaysInside(root, segments);
      if FirstLeaves(root, segments, p) {
        FirstLeavesIsUnique(root, segments, p, p);
        assert Classify(source).Escapes?;
        FirstLeavesIsUnique(root, segments, p, Classify(source).position);
      }
    }
  }

  /** Step `p` is the first one after which the directory is no longer inside. */
  ghost predicate FirstLeaves(root: Dir, segments: seq<string>, p: nat) {
    && 1 <= p <= |segments|
    && InsideFor(root, root, segments, p - 1)
    && !(root <= Resolve(root, segments[..p]))
  }

  lemma FirstLeavesIsUnique(root: Dir, segments: seq<string>, p: nat, q: nat)
    requires FirstLeaves(root, segments, p)
    ensures !StaysInside(root, segments)
    ensures FirstLeaves(root, segments, q) ==> p == q
  {}

  // ---------------------------------------------------------------------------
  // Interpolation
  // ---------------------------------------------------------------------------

  /** A reference Compose substitutes: `$name`, or braces around text that starts with a name. */
  predicate IsSubstituted(s: string) {
    IsUnbraced(s) || (IsBraced(s) && IsIdentifierStart(s[2]))
  }

  /** The text between the braces, or the name. */
  function Referenced(s: string): string
    requires IsSubstituted(s)
  {
    var r := ReferenceAt(s);
    if IsBraced(s) then r[2..|r| - 1] else r[1..]
  }

  /** Compose substitution of `$$` and of references; any other `$` is kept. */
  function Interpolate(s: string, env: string -> string): string
    decreases |s|
  {
    if s == "" then ""
    else if s[0] != '$' then [s[0]] + Interpolate(s[1..], env)
    else if |s| >= 2 && s[1] == '$' then "$" + Interpolate(s[2..], env)
    else if IsSubstituted(s) then env(Referenced(s)) + Interpolate(s[|ReferenceAt(s)|..], env)
    else "$" + Interpolate(s[1..], env)
  }

  lemma {:induction false} LiteralIsFixed(s: string, env: string -> string)
    requires '$' !in s
    ensures Interpolate(s, env) == s
  {
    if s != "" {
      LiteralIsFixed(s[1..], env);
      assert s == [s[0]] + s[1..];
    }
  }

  /** A contained source reaches the same place, inside the root, whatever the app's environment holds. */
  lemma ContainedUnderEveryEnvironment(source: string, root: Dir, env: string -> string)
    requires root != [] && Classify(source) == Contained
    ensures var suffix := source[|APP_DATA_TOKEN|..];
            && Interpolate(suffix, env) == suffix
            && StaysInside(root, Split(Interpolate(suffix, env), '/'))
  {
    hide Split, Classify;
    ContainmentIsResolution(source, root);
    var suffix := source[|APP_DATA_TOKEN|..];
    if source == APP_DATA_TOKEN {
      assert suffix == "";
      SplitWithoutSeparator("", '/');
      StayingPut(root);
    } else {
      var rest := source[|APP_DATA_TOKEN| + 1..];
      assert suffix == "" + ['/'] + rest by {
        assert source[|APP_DATA_TOKEN|] == (APP_DATA_TOKEN + "/")[|APP_DATA_TOKEN|];
      }
      SplitAtSeparator("", '/', rest);
      LeadingSeparator(root, Split(rest, '/'));
    }
    LiteralIsFixed(suffix, env);
  }

  lemma StayingPut(root: Dir)
    ensures StaysInside(root, [""])
  {
    assert [""][..1] == [""] && [""][1..] == [];
    InsideStep(root, root, [""], 1);
    InsideForNothing(root, root, []);
  }

  lemma LeadingSeparator(root: Dir, segments: seq<string>)
    ensures StaysInside(root, [""] + segments) <==> StaysInside(root, segments)
  {
    var all := [""] + segments;
    assert all[1..] == segments;
    InsideStep(root, root, all, |all|);
  }

  // ---------------------------------------------------------------------------
  // The literal rule, exactly
  // ---------------------------------------------------------------------------

  /** Compose would substitute something. */
  predicate Substitutes(s: string)
    decreases |s|
  {
    if s == "" then false
    else if s[0] != '$' then Substitutes(s[1..])
    else if |s| >= 2 && s[1] == '$' then Substitutes(s[2..])
    else IsSubstituted(s) || Substitutes(s[1..])
  }

  /** Two segments that a walk cannot tell apart. */
  predicate SameStep(x: string, y: string) { x == y || ('$' in x && '$' in y) }

  ghost predicate SameWalk(x: seq<string>, y: seq<string>) {
    |x| == |y| && forall i | 0 <= i < |x| :: SameStep(x[i], y[i])
  }

  lemma {:induction false} SameWalkEscapes(x: seq<string>, y: seq<string>, depth: nat)
    requires SameWalk(x, y)
    ensures FirstEscape(x, depth) == FirstEscape(y, depth)
  {
    if x != [] {
      var s := x[0];
      assert SameStep(x[0], y[0]);
      assert forall i | 0 <= i < |x| - 1 :: x[1..][i] == x[i + 1] && y[1..][i] == y[i + 1];
      if !(s == ".." && depth == 0) {
        SameWalkEscapes(x[1..], y[1..],
                        if s == "" || s == "." then depth else if s == ".." then depth - 1 else depth + 1);
      }
    }
  }

  /** Prefixing the first segments keeps a walk the same when the prefixes are equal or both have a dollar. */
  lemma SameWalkPrefixed(a: string, x: seq<string>, b: string, y: seq<string>)
    requires x != [] && SameWalk(x, y) && SameStep(a, b)
    ensures SameWalk([a + x[0]] + x[1..], [b + y[0]] + y[1..])
  {
    assert SameStep(x[0], y[0]);
  }

  lemma SplitPrefixed(a: string, rest: string)
    requires '/' !in a
    ensures Split(a + rest, '/') == [a + Split(rest, '/')[0]] + Split(rest, '/')[1..]
  {
    hide Split;
    SplitOfConcat(a, rest, '/');
    SplitWithoutSeparator(a, '/');
    GlueOntoOne(a, Split(rest, '/'));
  }

  /** Without a substitution the environment has no say, and the walk is that of the text as written. */
  lemma {:induction false} NothingSubstituted(s: string, env: string -> string)
    requires !Substitutes(s)
    ensures SameWalk(Split(s, '/'), Split(Interpolate(s, env), '/'))
    decreases |s|
  {
    hide Split, SameWalk;
    if s == "" {
      SameWalkReflexive(Split("", '/'));
    } else if s[0] == '$' && |s| >= 2 && s[1] == '$' {
      NothingSubstituted(s[2..], env);
      assert s == "$$" + s[2..];
      PrefixedWalks("$$", s[2..], "$", Interpolate(s[2..], env));
    } else {
      assert s == [s[0]] + s[1..];
      NothingSubstituted(s[1..], env);
      if s[0] == '/' {
        SeparatedWalks(s[1..], Interpolate(s[1..], env));
      } else {
        PrefixedWalks([s[0]], s[1..], [s[0]], Interpolate(s[1..], env));
      }
    }
  }

  lemma SameWalkReflexive(x: seq<string>)
    ensures SameWalk(x, x)
  {}

  lemma PrefixedWalks(a: string, x: string, b: string, y: string)
    requires '/' !in a && '/' !in b && SameStep(a, b)
    requires SameWalk(Split(x, '/'), Split(y, '/'))
    ensures SameWalk(Split(a + x, '/'), Split(b + y, '/'))
  {
    hide Split, SameWalk;
    SplitPrefixed(a, x);
    SplitPrefixed(b, y);
    SameWalkPrefixed(a, Split(x, '/'), b, Split(y, '/'));
  }

  lemma SeparatedWalks(x: string, y: string)
    requires SameWalk(Split(x, '/'), Split(y, '/'))
    ensures SameWalk(Split(['/'] + x, '/'), Split(['/'] + y, '/'))
  {
    hide Split;
    assert "" + ['/'] + x == ['/'] + x && "" + ['/'] + y == ['/'] + y;
    SplitAtSeparator("", '/', x);
    SplitAtSeparator("", '/', y);
    assert SameStep("", "");
  }

  /** `n` steps up, written as the beginning of a longer path. */
  function UpText(n: nat): string { if n == 0 then "" else "../" + UpText(n - 1) }

  function Ups(n: nat): seq<string> { if n == 0 then [] else [".."] + Ups(n - 1) }

  lemma {:induction false} SplitUpText(n: nat, rest: string)
    ensures Split(UpText(n) + rest, '/') == Ups(n) + Split(rest, '/')
  {
    hide Split;
    if n == 0 {
      assert "" + rest == rest && [] + Split(rest, '/') == Split(rest, '/');
    } else {
      SplitUpText(n - 1, rest);
      assert UpText(n) + rest == ".." + ['/'] + (UpText(n - 1) + rest);
      SplitAtSeparator("..", '/', UpText(n - 1) + rest);
      assert [".."] + (Ups(n - 1) + Split(rest, '/')) == Ups(n) + Split(rest, '/');
    }
  }

  /** More steps up than there can be levels leave the starting directory. */
  lemma {:induction false} UpsEscape(front: seq<string>, n: nat, back: seq<string>, depth: nat)
    requires n > depth + |front|
    ensures FirstEscape(front + Ups(n) + back, depth).Some?
    decreases |front| + n
  {
    var all := front + Ups(n) + back;
    if front == [] {
      assert all[0] == ".." && all[1..] == [] + Ups(n - 1) + back;
      if depth > 0 { UpsEscape([], n - 1, back, depth - 1); }
    } else {
      var s := front[0];
      assert all[0] == s && all[1..] == front[1..] + Ups(n) + back;
      if !(s == ".." && depth == 0) {
        UpsEscape(front[1..], n, back,
                  if s == "" || s == "." then depth else if s == ".." then depth - 1 else depth + 1);
      }
    }
  }

  lemma {:induction false} SplitIsShort(s: string)
    ensures |Split(s, '/')| <= |s| + 1
  {
    if s != "" {
      SplitIsShort(s[1..]);
    }
  }

  /** The first substitution: literal text before it, and something behind it. */
  lemma {:induction false} FirstSubstitution(s: string, x: string) returns (before: string, after: string)
    requires Substitutes(s)
    ensures Interpolate(s, (n: string) => x) == before + x + after && |before| <= |s|
    decreases |s|
  {
    var env := (n: string) => x;
    if s[0] != '$' {
      before, after := FirstSubstitution(s[1..], x);
      assert [s[0]] + (before + x + after) == ([s[0]] + before) + x + after;
      before := [s[0]] + before;
    } else if |s| >= 2 && s[1] == '$' {
      before, after := FirstSubstitution(s[2..], x);
      assert "$" + (before + x + after) == ("$" + before) + x + after;
      before := "$" + before;
    } else if IsSubstituted(s) {
      before, after := "", Interpolate(s[|ReferenceAt(s)|..], env);
      assert "" + x + after == x + after;
    } else {
      before, after := FirstSubstitution(s[1..], x);
      assert "$" + (before + x + after) == ("$" + before) + x + after;
      before := "$" + before;
    }
  }

  /** A substitution at any place, in either spelling, can leave the root. */
  lemma SubstitutionEscapes(s: string)
    requires Substitutes(s)
    ensures exists env: string -> string :: FirstEscape(Split(Interpolate(s, env), '/'), 0).Some?
  {
    hide Split, Interpolate, FirstEscape, Substitutes;
    var n := |s| + 3;
    var x := "/" + UpText(n);
    var before, after := FirstSubstitution(s, x);
    var env := (name: string) => x;
    assert before + x + after == before + ("" + ['/'] + (UpText(n) + after));
    SplitUpText(n, after);
    SplitAtSeparator("", '/', UpText(n) + after);
    SplitOfConcat(before, "" + ['/'] + (UpText(n) + after), '/');
    var front := Split(before, '/');
    GlueAtBreak(front, Ups(n) + Split(after, '/'));
    assert front + (Ups(n) + Split(after, '/')) == front + Ups(n) + Split(after, '/');
    SplitIsShort(before);
    UpsEscape(front, n, Split(after, '/'), 0);
    assert FirstEscape(Split(Interpolate(s, env), '/'), 0).Some?;
  }

  lemma StaysInsideExactly(root: Dir, segments: seq<string>)
    requires root != []
    ensures StaysInside(root, segments) <==> FirstEscape(segments, 0).None?
  {
    hide FirstEscape, InsideFor;
    assert root + [] == root;
    WalkIsResolution(root, [], segments);
    var escape := FirstEscape(segments, 0);
    if escape.Some? && StaysInside(root, segments) {
      InsideForShrinks(root, root, segments, escape.value + 1, |segments|);
    }
  }

  /**
   * Why the suffix must be literal, exactly: below the token some environment makes the source leave the root if and
   * only if the suffix has a substitutable reference, at any place and in either spelling, or leaves it as written.
   */
  lemma InterpolatedCanEscape(suffix: string, root: Dir)
    requires root != []
    ensures (exists env: string -> string :: !StaysInside(root, Split(Interpolate(suffix, env), '/')))
            <==> Substitutes(suffix) || !StaysInside(root, Split(suffix, '/'))
  {
    hide Split, Interpolate, FirstEscape, Substitutes, StaysInside, SameWalk;
    StaysInsideExactly(root, Split(suffix, '/'));
    if Substitutes(suffix) {
      SubstitutionEscapes(suffix);
      var env: string -> string :| FirstEscape(Split(Interpolate(suffix, env), '/'), 0).Some?;
      StaysInsideExactly(root, Split(Interpolate(suffix, env), '/'));
      assert !StaysInside(root, Split(Interpolate(suffix, env), '/'));
    } else {
      forall env: string -> string
        ensures StaysInside(root, Split(Interpolate(suffix, env), '/')) <==> StaysInside(root, Split(suffix, '/'))
      {
        NothingSubstituted(suffix, env);
        SameWalkEscapes(Split(suffix, '/'), Split(Interpolate(suffix, env), '/'), 0);
        StaysInsideExactly(root, Split(Interpolate(suffix, env), '/'));
      }
      var env := (name: string) => "";
      assert StaysInside(root, Split(Interpolate(suffix, env), '/')) <==> StaysInside(root, Split(suffix, '/'));
    }
  }

  /** The classification refuses every suffix that can be substituted. */
  lemma SubstitutionIsRefused(suffix: string)
    requires suffix != "" && suffix[0] == '/' && Substitutes(suffix)
    ensures Classify(APP_DATA_TOKEN + suffix) == Interpolated
  {
    hide Substitutes, SourceInterpolation, APP_DATA_TOKEN, FirstEscape;
    SubstitutesHasDollar(suffix);
    var source := APP_DATA_TOKEN + suffix;
    assert source[|APP_DATA_TOKEN|..] == suffix;
    assert source == APP_DATA_TOKEN + "/" + suffix[1..];
  }

  lemma {:induction false} SubstitutesHasDollar(s: string)
    ensures Substitutes(s) ==> '$' in s
    decreases |s|
  {
    if s != "" && s[0] != '$' {
      SubstitutesHasDollar(s[1..]);
    }
  }
}
