/** Whole configurations: exactly when they are read back. */
module EnvConfigurations {
  import opened Text
  import opened EnvFile
  import opened EnvEdits
  import opened EnvLines
  import opened EnvRoundTrip

  // ---------------------------------------------------------------------------
  // One-line edits change nothing about which edits take effect
  // ---------------------------------------------------------------------------

  /** A one-line edit on a raw line: the same keys match, stand alone and are assigned. */
  lemma SameLine(line: string, s: Setting, asked: string)
    requires LineKey(s.key) && OneLine(s.value) && LineKey(asked) && Matches(line, s.key)
    ensures var line' := ReplaceFirst(line, s.key, LineFor(s));
            && (Matches(line', asked) <==> Matches(line, asked))
            && (Matches(line, asked) ==> (StandsAlone(line', asked) <==> StandsAlone(line, asked)))
            && (Assigns(line', asked) <==> Assigns(line, asked))
  {
    hide Segments, Terminators, ReplaceFirst, Left, Right, Matched, Escape, ParseLine, Blank;
    var line' := ReplaceFirst(line, s.key, LineFor(s));
    ReplaceFirstSegments(line, s);
    if Matches(line, asked) { SameStanding(line, s, asked); }
    ReplaceFirstAt(line, s.key, LineFor(s));
    var u, w, seg := Left(line, s.key), Right(line, s.key), Matched(line, s.key);
    var rest := seg[|s.key| + 1..];
    assert seg == s.key + "=" + rest;
    assert line == u + s.key + "=" + (rest + w);
    assert line' == u + s.key + "=" + (Escape(s.value) + w);
    AssignsSameKey(u, s.key, rest + w, Escape(s.value) + w, asked);
  }

  lemma SameStanding(line: string, s: Setting, asked: string)
    requires LineKey(s.key) && OneLine(s.value) && LineKey(asked) && Matches(line, s.key) && Matches(line, asked)
    ensures var line' := ReplaceFirst(line, s.key, LineFor(s));
            Matches(line', asked) && (StandsAlone(line', asked) <==> StandsAlone(line, asked))
  {
    hide Segments, Terminators, ReplaceFirst, Before, After, Escape, Blank, StartsWith;
    var line' := ReplaceFirst(line, s.key, LineFor(s));
    ReplaceFirstSegments(line, s);
    LineForIsOneLine(s);
    var segs, terms := Segments(line), Terminators(line);
    var i, j := FirstWith(segs, s.key), FirstWith(segs, asked);
    if i == j {
      SameSurroundings(segs, terms, i, LineFor(s));
    } else {
      NotBlankAssignment(segs[i], s.key);
      NotBlankAssignment(LineFor(s), s.key);
      if Blank(Before(segs, terms, j)) && Blank(After(segs, terms, j)) {
        OtherSegmentsBlank(segs, terms, j, i);
      }
      var edited := segs[i := LineFor(s)];
      if Blank(Before(edited, terms, j)) && Blank(After(edited, terms, j)) {
        OtherSegmentsBlank(edited, terms, j, i);
      }
    }
  }

  lemma {:induction false} SameSurroundings(segs: seq<string>, terms: string, i: nat, x: string)
    requires |segs| == |terms| + 1 && i < |segs|
    ensures Before(segs[i := x], terms, i) == Before(segs, terms, i)
    ensures After(segs[i := x], terms, i) == After(segs, terms, i)
  {
    if i > 0 {
      assert segs[i := x][1..] == segs[1..][i - 1 := x];
      SameSurroundings(segs[1..], terms[1..], i - 1, x);
    } else {
      assert segs[0 := x][1..] == segs[1..];
    }
  }

  /** Before and after a one-line edit the edit of every key takes effect or fails alike. */
  lemma SameEffect(text: string, s: Setting, asked: string)
    requires ManagedKey(s.key) && OneLine(s.value) && LineKey(asked) && Matches(text, s.key)
    ensures EditTakesEffect(ReplaceFirst(text, s.key, LineFor(s)), asked) <==> EditTakesEffect(text, asked)
  {
    hide Matches, ReplaceFirst, LineFor, ParseLine, Split, StandsAlone, OneLine;
    OneLineHasNoNewline(s.value);
    LineHasNoNewline(s);
    ReplaceOnLine(text, s.key, LineFor(s));
    var lines, n := Lines(text), MatchingLine(text, s.key);
    var line' := ReplaceFirst(lines[n], s.key, LineFor(s));
    SameLine(lines[n], s, asked);
    FirstMatchingIs(lines[n := line'], asked, MatchingLine(text, asked));
    var m := MatchingLine(text, asked);
    assert NoneAssigns(lines[n := line'], m + 1, asked) <==> NoneAssigns(lines, m + 1, asked) by {
      SameNoneAssigns(lines, n, line', m + 1, asked);
    }
  }

  lemma SameNoneAssigns(lines: seq<string>, n: nat, x: string, from: nat, key: string)
    requires n < |lines| && (Assigns(x, key) <==> Assigns(lines[n], key))
    ensures NoneAssigns(lines[n := x], from, key) <==> NoneAssigns(lines, from, key)
  {
    hide ParseLine;
    var edited := lines[n := x];
    assert forall m | 0 <= m < |lines| :: Assigns(edited[m], key) <==> Assigns(lines[m], key);
  }

  lemma {:induction false} SameEffectAfterEdits(config: seq<Setting>, base: string, asked: string)
    requires ManagedConfig(config) && LineKey(asked) && forall i | 0 <= i < |config| :: OneLine(config[i].value)
    ensures EditTakesEffect(Edit(config, base).0, asked) <==> EditTakesEffect(base, asked)
  {
    hide EditTakesEffect, LineFor, ManagedKey, Matches, OneLine, ReplaceFirst;
    if config != [] {
      var n := |config| - 1;
      SameEffectAfterEdits(config[..n], base, asked);
      var text := Edit(config[..n], base).0;
      if Matches(text, config[n].key) {
        SameEffect(text, config[n], asked);
      }
    }
  }

  // ---------------------------------------------------------------------------
  // Which edits have to take effect
  // ---------------------------------------------------------------------------

  /** The keys of `config` with one-line values the parser gives back. */
  ghost predicate PlainVariant(config: seq<Setting>, d: seq<Setting>) {
    && |d| == |config|
    && forall i | 0 <= i < |d| :: d[i].key == config[i].key && OneLine(d[i].value) && Trimmed(d[i].value)
  }

  ghost predicate ConfigReadsBack(config: seq<Setting>, base: string) {
    Parse(Render(config, base)) == Parse(base) + AsMap(config)
  }

  /** The keys of `config`, all empty but one. */
  function Sample(config: seq<Setting>, i: nat, value: string): seq<Setting>
    requires i < |config|
  {
    seq(|config|, k requires 0 <= k < |config| => Setting(config[k].key, if k == i then value else ""))
  }

  lemma SampleIsPlain(config: seq<Setting>, i: nat, value: string)
    requires ManagedConfig(config) && i < |config| && (value == "" || value == "x")
    ensures var d := Sample(config, i, value);
            PlainVariant(config, d) && ManagedConfig(d) && ValidConfig(d) && d[i] == Setting(config[i].key, value)
  {
    hide ManagedKey;
    assert OneLine(value) && Trimmed(value) && OneLine("") && Trimmed("");
    var d := Sample(config, i, value);
    forall k | 0 <= k < |d|
      ensures ValidSetting(d[k])
    {
      assert ManagedKey(config[k].key);
      KeyIsLineKey(config[k].key);
    }
  }

  lemma KeyIsLineKey(key: string)
    requires ManagedKey(key)
    ensures LineKey(key)
  {}

  /** Changing one value of a sample changes one segment: it is an edit of the sample with the empty value. */
  lemma SampleIsEdit(config: seq<Setting>, base: string, i: nat, value: string)
    requires ManagedConfig(config) && i < |config| && Matches(base, config[i].key) && (value == "" || value == "x")
    ensures var text := Edit(Sample(config, i, ""), base).0;
            && Matches(text, config[i].key)
            && Edit(Sample(config, i, value), base).0
               == ReplaceFirst(text, config[i].key, LineFor(Setting(config[i].key, value)))
  {
    hide Segments, Terminators, LineFor, Edit, Assemble, StartsWith, ManagedKey;
    var key := config[i].key;
    KeyIsLineKey(key);
    SampleIsPlain(config, i, "");
    SampleIsPlain(config, i, value);
    var d, e := Sample(config, i, ""), Sample(config, i, value);
    EditFrame(d, base);
    EditFrame(e, base);
    var text, text' := Edit(d, base).0, Edit(e, base).0;
    var segs, p := Segments(base), FirstWith(Segments(base), key);
    EditedFirstLine(segs, e, i);
    forall k | 0 <= k < |segs| && k != p
      ensures EditedLine(segs, e, k) == EditedLine(segs, d, k)
    {
      SampleElsewhere(config, segs, i, value, k, |config|);
    }
    assert Segments(text)[p := LineFor(Setting(key, value))] == Segments(text');
    AssembleSegments(text');
  }

  /** Off the line of key `i` its value has no say. */
  lemma {:induction false} SampleElsewhere(config: seq<Setting>, segs: seq<string>, i: nat, value: string, k: nat,
                                           n: nat)
    requires i < |config| && k < |segs| && k != FirstWith(segs, config[i].key) && n <= |config|
    ensures EditedLine(segs, Sample(config, i, value)[..n], k) == EditedLine(segs, Sample(config, i, "")[..n], k)
    ensures n == |config| ==>
              EditedLine(segs, Sample(config, i, value), k) == EditedLine(segs, Sample(config, i, ""), k)
  {
    hide FirstWith, LineFor;
    var d, e := Sample(config, i, ""), Sample(config, i, value);
    if n > 0 {
      SampleElsewhere(config, segs, i, value, k, n - 1);
      assert d[..n][..n - 1] == d[..n - 1] && e[..n][..n - 1] == e[..n - 1];
    }
    assert n == |config| ==> d[..n] == d && e[..n] == e;
  }

  /** What a render leaves for a key whose line was edited in place. */
  lemma {:induction false} AppendedKeys(config: seq<Setting>, base: string, key: string)
    requires ManagedConfig(config) && key in ParseLines(Edit(config, base).1)
    ensures exists t | 0 <= t < |config| :: config[t].key == key && !Matches(Edit(config[..t], base).0, key)
  {
    hide LineFor, Matches, ManagedKey, ParseLine, ReplaceFirst;
    if config != [] {
      var n := |config| - 1;
      var s := config[n];
      var (text, appended) := Edit(config[..n], base);
      assert Edit(config, base).1 == (if Matches(text, s.key) then appended else appended + [LineFor(s)]);
      assert (appended + [LineFor(s)])[..|appended|] == appended;
      if !Matches(text, s.key) {
        assert "" + LineFor(s) + "" == LineFor(s) && s == Setting(s.key, s.value);
        ParseEditedLine("", s.key, s.value, "");
      }
      if key in ParseLines(appended) {
        AppendedKeys(config[..n], base, key);
        var t :| 0 <= t < n && config[..n][t].key == key && !Matches(Edit(config[..n][..t], base).0, key);
        assert config[..n][..t] == config[..t];
      }
    }
  }

  /** A key that matches when its turn comes is read from the edited text. */
  lemma ReadFromText(config: seq<Setting>, base: string, i: nat)
    requires ManagedConfig(config) && NewlineFree(config) && i < |config|
    requires Matches(Edit(config[..i], base).0, config[i].key)
    ensures SameAt(Parse(Render(config, base)), Parse(Edit(config, base).0), config[i].key)
  {
    hide Edit, Matches, Parse, ParseLines, Append, ManagedKey;
    var (text, appended) := Edit(config, base);
    AppendedHaveNoNewline(config, base);
    ParseOfAppend(text, appended);
    if config[i].key in ParseLines(appended) {
      AppendedKeys(config, base, config[i].key);
    }
  }

  lemma {:induction false} OneLineEditsKeepMatches(config: seq<Setting>, base: string, key: string)
    requires ValidConfig(config) && LineKey(key)
    ensures Matches(Edit(config, base).0, key) <==> Matches(base, key)
  {
    EditFrame(config, base);
  }

  /** A sample is read back only if reading its key from the edited text gives its value. */
  lemma SampleNeeds(config: seq<Setting>, base: string, i: nat, value: string)
    requires ManagedConfig(config) && i < |config| && Matches(base, config[i].key) && (value == "" || value == "x")
    ensures ConfigReadsBack(Sample(config, i, value), base) ==>
              ReadsBack(Edit(Sample(config, i, ""), base).0, config[i].key, value)
  {
    hide Edit, Matches, Parse, Render, ManagedKey, LineFor, ReplaceFirst, Sample;
    SampleIsPlain(config, i, value);
    SampleIsPlain(config, i, "");
    var d, s := Sample(config, i, value), Setting(config[i].key, value);
    KeyIsLineKey(s.key);
    forall k | 0 <= k < |d|
      ensures '\n' !in d[k].value
    {
      OneLineHasNoNewline(d[k].value);
    }
    assert ValidConfig(d[..i]);
    OneLineEditsKeepMatches(d[..i], base, s.key);
    ReadFromText(d, base, i);
    AsReadAt(d, i);
    SampleIsEdit(config, base, i, value);
    RenderMatched(s, Edit(Sample(config, i, ""), base).0);
  }

  /** A configuration with an ineffective edit has a variant that is not read back. */
  lemma IneffectiveEditShows(config: seq<Setting>, base: string, i: nat)
    requires ManagedConfig(config) && i < |config| && !EditTakesEffect(base, config[i].key)
    ensures !ConfigReadsBack(Sample(config, i, ""), base) || !ConfigReadsBack(Sample(config, i, "x"), base)
  {
    hide ConfigReadsBack, EditTakesEffect, Edit, Matches, ManagedKey, Sample, ReadsBack;
    var key := config[i].key;
    NoMatchTakesEffect(base, key);
    SampleNeeds(config, base, i, "");
    SampleNeeds(config, base, i, "x");
    SampleIsPlain(config, i, "");
    KeyIsLineKey(key);
    SampleIsEdit(config, base, i, "");
    var text := Edit(Sample(config, i, ""), base).0;
    if ReadsBack(text, key, "") && ReadsBack(text, key, "x") {
      SamplesNeedEffect(text, key);
    }
    SameEffectAfterEdits(Sample(config, i, ""), base, key);
  }

  /**
   * A set of keys is read back from a base with all one-line trimmed values exactly when the edit of every one of
   * them takes effect on that base.
   */
  lemma ConfigRoundTripExactly(config: seq<Setting>, base: string)
    requires ManagedConfig(config)
    ensures (forall d | PlainVariant(config, d) :: ConfigReadsBack(d, base)) <==> EditsTakeEffect(config, base)
  {
    hide ManagedKey, EditTakesEffect, ConfigReadsBack, OneLine, Trimmed, Sample;
    if EditsTakeEffect(config, base) {
      forall d | PlainVariant(config, d)
        ensures ConfigReadsBack(d, base)
      {
        PlainVariantReadsBack(config, d, base);
      }
    } else {
      var i :| 0 <= i < |config| && !EditTakesEffect(base, config[i].key);
      IneffectiveEditShows(config, base, i);
      SampleIsPlain(config, i, "");
      SampleIsPlain(config, i, "x");
    }
  }

  lemma PlainVariantReadsBack(config: seq<Setting>, d: seq<Setting>, base: string)
    requires ManagedConfig(config) && EditsTakeEffect(config, base) && PlainVariant(config, d)
    ensures ConfigReadsBack(d, base)
  {
    hide ManagedKey, EditTakesEffect, Undiverted, Parse, Render, AsMap, OneLine, Trimmed;
    OneLineValuesAreUndiverted(d, base);
    RenderReadsBackExactly(d, base);
  }

  // ---------------------------------------------------------------------------
  // Lines and their owners
  // ---------------------------------------------------------------------------

  /** The line opens, behind blank segments, with an assignment of `key`. */
  ghost predicate Opens(line: string, key: string) {
    exists u, w :: OpensAt(line, key, u, w)
  }

  ghost predicate OpensAt(line: string, key: string, u: string, w: string) {
    Blank(u) && (u == "" || IsLineTerminator(u[|u| - 1])) && line == u + key + "=" + w
  }

  lemma OpeningAssigns(line: string, key: string)
    requires ManagedKey(key) && Opens(line, key)
    ensures Assigns(line, key)
  {
    hide ParseLine, ManagedKey, Blank;
    var u, w :| OpensAt(line, key, u, w);
    assert line == u + (key + "=") + w;
    MatchedLineAssigns(u, key + "=", w, key);
  }

  lemma BlankTextHasNoMatch(s: string, key: string)
    requires Blank(s)
    ensures !Matches(s, key)
  {
    hide Segments, Terminators, Assemble, Blank, OneLine, Matches, AllTerminators;
    AssembleSegments(s);
    forall k | 0 <= k < |Segments(s)|
      ensures !Matches(Segments(s)[k], key)
    {
      BlankAssemble(Segments(s), Terminators(s), k);
      BlankHasNoMatch(Segments(s)[k], key);
    }
    NoMatchInAssembled(Segments(s), Terminators(s), key);
  }

  /** Up to the end of its opening segment a line matches no other key. */
  lemma OnlyOpeningKey(u: string, seg: string, key: string, other: string)
    requires Blank(u) && (u == "" || IsLineTerminator(u[|u| - 1])) && OneLine(seg) && StartsWith(seg, key + "=")
    requires LineKey(key) && LineKey(other) && key != other
    ensures !Matches(u + seg, other)
  {
    hide Matches, OneLine, IsLineTerminator, StartsWith, Blank;
    OneLineMatch(seg, other);
    if StartsWith(seg, other + "=") { OneKeyPerLine(seg, key, other); }
    if u == "" {
      assert u + seg == seg;
    } else {
      var n := |u| - 1;
      assert u == u[..n] + [u[n]] && u + seg == u[..n] + [u[n]] + seg;
      BlankConcat(u[..n], [u[n]], "");
      assert u[..n] + [u[n]] + "" == u;
      BlankTextHasNoMatch(u[..n], other);
      ReplaceAround(u[..n], u[n], seg, other, "");
    }
  }

  /** The edit of another key leaves the opening of a line in place. */
  lemma OpeningStays(line: string, key: string, other: string, x: string)
    requires ManagedKey(key) && ManagedKey(other) && key != other && Opens(line, key) && Matches(line, other)
    ensures Opens(ReplaceFirst(line, other, x), key)
  {
    hide Matches, ReplaceFirst, OneLine, IsLineTerminator, StartsWith, Blank, ManagedKey;
    KeyIsLineKey(key);
    KeyIsLineKey(other);
    var u, w :| OpensAt(line, key, u, w);
    var seg, c, rest := OpeningSegment(key, w);
    OnlyOpeningKey(u, seg, key, other);
    var y := key + "=" + w;
    assert line == u + y;
    assert y != seg;
    assert line == (u + seg) + [c] + rest;
    ReplaceAround(u + seg, c, rest, other, x);
    OpeningPrefix(seg, key);
    var w' := seg[|key| + 1..] + [c] + ReplaceFirst(rest, other, x);
    assert ReplaceFirst(line, other, x) == u + key + "=" + w';
    assert OpensAt(ReplaceFirst(line, other, x), key, u, w');
  }

  lemma OpeningPrefix(seg: string, key: string)
    requires StartsWith(seg, key + "=")
    ensures |seg| > |key| && seg == key + "=" + seg[|key| + 1..]
  {}

  lemma OpeningSegment(key: string, w: string) returns (seg: string, c: char, rest: string)
    requires LineKey(key)
    ensures OneLine(seg) && StartsWith(seg, key + "=")
    ensures key + "=" + w == seg || (IsLineTerminator(c) && key + "=" + w == seg + [c] + rest)
  {
    hide Segments;
    var y := key + "=" + w;
    seg, c, rest := FirstSegment(y);
    if y == seg {
      SegmentsOfOneLine(y);
    } else {
      SegmentsAtTerminator(seg, c, rest);
    }
    FirstSegmentStart(y, key + "=");
  }

  /** An effective edit opens its line with its own key. */
  lemma EditOpens(line: string, s: Setting)
    requires Matches(line, s.key) && StandsAlone(line, s.key)
    ensures Opens(ReplaceFirst(line, s.key, LineFor(s)), s.key)
  {
    hide Segments, Terminators, Escape, ReplaceFirst, IsLineTerminator, Before;
    ReplaceFirstAt(line, s.key, LineFor(s));
    AssembleSegments(line);
    BeforeIs(Segments(line), Terminators(line), FirstWith(Segments(line), s.key));
    var u, w := Left(line, s.key), Escape(s.value) + Right(line, s.key);
    assert ReplaceFirst(line, s.key, LineFor(s)) == u + s.key + "=" + w;
    assert OpensAt(ReplaceFirst(line, s.key, LineFor(s)), s.key, u, w);
  }

  lemma {:induction false} BeforeIs(segs: seq<string>, terms: string, i: nat)
    requires |segs| == |terms| + 1 && i < |segs| && AllTerminators(terms)
    ensures var u := Before(segs, terms, i); u == "" || IsLineTerminator(u[|u| - 1])
  {
    if i > 0 {
      BeforeIs(segs[1..], terms[1..], i - 1);
    }
  }

  /** Setting `q` has its first match in the base on line `n`, and the line opens with its key. */
  ghost predicate Owns(config: seq<Setting>, base: string, q: int, n: int, line: string) {
    0 <= q < |config| && MatchingLine(base, config[q].key) == n && Opens(line, config[q].key)
  }

  ghost predicate Owned(config: seq<Setting>, base: string, t: nat, except: int, n: int, line: string) {
    exists q | 0 <= q < t && q != except :: Owns(config, base, q, n, line)
  }

  /** Every line is the base's own or is owned by one of the first `t` settings, `except` aside. */
  ghost predicate Kept(config: seq<Setting>, base: string, t: nat, except: int, lines: seq<string>) {
    && |lines| == |Lines(base)|
    && forall n | 0 <= n < |lines| :: lines[n] == Lines(base)[n] || Owned(config, base, t, except, n, lines[n])
  }

  function TextAfter(config: seq<Setting>, base: string, t: nat): string
    requires t <= |config|
  {
    Edit(config[..t], base).0
  }

  lemma TextStep(config: seq<Setting>, base: string, t: nat)
    requires t < |config|
    ensures var text := TextAfter(config, base, t);
            TextAfter(config, base, t + 1) ==
            if Matches(text, config[t].key) then ReplaceFirst(text, config[t].key, LineFor(config[t])) else text
  {
    hide Matches, ReplaceFirst, LineFor;
    assert config[..t + 1][..t] == config[..t];
  }

  /** The line a later setting matches first in the base has not been touched. */
  lemma OwnLineStays(config: seq<Setting>, base: string, t: nat, except: int, lines: seq<string>, q: nat)
    requires ManagedConfig(config) && EditsTakeEffect(config, base)
    requires t <= q < |config| && Kept(config, base, t, except, lines)
    ensures var m := MatchingLine(base, config[q].key); m >= 0 ==> lines[m] == Lines(base)[m]
  {
    hide ManagedKey, Matches, StandsAlone, Split, Opens, NoneAssigns;
    var m := MatchingLine(base, config[q].key);
    if m >= 0 && lines[m] != Lines(base)[m] {
      var p :| 0 <= p < t && p != except && Owns(config, base, p, m, lines[m]);
      assert EditTakesEffect(base, config[p].key);
      KeyIsLineKey(config[p].key);
      KeyIsLineKey(config[q].key);
      OtherKeyNotOnLine(Lines(base)[m], config[p].key, config[q].key);
    }
  }

  /** One edit keeps the division, provided that `except` does not come to own its line. */
  lemma KeptStep(config: seq<Setting>, base: string, t: nat, except: int)
    requires ManagedConfig(config) && NewlineFree(config) && EditsTakeEffect(config, base) && t < |config|
    requires Kept(config, base, t, except, Lines(TextAfter(config, base, t)))
    requires t == except ==>
               MatchingLine(TextAfter(config, base, t), config[t].key) != MatchingLine(base, config[t].key)
    ensures Kept(config, base, t + 1, except, Lines(TextAfter(config, base, t + 1)))
  {
    hide ManagedKey, Matches, ReplaceFirst, LineFor, TextAfter, Split, Owns, EditTakesEffect;
    var s, text := config[t], TextAfter(config, base, t);
    var lines := Lines(text);
    TextStep(config, base, t);
    forall n | 0 <= n < |lines| && Owned(config, base, t, except, n, lines[n])
      ensures Owned(config, base, t + 1, except, n, lines[n])
    {}
    if Matches(text, s.key) {
      LineHasNoNewline(s);
      ReplaceOnLine(text, s.key, LineFor(s));
      var n := MatchingLine(text, s.key);
      EditedLineIsOwned(config, base, t, except, lines, n);
    }
  }

  lemma EditedLineIsOwned(config: seq<Setting>, base: string, t: nat, except: int, lines: seq<string>, n: nat)
    requires ManagedConfig(config) && EditsTakeEffect(config, base) && t < |config|
    requires Kept(config, base, t, except, lines) && n < |lines|
    requires FirstMatching(lines, config[t].key) == n
    requires t == except ==> n != MatchingLine(base, config[t].key)
    ensures Owned(config, base, t + 1, except, n, ReplaceFirst(lines[n], config[t].key, LineFor(config[t])))
  {
    hide ManagedKey, Matches, ReplaceFirst, LineFor, Split, StandsAlone, Opens, NoneAssigns;
    var s := config[t];
    var line' := ReplaceFirst(lines[n], s.key, LineFor(s));
    if lines[n] == Lines(base)[n] {
      var m := MatchingLine(base, s.key);
      OwnLineStays(config, base, t, except, lines, t);
      assert m == n;
      assert EditTakesEffect(base, s.key);
      EditOpens(lines[n], s);
      assert Owns(config, base, t, n, line');
    } else {
      var q :| 0 <= q < t && q != except && Owns(config, base, q, n, lines[n]);
      OpeningStays(lines[n], config[q].key, s.key, LineFor(s));
      assert Owns(config, base, q, n, line');
    }
  }

  lemma {:induction false} AllKept(config: seq<Setting>, base: string, t: nat)
    requires ManagedConfig(config) && NewlineFree(config) && EditsTakeEffect(config, base) && t <= |config|
    ensures Kept(config, base, t, -1, Lines(TextAfter(config, base, t)))
  {
    hide ManagedKey, EditTakesEffect, Split, Owned, Matches, ReplaceFirst, LineFor;
    if t == 0 {
      assert config[..0] == [];
    } else {
      AllKept(config, base, t - 1);
      KeptStep(config, base, t - 1, -1);
    }
  }

  // ---------------------------------------------------------------------------
  // Caught edits
  // ---------------------------------------------------------------------------

  /** Some value written earlier catches the edit of setting `j`. */
  ghost predicate Caught(config: seq<Setting>, base: string, j: nat)
    requires j < |config|
  {
    exists i | 0 <= i < j :: !LeavesAlone(base, config[i], config[j].key)
  }

  /** The first match of a key never moves down while others are edited. */
  lemma FirstMatchFalls(text: string, s: Setting, key: string)
    requires ManagedKey(s.key) && ManagedKey(key) && s.key != key && '\n' !in s.value && Matches(text, s.key)
    requires MatchingLine(text, key) >= 0
    ensures 0 <= MatchingLine(ReplaceFirst(text, s.key, LineFor(s)), key) <= MatchingLine(text, key)
  {
    hide ManagedKey, Matches, ReplaceFirst, LineFor, Split;
    KeyIsLineKey(s.key);
    KeyIsLineKey(key);
    LineHasNoNewline(s);
    ReplaceOnLine(text, s.key, LineFor(s));
    var lines, n, m := Lines(text), MatchingLine(text, s.key), MatchingLine(text, key);
    if n == m {
      MatchStays(lines[n], s.key, LineFor(s), key);
    }
    var edited := Lines(ReplaceFirst(text, s.key, LineFor(s)));
    assert Matches(edited[m], key);
  }

  /** What an edit writes lies no lower than the line its key matches first in the base. */
  lemma WrittenEarly(config: seq<Setting>, base: string, i: nat)
    requires ManagedConfig(config) && NewlineFree(config) && EditsTakeEffect(config, base) && i < |config|
    requires Matches(base, config[i].key)
    ensures 0 <= MatchingLine(TextAfter(config, base, i), config[i].key) <= MatchingLine(base, config[i].key)
  {
    hide ManagedKey, Matches, EditTakesEffect, TextAfter, Split;
    AllKept(config, base, i);
    var lines := Lines(TextAfter(config, base, i));
    ReplaceOnLine(base, config[i].key, "");
    OwnLineStays(config, base, i, -1, lines, i);
    assert Matches(lines[MatchingLine(base, config[i].key)], config[i].key);
  }

  /** From the catching edit on, the caught key matches no lower than the catching one does in the base. */
  lemma {:induction false} CatchStays(config: seq<Setting>, base: string, i: nat, j: nat, t: nat)
    requires ManagedConfig(config) && NewlineFree(config) && EditsTakeEffect(config, base)
    requires i < t <= j < |config| && !LeavesAlone(base, config[i], config[j].key)
    ensures 0 <= MatchingLine(TextAfter(config, base, t), config[j].key) <= MatchingLine(base, config[i].key)
  {
    hide ManagedKey, Matches, EditTakesEffect, TextAfter, Split, ReplaceFirst, LineFor;
    var key, s := config[j].key, config[t - 1];
    var text := TextAfter(config, base, t - 1);
    TextStep(config, base, t - 1);
    if t == i + 1 {
      WrittenEarly(config, base, i);
      ReplaceOnLine(text, s.key, "");
      LineHasNoNewline(s);
      ReplaceOnLine(text, s.key, LineFor(s));
      var n := MatchingLine(text, s.key);
      MatchStays(Lines(text)[n], s.key, LineFor(s), key);
      assert Matches(Lines(TextAfter(config, base, t))[n], key);
    } else {
      CatchStays(config, base, i, j, t - 1);
      if Matches(text, s.key) {
        FirstMatchFalls(text, s, key);
      }
    }
  }

  /** A caught edit goes elsewhere than to the line of its key in the base. */
  lemma CaughtElsewhere(config: seq<Setting>, base: string, j: nat)
    requires ManagedConfig(config) && NewlineFree(config) && EditsTakeEffect(config, base)
    requires j < |config| && Caught(config, base, j)
    ensures Matches(TextAfter(config, base, j), config[j].key)
    ensures MatchingLine(TextAfter(config, base, j), config[j].key) != MatchingLine(base, config[j].key)
  {
    hide ManagedKey, Matches, TextAfter, Split, LineFor, StandsAlone, NoneAssigns;
    var i :| 0 <= i < j && !LeavesAlone(base, config[i], config[j].key);
    CatchStays(config, base, i, j, j);
    ReplaceOnLine(TextAfter(config, base, j), config[j].key, "");
    var n, m := MatchingLine(base, config[i].key), MatchingLine(base, config[j].key);
    if m == n {
      assert EditTakesEffect(base, config[i].key);
      KeyIsLineKey(config[i].key);
      KeyIsLineKey(config[j].key);
      OtherKeyNotOnLine(Lines(base)[n], config[i].key, config[j].key);
    }
  }

  lemma {:induction false} KeptButCaught(config: seq<Setting>, base: string, t: nat, j: nat)
    requires ManagedConfig(config) && NewlineFree(config) && EditsTakeEffect(config, base) && t <= |config|
    requires j < |config| && Caught(config, base, j)
    ensures Kept(config, base, t, j, Lines(TextAfter(config, base, t)))
  {
    hide ManagedKey, EditTakesEffect, Split, Owned, Matches, ReplaceFirst, LineFor, Caught;
    if t == 0 {
      assert config[..0] == [];
    } else {
      KeptButCaught(config, base, t - 1, j);
      if t - 1 == j { CaughtElsewhere(config, base, j); }
      KeptStep(config, base, t - 1, j);
    }
  }

  /** Lines that differ only where neither assigns a key read alike at that key. */
  lemma {:induction false} SameReading(a: seq<string>, b: seq<string>, key: string)
    requires |a| == |b|
    requires forall n | 0 <= n < |a| :: a[n] == b[n] || (!Assigns(a[n], key) && !Assigns(b[n], key))
    ensures SameAt(ParseLines(a), ParseLines(b), key)
  {
    hide ParseLine;
    if a != [] {
      var n := |a| - 1;
      SameReading(a[..n], b[..n], key);
      assert a[n] == b[n] || (!Assigns(a[n], key) && !Assigns(b[n], key));
    }
  }

  /** A caught edit does not reach the parser: its key reads as it did in the base. */
  lemma CaughtEditIsNotRead(config: seq<Setting>, base: string, j: nat)
    requires ManagedConfig(config) && NewlineFree(config) && EditsTakeEffect(config, base)
    requires j < |config| && Caught(config, base, j)
    ensures SameAt(Parse(Render(config, base)), Parse(base), config[j].key)
  {
    hide ManagedKey, Matches, TextAfter, Split, LineFor, StandsAlone, Caught, ParseLines, ParseLine, Render, Opens,
      NoneAssigns, Trim;
    var key, last := config[j].key, |config|;
    assert config[..last] == config;
    CaughtElsewhere(config, base, j);
    KeptButCaught(config, base, last, j);
    var lines := Lines(TextAfter(config, base, last));
    forall n | 0 <= n < |lines| && lines[n] != Lines(base)[n]
      ensures !Assigns(lines[n], key) && !Assigns(Lines(base)[n], key)
    {
      var q :| 0 <= q < last && q != j && Owns(config, base, q, n, lines[n]);
      OpeningAssigns(lines[n], config[q].key);
      assert EditTakesEffect(base, config[q].key);
      EditedLineReads(Lines(base)[n], config[q]);
    }
    SameReading(lines, Lines(base), key);
    assert TextAfter(config, base, j) == Edit(config[..j], base).0 by { TextAfterIs(config, base, j); }
    assert TextAfter(config, base, last) == Edit(config, base).0 by { TextAfterIs(config, base, last); }
    ReadFromText(config, base, j);
  }

  lemma TextAfterIs(config: seq<Setting>, base: string, t: nat)
    requires t <= |config|
    ensures TextAfter(config, base, t) == Edit(config[..t], base).0
  {}

  ghost predicate ReadsAlready(base: string, s: Setting) {
    s.key in Parse(base) && Parse(base)[s.key] == s.value
  }

  /**
   * Where every edit takes effect alone, a configuration of readable values that each change something is read back
   * exactly when no value catches a later edit.
   */
  lemma UndivertedExactly(config: seq<Setting>, base: string)
    requires ManagedConfig(config) && EditsTakeEffect(config, base)
    requires forall i | 0 <= i < |config| :: Readable(config[i].value) && !ReadsAlready(base, config[i])
    ensures ConfigReadsBack(config, base) <==> Undiverted(config, base)
  {
    hide ManagedKey, EditTakesEffect, LeavesAlone, Parse, Render, AsMap, Trimmed;
    if Undiverted(config, base) {
      RenderReadsBackExactly(config, base);
    } else {
      var i, j :| 0 <= i < j < |config| && !LeavesAlone(base, config[i], config[j].key);
      assert NewlineFree(config);
      assert Caught(config, base, j);
      CaughtEditIsNotRead(config, base, j);
      AsReadAt(config, j);
      assert !ReadsAlready(base, config[j]);
    }
  }
}
