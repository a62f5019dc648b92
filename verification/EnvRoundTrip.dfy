/** Reading back what was rendered: the round trip, and exactly when it succeeds. */
module EnvRoundTrip {
  import opened Text
  import opened EnvFile
  import opened EnvEdits
  import opened EnvLines

  // ---------------------------------------------------------------------------
  // The whole configuration
  // ---------------------------------------------------------------------------

  ghost predicate ManagedConfig(config: seq<Setting>) {
    DistinctKeys(config) && forall i | 0 <= i < |config| :: ManagedKey(config[i].key)
  }

  ghost predicate NewlineFree(config: seq<Setting>) {
    forall i | 0 <= i < |config| :: '\n' !in config[i].value
  }

  ghost predicate EditsTakeEffect(config: seq<Setting>, text: string) {
    forall i | 0 <= i < |config| :: EditTakesEffect(text, config[i].key)
  }

  /** No value written earlier catches the edit of a later key. */
  ghost predicate Undiverted(config: seq<Setting>, text: string) {
    forall i, j | 0 <= i < j < |config| :: LeavesAlone(text, config[i], config[j].key)
  }

  /** One-line values never do. */
  lemma OneLineValuesAreUndiverted(config: seq<Setting>, text: string)
    requires ManagedConfig(config) && forall i | 0 <= i < |config| :: OneLine(config[i].value)
    ensures NewlineFree(config) && Undiverted(config, text)
  {
    hide Segments, Matches, LineFor, OneLine, EditTakesEffect;
    forall i | 0 <= i < |config|
      ensures '\n' !in config[i].value
    {
      NewlineTerminates();
      assert OneLine(config[i].value);
      OneLineHasNoNewline(config[i].value);
    }
    forall i, j | 0 <= i < j < |config|
      ensures LeavesAlone(text, config[i], config[j].key)
    {
      LineForIsOneLine(config[i]);
      OneLineMatch(LineFor(config[i]), config[j].key);
      if StartsWith(LineFor(config[i]), config[j].key + "=") {
        OneKeyPerLine(LineFor(config[i]), config[i].key, config[j].key);
      }
    }
  }

  lemma OneLineHasNoNewline(s: string)
    requires OneLine(s)
    ensures '\n' !in s
  {
    NewlineTerminates();
  }

  /** The configuration as a map. */
  function AsMap(config: seq<Setting>): map<string, string> {
    if config == [] then map[]
    else
      var s := config[|config| - 1];
      AsMap(config[..|config| - 1])[s.key := s.value]
  }

  /** The configuration as the parser reads it back: margins are lost. */
  function AsRead(config: seq<Setting>): map<string, string> {
    if config == [] then map[]
    else
      var s := config[|config| - 1];
      AsRead(config[..|config| - 1])[s.key := Trim(s.value)]
  }

  lemma {:induction false} AsReadKeys(config: seq<Setting>, key: string)
    ensures key in AsRead(config) <==> exists i | 0 <= i < |config| :: config[i].key == key
  {
    hide Trim;
    if config != [] {
      AsReadKeys(config[..|config| - 1], key);
    }
  }

  /** The two maps differ exactly in the margins of the values. */
  lemma {:induction false} AsReadAt(config: seq<Setting>, i: nat)
    requires DistinctKeys(config) && i < |config|
    ensures var key := config[i].key;
            && key in AsRead(config) && AsRead(config)[key] == Trim(config[i].value)
            && key in AsMap(config) && AsMap(config)[key] == config[i].value
  {
    hide Trim;
    var n := |config| - 1;
    if i < n {
      AsReadAt(config[..n], i);
    }
  }

  lemma {:induction false} TrimmedReadsAsMap(config: seq<Setting>)
    requires forall i | 0 <= i < |config| :: Trimmed(config[i].value)
    ensures AsRead(config) == AsMap(config)
  {
    hide Trim, Trimmed;
    if config != [] {
      TrimmedReadsAsMap(config[..|config| - 1]);
      TrimOfTrimmed(config[|config| - 1].value);
    }
  }

  lemma {:induction false} ParseLinesConcat(a: seq<string>, b: seq<string>)
    ensures ParseLines(a + b) == ParseLines(a) + ParseLines(b)
  {
    hide ParseLine;
    if b == [] {
      assert a + b == a;
    } else {
      var n := |b| - 1;
      assert (a + b)[..|a + b| - 1] == a + b[..n];
      ParseLinesConcat(a, b[..n]);
    }
  }

  lemma {:induction false} EditKeepsEffective(config: seq<Setting>, base: string, other: string)
    requires ManagedConfig(config) && NewlineFree(config) && EditsTakeEffect(config, base) && Undiverted(config, base)
    requires ManagedKey(other) && forall i | 0 <= i < |config| :: config[i].key != other
    requires forall i | 0 <= i < |config| :: LeavesAlone(base, config[i], other)
    ensures MatchingLine(Edit(config, base).0, other) == MatchingLine(base, other)
    ensures EditTakesEffect(base, other) ==> EditTakesEffect(Edit(config, base).0, other)
  {
    hide EditTakesEffect, LineFor, ManagedKey, Matches, Lines;
    if config != [] {
      var n := |config| - 1;
      var s := config[n];
      var text := Edit(config[..n], base).0;
      EditKeepsEffective(config[..n], base, other);
      EditKeepsEffective(config[..n], base, s.key);
      SameMatch(base, text, s.key);
      if Matches(text, s.key) {
        EditKeepsOthersEffective(text, s, other);
      }
    }
  }

  lemma SameMatch(a: string, b: string, key: string)
    requires MatchingLine(a, key) == MatchingLine(b, key)
    ensures Matches(a, key) <==> Matches(b, key)
  {
    hide Matches;
    ReplaceOnLine(a, key, "");
    ReplaceOnLine(b, key, "");
  }

  lemma OverrideCommutes(a: map<string, string>, b: map<string, string>, key: string, value: string)
    requires key !in b
    ensures a[key := value] + b == (a + b)[key := value]
  {}

  lemma OverrideLast(a: map<string, string>, b: map<string, string>, key: string, value: string)
    ensures a + b[key := value] == (a + b)[key := value]
  {}

  lemma {:induction false} EditParses(config: seq<Setting>, base: string)
    requires ManagedConfig(config) && NewlineFree(config) && EditsTakeEffect(config, base) && Undiverted(config, base)
    ensures var (text, appended) := Edit(config, base);
            && Parse(text) + ParseLines(appended) == Parse(base) + AsRead(config)
            && forall key | key in ParseLines(appended) :: key in AsRead(config)
  {
    hide EditTakesEffect, LineFor, ManagedKey, ParseLine, Parse, ReplaceFirst, Trim, Matches, LeavesAlone;
    if config != [] {
      var n := |config| - 1;
      var s := config[n];
      EditParses(config[..n], base);
      EditKeepsEffective(config[..n], base, s.key);
      AsReadKeys(config[..n], s.key);
      var (text, appended) := Edit(config[..n], base);
      if Matches(text, s.key) {
        EditOnce(text, s);
        OverrideCommutes(Parse(text), ParseLines(appended), s.key, Trim(s.value));
        OverrideLast(Parse(base), AsRead(config[..n]), s.key, Trim(s.value));
      } else {
        OverrideLast(Parse(text), ParseLines(appended), s.key, Trim(s.value));
        OverrideLast(Parse(base), AsRead(config[..n]), s.key, Trim(s.value));
        assert "" + LineFor(s) + "" == LineFor(s);
        assert s == Setting(s.key, s.value);
        ParseEditedLine("", s.key, s.value, "");
        assert (appended + [LineFor(s)])[..|appended|] == appended;
      }
    }
  }

  lemma {:induction false} AppendedHaveNoNewline(config: seq<Setting>, base: string)
    requires ManagedConfig(config) && NewlineFree(config)
    ensures forall k | 0 <= k < |Edit(config, base).1| :: '\n' !in Edit(config, base).1[k]
  {
    hide LineFor, Matches, ManagedKey;
    if config != [] {
      var n := |config| - 1;
      AppendedHaveNoNewline(config[..n], base);
      LineHasNoNewline(config[n]);
      var appended, all := Edit(config[..n], base).1, Edit(config, base).1;
      assert all == appended || all == appended + [LineFor(config[n])];
      forall k | 0 <= k < |all|
        ensures '\n' !in all[k]
      {
        if k < |appended| {
          assert '\n' !in appended[k];
          assert all[k] == appended[k];
        } else {
          assert '\n' !in LineFor(config[n]);
          assert all[k] == LineFor(config[n]);
        }
      }
    }
  }

  lemma SplitOfAppended(lines: seq<string>)
    requires lines != [] && forall k | 0 <= k < |lines| :: '\n' !in lines[k]
    ensures Split(Join(lines, '\n') + "\n", '\n') == lines + [""]
  {
    SplitOfJoin(lines, '\n');
    SplitOfFinalNewline(Join(lines, '\n'));
  }

  lemma ParseOfBridge(text: string) returns (kept: seq<string>)
    ensures Split(Bridge(text), '\n') == kept + [""] && ParseLines(kept) == Parse(text)
  {
    hide Trim, ParseLines, Split;
    BlankLineParses();
    if text == "" {
      kept := [];
      SplitWithoutSeparator("", '\n');
      NothingParses();
    } else {
      var body := BridgeBody(text);
      SplitOfFinalNewline(body);
      kept := Split(body, '\n');
      ParseLinesConcat(kept, [""]);
    }
  }

  lemma BlankLineParses()
    ensures ParseLines([""]) == map[]
  {
    assert [""][..0] == [];
  }

  lemma SplitOfAppend(text: string, lines: seq<string>) returns (kept: seq<string>)
    requires lines != [] && forall k | 0 <= k < |lines| :: '\n' !in lines[k]
    ensures Split(Append(text, lines), '\n') == kept + lines + [""]
    ensures ParseLines(kept) == Parse(text)
  {
    hide Split, ParseLines, Parse;
    var front, back := Bridge(text), Join(lines, '\n') + "\n";
    assert Append(text, lines) == front + back;
    SplitOfConcat(front, back, '\n');
    SplitOfAppended(lines);
    kept := ParseOfBridge(text);
    GlueAfterEmpty(kept, lines + [""]);
    assert kept + (lines + [""]) == kept + lines + [""];
  }

  lemma ParseOfAppend(text: string, lines: seq<string>)
    requires forall k | 0 <= k < |lines| :: '\n' !in lines[k]
    ensures Parse(Append(text, lines)) == Parse(text) + ParseLines(lines)
  {
    hide Split, ParseLines, ParseLine, Append;
    if lines == [] {
      AppendNothing(text);
      assert ParseLines([]) == map[] by { NothingParses(); }
    } else {
      var kept := SplitOfAppend(text, lines);
      ParseLinesConcat(kept + lines, [""]);
      ParseLinesConcat(kept, lines);
      BlankLineParses();
    }
  }

  lemma NothingParses()
    ensures ParseLines([]) == map[]
  {}

  /**
   * The round trip: reading back a render yields the base overridden by the configuration -- values without their
   * margins -- whenever every edit takes effect on the base and no value catches a later edit.
   */
  lemma ParseOfRender(config: seq<Setting>, base: string)
    requires ManagedConfig(config) && NewlineFree(config) && EditsTakeEffect(config, base) && Undiverted(config, base)
    ensures Parse(Render(config, base)) == Parse(base) + AsRead(config)
  {
    hide ManagedConfig, NewlineFree, Undiverted, EditsTakeEffect, Edit, Parse, ParseLines, Append, Trim;
    EditParses(config, base);
    AppendedHaveNoNewline(config, base);
    var (text, appended) := Edit(config, base);
    ParseOfAppend(text, appended);
  }

  /** ... so the configuration itself is read back exactly when all its values are readable. */
  lemma RenderReadsBackExactly(config: seq<Setting>, base: string)
    requires ManagedConfig(config) && EditsTakeEffect(config, base) && Undiverted(config, base)
    ensures Parse(Render(config, base)) == Parse(base) + AsMap(config) <==>
            forall i | 0 <= i < |config| :: Readable(config[i].value)
  {
    hide ManagedKey, EditsTakeEffect, Undiverted, Parse, Render, AsMap, AsRead, Trimmed;
    var out := Parse(Render(config, base));
    forall i | 0 <= i < |config|
      ensures out == Parse(base) + AsMap(config) ==> '\n' !in config[i].value
    {
      AsReadAt(config, i);
      if out == Parse(base) + AsMap(config) {
        assert out[config[i].key] == config[i].value;
        OutputHasNoNewline(Render(config, base), config[i].key);
      }
    }
    if NewlineFree(config) {
      ParseOfRender(config, base);
      if out == Parse(base) + AsMap(config) {
        forall i | 0 <= i < |config|
          ensures Readable(config[i].value)
        {
          AsReadAt(config, i);
          assert (Parse(base) + AsRead(config))[config[i].key] == Trim(config[i].value);
          assert (Parse(base) + AsMap(config))[config[i].key] == config[i].value;
        }
      } else if forall i | 0 <= i < |config| :: Readable(config[i].value) {
        assert forall i | 0 <= i < |config| :: Readable(config[i].value) ==> Trimmed(config[i].value);
        TrimmedReadsAsMap(config);
      }
    }
  }

  /** The values the format can express: trimmed, and without a newline. */
  predicate Readable(value: string) { Trimmed(value) && '\n' !in value }

  lemma {:induction false} UnescapeKeepsNewlineFree(value: string)
    requires '\n' !in value
    ensures '\n' !in Unescape(value)
    decreases |value|
  {
    if |value| >= 2 && value[0] == '$' && value[1] == '$' {
      UnescapeKeepsNewlineFree(value[2..]);
    } else if value != "" {
      UnescapeKeepsNewlineFree(value[1..]);
    }
  }

  lemma TrimKeepsNewlineFree(s: string)
    requires '\n' !in s
    ensures '\n' !in Trim(s)
  {
    hide Trim, Blank;
    var u, w := TrimDecomposes(s);
    assert forall i | 0 <= i < |Trim(s)| :: Trim(s)[i] == s[|u| + i];
  }

  lemma ParsedValueHasNoNewline(raw: string)
    requires '\n' !in raw && ParseLine(raw).Some?
    ensures '\n' !in ParseLine(raw).value.value
  {
    hide Trim, Unescape, IndexOf;
    TrimKeepsNewlineFree(raw);
    var line := Trim(raw);
    var rest := line[IndexOf(line, '=') + 1..];
    TrimKeepsNewlineFree(rest);
    UnescapeKeepsNewlineFree(Trim(rest));
  }

  lemma {:induction false} ParsedValuesHaveNoNewline(lines: seq<string>, key: string)
    requires forall k | 0 <= k < |lines| :: '\n' !in lines[k]
    requires key in ParseLines(lines)
    ensures '\n' !in ParseLines(lines)[key]
  {
    hide ParseLine;
    var n := |lines| - 1;
    if Assigns(lines[n], key) {
      ParsedValueHasNoNewline(lines[n]);
    } else {
      ParsedValuesHaveNoNewline(lines[..n], key);
    }
  }

  lemma OutputHasNoNewline(text: string, key: string)
    requires key in Parse(text)
    ensures '\n' !in Parse(text)[key]
  {
    hide Split, ParseLines;
    SplitPieces(text, '\n');
    ParsedValuesHaveNoNewline(Split(text, '\n'), key);
  }

  // ---------------------------------------------------------------------------
  // Exactly when a rendered value is read back
  // ---------------------------------------------------------------------------

  ghost predicate ReadsBack(base: string, key: string, value: string) {
    var out := Parse(Render([Setting(key, value)], base));
    key in out && out[key] == value
  }

  /** The last assignment decides. */
  lemma {:induction false} LastAssignmentDecides(lines: seq<string>, m: nat, key: string)
    requires m < |lines| && Assigns(lines[m], key) && NoneAssigns(lines, m + 1, key)
    ensures key in ParseLines(lines) && ParseLines(lines)[key] == ParseLine(lines[m]).value.value
  {
    hide ParseLine;
    var n := |lines| - 1;
    if m < n {
      assert !Assigns(lines[n], key);
      LastAssignmentDecides(lines[..n], m, key);
    }
  }

  /** What precedes the first `=` of an edited raw line. */
  function BeforeEquals(u: string, key: string): string {
    if '=' in u then u[..IndexOf(u, '=')] else u + key
  }

  lemma FirstEquals(u: string, key: string, rest: string) returns (rest': string)
    requires '=' !in key
    ensures u + key + "=" + rest == BeforeEquals(u, key) + "=" + rest' && '=' !in BeforeEquals(u, key)
    ensures if '=' in u then rest' == u[|BeforeEquals(u, key)| + 1..] + key + "=" + rest else rest' == rest
  {
    rest' := rest;
    if '=' in u {
      var e := IndexOf(u, '=');
      rest' := u[e + 1..] + key + "=" + rest;
      assert u == u[..e] + "=" + u[e + 1..];
    }
  }

  /** Which key a line that carries an assignment at `u` assigns does not depend on what follows the equals sign. */
  lemma AssignsSameKey(u: string, key: string, rest: string, rest2: string, asked: string)
    requires '=' !in key
    ensures Assigns(u + key + "=" + rest, asked) <==> Assigns(u + key + "=" + rest2, asked)
  {
    hide ParseLine, Trim, TrimLeft, Unescape, BeforeEquals;
    var r := FirstEquals(u, key, rest);
    var r2 := FirstEquals(u, key, rest2);
    ParseLineAt(BeforeEquals(u, key), r);
    ParseLineAt(BeforeEquals(u, key), r2);
  }

  lemma EqualsIsNotBlank(a: string, w: string)
    ensures !Blank(a + "=" + w)
  {
    assert (a + "=" + w)[|a|] == '=';
  }

  /** Writing the empty value reads back empty only between blank margins. */
  lemma EmptyValueNeedsBlankMargins(u: string, key: string, w: string)
    requires ManagedKey(key) && ParseLine(u + key + "=" + w) == Some(Setting(key, ""))
    ensures Blank(u) && Blank(w)
  {
    hide ParseLine, TrimLeft, TrimRight, Trim;
    var rest := FirstEquals(u, key, w);
    ParseLineAt(BeforeEquals(u, key), rest);
    assert Trim(rest) == "" by { assert Trim(rest) != "" ==> Unescape(Trim(rest)) != ""; }
    TrimIsBlank(rest);
    if '=' in u {
      EqualsIsNotBlank(u[|BeforeEquals(u, key)| + 1..] + key, w);
    } else {
      KeyMarginIsBlank(u, key);
    }
  }

  lemma KeyMarginIsBlank(u: string, key: string)
    requires ManagedKey(key) && Trim(u + key) == key
    ensures Blank(u)
  {
    hide TrimRight, TrimLeft;
    var s := u + key;
    var left := TrimLeft(s);
    var margin := LeftMargin(s);
    assert left != "" by { assert TrimRight("") == "" by { TrimOfBlank(""); } }
    assert left[|left| - 1] == s[|s| - 1] == key[|key| - 1];
    TrimRightOfPadded(left, "");
    assert left + "" == left;
    assert margin == u by { assert s[..|margin|] == margin && s[..|u|] == u; }
  }

  /** What the parser sees after a single edit in place. */
  lemma ParseOfRenderOne(base: string, s: Setting)
    requires ManagedKey(s.key) && '\n' !in s.value && Matches(base, s.key)
    ensures var n := MatchingLine(base, s.key);
            && n >= 0
            && var line := Lines(base)[n];
               Parse(Render([s], base)) ==
               ParseLines(Lines(base)[n := Left(line, s.key) + LineFor(s) + Right(line, s.key)])
  {
    hide Matches, LineFor, Split, ParseLines, Render, ReplaceFirst, Left, Right, ManagedKey, Matched;
    RenderMatched(s, base);
    LineHasNoNewline(s);
    ReplaceOnLine(base, s.key, LineFor(s));
    ReplaceFirstAt(Lines(base)[MatchingLine(base, s.key)], s.key, LineFor(s));
  }

  lemma EscapedSamples()
    ensures Escape("") == "" && Escape("x") == "x" && Readable("") && Readable("x")
  {}

  /** If both sample values read back, the edit was effective. */
  lemma SamplesNeedEffect(base: string, key: string)
    requires ManagedKey(key) && Matches(base, key)
    requires ReadsBack(base, key, "") && ReadsBack(base, key, "x")
    ensures EditTakesEffect(base, key)
  {
    hide Matches, Left, Right, Lines, ParseLines, ParseLine, Render, Parse, Trim, Escape, Blank;
    EscapedSamples();
    var e, x := Setting(key, ""), Setting(key, "x");
    ParseOfRenderOne(base, e);
    ParseOfRenderOne(base, x);
    var lines, n := Lines(base), MatchingLine(base, key);
    var u, w := Left(lines[n], key), Right(lines[n], key);
    var le, lx := u + LineFor(e) + w, u + LineFor(x) + w;
    assert le == u + key + "=" + w && lx == u + key + "=" + ("x" + w);
    AssignsSameKey(u, key, w, "x" + w, key);
    assert NoneAssigns(lines, n + 1, key) && Assigns(le, key) by {
      if !NoneAssigns(lines, n + 1, key) || !Assigns(le, key) {
        LineHasNoSay(lines, n, le, lx, key);
      }
    }
    LastAssignmentDecides(lines[n := le], n, key);
    EmptyValueNeedsBlankMargins(u, key, w);
  }

  /** A value without a newline comes back without its margins. */
  lemma NewlineFreeValueReads(base: string, s: Setting)
    requires ManagedKey(s.key) && EditTakesEffect(base, s.key) && '\n' !in s.value
    ensures Parse(Render([s], base)) == Parse(base)[s.key := Trim(s.value)]
  {
    hide EditTakesEffect, Parse, Render, Trim, LineFor, Matches;
    assert AsRead([s]) == map[s.key := Trim(s.value)] by { assert [s][..0] == []; }
    ParseOfRender([s], base);
  }

  /** On a base where the edit takes effect, exactly the readable values are read back. */
  lemma ValueReadsBackExactly(base: string, key: string, value: string)
    requires ManagedKey(key) && EditTakesEffect(base, key)
    ensures ReadsBack(base, key, value) <==> Readable(value)
  {
    hide EditTakesEffect, ParseLines, Split, Render, Trim, Trimmed, ManagedKey;
    if '\n' in value {
      if ReadsBack(base, key, value) {
        var text := Render([Setting(key, value)], base);
        SplitPieces(text, '\n');
        ParsedValuesHaveNoNewline(Split(text, '\n'), key);
      }
    } else {
      NewlineFreeValueReads(base, Setting(key, value));
      if Trimmed(value) { TrimOfTrimmed(value); }
    }
  }

  /**
   * Every readable value of a key is read back exactly when no line of the base matches the key, or the first
   * matching one stands alone on its raw line and no later raw line assigns the key.
   */
  lemma RoundTripExactly(base: string, key: string)
    requires ManagedKey(key)
    ensures (forall value | Readable(value) :: ReadsBack(base, key, value)) <==> EditTakesEffect(base, key)
  {
    hide Parse, Render, Readable, EditTakesEffect, ReadsBack;
    if EditTakesEffect(base, key) {
      forall value | Readable(value)
        ensures ReadsBack(base, key, value)
      {
        ValueReadsBackExactly(base, key, value);
      }
    } else {
      EscapedSamples();
      assert Matches(base, key) by { NoMatchTakesEffect(base, key); }
      if ReadsBack(base, key, "") && ReadsBack(base, key, "x") {
        SamplesNeedEffect(base, key);
      }
    }
  }

  lemma NoMatchTakesEffect(base: string, key: string)
    ensures !Matches(base, key) ==> EditTakesEffect(base, key)
  {
    hide Matches;
    ReplaceOnLine(base, key, "");
  }

  /** In a base whose only line terminator is `\n`, one assigning line per key is enough. */
  lemma OneAssignmentTakesEffect(base: string, key: string)
    requires ManagedKey(key)
    requires forall i | 0 <= i < |base| && IsLineTerminator(base[i]) :: base[i] == '\n'
    requires forall m, n | 0 <= m < n < |Split(base, '\n')| ::
               !(Assigns(Split(base, '\n')[m], key) && Assigns(Split(base, '\n')[n], key))
    ensures EditTakesEffect(base, key)
  {
    hide Matches, Left, Right, Matched, ParseLine, Split;
    var n := MatchingLine(base, key);
    if n >= 0 {
      var line := Lines(base)[n];
      LinesAreOneLine(base, n);
      LineStandsAlone(line, key);
      ReplaceFirstAt(line, key, "");
      MatchedLineAssigns(Left(line, key), Matched(line, key), Right(line, key), key);
    }
  }

  lemma {:induction false} LinesAreOneLine(text: string, n: nat)
    requires forall i | 0 <= i < |text| && IsLineTerminator(text[i]) :: text[i] == '\n'
    requires n < |Lines(text)|
    ensures OneLine(Lines(text)[n])
    decreases |text|
  {
    hide Split, IsLineTerminator;
    var i := IndexOf(text, '\n');
    if i < 0 {
      SplitWithoutSeparator(text, '\n');
    } else {
      var a, b := text[..i], text[i + 1..];
      assert text == a + ['\n'] + b;
      SplitAtSeparator(a, '\n', b);
      assert forall k | 0 <= k < |b| :: b[k] == text[i + 1 + k];
      if n > 0 { LinesAreOneLine(b, n - 1); }
    }
  }

  lemma LineStandsAlone(line: string, key: string)
    requires OneLine(line) && Matches(line, key)
    ensures StandsAlone(line, key)
  {
    SegmentsOfOneLine(line);
  }

  // ---------------------------------------------------------------------------
  // Edits that are not read back
  // ---------------------------------------------------------------------------

  /** A key assigned twice: the first line is rewritten, the second one is read. */
  lemma SecondAssignmentWins(value: string)
    requires Readable(value) && value != "b"
    ensures !ReadsBack("K=a\nK=b", "K", value) && !EditTakesEffect("K=a\nK=b", "K")
  {
    hide Split, Matches, ParseLine, Escape, Trimmed, Trim, Render, ParseLines, Left, Right;
    var base := "K=a\nK=b";
    TwoLines("K=a", "K=b");
    assert base == "K=a" + "\n" + "K=b";
    OneLineMatch("K=a", "K");
    OneLineMatch("K=b", "K");
    SampleWords();
    ParseEditedLine("", "K", "b", "");
    assert "" + LineFor(Setting("K", "b")) + "" == "K=b";
    TrimOfTrimmed("b");
    assert ParseLine("K=b") == Some(Setting("K", "b"));
    ReplaceOnLine(base, "K", "");
    var s := Setting("K", value);
    ParseOfRenderOne(base, s);
    var lines := Lines(base);
    assert lines[1] == "K=b" && Assigns(lines[1], "K");
    LastAssignmentDecides(lines[0 := Left(lines[0], "K") + LineFor(s) + Right(lines[0], "K")], 1, "K");
  }

  /** A value written for `k1` that carries a match of `k2` is where the edit of `k2` goes. */
  lemma CaughtEdit(line: string, own: string, before: string, inner: string, k1: string, k2: string, written: string)
    requires OneLine(line) && Matches(line, k1) && OneLine(inner) && Matches(inner, k2) && !Matches(before, k2)
    ensures var base, x := line + ['\n'] + own, before + ['\r'] + inner;
            && Matches(base, k1) && ReplaceFirst(base, k1, x) == x + ['\n'] + own
            && Matches(x + ['\n'] + own, k2)
            && ReplaceFirst(x + ['\n'] + own, k2, written) == before + ['\r'] + written + ['\n'] + own
  {
    hide Matches, ReplaceFirst, OneLine;
    var x := before + ['\r'] + inner;
    ReplaceAround(line, '\n', own, k1, x);
    WholeLine(line, k1, x);
    ReplaceAround(before, '\r', inner, k2, written);
    WholeLine(inner, k2, written);
    ReplaceAround(x, '\n', own, k2, written);
  }

  /**
   * A value that carries another terminator and then an assignment of the next key catches the edit of that key: the
   * parser still reads the line of the base.
   */
  lemma DivertedEditIsLost()
    ensures var base, config := "A=1" + "\n" + "B=2", [Setting("A", "x\rB=9"), Setting("B", "3")];
            && Readable("x\rB=9") && Readable("3")
            && var out := Parse(Render(config, base)); "B" in out && out["B"] == "2"
  {
    hide Split, Matches, ParseLine, ParseLines, ReplaceFirst, LineFor, OneLine, Trimmed, Render;
    DivertedSamples();
    OneLineMatch("A=1", "A");
    OneLineMatch("A=x", "B");
    OneLineMatch("B=9", "B");
    assert "A=x"[0] != ("B" + "=")[0];
    var base := "A=1" + "\n" + "B=2";
    var caught := "A=x" + ['\r'] + "B=9";
    assert base == "A=1" + ['\n'] + "B=2" && caught == "A=x\rB=9";
    CaughtEdit("A=1", "B=2", "A=x", "B=9", "A", "B", "B=3");
    RenderTwo(Setting("A", "x\rB=9"), Setting("B", "3"), base);
    var line := "A=x" + ['\r'] + "B=3";
    assert line + ['\n'] + "B=2" == line + "\n" + "B=2";
    TwoLines(line, "B=2");
    LastAssignmentDecides([line, "B=2"], 1, "B");
  }

  lemma WholeLine(line: string, key: string, x: string)
    requires OneLine(line) && Matches(line, key)
    ensures ReplaceFirst(line, key, x) == x
  {
    SegmentsOfOneLine(line);
  }

  lemma DivertedSamples()
    ensures LineFor(Setting("A", "x\rB=9")) == "A=x\rB=9" && LineFor(Setting("B", "3")) == "B=3"
    ensures ManagedKey("A") && ManagedKey("B") && Readable("x\rB=9") && Readable("3")
    ensures OneLine("A=1") && OneLine("A=x") && OneLine("B=9") && OneLine("B=2")
    ensures ParseLine("B=2") == Some(Setting("B", "2"))
  {
    hide Escape, Trim, ParseLine;
    EscapeOfPlain("x\rB=9");
    EscapeOfPlain("3");
    EscapeOfPlain("2");
    assert Trimmed("2");
    TrimOfTrimmed("2");
    ParseEditedLine("", "B", "2", "");
    assert "" + LineFor(Setting("B", "2")) + "" == "B=2";
  }

  lemma TwoLines(a: string, b: string)
    requires '\n' !in a && '\n' !in b
    ensures Lines(a + "\n" + b) == [a, b]
  {
    hide Split;
    SplitAtSeparator(a, '\n', b);
    SplitWithoutSeparator(b, '\n');
  }

  lemma SampleWords()
    ensures Escape("b") == "b" && Trimmed("b") && ManagedKey("K")
  {}
}
