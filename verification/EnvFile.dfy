/** The `.env` renderer and parser (`packages/cli/src/install/render-env.ts`). */
module EnvFile {
  import opened Text

  /** One property of the configuration object; a configuration lists them in insertion order. */
  datatype Setting = Setting(key: string, value: string)

  // ---------------------------------------------------------------------------
  // Dollar escaping
  // ---------------------------------------------------------------------------

  function Escape(value: string): string {
    if value == "" then ""
    else if value[0] == '$' then "$$" + Escape(value[1..])
    else [value[0]] + Escape(value[1..])
  }

  /** Each leftmost `$$` becomes `$`. */
  function Unescape(value: string): string {
    if value == "" then ""
    else if |value| >= 2 && value[0] == '$' && value[1] == '$' then "$" + Unescape(value[2..])
    else [value[0]] + Unescape(value[1..])
  }

  lemma {:induction false} UnescapeOfEscape(value: string)
    ensures Unescape(Escape(value)) == value
  {
    if value != "" {
      UnescapeOfEscape(value[1..]);
      if value[0] == '$' {
        assert Escape(value)[2..] == Escape(value[1..]);
      } else {
        assert Escape(value)[1..] == Escape(value[1..]);
      }
    }
  }

  /** No two adjacent dollars. */
  predicate NoPair(s: string) {
    forall i | 0 <= i < |s| - 1 :: s[i] != '$' || s[i + 1] != '$'
  }

  /** Unescaping changes pairs of dollars only, from the left: text without a pair stays as it is. */
  lemma {:induction false} UnescapeWithoutPair(s: string)
    requires NoPair(s)
    ensures Unescape(s) == s
  {
    if s != "" {
      UnescapeWithoutPair(s[1..]);
      assert s == [s[0]] + s[1..];
    }
  }

  /** ... and the first pair becomes one dollar. */
  lemma {:induction false} UnescapeAtPair(s: string, rest: string)
    requires NoPair(s) && (s != "" ==> s[|s| - 1] != '$')
    ensures Unescape(s + "$$" + rest) == s + "$" + Unescape(rest)
  {
    if s == "" {
      assert ("" + "$$" + rest)[2..] == rest;
    } else {
      UnescapeAtPair(s[1..], rest);
      assert (s + "$$" + rest)[1..] == s[1..] + "$$" + rest;
      assert s == [s[0]] + s[1..];
      assert |s| > 1 ==> (s + "$$" + rest)[1] == s[1];
    }
  }

  lemma {:induction false} EscapeKeepsShape(value: string)
    ensures Escape(value) == "" <==> value == ""
    ensures value != "" ==> Escape(value)[0] == value[0] && Escape(value)[|Escape(value)| - 1] == value[|value| - 1]
    ensures (forall i | 0 <= i < |value| :: !IsLineTerminator(value[i])) ==>
              forall i | 0 <= i < |Escape(value)| :: !IsLineTerminator(Escape(value)[i])
  {
    if value != "" {
      EscapeKeepsShape(value[1..]);
    }
  }

  // ---------------------------------------------------------------------------
  // Parsing
  // ---------------------------------------------------------------------------

  function ParseLine(raw: string): Option<Setting> {
    var line := Trim(raw);
    if line == "" || line[0] == '#' || '=' !in line then None
    else
      var eq := IndexOf(line, '=');
      Some(Setting(Trim(line[..eq]), Unescape(Trim(line[eq + 1..]))))
  }

  /** A line without an equals sign assigns nothing. */
  lemma NothingWithoutEquals(raw: string)
    requires '=' !in raw
    ensures ParseLine(raw) == None
  {
    hide Trim;
    var u, w := TrimDecomposes(raw);
    assert forall i | 0 <= i < |Trim(raw)| :: Trim(raw)[i] == raw[|u| + i];
  }

  predicate Assigns(raw: string, key: string) {
    ParseLine(raw).Some? && ParseLine(raw).value.key == key
  }

  /** The object a list of lines denotes: a later assignment overwrites an earlier one. */
  function ParseLines(lines: seq<string>): map<string, string> {
    if lines == [] then map[]
    else
      var before := ParseLines(lines[..|lines| - 1]);
      match ParseLine(lines[|lines| - 1])
      case None => before
      case Some(s) => before[s.key := s.value]
  }

  /** A key is read exactly when some line assigns it, and its value is that of the last such line. */
  lemma {:induction false} ReadsLastAssignment(lines: seq<string>, key: string, value: string)
    ensures key in ParseLines(lines) && ParseLines(lines)[key] == value <==>
            exists n | 0 <= n < |lines| ::
              ParseLine(lines[n]) == Some(Setting(key, value)) && forall m | n < m < |lines| :: !Assigns(lines[m], key)
  {
    hide ParseLine;
    if lines != [] {
      var last := |lines| - 1;
      ReadsLastAssignment(lines[..last], key, value);
      if Assigns(lines[last], key) {
        assert ParseLine(lines[last]) == Some(Setting(key, ParseLine(lines[last]).value.value));
      } else {
        assert forall n | 0 <= n < last :: lines[..last][n] == lines[n];
        if n :| 0 <= n < last && ParseLine(lines[..last][n]) == Some(Setting(key, value))
                && forall m | n < m < last :: !Assigns(lines[..last][m], key) {
          assert ParseLine(lines[n]) == Some(Setting(key, value));
        }
        if n :| 0 <= n < |lines| && ParseLine(lines[n]) == Some(Setting(key, value))
                && forall m | n < m < |lines| :: !Assigns(lines[m], key) {
          assert n < last;
          assert ParseLine(lines[..last][n]) == Some(Setting(key, value));
        }
      }
    }
  }

  function Parse(text: string): map<string, string> {
    ParseLines(Split(text, '\n'))
  }

  method ParseEnv(text: string) returns (out: map<string, string>)
    ensures out == Parse(text)
  {
    hide Trim, Split, Unescape;
    out := map[];
    var lines := Split(text, '\n');
    for i := 0 to |lines|
      invariant out == ParseLines(lines[..i])
    {
      assert lines[..i + 1][..i] == lines[..i];
      var line := Trim(lines[i]);
      if line == "" || line[0] == '#' || '=' !in line {
        continue;
      }
      var eq := IndexOf(line, '=');
      out := out[Trim(line[..eq]) := Unescape(Trim(line[eq + 1..]))];
    }
    assert lines[..|lines|] == lines;
  }

  // ---------------------------------------------------------------------------
  // Lines as the multi-line regular expression sees them
  // ---------------------------------------------------------------------------

  /** The stretches between line terminators: what `^.*$` can match. */
  function Segments(text: string): (segs: seq<string>)
    ensures |segs| == |Terminators(text)| + 1
  {
    if text == "" then [""]
    else
      var rest := Segments(text[1..]);
      if IsLineTerminator(text[0]) then [""] + rest else [[text[0]] + rest[0]] + rest[1..]
  }

  /** The line terminators of a text, in order. */
  function Terminators(text: string): string {
    if text == "" then ""
    else if IsLineTerminator(text[0]) then [text[0]] + Terminators(text[1..])
    else Terminators(text[1..])
  }

  function Assemble(segs: seq<string>, terms: string): string
    requires |segs| == |terms| + 1
  {
    if terms == "" then segs[0] else segs[0] + [terms[0]] + Assemble(segs[1..], terms[1..])
  }

  predicate OneLine(s: string) {
    forall i | 0 <= i < |s| :: !IsLineTerminator(s[i])
  }

  predicate AllTerminators(terms: string) {
    forall i | 0 <= i < |terms| :: IsLineTerminator(terms[i])
  }

  lemma AssembleSegments(text: string)
    ensures Assemble(Segments(text), Terminators(text)) == text
    ensures AllTerminators(Terminators(text))
    ensures forall k | 0 <= k < |Segments(text)| :: OneLine(Segments(text)[k])
  {
    hide *;
    AssembleIsInverse(text);
    SegmentsAreLines(text);
  }

  lemma {:induction false} AssembleIsInverse(text: string)
    ensures Assemble(Segments(text), Terminators(text)) == text
  {
    hide IsLineTerminator;
    if text != "" {
      AssembleIsInverse(text[1..]);
      var segs, terms := Segments(text[1..]), Terminators(text[1..]);
      if IsLineTerminator(text[0]) {
        assert Terminators(text)[1..] == terms;
        assert Segments(text)[1..] == segs;
      } else if terms != "" {
        assert Segments(text)[1..] == segs[1..];
      }
      assert text == [text[0]] + text[1..];
    }
  }

  lemma {:induction false} SegmentsAreLines(text: string)
    ensures AllTerminators(Terminators(text))
    ensures forall k | 0 <= k < |Segments(text)| :: OneLine(Segments(text)[k])
  {
    hide IsLineTerminator;
    if text != "" {
      SegmentsAreLines(text[1..]);
    }
  }

  lemma {:induction false} SegmentsOfOneLine(s: string)
    requires OneLine(s)
    ensures Segments(s) == [s] && Terminators(s) == ""
  {
    if s != "" {
      SegmentsOfOneLine(s[1..]);
      assert s == [s[0]] + s[1..];
    }
  }

  /** Cutting a text at its first line terminator. */
  lemma {:induction false} SegmentsAtTerminator(s: string, t: char, rest: string)
    requires OneLine(s) && IsLineTerminator(t)
    ensures Segments(s + [t] + rest) == [s] + Segments(rest)
    ensures Terminators(s + [t] + rest) == [t] + Terminators(rest)
  {
    var text := s + [t] + rest;
    if s == "" {
      assert text[1..] == rest;
    } else {
      assert text[1..] == s[1..] + [t] + rest;
      SegmentsAtTerminator(s[1..], t, rest);
      assert s == [s[0]] + s[1..];
      assert ([s[1..]] + Segments(rest))[1..] == Segments(rest);
    }
  }

  lemma {:induction false} SegmentsOfAssemble(segs: seq<string>, terms: string)
    requires |segs| == |terms| + 1 && AllTerminators(terms)
    requires forall k | 0 <= k < |segs| :: OneLine(segs[k])
    ensures Segments(Assemble(segs, terms)) == segs
    ensures Terminators(Assemble(segs, terms)) == terms
  {
    if terms == "" {
      SegmentsOfOneLine(segs[0]);
    } else {
      SegmentsAtTerminator(segs[0], terms[0], Assemble(segs[1..], terms[1..]));
      SegmentsOfAssemble(segs[1..], terms[1..]);
    }
  }

  lemma SegmentsOfConcat(a: string, b: string)
    ensures Segments(a + b) == Glue(Segments(a), Segments(b))
    ensures Terminators(a + b) == Terminators(a) + Terminators(b)
  {
    hide *;
    SegmentsGlue(a, b);
    TerminatorsConcat(a, b);
  }

  lemma {:induction false} SegmentsGlue(a: string, b: string)
    ensures Segments(a + b) == Glue(Segments(a), Segments(b))
  {
    hide IsLineTerminator, Glue, Segments, Terminators;
    if a == "" {
      SegmentsOfOneLine("");
      assert a + b == b;
      GlueOntoOne("", Segments(b));
      assert "" + Segments(b)[0] == Segments(b)[0];
    } else {
      var rest := a[1..];
      SegmentsGlue(rest, b);
      SplitStep(a[0], Segments(rest), Segments(b));
      SegmentsStep(a[0], rest);
      SegmentsStep(a[0], rest + b);
      assert a == [a[0]] + rest;
      assert a + b == [a[0]] + (rest + b);
    }
  }

  lemma {:induction false} TerminatorsConcat(a: string, b: string)
    ensures Terminators(a + b) == Terminators(a) + Terminators(b)
  {
    hide IsLineTerminator;
    if a == "" {
      assert a + b == b;
    } else {
      assert (a + b)[1..] == a[1..] + b;
      TerminatorsConcat(a[1..], b);
    }
  }

  lemma SegmentsStep(c: char, rest: string)
    ensures var r := Segments(rest);
            Segments([c] + rest) == if IsLineTerminator(c) then [""] + r else [[c] + r[0]] + r[1..]
    ensures Terminators([c] + rest) == (if IsLineTerminator(c) then [c] else "") + Terminators(rest)
  {
    assert ([c] + rest)[1..] == rest;
  }

  /** A final newline opens one more, empty, segment. */
  lemma SegmentsOfFinalNewline(body: string)
    ensures Segments(body + "\n") == Segments(body) + [""]
  {
    hide Segments;
    SegmentsOfConcat(body, "\n");
    assert Segments("\n") == ["", ""] by {
      SegmentsAtTerminator("", '\n', "");
      SegmentsOfOneLine("");
      assert "" + ['\n'] + "" == "\n";
    }
    GlueBeforeEmpties(Segments(body));
  }

  // ---------------------------------------------------------------------------
  // Replacing the first matching line
  // ---------------------------------------------------------------------------

  /** The first segment that starts with `key=`, or -1. */
  function FirstWith(segs: seq<string>, key: string): (i: int)
    ensures -1 <= i < |segs|
    ensures i >= 0 ==> StartsWith(segs[i], key + "=")
    ensures forall j | 0 <= j < (if i < 0 then |segs| else i) :: !StartsWith(segs[j], key + "=")
  {
    if segs == [] then -1
    else if StartsWith(segs[0], key + "=") then 0
    else
      var rest := FirstWith(segs[1..], key);
      if rest < 0 then -1 else rest + 1
  }

  /** `re.test(text)` for the anchored, escaped, multi-line expression of `key`. */
  predicate Matches(text: string, key: string) {
    FirstWith(Segments(text), key) >= 0
  }

  /** `text.replace(re, () => line)`. */
  function ReplaceFirst(text: string, key: string, line: string): string
    requires Matches(text, key)
  {
    Assemble(Segments(text)[FirstWith(Segments(text), key) := line], Terminators(text))
  }

  function LineFor(s: Setting): string {
    s.key + "=" + Escape(s.value)
  }

  /** The text and the lines still to append after the loop has handled `config`. */
  function Edit(config: seq<Setting>, base: string): (string, seq<string>) {
    if config == [] then (base, [])
    else
      var s := config[|config| - 1];
      var (text, appended) := Edit(config[..|config| - 1], base);
      if Matches(text, s.key) then (ReplaceFirst(text, s.key, LineFor(s)), appended)
      else (text, appended + [LineFor(s)])
  }

  predicate EndsWithNewline(text: string) {
    text != "" && text[|text| - 1] == '\n'
  }

  function Append(text: string, appended: seq<string>): string {
    if appended == [] then text
    else (if text != "" && !EndsWithNewline(text) then text + "\n" else text) + Join(appended, '\n') + "\n"
  }

  function Render(config: seq<Setting>, base: string): string {
    Append(Edit(config, base).0, Edit(config, base).1)
  }

  method RenderEnv(config: seq<Setting>, base: string) returns (text: string)
    ensures text == Render(config, base)
  {
    text := base;
    var appended: seq<string> := [];
    for i := 0 to |config|
      invariant (text, appended) == Edit(config[..i], base)
    {
      assert config[..i + 1][..i] == config[..i];
      var s := config[i];
      var line := LineFor(s);
      if Matches(text, s.key) {
        text := ReplaceFirst(text, s.key, line);
      } else {
        appended := appended + [line];
      }
    }
    assert config[..|config|] == config;
    if |appended| > 0 {
      if |text| > 0 && !EndsWithNewline(text) {
        text := text + "\n";
      }
      text := text + Join(appended, '\n') + "\n";
    }
  }

  // ---------------------------------------------------------------------------
  // The regular expression, position by position
  // ---------------------------------------------------------------------------

  /** `^key=.*$` with the `m` flag matches exactly `text[i..j]`. */
  ghost predicate RegexMatchesAt(text: string, key: string, i: int, j: int) {
    && 0 <= i <= j <= |text|
    && (i == 0 || IsLineTerminator(text[i - 1]))
    && StartsWith(text[i..j], key + "=")
    && OneLine(text[i..j])
    && (j == |text| || IsLineTerminator(text[j]))
  }

  /** Past the first terminator a match is a match of the rest. */
  lemma MatchShifts(s: string, t: char, rest: string, key: string, i: int, j: int)
    requires OneLine(s) && IsLineTerminator(t)
    ensures i > |s| ==>
              (RegexMatchesAt(s + [t] + rest, key, i, j) <==> RegexMatchesAt(rest, key, i - |s| - 1, j - |s| - 1))
    ensures i <= |s| ==>
              (RegexMatchesAt(s + [t] + rest, key, i, j) <==> i == 0 && j == |s| && StartsWith(s, key + "="))
  {
    var text := s + [t] + rest;
    var d := |s| + 1;
    assert text[|s|] == t && text[0..|s|] == s;
    assert forall x | 0 <= x < |s| :: text[x] == s[x];
    if d <= i <= j <= |text| {
      assert text[d..] == rest;
      assert text[i..j] == text[d..][i - d..j - d];
      assert i > d ==> text[i - 1] == rest[i - d - 1];
    }
    if 0 <= i <= |s| < j <= |text| {
      assert text[i..j][|s| - i] == t;
      assert !OneLine(text[i..j]);
    }
  }

  /** The edit looks at the first segment before it looks further. */
  lemma ReplaceFirstStep(s: string, t: char, rest: string, key: string, line: string)
    requires OneLine(s) && IsLineTerminator(t)
    ensures Matches(s + [t] + rest, key) <==> StartsWith(s, key + "=") || Matches(rest, key)
    ensures StartsWith(s, key + "=") ==> ReplaceFirst(s + [t] + rest, key, line) == line + [t] + rest
    ensures !StartsWith(s, key + "=") && Matches(rest, key) ==>
              ReplaceFirst(s + [t] + rest, key, line) == s + [t] + ReplaceFirst(rest, key, line)
  {
    hide Segments, Terminators;
    SegmentsAtTerminator(s, t, rest);
    AssembleSegments(rest);
    var segs := Segments(s + [t] + rest);
    assert segs[1..] == Segments(rest);
    assert Terminators(s + [t] + rest)[1..] == Terminators(rest);
    if StartsWith(s, key + "=") {
      assert segs[0 := line][1..] == Segments(rest);
    } else if Matches(rest, key) {
      var k := FirstWith(segs, key);
      assert segs[k := line][1..] == Segments(rest)[k - 1 := line];
    }
  }

  /** Replacing the first matching segment is replacing the leftmost match of the regular expression. */
  lemma {:induction false} ReplaceFirstIsRegexReplace(text: string, key: string, line: string) returns (i: int, j: int)
    ensures Matches(text, key) ==>
              && RegexMatchesAt(text, key, i, j)
              && (forall i', j' | RegexMatchesAt(text, key, i', j') :: i <= i')
              && ReplaceFirst(text, key, line) == text[..i] + line + text[j..]
    ensures !Matches(text, key) ==> forall i', j' :: !RegexMatchesAt(text, key, i', j')
    decreases |text|
  {
    hide Segments, Terminators, StartsWith;
    var s, t, rest := FirstSegment(text);
    i, j := 0, |s|;
    if |s| == |text| {
      assert forall i', j' | RegexMatchesAt(text, key, i', j') :: i' == 0 && j' == |text|;
      SegmentsOfOneLine(text);
      assert text[0..|text|] == text;
    } else {
      forall i', j' { MatchShifts(s, t, rest, key, i', j'); }
      ReplaceFirstStep(s, t, rest, key, line);
      if StartsWith(s, key + "=") {
        assert text[..0] == "" && text[j..] == [t] + rest;
      } else {
        var i0, j0 := ReplaceFirstIsRegexReplace(rest, key, line);
        var d := |s| + 1;
        i, j := i0 + d, j0 + d;
        if Matches(rest, key) {
          assert text[..i] == s + [t] + rest[..i0] && text[j..] == rest[j0..];
        }
      }
    }
  }

  /** A text is one segment, or a segment, its terminator and the rest. */
  lemma FirstSegment(text: string) returns (s: string, t: char, rest: string)
    ensures OneLine(s)
    ensures text == s || (IsLineTerminator(t) && text == s + [t] + rest)
  {
    hide Segments, Terminators;
    AssembleSegments(text);
    var segs, terms := Segments(text), Terminators(text);
    s, t, rest := segs[0], '\n', "";
    if terms != "" {
      t, rest := terms[0], Assemble(segs[1..], terms[1..]);
    }
  }
}
