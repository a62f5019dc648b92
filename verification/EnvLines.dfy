/** Raw lines, which the parser reads one by one, and the segments of a raw line, which the renderer matches. */
module EnvLines {
  import opened Text
  import opened EnvFile
  import opened EnvEdits

  /** A key the parser gives back as it is: no margins, not a comment. Every identifier is one. */
  predicate ManagedKey(key: string) {
    key != "" && Trimmed(key) && LineKey(key) && key[0] != '#'
  }

  // ---------------------------------------------------------------------------
  // One line
  // ---------------------------------------------------------------------------

  lemma TrimDropsRightMargin(x: string)
    ensures Trim(TrimRight(x)) == Trim(x)
  {
    hide TrimLeft, TrimRight;
    var u, w := TrimDecomposes(x);
    var core := Trim(x);
    if core == "" {
      BlankConcat(u, "", w);
      var w' := RightMargin(x);
      BlankPrefix(TrimRight(x), w');
      TrimOfBlank(TrimRight(x));
    } else {
      TrimRightOfPadded(u + core, w);
      assert u + core + "" == u + core;
      TrimOfPadded(u, core, "");
    }
  }

  lemma BlankPrefix(a: string, b: string)
    requires Blank(a + b)
    ensures Blank(a)
  {
    BlankConcat(a, b, "");
    assert a + b + "" == a + b;
  }

  lemma TrimmedAssignment(p: string, rest: string)
    ensures Trim(p + "=" + rest) == TrimLeft(p) + "=" + TrimRight(rest)
  {
    hide TrimLeft, TrimRight, Trim;
    var u := LeftMargin(p);
    var w := RightMargin(rest);
    var line := TrimLeft(p) + "=" + TrimRight(rest);
    assert p + "=" + rest == u + line + w;
    TrimOfPadded(u, line, w);
  }

  lemma TrimDropsLeftMargin(x: string)
    ensures Trim(TrimLeft(x)) == Trim(x)
  {
    TrimLeftOfPadded("", TrimLeft(x));
    assert "" + TrimLeft(x) == TrimLeft(x);
  }

  /** A line is read at its first `=`; it is a comment when the text before it starts with `#`. */
  lemma ParseLineAt(p: string, rest: string)
    requires '=' !in p
    ensures ParseLine(p + "=" + rest) ==
            if TrimLeft(p) != "" && TrimLeft(p)[0] == '#' then None
            else Some(Setting(Trim(p), Unescape(Trim(rest))))
  {
    hide TrimLeft, TrimRight, Trim, Unescape, IndexOf;
    var p', r' := TrimLeft(p), TrimRight(rest);
    var line := p' + "=" + r';
    TrimmedAssignment(p, rest);
    assert '=' !in p' by { var u := LeftMargin(p); assert p == u + p'; }
    IndexOfAt(p', '=', r');
    assert line[|p'|] == '=';
    assert line[..|p'|] == p' && line[|p'| + 1..] == r';
    TrimDropsLeftMargin(p);
    TrimDropsRightMargin(rest);
  }

  lemma {:induction false} EscapeOfConcat(a: string, b: string)
    ensures Escape(a + b) == Escape(a) + Escape(b)
  {
    if a == "" {
      assert a + b == b;
    } else {
      assert (a + b)[1..] == a[1..] + b;
      EscapeOfConcat(a[1..], b);
    }
  }

  lemma {:induction false} EscapeOfPlain(u: string)
    requires '$' !in u
    ensures Escape(u) == u
  {
    if u != "" {
      EscapeOfPlain(u[1..]);
      assert u == [u[0]] + u[1..];
    }
  }

  lemma EscapeOfBlank(u: string)
    requires Blank(u)
    ensures Escape(u) == u
  {
    EscapeOfPlain(u);
  }

  /** Margins are not escaped. */
  lemma TrimOfEscape(value: string)
    ensures Trim(Escape(value)) == Escape(Trim(value))
  {
    hide Escape, Trim, IsSpace;
    var u, w := TrimDecomposes(value);
    var core := Trim(value);
    EscapeOfConcat(u + core, w);
    EscapeOfConcat(u, core);
    EscapeOfBlank(u);
    EscapeOfBlank(w);
    EscapeKeepsShape(core);
    if core == "" {
      assert Blank(u + w) by { BlankConcat(u, "", w); assert u + "" + w == u + w; }
      assert u + "" + w == u + w;
      TrimOfBlank(u + w);
    } else {
      TrimOfPadded(u, Escape(core), w);
    }
  }

  /** The assignment a render writes, between any two margins of its raw line. */
  lemma ParseEditedLine(u: string, key: string, value: string, w: string)
    requires Blank(u) && Blank(w) && ManagedKey(key)
    ensures ParseLine(u + LineFor(Setting(key, value)) + w) == Some(Setting(key, Trim(value)))
  {
    hide TrimLeft, TrimRight, Trim, Escape, Unescape, ParseLine, IsSpace;
    assert u + LineFor(Setting(key, value)) + w == (u + key) + "=" + (Escape(value) + w);
    assert '=' !in u by { EqualsIsNotSpace(u); }
    ParseLineAt(u + key, Escape(value) + w);
    assert u + key + "" == u + key;
    TrimLeftOfPadded(u, key);
    TrimOfPadded(u, key, "");
    TrimIgnoresMargin(Escape(value), w);
    TrimOfEscape(value);
    UnescapeOfEscape(Trim(value));
  }

  lemma TrimIgnoresMargin(x: string, w: string)
    requires Blank(w)
    ensures Trim(x + w) == Trim(x)
  {
    hide Trim, IsSpace;
    var u, v := TrimDecomposes(x);
    var core := Trim(x);
    assert x + w == u + core + (v + w);
    BlankConcat("", v, w);
    assert "" + v + w == v + w;
    if core == "" {
      BlankConcat(u, v, w);
      assert x + w == u + v + w;
      TrimOfBlank(x + w);
    } else {
      TrimOfPadded(u, core, v + w);
    }
  }

  lemma EqualsIsNotSpace(u: string)
    requires Blank(u)
    ensures '=' !in u
  {}

  /** A line that assigns `key` before the edit. */
  lemma MatchedLineAssigns(u: string, seg: string, w: string, key: string)
    requires Blank(u) && ManagedKey(key) && StartsWith(seg, key + "=")
    ensures Assigns(u + seg + w, key)
  {
    hide TrimLeft, TrimRight, Unescape, ParseLine, IsSpace;
    var rest := seg[|key| + 1..];
    assert seg == key + "=" + rest;
    assert u + seg + w == (u + key) + "=" + (rest + w);
    assert '=' !in u by { EqualsIsNotSpace(u); }
    ParseLineAt(u + key, rest + w);
    assert u + key + "" == u + key;
    TrimLeftOfPadded(u, key);
    TrimOfPadded(u, key, "");
  }

  // ---------------------------------------------------------------------------
  // A segment and its surroundings
  // ---------------------------------------------------------------------------

  function Before(segs: seq<string>, terms: string, i: nat): string
    requires |segs| == |terms| + 1 && i < |segs|
  {
    if i == 0 then "" else segs[0] + [terms[0]] + Before(segs[1..], terms[1..], i - 1)
  }

  function After(segs: seq<string>, terms: string, i: nat): string
    requires |segs| == |terms| + 1 && i < |segs|
  {
    if i > 0 then After(segs[1..], terms[1..], i - 1)
    else if terms == "" then ""
    else [terms[0]] + Assemble(segs[1..], terms[1..])
  }

  lemma {:induction false} AssembleAt(segs: seq<string>, terms: string, i: nat, x: string)
    requires |segs| == |terms| + 1 && i < |segs|
    ensures Assemble(segs[i := x], terms) == Before(segs, terms, i) + x + After(segs, terms, i)
  {
    if i == 0 {
      assert segs[0 := x][1..] == segs[1..];
      if terms != "" {
        assert x + [terms[0]] + Assemble(segs[1..], terms[1..]) == x + ([terms[0]] + Assemble(segs[1..], terms[1..]));
      }
    } else {
      assert segs[i := x][1..] == segs[1..][i - 1 := x];
      AssembleAt(segs[1..], terms[1..], i - 1, x);
      var b, a := Before(segs[1..], terms[1..], i - 1), After(segs[1..], terms[1..], i - 1);
      assert segs[0] + [terms[0]] + (b + x + a) == segs[0] + [terms[0]] + b + x + a;
    }
  }

  /** Between blank surroundings every other segment is blank. */
  lemma {:induction false} OtherSegmentsBlank(segs: seq<string>, terms: string, i: nat, k: nat)
    requires |segs| == |terms| + 1 && i < |segs| && k < |segs| && k != i
    requires Blank(Before(segs, terms, i)) && Blank(After(segs, terms, i))
    ensures Blank(segs[k])
  {
    hide Blank;
    if i > 0 {
      BlankConcat(segs[0], [terms[0]], Before(segs[1..], terms[1..], i - 1));
      if k > 0 {
        OtherSegmentsBlank(segs[1..], terms[1..], i - 1, k - 1);
      }
    } else {
      BlankConcat("", [terms[0]], Assemble(segs[1..], terms[1..]));
      assert "" + [terms[0]] + Assemble(segs[1..], terms[1..]) == After(segs, terms, i);
      BlankAssemble(segs[1..], terms[1..], k - 1);
    }
  }

  lemma {:induction false} BlankAssemble(segs: seq<string>, terms: string, k: nat)
    requires |segs| == |terms| + 1 && k < |segs| && Blank(Assemble(segs, terms))
    ensures Blank(segs[k])
  {
    hide Blank;
    if terms != "" {
      BlankConcat(segs[0], [terms[0]], Assemble(segs[1..], terms[1..]));
      if k > 0 {
        BlankAssemble(segs[1..], terms[1..], k - 1);
      }
    }
  }

  /** The segment of a text that an edit of `key` replaces, and what surrounds it. */
  function Matched(text: string, key: string): string
    requires Matches(text, key)
  {
    Segments(text)[FirstWith(Segments(text), key)]
  }

  function Left(text: string, key: string): string
    requires Matches(text, key)
  {
    Before(Segments(text), Terminators(text), FirstWith(Segments(text), key))
  }

  function Right(text: string, key: string): string
    requires Matches(text, key)
  {
    After(Segments(text), Terminators(text), FirstWith(Segments(text), key))
  }

  lemma ReplaceFirstAt(text: string, key: string, x: string)
    requires Matches(text, key)
    ensures ReplaceFirst(text, key, x) == Left(text, key) + x + Right(text, key)
    ensures text == Left(text, key) + Matched(text, key) + Right(text, key)
    ensures StartsWith(Matched(text, key), key + "=")
  {
    hide Segments, Terminators, Assemble, Before, After;
    var segs, terms := Segments(text), Terminators(text);
    var i := FirstWith(segs, key);
    AssembleSegments(text);
    AssembleAt(segs, terms, i, x);
    AssembleAt(segs, terms, i, segs[i]);
    assert segs[i := segs[i]] == segs;
  }

  /** The matched segment is all there is but blanks. */
  predicate StandsAlone(line: string, key: string)
    requires Matches(line, key)
  {
    Blank(Left(line, key)) && Blank(Right(line, key))
  }

  // ---------------------------------------------------------------------------
  // Matching across a terminator
  // ---------------------------------------------------------------------------

  lemma SegmentsAround(a: string, t: char, b: string)
    requires IsLineTerminator(t)
    ensures Segments(a + [t] + b) == Segments(a) + Segments(b)
    ensures Terminators(a + [t] + b) == Terminators(a) + [t] + Terminators(b)
  {
    hide Segments, Terminators, IsLineTerminator;
    assert a + [t] + b == a + ([t] + b);
    SegmentsOfConcat(a, [t] + b);
    SegmentsStep(t, b);
    GlueAtBreak(Segments(a), Segments(b));
    assert Terminators(a) + ([t] + Terminators(b)) == Terminators(a) + [t] + Terminators(b);
  }

  lemma {:induction false} FirstWithConcat(x: seq<string>, y: seq<string>, key: string)
    ensures FirstWith(x + y, key) ==
            if FirstWith(x, key) >= 0 then FirstWith(x, key)
            else if FirstWith(y, key) >= 0 then |x| + FirstWith(y, key) else -1
  {
    var all := x + y;
    assert forall i | 0 <= i < |x| :: all[i] == x[i];
    assert forall i | 0 <= i < |y| :: all[|x| + i] == y[i];
    if FirstWith(x, key) >= 0 {
      FirstWithIs(all, key, FirstWith(x, key));
    } else if FirstWith(y, key) >= 0 {
      FirstWithIs(all, key, |x| + FirstWith(y, key));
    }
  }

  lemma {:induction false} AssembleConcat(x: seq<string>, tx: string, t: char, y: seq<string>, ty: string)
    requires |x| == |tx| + 1 && |y| == |ty| + 1
    ensures Assemble(x + y, tx + [t] + ty) == Assemble(x, tx) + [t] + Assemble(y, ty)
  {
    var terms := tx + [t] + ty;
    if tx == "" {
      assert (x + y)[1..] == y && terms[1..] == ty && (x + y)[0] == x[0];
    } else {
      assert (x + y)[1..] == x[1..] + y && terms[1..] == tx[1..] + [t] + ty && terms[0] == tx[0];
      AssembleConcat(x[1..], tx[1..], t, y, ty);
      var l, r := Assemble(x[1..], tx[1..]), Assemble(y, ty);
      assert x[0] + [tx[0]] + (l + [t] + r) == x[0] + [tx[0]] + l + [t] + r;
    }
  }

  /** The first match of a text is that of its front, if there is one, else that of the rest. */
  lemma ReplaceAround(a: string, t: char, b: string, key: string, x: string)
    requires IsLineTerminator(t)
    ensures Matches(a + [t] + b, key) <==> Matches(a, key) || Matches(b, key)
    ensures Matches(a, key) ==> ReplaceFirst(a + [t] + b, key, x) == ReplaceFirst(a, key, x) + [t] + b
    ensures !Matches(a, key) && Matches(b, key) ==>
              ReplaceFirst(a + [t] + b, key, x) == a + [t] + ReplaceFirst(b, key, x)
  {
    hide Segments, Terminators, Assemble, IsLineTerminator, StartsWith;
    var sa, sb := Segments(a), Segments(b);
    SegmentsAround(a, t, b);
    FirstWithConcat(sa, sb, key);
    AssembleSegments(a);
    AssembleSegments(b);
    if Matches(a, key) {
      var i := FirstWith(sa, key);
      assert (sa + sb)[i := x] == sa[i := x] + sb;
      AssembleConcat(sa[i := x], Terminators(a), t, sb, Terminators(b));
    } else if Matches(b, key) {
      var i := FirstWith(sb, key);
      assert (sa + sb)[|sa| + i := x] == sa + sb[i := x];
      AssembleConcat(sa, Terminators(a), t, sb[i := x], Terminators(b));
    }
  }

  lemma {:induction false} NoMatchInAssembled(segs: seq<string>, terms: string, key: string)
    requires |segs| == |terms| + 1 && AllTerminators(terms)
    requires forall k | 0 <= k < |segs| :: !Matches(segs[k], key)
    ensures !Matches(Assemble(segs, terms), key)
  {
    hide Matches;
    if terms != "" {
      NoMatchInAssembled(segs[1..], terms[1..], key);
      ReplaceAround(segs[0], terms[0], Assemble(segs[1..], terms[1..]), key, "");
    }
  }

  lemma OneLineMatch(s: string, key: string)
    requires OneLine(s)
    ensures Matches(s, key) <==> StartsWith(s, key + "=")
  {
    hide Segments, OneLine;
    SegmentsOfOneLine(s);
    assert [s][0] == s;
  }

  lemma BlankHasNoMatch(s: string, key: string)
    requires Blank(s) && OneLine(s)
    ensures !Matches(s, key)
  {
    hide Blank, OneLine;
    OneLineMatch(s, key);
    if StartsWith(s, key + "=") { NotBlankAssignment(s, key); }
  }

  lemma NotBlankAssignment(seg: string, key: string)
    requires StartsWith(seg, key + "=")
    ensures !Blank(seg)
  {
    assert seg[|key|] == (key + "=")[|key|] == '=';
  }

  /** A line on which the edit of `key` stands alone has a match of `other` only inside what the edit writes. */
  lemma OtherKeyOnLine(line: string, key: string, x: string, other: string)
    requires Matches(line, key) && StandsAlone(line, key) && !Matches(x, other)
    ensures !Matches(ReplaceFirst(line, key, x), other)
  {
    hide Segments, Terminators, Assemble, Before, After, Matches, Blank, OneLine, AllTerminators;
    var segs, terms := Segments(line), Terminators(line);
    AssembleSegments(line);
    var i := FirstWith(segs, key);
    assert i >= 0 by { MatchesIs(line, key); }
    var edited := segs[i := x];
    forall k | 0 <= k < |segs|
      ensures !Matches(edited[k], other)
    {
      if k != i {
        OtherSegmentsBlank(segs, terms, i, k);
        BlankHasNoMatch(segs[k], other);
      }
    }
    NoMatchInAssembled(edited, terms, other);
  }

  lemma MatchesIs(text: string, key: string)
    ensures Matches(text, key) <==> FirstWith(Segments(text), key) >= 0
  {}

  lemma OtherKeyNotOnLine(line: string, key: string, other: string)
    requires Matches(line, key) && StandsAlone(line, key)
    requires key != other && LineKey(key) && LineKey(other)
    ensures !Matches(line, other)
  {
    hide Segments, Terminators, Left, Right, Matches, Assemble, Blank;
    ReplaceFirstAt(line, key, Matched(line, key));
    assert ReplaceFirst(line, key, Matched(line, key)) == line;
    var seg := Matched(line, key);
    assert OneLine(seg) by { MatchesIs(line, key); AssembleSegments(line); }
    OneLineMatch(seg, other);
    if StartsWith(seg, other + "=") { OneKeyPerLine(seg, key, other); }
    OtherKeyOnLine(line, key, seg, other);
  }

  // ---------------------------------------------------------------------------
  // Raw lines
  // ---------------------------------------------------------------------------

  /** The index of the first raw line with a match, or -1. */
  function FirstMatching(lines: seq<string>, key: string): (n: int)
    ensures -1 <= n < |lines|
    ensures n >= 0 ==> Matches(lines[n], key)
    ensures forall m | 0 <= m < (if n < 0 then |lines| else n) :: !Matches(lines[m], key)
  {
    if lines == [] then -1
    else if Matches(lines[0], key) then 0
    else
      var rest := FirstMatching(lines[1..], key);
      if rest < 0 then -1 else rest + 1
  }

  function Lines(text: string): seq<string> { Split(text, '\n') }

  function MatchingLine(text: string, key: string): (n: int)
    ensures -1 <= n < |Lines(text)|
    ensures n >= 0 ==> Matches(Lines(text)[n], key)
  {
    FirstMatching(Lines(text), key)
  }

  lemma FirstMatchingIs(lines: seq<string>, key: string, n: int)
    requires -1 <= n < |lines| && (n >= 0 ==> Matches(lines[n], key))
    requires forall m | 0 <= m < (if n < 0 then |lines| else n) :: !Matches(lines[m], key)
    ensures FirstMatching(lines, key) == n
  {}

  /** Replacing the first match of a text replaces it on the first raw line that has one. */
  lemma {:induction false} ReplaceOnLine(text: string, key: string, x: string)
    requires '\n' !in x
    ensures Matches(text, key) <==> MatchingLine(text, key) >= 0
    ensures Matches(text, key) ==>
              var n := MatchingLine(text, key);
              Lines(ReplaceFirst(text, key, x)) == Lines(text)[n := ReplaceFirst(Lines(text)[n], key, x)]
    decreases |text|
  {
    hide Split, Matches, ReplaceFirst, IsLineTerminator;
    var i := IndexOf(text, '\n');
    if i < 0 {
      SplitWithoutSeparator(text, '\n');
      if Matches(text, key) {
        ReplaceKeepsNewlineFree(text, key, x);
        SplitWithoutSeparator(ReplaceFirst(text, key, x), '\n');
      }
      assert [text][1..] == [];
    } else {
      var a, b := text[..i], text[i + 1..];
      assert text == a + ['\n'] + b;
      NewlineTerminates();
      ReplaceAround(a, '\n', b, key, x);
      SplitAtSeparator(a, '\n', b);
      ReplaceOnLine(b, key, x);
      assert ([a] + Lines(b))[1..] == Lines(b);
      if Matches(a, key) {
        ReplaceKeepsNewlineFree(a, key, x);
        SplitAtSeparator(ReplaceFirst(a, key, x), '\n', b);
      } else if Matches(b, key) {
        SplitAtSeparator(a, '\n', ReplaceFirst(b, key, x));
      }
    }
  }

  lemma NewlineTerminates()
    ensures IsLineTerminator('\n')
  {}

  lemma ReplaceKeepsNewlineFree(line: string, key: string, x: string)
    requires '\n' !in line && '\n' !in x && Matches(line, key)
    ensures '\n' !in ReplaceFirst(line, key, x)
  {
    hide Left, Right, Matches, ReplaceFirst, Matched;
    ReplaceFirstAt(line, key, x);
    assert forall i | 0 <= i < |Left(line, key)| :: Left(line, key)[i] == line[i];
    var offset := |line| - |Right(line, key)|;
    assert forall i | 0 <= i < |Right(line, key)| :: Right(line, key)[i] == line[offset + i];
  }

  lemma {:induction false} EscapeKeepsNewlineFree(value: string)
    requires '\n' !in value
    ensures '\n' !in Escape(value)
  {
    if value != "" {
      EscapeKeepsNewlineFree(value[1..]);
    }
  }

  lemma LineHasNoNewline(s: Setting)
    requires ManagedKey(s.key) && '\n' !in s.value
    ensures '\n' !in LineFor(s)
  {
    EscapeKeepsNewlineFree(s.value);
    NewlineTerminates();
  }

  // ---------------------------------------------------------------------------
  // One edit
  // ---------------------------------------------------------------------------

  ghost predicate NoneAssigns(lines: seq<string>, from: nat, key: string) {
    forall n | from <= n < |lines| :: !Assigns(lines[n], key)
  }

  /**
   * The edit of `key` reaches what the parser reads: either no line matches (and the setting is appended), or the
   * first match stands alone on its raw line and no later raw line assigns the key again.
   */
  ghost predicate EditTakesEffect(text: string, key: string) {
    var n := MatchingLine(text, key);
    n < 0 || (StandsAlone(Lines(text)[n], key) && NoneAssigns(Lines(text), n + 1, key))
  }

  lemma {:induction false} ParseLinesAfterEdit(lines: seq<string>, n: nat, x: string, s: Setting)
    requires n < |lines| && Assigns(lines[n], s.key) && ParseLine(x) == Some(s)
    requires NoneAssigns(lines, n + 1, s.key)
    ensures ParseLines(lines[n := x]) == ParseLines(lines)[s.key := s.value]
  {
    hide ParseLine;
    var m := |lines| - 1;
    if n == m {
      assert lines[n := x][..m] == lines[..m];
    } else {
      assert lines[n := x][..m] == lines[..m][n := x];
      ParseLinesAfterEdit(lines[..m], n, x, s);
      assert !Assigns(lines[m], s.key);
    }
  }

  /** The raw line an effective edit of `s.key` leaves behind. */
  lemma EditedLineReads(line: string, s: Setting)
    requires ManagedKey(s.key) && Matches(line, s.key) && StandsAlone(line, s.key)
    ensures Assigns(line, s.key)
    ensures ParseLine(ReplaceFirst(line, s.key, LineFor(s))) == Some(Setting(s.key, Trim(s.value)))
  {
    hide Left, Right, Matches, ReplaceFirst, LineFor, ParseLine, Trim, Matched, Blank;
    ReplaceFirstAt(line, s.key, LineFor(s));
    var u, w := Left(line, s.key), Right(line, s.key);
    MatchedLineAssigns(u, Matched(line, s.key), w, s.key);
    assert s == Setting(s.key, s.value);
    ParseEditedLine(u, s.key, s.value, w);
  }

  lemma EditOnce(text: string, s: Setting)
    requires ManagedKey(s.key) && '\n' !in s.value && Matches(text, s.key) && EditTakesEffect(text, s.key)
    ensures Parse(ReplaceFirst(text, s.key, LineFor(s))) == Parse(text)[s.key := Trim(s.value)]
  {
    hide Matches, ReplaceFirst, LineFor, ParseLine, Trim, Split, ParseLines, StandsAlone;
    var line := LineFor(s);
    LineHasNoNewline(s);
    ReplaceOnLine(text, s.key, line);
    var n := MatchingLine(text, s.key);
    EditedLineReads(Lines(text)[n], s);
    ParseLinesAfterEdit(Lines(text), n, ReplaceFirst(Lines(text)[n], s.key, line), Setting(s.key, Trim(s.value)));
  }

  /** What is written for `s` does not come between `other` and its first match in `text`. */
  predicate LeavesAlone(text: string, s: Setting, other: string) {
    || !Matches(text, s.key)
    || !Matches(LineFor(s), other)
    || 0 <= MatchingLine(text, other) < MatchingLine(text, s.key)
  }

  /** An effective edit of one key keeps the first match of every other key it leaves alone, and its effect. */
  lemma EditKeepsOthersEffective(text: string, s: Setting, other: string)
    requires ManagedKey(s.key) && '\n' !in s.value && Matches(text, s.key) && EditTakesEffect(text, s.key)
    requires ManagedKey(other) && other != s.key && LeavesAlone(text, s, other)
    ensures MatchingLine(ReplaceFirst(text, s.key, LineFor(s)), other) == MatchingLine(text, other)
    ensures EditTakesEffect(text, other) ==> EditTakesEffect(ReplaceFirst(text, s.key, LineFor(s)), other)
  {
    hide Matches, ReplaceFirst, LineFor, ParseLine, Trim, Split, StandsAlone;
    var x := LineFor(s);
    LineHasNoNewline(s);
    ReplaceOnLine(text, s.key, x);
    var lines, n, m := Lines(text), MatchingLine(text, s.key), MatchingLine(text, other);
    var line := lines[n];
    var line' := ReplaceFirst(line, s.key, x);
    OtherKeyNotOnLine(line, s.key, other);
    if !Matches(x, other) { OtherKeyOnLine(line, s.key, x, other); }
    assert m != n;
    FirstMatchingIs(lines[n := line'], other, m);
    EditedLineReads(line, s);
    assert !Assigns(line', other);
  }

  // ---------------------------------------------------------------------------
  // Matches that later edits leave in place
  // ---------------------------------------------------------------------------

  lemma {:induction false} MatchInAssembled(segs: seq<string>, terms: string, key: string, i: nat)
    requires |segs| == |terms| + 1 && AllTerminators(terms) && i < |segs| && Matches(segs[i], key)
    ensures Matches(Assemble(segs, terms), key)
  {
    hide Matches;
    if terms != "" {
      ReplaceAround(segs[0], terms[0], Assemble(segs[1..], terms[1..]), key, "");
      if i > 0 {
        MatchInAssembled(segs[1..], terms[1..], key, i - 1);
      }
    }
  }

  /** What is written keeps its own matches, and the edit of one key those of every other. */
  lemma MatchStays(text: string, key: string, x: string, other: string)
    requires Matches(text, key)
    requires Matches(x, other) || (Matches(text, other) && key != other && LineKey(key) && LineKey(other))
    ensures Matches(ReplaceFirst(text, key, x), other)
  {
    hide Segments, Terminators, Assemble, OneLine, AllTerminators;
    var segs, terms := Segments(text), Terminators(text);
    var i := FirstWith(segs, key);
    AssembleSegments(text);
    if Matches(x, other) {
      MatchInAssembled(segs[i := x], terms, other, i);
    } else {
      var j := FirstWith(segs, other);
      if i == j { OneKeyPerLine(segs[i], key, other); }
      OneLineMatch(segs[j], other);
      MatchInAssembled(segs[i := x], terms, other, j);
    }
  }

  lemma RenderTwo(s: Setting, t: Setting, base: string)
    requires Matches(base, s.key) && Matches(ReplaceFirst(base, s.key, LineFor(s)), t.key)
    ensures Render([s, t], base) == ReplaceFirst(ReplaceFirst(base, s.key, LineFor(s)), t.key, LineFor(t))
  {
    hide Matches, ReplaceFirst, LineFor, Append;
    var text := ReplaceFirst(base, s.key, LineFor(s));
    var both := ReplaceFirst(text, t.key, LineFor(t));
    assert [s, t][..1] == [s] && [s][..0] == [];
    assert Edit([], base) == (base, []);
    assert Edit([s], base) == (text, []);
    assert Edit([s, t], base) == (both, []);
    AppendNothing(both);
  }

  ghost predicate SameAt(a: map<string, string>, b: map<string, string>, key: string) {
    (key in a <==> key in b) && (key in a ==> a[key] == b[key])
  }

  /** The line at `m` has no say in `key` when it does not assign it, or when a later line does. */
  lemma {:induction false} LineHasNoSay(lines: seq<string>, m: nat, x: string, y: string, key: string)
    requires m < |lines|
    requires !NoneAssigns(lines, m + 1, key) || (!Assigns(x, key) && !Assigns(y, key))
    ensures SameAt(ParseLines(lines[m := x]), ParseLines(lines[m := y]), key)
  {
    hide ParseLine;
    var n := |lines| - 1;
    if m == n {
      assert lines[m := x][..n] == lines[..n] && lines[m := y][..n] == lines[..n];
    } else {
      assert lines[m := x][..n] == lines[..n][m := x] && lines[m := y][..n] == lines[..n][m := y];
      if !Assigns(lines[n], key) {
        assert forall i | m + 1 <= i < n :: lines[..n][i] == lines[i];
        LineHasNoSay(lines[..n], m, x, y, key);
      }
    }
  }
}
