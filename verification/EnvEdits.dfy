/** What a render changes and what it leaves alone, and why a second render changes nothing. */
module EnvEdits {
  import opened Text
  import opened EnvFile

  /** A key that stays on one line and ends at the first `=`; every identifier does. */
  predicate LineKey(key: string) { OneLine(key) && '=' !in key }

  predicate ValidSetting(s: Setting) { LineKey(s.key) && OneLine(s.value) }

  ghost predicate DistinctKeys(config: seq<Setting>) {
    forall i, j | 0 <= i < j < |config| :: config[i].key != config[j].key
  }

  ghost predicate ValidConfig(config: seq<Setting>) {
    DistinctKeys(config) && forall i | 0 <= i < |config| :: ValidSetting(config[i])
  }

  // ---------------------------------------------------------------------------
  // Lines and the keys they start with
  // ---------------------------------------------------------------------------

  lemma OneKeyPerLine(line: string, k1: string, k2: string)
    requires '=' !in k1 && '=' !in k2
    requires StartsWith(line, k1 + "=") && StartsWith(line, k2 + "=")
    ensures k1 == k2
  {
    assert line[|k1|] == (k1 + "=")[|k1|] && line[|k2|] == (k2 + "=")[|k2|];
    assert forall i | 0 <= i < |k1| :: line[i] == (k1 + "=")[i] == k1[i];
    assert forall i | 0 <= i < |k2| :: line[i] == (k2 + "=")[i] == k2[i];
  }

  lemma LineForIsOneLine(s: Setting)
    requires ValidSetting(s)
    ensures OneLine(LineFor(s)) && StartsWith(LineFor(s), s.key + "=") && LineFor(s) != ""
  {
    EscapeKeepsShape(s.value);
  }

  lemma FirstWithIs(segs: seq<string>, key: string, i: nat)
    requires i < |segs| && StartsWith(segs[i], key + "=")
    requires forall j | 0 <= j < i :: !StartsWith(segs[j], key + "=")
    ensures FirstWith(segs, key) == i
  {}

  /** Rewriting a line of one key moves no key's first line. */
  lemma FirstWithAfterEdit(segs: seq<string>, i: nat, line: string, key: string, other: string)
    requires i < |segs| && '=' !in key && '=' !in other
    requires StartsWith(segs[i], key + "=") && StartsWith(line, key + "=")
    ensures FirstWith(segs[i := line], other) == FirstWith(segs, other)
  {
    if StartsWith(segs[i], other + "=") { OneKeyPerLine(segs[i], key, other); }
    if StartsWith(line, other + "=") { OneKeyPerLine(line, key, other); }
    var edited := segs[i := line];
    assert forall j | 0 <= j < |segs| :: StartsWith(edited[j], other + "=") <==> StartsWith(segs[j], other + "=");
    if FirstWith(segs, other) >= 0 {
      FirstWithIs(edited, other, FirstWith(segs, other));
    }
  }

  // ---------------------------------------------------------------------------
  // The frame
  // ---------------------------------------------------------------------------

  /** Line `i` after the edits: rewritten when it is the first line of some setting, verbatim otherwise. */
  function EditedLine(segs: seq<string>, config: seq<Setting>, i: nat): string
    requires i < |segs|
  {
    if config == [] then segs[i]
    else
      var s := config[|config| - 1];
      if FirstWith(segs, s.key) == i then LineFor(s) else EditedLine(segs, config[..|config| - 1], i)
  }

  /** The lines of the settings that have no line yet, in configuration order. */
  function NewLines(segs: seq<string>, config: seq<Setting>): seq<string> {
    if config == [] then []
    else
      var s := config[|config| - 1];
      var before := NewLines(segs, config[..|config| - 1]);
      if FirstWith(segs, s.key) < 0 then before + [LineFor(s)] else before
  }

  lemma ReplaceFirstSegments(text: string, s: Setting)
    requires ValidSetting(s) && Matches(text, s.key)
    ensures var segs, edited := Segments(text), Segments(ReplaceFirst(text, s.key, LineFor(s)));
            && edited == segs[FirstWith(segs, s.key) := LineFor(s)]
            && Terminators(ReplaceFirst(text, s.key, LineFor(s))) == Terminators(text)
            && forall k | '=' !in k :: FirstWith(edited, k) == FirstWith(segs, k)
  {
    hide Segments, Terminators, Escape;
    AssembleSegments(text);
    LineForIsOneLine(s);
    var segs := Segments(text);
    var i := FirstWith(segs, s.key);
    SegmentsOfAssemble(segs[i := LineFor(s)], Terminators(text));
    forall k | '=' !in k
      ensures FirstWith(segs[i := LineFor(s)], k) == FirstWith(segs, k)
    {
      FirstWithAfterEdit(segs, i, LineFor(s), s.key, k);
    }
  }

  /** Every line survives verbatim, in order, except the first line of each setting; terminators never change. */
  lemma {:induction false} EditFrame(config: seq<Setting>, base: string)
    requires ValidConfig(config)
    ensures var (text, appended) := Edit(config, base);
            var segs := Segments(base);
            && Terminators(text) == Terminators(base)
            && |Segments(text)| == |segs|
            && (forall i | 0 <= i < |segs| :: Segments(text)[i] == EditedLine(segs, config, i))
            && appended == NewLines(segs, config)
            && (forall k | '=' !in k :: FirstWith(Segments(text), k) == FirstWith(segs, k))
  {
    hide Segments, Terminators, FirstWith, LineFor;
    if config != [] {
      var n := |config| - 1;
      EditFrame(config[..n], base);
      var text := Edit(config[..n], base).0;
      assert ValidSetting(config[n]);
      if Matches(text, config[n].key) {
        ReplaceFirstSegments(text, config[n]);
      }
    }
  }

  /** The first line of each setting carries that setting after the edits. */
  lemma {:induction false} EditedFirstLine(segs: seq<string>, config: seq<Setting>, j: nat)
    requires ValidConfig(config) && j < |config|
    requires FirstWith(segs, config[j].key) >= 0
    ensures EditedLine(segs, config, FirstWith(segs, config[j].key)) == LineFor(config[j])
  {
    var n := |config| - 1;
    var i := FirstWith(segs, config[j].key);
    if j < n {
      if FirstWith(segs, config[n].key) == i {
        assert ValidSetting(config[n]) && ValidSetting(config[j]);
        OneKeyPerLine(segs[i], config[j].key, config[n].key);
        assert false;
      } else {
        EditedFirstLine(segs, config[..n], j);
      }
    }
  }

  // ---------------------------------------------------------------------------
  // Appending
  // ---------------------------------------------------------------------------

  /** The margin between the edited text and the appended lines. */
  function Bridge(text: string): string {
    if text != "" && !EndsWithNewline(text) then text + "\n" else text
  }

  lemma {:induction false} SegmentsOfAppended(lines: seq<string>)
    requires lines != [] && forall k | 0 <= k < |lines| :: OneLine(lines[k])
    ensures Segments(Join(lines, '\n') + "\n") == lines + [""]
  {
    hide Segments, Terminators, OneLine;
    if |lines| == 1 {
      SegmentsOfFinalNewline(lines[0]);
      SegmentsOfOneLine(lines[0]);
    } else {
      var rest := Join(lines[1..], '\n') + "\n";
      assert Join(lines, '\n') + "\n" == lines[0] + ['\n'] + rest;
      SegmentsAtTerminator(lines[0], '\n', rest);
      SegmentsOfAppended(lines[1..]);
    }
  }

  /** The bridge is empty or a body and a final newline. */
  lemma BridgeBody(text: string) returns (body: string)
    requires text != ""
    ensures Bridge(text) == body + "\n" && (body == text || body + "\n" == text)
  {
    body := if EndsWithNewline(text) then text[..|text| - 1] else text;
  }

  lemma BridgeEndsEmpty(text: string) returns (kept: seq<string>)
    ensures Segments(Bridge(text)) == kept + [""]
    ensures kept == Segments(text) || kept + [""] == Segments(text)
  {
    if text == "" {
      kept := [];
    } else {
      var body := BridgeBody(text);
      hide Segments, Bridge;
      SegmentsOfFinalNewline(body);
      kept := Segments(body);
    }
  }

  /** The lines of the result: those of the text, without its empty last one, then the appended ones. */
  lemma SegmentsOfAppend(text: string, lines: seq<string>) returns (kept: seq<string>)
    requires lines != [] && forall k | 0 <= k < |lines| :: OneLine(lines[k])
    ensures Segments(Append(text, lines)) == kept + lines + [""]
    ensures kept == Segments(text) || kept + [""] == Segments(text)
  {
    hide Segments, Terminators;
    var front, back := Bridge(text), Join(lines, '\n') + "\n";
    assert Append(text, lines) == front + back;
    SegmentsOfConcat(front, back);
    SegmentsOfAppended(lines);
    kept := BridgeEndsEmpty(text);
    GlueAfterEmpty(kept, lines + [""]);
    assert kept + (lines + [""]) == kept + lines + [""];
  }

  function EditedLines(segs: seq<string>, config: seq<Setting>): (r: seq<string>)
    ensures |r| == |segs| && forall i | 0 <= i < |segs| :: r[i] == EditedLine(segs, config, i)
  {
    seq(|segs|, i requires 0 <= i < |segs| => EditedLine(segs, config, i))
  }

  /**
   * The whole result: every line of the base verbatim and in order except the first line of each setting, then one
   * line per setting that had none. Appending takes the place of an empty last line, and no terminator is lost.
   */
  lemma RenderFrame(config: seq<Setting>, base: string) returns (kept: seq<string>)
    requires ValidConfig(config)
    ensures var lines, added := EditedLines(Segments(base), config), NewLines(Segments(base), config);
            && (kept == lines || (added != [] && kept + [""] == lines))
            && Segments(Render(config, base)) == (if added == [] then kept else kept + added + [""])
            && Terminators(base) <= Terminators(Render(config, base))
  {
    hide Segments, Terminators, Edit, NewLines, EditedLine;
    EditFrame(config, base);
    AppendedAreLines(config, base);
    var (text, appended) := Edit(config, base);
    assert Segments(text) == EditedLines(Segments(base), config);
    if appended == [] {
      kept := Segments(text);
      AppendNothing(text);
    } else {
      kept := SegmentsOfAppend(text, appended);
      AppendExtends(text, appended);
    }
  }

  lemma AppendExtends(text: string, lines: seq<string>)
    ensures Terminators(text) <= Terminators(Append(text, lines))
  {
    hide Terminators;
    var back := Append(text, lines)[|text|..];
    assert Append(text, lines) == text + back;
    SegmentsOfConcat(text, back);
  }

  // ---------------------------------------------------------------------------
  // Idempotence
  // ---------------------------------------------------------------------------

  /** The first line of every setting already reads as the setting wants it. */
  ghost predicate Settled(text: string, config: seq<Setting>) {
    forall j | 0 <= j < |config| :: SettledOn(Segments(text), config[j])
  }

  ghost predicate SettledOn(segs: seq<string>, s: Setting) {
    FirstWith(segs, s.key) >= 0 && segs[FirstWith(segs, s.key)] == LineFor(s)
  }

  lemma {:induction false} EditOfSettled(text: string, config: seq<Setting>)
    requires Settled(text, config)
    ensures Edit(config, text) == (text, [])
  {
    hide Segments, Terminators, LineFor;
    if config != [] {
      var n := |config| - 1;
      EditOfSettled(text, config[..n]);
      assert SettledOn(Segments(text), config[n]);
      AssembleSegments(text);
      assert Segments(text)[FirstWith(Segments(text), config[n].key) := LineFor(config[n])] == Segments(text);
    }
  }

  lemma {:induction false} NewLineOf(segs: seq<string>, config: seq<Setting>, j: nat) returns (k: nat)
    requires ValidConfig(config) && j < |config| && FirstWith(segs, config[j].key) < 0
    ensures k < |NewLines(segs, config)| && NewLines(segs, config)[k] == LineFor(config[j])
  {
    var n := |config| - 1;
    if j < n {
      k := NewLineOf(segs, config[..n], j);
    } else {
      k := |NewLines(segs, config)| - 1;
    }
  }

  /** Which setting an appended line belongs to. */
  lemma {:induction false} NewLineOrigin(segs: seq<string>, config: seq<Setting>, k: nat) returns (j: nat)
    requires k < |NewLines(segs, config)|
    ensures j < |config| && NewLines(segs, config)[k] == LineFor(config[j]) && FirstWith(segs, config[j].key) < 0
  {
    var n := |config| - 1;
    var before := NewLines(segs, config[..n]);
    if k < |before| {
      j := NewLineOrigin(segs, config[..n], k);
    } else {
      j := n;
    }
  }

  /** A line that starts with a key's assignment is in the result where it was before appending. */
  lemma FirstWithInAppended(kept: seq<string>, text: seq<string>, lines: seq<string>, key: string)
    requires kept == text || kept + [""] == text
    ensures FirstWith(text, key) >= 0 ==>
              && FirstWith(text, key) < |kept|
              && FirstWith(kept + lines + [""], key) == FirstWith(text, key)
              && (kept + lines + [""])[FirstWith(text, key)] == text[FirstWith(text, key)]
    ensures FirstWith(text, key) < 0 ==> forall i | 0 <= i < |kept| :: !StartsWith(kept[i], key + "=")
  {
    var all := kept + lines + [""];
    assert forall i | 0 <= i < |kept| :: all[i] == kept[i] == text[i];
    var i := FirstWith(text, key);
    if i >= 0 {
      FirstWithIs(all, key, i);
    }
  }

  lemma SettledAfterRender(config: seq<Setting>, base: string, j: nat)
    requires ValidConfig(config) && j < |config|
    ensures SettledOn(Segments(Render(config, base)), config[j])
  {
    hide Segments, Terminators, FirstWith, LineFor, Edit, NewLines, EditedLine, StartsWith;
    var (text, appended) := Edit(config, base);
    var segs := Segments(base);
    var s := config[j];
    EditFrame(config, base);
    if FirstWith(segs, s.key) >= 0 {
      EditedFirstLine(segs, config, j);
      if appended != [] {
        AppendedAreLines(config, base);
        var kept := SegmentsOfAppend(text, appended);
        FirstWithInAppended(kept, Segments(text), appended, s.key);
      }
    } else {
      var k := NewLineOf(segs, config, j);
      AppendedAreLines(config, base);
      var kept := SegmentsOfAppend(text, appended);
      FirstWithInAppended(kept, Segments(text), appended, s.key);
      FirstAppended(config, segs, kept, j, k);
    }
  }

  lemma AppendedAreLines(config: seq<Setting>, base: string)
    requires ValidConfig(config)
    ensures var lines := NewLines(Segments(base), config); forall k | 0 <= k < |lines| :: OneLine(lines[k])
  {
    hide Segments;
    var lines := NewLines(Segments(base), config);
    forall k | 0 <= k < |lines|
      ensures OneLine(lines[k])
    {
      var j := NewLineOrigin(Segments(base), config, k);
      LineForIsOneLine(config[j]);
    }
  }

  /** Among kept and appended lines, the appended line of a setting is the first one that starts with its key. */
  lemma FirstAppended(config: seq<Setting>, segs: seq<string>, kept: seq<string>, j: nat, k: nat)
    requires ValidConfig(config) && j < |config|
    requires k < |NewLines(segs, config)| && NewLines(segs, config)[k] == LineFor(config[j])
    requires forall i | 0 <= i < |kept| :: !StartsWith(kept[i], config[j].key + "=")
    ensures SettledOn(kept + NewLines(segs, config) + [""], config[j])
  {
    hide NewLines, LineFor;
    var lines := NewLines(segs, config);
    var all := kept + lines + [""];
    var s := config[j];
    LineForIsOneLine(s);
    forall m | 0 <= m < |lines| && StartsWith(lines[m], s.key + "=")
      ensures lines[m] == LineFor(s)
    {
      var o := NewLineOrigin(segs, config, m);
      assert ValidSetting(config[o]);
      LineForIsOneLine(config[o]);
      OneKeyPerLine(lines[m], s.key, config[o].key);
    }
    assert all[|kept| + k] == lines[k];
    var i := FirstWith(all, s.key);
    assert 0 <= i <= |kept| + k;
    assert i >= |kept| by { assert forall m | 0 <= m < |kept| :: all[m] == kept[m]; }
    assert all[i] == lines[i - |kept|];
  }

  /** A second render with the same configuration changes nothing, whatever the base. */
  lemma RenderIsIdempotent(config: seq<Setting>, base: string)
    requires ValidConfig(config)
    ensures Render(config, Render(config, base)) == Render(config, base)
  {
    hide Segments, Terminators, Edit, Append;
    var text := Render(config, base);
    forall j | 0 <= j < |config|
      ensures SettledOn(Segments(text), config[j])
    {
      SettledAfterRender(config, base, j);
    }
    EditOfSettled(text, config);
    assert Append(text, []) == text by { AppendNothing(text); }
  }

  lemma AppendNothing(text: string)
    ensures Append(text, []) == text
  {}

  // ---------------------------------------------------------------------------
  // One setting
  // ---------------------------------------------------------------------------

  /** The first segment of a text that starts with a one-line string starts with it too. */
  lemma FirstSegmentStart(text: string, start: string)
    requires OneLine(start) && StartsWith(text, start)
    ensures StartsWith(Segments(text)[0], start)
    ensures Segments(text)[0] <= text && (!OneLine(text) ==> |Segments(text)[0]| < |text|)
  {
    hide Segments;
    var s, t, rest := FirstSegment(text);
    if text == s {
      SegmentsOfOneLine(text);
    } else {
      SegmentsAtTerminator(s, t, rest);
      assert |start| <= |s| by {
        assert text[|s|] == t;
        assert |start| > |s| ==> !OneLine(start);
      }
      assert text[..|start|] == s[..|start|];
    }
  }

  lemma RenderMatched(s: Setting, text: string)
    requires Matches(text, s.key)
    ensures Render([s], text) == ReplaceFirst(text, s.key, LineFor(s))
  {
    hide Segments, Terminators, LineFor, ReplaceFirst;
    assert [s][..0] == [];
    assert Edit([], text) == (text, []);
    assert Edit([s], text) == (ReplaceFirst(text, s.key, LineFor(s)), []);
    AppendNothing(ReplaceFirst(text, s.key, LineFor(s)));
  }
}
