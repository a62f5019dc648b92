/** Rendering twice: exactly when the second render changes nothing. */
module EnvIdempotence {
  import opened Text
  import opened EnvFile
  import opened EnvEdits
  import opened EnvLines

  /** Settings with distinct keys and values of any shape. */
  ghost predicate KeyedConfig(config: seq<Setting>) {
    DistinctKeys(config) && forall i | 0 <= i < |config| :: LineKey(config[i].key)
  }

  // ---------------------------------------------------------------------------
  // After a render every key matches
  // ---------------------------------------------------------------------------

  lemma OwnMatch(s: Setting)
    requires LineKey(s.key)
    ensures Matches(LineFor(s), s.key)
  {
    hide Segments, Escape;
    FirstSegmentStart(LineFor(s), s.key + "=");
    FirstWithIs(Segments(LineFor(s)), s.key, 0);
  }

  /** An edit keeps the matches of all keys, its own included. */
  lemma EditKeepsMatch(text: string, s: Setting, key: string)
    requires LineKey(s.key) && LineKey(key) && Matches(text, s.key) && (Matches(text, key) || key == s.key)
    ensures Matches(ReplaceFirst(text, s.key, LineFor(s)), key)
  {
    hide Matches, ReplaceFirst, LineFor, OneLine;
    OwnMatch(s);
    MatchStays(text, s.key, LineFor(s), key);
  }

  lemma {:induction false} EditsKeepMatch(config: seq<Setting>, base: string, key: string)
    requires KeyedConfig(config) && LineKey(key) && Matches(base, key)
    ensures Matches(Edit(config, base).0, key)
  {
    hide Matches, ReplaceFirst, LineFor, LineKey;
    if config != [] {
      var n := |config| - 1;
      EditsKeepMatch(config[..n], base, key);
      var text := Edit(config[..n], base).0;
      if Matches(text, config[n].key) {
        EditKeepsMatch(text, config[n], key);
      }
    }
  }

  /** After the edits a key matches, or its line is still to append. */
  lemma {:induction false} EditedOrAppended(config: seq<Setting>, base: string, i: nat)
    requires KeyedConfig(config) && i < |config|
    ensures Matches(Edit(config, base).0, config[i].key) || LineFor(config[i]) in Edit(config, base).1
  {
    hide Matches, ReplaceFirst, LineFor, LineKey;
    var n := |config| - 1;
    var s, text := config[n], Edit(config[..n], base).0;
    if i < n {
      EditedOrAppended(config[..n], base, i);
    }
    if Matches(text, s.key) && (i == n || Matches(text, config[i].key)) {
      EditKeepsMatch(text, s, config[i].key);
    }
  }

  lemma {:induction false} MatchInJoined(lines: seq<string>, key: string, k: nat)
    requires k < |lines| && Matches(lines[k], key)
    ensures Matches(Join(lines, '\n'), key)
  {
    hide Matches, IsLineTerminator;
    if |lines| > 1 {
      NewlineTerminates();
      ReplaceAround(lines[0], '\n', Join(lines[1..], '\n'), key, "");
      if k > 0 {
        MatchInJoined(lines[1..], key, k - 1);
      }
    }
  }

  /** Appending keeps every match and adds those of the appended lines. */
  lemma AppendKeepsMatch(text: string, lines: seq<string>, key: string)
    requires Matches(text, key) || exists k | 0 <= k < |lines| :: Matches(lines[k], key)
    ensures Matches(Append(text, lines), key)
  {
    hide Matches, Join, IsLineTerminator;
    if lines != [] {
      var joined := Join(lines, '\n');
      if k :| 0 <= k < |lines| && Matches(lines[k], key) {
        MatchInJoined(lines, key, k);
      }
      NewlineTerminates();
      ReplaceAround(joined, '\n', "", key, "");
      assert joined + ['\n'] + "" == joined + "\n";
      NothingMatches(key);
      if text == "" {
        assert Append(text, lines) == joined + "\n";
      } else {
        var body := BridgeBody(text);
        ReplaceAround(body, '\n', joined + "\n", key, "");
        ReplaceAround(body, '\n', "", key, "");
        assert body + ['\n'] + "" == body + "\n";
        assert Append(text, lines) == body + ['\n'] + (joined + "\n");
      }
    }
  }

  lemma NothingMatches(key: string)
    ensures !Matches("", key)
  {
    OneLineMatch("", key);
  }

  lemma RenderMatchesAll(config: seq<Setting>, base: string, i: nat)
    requires KeyedConfig(config) && i < |config|
    ensures Matches(Render(config, base), config[i].key)
  {
    hide Matches, Edit, Append, LineFor, LineKey;
    var (text, appended) := Edit(config, base);
    EditedOrAppended(config, base, i);
    if LineFor(config[i]) in appended {
      OwnMatch(config[i]);
    }
    AppendKeepsMatch(text, appended, config[i].key);
  }

  // ---------------------------------------------------------------------------
  // The terminators an edit adds
  // ---------------------------------------------------------------------------

  lemma TerminatorsOfThree(a: string, b: string, c: string)
    ensures |Terminators(a + b + c)| == |Terminators(a)| + |Terminators(b)| + |Terminators(c)|
  {
    hide Segments, Terminators;
    SegmentsOfConcat(a + b, c);
    SegmentsOfConcat(a, b);
  }

  lemma EditAddsTerminators(text: string, key: string, x: string)
    requires Matches(text, key)
    ensures |Terminators(ReplaceFirst(text, key, x))| == |Terminators(text)| + |Terminators(x)|
  {
    hide Segments, Terminators, Left, Right, ReplaceFirst, OneLine;
    ReplaceFirstAt(text, key, x);
    var seg := Matched(text, key);
    AssembleSegments(text);
    SegmentsOfOneLine(seg);
    TerminatorsOfThree(Left(text, key), x, Right(text, key));
    TerminatorsOfThree(Left(text, key), seg, Right(text, key));
  }

  /** How many terminators the written lines contain. */
  function Added(config: seq<Setting>): nat {
    if config == [] then 0 else Added(config[..|config| - 1]) + |Terminators(LineFor(config[|config| - 1]))|
  }

  /** On a text where every key matches nothing is appended, and the terminators of the written lines come in. */
  lemma {:induction false} EditsAddTerminators(config: seq<Setting>, text: string)
    requires KeyedConfig(config) && forall i | 0 <= i < |config| :: Matches(text, config[i].key)
    ensures Edit(config, text).1 == []
    ensures |Terminators(Edit(config, text).0)| == |Terminators(text)| + Added(config)
  {
    hide Matches, ReplaceFirst, LineFor, LineKey, Terminators;
    if config != [] {
      var n := |config| - 1;
      EditsAddTerminators(config[..n], text);
      EditsKeepMatch(config[..n], text, config[n].key);
      EditAddsTerminators(Edit(config[..n], text).0, config[n].key, LineFor(config[n]));
    }
  }

  lemma NotOneLineSuffix(a: string, b: string)
    ensures !OneLine(b) || !OneLine(a) ==> !OneLine(a + b)
  {
    assert forall i | 0 <= i < |a| :: (a + b)[i] == a[i];
    assert forall i | 0 <= i < |b| :: (a + b)[|a| + i] == b[i];
  }

  lemma {:induction false} EscapeKeepsTerminators(value: string)
    requires !OneLine(value)
    ensures !OneLine(Escape(value))
  {
    if !IsLineTerminator(value[0]) {
      assert !OneLine(value[1..]) by {
        assert forall i | 0 < i < |value| :: value[i] == value[1..][i - 1];
      }
      EscapeKeepsTerminators(value[1..]);
      NotOneLineSuffix(if value[0] == '$' then "$$" else [value[0]], Escape(value[1..]));
    } else {
      assert IsLineTerminator(Escape(value)[0]);
    }
  }

  lemma LineForTerminators(s: Setting)
    requires LineKey(s.key)
    ensures Terminators(LineFor(s)) == "" <==> OneLine(s.value)
  {
    hide Segments, Terminators, Escape;
    var line := LineFor(s);
    if OneLine(s.value) {
      LineForIsOneLine(s);
      SegmentsOfOneLine(line);
    } else {
      EscapeKeepsTerminators(s.value);
      NotOneLineSuffix(s.key + "=", Escape(s.value));
      NoTerminatorsMeansOneLine(line);
    }
  }

  lemma NoTerminatorsMeansOneLine(x: string)
    ensures Terminators(x) == "" ==> OneLine(x)
  {
    hide Segments, Terminators;
    AssembleSegments(x);
  }

  lemma {:induction false} NothingAddedExactly(config: seq<Setting>)
    requires forall i | 0 <= i < |config| :: LineKey(config[i].key)
    ensures Added(config) == 0 <==> forall i | 0 <= i < |config| :: OneLine(config[i].value)
  {
    hide LineFor, LineKey, OneLine, Terminators;
    if config != [] {
      var n := |config| - 1;
      NothingAddedExactly(config[..n]);
      LineForTerminators(config[n]);
      assert forall i | 0 <= i < n :: config[..n][i] == config[i];
    }
  }

  /** On every base, rendering twice equals rendering once exactly when all values stay on one line. */
  lemma IdempotentExactly(config: seq<Setting>, base: string)
    requires KeyedConfig(config)
    ensures Render(config, Render(config, base)) == Render(config, base) <==>
            forall i | 0 <= i < |config| :: OneLine(config[i].value)
  {
    hide Edit, Append, Matches, LineKey, OneLine, Terminators, Added;
    NothingAddedExactly(config);
    if forall i | 0 <= i < |config| :: OneLine(config[i].value) {
      RenderIsIdempotent(config, base);
    } else {
      var text := Render(config, base);
      forall i | 0 <= i < |config|
        ensures Matches(text, config[i].key)
      {
        RenderMatchesAll(config, base, i);
      }
      EditsAddTerminators(config, text);
      AppendNothing(Edit(config, text).0);
    }
  }

  /** A value of two lines: each render adds another line. */
  lemma TwoLineValueGrows(base: string)
    ensures var config := [Setting("K", "a\nb")]; Render(config, Render(config, base)) != Render(config, base)
  {
    var config := [Setting("K", "a\nb")];
    hide Render;
    assert IsLineTerminator(config[0].value[1]);
    IdempotentExactly(config, base);
  }
}
