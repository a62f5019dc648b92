/** Slugs and DNS labels (`packages/shared/src/index.ts`). */
module Subdomains {
  import opened Text

  predicate IsLabelChar(c: char) { IsLowerAlnum(c) || c == '-' }

  function SkipOthers(s: string): (r: string)
    ensures |r| <= |s|
    ensures r != "" ==> IsLowerAlnum(r[0])
  {
    if s != "" && !IsLowerAlnum(s[0]) then SkipOthers(s[1..]) else s
  }

  /** `replace(/[^a-z0-9]+/g, '-')`. */
  function Collapse(s: string): string
    decreases |s|
  {
    if s == "" then ""
    else if IsLowerAlnum(s[0]) then [s[0]] + Collapse(s[1..])
    else "-" + Collapse(SkipOthers(s[1..]))
  }

  function StripLeft(s: string): string {
    if s != "" && s[0] == '-' then StripLeft(s[1..]) else s
  }

  function StripRight(s: string): string {
    if s != "" && s[|s| - 1] == '-' then StripRight(s[..|s| - 1]) else s
  }

  function Take(s: string, n: nat): string { if |s| <= n then s else s[..n] }

  function SlugifySubdomain(input: string): string {
    StripRight(Take(StripRight(StripLeft(Collapse(Lower(input)))), 63))
  }

  /** The regular expression: one alphanumeric, or up to 63 characters between two of them. */
  predicate IsValidSubdomain(text: string) {
    && 1 <= |text| <= 63
    && IsLowerAlnum(text[0]) && IsLowerAlnum(text[|text| - 1])
    && forall i | 0 <= i < |text| :: IsLabelChar(text[i])
  }

  predicate NoDoubleHyphen(s: string) {
    forall i | 0 <= i < |s| - 1 :: s[i] != '-' || s[i + 1] != '-'
  }

  predicate HasAlnum(s: string) {
    exists i | 0 <= i < |s| :: IsLowerAlnum(s[i])
  }

  /** What every later step keeps: label characters without adjacent hyphens. */
  predicate Tidy(s: string) {
    (forall i | 0 <= i < |s| :: IsLabelChar(s[i])) && NoDoubleHyphen(s)
  }

  lemma TidyPart(s: string, i: nat, j: nat)
    requires Tidy(s) && i <= j <= |s|
    ensures Tidy(s[i..j])
  {
    var p := s[i..j];
    assert forall k | 0 <= k < |p| :: p[k] == s[i + k];
  }

  lemma {:induction false} SkipKeepsAlnum(s: string)
    ensures HasAlnum(SkipOthers(s)) <==> HasAlnum(s)
  {
    if s != "" && !IsLowerAlnum(s[0]) {
      SkipKeepsAlnum(s[1..]);
      HasAlnumStep(s);
    }
  }

  lemma HasAlnumStep(s: string)
    requires s != ""
    ensures HasAlnum(s) <==> IsLowerAlnum(s[0]) || HasAlnum(s[1..])
  {
    hide IsLowerAlnum;
    if i :| 0 <= i < |s| && IsLowerAlnum(s[i]) {
      assert i > 0 ==> s[1..][i - 1] == s[i];
    }
    if i :| 0 <= i < |s[1..]| && IsLowerAlnum(s[1..][i]) {
      assert s[i + 1] == s[1..][i];
    }
  }

  lemma {:induction false} CollapseIsTidy(s: string)
    ensures Tidy(Collapse(s))
    ensures s != "" && IsLowerAlnum(s[0]) ==> Collapse(s) != "" && Collapse(s)[0] == s[0]
    ensures HasAlnum(Collapse(s)) <==> HasAlnum(s)
    decreases |s|
  {
    hide HasAlnum;
    if s == "" {
      assert Collapse(s) == "";
    } else {
      var rest := if IsLowerAlnum(s[0]) then s[1..] else SkipOthers(s[1..]);
      CollapseIsTidy(rest);
      SkipKeepsAlnum(s[1..]);
      HasAlnumStep(s);
      HasAlnumStep(Collapse(s));
      var c := Collapse(s);
      assert c[1..] == Collapse(rest);
      assert rest == "" ==> Collapse(rest) == "";
      TidyCons(c[0], Collapse(rest));
      assert c == [c[0]] + Collapse(rest);
    }
  }

  lemma TidyCons(c: char, rest: string)
    requires Tidy(rest) && IsLabelChar(c) && (c == '-' && rest != "" ==> rest[0] != '-')
    ensures Tidy([c] + rest)
  {
    var s := [c] + rest;
    assert forall k | 0 < k < |s| :: s[k] == rest[k - 1];
  }

  lemma {:induction false} StripLeftIs(s: string) returns (k: nat)
    ensures k <= |s| && StripLeft(s) == s[k..]
    ensures StripLeft(s) != "" ==> StripLeft(s)[0] != '-'
    ensures HasAlnum(StripLeft(s)) <==> HasAlnum(s)
  {
    hide HasAlnum;
    k := 0;
    if s != "" && s[0] == '-' {
      k := StripLeftIs(s[1..]);
      HasAlnumStep(s);
      assert s[1..][k..] == s[k + 1..];
      k := k + 1;
    }
  }

  lemma {:induction false} StripRightIs(s: string)
    ensures StripRight(s) <= s
    ensures StripRight(s) != "" ==> StripRight(s)[|StripRight(s)| - 1] != '-'
    ensures s != "" && s[0] != '-' ==> StripRight(s) != ""
  {
    if s != "" && s[|s| - 1] == '-' {
      StripRightIs(s[..|s| - 1]);
    }
  }

  /** A tidy string that does not start with a hyphen is empty or has an alphanumeric. */
  lemma TidyWithoutAlnum(s: string)
    requires Tidy(s) && (s != "" ==> s[0] != '-')
    ensures HasAlnum(s) <==> s != ""
  {
    if s != "" {
      assert IsLabelChar(s[0]);
    }
  }

  lemma StripLeftOfTidy(c: string)
    requires Tidy(c)
    ensures var l := StripLeft(c); Tidy(l) && (l != "" ==> l[0] != '-') && (HasAlnum(c) <==> l != "")
  {
    hide StripLeft, HasAlnum, Tidy;
    var k := StripLeftIs(c);
    TidyPart(c, k, |c|);
    assert c[k..|c|] == c[k..];
    TidyWithoutAlnum(StripLeft(c));
  }

  /** The cut at 63 characters and the hyphens it may leave at the end. */
  lemma CutOfTidy(l: string)
    requires Tidy(l) && (l != "" ==> l[0] != '-')
    ensures var slug := StripRight(Take(StripRight(l), 63));
            && Tidy(slug) && |slug| <= 63 && slug <= l
            && (slug == "" <==> l == "")
            && (slug != "" ==> slug[|slug| - 1] != '-')
  {
    hide StripRight, Tidy;
    var m := StripRight(l);
    StripRightIs(l);
    var t := Take(m, 63);
    StripRightIs(t);
    var slug := StripRight(t);
    TidyPart(l, 0, |slug|);
    assert l[0..|slug|] == slug;
  }

  /** The slug is a valid label without adjacent hyphens, or empty when nothing usable remains. */
  lemma SlugShape(input: string)
    ensures SlugifySubdomain(input) == "" <==> !HasAlnum(Lower(input))
    ensures SlugifySubdomain(input) != "" ==>
              IsValidSubdomain(SlugifySubdomain(input)) && NoDoubleHyphen(SlugifySubdomain(input))
  {
    hide Collapse, StripLeft, StripRight, Lower, HasAlnum, Take;
    CollapseIsTidy(Lower(input));
    StripLeftOfTidy(Collapse(Lower(input)));
    CutOfTidy(StripLeft(Collapse(Lower(input))));
  }

  lemma {:induction false} CollapseOfTidy(s: string)
    requires Tidy(s)
    ensures Collapse(s) == s
    decreases |s|
  {
    if s != "" {
      TidyPart(s, 1, |s|);
      assert s[1..|s|] == s[1..];
      CollapseOfTidy(s[1..]);
      assert s == [s[0]] + s[1..];
      assert IsLabelChar(s[0]);
      if !IsLowerAlnum(s[0]) {
        assert |s| > 1 ==> IsLabelChar(s[1]);
        assert SkipOthers(s[1..]) == s[1..];
      }
    }
  }

  lemma {:induction false} LowerOfTidy(s: string)
    requires forall i | 0 <= i < |s| :: IsLabelChar(s[i])
    ensures Lower(s) == s
  {
    assert forall i | 0 <= i < |s| :: Lower(s)[i] == LowerChar(s[i]) == s[i];
  }

  /** The fixed points are the empty string and the valid labels without adjacent hyphens, and no others. */
  lemma FixedExactly(s: string)
    ensures SlugifySubdomain(s) == s <==> s == "" || (IsValidSubdomain(s) && NoDoubleHyphen(s))
  {
    hide Collapse, StripLeft, StripRight, Lower;
    SlugShape(s);
    if s == "" || (IsValidSubdomain(s) && NoDoubleHyphen(s)) {
      LowerOfTidy(s);
      CollapseOfTidy(s);
      StripsNothing(s);
    }
  }

  lemma StripsNothing(s: string)
    requires s == "" || (s[0] != '-' && s[|s| - 1] != '-')
    ensures StripLeft(s) == s && StripRight(s) == s
  {}

  lemma SlugifyIsIdempotent(input: string)
    ensures SlugifySubdomain(SlugifySubdomain(input)) == SlugifySubdomain(input)
  {
    hide SlugifySubdomain, HasAlnum;
    SlugShape(input);
    FixedExactly(SlugifySubdomain(input));
  }

  // ---------------------------------------------------------------------------
  // What a slug says
  // ---------------------------------------------------------------------------

  /** The longest beginning that is all letters and digits. */
  function LeadingRun(s: string): (r: string)
    ensures r <= s && forall i | 0 <= i < |r| :: IsLowerAlnum(r[i])
    ensures |r| < |s| ==> !IsLowerAlnum(s[|r|])
  {
    if s != "" && IsLowerAlnum(s[0]) then
      assert s == [s[0]] + s[1..];
      [s[0]] + LeadingRun(s[1..])
    else ""
  }

  /** The runs of letters and digits of a text, in order. */
  function Words(s: string): (words: seq<string>)
    ensures forall k | 0 <= k < |words| :: words[k] != "" && forall i | 0 <= i < |words[k]| :: IsLowerAlnum(words[k][i])
    decreases |s|
  {
    if s == "" then []
    else if !IsLowerAlnum(s[0]) then Words(s[1..])
    else [LeadingRun(s)] + Words(s[|LeadingRun(s)|..])
  }

  lemma {:induction false} WordsAfterOthers(s: string)
    ensures Words(SkipOthers(s)) == Words(s)
  {
    if s != "" && !IsLowerAlnum(s[0]) {
      WordsAfterOthers(s[1..]);
    }
  }

  lemma {:induction false} CollapseOfRun(s: string)
    ensures Collapse(s) == LeadingRun(s) + Collapse(s[|LeadingRun(s)|..])
    decreases |s|
  {
    if s != "" && IsLowerAlnum(s[0]) {
      CollapseOfRun(s[1..]);
      var run := LeadingRun(s[1..]);
      assert s[1..][|run|..] == s[|run| + 1..];
      assert [s[0]] + (run + Collapse(s[1..][|run|..])) == [s[0]] + run + Collapse(s[1..][|run|..]);
    } else {
      assert s[0..] == s && "" + Collapse(s) == Collapse(s);
    }
  }

  lemma WordsJoined(words: seq<string>)
    requires forall k | 0 <= k < |words| :: words[k] != ""
    ensures Join(words, '-') == "" <==> words == []
  {
    if words != [] {
      assert |Join(words, '-')| >= |words[0]|;
    }
  }

  lemma JoinWord(word: string, words: seq<string>)
    ensures Join([word] + words, '-') == if words == [] then word else word + "-" + Join(words, '-')
  {
    assert ([word] + words)[1..] == words;
  }

  lemma StepsAtOthers(s: string)
    requires s != "" && !IsLowerAlnum(s[0])
    ensures var rest := SkipOthers(s[1..]);
            Collapse(s) == "-" + Collapse(rest) && Words(s) == Words(rest) && (rest != "" ==> IsLowerAlnum(rest[0]))
  {
    WordsAfterOthers(s[1..]);
  }

  lemma StepsAtRun(s: string)
    requires s != "" && IsLowerAlnum(s[0])
    ensures var word := LeadingRun(s);
            var rest := s[|word|..];
            && word != "" && Collapse(s) == word + Collapse(rest) && Words(s) == [word] + Words(rest)
            && (rest != "" ==> !IsLowerAlnum(rest[0]))
  {
    CollapseOfRun(s);
  }

  /** Collapsing joins the words by single hyphens, with at most one more hyphen at either end. */
  lemma {:induction false} CollapseJoinsWords(s: string) returns (lead: string, trail: string)
    ensures Collapse(s) == lead + Join(Words(s), '-') + trail
    ensures lead == (if s != "" && !IsLowerAlnum(s[0]) then "-" else "")
    ensures trail == "" || (trail == "-" && Words(s) != [])
    decreases |s|
  {
    hide Join, Collapse, Words, LeadingRun, SkipOthers, IsLowerAlnum;
    WordsJoined(Words(s));
    if s == "" {
      lead, trail := "", "";
      NothingToJoin();
    } else if !IsLowerAlnum(s[0]) {
      var rest := SkipOthers(s[1..]);
      StepsAtOthers(s);
      var inner, after := CollapseJoinsWords(rest);
      lead, trail := "-", after;
      assert "-" + ("" + Join(Words(rest), '-') + after) == "-" + Join(Words(rest), '-') + after;
    } else {
      var word := LeadingRun(s);
      var rest := s[|word|..];
      StepsAtRun(s);
      WordsJoined(Words(rest));
      var inner, after := CollapseJoinsWords(rest);
      JoinWord(word, Words(rest));
      lead := "";
      if Words(rest) == [] {
        trail := inner;
        assert word + (inner + "" + "") == "" + word + inner;
      } else {
        trail := after;
        assert rest != "" by { NothingToJoin(); }
        ConcatAssociates(word, "-" + Join(Words(rest), '-'), after);
        ConcatAssociates(word, "-", Join(Words(rest), '-'));
        assert Collapse(s) == word + "-" + Join(Words(rest), '-') + after;
        assert "" + Join(Words(s), '-') == Join(Words(s), '-');
      }
    }
  }

  lemma NothingToJoin()
    ensures Collapse("") == "" && Words("") == [] && Join([], '-') == ""
  {}

  /** Joined words start and end with a letter or a digit and have no two adjacent hyphens. */
  lemma JoinedWordsShape(s: string)
    ensures var j := Join(Words(s), '-');
            j != "" ==> j[0] != '-' && j[|j| - 1] != '-' && NoDoubleHyphen(j)
  {
    hide Join, Collapse, StripRight, StripLeft;
    var lead, trail := CollapseJoinsWords(s);
    var j := Join(Words(s), '-');
    CollapseIsTidy(s);
    TidyPart(Collapse(s), |lead|, |lead| + |j|);
    assert Collapse(s)[|lead|..|lead| + |j|] == j;
    WordsJoined(Words(s));
    if j != "" {
      JoinedEnds(Words(s));
    }
  }

  lemma {:induction false} JoinedEnds(words: seq<string>)
    requires words != []
    requires forall k | 0 <= k < |words| ::
               words[k] != "" && forall i | 0 <= i < |words[k]| :: IsLowerAlnum(words[k][i])
    ensures var j := Join(words, '-'); j != "" && IsLowerAlnum(j[0]) && IsLowerAlnum(j[|j| - 1])
  {
    assert IsLowerAlnum(words[0][0]) && IsLowerAlnum(words[0][|words[0]| - 1]);
    if |words| > 1 {
      JoinedEnds(words[1..]);
    }
  }

  lemma StripsLead(lead: string, body: string)
    requires lead in ["", "-"] && (body != "" ==> body[0] != '-')
    ensures StripLeft(lead + body) == body
  {
    if lead == "" {
      assert lead + body == body;
    } else {
      assert (lead + body)[1..] == body;
    }
  }

  lemma StripsTrail(j: string, trail: string)
    requires trail in ["", "-"] && (j != "" ==> j[|j| - 1] != '-')
    ensures StripRight(j + trail) == j
  {
    if trail == "" {
      assert j + trail == j;
    } else {
      assert (j + trail)[..|j|] == j;
    }
  }

  lemma StripsToWords(lead: string, j: string, trail: string)
    requires lead in ["", "-"] && trail in ["", "-"] && (j == "" ==> trail == "")
    requires j != "" ==> j[0] != '-' && j[|j| - 1] != '-'
    ensures StripRight(StripLeft(lead + j + trail)) == j
  {
    hide StripLeft, StripRight;
    ConcatAssociates(lead, j, trail);
    StripsLead(lead, j + trail);
    StripsTrail(j, trail);
  }

  /**
   * The slug is the words of the lowered input joined by single hyphens; a result of more than 63 characters is cut
   * there, and one character earlier when the cut falls behind a hyphen.
   */
  lemma SlugSaysItsWords(input: string)
    ensures var j := Join(Words(Lower(input)), '-');
            SlugifySubdomain(input) == if |j| <= 63 then j else if j[62] == '-' then j[..62] else j[..63]
  {
    hide Join, Collapse, StripLeft, StripRight, Lower;
    var s := Lower(input);
    var lead, trail := CollapseJoinsWords(s);
    var j := Join(Words(s), '-');
    WordsJoined(Words(s));
    JoinedWordsShape(s);
    StripsToWords(lead, j, trail);
    CutOfJoined(j);
  }

  lemma CutOfJoined(j: string)
    requires j != "" ==> NoDoubleHyphen(j) && j[|j| - 1] != '-'
    ensures StripRight(Take(j, 63)) == if |j| <= 63 then j else if j[62] == '-' then j[..62] else j[..63]
  {
    if |j| > 63 {
      var t := j[..63];
      assert t[62] == j[62] && t[61] == j[61];
      assert t[..62] == j[..62];
      if j[62] == '-' {
        assert j[61] != '-';
        assert StripRight(j[..62]) == j[..62] by { assert j[..62][61] == j[61]; }
      }
    }
  }

  /** A valid label the slug changes. */
  lemma DoubleHyphenIsNotFixed()
    ensures IsValidSubdomain("a--b") && SlugifySubdomain("a--b") != "a--b"
  {
    hide SlugifySubdomain;
    FixedExactly("a--b");
    assert "a--b"[1] == '-' && "a--b"[2] == '-';
  }
}
