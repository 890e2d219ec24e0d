/** The temporary version file read back by the script: the line it writes is a
    version line again, one fix number further. */
module VersionRoundTrip {
  import opened Results
  import opened PyText
  import opened IntRoundTrip
  import opened VersionBump

  /** The parts of a version that the written line reads back unchanged: no '.',
      no line break, and no quote in front. `ParseVersion` only produces such parts. */
  predicate Renderable(main: string, sub: string)
  {
    && '.' !in main && '.' !in sub
    && '\n' !in main && '\n' !in sub
    && (main == [] || main[0] != '"')
  }

  /** Running the script on the temporary file it wrote bumps the fix number once
      more: the written line reads back as the version it was written from. */
  lemma {:induction false} RerunBumpsAgain(main: string, sub: string, n: int)
    requires Renderable(main, sub)
    ensures RunSetup(OutLine(Render(main, sub, n))) ==
      Bumped(Render(main, sub, n + 1), OutLine(Render(main, sub, n + 1)))
  {
    var v := Render(main, sub, n);
    var line := "__version__ = \"" + v + "\"";
    assert '\n' !in v by { RenderHasNoBreak(main, sub, n); }
    WrittenLineSplits(v, line);
    var g := "\"" + v + "\"";
    WrittenLineClassified(v, line, g);
    WrittenLineSteps(main, sub, n, line, g);
    BlankStep();
    StepsOfTwo(line, "");
    OneSetThenSkip(Render(main, sub, n + 1));
  }

  lemma RenderHasNoBreak(main: string, sub: string, n: int)
    requires '\n' !in main && '\n' !in sub
    ensures '\n' !in Render(main, sub, n)
  {
    var fix := IntToString(n);
    assert '\n' !in fix by {
      forall i | 0 <= i < |fix| ensures fix[i] != '\n' {
        if i > 0 { assert IsDigit(fix[i]); }
      }
    }
  }

  lemma BlankStep()
    ensures Step("") == Skip
  {
    assert Strip("", IsAsciiSpace) == [];
  }

  lemma StepsOfTwo(a: string, b: string)
    ensures Steps([a, b]) == [Step(a), Step(b)]
  {
    assert [a, b][1..] == [b];
    assert [b][1..] == [];
  }

  lemma OneSetThenSkip(x: string)
    ensures Loop([SetVersion(x), Skip], None) == Bumped(x, OutLine(x))
  {
    assert [SetVersion(x), Skip][1..] == [Skip];
    assert [Skip][1..] == [];
  }

  /** The written file is one line and an empty remainder. */
  lemma WrittenLineSplits(v: string, line: string)
    requires line == "__version__ = \"" + v + "\"" && '\n' !in v
    ensures Split(OutLine(v), '\n') == [line, ""]
  {
    assert OutLine(v) == line + ['\n'] + "";
    assert '\n' !in line;
    assert Join([line, ""], '\n') == line + ['\n'] + "" by {
      assert [line, ""][1..] == [""];
    }
    SplitJoin([line, ""], '\n');
  }

  /** The written line, once classified as a candidate with the quoted version as
      its group, sets the version one fix number further. */
  lemma WrittenLineSteps(main: string, sub: string, n: int, line: string, g: string)
    requires Renderable(main, sub)
    requires g == "\"" + Render(main, sub, n) + "\""
    requires ClassifyLine(line) == Candidate(g)
    ensures Step(line) == SetVersion(Render(main, sub, n + 1))
  {
    WrittenVersionParses(main, sub, n, g);
    StepOfCandidate(line, g);
  }

  /** A candidate line whose group parses sets the bumped version. */
  lemma StepOfCandidate(line: string, g: string)
    requires ClassifyLine(line) == Candidate(g) && ParseVersion(g).Version?
    ensures Step(line) == SetVersion(NewVersion(ParseVersion(g)))
  {
  }

  /** The quoted rendered version parses back into its parts, and bumping it
      renders the next fix number. */
  lemma WrittenVersionParses(main: string, sub: string, n: int, g: string)
    requires Renderable(main, sub)
    requires g == "\"" + Render(main, sub, n) + "\""
    ensures ParseVersion(g) == Version(main, sub, IntToString(n), n)
    ensures NewVersion(ParseVersion(g)) == Render(main, sub, n + 1)
  {
    var v := Render(main, sub, n);
    var fix := IntToString(n);
    RenderEnds(main, sub, n);
    QuotesStripped(v);
    assert '.' !in fix by {
      forall i | 0 <= i < |fix| ensures fix[i] != '.' {
        if i > 0 { assert IsDigit(fix[i]); }
      }
    }
    ThreePartsOf(main, sub, fix);
    IntToStringRoundTrip(n);
    ParsesAs(g, v, main, sub, fix, n);
  }

  /** The bumped version splits back into the parsed main and sub parts and a fix
      part that `int()` reads as the fix number plus one. */
  lemma NewVersionMeaning(g: string, p: Parsed)
    requires p == ParseVersion(g) && p.Version?
    ensures Split(NewVersion(p), '.') == [p.main, p.sub, IntToString(p.fix + 1)]
    ensures ParseInt(IntToString(p.fix + 1)) == Some(p.fix + 1)
  {
    ParsedPartsDotFree(g, p);
    RenderSplits(p.main, p.sub, p.fix + 1);
  }

  lemma ParsedPartsDotFree(g: string, p: Parsed)
    requires p == ParseVersion(g) && p.Version?
    ensures '.' !in p.main && '.' !in p.sub
  {
    ParseVersionMeaning(g);
  }

  /** A rendered version with dot-free main and sub parts splits into its parts. */
  lemma RenderSplits(main: string, sub: string, n: int)
    requires '.' !in main && '.' !in sub
    ensures Split(Render(main, sub, n), '.') == [main, sub, IntToString(n)]
    ensures ParseInt(IntToString(n)) == Some(n)
  {
    var fix := IntToString(n);
    assert '.' !in fix by {
      forall i | 0 <= i < |fix| ensures fix[i] != '.' {
        if i > 0 { assert IsDigit(fix[i]); }
      }
    }
    ThreePartsOf(main, sub, fix);
    IntToStringRoundTrip(n);
  }

  lemma ParsesAs(g: string, version: string, a: string, b: string, c: string, n: int)
    requires Strip(g, IsQuote) == version
    requires Split(version, '.') == [a, b, c]
    requires ParseInt(c) == Some(n)
    ensures ParseVersion(g) == Version(a, b, c, n)
  {
  }

  /** A rendered version is not empty and neither starts nor ends with a quote. */
  lemma RenderEnds(main: string, sub: string, n: int)
    requires main == [] || main[0] != '"'
    ensures var v := Render(main, sub, n); v != [] && v[0] != '"' && v[|v| - 1] != '"'
  {
    var v := Render(main, sub, n);
    var fix := IntToString(n);
    assert v == (main + "." + sub + ".") + fix;
    assert v[|v| - 1] == fix[|fix| - 1];
    if main == [] { assert v[0] == '.'; } else { assert v[0] == main[0]; }
  }

  lemma WrittenLineClassified(v: string, line: string, g: string)
    requires line == "__version__ = \"" + v + "\"" && g == "\"" + v + "\""
    ensures ClassifyLine(line) == Candidate(g)
  {
    WrittenLineUnstripped(line);
    WrittenLineMatches(v, line);
  }

  lemma WrittenLineUnstripped(line: string)
    requires |line| > 14 && line[0] == '_' && line[|line| - 1] == '"'
    ensures Strip(line, IsAsciiSpace) == line
  {
    StripKeeps(line, IsAsciiSpace);
  }

  /** The written line matches the version pattern at its start, and the group is the
      quoted version. */
  lemma WrittenLineMatches(v: string, line: string)
    requires line == "__version__ = \"" + v + "\""
    ensures Search(line, 0) == Some("\"" + v + "\"")
  {
    assert line[..|VersionKey|] == VersionKey;
    assert line[11] == ' ' && line[12] == '=' && line[13] == ' ' && line[14] == '"';
    assert SpaceRun(line, 11) == 1;
    assert SpaceRun(line, 13) == 1;
    assert line[14..] == "\"" + v + "\"";
    assert MatchAt(line, 0) == Some(line[14..]);
  }

  /** Leading zeros of the fix number are not kept: "1.2.07" becomes "1.2.8". */
  lemma LeadingZerosDropped()
    ensures ParseVersion("\"1.2.07\"") == Version("1", "2", "07", 7)
    ensures NewVersion(Version("1", "2", "07", 7)) == "1.2.8"
  {
    ZeroSevenParses();
    SevenWithLeadingZero();
    EightRendered();
  }

  lemma ZeroSevenParses()
    ensures ParseVersion("\"1.2.07\"") == Version("1", "2", "07", 7)
  {
    ZeroSevenUnquoted();
    ZeroSevenSplits();
    SevenWithLeadingZero();
    ParsesAs("\"1.2.07\"", "1.2.07", "1", "2", "07", 7);
  }

  lemma ZeroSevenUnquoted()
    ensures Strip("\"1.2.07\"", IsQuote) == "1.2.07"
  {
    assert "\"1.2.07\"" == "\"" + "1.2.07" + "\"";
    QuotesStripped("1.2.07");
  }

  lemma ZeroSevenSplits()
    ensures Split("1.2.07", '.') == ["1", "2", "07"]
  {
    assert "1" + "." + "2" + "." + "07" == "1.2.07";
    ThreePartsOf("1", "2", "07");
  }

  lemma EightRendered()
    ensures Render("1", "2", 8) == "1.2.8"
  {
    assert DigitChar(8) == '8';
    assert NatToString(8) == "8";
  }

  /** Surrounding quotes come off a version that neither starts nor ends with one. */
  lemma QuotesStripped(v: string)
    requires v != [] && v[0] != '"' && v[|v| - 1] != '"'
    ensures Strip("\"" + v + "\"", IsQuote) == v
  {
    var g := "\"" + v + "\"";
    assert g[1..] == v + "\"";
    assert TrimLeft(g, IsQuote) == v + "\"";
    assert (v + "\"")[..|v|] == v;
    assert TrimRight(v + "\"", IsQuote) == v;
  }

  /** Three dot-free parts joined with '.' split back into themselves. */
  lemma ThreePartsOf(a: string, b: string, c: string)
    requires '.' !in a && '.' !in b && '.' !in c
    ensures Split(a + "." + b + "." + c, '.') == [a, b, c]
  {
    JoinThree(a, b, c, '.');
    assert a + "." + b + "." + c == a + ['.'] + (b + ['.'] + c);
    SplitJoin([a, b, c], '.');
  }

  lemma SevenWithLeadingZero()
    ensures ParseInt("07") == Some(7)
  {
    var d := "07";
    assert AllDigits(d);
    ValueOfZeroSeven();
    ParseDigits(d);
  }

  lemma ValueOfZeroSeven()
    ensures AllDigits("07") && DigitsValue("07") == 7
  {
    var d := "07";
    assert d[..1] == "0";
    assert DigitsValue("0") == 0 by {
      assert "0"[..0] == "";
    }
  }
}
