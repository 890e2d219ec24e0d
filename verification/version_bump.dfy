/** The version-bump loop of the packaging script: every line of the version file
    that is neither blank nor a `#` comment must read `__version__ = "A.B.C"`; each
    such line rewrites the temporary version file with `__version__ = "A.B.(C+1)"`,
    and the last one also gives the version handed to the package metadata.

    The file is read in binary and iterated line by line; here it is the text split
    at '\n'. Both readings give the same lines up to the '\n' itself and a final
    empty piece, and both of those disappear in the strip that starts every line. */
module VersionBump {
  import opened Results
  import opened PyText

  const VersionKey: string := "__version__"

  /** The length of the run of regex whitespace (`\s`) starting at `j`. */
  function SpaceRun(line: string, j: nat): (n: nat)
    requires j <= |line|
    ensures j + n <= |line|
    decreases |line| - j
  {
    if j < |line| && IsUnicodeSpace(line[j]) then 1 + SpaceRun(line, j + 1) else 0
  }

  /** The run is all whitespace and stops at the end of the line or at a character
      that is not whitespace. */
  lemma {:induction false} SpaceRunMeaning(line: string, j: nat)
    requires j <= |line|
    ensures forall k :: j <= k < j + SpaceRun(line, j) ==> IsUnicodeSpace(line[k])
    ensures j + SpaceRun(line, j) == |line| || !IsUnicodeSpace(line[j + SpaceRun(line, j)])
    decreases |line| - j
  {
    if j < |line| && IsUnicodeSpace(line[j]) {
      SpaceRunMeaning(line, j + 1);
    }
  }

  /** The pattern `__version__\s+=\s+(.*)` tried at position `i` of a line without
      '\n': the text the group captures. Both `\s+` runs are greedy; the first must
      be followed by '=', and the group takes the rest of the line. */
  function MatchAt(line: string, i: nat): (g: Option<string>)
    requires i <= |line|
    ensures g.Some? ==> |g.value| <= |line| && g.value == line[|line| - |g.value|..]
  {
    if i + |VersionKey| <= |line| && line[i..i + |VersionKey|] == VersionKey then
      var j := i + |VersionKey|;
      var k := j + SpaceRun(line, j);
      if k > j && k < |line| && line[k] == '=' then
        var l := k + 1 + SpaceRun(line, k + 1);
        if l > k + 1 then Some(line[l..]) else None
      else None
    else None
  }

  /** `re.search`: the match at the leftmost position where the pattern matches. */
  function Search(line: string, i: nat): Option<string>
    requires i <= |line|
    decreases |line| - i
  {
    if MatchAt(line, i).Some? then MatchAt(line, i)
    else if i == |line| then None
    else Search(line, i + 1)
  }

  /** Every character of `line[i..j]` is regex whitespace. */
  predicate SpacesBetween(line: string, i: int, j: int)
    requires 0 <= i <= j <= |line|
  {
    forall k :: i <= k < j ==> IsUnicodeSpace(line[k])
  }

  /** `__version__\s+=\s+(.*)` matches at `p` with its '=' at `e` and its group
      starting at `gs`: the key, one or more spaces, '=', one or more spaces, and
      the rest of the line as the group. The group does not start with a space:
      the greedy `\s+` before it takes them all. The lines searched never hold
      '\n', so `.*` reaches the end of the line. */
  predicate PatternAt(line: string, p: int, e: int, gs: int)
  {
    && 0 <= p && p + |VersionKey| < e && e + 1 < gs <= |line|
    && line[p..p + |VersionKey|] == VersionKey
    && SpacesBetween(line, p + |VersionKey|, e)
    && line[e] == '='
    && SpacesBetween(line, e + 1, gs)
    && (gs == |line| || !IsUnicodeSpace(line[gs]))
  }

  /** `SpaceRun` is the whole run: spaces up to `e` and none at `e`. */
  lemma {:induction false} SpaceRunIs(line: string, j: nat, e: nat)
    requires j <= e <= |line| && SpacesBetween(line, j, e)
    requires e == |line| || !IsUnicodeSpace(line[e])
    ensures SpaceRun(line, j) == e - j
    decreases e - j
  {
    if j < e {
      SpaceRunIs(line, j + 1, e);
    }
  }

  /** The pattern tried at `p` captures `g` exactly when it matches there with
      `g` as the rest of the line after the second run of spaces. */
  lemma MatchAtMeaning(line: string, p: nat, g: string)
    requires p <= |line|
    ensures MatchAt(line, p) == Some(g) <==> exists e, gs :: PatternAt(line, p, e, gs) && g == line[gs..]
  {
    if MatchAt(line, p) == Some(g) {
      MatchFollowsPattern(line, p);
    }
    if exists e, gs :: PatternAt(line, p, e, gs) && g == line[gs..] {
      var e, gs :| PatternAt(line, p, e, gs) && g == line[gs..];
      PatternGivesMatch(line, p, e, gs);
    }
  }

  lemma MatchFollowsPattern(line: string, p: nat)
    requires p <= |line| && MatchAt(line, p).Some?
    ensures exists e, gs :: PatternAt(line, p, e, gs) && MatchAt(line, p).value == line[gs..]
  {
    var j := p + |VersionKey|;
    var e := j + SpaceRun(line, j);
    var gs := e + 1 + SpaceRun(line, e + 1);
    SpaceRunMeaning(line, j);
    SpaceRunMeaning(line, e + 1);
    assert PatternAt(line, p, e, gs);
  }

  lemma PatternGivesMatch(line: string, p: nat, e: nat, gs: nat)
    requires PatternAt(line, p, e, gs)
    ensures MatchAt(line, p) == Some(line[gs..])
  {
    SpaceRunIs(line, p + |VersionKey|, e);
    SpaceRunIs(line, e + 1, gs);
  }

  /** `p` is the leftmost position from `i` on where the pattern matches, and it
      captures `g` there. */
  predicate LeftmostMatch(line: string, i: nat, p: nat, g: string)
  {
    && i <= p <= |line|
    && MatchAt(line, p) == Some(g)
    && forall q :: i <= q < p ==> MatchAt(line, q).None?
  }

  /** `re.search` finds the leftmost position from `i` on where the pattern
      matches, and captures what the match there captures. */
  lemma {:induction false} SearchIsLeftmost(line: string, i: nat, g: string)
    requires i <= |line|
    ensures Search(line, i) == Some(g) <==> exists p :: LeftmostMatch(line, i, p, g)
    decreases |line| - i
  {
    if MatchAt(line, i).Some? {
      SearchMatchesHere(line, i, g);
    } else if i < |line| {
      SearchIsLeftmost(line, i + 1, g);
      SearchMovesOn(line, i, i + 1, g);
    } else {
      SearchAtEnd(line, i, g);
    }
  }

  lemma SearchMovesOn(line: string, i: nat, j: nat, g: string)
    requires i < |line| && j == i + 1 && MatchAt(line, i).None?
    requires Search(line, j) == Some(g) <==> exists p :: LeftmostMatch(line, j, p, g)
    ensures Search(line, i) == Some(g) <==> exists p :: LeftmostMatch(line, i, p, g)
  {
    assert Search(line, i) == Search(line, j);
    forall p: nat
      ensures LeftmostMatch(line, i, p, g) <==> LeftmostMatch(line, j, p, g)
    {
      LeftmostSkips(line, i, j, p, g);
    }
  }

  lemma SearchAtEnd(line: string, i: nat, g: string)
    requires i == |line| && MatchAt(line, i).None?
    ensures Search(line, i).None? && !exists p :: LeftmostMatch(line, i, p, g)
  {
  }

  /** `re.search` finds nothing exactly when the pattern matches at no position
      from `i` on. */
  lemma {:induction false} SearchFindsNothing(line: string, i: nat)
    requires i <= |line|
    ensures Search(line, i).None? <==> forall p :: i <= p <= |line| ==> MatchAt(line, p).None?
    decreases |line| - i
  {
    if MatchAt(line, i).None? && i < |line| {
      SearchFindsNothing(line, i + 1);
    }
  }

  /** A match at `i` itself is the leftmost one. */
  lemma SearchMatchesHere(line: string, i: nat, g: string)
    requires i <= |line| && MatchAt(line, i).Some?
    ensures Search(line, i) == Some(g) <==> exists p :: LeftmostMatch(line, i, p, g)
  {
    assert Search(line, i) == MatchAt(line, i);
    assert forall p :: LeftmostMatch(line, i, p, g) ==> p == i;
    if MatchAt(line, i) == Some(g) {
      assert LeftmostMatch(line, i, i, g);
    }
  }

  /** When the pattern does not match at `i`, the leftmost match from `i` is the
      leftmost match from `i + 1`. */
  lemma LeftmostSkips(line: string, i: nat, j: nat, p: nat, g: string)
    requires i < |line| && j == i + 1 && MatchAt(line, i).None?
    ensures LeftmostMatch(line, i, p, g) <==> LeftmostMatch(line, j, p, g)
  {
  }

  /** How the loop treats one line. */
  datatype LineKind = Blank | Comment | Candidate(group: string) | NoMatch

  function ClassifyLine(raw: string): (k: LineKind)
    ensures k.Blank? <==> Strip(raw, IsAsciiSpace) == []
    ensures k.Comment? <==> Strip(raw, IsAsciiSpace) != [] && Strip(raw, IsAsciiSpace)[0] == '#'
  {
    var line := Strip(raw, IsAsciiSpace);
    if line == [] then Blank
    else if line[0] == '#' then Comment
    else
      match Search(line, 0)
      case None => NoMatch
      case Some(g) => Candidate(g)
  }

  /** A stripped line is blank when empty and a comment when it starts with '#'
      (the pattern `^#.*`); any other line is a candidate exactly when the version
      pattern is found in it, with the group the search captures, and otherwise
      it does not match. */
  lemma ClassifyLineMeaning(raw: string)
    ensures var line := Strip(raw, IsAsciiSpace);
      && (ClassifyLine(raw).Blank? <==> line == [])
      && (ClassifyLine(raw).Comment? <==> line != [] && line[0] == '#')
      && (forall g :: ClassifyLine(raw) == Candidate(g) <==>
            line != [] && line[0] != '#' && Search(line, 0) == Some(g))
      && (ClassifyLine(raw).NoMatch? <==> line != [] && line[0] != '#' && Search(line, 0).None?)
  {
  }

  /** Why the script stops with an exception. */
  datatype BumpError =
    | NoVersionMatch            // `.group` on the `None` of a failed search
    | WrongPartCount(count: nat) // unpacking `split(".")` into three names
    | FixNotInteger(fix: string) // `int()` of the third part
    | VersionUndefined          // `new_version` read before any line set it

  /** The three parts of a parsed version. */
  datatype Parsed = Version(main: string, sub: string, fixText: string, fix: int) | Unparsable(error: BumpError)

  predicate IsQuote(c: char)
  {
    c == '"'
  }

  /** Strip the surrounding quotes, split at '.', and check the three parts. */
  function ParseVersion(group: string): Parsed
  {
    var version := Strip(group, IsQuote);
    var parts := Split(version, '.');
    if |parts| != 3 then Unparsable(WrongPartCount(|parts|))
    else if ParseInt(parts[2]).None? then Unparsable(FixNotInteger(parts[2]))
    else Version(parts[0], parts[1], parts[2], ParseInt(parts[2]).value)
  }

  /** A parsed version is three dot-free parts whose '.'-join is the unquoted group,
      the first not starting with a quote, and the fix part is what `int()` makes of
      its text; a failure is a part count other than three, or a third part `int()`
      rejects, carried in the error. */
  lemma ParseVersionMeaning(group: string)
    ensures var p := ParseVersion(group);
      p.Version? ==>
        && Join([p.main, p.sub, p.fixText], '.') == Strip(group, IsQuote)
        && '.' !in p.main && '.' !in p.sub && '.' !in p.fixText
        && (p.main == [] || p.main[0] != '"')
        && ParseInt(p.fixText) == Some(p.fix)
    ensures var p := ParseVersion(group); var parts := Split(Strip(group, IsQuote), '.');
      p.Unparsable? ==>
        (p.error.WrongPartCount? && p.error.count == |parts| && p.error.count != 3)
        || (p.error.FixNotInteger? && |parts| == 3 && p.error.fix == parts[2] && ParseInt(p.error.fix).None?)
    ensures var p := ParseVersion(group);
      p.Unparsable? && p.error.WrongPartCount? <==> |Split(Strip(group, IsQuote), '.')| != 3
  {
    var version := Strip(group, IsQuote);
    var parts := Split(version, '.');
    if |parts| == 3 {
      ThreeParts(version, parts);
    }
  }

  /** The converse: an unquoted group that is three dot-free parts joined by '.',
      whose third part `int()` reads as `n`, parses as exactly those parts. */
  lemma ParseVersionOf(group: string, a: string, b: string, c: string, n: int)
    requires Join([a, b, c], '.') == Strip(group, IsQuote)
    requires '.' !in a && '.' !in b && '.' !in c
    requires ParseInt(c) == Some(n)
    ensures ParseVersion(group) == Version(a, b, c, n)
  {
    SplitJoinThree(a, b, c);
    ParseThreeParts(group, [a, b, c]);
  }

  lemma SplitJoinThree(a: string, b: string, c: string)
    requires '.' !in a && '.' !in b && '.' !in c
    ensures Split(Join([a, b, c], '.'), '.') == [a, b, c]
  {
    var parts := [a, b, c];
    forall i | 0 <= i < |parts|
      ensures '.' !in parts[i]
    {
    }
    SplitJoin(parts, '.');
  }

  lemma ParseThreeParts(group: string, parts: seq<string>)
    requires parts == Split(Strip(group, IsQuote), '.') && |parts| == 3
    requires ParseInt(parts[2]).Some?
    ensures ParseVersion(group) == Version(parts[0], parts[1], parts[2], ParseInt(parts[2]).value)
  {
  }

  lemma ThreeParts(version: string, parts: seq<string>)
    requires parts == Split(version, '.') && |parts| == 3
    ensures Join([parts[0], parts[1], parts[2]], '.') == version
    ensures '.' !in parts[0] && '.' !in parts[1] && '.' !in parts[2]
    ensures parts[0] != [] ==> parts[0][0] == version[0]
  {
    var whole := parts[0] + ['.'] + (parts[1] + ['.'] + parts[2]);
    JoinThree(parts[0], parts[1], parts[2], '.');
    assert parts == [parts[0], parts[1], parts[2]];
    assert version == whole;
    if parts[0] != [] {
      assert whole[0] == parts[0][0];
    }
  }

  lemma JoinThree(a: string, b: string, c: string, sep: char)
    ensures Join([a, b, c], sep) == a + [sep] + (b + [sep] + c)
  {
    assert [a, b, c][1..] == [b, c];
    assert [b, c][1..] == [c];
    assert Join([c], sep) == c;
    assert Join([b, c], sep) == b + [sep] + c;
  }

  /** `main + "." + sub + "." + str(n)`. */
  function Render(main: string, sub: string, n: int): string
  {
    main + "." + sub + "." + IntToString(n)
  }

  /** The version written for a parsed line: the fix number plus one. */
  function NewVersion(p: Parsed): (v: string)
    requires p.Version?
  {
    Render(p.main, p.sub, p.fix + 1)
  }

  /** The line written to the temporary version file. */
  function OutLine(newVersion: string): string
  {
    "__version__ = \"" + newVersion + "\"\n"
  }

  /** What the run leaves behind: the version passed on, and the temporary file's
      content as last written by this run. */
  datatype SetupRun =
    | Bumped(newVersion: string, tmpFile: string)
    | Crashed(error: BumpError, tmpSoFar: Option<string>)

  function Written(last: Option<string>): Option<string>
  {
    if last.Some? then Some(OutLine(last.value)) else None
  }

  /** What one line does to the loop: nothing, set `new_version` (and rewrite the
      temporary file), or raise. */
  datatype LineStep = Skip | SetVersion(version: string) | Stop(error: BumpError)

  function Step(line: string): LineStep
  {
    match ClassifyLine(line)
    case Blank => Skip
    case Comment => Skip
    case NoMatch => Stop(NoVersionMatch)
    case Candidate(g) =>
      var p := ParseVersion(g);
      if p.Unparsable? then Stop(p.error) else SetVersion(NewVersion(p))
  }

  /** A line is skipped exactly when it is blank or a comment once stripped; a
      line that does not match the pattern raises; a line sets a version only
      when its group parses, and then it is the bumped one; a group that does
      not parse raises its error. */
  lemma StepMeaning(line: string)
    ensures Step(line).Skip? <==> ClassifyLine(line).Blank? || ClassifyLine(line).Comment?
    ensures ClassifyLine(line).NoMatch? ==> Step(line) == Stop(NoVersionMatch)
    ensures Step(line).SetVersion? <==>
      ClassifyLine(line).Candidate? && ParseVersion(ClassifyLine(line).group).Version?
    ensures Step(line).SetVersion? ==>
      Step(line).version == NewVersion(ParseVersion(ClassifyLine(line).group))
    ensures ClassifyLine(line).Candidate? && ParseVersion(ClassifyLine(line).group).Unparsable? ==>
      Step(line) == Stop(ParseVersion(ClassifyLine(line).group).error)
  {
  }

  function Steps(lines: seq<string>): (steps: seq<LineStep>)
    ensures |steps| == |lines|
    ensures forall i :: 0 <= i < |lines| ==> steps[i] == Step(lines[i])
  {
    if lines == [] then []
    else
      var rest := Steps(lines[1..]);
      assert forall j :: 0 <= j < |rest| ==> rest[j] == Step(lines[j + 1]);
      [Step(lines[0])] + rest
  }

  /** The loop over the lines' steps, with `last` the `new_version` set so far; the
      run ends at the first `Stop`. */
  function Loop(steps: seq<LineStep>, last: Option<string>): (run: SetupRun)
    ensures run.Bumped? ==> run.tmpFile == OutLine(run.newVersion)
    ensures last.None? && (forall i :: 0 <= i < |steps| ==> !steps[i].SetVersion?) ==>
      run.Crashed? && run.tmpSoFar.None?
    decreases |steps|
  {
    if steps == [] then
      match last
      case None => Crashed(VersionUndefined, None)
      case Some(v) => Bumped(v, OutLine(v))
    else
      match steps[0]
      case Skip => Loop(steps[1..], last)
      case SetVersion(v) => Loop(steps[1..], Some(v))
      case Stop(e) => Crashed(e, Written(last))
  }

  /** The script run on the text of the version file. */
  function RunSetup(content: string): SetupRun
  {
    Loop(Steps(Split(content, '\n')), None)
  }

  /** The script on the text of a version file, line by line: when no line raises,
      the last line that sets a version decides the run (and without one the
      script fails on the undefined `new_version`); otherwise the first line that
      raises ends it, leaving the temporary file as the lines before it wrote it. */
  lemma RunSetupMeaning(content: string, i: nat)
    ensures var steps := Steps(Split(content, '\n'));
      NoStop(steps) ==>
        RunSetup(content) ==
          if LastSet(steps, None).Some? then Bumped(LastSet(steps, None).value, OutLine(LastSet(steps, None).value))
          else Crashed(VersionUndefined, None)
    ensures var lines := Split(content, '\n'); var steps := Steps(lines);
      i < |lines| && Step(lines[i]).Stop? && NoStop(steps[..i]) ==>
        RunSetup(content) == Crashed(Step(lines[i]).error, Written(LastSet(steps[..i], None)))
  {
    var steps := Steps(Split(content, '\n'));
    if NoStop(steps) {
      LastQualifyingLineWins(steps, None);
    }
    if i < |steps| && steps[i].Stop? && NoStop(steps[..i]) {
      FirstStopCrashes(steps, None, i);
    }
  }

  predicate NoStop(steps: seq<LineStep>)
  {
    forall i :: 0 <= i < |steps| ==> !steps[i].Stop?
  }

  /** Reference definition of "the last qualifying line wins", read from the back. */
  function LastSet(steps: seq<LineStep>, last: Option<string>): Option<string>
    decreases |steps|
  {
    if steps == [] then last
    else if steps[|steps| - 1].SetVersion? then Some(steps[|steps| - 1].version)
    else LastSet(steps[..|steps| - 1], last)
  }

  function AfterStep(last: Option<string>, s: LineStep): Option<string>
  {
    if s.SetVersion? then Some(s.version) else last
  }

  lemma {:induction false} LastSetCons(s: LineStep, steps: seq<LineStep>, last: Option<string>)
    ensures LastSet([s] + steps, last) == LastSet(steps, AfterStep(last, s))
    decreases |steps|
  {
    var all := [s] + steps;
    if steps == [] {
      assert all[..0] == [];
    } else {
      assert all[..|all| - 1] == [s] + steps[..|steps| - 1];
      assert all[|all| - 1] == steps[|steps| - 1];
      LastSetCons(s, steps[..|steps| - 1], last);
    }
  }

  /** When no line raises, the run ends with the version of the last qualifying line
      and the temporary file holds that version; with no qualifying line at all the
      script fails on the undefined `new_version`. */
  lemma {:induction false} LastQualifyingLineWins(steps: seq<LineStep>, last: Option<string>)
    requires NoStop(steps)
    ensures LastSet(steps, last).Some? ==>
      Loop(steps, last) == Bumped(LastSet(steps, last).value, OutLine(LastSet(steps, last).value))
    ensures LastSet(steps, last).None? ==> Loop(steps, last) == Crashed(VersionUndefined, None)
    decreases |steps|
  {
    if steps != [] {
      var tail := steps[1..];
      assert forall i :: 0 <= i < |tail| ==> tail[i] == steps[i + 1];
      LastQualifyingLineWins(tail, AfterStep(last, steps[0]));
      LastSetCons(steps[0], tail, last);
      assert [steps[0]] + tail == steps;
    }
  }

  /** The first line that raises ends the run with its error; the temporary file
      keeps what the lines before it wrote. */
  lemma {:induction false} FirstStopCrashes(steps: seq<LineStep>, last: Option<string>, i: nat)
    requires i < |steps| && steps[i].Stop?
    requires NoStop(steps[..i])
    ensures Loop(steps, last) == Crashed(steps[i].error, Written(LastSet(steps[..i], last)))
    decreases i
  {
    if i == 0 {
      assert steps[..0] == [];
    } else {
      var tail := steps[1..];
      assert tail[i - 1] == steps[i];
      assert steps[..i] == [steps[0]] + tail[..i - 1];
      var pre := tail[..i - 1];
      forall j | 0 <= j < |pre|
        ensures !pre[j].Stop?
      {
        assert pre[j] == steps[..i][j + 1];
      }
      assert !steps[0].Stop? by { assert steps[..i][0] == steps[0]; }
      FirstStopCrashes(tail, AfterStep(last, steps[0]), i - 1);
      LastSetCons(steps[0], tail[..i - 1], last);
    }
  }

  /** Blank and comment lines can be dropped anywhere without changing the run. */
  lemma {:induction false} SkippedLinesDoNotMatter(before: seq<LineStep>, after: seq<LineStep>, last: Option<string>)
    ensures Loop(before + [Skip] + after, last) == Loop(before + after, last)
    decreases |before|
  {
    if before == [] {
      assert before + [Skip] + after == [Skip] + after;
      assert ([Skip] + after)[1..] == after;
      assert before + after == after;
    } else {
      var steps := before + [Skip] + after;
      assert steps[0] == before[0] && steps[1..] == before[1..] + [Skip] + after;
      assert (before + after)[0] == before[0] && (before + after)[1..] == before[1..] + after;
      SkippedLinesDoNotMatter(before[1..], after, AfterStep(last, before[0]));
    }
  }
}
