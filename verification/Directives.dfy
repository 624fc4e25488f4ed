/**
 * Splitting documentation lines into text and directives, and directive payloads into options and
 * content.
 */
module Directives {
  import opened Options

  type Line = string
  type Test = Line -> bool

  /** `str.isspace`, which is also the `\s` of a pattern over text. */
  predicate IsSpace(c: char) {
    || '\U{09}' <= c <= '\U{0D}' || '\U{1C}' <= c <= ' ' || c == '\U{85}' || c == '\U{A0}' || c == '\U{1680}'
    || '\U{2000}' <= c <= '\U{200A}' || c == '\U{2028}' || c == '\U{2029}' || c == '\U{202F}' || c == '\U{205F}'
    || c == '\U{3000}'
  }

  /** `not line.strip()`. */
  predicate IsBlank(line: Line) { forall i :: 0 <= i < |line| ==> IsSpace(line[i]) }

  /** A payload line: indented, or blank. */
  predicate IsContinuation(line: Line) {
    (line != [] && (line[0] == ' ' || line[0] == '\t')) || IsBlank(line)
  }

  /** `line.rstrip("\n")`. */
  function Stripped(line: Line): Line {
    if line != [] && line[|line| - 1] == '\n' then Stripped(line[..|line| - 1]) else line
  }

  function StrippedAll(lines: seq<Line>): (r: seq<Line>)
    ensures |r| == |lines|
  {
    seq(|lines|, i requires 0 <= i < |lines| => Stripped(lines[i]))
  }

  /** Length of the longest prefix whose elements all pass. */
  function Run<T>(xs: seq<T>, test: T -> bool): (k: nat)
    ensures k <= |xs|
    ensures forall i :: 0 <= i < k ==> test(xs[i])
    ensures k < |xs| ==> !test(xs[k])
  {
    if xs == [] || !test(xs[0]) then 0 else 1 + Run(xs[1..], test)
  }

  lemma {:induction false} RunIs<T>(a: seq<T>, b: seq<T>, test: T -> bool)
    requires forall i :: 0 <= i < |a| ==> test(a[i])
    requires b != [] ==> !test(b[0])
    ensures Run(a + b, test) == |a|
  {
    assert forall i :: 0 <= i < |a| ==> (a + b)[i] == a[i];
    if b != [] { assert (a + b)[|a|] == b[0]; }
  }

  /** Every element of a run passes, the next one does not, and the parts are the whole. */
  lemma RunSplits<T>(xs: seq<T>, test: T -> bool)
    ensures var k := Run(xs, test); xs == xs[..k] + xs[k..]
    ensures forall i :: 0 <= i < Run(xs, test) ==> test(xs[..Run(xs, test)][i])
  {
  }

  // ---- The patterns ----

  predicate IsNameChar(c: char) {
    'A' <= c <= 'Z' || 'a' <= c <= 'z' || '0' <= c <= '9' || c == '_' || c == '-'
  }

  /** The two character classes, spelled out. */
  lemma NameCharsAre(c: char)
    ensures IsNameChar(c)
       <==> c in "ABCDEFGHIJKLMNOPQRSTUVWXYZ" || c in "abcdefghijklmnopqrstuvwxyz" || c in "0123456789" || c in "_-"
  {
  }

  lemma SpacesAre(c: char)
    ensures IsSpace(c)
       <==> c in "\U{09}\U{0A}\U{0B}\U{0C}\U{0D}\U{1C}\U{1D}\U{1E}\U{1F}\U{20}\U{85}\U{A0}\U{1680}"
            || c in "\U{2000}\U{2001}\U{2002}\U{2003}\U{2004}\U{2005}\U{2006}\U{2007}\U{2008}\U{2009}\U{200A}"
            || c in "\U{2028}\U{2029}\U{202F}\U{205F}\U{3000}"
  {
  }

  predicate IsNotColon(c: char) { c != ':' }

  /** `\s*(.*)$`: skip spaces, then take the line; a newline may only be the last character. */
  function RestOfLine(s: string): Option<string> {
    var rest := s[Run(s, IsSpace)..];
    if rest != [] && '\n' in rest[..|rest| - 1] then None
    else if rest != [] && rest[|rest| - 1] == '\n' then Some(rest[..|rest| - 1])
    else Some(rest)
  }

  /** `([A-Za-z0-9_-]+)::\s*(.*)$`. */
  function NameMatch(named: string): Option<(string, string)> {
    var k := Run(named, IsNameChar);
    if k == 0 || |named| < k + 2 || named[k..k + 2] != "::" then None
    else
      match RestOfLine(named[k + 2..])
      case None => None
      case Some(rest) => Some((named[..k], rest))
  }

  /** `^\s*\.\.\s+([A-Za-z0-9_-]+)::\s*(.*)$`: the name, and the rest of the line. */
  function DirectiveMatch(line: Line): Option<(string, string)> {
    var dots := line[Run(line, IsSpace)..];
    if |dots| < 2 || dots[..2] != ".." then None
    else
      var gap := Run(dots[2..], IsSpace);
      if gap == 0 then None else NameMatch(dots[2..][gap..])
  }

  predicate IsDirective(line: Line) { DirectiveMatch(line).Some? }

  /** `([^:]+):\s*(.*)$`. */
  function FieldMatch(named: string): Option<(string, string)> {
    var k := Run(named, IsNotColon);
    if k == 0 || k == |named| then None
    else
      match RestOfLine(named[k + 1..])
      case None => None
      case Some(rest) => Some((named[..k], rest))
  }

  /** `^\s*:([^:]+):\s*(.*)$`: the option's name and value. */
  function OptionMatch(line: Line): Option<(string, string)> {
    var field := line[Run(line, IsSpace)..];
    if field == [] || field[0] != ':' then None else FieldMatch(field[1..])
  }

  predicate IsOption(line: Line) { OptionMatch(line).Some? }

  /** `s.strip()`. */
  function TrimStart(s: string): string { s[Run(s, IsSpace)..] }

  function TrimEnd(s: string): string {
    if s != [] && IsSpace(s[|s| - 1]) then TrimEnd(s[..|s| - 1]) else s
  }

  function Trim(s: string): string { TrimEnd(TrimStart(s)) }

  ghost predicate AllSpace(s: string) { forall i :: 0 <= i < |s| ==> IsSpace(s[i]) }

  /** `s` is `core` between spaces, and `core` neither starts nor ends with one. */
  ghost predicate Framed(s: string, lead: string, core: string, tail: string) {
    && s == lead + core + tail && AllSpace(lead) && AllSpace(tail)
    && (core != [] ==> !IsSpace(core[0]) && !IsSpace(core[|core| - 1]))
  }

  lemma {:induction false} TrimEndFrames(s: string) returns (tail: string)
    ensures s == TrimEnd(s) + tail && AllSpace(tail)
    ensures TrimEnd(s) != [] ==> !IsSpace(TrimEnd(s)[|TrimEnd(s)| - 1])
  {
    tail := [];
    if s != [] && IsSpace(s[|s| - 1]) {
      tail := TrimEndFrames(s[..|s| - 1]);
      tail := tail + [s[|s| - 1]];
    }
  }

  lemma {:induction false} TrimEndDrops(core: string, tail: string)
    requires AllSpace(tail) && (core != [] ==> !IsSpace(core[|core| - 1]))
    ensures TrimEnd(core + tail) == core
  {
    if tail == [] {
      assert core + tail == core;
    } else {
      assert (core + tail)[..|core + tail| - 1] == core + tail[..|tail| - 1];
      TrimEndDrops(core, tail[..|tail| - 1]);
    }
  }

  lemma StartOf(s: string)
    ensures s == s[..Run(s, IsSpace)] + TrimStart(s) && AllSpace(s[..Run(s, IsSpace)])
    ensures TrimStart(s) != [] ==> !IsSpace(TrimStart(s)[0])
  {
    hide IsSpace;
    RunSplits(s, IsSpace);
  }

  /** Trimming gives the one string that stands between the outer spaces. */
  lemma TrimFrames(s: string) returns (lead: string, tail: string)
    ensures Framed(s, lead, Trim(s), tail)
  {
    hide IsSpace, TrimEnd;
    StartOf(s);
    lead := s[..Run(s, IsSpace)];
    tail := TrimEndFrames(TrimStart(s));
    hide Run, TrimStart;
    assert s == lead + (Trim(s) + tail);
    if Trim(s) != [] { assert TrimStart(s)[0] == Trim(s)[0]; }
  }

  lemma FramedIsTrim(s: string, lead: string, core: string, tail: string)
    requires Framed(s, lead, core, tail)
    ensures Trim(s) == core
  {
    hide IsSpace, Run;
    if core == [] {
      assert s == (lead + tail) + [];
      RunIs(lead + tail, [], IsSpace);
      assert TrimStart(s) == [];
    } else {
      assert s == lead + (core + tail);
      RunIs(lead, core + tail, IsSpace);
      assert TrimStart(s) == core + tail;
      TrimEndDrops(core, tail);
    }
  }

  /** A payload line starts with a space or a tab, or trims to nothing. */
  lemma ContinuationIff(line: Line)
    ensures IsContinuation(line) <==> (line != [] && line[0] in " \t") || Trim(line) == ""
  {
    var lead, tail := TrimFrames(line);
    if IsBlank(line) {
      assert Framed(line, line, [], []);
      FramedIsTrim(line, line, [], []);
    }
  }

  /** `rstrip("\n")` drops newlines at the end and nothing else. */
  lemma {:induction false} StrippedIs(line: Line) returns (newlines: string)
    ensures line == Stripped(line) + newlines && forall i :: 0 <= i < |newlines| ==> newlines[i] == '\n'
    ensures Stripped(line) != [] ==> Stripped(line)[|Stripped(line)| - 1] != '\n'
  {
    newlines := [];
    if line != [] && line[|line| - 1] == '\n' {
      newlines := StrippedIs(line[..|line| - 1]);
      newlines := newlines + ['\n'];
    }
  }

  /** What a rest of line looks like: spaces, then text that starts with none and holds no newline. */
  ghost predicate IsRest(s: string, rest: string) {
    && '\n' !in rest && (rest != [] ==> !IsSpace(rest[0]))
    && exists pad :: AllSpace(pad) && s == pad + rest
  }

  lemma LastOrEarlier(s: string, c: char)
    ensures s != [] ==> (c in s <==> c in s[..|s| - 1] || c == s[|s| - 1])
  {
  }

  lemma RestOfLineIff(s: string, rest: string)
    requires s != [] ==> s[|s| - 1] != '\n'
    ensures RestOfLine(s) == Some(rest) <==> IsRest(s, rest)
  {
    hide Run, IsSpace;
    var k := Run(s, IsSpace);
    RunSplits(s, IsSpace);
    LastOrEarlier(s[k..], '\n');
    if RestOfLine(s) == Some(rest) { assert AllSpace(s[..k]); }
    if IsRest(s, rest) {
      var pad :| AllSpace(pad) && s == pad + rest;
      RunIs(pad, rest, IsSpace);
      assert s[k..] == rest;
    }
  }

  /** A directive line spelled out: indent, two dots, a gap, the name, two colons, the rest. */
  ghost predicate SpellsDirective(line: Line, indent: string, gap: string, name: string, after: string) {
    && AllSpace(indent) && AllSpace(gap) && gap != []
    && name != [] && (forall i :: 0 <= i < |name| ==> IsNameChar(name[i]))
    && line == indent + (".." + (gap + (name + ("::" + after))))
  }

  lemma SpelledNameMatches(name: string, after: string, rest: string)
    requires name != [] && (forall i :: 0 <= i < |name| ==> IsNameChar(name[i])) && RestOfLine(after) == Some(rest)
    ensures NameMatch(name + ("::" + after)) == Some((name, rest))
  {
    hide Run, RestOfLine;
    var colons := "::" + after;
    var named := name + colons;
    assert !IsNameChar(colons[0]);
    RunIs(name, colons, IsNameChar);
    assert named[|name|..] == colons && colons[..2] == "::" && colons[2..] == after;
  }

  lemma SpelledDirectiveMatches(line: Line, indent: string, gap: string, name: string, after: string, rest: string)
    requires SpellsDirective(line, indent, gap, name, after) && RestOfLine(after) == Some(rest)
    ensures DirectiveMatch(line) == Some((name, rest))
  {
    hide Run, RestOfLine, NameMatch;
    var named := name + ("::" + after);
    var dots := ".." + (gap + named);
    SpelledNameMatches(name, after, rest);
    assert named[0] == name[0] && IsNameChar(name[0]) && !IsSpace(named[0]);
    RunIs(indent, dots, IsSpace);
    RunIs(gap, named, IsSpace);
    assert line[|indent|..] == dots && dots[..2] == ".." && dots[2..] == gap + named;
    assert (gap + named)[|gap|..] == named;
  }

  lemma MatchedNameIsSpelled(named: string) returns (name: string, after: string)
    ensures NameMatch(named).Some? ==>
              && named == name + ("::" + after) && name != []
              && (forall i :: 0 <= i < |name| ==> IsNameChar(name[i]))
              && RestOfLine(after).Some? && NameMatch(named) == Some((name, RestOfLine(after).value))
  {
    hide Run, RestOfLine, IsNameChar;
    name, after := "", "";
    if NameMatch(named).Some? {
      var k := Run(named, IsNameChar);
      RunSplits(named, IsNameChar);
      name, after := named[..k], named[k + 2..];
      assert named[k..] == named[k..k + 2] + after;
    }
  }

  /** Whatever matches is spelled that way, so name and rest are read off the line's only reading. */
  lemma MatchedDirectiveIsSpelled(line: Line) returns (indent: string, gap: string, after: string)
    requires IsDirective(line)
    ensures SpellsDirective(line, indent, gap, DirectiveMatch(line).value.0, after)
    ensures RestOfLine(after) == Some(DirectiveMatch(line).value.1)
  {
    hide Run, RestOfLine, IsNameChar, NameMatch, IsSpace;
    var a := Run(line, IsSpace);
    var dots := line[a..];
    var b := Run(dots[2..], IsSpace);
    RunSplits(line, IsSpace);
    RunSplits(dots[2..], IsSpace);
    indent, gap := line[..a], dots[2..][..b];
    var name;
    name, after := MatchedNameIsSpelled(dots[2..][b..]);
    assert dots == dots[..2] + dots[2..];
  }

  /** An option line spelled out: indent, the name between colons, the rest. */
  ghost predicate SpellsOption(line: Line, indent: string, name: string, after: string) {
    && AllSpace(indent) && name != [] && ':' !in name
    && line == indent + (":" + (name + (":" + after)))
  }

  lemma SpelledOptionMatches(line: Line, indent: string, name: string, after: string, rest: string)
    requires SpellsOption(line, indent, name, after) && RestOfLine(after) == Some(rest)
    ensures OptionMatch(line) == Some((name, rest))
  {
    hide Run, RestOfLine;
    var named := name + (":" + after);
    var field := ":" + named;
    RunIs(indent, field, IsSpace);
    assert line[|indent|..] == field && field[1..] == named;
    RunIs(name, ":" + after, IsNotColon);
    assert named[..|name|] == name && named[|name| + 1..] == after;
  }

  lemma MatchedFieldIsSpelled(named: string) returns (name: string, after: string)
    ensures FieldMatch(named).Some? ==>
              && named == name + (":" + after) && name != [] && ':' !in name
              && RestOfLine(after).Some? && FieldMatch(named) == Some((name, RestOfLine(after).value))
  {
    hide RestOfLine;
    name, after := "", "";
    if FieldMatch(named).Some? {
      var k := Run(named, IsNotColon);
      RunSplits(named, IsNotColon);
      name, after := named[..k], named[k + 1..];
      assert named[k..] == [named[k]] + after;
    }
  }

  lemma MatchedOptionIsSpelled(line: Line) returns (indent: string, after: string)
    requires IsOption(line)
    ensures SpellsOption(line, indent, OptionMatch(line).value.0, after)
    ensures RestOfLine(after) == Some(OptionMatch(line).value.1)
  {
    hide Run, RestOfLine, FieldMatch, IsSpace;
    var a := Run(line, IsSpace);
    var field := line[a..];
    RunSplits(line, IsSpace);
    indent := line[..a];
    var name;
    name, after := MatchedFieldIsSpelled(field[1..]);
    assert field == [field[0]] + field[1..];
  }

  // ---- The segmentation as a function ----

  datatype Block = Text(lines: seq<Line>) | Directive(line: Line, payload: seq<Line>)

  function Not(test: Test): Test { line => !test(line) }

  function LinesOf(block: Block): seq<Line> {
    match block
    case Text(lines) => lines
    case Directive(line, payload) => [line] + payload
  }

  /** The block that starts at the first line: a directive with its payload, or a run of text. */
  function FirstBlock(lines: seq<Line>, isDirective: Test): (block: Block)
    requires lines != []
    ensures LinesOf(block) != [] && |LinesOf(block)| <= |lines|
    ensures LinesOf(block) == lines[..|LinesOf(block)|]
  {
    if isDirective(lines[0]) then Directive(lines[0], lines[1..1 + Run(lines[1..], IsContinuation)])
    else Text(lines[..1 + Run(lines[1..], Not(isDirective))])
  }

  function Segment(lines: seq<Line>, isDirective: Test): seq<Block>
    decreases |lines|
  {
    if lines == [] then []
    else
      var first := FirstBlock(lines, isDirective);
      [first] + Segment(lines[|LinesOf(first)|..], isDirective)
  }

  function Flatten(blocks: seq<Block>): seq<Line> {
    if blocks == [] then [] else LinesOf(blocks[0]) + Flatten(blocks[1..])
  }

  /** A buffer holds ordinary lines only; a directive line is followed by payload lines only. */
  ghost predicate GoodBlock(block: Block, isDirective: Test) {
    match block
    case Text(lines) => lines != [] && forall i :: 0 <= i < |lines| ==> !isDirective(lines[i])
    case Directive(line, payload) => isDirective(line) && forall i :: 0 <= i < |payload| ==> IsContinuation(payload[i])
  }

  /** Buffers end only where a directive starts, and a payload takes every line it can. */
  ghost predicate GoodPair(first: Block, second: Block) {
    match first
    case Text(_) => second.Directive?
    case Directive(_, _) => LinesOf(second) != [] ==> !IsContinuation(LinesOf(second)[0])
  }

  ghost predicate WellSegmented(blocks: seq<Block>, isDirective: Test) {
    && (forall i :: 0 <= i < |blocks| ==> GoodBlock(blocks[i], isDirective))
    && (forall i :: 0 <= i < |blocks| - 1 ==> GoodPair(blocks[i], blocks[i + 1]))
  }

  /** Lossless: the blocks in order are the input lines in order. */
  lemma {:induction false} SegmentIsLossless(lines: seq<Line>, isDirective: Test)
    ensures Flatten(Segment(lines, isDirective)) == lines
    decreases |lines|
  {
    hide FirstBlock, LinesOf;
    if lines != [] {
      var used := |LinesOf(FirstBlock(lines, isDirective))|;
      assert lines == lines[..used] + lines[used..];
      assert Segment(lines, isDirective)[1..] == Segment(lines[used..], isDirective);
      SegmentIsLossless(lines[used..], isDirective);
    }
  }

  lemma FirstBlockIsGood(lines: seq<Line>, isDirective: Test)
    requires lines != []
    ensures GoodBlock(FirstBlock(lines, isDirective), isDirective)
    ensures FirstBlock(lines, isDirective).Directive? <==> isDirective(lines[0])
  {
    if !isDirective(lines[0]) {
      forall i | 0 <= i < 1 + Run(lines[1..], Not(isDirective)) ensures !isDirective(lines[i]) {
        if i > 0 { assert Not(isDirective)(lines[1..][i - 1]); }
      }
    }
  }

  /** What stops a block: a directive stops a buffer, a line that is no payload stops a payload. */
  lemma FirstBlockIsMaximal(lines: seq<Line>, isDirective: Test)
    requires lines != []
    ensures var rest := lines[|LinesOf(FirstBlock(lines, isDirective))|..];
            rest != [] ==> if isDirective(lines[0]) then !IsContinuation(rest[0]) else isDirective(rest[0])
  {
    var test := if isDirective(lines[0]) then IsContinuation else Not(isDirective);
    var k := Run(lines[1..], test);
    if k < |lines[1..]| {
      assert lines[1..][k] == lines[1 + k];
      assert !test(lines[1..][k]);
    }
  }

  lemma FirstBlocksPair(lines: seq<Line>, isDirective: Test)
    requires lines != []
    ensures var first := FirstBlock(lines, isDirective);
            var rest := lines[|LinesOf(first)|..];
            rest != [] ==> GoodPair(first, FirstBlock(rest, isDirective))
  {
    var first := FirstBlock(lines, isDirective);
    var rest := lines[|LinesOf(first)|..];
    FirstBlockIsMaximal(lines, isDirective);
    FirstBlockIsGood(lines, isDirective);
    if rest != [] { FirstBlockIsGood(rest, isDirective); }
  }

  lemma ConsWellSegmented(first: Block, rest: seq<Block>, isDirective: Test)
    requires GoodBlock(first, isDirective) && WellSegmented(rest, isDirective)
    requires rest != [] ==> GoodPair(first, rest[0])
    ensures WellSegmented([first] + rest, isDirective)
  {
    var blocks := [first] + rest;
    forall i | 0 <= i < |blocks| - 1 ensures GoodPair(blocks[i], blocks[i + 1]) {
      if i > 0 { assert GoodPair(rest[i - 1], rest[i]); }
    }
  }

  lemma {:induction false} SegmentIsWellFormed(lines: seq<Line>, isDirective: Test)
    ensures WellSegmented(Segment(lines, isDirective), isDirective)
    decreases |lines|
  {
    hide FirstBlock, LinesOf, GoodPair, GoodBlock, WellSegmented;
    if lines == [] {
      NothingIsWellSegmented(isDirective);
    } else {
      var first := FirstBlock(lines, isDirective);
      var rest := lines[|LinesOf(first)|..];
      FirstBlockIsGood(lines, isDirective);
      FirstBlocksPair(lines, isDirective);
      SegmentIsWellFormed(rest, isDirective);
      ConsWellSegmented(first, Segment(rest, isDirective), isDirective);
    }
  }

  lemma NothingIsWellSegmented(isDirective: Test)
    ensures WellSegmented([], isDirective)
  {
  }

  /** A good block followed by what cannot extend it is the first block of its lines. */
  lemma FirstBlockIs(block: Block, rest: seq<Line>, isDirective: Test)
    requires GoodBlock(block, isDirective)
    requires rest != [] ==> if block.Directive? then !IsContinuation(rest[0]) else isDirective(rest[0])
    ensures LinesOf(block) != [] && FirstBlock(LinesOf(block) + rest, isDirective) == block
  {
    var own := LinesOf(block);
    var lines := own + rest;
    assert lines[1..] == own[1..] + rest && lines[..|own|] == own;
    if block.Directive? {
      assert own[1..] == block.payload;
      RunIs(block.payload, rest, IsContinuation);
      assert lines[1..1 + |block.payload|] == block.payload;
    } else {
      RunIs(own[1..], rest, Not(isDirective));
    }
  }

  /** Only one segmentation has these properties: the input lines determine the blocks. */
  lemma {:induction false} SegmentationIsUnique(blocks: seq<Block>, isDirective: Test)
    requires WellSegmented(blocks, isDirective)
    ensures Segment(Flatten(blocks), isDirective) == blocks
    decreases |blocks|
  {
    hide Segment, GoodBlock, GoodPair, LinesOf;
    if blocks == [] {
      SegmentNothing(isDirective);
    } else {
      var first, rest := blocks[0], Flatten(blocks[1..]);
      TailWellSegmented(blocks, isDirective);
      SegmentationIsUnique(blocks[1..], isDirective);
      RestStarts(blocks, isDirective);
      SegmentCons(first, rest, isDirective);
      assert blocks == [first] + blocks[1..];
    }
  }

  lemma SegmentNothing(isDirective: Test)
    ensures Segment([], isDirective) == []
  {
  }

  lemma SegmentCons(first: Block, rest: seq<Line>, isDirective: Test)
    requires GoodBlock(first, isDirective)
    requires rest != [] ==> if first.Directive? then !IsContinuation(rest[0]) else isDirective(rest[0])
    ensures Segment(LinesOf(first) + rest, isDirective) == [first] + Segment(rest, isDirective)
  {
    FirstBlockIs(first, rest, isDirective);
    assert (LinesOf(first) + rest)[|LinesOf(first)|..] == rest;
  }

  lemma TailWellSegmented(blocks: seq<Block>, isDirective: Test)
    requires blocks != [] && WellSegmented(blocks, isDirective)
    ensures WellSegmented(blocks[1..], isDirective)
  {
    forall i | 0 <= i < |blocks[1..]| - 1 ensures GoodPair(blocks[1..][i], blocks[1..][i + 1]) {
      assert GoodPair(blocks[i + 1], blocks[i + 2]);
    }
  }

  lemma RestStarts(blocks: seq<Block>, isDirective: Test)
    requires blocks != [] && WellSegmented(blocks, isDirective)
    ensures var rest := Flatten(blocks[1..]);
            rest != [] ==> if blocks[0].Directive? then !IsContinuation(rest[0]) else isDirective(rest[0])
  {
    if |blocks| > 1 {
      assert GoodPair(blocks[0], blocks[1]) && GoodBlock(blocks[1], isDirective);
      assert Flatten(blocks[1..]) == LinesOf(blocks[1]) + Flatten(blocks[1..][1..]);
    }
  }

  // ---- The parsing loops ----

  datatype Error = ExpectedDirective(line: Line)

  datatype Consumed = Consumed(name: string, remainder: string, payload: seq<Line>, index: nat)

  /** The block a directive line and its payload become. */
  function DirectiveNode<Node>(line: Line, payload: seq<Line>, build: (string, string, seq<Line>) -> Node): seq<Node> {
    match DirectiveMatch(line)
    case None => []
    case Some((name, rest)) => [build(name, Trim(rest), payload)]
  }

  /** What the blocks become: buffers parsed as text, directives built from name, remainder, payload. */
  function NodesOf<Node>(blocks: seq<Block>, parse: seq<Line> -> seq<Node>,
                         build: (string, string, seq<Line>) -> Node): seq<Node>
  {
    if blocks == [] then []
    else
      NodesOf(blocks[..|blocks| - 1], parse, build)
      + match blocks[|blocks| - 1]
        case Text(lines) => parse(lines)
        case Directive(line, payload) => DirectiveNode(line, payload, build)
  }

  lemma NodesOfOneMore<Node>(blocks: seq<Block>, last: Block, parse: seq<Line> -> seq<Node>,
                             build: (string, string, seq<Line>) -> Node)
    ensures NodesOf(blocks + [last], parse, build)
         == NodesOf(blocks, parse, build)
            + match last
              case Text(lines) => parse(lines)
              case Directive(line, payload) => DirectiveNode(line, payload, build)
  {
    assert (blocks + [last])[..|blocks|] == blocks;
  }

  function Concat<Node>(pieces: seq<seq<Node>>): seq<Node> {
    if pieces == [] then [] else pieces[0] + Concat(pieces[1..])
  }

  /** Piece after piece: the last piece comes last, and a single piece is itself. */
  lemma {:induction false} ConcatAppends<Node>(pieces: seq<seq<Node>>, last: seq<Node>)
    ensures Concat(pieces + [last]) == Concat(pieces) + last && Concat<Node>([]) == []
  {
    if pieces == [] {
      assert pieces + [last] == [last] && [last][1..] == [];
    } else {
      assert (pieces + [last])[1..] == pieces[1..] + [last];
      ConcatAppends(pieces[1..], last);
    }
  }

  /**
   * What one block becomes: a buffer is parsed; a directive line spelled with a name and a rest is built from
   * that name, what stands between the outer spaces of the rest, and the payload.
   */
  ghost predicate PieceOf<Node>(block: Block, piece: seq<Node>, parse: seq<Line> -> seq<Node>,
                                build: (string, string, seq<Line>) -> Node)
  {
    match block
    case Text(lines) => piece == parse(lines)
    case Directive(line, payload) =>
      forall indent, gap, name, after, rest, lead, core, tail ::
        SpellsDirective(line, indent, gap, name, after) && RestOfLine(after) == Some(rest)
        && Framed(rest, lead, core, tail)
        ==> piece == [build(name, core, payload)]
  }

  lemma DirectivePiece<Node>(line: Line, payload: seq<Line>, parse: seq<Line> -> seq<Node>,
                             build: (string, string, seq<Line>) -> Node)
    ensures PieceOf(Directive(line, payload), DirectiveNode(line, payload, build), parse, build)
  {
    hide DirectiveMatch, Trim, SpellsDirective, RestOfLine, Framed;
    forall indent, gap, name, after, rest, lead, core, tail
      | SpellsDirective(line, indent, gap, name, after) && RestOfLine(after) == Some(rest)
        && Framed(rest, lead, core, tail)
      ensures DirectiveNode(line, payload, build) == [build(name, core, payload)]
    {
      SpelledDirectiveMatches(line, indent, gap, name, after, rest);
      FramedIsTrim(rest, lead, core, tail);
    }
  }

  /** The nodes are what the blocks become, one after the other in block order. */
  lemma {:induction false} NodesInBlockOrder<Node>(blocks: seq<Block>, parse: seq<Line> -> seq<Node>,
                                                   build: (string, string, seq<Line>) -> Node)
    returns (pieces: seq<seq<Node>>)
    ensures NodesOf(blocks, parse, build) == Concat(pieces) && |pieces| == |blocks|
    ensures forall i :: 0 <= i < |blocks| ==> PieceOf(blocks[i], pieces[i], parse, build)
  {
    hide PieceOf, NodesOf, Concat, DirectiveNode;
    pieces := [];
    if blocks == [] {
      NodesOfNothing(parse, build);
      ConcatAppends(pieces, []);
    } else {
      var init, last := blocks[..|blocks| - 1], blocks[|blocks| - 1];
      var before := NodesInBlockOrder(init, parse, build);
      var piece := LastPiece(last, parse, build);
      ConcatAppends(before, piece);
      assert blocks == init + [last];
      NodesOfOneMore(init, last, parse, build);
      pieces := before + [piece];
    }
  }

  lemma LastPiece<Node>(block: Block, parse: seq<Line> -> seq<Node>, build: (string, string, seq<Line>) -> Node)
    returns (piece: seq<Node>)
    ensures PieceOf(block, piece, parse, build)
    ensures piece == match block
                     case Text(lines) => parse(lines)
                     case Directive(line, payload) => DirectiveNode(line, payload, build)
  {
    match block
    case Text(lines) => piece := parse(lines);
    case Directive(line, payload) =>
      DirectivePiece(line, payload, parse, build);
      piece := DirectiveNode(line, payload, build);
  }

  /** The payload loop: the lines from `start` on, as far as they continue. */
  method TakePayload(lines: seq<Line>, start: nat) returns (payload: seq<Line>, index: nat)
    requires start <= |lines|
    ensures var below := StrippedAll(lines)[start..];
            var k := Run(below, IsContinuation);
            payload == below[..k] && index == start + k
  {
    hide Stripped, Run, IsContinuation;
    index, payload := start, [];
    ghost var below := StrippedAll(lines)[start..];
    while index < |lines|
      invariant start <= index <= |lines|
      invariant payload == below[..index - start]
      invariant forall i :: 0 <= i < |payload| ==> IsContinuation(payload[i])
    {
      var current := Stripped(lines[index]);
      assert current == below[index - start];
      if !IsContinuation(current) { break; }
      payload := payload + [current];
      index := index + 1;
    }
    assert below == payload + below[|payload|..];
    RunIs(payload, below[|payload|..], IsContinuation);
  }

  /** Take a directive line and every payload line below it. */
  method ConsumeDirectiveBlock(lines: seq<Line>, start: nat) returns (r: Result<Consumed, Error>)
    requires start < |lines|
    ensures var raw := Stripped(lines[start]);
            match DirectiveMatch(raw)
            case None => r == Err(ExpectedDirective(raw))
            case Some((name, rest)) =>
              var below := StrippedAll(lines)[start + 1..];
              var k := Run(below, IsContinuation);
              r == Ok(Consumed(name, Trim(rest), below[..k], start + 1 + k))
  {
    hide DirectiveMatch, Trim, Stripped, Run, StrippedAll;
    var raw := Stripped(lines[start]);
    var found := DirectiveMatch(raw);
    if found.None? { return Err(ExpectedDirective(raw)); }
    var payload, index := TakePayload(lines, start + 1);
    return Ok(Consumed(found.value.0, Trim(found.value.1), payload, index));
  }

  function Flushed(blocks: seq<Block>, buffer: seq<Line>): seq<Block> {
    if buffer == [] then blocks else blocks + [Text(buffer)]
  }

  /** Parsed so far: the blocks, then whatever the buffer and the unread lines will become. */
  ghost predicate Parsed(lines: seq<Line>, index: nat, blocks: seq<Block>, buffer: seq<Line>, isDirective: Test)
    requires index <= |lines|
  {
    && (forall i :: 0 <= i < |buffer| ==> !isDirective(buffer[i]))
    && Segment(lines, isDirective) == blocks + Segment(buffer + lines[index..], isDirective)
  }

  lemma FlushStep(lines: seq<Line>, index: nat, blocks: seq<Block>, buffer: seq<Line>, isDirective: Test)
    requires index <= |lines| && Parsed(lines, index, blocks, buffer, isDirective)
    requires index < |lines| ==> isDirective(lines[index])
    ensures Segment(lines, isDirective) == Flushed(blocks, buffer) + Segment(lines[index..], isDirective)
  {
    hide Segment;
    var rest := lines[index..];
    if buffer == [] {
      assert buffer + rest == rest;
    } else {
      SegmentCons(Text(buffer), rest, isDirective);
    }
  }

  /**
   * The parsing loop. Parsing a text buffer and building a directive block are parameters; which lines
   * they are given is proved.
   */
  method ParseRichDocBlocks<Node>(lines: seq<Line>, parse: seq<Line> -> seq<Node>,
                                  build: (string, string, seq<Line>) -> Node) returns (nodes: seq<Node>)
    ensures nodes == NodesOf(Segment(StrippedAll(lines), IsDirective), parse, build)
  {
    hide Segment, Run, Stripped, Parsed, DirectiveMatch, NodesOf, Trim;
    ghost var all, blocks := StrippedAll(lines), [];
    var index, buffer: seq<Line> := 0, [];
    nodes := [];
    ParsedAtStart(all, IsDirective);
    NodesOfNothing(parse, build);
    while index < |lines|
      invariant index <= |lines| && Parsed(all, index, blocks, buffer, IsDirective)
      invariant nodes == NodesOf(blocks, parse, build)
      decreases |lines| - index
    {
      var raw := Stripped(lines[index]);
      assert raw == all[index];
      if IsDirective(raw) {
        FlushStep(all, index, blocks, buffer, IsDirective);
        nodes := Flush(nodes, buffer, parse, blocks, build);
        blocks, buffer := Flushed(blocks, buffer), [];
        DirectiveStep(all, index, blocks, IsDirective);
        var r := ConsumeDirectiveBlock(lines, index);
        nodes := nodes + [build(r.value.name, r.value.remainder, r.value.payload)];
        NodesOfOneMore(blocks, Directive(raw, r.value.payload), parse, build);
        blocks := blocks + [Directive(raw, r.value.payload)];
        index := r.value.index;
      } else {
        TextStep(all, index, blocks, buffer, IsDirective);
        buffer := buffer + [raw];
        index := index + 1;
      }
    }
    FlushStep(all, index, blocks, buffer, IsDirective);
    NothingToSegment(all, IsDirective);
    nodes := Flush(nodes, buffer, parse, blocks, build);
    assert Flushed(blocks, buffer) == Segment(all, IsDirective);
  }

  /** `flush_buffer`: a buffer that holds anything is parsed and its blocks appended. */
  method Flush<Node>(nodes: seq<Node>, buffer: seq<Line>, parse: seq<Line> -> seq<Node>,
                     ghost blocks: seq<Block>, ghost build: (string, string, seq<Line>) -> Node)
    returns (r: seq<Node>)
    requires nodes == NodesOf(blocks, parse, build)
    ensures r == NodesOf(Flushed(blocks, buffer), parse, build)
  {
    r := nodes;
    if buffer != [] {
      NodesOfOneMore(blocks, Text(buffer), parse, build);
      r := r + parse(buffer);
    }
  }

  lemma NodesOfNothing<Node>(parse: seq<Line> -> seq<Node>, build: (string, string, seq<Line>) -> Node)
    ensures NodesOf([], parse, build) == []
  {
  }

  lemma ParsedAtStart(all: seq<Line>, isDirective: Test)
    ensures Parsed(all, 0, [], [], isDirective)
  {
    assert [] + all[0..] == all;
    assert [] + Segment(all, isDirective) == Segment(all, isDirective);
  }

  lemma NothingToSegment(all: seq<Line>, isDirective: Test)
    ensures Segment(all[|all|..], isDirective) == []
  {
  }

  lemma DirectiveStep(all: seq<Line>, index: nat, blocks: seq<Block>, isDirective: Test)
    requires index < |all| && isDirective(all[index])
    ensures Segment(all, isDirective) == blocks + Segment(all[index..], isDirective) ==>
              var rest := all[index + 1..];
              var k := Run(rest, IsContinuation);
              Parsed(all, index + 1 + k, blocks + [Directive(all[index], rest[..k])], [], isDirective)
  {
    hide Run, Segment;
    SegmentDirective(all[index..], isDirective);
    var rest := all[index + 1..];
    var k := Run(rest, IsContinuation);
    assert all[index..][1..] == rest;
    assert rest[k..] == all[index + 1 + k..];
    assert [] + all[index + 1 + k..] == all[index + 1 + k..];
    assert (blocks + [Directive(all[index], rest[..k])]) + Segment(rest[k..], isDirective)
        == blocks + ([Directive(all[index], rest[..k])] + Segment(rest[k..], isDirective));
  }

  lemma SegmentDirective(lines: seq<Line>, isDirective: Test)
    requires lines != [] && isDirective(lines[0])
    ensures var rest := lines[1..];
            var k := Run(rest, IsContinuation);
            Segment(lines, isDirective) == [Directive(lines[0], rest[..k])] + Segment(rest[k..], isDirective)
  {
    hide Run;
    var rest := lines[1..];
    var k := Run(rest, IsContinuation);
    assert lines[1..1 + k] == rest[..k];
    assert lines[1 + k..] == rest[k..];
  }

  lemma TextStep(all: seq<Line>, index: nat, blocks: seq<Block>, buffer: seq<Line>, isDirective: Test)
    requires index < |all| && !isDirective(all[index]) && Parsed(all, index, blocks, buffer, isDirective)
    ensures Parsed(all, index + 1, blocks, buffer + [all[index]], isDirective)
  {
    hide Segment;
    assert buffer + all[index..] == (buffer + [all[index]]) + all[index + 1..];
  }

  // ---- Directive options ----

  ghost predicate AllBlank(lines: seq<Line>) { forall i :: 0 <= i < |lines| ==> IsBlank(lines[i]) }

  /** Drop blank lines at the front, then at the back. */
  method TrimBlank(lines: seq<Line>) returns (content: seq<Line>, ghost gap: seq<Line>, ghost tail: seq<Line>)
    ensures lines == gap + content + tail && AllBlank(gap) && AllBlank(tail)
    ensures content != [] ==> !IsBlank(content[0]) && !IsBlank(content[|content| - 1])
  {
    content, gap, tail := lines, [], [];
    while content != [] && IsBlank(content[0])
      invariant lines == gap + content && AllBlank(gap)
      decreases |content|
    {
      gap := gap + [content[0]];
      content := content[1..];
    }
    while content != [] && IsBlank(content[|content| - 1])
      invariant lines == gap + content + tail && AllBlank(tail)
      invariant content != [] ==> !IsBlank(content[0])
      decreases |content|
    {
      tail := [content[|content| - 1]] + tail;
      content := content[..|content| - 1];
    }
  }

  datatype OptionField = OptionField(name: string, value: string)

  /** The option fields read off the option lines. */
  ghost predicate ReadFrom(options: seq<OptionField>, lines: seq<Line>) {
    |options| == |lines|
    && forall i :: 0 <= i < |lines| ==> OptionMatch(lines[i]) == Some((options[i].name, options[i].value))
  }

  /** The option lines: blank lines before them are skipped, the first blank line after them ends them. */
  method TakeOptions(dedented: seq<Line>)
    returns (options: seq<OptionField>, index: nat,
             ghost lead: seq<Line>, ghost fields: seq<Line>, ghost gap: seq<Line>)
    ensures index <= |dedented| && dedented[..index] == lead + fields + gap
    ensures AllBlank(lead) && AllBlank(gap) && ReadFrom(options, fields)
    ensures gap == [] && index < |dedented| ==> !IsBlank(dedented[index]) && !IsOption(dedented[index])
    ensures gap != [] ==> options != []
  {
    hide OptionMatch, IsBlank;
    options, index, lead, fields, gap := [], 0, [], [], [];
    while index < |dedented|
      invariant index <= |dedented| && dedented[..index] == lead + fields
      invariant AllBlank(lead) && gap == [] && ReadFrom(options, fields)
    {
      var line := dedented[index];
      assert dedented[..index + 1] == dedented[..index] + [line];
      if IsBlank(line) {
        index := index + 1;
        if options != [] {
          gap := [line];
          break;
        }
        lead := lead + [line];
      } else {
        var found := OptionMatch(line);
        if found.None? { break; }
        options := options + [OptionField(found.value.0, found.value.1)];
        fields := fields + [line];
        index := index + 1;
      }
    }
  }

  /**
   * Options first, then content; `dedent` removes the common indentation of a payload. Nothing but blank
   * lines of the dedented payload is lost: before the options, between them and the content, and at
   * the end. Content opens with an option line only below a blank line that ended the options.
   */
  method SplitDirectivePayload(payload: seq<Line>, dedent: seq<Line> -> seq<Line>)
    returns (options: seq<OptionField>, content: seq<Line>,
             ghost lead: seq<Line>, ghost fields: seq<Line>, ghost gap: seq<Line>, ghost tail: seq<Line>)
    ensures (if payload == [] then [] else dedent(payload)) == lead + fields + gap + content + tail
    ensures AllBlank(lead) && AllBlank(gap) && AllBlank(tail) && ReadFrom(options, fields)
    ensures content != [] ==> !IsBlank(content[0]) && !IsBlank(content[|content| - 1])
    ensures content != [] && IsOption(content[0]) ==> options != [] && gap != []
  {
    hide OptionMatch, IsBlank;
    if payload == [] { return [], [], [], [], [], []; }
    var dedented := dedent(payload);
    ghost var ended, blanks;
    var index;
    options, index, lead, fields, ended := TakeOptions(dedented);
    content, blanks, tail := TrimBlank(dedented[index..]);
    gap := ended + blanks;
    assert dedented == dedented[..index] + dedented[index..];
    assert dedented == lead + fields + gap + content + tail;
  }
}
