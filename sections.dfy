/**
 * The Markdown section splitter of `LyzrMarkdownReader.markdown_to_tups`,
 * stated as functions: the text is split on "\n", the lines are folded left to
 * right through a (emitted pairs, current header, current body) state, the
 * final pair is appended unconditionally, and the pairs are post-processed.
 * The class method that runs the same scan as a loop is proved equal to
 * `SplitSections` in module MarkdownReading.
 */
module Sections {
  import opened Wrappers
  import opened TextRewrites

  /** One (header, body) pair; the header is None before any heading line. */
  datatype Section = Section(header: Option<string>, body: string)

  // ---------------------------------------------------------------------------
  // Lines
  // ---------------------------------------------------------------------------

  /** Python's `s.split("\n")`: one more piece than there are newlines. */
  function SplitLines(s: string): (lines: seq<string>)
    ensures |lines| >= 1
    ensures forall k :: 0 <= k < |lines| ==> '\n' !in lines[k]
    decreases |s|
  {
    if s == [] then [""]
    else
      var rest := SplitLines(s[1..]);
      if s[0] == '\n' then [""] + rest
      else [[s[0]] + rest[0]] + rest[1..]
  }

  /** One more line than there are newlines. */
  lemma {:induction false} SplitLinesCount(s: string)
    ensures |SplitLines(s)| == multiset(s)['\n'] + 1
    decreases |s|
  {
    if s != [] {
      SplitLinesCount(s[1..]);
      assert s == [s[0]] + s[1..];
    }
  }

  /** Each line followed by "\n", concatenated: what the scan accumulates as a body. */
  function Terminated(lines: seq<string>): string {
    if lines == [] then "" else lines[0] + "\n" + Terminated(lines[1..])
  }

  /** Splitting and then re-appending "\n" to every piece gives the text plus one "\n". */
  lemma {:induction false} TerminatedSplitLines(s: string)
    ensures Terminated(SplitLines(s)) == s + "\n"
    decreases |s|
  {
    if s != [] {
      var rest := SplitLines(s[1..]);
      TerminatedSplitLines(s[1..]);
      assert s == [s[0]] + s[1..];
      if s[0] != '\n' {
        var lines := SplitLines(s);
        assert lines[0] == [s[0]] + rest[0] && lines[1..] == rest[1..];
        calc {
          Terminated(lines);
          lines[0] + "\n" + Terminated(lines[1..]);
          [s[0]] + (rest[0] + "\n" + Terminated(rest[1..]));
          [s[0]] + Terminated(rest);
          [s[0]] + (s[1..] + "\n");
        }
      }
    }
  }

  /** Splitting around a newline splits each side separately. */
  lemma {:induction false} SplitLinesAtNewline(x: string, y: string)
    ensures SplitLines(x + "\n" + y) == SplitLines(x) + SplitLines(y)
    decreases |x|
  {
    var s := x + "\n" + y;
    var ys := SplitLines(y);
    if x == [] {
      assert s == ['\n'] + y;
      SplitLinesCons1('\n', y);
    } else {
      var c, t := x[0], x[1..];
      var rest := SplitLines(t);
      assert x == [c] + t && s == [c] + (t + "\n" + y);
      SplitLinesAtNewline(t, y);
      SplitLinesCons1(c, t + "\n" + y);
      SplitLinesCons1(c, t);
      ConsLinesAppend(c, rest, ys);
    }
  }

  /** Adding `c` in front of the first line commutes with appending more lines. */
  lemma ConsLinesAppend(c: char, rest: seq<string>, ys: seq<string>)
    requires |rest| >= 1
    ensures (if c == '\n' then [""] + (rest + ys) else [[c] + (rest + ys)[0]] + (rest + ys)[1..])
         == (if c == '\n' then [""] + rest else [[c] + rest[0]] + rest[1..]) + ys
  {
    if c == '\n' {
      assert [""] + (rest + ys) == [""] + rest + ys;
    } else {
      var x := [c] + rest[0];
      assert (rest + ys)[0] == rest[0] && (rest + ys)[1..] == rest[1..] + ys;
      assert [x] + (rest[1..] + ys) == [x] + rest[1..] + ys;
    }
  }

  /** `SplitLines` on a text that starts with `c`. */
  lemma SplitLinesCons1(c: char, t: string)
    ensures var rest := SplitLines(t);
      SplitLines([c] + t) == if c == '\n' then [""] + rest else [[c] + rest[0]] + rest[1..]
  {
    assert ([c] + t)[0] == c && ([c] + t)[1..] == t;
  }

  /** A text without a newline is one line. */
  lemma {:induction false} SplitLinesOfLine(line: string)
    requires '\n' !in line
    ensures SplitLines(line) == [line]
    decreases |line|
  {
    if line != [] {
      assert line[0] in line;
      assert forall c :: c in line[1..] ==> c in line;
      SplitLinesOfLine(line[1..]);
      assert line == [line[0]] + line[1..];
    }
  }

  // ---------------------------------------------------------------------------
  // Heading lines: re.match(r"^#+\s", line)
  // ---------------------------------------------------------------------------

  /** The length of the run of `#` that starts the line. */
  function LeadingHashes(line: string): (n: nat)
    ensures n <= |line|
    ensures forall j :: 0 <= j < n ==> line[j] == '#'
    ensures n == |line| || line[n] != '#'
    decreases |line|
  {
    if line != [] && line[0] == '#' then 1 + LeadingHashes(line[1..]) else 0
  }

  /** One or more `#` and then a whitespace character, at the start of the line. */
  predicate IsHeadingLine(line: string)
    ensures IsHeadingLine(line) ==> 2 <= |line| && line[0] == '#'
  {
    var n := LeadingHashes(line);
    1 <= n < |line| && IsSpace(line[n])
  }

  /**
   * The heading test agrees with the backtracking reading of `^#+\s`: some
   * non-empty run of `#` at the start is followed by whitespace.
   */
  lemma HeadingLineMatchesPattern(line: string)
    ensures IsHeadingLine(line) <==>
            exists k :: 1 <= k < |line| && IsSpace(line[k]) && forall j :: 0 <= j < k ==> line[j] == '#'
  {
  }

  /** A run of `k` hashes ended by another character has length `k`. */
  lemma LeadingHashesAt(line: string, k: nat)
    requires k < |line| && line[k] != '#'
    requires forall j :: 0 <= j < k ==> line[j] == '#'
    ensures LeadingHashes(line) == k
    decreases k
  {
  }

  /** Bare `#` and `#Title` are not headings; `# Title` and `##\tSub` are. */
  lemma HeadingExamples()
    ensures !IsHeadingLine("#") && !IsHeadingLine("#Title") && !IsHeadingLine(" # x")
    ensures IsHeadingLine("# Title") && IsHeadingLine("##\tSub")
  {
  }

  /** The number of heading lines. */
  function HeadingCount(lines: seq<string>): nat {
    if lines == [] then 0
    else (if IsHeadingLine(lines[0]) then 1 else 0) + HeadingCount(lines[1..])
  }

  // ---------------------------------------------------------------------------
  // The scan
  // ---------------------------------------------------------------------------

  /** `markdown_tups`, `current_header` and `current_text` between two lines. */
  datatype ScanState = ScanState(emitted: seq<Section>, header: Option<string>, body: string)

  const Start := ScanState([], None, "")

  /**
   * One iteration of the loop.  A heading line while a header is active with
   * an empty body changes nothing (the `continue`); otherwise it emits the
   * active pair, if any, and becomes the new header.  Any other line is
   * appended to the body with a "\n".
   */
  function Step(st: ScanState, line: string): (r: ScanState)
    ensures st.emitted <= r.emitted && |r.emitted| <= |st.emitted| + 1
    ensures |r.emitted| == |st.emitted| + 1 ==>
      IsHeadingLine(line) && st.header.Some? && st.body != "" && r.emitted[|st.emitted|] == Section(st.header, st.body)
    ensures IsHeadingLine(line) ==> r.body == "" && (r.header == Some(line) || r.header == st.header)
    ensures !IsHeadingLine(line) ==> r.emitted == st.emitted && r.header == st.header && r.body == st.body + line + "\n"
  {
    if IsHeadingLine(line) then
      if st.header.Some? && st.body == "" then st
      else
        var emitted := if st.header.Some? then st.emitted + [Section(st.header, st.body)] else st.emitted;
        ScanState(emitted, Some(line), "")
    else ScanState(st.emitted, st.header, st.body + line + "\n")
  }

  /** The loop over `lines`, started from `st`. */
  function Scan(st: ScanState, lines: seq<string>): (r: ScanState)
    ensures st.emitted <= r.emitted
    decreases |lines|
  {
    if lines == [] then st else Scan(Step(st, lines[0]), lines[1..])
  }

  /** The pairs before post-processing: those emitted, then the final one. */
  function RawSections(lines: seq<string>): (r: seq<Section>)
    ensures |r| >= 1 && (r[0].header.None? ==> |r| == 1)
    ensures forall k :: 0 <= k < |r| - 1 ==> r[k].header.Some? && EndsWithNewline(r[k].body)
  {
    var st := Scan(Start, lines);
    ScanKeepsScanned(Start, lines);
    st.emitted + [Section(st.header, st.body)]
  }

  /** A body ends in "\n". */
  predicate EndsWithNewline(body: string) {
    |body| > 0 && body[|body| - 1] == '\n'
  }

  /** What every state the loop reaches satisfies. */
  predicate Scanned(st: ScanState) {
    && (forall k :: 0 <= k < |st.emitted| ==> st.emitted[k].header.Some? && EndsWithNewline(st.emitted[k].body))
    && (st.header.None? ==> st.emitted == [])
    && (st.body == "" || EndsWithNewline(st.body))
  }

  /**
   * Every emitted pair has a header and a body ending in "\n", and nothing is
   * emitted while no header has been seen.
   */
  lemma {:induction false} ScanKeepsScanned(st: ScanState, lines: seq<string>)
    requires Scanned(st)
    ensures Scanned(Scan(st, lines))
    decreases |lines|
  {
    if lines != [] {
      var next := Step(st, lines[0]);
      assert Scanned(next);
      ScanKeepsScanned(next, lines[1..]);
    }
  }

  /** 1 while a header is active, else 0. */
  function Active(st: ScanState): nat {
    if st.header.Some? then 1 else 0
  }

  /**
   * Each heading line adds at most one to emitted pairs plus active header,
   * and a header is active at the end exactly when one was at the start or a
   * heading line was read.
   */
  lemma {:induction false} ScanCounts(st: ScanState, lines: seq<string>)
    ensures |Scan(st, lines).emitted| + Active(Scan(st, lines)) <= |st.emitted| + Active(st) + HeadingCount(lines)
    ensures Scan(st, lines).header.Some? <==> st.header.Some? || HeadingCount(lines) > 0
    decreases |lines|
  {
    if lines != [] {
      ScanCounts(Step(st, lines[0]), lines[1..]);
    }
  }

  /** Scanning a concatenation scans the first part, then the second. */
  lemma {:induction false} ScanAppend(st: ScanState, a: seq<string>, b: seq<string>)
    ensures Scan(st, a + b) == Scan(Scan(st, a), b)
    decreases |a|
  {
    if a == [] {
      assert a + b == b;
    } else {
      assert (a + b)[0] == a[0] && (a + b)[1..] == a[1..] + b;
      ScanAppend(Step(st, a[0]), a[1..], b);
    }
  }

  /** Before the first heading line, lines only pile up in the body of a None header. */
  lemma {:induction false} ScanWithoutHeading(body: string, lines: seq<string>)
    requires HeadingCount(lines) == 0
    ensures Scan(ScanState([], None, body), lines) == ScanState([], None, body + Terminated(lines))
    decreases |lines|
  {
    if lines == [] {
      assert body + "" == body;
    } else {
      ScanWithoutHeading(body + lines[0] + "\n", lines[1..]);
      assert body + lines[0] + "\n" + Terminated(lines[1..]) == body + Terminated(lines);
    }
  }

  // ---------------------------------------------------------------------------
  // Post-processing and the whole splitter
  // ---------------------------------------------------------------------------

  /** `re.sub(r"#", "", header).strip()`. */
  function NormalizeHeader(header: string): (r: string)
    ensures '#' !in r && Trimmed(r)
    ensures forall c :: c in r ==> c in header
  {
    StripRemovesHashesAndSpace(header);
    Strip(RemoveHashes(header))
  }

  /** The post-processing once a header was seen: headers normalised, bodies tag-stripped. */
  function NormalizeSections(raw: seq<Section>): (r: seq<Section>)
    requires forall k :: 0 <= k < |raw| ==> raw[k].header.Some?
    ensures |r| == |raw|
  {
    seq(|raw|, k requires 0 <= k < |raw| =>
      Section(Some(NormalizeHeader(raw[k].header.value)), StripTags(raw[k].body)))
  }

  /** The post-processing when no header was seen: only bodies tag-stripped. */
  function StripBodies(raw: seq<Section>): (r: seq<Section>)
    ensures |r| == |raw| && forall k :: 0 <= k < |r| ==> r[k].header == raw[k].header
  {
    seq(|raw|, k requires 0 <= k < |raw| => Section(raw[k].header, StripTags(raw[k].body)))
  }

  /** The pairs of a text already split into lines. */
  function SectionsOfLines(lines: seq<string>): (r: seq<Section>)
    ensures |r| >= 1
    ensures (forall k :: 0 <= k < |r| ==> r[k].header.Some?) || (|r| == 1 && r[0].header.None?)
  {
    var st := Scan(Start, lines);
    var raw := RawSections(lines);
    ScanKeepsScanned(Start, lines);
    if st.header.Some? then NormalizeSections(raw)
    else StripBodies(raw)
  }

  /** `markdown_to_tups(text)`. */
  function SplitSections(text: string): (r: seq<Section>)
    ensures |r| >= 1
    ensures (forall k :: 0 <= k < |r| ==> r[k].header.Some?) || (|r| == 1 && r[0].header.None?)
  {
    SectionsOfLines(SplitLines(text))
  }

  /** Every body of the result holds no tag: `<.*?>` finds nothing left to delete. */
  lemma SectionBodiesTagFree(text: string)
    ensures forall k :: 0 <= k < |SplitSections(text)| ==> TagFree(SplitSections(text)[k].body)
  {
    var lines := SplitLines(text);
    var raw := RawSections(lines);
    var secs := SplitSections(text);
    ScanKeepsScanned(Start, lines);
    forall k | 0 <= k < |secs| ensures TagFree(secs[k].body) {
      assert secs[k].body == StripTags(raw[k].body);
      StripTagsLeavesNoTag(raw[k].body);
    }
  }

  // ---------------------------------------------------------------------------
  // Properties of the splitter
  // ---------------------------------------------------------------------------

  function Max(a: nat, b: nat): nat {
    if a < b then b else a
  }

  /**
   * There is always at least one pair, and never more than the number of
   * heading lines (or one, when there is none): the first heading never emits.
   */
  lemma SectionCount(text: string)
    ensures 1 <= |SplitSections(text)| <= Max(1, HeadingCount(SplitLines(text)))
  {
    var lines := SplitLines(text);
    ScanKeepsScanned(Start, lines);
    ScanCounts(Start, lines);
  }

  /**
   * A text without heading lines is one pair: no header, and the whole text,
   * one "\n" after each line, with its tags stripped.
   */
  lemma WithoutHeadingOneSection(text: string)
    requires HeadingCount(SplitLines(text)) == 0
    ensures SplitSections(text) == [Section(None, StripTags(text + "\n"))]
  {
    var lines := SplitLines(text);
    ScanWithoutHeading("", lines);
    TerminatedSplitLines(text);
    assert "" + Terminated(lines) == text + "\n";
  }

  /** The empty text gives one pair with no header and the body "\n". */
  lemma EmptyTextSection()
    ensures SplitSections("") == [Section(None, "\n")]
  {
    assert SplitLines("") == [""];
    assert !IsHeadingLine("");
    assert HeadingCount([""]) == 0 by { assert [""][1..] == []; }
    WithoutHeadingOneSection("");
    assert StripTags("\n") == "\n" by {
      assert "\n"[1..] == [];
    }
  }

  /**
   * A heading line right after another heading line (the first one's body
   * still empty) is dropped: the result is that of the lines without it, so
   * it shows up in no header and no body.
   */
  lemma HeadingAfterEmptyHeadingDropped(before: seq<string>, h1: string, h2: string, after: seq<string>)
    requires IsHeadingLine(h1) && IsHeadingLine(h2)
    ensures SectionsOfLines(before + [h1, h2] + after) == SectionsOfLines(before + [h1] + after)
  {
    var mid := Step(Scan(Start, before), h1);
    assert mid.header.Some? && mid.body == "";
    assert Scan(Start, before + [h1, h2] + after) == Scan(mid, after) by {
      assert before + [h1, h2] + after == before + ([h1] + ([h2] + after));
      ScanAppend(Start, before, [h1] + ([h2] + after));
      ScanCons(Scan(Start, before), h1, [h2] + after);
      ScanCons(mid, h2, after);
      assert Step(mid, h2) == mid;
    }
    assert Scan(Start, before + [h1] + after) == Scan(mid, after) by {
      assert before + [h1] + after == before + ([h1] + after);
      ScanAppend(Start, before, [h1] + after);
      ScanCons(Scan(Start, before), h1, after);
    }
    SameScanSameSections(before + [h1, h2] + after, before + [h1] + after);
  }

  /** The pairs depend on the lines only through the state the loop ends in. */
  lemma SameScanSameSections(lines1: seq<string>, lines2: seq<string>)
    requires Scan(Start, lines1) == Scan(Start, lines2)
    ensures SectionsOfLines(lines1) == SectionsOfLines(lines2)
  {
  }

  /**
   * Lines before the first heading line are discarded: with a heading-free
   * preamble in front, the pairs are those of the text after it.
   */
  lemma PreambleDiscarded(preamble: string, rest: string)
    requires HeadingCount(SplitLines(preamble)) == 0
    requires IsHeadingLine(SplitLines(rest)[0])
    ensures SplitSections(preamble + "\n" + rest) == SplitSections(rest)
  {
    var pre := SplitLines(preamble);
    var lines := SplitLines(rest);
    SplitLinesAtNewline(preamble, rest);
    ScanAppend(Start, pre, lines);
    ScanWithoutHeading("", pre);
    var h := lines[0];
    assert Step(Scan(Start, pre), h) == ScanState([], Some(h), "");
    assert Step(Start, h) == ScanState([], Some(h), "");
    assert lines == [h] + lines[1..];
  }

  /**
   * Once a heading line has been read, every header is present, holds no `#`
   * and no surrounding whitespace, and every pair but the last has a body
   * ending in "\n".
   */
  lemma HeadedSectionsWellFormed(text: string)
    requires HeadingCount(SplitLines(text)) > 0
    ensures var secs := SplitSections(text);
      && (forall k :: 0 <= k < |secs| ==>
            secs[k].header.Some? && '#' !in secs[k].header.value && Trimmed(secs[k].header.value))
      && (forall k :: 0 <= k < |secs| - 1 ==> EndsWithNewline(secs[k].body))
  {
    var lines := SplitLines(text);
    assert Scan(Start, lines).header.Some? by {
      ScanCounts(Start, lines);
    }
    HeadedSectionsOfLines(lines);
    var raw := RawSections(lines);
    assert SplitSections(text) == NormalizeSections(raw);
    NormalizedHeaders(raw);
    NormalizedBodiesEnd(raw);
  }

  /** Normalised headers are present, free of `#` and trimmed. */
  lemma NormalizedHeaders(raw: seq<Section>)
    requires forall j :: 0 <= j < |raw| ==> raw[j].header.Some?
    ensures var r := NormalizeSections(raw);
      forall k :: 0 <= k < |r| ==> r[k].header.Some? && '#' !in r[k].header.value && Trimmed(r[k].header.value)
  {
    var r := NormalizeSections(raw);
    forall k | 0 <= k < |r|
      ensures r[k].header.Some? && '#' !in r[k].header.value && Trimmed(r[k].header.value)
    {
      NormalizedAt(raw, k);
    }
  }

  /** Tag stripping keeps a body's final "\n". */
  lemma NormalizedBodiesEnd(raw: seq<Section>)
    requires forall j :: 0 <= j < |raw| ==> raw[j].header.Some?
    ensures var r := NormalizeSections(raw);
      forall k :: 0 <= k < |r| && EndsWithNewline(raw[k].body) ==> EndsWithNewline(r[k].body)
  {
    var r := NormalizeSections(raw);
    forall k | 0 <= k < |r| && EndsWithNewline(raw[k].body) ensures EndsWithNewline(r[k].body) {
      NormalizedAt(raw, k);
      StripTagsKeepsFinalNewline(raw[k].body);
    }
  }

  /** Every header in the state, emitted or current, is a heading line of `all`. */
  predicate HeadersAmong(st: ScanState, all: seq<string>) {
    && (forall k :: 0 <= k < |st.emitted| && st.emitted[k].header.Some? ==>
          st.emitted[k].header.value in all && IsHeadingLine(st.emitted[k].header.value))
    && (st.header.Some? ==> st.header.value in all && IsHeadingLine(st.header.value))
  }

  lemma {:induction false} ScanKeepsHeadersAmong(st: ScanState, lines: seq<string>, all: seq<string>)
    requires HeadersAmong(st, all)
    requires forall line :: line in lines ==> line in all
    ensures HeadersAmong(Scan(st, lines), all)
    decreases |lines|
  {
    if lines != [] {
      assert lines[0] in lines;
      assert HeadersAmong(Step(st, lines[0]), all);
      forall line | line in lines[1..] ensures line in all {
        assert line in lines;
      }
      ScanKeepsHeadersAmong(Step(st, lines[0]), lines[1..], all);
    }
  }

  /**
   * Every header is a heading line of the text with its `#` removed and its
   * surrounding whitespace stripped, and nothing more: headers are not
   * tag-stripped.
   */
  lemma HeadersFromHeadingLines(text: string)
    requires HeadingCount(SplitLines(text)) > 0
    ensures var secs := SplitSections(text);
      forall k :: 0 <= k < |secs| ==>
        exists line :: line in SplitLines(text) && IsHeadingLine(line) && secs[k].header == Some(NormalizeHeader(line))
  {
    var lines := SplitLines(text);
    ScanKeepsScanned(Start, lines);
    ScanCounts(Start, lines);
    ScanKeepsHeadersAmong(Start, lines, lines);
    var raw := RawSections(lines);
    var secs := SplitSections(text);
    assert secs == NormalizeSections(raw);
    forall k | 0 <= k < |secs|
      ensures exists line :: line in lines && IsHeadingLine(line) && secs[k].header == Some(NormalizeHeader(line))
    {
      var line := raw[k].header.value;
      assert line in lines && IsHeadingLine(line);
    }
  }

  /** None of the lines is a heading line. */
  predicate PlainLines(lines: seq<string>) {
    lines == [] || (!IsHeadingLine(lines[0]) && PlainLines(lines[1..]))
  }

  /** `PlainLines` is "no heading line", as counted by `HeadingCount`. */
  lemma {:induction false} PlainLinesNoHeading(lines: seq<string>)
    ensures PlainLines(lines) <==> HeadingCount(lines) == 0
    decreases |lines|
  {
    if lines != [] {
      PlainLinesNoHeading(lines[1..]);
    }
  }

  lemma {:induction false} PlainLinesAppend(a: seq<string>, b: seq<string>)
    ensures PlainLines(a + b) <==> PlainLines(a) && PlainLines(b)
    decreases |a|
  {
    if a == [] {
      assert a + b == b;
    } else {
      assert (a + b)[0] == a[0] && (a + b)[1..] == a[1..] + b;
      PlainLinesAppend(a[1..], b);
    }
  }

  /** No piece of the body, split on "\n", is a heading line. */
  predicate PlainBody(body: string) {
    PlainLines(SplitLines(body))
  }

  /** The bodies the scan builds, emitted or current, hold no heading line. */
  predicate BodiesPlain(st: ScanState) {
    && (forall k :: 0 <= k < |st.emitted| ==> PlainBody(st.emitted[k].body))
    && PlainBody(st.body)
  }

  lemma EmptyBodyPlain()
    ensures PlainBody("")
  {
  }

  lemma SplitLinesOfTerminatedLine(line: string)
    requires '\n' !in line
    ensures SplitLines(line + "\n") == [line, ""]
  {
    SplitLinesOfLine(line);
    SplitLinesAtNewline(line, "");
    assert line + "\n" + "" == line + "\n";
  }

  lemma SplitLinesAppendLine(x: string, line: string)
    requires '\n' !in line
    ensures SplitLines(x + "\n") == SplitLines(x) + [""]
    ensures SplitLines(x + "\n" + line + "\n") == SplitLines(x) + [line, ""]
  {
    SplitLinesAtNewline(x, "");
    assert x + "\n" + "" == x + "\n";
    SplitLinesAtNewline(x, line + "\n");
    assert x + "\n" + line + "\n" == x + "\n" + (line + "\n");
    SplitLinesOfTerminatedLine(line);
  }

  lemma AppendPlainLine(body: string, line: string)
    requires PlainBody(body) && (body == "" || EndsWithNewline(body))
    requires '\n' !in line && !IsHeadingLine(line)
    ensures PlainBody(body + line + "\n")
  {
    assert PlainLines([line, ""]) by {
      assert LeadingHashes("") == 0;
      assert [line, ""][1..] == [""] && [""][1..] == [];
    }
    if body == "" {
      assert body + line + "\n" == line + "\n";
      SplitLinesOfTerminatedLine(line);
    } else {
      var x := body[..|body| - 1];
      assert body == x + "\n";
      SplitLinesAppendLine(x, line);
      PlainLinesAppend(SplitLines(x), [""]);
      PlainLinesAppend(SplitLines(x), [line, ""]);
      assert body + line + "\n" == x + "\n" + line + "\n";
    }
  }

  lemma StepKeepsBodiesPlain(st: ScanState, line: string)
    requires Scanned(st) && BodiesPlain(st) && '\n' !in line
    ensures BodiesPlain(Step(st, line))
  {
    EmptyBodyPlain();
    if !IsHeadingLine(line) {
      AppendPlainLine(st.body, line);
    }
  }

  lemma {:induction false} ScanKeepsBodiesPlain(st: ScanState, lines: seq<string>)
    requires Scanned(st) && BodiesPlain(st)
    requires forall k :: 0 <= k < |lines| ==> '\n' !in lines[k]
    ensures BodiesPlain(Scan(st, lines))
    decreases |lines|
  {
    if lines != [] {
      StepKeepsBodiesPlain(st, lines[0]);
      ScanKeepsScanned(st, [lines[0]]);
      assert Scan(st, [lines[0]]) == Step(st, lines[0]);
      ScanKeepsBodiesPlain(Step(st, lines[0]), lines[1..]);
    }
  }

  /**
   * Heading lines never end up inside a body: no line of any body the scan
   * produces (before tag stripping) is a heading line.
   */
  lemma RawBodiesHoldNoHeadingLine(text: string)
    ensures forall k :: 0 <= k < |RawSections(SplitLines(text))| ==>
              PlainBody(RawSections(SplitLines(text))[k].body)
  {
    var lines := SplitLines(text);
    EmptyBodyPlain();
    assert BodiesPlain(Start);
    ScanKeepsBodiesPlain(Start, lines);
  }

  /**
   * Tag stripping runs after the scan, so it can turn a body line into a
   * heading line: `<b># B` is no heading line and stays in the body, where
   * stripping `<b>` leaves `# B`.  The bodies are free of heading lines
   * before tag stripping, not after.
   */
  lemma TagStripCanExposeHeading(tag: string, line: string)
    requires '>' !in tag && '\n' !in tag
    requires '<' !in line && '\n' !in line && IsHeadingLine(line)
    ensures PlainBody("<" + tag + ">" + line + "\n")
    ensures StripTags("<" + tag + ">" + line + "\n") == line + "\n"
    ensures !PlainBody(line + "\n")
  {
    var first := "<" + tag + ">" + line;
    assert first + "\n" == "<" + tag + ">" + line + "\n";
    OneLineBody(first);
    OneLineBody(line);
    var rest := line + "\n";
    assert "<" + tag + ">" + line + "\n" == "<" + tag + ">" + rest;
    StripLeadingTag(tag, rest);
    StripTagsWithoutAngle(rest);
  }

  /** A one-line body holds no heading line exactly when that line is none. */
  lemma OneLineBody(line: string)
    requires '\n' !in line
    ensures PlainBody(line + "\n") <==> !IsHeadingLine(line)
  {
    SplitLinesOfTerminatedLine(line);
    assert !IsHeadingLine("") && PlainLines([""]);
    assert [line, ""][1..] == [""];
  }

  /** A tag that closes on its own line is deleted from the front of the text. */
  lemma StripLeadingTag(tag: string, rest: string)
    requires '>' !in tag && '\n' !in tag
    ensures StripTags("<" + tag + ">" + rest) == StripTags(rest)
  {
    var s := "<" + tag + ">" + rest;
    var close := |tag| + 1;
    assert s[close] == '>' && s[1..close] == tag && s[close + 1..] == rest;
    FindOnLineAt(s, 1, close, '>');
  }

  /** `<b># B` in a body comes out as the heading line `# B`. */
  lemma BoldHeadingExample()
    ensures PlainBody("<b># B\n") && !PlainBody(StripTags("<b># B\n"))
  {
    assert LeadingHashes("# B") == 1 by {
      assert "# B"[1..] == " B";
      assert LeadingHashes(" B") == 0;
    }
    assert '<' !in "# B" && '\n' !in "# B";
    TagStripCanExposeHeading("b", "# B");
    assert "<" + "b" + ">" + "# B" + "\n" == "<b># B\n";
    assert "# B" + "\n" == "# B\n";
  }

  // ---------------------------------------------------------------------------
  // Worked examples
  // ---------------------------------------------------------------------------

  /** A newline-free first line splits off as one line. */
  lemma SplitLinesCons(line: string, rest: string)
    requires '\n' !in line
    ensures SplitLines(line + "\n" + rest) == [line] + SplitLines(rest)
  {
    SplitLinesOfLine(line);
    SplitLinesAtNewline(line, rest);
  }

  /** Four newline-terminated lines split into those four and an empty fifth. */
  lemma SplitFourLines(l1: string, l2: string, l3: string, l4: string)
    requires '\n' !in l1 && '\n' !in l2 && '\n' !in l3 && '\n' !in l4
    ensures SplitLines(l1 + "\n" + l2 + "\n" + l3 + "\n" + l4 + "\n") == [l1, l2, l3, l4, ""]
  {
    var t := l2 + "\n" + l3 + "\n" + l4 + "\n";
    assert l1 + "\n" + l2 + "\n" + l3 + "\n" + l4 + "\n" == l1 + "\n" + t;
    assert SplitLines(t) == [l2, l3, l4, ""] by {
      SplitThreeLines(l2, l3, l4);
    }
    SplitLinesCons(l1, t);
    assert [l1] + [l2, l3, l4, ""] == [l1, l2, l3, l4, ""];
  }

  /** The loop over lines `h1`, `b1`, `h2`, `b2`, "" with headings at `h1` and `h2`. */
  lemma ScanTwoHeadings(h1: string, b1: string, h2: string, b2: string)
    requires IsHeadingLine(h1) && IsHeadingLine(h2) && !IsHeadingLine(b1) && !IsHeadingLine(b2)
    ensures Scan(Start, [h1, b1, h2, b2, ""])
         == ScanState([Section(Some(h1), b1 + "\n")], Some(h2), b2 + "\n\n")
  {
    var st3 := ScanState([Section(Some(h1), b1 + "\n")], Some(h2), "");
    var st5 := ScanState([Section(Some(h1), b1 + "\n")], Some(h2), b2 + "\n\n");
    assert Scan(st3, [b2, ""]) == st5 by { ScanPlainThenEmpty(st3, b2); }
    assert Scan(Start, [h1, b1, h2, b2, ""]) == Scan(st3, [b2, ""]) by {
      var st2 := ScanState([], Some(h1), b1 + "\n");
      assert [h1, b1, h2, b2, ""] == [h1, b1] + [h2, b2, ""];
      ScanHeadingLinePair(Start, h1, b1, [h2, b2, ""]);
      assert [h2, b2, ""] == [h2] + [b2, ""];
      ScanCons(st2, h2, [b2, ""]);
      assert |st2.body| > 0;
      assert Step(st2, h2) == st3;
    }
  }

  /** A heading line and a plain line, from a state without a pending pair. */
  lemma ScanHeadingLinePair(st: ScanState, h: string, b: string, rest: seq<string>)
    requires IsHeadingLine(h) && !IsHeadingLine(b) && st.header.None?
    ensures Scan(st, [h, b] + rest) == Scan(ScanState(st.emitted, Some(h), b + "\n"), rest)
  {
    var st1 := ScanState(st.emitted, Some(h), "");
    StepOpensHeader(st, h);
    StepAppendsLine(st1, b);
    assert "" + b + "\n" == b + "\n";
    ScanCons(st, h, [b] + rest);
    ScanCons(st1, b, rest);
    assert [h, b] + rest == [h] + ([b] + rest);
  }

  /** A heading line with no active header opens a pair with an empty body. */
  lemma StepOpensHeader(st: ScanState, h: string)
    requires IsHeadingLine(h) && st.header.None?
    ensures Step(st, h) == ScanState(st.emitted, Some(h), "")
  {
  }

  /** A heading line while the active pair's body is empty is skipped. */
  lemma StepSkipsHeading(st: ScanState, h: string)
    requires IsHeadingLine(h) && st.header.Some? && st.body == ""
    ensures Step(st, h) == st
  {
  }

  /** Any other line goes to the body, followed by "\n". */
  lemma StepAppendsLine(st: ScanState, b: string)
    requires !IsHeadingLine(b)
    ensures Step(st, b) == ScanState(st.emitted, st.header, st.body + b + "\n")
  {
  }

  /** A plain line and then the empty last line, from a pair with an empty body. */
  lemma ScanPlainThenEmpty(st: ScanState, b: string)
    requires !IsHeadingLine(b) && st.body == ""
    ensures Scan(st, [b, ""]) == ScanState(st.emitted, st.header, b + "\n\n")
  {
    assert !IsHeadingLine("") by { assert LeadingHashes("") == 0; }
    assert Step(Step(st, b), "") == ScanState(st.emitted, st.header, b + "\n\n") by {
      assert "" + b + "\n" + "" + "\n" == b + "\n\n";
    }
    ScanCons(st, b, [""]);
    ScanCons(Step(st, b), "", []);
  }

  lemma ScanCons(st: ScanState, line: string, rest: seq<string>)
    ensures Scan(st, [line] + rest) == Scan(Step(st, line), rest)
  {
  }

  /**
   * Two headings, each followed by one line: two pairs, and the "\n" that
   * ends the text leaves an empty last line, which adds a second "\n" to the
   * last body.
   */
  lemma TwoHeadedSections(h1: string, b1: string, h2: string, b2: string)
    requires IsHeadingLine(h1) && IsHeadingLine(h2) && !IsHeadingLine(b1) && !IsHeadingLine(b2)
    requires '\n' !in h1 && '\n' !in b1 && '\n' !in h2 && '\n' !in b2
    ensures SplitSections(h1 + "\n" + b1 + "\n" + h2 + "\n" + b2 + "\n")
         == [Section(Some(NormalizeHeader(h1)), StripTags(b1 + "\n")),
             Section(Some(NormalizeHeader(h2)), StripTags(b2 + "\n\n"))]
  {
    var lines := [h1, b1, h2, b2, ""];
    SplitFourLines(h1, b1, h2, b2);
    ScanTwoHeadings(h1, b1, h2, b2);
    TwoHeadedPairs(lines, Section(Some(h1), b1 + "\n"), h2, b2 + "\n\n");
  }

  /** A scan that ends inside its second pair yields those two pairs, normalised. */
  lemma TwoHeadedPairs(lines: seq<string>, first: Section, h: string, body: string)
    requires first.header.Some? && Scan(Start, lines) == ScanState([first], Some(h), body)
    ensures SectionsOfLines(lines)
         == [Section(Some(NormalizeHeader(first.header.value)), StripTags(first.body)),
             Section(Some(NormalizeHeader(h)), StripTags(body))]
  {
    HeadedSectionsOfLines(lines);
    assert RawSections(lines) == [first, Section(Some(h), body)];
    NormalizeTwoSections(first, Section(Some(h), body));
  }

  lemma NormalizeTwoSections(a: Section, b: Section)
    requires a.header.Some? && b.header.Some?
    ensures NormalizeSections([a, b])
         == [Section(Some(NormalizeHeader(a.header.value)), StripTags(a.body)),
             Section(Some(NormalizeHeader(b.header.value)), StripTags(b.body))]
  {
    var raw := [a, b];
    assert raw[0] == a && raw[1] == b;
    NormalizedPair(raw);
  }

  lemma NormalizedPair(raw: seq<Section>)
    requires |raw| == 2 && forall j :: 0 <= j < |raw| ==> raw[j].header.Some?
    ensures NormalizeSections(raw)
         == [Section(Some(NormalizeHeader(raw[0].header.value)), StripTags(raw[0].body)),
             Section(Some(NormalizeHeader(raw[1].header.value)), StripTags(raw[1].body))]
  {
    var x := Section(Some(NormalizeHeader(raw[0].header.value)), StripTags(raw[0].body));
    var y := Section(Some(NormalizeHeader(raw[1].header.value)), StripTags(raw[1].body));
    NormalizedAt(raw, 0);
    NormalizedAt(raw, 1);
    PairSequence(NormalizeSections(raw), x, y);
  }

  /** Two-element sequences are equal elementwise (kept apart from `NormalizeSections`). */
  lemma PairSequence<T>(r: seq<T>, x: T, y: T)
    requires |r| == 2 && r[0] == x && r[1] == y
    ensures r == [x, y]
  {
  }

  lemma NormalizedAt(raw: seq<Section>, k: nat)
    requires forall j :: 0 <= j < |raw| ==> raw[j].header.Some?
    requires k < |raw|
    ensures NormalizeSections(raw)[k] == Section(Some(NormalizeHeader(raw[k].header.value)), StripTags(raw[k].body))
  {
    var r := NormalizeSections(raw);
    assert r[k] == Section(Some(NormalizeHeader(raw[k].header.value)), StripTags(raw[k].body));
  }

  /** Once a heading was seen, the pairs are the raw pairs with headers normalised. */
  lemma HeadedSectionsOfLines(lines: seq<string>)
    requires Scan(Start, lines).header.Some?
    ensures forall k :: 0 <= k < |RawSections(lines)| ==> RawSections(lines)[k].header.Some?
    ensures SectionsOfLines(lines) == NormalizeSections(RawSections(lines))
  {
    ScanKeepsScanned(Start, lines);
  }

  /** Dropping every `#` and then the surrounding spaces of `## Name` leaves `Name`. */
  lemma NormalizeSimpleHeading(hashes: string, name: string)
    requires forall k :: 0 <= k < |hashes| ==> hashes[k] == '#'
    requires '#' !in name && |name| > 0 && !IsSpace(name[0]) && !IsSpace(name[|name| - 1])
    ensures NormalizeHeader(hashes + " " + name) == name
  {
    assert hashes + " " + name == hashes + (" " + name);
    assert RemoveHashes(hashes + " " + name) == " " + name by {
      assert '#' !in " " + name;
      RemoveHashesOfHashFree(" " + name);
      RemoveHashesSkipsHashes(hashes, " " + name);
    }
    assert TrimStart(" " + name) == name by {
      assert (" " + name)[1..] == name;
    }
  }

  lemma {:induction false} RemoveHashesOfHashFree(s: string)
    requires '#' !in s
    ensures RemoveHashes(s) == s
    decreases |s|
  {
    if s != [] {
      assert s[0] in s;
      RemoveHashesOfHashFree(s[1..]);
      assert s == [s[0]] + s[1..];
    }
  }

  lemma {:induction false} RemoveHashesSkipsHashes(hashes: string, rest: string)
    requires forall k :: 0 <= k < |hashes| ==> hashes[k] == '#'
    ensures RemoveHashes(hashes + rest) == RemoveHashes(rest)
    decreases |hashes|
  {
    if hashes == [] {
      assert hashes + rest == rest;
    } else {
      assert (hashes + rest)[0] == '#' && (hashes + rest)[1..] == hashes[1..] + rest;
      RemoveHashesSkipsHashes(hashes[1..], rest);
    }
  }

  /** Three newline-terminated lines split into those three and an empty fourth. */
  lemma SplitThreeLines(l1: string, l2: string, l3: string)
    requires '\n' !in l1 && '\n' !in l2 && '\n' !in l3
    ensures SplitLines(l1 + "\n" + l2 + "\n" + l3 + "\n") == [l1, l2, l3, ""]
  {
    var t3 := l3 + "\n";
    var t2 := l2 + "\n" + t3;
    SplitLinesOfTerminatedLine(l3);
    SplitLinesCons(l2, t3);
    SplitLinesCons(l1, t2);
    assert l1 + "\n" + l2 + "\n" + l3 + "\n" == l1 + "\n" + t2;
    assert [l1] + ([l2] + [l3, ""]) == [l1, l2, l3, ""];
  }

  /**
   * A heading directly followed by another heading: the second one is
   * skipped, so the body that follows is filed under the FIRST heading
   * (`# A`, `# B`, `Body` gives the single pair ("A", "Body\n\n")).
   */
  lemma SecondHeadingSkipped(h1: string, h2: string, b: string)
    requires IsHeadingLine(h1) && IsHeadingLine(h2) && !IsHeadingLine(b)
    requires '\n' !in h1 && '\n' !in h2 && '\n' !in b
    ensures SplitSections(h1 + "\n" + h2 + "\n" + b + "\n")
         == [Section(Some(NormalizeHeader(h1)), StripTags(b + "\n\n"))]
  {
    var lines := [h1, h2, b, ""];
    SplitThreeLines(h1, h2, b);
    ScanHeadingHeadingLine(h1, h2, b);
    OneHeadedSection(lines, h1, b + "\n\n");
  }

  lemma ScanHeadingHeadingLine(h1: string, h2: string, b: string)
    requires IsHeadingLine(h1) && IsHeadingLine(h2) && !IsHeadingLine(b)
    ensures Scan(Start, [h1, h2, b, ""]) == ScanState([], Some(h1), b + "\n\n")
  {
    var st1 := ScanState([], Some(h1), "");
    StepOpensHeader(Start, h1);
    StepSkipsHeading(st1, h2);
    assert [h1, h2, b, ""] == [h1] + [h2, b, ""];
    ScanCons(Start, h1, [h2, b, ""]);
    assert [h2, b, ""] == [h2] + [b, ""];
    ScanCons(st1, h2, [b, ""]);
    ScanPlainThenEmpty(st1, b);
  }

  /** A scan that ends inside its first pair yields that one pair, normalised. */
  lemma OneHeadedSection(lines: seq<string>, h: string, body: string)
    requires Scan(Start, lines) == ScanState([], Some(h), body)
    ensures SectionsOfLines(lines) == [Section(Some(NormalizeHeader(h)), StripTags(body))]
  {
    HeadedSectionsOfLines(lines);
    assert RawSections(lines) == [Section(Some(h), body)];
    NormalizeOneSection(Section(Some(h), body));
  }

  lemma NormalizeOneSection(a: Section)
    requires a.header.Some?
    ensures NormalizeSections([a]) == [Section(Some(NormalizeHeader(a.header.value)), StripTags(a.body))]
  {
    var raw := [a];
    assert raw[0] == a;
    NormalizedSingle(raw);
  }

  lemma NormalizedSingle(raw: seq<Section>)
    requires |raw| == 1 && forall j :: 0 <= j < |raw| ==> raw[j].header.Some?
    ensures NormalizeSections(raw) == [Section(Some(NormalizeHeader(raw[0].header.value)), StripTags(raw[0].body))]
  {
    NormalizedAt(raw, 0);
    SingletonSequence(NormalizeSections(raw), Section(Some(NormalizeHeader(raw[0].header.value)), StripTags(raw[0].body)));
  }

  /** One-element sequences are equal elementwise (kept apart from `NormalizeSections`). */
  lemma SingletonSequence<T>(r: seq<T>, x: T)
    requires |r| == 1 && r[0] == x
    ensures r == [x]
  {
  }
}
