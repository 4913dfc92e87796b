/**
 * The string rewrites the Markdown reader applies: the three regular-expression
 * substitutions (inline tags, hyperlinks, image embeds), the removal of `#`
 * from headers and Python's `str.strip()`.  Each regular expression is written
 * out by hand with the matching rules of Python's `re` module: `.` never
 * matches a newline, `*?` is lazy and backtracks, `*` is greedy, and `re.sub`
 * resumes scanning right after each match.
 */
module TextRewrites {
  import opened Wrappers

  /**
   * Python's `str.isspace()` on one character; it is also the class `\s` of a
   * `str` pattern.  The ASCII blanks are in it and `#` is not, so a run of `#`
   * and the whitespace after it never overlap.
   */
  predicate IsSpace(c: char) {
    var n := c as int;
    (9 <= n <= 13) || (28 <= n <= 32) || n == 0x85 || n == 0xA0 || n == 0x1680
    || (0x2000 <= n <= 0x200A) || n == 0x2028 || n == 0x2029 || n == 0x202F
    || n == 0x205F || n == 0x3000
  }

  /** The ASCII blanks are whitespace; `#`, `<` and `[` are not. */
  lemma IsSpaceClass(c: char)
    ensures c == ' ' || c == '\t' || c == '\n' || c == '\r' ==> IsSpace(c)
    ensures IsSpace(c) ==> c != '#' && c != '<' && c != '['
  {
  }

  /**
   * The first `c` at or after position `i` that no newline precedes: where a
   * lazy `.*?c` started at `i` stops.  None when a newline or the end of `s`
   * comes first.
   */
  function FindOnLine(s: string, i: nat, c: char): (r: Option<nat>)
    requires i <= |s| && c != '\n'
    ensures r.Some? ==> i <= r.value < |s| && s[r.value] == c
                        && '\n' !in s[i..r.value] && c !in s[i..r.value]
    ensures r.None? ==> forall j :: i <= j < |s| && s[j] == c ==> '\n' in s[i..j]
    decreases |s| - i
  {
    if i == |s| || s[i] == '\n' then None
    else if s[i] == c then Some(i)
    else
      var r := FindOnLine(s, i + 1, c);
      assert r.Some? ==> s[i..r.value] == [s[i]] + s[i + 1..r.value];
      assert forall j :: i < j <= |s| ==> s[i..j] == [s[i]] + s[i + 1..j];
      r
  }

  /** The search stops at the first `c` when no newline and no other `c` come before it. */
  lemma FindOnLineAt(s: string, i: nat, k: nat, c: char)
    requires i <= k < |s| && c != '\n' && s[k] == c
    requires '\n' !in s[i..k] && c !in s[i..k]
    ensures FindOnLine(s, i, c) == Some(k)
    decreases k - i
  {
  }

  // ---------------------------------------------------------------------------
  // Tags: re.sub(r"<.*?>", "", s)
  // ---------------------------------------------------------------------------

  /**
   * Deletes every `<...>` that closes on the same line, scanning left to right.
   * It only ever deletes: no character is added or duplicated.
   */
  function StripTags(s: string): (r: string)
    ensures |r| <= |s|
    decreases |s|
  {
    if s == [] then []
    else if s[0] == '<' && FindOnLine(s, 1, '>').Some? then
      StripTags(s[FindOnLine(s, 1, '>').value + 1..])
    else [s[0]] + StripTags(s[1..])
  }

  /**
   * Nothing left for `<.*?>` to match: read left to right, no `<` has a `>`
   * after it on its own line.
   */
  predicate TagFree(s: string) {
    s == [] || ((s[0] == '<' ==> NoCloseOnFirstLine(s[1..])) && TagFree(s[1..]))
  }

  /** No `>` stands on the first line of `s`. */
  predicate NoCloseOnFirstLine(s: string) {
    forall j :: 0 <= j < |s| && s[j] == '>' ==> '\n' in s[..j]
  }

  lemma {:induction false} StripTagsKeepsFirstLineClean(s: string)
    requires NoCloseOnFirstLine(s)
    ensures NoCloseOnFirstLine(StripTags(s))
    decreases |s|
  {
    if s != [] {
      if s[0] == '<' {
        forall j | 1 <= j < |s| && s[j] == '>' ensures '\n' in s[1..j] {
          assert s[..j] == [s[0]] + s[1..j];
        }
      }
      var r := StripTags(s[1..]);
      assert StripTags(s) == [s[0]] + r;
      if s[0] != '\n' {
        assert s[0] != '>' by { assert s[..0] == []; }
        forall j | 0 <= j < |s[1..]| && s[1..][j] == '>' ensures '\n' in s[1..][..j] {
          assert '\n' in s[..j + 1];
          assert s[..j + 1] == [s[0]] + s[1..][..j];
        }
        StripTagsKeepsFirstLineClean(s[1..]);
        var out := [s[0]] + r;
        forall j | 0 <= j < |out| && out[j] == '>' ensures '\n' in out[..j] {
          assert j >= 1 && r[j - 1] == '>';
          assert '\n' in r[..j - 1];
          assert out[..j] == [s[0]] + r[..j - 1];
        }
      } else {
        var out := [s[0]] + r;
        forall j | 0 <= j < |out| && out[j] == '>' ensures '\n' in out[..j] {
          assert out[..j][0] == '\n';
        }
      }
    }
  }

  /** After `re.sub(r"<.*?>", "", s)` no `<` is followed by a `>` on the same line. */
  lemma {:induction false} StripTagsLeavesNoTag(s: string)
    ensures TagFree(StripTags(s))
    decreases |s|
  {
    if s == [] {
    } else if s[0] == '<' && FindOnLine(s, 1, '>').Some? {
      StripTagsLeavesNoTag(s[FindOnLine(s, 1, '>').value + 1..]);
    } else {
      var t := s[1..];
      var r := StripTags(t);
      StripTagsLeavesNoTag(t);
      if s[0] == '<' {
        forall j | 0 <= j < |t| && t[j] == '>' ensures '\n' in t[..j] {
          assert '\n' in s[1..j + 1];
          assert s[1..j + 1] == t[..j];
        }
        StripTagsKeepsFirstLineClean(t);
      }
      assert StripTags(s) == [s[0]] + r;
      assert ([s[0]] + r)[1..] == r;
    }
  }

  /** When `s` starts with a character that opens no tag, stripping keeps it and goes on with the rest. */
  lemma StripTagsKeepsHead(s: string)
    requires s != [] && (s[0] == '<' ==> NoCloseOnFirstLine(s[1..]))
    ensures StripTags(s) == [s[0]] + StripTags(s[1..])
  {
    if s[0] == '<' {
      var t := s[1..];
      forall j | 1 <= j < |s| && s[j] == '>' ensures '\n' in s[1..j] {
        assert t[j - 1] == '>' && '\n' in t[..j - 1];
        assert t[..j - 1] == s[1..j];
      }
    }
  }

  /** Text with no tag left is a fixed point of the tag substitution. */
  lemma {:induction false} StripTagsOfTagFree(s: string)
    requires TagFree(s)
    ensures StripTags(s) == s
    decreases |s|
  {
    if s != [] {
      var t := s[1..];
      assert s == [s[0]] + t;
      StripTagsKeepsHead(s);
      StripTagsOfTagFree(t);
    }
  }

  /** Text with no `<` has no tag to strip. */
  lemma StripTagsWithoutAngle(s: string)
    requires '<' !in s
    ensures StripTags(s) == s
  {
  }

  /** Stripping tags twice is the same as stripping them once. */
  lemma StripTagsIdempotent(s: string)
    ensures StripTags(StripTags(s)) == StripTags(s)
  {
    StripTagsLeavesNoTag(s);
    StripTagsOfTagFree(StripTags(s));
  }

  /** A part of `s` with no newline adds nothing to the count of newlines. */
  lemma NewlinesAfterTag(s: string, k: nat)
    requires 1 <= k < |s| && s[0] == '<' && s[k] == '>' && '\n' !in s[1..k]
    ensures multiset(s)['\n'] == multiset(s[k + 1..])['\n']
  {
    assert s == [s[0]] + s[1..k] + [s[k]] + s[k + 1..];
    assert multiset(s) == multiset([s[0]]) + multiset(s[1..k]) + multiset([s[k]]) + multiset(s[k + 1..]);
  }

  lemma NewlinesOfCons(c: char, s: string)
    ensures multiset([c] + s)['\n'] == (if c == '\n' then 1 else 0) + multiset(s)['\n']
  {
  }

  /** A tag never spans a line break, so stripping keeps every newline. */
  lemma {:induction false} StripTagsKeepsNewlines(s: string)
    ensures multiset(StripTags(s))['\n'] == multiset(s)['\n']
    decreases |s|
  {
    if s == [] {
    } else if s[0] == '<' && FindOnLine(s, 1, '>').Some? {
      var k := FindOnLine(s, 1, '>').value;
      StripTagsKeepsNewlines(s[k + 1..]);
      NewlinesAfterTag(s, k);
    } else {
      var rest := s[1..];
      StripTagsKeepsNewlines(rest);
      assert StripTags(s) == [s[0]] + StripTags(rest);
      NewlinesOfCons(s[0], rest);
      NewlinesOfCons(s[0], StripTags(rest));
      assert s == [s[0]] + rest;
    }
  }

  /** A text ending in a newline still ends in one once its tags are stripped. */
  lemma {:induction false} StripTagsKeepsFinalNewline(s: string)
    requires |s| > 0 && s[|s| - 1] == '\n'
    ensures |StripTags(s)| > 0 && StripTags(s)[|StripTags(s)| - 1] == '\n'
    decreases |s|
  {
    if s[0] == '<' && FindOnLine(s, 1, '>').Some? {
      var k := FindOnLine(s, 1, '>').value;
      assert k < |s| - 1;
      var t := s[k + 1..];
      assert t[|t| - 1] == '\n';
      StripTagsKeepsFinalNewline(t);
      assert StripTags(s) == StripTags(t);
    } else if |s| == 1 {
      assert StripTags(s) == [s[0]] + StripTags(s[1..]);
      assert s[1..] == [];
      assert StripTags(s) == [s[0]];
    } else {
      var t := s[1..];
      assert t[|t| - 1] == '\n';
      StripTagsKeepsFinalNewline(t);
      var r := StripTags(t);
      var out := [s[0]] + r;
      assert StripTags(s) == out;
      assert |out| == |r| + 1 && out[|r|] == r[|r| - 1];
    }
  }

  // ---------------------------------------------------------------------------
  // Hyperlinks: re.sub(r"\[(.*?)\]\((.*?)\)", r"\1", s), tried at s[0] == '['
  // ---------------------------------------------------------------------------

  /** The end of the line that contains position `i`: the next newline or the end of `s`. */
  function LineEnd(s: string, i: nat): (e: nat)
    requires i <= |s|
    ensures i <= e <= |s| && '\n' !in s[i..e] && (e == |s| || s[e] == '\n')
    decreases |s| - i
  {
    if i == |s| || s[i] == '\n' then i
    else
      var e := LineEnd(s, i + 1);
      assert s[i..e] == [s[i]] + s[i + 1..e];
      e
  }

  /**
   * Backtracking search for the rest of a link whose `[` is `s[0]`: group 1 is
   * `s[1..j]` for the first `j >= from` where `](` follows and a `)` closes
   * group 2 on the same line; a newline in group 1 ends the search.
   * The result is the pair (`j`, position of the closing `)`): group 2 stops
   * at the first `)`, and every earlier `](` on the line was passed over
   * because no `)` followed it on that line.  None means that no `](` on the
   * line is followed by a `)` on the line.
   */
  function LinkAt(s: string, from: nat): (r: Option<(nat, nat)>)
    requires 1 <= from <= |s|
    ensures r.Some? ==> from <= r.value.0 && r.value.0 + 2 <= r.value.1 < |s|
                        && s[r.value.0] == ']' && s[r.value.0 + 1] == '(' && s[r.value.1] == ')'
                        && '\n' !in s[from..r.value.0] && '\n' !in s[r.value.0 + 2..r.value.1]
                        && ')' !in s[r.value.0 + 2..r.value.1]
    decreases |s| - from
  {
    if from + 1 >= |s| || s[from] == '\n' then None
    else if s[from] == ']' && s[from + 1] == '(' && FindOnLine(s, from + 2, ')').Some? then
      Some((from, FindOnLine(s, from + 2, ')').value))
    else
      var r := LinkAt(s, from + 1);
      assert r.Some? ==> s[from..r.value.0] == [s[from]] + s[from + 1..r.value.0];
      r
  }

  /** Every `](` the search passes over before the one it finds has no `)` after it on its line. */
  lemma {:induction false} LinkAtPassesOver(s: string, from: nat)
    requires 1 <= from <= |s| && LinkAt(s, from).Some?
    ensures forall m :: from <= m < LinkAt(s, from).value.0 && s[m] == ']' && s[m + 1] == '(' ==>
      FindOnLine(s, m + 2, ')').None?
    decreases |s| - from
  {
    if s[from] == ']' && s[from + 1] == '(' && FindOnLine(s, from + 2, ')').Some? {
    } else {
      assert LinkAt(s, from) == LinkAt(s, from + 1);
      LinkAtPassesOver(s, from + 1);
    }
  }

  /** When the search finds nothing, no `](` up to the end of the line has a `)` after it on the line. */
  lemma {:induction false} LinkAtNoneMeansNoLink(s: string, from: nat)
    requires 1 <= from <= |s| && LinkAt(s, from).None?
    ensures forall m :: from <= m && m + 1 < LineEnd(s, from) && s[m] == ']' && s[m + 1] == '(' ==>
      FindOnLine(s, m + 2, ')').None?
    decreases |s| - from
  {
    if from + 1 >= |s| || s[from] == '\n' {
    } else {
      assert LinkAt(s, from + 1).None?;
      assert LineEnd(s, from) == LineEnd(s, from + 1);
      LinkAtNoneMeansNoLink(s, from + 1);
    }
  }

  /** A `c` with no newline before it on the line makes the search succeed. */
  lemma FindOnLineReaches(s: string, i: nat, k: nat, c: char)
    requires i <= k < |s| && c != '\n' && s[k] == c && '\n' !in s[i..k]
    ensures FindOnLine(s, i, c).Some?
  {
  }

  /**
   * Group 1 is the shortest that works: between the `[` and the `](` found
   * there is no other `](` at all, since a `)` closes the line after any of them.
   */
  lemma LinkAtIsLazy(s: string, from: nat)
    requires 1 <= from <= |s| && LinkAt(s, from).Some?
    ensures var j := LinkAt(s, from).value.0;
      forall m :: from <= m < j ==> !(s[m] == ']' && s[m + 1] == '(')
  {
    var (j, k) := LinkAt(s, from).value;
    LinkAtPassesOver(s, from);
    forall i | from + 2 <= i < j + 2 ensures FindOnLine(s, i, ')').Some? {
      NoNewlineAcrossLink(s, from, i, j, k);
      FindOnLineReaches(s, i, k, ')');
    }
  }

  /** A stretch inside caption, `](` and URL of one link holds no newline. */
  lemma NoNewlineAcrossLink(s: string, from: nat, i: nat, j: nat, k: nat)
    requires from <= i <= k && from <= j && j + 2 <= k < |s|
    requires '\n' !in s[from..j] && s[j] != '\n' && s[j + 1] != '\n' && '\n' !in s[j + 2..k]
    ensures '\n' !in s[i..k]
  {
    forall p | i <= p < k ensures s[p] != '\n' {
      if p < j {
        assert s[p] == s[from..j][p - from];
      } else if p >= j + 2 {
        assert s[p] == s[j + 2..k][p - j - 2];
      }
    }
  }

  /**
   * Replaces each `[label](url)` by its caption, scanning left to right.  It
   * only ever deletes: the caption is kept and the rest of the link dropped.
   */
  function RemoveHyperlinks(s: string): (r: string)
    ensures |r| <= |s|
    decreases |s|
  {
    if s == [] then []
    else if s[0] == '[' && LinkAt(s, 1).Some? then
      var (j, k) := LinkAt(s, 1).value;
      assert s == [s[0]] + s[1..j] + s[j..k + 1] + s[k + 1..];
      s[1..j] + RemoveHyperlinks(s[k + 1..])
    else
      assert s == [s[0]] + s[1..];
      [s[0]] + RemoveHyperlinks(s[1..])
  }

  /** Text before the first `[` passes through the link rewrite untouched. */
  lemma {:induction false} RemoveHyperlinksKeepsBracketFreePrefix(a: string, b: string)
    requires '[' !in a
    ensures RemoveHyperlinks(a + b) == a + RemoveHyperlinks(b)
    decreases |a|
  {
    if a != [] {
      assert a[0] in a;
      assert (a + b)[0] == a[0] && (a + b)[1..] == a[1..] + b;
      assert RemoveHyperlinks(a + b) == [a[0]] + RemoveHyperlinks(a[1..] + b);
      RemoveHyperlinksKeepsBracketFreePrefix(a[1..], b);
      assert a + RemoveHyperlinks(b) == [a[0]] + (a[1..] + RemoveHyperlinks(b));
    } else {
      assert a + b == b;
    }
  }

  /** Text without any `[` is unchanged by the link rewrite. */
  lemma {:induction false} RemoveHyperlinksWithoutBracket(s: string)
    requires '[' !in s
    ensures RemoveHyperlinks(s) == s
  {
    RemoveHyperlinksKeepsBracketFreePrefix(s, []);
    assert s + [] == s;
  }

  /**
   * The lazy group 1 runs on over any character but a newline, a lone `]`
   * included, up to the first `](`.
   */
  lemma {:induction false} LinkAtSkipsLabel(s: string, from: nat, close: nat)
    requires 1 <= from <= close && close + 1 < |s|
    requires forall m :: from <= m < close ==> s[m] != '\n' && !(s[m] == ']' && s[m + 1] == '(')
    ensures LinkAt(s, from) == LinkAt(s, close)
    decreases close - from
  {
    if from < close {
      LinkAtSkipsLabel(s, from + 1, close);
    }
  }

  /** No `](` inside `caption`: the lazy group 1 cannot stop early. */
  predicate NoLinkClose(caption: string) {
    forall m :: 0 <= m < |caption| - 1 ==> !(caption[m] == ']' && caption[m + 1] == '(')
  }

  /** A lone `]` stays in the caption: `[a]b](c)` becomes `a]b`. */
  lemma CaptionKeepsLoneBracket()
    ensures RemoveHyperlinks("[a]b](c)") == "a]b"
  {
    assert NoLinkClose("a]b") by {
      assert "a]b"[1] == ']' && "a]b"[2] == 'b';
    }
    LinkReplacedByLabel("a]b", "c", "");
    assert "[" + "a]b" + "](" + "c" + ")" + "" == "[a]b](c)";
    assert RemoveHyperlinks("") == "";
    assert "a]b" + "" == "a]b";
  }

  /**
   * A well-formed link (no `](` or newline in the caption, no `)` or newline in
   * the URL) is replaced by its caption, and scanning resumes after the `)`.
   */
  lemma LinkReplacedByLabel(caption: string, url: string, rest: string)
    requires '\n' !in caption && NoLinkClose(caption)
    requires ')' !in url && '\n' !in url
    ensures RemoveHyperlinks("[" + caption + "](" + url + ")" + rest) == caption + RemoveHyperlinks(rest)
  {
    var s := "[" + caption + "](" + url + ")" + rest;
    var j := 1 + |caption|;
    var k := j + 2 + |url|;
    LinkFound(caption, url, rest);
    assert s[1..j] == caption;
    assert s[k + 1..] == rest;
  }

  /** The link search finds the `](` right after the caption and the `)` right after the URL. */
  lemma LinkFound(caption: string, url: string, rest: string)
    requires '\n' !in caption && NoLinkClose(caption)
    requires ')' !in url && '\n' !in url
    ensures var s := "[" + caption + "](" + url + ")" + rest;
      LinkAt(s, 1) == Some((1 + |caption|, 3 + |caption| + |url|))
  {
    var s := "[" + caption + "](" + url + ")" + rest;
    var j := 1 + |caption|;
    var k := j + 2 + |url|;
    assert s[j] == ']' && s[j + 1] == '(' && s[k] == ')';
    forall m | 1 <= m < j ensures s[m] != '\n' && !(s[m] == ']' && s[m + 1] == '(') {
      assert s[m] == caption[m - 1];
      if m + 1 < j {
        assert s[m + 1] == caption[m];
      }
    }
    LinkAtSkipsLabel(s, 1, j);
    assert s[j + 2..k] == url;
    FindOnLineAt(s, j + 2, k, ')');
  }

  /** A stretch of Markdown: plain text, or a link `[caption](url)`. */
  datatype Piece = Plain(text: string) | Link(caption: string, url: string)

  /** Plain text with no bracket at all; a link whose caption and URL stay on one line and close where they should. */
  predicate WellFormedPiece(p: Piece) {
    match p
    case Plain(t) => '[' !in t && ']' !in t
    case Link(caption, url) => ']' !in caption && '\n' !in caption && ')' !in url && '\n' !in url
  }

  /** The Markdown text the pieces spell. */
  function Render(pieces: seq<Piece>): string {
    if pieces == [] then ""
    else
      match pieces[0]
      case Plain(t) => t + Render(pieces[1..])
      case Link(caption, url) => "[" + caption + "](" + url + ")" + Render(pieces[1..])
  }

  /** The same text with every link replaced by its caption. */
  function Captions(pieces: seq<Piece>): string {
    if pieces == [] then ""
    else
      match pieces[0]
      case Plain(t) => t + Captions(pieces[1..])
      case Link(caption, _) => caption + Captions(pieces[1..])
  }

  /**
   * The link rewrite does what it is for: on a text made of bracket-free
   * plain stretches and well-formed links, each link becomes its caption and
   * nothing else changes, and no `]` (so no `](`) is left in the result.
   */
  lemma {:induction false} RemoveHyperlinksOfPieces(pieces: seq<Piece>)
    requires forall k :: 0 <= k < |pieces| ==> WellFormedPiece(pieces[k])
    ensures RemoveHyperlinks(Render(pieces)) == Captions(pieces)
    ensures ']' !in Captions(pieces)
    decreases |pieces|
  {
    if pieces != [] {
      var rest := pieces[1..];
      assert WellFormedPiece(pieces[0]);
      RemoveHyperlinksOfPieces(rest);
      match pieces[0]
      case Plain(t) =>
        RemoveHyperlinksKeepsBracketFreePrefix(t, Render(rest));
      case Link(caption, url) =>
        LinkReplacedByLabel(caption, url, Render(rest));
    }
  }

  // ---------------------------------------------------------------------------
  // Images: re.sub(r"!{1}\[\[(.*)\]\]", "", s), tried at s[0] == '!'
  // ---------------------------------------------------------------------------

  /** A position that closes a newline-free stretch from `i` is the end of `i`'s line. */
  lemma LineEndAt(s: string, i: nat, e: nat)
    requires i <= e <= |s| && '\n' !in s[i..e] && (e == |s| || s[e] == '\n')
    ensures LineEnd(s, i) == e
    decreases e - i
  {
  }

  /** The last `]]` that starts at or after `lo` and ends by `e`: where a greedy `(.*)\]\]` stops. */
  function LastDoubleBracket(s: string, lo: nat, e: nat): (r: Option<nat>)
    requires e <= |s|
    ensures r.Some? ==> lo <= r.value && r.value + 2 <= e
                        && s[r.value] == ']' && s[r.value + 1] == ']'
    ensures r.Some? ==> forall m :: r.value < m && m + 2 <= e ==> !(s[m] == ']' && s[m + 1] == ']')
    ensures r.None? ==> forall m :: lo <= m && m + 2 <= e ==> !(s[m] == ']' && s[m + 1] == ']')
    decreases e
  {
    if e < lo + 2 then None
    else if s[e - 2] == ']' && s[e - 1] == ']' then Some(e - 2)
    else LastDoubleBracket(s, lo, e - 1)
  }

  /** `![[` starts at position `i`. */
  predicate ImageMarkerAt(s: string, i: nat) {
    i + 3 <= |s| && s[i] == '!' && s[i + 1] == '[' && s[i + 2] == '['
  }

  /**
   * Deletes each `![[...]]`, taking the last `]]` of the line, scanning left
   * to right.  It only ever deletes.
   */
  function RemoveImages(s: string): (r: string)
    ensures |r| <= |s|
    decreases |s|
  {
    if s == [] then []
    else if ImageMarkerAt(s, 0) && LastDoubleBracket(s, 3, LineEnd(s, 3)).Some? then
      var p := LastDoubleBracket(s, 3, LineEnd(s, 3)).value;
      assert s == s[..p + 2] + s[p + 2..];
      RemoveImages(s[p + 2..])
    else
      assert s == [s[0]] + s[1..];
      [s[0]] + RemoveImages(s[1..])
  }

  /** Text with no `![[` is unchanged by the image rewrite. */
  lemma {:induction false} RemoveImagesWithoutMarker(s: string)
    requires forall i :: 0 <= i < |s| ==> !ImageMarkerAt(s, i)
    ensures RemoveImages(s) == s
    decreases |s|
  {
    if s != [] {
      assert !ImageMarkerAt(s, 0);
      forall i | 0 <= i < |s[1..]| ensures !ImageMarkerAt(s[1..], i) {
        assert !ImageMarkerAt(s, i + 1);
      }
      RemoveImagesWithoutMarker(s[1..]);
      assert s == [s[0]] + s[1..];
    }
  }

  /** A `]]` at `p` after which no other `]]` ends by `e` is the last one. */
  lemma LastDoubleBracketAt(s: string, lo: nat, e: nat, p: nat)
    requires e <= |s| && lo <= p && p + 2 <= e && s[p] == ']' && s[p + 1] == ']'
    requires forall m :: p < m && m + 2 <= e ==> !(s[m] == ']' && s[m + 1] == ']')
    ensures LastDoubleBracket(s, lo, e) == Some(p)
  {
  }

  /** No `]]` on the first line of `s`. */
  predicate NoDoubleBracketOnFirstLine(s: string) {
    forall m :: 0 <= m && m + 2 <= LineEnd(s, 0) ==> !(s[m] == ']' && s[m + 1] == ']')
  }

  /**
   * An embed `![[target]]` (no newline inside `target`) is deleted entirely
   * when no later `]]` stands on its line: the text after it on the line does
   * not start with `]` and holds no `]]`.  Scanning resumes right after it.
   */
  lemma ImageEmbedRemoved(target: string, rest: string)
    requires '\n' !in target
    requires rest == [] || rest[0] != ']'
    requires NoDoubleBracketOnFirstLine(rest)
    ensures RemoveImages("![[" + target + "]]" + rest) == RemoveImages(rest)
  {
    var s := "![[" + target + "]]" + rest;
    var p := 3 + |target|;
    forall x | 3 <= x < p ensures s[x] != '\n' {
      assert s[x] == target[x - 3];
    }
    assert s[p + 2..] == rest;
    ImageRemovedAt(s, p);
  }

  /** The embed that opens `s` and closes with the `]]` at `p` is deleted, and scanning resumes after it. */
  lemma ImageRemovedAt(s: string, p: nat)
    requires ImageMarkerAt(s, 0) && 3 <= p && p + 2 <= |s| && s[p] == ']' && s[p + 1] == ']'
    requires forall x :: 3 <= x < p ==> s[x] != '\n'
    requires p + 2 == |s| || s[p + 2] != ']'
    requires NoDoubleBracketOnFirstLine(s[p + 2..])
    ensures RemoveImages(s) == RemoveImages(s[p + 2..])
  {
    EmbedCloses(s, p);
  }

  /** The greedy group stops at the `]]` at `p` when no `]]` follows it on its line. */
  lemma EmbedCloses(s: string, p: nat)
    requires 3 <= p && p + 2 <= |s| && s[p] == ']' && s[p + 1] == ']'
    requires forall x :: 3 <= x < p ==> s[x] != '\n'
    requires p + 2 == |s| || s[p + 2] != ']'
    requires NoDoubleBracketOnFirstLine(s[p + 2..])
    ensures LastDoubleBracket(s, 3, LineEnd(s, 3)) == Some(p)
  {
    EmbedLineEnd(s, p);
    NoLaterDoubleBracket(s, p);
    LastDoubleBracketAt(s, 3, LineEnd(s, 3), p);
  }

  /** The line of an embed closing at `p` ends where the line after the `]]` ends. */
  lemma EmbedLineEnd(s: string, p: nat)
    requires 3 <= p && p + 2 <= |s| && s[p] == ']' && s[p + 1] == ']'
    requires forall x :: 3 <= x < p ==> s[x] != '\n'
    ensures LineEnd(s, 3) == p + 2 + LineEnd(s[p + 2..], 0)
  {
    LineEndAcross(s, 3, p + 2);
  }

  lemma NoLaterDoubleBracket(s: string, p: nat)
    requires p + 2 <= |s| && (p + 2 == |s| || s[p + 2] != ']')
    requires NoDoubleBracketOnFirstLine(s[p + 2..])
    ensures forall m :: p < m && m + 2 <= p + 2 + LineEnd(s[p + 2..], 0) ==> !(s[m] == ']' && s[m + 1] == ']')
  {
    var rest := s[p + 2..];
    forall m | p < m && m + 2 <= p + 2 + LineEnd(rest, 0) ensures !(s[m] == ']' && s[m + 1] == ']') {
      if m > p + 1 {
        assert s[m] == rest[m - p - 2] && s[m + 1] == rest[m - p - 1];
      }
    }
  }

  /** Across a newline-free stretch `s[i..q]`, the line of `i` ends where the line of `q` ends. */
  lemma LineEndAcross(s: string, i: nat, q: nat)
    requires i <= q <= |s| && forall x :: i <= x < q ==> s[x] != '\n'
    ensures LineEnd(s, i) == q + LineEnd(s[q..], 0)
  {
    var t := s[q..];
    var e := q + LineEnd(t, 0);
    forall x | i <= x < e ensures s[x] != '\n' {
      if x >= q {
        assert s[x] == t[..LineEnd(t, 0)][x - q];
      }
    }
    assert e < |s| ==> s[e] == t[LineEnd(t, 0)];
    LineEndAt(s, i, e);
  }

  /**
   * The greedy `(.*)` runs to the LAST `]]` of the line, so two embeds on one
   * line are deleted together with all the text between them.
   */
  lemma GreedyImageTakesTextBetween(target1: string, between: string, target2: string, rest: string)
    requires '\n' !in target1 && '\n' !in between && '\n' !in target2
    requires rest == [] || rest[0] != ']'
    requires NoDoubleBracketOnFirstLine(rest)
    ensures RemoveImages("![[" + target1 + "]]" + between + "![[" + target2 + "]]" + rest) == RemoveImages(rest)
  {
    var target := target1 + "]]" + between + "![[" + target2;
    assert '\n' !in target;
    Regroup("![[", target1, "]]", between, "![[", target2, "]]", rest);
    ImageEmbedRemoved(target, rest);
  }

  /**
   * Regrouping eight pieces, stated over any `seq` so that the solver sees
   * none of the image definitions while it regroups.
   */
  lemma Regroup<T>(a: seq<T>, b: seq<T>, c: seq<T>, d: seq<T>, e: seq<T>, f: seq<T>, g: seq<T>, h: seq<T>)
    ensures a + b + c + d + e + f + g + h == a + (b + c + d + e + f) + g + h
  {
  }

  // ---------------------------------------------------------------------------
  // Headers: re.sub(r"#", "", h).strip()
  // ---------------------------------------------------------------------------

  /** Deletes every `#`, wherever it stands. */
  function RemoveHashes(s: string): (r: string)
    ensures '#' !in r
    decreases |s|
  {
    if s == [] then []
    else
      var rest := RemoveHashes(s[1..]);
      if s[0] == '#' then rest else [s[0]] + rest
  }

  /** Every character but `#` is kept, as often as it occurs. */
  lemma {:induction false} RemoveHashesKeepsOthers(s: string)
    ensures multiset(RemoveHashes(s)) == multiset(s)['#' := 0]
    decreases |s|
  {
    if s != [] {
      RemoveHashesKeepsOthers(s[1..]);
      assert s == [s[0]] + s[1..];
    }
  }

  /** Deleting the `#`s of two texts one after the other is deleting them from the whole. */
  lemma {:induction false} RemoveHashesAppend(a: string, b: string)
    ensures RemoveHashes(a + b) == RemoveHashes(a) + RemoveHashes(b)
    decreases |a|
  {
    if a == [] {
      assert a + b == b;
    } else {
      var c, t := a[0], a[1..];
      var rt, rb := RemoveHashes(t), RemoveHashes(b);
      calc {
        RemoveHashes(a + b);
        { assert a + b == [c] + (t + b); }
        RemoveHashes([c] + (t + b));
        { RemoveHashesCons(c, t + b); RemoveHashesAppend(t, b); }
        if c == '#' then rt + rb else [c] + (rt + rb);
        { assert [c] + (rt + rb) == [c] + rt + rb; }
        (if c == '#' then rt else [c] + rt) + rb;
        { assert a == [c] + t; RemoveHashesCons(c, t); }
        RemoveHashes(a) + rb;
      }
    }
  }

  lemma RemoveHashesCons(c: char, t: string)
    ensures RemoveHashes([c] + t) == (if c == '#' then RemoveHashes(t) else [c] + RemoveHashes(t))
  {
    assert ([c] + t)[0] == c && ([c] + t)[1..] == t;
  }

  /** Python's `str.lstrip()`: the suffix left once leading whitespace is dropped. */
  function TrimStart(s: string): (r: string)
    ensures |r| <= |s| && r == s[|s| - |r|..]
    ensures forall i :: 0 <= i < |s| - |r| ==> IsSpace(s[i])
    ensures r == [] || !IsSpace(r[0])
    decreases |s|
  {
    if s != [] && IsSpace(s[0]) then TrimStart(s[1..]) else s
  }

  /** Python's `str.rstrip()`: the prefix left once trailing whitespace is dropped. */
  function TrimEnd(s: string): (r: string)
    ensures |r| <= |s| && r == s[..|r|]
    ensures forall i :: |r| <= i < |s| ==> IsSpace(s[i])
    ensures r == [] || !IsSpace(r[|r| - 1])
    decreases |s|
  {
    if s != [] && IsSpace(s[|s| - 1]) then TrimEnd(s[..|s| - 1]) else s
  }

  /** Python's `str.strip()`. */
  function Strip(s: string): (r: string)
    ensures |r| <= |s| && Trimmed(r)
  {
    var t := TrimStart(s);
    var r := TrimEnd(t);
    assert r != [] ==> r[0] == t[0];
    r
  }

  /**
   * What `strip()` leaves is a stretch of `s`, and everything dropped before
   * it and after it is whitespace.
   */
  lemma StripLeavesStretch(s: string)
    ensures exists a, b :: 0 <= a <= b <= |s| && s[a..b] == Strip(s) && AllSpace(s, 0, a) && AllSpace(s, b, |s|)
  {
    var t := TrimStart(s);
    var r := TrimEnd(t);
    var a := |s| - |t|;
    var b := a + |r|;
    assert Strip(s) == r;
    PrefixOfSuffix(s, a, t, r);
    assert AllSpace(s, 0, a) && AllSpace(s, b, |s|);
    assert 0 <= a <= b <= |s| && s[a..b] == Strip(s);
  }

  /** Every character of `s[lo..hi]` is whitespace. */
  predicate AllSpace(s: string, lo: nat, hi: nat)
    requires lo <= hi <= |s|
  {
    forall i :: lo <= i < hi ==> IsSpace(s[i])
  }

  /** A prefix of a suffix of `s` is a stretch of `s`, followed by the rest of the suffix. */
  lemma PrefixOfSuffix<T>(s: seq<T>, a: nat, t: seq<T>, r: seq<T>)
    requires a <= |s| && t == s[a..] && |r| <= |t| && r == t[..|r|]
    ensures a + |r| <= |s| && s[a..a + |r|] == r
    ensures forall i :: a + |r| <= i < |s| ==> s[i] == t[i - a]
  {
  }

  /** Neither end of `s` is whitespace. */
  predicate Trimmed(s: string) {
    s == [] || (!IsSpace(s[0]) && !IsSpace(s[|s| - 1]))
  }

  /**
   * A normalised header has no `#` anywhere and no whitespace at either end,
   * and every character it keeps comes from the raw heading line.
   */
  lemma StripRemovesHashesAndSpace(h: string)
    ensures '#' !in Strip(RemoveHashes(h))
    ensures Trimmed(Strip(RemoveHashes(h)))
    ensures forall c :: c in Strip(RemoveHashes(h)) ==> c in h
  {
    RemoveHashesKeepsChars(h);
    StripKeepsChars(RemoveHashes(h));
  }

  /** Every character `RemoveHashes` keeps was in its input. */
  lemma RemoveHashesKeepsChars(h: string)
    ensures forall c :: c in RemoveHashes(h) ==> c in h
  {
    forall c | c in RemoveHashes(h) ensures c in h {
      RemoveHashesKeepsOthers(h);
      assert multiset(RemoveHashes(h))[c] > 0;
    }
  }

  /** Every character `Strip` keeps was in its input. */
  lemma StripKeepsChars(s: string)
    ensures forall c :: c in Strip(s) ==> c in s
  {
    var t := TrimStart(s);
    var r := TrimEnd(t);
    PrefixOfSuffix(s, |s| - |t|, t, r);
    forall c | c in r ensures c in s {
      var i :| 0 <= i < |r| && r[i] == c;
      assert s[|s| - |t| + i] == c;
    }
  }

}
