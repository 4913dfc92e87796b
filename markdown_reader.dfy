/**
 * `LyzrMarkdownReader`: the section scan as a loop, the optional link and image
 * rewrites applied before it, and the conversion of each (header, body) pair
 * into a record with an id, a text and a metadata dictionary.
 *
 * Reading the file, `uuid.uuid4()` and the record class of the host library
 * are not modelled as such: the file's text is a parameter, the random ids
 * come from a caller-supplied oracle, and a record is a plain datatype.
 */
module MarkdownReading {
  import opened Wrappers
  import opened TextRewrites
  import opened Sections

  /**
   * A metadata dictionary. It is an object because the reader hands one and
   * the same dictionary to every record (and the GitHub reader writes into
   * the caller's dictionary).
   */
  class Metadata {
    var entries: map<string, string>

    constructor(entries: map<string, string>)
      ensures this.entries == entries
    {
      this.entries := entries;
    }

    /** `d[key] = value`. */
    method Put(key: string, value: string)
      modifies this
      ensures entries == old(entries)[key := value]
    {
      entries := entries[key := value];
    }
  }

  /** One output document: its id, its text and its metadata dictionary. */
  datatype Record = Record(id: string, text: string, metadata: Metadata)

  // ---------------------------------------------------------------------------
  // Specification functions
  // ---------------------------------------------------------------------------

  /** The text to parse: the given content, or else the file's text. */
  function SourceText(content: Option<string>, fileText: string): string
  {
    if content.Some? then content.value else fileText
  }

  /** The optional rewrites of `parse_tups`: hyperlinks first, then images. */
  function Preprocess(removeHyperlinks: bool, removeImages: bool, text: string): (r: string)
    ensures |r| <= |text|
    ensures !removeHyperlinks && !removeImages ==> r == text
    ensures removeHyperlinks && !removeImages ==> r == RemoveHyperlinks(text)
    ensures !removeHyperlinks && removeImages ==> r == RemoveImages(text)
  {
    var linked := if removeHyperlinks then RemoveHyperlinks(text) else text;
    if removeImages then RemoveImages(linked) else linked
  }

  /** `s.replace(' ', '_')`. */
  function ReplaceSpaces(s: string): (r: string)
    ensures |r| == |s|
    ensures forall k :: 0 <= k < |s| ==> r[k] == (if s[k] == ' ' then '_' else s[k])
    ensures ' ' !in r
  {
    if s == [] then []
    else [if s[0] == ' ' then '_' else s[0]] + ReplaceSpaces(s[1..])
  }

  /** A header counts only when it is a non-empty string (Python truthiness). */
  predicate HasHeader(header: Option<string>)
  {
    header.Some? && header.value != ""
  }

  /**
   * The id of a record: `file_Header` with spaces made `_`, or a random one.
   * A header-derived id starts with the file name and `_`, and holds no space
   * after it.
   */
  function DocId(file: string, header: Option<string>, randomId: string): (r: string)
    ensures !HasHeader(header) ==> r == randomId
    ensures HasHeader(header) ==>
      && |r| == |file| + 1 + |header.value| && r[..|file| + 1] == file + "_"
      && ' ' !in r[|file| + 1..]
    ensures HasHeader(header) ==>
      forall k :: 0 <= k < |header.value| ==>
        r[|file| + 1 + k] == (if header.value[k] == ' ' then '_' else header.value[k])
  {
    if HasHeader(header) then file + "_" + ReplaceSpaces(header.value) else randomId
  }

  /**
   * The text of a record: a blank line, the header and the body; or only the
   * body.  The header and the body can be read back out of it.
   */
  function DocText(section: Section): (r: string)
    ensures !HasHeader(section.header) ==> r == section.body
    ensures HasHeader(section.header) ==> var h := section.header.value;
      && |r| == |h| + |section.body| + 3
      && r[..2] == "\n\n" && r[2..|h| + 2] == h && r[|h| + 2] == '\n'
      && r[|h| + 3..] == section.body
  {
    if HasHeader(section.header) then "\n\n" + section.header.value + "\n" + section.body
    else section.body
  }

  // ---------------------------------------------------------------------------
  // Properties of the record fields
  // ---------------------------------------------------------------------------

  /** Replacing spaces twice changes nothing more. */
  lemma ReplaceSpacesIdempotent(s: string)
    ensures ReplaceSpaces(ReplaceSpaces(s)) == ReplaceSpaces(s)
  {
  }

  /**
   * Header-derived ids are not unique: a header with a space and the same
   * header written with `_` give one id, in any file.
   */
  lemma HeaderIdsCollide(file: string, header: string, random1: string, random2: string)
    requires ' ' in header
    ensures ReplaceSpaces(header) != header && ReplaceSpaces(header) != ""
    ensures DocId(file, Some(header), random1) == DocId(file, Some(ReplaceSpaces(header)), random2)
  {
    var k :| 0 <= k < |header| && header[k] == ' ';
    var h := ReplaceSpaces(header);
    assert h[k] == '_';
    assert HasHeader(Some(header)) && HasHeader(Some(h));
    ReplaceSpacesIdempotent(header);
  }

  /** Text with no `[` and no `!` passes the optional rewrites unchanged. */
  lemma PreprocessPlainText(removeHyperlinks: bool, removeImages: bool, text: string)
    requires '[' !in text && '!' !in text
    ensures Preprocess(removeHyperlinks, removeImages, text) == text
  {
    RemoveHyperlinksWithoutBracket(text);
    forall i | 0 <= i < |text| ensures !ImageMarkerAt(text, i) {
      assert text[i] in text;
    }
    RemoveImagesWithoutMarker(text);
  }

  // ---------------------------------------------------------------------------
  // The reader
  // ---------------------------------------------------------------------------

  class MarkdownReader {
    const removeHyperlinks: bool
    const removeImages: bool

    /** Both rewrites are on unless switched off. */
    constructor(removeHyperlinks: bool := true, removeImages: bool := true)
      ensures this.removeHyperlinks == removeHyperlinks && this.removeImages == removeImages
    {
      this.removeHyperlinks := removeHyperlinks;
      this.removeImages := removeImages;
    }

    /** `markdown_to_tups`: the scan over the lines, then the post-processing. */
    method MarkdownToTups(markdownText: string) returns (tups: seq<Section>)
      ensures tups == SplitSections(markdownText)
    {
      var lines := SplitLines(markdownText);
      var emitted: seq<Section> := [];
      var currentHeader: Option<string> := None;
      var currentText := "";
      for i := 0 to |lines|
        invariant Scan(ScanState(emitted, currentHeader, currentText), lines[i..]) == Scan(Start, lines)
      {
        var line := lines[i];
        assert lines[i..] == [line] + lines[i + 1..];
        if IsHeadingLine(line) {
          if currentHeader.Some? {
            if currentText == "" {
              continue;
            }
            emitted := emitted + [Section(currentHeader, currentText)];
          }
          currentHeader := Some(line);
          currentText := "";
        } else {
          currentText := currentText + line + "\n";
        }
      }
      ScanKeepsScanned(Start, lines);
      var raw := emitted + [Section(currentHeader, currentText)];
      if currentHeader.Some? {
        tups := NormalizeSections(raw);
      } else {
        tups := StripBodies(raw);
      }
    }

    /** `parse_tups`: the content (or the file's text), rewritten as configured, then split. */
    method ParseTups(content: Option<string>, fileText: string) returns (tups: seq<Section>)
      ensures tups == SplitSections(Preprocess(removeHyperlinks, removeImages, SourceText(content, fileText)))
      ensures 1 <= |tups|
    {
      var text := if content.Some? then content.value else fileText;
      if removeHyperlinks {
        text := RemoveHyperlinks(text);
      }
      if removeImages {
        text := RemoveImages(text);
      }
      tups := MarkdownToTups(text);
      SectionCount(text);
    }

    /**
     * `load_data`: one record per pair. A non-empty `extraInfo` is shared by
     * every record; otherwise each record gets a new empty dictionary.
     * `randomId(k)` stands for the `uuid4()` drawn for the k-th record.
     */
    method LoadData(file: string, extraInfo: Metadata?, content: Option<string>, fileText: string,
                    randomId: nat -> string)
      returns (records: seq<Record>)
      ensures var tups := SplitSections(Preprocess(removeHyperlinks, removeImages, SourceText(content, fileText)));
        |records| == |tups| >= 1 && RecordsOf(records, file, tups, randomId)
      ensures extraInfo != null && extraInfo.entries != map[] ==>
        forall k :: 0 <= k < |records| ==> records[k].metadata == extraInfo
      ensures !(extraInfo != null && extraInfo.entries != map[]) ==>
        forall k :: 0 <= k < |records| ==> fresh(records[k].metadata) && records[k].metadata.entries == map[]
      ensures !(extraInfo != null && extraInfo.entries != map[]) ==>
        forall j, k :: 0 <= j < k < |records| ==> records[j].metadata != records[k].metadata
    {
      var tups := ParseTups(content, fileText);
      records := BuildRecords(file, extraInfo, tups, randomId);
    }

    /** The loop of `load_data` over the pairs. */
    method BuildRecords(file: string, extraInfo: Metadata?, tups: seq<Section>, randomId: nat -> string)
      returns (records: seq<Record>)
      ensures |records| == |tups| && RecordsOf(records, file, tups, randomId)
      ensures extraInfo != null && extraInfo.entries != map[] ==>
        forall k :: 0 <= k < |records| ==> records[k].metadata == extraInfo
      ensures !(extraInfo != null && extraInfo.entries != map[]) ==>
        forall k :: 0 <= k < |records| ==> fresh(records[k].metadata) && records[k].metadata.entries == map[]
      ensures !(extraInfo != null && extraInfo.entries != map[]) ==>
        forall j, k :: 0 <= j < k < |records| ==> records[j].metadata != records[k].metadata
    {
      var shared := extraInfo != null && extraInfo.entries != map[];
      records := [];
      for k := 0 to |tups|
        invariant |records| == k
        invariant RecordsOf(records, file, tups, randomId)
        invariant shared ==> forall j :: 0 <= j < k ==> records[j].metadata == extraInfo
        invariant !shared ==> forall j :: 0 <= j < k ==> fresh(records[j].metadata) && records[j].metadata.entries == map[]
        invariant !shared ==> forall i, j :: 0 <= i < j < k ==> records[i].metadata != records[j].metadata
      {
        var metadata: Metadata;
        if shared {
          metadata := extraInfo;
        } else {
          metadata := new Metadata(map[]);
        }
        records := records + [Record(DocId(file, tups[k].header, randomId(k)), DocText(tups[k]), metadata)];
      }
    }
  }

  /** Record `k` carries the id and the text of pair `k` (for every record there is). */
  ghost predicate RecordsOf(records: seq<Record>, file: string, tups: seq<Section>, randomId: nat -> string)
    requires |records| <= |tups|
  {
    forall k :: 0 <= k < |records| ==>
      records[k].id == DocId(file, tups[k].header, randomId(k)) && records[k].text == DocText(tups[k])
  }
}
