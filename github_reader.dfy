/**
 * `LyzrGithubReader`: a Markdown reader that first records the file's path and
 * MD5 digest in the metadata dictionary, and then either returns the whole
 * (optionally rewritten) file as one record or splits it into sections.
 *
 * The digest is computed from the file's bytes by `get_md5`, which reads the
 * file; here the digest arrives as the parameter `md5Hex`.
 */
module GithubReading {
  import opened Wrappers
  import opened TextRewrites
  import opened Sections
  import opened MarkdownReading

  /** The metadata key holding the path of the file as given. */
  const FilePathKey := "original_file_path"

  /** The metadata key holding the hexadecimal MD5 digest of the file. */
  const Md5Key := "md5_hash"

  /** The dictionary after `load_data` filled in the path and the digest. */
  function Tagged(entries: map<string, string>, file: string, md5Hex: string): (r: map<string, string>)
    ensures r.Keys == entries.Keys + {FilePathKey, Md5Key}
    ensures r[FilePathKey] == file && r[Md5Key] == md5Hex
    ensures forall key :: key in entries && key != FilePathKey && key != Md5Key ==> r[key] == entries[key]
  {
    entries[FilePathKey := file][Md5Key := md5Hex]
  }

  /**
   * The GitHub reader. The source subclasses the Markdown reader; here it
   * holds one, configured with the same two rewrite switches.
   */
  class GithubReader {
    const reader: MarkdownReader
    const readAsSingleDoc: bool

    /** Sections by default; both rewrites on by default. */
    constructor(readAsSingleDoc: bool := false, removeHyperlinks: bool := true, removeImages: bool := true)
      ensures this.readAsSingleDoc == readAsSingleDoc
      ensures reader.removeHyperlinks == removeHyperlinks && reader.removeImages == removeImages
    {
      this.readAsSingleDoc := readAsSingleDoc;
      reader := new MarkdownReader(removeHyperlinks, removeImages);
    }

    /**
     * `load_data`. The caller's dictionary, or a new one when there is none,
     * receives the path and the digest and is then shared by every record.
     * In single-document mode the file's own text is used (any `content`
     * given is ignored) and nothing is split; otherwise the Markdown reader's
     * `load_data` runs with the now non-empty dictionary.
     */
    method LoadData(file: string, extraInfo: Metadata?, content: Option<string>, fileText: string,
                    md5Hex: string, randomId: nat -> string)
      returns (records: seq<Record>)
      modifies extraInfo
      ensures |records| >= 1
      ensures forall k :: 0 <= k < |records| ==> records[k].metadata == records[0].metadata
      ensures extraInfo != null ==> records[0].metadata == extraInfo
      ensures extraInfo == null ==> fresh(records[0].metadata)
      ensures records[0].metadata.entries
        == Tagged(if extraInfo == null then map[] else old(extraInfo.entries), file, md5Hex)
      ensures readAsSingleDoc ==>
        records == [Record(file, Preprocess(reader.removeHyperlinks, reader.removeImages, fileText), records[0].metadata)]
      ensures !readAsSingleDoc ==>
        var tups := SplitSections(Preprocess(reader.removeHyperlinks, reader.removeImages, SourceText(content, fileText)));
        |records| == |tups| && RecordsOf(records, file, tups, randomId)
    {
      var info: Metadata;
      if extraInfo == null {
        info := new Metadata(map[]);
      } else {
        info := extraInfo;
      }
      info.Put(FilePathKey, file);
      info.Put(Md5Key, md5Hex);
      if readAsSingleDoc {
        var text := fileText;
        if reader.removeHyperlinks {
          text := RemoveHyperlinks(text);
        }
        if reader.removeImages {
          text := RemoveImages(text);
        }
        records := [Record(file, text, info)];
      } else {
        assert FilePathKey in info.entries;
        records := reader.LoadData(file, info, content, fileText, randomId);
      }
    }

    /** `LyzrGithubReader()`: sections, with hyperlinks and images removed. */
    static method Default() returns (g: GithubReader)
      ensures fresh(g) && !g.readAsSingleDoc && g.reader.removeHyperlinks && g.reader.removeImages
    {
      g := new GithubReader();
    }
  }
}
