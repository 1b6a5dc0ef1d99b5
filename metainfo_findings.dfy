/**
 * Two places where the metainfo decoder, as written, does not do what its
 * messages and the file format say, each next to the corrected definition
 * the rest of the model uses.
 */
module MetainfoFindings {
  import opened Bytes
  import opened Errors
  import opened Values
  import opened Metainfo
  import opened MetainfoProperties

  /**
   * The `files` loop as written: the dictionary test of each entry is made
   * on the `files` value itself, which is a list, so the first entry always
   * fails it and the rest of the loop is never reached.
   */
  function MapFilesAsWritten(filesValue: BValue): (r: Result<seq<FileEntry>>)
    requires filesValue.BList?
  {
    if filesValue.items == [] then Ok([])
    else if !filesValue.BDictionary? then Err(FileNotDictionary(0))
    else Ok([])
  }

  /** As written, no non-empty `files` list is ever accepted, whatever its entries. */
  lemma MapFilesAsWrittenRejectsAll(files: seq<BValue>)
    requires files != []
    ensures MapFilesAsWritten(BList(files)) == Err(FileNotDictionary(0))
  {
  }

  /**
   * The corrected loop accepts every list of well-formed entries, where the
   * loop as written rejects it.
   */
  lemma MapFilesAsWrittenDiffers(files: seq<BValue>)
    requires files != [] && forall k :: 0 <= k < |files| ==> FileConforms(files[k])
    ensures MapFiles(files).Ok? && MapFilesAsWritten(BList(files)).Err?
  {
    MapFilesResult(files);
  }

  /** A file entry `{length: 1, path: ["a"]}`, keys in ascending order. */
  function SampleFile(): (file: BValue)
    ensures file.BDictionary?
  {
    BDictionary([(AsciiBytes(LENGTH), BInteger(1)), (AsciiBytes(PATH), BList([BString([97])]))])
  }

  /** The one-entry list `[{length: 1, path: ["a"]}]` is a directory of one file `a` of length 1. */
  lemma SampleFileAccepted()
    ensures MapFiles([SampleFile()]) == Ok([FileEntry(1, ["a"])])
    ensures MapFilesAsWritten(BList([SampleFile()])) == Err(FileNotDictionary(0))
  {
    var entries := SampleFile().entries;
    assert AsciiBytes(LENGTH) != AsciiBytes(PATH) by {
      assert |AsciiBytes(LENGTH)| == 6 && |AsciiBytes(PATH)| == 4;
    }
    assert Get(entries, LENGTH) == Some(BInteger(1));
    assert Get(entries, PATH) == Some(BList([BString([97])]));
    assert Text([97]) == "a";
    var segments := [BString([97])];
    assert PathNames(0, segments, 1, ["a"]) == Ok(["a"]);
    var none: seq<string> := [];
    assert none + [Text(segments[0].bytes)] == ["a"];
    assert PathNames(0, segments, 0, []) == Ok(["a"]);
    assert FileEntryAt(0, SampleFile()) == Ok(FileEntry(1, ["a"]));
    var mapped: seq<FileEntry> := [];
    assert mapped + [FileEntry(1, ["a"])] == [FileEntry(1, ["a"])];
    assert FilesFrom([SampleFile()], 1, [FileEntry(1, ["a"])]) == Ok([FileEntry(1, ["a"])]);
  }

  /**
   * The message for a `length` or `files` value of the wrong kind, as
   * written: it names `length` when `length` is absent (so `files` was the
   * wrong one) and `files` when `length` is present.
   */
  function KindErrorAsWritten(length: Option<BValue>): (e: ParsingError)
  {
    if length.None? then LengthWrongType else FilesWrongType
  }

  /** As written, the message always names the key that is not at fault. */
  lemma KindErrorAsWrittenNamesOtherKey(length: Option<BValue>)
    ensures KindErrorAsWritten(length) != KindError(length)
    ensures length.Some? ==> KindErrorAsWritten(length) == FilesWrongType
    ensures length.None? ==> KindErrorAsWritten(length) == LengthWrongType
  {
    assert LengthWrongType != FilesWrongType;
  }
}
