/**
 * What the metainfo decoder promises: it succeeds exactly on dictionaries
 * that follow the metainfo schema, the decoded fields are the dictionary's
 * values, the pieces are the 20-byte chunks of `pieces` in order, and the
 * first field that fails, in the fixed order, decides the error.
 */
module MetainfoProperties {
  import opened Bytes
  import opened Errors
  import opened Values
  import opened Bencode
  import opened Encoding
  import opened Metainfo

  // ---------------------------------------------------------------------------
  // The schema, stated independently of the order of the checks

  ghost predicate PathConforms(segments: seq<BValue>) {
    forall j :: 0 <= j < |segments| ==> segments[j].BString?
  }

  /** The texts of the path segments, in order. */
  ghost function PathTexts(segments: seq<BValue>): seq<string>
    requires PathConforms(segments)
  {
    seq(|segments|, j requires 0 <= j < |segments| => Text(segments[j].bytes))
  }

  ghost predicate FileConforms(file: BValue) {
    && file.BDictionary?
    && HasInteger(file.entries, LENGTH)
    && HasList(file.entries, PATH)
    && PathConforms(Get(file.entries, PATH).value.items)
  }

  /** Exactly one of `length` and `files`, of the right kind; `files` non-empty and well formed. */
  ghost predicate KindConforms(length: Option<BValue>, files: Option<BValue>) {
    && (length.Some? != files.Some?)
    && (length.Some? ==> length.value.BInteger?)
    && (files.Some? ==>
          && files.value.BList? && files.value.items != []
          && forall k :: 0 <= k < |files.value.items| ==> FileConforms(files.value.items[k]))
  }

  ghost predicate InfoConforms(info: seq<(seq<byte>, BValue)>) {
    && HasString(info, NAME)
    && HasInteger(info, PIECE_LENGTH)
    && HasString(info, PIECES)
    && |Get(info, PIECES).value.bytes| % PIECE_HASH_SIZE == 0
    && KindConforms(Get(info, LENGTH), Get(info, FILES))
  }

  ghost predicate Conforms(top: seq<(seq<byte>, BValue)>) {
    && HasString(top, ANNOUNCE)
    && HasDictionary(top, INFO)
    && InfoConforms(Get(top, INFO).value.entries)
  }

  // ---------------------------------------------------------------------------
  // Pieces

  /** The chunks laid end to end give back the `pieces` bytes. */
  lemma {:induction false} FlattenChunks(bytes: seq<byte>)
    requires |bytes| % PIECE_HASH_SIZE == 0
    ensures Flatten(Chunks(bytes)) == bytes
    decreases |bytes|
  {
    if bytes != [] {
      var rest := bytes[PIECE_HASH_SIZE..];
      FlattenChunks(rest);
      assert Chunks(bytes) == [bytes[..PIECE_HASH_SIZE]] + Chunks(rest);
      assert bytes == bytes[..PIECE_HASH_SIZE] + rest;
    }
  }

  // ---------------------------------------------------------------------------
  // Multi-file entries

  /** The inner loop succeeds exactly on string segments; otherwise the first other segment is named. */
  lemma {:induction false} PathNamesResult(i: nat, segments: seq<BValue>, j: nat, names: seq<string>)
    requires j <= |segments|
    ensures PathNames(i, segments, j, names).Ok? <==> PathConforms(segments[j..])
    ensures PathNames(i, segments, j, names).Ok? ==>
              PathNames(i, segments, j, names).value == names + PathTexts(segments[j..])
    ensures PathNames(i, segments, j, names).Err? ==>
              exists k :: j <= k < |segments| && !segments[k].BString?
                && (forall m :: j <= m < k ==> segments[m].BString?)
                && PathNames(i, segments, j, names).error == SegmentNotString(i, k)
    decreases |segments| - j
  {
    if j < |segments| {
      assert segments[j..][0] == segments[j];
      if segments[j].BString? {
        var more := names + [Text(segments[j].bytes)];
        PathNamesResult(i, segments, j + 1, more);
        assert segments[j..][1..] == segments[j + 1..];
        if PathConforms(segments[j..]) {
          assert PathTexts(segments[j..]) == [Text(segments[j].bytes)] + PathTexts(segments[j + 1..]);
        }
      }
    }
  }

  /** One entry of `files` is accepted exactly when it follows the schema. */
  lemma FileEntryAtResult(i: nat, file: BValue)
    ensures FileEntryAt(i, file).Ok? <==> FileConforms(file)
    ensures FileEntryAt(i, file).Ok? ==>
              FileEntryAt(i, file).value
              == FileEntry(Get(file.entries, LENGTH).value.n, PathTexts(Get(file.entries, PATH).value.items))
  {
    if file.BDictionary? && HasInteger(file.entries, LENGTH) && HasList(file.entries, PATH) {
      var segments := Get(file.entries, PATH).value.items;
      PathNamesResult(i, segments, 0, []);
      assert segments[0..] == segments;
    }
  }

  /** The outer loop succeeds exactly when every remaining entry is accepted. */
  lemma {:induction false} FilesFromOk(files: seq<BValue>, i: nat, mapped: seq<FileEntry>)
    requires i <= |files|
    ensures FilesFrom(files, i, mapped).Ok? <==> forall k :: i <= k < |files| ==> FileEntryAt(k, files[k]).Ok?
    decreases |files| - i
  {
    if i < |files| && FileEntryAt(i, files[i]).Ok? {
      FilesFromOk(files, i + 1, mapped + [FileEntryAt(i, files[i]).value]);
    }
  }

  /** The outer loop over any decoder of one entry; `FilesFrom` is this loop over `FileEntryAt`. */
  function FoldFiles(entry: (nat, BValue) -> Result<FileEntry>, files: seq<BValue>, i: nat, mapped: seq<FileEntry>)
    : Result<seq<FileEntry>>
    requires i <= |files|
    decreases |files| - i
  {
    if i == |files| then Ok(mapped)
    else
      match entry(i, files[i])
      case Ok(f) => FoldFiles(entry, files, i + 1, mapped + [f])
      case Err(e) => Err(e)
      case Raised(x) => Raised(x)
  }

  lemma {:induction false} FilesFromFold(files: seq<BValue>, i: nat, mapped: seq<FileEntry>)
    requires i <= |files|
    ensures FilesFrom(files, i, mapped) == FoldFiles((k: nat, file: BValue) => FileEntryAt(k, file), files, i, mapped)
    decreases |files| - i
  {
    if i < |files| && FileEntryAt(i, files[i]).Ok? {
      FilesFromFold(files, i + 1, mapped + [FileEntryAt(i, files[i]).value]);
    }
  }

  /** When every remaining entry is accepted, the loop appends their values, in order. */
  lemma {:induction false} FoldFilesValue(entry: (nat, BValue) -> Result<FileEntry>, files: seq<BValue>, i: nat,
                                          mapped: seq<FileEntry>, expected: seq<FileEntry>)
    requires i <= |files| && |expected| == |files| - i
    requires forall k :: i <= k < |files| ==> entry(k, files[k]) == Ok(expected[k - i])
    ensures FoldFiles(entry, files, i, mapped) == Ok(mapped + expected)
    decreases |files| - i
  {
    if i < |files| {
      assert entry(i, files[i]) == Ok(expected[0]);
      FoldFilesValue(entry, files, i + 1, mapped + [expected[0]], expected[1..]);
      assert mapped + [expected[0]] + expected[1..] == mapped + expected;
    } else {
      assert mapped + expected == mapped;
    }
  }

  /** On failure the error is that of the first remaining entry that is not accepted. */
  lemma {:induction false} FilesFromError(files: seq<BValue>, i: nat, mapped: seq<FileEntry>)
    requires i <= |files| && FilesFrom(files, i, mapped).Err?
    ensures exists k :: i <= k < |files| && FileEntryAt(k, files[k]) == Err(FilesFrom(files, i, mapped).error)
              && forall m :: i <= m < k ==> FileEntryAt(m, files[m]).Ok?
    decreases |files| - i
  {
    var f := FileEntryAt(i, files[i]);
    if f.Ok? {
      FilesFromError(files, i + 1, mapped + [f.value]);
      var k :| i + 1 <= k < |files| && FileEntryAt(k, files[k]) == Err(FilesFrom(files, i, mapped).error)
        && forall m :: i + 1 <= m < k ==> FileEntryAt(m, files[m]).Ok?;
      assert forall m :: i <= m < k ==> FileEntryAt(m, files[m]).Ok?;
    }
  }

  /** Every file of a `files` list, mapped in order, or the first file's error. */
  lemma MapFilesResult(files: seq<BValue>)
    ensures MapFiles(files).Ok? <==> forall k :: 0 <= k < |files| ==> FileConforms(files[k])
    ensures MapFiles(files).Ok? ==>
              && |MapFiles(files).value| == |files|
              && forall k :: 0 <= k < |files| ==>
                   FileEntryAt(k, files[k]).Ok? && MapFiles(files).value[k] == FileEntryAt(k, files[k]).value
    ensures MapFiles(files).Err? ==>
              exists k :: 0 <= k < |files| && FileEntryAt(k, files[k]) == Err(MapFiles(files).error)
                && forall m :: 0 <= m < k ==> FileEntryAt(m, files[m]).Ok?
  {
    var none: seq<FileEntry> := [];
    FilesFromOk(files, 0, none);
    forall k | 0 <= k < |files| ensures FileEntryAt(k, files[k]).Ok? <==> FileConforms(files[k]) {
      FileEntryAtResult(k, files[k]);
    }
    var r := FilesFrom(files, 0, none);
    if r.Ok? {
      var expected := seq(|files|, k requires 0 <= k < |files| && FileEntryAt(k, files[k]).Ok? =>
                            FileEntryAt(k, files[k]).value);
      var entry := (k: nat, file: BValue) => FileEntryAt(k, file);
      FilesFromFold(files, 0, none);
      FoldFilesValue(entry, files, 0, none, expected);
      assert none + expected == expected;
    } else {
      FilesFromError(files, 0, none);
    }
  }

  /** The first entry of `files` that fails decides the error of the whole list. */
  lemma FirstFailingFile(files: seq<BValue>, i: nat)
    requires i < |files| && forall k :: 0 <= k < i ==> FileConforms(files[k])
    requires FileEntryAt(i, files[i]).Err?
    ensures MapFiles(files) == Err(FileEntryAt(i, files[i]).error)
  {
    MapFilesResult(files);
    forall k | 0 <= k < i ensures FileEntryAt(k, files[k]).Ok? {
      FileEntryAtResult(k, files[k]);
    }
    var k :| 0 <= k < |files| && FileEntryAt(k, files[k]) == Err(MapFiles(files).error)
      && forall m :: 0 <= m < k ==> FileEntryAt(m, files[m]).Ok?;
  }

  /**
   * A path segment that is not a byte string, after string segments, is
   * reported with the file index and the segment index.
   */
  lemma SegmentErrorNamesIndices(i: nat, file: BValue, j: nat)
    requires file.BDictionary? && HasInteger(file.entries, LENGTH) && HasList(file.entries, PATH)
    requires var segments := Get(file.entries, PATH).value.items;
             j < |segments| && !segments[j].BString? && forall m :: 0 <= m < j ==> segments[m].BString?
    ensures FileEntryAt(i, file) == Err(SegmentNotString(i, j))
  {
    var segments := Get(file.entries, PATH).value.items;
    PathNamesResult(i, segments, 0, []);
    assert segments[0..] == segments;
    var e := PathNames(i, segments, 0, []);
    assert !PathConforms(segments[0..]) by {
      assert !segments[0..][j].BString?;
    }
    var n :| 0 <= n < |segments| && !segments[n].BString?
      && (forall m :: 0 <= m < n ==> segments[m].BString?) && e.error == SegmentNotString(i, n);
  }

  // ---------------------------------------------------------------------------
  // length / files

  /**
   * Neither or both of `length` and `files` is an error; an integer `length`
   * is one file of that length; a non-empty `files` list of well-formed
   * entries is the directory of those files in order; an empty one is an error.
   */
  lemma FileKindResult(length: Option<BValue>, files: Option<BValue>)
    ensures length.None? && files.None? ==> FileKindOf(length, files) == Err(NoLengthNorFiles)
    ensures length.Some? && files.Some? ==> FileKindOf(length, files) == Err(LengthAndFiles)
    ensures length.None? && files.Some? && files.value.BList? && files.value.items == [] ==>
              FileKindOf(length, files) == Err(EmptyFiles)
    ensures length.Some? && files.None? && !length.value.BInteger? ==> FileKindOf(length, files) == Err(LengthWrongType)
    ensures length.None? && files.Some? && !files.value.BList? ==> FileKindOf(length, files) == Err(FilesWrongType)
    ensures FileKindOf(length, files).Ok? <==> KindConforms(length, files)
    ensures FileKindOf(length, files).Ok? ==>
              match FileKindOf(length, files).value
              case SingleFile(n) => length.Some? && length.value == BInteger(n)
              case MultiFile(fs) =>
                && files.Some? && |fs| == |files.value.items|
                && forall k :: 0 <= k < |fs| ==>
                     FileEntryAt(k, files.value.items[k]).Ok? && fs[k] == FileEntryAt(k, files.value.items[k]).value
  {
    if files.Some? && files.value.BList? {
      MapFilesResult(files.value.items);
    }
  }

  // ---------------------------------------------------------------------------
  // The whole walk

  /** The info dictionary decodes exactly when it follows the schema, into its own values. */
  lemma DecodeInfoResult(info: seq<(seq<byte>, BValue)>)
    ensures DecodeInfo(info).Ok? <==> InfoConforms(info)
    ensures DecodeInfo(info).Ok? ==>
              var i := DecodeInfo(info).value;
              && i.name == Text(Get(info, NAME).value.bytes)
              && i.pieceLength == Get(info, PIECE_LENGTH).value.n
              && |i.pieces| == |Get(info, PIECES).value.bytes| / PIECE_HASH_SIZE
              && Flatten(i.pieces) == Get(info, PIECES).value.bytes
              && FileKindOf(Get(info, LENGTH), Get(info, FILES)) == Ok(i.fileKind)
  {
    FileKindResult(Get(info, LENGTH), Get(info, FILES));
    if HasString(info, PIECES) && |Get(info, PIECES).value.bytes| % PIECE_HASH_SIZE == 0 {
      FlattenChunks(Get(info, PIECES).value.bytes);
    }
  }

  /** The top-level dictionary decodes exactly when it follows the schema. */
  lemma DecodeTorrentResult(top: seq<(seq<byte>, BValue)>)
    ensures DecodeTorrent(top).Ok? <==> Conforms(top)
    ensures DecodeTorrent(top).Ok? ==>
              && DecodeTorrent(top).value.announce == Text(Get(top, ANNOUNCE).value.bytes)
              && DecodeInfo(Get(top, INFO).value.entries) == Ok(DecodeTorrent(top).value.info)
  {
    if HasString(top, ANNOUNCE) && HasDictionary(top, INFO) {
      DecodeInfoResult(Get(top, INFO).value.entries);
    }
  }

  /**
   * The checks run in a fixed order and the first one that fails decides the
   * error: announce, then info, then whatever the info dictionary reports.
   */
  lemma TopErrorsInOrder(top: seq<(seq<byte>, BValue)>)
    ensures Get(top, ANNOUNCE).None? ==> DecodeTorrent(top) == Err(MissingAnnounce)
    ensures Get(top, ANNOUNCE).Some? && !HasString(top, ANNOUNCE) ==>
              DecodeTorrent(top) == Err(AnnounceNotString)
    ensures HasString(top, ANNOUNCE) && Get(top, INFO).None? ==> DecodeTorrent(top) == Err(MissingInfo)
    ensures HasString(top, ANNOUNCE) && Get(top, INFO).Some? && !HasDictionary(top, INFO) ==>
              DecodeTorrent(top) == Err(InfoNotDictionary)
    ensures HasString(top, ANNOUNCE) && HasDictionary(top, INFO)
            && DecodeInfo(Get(top, INFO).value.entries).Err? ==>
              DecodeTorrent(top) == Err(DecodeInfo(Get(top, INFO).value.entries).error)
  {
  }

  /** Inside info the name is examined first. */
  lemma NameErrors(info: seq<(seq<byte>, BValue)>)
    ensures Get(info, NAME).None? ==> DecodeInfo(info) == Err(MissingName)
    ensures Get(info, NAME).Some? && !HasString(info, NAME) ==> DecodeInfo(info) == Err(NameNotString)
  {
  }

  /** After the name, the piece length. */
  lemma PieceLengthErrors(info: seq<(seq<byte>, BValue)>)
    requires HasString(info, NAME)
    ensures Get(info, PIECE_LENGTH).None? ==> DecodeInfo(info) == Err(MissingPieceLength)
    ensures Get(info, PIECE_LENGTH).Some? && !HasInteger(info, PIECE_LENGTH) ==>
              DecodeInfo(info) == Err(PieceLengthNotInteger)
  {
  }

  /** After name and piece length: pieces, then length/files. */
  lemma PiecesErrorsInOrder(info: seq<(seq<byte>, BValue)>)
    requires HasString(info, NAME) && HasInteger(info, PIECE_LENGTH)
    ensures Get(info, PIECES).None? ==> DecodeInfo(info) == Err(MissingPieces)
    ensures Get(info, PIECES).Some? && !HasString(info, PIECES) ==> DecodeInfo(info) == Err(PiecesNotString)
    ensures HasString(info, PIECES) && |Get(info, PIECES).value.bytes| % PIECE_HASH_SIZE != 0 ==>
              DecodeInfo(info) == Err(PiecesNotMultiple)
    ensures HasString(info, PIECES) && |Get(info, PIECES).value.bytes| % PIECE_HASH_SIZE == 0
            && FileKindOf(Get(info, LENGTH), Get(info, FILES)).Err? ==>
              DecodeInfo(info) == Err(FileKindOf(Get(info, LENGTH), Get(info, FILES)).error)
  {
  }

  /**
   * Later fields are not examined: two dictionaries that agree on the fields
   * up to the first failing one decode to the same error.
   */
  lemma EarlierFieldsDecide(top: seq<(seq<byte>, BValue)>, other: seq<(seq<byte>, BValue)>)
    requires Get(top, ANNOUNCE) == Get(other, ANNOUNCE)
    requires HasString(top, ANNOUNCE) ==> Get(top, INFO) == Get(other, INFO)
    requires HasString(top, ANNOUNCE) && HasDictionary(top, INFO) ==>
               var a := Get(top, INFO).value.entries;
               var b := Get(other, INFO).value.entries;
               && Get(a, NAME) == Get(b, NAME)
               && Get(a, PIECE_LENGTH) == Get(b, PIECE_LENGTH)
               && Get(a, PIECES) == Get(b, PIECES)
    requires !(HasString(top, ANNOUNCE) && HasDictionary(top, INFO)
               && var info := Get(top, INFO).value.entries;
                  HasString(info, NAME) && HasInteger(info, PIECE_LENGTH) && HasString(info, PIECES)
                  && |Get(info, PIECES).value.bytes| % PIECE_HASH_SIZE == 0)
    ensures DecodeTorrent(top).Err? && DecodeTorrent(top) == DecodeTorrent(other)
  {
  }

  /**
   * `Torrent.Parse` on bytes: a value is decoded exactly when the codec reads
   * a dictionary that follows the schema.
   */
  lemma DecodeResult(input: seq<byte>)
    ensures Decode(input).Ok? <==>
              var p := Parse(input, 0, true);
              p.Parsed? && p.value.BDictionary? && Conforms(p.value.entries)
  {
    var p := Parse(input, 0, true);
    if p.Parsed? && p.value.BDictionary? {
      DecodeTorrentResult(p.value.entries);
    }
  }

  /** A dictionary whose encoding is the whole file decodes as the walk over it. */
  lemma DecodeEncoded(top: seq<(seq<byte>, BValue)>)
    requires WellFormed(BDictionary(top))
    ensures Decode(Encode(BDictionary(top))) == DecodeTorrent(top)
  {
    var input := Encode(BDictionary(top));
    assert input[0..|input|] == input;
    ParseEncoding(BDictionary(top), input, 0, true);
  }
}
