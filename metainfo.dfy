/**
 * The metainfo (.torrent) decoder: the top-level value is parsed with key
 * order checked, must be a dictionary, and is then walked in a fixed order
 * of field checks, each with its own error.
 *
 * Two places differ from Torrent.cs as written, and `MetainfoFindings`
 * models the code as written beside them: the multi-file loop checks each
 * file entry (the code inspects the enclosing values instead), and the
 * closing type error names the field that is present (the code swaps the
 * two messages). Pieces are cut from the raw bytes of `pieces`.
 */
module Metainfo {
  import opened Bytes
  import opened Errors
  import opened Values
  import opened Bencode

  datatype FileEntry = FileEntry(length: int, path: seq<string>)

  /** Exactly one of `length` (one file) and `files` (a directory of files). */
  datatype FileKind =
    | SingleFile(length: int)
    | MultiFile(files: seq<FileEntry>)

  datatype Info = Info(name: string, pieceLength: int, pieces: seq<seq<byte>>, fileKind: FileKind)

  /** The announce URL is kept as its text; building a `Uri` from it is not modelled. */
  datatype Torrent = Torrent(announce: string, info: Info)

  /** A decoded value, a parsing error, or an exception that escapes the codec. */
  datatype Result<T> =
    | Ok(value: T)
    | Err(error: ParsingError)
    | Raised(exception: Unhandled)

  /** Each piece hash is a SHA-1 digest of this many bytes. */
  const PIECE_HASH_SIZE: nat := 20

  // The keys of the metainfo dictionaries.
  const ANNOUNCE: AsciiText := "announce"
  const INFO: AsciiText := "info"
  const NAME: AsciiText := "name"
  const PIECE_LENGTH: AsciiText := "piece length"
  const PIECES: AsciiText := "pieces"
  const LENGTH: AsciiText := "length"
  const FILES: AsciiText := "files"
  const PATH: AsciiText := "path"

  // ---------------------------------------------------------------------------
  // Errors

  const InvalidTorrent: ParsingError := Format("Invalid torrent file.")
  const NotADictionary: ParsingError := Format("Torrent files are bencoded directories.")
  const MissingAnnounce: ParsingError := Format("Missing 'announce' key.")
  const AnnounceNotString: ParsingError := Format("The 'announce' key should have a 'string' value.")
  const MissingInfo: ParsingError := Format("Missing 'info' key")
  const InfoNotDictionary: ParsingError := Format("The 'info' key should have a 'dictionary' value.")
  const MissingName: ParsingError := Format("Missing 'info.name' key.")
  const NameNotString: ParsingError := Format("The 'info.name' key should have a 'string' value.")
  const MissingPieceLength: ParsingError := Format("Missing 'info.piece length' key.")
  const PieceLengthNotInteger: ParsingError :=
    Format("The 'info.piece length' key should have an 'integer' value.")
  const MissingPieces: ParsingError := Format("Missing 'info.pieces' key.")
  const PiecesNotString: ParsingError := Format("The 'info.pieces' key should have an 'string' value.")
  const PiecesNotMultiple: ParsingError :=
    Format("The 'info.pieces' key should have a size that is multiple of '20'.")
  const NoLengthNorFiles: ParsingError := Format("A 'info.length' or 'info.files' key should be provided.")
  const LengthAndFiles: ParsingError :=
    Format("Both 'info.length' and 'info.files' keys can't be provided at the same time.")
  const EmptyFiles: ParsingError := Format("The 'info.files' value can't have zero elements.")
  /** The text reads 'string' although the check is for an integer; it is kept as written. */
  const LengthWrongType: ParsingError := Format("The 'info.length' key should have a 'string' value.")
  const FilesWrongType: ParsingError := Format("The 'info.files' key should have a 'list' value.")

  /** An index as string interpolation writes it: its decimal digits. */
  function IndexText(i: nat): (s: string)
    ensures 1 <= |s| && Text(DecimalText(i)) == s
  {
    Text(DecimalText(i))
  }

  const FILE_HEAD: string := "The 'info.files["
  const MISSING_FILE_HEAD: string := "Missing 'info.files["
  const SEGMENT_INFIX: string := "].path["

  const NOT_DICTIONARY_TAIL: string := "]' key should have a 'dictionary' value."
  const MISSING_LENGTH_TAIL: string := "].length' key."
  const LENGTH_TAIL: string := "].length' key should have a 'integer' value."
  const MISSING_PATH_TAIL: string := "].path' key."
  const PATH_TAIL: string := "].path' key should have a 'list' value."
  const SEGMENT_TAIL: string := "]' key should have a 'string' value."

  function FileNotDictionary(i: nat): (e: ParsingError)
    ensures e.Format? && FILE_HEAD + IndexText(i) <= e.message
  {
    Format(FILE_HEAD + IndexText(i) + NOT_DICTIONARY_TAIL)
  }

  function MissingFileLength(i: nat): (e: ParsingError)
    ensures e.Format? && MISSING_FILE_HEAD + IndexText(i) <= e.message
  {
    Format(MISSING_FILE_HEAD + IndexText(i) + MISSING_LENGTH_TAIL)
  }

  function FileLengthNotInteger(i: nat): (e: ParsingError)
    ensures e.Format? && FILE_HEAD + IndexText(i) <= e.message
  {
    Format(FILE_HEAD + IndexText(i) + LENGTH_TAIL)
  }

  function MissingFilePath(i: nat): (e: ParsingError)
    ensures e.Format? && MISSING_FILE_HEAD + IndexText(i) <= e.message
  {
    Format(MISSING_FILE_HEAD + IndexText(i) + MISSING_PATH_TAIL)
  }

  function FilePathNotList(i: nat): (e: ParsingError)
    ensures e.Format? && FILE_HEAD + IndexText(i) <= e.message
  {
    Format(FILE_HEAD + IndexText(i) + PATH_TAIL)
  }

  /** The error names both the file index and the path segment index. */
  function SegmentNotString(i: nat, j: nat): (e: ParsingError)
    ensures e.Format? && FILE_HEAD + IndexText(i) + SEGMENT_INFIX + IndexText(j) <= e.message
  {
    Format(FILE_HEAD + IndexText(i) + SEGMENT_INFIX + IndexText(j) + SEGMENT_TAIL)
  }

  /**
   * After a common head, an index followed by a text that starts with ']'
   * can be read back in one way only: the digits end at the ']'.
   */
  lemma IndexedTextParts(head: string, i: nat, t1: string, j: nat, t2: string)
    requires t1 != [] && t1[0] == ']' && t2 != [] && t2[0] == ']'
    ensures head + IndexText(i) + t1 == head + IndexText(j) + t2 <==> i == j && t1 == t2
  {
    var a, b := IndexText(i), IndexText(j);
    var m1, m2 := head + a + t1, head + b + t2;
    if m1 == m2 {
      // the first ']' after the head ends both indices
      assert m1[|head| + |a|] == ']' && m2[|head| + |b|] == ']';
      assert a == m1[|head|..|head| + |a|] == b;
      assert t1 == m1[|head| + |a|..] == t2;
      TextInjective(DecimalText(i), DecimalText(j));
      DecimalTextInjective(i, j);
    }
  }

  /** Each per-file error of Torrent.cs:133-175 determines the indices it names. */
  lemma FileErrorsInjective(i: nat, j: nat, k: nat, l: nat)
    ensures FileNotDictionary(i) == FileNotDictionary(j) <==> i == j
    ensures MissingFileLength(i) == MissingFileLength(j) <==> i == j
    ensures FileLengthNotInteger(i) == FileLengthNotInteger(j) <==> i == j
    ensures MissingFilePath(i) == MissingFilePath(j) <==> i == j
    ensures FilePathNotList(i) == FilePathNotList(j) <==> i == j
    ensures SegmentNotString(i, k) == SegmentNotString(j, l) <==> i == j && k == l
  {
    IndexedTextParts(FILE_HEAD, i, NOT_DICTIONARY_TAIL, j, NOT_DICTIONARY_TAIL);
    IndexedTextParts(MISSING_FILE_HEAD, i, MISSING_LENGTH_TAIL, j, MISSING_LENGTH_TAIL);
    IndexedTextParts(FILE_HEAD, i, LENGTH_TAIL, j, LENGTH_TAIL);
    IndexedTextParts(MISSING_FILE_HEAD, i, MISSING_PATH_TAIL, j, MISSING_PATH_TAIL);
    IndexedTextParts(FILE_HEAD, i, PATH_TAIL, j, PATH_TAIL);
    var seg1, seg2 := SEGMENT_INFIX + IndexText(k) + SEGMENT_TAIL, SEGMENT_INFIX + IndexText(l) + SEGMENT_TAIL;
    assert SegmentNotString(i, k).message == FILE_HEAD + IndexText(i) + seg1;
    assert SegmentNotString(j, l).message == FILE_HEAD + IndexText(j) + seg2;
    IndexedTextParts(FILE_HEAD, i, seg1, j, seg2);
    IndexedTextParts(SEGMENT_INFIX, k, SEGMENT_TAIL, l, SEGMENT_TAIL);
  }

  /**
   * The per-file errors of Torrent.cs:133-175 that start "The 'info.files[":
   * whatever the indices, no two checks share a message.
   */
  lemma WrongKindErrorsDistinct(i: nat, j: nat, l: nat)
    ensures FileNotDictionary(i) != FileLengthNotInteger(j)
    ensures FileNotDictionary(i) != FilePathNotList(j)
    ensures FileNotDictionary(i) != SegmentNotString(j, l)
    ensures FileLengthNotInteger(i) != FilePathNotList(j)
    ensures FileLengthNotInteger(i) != SegmentNotString(j, l)
    ensures FilePathNotList(i) != SegmentNotString(j, l)
  {
    var seg := SEGMENT_INFIX + IndexText(l) + SEGMENT_TAIL;
    assert SegmentNotString(j, l).message == FILE_HEAD + IndexText(j) + seg;
    IndexedTextParts(FILE_HEAD, i, NOT_DICTIONARY_TAIL, j, LENGTH_TAIL);
    IndexedTextParts(FILE_HEAD, i, NOT_DICTIONARY_TAIL, j, PATH_TAIL);
    IndexedTextParts(FILE_HEAD, i, NOT_DICTIONARY_TAIL, j, seg);
    IndexedTextParts(FILE_HEAD, i, LENGTH_TAIL, j, PATH_TAIL);
    assert LENGTH_TAIL[2] != seg[2];
    IndexedTextParts(FILE_HEAD, i, LENGTH_TAIL, j, seg);
    IndexedTextParts(FILE_HEAD, i, PATH_TAIL, j, seg);
  }

  /**
   * The missing-key errors of Torrent.cs:141-160 differ from each other and
   * from every wrong-kind error, whatever the indices.
   */
  lemma MissingKeyErrorsDistinct(i: nat, j: nat, l: nat)
    ensures MissingFileLength(i) != MissingFilePath(j)
    ensures FileNotDictionary(i) != MissingFileLength(j) && FileNotDictionary(i) != MissingFilePath(j)
    ensures FileLengthNotInteger(i) != MissingFileLength(j) && FileLengthNotInteger(i) != MissingFilePath(j)
    ensures FilePathNotList(i) != MissingFileLength(j) && FilePathNotList(i) != MissingFilePath(j)
    ensures SegmentNotString(i, l) != MissingFileLength(j) && SegmentNotString(i, l) != MissingFilePath(j)
  {
    IndexedTextParts(MISSING_FILE_HEAD, i, MISSING_LENGTH_TAIL, j, MISSING_PATH_TAIL);
    // the two heads differ in their first character
    assert MissingFileLength(j).message[0] == MissingFilePath(j).message[0] == 'M';
    assert FileNotDictionary(i).message[0] == FileLengthNotInteger(i).message[0] == 'T';
    assert FilePathNotList(i).message[0] == SegmentNotString(i, l).message[0] == 'T';
  }

  // ---------------------------------------------------------------------------
  // Pieces

  /** Consecutive 20-byte chunks, in order. */
  function Chunks(bytes: seq<byte>): (r: seq<seq<byte>>)
    requires |bytes| % PIECE_HASH_SIZE == 0
    ensures |r| == |bytes| / PIECE_HASH_SIZE
    ensures forall i :: 0 <= i < |r| ==>
              r[i] == bytes[PIECE_HASH_SIZE * i..PIECE_HASH_SIZE * i + PIECE_HASH_SIZE]
    decreases |bytes|
  {
    if bytes == [] then []
    else
      var rest := Chunks(bytes[PIECE_HASH_SIZE..]);
      var r := [bytes[..PIECE_HASH_SIZE]] + rest;
      assert forall i :: 1 <= i < |r| ==>
               r[i] == bytes[PIECE_HASH_SIZE * i..PIECE_HASH_SIZE * i + PIECE_HASH_SIZE] by {
        forall i | 1 <= i < |r|
          ensures r[i] == bytes[PIECE_HASH_SIZE * i..PIECE_HASH_SIZE * i + PIECE_HASH_SIZE]
        {
          var k := PIECE_HASH_SIZE * (i - 1);
          assert r[i] == bytes[PIECE_HASH_SIZE..][k..k + PIECE_HASH_SIZE];
        }
      }
      r
  }

  /** The chunks laid end to end. */
  function Flatten(chunks: seq<seq<byte>>): seq<byte> {
    if chunks == [] then [] else chunks[0] + Flatten(chunks[1..])
  }

  // ---------------------------------------------------------------------------
  // Multi-file entries

  /**
   * One entry of `info.files`: a dictionary with an integer `length` and a
   * `path` list of byte strings.
   */
  function FileEntryAt(i: nat, file: BValue): (r: Result<FileEntry>)
    ensures !r.Raised?
  {
    if !file.BDictionary? then Err(FileNotDictionary(i))
    else
      var length := Get(file.entries, LENGTH);
      if length.None? then Err(MissingFileLength(i))
      else if !length.value.BInteger? then Err(FileLengthNotInteger(i))
      else
        var path := Get(file.entries, PATH);
        if path.None? then Err(MissingFilePath(i))
        else if !path.value.BList? then Err(FilePathNotList(i))
        else
          match PathNames(i, path.value.items, 0, [])
          case Ok(names) => Ok(FileEntry(length.value.n, names))
          case Err(e) => Err(e)
          case Raised(x) => Raised(x)
  }

  /** The inner loop: path segments from `j` on, appended to the names read so far. */
  function PathNames(i: nat, segments: seq<BValue>, j: nat, names: seq<string>): (r: Result<seq<string>>)
    requires j <= |segments|
    ensures !r.Raised?
    decreases |segments| - j
  {
    if j == |segments| then Ok(names)
    else if !segments[j].BString? then Err(SegmentNotString(i, j))
    else PathNames(i, segments, j + 1, names + [Text(segments[j].bytes)])
  }

  /** The outer loop: file entries from `i` on, appended to the entries mapped so far. */
  function FilesFrom(files: seq<BValue>, i: nat, mapped: seq<FileEntry>): (r: Result<seq<FileEntry>>)
    requires i <= |files|
    ensures !r.Raised?
    decreases |files| - i
  {
    if i == |files| then Ok(mapped)
    else
      match FileEntryAt(i, files[i])
      case Ok(f) => FilesFrom(files, i + 1, mapped + [f])
      case Err(e) => Err(e)
      case Raised(x) => Raised(x)
  }

  function MapFiles(files: seq<BValue>): (r: Result<seq<FileEntry>>)
    ensures !r.Raised?
  {
    FilesFrom(files, 0, [])
  }

  /**
   * The outer loop of the multi-file branch: map each file in turn, stopping
   * at the first error.
   */
  method MapFilesLoop(files: seq<BValue>) returns (r: Result<seq<FileEntry>>)
    ensures r == MapFiles(files)
  {
    var mapped: seq<FileEntry> := [];
    var i := 0;
    while i < |files|
      invariant 0 <= i <= |files|
      invariant FilesFrom(files, i, mapped) == MapFiles(files)
    {
      var file := MapFile(i, files[i]);
      if file.Err? {
        return Err(file.error);
      }
      mapped := mapped + [file.value];
      i := i + 1;
    }
    return Ok(mapped);
  }

  /**
   * The body of the outer loop: check the entry's `length` and `path`, then
   * collect the path names in the inner loop.
   */
  method MapFile(i: nat, file: BValue) returns (r: Result<FileEntry>)
    ensures r == FileEntryAt(i, file)
  {
    if !file.BDictionary? {
      return Err(FileNotDictionary(i));
    }
    var length := Get(file.entries, LENGTH);
    if length.None? {
      return Err(MissingFileLength(i));
    }
    if !length.value.BInteger? {
      return Err(FileLengthNotInteger(i));
    }
    var path := Get(file.entries, PATH);
    if path.None? {
      return Err(MissingFilePath(i));
    }
    if !path.value.BList? {
      return Err(FilePathNotList(i));
    }
    var segments := path.value.items;
    var names: seq<string> := [];
    var j := 0;
    while j < |segments|
      invariant 0 <= j <= |segments|
      invariant PathNames(i, segments, j, names) == PathNames(i, segments, 0, [])
    {
      if !segments[j].BString? {
        return Err(SegmentNotString(i, j));
      }
      names := names + [Text(segments[j].bytes)];
      j := j + 1;
    }
    return Ok(FileEntry(length.value.n, names));
  }

  // ---------------------------------------------------------------------------
  // The field walk

  /** The type error when the `length`/`files` entry present has the wrong kind. */
  function KindError(length: Option<BValue>): (e: ParsingError)
    ensures length.Some? ==> e == LengthWrongType
    ensures length.None? ==> e == FilesWrongType
  {
    if length.Some? then LengthWrongType else FilesWrongType
  }

  /** `length` gives a single file, `files` a directory; exactly one must be present. */
  function FileKindOf(length: Option<BValue>, files: Option<BValue>): (r: Result<FileKind>)
    ensures !r.Raised?
  {
    if length.None? && files.None? then Err(NoLengthNorFiles)
    else if length.Some? && files.Some? then Err(LengthAndFiles)
    else if length.Some? && length.value.BInteger? then Ok(SingleFile(length.value.n))
    else if files.Some? && files.value.BList? then
      if files.value.items == [] then Err(EmptyFiles)
      else
        match MapFiles(files.value.items)
        case Ok(mapped) => Ok(MultiFile(mapped))
        case Err(e) => Err(e)
        case Raised(x) => Raised(x)
    else Err(KindError(length))
  }

  /** The `info` dictionary: name, piece length, pieces, then the file kind. */
  function DecodeInfo(info: seq<(seq<byte>, BValue)>): (r: Result<Info>)
    ensures !r.Raised?
  {
    var name := Get(info, NAME);
    if name.None? then Err(MissingName)
    else if !name.value.BString? then Err(NameNotString)
    else
      var pieceLength := Get(info, PIECE_LENGTH);
      if pieceLength.None? then Err(MissingPieceLength)
      else if !pieceLength.value.BInteger? then Err(PieceLengthNotInteger)
      else
        var pieces := Get(info, PIECES);
        if pieces.None? then Err(MissingPieces)
        else if !pieces.value.BString? then Err(PiecesNotString)
        else if |pieces.value.bytes| % PIECE_HASH_SIZE != 0 then Err(PiecesNotMultiple)
        else
          var hashes := Chunks(pieces.value.bytes);
          match FileKindOf(Get(info, LENGTH), Get(info, FILES))
          case Ok(kind) => Ok(Info(Text(name.value.bytes), pieceLength.value.n, hashes, kind))
          case Err(e) => Err(e)
          case Raised(x) => Raised(x)
  }

  /** The top-level dictionary: announce, then info. */
  function DecodeTorrent(top: seq<(seq<byte>, BValue)>): (r: Result<Torrent>)
    ensures !r.Raised?
  {
    var announce := Get(top, ANNOUNCE);
    if announce.None? then Err(MissingAnnounce)
    else if !announce.value.BString? then Err(AnnounceNotString)
    else
      var info := Get(top, INFO);
      if info.None? then Err(MissingInfo)
      else if !info.value.BDictionary? then Err(InfoNotDictionary)
      else
        match DecodeInfo(info.value.entries)
        case Ok(i) => Ok(Torrent(Text(announce.value.bytes), i))
        case Err(e) => Err(e)
        case Raised(x) => Raised(x)
  }

  /**
   * `Torrent.Parse`: any codec error becomes "Invalid torrent file.", a value
   * other than a dictionary is rejected, an exception escaping the codec
   * escapes here too, and a dictionary is handed to the field walk.
   */
  function Decode(input: seq<byte>): (r: Result<Torrent>)
    ensures Parse(input, 0, true).Rejected? ==> r == Err(InvalidTorrent)
    ensures Parse(input, 0, true).Threw? ==> r == Raised(Parse(input, 0, true).exception)
    ensures Parse(input, 0, true).Parsed? && !Parse(input, 0, true).value.BDictionary? ==> r == Err(NotADictionary)
    ensures Parse(input, 0, true).Parsed? && Parse(input, 0, true).value.BDictionary?
            ==> r == DecodeTorrent(Parse(input, 0, true).value.entries)
    ensures r.Raised? ==> Parse(input, 0, true).Threw?
  {
    match Parse(input, 0, true)
    case Rejected(_) => Err(InvalidTorrent)
    case Threw(x) => Raised(x)
    case Parsed(v, _) => if v.BDictionary? then DecodeTorrent(v.entries) else Err(NotADictionary)
  }
}
