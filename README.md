# Attractor core in Dafny

This project models the core of Attractor, a BitTorrent client library, and
proves properties of that model. The core has four parts:

- **The bencode codec.** `BValue.Parse` reads one value from a byte stream.
  A value is a byte string, an integer, a list, or a dictionary whose keys are
  byte strings kept in ascending raw-byte order. The parser is defined twice:
  - as functions of the input bytes and a read position (module `Bencode`);
  - as methods with the source's read loops, each proved equal to its
    function (module `Reader`).
  Each call ends in one of three outcomes:
  - a value, together with the position after it;
  - a `ParsingError`;
  - a .NET exception that the code lets escape. Two exist: a length text that
    `int.Parse` refuses, and a repeated dictionary key that
    `SortedDictionary.Add` refuses.
- **The error taxonomy** (`ParsingError`). An error is either end-of-stream or
  a format error with a message. Two errors are equal when they have the same
  kind and the same message (module `Errors`).
- **The metainfo decoder** (`Torrent.Parse`). It parses the file, requires a
  dictionary, and then checks `announce`, `info`, `name`, `piece length`,
  `pieces` and `length`/`files`, in that order. Each check has its own error
  (module `Metainfo`).
- **The tracker announce.**
  - The query string that a `TrackerRequest` renders. `ToQueryString` is a
    method that appends one parameter at a time, proved against a
    specification function.
  - The reading of the tracker's reply into a `TrackerResponse`.
  Both are in module `Tracker`.

The proofs cover the following:

- **Round trip.** The parser reads back every value whose dictionaries are
  sorted, from its canonical encoding (module `Encoding`). The encoder is a
  ghost reference definition: the code itself never writes bencode.
- **Each error of the taxonomy** is produced by the input that should produce
  it (`ParserProperties`).
- **Key order** (`KeyOrder`):
  - With the order check on, a dictionary is accepted exactly when its keys
    ascend.
  - With the check off, keys are accepted in any order and stored sorted.
  - The two settings differ only in the `UnorderedKeys` outcome.
- **Schema of the metainfo file** (`MetainfoProperties`):
  - A file is decoded exactly when it follows the schema.
  - The first check that fails decides the error.
- **Tracker** (`TrackerProperties`):
  - The query string reads back as the request's parameters, in the fixed
    order.
  - Compact peers pack and unpack six bytes each.
  - A reply with `interval` yields peers, and one without it yields the
    failure reason.
  - Reply keys may arrive in any order.

Four places where the code as written does not do what it evidently intends
are listed under "Findings". Each is modelled twice:
- as written, with a lemma that exhibits the difference;
- corrected, and the rest of the model uses this version.

The first of them, the dictionary indexer, masks the other three in the
program as written. Every key lookup yields null, so `Torrent.Parse` stops at
"Missing 'announce' key." and a tracker reply fails on `response["failure"]!`.
The inputs given for the other three show their defect once the indexer is
corrected.

Key order follows the code where the two sources differ:
- `BValue.cs` has no order check (see the note at line 186).
- The tracker passes `CheckDictionaryKeyOrder: false` (Tracker.cs:107).
- The codec's tests expect `UnorderedKeys` for `d1:zi0e1:yi0ee`.

`Parse` therefore takes a `checkOrder` flag. With the flag off it is exactly
the loop at BValue.cs:173-221. With the flag on it also requires each key to
compare strictly greater than the last key stored, and checks this before the
key's value is read. The metainfo decoder parses with the check on, which is
the default. The tracker parses with it off.

The error messages are those of `ParsingError.cs`. The older taxonomy
embedded at the end of `BValue.cs` (lines 288-366) is not followed.

## Model

| member | source | states |
|---|---|---|
| Bencode.Parse | Attractor/BValue.cs:45-62 | a value, when one is read, ends after the start position and within the input |
| Bencode.ParseString | Attractor/BValue.cs:64-97 | a string read ends after its first digit and within the input, and is a byte string |
| Bencode.ParseBigInteger | Attractor/BValue.cs:99-140 | an integer read ends after the `i` and within the input, and is an integer |
| Bencode.ParseList | Attractor/BValue.cs:142-171 | a list read ends within the input and is a list |
| Bencode.ListItems | Attractor/BValue.cs:146-163 | each turn of the list loop makes progress; a result is a list |
| Bencode.ParseDictionary | Attractor/BValue.cs:173-221 | a dictionary read ends within the input and is a dictionary |
| Bencode.DictEntries | Attractor/BValue.cs:177-213 | each turn of the dictionary loop makes progress; a result is a dictionary |
| Bencode.IndexOfFirst | Attractor/BValue.cs:69-76 | the read-until loop stops at the first occurrence of the byte, or at the end of the input |
| Bencode.WithoutTrailingNuls | Attractor/BValue.cs:130-134 | the NULs that `BigInteger.Parse` skips at the end of a number are removed, and only those: the rest is a prefix that does not end in NUL |
| Reader.ReadValue | Attractor/BValue.cs:45-62 | the dispatching method returns exactly the outcome `Parse` specifies |
| Reader.ReadString | Attractor/BValue.cs:64-97 | the buffering loop, `int.Parse` and `ReadBytes` give exactly the outcome `ParseString` specifies |
| Reader.ReadBigInteger | Attractor/BValue.cs:99-140 | the buffering loop and the canonical-form checks give exactly the outcome `ParseBigInteger` specifies |
| Reader.ReadList | Attractor/BValue.cs:142-171 | the peek loop gives exactly the outcome `ParseList` specifies |
| Reader.ReadDictionary | Attractor/BValue.cs:173-221 | the peek loop, with its key checks and the rewrite of a missing value, gives exactly the outcome `ParseDictionary` specifies |
| Errors.SameIsEquality | Attractor/ParsingError.cs:26-33 | two errors are `Equals` exactly when they are the same value: same kind and same message |
| Errors.Same | Attractor/ParsingError.cs:26-33 | `ParsingError.Equals`: same kind and same message; its meaning is stated by Errors.SameIsEquality and Errors.SameIsReflexiveAndSymmetric |
| Errors.SameIsReflexiveAndSymmetric | Attractor/ParsingError.cs:26-33 | `Equals` is reflexive and symmetric |
| Errors.UnexpectedEof | Attractor/ParsingError.cs:37 | the end-of-stream error is of the end-of-stream kind |
| Errors.FormatException | Attractor/ParsingError.cs:39-42 | a format error carries exactly the given message |
| Errors.InvalidPrefixChar | Attractor/ParsingError.cs:61-64 | the message has a fixed length and holds the offending character at a fixed place |
| Errors.UnclosedPrefix | Attractor/ParsingError.cs:66-69 | the message holds the unclosed prefix character at a fixed place |
| Errors.MissingDictionaryValues | Attractor/ParsingError.cs:95-98 | the message holds the key text, whole, at a fixed place |
| Errors.EndOfStreamIsNoFormatError | Attractor/ParsingError.cs:9 | end-of-stream is never equal to a format error |
| Errors.InvalidPrefixCharInjective | Attractor/ParsingError.cs:61-64 | two invalid-prefix errors are equal exactly when their characters are |
| Errors.UnclosedPrefixInjective | Attractor/ParsingError.cs:66-69 | two unclosed-prefix errors are equal exactly when their characters are |
| Errors.MissingDictionaryValuesInjective | Attractor/ParsingError.cs:95-98 | two missing-value errors are equal exactly when their keys are |
| Errors.FixedErrorsDistinct | Attractor/ParsingError.cs:71-93 | the six fixed format errors are pairwise distinct |
| Errors.OnlyPrefixEIsRewritten | Attractor/BValue.cs:206-211 | no other error of the taxonomy has the message of `InvalidPrefixChar('e')`, so only a value that starts with `e` is rewritten into a missing value |
| Values.BytesEqualIsEquality | Attractor/BValue.cs:233-236 | `BString.Equals` (same length, same bytes) is equality of byte strings |
| Values.BytesEqual | Attractor/BValue.cs:233-236 | `BString.Equals` as `SequenceEqual`; stated by Values.BytesEqualIsEquality |
| Values.CompareBytes | Attractor/BValue.cs:239-242 | `BString.CompareTo` as `SequenceCompareTo`: the difference of the first differing bytes, else of the lengths; stated by Values.CompareBytesSign |
| Values.Less | Attractor/BValue.cs:239-242 | the order in which `SortedDictionary` keeps its keys; stated by Values.CompareBytesSign, LessIrreflexive, LessTransitive, LessTrichotomy and PrefixSortsFirst |
| Values.CompareBytesSign | Attractor/BValue.cs:239-242 | the sign of `CompareTo` is the lexicographic byte order, and it is zero exactly when `Equals` holds |
| Values.LessIrreflexive | Attractor/BValue.cs:239-242 | no key sorts before itself |
| Values.LessTransitive | Attractor/BValue.cs:239-242 | the key order is transitive |
| Values.LessTrichotomy | Attractor/BValue.cs:239-242 | any two distinct keys are ordered one way and never both |
| Values.PrefixSortsFirst | Attractor/BValue.cs:239-242 | a proper prefix sorts before the longer key |
| Values.StrictlySortedKeysUnique | Attractor/BValue.cs:263 | a sorted dictionary holds each key at one index only |
| Values.Lookup | Attractor/BValue.cs:271 | the corrected indexer finds a value exactly when the key is stored, and the value is the one stored with it |
| Values.LookupSorted | Attractor/BValue.cs:271 | in a sorted dictionary, looking up a stored key yields that key's value |
| Values.LookupAsWrittenAlwaysNull | Attractor/BValue.cs:271 | the indexer as written yields null for every key, including a stored one |
| Values.LookupAsWritten | Attractor/BValue.cs:271 | the byte-string indexer exactly as written (the as-written half of the first finding); stated by Values.LookupAsWrittenAlwaysNull |
| Values.Get | Attractor/BValue.cs:273 | the text indexer finds a value exactly when the key's bytes are stored |
| Values.Insert | Attractor/BValue.cs:202 | `Add` grows the dictionary by one entry |
| Values.InsertSorted | Attractor/BValue.cs:202 | adding a fresh key keeps the keys strictly ascending, and the entries are the old ones plus the new one |
| Values.InsertGreatest | Attractor/BValue.cs:202 | adding a key greater than all stored keys appends it at the end |
| Values.GreaterKeyIsAbsent | Attractor/BValue.cs:202 | a key greater than the last stored key is not stored |
| Values.ValueEqualIsEquality | Attractor/BValue.cs:226-269 | the records' structural `Equals` (bytes, value, element by element, entry by entry) is equality of values |
| Values.ValueEqual | Attractor/BValue.cs:226-269 | the records' structural `Equals`, bytes by `SequenceEqual`, lists and dictionaries element by element; stated by Values.ValueEqualIsEquality |
| Bytes.Text | Attractor/BValue.cs:228-231 | `AsString` gives one character per byte, with the same code |
| Bytes.TextInjective | Attractor/BValue.cs:228-231 | distinct byte strings have distinct texts |
| Bytes.AsciiBytes | Attractor/BValue.cs:273 | the UTF-8 bytes of an ASCII key have the key as their text |
| Encoding.ParseEncoding | Attractor/BValue.cs:45-221 | the parser reads any well-formed value back from its encoding, with or without the order check, and stops right after it |
| Encoding.ParseEncodedString | Attractor/BValue.cs:64-97 | the encoding `<length>:<bytes>` reads back as those bytes |
| Encoding.ParseEncodedInteger | Attractor/BValue.cs:99-140 | `i<n>e` reads back as `n`, for every integer `n` |
| Encoding.ParseEncodedList | Attractor/BValue.cs:142-171 | an encoded list reads back as its items in order |
| Encoding.ParseEncodedDictionary | Attractor/BValue.cs:173-221 | an encoded sorted dictionary reads back as its entries |
| Encoding.EncodeStartsWithPrefix | Attractor/BValue.cs:147-153 | no encoding starts with `e`, so the loops' peek for `e` never cuts a value short |
| ParserProperties.Dispatch | Attractor/BValue.cs:45-62 | an exhausted input is end-of-stream, a byte that starts nothing is an invalid prefix, and a value is of the kind its first byte announces |
| ParserProperties.StringOfLength | Attractor/BValue.cs:87-96 | after `<n>:` exactly `n` bytes are taken; with fewer left the outcome is end-of-stream |
| ParserProperties.MissingColonIff | Attractor/BValue.cs:69-81 | `MissingColon` exactly when no `:` follows the first digit |
| ParserProperties.IntegerUnclosed | Attractor/BValue.cs:105-117 | an `i` with no `e` after it is `UnclosedPrefix('i')` |
| ParserProperties.IntegerBody | Attractor/BValue.cs:118-139 | empty, leading-zero and minus-zero bodies get their own errors, any other rejection is "Invalid integer format", and a body is accepted exactly when it is the canonical text of its value followed by NUL bytes (none after `0`), which `BigInteger.Parse` skips |
| ParserProperties.CanonicalIntegerText | Attractor/BValue.cs:118-134 | a body that passes the checks is the canonical text of the value parsed from it, followed only by NULs, and zero only as `0` |
| ParserProperties.PaddedIntTextAccepted | Attractor/BValue.cs:118-134 | the canonical text of any integer, followed by any number of NULs (none after `0`), passes the three checks and parses to that integer |
| ParserProperties.ListUnclosed | Attractor/BValue.cs:165-168 | input ending after complete items, with no `e`, is `UnclosedPrefix('l')` |
| ParserProperties.ListFirstError | Attractor/BValue.cs:155-162 | the first item that fails is the list's outcome, unchanged |
| ParserProperties.DictionaryUnclosed | Attractor/BValue.cs:215-218 | input ending after complete entries, with no `e`, is `UnclosedPrefix('d')` |
| ParserProperties.DictionaryKeyNotString | Attractor/BValue.cs:195-198 | a key that is not a byte string is `KeyIsNotString` |
| ParserProperties.DictionaryMissingValue | Attractor/BValue.cs:206-211 | a key followed directly by `e` is `MissingDictionaryValues` naming that key |
| ParserProperties.DictionaryValueError | Attractor/BValue.cs:204-212 | any other failure of a value is the dictionary's outcome, unchanged |
| ParserProperties.DictionaryUnorderedKey | Attractor.Tests/BValueTests.cs:146-155 | with the order check on, a key not strictly greater than the one before is `UnorderedKeys` |
| ParserProperties.DictionaryRepeatedKey | Attractor/BValue.cs:200-203 | a repeated key is `UnorderedKeys` with the order check on; with it off, `Add` throws once the value has been read |
| KeyOrder.ParsedWellFormed | Attractor/BValue.cs:175 | every dictionary the parser yields, at any depth, has strictly ascending keys |
| KeyOrder.CheckedAgreesWithUnchecked | Attractor/Tracker.cs:102-108 | turning the order check on changes only the `UnorderedKeys` outcome |
| KeyOrder.CheckedNeverDuplicates | Attractor/BValue.cs:202 | with the order check on, `Add` is never given a repeated key |
| KeyOrder.InsertAllSorted | Attractor/BValue.cs:202 | adding entries with distinct keys keeps the dictionary sorted and stores exactly those entries |
| KeyOrder.UncheckedAcceptsAnyOrder | Attractor/Tracker.cs:102-108 | with the order check off, encoded entries with distinct keys are accepted in any order and stored sorted, with the same entries |
| KeyOrder.CheckedAcceptsOnlyAscending | Attractor.Tests/BValueTests.cs:146-155 | with the order check on, encoded entries are accepted exactly when their keys ascend, and are otherwise `UnorderedKeys` |
| Metainfo.Decode | Attractor/Torrent.cs:16-30 | any codec error becomes "Invalid torrent file.", a value other than a dictionary is rejected, a codec exception escapes unchanged and is the only source of an escaping exception, and a dictionary gives exactly the result of the field walk `DecodeTorrent` over its entries |
| Metainfo.Chunks | Attractor/Torrent.cs:94-95 | the pieces are the consecutive 20-byte slices, in order |
| Metainfo.FileNotDictionary | Attractor/Torrent.cs:133-138 | the message names the file index |
| Metainfo.MissingFileLength | Attractor/Torrent.cs:141-146 | the message names the file index |
| Metainfo.FileLengthNotInteger | Attractor/Torrent.cs:147-152 | the message names the file index |
| Metainfo.MissingFilePath | Attractor/Torrent.cs:155-160 | the message names the file index |
| Metainfo.FilePathNotList | Attractor/Torrent.cs:161-166 | the message names the file index |
| Metainfo.SegmentNotString | Attractor/Torrent.cs:171-175 | the message names the file index and the segment index |
| Metainfo.IndexedTextParts | Attractor/Torrent.cs:136-174 | an interpolated index followed by `]` can be read back from the message in one way only |
| Metainfo.FileErrorsInjective | Attractor/Torrent.cs:133-175 | each per-file error determines the file index it names, and the segment error both indices |
| Metainfo.WrongKindErrorsDistinct | Attractor/Torrent.cs:133-175 | the wrong-kind errors of the entry, its length, its path and a segment never share a message, whatever the indices |
| Metainfo.MissingKeyErrorsDistinct | Attractor/Torrent.cs:141-160 | the missing-length and missing-path errors differ from each other and from every wrong-kind error |
| Metainfo.MapFilesLoop | Attractor/Torrent.cs:130-183 | the outer files loop returns exactly what `MapFiles` specifies |
| Metainfo.MapFile | Attractor/Torrent.cs:133-180 | one turn of the loop, with the inner path loop, returns exactly what `FileEntryAt` specifies |
| Metainfo.KindError | Attractor/Torrent.cs:185-192 | the corrected message names the key that is present with the wrong kind |
| Metainfo.PathNames | Attractor/Torrent.cs:168-178 | the inner `foreach` over the path segments; stated by MetainfoProperties.PathNamesResult and SegmentErrorNamesIndices |
| Metainfo.FileEntryAt | Attractor/Torrent.cs:133-180 | one entry of `files`, read from the entry itself as intended; stated by MetainfoProperties.FileEntryAtResult |
| Metainfo.FilesFrom | Attractor/Torrent.cs:130-181 | the outer `foreach` from a given entry on; stated by MetainfoProperties.FilesFromOk, FilesFromFold and FilesFromError |
| Metainfo.MapFiles | Attractor/Torrent.cs:130-183 | the whole `files` list; stated by MetainfoProperties.MapFilesResult and FirstFailingFile |
| Metainfo.FileKindOf | Attractor/Torrent.cs:97-192 | the choice between `length` and `files`; stated by MetainfoProperties.FileKindResult and PiecesErrorsInOrder |
| Metainfo.DecodeInfo | Attractor/Torrent.cs:52-192 | the walk over the fields of `info`; stated by MetainfoProperties.DecodeInfoResult, NameErrors, PieceLengthErrors, PiecesErrorsInOrder and EarlierFieldsDecide |
| Metainfo.DecodeTorrent | Attractor/Torrent.cs:30-194 | the walk over the top-level fields; stated by MetainfoProperties.DecodeTorrentResult and TopErrorsInOrder |
| MetainfoProperties.FlattenChunks | Attractor/Torrent.cs:94-95 | the pieces laid end to end are the `pieces` bytes |
| MetainfoProperties.PathNamesResult | Attractor/Torrent.cs:168-178 | the path loop succeeds exactly on string segments and gives their texts in order; otherwise it names the first segment that is not a string |
| MetainfoProperties.FileEntryAtResult | Attractor/Torrent.cs:133-180 | an entry is accepted exactly when it follows the schema, and gives its own length and path |
| MetainfoProperties.FilesFromOk | Attractor/Torrent.cs:130-181 | the files loop succeeds exactly when every remaining entry is accepted |
| MetainfoProperties.FilesFromFold | Attractor/Torrent.cs:130-181 | the files loop is the generic fold over the entry decoder |
| MetainfoProperties.FoldFilesValue | Attractor/Torrent.cs:130-181 | when every entry is accepted, the fold appends their values in order |
| MetainfoProperties.FilesFromError | Attractor/Torrent.cs:130-181 | on failure, the error is that of the first entry that is not accepted |
| MetainfoProperties.MapFilesResult | Attractor/Torrent.cs:130-183 | every file is mapped in order, or the error is that of the first file that fails |
| MetainfoProperties.FirstFailingFile | Attractor/Torrent.cs:130-181 | the first entry that fails decides the error of the whole list |
| MetainfoProperties.SegmentErrorNamesIndices | Attractor/Torrent.cs:169-176 | a non-string segment after string segments is reported with both indices |
| MetainfoProperties.FileKindResult | Attractor/Torrent.cs:97-192 | neither, or both, of `length`/`files` is an error; an integer `length` is one file; an empty `files` is an error; a `files` list of well-formed entries is those files in order; a key of the wrong kind is named |
| MetainfoProperties.DecodeInfoResult | Attractor/Torrent.cs:52-194 | `info` decodes exactly when it follows the schema, into its own name, piece length, pieces and file kind |
| MetainfoProperties.DecodeTorrentResult | Attractor/Torrent.cs:30-194 | the top-level dictionary decodes exactly when it follows the schema, with its own announce text and info |
| MetainfoProperties.TopErrorsInOrder | Attractor/Torrent.cs:30-50 | announce is checked first, then info, then whatever `info` reports |
| MetainfoProperties.NameErrors | Attractor/Torrent.cs:52-62 | inside `info`, the name is checked first |
| MetainfoProperties.PieceLengthErrors | Attractor/Torrent.cs:64-74 | after the name, the piece length is checked |
| MetainfoProperties.PiecesErrorsInOrder | Attractor/Torrent.cs:76-111 | next come pieces (present, a string, a multiple of 20 bytes), then the file kind |
| MetainfoProperties.EarlierFieldsDecide | Attractor/Torrent.cs:30-92 | fields after the first failing one are never examined |
| MetainfoProperties.DecodeResult | Attractor/Torrent.cs:16-28 | a torrent is decoded exactly when the codec reads a dictionary that follows the schema |
| MetainfoProperties.DecodeEncoded | Attractor/Torrent.cs:16-28 | a file that is the encoding of a sorted dictionary decodes as the field walk over that dictionary |
| MetainfoFindings.MapFilesAsWrittenRejectsAll | Attractor/Torrent.cs:133-138 | as written, every non-empty `files` list is rejected at entry 0 |
| MetainfoFindings.MapFilesAsWrittenDiffers | Attractor/Torrent.cs:130-183 | every list of well-formed entries is accepted when corrected and rejected as written |
| MetainfoFindings.SampleFileAccepted | Attractor/Torrent.cs:130-183 | `[{length: 1, path: ["a"]}]` is one file `a` of length 1 when corrected, and an error as written |
| MetainfoFindings.KindErrorAsWrittenNamesOtherKey | Attractor/Torrent.cs:187-191 | as written, the message always names the key that is not at fault |
| MetainfoFindings.MapFilesAsWritten | Attractor/Torrent.cs:131-138 | the files loop as written, testing the list instead of the entry; stated by MetainfoFindings.MapFilesAsWrittenRejectsAll and MapFilesAsWrittenDiffers |
| MetainfoFindings.KindErrorAsWritten | Attractor/Torrent.cs:185-192 | the wrong-kind ternary as written; stated by MetainfoFindings.KindErrorAsWrittenNamesOtherKey |
| Tracker.EventToken | Attractor/Tracker.cs:163-170 | an event other than Empty has a non-empty token |
| Tracker.NumberTextDigits | Attractor/Tracker.cs:156-159 | a counter is sent as a non-empty run of decimal digits |
| Tracker.ToQueryString | Attractor/Tracker.cs:143-176 | the builder method returns exactly the rendering of the request's parameters |
| Tracker.QueryString | Attractor/Tracker.cs:143-176 | the text `ToQueryString` builds, as the rendering of the parameter list; stated by Tracker.ToQueryString and TrackerProperties.QueryRoundTrip, KeysInFixedOrder and QueryValueIff |
| Tracker.Append | Attractor/Tracker.cs:150-173 | each append adds exactly one `&key=value` pair to what the builder holds |
| Tracker.CompactPeers | Attractor/Tracker.cs:117-128 | one peer per six bytes: four address bytes, then the port, most significant byte first |
| Tracker.FailureText | Attractor/Tracker.cs:139 | the failure text has one character per byte of the reason |
| Tracker.FailureTextAsWritten | Attractor/Tracker.cs:139 | the record's `ToString` as written; stated by TrackerProperties.FailureTextAsWrittenLosesReason |
| Tracker.Interpret | Attractor/Tracker.cs:110-140 | the reading of the reply dictionary; stated by TrackerProperties.PeersIff, FailureIff, NonCompactNeverAnswersPeers and InterpretSameEntries |
| Tracker.ReadResponse | Attractor/Tracker.cs:107-140 | a codec error or exception is a fault; a parsed value that is not a dictionary is the `AsT3` fault; a parsed dictionary gives exactly its interpretation, faults included; and every answer comes from a parsed dictionary |
| TrackerProperties.QueryRoundTrip | Attractor/Tracker.cs:143-176 | the query string reads back as exactly the request's parameters, in order |
| TrackerProperties.RenderSplit | Attractor/Tracker.cs:148-173 | what the builder holds splits at `&` into the `name=value` texts, in order |
| TrackerProperties.SentKeysInOrder | Attractor/Tracker.cs:150-173 | keys are appended in the fixed order, each optional one exactly when it is set |
| TrackerProperties.KeysInFixedOrder | Attractor/Tracker.cs:150-173 | the names read back are `info_hash, peer_id, [ip,] port, uploaded, downloaded, left, [event,] compact` |
| TrackerProperties.QueryValueIff | Attractor/Tracker.cs:143-176 | each parameter the request sends reads back with its value, and the others are absent |
| TrackerProperties.IpSentIff | Attractor/Tracker.cs:152-155 | `ip` is sent exactly when the request has an address, with that address's text |
| TrackerProperties.EventSentIff | Attractor/Tracker.cs:160-172 | `event` is sent exactly when the event is not Empty, with its token |
| TrackerProperties.CompactFlag | Attractor/Tracker.cs:173 | `compact=1` exactly when compact peers are requested, and `compact=0` otherwise |
| TrackerProperties.NumberTextInjective | Attractor/Tracker.cs:156-159 | a counter's text names one number only |
| TrackerProperties.EventTokenInjective | Attractor/Tracker.cs:163-170 | distinct events have distinct tokens |
| TrackerProperties.DefaultCounterTexts | Attractor/Tracker.cs:84-86 | the default port renders as `6881` and a zero counter as `0` |
| TrackerProperties.DefaultRequestCounters | Attractor/Tracker.cs:79-89 | a request with defaults sends port 6881, uploaded 0, downloaded 0 and its `left` |
| TrackerProperties.DefaultRequestFlags | Attractor/Tracker.cs:79-89 | a request with defaults sends no `ip`, no `event`, and `compact=1` |
| Tracker.NewRequest | Attractor/Tracker.cs:79-89 | a `TrackerRequest` with the defaults of the record's parameters; stated by TrackerProperties.DefaultRequestCounters and DefaultRequestFlags |
| TrackerProperties.PackPeers | Attractor/Tracker.cs:117-128 | packing gives six bytes per peer |
| TrackerProperties.PackCompactPeers | Attractor/Tracker.cs:117-128 | unpacking and then packing gives back the `peers` bytes |
| TrackerProperties.CompactPeersOfPack | Attractor/Tracker.cs:117-128 | packing and then unpacking gives back the peers, in order |
| TrackerProperties.PeersIff | Attractor/Tracker.cs:110-130 | peers come back exactly when compact was asked for and the reply has an integer `interval` that fits in 32 bits and a `peers` string of whole six-byte entries; they are those entries, in order |
| TrackerProperties.FailureIff | Attractor/Tracker.cs:137-140 | a failure comes back exactly when `interval` is absent and `failure` is a string, and it carries the reason's text |
| TrackerProperties.NonCompactNeverAnswersPeers | Attractor/Tracker.cs:131-135 | without compact peers, a reply with `interval` is never a peer list: it is the unsupported fault |
| TrackerProperties.FailureTextKeepsReason | Attractor/Tracker.cs:139 | the corrected failure text determines the reason's bytes |
| TrackerProperties.FailureTextAsWrittenLosesReason | Attractor/Tracker.cs:139 | as written, every reason gives the same text |
| TrackerProperties.InterpretSameEntries | Attractor/Tracker.cs:110-140 | two replies with the same entries, each key once, are read alike |
| TrackerProperties.ReadDictionary | Attractor/Tracker.cs:107-110 | a body that parses to a dictionary is read as the interpretation of its entries |
| TrackerProperties.ReplyKeysInAnyOrder | Attractor/Tracker.cs:102-108 | a reply whose distinct keys arrive in any order is read as the interpretation of the entries as sent |

## Left out

- Streams, `BinaryReader` and the `ArgumentNullException` checks (BValue.cs:37-43, Torrent.cs:18) are left out. The input is a byte sequence and a read position. I/O errors are not modelled.
- Bytes.Text: UTF-8 decoding (`AsString`, and the characters the reader decodes) is modelled as one character per byte. This is exact for ASCII. Invalid or multi-byte sequences are not modelled, and neither is a multi-byte character that the reader takes as a prefix.
- Bencode.ParseString: `int.Parse` is modelled as a run of digits followed by optional white space. Its `int.MaxValue` bound (an `OverflowException` for longer lengths) and the trailing NUL characters it tolerates are not modelled.
- Metainfo.DecodeInfo: the pieces are cut from the raw bytes of `pieces`. Torrent.cs:95 first decodes the bytes as UTF-8 and then chunks the characters. The two agree only when every byte is ASCII.
- Metainfo.DecodeTorrent: the announce URL is kept as its text. Building a `Uri` from it, and the `UriFormatException` that this can raise (Torrent.cs:40), are not modelled.
- Metainfo.Decode: the codec error that `Torrent.Parse` attaches as the inner exception of "Invalid torrent file." is dropped.
- Exception objects are reduced to their kind and message: inner exceptions, `AsException` and `GetHashCode` are left out (ParsingError.cs:11-19, 44-59).
- `TrackerRequest.GetAsync` is not modelled: the HTTP request, the `async` flow, the response stream and its buffering (Tracker.cs:92-108). The model reads a reply from its body bytes.
- `HttpUtility.UrlEncode` and the text of an `IPAddress` are library code and enter the model as function parameters.
- TrackerProperties.QueryRoundTrip: this and the other read-back lemmas assume that neither function produces a raw `&`.
- Tracker.CompactPeers: a `Peer` is its four address bytes and its port. `IPEndPoint` and the optional peer id (Peer.cs:5-13) are not modelled.
- Tracker.ReadResponse: the exceptions that reading a reply raises are collected in one `Fault` datatype, by the step that raises them. The .NET exception types are not distinguished.
- TrackerProperties.ReplyKeysInAnyOrder: the body only needs to begin with the encoded dictionary. Bytes after it are ignored, as the reader ignores them.
- The counters are the source's `ulong`, and the port its `ushort`, as bounded types. The interval is checked against the 32-bit range of the `(uint)` cast.

## Findings

| source | as written | input that shows it | evidently intended | confidence | as-written member | corrected member |
|---|---|---|---|---|---|---|
| Attractor/BValue.cs:271 | `TryGetValue(key, out var value) ? null : value` returns null when the key is found, and the default (null) when it is not | `d1:ai0ee` indexed by `"a"` | the stored value when the key is present, null otherwise | not executed | Values.LookupAsWrittenAlwaysNull | Values.LookupSorted |
| Attractor/Torrent.cs:133 | the dictionary test is made on `multiFileFiles` (the list itself), and lines 140 and 154 read `length`/`path` from `info` rather than from the entry | once the indexer at BValue.cs:271 is corrected (as written it masks this: every torrent fails with "Missing 'announce' key."), `files` = `[{length: 1, path: ["a"]}]` gives "The 'info.files[0]' key should have a 'dictionary' value." | test each entry `file` and read its own `length` and `path` | not executed | MetainfoFindings.MapFilesAsWrittenRejectsAll | MetainfoProperties.MapFilesResult |
| Attractor/Torrent.cs:187-191 | when `length` is absent the message names `info.length`, and when it is present the message names `info.files` | once the indexer at BValue.cs:271 is corrected (as written it masks this: every torrent fails with "Missing 'announce' key."), no `length` and `files` = `i1e` gives "The 'info.length' key should have a 'string' value." | name the key that is present with the wrong kind | not executed | MetainfoFindings.KindErrorAsWrittenNamesOtherKey | MetainfoProperties.FileKindResult |
| Attractor/Tracker.cs:139 | `AsT0.ToString()` prints the `BString` record's shape, not its bytes | once the indexer at BValue.cs:271 is corrected (as written it masks this: `response["failure"]!` is null and its `AsT0` throws `NullReferenceException`), `d7:failure4:oopse` gives "BString { Bytes = System.Byte[] }" | the reason as text (`AsString()`) | not executed | TrackerProperties.FailureTextAsWrittenLosesReason | TrackerProperties.FailureTextKeepsReason |
