/**
 * The tracker announce: the query string a `TrackerRequest` renders, and
 * the reading of the tracker's bencoded reply into a `TrackerResponse`.
 * The HTTP exchange itself is not modelled; the reply is its body bytes.
 * Percent-encoding (`HttpUtility.UrlEncode`) and the textual form of an IP
 * address are library code and enter as function parameters.
 */
module Tracker {
  import opened Bytes
  import opened Values
  import opened Bencode

  newtype u16 = x: int | 0 <= x < 0x1_0000
  newtype u32 = x: int | 0 <= x < 0x1_0000_0000
  newtype u64 = x: int | 0 <= x < 0x1_0000_0000_0000_0000

  datatype Event = Empty | Started | Completed | Stopped

  /** The announce parameters; `ip` is the address's bytes. */
  datatype TrackerRequest = TrackerRequest(
    infoHash: seq<byte>,
    peerId: seq<byte>,
    left: u64,
    ip: Option<seq<byte>>,
    port: u16,
    uploaded: u64,
    downloaded: u64,
    event: Event,
    compact: bool)

  const DEFAULT_PORT: u16 := 6881

  // The keys of the reply dictionary.
  const INTERVAL: AsciiText := "interval"
  const PEERS: AsciiText := "peers"
  const FAILURE: AsciiText := "failure"

  /** The record's constructor with only the required arguments given. */
  function NewRequest(infoHash: seq<byte>, peerId: seq<byte>, left: u64): TrackerRequest {
    TrackerRequest(infoHash, peerId, left, None, DEFAULT_PORT, 0, 0, Empty, true)
  }

  /** The `event` token of an announce that is not a regular one. */
  function EventToken(e: Event): (t: string)
    requires e != Empty
    ensures t != []
  {
    match e
    case Started => "started"
    case Completed => "completed"
    case Stopped => "stopped"
  }

  /** A number as string interpolation writes it. */
  function NumberText(n: nat): string {
    Text(DecimalText(n))
  }

  /** A counter's text is non-empty and all decimal digits. */
  lemma NumberTextDigits(n: nat)
    ensures var s := NumberText(n);
            s != [] && forall k :: 0 <= k < |s| ==> '0' <= s[k] <= '9'
  {
    var digits := DecimalText(n);
    assert forall k :: 0 <= k < |digits| ==> IsDigit(digits[k]);
  }

  // ---------------------------------------------------------------------------
  // The query string

  /** The announce parameters, by name. */
  datatype Key = InfoHash | PeerId | Ip | Port | Uploaded | Downloaded | Left | EventKey | Compact

  function KeyName(k: Key): string {
    match k
    case InfoHash => "info_hash"
    case PeerId => "peer_id"
    case Ip => "ip"
    case Port => "port"
    case Uploaded => "uploaded"
    case Downloaded => "downloaded"
    case Left => "left"
    case EventKey => "event"
    case Compact => "compact"
  }

  /** The position of each parameter in the order the builder appends them. */
  function Rank(k: Key): nat {
    match k
    case InfoHash => 0
    case PeerId => 1
    case Ip => 2
    case Port => 3
    case Uploaded => 4
    case Downloaded => 5
    case Left => 6
    case EventKey => 7
    case Compact => 8
  }

  /** Whether a request sends `k`: `ip` only with an address, `event` only for a non-Empty event. */
  predicate Sent(req: TrackerRequest, k: Key) {
    match k
    case Ip => req.ip.Some?
    case EventKey => req.event != Empty
    case _ => true
  }

  /** The text sent for a parameter: percent-encoded bytes, decimal counters, the event token, 1 or 0. */
  function ValueFor(req: TrackerRequest, k: Key, urlEncode: seq<byte> -> string, formatIp: seq<byte> -> string)
    : string
    requires Sent(req, k)
  {
    match k
    case InfoHash => urlEncode(req.infoHash)
    case PeerId => urlEncode(req.peerId)
    case Ip => formatIp(req.ip.value)
    case Port => NumberText(req.port as nat)
    case Uploaded => NumberText(req.uploaded as nat)
    case Downloaded => NumberText(req.downloaded as nat)
    case Left => NumberText(req.left as nat)
    case EventKey => EventToken(req.event)
    case Compact => if req.compact then "1" else "0"
  }

  /** The keys the builder appends, in its order. */
  function SentKeys(req: TrackerRequest): seq<Key> {
    var ids := [InfoHash] + [PeerId];
    var address := if req.ip.Some? then ids + [Ip] else ids;
    var counters := address + [Port] + [Uploaded] + [Downloaded] + [Left];
    var event := if req.event != Empty then counters + [EventKey] else counters;
    event + [Compact]
  }

  datatype Param = Param(key: Key, value: string)

  function ParamsOf(req: TrackerRequest, keys: seq<Key>,
                    urlEncode: seq<byte> -> string, formatIp: seq<byte> -> string): (ps: seq<Param>)
    requires forall i :: 0 <= i < |keys| ==> Sent(req, keys[i])
  {
    seq(|keys|, i requires 0 <= i < |keys| => Param(keys[i], ValueFor(req, keys[i], urlEncode, formatIp)))
  }

  /** What a request sends: each key it sends, with its value. */
  function Params(req: TrackerRequest, urlEncode: seq<byte> -> string, formatIp: seq<byte> -> string)
    : seq<Param>
  {
    var keys := SentKeys(req);
    assert forall i :: 0 <= i < |keys| ==> Sent(req, keys[i]);
    ParamsOf(req, keys, urlEncode, formatIp)
  }

  /** The text a builder holds once `ps` are appended: `?`, then `key=value` pairs joined by `&`. */
  function Render(ps: seq<Param>): string {
    if ps == [] then "?"
    else if |ps| == 1 then "?" + (KeyName(ps[0].key) + "=" + ps[0].value)
    else
      var last := ps[|ps| - 1];
      Render(ps[..|ps| - 1]) + ("&" + KeyName(last.key) + "=" + last.value)
  }

  function QueryString(req: TrackerRequest, urlEncode: seq<byte> -> string, formatIp: seq<byte> -> string)
    : string
  {
    Render(Params(req, urlEncode, formatIp))
  }

  /**
   * `ToQueryString`: a builder that starts with `?` and appends each
   * parameter in turn, so that it holds exactly the request's parameters.
   */
  method ToQueryString(req: TrackerRequest, urlEncode: seq<byte> -> string, formatIp: seq<byte> -> string)
    returns (query: string)
    ensures query == QueryString(req, urlEncode, formatIp)
  {
    var infoHashEncoded := urlEncode(req.infoHash);
    var peerIdEncoded := urlEncode(req.peerId);
    var sb := "?";
    sb := sb + (KeyName(InfoHash) + "=" + infoHashEncoded);
    ghost var keys: seq<Key> := [InfoHash];
    assert Holds(req, sb, keys, urlEncode, formatIp);
    sb, keys := Append(req, sb, keys, PeerId, peerIdEncoded, urlEncode, formatIp);
    if req.ip.Some? {
      sb, keys := Append(req, sb, keys, Ip, formatIp(req.ip.value), urlEncode, formatIp);
    }
    sb, keys := Append(req, sb, keys, Port, NumberText(req.port as nat), urlEncode, formatIp);
    sb, keys := Append(req, sb, keys, Uploaded, NumberText(req.uploaded as nat), urlEncode, formatIp);
    sb, keys := Append(req, sb, keys, Downloaded, NumberText(req.downloaded as nat), urlEncode, formatIp);
    sb, keys := Append(req, sb, keys, Left, NumberText(req.left as nat), urlEncode, formatIp);
    if req.event != Empty {
      sb, keys := Append(req, sb, keys, EventKey, EventToken(req.event), urlEncode, formatIp);
    }
    sb, keys := Append(req, sb, keys, Compact, if req.compact then "1" else "0", urlEncode, formatIp);
    assert keys == SentKeys(req);
    query := sb;
  }

  /** The builder holds `?` and the pairs of `keys`, which are all sent and not none. */
  ghost predicate Holds(req: TrackerRequest, sb: string, keys: seq<Key>,
                        urlEncode: seq<byte> -> string, formatIp: seq<byte> -> string) {
    && keys != []
    && (forall i :: 0 <= i < |keys| ==> Sent(req, keys[i]))
    && sb == Render(ParamsOf(req, keys, urlEncode, formatIp))
  }

  /** One `sb.Append($"&key={value}")`: the builder then holds one more pair. */
  method Append(req: TrackerRequest, sb: string, ghost keys: seq<Key>, k: Key, value: string,
                ghost urlEncode: seq<byte> -> string, ghost formatIp: seq<byte> -> string)
    returns (r: string, ghost keys': seq<Key>)
    requires Holds(req, sb, keys, urlEncode, formatIp)
    requires Sent(req, k) && value == ValueFor(req, k, urlEncode, formatIp)
    ensures keys' == keys + [k] && Holds(req, r, keys', urlEncode, formatIp)
  {
    r := sb + ("&" + KeyName(k) + "=" + value);
    keys' := keys + [k];
    var ps := ParamsOf(req, keys', urlEncode, formatIp);
    assert ps[..|ps| - 1] == ParamsOf(req, keys, urlEncode, formatIp);
  }

  // ---------------------------------------------------------------------------
  // Compact peers

  /** A peer: its IPv4 address as four bytes and its port. */
  datatype Peer = Peer(address: seq<byte>, port: u16)

  const COMPACT_PEER_SIZE := 6

  /** Six bytes per peer: four of address, then the port, most significant byte first. */
  function CompactPeers(bytes: seq<byte>): (peers: seq<Peer>)
    requires |bytes| % COMPACT_PEER_SIZE == 0
    ensures |peers| == |bytes| / COMPACT_PEER_SIZE
    ensures forall i :: 0 <= i < |peers| ==>
              && peers[i].address == bytes[COMPACT_PEER_SIZE * i..COMPACT_PEER_SIZE * i + 4]
              && peers[i].port as int
                 == bytes[COMPACT_PEER_SIZE * i + 4] as int * 256 + bytes[COMPACT_PEER_SIZE * i + 5] as int
    decreases |bytes|
  {
    if bytes == [] then []
    else
      var rest := CompactPeers(bytes[COMPACT_PEER_SIZE..]);
      var peers := [Peer(bytes[..4], (bytes[4] as int * 256 + bytes[5] as int) as u16)] + rest;
      assert forall i :: 1 <= i < |peers| ==>
               && peers[i].address == bytes[COMPACT_PEER_SIZE * i..COMPACT_PEER_SIZE * i + 4]
               && peers[i].port as int
                  == bytes[COMPACT_PEER_SIZE * i + 4] as int * 256 + bytes[COMPACT_PEER_SIZE * i + 5] as int
      by {
        forall i | 1 <= i < |peers|
          ensures peers[i].address == bytes[COMPACT_PEER_SIZE * i..COMPACT_PEER_SIZE * i + 4]
          ensures peers[i].port as int
                  == bytes[COMPACT_PEER_SIZE * i + 4] as int * 256 + bytes[COMPACT_PEER_SIZE * i + 5] as int
        {
          var k := COMPACT_PEER_SIZE * (i - 1);
          assert peers[i] == rest[i - 1];
          assert bytes[COMPACT_PEER_SIZE..][k..k + 4] == bytes[COMPACT_PEER_SIZE * i..COMPACT_PEER_SIZE * i + 4];
          assert bytes[COMPACT_PEER_SIZE..][k + 4] == bytes[COMPACT_PEER_SIZE * i + 4];
          assert bytes[COMPACT_PEER_SIZE..][k + 5] == bytes[COMPACT_PEER_SIZE * i + 5];
        }
      }
      peers
  }

  // ---------------------------------------------------------------------------
  // The reply

  datatype TrackerResponse =
    | ResponseOk(interval: u32, peers: seq<Peer>)
    | ResponseErr(failure: string)

  /** The exceptions reading a reply can raise, by the step that raises them. */
  datatype Fault =
    | NotParsed            // `AsT0` on a parsing error
    | CodecThrew(exception: Unhandled)
    | NotADictionary       // `AsT3` on another kind of value
    | IntervalNotInteger   // `AsT1`
    | PeersMissing         // `!` on a missing `peers`
    | PeersNotString       // `AsT0`
    | NonCompactUnsupported
    | PeersTruncated       // the last chunk is shorter than six bytes
    | IntervalOutOfRange   // the `(uint)` conversion
    | FailureMissing       // `!` on a missing `failure`
    | FailureNotString     // `AsT0`

  datatype Reply = Answered(response: TrackerResponse) | Faulted(fault: Fault)

  /** The failure reason's text (the reply's bytes read as a string). */
  function FailureText(reason: seq<byte>): (s: string)
    ensures |s| == |reason|
  {
    Text(reason)
  }

  /**
   * The failure text as written: `ToString()` of the byte-string record,
   * which prints the record's shape and not the bytes it holds.
   */
  function FailureTextAsWritten(reason: seq<byte>): string {
    "BString { Bytes = System.Byte[] }"
  }

  /** The decoded reply dictionary: `interval` chooses between a peer list and a failure reason. */
  function Interpret(response: seq<(seq<byte>, BValue)>, compact: bool): (r: Reply)
  {
    var interval := Get(response, INTERVAL);
    if interval.Some? then
      if !interval.value.BInteger? then Faulted(IntervalNotInteger)
      else
        var peers := Get(response, PEERS);
        if peers.None? then Faulted(PeersMissing)
        else if !peers.value.BString? then Faulted(PeersNotString)
        else if !compact then Faulted(NonCompactUnsupported)
        else if |peers.value.bytes| % COMPACT_PEER_SIZE != 0 then Faulted(PeersTruncated)
        else if !(0 <= interval.value.n < 0x1_0000_0000) then Faulted(IntervalOutOfRange)
        else Answered(ResponseOk(interval.value.n as u32, CompactPeers(peers.value.bytes)))
    else
      var failure := Get(response, FAILURE);
      if failure.None? then Faulted(FailureMissing)
      else if !failure.value.BString? then Faulted(FailureNotString)
      else Answered(ResponseErr(FailureText(failure.value.bytes)))
  }

  /** The reply body, decoded without the key-order check, then interpreted. */
  function ReadResponse(body: seq<byte>, compact: bool): (r: Reply)
    ensures Parse(body, 0, false).Rejected? ==> r == Faulted(NotParsed)
    ensures Parse(body, 0, false).Threw? ==> r == Faulted(CodecThrew(Parse(body, 0, false).exception))
    ensures Parse(body, 0, false).Parsed? && !Parse(body, 0, false).value.BDictionary?
            ==> r == Faulted(NotADictionary)
    ensures Parse(body, 0, false).Parsed? && Parse(body, 0, false).value.BDictionary?
            ==> r == Interpret(Parse(body, 0, false).value.entries, compact)
    ensures r.Answered? ==>
              var p := Parse(body, 0, false);
              p.Parsed? && p.value.BDictionary? && r == Interpret(p.value.entries, compact)
  {
    match Parse(body, 0, false)
    case Rejected(_) => Faulted(NotParsed)
    case Threw(x) => Faulted(CodecThrew(x))
    case Parsed(v, _) => if v.BDictionary? then Interpret(v.entries, compact) else Faulted(NotADictionary)
  }
}
