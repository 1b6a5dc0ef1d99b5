/**
 * What the announce promises: the query string reads back as the request's
 * parameters in the fixed order, optional ones exactly when set; compact
 * peers pack and unpack six bytes each; a reply with `interval` gives peers,
 * one without gives the failure reason; the reply's keys may come in any order.
 */
module TrackerProperties {
  import opened Bytes
  import opened Values
  import opened Bencode
  import opened Encoding
  import opened KeyOrder
  import opened Tracker

  // ---------------------------------------------------------------------------
  // Reading a query string back

  /** The first position of `c` in `s`, or `|s|` when there is none. */
  function Find(s: string, c: char): (i: nat)
    ensures i <= |s| && (i < |s| ==> s[i] == c)
    ensures forall k :: 0 <= k < i ==> s[k] != c
  {
    if s == [] || s[0] == c then 0
    else
      var i := 1 + Find(s[1..], c);
      assert forall k :: 1 <= k < i ==> s[k] == s[1..][k - 1];
      i
  }

  /** The pieces of `s` between occurrences of `c`. */
  function SplitOn(s: string, c: char): (parts: seq<string>)
    ensures parts != []
    decreases |s|
  {
    var i := Find(s, c);
    if i == |s| then [s] else [s[..i]] + SplitOn(s[i + 1..], c)
  }

  /** `name=value`, split at the first `=`. */
  function RawPair(s: string): (string, string) {
    var i := Find(s, '=');
    if i == |s| then (s, "") else (s[..i], s[i + 1..])
  }

  /** A query string read back into its name/value pairs. */
  function ParseQuery(q: string): Option<seq<(string, string)>> {
    if q != [] && q[0] == '?' then
      var parts := SplitOn(q[1..], '&');
      Some(seq(|parts|, i requires 0 <= i < |parts| => RawPair(parts[i])))
    else None
  }

  /** The value of the first pair named `name`. */
  function ValueOf(pairs: seq<(string, string)>, name: string): Option<string> {
    if pairs == [] then None
    else if pairs[0].0 == name then Some(pairs[0].1)
    else ValueOf(pairs[1..], name)
  }

  /** The value a query string gives the parameter `k`, if it has one. */
  function QueryValue(q: string, k: Key): Option<string> {
    match ParseQuery(q)
    case None => None
    case Some(pairs) => ValueOf(pairs, KeyName(k))
  }

  /** Parameters as the name/value pairs a reader sees. */
  function Named(ps: seq<Param>): (pairs: seq<(string, string)>)
    ensures |pairs| == |ps|
  {
    seq(|ps|, i requires 0 <= i < |ps| => (KeyName(ps[i].key), ps[i].value))
  }

  function PairText(p: Param): string {
    KeyName(p.key) + "=" + p.value
  }

  function PairTexts(ps: seq<Param>): (texts: seq<string>)
    ensures |texts| == |ps| && forall i :: 0 <= i < |ps| ==> texts[i] == PairText(ps[i])
  {
    if ps == [] then [] else PairTexts(ps[..|ps| - 1]) + [PairText(ps[|ps| - 1])]
  }

  lemma KeyNameInjective(a: Key, b: Key)
    requires KeyName(a) == KeyName(b)
    ensures a == b
  {
  }

  lemma KeyNameClean(k: Key)
    ensures '&' !in KeyName(k) && '=' !in KeyName(k)
  {
  }

  lemma {:induction false} FindAbsent(a: string, c: char)
    requires c !in a
    ensures Find(a, c) == |a|
  {
    if a != [] {
      FindAbsent(a[1..], c);
    }
  }

  lemma {:induction false} FindAfter(a: string, c: char, b: string)
    requires c !in a
    ensures Find(a + [c] + b, c) == |a|
  {
    if a != [] {
      FindAfter(a[1..], c, b);
      assert (a + [c] + b)[1..] == a[1..] + [c] + b;
    }
  }

  lemma {:induction false} FindInPrefix(a: string, c: char, b: string)
    requires Find(a, c) < |a|
    ensures Find(a + b, c) == Find(a, c)
  {
    if a[0] != c {
      assert (a + b)[1..] == a[1..] + b;
      FindInPrefix(a[1..], c, b);
    }
  }

  /** Text without `&`, then `&`, then more such text, splits into the two. */
  lemma SplitTwo(a: string, b: string)
    requires '&' !in a && '&' !in b
    ensures SplitOn(a + ['&'] + b, '&') == [a, b]
  {
    var s := a + ['&'] + b;
    FindAfter(a, '&', b);
    assert s[..|a|] == a && s[|a| + 1..] == b;
    FindAbsent(b, '&');
  }

  /** When `a` holds an `&`, appending to `a` keeps the first piece and splits the rest of `a` the same way. */
  lemma SplitFirst(a: string, b: string)
    requires Find(a, '&') < |a|
    ensures var i := Find(a, '&');
            SplitOn(a + b, '&') == [a[..i]] + SplitOn(a[i + 1..] + b, '&')
  {
    var i := Find(a, '&');
    FindInPrefix(a, '&', b);
    assert (a + b)[..i] == a[..i];
    assert (a + b)[i + 1..] == a[i + 1..] + b;
  }

  /** Splitting text that ends in `&` and a last piece gives the pieces before it, then that piece. */
  lemma {:induction false} SplitSnoc(a: string, b: string)
    requires '&' !in b
    ensures SplitOn(a + (['&'] + b), '&') == SplitOn(a, '&') + [b]
    decreases |a|
  {
    var i := Find(a, '&');
    if i == |a| {
      FindAbsent(a, '&');
      SplitTwo(a, b);
      assert a + (['&'] + b) == a + ['&'] + b;
    } else {
      SplitFirst(a, ['&'] + b);
      SplitSnoc(a[i + 1..], b);
      var rest := SplitOn(a[i + 1..], '&');
      assert [a[..i]] + (rest + [b]) == [a[..i]] + rest + [b];
    }
  }

  lemma PairTextParts(p: Param)
    requires '&' !in p.value
    ensures '&' !in PairText(p)
    ensures RawPair(PairText(p)) == (KeyName(p.key), p.value)
  {
    KeyNameClean(p.key);
    var s := PairText(p);
    assert s == KeyName(p.key) + ['='] + p.value;
    FindAfter(KeyName(p.key), '=', p.value);
    assert s[..|KeyName(p.key)|] == KeyName(p.key);
    assert s[|KeyName(p.key)| + 1..] == p.value;
  }

  lemma RenderOne(ps: seq<Param>)
    requires |ps| == 1
    ensures |Render(ps)| >= 1 && Render(ps)[0] == '?' && Render(ps)[1..] == PairText(ps[0])
  {
  }

  lemma RenderMore(ps: seq<Param>)
    requires |ps| >= 2 && |Render(ps[..|ps| - 1])| >= 1
    ensures var r := Render(ps[..|ps| - 1]);
            && Render(ps)[..|r|] == r
            && Render(ps)[1..] == r[1..] + (['&'] + PairText(ps[|ps| - 1]))
  {
    var last := ps[|ps| - 1];
    var r := Render(ps[..|ps| - 1]);
    var t := ['&'] + PairText(last);
    assert "&" + KeyName(last.key) + "=" + last.value == t;
    assert Render(ps) == r + t;
    AppendTail(r, t);
  }

  lemma AppendTail(r: string, t: string)
    requires |r| >= 1
    ensures (r + t)[..|r|] == r && (r + t)[1..] == r[1..] + t
  {
  }

  /** What the builder holds splits at `&` into the `name=value` texts, in order. */
  lemma {:induction false} RenderSplit(ps: seq<Param>)
    requires ps != [] && forall i :: 0 <= i < |ps| ==> '&' !in ps[i].value
    ensures |Render(ps)| >= 1 && Render(ps)[0] == '?'
    ensures SplitOn(Render(ps)[1..], '&') == PairTexts(ps)
  {
    var last := ps[|ps| - 1];
    PairTextParts(last);
    if |ps| == 1 {
      RenderOne(ps);
      FindAbsent(PairText(last), '&');
      assert ps[..0] == [];
    } else {
      var init := ps[..|ps| - 1];
      RenderSplit(init);
      RenderMore(ps);
      SplitSnoc(Render(init)[1..], PairText(last));
    }
  }

  /** Percent-encoded text and the text of an IP address never hold a raw `&`. */
  ghost predicate Escaped(urlEncode: seq<byte> -> string, formatIp: seq<byte> -> string) {
    && (forall b :: '&' !in urlEncode(b))
    && (forall b :: '&' !in formatIp(b))
  }

  lemma ValueClean(req: TrackerRequest, k: Key, urlEncode: seq<byte> -> string, formatIp: seq<byte> -> string)
    requires Escaped(urlEncode, formatIp) && Sent(req, k)
    ensures '&' !in ValueFor(req, k, urlEncode, formatIp)
  {
    var n: nat := match k
      case Port => req.port as nat
      case Uploaded => req.uploaded as nat
      case Downloaded => req.downloaded as nat
      case Left => req.left as nat
      case _ => 0;
    if k in {Port, Uploaded, Downloaded, Left} {
      NumberTextDigits(n);
      var v := ValueFor(req, k, urlEncode, formatIp);
      assert forall i :: 0 <= i < |v| ==> v[i] != '&';
    }
  }

  /** No value the request sends holds an `&`. */
  lemma ParamsClean(req: TrackerRequest, urlEncode: seq<byte> -> string, formatIp: seq<byte> -> string)
    requires Escaped(urlEncode, formatIp)
    ensures var ps := Params(req, urlEncode, formatIp);
            forall i :: 0 <= i < |ps| ==> '&' !in ps[i].value
  {
    var ps := Params(req, urlEncode, formatIp);
    forall i | 0 <= i < |ps| ensures '&' !in ps[i].value {
      ValueClean(req, ps[i].key, urlEncode, formatIp);
    }
  }

  /** Each `name=value` text reads back as its name and value. */
  lemma PairTextsRead(ps: seq<Param>)
    requires forall i :: 0 <= i < |ps| ==> '&' !in ps[i].value
    ensures var texts := PairTexts(ps);
            seq(|texts|, i requires 0 <= i < |texts| => RawPair(texts[i])) == Named(ps)
  {
    forall i | 0 <= i < |ps| ensures RawPair(PairText(ps[i])) == Named(ps)[i] {
      PairTextParts(ps[i]);
    }
  }

  /** The query string reads back as exactly the request's parameters, in order. */
  lemma QueryRoundTrip(req: TrackerRequest, urlEncode: seq<byte> -> string, formatIp: seq<byte> -> string)
    requires Escaped(urlEncode, formatIp)
    ensures ParseQuery(QueryString(req, urlEncode, formatIp)) == Some(Named(Params(req, urlEncode, formatIp)))
  {
    var ps := Params(req, urlEncode, formatIp);
    ParamsClean(req, urlEncode, formatIp);
    RenderSplit(ps);
    PairTextsRead(ps);
  }

  // ---------------------------------------------------------------------------
  // What the query string says

  /** The value of the first pair named `name` is that of the first pair with it. */
  lemma {:induction false} ValueAt(pairs: seq<(string, string)>, name: string, i: nat)
    requires i < |pairs| && pairs[i].0 == name && forall j :: 0 <= j < i ==> pairs[j].0 != name
    ensures ValueOf(pairs, name) == Some(pairs[i].1)
  {
    if i > 0 {
      assert pairs[0].0 != name;
      ValueAt(pairs[1..], name, i - 1);
    }
  }

  lemma {:induction false} ValueAbsent(pairs: seq<(string, string)>, name: string)
    requires forall j :: 0 <= j < |pairs| ==> pairs[j].0 != name
    ensures ValueOf(pairs, name) == None
  {
    if pairs != [] {
      ValueAbsent(pairs[1..], name);
    }
  }

  /** The builder's keys come in the fixed order, each optional one exactly when it is set. */
  lemma SentKeysInOrder(req: TrackerRequest)
    ensures var keys := SentKeys(req);
            && (forall i, j :: 0 <= i < j < |keys| ==> Rank(keys[i]) < Rank(keys[j]))
            && (forall k :: k in keys <==> Sent(req, k))
  {
  }

  /**
   * The names read back from the query string are the sent keys, in the
   * fixed order, with the optional ones exactly when set.
   */
  lemma KeysInFixedOrder(req: TrackerRequest, urlEncode: seq<byte> -> string, formatIp: seq<byte> -> string)
    requires Escaped(urlEncode, formatIp)
    ensures var pairs := ParseQuery(QueryString(req, urlEncode, formatIp));
            && pairs.Some? && |pairs.value| == |SentKeys(req)|
            && (forall i :: 0 <= i < |pairs.value| ==> pairs.value[i].0 == KeyName(SentKeys(req)[i]))
            && (forall i, j :: 0 <= i < j < |pairs.value| ==> Rank(SentKeys(req)[i]) < Rank(SentKeys(req)[j]))
            && (forall k :: (exists i :: 0 <= i < |pairs.value| && pairs.value[i].0 == KeyName(k)) <==> Sent(req, k))
  {
    QueryRoundTrip(req, urlEncode, formatIp);
    SentKeysInOrder(req);
    var keys := SentKeys(req);
    var pairs := Named(Params(req, urlEncode, formatIp));
    forall k ensures (exists i :: 0 <= i < |pairs| && pairs[i].0 == KeyName(k)) <==> Sent(req, k) {
      if exists i :: 0 <= i < |pairs| && pairs[i].0 == KeyName(k) {
        var i :| 0 <= i < |pairs| && pairs[i].0 == KeyName(k);
        KeyNameInjective(keys[i], k);
      }
      if Sent(req, k) {
        var i :| 0 <= i < |keys| && keys[i] == k;
        assert pairs[i].0 == KeyName(k);
      }
    }
  }

  /** Each parameter the request sends reads back with its value; the others are absent. */
  lemma QueryValueIff(req: TrackerRequest, k: Key, urlEncode: seq<byte> -> string, formatIp: seq<byte> -> string)
    requires Escaped(urlEncode, formatIp)
    ensures QueryValue(QueryString(req, urlEncode, formatIp), k).Some? <==> Sent(req, k)
    ensures Sent(req, k) ==> QueryValue(QueryString(req, urlEncode, formatIp), k) == Some(ValueFor(req, k, urlEncode, formatIp))
  {
    QueryRoundTrip(req, urlEncode, formatIp);
    SentKeysInOrder(req);
    var keys := SentKeys(req);
    var pairs := Named(Params(req, urlEncode, formatIp));
    if Sent(req, k) {
      var i :| 0 <= i < |keys| && keys[i] == k;
      forall j | 0 <= j < i ensures pairs[j].0 != KeyName(k) {
        if pairs[j].0 == KeyName(k) {
          KeyNameInjective(keys[j], k);
        }
      }
      ValueAt(pairs, KeyName(k), i);
    } else {
      forall j | 0 <= j < |pairs| ensures pairs[j].0 != KeyName(k) {
        if pairs[j].0 == KeyName(k) {
          KeyNameInjective(keys[j], k);
        }
      }
      ValueAbsent(pairs, KeyName(k));
    }
  }

  /** `ip=` appears exactly when the request has an address, with the address's text. */
  lemma IpSentIff(req: TrackerRequest, urlEncode: seq<byte> -> string, formatIp: seq<byte> -> string)
    requires Escaped(urlEncode, formatIp)
    ensures QueryValue(QueryString(req, urlEncode, formatIp), Ip).Some? <==> req.ip.Some?
    ensures req.ip.Some? ==> QueryValue(QueryString(req, urlEncode, formatIp), Ip) == Some(formatIp(req.ip.value))
  {
    QueryValueIff(req, Ip, urlEncode, formatIp);
  }

  /** `event=` appears exactly when the event is not Empty, with that event's token. */
  lemma EventSentIff(req: TrackerRequest, urlEncode: seq<byte> -> string, formatIp: seq<byte> -> string)
    requires Escaped(urlEncode, formatIp)
    ensures QueryValue(QueryString(req, urlEncode, formatIp), EventKey).Some? <==> req.event != Empty
    ensures req.event == Started ==> QueryValue(QueryString(req, urlEncode, formatIp), EventKey) == Some("started")
    ensures req.event == Completed ==>
              QueryValue(QueryString(req, urlEncode, formatIp), EventKey) == Some("completed")
    ensures req.event == Stopped ==> QueryValue(QueryString(req, urlEncode, formatIp), EventKey) == Some("stopped")
  {
    QueryValueIff(req, EventKey, urlEncode, formatIp);
  }

  /** `compact=1` exactly when compact peers are asked for, `compact=0` otherwise. */
  lemma CompactFlag(req: TrackerRequest, urlEncode: seq<byte> -> string, formatIp: seq<byte> -> string)
    requires Escaped(urlEncode, formatIp)
    ensures QueryValue(QueryString(req, urlEncode, formatIp), Compact) == Some("1") <==> req.compact
    ensures QueryValue(QueryString(req, urlEncode, formatIp), Compact) == Some("0") <==> !req.compact
  {
    QueryValueIff(req, Compact, urlEncode, formatIp);
  }

  /** A decimal counter names one number only. */
  lemma NumberTextInjective(m: nat, n: nat)
    requires NumberText(m) == NumberText(n)
    ensures m == n
  {
    TextInjective(DecimalText(m), DecimalText(n));
    DecimalTextInjective(m, n);
  }

  /** Distinct events have distinct tokens. */
  lemma EventTokenInjective(d: Event, e: Event)
    requires d != Empty && e != Empty && EventToken(d) == EventToken(e)
    ensures d == e
  {
  }

  /** The decimal digits of the default port. */
  lemma DefaultPortDigits()
    ensures DecimalText(DEFAULT_PORT as nat) == [54, 56, 56, 49]
  {
    assert DecimalText(6) == [54];
    assert DecimalText(68) == [54] + [56];
    assert DecimalText(688) == [54, 56] + [56];
    assert DecimalText(6881) == [54, 56, 56] + [49];
  }

  /** The decimal texts of the default port and of zero. */
  lemma DefaultCounterTexts()
    ensures NumberText(DEFAULT_PORT as nat) == "6881" && NumberText(0) == "0"
  {
    DefaultPortDigits();
    var port := Text([54, 56, 56, 49]);
    assert port[0] == '6' && port[1] == '8' && port[2] == '8' && port[3] == '1';
    assert DecimalText(0) == [48];
    var zero := Text([48]);
    assert zero[0] == '0';
  }

  /** A request built with the defaults sends port 6881, nothing transferred, and what is left. */
  lemma DefaultRequestCounters(infoHash: seq<byte>, peerId: seq<byte>, left: u64,
                               urlEncode: seq<byte> -> string, formatIp: seq<byte> -> string)
    requires Escaped(urlEncode, formatIp)
    ensures var q := QueryString(NewRequest(infoHash, peerId, left), urlEncode, formatIp);
            && QueryValue(q, Port) == Some("6881")
            && QueryValue(q, Uploaded) == Some("0")
            && QueryValue(q, Downloaded) == Some("0")
            && QueryValue(q, Left) == Some(NumberText(left as nat))
  {
    var req := NewRequest(infoHash, peerId, left);
    QueryValueIff(req, Port, urlEncode, formatIp);
    QueryValueIff(req, Uploaded, urlEncode, formatIp);
    QueryValueIff(req, Downloaded, urlEncode, formatIp);
    QueryValueIff(req, Left, urlEncode, formatIp);
    DefaultCounterTexts();
  }

  /** A request built with the defaults sends no address, no event, and asks for compact peers. */
  lemma DefaultRequestFlags(infoHash: seq<byte>, peerId: seq<byte>, left: u64,
                            urlEncode: seq<byte> -> string, formatIp: seq<byte> -> string)
    requires Escaped(urlEncode, formatIp)
    ensures var q := QueryString(NewRequest(infoHash, peerId, left), urlEncode, formatIp);
            && QueryValue(q, Ip) == None
            && QueryValue(q, EventKey) == None
            && QueryValue(q, Compact) == Some("1")
  {
    var req := NewRequest(infoHash, peerId, left);
    QueryValueIff(req, Ip, urlEncode, formatIp);
    QueryValueIff(req, EventKey, urlEncode, formatIp);
    QueryValueIff(req, Compact, urlEncode, formatIp);
  }

  // ---------------------------------------------------------------------------
  // Compact peers

  /** The six bytes of each peer laid end to end. */
  function PackPeers(peers: seq<Peer>): (bytes: seq<byte>)
    requires forall i :: 0 <= i < |peers| ==> |peers[i].address| == 4
    ensures |bytes| == COMPACT_PEER_SIZE * |peers|
  {
    if peers == [] then []
    else
      peers[0].address + [(peers[0].port as int / 256) as byte, (peers[0].port as int % 256) as byte]
      + PackPeers(peers[1..])
  }

  /** Unpacking then packing gives back the `peers` bytes. */
  lemma {:induction false} PackCompactPeers(bytes: seq<byte>)
    requires |bytes| % COMPACT_PEER_SIZE == 0
    ensures PackPeers(CompactPeers(bytes)) == bytes
    decreases |bytes|
  {
    if bytes != [] {
      var rest := bytes[COMPACT_PEER_SIZE..];
      PackCompactPeers(rest);
      var peers := CompactPeers(bytes);
      assert peers[1..] == CompactPeers(rest);
      assert bytes == bytes[..4] + [bytes[4], bytes[5]] + rest;
    }
  }

  /** The first six bytes make the first peer; the rest make the others. */
  lemma CompactPeersFirst(bytes: seq<byte>)
    requires |bytes| >= COMPACT_PEER_SIZE && |bytes| % COMPACT_PEER_SIZE == 0
    ensures CompactPeers(bytes)
         == [Peer(bytes[..4], (bytes[4] as int * 256 + bytes[5] as int) as u16)] + CompactPeers(bytes[COMPACT_PEER_SIZE..])
  {
  }

  /** A port's two bytes, most significant first, give the port back. */
  lemma PortBytes(port: u16)
    ensures ((port as int / 256) as byte) as int * 256 + ((port as int % 256) as byte) as int == port as int
  {
  }

  /** Packing then unpacking gives back the peers, in order. */
  lemma {:induction false} CompactPeersOfPack(peers: seq<Peer>)
    requires forall i :: 0 <= i < |peers| ==> |peers[i].address| == 4
    ensures CompactPeers(PackPeers(peers)) == peers
  {
    if peers != [] {
      var p := peers[0];
      var rest := PackPeers(peers[1..]);
      var bytes := p.address + [(p.port as int / 256) as byte, (p.port as int % 256) as byte] + rest;
      assert PackPeers(peers) == bytes;
      assert bytes[..4] == p.address && bytes[COMPACT_PEER_SIZE..] == rest;
      assert bytes[4] == (p.port as int / 256) as byte && bytes[5] == (p.port as int % 256) as byte;
      CompactPeersFirst(bytes);
      PortBytes(p.port);
      CompactPeersOfPack(peers[1..]);
    }
  }

  // ---------------------------------------------------------------------------
  // The reply

  /**
   * A peer list comes back exactly when compact peers were asked for and
   * the reply has an integer `interval` that fits 32 bits and a `peers`
   * string of whole six-byte entries; the peers are those entries in order.
   */
  lemma PeersIff(response: seq<(seq<byte>, BValue)>, compact: bool)
    ensures var r := Interpret(response, compact);
            r.Answered? && r.response.ResponseOk? <==>
              && compact
              && HasInteger(response, INTERVAL) && 0 <= Get(response, INTERVAL).value.n < 0x1_0000_0000
              && HasString(response, PEERS) && |Get(response, PEERS).value.bytes| % COMPACT_PEER_SIZE == 0
    ensures var r := Interpret(response, compact);
            r.Answered? && r.response.ResponseOk? ==>
              && r.response.interval as int == Get(response, INTERVAL).value.n
              && |r.response.peers| == |Get(response, PEERS).value.bytes| / COMPACT_PEER_SIZE
              && PackPeers(r.response.peers) == Get(response, PEERS).value.bytes
  {
    if HasString(response, PEERS) && |Get(response, PEERS).value.bytes| % COMPACT_PEER_SIZE == 0 {
      PackCompactPeers(Get(response, PEERS).value.bytes);
    }
  }

  /** A failure comes back exactly when there is no `interval` and `failure` is a string. */
  lemma FailureIff(response: seq<(seq<byte>, BValue)>, compact: bool)
    ensures var r := Interpret(response, compact);
            r.Answered? && r.response.ResponseErr? <==>
              Get(response, INTERVAL).None? && HasString(response, FAILURE)
    ensures var r := Interpret(response, compact);
            r.Answered? && r.response.ResponseErr? ==>
              r.response.failure == FailureText(Get(response, FAILURE).value.bytes)
  {
  }

  /** Without compact peers a reply with `interval` is never a peer list: it is unsupported. */
  lemma NonCompactNeverAnswersPeers(response: seq<(seq<byte>, BValue)>)
    ensures !(Interpret(response, false).Answered? && Interpret(response, false).response.ResponseOk?)
    ensures HasInteger(response, INTERVAL) && HasString(response, PEERS) ==>
              Interpret(response, false) == Faulted(NonCompactUnsupported)
  {
  }

  /** The failure text keeps the reason: two replies with the same text had the same reason. */
  lemma FailureTextKeepsReason(a: seq<byte>, b: seq<byte>)
    requires FailureText(a) == FailureText(b)
    ensures a == b
  {
    TextInjective(a, b);
  }

  /** As written, every failure reason renders as the same text, so the reason is lost. */
  lemma FailureTextAsWrittenLosesReason(a: seq<byte>, b: seq<byte>)
    ensures FailureTextAsWritten(a) == FailureTextAsWritten(b)
    ensures FailureTextAsWritten([]) == FailureTextAsWritten([65]) && FailureText([]) != FailureText([65])
  {
  }

  // ---------------------------------------------------------------------------
  // Key order in the reply

  /** A key found in `a` is found in `b` with the same value when `a`'s entries are among `b`'s. */
  lemma LookupIncluded(a: seq<(seq<byte>, BValue)>, b: seq<(seq<byte>, BValue)>, key: seq<byte>)
    requires DistinctKeys(b)
    requires forall e :: e in a ==> e in b
    ensures Lookup(a, key).Some? ==> Lookup(b, key) == Lookup(a, key)
  {
    if Lookup(a, key).Some? {
      var i :| 0 <= i < |a| && a[i] == (key, Lookup(a, key).value);
      assert a[i] in b;
      var k :| 0 <= k < |b| && b[k] == a[i];
      assert HasKey(b, key);
      var j :| 0 <= j < |b| && b[j] == (key, Lookup(b, key).value);
      assert j == k;
    }
  }

  /** With distinct keys, two dictionaries with the same entries look every key up alike. */
  lemma LookupSameEntries(a: seq<(seq<byte>, BValue)>, b: seq<(seq<byte>, BValue)>, key: seq<byte>)
    requires DistinctKeys(a) && DistinctKeys(b)
    requires forall e :: e in a <==> e in b
    ensures Lookup(a, key) == Lookup(b, key)
  {
    LookupIncluded(a, b, key);
    LookupIncluded(b, a, key);
  }

  lemma GetSameEntries(a: seq<(seq<byte>, BValue)>, b: seq<(seq<byte>, BValue)>, key: AsciiText)
    requires DistinctKeys(a) && DistinctKeys(b)
    requires forall e :: e in a <==> e in b
    ensures Get(a, key) == Get(b, key)
  {
    LookupSameEntries(a, b, AsciiBytes(key));
  }

  /** The interpretation reads only `interval`, `peers` and `failure`. */
  lemma InterpretSameLookups(a: seq<(seq<byte>, BValue)>, b: seq<(seq<byte>, BValue)>, compact: bool)
    requires Get(a, INTERVAL) == Get(b, INTERVAL)
    requires Get(a, PEERS) == Get(b, PEERS)
    requires Get(a, FAILURE) == Get(b, FAILURE)
    ensures Interpret(a, compact) == Interpret(b, compact)
  {
  }

  /** Two replies with the same entries, each key once, are interpreted alike. */
  lemma InterpretSameEntries(a: seq<(seq<byte>, BValue)>, b: seq<(seq<byte>, BValue)>, compact: bool)
    requires DistinctKeys(a) && DistinctKeys(b)
    requires forall e :: e in a <==> e in b
    ensures Interpret(a, compact) == Interpret(b, compact)
  {
    GetSameEntries(a, b, INTERVAL);
    GetSameEntries(a, b, PEERS);
    GetSameEntries(a, b, FAILURE);
    InterpretSameLookups(a, b, compact);
  }

  lemma SortedKeysDistinct(entries: seq<(seq<byte>, BValue)>)
    requires StrictlySorted(entries)
    ensures DistinctKeys(entries)
  {
    forall i, j | 0 <= i < j < |entries| ensures entries[i].0 != entries[j].0 {
      if entries[i].0 == entries[j].0 {
        StrictlySortedKeysUnique(entries, i, j);
      }
    }
  }

  /** A body that parses to a dictionary is read as the interpretation of its entries. */
  lemma ReadDictionary(body: seq<byte>, compact: bool)
    requires Parse(body, 0, false).Parsed? && Parse(body, 0, false).value.BDictionary?
    ensures ReadResponse(body, compact) == Interpret(Parse(body, 0, false).value.entries, compact)
  {
  }

  /** `body` starts with the encoding of a dictionary of `entries`, each key once, in any order. */
  ghost predicate EncodedReply(entries: seq<(seq<byte>, BValue)>, body: seq<byte>) {
    && DistinctKeys(entries)
    && (forall i :: 0 <= i < |entries| ==> WellFormed(entries[i].1))
    && At(body, 0, [LOWER_D] + EncodeEntries(entries) + [LOWER_E])
  }

  /**
   * A body holding the encoded dictionary parses, key order unchecked, to
   * the same entries, each key once; the reply read is their interpretation.
   */
  lemma ParsedReply(entries: seq<(seq<byte>, BValue)>, body: seq<byte>, compact: bool)
      returns (stored: seq<(seq<byte>, BValue)>)
    requires EncodedReply(entries, body)
    ensures ReadResponse(body, compact) == Interpret(stored, compact)
    ensures Interpret(stored, compact) == Interpret(entries, compact)
  {
    UncheckedAcceptsAnyOrder(entries, body, 0);
    stored := Parse(body, 0, false).value.entries;
    SortedKeysDistinct(stored);
    ReadDictionary(body, compact);
    InterpretSameEntries(stored, entries, compact);
  }

  /**
   * A reply whose keys arrive in any order (all distinct) is read as if they
   * were sorted: the result is the interpretation of the entries as sent.
   */
  lemma ReplyKeysInAnyOrder(entries: seq<(seq<byte>, BValue)>, body: seq<byte>, compact: bool)
    requires EncodedReply(entries, body)
    ensures ReadResponse(body, compact) == Interpret(entries, compact)
  {
    var stored := ParsedReply(entries, body, compact);
  }
}
