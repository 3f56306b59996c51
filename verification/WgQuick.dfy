/**
 The wg-quick parser: a state machine over lines with a current section and an open peer.
 */
module WgQuick {
  import opened Wrappers
  import opened Text

  datatype Peer = Peer(
    publicKey: string,
    presharedKey: Option<string>,
    endpoint: Option<string>,
    allowedIps: seq<string>,
    keepalive: nat)

  datatype WgConfig = WgConfig(
    privateKey: string,
    listenPort: nat,
    addresses: seq<string>,
    dnsServers: seq<string>,
    fwmark: nat,
    peers: seq<Peer>)

  datatype Section = Outside | InInterface | InPeer

  datatype State = State(config: WgConfig, section: Section, peer: Option<Peer>)

  datatype WgError = MissingPrivateKey | InvalidLine(line: string) | UnknownSection(name: string)

  const NEW_PEER := Peer("", None, None, [], 0)

  const NEW_CONFIG := WgConfig("", 0, [], [], 0, [])

  const START := State(NEW_CONFIG, Outside, None)

  const U16_MAX := 0xFFFF

  const U32_MAX := 0xFFFF_FFFF

  // ----- numbers -----

  predicate IsDigit(c: char) {
    '0' <= c <= '9'
  }

  /** The value of a string of decimal digits. */
  function DigitsValue(s: string): Option<nat> {
    if s == "" then Some(0)
    else
      var last := s[|s| - 1];
      var front := DigitsValue(s[..|s| - 1]);
      if IsDigit(last) && front.Some? then Some(10 * front.value + (last as int - '0' as int)) else None
  }

  /** An optional plus sign, then decimal digits, at most limit. */
  function ParseNumber(s: string, limit: nat): (r: Option<nat>)
    ensures r.Some? ==> r.value <= limit
  {
    var digits := if s != "" && s[0] == '+' then s[1..] else s;
    var n := DigitsValue(digits);
    if digits != "" && n.Some? && n.value <= limit then n else None
  }

  // ----- one line -----

  /** One "key = value" of an [Interface] section, or nothing when its number is malformed. */
  function InterfaceLine(c: WgConfig, key: string, value: string): Option<WgConfig> {
    if key == "PrivateKey" then Some(c.(privateKey := value))
    else if key == "ListenPort" then
      var n := ParseNumber(value, U16_MAX);
      if n.Some? then Some(c.(listenPort := n.value)) else None
    else if key == "Address" then Some(c.(addresses := c.addresses + TrimAll(SplitOn(value, ','))))
    else if key == "DNS" then Some(c.(dnsServers := c.dnsServers + TrimAll(SplitOn(value, ','))))
    else if key == "FwMark" then
      var n := ParseNumber(value, U32_MAX);
      if n.Some? then Some(c.(fwmark := n.value)) else None
    else Some(c)
  }

  /** One "key = value" of a [Peer] section. */
  function PeerLine(p: Peer, key: string, value: string): Option<Peer> {
    if key == "PublicKey" then Some(p.(publicKey := value))
    else if key == "PresharedKey" then Some(p.(presharedKey := Some(value)))
    else if key == "Endpoint" then Some(p.(endpoint := Some(value)))
    else if key == "AllowedIPs" then Some(p.(allowedIps := p.allowedIps + TrimAll(SplitOn(value, ','))))
    else if key == "PersistentKeepalive" then
      var n := ParseNumber(value, U16_MAX);
      if n.Some? then Some(p.(keepalive := n.value)) else None
    else Some(p)
  }

  predicate Skipped(line: string) {
    line == "" || line[0] == '#' || line[0] == ';'
  }

  predicate IsHeader(line: string) {
    |line| >= 2 && line[0] == '[' && line[|line| - 1] == ']'
  }

  function Flushed(st: State): WgConfig {
    if st.peer.Some? then st.config.(peers := st.config.peers + [st.peer.value]) else st.config
  }

  /** The peer section is current exactly when a peer is open. */
  predicate Coherent(st: State) {
    st.section == InPeer <==> st.peer.Some?
  }

  function HeaderLine(st: State, name: string): Result<State, WgError> {
    if name == "Interface" then Ok(State(Flushed(st), InInterface, None))
    else if name == "Peer" then Ok(State(Flushed(st), InPeer, Some(NEW_PEER)))
    else Err(UnknownSection(name))
  }

  function Key(line: string, eq: nat): string
    requires eq < |line|
  {
    Trim(line[..eq])
  }

  function Value(line: string, eq: nat): string
    requires eq < |line|
  {
    Trim(line[eq + 1..])
  }

  function ReadLine(st: State, raw: string): (r: Result<State, WgError>)
    requires Coherent(st)
    ensures r.Ok? ==> Coherent(r.value)
  {
    var line := Trim(raw);
    if Skipped(line) then Ok(st)
    else if IsHeader(line) then HeaderLine(st, line[1..|line| - 1])
    else
      var eq := Find(line, '=', 0);
      if eq.None? then Err(InvalidLine(line))
      else
        var key, value := Key(line, eq.value), Value(line, eq.value);
        match st.section
        case InInterface =>
          var c := InterfaceLine(st.config, key, value);
          if c.Some? then Ok(st.(config := c.value)) else Err(InvalidLine(line))
        case InPeer =>
          var p := PeerLine(st.peer.value, key, value);
          if p.Some? then Ok(st.(peer := p)) else Err(InvalidLine(line))
        case Outside => Ok(st)
  }

  function ReadLines(lines: seq<string>, st: State): (r: Result<State, WgError>)
    requires Coherent(st)
    ensures r.Ok? ==> Coherent(r.value)
    decreases |lines|
  {
    if lines == [] then Ok(st)
    else
      var next := ReadLine(st, lines[0]);
      if next.Err? then next else ReadLines(lines[1..], next.value)
  }

  function Parsed(lines: seq<string>): Result<WgConfig, WgError> {
    var st := ReadLines(lines, START);
    if st.Err? then Err(st.error)
    else if Flushed(st.value).privateKey == "" then Err(MissingPrivateKey)
    else Ok(Flushed(st.value))
  }

  method ParseWgQuickRaw(content: string) returns (r: Result<WgConfig, WgError>)
    ensures r == Parsed(Lines(content))
  {
    var config := NEW_CONFIG;
    var section := Outside;
    var peer: Option<Peer> := None;
    var lines := Lines(content);
    var i := 0;
    while i < |lines|
      invariant 0 <= i <= |lines|
      invariant Coherent(State(config, section, peer))
      invariant ReadLines(lines, START) == ReadLines(lines[i..], State(config, section, peer))
    {
      ghost var st := State(config, section, peer);
      assert lines[i..][0] == lines[i] && lines[i..][1..] == lines[i + 1..];
      var line := Trim(lines[i]);
      i := i + 1;
      if Skipped(line) {
        continue;
      }
      if IsHeader(line) {
        if peer.Some? {
          config := config.(peers := config.peers + [peer.value]);
          peer := None;
        }
        var name := line[1..|line| - 1];
        if name == "Interface" {
          section := InInterface;
        } else if name == "Peer" {
          section, peer := InPeer, Some(NEW_PEER);
        } else {
          return Err(UnknownSection(name));
        }
        continue;
      }
      var eq := Find(line, '=', 0);
      if eq.None? {
        return Err(InvalidLine(line));
      }
      var key, value := Key(line, eq.value), Value(line, eq.value);
      match section {
        case InInterface =>
          var c := InterfaceLine(config, key, value);
          if c.None? {
            return Err(InvalidLine(line));
          }
          config := c.value;
        case InPeer =>
          var p := PeerLine(peer.value, key, value);
          if p.None? {
            return Err(InvalidLine(line));
          }
          peer := p;
        case Outside =>
      }
    }
    if peer.Some? {
      config := config.(peers := config.peers + [peer.value]);
    }
    if config.privateKey == "" {
      return Err(MissingPrivateKey);
    }
    return Ok(config);
  }

  // ----- lines that do not matter -----

  lemma {:induction false} ReadAppend(a: seq<string>, b: seq<string>, st: State)
    requires Coherent(st)
    ensures var mid := ReadLines(a, st);
            ReadLines(a + b, st) == if mid.Ok? then ReadLines(b, mid.value) else mid
    decreases |a|
  {
    if a == [] {
      assert a + b == b;
    } else {
      assert (a + b)[1..] == a[1..] + b;
      var next := ReadLine(st, a[0]);
      if next.Ok? {
        ReadAppend(a[1..], b, next.value);
      }
    }
  }

  /** A line that leaves the state before it as it is can be left out. */
  lemma LineChangesNothing(a: seq<string>, line: string, b: seq<string>)
    requires ReadLines(a, START).Ok? ==> ReadLine(ReadLines(a, START).value, line) == ReadLines(a, START)
    ensures Parsed(a + [line] + b) == Parsed(a + b)
  {
    ReadAppend(a, b, START);
    ReadAppend(a + [line], b, START);
    ReadAppend(a, [line], START);
    var mid := ReadLines(a, START);
    if mid.Ok? {
      assert [line][1..] == [];
      assert ReadLines([line], mid.value) == ReadLines([], mid.value);
    }
  }

  /** Blank lines and lines that start with '#' or ';' can be put anywhere. */
  lemma CommentsChangeNothing(a: seq<string>, comment: string, b: seq<string>)
    requires Trim(comment) == "" || Trim(comment)[0] == '#' || Trim(comment)[0] == ';'
    ensures Parsed(a + [comment] + b) == Parsed(a + b)
  {
    LineChangesNothing(a, comment, b);
  }

  // ----- sections -----

  predicate HeaderOf(raw: string, name: string) {
    IsHeader(Trim(raw)) && Trim(raw)[1..|Trim(raw)| - 1] == name
  }

  /** The number of lines before the first section header. */
  function BodyLength(lines: seq<string>): (n: nat)
    ensures n <= |lines|
    ensures forall i | 0 <= i < n :: !IsHeader(Trim(lines[i]))
    ensures n < |lines| ==> IsHeader(Trim(lines[n]))
  {
    if lines == [] || IsHeader(Trim(lines[0])) then 0 else 1 + BodyLength(lines[1..])
  }

  /** The peer after one line that is not a header. */
  function PeerAfter(raw: string, p: Peer): Peer {
    var line := Trim(raw);
    var eq := Find(line, '=', 0);
    if Skipped(line) || eq.None? then p
    else
      var next := PeerLine(p, Key(line, eq.value), Value(line, eq.value));
      if next.Some? then next.value else p
  }

  /** A peer read from the lines of its own section alone. */
  function PeerFrom(body: seq<string>, p: Peer): Peer {
    if body == [] then p else PeerFrom(body[1..], PeerAfter(body[0], p))
  }

  /** One peer per [Peer] header of lines, in order, each read from its own section. */
  function PeersOf(lines: seq<string>): seq<Peer>
    decreases |lines|
  {
    if lines == [] then []
    else if HeaderOf(lines[0], "Peer") then
      [PeerFrom(lines[1..][..BodyLength(lines[1..])], NEW_PEER)] + PeersOf(lines[1..])
    else PeersOf(lines[1..])
  }

  /** The open peer, if any, completed by the lines up to the next header. */
  function Completed(lines: seq<string>, peer: Option<Peer>): seq<Peer> {
    match peer
    case Some(p) => [PeerFrom(lines[..BodyLength(lines)], p)]
    case None => []
  }

  /** A header closes the open peer, and a [Peer] header opens the next one. */
  lemma HeaderStep(lines: seq<string>, st: State)
    requires lines != [] && IsHeader(Trim(lines[0]))
    requires Coherent(st) && ReadLine(st, lines[0]).Ok?
    ensures var next := ReadLine(st, lines[0]).value;
            && next.config.peers == st.config.peers + Completed(lines, st.peer)
            && Completed(lines[1..], next.peer) + PeersOf(lines[1..]) == PeersOf(lines)
  {
    assert lines[..BodyLength(lines)] == [];
  }

  lemma BodyLineEffect(st: State, raw: string)
    requires Coherent(st) && !IsHeader(Trim(raw)) && ReadLine(st, raw).Ok?
    ensures ReadLine(st, raw).value.config.peers == st.config.peers
    ensures ReadLine(st, raw).value.peer ==
            if st.peer.Some? then Some(PeerAfter(raw, st.peer.value)) else None
  {
  }

  lemma BodyTail(lines: seq<string>)
    requires lines != [] && !IsHeader(Trim(lines[0]))
    ensures forall p :: PeerFrom(lines[..BodyLength(lines)], p)
                     == PeerFrom(lines[1..][..BodyLength(lines[1..])], PeerAfter(lines[0], p))
  {
    var body := lines[..BodyLength(lines)];
    assert body[1..] == lines[1..][..BodyLength(lines[1..])];
    assert body[0] == lines[0];
  }

  /** Any other line is read into the open peer, and concerns no other one. */
  lemma BodyStep(lines: seq<string>, st: State)
    requires lines != [] && !IsHeader(Trim(lines[0]))
    requires Coherent(st) && ReadLine(st, lines[0]).Ok?
    ensures var next := ReadLine(st, lines[0]).value;
            && next.config.peers == st.config.peers
            && Completed(lines[1..], next.peer) == Completed(lines, st.peer)
            && PeersOf(lines[1..]) == PeersOf(lines)
  {
    BodyLineEffect(st, lines[0]);
    BodyTail(lines);
    assert !HeaderOf(lines[0], "Peer");
  }

  lemma PeerAssoc(a: seq<Peer>, b: seq<Peer>, c: seq<Peer>)
    ensures a + b + c == a + (b + c)
  {
  }

  /** What a successful read does to the list of peers. */
  lemma {:induction false} PeersRead(lines: seq<string>, st: State)
    requires Coherent(st) && ReadLines(lines, st).Ok?
    ensures Flushed(ReadLines(lines, st).value).peers ==
            st.config.peers + Completed(lines, st.peer) + PeersOf(lines)
    decreases |lines|
  {
    if lines == [] {
      assert Flushed(st).peers == st.config.peers + Completed([], st.peer) + [];
    } else {
      var next := ReadLine(st, lines[0]).value;
      PeersRead(lines[1..], next);
      if IsHeader(Trim(lines[0])) {
        HeaderStep(lines, st);
        PeerAssoc(next.config.peers, Completed(lines[1..], next.peer), PeersOf(lines[1..]));
      } else {
        BodyStep(lines, st);
      }
    }
  }

  function PeerHeaders(lines: seq<string>): nat {
    if lines == [] then 0 else (if HeaderOf(lines[0], "Peer") then 1 else 0) + PeerHeaders(lines[1..])
  }

  lemma {:induction false} PeersCount(lines: seq<string>)
    ensures |PeersOf(lines)| == PeerHeaders(lines)
    decreases |lines|
  {
    if lines == [] {
    } else {
      PeersCount(lines[1..]);
    }
  }

  /** A successful parse yields one peer per [Peer] header, each from its own section. */
  lemma ParsedPeers(lines: seq<string>)
    requires Parsed(lines).Ok?
    ensures Parsed(lines).value.peers == PeersOf(lines)
    ensures |Parsed(lines).value.peers| == PeerHeaders(lines)
  {
    PeersRead(lines, START);
    PeersCount(lines);
    assert [] + [] + PeersOf(lines) == PeersOf(lines);
  }
}
