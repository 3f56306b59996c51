/**
 The canonical wg-quick text of a configuration, and the proof that parsing it gives the
 configuration back exactly when its values can stand on one line.
 */
module WgQuickRoundTrip {
  import opened Wrappers
  import opened Text
  import opened WgQuick

  // ----- rendering -----

  function Decimal(n: nat): string {
    var digit := ('0' as int + n % 10) as char;
    if n < 10 then [digit] else Decimal(n / 10) + [digit]
  }

  function Line(key: string, value: string): string {
    key + " = " + value
  }

  function Header(name: string): string {
    "[" + name + "]"
  }

  datatype Field = Field(key: string, value: string)

  function FieldLines(fs: seq<Field>): seq<string> {
    if fs == [] then [] else [Line(fs[0].key, fs[0].value)] + FieldLines(fs[1..])
  }

  function OptionalField(key: string, value: Option<string>): seq<Field> {
    match value
    case Some(v) => [Field(key, v)]
    case None => []
  }

  function ListField(key: string, items: seq<string>): seq<Field> {
    if items == [] then [] else [Field(key, Join(items, ", "))]
  }

  function PeerFields(p: Peer): seq<Field> {
    [Field("PublicKey", p.publicKey)]
    + OptionalField("PresharedKey", p.presharedKey)
    + OptionalField("Endpoint", p.endpoint)
    + ListField("AllowedIPs", p.allowedIps)
    + [Field("PersistentKeepalive", Decimal(p.keepalive))]
  }

  function InterfaceFields(c: WgConfig): seq<Field> {
    [Field("PrivateKey", c.privateKey)]
    + [Field("ListenPort", Decimal(c.listenPort))]
    + ListField("Address", c.addresses)
    + ListField("DNS", c.dnsServers)
    + [Field("FwMark", Decimal(c.fwmark))]
  }

  function PeersLines(ps: seq<Peer>): seq<string> {
    if ps == [] then []
    else [Header("Peer")] + FieldLines(PeerFields(ps[0])) + PeersLines(ps[1..])
  }

  function ConfigLines(c: WgConfig): seq<string> {
    [Header("Interface")] + FieldLines(InterfaceFields(c)) + PeersLines(c.peers)
  }

  // ----- values that fit on a line -----

  predicate CleanValue(s: string) {
    Trimmed(s) && '\n' !in s
  }

  predicate CleanItems(items: seq<string>) {
    forall s | s in items :: CleanValue(s) && ',' !in s
  }

  predicate CleanPeer(p: Peer) {
    && CleanValue(p.publicKey)
    && (p.presharedKey.Some? ==> CleanValue(p.presharedKey.value))
    && (p.endpoint.Some? ==> CleanValue(p.endpoint.value))
    && CleanItems(p.allowedIps)
    && p.keepalive <= U16_MAX
  }

  predicate CleanInterface(c: WgConfig) {
    && CleanValue(c.privateKey)
    && c.listenPort <= U16_MAX
    && CleanItems(c.addresses)
    && CleanItems(c.dnsServers)
    && c.fwmark <= U32_MAX
  }

  predicate CleanPeers(ps: seq<Peer>) {
    forall p | p in ps :: CleanPeer(p)
  }

  predicate Clean(c: WgConfig) {
    CleanInterface(c) && c.privateKey != "" && CleanPeers(c.peers)
  }

  // ----- numbers -----

  lemma {:induction false} DecimalRoundTrip(n: nat)
    ensures DigitsValue(Decimal(n)) == Some(n)
    decreases n
  {
    var s := Decimal(n);
    if n >= 10 {
      DecimalRoundTrip(n / 10);
      assert s[..|s| - 1] == Decimal(n / 10);
    } else {
      assert s[..|s| - 1] == "";
      assert DigitsValue("") == Some(0);
    }
  }

  lemma {:induction false} DecimalShape(n: nat)
    ensures var s := Decimal(n);
            s != "" && IsDigit(s[0]) && IsDigit(s[|s| - 1]) && '\n' !in s
    decreases n
  {
    if n >= 10 {
      DecimalShape(n / 10);
    }
  }

  lemma NumberOf(s: string, n: nat, limit: nat)
    requires s != "" && IsDigit(s[0]) && DigitsValue(s) == Some(n) && n <= limit
    ensures ParseNumber(s, limit) == Some(n)
  {
  }

  lemma DigitsTrimmed(s: string)
    requires s != "" && IsDigit(s[0]) && IsDigit(s[|s| - 1])
    ensures Trimmed(s) && Trim(s) == s
  {
  }

  lemma NumberRoundTrip(n: nat, limit: nat)
    requires n <= limit
    ensures ParseNumber(Trim(Decimal(n)), limit) == Some(n) && CleanValue(Decimal(n))
  {
    DecimalShape(n);
    DecimalRoundTrip(n);
    DigitsTrimmed(Decimal(n));
    NumberOf(Decimal(n), n, limit);
  }

  // ----- one line -----

  /** A key of the format: it can start no comment, no header, and holds no "=". */
  predicate GoodKey(key: string) {
    key != "" && Trimmed(key) && '=' !in key && '\n' !in key && key[0] !in {'#', ';', '['}
  }

  lemma TrimTrailingBlank(s: string)
    requires Trimmed(s)
    ensures Trim(s + " ") == s
  {
    assert (s + " ")[..|s|] == s;
    if s == "" {
      assert TrimStart(" ") == TrimStart("") by {
        assert " "[1..] == "";
      }
    } else {
      assert TrimStart(s + " ") == s + " ";
      assert TrimEnd(s + " ") == TrimEnd(s);
    }
  }

  /** Trimming a rendered line can only take the blank behind an empty value. */
  lemma TrimLine(key: string, value: string)
    requires GoodKey(key) && CleanValue(value)
    ensures Trim(Line(key, value)) == if value == "" then key + " =" else Line(key, value)
  {
    var line := Line(key, value);
    assert line[0] == key[0];
    if value == "" {
      assert (key + " =")[0] == key[0];
      TrimTrailingBlank(key + " =");
      assert line == key + " =" + " ";
    } else {
      assert line[|line| - 1] == value[|value| - 1];
    }
  }

  /** A rendered line is read as its key and its value, even when the value holds "=". */
  lemma LineIsKeyValue(key: string, value: string)
    requires GoodKey(key) && CleanValue(value)
    ensures var line := Trim(Line(key, value));
            && !Skipped(line) && !IsHeader(line)
            && Find(line, '=', 0) == Some(|key| + 1)
            && Key(line, |key| + 1) == key && Value(line, |key| + 1) == value
  {
    var line := Trim(Line(key, value));
    TrimLine(key, value);
    assert line[0] == key[0];
    assert line[|key| + 1] == '=';
    forall i | 0 <= i < |key| + 1 ensures line[i] != '=' {
      if i < |key| {
        assert line[i] == key[i] && key[i] in key;
      } else {
        assert line[i] == ' ';
      }
    }
    assert Find(line, '=', 0) == Some(|key| + 1);
    assert line[..|key| + 1] == key + " ";
    TrimTrailingBlank(key);
    if value == "" {
      assert line[|key| + 2..] == "";
    } else {
      assert line[|key| + 2..] == " " + value;
      TrimPadded(value);
    }
  }

  /** The line is read as this key and this value. */
  ghost predicate ReadsAs(raw: string, key: string, value: string) {
    var line := Trim(raw);
    var eq := Find(line, '=', 0);
    !Skipped(line) && !IsHeader(line) && eq.Some? && Key(line, eq.value) == key && Value(line, eq.value) == value
  }

  /** The line survives being written with a line feed behind it. */
  predicate Plain(raw: string) {
    '\n' !in raw && WithoutCr(raw) == raw
  }

  predicate AllPlain(ls: seq<string>) {
    forall l | l in ls :: Plain(l)
  }

  lemma LineReads(key: string, value: string)
    requires GoodKey(key) && CleanValue(value)
    ensures ReadsAs(Line(key, value), key, value) && Plain(Line(key, value))
  {
    LineIsKeyValue(key, value);
    var line := Line(key, value);
    if value != "" {
      assert line[|line| - 1] == value[|value| - 1];
    } else {
      assert line[|line| - 1] == ' ';
    }
  }

  /** A list of clean items is trimmed when joined, but for one blank behind an empty last item. */
  lemma {:induction false} JoinShape(items: seq<string>) returns (core: string)
    requires items != [] && CleanItems(items)
    ensures CleanValue(core)
    ensures Join(items, ", ") == core || (Join(items, ", ") == core + " " && core != "" && core[|core| - 1] == ',')
    decreases |items|
  {
    assert items[0] in items;
    if |items| == 1 {
      core := items[0];
    } else {
      assert forall v | v in items[1..] :: v in items;
      var rest := JoinShape(items[1..]);
      var head := items[0] + ",";
      var joined := Join(items[1..], ", ");
      assert items[0] + ", " + joined == head + " " + joined;
      assert head[0] == if items[0] == "" then ',' else items[0][0];
      if rest == "" {
        core := head;
        assert joined == "";
        assert Join(items, ", ") == core + " ";
      } else {
        core := head + " " + rest;
        assert core[0] == head[0] && core[|core| - 1] == rest[|rest| - 1];
        assert joined == rest + " " ==> Join(items, ", ") == core + " ";
      }
    }
  }

  /** Trimmed, but for one blank behind a final comma. */
  predicate Writable(value: string) {
    && '\n' !in value
    && (Trimmed(value)
        || (|value| >= 2 && value[|value| - 1] == ' ' && value[|value| - 2] == ','
            && Trimmed(value[..|value| - 1])))
  }

  predicate GoodField(f: Field) {
    GoodKey(f.key) && Writable(f.value)
  }

  predicate GoodFields(fs: seq<Field>) {
    fs == [] || (GoodField(fs[0]) && GoodFields(fs[1..]))
  }

  lemma {:induction false} GoodAppend(a: seq<Field>, b: seq<Field>)
    requires GoodFields(a) && GoodFields(b)
    ensures GoodFields(a + b)
    decreases |a|
  {
    if a == [] {
      assert a + b == b;
    } else {
      assert (a + b)[1..] == a[1..] + b;
      GoodAppend(a[1..], b);
    }
  }

  /** A blank behind the line is trimmed away before the line is looked at. */
  lemma BlankBehindLine(key: string, core: string)
    requires GoodKey(key) && CleanValue(core) && core != ""
    ensures Trim(Line(key, core + " ")) == Trim(Line(key, core))
    ensures Plain(Line(key, core)) ==> Plain(Line(key, core + " "))
  {
    var line := Line(key, core);
    assert Line(key, core + " ") == line + " ";
    TrimLine(key, core);
    assert line[0] == key[0] && line[|line| - 1] == core[|core| - 1];
    TrimTrailingBlank(line);
  }

  lemma FieldReads(f: Field)
    requires GoodField(f)
    ensures ReadsAs(Line(f.key, f.value), f.key, Trim(f.value))
    ensures Plain(Line(f.key, f.value))
  {
    if Trimmed(f.value) {
      LineReads(f.key, f.value);
    } else {
      var core := f.value[..|f.value| - 1];
      assert f.value == core + " ";
      TrimTrailingBlank(core);
      LineReads(f.key, core);
      BlankBehindLine(f.key, core);
    }
  }

  lemma BlankBehindComma(core: string)
    requires CleanValue(core) && core != "" && core[|core| - 1] == ','
    ensures Writable(core + " ") && Trim(core + " ") == core
    ensures TrimAll(SplitOn(core + " ", ',')) == TrimAll(SplitOn(core, ','))
  {
    assert (core + " ")[..|core|] == core;
    TrimTrailingBlank(core);
    SplitTrailingBlank(core);
  }

  /** A joined list can be written, and is read back item by item. */
  lemma ListIsWritable(items: seq<string>)
    requires items != [] && CleanItems(items)
    ensures Writable(Join(items, ", "))
    ensures TrimAll(SplitOn(Trim(Join(items, ", ")), ',')) == items
  {
    var core := JoinShape(items);
    SplitJoinList(items, "");
    assert "" + Join(items, ", ") == Join(items, ", ");
    if Join(items, ", ") != core {
      BlankBehindComma(core);
    }
  }

  // ----- reading fields -----

  lemma HeaderShape(name: string)
    requires '\n' !in name
    ensures Trim(Header(name)) == Header(name) && Plain(Header(name))
    ensures IsHeader(Header(name)) && !Skipped(Header(name))
    ensures Header(name)[1..|Header(name)| - 1] == name
  {
    var line := Header(name);
    assert line[0] == '[' && line[|line| - 1] == ']';
  }

  lemma ReadOne(line: string, st: State)
    requires Coherent(st)
    ensures ReadLines([line], st) == ReadLine(st, line)
  {
    assert [line][1..] == [];
    var next := ReadLine(st, line);
    assert next.Ok? ==> ReadLines([], next.value) == next;
  }

  lemma ReadHeader(name: string, st: State)
    requires Coherent(st) && '\n' !in name
    ensures ReadLines([Header(name)], st) == HeaderLine(st, name)
    ensures Plain(Header(name))
  {
    HeaderShape(name);
    ReadOne(Header(name), st);
  }

  /** The fields applied to a peer one after the other. */
  function ApplyToPeer(p: Peer, fs: seq<Field>): Option<Peer>
    decreases |fs|
  {
    if fs == [] then Some(p)
    else
      var next := PeerLine(p, fs[0].key, Trim(fs[0].value));
      if next.None? then None else ApplyToPeer(next.value, fs[1..])
  }

  function ApplyToInterface(c: WgConfig, fs: seq<Field>): Option<WgConfig>
    decreases |fs|
  {
    if fs == [] then Some(c)
    else
      var next := InterfaceLine(c, fs[0].key, Trim(fs[0].value));
      if next.None? then None else ApplyToInterface(next.value, fs[1..])
  }

  lemma ReadInPeer(raw: string, key: string, value: string, c: WgConfig, p: Peer)
    requires ReadsAs(raw, key, value) && PeerLine(p, key, value).Some?
    ensures ReadLine(State(c, InPeer, Some(p)), raw) == Ok(State(c, InPeer, PeerLine(p, key, value)))
  {
  }

  lemma ReadInInterface(raw: string, key: string, value: string, c: WgConfig)
    requires ReadsAs(raw, key, value) && InterfaceLine(c, key, value).Some?
    ensures ReadLine(State(c, InInterface, None), raw) ==
            Ok(State(InterfaceLine(c, key, value).value, InInterface, None))
  {
  }

  lemma ReadPeerField(f: Field, c: WgConfig, p: Peer)
    requires GoodField(f)
    ensures var next := PeerLine(p, f.key, Trim(f.value));
            next.Some? ==>
              ReadLine(State(c, InPeer, Some(p)), Line(f.key, f.value)) == Ok(State(c, InPeer, next))
  {
    FieldReads(f);
    if PeerLine(p, f.key, Trim(f.value)).Some? {
      ReadInPeer(Line(f.key, f.value), f.key, Trim(f.value), c, p);
    }
  }

  lemma ReadInterfaceField(f: Field, c: WgConfig)
    requires GoodField(f)
    ensures var next := InterfaceLine(c, f.key, Trim(f.value));
            next.Some? ==>
              ReadLine(State(c, InInterface, None), Line(f.key, f.value)) == Ok(State(next.value, InInterface, None))
  {
    FieldReads(f);
    if InterfaceLine(c, f.key, Trim(f.value)).Some? {
      ReadInInterface(Line(f.key, f.value), f.key, Trim(f.value), c);
    }
  }

  lemma {:induction false} ReadPeerFields(fs: seq<Field>, c: WgConfig, p: Peer)
    requires GoodFields(fs) && ApplyToPeer(p, fs).Some?
    ensures ReadLines(FieldLines(fs), State(c, InPeer, Some(p))) == Ok(State(c, InPeer, ApplyToPeer(p, fs)))
    decreases |fs|
  {
    if fs == [] {
    } else {
      ReadPeerField(fs[0], c, p);
      assert FieldLines(fs)[1..] == FieldLines(fs[1..]);
      ReadPeerFields(fs[1..], c, PeerLine(p, fs[0].key, Trim(fs[0].value)).value);
    }
  }

  lemma {:induction false} ReadInterfaceFields(fs: seq<Field>, c: WgConfig)
    requires GoodFields(fs) && ApplyToInterface(c, fs).Some?
    ensures ReadLines(FieldLines(fs), State(c, InInterface, None)) ==
            Ok(State(ApplyToInterface(c, fs).value, InInterface, None))
    decreases |fs|
  {
    if fs == [] {
    } else {
      ReadInterfaceField(fs[0], c);
      assert FieldLines(fs)[1..] == FieldLines(fs[1..]);
      ReadInterfaceFields(fs[1..], InterfaceLine(c, fs[0].key, Trim(fs[0].value)).value);
    }
  }

  lemma {:induction false} ApplyAppend(p: Peer, a: seq<Field>, b: seq<Field>)
    requires ApplyToPeer(p, a).Some?
    ensures ApplyToPeer(p, a + b) == ApplyToPeer(ApplyToPeer(p, a).value, b)
    decreases |a|
  {
    if a == [] {
      assert a + b == b;
    } else {
      assert (a + b)[1..] == a[1..] + b;
      ApplyAppend(PeerLine(p, a[0].key, Trim(a[0].value)).value, a[1..], b);
    }
  }

  lemma {:induction false} ApplyAppendInterface(c: WgConfig, a: seq<Field>, b: seq<Field>)
    requires ApplyToInterface(c, a).Some?
    ensures ApplyToInterface(c, a + b) == ApplyToInterface(ApplyToInterface(c, a).value, b)
    decreases |a|
  {
    if a == [] {
      assert a + b == b;
    } else {
      assert (a + b)[1..] == a[1..] + b;
      ApplyAppendInterface(InterfaceLine(c, a[0].key, Trim(a[0].value)).value, a[1..], b);
    }
  }

  lemma ApplyOne(p: Peer, f: Field)
    requires GoodField(f)
    ensures ApplyToPeer(p, [f]) == PeerLine(p, f.key, Trim(f.value))
    ensures GoodFields([f])
  {
    assert [f][1..] == [];
    var next := PeerLine(p, f.key, Trim(f.value));
    assert next.Some? ==> ApplyToPeer(next.value, []) == next;
  }

  lemma ApplyOneInterface(c: WgConfig, f: Field)
    requires GoodField(f)
    ensures ApplyToInterface(c, [f]) == InterfaceLine(c, f.key, Trim(f.value))
    ensures GoodFields([f])
  {
    assert [f][1..] == [];
    var next := InterfaceLine(c, f.key, Trim(f.value));
    assert next.Some? ==> ApplyToInterface(next.value, []) == next;
  }

  // ----- the fields of a peer -----

  lemma PresharedKeyField(key: Option<string>, p: Peer)
    requires p.presharedKey == None && (key.Some? ==> CleanValue(key.value))
    ensures ApplyToPeer(p, OptionalField("PresharedKey", key)) == Some(p.(presharedKey := key))
    ensures GoodFields(OptionalField("PresharedKey", key))
  {
    if key.Some? {
      ApplyOne(p, Field("PresharedKey", key.value));
    }
  }

  lemma EndpointField(endpoint: Option<string>, p: Peer)
    requires p.endpoint == None && (endpoint.Some? ==> CleanValue(endpoint.value))
    ensures ApplyToPeer(p, OptionalField("Endpoint", endpoint)) == Some(p.(endpoint := endpoint))
    ensures GoodFields(OptionalField("Endpoint", endpoint))
  {
    if endpoint.Some? {
      ApplyOne(p, Field("Endpoint", endpoint.value));
    }
  }

  lemma AllowedIpsField(items: seq<string>, p: Peer)
    requires p.allowedIps == [] && CleanItems(items)
    ensures ApplyToPeer(p, ListField("AllowedIPs", items)) == Some(p.(allowedIps := items))
    ensures GoodFields(ListField("AllowedIPs", items))
  {
    if items != [] {
      ListIsWritable(items);
      ApplyOne(p, Field("AllowedIPs", Join(items, ", ")));
      assert p.allowedIps + items == items;
    }
  }

  lemma PublicKeyField(key: string, p: Peer)
    requires CleanValue(key)
    ensures ApplyToPeer(p, [Field("PublicKey", key)]) == Some(p.(publicKey := key))
    ensures GoodFields([Field("PublicKey", key)])
  {
    ApplyOne(p, Field("PublicKey", key));
  }

  lemma KeepaliveKey()
    ensures GoodKey("PersistentKeepalive")
  {
  }

  lemma KeepaliveLine(p: Peer, value: string, n: nat)
    requires ParseNumber(value, U16_MAX) == Some(n)
    ensures PeerLine(p, "PersistentKeepalive", value) == Some(p.(keepalive := n))
  {
  }

  lemma KeepaliveField(n: nat, p: Peer)
    requires n <= U16_MAX
    ensures ApplyToPeer(p, [Field("PersistentKeepalive", Decimal(n))]) == Some(p.(keepalive := n))
    ensures GoodFields([Field("PersistentKeepalive", Decimal(n))])
  {
    NumberRoundTrip(n, U16_MAX);
    KeepaliveKey();
    KeepaliveLine(p, Trim(Decimal(n)), n);
    ApplyOne(p, Field("PersistentKeepalive", Decimal(n)));
  }

  lemma GoodChain(a: seq<Field>, b: seq<Field>, c: seq<Field>, d: seq<Field>, e: seq<Field>)
    requires GoodFields(a) && GoodFields(b) && GoodFields(c) && GoodFields(d) && GoodFields(e)
    ensures GoodFields(a + b + c + d + e)
  {
    GoodAppend(a, b);
    GoodAppend(a + b, c);
    GoodAppend(a + b + c, d);
    GoodAppend(a + b + c + d, e);
  }

  /** Five groups of fields applied in turn. */
  lemma PeerChain(
    a: seq<Field>, b: seq<Field>, c: seq<Field>, d: seq<Field>, e: seq<Field>,
    p0: Peer, p1: Peer, p2: Peer, p3: Peer, p4: Peer, p5: Peer)
    requires ApplyToPeer(p0, a) == Some(p1) && ApplyToPeer(p1, b) == Some(p2) && ApplyToPeer(p2, c) == Some(p3)
    requires ApplyToPeer(p3, d) == Some(p4) && ApplyToPeer(p4, e) == Some(p5)
    requires GoodFields(a) && GoodFields(b) && GoodFields(c) && GoodFields(d) && GoodFields(e)
    ensures ApplyToPeer(p0, a + b + c + d + e) == Some(p5)
    ensures GoodFields(a + b + c + d + e)
  {
    ApplyAppend(p0, a, b);
    ApplyAppend(p0, a + b, c);
    ApplyAppend(p0, a + b + c, d);
    ApplyAppend(p0, a + b + c + d, e);
    GoodChain(a, b, c, d, e);
  }

  lemma PeerFieldsApply(p: Peer)
    requires CleanPeer(p)
    ensures ApplyToPeer(NEW_PEER, PeerFields(p)) == Some(p)
    ensures GoodFields(PeerFields(p))
  {
    var p1 := NEW_PEER.(publicKey := p.publicKey);
    var p2 := p1.(presharedKey := p.presharedKey);
    var p3 := p2.(endpoint := p.endpoint);
    var p4 := p3.(allowedIps := p.allowedIps);
    PublicKeyField(p.publicKey, NEW_PEER);
    PresharedKeyField(p.presharedKey, p1);
    EndpointField(p.endpoint, p2);
    AllowedIpsField(p.allowedIps, p3);
    KeepaliveField(p.keepalive, p4);
    PeerChain([Field("PublicKey", p.publicKey)], OptionalField("PresharedKey", p.presharedKey),
              OptionalField("Endpoint", p.endpoint), ListField("AllowedIPs", p.allowedIps),
              [Field("PersistentKeepalive", Decimal(p.keepalive))], NEW_PEER, p1, p2, p3, p4, p);
  }

  // ----- the fields of the interface -----

  lemma PrivateKeyField(key: string, c: WgConfig)
    requires CleanValue(key)
    ensures ApplyToInterface(c, [Field("PrivateKey", key)]) == Some(c.(privateKey := key))
    ensures GoodFields([Field("PrivateKey", key)])
  {
    ApplyOneInterface(c, Field("PrivateKey", key));
  }

  lemma ListenPortKey()
    ensures GoodKey("ListenPort")
  {
  }

  lemma ListenPortLine(c: WgConfig, value: string, n: nat)
    requires ParseNumber(value, U16_MAX) == Some(n)
    ensures InterfaceLine(c, "ListenPort", value) == Some(c.(listenPort := n))
  {
  }

  lemma FwMarkLine(c: WgConfig, value: string, n: nat)
    requires ParseNumber(value, U32_MAX) == Some(n)
    ensures InterfaceLine(c, "FwMark", value) == Some(c.(fwmark := n))
  {
  }

  lemma ListenPortField(n: nat, c: WgConfig)
    requires n <= U16_MAX
    ensures ApplyToInterface(c, [Field("ListenPort", Decimal(n))]) == Some(c.(listenPort := n))
    ensures GoodFields([Field("ListenPort", Decimal(n))])
  {
    NumberRoundTrip(n, U16_MAX);
    ListenPortKey();
    ListenPortLine(c, Trim(Decimal(n)), n);
    ApplyOneInterface(c, Field("ListenPort", Decimal(n)));
  }

  lemma AddressField(items: seq<string>, c: WgConfig)
    requires c.addresses == [] && CleanItems(items)
    ensures ApplyToInterface(c, ListField("Address", items)) == Some(c.(addresses := items))
    ensures GoodFields(ListField("Address", items))
  {
    if items != [] {
      ListIsWritable(items);
      ApplyOneInterface(c, Field("Address", Join(items, ", ")));
      assert c.addresses + items == items;
    }
  }

  lemma DnsField(items: seq<string>, c: WgConfig)
    requires c.dnsServers == [] && CleanItems(items)
    ensures ApplyToInterface(c, ListField("DNS", items)) == Some(c.(dnsServers := items))
    ensures GoodFields(ListField("DNS", items))
  {
    if items != [] {
      ListIsWritable(items);
      ApplyOneInterface(c, Field("DNS", Join(items, ", ")));
      assert c.dnsServers + items == items;
    }
  }

  lemma FwMarkField(n: nat, c: WgConfig)
    requires n <= U32_MAX
    ensures ApplyToInterface(c, [Field("FwMark", Decimal(n))]) == Some(c.(fwmark := n))
    ensures GoodFields([Field("FwMark", Decimal(n))])
  {
    NumberRoundTrip(n, U32_MAX);
    FwMarkLine(c, Trim(Decimal(n)), n);
    ApplyOneInterface(c, Field("FwMark", Decimal(n)));
  }

  lemma InterfaceChain(
    a: seq<Field>, b: seq<Field>, c: seq<Field>, d: seq<Field>, e: seq<Field>,
    w0: WgConfig, w1: WgConfig, w2: WgConfig, w3: WgConfig, w4: WgConfig, w5: WgConfig)
    requires ApplyToInterface(w0, a) == Some(w1) && ApplyToInterface(w1, b) == Some(w2)
    requires ApplyToInterface(w2, c) == Some(w3) && ApplyToInterface(w3, d) == Some(w4)
    requires ApplyToInterface(w4, e) == Some(w5)
    requires GoodFields(a) && GoodFields(b) && GoodFields(c) && GoodFields(d) && GoodFields(e)
    ensures ApplyToInterface(w0, a + b + c + d + e) == Some(w5)
    ensures GoodFields(a + b + c + d + e)
  {
    ApplyAppendInterface(w0, a, b);
    ApplyAppendInterface(w0, a + b, c);
    ApplyAppendInterface(w0, a + b + c, d);
    ApplyAppendInterface(w0, a + b + c + d, e);
    GoodChain(a, b, c, d, e);
  }

  lemma InterfaceFieldsApply(c: WgConfig)
    requires CleanInterface(c)
    ensures ApplyToInterface(NEW_CONFIG, InterfaceFields(c)) == Some(c.(peers := []))
    ensures GoodFields(InterfaceFields(c))
  {
    var c1 := NEW_CONFIG.(privateKey := c.privateKey);
    var c2 := c1.(listenPort := c.listenPort);
    var c3 := c2.(addresses := c.addresses);
    var c4 := c3.(dnsServers := c.dnsServers);
    PrivateKeyField(c.privateKey, NEW_CONFIG);
    ListenPortField(c.listenPort, c1);
    AddressField(c.addresses, c2);
    DnsField(c.dnsServers, c3);
    FwMarkField(c.fwmark, c4);
    InterfaceChain([Field("PrivateKey", c.privateKey)], [Field("ListenPort", Decimal(c.listenPort))],
                   ListField("Address", c.addresses), ListField("DNS", c.dnsServers),
                   [Field("FwMark", Decimal(c.fwmark))], NEW_CONFIG, c1, c2, c3, c4, c.(peers := []));
  }

  // ----- reading a whole configuration -----

  /** Reading a first part and then a second, when the first is read without error. */
  lemma Then(a: seq<string>, b: seq<string>, st: State, mid: State)
    requires Coherent(st) && Coherent(mid) && ReadLines(a, st) == Ok(mid)
    ensures ReadLines(a + b, st) == ReadLines(b, mid)
  {
    ReadAppend(a, b, st);
  }

  /** The rendered lines of a peer open it and fill it in. */
  lemma ReadPeer(p: Peer, st: State)
    requires CleanPeer(p) && Coherent(st)
    ensures ReadLines([Header("Peer")] + FieldLines(PeerFields(p)), st) ==
            Ok(State(Flushed(st), InPeer, Some(p)))
  {
    var open := State(Flushed(st), InPeer, Some(NEW_PEER));
    ReadHeader("Peer", st);
    Then([Header("Peer")], FieldLines(PeerFields(p)), st, open);
    PeerFieldsApply(p);
    ReadPeerFields(PeerFields(p), Flushed(st), NEW_PEER);
  }

  function Adding(c: WgConfig, ps: seq<Peer>): WgConfig {
    c.(peers := c.peers + ps)
  }

  lemma AddingOneMore(st: State, ps: seq<Peer>)
    requires ps != []
    ensures Adding(Flushed(State(Flushed(st), InPeer, Some(ps[0]))), ps[1..]) == Adding(Flushed(st), ps)
  {
    assert Flushed(st).peers + [ps[0]] + ps[1..] == Flushed(st).peers + ps;
  }

  lemma {:induction false} ReadPeers(ps: seq<Peer>, st: State)
    requires CleanPeers(ps) && Coherent(st)
    ensures ReadLines(PeersLines(ps), st).Ok?
    ensures Flushed(ReadLines(PeersLines(ps), st).value) == Adding(Flushed(st), ps)
    decreases |ps|
  {
    if ps == [] {
      assert Flushed(st).peers + ps == Flushed(st).peers;
      assert PeersLines(ps) == [];
    } else {
      assert ps[0] in ps && forall p | p in ps[1..] :: p in ps;
      var mid := State(Flushed(st), InPeer, Some(ps[0]));
      ReadPeer(ps[0], st);
      Then([Header("Peer")] + FieldLines(PeerFields(ps[0])), PeersLines(ps[1..]), st, mid);
      AddingOneMore(st, ps);
      ReadPeers(ps[1..], mid);
    }
  }

  lemma ReadInterface(c: WgConfig)
    requires CleanInterface(c)
    ensures ReadLines([Header("Interface")] + FieldLines(InterfaceFields(c)), START) ==
            Ok(State(c.(peers := []), InInterface, None))
  {
    ReadHeader("Interface", START);
    Then([Header("Interface")], FieldLines(InterfaceFields(c)), START, State(NEW_CONFIG, InInterface, None));
    InterfaceFieldsApply(c);
    ReadInterfaceFields(InterfaceFields(c), NEW_CONFIG);
  }

  lemma ReadConfig(c: WgConfig)
    requires Clean(c)
    ensures Parsed(ConfigLines(c)) == Ok(c)
  {
    var mid := State(c.(peers := []), InInterface, None);
    ReadInterface(c);
    Then([Header("Interface")] + FieldLines(InterfaceFields(c)), PeersLines(c.peers), START, mid);
    ReadPeers(c.peers, mid);
    assert [] + c.peers == c.peers;
  }

  // ----- rendered lines are lines -----

  lemma {:induction false} FieldLinesPlain(fs: seq<Field>)
    requires GoodFields(fs)
    ensures AllPlain(FieldLines(fs))
    decreases |fs|
  {
    if fs == [] {
    } else {
      FieldReads(fs[0]);
      FieldLinesPlain(fs[1..]);
    }
  }

  lemma PlainParts(header: string, fields: seq<string>, rest: seq<string>)
    requires Plain(header) && AllPlain(fields) && AllPlain(rest)
    ensures AllPlain([header] + fields + rest)
  {
  }

  lemma {:induction false} PeersLinesPlain(ps: seq<Peer>)
    requires CleanPeers(ps)
    ensures AllPlain(PeersLines(ps))
    decreases |ps|
  {
    if ps == [] {
    } else {
      assert ps[0] in ps && forall p | p in ps[1..] :: p in ps;
      ReadHeader("Peer", START);
      PeerFieldsApply(ps[0]);
      FieldLinesPlain(PeerFields(ps[0]));
      PeersLinesPlain(ps[1..]);
      PlainParts(Header("Peer"), FieldLines(PeerFields(ps[0])), PeersLines(ps[1..]));
    }
  }

  lemma ConfigLinesPlain(c: WgConfig)
    requires Clean(c)
    ensures AllPlain(ConfigLines(c))
  {
    ReadHeader("Interface", START);
    InterfaceFieldsApply(c);
    FieldLinesPlain(InterfaceFields(c));
    PeersLinesPlain(c.peers);
    PlainParts(Header("Interface"), FieldLines(InterfaceFields(c)), PeersLines(c.peers));
  }

  // ----- whatever is parsed is clean -----

  predicate CleanState(st: State) {
    && CleanInterface(st.config) && CleanPeers(st.config.peers)
    && (st.peer.Some? ==> CleanPeer(st.peer.value))
  }

  lemma TrimmedPartsClean(value: string)
    requires '\n' !in value
    ensures CleanItems(TrimAll(SplitOn(value, ',')))
  {
    var parts := SplitOn(value, ',');
    forall s | s in TrimAll(parts) ensures CleanValue(s) && ',' !in s {
      var i :| 0 <= i < |parts| && TrimAll(parts)[i] == s;
      SplitParts(value, ',', parts[i]);
      TrimWithin(parts[i], '\n');
      TrimWithin(parts[i], ',');
    }
  }

  lemma ValueIsClean(line: string, eq: nat)
    requires '\n' !in line && eq < |line|
    ensures CleanValue(Value(line, eq))
  {
    assert forall c | c in line[eq + 1..] :: c in line;
    TrimWithin(line[eq + 1..], '\n');
  }

  lemma InterfaceLineClean(c: WgConfig, key: string, value: string)
    requires CleanInterface(c) && CleanValue(value) && InterfaceLine(c, key, value).Some?
    ensures CleanInterface(InterfaceLine(c, key, value).value)
    ensures InterfaceLine(c, key, value).value.peers == c.peers
  {
    TrimmedPartsClean(value);
  }

  lemma PeerLineClean(p: Peer, key: string, value: string)
    requires CleanPeer(p) && CleanValue(value) && PeerLine(p, key, value).Some?
    ensures CleanPeer(PeerLine(p, key, value).value)
  {
    TrimmedPartsClean(value);
  }

  lemma ReadLineClean(st: State, raw: string)
    requires Coherent(st) && CleanState(st) && '\n' !in raw
    requires ReadLine(st, raw).Ok?
    ensures CleanState(ReadLine(st, raw).value)
  {
    var line := Trim(raw);
    var eq := Find(line, '=', 0);
    TrimWithin(raw, '\n');
    if !Skipped(line) && !IsHeader(line) {
      var key, value := Key(line, eq.value), Value(line, eq.value);
      ValueIsClean(line, eq.value);
      match st.section
      case InInterface => InterfaceLineClean(st.config, key, value);
      case InPeer => PeerLineClean(st.peer.value, key, value);
      case Outside =>
    }
  }

  lemma {:induction false} ReadLinesClean(lines: seq<string>, st: State)
    requires Coherent(st) && CleanState(st) && forall l | l in lines :: '\n' !in l
    requires ReadLines(lines, st).Ok?
    ensures CleanState(ReadLines(lines, st).value)
    decreases |lines|
  {
    if lines == [] {
    } else {
      assert lines[0] in lines && forall l | l in lines[1..] :: l in lines;
      ReadLineClean(st, lines[0]);
      ReadLinesClean(lines[1..], ReadLine(st, lines[0]).value);
    }
  }

  lemma ParsedIsClean(content: string)
    requires Parsed(Lines(content)).Ok?
    ensures Clean(Parsed(Lines(content)).value)
  {
    ReadLinesClean(Lines(content), START);
  }

  /**
   Parsing the canonical text of a configuration gives that configuration back if and only if
   it has a private key, its values are trimmed and free of line feeds, list items are free
   of commas and numbers fit their fields. Values may be empty and may hold "=".
   */
  lemma RoundTripIff(c: WgConfig)
    ensures Parsed(Lines(Unlines(ConfigLines(c)))) == Ok(c) <==> Clean(c)
  {
    if Clean(c) {
      ConfigLinesPlain(c);
      LinesUnlines(ConfigLines(c));
      ReadConfig(c);
    }
    if Parsed(Lines(Unlines(ConfigLines(c)))).Ok? {
      ParsedIsClean(Unlines(ConfigLines(c)));
    }
  }
}
