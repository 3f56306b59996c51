/**
 Generic netlink family lookup: the request built byte by byte, and the walk over the
 attributes of the reply.
 */
module GenericNetlink {
  import opened Wrappers
  import opened Bytes

  const GENL_ID_CTRL := 0x10

  const CTRL_CMD_GETFAMILY: byte := 3

  const CTRL_ATTR_FAMILY_ID := 1

  const CTRL_ATTR_FAMILY_NAME := 2

  const NLM_F_REQUEST := 1

  const NLMSG_ERROR := 2

  /** Where the attributes start: behind the 16-byte netlink and the 4-byte generic header. */
  const ATTRIBUTES := 20

  datatype Attribute = Attribute(kind: nat, payload: bytes)

  /** The length and the kind fit their 16-bit fields. */
  predicate Encodable(a: Attribute) {
    a.kind < U16_LIMIT && 4 + |a.payload| < U16_LIMIT
  }

  predicate AllEncodable(attrs: seq<Attribute>) {
    attrs == [] || (Encodable(attrs[0]) && AllEncodable(attrs[1..]))
  }

  function AttributeFields(a: Attribute): bytes {
    ToU16(4 + |a.payload|) + ToU16(a.kind) + a.payload
  }

  function AttributeBytes(a: Attribute): bytes {
    Padded(AttributeFields(a))
  }

  lemma AttributeSize(a: Attribute)
    ensures |AttributeBytes(a)| == Align4(4 + |a.payload|)
  {
  }

  function AttributesBytes(attrs: seq<Attribute>): bytes {
    if attrs == [] then [] else AttributeBytes(attrs[0]) + AttributesBytes(attrs[1..])
  }

  // ----- the walk over a reply -----

  function AttrLength(buf: bytes, offset: nat): nat
    requires offset + 4 <= |buf|
  {
    U16(buf[offset], buf[offset + 1])
  }

  function AttrKind(buf: bytes, offset: nat): nat
    requires offset + 4 <= |buf|
  {
    U16(buf[offset + 2], buf[offset + 3])
  }

  /** Every attribute the walk can meet from offset on ends within the n received bytes. */
  predicate AttributesFit(buf: bytes, offset: nat, n: nat)
    requires n <= |buf|
    decreases n - offset
  {
    offset + 4 <= n && AttrLength(buf, offset) >= 4 ==>
      && offset + AttrLength(buf, offset) <= n
      && AttributesFit(buf, offset + Align4(AttrLength(buf, offset)), n)
  }

  /** The family id found from offset on, and the offsets at which an attribute was looked at. */
  function Scan(buf: bytes, offset: nat, n: nat): (Option<nat>, seq<nat>)
    requires n <= |buf| && AttributesFit(buf, offset, n)
    decreases n - offset
  {
    if offset + 4 > n || AttrLength(buf, offset) < 4 then (None, [])
    else if AttrKind(buf, offset) == CTRL_ATTR_FAMILY_ID && AttrLength(buf, offset) >= 6 then
      (Some(U16(buf[offset + 4], buf[offset + 5])), [offset])
    else
      var rest := Scan(buf, offset + Align4(AttrLength(buf, offset)), n);
      (rest.0, [offset] + rest.1)
  }

  datatype Reply = TooShort | Failed(code: int) | UnexpectedAck | Missing | Found(id: nat)

  /** Two's complement reading of the error code field. */
  function SignedU32(b: bytes): int
    requires |b| == 4
  {
    if U32(b) < 0x8000_0000 then U32(b) else U32(b) - U32_LIMIT
  }

  lemma VisitAssoc(a: seq<nat>, x: nat, b: seq<nat>)
    ensures a + ([x] + b) == a + [x] + b
  {
  }

  method ParseFamilyReply(buf: array<byte>, n: nat) returns (reply: Reply, ghost visited: seq<nat>)
    requires n <= buf.Length
    requires n >= 20 && U16(buf[4], buf[5]) != 2 ==> AttributesFit(buf[..], 20, n)
    ensures reply.TooShort? <==> n < 20
    ensures reply.Failed? || reply.UnexpectedAck? <==> n >= 20 && U16(buf[4], buf[5]) == 2
    ensures reply.Failed? <==>
              n >= 24 && U16(buf[4], buf[5]) == 2 && SignedU32(buf[16..20]) != 0
    ensures reply.Failed? ==> reply.code == SignedU32(buf[16..20])
    ensures reply.Found? || reply.Missing? <==> n >= 20 && U16(buf[4], buf[5]) != 2
    ensures reply.Found? || reply.Missing? ==>
              (if reply.Found? then Some(reply.id) else None, visited) == Scan(buf[..], 20, n)
  {
    visited := [];
    if n < 20 {
      return TooShort, [];
    }
    var kind := U16(buf[4], buf[5]);
    if kind == NLMSG_ERROR {
      if n >= 24 {
        var code := SignedU32(buf[16..20]);
        if code != 0 {
          return Failed(code), [];
        }
      }
      return UnexpectedAck, [];
    }
    var offset := ATTRIBUTES;
    assert visited + Scan(buf[..], offset, n).1 == Scan(buf[..], offset, n).1;
    while offset + 4 <= n
      invariant AttributesFit(buf[..], offset, n)
      invariant Scan(buf[..], ATTRIBUTES, n) ==
                (Scan(buf[..], offset, n).0, visited + Scan(buf[..], offset, n).1)
      decreases n - offset
    {
      var attrLen := U16(buf[offset], buf[offset + 1]);
      var attrKind := U16(buf[offset + 2], buf[offset + 3]);
      if attrLen < 4 {
        break;
      }
      ghost var before := visited;
      visited := visited + [offset];
      if attrKind == CTRL_ATTR_FAMILY_ID && attrLen >= 6 {
        return Found(U16(buf[offset + 4], buf[offset + 5])), visited;
      }
      VisitAssoc(before, offset, Scan(buf[..], offset + Align4(attrLen), n).1);
      offset := offset + Align4(attrLen);
    }
    assert visited + [] == visited;
    return Missing, visited;
  }

  // ----- the walk over encoded attributes -----

  predicate IsFamilyId(a: Attribute) {
    a.kind == CTRL_ATTR_FAMILY_ID && |a.payload| >= 2
  }

  /** The id carried by the first FAMILY_ID attribute long enough to hold one. */
  function FirstFamilyId(attrs: seq<Attribute>): Option<nat> {
    if attrs == [] then None
    else if IsFamilyId(attrs[0]) then Some(U16(attrs[0].payload[0], attrs[0].payload[1]))
    else FirstFamilyId(attrs[1..])
  }

  /** Where the attributes start, up to and including the first FAMILY_ID. */
  function Boundaries(attrs: seq<Attribute>, offset: nat): seq<nat> {
    if attrs == [] then []
    else if IsFamilyId(attrs[0]) then [offset]
    else [offset] + Boundaries(attrs[1..], offset + Align4(4 + |attrs[0].payload|))
  }

  /** The fields of a stand at offset. */
  ghost predicate Holds(buf: bytes, offset: nat, a: Attribute) {
    && offset + 4 + |a.payload| <= |buf|
    && AttrLength(buf, offset) == 4 + |a.payload|
    && AttrKind(buf, offset) == a.kind
    && buf[offset + 4..offset + 4 + |a.payload|] == a.payload
  }

  lemma LowBitsAt(buf: bytes, offset: nat, n: nat)
    requires At(buf, offset, ToU16(n))
    ensures offset + 2 <= |buf| && U16(buf[offset], buf[offset + 1]) == n % U16_LIMIT
  {
    assert buf[offset] == buf[offset..offset + 2][0] && buf[offset + 1] == buf[offset..offset + 2][1];
    U16RoundTrip(n);
  }

  lemma FieldsHold(buf: bytes, offset: nat, length: nat, kind: nat, payload: bytes)
    requires length < U16_LIMIT && kind < U16_LIMIT && length == 4 + |payload|
    requires At(buf, offset, ToU16(length) + ToU16(kind) + payload)
    ensures Holds(buf, offset, Attribute(kind, payload))
  {
    AtFirst(buf, offset, ToU16(length) + ToU16(kind), payload);
    AtFirst(buf, offset, ToU16(length), ToU16(kind));
    LowBitsAt(buf, offset, length);
    LowBitsAt(buf, offset + 2, kind);
  }

  lemma AttributeHolds(buf: bytes, offset: nat, a: Attribute)
    requires Encodable(a) && At(buf, offset, AttributeBytes(a))
    ensures Holds(buf, offset, a)
  {
    var fields := AttributeFields(a);
    AtFirst(buf, offset, fields, Zeros(Align4(|fields|) - |fields|));
    FieldsHold(buf, offset, 4 + |a.payload|, a.kind, a.payload);
  }

  /** The attributes stand one behind the other, padded, from offset up to end. */
  ghost predicate Stand(buf: bytes, offset: nat, attrs: seq<Attribute>, end: nat)
    decreases |attrs|
  {
    if attrs == [] then offset == end
    else
      && Holds(buf, offset, attrs[0])
      && offset + Align4(4 + |attrs[0].payload|) <= end
      && Stand(buf, offset + Align4(4 + |attrs[0].payload|), attrs[1..], end)
  }

  lemma EncodedAt(buf: bytes, offset: nat, attrs: seq<Attribute>)
    requires attrs != [] && Encodable(attrs[0]) && At(buf, offset, AttributesBytes(attrs))
    ensures Holds(buf, offset, attrs[0])
    ensures At(buf, offset + Align4(4 + |attrs[0].payload|), AttributesBytes(attrs[1..]))
    ensures |AttributesBytes(attrs)| == Align4(4 + |attrs[0].payload|) + |AttributesBytes(attrs[1..])|
  {
    AttributeSize(attrs[0]);
    AtFirst(buf, offset, AttributeBytes(attrs[0]), AttributesBytes(attrs[1..]));
    AttributeHolds(buf, offset, attrs[0]);
  }

  lemma StandMore(buf: bytes, offset: nat, attrs: seq<Attribute>, next: nat, end: nat)
    requires attrs != [] && Holds(buf, offset, attrs[0])
    requires next == offset + Align4(4 + |attrs[0].payload|) <= end && Stand(buf, next, attrs[1..], end)
    ensures Stand(buf, offset, attrs, end)
  {
  }

  lemma {:induction false} EncodedStand(buf: bytes, offset: nat, attrs: seq<Attribute>, end: nat)
    requires AllEncodable(attrs)
    requires At(buf, offset, AttributesBytes(attrs)) && end == offset + |AttributesBytes(attrs)|
    ensures Stand(buf, offset, attrs, end)
    decreases |attrs|
  {
    if attrs == [] {
    } else {
      EncodedAt(buf, offset, attrs);
      var next := offset + Align4(4 + |attrs[0].payload|);
      assert next + |AttributesBytes(attrs[1..])| == end;
      EncodedStand(buf, next, attrs[1..], end);
      StandMore(buf, offset, attrs, next, end);
    }
  }

  lemma ScanFound(buf: bytes, offset: nat, a: Attribute, n: nat)
    requires Holds(buf, offset, a) && n <= |buf| && AttributesFit(buf, offset, n)
    requires offset + Align4(4 + |a.payload|) <= n && IsFamilyId(a)
    ensures Scan(buf, offset, n) == (Some(U16(a.payload[0], a.payload[1])), [offset])
  {
    var payload := buf[offset + 4..offset + 4 + |a.payload|];
    assert buf[offset + 4] == payload[0] && buf[offset + 5] == payload[1];
  }

  lemma {:induction false} ScanOver(buf: bytes, offset: nat, attrs: seq<Attribute>, end: nat, n: nat)
    requires end <= n <= |buf| && Stand(buf, offset, attrs, end)
    requires end + 4 > n || AttrLength(buf, end) < 4
    ensures AttributesFit(buf, offset, n)
    ensures Scan(buf, offset, n) == (FirstFamilyId(attrs), Boundaries(attrs, offset))
    decreases |attrs|
  {
    if attrs == [] {
    } else {
      ScanOver(buf, offset + Align4(4 + |attrs[0].payload|), attrs[1..], end, n);
      if IsFamilyId(attrs[0]) {
        ScanFound(buf, offset, attrs[0], n);
      }
    }
  }

  /**
   Walking encoded attributes: all of them fit, the offsets visited are the attribute
   boundaries in order, each once, and the result is the first FAMILY_ID.
   */
  lemma ScanEncoded(buf: bytes, offset: nat, attrs: seq<Attribute>, n: nat)
    requires AllEncodable(attrs)
    requires At(buf, offset, AttributesBytes(attrs)) && offset + |AttributesBytes(attrs)| <= n <= |buf|
    requires var end := offset + |AttributesBytes(attrs)|;
             end + 4 > n || AttrLength(buf, end) < 4
    ensures AttributesFit(buf, offset, n)
    ensures Scan(buf, offset, n) == (FirstFamilyId(attrs), Boundaries(attrs, offset))
  {
    var end := offset + |AttributesBytes(attrs)|;
    EncodedStand(buf, offset, attrs, end);
    ScanOver(buf, offset, attrs, end, n);
  }

  predicate CarriesId(a: Attribute) {
    a.kind == 1 && |a.payload| >= 2
  }

  /** The result is the number in the first attribute of kind 1 with at least two bytes of payload. */
  lemma {:induction false} FirstFamilyIs(attrs: seq<Attribute>, k: nat)
    requires k <= |attrs| && forall j | 0 <= j < k :: !CarriesId(attrs[j])
    ensures k == |attrs| ==> FirstFamilyId(attrs) == None
    ensures k < |attrs| && CarriesId(attrs[k]) ==>
              FirstFamilyId(attrs) == Some((attrs[k].payload[0] as int) + 256 * (attrs[k].payload[1] as int))
    decreases k
  {
    if k == 0 {
    } else {
      assert !CarriesId(attrs[0]);
      assert forall j | 0 <= j < k - 1 :: attrs[1..][j] == attrs[j + 1];
      FirstFamilyIs(attrs[1..], k - 1);
    }
  }

  /** The k-th offset visited is where the encoding of the k-th attribute begins. */
  lemma {:induction false} BoundaryAt(attrs: seq<Attribute>, offset: nat, k: nat)
    requires k < |Boundaries(attrs, offset)|
    ensures k < |attrs| && Boundaries(attrs, offset)[k] == offset + |AttributesBytes(attrs[..k])|
    ensures forall j | 0 <= j < k :: !CarriesId(attrs[j])
    decreases k
  {
    if k == 0 {
      assert attrs[..0] == [];
    } else {
      BoundaryAt(attrs[1..], offset + Align4(4 + |attrs[0].payload|), k - 1);
      AttributeSize(attrs[0]);
      assert attrs[..k][1..] == attrs[1..][..k - 1];
      forall j | 0 <= j < k ensures !CarriesId(attrs[j]) {
        assert j > 0 ==> attrs[j] == attrs[1..][j - 1];
      }
    }
  }

  /** An attribute is its length with the header, its kind, its payload and zeros up to a multiple of four. */
  lemma AttributeLayout(a: Attribute)
    requires a.kind < 0x1_0000 && 4 + |a.payload| < 0x1_0000
    ensures var b := AttributeBytes(a);
            && |b| == Align4(4 + |a.payload|)
            && (b[0] as int) + 256 * (b[1] as int) == 4 + |a.payload|
            && (b[2] as int) + 256 * (b[3] as int) == a.kind
            && b[4..4 + |a.payload|] == a.payload
            && forall i | 4 + |a.payload| <= i < |b| :: b[i] == 0
  {
    AttributeSize(a);
    var b := AttributeBytes(a);
    assert At(b, 0, b);
    AttributeHolds(b, 0, a);
    assert b[0 + 4..0 + 4 + |a.payload|] == a.payload;
  }

  /** The code of an error reply is a signed 32-bit number in two's complement. */
  lemma CodeIsTwosComplement(v: int)
    requires -0x8000_0000 <= v < 0x8000_0000
    ensures SignedU32(ToU32(if v < 0 then v + 0x1_0000_0000 else v)) == v
  {
    U32RoundTrip(if v < 0 then v + 0x1_0000_0000 else v);
  }

  lemma {:induction false} BoundariesAdvance(attrs: seq<Attribute>, offset: nat)
    ensures forall i | 0 <= i < |Boundaries(attrs, offset)| :: Boundaries(attrs, offset)[i] >= offset
    ensures forall i, j | 0 <= i < j < |Boundaries(attrs, offset)| ::
              Boundaries(attrs, offset)[i] + 4 <= Boundaries(attrs, offset)[j]
    decreases |attrs|
  {
    var b := Boundaries(attrs, offset);
    if attrs == [] {
      assert b == [];
    } else if IsFamilyId(attrs[0]) {
      assert b == [offset];
    } else {
      var size := Align4(4 + |attrs[0].payload|);
      var rest := Boundaries(attrs[1..], offset + size);
      BoundariesAdvance(attrs[1..], offset + size);
      assert size >= 4 && b == [offset] + rest;
      forall i | 1 <= i < |b| ensures b[i] == rest[i - 1] >= offset + 4 {
      }
    }
  }

  // ----- the request -----

  function HeaderBytes(total: nat, seqNo: nat): (h: bytes)
    ensures |h| == ATTRIBUTES
  {
    ToU32(total) + ToU16(GENL_ID_CTRL) + ToU16(NLM_F_REQUEST) + ToU32(seqNo) + Zeros(4)
    + [CTRL_CMD_GETFAMILY, 1] + Zeros(2)
  }

  /** The bytes of a GETFAMILY request; both length fields keep only their low bits. */
  function GetFamilyBytes(name: bytes, seqNo: nat): bytes {
    var attribute := AttributeBytes(Attribute(CTRL_ATTR_FAMILY_NAME, name + [0]));
    HeaderBytes(ATTRIBUTES + |attribute|, seqNo) + attribute
  }

  function Spliced(buf: bytes, at: nat, src: bytes): (r: bytes)
    requires at + |src| <= |buf|
    ensures |r| == |buf|
  {
    buf[..at] + src + buf[at + |src|..]
  }

  method CopyInto(buf: array<byte>, at: nat, src: bytes)
    requires at + |src| <= buf.Length
    modifies buf
    ensures buf[..] == Spliced(old(buf[..]), at, src)
  {
    for i := 0 to |src|
      invariant forall j | 0 <= j < i :: buf[at + j] == src[j]
      invariant forall j | 0 <= j < at || at + i <= j < buf.Length :: buf[j] == old(buf[j])
    {
      buf[at + i] := src[i];
    }
  }

  /** A buffer that starts with done and is still zero behind it. */
  ghost predicate Filled(buf: bytes, done: bytes) {
    |done| <= |buf| && buf == done + Zeros(|buf| - |done|)
  }

  lemma FilledFurther(buf: bytes, done: bytes, src: bytes)
    requires Filled(buf, done) && |done| + |src| <= |buf|
    ensures Filled(Spliced(buf, |done|, src), done + src)
  {
    var rest := Zeros(|buf| - |done|);
    assert buf[..|done|] == done;
    assert buf[|done| + |src|..] == rest[|src|..];
    assert rest[|src|..] == Zeros(|buf| - |done| - |src|);
    assert done + src + rest[|src|..] == (done + src) + rest[|src|..];
  }

  lemma FilledWithZeros(buf: bytes, done: bytes, gap: nat)
    requires Filled(buf, done) && |done| + gap <= |buf|
    ensures Filled(buf, done + Zeros(gap))
  {
    assert Zeros(|buf| - |done|) == Zeros(gap) + Zeros(|buf| - |done| - gap);
    assert done + (Zeros(gap) + Zeros(|buf| - |done| - gap)) == (done + Zeros(gap)) + Zeros(|buf| - |done| - gap);
  }

  /** Copies src behind what has been written so far. */
  method Fill(buf: array<byte>, at: nat, src: bytes, ghost done: bytes) returns (ghost further: bytes)
    requires Filled(buf[..], done) && at == |done| && at + |src| <= buf.Length
    modifies buf
    ensures further == done + src
    ensures Filled(buf[..], further)
  {
    FilledFurther(buf[..], done, src);
    CopyInto(buf, at, src);
    further := done + src;
  }

  method WriteHeader(buf: array<byte>, seqNo: nat)
    requires buf.Length >= ATTRIBUTES && Filled(buf[..], [])
    modifies buf
    ensures Filled(buf[..], HeaderBytes(buf.Length, seqNo))
  {
    ghost var done: bytes := [];
    done := Fill(buf, 0, ToU32(buf.Length), done);
    done := Fill(buf, 4, ToU16(GENL_ID_CTRL), done);
    done := Fill(buf, 6, ToU16(NLM_F_REQUEST), done);
    done := Fill(buf, 8, ToU32(seqNo), done);
    FilledWithZeros(buf[..], done, 4);
    done := done + Zeros(4);
    done := Fill(buf, 16, [CTRL_CMD_GETFAMILY, 1], done);
    FilledWithZeros(buf[..], done, 2);
    assert [] + ToU32(buf.Length) == ToU32(buf.Length);
  }

  lemma Regroup(a: bytes, b: bytes, c: bytes, d: bytes)
    ensures a + b + c + d == a + (b + c + d)
  {
  }

  lemma SpreadPadding(header: bytes, fields: bytes, buf: bytes)
    requires Filled(buf, header + fields) && |buf| == |header| + Align4(|fields|)
    ensures buf == header + Padded(fields)
  {
    var pad := Zeros(Align4(|fields|) - |fields|);
    assert Padded(fields) == fields + pad;
    assert header + fields + pad == header + (fields + pad);
  }

  lemma GetFamilyParts(name: bytes, seqNo: nat, buf: bytes)
    requires |buf| == ATTRIBUTES + Align4(5 + |name|)
    requires Filled(buf, HeaderBytes(|buf|, seqNo) + ToU16(5 + |name|) + ToU16(CTRL_ATTR_FAMILY_NAME) + (name + [0]))
    ensures buf == GetFamilyBytes(name, seqNo)
  {
    var header := HeaderBytes(|buf|, seqNo);
    var fields := AttributeFields(Attribute(CTRL_ATTR_FAMILY_NAME, name + [0]));
    Regroup(header, ToU16(5 + |name|), ToU16(CTRL_ATTR_FAMILY_NAME), name + [0]);
    SpreadPadding(header, fields, buf);
  }

  method EncodeGetFamily(name: bytes, seqNo: nat) returns (buf: array<byte>)
    ensures fresh(buf) && buf[..] == GetFamilyBytes(name, seqNo)
  {
    var payload := name + [0];
    var attrLen := 4 + |payload|;
    var total := 16 + 4 + Align4(attrLen);
    buf := new byte[total](_ => 0);
    assert Filled(buf[..], []);
    WriteHeader(buf, seqNo);
    ghost var done := HeaderBytes(total, seqNo);
    done := Fill(buf, 20, ToU16(attrLen), done);
    done := Fill(buf, 22, ToU16(CTRL_ATTR_FAMILY_NAME), done);
    done := Fill(buf, 24, payload, done);
    GetFamilyParts(name, seqNo, buf[..]);
  }

  /** Where the parts of a request stand. */
  lemma GetFamilyLayout(name: bytes, seqNo: nat)
    ensures var b := GetFamilyBytes(name, seqNo);
            var a := AttributeBytes(Attribute(2, name + [0]));
            && |b| == 20 + |a| && At(b, 20, a)
            && b[..4] == ToU32(|b|) && b[4..6] == ToU16(0x10) && b[6..8] == ToU16(1)
            && b[8..12] == ToU32(seqNo) && b[12..16] == [0, 0, 0, 0]
            && b[16] == 3 && b[17] == 1 && b[18..20] == [0, 0]
  {
  }

  lemma LengthHeld(b: bytes)
    requires 4 <= |b| < U32_LIMIT && b[..4] == ToU32(|b|)
    ensures U32(b[..4]) == |b|
  {
    U32RoundTrip(|b|);
  }

  lemma ScanLast(b: bytes, offset: nat, a: Attribute)
    requires Holds(b, offset, a) && !IsFamilyId(a) && |b| == offset + Align4(4 + |a.payload|)
    ensures AttributesFit(b, offset, |b|) && Scan(b, offset, |b|) == (None, [offset])
  {
    assert [a][1..] == [];
    assert Stand(b, |b|, [a][1..], |b|);
    ScanOver(b, offset, [a], |b|, |b|);
    assert FirstFamilyId([a]) == FirstFamilyId([a][1..]) == None;
    assert Boundaries([a], offset) == [offset] + Boundaries([a][1..], |b|) == [offset] + [] == [offset];
  }

  lemma OneAttribute(b: bytes, a: Attribute)
    requires Encodable(a) && !IsFamilyId(a)
    requires At(b, ATTRIBUTES, AttributeBytes(a)) && |b| == ATTRIBUTES + |AttributeBytes(a)|
    ensures Holds(b, ATTRIBUTES, a)
    ensures AttributesFit(b, ATTRIBUTES, |b|)
    ensures Scan(b, ATTRIBUTES, |b|) == (None, [ATTRIBUTES])
    ensures ATTRIBUTES + Align4(AttrLength(b, ATTRIBUTES)) == |b|
  {
    AttributeHolds(b, ATTRIBUTES, a);
    AttributeSize(a);
    ScanLast(b, ATTRIBUTES, a);
  }

  /**
   The request holds exactly one attribute, the name with its terminator, which ends exactly
   where the length field of the message says the message ends.
   */
  lemma GetFamilyIsOneAttribute(name: bytes, seqNo: nat)
    requires Encodable(Attribute(CTRL_ATTR_FAMILY_NAME, name + [0]))
    ensures var b := GetFamilyBytes(name, seqNo);
            && U32(b[..4]) == |b|
            && AttributesFit(b, ATTRIBUTES, |b|)
            && Scan(b, ATTRIBUTES, |b|) == (None, [ATTRIBUTES])
            && Holds(b, ATTRIBUTES, Attribute(CTRL_ATTR_FAMILY_NAME, name + [0]))
            && ATTRIBUTES + Align4(AttrLength(b, ATTRIBUTES)) == |b|
  {
    var a := Attribute(CTRL_ATTR_FAMILY_NAME, name + [0]);
    GetFamilyLayout(name, seqNo);
    AttributeSize(a);
    OneAttribute(GetFamilyBytes(name, seqNo), a);
    LengthHeld(GetFamilyBytes(name, seqNo));
  }

  lemma LengthFieldAt(b: bytes, offset: nat, a: Attribute)
    requires At(b, offset, AttributeBytes(a))
    ensures offset + 4 <= |b| && AttrLength(b, offset) == (4 + |a.payload|) % U16_LIMIT
  {
    var fields := AttributeFields(a);
    AtFirst(b, offset, fields, Zeros(Align4(|fields|) - |fields|));
    AtFirst(b, offset, ToU16(4 + |a.payload|) + ToU16(a.kind), a.payload);
    AtFirst(b, offset, ToU16(4 + |a.payload|), ToU16(a.kind));
    LowBitsAt(b, offset, 4 + |a.payload|);
  }

  /** The attribute length field is right exactly for names that leave room for it. */
  lemma NameLengthFieldIff(name: bytes, seqNo: nat)
    ensures var b := GetFamilyBytes(name, seqNo);
            AttrLength(b, ATTRIBUTES) == 5 + |name| <==> 5 + |name| < U16_LIMIT
  {
    GetFamilyLayout(name, seqNo);
    LengthFieldAt(GetFamilyBytes(name, seqNo), ATTRIBUTES, Attribute(CTRL_ATTR_FAMILY_NAME, name + [0]));
  }
}
