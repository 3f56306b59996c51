/**
 The receive side of a netlink request: walking the length-prefixed messages of one datagram,
 and collecting the responses spread over several datagrams.
 */
module NetlinkSocket {
  import opened Wrappers
  import opened Bytes

  /** What the typed decoder makes of the bytes of one message. */
  datatype Payload<M> = Done | Ack | Error(code: int) | Data(message: M) | Bad

  datatype BatchEnd = Complete | More | KernelError(code: int) | ParseError

  datatype Batch<M> = Batch(end: BatchEnd, responses: seq<M>)

  datatype RequestError = Kernel(code: int) | Parse | Receive

  const HEADER_LENGTH := 16

  const NLM_F_ACK: bv16 := 0x4

  const NLM_F_DUMP: bv16 := 0x300

  const NLM_F_EXCL: bv16 := 0x200

  const NLM_F_CREATE: bv16 := 0x400

  /** The length field at offset, if there is one and the message it announces fits. */
  function MessageLength(data: bytes, offset: nat): Option<nat> {
    if offset + 4 > |data| then None
    else
      var len := U32(data[offset..offset + 4]);
      if len < HEADER_LENGTH || offset + len > |data| then None else Some(len)
  }

  /** How a message that is not data ends the walk. */
  function Final<M>(p: Payload<M>, acc: seq<M>): Batch<M>
    requires !p.Data?
  {
    match p
    case Done => Batch(Complete, acc)
    case Ack => Batch(Complete, acc)
    case Error(code) => Batch(KernelError(code), acc)
    case Bad => Batch(ParseError, acc)
  }

  /** The walk over one datagram from offset on, appending to acc. */
  function Walk<M>(data: bytes, offset: nat, classify: bytes -> Payload<M>, acc: seq<M>): Batch<M>
    decreases |data| - offset
  {
    var len := MessageLength(data, offset);
    if len.None? then Batch(More, acc)
    else
      var p := classify(data[offset..offset + len.value]);
      if p.Data? then Walk(data, Align4(offset + len.value), classify, acc + [p.message]) else Final(p, acc)
  }

  method ParseResponseBatch<M>(data: bytes, classify: bytes -> Payload<M>, responses: seq<M>)
    returns (batch: Batch<M>)
    ensures batch == Walk(data, 0, classify, responses)
  {
    var offset := 0;
    var collected := responses;
    while offset < |data|
      invariant 0 <= offset
      invariant Walk(data, 0, classify, responses) == Walk(data, offset, classify, collected)
      decreases |data| - offset
    {
      if |data| - offset < 4 {
        break;
      }
      var len := U32(data[offset..offset + 4]);
      if len < HEADER_LENGTH || offset + len > |data| {
        break;
      }
      match classify(data[offset..offset + len]) {
        case Done => return Batch(Complete, collected);
        case Error(code) => return Batch(KernelError(code), collected);
        case Ack => return Batch(Complete, collected);
        case Bad => return Batch(ParseError, collected);
        case Data(m) => collected := collected + [m];
      }
      offset := Align4(offset + len);
    }
    return Batch(More, collected);
  }

  predicate IsDump(flags: bv16) {
    flags & NLM_F_DUMP != 0
  }

  /** The dump test takes any of two bits, so an exclusive create counts as a dump as well. */
  lemma ExclusiveCreateIsDump(flags: bv16)
    ensures IsDump(flags | 0x400 | 0x200 | 0x4)
    ensures IsDump(flags) <==> flags & 0x200 != 0 || flags & 0x100 != 0
  {
  }

  /** The receive loop: datagrams are what the socket hands out; running out of them is an error. */
  function Collected<M>(dump: bool, datagrams: seq<bytes>, classify: bytes -> Payload<M>, acc: seq<M>)
    : Result<seq<M>, RequestError>
    decreases |datagrams|
  {
    if datagrams == [] then Err(Receive)
    else
      var batch := Walk(datagrams[0], 0, classify, acc);
      match batch.end
      case Complete => Ok(batch.responses)
      case KernelError(code) => Err(Kernel(code))
      case ParseError => Err(Parse)
      case More =>
        if !dump && batch.responses != [] then Ok(batch.responses)
        else Collected(dump, datagrams[1..], classify, batch.responses)
  }

  lemma CollectedStep<M>(
    dump: bool, datagrams: seq<bytes>, i: nat, classify: bytes -> Payload<M>, acc: seq<M>)
    requires i < |datagrams|
    ensures var batch := Walk(datagrams[i], 0, classify, acc);
            Collected(dump, datagrams[i..], classify, acc) ==
            match batch.end
            case Complete => Ok(batch.responses)
            case KernelError(code) => Err(Kernel(code))
            case ParseError => Err(Parse)
            case More =>
              if !dump && batch.responses != [] then Ok(batch.responses)
              else Collected(dump, datagrams[i + 1..], classify, batch.responses)
  {
    assert datagrams[i..][0] == datagrams[i];
    assert datagrams[i..][1..] == datagrams[i + 1..];
  }

  class Socket {
    var seqNo: nat

    constructor ()
      ensures seqNo == 1
    {
      seqNo := 1;
    }

    method NextSeq() returns (s: nat)
      requires seqNo < U32_LIMIT
      modifies this
      ensures s == old(seqNo) && seqNo == if s == 0xFFFF_FFFF then 0 else s + 1
    {
      s := seqNo;
      seqNo := (s + 1) % U32_LIMIT;
    }

    method Request<M>(flags: bv16, datagrams: seq<bytes>, classify: bytes -> Payload<M>)
      returns (r: Result<seq<M>, RequestError>)
      requires seqNo < U32_LIMIT
      modifies this
      ensures r == Collected(IsDump(flags), datagrams, classify, [])
      ensures seqNo == if old(seqNo) == 0xFFFF_FFFF then 0 else old(seqNo) + 1
    {
      var s := NextSeq();
      var dump := IsDump(flags);
      var responses: seq<M> := [];
      var received := 0;
      while received < |datagrams|
        invariant 0 <= received <= |datagrams|
        invariant seqNo == if old(seqNo) == 0xFFFF_FFFF then 0 else old(seqNo) + 1
        invariant Collected(dump, datagrams, classify, [])
               == Collected(dump, datagrams[received..], classify, responses)
      {
        CollectedStep(dump, datagrams, received, classify, responses);
        var batch := ParseResponseBatch(datagrams[received], classify, responses);
        responses := batch.responses;
        match batch.end {
          case Complete => return Ok(responses);
          case KernelError(code) => return Err(Kernel(code));
          case ParseError => return Err(Parse);
          case More =>
        }
        if !dump && responses != [] {
          return Ok(responses);
        }
        received := received + 1;
      }
      return Err(Receive);
    }
  }

  // ----- streams of messages -----

  /** A message that starts with its own length, header included. */
  ghost predicate WellFramed(m: bytes) {
    16 <= |m| && U32(m[..4]) == |m|
  }

  ghost predicate AllFramed(ms: seq<bytes>) {
    forall i | 0 <= i < |ms| :: WellFramed(ms[i])
  }

  function Encode(ms: seq<bytes>): bytes {
    if ms == [] then [] else Padded(ms[0]) + Encode(ms[1..])
  }

  /** A datagram holds whole messages, each padded; padding after the last one may be missing. */
  ghost predicate Carries(d: bytes, ms: seq<bytes>) {
    || d == Encode(ms)
    || (ms != [] && d == Encode(ms[..|ms| - 1]) + ms[|ms| - 1])
  }

  /** Reading the messages one by one, without any framing. */
  function Read<M>(ms: seq<bytes>, classify: bytes -> Payload<M>, acc: seq<M>): Batch<M> {
    if ms == [] then Batch(More, acc)
    else
      var p := classify(ms[0]);
      if p.Data? then Read(ms[1..], classify, acc + [p.message]) else Final(p, acc)
  }

  /** A well-framed message is found whole. */
  lemma MessageFound(data: bytes, offset: nat, m: bytes)
    requires WellFramed(m) && At(data, offset, m)
    ensures MessageLength(data, offset) == Some(|m|)
  {
    assert data[offset..offset + 4] == m[..4];
  }

  /** One step of the walk. */
  lemma WalkOne<M>(data: bytes, offset: nat, m: bytes, classify: bytes -> Payload<M>, acc: seq<M>)
    requires MessageLength(data, offset) == Some(|m|) && data[offset..offset + |m|] == m
    ensures Walk(data, offset, classify, acc) ==
            if classify(m).Data? then Walk(data, Align4(offset + |m|), classify, acc + [classify(m).message])
            else Final(classify(m), acc)
  {
  }

  lemma AlignedSum(a: nat, b: nat)
    requires a % 4 == 0
    ensures Align4(a + b) == a + Align4(b)
  {
  }

  lemma EncodedAt(data: bytes, offset: nat, ms: seq<bytes>)
    requires ms != [] && At(data, offset, Encode(ms))
    ensures At(data, offset, ms[0]) && At(data, offset + Align4(|ms[0]|), Encode(ms[1..]))
    ensures |Encode(ms)| == Align4(|ms[0]|) + |Encode(ms[1..])|
  {
    AtFirst(data, offset, Padded(ms[0]), Encode(ms[1..]));
    AtFirst(data, offset, ms[0], Zeros(Align4(|ms[0]|) - |ms[0]|));
  }

  /** The messages ms stand one behind the other in data, padded, from offset up to end. */
  ghost predicate Stand(data: bytes, offset: nat, ms: seq<bytes>, end: nat)
    decreases |ms|
  {
    if ms == [] then offset == end
    else
      At(data, offset, ms[0]) && WellFramed(ms[0]) && Stand(data, Align4(offset + |ms[0]|), ms[1..], end)
  }

  lemma {:induction false} EncodedStand(data: bytes, offset: nat, ms: seq<bytes>)
    requires At(data, offset, Encode(ms)) && AllFramed(ms) && offset % 4 == 0
    ensures Stand(data, offset, ms, offset + |Encode(ms)|)
    decreases |ms|
  {
    if ms == [] {
    } else {
      AlignedSum(offset, |ms[0]|);
      EncodedAt(data, offset, ms);
      EncodedStand(data, offset + Align4(|ms[0]|), ms[1..]);
    }
  }

  /** Walking over messages is reading them, then walking on behind them. */
  lemma {:induction false} WalkOver<M>(
    data: bytes, offset: nat, ms: seq<bytes>, end: nat, classify: bytes -> Payload<M>, acc: seq<M>)
    requires Stand(data, offset, ms, end)
    ensures var batch := Read(ms, classify, acc);
            Walk(data, offset, classify, acc) ==
            if batch.end.More? then Walk(data, end, classify, batch.responses) else batch
    decreases |ms|
  {
    if ms == [] {
    } else {
      var m := ms[0];
      MessageFound(data, offset, m);
      WalkOne(data, offset, m, classify, acc);
      if classify(m).Data? {
        WalkOver(data, Align4(offset + |m|), ms[1..], end, classify, acc + [classify(m).message]);
      }
    }
  }

  lemma WalkEncoded<M>(data: bytes, ms: seq<bytes>, classify: bytes -> Payload<M>, acc: seq<M>)
    requires At(data, 0, Encode(ms)) && AllFramed(ms)
    ensures var batch := Read(ms, classify, acc);
            Walk(data, 0, classify, acc) ==
            if batch.end.More? then Walk(data, |Encode(ms)|, classify, batch.responses) else batch
  {
    EncodedStand(data, 0, ms);
    WalkOver(data, 0, ms, |Encode(ms)|, classify, acc);
  }

  lemma ReadLast<M>(ms: seq<bytes>, classify: bytes -> Payload<M>, acc: seq<M>)
    requires ms != []
    ensures var batch := Read(ms[..|ms| - 1], classify, acc);
            Read(ms, classify, acc) ==
            if batch.end.More? then Read([ms[|ms| - 1]], classify, batch.responses) else batch
    decreases |ms|
  {
    if |ms| == 1 {
      assert ms[..0] == [] && ms == [ms[0]];
    } else {
      assert ms[1..][..|ms| - 2] == ms[..|ms| - 1][1..];
      if classify(ms[0]).Data? {
        ReadLast(ms[1..], classify, acc + [classify(ms[0]).message]);
      }
    }
  }

  /** Nothing is left to walk at or behind the end of the data. */
  lemma WalkPastEnd<M>(data: bytes, offset: nat, classify: bytes -> Payload<M>, acc: seq<M>)
    requires offset >= |data|
    ensures Walk(data, offset, classify, acc) == Batch(More, acc)
  {
  }

  lemma WalkUnpadded<M>(data: bytes, offset: nat, m: bytes, classify: bytes -> Payload<M>, acc: seq<M>)
    requires WellFramed(m) && At(data, offset, m) && offset + |m| == |data|
    ensures Walk(data, offset, classify, acc) == Read([m], classify, acc)
  {
    MessageFound(data, offset, m);
    WalkOne(data, offset, m, classify, acc);
    if classify(m).Data? {
      var more := acc + [classify(m).message];
      WalkPastEnd(data, Align4(offset + |m|), classify, more);
      assert [m][1..] == [];
      assert Read([m], classify, acc) == Read([], classify, more);
    }
  }

  lemma WalkPadded<M>(ms: seq<bytes>, classify: bytes -> Payload<M>, acc: seq<M>)
    requires AllFramed(ms)
    ensures Walk(Encode(ms), 0, classify, acc) == Read(ms, classify, acc)
  {
    assert At(Encode(ms), 0, Encode(ms));
    WalkEncoded(Encode(ms), ms, classify, acc);
    WalkPastEnd(Encode(ms), |Encode(ms)|, classify, Read(ms, classify, acc).responses);
  }

  /** Walking a datagram is reading the messages it carries. */
  lemma WalkIsRead<M>(d: bytes, ms: seq<bytes>, classify: bytes -> Payload<M>, acc: seq<M>)
    requires Carries(d, ms) && AllFramed(ms)
    ensures Walk(d, 0, classify, acc) == Read(ms, classify, acc)
  {
    if d == Encode(ms) {
      WalkPadded(ms, classify, acc);
    } else {
      var front, last := ms[..|ms| - 1], ms[|ms| - 1];
      assert At(d, 0, Encode(front)) && At(d, |Encode(front)|, last);
      WalkEncoded(d, front, classify, acc);
      WalkUnpadded(d, |Encode(front)|, last, classify, Read(front, classify, acc).responses);
      ReadLast(ms, classify, acc);
    }
  }

  // ----- splitting a stream over datagrams -----

  function Flatten(groups: seq<seq<bytes>>): seq<bytes> {
    if groups == [] then [] else groups[0] + Flatten(groups[1..])
  }

  ghost predicate AllCarry(datagrams: seq<bytes>, groups: seq<seq<bytes>>) {
    && |datagrams| == |groups|
    && forall i | 0 <= i < |groups| :: Carries(datagrams[i], groups[i]) && AllFramed(groups[i])
  }

  lemma {:induction false} ReadAppend<M>(
    a: seq<bytes>, b: seq<bytes>, classify: bytes -> Payload<M>, acc: seq<M>)
    ensures var batch := Read(a, classify, acc);
            Read(a + b, classify, acc) ==
            if batch.end.More? then Read(b, classify, batch.responses) else batch
    decreases |a|
  {
    if a == [] {
      assert a + b == b;
    } else {
      assert (a + b)[1..] == a[1..] + b;
      if classify(a[0]).Data? {
        ReadAppend(a[1..], b, classify, acc + [classify(a[0]).message]);
      }
    }
  }

  /** The answer to a dump whose stream of messages reads as batch and then dries up. */
  function Answer<M>(batch: Batch<M>): Result<seq<M>, RequestError> {
    match batch.end
    case Complete => Ok(batch.responses)
    case KernelError(code) => Err(Kernel(code))
    case ParseError => Err(Parse)
    case More => Err(Receive)
  }

  lemma {:induction false} DumpReadsStream<M>(
    datagrams: seq<bytes>, groups: seq<seq<bytes>>, classify: bytes -> Payload<M>, acc: seq<M>)
    requires AllCarry(datagrams, groups)
    ensures Collected(true, datagrams, classify, acc) == Answer(Read(Flatten(groups), classify, acc))
    decreases |groups|
  {
    if groups == [] {
    } else {
      WalkIsRead(datagrams[0], groups[0], classify, acc);
      ReadAppend(groups[0], Flatten(groups[1..]), classify, acc);
      var batch := Read(groups[0], classify, acc);
      if batch.end.More? {
        DumpReadsStream(datagrams[1..], groups[1..], classify, batch.responses);
      }
    }
  }

  /** The answer to a dump does not depend on how its messages are spread over datagrams. */
  lemma SplitInvariance<M>(
    d1: seq<bytes>, g1: seq<seq<bytes>>, d2: seq<bytes>, g2: seq<seq<bytes>>, classify: bytes -> Payload<M>)
    requires AllCarry(d1, g1) && AllCarry(d2, g2)
    requires Flatten(g1) == Flatten(g2)
    ensures Collected(true, d1, classify, []) == Collected(true, d2, classify, [])
  {
    DumpReadsStream(d1, g1, classify, []);
    DumpReadsStream(d2, g2, classify, []);
  }

  ghost predicate AllData<M>(ms: seq<bytes>, classify: bytes -> Payload<M>) {
    forall i | 0 <= i < |ms| :: classify(ms[i]).Data?
  }

  function Messages<M>(ms: seq<bytes>, classify: bytes -> Payload<M>): seq<M>
    requires forall i | 0 <= i < |ms| :: classify(ms[i]).Data?
  {
    seq(|ms|, i requires 0 <= i < |ms| => classify(ms[i]).message)
  }

  lemma {:induction false} ReadData<M>(ms: seq<bytes>, classify: bytes -> Payload<M>, acc: seq<M>)
    requires AllData(ms, classify)
    ensures Read(ms, classify, acc) == Batch(More, acc + Messages(ms, classify))
    decreases |ms|
  {
    if ms != [] {
      assert forall i | 0 <= i < |ms[1..]| :: ms[1..][i] == ms[i + 1];
      ReadData(ms[1..], classify, acc + [classify(ms[0]).message]);
      assert Messages(ms, classify) == [classify(ms[0]).message] + Messages(ms[1..], classify);
      assert acc + [classify(ms[0]).message] + Messages(ms[1..], classify) == acc + Messages(ms, classify);
    } else {
      assert acc + Messages(ms, classify) == acc;
    }
  }

  lemma ReadUpTo<M>(ms: seq<bytes>, k: nat, classify: bytes -> Payload<M>)
    requires k <= |ms| && AllData(ms[..k], classify) && (k < |ms| ==> !classify(ms[k]).Data?)
    ensures Read(ms, classify, []) ==
            if k == |ms| then Batch(More, Messages(ms[..k], classify))
            else Final(classify(ms[k]), Messages(ms[..k], classify))
  {
    assert ms == ms[..k] + ms[k..];
    ReadAppend(ms[..k], ms[k..], classify, []);
    ReadData(ms[..k], classify, []);
    assert [] + Messages(ms[..k], classify) == Messages(ms[..k], classify);
  }

  /**
   A dump returns exactly the data messages before the first message that is not data, in
   order, when that message is an end or an acknowledgement; otherwise it fails, with the
   kernel's code when there is one, and whatever follows is never looked at.
   */
  lemma DumpAnswer<M>(
    datagrams: seq<bytes>, groups: seq<seq<bytes>>, classify: bytes -> Payload<M>, k: nat)
    requires AllCarry(datagrams, groups)
    requires k <= |Flatten(groups)| && AllData(Flatten(groups)[..k], classify)
    requires k < |Flatten(groups)| ==> !classify(Flatten(groups)[k]).Data?
    ensures var stream := Flatten(groups);
            Collected(true, datagrams, classify, []) ==
            if k == |stream| then Err(Receive)
            else match classify(stream[k])
                 case Done => Ok(Messages(stream[..k], classify))
                 case Ack => Ok(Messages(stream[..k], classify))
                 case Error(code) => Err(Kernel(code))
                 case Bad => Err(Parse)
  {
    var stream := Flatten(groups);
    DumpReadsStream(datagrams, groups, classify, []);
    ReadUpTo(stream, k, classify);
  }

  /** Without the dump flag the split matters: the first datagram with data ends the request. */
  lemma SplitMattersWithoutDump<M>(a: bytes, b: bytes, classify: bytes -> Payload<M>)
    requires WellFramed(a) && WellFramed(b) && classify(a).Data? && classify(b).Data?
    ensures Collected(false, [Encode([a]), Encode([b])], classify, []) == Ok([classify(a).message])
    ensures Collected(false, [Encode([a, b])], classify, []) == Ok([classify(a).message, classify(b).message])
  {
    var ma, mb := classify(a).message, classify(b).message;
    WalkIsRead(Encode([a]), [a], classify, []);
    WalkIsRead(Encode([a, b]), [a, b], classify, []);
    ReadData([a], classify, []);
    ReadData([a, b], classify, []);
    assert [] + Messages([a], classify) == [ma];
    assert [] + Messages([a, b], classify) == [ma, mb];
  }

  // ----- one message, field by field -----

  /**
   Any message of at least sixteen bytes that starts with its own length is classified: data
   is collected and the walk goes on at the next multiple of four, anything else ends it.
   */
  lemma FramedIsClassified<M>(data: bytes, offset: nat, m: bytes, classify: bytes -> Payload<M>, acc: seq<M>)
    requires |m| >= 16 && U32(m[..4]) == |m|
    requires offset + |m| <= |data| && data[offset..offset + |m|] == m
    ensures Walk(data, offset, classify, acc) ==
            match classify(m)
            case Done => Batch(Complete, acc)
            case Ack => Batch(Complete, acc)
            case Error(code) => Batch(KernelError(code), acc)
            case Bad => Batch(ParseError, acc)
            case Data(x) => Walk(data, Align4(offset + |m|), classify, acc + [x])
  {
    assert At(data, offset, m);
    MessageFound(data, offset, m);
    WalkOne(data, offset, m, classify, acc);
  }

  /** A length field that is cut off, below sixteen or beyond the data ends the walk without a result. */
  lemma BadLengthEnds<M>(data: bytes, offset: nat, classify: bytes -> Payload<M>, acc: seq<M>)
    requires offset + 4 <= |data| ==>
               U32(data[offset..offset + 4]) < 16 || offset + U32(data[offset..offset + 4]) > |data|
    ensures Walk(data, offset, classify, acc) == Batch(More, acc)
  {
  }

  // ----- requests that are no dump -----

  /**
   A request that is no dump is answered by the first datagram that carries a message: with its
   data, if nothing else follows there or an end or acknowledgement does; with the error that
   follows the data otherwise. Datagrams without messages are passed over; without any
   message the request fails.
   */
  lemma {:induction false} NonDumpAnswer<M>(
    datagrams: seq<bytes>, groups: seq<seq<bytes>>, j: nat, k: nat, classify: bytes -> Payload<M>)
    requires AllCarry(datagrams, groups) && j <= |groups|
    requires forall i | 0 <= i < j :: groups[i] == []
    requires j < |groups| ==> groups[j] != [] && k <= |groups[j]| && AllData(groups[j][..k], classify)
    requires j < |groups| && k < |groups[j]| ==> !classify(groups[j][k]).Data?
    ensures Collected(false, datagrams, classify, []) ==
            if j == |groups| then Err(Receive)
            else if k == |groups[j]| then Ok(Messages(groups[j][..k], classify))
            else match classify(groups[j][k])
                 case Done => Ok(Messages(groups[j][..k], classify))
                 case Ack => Ok(Messages(groups[j][..k], classify))
                 case Error(code) => Err(Kernel(code))
                 case Bad => Err(Parse)
    decreases j
  {
    if groups == [] {
    } else if j == 0 {
      WalkIsRead(datagrams[0], groups[0], classify, []);
      ReadUpTo(groups[0], k, classify);
    } else {
      WalkIsRead(datagrams[0], groups[0], classify, []);
      NonDumpAnswer(datagrams[1..], groups[1..], j - 1, k, classify);
    }
  }

  // ----- when the split matters without the dump flag -----

  /** However the stream is spread over datagrams, a request that is no dump answers the same. */
  ghost predicate SplitFree<M>(stream: seq<bytes>, classify: bytes -> Payload<M>) {
    forall d1, g1, d2, g2 |
      AllCarry(d1, g1) && AllCarry(d2, g2) && Flatten(g1) == stream && Flatten(g2) == stream ::
      Collected(false, d1, classify, []) == Collected(false, d2, classify, [])
  }

  /** No data comes first, or one data message followed by an end, an acknowledgement or nothing. */
  predicate OneAnswer<M>(stream: seq<bytes>, classify: bytes -> Payload<M>) {
    || stream == []
    || !classify(stream[0]).Data?
    || |stream| == 1
    || classify(stream[1]).Done? || classify(stream[1]).Ack?
  }

  /** What a request that is no dump answers on such a stream. */
  function TheAnswer<M>(stream: seq<bytes>, classify: bytes -> Payload<M>): Result<seq<M>, RequestError>
    requires OneAnswer(stream, classify)
  {
    if stream == [] then Err(Receive)
    else if classify(stream[0]).Data? then Ok([classify(stream[0]).message])
    else Answer(Final(classify(stream[0]), []))
  }

  /** Reading the first messages of such a stream, of which there is at least one. */
  lemma ReadFront<M>(first: seq<bytes>, stream: seq<bytes>, classify: bytes -> Payload<M>)
    requires first != [] && first <= stream && OneAnswer(stream, classify)
    ensures var batch := Read(first, classify, []);
            && (batch.end.More? ==> batch.responses != [] && TheAnswer(stream, classify) == Ok(batch.responses))
            && (!batch.end.More? ==> TheAnswer(stream, classify) == Answer(batch))
  {
    var p := classify(first[0]);
    if p.Data? {
      assert [] + [p.message] == [p.message];
      assert Read(first, classify, []) == Read(first[1..], classify, [p.message]);
      if |first| > 1 {
        assert first[1..][0] == first[1] == stream[1];
      }
    }
  }

  lemma {:induction false} AnswerOf<M>(datagrams: seq<bytes>, groups: seq<seq<bytes>>, classify: bytes -> Payload<M>)
    requires AllCarry(datagrams, groups) && OneAnswer(Flatten(groups), classify)
    ensures Collected(false, datagrams, classify, []) == TheAnswer(Flatten(groups), classify)
    decreases |groups|
  {
    if groups == [] {
    } else {
      var first, stream := groups[0], Flatten(groups);
      assert stream == first + Flatten(groups[1..]);
      WalkIsRead(datagrams[0], first, classify, []);
      if first == [] {
        assert stream == Flatten(groups[1..]);
        AnswerOf(datagrams[1..], groups[1..], classify);
      } else {
        ReadFront(first, stream, classify);
      }
    }
  }

  lemma {:induction false} ReadKeeps<M>(ms: seq<bytes>, classify: bytes -> Payload<M>, acc: seq<M>)
    ensures |Read(ms, classify, acc).responses| >= |acc|
    decreases |ms|
  {
    if ms == [] {
    } else if classify(ms[0]).Data? {
      ReadKeeps(ms[1..], classify, acc + [classify(ms[0]).message]);
    }
  }

  lemma FlattenOne(ms: seq<bytes>)
    ensures Flatten([ms]) == ms
  {
    assert [ms][1..] == [];
    assert Flatten([ms]) == ms + Flatten([]);
  }

  /** A stream as one datagram, and with its first message in a datagram of its own. */
  lemma TwoSplits(stream: seq<bytes>)
    requires AllFramed(stream) && stream != []
    ensures AllCarry([Encode(stream)], [stream])
    ensures AllCarry([Encode(stream[..1]), Encode(stream[1..])], [stream[..1], stream[1..]])
    ensures Flatten([stream]) == stream && Flatten([stream[..1], stream[1..]]) == stream
  {
    FlattenOne(stream);
    FlattenOne(stream[1..]);
    assert [stream[..1], stream[1..]][1..] == [stream[1..]];
    assert stream[..1] + stream[1..] == stream;
  }

  lemma PartedAnswer<M>(stream: seq<bytes>, classify: bytes -> Payload<M>)
    requires AllFramed(stream) && stream != [] && classify(stream[0]).Data?
    ensures Collected(false, [Encode(stream[..1]), Encode(stream[1..])], classify, [])
         == Ok([classify(stream[0]).message])
  {
    WalkIsRead(Encode(stream[..1]), stream[..1], classify, []);
    ReadData(stream[..1], classify, []);
    assert [] + Messages(stream[..1], classify) == [classify(stream[0]).message];
  }

  lemma WholeAnswer<M>(stream: seq<bytes>, classify: bytes -> Payload<M>)
    requires AllFramed(stream) && !OneAnswer(stream, classify)
    ensures Collected(false, [Encode(stream)], classify, []) != Ok([classify(stream[0]).message])
  {
    WalkIsRead(Encode(stream), stream, classify, []);
    var m, rest := classify(stream[0]).message, stream[1..];
    assert [] + [m] == [m];
    assert Read(stream, classify, []) == Read(rest, classify, [m]);
    assert rest[0] == stream[1];
    if classify(rest[0]).Data? {
      ReadKeeps(rest[1..], classify, [m] + [classify(rest[0]).message]);
    }
  }

  /** Without the dump flag the answer is independent of the split exactly for these streams. */
  lemma SplitFreeIff<M>(stream: seq<bytes>, classify: bytes -> Payload<M>)
    requires AllFramed(stream)
    ensures SplitFree(stream, classify) <==> OneAnswer(stream, classify)
  {
    if OneAnswer(stream, classify) {
      forall d1, g1, d2, g2 |
        AllCarry(d1, g1) && AllCarry(d2, g2) && Flatten(g1) == stream && Flatten(g2) == stream
        ensures Collected(false, d1, classify, []) == Collected(false, d2, classify, [])
      {
        AnswerOf(d1, g1, classify);
        AnswerOf(d2, g2, classify);
      }
    } else {
      TwoSplits(stream);
      PartedAnswer(stream, classify);
      WholeAnswer(stream, classify);
    }
  }
}
