/** Servo/Protocol/ServoStaticProtocol: the packet whose body is a C++ object of fixed size.

The body type is a parameter: its size in memory, its bytes, the object in given bytes, and its
own XOR.  A type is lawful when those fit together as the default implementations
intend.  The decoders here are near-duplicates of those of ServoPacket; this module says how
far the two agree. */
module StaticPacket {
  import opened Bytes
  import opened BufferSearch
  import opened ServoPacket
  import opened ServoFraming

  datatype BodyType<!T> = BodyType(memSize: nat, bytes: T -> seq<byte>, ofBytes: seq<byte> -> T, xor: T -> byte)

  ghost predicate Lawful<T(!new)>(t: BodyType<T>) {
    && (forall x :: |t.bytes(x)| == t.memSize && t.ofBytes(t.bytes(x)) == x && t.xor(x) == XorFold(t.bytes(x)))
    && (forall b :: |b| == t.memSize ==> t.bytes(t.ofBytes(b)) == b)
  }

  datatype StaticPacket<T> = StaticPacket(head: FSNetBufferHead, obj: T, foot: FSNetBufferFoot, sid: int32, ok: bool)

  /** The same packet, its object seen as the bytes it occupies. */
  function Flat<T>(t: BodyType<T>, p: StaticPacket<T>): Packet {
    Packet(p.head, t.bytes(p.obj), p.foot, p.sid, p.ok)
  }

  // ----- specification of the decoders

  function StaticParse<T>(t: BodyType<T>, data: seq<byte>, syncword: int32): (r: Parsed)
    ensures r.Whole? ==> HEAD_SIZE < r.end <= |data|
  {
    ParseAt(data, SyncAt(data, syncword), _ => t.memSize)
  }

  /** With a head in hand, the decoder refuses a body of the wrong size before it reads it. */
  function StaticParseRest<T>(t: BodyType<T>, head: FSNetBufferHead, rest: seq<byte>): Parsed {
    if head.uid != 0 && t.memSize != head.size then NoBody(head) else ParseRest(head, t.memSize, rest)
  }

  function ObjectFold<T>(t: BodyType<T>, head: FSNetBufferHead, obj: T, foot: FSNetBufferFoot): byte {
    if head.uid == 0 then Xor(XorFold(HeadBytes(head)), XorFold(FootBytes(foot)))
    else Xor(Xor(XorFold(HeadBytes(head)), t.xor(obj)), XorFold(FootBytes(foot)))
  }

  /** What decoding does to a packet.  A failure leaves session and verdict as they were. */
  function StaticStep<T>(t: BodyType<T>, was: StaticPacket<T>, syncword: int32, r: Parsed): StaticPacket<T> {
    match r
    case NoHead => was.(head := was.head.(syncword := syncword))
    case NoBody(head) => was.(head := head)
    case NoFoot(head, body) =>
      if head.uid == 0 then was.(head := head, sid := SessionID(head))
      else was.(head := head, obj := t.ofBytes(body))
    case Whole(head, body, foot, _) =>
      var obj := if head.uid == 0 then was.obj else t.ofBytes(body);
      StaticPacket(head, obj, foot, SessionID(head), ObjectFold(t, head, obj, foot) == 0)
  }

  /** ReUse clears session and verdict first. */
  function AfterStaticParse<T>(t: BodyType<T>, was: StaticPacket<T>, syncword: int32, r: Parsed): StaticPacket<T> {
    StaticStep(t, was.(sid := 0, ok := false), syncword, r)
  }

  predicate IsValidStatic<T>(t: BodyType<T>, p: StaticPacket<T>) {
    p.ok && p.head.size == t.memSize
  }

  // ----- the source's own operations

  class TSNetPacket<T> {
    const bodyType: BodyType<T>
    var Head: FSNetBufferHead
    var obj: T
    var Foot: FSNetBufferFoot
    var sid: int32
    var bFastIntegrity: bool

    ghost function View(): StaticPacket<T>
      reads this
    {
      StaticPacket(Head, obj, Foot, sid, bFastIntegrity)
    }

    constructor (bodyType: BodyType<T>, syncword: int32, obj: T)
      ensures this.bodyType == bodyType
      ensures View() == StaticPacket(FSNetBufferHead(syncword, 0, 0, 0, 0, 0), obj, FSNetBufferFoot(0), 0, false)
    {
      this.bodyType := bodyType;
      this.obj := obj;
      Head := FSNetBufferHead(syncword, 0, 0, 0, 0, 0);
      Foot := FSNetBufferFoot(0);
      sid := 0;
      bFastIntegrity := false;
    }

    /** The parsing constructor.  It never initialises the session and the verdict itself, and
        it reports failure as one byte more than there is. */
    static method Construct(bodyType: BodyType<T>, data: seq<byte>, syncword: int32, obj: T)
      returns (p: TSNetPacket<T>, bytesRead: int)
      ensures fresh(p) && p.bodyType == bodyType
      ensures bytesRead == var r := StaticParse(bodyType, data, syncword); if r.Whole? then r.end else |data| + 1
      ensures bytesRead > |data| <==> !StaticParse(bodyType, data, syncword).Whole?
      ensures var blank := FSNetBufferHead(syncword, 0, 0, 0, 0, 0);
              p.View() == StaticStep(bodyType, StaticPacket(blank, obj, FSNetBufferFoot(0), p.sid, p.bFastIntegrity),
                                     syncword, StaticParse(bodyType, data, syncword))
    {
      p := new TSNetPacket(bodyType, syncword, obj);
      p.sid, p.bFastIntegrity := *, *;
      bytesRead := p.Decode(data, syncword, |data| + 1);
    }

    method ReUse(data: seq<byte>, syncword: int32) returns (bytesRead: int)
      modifies this
      ensures View() == AfterStaticParse(bodyType, old(View()), syncword, StaticParse(bodyType, data, syncword))
      ensures bytesRead == BytesReadOf(StaticParse(bodyType, data, syncword), |data|)
    {
      sid := 0;
      bFastIntegrity := false;
      bytesRead := Decode(data, syncword, |data|);
    }

    /** The steps ReUse and the parsing constructor share; `failed` is what they report. */
    method Decode(data: seq<byte>, syncword: int32, failed: int) returns (bytesRead: int)
      modifies this
      ensures View() == StaticStep(bodyType, old(View()), syncword, StaticParse(bodyType, data, syncword))
      ensures bytesRead == var r := StaticParse(bodyType, data, syncword); if r.Whole? then r.end else failed
      ensures !StaticParse(bodyType, data, syncword).Whole? ==>
                Foot == old(Foot) && bFastIntegrity == old(bFastIntegrity) && (Head.uid != 0 ==> sid == old(sid))
    {
      hide SessionID, Xor, XorFold, HeadBytes, ReadHead, FootBytes, ReadFoot;
      Head := Head.(syncword := syncword);
      var index := BufferBufferSyncword(data, Head.syncword);
      if index == -1 {
        return failed;
      }
      if |data| - index < HEAD_SIZE {
        return failed;
      }
      Head := ReadHead(data[index..index + HEAD_SIZE]);
      bytesRead := DecodeRest(data, index + HEAD_SIZE, failed);
    }

    method ReUseWithHead(inHead: FSNetBufferHead, data: seq<byte>) returns (bytesRead: int)
      modifies this
      ensures View() == AfterStaticParse(bodyType, old(View()), inHead.syncword,
                                         StaticParseRest(bodyType, inHead, data))
      ensures bytesRead == BytesReadOf(StaticParseRest(bodyType, inHead, data), |data|)
      ensures inHead.uid != 0 && inHead.size != bodyType.memSize ==>
                && View() == StaticPacket(inHead, old(obj), old(Foot), 0, false)
                && bytesRead == |data|
    {
      sid := 0;
      bFastIntegrity := false;
      Head := inHead;
      // size check
      if Head.uid != 0 && bodyType.memSize != Head.size {
        return |data|;
      }
      assert data[0..] == data;
      bytesRead := DecodeRest(data, 0, |data|);
    }

    /** The steps both decoders take once the head is known. */
    method DecodeRest(data: seq<byte>, start: nat, failed: int) returns (bytesRead: int)
      requires start <= |data|
      modifies this
      ensures View() == StaticStep(bodyType, old(View()), Head.syncword,
                                   ParseRest(old(Head), bodyType.memSize, data[start..]))
      ensures bytesRead == var r := ParseRest(old(Head), bodyType.memSize, data[start..]);
                           if r.Whole? then start + r.end else failed
    {
      hide SessionID, Xor, XorFold, HeadBytes, ReadHead, FootBytes, ReadFoot;
      ghost var rest := data[start..];
      var index := start;
      var fastcode := XorLoop(HeadBytes(Head));
      if Head.uid == 0 {
        sid := SessionID(Head);
      }
      if Head.uid != 0 {
        if |data| - index < bodyType.memSize {
          return failed;
        }
        assert data[index..index + bodyType.memSize] == rest[..bodyType.memSize];
        obj := bodyType.ofBytes(data[index..index + bodyType.memSize]);
        index := index + bodyType.memSize;
        fastcode := Xor(fastcode, bodyType.xor(obj));
      }
      if |data| - index < FOOT_SIZE {
        return failed;
      }
      assert data[index..index + FOOT_SIZE] == rest[index - start..index - start + FOOT_SIZE];
      Foot := ReadFoot(data[index..index + FOOT_SIZE]);
      index := index + FOOT_SIZE;
      var foot := XorLoop(FootBytes(Foot));
      fastcode := Xor(fastcode, foot);
      assert fastcode == ObjectFold(bodyType, Head, obj, Foot);
      bytesRead := index;
      bFastIntegrity := fastcode == 0;
      sid := SessionID(Head);
    }

    method WriteToArray(inBufferArr: seq<byte>) returns (buffer: seq<byte>)
      requires |bodyType.bytes(obj)| == bodyType.memSize
      ensures buffer == Frame(Flat(bodyType, View()))
      ensures FrameLaidOut(Head, if Head.uid == 0 then [] else bodyType.bytes(obj), Foot, buffer)
    {
      hide FrameLaidOut, HeadBytes, FootBytes;
      FrameIsLaidOut(Flat(bodyType, View()));
      var writeSize := HEAD_SIZE + FOOT_SIZE;
      if Head.uid > 0 {
        writeSize := writeSize + bodyType.memSize;
      }
      buffer := Resized(inBufferArr, writeSize, 0);
      buffer := MemCpy(buffer, 0, HeadBytes(Head));
      var bytesWrite := HEAD_SIZE;
      if Head.uid != 0 {
        buffer := MemCpy(buffer, bytesWrite, bodyType.bytes(obj));
        bytesWrite := bytesWrite + bodyType.memSize;
      }
      buffer := MemCpy(buffer, bytesWrite, FootBytes(Foot));
    }
  }

  // ----- the two families of decoders agree

  /** The decoders start from packets that look the same, apart from the body. */
  ghost predicate SameButBody<T>(s: StaticPacket<T>, d: Packet) {
    s.head == d.head && s.foot == d.foot && s.sid == d.sid && s.ok == d.ok
  }

  /** Same result, and the same body wherever a body was read. */
  lemma SameStep<T(!new)>(t: BodyType<T>, s: StaticPacket<T>, d: Packet, syncword: int32, r: Parsed)
    requires Lawful(t)
    requires s.head == d.head && s.foot == d.foot
    requires r.NoFoot? || r.Whole? ==> |r.body| == if r.head.uid == 0 then 0 else t.memSize
    ensures var s', d' := AfterStaticParse(t, s, syncword, r), AfterParse(d, syncword, r);
            && SameButBody(s', d')
            && (t.bytes(s.obj) == d.body ==> t.bytes(s'.obj) == d'.body)
            && ((r.NoFoot? || r.Whole?) && r.head.uid != 0 ==> t.bytes(s'.obj) == d'.body == r.body)
  {
    hide XorFold, HeadBytes, FootBytes;
    if r.Whole? && r.head.uid == 0 {
      assert r.body == [];
    }
  }

  /** What the static decoder does in terms of the bytes alone, on every buffer: its objects seen as
      bytes, and with the object's size in place of the announced one. */
  lemma StaticDecodesByBytes<T(!new)>(t: BodyType<T>, data: seq<byte>, syncword: int32, was: StaticPacket<T>)
    requires Lawful(t)
    ensures var r := StaticParse(t, data, syncword);
            DecodedByBytes(data, syncword, _ => t.memSize, Flat(t, was),
                           Flat(t, AfterStaticParse(t, was, syncword, r)), BytesReadOf(r, |data|))
  {
    hide DecodedByBytes, AfterParse, AfterStaticParse, StaticParse;
    StaticBodyLength(t, data, syncword);
    SameStep(t, was, Flat(t, was), syncword, StaticParse(t, data, syncword));
    StaticParsedByBytes(t, data, syncword, Flat(t, was));
  }

  lemma StaticParsedByBytes<T(!new)>(t: BodyType<T>, data: seq<byte>, syncword: int32, was: Packet)
    ensures var r := StaticParse(t, data, syncword);
            DecodedByBytes(data, syncword, _ => t.memSize, was, AfterParse(was, syncword, r), BytesReadOf(r, |data|))
  {
    hide ParseAt, AfterParse, SyncAt, BytesReadOf;
    ParsedByBytes(data, syncword, _ => t.memSize, was);
  }

  /** The same for the decoder that is given a head of the right size, or one without a body. */
  lemma StaticSplitDecodesByBytes<T(!new)>(t: BodyType<T>, head: FSNetBufferHead, rest: seq<byte>, was: StaticPacket<T>)
    requires Lawful(t)
    requires head.uid == 0 || head.size == t.memSize
    ensures var r := StaticParseRest(t, head, rest);
            var now := Flat(t, AfterStaticParse(t, was, head.syncword, r));
            && now.head == head
            && RestByBytes(rest, 0, t.memSize, Flat(t, was), now, BytesReadOf(r, |rest|))
            && (now.ok <==>
                  var end := (if head.uid == 0 then 0 else t.memSize) + 8;
                  end <= |rest| && XorFold(HeadBytes(head) + rest[..end]) == 0)
  {
    hide AfterParse, AfterStaticParse, RestByBytes, HeadBytes, XorFold, ReadFoot;
    SameStep(t, was, Flat(t, was), head.syncword, StaticParseRest(t, head, rest));
    RestDecodesByBytes(head, t.memSize, rest, head.syncword, Flat(t, was));
  }

  /** Whether both decoders meet the same fate in `available` bytes behind a head: there is no
      body, or the head announces the size of the object, or neither size is there to be read. */
  predicate SizesAgree<T>(t: BodyType<T>, head: FSNetBufferHead, available: nat) {
    || head.uid == 0
    || head.size == t.memSize
    || (!(0 <= head.size <= available) && t.memSize > available)
  }

  /** The same question about a buffer, in which there may not be a head at all. */
  predicate BufferAgrees<T>(t: BodyType<T>, data: seq<byte>, syncword: int32) {
    var at := SyncAt(data, syncword);
    || at == FAIL_CODE
    || |data| - at < HEAD_SIZE
    || SizesAgree(t, ReadHead(data[at..at + HEAD_SIZE]), |data| - at - HEAD_SIZE)
  }

  /** The two ReUse members parse a buffer alike exactly in those cases. */
  lemma StaticParseAgrees<T>(t: BodyType<T>, data: seq<byte>, syncword: int32)
    ensures StaticParse(t, data, syncword) == Parse(data, syncword) <==> BufferAgrees(t, data, syncword)
  {
    hide ReadHead, ReadFoot, FirstOccurrence, SyncAt, ParseRest;
    var at := SyncAt(data, syncword);
    if at != FAIL_CODE && |data| - at >= HEAD_SIZE {
      ParseRestAgrees(t, ReadHead(data[at..at + HEAD_SIZE]), data[at + HEAD_SIZE..]);
    }
  }

  lemma ParseRestAgrees<T>(t: BodyType<T>, head: FSNetBufferHead, rest: seq<byte>)
    ensures ParseRest(head, t.memSize, rest) == ParseRest(head, head.size, rest) <==> SizesAgree(t, head, |rest|)
  {
    hide ReadFoot;
    var fixed, dynamic := ParseRest(head, t.memSize, rest), ParseRest(head, head.size, rest);
    if head.uid != 0 && !fixed.NoBody? && !dynamic.NoBody? {
      assert |fixed.body| == t.memSize && |dynamic.body| == head.size;
    }
  }

  /** Then they do the same on that buffer, failures included. */
  lemma StaticAgreesWithDynamic<T(!new)>(t: BodyType<T>, data: seq<byte>, syncword: int32,
                                         s: StaticPacket<T>, d: Packet)
    requires Lawful(t)
    requires s.head == d.head && s.foot == d.foot
    requires BufferAgrees(t, data, syncword)
    ensures StaticParse(t, data, syncword) == Parse(data, syncword)
    ensures var s' := AfterStaticParse(t, s, syncword, StaticParse(t, data, syncword));
            var d' := AfterParse(d, syncword, Parse(data, syncword));
            && SameButBody(s', d')
            && (t.bytes(s.obj) == d.body ==> t.bytes(s'.obj) == d'.body)
  {
    hide ReadHead, ReadFoot, FirstOccurrence, AfterParse, AfterStaticParse, BufferAgrees;
    StaticParseAgrees(t, data, syncword);
    StaticBodyLength(t, data, syncword);
    SameStep(t, s, d, syncword, Parse(data, syncword));
  }

  lemma StaticBodyLength<T>(t: BodyType<T>, data: seq<byte>, syncword: int32)
    ensures var r := StaticParse(t, data, syncword);
            r.NoFoot? || r.Whole? ==> |r.body| == if r.head.uid == 0 then 0 else t.memSize
  {
    hide ReadHead, ReadFoot, FirstOccurrence;
  }

  /** The same for the two decoders that are given the head.  The static one compares the sizes
      first, so that only the dynamic one can run out of bytes; when they agree, it is on the
      packet in every field, and on BytesRead. */
  lemma StaticSplitAgrees<T(!new)>(t: BodyType<T>, head: FSNetBufferHead, rest: seq<byte>,
                                   s: StaticPacket<T>, d: Packet)
    requires Lawful(t)
    requires s.foot == d.foot
    ensures var dynamic, fixed := ParseRest(head, head.size, rest), StaticParseRest(t, head, rest);
            var s', d' := AfterStaticParse(t, s, head.syncword, fixed), AfterParse(d, head.syncword, dynamic);
            && (fixed == dynamic <==> head.uid == 0 || head.size == t.memSize || !(0 <= head.size <= |rest|))
            && (fixed == dynamic ==>
                  && SameButBody(s', d')
                  && BytesReadOf(fixed, |rest|) == BytesReadOf(dynamic, |rest|)
                  && (t.bytes(s.obj) == d.body ==> t.bytes(s'.obj) == d'.body))
  {
    hide ReadFoot, AfterParse, AfterStaticParse;
    var dynamic, fixed := ParseRest(head, head.size, rest), StaticParseRest(t, head, rest);
    if fixed == dynamic {
      SameStep(t, s.(head := head), d.(head := head), head.syncword, dynamic);
      HeadDoesNotMatter(t, s, d, head, dynamic);
    }
  }

  /** Once a head was read, the one from before is gone. */
  lemma HeadDoesNotMatter<T>(t: BodyType<T>, s: StaticPacket<T>, d: Packet, head: FSNetBufferHead, r: Parsed)
    requires !r.NoHead?
    ensures AfterStaticParse(t, s.(head := head), head.syncword, r) == AfterStaticParse(t, s, head.syncword, r)
    ensures AfterParse(d.(head := head), head.syncword, r) == AfterParse(d, head.syncword, r)
  {
  }

  /** When the sizes differ, a buffer that both decoders read to the end is read to different
      ends: the static decoder does not look at the announced size. */
  lemma SizesDecideTheEnd<T>(t: BodyType<T>, data: seq<byte>, syncword: int32)
    requires Parse(data, syncword).Whole? && StaticParse(t, data, syncword).Whole?
    ensures var r := Parse(data, syncword);
            StaticParse(t, data, syncword).end == r.end <==> r.head.uid == 0 || r.head.size == t.memSize
  {
    hide ReadHead, ReadFoot, FirstOccurrence;
  }

  /** A static packet counts as valid exactly when the dynamic decoder accepts the frame and
      the announced size is the object's, on every buffer. */
  lemma StaticValidity<T(!new)>(t: BodyType<T>, data: seq<byte>, syncword: int32, s: StaticPacket<T>, d: Packet)
    requires Lawful(t)
    requires s.head == d.head && s.foot == d.foot
    ensures IsValidStatic(t, AfterStaticParse(t, s, syncword, StaticParse(t, data, syncword))) <==>
            var d' := AfterParse(d, syncword, Parse(data, syncword)); d'.ok && d'.head.size == t.memSize
  {
    hide ReadHead, ReadFoot, FirstOccurrence, ObjectFold, SegmentFold;
    var r := Parse(data, syncword);
    if r.NoHead? || r.head.uid == 0 || r.head.size == t.memSize {
      StaticAgreesWithDynamic(t, data, syncword, s, d);
    }
  }

  /** The same for the decoders that are given the head, whose size check comes first. */
  lemma StaticSplitValidity<T(!new)>(t: BodyType<T>, head: FSNetBufferHead, rest: seq<byte>,
                                     s: StaticPacket<T>, d: Packet)
    requires Lawful(t)
    ensures IsValidStatic(t, AfterStaticParse(t, s, head.syncword, StaticParseRest(t, head, rest))) <==>
            var d' := AfterParse(d, head.syncword, ParseRest(head, head.size, rest)); d'.ok && head.size == t.memSize
  {
    hide ReadFoot, ObjectFold, SegmentFold;
    if head.size == t.memSize {
      SameStep(t, s.(head := head, foot := d.foot), d.(head := head), head.syncword, ParseRest(head, head.size, rest));
    }
  }

  /** Round trip for objects.  The decoder never consults the announced size, so this holds
      whatever the head says about it. */
  lemma StaticRoundTrip<T(!new)>(t: BodyType<T>, garbage: seq<byte>, p: StaticPacket<T>, tail: seq<byte>,
                                 syncword: int32, was: StaticPacket<T>)
    requires Lawful(t)
    requires p.head.syncword == syncword && p.head.uid != 0
    requires NoSyncBefore(garbage + Frame(Flat(t, p)) + tail, syncword, |garbage|)
    ensures var r := StaticParse(t, garbage + Frame(Flat(t, p)) + tail, syncword);
            && r.Whole? && r.end == |garbage| + |Frame(Flat(t, p))|
            && AfterStaticParse(t, was, syncword, r)
               == StaticPacket(p.head, p.obj, p.foot, p.head.reserved % 0x40_0000, XorFold(Frame(Flat(t, p))) == 0)
  {
    SessionIsRemainder(p.head);
    hide SessionID, HeadBytes, ReadHead, FootBytes, ReadFoot, XorFold, FirstOccurrence, ParseRest;
    var q := Flat(t, p);
    var frame := Frame(q);
    var data, at := garbage + frame + tail, |garbage|;
    assert data[at..] == frame + tail;
    FrameStartsWithSyncword(q);
    assert data[at..at + 4] == frame[..4];
    SyncFound(data, syncword, at);
    FrameParses(q, t.memSize, tail);
    assert data[at..at + HEAD_SIZE] == (frame + tail)[..HEAD_SIZE];
    assert data[at + HEAD_SIZE..] == (frame + tail)[HEAD_SIZE..];
    FoldOfFrame(q);
  }
}
