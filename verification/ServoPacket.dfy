/** Servo/Protocol/ServoProtocol: the packet, its memory layout, its seal and its decoders.

A packet on the wire is a 16-byte head, a body (absent when uid is 0) and an 8-byte foot.
The classes follow the source; `Parse` and `AfterParse` are the specification of the decoders,
about which ServoFraming.dfy proves what the protocol is for. */
module ServoPacket {
  import opened Bits
  import opened Bytes
  import opened BufferSearch

  const HEAD_SIZE := 16
  const FOOT_SIZE := 8

  // ----- packed records

  datatype FSNetBufferHead =
    FSNetBufferHead(syncword: int32, version: byte, fastcode: byte, uid: uint16, size: int32, reserved: uint32)

  datatype FSNetBufferFoot = FSNetBufferFoot(timestamp: uint64)

  const FASTCODE_OFFSET := 5

  function HeadBytes(h: FSNetBufferHead): (b: seq<byte>)
    ensures |b| == HEAD_SIZE
  {
    I32Bytes(h.syncword) + [h.version, h.fastcode] + LeBytes(h.uid, 2) + I32Bytes(h.size) + LeBytes(h.reserved, 4)
  }

  function ReadHead(b: seq<byte>): FSNetBufferHead
    requires |b| == HEAD_SIZE
  {
    FSNetBufferHead(ReadI32(b[0..4]), b[4], b[5], ReadU16(b[6..8]), ReadI32(b[8..12]), ReadU32(b[12..16]))
  }

  function FootBytes(f: FSNetBufferFoot): (b: seq<byte>)
    ensures |b| == FOOT_SIZE
  {
    LeBytes(f.timestamp, 8)
  }

  function ReadFoot(b: seq<byte>): FSNetBufferFoot
    requires |b| == FOOT_SIZE
  {
    FSNetBufferFoot(ReadU64(b))
  }

  lemma HeadReadBack(h: FSNetBufferHead)
    ensures ReadHead(HeadBytes(h)) == h
  {
    var b := HeadBytes(h);
    assert b[0..4] == I32Bytes(h.syncword);
    assert b[6..8] == LeBytes(h.uid, 2);
    assert b[8..12] == I32Bytes(h.size);
    assert b[12..16] == LeBytes(h.reserved, 4);
    ReadBackI32(h.syncword); ReadBack16(h.uid); ReadBackI32(h.size); ReadBack32(h.reserved);
  }

  /** The layout is packed: a head read from 16 bytes occupies exactly those bytes. */
  lemma HeadFillsItsBytes(b: seq<byte>)
    requires |b| == HEAD_SIZE
    ensures HeadBytes(ReadHead(b)) == b
  {
    WordIsItsBytes(b[0..4], ReadI32(b[0..4]));
    WordIsItsBytes(b[8..12], ReadI32(b[8..12]));
    LeBytesOfValue(b[6..8]); LeBytesOfValue(b[12..16]);
    assert b == b[0..4] + [b[4], b[5]] + b[6..8] + b[8..12] + b[12..16];
  }

  lemma FootReadBack(f: FSNetBufferFoot)
    ensures ReadFoot(FootBytes(f)) == f
  {
    ReadBack64(f.timestamp);
  }

  lemma FootFillsItsBytes(b: seq<byte>)
    requires |b| == FOOT_SIZE
    ensures FootBytes(ReadFoot(b)) == b
  {
    LeBytesOfValue(b);
  }

  /** How a packed head lies in memory, offset by offset. */
  ghost predicate HeadLaidOut(h: FSNetBufferHead, b: seq<byte>, at: nat)
    requires at + 16 <= |b|
  {
    && h.syncword == SignedWord32(b, at)
    && h.version == b[at + 4]
    && h.fastcode == b[at + 5]
    && h.uid == Word16(b, at + 6)
    && h.size == SignedWord32(b, at + 8)
    && h.reserved == Word32(b, at + 12)
  }

  lemma HeadReadIsLaidOut(b: seq<byte>)
    requires |b| == HEAD_SIZE
    ensures HeadLaidOut(ReadHead(b), b, 0)
  {
    I32IsWord(b[0..4]); U16IsWord(b[6..8]); I32IsWord(b[8..12]); U32IsWord(b[12..16]);
    hide ReadI32, ReadU16, ReadU32;
  }

  /** The packed layout, whether a head is written or read: 4 bytes of syncword, one each of version
      and fastcode, 2 of uid, 4 of size and 4 of reserved, each the least significant first. */
  lemma HeadIsLaidOut(h: FSNetBufferHead)
    ensures HeadLaidOut(h, HeadBytes(h), 0)
  {
    hide HeadLaidOut;
    HeadReadBack(h);
    HeadReadIsLaidOut(HeadBytes(h));
  }

  lemma FootIsLaidOut(f: FSNetBufferFoot)
    ensures f.timestamp == Word64(FootBytes(f), 0)
  {
    FootReadBack(f);
    U64IsWord(FootBytes(f));
  }

  /** `reserved & ((1 << 22) - 1)`. */
  function SessionID(h: FSNetBufferHead): int32 {
    MaskIsRemainder(h.reserved);
    BitAnd(h.reserved, Pow2(22) - 1)
  }

  lemma MaskIsRemainder(reserved: uint32)
    ensures Pow2(22) == 0x40_0000
    ensures BitAnd(reserved, Pow2(22) - 1) == reserved % 0x40_0000
  {
    assert Pow2(8) == 0x100;
    assert Pow2(16) == 0x1_0000;
    BitAndOnes(reserved, 22);
  }

  lemma SessionIsRemainder(h: FSNetBufferHead)
    ensures SessionID(h) == h.reserved % 0x40_0000
  {
    hide BitAnd, Pow2;
    MaskIsRemainder(h.reserved);
  }

  /** The low 22 bits of `reserved`, and nothing of the high ten. */
  lemma SessionIsLow22Bits(h: FSNetBufferHead, high: nat, session: nat)
    requires h.reserved == high * 0x40_0000 + session && session < 0x40_0000
    ensures SessionID(h) == session
  {
    SessionIsRemainder(h);
  }

  // ----- the packet as a value, and its wire format

  datatype Packet = Packet(head: FSNetBufferHead, body: seq<byte>, foot: FSNetBufferFoot, sid: int32, ok: bool)

  /** The part of the body that belongs to the packet: a heartbeat (uid 0) carries none. */
  function WireBody(p: Packet): seq<byte> {
    if p.head.uid == 0 then [] else p.body
  }

  function Frame(p: Packet): seq<byte> {
    HeadBytes(p.head) + WireBody(p) + FootBytes(p.foot)
  }

  /** How a frame lies in memory: 16 bytes of head, the body, 8 bytes of foot. */
  ghost predicate FrameLaidOut(head: FSNetBufferHead, body: seq<byte>, foot: FSNetBufferFoot, b: seq<byte>) {
    && |b| == 16 + |body| + 8
    && HeadLaidOut(head, b, 0)
    && b[16..16 + |body|] == body
    && foot.timestamp == Word64(b, 16 + |body|)
  }

  lemma FrameIsLaidOut(p: Packet)
    ensures FrameLaidOut(p.head, if p.head.uid == 0 then [] else p.body, p.foot, Frame(p))
  {
    var b, n := Frame(p), |WireBody(p)|;
    HeadIsLaidOut(p.head);
    FootIsLaidOut(p.foot);
    hide HeadBytes, FootBytes;
    hide HeadLaidOut, Word64;
    assert b[0..16] == HeadBytes(p.head);
    assert b[16 + n..16 + n + 8] == FootBytes(p.foot);
    HeadOfSlice(p.head, b, 0);
    Word64OfSlice(b, 16 + n, 8, 0);
  }

  lemma HeadOfSlice(h: FSNetBufferHead, b: seq<byte>, at: nat)
    requires at + 16 <= |b|
    ensures HeadLaidOut(h, b[at..at + 16], 0) <==> HeadLaidOut(h, b, at)
  {
    hide Word16, Word32, SignedWord32;
    WordsOfSlice(b, at, 16, 0); WordsOfSlice(b, at, 16, 6); WordsOfSlice(b, at, 16, 8); WordsOfSlice(b, at, 16, 12);
  }

  /** The XOR of head, body and foot, taken segment by segment as the source does. */
  function SegmentFold(head: FSNetBufferHead, body: seq<byte>, foot: FSNetBufferFoot): byte {
    Xor(Xor(XorFold(HeadBytes(head)), XorFold(body)), XorFold(FootBytes(foot)))
  }

  /** What OnSeal makes of a packet. */
  function Sealed(p: Packet): Packet {
    p.(head := p.head.(fastcode := SegmentFold(p.head, WireBody(p), p.foot)), ok := true)
  }

  /** The verdict of CheckIntegrity. */
  predicate ChecksOut(p: Packet) {
    SegmentFold(p.head, WireBody(p), p.foot) == p.head.fastcode
  }

  /** What ReUseAsHeartbeat makes of a packet. */
  function Heartbeat(p: Packet, syncword: int32, now: uint64): Packet {
    var head := FSNetBufferHead(syncword, 0, 0, 0, 0, 0);
    p.(head := head.(fastcode := SegmentFold(head, [], FSNetBufferFoot(now))), body := [], foot := FSNetBufferFoot(now))
  }

  // ----- specification of the decoders

  /** How far a decoder gets.  `end` is the number of bytes up to the end of the foot. */
  datatype Parsed =
    | NoHead
    | NoBody(head: FSNetBufferHead)
    | NoFoot(head: FSNetBufferHead, body: seq<byte>)
    | Whole(head: FSNetBufferHead, body: seq<byte>, foot: FSNetBufferFoot, end: nat)

  /** Body and foot from the bytes behind a head; `bodySize` is what the decoder expects. */
  function ParseRest(head: FSNetBufferHead, bodySize: int, rest: seq<byte>): (r: Parsed)
    ensures r.Whole? ==> r.end <= |rest|
  {
    var size := if head.uid == 0 then 0 else bodySize;
    if size < 0 || size > |rest| then NoBody(head)
    else if |rest| - size < FOOT_SIZE then NoFoot(head, rest[..size])
    else Whole(head, rest[..size], ReadFoot(rest[size..size + FOOT_SIZE]), size + FOOT_SIZE)
  }

  /** The whole frame at position `at`, which is FAIL_CODE when no syncword was found. */
  function ParseAt(data: seq<byte>, at: int, bodySize: FSNetBufferHead -> int): (r: Parsed)
    requires at == FAIL_CODE || 0 <= at <= |data|
    ensures r.Whole? ==> at + HEAD_SIZE < r.end <= |data|
  {
    if at == FAIL_CODE || |data| - at < HEAD_SIZE then NoHead
    else
      var head := ReadHead(data[at..at + HEAD_SIZE]);
      var r := ParseRest(head, bodySize(head), data[at + HEAD_SIZE..]);
      if r.Whole? then r.(end := at + HEAD_SIZE + r.end) else r
  }

  /** Where the decoders look for a frame. */
  function SyncAt(data: seq<byte>, syncword: int32): (at: int)
    ensures at == FAIL_CODE || (0 <= at && at + 4 < |data| && data[at..at + 4] == I32Bytes(syncword))
  {
    OccursInAllButLast(I32Bytes(syncword), data, FirstOccurrence(I32Bytes(syncword), AllButLast(data)));
    FirstOccurrence(I32Bytes(syncword), AllButLast(data))
  }

  function Parse(data: seq<byte>, syncword: int32): (r: Parsed)
    ensures r.Whole? ==> HEAD_SIZE < r.end <= |data|
  {
    ParseAt(data, SyncAt(data, syncword), (h: FSNetBufferHead) => h.size)
  }

  /** The decoder's BytesRead: everything there is, unless a whole frame was read. */
  function BytesReadOf(r: Parsed, available: nat): nat {
    if r.Whole? then r.end else available
  }

  /** The packet a decoder leaves behind, field by field, including what it keeps from before. */
  function AfterParse(was: Packet, syncword: int32, r: Parsed): Packet {
    match r
    case NoHead => was.(head := was.head.(syncword := syncword), sid := 0, ok := false)
    case NoBody(head) => was.(head := head, sid := 0, ok := false)
    case NoFoot(head, body) =>
      if head.uid == 0 then was.(head := head, sid := SessionID(head), ok := false)
      else was.(head := head, body := body, sid := 0, ok := false)
    case Whole(head, body, foot, _) =>
      Packet(head, if head.uid == 0 then was.body else body, foot, SessionID(head), SegmentFold(head, body, foot) == 0)
  }

  // ----- the source's own operations

  /** The byte loop of the three XOR members and of FastIntegrity. */
  method XorLoop(bytes: seq<byte>) returns (ret: byte)
    ensures ret == XorFold(bytes)
  {
    ret := 0;
    var i := 0;
    while i < |bytes|
      invariant 0 <= i <= |bytes|
      invariant ret == XorFold(bytes[..i])
    {
      assert bytes[..i + 1][..i] == bytes[..i];
      ret := ret ^ bytes[i];
      i := i + 1;
    }
    assert bytes[..i] == bytes;
  }

  class FSNetBufferBody {
    var bufferPtr: array?<byte>
    var length: int

    ghost predicate Valid()
      reads this
    {
      if bufferPtr == null then length == 0 else bufferPtr.Length == length
    }

    ghost function Contents(): seq<byte>
      reads this, bufferPtr
    {
      if bufferPtr == null then [] else bufferPtr[..]
    }

    constructor ()
      ensures Valid() && Contents() == []
      ensures bufferPtr == null
    {
      bufferPtr := null;
      length := 0;
    }

    method MemRead(data: seq<byte>, inLength: int) returns (ok: bool)
      requires Valid()
      modifies this
      ensures Valid()
      ensures ok <==> 0 <= inLength <= |data|
      ensures Contents() == if ok then data[..inLength] else old(Contents())
      ensures bufferPtr == old(bufferPtr) || fresh(bufferPtr)
    {
      if |data| < inLength || inLength < 0 {
        return false;
      }
      if length > 0 {
        Reset();
      }
      length := inLength;
      var block := new byte[inLength];
      forall i | 0 <= i < inLength {
        block[i] := data[i];
      }
      bufferPtr := block;
      return true;
    }

    method XOR() returns (ret: byte)
      requires Valid()
      ensures ret == XorFold(Contents())
    {
      ret := 0;
      var i := 0;
      while i < length
        invariant 0 <= i <= length
        invariant ret == XorFold(Contents()[..i])
      {
        assert Contents()[..i + 1][..i] == Contents()[..i];
        ret := ret ^ bufferPtr[i];
        i := i + 1;
      }
      assert Contents()[..i] == Contents();
    }

    method Reset()
      modifies this
      ensures Valid() && Contents() == [] && bufferPtr == null
    {
      bufferPtr := null;
      length := 0;
    }

    /** The int32 at a byte offset, accumulated byte by byte in 32-bit wrap-around arithmetic. */
    method GetInt32(inIndex: nat, before: int32) returns (ok: bool, outValue: int32)
      requires Valid()
      ensures ok <==> inIndex + 4 <= |Contents()|
      ensures outValue == if ok then SignedWord32(Contents(), inIndex) else before
    {
      if inIndex + 3 >= length {
        return false, before;
      }
      ghost var word := Contents()[inIndex..inIndex + 4];
      WidthBounds(); LeValueBound(word); I32IsWord(word);
      var sum, shift := 0, 1;
      var i := 0;
      while i < 4
        invariant 0 <= i <= 4 && shift == Pow256(i)
        invariant sum + shift * LeValue(word[i..]) == LeValue(word)
      {
        LeValueStep(word, i, shift);
        sum := sum + bufferPtr[inIndex + i] as int * shift;
        shift := shift * 256;
        i := i + 1;
      }
      return true, ToSigned(sum);
    }
  }

  lemma LeValueStep(word: seq<byte>, i: nat, shift: nat)
    requires i < |word|
    ensures shift * LeValue(word[i..]) == word[i] as int * shift + shift * 256 * LeValue(word[i + 1..])
  {
    assert word[i..][1..] == word[i + 1..];
    Distribute(shift, word[i] as int, LeValue(word[i + 1..]));
  }

  lemma Distribute(a: int, b: int, c: int)
    ensures a * (b + 256 * c) == b * a + a * 256 * c
  {
  }

  class FSNetPacket {
    var Head: FSNetBufferHead
    const Body: FSNetBufferBody
    var Foot: FSNetBufferFoot
    var sid: int32
    var bFastIntegrity: bool

    ghost predicate Valid()
      reads this, Body
    {
      Body.Valid()
    }

    ghost function View(): Packet
      reads this, Body, Body.bufferPtr
    {
      Packet(Head, Body.Contents(), Foot, sid, bFastIntegrity)
    }

    constructor (syncword: int32)
      ensures Valid() && fresh(Body)
      ensures View() == Packet(FSNetBufferHead(syncword, 0, 0, 0, 0, 0), [], FSNetBufferFoot(0), 0, false)
    {
      Head := FSNetBufferHead(syncword, 0, 0, 0, 0, 0);
      Body := new FSNetBufferBody();
      Foot := FSNetBufferFoot(0);
      sid := 0;
      bFastIntegrity := false;
    }

    /** The parsing constructor. */
    static method Construct(data: seq<byte>, syncword: int32) returns (p: FSNetPacket, bytesRead: int)
      ensures fresh(p) && p.Valid()
      ensures var blank := Packet(FSNetBufferHead(syncword, 0, 0, 0, 0, 0), [], FSNetBufferFoot(0), 0, false);
              p.View() == AfterParse(blank, syncword, Parse(data, syncword))
      ensures bytesRead == BytesReadOf(Parse(data, syncword), |data|)
    {
      p := new FSNetPacket(syncword);
      bytesRead := p.ReUse(data, syncword);
    }

    /** `Head.XOR() ^ Body.XOR() ^ Foot.XOR()`, without the body for a heartbeat. */
    method SealCode() returns (code: byte)
      requires Valid()
      ensures code == SegmentFold(Head, WireBody(View()), Foot)
    {
      var head := XorLoop(HeadBytes(Head));
      var foot := XorLoop(FootBytes(Foot));
      if Head.uid == 0 {
        code := head ^ foot;
      } else {
        var body := Body.XOR();
        code := head ^ body ^ foot;
      }
    }

    method OnSeal()
      requires Valid()
      modifies this
      ensures Valid() && View() == Sealed(old(View()))
      ensures bFastIntegrity && Head == old(Head).(fastcode := Head.fastcode)
      ensures Foot == old(Foot) && sid == old(sid) && Body.Contents() == old(Body.Contents())
    {
      var code := SealCode();
      Head := Head.(fastcode := code);
      bFastIntegrity := true;
    }

    method CheckIntegrity() returns (ok: bool)
      requires Valid()
      modifies this`bFastIntegrity
      ensures ok == ChecksOut(old(View()))
      ensures Valid() && View() == old(View()).(ok := ok)
    {
      var code := SealCode();
      bFastIntegrity := code == Head.fastcode;
      ok := bFastIntegrity;
    }

    method ReUseAsHeartbeat(syncword: int32, now: uint64)
      requires Valid()
      modifies this, Body
      ensures Valid() && View() == Heartbeat(old(View()), syncword, now)
      ensures Head == FSNetBufferHead(syncword, 0, Head.fastcode, 0, 0, 0) && Foot.timestamp == now
      ensures Body.Contents() == [] && sid == old(sid) && bFastIntegrity == old(bFastIntegrity)
    {
      Head := Head.(version := 0, fastcode := 0, uid := 0, size := 0, reserved := 0);
      Head := Head.(syncword := syncword);
      Body.Reset();
      Foot := FSNetBufferFoot(now);
      var head := XorLoop(HeadBytes(Head));
      var foot := XorLoop(FootBytes(Foot));
      Head := Head.(fastcode := head ^ foot);
    }

    method ReUse(data: seq<byte>, syncword: int32) returns (bytesRead: int)
      requires Valid()
      modifies this, Body
      ensures Valid()
      ensures View() == AfterParse(old(View()), syncword, Parse(data, syncword))
      ensures bytesRead == BytesReadOf(Parse(data, syncword), |data|)
      ensures var at := SyncAt(data, syncword);
              at != FAIL_CODE && at + 16 <= |data| ==> HeadLaidOut(Head, data, at)
    {
      hide SessionID, Xor, XorFold, HeadBytes, ReadHead, FootBytes, ReadFoot, HeadLaidOut;
      sid := 0;
      bFastIntegrity := false;
      Head := Head.(syncword := syncword);
      // 1. find the syncword
      var index := BufferBufferSyncword(data, Head.syncword);
      if index == -1 {
        return |data|;
      }
      // 2. read the head
      if |data| - index < HEAD_SIZE {
        return |data|;
      }
      Head := ReadHead(data[index..index + HEAD_SIZE]);
      HeadReadIsLaidOut(data[index..index + HEAD_SIZE]);
      HeadOfSlice(Head, data, index);
      bytesRead := ReadRest(data, index + HEAD_SIZE);
    }

    method ReUseWithHead(inHead: FSNetBufferHead, data: seq<byte>) returns (bytesRead: int)
      requires Valid()
      modifies this, Body
      ensures Valid()
      ensures View() == AfterParse(old(View()), inHead.syncword, ParseRest(inHead, inHead.size, data))
      ensures bytesRead == BytesReadOf(ParseRest(inHead, inHead.size, data), |data|)
    {
      sid := 0;
      bFastIntegrity := false;
      // 1. set up the head
      Head := inHead;
      assert data[0..] == data;
      bytesRead := ReadRest(data, 0);
    }

    /** The steps both decoders take once the head is known. */
    method ReadRest(data: seq<byte>, start: nat) returns (bytesRead: int)
      requires Valid() && start <= |data|
      requires sid == 0 && !bFastIntegrity
      modifies this, Body
      ensures Valid()
      ensures View() == AfterParse(old(View()), Head.syncword, ParseRest(old(Head), old(Head).size, data[start..]))
      ensures bytesRead == var r := ParseRest(old(Head), old(Head).size, data[start..]);
                           if r.Whole? then start + r.end else |data|
    {
      hide SessionID, Xor, XorFold, HeadBytes, ReadHead, FootBytes, ReadFoot;
      ghost var rest := data[start..];
      ghost var was, r := View(), ParseRest(Head, Head.size, rest);
      var index := start;
      var fastcode := XorLoop(HeadBytes(Head));
      if Head.uid == 0 {
        sid := SessionID(Head);
      }
      var ok, size, body := ReadBody(data[start..]);
      if !ok {
        assert r == NoBody(Head);
        return |data|;
      }
      index := index + size;
      fastcode := Xor(fastcode, body);
      assert data[index..] == rest[size..];
      assert |rest| - size >= FOOT_SIZE ==> rest[size..][..FOOT_SIZE] == rest[size..size + FOOT_SIZE];
      bytesRead := ReadFootAndSettle(data, index, fastcode, rest[..size]);
    }

    /** Check and read the body, if the packet has one. */
    method ReadBody(rest: seq<byte>) returns (ok: bool, size: int, fold: byte)
      requires Valid()
      modifies Body
      ensures Valid()
      ensures size == if Head.uid == 0 then 0 else Head.size
      ensures ok <==> 0 <= size <= |rest|
      ensures ok ==> fold == XorFold(rest[..size])
      ensures Body.Contents() == if ok && Head.uid != 0 then rest[..size] else old(Body.Contents())
    {
      if Head.uid == 0 {
        return true, 0, 0;
      }
      size := Head.size;
      ok := Body.MemRead(rest, size);
      if ok {
        fold := Body.XOR();
      } else {
        fold := 0;
      }
    }

    /** Read the foot; when that succeeds, settle the verdict and the session. */
    method ReadFootAndSettle(data: seq<byte>, start: nat, fastcode: byte, ghost body: seq<byte>)
      returns (bytesRead: int)
      requires Valid() && start <= |data|
      requires fastcode == Xor(XorFold(HeadBytes(Head)), XorFold(body))
      modifies this
      ensures Valid()
      ensures |data| - start < FOOT_SIZE ==> bytesRead == |data| && View() == old(View())
      ensures |data| - start >= FOOT_SIZE ==>
                var foot := ReadFoot(data[start..][..FOOT_SIZE]);
                && bytesRead == start + FOOT_SIZE
                && View() == old(View()).(foot := foot, sid := SessionID(Head),
                                          ok := SegmentFold(Head, body, foot) == 0)
    {
      hide SessionID, Xor, XorFold, HeadBytes, ReadHead, FootBytes, ReadFoot;
      if |data| - start < FOOT_SIZE {
        return |data|;
      }
      Foot := ReadFoot(data[start..][..FOOT_SIZE]);
      var foot := XorLoop(FootBytes(Foot));
      bytesRead := start + FOOT_SIZE;
      bFastIntegrity := Xor(fastcode, foot) == 0;
      sid := SessionID(Head);
    }

    method WriteToArray(inBufferArr: seq<byte>) returns (buffer: seq<byte>)
      requires Valid()
      ensures buffer == Frame(View())
      ensures FrameLaidOut(Head, if Head.uid == 0 then [] else Body.Contents(), Foot, buffer)
    {
      hide FrameLaidOut, HeadBytes, FootBytes;
      FrameIsLaidOut(View());
      var bytesWrite := 0;
      var writeSize := HEAD_SIZE + FOOT_SIZE;
      if Head.uid > 0 {
        writeSize := writeSize + Body.length;
      }
      buffer := Resized(inBufferArr, writeSize, 0);
      buffer := MemCpy(buffer, 0, HeadBytes(Head));
      bytesWrite := bytesWrite + HEAD_SIZE;
      if Head.uid != 0 {
        if Body.bufferPtr != null {
          buffer := MemCpy(buffer, bytesWrite, Body.bufferPtr[..]);
        }
        bytesWrite := bytesWrite + Body.length;
      }
      buffer := MemCpy(buffer, bytesWrite, FootBytes(Foot));
    }
  }

  function Resized<T>(v: seq<T>, n: nat, blank: T): (r: seq<T>)
    ensures |r| == n
  {
    if n <= |v| then v[..n] else v + seq(n - |v|, _ => blank)
  }

  function MemCpy(dst: seq<byte>, at: nat, src: seq<byte>): (r: seq<byte>)
    requires at + |src| <= |dst|
    ensures |r| == |dst|
  {
    dst[..at] + src + dst[at + |src|..]
  }
}
