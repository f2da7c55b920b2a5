/** What the packet protocol is for: a sealed packet survives the wire, wherever its frame lies
in the stream, and nothing that was damaged is accepted. */
module ServoFraming {
  import opened Bytes
  import opened BufferSearch
  import opened ServoPacket

  // ----- the seal

  /** The frame without its fastcode byte: the bytes the fastcode is meant to cover. */
  function CoveredBytes(p: Packet): seq<byte> {
    Frame(p)[..FASTCODE_OFFSET] + Frame(p)[FASTCODE_OFFSET + 1..]
  }

  lemma FoldOfFrame(p: Packet)
    ensures XorFold(Frame(p)) == SegmentFold(p.head, WireBody(p), p.foot)
    ensures XorFold(Frame(p)) == Xor(XorFold(CoveredBytes(p)), p.head.fastcode)
  {
    XorFoldConcat(HeadBytes(p.head), WireBody(p));
    XorFoldConcat(HeadBytes(p.head) + WireBody(p), FootBytes(p.foot));
    var frame := Frame(p);
    var front, back := frame[..FASTCODE_OFFSET], frame[FASTCODE_OFFSET + 1..];
    assert frame[FASTCODE_OFFSET] == p.head.fastcode;
    assert frame == front + [p.head.fastcode] + back;
    XorFoldConcat(front + [p.head.fastcode], back);
    XorFoldConcat(front, [p.head.fastcode]);
    XorFoldSingle(p.head.fastcode);
    XorFoldConcat(front, back);
  }

  lemma CoveredBytesBySegment(p: Packet)
    ensures CoveredBytes(p)
            == HeadBytes(p.head)[..FASTCODE_OFFSET] + HeadBytes(p.head)[FASTCODE_OFFSET + 1..]
               + WireBody(p) + FootBytes(p.foot)
  {
    hide HeadBytes, FootBytes;
  }

  /** The covered bytes do not depend on the fastcode. */
  lemma CoveredBytesIgnoreFastcode(p: Packet, code: byte)
    ensures CoveredBytes(p.(head := p.head.(fastcode := code))) == CoveredBytes(p)
  {
    hide FootBytes, LeBytes;
    var q := p.(head := p.head.(fastcode := code));
    assert HeadBytes(q.head)[..FASTCODE_OFFSET] == HeadBytes(p.head)[..FASTCODE_OFFSET];
    assert HeadBytes(q.head)[FASTCODE_OFFSET + 1..] == HeadBytes(p.head)[FASTCODE_OFFSET + 1..];
    CoveredBytesBySegment(p);
    CoveredBytesBySegment(q);
  }

  /** Sealing clears the total of the frame exactly when the fastcode was 0 before. */
  lemma SealClearsTotal(p: Packet)
    ensures XorFold(Frame(Sealed(p))) == p.head.fastcode
    ensures XorFold(Frame(Sealed(p))) == 0 <==> p.head.fastcode == 0
  {
    FoldOfFrame(p);
    FoldOfFrame(Sealed(p));
    CoveredBytesIgnoreFastcode(p, Sealed(p).head.fastcode);
  }

  lemma SealTwiceRestores(p: Packet)
    ensures Sealed(Sealed(p)).head == p.head
  {
    FoldOfFrame(Sealed(p));
    SealClearsTotal(p);
  }

  /** CheckIntegrity folds the fastcode in and then compares with it, so it does not depend on
      the fastcode at all: it asks whether the covered bytes fold to 0. */
  lemma CheckIntegrityMeans(p: Packet)
    ensures ChecksOut(p) <==> XorFold(CoveredBytes(p)) == 0
  {
    FoldOfFrame(p);
  }

  /** OnSeal followed by CheckIntegrity succeeds exactly for those packets. */
  lemma CheckAfterSeal(p: Packet)
    ensures ChecksOut(Sealed(p)) <==> XorFold(CoveredBytes(p)) == 0
  {
    CheckIntegrityMeans(Sealed(p));
    CoveredBytesIgnoreFastcode(p, Sealed(p).head.fastcode);
  }

  /** A heartbeat leaves ReUseAsHeartbeat sealed, yet the CheckIntegrity that AllocHeartbeat
      calls next passes it only for particular pairs of syncword and clock. */
  lemma HeartbeatChecksOut(p: Packet, syncword: int32, now: uint64)
    ensures ChecksOut(Heartbeat(p, syncword, now)) <==> XorFold(I32Bytes(syncword)) == XorFold(LeBytes(now, 8))
  {
    hide LeBytes;
    var h := Heartbeat(p, syncword, now);
    var blank: seq<byte> := [0, 0, 0, 0, 0, 0, 0, 0, 0, 0, 0];
    var head := HeadBytes(h.head);
    assert head[..FASTCODE_OFFSET] + head[FASTCODE_OFFSET + 1..] == I32Bytes(syncword) + blank by {
      ZeroBytes();
    }
    CoveredBytesBySegment(h);
    XorFoldConcat(I32Bytes(syncword), blank);
    XorFoldConcat(I32Bytes(syncword) + blank, LeBytes(now, 8));
    assert CoveredBytes(h) == I32Bytes(syncword) + blank + LeBytes(now, 8);
    XorFoldZeros(blank);
    CheckIntegrityMeans(h);
  }

  lemma ZeroBytes()
    ensures LeBytes(0, 2) == [0, 0]
    ensures LeBytes(0, 4) == [0, 0, 0, 0]
    ensures LeBytes(0, 8) == [0, 0, 0, 0, 0, 0, 0, 0]
  {
    assert LeBytes(0, 4) == [0, 0] + LeBytes(0, 2);
    assert LeBytes(0, 6) == [0, 0] + LeBytes(0, 4);
    assert LeBytes(0, 8) == [0, 0] + LeBytes(0, 6);
  }

  const DEFAULT_SYNCWORD: int32 := 0xE6B7_F1A2 - 0x1_0000_0000

  /** Midnight UTC of 17 September 2019, in milliseconds. */
  const SOME_TIMESTAMP: uint64 := 1_568_678_400_000

  /** With the default syncword and such a clock, for instance, it fails. */
  lemma SealedButNotChecked(p: Packet)
    ensures !ChecksOut(Heartbeat(p, DEFAULT_SYNCWORD, SOME_TIMESTAMP))
  {
    hide LeBytes, XorFold;
    HeartbeatChecksOut(p, DEFAULT_SYNCWORD, SOME_TIMESTAMP);
    DefaultSyncwordFold();
    SomeTimestampFold();
  }

  lemma DefaultSyncwordFold()
    ensures XorFold(I32Bytes(DEFAULT_SYNCWORD)) == 2
  {
    var word: seq<byte> := [0xA2, 0xF1, 0xB7, 0xE6];
    assert ReadI32(word) == DEFAULT_SYNCWORD by {
      hide LeValue;
      ValueOfFour(0xA2, 0xF1, 0xB7, 0xE6);
    }
    WordIsItsBytes(word, DEFAULT_SYNCWORD);
    hide XorFold, LeBytes, LeValue;
    FoldOfFour(0xA2, 0xF1, 0xB7, 0xE6);
  }

  lemma SomeTimestampFold()
    ensures XorFold(LeBytes(SOME_TIMESTAMP, 8)) == 4
  {
    var low, high: seq<byte> := [0x00, 0xD0, 0x84, 0x3C], [0x6D, 0x01, 0x00, 0x00];
    assert LeValue(low + high) == SOME_TIMESTAMP by {
      hide LeValue;
      ValueOfFour(0x00, 0xD0, 0x84, 0x3C);
      ValueOfFour(0x6D, 0x01, 0x00, 0x00);
      LeValueConcat(low, high);
      WidthBounds();
    }
    hide XorFold, LeBytes, LeValue;
    LeBytesOfValue(low + high);
    XorFoldConcat(low, high);
    FoldOfFour(0x00, 0xD0, 0x84, 0x3C);
    FoldOfFour(0x6D, 0x01, 0x00, 0x00);
  }

  lemma ValueOfFour(a: byte, b: byte, c: byte, d: byte)
    ensures LeValue([a, b, c, d]) == a as int + 256 * (b as int + 256 * (c as int + 256 * d as int))
  {
    assert [a, b, c, d][1..] == [b, c, d] && [b, c, d][1..] == [c, d] && [c, d][1..] == [d] && [d][1..] == [];
    assert LeValue([d]) == d as int;
    assert LeValue([c, d]) == c as int + 256 * d as int;
  }

  lemma FoldOfFour(a: byte, b: byte, c: byte, d: byte)
    ensures XorFold([a, b, c, d]) == Xor(Xor(Xor(a, b), c), d)
  {
    assert [a, b, c, d][..3] == [a, b, c] && [a, b, c][..2] == [a, b] && [a, b][..1] == [a];
    XorFoldSingle(a);
    assert XorFold([a, b]) == Xor(a, b);
  }

  /** A packet whose head says how long its body is. */
  predicate Honest(p: Packet, syncword: int32) {
    && p.head.syncword == syncword
    && (p.head.uid != 0 ==> p.head.size == |p.body|)
  }

  /** No syncword starts before `at`, not even one that straddles it. */
  ghost predicate NoSyncBefore(data: seq<byte>, syncword: int32, at: int) {
    forall q :: OccursAt(I32Bytes(syncword), data, q) ==> at <= q
  }

  lemma SyncFound(data: seq<byte>, syncword: int32, at: nat)
    requires OccursAt(I32Bytes(syncword), data, at) && at + 4 < |data|
    requires NoSyncBefore(data, syncword, at)
    ensures SyncAt(data, syncword) == at
  {
    OccursInFirst(I32Bytes(syncword), data, at);
  }

  /** The head, body and foot of a frame that is followed by any other bytes. */
  lemma FrameParses(p: Packet, bodySize: int, tail: seq<byte>)
    requires p.head.uid != 0 ==> bodySize == |p.body|
    ensures ReadHead((Frame(p) + tail)[..HEAD_SIZE]) == p.head
    ensures ParseRest(p.head, bodySize, (Frame(p) + tail)[HEAD_SIZE..])
            == Whole(p.head, WireBody(p), p.foot, |Frame(p)| - HEAD_SIZE)
  {
    hide HeadBytes, ReadHead, FootBytes, ReadFoot;
    var data := Frame(p) + tail;
    var rest := data[HEAD_SIZE..];
    var n := |WireBody(p)|;
    HeadReadBack(p.head);
    FootReadBack(p.foot);
    assert data[..HEAD_SIZE] == HeadBytes(p.head);
    assert rest == WireBody(p) + FootBytes(p.foot) + tail;
    assert rest[..n] == WireBody(p);
    assert rest[n..n + FOOT_SIZE] == FootBytes(p.foot);
  }

  lemma FrameStartsWithSyncword(p: Packet)
    ensures Frame(p)[..4] == I32Bytes(p.head.syncword)
  {
    assert Frame(p)[..4] == HeadBytes(p.head)[..4];
  }

  /** Round trip: behind any garbage in which no syncword starts, and before any further
      bytes, the decoder finds the packet that was sent, field by field, and accepts it
      exactly when its frame folds to 0. */
  lemma ResyncRoundTrip(garbage: seq<byte>, p: Packet, tail: seq<byte>, syncword: int32, was: Packet)
    requires Honest(p, syncword)
    requires NoSyncBefore(garbage + Frame(p) + tail, syncword, |garbage|)
    ensures var r := Parse(garbage + Frame(p) + tail, syncword);
            && r == Whole(p.head, WireBody(p), p.foot, |garbage| + |Frame(p)|)
            && AfterParse(was, syncword, r)
               == Packet(p.head, if p.head.uid == 0 then was.body else p.body, p.foot, p.head.reserved % 0x40_0000,
                         XorFold(Frame(p)) == 0)
  {
    SessionIsRemainder(p.head);
    hide SessionID, HeadBytes, ReadHead, FootBytes, ReadFoot, XorFold, ParseRest;
    var data := garbage + Frame(p) + tail;
    var at := |garbage|;
    assert data[at..] == Frame(p) + tail;
    FrameStartsWithSyncword(p);
    assert data[at..at + 4] == Frame(p)[..4];
    SyncFound(data, syncword, at);
    FrameParses(p, p.head.size, tail);
    assert data[at..at + HEAD_SIZE] == (Frame(p) + tail)[..HEAD_SIZE];
    assert data[at + HEAD_SIZE..] == (Frame(p) + tail)[HEAD_SIZE..];
    FoldOfFrame(p);
  }

  /** Hence a packet sealed by OnSeal is accepted exactly when its fastcode was 0 before. */
  lemma SealedRoundTrip(garbage: seq<byte>, p: Packet, tail: seq<byte>, syncword: int32, was: Packet)
    requires Honest(p, syncword)
    requires NoSyncBefore(garbage + Frame(Sealed(p)) + tail, syncword, |garbage|)
    ensures var r := Parse(garbage + Frame(Sealed(p)) + tail, syncword);
            var got := AfterParse(was, syncword, r);
            && got.head == Sealed(p).head && got.foot == p.foot && got.sid == p.head.reserved % 0x40_0000
            && (p.head.uid != 0 ==> got.body == p.body)
            && (got.ok <==> p.head.fastcode == 0)
  {
    hide Parse, AfterParse, Frame, XorFold, SegmentFold;
    ResyncRoundTrip(garbage, Sealed(p), tail, syncword, was);
    SealClearsTotal(p);
  }

  /** A heartbeat is a 24-byte frame that any decoder accepts. */
  lemma HeartbeatRoundTrip(p: Packet, syncword: int32, now: uint64, tail: seq<byte>, was: Packet)
    ensures var beat := Heartbeat(p, syncword, now);
            && |Frame(beat)| == HEAD_SIZE + FOOT_SIZE
            && AfterParse(was, syncword, Parse(Frame(beat) + tail, syncword))
               == Packet(beat.head, was.body, beat.foot, 0, true)
  {
    hide Parse, AfterParse, XorFold;
    var blank := p.(head := FSNetBufferHead(syncword, 0, 0, 0, 0, 0), body := [], foot := FSNetBufferFoot(now));
    var beat := Heartbeat(p, syncword, now);
    SealClearsTotal(blank);
    assert Frame(Sealed(blank)) == Frame(beat);
    assert [] + Frame(beat) + tail == Frame(beat) + tail;
    ResyncRoundTrip([], beat, tail, syncword, was);
  }

  // ----- a stream of frames

  /** The results of decoding a buffer again and again behind what was read last.  It ends,
      because every call reads something, and only the last result can be a failure. */
  function Drain(data: seq<byte>, syncword: int32): (rs: seq<Parsed>)
    ensures forall i :: 0 <= i < |rs| - 1 ==> rs[i].Whole?
    decreases |data|
  {
    if data == [] then []
    else
      var r := Parse(data, syncword);
      [r] + Drain(data[BytesReadOf(r, |data|)..], syncword)
  }

  /** A stretch of noise and the frame behind it. */
  datatype Segment = Segment(noise: seq<byte>, packet: Packet)

  function StreamOf(segments: seq<Segment>): seq<byte> {
    if segments == [] then []
    else segments[0].noise + Frame(segments[0].packet) + StreamOf(segments[1..])
  }

  /** In no noise, nor straddling its end, does a syncword start; `tail` follows the stream. */
  ghost predicate NoiseIsSilent(segments: seq<Segment>, tail: seq<byte>, syncword: int32) {
    segments != [] ==>
      && NoSyncBefore(StreamOf(segments) + tail, syncword, |segments[0].noise|)
      && NoiseIsSilent(segments[1..], tail, syncword)
  }

  /** What the decoder should make of one segment, and of all of them in order. */
  function ReceivedFrom(s: Segment): Parsed {
    Whole(s.packet.head, WireBody(s.packet), s.packet.foot, |s.noise| + |Frame(s.packet)|)
  }

  function Received(segments: seq<Segment>): (rs: seq<Parsed>)
    ensures |rs| == |segments|
    ensures forall i :: 0 <= i < |rs| ==> rs[i] == ReceivedFrom(segments[i])
  {
    if segments == [] then [] else [ReceivedFrom(segments[0])] + Received(segments[1..])
  }

  /** A stream of frames decodes to exactly those frames, whatever their bodies contain: a
      syncword inside a body is never mistaken for the start of a frame.  What follows the last
      frame, the beginning of another for instance, is decoded on its own. */
  lemma {:induction false} DrainReturnsTheFrames(segments: seq<Segment>, tail: seq<byte>, syncword: int32)
    requires forall i :: 0 <= i < |segments| ==> Honest(segments[i].packet, syncword)
    requires NoiseIsSilent(segments, tail, syncword)
    ensures Drain(StreamOf(segments) + tail, syncword) == Received(segments) + Drain(tail, syncword)
  {
    hide Frame, Honest, XorFold, Parse, AfterParse, NoSyncBefore;
    if segments == [] {
      assert StreamOf(segments) + tail == tail;
    } else {
      var s, more := segments[0], StreamOf(segments[1..]) + tail;
      var data := StreamOf(segments) + tail;
      assert data == s.noise + Frame(s.packet) + more;
      ResyncRoundTrip(s.noise, s.packet, more, syncword, s.packet);
      assert data[|s.noise| + |Frame(s.packet)|..] == more;
      DrainReturnsTheFrames(segments[1..], tail, syncword);
    }
  }

  /** And each of them is accepted exactly when it folds to 0. */
  lemma StreamVerdicts(segments: seq<Segment>, tail: seq<byte>, syncword: int32, i: nat, was: Packet)
    requires forall k :: 0 <= k < |segments| ==> Honest(segments[k].packet, syncword)
    requires NoiseIsSilent(segments, tail, syncword)
    requires i < |segments|
    ensures var rs := Drain(StreamOf(segments) + tail, syncword);
            && |rs| >= |segments|
            && (AfterParse(was, syncword, rs[i]).ok <==> XorFold(Frame(segments[i].packet)) == 0)
  {
    hide Drain, StreamOf, Frame, SegmentFold, XorFold, Honest, NoiseIsSilent;
    DrainReturnsTheFrames(segments, tail, syncword);
    FoldOfFrame(segments[i].packet);
  }

  /** For packets sealed by OnSeal: when their fastcode was 0 before. */
  lemma SealedStreamVerdicts(segments: seq<Segment>, tail: seq<byte>, syncword: int32, i: nat, p: Packet, was: Packet)
    requires forall k :: 0 <= k < |segments| ==> Honest(segments[k].packet, syncword)
    requires NoiseIsSilent(segments, tail, syncword)
    requires i < |segments| && segments[i].packet == Sealed(p)
    ensures var rs := Drain(StreamOf(segments) + tail, syncword);
            && |rs| >= |segments|
            && (AfterParse(was, syncword, rs[i]).ok <==> p.head.fastcode == 0)
  {
    hide Drain, StreamOf, Frame, Sealed, XorFold, Honest, NoiseIsSilent, AfterParse;
    StreamVerdicts(segments, tail, syncword, i, was);
    SealClearsTotal(p);
  }

  /** Without noise there is nothing to ask for. */
  lemma {:induction false} FramesAloneAreSilent(segments: seq<Segment>, tail: seq<byte>, syncword: int32)
    requires forall s :: s in segments ==> s.noise == []
    ensures NoiseIsSilent(segments, tail, syncword)
  {
    if segments != [] {
      FramesAloneAreSilent(segments[1..], tail, syncword);
    }
  }

  /** No strict prefix of a frame is taken for a frame: it is read to its end and rejected. */
  lemma PrefixIsRejected(p: Packet, n: nat, was: Packet)
    requires Honest(p, p.head.syncword)
    requires n < |Frame(p)|
    ensures var r := Parse(Frame(p)[..n], p.head.syncword);
            && !AfterParse(was, p.head.syncword, r).ok
            && BytesReadOf(r, n) == n
  {
    hide HeadBytes, ReadHead, FootBytes, ReadFoot, XorFold, FirstOccurrence;
    var data := Frame(p)[..n];
    if n > 4 {
      FrameStartsWithSyncword(p);
      assert data[0..4] == Frame(p)[..4];
      SyncFound(data, p.head.syncword, 0);
      if n >= HEAD_SIZE {
        FrameParses(p, p.head.size, []);
        assert Frame(p) + [] == Frame(p);
        assert data[0..HEAD_SIZE] == Frame(p)[..HEAD_SIZE];
        assert |data[HEAD_SIZE..]| < |WireBody(p)| + FOOT_SIZE;
      }
    }
  }

  // ----- the verdict

  /** The converse of the round trip: whatever the decoder reads to the end is, byte for byte,
      the frame of the packet it leaves behind, and that packet is honest. */
  lemma DecodedReencodes(data: seq<byte>, syncword: int32, was: Packet)
    requires Parse(data, syncword).Whole?
    ensures var r := Parse(data, syncword);
            var p := AfterParse(was, syncword, r);
            Honest(p, syncword) && data[SyncAt(data, syncword)..r.end] == Frame(p)
  {
    hide SessionID, SegmentFold, SyncAt, HeadBytes, ReadHead, FootBytes, ReadFoot, XorFold, FirstOccurrence;
    var r, at := Parse(data, syncword), SyncAt(data, syncword);
    var head, rest := data[at..at + HEAD_SIZE], data[at + HEAD_SIZE..];
    var n := |r.body|;
    HeadFillsItsBytes(head);
    FootFillsItsBytes(rest[n..n + FOOT_SIZE]);
    ThreeSegments(data, at, n);
    assert head[..4] == data[at..at + 4];
    HeadStartsWithSyncword(head);
    WordIsItsBytes(head[..4], syncword);
  }

  lemma ThreeSegments(data: seq<byte>, at: nat, n: nat)
    requires at + HEAD_SIZE + n + FOOT_SIZE <= |data|
    ensures var rest := data[at + HEAD_SIZE..];
            data[at..at + HEAD_SIZE + n + FOOT_SIZE] == data[at..at + HEAD_SIZE] + rest[..n] + rest[n..n + FOOT_SIZE]
  {
  }

  lemma HeadStartsWithSyncword(b: seq<byte>)
    requires |b| == HEAD_SIZE
    ensures ReadHead(b).syncword == ReadI32(b[..4])
  {
    assert b[0..4] == b[..4];
  }

  /** The segment-wise verdict is one XOR over the bytes of the frame as they lie in the buffer. */
  lemma VerdictIsOneFold(data: seq<byte>, syncword: int32, was: Packet)
    requires Parse(data, syncword).Whole?
    ensures var r := Parse(data, syncword);
            AfterParse(was, syncword, r).ok <==> XorFold(data[SyncAt(data, syncword)..r.end]) == 0
  {
    hide Parse, XorFold, SyncAt, HeadBytes, FootBytes;
    DecodedReencodes(data, syncword, was);
    FoldOfFrame(AfterParse(was, syncword, Parse(data, syncword)));
    ParsedBodyOnTheWire(data, syncword);
  }

  lemma ParsedBodyOnTheWire(data: seq<byte>, syncword: int32)
    requires Parse(data, syncword).Whole?
    ensures var r := Parse(data, syncword); r.head.uid == 0 ==> r.body == []
  {
    hide ReadHead, ReadFoot;
  }

  // ----- what a decoder does, in terms of the bytes alone

  /** Body and foot from position `start`: what is not there is not read, and the packet keeps what
      it had; the session number is known early for a packet without a body. */
  ghost predicate RestByBytes(data: seq<byte>, start: nat, size: int, was: Packet, now: Packet, bytesRead: int)
    requires start <= |data|
  {
    var bodyless := now.head.uid == 0;
    var n := if bodyless then 0 else size;
    var read := 0 <= n && start + n <= |data|;
    var whole := 0 <= n && start + n + 8 <= |data|;
    && now.body == (if bodyless || !read then was.body else data[start..start + n])
    && (if whole then now.foot.timestamp == Word64(data, start + n) else now.foot == was.foot)
    && now.sid == (if whole || bodyless then now.head.reserved % 0x40_0000 else 0)
    && bytesRead == (if whole then start + n + 8 else |data|)
    && (now.ok ==> whole)
  }

  /** The whole decoder: the head follows the first syncword, if 16 bytes are there, and the verdict
      is whether all bytes from the syncword to the end of the foot fold to 0. */
  ghost predicate DecodedByBytes(data: seq<byte>, syncword: int32, bodySize: FSNetBufferHead -> int,
                                 was: Packet, now: Packet, bytesRead: int)
  {
    var at := FirstOccurrence(I32Bytes(syncword), data);
    if at == FAIL_CODE || at + 16 > |data| then
      && now == was.(head := was.head.(syncword := syncword), sid := 0, ok := false)
      && bytesRead == |data|
    else
      && HeadLaidOut(now.head, data, at)
      && RestByBytes(data, at + 16, bodySize(now.head), was, now, bytesRead)
      && (now.ok <==>
            var end := at + 16 + (if now.head.uid == 0 then 0 else bodySize(now.head)) + 8;
            at + 24 <= end <= |data| && XorFold(data[at..end]) == 0)
  }

  /** On every buffer at all, failures included, the decoder does just that. */
  lemma DecodesByBytes(data: seq<byte>, syncword: int32, was: Packet)
    ensures var r := Parse(data, syncword);
            DecodedByBytes(data, syncword, (h: FSNetBufferHead) => h.size, was, AfterParse(was, syncword, r),
                           BytesReadOf(r, |data|))
  {
    hide DecodedByBytes;
    ParsedByBytes(data, syncword, (h: FSNetBufferHead) => h.size, was);
  }

  lemma ParsedByBytes(data: seq<byte>, syncword: int32, bodySize: FSNetBufferHead -> int, was: Packet)
    ensures var r := ParseAt(data, SyncAt(data, syncword), bodySize);
            DecodedByBytes(data, syncword, bodySize, was, AfterParse(was, syncword, r), BytesReadOf(r, |data|))
  {
    hide HeadLaidOut, ReadHead, FirstOccurrence, HeadBytes, XorFold, SessionID, ParseRest, RestByBytes, SegmentFold;
    ScanMissesOnlyTheLastPosition(I32Bytes(syncword), data);
    var at := SyncAt(data, syncword);
    if at != FAIL_CODE && |data| - at >= HEAD_SIZE {
      var head, rest := ReadHead(data[at..at + 16]), data[at + 16..];
      HeadReadIsLaidOut(data[at..at + 16]);
      HeadOfSlice(head, data, at);
      HeadFillsItsBytes(data[at..at + 16]);
      var r := ParseRest(head, bodySize(head), rest);
      RestDecodesByBytes(head, bodySize(head), rest, syncword, was);
      RestFromStart(data, at + 16, bodySize(head), was, AfterParse(was, syncword, r), BytesReadOf(r, |rest|));
      var end := (if head.uid == 0 then 0 else bodySize(head)) + 8;
      assert 8 <= end <= |rest| ==> data[at..at + 16 + end] == HeadBytes(head) + rest[..end];
    }
  }

  /** The same for the decoders that are given the head, which their verdict covers too. */
  lemma RestDecodesByBytes(head: FSNetBufferHead, size: int, rest: seq<byte>, syncword: int32, was: Packet)
    ensures var r := ParseRest(head, size, rest);
            var now := AfterParse(was, syncword, r);
            && now.head == head
            && RestByBytes(rest, 0, size, was, now, BytesReadOf(r, |rest|))
            && (now.ok <==>
                  var end := (if head.uid == 0 then 0 else size) + 8;
                  8 <= end <= |rest| && XorFold(HeadBytes(head) + rest[..end]) == 0)
  {
    hide ReadFoot, HeadBytes, FootBytes, XorFold, SessionID, Word64;
    var r := ParseRest(head, size, rest);
    SessionIsRemainder(head);
    if r.Whole? {
      var n := |r.body|;
      FootIsWord(rest[n..n + 8]);
      Word64OfSlice(rest, n, 8, 0);
      FootFillsItsBytes(rest[n..n + 8]);
      assert HeadBytes(head) + rest[..r.end] == HeadBytes(head) + rest[..n] + rest[n..n + 8];
      XorFoldConcat(HeadBytes(head) + rest[..n], rest[n..n + 8]);
      XorFoldConcat(HeadBytes(head), rest[..n]);
    }
  }

  lemma FootIsWord(b: seq<byte>)
    requires |b| == FOOT_SIZE
    ensures ReadFoot(b).timestamp == Word64(b, 0)
  {
    U64IsWord(b);
  }

  lemma RestFromStart(data: seq<byte>, start: nat, size: int, was: Packet, now: Packet, bytesRead: int)
    requires start <= |data|
    requires RestByBytes(data[start..], 0, size, was, now, bytesRead)
    ensures RestByBytes(data, start, size, was, now, start + bytesRead)
  {
    hide Word64;
    var n := if now.head.uid == 0 then 0 else size;
    if 0 <= n && start + n <= |data| {
      assert data[start..][0..0 + n] == data[start..start + n];
    }
    if 0 <= n && start + n + 8 <= |data| {
      assert data[start..|data|] == data[start..];
      Word64OfSlice(data, start, |data| - start, n);
    }
  }

  /** Whatever the high ten bits of `reserved` hold, the session number in the low 22 arrives. */
  lemma SessionArrives(garbage: seq<byte>, p: Packet, tail: seq<byte>, syncword: int32, was: Packet,
                       high: nat, session: nat)
    requires Honest(p, syncword)
    requires NoSyncBefore(garbage + Frame(p) + tail, syncword, |garbage|)
    requires p.head.reserved == high * 0x40_0000 + session && session < 0x40_0000
    ensures AfterParse(was, syncword, Parse(garbage + Frame(p) + tail, syncword)).sid == session
  {
    hide Parse, AfterParse, Frame, XorFold, SessionID;
    ResyncRoundTrip(garbage, p, tail, syncword, was);
    SessionIsLow22Bits(p.head, high, session);
    SessionIsRemainder(p.head);
  }

  /** Offsets in a frame whose bytes decide where the frame is and where it ends. */
  predicate IsFramingOffset(i: int) {
    0 <= i < 4 || 6 <= i < 12
  }

  /** Damage to one byte of an accepted frame, other than its syncword, uid and size, leaves
      the framing alone and is always detected. */
  lemma DamageIsDetected(data: seq<byte>, syncword: int32, i: nat, b: byte, was: Packet, was': Packet)
    requires Parse(data, syncword).Whole? && AfterParse(was, syncword, Parse(data, syncword)).ok
    requires SyncAt(data, syncword) + i < Parse(data, syncword).end
    requires !IsFramingOffset(i)
    requires data[SyncAt(data, syncword) + i] != b
    ensures var damaged := data[SyncAt(data, syncword) + i := b];
            && Parse(damaged, syncword).Whole?
            && Parse(damaged, syncword).end == Parse(data, syncword).end
            && !AfterParse(was', syncword, Parse(damaged, syncword)).ok
  {
    hide XorFold, Parse, SyncAt, AfterParse;
    var at, r := SyncAt(data, syncword), Parse(data, syncword);
    var damaged := data[at + i := b];
    DamageKeepsFraming(data, syncword, i, b);
    VerdictIsOneFold(data, syncword, was);
    VerdictIsOneFold(damaged, syncword, was');
    assert damaged[at..r.end] == data[at..r.end][i := b];
    XorFoldDamaged(data[at..r.end], i, b);
  }

  lemma DamageKeepsFraming(data: seq<byte>, syncword: int32, i: nat, b: byte)
    requires Parse(data, syncword).Whole?
    requires SyncAt(data, syncword) + i < Parse(data, syncword).end
    requires !IsFramingOffset(i)
    ensures SyncAt(data, syncword) >= 0
    ensures var damaged := data[SyncAt(data, syncword) + i := b];
            && SyncAt(damaged, syncword) == SyncAt(data, syncword)
            && Parse(damaged, syncword).Whole?
            && Parse(damaged, syncword).end == Parse(data, syncword).end
  {
    hide FirstOccurrence, ReadHead, ReadFoot;
    var at := SyncAt(data, syncword);
    SyncSurvives(data, syncword, at + i, b);
    FramingSurvives(data, at, i, b);
  }

  lemma SyncSurvives(data: seq<byte>, syncword: int32, k: nat, b: byte)
    requires SyncAt(data, syncword) != FAIL_CODE
    requires SyncAt(data, syncword) + 4 <= k < |data|
    ensures SyncAt(data[k := b], syncword) == SyncAt(data, syncword)
  {
    hide FirstFrom;
    var word, at, damaged := I32Bytes(syncword), SyncAt(data, syncword), data[k := b];
    assert damaged[at..at + 4] == data[at..at + 4];
    forall q | OccursAt(word, damaged, q)
      ensures at <= q
    {
      if q < at {
        assert damaged[q..q + 4] == data[q..q + 4];
        OccursInAllButLast(word, data, q);
      }
    }
    SyncFound(damaged, syncword, at);
  }

  lemma FramingSurvives(data: seq<byte>, at: nat, i: nat, b: byte)
    requires at + HEAD_SIZE <= |data| && at + i < |data|
    requires !IsFramingOffset(i)
    ensures var head, head' := ReadHead(data[at..at + HEAD_SIZE]), ReadHead(data[at + i := b][at..at + HEAD_SIZE]);
            head'.uid == head.uid && head'.size == head.size
  {
    hide ReadU16, ReadU32, ReadI32;
    var h, h' := data[at..at + HEAD_SIZE], data[at + i := b][at..at + HEAD_SIZE];
    assert h'[6..8] == h[6..8];
    assert h'[8..12] == h[8..12];
  }

  // ----- the decoders agree with each other

  /** Decoding in two steps, head first, is decoding in one step less the head's 16 bytes. */
  lemma SplitRefinesWhole(data: seq<byte>, syncword: int32, was: Packet)
    requires |data| >= HEAD_SIZE && data[..4] == I32Bytes(syncword)
    ensures var head, rest := ReadHead(data[..HEAD_SIZE]), data[HEAD_SIZE..];
            var split, whole := ParseRest(head, head.size, rest), Parse(data, syncword);
            && AfterParse(was, head.syncword, split) == AfterParse(was, syncword, whole)
            && BytesReadOf(split, |rest|) + HEAD_SIZE == BytesReadOf(whole, |data|)
  {
    hide HeadBytes, ReadHead, FootBytes, ReadFoot, XorFold, FirstOccurrence;
    assert data[0..4] == data[..4];
    assert data[0..HEAD_SIZE] == data[..HEAD_SIZE];
    SyncFound(data, syncword, 0);
  }

  /** The word scan never looks at the last position, and no decoder could tell: a frame that
      started there would lack its head. */
  lemma LastPositionDoesNotMatter(data: seq<byte>, syncword: int32, was: Packet)
    ensures var full := ParseAt(data, FirstOccurrence(I32Bytes(syncword), data), (h: FSNetBufferHead) => h.size);
            full == Parse(data, syncword)
  {
    hide ReadHead, ReadFoot, ParseRest, FirstOccurrence;
    ScanMissesOnlyTheLastPosition(I32Bytes(syncword), data);
  }
}
