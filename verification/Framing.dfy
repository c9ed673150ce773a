/** Frame reader and writer of the tcp and websocket message queues
  * (deps/netmgr/msgque_tcp.go, deps/netmgr/msgque_ws.go, deps/msg/message.go).
  *
  * A frame is a 2-byte big-endian head length, the protobuf head, then the
  * body whose length the head carries.  The protobuf codec is a parameter. */
module Framing {
  import opened Basics

  newtype byte = x: int | 0 <= x < 256

  const HEAD_SIZE := 2
  const MAX_HEAD_LEN := 1024
  const DEFAULT_BUFF_SIZE := 1024 * 1024
  const MAX_UINT16 := 0xFFFF

  /** `fields` holds every head field other than body_len, by tag number. */
  datatype MsgHead = MsgHead(bodyLen: int, fields: map<nat, int>)

  datatype Packet = Packet(head: MsgHead, data: seq<byte>)

  datatype Codec = Codec(marshal: MsgHead -> Option<seq<byte>>, unmarshal: seq<byte> -> Option<MsgHead>)

  /** What the reader relies on from protobuf: decoding inverts encoding, and
    * the empty string is a head with no body. */
  ghost predicate Lawful(c: Codec) {
    && (forall h :: c.marshal(h).Some? ==> c.unmarshal(c.marshal(h).value) == Some(h))
    && EmptyHeadHasNoBody(c)
  }

  predicate EmptyHeadHasNoBody(c: Codec) {
    c.unmarshal([]).Some? && c.unmarshal([]).value.bodyLen == 0
  }

  /** What a receiving queue is configured with.  `accept` is the handler's
    * answer, as a function of everything handed to it so far. */
  datatype Receiver = Receiver(codec: Codec, readSize: int, dialled: bool, isGate: bool, accept: seq<Packet> -> bool)

  /** isInternalConn: we dialled it, or we are not a gate. */
  predicate IsInternalConn(rc: Receiver) {
    rc.dialled || !rc.isGate
  }

  predicate FitsFrame(rc: Receiver, total: int) {
    rc.readSize >= total || (IsInternalConn(rc) && total <= rc.readSize * 4)
  }

  /** The longest frame a receiver takes: its read size, and four times that on a
    * connection it dialled itself or on any server but a gate. */
  ghost function FrameLimit(rc: Receiver): int {
    if rc.dialled || !rc.isGate then 4 * rc.readSize else rc.readSize
  }

  function U16(hi: byte, lo: byte): int {
    hi as int * 256 + lo as int
  }

  function NewMessageHead(codec: Codec, headLen: nat, buffer: seq<byte>): Option<MsgHead> {
    if |buffer| < headLen then None else codec.unmarshal(buffer[..headLen])
  }

  // ---------------------------------------------------------------------
  // The pure one-pass decoder: the reference the buffered reader is held to

  datatype Parsed = Incomplete | Malformed | Frame(packet: Packet, size: nat)

  function ParseFrame(rc: Receiver, s: seq<byte>): (r: Parsed)
    ensures r.Frame? ==> HEAD_SIZE <= r.size <= |s|
  {
    if |s| < HEAD_SIZE then Incomplete
    else
      var headLen := U16(s[0], s[1]);
      if headLen > MAX_HEAD_LEN then Malformed
      else if |s| < HEAD_SIZE + headLen then Incomplete
      else
        match rc.codec.unmarshal(s[HEAD_SIZE..HEAD_SIZE + headLen])
        case None => Malformed
        case Some(head) =>
          var total := HEAD_SIZE + headLen + head.bodyLen;
          if head.bodyLen < 0 || !FitsFrame(rc, total) then Malformed
          else if |s| < total then Incomplete
          else Frame(Packet(head, s[HEAD_SIZE + headLen..total]), total)
  }

  /** The front of `s` is one whole frame of the packet: its head length in two
    * bytes, high byte first, the head, the body, and all of it within the limit. */
  ghost predicate FrameAt(rc: Receiver, s: seq<byte>, p: Packet, size: nat) {
    && 2 <= |s|
    && var headLen := s[0] as int * 256 + s[1] as int;
       && headLen <= 1024 && size == 2 + headLen + |p.data| <= |s| && size <= FrameLimit(rc)
       && rc.codec.unmarshal(s[2..2 + headLen]) == Some(p.head) && p.head.bodyLen == |p.data|
       && p.data == s[2 + headLen..size]
  }

  /** The front of `s` is the beginning of a frame nobody may accept: a head longer
    * than 1024 bytes, or one that does not decode, or a length that is negative or
    * takes the frame over the limit. */
  ghost predicate Refusable(rc: Receiver, s: seq<byte>) {
    && 2 <= |s|
    && var headLen := s[0] as int * 256 + s[1] as int;
       headLen > 1024
       || (2 + headLen <= |s|
           && match rc.codec.unmarshal(s[2..2 + headLen])
              case None => true
              case Some(head) => head.bodyLen < 0 || 2 + headLen + head.bodyLen > FrameLimit(rc))
  }

  /** What the decoder takes for a frame, and what for an error. */
  lemma ParsesExactly(rc: Receiver, s: seq<byte>, p: Packet, size: nat)
    ensures ParseFrame(rc, s) == Frame(p, size) <==> FrameAt(rc, s, p, size)
    ensures ParseFrame(rc, s).Malformed? <==> Refusable(rc, s)
  {
  }

  datatype Verdict = Open(rest: seq<byte>) | Rejected

  datatype Outcome = Outcome(delivered: seq<Packet>, verdict: Verdict)

  /** Everything delivered from `s` on top of `done`, and whether the stream is
    * still open (with its unfinished frame) or was rejected. */
  function DecodeStream(rc: Receiver, s: seq<byte>, done: seq<Packet>): Outcome
    decreases |s|
  {
    match ParseFrame(rc, s)
    case Incomplete => Outcome(done, Open(s))
    case Malformed => Outcome(done, Rejected)
    case Frame(packet, size) =>
      if rc.accept(done + [packet]) then DecodeStream(rc, s[size..], done + [packet])
      else Outcome(done + [packet], Rejected)
  }

  /** More bytes never change a frame or an error that was already decided. */
  lemma ParseStable(rc: Receiver, s: seq<byte>, t: seq<byte>)
    requires !ParseFrame(rc, s).Incomplete?
    ensures ParseFrame(rc, s + t) == ParseFrame(rc, s)
  {
    var headLen := U16(s[0], s[1]);
    if headLen <= MAX_HEAD_LEN {
      assert (s + t)[HEAD_SIZE..HEAD_SIZE + headLen] == s[HEAD_SIZE..HEAD_SIZE + headLen];
      var head := rc.codec.unmarshal(s[HEAD_SIZE..HEAD_SIZE + headLen]);
      if head.Some? && head.value.bodyLen >= 0 && ParseFrame(rc, s).Frame? {
        var total := HEAD_SIZE + headLen + head.value.bodyLen;
        assert (s + t)[HEAD_SIZE + headLen..total] == s[HEAD_SIZE + headLen..total];
      }
    }
  }

  /** Decoding a concatenation is decoding the first part and then resuming on
    * its unfinished frame; a rejection is final. */
  lemma {:induction false} DecodeResumes(rc: Receiver, s: seq<byte>, t: seq<byte>, done: seq<Packet>)
    ensures var o := DecodeStream(rc, s, done);
            DecodeStream(rc, s + t, done) ==
            if o.verdict.Rejected? then o else DecodeStream(rc, o.verdict.rest + t, o.delivered)
    decreases |s|
  {
    var p := ParseFrame(rc, s);
    if !p.Incomplete? {
      ParseStable(rc, s, t);
      if p.Frame? {
        assert (s + t)[p.size..] == s[p.size..] + t;
        DecodeResumes(rc, s[p.size..], t, done + [p.packet]);
      }
    }
  }

  /** The packet is one of the frames of the stream. */
  ghost predicate OnTheWire(rc: Receiver, s: seq<byte>, p: Packet) {
    exists at: nat, size: nat :: at <= |s| && FrameAt(rc, s[at..], p, size)
  }

  lemma OnTheWireLater(rc: Receiver, s: seq<byte>, n: nat, p: Packet)
    requires n <= |s| && OnTheWire(rc, s[n..], p)
    ensures OnTheWire(rc, s, p)
  {
    var at: nat, size: nat :| at <= |s[n..]| && FrameAt(rc, s[n..][at..], p, size);
    assert s[n..][at..] == s[n + at..];
  }

  /** Everything delivered from a stream is a frame of it, within the limit; and a
    * stream is rejected only by the handler, or at a frame nobody may accept. */
  lemma {:induction false} DecodesItsFrames(rc: Receiver, s: seq<byte>, done: seq<Packet>)
    ensures var o := DecodeStream(rc, s, done);
            && |done| <= |o.delivered| && o.delivered[..|done|] == done
            && (forall k :: |done| <= k < |o.delivered| ==> OnTheWire(rc, s, o.delivered[k]))
            && (o.verdict.Rejected? ==>
                  || (|done| < |o.delivered| && !rc.accept(o.delivered))
                  || exists at: nat :: at <= |s| && Refusable(rc, s[at..]))
    decreases |s|
  {
    assert s[0..] == s;
    match ParseFrame(rc, s)
    case Incomplete =>
    case Malformed =>
      ParsesExactly(rc, s, Packet(MsgHead(0, map[]), []), 0);
      assert Refusable(rc, s[0..]);
    case Frame(packet, size) =>
      ParsesExactly(rc, s, packet, size);
      assert FrameAt(rc, s[0..], packet, size);
      if rc.accept(done + [packet]) { RestDecodes(rc, s, done, packet, size); }
  }

  lemma {:induction false} RestDecodes(rc: Receiver, s: seq<byte>, done: seq<Packet>, packet: Packet, size: nat)
    requires ParseFrame(rc, s) == Frame(packet, size) && OnTheWire(rc, s, packet) && rc.accept(done + [packet])
    ensures var o := DecodeStream(rc, s, done);
            && |done| <= |o.delivered| && o.delivered[..|done|] == done
            && (forall k :: |done| <= k < |o.delivered| ==> OnTheWire(rc, s, o.delivered[k]))
            && (o.verdict.Rejected? ==>
                  || (|done| < |o.delivered| && !rc.accept(o.delivered))
                  || exists at: nat :: at <= |s| && Refusable(rc, s[at..]))
    decreases |s|, 0
  {
    var o := DecodeStream(rc, s[size..], done + [packet]);
    DecodesItsFrames(rc, s[size..], done + [packet]);
    assert o.delivered[..|done|] == o.delivered[..|done| + 1][..|done|];
    forall k | |done| <= k < |o.delivered| ensures OnTheWire(rc, s, o.delivered[k]) {
      if k == |done| {
        assert o.delivered[k] == o.delivered[..|done| + 1][k];
      } else {
        OnTheWireLater(rc, s, size, o.delivered[k]);
      }
    }
    if at: nat :| at <= |s[size..]| && Refusable(rc, s[size..][at..]) {
      assert s[size..][at..] == s[size + at..];
    }
  }

  /** Only frames of the stream have been delivered, each within the limit; and if
    * it was rejected, the handler refused the last one or a frame nobody may accept
    * is in it. */
  ghost predicate Accounts(rc: Receiver, s: seq<byte>, delivered: seq<Packet>, rejected: bool) {
    && (forall k :: 0 <= k < |delivered| ==> OnTheWire(rc, s, delivered[k]))
    && (rejected ==>
          || (delivered != [] && !rc.accept(delivered))
          || exists at: nat :: at <= |s| && Refusable(rc, s[at..]))
  }

  lemma OutcomeAccounts(rc: Receiver, s: seq<byte>, o: Outcome)
    requires DecodeStream(rc, s, []) == o
    ensures Accounts(rc, s, o.delivered, o.verdict.Rejected?)
  {
    DecodesItsFrames(rc, s, []);
  }

  /** Wherever a stream has got to, a frame nobody may accept ends it. */
  lemma RefusableEnds(rc: Receiver, s: seq<byte>, t: seq<byte>, done: seq<Packet>)
    requires var o := DecodeStream(rc, s, done); o.verdict.Open? && Refusable(rc, o.verdict.rest + t)
    ensures DecodeStream(rc, s + t, done) == Outcome(DecodeStream(rc, s, done).delivered, Rejected)
  {
    var o := DecodeStream(rc, s, done);
    DecodeResumes(rc, s, t, done);
    ParsesExactly(rc, o.verdict.rest + t, Packet(MsgHead(0, map[]), []), 0);
  }

  function Concat(chunks: seq<seq<byte>>): seq<byte> {
    if chunks == [] then [] else chunks[0] + Concat(chunks[1..])
  }

  /** The reader's verdict after being handed `chunks` one at a time. */
  function DecodeChunks(rc: Receiver, o: Outcome, chunks: seq<seq<byte>>): Outcome
    decreases |chunks|
  {
    if chunks == [] || o.verdict.Rejected? then o
    else DecodeChunks(rc, DecodeStream(rc, o.verdict.rest + chunks[0], o.delivered), chunks[1..])
  }

  /** However the bytes are cut, the result is that of the whole stream. */
  lemma {:induction false} ChunkingIndependent(rc: Receiver, o: Outcome, chunks: seq<seq<byte>>)
    requires o.verdict.Open? ==> ParseFrame(rc, o.verdict.rest).Incomplete?
    ensures DecodeChunks(rc, o, chunks) ==
            if o.verdict.Rejected? then o else DecodeStream(rc, o.verdict.rest + Concat(chunks), o.delivered)
    decreases |chunks|
  {
    if chunks == [] {
      if o.verdict.Open? { assert o.verdict.rest + [] == o.verdict.rest; }
    } else if o.verdict.Open? {
      var s := o.verdict.rest + chunks[0];
      var next := DecodeStream(rc, s, o.delivered);
      OpenRestIncomplete(rc, s, o.delivered);
      ChunkingIndependent(rc, next, chunks[1..]);
      DecodeResumes(rc, s, Concat(chunks[1..]), o.delivered);
      assert o.verdict.rest + Concat(chunks) == s + Concat(chunks[1..]);
    }
  }

  lemma {:induction false} OpenRestIncomplete(rc: Receiver, s: seq<byte>, done: seq<Packet>)
    ensures var o := DecodeStream(rc, s, done);
            o.verdict.Open? ==> ParseFrame(rc, o.verdict.rest).Incomplete? && |o.verdict.rest| <= |s|
    decreases |s|
  {
    var p := ParseFrame(rc, s);
    if p.Frame? { OpenRestIncomplete(rc, s[p.size..], done + [p.packet]); }
  }

  // ---------------------------------------------------------------------
  // The buffered reader

  class ReadState {
    var buf: array<byte>
    var offset: nat
    var headLen: nat
    var bodyLen: nat
    var msg: Option<MsgHead>
    ghost var bytes: seq<byte>     // the occupied part of `buf`

    ghost predicate Valid()
      reads this`buf, this`offset, this`bytes, buf
    {
      && offset == |bytes| <= buf.Length && buf[..offset] == bytes
      && HEAD_SIZE + MAX_HEAD_LEN <= buf.Length
    }

    /** newReadState. */
    constructor (size: int)
      ensures Valid() && fresh(buf) && buf.Length >= size
      ensures size <= 0 ==> buf.Length == 1048576
      ensures size > 0 ==> buf.Length == if size < HEAD_SIZE + MAX_HEAD_LEN then HEAD_SIZE + MAX_HEAD_LEN else size
      ensures bytes == [] && headLen == bodyLen == 0 && msg == None
    {
      var n := if size <= 0 then DEFAULT_BUFF_SIZE else size;
      if n < HEAD_SIZE + MAX_HEAD_LEN { n := HEAD_SIZE + MAX_HEAD_LEN; }
      buf := new byte[n];
      offset, headLen, bodyLen, msg, bytes := 0, 0, 0, None, [];
    }

    method ResetFrame()
      modifies this`headLen, this`bodyLen, this`msg
      ensures headLen == bodyLen == 0 && msg == None
    {
      headLen, bodyLen, msg := 0, 0, None;
    }

    method Grow(required: int)
      requires Valid()
      modifies this`buf
      ensures Valid() && (buf == old(buf) || fresh(buf))
      ensures buf.Length >= required && buf.Length >= old(buf.Length)
    {
      if required <= buf.Length { return; }
      var bigger := new byte[required];
      forall i | 0 <= i < offset { bigger[i] := buf[i]; }
      buf := bigger;
    }

    /** conn.Read(buf[offset:]) returning `chunk`. */
    method Append(chunk: seq<byte>)
      requires Valid() && offset + |chunk| <= buf.Length
      modifies this`offset, this`bytes, buf
      ensures Valid() && bytes == old(bytes) + chunk
    {
      forall i | 0 <= i < |chunk| { buf[offset + i] := chunk[i]; }
      offset := offset + |chunk|;
      bytes := bytes + chunk;
    }

    method Slice(ptr: nat, n: nat) returns (s: seq<byte>)
      requires Valid() && ptr + n <= offset
      ensures s == bytes[ptr..ptr + n]
    {
      s := buf[ptr..ptr + n];
    }

    /** copy(buf, buf[ptr:offset]): an overlapping move to the front. */
    method ShiftLeft(ptr: nat)
      requires Valid() && ptr <= offset
      modifies this`offset, this`bytes, buf
      ensures Valid() && bytes == old(bytes)[ptr..]
    {
      forall i | 0 <= i < offset - ptr { buf[i] := buf[ptr + i]; }
      offset := offset - ptr;
      bytes := bytes[ptr..];
    }
  }

  /** How many bytes of the current frame have already left the buffer. */
  function Dropped(headLen: nat, bodyLen: nat): nat {
    if headLen == 0 then 0 else if bodyLen == 0 then HEAD_SIZE else HEAD_SIZE + headLen
  }

  /** The zero-sentinel fields describe `frame`, the bytes received since the
    * last frame boundary, of which `pending` are still in the buffer. */
  ghost predicate Describes(rc: Receiver, headLen: nat, bodyLen: nat, msg: Option<MsgHead>,
                            pending: seq<byte>, frame: seq<byte>, room: nat)
  {
    && (headLen == 0 ==> bodyLen == 0)
    && Dropped(headLen, bodyLen) <= |frame|
    && pending == frame[Dropped(headLen, bodyLen)..]
    && (headLen > 0 ==> headLen <= MAX_HEAD_LEN && U16(frame[0], frame[1]) == headLen)
    && (bodyLen > 0 ==>
          && rc.codec.unmarshal(frame[HEAD_SIZE..HEAD_SIZE + headLen]) == msg
          && msg.Some? && msg.value.bodyLen == bodyLen
          && FitsFrame(rc, HEAD_SIZE + headLen + bodyLen)
          && HEAD_SIZE + headLen + bodyLen <= room)
  }

  lemma DescribesExtends(rc: Receiver, headLen: nat, bodyLen: nat, msg: Option<MsgHead>,
                         pending: seq<byte>, frame: seq<byte>, room: nat, chunk: seq<byte>)
    requires Describes(rc, headLen, bodyLen, msg, pending, frame, room)
    ensures Describes(rc, headLen, bodyLen, msg, pending + chunk, frame + chunk, room)
  {
    if bodyLen > 0 {
      assert (frame + chunk)[HEAD_SIZE..HEAD_SIZE + headLen] == frame[HEAD_SIZE..HEAD_SIZE + headLen];
    }
  }

  /** How one pass over the loop body ends: a frame was handed on and the loop
    * goes round, more bytes are needed, or the queue is stopped. */
  datatype Step = More | Wait | Stop

  /** The step the reference decoder takes on the same bytes. */
  ghost predicate Follows(rc: Receiver, step: Step, frame: seq<byte>, done: seq<Packet>,
                          frame': seq<byte>, done': seq<Packet>)
  {
    match ParseFrame(rc, frame)
    case Incomplete => step == Wait && frame' == frame && done' == done
    case Malformed => step == Stop && done' == done
    case Frame(packet, size) =>
      && done' == done + [packet]
      && if rc.accept(done') then step == More && frame' == frame[size..] else step == Stop
  }

  lemma FollowsDecode(rc: Receiver, step: Step, frame: seq<byte>, done: seq<Packet>,
                      frame': seq<byte>, done': seq<Packet>)
    requires Follows(rc, step, frame, done, frame', done')
    ensures DecodeStream(rc, frame, done) ==
            match step
            case More => DecodeStream(rc, frame', done')
            case Wait => Outcome(done', Open(frame'))
            case Stop => Outcome(done', Rejected)
    ensures step == More ==> |frame'| < |frame|
  {
  }

  /** With the head decoded and admitted, the body is all a frame waits for. */
  lemma BodyDecides(rc: Receiver, frame: seq<byte>, headLen: nat, head: MsgHead)
    requires HEAD_SIZE + headLen <= |frame| && U16(frame[0], frame[1]) == headLen <= MAX_HEAD_LEN
    requires rc.codec.unmarshal(frame[HEAD_SIZE..HEAD_SIZE + headLen]) == Some(head) && head.bodyLen >= 0
    requires FitsFrame(rc, HEAD_SIZE + headLen + head.bodyLen)
    ensures var total := HEAD_SIZE + headLen + head.bodyLen;
            ParseFrame(rc, frame) == if |frame| < total then Incomplete
                                     else Frame(Packet(head, frame[HEAD_SIZE + headLen..total]), total)
  {
  }

  lemma SameSuffix(bytes: seq<byte>, ptr: nat, frame: seq<byte>, at: nat, n: nat)
    requires ptr + n <= |bytes| && at <= |frame| && bytes[ptr..] == frame[at..]
    ensures at + n <= |frame|
    ensures bytes[ptr..ptr + n] == frame[at..at + n]
    ensures bytes[ptr + n..] == frame[at + n..]
  {
    assert bytes[ptr..ptr + n] == bytes[ptr..][..n] && frame[at..at + n] == frame[at..][..n];
    assert bytes[ptr + n..] == bytes[ptr..][n..] && frame[at + n..] == frame[at..][n..];
  }

  class MsgQue {
    const rc: Receiver
    var delivered: seq<Packet>     // what processMsg has been handed, in order
    ghost var stream: seq<byte>    // every byte read from the connection
    ghost var frame: seq<byte>     // those since the last frame boundary

    ghost predicate Valid(st: ReadState)
      reads this, st, st.buf
    {
      && st.Valid() && EmptyHeadHasNoBody(rc.codec)
      && st.offset < st.buf.Length && rc.readSize <= st.buf.Length
      && Describes(rc, st.headLen, st.bodyLen, st.msg, st.bytes, frame, st.buf.Length)
      && DecodeStream(rc, stream, []) == Outcome(delivered, Open(frame))
    }

    constructor (rc: Receiver)
      ensures this.rc == rc && delivered == [] && stream == [] && frame == []
    {
      this.rc := rc;
      delivered, stream, frame := [], [], [];
    }

    /** The state the read loop starts from. */
    method NewReadState() returns (st: ReadState)
      requires EmptyHeadHasNoBody(rc.codec)
      requires delivered == [] && stream == [] && frame == []
      ensures fresh(st) && fresh(st.buf) && Valid(st)
    {
      st := new ReadState(rc.readSize);
    }

    method EnsureFrameCapacity(st: ReadState) returns (ok: bool)
      requires st.Valid() && rc.readSize <= st.buf.Length
      modifies st`buf
      ensures st.Valid() && (st.buf == old(st.buf) || fresh(st.buf))
      ensures st.buf.Length >= old(st.buf.Length)
      ensures ok <==> HEAD_SIZE + st.headLen + st.bodyLen <= FrameLimit(rc)
      ensures ok ==> st.buf.Length >= HEAD_SIZE + st.headLen + st.bodyLen
    {
      var total := HEAD_SIZE + st.headLen + st.bodyLen;
      if rc.readSize >= total { return true; }
      if IsInternalConn(rc) {
        if total > rc.readSize * 4 { return false; }
        st.Grow(total);
      } else {
        return false;
      }
      return true;
    }

    method HandleReadMessage(st: ReadState, ptr: nat) returns (ok: bool)
      requires st.Valid() && ptr + st.bodyLen <= st.offset
      modifies this`delivered
      ensures st.msg.None? ==> !ok && delivered == old(delivered)
      ensures st.msg.Some? ==>
                && delivered == old(delivered) + [Packet(st.msg.value, st.bytes[ptr..ptr + st.bodyLen])]
                && ok == rc.accept(delivered)
    {
      if st.msg.None? { return false; }
      var data := st.Slice(ptr, st.bodyLen);
      delivered := delivered + [Packet(st.msg.value, data)];
      ok := rc.accept(delivered);
    }

    /** binary.BigEndian.Uint16(buf[ptr:ptr+2]). */
    method ReadHeadLen(st: ReadState, ptr: nat)
      requires st.Valid() && ptr + HEAD_SIZE <= st.offset && st.bytes[ptr..] == frame
      modifies st`headLen
      ensures |frame| >= HEAD_SIZE && st.headLen == U16(frame[0], frame[1])
      ensures st.bytes[ptr + HEAD_SIZE..] == frame[HEAD_SIZE..]
    {
      var two := st.Slice(ptr, HEAD_SIZE);
      SameSuffix(st.bytes, ptr, frame, 0, HEAD_SIZE);
      st.headLen := U16(two[0], two[1]);
    }

    /** The head stage: wait for the head, then decode it and size the buffer
      * for the body.  More means the head is in `msg`. */
    method ConsumeHead(st: ReadState, ptr: nat) returns (step: Step, next: nat)
      requires st.Valid() && rc.readSize <= st.buf.Length && ptr <= st.offset
      requires HEAD_SIZE <= |frame| && st.bytes[ptr..] == frame[HEAD_SIZE..]
      requires U16(frame[0], frame[1]) == st.headLen <= MAX_HEAD_LEN
      modifies st`msg, st`bodyLen, st`buf
      ensures st.Valid() && (st.buf == old(st.buf) || fresh(st.buf)) && old(st.buf.Length) <= st.buf.Length
      ensures step != More ==> Follows(rc, step, frame, delivered, frame, delivered)
      ensures step == Wait ==> st.bodyLen == old(st.bodyLen) && next == ptr && |frame| < HEAD_SIZE + st.headLen
      ensures step == More ==>
                && HEAD_SIZE + st.headLen <= |frame|
                && ptr <= next <= st.offset && st.bytes[next..] == frame[HEAD_SIZE + st.headLen..]
                && rc.codec.unmarshal(frame[HEAD_SIZE..HEAD_SIZE + st.headLen]) == st.msg
                && st.msg.Some? && st.bodyLen == st.msg.value.bodyLen
                && FitsFrame(rc, HEAD_SIZE + st.headLen + st.bodyLen)
                && HEAD_SIZE + st.headLen + st.bodyLen <= st.buf.Length
    {
      if st.offset - ptr < st.headLen { return Wait, ptr; }
      next := ptr + st.headLen;
      SameSuffix(st.bytes, ptr, frame, HEAD_SIZE, st.headLen);
      var buffer := st.Slice(ptr, st.offset - ptr);
      assert buffer[..st.headLen] == st.bytes[ptr..ptr + st.headLen];
      var head := NewMessageHead(rc.codec, st.headLen, buffer);
      if head == None || head.value.bodyLen < 0 { return Stop, next; }
      st.msg := head;
      st.bodyLen := head.value.bodyLen;
      var fits := EnsureFrameCapacity(st);
      step := if fits then More else Stop;
    }

    /** The body stage: wait for the body, or hand the message on. */
    method ConsumeBody(st: ReadState, ptr: nat) returns (step: Step, next: nat)
      requires st.Valid() && EmptyHeadHasNoBody(rc.codec) && ptr <= st.offset
      requires HEAD_SIZE + st.headLen <= |frame| && st.bytes[ptr..] == frame[HEAD_SIZE + st.headLen..]
      requires U16(frame[0], frame[1]) == st.headLen <= MAX_HEAD_LEN
      requires rc.codec.unmarshal(frame[HEAD_SIZE..HEAD_SIZE + st.headLen]) == st.msg
      requires st.msg.Some? && st.msg.value.bodyLen == st.bodyLen
      requires FitsFrame(rc, HEAD_SIZE + st.headLen + st.bodyLen)
      requires HEAD_SIZE + st.headLen + st.bodyLen <= st.buf.Length
      modifies this`delivered, this`frame, st`headLen, st`bodyLen, st`msg
      ensures Follows(rc, step, old(frame), old(delivered), frame, delivered)
      ensures step != Stop ==>
                && ptr <= next <= st.offset
                && Describes(rc, st.headLen, st.bodyLen, st.msg, st.bytes[next..], frame, st.buf.Length)
      ensures step == Wait ==> st.offset - next < st.buf.Length
    {
      next := ptr;
      BodyDecides(rc, frame, st.headLen, st.msg.value);
      assert |st.bytes[ptr..]| == |frame[HEAD_SIZE + st.headLen..]|;
      assert st.headLen == 0 ==> frame[HEAD_SIZE..HEAD_SIZE + st.headLen] == [];
      if st.offset - next < st.bodyLen { return Wait, next; }
      SameSuffix(st.bytes, next, frame, HEAD_SIZE + st.headLen, st.bodyLen);
      var accepted := HandleReadMessage(st, next);
      if !accepted { return Stop, next; }
      next := next + st.bodyLen;
      frame := frame[HEAD_SIZE + st.headLen + st.bodyLen..];
      st.ResetFrame();
      return More, next;
    }

    /** The first stage, skipped when a head length is already known. */
    method ConsumeHeadLen(st: ReadState, ptr: nat) returns (step: Step, next: nat)
      requires st.Valid() && ptr <= st.offset
      requires Describes(rc, st.headLen, st.bodyLen, st.msg, st.bytes[ptr..], frame, st.buf.Length)
      modifies st`headLen
      ensures step != More ==> Follows(rc, step, frame, delivered, frame, delivered)
      ensures step == Wait ==> next == ptr && st.headLen == old(st.headLen) && st.offset - next < HEAD_SIZE
      ensures step == More ==>
                && ptr <= next <= st.offset && HEAD_SIZE <= |frame|
                && U16(frame[0], frame[1]) == st.headLen <= MAX_HEAD_LEN
                && if st.bodyLen == 0 then st.bytes[next..] == frame[HEAD_SIZE..]
                   else st.headLen == old(st.headLen) > 0 && next == ptr
    {
      if st.headLen != 0 { return More, ptr; }
      if st.offset - ptr < HEAD_SIZE { return Wait, ptr; }
      ReadHeadLen(st, ptr);
      if st.headLen > MAX_HEAD_LEN { return Stop, ptr; }
      return More, ptr + HEAD_SIZE;
    }

    /** The stages before the body, each skipped when already done.  More means
      * the body is next. */
    method ConsumeToBody(st: ReadState, ptr: nat) returns (step: Step, next: nat)
      requires st.Valid() && rc.readSize <= st.buf.Length && ptr <= st.offset
      requires Describes(rc, st.headLen, st.bodyLen, st.msg, st.bytes[ptr..], frame, st.buf.Length)
      modifies st`headLen, st`bodyLen, st`msg, st`buf
      ensures st.Valid() && (st.buf == old(st.buf) || fresh(st.buf)) && old(st.buf.Length) <= st.buf.Length
      ensures step != More ==> Follows(rc, step, frame, delivered, frame, delivered)
      ensures step == Wait ==>
                && ptr <= next <= st.offset < next + st.buf.Length
                && Describes(rc, st.headLen, st.bodyLen, st.msg, st.bytes[next..], frame, st.buf.Length)
      ensures step == More ==>
                && ptr <= next <= st.offset && HEAD_SIZE + st.headLen <= |frame|
                && st.bytes[next..] == frame[HEAD_SIZE + st.headLen..]
                && U16(frame[0], frame[1]) == st.headLen <= MAX_HEAD_LEN
                && rc.codec.unmarshal(frame[HEAD_SIZE..HEAD_SIZE + st.headLen]) == st.msg
                && st.msg.Some? && st.msg.value.bodyLen == st.bodyLen
                && FitsFrame(rc, HEAD_SIZE + st.headLen + st.bodyLen)
                && HEAD_SIZE + st.headLen + st.bodyLen <= st.buf.Length
    {
      step, next := ConsumeHeadLen(st, ptr);
      if step == More && st.bodyLen == 0 { step, next := ConsumeHead(st, next); }
    }

    /** The loop body, resumed at whichever stage the sentinels say. */
    method ConsumeFrame(st: ReadState, ptr: nat) returns (step: Step, next: nat)
      requires st.Valid() && EmptyHeadHasNoBody(rc.codec) && rc.readSize <= st.buf.Length
      requires ptr <= st.offset
      requires Describes(rc, st.headLen, st.bodyLen, st.msg, st.bytes[ptr..], frame, st.buf.Length)
      modifies this`delivered, this`frame, st`headLen, st`bodyLen, st`msg, st`buf
      ensures st.Valid() && (st.buf == old(st.buf) || fresh(st.buf)) && old(st.buf.Length) <= st.buf.Length
      ensures Follows(rc, step, old(frame), old(delivered), frame, delivered)
      ensures step != Stop ==>
                && ptr <= next <= st.offset
                && Describes(rc, st.headLen, st.bodyLen, st.msg, st.bytes[next..], frame, st.buf.Length)
      ensures step == Wait ==> st.offset - next < st.buf.Length
    {
      step, next := ConsumeToBody(st, ptr);
      if step == More { step, next := ConsumeBody(st, next); }
    }

    method ConsumeFrames(st: ReadState) returns (ok: bool, ptr: nat)
      requires st.Valid() && EmptyHeadHasNoBody(rc.codec) && rc.readSize <= st.buf.Length
      requires Describes(rc, st.headLen, st.bodyLen, st.msg, st.bytes[0..], frame, st.buf.Length)
      modifies this`delivered, this`frame, st`headLen, st`bodyLen, st`msg, st`buf
      ensures st.Valid() && (st.buf == old(st.buf) || fresh(st.buf)) && old(st.buf.Length) <= st.buf.Length
      ensures DecodeStream(rc, old(frame), old(delivered)) == Outcome(delivered, if ok then Open(frame) else Rejected)
      ensures ok ==>
                && ptr <= st.offset < st.buf.Length + ptr
                && Describes(rc, st.headLen, st.bodyLen, st.msg, st.bytes[ptr..], frame, st.buf.Length)
    {
      ptr := 0;
      while true
        invariant st.Valid() && ptr <= st.offset
        invariant (st.buf == old(st.buf) || fresh(st.buf)) && old(st.buf.Length) <= st.buf.Length
        invariant Describes(rc, st.headLen, st.bodyLen, st.msg, st.bytes[ptr..], frame, st.buf.Length)
        invariant DecodeStream(rc, frame, delivered) == DecodeStream(rc, old(frame), old(delivered))
        decreases |frame|
      {
        ghost var frame0, delivered0 := frame, delivered;
        var step;
        step, ptr := ConsumeFrame(st, ptr);
        FollowsDecode(rc, step, frame0, delivered0, frame, delivered);
        match step {
          case Stop => return false, ptr;
          case Wait => return true, ptr;
          case More =>
        }
      }
    }

    /** One consume, after a read appended `chunk` behind the pending bytes. */
    method ConsumeReadBuffer(st: ReadState, ghost chunk: seq<byte>) returns (ok: bool)
      requires st.Valid() && EmptyHeadHasNoBody(rc.codec) && rc.readSize <= st.buf.Length
      requires Describes(rc, st.headLen, st.bodyLen, st.msg, st.bytes, frame + chunk, st.buf.Length)
      requires DecodeStream(rc, stream, []) == Outcome(delivered, Open(frame))
      modifies this, st, st.buf
      ensures stream == old(stream) + chunk
      ensures st.buf == old(st.buf) || fresh(st.buf)
      ensures ok ==> Valid(st)
      ensures !ok ==> DecodeStream(rc, stream, []) == Outcome(delivered, Rejected)
    {
      DecodeResumes(rc, stream, chunk, []);
      stream := stream + chunk;
      frame := frame + chunk;
      assert st.bytes[0..] == st.bytes;
      var ptr;
      ok, ptr := ConsumeFrames(st);
      if ok { st.ShiftLeft(ptr); }
    }

    /** One turn of the read loop: a read that fits the buffer, then a consume. */
    method Receive(st: ReadState, chunk: seq<byte>) returns (ok: bool)
      requires Valid(st) && st.offset + |chunk| <= st.buf.Length
      modifies this, st, st.buf
      ensures stream == old(stream) + chunk
      ensures st.buf == old(st.buf) || fresh(st.buf)
      ensures ok ==> Valid(st)
      ensures !ok ==> DecodeStream(rc, stream, []) == Outcome(delivered, Rejected)
    {
      DescribesExtends(rc, st.headLen, st.bodyLen, st.msg, st.bytes, frame, st.buf.Length, chunk);
      st.Append(chunk);
      ok := ConsumeReadBuffer(st, chunk);
    }

    /** The tcp read loop.  `sizes` is how much the connection is willing to
      * give at each turn; a read also never exceeds the free part of the buffer. */
    method ReadTcp(st: ReadState, incoming: seq<byte>, sizes: seq<nat>) returns (ok: bool, taken: nat)
      requires Valid(st) && stream == []
      modifies this, st, st.buf
      ensures taken <= |incoming| && stream == incoming[..taken]
      ensures ok ==> Valid(st) && DecodeStream(rc, incoming[..taken], []) == Outcome(delivered, Open(frame))
      ensures !ok ==> DecodeStream(rc, incoming, []) == Outcome(delivered, Rejected)
      ensures Accounts(rc, if ok then stream else incoming, delivered, !ok)
      ensures ok && |sizes| >= |incoming| && (forall k :: 0 <= k < |sizes| ==> sizes[k] > 0) ==> taken == |incoming|
    {
      ok, taken := true, 0;
      for k := 0 to |sizes|
        invariant ok && taken <= |incoming| && stream == incoming[..taken]
        invariant Valid(st) && (st.buf == old(st.buf) || fresh(st.buf))
        invariant (forall j :: 0 <= j < |sizes| ==> sizes[j] > 0) ==> taken >= k || taken == |incoming|
      {
        var n := Min(sizes[k], Min(st.buf.Length - st.offset, |incoming| - taken));
        if n > 0 {
          var chunk := incoming[taken..taken + n];
          TakeMore(incoming, taken, n);
          ok := Receive(st, chunk);
          taken := taken + n;
          if !ok {
            TakeMore(incoming, taken, |incoming| - taken);
            DecodeResumes(rc, incoming[..taken], incoming[taken..], []);
            OutcomeAccounts(rc, incoming, Outcome(delivered, Rejected));
            return;
          }
        }
      }
      OutcomeAccounts(rc, stream, Outcome(delivered, Open(frame)));
    }

    /** Skips empty websocket frames to the next one with bytes left. */
    method NextReader(frames: seq<seq<byte>>, reader0: seq<byte>, next0: nat) returns (reader: seq<byte>, next: nat)
      requires next0 <= |frames|
      ensures next0 <= next <= |frames|
      ensures reader + Concat(frames[next..]) == reader0 + Concat(frames[next0..])
      ensures reader == [] ==> next == |frames|
    {
      reader, next := reader0, next0;
      while reader == [] && next < |frames|
        invariant next0 <= next <= |frames|
        invariant reader + Concat(frames[next..]) == reader0 + Concat(frames[next0..])
      {
        assert frames[next..][1..] == frames[next + 1..];
        assert [] + Concat(frames[next..]) == frames[next] + Concat(frames[next + 1..]);
        reader, next := frames[next], next + 1;
      }
    }

    /** One read of n bytes of the current frame, and a consume; `rest` is what
      * the later frames hold. */
    method ReadSome(st: ReadState, reader: seq<byte>, n: nat, ghost rest: seq<byte>) returns (ok: bool)
      requires Valid(st) && n <= |reader| && st.offset + n <= st.buf.Length
      modifies this, st, st.buf
      ensures st.buf == old(st.buf) || fresh(st.buf)
      ensures |stream| == |old(stream)| + n
      ensures (reader + rest)[n..] == reader[n..] + rest
      ensures stream + (reader[n..] + rest) == old(stream) + (reader + rest)
      ensures ok ==> Valid(st)
      ensures !ok ==> DecodeStream(rc, old(stream) + (reader + rest), []) == Outcome(delivered, Rejected)
    {
      CutFront(stream, reader, n, rest);
      ok := Receive(st, reader[..n]);
      if !ok { DecodeResumes(rc, stream, reader[n..] + rest, []); }
    }

    /** One turn of the websocket read loop: the buffer is checked for room, then
      * a read stays within one frame. */
    method ReadTurn(st: ReadState, frames: seq<seq<byte>>, reader0: seq<byte>, next0: nat, size: nat)
      returns (ok: bool, reader: seq<byte>, next: nat)
      requires Valid(st) && next0 <= |frames|
      modifies this, st, st.buf
      ensures next <= |frames| && (st.buf == old(st.buf) || fresh(st.buf))
      ensures stream + (reader + Concat(frames[next..])) == old(stream) + (reader0 + Concat(frames[next0..]))
      ensures |stream| >= |old(stream)|
      ensures size > 0 ==> |stream| > |old(stream)| || reader + Concat(frames[next..]) == []
      ensures ok ==> Valid(st)
      ensures !ok ==>
                DecodeStream(rc, old(stream) + (reader0 + Concat(frames[next0..])), []) == Outcome(delivered, Rejected)
    {
      if st.offset == st.buf.Length {
        assert false;
      }
      reader, next := NextReader(frames, reader0, next0);
      var n := Min(size, Min(st.buf.Length - st.offset, |reader|));
      ok := true;
      if n > 0 {
        ok := ReadSome(st, reader, n, Concat(frames[next..]));
        reader := reader[n..];
      }
    }

    /** The websocket read loop: bytes arrive inside binary frames. */
    method ReadWebSocket(st: ReadState, frames: seq<seq<byte>>, sizes: seq<nat>)
      returns (ok: bool, ghost unread: seq<byte>)
      requires Valid(st) && stream == []
      modifies this, st, st.buf
      ensures stream + unread == Concat(frames)
      ensures ok ==> Valid(st) && DecodeStream(rc, stream, []) == Outcome(delivered, Open(frame))
      ensures !ok ==> DecodeStream(rc, Concat(frames), []) == Outcome(delivered, Rejected)
      ensures Accounts(rc, if ok then stream else Concat(frames), delivered, !ok)
      ensures ok && |sizes| >= |Concat(frames)| && (forall k :: 0 <= k < |sizes| ==> sizes[k] > 0) ==> unread == []
    {
      ok := true;
      var next, reader := 0, [];
      unread := Concat(frames);
      for k := 0 to |sizes|
        invariant ok && Valid(st) && (st.buf == old(st.buf) || fresh(st.buf))
        invariant 0 <= next <= |frames| && unread == reader + Concat(frames[next..])
        invariant stream + unread == Concat(frames)
        invariant (forall j :: 0 <= j < |sizes| ==> sizes[j] > 0) ==> |stream| >= k || unread == []
      {
        ok, reader, next := ReadTurn(st, frames, reader, next, sizes[k]);
        unread := reader + Concat(frames[next..]);
        if !ok {
          OutcomeAccounts(rc, Concat(frames), Outcome(delivered, Rejected));
          return;
        }
      }
      OutcomeAccounts(rc, stream, Outcome(delivered, Open(frame)));
    }
  }

  lemma TakeMore(s: seq<byte>, i: nat, n: nat)
    requires i + n <= |s|
    ensures s[..i] + s[i..i + n] == s[..i + n]
    ensures s[..i] + s[i..] == s
  {
  }

  lemma CutFront(before: seq<byte>, reader: seq<byte>, n: nat, rest: seq<byte>)
    requires n <= |reader|
    ensures (reader + rest)[n..] == reader[n..] + rest
    ensures before + reader[..n] + (reader[n..] + rest) == before + (reader + rest)
  {
  }

  // ---------------------------------------------------------------------
  // The frame encoder and the batching writer

  /** What Message.Bytes puts on the wire; None when it returns an error. */
  function Encode(codec: Codec, head: Option<MsgHead>, data: seq<byte>): Option<seq<byte>> {
    if head.None? then Some(data)
    else
      match codec.marshal(Stamped(head.value, data))
      case None => None
      case Some(bytes) =>
        if |bytes| > MAX_UINT16 then None
        else Some([(|bytes| / 256) as byte, (|bytes| % 256) as byte] + bytes + data)
  }

  function Stamped(head: MsgHead, data: seq<byte>): MsgHead {
    head.(bodyLen := Int32(|data|))
  }

  class Buffer {
    var contents: seq<byte>
    constructor () ensures contents == [] { contents := []; }
  }

  class Message {
    var head: Option<MsgHead>
    const data: seq<byte>

    constructor (head: Option<MsgHead>, data: seq<byte>)
      ensures this.head == head && this.data == data
    {
      this.head, this.data := head, data;
    }

    function Wire(codec: Codec): Option<seq<byte>>
      reads this
    {
      Encode(codec, head, data)
    }

    method Bytes(codec: Codec, buffer: Buffer) returns (ok: bool)
      modifies this, buffer
      ensures ok <==> old(Wire(codec)).Some?
      ensures buffer.contents == old(buffer.contents) + old(Wire(codec)).GetOr([])
      ensures head == if old(head).None? then None else Some(Stamped(old(head).value, data))
      ensures forall c: Codec :: Wire(c) == old(Wire(c))
    {
      if head == None {
        buffer.contents := buffer.contents + data;
        return true;
      }
      head := Some(head.value.(bodyLen := Int32(|data|)));
      var bytes := codec.marshal(head.value);
      if bytes == None { return false; }
      var headLen := |bytes.value|;
      if headLen > MAX_UINT16 { return false; }
      ghost var start := buffer.contents;
      buffer.contents := buffer.contents + [(headLen / 256) as byte];
      buffer.contents := buffer.contents + [(headLen % 256) as byte];
      buffer.contents := buffer.contents + bytes.value;
      buffer.contents := buffer.contents + data;
      assert buffer.contents
          == start + ([(headLen / 256) as byte, (headLen % 256) as byte] + bytes.value + data);
      return true;
    }
  }

  const MAX_SEND_QUEUE_LEN := 256

  function WireOf(codec: Codec, m: Message?): Option<seq<byte>>
    reads m
  {
    if m == null then Some([]) else m.Wire(codec)
  }

  /** What each queue entry would put on the wire; a nil entry writes nothing. */
  function Wires(codec: Codec, queue: seq<Message?>): (w: seq<Option<seq<byte>>>)
    reads queue
  {
    seq(|queue|, i requires 0 <= i < |queue| reads queue => WireOf(codec, queue[i]))
  }

  /** The frames one after the other; None once an entry fails. */
  function Join(wires: seq<Option<seq<byte>>>): Option<seq<byte>> {
    if wires == [] then Some([])
    else
      var rest := Join(wires[1..]);
      if wires[0].Some? && rest.Some? then Some(wires[0].value + rest.value) else None
  }

  lemma {:induction false} JoinAppend(a: seq<Option<seq<byte>>>, b: seq<Option<seq<byte>>>)
    ensures Join(a + b) == if Join(a).Some? && Join(b).Some? then Some(Join(a).value + Join(b).value) else None
    decreases |a|
  {
    if a == [] {
      assert a + b == b;
      if Join(b).Some? { assert [] + Join(b).value == Join(b).value; }
    } else {
      assert (a + b)[1..] == a[1..] + b;
      JoinAppend(a[1..], b);
      assert (a + b)[0] == a[0];
      if Join(a).Some? && Join(b).Some? {
        assert a[0].value + (Join(a[1..]).value + Join(b).value) == Join(a).value + Join(b).value;
      }
    }
  }

  lemma JoinNext(wires: seq<Option<seq<byte>>>, k: nat)
    requires k < |wires|
    ensures Join(wires[..k]).Some? && wires[k].Some? ==>
              Join(wires[..k + 1]) == Some(Join(wires[..k]).value + wires[k].value)
    ensures wires[k].None? ==> Join(wires).None?
  {
    assert wires[..k + 1] == wires[..k] + [wires[k]] && wires == wires[..k + 1] + wires[k + 1..];
    if wires[k].Some? { assert wires[k].value + [] == wires[k].value; }
    assert Join([wires[k]]) == wires[k];
    JoinAppend(wires[..k], [wires[k]]);
    JoinAppend(wires[..k + 1], wires[k + 1..]);
  }

  lemma FirstWire(codec: Codec, first: Message?, behind: seq<Message?>)
    ensures Wires(codec, [first] + behind) == [WireOf(codec, first)] + Wires(codec, behind)
    ensures ([WireOf(codec, first)] + Wires(codec, behind))[1..] == Wires(codec, behind)
  {
    var batch, wires := [first] + behind, [WireOf(codec, first)] + Wires(codec, behind);
    forall i | 0 <= i < |batch| ensures Wires(codec, batch)[i] == wires[i] {
      if i > 0 { assert batch[i] == behind[i - 1]; }
    }
  }

  class MsgWriter {
    const codec: Codec
    var cwrite: seq<Message?>
    var lastWriteBatch: nat

    constructor (codec: Codec)
      ensures this.codec == codec && cwrite == [] && lastWriteBatch == 0
    {
      this.codec := codec;
      cwrite, lastWriteBatch := [], 0;
    }

    method AppendWriteBuffer(buffer: Buffer, m: Message?) returns (ok: bool)
      modifies buffer, m
      ensures ok <==> old(WireOf(codec, m)).Some?
      ensures buffer.contents == old(buffer.contents) + old(WireOf(codec, m)).GetOr([])
      ensures WireOf(codec, m) == old(WireOf(codec, m))
    {
      if m == null { return true; }
      ok := m.Bytes(codec, buffer);
    }

    method DrainWriteQueue(buffer: Buffer, count: nat) returns (ok: bool)
      requires count <= |cwrite|
      modifies this`cwrite, buffer, cwrite
      ensures var wire := Join(old(Wires(codec, cwrite[..count])));
              && (ok <==> wire.Some?)
              && (ok ==> buffer.contents == old(buffer.contents) + wire.value && cwrite == old(cwrite)[count..])
      ensures forall x: Message? | x in old(cwrite) :: WireOf(codec, x) == old(WireOf(codec, x))
    {
      ghost var queue := cwrite;
      ghost var wires := Wires(codec, cwrite[..count]);
      for k := 0 to count
        invariant cwrite == queue[k..]
        invariant forall x: Message? | x in queue :: WireOf(codec, x) == old(WireOf(codec, x))
        invariant Join(wires[..k]).Some?
        invariant buffer.contents == old(buffer.contents) + Join(wires[..k]).value
      {
        var m := cwrite[0];
        cwrite := cwrite[1..];
        assert m == queue[k] && old(WireOf(codec, queue[k])) == wires[k];
        JoinNext(wires, k);
        ok := AppendWriteBuffer(buffer, m);
        if !ok { return; }
      }
      assert wires[..count] == wires;
      ok := true;
    }

    /** The frame batch for `first` and what is queued behind it, at most 256
      * entries; `arrivals` is what other goroutines queue during the delay. */
    method CollectWriteBatch(buffer: Buffer, first: Message?, arrivals: seq<Message?>) returns (ok: bool)
      modifies this, buffer, cwrite, arrivals, first
      ensures var queued := Min(|old(cwrite) + arrivals|, 256);
              var batch := [first] + (old(cwrite) + arrivals)[..queued];
              var wire := Join(old(Wires(codec, batch)));
              && (ok <==> wire.Some?)
              && (ok ==>
                    && buffer.contents == old(buffer.contents) + wire.value
                    && cwrite == (old(cwrite) + arrivals)[queued..]
                    && lastWriteBatch == queued + 1)
    {
      ghost var behind := (cwrite + arrivals)[..Min(|cwrite + arrivals|, MAX_SEND_QUEUE_LEN)];
      ghost var tail := Wires(codec, behind);
      FirstWire(codec, first, behind);
      ok := AppendWriteBuffer(buffer, first);
      if !ok { return; }
      cwrite := cwrite + arrivals;
      var queued := Min(|cwrite|, MAX_SEND_QUEUE_LEN);
      assert Wires(codec, cwrite[..queued]) == tail;
      ok := DrainWriteQueue(buffer, queued);
      if !ok { return; }
      lastWriteBatch := queued + 1;
    }
  }

  // ---------------------------------------------------------------------
  // Round trip

  function WireOfPacket(codec: Codec, p: Packet): Option<seq<byte>> {
    Encode(codec, Some(p.head), p.data)
  }

  /** The bytes of a message: its head length in two bytes, high byte first, the
    * head with the body's length filled in, and the body; and none if the head
    * does not encode or is longer than 65535 bytes. */
  lemma WireIs(codec: Codec, p: Packet)
    requires |p.data| < 0x8000_0000
    ensures var wire, head := WireOfPacket(codec, p), codec.marshal(p.head.(bodyLen := |p.data|));
            && (wire.Some? <==> head.Some? && |head.value| <= 65535)
            && (wire.Some? ==>
                  && |wire.value| == 2 + |head.value| + |p.data|
                  && wire.value[0] as int * 256 + wire.value[1] as int == |head.value|
                  && wire.value[2..2 + |head.value|] == head.value && wire.value[2 + |head.value|..] == p.data)
  {
  }

  /** `p` as the receiver should see it: the length field filled in. */
  function Delivered(p: Packet): Packet {
    Packet(p.head.(bodyLen := |p.data|), p.data)
  }

  /** The sizes a receiver takes: a head it can hold, a body length int32 can
    * carry, and a frame within its buffer limit. */
  predicate Acceptable(rc: Receiver, p: Packet) {
    && |p.data| < 0x8000_0000
    && var head := rc.codec.marshal(Stamped(p.head, p.data));
       && head.Some? && |head.value| <= MAX_HEAD_LEN
       && HEAD_SIZE + |head.value| + |p.data| <= if rc.dialled || !rc.isGate then 4 * rc.readSize else rc.readSize
  }

  /** A frame is read back as the message it was made from, whatever follows
    * it, exactly when the message is within those sizes. */
  lemma FrameRoundTrips(rc: Receiver, p: Packet, tail: seq<byte>)
    requires Lawful(rc.codec) && WireOfPacket(rc.codec, p).Some?
    ensures var wire := WireOfPacket(rc.codec, p).value;
            && (ParseFrame(rc, wire + tail) == Frame(Delivered(p), |wire|) <==> Acceptable(rc, p))
            && (FrameAt(rc, wire + tail, Delivered(p), |wire|) <==> Acceptable(rc, p))
  {
    ParsesExactly(rc, WireOfPacket(rc.codec, p).value + tail, Delivered(p), |WireOfPacket(rc.codec, p).value|);
    var head := rc.codec.marshal(Stamped(p.head, p.data)).value;
    var s := WireOfPacket(rc.codec, p).value + tail;
    assert U16(s[0], s[1]) == |head|;
    assert s[HEAD_SIZE..HEAD_SIZE + |head|] == head;
    assert HEAD_SIZE + |head| + |p.data| <= |s|;
    assert s[HEAD_SIZE + |head|..HEAD_SIZE + |head| + |p.data|] == p.data;
  }

  function DeliveredAll(ms: seq<Packet>): seq<Packet> {
    seq(|ms|, i requires 0 <= i < |ms| => Delivered(ms[i]))
  }

  function WiresOfPackets(codec: Codec, ms: seq<Packet>): seq<Option<seq<byte>>> {
    seq(|ms|, i requires 0 <= i < |ms| => WireOfPacket(codec, ms[i]))
  }

  /** One frame at the front is delivered and the rest decoded after it. */
  lemma FirstThenRest(rc: Receiver, first: Packet, tail: seq<byte>, done: seq<Packet>)
    requires Lawful(rc.codec) && Acceptable(rc, first) && rc.accept(done + [Delivered(first)])
    ensures WireOfPacket(rc.codec, first).Some?
    ensures DecodeStream(rc, WireOfPacket(rc.codec, first).value + tail, done)
         == DecodeStream(rc, tail, done + [Delivered(first)])
  {
    var wire := WireOfPacket(rc.codec, first).value;
    FrameRoundTrips(rc, first, tail);
    assert (wire + tail)[|wire|..] == tail;
  }

  lemma DeliveredFirst(ms: seq<Packet>, done: seq<Packet>, k: nat)
    requires k < |ms|
    ensures done + [Delivered(ms[0])] + DeliveredAll(ms[1..][..k]) == done + DeliveredAll(ms[..k + 1])
  {
    assert [Delivered(ms[0])] + DeliveredAll(ms[1..][..k]) == DeliveredAll(ms[..k + 1]);
  }

  /** Any list of acceptable messages, written as one batch, is delivered in
    * order and leaves nothing behind. */
  lemma {:induction false} BatchRoundTrips(rc: Receiver, ms: seq<Packet>, done: seq<Packet>)
    requires Lawful(rc.codec) && forall p :: p in ms ==> Acceptable(rc, p)
    requires forall k :: 0 < k <= |ms| ==> rc.accept(done + DeliveredAll(ms[..k]))
    ensures var wire := Join(WiresOfPackets(rc.codec, ms));
            && wire.Some?
            && DecodeStream(rc, wire.value, done) == Outcome(done + DeliveredAll(ms), Open([]))
    decreases |ms|
  {
    if ms == [] {
      assert done + DeliveredAll(ms) == done;
    } else {
      var next := done + [Delivered(ms[0])];
      forall k | 0 <= k < |ms| ensures rc.accept(next + DeliveredAll(ms[1..][..k])) {
        DeliveredFirst(ms, done, k);
      }
      assert rc.accept(next) by { assert next + DeliveredAll(ms[1..][..0]) == next; }
      BatchRoundTrips(rc, ms[1..], next);
      var wires := WiresOfPackets(rc.codec, ms);
      assert wires[1..] == WiresOfPackets(rc.codec, ms[1..]);
      FirstThenRest(rc, ms[0], Join(wires[1..]).value, done);
      DeliveredFirst(ms, done, |ms| - 1);
      assert ms[1..][..|ms| - 1] == ms[1..] && ms[..|ms|] == ms;
    }
  }

  lemma ChunksFromStart(rc: Receiver, chunks: seq<seq<byte>>)
    ensures DecodeChunks(rc, Outcome([], Open([])), chunks) == DecodeStream(rc, Concat(chunks), [])
  {
    ChunkingIndependent(rc, Outcome([], Open([])), chunks);
    assert [] + Concat(chunks) == Concat(chunks);
  }

  lemma BatchFromStart(rc: Receiver, ms: seq<Packet>)
    requires Lawful(rc.codec) && forall p :: p in ms ==> Acceptable(rc, p)
    requires forall k :: 0 < k <= |ms| ==> rc.accept(DeliveredAll(ms[..k]))
    ensures var wire := Join(WiresOfPackets(rc.codec, ms));
            wire.Some? && DecodeStream(rc, wire.value, []) == Outcome(DeliveredAll(ms), Open([]))
  {
    forall k | 0 < k <= |ms| ensures rc.accept([] + DeliveredAll(ms[..k])) {
      assert [] + DeliveredAll(ms[..k]) == DeliveredAll(ms[..k]);
    }
    BatchRoundTrips(rc, ms, []);
    assert [] + DeliveredAll(ms) == DeliveredAll(ms);
  }

  /** End to end: the written batch, cut into reads at will, comes out as the
    * messages that were sent. */
  lemma SentIsReceived(rc: Receiver, ms: seq<Packet>, chunks: seq<seq<byte>>)
    requires Lawful(rc.codec) && forall p :: p in ms ==> Acceptable(rc, p)
    requires forall k :: 0 < k <= |ms| ==> rc.accept(DeliveredAll(ms[..k]))
    requires Some(Concat(chunks)) == Join(WiresOfPackets(rc.codec, ms))
    ensures DecodeChunks(rc, Outcome([], Open([])), chunks) == Outcome(DeliveredAll(ms), Open([]))
  {
    ChunksFromStart(rc, chunks);
    BatchFromStart(rc, ms);
  }

  /** What goes out for `first` with `queue` behind it. */
  function BatchOf(first: Message?, queue: seq<Message?>): seq<Message?> {
    [first] + queue[..Min(|queue|, 256)]
  }

  function NonNil(batch: seq<Message?>): (ms: seq<Message>)
    ensures forall i :: 0 <= i < |ms| ==> ms[i] in batch
  {
    if batch == [] then []
    else if batch[0] == null then NonNil(batch[1..])
    else [batch[0]] + NonNil(batch[1..])
  }

  /** The batch's entries, nil ones aside, are the packets `ms`, as messages with
    * heads. */
  ghost predicate Carries(batch: seq<Message?>, ms: seq<Packet>)
    reads batch
  {
    var entries := NonNil(batch);
    && |entries| == |ms|
    && forall i :: 0 <= i < |ms| ==> entries[i].head == Some(ms[i].head) && entries[i].data == ms[i].data
  }

  /** Nil entries write nothing. */
  lemma {:induction false} NilsWriteNothing(codec: Codec, batch: seq<Message?>)
    ensures Join(Wires(codec, batch)) == Join(Wires(codec, NonNil(batch)))
  {
    if batch != [] {
      var wires, kept := Wires(codec, batch), Wires(codec, NonNil(batch));
      NilsWriteNothing(codec, batch[1..]);
      assert wires[1..] == Wires(codec, batch[1..]);
      if batch[0] != null {
        assert kept[0] == wires[0] && kept[1..] == Wires(codec, NonNil(batch[1..]));
      } else if Join(wires[1..]).Some? {
        assert [] + Join(wires[1..]).value == Join(wires[1..]).value;
      }
    }
  }

  lemma WiresAreOfPackets(codec: Codec, batch: seq<Message?>, ms: seq<Packet>)
    requires Carries(batch, ms)
    ensures Join(Wires(codec, batch)) == Join(WiresOfPackets(codec, ms))
  {
    NilsWriteNothing(codec, batch);
    assert Wires(codec, NonNil(batch)) == WiresOfPackets(codec, ms);
  }

  lemma {:induction false} JoinsIff(wires: seq<Option<seq<byte>>>)
    ensures Join(wires).Some? <==> forall w :: w in wires ==> w.Some?
  {
    if wires != [] { JoinsIff(wires[1..]); }
  }

  predicate Encodable(codec: Codec, p: Packet) {
    WireOfPacket(codec, p).Some?
  }

  lemma PacketsJoinIff(codec: Codec, ms: seq<Packet>)
    ensures Join(WiresOfPackets(codec, ms)).Some? <==> forall p :: p in ms ==> Encodable(codec, p)
  {
    var wires := WiresOfPackets(codec, ms);
    JoinsIff(wires);
    if forall p :: p in ms ==> Encodable(codec, p) {
      forall w | w in wires ensures w.Some? {
        var i :| 0 <= i < |wires| && wires[i] == w;
        assert Encodable(codec, ms[i]);
      }
    } else {
      var i :| 0 <= i < |ms| && !Encodable(codec, ms[i]);
      assert wires[i] in wires;
    }
  }

  ghost predicate Deliverable(rc: Receiver, ms: seq<Packet>) {
    && Lawful(rc.codec) && (forall p :: p in ms ==> Acceptable(rc, p))
    && forall k :: 0 < k <= |ms| ==> rc.accept(DeliveredAll(ms[..k]))
  }

  /** The writer's half of the way: the frames of the packets in order, unless
    * one of them cannot be encoded. */
  method WriteBatch(w: MsgWriter, first: Message?, arrivals: seq<Message?>, ghost ms: seq<Packet>)
    returns (ok: bool, bytes: seq<byte>)
    requires Carries(BatchOf(first, w.cwrite + arrivals), ms)
    modifies w, w.cwrite, arrivals, first
    ensures ok <==> forall p :: p in ms ==> Encodable(w.codec, p)
    ensures ok ==> Some(bytes) == Join(WiresOfPackets(w.codec, ms))
  {
    WiresAreOfPackets(w.codec, BatchOf(first, w.cwrite + arrivals), ms);
    PacketsJoinIff(w.codec, ms);
    ghost var wire := Join(Wires(w.codec, BatchOf(first, w.cwrite + arrivals)));
    var buffer := new Buffer();
    ok := w.CollectWriteBatch(buffer, first, arrivals);
    bytes := buffer.contents;
    if ok { assert bytes == [] + wire.value == wire.value; }
  }

  /** The tcp reader's half: when reads of whatever sizes have taken it all, the
    * handler has been given exactly the messages, and nothing is left over. */
  method ReadBatch(q: MsgQue, bytes: seq<byte>, sizes: seq<nat>, ghost ms: seq<Packet>)
    requires q.delivered == [] && q.stream == [] && q.frame == []
    requires Deliverable(q.rc, ms) && Some(bytes) == Join(WiresOfPackets(q.rc.codec, ms))
    requires |sizes| >= |bytes| && forall k :: 0 <= k < |sizes| ==> sizes[k] > 0
    modifies q
    ensures q.delivered == DeliveredAll(ms) && q.frame == []
  {
    BatchFromStart(q.rc, ms);
    var st := q.NewReadState();
    var open, taken := q.ReadTcp(st, bytes, sizes);
    if open { assert bytes[..taken] == bytes; }
  }

  /** From queue to handler: what CollectWriteBatch puts in a buffer, the read
    * loop delivers as exactly those messages, in order, with their lengths
    * filled in. */
  method WriteThenRead(w: MsgWriter, first: Message?, arrivals: seq<Message?>,
                       q: MsgQue, sizes: seq<nat>, ghost ms: seq<Packet>)
    returns (taken: bool)
    requires w.codec == q.rc.codec && Deliverable(q.rc, ms) && Carries(BatchOf(first, w.cwrite + arrivals), ms)
    requires q.delivered == [] && q.stream == [] && q.frame == []
    requires forall k :: 0 <= k < |sizes| ==> sizes[k] > 0
    modifies w, w.cwrite, arrivals, first, q
    ensures Join(WiresOfPackets(q.rc.codec, ms)).Some?
    ensures taken == (|sizes| >= |Join(WiresOfPackets(q.rc.codec, ms)).value|)
    ensures taken ==> q.delivered == DeliveredAll(ms) && q.frame == []
  {
    BatchFromStart(q.rc, ms);
    PacketsJoinIff(w.codec, ms);
    var ok, bytes := WriteBatch(w, first, arrivals, ms);
    taken := |sizes| >= |bytes|;
    if taken { ReadBatch(q, bytes, sizes, ms); }
  }
}
