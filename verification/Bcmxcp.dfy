/** drivers/bcmxcp_ser.c and the checksums of drivers/bcmxcp.c: commands are sent as checksummed
    frames, answers arrive as a sequence of numbered, checksummed frames. */
module Bcmxcp {

  type byte = b: int | 0 <= b < 256

  const START_BYTE: byte := 0xAB       // PW_COMMAND_START_BYTE
  const BUF_LEN := 128                 // my_buf and sbuf
  const MAX_START := 128

  function Total(s: seq<byte>): nat {
    if s == [] then 0 else Total(s[..|s| - 1]) + s[|s| - 1]
  }

  lemma {:induction false} TotalConcat(a: seq<byte>, b: seq<byte>)
    ensures Total(a + b) == Total(a) + Total(b)
    decreases |b|
  {
    if b == [] {
      assert a + b == a;
    } else {
      assert (a + b)[..|a + b| - 1] == a + b[..|b| - 1];
      TotalConcat(a, b[..|b| - 1]);
    }
  }

  lemma TotalSnoc(s: seq<byte>, i: nat)
    requires i < |s|
    ensures Total(s[..i + 1]) == Total(s[..i]) + s[i]
  {
    assert s[..i + 1][..i] == s[..i];
  }

  /** checksum_test(): over the frame that the length byte delimits. */
  method ChecksumTest(buf: seq<byte>) returns (ok: bool)
    requires |buf| >= 3 && buf[2] as int + 5 <= |buf|
    ensures ok <==> Total(buf[..buf[2] as int + 5]) % 256 == 0
  {
    assert Total([]) == 0 && buf[..0] == [];
    hide Total;
    var checksum: byte := 0;
    var length := buf[2] as int + 5;
    for i := 0 to length
      invariant checksum == Total(buf[..i]) % 256
    {
      TotalSnoc(buf, i);
      checksum := (checksum + buf[i]) % 256;
    }
    checksum := (0x100 - checksum) % 0x100;
    ok := checksum == 0;
  }

  /** calc_checksum(): over the header and the bytes its length byte announces. */
  method CalcChecksum(buf: seq<byte>) returns (c: byte)
    requires |buf| >= 2 && 2 + buf[1] as int <= |buf|
    ensures (Total(buf[..2 + buf[1] as int]) + c) % 256 == 0
  {
    c := 0;
    for i := 0 to 2 + buf[1] as int
      invariant (Total(buf[..i]) + c) % 256 == 0
    {
      TotalSnoc(buf, i);
      c := (c - buf[i] + 256) % 256;
    }
  }

  /** send_command(): the frame it puts together. */
  method CommandFrame(command: seq<byte>) returns (frame: seq<byte>)
    requires |command| + 3 <= BUF_LEN
    ensures |frame| == |command| + 3 && frame[0] == START_BYTE && frame[1] == |command| && frame[2..2 + |command|] == command
    ensures Total(frame) % 256 == 0
  {
    var sbuf: seq<byte> := [START_BYTE, |command|] + command;
    assert sbuf[..2 + sbuf[1]] == sbuf;
    var c := CalcChecksum(sbuf);
    frame := sbuf + [c];
    assert frame[..|sbuf|] == sbuf;
  }

  lemma {:induction false} TotalUpdate(s: seq<byte>, i: nat, b: byte)
    requires i < |s|
    ensures Total(s[i := b]) == Total(s) - s[i] + b
    decreases |s|
  {
    var n := |s| - 1;
    if i == n {
      assert s[i := b][..n] == s[..n];
    } else {
      assert s[i := b][..n] == s[..n][i := b];
      TotalUpdate(s[..n], i, b);
    }
  }

  /** Changing any one byte of a frame that passes the test makes it fail, as long as the byte is
      not the one that says how long the frame is. */
  lemma OneByteIsNoticed(frame: seq<byte>, i: nat, b: byte)
    requires i < |frame| && i != 2 && b != frame[i]
    requires |frame| >= 3 && frame[2] as int + 5 == |frame| && Total(frame) % 256 == 0
    ensures frame[i := b][2] as int + 5 == |frame| && Total(frame[i := b]) % 256 != 0
  {
    TotalUpdate(frame, i, b);
  }

  // ----- receiving -----

  /** Which block number answers which command. */
  predicate BlockOk(command: byte, block: byte) {
    && (command <= 0x43 ==> command - 0x30 == block)
    && (command >= 0x89 ==> block == if command == 0xA0 then 0x01 else 0x09)
  }

  /** Overflow: the source would write past the end of a buffer, and nothing is known from there. */
  datatype Answer = Ok(data: seq<byte>, rest: seq<byte>) | Failed | Overflow

  datatype Skipped = Found(rest: seq<byte>, start: nat) | NotFound

  /** The search for the start byte, with its count of bytes over the whole answer. */
  function Skip(input: seq<byte>, start: nat): (r: Skipped)
    requires start < MAX_START
    ensures r.Found? ==> start < r.start < MAX_START
    decreases |input|
  {
    if input == [] then NotFound
    else if input[0] != START_BYTE && start + 1 < MAX_START then Skip(input[1..], start + 1)
    else if start + 1 == MAX_START then NotFound
    else Found(input[1..], start + 1)
  }

  datatype Taken = Got(payload: seq<byte>, sequence: byte, rest: seq<byte>, start: nat) | Bad | Big

  /** One turn of the loop in get_answer(). */
  function TakeFrame(input: seq<byte>, command: byte, start: nat, pre: byte, room: nat): (r: Taken)
    requires start < MAX_START
    ensures r.Got? ==> r.sequence % 8 == pre + 1 && start < r.start < MAX_START && |r.payload| <= room
  {
    match Skip(input, start)
    case NotFound => Bad
    case Found(s, start') =>
      if |s| < 3 then Bad
      else if !BlockOk(command, s[0]) || s[1] < 1 || s[2] % 8 != pre + 1 then Bad
      else if 5 + s[1] as int > BUF_LEN && |s| >= BUF_LEN then Big
      else if |s| < 4 + s[1] as int then Bad
      else if Total([START_BYTE] + s[..4 + s[1] as int]) % 256 != 0 then Bad
      else if s[1] > room then Big
      else Got(s[3..3 + s[1] as int], s[2], s[4 + s[1] as int..], start')
  }

  /** An answer with bytes that were received before it. */
  function Prepend(done: seq<byte>, a: Answer): Answer {
    match a
    case Ok(data, rest) => Ok(done + data, rest)
    case Failed => Failed
    case Overflow => Overflow
  }

  /** get_answer(), from a position between frames. */
  function Receive(input: seq<byte>, command: byte, start: nat, pre: byte, room: nat): Answer
    requires start < MAX_START
    decreases 256 - pre as int
  {
    match TakeFrame(input, command, start, pre, room)
    case Bad => Failed
    case Big => Overflow
    case Got(payload, sequence, rest, start') =>
      if sequence >= 128 then Ok(payload, rest)
      else Prepend(payload, Receive(rest, command, start', sequence, room - |payload|))
  }

  // ----- the answers that are accepted -----

  /** One frame on the wire, with the bytes skipped before it. */
  datatype Part = Part(skip: seq<byte>, block: byte, sequence: byte, payload: seq<byte>, sum: byte)

  ghost predicate Small(p: Part) {
    1 <= |p.payload| && 5 + |p.payload| <= BUF_LEN
  }

  function FrameOf(p: Part): seq<byte> {
    [START_BYTE, p.block, |p.payload| % 256, p.sequence] + p.payload + [p.sum]
  }

  /** A frame that is accepted after pre, as the last one or not. */
  ghost predicate Accepted(p: Part, command: byte, pre: byte, last: bool) {
    && START_BYTE !in p.skip && Small(p) && BlockOk(command, p.block)
    && p.sequence % 8 == pre + 1 && (last <==> p.sequence >= 128)
    && Total(FrameOf(p)) % 256 == 0
  }

  ghost predicate Answers(parts: seq<Part>, command: byte, pre: byte)
    decreases |parts|
  {
    && parts != []
    && Accepted(parts[0], command, pre, |parts| == 1)
    && (|parts| > 1 ==> Answers(parts[1..], command, parts[0].sequence))
  }

  /** One frame on the wire, and what comes after it. */
  function Framed(p: Part, after: seq<byte>): seq<byte> {
    p.skip + FrameOf(p) + after
  }

  function Wire(parts: seq<Part>, after: seq<byte>): seq<byte> {
    if parts == [] then after else Framed(parts[0], Wire(parts[1..], after))
  }

  function Payloads(parts: seq<Part>): seq<byte> {
    if parts == [] then [] else parts[0].payload + Payloads(parts[1..])
  }

  /** Bytes looked at in search of start bytes. */
  function Searched(parts: seq<Part>): nat {
    if parts == [] then 0 else |parts[0].skip| + 1 + Searched(parts[1..])
  }

  /** The frames are numbered 1, 2, 3 and so on: all but the last carry exactly their number. */
  lemma {:induction false} Numbered(parts: seq<Part>, command: byte, pre: byte)
    requires Answers(parts, command, pre)
    ensures pre + |parts| <= 7
    ensures forall i :: 0 <= i < |parts| - 1 ==> parts[i].sequence == pre + 1 + i
    ensures parts[|parts| - 1].sequence % 8 == pre + |parts|
    decreases |parts|
  {
    if |parts| > 1 {
      var rest := parts[1..];
      Numbered(rest, command, parts[0].sequence);
      assert parts[0].sequence == pre + 1;
      forall i | 0 < i < |parts| - 1 ensures parts[i].sequence == pre + 1 + i { assert parts[i] == rest[i - 1]; }
      assert parts[|parts| - 1] == rest[|rest| - 1];
    }
  }

  lemma {:induction false} SkipGarbage(g: seq<byte>, tail: seq<byte>, start: nat)
    requires START_BYTE !in g && start + |g| + 1 < MAX_START
    ensures Skip(g + [START_BYTE] + tail, start) == Found(tail, start + |g| + 1)
    decreases |g|
  {
    var input := g + [START_BYTE] + tail;
    if g == [] {
      assert input[1..] == tail;
    } else {
      assert input[1..] == g[1..] + [START_BYTE] + tail;
      SkipGarbage(g[1..], tail, start + 1);
    }
  }

  lemma {:induction false} SkipFound(input: seq<byte>, start: nat) returns (g: seq<byte>)
    requires start < MAX_START && Skip(input, start).Found?
    ensures START_BYTE !in g && input == g + [START_BYTE] + Skip(input, start).rest
    ensures Skip(input, start).start == start + |g| + 1
    decreases |input|
  {
    if input[0] != START_BYTE && start + 1 < MAX_START {
      var h := SkipFound(input[1..], start + 1);
      g := [input[0]] + h;
      assert input == [input[0]] + input[1..];
    } else {
      g := [];
      assert input == [input[0]] + input[1..];
    }
  }

  /** A frame after its start byte. */
  function Body(p: Part, rest: seq<byte>): seq<byte> {
    [p.block, |p.payload| % 256, p.sequence] + p.payload + [p.sum] + rest
  }

  lemma BodyLayout(p: Part, rest: seq<byte>)
    requires Small(p)
    ensures var s, n := Body(p, rest), |p.payload|;
            && |s| >= 4 + n && s[0] == p.block && s[1] == n && s[2] == p.sequence
            && s[3..3 + n] == p.payload && s[4 + n..] == rest
            && [START_BYTE] + s[..4 + n] == FrameOf(p)
    ensures Framed(p, rest) == p.skip + [START_BYTE] + Body(p, rest)
  {}

  lemma BodyOf(s: seq<byte>, n: byte, skip: seq<byte>) returns (p: Part)
    requires |s| >= 4 + n && s[1] == n
    ensures p == Part(skip, s[0], s[2], s[3..3 + n], s[3 + n])
    ensures FrameOf(p) == [START_BYTE] + s[..4 + n]
    ensures Framed(p, s[4 + n..]) == skip + [START_BYTE] + s
  {
    p := Part(skip, s[0], s[2], s[3..3 + n], s[3 + n]);
    assert s == s[..4 + n] + s[4 + n..];
    assert FrameOf(p) == [START_BYTE] + s[..4 + n];
  }

  /** An accepted frame at the front of the input is taken whole. */
  lemma TakePart(p: Part, command: byte, start: nat, pre: byte, room: nat, rest: seq<byte>, last: bool)
    requires Accepted(p, command, pre, last)
    requires start + |p.skip| + 1 < MAX_START && |p.payload| <= room
    ensures TakeFrame(Framed(p, rest), command, start, pre, room)
            == Got(p.payload, p.sequence, rest, start + |p.skip| + 1)
  {
    BodyLayout(p, rest);
    SkipGarbage(p.skip, Body(p, rest), start);
    hide Skip, Total, Body, Framed, FrameOf, BlockOk;
  }

  /** Whatever is taken is an accepted frame. */
  lemma TakenIsPart(input: seq<byte>, command: byte, start: nat, pre: byte, room: nat) returns (p: Part)
    requires start < MAX_START && TakeFrame(input, command, start, pre, room).Got?
    ensures var g := TakeFrame(input, command, start, pre, room);
            && Accepted(p, command, pre, g.sequence >= 128)
            && input == Framed(p, g.rest)
            && p.payload == g.payload && p.sequence == g.sequence && g.start == start + |p.skip| + 1
  {
    hide Skip, Total, Framed, FrameOf, BlockOk;
    var skip := SkipFound(input, start);
    var s := Skip(input, start).rest;
    p := BodyOf(s, s[1], skip);
  }

  /** Every answer made of accepted frames that fit the buffers is put together exactly, and what
      follows it is left unread. */
  lemma {:induction false} AcceptedAnswers(parts: seq<Part>, command: byte, start: nat, pre: byte, room: nat, rest: seq<byte>)
    requires Answers(parts, command, pre) && start + Searched(parts) < MAX_START && |Payloads(parts)| <= room
    ensures Receive(Wire(parts, rest), command, start, pre, room) == Ok(Payloads(parts), rest)
    decreases |parts|
  {
    hide FrameOf, Framed, TakeFrame, Total, Receive, BlockOk, Small;
    var p, more := parts[0], parts[1..];
    var input, tail := Wire(parts, rest), Wire(more, rest);
    assert input == Framed(p, tail) && Payloads(parts) == p.payload + Payloads(more);
    assert p.sequence >= 128 <==> |parts| == 1;
    hide Accepted;
    TakePart(p, command, start, pre, room, tail, |parts| == 1);
    if |parts| == 1 {
      ReceiveLast(input, command, start, pre, room);
      assert p.payload + [] == p.payload;
    } else {
      AcceptedAnswers(more, command, start + |p.skip| + 1, p.sequence, room - |p.payload|, rest);
      hide Wire, Payloads, Searched, Answers;
      ReceiveMore(input, command, start, pre, room);
    }
  }

  lemma ReceiveLast(input: seq<byte>, command: byte, start: nat, pre: byte, room: nat)
    requires start < MAX_START
    requires var g := TakeFrame(input, command, start, pre, room); g.Got? && g.sequence >= 128
    ensures var g := TakeFrame(input, command, start, pre, room);
            Receive(input, command, start, pre, room) == Ok(g.payload, g.rest)
  {
    hide TakeFrame;
  }

  lemma ReceiveStops(input: seq<byte>, command: byte, start: nat, pre: byte, room: nat)
    requires start < MAX_START && !TakeFrame(input, command, start, pre, room).Got?
    ensures Receive(input, command, start, pre, room)
            == if TakeFrame(input, command, start, pre, room).Bad? then Failed else Overflow
  {
    hide TakeFrame;
  }

  lemma ReceiveMore(input: seq<byte>, command: byte, start: nat, pre: byte, room: nat)
    requires start < MAX_START
    requires var g := TakeFrame(input, command, start, pre, room); g.Got? && g.sequence < 128
    ensures var g := TakeFrame(input, command, start, pre, room);
            Receive(input, command, start, pre, room)
            == Prepend(g.payload, Receive(g.rest, command, g.start, g.sequence, room - |g.payload|))
  {
    hide TakeFrame;
  }

  /** Nothing else is accepted. */
  lemma {:induction false} OnlyAcceptedAnswers(input: seq<byte>, command: byte, start: nat, pre: byte, room: nat)
      returns (parts: seq<Part>)
    requires start < MAX_START && Receive(input, command, start, pre, room).Ok?
    ensures Answers(parts, command, pre) && start + Searched(parts) < MAX_START
    ensures var a := Receive(input, command, start, pre, room);
            input == Wire(parts, a.rest) && a.data == Payloads(parts) && |a.data| <= room
    decreases 256 - pre as int
  {
    var p := TakenIsPart(input, command, start, pre, room);
    hide Framed, TakeFrame, Total, BlockOk, Small;
    var g := TakeFrame(input, command, start, pre, room);
    if g.sequence >= 128 {
      parts := [p];
      assert parts[1..] == [];
    } else {
      var more := OnlyAcceptedAnswers(g.rest, command, g.start, g.sequence, room - |g.payload|);
      parts := [p] + more;
      assert parts[1..] == more;
    }
  }

  /** An answer is accepted if and only if it is made of at most seven frames numbered from one,
      the last one marked, each with its checksum right, that fit the buffers. */
  lemma AcceptedIff(input: seq<byte>, command: byte, room: nat, data: seq<byte>, rest: seq<byte>)
    ensures Receive(input, command, 0, 0, room) == Ok(data, rest)
            <==> exists parts :: Answers(parts, command, 0) && Searched(parts) < MAX_START && |data| <= room
                                 && input == Wire(parts, rest) && data == Payloads(parts)
  {
    if Receive(input, command, 0, 0, room) == Ok(data, rest) {
      var parts := OnlyAcceptedAnswers(input, command, 0, 0, room);
    }
    forall parts | Answers(parts, command, 0) && Searched(parts) < MAX_START && |data| <= room
                   && input == Wire(parts, rest) && data == Payloads(parts)
      ensures Receive(input, command, 0, 0, room) == Ok(data, rest)
    {
      AcceptedAnswers(parts, command, 0, 0, room, rest);
    }
  }

  // ----- a sender -----

  /** A frame with the checksum byte that makes its bytes add up to zero. */
  function Sealed(p: Part): Part {
    p.(sum := (256 - Total(FrameOf(p.(sum := 0))) % 256) % 256)
  }

  lemma SealedAddsUp(p: Part)
    ensures Total(FrameOf(Sealed(p))) % 256 == 0
  {
    var blank, q := FrameOf(p.(sum := 0)), Sealed(p);
    var last := |blank| - 1;
    assert FrameOf(q) == blank[last := q.sum];
    TotalUpdate(blank, last, q.sum);
  }

  /** The frames that carry the chunks, numbered on from pre, with the last one marked. */
  function Frames(chunks: seq<seq<byte>>, block: byte, pre: nat): seq<Part>
    requires pre + |chunks| <= 7
  {
    if chunks == [] then []
    else [Sealed(Part([], block, pre + 1 + (if |chunks| == 1 then 128 else 0), chunks[0], 0))]
         + Frames(chunks[1..], block, pre + 1)
  }

  function Flatten(chunks: seq<seq<byte>>): seq<byte> {
    if chunks == [] then [] else chunks[0] + Flatten(chunks[1..])
  }

  lemma {:induction false} FramesAnswer(chunks: seq<seq<byte>>, command: byte, block: byte, pre: nat)
    requires chunks != [] && pre + |chunks| <= 7 && BlockOk(command, block)
    requires forall i :: 0 <= i < |chunks| ==> 1 <= |chunks[i]| <= BUF_LEN - 5
    ensures var parts := Frames(chunks, block, pre);
            Answers(parts, command, pre) && |parts| == Searched(parts) == |chunks| && Payloads(parts) == Flatten(chunks)
    decreases |chunks|
  {
    var more, tail := chunks[1..], Frames(chunks[1..], block, pre + 1);
    var parts := Frames(chunks, block, pre);
    var p := parts[0];
    assert parts[1..] == tail;
    SealedAddsUp(Part([], block, p.sequence, chunks[0], 0));
    assert p.skip == [] && p.block == block && p.payload == chunks[0] && p.sequence % 8 == pre + 1;
    hide Total, FrameOf, BlockOk;
    assert Accepted(p, command, pre, |chunks| == 1);
    hide Sealed, Accepted;
    if more != [] { FramesAnswer(more, command, block, pre + 1); }
  }

  /** A payload in one to seven chunks of one to 123 bytes, sent as numbered and checksummed
      frames, is received exactly, whatever follows on the line. */
  lemma SentIsReceived(chunks: seq<seq<byte>>, command: byte, block: byte, room: nat, rest: seq<byte>)
    requires 1 <= |chunks| <= 7 && BlockOk(command, block) && |Flatten(chunks)| <= room
    requires forall i :: 0 <= i < |chunks| ==> 1 <= |chunks[i]| <= BUF_LEN - 5
    ensures Receive(Wire(Frames(chunks, block, 0), rest), command, 0, 0, room) == Ok(Flatten(chunks), rest)
  {
    FramesAnswer(chunks, command, block, 0);
    AcceptedAnswers(Frames(chunks, block, 0), command, 0, 0, room, rest);
  }

  /** A frame of a block that does not answer the command is refused. */
  lemma WrongBlock(p: Part, command: byte, start: nat, pre: byte, room: nat, rest: seq<byte>)
    requires START_BYTE !in p.skip && Small(p) && start + |p.skip| + 1 < MAX_START && !BlockOk(command, p.block)
    ensures TakeFrame(Framed(p, rest), command, start, pre, room) == Bad
  {
    BodyLayout(p, rest);
    SkipGarbage(p.skip, Body(p, rest), start);
    hide Skip, Total, Body, Framed, FrameOf, BlockOk;
  }

  /** Of the frames that are sent with a right number and checksum, those with a right block number
      are accepted: for a command up to 0x43 the command less 0x30, for 0xA0 the block 1, for the
      others from 0x89 on the block 9, and any block for the commands in between. */
  lemma BlockDecides(chunks: seq<seq<byte>>, command: byte, block: byte, room: nat, rest: seq<byte>)
    requires 1 <= |chunks| <= 7 && |Flatten(chunks)| <= room
    requires forall i :: 0 <= i < |chunks| ==> 1 <= |chunks[i]| <= BUF_LEN - 5
    ensures Receive(Wire(Frames(chunks, block, 0), rest), command, 0, 0, room) == Ok(Flatten(chunks), rest)
            <==> && (command <= 0x43 ==> block == command - 0x30)
                 && (command == 0xA0 ==> block == 1)
                 && (command >= 0x89 && command != 0xA0 ==> block == 9)
  {
    if BlockOk(command, block) {
      SentIsReceived(chunks, command, block, room, rest);
    } else {
      var parts := Frames(chunks, block, 0);
      var tail := Wire(parts[1..], rest);
      assert Wire(parts, rest) == Framed(parts[0], tail);
      WrongBlock(parts[0], command, 0, 0, room, tail);
      ReceiveStops(Wire(parts, rest), command, 0, 0, room);
    }
  }

  // ----- the loop -----

  /** The serial line: the bytes that will arrive; a read beyond them fails. */
  class Serial {
    var input: seq<byte>

    constructor (arriving: seq<byte>)
      ensures input == arriving
    {
      input := arriving;
    }

    /** The search for the start byte in get_answer(). */
    method FindStart(start: nat) returns (found: bool, start': nat)
      requires start < MAX_START
      modifies this
      ensures found <==> Skip(old(input), start).Found?
      ensures found ==> input == Skip(old(input), start).rest && start' == Skip(old(input), start).start
    {
      start' := start;
      while true
        invariant start' < MAX_START && Skip(input, start') == Skip(old(input), start)
        decreases |input|
      {
        if input == [] { return false, start'; }
        var b := input[0];
        if b == START_BYTE || start' + 1 >= MAX_START {
          found := start' + 1 != MAX_START;
          input, start' := input[1..], start' + 1;
          return;
        }
        input, start' := input[1..], start' + 1;
      }
    }

    /** The reads and tests of one turn in get_answer(); the payload is copied by the caller. */
    method ReadFrame(command: byte, start: nat, pre: byte, room: nat) returns (r: Taken)
      requires start < MAX_START
      modifies this
      ensures r == TakeFrame(old(input), command, start, pre, room)
      ensures r.Got? ==> input == r.rest
    {
      hide Skip, Total;
      var found, start' := FindStart(start);
      if !found { return Bad; }
      if |input| < 3 { return Bad; }
      var block, length, sequence := input[0], input[1] as int, input[2];
      if !BlockOk(command, block) || length < 1 || sequence % 8 != pre + 1 { return Bad; }
      if 5 + length > BUF_LEN && |input| >= BUF_LEN { return Big; }
      if |input| < 4 + length { return Bad; }
      var myBuf := [START_BYTE] + input[..4 + length];
      assert myBuf[..length + 5] == myBuf;
      var ok := ChecksumTest(myBuf);
      if !ok { return Bad; }
      if length > room { return Big; }
      r := Got(input[3..3 + length], sequence, input[4 + length..], start');
      input := input[4 + length..];
    }

    /** get_answer(): the length of the answer, -1 for a failure, -2 where a buffer would overflow. */
    method GetAnswer(command: byte, data: array<byte>) returns (res: int)
      modifies this, data
      ensures match Receive(old(input), command, 0, 0, data.Length)
              case Ok(answer, rest) => res == |answer| <= data.Length && data[..res] == answer && input == rest
              case Failed => res == -1
              case Overflow => res == -2
    {
      hide TakeFrame, Receive;
      var endLength: nat, start: nat, preSequence: byte := 0, 0, 0;
      assert data[..0] == [];
      PrependNothing(Receive(input, command, 0, 0, data.Length));
      while true
        invariant endLength <= data.Length && start < MAX_START && preSequence < 128
        invariant Receive(old(input), command, 0, 0, data.Length)
               == Prepend(data[..endLength], Receive(input, command, start, preSequence, data.Length - endLength))
        decreases 256 - preSequence as int
      {
        ghost var was := input;
        var f := ReadFrame(command, start, preSequence, data.Length - endLength);
        if !f.Got? {
          ReceiveStops(was, command, start, preSequence, data.Length - endLength);
          return if f == Bad then -1 else -2;
        }
        ghost var done := data[..endLength];
        var length := |f.payload|;
        forall i | 0 <= i < length { data[endLength + i] := f.payload[i]; }
        assert data[..endLength + length] == done + f.payload;
        endLength := endLength + length;
        if f.sequence >= 128 {
          ReceiveLast(was, command, start, preSequence, data.Length - |done|);
          return endLength;
        }
        ReceiveMore(was, command, start, preSequence, data.Length - |done|);
        PrependTwice(done, f.payload, Receive(input, command, f.start, f.sequence, data.Length - endLength));
        start, preSequence := f.start, f.sequence;
      }
    }
  }

  lemma PrependNothing(r: Answer)
    ensures Prepend([], r) == r
  {
    if r.Ok? { assert [] + r.data == r.data; }
  }

  lemma PrependTwice(a: seq<byte>, b: seq<byte>, r: Answer)
    ensures Prepend(a, Prepend(b, r)) == Prepend(a + b, r)
  {
    if r.Ok? { assert a + (b + r.data) == (a + b) + r.data; }
  }
}
