/** Newline-separated lines of a byte stream that arrives in chunks, and the two readers:
    Socket::read() of clients/nutclient.cpp and upscli_readline() of clients/upsclient.c. */
module Lines {

  import opened Options

  function FindNewline(s: string, i: nat): (k: nat)
    requires i <= |s|
    ensures i <= k <= |s|
    ensures k < |s| ==> s[k] == '\n'
    ensures forall j :: i <= j < k ==> s[j] != '\n'
    decreases |s| - i
  {
    if i == |s| || s[i] == '\n' then i else FindNewline(s, i + 1)
  }

  /** The position of the first newline, or the length of the stream. */
  function LineEnd(s: string): (k: nat)
    ensures k <= |s|
    ensures k < |s| ==> s[k] == '\n'
    ensures forall i :: 0 <= i < k ==> s[i] != '\n'
  {
    FindNewline(s, 0)
  }

  lemma LineEndUnique(s: string, k: nat)
    requires k <= |s|
    requires k < |s| ==> s[k] == '\n'
    requires forall i :: 0 <= i < k ==> s[i] != '\n'
    ensures LineEnd(s) == k
  {
  }

  function Flatten(chunks: seq<string>): string {
    if chunks == [] then "" else chunks[0] + Flatten(chunks[1..])
  }

  /** A line and what remains of the stream after it. */
  datatype Taken = Taken(line: string, rest: string)

  /** The next line of a stream that holds a whole one. */
  function NextLine(s: string): Option<Taken> {
    var k := LineEnd(s);
    if k == |s| then None else Some(Taken(s[..k], s[k + 1..]))
  }

  /** The next piece of at most buflen - 1 bytes, as upscli_readline() delivers it: a longer
      line is cut and its rest stays in the stream. */
  function NextPiece(s: string, buflen: nat): Option<Taken>
    requires buflen >= 1
  {
    var k := LineEnd(s);
    if k < |s| && k < buflen - 1 then Some(Taken(s[..k], s[k + 1..]))
    else if buflen - 1 <= |s| then Some(Taken(s[..buflen - 1], s[buflen - 1..]))
    else None
  }

  /** On a stream holding a line, both readers deliver the same line and leave the same rest if
      and only if the line with its newline is shorter than the buffer. */
  lemma ReadersAgreeIff(s: string, buflen: nat)
    requires buflen >= 1 && NextLine(s).Some?
    ensures NextPiece(s, buflen) == NextLine(s) <==> |NextLine(s).value.line| + 1 < buflen
  {
    var k := LineEnd(s);
    if !(k < buflen - 1) {
      assert |s[k + 1..]| < |s[buflen - 1..]|;
    }
  }

  /** All complete lines of a stream. */
  function AllLines(s: string): seq<string>
    decreases |s|
  {
    match NextLine(s)
    case None => []
    case Some(t) => [t.line] + AllLines(t.rest)
  }

  /** The unfinished line at the end of a stream. */
  function Remainder(s: string): string
    decreases |s|
  {
    match NextLine(s)
    case None => s
    case Some(t) => Remainder(t.rest)
  }

  function JoinLines(lines: seq<string>): string {
    if lines == [] then "" else lines[0] + "\n" + JoinLines(lines[1..])
  }

  lemma NoLine(s: string)
    requires '\n' !in s
    ensures NextLine(s) == None
  {
    LineEndUnique(s, |s|);
  }

  lemma LineSplits(s: string)
    requires NextLine(s).Some?
    ensures s == NextLine(s).value.line + "\n" + NextLine(s).value.rest
    ensures '\n' !in NextLine(s).value.line
  {
  }

  lemma LineEndInside(res: string, b: string, f: string)
    requires '\n' !in res && LineEnd(b) < |b|
    ensures LineEnd(res + (b + f)) == |res| + LineEnd(b)
  {
    var all := res + (b + f);
    var k := |res| + LineEnd(b);
    forall i | 0 <= i < k ensures all[i] != '\n' {
      assert all[i] == if i < |res| then res[i] else b[i - |res|];
    }
    LineEndUnique(all, k);
  }

  lemma SliceParts(res: string, b: string, f: string, k: nat)
    requires k < |b|
    ensures (res + (b + f))[..|res| + k] == res + b[..k]
    ensures (res + (b + f))[|res| + k + 1..] == b[k + 1..] + f
  {
  }

  /** A line that begins with res and ends within b. */
  lemma LineFound(res: string, b: string, f: string, k: nat)
    requires '\n' !in res && k == LineEnd(b) < |b|
    ensures NextLine(res + (b + f)) == Some(Taken(res + b[..k], b[k + 1..] + f))
  {
    var all := res + (b + f);
    LineEndInside(res, b, f);
    SliceParts(res, b, f, k);
    NextLineAt(all, |res| + k);
  }

  lemma NextLineAt(s: string, k: nat)
    requires k == LineEnd(s) < |s|
    ensures NextLine(s) == Some(Taken(s[..k], s[k + 1..]))
  {
  }

  /** The lines and the remainder are a partition of the stream: nothing is lost or invented. */
  lemma {:induction false} LinesPartition(s: string)
    ensures JoinLines(AllLines(s)) + Remainder(s) == s
    ensures '\n' !in Remainder(s)
    ensures forall i :: 0 <= i < |AllLines(s)| ==> '\n' !in AllLines(s)[i]
    decreases |s|
  {
    if NextLine(s).Some? {
      var t := NextLine(s).value;
      LinesPartition(t.rest);
      LineSplits(s);
      JoinCons(t.line, AllLines(t.rest), Remainder(t.rest));
    }
  }

  lemma JoinCons(l: string, ls: seq<string>, r: string)
    ensures JoinLines([l] + ls) + r == l + "\n" + (JoinLines(ls) + r)
  {
    assert ([l] + ls)[1..] == ls;
  }

  /** What a reader of lines keeps when it gives up: only the last chunk it took in. */
  function KeptRest(buffer: string, chunks: seq<string>): string {
    if chunks == [] then buffer else chunks[|chunks| - 1]
  }

  lemma MoveOver(res: string, b: string, f: string)
    ensures res + (b + f) == res + b + f
  {
  }

  lemma FlattenNothing(res: string, b: string)
    ensures res + Flatten([]) == res && b + Flatten([]) == b
  {
  }

  lemma FlattenNext(chunks: seq<string>)
    requires chunks != []
    ensures Flatten(chunks) == chunks[0] + Flatten(chunks[1..])
  {
  }

  lemma {:induction false} FlattenLength(chunks: seq<string>)
    requires forall i :: 0 <= i < |chunks| ==> chunks[i] != ""
    ensures |Flatten(chunks)| >= |chunks|
    ensures chunks != [] ==> |Flatten(chunks)| >= |chunks| - 1 + |chunks[|chunks| - 1]|
  {
    if chunks != [] { FlattenLength(chunks[1..]); }
  }

  /** The unread rest is kept if and only if nothing new was read, or one chunk into an empty buffer. */
  lemma RestKeptIff(buffer: string, chunks: seq<string>)
    requires forall i :: 0 <= i < |chunks| ==> chunks[i] != ""
    ensures KeptRest(buffer, chunks) == buffer + Flatten(chunks)
            <==> chunks == [] || (buffer == "" && |chunks| == 1)
  {
    FlattenLength(chunks);
    if |chunks| == 1 { assert Flatten(chunks) == chunks[0] + Flatten(chunks[1..]) == chunks[0]; }
  }

  lemma GaveUp(buffer: string, chunks: seq<string>, n: nat)
    requires n == |chunks|
    ensures KeptRest(buffer, chunks) == if n == 0 then buffer else chunks[n - 1]
    ensures (forall i :: 0 <= i < |chunks| ==> chunks[i] != "") ==>
              (KeptRest(buffer, chunks) == buffer + Flatten(chunks) <==> chunks == [] || (buffer == "" && |chunks| == 1))
  {
    if forall i :: 0 <= i < |chunks| ==> chunks[i] != "" { RestKeptIff(buffer, chunks); }
  }

  /** A timeout between two parts of a line: the retry returns a line without its first part. */
  lemma PartIsLost()
    ensures var chunks := ["VAR ups battery", ".charge "];
            && NextLine(Flatten(chunks)) == None
            && NextLine(KeptRest("", chunks) + "90\n") == Some(Taken(".charge 90", ""))
            && KeptRest("", chunks) != Flatten(chunks)
  {
    var chunks := ["VAR ups battery", ".charge "];
    assert chunks[1..] == [".charge "] && chunks[1..][1..] == [];
    assert Flatten(chunks[1..]) == ".charge ";
    assert Flatten(chunks) == "VAR ups battery.charge ";
    NoLine(Flatten(chunks));
    var s := ".charge 90\n";
    assert KeptRest("", chunks) + "90\n" == s && s[..10] == ".charge 90" && s[11..] == "";
    LineEndUnique(s, 10);
    NextLineAt(s, 10);
  }

  /** The receiving side of nut::Socket. The chunks are what successive reads of the descriptor
      will deliver; when they run out the next read throws. */
  class Socket {
    var buffer: string
    var chunks: seq<string>

    ghost function Pending(): string
      reads this
    {
      buffer + Flatten(chunks)
    }

    constructor (arriving: seq<string>)
      ensures Pending() == Flatten(arriving) && chunks == arriving
    {
      buffer, chunks := "", arriving;
    }

    /** Socket::read(). None stands for the exception; the part of an unfinished line that had
        been moved out of the buffer is then lost, and only the last chunk stays. */
    method Read() returns (r: Option<string>)
      modifies this
      ensures match NextLine(old(Pending()))
              case Some(t) => r == Some(t.line) && Pending() == t.rest
              case None => r == None && chunks == [] && Pending() == buffer == KeptRest(old(buffer), old(chunks))
      ensures r == None && (forall i :: 0 <= i < |old(chunks)| ==> old(chunks)[i] != "") ==>
                (Pending() == old(Pending()) <==> old(chunks) == [] || (old(buffer) == "" && |old(chunks)| == 1))
      ensures |chunks| <= |old(chunks)| && chunks == old(chunks)[|old(chunks)| - |chunks|..]
    {
      hide NextLine, FindNewline, Flatten, LineEnd, KeptRest;
      var res := "";
      ghost var n := 0;
      assert res + Pending() == old(Pending()) && chunks[0..] == chunks;
      while true
        invariant '\n' !in res && res + Pending() == old(Pending())
        invariant 0 <= n <= |old(chunks)| && chunks == old(chunks)[n..]
        invariant buffer == if n == 0 then old(buffer) else old(chunks)[n - 1]
        decreases |chunks|
      {
        if buffer != "" {
          var idx := LineEnd(buffer);
          if idx != |buffer| {
            LineFound(res, buffer, Flatten(chunks), idx);
            r := Some(res + buffer[..idx]);
            buffer := buffer[idx + 1..];
            return;
          }
        }
        MoveOver(res, buffer, Flatten(chunks));
        res := res + buffer;
        if chunks == [] {
          FlattenNothing(res, buffer);
          NoLine(res);
          GaveUp(old(buffer), old(chunks), n);
          return None;
        }
        FlattenNext(chunks);
        buffer, chunks, n := chunks[0], chunks[1..], n + 1;
      }
    }

    /** Reads until the exception: exactly the lines of the stream, however it was cut. */
    method ReadAll() returns (lines: seq<string>)
      modifies this
      ensures lines == AllLines(old(Pending()))
    {
      lines := [];
      while true
        invariant lines + AllLines(Pending()) == AllLines(old(Pending()))
        decreases |Pending()|
      {
        ghost var before := Pending();
        var r := Read();
        if r == None {
          assert AllLines(before) == [];
          return;
        }
        assert AllLines(before) == [r.value] + AllLines(Pending());
        lines := lines + [r.value];
      }
    }
  }

  /** What a piece is, in terms of the bytes taken so far. */
  lemma PieceEnds(buf: string, rest: string, buflen: nat)
    requires '\n' !in buf && |buf| <= buflen - 1
    ensures |buf| == buflen - 1 ==> NextPiece(buf + rest, buflen) == Some(Taken(buf, rest))
    ensures |buf| < buflen - 1 && rest != "" && rest[0] == '\n' ==>
              NextPiece(buf + rest, buflen) == Some(Taken(buf, rest[1..]))
    ensures |buf| < buflen - 1 && rest == "" ==> NextPiece(buf + rest, buflen) == None
  {
    var all := buf + rest;
    var k := LineEnd(all);
    assert all[..|buf|] == buf && all[|buf|..] == rest;
    if |buf| < buflen - 1 && (rest == "" || rest[0] == '\n') {
      LineEndUnique(all, |buf|);
      if rest != "" { assert all[|buf| + 1..] == rest[1..]; }
    }
  }

  lemma AppendByte(buf: string, rest: string)
    requires rest != ""
    ensures buf + [rest[0]] + rest[1..] == buf + rest
  {
    assert rest == [rest[0]] + rest[1..];
  }

  const READBUF_LEN := 64

  /** The pieces that upscli_readline() delivers, one call after another. */
  function AllPieces(s: string, buflen: nat): seq<string>
    requires buflen >= 2
    decreases |s|
  {
    match NextPiece(s, buflen)
    case None => []
    case Some(t) => if |t.rest| < |s| then [t.line] + AllPieces(t.rest, buflen) else []
  }

  /** Every line of the stream, and the unfinished one, is shorter than the buffer with its newline. */
  ghost predicate AllShort(s: string, buflen: nat) {
    && (forall l :: l in AllLines(s) ==> |l| + 1 < buflen)
    && |Remainder(s)| + 1 < buflen
  }

  lemma PieceStep(s: string, buflen: nat)
    requires buflen >= 2
    ensures match NextPiece(s, buflen)
            case None => AllPieces(s, buflen) == []
            case Some(t) => |t.rest| < |s| && AllPieces(s, buflen) == [t.line] + AllPieces(t.rest, buflen)
  {
  }

  lemma MovePiece(done: seq<string>, l: string, rest: seq<string>)
    ensures done + ([l] + rest) == done + [l] + rest
  {
  }

  /** A long line leaves a rest with as many lines. */
  lemma CutLine(s: string, n: nat)
    requires n <= LineEnd(s)
    ensures |AllLines(s[n..])| == |AllLines(s)|
  {
    var k, q := LineEnd(s), s[n..];
    LineEndUnique(q, k - n);
    if k < |s| {
      NextLineAt(s, k);
      NextLineAt(q, k - n);
      hide NextLine, LineEnd;
      assert q[k - n + 1..] == s[k + 1..];
    }
  }

  lemma {:induction false} CountPieces(s: string, buflen: nat)
    requires buflen >= 2
    ensures |AllPieces(s, buflen)| >= |AllLines(s)|
    ensures AllShort(s, buflen) ==> AllPieces(s, buflen) == AllLines(s)
    ensures !AllShort(s, buflen) ==> |AllPieces(s, buflen)| > |AllLines(s)|
    decreases |s|
  {
    hide AllPieces, AllLines, AllShort, LineEnd, NextPiece, NextLine;
    var k := LineEnd(s);
    PiecesUnfold(s, buflen);
    LinesUnfold(s);
    if k + 1 >= buflen {
      CountPieces(s[buflen - 1..], buflen);
      CutLine(s, buflen - 1);
      LongIsNotShort(s, buflen);
    } else if k < |s| {
      CountPieces(s[k + 1..], buflen);
      ShortLine(s, buflen);
    } else {
      OneUnfinished(s, buflen);
    }
  }

  lemma LinesUnfold(s: string)
    ensures var k := LineEnd(s); AllLines(s) == if k < |s| then [s[..k]] + AllLines(s[k + 1..]) else []
  {
  }

  lemma PiecesUnfold(s: string, buflen: nat)
    requires buflen >= 2
    ensures var k := LineEnd(s);
            AllPieces(s, buflen) == if k + 1 >= buflen then [s[..buflen - 1]] + AllPieces(s[buflen - 1..], buflen)
                                    else if k < |s| then [s[..k]] + AllPieces(s[k + 1..], buflen)
                                    else []
  {
  }

  lemma OneUnfinished(s: string, buflen: nat)
    requires LineEnd(s) == |s| && |s| + 1 < buflen
    ensures AllShort(s, buflen)
  {
  }

  lemma LongIsNotShort(s: string, buflen: nat)
    requires LineEnd(s) + 1 >= buflen
    ensures !AllShort(s, buflen)
  {
    if LineEnd(s) < |s| { assert s[..LineEnd(s)] in AllLines(s); }
  }

  lemma ShortLine(s: string, buflen: nat)
    requires LineEnd(s) < |s| && LineEnd(s) + 1 < buflen
    ensures AllShort(s, buflen) <==> AllShort(s[LineEnd(s) + 1..], buflen)
  {
    var k := LineEnd(s);
    assert AllLines(s) == [s[..k]] + AllLines(s[k + 1..]) && Remainder(s) == Remainder(s[k + 1..]);
  }

  /** Read to the end, both readers deliver the same lines if and only if every line fits. */
  lemma StreamsAgreeIff(s: string, buflen: nat)
    requires buflen >= 2
    ensures AllPieces(s, buflen) == AllLines(s) <==> AllShort(s, buflen)
  {
    CountPieces(s, buflen);
  }

  /** The stream without its newlines. */
  function NoNewlines(s: string): string {
    if s == "" then "" else (if s[0] == '\n' then "" else [s[0]]) + NoNewlines(s[1..])
  }

  lemma {:induction false} NoNewlinesConcat(a: string, b: string)
    ensures NoNewlines(a + b) == NoNewlines(a) + NoNewlines(b)
  {
    if a == "" {
      assert a + b == b;
    } else {
      assert (a + b)[1..] == a[1..] + b;
      NoNewlinesConcat(a[1..], b);
    }
  }

  lemma {:induction false} NoNewlinesInside(a: string)
    requires '\n' !in a
    ensures NoNewlines(a) == a
  {
    if a != "" { NoNewlinesInside(a[1..]); }
  }

  /** What stays unread when the pieces are taken. */
  function UnreadPiece(s: string, buflen: nat): string
    requires buflen >= 2
    decreases |s|
  {
    match NextPiece(s, buflen)
    case None => s
    case Some(t) => if |t.rest| < |s| then UnreadPiece(t.rest, buflen) else s
  }

  /** However long the lines are, the pieces lose no byte but the newlines, and each fits. */
  lemma {:induction false} PiecesKeepBytes(s: string, buflen: nat)
    requires buflen >= 2
    ensures Flatten(AllPieces(s, buflen)) + UnreadPiece(s, buflen) == NoNewlines(s)
    ensures forall p :: p in AllPieces(s, buflen) ==> |p| < buflen && '\n' !in p
    decreases |s|
  {
    PieceStep(s, buflen);
    if NextPiece(s, buflen).Some? {
      PieceBytes(s, buflen);
      UnreadStep(s, buflen);
      var t := NextPiece(s, buflen).value;
      hide NextPiece, AllPieces, NoNewlines, UnreadPiece, Flatten;
      PiecesKeepBytes(t.rest, buflen);
      var more := AllPieces(t.rest, buflen);
      FlattenNext([t.line] + more);
      assert ([t.line] + more)[1..] == more;
      MoveOver(t.line, Flatten(more), UnreadPiece(t.rest, buflen));
    } else {
      NoPiece(s, buflen);
      NoNewlinesInside(s);
    }
  }

  lemma NoPiece(s: string, buflen: nat)
    requires buflen >= 2 && NextPiece(s, buflen) == None
    ensures '\n' !in s && UnreadPiece(s, buflen) == s && AllPieces(s, buflen) == [] && Flatten([]) + s == s
  {
  }

  /** The next piece is the next bytes but for a newline. */
  lemma PieceBytes(s: string, buflen: nat)
    requires buflen >= 2 && NextPiece(s, buflen).Some?
    ensures var t := NextPiece(s, buflen).value;
            NoNewlines(s) == t.line + NoNewlines(t.rest) && |t.line| < buflen && '\n' !in t.line
  {
    CutIsNewline(s, buflen);
    var t := NextPiece(s, buflen).value;
    var cut := s[|t.line|..|s| - |t.rest|];
    assert s == t.line + (cut + t.rest);
    NoNewlinesInside(t.line);
    NoNewlinesConcat(t.line, cut + t.rest);
    NoNewlinesConcat(cut, t.rest);
    hide NoNewlines;
    assert "" + NoNewlines(t.rest) == NoNewlines(t.rest);
  }

  lemma CutIsNewline(s: string, buflen: nat)
    requires buflen >= 2 && NextPiece(s, buflen).Some?
    ensures var t := NextPiece(s, buflen).value;
            |t.line| + |t.rest| <= |s| && NoNewlines(s[|t.line|..|s| - |t.rest|]) == "" && '\n' !in t.line
  {
    var t := NextPiece(s, buflen).value;
    var k := LineEnd(s);
    if k < |s| && k < buflen - 1 {
      assert s[k..k + 1] == "\n";
      assert "\n"[1..] == "";
    } else {
      assert s[|t.line|..|s| - |t.rest|] == "";
    }
  }

  lemma UnreadStep(s: string, buflen: nat)
    requires buflen >= 2 && NextPiece(s, buflen).Some?
    ensures UnreadPiece(s, buflen) == UnreadPiece(NextPiece(s, buflen).value.rest, buflen)
  {
  }

  /** A line as long as the buffer is cut, and its rest comes as another line. */
  lemma LongLineIsCut()
    ensures AllPieces("abc\n", 3) == ["ab", "c"] && AllLines("abc\n") == ["abc"]
  {
    var s := "abc\n";
    LineEndUnique(s, 3);
    LineEndUnique("c\n", 1);
    LineEndUnique("", 0);
    PiecesUnfold(s, 3);
    PiecesUnfold("c\n", 3);
    PiecesUnfold("", 3);
    LinesUnfold(s);
    LinesUnfold("");
    hide AllPieces, AllLines, LineEnd;
    assert s[..2] == "ab" && s[2..] == "c\n" && "c\n"[..1] == "c" && "c\n"[2..] == "" && s[..3] == "abc" && s[4..] == "";
  }

  /** The receiving side of UPSCONN_t. Each chunk is what one net_read() delivers. */
  class UpsConn {
    var readbuf: string       // the readlen bytes of the last read
    var readidx: nat
    var chunks: seq<string>
    var connected: bool

    ghost predicate Valid()
      reads this
    {
      && readidx <= |readbuf|
      && forall i :: 0 <= i < |chunks| ==> 0 < |chunks[i]| <= READBUF_LEN
    }

    ghost function Pending(): string
      reads this
      requires Valid()
    {
      readbuf[readidx..] + Flatten(chunks)
    }

    constructor (arriving: seq<string>)
      requires forall i :: 0 <= i < |arriving| ==> 0 < |arriving[i]| <= READBUF_LEN
      ensures Valid() && Pending() == Flatten(arriving) && connected
    {
      readbuf, readidx, chunks, connected := "", 0, arriving, true;
    }

    /** upscli_readline(). None stands for the return value -1. */
    method ReadLine(buflen: nat) returns (r: Option<string>)
      requires Valid() && buflen >= 1
      modifies this
      ensures Valid()
      ensures !old(connected) ==> r == None && Pending() == old(Pending()) && !connected
      ensures old(connected) ==>
                match NextPiece(old(Pending()), buflen)
                case Some(t) => r == Some(t.line) && Pending() == t.rest && connected
                case None => r == None && !connected
    {
      if !connected { return None; }
      hide Flatten, NextPiece;
      var buf := "";
      while |buf| < buflen - 1
        invariant |buf| <= buflen - 1
        invariant Valid() && connected
        invariant '\n' !in buf && buf + Pending() == old(Pending())
        decreases buflen - |buf|
      {
        ghost var pending := Pending();
        PieceEnds(buf, pending, buflen);
        var c := NextByte();
        if c == None {
          connected := false;
          return None;
        }
        if c == Some('\n') {
          return Some(buf);
        }
        AppendByte(buf, pending);
        buf := buf + [c.value];
      }
      PieceEnds(buf, Pending(), buflen);
      r := Some(buf);
    }

    /** Reads until the connection ends: exactly the lines of the stream if they all fit. */
    method ReadAll(buflen: nat) returns (lines: seq<string>)
      requires Valid() && connected && buflen >= 2
      modifies this
      ensures Valid() && !connected && lines == AllPieces(old(Pending()), buflen)
      ensures lines == AllLines(old(Pending())) <==> AllShort(old(Pending()), buflen)
    {
      hide NextPiece, AllPieces, Flatten, AllShort, AllLines, LineEnd;
      lines := [];
      while connected
        invariant Valid()
        invariant lines + (if connected then AllPieces(Pending(), buflen) else []) == AllPieces(old(Pending()), buflen)
        decreases connected, |Pending()|
      {
        ghost var before := Pending();
        var r := ReadLine(buflen);
        PieceStep(before, buflen);
        if r.Some? {
          MovePiece(lines, r.value, AllPieces(Pending(), buflen));
          lines := lines + [r.value];
        }
      }
      StreamsAgreeIff(old(Pending()), buflen);
    }

    /** The next byte of the connection, reading again where the buffer is exhausted. */
    method NextByte() returns (c: Option<char>)
      requires Valid()
      modifies this`readbuf, this`readidx, this`chunks
      ensures Valid()
      ensures c == if old(Pending()) == "" then None else Some(old(Pending())[0])
      ensures Pending() == if c == None then "" else old(Pending())[1..]
    {
      if readidx == |readbuf| {
        if chunks == [] { return None; }
        NextChunk();
      }
      c := Some(readbuf[readidx]);
      readidx := readidx + 1;
    }

    /** net_read() into an exhausted buffer. */
    method NextChunk()
      requires Valid() && readidx == |readbuf| && chunks != []
      modifies this`readbuf, this`readidx, this`chunks
      ensures Valid() && readidx < |readbuf| && Pending() == old(Pending())
    {
      readbuf, readidx, chunks := chunks[0], 0, chunks[1..];
    }
  }
}
