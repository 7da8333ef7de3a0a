/** clients/upsclient.c: the command builder, and the proof that the server's parser reads back
    what was sent exactly when every argument is of a form the builder can carry. */
module UpsClient {
  import opened CStrings
  import opened Parseconf

  const NETBUF_LEN := 512

  /** One argument as build_cmd() appends it. */
  function Piece(arg: string): string {
    var enc := BoundedEncode(arg, NETBUF_LEN - 1);
    if ' ' in arg then " \"" + enc + "\"" else " " + enc
  }

  function Pieces(args: seq<string>): string {
    if args == [] then "" else Piece(args[0]) + Pieces(args[1..])
  }

  /** The whole command, were the buffer large enough. */
  function Command(cmdname: string, args: seq<string>): string {
    cmdname + Pieces(args) + "\n"
  }

  lemma CutAppend(a: string, b: string, bufsize: nat)
    requires bufsize >= 1
    ensures Cut(a, bufsize) + Cut(b, bufsize - |Cut(a, bufsize)|) == Cut(a + b, bufsize)
  {
  }

  lemma {:induction false} PiecesSnoc(args: seq<string>, i: nat)
    requires i < |args|
    ensures Pieces(args[..i + 1]) == Pieces(args[..i]) + Piece(args[i])
  {
    hide Piece;
    if i == 0 {
      assert args[..1][1..] == [];
      assert args[..0] == [];
    } else {
      assert args[..i + 1][1..] == args[1..][..i];
      assert args[..i][1..] == args[1..][..i - 1];
      PiecesSnoc(args[1..], i - 1);
    }
  }

  lemma CutAppendTail(a: string, b: string, p: string, bufsize: nat)
    requires bufsize >= 1
    ensures Cut(a + b, bufsize) + Cut(p, bufsize - |Cut(a + b, bufsize)|) == Cut(a + (b + p), bufsize)
  {
    assert a + (b + p) == (a + b) + p;
    CutAppend(a + b, p, bufsize);
  }

  /** build_cmd(): the command, cut to the buffer. */
  method BuildCmd(bufsize: nat, cmdname: string, args: seq<string>) returns (buf: string)
    requires bufsize >= 1
    ensures buf == Cut(Command(cmdname, args), bufsize)
  {
    hide Cut, BoundedEncode;
    buf := Cut(cmdname, bufsize);
    assert cmdname + Pieces(args[..0]) == cmdname;
    for i := 0 to |args|
      invariant buf == Cut(cmdname + Pieces(args[..i]), bufsize)
    {
      var enc := BoundedEncode(args[i], NETBUF_LEN - 1);
      var text := if ' ' in args[i] then " \"" + enc + "\"" else " " + enc;
      CutAppendTail(cmdname, Pieces(args[..i]), text, bufsize);
      PiecesSnoc(args, i);
      buf := buf + Cut(text, bufsize - |buf|);
    }
    assert args[..|args|] == args;
    CutAppend(cmdname + Pieces(args), "\n", bufsize);
    buf := buf + Cut("\n", bufsize - |buf|);
  }

  // ----- reading the command back -----

  /** The words the parser makes of a bare argument: '=' always stands alone. */
  function Split(pending: string, w: string): seq<string>
    decreases |w|
  {
    var done := if pending == "" then [] else [pending];
    if w == "" then done
    else if w[0] == '=' then done + ["="] + Split("", w[1..])
    else Split(pending + [w[0]], w[1..])
  }

  /** Between words, or inside a bare word that has begun. */
  ghost predicate InBare(c: Ctx) {
    (c.state == FindWordStart && c.word == "") || (c.state == Collect && c.word != "")
  }

  lemma FlushByTerminator(lim: Limits, c: Ctx)
    requires InBare(c)
    ensures ParseChar(lim, c, ' ') == Flush(lim, c)
    ensures ParseChar(lim, c, '\n') == Flush(lim, c).(state := EndOfLine)
  {
  }

  /** One encoded character of a bare word that is neither a space nor '='. */
  lemma FeedBareChar(lim: Limits, c: Ctx, ch: char)
    requires InBare(c)
    requires Printable(ch) && ch != ' ' && ch != '='
    requires lim.word != 0 ==> |c.word| <= lim.word
    ensures Feed(lim, c, EncodeChar(ch)) == c.(state := Collect, word := Clip(lim.word, c.word + [ch]))
  {
    var d := AddChar(lim, c, ch);
    assert d.word == Clip(lim.word, c.word + [ch]);
    if NeedsEscape(ch) {
      assert EncodeChar(ch)[1..] == [ch];
      assert Feed(lim, c.(state := CollectLiteral), [ch]) == d.(state := Collect);
    }
  }

  lemma EqualsPlain()
    ensures EncodeChar('=') == "="
  {
  }

  lemma FeedEquals(lim: Limits, c: Ctx)
    requires InBare(c)
    ensures Feed(lim, c, EncodeChar('=')) == EndOfWord(lim, Flush(lim, c).(word := "="))
  {
    assert Feed(lim, c, "=") == ParseChar(lim, c, '=') by { hide ParseChar; assert "="[1..] == ""; }
    hide Feed, EncodeChar;
    assert EncodeChar('=') == "=" by { EqualsPlain(); }
    assert "" + ['='] == "=";
  }

  lemma FlushClip(lim: Limits, c: Ctx, rest: seq<string>)
    requires InBare(c) && Room(lim, c.args)
    ensures Room(lim, Flush(lim, c).args)
    ensures Clip(lim.args, Flush(lim, c).args + rest)
            == Clip(lim.args, c.args + ((if c.word == "" then [] else [c.word]) + rest))
  {
    if c.state == Collect {
      EndOfWordClip(lim, c, rest);
    } else {
      assert [] + rest == rest;
    }
  }

  /** Every word cut to the limit. */
  function ClipEach(limit: nat, ws: seq<string>): (r: seq<string>)
    ensures |r| == |ws| && forall i :: 0 <= i < |ws| ==> r[i] == Clip(limit, ws[i])
  {
    seq(|ws|, i requires 0 <= i < |ws| => Clip(limit, ws[i]))
  }

  lemma ClipPending(limit: nat, pending: string, ch: char)
    ensures Clip(limit, Clip(limit, pending) + [ch]) == Clip(limit, pending + [ch])
  {
  }

  lemma ClipSplit(limit: nat, pending: string, rest: seq<string>)
    ensures ClipEach(limit, (if pending == "" then [] else [pending]) + ["="] + rest)
            == (if pending == "" then [] else [Clip(limit, pending)]) + (["="] + ClipEach(limit, rest))
  {
  }

  /** The words that an unquoted encoding arrives as, after what is pending of a bare word. */
  lemma {:induction false} FeedBare(lim: Limits, c: Ctx, pending: string, w: string)
    requires InBare(c) && Room(lim, c.args) && c.word == Clip(lim.word, pending)
    requires AllPrintable(w) && ' ' !in w
    ensures InBare(Feed(lim, c, Encode(w)))
    ensures Flush(lim, Feed(lim, c, Encode(w)))
            == c.(state := FindWordStart, word := "",
                  args := Clip(lim.args, c.args + ClipEach(lim.word, Split(pending, w))))
    decreases |w|
  {
    hide ClipEach, ParseChar, Printable;
    if w == "" {
      FlushClip(lim, c, []);
      assert Flush(lim, c).args + [] == Flush(lim, c).args;
      assert (if c.word == "" then [] else [c.word]) + [] == ClipEach(lim.word, Split(pending, w));
    } else {
      FeedConcat(lim, c, EncodeChar(w[0]), Encode(w[1..]));
      if w[0] == '=' {
        FeedBareEquals(lim, c, pending, w);
      } else {
        FeedBareChar(lim, c, w[0]);
        ClipPending(lim.word, pending, w[0]);
        FeedBare(lim, c.(state := Collect, word := Clip(lim.word, pending + [w[0]])), pending + [w[0]], w[1..]);
      }
    }
  }

  lemma {:induction false} FeedBareEquals(lim: Limits, c: Ctx, pending: string, w: string)
    requires InBare(c) && Room(lim, c.args) && c.word == Clip(lim.word, pending)
    requires AllPrintable(w) && ' ' !in w && w != "" && w[0] == '='
    ensures InBare(Feed(lim, Feed(lim, c, EncodeChar('=')), Encode(w[1..])))
    ensures Flush(lim, Feed(lim, Feed(lim, c, EncodeChar('=')), Encode(w[1..])))
            == c.(state := FindWordStart, word := "",
                  args := Clip(lim.args, c.args + ClipEach(lim.word, Split(pending, w))))
    decreases |w|, 0
  {
    FeedEquals(lim, c);
    var f := Flush(lim, c).(word := "=");
    var d := EndOfWord(lim, f);
    var rest := Split("", w[1..]);
    ClipSplit(lim.word, pending, rest);
    FlushClip(lim, c, ["="] + ClipEach(lim.word, rest));
    EndOfWordClip(lim, f, ClipEach(lim.word, rest));
    FeedBare(lim, d, "", w[1..]);
    hide ClipEach, Clip, Feed, Encode;
  }

  /** The words that arrive for one argument. */
  function Arrivals(arg: string): seq<string> {
    if ' ' in arg then [arg] else Split("", arg)
  }

  function AllArrivals(args: seq<string>): seq<string> {
    if args == [] then [] else Arrivals(args[0]) + AllArrivals(args[1..])
  }

  /** What is left of an argument in the encoding buffer. */
  function Sent(arg: string): (r: string)
    ensures r <= arg
    ensures r == arg <==> |Encode(arg)| < NETBUF_LEN
  {
    FitIsLongest(arg, NETBUF_LEN - 1, |arg|);
    arg[..Fit(arg, NETBUF_LEN - 1)]
  }

  /** The words that arrive for one argument of any length. */
  function Delivered(lim: Limits, arg: string): seq<string> {
    ClipEach(lim.word, if ' ' in arg then [Sent(arg)] else Split("", Sent(arg)))
  }

  function AllDelivered(lim: Limits, args: seq<string>): seq<string> {
    if args == [] then [] else Delivered(lim, args[0]) + AllDelivered(lim, args[1..])
  }

  ghost predicate Fits(args: seq<string>) {
    forall i :: 0 <= i < |args| ==> |Encode(args[i])| < NETBUF_LEN
  }

  lemma PieceOf(arg: string)
    ensures Piece(arg) == " " + (if ' ' in arg then Quote(Sent(arg)) else Encode(Sent(arg)))
  {
    hide Encode, Fit;
    if ' ' in arg {
      var e := Encode(Sent(arg));
      assert " \"" + e + "\"" == " " + ("\"" + e + "\"");
    }
  }

  lemma CleanPrintable(lim: Limits, w: string)
    requires AllPrintable(w)
    ensures [Clean(lim, w)] == ClipEach(lim.word, [w])
  {
  }

  lemma FeedPiece(lim: Limits, c: Ctx, arg: string)
    requires InBare(c) && Room(lim, c.args) && AllPrintable(arg)
    ensures InBare(Feed(lim, c, Piece(arg)))
    ensures Flush(lim, Feed(lim, c, Piece(arg)))
            == Flush(lim, c).(args := Clip(lim.args, Flush(lim, c).args + Delivered(lim, arg)))
  {
    FlushClip(lim, c, []);
    var f, w := Flush(lim, c), Sent(arg);
    var rest := if ' ' in arg then Quote(w) else Encode(w);
    PieceOf(arg);
    hide Piece, Encode, Split, Quote, Clip, ParseChar, EndOfWord, Filter, ClipEach;
    FeedConcat(lim, c, " ", rest);
    FlushByTerminator(lim, c);
    assert Feed(lim, c, " ") == f by { assert Feed(lim, ParseChar(lim, c, ' '), "") == f; }
    if ' ' in arg {
      FeedQuoted(lim, f, w);
      CleanPrintable(lim, w);
      var x := Clean(lim, w);
      EndOfWordClip(lim, f.(word := x), []);
      var d := EndOfWord(lim, f.(word := x));
      assert d.args + [] == d.args && [x] + [] == [x];
    } else {
      assert Clip(lim.word, "") == "" by { ClipNothing(lim.word); }
      FeedBare(lim, f, "", w);
    }
  }

  lemma ClipNothing(limit: nat)
    ensures Clip(limit, "") == ""
  {
  }

  lemma {:induction false} FeedPieces(lim: Limits, c: Ctx, args: seq<string>)
    requires InBare(c) && Room(lim, c.args) && forall i :: 0 <= i < |args| ==> AllPrintable(args[i])
    ensures InBare(Feed(lim, c, Pieces(args)))
    ensures Flush(lim, Feed(lim, c, Pieces(args)))
            == Flush(lim, c).(args := Clip(lim.args, Flush(lim, c).args + AllDelivered(lim, args)))
    decreases |args|
  {
    hide Delivered, Piece, Printable;
    FlushClip(lim, c, []);
    var f := Flush(lim, c);
    if args == [] {
      assert f.args + [] == f.args;
    } else {
      FeedConcat(lim, c, Piece(args[0]), Pieces(args[1..]));
      FeedPiece(lim, c, args[0]);
      var d := Feed(lim, c, Piece(args[0]));
      UnflushedRoom(lim, d);
      FeedPieces(lim, d, args[1..]);
      ClipTwice(lim.args, f.args, Delivered(lim, args[0]), AllDelivered(lim, args[1..]));
    }
  }

  lemma UnflushedRoom(lim: Limits, c: Ctx)
    requires Room(lim, Flush(lim, c).args)
    ensures Room(lim, c.args)
  {
  }

  /** A command word that needs no encoding, such as GET or LIST. */
  ghost predicate Plain(cmdname: string) {
    && cmdname != ""
    && forall i :: 0 <= i < |cmdname| ==>
         Printable(cmdname[i]) && cmdname[i] != ' ' && cmdname[i] != '=' && !NeedsEscape(cmdname[i])
  }

  lemma {:induction false} SplitSingle(pending: string, w: string)
    requires '=' !in w && pending + w != ""
    ensures Split(pending, w) == [pending + w]
    decreases |w|
  {
    if w == "" {
      assert pending + w == pending;
    } else {
      assert (pending + [w[0]]) + w[1..] == pending + w;
      SplitSingle(pending + [w[0]], w[1..]);
    }
  }

  lemma {:induction false} EncodePlain(w: string)
    requires forall i :: 0 <= i < |w| ==> !NeedsEscape(w[i])
    ensures Encode(w) == w
  {
    if w != "" { EncodePlain(w[1..]); }
  }

  /** The words of the body of a command, once the last bare word is ended. */
  lemma FeedBody(lim: Limits, c: Ctx, cmdname: string, args: seq<string>)
    requires c.state == FindWordStart && c.word == "" && c.args == []
    requires Plain(cmdname) && forall i :: 0 <= i < |args| ==> AllPrintable(args[i])
    ensures InBare(Feed(lim, c, cmdname + Pieces(args)))
    ensures Flush(lim, Feed(lim, c, cmdname + Pieces(args)))
            == c.(args := Clip(lim.args, [Clip(lim.word, cmdname)] + AllDelivered(lim, args)))
  {
    var first := [Clip(lim.word, cmdname)];
    FeedConcat(lim, c, cmdname, Pieces(args));
    EncodePlain(cmdname);
    FeedBare(lim, c, "", cmdname);
    SplitSingle("", cmdname);
    assert "" + cmdname == cmdname && [] + first == first;
    assert ClipEach(lim.word, [cmdname]) == first;
    hide AllDelivered, ClipEach, Split, Encode;
    var d := Feed(lim, c, cmdname);
    UnflushedRoom(lim, d);
    FeedPieces(lim, d, args);
    ClipTwice(lim.args, [], first, AllDelivered(lim, args));
    assert [] + (first + AllDelivered(lim, args)) == first + AllDelivered(lim, args);
  }

  /** The forms that arrive as one word: quoted because of a space, or bare, non-empty and
      without '=' unless the argument is that character alone. */
  predicate Sendable(arg: string) {
    ' ' in arg || (arg != "" && ('=' !in arg || arg == "="))
  }

  lemma {:induction false} SplitSendable(pending: string, w: string)
    requires '=' !in pending
    ensures forall i :: 0 <= i < |Split(pending, w)| ==> Sendable(Split(pending, w)[i])
    decreases |w|
  {
    if w != "" {
      if w[0] == '=' {
        SplitSendable("", w[1..]);
      } else {
        SplitSendable(pending + [w[0]], w[1..]);
      }
    }
  }

  lemma {:induction false} ArrivalsSendable(args: seq<string>)
    ensures forall i :: 0 <= i < |AllArrivals(args)| ==> Sendable(AllArrivals(args)[i])
  {
    if args != [] {
      SplitSendable("", args[0]);
      ArrivalsSendable(args[1..]);
    }
  }

  lemma {:induction false} SendableArrive(args: seq<string>)
    requires forall i :: 0 <= i < |args| ==> Sendable(args[i])
    ensures AllArrivals(args) == args
  {
    if args != [] {
      if ' ' !in args[0] {
        if args[0] == "=" {
          assert Split("", "=") == [] + ["="] + Split("", "");
        } else {
          SplitSingle("", args[0]);
          assert "" + args[0] == args[0];
        }
      }
      SendableArrive(args[1..]);
    }
  }

  /** What the server makes of an uncut command with any printable arguments: each argument cut to
      the encoding buffer, split at '=' unless it was quoted, and each word cut to its limit. */
  lemma CommandOutcome(lim: Limits, c: Ctx, cmdname: string, args: seq<string>)
    requires BetweenLines(c) && Plain(cmdname) && forall i :: 0 <= i < |args| ==> AllPrintable(args[i])
    ensures Stream(lim, c, Command(cmdname, args))
            == [Line(Clip(lim.args, [Clip(lim.word, cmdname)] + AllDelivered(lim, args)))]
  {
    hide AllDelivered, Pieces;
    var c0 := Restart(c);
    var body := cmdname + Pieces(args);
    var s := Command(cmdname, args);
    assert Stream(lim, c, s) == Stream(lim, c0, s);
    FeedBody(lim, c0, cmdname, args);
    var d := Feed(lim, c0, body);
    UnfinishedPrefixes(lim, c0, body);
    StreamOfUnfinished(lim, c0, body, "\n");
    FlushByTerminator(lim, d);
    assert Stream(lim, d, "\n") == Emitted(PushChar(lim, d, '\n')) + Stream(lim, PushChar(lim, d, '\n'), "");
  }

  // ----- no character can make up for one that was cut -----

  function Letters(ws: seq<string>): nat {
    if ws == [] then 0 else |ws[0]| + Letters(ws[1..])
  }

  lemma {:induction false} LettersConcat(a: seq<string>, b: seq<string>)
    ensures Letters(a + b) == Letters(a) + Letters(b)
  {
    if a == [] {
      assert a + b == b;
    } else {
      assert (a + b)[1..] == a[1..] + b;
      LettersConcat(a[1..], b);
    }
  }

  lemma LettersClip(limit: nat, ws: seq<string>)
    ensures Letters(Clip(limit, ws)) <= Letters(ws)
  {
    var kept := Clip(limit, ws);
    assert ws == kept + ws[|kept|..];
    LettersConcat(kept, ws[|kept|..]);
  }

  lemma {:induction false} LettersClipEach(limit: nat, ws: seq<string>)
    ensures Letters(ClipEach(limit, ws)) <= Letters(ws)
    decreases |ws|
  {
    if ws != [] {
      assert ClipEach(limit, ws)[1..] == ClipEach(limit, ws[1..]);
      LettersClipEach(limit, ws[1..]);
    }
  }

  lemma {:induction false} LettersSplit(pending: string, w: string)
    ensures Letters(Split(pending, w)) == |pending| + |w|
    decreases |w|
  {
    var done := if pending == "" then [] else [pending];
    assert Letters(done) == |pending|;
    if w != "" {
      if w[0] == '=' {
        LettersSplit("", w[1..]);
        LettersConcat(done, ["="]);
        LettersConcat(done + ["="], Split("", w[1..]));
      } else {
        LettersSplit(pending + [w[0]], w[1..]);
      }
    }
  }

  lemma LettersDelivered(lim: Limits, arg: string)
    ensures Letters(Delivered(lim, arg)) <= |Sent(arg)|
  {
    LettersSplit("", Sent(arg));
    LettersClipEach(lim.word, if ' ' in arg then [Sent(arg)] else Split("", Sent(arg)));
    assert Letters([Sent(arg)]) == |Sent(arg)|;
  }

  /** At most as many characters arrive as were given, and less if an argument was cut. */
  lemma {:induction false} LettersArrive(lim: Limits, args: seq<string>)
    ensures Letters(AllDelivered(lim, args)) <= Letters(args)
    ensures !Fits(args) ==> Letters(AllDelivered(lim, args)) < Letters(args)
    decreases |args|
  {
    if args != [] {
      LettersDelivered(lim, args[0]);
      LettersArrive(lim, args[1..]);
      LettersConcat(Delivered(lim, args[0]), AllDelivered(lim, args[1..]));
      hide Delivered, Letters, AllDelivered;
      FitsFirst(args);
    }
  }

  lemma FitsFirst(args: seq<string>)
    requires args != []
    ensures Fits(args) <==> |Encode(args[0])| < NETBUF_LEN && Fits(args[1..])
  {
    hide Encode;
    forall i | 0 < i < |args| ensures args[i] == args[1..][i - 1] {}
  }

  /** Words of an argument that is cut nowhere. */
  lemma {:induction false} ShortSplit(limit: nat, pending: string, w: string)
    requires limit == 0 || |pending| + |w| <= limit
    ensures ClipEach(limit, Split(pending, w)) == Split(pending, w)
    decreases |w|
  {
    if w != "" {
      if w[0] == '=' {
        ShortSplit(limit, "", w[1..]);
        ClipSplit(limit, pending, Split("", w[1..]));
      } else {
        ShortSplit(limit, pending + [w[0]], w[1..]);
      }
    }
  }

  lemma WholeArrival(lim: Limits, arg: string)
    requires |Encode(arg)| < NETBUF_LEN && WordOk(lim, arg)
    ensures Delivered(lim, arg) == Arrivals(arg)
  {
    ShortSplit(lim.word, "", arg);
    hide Split, Encode;
  }

  lemma {:induction false} WholeArrivals(lim: Limits, args: seq<string>)
    requires Fits(args) && forall i :: 0 <= i < |args| ==> WordOk(lim, args[i])
    ensures AllDelivered(lim, args) == AllArrivals(args)
    decreases |args|
  {
    hide Delivered, Arrivals, Fits, WordOk;
    if args != [] {
      FitsFirst(args);
      WholeArrival(lim, args[0]);
      WholeArrivals(lim, args[1..]);
    }
  }

  /** The server reads the uncut command as its name followed by exactly the arguments if and
      only if every word is printable and within the parser's limits, the encoding of every
      argument fits its buffer, and every argument is sendable. */
  lemma CommandRoundTripIff(lim: Limits, c: Ctx, cmdname: string, args: seq<string>)
    requires BetweenLines(c) && Plain(cmdname)
    ensures Stream(lim, c, Command(cmdname, args)) == [Line([cmdname] + args)]
            <==> ArgsOk(lim, [cmdname] + args) && Fits(args) && forall i :: 0 <= i < |args| ==> Sendable(args[i])
  {
    var ws := [cmdname] + args;
    if Stream(lim, c, Command(cmdname, args)) == [Line(ws)] {
      OnlyIfReadBack(lim, c, cmdname, args);
    }
    if ArgsOk(lim, ws) && Fits(args) && forall i :: 0 <= i < |args| ==> Sendable(args[i]) {
      assert WordOk(lim, ws[0]);
      forall i | 0 <= i < |args| ensures WordOk(lim, args[i]) { assert args[i] == ws[i + 1]; }
      hide Stream, Command, Encode, Plain;
      CommandOutcome(lim, c, cmdname, args);
      WholeArrivals(lim, args);
      SendableArrive(args);
    }
  }

  /** What a stream delivers keeps the limits. */
  lemma ReadBackOk(lim: Limits, c: Ctx, s: string, ws: seq<string>)
    requires BetweenLines(c) && Stream(lim, c, s) == [Line(ws)]
    ensures ArgsOk(lim, ws)
  {
    assert Tidy(lim, Restart(c)) by { assert AllPrintable(""); }
    assert Stream(lim, c, s) == Stream(lim, Restart(c), s);
    StreamTidy(lim, Restart(c), s);
    assert ArgsOk(lim, Stream(lim, c, s)[0].args);
  }

  lemma OnlyIfReadBack(lim: Limits, c: Ctx, cmdname: string, args: seq<string>)
    requires BetweenLines(c) && Plain(cmdname)
    requires Stream(lim, c, Command(cmdname, args)) == [Line([cmdname] + args)]
    ensures ArgsOk(lim, [cmdname] + args) && Fits(args) && forall i :: 0 <= i < |args| ==> Sendable(args[i])
  {
    var ws := [cmdname] + args;
    ReadBackOk(lim, c, Command(cmdname, args), ws);
    assert WordOk(lim, ws[0]);
    forall i | 0 <= i < |args| ensures WordOk(lim, args[i]) { assert args[i] == ws[i + 1]; }
    hide Stream, Command, Plain, Encode;
    CommandOutcome(lim, c, cmdname, args);
    var all := [cmdname] + AllDelivered(lim, args);
    assert ws == Clip(lim.args, all);
    LettersClip(lim.args, all);
    LettersConcat([cmdname], args);
    LettersConcat([cmdname], AllDelivered(lim, args));
    LettersArrive(lim, args);
    hide Letters;
    WholeArrivals(lim, args);
    ArrivalsSendable(args);
    forall i | 0 <= i < |args| ensures Sendable(args[i]) {
      assert args[i] == ws[i + 1] == all[i + 1];
    }
  }

  lemma OneNotSendable(lim: Limits, c: Ctx, cmdname: string, arg: string)
    requires BetweenLines(c) && Plain(cmdname) && !Sendable(arg)
    ensures Stream(lim, c, Command(cmdname, [arg])) != [Line([cmdname] + [arg])]
  {
    hide Stream, Command, Plain, ArgsOk, Fits;
    CommandRoundTripIff(lim, c, cmdname, [arg]);
    assert !Sendable([arg][0]);
  }

  /** An empty argument does not arrive, and an unquoted one with '=' arrives in parts. */
  lemma NotSendable(lim: Limits, c: Ctx)
    requires BetweenLines(c)
    ensures Stream(lim, c, Command("SET", [""])) != [Line(["SET"] + [""])]
    ensures Stream(lim, c, Command("SET", ["a=b"])) != [Line(["SET"] + ["a=b"])]
  {
    assert Plain("SET");
    assert !Sendable("a=b") by { assert "a=b"[1] == '='; }
    hide Stream, Command, Plain, Sendable;
    assert !Sendable("") by { EmptyNotSendable(); }
    OneNotSendable(lim, c, "SET", "");
    OneNotSendable(lim, c, "SET", "a=b");
  }

  lemma EmptyNotSendable()
    ensures !Sendable("")
  {
  }
}
