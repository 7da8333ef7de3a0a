/** The character-driven parser of common/parseconf.c as a function on values, and the
    encoder whose output it reads back. PconfContext shows that the C context with its
    growing, reused buffers computes this parser. */
module Parseconf {
  import opened CStrings

  datatype State =
    | FindWordStart
    | FindEol
    | QuoteCollect
    | QcLiteral
    | Collect
    | CollectLiteral
    | EndOfLine
    | ParseErr

  /** arg_limit and wordlen_limit; zero means no limit. */
  datatype Limits = Limits(args: nat, word: nat)

  /** What the context stands for: the word being collected and the committed words. */
  datatype Ctx = Ctx(state: State, word: string, args: seq<string>, error: bool)

  const FRESH := Ctx(FindWordStart, "", [], false)

  // ----- the state functions -----

  function AddChar(lim: Limits, c: Ctx, ch: char): Ctx {
    if !Printable(ch) || (lim.word != 0 && |c.word| >= lim.word) then c
    else c.(word := c.word + [ch])
  }

  function EndOfWord(lim: Limits, c: Ctx): Ctx {
    if lim.args != 0 && |c.args| >= lim.args then c.(word := "")
    else c.(word := "", args := c.args + [c.word])
  }

  function StepFindWordStart(lim: Limits, c: Ctx, ch: char): Ctx {
    if ch == '\n' then c.(state := EndOfLine)
    else if ch == '#' then c.(state := FindEol)
    else if IsSpace(ch) then c.(state := FindWordStart)
    else if ch == '\\' then c.(state := CollectLiteral)
    else if ch == '"' then c.(state := QuoteCollect)
    else if ch == '=' then EndOfWord(lim, AddChar(lim, c, ch)).(state := FindWordStart)
    else AddChar(lim, c, ch).(state := Collect)
  }

  function StepFindEol(c: Ctx, ch: char): Ctx {
    if ch == '\n' then c.(state := EndOfLine) else c
  }

  function StepQuoteCollect(lim: Limits, c: Ctx, ch: char): Ctx {
    if ch == '#' then EndOfWord(lim, c.(error := true)).(state := ParseErr)
    else if ch == '"' then EndOfWord(lim, c).(state := FindWordStart)
    else if ch == '\\' then c.(state := QcLiteral)
    else AddChar(lim, c, ch).(state := QuoteCollect)
  }

  function StepQcLiteral(lim: Limits, c: Ctx, ch: char): Ctx {
    if ch == '\n' then c.(state := QuoteCollect)
    else AddChar(lim, c, ch).(state := QuoteCollect)
  }

  function StepCollect(lim: Limits, c: Ctx, ch: char): Ctx {
    if ch == '#' then EndOfWord(lim, c).(state := FindEol)
    else if ch == '\n' then EndOfWord(lim, c).(state := EndOfLine)
    else if IsSpace(ch) then EndOfWord(lim, c).(state := FindWordStart)
    else if ch == '=' then StepFindWordStart(lim, EndOfWord(lim, c), ch).(state := FindWordStart)
    else if ch == '\\' then c.(state := CollectLiteral)
    else AddChar(lim, c, ch).(state := Collect)
  }

  function StepCollectLiteral(lim: Limits, c: Ctx, ch: char): Ctx {
    if ch == '\n' then c.(state := Collect)
    else AddChar(lim, c, ch).(state := Collect)
  }

  /** parse_char(): a finished line or a parse error absorbs every further character. */
  function ParseChar(lim: Limits, c: Ctx, ch: char): Ctx {
    match c.state
    case FindWordStart => StepFindWordStart(lim, c, ch)
    case FindEol => StepFindEol(c, ch)
    case QuoteCollect => StepQuoteCollect(lim, c, ch)
    case QcLiteral => StepQcLiteral(lim, c, ch)
    case Collect => StepCollect(lim, c, ch)
    case CollectLiteral => StepCollectLiteral(lim, c, ch)
    case EndOfLine => c
    case ParseErr => c
  }

  function Feed(lim: Limits, c: Ctx, s: string): Ctx
    decreases |s|
  {
    if s == "" then c else Feed(lim, ParseChar(lim, c, s[0]), s[1..])
  }

  predicate Finished(st: State) {
    st == EndOfLine || st == ParseErr
  }

  /** pconf_line() */
  function ParseLine(lim: Limits, c: Ctx, line: string): Ctx {
    var d := Feed(lim, c.(state := FindWordStart, args := []), line);
    if !Finished(d.state) && d.word != "" then EndOfWord(lim, d) else d
  }

  function Restart(c: Ctx): Ctx {
    if Finished(c.state) then c.(state := FindWordStart, args := []) else c
  }

  /** pconf_char(), without its return code. */
  function PushChar(lim: Limits, c: Ctx, ch: char): Ctx {
    ParseChar(lim, Restart(c), ch)
  }

  /** What a caller of pconf_char() sees when it returns 1 or -1. */
  datatype Outcome = Line(args: seq<string>) | Bad(args: seq<string>)

  function Emitted(c: Ctx): seq<Outcome> {
    match c.state
    case EndOfLine => [Line(c.args)]
    case ParseErr => [Bad(c.args)]
    case _ => []
  }

  /** The outcomes of feeding a stream to pconf_char() one character at a time. */
  function Stream(lim: Limits, c: Ctx, s: string): seq<Outcome>
    decreases |s|
  {
    if s == "" then []
    else
      var d := PushChar(lim, c, s[0]);
      Emitted(d) + Stream(lim, d, s[1..])
  }

  lemma StreamStep(lim: Limits, c: Ctx, s: string, i: nat)
    requires i < |s|
    ensures Stream(lim, c, s[i..])
            == Emitted(PushChar(lim, c, s[i])) + Stream(lim, PushChar(lim, c, s[i]), s[i + 1..])
  {
    assert s[i..][1..] == s[i + 1..];
  }

  lemma StreamOfNothing(lim: Limits, c: Ctx)
    ensures Stream(lim, c, "") == []
  {
  }

  /** The context after a stretch of a stream. */
  function PushAll(lim: Limits, c: Ctx, s: string): Ctx
    decreases |s|
  {
    if s == "" then c else PushAll(lim, PushChar(lim, c, s[0]), s[1..])
  }

  /** A stream may be cut anywhere: what comes later depends on the context alone. */
  lemma {:induction false} StreamCut(lim: Limits, c: Ctx, a: string, b: string)
    ensures Stream(lim, c, a + b) == Stream(lim, c, a) + Stream(lim, PushAll(lim, c, a), b)
    decreases |a|
  {
    hide PushChar, Emitted;
    if a == "" {
      assert a + b == b && [] + Stream(lim, c, b) == Stream(lim, c, b);
    } else {
      assert (a + b)[1..] == a[1..] + b;
      var d := PushChar(lim, c, a[0]);
      StreamCut(lim, d, a[1..], b);
      var x, y, z := Emitted(d), Stream(lim, d, a[1..]), Stream(lim, PushAll(lim, d, a[1..]), b);
      assert x + (y + z) == x + y + z;
    }
  }

  function AsLines(lists: seq<seq<string>>): (r: seq<Outcome>)
    ensures |r| == |lists|
    ensures forall i :: 0 <= i < |lists| ==> r[i] == Line(lists[i])
  {
    seq(|lists|, i requires 0 <= i < |lists| => Line(lists[i]))
  }

  // ----- invariants of every run -----

  /** States in which a word may be under construction. */
  predicate Collecting(st: State) {
    st == QuoteCollect || st == QcLiteral || st == Collect || st == CollectLiteral
  }

  ghost predicate WordOk(lim: Limits, w: string) {
    AllPrintable(w) && (lim.word != 0 ==> |w| <= lim.word)
  }

  ghost predicate ArgsOk(lim: Limits, args: seq<string>) {
    && (lim.args != 0 ==> |args| <= lim.args)
    && forall i :: 0 <= i < |args| ==> WordOk(lim, args[i])
  }

  /** No word outside the collecting states; stored words are printable and within the limits. */
  ghost predicate Tidy(lim: Limits, c: Ctx) {
    && (!Collecting(c.state) ==> c.word == "")
    && WordOk(lim, c.word)
    && ArgsOk(lim, c.args)
  }

  lemma AddCharOk(lim: Limits, c: Ctx, ch: char)
    requires WordOk(lim, c.word)
    ensures WordOk(lim, AddChar(lim, c, ch).word)
  {
  }

  lemma EndOfWordOk(lim: Limits, c: Ctx)
    requires WordOk(lim, c.word) && ArgsOk(lim, c.args)
    ensures ArgsOk(lim, EndOfWord(lim, c).args) && WordOk(lim, "")
  {
  }

  lemma ParseCharTidy(lim: Limits, c: Ctx, ch: char)
    requires Tidy(lim, c)
    ensures Tidy(lim, ParseChar(lim, c, ch))
  {
    hide WordOk, ArgsOk, Printable;
    EndOfWordOk(lim, c);
    AddCharOk(lim, c, ch);
    var e := EndOfWord(lim, c);
    AddCharOk(lim, e, ch);
    EndOfWordOk(lim, AddChar(lim, e, ch));
    EndOfWordOk(lim, AddChar(lim, c, ch));
  }

  lemma {:induction false} FeedTidy(lim: Limits, c: Ctx, s: string)
    requires Tidy(lim, c)
    ensures Tidy(lim, Feed(lim, c, s))
    decreases |s|
  {
    if s != "" {
      ParseCharTidy(lim, c, s[0]);
      FeedTidy(lim, ParseChar(lim, c, s[0]), s[1..]);
    }
  }

  /** Whatever bytes arrive, each outcome of a stream holds only printable words within the limits. */
  lemma {:induction false} StreamTidy(lim: Limits, c: Ctx, s: string)
    requires Tidy(lim, c)
    ensures forall i :: 0 <= i < |Stream(lim, c, s)| ==>
              ArgsOk(lim, Stream(lim, c, s)[i].args)
    decreases |s|
  {
    if s != "" {
      ParseCharTidy(lim, Restart(c), s[0]);
      StreamTidy(lim, PushChar(lim, c, s[0]), s[1..]);
    }
  }

  lemma {:induction false} FeedConcat(lim: Limits, c: Ctx, a: string, b: string)
    ensures Feed(lim, c, a + b) == Feed(lim, Feed(lim, c, a), b)
    decreases |a|
  {
    if a == "" {
      assert a + b == b;
    } else {
      assert (a + b)[1..] == a[1..] + b;
      FeedConcat(lim, ParseChar(lim, c, a[0]), a[1..], b);
    }
  }

  lemma {:induction false} FeedFinished(lim: Limits, c: Ctx, s: string)
    requires Finished(c.state)
    ensures Feed(lim, c, s) == c
    decreases |s|
  {
    if s != "" { FeedFinished(lim, c, s[1..]); }
  }

  lemma FeedSnoc(lim: Limits, c: Ctx, s: string, i: nat)
    requires i < |s|
    ensures Feed(lim, c, s[..i + 1]) == ParseChar(lim, Feed(lim, c, s[..i]), s[i])
  {
    assert s[..i + 1] == s[..i] + [s[i]];
    FeedConcat(lim, c, s[..i], [s[i]]);
  }

  lemma FeedStops(lim: Limits, c: Ctx, s: string, i: nat)
    requires i <= |s| && Finished(Feed(lim, c, s[..i]).state)
    ensures Feed(lim, c, s) == Feed(lim, c, s[..i])
  {
    assert s == s[..i] + s[i..];
    FeedConcat(lim, c, s[..i], s[i..]);
    FeedFinished(lim, Feed(lim, c, s[..i]), s[i..]);
  }

  // ----- the encoder -----

  /** The characters of PCONF_ESCAPE. */
  predicate NeedsEscape(c: char) {
    c == '#' || c == '\\' || c == '"'
  }

  function EncodeChar(c: char): string {
    if NeedsEscape(c) then ['\\', c] else [c]
  }

  /** The full encoding, with no bound on its length. */
  function Encode(s: string): (r: string)
    ensures |r| >= |s|
  {
    if s == "" then "" else EncodeChar(s[0]) + Encode(s[1..])
  }

  lemma {:induction false} EncodeConcat(a: string, b: string)
    ensures Encode(a + b) == Encode(a) + Encode(b)
  {
    if a == "" {
      assert a + b == b;
    } else {
      assert (a + b)[1..] == a[1..] + b;
      EncodeConcat(a[1..], b);
    }
  }

  lemma EncodeSnoc(s: string, i: nat)
    requires i < |s|
    ensures Encode(s[..i + 1]) == Encode(s[..i]) + EncodeChar(s[i])
  {
    assert s[..i + 1] == s[..i] + [s[i]];
    EncodeConcat(s[..i], [s[i]]);
    assert EncodeChar(s[i]) + "" == EncodeChar(s[i]);
  }

  // ----- reading quoted words back -----

  /** What a limit leaves of a word or of an argument list; zero is no limit. */
  function Clip<T>(limit: nat, s: seq<T>): (r: seq<T>)
    ensures r <= s
    ensures r == s <==> limit == 0 || |s| <= limit
  {
    if limit == 0 || |s| <= limit then s else s[..limit]
  }

  function Clean(lim: Limits, w: string): string {
    Clip(lim.word, Filter(w))
  }

  function CleanAll(lim: Limits, ws: seq<string>): (r: seq<string>)
    ensures |r| == |ws|
    ensures forall i :: 0 <= i < |ws| ==> r[i] == Clean(lim, ws[i])
  {
    if ws == [] then [] else [Clean(lim, ws[0])] + CleanAll(lim, ws[1..])
  }

  lemma FeedEncodedChar(lim: Limits, c: Ctx, ch: char)
    requires c.state == QuoteCollect
    ensures Feed(lim, c, EncodeChar(ch)) == AddChar(lim, c, ch)
  {
    if NeedsEscape(ch) {
      assert EncodeChar(ch)[1..] == [ch];
      assert Feed(lim, c.(state := QcLiteral), [ch]) == AddChar(lim, c, ch);
    }
  }

  lemma AddCharClip(lim: Limits, c: Ctx, w: string)
    requires w != "" && (lim.word != 0 ==> |c.word| <= lim.word)
    ensures Clip(lim.word, AddChar(lim, c, w[0]).word + Filter(w[1..])) == Clip(lim.word, c.word + Filter(w))
    ensures lim.word != 0 ==> |AddChar(lim, c, w[0]).word| <= lim.word
  {
    if Printable(w[0]) {
      assert (c.word + [w[0]]) + Filter(w[1..]) == c.word + Filter(w);
    }
  }

  lemma {:induction false} FeedQuotedBody(lim: Limits, c: Ctx, w: string)
    requires c.state == QuoteCollect
    requires lim.word != 0 ==> |c.word| <= lim.word
    ensures Feed(lim, c, Encode(w)) == c.(word := Clip(lim.word, c.word + Filter(w)))
    decreases |w|
  {
    if w == "" {
      assert c.word + Filter(w) == c.word;
    } else {
      var d := AddChar(lim, c, w[0]);
      FeedConcat(lim, c, EncodeChar(w[0]), Encode(w[1..]));
      FeedEncodedChar(lim, c, w[0]);
      FeedQuotedBody(lim, d, w[1..]);
      AddCharClip(lim, c, w);
    }
  }

  function Quote(w: string): string {
    "\"" + Encode(w) + "\""
  }

  lemma FeedQuoted(lim: Limits, c: Ctx, w: string)
    requires c.state == FindWordStart && c.word == ""
    ensures Feed(lim, c, Quote(w)) == EndOfWord(lim, c.(word := Clean(lim, w)))
  {
    hide Encode, Filter, Clip;
    var open, close := "\"", "\"";
    assert Quote(w) == open + (Encode(w) + close);
    FeedConcat(lim, c, open, Encode(w) + close);
    var q := c.(state := QuoteCollect);
    assert Feed(lim, c, open) == q;
    FeedConcat(lim, q, Encode(w), close);
    FeedQuotedBody(lim, q, w);
    assert "" + Filter(w) == Filter(w);
  }

  /** The words quoted and separated by one space. */
  function QuoteAll(ws: seq<string>): string {
    if ws == [] then ""
    else if |ws| == 1 then Quote(ws[0])
    else Quote(ws[0]) + " " + QuoteAll(ws[1..])
  }

  lemma EndOfWordClip(lim: Limits, c: Ctx, rest: seq<string>)
    requires lim.args != 0 ==> |c.args| <= lim.args
    ensures lim.args != 0 ==> |EndOfWord(lim, c).args| <= lim.args
    ensures Clip(lim.args, EndOfWord(lim, c).args + rest) == Clip(lim.args, c.args + ([c.word] + rest))
  {
    assert c.args + ([c.word] + rest) == (c.args + [c.word]) + rest;
  }

  /** Ends the bare word, if there is one. */
  function Flush(lim: Limits, c: Ctx): Ctx {
    if c.state == Collect then EndOfWord(lim, c).(state := FindWordStart) else c
  }

  ghost predicate Room(lim: Limits, args: seq<string>) {
    lim.args != 0 ==> |args| <= lim.args
  }

  lemma ClipTwice<T>(n: nat, a: seq<T>, b: seq<T>, c: seq<T>)
    requires n != 0 ==> |a| <= n
    ensures Clip(n, Clip(n, a + b) + c) == Clip(n, a + (b + c))
  {
    var ab, all := a + b, a + (b + c);
    assert ab + c == all;
    if n != 0 && |ab| > n {
      hide Clip;
      assert all[..n] == ab[..n];
      ClipLong(n, ab, c);
      ClipLong(n, all, []);
      assert all + [] == all;
    }
  }

  lemma ClipLong<T>(n: nat, s: seq<T>, more: seq<T>)
    requires 0 < n < |s|
    ensures Clip(n, s) == s[..n] && Clip(n, s[..n] + more) == s[..n] && Clip(n, s + more) == s[..n]
  {
  }

  lemma FeedSpace(lim: Limits, c: Ctx, s: string)
    requires c.state == FindWordStart
    ensures Feed(lim, c, " " + s) == Feed(lim, c, s)
  {
    assert (" " + s)[1..] == s;
  }

  lemma {:induction false} FeedQuoteAll(lim: Limits, c: Ctx, ws: seq<string>)
    requires c.state == FindWordStart && c.word == ""
    requires lim.args != 0 ==> |c.args| <= lim.args
    ensures Feed(lim, c, QuoteAll(ws)) == c.(args := Clip(lim.args, c.args + CleanAll(lim, ws)))
    decreases |ws|
  {
    if ws == [] {
      assert c.args + CleanAll(lim, ws) == c.args;
    } else {
      var w := c.(word := Clean(lim, ws[0]));
      FeedQuoted(lim, c, ws[0]);
      EndOfWordClip(lim, w, CleanAll(lim, ws[1..]));
      if |ws| > 1 {
        var rest := " " + QuoteAll(ws[1..]);
        assert QuoteAll(ws) == Quote(ws[0]) + rest;
        FeedConcat(lim, c, Quote(ws[0]), rest);
        FeedSpace(lim, EndOfWord(lim, w), QuoteAll(ws[1..]));
        FeedQuoteAll(lim, EndOfWord(lim, w), ws[1..]);
      } else {
        assert EndOfWord(lim, w).args + [] == EndOfWord(lim, w).args;
      }
    }
  }

  // ----- the round trip over whole streams -----

  /** A word list as a line of quoted words. */
  function WriteLine(ws: seq<string>): string {
    QuoteAll(ws) + "\n"
  }

  function WriteLines(lists: seq<seq<string>>): string {
    if lists == [] then "" else WriteLine(lists[0]) + WriteLines(lists[1..])
  }

  /** What the limits and the character filter leave of a word list. */
  function Received(lim: Limits, ws: seq<string>): seq<string> {
    Clip(lim.args, CleanAll(lim, ws))
  }

  function ReceivedLines(lim: Limits, lists: seq<seq<string>>): (r: seq<Outcome>)
    ensures |r| == |lists|
    ensures forall i :: 0 <= i < |lists| ==> r[i] == Line(Received(lim, lists[i]))
  {
    if lists == [] then [] else [Line(Received(lim, lists[0]))] + ReceivedLines(lim, lists[1..])
  }

  /** A list arrives unchanged exactly when its words are printable and it is within both limits. */
  lemma ReceivedUnchanged(lim: Limits, ws: seq<string>)
    ensures Received(lim, ws) == ws <==> ArgsOk(lim, ws)
  {
    if ArgsOk(lim, ws) {
      assert CleanAll(lim, ws) == ws;
    }
    if Received(lim, ws) == ws {
      forall i | 0 <= i < |ws| ensures WordOk(lim, ws[i]) {
        assert ws[i] == Clean(lim, ws[i]);
        var f := Filter(ws[i]);
        assert ws[i] <= f;
      }
    }
  }

  lemma {:induction false} StreamOfUnfinished(lim: Limits, c: Ctx, a: string, b: string)
    requires !Finished(c.state)
    requires forall i :: 0 <= i <= |a| ==> !Finished(Feed(lim, c, a[..i]).state)
    ensures Stream(lim, c, a + b) == Stream(lim, Feed(lim, c, a), b)
    decreases |a|
  {
    if a == "" {
      assert a + b == b;
    } else {
      var d := ParseChar(lim, c, a[0]);
      assert (a + b)[1..] == a[1..] + b;
      forall i | 0 <= i <= |a[1..]| ensures Feed(lim, d, a[1..][..i]) == Feed(lim, c, a[..i + 1]) {
        assert a[..i + 1][1..] == a[1..][..i];
      }
      assert Feed(lim, c, a[..1]) == d by { assert a[..1][1..] == ""; }
      StreamOfUnfinished(lim, d, a[1..], b);
    }
  }

  /** A line that has not ended after s had not ended earlier either. */
  lemma UnfinishedPrefixes(lim: Limits, c: Ctx, s: string)
    requires !Finished(Feed(lim, c, s).state)
    ensures forall i :: 0 <= i <= |s| ==> !Finished(Feed(lim, c, s[..i]).state)
  {
    forall i | 0 <= i <= |s| ensures !Finished(Feed(lim, c, s[..i]).state) {
      if Finished(Feed(lim, c, s[..i]).state) {
        FeedStops(lim, c, s, i);
      }
    }
  }

  /** Between lines: nothing is pending, whatever the previous line left behind. */
  ghost predicate BetweenLines(c: Ctx) {
    c.word == "" && ((c.state == FindWordStart && c.args == []) || Finished(c.state))
  }

  /** Quoting any word lists and feeding the stream to pconf_char() yields one line per list and
      no error: each list cut to the argument limit, each word filtered and cut to its limit. */
  lemma {:induction false} StreamRoundTrip(lim: Limits, c: Ctx, lists: seq<seq<string>>)
    requires BetweenLines(c)
    ensures Stream(lim, c, WriteLines(lists)) == ReceivedLines(lim, lists)
    decreases |lists|
  {
    if lists != [] {
      var c0 := Restart(c);
      var body, tail := QuoteAll(lists[0]), "\n" + WriteLines(lists[1..]);
      var s := WriteLines(lists);
      assert s == body + tail;
      assert Stream(lim, c, s) == Stream(lim, c0, s);
      FeedQuoteAll(lim, c0, lists[0]);
      assert [] + CleanAll(lim, lists[0]) == CleanAll(lim, lists[0]);
      var d := Feed(lim, c0, body);
      UnfinishedPrefixes(lim, c0, body);
      StreamOfUnfinished(lim, c0, body, tail);
      var e := PushChar(lim, d, '\n');
      assert e == d.(state := EndOfLine);
      assert tail[1..] == WriteLines(lists[1..]);
      StreamRoundTrip(lim, e, lists[1..]);
    }
  }

  /** The stream gives back exactly the lists that were written if and only if every word is
      printable and within the word limit and every list is within the argument limit. */
  lemma StreamRoundTripExact(lim: Limits, c: Ctx, lists: seq<seq<string>>)
    requires BetweenLines(c)
    ensures Stream(lim, c, WriteLines(lists)) == AsLines(lists)
            <==> forall i :: 0 <= i < |lists| ==> ArgsOk(lim, lists[i])
  {
    StreamRoundTrip(lim, c, lists);
    forall i | 0 <= i < |lists|
      ensures ReceivedLines(lim, lists)[i] == AsLines(lists)[i] <==> ArgsOk(lim, lists[i])
    {
      ReceivedUnchanged(lim, lists[i]);
    }
  }

  /** pconf_line() on one such line agrees with the stream, with or without the newline,
      whatever line the context parsed before. */
  lemma LineRoundTrip(lim: Limits, c: Ctx, ws: seq<string>)
    requires c.word == ""
    ensures ParseLine(lim, c, QuoteAll(ws)).args == Received(lim, ws)
    ensures ParseLine(lim, c, WriteLine(ws)).args == Received(lim, ws)
    ensures ParseLine(lim, c, WriteLine(ws)).state == EndOfLine
    ensures ParseLine(lim, c, QuoteAll(ws)).error == ParseLine(lim, c, WriteLine(ws)).error == c.error
  {
    var c0 := c.(state := FindWordStart, args := []);
    FeedQuoteAll(lim, c0, ws);
    assert [] + CleanAll(lim, ws) == CleanAll(lim, ws);
    FeedConcat(lim, c0, QuoteAll(ws), "\n");
  }

  // ----- the bounded encoder -----

  /** How many characters of src have an encoding of at most room characters in all. */
  function Fit(src: string, room: nat): (n: nat)
    ensures n <= |src|
    ensures |Encode(src[..n])| <= room
    ensures n < |src| ==> |Encode(src[..n])| + |EncodeChar(src[n])| > room
  {
    if src == "" || |EncodeChar(src[0])| > room then 0
    else
      var n := 1 + Fit(src[1..], room - |EncodeChar(src[0])|);
      assert src[..n][1..] == src[1..][..n - 1];
      n
  }

  /** The full encoding of the longest prefix that fits. */
  function BoundedEncode(src: string, room: nat): (r: string)
    ensures |r| <= room
  {
    Encode(src[..Fit(src, room)])
  }

  lemma {:induction false} EncodeGrows(src: string, m: nat, n: nat)
    requires m <= n <= |src|
    ensures |Encode(src[..m])| <= |Encode(src[..n])|
  {
    assert src[..n] == src[..m] + src[m..n];
    EncodeConcat(src[..m], src[m..n]);
  }

  /** No longer prefix fits, and a string whose whole encoding fits is not cut. */
  lemma FitIsLongest(src: string, room: nat, m: nat)
    requires m <= |src|
    ensures |Encode(src[..m])| <= room <==> m <= Fit(src, room)
    ensures Fit(src, room) == |src| <==> |Encode(src)| <= room
    ensures |Encode(src)| <= room ==> BoundedEncode(src, room) == Encode(src)
  {
    var n := Fit(src, room);
    assert src[..|src|] == src;
    if n < |src| {
      EncodeSnoc(src, n);
      EncodeGrows(src, n + 1, |src|);
    }
    if m <= n {
      EncodeGrows(src, m, n);
    } else {
      EncodeGrows(src, n + 1, m);
    }
  }

  /** Quoting even a cut encoding reads back as a prefix of the source: the quotes stay balanced,
      the parser is between words again and no escape is left dangling. */
  lemma TruncatedQuoteReadsPrefix(lim: Limits, c: Ctx, src: string, room: nat)
    requires c.state == FindWordStart && c.word == ""
    ensures Feed(lim, c, "\"" + BoundedEncode(src, room) + "\"")
            == EndOfWord(lim, c.(word := Clean(lim, src[..Fit(src, room)])))
    ensures Clean(lim, src[..Fit(src, room)]) <= Filter(src)
    ensures AllPrintable(src) && lim.word == 0 ==> Clean(lim, src[..Fit(src, room)]) == src[..Fit(src, room)]
  {
    var n := Fit(src, room);
    hide Encode, Fit, Feed, EndOfWord, Filter, Clip;
    FeedQuoted(lim, c, src[..n]);
    CleanPrefix(lim, src, n);
  }

  lemma CleanPrefix(lim: Limits, src: string, n: nat)
    requires n <= |src|
    ensures Clean(lim, src[..n]) <= Filter(src)
    ensures AllPrintable(src) && lim.word == 0 ==> Clean(lim, src[..n]) == src[..n]
  {
    hide Filter;
    var a, b := src[..n], src[n..];
    assert src == a + b;
    FilterConcat(a, b);
    PrefixMore(Clean(lim, a), Filter(a), Filter(b));
  }

  lemma PrefixMore(a: string, b: string, c: string)
    requires a <= b
    ensures a <= b + c
  {
  }

  lemma {:induction false} FilterConcat(a: string, b: string)
    ensures Filter(a + b) == Filter(a) + Filter(b)
  {
    if a == "" {
      assert a + b == b;
    } else {
      assert (a + b)[1..] == a[1..] + b;
      FilterConcat(a[1..], b);
    }
  }

  function Zeros(n: nat): (r: string)
    ensures |r| == n
    ensures forall i :: 0 <= i < n ==> r[i] == NUL
  {
    seq(n, i => NUL)
  }

  /** With a one-byte buffer and a first character to escape, the unsigned maxlen - 1 wraps
      around and the backslash takes the place of the terminator. */
  predicate LosesTerminator(src: string, destsize: nat) {
    destsize == 1 && src != "" && NeedsEscape(src[0])
  }

  /** The whole destination buffer after pconf_encode(). */
  function EncodedBuffer(src: string, destsize: nat): (r: string)
    ensures |r| == destsize
  {
    if destsize == 0 then ""
    else if LosesTerminator(src, destsize) then "\\"
    else
      var e := BoundedEncode(src, destsize - 1);
      e + Zeros(destsize - |e|)
  }

  lemma {:induction false} EncodeHasNoNul(s: string)
    requires NUL !in s
    ensures NUL !in Encode(s)
  {
    if s != "" { EncodeHasNoNul(s[1..]); }
  }

  /** The result is a terminated string in every case but that one. */
  lemma TerminatedIff(src: string, destsize: nat)
    requires destsize >= 1 && NUL !in src
    ensures NUL in EncodedBuffer(src, destsize) <==> !LosesTerminator(src, destsize)
    ensures !LosesTerminator(src, destsize) ==>
              var e := BoundedEncode(src, destsize - 1);
              NUL !in e && EncodedBuffer(src, destsize)[..|e| + 1] == e + [NUL]
  {
    if !LosesTerminator(src, destsize) {
      var e := BoundedEncode(src, destsize - 1);
      EncodeHasNoNul(src[..Fit(src, destsize - 1)]);
      assert EncodedBuffer(src, destsize)[|e|] == NUL;
    }
  }

  // ----- what pconf_line() remembers -----

  /** The smallest such case: a hash sign into one byte. */
  lemma OneByteUnterminated()
    ensures NUL !in EncodedBuffer("#", 1)
  {
    TerminatedIff("#", 1);
  }

  ghost predicate SameButError(c: Ctx, d: Ctx) {
    c.state == d.state && c.word == d.word && c.args == d.args
  }

  lemma WordStartIgnoresError(lim: Limits, c: Ctx, d: Ctx, ch: char)
    requires SameButError(c, d)
    ensures SameButError(StepFindWordStart(lim, c, ch), StepFindWordStart(lim, d, ch))
  {
  }

  lemma CollectIgnoresError(lim: Limits, c: Ctx, d: Ctx, ch: char)
    requires SameButError(c, d)
    ensures SameButError(StepCollect(lim, c, ch), StepCollect(lim, d, ch))
  {
    WordStartIgnoresError(lim, EndOfWord(lim, c), EndOfWord(lim, d), ch);
    hide StepFindWordStart;
  }

  lemma ParseCharIgnoresError(lim: Limits, c: Ctx, d: Ctx, ch: char)
    requires SameButError(c, d)
    ensures SameButError(ParseChar(lim, c, ch), ParseChar(lim, d, ch))
  {
    hide StepFindWordStart, StepCollect, Printable;
    WordStartIgnoresError(lim, c, d, ch);
    CollectIgnoresError(lim, c, d, ch);
  }

  lemma {:induction false} FeedIgnoresError(lim: Limits, c: Ctx, d: Ctx, s: string)
    requires SameButError(c, d)
    ensures SameButError(Feed(lim, c, s), Feed(lim, d, s))
    decreases |s|
  {
    hide ParseChar;
    if s != "" {
      ParseCharIgnoresError(lim, c, d, s[0]);
      FeedIgnoresError(lim, ParseChar(lim, c, s[0]), ParseChar(lim, d, s[0]), s[1..]);
    }
  }

  /** A whole line leaves no word pending where none was before. */
  lemma LineLeavesNothing(lim: Limits, c: Ctx, line: string)
    requires Tidy(lim, c) && c.word == ""
    ensures Tidy(lim, ParseLine(lim, c, line)) && ParseLine(lim, c, line).word == ""
  {
    var d := c.(state := FindWordStart, args := []);
    FeedTidy(lim, d, line);
    EndOfWordOk(lim, Feed(lim, d, line));
    hide Feed;
  }

  lemma LineAlone(lim: Limits, c: Ctx, line: string)
    requires c.word == ""
    ensures ParseLine(lim, c, line).args == ParseLine(lim, FRESH, line).args
  {
    FeedIgnoresError(lim, c.(state := FindWordStart, args := []), FRESH, line);
  }

  /** The words of each line when one context parses them all. */
  function ParseLines(lim: Limits, c: Ctx, lines: seq<string>): (r: seq<seq<string>>)
    ensures |r| == |lines|
    decreases |lines|
  {
    if lines == [] then []
    else
      var d := ParseLine(lim, c, lines[0]);
      [d.args] + ParseLines(lim, d, lines[1..])
  }

  /** A context that serves pconf_line() alone, as every client's does, reads each line as a fresh
      one would, whatever lines came before, malformed ones included. */
  lemma {:induction false} EachLineAlone(lim: Limits, c: Ctx, lines: seq<string>)
    requires Tidy(lim, c) && c.word == ""
    ensures forall i :: 0 <= i < |lines| ==> ParseLines(lim, c, lines)[i] == ParseLine(lim, FRESH, lines[i]).args
    decreases |lines|
  {
    if lines != [] {
      var d := ParseLine(lim, c, lines[0]);
      LineLeavesNothing(lim, c, lines[0]);
      LineAlone(lim, c, lines[0]);
      EachLineAlone(lim, d, lines[1..]);
    }
  }

  /** For a context that pconf_char() was also used on this can fail, since pconf_line() resets the
      state and the argument count but not the word buffer: the words depend on the line alone if
      and only if no word was pending. */
  lemma LineForgetsHistoryIff(lim: Limits, c: Ctx)
    ensures c.word == "" <==> forall line :: ParseLine(lim, c, line).args == ParseLine(lim, FRESH, line).args
  {
    if c.word == "" {
      forall line ensures ParseLine(lim, c, line).args == ParseLine(lim, FRESH, line).args { LineAlone(lim, c, line); }
    } else {
      assert ParseLine(lim, c, "").args == [c.word];
      assert ParseLine(lim, FRESH, "").args == [];
    }
  }

  /** A word begun with pconf_char() joins the first word of a line given to pconf_line(). */
  lemma PendingWordJoins(lim: Limits)
    requires lim == Limits(0, 0)
    ensures ParseLine(lim, PushChar(lim, FRESH, 'a'), "b").args == ["ab"]
  {
    var c := PushChar(lim, FRESH, 'a');
    assert c == FRESH.(state := Collect, word := "a") by { assert "" + ['a'] == "a"; }
    var d := c.(state := FindWordStart, args := []);
    assert Feed(lim, d, "b") == ParseChar(lim, d, 'b') by { assert "b"[1..] == ""; }
    assert "a" + ['b'] == "ab";
  }
}
