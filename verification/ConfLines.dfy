/** Lines as people and programs write them, and what common/parseconf.c makes of them: bare and
    quoted words, escapes, continued lines, white space, the equals sign and comments. */
module ConfLines {
  import opened CStrings
  import opened Options
  import opened Parseconf

  /** A character as it stands, a character after a backslash, or a backslash before a newline. */
  datatype Unit = Plain(c: char) | Escaped(c: char) | Joined

  datatype Token = Bare(units: seq<Unit>) | Quoted(units: seq<Unit>) | Equals

  /** A token with the white space before it. */
  datatype Spaced = Spaced(blank: string, token: Token)

  /** A line: tokens, white space, and perhaps a comment. */
  datatype Written = Written(items: seq<Spaced>, trail: string, comment: Option<string>)

  // ----- how it is spelled -----

  function UnitText(u: Unit): string {
    match u
    case Plain(c) => [c]
    case Escaped(c) => ['\\', c]
    case Joined => "\\\n"
  }

  function UnitsText(us: seq<Unit>): string {
    if us == [] then "" else UnitText(us[0]) + UnitsText(us[1..])
  }

  function TokenText(t: Token): string {
    match t
    case Bare(us) => UnitsText(us)
    case Quoted(us) => "\"" + UnitsText(us) + "\""
    case Equals => "="
  }

  function ItemsText(items: seq<Spaced>): string {
    if items == [] then "" else items[0].blank + (TokenText(items[0].token) + ItemsText(items[1..]))
  }

  function Ending(w: Written): string {
    w.trail + match w.comment case None => "" case Some(text) => "#" + text
  }

  function Body(w: Written): string {
    ItemsText(w.items) + Ending(w)
  }

  function Text(lines: seq<Written>): string {
    if lines == [] then "" else Body(lines[0]) + ("\n" + Text(lines[1..]))
  }

  // ----- what it stands for -----

  function UnitsValue(us: seq<Unit>): string {
    if us == [] then ""
    else (match us[0] case Plain(c) => [c] case Escaped(c) => [c] case Joined => "") + UnitsValue(us[1..])
  }

  function TokenValue(t: Token): string {
    match t
    case Bare(us) => UnitsValue(us)
    case Quoted(us) => UnitsValue(us)
    case Equals => "="
  }

  function Values(items: seq<Spaced>): seq<string> {
    if items == [] then [] else [TokenValue(items[0].token)] + Values(items[1..])
  }

  function Outcomes(lim: Limits, lines: seq<Written>): seq<Outcome> {
    if lines == [] then [] else [Line(Received(lim, Values(lines[0].items)))] + Outcomes(lim, lines[1..])
  }

  // ----- which spellings are meant -----

  /** Space, tab, vertical tab, form feed and carriage return. */
  predicate White(c: char) {
    c == ' ' || c == '\t' || c == '\U{0b}' || c == '\U{0c}' || c == '\r'
  }

  ghost predicate Blank(s: string) {
    forall i :: 0 <= i < |s| ==> White(s[i])
  }

  predicate BareUnit(u: Unit) {
    match u
    case Plain(c) => c != '#' && c != '=' && c != '\\' && c != '\n' && !White(c)
    case Escaped(c) => c != '\n'
    case Joined => true
  }

  predicate QuotedUnit(u: Unit) {
    match u
    case Plain(c) => c != '#' && c != '"' && c != '\\'
    case Escaped(c) => c != '\n'
    case Joined => true
  }

  ghost predicate TokenOk(t: Token) {
    match t
    case Bare(us) => us != [] && us[0] != Plain('"') && forall i :: 0 <= i < |us| ==> BareUnit(us[i])
    case Quoted(us) => forall i :: 0 <= i < |us| ==> QuotedUnit(us[i])
    case Equals => true
  }

  /** White space is needed only after a bare word, and not before an equals sign. */
  ghost predicate ItemsOk(items: seq<Spaced>, afterBare: bool)
    decreases |items|
  {
    items == [] ||
    (&& Blank(items[0].blank) && TokenOk(items[0].token)
     && (afterBare && !items[0].token.Equals? ==> items[0].blank != "")
     && ItemsOk(items[1..], items[0].token.Bare?))
  }

  ghost predicate WrittenOk(w: Written) {
    ItemsOk(w.items, false) && Blank(w.trail) && (w.comment.Some? ==> '\n' !in w.comment.value)
  }

  // ----- words -----

  /** Between words, or in a bare word that anything but a further character of it will end. */
  ghost predicate AtGap(c: Ctx) {
    (c.state == FindWordStart && c.word == "") || c.state == Collect
  }

  lemma FeedOne(lim: Limits, c: Ctx, ch: char)
    ensures Feed(lim, c, [ch]) == ParseChar(lim, c, ch)
  {
    assert [ch][1..] == "";
  }

  lemma FeedTwo(lim: Limits, c: Ctx, a: char, b: char)
    ensures Feed(lim, c, [a, b]) == ParseChar(lim, ParseChar(lim, c, a), b)
  {
    assert [a, b][1..] == [b];
    FeedOne(lim, ParseChar(lim, c, a), b);
  }

  /** The word with the value of one more unit. */
  function Grown(lim: Limits, c: Ctx, u: Unit): Ctx {
    match u
    case Plain(ch) => AddChar(lim, c, ch)
    case Escaped(ch) => AddChar(lim, c, ch)
    case Joined => c
  }

  lemma BareUnitFed(lim: Limits, c: Ctx, u: Unit)
    requires BareUnit(u) && (c.state == Collect || (c.state == FindWordStart && u != Plain('"')))
    ensures Feed(lim, c, UnitText(u)) == Grown(lim, c, u).(state := Collect)
  {
    match u
    case Plain(ch) => FeedOne(lim, c, ch);
    case Escaped(ch) => FeedTwo(lim, c, '\\', ch);
    case Joined =>
      assert UnitText(u) == ['\\', '\n'];
      FeedTwo(lim, c, '\\', '\n');
  }

  lemma QuotedUnitFed(lim: Limits, c: Ctx, u: Unit)
    requires QuotedUnit(u) && c.state == QuoteCollect
    ensures Feed(lim, c, UnitText(u)) == Grown(lim, c, u)
  {
    match u
    case Plain(ch) => FeedOne(lim, c, ch);
    case Escaped(ch) => FeedTwo(lim, c, '\\', ch);
    case Joined =>
      assert UnitText(u) == ['\\', '\n'];
      FeedTwo(lim, c, '\\', '\n');
  }

  ghost predicate Short(lim: Limits, c: Ctx) {
    lim.word != 0 ==> |c.word| <= lim.word
  }

  lemma GrownClip(lim: Limits, c: Ctx, us: seq<Unit>)
    requires us != [] && Short(lim, c)
    ensures Short(lim, Grown(lim, c, us[0]))
    ensures Clip(lim.word, Grown(lim, c, us[0]).word + Filter(UnitsValue(us[1..])))
            == Clip(lim.word, c.word + Filter(UnitsValue(us)))
  {
    var rest := UnitsValue(us[1..]);
    if us[0].Joined? {
      assert UnitsValue(us) == rest;
    } else {
      assert UnitsValue(us)[1..] == rest;
      AddCharClip(lim, c, UnitsValue(us));
    }
  }

  lemma {:induction false} BareUnitsFed(lim: Limits, c: Ctx, us: seq<Unit>)
    requires (forall i :: 0 <= i < |us| ==> BareUnit(us[i])) && Short(lim, c)
    requires c.state == Collect || (c.state == FindWordStart && us != [] && us[0] != Plain('"'))
    ensures Feed(lim, c, UnitsText(us)) == c.(state := Collect, word := Clip(lim.word, c.word + Filter(UnitsValue(us))))
    decreases |us|
  {
    hide BareUnit, Filter, ParseChar, AddChar;
    if us == [] {
      assert c.word + Filter("") == c.word by { assert Filter("") == "" by { NothingFiltered(); } }
    } else {
      FeedConcat(lim, c, UnitText(us[0]), UnitsText(us[1..]));
      BareUnitFed(lim, c, us[0]);
      GrownClip(lim, c, us);
      var d := Grown(lim, c, us[0]).(state := Collect);
      BareUnitsFed(lim, d, us[1..]);
      GrownElsewhere(lim, c, us[0]);
    }
  }

  lemma NothingFiltered()
    ensures Filter("") == ""
  {
  }

  lemma GrownElsewhere(lim: Limits, c: Ctx, u: Unit)
    ensures Grown(lim, c, u) == c.(word := Grown(lim, c, u).word)
  {
  }

  lemma {:induction false} QuotedUnitsFed(lim: Limits, c: Ctx, us: seq<Unit>)
    requires (forall i :: 0 <= i < |us| ==> QuotedUnit(us[i])) && Short(lim, c) && c.state == QuoteCollect
    ensures Feed(lim, c, UnitsText(us)) == c.(word := Clip(lim.word, c.word + Filter(UnitsValue(us))))
    decreases |us|
  {
    hide QuotedUnit, Filter, ParseChar, AddChar;
    if us == [] {
      assert c.word + Filter("") == c.word by { assert Filter("") == "" by { NothingFiltered(); } }
    } else {
      FeedConcat(lim, c, UnitText(us[0]), UnitsText(us[1..]));
      QuotedUnitFed(lim, c, us[0]);
      GrownClip(lim, c, us);
      GrownElsewhere(lim, c, us[0]);
      QuotedUnitsFed(lim, Grown(lim, c, us[0]), us[1..]);
    }
  }

  // ----- tokens -----

  /** After a token the word is committed, or will be by whatever ends it. */
  lemma TokenFed(lim: Limits, c: Ctx, t: Token)
    requires c.state == FindWordStart && c.word == "" && TokenOk(t)
    ensures var d := Feed(lim, c, TokenText(t));
            && AtGap(d) && (t.Bare? <==> d.state == Collect) && (t.Bare? ==> d.word == Clean(lim, TokenValue(t)))
            && Flush(lim, d) == EndOfWord(lim, c.(word := Clean(lim, TokenValue(t))))
  {
    hide Filter, BareUnit, QuotedUnit;
    match t
    case Bare(us) =>
      BareUnitsFed(lim, c, us);
      assert "" + Filter(UnitsValue(us)) == Filter(UnitsValue(us));
    case Quoted(us) => QuotedTokenFed(lim, c, us);
    case Equals =>
      FeedOne(lim, c, '=');
      assert Clean(lim, "=") == "=" by { EqualsKept(lim); }
      assert "" + ['='] == "=";
  }

  lemma EqualsKept(lim: Limits)
    ensures Clean(lim, "=") == "="
  {
    assert AllPrintable("=");
  }

  lemma QuotedTokenFed(lim: Limits, c: Ctx, us: seq<Unit>)
    requires c.state == FindWordStart && c.word == "" && forall i :: 0 <= i < |us| ==> QuotedUnit(us[i])
    ensures Feed(lim, c, TokenText(Quoted(us))) == EndOfWord(lim, c.(word := Clean(lim, UnitsValue(us))))
  {
    hide Filter, QuotedUnit, Clip, Feed, UnitsText, UnitsValue;
    var text := UnitsText(us);
    var q := c.(state := QuoteCollect);
    assert TokenText(Quoted(us)) == ['"'] + (text + ['"']);
    FeedConcat(lim, c, ['"'], text + ['"']);
    FeedOne(lim, c, '"');
    FeedConcat(lim, q, text, ['"']);
    QuotedUnitsFed(lim, q, us);
    assert "" + Filter(UnitsValue(us)) == Filter(UnitsValue(us));
    var d := q.(word := Clean(lim, UnitsValue(us)));
    assert Feed(lim, q, text) == d;
    FeedOne(lim, d, '"');
  }

  /** White space, a newline, a hash sign and an equals sign all end a bare word first. */
  lemma GapEnds(lim: Limits, c: Ctx, ch: char)
    requires AtGap(c) && (IsSpace(ch) || ch == '#' || ch == '=')
    ensures ParseChar(lim, c, ch) == ParseChar(lim, Flush(lim, c), ch)
  {
  }

  lemma {:induction false} BlankFed(lim: Limits, c: Ctx, blank: string)
    requires c.state == FindWordStart && Blank(blank)
    ensures Feed(lim, c, blank) == c
    decreases |blank|
  {
    if blank != "" { BlankFed(lim, c, blank[1..]); }
  }

  lemma GapBlankFed(lim: Limits, c: Ctx, blank: string)
    requires AtGap(c) && Blank(blank)
    ensures Feed(lim, c, blank) == if blank == "" then c else Flush(lim, c)
  {
    if blank != "" {
      var f := Flush(lim, c);
      GapEnds(lim, c, blank[0]);
      assert ParseChar(lim, f, blank[0]) == f;
      BlankFed(lim, f, blank[1..]);
    }
  }

  /** A token with its white space, wherever it may stand. */
  lemma ItemFed(lim: Limits, c: Ctx, item: Spaced)
    requires AtGap(c) && Blank(item.blank) && TokenOk(item.token)
    requires c.state == Collect && !item.token.Equals? ==> item.blank != ""
    ensures var d := Feed(lim, c, item.blank + TokenText(item.token));
            && AtGap(d) && (item.token.Bare? <==> d.state == Collect)
            && (item.token.Bare? ==> d.word == Clean(lim, TokenValue(item.token)))
            && Flush(lim, d) == EndOfWord(lim, Flush(lim, c).(word := Clean(lim, TokenValue(item.token))))
  {
    hide TokenOk, Blank, Clean;
    var f, text := Flush(lim, c), TokenText(item.token);
    FeedConcat(lim, c, item.blank, text);
    GapBlankFed(lim, c, item.blank);
    TokenFed(lim, f, item.token);
    if c.state == Collect && item.blank == "" {
      GapEnds(lim, c, '=');
      FeedOne(lim, c, '=');
      FeedOne(lim, f, '=');
    }
  }

  lemma {:induction false} ItemsFed(lim: Limits, c: Ctx, items: seq<Spaced>)
    requires AtGap(c) && Room(lim, Flush(lim, c).args) && ItemsOk(items, c.state == Collect)
    ensures var d := Feed(lim, c, ItemsText(items));
            && AtGap(d) && (items != [] ==> (d.state == Collect <==> items[|items| - 1].token.Bare?))
            && (items != [] && d.state == Collect ==> d.word == Clean(lim, TokenValue(items[|items| - 1].token)))
            && Flush(lim, d) == Flush(lim, c).(args := Clip(lim.args, Flush(lim, c).args + CleanAll(lim, Values(items))))
    decreases |items|
  {
    var f := Flush(lim, c);
    if items == [] {
      assert f.args + [] == f.args;
      assert CleanAll(lim, []) == [];
    } else {
      var item, rest := items[0], items[1..];
      var text := item.blank + TokenText(item.token);
      hide TokenOk, Blank, Clean, TokenText, EndOfWord;
      assert ItemsText(items) == text + ItemsText(rest);
      FeedConcat(lim, c, text, ItemsText(rest));
      ItemFed(lim, c, item);
      var d, w := Feed(lim, c, text), f.(word := Clean(lim, TokenValue(item.token)));
      EndOfWordClip(lim, w, CleanAll(lim, Values(rest)));
      ItemsFed(lim, d, rest);
      assert rest != [] ==> rest[|rest| - 1] == items[|items| - 1];
      FlushIs(lim, c);
      EndOfWordIs(lim, w);
      assert CleanAll(lim, Values(items)) == [w.word] + CleanAll(lim, Values(rest));
    }
  }

  lemma FlushIs(lim: Limits, c: Ctx)
    requires AtGap(c)
    ensures var f := Flush(lim, c); f.state == FindWordStart && f.word == "" && f.error == c.error
  {
  }

  lemma EndOfWordIs(lim: Limits, c: Ctx)
    ensures EndOfWord(lim, c) == c.(word := "", args := EndOfWord(lim, c).args)
  {
  }

  // ----- whole lines -----

  lemma {:induction false} CommentFed(lim: Limits, c: Ctx, text: string)
    requires c.state == FindEol && '\n' !in text
    ensures Feed(lim, c, text) == c
    decreases |text|
  {
    if text != "" { CommentFed(lim, c, text[1..]); }
  }

  /** White space and a comment end the last word and add nothing. */
  lemma EndingFed(lim: Limits, c: Ctx, w: Written)
    requires AtGap(c) && Blank(w.trail) && (w.comment.Some? ==> '\n' !in w.comment.value)
    ensures var d := Feed(lim, c, Ending(w));
            !Finished(d.state) && ParseChar(lim, d, '\n') == Flush(lim, c).(state := EndOfLine)
    ensures w.comment.Some? ==> Feed(lim, c, Ending(w)) == Flush(lim, c).(state := FindEol)
  {
    GapBlankFed(lim, c, w.trail);
    var g, f := Feed(lim, c, w.trail), Flush(lim, c);
    FlushIs(lim, c);
    match w.comment
    case None =>
      assert Ending(w) == w.trail;
      GapEnds(lim, c, '\n');
    case Some(text) =>
      var rest := ['#'] + text;
      assert Ending(w) == w.trail + rest;
      FeedConcat(lim, c, w.trail, rest);
      FeedConcat(lim, g, ['#'], text);
      FeedOne(lim, g, '#');
      GapEnds(lim, c, '#');
      CommentFed(lim, f.(state := FindEol), text);
  }

  lemma BodyFed(lim: Limits, c: Ctx, w: Written)
    requires c.state == FindWordStart && c.word == "" && c.args == [] && WrittenOk(w)
    ensures var d := Feed(lim, c, Body(w));
            !Finished(d.state) && ParseChar(lim, d, '\n') == c.(state := EndOfLine, args := Received(lim, Values(w.items)))
    ensures w.comment.Some? ==> Feed(lim, c, Body(w)) == c.(state := FindEol, args := Received(lim, Values(w.items)))
  {
    hide ItemsOk, CleanAll, ItemsText, Values;
    FeedConcat(lim, c, ItemsText(w.items), Ending(w));
    ItemsFed(lim, c, w.items);
    EndingFed(lim, Feed(lim, c, ItemsText(w.items)), w);
    assert [] + CleanAll(lim, Values(w.items)) == CleanAll(lim, Values(w.items));
  }

  /** A stream of such lines gives, line by line and without error, the values of the tokens:
      quotes and escapes taken away, continued lines joined, comments dropped. */
  lemma {:induction false} LinesRead(lim: Limits, c: Ctx, lines: seq<Written>)
    requires BetweenLines(c) && forall i :: 0 <= i < |lines| ==> WrittenOk(lines[i])
    ensures Stream(lim, c, Text(lines)) == Outcomes(lim, lines)
    decreases |lines|
  {
    if lines != [] {
      hide WrittenOk, Body, Received;
      var c0 := Restart(c);
      var body, tail := Body(lines[0]), "\n" + Text(lines[1..]);
      var s := Text(lines);
      assert s == body + tail;
      RestartFirst(lim, c, s);
      BodyFed(lim, c0, lines[0]);
      var d := Feed(lim, c0, body);
      UnfinishedPrefixes(lim, c0, body);
      StreamOfUnfinished(lim, c0, body, tail);
      assert tail[0] == '\n' && tail[1..] == Text(lines[1..]);
      var e := PushChar(lim, d, '\n');
      LinesRead(lim, e, lines[1..]);
    }
  }

  lemma RestartFirst(lim: Limits, c: Ctx, s: string)
    ensures Stream(lim, c, s) == Stream(lim, Restart(c), s)
  {
  }

  /** The same for a single line given to pconf_line(). */
  lemma LineRead(lim: Limits, c: Ctx, w: Written)
    requires c.word == "" && WrittenOk(w)
    ensures ParseLine(lim, c, Body(w) + "\n").args == Received(lim, Values(w.items))
    ensures w.comment.Some? ==> ParseLine(lim, c, Body(w)).args == Received(lim, Values(w.items))
  {
    hide WrittenOk, Body, Received, Values;
    var c0 := c.(state := FindWordStart, args := []);
    BodyFed(lim, c0, w);
    FeedConcat(lim, c0, Body(w), ['\n']);
    FeedOne(lim, Feed(lim, c0, Body(w)), '\n');
  }

  /** A last bare word that the end of the text leaves open is kept, unless nothing is left of it. */
  lemma OpenWordRead(lim: Limits, c: Ctx, items: seq<Spaced>)
    requires c.word == "" && ItemsOk(items, false) && items != []
    requires var last := items[|items| - 1].token; last.Bare? ==> Clean(lim, TokenValue(last)) != ""
    ensures ParseLine(lim, c, ItemsText(items)).args == Received(lim, Values(items))
  {
    hide ItemsOk, ItemsText, Values, CleanAll, Clean, Feed, EndOfWord, AtGap;
    var c0 := c.(state := FindWordStart, args := []);
    assert AtGap(c0) && Flush(lim, c0) == c0 by { Started(lim, c0); }
    hide Flush;
    ItemsFed(lim, c0, items);
    TiedOff(lim, Feed(lim, c0, ItemsText(items)));
    assert [] + CleanAll(lim, Values(items)) == CleanAll(lim, Values(items));
  }

  lemma Started(lim: Limits, c: Ctx)
    requires c.state == FindWordStart && c.word == ""
    ensures AtGap(c) && Flush(lim, c) == c
  {
  }

  lemma TiedOff(lim: Limits, d: Ctx)
    requires AtGap(d) && (d.state == Collect ==> d.word != "")
    ensures !Finished(d.state) && (if d.word != "" then EndOfWord(lim, d).args else d.args) == Flush(lim, d).args
  {
  }

  /** A hash sign inside quotes ends the line as a bad one, with the words so far; what follows is
      read as a new line. */
  lemma HashInQuotes(lim: Limits, c: Ctx, items: seq<Spaced>, blank: string, us: seq<Unit>, rest: string)
    requires BetweenLines(c) && ItemsOk(items + [Spaced(blank, Quoted(us))], false)
    ensures exists d :: && BetweenLines(d) && !(d.state == FindWordStart)
                        && Stream(lim, c, ItemsText(items) + (blank + ("\"" + UnitsText(us) + ("#" + rest))))
                           == [Bad(Received(lim, Values(items) + [UnitsValue(us)]))] + Stream(lim, d, rest)
  {
    hide ItemsOk, ItemsText, UnitsText, Values, UnitsValue, Received, Feed, Clean, EndOfWord;
    var c0, text := Restart(c), blank + ("\"" + UnitsText(us));
    var body, tail := ItemsText(items) + text, "#" + rest;
    var all := ItemsText(items) + (blank + ("\"" + UnitsText(us) + tail));
    assert all == body + tail;
    RestartFirst(lim, c, all);
    OpenQuoteFed(lim, c0, items, blank, us);
    var q := Feed(lim, c0, body);
    UnfinishedPrefixes(lim, c0, body);
    StreamOfUnfinished(lim, c0, body, tail);
    var d := PushChar(lim, q, '#');
    ReceivedSnoc(lim, Values(items), UnitsValue(us));
    HashEnds(lim, q);
    hide PushChar;
    assert tail[0] == '#' && tail[1..] == rest;
    assert Stream(lim, q, tail) == Emitted(d) + Stream(lim, d, rest);
  }

  lemma HashEnds(lim: Limits, q: Ctx)
    requires q.state == QuoteCollect && Room(lim, q.args)
    ensures var d := PushChar(lim, q, '#');
            d.state == ParseErr && BetweenLines(d) && d.args == Clip(lim.args, q.args + [q.word])
  {
  }

  lemma ReceivedSnoc(lim: Limits, ws: seq<string>, w: string)
    ensures Received(lim, ws + [w]) == Clip(lim.args, Received(lim, ws) + [Clean(lim, w)]) && Room(lim, Received(lim, ws))
  {
    hide Clean;
    var all := CleanAll(lim, ws);
    assert CleanAll(lim, ws + [w]) == all + [Clean(lim, w)];
    ClipTwice(lim.args, [], all, [Clean(lim, w)]);
    assert [] + all == all && [] + (all + [Clean(lim, w)]) == all + [Clean(lim, w)];
  }

  lemma {:induction false} ItemsPrefix(items: seq<Spaced>, last: Spaced, afterBare: bool)
    requires ItemsOk(items + [last], afterBare)
    ensures ItemsOk(items, afterBare) && Blank(last.blank) && TokenOk(last.token)
    ensures last.token.Equals? || last.blank != "" || !(if items == [] then afterBare else items[|items| - 1].token.Bare?)
    decreases |items|
  {
    hide Blank, TokenOk;
    if items != [] {
      assert (items + [last])[1..] == items[1..] + [last];
      ItemsPrefix(items[1..], last, items[0].token.Bare?);
    }
  }

  lemma OpenQuoteFed(lim: Limits, c: Ctx, items: seq<Spaced>, blank: string, us: seq<Unit>)
    requires c.state == FindWordStart && c.word == "" && c.args == []
    requires ItemsOk(items + [Spaced(blank, Quoted(us))], false)
    ensures Feed(lim, c, ItemsText(items) + (blank + ("\"" + UnitsText(us))))
            == c.(state := QuoteCollect, word := Clean(lim, UnitsValue(us)), args := Received(lim, Values(items)))
  {
    ItemsPrefix(items, Spaced(blank, Quoted(us)), false);
    hide ItemsOk, ItemsText, Values, CleanAll, Filter;
    var text := ['"'] + UnitsText(us);
    FeedConcat(lim, c, ItemsText(items), blank + text);
    ItemsFed(lim, c, items);
    assert [] + CleanAll(lim, Values(items)) == CleanAll(lim, Values(items));
    var d := Feed(lim, c, ItemsText(items));
    if items == [] { NothingFed(lim, c); }
    hide Flush, Clean, Feed, AtGap;
    QuoteOpened(lim, d, blank, us);
    assert "\"" + UnitsText(us) == text;
  }

  lemma QuoteOpened(lim: Limits, d: Ctx, blank: string, us: seq<Unit>)
    requires AtGap(d) && Blank(blank) && (d.state == Collect ==> blank != "") && TokenOk(Quoted(us))
    ensures Feed(lim, d, blank + (['"'] + UnitsText(us)))
            == Flush(lim, d).(state := QuoteCollect, word := Clean(lim, UnitsValue(us)))
  {
    hide Filter, QuotedUnit, Blank, UnitsText;
    FeedConcat(lim, d, blank, ['"'] + UnitsText(us));
    GapBlankFed(lim, d, blank);
    var f := Flush(lim, d);
    FeedConcat(lim, f, ['"'], UnitsText(us));
    FeedOne(lim, f, '"');
    QuotedUnitsFed(lim, f.(state := QuoteCollect), us);
    assert "" + Filter(UnitsValue(us)) == Filter(UnitsValue(us));
  }

  lemma NothingFed(lim: Limits, c: Ctx)
    ensures Feed(lim, c, ItemsText([])) == c
  {
  }

  /** The characters that are stored are those from 0x20 to 0x7f. */
  lemma StoredCharacters(ch: char)
    ensures ParseLine(Limits(0, 0), FRESH, Quote([ch])).args == [if 0x20 <= ch as int <= 0x7f then [ch] else ""]
  {
    LineRoundTrip(Limits(0, 0), FRESH, [[ch]]);
    assert QuoteAll([[ch]]) == Quote([ch]);
    assert Filter([ch]) == if 0x20 <= ch as int <= 0x7f then [ch] else "";
  }

  /** In particular a comment line has no words. */
  lemma CommentLine(lim: Limits, c: Ctx, s: string)
    requires c.word == "" && '\n' !in s
    ensures ParseLine(lim, c, "#" + s).args == []
  {
    var w := Written([], "", Some(s));
    assert Body(w) == "#" + s;
    LineRead(lim, c, w);
  }
}
