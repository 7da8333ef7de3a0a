/** TcpClient::explode() and TcpClient::escape() of clients/nutclient.cpp: a second parser and
    printer for the same wire format, and how far they agree with parseconf. */
module NutClient {
  import opened CStrings
  import opened ConfLines
  import opened Options
  import opened Parseconf

  datatype ScanState = Init | SimpleString | QuotedString | SimpleEscape | QuotedEscape

  datatype Scan = Scan(state: ScanState, temp: string, res: seq<string>)

  /** The character that an unknown escape appends: the sum '\\' + c, cut to a byte. */
  function UnknownEscape(c: char): char {
    ((92 + c as int) % 256) as char
  }

  function ScanChar(a: Scan, c: char): Scan {
    match a.state
    case Init =>
      if c == ' ' then a
      else if c == '"' then a.(state := QuotedString)
      else if c == '\\' then a.(state := SimpleEscape)
      else a.(temp := a.temp + [c], state := SimpleString)
    case SimpleString =>
      if c == ' ' then Scan(Init, "", a.res + [a.temp])
      else if c == '\\' then a.(state := SimpleEscape)
      else if c == '"' then Scan(QuotedString, "", a.res + [a.temp])
      else a.(temp := a.temp + [c])
    case QuotedString =>
      if c == '\\' then a.(state := QuotedEscape)
      else if c == '"' then Scan(Init, "", a.res + [a.temp])
      else a.(temp := a.temp + [c])
    case SimpleEscape =>
      var d := if c == '\\' || c == '"' || c == ' ' then c else UnknownEscape(c);
      a.(temp := a.temp + [d], state := SimpleString)
    case QuotedEscape =>
      var d := if c == '\\' || c == '"' then c else UnknownEscape(c);
      a.(temp := a.temp + [d], state := QuotedString)
  }

  function ScanAll(a: Scan, s: string): Scan
    decreases |s|
  {
    if s == "" then a else ScanAll(ScanChar(a, s[0]), s[1..])
  }

  function Finish(a: Scan): seq<string> {
    if a.temp != "" then a.res + [a.temp] else a.res
  }

  const START := Scan(Init, "", [])

  lemma {:induction false} ScanConcat(a: Scan, s: string, t: string)
    ensures ScanAll(a, s + t) == ScanAll(ScanAll(a, s), t)
    decreases |s|
  {
    if s == "" {
      assert s + t == t;
    } else {
      assert (s + t)[1..] == s[1..] + t;
      ScanConcat(ScanChar(a, s[0]), s[1..], t);
    }
  }

  /** TcpClient::explode() */
  method Explode(str: string, begin: nat) returns (res: seq<string>)
    ensures res == if begin <= |str| then Finish(ScanAll(START, str[begin..])) else []
  {
    res := [];
    var temp := "";
    var state := Init;
    var idx := begin;
    while idx < |str|
      invariant begin <= |str| ==> begin <= idx <= |str|
      invariant begin <= |str| ==> ScanAll(Scan(state, temp, res), str[idx..]) == ScanAll(START, str[begin..])
      invariant begin > |str| ==> res == [] && temp == ""
    {
      var c := str[idx];
      assert str[idx..][1..] == str[idx + 1..];
      match state {
        case Init =>
          if c == ' ' {
          } else if c == '"' {
            state := QuotedString;
          } else if c == '\\' {
            state := SimpleEscape;
          } else {
            temp := temp + [c];
            state := SimpleString;
          }
        case SimpleString =>
          if c == ' ' {
            res := res + [temp];
            temp := "";
            state := Init;
          } else if c == '\\' {
            state := SimpleEscape;
          } else if c == '"' {
            res := res + [temp];
            temp := "";
            state := QuotedString;
          } else {
            temp := temp + [c];
          }
        case QuotedString =>
          if c == '\\' {
            state := QuotedEscape;
          } else if c == '"' {
            res := res + [temp];
            temp := "";
            state := Init;
          } else {
            temp := temp + [c];
          }
        case SimpleEscape =>
          if c == '\\' || c == '"' || c == ' ' {
            temp := temp + [c];
          } else {
            temp := temp + [UnknownEscape(c)];
          }
          state := SimpleString;
        case QuotedEscape =>
          if c == '\\' || c == '"' {
            temp := temp + [c];
          } else {
            temp := temp + [UnknownEscape(c)];
          }
          state := QuotedString;
      }
      idx := idx + 1;
    }
    if temp != "" {
      res := res + [temp];
    }
  }

  function EscapeChar(c: char): string {
    if c == '"' || c == '\\' then ['\\', c] else [c]
  }

  function EscapeBody(s: string): string {
    if s == "" then "" else EscapeChar(s[0]) + EscapeBody(s[1..])
  }

  lemma {:induction false} EscapeBodySnoc(s: string, i: nat)
    requires i < |s|
    ensures EscapeBody(s[..i + 1]) == EscapeBody(s[..i]) + EscapeChar(s[i])
    decreases i
  {
    if i == 0 {
      assert s[..1][1..] == "" && s[..0] == "";
    } else {
      assert s[..i + 1][1..] == s[1..][..i] && s[..i][1..] == s[1..][..i - 1];
      EscapeBodySnoc(s[1..], i - 1);
    }
  }

  function Escaped(s: string): string {
    "\"" + EscapeBody(s) + "\""
  }

  /** TcpClient::escape() */
  method Escape(str: string) returns (res: string)
    ensures res == Escaped(str)
  {
    res := "\"";
    assert "\"" + EscapeBody(str[..0]) == "\"";
    for n := 0 to |str|
      invariant res == "\"" + EscapeBody(str[..n])
    {
      var c := str[n];
      EscapeBodySnoc(str, n);
      if c == '"' {
        res := res + "\\\"";
      } else if c == '\\' {
        res := res + "\\\\";
      } else {
        res := res + [c];
      }
    }
    assert str[..|str|] == str;
    res := res + "\"";
  }

  /** Escaped values separated by one space, as the requests of TcpClient are put together. */
  function Request(vs: seq<string>): string {
    if vs == [] then ""
    else if |vs| == 1 then Escaped(vs[0])
    else Escaped(vs[0]) + " " + Request(vs[1..])
  }

  // ----- explode undoes escape -----

  lemma ScanEscapedChar(a: Scan, c: char)
    requires a.state == QuotedString
    ensures ScanAll(a, EscapeChar(c)) == a.(temp := a.temp + [c])
  {
    if c == '"' || c == '\\' {
      assert EscapeChar(c)[1..] == [c];
      assert ScanAll(a.(state := QuotedEscape), [c]) == a.(temp := a.temp + [c]);
    }
  }

  lemma {:induction false} ScanEscapeBody(a: Scan, s: string)
    requires a.state == QuotedString
    ensures ScanAll(a, EscapeBody(s)) == a.(temp := a.temp + s)
    decreases |s|
  {
    if s == "" {
      assert a.temp + s == a.temp;
    } else {
      ScanConcat(a, EscapeChar(s[0]), EscapeBody(s[1..]));
      ScanEscapedChar(a, s[0]);
      ScanEscapeBody(a.(temp := a.temp + [s[0]]), s[1..]);
      assert (a.temp + [s[0]]) + s[1..] == a.temp + s;
    }
  }

  lemma ScanEscaped(res: seq<string>, s: string)
    ensures ScanAll(Scan(Init, "", res), Escaped(s)) == Scan(Init, "", res + [s])
  {
    var a := Scan(Init, "", res);
    var open, close := "\"", "\"";
    assert Escaped(s) == open + (EscapeBody(s) + close);
    ScanConcat(a, open, EscapeBody(s) + close);
    var q := Scan(QuotedString, "", res);
    assert ScanAll(a, open) == q;
    ScanConcat(q, EscapeBody(s), close);
    ScanEscapeBody(q, s);
    assert "" + s == s;
    assert ScanAll(Scan(QuotedString, s, res), close) == Scan(Init, "", res + [s]);
  }

  lemma {:induction false} ScanRequest(res: seq<string>, vs: seq<string>)
    ensures ScanAll(Scan(Init, "", res), Request(vs)) == Scan(Init, "", res + vs)
    decreases |vs|
  {
    if vs == [] {
      assert res + vs == res;
    } else {
      ScanEscaped(res, vs[0]);
      assert res + [vs[0]] + vs[1..] == res + vs;
      if |vs| > 1 {
        var rest := " " + Request(vs[1..]);
        assert Request(vs) == Escaped(vs[0]) + rest;
        ScanConcat(Scan(Init, "", res), Escaped(vs[0]), rest);
        assert rest[1..] == Request(vs[1..]);
        ScanRequest(res + [vs[0]], vs[1..]);
      }
    }
  }

  /** Exploding a request gives back its values, whatever strings they are, empty ones included. */
  lemma ExplodeUndoesEscape(vs: seq<string>)
    ensures Finish(ScanAll(START, Request(vs))) == vs
  {
    ScanRequest([], vs);
    assert [] + vs == vs;
  }

  // ----- agreement with parseconf -----

  lemma {:induction false} EscapeIsEncode(s: string)
    requires '#' !in s
    ensures EscapeBody(s) == Encode(s)
  {
    if s != "" { EscapeIsEncode(s[1..]); }
  }

  lemma {:induction false} RequestIsQuoteAll(vs: seq<string>)
    requires forall i :: 0 <= i < |vs| ==> '#' !in vs[i]
    ensures Request(vs) == QuoteAll(vs)
  {
    if vs != [] {
      EscapeIsEncode(vs[0]);
      RequestIsQuoteAll(vs[1..]);
    }
  }

  lemma FeedPlainEscape(lim: Limits, c: Ctx, ch: char)
    requires c.state == QuoteCollect && ch != '#'
    ensures Feed(lim, c, EscapeChar(ch)).state == QuoteCollect
  {
    if ch == '"' || ch == '\\' {
      assert EscapeChar(ch)[1..] == [ch];
      assert Feed(lim, c.(state := QcLiteral), [ch]) == AddChar(lim, c, ch);
    }
  }

  lemma {:induction false} FeedHash(lim: Limits, c: Ctx, s: string)
    requires c.state == QuoteCollect && '#' in s
    ensures Feed(lim, c, EscapeBody(s)).state == ParseErr
    decreases |s|
  {
    FeedConcat(lim, c, EscapeChar(s[0]), EscapeBody(s[1..]));
    if s[0] == '#' {
      var d := ParseChar(lim, c, '#');
      assert Feed(lim, c, "#") == d;
      FeedFinished(lim, d, EscapeBody(s[1..]));
    } else {
      FeedPlainEscape(lim, c, s[0]);
      FeedHash(lim, Feed(lim, c, EscapeChar(s[0])), s[1..]);
    }
  }

  lemma FeedEscapedHash(lim: Limits, c: Ctx, s: string)
    requires c.state == FindWordStart && '#' in s
    ensures Feed(lim, c, Escaped(s)).state == ParseErr
  {
    var open, close := "\"", "\"";
    assert Escaped(s) == open + (EscapeBody(s) + close);
    FeedConcat(lim, c, open, EscapeBody(s) + close);
    var q := c.(state := QuoteCollect);
    assert Feed(lim, c, open) == q;
    FeedConcat(lim, q, EscapeBody(s), close);
    FeedHash(lim, q, s);
    FeedFinished(lim, Feed(lim, q, EscapeBody(s)), close);
  }

  /** A '#' anywhere in a value makes parseconf report an error for the request. */
  lemma {:induction false} RequestWithHash(lim: Limits, c: Ctx, vs: seq<string>, k: nat)
    requires c.state == FindWordStart && c.word == ""
    requires k < |vs| && '#' in vs[k]
    requires forall i :: 0 <= i < k ==> '#' !in vs[i]
    ensures Feed(lim, c, Request(vs)).state == ParseErr
    decreases |vs|
  {
    var rest := if |vs| == 1 then "" else " " + Request(vs[1..]);
    assert Request(vs) == Escaped(vs[0]) + rest;
    FeedConcat(lim, c, Escaped(vs[0]), rest);
    if k == 0 {
      FeedEscapedHash(lim, c, vs[0]);
      FeedFinished(lim, Feed(lim, c, Escaped(vs[0])), rest);
    } else {
      EscapeIsEncode(vs[0]);
      FeedQuoted(lim, c, vs[0]);
      var d := Feed(lim, c, Escaped(vs[0]));
      FeedSpace(lim, d, Request(vs[1..]));
      assert vs[1..][k - 1] == vs[k];
      RequestWithHash(lim, d, vs[1..], k - 1);
    }
  }

  lemma {:induction false} FirstHash(vs: seq<string>) returns (k: nat)
    requires exists i :: 0 <= i < |vs| && '#' in vs[i]
    ensures k < |vs| && '#' in vs[k] && forall i :: 0 <= i < k ==> '#' !in vs[i]
  {
    k := 0;
    while '#' !in vs[k]
      invariant k < |vs| && forall i :: 0 <= i < k ==> '#' !in vs[i]
      decreases |vs| - k
    {
      k := k + 1;
    }
  }

  /** parseconf reads a request as the same words that explode() does, and without error, if and
      only if no value contains '#', every value is printable and the limits are kept. */
  lemma ParseconfAgreesIff(lim: Limits, vs: seq<string>)
    ensures ParseLine(lim, FRESH, Request(vs)).state == FindWordStart
            && ParseLine(lim, FRESH, Request(vs)).args == Finish(ScanAll(START, Request(vs)))
            <==> ArgsOk(lim, vs) && forall i :: 0 <= i < |vs| ==> '#' !in vs[i]
  {
    ExplodeUndoesEscape(vs);
    if forall i :: 0 <= i < |vs| ==> '#' !in vs[i] {
      RequestIsQuoteAll(vs);
      FeedQuoteAll(lim, FRESH, vs);
      LineRoundTrip(lim, FRESH, vs);
      ReceivedUnchanged(lim, vs);
    } else {
      var k := FirstHash(vs);
      RequestWithHash(lim, FRESH, vs, k);
    }
  }

  // ----- lines of bare and quoted words -----

  /** What explode() makes of one unit: it knows few escapes, and a joined line is none of them. */
  function ScanValue(u: Unit, quoted: bool): char {
    var c := if u.Joined? then '\n' else u.c;
    if u.Plain? || c == '\\' || c == '"' || (c == ' ' && !quoted) then c
    else ((0x5c + c as int) % 0x100) as char
  }

  ghost predicate ScanUnit(u: Unit, quoted: bool) {
    u.Plain? ==> u.c != '"' && u.c != '\\' && (quoted || u.c != ' ')
  }

  ghost predicate ScanToken(t: Token) {
    match t
    case Bare(us) => us != [] && forall i :: 0 <= i < |us| ==> ScanUnit(us[i], false)
    case Quoted(us) => forall i :: 0 <= i < |us| ==> ScanUnit(us[i], true)
    case Equals => true
  }

  function ScanUnits(us: seq<Unit>, quoted: bool): string {
    if us == [] then "" else [ScanValue(us[0], quoted)] + ScanUnits(us[1..], quoted)
  }

  function ScanWord(t: Token): string {
    match t
    case Bare(us) => ScanUnits(us, false)
    case Quoted(us) => ScanUnits(us, true)
    case Equals => "="
  }

  ghost predicate Spaces(s: string) {
    forall i :: 0 <= i < |s| ==> s[i] == ' '
  }

  /** Spaces are needed only between two words that are both not quoted. */
  ghost predicate ScanItems(items: seq<Spaced>, afterBare: bool)
    decreases |items|
  {
    items == [] ||
    (&& Spaces(items[0].blank) && ScanToken(items[0].token)
     && (afterBare && !items[0].token.Quoted? ==> items[0].blank != "")
     && ScanItems(items[1..], !items[0].token.Quoted?))
  }

  function ScanWords(items: seq<Spaced>): seq<string> {
    if items == [] then [] else [ScanWord(items[0].token)] + ScanWords(items[1..])
  }

  /** Ends the bare word, if there is one. */
  function EndBare(a: Scan): Scan {
    if a.state == SimpleString then Scan(Init, "", a.res + [a.temp]) else a
  }

  ghost predicate ScanGap(a: Scan) {
    (a.state == Init && a.temp == "") || (a.state == SimpleString && a.temp != "")
  }

  lemma ScanOne(a: Scan, c: char)
    ensures ScanAll(a, [c]) == ScanChar(a, c)
  {
    assert [c][1..] == "";
  }

  lemma ScanTwo(a: Scan, c: char, d: char)
    ensures ScanAll(a, [c, d]) == ScanChar(ScanChar(a, c), d)
  {
    assert [c, d][1..] == [d];
    ScanOne(ScanChar(a, c), d);
  }

  lemma UnitScanned(a: Scan, u: Unit, quoted: bool)
    requires ScanUnit(u, quoted)
    requires if quoted then a.state == QuotedString else a.state == Init || a.state == SimpleString
    ensures ScanAll(a, UnitText(u))
            == a.(temp := a.temp + [ScanValue(u, quoted)], state := if quoted then QuotedString else SimpleString)
  {
    match u
    case Plain(c) => ScanOne(a, c);
    case Escaped(c) => ScanTwo(a, '\\', c);
    case Joined =>
      assert UnitText(u) == ['\\', '\n'];
      ScanTwo(a, '\\', '\n');
  }

  lemma {:induction false} UnitsScanned(a: Scan, us: seq<Unit>, quoted: bool)
    requires forall i :: 0 <= i < |us| ==> ScanUnit(us[i], quoted)
    requires if quoted then a.state == QuotedString else a.state == SimpleString || (a.state == Init && us != [])
    ensures ScanAll(a, UnitsText(us))
            == a.(temp := a.temp + ScanUnits(us, quoted), state := if quoted then QuotedString else SimpleString)
    decreases |us|
  {
    if us == [] {
      assert a.temp + "" == a.temp;
    } else {
      hide ScanChar, ScanValue, UnitText;
      ScanConcat(a, UnitText(us[0]), UnitsText(us[1..]));
      UnitScanned(a, us[0], quoted);
      var x := ScanValue(us[0], quoted);
      UnitsScanned(a.(temp := a.temp + [x], state := if quoted then QuotedString else SimpleString), us[1..], quoted);
      assert a.temp + [x] + ScanUnits(us[1..], quoted) == a.temp + ScanUnits(us, quoted);
    }
  }

  /** A token adds its word, at once or when it is ended. */
  lemma TokenScanned(a: Scan, t: Token)
    requires ScanToken(t) && a.temp == "" && a.state == Init
    ensures var b := ScanAll(a, TokenText(t));
            ScanGap(b) && (b.state == SimpleString <==> !t.Quoted?) && EndBare(b) == Scan(Init, "", a.res + [ScanWord(t)])
  {
    match t
    case Bare(us) =>
      UnitsScanned(a, us, false);
      assert "" + ScanUnits(us, false) == ScanUnits(us, false);
    case Equals =>
      ScanOne(a, '=');
      assert "" + ['='] == "=";
    case Quoted(us) =>
      var text := UnitsText(us);
      var q := a.(state := QuotedString);
      assert TokenText(t) == ['"'] + (text + ['"']);
      ScanConcat(a, ['"'], text + ['"']);
      ScanOne(a, '"');
      ScanConcat(q, text, ['"']);
      UnitsScanned(q, us, true);
      assert "" + ScanUnits(us, true) == ScanUnits(us, true);
      ScanOne(ScanAll(q, text), '"');
  }

  lemma {:induction false} SpacesScanned(a: Scan, blank: string)
    requires a.state == Init && Spaces(blank)
    ensures ScanAll(a, blank) == a
    decreases |blank|
  {
    if blank != "" { SpacesScanned(a, blank[1..]); }
  }

  lemma GapSpacesScanned(a: Scan, blank: string)
    requires ScanGap(a) && Spaces(blank)
    ensures ScanAll(a, blank) == if blank == "" then a else EndBare(a)
  {
    if blank != "" { SpacesScanned(EndBare(a), blank[1..]); }
  }

  lemma ItemScanned(a: Scan, item: Spaced)
    requires ScanGap(a) && Spaces(item.blank) && ScanToken(item.token)
    requires a.state == SimpleString && !item.token.Quoted? ==> item.blank != ""
    ensures var b := ScanAll(a, item.blank + TokenText(item.token));
            && ScanGap(b) && (b.state == SimpleString <==> !item.token.Quoted?)
            && EndBare(b) == Scan(Init, "", EndBare(a).res + [ScanWord(item.token)])
  {
    var text, e := TokenText(item.token), EndBare(a);
    ScanConcat(a, item.blank, text);
    GapSpacesScanned(a, item.blank);
    TokenScanned(e, item.token);
    if a.state == SimpleString && item.blank == "" {
      QuoteEndsBare(a, text);
    }
  }

  lemma QuoteEndsBare(a: Scan, text: string)
    requires a.state == SimpleString && text != "" && text[0] == '"'
    ensures ScanAll(a, text) == ScanAll(EndBare(a), text)
  {
  }

  lemma OneMoreWord(res: seq<string>, items: seq<Spaced>)
    requires items != []
    ensures res + [ScanWord(items[0].token)] + ScanWords(items[1..]) == res + ScanWords(items)
  {
    hide ScanWord;
  }

  lemma {:induction false} ItemsScanned(a: Scan, items: seq<Spaced>)
    requires ScanGap(a) && ScanItems(items, a.state == SimpleString)
    ensures var b := ScanAll(a, ItemsText(items));
            ScanGap(b) && EndBare(b) == Scan(Init, "", EndBare(a).res + ScanWords(items))
    decreases |items|
  {
    var e := EndBare(a);
    if items == [] {
      assert e.res + [] == e.res;
    } else {
      var item, rest := items[0], items[1..];
      var text := item.blank + TokenText(item.token);
      hide ScanToken, TokenText, ScanWord, ScanChar, ScanAll, Spaces;
      assert ItemsText(items) == text + ItemsText(rest);
      ScanConcat(a, text, ItemsText(rest));
      ItemScanned(a, item);
      ItemsScanned(ScanAll(a, text), rest);
      OneMoreWord(e.res, items);
    }
  }

  /** explode() gives, for any line of bare and quoted words separated by spaces, the word of each:
      backslashes and quotes taken away, and for an escape it does not know another character. */
  lemma LineExploded(items: seq<Spaced>, trail: string)
    requires ScanItems(items, false) && Spaces(trail)
    ensures Finish(ScanAll(START, ItemsText(items) + trail)) == ScanWords(items)
  {
    ItemsScanned(START, items);
    var b := ScanAll(START, ItemsText(items));
    ScanConcat(START, ItemsText(items), trail);
    GapSpacesScanned(b, trail);
    assert [] + ScanWords(items) == ScanWords(items);
  }

  // ----- lines that both parsers read alike -----

  /** A unit without an escape that only one of them knows. */
  ghost predicate CommonUnit(u: Unit, quoted: bool) {
    u.Plain? || (u.Escaped? && (u.c == '\\' || u.c == '"' || (u.c == ' ' && !quoted)))
  }

  ghost predicate CommonToken(t: Token) {
    match t
    case Bare(us) => forall i :: 0 <= i < |us| ==> CommonUnit(us[i], false)
    case Quoted(us) => forall i :: 0 <= i < |us| ==> CommonUnit(us[i], true)
    case Equals => true
  }

  lemma {:induction false} CommonValue(us: seq<Unit>, quoted: bool)
    requires forall i :: 0 <= i < |us| ==> CommonUnit(us[i], quoted)
    ensures ScanUnits(us, quoted) == UnitsValue(us)
    decreases |us|
  {
    if us != [] { CommonValue(us[1..], quoted); }
  }

  lemma {:induction false} CommonWords(items: seq<Spaced>)
    requires forall i :: 0 <= i < |items| ==> CommonToken(items[i].token)
    ensures ScanWords(items) == Values(items)
    decreases |items|
  {
    if items != [] {
      var t := items[0].token;
      if t.Bare? { CommonValue(t.units, false); }
      if t.Quoted? { CommonValue(t.units, true); }
      CommonWords(items[1..]);
    }
  }

  /** On a line that is well spelled for both and uses the common escapes, such as the answers of
      upsd, parseconf reads the words that explode() does, up to its limits. */
  lemma BothReadLine(lim: Limits, c: Ctx, items: seq<Spaced>, trail: string)
    requires c.word == "" && ItemsOk(items, false) && ScanItems(items, false) && Blank(trail) && Spaces(trail)
    requires forall i :: 0 <= i < |items| ==> CommonToken(items[i].token)
    ensures var line := ItemsText(items) + trail;
            ParseLine(lim, c, line + "\n").args == Received(lim, Finish(ScanAll(START, line)))
  {
    hide ItemsOk, ScanItems, Received, CommonToken, Finish, ScanAll, ParseLine;
    var w := Written(items, trail, None);
    assert Body(w) == ItemsText(items) + trail;
    LineRead(lim, c, w);
    LineExploded(items, trail);
    CommonWords(items);
  }
}
