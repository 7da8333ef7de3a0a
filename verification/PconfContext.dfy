/** PCONF_CTX_t of common/parseconf.c: the parser over character buffers that grow and are
    reused from line to line, and the encoder that writes into a caller's buffer. Every
    operation is proved to compute the parser of module Parseconf. */
module PconfContext {
  import opened CStrings
  import opened Parseconf

  /** strlen() */
  method StrLen(buf: array<char>) returns (n: nat)
    requires exists i :: 0 <= i < buf.Length && buf[i] == NUL
    ensures n < buf.Length && buf[n] == NUL
    ensures forall i :: 0 <= i < n ==> buf[i] != NUL
  {
    n := 0;
    while buf[n] != NUL
      invariant n < buf.Length
      invariant forall i :: 0 <= i < n ==> buf[i] != NUL
      decreases buf.Length - n
    {
      n := n + 1;
    }
  }

  /** The buffer holds exactly the word and nothing after it: no tail of an earlier, longer one. */
  ghost predicate Holds(buf: array<char>, w: string)
    reads buf
  {
    && |w| < buf.Length
    && buf[..|w|] == w
    && forall i :: |w| <= i < buf.Length ==> buf[i] == NUL
  }

  /** memset() over the whole destination, then strncpy(). */
  method CopyWord(src: array<char>, n: nat, dst: array<char>)
    requires n <= src.Length && n < dst.Length && src != dst
    modifies dst
    ensures Holds(dst, src[..n])
  {
    forall i | 0 <= i < dst.Length { dst[i] := NUL; }
    forall i | 0 <= i < n { dst[i] := src[i]; }
  }

  class Context {
    var state: State
    var ch: char

    var arglist: seq<array<char>>
    var argsize: seq<nat>
    var numargs: nat
    var maxargs: nat

    var wordbuf: array<char>
    var wordptr: nat          // index into wordbuf
    var wordbufsize: nat

    var linenum: nat
    var error: bool
    const limits: Limits

    /** The committed words, as values. */
    ghost var args: seq<string>

    ghost function Repr(): set<object>
      reads this
    {
      {this, wordbuf} + set i | 0 <= i < |arglist| :: arglist[i]
    }

    ghost predicate ValidWordbuf()
      reads this, wordbuf
    {
      && wordbuf.Length == wordbufsize
      && wordptr < wordbufsize
      && (forall i :: 0 <= i < wordptr ==> Printable(wordbuf[i]))
      && wordbuf[wordptr] == NUL
    }

    ghost predicate ValidArgs()
      reads this, arglist
    {
      && numargs <= maxargs == |arglist| == |argsize|
      && |args| == numargs
      && (forall i :: 0 <= i < maxargs ==> arglist[i].Length == argsize[i])
      && (forall i :: 0 <= i < numargs ==> Holds(arglist[i], args[i]))
    }

    ghost predicate Separate()
      reads this
    {
      && (forall i :: 0 <= i < |arglist| ==> arglist[i] != wordbuf)
      && (forall i, j :: 0 <= i < j < |arglist| ==> arglist[i] != arglist[j])
    }

    ghost predicate Valid()
      reads this, wordbuf, arglist
    {
      ValidWordbuf() && ValidArgs() && Separate()
    }

    /** The parser state this context stands for. */
    ghost function View(): Ctx
      reads this, wordbuf, arglist
      requires Valid()
    {
      Ctx(state, wordbuf[..wordptr], args, error)
    }

    /** pconf_init() */
    constructor (lim: Limits)
      ensures Valid() && fresh(Repr())
      ensures View() == FRESH && limits == lim && linenum == 0
    {
      limits := lim;
      state, ch := FindWordStart, NUL;
      arglist, argsize, numargs, maxargs := [], [], 0, 0;
      wordbufsize := 16;
      wordbuf := new char[16](i => NUL);
      wordptr := 0;
      linenum, error := 0, false;
      args := [];
    }

    /** Enlarges the word buffer by eight when the next character would not fit. */
    method GrowWordbuf(wbuflen: nat)
      requires Valid() && wbuflen == wordptr
      modifies this`wordbuf, this`wordptr, this`wordbufsize
      ensures Valid() && wordptr + 1 < wordbufsize
      ensures wordbuf == old(wordbuf) || fresh(wordbuf)
      ensures View() == old(View())
    {
      if wbuflen >= wordbufsize - 1 {
        wordbufsize := wordbufsize + 8;
        var grown := new char[wordbufsize](i => NUL);
        forall i | 0 <= i < wordbuf.Length { grown[i] := wordbuf[i]; }
        assert grown[..wbuflen] == wordbuf[..wbuflen];
        wordbuf := grown;
        wordptr := wbuflen;
      }
    }

    /** addchar() */
    method AppendChar()
      requires Valid()
      modifies this`wordbuf, this`wordptr, this`wordbufsize, wordbuf
      ensures Valid() && fresh(Repr() - old(Repr()))
      ensures View() == AddChar(limits, old(View()), ch)
    {
      var wbuflen := StrLen(wordbuf);
      assert wbuflen == wordptr;
      if !Printable(ch) { return; }
      if limits.word != 0 && wbuflen >= limits.word { return; }
      GrowWordbuf(wbuflen);
      Store();
    }

    /** Stores the character and the new terminator. */
    method Store()
      requires Valid() && wordptr + 1 < wordbufsize && Printable(ch)
      modifies this`wordptr, wordbuf
      ensures Valid()
      ensures View() == old(View()).(word := old(View()).word + [ch])
    {
      wordbuf[wordptr] := ch;
      wordptr := wordptr + 1;
      wordbuf[wordptr] := NUL;
      assert wordbuf[..wordptr] == old(wordbuf[..wordptr]) + [ch];
    }

    /** Enlarges arglist and argsize when there are more words than ever before. */
    method GrowArglist()
      requires Valid()
      modifies this`arglist, this`argsize, this`maxargs
      ensures Valid() && fresh(Repr() - old(Repr()))
      ensures numargs < maxargs
      ensures numargs < old(maxargs) ==> arglist == old(arglist)
      ensures numargs >= old(maxargs) ==> old(arglist) == arglist[..numargs] && |arglist| == numargs + 1 && fresh(arglist[numargs])
      ensures View() == old(View())
    {
      if numargs + 1 > maxargs {
        maxargs := numargs + 1;
        var empty := new char[0];
        arglist := arglist + [empty];
        argsize := argsize + [0];
      }
    }

    /** Enlarges the storage of one argument; its old contents are of no interest. */
    method GrowArg(argpos: nat, wbuflen: nat)
      requires Valid() && argpos == numargs < maxargs
      modifies this`arglist, this`argsize
      ensures Valid() && fresh(Repr() - old(Repr()))
      ensures |arglist| == |old(arglist)| && wbuflen < arglist[argpos].Length
      ensures arglist[argpos] == old(arglist)[argpos] || fresh(arglist[argpos])
      ensures forall i :: 0 <= i < |arglist| && i != argpos ==> arglist[i] == old(arglist)[i]
      ensures View() == old(View())
    {
      if wbuflen >= argsize[argpos] {
        var buf := new char[wbuflen + 1];
        arglist := arglist[argpos := buf];
        argsize := argsize[argpos := wbuflen + 1];
      }
    }

    /** add_arg_word() */
    method AddArgWord()
      requires Valid()
      modifies this`arglist, this`argsize, this`numargs, this`maxargs, this`args, arglist
      ensures Valid() && fresh(Repr() - old(Repr()))
      ensures View() == old(View()).(args := old(args) + [old(wordbuf[..wordptr])])
    {
      GrowArglist();
      var argpos := numargs;
      var wbuflen := StrLen(wordbuf);
      assert wbuflen == wordptr;
      GrowArg(argpos, wbuflen);
      CopyWord(wordbuf, wbuflen, arglist[argpos]);
      numargs := numargs + 1;
      args := args + [wordbuf[..wordptr]];
    }

    /** endofword() */
    method CommitWord()
      requires Valid()
      modifies this`arglist, this`argsize, this`numargs, this`maxargs, this`args, this`wordptr, arglist, wordbuf
      ensures Valid() && fresh(Repr() - old(Repr()))
      ensures View() == EndOfWord(limits, old(View()))
    {
      if !(limits.args != 0 && numargs >= limits.args) {
        AddArgWord();
      }
      wordptr := 0;
      wordbuf[0] := NUL;
    }

    /** findwordstart() */
    method FindWordStartState() returns (next: State)
      requires Valid()
      modifies this, wordbuf, arglist
      ensures Valid() && fresh(Repr() - old(Repr()))
      ensures View().(state := next) == StepFindWordStart(limits, old(View()), ch)
      ensures ch == old(ch) && linenum == old(linenum)
    {
      if ch == '\n' { return EndOfLine; }
      if ch == '#' { return FindEol; }
      if IsSpace(ch) { return FindWordStart; }
      if ch == '\\' { return CollectLiteral; }
      if ch == '"' { return QuoteCollect; }
      AppendChar();
      if ch == '=' {
        CommitWord();
        return FindWordStart;
      }
      return Collect;
    }

    /** quotecollect() */
    method QuoteCollectState() returns (next: State)
      requires Valid()
      modifies this, wordbuf, arglist
      ensures Valid() && fresh(Repr() - old(Repr()))
      ensures View().(state := next) == StepQuoteCollect(limits, old(View()), ch)
      ensures ch == old(ch) && linenum == old(linenum)
    {
      if ch == '#' {
        error := true;
        CommitWord();
        return ParseErr;
      }
      if ch == '"' {
        CommitWord();
        return FindWordStart;
      }
      if ch == '\\' { return QcLiteral; }
      AppendChar();
      return QuoteCollect;
    }

    /** qc_literal() */
    method QcLiteralState() returns (next: State)
      requires Valid()
      modifies this, wordbuf, arglist
      ensures Valid() && fresh(Repr() - old(Repr()))
      ensures View().(state := next) == StepQcLiteral(limits, old(View()), ch)
      ensures ch == old(ch) && linenum == old(linenum)
    {
      if ch == '\n' { return QuoteCollect; }
      AppendChar();
      return QuoteCollect;
    }

    /** collect() */
    method CollectState() returns (next: State)
      requires Valid()
      modifies this, wordbuf, arglist
      ensures Valid() && fresh(Repr() - old(Repr()))
      ensures View().(state := next) == StepCollect(limits, old(View()), ch)
      ensures ch == old(ch) && linenum == old(linenum)
    {
      if ch == '#' {
        CommitWord();
        return FindEol;
      }
      if ch == '\n' {
        CommitWord();
        return EndOfLine;
      }
      if IsSpace(ch) {
        CommitWord();
        return FindWordStart;
      }
      if ch == '=' {
        CommitWord();
        var _ := FindWordStartState();
        return FindWordStart;
      }
      if ch == '\\' { return CollectLiteral; }
      AppendChar();
      return Collect;
    }

    /** collectliteral() */
    method CollectLiteralState() returns (next: State)
      requires Valid()
      modifies this, wordbuf, arglist
      ensures Valid() && fresh(Repr() - old(Repr()))
      ensures View().(state := next) == StepCollectLiteral(limits, old(View()), ch)
      ensures ch == old(ch) && linenum == old(linenum)
    {
      if ch == '\n' { return Collect; }
      AppendChar();
      return Collect;
    }

    /** parse_char() */
    method Parse()
      requires Valid()
      modifies this, wordbuf, arglist
      ensures Valid() && fresh(Repr() - old(Repr()))
      ensures View() == ParseChar(limits, old(View()), ch)
      ensures ch == old(ch) && linenum == old(linenum)
    {
      hide StepFindWordStart, StepQuoteCollect, StepQcLiteral, StepCollect, StepCollectLiteral;
      match state {
        case FindWordStart => state := FindWordStartState();
        case FindEol => state := if ch == '\n' then EndOfLine else FindEol;
        case QuoteCollect => state := QuoteCollectState();
        case QcLiteral => state := QcLiteralState();
        case Collect => state := CollectState();
        case CollectLiteral => state := CollectLiteralState();
        case EndOfLine =>
        case ParseErr =>
      }
    }

    /** Forgets the arguments of the previous line; their buffers stay for reuse. */
    method BeginLine()
      requires Valid()
      modifies this`numargs, this`state, this`args
      ensures Valid()
      ensures View() == old(View()).(state := FindWordStart, args := [])
    {
      numargs, state := 0, FindWordStart;
      args := [];
    }

    /** Stores the next character and parses it. */
    method Take(c: char)
      requires Valid()
      modifies this, wordbuf, arglist
      ensures Valid() && fresh(Repr() - old(Repr()))
      ensures View() == ParseChar(limits, old(View()), c)
      ensures linenum == old(linenum)
    {
      ch := c;
      assert View() == old(View());
      Parse();
    }

    /** pconf_char(): 1 for a finished line, -1 for a parse error, 0 for more input wanted. */
    method Char(c: char) returns (ret: int)
      requires Valid()
      modifies this, wordbuf, arglist
      ensures Valid() && fresh(Repr() - old(Repr()))
      ensures View() == PushChar(limits, old(View()), c)
      ensures ret == if state == EndOfLine then 1 else if state == ParseErr then -1 else 0
    {
      if state == EndOfLine || state == ParseErr {
        BeginLine();
      }
      Take(c);
      ret := if state == EndOfLine then 1 else if state == ParseErr then -1 else 0;
    }

    /** client_readline() of the server on the bytes of one read: every finished line is handed
        on with its words; a parse error drops the rest of the bytes. */
    method ReadBytes(s: string) returns (lines: seq<seq<string>>, ok: bool)
      requires Valid() && Tidy(limits, View())
      modifies this, wordbuf, arglist
      ensures Valid() && fresh(Repr() - old(Repr())) && Tidy(limits, View())
      ensures ok ==> Stream(limits, old(View()), s) == AsLines(lines) && View() == PushAll(limits, old(View()), s)
      ensures !ok ==> state == ParseErr
      ensures !ok ==> exists words, rest :: Stream(limits, old(View()), s) == AsLines(lines) + [Bad(words)] + rest
    {
      hide Tidy, ParseChar, PushChar, Stream, Emitted, Holds;
      lines, ok := [], true;
      var i := 0;
      assert s[0..] == s;
      while i < |s|
        invariant 0 <= i <= |s|
        invariant Valid() && fresh(Repr() - old(Repr())) && Tidy(limits, View())
        invariant Stream(limits, old(View()), s) == AsLines(lines) + Stream(limits, View(), s[i..])
        invariant PushAll(limits, old(View()), s) == PushAll(limits, View(), s[i..])
      {
        StreamStep(limits, View(), s, i);
        assert s[i..][1..] == s[i + 1..];
        var out := Receive(s[i]);
        i := i + 1;
        ghost var rest := Stream(limits, View(), s[i..]);
        assert Stream(limits, old(View()), s) == AsLines(lines) + out + rest;
        if out != [] {
          if out[0].Bad? {
            ok := false;
            assert out == [Bad(out[0].args)];
            return;
          }
          assert AsLines(lines) + out == AsLines(lines + [out[0].args]);
          lines := lines + [out[0].args];
        } else {
          assert AsLines(lines) + out == AsLines(lines);
        }
      }
      assert s[i..] == "";
      StreamOfNothing(limits, View());
      assert AsLines(lines) + [] == AsLines(lines);
    }

    /** pconf_char(), with the outcome the caller makes of its return code. */
    method Receive(c: char) returns (out: seq<Outcome>)
      requires Valid() && Tidy(limits, View())
      modifies this, wordbuf, arglist
      ensures Valid() && fresh(Repr() - old(Repr())) && Tidy(limits, View())
      ensures View() == PushChar(limits, old(View()), c)
      ensures out == Emitted(View()) && |out| <= 1 && (out != [] && out[0].Bad? ==> state == ParseErr)
    {
      ParseCharTidy(limits, Restart(View()), c);
      var ret := Char(c);
      if ret == 0 { return []; }
      var words := Words();
      out := if ret == 1 then [Outcome.Line(words)] else [Bad(words)];
    }

    /** The argument list, each word read out of its buffer. */
    method Words() returns (ws: seq<string>)
      requires Valid() && Tidy(limits, View())
      ensures ws == args
    {
      ws := [];
      var i := 0;
      while i < numargs
        invariant 0 <= i <= numargs
        invariant ws == args[..i]
      {
        assert WordOk(limits, View().args[i]);
        var w := Arg(i);
        ws := ws + [w];
        i := i + 1;
      }
    }

    /** The loop of pconf_line(): it stops early once the line or the parse is over. */
    method TakeLine(line: string)
      requires Valid() && !Finished(state)
      modifies this, wordbuf, arglist
      ensures Valid() && fresh(Repr() - old(Repr()))
      ensures View() == Feed(limits, old(View()), line)
      ensures linenum == old(linenum)
    {
      ghost var start := View();
      var i := 0;
      while i < |line|
        invariant 0 <= i <= |line|
        invariant Valid() && fresh(Repr() - old(Repr()))
        invariant linenum == old(linenum)
        invariant View() == Feed(limits, start, line[..i])
      {
        Take(line[i]);
        FeedSnoc(limits, start, line, i);
        i := i + 1;
        if Finished(state) {
          FeedStops(limits, start, line, i);
          return;
        }
      }
      assert line[..i] == line;
    }

    /** pconf_line() */
    method Line(line: string)
      requires Valid()
      modifies this, wordbuf, arglist
      ensures Valid() && fresh(Repr() - old(Repr()))
      ensures View() == ParseLine(limits, old(View()), line)
      ensures linenum == old(linenum) + 1
    {
      hide Feed, EndOfWord;
      linenum := linenum + 1;
      BeginLine();
      TakeLine(line);
      TieOff();
    }

    /** One answer of a server on the client's context: its words, which no earlier answer can
        have influenced. */
    method Answer(line: string) returns (ws: seq<string>)
      requires Valid() && Tidy(limits, View()) && View().word == ""
      modifies this, wordbuf, arglist
      ensures Valid() && fresh(Repr() - old(Repr())) && Tidy(limits, View()) && View().word == ""
      ensures ws == ParseLine(limits, FRESH, line).args
    {
      LineLeavesNothing(limits, View(), line);
      LineAlone(limits, View(), line);
      Line(line);
      ws := Words();
    }

    /** Commits the word that is still being built when the line runs out. */
    method TieOff()
      requires Valid()
      modifies this`arglist, this`argsize, this`numargs, this`maxargs, this`args, this`wordptr, arglist, wordbuf
      ensures Valid() && fresh(Repr() - old(Repr()))
      ensures View() == if !Finished(old(View()).state) && old(View()).word != "" then EndOfWord(limits, old(View())) else old(View())
    {
      hide EndOfWord;
      if !Finished(state) && wordptr != 0 {
        CommitWord();
      }
    }

    /** One argument as the caller reads it: the characters of its buffer up to the NUL. */
    method Arg(i: nat) returns (w: string)
      requires Valid() && i < numargs && AllPrintable(args[i])
      ensures w == args[i]
    {
      assert arglist[i][|args[i]|] == NUL;
      var n := StrLen(arglist[i]);
      w := arglist[i][..n];
      assert n == |args[i]| by {
        forall k | 0 <= k < |args[i]| ensures arglist[i][k] != NUL {
          assert Printable(args[i][k]);
          assert arglist[i][..|args[i]|][k] == args[i][k];
        }
      }
    }
  }

  const SIZE_MAX := 0xffff_ffff_ffff_ffff

  /** Subtraction of one on size_t. */
  function Decrement(n: nat): nat {
    if n == 0 then SIZE_MAX else n - 1
  }

  /** pconf_encode() */
  method PconfEncode(src: string, dest: array<char>)
    requires dest.Length <= SIZE_MAX
    modifies dest
    ensures dest[..] == EncodedBuffer(src, dest.Length)
  {
    var destsize := dest.Length;
    if destsize < 1 { return; }
    forall i | 0 <= i < destsize { dest[i] := NUL; }
    var maxlen := destsize - 1;
    var destlen := 0;
    var i := 0;
    while i < |src|
      invariant 0 <= i <= |src| && destlen <= maxlen
      invariant i > 0 ==> maxlen > 0
      invariant dest[..destlen] == Encode(src[..i])
      invariant forall k :: destlen <= k < destsize ==> dest[k] == NUL
    {
      EncodeSnoc(src, i);
      if NeedsEscape(src[i]) {
        if destlen >= Decrement(maxlen) {
          BufferFull(src, i, dest);
          return;
        }
        dest[destlen] := '\\';
        destlen := destlen + 1;
      }
      if destlen >= maxlen {
        if !NeedsEscape(src[i]) {
          BufferFull(src, i, dest);
        }
        return;
      }
      dest[destlen] := src[i];
      destlen := destlen + 1;
      i := i + 1;
    }
    assert src[..i] == src;
    BufferFull(src, i, dest);
  }

  /** The encoder may stop after the prefix when nothing is left or the next character does not fit. */
  lemma BufferFull(src: string, i: nat, dest: array<char>)
    requires i <= |src| && dest.Length >= 1
    requires !LosesTerminator(src, dest.Length)
    requires |Encode(src[..i])| <= dest.Length - 1
    requires i < |src| ==> |Encode(src[..i])| + |EncodeChar(src[i])| > dest.Length - 1
    requires dest[..|Encode(src[..i])|] == Encode(src[..i])
    requires forall k :: |Encode(src[..i])| <= k < dest.Length ==> dest[k] == NUL
    ensures dest[..] == EncodedBuffer(src, dest.Length)
  {
    hide Encode, EncodeChar, Fit;
    var maxlen := dest.Length - 1;
    FitIsLongest(src, maxlen, i);
    if i < |src| {
      EncodeSnoc(src, i);
      FitIsLongest(src, maxlen, i + 1);
    }
    assert Fit(src, maxlen) == i;
  }
}
