/** clients/upslog.c: the log format is compiled once into a list of calls, and the list is run for
    every line of the log. */
module Upslog {
  import opened CStrings
  import opened Options

  const BUFSIZE := 1024     // LARGEBUF

  datatype Func = Host | UpsHost | Pid | Time | Var | ETime

  /** print_literal() with its text, or a function of the table with its argument. */
  datatype Call = Literal(text: string) | Invoke(func: Func, arg: Option<string>)

  function NameOf(f: Func): string {
    match f
    case Host => "HOST"
    case UpsHost => "UPSHOST"
    case Pid => "PID"
    case Time => "TIME"
    case Var => "VAR"
    case ETime => "ETIME"
  }

  /** logcmds[] */
  const LogCmds: seq<Func> := [Host, UpsHost, Pid, Time, Var, ETime]

  /** strncasecmp() over the length of the name. */
  predicate Matches(cmd: string, f: Func) {
    |NameOf(f)| <= |cmd| && Fold(cmd[..|NameOf(f)|]) == Fold(NameOf(f))
  }

  /** The order of the table does not matter: no two names begin alike. */
  lemma OneMatch(cmd: string, f: Func, g: Func)
    requires Matches(cmd, f) && Matches(cmd, g)
    ensures f == g
  {
    var a, b := cmd[..|NameOf(f)|], cmd[..|NameOf(g)|];
    assert Fold(a)[0] == ToLower(cmd[0]) == Fold(b)[0];
  }

  ghost function Lookup(cmd: string): Option<Func> {
    if exists f :: Matches(cmd, f) then
      var f :| Matches(cmd, f); Some(f)
    else None
  }

  /** strchr(), with the length for "not found". */
  function Find(s: string, c: char): (k: nat)
    ensures k <= |s| && c !in s[..k] && (k < |s| ==> s[k] == c)
  {
    if s == "" || s[0] == c then 0
    else
      assert s[..1 + Find(s[1..], c)] == [s[0]] + s[1..][..Find(s[1..], c)];
      1 + Find(s[1..], c)
  }

  // ----- the format language -----

  /** A format is a sequence of plain characters, doubled percent signs, fields between percent
      signs, and perhaps one percent sign that nothing closes. */
  datatype Item = Plain(c: char) | Percent | Field(name: string, arg: Option<string>) | Stray

  function Raw(name: string, arg: Option<string>): string {
    match arg
    case None => name
    case Some(a) => name + " " + a
  }

  function Spelled(item: Item): string {
    match item
    case Plain(c) => [c]
    case Percent => "%%"
    case Field(name, arg) => "%" + Raw(name, arg) + "%"
    case Stray => "%"
  }

  function Unparse(items: seq<Item>): string {
    if items == [] then "" else Spelled(items[0]) + Unparse(items[1..])
  }

  /** Whether an item can stand before the rest of a format. */
  ghost predicate Fits(item: Item, rest: string) {
    match item
    case Plain(c) => c != '%'
    case Percent => true
    case Field(name, arg) => ' ' !in name && '%' !in Raw(name, arg) && Raw(name, arg) != ""
    case Stray => '%' !in rest
  }

  ghost predicate WellFormed(items: seq<Item>) {
    items == [] || (WellFormed(items[1..]) && Fits(items[0], Unparse(items[1..])))
  }

  function FieldOf(raw: string): Item {
    var j := Find(raw, ' ');
    if j == |raw| then Field(raw, None) else Field(raw[..j], Some(raw[j + 1..]))
  }

  lemma FieldRaw(raw: string)
    ensures var i := FieldOf(raw); i.Field? && ' ' !in i.name && Raw(i.name, i.arg) == raw
  {
    var j := Find(raw, ' ');
    if j < |raw| { assert raw == raw[..j] + [' '] + raw[j + 1..]; }
  }

  lemma FieldUnique(name: string, arg: Option<string>)
    requires ' ' !in name
    ensures FieldOf(Raw(name, arg)) == Field(name, arg)
  {
    var raw := Raw(name, arg);
    var j := Find(raw, ' ');
    FindIs(raw, ' ', |name|);
    if arg.Some? { assert raw[..j] == name && raw[j + 1..] == arg.value; }
  }

  lemma FindIs(s: string, c: char, k: nat)
    requires k <= |s| && (forall i :: 0 <= i < k ==> s[i] != c) && (k < |s| ==> s[k] == c)
    ensures Find(s, c) == k
  {}

  datatype Head = Head(item: Item, length: nat)

  /** What compile_format() takes a format to begin with, and the characters it moves on by. */
  function First(format: string): (h: Head)
    requires format != ""
    ensures 1 <= h.length <= |format|
  {
    if format[0] != '%' then Head(Plain(format[0]), 1)
    else if |format| > 1 && format[1] == '%' then Head(Percent, 2)
    else
      var k := Find(format[1..], '%');
      if k == |format| - 1 then Head(Stray, 1) else Head(FieldOf(format[1..1 + k]), k + 2)
  }

  /** The items of a format. */
  function Items(format: string): seq<Item> {
    if format == "" then [] else [First(format).item] + Items(format[First(format).length..])
  }

  lemma FirstFits(format: string)
    requires format != ""
    ensures var h := First(format); Spelled(h.item) == format[..h.length] && Fits(h.item, format[h.length..])
  {
    hide Find, FieldOf;
    if format[0] == '%' && !(|format| > 1 && format[1] == '%') {
      var tail := format[1..];
      var k := Find(tail, '%');
      if k == |tail| {
        assert tail[..k] == tail;
      } else {
        var raw := tail[..k];
        assert raw == format[1..1 + k] && raw != "";
        FieldRaw(raw);
        hide Raw;
        assert format[..k + 2] == "%" + raw + "%";
      }
    }
  }

  lemma FirstIs(item: Item, rest: string)
    requires Fits(item, rest)
    ensures Spelled(item) != "" && First(Spelled(item) + rest) == Head(item, |Spelled(item)|)
  {
    hide Find, FieldOf, Raw;
    var format := Spelled(item) + rest;
    match item
    case Plain(_) =>
    case Percent =>
    case Stray =>
      assert format[1..] == rest;
      FindIs(rest, '%', |rest|);
    case Field(name, arg) =>
      FieldFirst(Raw(name, arg), rest);
      FieldUnique(name, arg);
  }

  lemma FieldFirst(raw: string, rest: string)
    requires '%' !in raw && raw != ""
    ensures First("%" + raw + "%" + rest) == Head(FieldOf(raw), |raw| + 2)
  {
    hide Find, FieldOf;
    var format := "%" + raw + "%" + rest;
    var tail := format[1..];
    assert tail == raw + "%" + rest;
    FindIs(tail, '%', |raw|);
    assert format[1] == raw[0];
    assert format[1..1 + |raw|] == raw;
  }

  lemma HeadFirst(item: Item, items: seq<Item>)
    requires WellFormed(items) && Fits(item, Unparse(items))
    ensures WellFormed([item] + items) && Unparse([item] + items) == Spelled(item) + Unparse(items)
  {
    hide Fits, Spelled;
    assert ([item] + items)[1..] == items;
  }

  /** Every format can be read: no character is skipped. */
  lemma {:induction false} EveryFormatIsRead(format: string)
    ensures WellFormed(Items(format)) && Unparse(Items(format)) == format
    decreases |format|
  {
    if format != "" {
      hide First, Fits, Spelled, Find, FieldOf, WellFormed, Unparse;
      FirstFits(format);
      var h := First(format);
      var rest := format[h.length..];
      EveryFormatIsRead(rest);
      HeadFirst(h.item, Items(rest));
      assert Items(format) == [h.item] + Items(rest);
      SplitJoin(format, h.length);
    }
  }

  lemma SplitJoin(s: string, n: nat)
    requires n <= |s|
    ensures s[..n] + s[n..] == s
  {}

  /** And in one way only. */
  lemma {:induction false} ReadingIsUnique(items: seq<Item>)
    requires WellFormed(items)
    ensures Items(Unparse(items)) == items
    decreases |items|
  {
    if items != [] {
      var item, rest := items[0], Unparse(items[1..]);
      FirstIs(item, rest);
      hide First, Fits, Spelled;
      ReadingIsUnique(items[1..]);
      assert (Spelled(item) + rest)[|Spelled(item)|..] == rest;
      assert items == [item] + items[1..];
    }
  }

  // ----- what a format prints -----

  /** What a run finds in the world: names and numbers as printed, strftime(), and what upsd answers
      for a variable. */
  datatype World = World(host: string, upshost: string, pid: string, now: string,
                         strftime: string -> string, upsname: bool, get: string -> Option<string>)

  /** The at signs of the command line stand for percent signs. */
  ghost predicate IsUnmasked(arg: string, format: string) {
    |format| == |arg| && forall i :: 0 <= i < |arg| ==> format[i] == if arg[i] == '@' then '%' else arg[i]
  }

  function Unmasked(arg: string): (format: string)
    ensures IsUnmasked(arg, format)
  {
    seq(|arg|, i requires 0 <= i < |arg| => if arg[i] == '@' then '%' else arg[i])
  }

  /** What a field prints; None where the program would copy a string that is not there. */
  function FieldText(f: Func, arg: Option<string>, w: World): Option<string> {
    match f
    case Host => Some(w.host)
    case UpsHost => Some(w.upshost)
    case Pid => Some(w.pid)
    case ETime => Some(w.now)
    case Time => if arg == None then None else Some(w.strftime(Unmasked(arg.value)))
    case Var =>
      if arg == None || '.' !in arg.value || !w.upsname then Some("INVALID")
      else if w.get(arg.value) == None then Some("NA")
      else w.get(arg.value)
  }

  ghost function ItemText(item: Item, w: World): Option<string> {
    match item
    case Plain(c) => Some([c])
    case Percent => Some("%")
    case Stray => Some("INVALID")
    case Field(name, arg) => if Lookup(name) == None then Some("INVALID") else FieldText(Lookup(name).value, arg, w)
  }

  ghost function Text(items: seq<Item>, w: World): Option<string> {
    if items == [] then Some("")
    else match (ItemText(items[0], w), Text(items[1..], w))
         case (Some(a), Some(b)) => Some(a + b)
         case _ => None
  }

  /** snprintfcat() leaves room for one character less than the buffer could take. */
  function Kept(s: string): (r: string)
    ensures r <= s && |r| <= BUFSIZE - 2 && (r == s <==> |s| <= BUFSIZE - 2)
  {
    Cut(s, BUFSIZE - 1)
  }

  /** The line that a format stands for. */
  ghost function Line(format: string, w: World): Option<string> {
    match Text(Items(format), w)
    case None => None
    case Some(t) => Some(Kept(t))
  }

  /** A TIME field without an argument, in any case and with anything after its name. */
  ghost predicate Timeless(item: Item) {
    item.Field? && item.arg == None && Matches(item.name, Time)
  }

  ghost predicate HasTimeless(format: string) {
    exists i :: 0 <= i < |Items(format)| && Timeless(Items(format)[i])
  }

  lemma LookupIs(cmd: string, f: Func)
    ensures Lookup(cmd) == Some(f) <==> Matches(cmd, f)
  {
    if Matches(cmd, f) { OneMatch(cmd, Lookup(cmd).value, f); }
  }

  lemma ItemTextless(item: Item, w: World)
    ensures ItemText(item, w) == None <==> Timeless(item)
  {
    if item.Field? {
      LookupIs(item.name, Time);
      hide Lookup, Matches;
    }
  }

  lemma {:induction false} TextlessIff(items: seq<Item>, w: World)
    ensures Text(items, w) == None <==> exists i :: 0 <= i < |items| && Timeless(items[i])
  {
    if items != [] {
      var rest := items[1..];
      ItemTextless(items[0], w);
      TextlessIff(rest, w);
      hide ItemText, Timeless;
      if Text(rest, w) == None {
        var i :| 0 <= i < |rest| && Timeless(rest[i]);
        assert Timeless(items[i + 1]);
      }
      forall i | 0 < i < |items| && Timeless(items[i]) ensures Text(rest, w) == None {
        assert Timeless(rest[i - 1]);
      }
    }
  }

  /** A format cannot be logged, in whatever world, if and only if it has a TIME field without an
      argument. */
  lemma NoLineIff(format: string, w: World)
    ensures Line(format, w) == None <==> HasTimeless(format)
  {
    TextlessIff(Items(format), w);
  }

  /** The shortest such format. */
  lemma TimeWithoutFormat(w: World)
    ensures HasTimeless("%TIME%") && Line("%TIME%", w) == None
  {
    var item := Field("TIME", None);
    OneTimeField();
    hide First, Find, FieldOf;
    assert "%TIME%"[6..] == "";
    assert Items("%TIME%") == [item];
    assert Timeless(item) by { assert "TIME"[..4] == "TIME"; }
    hide Timeless, Items;
    assert Timeless(Items("%TIME%")[0]);
    NoLineIff("%TIME%", w);
  }

  lemma OneTimeField()
    ensures First("%TIME%") == Head(Field("TIME", None), 6)
  {
    FieldFirst("TIME", "");
    FindIs("TIME", ' ', 4);
    hide Find;
    assert "%" + "TIME" + "%" + "" == "%TIME%";
  }

  // ----- what single fields print -----

  lemma OneItem(item: Item, w: World)
    requires Fits(item, "")
    ensures Line(Spelled(item), w) == match ItemText(item, w) case None => None case Some(t) => Some(Kept(t))
  {
    FirstIs(item, "");
    hide Fits, First, ItemText;
    assert Spelled(item) + "" == Spelled(item) && Spelled(item)[|Spelled(item)|..] == "";
    assert Items(Spelled(item)) == [item];
    assert [item][1..] == [] && Text([], w) == Some("");
    if ItemText(item, w).Some? { assert ItemText(item, w).value + "" == ItemText(item, w).value; }
  }

  /** Each command, in any case and with anything after its name, prints what it stands for. */
  lemma FieldPrints(cmd: string, arg: Option<string>, f: Func, w: World)
    requires Fits(Field(cmd, arg), "") && Matches(cmd, f)
    ensures var line := Line("%" + Raw(cmd, arg) + "%", w);
            && (f == Host ==> line == Some(Kept(w.host)))
            && (f == UpsHost ==> line == Some(Kept(w.upshost)))
            && (f == Pid ==> line == Some(Kept(w.pid)))
            && (f == ETime ==> line == Some(Kept(w.now)))
            && (f == Time && arg.Some? ==>
                  exists format :: IsUnmasked(arg.value, format) && line == Some(Kept(w.strftime(format))))
            && (f == Var ==> line == Some(Kept(
                  if arg == None || '.' !in arg.value || !w.upsname then "INVALID"
                  else match w.get(arg.value) case None => "NA" case Some(v) => v)))
  {
    LookupIs(cmd, f);
    OneItem(Field(cmd, arg), w);
    hide Lookup, Matches, Fits, Line;
    if f == Time && arg.Some? { assert IsUnmasked(arg.value, Unmasked(arg.value)); }
  }

  /** The names of the commands. */
  lemma CommandNames()
    ensures Matches("HOST", Host) && Matches("UPSHOST", UpsHost) && Matches("PID", Pid)
    ensures Matches("TIME", Time) && Matches("VAR", Var) && Matches("ETIME", ETime)
  {
    assert "HOST"[..4] == "HOST" && "UPSHOST"[..7] == "UPSHOST" && "PID"[..3] == "PID";
    assert "TIME"[..4] == "TIME" && "VAR"[..3] == "VAR" && "ETIME"[..5] == "ETIME";
  }

  /** A command that is none of these prints INVALID. */
  lemma UnknownPrints(cmd: string, arg: Option<string>, w: World)
    requires Fits(Field(cmd, arg), "") && forall f :: !Matches(cmd, f)
    ensures Line("%" + Raw(cmd, arg) + "%", w) == Some("INVALID")
  {
    OneItem(Field(cmd, arg), w);
    hide Fits, Line;
  }

  lemma {:induction false} PlainText(s: string, w: World)
    requires '%' !in s
    ensures Text(Items(s), w) == Some(s)
    decreases |s|
  {
    if s != "" {
      var rest := s[1..];
      PlainText(rest, w);
      assert Items(s) == [Plain(s[0])] + Items(rest);
      assert Items(s)[1..] == Items(rest);
      assert s == [s[0]] + rest;
    }
  }

  /** A percent sign that nothing closes prints INVALID, and the text after it as it is. */
  lemma UnclosedPrints(s: string, w: World)
    requires '%' !in s
    ensures Line("%" + s, w) == Some(Kept("INVALID" + s))
  {
    FirstIs(Stray, s);
    PlainText(s, w);
    hide First;
    assert ("%" + s)[1..] == s;
    assert Items("%" + s) == [Stray] + Items(s);
    assert ([Stray] + Items(s))[1..] == Items(s);
  }

  // ----- the program -----

  ghost function CallOf(item: Item): Call {
    match item
    case Plain(c) => Literal([c])
    case Percent => Literal("%")
    case Stray => Literal("INVALID")
    case Field(name, arg) => if Lookup(name) == None then Literal("INVALID") else Invoke(Lookup(name).value, arg)
  }

  ghost function Calls(items: seq<Item>): seq<Call> {
    if items == [] then [] else [CallOf(items[0])] + Calls(items[1..])
  }

  /** The search through logcmds[]. */
  method FindCommand(cmd: string) returns (r: Option<Func>)
    ensures r == Lookup(cmd)
  {
    for j := 0 to |LogCmds|
      invariant forall k :: 0 <= k < j ==> !Matches(cmd, LogCmds[k])
    {
      if Matches(cmd, LogCmds[j]) {
        forall f | Matches(cmd, f) ensures f == LogCmds[j] { OneMatch(cmd, f, LogCmds[j]); }
        return Some(LogCmds[j]);
      }
    }
    forall f ensures !Matches(cmd, f) { assert exists k :: 0 <= k < |LogCmds| && LogCmds[k] == f by { Listed(f); } }
    r := None;
  }

  lemma Listed(f: Func)
    ensures exists k :: 0 <= k < |LogCmds| && LogCmds[k] == f
  {
    var k := match f case Host => 0 case UpsHost => 1 case Pid => 2 case Time => 3 case Var => 4 case ETime => 5;
    assert LogCmds[k] == f;
  }

  /** do_time()'s copy of its argument. */
  method Unmask(arg: string) returns (format: string)
    ensures format == Unmasked(arg)
  {
    format := arg;
    for i := 0 to |arg|
      invariant |format| == |arg|
      invariant forall k :: 0 <= k < i ==> format[k] == Unmasked(arg)[k]
      invariant forall k :: i <= k < |arg| ==> format[k] == arg[k]
    {
      if format[i] == '@' { format := format[i := '%']; }
    }
  }

  class Logger {
    var calls: seq<Call>       // fhead
    var logbuffer: string

    constructor ()
      ensures calls == [] && logbuffer == ""
    {
      calls, logbuffer := [], "";
    }

    /** add_call() */
    method AddCall(c: Call)
      modifies this`calls
      ensures calls == old(calls) + [c]
    {
      calls := calls + [c];
    }

    /** One turn of the loop in compile_format(): where the next turn goes on. */
    method CompileOne(format: string, i: nat) returns (next: nat)
      requires i < |format|
      modifies this`calls
      ensures var h := First(format[i..]); next == i + h.length && calls == old(calls) + [CallOf(h.item)]
    {
      ghost var todo := format[i..];
      if format[i] != '%' {
        AddCall(Literal([format[i]]));
        return i + 1;
      }
      if i + 1 < |format| && format[i + 1] == '%' {
        AddCall(Literal("%"));
        return i + 2;
      }
      var cmd := format[i + 1..];
      assert cmd == todo[1..];
      var ptr := Find(cmd, '%');
      if ptr == |cmd| {
        AddCall(Literal("INVALID"));
        return i + 1;
      }
      cmd := cmd[..ptr];
      assert cmd == todo[1..1 + ptr];
      var arg := None;
      var space := Find(cmd, ' ');
      if space < |cmd| { cmd, arg := cmd[..space], Some(cmd[space + 1..]); }
      assert First(todo).item == Field(cmd, arg);
      var found := FindCommand(cmd);
      match found {
        case Some(f) => AddCall(Invoke(f, arg));
        case None => AddCall(Literal("INVALID"));
      }
      next := i + ptr + 2;
    }

    /** compile_format() */
    method CompileFormat(format: string)
      modifies this`calls
      ensures calls == old(calls) + Calls(Items(format))
    {
      hide First, CallOf;
      var i := 0;
      assert format[0..] == format;
      while i < |format|
        invariant i <= |format|
        invariant calls + Calls(Items(format[i..])) == old(calls) + Calls(Items(format))
      {
        ghost var todo, was := format[i..], calls;
        ghost var h := First(todo);
        i := CompileOne(format, i);
        assert todo[h.length..] == format[i..];
        Taken(was, h.item, format[i..]);
      }
    }

    /** snprintfcat() to logbuffer. */
    method Print(text: string)
      requires |logbuffer| <= BUFSIZE - 2
      modifies this`logbuffer
      ensures logbuffer == Kept(old(logbuffer) + text)
    {
      var room := BUFSIZE - 1 - |logbuffer|;
      logbuffer := logbuffer + Cut(text, room);
    }

    /** One function of the table; false where it would fail on a missing argument. */
    method Do(f: Func, arg: Option<string>, w: World) returns (ok: bool)
      requires |logbuffer| <= BUFSIZE - 2
      modifies this`logbuffer
      ensures ok <==> FieldText(f, arg, w).Some?
      ensures ok ==> logbuffer == Kept(old(logbuffer) + FieldText(f, arg, w).value)
    {
      ok := true;
      match f {
        case Host => Print(w.host);
        case UpsHost => Print(w.upshost);
        case Pid => Print(w.pid);
        case ETime => Print(w.now);
        case Time =>
          if arg == None { return false; }
          var format := Unmask(arg.value);
          Print(w.strftime(format));
        case Var =>
          if arg == None || |arg.value| < 1 { Print("INVALID"); return; }
          if '.' !in arg.value { Print("INVALID"); return; }
          if !w.upsname { Print("INVALID"); return; }
          var answer := w.get(arg.value);
          if answer == None { Print("NA"); return; }
          Print(answer.value);
      }
    }

    /** run_flist(): the line it writes. */
    method RunFlist(w: World) returns (line: Option<string>)
      modifies this`logbuffer
      ensures line == CallsLine(calls, w)
    {
      logbuffer := "";
      assert calls[0..] == calls;
      for i := 0 to |calls|
        invariant |logbuffer| <= BUFSIZE - 2
        invariant CallsLine(calls, w) == Continue(logbuffer, calls[i..], w)
      {
        ghost var was := logbuffer;
        assert calls[i..][1..] == calls[i + 1..];
        match calls[i] {
          case Literal(text) => Print(text);
          case Invoke(f, arg) =>
            var ok := Do(f, arg, w);
            if !ok { return None; }
        }
        ContinueStep(was, calls[i..], w);
      }
      assert calls[|calls|..] == [] && logbuffer + "" == logbuffer;
      line := Some(logbuffer);
    }

    /** The main loop: the format is compiled once, and a line is written for each state of the
        world; none is written if the format has a TIME field without an argument. */
    method Log(format: string, worlds: seq<World>) returns (lines: seq<string>)
      requires calls == []
      modifies this
      ensures |lines| == if HasTimeless(format) then 0 else |worlds|
      ensures forall i :: 0 <= i < |lines| ==> Line(format, worlds[i]) == Some(lines[i])
    {
      lines := [];
      CompileFormat(format);
      for i := 0 to |worlds|
        invariant calls == Calls(Items(format)) && |lines| == i && (i > 0 ==> !HasTimeless(format))
        invariant forall k :: 0 <= k < i ==> Line(format, worlds[k]) == Some(lines[k])
      {
        var line := RunFlist(worlds[i]);
        CompiledIsInterpreted(format, worlds[i]);
        NoLineIff(format, worlds[i]);
        if line == None { return; }
        lines := lines + [line.value];
      }
    }
  }

  lemma Taken(done: seq<Call>, item: Item, rest: string)
    ensures done + Calls([item] + Items(rest)) == done + [CallOf(item)] + Calls(Items(rest))
  {
    assert ([item] + Items(rest))[1..] == Items(rest);
  }

  // ----- compiled and direct -----

  ghost function CallText(c: Call, w: World): Option<string> {
    match c
    case Literal(text) => Some(text)
    case Invoke(f, arg) => FieldText(f, arg, w)
  }

  ghost function CallsText(calls: seq<Call>, w: World): Option<string> {
    if calls == [] then Some("")
    else match (CallText(calls[0], w), CallsText(calls[1..], w))
         case (Some(a), Some(b)) => Some(a + b)
         case _ => None
  }

  ghost function Continue(buffer: string, calls: seq<Call>, w: World): Option<string> {
    match CallsText(calls, w)
    case None => None
    case Some(t) => Some(Kept(buffer + t))
  }

  ghost function CallsLine(calls: seq<Call>, w: World): Option<string> {
    Continue("", calls, w)
  }

  /** Cutting at each call or once at the end is the same. */
  lemma ContinueStep(buffer: string, calls: seq<Call>, w: World)
    requires calls != [] && CallText(calls[0], w).Some?
    ensures Continue(buffer, calls, w) == Continue(Kept(buffer + CallText(calls[0], w).value), calls[1..], w)
  {
    var a := CallText(calls[0], w).value;
    if CallsText(calls[1..], w).Some? {
      var b := CallsText(calls[1..], w).value;
      assert buffer + (a + b) == (buffer + a) + b;
      KeptTwice(buffer + a, b);
    }
  }

  lemma KeptTwice(a: string, b: string)
    ensures Kept(Kept(a) + b) == Kept(a + b)
  {}

  lemma {:induction false} SameText(items: seq<Item>, w: World)
    ensures CallsText(Calls(items), w) == Text(items, w)
  {
    if items != [] {
      assert Calls(items)[1..] == Calls(items[1..]);
      SameText(items[1..], w);
    }
  }

  /** Running the compiled list writes the line that the format stands for. */
  lemma CompiledIsInterpreted(format: string, w: World)
    ensures CallsLine(Calls(Items(format)), w) == Line(format, w)
  {
    SameText(Items(format), w);
    if Text(Items(format), w).Some? { assert "" + Text(Items(format), w).value == Text(Items(format), w).value; }
  }

  // ----- doubling -----

  function Doubled(text: string): string {
    if text == "" then "" else (if text[0] == '%' then "%%" else [text[0]]) + Doubled(text[1..])
  }

  lemma {:induction false} DoubledText(text: string, w: World)
    ensures Text(Items(Doubled(text)), w) == Some(text)
    decreases |text|
  {
    if text != "" {
      var rest := Doubled(text[1..]);
      var item := if text[0] == '%' then Percent else Plain(text[0]);
      DoubledText(text[1..], w);
      FirstIs(item, rest);
      assert Doubled(text)[|Spelled(item)|..] == rest;
      assert ([item] + Items(rest))[1..] == Items(rest);
      assert text == [text[0]] + text[1..];
    }
  }

  /** With its percent signs doubled, any text is logged as itself, up to the size of the buffer. */
  lemma DoubledPrintsItself(text: string, w: World)
    ensures Line(Doubled(text), w) == Some(Kept(text))
  {
    DoubledText(text, w);
  }
}
