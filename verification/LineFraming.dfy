/** Incremental line framing of a Stratum connection. */
module LineFraming {
  import opened Basics

  // ---- Text ------------------------------------------------------------------------------------------------

  /** The bytes of a read without the zero bytes. */
  function Strip(bytes: seq<byte>): (r: seq<byte>)
  {
    if bytes == [] then [] else (if bytes[0] == 0 then [] else [bytes[0]]) + Strip(bytes[1..])
  }

  /** The characters with the Unicode property White_Space, which `trim` removes. */
  predicate White(c: char)
  {
    var n := c as int;
    9 <= n <= 13 || n == 0x20 || n == 0x85 || n == 0xA0 || n == 0x1680 || 0x2000 <= n <= 0x200A ||
    n == 0x2028 || n == 0x2029 || n == 0x202F || n == 0x205F || n == 0x3000
  }

  /** How many characters at the front are white. */
  function Skip(s: string): (n: nat)
    ensures n <= |s|
  {
    if s == [] || !White(s[0]) then 0 else 1 + Skip(s[1..])
  }

  /** The length without the white characters at the end. */
  function Keep(s: string): (n: nat)
    ensures n <= |s|
  {
    if s == [] || !White(s[|s| - 1]) then |s| else Keep(s[..|s| - 1])
  }

  lemma {:induction false} SkipSpec(s: string)
    ensures forall i :: 0 <= i < Skip(s) ==> White(s[i])
    ensures Skip(s) < |s| ==> !White(s[Skip(s)])
  {
    if s != [] && White(s[0]) {
      SkipSpec(s[1..]);
      assert forall i :: 1 <= i < |s| ==> s[1..][i - 1] == s[i];
    }
  }

  lemma {:induction false} KeepSpec(s: string)
    ensures forall i :: Keep(s) <= i < |s| ==> White(s[i])
    ensures Keep(s) > 0 ==> !White(s[Keep(s) - 1])
  {
    if s != [] && White(s[|s| - 1]) {
      KeepSpec(s[..|s| - 1]);
    }
  }

  function Trim(s: string): (r: string)
  {
    if Skip(s) <= Keep(s) then s[Skip(s)..Keep(s)] else []
  }

  predicate AllWhite(s: string)
  {
    forall i :: 0 <= i < |s| ==> White(s[i])
  }

  predicate NotWhiteAtEnds(s: string)
  {
    s != [] ==> !White(s[0]) && !White(s[|s| - 1])
  }

  lemma {:induction false} SkipOnly(a: string, rest: string)
    requires AllWhite(a) && (rest != [] ==> !White(rest[0]))
    ensures Skip(a + rest) == |a|
  {
    if a == [] {
      assert a + rest == rest;
    } else {
      assert (a + rest)[1..] == a[1..] + rest;
      SkipOnly(a[1..], rest);
    }
  }

  lemma {:induction false} KeepOnly(rest: string, b: string)
    requires AllWhite(b) && (rest != [] ==> !White(rest[|rest| - 1]))
    ensures Keep(rest + b) == |rest|
  {
    if b == [] {
      assert rest + b == rest;
    } else {
      assert (rest + b)[..|rest + b| - 1] == rest + b[..|b| - 1];
      KeepOnly(rest, b[..|b| - 1]);
    }
  }

  lemma ThreeParts(s: string, i: nat, j: nat)
    requires i <= j <= |s|
    ensures s == s[..i] + s[i..j] + s[j..]
  {
  }

  lemma Regroup(a: string, x: string, t: string, y: string, b: string)
    ensures a + (x + t + y) + b == (a + x) + t + (y + b)
  {
  }

  lemma WhiteBoth(a: string, b: string)
    requires AllWhite(a) && AllWhite(b)
    ensures AllWhite(a + b)
  {
  }

  /** Trimming takes white characters off both ends and nothing else, until none is left there. */
  lemma TrimSpec(s: string) returns (a: string, b: string)
    ensures s == a + Trim(s) + b && AllWhite(a) && AllWhite(b) && NotWhiteAtEnds(Trim(s))
    ensures Trim(s) == [] <==> AllWhite(s)
  {
    SkipSpec(s);
    KeepSpec(s);
    if Skip(s) <= Keep(s) {
      a, b := s[..Skip(s)], s[Keep(s)..];
      ThreeParts(s, Skip(s), Keep(s));
    } else {
      a, b := s, [];
    }
  }

  /** That determines it. */
  lemma TrimUnique(s: string, a: string, t: string, b: string)
    requires s == a + t + b && AllWhite(a) && AllWhite(b) && NotWhiteAtEnds(t)
    ensures Trim(s) == t
  {
    if t == [] {
      assert AllWhite(s);
      var c, d := TrimSpec(s);
    } else {
      assert s == a + (t + b) && (t + b)[0] == t[0] && (a + t)[|a + t| - 1] == t[|t| - 1];
      SkipOnly(a, t + b);
      KeepOnly(a + t, b);
      assert s[|a|..|a| + |t|] == t;
    }
  }

  /** White space at either end does not matter; so lines may end in carriage return and newline. */
  lemma TrimIgnores(a: string, s: string, b: string)
    requires AllWhite(a) && AllWhite(b)
    ensures Trim(a + s + b) == Trim(s)
  {
    var x, y := TrimSpec(s);
    WhiteBoth(a, x);
    WhiteBoth(y, b);
    Regroup(a, x, Trim(s), y, b);
    TrimUnique(a + s + b, a + x, Trim(s), y + b);
  }

  lemma WhiteAscii(c: char)
    requires c as int < 128
    ensures White(c) <==> c == ' ' || c == '\t' || c == '\n' || c == '\r' || c as int == 11 || c as int == 12
  {
  }

  /** The raw newline-terminated lines of a text, and its unterminated remainder. */
  function Cut(text: string): (r: (seq<string>, string))
  {
    if text == [] then ([], [])
    else
      var n := |text| - 1;
      var (lines, rest) := Cut(text[..n]);
      if text[n] == '\n' then (lines + [rest], []) else (lines, rest + [text[n]])
  }

  function Join(lines: seq<string>): (text: string)
  {
    if lines == [] then [] else Join(lines[..|lines| - 1]) + lines[|lines| - 1] + ['\n']
  }

  lemma JoinAppend(lines: seq<string>, line: string)
    ensures Join(lines + [line]) == Join(lines) + line + ['\n']
  {
    assert (lines + [line])[..|lines|] == lines;
  }

  /** Lines and remainder give the text back. */
  lemma {:induction false} CutJoins(text: string)
    ensures Join(Cut(text).0) + Cut(text).1 == text
  {
    if text != [] {
      var n := |text| - 1;
      CutJoins(text[..n]);
      assert text == text[..n] + [text[n]];
      var (lines, rest) := Cut(text[..n]);
      JoinAppend(lines, rest);
      assert Join(lines) + (rest + [text[n]]) == Join(lines) + rest + [text[n]];
    }
  }

  /** Neither a line nor the remainder holds a newline. */
  lemma {:induction false} CutClean(text: string)
    ensures '\n' !in Cut(text).1 && forall i :: 0 <= i < |Cut(text).0| ==> '\n' !in Cut(text).0[i]
  {
    if text != [] {
      CutClean(text[..|text| - 1]);
    }
  }

  /** Text that arrives later continues the remainder of what came before. */
  lemma {:induction false} CutAppend(a: string, b: string)
    ensures var (la, ra) := Cut(a); var (lb, rb) := Cut(ra + b); Cut(a + b) == (la + lb, rb)
  {
    var (la, ra) := Cut(a);
    if b == [] {
      assert a + b == a && ra + b == ra;
      CutClean(a);
      CutNoNewline(ra);
      assert la + [] == la;
    } else {
      var n := |b| - 1;
      CutAppend(a, b[..n]);
      assert (a + b)[..|a + b| - 1] == a + b[..n] && (ra + b)[..|ra + b| - 1] == ra + b[..n];
      var (lb, rb) := Cut(ra + b[..n]);
      if b[n] == '\n' {
        assert la + (lb + [rb]) == la + lb + [rb];
      }
    }
  }

  lemma {:induction false} CutNoNewline(s: string)
    requires '\n' !in s
    ensures Cut(s) == ([], s)
  {
    if s != [] {
      var n := |s| - 1;
      CutNoNewline(s[..n]);
      assert s == s[..n] + [s[n]];
    }
  }

  /** An empty line is no message. */
  function Plus(messages: seq<string>, line: string): (r: seq<string>)
  {
    if line == [] then messages else messages + [line]
  }

  /** The trimmed lines that are not empty. */
  function Messages(lines: seq<string>): (r: seq<string>)
  {
    if lines == [] then []
    else
      var n := |lines| - 1;
      Plus(Messages(lines[..n]), Trim(lines[n]))
  }

  lemma {:induction false} MessagesAppend(a: seq<string>, b: seq<string>)
    ensures Messages(a + b) == Messages(a) + Messages(b)
  {
    if b == [] {
      assert a + b == a;
    } else {
      var n := |b| - 1;
      assert (a + b)[..|a + b| - 1] == a + b[..n];
      MessagesAppend(a, b[..n]);
    }
  }

  // ---- Rejection -------------------------------------------------------------------------------------------

  const HTTP_STARTS: seq<string> :=
    ["PRI * HTTP/2.0", "PRI * HTTP/2", "GET ", "POST ", "PUT ", "DELETE ", "HEAD ", "OPTIONS "]

  predicate StartsWithAny(line: string, starts: seq<string>)
  {
    starts != [] && (starts[0] <= line || StartsWithAny(line, starts[1..]))
  }

  /** A line of HTTP. */
  predicate Mismatch(line: string)
  {
    line == "SM" || StartsWithAny(line, HTTP_STARTS)
  }

  /** The refused lines, spelled out. */
  lemma RefusedLines(line: string)
    ensures Mismatch(line) <==>
              || line == "SM" || "PRI * HTTP/2" <= line || "GET " <= line || "POST " <= line || "PUT " <= line
              || "DELETE " <= line || "HEAD " <= line || "OPTIONS " <= line
  {
    StartsSome(line, HTTP_STARTS);
    assert HTTP_STARTS[1] == "PRI * HTTP/2" && HTTP_STARTS[2] == "GET " && HTTP_STARTS[3] == "POST ";
    assert HTTP_STARTS[4] == "PUT " && HTTP_STARTS[5] == "DELETE " && HTTP_STARTS[6] == "HEAD ";
    assert HTTP_STARTS[7] == "OPTIONS ";
    assert HTTP_STARTS[0] == "PRI * HTTP/2" + ".0";
  }

  lemma {:induction false} StartsSome(line: string, starts: seq<string>)
    ensures StartsWithAny(line, starts) <==> exists i :: 0 <= i < |starts| && starts[i] <= line
  {
    if starts != [] {
      StartsSome(line, starts[1..]);
      assert forall i :: 1 <= i < |starts| ==> starts[i] == starts[1..][i - 1];
    }
  }

  /** The rule of the bridge. The framing below holds for any rule `reject`. */
  const HTTP: string -> bool := (line: string) => Mismatch(line)

  predicate AnyRejected(reject: string -> bool, messages: seq<string>)
  {
    exists i :: 0 <= i < |messages| && reject(messages[i])
  }

  /** The messages before the first line of HTTP. */
  function Accepted(reject: string -> bool, messages: seq<string>): (r: seq<string>)
  {
    if messages == [] || reject(messages[0]) then [] else [messages[0]] + Accepted(reject, messages[1..])
  }

  lemma RejectedAppend(reject: string -> bool, a: seq<string>, b: seq<string>)
    ensures AnyRejected(reject, a + b) <==> AnyRejected(reject, a) || AnyRejected(reject, b)
  {
    if AnyRejected(reject, a) {
      var i :| 0 <= i < |a| && reject(a[i]);
      assert (a + b)[i] == a[i];
    } else if AnyRejected(reject, b) {
      var i :| 0 <= i < |b| && reject(b[i]);
      assert (a + b)[|a| + i] == b[i];
    }
  }

  lemma RejectedHead(reject: string -> bool, a: seq<string>)
    requires a != []
    ensures AnyRejected(reject, a) <==> reject(a[0]) || AnyRejected(reject, a[1..])
  {
    assert a == [a[0]] + a[1..];
    RejectedAppend(reject, [a[0]], a[1..]);
  }

  lemma {:induction false} AcceptedAppend(reject: string -> bool, a: seq<string>, b: seq<string>)
    ensures Accepted(reject, a + b) == if AnyRejected(reject, a) then Accepted(reject, a) else a + Accepted(reject, b)
  {
    if a == [] {
      assert a + b == b;
    } else {
      assert (a + b)[1..] == a[1..] + b && (a + b)[0] == a[0];
      RejectedHead(reject, a);
      AcceptedAppend(reject, a[1..], b);
      assert [a[0]] + (a[1..] + Accepted(reject, b)) == a + Accepted(reject, b);
    }
  }

  /** Without a line of HTTP everything is accepted. */
  lemma AcceptedAll(reject: string -> bool, a: seq<string>)
    requires !AnyRejected(reject, a)
    ensures Accepted(reject, a) == a
  {
    AcceptedAppend(reject, a, []);
    assert a + [] == a;
  }

  // ---- The listener ----------------------------------------------------------------------------------------

  function FirstLine(text: string): (r: string)
  {
    if text == [] || text[0] == '\n' then [] else [text[0]] + FirstLine(text[1..])
  }

  /** What a connection has done so far. */
  datatype Listening = Listening(first: bool, open: bool, buffer: string, handed: seq<string>)

  /** A read of decoded text, as the framing of the whole buffer. */
  function Heard(reject: string -> bool, s: Listening, data: string): (r: Listening)
  {
    if !s.open then s
    else if s.first && reject(Trim(FirstLine(data))) then s.(open := false)
    else
      var (lines, rest) := Cut(s.buffer + data);
      var messages := Messages(lines);
      Listening(false, !AnyRejected(reject, messages), rest, s.handed + Accepted(reject, messages))
  }

  lemma {:induction false} FirstLineIsPrefix(text: string)
    ensures |FirstLine(text)| <= |text| && FirstLine(text) == text[..|FirstLine(text)|] && '\n' !in FirstLine(text)
    ensures |FirstLine(text)| < |text| ==> text[|FirstLine(text)|] == '\n'
    ensures |FirstLine(text)| < |text| <==> '\n' in text
  {
    if text != [] && text[0] != '\n' {
      FirstLineIsPrefix(text[1..]);
      assert text == [text[0]] + text[1..];
    }
  }

  lemma CutLine(line: string)
    requires '\n' !in line
    ensures Cut(line + ['\n']) == ([line], [])
  {
    assert (line + ['\n'])[..|line|] == line;
    CutNoNewline(line);
    assert [] + [line] == [line];
  }

  lemma CutSnoc(text: string, lines: seq<string>, line: string)
    requires Cut(text) == (lines, []) && '\n' !in line
    ensures Cut(text + line + ['\n']) == (lines + [line], [])
  {
    CutLine(line);
    CutAppend(text, line + ['\n']);
    assert [] + (line + ['\n']) == line + ['\n'];
    assert text + (line + ['\n']) == text + line + ['\n'];
  }

  lemma {:induction false} CutOfJoin(lines: seq<string>)
    requires forall i :: 0 <= i < |lines| ==> '\n' !in lines[i]
    ensures Cut(Join(lines)) == (lines, [])
  {
    if lines != [] {
      var n := |lines| - 1;
      CutOfJoin(lines[..n]);
      CutSnoc(Join(lines[..n]), lines[..n], lines[n]);
      assert lines[..n] + [lines[n]] == lines;
    }
  }

  /** Lines and a remainder without newlines that give the text back are its cut. */
  lemma CutUnique(text: string, lines: seq<string>, rest: string)
    requires Join(lines) + rest == text && '\n' !in rest && forall i :: 0 <= i < |lines| ==> '\n' !in lines[i]
    ensures Cut(text) == (lines, rest)
  {
    CutOfJoin(lines);
    CutAppend(Join(lines), rest);
    assert [] + rest == rest;
    CutNoNewline(rest);
    assert lines + [] == lines;
  }

  lemma CutFirst(text: string)
    requires '\n' in text
    ensures var k := |FirstLine(text)|;
            && k < |text|
            && Cut(text) == ([FirstLine(text)] + Cut(text[k + 1..]).0, Cut(text[k + 1..]).1)
  {
    FirstLineIsPrefix(text);
    var k := |FirstLine(text)|;
    var rest := text[k + 1..];
    assert text == FirstLine(text) + ['\n'] + rest;
    CutLine(FirstLine(text));
    CutAppend(FirstLine(text) + ['\n'], rest);
    assert [] + rest == rest;
  }

  lemma MessagesOne(done: seq<string>, line: string)
    ensures Messages(done + [line]) == Plus(Messages(done), Trim(line))
  {
    assert (done + [line])[..|done|] == done;
  }

  lemma HeadRejected(reject: string -> bool, message: string, rest: seq<string>)
    requires reject(message)
    ensures AnyRejected(reject, [message] + rest) && Accepted(reject, [message] + rest) == []
  {
    assert ([message] + rest)[0] == message;
  }

  lemma RejectTail(reject: string -> bool, m: seq<string>, message: string, rest: seq<string>)
    requires !AnyRejected(reject, m) && reject(message)
    ensures AnyRejected(reject, m + [message] + rest) && Accepted(reject, m + [message] + rest) == m
  {
    var tail := [message] + rest;
    assert m + [message] + rest == m + tail;
    HeadRejected(reject, message, rest);
    RejectedAppend(reject, m, tail);
    AcceptedAppend(reject, m, tail);
  }

  lemma GoodLine(reject: string -> bool, m: seq<string>, line: string)
    requires !AnyRejected(reject, m) && !reject(line)
    ensures !AnyRejected(reject, m + [line])
  {
    RejectedAppend(reject, m, [line]);
  }

  /** The loop over lines has taken the raw lines `done` out of `whole` and left `buffer`. */
  ghost predicate Draining(reject: string -> bool, whole: string, done: seq<string>, buffer: string)
  {
    Cut(whole) == (done + Cut(buffer).0, Cut(buffer).1) && !AnyRejected(reject, Messages(done))
  }

  lemma DrainStart(reject: string -> bool, whole: string)
    ensures Draining(reject, whole, [], whole) && Messages([]) == []
  {
    assert [] + Cut(whole).0 == Cut(whole).0;
  }

  lemma DrainFirst(reject: string -> bool, whole: string, done: seq<string>, buffer: string)
    requires Draining(reject, whole, done, buffer) && |FirstLine(buffer)| < |buffer|
    ensures var raw := FirstLine(buffer); var next := buffer[|raw| + 1..];
            && raw == buffer[..|raw|]
            && Cut(whole) == (done + [raw] + Cut(next).0, Cut(next).1)
            && Messages(done + [raw]) == Plus(Messages(done), Trim(raw))
  {
    var raw := FirstLine(buffer);
    FirstLineIsPrefix(buffer);
    CutFirst(buffer);
    assert done + ([raw] + Cut(buffer[|raw| + 1..]).0) == done + [raw] + Cut(buffer[|raw| + 1..]).0;
    MessagesOne(done, raw);
  }

  /** One turn: the first line goes; its message ends the connection, or is added if it is not empty. */
  lemma DrainStep(reject: string -> bool, whole: string, before: seq<string>, done: seq<string>, buffer: string)
    requires Draining(reject, whole, done, buffer) && |FirstLine(buffer)| < |buffer|
    ensures var raw := FirstLine(buffer);
            && raw == buffer[..|raw|]
            && if Trim(raw) != [] && reject(Trim(raw)) then
                 && AnyRejected(reject, Messages(Cut(whole).0))
                 && Accepted(reject, Messages(Cut(whole).0)) == Messages(done)
               else
                 && Draining(reject, whole, done + [raw], buffer[|raw| + 1..])
                 && before + Messages(done + [raw]) == Plus(before + Messages(done), Trim(raw))
  {
    DrainFirst(reject, whole, done, buffer);
    var raw := FirstLine(buffer);
    var m := Trim(raw);
    if m == [] {
    } else if reject(m) {
      var rest := Cut(buffer[|raw| + 1..]).0;
      MessagesAppend(done + [raw], rest);
      RejectTail(reject, Messages(done), m, Messages(rest));
    } else {
      GoodLine(reject, Messages(done), m);
      assert before + (Messages(done) + [m]) == before + Messages(done) + [m];
    }
  }

  /** The loop so far, with what was handed over before it and by now. */
  ghost predicate Handing(reject: string -> bool, whole: string, before: seq<string>, done: seq<string>, buffer: string,
                          handed: seq<string>)
  {
    Draining(reject, whole, done, buffer) && handed == before + Messages(done)
  }

  /** The outcome of the loop on `whole`. */
  ghost predicate Drained(reject: string -> bool, whole: string, before: seq<string>, handed: seq<string>, open: bool)
  {
    var messages := Messages(Cut(whole).0);
    handed == before + Accepted(reject, messages) && open == !AnyRejected(reject, messages)
  }

  lemma HandStart(reject: string -> bool, whole: string, before: seq<string>)
    ensures Handing(reject, whole, before, [], whole, before)
  {
    DrainStart(reject, whole);
    assert before + [] == before;
  }

  lemma HandStep(reject: string -> bool, whole: string, before: seq<string>, done: seq<string>, buffer: string,
                 handed: seq<string>)
    requires Handing(reject, whole, before, done, buffer, handed) && |FirstLine(buffer)| < |buffer|
    ensures var raw := FirstLine(buffer);
            if Trim(raw) != [] && reject(Trim(raw)) then Drained(reject, whole, before, handed, false)
            else Handing(reject, whole, before, done + [raw], buffer[|raw| + 1..], Plus(handed, Trim(raw)))
  {
    DrainStep(reject, whole, before, done, buffer);
  }

  lemma HandEnd(reject: string -> bool, whole: string, before: seq<string>, done: seq<string>, buffer: string,
                handed: seq<string>)
    requires Handing(reject, whole, before, done, buffer, handed) && |FirstLine(buffer)| >= |buffer|
    ensures Cut(whole).1 == buffer && Drained(reject, whole, before, handed, true)
  {
    DrainEnd(reject, whole, done, buffer);
  }

  lemma DrainEnd(reject: string -> bool, whole: string, done: seq<string>, buffer: string)
    requires Draining(reject, whole, done, buffer) && |FirstLine(buffer)| >= |buffer|
    ensures Cut(whole).1 == buffer
    ensures !AnyRejected(reject, Messages(Cut(whole).0)) && Accepted(reject, Messages(Cut(whole).0)) == Messages(done)
  {
    FirstLineIsPrefix(buffer);
    CutNoNewline(buffer);
    assert done + [] == done;
    AcceptedAll(reject, Messages(done));
  }

  /** The state of `spawn_client_listener`; `decode` stands for the lossy UTF-8 decoding of one read. */
  class Listener {
    var first: bool
    var open: bool
    var buffer: string
    var handed: seq<string>
    const decode: seq<byte> -> string
    const reject: string -> bool

    ghost function St(): (s: Listening)
      reads this
    {
      Listening(first, open, buffer, handed)
    }

    constructor (decode: seq<byte> -> string, reject: string -> bool)
      ensures St() == START && this.decode == decode && this.reject == reject
    {
      this.decode, this.reject := decode, reject;
      first, open, buffer, handed := true, true, [], [];
    }

    /** A read of `bytes` on an open connection: the first-message check, then the lines that are now complete. */
    method Read(bytes: seq<byte>)
      requires open
      modifies this
      ensures Agrees(St(), Heard(reject, old(St()), decode(Strip(bytes))))
    {
      var data := decode(Strip(bytes));
      if first {
        if reject(Trim(FirstLine(data))) {
          open := false;
          return;
        }
        first := false;
      }
      buffer := buffer + data;
      DrainLines();
    }

    /** Cuts the first line off the buffer and trims it. */
    method TakeLine() returns (line: string)
      requires |FirstLine(buffer)| < |buffer|
      modifies this`buffer
      ensures line == Trim(FirstLine(old(buffer))) && buffer == old(buffer)[|FirstLine(old(buffer))| + 1..]
    {
      FirstLineIsPrefix(buffer);
      var position := |FirstLine(buffer)|;
      line := Trim(buffer[..position]);
      buffer := buffer[position + 1..];
    }

    /** Hands over the complete lines of the buffer, up to a line of HTTP. */
    method DrainLines()
      requires open && !first
      modifies this
      ensures !first && Drained(reject, old(buffer), old(handed), handed, open)
      ensures open ==> buffer == Cut(old(buffer)).1
    {
      ghost var done: seq<string> := [];
      ghost var whole, before := buffer, handed;
      HandStart(reject, buffer, handed);
      while |FirstLine(buffer)| < |buffer|
        invariant open && !first && Handing(reject, whole, before, done, buffer, handed)
        decreases |buffer|
      {
        HandStep(reject, whole, before, done, buffer, handed);
        done := done + [FirstLine(buffer)];
        var line := TakeLine();
        if line != [] {
          if reject(line) {
            open := false;
            return;
          }
          handed := handed + [line];
        }
      }
      HandEnd(reject, whole, before, done, buffer, handed);
    }
  }

  /** Equal as far as a connection can tell: the buffer of a rejected connection is not read again. */
  ghost predicate Agrees(a: Listening, b: Listening)
  {
    a.open == b.open && a.handed == b.handed && (a.open ==> a.buffer == b.buffer && a.first == b.first)
  }

  // ---- Runs ------------------------------------------------------------------------------------------------

  const START := Listening(true, true, [], [])

  function HeardAll(reject: string -> bool, chunks: seq<string>): (r: Listening)
  {
    if chunks == [] then START else Heard(reject, HeardAll(reject, chunks[..|chunks| - 1]), chunks[|chunks| - 1])
  }

  function Concat<T>(chunks: seq<seq<T>>): (r: seq<T>)
  {
    if chunks == [] then [] else Concat(chunks[..|chunks| - 1]) + chunks[|chunks| - 1]
  }

  /** The whole text framed at once. */
  function Framed(reject: string -> bool, text: string): (r: Listening)
  {
    var messages := Messages(Cut(text).0);
    Listening(false, !AnyRejected(reject, messages), Cut(text).1, Accepted(reject, messages))
  }

  predicate FirstRejected(reject: string -> bool, data: string)
  {
    reject(Trim(FirstLine(data)))
  }

  /** Hearing more text after framing some is framing both together. */
  lemma FramedMore(reject: string -> bool, text: string, data: string)
    ensures Framed(reject, text).open ==> Heard(reject, Framed(reject, text), data) == Framed(reject, text + data)
    ensures !Framed(reject, text).open ==>
              !Framed(reject, text + data).open && Framed(reject, text + data).handed == Framed(reject, text).handed
  {
    var (la, ra) := Cut(text);
    var lb := Cut(ra + data).0;
    CutAppend(text, data);
    MessagesAppend(la, lb);
    RejectedAppend(reject, Messages(la), Messages(lb));
    AcceptedAppend(reject, Messages(la), Messages(lb));
    if !AnyRejected(reject, Messages(la)) {
      AcceptedAll(reject, Messages(la));
    }
  }

  /**
   * Unless the first read is rejected on its own, the messages handed over, the rejection and the buffer depend on the
   * concatenated text only: they are those of the whole text framed at once.
   */
  lemma {:induction false} SplitsDoNotMatter(reject: string -> bool, chunks: seq<string>)
    requires chunks != [] && !FirstRejected(reject, chunks[0])
    ensures Agrees(HeardAll(reject, chunks), Framed(reject, Concat(chunks)))
  {
    var n := |chunks| - 1;
    var init := chunks[..n];
    if n == 0 {
      assert init == [] && [] + chunks[0] == chunks[0];
      assert Cut([]) == ([], []) && Framed(reject, []) == Listening(false, true, [], []);
      FramedMore(reject, [], chunks[0]);
    } else {
      assert init[0] == chunks[0];
      SplitsDoNotMatter(reject, init);
      FramedMore(reject, Concat(init), chunks[n]);
    }
  }

  lemma {:induction false} FirstReadFinal(reject: string -> bool, chunks: seq<string>)
    requires chunks != [] && FirstRejected(reject, chunks[0])
    ensures HeardAll(reject, chunks) == START.(open := false)
  {
    var n := |chunks| - 1;
    if n == 0 {
      assert chunks[..n] == [];
    } else {
      assert chunks[..n][0] == chunks[0];
      FirstReadFinal(reject, chunks[..n]);
    }
  }

  // ---- The check of the first read ---------------------------------------------------------------------------

  lemma TrimPrefix(a: string, b: string)
    requires a <= b && Trim(a) != []
    ensures Trim(a) <= Trim(b)
  {
    PrefixSkips(a, b);
    PrefixKeeps(a, b);
    SlicePrefix(a, b, Skip(a), Keep(a), Keep(b));
  }

  lemma PrefixSkips(a: string, b: string)
    requires a <= b && Skip(a) < |a|
    ensures Skip(b) == Skip(a)
  {
    SkipSpec(a);
    assert forall i :: 0 <= i <= Skip(a) ==> b[i] == a[i];
    SkipIs(b, Skip(a));
  }

  lemma PrefixKeeps(a: string, b: string)
    requires a <= b && Keep(a) > 0
    ensures Keep(b) >= Keep(a)
  {
    KeepSpec(a);
    assert b[Keep(a) - 1] == a[Keep(a) - 1];
    KeepAtLeast(b, Keep(a));
  }

  lemma SlicePrefix(a: string, b: string, i: nat, k: nat, m: nat)
    requires a <= b && i <= k <= |a| && k <= m <= |b|
    ensures a[i..k] <= b[i..m]
  {
    assert forall j :: i <= j < k ==> a[j] == b[j];
  }

  lemma SkipIs(s: string, n: nat)
    requires n < |s| && !White(s[n]) && forall i :: 0 <= i < n ==> White(s[i])
    ensures Skip(s) == n
  {
    SkipSpec(s);
    assert !(Skip(s) < n) && !(n < Skip(s));
  }

  lemma KeepAtLeast(s: string, n: nat)
    requires 0 < n <= |s| && !White(s[n - 1])
    ensures Keep(s) >= n
  {
    KeepSpec(s);
  }

  lemma {:induction false} StartsExtend(a: string, b: string, starts: seq<string>)
    requires a <= b && StartsWithAny(a, starts)
    ensures StartsWithAny(b, starts)
  {
    if !(starts[0] <= a) {
      StartsExtend(a, b, starts[1..]);
    }
  }

  lemma {:induction false} StartsDiffer(line: string, starts: seq<string>)
    requires line != [] && forall i :: 0 <= i < |starts| ==> starts[i] != [] && starts[i][0] != line[0]
    ensures !StartsWithAny(line, starts)
  {
    if starts != [] {
      assert !(starts[0] <= line);
      StartsDiffer(line, starts[1..]);
    }
  }

  lemma SmIsAlone(line: string)
    requires "SM" <= line
    ensures Mismatch(line) <==> line == "SM"
  {
    StartsDiffer(line, HTTP_STARTS);
  }

  lemma FirstLineExtends(a: string, b: string)
    requires a <= b
    ensures FirstLine(a) <= FirstLine(b)
  {
    FirstLineIsPrefix(a);
    FirstLineIsPrefix(b);
    assert forall i :: 0 <= i < |FirstLine(a)| ==> b[i] == FirstLine(a)[i] && FirstLine(a)[i] in FirstLine(a);
  }

  lemma {:induction false} FirstReadPrefix(chunks: seq<string>)
    requires chunks != []
    ensures chunks[0] <= Concat(chunks)
  {
    var n := |chunks| - 1;
    if n > 0 {
      FirstReadPrefix(chunks[..n]);
    } else {
      assert chunks[..n] == [];
    }
  }

  /** A complete first line that is not blank decides the first message. */
  lemma FirstMessage(reject: string -> bool, text: string)
    requires '\n' in text && Trim(FirstLine(text)) != []
    ensures !Framed(reject, text).open && Framed(reject, text).handed == [] <==> reject(Trim(FirstLine(text)))
  {
    CutFirst(text);
    var line := FirstLine(text);
    var rest := Cut(text[|line| + 1..]).0;
    MessagesAppend([line], rest);
    assert [line][..0] == [] && Messages([line]) == [] + [Trim(line)] == [Trim(line)];
    var messages := [Trim(line)] + Messages(rest);
    assert messages[0] == Trim(line);
  }

  /**
   * The completed first line is still a line of HTTP, except where "SM" turned out to be the start of a longer word.
   */
  lemma RejectedLine(data: string, text: string)
    requires data <= text && FirstRejected(HTTP, data)
    ensures Trim(FirstLine(text)) != []
    ensures Mismatch(Trim(FirstLine(text))) <==> (Trim(FirstLine(data)) == "SM" ==> Trim(FirstLine(text)) == "SM")
  {
    var x, y := Trim(FirstLine(data)), Trim(FirstLine(text));
    NotBlank(x);
    FirstLineExtends(data, text);
    TrimPrefix(FirstLine(data), FirstLine(text));
    if x == "SM" {
      SmIsAlone(y);
    } else {
      StartsExtend(x, y, HTTP_STARTS);
    }
  }

  lemma NotBlank(line: string)
    requires Mismatch(line)
    ensures line != []
  {
    if line == [] {
      BlankStarts(HTTP_STARTS);
      assert false;
    }
  }

  lemma {:induction false} BlankStarts(starts: seq<string>)
    requires forall i :: 0 <= i < |starts| ==> starts[i] != []
    ensures !StartsWithAny([], starts)
  {
    if starts != [] {
      BlankStarts(starts[1..]);
    }
  }

  /**
   * What a connection does is the framing of its whole text exactly when the first read is not rejected, or the text
   * has a complete line and the rejected word was not the "SM" of a longer first line.
   */
  lemma FramedExactly(chunks: seq<string>)
    requires chunks != []
    ensures Agrees(HeardAll(HTTP, chunks), Framed(HTTP, Concat(chunks))) <==>
              !FirstRejected(HTTP, chunks[0]) ||
              ('\n' in Concat(chunks) &&
               (Trim(FirstLine(chunks[0])) == "SM" ==> Trim(FirstLine(Concat(chunks))) == "SM"))
  {
    var text := Concat(chunks);
    if !FirstRejected(HTTP, chunks[0]) {
      SplitsDoNotMatter(HTTP, chunks);
    } else {
      FirstReadFinal(HTTP, chunks);
      FirstReadPrefix(chunks);
      RejectedLine(chunks[0], text);
      if '\n' in text {
        FirstMessage(HTTP, text);
      } else {
        CutNoNewline(text);
      }
    }
  }

  lemma MessagesLine(line: string)
    requires line != [] && Trim(line) == line
    ensures Messages([line]) == [line]
  {
    assert [line] == [] + [line];
    MessagesOne([], line);
  }

  lemma OneLineFramed(reject: string -> bool, line: string)
    requires line != [] && '\n' !in line && Trim(line) == line && !reject(line)
    ensures Framed(reject, line + ['\n']) == Listening(false, true, [], [line])
  {
    CutLine(line);
    MessagesLine(line);
    assert !AnyRejected(reject, [line]);
    AcceptedAll(reject, [line]);
  }

  lemma OneLine(reject: string -> bool, line: string)
    requires line != [] && '\n' !in line && Trim(line) == line && !reject(line)
    ensures var r := HeardAll(reject, [line + ['\n']]); r.open && r.handed == [line]
  {
    FirstOf(line, []);
    assert line + ['\n'] + [] == line + ['\n'];
    ConcatOne(line + ['\n']);
    SplitsDoNotMatter(reject, [line + ['\n']]);
    OneLineFramed(reject, line);
  }

  lemma SmRefused(rest: string)
    ensures HeardAll(HTTP, ["SM", rest]) == START.(open := false)
  {
    FirstOf("SM", []);
    WholeLine("SM");
    FirstReadFinal(HTTP, ["SM", rest]);
  }

  lemma SmConcat(rest: string)
    ensures Concat(["SM" + rest]) == Concat(["SM", rest])
  {
    assert ["SM", rest][..1] == ["SM"];
    ConcatOne("SM");
    ConcatOne("SM" + rest);
  }

  /**
   * The same text in one read and in two: a first line that continues "SM" is handed over from one read, and refused
   * when the first read ends after "SM".
   */
  lemma SplitMatters(tail: string)
    requires tail != [] && '\n' !in tail && !White(tail[|tail| - 1])
    ensures Concat(["SM" + (tail + ['\n'])]) == Concat(["SM", tail + ['\n']])
    ensures var r := HeardAll(HTTP, ["SM" + (tail + ['\n'])]); r.open && r.handed == ["SM" + tail]
    ensures HeardAll(HTTP, ["SM", tail + ['\n']]) == START.(open := false)
  {
    SmConcat(tail + ['\n']);
    SmRefused(tail + ['\n']);
    var line := "SM" + tail;
    assert "SM" + (tail + ['\n']) == line + ['\n'];
    WholeLine(line);
    SmIsAlone(line);
    OneLine(HTTP, line);
  }

  lemma ConcatOne(s: string)
    ensures Concat([s]) == s
  {
    assert [s][..0] == [] && [] + s == s;
  }

  /** A line without white characters at its ends is its own trimming. */
  lemma WholeLine(s: string)
    requires s != [] && !White(s[0]) && !White(s[|s| - 1])
    ensures Trim(s) == s
  {
  }

  lemma {:induction false} FirstOf(line: string, rest: string)
    requires '\n' !in line
    ensures FirstLine(line + ['\n'] + rest) == line && FirstLine(line) == line
  {
    if line == [] {
      assert ([] + ['\n'] + rest)[0] == '\n';
    } else {
      assert (line + ['\n'] + rest)[1..] == line[1..] + ['\n'] + rest;
      FirstOf(line[1..], rest);
    }
  }

  // ---- Bytes -------------------------------------------------------------------------------------------------

  predicate Ascii(bytes: seq<byte>)
  {
    forall i :: 0 <= i < |bytes| ==> bytes[i] < 128
  }

  function Chars(bytes: seq<byte>): (s: string)
    requires Ascii(bytes)
  {
    seq(|bytes|, i requires 0 <= i < |bytes| => bytes[i] as char)
  }

  /** The decoder maps ASCII bytes to their characters, one by one. */
  ghost predicate Plain(decode: seq<byte> -> string)
  {
    forall b :: Ascii(b) ==> decode(b) == Chars(b)
  }

  ghost function Decoded(chunks: seq<seq<byte>>, decode: seq<byte> -> string): (r: seq<string>)
  {
    seq(|chunks|, i requires 0 <= i < |chunks| => decode(Strip(chunks[i])))
  }

  lemma {:induction false} StripAppend(a: seq<byte>, b: seq<byte>)
    ensures Strip(a + b) == Strip(a) + Strip(b)
  {
    if a == [] {
      assert a + b == b;
    } else {
      assert (a + b)[0] == a[0] && (a + b)[1..] == a[1..] + b;
      StripAppend(a[1..], b);
      var head := if a[0] == 0 then [] else [a[0]];
      assert head + (Strip(a[1..]) + Strip(b)) == (head + Strip(a[1..])) + Strip(b);
    }
  }

  /** Stripping removes the zero bytes and nothing else, in any context. */
  lemma {:induction false} StripSpec(a: seq<byte>, x: byte, b: seq<byte>)
    ensures Strip(a + [x] + b) == Strip(a) + (if x == 0 then [] else [x]) + Strip(b)
    ensures 0 !in Strip(a)
    ensures 0 !in a ==> Strip(a) == a
  {
    StripAppend(a + [x], b);
    StripAppend(a, [x]);
    assert [x][1..] == [];
    NoZeros(a);
  }

  lemma {:induction false} NoZeros(a: seq<byte>)
    ensures 0 !in Strip(a)
    ensures 0 !in a ==> Strip(a) == a
  {
    if a != [] {
      NoZeros(a[1..]);
    }
  }

  lemma {:induction false} StripAscii(a: seq<byte>)
    requires Ascii(a)
    ensures Ascii(Strip(a))
  {
    if a != [] {
      StripAscii(a[1..]);
    }
  }

  lemma {:induction false} DecodedConcat(chunks: seq<seq<byte>>, decode: seq<byte> -> string)
    requires Plain(decode) && forall i :: 0 <= i < |chunks| ==> Ascii(chunks[i])
    ensures Ascii(Strip(Concat(chunks))) && Concat(Decoded(chunks, decode)) == Chars(Strip(Concat(chunks)))
  {
    if chunks != [] {
      var n := |chunks| - 1;
      var init, last := chunks[..n], chunks[n];
      DecodedConcat(init, decode);
      DecodedLast(chunks, decode);
      StripAppend(Concat(init), last);
      StripAscii(last);
      CharsAppend(Strip(Concat(init)), Strip(last));
    }
  }

  lemma DecodedLast(chunks: seq<seq<byte>>, decode: seq<byte> -> string)
    requires chunks != []
    ensures var n := |chunks| - 1;
            Concat(Decoded(chunks, decode)) == Concat(Decoded(chunks[..n], decode)) + decode(Strip(chunks[n]))
  {
    var n := |chunks| - 1;
    assert Decoded(chunks, decode)[..n] == Decoded(chunks[..n], decode);
    assert Decoded(chunks, decode)[n] == decode(Strip(chunks[n]));
  }

  lemma CharsAppend(a: seq<byte>, b: seq<byte>)
    requires Ascii(a) && Ascii(b)
    ensures Ascii(a + b) && Chars(a + b) == Chars(a) + Chars(b)
  {
  }

  /**
   * Two ways of splitting the same ASCII bytes into reads, neither rejected at its first read, lead to the same
   * messages, the same rejection and the same buffer: those of the bytes without zeros, framed at once.
   */
  lemma BytesDecide(reject: string -> bool, xs: seq<seq<byte>>, ys: seq<seq<byte>>, decode: seq<byte> -> string)
    requires Plain(decode) && xs != [] && ys != [] && Concat(xs) == Concat(ys)
    requires (forall i :: 0 <= i < |xs| ==> Ascii(xs[i])) && (forall i :: 0 <= i < |ys| ==> Ascii(ys[i]))
    requires !FirstRejected(reject, decode(Strip(xs[0]))) && !FirstRejected(reject, decode(Strip(ys[0])))
    ensures Agrees(HeardAll(reject, Decoded(xs, decode)), HeardAll(reject, Decoded(ys, decode)))
    ensures Ascii(Strip(Concat(xs)))
    ensures Agrees(HeardAll(reject, Decoded(xs, decode)), Framed(reject, Chars(Strip(Concat(xs)))))
  {
    DecodedConcat(xs, decode);
    DecodedConcat(ys, decode);
    SplitsDoNotMatter(reject, Decoded(xs, decode));
    SplitsDoNotMatter(reject, Decoded(ys, decode));
  }
}
