/**
 Lines of JSON-RPC text from a byte stream that arrives in arbitrary pieces.
 */
module LineFraming {
  import opened Options

  const BIG_BUFFER_SIZE := 16384

  // The last byte is reserved for the terminating NUL.
  const ROOM := BIG_BUFFER_SIZE - 1

  // ----- What the transport delivers -----

  // One result of recv: some bytes, nothing yet (and whether the connection is still up), an
  // error, or the end of the stream.
  datatype Event = Data(bytes: string) | WouldBlock(connected: bool) | Failed | Closed

  predicate ValidScript(script: seq<Event>) {
    forall e :: e in script && e.Data? ==> e.bytes != ""
  }

  // The bytes that arrive before the connection ends.
  function Arriving(script: seq<Event>): string {
    if script == [] then ""
    else
      match script[0]
      case Data(bytes) => bytes + Arriving(script[1..])
      case WouldBlock(connected) => if connected then Arriving(script[1..]) else ""
      case Failed => ""
      case Closed => ""
  }

  // What is left once the connection has ended.
  function AfterEnd(script: seq<Event>): seq<Event> {
    if script == [] then []
    else
      match script[0]
      case Data(_) => AfterEnd(script[1..])
      case WouldBlock(connected) => if connected then AfterEnd(script[1..]) else script[1..]
      case Failed => script[1..]
      case Closed => script[1..]
  }

  function Weight(script: seq<Event>): nat {
    if script == [] then 0 else Weight(script[1..]) + (if script[0].Data? then |script[0].bytes| else 0) + 1
  }

  class Transport {
    var script: seq<Event>
    var connected: bool

    constructor (script: seq<Event>)
      ensures this.script == script
    {
      this.script, connected := script, true;
    }

    // Negative with again when nothing has arrived yet; an empty script is a closed connection.
    method Recv(buffer: array<char>, at: nat, available: nat) returns (nbytes: int, again: bool)
      requires ValidScript(script) && 0 < available && at + available <= buffer.Length
      modifies this, buffer
      ensures ValidScript(script) && nbytes <= available
      ensures forall k :: 0 <= k < buffer.Length && !(at <= k < at + nbytes) ==> buffer[k] == old(buffer[k])
      ensures nbytes > 0 ==> Arriving(old(script)) == buffer[at..at + nbytes] + Arriving(script)
      ensures nbytes < 0 && again && connected ==> Arriving(old(script)) == Arriving(script)
      ensures if nbytes > 0 || (nbytes < 0 && again && connected)
              then AfterEnd(script) == AfterEnd(old(script)) && Weight(script) < Weight(old(script))
              else Arriving(old(script)) == "" && script == AfterEnd(old(script))
    {
      hide *;
      NextEvent(script);
      if script == [] {
        return 0, false;
      }
      var e, rest := script[0], script[1..];
      match e {
        case Data(bytes) => {
          var n := if |bytes| <= available then |bytes| else available;
          Deliver(bytes, n, buffer, at);
          Remainder(bytes, n, rest);
          script := if n < |bytes| then [Data(bytes[n..])] + rest else rest;
          return n, false;
        }
        case WouldBlock(up) => {
          script, connected := rest, up;
          return -1, true;
        }
        case Failed => {
          script := rest;
          return -1, false;
        }
        case Closed => {
          script := rest;
          return 0, false;
        }
      }
    }
  }

  method Deliver(bytes: string, n: nat, buffer: array<char>, at: nat)
    requires n <= |bytes| && at + n <= buffer.Length
    modifies buffer
    ensures buffer[at..at + n] == bytes[..n]
    ensures forall k :: 0 <= k < buffer.Length && !(at <= k < at + n) ==> buffer[k] == old(buffer[k])
  {
    forall k | 0 <= k < n {
      buffer[at + k] := bytes[k];
    }
  }

  // What the first event means.
  lemma NextEvent(script: seq<Event>)
    requires ValidScript(script)
    ensures script == [] ==> Arriving(script) == "" && AfterEnd(script) == []
    ensures script != [] ==> ValidScript(script[1..]) && Weight(script[1..]) < Weight(script)
    ensures script != [] && script[0].Data? ==>
      && script[0].bytes != "" && Arriving(script) == script[0].bytes + Arriving(script[1..])
      && AfterEnd(script) == AfterEnd(script[1..]) && Weight(script) == Weight(script[1..]) + |script[0].bytes| + 1
    ensures script != [] && script[0].WouldBlock? && script[0].connected ==>
      Arriving(script) == Arriving(script[1..]) && AfterEnd(script) == AfterEnd(script[1..])
    ensures script != [] && !script[0].Data? && !(script[0].WouldBlock? && script[0].connected) ==>
      Arriving(script) == "" && AfterEnd(script) == script[1..]
  {
    if script != [] {
      assert script[0] in script;
    }
  }

  // What is left after the first n bytes of an event were taken.
  lemma Remainder(bytes: string, n: nat, rest: seq<Event>)
    requires 0 < n <= |bytes| && ValidScript(rest)
    ensures var left := if n < |bytes| then [Data(bytes[n..])] + rest else rest;
      && ValidScript(left) && bytes + Arriving(rest) == bytes[..n] + Arriving(left)
      && AfterEnd(left) == AfterEnd(rest) && Weight(left) < Weight(rest) + |bytes| + 1
  {
    if n < |bytes| {
      var left := [Data(bytes[n..])] + rest;
      assert left[1..] == rest && ValidScript(left);
      NextEvent(left);
      hide Arriving, AfterEnd, Weight;
      assert bytes == bytes[..n] + bytes[n..];
      assert bytes[..n] + bytes[n..] + Arriving(rest) == bytes[..n] + (bytes[n..] + Arriving(rest));
    } else {
      assert bytes[..n] == bytes;
    }
  }

  // ----- Lines of a stream -----

  // The first newline that is not behind a NUL, or -1.
  function Newline(s: string): (p: int)
    ensures -1 <= p < |s|
    ensures p >= 0 ==> s[p] == '\n' && forall k :: 0 <= k < p ==> s[k] != '\n' && s[k] != '\0'
    ensures p < 0 ==> forall k :: 0 <= k < |s| && s[k] == '\n' ==> exists j :: 0 <= j < k && s[j] == '\0'
  {
    if s == "" then -1
    else
      var p := Newline(s[..|s| - 1]);
      if p >= 0 then p else if s[|s| - 1] == '\n' && '\0' !in s then |s| - 1 else -1
  }

  lemma NewlineIs(s: string, p: nat)
    requires p < |s| && s[p] == '\n' && forall k :: 0 <= k < p ==> s[k] != '\n' && s[k] != '\0'
    ensures Newline(s) == p
  {}

  lemma NewlineOfPrefix(s: string, t: string)
    ensures Newline(s) >= 0 ==> Newline(s + t) == Newline(s)
    ensures 0 <= Newline(s + t) < |s| ==> Newline(s) == Newline(s + t)
  {
    var p, q := Newline(s), Newline(s + t);
    if p >= 0 {
      NewlineIs(s + t, p);
    }
    if 0 <= q < |s| {
      assert forall k :: 0 <= k <= q ==> (s + t)[k] == s[k];
      NewlineIs(s, q);
    }
  }

  function TrimCr(line: string): string {
    if line != "" && line[|line| - 1] == '\r' then line[..|line| - 1] else line
  }

  // One call on the unread stream u: the line it returns and the stream that is left. A line
  // that does not fit into the buffer with its newline is lost with what else the buffer holds.
  function LineOf(u: string): Option<string> {
    var p := Newline(u);
    if 0 <= p < ROOM then Some(TrimCr(u[..p])) else None
  }

  function Rest(u: string): string {
    var p := Newline(u);
    if 0 <= p < ROOM then u[p + 1..] else if |u| >= ROOM then u[ROOM..] else ""
  }

  predicate Ends(u: string) { LineOf(u) == None && |u| < ROOM }

  class StratumApi {
    const buffer: array<char>
    var len: nat

    ghost predicate Valid()
      reads this, buffer
    {
      buffer.Length == BIG_BUFFER_SIZE && len <= ROOM && buffer[len] == '\0'
    }

    ghost function Content(): string
      requires Valid()
      reads this, buffer
    {
      buffer[..len]
    }

    constructor ()
      ensures Valid() && Content() == "" && fresh(buffer)
    {
      buffer := new char[BIG_BUFFER_SIZE];
      len := 0;
      new;
      buffer[0] := '\0';
    }

    method ResetBuffer()
      requires buffer.Length == BIG_BUFFER_SIZE
      modifies this, buffer
      ensures Valid() && Content() == ""
    {
      len := 0;
      buffer[0] := '\0';
    }

    // strchr(buffer, '\n'), or -1.
    method FindNewline() returns (p: int)
      requires Valid()
      ensures p == Newline(Content())
    {
      p := 0;
      while buffer[p] != '\n'
        invariant 0 <= p <= len
        invariant forall k :: 0 <= k < p ==> buffer[k] != '\n' && buffer[k] != '\0'
        decreases len - p
      {
        if buffer[p] == '\0' {
          return -1;
        }
        p := p + 1;
      }
      NewlineIs(Content(), p);
    }

    // Copies the line out and moves the rest to the front.
    method TakeLine(newline: nat) returns (line: string)
      requires Valid() && newline == Newline(Content())
      modifies this, buffer
      ensures Valid() && line == TrimCr(old(Content())[..newline]) && Content() == old(Content())[newline + 1..]
    {
      hide Newline, TrimCr;
      NewlineBounds(Content());
      ghost var content := Content();
      var lineLength := newline;
      if lineLength > 0 && buffer[lineLength - 1] == '\r' {
        lineLength := lineLength - 1;
      }
      line := buffer[..lineLength];
      WithoutCr(content, newline, line);
      var consumed := newline + 1;
      MoveToFront(consumed, len - consumed);
    }

    // memmove, and the terminating NUL.
    method MoveToFront(consumed: nat, remaining: nat)
      requires Valid() && consumed + remaining == len
      modifies this, buffer
      ensures Valid() && Content() == old(Content())[consumed..]
    {
      ghost var content := Content();
      forall k | 0 <= k < remaining {
        buffer[k] := buffer[consumed + k];
      }
      len := remaining;
      buffer[len] := '\0';
      assert forall k :: 0 <= k < remaining ==> buffer[k] == content[consumed + k];
    }

    // Reads what is there into the free part of the buffer. When the connection is over, the
    // buffer is emptied.
    method ReadMore(t: Transport) returns (goesOn: bool)
      requires Valid() && ValidScript(t.script) && len < ROOM
      modifies this, buffer, t
      ensures Valid() && ValidScript(t.script)
      ensures goesOn ==> Content() + Arriving(t.script) == old(Content() + Arriving(t.script))
      ensures goesOn ==> AfterEnd(t.script) == AfterEnd(old(t.script)) && Weight(t.script) < Weight(old(t.script))
      ensures !goesOn ==> Content() == "" && old(Arriving(t.script)) == "" && t.script == AfterEnd(old(t.script))
    {
      hide Arriving, AfterEnd, Weight, ValidScript;
      ghost var content := Content();
      var available := BIG_BUFFER_SIZE - len - 1;
      var nbytes, again := t.Recv(buffer, len, available);
      if nbytes < 0 {
        if again && t.connected {
          assert buffer[..len] == content;
          return true;
        }
        ResetBuffer();
        return false;
      } else if nbytes == 0 {
        ResetBuffer();
        return false;
      }
      ghost var chunk := buffer[len..len + nbytes];
      len := len + nbytes;
      buffer[len] := '\0';
      Appended(buffer[..len], content, chunk, Arriving(t.script));
      return true;
    }

    method ReceiveJsonRpcLine(t: Transport) returns (line: Option<string>)
      requires Valid() && ValidScript(t.script)
      modifies this, buffer, t
      ensures Valid() && ValidScript(t.script)
      ensures line == LineOf(old(Content() + Arriving(t.script)))
      ensures Ends(old(Content() + Arriving(t.script))) ==> Content() == "" && t.script == AfterEnd(old(t.script))
      ensures !Ends(old(Content() + Arriving(t.script))) ==>
        Content() + Arriving(t.script) == Rest(old(Content() + Arriving(t.script)))
          && AfterEnd(t.script) == AfterEnd(old(t.script))
    {
      hide Newline, TrimCr, Arriving, AfterEnd, Weight, ValidScript, LineOf, Rest, Ends;
      ghost var u := Content() + Arriving(t.script);
      while true
        invariant Valid() && ValidScript(t.script)
        invariant Content() + Arriving(t.script) == u && AfterEnd(t.script) == AfterEnd(old(t.script))
        decreases Weight(t.script)
      {
        ghost var content := Content();
        var newline := FindNewline();
        if newline >= 0 {
          LineFound(content, Arriving(t.script));
          var text := TakeLine(newline);
          return Some(text);
        }
        if len >= ROOM {
          BufferFull(content, Arriving(t.script));
          ResetBuffer();
          return None;
        }
        StreamEnded(content);
        var goesOn := ReadMore(t);
        if !goesOn {
          return None;
        }
      }
    }
  }

  lemma WithoutCr(content: string, newline: nat, line: string)
    requires newline < |content|
    requires line == if newline > 0 && content[newline - 1] == '\r' then content[..newline - 1] else content[..newline]
    ensures line == TrimCr(content[..newline])
  {
    if newline > 0 {
      assert content[..newline][newline - 1] == content[newline - 1];
      assert content[..newline][..newline - 1] == content[..newline - 1];
    }
  }

  lemma Appended(all: string, content: string, chunk: string, rest: string)
    requires |all| == |content| + |chunk|
    requires all[..|content|] == content && all[|content|..] == chunk
    ensures all + rest == content + (chunk + rest)
  {}

  // The three ways in which a call ends.
  lemma LineFound(content: string, arriving: string)
    requires 0 <= Newline(content) && |content| <= ROOM
    ensures var u, p := content + arriving, Newline(content);
      !Ends(u) && LineOf(u) == Some(TrimCr(content[..p])) && Rest(u) == content[p + 1..] + arriving
  {
    hide *;
    var u, p := content + arriving, Newline(content);
    NewlineBounds(content);
    NewlineOfPrefix(content, arriving);
    CutInFront(content, arriving, p);
    LineEndsAt(u, p);
  }

  lemma CutInFront(content: string, arriving: string, p: nat)
    requires p < |content|
    ensures (content + arriving)[..p] == content[..p]
    ensures (content + arriving)[p + 1..] == content[p + 1..] + arriving
  {}

  lemma LineEndsAt(u: string, p: nat)
    requires Newline(u) == p < ROOM && p < |u|
    ensures !Ends(u) && LineOf(u) == Some(TrimCr(u[..p])) && Rest(u) == u[p + 1..]
  {
    hide Newline, TrimCr;
  }

  lemma BufferFull(content: string, arriving: string)
    requires Newline(content) < 0 && |content| == ROOM
    ensures var u := content + arriving; !Ends(u) && LineOf(u) == None && Rest(u) == "" + arriving
  {
    NewlineOfPrefix(content, arriving);
    hide Newline, TrimCr;
    assert (content + arriving)[ROOM..] == arriving == "" + arriving;
  }

  lemma StreamEnded(content: string)
    requires Newline(content) < 0 && |content| < ROOM
    ensures Ends(content + "") && LineOf(content + "") == None
  {
    assert content + "" == content;
  }

  // ----- Whole runs -----

  // The stream cut at its newlines, and what follows the last one.
  function RawLines(u: string): seq<string> {
    var p := Newline(u);
    if p < 0 then [] else [u[..p]] + RawLines(u[p + 1..])
  }

  function Tail(u: string): string {
    var p := Newline(u);
    if p < 0 then u else Tail(u[p + 1..])
  }

  function Joined(lines: seq<string>): string {
    if lines == [] then "" else lines[0] + "\n" + Joined(lines[1..])
  }

  function Trimmed(lines: seq<string>): (trimmed: seq<string>)
    ensures |trimmed| == |lines|
  {
    seq(|lines|, i requires 0 <= i < |lines| => TrimCr(lines[i]))
  }

  lemma FirstCut(u: string)
    ensures var p := Newline(u);
      && -1 <= p < |u| && (p >= 0 ==> u[p] == '\n')
      && RawLines(u) == (if p < 0 then [] else [u[..p]] + RawLines(u[p + 1..]))
      && Tail(u) == (if p < 0 then u else Tail(u[p + 1..]))
  {
    hide Newline;
    NewlineBounds(u);
  }

  lemma JoinedCons(line: string, lines: seq<string>)
    ensures Joined([line] + lines) == line + "\n" + Joined(lines) && Joined([]) == ""
  {
    assert ([line] + lines)[1..] == lines;
  }

  // Nothing is lost, duplicated or reordered by the cutting.
  lemma {:induction false} CuttingLosesNothing(u: string)
    ensures Joined(RawLines(u)) + Tail(u) == u
    decreases |u|
  {
    hide *;
    FirstCut(u);
    var p := Newline(u);
    if p >= 0 {
      var rest := u[p + 1..];
      CuttingLosesNothing(rest);
      JoinedCons(u[..p], RawLines(rest));
      assert u[..p] + "\n" + Joined(RawLines(rest)) + Tail(rest) ==
        u[..p] + "\n" + (Joined(RawLines(rest)) + Tail(rest));
      assert u == u[..p] + "\n" + rest;
    } else {
      JoinedCons("", []);
      assert "" + u == u;
    }
  }

  lemma NewlineBounds(u: string)
    ensures -1 <= Newline(u) < |u| && (Newline(u) >= 0 ==> u[Newline(u)] == '\n')
  {}

  predicate NoNul(u: string) { '\0' !in u }

  // Without NULs every newline is found.
  lemma {:induction false} EveryNewlineCuts(u: string)
    requires NoNul(u)
    ensures '\n' !in Tail(u) && forall i :: 0 <= i < |RawLines(u)| ==> '\n' !in RawLines(u)[i]
    decreases |u|
  {
    var p := Newline(u);
    if p >= 0 {
      EveryNewlineCuts(u[p + 1..]);
    }
  }

  // What is left of u behind its first k lines.
  function Behind(u: string, k: nat): string
    requires k <= |RawLines(u)|
    decreases k
  {
    if k == 0 then u
    else
      FirstCut(u);
      Behind(u[Newline(u) + 1..], k - 1)
  }

  lemma {:induction false} LinesBehind(u: string, k: nat)
    requires k <= |RawLines(u)|
    ensures RawLines(Behind(u, k)) == RawLines(u)[k..] && Tail(Behind(u, k)) == Tail(u)
    ensures k == |RawLines(u)| ==> Behind(u, k) == Tail(u)
    decreases k
  {
    hide *;
    FirstCut(u);
    BehindCut(u, k);
    if k > 0 {
      LinesBehind(u[Newline(u) + 1..], k - 1);
      SliceBehind(u[..Newline(u)], RawLines(u[Newline(u) + 1..]), k);
    } else {
      assert RawLines(u)[0..] == RawLines(u);
    }
  }

  lemma BehindCut(u: string, k: nat)
    requires k <= |RawLines(u)|
    ensures k == 0 ==> Behind(u, k) == u
    ensures k > 0 ==> 0 <= Newline(u) < |u| && k - 1 <= |RawLines(u[Newline(u) + 1..])|
    ensures k > 0 ==> Behind(u, k) == Behind(u[Newline(u) + 1..], k - 1)
  {
    hide Newline, RawLines;
    FirstCut(u);
  }

  lemma SliceBehind<T>(first: T, rest: seq<T>, k: nat)
    requires 0 < k <= |rest| + 1
    ensures ([first] + rest)[k..] == rest[k - 1..]
    ensures k <= |rest| ==> ([first] + rest)[k] == rest[k - 1]
  {}

  lemma {:induction false} BehindNext(u: string, k: nat)
    requires k < |RawLines(u)| && |RawLines(u)[k]| < ROOM
    ensures LineOf(Behind(u, k)) == Some(TrimCr(RawLines(u)[k])) && Rest(Behind(u, k)) == Behind(u, k + 1)
    decreases k
  {
    hide *;
    FirstCut(u);
    var p := Newline(u);
    BehindCut(u, k);
    BehindCut(u, k + 1);
    if k > 0 {
      SliceBehind(u[..p], RawLines(u[p + 1..]), k);
      BehindNext(u[p + 1..], k - 1);
    } else {
      BehindCut(u[p + 1..], 0);
      FirstLineEnds(u);
      LineEndsAt(u, p);
    }
  }

  lemma FirstLineEnds(u: string)
    requires RawLines(u) != []
    ensures 0 <= Newline(u) < |u| && RawLines(u)[0] == u[..Newline(u)] && |RawLines(u)[0]| == Newline(u)
  {
    hide Newline, RawLines;
    FirstCut(u);
  }

  // The number of lines before the first that does not fit into the buffer with its newline.
  function Fitting(lines: seq<string>): (k: nat)
    ensures k <= |lines|
  {
    if lines == [] || |lines[0]| >= ROOM then 0 else 1 + Fitting(lines[1..])
  }

  lemma {:induction false} FittingFacts(lines: seq<string>, i: nat)
    requires i < |lines|
    ensures i < Fitting(lines) ==> |lines[i]| < ROOM
    ensures i == Fitting(lines) ==> |lines[i]| >= ROOM
  {
    if |lines[0]| < ROOM && i > 0 {
      FittingFacts(lines[1..], i - 1);
    }
  }

  // The lines that the receive loop can get to.
  function Dispatchable(u: string): seq<string> { Trimmed(RawLines(u)[..Fitting(RawLines(u))]) }

  // What one run of the receive loop depends on besides the stream: whether the transport is
  // found connected at the start of round i, and whether the loop goes on with the line of round
  // i, because it is JSON and neither a reconnect nor a stop was requested.
  datatype Outside = Outside(connected: nat -> bool, goesOn: (nat, string) -> bool)

  // The loop dispatches lines up to the first round that does not get through.
  ghost predicate StopsAfter(all: seq<string>, o: Outside, k: nat) {
    && k <= |all| && (forall i :: 0 <= i < k ==> o.connected(i) && o.goesOn(i, all[i]))
    && (k < |all| ==> !o.connected(k) || !o.goesOn(k, all[k]))
  }

  // The unread stream after that: the line that stopped the loop has been taken from it, and of
  // one that does not fit into the buffer what the buffer held is lost.
  ghost function Unread(u: string, o: Outside, k: nat): string
    requires k <= Fitting(RawLines(u))
  {
    if !o.connected(k) then Behind(u, k)
    else if k < Fitting(RawLines(u)) then Behind(u, k + 1)
    else Rest(Behind(u, k))
  }

  // The receive loop of the stratum task: which lines are dispatched, and what stays unread, does
  // not depend on how the stream was cut into pieces.
  method ReceiveAll(api: StratumApi, t: Transport, o: Outside) returns (lines: seq<string>)
    requires api.Valid() && ValidScript(t.script)
    modifies api, api.buffer, t
    ensures api.Valid() && ValidScript(t.script)
    ensures var all := Dispatchable(old(api.Content() + Arriving(t.script)));
      StopsAfter(all, o, |lines|) && lines == all[..|lines|]
    ensures var u, k := old(api.Content() + Arriving(t.script)), |lines|;
      if k == Fitting(RawLines(u)) && o.connected(k) && |Behind(u, k)| < ROOM
      then api.Content() == "" && t.script == AfterEnd(old(t.script))
      else api.Content() + Arriving(t.script) == Unread(u, o, k) && AfterEnd(t.script) == AfterEnd(old(t.script))
  {
    hide *;
    ghost var u := api.Content() + Arriving(t.script);
    ghost var all := Dispatchable(u);
    lines := [];
    var round := 0;
    BehindNothing(u);
    while true
      invariant api.Valid() && ValidScript(t.script) && AfterEnd(t.script) == AfterEnd(old(t.script))
      invariant round == |lines| <= |all| == Fitting(RawLines(u)) <= |RawLines(u)|
      invariant api.Content() + Arriving(t.script) == Behind(u, round)
      invariant lines == all[..round] && forall i :: 0 <= i < round ==> o.connected(i) && o.goesOn(i, all[i])
      decreases |all| - round
    {
      Round(u, round);
      if !o.connected(round) {
        Stopped(u, all, o, round);
        return;
      }
      var line := api.ReceiveJsonRpcLine(t);
      if line == None || !o.goesOn(round, line.value) {
        Stopped(u, all, o, round);
        return;
      }
      assert all[..round + 1] == all[..round] + [all[round]];
      lines, round := lines + [line.value], round + 1;
    }
  }

  lemma BehindNothing(u: string)
    ensures Behind(u, 0) == u && |Dispatchable(u)| == Fitting(RawLines(u))
  {}

  // What the next call finds behind k lines.
  lemma Round(u: string, k: nat)
    requires k <= Fitting(RawLines(u))
    ensures |Dispatchable(u)| == Fitting(RawLines(u)) <= |RawLines(u)|
    ensures k < Fitting(RawLines(u)) ==> !Ends(Behind(u, k)) && LineOf(Behind(u, k)) == Some(Dispatchable(u)[k])
    ensures k < Fitting(RawLines(u)) ==> Rest(Behind(u, k)) == Behind(u, k + 1)
    ensures k == Fitting(RawLines(u)) ==> LineOf(Behind(u, k)) == None
    ensures k == Fitting(RawLines(u)) ==> (Ends(Behind(u, k)) <==> |Behind(u, k)| < ROOM)
  {
    hide *;
    BehindNothing(u);
    if k < |RawLines(u)| {
      FittingFacts(RawLines(u), k);
    }
    if k < Fitting(RawLines(u)) {
      BehindNext(u, k);
      DispatchableAt(u, k);
      SomeLine(Behind(u, k));
    } else {
      LinesBehind(u, k);
      FirstCut(Behind(u, k));
      if k < |RawLines(u)| {
        FirstLineEnds(Behind(u, k));
      }
      NoLine(Behind(u, k));
    }
  }

  lemma DispatchableAt(u: string, k: nat)
    requires k < Fitting(RawLines(u))
    ensures |Dispatchable(u)| == Fitting(RawLines(u)) && Dispatchable(u)[k] == TrimCr(RawLines(u)[k])
  {}

  lemma SomeLine(u: string)
    ensures LineOf(u) != None ==> !Ends(u)
  {
    hide LineOf;
  }

  lemma NoLine(u: string)
    requires Newline(u) < 0 || Newline(u) >= ROOM
    ensures LineOf(u) == None && (Ends(u) <==> |u| < ROOM)
  {
    hide Newline;
  }

  lemma Stopped(u: string, all: seq<string>, o: Outside, k: nat)
    requires |all| == Fitting(RawLines(u)) && k <= |all|
    requires forall i :: 0 <= i < k ==> o.connected(i) && o.goesOn(i, all[i])
    ensures !o.connected(k) || k == |all| || !o.goesOn(k, all[k]) ==> StopsAfter(all, o, k)
    ensures Unread(u, o, k) ==
      if !o.connected(k) then Behind(u, k) else if k < |all| then Behind(u, k + 1) else Rest(Behind(u, k))
  {
    hide Behind, Rest, RawLines, Fitting;
  }

  // The loop dispatches every line exactly if all fit into the buffer and every round gets through.
  lemma AllLinesExactlyWhen(u: string, o: Outside, k: nat)
    requires StopsAfter(Dispatchable(u), o, k)
    ensures Dispatchable(u)[..k] == Trimmed(RawLines(u)) <==>
      (forall i :: 0 <= i < |RawLines(u)| ==>
        |RawLines(u)[i]| < ROOM && o.connected(i) && o.goesOn(i, TrimCr(RawLines(u)[i])))
  {
    hide RawLines, Fitting, TrimCr;
    var lines, all := RawLines(u), Dispatchable(u);
    var n := Fitting(lines);
    assert |all| == n && forall i :: 0 <= i < n ==> all[i] == TrimCr(lines[i]);
    forall i | 0 <= i < |lines| ensures (i < n ==> |lines[i]| < ROOM) && (i == n ==> |lines[i]| >= ROOM) {
      FittingFacts(lines, i);
    }
    if k == |lines| {
      assert n == k && lines[..n] == lines && all[..k] == all == Trimmed(lines);
      forall i | 0 <= i < |lines| ensures |lines[i]| < ROOM && o.connected(i) && o.goesOn(i, TrimCr(lines[i])) {
        assert all[i] == TrimCr(lines[i]);
      }
    } else {
      assert |all[..k]| < |Trimmed(lines)|;
      assert |lines[k]| >= ROOM || !o.connected(k) || !o.goesOn(k, TrimCr(lines[k])) by {
        if k < n {
          assert all[k] == TrimCr(lines[k]);
        }
      }
    }
  }

  // ----- What a pool sends -----

  // Lines on the wire, each ended by a newline or by a carriage return and a newline.
  function OnTheWire(lines: seq<string>, crs: seq<bool>): string
    requires |lines| == |crs|
  {
    if lines == [] then "" else Ended(lines[0], crs[0]) + "\n" + OnTheWire(lines[1..], crs[1..])
  }

  function Ended(line: string, cr: bool): string { if cr then line + "\r" else line }

  predicate IsLine(line: string, cr: bool) {
    '\n' !in line && '\0' !in line && (line == "" || line[|line| - 1] != '\r') && |Ended(line, cr)| < ROOM
  }

  predicate AreLines(lines: seq<string>, crs: seq<bool>)
    requires |lines| == |crs|
  {
    forall i :: 0 <= i < |lines| ==> IsLine(lines[i], crs[i])
  }

  lemma FirstOnTheWire(line: string, cr: bool, rest: string)
    requires IsLine(line, cr)
    ensures var u := Ended(line, cr) + "\n" + rest;
      && Newline(u) == |Ended(line, cr)| && TrimCr(u[..Newline(u)]) == line && u[Newline(u) + 1..] == rest
  {
    var u, p := Ended(line, cr) + "\n" + rest, |Ended(line, cr)|;
    assert u[p] == '\n' && u[..p] == Ended(line, cr) && forall k :: 0 <= k < p ==> u[k] == Ended(line, cr)[k];
    assert forall k :: 0 <= k < |line| ==> line[k] != '\n' && line[k] != '\0';
    NewlineIs(u, p);
  }

  lemma TrimmedCons(first: string, rest: seq<string>)
    requires |first| < ROOM
    ensures var lines := [first] + rest;
      Trimmed(lines[..Fitting(lines)]) == [TrimCr(first)] + Trimmed(rest[..Fitting(rest)])
  {
    hide TrimCr;
    var lines := [first] + rest;
    assert lines[1..] == rest;
    assert lines[..Fitting(lines)] == [first] + rest[..Fitting(rest)];
  }

  lemma DispatchableCons(u: string)
    requires 0 <= Newline(u) < ROOM && Newline(u) < |u|
    ensures var p := Newline(u);
      Dispatchable(u) == [TrimCr(u[..p])] + Dispatchable(u[p + 1..]) && Tail(u) == Tail(u[p + 1..])
  {
    hide Newline, TrimCr, RawLines, Tail, Trimmed, Fitting;
    FirstCut(u);
    TrimmedCons(u[..Newline(u)], RawLines(u[Newline(u) + 1..]));
  }

  // Whatever lines are sent and however they are ended, these are the lines that are dispatched;
  // the beginning of the next one waits.
  lemma {:induction false} SentLinesAreDispatched(lines: seq<string>, crs: seq<bool>, next: string)
    requires |lines| == |crs| && AreLines(lines, crs) && '\n' !in next
    ensures Dispatchable(OnTheWire(lines, crs) + next) == lines && Tail(OnTheWire(lines, crs) + next) == next
  {
    hide *;
    if lines == [] {
      NothingOnTheWire(crs, next);
    } else {
      NextOnTheWire(lines, crs, next);
      SentLinesAreDispatched(lines[1..], crs[1..], next);
      var rest := OnTheWire(lines[1..], crs[1..]) + next;
      FirstOnTheWire(lines[0], crs[0], rest);
      NewlineBounds(OnTheWire(lines, crs) + next);
      DispatchableCons(OnTheWire(lines, crs) + next);
    }
  }

  lemma NothingOnTheWire(crs: seq<bool>, next: string)
    requires |crs| == 0 && '\n' !in next
    ensures Dispatchable(OnTheWire([], crs) + next) == [] && Tail(OnTheWire([], crs) + next) == next
  {
    assert OnTheWire([], crs) + next == next;
    NewlineBounds(next);
    FirstCut(next);
    hide Newline;
  }

  lemma NextOnTheWire(lines: seq<string>, crs: seq<bool>, next: string)
    requires |lines| == |crs| > 0 && AreLines(lines, crs)
    ensures IsLine(lines[0], crs[0]) && |Ended(lines[0], crs[0])| < ROOM && AreLines(lines[1..], crs[1..])
    ensures OnTheWire(lines, crs) + next ==
      Ended(lines[0], crs[0]) + "\n" + (OnTheWire(lines[1..], crs[1..]) + next)
  {
    hide IsLine;
    LineFits(lines[0], crs[0]);
  }

  lemma LineFits(line: string, cr: bool)
    requires IsLine(line, cr)
    ensures |Ended(line, cr)| < ROOM
  {}

  // Any cutting of a stream into pieces, with any waiting between them, arrives as the stream.
  function Pieces(chunks: seq<string>): seq<Event> {
    if chunks == [] then [Closed]
    else (if chunks[0] == "" then [WouldBlock(true)] else [Data(chunks[0])]) + Pieces(chunks[1..])
  }

  function Glued(chunks: seq<string>): string {
    if chunks == [] then "" else chunks[0] + Glued(chunks[1..])
  }

  lemma {:induction false} PiecesArrive(chunks: seq<string>)
    ensures ValidScript(Pieces(chunks)) && Arriving(Pieces(chunks)) == Glued(chunks) && AfterEnd(Pieces(chunks)) == []
  {
    if chunks != [] {
      PiecesArrive(chunks[1..]);
      assert Pieces(chunks)[1..] == Pieces(chunks[1..]);
    }
  }

  // A NUL hides the newlines behind it until the buffer is full and is thrown away.
  lemma LineIsReturnedExactlyWhen(u: string)
    ensures LineOf(u) != None <==> exists p :: 0 <= p < |u| && p < ROOM && u[p] == '\n' && forall k :: 0 <= k < p ==>
      u[k] != '\n' && u[k] != '\0'
  {
    if p :| 0 <= p < |u| && p < ROOM && u[p] == '\n' && forall k :: 0 <= k < p ==> u[k] != '\n' && u[k] != '\0' {
      NewlineIs(u, p);
    }
  }
}
