/** Newline framing of the daemon's local socket, on both ends, against splitting the whole stream. */
module Framing {

  type Bytes = seq<char>

  const NL := '\n'

  // ---- the reference: split the whole stream ----

  /** The complete lines of a stream, without their terminators. */
  function Lines(s: Bytes): seq<Bytes>
  {
    if NL !in s then [] else [s[..Find(s)]] + Lines(s[Find(s) + 1..])
  }

  /** What follows the last terminator. */
  function Tail(s: Bytes): Bytes
  {
    if NL !in s then s else Tail(s[Find(s) + 1..])
  }

  /** Position of the first newline. */
  function Find(s: Bytes): (i: nat)
    requires NL in s
    ensures i < |s| && s[i] == NL && forall k :: 0 <= k < i ==> s[k] != NL
  {
    if s[0] == NL then 0 else 1 + Find(s[1..])
  }

  lemma FindIs(s: Bytes, i: nat)
    requires i < |s| && s[i] == NL && forall k :: 0 <= k < i ==> s[k] != NL
    ensures NL in s && Find(s) == i
  {}

  predicate IsSpace(c: char) { c in {' ', '\t', '\n', '\r', 11 as char, 12 as char} }

  function TrimLeft(s: Bytes): Bytes { if s != [] && IsSpace(s[0]) then TrimLeft(s[1..]) else s }

  function TrimRight(s: Bytes): Bytes { if s != [] && IsSpace(s[|s| - 1]) then TrimRight(s[..|s| - 1]) else s }

  function Trim(s: Bytes): Bytes { TrimRight(TrimLeft(s)) }

  predicate AllSpace(s: Bytes) { forall i :: 0 <= i < |s| ==> IsSpace(s[i]) }

  lemma {:induction false} TrimLeftIs(s: Bytes) returns (left: Bytes)
    ensures s == left + TrimLeft(s) && AllSpace(left) && (TrimLeft(s) != [] ==> !IsSpace(TrimLeft(s)[0]))
  {
    left := [];
    if s != [] && IsSpace(s[0]) {
      var rest := TrimLeftIs(s[1..]);
      left := [s[0]] + rest;
      assert s == [s[0]] + s[1..];
    }
  }

  lemma {:induction false} TrimRightIs(s: Bytes) returns (right: Bytes)
    ensures s == TrimRight(s) + right && AllSpace(right)
    ensures TrimRight(s) != [] ==> !IsSpace(TrimRight(s)[|TrimRight(s)| - 1])
  {
    right := [];
    if s != [] && IsSpace(s[|s| - 1]) {
      var rest := TrimRightIs(s[..|s| - 1]);
      right := rest + [s[|s| - 1]];
      assert s == s[..|s| - 1] + [s[|s| - 1]];
    }
  }

  /** Trimming removes blanks from both ends and nothing else, and leaves no blank at an end. */
  lemma TrimIs(s: Bytes)
    ensures exists left, right :: s == left + Trim(s) + right && AllSpace(left) && AllSpace(right)
    ensures Trim(s) != [] ==> !IsSpace(Trim(s)[0]) && !IsSpace(Trim(s)[|Trim(s)| - 1])
    ensures Trim(s) == [] <==> AllSpace(s)
  {
    var left := TrimLeftIs(s);
    var right := TrimRightIs(TrimLeft(s));
    assert s == left + Trim(s) + right;
    if Trim(s) != [] {
      assert Trim(s)[0] == TrimLeft(s)[0];
      assert s[|left|] == Trim(s)[0];
    }
  }

  /** A message ended by CR LF reaches the peer without either. */
  lemma CarriageReturn(m: Bytes)
    requires m != [] && Trim(m) == m
    ensures Trim(m + ['\r']) == m
  {
    TrimIs(m);
    var s := m + ['\r'];
    assert TrimLeft(s) == s;
    assert s[..|s| - 1] == m && TrimLeft(m) == m;
  }

  /** The commands in a list of lines: trimmed, blank ones dropped. */
  function Commands(lines: seq<Bytes>): seq<Bytes>
  {
    if lines == [] then []
    else (if Trim(lines[0]) == [] then [] else [Trim(lines[0])]) + Commands(lines[1..])
  }

  lemma {:induction false} CommandsConcat(a: seq<Bytes>, b: seq<Bytes>)
    ensures Commands(a + b) == Commands(a) + Commands(b)
  {
    if a == [] {
      assert a + b == b;
    } else {
      assert (a + b)[1..] == a[1..] + b;
      CommandsConcat(a[1..], b);
    }
  }

  /** Splitting continues from the unterminated tail. */
  lemma {:induction false} SplitConcat(s: Bytes, t: Bytes)
    ensures Lines(s + t) == Lines(s) + Lines(Tail(s) + t)
    ensures Tail(s + t) == Tail(Tail(s) + t)
    decreases |s|
  {
    if NL in s {
      var m, rest := s[..Find(s)], s[Find(s) + 1..];
      assert s + t == m + [NL] + (rest + t);
      FirstLine(m, rest + t);
      SplitConcat(rest, t);
      Reassociate(m, Lines(rest), Lines(Tail(rest) + t));
    } else {
      assert Lines(s) == [] && Tail(s) == s;
    }
  }

  lemma Reassociate(m: Bytes, a: seq<Bytes>, b: seq<Bytes>)
    ensures [m] + (a + b) == ([m] + a) + b
  {}

  lemma {:induction false} TailHasNoNewline(s: Bytes)
    ensures NL !in Tail(s)
    decreases |s|
  {
    if NL in s { TailHasNoNewline(s[Find(s) + 1..]); }
  }

  // ---- the framers ----

  method IndexOf(s: Bytes) returns (pos: int)
    ensures pos == if NL in s then Find(s) else -1
  {
    for i := 0 to |s|
      invariant forall k :: 0 <= k < i ==> s[k] != NL
    {
      if s[i] == NL {
        FindIs(s, i);
        return i;
      }
    }
    return -1;
  }

  /** Loop invariant of both framers: what is dispatched and what the buffer still yields add up to
      the whole stream. */
  ghost predicate Progress(dispatched: seq<Bytes>, buffer: Bytes, stream: Bytes)
  {
    dispatched + Commands(Lines(buffer)) == Commands(Lines(stream)) && Tail(buffer) == Tail(stream)
  }

  lemma TakeProgress(dispatched: seq<Bytes>, buffer: Bytes, stream: Bytes)
    requires Progress(dispatched, buffer, stream) && NL in buffer
    ensures Progress(dispatched + Commands([buffer[..Find(buffer)]]), buffer[Find(buffer) + 1..], stream)
  {
    CommandsConcat([buffer[..Find(buffer)]], Lines(buffer[Find(buffer) + 1..]));
  }

  lemma AppendProgress(dispatched: seq<Bytes>, buffer: Bytes, stream: Bytes, input: Bytes)
    requires Progress(dispatched, buffer, stream) && NL !in buffer
    ensures Progress(dispatched, buffer + input, stream + input)
  {
    SplitConcat(stream, input);
    CommandsConcat(Lines(stream), Lines(buffer + input));
    assert dispatched + [] == dispatched;
  }

  lemma ValidProgress(dispatched: seq<Bytes>, buffer: Bytes, stream: Bytes)
    ensures dispatched == Commands(Lines(stream)) && buffer == Tail(stream) ==> Progress(dispatched, buffer, stream)
    ensures Progress(dispatched, buffer, stream) && NL !in buffer ==> dispatched == Commands(Lines(stream)) && buffer == Tail(stream)
    ensures NL !in Tail(stream)
  {
    TailHasNoNewline(stream);
    assert dispatched + [] == dispatched;
  }

  /** A peer's read side. `stream` is everything received so far, `dispatched` every command handed
      to parseCommand. */
  class Reader {
    var buffer: Bytes
    var dispatched: seq<Bytes>
    ghost var stream: Bytes

    ghost predicate Valid()
      reads this
    {
      dispatched == Commands(Lines(stream)) && buffer == Tail(stream)
    }

    constructor ()
      ensures Valid() && stream == []
    {
      buffer, dispatched, stream := [], [], [];
    }

    /** One pass of both loops: cut the first complete line and dispatch it unless blank. */
    method TakeLine(pos: nat)
      requires NL in buffer && pos == Find(buffer)
      modifies this`buffer, this`dispatched
      ensures buffer == old(buffer)[pos + 1..]
      ensures dispatched == old(dispatched) + Commands([old(buffer)[..pos]])
    {
      var command := Trim(buffer[..pos]);
      buffer := buffer[pos + 1..];
      if command == [] { return; }
      dispatched := dispatched + [command];
    }

    /** LocalSocketController::readData: append everything available, then cut lines. */
    method ReadAllThenSplit(input: Bytes)
      requires Valid()
      modifies this
      ensures Valid() && stream == old(stream) + input
    {
      ValidProgress(dispatched, buffer, stream);
      AppendProgress(dispatched, buffer, stream, input);
      buffer := buffer + input;
      stream := stream + input;
      CutLines();
      ValidProgress(dispatched, buffer, stream);
    }

    method CutLines()
      requires Progress(dispatched, buffer, stream)
      modifies this`buffer, this`dispatched
      ensures Progress(dispatched, buffer, stream) && NL !in buffer
    {
      var more := true;
      while more
        invariant Progress(dispatched, buffer, stream) && (more || NL !in buffer)
        decreases more, |buffer|
      {
        more := CutOne();
      }
    }

    /** indexOf and, if there is a complete line, its removal and dispatch. */
    method CutOne() returns (found: bool)
      requires Progress(dispatched, buffer, stream)
      modifies this`buffer, this`dispatched
      ensures Progress(dispatched, buffer, stream)
      ensures if found then |buffer| < |old(buffer)| else NL !in buffer && buffer == old(buffer) && dispatched == old(dispatched)
    {
      var pos := IndexOf(buffer);
      if pos == -1 { return false; }
      TakeProgress(dispatched, buffer, stream);
      TakeLine(pos);
      return true;
    }

    /** DaemonLocalServerConnection::readData: cut lines first, read more only when none is complete.
        `chunks` are the non-empty results of successive readAll calls. */
    method SplitThenRead(chunks: seq<Bytes>)
      requires Valid() && forall c :: c in chunks ==> c != []
      modifies this
      ensures Valid() && stream == old(stream) + Flatten(chunks)
    {
      ValidProgress(dispatched, buffer, stream);
      var i := 0;
      while true
        invariant 0 <= i <= |chunks|
        invariant stream + Flatten(chunks[i..]) == old(stream) + Flatten(chunks)
        invariant Progress(dispatched, buffer, stream)
        decreases |chunks| - i, |buffer|
      {
        var found := CutOne();
        if !found {
          if i == |chunks| { break; }
          assert chunks[i..][1..] == chunks[i + 1..];
          assert stream + Flatten(chunks[i..]) == (stream + chunks[i]) + Flatten(chunks[i + 1..]);
          AppendProgress(dispatched, buffer, stream, chunks[i]);
          buffer := buffer + chunks[i];
          stream := stream + chunks[i];
          i := i + 1;
        }
      }
      ValidProgress(dispatched, buffer, stream);
    }
  }

  function Flatten(chunks: seq<Bytes>): Bytes { if chunks == [] then [] else chunks[0] + Flatten(chunks[1..]) }

  // ---- delivery ----

  /** What `write` puts on the socket for a list of messages. */
  function Written(messages: seq<Bytes>): Bytes
  {
    if messages == [] then [] else messages[0] + [NL] + Written(messages[1..])
  }

  lemma {:induction false} LinesOfWritten(messages: seq<Bytes>)
    requires forall m :: m in messages ==> NL !in m
    ensures Lines(Written(messages)) == messages && Tail(Written(messages)) == []
  {
    if messages != [] {
      assert messages[0] in messages && messages == [messages[0]] + messages[1..];
      FirstLine(messages[0], Written(messages[1..]));
      LinesOfWritten(messages[1..]);
    }
  }

  /** Every stream is its complete lines, each with its terminator, and then its tail. */
  lemma {:induction false} StreamOfLines(s: Bytes)
    ensures Written(Lines(s)) + Tail(s) == s
    decreases |s|
  {
    if NL in s {
      var m, rest := s[..Find(s)], s[Find(s) + 1..];
      assert s == m + [NL] + rest;
      StreamOfLines(rest);
      Prepended(m, rest);
    } else {
      assert Written([]) + s == s;
    }
  }

  lemma Prepended(m: Bytes, rest: Bytes)
    requires NL !in m && Written(Lines(rest)) + Tail(rest) == rest
    ensures var s := m + [NL] + rest; Written(Lines(s)) + Tail(s) == s
  {
    FirstLine(m, rest);
    WrittenFirst(m, Lines(rest));
    Joined(m, Written(Lines(rest)), Tail(rest));
  }

  lemma {:induction false} LinesHaveNoNewline(s: Bytes)
    ensures forall i :: 0 <= i < |Lines(s)| ==> NL !in Lines(s)[i]
    decreases |s|
  {
    if NL in s { LinesHaveNoNewline(s[Find(s) + 1..]); }
  }

  lemma WrittenFirst(m: Bytes, messages: seq<Bytes>)
    ensures Written([m] + messages) == m + [NL] + Written(messages)
  {
    assert ([m] + messages)[1..] == messages;
  }

  lemma Joined(m: Bytes, a: Bytes, b: Bytes)
    ensures (m + [NL] + a) + b == m + [NL] + (a + b)
  {}

  lemma FirstLine(m: Bytes, rest: Bytes)
    requires NL !in m
    ensures Lines(m + [NL] + rest) == [m] + Lines(rest) && Tail(m + [NL] + rest) == Tail(rest)
  {
    var s := m + [NL] + rest;
    FindIs(s, |m|);
    assert s[..|m|] == m && s[|m| + 1..] == rest;
  }

  /** Newline-free messages arrive in order, trimmed and without the blank ones, however the
      stream is cut into reads; they arrive exactly as sent iff each is non-blank and trimmed. */
  lemma {:induction false} Delivered(messages: seq<Bytes>, chunks: seq<Bytes>)
    requires forall m :: m in messages ==> NL !in m
    requires Flatten(chunks) == Written(messages)
    ensures Commands(Lines(Flatten(chunks))) == Commands(messages) && Tail(Flatten(chunks)) == []
    ensures Commands(messages) == messages <==> forall m :: m in messages ==> m != [] && Trim(m) == m
  {
    LinesOfWritten(messages);
    CommandsExact(messages);
  }

  lemma {:induction false} CommandsExact(messages: seq<Bytes>)
    ensures |Commands(messages)| <= |messages|
    ensures Commands(messages) == messages <==> forall m :: m in messages ==> m != [] && Trim(m) == m
  {
    if messages != [] {
      var m, rest := messages[0], messages[1..];
      CommandsExact(rest);
      assert messages == [m] + rest && m in messages && forall x :: x in rest ==> x in messages;
      if Trim(m) != [] {
        assert Commands(messages) == [Trim(m)] + Commands(rest);
        assert Commands(messages) == messages <==> Trim(m) == m && Commands(rest) == rest by {
          if Commands(messages) == messages {
            assert Commands(messages)[0] == Trim(m) && Commands(messages)[1..] == Commands(rest);
          }
        }
      }
    }
  }
}
