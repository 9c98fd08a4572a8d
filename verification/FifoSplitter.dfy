/**
  The log FIFO of a running shell function: `readfifo` cuts a byte stream that arrives in chunks
  into NUL-terminated messages and acts on each of them.
 */
module FifoSplitter {
  import opened Wrappers

  type Byte = b: int | 0 <= b < 256

  type Bytes = seq<Byte>

  /** What a message makes the logger print. */
  datatype Event =
    | Plain(text: string)
    | Note(text: string)
    | VerbNote(text: string)
    | Warn(text: string)
    | Error(text: string, forcelog: bool)
    | Debug(level: int, text: string)
    | Unrecognised(cmd: string)

  /** bytes.decode("utf-8") and int(...); None is an exception. */
  datatype Codec = Codec(decode: Bytes -> Option<string>, parseLevel: string -> Option<int>)

  /** The position of the first `x`, or the length. */
  function Find<T(==)>(s: seq<T>, x: T): (k: nat)
    ensures k <= |s| && x !in s[..k] && (k < |s| ==> s[k] == x)
    ensures k < |s| <==> x in s
  {
    if s == [] || s[0] == x then 0 else
    var k := 1 + Find(s[1..], x);
    assert s[..k] == [s[0]] + s[1..][..k - 1];
    k
  }

  /** None when the message raises an exception. */
  function Dispatch(c: Codec, message: Bytes): Option<Event> {
    var k := Find(message, 32);
    var cmd := c.decode(message[..k]);
    var value := if k < |message| then c.decode(message[k + 1..]) else Some("");
    if cmd.None? || value.None? then None else EventOf(c, cmd.value, value.value)
  }

  function EventOf(c: Codec, cmd: string, value: string): Option<Event> {
    match cmd
    case "bbplain" => Some(Plain(value))
    case "bbnote" => Some(Note(value))
    case "bbverbnote" => Some(VerbNote(value))
    case "bbwarn" => Some(Warn(value))
    case "bberror" => Some(Error(value, false))
    case "bbfatal" => Some(Error(value, false))
    case "bbfatal_log" => Some(Error(value, true))
    case "bbdebug" =>
      var k := Find(value, ' ');
      var level := c.parseLevel(value[..k]);
      if level.None? || k == |value| then None else Some(Debug(level.value, value[k + 1..]))
    case _ => Some(Unrecognised(cmd))
  }

  /** The command is what comes before the first space, and the value is all that follows it. */
  lemma CommandAndValue(c: Codec, cmd: Bytes, value: Bytes)
    requires 32 !in cmd
    ensures Dispatch(c, cmd + [32] + value) ==
            match (c.decode(cmd), c.decode(value)) {
              case (Some(name), Some(text)) => EventOf(c, name, text)
              case _ => None
            }
    ensures Dispatch(c, cmd) == match c.decode(cmd) { case Some(name) => EventOf(c, name, "") case None => None }
  {
    hide EventOf;
    var message := cmd + [32] + value;
    FindFirst(cmd, 32, value);
    assert message[..|cmd|] == cmd && message[|cmd| + 1..] == value;
    assert cmd[..|cmd|] == cmd;
  }

  /** Texts come through as they are; only `bbfatal_log` forces them into the log. */
  lemma TextCommands(c: Codec, text: string)
    ensures EventOf(c, "bbplain", text) == Some(Plain(text)) && EventOf(c, "bbnote", text) == Some(Note(text))
    ensures EventOf(c, "bbverbnote", text) == Some(VerbNote(text)) && EventOf(c, "bbwarn", text) == Some(Warn(text))
    ensures EventOf(c, "bberror", text) == EventOf(c, "bbfatal", text) == Some(Error(text, false))
    ensures EventOf(c, "bbfatal_log", text) == Some(Error(text, true))
  {}

  /** A debug message starts with its level. */
  lemma DebugCommand(c: Codec, level: string, text: string)
    requires ' ' !in level
    ensures EventOf(c, "bbdebug", level + [' '] + text) ==
            match c.parseLevel(level) { case Some(n) => Some(Debug(n, text)) case None => None }
    ensures EventOf(c, "bbdebug", level) == None
  {
    FindFirst(level, ' ', text);
    var value := level + [' '] + text;
    assert value[..|level|] == level && value[|level| + 1..] == text;
  }

  lemma OtherCommands(c: Codec, cmd: string, text: string)
    requires cmd !in {"bbplain", "bbnote", "bbverbnote", "bbwarn", "bberror", "bbfatal", "bbfatal_log", "bbdebug"}
    ensures EventOf(c, cmd, text) == Some(Unrecognised(cmd))
  {}

  /** What a message comes to; None is an exception. */
  type Act = Bytes -> Option<Event>

  function Acting(c: Codec): Act {
    message => Dispatch(c, message)
  }

  // ----- what a whole stream comes to -----

  datatype Outcome = Outcome(log: seq<Event>, left: Bytes, ok: bool)

  /** Acts on the messages in order, up to the first that raises an exception, which stays. */
  function Handle(act: Act, s: Bytes): Outcome
    decreases |s|
  {
    var k := Find(s, 0);
    if k == |s| then Outcome([], s, true)
    else
      var event := act(s[..k]);
      if event.None? then Outcome([], s, false)
      else
        var rest := Handle(act, s[k + 1..]);
        rest.(log := [event.value] + rest.log)
  }

  function Terminated(messages: seq<Bytes>): Bytes {
    if messages == [] then [] else messages[0] + [0] + Terminated(messages[1..])
  }

  function Flatten(chunks: seq<Bytes>): Bytes {
    if chunks == [] then [] else Flatten(chunks[..|chunks| - 1]) + chunks[|chunks| - 1]
  }

  /** These messages, one event for each, and text at which the reader stops. */
  ghost predicate Cuts(act: Act, s: Bytes, messages: seq<Bytes>, o: Outcome) {
    && s == Terminated(messages) + o.left
    && |messages| == |o.log|
    && (forall i :: 0 <= i < |messages| ==> 0 !in messages[i] && act(messages[i]) == Some(o.log[i]))
    && (if o.ok then 0 !in o.left else 0 in o.left && act(o.left[..Find(o.left, 0)]) == None)
  }

  lemma FindFirst<T>(a: seq<T>, x: T, b: seq<T>)
    requires x !in a
    ensures Find(a + [x] + b, x) == |a|
  {
    var s := a + [x] + b;
    assert s[|a|] == x && forall i :: 0 <= i < |a| ==> s[i] == a[i];
    assert x in s;
    var k := Find(s, x);
    assert forall i :: 0 <= i < k ==> s[..k][i] == s[i];
    assert k <= |a|;
    assert s[k] == x;
  }

  lemma HandleFirst(act: Act, message: Bytes, rest: Bytes)
    requires 0 !in message
    ensures Handle(act, message) == Outcome([], message, true)
    ensures var s, event := message + [0] + rest, act(message);
            Handle(act, s) == if event.None? then Outcome([], s, false)
                            else Handle(act, rest).(log := [event.value] + Handle(act, rest).log)
  {
    FindFirst(message, 0, rest);
    var s := message + [0] + rest;
    assert s[..|message|] == message && s[|message| + 1..] == rest;
  }

  lemma CutAtFirst(s: Bytes)
    requires 0 in s
    ensures var k := Find(s, 0); 0 !in s[..k] && s == s[..k] + [0] + s[k + 1..]
  {}

  lemma CutsMore(act: Act, message: Bytes, rest: Bytes, messages: seq<Bytes>, o: Outcome)
    requires Cuts(act, rest, messages, o) && 0 !in message && act(message).Some?
    ensures Cuts(act, message + [0] + rest, [message] + messages, o.(log := [act(message).value] + o.log))
  {
    hide Find;
    assert ([message] + messages)[1..] == messages;
  }

  /** The messages handled are the NUL-terminated pieces of the stream. */
  lemma {:induction false} HandleCuts(act: Act, s: Bytes) returns (messages: seq<Bytes>)
    ensures Cuts(act, s, messages, Handle(act, s))
    decreases |s|
  {
    hide Handle, Find;
    if 0 !in s {
      HandleFirst(act, s, []);
      assert Terminated([]) + s == s;
      return [];
    }
    var k := Find(s, 0);
    CutAtFirst(s);
    HandleFirst(act, s[..k], s[k + 1..]);
    if act(s[..k]).None? {
      return [];
    }
    var rest := HandleCuts(act, s[k + 1..]);
    CutsMore(act, s[..k], s[k + 1..], rest, Handle(act, s[k + 1..]));
    messages := [s[..k]] + rest;
  }

  /** There is only one way to cut a stream like this. */
  lemma {:induction false} CutsOnlyOnce(act: Act, s: Bytes, messages: seq<Bytes>, o: Outcome)
    requires Cuts(act, s, messages, o)
    ensures o == Handle(act, s)
    decreases |messages|
  {
    hide Handle, Find;
    if messages == [] {
      assert s == o.left;
      if o.ok {
        HandleFirst(act, s, []);
      } else {
        CutAtFirst(s);
        HandleFirst(act, s[..Find(s, 0)], s[Find(s, 0) + 1..]);
      }
    } else {
      var rest := Terminated(messages[1..]) + o.left;
      assert s == messages[0] + [0] + rest;
      HandleFirst(act, messages[0], rest);
      CutsOnlyOnce(act, rest, messages[1..], o.(log := o.log[1..]));
    }
  }

  lemma {:induction false} TerminatedEndsInNul(messages: seq<Bytes>)
    ensures messages != [] ==> Terminated(messages) != [] && Terminated(messages)[|Terminated(messages)| - 1] == 0
  {
    if |messages| > 1 {
      TerminatedEndsInNul(messages[1..]);
    }
  }

  /** When no message raises an exception, what is left is the text after the last NUL. */
  lemma {:induction false} LeftoverFollowsLastNul(act: Act, s: Bytes)
    requires Handle(act, s).ok
    ensures 0 !in Handle(act, s).left && |Handle(act, s).left| <= |s|
    ensures var n := |s| - |Handle(act, s).left|;
            s[n..] == Handle(act, s).left && (n == 0 || s[n - 1] == 0)
  {
    hide Handle;
    var messages := HandleCuts(act, s);
    TerminatedEndsInNul(messages);
  }

  /** Going on with what is left is like starting again with the whole stream. */
  lemma {:induction false} HandleMore(act: Act, s: Bytes, more: Bytes)
    ensures var was, now := Handle(act, s), Handle(act, Handle(act, s).left + more);
            Handle(act, s + more) == now.(log := was.log + now.log)
    decreases |s|
  {
    hide Handle, Find;
    if 0 !in s {
      HandleFirst(act, s, []);
      return;
    }
    var k := Find(s, 0);
    CutAtFirst(s);
    HandleFirst(act, s[..k], s[k + 1..]);
    HandleFirst(act, s[..k], s[k + 1..] + more);
    assert s + more == s[..k] + [0] + (s[k + 1..] + more);
    if act(s[..k]).Some? {
      HandleMore(act, s[k + 1..], more);
    }
  }

  // ----- the code -----

  class Fifo {
    const c: Codec
    var fifobuffer: Bytes
    var log: seq<Event>
    /** Everything that has been read so far. */
    ghost var seen: Bytes

    ghost predicate Valid()
      reads this
    {
      log == Handle(Acting(c), seen).log && fifobuffer == Handle(Acting(c), seen).left
    }

    constructor (c: Codec)
      ensures Valid() && this.c == c && seen == []
    {
      this.c, fifobuffer, log, seen := c, [], [], [];
    }

    /** False is an exception, after which the buffer still starts with the message at fault. */
    method ReadFifo(data: Bytes) returns (ok: bool)
      requires Valid()
      modifies this
      ensures Valid() && seen == old(seen) + data && ok == Handle(Acting(c), seen).ok
    {
      hide Dispatch, Handle, Find;
      HandleMore(Acting(c), seen, data);
      seen := seen + data;
      fifobuffer := fifobuffer + data;
      while fifobuffer != []
        invariant seen == old(seen) + data
        invariant Handle(Acting(c), seen) == Handle(Acting(c), fifobuffer).(log := log + Handle(Acting(c), fifobuffer).log)
        decreases |fifobuffer|
      {
        var k := Find(fifobuffer, 0);
        if k == |fifobuffer| {
          break;
        }
        CutAtFirst(fifobuffer);
        HandleFirst(Acting(c), fifobuffer[..k], fifobuffer[k + 1..]);
        var event := Dispatch(c, fifobuffer[..k]);
        if event.None? {
          return false;
        }
        log := log + [event.value];
        fifobuffer := fifobuffer[k + 1..];
      }
      HandleFirst(Acting(c), fifobuffer, []);
      return true;
    }
  }

  /** However the stream is cut into chunks, only the whole of it matters. */
  method ReadAll(c: Codec, chunks: seq<Bytes>) returns (o: Outcome)
    ensures o.log == Handle(Acting(c), Flatten(chunks)).log && o.left == Handle(Acting(c), Flatten(chunks)).left
    ensures chunks != [] ==> o == Handle(Acting(c), Flatten(chunks))
  {
    var fifo := new Fifo(c);
    var ok := true;
    for i := 0 to |chunks|
      invariant fifo.Valid() && fresh(fifo) && fifo.c == c && fifo.seen == Flatten(chunks[..i])
      invariant ok == Handle(Acting(c), fifo.seen).ok
    {
      assert chunks[..i + 1][..i] == chunks[..i];
      ok := fifo.ReadFifo(chunks[i]);
    }
    assert chunks[..|chunks|] == chunks;
    return Outcome(fifo.log, fifo.fifobuffer, ok);
  }
}
