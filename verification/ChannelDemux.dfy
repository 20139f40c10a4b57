/**
 One WebSocket carries several channels; KubernetesWebSocketsClient splits its frames into a buffer a
 channel, which several readers then drain in any order.
 */
module ChannelDemux {
  import opened Wrappers

  /** What one look at the socket finds. Frame data is taken after decoding. */
  datatype Event =
    | Disconnected
    | Quiet
    | CloseFrame
    | DataFrame(data: string)
    | OtherFrame

  /** What the peer and the network do, one event for each look. */
  type Wire = nat -> Event

  /** `looks` counts how often the socket was looked at. */
  datatype State = State(open: bool, channels: map<int, string>, looks: nat)

  function Buffer(channels: map<int, string>, ch: int): string {
    if ch in channels then channels[ch] else ""
  }

  // ---------------------------------------------------------------- what arrives

  /** The text a frame carries for a channel: its first character names the channel. */
  function Payload(e: Event, ch: int): string {
    if e.DataFrame? && |e.data| > 1 && e.data[0] as int == ch then e.data[1..] else ""
  }

  /** Everything that arrived for a channel. */
  function Received(wire: Wire, looks: nat, ch: int): string {
    if looks == 0 then "" else Received(wire, looks - 1, ch) + Payload(wire(looks - 1), ch)
  }

  // ---------------------------------------------------------------- the operations on values

  function Updated(wire: Wire, s: State): State {
    if !s.open then s else
    match wire(s.looks)
    case Disconnected => State(false, s.channels, s.looks + 1)
    case CloseFrame => State(false, s.channels, s.looks + 1)
    case Quiet => State(true, s.channels, s.looks + 1)
    case OtherFrame => State(true, s.channels, s.looks + 1)
    case DataFrame(data) =>
      if |data| <= 1 then State(true, s.channels, s.looks + 1) else
      var ch := data[0] as int;
      State(true, s.channels[ch := Buffer(s.channels, ch) + data[1..]], s.looks + 1)
  }

  function UpdatedTimes(wire: Wire, s: State, k: nat): State
    decreases k
  {
    if k == 0 then s else UpdatedTimes(wire, Updated(wire, s), k - 1)
  }

  /** The position of the first newline, or the length. */
  function Newline(text: string): (i: nat)
    ensures i <= |text|
    ensures i < |text| ==> text[i] == '\n'
    ensures '\n' !in text[..i]
  {
    if text == "" || text[0] == '\n' then 0 else
    var i := Newline(text[1..]);
    assert text[..1 + i] == [text[0]] + text[1..][..i];
    1 + i
  }

  predicate HasLine(s: State, ch: int) {
    '\n' in Buffer(s.channels, ch)
  }

  function Put(channels: map<int, string>, ch: int, text: string): map<int, string> {
    if text == "" then channels - {ch} else channels[ch := text]
  }

  /** The first line of the buffer is taken out. */
  function TakeLine(s: State, ch: int): (State, Option<string>)
    requires HasLine(s, ch)
  {
    var text := Buffer(s.channels, ch);
    var i := Newline(text);
    assert i < |text| by { assert text[..|text|] == text; }
    (s.(channels := Put(s.channels, ch, text[i + 1..])), Some(text[..i]))
  }

  /** readline_channel with a timeout, given the number of turns it leaves time for. */
  function Line(wire: Wire, s: State, ch: int, turns: nat): (State, Option<string>)
    decreases turns
  {
    if !s.open || turns == 0 then (s, None)
    else if HasLine(s, ch) then TakeLine(s, ch)
    else Line(wire, Updated(wire, s), ch, turns - 1)
  }

  /** Without a timeout it would wait for an infinite time, which polling refuses: the last part says
      that it raises. */
  function LineNow(wire: Wire, s: State, ch: int): (State, Option<string>, bool) {
    if !s.open then (s, None, false)
    else if HasLine(s, ch) then (TakeLine(s, ch).0, TakeLine(s, ch).1, false)
    else if wire(s.looks).Disconnected? then (Updated(wire, s), None, false)
    else (s, None, true)
  }

  function Readlined(wire: Wire, s: State, ch: int, timeout: Option<nat>): (State, Option<string>, bool) {
    match timeout
    case Some(turns) => (Line(wire, s, ch, turns).0, Line(wire, s, ch, turns).1, false)
    case None => LineNow(wire, s, ch)
  }

  function ChannelName(ch: int): Option<string> {
    if ch == 0 then Some("stdin")
    else if ch == 1 then Some("stdout")
    else if ch == 2 then Some("stderr")
    else if ch == 3 then Some("error")
    else None
  }

  /** Is `out` what read_all returns for these buffers. */
  ghost predicate Named(channels: map<int, string>, out: map<string, string>) {
    && (forall ch :: ch in channels ==> ChannelName(ch).Some? && ChannelName(ch).value in out && out[ChannelName(ch).value] == channels[ch])
    && (forall name :: name in out ==> exists ch :: ch in channels && ChannelName(ch) == Some(name))
  }

  // ---------------------------------------------------------------- the client

  class Client {
    const wire: Wire
    var connected: bool
    var channels: map<int, string>
    var looks: nat

    constructor (wire: Wire)
      ensures this.wire == wire && Abstract() == State(true, map[], 0)
    {
      this.wire := wire;
      connected, channels, looks := true, map[], 0;
    }

    ghost function Abstract(): State
      reads this
    {
      State(connected, channels, looks)
    }

    method Update()
      modifies this
      ensures Abstract() == Updated(wire, old(Abstract()))
    {
      if !connected {
        return;
      }
      var e := wire(looks);
      looks := looks + 1;
      match e
      case Disconnected => connected := false;
      case CloseFrame => connected := false;
      case Quiet =>
      case OtherFrame =>
      case DataFrame(data) =>
        if |data| > 1 {
          var ch, text := data[0] as int, data[1..];
          if ch !in channels {
            assert "" + text == text;
            channels := channels[ch := text];
          } else {
            channels := channels[ch := channels[ch] + text];
          }
        }
    }

    method PeekChannel(ch: int) returns (r: string)
      modifies this
      ensures Abstract() == Updated(wire, old(Abstract())) && r == Buffer(channels, ch)
    {
      Update();
      if ch in channels {
        return channels[ch];
      }
      return "";
    }

    /** Looks at the socket only if nothing is buffered, and empties the buffer. */
    method ReadChannel(ch: int) returns (r: string)
      modifies this
      ensures var s := if ch in old(channels) then old(Abstract()) else Updated(wire, old(Abstract()));
              r == Buffer(s.channels, ch) && Abstract() == s.(channels := s.channels - {ch})
    {
      if ch !in channels {
        r := PeekChannel(ch);
      } else {
        r := channels[ch];
      }
      if ch in channels {
        channels := channels - {ch};
      } else {
        assert channels - {ch} == channels;
      }
    }

    method ReadlineChannel(ch: int, timeout: Option<nat>) returns (r: Option<string>, raised: bool)
      modifies this
      ensures (Abstract(), r, raised) == Readlined(wire, old(Abstract()), ch, timeout)
    {
      var left := timeout;
      while connected && left != Some(0)
        invariant timeout.Some? ==> left.Some? && Line(wire, Abstract(), ch, left.value) == Line(wire, old(Abstract()), ch, timeout.value)
        invariant timeout.None? ==> left.None? && (Abstract() == old(Abstract()) || (!connected && LineNow(wire, old(Abstract()), ch) == (Abstract(), None, false)))
        decreases connected, if left.Some? then left.value else 0
      {
        if ch in channels {
          var data := channels[ch];
          if '\n' in data {
            var index := Newline(data);
            assert index < |data| by { assert data[..|data|] == data; }
            var ret := data[..index];
            data := data[index + 1..];
            if data != "" {
              channels := channels[ch := data];
            } else {
              channels := channels - {ch};
            }
            return Some(ret), false;
          }
        }
        if left.None? && !wire(looks).Disconnected? {
          return None, true;
        }
        Update();
        left := if left.Some? then Some(left.value - 1) else None;
      }
      return None, false;
    }

    /** Fails on a channel without a name, and then keeps everything. */
    method ReadAll() returns (r: Option<map<string, string>>)
      modifies this
      ensures Abstract() == Step(wire, old(Abstract()), Op.ReadAll)
      ensures r.Some? <==> forall ch :: ch in old(channels) ==> ChannelName(ch).Some?
      ensures r.Some? ==> Named(old(channels), r.value)
    {
      var out: map<string, string> := map[];
      var todo := channels.Keys;
      while todo != {}
        invariant channels == old(channels) && connected == old(connected) && looks == old(looks)
        invariant todo <= channels.Keys
        invariant Named(map ch | ch in channels && ch !in todo :: channels[ch], out)
        decreases |todo|
      {
        assert exists ch :: ch in todo by {
          if forall ch :: ch !in todo {
            assert false;
          }
        }
        var ch :| ch in todo;
        if ChannelName(ch).None? {
          return None;
        }
        todo := todo - {ch};
        NamedInsert(map c | c in channels && c !in todo + {ch} :: channels[c], out, ch, channels[ch]);
        assert (map c | c in channels && c !in todo :: channels[c]) == (map c | c in channels && c !in todo + {ch} :: channels[c])[ch := channels[ch]];
        out := out[ChannelName(ch).value := channels[ch]];
      }
      assert (map ch | ch in channels && ch !in todo :: channels[ch]) == channels;
      channels := map[];
      return Some(out);
    }

    method RunForever(turns: nat) returns (timedOut: bool)
      modifies this
      ensures Abstract() == UpdatedTimes(wire, old(Abstract()), turns)
      ensures timedOut == connected
    {
      var left := turns;
      while connected && left > 0
        invariant UpdatedTimes(wire, Abstract(), left) == UpdatedTimes(wire, old(Abstract()), turns)
        decreases left
      {
        Update();
        left := left - 1;
      }
      if !connected {
        ClosedStays(wire, Abstract(), left);
      }
      return connected;
    }

    method Close()
      modifies this
      ensures Abstract() == old(Abstract()).(open := false)
    {
      connected := false;
    }
  }

  lemma NamedInsert(channels: map<int, string>, out: map<string, string>, ch: int, text: string)
    requires Named(channels, out) && ch !in channels && ChannelName(ch).Some?
    ensures Named(channels[ch := text], out[ChannelName(ch).value := text])
  {
    var name := ChannelName(ch).value;
    var more := channels[ch := text];
    forall n | n in out[name := text] ensures exists c :: c in more && ChannelName(c) == Some(n) {
      if n == name {
        assert ch in more;
      } else {
        var c :| c in channels && ChannelName(c) == Some(n);
        assert c in more;
      }
    }
  }

  lemma {:induction false} ClosedStays(wire: Wire, s: State, k: nat)
    requires !s.open
    ensures UpdatedTimes(wire, s, k) == s
  {
    if k > 0 {
      ClosedStays(wire, s, k - 1);
    }
  }

  /** The two events that end the connection. */
  predicate Ends(e: Event) {
    e.CloseFrame? || e.Disconnected?
  }

  /** A connection is open after k looks exactly if none of them met its end; else the looks stop right
      after the first that did. */
  lemma {:induction false} OpenExactly(wire: Wire, s: State, k: nat)
    requires s.open
    ensures var t := UpdatedTimes(wire, s, k);
            && (t.open <==> forall i :: s.looks <= i < s.looks + k ==> !Ends(wire(i)))
            && s.looks <= t.looks <= s.looks + k
            && (if t.open then t.looks == s.looks + k else s.looks < t.looks && Ends(wire(t.looks - 1)))
            && (forall i :: s.looks <= i < t.looks - 1 ==> !Ends(wire(i)))
    decreases k
  {
    if k > 0 {
      var next := Updated(wire, s);
      if next.open {
        OpenExactly(wire, next, k - 1);
      } else {
        ClosedStays(wire, next, k - 1);
      }
    }
  }

  /** The frame that write_channel sends: the character of the channel, then the text. */
  function Written(channel: char, text: string): Event {
    DataFrame([channel] + text)
  }

  /** What is written to a channel arrives on that channel, and on no other. */
  lemma WrittenArrives(wire: Wire, s: State, channel: char, text: string, ch: int)
    requires s.open && wire(s.looks) == Written(channel, text)
    ensures Buffer(Updated(wire, s).channels, ch) == Buffer(s.channels, ch) + if ch == channel as int then text else ""
    ensures Payload(wire(s.looks), ch) == if ch == channel as int then text else ""
  {
    assert ([channel] + text)[1..] == text;
    assert Buffer(s.channels, ch) + "" == Buffer(s.channels, ch);
  }

  // ---------------------------------------------------------------- readline

  predicate Ready(wire: Wire, s: State, ch: int, k: nat) {
    var t := UpdatedTimes(wire, s, k);
    t.open && HasLine(t, ch)
  }

  /** readline returns a line exactly if, before its time is over, some number of looks leaves the
      connection open and a newline in the channel's buffer; so never on a closed connection, even if
      whole lines are still buffered. */
  lemma {:induction false} ReadlineReturns(wire: Wire, s: State, ch: int, turns: nat)
    ensures Line(wire, s, ch, turns).1.Some? <==> exists k :: 0 <= k < turns && Ready(wire, s, ch, k)
    decreases turns
  {
    hide Updated, HasLine;
    if !s.open {
      forall k: nat ensures UpdatedTimes(wire, s, k) == s {
        ClosedStays(wire, s, k);
      }
    } else if turns > 0 && HasLine(s, ch) {
      assert Ready(wire, s, ch, 0);
    } else if turns > 0 {
      var next := Updated(wire, s);
      assert !Ready(wire, s, ch, 0);
      assert forall k: nat :: k > 0 ==> Ready(wire, s, ch, k) == Ready(wire, next, ch, k - 1);
      ReadlineReturns(wire, next, ch, turns - 1);
      if k :| 0 <= k < turns - 1 && Ready(wire, next, ch, k) {
        assert Ready(wire, s, ch, k + 1);
      }
    }
  }

  /** Without a timeout a call returns only a line that is buffered already, and otherwise raises unless
      the connection is known or found to be closed. */
  lemma NoTimeoutExactly(wire: Wire, s: State, ch: int)
    ensures Readlined(wire, s, ch, None).1.Some? <==> s.open && HasLine(s, ch)
    ensures Readlined(wire, s, ch, None).2 <==> s.open && !HasLine(s, ch) && !wire(s.looks).Disconnected?
    ensures Readlined(wire, s, ch, None).2 ==> Readlined(wire, s, ch, None).0 == s
  {
  }

  // ---------------------------------------------------------------- runs

  datatype Op =
    | Update
    | Peek(ch: int)
    | Read(ch: int)
    | Readline(ch: int, timeout: Option<nat>)
    | ReadAll
    | RunForever(turns: nat)
    | Close

  function Step(wire: Wire, s: State, op: Op): State {
    match op
    case Update => Updated(wire, s)
    case Peek(_) => Updated(wire, s)
    case Read(ch) => var t := if ch in s.channels then s else Updated(wire, s); t.(channels := t.channels - {ch})
    case Readline(ch, timeout) => Readlined(wire, s, ch, timeout).0
    case ReadAll => if forall ch :: ch in s.channels ==> ChannelName(ch).Some? then s.(channels := map[]) else s
    case RunForever(turns) => UpdatedTimes(wire, s, turns)
    case Close => s.(open := false)
  }

  function WithNewline(r: Option<string>): string {
    match r
    case Some(line) => line + "\n"
    case None => ""
  }

  /** The text an operation hands to its caller for good, for a channel. readline strips a newline,
      which is put back here. */
  function Delivered(wire: Wire, s: State, op: Op, ch: int): string {
    match op
    case Update => ""
    case Peek(_) => ""
    case Read(c) => if c != ch then "" else Buffer((if c in s.channels then s else Updated(wire, s)).channels, ch)
    case Readline(c, timeout) => if c != ch then "" else WithNewline(Readlined(wire, s, c, timeout).1)
    case ReadAll => if forall c :: c in s.channels ==> ChannelName(c).Some? then Buffer(s.channels, ch) else ""
    case RunForever(_) => ""
    case Close => ""
  }

  function After(wire: Wire, ops: seq<Op>): State {
    if ops == [] then State(true, map[], 0) else Step(wire, After(wire, ops[..|ops| - 1]), ops[|ops| - 1])
  }

  function DeliveredBy(wire: Wire, ops: seq<Op>, ch: int): string {
    if ops == [] then "" else
    var before := ops[..|ops| - 1];
    DeliveredBy(wire, before, ch) + Delivered(wire, After(wire, before), ops[|ops| - 1], ch)
  }

  ghost predicate NoneEmpty(s: State) {
    forall ch :: ch in s.channels ==> s.channels[ch] != ""
  }

  /** What arrived while one state became another. */
  ghost predicate Gained(wire: Wire, s: State, t: State, ch: int, given: string) {
    && s.looks <= t.looks
    && exists text :: Received(wire, t.looks, ch) == Received(wire, s.looks, ch) + text
                      && Buffer(s.channels, ch) + text == given + Buffer(t.channels, ch)
  }

  lemma GainedUpdate(wire: Wire, s: State, ch: int)
    ensures Gained(wire, s, Updated(wire, s), ch, "")
    ensures NoneEmpty(s) ==> NoneEmpty(Updated(wire, s))
  {
    var t := Updated(wire, s);
    var text := if s.open then Payload(wire(s.looks), ch) else "";
    assert Received(wire, t.looks, ch) == Received(wire, s.looks, ch) + text;
    assert Buffer(s.channels, ch) + text == "" + Buffer(t.channels, ch);
  }

  /** had + b is what was known to arrive; text arrived since. */
  lemma Regroup(had: string, b: string, all: string, text: string, given: string, c: string)
    requires had + b == all && b + text == given + c
    ensures (had + given) + c == all + text
  {
    assert (had + given) + c == had + (given + c);
    assert had + (b + text) == (had + b) + text;
  }

  lemma GainedJoin(wire: Wire, s: State, t: State, u: State, ch: int, given: string)
    requires Gained(wire, s, t, ch, "") && Gained(wire, t, u, ch, given)
    ensures Gained(wire, s, u, ch, given)
  {
    hide Received, Buffer;
    var b0, b1, b2 := Buffer(s.channels, ch), Buffer(t.channels, ch), Buffer(u.channels, ch);
    var x :| Received(wire, t.looks, ch) == Received(wire, s.looks, ch) + x && b0 + x == "" + b1;
    var y :| Received(wire, u.looks, ch) == Received(wire, t.looks, ch) + y && b1 + y == given + b2;
    assert "" + b1 == b1;
    assert Received(wire, u.looks, ch) == Received(wire, s.looks, ch) + (x + y);
    assert b0 + (x + y) == (b0 + x) + y;
  }

  /** Handing over a first part of the buffer, with nothing arriving. */
  lemma GainedTake(wire: Wire, s: State, t: State, ch: int, given: string)
    requires s.looks == t.looks && Buffer(s.channels, ch) == given + Buffer(t.channels, ch)
    ensures Gained(wire, s, t, ch, given)
  {
    assert Received(wire, t.looks, ch) == Received(wire, s.looks, ch) + "";
    assert Buffer(s.channels, ch) + "" == given + Buffer(t.channels, ch);
  }

  lemma {:induction false} GainedTimes(wire: Wire, s: State, k: nat, ch: int)
    ensures Gained(wire, s, UpdatedTimes(wire, s, k), ch, "")
    ensures NoneEmpty(s) ==> NoneEmpty(UpdatedTimes(wire, s, k))
    decreases k
  {
    hide Gained, NoneEmpty, Updated;
    if k == 0 {
      GainedTake(wire, s, s, ch, "");
    } else {
      GainedUpdate(wire, s, ch);
      GainedTimes(wire, Updated(wire, s), k - 1, ch);
      GainedJoin(wire, s, Updated(wire, s), UpdatedTimes(wire, s, k), ch, "");
    }
  }

  lemma GainedTakeLine(wire: Wire, s: State, c: int, ch: int)
    requires HasLine(s, c)
    ensures var (t, r) := TakeLine(s, c);
            Gained(wire, s, t, ch, if c == ch then WithNewline(r) else "") && (NoneEmpty(s) ==> NoneEmpty(t))
  {
    hide Gained, Updated, Received;
    var (t, r) := TakeLine(s, c);
    var text := Buffer(s.channels, c);
    var i := Newline(text);
    assert i < |text| by { assert text[..|text|] == text; }
    assert text == (text[..i] + "\n") + text[i + 1..];
    assert Buffer(t.channels, c) == text[i + 1..];
    GainedTake(wire, s, t, ch, if c == ch then WithNewline(r) else "");
  }

  lemma {:induction false} GainedLine(wire: Wire, s: State, c: int, turns: nat, ch: int)
    ensures var (t, r) := Line(wire, s, c, turns);
            Gained(wire, s, t, ch, if c == ch then WithNewline(r) else "") && (NoneEmpty(s) ==> NoneEmpty(t))
    decreases turns
  {
    hide Gained, Updated, Received, TakeLine, HasLine, NoneEmpty;
    var (t, r) := Line(wire, s, c, turns);
    if !s.open || turns == 0 {
      GainedTake(wire, s, s, ch, "");
    } else if HasLine(s, c) {
      GainedTakeLine(wire, s, c, ch);
    } else {
      GainedUpdate(wire, s, ch);
      GainedLine(wire, Updated(wire, s), c, turns - 1, ch);
      GainedJoin(wire, s, Updated(wire, s), t, ch, if c == ch then WithNewline(r) else "");
    }
  }

  lemma GainedReadline(wire: Wire, s: State, c: int, timeout: Option<nat>, ch: int)
    ensures var (t, r, _) := Readlined(wire, s, c, timeout);
            Gained(wire, s, t, ch, if c == ch then WithNewline(r) else "") && (NoneEmpty(s) ==> NoneEmpty(t))
  {
    hide Gained, Updated, Received, TakeLine, HasLine, NoneEmpty, Line;
    match timeout
    case Some(turns) => GainedLine(wire, s, c, turns, ch);
    case None =>
      GainedTake(wire, s, s, ch, "");
      GainedUpdate(wire, s, ch);
      if HasLine(s, c) {
        GainedTakeLine(wire, s, c, ch);
      }
  }

  lemma GainedStep(wire: Wire, s: State, op: Op, ch: int)
    ensures Gained(wire, s, Step(wire, s, op), ch, Delivered(wire, s, op, ch))
    ensures NoneEmpty(s) ==> NoneEmpty(Step(wire, s, op))
  {
    hide Gained, Updated, Received, UpdatedTimes, Readlined;
    match op
    case Update => GainedUpdate(wire, s, ch);
    case Peek(_) => GainedUpdate(wire, s, ch);
    case Read(c) =>
      var t := if c in s.channels then s else Updated(wire, s);
      if t == s {
        GainedTake(wire, s, s, ch, "");
      } else {
        GainedUpdate(wire, s, ch);
      }
      GainedTake(wire, t, Step(wire, s, op), ch, Delivered(wire, s, op, ch));
      GainedJoin(wire, s, t, Step(wire, s, op), ch, Delivered(wire, s, op, ch));
    case Readline(c, timeout) => GainedReadline(wire, s, c, timeout, ch);
    case ReadAll => GainedTake(wire, s, Step(wire, s, op), ch, Delivered(wire, s, op, ch));
    case RunForever(turns) => GainedTimes(wire, s, turns, ch);
    case Close => GainedTake(wire, s, Step(wire, s, op), ch, "");
  }

  /** However the operations interleave, what a channel's readers were given followed by what is still
      buffered is what arrived for the channel, in order; and no buffer is empty. */
  lemma {:induction false} NothingLostOrMixed(wire: Wire, ops: seq<Op>, ch: int)
    ensures var s := After(wire, ops);
            && DeliveredBy(wire, ops, ch) + Buffer(s.channels, ch) == Received(wire, s.looks, ch)
            && NoneEmpty(s)
  {
    if ops == [] {
      assert "" + "" == Received(wire, 0, ch);
    } else {
      hide Step, Delivered, Received, Buffer;
      var before, op := ops[..|ops| - 1], ops[|ops| - 1];
      var s, t := After(wire, before), After(wire, ops);
      NothingLostOrMixed(wire, before, ch);
      GainedStep(wire, s, op, ch);
      var given, had := Delivered(wire, s, op, ch), DeliveredBy(wire, before, ch);
      var text :| Received(wire, t.looks, ch) == Received(wire, s.looks, ch) + text
                  && Buffer(s.channels, ch) + text == given + Buffer(t.channels, ch);
      Regroup(had, Buffer(s.channels, ch), Received(wire, s.looks, ch), text, given, Buffer(t.channels, ch));
    }
  }

  // ---------------------------------------------------------------- a channel read by lines

  /** What readline has returned for a channel. */
  function Lines(wire: Wire, ops: seq<Op>, ch: int): seq<string> {
    if ops == [] then [] else
    var before, op := ops[..|ops| - 1], ops[|ops| - 1];
    Lines(wire, before, ch) +
      if !op.Readline? || op.ch != ch then [] else
      match Readlined(wire, After(wire, before), ch, op.timeout).1
      case Some(line) => [line]
      case None => []
  }

  /** The complete lines of a text. */
  function Complete(text: string): seq<string>
    decreases |text|
  {
    var i := Newline(text);
    if i == |text| then [] else [text[..i]] + Complete(text[i + 1..])
  }

  function Joined(lines: seq<string>): string {
    if lines == [] then "" else lines[0] + "\n" + Joined(lines[1..])
  }

  lemma {:induction false} JoinedSnoc(lines: seq<string>, line: string)
    ensures Joined(lines + [line]) == Joined(lines) + (line + "\n")
  {
    if lines == [] {
      assert [line][1..] == [];
      assert Joined([line]) == line + "\n" + "";
      assert [] + [line] == [line];
    } else {
      assert (lines + [line])[1..] == lines[1..] + [line];
      JoinedSnoc(lines[1..], line);
    }
  }

  lemma {:induction false} NewlineAfter(line: string, tail: string)
    requires '\n' !in line
    ensures Newline(line + "\n" + tail) == |line|
  {
    if line != "" {
      assert (line + "\n" + tail)[1..] == line[1..] + "\n" + tail;
      NewlineAfter(line[1..], tail);
      assert line[0] in line;
    }
  }

  lemma {:induction false} JoinedIsComplete(lines: seq<string>, rest: string)
    requires forall l :: l in lines ==> '\n' !in l
    ensures lines <= Complete(Joined(lines) + rest)
  {
    if lines != [] {
      var text := Joined(lines) + rest;
      var tail := Joined(lines[1..]) + rest;
      assert text == lines[0] + "\n" + tail;
      var i := Newline(text);
      NewlineAfter(lines[0], tail);
      assert text[..i] == lines[0] && text[i + 1..] == tail;
      JoinedIsComplete(lines[1..], rest);
    }
  }

  lemma {:induction false} LineHasNoNewline(wire: Wire, s: State, ch: int, turns: nat)
    ensures Line(wire, s, ch, turns).1.Some? ==> '\n' !in Line(wire, s, ch, turns).1.value
    decreases turns
  {
    hide Updated;
    if s.open && turns > 0 && !HasLine(s, ch) {
      LineHasNoNewline(wire, Updated(wire, s), ch, turns - 1);
    }
  }

  lemma ReadlinedHasNoNewline(wire: Wire, s: State, ch: int, timeout: Option<nat>)
    ensures var r := Readlined(wire, s, ch, timeout).1; r.Some? ==> '\n' !in r.value
  {
    if timeout.Some? {
      LineHasNoNewline(wire, s, ch, timeout.value);
    }
  }

  predicate ByLines(ops: seq<Op>, ch: int) {
    forall i :: 0 <= i < |ops| ==> ops[i] != ReadAll && ops[i] != Read(ch)
  }

  lemma {:induction false} LinesAreDelivered(wire: Wire, ops: seq<Op>, ch: int)
    requires ByLines(ops, ch)
    ensures DeliveredBy(wire, ops, ch) == Joined(Lines(wire, ops, ch))
    ensures forall l :: l in Lines(wire, ops, ch) ==> '\n' !in l
  {
    if ops != [] {
      var before, op := ops[..|ops| - 1], ops[|ops| - 1];
      var s := After(wire, before);
      LinesAreDelivered(wire, before, ch);
      assert op == ops[|ops| - 1] && op != ReadAll && op != Read(ch);
      hide After, Readlined, Updated;
      if op.Readline? && op.ch == ch {
        ReadlinedHasNoNewline(wire, s, ch, op.timeout);
        match Readlined(wire, s, ch, op.timeout).1
        case Some(line) => JoinedSnoc(Lines(wire, before, ch), line);
        case None => assert Lines(wire, ops, ch) == Lines(wire, before, ch);
      } else {
        assert Lines(wire, ops, ch) == Lines(wire, before, ch);
      }
    }
  }

  /** A channel drained by readline alone gives the complete lines of what arrived, from the first on,
      none skipped, repeated or cut. */
  lemma LinesInOrder(wire: Wire, ops: seq<Op>, ch: int)
    requires ByLines(ops, ch)
    ensures Lines(wire, ops, ch) <= Complete(Received(wire, After(wire, ops).looks, ch))
  {
    NothingLostOrMixed(wire, ops, ch);
    LinesAreDelivered(wire, ops, ch);
    JoinedIsComplete(Lines(wire, ops, ch), Buffer(After(wire, ops).channels, ch));
  }
}
