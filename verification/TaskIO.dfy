/** The dispatch thread of a task's I/O (fatbuildr/tasks/__init__.py): output and
    logs are broadcast to the connected consoles and appended to the journal, and
    a console that connects is first sent a replay of the journal. */
module TaskIO {
  import opened Wrappers
  import opened ConsoleMessage

  type Fd = nat

  datatype Event =
    | Connect(fd: Fd)
    | HangUp(fd: Fd)
    | Log(data: Bytes)
    | Output(data: Bytes)
    | Input(fd: Fd, data: Bytes)

  /** Some list of messages whose frames these bytes are. */
  ghost predicate FramesOf(ms: seq<Message>, bs: Bytes) {
    AllPackable(ms) && Encode(ms) == bs
  }

  ghost predicate Canonical(bs: Bytes) {
    exists ms :: FramesOf(ms, bs)
  }

  /** ConsoleMessage.read() on a journal file: os.read returns at most what is
      left, so the last frame may have less data than its header says. */
  function FileHead(bs: Bytes): (m: Message)
    requires |bs| >= HEADER
    ensures Packable(m) && HEADER + Size(m) <= |bs|
  {
    var size := UnpackSize(bs[..HEADER]);
    var end := if HEADER + size <= |bs| then HEADER + size else |bs|;
    Message(UnpackCmd(bs[..HEADER]), if size == 0 then None else Some(bs[HEADER..end]))
  }

  function FileTail(bs: Bytes): Bytes
    requires |bs| >= HEADER
  {
    bs[HEADER + Size(FileHead(bs))..]
  }

  /** What a replay of the journal sends, and whether it raises on the way:
      struct.unpack does on a header cut short. */
  function Replayed(bs: Bytes): (Bytes, bool)
    decreases |bs|
  {
    if bs == [] then ([], false)
    else if |bs| < HEADER then ([], true)
    else var (rest, raised) := Replayed(FileTail(bs)); (Raw(FileHead(bs)) + rest, raised)
  }

  /** The outcome of a replay that sends `sent`, then goes on as `rest`. */
  function AfterSent(sent: Bytes, rest: (Bytes, bool)): (Bytes, bool) {
    (sent + rest.0, rest.1)
  }

  /** One frame of a replay. */
  lemma ReplayStep(sent: Bytes, bs: Bytes, at: nat)
    requires at + HEADER <= |bs|
    ensures var m := FileHead(bs[at..]);
            && at + HEADER + Size(m) <= |bs|
            && AfterSent(sent, Replayed(bs[at..])) == AfterSent(sent + Raw(m), Replayed(bs[at + HEADER + Size(m)..]))
  {
    var m := FileHead(bs[at..]);
    assert FileTail(bs[at..]) == bs[at + HEADER + Size(m)..];
    assert sent + (Raw(m) + Replayed(FileTail(bs[at..])).0) == (sent + Raw(m)) + Replayed(FileTail(bs[at..])).0;
  }

  lemma ReplayStarts(bs: Bytes)
    ensures AfterSent([], Replayed(bs[0..])) == Replayed(bs)
  {
    assert bs[0..] == bs && [] + Replayed(bs).0 == Replayed(bs).0;
  }

  lemma ReplayEnds(sent: Bytes, bs: Bytes, at: nat)
    requires at <= |bs| < at + HEADER
    ensures AfterSent(sent, Replayed(bs[at..])) == (sent, at < |bs|)
  {
    assert sent + [] == sent;
  }

  /** What a replay sends is at most as long as the journal, and its own frames. */
  lemma {:induction false} ReplayedFrames(bs: Bytes)
    ensures Canonical(Replayed(bs).0)
    ensures |Replayed(bs).0| <= |bs|
    ensures Replayed(bs).1 ==> |Replayed(bs).0| < |bs|
    decreases |bs|
  {
    if |bs| < HEADER {
      assert FramesOf([], []);
    } else {
      ReplayedFrames(FileTail(bs));
      var m, rest := FileHead(bs), Replayed(FileTail(bs)).0;
      var ms :| FramesOf(ms, rest);
      assert ([m] + ms)[1..] == ms;
      assert FramesOf([m] + ms, Raw(m) + rest);
    }
  }

  lemma {:induction false} ReplayOfFrames(ms: seq<Message>)
    requires AllPackable(ms)
    ensures Replayed(Encode(ms)) == (Encode(ms), false)
  {
    if ms != [] {
      var bs, rest := Encode(ms), Encode(ms[1..]);
      ReplayOfFrames(ms[1..]);
      RawParts(ms[0], rest);
      assert FileHead(bs) == Normal(ms[0]);
      assert Raw(Normal(ms[0])) == Raw(ms[0]);
    }
  }

  lemma ReplayOfOne(m: Message, rest: Bytes)
    requires Packable(m)
    ensures Replayed(Raw(m) + rest) == (Raw(m) + Replayed(rest).0, Replayed(rest).1)
  {
    RawParts(m, rest);
    assert FileHead(Raw(m) + rest) == Normal(m);
    assert Raw(Normal(m)) == Raw(m);
  }

  /** What is left when a journal ends inside a frame: less than a header, or less data
      than the header says. */
  predicate CutHeader(cut: Bytes) {
    0 < |cut| < 8
  }

  predicate CutData(cut: Bytes) {
    |cut| >= 8 && |cut| - 8 < UnpackSize(cut[..8])
  }

  lemma CutHead(cut: Bytes)
    requires CutData(cut)
    ensures FileHead(cut) == Message(UnpackCmd(cut[..8]), Some(cut[8..])) && FileTail(cut) == []
  {
    assert cut[8..|cut|] == cut[8..];
  }

  lemma ReplayOfCutData(cut: Bytes)
    requires CutData(cut)
    ensures Replayed(cut) == (Raw(Message(UnpackCmd(cut[..8]), Some(cut[8..]))), false)
  {
    CutHead(cut);
    var raw := Raw(FileHead(cut));
    assert Replayed(cut) == (raw + Replayed([]).0, Replayed([]).1);
    assert raw + [] == raw;
  }

  lemma Regroup(a: Bytes, b: Bytes, c: Bytes)
    ensures a + (b + c) == (a + b) + c
  {
  }

  lemma {:induction false} ReplayAfterFrames(ms: seq<Message>, rest: Bytes)
    requires AllPackable(ms)
    ensures Replayed(Encode(ms) + rest) == (Encode(ms) + Replayed(rest).0, Replayed(rest).1)
    decreases ms
  {
    if ms == [] {
      assert Encode(ms) + rest == rest && Encode(ms) + Replayed(rest).0 == Replayed(rest).0;
    } else {
      var raw, later := Raw(ms[0]), Encode(ms[1..]);
      ReplayAfterFrames(ms[1..], rest);
      ReplayOfOne(ms[0], later + rest);
      Regroup(raw, later, rest);
      Regroup(raw, later, Replayed(rest).0);
    }
  }

  /** A journal that ends inside a frame: a cut header raises after the frames, and cut
      data is sent under a header of its own size. */
  lemma ReplayOfCut(ms: seq<Message>, cut: Bytes)
    requires AllPackable(ms)
    ensures CutHeader(cut) ==> Replayed(Encode(ms) + cut) == (Encode(ms), true)
    ensures CutData(cut) ==>
              Replayed(Encode(ms) + cut) == (Encode(ms) + Raw(Message(UnpackCmd(cut[..8]), Some(cut[8..]))), false)
  {
    ReplayAfterFrames(ms, cut);
    if CutHeader(cut) {
      assert Encode(ms) + [] == Encode(ms);
    } else if CutData(cut) {
      ReplayOfCutData(cut);
    }
  }

  /** A replay sends exactly the journal if and only if the journal is made of
      whole frames as the codec writes them. */
  lemma ReplayIsExact(bs: Bytes)
    ensures Replayed(bs) == (bs, false) <==> Canonical(bs)
  {
    ReplayedFrames(bs);
    if Canonical(bs) {
      var ms :| FramesOf(ms, bs);
      ReplayOfFrames(ms);
    }
  }

  lemma {:induction false} CanonicalAppend(a: Bytes, ms: seq<Message>, b: Bytes)
    requires FramesOf(ms, a) && Canonical(b)
    ensures Canonical(a + b)
    decreases ms
  {
    if ms == [] {
      assert a + b == b;
    } else {
      var rest := Encode(ms[1..]);
      CanonicalAppend(rest, ms[1..], b);
      var tail :| FramesOf(tail, rest + b);
      assert ([ms[0]] + tail)[1..] == tail;
      assert Raw(ms[0]) + (rest + b) == a + b;
      assert FramesOf([ms[0]] + tail, a + b);
    }
  }

  // ---- the journal of a run ----

  /** What an event adds to the journal: logs as they come, output as it comes
      when interactive and as one message otherwise. */
  function Payload(interactive: bool, e: Event): Bytes
    requires e.Output? ==> |e.data| < 0x1_0000_0000
  {
    match e
    case Log(data) => data
    case Output(data) => if interactive then data else Raw(Message(CMD_BYTES, Some(data)))
    case _ => []
  }

  /** One frame, byte by byte: command, two zero bytes, size, data. */
  predicate OneFrame(bytes: Bytes, cmd: nat, data: Bytes) {
    && |bytes| == 8 + |data| && bytes[8..] == data
    && bytes[0] as int + 256 * bytes[1] as int == cmd && bytes[2] == 0 && bytes[3] == 0
    && bytes[4] as int + 256 * bytes[5] as int + 65536 * bytes[6] as int + 16777216 * bytes[7] as int == |data|
  }

  lemma OneFrameIsOneMessage(bytes: Bytes, cmd: nat, data: Bytes)
    requires OneFrame(bytes, cmd, data)
    ensures Frames(bytes) == Some([Message(cmd, if data == [] then None else Some(data))])
  {
    var header := bytes[..HEADER];
    assert forall k :: 0 <= k < HEADER ==> header[k] == bytes[k];
    assert UnpackCmd(header) == cmd && UnpackSize(header) == |data|;
    assert bytes[HEADER..HEADER + |data|] == data;
    assert Head(bytes) == Message(cmd, if data == [] then None else Some(data));
    assert Tail(bytes) == [];
    assert Frames([]) == Some([]);
    assert [Head(bytes)] + [] == [Head(bytes)];
  }

  /** The bytes that one event adds to the journal and to what each console is sent: a
      log and interactive output unchanged, other output as the one message of
      command 1 with that data, nothing else. */
  ghost predicate Added(interactive: bool, e: Event, bytes: Bytes) {
    match e
    case Log(data) => bytes == data
    case Output(data) =>
      if interactive then bytes == data
      else OneFrame(bytes, 1, data)
    case _ => bytes == []
  }

  lemma PayloadIsAdded(interactive: bool, e: Event)
    requires e.Output? ==> |e.data| < 0x1_0000_0000
    ensures Added(interactive, e, Payload(interactive, e))
  {
    if e.Output? && !interactive {
      RawBytes(Message(CMD_BYTES, Some(e.data)));
    }
  }

  function Joined(pieces: seq<Bytes>): Bytes {
    if pieces == [] then [] else Joined(pieces[..|pieces| - 1]) + pieces[|pieces| - 1]
  }

  /** What one event adds, and what it writes to the task input. */
  ghost predicate Account(interactive: bool, e: Event, piece: Bytes, input: Bytes) {
    Added(interactive, e, piece) && input == if e.Input? && interactive then e.data else []
  }

  /** The same for each of the first events. */
  ghost predicate Accounts(interactive: bool, events: seq<Event>, added: seq<Bytes>, inputs: seq<Bytes>) {
    && |added| == |inputs| <= |events|
    && forall k :: 0 <= k < |added| ==> Account(interactive, events[k], added[k], inputs[k])
  }

  lemma AccountsAppend(interactive: bool, events: seq<Event>, added: seq<Bytes>, inputs: seq<Bytes>,
                       piece: Bytes, input: Bytes)
    requires Accounts(interactive, events, added, inputs) && |added| < |events|
    requires Account(interactive, events[|added|], piece, input)
    ensures Accounts(interactive, events, added + [piece], inputs + [input])
  {
  }

  /** `all` is what the pieces make of `start`. */
  ghost predicate Grown(start: Bytes, pieces: seq<Bytes>, all: Bytes) {
    all == start + Joined(pieces)
  }

  lemma GrownNot(start: Bytes)
    ensures Grown(start, [], start)
  {
    assert start + [] == start;
  }

  lemma GrownMore(start: Bytes, pieces: seq<Bytes>, all: Bytes, piece: Bytes)
    requires Grown(start, pieces, all)
    ensures Grown(start, pieces + [piece], all + piece)
  {
    assert (pieces + [piece])[..|pieces|] == pieces;
    Regroup(start, Joined(pieces), piece);
  }

  predicate Readable(events: seq<Event>) {
    forall e :: e in events && (e.Log? || e.Output?) ==> |e.data| <= 2048
  }

  function Journal(interactive: bool, journal: Bytes, events: seq<Event>): Bytes
    requires Readable(events)
    decreases events
  {
    if events == [] then journal
    else Journal(interactive, journal + Payload(interactive, events[0]), events[1..])
  }

  /** The connected consoles after an event. */
  function ConsolesAfter(fds: set<Fd>, e: Event): set<Fd> {
    match e
    case Connect(fd) => fds + {fd}
    case HangUp(fd) => fds - {fd}
    case _ => fds
  }

  function Consoles(fds: set<Fd>, events: seq<Event>): set<Fd>
    decreases events
  {
    if events == [] then fds else Consoles(ConsolesAfter(fds, events[0]), events[1..])
  }

  /** accept() returns a new descriptor; epoll reports a hang up or input of
      connected ones only. */
  predicate ReportedAt(fds: set<Fd>, e: Event) {
    match e
    case Connect(fd) => fd !in fds
    case HangUp(fd) => fd in fds
    case Input(fd, _) => fd in fds
    case _ => true
  }

  predicate Reported(fds: set<Fd>, events: seq<Event>)
    decreases events
  {
    events == [] || (ReportedAt(fds, events[0]) && Reported(ConsolesAfter(fds, events[0]), events[1..]))
  }

  /** Every console connects while the journal ends on a frame. */
  ghost predicate ConnectsOnFrames(interactive: bool, journal: Bytes, events: seq<Event>)
    requires Readable(events)
    decreases events
  {
    events == [] ||
    ((events[0].Connect? ==> Canonical(journal)) &&
     ConnectsOnFrames(interactive, journal + Payload(interactive, events[0]), events[1..]))
  }

  /** Reads that end on frames are enough for it, however events interleave; in
      non-interactive mode the output may be anything. */
  lemma {:induction false} FrameReadsSuffice(interactive: bool, journal: Bytes, events: seq<Event>)
    requires Readable(events) && Canonical(journal)
    requires forall e :: e in events && (e.Log? || (e.Output? && interactive)) ==> Canonical(e.data)
    ensures ConnectsOnFrames(interactive, journal, events)
    ensures Canonical(Journal(interactive, journal, events))
    decreases events
  {
    if events != [] {
      var e := events[0];
      var added := Payload(interactive, e);
      assert Canonical(added) by {
        if e.Output? && !interactive {
          var m := Message(CMD_BYTES, Some(e.data));
          assert Encode([m]) == Raw(m) + Encode([]) == Raw(m);
          assert FramesOf([m], added);
        } else if !e.Log? && !e.Output? {
          assert FramesOf([], added);
        }
      }
      var ms :| FramesOf(ms, journal);
      CanonicalAppend(journal, ms, added);
      FrameReadsSuffice(interactive, journal + added, events[1..]);
    }
  }

  /** What an event adds to the task input. */
  function InputOf(interactive: bool, e: Event): Bytes {
    if e.Input? && interactive then e.data else []
  }

  function Inputs(interactive: bool, input: Bytes, events: seq<Event>): Bytes
    decreases events
  {
    if events == [] then input else Inputs(interactive, input + InputOf(interactive, events[0]), events[1..])
  }

  lemma NextEvent(interactive: bool, journal: Bytes, input: Bytes, fds: set<Fd>, events: seq<Event>, k: nat)
    requires k < |events| && Readable(events[k..]) && Reported(fds, events[k..])
    ensures Readable(events[k + 1..]) && (events[k].Log? || events[k].Output? ==> |events[k].data| <= 2048)
    ensures ReportedAt(fds, events[k]) && Reported(ConsolesAfter(fds, events[k]), events[k + 1..])
    ensures Journal(interactive, journal, events[k..])
            == Journal(interactive, journal + Payload(interactive, events[k]), events[k + 1..])
    ensures Consoles(fds, events[k..]) == Consoles(ConsolesAfter(fds, events[k]), events[k + 1..])
    ensures Inputs(interactive, input, events[k..])
            == Inputs(interactive, input + InputOf(interactive, events[k]), events[k + 1..])
    ensures ConnectsOnFrames(interactive, journal, events[k..]) ==>
              && (events[k].Connect? ==> Canonical(journal))
              && ConnectsOnFrames(interactive, journal + Payload(interactive, events[k]), events[k + 1..])
  {
    var rest := events[k..];
    assert rest[0] == events[k] && rest[1..] == events[k + 1..];
  }

  /** `connections` maps a connected console to all the bytes it was sent; `input`
      is what was written to the task input pipe. */
  class TaskIO {
    const interactive: bool
    var connections: map<Fd, Bytes>
    var journal: Bytes
    var input: Bytes

    constructor (interactive: bool)
      ensures this.interactive == interactive && connections == map[] && journal == [] && input == []
    {
      this.interactive := interactive;
      connections, journal, input := map[], [], [];
    }

    /** Each console has been sent exactly the journal. */
    ghost predicate InSync()
      reads this
    {
      forall fd :: fd in connections ==> connections[fd] == journal
    }

    /** _broadcast(): sendall on every connection. */
    method Broadcast(data: Bytes)
      modifies this`connections
      ensures connections.Keys == old(connections).Keys
      ensures forall fd :: fd in connections ==> connections[fd] == old(connections)[fd] + data
    {
      var left := connections.Keys;
      while left != {}
        invariant left <= connections.Keys == old(connections).Keys
        invariant forall fd :: fd in connections ==>
            connections[fd] == old(connections)[fd] + if fd in left then [] else data
        decreases left
      {
        var fd :| fd in left;
        connections := connections[fd := connections[fd] + data];
        left := left - {fd};
      }
    }

    /** TaskJournal.replay(): what the new connection is sent, frame by frame. */
    method Replay() returns (sent: Bytes, raised: bool)
      ensures (sent, raised) == Replayed(journal)
    {
      var at := 0;
      sent := [];
      ReplayStarts(journal);
      while at < |journal|
        invariant 0 <= at <= |journal|
        invariant Replayed(journal) == AfterSent(sent, Replayed(journal[at..]))
      {
        var left := journal[at..];
        if |left| < HEADER {
          ReplayEnds(sent, journal, at);
          return sent, true;
        }
        var msg := FileHead(left);
        ReplayStep(sent, journal, at);
        sent := sent + Raw(msg);
        at := at + HEADER + Size(msg);
      }
      ReplayEnds(sent, journal, at);
      raised := false;
    }

    /** One event of the _dispatch loop; `raised` is an exception that the loop does
        not catch. Consoles stay in sync but for one that connects while the journal
        ends inside a frame. */
    method Handle(e: Event) returns (raised: bool)
      requires (e.Log? || e.Output? ==> |e.data| <= 2048) && ReportedAt(connections.Keys, e)
      modifies this
      ensures journal == old(journal) + Payload(interactive, e)
      ensures Added(interactive, e, journal[|old(journal)|..])
      ensures e.Output? && !interactive ==>
                Frames(journal[|old(journal)|..]) == Some([Message(1, if e.data == [] then None else Some(e.data))])
      ensures connections.Keys == ConsolesAfter(old(connections).Keys, e)
      ensures input == old(input) + InputOf(interactive, e)
      ensures input == if e.Input? && interactive then old(input) + e.data else old(input)
      ensures raised <==> e.Connect? && Replayed(old(journal)).1
      ensures forall fd :: fd in connections ==>
                if e == Connect(fd) then connections[fd] == Replayed(old(journal)).0
                else fd in old(connections) && connections[fd] == old(connections)[fd] + Payload(interactive, e)
      ensures old(InSync()) ==> (InSync() && !raised <==> (e.Connect? ==> Canonical(old(journal))))
    {
      raised := false;
      PayloadIsAdded(interactive, e);
      assert (journal + Payload(interactive, e))[|journal|..] == Payload(interactive, e);
      if e.Output? && !interactive {
        OneFrameIsOneMessage(Payload(interactive, e), 1, e.data);
      }
      match e {
        case Connect(fd) =>
          var sent;
          sent, raised := Replay();
          connections := connections[fd := sent];
          ReplayIsExact(journal);
          assert connections[fd] == sent;
        case HangUp(fd) =>
          connections := connections - {fd};
        case Log(data) =>
          Broadcast(data);
          journal := journal + data;
        case Output(data) =>
          var frame := data;
          if !interactive {
            frame := Raw(Message(CMD_BYTES, Some(data)));
          }
          Broadcast(frame);
          journal := journal + frame;
        case Input(fd, data) =>
          if interactive {
            input := input + data;
          }
      }
    }

    /** One turn of the loop: what it adds to the journal and to the input. */
    method Turn(e: Event) returns (raised: bool, ghost piece: Bytes, ghost inputPiece: Bytes)
      requires (e.Log? || e.Output? ==> |e.data| <= 2048) && ReportedAt(connections.Keys, e)
      modifies this
      ensures Account(interactive, e, piece, inputPiece)
      ensures journal == old(journal) + piece && piece == Payload(interactive, e)
      ensures input == old(input) + inputPiece
      ensures inputPiece == InputOf(interactive, e)
      ensures connections.Keys == ConsolesAfter(old(connections).Keys, e)
      ensures old(InSync()) && (e.Connect? ==> Canonical(old(journal))) ==> InSync() && !raised
    {
      raised := Handle(e);
      piece, inputPiece := Payload(interactive, e), InputOf(interactive, e);
      PayloadIsAdded(interactive, e);
    }

    /** What is known of the journal and the input after the events that `added` and
        `inputs` account for. */
    ghost predicate Accounted(events: seq<Event>, start: Bytes, inputStart: Bytes, added: seq<Bytes>, inputs: seq<Bytes>)
      reads this
    {
      && Accounts(interactive, events, added, inputs)
      && Grown(start, added, journal) && Grown(inputStart, inputs, input)
    }

    /** The event number `k`, accounted for. */
    method DispatchOne(events: seq<Event>, k: nat, ghost start: Bytes, ghost inputStart: Bytes,
                    ghost added: seq<Bytes>, ghost inputs: seq<Bytes>)
      returns (raised: bool, ghost moreAdded: seq<Bytes>, ghost moreInputs: seq<Bytes>)
      requires k < |events| && Accounted(events, start, inputStart, added, inputs) && |added| == k
      requires (events[k].Log? || events[k].Output? ==> |events[k].data| <= 2048) && ReportedAt(connections.Keys, events[k])
      modifies this
      ensures Accounted(events, start, inputStart, moreAdded, moreInputs) && |moreAdded| == k + 1
      ensures journal == old(journal) + Payload(interactive, events[k])
      ensures input == old(input) + InputOf(interactive, events[k])
      ensures connections.Keys == ConsolesAfter(old(connections).Keys, events[k])
      ensures old(InSync()) && (events[k].Connect? ==> Canonical(old(journal))) ==> InSync() && !raised
    {
      ghost var before, inputBefore, piece, inputPiece := journal, input, [], [];
      raised, piece, inputPiece := Turn(events[k]);
      AccountsAppend(interactive, events, added, inputs, piece, inputPiece);
      GrownMore(start, added, before, piece);
      GrownMore(inputStart, inputs, inputBefore, inputPiece);
      moreAdded, moreInputs := added + [piece], inputs + [inputPiece];
    }

    /** The whole dispatch loop: if every console connects while the journal ends on
        a frame, nothing raises, and at the end (hence after every step) each
        connected console has been sent exactly the journal.  In any case the journal
        and the input grow by what the events handled add to them. */
    method Dispatch(events: seq<Event>) returns (raised: bool, ghost added: seq<Bytes>, ghost inputs: seq<Bytes>)
      requires Readable(events) && Reported(connections.Keys, events)
      modifies this
      ensures old(InSync()) && ConnectsOnFrames(interactive, old(journal), events) ==>
                && !raised && InSync()
                && journal == Journal(interactive, old(journal), events)
                && connections.Keys == Consoles(old(connections).Keys, events)
                && input == Inputs(interactive, old(input), events)
      ensures Accounted(events, old(journal), old(input), added, inputs)
      ensures |added| <= |events| && (!raised ==> |added| == |events|)
    {
      added, inputs := [], [];
      ghost var start, inputStart := journal, input;
      GrownNot(journal);
      GrownNot(input);
      raised := false;
      var k := 0;
      ghost var good := InSync() && ConnectsOnFrames(interactive, journal, events);
      while k < |events|
        invariant 0 <= k <= |events|
        invariant Accounted(events, start, inputStart, added, inputs) && |added| == k
        invariant !raised && Reported(connections.Keys, events[k..]) && Readable(events[k..])
        invariant Journal(interactive, journal, events[k..]) == Journal(interactive, old(journal), events)
        invariant Consoles(connections.Keys, events[k..]) == Consoles(old(connections).Keys, events)
        invariant Inputs(interactive, input, events[k..]) == Inputs(interactive, old(input), events)
        invariant good ==> InSync() && ConnectsOnFrames(interactive, journal, events[k..])
      {
        NextEvent(interactive, journal, input, connections.Keys, events, k);
        raised, added, inputs := DispatchOne(events, k, start, inputStart, added, inputs);
        if raised {
          return;
        }
        k := k + 1;
      }
    }
  }
}
