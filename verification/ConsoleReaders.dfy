/** The readers of fatbuildr/console/client.py that reassemble frames, and the
    generator they feed. */
module ConsoleReaders {
  import opened Wrappers
  import opened ConsoleMessage

  function Flatten(chunks: seq<Bytes>): Bytes {
    if chunks == [] then [] else chunks[0] + Flatten(chunks[1..])
  }

  /** A session, once `out` has been yielded already. */
  function After(out: seq<Message>, session: (seq<Message>, Ending)): (seq<Message>, Ending) {
    (out + session.0, session.1)
  }

  /** One turn of the generator on a stream of whole frames. */
  lemma NextMessage(out: seq<Message>, bs: Bytes)
    requires bs != [] && Frames(bs).Some?
    ensures var session := Session(Frames(bs).value);
            match TaskEnd(Head(bs))
            case IsEnd => After(out, session) == (out + [Head(bs)], TaskEnded)
            case Raises => After(out, session) == (out + [Head(bs)], Raised)
            case NotEnd => After(out, session) == After(out + [Head(bs)], Session(Frames(Tail(bs)).value))
  {
    var ms := Frames(bs).value;
    assert ms[0] == Head(bs) && ms[1..] == Frames(Tail(bs)).value;
    if TaskEnd(Head(bs)) == NotEnd {
      var rest := Session(ms[1..]).0;
      assert out + ([ms[0]] + rest) == (out + [ms[0]]) + rest;
    }
  }

  lemma SplitAppended(a: Bytes, b: Bytes)
    ensures (a + b)[..|a|] == a && (a + b)[|a|..] == b
  {
  }

  // ---- what a socket delivers ----

  /** The bytes that come in before the call number `j` of recv. */
  function Arrival(arrivals: seq<Bytes>, j: nat): Bytes {
    if j < |arrivals| then arrivals[j] else []
  }

  function Drop(chunks: seq<Bytes>, n: nat): seq<Bytes> {
    if n <= |chunks| then chunks[n..] else []
  }

  /** What each recv finds, as long as the previous ones have taken everything. */
  function Feed(buffer: Bytes, arrivals: seq<Bytes>): seq<Bytes> {
    [buffer + Arrival(arrivals, 0)] + if arrivals == [] then [] else arrivals[1..]
  }

  /** How many bytes have come in by the call number `j` of recv. */
  function Total(feed: seq<Bytes>, j: nat): nat {
    if j == 0 then 0 else Total(feed, j - 1) + |Arrival(feed, j - 1)|
  }

  predicate StallsAt(feed: seq<Bytes>, j: nat) {
    Arrival(feed, j) == [] && Arrival(feed, j + 1) == []
  }

  /** While fewer than `size` bytes have come in, two calls of recv in a row find
      nothing. */
  ghost predicate TwoStalls(size: nat, feed: seq<Bytes>) {
    exists j: nat :: Total(feed, j) < size && StallsAt(feed, j)
  }

  lemma {:induction false} TotalGrows(feed: seq<Bytes>, i: nat, j: nat)
    requires i <= j
    ensures Total(feed, i) <= Total(feed, j)
    decreases j
  {
    if i < j {
      TotalGrows(feed, i, j - 1);
    }
  }

  /** Nothing comes in for two calls of recv in a row only at the end. */
  ghost predicate Steady(arrivals: seq<Bytes>) {
    forall j :: 0 <= j < |arrivals| - 1 ==> arrivals[j] != [] || arrivals[j + 1] != []
  }

  lemma {:induction false} TotalOfFeed(buffer: Bytes, arrivals: seq<Bytes>, j: nat)
    ensures Total(Feed(buffer, arrivals), j + 1) == |buffer| + |Flatten(arrivals[..if j < |arrivals| then j + 1 else |arrivals|])|
    decreases j
  {
    var feed := Feed(buffer, arrivals);
    if j == 0 {
      assert Total(feed, 1) == |Arrival(feed, 0)|;
      if arrivals != [] {
        FlattenLast(arrivals, 0);
      }
    } else {
      TotalOfFeed(buffer, arrivals, j - 1);
      if j < |arrivals| {
        assert feed[j] == arrivals[j];
        FlattenLast(arrivals, j);
      } else {
        assert arrivals != [] && j == |arrivals| ==> j >= |feed|;
      }
    }
  }

  lemma {:induction false} FlattenLast(chunks: seq<Bytes>, j: nat)
    requires j < |chunks|
    ensures Flatten(chunks[..j + 1]) == Flatten(chunks[..j]) + chunks[j]
    decreases j
  {
    if j > 0 {
      FlattenLast(chunks[1..], j - 1);
      assert chunks[..j + 1][1..] == chunks[1..][..j];
      assert chunks[..j][1..] == chunks[1..][..j - 1];
    } else {
      assert chunks[..1][1..] == [];
    }
  }

  /** On a steady connection no read of bytes that are to come is given up. */
  lemma SteadyNeverStalls(size: nat, buffer: Bytes, arrivals: seq<Bytes>)
    requires Steady(arrivals) && size <= |buffer + Flatten(arrivals)|
    ensures !TwoStalls(size, Feed(buffer, arrivals))
  {
    var feed := Feed(buffer, arrivals);
    FeedAfterFirst(buffer, arrivals);
    assert arrivals[..|arrivals|] == arrivals;
    forall j: nat | StallsAt(feed, j)
      ensures Total(feed, j) >= size
    {
      TotalOfFeed(buffer, arrivals, j);
      assert Total(feed, j + 1) == Total(feed, j);
    }
  }

  lemma FeedAfterFirst(buffer: Bytes, arrivals: seq<Bytes>)
    ensures Arrival(Feed(buffer, arrivals), 0) == buffer + Arrival(arrivals, 0)
    ensures forall j: nat :: j > 0 ==> Arrival(Feed(buffer, arrivals), j) == Arrival(arrivals, j)
  {
  }

  /** Nothing comes in for the calls of recv number `j` and `j + 1`, and nothing was left
      over for the first one. */
  predicate NothingTwice(buffer: Bytes, chunks: seq<Bytes>, j: nat) {
    && (j < |chunks| ==> chunks[j] == []) && (j + 1 < |chunks| ==> chunks[j + 1] == [])
    && (j == 0 ==> buffer == [])
  }

  /** The bytes that the calls of recv before the number `j` can bring. */
  function BytesBefore(buffer: Bytes, chunks: seq<Bytes>, j: nat): nat {
    if j == 0 then 0 else |buffer| + |Flatten(chunks[..if j < |chunks| then j else |chunks|])|
  }

  /** Two calls of recv in a row bring nothing while bytes are still missing. */
  ghost predicate GivesUp(size: nat, buffer: Bytes, chunks: seq<Bytes>) {
    exists j: nat :: NothingTwice(buffer, chunks, j) && BytesBefore(buffer, chunks, j) < size
  }

  lemma StallIs(buffer: Bytes, chunks: seq<Bytes>, j: nat)
    ensures StallsAt(Feed(buffer, chunks), j) <==> NothingTwice(buffer, chunks, j)
    ensures Total(Feed(buffer, chunks), j) == BytesBefore(buffer, chunks, j)
  {
    FeedAfterFirst(buffer, chunks);
    if j > 0 {
      TotalOfFeed(buffer, chunks, j - 1);
    }
  }

  lemma GivesUpIs(size: nat, buffer: Bytes, chunks: seq<Bytes>)
    ensures TwoStalls(size, Feed(buffer, chunks)) <==> GivesUp(size, buffer, chunks)
  {
    if j: nat :| Total(Feed(buffer, chunks), j) < size && StallsAt(Feed(buffer, chunks), j) {
      StallIs(buffer, chunks, j);
    }
    if j: nat :| NothingTwice(buffer, chunks, j) && BytesBefore(buffer, chunks, j) < size {
      StallIs(buffer, chunks, j);
    }
  }

  lemma TakeSome(taken: Bytes, buffer: Bytes, rest: Bytes, k: nat)
    requires k <= |buffer|
    ensures taken + (buffer + rest) == (taken + buffer[..k]) + (buffer[k..] + rest)
  {
    assert buffer == buffer[..k] + buffer[k..];
  }

  /** What a reader keeps in its buffer when the source ends. */
  function Final(buffer: Bytes, chunks: seq<Bytes>): Bytes {
    if chunks == [] then buffer else chunks[|chunks| - 1]
  }

  lemma TakeChunk(taken: Bytes, buffer: Bytes, chunks: seq<Bytes>)
    requires chunks != []
    ensures taken + (buffer + Flatten(chunks)) == (taken + buffer) + (chunks[0] + Flatten(chunks[1..]))
    ensures Final(chunks[0], chunks[1..]) == Final(buffer, chunks)
  {
    Regroup(taken, buffer, Flatten(chunks));
  }

  lemma Regroup(a: Bytes, b: Bytes, c: Bytes)
    ensures a + (b + c) == (a + b) + c
  {
  }

  // ---- the readers ----

  /** Where a console client reads: the HTTP response, or the task's unix socket.
      `buffer` has come in and not been read, `chunks` is still to come: for HTTP the
      chunks of the response iterator, for the socket what comes in before each
      recv. */
  class ByteSource {
    const unix: bool
    var buffer: Bytes
    var chunks: seq<Bytes>

    ghost function Rest(): Bytes
      reads this
    {
      buffer + Flatten(chunks)
    }

    constructor (unix: bool, buffer: Bytes, chunks: seq<Bytes>)
      ensures this.unix == unix && this.buffer == buffer && this.chunks == chunks
    {
      this.unix, this.buffer, this.chunks := unix, buffer, chunks;
    }

    /** reader(size) of console_http_client: the next `size` bytes whatever the chunks
        are.  When the iterator ends first, the result is empty, what was gathered is
        lost, and the last chunk stays in the buffer. */
    method ReadHttp(size: nat) returns (chunk: Bytes)
      modifies this
      ensures size <= |old(Rest())| ==> chunk == old(Rest())[..size] && Rest() == old(Rest())[size..]
      ensures size > |old(Rest())| ==>
                chunk == [] && chunks == [] && buffer == Final(old(buffer), old(chunks))
      ensures |Rest()| <= |old(Rest())|
    {
      ghost var all, final := Rest(), Final(buffer, chunks);
      var missing := size;
      chunk := [];
      while missing > 0
        invariant 0 <= missing <= size && |chunk| == size - missing
        invariant chunk + (buffer + Flatten(chunks)) == all
        invariant missing > 0 ==> Final(buffer, chunks) == final
        decreases missing, |chunks|
      {
        if |buffer| >= missing {
          TakeSome(chunk, buffer, Flatten(chunks), missing);
          chunk := chunk + buffer[..missing];
          buffer := buffer[missing..];
          missing := 0;
        } else {
          if chunks != [] {
            TakeChunk(chunk, buffer, chunks);
          }
          chunk := chunk + buffer;
          missing := missing - |buffer|;
          if chunks == [] {
            // StopIteration: `buffer` keeps its value
            assert |all| == |chunk|;
            return [];
          }
          buffer, chunks := chunks[0], chunks[1..];
        }
      }
      SplitAppended(chunk, Rest());
    }

    /** socket.recv(n) */
    method Recv(n: nat) returns (data: Bytes)
      modifies this
      ensures var ready := old(buffer) + Arrival(old(chunks), 0);
              data == ready[..if n < |ready| then n else |ready|] && buffer == ready[|data|..]
      ensures chunks == if old(chunks) == [] then [] else old(chunks)[1..]
      ensures data + Rest() == old(Rest())
    {
      if chunks != [] {
        assert Rest() == buffer + chunks[0] + Flatten(chunks[1..]);
        buffer, chunks := buffer + chunks[0], chunks[1..];
      }
      var k := if n < |buffer| then n else |buffer|;
      assert buffer[..k] + buffer[k..] == buffer;
      data, buffer := buffer[..k], buffer[k..];
      assert data + Rest() == (data + buffer) + Flatten(chunks);
    }

    /** `data` is what the first `calls` calls of recv have brought, when `origin` was
        still to come and `feed` is what they find. */
    ghost predicate Got(size: nat, feed: seq<Bytes>, origin: seq<Bytes>, calls: nat, data: Bytes, all: Bytes)
      reads this
    {
      && |data| <= size && data + Rest() == all
      && chunks == Drop(origin, calls)
      && if |data| < size then buffer == [] && |data| == Total(feed, calls) else size <= Total(feed, calls)
    }

    /** data += connection.recv(missing) */
    method RecvMissing(size: nat, ghost feed: seq<Bytes>, ghost origin: seq<Bytes>, ghost calls: nat,
                       data: Bytes, ghost all: Bytes)
      returns (more: Bytes)
      requires Got(size, feed, origin, calls, data, all) && |data| < size
      requires Arrival(feed, calls) == Arrival(origin, calls)
      modifies this
      ensures Got(size, feed, origin, calls + 1, more, all) && data <= more
    {
      ghost var ahead := Rest();
      assert buffer + Arrival(chunks, 0) == Arrival(feed, calls);
      var received := Recv(size - |data|);
      assert data + ahead == (data + received) + Rest();
      more := data + received;
    }

    /** reader(size) of console_unix_client: it terminates whatever recv delivers, and
        returns exactly the next `size` bytes, unless two successive calls of recv
        bring nothing: then it returns no byte at all. */
    method ReadUnix(size: nat) returns (data: Bytes, ghost calls: nat)
      requires size > 0
      modifies this
      ensures data == [] <==> TwoStalls(size, Feed(old(buffer), old(chunks)))
      ensures data == [] <==> GivesUp(size, old(buffer), old(chunks))
      ensures data != [] ==> |data| == size && data + Rest() == old(Rest())
      ensures |Rest()| <= |old(Rest())| && chunks == Drop(old(chunks), calls)
    {
      GivesUpIs(size, buffer, chunks);
      data, calls := Gather(size);
    }

    /** Its loop, in terms of what each recv finds. */
    method Gather(size: nat) returns (data: Bytes, ghost calls: nat)
      requires size > 0
      modifies this
      ensures data == [] <==> TwoStalls(size, Feed(old(buffer), old(chunks)))
      ensures data != [] ==> |data| == size && data + Rest() == old(Rest())
      ensures |Rest()| <= |old(Rest())| && chunks == Drop(old(chunks), calls)
    {
      ghost var feed, origin, all := Feed(buffer, chunks), chunks, Rest();
      FeedAfterFirst(buffer, chunks);
      calls := 1;
      data := Recv(size);
      var maxRetries := 2;
      var retries := 0;
      var lastDataSize := 0;
      assert Total(feed, 1) == |Arrival(feed, 0)|;
      while |data| < size
        invariant 1 <= calls && 0 <= retries <= 1
        invariant Got(size, feed, origin, calls, data, all)
        invariant lastDataSize == Total(feed, calls - 1) < size
        invariant retries == 1 <==> calls > 1 && Arrival(feed, calls - 2) == []
        invariant forall j: nat :: j + 2 < calls ==> !StallsAt(feed, j)
        decreases size - |data|, if |data| > lastDataSize then 3 else 2 - retries
      {
        if |data| == lastDataSize {
          retries := retries + 1;
          if retries == maxRetries {
            assert TwoStalls(size, feed) by {
              TotalGrows(feed, calls - 2, calls - 1);
              assert StallsAt(feed, calls - 2);
            }
            data := [];
            return;
          }
        } else {
          lastDataSize := |data|;
          retries := 0;
        }
        data := RecvMissing(size, feed, origin, calls, data, all);
        calls := calls + 1;
      }
      forall j: nat | Total(feed, j) < size
        ensures !StallsAt(feed, j)
      {
        if j >= calls {
          TotalGrows(feed, calls, j);
        }
      }
    }

    /** Every byte that the reader asks for is there in time. */
    ghost predicate Supplies(size: nat)
      reads this
    {
      if unix then !TwoStalls(size, Feed(buffer, chunks)) else size <= |Rest()|
    }

    method Read(size: nat) returns (data: Bytes)
      requires size > 0
      modifies this
      ensures if old(Supplies(size))
              then size <= |old(Rest())| && data == old(Rest())[..size] && Rest() == old(Rest())[size..]
              else data == []
      ensures |Rest()| <= |old(Rest())|
      ensures unix && Steady(old(chunks)) ==> Steady(chunks)
    {
      if unix {
        ghost var calls;
        data, calls := ReadUnix(size);
        if data != [] {
          SplitAppended(data, Rest());
        }
      } else {
        data := ReadHttp(size);
      }
    }

    /** ConsoleMessage.read() on this reader, None at the end of the stream. */
    method ReadMessage() returns (msg: Option<Message>)
      modifies this
      ensures (unix ==> Steady(old(chunks))) && WholeFrame(old(Rest())) ==>
                msg == Some(Head(old(Rest()))) && Rest() == Tail(old(Rest()))
      ensures |old(Rest())| < HEADER ==> msg == None
      ensures msg.Some? ==> |Rest()| < |old(Rest())|
      ensures unix && Steady(old(chunks)) ==> Steady(chunks)
    {
      ghost var all := Rest();
      if Steady(chunks) && WholeFrame(all) {
        SteadyNeverStalls(HEADER, buffer, chunks);
      }
      var header := Read(HEADER);
      if |header| == 0 {
        return None;
      }
      var size := UnpackSize(header);
      var data := None;
      if size != 0 {
        if Steady(chunks) && WholeFrame(all) {
          SteadyNeverStalls(size, buffer, chunks);
        }
        var bytes := Read(size);
        data := Some(bytes);
        if WholeFrame(all) {
          assert all[HEADER..][..size] == all[HEADER..HEADER + size];
          assert all[HEADER..][size..] == Tail(all);
        }
      }
      msg := Some(Message(UnpackCmd(header), data));
    }

    /** _console_generator(): it stops on every input; on a stream of whole frames, and
        a steady connection, it yields the session these frames stand for. */
    method Generate() returns (out: seq<Message>, ending: Ending)
      modifies this
      ensures Frames(old(Rest())).Some? && (unix ==> Steady(old(chunks))) ==>
                && (out, ending) == Session(Frames(old(Rest())).value)
                && IsSession(Frames(old(Rest())).value, out, ending)
    {
      if Frames(Rest()).Some? {
        SessionIs(Frames(Rest()).value);
      }
      ghost var all := Frames(Rest());
      ghost var good := all.Some? && (unix ==> Steady(chunks));
      out := [];
      assert good ==> [] + Session(all.value).0 == Session(all.value).0;
      while true
        invariant good ==> Frames(Rest()).Some? && (unix ==> Steady(chunks))
        invariant good ==> Session(all.value) == After(out, Session(Frames(Rest()).value))
        decreases |Rest()|
      {
        ghost var ahead := Rest();
        var msg := ReadMessage();
        if msg == None {
          assert out + [] == out;
          return out, EndOfStream;
        }
        if good {
          NextMessage(out, ahead);
        }
        out := out + [msg.value];
        match TaskEnd(msg.value) {
          case IsEnd => return out, TaskEnded;
          case Raises => return out, Raised;
          case NotEnd =>
        }
      }
    }
  }

  /** `out` is the beginning of `ms`, each with its command and its data, empty data
      read as None. */
  ghost predicate FirstOf(ms: seq<Message>, out: seq<Message>) {
    && |out| <= |ms|
    && forall k :: 0 <= k < |out| ==>
         out[k].cmd == ms[k].cmd && out[k].data == if ms[k].data == Some([]) then None else ms[k].data
  }

  /** console_http_client(): for every list of messages and every way to cut its
      bytes into chunks, empty chunks included, exactly these messages, empty data
      read as None, up to the one that ends the task.  Without any chunk, the
      first next() raises. */
  method ConsoleHttpClient(chunks: seq<Bytes>) returns (out: seq<Message>, ending: Ending)
    ensures chunks == [] ==> out == [] && ending == Raised
    ensures forall ms :: chunks != [] && AllPackable(ms) && Flatten(chunks) == Encode(ms) ==>
              && (out, ending) == Session(NormalAll(ms))
              && IsSession(NormalAll(ms), out, ending) && FirstOf(ms, out)
  {
    if chunks == [] {
      return [], Raised;
    }
    var source := new ByteSource(false, chunks[0], chunks[1..]);
    assert source.Rest() == Flatten(chunks);
    out, ending := source.Generate();
    forall ms | AllPackable(ms) && Flatten(chunks) == Encode(ms)
      ensures (out, ending) == Session(NormalAll(ms))
      ensures IsSession(NormalAll(ms), out, ending) && FirstOf(ms, out)
    {
      FramesOfEncode(ms);
    }
  }

  /** console_unix_client(), with the bytes it yields in binary mode: on a steady
      connection the same messages again. */
  method ConsoleUnixClient(arrivals: seq<Bytes>) returns (out: seq<Message>, ending: Ending)
    ensures forall ms :: Steady(arrivals) && AllPackable(ms) && Flatten(arrivals) == Encode(ms) ==>
              && (out, ending) == Session(NormalAll(ms))
              && IsSession(NormalAll(ms), out, ending) && FirstOf(ms, out)
  {
    var source := new ByteSource(true, [], arrivals);
    assert source.Rest() == Flatten(arrivals);
    out, ending := source.Generate();
    forall ms | AllPackable(ms) && Flatten(arrivals) == Encode(ms)
      ensures Frames(Flatten(arrivals)) == Some(NormalAll(ms))
      ensures out <= NormalAll(ms) ==> FirstOf(ms, out)
    {
      FramesOfEncode(ms);
    }
  }

  /** The daemon relays to HTTP what its unix client yields in binary mode: whoever
      decodes the relayed bytes, in any chunks, gets the same session. */
  lemma RelayKeepsSession(ms: seq<Message>)
    requires AllPackable(ms)
    ensures var (out, ending) := Session(NormalAll(ms));
            && AllPackable(out)
            && Session(NormalAll(out)) == (out, ending)
  {
    var all := NormalAll(ms);
    var out := Session(all).0;
    SessionMembers(all);
    forall k | 0 <= k < |out|
      ensures Packable(out[k]) && Normal(out[k]) == out[k]
    {
      assert out[k] in all;
      NormalMember(ms, out[k]);
    }
    assert NormalAll(out) == out;
    SessionOfSession(all);
  }

  lemma NormalMember(ms: seq<Message>, m: Message)
    requires AllPackable(ms) && m in NormalAll(ms)
    ensures Packable(m) && Normal(m) == m
  {
    var k :| 0 <= k < |ms| && NormalAll(ms)[k] == m;
    assert ms[k] in ms;
  }

  lemma SessionMembers(ms: seq<Message>)
    ensures forall m :: m in Session(ms).0 ==> m in ms
  {
    SessionIsPrefix(ms);
  }

  lemma {:induction false} SessionOfSession(ms: seq<Message>)
    ensures Session(Session(ms).0) == Session(ms)
  {
    if ms != [] && TaskEnd(ms[0]) == NotEnd {
      SessionOfSession(ms[1..]);
      var rest := Session(ms[1..]).0;
      assert ([ms[0]] + rest)[1..] == rest;
    }
  }
}
