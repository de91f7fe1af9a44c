/** The console frame codec (fatbuildr/console/__init__.py).  A frame is
    struct.pack('HI', cmd, size) followed by the data: with native alignment, two
    bytes, two padding bytes, four bytes, here in little-endian order. */
module ConsoleMessage {
  import opened Wrappers

  type byte = b: int | 0 <= b < 256
  type Bytes = seq<byte>

  const CMD_LOG := 0
  const CMD_BYTES := 1
  const HEADER := 8

  datatype Message = Message(cmd: nat, data: Option<Bytes>)

  function Size(m: Message): nat {
    if m.data.Some? then |m.data.value| else 0
  }

  /** What struct.pack accepts for 'H' and 'I'. */
  predicate Packable(m: Message) {
    m.cmd < 0x1_0000 && Size(m) < 0x1_0000_0000
  }

  ghost predicate AllPackable(ms: seq<Message>) {
    forall m :: m in ms ==> Packable(m)
  }

  /** Two bytes, the low one first. */
  function Short(n: nat): (bytes: Bytes)
    requires n < 0x1_0000
    ensures |bytes| == 2 && ShortAt(bytes, 0) == n
  {
    [n % 256, n / 256]
  }

  function ShortAt(bytes: Bytes, k: nat): (n: nat)
    requires k + 1 < |bytes|
    ensures n < 0x1_0000
  {
    bytes[k] as int + 256 * (bytes[k + 1] as int)
  }

  function Pack(cmd: nat, size: nat): (header: Bytes)
    requires cmd < 0x1_0000 && size < 0x1_0000_0000
    ensures |header| == HEADER
    ensures UnpackCmd(header) == cmd && UnpackSize(header) == size
  {
    Short(cmd) + [0, 0] + Short(size % 0x1_0000) + Short(size / 0x1_0000)
  }

  function UnpackCmd(header: Bytes): (cmd: nat)
    requires |header| == HEADER
    ensures cmd < 0x1_0000
  {
    ShortAt(header, 0)
  }

  function UnpackSize(header: Bytes): (size: nat)
    requires |header| == HEADER
    ensures size < 0x1_0000_0000
  {
    ShortAt(header, 4) + 0x1_0000 * ShortAt(header, 6)
  }

  /** ConsoleMessage.raw */
  function Raw(m: Message): Bytes
    requires Packable(m)
  {
    Pack(m.cmd, Size(m)) + if m.data.Some? then m.data.value else []
  }

  function Encode(ms: seq<Message>): Bytes
    requires AllPackable(ms)
  {
    if ms == [] then [] else Raw(ms[0]) + Encode(ms[1..])
  }

  /** Empty data is not told apart from no data. */
  function Normal(m: Message): Message {
    if m.data == Some([]) then m.(data := None) else m
  }

  function NormalAll(ms: seq<Message>): (out: seq<Message>)
    ensures |out| == |ms|
    ensures forall k :: 0 <= k < |ms| ==> out[k] == Normal(ms[k])
  {
    if ms == [] then [] else [Normal(ms[0])] + NormalAll(ms[1..])
  }

  /** The message of the frame that starts a stream of whole frames. */
  function Head(bs: Bytes): Message
    requires WholeFrame(bs)
  {
    var size := UnpackSize(bs[..HEADER]);
    Message(UnpackCmd(bs[..HEADER]), if size == 0 then None else Some(bs[HEADER..HEADER + size]))
  }

  predicate WholeFrame(bs: Bytes) {
    |bs| >= HEADER && |bs| >= HEADER + UnpackSize(bs[..HEADER])
  }

  function Tail(bs: Bytes): Bytes
    requires WholeFrame(bs)
  {
    bs[HEADER + UnpackSize(bs[..HEADER])..]
  }

  /** The messages of a byte string, None when it does not end on a frame. */
  function Frames(bs: Bytes): Option<seq<Message>>
    decreases |bs|
  {
    if bs == [] then Some([])
    else if !WholeFrame(bs) then None
    else match Frames(Tail(bs))
         case None => None
         case Some(rest) => Some([Head(bs)] + rest)
  }

  lemma RawParts(m: Message, rest: Bytes)
    requires Packable(m)
    ensures WholeFrame(Raw(m) + rest)
    ensures Head(Raw(m) + rest) == Normal(m)
    ensures Tail(Raw(m) + rest) == rest
  {
    var bs := Raw(m) + rest;
    assert bs[..HEADER] == Pack(m.cmd, Size(m));
    if m.data.Some? {
      assert bs[HEADER..HEADER + Size(m)] == m.data.value;
    }
    assert bs[HEADER + Size(m)..] == rest;
  }

  /** A frame byte by byte: the command, two zero bytes, the size, the data. */
  lemma RawBytes(m: Message)
    requires Packable(m)
    ensures var raw := Raw(m);
            && |raw| >= 8 && raw[8..] == (if m.data.None? then [] else m.data.value)
            && raw[0] as int + 256 * raw[1] as int == m.cmd && raw[2] == 0 && raw[3] == 0
            && raw[4] as int + 256 * raw[5] as int + 65536 * raw[6] as int + 16777216 * raw[7] as int == |raw| - 8
  {
    var header, data := Pack(m.cmd, Size(m)), if m.data.Some? then m.data.value else [];
    assert forall k :: 0 <= k < 8 ==> (header + data)[k] == header[k];
    assert (header + data)[8..] == data;
    assert UnpackCmd(header) == m.cmd && UnpackSize(header) == Size(m);
    assert header[2] == 0 && header[3] == 0;
  }

  /** Decoding what was encoded gives the messages back, empty data as None. */
  lemma {:induction false} FramesOfEncode(ms: seq<Message>)
    requires AllPackable(ms)
    ensures Frames(Encode(ms)) == Some(NormalAll(ms))
  {
    if ms != [] {
      FramesOfEncode(ms[1..]);
      RawParts(ms[0], Encode(ms[1..]));
    }
  }

  /** Whatever is decoded can be encoded, and decodes to itself: in binary mode
      the generator re-encodes every message, and nothing changes for whoever
      decodes its output. */
  lemma {:induction false} FramesReencode(bs: Bytes)
    requires Frames(bs).Some?
    ensures AllPackable(Frames(bs).value)
    ensures NormalAll(Frames(bs).value) == Frames(bs).value
    ensures |Encode(Frames(bs).value)| == |bs|
    ensures Frames(Encode(Frames(bs).value)) == Frames(bs)
    decreases |bs|
  {
    if bs != [] {
      var ms := Frames(bs).value;
      FramesReencode(Tail(bs));
      assert ms[0] == Head(bs) && ms[1..] == Frames(Tail(bs)).value;
      assert forall m :: m in ms ==> m == ms[0] || m in ms[1..];
      FramesOfEncode(ms);
    }
  }

  // ---- the end of a task ----

  function Ascii(s: string): Bytes {
    seq(|s|, i requires 0 <= i < |s| => s[i] as int % 256)
  }

  const COLON: byte := 58

  predicate Continuation(b: byte) {
    0x80 <= b < 0xC0
  }

  /** What bytes.decode() accepts: UTF-8 as in section 4 of RFC 3629, that is
      shortest forms only, no surrogate, nothing above U+10FFFF. */
  predicate Utf8(bs: Bytes) {
    if bs == [] then true
    else if bs[0] < 0x80 then Utf8(bs[1..])
    else if 0xC2 <= bs[0] < 0xE0 then
      |bs| >= 2 && Continuation(bs[1]) && Utf8(bs[2..])
    else if 0xE0 <= bs[0] < 0xF0 then
      |bs| >= 3 && Continuation(bs[1]) && Continuation(bs[2]) &&
      (bs[0] == 0xE0 ==> bs[1] >= 0xA0) && (bs[0] == 0xED ==> bs[1] < 0xA0) && Utf8(bs[3..])
    else if 0xF0 <= bs[0] < 0xF5 then
      |bs| >= 4 && Continuation(bs[1]) && Continuation(bs[2]) && Continuation(bs[3]) &&
      (bs[0] == 0xF0 ==> bs[1] >= 0x90) && (bs[0] == 0xF4 ==> bs[1] < 0x90) && Utf8(bs[4..])
    else false
  }

  /** The bytes before the first colon, all of them when there is none. */
  function UpToColon(bs: Bytes): (prefix: Bytes)
    ensures prefix <= bs && COLON !in prefix
    ensures prefix == bs || bs[|prefix|] == COLON
  {
    if bs == [] || bs[0] == COLON then [] else [bs[0]] + UpToColon(bs[1..])
  }

  datatype EndCheck = IsEnd | NotEnd | Raises

  /** _is_task_end_msg(): `entry.split(':')[1]` is tested for two prefixes.  A log
      record without data, with undecodable data or without a colon raises. */
  function TaskEnd(m: Message): EndCheck {
    if m.cmd != CMD_LOG then NotEnd
    else if m.data.None? || !Utf8(m.data.value) then Raises
    else
      var level := UpToColon(m.data.value);
      if level == m.data.value then Raises
      else
        var text := UpToColon(m.data.value[|level| + 1..]);
        if Ascii("Task failed") <= text || Ascii("Task succeeded") <= text then IsEnd else NotEnd
  }

  /** The record is `level`, a colon, `word`, and more. */
  ghost predicate Says(record: Bytes, level: Bytes, word: Bytes, rest: Bytes) {
    58 !in level && record == level + [58] + word + rest
  }

  /** The log record of a task that failed, or succeeded. */
  ghost predicate EndsTask(m: Message) {
    m.cmd == 0 && m.data.Some? && Utf8(m.data.value) &&
    exists level, rest ::
      || Says(m.data.value, level, [84, 97, 115, 107, 32, 102, 97, 105, 108, 101, 100], rest)
      || Says(m.data.value, level, [84, 97, 115, 107, 32, 115, 117, 99, 99, 101, 101, 100, 101, 100], rest)
  }

  /** A log record without data, that is not text or that has no colon. */
  predicate CannotBeTested(m: Message) {
    m.cmd == 0 && (m.data.None? || !Utf8(m.data.value) || 58 !in m.data.value)
  }

  lemma AsciiWords()
    ensures Ascii("Task failed") == [84, 97, 115, 107, 32, 102, 97, 105, 108, 101, 100]
    ensures Ascii("Task succeeded") == [84, 97, 115, 107, 32, 115, 117, 99, 99, 101, 101, 100, 101, 100]
  {
  }

  lemma {:induction false} UpToColonAfter(word: Bytes, rest: Bytes)
    requires COLON !in word
    ensures UpToColon(word + rest) == word + UpToColon(rest)
    decreases word
  {
    if word == [] {
      assert word + rest == rest;
    } else {
      assert (word + rest)[1..] == word[1..] + rest;
      UpToColonAfter(word[1..], rest);
      assert word == [word[0]] + word[1..];
    }
  }

  lemma LevelIs(record: Bytes, level: Bytes, after: Bytes)
    requires COLON !in level && record == level + [COLON] + after
    ensures UpToColon(record) == level && record[|level| + 1..] == after
  {
    assert record == level + ([COLON] + after);
    UpToColonAfter(level, [COLON] + after);
  }

  /** A word without a colon starts the text after the level exactly when the record
      says it. */
  lemma SaysIff(record: Bytes, word: Bytes)
    requires COLON in record && COLON !in word
    ensures var level := UpToColon(record);
            |level| < |record| &&
            (word <= UpToColon(record[|level| + 1..]) <==> exists l, rest :: Says(record, l, word, rest))
  {
    var level := UpToColon(record);
    if word <= UpToColon(record[|level| + 1..]) {
      WordSaid(record, level, word);
    }
    if l, rest :| Says(record, l, word, rest) {
      SaidWord(record, l, word, rest);
    }
  }

  lemma WordSaid(record: Bytes, level: Bytes, word: Bytes)
    requires COLON !in level && level < record && record[|level|] == COLON
    requires word <= UpToColon(record[|level| + 1..])
    ensures exists rest :: Says(record, level, word, rest)
  {
    var after := record[|level| + 1..];
    assert record == level + [COLON] + after;
    assert after == word + after[|word|..];
    assert Says(record, level, word, after[|word|..]);
  }

  lemma SaidWord(record: Bytes, level: Bytes, word: Bytes, rest: Bytes)
    requires COLON !in word && Says(record, level, word, rest)
    ensures UpToColon(record) == level && record[|level| + 1..] == word + rest
    ensures word <= UpToColon(word + rest)
  {
    assert record == level + [COLON] + (word + rest);
    LevelIs(record, level, word + rest);
    UpToColonAfter(word, rest);
  }

  lemma RecordEnds(m: Message)
    requires m.cmd == CMD_LOG && m.data.Some? && Utf8(m.data.value) && COLON in m.data.value
    ensures TaskEnd(m) == (if EndsTask(m) then IsEnd else NotEnd)
  {
    AsciiWords();
    SaysIff(m.data.value, Ascii("Task failed"));
    SaysIff(m.data.value, Ascii("Task succeeded"));
  }

  lemma RecordWithoutColon(m: Message)
    requires m.data.Some? && COLON !in m.data.value
    ensures UpToColon(m.data.value) == m.data.value && !EndsTask(m)
  {
    UpToColonAfter(m.data.value, []);
    assert m.data.value + [] == m.data.value;
    forall level, word, rest
      ensures !Says(m.data.value, level, word, rest)
    {
      assert 58 in level + [58] + word + rest;
    }
  }

  /** Which records end a task, and which raise. */
  lemma TaskEndIs(m: Message)
    ensures TaskEnd(m) == IsEnd <==> EndsTask(m)
    ensures TaskEnd(m) == Raises <==> CannotBeTested(m)
  {
    if m.cmd == CMD_LOG && m.data.Some? && Utf8(m.data.value) {
      if COLON in m.data.value {
        RecordEnds(m);
      } else {
        RecordWithoutColon(m);
      }
    }
  }

  // ---- the text that bytes stand for ----

  /** A Unicode scalar value. */
  predicate Scalar(c: nat) {
    c < 0x11_0000 && !(0xD800 <= c < 0xE000)
  }

  /** UTF-8 of one character: section 3 of RFC 3629. */
  function Utf8Char(c: nat): (bytes: Bytes)
    requires Scalar(c)
    ensures 1 <= |bytes|
  {
    if c < 0x80 then [c]
    else if c < 0x800 then [0xC0 + c / 64, 0x80 + c % 64]
    else if c < 0x1_0000 then [0xE0 + c / 64 / 64, 0x80 + c / 64 % 64, 0x80 + c % 64]
    else [0xF0 + c / 64 / 64 / 64, 0x80 + c / 64 / 64 % 64, 0x80 + c / 64 % 64, 0x80 + c % 64]
  }

  ghost predicate AllScalars(cs: seq<nat>) {
    forall c :: c in cs ==> Scalar(c)
  }

  function Utf8Text(cs: seq<nat>): Bytes
    requires AllScalars(cs)
  {
    if cs == [] then [] else Utf8Char(cs[0]) + Utf8Text(cs[1..])
  }

  /** These bytes are the UTF-8 of some text. */
  ghost predicate IsText(bs: Bytes) {
    exists cs :: AllScalars(cs) && Utf8Text(cs) == bs
  }

  lemma CharIsUtf8(c: nat, rest: Bytes)
    requires Scalar(c)
    ensures Utf8(Utf8Char(c) + rest) <==> Utf8(rest)
  {
    var bs := Utf8Char(c) + rest;
    assert bs[|Utf8Char(c)|..] == rest;
  }

  lemma {:induction false} TextIsUtf8(cs: seq<nat>)
    requires AllScalars(cs)
    ensures Utf8(Utf8Text(cs))
  {
    if cs != [] {
      CharIsUtf8(cs[0], Utf8Text(cs[1..]));
      TextIsUtf8(cs[1..]);
    }
  }

  lemma SixBits(high: nat, low: nat)
    requires low < 64
    ensures (high * 64 + low) / 64 == high && (high * 64 + low) % 64 == low
  {
  }

  lemma TwoBytes(a: int, b: int) returns (c: nat)
    requires 0xC2 <= a < 0xE0 && 0x80 <= b < 0xC0
    ensures Scalar(c) && Utf8Char(c) == [a, b]
  {
    c := (a - 0xC0) * 64 + (b - 0x80);
    SixBits(a - 0xC0, b - 0x80);
  }

  lemma ThreeBytes(a: int, b: int, d: int) returns (c: nat)
    requires 0xE0 <= a < 0xF0 && 0x80 <= b < 0xC0 && 0x80 <= d < 0xC0
    requires (a == 0xE0 ==> b >= 0xA0) && (a == 0xED ==> b < 0xA0)
    ensures Scalar(c) && Utf8Char(c) == [a, b, d]
  {
    var high := (a - 0xE0) * 64 + (b - 0x80);
    c := high * 64 + (d - 0x80);
    SixBits(a - 0xE0, b - 0x80);
    SixBits(high, d - 0x80);
  }

  lemma FourBytes(a: int, b: int, d: int, e: int) returns (c: nat)
    requires 0xF0 <= a < 0xF5 && 0x80 <= b < 0xC0 && 0x80 <= d < 0xC0 && 0x80 <= e < 0xC0
    requires (a == 0xF0 ==> b >= 0x90) && (a == 0xF4 ==> b < 0x90)
    ensures Scalar(c) && Utf8Char(c) == [a, b, d, e]
  {
    var top := (a - 0xF0) * 64 + (b - 0x80);
    var high := top * 64 + (d - 0x80);
    c := high * 64 + (e - 0x80);
    SixBits(a - 0xF0, b - 0x80);
    SixBits(top, d - 0x80);
    SixBits(high, e - 0x80);
  }

  /** The character that starts well-formed bytes. */
  lemma FirstChar(bs: Bytes) returns (c: nat, rest: Bytes)
    requires Utf8(bs) && bs != []
    ensures Scalar(c) && bs == Utf8Char(c) + rest
  {
    if bs[0] < 0x80 {
      c, rest := bs[0], bs[1..];
    } else if bs[0] < 0xE0 {
      c := TwoBytes(bs[0], bs[1]);
      rest := bs[2..];
    } else if bs[0] < 0xF0 {
      c := ThreeBytes(bs[0], bs[1], bs[2]);
      rest := bs[3..];
    } else {
      c := FourBytes(bs[0], bs[1], bs[2], bs[3]);
      rest := bs[4..];
    }
  }

  /** The decoder accepts exactly the encodings of texts. */
  lemma {:induction false} Utf8IsExact(bs: Bytes)
    ensures Utf8(bs) <==> IsText(bs)
    decreases |bs|
  {
    if Utf8(bs) {
      if bs == [] {
        assert Utf8Text([]) == bs;
      } else {
        var c, rest := FirstChar(bs);
        CharIsUtf8(c, rest);
        Utf8IsExact(rest);
        var cs :| AllScalars(cs) && Utf8Text(cs) == rest;
        assert ([c] + cs)[1..] == cs;
        assert Utf8Text([c] + cs) == bs;
      }
    }
    if cs :| AllScalars(cs) && Utf8Text(cs) == bs {
      TextIsUtf8(cs);
    }
  }

  // ---- sessions ----

  datatype Ending = EndOfStream | TaskEnded | Raised

  /** What the console generator yields for a stream of messages, and how it stops. */
  function Session(ms: seq<Message>): (seq<Message>, Ending) {
    if ms == [] then ([], EndOfStream)
    else match TaskEnd(ms[0])
         case IsEnd => ([ms[0]], TaskEnded)
         case Raises => ([ms[0]], Raised)
         case NotEnd => var (rest, ending) := Session(ms[1..]); ([ms[0]] + rest, ending)
  }

  /** A session yields the messages in order up to the first one that ends the
      task or cannot be tested, that one included, and all of them if none does. */
  lemma {:induction false} SessionIsPrefix(ms: seq<Message>)
    ensures var (out, ending) := Session(ms);
            && out <= ms
            && (forall k :: 0 <= k < |out| - 1 ==> TaskEnd(out[k]) == NotEnd)
            && (ending == EndOfStream <==> out == ms && forall m :: m in ms ==> TaskEnd(m) == NotEnd)
            && (ending == TaskEnded <==> out != [] && TaskEnd(out[|out| - 1]) == IsEnd)
            && (ending == Raised <==> out != [] && TaskEnd(out[|out| - 1]) == Raises)
  {
    if ms != [] {
      SessionIsPrefix(ms[1..]);
      var (out, ending) := Session(ms);
      if TaskEnd(ms[0]) == NotEnd {
        var (rest, _) := Session(ms[1..]);
        assert out == [ms[0]] + rest && ms == [ms[0]] + ms[1..];
        assert forall k :: 0 < k < |out| ==> out[k] == rest[k - 1];
        assert forall m :: m in ms <==> m == ms[0] || m in ms[1..];
        if rest == ms[1..] {
          assert out == ms;
        }
        if out == ms {
          assert rest == out[1..] == ms[1..];
        }
      } else {
        assert ms[0] in ms;
      }
    }
  }

  /** What a client may yield for the messages `ms`, and how it stops: all the messages
      up to the record that ends the task, or that cannot be tested. */
  ghost predicate IsSession(ms: seq<Message>, out: seq<Message>, ending: Ending) {
    && out <= ms
    && (forall k :: 0 <= k < |out| - 1 ==> !EndsTask(out[k]) && !CannotBeTested(out[k]))
    && (ending == TaskEnded <==> out != [] && EndsTask(out[|out| - 1]))
    && (ending == Raised <==> out != [] && CannotBeTested(out[|out| - 1]))
    && (ending == EndOfStream ==> out == ms)
  }

  lemma SessionIs(ms: seq<Message>)
    ensures IsSession(ms, Session(ms).0, Session(ms).1)
  {
    SessionIsPrefix(ms);
    var out := Session(ms).0;
    forall k | 0 <= k < |out|
      ensures TaskEnd(out[k]) == IsEnd <==> EndsTask(out[k])
      ensures TaskEnd(out[k]) == Raises <==> CannotBeTested(out[k])
    {
      TaskEndIs(out[k]);
    }
  }
}
