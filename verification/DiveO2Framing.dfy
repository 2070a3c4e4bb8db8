/** Cutting the byte stream of a DiveO2 cell into lines, and cleaning a line for the parsers.
    Source: oxygen_cell_diveo2.c. */
module DiveO2Framing {
  import opened Common

  type Text = seq<Byte>

  const BUFFER_LEN: nat := 86
  const CR: int := 0x0D
  const LF: int := 0x0A
  const NUL: int := 0

  predicate Ends(b: int) { b == CR || b == LF }

  // ---- Lines ----

  /** The line being received and the frames handed over so far. */
  datatype Rx = Rx(line: Text, frames: seq<Text>)

  function Receive(s: Rx, b: Byte): Rx {
    if Ends(b) then
      if |s.line| > 0 then Rx([], s.frames + [s.line]) else s
    else if |s.line| < BUFFER_LEN - 1 then s.(line := s.line + [b])
    else s.(line := [])
  }

  function Feed(s: Rx, bytes: Text): Rx {
    if bytes == [] then s else Receive(Feed(s, bytes[..|bytes| - 1]), bytes[|bytes| - 1])
  }

  /** Framing does not depend on how the bytes are cut into chunks. */
  lemma {:induction false} FeedChunks(s: Rx, a: Text, b: Text)
    ensures Feed(s, a + b) == Feed(Feed(s, a), b)
  {
    if b == [] {
      assert a + b == a;
    } else {
      var front := b[..|b| - 1];
      FeedChunks(s, a, front);
      assert (a + b)[..|a + b| - 1] == a + front;
    }
  }

  /** Chunks as they arrive, and their concatenation. */
  function FeedAll(s: Rx, chunks: seq<Text>): Rx {
    if chunks == [] then s else Feed(FeedAll(s, chunks[..|chunks| - 1]), chunks[|chunks| - 1])
  }

  function Joined(chunks: seq<Text>): Text {
    if chunks == [] then [] else Joined(chunks[..|chunks| - 1]) + chunks[|chunks| - 1]
  }

  lemma {:induction false} ChunkingIsIrrelevant(s: Rx, chunks: seq<Text>)
    ensures FeedAll(s, chunks) == Feed(s, Joined(chunks))
  {
    if chunks != [] {
      var front := chunks[..|chunks| - 1];
      ChunkingIsIrrelevant(s, front);
      FeedChunks(s, Joined(front), chunks[|chunks| - 1]);
    }
  }

  /** The line never outgrows its buffer, which keeps room for a terminator. */
  lemma {:induction false} LineFits(s: Rx, bytes: Text)
    requires |s.line| < BUFFER_LEN
    ensures |Feed(s, bytes).line| < BUFFER_LEN
  {
    if bytes != [] { LineFits(s, bytes[..|bytes| - 1]); }
  }

  // ---- The reference: separating at every CR or LF ----

  predicate Plain(t: Text) { forall i :: 0 <= i < |t| ==> !Ends(t[i]) }

  /** Where the first terminator is, or the length. */
  function FirstEnd(t: Text): (k: nat)
    ensures k <= |t| && Plain(t[..k]) && (k < |t| ==> Ends(t[k]))
  {
    if t == [] || Ends(t[0]) then 0
    else
      var k := FirstEnd(t[1..]) + 1;
      assert forall i :: 1 <= i < k ==> t[i] == t[1..][..k - 1][i - 1];
      k
  }

  /** The non-empty terminated lines of a text, and what is left after the last terminator. */
  function Lines(t: Text): (r: Rx)
    decreases |t|
  {
    var k := FirstEnd(t);
    if k == |t| then Rx(t, [])
    else
      var rest := Lines(t[k + 1..]);
      Rx(rest.line, (if k > 0 then [t[..k]] else []) + rest.frames)
  }

  /** No line, finished or not, is longer than the buffer can take. */
  predicate ShortLines(t: Text)
    decreases |t|
  {
    var k := FirstEnd(t);
    k < BUFFER_LEN && (k < |t| ==> ShortLines(t[k + 1..]))
  }

  lemma {:induction false} FeedPlain(s: Rx, t: Text)
    requires Plain(t) && |s.line| + |t| < BUFFER_LEN
    ensures Feed(s, t) == Rx(s.line + t, s.frames)
  {
    if t == [] {
      assert s.line + t == s.line;
    } else {
      var front := t[..|t| - 1];
      FeedPlain(s, front);
      assert t == front + [t[|t| - 1]];
      assert s.line + t == s.line + front + [t[|t| - 1]];
    }
  }

  lemma Associate(a: seq<Text>, b: seq<Text>, c: seq<Text>)
    ensures (a + b) + c == a + (b + c)
  {}

  lemma {:induction false} FeedTwo(s: Rx, a: Text, b: Text, t: Text, middle: Rx, last: Rx)
    requires Feed(s, a) == middle && Feed(middle, b) == last && t == a + b
    ensures Feed(s, t) == last
  {
    FeedChunks(s, a, b);
  }

  /** What feeding a text of short lines gives. */
  function Fed(frames: seq<Text>, l: Rx): Rx { Rx(l.line, frames + l.frames) }

  lemma LinesStep(t: Text, k: nat)
    requires k == FirstEnd(t) < |t|
    ensures Lines(t) == Fed(if k > 0 then [t[..k]] else [], Lines(t[k + 1..]))
  {}

  lemma FedStep(frames: seq<Text>, own: seq<Text>, l: Rx, whole: Rx)
    requires whole == Fed(own, l)
    ensures Fed(frames + own, l) == Fed(frames, whole)
  {
    Associate(frames, own, l.frames);
  }

  /** If no line is over-long, the frames are exactly the non-empty lines. */
  lemma {:induction false} FramesAreLines(frames: seq<Text>, t: Text)
    requires ShortLines(t)
    ensures Feed(Rx([], frames), t) == Fed(frames, Lines(t))
  {
    LinesFromHere(frames, t, Lines(t), Feed(Rx([], frames), t));
  }

  lemma {:induction false} LinesFromHere(frames: seq<Text>, t: Text, l: Rx, r: Rx)
    requires ShortLines(t) && l == Lines(t) && r == Feed(Rx([], frames), t)
    ensures r == Fed(frames, l)
    decreases |t|
  {
    var k := FirstEnd(t);
    if k == |t| {
      LastLine(frames, t);
    } else {
      var own := if k > 0 then [t[..k]] else [];
      var m := Lines(t[k + 1..]);
      LinesStep(t, k);
      LinesFromHere(frames + own, t[k + 1..], m, Feed(Rx([], frames + own), t[k + 1..]));
      JoinLines(frames, t, k, own, m, l, r);
    }
  }

  lemma {:induction false} JoinLines(frames: seq<Text>, t: Text, k: nat, own: seq<Text>, m: Rx, l: Rx, r: Rx)
    requires k < |t| && k < BUFFER_LEN && Plain(t[..k]) && Ends(t[k]) && own == (if k > 0 then [t[..k]] else [])
    requires Feed(Rx([], frames + own), t[k + 1..]) == Fed(frames + own, m)
    requires l == Fed(own, m) && r == Feed(Rx([], frames), t)
    ensures r == Fed(frames, l)
  {
    FeedLine(frames, t, k);
    assert t == t[..k + 1] + t[k + 1..];
    FeedTwo(Rx([], frames), t[..k + 1], t[k + 1..], t, Rx([], frames + own), Fed(frames + own, m));
    FedStep(frames, own, m, l);
  }

  lemma {:induction false} LastLine(frames: seq<Text>, t: Text)
    requires FirstEnd(t) == |t| < BUFFER_LEN
    ensures Feed(Rx([], frames), t) == Fed(frames, Lines(t))
  {
    assert t[..|t|] == t;
    FeedPlain(Rx([], frames), t);
    assert [] + t == t;
    assert frames + [] == frames;
  }

  /** One terminated line. */
  lemma FeedLine(frames: seq<Text>, t: Text, k: nat)
    requires k < |t| && k < BUFFER_LEN && Plain(t[..k]) && Ends(t[k])
    ensures Feed(Rx([], frames), t[..k + 1]) == Rx([], frames + if k > 0 then [t[..k]] else [])
  {
    FeedPlain(Rx([], frames), t[..k]);
    assert [] + t[..k] == t[..k];
    assert t[..k + 1][..k] == t[..k];
    assert frames + [] == frames;
  }

  /** An over-long line is lost, and so is the byte that overran: the line restarts after it. */
  lemma OverrunRestarts(frames: seq<Text>, t: Text, b: Byte)
    requires Plain(t) && |t| == BUFFER_LEN - 1 && !Ends(b)
    ensures Feed(Rx([], frames), t + [b]) == Rx([], frames)
  {
    FeedPlain(Rx([], frames), t);
    assert [] + t == t;
    assert (t + [b])[..|t|] == t;
  }

  // ---- The code ----

  class Receiver {
    const rxLine: array<Byte>
    const lastMessage: array<Byte>
    var rxLineLen: nat
    var rxLen: nat
    ghost var frames: seq<Text>

    ghost predicate Valid() reads this, rxLine, lastMessage {
      && rxLine.Length == BUFFER_LEN == lastMessage.Length && rxLine != lastMessage
      && rxLineLen < BUFFER_LEN
      && ShortFrames(frames) && lastMessage[..] == LastMessage(frames)
      && (frames != [] ==> rxLen == |frames[|frames| - 1]|)
    }

    ghost function State(): Rx
      requires Valid()
      reads this, rxLine, lastMessage
    {
      Rx(rxLine[..rxLineLen], frames)
    }

    constructor ()
      ensures Valid() && State() == Rx([], []) && fresh(rxLine) && fresh(lastMessage)
      ensures lastMessage[..] == Zeros(BUFFER_LEN)
    {
      rxLine := new Byte[BUFFER_LEN](_ => 0);
      lastMessage := new Byte[BUFFER_LEN](_ => 0);
      rxLineLen, rxLen, frames := 0, 0, [];
      new;
      assert lastMessage[..] == Zeros(BUFFER_LEN);
    }

    /** diveo2_feed_rx on one event: every write stays inside the two buffers. */
    method FeedRx(buf: Text, offset: nat, len: nat)
      requires Valid() && offset + len <= |buf|
      modifies this, rxLine, lastMessage
      ensures Valid() && State() == Feed(old(State()), buf[offset..offset + len])
    {
      var i := 0;
      assert buf[offset..offset] == [];
      while i < len
        invariant i <= len && Valid() && State() == Feed(old(State()), buf[offset..offset + i])
      {
        assert buf[offset..offset + i + 1][..i] == buf[offset..offset + i];
        ReceiveByte(buf[offset + i]);
        i := i + 1;
      }
    }

    /** Hand the line over and start a new one. */
    method Deliver()
      requires Valid() && rxLineLen > 0
      modifies this, lastMessage
      ensures Valid() && State() == Rx([], old(State()).frames + [old(State()).line])
    {
      ghost var frame := rxLine[..rxLineLen];
      forall k | 0 <= k < rxLineLen { lastMessage[k] := rxLine[k]; }
      lastMessage[rxLineLen] := 0;
      assert lastMessage[..] == Overwrite(old(lastMessage[..]), frame);
      Delivered(frames, frame);
      rxLen := rxLineLen;
      rxLineLen := 0;
      frames := frames + [frame];
    }

    method ReceiveByte(byte: Byte)
      requires Valid()
      modifies this, rxLine, lastMessage
      ensures Valid() && State() == Receive(old(State()), byte)
    {
      if byte == CR || byte == LF {
        if rxLineLen > 0 { Deliver(); }
      } else if rxLineLen < BUFFER_LEN - 1 {
        rxLine[rxLineLen] := byte;
        rxLineLen := rxLineLen + 1;
      } else {
        rxLineLen := 0;
      }
    }
  }

  function Zeros(n: nat): (t: Text)
    ensures |t| == n && forall i :: 0 <= i < n ==> t[i] == 0
  {
    seq(n, _ => 0)
  }

  // ---- The message buffer ----

  /** The buffer holds a frame and its terminator; whatever earlier frames left lies beyond. */
  predicate Holds(buffer: Text, frame: Text) {
    |buffer| == BUFFER_LEN && |frame| < BUFFER_LEN && buffer[..|frame|] == frame && buffer[|frame|] == 0
  }

  /** What a new frame leaves in the message buffer: itself, a terminator, and stale bytes. */
  function Overwrite(buffer: Text, frame: Text): (r: Text)
    requires |buffer| == BUFFER_LEN && |frame| < BUFFER_LEN
    ensures Holds(r, frame)
  {
    frame + [0] + buffer[|frame| + 1..]
  }

  predicate ShortFrames(frames: seq<Text>) { forall i :: 0 <= i < |frames| ==> |frames[i]| < BUFFER_LEN }

  /** The message buffer after the given frames were delivered to a cleared one. */
  function LastMessage(frames: seq<Text>): (b: Text)
    requires ShortFrames(frames)
    ensures |b| == BUFFER_LEN
  {
    if frames == [] then Zeros(BUFFER_LEN)
    else Overwrite(LastMessage(frames[..|frames| - 1]), frames[|frames| - 1])
  }

  lemma Delivered(frames: seq<Text>, frame: Text)
    requires ShortFrames(frames) && |frame| < BUFFER_LEN
    ensures ShortFrames(frames + [frame])
    ensures LastMessage(frames + [frame]) == Overwrite(LastMessage(frames), frame)
  {
    assert (frames + [frame])[..|frames|] == frames;
  }

  /** The last byte only ever receives a terminator. */
  lemma {:induction false} LastByteIsNul(frames: seq<Text>)
    requires ShortFrames(frames)
    ensures LastMessage(frames)[BUFFER_LEN - 1] == 0
  {
    if frames != [] { LastByteIsNul(frames[..|frames| - 1]); }
  }

  // ---- Cleaning a line ----

  predicate Junk(b: int) { b == NUL || b == CR }

  /** How many leading junk bytes are skipped, at most `room`. */
  function Leading(t: Text, room: nat): (k: nat)
    ensures k <= room && k <= |t|
  {
    if room > 0 && t != [] && Junk(t[0]) then 1 + Leading(t[1..], room - 1) else 0
  }

  /** A C string as the parsers see it: up to the first NUL, CR or LF. */
  function UpToEnd(t: Text): Text {
    if t == [] || t[0] == NUL || Ends(t[0]) then [] else [t[0]] + UpToEnd(t[1..])
  }

  /** diveo2_prepare_message_buffer on the whole 86-byte buffer. */
  function Prepared(buffer: Text): Text
    requires |buffer| == BUFFER_LEN
  {
    UpToEnd(buffer[Leading(buffer, BUFFER_LEN - 1)..])
  }

  /** The same, on the frame alone. */
  function Cleaned(frame: Text): Text {
    UpToEnd(frame[Leading(frame, |frame|)..])
  }

  predicate AllNul(t: Text) { forall i :: 0 <= i < |t| ==> t[i] == NUL }

  lemma {:induction false} LeadingInFrame(frame: Text, rest: Text, room: nat)
    requires |frame| <= room && Plain(frame) && !AllNul(frame)
    ensures Leading(frame + rest, room) == Leading(frame, |frame|) < |frame|
  {
    assert (frame + rest)[0] == frame[0];
    if frame[0] == NUL {
      var tail := frame[1..];
      assert exists i :: 0 < i < |frame| && frame[i] != NUL && tail[i - 1] != NUL;
      assert forall i :: 0 <= i < |tail| ==> tail[i] == frame[i + 1];
      LeadingInFrame(tail, rest, room - 1);
      assert (frame + rest)[1..] == tail + rest;
    }
  }

  lemma {:induction false} UpToEndStops(a: Text, rest: Text)
    requires rest != [] && rest[0] == NUL
    ensures UpToEnd(a + rest) == UpToEnd(a)
  {
    if a == [] {
      assert a + rest == rest;
    } else {
      UpToEndStops(a[1..], rest);
      assert (a + rest)[1..] == a[1..] + rest;
      assert (a + rest)[0] == a[0];
    }
  }

  /** A frame with any byte but NUL is cleaned without regard to what earlier frames left. */
  lemma CleanedFromFrame(buffer: Text, frame: Text)
    requires Holds(buffer, frame) && Plain(frame) && !AllNul(frame)
    ensures Prepared(buffer) == Cleaned(frame)
  {
    var rest := buffer[|frame|..];
    assert buffer == frame + rest;
    LeadingInFrame(frame, rest, BUFFER_LEN - 1);
    var k := Leading(frame, |frame|);
    assert buffer[k..] == frame[k..] + rest;
    UpToEndStops(frame[k..], rest);
  }

  lemma {:induction false} LeadingNuls(t: Text, room: nat)
    requires AllNul(t)
    ensures Leading(t, room) == if room < |t| then room else |t|
  {
    if t != [] && room > 0 { LeadingNuls(t[1..], room - 1); }
  }

  lemma {:induction false} LeadingNulsThen(t: Text, rest: Text, room: nat)
    requires AllNul(t) && |t| <= room && rest != [] && !Junk(rest[0])
    ensures Leading(t + rest, room) == |t|
  {
    if t == [] {
      assert t + rest == rest;
    } else {
      assert (t + rest)[1..] == t[1..] + rest;
      assert (t + rest)[0] == t[0];
      LeadingNulsThen(t[1..], rest, room - 1);
    }
  }

  lemma {:induction false} LeadingMonotone(t: Text, k: nat, room: nat)
    requires k <= |t| && k <= room && AllNul(t[..k])
    ensures Leading(t, room) >= k
  {
    if k > 0 {
      assert t[..k][0] == t[0];
      assert t[1..][..k - 1] == t[..k][1..];
      LeadingMonotone(t[1..], k - 1, room - 1);
    }
  }

  /** Lines that can be delivered: not empty, without terminators, and short enough. */
  predicate Lineable(frames: seq<Text>) {
    forall i :: 0 <= i < |frames| ==> 0 < |frames[i]| < BUFFER_LEN && Plain(frames[i])
  }

  /** Each line with its terminator. */
  function Sent(frames: seq<Text>): Text {
    if frames == [] then [] else Sent(frames[..|frames| - 1]) + (frames[|frames| - 1] + [CR])
  }

  /** Every such history of frames is what some bytes are cut into. */
  lemma {:induction false} EveryHistoryIsSent(frames: seq<Text>)
    requires Lineable(frames)
    ensures Feed(Rx([], []), Sent(frames)) == Rx([], frames)
  {
    if frames != [] {
      var front, line := frames[..|frames| - 1], frames[|frames| - 1];
      EveryHistoryIsSent(front);
      SendOne(front, line);
      assert frames == front + [line];
      FeedTwo(Rx([], []), Sent(front), line + [CR], Sent(frames), Rx([], front), Rx([], frames));
    }
  }

  lemma {:induction false} SendOne(front: seq<Text>, line: Text)
    requires 0 < |line| < BUFFER_LEN && Plain(line)
    ensures Feed(Rx([], front), line + [CR]) == Rx([], front + [line])
  {
    assert (line + [CR])[..|line|] == line && (line + [CR])[..|line| + 1] == line + [CR];
    FeedLine(front, line + [CR], |line|);
  }

  /** A line of NULs lets stale bytes through: after a line two bytes longer, the last byte of that
      line lies just past the terminator and is taken for the message. */
  lemma StaleByteShowsThrough(frame: Text, b: Byte) returns (earlier: seq<Text>)
    requires AllNul(frame) && 0 < |frame| < BUFFER_LEN - 2 && !Junk(b) && !Ends(b)
    ensures Lineable(earlier) && ShortFrames(earlier + [frame])
    ensures Prepared(LastMessage(earlier + [frame])) == [b] && Cleaned(frame) == []
  {
    var n := |frame|;
    var line := seq<Byte>(n + 2, _ => b);
    earlier := [line];
    var first := Overwrite(Zeros(BUFFER_LEN), line);
    var buffer := Overwrite(first, frame);
    var none: seq<Text> := [];
    Delivered(none, line);
    assert none + [line] == earlier;
    Delivered(earlier, frame);
    var nuls, stale := Zeros(n + 1), [b] + Zeros(BUFFER_LEN - n - 2);
    assert buffer == nuls + stale;
    LeadingNulsThen(nuls, stale, BUFFER_LEN - 1);
    assert buffer[|nuls|..] == stale;
    assert stale[1..] == Zeros(BUFFER_LEN - n - 2);
    assert UpToEnd(stale[1..]) == [];
    assert UpToEnd(stale) == [b] + [] == [b];
    LeadingNuls(frame, n);
  }

  /** Whatever frames came before, the message depends on the last frame alone exactly when that
      is not all NULs or at least 84 bytes long. */
  lemma MessageDependsOnFrameIff(frame: Text)
    requires 0 < |frame| < BUFFER_LEN && Plain(frame)
    ensures (forall earlier: seq<Text> :: Lineable(earlier) && ShortFrames(earlier + [frame]) ==>
        Prepared(LastMessage(earlier + [frame])) == Cleaned(frame))
      <==> !AllNul(frame) || |frame| >= BUFFER_LEN - 2
  {
    if !AllNul(frame) || |frame| >= BUFFER_LEN - 2 {
      forall earlier: seq<Text> | Lineable(earlier) && ShortFrames(earlier + [frame])
        ensures Prepared(LastMessage(earlier + [frame])) == Cleaned(frame)
      {
        DependsOnFrame(earlier, frame);
      }
    } else {
      var earlier := StaleByteShowsThrough(frame, 0x23);
    }
  }

  lemma DependsOnFrame(earlier: seq<Text>, frame: Text)
    requires Lineable(earlier) && ShortFrames(earlier + [frame]) && Plain(frame)
    requires !AllNul(frame) || |frame| >= BUFFER_LEN - 2
    ensures Prepared(LastMessage(earlier + [frame])) == Cleaned(frame)
  {
    assert (earlier + [frame])[|earlier|] == frame;
    var buffer := LastMessage(earlier + [frame]);
    Delivered(earlier, frame);
    if !AllNul(frame) {
      CleanedFromFrame(buffer, frame);
    } else {
      LastByteIsNul(earlier + [frame]);
      LeadingMonotone(buffer, BUFFER_LEN - 1, BUFFER_LEN - 1);
      LeadingNuls(frame, |frame|);
      assert buffer[BUFFER_LEN - 1..][0] == 0;
    }
  }
}
