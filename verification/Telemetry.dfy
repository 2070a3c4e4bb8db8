/** The flash-log stream: records behind a 12-byte header, grouped to any depth into BATCH
    containers. Source: telemetry_log.py. */
module Telemetry {
  import opened Common

  type Bytes = seq<Byte>

  const HEADER_LEN: nat := 12
  const STREAM_HEADER_LEN: nat := 16
  const BATCH: int := 0xFD
  const END_OF_STREAM: int := 0xFF
  const U16: nat := 0x1_0000
  const U64: nat := 0x1_0000_0000_0000_0000

  datatype Record = Record(kind: int, flags: int, ts: int, payload: Bytes)

  datatype Result<T> = Ok(value: T) | StructError

  // ---- The entry header ----

  datatype Header = Header(kind: Byte, flags: Byte, length: nat, ts: nat)

  predicate HeaderFits(kind: int, flags: int, length: int, ts: int) {
    0 <= kind < 256 && 0 <= flags < 256 && 0 <= length < U16 && 0 <= ts < U64
  }

  function Pack(kind: int, flags: int, length: int, ts: int): (s: Bytes)
    requires HeaderFits(kind, flags, length, ts)
    ensures |s| == HEADER_LEN
  {
    [kind, flags] + Bytes16(length) + Bytes64(ts)
  }

  /** The header found at an offset of a buffer. */
  function UnpackFrom(data: Bytes, i: nat): (h: Header)
    requires i + HEADER_LEN <= |data|
    ensures h.length < U16 && h.ts < U64
  {
    Header(data[i], data[i + 1], Le16(data, i + 2), Le64(data, i + 4))
  }

  lemma SameLe64(s: Bytes, i: nat, t: Bytes, j: nat)
    requires i + 8 <= |s| && j + 8 <= |t| && s[i..i + 8] == t[j..j + 8]
    ensures Le64(s, i) == Le64(t, j)
  {
    var x, y := s[i..i + 8], t[j..j + 8];
    assert x[0] == y[0] && x[1] == y[1] && x[2] == y[2] && x[3] == y[3];
    assert x[4] == y[4] && x[5] == y[5] && x[6] == y[6] && x[7] == y[7];
  }

  /** A packed header is read back wherever it stands. */
  lemma UnpackPack(kind: int, flags: int, length: int, ts: int, rest: Bytes)
    requires HeaderFits(kind, flags, length, ts)
    ensures UnpackFrom(Pack(kind, flags, length, ts) + rest, 0) == Header(kind, flags, length, ts)
  {
    var s := Pack(kind, flags, length, ts) + rest;
    var l, u := Bytes16(length), Bytes64(ts);
    assert s[2] == l[0] && s[3] == l[1];
    assert s[4..12] == u == u[0..8];
    SameLe64(s, 4, u, 0);
  }

  // ---- Walking ----

  /** A record lies whole between the cursor and the end, and does not end the stream. */
  predicate WholeAt(h: Header, i: nat, end: nat) {
    i + HEADER_LEN + h.length <= end && h.kind as int != END_OF_STREAM
  }

  /** What the record at a cursor adds: itself, or the contents of a container. */
  function FoundAt(data: Bytes, h: Header, body: nat, stop: nat): seq<Record>
    requires body <= stop <= |data|
    decreases stop - body, 1
  {
    if h.kind as int == BATCH then RecordsAt(data, body, stop) else [Record(h.kind, h.flags, h.ts, data[body..stop])]
  }

  /** The records between a cursor and an end of a buffer, containers flattened. */
  function RecordsAt(data: Bytes, i: nat, end: nat): seq<Record>
    requires end <= |data|
    decreases if i < end then end - i else 0, 0
  {
    if i + HEADER_LEN > end then []
    else
      var h := UnpackFrom(data, i);
      if !WholeAt(h, i, end) then []
      else FoundAt(data, h, i + HEADER_LEN, i + HEADER_LEN + h.length) + RecordsAt(data, i + HEADER_LEN + h.length, end)
  }

  /** All records in a run of bytes. */
  function Records(s: Bytes): seq<Record> { RecordsAt(s, 0, |s|) }

  function Payload(data: Bytes): Bytes {
    if |data| >= 4 && data[..4] == MAGIC then
      if |data| < STREAM_HEADER_LEN then [] else data[STREAM_HEADER_LEN..]
    else data
  }

  const MAGIC: Bytes := [0x44, 0x4C, 0x43, 0x47]

  /** _walk: a cursor over one shared buffer, recursing into containers. */
  method Walk(data: Bytes, start: nat, end: nat) returns (out: seq<Record>)
    requires end <= |data|
    ensures out == RecordsAt(data, start, end)
    decreases if start < end then end - start else 0, 0
  {
    out := [];
    var i := start;
    ghost var all := RecordsAt(data, start, end);
    while i + HEADER_LEN <= end
      invariant start <= i
      invariant all == out + RecordsAt(data, i, end)
      decreases end - i
    {
      var h := UnpackFrom(data, i);
      var body := i + HEADER_LEN;
      var stop := body + h.length;
      if stop > end { return; }
      if h.kind as int == END_OF_STREAM { return; }
      var found := ReadBody(data, body, stop, h);
      WalkStep(data, i, end, h, found, all, out);
      out := out + found;
      i := stop;
    }
  }

  /** Moving over one record. */
  lemma WalkStep(data: Bytes, i: nat, end: nat, h: Header, found: seq<Record>, all: seq<Record>, out: seq<Record>)
    requires i + HEADER_LEN <= end <= |data| && h == UnpackFrom(data, i) && WholeAt(h, i, end)
    requires found == FoundAt(data, h, i + HEADER_LEN, i + HEADER_LEN + h.length)
    requires all == out + RecordsAt(data, i, end)
    ensures all == (out + found) + RecordsAt(data, i + HEADER_LEN + h.length, end)
  {
    Associate(out, found, RecordsAt(data, i + HEADER_LEN + h.length, end));
  }

  /** What one record adds: itself, or a walk of the container it is. */
  method ReadBody(data: Bytes, body: nat, stop: nat, h: Header) returns (found: seq<Record>)
    requires stop == body + h.length <= |data|
    ensures found == FoundAt(data, h, body, stop)
    decreases stop - body, 1
  {
    if h.kind as int == BATCH {
      found := Walk(data, body, stop);
    } else {
      found := [Record(h.kind, h.flags, h.ts, data[body..stop])];
    }
  }

  lemma Associate(a: seq<Record>, b: seq<Record>, c: seq<Record>)
    ensures a + (b + c) == (a + b) + c
  {}

  // ---- Bytes read the same wherever they stand ----

  predicate Same(a: Bytes, i: nat, e: nat, b: Bytes, j: nat, f: nat) {
    i <= e <= |a| && j <= f <= |b| && a[i..e] == b[j..f]
  }

  lemma SliceOfSlice(data: Bytes, i: nat, end: nat, a: nat, b: nat)
    requires i <= a <= b <= end <= |data|
    ensures data[i..end][a - i..b - i] == data[a..b]
  {
    forall k | 0 <= k < b - a ensures data[i..end][a - i..b - i][k] == data[a..b][k] {}
  }

  lemma SamePart(a: Bytes, i: nat, e: nat, b: Bytes, j: nat, f: nat, i2: nat, e2: nat, j2: nat, f2: nat)
    requires Same(a, i, e, b, j, f) && i <= i2 <= e2 <= e && j <= j2 <= f2 <= f && i2 - i == j2 - j && e2 - i == f2 - j
    ensures Same(a, i2, e2, b, j2, f2)
  {
    SliceOfSlice(a, i, e, i2, e2);
    SliceOfSlice(b, j, f, j2, f2);
  }

  lemma SameHeader(a: Bytes, i: nat, e: nat, b: Bytes, j: nat, f: nat)
    requires Same(a, i, e, b, j, f) && i + HEADER_LEN <= e
    ensures j + HEADER_LEN <= f && UnpackFrom(a, i) == UnpackFrom(b, j)
  {
    var x, y := a[i..e], b[j..f];
    assert |x| == |y|;
    assert x[0] == y[0] && x[1] == y[1] && x[2] == y[2] && x[3] == y[3];
    SamePart(a, i, e, b, j, f, i + 4, i + 4 + 8, j + 4, j + 4 + 8);
    SameLe64(a, i + 4, b, j + 4);
  }

  /** Both buffers yield the same, given that for what the first record adds and for the rest. */
  lemma SameStep(a: Bytes, i: nat, e: nat, b: Bytes, j: nat, f: nat, h: Header)
    requires i + HEADER_LEN <= e <= |a| && j + HEADER_LEN <= f <= |b| && e - i == f - j
    requires h == UnpackFrom(a, i) == UnpackFrom(b, j)
    requires i + HEADER_LEN + h.length <= e ==>
      && FoundAt(a, h, i + HEADER_LEN, i + HEADER_LEN + h.length)
         == FoundAt(b, h, j + HEADER_LEN, j + HEADER_LEN + h.length)
      && RecordsAt(a, i + HEADER_LEN + h.length, e) == RecordsAt(b, j + HEADER_LEN + h.length, f)
    ensures RecordsAt(a, i, e) == RecordsAt(b, j, f)
  {}

  lemma SameFound(a: Bytes, i: nat, e: nat, b: Bytes, j: nat, f: nat, h: Header)
    requires Same(a, i, e, b, j, f) && RecordsAt(a, i, e) == RecordsAt(b, j, f)
    ensures FoundAt(a, h, i, e) == FoundAt(b, h, j, f)
  {}

  /** Equal bytes yield equal records, wherever they stand. */
  lemma {:induction false} Relocate(a: Bytes, i: nat, e: nat, b: Bytes, j: nat, f: nat)
    requires Same(a, i, e, b, j, f)
    ensures RecordsAt(a, i, e) == RecordsAt(b, j, f)
    decreases e - i, 1
  {
    assert |a[i..e]| == |b[j..f]|;
    if i + HEADER_LEN <= e {
      SameHeader(a, i, e, b, j, f);
      var h := UnpackFrom(a, i);
      if i + HEADER_LEN + h.length <= e { RelocateParts(a, i, e, b, j, f, h); }
      SameStep(a, i, e, b, j, f, h);
    }
  }

  lemma {:induction false} RelocateParts(a: Bytes, i: nat, e: nat, b: Bytes, j: nat, f: nat, h: Header)
    requires Same(a, i, e, b, j, f) && e - i == f - j && i + HEADER_LEN + h.length <= e
    ensures FoundAt(a, h, i + HEADER_LEN, i + HEADER_LEN + h.length)
      == FoundAt(b, h, j + HEADER_LEN, j + HEADER_LEN + h.length)
    ensures RecordsAt(a, i + HEADER_LEN + h.length, e) == RecordsAt(b, j + HEADER_LEN + h.length, f)
    decreases e - i, 0
  {
    var p, q := i + HEADER_LEN, j + HEADER_LEN;
    var s, t := p + h.length, q + h.length;
    SamePart(a, i, e, b, j, f, p, s, q, t);
    SamePart(a, i, e, b, j, f, s, e, t, f);
    Relocate(a, p, s, b, q, t);
    Relocate(a, s, e, b, t, f);
    SameFound(a, p, s, b, q, t, h);
  }

  method IterRecords(data: Bytes) returns (out: seq<Record>)
    ensures out == Records(Payload(data))
  {
    var start := if |data| >= 4 && data[..4] == MAGIC then STREAM_HEADER_LEN else 0;
    out := Walk(data, start, |data|);
    if start <= |data| {
      var p := Payload(data);
      assert p == data[start..|data|] == p[0..|p|];
      Relocate(data, start, |data|, p, 0, |p|);
    }
  }

  // ---- Encoding ----

  /** A sequence of records and containers. */
  datatype Forest =
    | End
    | Leaf(record: Record, rest: Forest)
    | Batch(flags: int, ts: int, inner: Forest, rest: Forest)

  function Flatten(f: Forest): seq<Record> {
    match f
    case End => []
    case Leaf(r, rest) => [r] + Flatten(rest)
    case Batch(_, _, inner, rest) => Flatten(inner) + Flatten(rest)
  }

  predicate Fits(r: Record) {
    HeaderFits(r.kind, r.flags, |r.payload|, r.ts)
  }

  /** A record that a reader takes neither for a container nor for the end. */
  predicate Plain(r: Record) {
    r.kind != BATCH && r.kind != END_OF_STREAM
  }

  function Length(f: Forest): nat {
    match f
    case End => 0
    case Leaf(r, rest) => HEADER_LEN + |r.payload| + Length(rest)
    case Batch(_, _, inner, rest) => HEADER_LEN + Length(inner) + Length(rest)
  }

  /** Every field fits its place in a header, and no record is mistaken for something else. */
  predicate Encodable(f: Forest) {
    match f
    case End => true
    case Leaf(r, rest) => Fits(r) && Plain(r) && Encodable(rest)
    case Batch(flags, ts, inner, rest) =>
      HeaderFits(BATCH, flags, Length(inner), ts) && Encodable(inner) && Encodable(rest)
  }

  function Encode(f: Forest): (s: Bytes)
    requires Encodable(f)
    ensures |s| == Length(f)
  {
    match f
    case End => []
    case Leaf(r, rest) => Pack(r.kind, r.flags, |r.payload|, r.ts) + r.payload + Encode(rest)
    case Batch(flags, ts, inner, rest) =>
      Pack(BATCH, flags, Length(inner), ts) + Encode(inner) + Encode(rest)
  }

  /** One record in front of a stream is read first and leaves the rest. */
  lemma ReadOne(kind: int, flags: int, ts: int, body: Bytes, rest: Bytes, s: Bytes)
    requires HeaderFits(kind, flags, |body|, ts) && kind != END_OF_STREAM
    requires s == Pack(kind, flags, |body|, ts) + body + rest
    ensures Records(s) == (if kind == BATCH then Records(body) else [Record(kind, flags, ts, body)]) + Records(rest)
  {
    var n := HEADER_LEN + |body|;
    UnpackPack(kind, flags, |body|, ts, body + rest);
    assert s == Pack(kind, flags, |body|, ts) + (body + rest);
    assert s[HEADER_LEN..n] == body == body[0..|body|];
    assert s[n..|s|] == rest == rest[0..|rest|];
    Relocate(s, HEADER_LEN, n, body, 0, |body|);
    Relocate(s, n, |s|, rest, 0, |rest|);
    FirstAndRest(s, UnpackFrom(s, 0), n, body);
  }

  lemma FirstAndRest(s: Bytes, h: Header, n: nat, body: Bytes)
    requires |s| >= HEADER_LEN && h == UnpackFrom(s, 0) && n == HEADER_LEN + h.length && WholeAt(h, 0, |s|)
    requires s[HEADER_LEN..n] == body && RecordsAt(s, HEADER_LEN, n) == Records(body)
    ensures Records(s) ==
      (if h.kind as int == BATCH then Records(body) else [Record(h.kind, h.flags, h.ts, body)]) + RecordsAt(s, n, |s|)
  {
    var i := 0;
    assert RecordsAt(s, i, |s|) == FoundAt(s, h, i + HEADER_LEN, n) + RecordsAt(s, i + HEADER_LEN + h.length, |s|);
  }

  /** Walking an encoded forest yields its records in order, whatever follows it. */
  lemma {:induction false} WalkEncodedForest(f: Forest, tail: Bytes)
    requires Encodable(f)
    ensures Records(Encode(f) + tail) == Flatten(f) + Records(tail)
  {
    match f
    case End => assert Encode(f) + tail == tail;
    case Leaf(r, rest) =>
      WalkEncodedForest(rest, tail);
      Prepend(r.kind, r.flags, r.ts, r.payload, Encode(rest), tail, [r], Flatten(rest));
    case Batch(flags, ts, inner, rest) =>
      WalkEncodedForest(inner, []);
      assert Encode(inner) + [] == Encode(inner);
      WalkEncodedForest(rest, tail);
      Prepend(BATCH, flags, ts, Encode(inner), Encode(rest), tail, Flatten(inner), Flatten(rest));
  }

  lemma Prepend(kind: int, flags: int, ts: int, body: Bytes, rest: Bytes, tail: Bytes,
                read: seq<Record>, more: seq<Record>)
    requires HeaderFits(kind, flags, |body|, ts) && kind != END_OF_STREAM
    requires read == if kind == BATCH then Records(body) else [Record(kind, flags, ts, body)]
    requires Records(rest + tail) == more + Records(tail)
    ensures Records(Pack(kind, flags, |body|, ts) + body + rest + tail) == read + more + Records(tail)
  {
    ReadOne(kind, flags, ts, body, rest + tail, Pack(kind, flags, |body|, ts) + body + (rest + tail));
    JoinReads(Pack(kind, flags, |body|, ts), body, rest, tail, read, more);
  }

  lemma JoinReads(head: Bytes, body: Bytes, rest: Bytes, tail: Bytes, read: seq<Record>, more: seq<Record>)
    requires Records(head + body + (rest + tail)) == read + Records(rest + tail)
    requires Records(rest + tail) == more + Records(tail)
    ensures Records(head + body + rest + tail) == read + more + Records(tail)
  {
    Reassociate(head, body, rest, tail);
    Associate(read, more, Records(tail));
  }

  lemma Reassociate(a: Bytes, b: Bytes, c: Bytes, d: Bytes)
    ensures a + b + c + d == a + b + (c + d)
  {}

  // ---- Truncation ----

  /** An earlier end only loses records off the end. */
  lemma {:induction false} EarlierEnd(data: Bytes, i: nat, e: nat, end: nat)
    requires e <= end <= |data|
    ensures RecordsAt(data, i, e) <= RecordsAt(data, i, end)
    decreases if i < e then e - i else 0
  {
    if i + HEADER_LEN <= e && WholeAt(UnpackFrom(data, i), i, e) {
      EarlierEnd(data, i + HEADER_LEN + UnpackFrom(data, i).length, e, end);
    }
  }

  /** Cutting any bytes short, encoded or not, only loses records off the end. */
  lemma CutYieldsPrefix(s: Bytes, k: nat)
    requires k <= |s|
    ensures Records(s[..k]) <= Records(s)
  {
    assert s[..k] == s[0..k] == s[..k][0..k];
    Relocate(s, 0, k, s[..k], 0, k);
    EarlierEnd(s, 0, k, |s|);
  }

  /** The same for a whole stream, with or without its header. */
  lemma CutStreamYieldsPrefix(data: Bytes, k: nat)
    requires k <= |data|
    ensures Records(Payload(data[..k])) <= Records(Payload(data))
  {
    var t := data[..k];
    if |data| >= 4 && data[..4] == MAGIC {
      if k >= STREAM_HEADER_LEN {
        assert t[..4] == MAGIC;
        CutYieldsPrefix(Payload(data), k - STREAM_HEADER_LEN);
        assert Payload(t) == Payload(data)[..k - STREAM_HEADER_LEN];
      } else {
        assert |Payload(t)| < STREAM_HEADER_LEN;
        assert k >= 4 ==> t[..4] == MAGIC;
        assert k < 4 ==> |Payload(t)| < HEADER_LEN;
      }
    } else {
      assert k >= 4 ==> t[..4] == data[..4];
      CutYieldsPrefix(data, k);
    }
  }

  // ---- Re-encoding ----

  predicate AllFit(rs: seq<Record>) { forall i :: 0 <= i < |rs| ==> Fits(rs[i]) }

  function EncodeOne(r: Record): Bytes
    requires Fits(r)
  {
    Pack(r.kind, r.flags, |r.payload|, r.ts) + r.payload
  }

  function EncodeFlat(rs: seq<Record>): (s: Bytes)
    requires AllFit(rs)
  {
    if rs == [] then [] else EncodeFlat(rs[..|rs| - 1]) + EncodeOne(rs[|rs| - 1])
  }

  function FlatSize(rs: seq<Record>): nat {
    if rs == [] then 0 else FlatSize(rs[..|rs| - 1]) + HEADER_LEN + |rs[|rs| - 1].payload|
  }

  /** What struct.pack accepts: every field in range, and totals that fit the stream header. */
  predicate Packable(rs: seq<Record>) {
    AllFit(rs) && FlatSize(rs) < U32 && |rs| < U32
  }

  /** Magic, version, flags, stream and padding. */
  const PREAMBLE: Bytes := MAGIC + [1, 0, 0, 0]

  const NO_TOTALS: Bytes := [0, 0, 0, 0, 0, 0, 0, 0]

  function Totals(size: nat, count: nat): (s: Bytes)
    ensures |s| == 8
  {
    Bytes32(size % U32) + Bytes32(count % U32)
  }

  function StreamHeader(size: nat, count: nat): (s: Bytes)
    ensures |s| == STREAM_HEADER_LEN && s[..4] == MAGIC
  {
    PREAMBLE + Totals(size, count)
  }

  /** cmd_tobin on parsed rows: the header is written blank, the records appended, and the
      totals patched in. */
  method ToBin(rows: seq<Record>) returns (r: Result<Bytes>)
    ensures r.Ok? <==> Packable(rows)
    ensures r.Ok? ==> r.value == Stream(rows)
  {
    var out := PREAMBLE;
    var headerCounts := |out|;
    out := out + NO_TOTALS;
    var appended := AppendRows(out, rows);
    if appended.StructError? { return StructError; }
    out := appended.value;
    var size, n := |out| - STREAM_HEADER_LEN, |rows|;
    if size >= U32 || n >= U32 { return StructError; }
    Patched(PREAMBLE, NO_TOTALS, EncodeFlat(rows), out);
    r := Ok(out[..headerCounts] + Totals(size, n) + out[headerCounts + 8..]);
  }

  /** The loop over the rows. */
  method AppendRows(header: Bytes, rows: seq<Record>) returns (r: Result<Bytes>)
    ensures r.Ok? <==> AllFit(rows)
    ensures r.Ok? ==> r.value == header + EncodeFlat(rows) && |r.value| == |header| + FlatSize(rows)
  {
    var out := header;
    var n := 0;
    while n < |rows|
      invariant 0 <= n <= |rows| && AllFit(rows[..n])
      invariant out == header + EncodeFlat(rows[..n]) && |out| == |header| + FlatSize(rows[..n])
    {
      var row := rows[n];
      if !HeaderFits(row.kind, row.flags, |row.payload|, row.ts) {
        assert !Fits(rows[n]);
        return StructError;
      }
      OneMoreRow(rows, n);
      var pack := Pack(row.kind, row.flags, |row.payload|, row.ts);
      Appended(header, EncodeFlat(rows[..n]), pack, row.payload);
      out := out + pack;
      out := out + row.payload;
      n := n + 1;
    }
    assert rows[..n] == rows;
    r := Ok(out);
  }

  lemma Appended(a: Bytes, b: Bytes, c: Bytes, d: Bytes)
    ensures a + b + c + d == a + (b + (c + d))
  {}

  lemma OneMoreRow(rows: seq<Record>, n: nat)
    requires n < |rows| && AllFit(rows[..n]) && Fits(rows[n])
    ensures AllFit(rows[..n + 1]) && EncodeFlat(rows[..n + 1]) == EncodeFlat(rows[..n]) + EncodeOne(rows[n])
    ensures FlatSize(rows[..n + 1]) == FlatSize(rows[..n]) + HEADER_LEN + |rows[n].payload|
  {
    assert rows[..n + 1][..n] == rows[..n];
  }

  lemma Patched(a: Bytes, b: Bytes, rest: Bytes, out: Bytes)
    requires out == a + b + rest
    ensures out[..|a|] == a && out[|a| + |b|..] == rest
  {}

  lemma {:induction false} WalkFlat(rs: seq<Record>, tail: Bytes)
    requires AllFit(rs) && forall i :: 0 <= i < |rs| ==> Plain(rs[i])
    ensures Records(EncodeFlat(rs) + tail) == rs + Records(tail)
  {
    if rs == [] {
      assert EncodeFlat(rs) + tail == tail;
    } else {
      var front, r := rs[..|rs| - 1], rs[|rs| - 1];
      WalkFlat(front, EncodeOne(r) + tail);
      ReadOne(r.kind, r.flags, r.ts, r.payload, tail, EncodeOne(r) + tail);
      AppendOne(EncodeFlat(front), EncodeOne(r), tail, front, r);
      assert rs == front + [r];
    }
  }

  lemma AppendOne(e: Bytes, one: Bytes, tail: Bytes, front: seq<Record>, r: Record)
    requires Records(e + (one + tail)) == front + Records(one + tail) && Records(one + tail) == [r] + Records(tail)
    ensures Records(e + one + tail) == front + [r] + Records(tail)
  {
    assert e + one + tail == e + (one + tail);
    assert front + ([r] + Records(tail)) == front + [r] + Records(tail);
  }

  /** Records that can be written and read again. */
  predicate AllPlain(rs: seq<Record>) {
    AllFit(rs) && forall i :: 0 <= i < |rs| ==> Plain(rs[i])
  }

  lemma PlainConcat(a: seq<Record>, b: seq<Record>)
    requires AllPlain(a) && AllPlain(b)
    ensures AllPlain(a + b)
  {}

  /** Whatever the bytes, a walk yields only plain records whose fields fit a header. */
  lemma {:induction false} WalkYieldsPlain(data: Bytes, i: nat, end: nat)
    requires end <= |data|
    ensures AllPlain(RecordsAt(data, i, end))
    decreases if i < end then end - i else 0
  {
    if i + HEADER_LEN <= end {
      var h := UnpackFrom(data, i);
      if WholeAt(h, i, end) {
        var body, stop := i + HEADER_LEN, i + HEADER_LEN + h.length;
        WalkYieldsPlain(data, stop, end);
        if h.kind as int == BATCH { WalkYieldsPlain(data, body, stop); }
        PlainConcat(FoundAt(data, h, body, stop), RecordsAt(data, stop, end));
      }
    }
  }

  /** The stream that tobin writes for some rows. */
  function Stream(rows: seq<Record>): Bytes
    requires AllFit(rows)
  {
    StreamHeader(FlatSize(rows), |rows|) + EncodeFlat(rows)
  }

  lemma StreamPayload(rows: seq<Record>)
    requires AllFit(rows)
    ensures Payload(Stream(rows)) == EncodeFlat(rows)
  {
    assert Stream(rows)[..4] == MAGIC;
  }

  /** Reading back what tobin wrote returns the rows exactly when none of them poses as a
      container or as the end of the stream. */
  lemma ReadBackIsIdentityIff(rows: seq<Record>)
    requires AllFit(rows)
    ensures Records(Payload(Stream(rows))) == rows <==> forall i :: 0 <= i < |rows| ==> Plain(rows[i])
  {
    StreamPayload(rows);
    if forall i :: 0 <= i < |rows| ==> Plain(rows[i]) {
      WalkFlat(rows, []);
      assert EncodeFlat(rows) + [] == EncodeFlat(rows);
    } else {
      WalkYieldsPlain(EncodeFlat(rows), 0, |EncodeFlat(rows)|);
    }
  }

  /** Rebuilding a stream, or any bytes, without its containers changes nothing a reader sees. */
  lemma RebuildKeepsMeaning(data: Bytes)
    ensures AllFit(Records(Payload(data)))
    ensures Records(Payload(Stream(Records(Payload(data))))) == Records(Payload(data))
  {
    WalkYieldsPlain(Payload(data), 0, |Payload(data)|);
    ReadBackIsIdentityIff(Records(Payload(data)));
  }
}
