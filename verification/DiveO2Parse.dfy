/** Parsing the measurement frames of a DiveO2 or Pyroscience cell into its state. Source:
    oxygen_cell_diveo2.c. */
module DiveO2Parse {
  import opened Common
  import opened DiveO2Framing

  const SPACE: int := 0x20
  const I32_MAX: int := 0x7FFF_FFFF
  const I32_MIN: int := -0x8000_0000

  datatype Status = Ok | Degraded | Fail

  datatype Protocol = Unknown | DiveO2 | Pyro

  // ---- Numbers ----

  predicate IsSpace(b: int) { b == 0x20 || 9 <= b <= 13 }
  predicate IsDigit(b: int) { 0x30 <= b <= 0x39 }

  function SkipSpace(t: Text): Text {
    if t != [] && IsSpace(t[0]) then SkipSpace(t[1..]) else t
  }

  predicate AllDigits(t: Text) { forall i :: 0 <= i < |t| ==> IsDigit(t[i]) }

  function DigitsValue(t: Text): nat
    requires AllDigits(t)
  {
    if t == [] then 0 else 10 * DigitsValue(t[..|t| - 1]) + (t[|t| - 1] - 0x30)
  }

  /** strtol with a 32-bit long saturates. */
  function Saturate(n: int): int { if n > I32_MAX then I32_MAX else if n < I32_MIN then I32_MIN else n }

  /** diveo2_parse_i32: the token is consumed to its end by strtol, which allows leading white
      space and a sign. */
  function ParseI32(token: Text): Option<int> {
    var t := SkipSpace(token);
    var signed := t != [] && (t[0] == 0x2D || t[0] == 0x2B);
    var digits := if signed then t[1..] else t;
    if digits == [] || !AllDigits(digits) then None
    else Some(Saturate(if t[0] == 0x2D then 0 - DigitsValue(digits) as int else DigitsValue(digits)))
  }

  function RenderNat(n: nat): (t: Text)
    ensures t != [] && AllDigits(t)
  {
    if n < 10 then [0x30 + n] else RenderNat(n / 10) + [0x30 + n % 10]
  }

  function Render(n: int): Text {
    if n < 0 then [0x2D] + RenderNat(-n) else RenderNat(n)
  }

  lemma {:induction false} ValueOfRendered(n: nat)
    ensures DigitsValue(RenderNat(n)) == n
  {
    var t := RenderNat(n);
    if n >= 10 {
      ValueOfRendered(n / 10);
      assert t[..|t| - 1] == RenderNat(n / 10);
    } else {
      assert t[..|t| - 1] == [];
    }
  }

  lemma ParseDigits(d: Text)
    requires d != [] && AllDigits(d)
    ensures ParseI32(d) == Some(Saturate(DigitsValue(d)))
  {
    assert IsDigit(d[0]);
  }

  lemma ParseNegative(d: Text)
    requires d != [] && AllDigits(d)
    ensures ParseI32([0x2D] + d) == Some(Saturate(0 - DigitsValue(d) as int))
  {
    assert ([0x2D] + d)[1..] == d;
  }

  /** A number written in decimal is read back if it fits 32 bits, and silently saturates if not. */
  lemma {:induction false} ParseRendered(n: int)
    ensures ParseI32(Render(n)) == Some(Saturate(n))
    ensures ParseI32(Render(n)) == Some(n) <==> I32_MIN <= n <= I32_MAX
  {
    var m := if n < 0 then -n else n;
    ValueOfRendered(m);
    if n < 0 { ParseNegative(RenderNat(m)); } else { ParseDigits(RenderNat(m)); }
  }

  /** White space in front of a number is skipped. */
  lemma WhiteSpaceIsSkipped(b: Byte, t: Text)
    requires IsSpace(b)
    ensures ParseI32([b] + t) == ParseI32(t)
  {
    assert ([b] + t)[1..] == t;
  }

  /** Nothing else is read: an accepted token is white space, at most one sign, and digits to its
      end, and its value is that of the digits, saturated. */
  lemma {:induction false} ParsedIsWritten(t: Text) returns (k: nat)
    requires ParseI32(t).Some?
    ensures k < |t| && AllDigits(t[k..])
    ensures forall i :: 0 <= i < k ==> IsSpace(t[i]) || (i == k - 1 && (t[i] == 0x2D || t[i] == 0x2B))
    ensures ParseI32(t) == Some(Saturate(
      if k > 0 && t[k - 1] == 0x2D then 0 - DigitsValue(t[k..]) as int else DigitsValue(t[k..])))
  {
    if t != [] && IsSpace(t[0]) {
      var j := ParsedIsWritten(t[1..]);
      k := j + 1;
      assert t[k..] == t[1..][j..];
    } else {
      k := if t[0] == 0x2D || t[0] == 0x2B then 1 else 0;
      assert t[0..] == t;
    }
  }

  // ---- Error codes ----

  const ERRORS: bv16 := 0x003E
  const WARNINGS: bv16 := 0x01C1

  function ToU16(n: int): bv16 { (n % 0x1_0000) as bv16 }

  function SeverityOf(code: bv16): Status {
    if code & ERRORS != 0 then Fail
    else if code & WARNINGS != 0 then Degraded
    else if code != 0 then Fail
    else Ok
  }

  /** What a code means, flag by flag. Low intensity (2), a high (4) or low signal (8), a high
      reference (16) and a temperature error (32) fail the cell, whatever else is set. Without
      these a warning of near saturation (1), humidity (64, 256) or pressure (128) degrades it. Any
      other code but zero fails it too. */
  lemma SeverityIsSafe(code: bv16)
    ensures var error := code & 2 != 0 || code & 4 != 0 || code & 8 != 0 || code & 16 != 0 || code & 32 != 0;
      var warning := code & 1 != 0 || code & 64 != 0 || code & 128 != 0 || code & 256 != 0;
      && (SeverityOf(code) == Fail <==> error || (code != 0 && !warning))
      && (SeverityOf(code) == Degraded <==> !error && warning)
      && (SeverityOf(code) == Ok <==> code == 0)
  {}

  /** The error field is cut to 16 bits before any bit is looked at: a field reads as healthy
      exactly when it is a multiple of 65536, zero or not. */
  lemma HealthyCodeIff(n: int)
    ensures SeverityOf(ToU16(n)) == Ok <==> n % 0x1_0000 == 0
  {
    SeverityIsSafe(ToU16(n));
    ZeroIff(n % 0x1_0000);
  }

  lemma ZeroIff(m: nat)
    requires m < 0x1_0000
    ensures m as bv16 == 0 <==> m == 0
  {}

  // ---- Tokens ----

  function TokenEnd(t: Text): (k: nat)
    ensures k <= |t|
    ensures k < |t| ==> t[k] == SPACE
    ensures forall i :: 0 <= i < k ==> t[i] != SPACE
  {
    if t == [] || t[0] == SPACE then 0 else 1 + TokenEnd(t[1..])
  }

  /** strtok_r on spaces: the non-empty stretches between them. */
  function Tokens(t: Text): seq<Text>
    decreases |t|
  {
    if t == [] then []
    else if t[0] == SPACE then Tokens(t[1..])
    else [t[..TokenEnd(t)]] + Tokens(t[TokenEnd(t)..])
  }

  predicate Solid(t: Text) { t != [] && forall i :: 0 <= i < |t| ==> t[i] != SPACE }

  lemma {:induction false} TokenEndOf(a: Text, rest: Text)
    requires (forall i :: 0 <= i < |a| ==> a[i] != SPACE) && (rest != [] ==> rest[0] == SPACE)
    ensures TokenEnd(a + rest) == |a|
  {
    if a == [] {
      assert a + rest == rest;
    } else {
      assert (a + rest)[1..] == a[1..] + rest;
      assert (a + rest)[0] == a[0];
      TokenEndOf(a[1..], rest);
    }
  }

  lemma TokensCons(a: Text, rest: Text)
    requires Solid(a) && (rest != [] ==> rest[0] == SPACE)
    ensures Tokens(a + rest) == [a] + Tokens(rest)
  {
    TokenEndOf(a, rest);
    assert (a + rest)[0] == a[0];
    assert (a + rest)[..|a|] == a && (a + rest)[|a|..] == rest;
  }

  /** Each token after a space. */
  function Spaced(ts: seq<Text>): Text {
    if ts == [] then [] else [SPACE] + ts[0] + Spaced(ts[1..])
  }

  lemma {:induction false} TokensOfSpaced(ts: seq<Text>)
    requires forall i :: 0 <= i < |ts| ==> Solid(ts[i])
    ensures Tokens(Spaced(ts)) == ts
  {
    if ts != [] {
      TokensOfSpaced(ts[1..]);
      TokensAfterSpace(ts[0], Spaced(ts[1..]));
      assert [ts[0]] + ts[1..] == ts;
    }
  }

  lemma TokensAfterSpace(a: Text, rest: Text)
    requires Solid(a) && (rest != [] ==> rest[0] == SPACE)
    ensures Tokens([SPACE] + a + rest) == [a] + Tokens(rest)
  {
    TokensCons(a, rest);
    assert ([SPACE] + a + rest)[1..] == a + rest;
  }

  // ---- Frames ----

  /** "#D" or "#M", then the suffix. */
  predicate HeaderIs(h: Text, suffix: Text) {
    |h| >= 2 && h[0] == 0x23 && (h[1] == 0x44 || h[1] == 0x4D) && h[2..] == suffix
  }

  const RAW: Text := [0x52, 0x41, 0x57]
  const OXY: Text := [0x4F, 0x58, 0x59]

  predicate HasHeader(message: Text, suffix: Text) {
    Tokens(message) != [] && HeaderIs(Tokens(message)[0], suffix)
  }

  /** The first `n` fields after the header, if all are there and numeric. */
  function Fields(message: Text, n: nat): Option<seq<int>> { FieldsOf(Tokens(message), n) }

  function FieldsOf(ts: seq<Text>, n: nat): Option<seq<int>> {
    if |ts| < n + 1 || exists i :: 1 <= i <= n && ParseI32(ts[i]) == None then None
    else Some(seq(n, i requires 0 <= i < n => match ParseI32(ts[i + 1]) case Some(v) => v case None => 0))
  }

  function Detailed(message: Text): Option<seq<int>> {
    if HasHeader(message, RAW) then Fields(message, 8) else None
  }

  function Simple(message: Text): Option<seq<int>> {
    if HasHeader(message, OXY) then Fields(message, 3) else None
  }

  predicate IsMeasurement(message: Text) { HasHeader(message, RAW) || HasHeader(message, OXY) }

  function DetectProtocol(message: Text): Protocol {
    if |message| >= 2 && message[0] == 0x23 then
      if message[1] == 0x44 then DiveO2 else if message[1] == 0x4D then Pyro else Unknown
    else Unknown
  }

  function Frame(family: Byte, suffix: Text, values: seq<int>): Text {
    [0x23, family] + suffix + Spaced(seq(|values|, i requires 0 <= i < |values| => Render(values[i])))
  }

  lemma RenderIsSolid(n: int)
    ensures Solid(Render(n))
  {
    var digits := RenderNat(if n < 0 then -n else n);
    assert forall i :: 0 <= i < |digits| ==> IsDigit(digits[i]);
  }

  predicate InI32(values: seq<int>) { forall i :: 0 <= i < |values| ==> I32_MIN <= values[i] <= I32_MAX }

  lemma TokensOfFrame(family: Byte, suffix: Text, values: seq<int>)
    requires family != SPACE && forall i :: 0 <= i < |suffix| ==> suffix[i] != SPACE
    ensures Tokens(Frame(family, suffix, values)) ==
      [[0x23, family] + suffix] + seq(|values|, i requires 0 <= i < |values| => Render(values[i]))
  {
    var ts := seq(|values|, i requires 0 <= i < |values| => Render(values[i]));
    forall i | 0 <= i < |ts| ensures Solid(ts[i]) { RenderIsSolid(values[i]); }
    TokensOfSpaced(ts);
    TokensCons([0x23, family] + suffix, Spaced(ts));
  }

  lemma FieldsOfFrame(family: Byte, suffix: Text, values: seq<int>)
    requires family != SPACE && (forall i :: 0 <= i < |suffix| ==> suffix[i] != SPACE) && InI32(values)
    ensures Fields(Frame(family, suffix, values), |values|) == Some(values)
  {
    TokensOfFrame(family, suffix, values);
    FieldsOfRendered([0x23, family] + suffix, values);
  }

  lemma NumericFields(ts: seq<Text>, values: seq<int>)
    requires |ts| > |values| && forall i :: 0 <= i < |values| ==> ParseI32(ts[i + 1]) == Some(values[i])
    ensures FieldsOf(ts, |values|) == Some(values)
  {
    forall k | 1 <= k <= |values| ensures ParseI32(ts[k]) != None {
      assert ParseI32(ts[k - 1 + 1]) == Some(values[k - 1]);
    }
    var got := FieldsOf(ts, |values|);
    assert got.Some? && |got.value| == |values|;
    assert forall i :: 0 <= i < |values| ==> got.value[i] == values[i];
    assert got.value == values;
  }

  lemma FieldsOfRendered(header: Text, values: seq<int>)
    requires InI32(values)
    ensures var ts := [header] + seq(|values|, i requires 0 <= i < |values| => Render(values[i]));
      FieldsOf(ts, |values|) == Some(values)
  {
    var ts := [header] + seq(|values|, i requires 0 <= i < |values| => Render(values[i]));
    forall i | 0 <= i < |values| ensures ParseI32(ts[i + 1]) == Some(values[i]) {
      assert ts[i + 1] == Render(values[i]);
      ParseRendered(values[i]);
    }
    NumericFields(ts, values);
  }

  /** Every detailed and every simple frame of either family is read back field by field. */
  lemma {:induction false} FramesReadBack(family: Byte, values: seq<int>)
    requires (family == 0x44 || family == 0x4D) && InI32(values)
    ensures |values| == 8 ==> Detailed(Frame(family, RAW, values)) == Some(values)
    ensures |values| == 3 ==> Simple(Frame(family, OXY, values)) == Some(values)
    ensures |values| == 3 ==> Detailed(Frame(family, OXY, values)) == None
  {
    FieldsOfFrame(family, RAW, values);
    FieldsOfFrame(family, OXY, values);
    TokensOfFrame(family, RAW, values);
    TokensOfFrame(family, OXY, values);
    assert ([0x23, family] + RAW)[2..] == RAW;
    assert ([0x23, family] + OXY)[2..] == OXY;
    assert RAW != OXY by { assert RAW[0] != OXY[0]; }
  }

  /** Only measurements are accepted: the header is "#", a family byte and RAW or OXY, and each
      value is the number that its token is read as. */
  lemma AcceptedIsNumeric(message: Text)
    ensures var ts := Tokens(message);
      && (Detailed(message).Some? ==>
            |Detailed(message).value| == 8 && |ts| >= 9 && HeaderIs(ts[0], [0x52, 0x41, 0x57])
            && forall i :: 0 <= i < 8 ==> ParseI32(ts[i + 1]) == Some(Detailed(message).value[i]))
      && (Simple(message).Some? ==>
            |Simple(message).value| == 3 && |ts| >= 4 && HeaderIs(ts[0], [0x4F, 0x58, 0x59])
            && forall i :: 0 <= i < 3 ==> ParseI32(ts[i + 1]) == Some(Simple(message).value[i]))
  {
    var ts := Tokens(message);
    if Detailed(message).Some? { FieldsAreNumeric(ts, 8); }
    if Simple(message).Some? { FieldsAreNumeric(ts, 3); }
  }

  lemma FieldsAreNumeric(ts: seq<Text>, n: nat)
    requires FieldsOf(ts, n).Some?
    ensures |FieldsOf(ts, n).value| == n && |ts| > n
    ensures forall i :: 0 <= i < n ==> ParseI32(ts[i + 1]) == Some(FieldsOf(ts, n).value[i])
  {
    forall k | 1 <= k <= n ensures ParseI32(ts[k]).Some? {
      assert ParseI32(ts[k]) != None;
    }
  }

  // ---- From the wire to the parsers ----

  predicate Printable(t: Text) { forall i :: 0 <= i < |t| ==> t[i] >= 0x20 }

  lemma {:induction false} PrintableIsWhole(t: Text)
    requires Printable(t)
    ensures UpToEnd(t) == t
  {
    if t != [] {
      PrintableIsWhole(t[1..]);
      assert [t[0]] + t[1..] == t;
    }
  }

  lemma PrintableIsClean(t: Text)
    requires Printable(t)
    ensures Plain(t) && Cleaned(t) == t && (t != [] ==> !AllNul(t))
  {
    PrintableIsWhole(t);
    assert t != [] ==> t[0] != NUL;
    assert t[0..] == t;
  }

  lemma {:induction false} SpacedIsPrintable(ts: seq<Text>)
    requires forall i :: 0 <= i < |ts| ==> Printable(ts[i])
    ensures Printable(Spaced(ts))
  {
    if ts != [] { SpacedIsPrintable(ts[1..]); }
  }

  lemma FrameIsPrintable(family: Byte, suffix: Text, values: seq<int>)
    requires family >= 0x20 && Printable(suffix)
    ensures Printable(Frame(family, suffix, values))
  {
    var ts := seq(|values|, i requires 0 <= i < |values| => Render(values[i]));
    forall i | 0 <= i < |ts| ensures Printable(ts[i]) {
      var digits := RenderNat(if values[i] < 0 then -values[i] else values[i]);
      assert forall k :: 0 <= k < |digits| ==> IsDigit(digits[k]);
    }
    SpacedIsPrintable(ts);
  }

  /** A printable line that fits the buffer is delivered unchanged by its terminator, and read
      whatever the message buffer held before. */
  lemma PrintableIsDelivered(f: Text, frames: seq<Text>, buffer: Text)
    requires Printable(f) && 0 < |f| < BUFFER_LEN && Holds(buffer, f)
    ensures Feed(Rx([], frames), f + [CR]) == Rx([], frames + [f])
    ensures Prepared(buffer) == f
  {
    PrintableIsClean(f);
    CleanedFromFrame(buffer, f);
    SendOne(frames, f);
  }

  /** A detailed frame that fits the line buffer, sent with its terminator after any complete
      lines, is delivered, and whatever the message buffer held before, it parses to the values
      sent. */
  lemma {:induction false} SentIsParsed(family: Byte, values: seq<int>, f: Text, frames: seq<Text>, buffer: Text)
    requires (family == 0x44 || family == 0x4D) && |values| == 8 && InI32(values)
    requires f == Frame(family, RAW, values) && |f| < BUFFER_LEN && Holds(buffer, f)
    ensures Feed(Rx([], frames), f + [CR]) == Rx([], frames + [f])
    ensures Detailed(Prepared(buffer)) == Some(values)
  {
    FrameIsPrintable(family, RAW, values);
    PrintableIsDelivered(f, frames, buffer);
    ReadsBack(f, family, values);
  }

  lemma ReadsBack(f: Text, family: Byte, values: seq<int>)
    requires (family == 0x44 || family == 0x4D) && |values| == 8 && InI32(values) && f == Frame(family, RAW, values)
    ensures Detailed(f) == Some(values)
  {
    FramesReadBack(family, values);
  }

  /** A single NUL on the line brings back the end of the frame before it: two bytes of noise in
      front of a measurement, then a NUL, and the measurement counts as received. */
  lemma OldFrameReturns(buffer: Text, a: Byte, b: Byte, m: Text)
    requires |buffer| == BUFFER_LEN && Printable(m) && m != [] && |m| + 2 < BUFFER_LEN
    ensures Prepared(Overwrite(Overwrite(buffer, [a, b] + m), [0])) == m
  {
    var r := Overwrite(Overwrite(buffer, [a, b] + m), [0]);
    var rest := [0] + buffer[|m| + 3..];
    assert r == [0, 0] + (m + rest);
    LeadingNulsThen([0, 0], m + rest, BUFFER_LEN - 1);
    assert r[2..] == m + rest;
    UpToEndStops(m, rest);
    PrintableIsWhole(m);
  }

  // ---- The cell ----

  datatype Sample = Sample(
    raw: int, temperature: int, errCode: nat, phase: int, intensity: int, ambient: int, pressure: int, humidity: int)

  /** The measurement of a detailed frame: its values in the order they are sent, the error field
      in 32 bits. */
  function DetailedSample(v: seq<int>): (s: Sample)
    requires |v| == 8
    ensures v[0] == s.raw && v[1] == s.temperature && v[3] == s.phase && v[4] == s.intensity
    ensures v[5] == s.ambient && v[6] == s.pressure && v[7] == s.humidity
    ensures s.errCode < 0x1_0000_0000 && (v[2] - s.errCode) % 0x1_0000_0000 == 0
  {
    Sample(v[0], v[1], v[2] % 0x1_0000_0000, v[3], v[4], v[5], v[6], v[7])
  }

  class Cell {
    var sample: Sample
    var status: Status
    var lastTicks: int
    var protocol: Protocol

    /** The field loops of the two parsers. */
    method ParseFields(tokens: seq<Text>, n: nat) returns (r: Option<seq<int>>)
      ensures r == FieldsOf(tokens, n)
    {
      if |tokens| < n + 1 { return None; }
      var values: seq<int> := [];
      for i := 0 to n
        invariant |values| == i
        invariant forall k :: 0 <= k < i ==> ParseI32(tokens[k + 1]) == Some(values[k])
      {
        var v := ParseI32(tokens[i + 1]);
        if v.None? {
          assert ParseI32(tokens[i + 1]) == None;
          return None;
        }
        values := values + [v.value];
      }
      NumericFields(tokens, values);
      r := Some(values);
    }

    /** diveo2_process_rx. A frame that neither parser accepts leaves the sample and its
        timestamp alone; if it claims to be a measurement, the cell fails visibly. */
    method ProcessRx(buffer: Text, now: int) returns (valid: bool)
      requires |buffer| == BUFFER_LEN
      modifies this
      ensures valid == (Detailed(Prepared(buffer)).Some? || Simple(Prepared(buffer)).Some?)
      ensures !valid ==>
        && sample == old(sample) && lastTicks == old(lastTicks) && protocol == old(protocol)
        && status == if IsMeasurement(Prepared(buffer)) then Fail else old(status)
      ensures valid ==> lastTicks == now && protocol == DetectProtocol(Prepared(buffer))
      ensures Detailed(Prepared(buffer)).Some? ==>
        && sample == DetailedSample(Detailed(Prepared(buffer)).value)
        && status == SeverityOf(ToU16(Detailed(Prepared(buffer)).value[2]))
      ensures Simple(Prepared(buffer)).Some? ==>
        && sample == Sample(Simple(Prepared(buffer)).value[0], Simple(Prepared(buffer)).value[1], 0, 0, 0, 0, 0, 0)
        && status == SeverityOf(ToU16(Simple(Prepared(buffer)).value[2]))
    {
      var message := Prepared(buffer);
      var tokens := Tokens(message);
      valid := false;
      OneHeader(message);
      if HasHeader(message, RAW) {
        var fields := ParseFields(tokens, 8);
        if fields.Some? {
          sample := DetailedSample(fields.value);
          status := SeverityOf(ToU16(fields.value[2]));
          lastTicks := now;
          valid := true;
        }
      } else if HasHeader(message, OXY) {
        var fields := ParseFields(tokens, 3);
        if fields.Some? {
          sample := Sample(fields.value[0], fields.value[1], 0, 0, 0, 0, 0, 0);
          status := SeverityOf(ToU16(fields.value[2]));
          lastTicks := now;
          valid := true;
        }
      }
      if valid {
        protocol := DetectProtocol(message);
      } else if IsMeasurement(message) {
        status := Fail;
      }
    }
  }

  /** No message carries both headers. */
  lemma OneHeader(message: Text)
    ensures !(HasHeader(message, RAW) && HasHeader(message, OXY))
    ensures Detailed(message).Some? ==> |Detailed(message).value| == 8
    ensures Simple(message).Some? ==> |Simple(message).value| == 3
  {
    assert RAW[0] != OXY[0];
  }

  /** A valid frame names its family exactly when no space precedes its header: the parsers skip
      leading spaces, the family test does not. */
  lemma FamilyIsLatchedIff(message: Text)
    requires IsMeasurement(message)
    ensures DetectProtocol(message) != Unknown <==> message[0] != SPACE
  {
    if message[0] != SPACE {
      var k := TokenEnd(message);
      assert Tokens(message)[0] == message[..k];
      assert message[..k][0] == message[0] && message[..k][1] == message[1];
    }
  }

  // ---- A non-zero error code that reads as healthy ----

  /** "#DRAW 0 0 65536 0 0 0 0 0". */
  const HIGH_CODE: seq<int> := [0, 0, 65536, 0, 0, 0, 0, 0]

  lemma {:induction false} SpacedLength(ts: seq<Text>, n: nat)
    requires forall i :: 0 <= i < |ts| ==> |ts[i]| <= n
    ensures |Spaced(ts)| <= |ts| * (n + 1)
  {
    if ts != [] { SpacedLength(ts[1..], n); }
  }

  function Pow10(n: nat): nat { if n == 0 then 1 else 10 * Pow10(n - 1) }

  lemma {:induction false} RenderNatLength(n: nat, digits: nat)
    requires digits > 0 && n < Pow10(digits)
    ensures |RenderNat(n)| <= digits
  {
    if n >= 10 { RenderNatLength(n / 10, digits - 1); }
  }

  /** The frame fits the line buffer. */
  lemma HighCodeFits()
    ensures 0 < |Frame(0x44, RAW, HIGH_CODE)| < BUFFER_LEN && InI32(HIGH_CODE) && |HIGH_CODE| == 8
  {
    var ts := seq(|HIGH_CODE|, i requires 0 <= i < |HIGH_CODE| => Render(HIGH_CODE[i]));
    forall i | 0 <= i < |ts| ensures |ts[i]| <= 6 { RenderNatLength(HIGH_CODE[i], 6); }
    SpacedLength(ts, 6);
  }

  lemma HighCodeArrives(earlier: seq<Text>) returns (buffer: Text)
    requires ShortFrames(earlier)
    ensures ShortFrames(earlier + [Frame(0x44, RAW, HIGH_CODE)])
    ensures buffer == LastMessage(earlier + [Frame(0x44, RAW, HIGH_CODE)])
    ensures Detailed(Prepared(buffer)) == Some(HIGH_CODE)
  {
    HighCodeFits();
    var f := Frame(0x44, RAW, HIGH_CODE);
    Delivered(earlier, f);
    buffer := LastMessage(earlier + [f]);
    SentIsParsed(0x44, HIGH_CODE, f, earlier, buffer);
  }

  lemma HighCodeIsHealthy(v: seq<int>)
    requires v == HIGH_CODE
    ensures |v| == 8 && DetailedSample(v).errCode == 65536 && SeverityOf(ToU16(v[2])) == Ok
  {
    HealthyCodeIff(v[2]);
  }

  /** After any earlier lines, the frame is valid, its error code is kept in the sample, and the cell
      is healthy. */
  method HighCodeReadsHealthy(cell: Cell, earlier: seq<Text>, now: int) returns (valid: bool)
    requires ShortFrames(earlier)
    modifies cell
    ensures valid && cell.status == Ok && cell.sample.errCode == 65536 && cell.lastTicks == now
  {
    ghost var message := HighCodeArrives(earlier);
    HighCodeIsHealthy(HIGH_CODE);
    valid := cell.ProcessRx(LastMessage(earlier + [Frame(0x44, RAW, HIGH_CODE)]), now);
  }
}
