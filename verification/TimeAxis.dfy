/** Laying the boot epochs of a log end to end on one time axis. Timestamps restart at every
    boot. Source: telemetry_log.py. */
module TimeAxis {
  import opened Common
  import opened Telemetry

  const BOOT_MARKER: int := 0x01
  const EPOCH_GAP_S := 30.0

  datatype Epoch = Epoch(
    index: nat, minUs: int, maxUs: int, boot: Option<Bytes>, count: nat, start: real, offset: real)
  {
    function Span(): real { Seconds(maxUs - minUs) }
  }

  function Seconds(us: int): real { us as real / 1000000.0 }

  /** The epoch of a record: how many boots were logged after the first record, up to it. */
  function EpochOf(rs: seq<Record>, i: nat): nat
    requires i < |rs|
  {
    if i == 0 then 0 else EpochOf(rs, i - 1) + if rs[i].kind == BOOT_MARKER then 1 else 0
  }

  predicate Belongs(rs: seq<Record>, i: nat, e: nat)
    requires i < |rs|
  {
    EpochOf(rs, i) == e
  }

  function Epochs(rs: seq<Record>, n: nat): nat
    requires n <= |rs|
  {
    if n == 0 then 0 else EpochOf(rs, n - 1) + 1
  }

  /** How many of the first `n` records belong to epoch `e`. */
  function Members(rs: seq<Record>, n: nat, e: nat): nat
    requires n <= |rs|
  {
    if n == 0 then 0 else Members(rs, n - 1, e) + if EpochOf(rs, n - 1) == e then 1 else 0
  }

  /** The least and greatest timestamp of the epoch's records among the first `n`. */
  ghost predicate Spans(rs: seq<Record>, n: nat, low: int, high: int, e: nat)
    requires n <= |rs|
  {
    && (forall i :: 0 <= i < n && Belongs(rs, i, e) ==> low <= rs[i].ts <= high)
    && (exists i :: 0 <= i < n && Belongs(rs, i, e) && rs[i].ts == low)
    && (exists i :: 0 <= i < n && Belongs(rs, i, e) && rs[i].ts == high)
  }

  /** The payload of the boot marker that opens the epoch, if one does. */
  ghost predicate BootsWith(rs: seq<Record>, n: nat, boot: Option<Bytes>, e: nat)
    requires n <= |rs|
  {
    && (forall i :: 0 <= i < n && Belongs(rs, i, e) && rs[i].kind == BOOT_MARKER ==> boot == Some(rs[i].payload))
    && (boot.Some? ==> exists i :: 0 <= i < n && Belongs(rs, i, e) && rs[i].kind == BOOT_MARKER)
  }

  /** The epoch sums up its records among the first `n`. */
  ghost predicate SumsUp(rs: seq<Record>, n: nat, x: Epoch, e: nat)
    requires n <= |rs|
  {
    && x.index == e
    && x.count == Members(rs, n, e)
    && Spans(rs, n, x.minUs, x.maxUs, e)
    && BootsWith(rs, n, x.boot, e)
  }

  ghost predicate Segments(rs: seq<Record>, n: nat, es: seq<Epoch>)
    requires n <= |rs|
  {
    |es| == Epochs(rs, n) && forall e :: 0 <= e < |es| ==> SumsUp(rs, n, es[e], e)
  }

  /** Where epoch `e` begins on the axis. */
  function StartOf(es: seq<Epoch>, e: nat): real
    requires e <= |es|
  {
    if e == 0 then 0.0 else StartOf(es, e - 1) + es[e - 1].Span() + EPOCH_GAP_S
  }

  ghost predicate LaidOut(es: seq<Epoch>) {
    forall e :: 0 <= e < |es| ==> PlacedAt(es, es, e)
  }

  /** Epoch `e` has its place, given the spans in `spans`. */
  ghost predicate PlacedAt(spans: seq<Epoch>, es: seq<Epoch>, e: nat)
    requires e < |es| == |spans|
  {
    es[e].start == StartOf(spans, e) && es[e].offset == es[e].start - Seconds(es[e].minUs)
  }

  // ---- Segmenting ----

  lemma {:induction false} EpochOfMonotone(rs: seq<Record>, i: nat, j: nat)
    requires i <= j < |rs|
    ensures EpochOf(rs, i) <= EpochOf(rs, j)
  {
    if i < j { EpochOfMonotone(rs, i, j - 1); }
  }

  lemma {:induction false} NoMembersYet(rs: seq<Record>, n: nat, k: nat, e: nat)
    requires k <= n <= |rs| && e >= Epochs(rs, n)
    ensures Members(rs, k, e) == 0
  {
    if k > 0 {
      EpochOfMonotone(rs, k - 1, n - 1);
      NoMembersYet(rs, n, k - 1, e);
    }
  }

  /** The statements of the loop body on the current epoch. */
  function Absorb(x: Epoch, r: Record): Epoch {
    x.(boot := if r.kind == BOOT_MARKER then Some(r.payload) else x.boot,
       minUs := if r.ts < x.minUs then r.ts else x.minUs,
       maxUs := if r.ts > x.maxUs then r.ts else x.maxUs,
       count := x.count + 1)
  }

  lemma OtherEpochUnmoved(rs: seq<Record>, n: nat, x: Epoch, e: nat)
    requires n < |rs| && SumsUp(rs, n, x, e) && EpochOf(rs, n) != e
    ensures SumsUp(rs, n + 1, x, e)
  {}

  lemma OwnEpochGrows(rs: seq<Record>, n: nat, x: Epoch, e: nat)
    requires n < |rs| && SumsUp(rs, n, x, e) && EpochOf(rs, n) == e && rs[n].kind != BOOT_MARKER
    ensures SumsUp(rs, n + 1, Absorb(x, rs[n]), e)
  {
    SpansMore(rs, n, x.minUs, x.maxUs, e);
    BootKept(rs, n, x.boot, e);
  }

  lemma SpansMore(rs: seq<Record>, n: nat, low: int, high: int, e: nat)
    requires n < |rs| && Spans(rs, n, low, high, e) && Belongs(rs, n, e)
    ensures Spans(rs, n + 1, if rs[n].ts < low then rs[n].ts else low, if rs[n].ts > high then rs[n].ts else high, e)
  {
    var lo :| 0 <= lo < n && Belongs(rs, lo, e) && rs[lo].ts == low;
    var hi :| 0 <= hi < n && Belongs(rs, hi, e) && rs[hi].ts == high;
  }

  lemma BootKept(rs: seq<Record>, n: nat, boot: Option<Bytes>, e: nat)
    requires n < |rs| && BootsWith(rs, n, boot, e) && rs[n].kind != BOOT_MARKER
    ensures BootsWith(rs, n + 1, boot, e)
  {}

  lemma NewEpochStarts(rs: seq<Record>, n: nat, e: nat)
    requires n < |rs| && e == EpochOf(rs, n) == Epochs(rs, n)
    ensures SumsUp(rs, n + 1, Absorb(Epoch(e, rs[n].ts, rs[n].ts, None, 0, 0.0, 0.0), rs[n]), e)
  {
    NoMembersYet(rs, n, n, e);
    forall i | 0 <= i < n ensures !Belongs(rs, i, e) {
      EpochOfMonotone(rs, i, n - 1);
    }
    assert Belongs(rs, n, e);
  }

  /** segment_epochs, its two loops. */
  method SegmentEpochs(rs: seq<Record>) returns (es: seq<Epoch>)
    ensures Segments(rs, |rs|, es) && LaidOut(es)
  {
    es := Split(rs);
    es := LayOut(rs, es);
  }

  method Split(rs: seq<Record>) returns (es: seq<Epoch>)
    ensures Segments(rs, |rs|, es)
  {
    es := [];
    var current := false;
    for n := 0 to |rs|
      invariant Segments(rs, n, es) && current == (|es| > 0)
    {
      var rec := rs[n];
      ghost var was := es;
      if rec.kind == BOOT_MARKER || !current {
        if current && es[|es| - 1].count > 0 { current := false; }
        if !current {
          current := true;
          es := es + [Epoch(|es|, rec.ts, rec.ts, None, 0, 0.0, 0.0)];
        }
      }
      var last := |es| - 1;
      es := es[last := Absorb(es[last], rec)];
      SplitStep(rs, n, was, es);
    }
  }

  lemma SplitStep(rs: seq<Record>, n: nat, was: seq<Epoch>, es: seq<Epoch>)
    requires n < |rs| && Segments(rs, n, was)
    requires
      var r := rs[n];
      if r.kind == BOOT_MARKER || n == 0 then es == was + [Absorb(Epoch(|was|, r.ts, r.ts, None, 0, 0.0, 0.0), r)]
      else |was| > 0 && es == was[|was| - 1 := Absorb(was[|was| - 1], r)]
    ensures Segments(rs, n + 1, es)
  {
    var current := EpochOf(rs, n);
    forall e | 0 <= e < |es| ensures SumsUp(rs, n + 1, es[e], e) {
      if e != current {
        OtherEpochUnmoved(rs, n, was[e], e);
      } else if rs[n].kind == BOOT_MARKER || n == 0 {
        NewEpochStarts(rs, n, e);
      } else {
        OwnEpochGrows(rs, n, was[e], e);
      }
    }
  }

  method LayOut(ghost rs: seq<Record>, split: seq<Epoch>) returns (es: seq<Epoch>)
    requires Segments(rs, |rs|, split)
    ensures Segments(rs, |rs|, es) && LaidOut(es)
  {
    es := split;
    var cursor := 0.0;
    for e := 0 to |split|
      invariant |es| == |split| && cursor == StartOf(split, e)
      invariant forall k :: 0 <= k < |es| ==> es[k] == split[k].(start := es[k].start, offset := es[k].offset)
      invariant forall k :: 0 <= k < e ==> PlacedAt(split, es, k)
    {
      ghost var was := es;
      es := es[e := es[e].(start := cursor, offset := cursor - Seconds(es[e].minUs))];
      forall k | 0 <= k <= e ensures PlacedAt(split, es, k) {
        assert k < e ==> PlacedAt(split, was, k);
      }
      cursor := cursor + es[e].Span() + EPOCH_GAP_S;
    }
    forall k | 0 <= k < |es| ensures SumsUp(rs, |rs|, es[k], k) && PlacedAt(es, es, k) {
      SameSummary(rs, |rs|, split[k], es[k], k);
      SameStarts(split, es, k);
      assert PlacedAt(split, es, k);
    }
  }

  lemma SameSummary(rs: seq<Record>, n: nat, x: Epoch, y: Epoch, e: nat)
    requires n <= |rs| && SumsUp(rs, n, x, e) && y == x.(start := y.start, offset := y.offset)
    ensures SumsUp(rs, n, y, e)
  {}

  lemma {:induction false} SameStarts(a: seq<Epoch>, b: seq<Epoch>, e: nat)
    requires |a| == |b| && e <= |a| && forall k :: 0 <= k < |a| ==> a[k].minUs == b[k].minUs && a[k].maxUs == b[k].maxUs
    ensures StartOf(a, e) == StartOf(b, e)
  {
    if e > 0 { SameStarts(a, b, e - 1); }
  }

  // ---- Global times ----

  function TimeOf(rs: seq<Record>, es: seq<Epoch>, i: nat): real
    requires i < |rs| && |es| > 0
  {
    Seconds(rs[i].ts) + es[Min(EpochOf(rs, i), |es| - 1)].offset
  }

  /** global_times. It is defined for records only if there are epochs: `epochs[-1]` of an empty list is an
      IndexError in `global_times`. */
  method GlobalTimes(rs: seq<Record>, es: seq<Epoch>) returns (out: seq<real>)
    requires |rs| > 0 ==> |es| > 0
    ensures |out| == |rs|
    ensures forall i :: 0 <= i < |rs| ==> out[i] == TimeOf(rs, es, i)
  {
    out := [];
    var idx, seen := 0, false;
    for n := 0 to |rs|
      invariant |out| == n && seen == (n > 0) && idx == (if n == 0 then 0 else EpochOf(rs, n - 1))
      invariant forall i :: 0 <= i < n ==> out[i] == TimeOf(rs, es, i)
    {
      if rs[n].kind == BOOT_MARKER && seen { idx := idx + 1; }
      seen := true;
      out := out + [Seconds(rs[n].ts) + es[Min(idx, |es| - 1)].offset];
    }
  }

  /** The times both functions give together. */
  ghost predicate OnAxis(rs: seq<Record>, es: seq<Epoch>, times: seq<real>) {
    && Segments(rs, |rs|, es) && LaidOut(es) && |times| == |rs|
    && forall i :: 0 <= i < |rs| ==> |es| > 0 && times[i] == TimeOf(rs, es, i)
  }

  method Timeline(rs: seq<Record>) returns (es: seq<Epoch>, times: seq<real>)
    ensures OnAxis(rs, es, times)
  {
    es := SegmentEpochs(rs);
    times := GlobalTimes(rs, es);
  }

  lemma EpochInOrder(rs: seq<Record>, n: nat, x: Epoch, e: nat)
    requires n <= |rs| && SumsUp(rs, n, x, e)
    ensures x.minUs <= x.maxUs
  {}

  lemma InEpoch(rs: seq<Record>, n: nat, x: Epoch, e: nat, i: nat)
    requires i < n <= |rs| && SumsUp(rs, n, x, e) && EpochOf(rs, i) == e
    ensures x.minUs <= rs[i].ts <= x.maxUs
  {
    assert Belongs(rs, i, e);
  }

  lemma SpanIsNonNegative(x: Epoch)
    requires x.minUs <= x.maxUs
    ensures x.Span() >= 0.0
  {}

  lemma WithinSpan(x: Epoch, ts: int)
    requires x.minUs <= ts <= x.maxUs
    ensures 0.0 <= Seconds(ts) - Seconds(x.minUs) <= x.Span()
  {}

  /** Every record is placed in the epoch it was counted in, within that epoch's span. */
  lemma TimesLieInTheirEpoch(rs: seq<Record>, es: seq<Epoch>, times: seq<real>, i: nat)
    requires OnAxis(rs, es, times) && i < |rs|
    ensures var e := EpochOf(rs, i);
      && e < |es|
      && times[i] == Seconds(rs[i].ts) + es[e].offset
      && es[e].start <= times[i] <= es[e].start + es[e].Span()
  {
    var e := EpochOf(rs, i);
    EpochOfMonotone(rs, i, |rs| - 1);
    assert PlacedAt(es, es, e);
    InEpoch(rs, |rs|, es[e], e, i);
    WithinSpan(es[e], rs[i].ts);
  }

  lemma {:induction false} StartsAreApart(rs: seq<Record>, es: seq<Epoch>, d: nat, e: nat)
    requires Segments(rs, |rs|, es) && LaidOut(es) && d < e < |es|
    ensures es[d].start + es[d].Span() + EPOCH_GAP_S <= es[e].start
  {
    assert PlacedAt(es, es, e) && PlacedAt(es, es, e - 1);
    if d < e - 1 {
      StartsAreApart(rs, es, d, e - 1);
      EpochInOrder(rs, |rs|, es[e - 1], e - 1);
      SpanIsNonNegative(es[e - 1]);
    }
  }

  /** Records of different boots keep their order and are at least 30 s apart. */
  lemma EpochsAreApart(rs: seq<Record>, es: seq<Epoch>, times: seq<real>, i: nat, j: nat)
    requires OnAxis(rs, es, times) && i < |rs| && j < |rs| && EpochOf(rs, i) < EpochOf(rs, j)
    ensures times[i] + EPOCH_GAP_S <= times[j]
  {
    TimesLieInTheirEpoch(rs, es, times, i);
    TimesLieInTheirEpoch(rs, es, times, j);
    StartsAreApart(rs, es, EpochOf(rs, i), EpochOf(rs, j));
  }

  /** Within an epoch the axis keeps the distance between timestamps. */
  lemma EpochKeepsDistances(rs: seq<Record>, es: seq<Epoch>, times: seq<real>, i: nat, j: nat)
    requires OnAxis(rs, es, times) && i < |rs| && j < |rs| && EpochOf(rs, i) == EpochOf(rs, j)
    ensures times[j] - times[i] == Seconds(rs[j].ts) - Seconds(rs[i].ts)
  {
    TimesLieInTheirEpoch(rs, es, times, i);
    TimesLieInTheirEpoch(rs, es, times, j);
  }

  function TotalCount(es: seq<Epoch>): nat {
    if es == [] then 0 else TotalCount(es[..|es| - 1]) + es[|es| - 1].count
  }

  function TotalMembers(rs: seq<Record>, n: nat, k: nat): nat
    requires n <= |rs|
  {
    if k == 0 then 0 else TotalMembers(rs, n, k - 1) + Members(rs, n, k - 1)
  }

  lemma {:induction false} OneMoreMember(rs: seq<Record>, n: nat, k: nat)
    requires n < |rs|
    ensures TotalMembers(rs, n + 1, k) == TotalMembers(rs, n, k) + if EpochOf(rs, n) < k then 1 else 0
  {
    if k > 0 { OneMoreMember(rs, n, k - 1); }
  }

  lemma {:induction false} MembersAddUp(rs: seq<Record>, n: nat, k: nat)
    requires n <= |rs| && k >= Epochs(rs, n)
    ensures TotalMembers(rs, n, k) == n
  {
    if n > 0 {
      MembersAddUp(rs, n - 1, k);
      OneMoreMember(rs, n - 1, k);
    } else {
      NoMembers(rs, k);
    }
  }

  lemma {:induction false} NoMembers(rs: seq<Record>, k: nat)
    ensures TotalMembers(rs, 0, k) == 0
  {
    if k > 0 { NoMembers(rs, k - 1); }
  }

  lemma {:induction false} CountsAreMembers(rs: seq<Record>, es: seq<Epoch>, k: nat)
    requires Segments(rs, |rs|, es) && k <= |es|
    ensures TotalCount(es[..k]) == TotalMembers(rs, |rs|, k)
  {
    if k > 0 {
      CountsAreMembers(rs, es, k - 1);
      assert es[..k][..k - 1] == es[..k - 1];
      assert SumsUp(rs, |rs|, es[k - 1], k - 1);
    }
  }

  /** No record is lost or counted twice. */
  lemma CountsAddUp(rs: seq<Record>, es: seq<Epoch>)
    requires Segments(rs, |rs|, es)
    ensures TotalCount(es) == |rs|
  {
    CountsAreMembers(rs, es, |es|);
    assert es[..|es|] == es;
    MembersAddUp(rs, |rs|, |es|);
  }
}
