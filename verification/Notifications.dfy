/** Notification packets: their parser, the time stamps and the delivery to subscriptions. */
module Notifications {
  import opened Bytes
  import opened Outcomes
  import opened Readers

  const WINDOWS_EPOCH_DIFF := 11644473600
  const TICKS_PER_SECOND := 10000000
  const NANOS_PER_SECOND := 1000000000
  const TWO64 := 0x1_0000_0000_0000_0000

  /** time.Unix(seconds, nanos) with nanos of less than a second. */
  datatype Time = Time(seconds: int64, nanos: nat)

  datatype Sample = Sample(handle: uint32, payload: seq<byte>)

  datatype Stamp = Stamp(timestamp: Time, samples: seq<Sample>)

  // -------------------------------------------------------------- Time stamps

  /** int64(n) of a uint64. */
  function Int64Of(n: uint64): int64 {
    if n < 0x8000_0000_0000_0000 then n else n - TWO64
  }

  /** filetimeToTime: the subtraction is one of uint64 and wraps before 1970. */
  function FiletimeToTime(filetime: uint64): Time {
    var wrapped := (filetime / TICKS_PER_SECOND - WINDOWS_EPOCH_DIFF) % TWO64;
    Time(Int64Of(wrapped), filetime % TICKS_PER_SECOND * 100)
  }

  predicate IsLeapYear(year: nat) {
    year % 4 == 0 && (year % 100 != 0 || year % 400 == 0)
  }

  /** The days from the begin of 1601 to that of 1601 + `years`. */
  function DaysAfter1601(years: nat): nat {
    if years == 0 then 0 else DaysAfter1601(years - 1) + if IsLeapYear(1600 + years) then 366 else 365
  }

  lemma {:induction false} DaysInClosedForm(years: nat)
    ensures DaysAfter1601(years) == 365 * years + years / 4 - years / 100 + years / 400
  {
    if years > 0 {
      DaysInClosedForm(years - 1);
      QuotientStep(years, 4);
      QuotientStep(years, 100);
      QuotientStep(years, 400);
      LeapYearIff(years);
    }
  }

  lemma QuotientStep(n: nat, m: nat)
    requires n > 0 && m > 0
    ensures n / m - (n - 1) / m == if n % m == 0 then 1 else 0
  {
    var q, r := n / m, n % m;
    assert n == q * m + r;
    if r == 0 {
      assert n - 1 == (q - 1) * m + (m - 1);
      DivisionIs(n - 1, q - 1, m - 1, m);
    } else {
      DivisionIs(n - 1, q, r - 1, m);
    }
  }

  lemma LeapYearIff(n: nat)
    ensures IsLeapYear(1600 + n) <==> n % 4 == 0 && (n % 100 != 0 || n % 400 == 0)
    ensures (n % 400 == 0 ==> n % 100 == 0) && (n % 100 == 0 ==> n % 4 == 0)
  {
    ShiftedMod(n, 400, 4);
    ShiftedMod(n, 16, 100);
    ShiftedMod(n, 4, 400);
    Divides(n, 25, 4);
    Divides(n, 4, 100);
  }

  /** What a multiple divides, its factor divides. */
  lemma Divides(n: nat, k: nat, m: nat)
    requires k > 0 && m > 0
    ensures n % (k * m) == 0 ==> n % m == 0
  {
    if n % (k * m) == 0 {
      var q := n / (k * m);
      assert n == q * (k * m) == (q * k) * m;
      DivisionIs(n, q * k, 0, m);
    }
  }

  lemma ShiftedMod(n: nat, k: nat, m: nat)
    requires m > 0
    ensures (k * m + n) % m == n % m
  {
    var q, r := n / m, n % m;
    assert k * m + n == (k + q) * m + r;
    DivisionIs(k * m + n, k + q, r, m);
  }

  /** The time is exact for every FILETIME: the nanoseconds since the Unix epoch are 100
      for each tick since 1601 less those of the days from 1601 to 1970. */
  lemma FiletimeIsExact(filetime: uint64)
    ensures var t, days := FiletimeToTime(filetime), DaysAfter1601(1970 - 1601);
      && t.seconds * 1_000_000_000 + t.nanos == filetime * 100 - days * 86_400 * 1_000_000_000
      && t.nanos < 1_000_000_000
  {
    EpochDistance();
    TicksAreExact(filetime);
  }

  lemma EpochDistance()
    ensures DaysAfter1601(1970 - 1601) == 134_774 && WINDOWS_EPOCH_DIFF == 134_774 * 86_400
  {
    DaysInClosedForm(369);
  }

  lemma TicksAreExact(filetime: uint64)
    ensures var t := FiletimeToTime(filetime);
      && t.seconds * 1_000_000_000 + t.nanos == filetime * 100 - WINDOWS_EPOCH_DIFF * 1_000_000_000
      && t.nanos < 1_000_000_000
  {
  }

  // ------------------------------------------------------------------ Parsing

  function ParseSample(s: seq<byte>): Parsed<Sample> {
    var (handle, s) :- ReadU32(s);
    var (dataLength, s) :- ReadU32(s);
    var (payload, s) :- Fill(s, dataLength);
    Ok((Sample(handle, payload), s))
  }

  function ParseStamp(s: seq<byte>): Parsed<Stamp> {
    var (filetime, s) :- ReadU64(s);
    var (sampleCount, s) :- ReadU32(s);
    var (samples, s) :- Repeat(ParseSample, sampleCount, s);
    Ok((Stamp(FiletimeToTime(filetime), samples), s))
  }

  /** The announced length is read and not used. */
  function ParseNotification(data: seq<byte>): Parsed<seq<Stamp>> {
    var (_, s) :- ReadU32(data);
    var (stampCount, s) :- ReadU32(s);
    Repeat(ParseStamp, stampCount, s)
  }

  method ReadSample(reader: Reader) returns (r: Outcome<Sample, ParseError>)
    modifies reader
    ensures Ran(ParseSample(old(reader.rest)), r, reader.rest)
  {
    var handle := reader.U32();
    if handle.IsFailure() {
      return handle.PropagateFailure();
    }
    var dataLength := reader.U32();
    if dataLength.IsFailure() {
      return dataLength.PropagateFailure();
    }
    var payload := reader.Read(dataLength.value);
    if payload.IsFailure() {
      return payload.PropagateFailure();
    }
    r := Ok(Sample(handle.value, payload.value));
  }

  method ReadSamples(reader: Reader, sampleCount: nat) returns (r: Outcome<seq<Sample>, ParseError>)
    modifies reader
    ensures Ran(Repeat(ParseSample, sampleCount, old(reader.rest)), r, reader.rest)
  {
    var samples: seq<Sample> := [];
    var j := 0;
    ghost var whole := Repeat(ParseSample, sampleCount, reader.rest);
    OntoNone(whole);
    ghost var left: nat, todo: Parsed<seq<Sample>> := sampleCount, whole;
    while j < sampleCount
      invariant 0 <= j <= sampleCount && left == sampleCount - j
      invariant todo == Repeat(ParseSample, left, reader.rest) && whole == Onto(samples, todo)
    {
      ghost var s := reader.rest;
      var sample := ReadSample(reader);
      ghost var fewer: nat := left - 1;
      OntoStep(ParseSample, samples, left, fewer, s, sample, reader.rest);
      if sample.IsFailure() {
        return sample.PropagateFailure();
      }
      todo := Repeat(ParseSample, fewer, reader.rest);
      assert whole == Onto(samples + [sample.value], todo);
      samples := samples + [sample.value];
      left := fewer;
      j := j + 1;
    }
    assert samples + [] == samples;
    r := Ok(samples);
  }

  method ReadStamp(reader: Reader) returns (r: Outcome<Stamp, ParseError>)
    modifies reader
    ensures Ran(ParseStamp(old(reader.rest)), r, reader.rest)
  {
    var filetime := reader.U64();
    if filetime.IsFailure() {
      return filetime.PropagateFailure();
    }
    var sampleCount := reader.U32();
    if sampleCount.IsFailure() {
      return sampleCount.PropagateFailure();
    }
    var samples := ReadSamples(reader, sampleCount.value);
    if samples.IsFailure() {
      return samples.PropagateFailure();
    }
    r := Ok(Stamp(FiletimeToTime(filetime.value), samples.value));
  }

  method ReadStamps(reader: Reader, stampCount: nat) returns (r: Outcome<seq<Stamp>, ParseError>)
    modifies reader
    ensures Ran(Repeat(ParseStamp, stampCount, old(reader.rest)), r, reader.rest)
  {
    var stamps: seq<Stamp> := [];
    var i := 0;
    ghost var whole := Repeat(ParseStamp, stampCount, reader.rest);
    OntoNone(whole);
    ghost var left: nat, todo: Parsed<seq<Stamp>> := stampCount, whole;
    while i < stampCount
      invariant 0 <= i <= stampCount && left == stampCount - i
      invariant todo == Repeat(ParseStamp, left, reader.rest) && whole == Onto(stamps, todo)
    {
      ghost var s := reader.rest;
      var stamp := ReadStamp(reader);
      ghost var fewer: nat := left - 1;
      OntoStep(ParseStamp, stamps, left, fewer, s, stamp, reader.rest);
      if stamp.IsFailure() {
        return stamp.PropagateFailure();
      }
      todo := Repeat(ParseStamp, fewer, reader.rest);
      assert whole == Onto(stamps + [stamp.value], todo);
      stamps := stamps + [stamp.value];
      left := fewer;
      i := i + 1;
    }
    assert stamps + [] == stamps;
    r := Ok(stamps);
  }

  /** The stamps of a packet, or an error; what follows them is not looked at. */
  method ParseNotificationPacket(data: seq<byte>) returns (r: Outcome<seq<Stamp>, ParseError>)
    ensures r == Result(ParseNotification(data))
  {
    var reader := new Reader(data);
    var length := reader.U32();
    if length.IsFailure() {
      return length.PropagateFailure();
    }
    var stampCount := reader.U32();
    if stampCount.IsFailure() {
      return stampCount.PropagateFailure();
    }
    r := ReadStamps(reader, stampCount.value);
  }

  // --------------------------------------------------------------- The format

  /** A stamp as it stands in a packet. */
  datatype WireStamp = WireStamp(filetime: uint64, samples: seq<Sample>)

  function StampOf(w: WireStamp): Stamp {
    Stamp(FiletimeToTime(w.filetime), w.samples)
  }

  function StampsOf(ws: seq<WireStamp>): seq<Stamp> {
    if ws == [] then [] else [StampOf(ws[0])] + StampsOf(ws[1..])
  }

  function PutSample(x: Sample, k: seq<byte>): seq<byte> {
    PutUint(x.handle, 4, PutUint(|x.payload|, 4, Put(x.payload, k)))
  }

  function PutSamples(xs: seq<Sample>, k: seq<byte>): seq<byte> {
    if xs == [] then k else PutSample(xs[0], PutSamples(xs[1..], k))
  }

  function PutStamp(w: WireStamp, k: seq<byte>): seq<byte> {
    PutUint(w.filetime, 8, PutUint(|w.samples|, 4, PutSamples(w.samples, k)))
  }

  function PutStamps(ws: seq<WireStamp>, k: seq<byte>): seq<byte> {
    if ws == [] then k else PutStamp(ws[0], PutStamps(ws[1..], k))
  }

  function Encode(length: uint32, ws: seq<WireStamp>, k: seq<byte>): seq<byte> {
    PutUint(length, 4, PutUint(|ws|, 4, PutStamps(ws, k)))
  }

  predicate SamplesFit(xs: seq<Sample>) {
    xs != [] ==> |xs[0].payload| < 0x1_0000_0000 && SamplesFit(xs[1..])
  }

  /** Counts and lengths fit their fields. */
  predicate StampsFit(ws: seq<WireStamp>) {
    ws != [] ==> |ws[0].samples| < 0x1_0000_0000 && SamplesFit(ws[0].samples) && StampsFit(ws[1..])
  }

  /** The last sample has no payload: reading it finds the end of the data. */
  predicate LastIsEmpty(xs: seq<Sample>) {
    xs != [] && xs[|xs| - 1].payload == []
  }

  predicate EndsInEmptySample(ws: seq<WireStamp>) {
    ws != [] && LastIsEmpty(ws[|ws| - 1].samples)
  }

  lemma SampleInverts(x: Sample, k: seq<byte>)
    requires |x.payload| < 0x1_0000_0000
    ensures ParseSample(PutSample(x, k)) == if x.payload == [] && k == [] then Err(InvalidData) else Ok((x, k))
  {
    ReadPut32(x.handle, PutUint(|x.payload|, 4, Put(x.payload, k)));
    ReadPut32(|x.payload|, Put(x.payload, k));
    if x.payload == [] {
      assert Put(x.payload, k) == k;
    } else {
      FillPut(x.payload, k);
    }
  }

  lemma PutSampleNotEmpty(x: Sample, k: seq<byte>)
    ensures PutSample(x, k) != []
  {
  }

  lemma PutStampNotEmpty(w: WireStamp, k: seq<byte>)
    ensures PutStamp(w, k) != []
  {
  }

  lemma {:induction false} SamplesInvert(xs: seq<Sample>, k: seq<byte>)
    requires SamplesFit(xs)
    ensures Repeat(ParseSample, |xs|, PutSamples(xs, k))
         == if LastIsEmpty(xs) && k == [] then Err(InvalidData) else Ok((xs, k))
  {
    if xs != [] {
      var rest := PutSamples(xs[1..], k);
      var fewer: nat := |xs| - 1;
      SampleInverts(xs[0], rest);
      SamplesInvert(xs[1..], k);
      LastOfMore(xs, k);
      RepeatStep(ParseSample, |xs|, fewer, PutSample(xs[0], rest));
      assert [xs[0]] + xs[1..] == xs;
    }
  }

  lemma RepeatStep<T>(p: seq<byte> -> Parsed<T>, n: nat, fewer: nat, s: seq<byte>)
    requires n == fewer + 1
    ensures p(s).Ok? ==> Repeat(p, n, s) == Onto([p(s).value.0], Repeat(p, fewer, p(s).value.1))
    ensures p(s).Err? ==> Repeat(p, n, s) == Err(p(s).error)
  {
  }

  lemma LastOfMore(xs: seq<Sample>, k: seq<byte>)
    requires xs != []
    ensures |xs| > 1 ==> PutSamples(xs[1..], k) != [] && LastIsEmpty(xs) == LastIsEmpty(xs[1..])
    ensures |xs| == 1 ==> PutSamples(xs[1..], k) == k && LastIsEmpty(xs) == (xs[0].payload == [])
  {
    if |xs| > 1 {
      PutSampleNotEmpty(xs[1], PutSamples(xs[1..][1..], k));
    }
  }

  lemma StampInverts(w: WireStamp, k: seq<byte>)
    requires |w.samples| < 0x1_0000_0000 && SamplesFit(w.samples)
    ensures ParseStamp(PutStamp(w, k))
         == if LastIsEmpty(w.samples) && k == [] then Err(InvalidData) else Ok((StampOf(w), k))
  {
    ReadPut64(w.filetime, PutUint(|w.samples|, 4, PutSamples(w.samples, k)));
    ReadPut32(|w.samples|, PutSamples(w.samples, k));
    SamplesInvert(w.samples, k);
  }

  lemma {:induction false} StampsInvert(ws: seq<WireStamp>, k: seq<byte>)
    requires StampsFit(ws)
    ensures Repeat(ParseStamp, |ws|, PutStamps(ws, k))
         == if EndsInEmptySample(ws) && k == [] then Err(InvalidData) else Ok((StampsOf(ws), k))
  {
    if ws != [] {
      StampInverts(ws[0], PutStamps(ws[1..], k));
      StampsInvert(ws[1..], k);
      if |ws| > 1 {
        PutStampNotEmpty(ws[1], PutStamps(ws[1..][1..], k));
        assert EndsInEmptySample(ws) == EndsInEmptySample(ws[1..]);
      }
    }
  }

  /** Parsing inverts the format except in one case: a sample without payload that ends
      the data. It is lost with the whole packet. Bytes behind the stamps never matter. */
  lemma ParseInvertsEncodeIff(length: uint32, ws: seq<WireStamp>, k: seq<byte>)
    requires |ws| < 0x1_0000_0000 && StampsFit(ws)
    ensures var r := ParseNotification(Encode(length, ws, k));
      && (r == Ok((StampsOf(ws), k)) <==> !(EndsInEmptySample(ws) && k == []))
      && (r.Err? <==> EndsInEmptySample(ws) && k == [])
  {
    ReadPut32(length, PutUint(|ws|, 4, PutStamps(ws, k)));
    ReadPut32(|ws|, PutStamps(ws, k));
    StampsInvert(ws, k);
  }

  // ----------------------------------------------------------------- Delivery

  /** A callback job: the goroutine that processNotification runs in. */
  datatype Job<S> = Job(subscription: S, payload: seq<byte>, timestamp: Time)

  /** The subscriptions as the lookup for each sample finds them, the samples numbered in
      the order of the packet: each lookup takes the lock for itself. */
  type Lookups<S> = nat -> map<uint32, S>

  function StampJobs<S>(seen: Lookups<S>, first: nat, stamp: Stamp, n: nat): seq<Job<S>>
    requires n <= |stamp.samples|
  {
    if n == 0 then []
    else
      var x := stamp.samples[n - 1];
      var subscriptions := seen(first + (n - 1));
      StampJobs(seen, first, stamp, n - 1)
        + if x.handle in subscriptions then [Job(subscriptions[x.handle], x.payload, stamp.timestamp)] else []
  }

  function SamplesIn(stamps: seq<Stamp>, n: nat): nat
    requires n <= |stamps|
  {
    if n == 0 then 0 else SamplesIn(stamps, n - 1) + |stamps[n - 1].samples|
  }

  function Jobs<S>(seen: Lookups<S>, stamps: seq<Stamp>, n: nat): seq<Job<S>>
    requires n <= |stamps|
  {
    if n == 0 then []
    else
      Jobs(seen, stamps, n - 1)
        + StampJobs(seen, SamplesIn(stamps, n - 1), stamps[n - 1], |stamps[n - 1].samples|)
  }

  method DispatchStamp<S>(seen: Lookups<S>, first: nat, stamp: Stamp) returns (jobs: seq<Job<S>>)
    ensures jobs == StampJobs(seen, first, stamp, |stamp.samples|)
  {
    jobs := [];
    for j := 0 to |stamp.samples|
      invariant jobs == StampJobs(seen, first, stamp, j)
    {
      var sample := stamp.samples[j];
      var subscriptions := seen(first + j);
      if sample.handle in subscriptions {
        jobs := jobs + [Job(subscriptions[sample.handle], sample.payload, stamp.timestamp)];
      }
    }
  }

  /** The jobs of the stamps that parse, or none. */
  function JobsOf<S>(seen: Lookups<S>, data: seq<byte>): seq<Job<S>> {
    var parsed := Result(ParseNotification(data));
    if parsed.Ok? then Jobs(seen, parsed.value, |parsed.value|) else []
  }

  /** The jobs that a notification packet starts, in order. */
  method HandleNotification<S>(seen: Lookups<S>, data: seq<byte>) returns (jobs: seq<Job<S>>)
    ensures jobs == JobsOf(seen, data)
  {
    jobs := [];
    var parsed := ParseNotificationPacket(data);
    if parsed.IsFailure() {
      return;
    }
    var stamps := parsed.value;
    var done := 0;
    for i := 0 to |stamps|
      invariant jobs == Jobs(seen, stamps, i) && done == SamplesIn(stamps, i)
    {
      var started := DispatchStamp(seen, done, stamps[i]);
      jobs := jobs + started;
      done := done + |stamps[i].samples|;
    }
  }

  /** The samples of all stamps in the order of the packet, with their times. */
  function Flat(stamps: seq<Stamp>): seq<(Time, Sample)> {
    if stamps == [] then []
    else Flat(stamps[..|stamps| - 1]) + Timed(stamps[|stamps| - 1].timestamp, stamps[|stamps| - 1].samples)
  }

  function Timed(t: Time, xs: seq<Sample>): (r: seq<(Time, Sample)>)
    ensures |r| == |xs|
  {
    if xs == [] then [] else Timed(t, xs[..|xs| - 1]) + [(t, xs[|xs| - 1])]
  }

  /** The lookup for sample `k` knows its handle. */
  predicate Known<S>(seen: Lookups<S>, samples: seq<(Time, Sample)>, k: nat)
    requires k < |samples|
  {
    samples[k].1.handle in seen(k)
  }

  function JobOf<S>(seen: Lookups<S>, samples: seq<(Time, Sample)>, k: nat): Job<S>
    requires k < |samples| && Known(seen, samples, k)
  {
    Job(seen(k)[samples[k].1.handle], samples[k].1.payload, samples[k].0)
  }

  /** `jobs` are the jobs of the samples at the positions `at`: those whose handle is known
      when it is looked up, all of them, each once and in order, with its own payload and
      time. */
  ghost predicate Delivers<S>(seen: Lookups<S>, samples: seq<(Time, Sample)>, jobs: seq<Job<S>>, at: seq<nat>) {
    && |jobs| == |at|
    && (forall i :: 0 <= i < |at| ==> at[i] < |samples| && Known(seen, samples, at[i]))
    && (forall i, j :: 0 <= i < j < |at| ==> at[i] < at[j])
    && (forall k :: 0 <= k < |samples| && Known(seen, samples, k) ==> k in at)
    && (forall i :: 0 <= i < |at| ==> jobs[i] == JobOf(seen, samples, at[i]))
  }

  lemma DeliversNone<S>(seen: Lookups<S>)
    ensures Delivers<S>(seen, [], [], [])
  {
  }

  /** One more sample. */
  lemma DeliversMore<S>(seen: Lookups<S>, samples: seq<(Time, Sample)>, jobs: seq<Job<S>>, at: seq<nat>,
                        x: (Time, Sample))
    requires Delivers(seen, samples, jobs, at)
    ensures !Known(seen, samples + [x], |samples|) ==> Delivers(seen, samples + [x], jobs, at)
    ensures Known(seen, samples + [x], |samples|) ==>
      Delivers(seen, samples + [x], jobs + [JobOf(seen, samples + [x], |samples|)], at + [|samples|])
  {
    var more := samples + [x];
    assert forall k: nat :: k < |samples| ==> more[k] == samples[k];
    assert forall k: nat :: k < |samples| ==> (Known(seen, more, k) <==> Known(seen, samples, k));
    if Known(seen, more, |samples|) {
      var at' := at + [|samples|];
      forall k | 0 <= k < |more| && Known(seen, more, k) ensures k in at' {
        if k < |samples| {
          assert k in at;
        } else {
          assert at'[|at|] == k;
        }
      }
    }
  }

  lemma {:induction false} StampDelivers<S>(seen: Lookups<S>, samples: seq<(Time, Sample)>, jobs: seq<Job<S>>,
                                            at: seq<nat>, stamp: Stamp, n: nat)
    returns (at': seq<nat>)
    requires n <= |stamp.samples| && Delivers(seen, samples, jobs, at)
    ensures Delivers(seen, samples + Timed(stamp.timestamp, stamp.samples[..n]),
                     jobs + StampJobs(seen, |samples|, stamp, n), at')
  {
    var front := Timed(stamp.timestamp, stamp.samples[..n]);
    var started := StampJobs(seen, |samples|, stamp, n);
    if n == 0 {
      assert samples + front == samples && jobs + started == jobs;
      at' := at;
    } else {
      var x := (stamp.timestamp, stamp.samples[n - 1]);
      var fewer := Timed(stamp.timestamp, stamp.samples[..n - 1]);
      var before := StampJobs(seen, |samples|, stamp, n - 1);
      at' := StampDelivers(seen, samples, jobs, at, stamp, n - 1);
      DeliversMore(seen, samples + fewer, jobs + before, at', x);
      assert stamp.samples[..n][..n - 1] == stamp.samples[..n - 1];
      var all := (samples + fewer) + [x];
      var k := |samples + fewer|;
      assert samples + front == all && k == |samples| + (n - 1);
      if Known(seen, all, k) {
        at' := at' + [k];
        assert jobs + started == (jobs + before) + [JobOf(seen, all, k)];
      } else {
        assert jobs + started == jobs + before;
      }
    }
  }

  lemma {:induction false} FlatLength(stamps: seq<Stamp>, n: nat)
    requires n <= |stamps|
    ensures |Flat(stamps[..n])| == SamplesIn(stamps, n)
  {
    if n > 0 {
      assert stamps[..n][..n - 1] == stamps[..n - 1];
      FlatLength(stamps, n - 1);
    }
  }

  /** Every sample whose handle is known when it is looked up starts one job with its own
      payload and time, in the order of the packet; nothing else does. */
  lemma {:induction false} DeliveredInOrder<S>(seen: Lookups<S>, stamps: seq<Stamp>, n: nat)
    returns (at: seq<nat>)
    requires n <= |stamps|
    ensures Delivers(seen, Flat(stamps[..n]), Jobs(seen, stamps, n), at)
  {
    if n == 0 {
      DeliversNone(seen);
      at := [];
    } else {
      var stamp := stamps[n - 1];
      at := DeliveredInOrder(seen, stamps, n - 1);
      assert stamps[..n][..n - 1] == stamps[..n - 1];
      assert stamp.samples[..|stamp.samples|] == stamp.samples;
      FlatLength(stamps, n - 1);
      at := StampDelivers(seen, Flat(stamps[..n - 1]), Jobs(seen, stamps, n - 1), at, stamp, |stamp.samples|);
    }
  }

  /** From the packet to the callbacks: each sample that was encoded and whose handle is
      known starts one job with its own payload and time, in order, unless the data ends
      in a sample without payload; then none does. */
  lemma EncodedSamplesAreDelivered<S>(seen: Lookups<S>, length: uint32, ws: seq<WireStamp>, k: seq<byte>)
    returns (at: seq<nat>)
    requires |ws| < 0x1_0000_0000 && StampsFit(ws)
    ensures var jobs := JobsOf(seen, Encode(length, ws, k));
      if EndsInEmptySample(ws) && k == [] then jobs == []
      else Delivers(seen, Flat(StampsOf(ws)), jobs, at)
  {
    var stamps := StampsOf(ws);
    ParseInvertsEncodeIff(length, ws, k);
    at := DeliveredInOrder(seen, stamps, |stamps|);
    assert stamps[..|stamps|] == stamps;
  }
}
