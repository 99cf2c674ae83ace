/** When a sample refreshes the topology (sample_once and topology_retry_delay in
    src/monitor_backend_linux.c). Times are in milliseconds of the monotonic clock. */
module SampleSchedule {
  import opened Basics

  const SCAN_INTERVAL: nat := 5000
  const BATTERY_INTERVAL: nat := 5000

  function RetryDelay(failures: nat): nat {
    if failures <= 1 then 1000
    else if failures == 2 then 2000
    else if failures == 3 then 4000
    else SCAN_INTERVAL
  }

  /** An interval is due when it has elapsed or when there is no usable baseline. */
  predicate Due(now: int, last: int, interval: int) {
    last <= 0 || now < last || now - last >= interval
  }

  datatype Schedule = Schedule(
    lastUpdate: int, lastScan: int, lastBattery: int,
    retryPending: bool, failures: nat, notBefore: int)

  /** One sample: at `now`, with or without a forced topology, with collectors that found
      everything or not. */
  datatype Sample = Sample(now: int, forced: bool, complete: bool)

  predicate Sampled(s: Schedule, x: Sample) {
    x.now > s.lastUpdate
  }

  /** The sample scans the topology. */
  predicate Refreshes(s: Schedule, x: Sample) {
    Sampled(s, x) &&
    (x.forced ||
     if s.retryPending then x.now >= s.notBefore else Due(x.now, s.lastScan, SCAN_INTERVAL))
  }

  function After(s: Schedule, x: Sample): Schedule {
    if !Sampled(s, x) then s
    else
      var updated := s.(
        lastUpdate := x.now,
        lastBattery := if Due(x.now, s.lastBattery, BATTERY_INTERVAL) then x.now else s.lastBattery);
      if !Refreshes(s, x) then updated
      else if x.complete then updated.(lastScan := x.now, retryPending := false, failures := 0, notBefore := 0)
      else
        var failures := if s.failures < U32_MAX then s.failures + 1 else s.failures;
        updated.(failures := failures, retryPending := true, notBefore := x.now + RetryDelay(failures))
  }

  function Initialised(now: int): Schedule {
    Schedule(now, now, now, false, 0, 0)
  }

  /** What initialisation establishes and every sample keeps. */
  ghost predicate Sane(s: Schedule) {
    && 0 < s.lastScan <= s.lastUpdate && 0 < s.lastBattery <= s.lastUpdate
    && (s.retryPending <==> s.failures > 0)
    && (!s.retryPending ==> s.notBefore == 0)
  }

  /** The earliest time at which an unforced sample scans the topology again. */
  ghost function NextScan(s: Schedule): int {
    if s.retryPending then s.notBefore else s.lastScan + SCAN_INTERVAL
  }

  lemma SampleIsSane(s: Schedule, x: Sample)
    requires Sane(s)
    ensures Sane(After(s, x))
  {
  }

  /** A forced topology is honoured exactly when the clock has advanced since the last sample;
      otherwise the request is dropped. */
  lemma ForcedScanNeedsTheClock(s: Schedule, x: Sample)
    requires x.forced
    ensures Refreshes(s, x) <==> x.now > s.lastUpdate
    ensures x.now <= s.lastUpdate ==> After(s, x) == s
  {
  }

  ghost function StateAfter(s: Schedule, xs: seq<Sample>): Schedule {
    if xs == [] then s else After(StateAfter(s, xs[..|xs| - 1]), xs[|xs| - 1])
  }

  lemma {:induction false} StateAfterIsSane(s: Schedule, xs: seq<Sample>)
    requires Sane(s)
    ensures Sane(StateAfter(s, xs))
  {
    if xs != [] {
      StateAfterIsSane(s, xs[..|xs| - 1]);
      SampleIsSane(StateAfter(s, xs[..|xs| - 1]), xs[|xs| - 1]);
    }
  }

  /** How long after a scan the next unforced one is due. */
  ghost function Pause(after: Schedule): nat {
    if after.retryPending then RetryDelay(after.failures) else SCAN_INTERVAL
  }

  /** Samples that do not scan leave the next scan where it was. */
  lemma {:induction false} QuietSamplesKeepNextScan(s: Schedule, xs: seq<Sample>)
    requires Sane(s)
    requires forall i :: 0 <= i < |xs| ==> !Refreshes(StateAfter(s, xs[..i]), xs[i])
    ensures NextScan(StateAfter(s, xs)) == NextScan(s)
    ensures StateAfter(s, xs).failures == s.failures && StateAfter(s, xs).retryPending == s.retryPending
  {
    if xs != [] {
      var n := |xs| - 1;
      forall i | 0 <= i < n ensures !Refreshes(StateAfter(s, xs[..n][..i]), xs[..n][i]) {
        assert xs[..n][..i] == xs[..i];
      }
      QuietSamplesKeepNextScan(s, xs[..n]);
    }
  }

  /** Cadence: after any scan, at whatever time, an unforced sample scans again exactly when the
      pause the scan's outcome calls for is over, whatever non-scanning samples came between. */
  lemma {:induction false} NextScanAfterPause(s: Schedule, scan: Sample, between: seq<Sample>, x: Sample)
    requires Sane(s) && Refreshes(s, scan)
    requires forall i :: 0 <= i < |between| ==> !Refreshes(StateAfter(After(s, scan), between[..i]), between[i])
    requires !x.forced
    ensures var after := After(s, scan);
            Refreshes(StateAfter(after, between), x) <==>
              Sampled(StateAfter(after, between), x) && x.now >= scan.now + Pause(after)
  {
    var after := After(s, scan);
    SampleIsSane(s, scan);
    QuietSamplesKeepNextScan(after, between);
    StateAfterIsSane(after, between);
  }

  /** A scan that succeeds resets the back-off; one that fails lengthens it, never beyond the
      regular interval, which it reaches with the fourth failure in a row. */
  lemma BackOff(s: Schedule, scan: Sample)
    requires Sane(s) && Refreshes(s, scan) && s.failures <= U32_MAX
    ensures var after := After(s, scan);
            && (scan.complete ==> after.failures == 0 && Pause(after) == SCAN_INTERVAL)
            && (!scan.complete ==>
                  && Pause(after) <= SCAN_INTERVAL
                  && (s.retryPending ==> Pause(s) <= Pause(after))
                  && after.failures == (if s.failures < U32_MAX then s.failures + 1 else U32_MAX)
                  && (s.failures >= 3 ==> Pause(after) == SCAN_INTERVAL))
  {
  }

  function Power(n: nat): nat {
    if n == 0 then 1 else 2 * Power(n - 1)
  }

  lemma {:induction false} PowerGrows(n: nat)
    requires n >= 3
    ensures Power(n) >= 8
  {
    if n > 3 {
      PowerGrows(n - 1);
    } else {
      assert Power(2) == 4 && Power(1) == 2;
    }
  }

  /** The pause after the n-th failure in a row is one second doubled each time, five seconds at most. */
  lemma {:induction false} PauseDoubles(n: nat)
    requires n >= 1
    ensures RetryDelay(n) == if 1000 * Power(n - 1) < 5000 then 1000 * Power(n - 1) else 5000
  {
    if n >= 4 {
      PowerGrows(n - 1);
    } else {
      assert Power(1) == 2 && Power(2) == 4;
    }
  }

  /** After failures alone the count of failures is their number. */
  lemma {:induction false} FailuresCount(s: Schedule, scans: seq<Sample>)
    requires Sane(s) && s.failures + |scans| <= U32_MAX
    requires forall i :: 0 <= i < |scans| ==> Refreshes(StateAfter(s, scans[..i]), scans[i]) && !scans[i].complete
    ensures StateAfter(s, scans).failures == s.failures + |scans|
  {
    if scans != [] {
      var n := |scans| - 1;
      forall i | 0 <= i < n ensures Refreshes(StateAfter(s, scans[..n][..i]), scans[..n][i]) {
        assert scans[..n][..i] == scans[..i];
      }
      FailuresCount(s, scans[..n]);
    }
  }

  /** Batteries are read by the first sample at least five seconds after they were read last, and by
      no earlier one. */
  lemma {:induction false} BatteriesAreReadEveryFiveSeconds(s: Schedule, xs: seq<Sample>, x: Sample)
    requires Sane(s)
    requires forall i :: 0 <= i < |xs| ==> xs[i].now < s.lastBattery + 5000
    ensures StateAfter(s, xs).lastBattery == s.lastBattery
    ensures After(StateAfter(s, xs), x).lastBattery ==
      if x.now > StateAfter(s, xs).lastUpdate && x.now >= s.lastBattery + 5000 then x.now else s.lastBattery
  {
    if xs != [] {
      var n := |xs| - 1;
      BatteriesAreReadEveryFiveSeconds(s, xs[..n], xs[n]);
      StateAfterIsSane(s, xs[..n]);
    }
    StateAfterIsSane(s, xs);
  }

  /** The fields of the backend that a sample changes. */
  class Backend {
    var lastUpdate: int
    var lastScan: int
    var lastBattery: int
    var retryPending: bool
    var retryFailures: nat
    var retryNotBefore: int

    function Timing(): Schedule
      reads this
    {
      Schedule(lastUpdate, lastScan, lastBattery, retryPending, retryFailures, retryNotBefore)
    }

    constructor (now: int)
      requires now > 0
      ensures Timing() == Initialised(now) && Sane(Timing())
    {
      lastUpdate, lastScan, lastBattery := now, now, now;
      retryPending, retryFailures, retryNotBefore := false, 0, 0;
    }

    /** One native sample. `storageComplete` and `hardwareComplete` are what the collectors return. */
    method SampleOnce(now: int, forceTopology: bool, storageComplete: bool, hardwareComplete: bool)
      returns (sampled: bool, refreshTopology: bool)
      modifies this
      ensures var x := Sample(now, forceTopology, storageComplete && hardwareComplete);
              && Timing() == After(old(Timing()), x)
              && sampled == Sampled(old(Timing()), x) && refreshTopology == Refreshes(old(Timing()), x)
    {
      if now <= lastUpdate {
        return false, false;
      }
      lastUpdate := now;
      var retryTopology := retryPending && now >= retryNotBefore;
      var scheduledTopology := !retryPending && Due(now, lastScan, SCAN_INTERVAL);
      refreshTopology := forceTopology || retryTopology || scheduledTopology;
      var refreshBatteries := Due(now, lastBattery, BATTERY_INTERVAL);
      if refreshTopology {
        if storageComplete && hardwareComplete {
          lastScan := now;
          retryPending, retryFailures, retryNotBefore := false, 0, 0;
        } else {
          if retryFailures < U32_MAX {
            retryFailures := retryFailures + 1;
          }
          retryPending := true;
          retryNotBefore := now + RetryDelay(retryFailures);
        }
      }
      if refreshBatteries {
        lastBattery := now;
      }
      sampled := true;
    }
  }
}
