/**
 * The command line: defaulting of -interval, the choice of mode from the
 * flags, and the -servers listing with its 50-line cap and latency column.
 */
module Cli {
  import opened Wrappers
  import opened Decimal
  import opened Runner

  /** The parsed flags, with the defaults of flag.Bool/String/Int. */
  datatype Flags = Flags(list: bool, web: bool, port: string, interval: int, limit: int, servers: bool, serverId: string)

  function DefaultFlags(): Flags {
    Flags(false, false, "8080", 0, 100, false, "")
  }

  /** What main sets going, in order. AwaitScheduler only occurs in the corrected dispatch. */
  datatype Action =
    | ListRecords
    | ListServers
    | StartScheduler(minutes: int)
    | ServeWeb(port: string, limit: int)
    | MeasureOnce(serverId: string)
    | AwaitScheduler

  /** -web with -interval 0 means a two-hour schedule. */
  const WebDefaultInterval: int := 120

  function EffectiveInterval(f: Flags): int {
    if f.web && f.interval == 0 then WebDefaultInterval else f.interval
  }

  /** The branches of main, as written: list, servers, web, interval, then the one-shot run. */
  function Dispatch(f: Flags): seq<Action> {
    var interval := EffectiveInterval(f);
    if f.list then [ListRecords]
    else if f.servers then [ListServers]
    else if f.web then
      (if interval > 0 then [StartScheduler(interval)] else []) + [ServeWeb(f.port, f.limit)]
    else
      (if interval > 0 then [StartScheduler(interval)] else [])
      + (if !f.web && interval == 0 then [MeasureOnce(f.serverId)] else [])
  }

  predicate StartsScheduler(acts: seq<Action>) {
    exists i :: 0 <= i < |acts| && acts[i].StartScheduler?
  }

  predicate MeasuresOnce(acts: seq<Action>) {
    exists i :: 0 <= i < |acts| && acts[i].MeasureOnce?
  }

  /** -list wins over every other flag, then -servers; each ends main on its own. */
  lemma ListThenServersPrecedence(f: Flags)
    ensures f.list ==> Dispatch(f) == [ListRecords]
    ensures !f.list && f.servers ==> Dispatch(f) == [ListServers]
    ensures ListRecords in Dispatch(f) <==> f.list
    ensures ListServers in Dispatch(f) <==> !f.list && f.servers
  {
  }

  /** -web serves, and starts the scheduler first exactly when the defaulted interval is positive. */
  lemma WebMode(f: Flags)
    requires !f.list && !f.servers && f.web
    ensures Dispatch(f)[|Dispatch(f)| - 1] == ServeWeb(f.port, f.limit)
    ensures StartsScheduler(Dispatch(f)) <==> EffectiveInterval(f) > 0
    ensures f.interval == 0 ==> Dispatch(f) == [StartScheduler(120), ServeWeb(f.port, f.limit)]
    ensures f.interval < 0 ==> Dispatch(f) == [ServeWeb(f.port, f.limit)]
    ensures !MeasuresOnce(Dispatch(f))
  {
    if EffectiveInterval(f) > 0 {
      assert Dispatch(f)[0].StartScheduler?;
    }
  }

  /** The one-shot run happens iff no earlier mode applies and there is no -web and no interval. */
  lemma {:induction false} OneShotIff(f: Flags)
    ensures MeasuresOnce(Dispatch(f)) <==> !f.list && !f.servers && !f.web && f.interval == 0
    ensures MeasuresOnce(Dispatch(f)) ==> Dispatch(f) == [MeasureOnce(f.serverId)]
  {
    var acts := Dispatch(f);
    if !f.list && !f.servers && !f.web && f.interval == 0 {
      assert acts == [MeasureOnce(f.serverId)];
      assert acts[0].MeasureOnce?;
    } else {
      forall i | 0 <= i < |acts|
        ensures !acts[i].MeasureOnce?
      {
      }
    }
  }

  /** The scheduler starts iff no earlier mode applies and the defaulted interval is positive. */
  lemma SchedulerIff(f: Flags)
    ensures StartsScheduler(Dispatch(f)) <==> !f.list && !f.servers && EffectiveInterval(f) > 0
    ensures StartsScheduler(Dispatch(f)) ==> Dispatch(f)[0] == StartScheduler(EffectiveInterval(f))
  {
    var acts := Dispatch(f);
    if !f.list && !f.servers && EffectiveInterval(f) > 0 {
      assert acts[0].StartScheduler?;
    }
  }

  /** A negative -interval without -web starts nothing at all. */
  lemma NegativeIntervalDoesNothing(f: Flags)
    requires !f.list && !f.servers && !f.web && f.interval < 0
    ensures Dispatch(f) == []
  {
  }

  // ---------------------------------------------------------------------------
  // The scheduler-only mode: main returns right after `go autoTest`

  /** main stays alive only while it blocks in the web server (or, corrected, waits on the scheduler). */
  predicate Blocks(a: Action) {
    a.ServeWeb? || a.AwaitScheduler?
  }

  /** Every scheduler started is followed by something that keeps the process alive, so ticks can fire. */
  predicate SchedulerCanTick(acts: seq<Action>) {
    forall i :: 0 <= i < |acts| && acts[i].StartScheduler? ==>
      exists j :: i < j < |acts| && Blocks(acts[j])
  }

  /** -interval N with N > 0 and no earlier mode: the scheduler-only mode. */
  predicate SchedulerOnly(f: Flags) {
    !f.list && !f.servers && !f.web && f.interval > 0
  }

  /**
   * As written: in the scheduler-only mode main starts the goroutine and
   * returns before the first tick; `-interval 30` alone is one such flag set.
   */
  lemma SchedulerOnlyExitsAtOnce(f: Flags)
    requires SchedulerOnly(f)
    ensures Dispatch(f) == [StartScheduler(f.interval)]
    ensures !SchedulerCanTick(Dispatch(f))
    ensures SchedulerOnly(DefaultFlags().(interval := 30))
  {
    assert Dispatch(f)[0].StartScheduler?;
  }

  /** The scheduler-only mode waits on the scheduler instead of returning; all else as written. */
  function DispatchIntended(f: Flags): (acts: seq<Action>)
    ensures !SchedulerOnly(f) ==> acts == Dispatch(f)
  {
    if SchedulerOnly(f) then Dispatch(f) + [AwaitScheduler] else Dispatch(f)
  }

  /** With the correction, every started scheduler gets to tick. */
  lemma {:induction false} IntendedSchedulerTicks(f: Flags)
    ensures SchedulerCanTick(DispatchIntended(f))
    ensures StartsScheduler(DispatchIntended(f)) <==> StartsScheduler(Dispatch(f))
  {
    var acts := DispatchIntended(f);
    if SchedulerOnly(f) {
      assert acts == [StartScheduler(f.interval), AwaitScheduler];
      assert Blocks(acts[1]);
      assert acts[0].StartScheduler?;
    } else if !f.list && !f.servers && f.web {
      var last := |acts| - 1;
      assert acts[last] == ServeWeb(f.port, f.limit);
      assert Blocks(acts[last]);
      forall i | 0 <= i < |acts| && acts[i].StartScheduler?
        ensures exists j :: i < j < |acts| && Blocks(acts[j])
      {
        assert i < last;
      }
    } else {
      forall i | 0 <= i < |acts|
        ensures !acts[i].StartScheduler?
      {
      }
    }
  }

  // ---------------------------------------------------------------------------
  // The -servers listing

  /** The most servers the listing prints. */
  const ListingCap: nat := 50

  /** Shown in place of a latency that is not positive. */
  const TimeoutMarker: string := "\U{8D85}\U{65F6}"

  /** The latency column: the decimal number of milliseconds, or the timeout marker. */
  function LatencyText(ms: int): string {
    if ms > 0 then Itoa(ms) else TimeoutMarker
  }

  /** The marker is never mistaken for a number: a shown latency reads back iff it was positive. */
  lemma {:induction false} LatencyTextReadsBack(ms: int)
    requires MinInt64 <= ms <= MaxInt64
    ensures Atoi(LatencyText(ms)) == Some(ms) <==> ms > 0
    ensures LatencyText(ms) == TimeoutMarker <==> ms <= 0
  {
    if ms > 0 {
      AtoiItoa(ms);
      assert LatencyText(ms)[0] != TimeoutMarker[0] by {
        assert IsDigit(Itoa(ms)[0]);
      }
    } else {
      assert !IsDigit(TimeoutMarker[0]) && TimeoutMarker[0] != '-' && TimeoutMarker[0] != '+';
    }
  }

  /** One printed line of the listing. */
  datatype ServerLine = ServerLine(id: string, name: string, country: string, distance: real, latency: string)

  function LineOf(s: Server, latencyMs: int): ServerLine {
    ServerLine(s.id, s.name, s.country, s.distance, LatencyText(latencyMs))
  }

  /** The listing: the first 50 servers in list order, and the notice when there are more. */
  datatype Listing = Listing(isp: string, lines: seq<ServerLine>, notice: bool)

  /**
   * The -servers mode with the geolocation left out. latencyOf is what
   * PingTest leaves on a server; its error is never looked at.
   */
  method ListServerTable(isp: Option<string>, servers: Option<seq<Server>>, latencyOf: Server -> int)
    returns (r: Result<Listing, Stage>)
    ensures isp.None? ==> r == Failure(FetchUser)
    ensures isp.Some? && servers.None? ==> r == Failure(FetchServers)
    ensures r.Success? <==> isp.Some? && servers.Some?
    ensures r.Success? ==>
              var all := servers.value;
              var lines := r.value.lines;
              && r.value.isp == isp.value
              && |lines| == (if |all| < ListingCap then |all| else ListingCap)
              && (forall i :: 0 <= i < |lines| ==> lines[i] == LineOf(all[i], latencyOf(all[i])))
              && (r.value.notice <==> |all| > ListingCap)
  {
    if isp.None? {
      return Failure(FetchUser);
    }
    if servers.None? {
      return Failure(FetchServers);
    }
    var all := servers.value;
    var lines: seq<ServerLine> := [];
    var count := 0;
    var i := 0;
    while i < |all|
      invariant 0 <= i <= |all| && count == i && count <= ListingCap
      invariant |lines| == count
      invariant forall k :: 0 <= k < |lines| ==> lines[k] == LineOf(all[k], latencyOf(all[k]))
    {
      if count >= ListingCap {
        break;
      }
      var s := all[i];
      var latency := latencyOf(s);
      lines := lines + [LineOf(s, latency)];
      count := count + 1;
      i := i + 1;
    }
    r := Success(Listing(isp.value, lines, |all| > ListingCap));
  }
}
