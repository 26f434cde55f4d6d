/**
 * The dmtimers a remote processor needs running before it boots.  Each
 * device has a table of `{cap, id, odt}` entries; the glue requests a timer
 * for every entry (by capability on a device-tree boot, by fixed id
 * otherwise), switches it to the system clock and starts it, undoing the
 * requests made so far when one fails; teardown stops every timer and, when
 * configuring, frees it.
 *
 * The two methods work in place on the table as the glue does and are
 * proved equal to reference functions of the old table and the old trace;
 * the lemmas after them state what those reference functions guarantee.
 */
module Timers {
  import opened Services

  /** One entry of a timer table: wanted capability, fallback id, timer held. */
  datatype TimerInfo = TimerInfo(cap: Capability, id: nat, odt: Odt)

  /** The static tables: each processor needs the one timer wired to its interrupt. */
  const IPU_TIMERS: seq<TimerInfo> := [TimerInfo(HasIpuIrq, 3, Null)]
  const DSP_TIMERS: seq<TimerInfo> := [TimerInfo(HasDspIrq, 5, Null)]

  /** The request made for an entry: by capability on a device-tree boot, else by id. */
  function RequestFor(dtPopulated: bool, t: TimerInfo): (req: TimerRequest) {
    if dtPopulated then ByCap(t.cap) else ById(t.id)
  }

  /** The acquisition loop's state: still going, or stopped at entry `k`, whose request returned NULL. */
  datatype Acquisition =
    | Acquiring(table: seq<TimerInfo>, trace: seq<Event>)
    | FailedAt(k: nat, table: seq<TimerInfo>, trace: seq<Event>)

  /** One pass of the acquisition loop, on entry `i`. */
  function AcquireStep(grant: GrantOracle, dt: bool, table: seq<TimerInfo>, trace: seq<Event>, i: nat): (s: Acquisition)
    requires i < |table|
  {
    var req := RequestFor(dt, table[i]);
    var got := grant(trace, req);
    var table' := table[i := table[i].(odt := got)];
    if got == Null then FailedAt(i, table', trace + [Requested(req, got)])
    else Acquiring(table', trace + [Requested(req, got), SourceSet(got, SysClk)])
  }

  /** The acquisition loop after its first `i` passes (or after the pass that failed). */
  function AcquireUpTo(grant: GrantOracle, dt: bool, table0: seq<TimerInfo>, trace0: seq<Event>, i: nat): (s: Acquisition)
    requires i <= |table0|
    ensures |s.table| == |table0|
    ensures s.FailedAt? ==> s.k < i
  {
    if i == 0 then Acquiring(table0, trace0)
    else
      var s := AcquireUpTo(grant, dt, table0, trace0, i - 1);
      if s.FailedAt? then s else AcquireStep(grant, dt, s.table, s.trace, i - 1)
  }

  /** The calls that acquire entries 0..k-1: a request, then the system clock selected. */
  function AcquireEvents(dt: bool, table: seq<TimerInfo>, k: nat): (es: seq<Event>)
    requires k <= |table|
    ensures |es| == 2 * k
  {
    if k == 0 then []
    else
      var t := table[k - 1];
      AcquireEvents(dt, table, k - 1) + [Requested(RequestFor(dt, t), t.odt), SourceSet(t.odt, SysClk)]
  }

  /** The calls that start entries 0..n-1, in index order. */
  function StartEvents(table: seq<TimerInfo>, n: nat): (es: seq<Event>)
    requires n <= |table|
    ensures |es| == n
  {
    if n == 0 then [] else StartEvents(table, n - 1) + [Started(table[n - 1].odt)]
  }

  /** The calls that free entries hi-1 down to lo. */
  function FreeEvents(table: seq<TimerInfo>, lo: nat, hi: nat): (es: seq<Event>)
    requires lo <= hi <= |table|
    ensures |es| == hi - lo
    decreases hi - lo
  {
    if lo == hi then [] else FreeEvents(table, lo + 1, hi) + [Freed(table[lo].odt)]
  }

  /** The calls that tear down entries 0..n-1: stop each, and free it when configuring. */
  function TeardownEvents(table: seq<TimerInfo>, n: nat, configure: bool): (es: seq<Event>)
    requires n <= |table|
    ensures |es| == if configure then 2 * n else n
  {
    if n == 0 then []
    else
      var odt := table[n - 1].odt;
      TeardownEvents(table, n - 1, configure) + [Stopped(odt)] + (if configure then [Freed(odt)] else [])
  }

  /** The table with entries lo..hi-1 set to NULL. */
  function Released(table: seq<TimerInfo>, lo: nat, hi: nat): (t: seq<TimerInfo>)
    requires lo <= hi <= |table|
  {
    seq(|table|, j requires 0 <= j < |table| => if lo <= j < hi then table[j].(odt := Null) else table[j])
  }

  /** Status, table and trace after a call on a non-NULL table. */
  datatype Outcome = Outcome(ret: int, table: seq<TimerInfo>, trace: seq<Event>)

  /** Reference outcome of omap_rproc_enable_timers on a non-NULL table. */
  function EnableTimersRun(grant: GrantOracle, dt: bool, table0: seq<TimerInfo>, trace0: seq<Event>,
                           configure: bool): (o: Outcome)
  {
    if !configure then Outcome(0, table0, trace0 + StartEvents(table0, |table0|))
    else
      match AcquireUpTo(grant, dt, table0, trace0, |table0|)
      case Acquiring(t, h) => Outcome(0, t, h + StartEvents(t, |t|))
      case FailedAt(k, t, h) => Outcome(-EBUSY, Released(t, 0, k), h + FreeEvents(t, 0, k))
  }

  /** Reference outcome of omap_rproc_disable_timers on a non-NULL table. */
  function DisableTimersRun(table0: seq<TimerInfo>, trace0: seq<Event>, configure: bool): (o: Outcome) {
    Outcome(0, if configure then Released(table0, 0, |table0|) else table0,
            trace0 + TeardownEvents(table0, |table0|, configure))
  }

  /** Once the acquisition loop has failed, later passes leave it as it is. */
  lemma {:induction false} AcquireStaysFailed(grant: GrantOracle, dt: bool, table0: seq<TimerInfo>,
                                              trace0: seq<Event>, i: nat, j: nat)
    requires i <= j <= |table0|
    requires AcquireUpTo(grant, dt, table0, trace0, i).FailedAt?
    ensures AcquireUpTo(grant, dt, table0, trace0, j) == AcquireUpTo(grant, dt, table0, trace0, i)
    decreases j
  {
    if i < j {
      AcquireStaysFailed(grant, dt, table0, trace0, i, j - 1);
    }
  }

  /**
   * The free_timers path of omap_rproc_enable_timers: entries k-1 down to 0
   * are freed and set to NULL; nothing else changes.
   */
  method FreeTimers(hw: Backend, timers: array<TimerInfo>, k: nat)
    requires k <= timers.Length
    modifies hw, timers
    ensures timers[..] == Released(old(timers[..]), 0, k)
    ensures hw.trace == old(hw.trace) + FreeEvents(old(timers[..]), 0, k)
  {
    var i := k;
    while i > 0
      invariant 0 <= i <= k
      invariant timers[..] == Released(old(timers[..]), i, k)
      invariant hw.trace == old(hw.trace) + FreeEvents(old(timers[..]), i, k)
    {
      i := i - 1;
      hw.Free(timers[i].odt);
      timers[i] := timers[i].(odt := Null);
    }
  }

  /** omap_rproc_enable_timers */
  method EnableTimers(hw: Backend, timers: array?<TimerInfo>, configure: bool) returns (ret: int)
    modifies hw, timers
    ensures timers == null ==> ret == -EINVAL && hw.trace == old(hw.trace)
    ensures timers != null ==>
      var o := EnableTimersRun(hw.grant, hw.dtPopulated, old(timers[..]), old(hw.trace), configure);
      ret == o.ret && timers[..] == o.table && hw.trace == o.trace
  {
    if timers == null {
      return -EINVAL;
    }
    ghost var table0, trace0 := timers[..], hw.trace;
    var i := 0;
    if configure {
      while i < timers.Length
        invariant 0 <= i <= timers.Length
        invariant AcquireUpTo(hw.grant, hw.dtPopulated, table0, trace0, i) == Acquiring(timers[..], hw.trace)
      {
        ghost var before, traceBefore := timers[..], hw.trace;
        var odt;
        if hw.dtPopulated {
          odt := hw.RequestByCap(timers[i].cap);
        } else {
          odt := hw.RequestSpecific(timers[i].id);
        }
        timers[i] := timers[i].(odt := odt);
        assert timers[..] == before[i := before[i].(odt := odt)];
        assert AcquireUpTo(hw.grant, hw.dtPopulated, table0, trace0, i + 1)
            == AcquireStep(hw.grant, hw.dtPopulated, before, traceBefore, i);
        if timers[i].odt == Null {
          ret := -EBUSY;
          ghost var failed := timers[..];
          assert AcquireUpTo(hw.grant, hw.dtPopulated, table0, trace0, i + 1) == FailedAt(i, failed, hw.trace);
          AcquireStaysFailed(hw.grant, hw.dtPopulated, table0, trace0, i + 1, timers.Length);
          FreeTimers(hw, timers, i);
          return;
        }
        hw.SetSource(timers[i].odt, SysClk);
        i := i + 1;
      }
    }
    ghost var acquired, h1 := timers[..], hw.trace;
    i := 0;
    while i < timers.Length
      invariant 0 <= i <= timers.Length
      invariant timers[..] == acquired
      invariant hw.trace == h1 + StartEvents(acquired, i)
    {
      hw.Start(timers[i].odt);
      i := i + 1;
    }
    return 0;
  }

  /** omap_rproc_disable_timers (a NULL table counts as one with no entries) */
  method DisableTimers(hw: Backend, timers: array?<TimerInfo>, configure: bool) returns (ret: int)
    modifies hw, timers
    ensures ret == 0
    ensures timers == null ==> hw.trace == old(hw.trace)
    ensures timers != null ==>
      var o := DisableTimersRun(old(timers[..]), old(hw.trace), configure);
      timers[..] == o.table && hw.trace == o.trace
  {
    var count := if timers == null then 0 else timers.Length;
    ghost var table0, trace0 := if timers == null then [] else timers[..], hw.trace;
    var i := 0;
    while i < count
      invariant 0 <= i <= count
      invariant timers != null ==> timers[..] == if configure then Released(table0, 0, i) else table0
      invariant hw.trace == trace0 + TeardownEvents(table0, i, configure)
    {
      hw.Stop(timers[i].odt);
      if configure {
        hw.Free(timers[i].odt);
        timers[i] := timers[i].(odt := Null);
      }
      i := i + 1;
    }
    return 0;
  }

  /** AcquireEvents depends only on the entries it covers. */
  lemma {:induction false} AcquireEventsFrame(dt: bool, t1: seq<TimerInfo>, t2: seq<TimerInfo>, k: nat)
    requires k <= |t1| && k <= |t2|
    requires forall j :: 0 <= j < k ==> t1[j] == t2[j]
    ensures AcquireEvents(dt, t1, k) == AcquireEvents(dt, t2, k)
  {
    if k > 0 {
      AcquireEventsFrame(dt, t1, t2, k - 1);
    }
  }

  /**
   * The acquisition loop keeps every entry's cap and id, and leaves alone
   * the entries it has not reached.
   */
  lemma {:induction false} AcquireKeepsEntries(grant: GrantOracle, dt: bool, table0: seq<TimerInfo>,
                                               trace0: seq<Event>, i: nat)
    requires i <= |table0|
    ensures var s := AcquireUpTo(grant, dt, table0, trace0, i);
      && (forall j :: 0 <= j < |table0| ==> s.table[j].cap == table0[j].cap && s.table[j].id == table0[j].id)
      && (s.Acquiring? ==> forall j :: i <= j < |table0| ==> s.table[j] == table0[j])
      && (s.FailedAt? ==> forall j :: s.k < j < |table0| ==> s.table[j] == table0[j])
  {
    if i > 0 {
      AcquireKeepsEntries(grant, dt, table0, trace0, i - 1);
    }
  }

  /**
   * Entries the acquisition loop has passed hold a timer; when it stopped
   * at entry k, entry k holds NULL.
   */
  lemma {:induction false} AcquireHolds(grant: GrantOracle, dt: bool, table0: seq<TimerInfo>,
                                        trace0: seq<Event>, i: nat)
    requires i <= |table0|
    ensures var s := AcquireUpTo(grant, dt, table0, trace0, i);
      && (s.Acquiring? ==> forall j :: 0 <= j < i ==> s.table[j].odt != Null)
      && (s.FailedAt? ==> (forall j :: 0 <= j < s.k ==> s.table[j].odt != Null) && s.table[s.k].odt == Null)
  {
    if i > 0 {
      AcquireHolds(grant, dt, table0, trace0, i - 1);
    }
  }

  /**
   * The calls made by the acquisition loop: for each entry passed, its
   * request and its clock source; when it stopped at entry k, then the
   * one request that returned NULL.
   */
  lemma {:induction false} AcquireCalls(grant: GrantOracle, dt: bool, table0: seq<TimerInfo>,
                                        trace0: seq<Event>, i: nat)
    requires i <= |table0|
    ensures var s := AcquireUpTo(grant, dt, table0, trace0, i);
      && (s.Acquiring? ==> s.trace == trace0 + AcquireEvents(dt, s.table, i))
      && (s.FailedAt? ==>
            s.trace == trace0 + AcquireEvents(dt, s.table, s.k) + [Requested(RequestFor(dt, table0[s.k]), Null)])
  {
    if i > 0 {
      AcquireCalls(grant, dt, table0, trace0, i - 1);
      AcquireKeepsEntries(grant, dt, table0, trace0, i - 1);
      var p := AcquireUpTo(grant, dt, table0, trace0, i - 1);
      if p.Acquiring? {
        var s := AcquireStep(grant, dt, p.table, p.trace, i - 1);
        AcquireEventsFrame(dt, p.table, s.table, i - 1);
      }
    }
  }

  /**
   * The acquisition loop keeps every entry's cap and id.  While it is
   * going, the entries it has passed hold a timer, the others are
   * untouched, and the calls made are those of AcquireEvents.  When it
   * stopped at entry k, entries before k hold a timer, entry k holds NULL,
   * later entries are untouched, and the calls made are the acquisitions of
   * entries 0..k-1 followed by the one failed request.
   */
  lemma AcquireShape(grant: GrantOracle, dt: bool, table0: seq<TimerInfo>, trace0: seq<Event>, i: nat)
    requires i <= |table0|
    ensures var s := AcquireUpTo(grant, dt, table0, trace0, i);
      && (forall j :: 0 <= j < |table0| ==> s.table[j].cap == table0[j].cap && s.table[j].id == table0[j].id)
      && (s.Acquiring? ==>
            && (forall j :: 0 <= j < i ==> s.table[j].odt != Null)
            && (forall j :: i <= j < |table0| ==> s.table[j] == table0[j])
            && s.trace == trace0 + AcquireEvents(dt, s.table, i))
      && (s.FailedAt? ==>
            && (forall j :: 0 <= j < s.k ==> s.table[j].odt != Null)
            && s.table[s.k].odt == Null
            && (forall j :: s.k < j < |table0| ==> s.table[j] == table0[j])
            && s.trace == trace0 + AcquireEvents(dt, s.table, s.k) + [Requested(RequestFor(dt, table0[s.k]), Null)])
  {
    AcquireKeepsEntries(grant, dt, table0, trace0, i);
    AcquireHolds(grant, dt, table0, trace0, i);
    AcquireCalls(grant, dt, table0, trace0, i);
  }

  /** Entry j's acquisition is the (2j)-th and (2j+1)-th call: its request, then its clock source. */
  lemma {:induction false} AcquireEventsAt(dt: bool, table: seq<TimerInfo>, k: nat, j: nat)
    requires j < k <= |table|
    ensures AcquireEvents(dt, table, k)[2 * j] == Requested(RequestFor(dt, table[j]), table[j].odt)
    ensures AcquireEvents(dt, table, k)[2 * j + 1] == SourceSet(table[j].odt, SysClk)
  {
    if j < k - 1 {
      AcquireEventsAt(dt, table, k - 1, j);
    }
  }

  /** Entry j is the j-th timer started. */
  lemma {:induction false} StartEventsAt(table: seq<TimerInfo>, n: nat, j: nat)
    requires j < n <= |table|
    ensures StartEvents(table, n)[j] == Started(table[j].odt)
  {
    if j < n - 1 {
      StartEventsAt(table, n - 1, j);
    }
  }

  /** Freeing runs backwards: entry j is freed after entries j+1..hi-1. */
  lemma {:induction false} FreeEventsAt(table: seq<TimerInfo>, lo: nat, hi: nat, j: nat)
    requires lo <= j < hi <= |table|
    ensures FreeEvents(table, lo, hi)[hi - 1 - j] == Freed(table[j].odt)
    decreases hi - lo
  {
    if lo < j {
      FreeEventsAt(table, lo + 1, hi, j);
    }
  }

  /** Entry j's teardown stops its timer and, when configuring, then frees it. */
  lemma {:induction false} TeardownEventsAt(table: seq<TimerInfo>, n: nat, configure: bool, j: nat)
    requires j < n <= |table|
    ensures configure ==> TeardownEvents(table, n, configure)[2 * j] == Stopped(table[j].odt)
    ensures configure ==> TeardownEvents(table, n, configure)[2 * j + 1] == Freed(table[j].odt)
    ensures !configure ==> TeardownEvents(table, n, configure)[j] == Stopped(table[j].odt)
  {
    if j < n - 1 {
      TeardownEventsAt(table, n - 1, configure, j);
    }
  }

  /** Acquiring makes no start call. */
  lemma {:induction false} AcquireEventsStartNothing(dt: bool, table: seq<TimerInfo>, k: nat)
    requires k <= |table|
    ensures forall e :: e in AcquireEvents(dt, table, k) ==> !e.Started?
  {
    if k > 0 {
      AcquireEventsStartNothing(dt, table, k - 1);
    }
  }

  /** Freeing makes no start call. */
  lemma {:induction false} FreeEventsStartNothing(table: seq<TimerInfo>, lo: nat, hi: nat)
    requires lo <= hi <= |table|
    ensures forall e :: e in FreeEvents(table, lo, hi) ==> e.Freed?
    decreases hi - lo
  {
    if lo < hi {
      FreeEventsStartNothing(table, lo + 1, hi);
    }
  }

  /**
   * omap_rproc_enable_timers with configure when every request succeeds:
   * it returns 0; every entry keeps its cap and id and now holds a timer;
   * entry j was requested (by capability on a device-tree boot, by id
   * otherwise, the same for every entry) and set to the system clock before
   * the next entry, and only after all of them were acquired is each timer
   * started, in index order.
   */
  lemma EnableTimersAcquired(grant: GrantOracle, dt: bool, table0: seq<TimerInfo>, trace0: seq<Event>)
    requires AcquireUpTo(grant, dt, table0, trace0, |table0|).Acquiring?
    ensures var o := EnableTimersRun(grant, dt, table0, trace0, true); var n := |table0|; var b := |trace0|;
      && o.ret == 0
      && |o.table| == n
      && |o.trace| == b + 3 * n
      && o.trace[..b] == trace0
      && (forall j :: 0 <= j < n ==>
            && o.table[j] == table0[j].(odt := o.table[j].odt)
            && o.table[j].odt != Null
            && o.trace[b + 2 * j] == Requested(RequestFor(dt, table0[j]), o.table[j].odt)
            && o.trace[b + 2 * j + 1] == SourceSet(o.table[j].odt, SysClk)
            && o.trace[b + 2 * n + j] == Started(o.table[j].odt))
  {
    var n, b := |table0|, |trace0|;
    AcquireShape(grant, dt, table0, trace0, n);
    var o := EnableTimersRun(grant, dt, table0, trace0, true);
    forall j | 0 <= j < n
      ensures o.trace[b + 2 * j] == Requested(RequestFor(dt, table0[j]), o.table[j].odt)
      ensures o.trace[b + 2 * j + 1] == SourceSet(o.table[j].odt, SysClk)
      ensures o.trace[b + 2 * n + j] == Started(o.table[j].odt)
    {
      AcquireEventsAt(dt, o.table, n, j);
      StartEventsAt(o.table, n, j);
    }
  }

  /**
   * omap_rproc_enable_timers with configure when the request for entry k
   * returns NULL: it returns -EBUSY; entries 0..k end NULL with cap and id
   * kept, and entries after k are untouched.
   */
  lemma EnableTimersRollbackTable(grant: GrantOracle, dt: bool, table0: seq<TimerInfo>, trace0: seq<Event>)
    requires AcquireUpTo(grant, dt, table0, trace0, |table0|).FailedAt?
    ensures var k := AcquireUpTo(grant, dt, table0, trace0, |table0|).k;
            var o := EnableTimersRun(grant, dt, table0, trace0, true); var n := |table0|;
      && o.ret == -EBUSY
      && k < n
      && |o.table| == n
      && (forall j :: 0 <= j <= k ==> o.table[j] == table0[j].(odt := Null))
      && (forall j :: k < j < n ==> o.table[j] == table0[j])
  {
    AcquireShape(grant, dt, table0, trace0, |table0|);
  }

  /** The trace of a failed bring-up, as its three parts. */
  lemma RollbackTrace(grant: GrantOracle, dt: bool, table0: seq<TimerInfo>, trace0: seq<Event>)
    requires AcquireUpTo(grant, dt, table0, trace0, |table0|).FailedAt?
    ensures var s := AcquireUpTo(grant, dt, table0, trace0, |table0|); var k := s.k;
      && k < |table0|
      && (forall j :: 0 <= j < k ==> s.table[j].odt != Null && RequestFor(dt, s.table[j]) == RequestFor(dt, table0[j]))
      && EnableTimersRun(grant, dt, table0, trace0, true).trace
         == trace0 + (AcquireEvents(dt, s.table, k) + [Requested(RequestFor(dt, table0[k]), Null)]
                      + FreeEvents(s.table, 0, k))
  {
    AcquireShape(grant, dt, table0, trace0, |table0|);
  }

  /** Where entry j's acquisition and release sit in the trace of a failed bring-up. */
  lemma RollbackCallsAt(grant: GrantOracle, dt: bool, table0: seq<TimerInfo>, trace0: seq<Event>, j: nat)
    requires AcquireUpTo(grant, dt, table0, trace0, |table0|).FailedAt?
    requires j < AcquireUpTo(grant, dt, table0, trace0, |table0|).k
    ensures var s := AcquireUpTo(grant, dt, table0, trace0, |table0|); var k := s.k;
            var trace := EnableTimersRun(grant, dt, table0, trace0, true).trace; var b := |trace0|;
      && s.table[j].odt != Null
      && |trace| == b + 3 * k + 1
      && trace[b + 2 * j] == Requested(RequestFor(dt, table0[j]), s.table[j].odt)
      && trace[b + 2 * j + 1] == SourceSet(s.table[j].odt, SysClk)
      && trace[b + 3 * k - j] == Freed(s.table[j].odt)
  {
    RollbackTrace(grant, dt, table0, trace0);
    var s := AcquireUpTo(grant, dt, table0, trace0, |table0|);
    var k := s.k;
    var acq, fr := AcquireEvents(dt, s.table, k), FreeEvents(s.table, 0, k);
    var tail := acq + [Requested(RequestFor(dt, table0[k]), Null)] + fr;
    AcquireEventsAt(dt, s.table, k, j);
    FreeEventsAt(s.table, 0, k, j);
    assert tail[2 * j] == acq[2 * j];
    assert tail[2 * j + 1] == acq[2 * j + 1];
    assert tail[3 * k - j] == fr[k - 1 - j];
  }

  /**
   * The calls made by omap_rproc_enable_timers with configure when the
   * request for entry k returns NULL: the acquisitions of entries 0..k-1,
   * the failed request, and then the freeing of each timer acquired, entry
   * k-1 first; no timer is started.
   */
  lemma EnableTimersRollbackCalls(grant: GrantOracle, dt: bool, table0: seq<TimerInfo>, trace0: seq<Event>)
    requires AcquireUpTo(grant, dt, table0, trace0, |table0|).FailedAt?
    ensures var s := AcquireUpTo(grant, dt, table0, trace0, |table0|); var k := s.k;
            var o := EnableTimersRun(grant, dt, table0, trace0, true); var b := |trace0|;
      && k < |table0|
      && |o.trace| == b + 3 * k + 1
      && o.trace[..b] == trace0
      && o.trace[b + 2 * k] == Requested(RequestFor(dt, table0[k]), Null)
      && (forall j :: 0 <= j < k ==>
            && s.table[j].odt != Null
            && o.trace[b + 2 * j] == Requested(RequestFor(dt, table0[j]), s.table[j].odt)
            && o.trace[b + 2 * j + 1] == SourceSet(s.table[j].odt, SysClk)
            && o.trace[b + 3 * k - j] == Freed(s.table[j].odt))
      && (forall e :: e in o.trace[b..] ==> !e.Started?)
  {
    RollbackTrace(grant, dt, table0, trace0);
    var s := AcquireUpTo(grant, dt, table0, trace0, |table0|);
    var k := s.k;
    var acq, fr := AcquireEvents(dt, s.table, k), FreeEvents(s.table, 0, k);
    var tail := acq + [Requested(RequestFor(dt, table0[k]), Null)] + fr;
    var trace := EnableTimersRun(grant, dt, table0, trace0, true).trace;
    assert tail[2 * k] == Requested(RequestFor(dt, table0[k]), Null);
    forall j | 0 <= j < k
      ensures s.table[j].odt != Null
      ensures trace[|trace0| + 2 * j] == Requested(RequestFor(dt, table0[j]), s.table[j].odt)
      ensures trace[|trace0| + 2 * j + 1] == SourceSet(s.table[j].odt, SysClk)
      ensures trace[|trace0| + 3 * k - j] == Freed(s.table[j].odt)
    {
      RollbackCallsAt(grant, dt, table0, trace0, j);
    }
    AcquireEventsStartNothing(dt, s.table, k);
    FreeEventsStartNothing(s.table, 0, k);
    assert trace[|trace0|..] == tail;
  }

  /**
   * omap_rproc_enable_timers without configure: it returns 0, changes no
   * entry, and starts the timer each entry holds, in index order.
   */
  lemma EnableTimersRestart(grant: GrantOracle, dt: bool, table0: seq<TimerInfo>, trace0: seq<Event>)
    ensures var o := EnableTimersRun(grant, dt, table0, trace0, false); var b := |trace0|;
      && o.ret == 0
      && o.table == table0
      && |o.trace| == b + |table0|
      && o.trace[..b] == trace0
      && (forall j :: 0 <= j < |table0| ==> o.trace[b + j] == Started(table0[j].odt))
  {
    forall j | 0 <= j < |table0| {
      StartEventsAt(table0, |table0|, j);
    }
  }

  /**
   * omap_rproc_disable_timers never stops early: it returns 0 and stops
   * every entry's timer in index order; with configure each timer is freed
   * right after being stopped and every entry ends NULL with cap and id
   * kept; without configure no entry changes.
   */
  lemma DisableTimersExhaustive(table0: seq<TimerInfo>, trace0: seq<Event>, configure: bool)
    ensures var o := DisableTimersRun(table0, trace0, configure); var n := |table0|; var b := |trace0|;
      && o.ret == 0
      && |o.table| == n
      && o.trace[..b] == trace0
      && (configure ==>
            && |o.trace| == b + 2 * n
            && forall j :: 0 <= j < n ==>
                 && o.table[j] == table0[j].(odt := Null)
                 && o.trace[b + 2 * j] == Stopped(table0[j].odt)
                 && o.trace[b + 2 * j + 1] == Freed(table0[j].odt))
      && (!configure ==>
            && o.table == table0
            && |o.trace| == b + n
            && forall j :: 0 <= j < n ==> o.trace[b + j] == Stopped(table0[j].odt))
  {
    forall j | 0 <= j < |table0| {
      TeardownEventsAt(table0, |table0|, configure, j);
    }
  }

  /**
   * Bring-up with configure that succeeds, followed by teardown with
   * configure: every timer acquired is stopped and then freed, and every
   * entry ends as it began, with no timer.
   */
  lemma TimersLifecycle(grant: GrantOracle, dt: bool, table0: seq<TimerInfo>, trace0: seq<Event>)
    requires EnableTimersRun(grant, dt, table0, trace0, true).ret == 0
    requires forall j :: 0 <= j < |table0| ==> table0[j].odt == Null
    ensures var up := EnableTimersRun(grant, dt, table0, trace0, true);
            var down := DisableTimersRun(up.table, up.trace, true);
      && down.table == table0
      && forall j :: 0 <= j < |table0| ==>
           && up.table[j].odt != Null
           && down.trace[|up.trace| + 2 * j] == Stopped(up.table[j].odt)
           && down.trace[|up.trace| + 2 * j + 1] == Freed(up.table[j].odt)
  {
    EnableTimersAcquired(grant, dt, table0, trace0);
    var up := EnableTimersRun(grant, dt, table0, trace0, true);
    DisableTimersExhaustive(up.table, up.trace, true);
  }

  /**
   * The IPU's one timer on a device-tree boot: when the capability request
   * is granted, the entry holds that timer, which was set to the system
   * clock and started.
   */
  lemma IpuTimerBringUp(grant: GrantOracle, trace0: seq<Event>)
    requires grant(trace0, ByCap(HasIpuIrq)) != Null
    ensures var g := grant(trace0, ByCap(HasIpuIrq));
      EnableTimersRun(grant, true, IPU_TIMERS, trace0, true)
      == Outcome(0, [TimerInfo(HasIpuIrq, 3, g)],
                 trace0 + [Requested(ByCap(HasIpuIrq), g), SourceSet(g, SysClk), Started(g)])
  {
    var g := grant(trace0, ByCap(HasIpuIrq));
    assert AcquireUpTo(grant, true, IPU_TIMERS, trace0, 1)
        == Acquiring([TimerInfo(HasIpuIrq, 3, g)], trace0 + [Requested(ByCap(HasIpuIrq), g), SourceSet(g, SysClk)]);
  }
}
