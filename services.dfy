/**
 * The kernel services the OMAP remote-processor glue calls into: the
 * omap_device power and hard-reset calls and the dmtimer request, clock,
 * start, stop and free calls.  Their behaviour is not modelled; instead a
 * `Backend` answers every call from an oracle that may depend on the whole
 * history of earlier calls, and records each call (with its answer) in a
 * trace.  Properties proved about the callers therefore hold for every
 * possible behaviour of these services.
 */
module Services {

  /** Kernel error numbers used by the glue (callers see them negated). */
  const EBUSY: int := 16
  const EINVAL: int := 22

  /** Timer capabilities named in the static timer tables. */
  datatype Capability = HasIpuIrq | HasDspIrq

  /** A `struct omap_dm_timer *`: NULL, or a handle to one hardware timer. */
  datatype Odt = Null | Handle(ref: nat)

  /** Clock sources a dmtimer can be switched to; the glue only uses SysClk. */
  datatype ClockSource = SysClk | Clk32kHz | ExtClk

  /** The two ways of asking the dmtimer layer for a timer. */
  datatype TimerRequest =
    | ByCap(cap: Capability)   // omap_dm_timer_request_by_cap
    | ById(id: nat)            // omap_dm_timer_request_specific

  /** The hwmod hard-reset lines "dsp", "cpu0" and "cpu1". */
  datatype ResetLine = Dsp | Cpu0 | Cpu1

  /** The omap_device calls that return a status. */
  datatype PowerCall =
    | DeassertHardreset(line: ResetLine)
    | AssertHardreset(line: ResetLine)
    | DeviceEnable
    | DeviceIdle

  /** One call into a service, with what it answered. */
  datatype Event =
    | Called(call: PowerCall, ret: int)
    | Requested(req: TimerRequest, got: Odt)
    | SourceSet(odt: Odt, src: ClockSource)
    | Started(odt: Odt)
    | Stopped(odt: Odt)
    | Freed(odt: Odt)

  /** What a status call returns, given every call made before it. */
  type StatusOracle = (seq<Event>, PowerCall) -> int

  /** What a timer request returns, given every call made before it. */
  type GrantOracle = (seq<Event>, TimerRequest) -> Odt

  /**
   * The services one remote-processor device sees.  `dtPopulated` is the
   * answer of of_have_populated_dt(), fixed at boot.
   */
  class Backend {
    var trace: seq<Event>
    const status: StatusOracle
    const grant: GrantOracle
    const dtPopulated: bool

    constructor (status: StatusOracle, grant: GrantOracle, dtPopulated: bool)
      ensures trace == []
      ensures this.status == status && this.grant == grant && this.dtPopulated == dtPopulated
    {
      this.status := status;
      this.grant := grant;
      this.dtPopulated := dtPopulated;
      trace := [];
    }

    /** Issues one status call: the oracle answers and the call is recorded. */
    method Invoke(call: PowerCall) returns (ret: int)
      modifies this
      ensures ret == status(old(trace), call)
      ensures trace == old(trace) + [Called(call, ret)]
    {
      ret := status(trace, call);
      trace := trace + [Called(call, ret)];
    }

    /** omap_device_deassert_hardreset */
    method DeassertHardreset(line: ResetLine) returns (ret: int)
      modifies this
      ensures ret == status(old(trace), PowerCall.DeassertHardreset(line))
      ensures trace == old(trace) + [Called(PowerCall.DeassertHardreset(line), ret)]
    {
      ret := Invoke(PowerCall.DeassertHardreset(line));
    }

    /** omap_device_assert_hardreset */
    method AssertHardreset(line: ResetLine) returns (ret: int)
      modifies this
      ensures ret == status(old(trace), PowerCall.AssertHardreset(line))
      ensures trace == old(trace) + [Called(PowerCall.AssertHardreset(line), ret)]
    {
      ret := Invoke(PowerCall.AssertHardreset(line));
    }

    /** omap_device_enable */
    method DeviceEnable() returns (ret: int)
      modifies this
      ensures ret == status(old(trace), PowerCall.DeviceEnable)
      ensures trace == old(trace) + [Called(PowerCall.DeviceEnable, ret)]
    {
      ret := Invoke(PowerCall.DeviceEnable);
    }

    /** omap_device_idle */
    method DeviceIdle() returns (ret: int)
      modifies this
      ensures ret == status(old(trace), PowerCall.DeviceIdle)
      ensures trace == old(trace) + [Called(PowerCall.DeviceIdle, ret)]
    {
      ret := Invoke(PowerCall.DeviceIdle);
    }

    /** Issues one timer request: the oracle grants a timer or NULL. */
    method Request(req: TimerRequest) returns (odt: Odt)
      modifies this
      ensures odt == grant(old(trace), req)
      ensures trace == old(trace) + [Requested(req, odt)]
    {
      odt := grant(trace, req);
      trace := trace + [Requested(req, odt)];
    }

    /** omap_dm_timer_request_by_cap */
    method RequestByCap(cap: Capability) returns (odt: Odt)
      modifies this
      ensures odt == grant(old(trace), ByCap(cap))
      ensures trace == old(trace) + [Requested(ByCap(cap), odt)]
    {
      odt := Request(ByCap(cap));
    }

    /** omap_dm_timer_request_specific */
    method RequestSpecific(id: nat) returns (odt: Odt)
      modifies this
      ensures odt == grant(old(trace), ById(id))
      ensures trace == old(trace) + [Requested(ById(id), odt)]
    {
      odt := Request(ById(id));
    }

    /** omap_dm_timer_set_source (its status is ignored by the glue) */
    method SetSource(odt: Odt, src: ClockSource)
      modifies this
      ensures trace == old(trace) + [SourceSet(odt, src)]
    {
      trace := trace + [SourceSet(odt, src)];
    }

    /** omap_dm_timer_start (its status is ignored by the glue) */
    method Start(odt: Odt)
      modifies this
      ensures trace == old(trace) + [Started(odt)]
    {
      trace := trace + [Started(odt)];
    }

    /** omap_dm_timer_stop (its status is ignored by the glue) */
    method Stop(odt: Odt)
      modifies this
      ensures trace == old(trace) + [Stopped(odt)]
    {
      trace := trace + [Stopped(odt)];
    }

    /** omap_dm_timer_free (its status is ignored by the glue) */
    method Free(odt: Odt)
      modifies this
      ensures trace == old(trace) + [Freed(odt)]
    {
      trace := trace + [Freed(odt)];
    }
  }
}
