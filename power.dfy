/**
 * Reset and power sequencing of the two OMAP4 remote processors: the DSP
 * ("omap-rproc.0", one hard-reset line Dsp) and the dual Cortex-M3 IPU
 * ("omap-rproc.1", hard-reset lines Cpu0 and Cpu1).
 *
 * The device callbacks are written as the glue writes them, branch by
 * branch on the device name, and are proved equal to a reference
 * definition built from the declared reset lines: bring-up releases the
 * lines in the reverse of their declared order and then enables the
 * device; shutdown idles the device and then asserts the lines in
 * declared order; both stop at the first call that returns non-zero.
 */
module Power {
  import opened Services

  const DSP_DEVICE: string := "omap-rproc.0"
  const IPU_DEVICE: string := "omap-rproc.1"

  /** The devices whose reset lines the glue knows. */
  predicate Supported(name: string) {
    name == DSP_DEVICE || name == IPU_DEVICE
  }

  /** Hard-reset lines of a device, primary core first; none if unsupported. */
  function ResetLines(name: string): (lines: seq<ResetLine>)
    ensures |lines| <= 2
    ensures Supported(name) <==> lines != []
  {
    if name == DSP_DEVICE then [Dsp]
    else if name == IPU_DEVICE then [Cpu0, Cpu1]
    else []
  }

  function Reverse<T>(s: seq<T>): (r: seq<T>) {
    if s == [] then [] else Reverse(s[1..]) + [s[0]]
  }

  function Deasserts(lines: seq<ResetLine>): (calls: seq<PowerCall>) {
    seq(|lines|, i requires 0 <= i < |lines| => PowerCall.DeassertHardreset(lines[i]))
  }

  function Asserts(lines: seq<ResetLine>): (calls: seq<PowerCall>) {
    seq(|lines|, i requires 0 <= i < |lines| => PowerCall.AssertHardreset(lines[i]))
  }

  /** Bring-up: release the lines, last declared first, then enable. */
  function EnableSteps(name: string): (steps: seq<PowerCall>) {
    Deasserts(Reverse(ResetLines(name))) + [PowerCall.DeviceEnable]
  }

  /** Shutdown: idle, then assert the lines in declared order. */
  function ShutdownSteps(name: string): (steps: seq<PowerCall>) {
    [PowerCall.DeviceIdle] + Asserts(ResetLines(name))
  }

  /** What a sequence of status calls returns and which calls it issued. */
  datatype Run = Run(ret: int, events: seq<Event>)

  /**
   * Issues `steps` in order after history `h`, stopping at the first call
   * that returns non-zero; the result is that call's status, or 0 when
   * every call succeeded.
   */
  function RunSteps(status: StatusOracle, h: seq<Event>, steps: seq<PowerCall>): (r: Run)
    decreases |steps|
  {
    if steps == [] then Run(0, [])
    else
      var e := Called(steps[0], status(h, steps[0]));
      if e.ret != 0 then Run(e.ret, [e])
      else
        var rest := RunSteps(status, h + [e], steps[1..]);
        Run(rest.ret, [e] + rest.events)
  }

  /**
   * The calls issued are a prefix of `steps`, in order; each call is issued
   * only if every earlier one returned 0; the result is 0 exactly when all
   * of `steps` were issued and succeeded, and otherwise the status of the
   * last (failing) call.
   */
  lemma {:induction false} RunStepsStopsAtFirstFailure(status: StatusOracle, h: seq<Event>, steps: seq<PowerCall>)
    decreases |steps|
    ensures var r := RunSteps(status, h, steps);
      && |r.events| <= |steps|
      && (steps != [] ==> r.events != [])
      && (forall j :: 0 <= j < |r.events| ==> r.events[j].Called? && r.events[j].call == steps[j])
      && (forall j :: 0 <= j < |r.events| - 1 ==> r.events[j].ret == 0)
      && (r.ret == 0 ==> |r.events| == |steps| && forall j :: 0 <= j < |steps| ==> r.events[j].ret == 0)
      && (r.ret != 0 ==> r.events != [] && r.events[|r.events| - 1].ret == r.ret)
  {
    if steps != [] && status(h, steps[0]) == 0 {
      RunStepsStopsAtFirstFailure(status, h + [Called(steps[0], 0)], steps[1..]);
    }
  }

  /** Reference outcome of omap_rproc_device_enable. */
  function EnableRun(status: StatusOracle, h: seq<Event>, name: string): (r: Run) {
    if Supported(name) then RunSteps(status, h, EnableSteps(name)) else Run(-EINVAL, [])
  }

  /** Reference outcome of omap_rproc_device_shutdown. */
  function ShutdownRun(status: StatusOracle, h: seq<Event>, name: string): (r: Run) {
    RunSteps(status, h, ShutdownSteps(name))
  }

  /** One step of `RunSteps`: the first call, then the rest after it. */
  lemma RunStepsCons(status: StatusOracle, h: seq<Event>, c: PowerCall, rest: seq<PowerCall>)
    ensures RunSteps(status, h, [c] + rest) ==
      var e := Called(c, status(h, c));
      if e.ret != 0 then Run(e.ret, [e])
      else Run(RunSteps(status, h + [e], rest).ret, [e] + RunSteps(status, h + [e], rest).events)
  {
    assert ([c] + rest)[1..] == rest;
  }

  /** omap_rproc_device_enable */
  method EnableDevice(hw: Backend, name: string) returns (ret: int)
    modifies hw
    ensures ret == EnableRun(hw.status, old(hw.trace), name).ret
    ensures hw.trace == old(hw.trace) + EnableRun(hw.status, old(hw.trace), name).events
  {
    ghost var h := hw.trace;
    ret := -EINVAL;
    if name == DSP_DEVICE {
      assert EnableSteps(name) == [PowerCall.DeassertHardreset(Dsp)] + [PowerCall.DeviceEnable];
      RunStepsCons(hw.status, h, PowerCall.DeassertHardreset(Dsp), [PowerCall.DeviceEnable]);
      ret := hw.DeassertHardreset(Dsp);
      if ret != 0 {
        return;
      }
    } else if name == IPU_DEVICE {
      assert EnableSteps(name) ==
        [PowerCall.DeassertHardreset(Cpu1)] + ([PowerCall.DeassertHardreset(Cpu0)] + [PowerCall.DeviceEnable]);
      RunStepsCons(hw.status, h, PowerCall.DeassertHardreset(Cpu1),
        [PowerCall.DeassertHardreset(Cpu0)] + [PowerCall.DeviceEnable]);
      ret := hw.DeassertHardreset(Cpu1);
      if ret != 0 {
        return;
      }
      RunStepsCons(hw.status, hw.trace, PowerCall.DeassertHardreset(Cpu0), [PowerCall.DeviceEnable]);
      ret := hw.DeassertHardreset(Cpu0);
      if ret != 0 {
        return;
      }
    } else {
      return;
    }
    RunStepsCons(hw.status, hw.trace, PowerCall.DeviceEnable, []);
    ret := hw.DeviceEnable();
  }

  /** omap_rproc_device_shutdown */
  method ShutdownDevice(hw: Backend, name: string) returns (ret: int)
    modifies hw
    ensures ret == ShutdownRun(hw.status, old(hw.trace), name).ret
    ensures hw.trace == old(hw.trace) + ShutdownRun(hw.status, old(hw.trace), name).events
  {
    ghost var h := hw.trace;
    ghost var asserts := Asserts(ResetLines(name));
    RunStepsCons(hw.status, h, PowerCall.DeviceIdle, asserts);
    ret := hw.DeviceIdle();
    if ret != 0 {
      return;
    }
    ghost var rest := RunSteps(hw.status, hw.trace, asserts);
    assert ShutdownRun(hw.status, h, name) == Run(rest.ret, hw.trace[|h|..] + rest.events);
    if name == DSP_DEVICE {
      assert asserts == [PowerCall.AssertHardreset(Dsp)];
      RunStepsCons(hw.status, hw.trace, PowerCall.AssertHardreset(Dsp), []);
      ret := hw.AssertHardreset(Dsp);
    } else if name == IPU_DEVICE {
      assert asserts == [PowerCall.AssertHardreset(Cpu0)] + [PowerCall.AssertHardreset(Cpu1)];
      RunStepsCons(hw.status, hw.trace, PowerCall.AssertHardreset(Cpu0), [PowerCall.AssertHardreset(Cpu1)]);
      ret := hw.AssertHardreset(Cpu0);
      if ret != 0 {
        return;
      }
      RunStepsCons(hw.status, hw.trace, PowerCall.AssertHardreset(Cpu1), []);
      ret := hw.AssertHardreset(Cpu1);
      if ret != 0 {
        return;
      }
    } else {
      assert asserts == [];
    }
  }

  /** Position `j` of a reversed sequence holds position |s|-1-j of the original. */
  lemma {:induction false} ReverseAt<T>(s: seq<T>, j: nat)
    requires j < |s|
    ensures |Reverse(s)| == |s| && Reverse(s)[j] == s[|s| - 1 - j]
  {
    if j < |s| - 1 {
      ReverseAt(s[1..], j);
    } else {
      if |s| > 1 {
        ReverseAt(s[1..], 0);
      }
    }
  }

  /** The concrete call lists of the two supported devices. */
  lemma DeviceSteps()
    ensures EnableSteps(DSP_DEVICE) == [PowerCall.DeassertHardreset(Dsp), PowerCall.DeviceEnable]
    ensures EnableSteps(IPU_DEVICE) ==
      [PowerCall.DeassertHardreset(Cpu1), PowerCall.DeassertHardreset(Cpu0), PowerCall.DeviceEnable]
    ensures ShutdownSteps(DSP_DEVICE) == [PowerCall.DeviceIdle, PowerCall.AssertHardreset(Dsp)]
    ensures ShutdownSteps(IPU_DEVICE) ==
      [PowerCall.DeviceIdle, PowerCall.AssertHardreset(Cpu0), PowerCall.AssertHardreset(Cpu1)]
  {
  }

  /**
   * Bring-up releases the reset lines in the reverse of shutdown's
   * assertion order: the j-th line released is the one shutdown asserts
   * last-but-j.
   */
  lemma {:induction false} ResetOrderSymmetry(name: string, j: nat)
    requires j < |ResetLines(name)|
    ensures var n := |ResetLines(name)|;
      |EnableSteps(name)| == n + 1 && |ShutdownSteps(name)| == n + 1
      && EnableSteps(name)[j].DeassertHardreset?
      && ShutdownSteps(name)[n - j].AssertHardreset?
      && EnableSteps(name)[j].line == ShutdownSteps(name)[n - j].line
  {
    ReverseAt(ResetLines(name), j);
  }

  /**
   * omap_rproc_device_enable on a supported device: it releases the reset
   * lines last-declared first and then enables the device; every call is
   * made only if all earlier ones returned 0; the device is enabled only
   * after every release succeeded; the result is the status of the last
   * call made, which is non-zero whenever it stopped before enabling.
   */
  lemma EnableSupported(status: StatusOracle, h: seq<Event>, name: string)
    requires Supported(name)
    ensures var r := EnableRun(status, h, name); var lines := ResetLines(name); var n := |lines|;
      && 1 <= |r.events| <= n + 1
      && (forall j :: 0 <= j < |r.events| ==>
            r.events[j].Called? &&
            r.events[j].call == if j < n then PowerCall.DeassertHardreset(lines[n - 1 - j]) else PowerCall.DeviceEnable)
      && (forall j :: 0 <= j < |r.events| - 1 ==> r.events[j].ret == 0)
      && r.ret == r.events[|r.events| - 1].ret
      && (|r.events| <= n ==> r.ret != 0)
  {
    var lines := ResetLines(name);
    RunStepsStopsAtFirstFailure(status, h, EnableSteps(name));
    forall j | 0 <= j < |lines|
      ensures EnableSteps(name)[j] == PowerCall.DeassertHardreset(lines[|lines| - 1 - j])
    {
      ReverseAt(lines, j);
    }
  }

  /** omap_rproc_device_enable on an unknown device fails with -EINVAL and calls nothing. */
  lemma EnableUnsupported(status: StatusOracle, h: seq<Event>, name: string)
    requires !Supported(name)
    ensures EnableRun(status, h, name) == Run(-EINVAL, [])
  {
  }

  /**
   * omap_rproc_device_shutdown: it idles the device first and, when that
   * fails, returns its status without touching a reset line; otherwise it
   * asserts the reset lines in declared order, each only if the earlier
   * ones returned 0, and returns the status of the last call made, which
   * is non-zero whenever it stopped early.  An unknown device is only idled,
   * and the idle status is returned: 0 when idling succeeded, otherwise the
   * idle error.
   */
  lemma ShutdownSequence(status: StatusOracle, h: seq<Event>, name: string)
    ensures var r := ShutdownRun(status, h, name); var lines := ResetLines(name); var n := |lines|;
      && 1 <= |r.events| <= n + 1
      && r.events[0] == Called(PowerCall.DeviceIdle, status(h, PowerCall.DeviceIdle))
      && (status(h, PowerCall.DeviceIdle) != 0 ==> |r.events| == 1 && r.ret == status(h, PowerCall.DeviceIdle))
      && (forall j :: 1 <= j < |r.events| ==>
            r.events[j].Called? && r.events[j].call == PowerCall.AssertHardreset(lines[j - 1]))
      && (forall j :: 0 <= j < |r.events| - 1 ==> r.events[j].ret == 0)
      && r.ret == r.events[|r.events| - 1].ret
      && (|r.events| <= n ==> r.ret != 0)
      && (!Supported(name) ==> r.events == [Called(PowerCall.DeviceIdle, r.ret)])
  {
    RunStepsStopsAtFirstFailure(status, h, ShutdownSteps(name));
  }

  /**
   * The dual-core scenario: when bring-up and then shutdown of the IPU both
   * succeed, the calls made are exactly: release Cpu1, release Cpu0,
   * enable, idle, assert Cpu0, assert Cpu1, leaving both lines asserted.
   */
  lemma IpuEnableThenShutdown(status: StatusOracle, h: seq<Event>)
    requires EnableRun(status, h, IPU_DEVICE).ret == 0
    requires ShutdownRun(status, h + EnableRun(status, h, IPU_DEVICE).events, IPU_DEVICE).ret == 0
    ensures EnableRun(status, h, IPU_DEVICE).events
          + ShutdownRun(status, h + EnableRun(status, h, IPU_DEVICE).events, IPU_DEVICE).events
         == [Called(PowerCall.DeassertHardreset(Cpu1), 0), Called(PowerCall.DeassertHardreset(Cpu0), 0),
             Called(PowerCall.DeviceEnable, 0), Called(PowerCall.DeviceIdle, 0),
             Called(PowerCall.AssertHardreset(Cpu0), 0), Called(PowerCall.AssertHardreset(Cpu1), 0)]
  {
    var e := EnableRun(status, h, IPU_DEVICE);
    var s := ShutdownRun(status, h + e.events, IPU_DEVICE);
    DeviceSteps();
    RunStepsStopsAtFirstFailure(status, h, EnableSteps(IPU_DEVICE));
    RunStepsStopsAtFirstFailure(status, h + e.events, ShutdownSteps(IPU_DEVICE));
  }

  /**
   * Bring-up then shutdown of any supported device: when both succeed, the
   * calls made are exactly the bring-up steps followed by the shutdown
   * steps, each answered 0, so every reset line released before enable is
   * asserted again after idle.
   */
  lemma EnableThenShutdown(status: StatusOracle, h: seq<Event>, name: string)
    requires Supported(name)
    requires EnableRun(status, h, name).ret == 0
    requires ShutdownRun(status, h + EnableRun(status, h, name).events, name).ret == 0
    ensures var calls := EnableSteps(name) + ShutdownSteps(name);
      var ev := EnableRun(status, h, name).events + ShutdownRun(status, h + EnableRun(status, h, name).events, name).events;
      && |ev| == |calls|
      && (forall j :: 0 <= j < |ev| ==> ev[j] == Called(calls[j], 0))
      && (forall l :: Called(PowerCall.DeassertHardreset(l), 0) in ev ==> Called(PowerCall.AssertHardreset(l), 0) in ev)
  {
    var e := EnableRun(status, h, name);
    var s := ShutdownRun(status, h + e.events, name);
    var calls := EnableSteps(name) + ShutdownSteps(name);
    var ev := e.events + s.events;
    DeviceSteps();
    RunStepsStopsAtFirstFailure(status, h, EnableSteps(name));
    RunStepsStopsAtFirstFailure(status, h + e.events, ShutdownSteps(name));
    forall j | 0 <= j < |ev|
      ensures ev[j] == Called(calls[j], 0)
    {
      if j < |e.events| {
        assert ev[j] == e.events[j];
      } else {
        assert ev[j] == s.events[j - |e.events|];
      }
    }
    forall l | Called(PowerCall.DeassertHardreset(l), 0) in ev
      ensures Called(PowerCall.AssertHardreset(l), 0) in ev
    {
      var j :| 0 <= j < |ev| && ev[j] == Called(PowerCall.DeassertHardreset(l), 0);
      assert calls[j] == PowerCall.DeassertHardreset(l);
      if name == DSP_DEVICE {
        assert ev[3] == Called(PowerCall.AssertHardreset(l), 0);
      } else {
        assert l == Cpu0 ==> ev[4] == Called(PowerCall.AssertHardreset(l), 0);
        assert l == Cpu1 ==> ev[5] == Called(PowerCall.AssertHardreset(l), 0);
      }
    }
  }

  /**
   * The single-core scenario: when bring-up and then shutdown of the DSP
   * both succeed, the calls made are exactly: release Dsp, enable, idle,
   * assert Dsp.
   */
  lemma DspEnableThenShutdown(status: StatusOracle, h: seq<Event>)
    requires EnableRun(status, h, DSP_DEVICE).ret == 0
    requires ShutdownRun(status, h + EnableRun(status, h, DSP_DEVICE).events, DSP_DEVICE).ret == 0
    ensures EnableRun(status, h, DSP_DEVICE).events
          + ShutdownRun(status, h + EnableRun(status, h, DSP_DEVICE).events, DSP_DEVICE).events
         == [Called(PowerCall.DeassertHardreset(Dsp), 0), Called(PowerCall.DeviceEnable, 0),
             Called(PowerCall.DeviceIdle, 0), Called(PowerCall.AssertHardreset(Dsp), 0)]
  {
    var e := EnableRun(status, h, DSP_DEVICE);
    DeviceSteps();
    RunStepsStopsAtFirstFailure(status, h, EnableSteps(DSP_DEVICE));
    RunStepsStopsAtFirstFailure(status, h + e.events, ShutdownSteps(DSP_DEVICE));
  }
}
