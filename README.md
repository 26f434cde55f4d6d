# OMAP4 remote-processor lifecycle glue, modelled in Dafny

This project models the machine-specific glue that brings the two OMAP4
remote processors into and out of a runnable state: the DSP ("Tesla",
device `omap-rproc.0`, one hard-reset line `dsp`) and the dual Cortex-M3
imaging subsystem ("Ducati"/IPU, device `omap-rproc.1`, hard-reset lines
`cpu0` and `cpu1`). It covers the four callbacks the glue installs in each
device's platform data:

- `omap_rproc_device_enable`: release the hard resets (IPU: `cpu1`, then
  `cpu0`), then `omap_device_enable`; stop at the first non-zero status.
  An unknown device gets `-EINVAL` and no call.
- `omap_rproc_device_shutdown`: `omap_device_idle` first, then assert the
  hard resets (IPU: `cpu0`, then `cpu1`); stop at the first non-zero status.
  An unknown device is only idled and gets the idle status.
- `omap_rproc_enable_timers`: on a NULL timer table return `-EINVAL`. With
  `configure`, request a dmtimer for each `{cap, id, odt}` entry. The request
  is by capability when the device tree is populated and by id otherwise,
  the same for every entry. Each granted timer is switched to the system
  clock. On the first NULL grant, free the entries already acquired, last
  first, set them to NULL and return `-EBUSY`. Otherwise start every
  entry's timer and return 0.
- `omap_rproc_disable_timers`: stop every entry's timer, never stopping
  early. With `configure`, also free each one and set it to NULL. Always
  return 0.

Files:

- `services.dfy` (module `Services`): the calls into omap_device and the
  dmtimer layer. A `Backend` object answers each call from an oracle. The
  oracle is a function of the call and of the whole history of earlier
  calls. The backend records every call and its answer in `trace`. Every
  result below therefore holds for every behaviour of those services.
- `power.dfy` (module `Power`): the enable and shutdown callbacks. They are
  written branch by branch on the device name, as the C code is. They are
  proved equal to `RunSteps` over a call list built from the declared reset
  lines. `RunSteps` issues calls in order and stops at the first non-zero
  status. Bring-up releases the lines in reverse declared order and then
  enables. Shutdown idles and then asserts the lines in declared order.
- `timers.dfy` (module `Timers`): the two timer callbacks. They are methods
  over `array<TimerInfo>` that update `odt` in place. Each is proved equal
  to a reference function of the old table and the old trace. Lemmas then
  state what those functions guarantee: rollback, start order, and
  exhaustive teardown.

Behaviour of the C code worth knowing:

- Without `configure`, `omap_rproc_enable_timers` starts whatever `odt` each
  entry holds, even NULL, and returns 0.
- The only error the timer bring-up returns after the NULL-table check is
  `-EBUSY`, on the first NULL grant. The status of a timer start is ignored.
- The rollback only frees and NULLs the acquired entries. It stops nothing,
  because nothing was started yet. The failing entry is NULL too, since its
  request returned NULL.
- `omap_rproc_disable_timers` always returns 0 and ignores the status of
  stop and free.
- Capability versus id is chosen once per boot through
  `of_have_populated_dt()`. A failed capability request does not fall back
  to the id.
- The enable callback rejects an unknown device with `-EINVAL`. The
  shutdown callback idles an unknown device and returns the idle status:
  0 when idling succeeded, otherwise the idle error.

## Model

| member | source | states |
|---|---|---|
| `Power.ResetLines` | arch/arm/mach-omap2/remoteproc.c:138-148 | a device has reset lines exactly when it is one of the two supported names, and at most two |
| `Power.RunStepsStopsAtFirstFailure` | arch/arm/mach-omap2/remoteproc.c:154-180 | the calls issued are a prefix of the step list in order. Each is issued only if all earlier ones returned 0. The result is 0 exactly when every step ran and succeeded, and otherwise the failing call's status |
| `Power.EnableDevice` | arch/arm/mach-omap2/remoteproc.c:154-180 | the callback's status and the calls it makes equal the reference run: release the reset lines in reverse declared order, then enable, stopping at the first failure. An unknown name gives -EINVAL with no call |
| `Power.ShutdownDevice` | arch/arm/mach-omap2/remoteproc.c:129-152 | the callback's status and calls equal the reference run: idle, then assert the reset lines in declared order, stopping at the first failure |
| `Power.DeviceSteps` | arch/arm/mach-omap2/remoteproc.c:138-170 | the concrete call lists. DSP: release dsp, enable / idle, assert dsp. IPU: release cpu1, release cpu0, enable / idle, assert cpu0, assert cpu1 |
| `Power.ResetOrderSymmetry` | arch/arm/mach-omap2/remoteproc.c:137-170 | the j-th line released by bring-up is the line shutdown asserts in position n-1-j |
| `Power.EnableSupported` | arch/arm/mach-omap2/remoteproc.c:156-176 | on a supported device: the releases come in reverse declared order, then enable. A call happens only after every earlier call returned 0, so enable runs only after every release succeeded. The result is the last call's status, non-zero if it stopped before enabling |
| `Power.EnableUnsupported` | arch/arm/mach-omap2/remoteproc.c:171-174 | an unknown device gets -EINVAL and no reset or power call |
| `Power.ShutdownSequence` | arch/arm/mach-omap2/remoteproc.c:131-151 | idle comes first. If idle fails, its status is returned and no reset line is touched. Otherwise the lines are asserted in declared order, stopping at the first failure, and the result is the last call's status. An unknown device is only idled |
| `Power.EnableThenShutdown` | arch/arm/mach-omap2/remoteproc.c:129-176 | for either supported device, a successful bring-up then shutdown makes exactly the bring-up steps then the shutdown steps, each answered 0, so every reset line released is asserted again |
| `Power.DspEnableThenShutdown` | arch/arm/mach-omap2/remoteproc.c:129-176 | a successful DSP bring-up then shutdown makes exactly: release dsp, enable, idle, assert dsp |
| `Power.IpuEnableThenShutdown` | arch/arm/mach-omap2/remoteproc.c:129-176 | a successful IPU bring-up then shutdown makes exactly: release cpu1, release cpu0, enable, idle, assert cpu0, assert cpu1 |
| `Timers.AcquireUpTo` | arch/arm/mach-omap2/remoteproc.c:192-219 | the acquisition loop keeps the table's length, and a failure it reports lies at an entry already passed |
| `Timers.AcquireStaysFailed` | arch/arm/mach-omap2/remoteproc.c:210-216 | once a request has failed, the loop is left: later passes change nothing |
| `Timers.AcquireKeepsEntries` | arch/arm/mach-omap2/remoteproc.c:192-219 | the acquisition loop only writes `odt`: cap and id of every entry are kept, and entries not yet reached (or after the failing one) are untouched |
| `Timers.AcquireHolds` | arch/arm/mach-omap2/remoteproc.c:204-216 | every entry the loop has passed holds a timer. When it stopped at entry k, entry k holds NULL |
| `Timers.AcquireCalls` | arch/arm/mach-omap2/remoteproc.c:204-217 | the calls made are, per passed entry, its request then its clock source. When it stopped at entry k, they end with entry k's request, answered NULL |
| `Timers.AcquireShape` | arch/arm/mach-omap2/remoteproc.c:192-219 | cap and id are kept. While going, passed entries hold a timer, the rest are untouched, and the calls are request then system clock per entry. On failure at k, entries before k hold a timer, entry k is NULL, later entries are untouched, and the last call is the failed request |
| `Timers.AcquireEventsAt` | arch/arm/mach-omap2/remoteproc.c:204-217 | entry j is requested (by cap if DT is populated, else by id) at call 2j and set to the system clock at call 2j+1 |
| `Timers.StartEventsAt` | arch/arm/mach-omap2/remoteproc.c:221-222 | the j-th timer started is entry j's |
| `Timers.FreeEventsAt` | arch/arm/mach-omap2/remoteproc.c:225-229 | the rollback frees in reverse: entry j is freed at position hi-1-j |
| `Timers.TeardownEventsAt` | arch/arm/mach-omap2/remoteproc.c:240-246 | entry j's teardown stops its timer and, when configuring, frees it right after |
| `Timers.FreeTimers` | arch/arm/mach-omap2/remoteproc.c:225-231 | the free_timers path frees entries k-1 down to 0, sets them to NULL, and changes nothing else |
| `Timers.EnableTimers` | arch/arm/mach-omap2/remoteproc.c:182-232 | a NULL table gives -EINVAL with no change. Otherwise the status, the new table and the calls equal the reference outcome of the old table and trace |
| `Timers.DisableTimers` | arch/arm/mach-omap2/remoteproc.c:234-249 | returns 0. The new table and the calls equal the reference teardown of the old table, and a NULL table is left alone |
| `Timers.EnableTimersAcquired` | arch/arm/mach-omap2/remoteproc.c:192-223 | with configure and every request granted: returns 0. Every entry keeps cap and id and holds a timer. Each was requested by the one instance-wide strategy and set to the system clock. Only after all acquisitions is each timer started, in index order |
| `Timers.EnableTimersRollbackTable` | arch/arm/mach-omap2/remoteproc.c:210-231 | with configure and entry k refused: returns -EBUSY, entries 0..k end NULL with cap and id kept, and entries after k are untouched |
| `Timers.EnableTimersRollbackCalls` | arch/arm/mach-omap2/remoteproc.c:204-231 | with configure and entry k refused: the calls are the acquisitions of 0..k-1, the failed request, then frees of each acquired timer, entry k-1 first. No timer is started |
| `Timers.EnableTimersRestart` | arch/arm/mach-omap2/remoteproc.c:221-223 | without configure: returns 0, no entry changes, and each entry's timer is started in index order |
| `Timers.DisableTimersExhaustive` | arch/arm/mach-omap2/remoteproc.c:240-248 | returns 0 and stops every entry's timer in index order. With configure each is freed right after its stop and ends NULL. Without configure the table is unchanged |
| `Timers.TimersLifecycle` | arch/arm/mach-omap2/remoteproc.c:192-248 | a successful configuring bring-up then teardown stops and frees every acquired timer and restores every entry to NULL |
| `Timers.IpuTimerBringUp` | arch/arm/mach-omap2/remoteproc.c:55-57 | with DT populated and the IPU-IRQ capability granted, the IPU table's one entry holds that timer, which is set to the system clock and started |

## Left out

- `omap_rproc_reserve_cma`: the boot-time contiguous-memory reservation.
  It is one external DMA call per processor plus logging, with no logic.
- `omap_rproc_init`: hwmod lookup, device construction, platform-data
  attachment, IOMMU attachment and registration. All of it is bus and
  device plumbing over kernel services that are not part of this model.
- The static configuration tables are used only for the device names, the
  reset lines and the two one-entry timer tables (`IPU_TIMERS`,
  `DSP_TIMERS`). Firmware names, mailbox names, CMA bases and IOMMU names
  are not modelled.
- The behaviour of `omap_device_*`, `omap_dm_timer_*` and
  `of_have_populated_dt`. They are oracles. The last is a constant of the
  backend, since it is fixed after boot.
- The status of `omap_dm_timer_set_source`, `_start`, `_stop` and `_free`.
  The glue ignores it, so these calls only append to the trace.
- Logging (`pr_err`, `dev_err`).
- Concurrency and hardware timing. The callbacks are called one at a time
  per device.
- A device is represented by its name and its timer table. Reset lines and
  timer capabilities are enumerations rather than strings and bitmasks.
- A NULL timer table given to the teardown is taken to have no entries.
  The static platform data never pairs a NULL table with a non-zero count,
  so the C loop does not run in that case either.
