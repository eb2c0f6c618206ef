# Verification of the Nios II HAL and the median filter

This project models, in Dafny, the parts of the repository that carry real logic, and
proves what they are for:

- the interrupt-driven JTAG UART driver: two byte rings between foreground calls and an
  interrupt routine, with the interrupt enable bits that both sides use to throttle each
  other;
- the alarm scheduler: deadlines of 32 bits that wrap, on a circular list that is edited
  while it is walked;
- the file descriptor table with its exclusive locks;
- the 3x3 median filter, as a network, as a clocked pipeline and over an image;
- the two printers;
- the time of day, `sbrk`, and the profiler's allocator and call counts.

`dafny verify dfyconfig.toml` checks all of it.

## How it is put together

| files | contents |
|---|---|
| `UartRing`, `UartMachine`, `UartSafety`, `UartShort`, `UartProgress`, `UartReadProgress`, `UartDriver` | one ring; the driver as steps of its shared-variable accesses; invariants and theorems over all runs; when a call may come back short; how long calls take; the driver's routines on arrays and fields, each shown to be a run of the machine |
| `AlarmTime`, `AlarmPlan`, `AlarmRuns`, `AlarmWalks`, `AlarmList` | deadline arithmetic against ticks that never wrap; what a tick and its callbacks do to the list, on values; what follows over one tick and over runs of ticks, starts and stops; the walk when the next alarm itself is stopped; the linked alarms |
| `FdTable`, `FdSafety`, `FdCalls`, `FdPool` | the calls on a table value; invariants and theorems over all runs; what each call does to the bits of the flags; the pool in place |
| `MedianFilter`, `MedianPipeline`, `ImageFilter` | the network and the median; the registers over streams; the image scan |
| `Numerals`, `IntegerPrinter`, `LogPrintf`, `AltPrintf` | digits; one integer; the two format interpreters |
| `Clock`, `Allocator`, `Profiler` | time of day; blocks; the call counts and the entries that hold them |
| `Words`, `Bits`, `Arithmetic`, `Errno` | shared definitions; bitwise operations bit by bit |

In the UART machine the foreground calls are split at every load or store of a shared
variable. The interrupt routine and the watchdog routine are atomic and may run between
any two of these steps. Everything read from a device register is part of the event, so
the theorems hold for every device that reports no more bytes when its receive FIFO is
empty. Buffers may have any length from 2 up. The class `JtagUart` has the same accesses
in its methods; a script says which interrupts arrive before each of them, and the ghost
`trace` is the run of the machine that the object has made, so every theorem about runs
holds of the object.

A callback of an alarm is a `Callback`: the alarms it starts and stops, in order, and the
period it returns. The callbacks of one tick are a plan, in the order they are made. A
callback may start any alarm that is not registered, other than its own, and may stop any
alarm that is registered or has been stopped before, its own included. When it stops the
alarm that the walk has saved as the next one, the walk goes on from there if it starts that
alarm again, and is lost otherwise: `Walk` tells which, and `Tick` is about plans in which
that does not happen. The scheduler keeps the set of stopped alarms, which point to
themselves.

Drivers' callbacks are results that may be anything; they do not touch the descriptor
table. Looking a name up yields a device, a filesystem or nothing, and no object is both a
device and a filesystem.

The printers write to a string instead of a register. Strings stand for their characters
up to the terminator. The arguments of a call are a sequence of words and strings; what
happens when a directive finds none, or one of the other kind, is not defined, and the
calls require that it does not occur. The masks and
shifts of the small printer and of the profiler's hash are taken bit by bit: `And`, `Left`
and `Right` of the module `Bits`.

Error numbers and flag values (`EWOULDBLOCK` is 11, `O_NONBLOCK` is 0x4000, and so on) are
those of newlib, the C library of the HAL.

## Where the code and its documentation differ

- A started alarm first calls back after nticks + 1 ticks, for every argument but one. The largest
  argument, 2^32 - 1, calls at the next tick instead, unless the counter is at its largest
  value: `FirstCallOnTime`.
- `alt_fd_lock` is documented to grant the lock when there are no other descriptors for
  the device. It looks only below the high-water mark, so it also grants it when the one
  other descriptor is at the mark: `LockGrant` gives the exact condition and
  `GrantIsNotSoleUse` a run. There is still at most one holder at any time:
  `AtMostOneHolder`.
- Closing a descriptor is documented to release its lock. Descriptors 0, 1 and 2 keep it:
  `CloseUnlocks` says so of every table, and `CloseMayKeepLock` is a run.
- `alt_alarm_stop` is documented without any condition. A tick does not end if and only if
  its walk comes to an alarm that has been stopped, and not started again, by the callback
  of the alarm before it: `Walk`, with `Turn` for one turn and `Stuck` for what happens
  then. `DerailedRun` is a run.
- `settimeofday` promises that an immediate `gettimeofday` returns the time that was set.
  It multiplies in 32 bits where `gettimeofday` multiplies in 64: `SetThenGet` says
  exactly when the promise holds.
- The tick rate has to divide a million for `gettimeofday` to be right:
  `ExactIffRateDivides`.
- The profiler's allocator does not look at the result of `sbrk`: `SmallBlockIsInHeap` says
  when that matters, and `SmallBlockMayMissHeap` is a run.

## Model

| member | source | states |
|---|---|---|
| `UartRing.Conservation` | DMA/DMAFinal/DMAFinal/software/DMA_bsp/drivers/src/altera_avalon_jtag_uart_init.c:174-184 | what was removed from a ring, followed by what a walk from `out` to `in` finds, is what was stored, and a ring never holds more than its length less one |
| `UartRing.FullAndEmpty` | DMA/DMAFinal/DMAFinal/software/DMA_bsp/drivers/src/altera_avalon_jtag_uart_init.c:132-174 | the index tests of the code hold exactly when the ring is full, and when it is empty |
| `UartRing.WrapIsRemainder` | DMA/DMAFinal/DMAFinal/software/DMA_bsp/drivers/src/altera_avalon_jtag_uart_init.c:150 | the index arithmetic of the model is the remainder that the code takes |
| `UartRing.WriteRoomExact` | DMA/DMAFinal/DMAFinal/software/DMA_bsp/drivers/src/altera_avalon_jtag_uart_write.c:103-122 | the three branches that choose the writer's chunk give the free bytes up to the physical end, no more and no fewer |
| `UartRing.ReadRoomExact` | DMA/DMAFinal/DMAFinal/software/DMA_bsp/drivers/src/altera_avalon_jtag_uart_read.c:120-136 | the branches that choose the reader's chunk give the bytes present when the index was loaded, up to the physical end |
| `UartRing.CopyAhead` | DMA/DMAFinal/DMAFinal/software/DMA_bsp/drivers/src/altera_avalon_jtag_uart_write.c:122 | a byte copied into the free part disturbs no stored byte |
| `UartRing.PublishKeeps` | DMA/DMAFinal/DMAFinal/software/DMA_bsp/drivers/src/altera_avalon_jtag_uart_write.c:122-126 | the one store to `tx_in` makes the copied chunk, and nothing else, part of the ring |
| `UartRing.ReleaseKeeps` | DMA/DMAFinal/DMAFinal/software/DMA_bsp/drivers/src/altera_avalon_jtag_uart_read.c:136-140 | the one store to `rx_out` removes exactly the chunk that was copied out |
| `UartSafety.RxLoopTakes` | DMA/DMAFinal/DMAFinal/software/DMA_bsp/drivers/src/altera_avalon_jtag_uart_init.c:132-154 | one receive loop stores, in order, as many bytes as the device has and the ring has room for, and pops their words and at most the one that says there are no more; with a full ring it pops none |
| `UartSafety.TxLoopSends` | DMA/DMAFinal/DMAFinal/software/DMA_bsp/drivers/src/altera_avalon_jtag_uart_init.c:169-184 | one transmit loop sends, in order, as many bytes as there are and as the device has space for |
| `UartSafety.StepKeeps` | DMA/DMAFinal/DMAFinal/software/DMA_bsp/drivers/src/altera_avalon_jtag_uart_write.c:83-215 | every step of a writer, a reader, the interrupt routine, the timeout routine and a change of the timeout keeps the whole invariant, whatever the device answers |
| `UartSafety.MovedSinceFull` | DMA/DMAFinal/DMAFinal/software/DMA_bsp/drivers/src/altera_avalon_jtag_uart_write.c:174-189 | between the look that found the ring full and the look after the wait, `tx_out` is the same exactly when the ring is still full: it cannot have gone all the way round |
| `UartSafety.MovedSinceEmpty` | DMA/DMAFinal/DMAFinal/software/DMA_bsp/drivers/src/altera_avalon_jtag_uart_read.c:168-178 | the same for `rx_in` and an empty ring |
| `UartSafety.RunMoves` | DMA/DMAFinal/DMAFinal/software/DMA_bsp/drivers/src/altera_avalon_jtag_uart_init.c:106-197 | over a run, what the interrupt routine takes from and gives to the device is exactly what enters the receive ring and leaves the transmit ring |
| `UartSafety.TxConservation` | DMA/DMAFinal/DMAFinal/software/DMA_bsp/drivers/src/altera_avalon_jtag_uart_write.c:103-127 | at every point of every interleaving, bytes sent to the device followed by bytes in the ring are the accepted prefixes of all writes, in order |
| `UartSafety.RxConservation` | DMA/DMAFinal/DMAFinal/software/DMA_bsp/drivers/src/altera_avalon_jtag_uart_read.c:120-142 | at every point of every interleaving, bytes delivered by reads followed by bytes in the ring are the bytes taken from the device, in order |
| `UartSafety.NoLostWakeUp` | DMA/DMAFinal/DMAFinal/software/DMA_bsp/drivers/src/altera_avalon_jtag_uart_init.c:156-194 | output waiting with no writer about to enable its interrupt has it enabled at the device; a disabled receive interrupt means a full ring or a reader that will enable it |
| `UartSafety.QuiescentWakeUp` | DMA/DMAFinal/DMAFinal/software/DMA_bsp/drivers/src/altera_avalon_jtag_uart_read.c:188-195 | with no call in progress, waiting output has its interrupt enabled, and so has input unless the ring is full |
| `UartSafety.ReturnContracts` | DMA/DMAFinal/DMAFinal/software/DMA_bsp/drivers/src/altera_avalon_jtag_uart_write.c:146-202 | every finished call: a negative result means nothing was transferred and has the right error number, a non-negative one is at least 1 and counts the bytes; a blocking call falls short only if it saw the host inactive; a call of length zero fails |
| `UartSafety.HostInactiveCountsSilence` | DMA/DMAFinal/DMAFinal/software/DMA_bsp/drivers/src/altera_avalon_jtag_uart_init.c:203-225 | at every point of every run `host_inactive` is the number of watchdog calls since the last activity, up to its ceiling |
| `UartSafety.WriteGivesUpWhenAbsent` | DMA/DMAFinal/DMAFinal/software/DMA_bsp/drivers/src/altera_avalon_jtag_uart_write.c:183-191 | each write that gives up waiting, in any run, has a moment with `host_inactive >= timeout` between its own start and its return |
| `UartSafety.ReadGivesUpWhenAbsent` | DMA/DMAFinal/DMAFinal/software/DMA_bsp/drivers/src/altera_avalon_jtag_uart_read.c:168-183 | the same for each read |
| `UartSafety.WithoutWatchdogBlockingCallsComplete` | DMA/DMAFinal/DMAFinal/software/DMA_bsp/drivers/src/altera_avalon_jtag_uart_init.c:86-96 | when the watchdog alarm could not be started, blocking writes are complete and blocking reads deliver, in every run |
| `UartProgress.WriterAdvances` | DMA/DMAFinal/DMAFinal/software/DMA_bsp/drivers/src/altera_avalon_jtag_uart_write.c:83-196 | each step of a blocking write brings it nearer to its end, unless it is a look at a full ring, which takes it no further away |
| `UartProgress.OthersDoNotHinder` | DMA/DMAFinal/DMAFinal/software/DMA_bsp/drivers/src/altera_avalon_jtag_uart_init.c:106-197 | no interrupt, reader or change of the timeout takes it further away |
| `UartProgress.WaitEnds` | DMA/DMAFinal/DMAFinal/software/DMA_bsp/drivers/src/altera_avalon_jtag_uart_init.c:169-184 | a turn of the interrupt routine that finds space at the device ends the wait for room |
| `UartProgress.BlockingWriteReturns` | DMA/DMAFinal/DMAFinal/software/DMA_bsp/drivers/src/altera_avalon_jtag_uart_write.c:83-215 | in every run in which the host is present, a blocking write has returned with all its data accepted before it has taken more than 11 steps for each byte and 10 besides, its looks at a full ring not counted |
| `UartReadProgress.ReaderAdvances` | DMA/DMAFinal/DMAFinal/software/DMA_bsp/drivers/src/altera_avalon_jtag_uart_read.c:100-203 | each step of a read brings it nearer to its end, unless it is a look at an empty ring with nothing read yet, which takes it no further away |
| `UartReadProgress.OthersDoNotHinder` | DMA/DMAFinal/DMAFinal/software/DMA_bsp/drivers/src/altera_avalon_jtag_uart_init.c:106-197 | no interrupt, writer or change of the timeout takes it further away |
| `UartReadProgress.ReadReturns` | DMA/DMAFinal/DMAFinal/software/DMA_bsp/drivers/src/altera_avalon_jtag_uart_read.c:100-203 | in every run a read, blocking or not, has returned before it has taken more than 6 steps for each byte of its space and 9 besides, its looks at an empty ring not counted |
| `UartShort.ReadShortWhenNothingLeft` | DMA/DMAFinal/DMAFinal/software/DMA_bsp/drivers/src/altera_avalon_jtag_uart_read.c:120-142 | in every run, a finished read that delivered less than it had space for has a moment between its own start and its return at which all bytes taken from the device are among those it and the reads before it delivered |
| `UartShort.ReadTakesWhatWaits` | DMA/DMAFinal/DMAFinal/software/DMA_bsp/drivers/src/altera_avalon_jtag_uart_read.c:120-142 | from every reachable state, the next read delivers at least the smaller of its space and what the ring held when it was called |
| `UartShort.WriteShortWhenNoRoom` | DMA/DMAFinal/DMAFinal/software/DMA_bsp/drivers/src/altera_avalon_jtag_uart_write.c:99-127 | in every run, a finished write that accepted less than it was given has a moment between its own start and its return at which what it and the writes before it accepted is what has been sent and a full ring |
| `UartShort.WriteFillsTheRoom` | DMA/DMAFinal/DMAFinal/software/DMA_bsp/drivers/src/altera_avalon_jtag_uart_write.c:99-127 | from every reachable state, the next write accepts at least the smaller of its data and the room there was when it was called |
| `UartDriver.ReachesKeeps` | DMA/DMAFinal/DMAFinal/software/DMA_bsp/drivers/src/altera_avalon_jtag_uart_init.c:106-197 | a state reached by a run of the object's accesses is the state that the machine's run gives, and keeps the invariant |
| `UartDriver.WriteOutcome` | DMA/DMAFinal/DMAFinal/software/DMA_bsp/drivers/src/altera_avalon_jtag_uart_write.c:199-214 | what a finished write has added to the accepted bytes: the first `result` bytes of its data, or none for an error |
| `UartDriver.ReadOutcome` | DMA/DMAFinal/DMAFinal/software/DMA_bsp/drivers/src/altera_avalon_jtag_uart_read.c:197-202 | what a finished read has delivered: exactly the next bytes of the input, or none for an error |
| `UartDriver.JtagUart.constructor` | DMA/DMAFinal/DMAFinal/software/DMA_bsp/drivers/src/altera_avalon_jtag_uart_init.c:66-100 | the initial state: receive interrupt on and transmit interrupt off, here and at the device, no host inactivity, a timeout of 10, or `INT_MAX` when the alarm could not be started |
| `UartDriver.JtagUart.ReceiveLoop` | DMA/DMAFinal/DMAFinal/software/DMA_bsp/drivers/src/altera_avalon_jtag_uart_init.c:132-154 | the loop on the array and its index is the machine's receive loop, word for word; it pops no byte that it does not store |
| `UartDriver.JtagUart.TransmitLoop` | DMA/DMAFinal/DMAFinal/software/DMA_bsp/drivers/src/altera_avalon_jtag_uart_init.c:169-184 | the loop on the array and its index is the machine's transmit loop; the bytes go to the device's FIFO in order |
| `UartDriver.JtagUart.IrqPass` | DMA/DMAFinal/DMAFinal/software/DMA_bsp/drivers/src/altera_avalon_jtag_uart_init.c:117-196 | one turn of the outer loop is the machine's interrupt step; it leaves the FIFO filled or the transmit interrupt off, and the input taken or the receive interrupt off |
| `UartDriver.JtagUart.ServeDevice` | DMA/DMAFinal/DMAFinal/software/DMA_bsp/drivers/src/altera_avalon_jtag_uart_init.c:106-197 | the interrupt routine on a device nobody else touches terminates with neither interrupt pending, loses no byte in either direction and does not overrun the FIFO |
| `UartDriver.JtagUart.OnTimeout` | DMA/DMAFinal/DMAFinal/software/DMA_bsp/drivers/src/altera_avalon_jtag_uart_init.c:203-225 | the watchdog routine is the machine's step: activity resets the count and writes the enable bits, inactivity counts up to its ceiling |
| `UartDriver.JtagUart.Write` | DMA/DMAFinal/DMAFinal/software/DMA_bsp/drivers/src/altera_avalon_jtag_uart_write.c:83-215 | the call on the arrays, with interrupts arriving anywhere between its accesses, is a run of the machine; its result is on record; it accepts at least what there was room for at the call, and less than its data only if the ring was full, with all that has been accepted, at some moment of the call; it returns with all data accepted if interrupts that find space at the device come at enough of its accesses |
| `UartDriver.JtagUart.Read` | DMA/DMAFinal/DMAFinal/software/DMA_bsp/drivers/src/altera_avalon_jtag_uart_read.c:100-203 | the same for `read`, which also fills the caller's buffer with exactly the bytes on record: at least what was waiting at the call, as far as there is space, and less than the space only if at some moment of the call all bytes taken from the device had been delivered |
| `UartDriver.JtagUart.AwaitRoom` | DMA/DMAFinal/DMAFinal/software/DMA_bsp/drivers/src/altera_avalon_jtag_uart_write.c:174-189 | when the waiting loop ends, the index has moved or the host is inactive; otherwise it goes on as long as there are interrupts |
| `UartDriver.JtagUart.AwaitInput` | DMA/DMAFinal/DMAFinal/software/DMA_bsp/drivers/src/altera_avalon_jtag_uart_read.c:168-178 | the same for the waiting loop of `read` |
| `UartDriver.JtagUart.TestDrained` | DMA/DMAFinal/DMAFinal/software/DMA_bsp/drivers/src/altera_avalon_jtag_uart_init.c:246-251 | one test of the loop of `close`: it finds that everything has been sent, or that bytes were left, and then whether the host is present |
| `UartDriver.JtagUart.Close` | DMA/DMAFinal/DMAFinal/software/DMA_bsp/drivers/src/altera_avalon_jtag_uart_init.c:241-254 | when `close` succeeds, every accepted byte has been sent or the host is inactive; it fails only without blocking, and then bytes were left and the host was present at points of its run; with enough interrupts that find space a blocking one succeeds |
| `UartDriver.JtagUart.Ioctl` | DMA/DMAFinal/DMAFinal/software/DMA_bsp/drivers/src/altera_avalon_jtag_uart_ioctl.c:52-84 | the two requests, the range of timeouts that is accepted, and that both fail without a watchdog |
| `AlarmTime.ArmTracks` | DMA/DMAFinal/DMAFinal/software/DMA_bsp/HAL/src/alt_alarm_start.c:82-96 | the 32-bit deadline and the rollover bit of a started alarm stand for tick number n + nticks + 1 |
| `AlarmTime.TickTracks` | DMA/DMAFinal/DMAFinal/software/DMA_bsp/HAL/src/alt_tick.c:109-139 | a tick calls exactly the alarm that stands for it, the others go on standing for theirs, and a re-armed one stands for `period` ticks later |
| `AlarmTime.KeepsSchedule` | DMA/DMAFinal/DMAFinal/software/DMA_bsp/HAL/src/alt_tick.c:87-148 | an alarm keeps its schedule for ever, without drift, through any number of wraps of the counter |
| `AlarmTime.StartedAlarmKeepsSchedule` | DMA/DMAFinal/DMAFinal/software/DMA_bsp/HAL/src/alt_alarm_start.c:64-112 | from the start: first call after nticks + 1 ticks, then at each period returned |
| `AlarmTime.LastTickOfEpoch` | DMA/DMAFinal/DMAFinal/software/DMA_bsp/HAL/src/alt_alarm_start.c:82-96 | the largest argument works when the counter has its largest value |
| `AlarmTime.CallsAtOnce` | DMA/DMAFinal/DMAFinal/software/DMA_bsp/HAL/src/alt_alarm_start.c:82-96 | the largest argument calls at the next tick at any other counter value |
| `AlarmTime.EarlyCallThenOnSchedule` | DMA/DMAFinal/DMAFinal/software/DMA_bsp/HAL/src/alt_tick.c:117-139 | after that early call, any period but 1 is counted from the start of the alarm and not from the call, and the schedule is kept from there |
| `AlarmTime.FirstCallOnTime` | DMA/DMAFinal/DMAFinal/software/DMA_bsp/HAL/src/alt_alarm_start.c:82-96 | the first call comes after nticks + 1 ticks if and only if the argument is not the largest or the counter is at its largest value |
| `AlarmPlan.VisitInOrder` | DMA/DMAFinal/DMAFinal/software/DMA_bsp/HAL/src/alt_tick.c:117-139 | the actions of a callback, made while its alarm is still registered, and then its period give what the period and then the actions give |
| `AlarmRuns.TickIsPunctual` | DMA/DMAFinal/DMAFinal/software/DMA_bsp/HAL/src/alt_tick.c:87-148 | after a tick all alarms, kept, re-armed and newly started, stand for their ticks |
| `AlarmRuns.CallsOnce` | DMA/DMAFinal/DMAFinal/software/DMA_bsp/HAL/src/alt_tick.c:100-141 | the calls of a tick have no repetition and are registered alarms whose test succeeds |
| `AlarmRuns.CalledUnlessStopped` | DMA/DMAFinal/DMAFinal/software/DMA_bsp/HAL/src/alt_tick.c:100-141 | a tick calls a registered alarm if and only if its test succeeds and no callback of the tick has stopped it before |
| `AlarmRuns.TickOutcome` | DMA/DMAFinal/DMAFinal/software/DMA_bsp/HAL/src/alt_tick.c:87-148 | one tick as a whole: each alarm is called at most once, an exact one if and only if it is due and not stopped before, and every alarm that leaves the list has been stopped |
| `AlarmRuns.ListedAlarmKeepsSchedule` | DMA/DMAFinal/DMAFinal/software/DMA_bsp/HAL/src/alt_tick.c:87-148 | over every run of ticks and of starts and stops by the foreground between them, whatever is done to other alarms there and by callbacks, an alarm that nobody else starts or stops is called at exactly the ticks of its schedule, given by the periods its own callback returns |
| `AlarmRuns.StartedAlarmIsCalled` | DMA/DMAFinal/DMAFinal/software/DMA_bsp/HAL/src/alt_alarm_start.c:64-112 | so it is from the start of the alarm: first nticks + 1 ticks later, in every such run |
| `AlarmWalks.SparedRoute` | DMA/DMAFinal/DMAFinal/software/DMA_bsp/HAL/src/alt_tick.c:100-141 | when no callback stops the alarm saved as the next one, the walk ends, with the list and the calls planned |
| `AlarmList.Insert` | DMA/DMAFinal/DMAFinal/software/DMA_bsp/HAL/inc/sys/alt_llist.h:90-98 | the entry becomes the first of the circle, with `next` and `previous` inverse to each other throughout |
| `AlarmList.Remove` | DMA/DMAFinal/DMAFinal/software/DMA_bsp/HAL/inc/sys/alt_llist.h:105-117 | the entry leaves the circle and points to itself; removing it again changes nothing |
| `AlarmList.Scheduler.Start` | DMA/DMAFinal/DMAFinal/software/DMA_bsp/HAL/src/alt_alarm_start.c:64-112 | the three outcomes; on success the alarm is first in the list, with its deadline, and on failure nothing changes; all alarms still stand for their ticks |
| `AlarmList.Scheduler.Stop` | DMA/DMAFinal/DMAFinal/software/DMA_bsp/HAL/src/alt_tick.c:66-73 | exactly that alarm leaves the list and the others still stand for their ticks; stopping again, however much later, an alarm that has not been started in between changes nothing |
| `AlarmList.Scheduler.Reschedule` | DMA/DMAFinal/DMAFinal/software/DMA_bsp/HAL/src/alt_tick.c:121-139 | an alarm whose callback returns zero leaves the list, any other has its new deadline, one that its callback has stopped stays out, and the rest of the list is as it was |
| `AlarmList.Scheduler.Turn` | DMA/DMAFinal/DMAFinal/software/DMA_bsp/HAL/src/alt_tick.c:100-141 | one turn of the walk on the linked alarms, with a callback that starts and stops alarms: the list, the stopped alarms, who is called and which alarm was saved as the next one; that one is the head or registered if and only if it is not among the stopped ones when the callback has returned |
| `AlarmList.Scheduler.Walk` | DMA/DMAFinal/DMAFinal/software/DMA_bsp/HAL/src/alt_tick.c:87-148 | the whole walk, whatever legal callbacks start and stop: it ends at the head if and only if it never comes to an alarm saved as the next one that has been stopped and not started again, and stays at the first such alarm otherwise; list, calls and stopped alarms in either case |
| `AlarmList.Scheduler.Tick` | DMA/DMAFinal/DMAFinal/software/DMA_bsp/HAL/src/alt_tick.c:87-148 | if no callback stops the alarm saved as the next one, the walk ends although callbacks edit the list under it; the list afterwards is the one the plan of callbacks says, linked and punctual, the calls are those due and not stopped before, and every alarm that left the list can be stopped again |
| `AlarmList.Scheduler.LostTurn` | DMA/DMAFinal/DMAFinal/software/DMA_bsp/HAL/src/alt_tick.c:100-141 | a turn at an alarm that has been stopped, whose callback is called if it has expired and may start and stop others: it saves that same alarm as the next one, which stays stopped |
| `AlarmList.Scheduler.Stuck` | DMA/DMAFinal/DMAFinal/software/DMA_bsp/HAL/src/alt_tick.c:100-141 | from a stopped alarm, whatever its own callback does, the loop is at that alarm after any number of turns, and not at the head |
| `AlarmList.DerailedRun` | DMA/DMAFinal/DMAFinal/software/DMA_bsp/HAL/src/alt_tick.c:87-148 | a new scheduler, two alarms and their first tick, of which the walk is stuck for any number of turns |
| `AlarmList.Scheduler.Perform` | DMA/DMAFinal/DMAFinal/software/DMA_bsp/HAL/src/alt_tick.c:87-148 | a tick, a start or a stop on the linked alarms is a step of the runs whose schedules are proved, and keeps all alarms punctual |
| `FdSafety.OpenOutcome` | DMA/DMAFinal/DMAFinal/software/DMA_bsp/HAL/src/alt_open.c:105-171 | the outcome of every open: the error for each reason in order, or the least free descriptor with the caller's flags less the lock bits; locks are looked for in the whole table |
| `FdSafety.FailedOpenFrames` | DMA/DMAFinal/DMAFinal/software/DMA_bsp/HAL/src/alt_open.c:157-166 | a failed open leaves every descriptor as it was; only the high-water mark may rise |
| `FdSafety.LockedDeviceStaysShut` | DMA/DMAFinal/DMAFinal/software/DMA_bsp/HAL/src/alt_open.c:64-92 | while some descriptor holds the lock on a device, every open of the device fails |
| `FdSafety.OpenGetsLeast` | DMA/DMAFinal/DMAFinal/software/DMA_bsp/HAL/src/alt_get_fd.c:77-89 | allocation yields the least free descriptor, never 0, 1 or 2, and it was clear |
| `FdSafety.OpenFdOutcome` | DMA/DMAFinal/DMAFinal/software/DMA_bsp/HAL/src/alt_io_redirect.c:58-72 | a redirection changes its slot and no other descriptor, or nothing when the open fails |
| `FdSafety.RedirectOutcome` | DMA/DMAFinal/DMAFinal/software/DMA_bsp/HAL/src/alt_io_redirect.c:85-94 | the three redirections together, told from the table before them: which device each standard descriptor has afterwards and when it has its old one |
| `FdSafety.InitialInv` | DMA/DMAFinal/DMAFinal/software/DMA_bsp/HAL/src/alt_dev.c:118-149 | the initial table keeps the invariant |
| `FdSafety.LockKeeps` | DMA/DMAFinal/DMAFinal/software/DMA_bsp/HAL/src/alt_fd_lock.c:54-75 | a granted lock keeps the order: others on a locked device come after the holder, in spite of the short scan |
| `FdSafety.FcntlKeeps` | DMA/DMAFinal/DMAFinal/software/DMA_bsp/HAL/src/alt_fcntl.c:66-101 | `fcntl` keeps the invariant: it cannot touch the lock and device bits |
| `FdSafety.StepKeeps` | DMA/DMAFinal/DMAFinal/software/DMA_bsp/HAL/src/alt_ioctl.c:106-168 | every call, with any outcome of the driver's callbacks, keeps the invariant |
| `FdSafety.AtMostOneHolder` | DMA/DMAFinal/DMAFinal/software/DMA_bsp/HAL/src/alt_fd_lock.c:61-69 | in every run from the initial table, a device has at most one lock holder |
| `FdSafety.ShortScanIsFullScan` | DMA/DMAFinal/DMAFinal/software/DMA_bsp/HAL/src/alt_open.c:79-87 | after the first allocation, looking up to the high-water mark finds the same locks as looking through the whole table |
| `FdSafety.LockGrant` | DMA/DMAFinal/DMAFinal/software/DMA_bsp/HAL/src/alt_fd_lock.c:54-75 | a sole user always gets the lock; a grant means sole use if and only if the descriptor at the high-water mark is not another one on the device |
| `FdSafety.GrantIsNotSoleUse` | DMA/DMAFinal/DMAFinal/software/DMA_bsp/HAL/src/alt_fd_lock.c:61-69 | a run in which the lock is granted although another descriptor on the device is open |
| `FdSafety.LockHoldsThroughRun` | DMA/DMAFinal/DMAFinal/software/DMA_bsp/HAL/src/alt_fd_lock.c:40-52 | through any run of calls that does not release it, a lock is held, and nobody else comes to use the device |
| `FdSafety.CloseUnlocks` | DMA/DMAFinal/DMAFinal/software/DMA_bsp/HAL/src/alt_release_fd.c:44-51 | closing the holder gives up the lock, except for descriptors 0, 1 and 2 |
| `FdSafety.CloseMayKeepLock` | DMA/DMAFinal/DMAFinal/software/DMA_bsp/HAL/src/alt_release_fd.c:44-51 | a run in which descriptor 1 takes a lock, is closed and still has it |
| `FdSafety.FcntlRoundTrip` | DMA/DMAFinal/DMAFinal/software/DMA_bsp/HAL/src/alt_fcntl.c:76-93 | what F_SETFL sets F_GETFL gets, and no other visible or hidden bit changes |
| `FdCalls.IoctlOutcome` | DMA/DMAFinal/DMAFinal/software/DMA_bsp/HAL/src/alt_ioctl.c:106-168 | every request, in its own numbers: 0x740d on a device sets bit 31 of the flags or fails with 13, 0x740e clears it, with the other 31 bits and all other descriptors as they were; all else is the driver's, or fails with 25 without one |
| `FdCalls.UnlockAdmits` | DMA/DMAFinal/DMAFinal/software/DMA_bsp/HAL/src/alt_fd_unlock.c:52-56 | after TIOCNXCL by the holder no descriptor of the device has the lock bit, and an open of the device by a willing driver gets the first free descriptor |
| `FdCalls.CloseOutcome` | DMA/DMAFinal/DMAFinal/software/DMA_bsp/HAL/src/alt_close.c:64-101 | every close, in values: a descriptor above 2 is cleared whatever the driver answers, no other changes, and the result is the driver's |
| `FdCalls.FcntlOutcome` | DMA/DMAFinal/DMAFinal/software/DMA_bsp/HAL/src/alt_fcntl.c:66-101 | every command, in bits: 3 shows the low 30 bits, 4 sets those of 0x4008 from the argument and no other, anything else fails with 22 |
| `FdCalls.OpenReply` | DMA/DMAFinal/DMAFinal/software/DMA_bsp/HAL/src/alt_open.c:105-171 | what every open returns, in error numbers: 19, 24, 13 or the driver's refusal, in this order, and otherwise the first free descriptor |
| `FdCalls.OpenThenGet` | DMA/DMAFinal/DMAFinal/software/DMA_bsp/HAL/src/alt_open.c:131-148 | an open stores the low 30 bits of the flags asked for, the access mode among them, and bit 30 for a device; F_GETFL then gets the flags asked for |
| `FdPool.Pool.constructor` | DMA/DMAFinal/DMAFinal/software/DMA_bsp/HAL/src/alt_dev.c:118-149 | the table and mark at start-up |
| `FdPool.Pool.GetFd` | DMA/DMAFinal/DMAFinal/software/DMA_bsp/HAL/src/alt_get_fd.c:54-101 | the loop claims the first free descriptor and raises the high-water mark if it has to; with none free it fails and changes nothing |
| `FdPool.Pool.ReleaseFd` | DMA/DMAFinal/DMAFinal/software/DMA_bsp/HAL/src/alt_release_fd.c:44-51 | a descriptor above 2 becomes free with no flags; 0, 1 and 2 keep device and flags |
| `FdPool.Pool.FileLocked` | DMA/DMAFinal/DMAFinal/software/DMA_bsp/HAL/src/alt_open.c:64-92 | the loop with its early return decides whether another descriptor up to the mark has the lock |
| `FdPool.Pool.Open` | DMA/DMAFinal/DMAFinal/software/DMA_bsp/HAL/src/alt_open.c:105-171 | each way out of the call: no such name, table full, device locked, driver's refusal, success; what was claimed is given back on failure, and `errno` is set exactly then |
| `FdPool.Pool.Close` | DMA/DMAFinal/DMAFinal/software/DMA_bsp/HAL/src/alt_close.c:64-101 | the descriptor is released although the driver fails, except 0, 1 and 2; `errno` is set exactly on failure |
| `FdPool.Pool.FdLock` | DMA/DMAFinal/DMAFinal/software/DMA_bsp/HAL/src/alt_fd_lock.c:54-75 | the loop with its early exit decides whether another descriptor below the mark is on the device |
| `FdPool.Pool.FdUnlock` | DMA/DMAFinal/DMAFinal/software/DMA_bsp/HAL/src/alt_fd_unlock.c:52-56 | always succeeds, clears bit 31 of the flags of that descriptor, and changes no other bit and no other descriptor |
| `FdPool.Pool.Ioctl` | DMA/DMAFinal/DMAFinal/software/DMA_bsp/HAL/src/alt_ioctl.c:106-168 | lock requests on a device never reach the driver and set or clear bit 31 of the flags of that descriptor alone; all others do and change nothing; `errno` is set exactly on failure |
| `FdPool.Pool.Fcntl` | DMA/DMAFinal/DMAFinal/software/DMA_bsp/HAL/src/alt_fcntl.c:66-101 | only the append and non-blocking bits can change, the lock bits are neither shown nor touched, and the two errors |
| `FdPool.Pool.OpenFd` | DMA/DMAFinal/DMAFinal/software/DMA_bsp/HAL/src/alt_io_redirect.c:58-72 | the new descriptor moves into the slot and the one it was opened on is free again; when the open fails the slot is as it was |
| `FdPool.Pool.IoRedirect` | DMA/DMAFinal/DMAFinal/software/DMA_bsp/HAL/src/alt_io_redirect.c:85-94 | each of 1, 0 and 2 refers to its new device if there is one, a descriptor is free, the device is not locked through a descriptor not redirected before, and its driver accepts; otherwise it is as it was; all others are unchanged |
| `MedianFilter.Sort3Sorts` | ImageProcessing/median_filter.v:28-55 | three compare-swaps sort any three integers |
| `MedianFilter.MedianIsUnique` | ImageProcessing/median_filter.v:58-105 | a member of nine values with at least five on either side, itself included, is determined by the values |
| `MedianFilter.NetworkFindsMedian` | ImageProcessing/median_filter.v:65-105 | the network of row sorts and candidates yields the median of any nine integers, duplicates included |
| `MedianFilter.NetworkIsFifthSmallest` | ImageProcessing/median_filter.v:65-105 | it is the fifth in any sorted arrangement of the nine |
| `MedianFilter.SortInPlace` | ImageProcessing/median_filter.v.bak:19-29 | the task on variables leaves them ascending, with the values they had, and agrees with the function |
| `MedianFilter.Combinational` | ImageProcessing/median_filter.v.bak:31-57 | the combinational version finds the median, and agrees with the network |
| `MedianPipeline.PipelineOutput` | ImageProcessing/median_filter.v:58-105 | after any stream of edges and resets, the output is the median of the window sampled two edges before the last, or zero until three edges after a reset |
| `MedianPipeline.PipelineFindsMedians` | ImageProcessing/median_filter.v:58-105 | for every stream of windows the output after three edges is the median of the window sampled at the first |
| `MedianPipeline.Filter.ClockEdge` | ImageProcessing/median_filter.v:65-105 | all registers change at once from their old values, so that the object is where its stream of edges and resets leads |
| `MedianPipeline.Filter.AsyncReset` | ImageProcessing/median_filter.v:58-64 | reset clears every register |
| `ImageFilter.FilterWindow` | ImageProcessing/tb_median_filter.v:66-87 | a window held for four edges yields its median, whatever the pipeline held before |
| `ImageFilter.WindowHoldsNeighbours` | ImageProcessing/tb_median_filter.v:66-76 | the window of a pixel holds the nine pixels of rows y - 1 to y + 1 and columns x - 1 to x + 1, by their indices in the image |
| `ImageFilter.FilterImage` | ImageProcessing/tb_median_filter.v:57-90 | for every width and height the scan writes width * height values in row order: by their indices in the image, the median of the nine pixels at a distance of at most one, where all nine exist, and a copy of the pixel elsewhere |
| `Numerals.DigitsRoundTrip` | DMA/DMAFinal/DMAFinal/software/DMA_bsp/HAL/src/alt_log_printf.c:247-296 | reading the digits of a number in its base gives the number |
| `Numerals.NoLeadingZero` | DMA/DMAFinal/DMAFinal/software/DMA_bsp/HAL/src/alt_printf.c:90-111 | digits start with zero only for zero itself, which is "0" |
| `Numerals.DigitAt` | DMA/DMAFinal/DMAFinal/software/DMA_bsp/HAL/src/alt_log_printf.c:278-296 | the digit at each place is the one of 0 to 9 and a to f, or A to F, for the quotient by the place value |
| `Numerals.NumeralIsUnique` | DMA/DMAFinal/DMAFinal/software/DMA_bsp/HAL/src/alt_log_printf.c:278-296 | digits are determined by their number and value, so two ways of printing agree |
| `IntegerPrinter.TextRoundTrip` | DMA/DMAFinal/DMAFinal/software/DMA_bsp/HAL/src/alt_log_printf.c:206-297 | for every word, directive, width and padding, the printed text reads back as the number, sign included |
| `IntegerPrinter.TextLength` | DMA/DMAFinal/DMAFinal/software/DMA_bsp/HAL/src/alt_log_printf.c:257-277 | the text is as long as the larger of the width and the digits with the sign |
| `IntegerPrinter.TextShows` | DMA/DMAFinal/DMAFinal/software/DMA_bsp/HAL/src/alt_log_printf.c:189-297 | every character of the text, for every word and style: the digits of each place, no more than needed, last; before them a sign and zeros with the zero flag, and spaces and a sign without it, to make up the width |
| `IntegerPrinter.ShownText` | DMA/DMAFinal/DMAFinal/software/DMA_bsp/HAL/src/alt_log_printf.c:257-277 | so there is a '-' for negative numbers alone; no space with the zero flag; after the spaces no padding without it; and letters of one case |
| `IntegerPrinter.LargestPlace` | DMA/DMAFinal/DMAFinal/software/DMA_bsp/HAL/src/alt_log_printf.c:244-255 | the counting loop terminates with the number of digits, and the place value never exceeds 32 bits |
| `IntegerPrinter.PrintDigits` | DMA/DMAFinal/DMAFinal/software/DMA_bsp/HAL/src/alt_log_printf.c:278-296 | dividing by place values, the largest first, prints the same digits |
| `IntegerPrinter.PrintInteger` | DMA/DMAFinal/DMAFinal/software/DMA_bsp/HAL/src/alt_log_printf.c:189-297 | the sign is stripped in 32 bits, the least integer included; what is printed shows the number as above: the sign stands before zeros and after spaces |
| `IntegerPrinter.RepChar` | DMA/DMAFinal/DMAFinal/software/DMA_bsp/HAL/src/alt_log_printf.c:106-110 | the character that many times, and not at all for a negative count |
| `LogPrintf.FormatMeans` | DMA/DMAFinal/DMAFinal/software/DMA_bsp/HAL/src/alt_log_printf.c:130-340 | every format written from characters, `%%` and directives with any flag, width, precision, length and letter is printed item by item, whatever the arguments |
| `LogPrintf.FeedDirective` | DMA/DMAFinal/DMAFinal/software/DMA_bsp/HAL/src/alt_log_printf.c:147-340 | one directive with all its optional parts is read as written |
| `LogPrintf.FormatPrints` | DMA/DMAFinal/DMAFinal/software/DMA_bsp/HAL/src/alt_log_printf.c:130-340 | letter by letter, for every format: `d` and `i` show the two's complement value in base 10, `u`, `o`, `x` and `X` the unsigned word in base 10, 8, 16 and 16 with capitals, `c` and `s` the low byte and the string behind spaces, other letters nothing; arguments are taken in order, and the call is undefined exactly when one is missing or of the wrong kind |
| `LogPrintf.Print` | DMA/DMAFinal/DMAFinal/software/DMA_bsp/HAL/src/alt_log_printf.c:114-341 | for every format whose directives find their arguments, the loop with its state variables prints what the state machine says, and so each piece as its letter says |
| `Bits.AndField` | DMA/DMAFinal/DMAFinal/software/DMA_bsp/HAL/src/alt_printf.c:98-107 | masking bit by bit with ones at a place is the remainder of a quotient put back in its place |
| `AltPrintf.MaskFacts` | DMA/DMAFinal/DMAFinal/software/DMA_bsp/HAL/src/alt_printf.c:98-107 | the bitwise mask and the shifts isolate one hexadecimal digit of a word, and tell whether it is zero |
| `AltPrintf.MaskIsWord` | DMA/DMAFinal/DMAFinal/software/DMA_bsp/HAL/src/alt_printf.c:98-107 | no bit of a shifted mask is lost in a word |
| `AltPrintf.PrintHex` | DMA/DMAFinal/DMAFinal/software/DMA_bsp/HAL/src/alt_printf.c:82-111 | shifting and masking bit by bit prints the digits that division by the base gives, without leading zeros |
| `AltPrintf.Print` | DMA/DMAFinal/DMAFinal/software/DMA_bsp/HAL/src/alt_printf.c:48-127 | the loop prints what the format function says, and so each piece as its letter says |
| `AltPrintf.SmallFormatPrints` | DMA/DMAFinal/DMAFinal/software/DMA_bsp/HAL/src/alt_printf.c:48-127 | letter by letter, for every format: `c` prints the low byte, `x` the digits of the word in base 16, `s` the string; an unknown letter prints nothing and takes no argument; a lone `%` ends the output |
| `AltPrintf.PrintersAgree` | DMA/DMAFinal/DMAFinal/software/DMA_bsp/HAL/src/alt_printf.c:48-127 | the two printers print the same for every format made of characters, `%%`, `%c`, `%s` and `%x`, whatever the arguments |
| `Clock.NormalisedKeeps` | DMA/DMAFinal/DMAFinal/software/DMA_bsp/HAL/src/alt_gettod.c:95-112 | the two loops keep the number of microseconds, from the epoch on |
| `Clock.NormalisedIs` | DMA/DMAFinal/DMAFinal/software/DMA_bsp/HAL/src/alt_gettod.c:95-112 | the two loops, in seconds and microseconds, for any number of microseconds: the same time, or zero when that is before the epoch and microseconds were to be borrowed |
| `Clock.ReadingIs` | DMA/DMAFinal/DMAFinal/software/DMA_bsp/HAL/src/alt_gettod.c:91-112 | what is read at any counter value and rate, for every reset time that can have been stored, as long as the seconds fit |
| `Clock.SetThenGet` | DMA/DMAFinal/DMAFinal/software/DMA_bsp/HAL/src/alt_settod.c:82-84 | for every time the signed field holds, before the epoch or after: reading right after setting gives the time that was set if and only if the high word of the product is a multiple of 15625, or a backward slip from zero is cut off |
| `Clock.SetThenGetMaySlip` | DMA/DMAFinal/DMAFinal/software/DMA_bsp/HAL/src/alt_settod.c:82-84 | an ordinary clock for which it does not |
| `Clock.ReadLater` | DMA/DMAFinal/DMAFinal/software/DMA_bsp/HAL/src/alt_gettod.c:91-112 | when the rate divides a million and nothing wraps, the reading is the time set plus the time since, to the microsecond |
| `Clock.ReadingsAreMonotone` | DMA/DMAFinal/DMAFinal/software/DMA_bsp/HAL/src/alt_gettod.c:91-112 | such a clock never runs backwards |
| `Clock.ExactIffRateDivides` | DMA/DMAFinal/DMAFinal/software/DMA_bsp/HAL/src/alt_gettod.c:91-93 | the counter is read exactly at every tick if and only if the rate divides a million |
| `Clock.TimeOfDay.Set` | DMA/DMAFinal/DMAFinal/software/DMA_bsp/HAL/src/alt_settod.c:72-96 | the stored time and zone, or ENOSYS and nothing changed |
| `Clock.TimeOfDay.Get` | DMA/DMAFinal/DMAFinal/software/DMA_bsp/HAL/src/alt_gettod.c:71-124 | both loops terminate with the reading specified, or ENOTSUP and the caller's structures as they were |
| `Allocator.SbrkGrants` | DMA/DMAFinal/DMAFinal/software/DMA_bsp/HAL/src/alt_sbrk.c:73-95 | `sbrk` fails exactly when the heap would pass its limit, and otherwise hands out an aligned block past all before it |
| `Allocator.ServeKeeps` | DMA/DMAFinal/DMAFinal/software/DMA_bsp/HAL/src/alt_gmon.c:133-148 | each request keeps all blocks and the rest of the slab disjoint and in the heap |
| `Allocator.BlocksAreDisjoint` | DMA/DMAFinal/DMAFinal/software/DMA_bsp/HAL/src/alt_gmon.c:133-148 | over every sequence of requests no two blocks overlap and all lie in the heap |
| `Allocator.SmallBlockIsInHeap` | DMA/DMAFinal/DMAFinal/software/DMA_bsp/HAL/src/alt_gmon.c:137-141 | a small block lies in the heap if and only if its slab could be had, which the allocator does not check |
| `Allocator.SmallBlockMayMissHeap` | DMA/DMAFinal/DMAFinal/software/DMA_bsp/HAL/src/alt_gmon.c:137-141 | a run of requests after which the next small block is not in the heap |
| `Profiler.CallGraph.Sbrk` | DMA/DMAFinal/DMAFinal/software/DMA_bsp/HAL/src/alt_sbrk.c:68-136 | the end of the heap is aligned, even when the call then fails, and moved by the increment |
| `Profiler.CallGraph.Reserve` | DMA/DMAFinal/DMAFinal/software/DMA_bsp/HAL/src/alt_sbrk.c:68-136 | memory handed to anybody else overlaps no entry and no rest of a slab, so that the profile stands |
| `Profiler.CallGraph.NewEntry` | DMA/DMAFinal/DMAFinal/software/DMA_bsp/HAL/src/alt_gmon.c:133-148 | an entry is put where no other is, at an address that is not NULL, in a block of its own; the room for one entry more is left when there was room for two |
| `Profiler.CallGraph.Record` | DMA/DMAFinal/DMAFinal/software/DMA_bsp/HAL/src/alt_gmon.c:159-207 | a call that has no arc yet is added to those the profile counts; a known function needs room for one entry, a new one for two |
| `Profiler.OffsetIsBucket` | DMA/DMAFinal/DMAFinal/software/DMA_bsp/HAL/src/alt_mcount.S:59-63 | the shift and mask give the offset of one of 64 pointers, chosen by bits 5 to 10 of the address |
| `Profiler.CallGraph.FindFunction` | DMA/DMAFinal/DMAFinal/software/DMA_bsp/HAL/src/alt_mcount.S:70-75 | the first loop finds the entry of the function, or there is none in any bucket |
| `Profiler.CallGraph.FindArc` | DMA/DMAFinal/DMAFinal/software/DMA_bsp/HAL/src/alt_mcount.S:77-84 | the second loop, which starts without a test, finds the arc of the function, or the function has none from there |
| `Profiler.CallGraph.Mcount` | DMA/DMAFinal/DMAFinal/software/DMA_bsp/HAL/src/alt_mcount.S:59-123 | whichever path is taken, the call is added to those the profile counts |
| `Profiler.ProfileIsExact` | DMA/DMAFinal/DMAFinal/software/DMA_bsp/HAL/src/alt_mcount.S:118-123 | walking from the heads finds exactly the calls made, each with its number modulo 2^32 |
| `Profiler.CallGraph.ProfileOfCalls` | DMA/DMAFinal/DMAFinal/software/DMA_bsp/HAL/src/alt_gmon.c:159-207 | so it is with the memory of the call graph, after every sequence of calls |

## Left out

- The small, polled UART driver, and the branches for uC/OS-II, direct drivers and ignored
  FIFO errors: other configurations.
- Register macros, cache and interrupt-controller code, exception entry: their effect is
  the events of the machine.
- Semaphores, which are empty in this configuration: calls on the descriptor table are
  sequential, and there is one writer and one reader at a time on the UART.
- UART device: what its answers are when the receive FIFO is empty is fixed (no valid byte
  and none left); everything else it answers is arbitrary.
- Callbacks that start an alarm that is registered, or their own alarm after stopping it,
  and alarms that are stopped without ever having been started, whose links are null; an
  alarm's context pointer.
- AlarmList.Scheduler.Walk: says which alarms a tick calls that has restarted the alarm
  saved as the next one, and the list it leaves, but not that all stand for their ticks.
- `alt_find_dev` and `alt_find_file`: the result of the lookup is a parameter.
- The `priv` field of a descriptor, which only drivers use, and calls on descriptors that
  are closed or out of range, for which the code reads other memory.
- IntegerPrinter.PrintInteger: widths are unbounded integers, so the overflow of a width
  of more than 31 bits is not modelled.
- LogPrintf.Print: a format of `%s` with a string of 2^31 characters or more, whose length
  does not fit the width arithmetic.
- `alt_log_txchar` and `alt_putchar`: characters go to the result string.
- Clock.TimeOfDay.Get: the tick counter and rate are parameters, so a reading does not say
  how they are obtained.
- Allocator: pointer sums that wrap, which need a heap above the lower half of the address
  space, and negative `sbrk` increments.
- The profiler's start-up of PC sampling and its histogram; calls of `mcount` that interrupt
  its walk, which may leave two arcs for one call; and records made when no room is left,
  which the code writes outside the heap.
- `image_to_grayscale.v`, the finite state machine, clock divider and segment decoder, and
  the Python image tools: easy members.
- The DMA hardware sources and `hello_world.c`: glue without a property of its own.
- Device-independent HAL calls with no logic (`fork`, `link`, `wait` and the like).
