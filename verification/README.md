# SimpleLinux, verified

A Dafny model of the parts of the SimpleLinux kernel whose behaviour is decided
by state machines, tables and byte formats rather than by hardware, with proofs
of what they guarantee over every input and every run.

* **Scheduler.** `SchedulerSpec` is a transition system whose steps are the
  sections the kernel runs under the scheduler lock. `sleep` and `join` take two
  steps (block, then yield), so a timer tick may fall between them. `Scheduler`
  is the class with the kernel's fields; each method is proved to take the
  corresponding step. `SchedulerInvariant` proves what every step keeps,
  `SchedulerLiveness` bounded waiting, `SchedulerBlocking` who wakes whom,
  `SchedulerCalls` when `sleep` and `join` keep their promise, `SchedulerSlices`
  who is charged for the time.
* **Context switch.** `ContextSwitch` models `__switch` on registers and memory
  and proves it transparent over every run of switches, exits, spawns and
  arbitrary computation; `Processor` is the instruction sequence.
* **Frame allocator.** `FrameBits` packs one bit per frame into 64-bit words,
  `FrameAllocator` is the allocator and refines a set with a next-fit hint,
  `FrameRuns` talks about every run, `BootMap` about seeding from the memory map.
* **Receive ring.** `RxRing` interleaves the single memory accesses of the e1000
  device and of the polling driver.
* **Network.** `Checksum`, `Packets` (the builders), `NetSpec` (what one inbound
  frame causes), `NetProofs`, `NetStack` (the stack updated in place),
  `WireFormat` (the same frames read off their bytes, as the standards lay them
  out, for every frame and every sender), and
  `EndToEnd` from a `write` on one host to a `read` on another.
* **Files and sockets.** `Tar` (parser, writer, round trip), `Paths` and
  `Initrd` (the tree and the path map it stands for), `Vfs` (mounts and
  resolution), `SocketSpec`, `KernelSpec` and `KernelTables` (the descriptor and
  socket tables under any interleaving of system calls and arrivals), and
  `Descriptors` (what a program can rely on about its descriptors).

`dafny verify dfyconfig.toml` checks everything.

## Conventions

* An arithmetic overflow and an index or slice out of range are panics, as in
  the development profile that `make run` builds. Where a panic can happen the
  model has an outcome for it (`Panic`, `None`, `ok == false`) or, for a call
  that the kernel never makes from the boot context, a precondition.
* `None` stands for `NO_TASK` in `current`. Task ids are 32-bit.
* `start` finds its task and switches to it in two locked sections; as a tick in
  the boot context can only make more tasks Ready, the model has one step.
* Names in the initrd are byte strings; `decode` stands for the lossy UTF-8
  decoding and may be any function.
* What a device returns from `read` and `write`, whether a NIC is present, the
  buffer address of a new stack, and the frames the device receives are inputs.

## Where the code and its comments differ

* A task that blocks while nobody is Ready keeps executing, because `schedule`
  returns without switching. So `sleep` can return before its time and `join`
  before its target finishes: `SleepReturnsAtOnce` and `JoinReturnsAtOnce` are
  runs, `SleepReturnsEarlyIff` and `JoinReturnsEarlyIff` say exactly when.
* After an exit with nobody Ready the CPU idles in a context that no tick ever
  leaves, even when a sleeper becomes Ready. `IdleHang` is the run;
  `TimerDispatchesIffNotIdle` and `TimerReturnsSleeperIff` say exactly when the
  timer brings a task to the CPU.
* `join` looks for its target and blocks in two locked sections. A preemption in
  between can lose the wake-up: `LostWakeup` is the run, `StrandedForever` says
  that the task never runs again, and `NoLostWakeupIff` says exactly when no
  run loses one.
* `mark_free_range` rounds outwards like `mark_used_range`, so a free frame need
  not be usable memory: `PartlyUsableIsFree` is a map, `WhollyUsableIff` and
  `FreeButReservedIff` say exactly which frames are affected, and
  `OrderMattersIffConflict` exactly when the order of the map matters.
* `covers` compares texts, so a mount does not cover `//dev` when it covers
  `/dev` (`DoubledSlashEscapes`); `CoversByComponentsIff` says exactly for which
  paths covering is by components. A `/` mount covers only `/` and paths that
  begin with `//` (`RootCoversIff`), although the comment on `longest_mount` has
  `/dev` compete with `/`.
* `udp::send` and `ip::send` cut lengths to 16 bits. `UdpRoundTripIff` says
  exactly which datagrams survive.
* A UDP checksum that comes out as zero is sent as zero, which to a receiver
  means that there is none (RFC 768). `UdpFieldCanBeZero` is such a datagram and
  `UdpFieldZeroIff` says exactly which ones are.
* `tcp::handle` adds one to the sequence number of a SYN, which overflows for
  0xFFFFFFFF. `PanicsIff` lists that frame with the ones `ip::handle` cannot slice.

## Model

| member | source | states |
|---|---|---|
| SchedulerSpec.NextReady | kernel/src/process/scheduler.rs:74-83 | the chosen slot is Ready and no Ready slot lies before it in cyclic order from the cursor; none is chosen only if none is Ready |
| Options.FirstFree | kernel/src/process/scheduler.rs:60-63 | the first empty slot, or the end of the slot vector when every slot is taken |
| Scheduler.Scheduler.Spawn | kernel/src/process/scheduler.rs:56-65 | takes the spawn step: the next id, held by no slot before, now sits Ready in the first hole; running out of ids is the only failure |
| Scheduler.Scheduler.FindSlot | kernel/src/process/scheduler.rs:67-71 | finds the slot of a task exactly when some slot holds its id |
| Scheduler.Scheduler.FindNextReady | kernel/src/process/scheduler.rs:74-83 | the loop over cursor + i modulo n computes NextReady |
| Scheduler.Scheduler.MakeRunning | kernel/src/process/scheduler.rs:86-95 | the chosen slot becomes Running and current, and the cursor moves just past it |
| Scheduler.Scheduler.Start | kernel/src/process/scheduler.rs:132-145 | takes the start step from the boot context and keeps the invariant |
| Scheduler.Scheduler.Yield | kernel/src/process/scheduler.rs:149-181 | takes the yield step: demote a Running current task, then switch to the next Ready one if there is one |
| Scheduler.Scheduler.BlockForSleep | kernel/src/process/scheduler.rs:196-203 | the locked section of sleep takes the sleep step |
| Scheduler.Scheduler.Sleep | kernel/src/process/scheduler.rs:191-205 | without a tick in between, sleeping is blocking until now + ticks and then yielding; the caller is switched away from exactly when another task is Ready, and is then suspended with that wake-up time |
| Scheduler.Scheduler.JoinTargetGone | kernel/src/process/scheduler.rs:212-221 | the check of join says done exactly when no slot holds the id; a Zombie is never seen |
| Scheduler.Scheduler.BlockForJoin | kernel/src/process/scheduler.rs:222-229 | the second section of join blocks on the id without looking at it again |
| Scheduler.Scheduler.Join | kernel/src/process/scheduler.rs:208-231 | without a tick in between, join blocks exactly when the target is live; the caller is switched away from exactly when also another task is Ready, and is then suspended on the target |
| Scheduler.Scheduler.Wake | kernel/src/process/scheduler.rs:245-256 | the loop makes Ready exactly the Blocked tasks whose reason passes the test and leaves every other slot alone |
| Scheduler.Scheduler.Exit | kernel/src/process/scheduler.rs:234-262 | takes the exit step: wake the joiners, reap the slot, switch away or go idle |
| Scheduler.Scheduler.Charge | kernel/src/process/scheduler.rs:310-324 | the slice accounting of a tick and its preemption decision |
| Scheduler.Scheduler.Tick | kernel/src/process/scheduler.rs:291-328 | the timer interrupt takes the tick step and keeps the invariant |
| SchedulerInvariant.ExitedIsWakeThenSwitch | kernel/src/process/scheduler.rs:239-262 | choosing the next task before or after reaping the dead one gives the same result |
| SchedulerInvariant.StepKeepsInv | kernel/src/process/scheduler.rs:56-328 | every step keeps: Running only in the current slot, distinct ids below the next id, Blocked iff there is a reason, no Zombie, slices at most the default, cursor in range |
| SchedulerInvariant.RunKeepsInv | kernel/src/process/scheduler.rs:39-95 | the invariant holds in every state of every run |
| SchedulerInvariant.AtMostOneRunning | kernel/src/process/scheduler.rs:86-95 | in every run from boot at most one slot is Running, and it is the current one |
| SchedulerLiveness.SwitchProgress | kernel/src/process/scheduler.rs:74-95 | a switch made while a task is Ready dispatches it or brings the cursor closer to it |
| SchedulerLiveness.SliceLasts | kernel/src/process/scheduler.rs:310-328 | a task keeps the CPU for exactly as many ticks as its slice has left; the next tick refills the slice and yields |
| SchedulerLiveness.StepProgress | kernel/src/process/scheduler.rs:149-181 | no step puts a Ready task further off than the growth of the slot vector does, and every tick brings it one tick nearer or dispatches it |
| SchedulerLiveness.BoundedWaiting | kernel/src/process/scheduler.rs:149-181 | in every run with a task executing, a Ready task in another slot is dispatched within slots * (DEFAULT_SLICE + 1) ticks, whatever yields, sleeps, joins, exits and spawns happen |
| SchedulerLiveness.IdleForever | kernel/src/process/scheduler.rs:263-269 | from the idle context no run of ticks ever makes a task current |
| SchedulerLiveness.TimerDispatchesIffNotIdle | kernel/src/process/scheduler.rs:310-328 | ticks alone bring a Ready task to the CPU exactly when some task is executing |
| SchedulerBlocking.WokenExactlyBy | kernel/src/process/scheduler.rs:244-309 | a suspended task is left exactly as it is by every step but the exit of the task it joins, or the first tick at or after its wake-up time, which makes it Ready |
| SchedulerBlocking.DeadStaysDead | kernel/src/process/scheduler.rs:56-65 | in no run does an id that was handed out and is no longer held come back |
| SchedulerBlocking.JoinReturnsAfterExit | kernel/src/process/scheduler.rs:244-262 | the step that ends a join is the exit of its target, and no slot holds that id in any later state |
| SchedulerBlocking.WaitersLiveStep | kernel/src/process/scheduler.rs:212-229 | a step keeps every joiner's target live exactly when a join that blocks still finds its target |
| SchedulerBlocking.NoLostWakeupIff | kernel/src/process/scheduler.rs:208-231 | a run from boot has every joiner's target live throughout exactly when every join blocks while its target is live |
| SchedulerBlocking.LostWakeup | kernel/src/process/scheduler.rs:212-229 | a run of the kernel in which a task sees its target alive, is preempted, and then blocks on the dead target |
| SchedulerBlocking.StrandedForever | kernel/src/process/scheduler.rs:222-230 | a task suspended on a dead id is suspended in every state of every continuation |
| SchedulerBlocking.NoOverdueSleeper | kernel/src/process/scheduler.rs:298-309 | after a tick every task still asleep has its wake-up time ahead |
| SchedulerBlocking.SleepsUntilDue | kernel/src/process/scheduler.rs:191-205 | in every run a sleeper is suspended until the first tick at or after its wake-up time, which wakes it |
| SchedulerBlocking.SleeperIsDispatched | kernel/src/process/scheduler.rs:191-205 | a sleeper does not run before its wake-up time and is dispatched within slots * (DEFAULT_SLICE + 1) ticks of it |
| SchedulerCalls.YieldWhileBlocked | kernel/src/process/scheduler.rs:149-181 | a Blocked task that yields is suspended exactly as it is when another task is Ready; otherwise the state does not change and it goes on executing |
| SchedulerCalls.BlockSuspendsIff | kernel/src/process/scheduler.rs:190-205 | blocking and yielding in one go suspends the caller exactly when another task is Ready before the call |
| SchedulerCalls.SleepReturnsEarlyIff | kernel/src/process/scheduler.rs:190-205 | in every run, whatever ticks and tasks come in between, sleep returns before its wake-up time exactly when at its yield that time has not come and no other task is Ready |
| SchedulerCalls.JoinReturnsEarlyIff | kernel/src/process/scheduler.rs:207-231 | in every run join returns while its target lives exactly when at its yield the target lives and no other task is Ready |
| SchedulerCalls.SleepReturnsAtOnce | kernel/src/process/scheduler.rs:168-175 | for every wake-up time, a run from boot in which sleep returns at tick 0 with the Blocked caller still current |
| SchedulerCalls.JoinReturnsAtOnce | kernel/src/process/scheduler.rs:168-175 | a run from boot in which join returns at once although its target lives |
| SchedulerCalls.IdleHang | kernel/src/process/scheduler.rs:263-269 | for every wake-up time and every number of ticks, a run from boot that exits into the idle context and stays there although the sleeper has become Ready |
| SchedulerCalls.TimerReturnsSleeperIff | kernel/src/process/scheduler.rs:291-328 | ticks alone bring a suspended sleeper back to the CPU exactly when the CPU is not idle |
| SchedulerSlices.StepSlice | kernel/src/process/scheduler.rs:149-328 | no step but a tick changes the slice of a task that lives on, and a tick only that of the executing task: down by one, or from 0 back to 2 |
| SchedulerSlices.SliceCountsTicks | kernel/src/process/scheduler.rs:310-324 | in every run the slice of a task is fixed by the number of ticks that found it executing |
| SchedulerSlices.YieldsToOtherIff | kernel/src/process/scheduler.rs:149-181 | giving up the CPU, in any state, gives it to another task exactly when another one is Ready |
| SchedulerSlices.RunCursorFollows | kernel/src/process/scheduler.rs:86-95 | in every run from boot the scan starts just behind the executing task |
| SchedulerSlices.PreemptedEveryThirdTick | kernel/src/process/scheduler.rs:310-328 | in every run from boot a tick takes the CPU from the executing task exactly when it is the third, sixth, ... charged to it since it was spawned and another task is Ready |
| ContextSwitch.AlignedBase | kernel/src/process/task.rs:62-65 | the base is 16-byte aligned and less than 16 bytes into the buffer |
| ContextSwitch.UsableSize | kernel/src/process/task.rs:68-72 | the usable part is a multiple of 16, loses at most 16 bytes and stays inside the buffer |
| ContextSwitch.FreshFrame | kernel/src/process/context.rs:76-85 | loading a new task's frame gives zeroed registers, the trampoline and a stack pointer that is 8 modulo 16, inside its own buffer |
| ContextSwitch.SavedFrame | kernel/src/process/context.rs:33-39 | what the six pushes save reads back as the caller's registers, stack pointer and return address |
| ContextSwitch.BootSaved | kernel/src/process/context.rs:31-48 | a switch out of the throwaway context saves its caller as well and leaves every task's context alone |
| ContextSwitch.SwitchEnabled | kernel/src/process/context.rs:31-48 | given the invariant, every switch and exit finds a readable frame of the task it enters |
| ContextSwitch.StepSpares | kernel/src/process/context.rs:27-49 | no step writes to the stack of a task that is not executing |
| ContextSwitch.StaysSuspended | kernel/src/process/context.rs:27-49 | no step but a switch to a suspended task changes what it will come back as |
| ContextSwitch.SwitchIsTransparent | kernel/src/process/context.rs:27-49 | in every run, a task left by a switch and next resumed has its six callee-saved registers, stack pointer and return address back |
| ContextSwitch.FreshTaskStarts | kernel/src/process/context.rs:59-85 | in every run a spawned task first runs at the trampoline with zeroed registers, correctly aligned, on its own stack |
| Processor.Processor.SaveRegisters | kernel/src/process/context.rs:33-38 | the six pushes write the frame Saved and move the stack pointer by 48 |
| Processor.Processor.LoadRegisters | kernel/src/process/context.rs:41-47 | the six pops and the return load the frame at the stack pointer |
| Processor.Processor.Switch | kernel/src/process/context.rs:31-47 | the instruction sequence is the switch of ContextSwitch, old and new contexts included |
| Processor.Processor.InitialContext | kernel/src/process/context.rs:76-85 | the loop writes the frame of a new task below the top of its stack |
| Processor.Processor.FreshContext | kernel/src/process/task.rs:79-83 | a new task's context is the one ContextSwitch spawns it with |
| FrameBits.SetFrame | kernel/src/memory/pmm.rs:65-68 | setting a frame's bit removes exactly that frame from the free set |
| FrameBits.ClearFrame | kernel/src/memory/pmm.rs:65-71 | clearing a frame's bit adds exactly that frame to the free set |
| FrameBits.FreeCount | kernel/src/memory/pmm.rs:135-141 | the frames minus the ones in all words are the cardinality of the free set |
| FrameAllocator.TouchesIsOverlap | kernel/src/memory/pmm.rs:75-85 | a non-empty byte range touches exactly the frames it shares a byte with |
| FrameAllocator.CoversOneGiB | kernel/src/memory/pmm.rs:75-85 | an address is covered by the bitmap exactly when it lies below 1 GiB |
| FrameAllocator.BitmapFrameAllocator.constructor | kernel/src/memory/pmm.rs:49-54 | at first nothing is free |
| FrameAllocator.BitmapFrameAllocator.SetUsed | kernel/src/memory/pmm.rs:65-72 | marking a frame adds or removes exactly that frame |
| FrameAllocator.BitmapFrameAllocator.MarkUsedRange | kernel/src/memory/pmm.rs:87-93 | removes exactly the frames the outward-rounded, clamped range touches |
| FrameAllocator.BitmapFrameAllocator.MarkFreeRange | kernel/src/memory/pmm.rs:95-101 | adds exactly the frames the outward-rounded, clamped range touches |
| FrameAllocator.BitmapFrameAllocator.FindInWord | kernel/src/memory/pmm.rs:111-122 | the lowest free frame of a word, or none when the word has none |
| FrameAllocator.BitmapFrameAllocator.FindFree | kernel/src/memory/pmm.rs:105-125 | the first free frame in scan order from the hint with wrap-around; nothing exactly when the set is empty, despite the skipped full words |
| FrameAllocator.BitmapFrameAllocator.AllocFrame | kernel/src/memory/pmm.rs:105-125 | removes exactly the frame it returns and moves the hint to its word |
| FrameAllocator.BitmapFrameAllocator.FreeFrame | kernel/src/memory/pmm.rs:127-132 | adds exactly the frame at the address, and nothing beyond the bitmap |
| FrameAllocator.BitmapFrameAllocator.FreeCount | kernel/src/memory/pmm.rs:135-141 | the count is the cardinality of the free set |
| FrameRuns.NoDoubleAllocation | kernel/src/memory/pmm.rs:144-150 | in every run a frame handed out twice was released in between |
| FrameRuns.AllocationsAscend | kernel/src/memory/pmm.rs:105-125 | without a release in between the next allocation is the next free frame above, or with none left there the lowest of all |
| FrameRuns.Conservation | kernel/src/memory/pmm.rs:105-132 | in every run of disciplined callers the free and the outstanding frames partition the initially free ones, and the count falls by one per outstanding frame |
| BootMap.Seed | kernel/src/memory/mod.rs:42-54 | after seeding a frame is free exactly when the last region holding it is usable and it is in neither the kernel image nor page 0; no byte of the image or of the first 4096 bytes is in a free frame |
| BootMap.ProtectedBytes | kernel/src/memory/mod.rs:50-53 | no byte of the kernel image and none of the first page is in a free frame, whatever the map |
| BootMap.BootFreeIff | kernel/src/memory/mod.rs:42-54 | in bytes: a frame is free exactly when the last region that shares a byte with it is usable and neither the image nor the first page shares one |
| BootMap.OrderMattersIffConflict | kernel/src/memory/mod.rs:43-49 | a frame comes out the same for every order of the map exactly when it is protected or no two regions of different kind claim it |
| BootMap.AlignedDisjointAnyOrder | kernel/src/memory/mod.rs:43-49 | for page-aligned disjoint regions the order of the map never matters |
| BootMap.UnalignedOrderMatters | kernel/src/memory/mod.rs:43-49 | two disjoint regions that share a page for which it does |
| BootMap.PartlyUsableIsFree | kernel/src/memory/pmm.rs:75-101 | a map with a half usable page, which becomes free although half of it is in no region |
| BootMap.WhollyUsableIff | kernel/src/memory/pmm.rs:75-101 | every byte of a frame is usable exactly when its first byte is and wherever a usable region ends inside it another usable region goes on |
| BootMap.AlignedFreeIsUsable | kernel/src/memory/mod.rs:42-54 | when the usable regions are page-aligned every byte of every free frame is usable |
| BootMap.FreeButReservedIff | kernel/src/memory/mod.rs:42-54 | among non-empty regions a free frame shares a byte with a region that is not usable exactly when regions of both kinds claim it |
| RxRing.NextKeepsInv | kernel/src/drivers/e1000.rs:331-359 | every single access of device or driver keeps the ring invariant |
| RxRing.ReturnsInOrder | kernel/src/drivers/e1000.rs:331-359 | in every interleaving the frames returned are a prefix of the frames written, fewer than a ring behind, and RDT is one behind the cursor |
| RxRing.NeverOverwritten | kernel/src/drivers/e1000.rs:229-236 | no device step touches the buffer or descriptor of a frame not yet returned |
| RxRing.PollSeesEveryFrame | kernel/src/drivers/e1000.rs:335-339 | a poll finds a frame exactly when one has been written and not returned |
| RxRing.DeviceHasRoom | kernel/src/drivers/e1000.rs:229-236 | the device may take a frame exactly when fewer than seven are waiting |
| RxRing.Nic.constructor | kernel/src/drivers/e1000.rs:257-295 | set-up gives an initial ring that satisfies the invariant |
| RxRing.Nic.PollReceive | kernel/src/drivers/e1000.rs:331-359 | returns the oldest frame not yet returned, nothing exactly when there is none, by the four driver steps in order |
| Checksum.Fold | kernel/src/net/mod.rs:61-63 | folding yields 0 for 0 and otherwise the representative of the sum modulo 65535 between 1 and 65535 |
| Checksum.FoldedSumIsOnesComplement | kernel/src/net/mod.rs:51-65 | summing in 32 bits and folding at the end equals ones-complement addition word by word (section 1 of RFC 1071) |
| Checksum.FoldCongruent | kernel/src/net/mod.rs:61-63 | the folded sum is congruent to the sum modulo 65535 and zero only for a zero sum |
| Checksum.OddByteIsPadded | kernel/src/net/mod.rs:51-60 | an odd last byte counts as if a zero byte followed |
| Checksum.WorkedExample | kernel/src/net/mod.rs:51-65 | the example of section 3 of RFC 1071 |
| Checksum.NoOverflowIff | kernel/src/net/mod.rs:51-60 | the 32-bit sum overflows on no input of length n exactly when n is at most 131074 |
| Checksum.SumWords | kernel/src/net/mod.rs:51-60 | the loop sums the big-endian words, an odd last byte as a high half, within 32 bits |
| Checksum.Compute | kernel/src/net/mod.rs:51-65 | the result is the complement of the ones-complement sum |
| Checksum.FilledInVerifies | kernel/src/net/mod.rs:51-65 | a message whose checksum was computed over a zero field at an even offset checks to zero |
| Packets.HeaderVerifies | kernel/src/net/ip.rs:22-37 | every IPv4 header checks to zero |
| Packets.EchoVerifies | kernel/src/net/icmp.rs:17-40 | every echo request and every echo reply checks to zero |
| Packets.UdpVerifies | kernel/src/net/udp.rs:18-36 | every datagram checks to zero together with its pseudo-header |
| Packets.UdpFieldZeroIff | kernel/src/net/udp.rs:26-36 | the checksum field goes out as zero exactly when addresses, protocol, ports, twice the length and the data words sum to a multiple of 65535 |
| Packets.UdpFieldCanBeZero | kernel/src/net/udp.rs:35-36 | a datagram whose field is zero |
| Packets.TcpVerifies | kernel/src/net/tcp.rs:60-82 | every segment, with any 16-bit flags, checks to zero together with its pseudo-header |
| Packets.OffsetBits | kernel/src/net/tcp.rs:66 | the data offset sets its two bits and leaves every other bit of the flags |
| Packets.BuildHeader | kernel/src/net/ip.rs:22-37 | filling the 20-byte buffer field by field gives the header |
| Packets.BuildEchoRequest | kernel/src/net/icmp.rs:17-28 | appending the fields and patching the checksum gives the echo request |
| Packets.BuildEchoReply | kernel/src/net/icmp.rs:31-40 | overwriting type, code and checksum gives the echo reply |
| Packets.BuildUdpDatagram | kernel/src/net/udp.rs:18-36 | appending, summing the pseudo-header and patching gives the datagram |
| Packets.BuildTcpSegment | kernel/src/net/tcp.rs:60-82 | appending, summing the pseudo-header and patching gives the segment |
| NetProofs.FrameReachesIp | kernel/src/net/ethernet.rs:59-70 | an IPv4 frame with any padding reaches the IPv4 layer as payload and padding |
| NetProofs.SenderReachesTransport | kernel/src/net/ip.rs:55-73 | a packet from any address whose total length fits 16 bits reaches its transport with that address and exactly its payload, whatever follows it |
| NetProofs.PacketReachesTransport | kernel/src/net/ip.rs:55-73 | the same for the packets the stack builds |
| NetProofs.UdpRoundTripIff | kernel/src/net/udp.rs:18-55 | a datagram sent, framed, padded and received is delivered with ports, sender and exact bytes exactly when it has at most 65507 of them |
| NetProofs.TooLongIsCut | kernel/src/net/ip.rs:41-48 | a longer one arrives shorter than it was sent, if it arrives |
| NetProofs.NoReplyStorm | kernel/src/net/ethernet.rs:59-70 | every frame that does not make the stack panic causes at most one frame, and no host answers that frame |
| NetProofs.PanicsIff | kernel/src/net/ip.rs:56-64 | exactly which frames make the stack panic: those whose body ip::handle slices out of range, and SYNs with sequence number 0xFFFFFFFF, whose successor overflows in tcp::handle (kernel/src/net/tcp.rs:106) |
| NetProofs.ArpTeaches | kernel/src/net/arp.rs:73-90 | every ARP frame binds its sender, later packets to that address go there, and only a request for our address is answered |
| NetProofs.ArpResolves | kernel/src/net/arp.rs:63-90 | a request and its answer teach both hosts each other's binding, and the answer goes from the answerer's MAC to the asker's |
| NetProofs.EchoIsAnswered | kernel/src/net/icmp.rs:43-53 | an echo request is answered to its sender with a verifying reply that keeps identifier, sequence number and data |
| NetProofs.SynIsAnswered | kernel/src/net/tcp.rs:92-110 | a SYN is answered with a SYN-ACK with swapped ports acknowledging the next sequence number; the last sequence number panics |
| NetStack.Stack.NextHopMac | kernel/src/net/mod.rs:95-103 | the cached address, else the gateway's, else broadcast |
| NetStack.Stack.Transmit | kernel/src/net/mod.rs:87-90 | hands exactly one Ethernet frame to the driver, with the receiver in bytes 0 to 6 and our MAC in bytes 6 to 12 |
| NetStack.Stack.SendIp | kernel/src/net/ip.rs:41-48 | sends one frame that carries the header and the payload to the next hop |
| NetStack.Stack.SendUdp | kernel/src/net/udp.rs:18-39 | sends one frame that carries the datagram |
| NetStack.Stack.OnArp | kernel/src/net/arp.rs:73-90 | cache, sent frames and deliveries change as HandleArp says |
| NetStack.Stack.OnIcmp | kernel/src/net/icmp.rs:43-62 | the same for ICMP |
| NetStack.Stack.OnUdp | kernel/src/net/udp.rs:43-55 | the same for UDP |
| NetStack.Stack.OnTcp | kernel/src/net/tcp.rs:92-110 | the same for TCP; fails exactly when the next sequence number overflows |
| NetStack.Stack.OnIp | kernel/src/net/ip.rs:55-73 | the same for IPv4; fails exactly when the slice is out of range or the segment makes TCP fail |
| NetStack.Stack.OnFrame | kernel/src/net/ethernet.rs:59-70 | the same for a whole frame |
| WireFormat.IpFrameBytes | kernel/src/net/ip.rs:22-48 | every IPv4 frame sent, byte by byte: MAC of the next hop (own binding, gateway, broadcast), our MAC, EtherType, version, length, identification, DF, TTL, protocol, our address, destination, a header that checks to zero, and the payload |
| WireFormat.SentUdpBytes | kernel/src/net/udp.rs:18-39 | every datagram sent, byte by byte, with a checksum that verifies against the pseudo-header read off the same frame |
| WireFormat.ReachesTransport | kernel/src/net/ip.rs:55-73 | every IPv4 frame, options included, reaches its transport with the address in bytes 26 to 30 and the bytes between header and total length |
| WireFormat.ArpAnswer | kernel/src/net/arp.rs:73-90 | the 42 bytes that answer a request for our address, and the binding learned |
| WireFormat.EchoAnswer | kernel/src/net/icmp.rs:31-53 | an echo request from any address is answered to that address by a verifying reply that repeats everything behind the checksum |
| WireFormat.SynAnswer | kernel/src/net/tcp.rs:92-110 | a SYN from any address is answered to that address and port by a verifying SYN-ACK, field by field, that acknowledges the next number |
| WireFormat.UdpDelivered | kernel/src/net/udp.rs:43-55 | a datagram from any address is delivered with that address, both ports and the data its length field bounds |
| WireFormat.EveryFrame | kernel/src/net/ethernet.rs:59-70 | for every frame that does not panic: an answer exactly for an ARP request for us, an echo request or a SYN; a delivery exactly for a datagram; a cache change exactly for an ARP frame |
| EndToEnd.DatagramReachesSockets | kernel/src/net/socket.rs:97-111 | a datagram that fits goes, over the wire, to the end of the queue of every UDP socket bound to its port and to no other |
| EndToEnd.WrittenIsRead | kernel/src/net/socket.rs:77-147 | what is written to a connected descriptor on one host crosses the wire and, over any interleaving on the receiving host that does not close the socket, is what a read on a descriptor of a socket bound to its port returns once everything that arrived there earlier has been received |
| Tar.CStr | kernel/src/fs/initrd.rs:126-129 | the bytes before the first NUL of a field |
| Tar.Octal | kernel/src/fs/initrd.rs:132-142 | the value of the octal digits, blanks skipped, up to the first other byte; a 12-byte field stays below 8^12 |
| Tar.ReadEntry | kernel/src/fs/initrd.rs:98-120 | the entry of a header and the position of the next one |
| Tar.Parse | kernel/src/fs/initrd.rs:94-123 | the loop ends on every byte string and yields the entries in order |
| Tar.HeaderMeans | kernel/src/fs/initrd.rs:94-123 | what a 512-byte header means, in bytes: name, size field, type flag 53 for a directory and any other for a file with its data, and the next header at the next multiple of 512 |
| Tar.OctalExamples | kernel/src/fs/initrd.rs:132-142 | two size fields: a blank skipped and 1750 read as 1000; a 9 that ends the number |
| Tar.EveryEntryIsNamed | kernel/src/fs/initrd.rs:106-119 | no entry without a name is kept |
| Tar.OctalFieldRoundTrip | kernel/src/fs/initrd.rs:132-142 | reading undoes writing a size below 8^11 |
| Tar.HeaderFields | kernel/src/fs/initrd.rs:98-104 | the parser reads back name, size and type of every written header |
| Tar.ParseUndoesWrite | kernel/src/fs/initrd.rs:94-123 | parsing an archive of any valid members, with any end marker, yields exactly those members |
| Paths.ComponentsCons | kernel/src/fs/initrd.rs:44-47 | a name in front of a path is its first component |
| Paths.ComponentsSplit | kernel/src/fs/vfs.rs:133-135 | what lies before and after any slash is split on its own, so repeated and trailing slashes make no component |
| Paths.ComponentsExample | kernel/src/fs/initrd.rs:44-47 | /a//b/ has the components a and b |
| Paths.FirstWinsAppend | kernel/src/fs/initrd.rs:35-40 | inserting an entry adds what it makes at the paths that had nothing |
| Paths.FirstEntryDecides | kernel/src/fs/initrd.rs:43-69 | the first entry to reach a path decides what is there: parents are directories, its own path the file or directory it says |
| Paths.ParentsPresent | kernel/src/fs/initrd.rs:59-66 | every parent of a path that is present is present |
| Initrd.FirstNamed | kernel/src/fs/initrd.rs:81-83 | the first child with the name, nothing exactly when no child has it |
| Initrd.PushedWalk | kernel/src/fs/initrd.rs:57-64 | pushing a child changes no walk but the one to it, and that only if it led nowhere |
| Initrd.Initrd.Push | kernel/src/fs/initrd.rs:57-63 | pushes a new node and keeps every other walk |
| Initrd.Initrd.Descend | kernel/src/fs/initrd.rs:59-66 | follows the child of the name, or creates a directory there |
| Initrd.Initrd.Insert | kernel/src/fs/initrd.rs:43-69 | at every path the tree keeps what it had, or gets what the entry makes |
| Initrd.Initrd.FromEntries | kernel/src/fs/initrd.rs:35-40 | the tree of any entry list is its first-wins path map, at every path |
| Initrd.FromTar | kernel/src/fs/initrd.rs:28-33 | the tree of an archive is the path map of its entries |
| Initrd.LoadPacked | kernel/src/fs/initrd.rs:28-33 | packing members and loading the archive gives the path map of the members |
| Vfs.LongestMount | kernel/src/fs/vfs.rs:114-122 | a covering mount with the longest prefix, the last mounted among equals, nothing exactly when none covers |
| Vfs.LaterMountHides | kernel/src/fs/vfs.rs:112-122 | a later mount with a prefix at least as long hides the earlier ones |
| Vfs.Resolve | kernel/src/fs/vfs.rs:127-137 | relative paths are invalid, uncovered ones not found, others what the longest mount finds component by component |
| Vfs.ComponentsOfRendered | kernel/src/fs/vfs.rs:133-135 | splitting a canonical path gives its components back |
| Vfs.CoversRendered | kernel/src/fs/vfs.rs:107-111 | a canonical prefix covers exactly the paths whose components begin with its own |
| Vfs.CoversCanonicalIff | kernel/src/fs/vfs.rs:107-111 | among canonical paths a mount covers exactly the paths at or below it, exactly when it is not the root |
| Vfs.CoversIff | kernel/src/fs/vfs.rs:107-111 | a mount point other than the root covers, of all texts, exactly those that begin with its text and have its components first |
| Vfs.CoversByComponentsIff | kernel/src/fs/vfs.rs:107-111 | for every text: covering is by whole components, for all mount points but the root, exactly when the path writes each of its components after a single slash |
| Vfs.DoubledSlashEscapes | kernel/src/fs/vfs.rs:107-111 | with one more slash in front (as in //dev) a path has the components of the mount point and is not covered by it |
| Vfs.RootCoversIff | kernel/src/fs/vfs.rs:107-111 | a root mount covers exactly / and the paths that begin with two slashes |
| Vfs.ResolveInInitrd | kernel/src/fs/vfs.rs:127-137 | resolving any path below /initrd in the kernel's mount table gives what the path map has there |
| Vfs.ResolveCanonical | kernel/src/fs/vfs.rs:127-137 | the canonical path of everything in the archive resolves to it |
| SocketSpec.NothingLostOrInvented | kernel/src/net/socket.rs:39-111 | in every run, what was received from a socket followed by its queue is, in order, exactly what arrived for it as a UDP socket with that port |
| SocketSpec.SocketAfter | kernel/src/net/socket.rs:39-111 | what each operation makes of each socket; sockets it is not meant for do not change |
| SocketSpec.SocketIsAsSet | kernel/src/net/socket.rs:39-66 | in every run protocol, port and peer of a socket are what it was created with and last bound and connected to |
| SocketSpec.OnlyUdpHears | kernel/src/net/socket.rs:97-111 | in every run a socket of another protocol has received nothing |
| SocketSpec.ArrivedExtends | kernel/src/net/socket.rs:39-111 | until it is closed a socket keeps its slot, and what arrived for it is never forgotten |
| SocketSpec.BoundSocketReceives | kernel/src/net/socket.rs:39-111 | a new UDP socket bound to a port hears exactly what is sent to it, the next receive returns that, and no other slot changes |
| KernelSpec.ConnectedSocketSends | kernel/src/net/socket.rs:77-147 | after bind and connect a write sends one datagram, from the bound port to the peer with the bytes written, exactly for a UDP socket with a NIC present, and reports an error otherwise |
| KernelSpec.StreamIsPrefix | kernel/src/fs/mod.rs:57-104 | over every interleaving, the bytes read through one open of a file are its data up to the offset, and a reused descriptor starts at 0 |
| KernelSpec.EmptyReadIffAtEnd | kernel/src/fs/initrd.rs:175-183 | a read with room returns nothing exactly when everything has been read |
| KernelSpec.SocketsFollow | kernel/src/syscall/mod.rs:201-229 | the socket table of any run of calls is that of its socket operations |
| KernelSpec.DescriptorsOwnSocketsIff | kernel/src/syscall/mod.rs:201-209 | in every run of system calls and of the kernel's own socket operations each socket descriptor has at all times a socket of its own exactly when the kernel closes no socket that a descriptor names |
| KernelSpec.OwnSocketsStep | kernel/src/net/socket.rs:39-74 | one call keeps ownership exactly when it does not close a named socket |
| KernelSpec.NewSocketSharesIff | kernel/src/syscall/mod.rs:201-209 | if descriptors name distinct sockets, a new socket keeps that exactly when there is no free descriptor or none names the slot it gets |
| KernelSpec.SharedAfterClose | kernel/src/net/socket.rs:69-74 | closing a socket that a descriptor names makes the next socket descriptor share it, if no earlier slot is free |
| Descriptors.ClosedIsGone | kernel/src/fs/mod.rs:95-104 | after a close the descriptor is not open, reading and writing it fail, and the sockets have not changed |
| Descriptors.OtherDescriptors | kernel/src/fs/mod.rs:57-104 | no call changes a descriptor it is not made on and does not install at |
| Descriptors.LowestFree | kernel/src/fs/mod.rs:57-68 | a new descriptor is the lowest free one and stands at offset 0 of what was opened |
| Descriptors.ReopenAfterClose | kernel/src/fs/mod.rs:57-104 | with nothing free below, the next open after a close gets the same descriptor at offset 0 |
| Descriptors.OpenIff | kernel/src/fs/mod.rs:57-104 | in every run a descriptor is open exactly when it was installed and has not been closed since |
| Descriptors.OpenSucceedsIff | kernel/src/fs/mod.rs:57-68 | in every run opening succeeds exactly while fewer than 64 descriptors are open |
| Descriptors.OffsetCounts | kernel/src/fs/mod.rs:76-92 | in every run the offset of a descriptor is the number of bytes read and written through it since it was opened |
| Descriptors.FailureChangesNothing | kernel/src/fs/mod.rs:71-104 | a call on a descriptor that fails leaves both tables as they were |
| Descriptors.FilesAreReadOnly | kernel/src/fs/vfs.rs:72-74 | writing to an initrd file is refused and changes nothing |
| Descriptors.ReadsWhatIsLeft | kernel/src/fs/initrd.rs:175-183 | a read of a file returns as many bytes as fit and are left |
| Descriptors.ReadFits | kernel/src/fs/mod.rs:76-83 | no read returns more than was asked for |
| Descriptors.NothingQueued | kernel/src/net/socket.rs:135-140 | reading a socket with nothing queued returns zero bytes and changes nothing |
| Descriptors.NewSocketIs | kernel/src/syscall/mod.rs:201-209 | the descriptor of a new socket stands for an unbound, unconnected, empty socket of the protocol asked for |
| KernelTables.Tables.Install | kernel/src/fs/mod.rs:57-68 | the first free descriptor, else a new one below 64, else none |
| KernelTables.Tables.Open | kernel/src/fs/mod.rs:71-74 | installs the inode at offset 0 or reports no space |
| KernelTables.Tables.ReceiveFrom | kernel/src/net/socket.rs:87-94 | pops the oldest datagram, copies what fits and leaves the rest of the buffer alone |
| KernelTables.Tables.ReadInode | kernel/src/net/socket.rs:135-140 | fills the buffer from a file, a socket or a device |
| KernelTables.Tables.Read | kernel/src/fs/mod.rs:77-83 | reads at the offset, advances it by what was read, and leaves the rest of the buffer alone |
| KernelTables.Tables.SendTo | kernel/src/net/socket.rs:77-84 | only a connected UDP socket sends, and then exactly the datagram from its port to its peer; no NIC is an I/O error and sends nothing |
| KernelTables.Tables.Write | kernel/src/fs/mod.rs:86-92 | files refuse, sockets send their datagram, devices answer; the offset advances by what was taken |
| KernelTables.Tables.Close | kernel/src/fs/mod.rs:95-104 | frees an open descriptor, refuses any other (see Descriptors.ClosedIsGone for what that means to the caller) |
| KernelTables.Tables.NewSocket | kernel/src/syscall/mod.rs:203-209 | a new socket behind a new descriptor, or no space with the socket left behind |
| KernelTables.Tables.Bind | kernel/src/syscall/mod.rs:212-219 | sets the port of the socket behind the descriptor, if there is one |
| KernelTables.Tables.Connect | kernel/src/syscall/mod.rs:222-229 | sets the peer of the socket behind the descriptor, if there is one |
| KernelTables.Tables.Deliver | kernel/src/net/socket.rs:97-111 | the loop appends the datagram to every UDP socket bound to the port and to no other |

## Left out

- The transmit ring of the e1000, PCI discovery, reset and register programming: no completion protocol to prove anything about.
- GDT, IDT, PIC, PIT, serial, VGA and keyboard: port and memory-mapped I/O; the timer appears only as a counter.
- `kernel/src/memory/vmm.rs`, `kernel/src/memory/heap.rs` and `kernel/src/process/elf.rs`: thin layers over crates that are not part of this model.
- Shell, devfs, procfs, self-tests and printing: user interface. A device inode may return anything.
- The syscall entry assembly, user-memory access, the 4096-byte cap in `sys_read` and `sys_write`, and errno values: only the table operations behind the calls are modelled.
- The `ACTIVE` flag: the scheduler is modelled after it has been armed.
- Spin-lock contention: a locked section is one step.
- Lossy UTF-8 decoding of archive names: a parameter, see Conventions; archive names that use the ustar prefix field are read by their name field only, as in the kernel.
- `TaskId` reuse after 2^32 spawns: the model stops at the overflow panic of the development profile.
- Overflow of 64-bit quantities (the tick counter, wake-up times, file offsets): unbounded in the model.
- Byte-granular memory in the context switch: stacks are words at multiples of 8.
- SchedulerBlocking.SleeperIsDispatched: assumes that the CPU is not idle when the sleeper wakes, since a sleeper that wakes in the idle context is never dispatched by the timer (SchedulerLiveness.IdleForever); SchedulerCalls.TimerReturnsSleeperIff states the exact condition for the timer alone.
