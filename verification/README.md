# Operating systems simulators

A Dafny model of five programs and two kernel routines, each with the properties
it is for:

- **Page replacement** (`Paging`, `DemandPaging`, `Belady`, `LruInclusion`,
  `Competitive`, `ClockSweep`, `ClockWindows`, `ClockRatio`, `PageReplacementSimulator`). The
  four policies are one state machine over a reference string, `Paging.Run`.
  The simulator's procedures, which update a frame array, a scratch array and
  use bits in place, are proved equal to it; Belady optimality, LRU inclusion,
  the competitiveness of `lru`, `fifo` and `clock` against an adversary with as
  many or fewer frames, and the exact cost of a window and the exact
  competitive ratio under `clock` are proved about it.
- **CPU scheduling** (`Schedules`, `SrtfOptimality`, `WorkConservation`,
  `ScheduleAccounts`, `ScheduleTallies`, `NonPreemptive`, `RoundRobin`,
  `RoundRobinOrder`, `ProcessTable`, `CpuScheduler`, `SchedulerComparison`). A
  schedule names the job of every tick. Each algorithm's loop is proved to end with the schedule
  its rule prescribes and with the Gantt chart, totals and process fields of
  that schedule; the theorems compare schedules.
- **FAT file system** (`Fat`, `FatStructure`, `FatContents`, `FatRoundTrip`,
  `FatReadBack`, `FatLogs`, `FatRuns`, `FatFileSystem`). The class works on the
  three arrays of the program; the other modules say what its commands make of
  the disk and what whole runs of commands keep. `FatReadBack` decides for which
  disks an empty file reads as what is written to it, `FatLogs` compares files
  with logs of what was written, and `FatRuns` holds runs from a zeroed disk
  that reach the cases in which something goes wrong. Block size and number of
  blocks are arbitrary; the program's are 32 and 1024.
- **Kernel routines** (`ProcessTree`, `MaxThreads`). The walk is a machine over
  three pointers and two labels, proved equal to a recursive preorder walk. The
  thread limit is proved equal to its formula over unbounded integers.
- **Summing by processes and threads** (`ForkSum`, `ForkExact`). A reaping order
  says which child each `wait` returns; the theorems hold for every order.
  `ForkExact` decides for which arrays every order gives the exact sum.

`Sets` and `Sums` hold what several of them need.

## What the programs require

The preconditions are the ones the C programs need in order to stay within
their buffers and sentinels:

- Pages: 1 to 1000 frames. At most 1000 references for `optimal` and `lru`, which
  take 1001 to be above every index; `fifo` and `clock` have no such bound. For
  `optimal`, `lru` and `fifo` the frame count is not 999, because the assignment
  to `page_frame_arr[page_frame_count+1]` would then leave the array. No page is
  -1, the empty marker (`EmptyMarkerHits` says exactly what happens otherwise;
  the procedures themselves are modelled for such strings as well).
- Processes: arrivals from 0 on, bursts from 1 on, at most 1000 ticks of work
  in all, a slice of at least 1.
- Files: names that are not empty (an empty one would match an unused directory
  entry), contain no NUL and are shorter than 100 characters; text without NUL.
  Reading asks that the file's links stay in the table as far as they are
  followed, deleting that they come to an end. Every structured disk gives both
  (`FatStructure.StructuredIsUsable`).

## Where the code falls short of its purpose

- `clock` leaves its hand on the slot it has just filled. The window bound that
  makes `lru` and `fifo` k-competitive therefore holds for it exactly up to two
  frames (`ClockWindowBoundIff`). A window of d pages costs it at most 2d - 2
  faults, which is reached for every number of frames (`ClockWindowCost`,
  `ClockBoundIsReached`). With k > 1 frames it is c-competitive if and only if
  c is at least 2k - 2 (`ClockCompetitive`, `ClockRatioIff`).
- A FAT entry that links to block 0 reads as free. Extending a chain is sound
  exactly while block 0 is allocated (`GrowthIsSoundIff`); otherwise a second
  file can be given the same block (`BlockGivenTwice`).
- `write_file` starts at a file's first block, not its last. Writing a text that
  is not empty to a file of more than one block, while some block is free, loses
  the file's tail (`WriteIsFaithfulIff`) and leaks its blocks
  (`WriteAccountsIff`); `RewritingLosesAndLeaks` is a run that does both.
- `delete_file` leaves the bytes in place. Whatever is written to an empty file is
  read back if and only if the blocks that the write may take are blocks without
  bytes and then full ones, in the order in which it takes them
  (`EmptyFileReadsBackIff`, which also says what that order is when block 0 is
  free). `DeletedBytesReturn` and `EmptyBlockIsNotEnough` are runs in which a
  deleted file's bytes come back.
- FCFS idles while a job is ready if and only if it waits for a job although a
  later one in the list has arrived before it (`FcfsConservesIff`).
- A process sum may lose what an exit code cannot carry. `EveryOrderIsExactIff`
  says for which arrays, `TotalIsExactIff` for which totals.
- The thread limit's guard changes the result only for a THREAD_SIZE above
  2^30 + 1 (`MaxThreads.ExactIff`).

## Model

| member | source | states |
|---|---|---|
| `Belady.OptimalIsOptimal` | OS_Assignment4_B_2021202045_kimyeeun/OS_Assignment4_B_2021202045_kimyeeun/Assignment4-2/page_replacement_simulator.c:6-36 | Belady optimality: at every point of every reference string, `optimal` has had no more faults than any way of paging on demand with the same number of frames, starting empty |
| `Belady.NeverBetterOff` | OS_Assignment4_B_2021202045_kimyeeun/OS_Assignment4_B_2021202045_kimyeeun/Assignment4-2/page_replacement_simulator.c:115-152 | the invariant behind it: for every deadline, an adversary holds at most (its excess faults) more pages that are used again by then than `optimal` does |
| `Belady.VictimIsHarmless` | OS_Assignment4_B_2021202045_kimyeeun/OS_Assignment4_B_2021202045_kimyeeun/Assignment4-2/page_replacement_simulator.c:23-33 | evicting the page used furthest in the future costs no page used again by a deadline, or every frame but one already holds such a page |
| `Belady.OptimalBeatsThePolicies` | OS_Assignment4_B_2021202045_kimyeeun/OS_Assignment4_B_2021202045_kimyeeun/Assignment4-2/page_replacement_simulator.c:115-237 | `optimal` faults no more often than `lru`, `fifo` and `clock` on the same string and frames |
| `Belady.MoreFramesNeverHurtOptimal` | OS_Assignment4_B_2021202045_kimyeeun/OS_Assignment4_B_2021202045_kimyeeun/Assignment4-2/page_replacement_simulator.c:115-152 | `optimal` has no Belady anomaly |
| `Competitive.KCompetitive` | OS_Assignment4_B_2021202045_kimyeeun/OS_Assignment4_B_2021202045_kimyeeun/Assignment4-2/page_replacement_simulator.c:154-237 | k-competitiveness: at every point, `lru` and `fifo` with k frames have had at most k times the faults of any demand paging with k frames |
| `Competitive.HCompetitive` | OS_Assignment4_B_2021202045_kimyeeun/OS_Assignment4_B_2021202045_kimyeeun/Assignment4-2/page_replacement_simulator.c:154-237 | against an adversary with h <= k frames: (k - h + 1) times the faults of `lru` or `fifo` are at most k times the adversary's plus k(k - h) |
| `Competitive.AgainstAnyone` | OS_Assignment4_B_2021202045_kimyeeun/OS_Assignment4_B_2021202045_kimyeeun/Assignment4-2/page_replacement_simulator.c:77-237 | the same for any policy and any price c of a window with at most k pages: (k - h + 1) times its faults are at most c times the adversary's plus c(k - h) |
| `Competitive.WindowOf` | OS_Assignment4_B_2021202045_kimyeeun/OS_Assignment4_B_2021202045_kimyeeun/Assignment4-2/page_replacement_simulator.c:154-237 | `lru` and `fifo` fault at most once per distinct page in any window with at most k distinct pages |
| `Competitive.LruWindow` | OS_Assignment4_B_2021202045_kimyeeun/OS_Assignment4_B_2021202045_kimyeeun/Assignment4-2/page_replacement_simulator.c:50-75 | the window bound for `lru`: what it has loaded since the window began it still holds, as its cache is the most recently used pages |
| `Competitive.FifoKeepsLoads` | OS_Assignment4_B_2021202045_kimyeeun/OS_Assignment4_B_2021202045_kimyeeun/Assignment4-2/page_replacement_simulator.c:219-226 | what `fifo` loaded in a window with at most k distinct pages stays until the window ends |
| `Competitive.FifoEvictsTheOldest` | OS_Assignment4_B_2021202045_kimyeeun/OS_Assignment4_B_2021202045_kimyeeun/Assignment4-2/page_replacement_simulator.c:219-226 | first in, first out: a fault evicts exactly the page that was loaded k faults before |
| `Competitive.CutIntoWindows` | OS_Assignment4_B_2021202045_kimyeeun/OS_Assignment4_B_2021202045_kimyeeun/Assignment4-2/page_replacement_simulator.c:154-237 | a string cuts into windows of at most k distinct pages, for each of which but the first any adversary with h frames has had k - h + 1 faults of its own |
| `Competitive.KTimesOptimal` | OS_Assignment4_B_2021202045_kimyeeun/OS_Assignment4_B_2021202045_kimyeeun/Assignment4-2/page_replacement_simulator.c:115-237 | `lru` and `fifo` fault at most k times as often as `optimal` |
| `LruInclusion.LruContents` | OS_Assignment4_B_2021202045_kimyeeun/OS_Assignment4_B_2021202045_kimyeeun/Assignment4-2/page_replacement_simulator.c:50-75 | a page is in an LRU frame if and only if fewer than k distinct pages were referenced since its last use |
| `LruInclusion.LruKeepsMostRecent` | OS_Assignment4_B_2021202045_kimyeeun/OS_Assignment4_B_2021202045_kimyeeun/Assignment4-2/page_replacement_simulator.c:154-187 | the LRU cache is closed under recency, and drops nothing while a frame is empty |
| `LruInclusion.LruVictim` | OS_Assignment4_B_2021202045_kimyeeun/OS_Assignment4_B_2021202045_kimyeeun/Assignment4-2/page_replacement_simulator.c:63-72 | the victim is an empty frame if there is one and the least recently used page otherwise |
| `LruInclusion.LruInclusion` | OS_Assignment4_B_2021202045_kimyeeun/OS_Assignment4_B_2021202045_kimyeeun/Assignment4-2/page_replacement_simulator.c:154-187 | after every reference the pages in k frames are a subset of the pages in k + 1 or more frames |
| `LruInclusion.MoreFramesNeverHurtLru` | OS_Assignment4_B_2021202045_kimyeeun/OS_Assignment4_B_2021202045_kimyeeun/Assignment4-2/page_replacement_simulator.c:154-187 | LRU faults never increase with more frames |
| `ClockSweep.SweepVictim` | OS_Assignment4_B_2021202045_kimyeeun/OS_Assignment4_B_2021202045_kimyeeun/Assignment4-2/page_replacement_simulator.c:37-48 | the victim is the first slot from the hand whose bit is 0, or the hand itself after a full round if all are 1; exactly the bits passed are cleared |
| `ClockSweep.ClockFillsInOrder` | OS_Assignment4_B_2021202045_kimyeeun/OS_Assignment4_B_2021202045_kimyeeun/Assignment4-2/page_replacement_simulator.c:77-109 | the first k faults fill slots 0..k-1 in order whatever hits come between, although the hand stays on the slot last replaced |
| `ClockSweep.ClockHoldsAll` | OS_Assignment4_B_2021202045_kimyeeun/OS_Assignment4_B_2021202045_kimyeeun/Assignment4-2/page_replacement_simulator.c:77-109 | while the distinct pages fit, `clock` has faulted once on each and holds them all |
| `ClockSweep.DistinctPagesBound` | OS_Assignment4_B_2021202045_kimyeeun/OS_Assignment4_B_2021202045_kimyeeun/Assignment4-2/page_replacement_simulator.c:77-237 | each policy faults at least once per distinct page, and exactly that often when all distinct pages fit |
| `ClockWindows.ClockWindowCost` | OS_Assignment4_B_2021202045_kimyeeun/OS_Assignment4_B_2021202045_kimyeeun/Assignment4-2/page_replacement_simulator.c:37-48 | a window with d distinct pages, at most k, costs `clock` at most 2d - 2 faults, or d if d < 2 |
| `ClockWindows.ClockBoundIsReached` | OS_Assignment4_B_2021202045_kimyeeun/OS_Assignment4_B_2021202045_kimyeeun/Assignment4-2/page_replacement_simulator.c:37-48 | for every k > 1 a string on which a window of k distinct pages costs `clock` 2k - 2 faults |
| `ClockWindows.ClockWindowBoundIff` | OS_Assignment4_B_2021202045_kimyeeun/OS_Assignment4_B_2021202045_kimyeeun/Assignment4-2/page_replacement_simulator.c:37-48 | `clock` with k frames faults at most once per distinct page in every window with at most k of them, on every string, if and only if k is at most 2 |
| `ClockWindows.ClockCompetitive` | OS_Assignment4_B_2021202045_kimyeeun/OS_Assignment4_B_2021202045_kimyeeun/Assignment4-2/page_replacement_simulator.c:77-109 | against any demand paging with h <= k frames, (k - h + 1) times the faults of `clock` are at most c times the adversary's plus c(k - h), where c is 2k - 2, or 1 if k = 1 |
| `ClockRatio.ClockRatioIff` | OS_Assignment4_B_2021202045_kimyeeun/OS_Assignment4_B_2021202045_kimyeeun/Assignment4-2/page_replacement_simulator.c:77-109 | for k > 1: the faults of `clock` are at most c times those of any demand paging with k frames, up to a constant, if and only if c is at least 2k - 2 |
| `ClockRatio.RatioIsReached` | OS_Assignment4_B_2021202045_kimyeeun/OS_Assignment4_B_2021202045_kimyeeun/Assignment4-2/page_replacement_simulator.c:77-109 | for every k > 1 and n, a string and a demand paging with k frames on which `clock` faults k + n(2k - 2) times and the other k + n times |
| `ClockRatio.WholeWindow` | OS_Assignment4_B_2021202045_kimyeeun/OS_Assignment4_B_2021202045_kimyeeun/Assignment4-2/page_replacement_simulator.c:37-48 | the cycle behind it: two rounds of faults and a hit cost `clock` 2k - 2 faults and leave it as it was, with the pages in another order |
| `ClockWindows.Sweep` | OS_Assignment4_B_2021202045_kimyeeun/OS_Assignment4_B_2021202045_kimyeeun/Assignment4-2/page_replacement_simulator.c:38-47 | what a fault does, seen from where the hand last stood: it replaces the victim's page, every bit before the victim was set and is cleared, and no bit but the victim's is set |
| `ClockWindows.NoThirdRound` | OS_Assignment4_B_2021202045_kimyeeun/OS_Assignment4_B_2021202045_kimyeeun/Assignment4-2/page_replacement_simulator.c:37-48 | in such a window the hand goes round less than twice: after two rounds every frame would hold a page of the window |
| `DemandPaging.NeverTwice` | OS_Assignment4_B_2021202045_kimyeeun/OS_Assignment4_B_2021202045_kimyeeun/Assignment4-2/page_replacement_simulator.c:89-109 | under each policy no page is in two frames, and only pages that have been referenced are in any |
| `DemandPaging.HitsAndFaults` | OS_Assignment4_B_2021202045_kimyeeun/OS_Assignment4_B_2021202045_kimyeeun/Assignment4-2/page_replacement_simulator.c:89-109 | hits plus faults equal the references so far, under each policy |
| `DemandPaging.EveryPolicyPagesOnDemand` | OS_Assignment4_B_2021202045_kimyeeun/OS_Assignment4_B_2021202045_kimyeeun/Assignment4-2/page_replacement_simulator.c:77-237 | each policy pages on demand within k frames, and its fault counter counts exactly the references it did not hold |
| `DemandPaging.StepEffect` | OS_Assignment4_B_2021202045_kimyeeun/OS_Assignment4_B_2021202045_kimyeeun/Assignment4-2/page_replacement_simulator.c:102-108 | a hit changes no frame; a fault replaces the victim and nothing else |
| `DemandPaging.AtLeastDistinct` | OS_Assignment4_B_2021202045_kimyeeun/OS_Assignment4_B_2021202045_kimyeeun/Assignment4-2/page_replacement_simulator.c:77-237 | any demand paging faults at least once per distinct page |
| `DemandPaging.EmptyMarkerHits` | OS_Assignment4_B_2021202045_kimyeeun/OS_Assignment4_B_2021202045_kimyeeun/Assignment4-2/page_replacement_simulator.c:84-100 | why -1 is not a page: in any state of any policy, a reference to the empty marker counts as a hit if and only if some frame is empty, and then loads nothing |
| `Paging.NextUse` | OS_Assignment4_B_2021202045_kimyeeun/OS_Assignment4_B_2021202045_kimyeeun/Assignment4-2/page_replacement_simulator.c:10-21 | the first index from the given one on that references a page, or the sentinel 1001 if and only if none does |
| `Paging.LastUse` | OS_Assignment4_B_2021202045_kimyeeun/OS_Assignment4_B_2021202045_kimyeeun/Assignment4-2/page_replacement_simulator.c:54-61 | the last index before the given one that references a page, or -1 if and only if none does |
| `Paging.FirstMax` | OS_Assignment4_B_2021202045_kimyeeun/OS_Assignment4_B_2021202045_kimyeeun/Assignment4-2/page_replacement_simulator.c:23-33 | the leftmost position of the largest entry |
| `Paging.FirstMin` | OS_Assignment4_B_2021202045_kimyeeun/OS_Assignment4_B_2021202045_kimyeeun/Assignment4-2/page_replacement_simulator.c:63-72 | the leftmost position of the smallest entry |
| `Paging.SweepLength` | OS_Assignment4_B_2021202045_kimyeeun/OS_Assignment4_B_2021202045_kimyeeun/Assignment4-2/page_replacement_simulator.c:38-47 | how many set bits the sweep passes: all of them set, the next one clear unless it went all the way round |
| `PageReplacementSimulator.CalculateReplacementOptimal` | OS_Assignment4_B_2021202045_kimyeeun/OS_Assignment4_B_2021202045_kimyeeun/Assignment4-2/page_replacement_simulator.c:6-36 | the two search loops over the scratch array find the frame whose page is used again last |
| `PageReplacementSimulator.CalculateReplacementLru` | OS_Assignment4_B_2021202045_kimyeeun/OS_Assignment4_B_2021202045_kimyeeun/Assignment4-2/page_replacement_simulator.c:50-75 | the two search loops find the frame whose page was used longest ago |
| `PageReplacementSimulator.CalculateReplacementClock` | OS_Assignment4_B_2021202045_kimyeeun/OS_Assignment4_B_2021202045_kimyeeun/Assignment4-2/page_replacement_simulator.c:37-48 | returns the victim and leaves the bits as the sweep should, with one probe more than the sweep is long, which is at most k + 1 |
| `PageReplacementSimulator.Lookup` | OS_Assignment4_B_2021202045_kimyeeun/OS_Assignment4_B_2021202045_kimyeeun/Assignment4-2/page_replacement_simulator.c:129-137 | the search for a hit returns the first frame holding the page, or none |
| `PageReplacementSimulator.Initialize` | OS_Assignment4_B_2021202045_kimyeeun/OS_Assignment4_B_2021202045_kimyeeun/Assignment4-2/page_replacement_simulator.c:121-126 | empties the frames, and sets the one slot after the next that the stray assignment hits |
| `PageReplacementSimulator.RunOptimal` | OS_Assignment4_B_2021202045_kimyeeun/OS_Assignment4_B_2021202045_kimyeeun/Assignment4-2/page_replacement_simulator.c:115-152 | frames, faults and hits in place equal the machine the theorems are about |
| `PageReplacementSimulator.RunLru` | OS_Assignment4_B_2021202045_kimyeeun/OS_Assignment4_B_2021202045_kimyeeun/Assignment4-2/page_replacement_simulator.c:154-193 | the same for `lru` |
| `PageReplacementSimulator.RunFifo` | OS_Assignment4_B_2021202045_kimyeeun/OS_Assignment4_B_2021202045_kimyeeun/Assignment4-2/page_replacement_simulator.c:195-237 | the same for `fifo` |
| `PageReplacementSimulator.RunClock` | OS_Assignment4_B_2021202045_kimyeeun/OS_Assignment4_B_2021202045_kimyeeun/Assignment4-2/page_replacement_simulator.c:77-114 | the same for `clock`, with its bits and hand |
| `PageReplacementSimulator.RunAll` | OS_Assignment4_B_2021202045_kimyeeun/OS_Assignment4_B_2021202045_kimyeeun/Assignment4-2/page_replacement_simulator.c:271-277 | each printed fault count is that of its policy; `optimal` is smallest, at least the number of distinct pages, and `lru` and `fifo` are within a factor k of it |
| `SrtfOptimality.SrtfIsOptimal` | OS_Assignment3_B_2021202045_kimyeeun/OS_Assignment3_B_2021202045_kimyeeun/Assignment 3-3/cpu_scheduler.c:107-156 | SRTF has the smallest total turnaround of all unit-tick schedules that respect arrivals and give every job its burst |
| `SrtfOptimality.SrtfDominates` | OS_Assignment3_B_2021202045_kimyeeun/OS_Assignment3_B_2021202045_kimyeeun/Assignment 3-3/cpu_scheduler.c:117-153 | at every time, whatever set of jobs is set aside in the other schedule, SRTF can set aside as many and have no more work outside |
| `SrtfOptimality.TickKeeps` | OS_Assignment3_B_2021202045_kimyeeun/OS_Assignment3_B_2021202045_kimyeeun/Assignment 3-3/cpu_scheduler.c:120-134 | running the job with the least work left keeps that dominance, whatever the other schedule runs |
| `SrtfOptimality.ArrivalsKeep` | OS_Assignment3_B_2021202045_kimyeeun/OS_Assignment3_B_2021202045_kimyeeun/Assignment 3-3/cpu_scheduler.c:121-122 | arrivals keep it |
| `SrtfOptimality.FewerInSystem` | OS_Assignment3_B_2021202045_kimyeeun/OS_Assignment3_B_2021202045_kimyeeun/Assignment 3-3/cpu_scheduler.c:117-153 | at every time SRTF has no more unfinished arrived jobs than any schedule |
| `SrtfOptimality.Shortest` | OS_Assignment3_B_2021202045_kimyeeun/OS_Assignment3_B_2021202045_kimyeeun/Assignment 3-3/cpu_scheduler.c:120-127 | the search returns the lowest-numbered ready job with the least work left, or none exactly when none is ready |
| `Schedules.TurnaroundIsArea` | OS_Assignment3_B_2021202045_kimyeeun/OS_Assignment3_B_2021202045_kimyeeun/Assignment 3-3/cpu_scheduler.c:140-149 | total turnaround is the number of jobs in the system summed over time |
| `WorkConservation.NeverBehind` | OS_Assignment3_B_2021202045_kimyeeun/OS_Assignment3_B_2021202045_kimyeeun/Assignment 3-3/cpu_scheduler.c:47-156 | a schedule that idles only when nothing is ready has at every time done at least as much work as any other |
| `WorkConservation.ConservingIsFastest` | OS_Assignment3_B_2021202045_kimyeeun/OS_Assignment3_B_2021202045_kimyeeun/Assignment 3-3/cpu_scheduler.c:47-156 | so no complete schedule ends earlier |
| `WorkConservation.SameIdleTicks` | OS_Assignment3_B_2021202045_kimyeeun/OS_Assignment3_B_2021202045_kimyeeun/Assignment 3-3/cpu_scheduler.c:47-231 | two such schedules end together and idle in the same ticks |
| `NonPreemptive.SjfConserves` | OS_Assignment3_B_2021202045_kimyeeun/OS_Assignment3_B_2021202045_kimyeeun/Assignment 3-3/cpu_scheduler.c:159-202 | SJF is a schedule and idles only when nothing is ready |
| `NonPreemptive.SjfIsSrtf` | OS_Assignment3_B_2021202045_kimyeeun/OS_Assignment3_B_2021202045_kimyeeun/Assignment 3-3/cpu_scheduler.c:159-202 | when all jobs arrive together, SJF does what SRTF does, tie-breaking included |
| `NonPreemptive.SjfIsOptimal` | OS_Assignment3_B_2021202045_kimyeeun/OS_Assignment3_B_2021202045_kimyeeun/Assignment 3-3/cpu_scheduler.c:159-202 | when all jobs arrive together, SJF has the smallest total wait of all schedules, and the same as SRTF |
| `NonPreemptive.SjfStartsTheShortest` | OS_Assignment3_B_2021202045_kimyeeun/OS_Assignment3_B_2021202045_kimyeeun/Assignment 3-3/cpu_scheduler.c:167-190 | a job that SJF starts is the first listed of the shortest ready ones, and a job that has started goes on without a break |
| `NonPreemptive.FcfsIsSchedule` | OS_Assignment3_B_2021202045_kimyeeun/OS_Assignment3_B_2021202045_kimyeeun/Assignment 3-3/cpu_scheduler.c:204-231 | FCFS respects arrivals |
| `NonPreemptive.FcfsConserves` | OS_Assignment3_B_2021202045_kimyeeun/OS_Assignment3_B_2021202045_kimyeeun/Assignment 3-3/cpu_scheduler.c:204-231 | FCFS idles only when nothing is ready if the jobs are listed by arrival |
| `NonPreemptive.FcfsConservesIff` | OS_Assignment3_B_2021202045_kimyeeun/OS_Assignment3_B_2021202045_kimyeeun/Assignment 3-3/cpu_scheduler.c:204-231 | a complete FCFS schedule idles only when nothing is ready if and only if every job has arrived by the time the jobs before it are done, or no later than any job behind it |
| `NonPreemptive.FcfsDoesInOrder` | OS_Assignment3_B_2021202045_kimyeeun/OS_Assignment3_B_2021202045_kimyeeun/Assignment 3-3/cpu_scheduler.c:204-231 | at every time FCFS has finished the jobs before one, and has run that one since it had arrived and the one before was done |
| `NonPreemptive.UnsortedIdles` | OS_Assignment3_B_2021202045_kimyeeun/OS_Assignment3_B_2021202045_kimyeeun/Assignment 3-3/cpu_scheduler.c:204-231 | a list that is not sorted by arrival on which every FCFS schedule idles while a job is ready |
| `NonPreemptive.OneSwitchPerJob` | OS_Assignment3_B_2021202045_kimyeeun/OS_Assignment3_B_2021202045_kimyeeun/Assignment 3-3/cpu_scheduler.c:290-300 | a chart in which every job runs in one piece has as many switches as jobs |
| `NonPreemptive.FewestSwitches` | OS_Assignment3_B_2021202045_kimyeeun/OS_Assignment3_B_2021202045_kimyeeun/Assignment 3-3/cpu_scheduler.c:290-300 | SJF and FCFS give `switch_num == num_pc`, and no complete schedule gives less |
| `ScheduleAccounts.SwitchesBound` | OS_Assignment3_B_2021202045_kimyeeun/OS_Assignment3_B_2021202045_kimyeeun/Assignment 3-3/cpu_scheduler.c:292-296 | the switch count is at least the number of different processes in the chart |
| `ScheduleAccounts.SwitchesAreChanges` | OS_Assignment3_B_2021202045_kimyeeun/OS_Assignment3_B_2021202045_kimyeeun/Assignment 3-3/cpu_scheduler.c:292-296 | for every chart the switch count is one more than the number of places where the next tick belongs to another process |
| `ScheduleAccounts.ChartOrder` | OS_Assignment3_B_2021202045_kimyeeun/OS_Assignment3_B_2021202045_kimyeeun/Assignment 3-3/cpu_scheduler.c:71-74 | the chart holds the busy ticks in their order: each stands behind as many as there were before it |
| `ScheduleAccounts.ChartHoldsEveryBurst` | OS_Assignment3_B_2021202045_kimyeeun/OS_Assignment3_B_2021202045_kimyeeun/Assignment 3-3/cpu_scheduler.c:47-231 | every process is in the chart exactly burst times |
| `ScheduleAccounts.ChartLength` | OS_Assignment3_B_2021202045_kimyeeun/OS_Assignment3_B_2021202045_kimyeeun/Assignment 3-3/cpu_scheduler.c:47-231 | the chart is as long as the bursts together |
| `ScheduleAccounts.WaitIsTimeNotRunning` | OS_Assignment3_B_2021202045_kimyeeun/OS_Assignment3_B_2021202045_kimyeeun/Assignment 3-3/cpu_scheduler.c:82-87 | turnaround minus burst is the number of ticks between arrival and finish in which the process did not run |
| `ScheduleAccounts.TurnaroundSplits` | OS_Assignment3_B_2021202045_kimyeeun/OS_Assignment3_B_2021202045_kimyeeun/Assignment 3-3/cpu_scheduler.c:82-90 | total turnaround is total wait plus busy time |
| `ScheduleTallies.TallyTick` | OS_Assignment3_B_2021202045_kimyeeun/OS_Assignment3_B_2021202045_kimyeeun/Assignment 3-3/cpu_scheduler.c:139-149 | a tick changes a total only by finishing a process, and then by that process's amount |
| `ScheduleTallies.CompleteTallies` | OS_Assignment3_B_2021202045_kimyeeun/OS_Assignment3_B_2021202045_kimyeeun/Assignment 3-3/cpu_scheduler.c:139-149 | once all processes are done the running totals are the totals: turnaround, wait, response and busy time |
| `ScheduleTallies.CompletedMeansComplete` | OS_Assignment3_B_2021202045_kimyeeun/OS_Assignment3_B_2021202045_kimyeeun/Assignment 3-3/cpu_scheduler.c:117-153 | the loop's counter reaches the number of processes exactly when every process has had its burst |
| `ScheduleTallies.FirstAndLast` | OS_Assignment3_B_2021202045_kimyeeun/OS_Assignment3_B_2021202045_kimyeeun/Assignment 3-3/cpu_scheduler.c:64-67 | the start of a process is its first tick, and its end is just behind its last one |
| `RoundRobin.RunKeeps` | OS_Assignment3_B_2021202045_kimyeeun/OS_Assignment3_B_2021202045_kimyeeun/Assignment 3-3/cpu_scheduler.c:47-106 | what every turn keeps: the live queue is exact and a process at position q can afford q more slices |
| `RoundRobin.RoundRobinIsFair` | OS_Assignment3_B_2021202045_kimyeeun/OS_Assignment3_B_2021202045_kimyeeun/Assignment 3-3/cpu_scheduler.c:47-106 | a process that runs has waited at most (num_pc - 1) * slice ticks since it arrived or last ran; and the processor idles only when nothing is ready |
| `RoundRobinOrder.NextTurn` | OS_Assignment3_B_2021202045_kimyeeun/OS_Assignment3_B_2021202045_kimyeeun/Assignment 3-3/cpu_scheduler.c:55-100 | a turn in terms of the schedule: if any process is ready, the one that comes before all other ready ones runs for the slice or what it has left, whichever is less, and otherwise one tick is idle; the one that has waited longer since it ran or arrived comes first, a new one before one that has just run, and new ones that came in the same turn as they are listed |
| `RoundRobinOrder.BlocksAreSlices` | OS_Assignment3_B_2021202045_kimyeeun/OS_Assignment3_B_2021202045_kimyeeun/Assignment 3-3/cpu_scheduler.c:66-70 | in every run, a process that stops running unfinished has run for a whole number of slices |
| `RoundRobinOrder.AlwaysSettled` | OS_Assignment3_B_2021202045_kimyeeun/OS_Assignment3_B_2021202045_kimyeeun/Assignment 3-3/cpu_scheduler.c:29-45 | between turns the live part of the ready array is in that order |
| `RoundRobin.LiveQueueIsExact` | OS_Assignment3_B_2021202045_kimyeeun/OS_Assignment3_B_2021202045_kimyeeun/Assignment 3-3/cpu_scheduler.c:29-66 | at each dispatch the live part of the ready array holds every arrived unfinished process exactly once, although the duplicate check scans the used part too |
| `RoundRobin.EnqueueEffect` | OS_Assignment3_B_2021202045_kimyeeun/OS_Assignment3_B_2021202045_kimyeeun/Assignment 3-3/cpu_scheduler.c:29-45 | enqueuing appends distinct ready processes found nowhere in the array, and afterwards every ready process is in it |
| `RoundRobin.HistoryFits` | OS_Assignment3_B_2021202045_kimyeeun/OS_Assignment3_B_2021202045_kimyeeun/Assignment 3-3/cpu_scheduler.c:50-52 | the ready array never needs more entries than the bursts together |
| `ProcessTable.DispatchAgrees` | OS_Assignment3_B_2021202045_kimyeeun/OS_Assignment3_B_2021202045_kimyeeun/Assignment 3-3/cpu_scheduler.c:67-85 | the field updates of a dispatch give the records that the longer schedule calls for, in every process |
| `ProcessTable.ChargeAgrees` | OS_Assignment3_B_2021202045_kimyeeun/OS_Assignment3_B_2021202045_kimyeeun/Assignment 3-3/cpu_scheduler.c:82-90 | the increments of the totals on finishing are those the longer schedule calls for |
| `ProcessTable.FinalRecords` | OS_Assignment3_B_2021202045_kimyeeun/OS_Assignment3_B_2021202045_kimyeeun/Assignment 3-3/cpu_scheduler.c:47-231 | after a complete schedule every record holds its first start, its last end and its wait, with `end`, `remaining` and `burst` as the algorithm leaves them |
| `CpuScheduler.Simulator.constructor` | OS_Assignment3_B_2021202045_kimyeeun/OS_Assignment3_B_2021202045_kimyeeun/Assignment 3-3/cpu_scheduler.c:20-26 | an empty chart and zero totals |
| `CpuScheduler.Simulator.Srtf` | OS_Assignment3_B_2021202045_kimyeeun/OS_Assignment3_B_2021202045_kimyeeun/Assignment 3-3/cpu_scheduler.c:107-156 | terminates with a complete SRTF schedule; chart and totals are those of that schedule, and each record holds its start, end and wait |
| `CpuScheduler.Simulator.FindShortest` | OS_Assignment3_B_2021202045_kimyeeun/OS_Assignment3_B_2021202045_kimyeeun/Assignment 3-3/cpu_scheduler.c:118-127 | the search loop returns the choice the theorems are about |
| `CpuScheduler.Simulator.Rr` | OS_Assignment3_B_2021202045_kimyeeun/OS_Assignment3_B_2021202045_kimyeeun/Assignment 3-3/cpu_scheduler.c:47-106 | terminates with a complete round-robin schedule in which a process that stops unfinished has run whole slices; chart and totals are those of that schedule, and each record holds its start, both ends and its wait |
| `CpuScheduler.Simulator.EnqueueReadyQueue` | OS_Assignment3_B_2021202045_kimyeeun/OS_Assignment3_B_2021202045_kimyeeun/Assignment 3-3/cpu_scheduler.c:29-45 | the nested loops append what the specification appends |
| `CpuScheduler.Simulator.Sjf` | OS_Assignment3_B_2021202045_kimyeeun/OS_Assignment3_B_2021202045_kimyeeun/Assignment 3-3/cpu_scheduler.c:159-202 | terminates with a complete SJF schedule; chart and totals are those of that schedule, each record holds its start, end and wait, and bursts are cleared |
| `CpuScheduler.Simulator.FindShortestBurst` | OS_Assignment3_B_2021202045_kimyeeun/OS_Assignment3_B_2021202045_kimyeeun/Assignment 3-3/cpu_scheduler.c:167-177 | the search with sentinel 1001 returns the ready process with the smallest burst left |
| `CpuScheduler.Simulator.Fcfs` | OS_Assignment3_B_2021202045_kimyeeun/OS_Assignment3_B_2021202045_kimyeeun/Assignment 3-3/cpu_scheduler.c:204-231 | ends with a complete FCFS schedule; chart and totals are those of that schedule, and each record holds its start, end and wait |
| `CpuScheduler.Simulator.CountSwitches` | OS_Assignment3_B_2021202045_kimyeeun/OS_Assignment3_B_2021202045_kimyeeun/Assignment 3-3/cpu_scheduler.c:292-296 | the counter is one more than the number of places in the chart where neighbours differ |
| `SchedulerComparison.SrtfBeatsTheOthers` | OS_Assignment3_B_2021202045_kimyeeun/OS_Assignment3_B_2021202045_kimyeeun/Assignment 3-3/cpu_scheduler.c:47-231 | SRTF has the smallest total turnaround and total wait of the four algorithms |
| `SchedulerComparison.AllFinishTogether` | OS_Assignment3_B_2021202045_kimyeeun/OS_Assignment3_B_2021202045_kimyeeun/Assignment 3-3/cpu_scheduler.c:47-231 | all four end at the same time and idle in the same ticks, FCFS given a list without such a gap, as one sorted by arrival is |
| `SchedulerComparison.SwitchCounts` | OS_Assignment3_B_2021202045_kimyeeun/OS_Assignment3_B_2021202045_kimyeeun/Assignment 3-3/cpu_scheduler.c:290-300 | SJF and FCFS switch once per process, RR and SRTF at least as often |
| `SchedulerComparison.ReportConserves` | OS_Assignment3_B_2021202045_kimyeeun/OS_Assignment3_B_2021202045_kimyeeun/Assignment 3-3/cpu_scheduler.c:47-231 | what each algorithm reports: turnaround is wait plus busy, response is the sum of first run minus arrival, busy is the chart length, every process is in the chart burst times, every wait is time not running |
| `FatStructure.EveryRunIsStructured` | OS_Assignment5_B_2021202045_kimyeeun/OS_Assignment5_B_2021202045_kimyeeun/Assignment5-2/fat.c:61-227 | from a zeroed disk, every run that extends chains only while block 0 is allocated keeps distinct names and acyclic, disjoint, properly ended chains of used blocks; one ending in 0xFFFF has one block whose text covers the size |
| `FatStructure.RunsStayStructured` | OS_Assignment5_B_2021202045_kimyeeun/OS_Assignment5_B_2021202045_kimyeeun/Assignment5-2/fat.c:61-227 | the same from any structured disk |
| `FatStructure.GrowthIsSoundIff` | OS_Assignment5_B_2021202045_kimyeeun/OS_Assignment5_B_2021202045_kimyeeun/Assignment5-2/fat.c:121-144 | when the text does not fit into the first block and a block is free, the blocks taken form a chain behind the start if and only if block 0 was in use |
| `FatStructure.CreateKeeps` | OS_Assignment5_B_2021202045_kimyeeun/OS_Assignment5_B_2021202045_kimyeeun/Assignment5-2/fat.c:61-88 | a create gives the new file a chain of one block of its own |
| `FatStructure.WriteKeeps` | OS_Assignment5_B_2021202045_kimyeeun/OS_Assignment5_B_2021202045_kimyeeun/Assignment5-2/fat.c:90-154 | a write replaces the chain of its file and spares the others |
| `FatStructure.DeleteKeeps` | OS_Assignment5_B_2021202045_kimyeeun/OS_Assignment5_B_2021202045_kimyeeun/Assignment5-2/fat.c:202-227 | a delete removes one file and its chain |
| `FatStructure.DeleteFreesTheChain` | OS_Assignment5_B_2021202045_kimyeeun/OS_Assignment5_B_2021202045_kimyeeun/Assignment5-2/fat.c:208-214 | following the links frees exactly the file's chain |
| `FatStructure.StructuredIsUsable` | OS_Assignment5_B_2021202045_kimyeeun/OS_Assignment5_B_2021202045_kimyeeun/Assignment5-2/fat.c:176-214 | on a structured disk the links that a read follows stay in the table, and those that a delete follows come to an end |
| `FatStructure.EndsInTime` | OS_Assignment5_B_2021202045_kimyeeun/OS_Assignment5_B_2021202045_kimyeeun/Assignment5-2/fat.c:208-214 | a delete that ends at all ends within one step more than there are blocks, although it frees the entries it follows |
| `Fat.WriteCode` | OS_Assignment5_B_2021202045_kimyeeun/OS_Assignment5_B_2021202045_kimyeeun/Assignment5-2/fat.c:90-154 | a write returns 0 if the file exists and has grown by the whole text, and otherwise -1 |
| `Fat.CreateCode` | OS_Assignment5_B_2021202045_kimyeeun/OS_Assignment5_B_2021202045_kimyeeun/Assignment5-2/fat.c:61-88 | a create returns 0 if the name is new, an entry is unused and a block is free, and then the first such entry and block are the file; otherwise it returns -1 and changes nothing |
| `Fat.DeleteCode` | OS_Assignment5_B_2021202045_kimyeeun/OS_Assignment5_B_2021202045_kimyeeun/Assignment5-2/fat.c:202-227 | a delete returns 0 and clears the file's entry, bytes kept, if the file exists; otherwise it returns -1 and changes nothing |
| `Fat.ReadFinds` | OS_Assignment5_B_2021202045_kimyeeun/OS_Assignment5_B_2021202045_kimyeeun/Assignment5-2/fat.c:157-196 | a read finds the file exactly if the name is in the directory |
| `FatContents.OthersUnchanged` | OS_Assignment5_B_2021202045_kimyeeun/OS_Assignment5_B_2021202045_kimyeeun/Assignment5-2/fat.c:61-227 | a create, write or delete on a structured disk leaves what `read_file` prints for every other file unchanged, even a write that goes wrong by linking to block 0 |
| `FatContents.WriteTakesFree` | OS_Assignment5_B_2021202045_kimyeeun/OS_Assignment5_B_2021202045_kimyeeun/Assignment5-2/fat.c:121-144 | every block a write takes was free before or is the one it started from |
| `FatContents.WriteAccountsIff` | OS_Assignment5_B_2021202045_kimyeeun/OS_Assignment5_B_2021202045_kimyeeun/Assignment5-2/fat.c:90-154 | a write leaks no block if and only if the text fits into the first block, or no block is free, or the file has one block |
| `FatContents.EveryRunIsAccounted` | OS_Assignment5_B_2021202045_kimyeeun/OS_Assignment5_B_2021202045_kimyeeun/Assignment5-2/fat.c:61-227 | from a zeroed disk, while only one-block files are extended, used blocks equal the sum of live chain lengths |
| `FatContents.UsedIsSum` | OS_Assignment5_B_2021202045_kimyeeun/OS_Assignment5_B_2021202045_kimyeeun/Assignment5-2/fat.c:61-227 | if every used block is in a chain, their number is the total length of the chains |
| `FatLogs.ReadsWhatWasWritten` | OS_Assignment5_B_2021202045_kimyeeun/OS_Assignment5_B_2021202045_kimyeeun/Assignment5-2/fat.c:90-197 | the round trip: from a zeroed disk, in every run without deletes that rewrites no file longer than a block, a file reads as everything written to it, cut where space ran out |
| `FatLogs.ReadsWhatWasWrittenSince` | OS_Assignment5_B_2021202045_kimyeeun/OS_Assignment5_B_2021202045_kimyeeun/Assignment5-2/fat.c:61-227 | the round trip with deletes: in every run in which each block handed out is empty at that time, no file longer than a block is rewritten and no chain is extended while block 0 is free, a file is found exactly if it has been created and not deleted, and reads as everything written to it since |
| `FatLogs.RunsStayKept` | OS_Assignment5_B_2021202045_kimyeeun/OS_Assignment5_B_2021202045_kimyeeun/Assignment5-2/fat.c:61-227 | such runs keep the structure, and every file's size equal to what it prints |
| `FatRoundTrip.WriteAppends` | OS_Assignment5_B_2021202045_kimyeeun/OS_Assignment5_B_2021202045_kimyeeun/Assignment5-2/fat.c:104-145 | if the blocks taken were empty, reading from the first block gives the text there was and exactly the bytes counted |
| `FatRoundTrip.WriteIsFaithfulIff` | OS_Assignment5_B_2021202045_kimyeeun/OS_Assignment5_B_2021202045_kimyeeun/Assignment5-2/fat.c:90-154 | on such a disk a write appends exactly the counted bytes if and only if the file is at most a block long, or there is nothing to write, or no block is left |
| `FatRoundTrip.LosesTheTail` | OS_Assignment5_B_2021202045_kimyeeun/OS_Assignment5_B_2021202045_kimyeeun/Assignment5-2/fat.c:92-94 | a write that takes a block for a larger file loses what lay behind its first block |
| `FatLogs.RunsStayClean` | OS_Assignment5_B_2021202045_kimyeeun/OS_Assignment5_B_2021202045_kimyeeun/Assignment5-2/fat.c:90-154 | runs without deletes that rewrite no file longer than a block keep free blocks empty and every file's size equal to what it prints |
| `FatReadBack.WriteKeepsText` | OS_Assignment5_B_2021202045_kimyeeun/OS_Assignment5_B_2021202045_kimyeeun/Assignment5-2/fat.c:102-116 | a write keeps the bytes that any block already has, wherever it goes |
| `FatReadBack.EmptyFileReadsBackIff` | OS_Assignment5_B_2021202045_kimyeeun/OS_Assignment5_B_2021202045_kimyeeun/Assignment5-2/fat.c:102-145 | on any structured disk: every text, however long, that is written to an empty file is read back as far as it was stored, if and only if the file's block and the free ones in ascending order are empty ones and then full ones; while block 0 is free, the free ones below the file's block have to be full, and only those above count |
| `FatReadBack.ReadBack` | OS_Assignment5_B_2021202045_kimyeeun/OS_Assignment5_B_2021202045_kimyeeun/Assignment5-2/fat.c:104-145 | one half of it: through empty blocks and then full ones, what is stored is read back |
| `FatReadBack.StaleShows` | OS_Assignment5_B_2021202045_kimyeeun/OS_Assignment5_B_2021202045_kimyeeun/Assignment5-2/fat.c:104-145 | the other: where a block with bytes comes before one with room, a text that fills the disk reads as those bytes instead |
| `FatReadBack.PassTo` | OS_Assignment5_B_2021202045_kimyeeun/OS_Assignment5_B_2021202045_kimyeeun/Assignment5-2/fat.c:121-144 | a write that does not end before comes to a given free block after all those below it, having stored nothing exactly if they are full |
| `FatReadBack.LostInBetween` | OS_Assignment5_B_2021202045_kimyeeun/OS_Assignment5_B_2021202045_kimyeeun/Assignment5-2/fat.c:121-144 | a write that links to block 0 and comes back to its first block cannot read what it stored in between |
| `FatReadBack.OneBlockReadsBackIff` | OS_Assignment5_B_2021202045_kimyeeun/OS_Assignment5_B_2021202045_kimyeeun/Assignment5-2/fat.c:102-116 | on any structured disk: every text of at most a block is read back from an empty file if and only if the file's block is empty |
| `FatRuns.DeletedBytesReturn` | OS_Assignment5_B_2021202045_kimyeeun/OS_Assignment5_B_2021202045_kimyeeun/Assignment5-2/fat.c:202-220 | from a zeroed disk: create, write, delete, create, write; the file then reads as the old file's bytes, cut to the new length, whatever was written |
| `FatRuns.EmptyBlockIsNotEnough` | OS_Assignment5_B_2021202045_kimyeeun/OS_Assignment5_B_2021202045_kimyeeun/Assignment5-2/fat.c:202-220 | from a zeroed disk: create two files, write to the second and delete it; a text written to the first, whose block is empty, is then not read back |
| `FatRuns.RewritingLosesAndLeaks` | OS_Assignment5_B_2021202045_kimyeeun/OS_Assignment5_B_2021202045_kimyeeun/Assignment5-2/fat.c:90-154 | from a zeroed disk: create a file, write two blocks; any further text written to it loses the tail and leaks the second block |
| `FatRuns.BlockGivenTwice` | OS_Assignment5_B_2021202045_kimyeeun/OS_Assignment5_B_2021202045_kimyeeun/Assignment5-2/fat.c:121-144 | from a zeroed disk: create two files, delete the first, write two blocks to the second; no chain results, and the next file created starts in the second one's block |
| `FatFileSystem.FileSystem.constructor` | OS_Assignment5_B_2021202045_kimyeeun/OS_Assignment5_B_2021202045_kimyeeun/Assignment5-2/fat.c:18-25 | the zeroed state the program starts from |
| `FatFileSystem.FileSystem.CreateFile` | OS_Assignment5_B_2021202045_kimyeeun/OS_Assignment5_B_2021202045_kimyeeun/Assignment5-2/fat.c:61-88 | FAT, directory and data area after a create, and its result, for every outcome; 0 exactly if the name is new, an entry is unused and a block is free |
| `FatFileSystem.FileSystem.WriteFile` | OS_Assignment5_B_2021202045_kimyeeun/OS_Assignment5_B_2021202045_kimyeeun/Assignment5-2/fat.c:90-154 | the same for a write, byte for byte, running out of space included: 0 exactly if the file exists and has grown by the whole text, otherwise -1; the loop terminates even when it links to block 0 |
| `FatFileSystem.FileSystem.ReadFile` | OS_Assignment5_B_2021202045_kimyeeun/OS_Assignment5_B_2021202045_kimyeeun/Assignment5-2/fat.c:157-197 | the bytes printed are the file's content, and the result is 0 exactly if the file exists; the loop looks for -1 only, and needs no more than that the links followed stay in the table |
| `FatFileSystem.FileSystem.DeleteFile` | OS_Assignment5_B_2021202045_kimyeeun/OS_Assignment5_B_2021202045_kimyeeun/Assignment5-2/fat.c:202-227 | the same state equality for a delete, in place while the links are followed, with result 0 exactly if the file exists; the loop needs no more than that they come to an end |
| `ProcessTree.WalkProcessTree` | OS_Assignment3_B_2021202045_kimyeeun/OS_Assignment3_B_2021202045_kimyeeun/Assignment 3-1/fork.c:2675-2705 | the goto-based walk terminates on every well-formed finite process tree; it visits the sequence of the recursive preorder walk, which is each child of the top group and of every group entered, once, in preorder, up to the first negative answer |
| `ProcessTree.PreorderIsInOrder` | OS_Assignment3_B_2021202045_kimyeeun/OS_Assignment3_B_2021202045_kimyeeun/Assignment 3-1/fork.c:2681-2695 | the tasks visited are at the ends of paths from the top that are in preorder; each path goes on from the top or from an earlier task that was entered, and nothing below such a task is missing before the end |
| `ProcessTree.InOrderMeansEachOnce` | OS_Assignment3_B_2021202045_kimyeeun/OS_Assignment3_B_2021202045_kimyeeun/Assignment 3-1/fork.c:2681-2695 | hence no task is visited twice, each comes after the one whose group it belongs to, siblings come in list order, and without a negative answer all children of the groups entered are visited |
| `ProcessTree.OnePath` | OS_Assignment3_B_2021202045_kimyeeun/OS_Assignment3_B_2021202045_kimyeeun/Assignment 3-1/fork.c:2697-2701 | a task is at the end of one path only |
| `ProcessTree.WalkStopsAtNegative` | OS_Assignment3_B_2021202045_kimyeeun/OS_Assignment3_B_2021202045_kimyeeun/Assignment 3-1/fork.c:2685-2692 | the walk is cut exactly at the first negative answer of the visitor |
| `ProcessTree.LinksLeadBack` | OS_Assignment3_B_2021202045_kimyeeun/OS_Assignment3_B_2021202045_kimyeeun/Assignment 3-1/fork.c:2697-2701 | `real_parent` and `group_leader` lead from a task to the thread and group it was entered from |
| `ProcessTree.TopIffNoPath` | OS_Assignment3_B_2021202045_kimyeeun/OS_Assignment3_B_2021202045_kimyeeun/Assignment 3-1/fork.c:2697 | `leader != top` holds exactly while some group is waiting to be resumed |
| `ProcessTree.Climbed` | OS_Assignment3_B_2021202045_kimyeeun/OS_Assignment3_B_2021202045_kimyeeun/Assignment 3-1/fork.c:2697-2701 | climbing resumes the parent's group behind the child just walked |
| `ProcessTree.NextSibling` | OS_Assignment3_B_2021202045_kimyeeun/OS_Assignment3_B_2021202045_kimyeeun/Assignment 3-1/fork.c:2693-2695 | the jump into the list loop goes on with the next sibling |
| `MaxThreads.ExactIff` | OS_Assignment3_B_2021202045_kimyeeun/OS_Assignment3_B_2021202045_kimyeeun/Assignment 3-1/fork.c:765-784 | the guarded 64-bit formula equals the exact one for all memories and suggestions if and only if THREAD_SIZE is at most 2^30 + 1 |
| `MaxThreads.LimitIsExact` | OS_Assignment3_B_2021202045_kimyeeun/OS_Assignment3_B_2021202045_kimyeeun/Assignment 3-1/fork.c:765-784 | in that case nothing is cut to 64 bits and the result is the clamp of min(exact quotient, suggestion) |
| `MaxThreads.ExactIsLimit` | OS_Assignment3_B_2021202045_kimyeeun/OS_Assignment3_B_2021202045_kimyeeun/Assignment 3-1/fork.c:765-784 | what the exact formula means, in terms of products only |
| `MaxThreads.GuardedProductFits` | OS_Assignment3_B_2021202045_kimyeeun/OS_Assignment3_B_2021202045_kimyeeun/Assignment 3-1/fork.c:774-778 | when the bit-length guard does not fire the product fits into 64 bits, whatever THREAD_SIZE |
| `MaxThreads.GuardFiresOnLargeProducts` | OS_Assignment3_B_2021202045_kimyeeun/OS_Assignment3_B_2021202045_kimyeeun/Assignment 3-1/fork.c:774-775 | when it fires the product is at least 2^63 |
| `MaxThreads.ThreadLimits.SetMaxThreads` | OS_Assignment3_B_2021202045_kimyeeun/OS_Assignment3_B_2021202045_kimyeeun/Assignment 3-1/fork.c:765-784 | the assignments to `max_threads` give that formula; for all 64-bit memories and THREAD_SIZE up to 2^30 + 1 this is the smaller one of the suggestion and the number of units of eight stacks that fit into memory, moved into [20, 0x3fffffff] |
| `ForkSum.Conserved` | OS_Assignment3_B_2021202045_kimyeeun/OS_Assignment3_B_2021202045_kimyeeun/Assignment 3-2/fork.c:11-47 | for every reaping order, what a call returns and leaves unreaped differs from the numbers and what was unreaped before by a multiple of 256 |
| `ForkSum.SumModulo256` | OS_Assignment3_B_2021202045_kimyeeun/OS_Assignment3_B_2021202045_kimyeeun/Assignment 3-2/fork.c:11-47 | for every reaping order the sum is right modulo 256, every child is reaped once, and n - 1 lines are logged |
| `ForkSum.TwoNumbersTotal` | OS_Assignment3_B_2021202045_kimyeeun/OS_Assignment3_B_2021202045_kimyeeun/Assignment 3-2/fork.c:23-46 | of two numbers the first comes through an exit code, modulo 256, and the second is reduced modulo 256 if it is above 256 |
| `ForkExact.EveryOrderIsExactIff` | OS_Assignment3_B_2021202045_kimyeeun/OS_Assignment3_B_2021202045_kimyeeun/Assignment 3-2/fork.c:11-47 | non-negative numbers are summed exactly in every reaping order if and only if, for every process, each left half it hands to a child fits into an exit code, and its numbers without the smallest of these halves come to at most 256 |
| `ForkExact.TotalIsExactIff` | OS_Assignment3_B_2021202045_kimyeeun/OS_Assignment3_B_2021202045_kimyeeun/Assignment 3-2/fork.c:23-28 | 255 is the exact bound on the total: all non-negative arrays with a given sum are summed exactly in every order if and only if it is at most 255 |
| `ForkExact.LargerSumsAreLost` | OS_Assignment3_B_2021202045_kimyeeun/OS_Assignment3_B_2021202045_kimyeeun/Assignment 3-2/fork.c:23-28 | for every larger sum, an array on which no order gives it |
| `ForkExact.NothingLost` | OS_Assignment3_B_2021202045_kimyeeun/OS_Assignment3_B_2021202045_kimyeeun/Assignment 3-2/fork.c:11-47 | in every order, what a call returns and leaves unreaped is exactly what there was, as long as all but the smallest of the codes and left halves comes to at most 256 |
| `ForkExact.InexactLoses` | OS_Assignment3_B_2021202045_kimyeeun/OS_Assignment3_B_2021202045_kimyeeun/Assignment 3-2/fork.c:11-47 | on any other non-negative array some order returns too little |
| `ForkSum.Process.Wait` | OS_Assignment3_B_2021202045_kimyeeun/OS_Assignment3_B_2021202045_kimyeeun/Assignment 3-2/fork.c:37 | `wait` removes some unreaped child and returns its shifted exit code |
| `ForkSum.Process.Sum` | OS_Assignment3_B_2021202045_kimyeeun/OS_Assignment3_B_2021202045_kimyeeun/Assignment 3-2/fork.c:11-47 | the recursive call follows the specification for the order in which the kernel happened to reap |
| `ForkSum.ThreadSum` | OS_Assignment3_B_2021202045_kimyeeun/OS_Assignment3_B_2021202045_kimyeeun/Assignment 3-2/thread.c:16-55 | the threads' sum is exact whichever half finishes first, and n - 1 lines are logged |

## Left out

- FatFileSystem.FileSystem.ReadFile: asks that the links it follows stay in the table; the C loop indexes the table with whatever it finds there. The final newline is not part of the output.
- FatFileSystem.FileSystem.DeleteFile: asks that the links it follows come to an end; the C loop would leave the table, or follow block 0 to itself for ever.
- FatLogs.ReadsWhatWasWrittenSince: excludes handing out blocks that hold bytes, rewriting files longer than a block, and extending a chain while block 0 is free; after each of these a file may read as something else.
- FatLogs.ReadsWhatWasWritten: the case without deletes, in which the first and the last of these cannot occur.
- ProcessTree.WalkProcessTree: the lists are sequences in a table that the walk only reads, the visitor is a function of the tasks visited so far, and the lock around the walk is not modelled; that ranks fall from parents to children is assumed of a finite tree.
- CpuScheduler.Simulator.Rr: the bodies of the scheduling loops are methods of their own (`RrTurn`, `SrtfTurn`, `SjfTurn`, `FcfsTurn`); otherwise the loops are those of the program.
- ForkSum.Process.Sum: processes differ only in their unreaped children; failing `fork` calls and the width of C integers are not modelled.
- ForkSum.ThreadSum: the two halves finish in either order, but their steps are not interleaved; they share no data.
- The "not initialized" branches of `write_file` and `read_file`: no entry found by a non-empty name has -1 as its start block.
- The widths of C integers, except for the 64-bit arithmetic of `set_max_threads` and the 8-bit exit codes.
- `list_files`, `save_file_system`, `load_file_system`, command dispatch, and all printing and parsing of input.
- The averages and the CPU utilisation that the scheduler prints, which are floating-point quotients of the totals modelled here; `burstArr`, which FCFS writes and nothing reads.
- The page fault rates, which are floating-point quotients of the counts modelled here.
- The contents and order of the lines that the two sums log; only their number is modelled.
- Growing a process tree as `copy_process` does: the links it leaves are an assumption on the tree.
- The `ls`, HTML and web server programs, the kernel modules, `backend.c` and the rest of the kernel's `fork.c`.
