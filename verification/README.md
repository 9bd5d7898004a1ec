# SchedOS, modelled and proved in Dafny

SchedOS is a small teaching kernel that runs a handful of applications under one of five
scheduling algorithms. The applications share one console cursor, guarded either by a spin
lock or by a print system call; a formatter writes numbers and strings to the console; a
host program lays out the boot disk; a boot loader and a program loader bring ELF segments
into memory. This project models all of that and proves what each part is for.

The parts:

- `Processes`, `Search`, `Steps`, `Choices`, `Kernel`: the process table, the five search loops of
  `schedule()`, one step of the kernel (`interrupt`, `schedule`, `run`), and the kernel as
  a class whose methods update it in place. `Processes` says in one predicate per algorithm
  which process is meant; `Search` holds the loops and proves that they find it.
- `Runs`, `Rounds`, `Words`, `Temper`, `TemperBits`, `Lottery`: whole runs for arbitrary programs and
  interrupts. Turn-taking of round robin and of tied priorities, proportional share over
  any number of rounds, fairness of the lottery counted over all 2^32 seeds.
- `PrintLog`, `Apps`, `Finishing`, `Order`, `SpinLock`, `LockOrder`, `LockLiveness`: the applications.
  Both variants refine one append-only log of prints; every run can be completed; without
  clock interrupts the output order is known cell by cell.
- `Numbers`, `Format`, `Directives`, `Console`, `Memory`: the formatter, the console cursor, and the
  copying routines on one aliased memory.
- `DiskImage`, `MkBootDisk`, `Elf`, `Boot`, `Loader`: the disk layout, the program that
  writes it, and the two loaders, composed end to end.

Conventions. NPROCS, RUNCOUNT, priorities, shares, tickets, the characters and the number of
applications are symbolic. `unsigned` values are 32-bit words and wrap where the code's do.
`run` never returns, so `schedule` ends in a dispatch and the fall-through between the cases
of `interrupt` cannot happen. A search loop of the source that never exits is cut where its
variables have come back to values they already had; its method then answers None, and its
contract says exactly when. The cycle counter is a given sequence of seeds, `write()` a
given sequence of outcomes; saved registers are the interrupt number, %eax and the place in
the application's loop.

Where the code and its own text differ, the code is followed. `schedule()` announces that it
spins when no process is runnable; but algorithm 4B also spins when processes are runnable
and all of their share amounts are zero (`Steps.ShareSelectable`, `Steps.ZeroShareSpins`),
and the lottery redraws for ever when no runnable process has a ticket below its sum
(`Lottery.LotterySelectable`, `Lottery.ExitedTicketsRedraw`) and divides by zero when the
32-bit ticket total is zero (`Steps.ZeroTicketsDivide`). A total that wraps can take tickets
away from their owners; `Lottery.OwnershipIsExact` says exactly when it does not, and
`Lottery.OverflowLosesTickets` is a table on which it does. `copyseg` rounds its destination
down but not its source, so it meets its own comment for page-aligned segments
(`Loader.AlignmentIsExact` has the exact condition).

## Model

| member | source | states |
|---|---|---|
| Cyclic.StepIsRemainder | schedos-kern.c:267 | the `(pid + 1) % NPROCS` of every search is one step round the table |
| Search.RoundRobin | schedos-kern.c:265-274 | finds the first runnable slot stepping forward from the current one; spins exactly when none is runnable |
| Search.Strict | schedos-kern.c:275-281 | finds the first runnable slot in the order 1, 2, ..., 0 |
| Search.PriorityPass | schedos-kern.c:285-293 | one pass succeeds exactly when its start is runnable or lets someone through, and then names the last of the best in scan order |
| Search.Priority | schedos-kern.c:283-295 | the do-while ends within NPROCS passes with a runnable process of least priority value, chosen from the nearest pass start that succeeds; never when none is runnable |
| Search.FindEligible | schedos-kern.c:303-307 | the first eligible slot after the start, which itself is not looked at |
| Search.FindLargestShare | schedos-kern.c:311-320 | the largest amount among the eligible, the first in scan order on ties |
| Search.StartRound | schedos-kern.c:327-328 | every slot but slot 0 gets its full share, nothing else changes |
| Search.SameWinner | schedos-kern.c:303-320 | the winner does not depend on where the scan opens |
| Search.SharePass | schedos-kern.c:301-323 | one turn of the endless loop finds the winner or leaves only its own start unexamined |
| Search.RefillTwice | schedos-kern.c:327-328 | a second refill in one call changes nothing |
| Search.Share | schedos-kern.c:296-333 | at most three passes; the current process while it has share, else the largest share, refilled exactly when no runnable process had any; the winner pays one unit |
| Search.Chain | schedos-kern.c:357-364 | the first link that fires, for a table of any length and sums cut to 32 bits |
| Search.LotteryTotal | schedos-kern.c:336-340 | the ticket sum modulo 2^32 |
| Search.Draw | schedos-kern.c:342-365 | the first seed that is not redrawn decides; it answers None exactly when all given seeds are redrawn |
| Steps.HandleEffect | schedos-kern.c:173-220 | the effect of an interrupt before schedule(), field by field and by its number (32, 48 to 53): only the caller's record changes, it stays runnable unless it exits, each call sets its one amount, a new share amount is whole, only a print writes the console |
| Steps.DispatchKeeps | schedos-kern.c:250-366 | schedule() picks a runnable process and changes nothing but shares, which stay within their amounts |
| Steps.StepKeepsGood | schedos-kern.c:95-127 | pids are indices, slot 0 is empty, the interrupted process is runnable, shares are within their amounts: kept by every step for every program |
| Steps.StepNeverRevives | schedos-kern.c:182-192 | nothing becomes runnable again; an exited process keeps its record |
| Steps.DispatchExists | schedos-kern.c:265-366 | each of the five algorithms can choose exactly when its condition on the table holds: a runnable process, for 4B one with share after a refill, for the lottery a positive 32-bit total and a link that fires for ticket 0 |
| Steps.ZeroShareSpins | schedos-kern.c:206-212 | a sole process that gives itself share 0 leaves 4B spinning |
| Steps.ZeroTicketsDivide | schedos-kern.c:213-216 | a sole process that gives itself no tickets leaves a total of zero |
| Steps.ShareSelectable | schedos-kern.c:296-333 | 4B can end exactly when a runnable process has a positive amount |
| Steps.DispatchUnique | schedos-kern.c:265-333 | algorithms 0, 2, 4A and 4B leave only one choice |
| Choices.RoundRobinInFull | schedos-kern.c:265-274 | in slots `(pid + k) % NPROCS`: the choice is runnable and no slot stepped over is |
| Choices.StrictInFull | schedos-kern.c:275-281 | the runnable process with the least pid |
| Choices.PriorityInFull | schedos-kern.c:283-295 | a runnable process of least priority value, with the start of the pass and the position among the tied given in steps |
| Choices.ShareInFull | schedos-kern.c:296-333 | the current process while it has share, else the largest amount and the first of them, on the table after a refill of every slot but 0 exactly when nobody runnable has share, less one unit |
| KernelCode.Kernel.constructor | schedos-kern.c:84-148 | start() leaves the booted state: n-1 runnable processes with amounts 1, process 1 running |
| KernelCode.Kernel.Run | schedos-x86.c:312-323 | the chosen process is current and its saved registers are restored |
| KernelCode.Kernel.Schedule | schedos-kern.c:250-371 | the dispatch of the algorithm exactly when it can choose, or the exact condition for spinning, dividing by zero, or stopping; a lottery no ticket can win redraws whatever the seeds |
| KernelCode.Kernel.Lottery | schedos-kern.c:334-366 | the lottery's outcome for the seeds it is shown |
| KernelCode.Kernel.Enter | schedos-kern.c:168-233 | saving the registers and the switch, with the new kernel state |
| KernelCode.Kernel.Interrupt | schedos-kern.c:168-233 | handling followed by a dispatch is one step of the kernel state, with the outcome of each algorithm; otherwise the state is the handled one |
| Runs.EveryStateIsGood | schedos-kern.c:168-371 | the invariant holds in every state of every run |
| Runs.RunnableBefore | schedos-kern.c:182-192 | what is runnable late in a run was runnable all along |
| Runs.ExitedForGood | schedos-kern.c:182-192 | an exited process stays exited, with its status |
| Runs.RegistersRestored | schedos-kern.c:171-173 | a process gets back the registers with which it last entered the kernel |
| Runs.TurnTaken | schedos-kern.c:266-273 | a move to the nearest of a group passes the turn between two members exactly when it is a move to one of them |
| Runs.RoundRobinBalance | schedos-kern.c:265-274 | the difference of two dispatch counts over any stretch is decided by whose turn it is at its ends |
| Runs.RoundRobinWindow | schedos-kern.c:265-274 | in any window two runnable processes differ by at most one dispatch |
| Runs.RoundRobinAlternates | schedos-kern.c:265-274 | between two consecutive dispatches of p every other runnable process is dispatched exactly once |
| Runs.StrictNondecreasing | schedos-kern.c:275-281 | algorithm 2 dispatches pids in nondecreasing order |
| Runs.PriorityTie | schedos-kern.c:284-295 | from a runnable process 4A chooses its nearest predecessor among the tied best, itself only when alone |
| Runs.TiedTakeTurns | schedos-kern.c:284-295 | absent exits and priority changes, only best processes are dispatched, each the predecessor of the one before |
| Runs.TiedBalance | schedos-kern.c:284-295 | the counts of two tied processes differ by whose turn it is |
| Runs.AllDispatchesAreBest | schedos-kern.c:284-295 | the dispatches of the tied processes add up to the length of the window |
| Runs.TiedRotate | schedos-kern.c:284-295 | each of k tied processes is dispatched exactly once in every k consecutive dispatches |
| Rounds.ShareStep | schedos-kern.c:296-333 | one step changes what a process has left by a refill and by its own dispatch only |
| Rounds.DispatchesSinceRefill | schedos-kern.c:296-333 | from a refill on, dispatches equal the amount for each later refill plus what is used of the last |
| Rounds.ProportionalShare | schedos-kern.c:296-333 | dispatch counts are in proportion to the amounts: the cross products differ by at most one product of the amounts |
| Rounds.RoundIsExact | schedos-kern.c:296-333 | a complete round dispatches a process exactly as often as its amount says |
| Rounds.SpentUntilRefill | schedos-kern.c:296-333 | a process with nothing left waits for the next refill |
| Rounds.RoundIsContiguous | schedos-kern.c:297-299 | within a round the dispatches of a process are contiguous |
| Words.WordOfValue | schedos-kern.c:343-355 | a 32-bit word is determined by its value |
| Words.ValueOfWordOf | schedos-kern.c:343-355 | every number below 2^32 is the value of a word |
| Temper.Undo2AfterStep2 | schedos-kern.c:352 | the second shift-xor step can be undone |
| Temper.Step2AfterUndo2 | schedos-kern.c:352 | and is onto |
| Temper.Step4IsIdentity | schedos-kern.c:354 | the last step changes nothing under its mask |
| Temper.IsPermutation | schedos-kern.c:351-354 | the four steps are a permutation of 32-bit words |
| Temper.ScrambleIsPermutation | schedos-kern.c:343-354 | and of the numbers below 2^32 |
| TemperBits.TemperIsLinear | schedos-kern.c:351-354 | which permutation it is: an exclusive or of seeds becomes the exclusive or of their images |
| TemperBits.TemperOfBits | schedos-kern.c:351-354 | and the image of each of the 32 bits, as a literal word |
| TemperBits.ScrambleIsLinear | schedos-kern.c:343-354 | the same of the numbers the lottery divides |
| TemperBits.ScrambleOfBits | schedos-kern.c:343-354 | and the image of each power of two, as a literal number |
| Lottery.WinnerOwns | schedos-kern.c:357-364 | the chain selects exactly the owner of the ticket, who inherits the tickets of exited predecessors |
| Lottery.RedrawTickets | schedos-kern.c:342-364 | a redraw happens exactly at or above the prefix of the last runnable process |
| Lottery.LotterySelectable | schedos-kern.c:342-365 | the lottery can end exactly when a ticket below the last runnable process's prefix exists |
| Lottery.RedrawsForever | schedos-kern.c:342-365 | it can end exactly when some value of the cycle counter is not redrawn |
| Lottery.ExitedTicketsRedraw | schedos-kern.c:342-365 | with one runnable process without tickets and an exited one with a ticket every seed is redrawn |
| Lottery.TicketsPartition | schedos-kern.c:357-364 | every ticket is won by exactly one runnable process or redrawn |
| Lottery.AllRunnableOwnTheirOwn | schedos-kern.c:357-364 | with all processes runnable each owns exactly its own amount |
| Lottery.FourWayChain | schedos-kern.c:357-364 | for four processes the winner is that of the if-chain as it is written, with sums that wrap |
| Lottery.TotalOfFive | schedos-kern.c:336-340 | the total of five slots, with wrap-around |
| Lottery.SeedExample | schedos-kern.c:343-364 | four processes with a ticket each and the counter at 2048: ticket 1, process 2 |
| Lottery.OwnershipIsExact | schedos-kern.c:336-364 | every owner wins with each of its tickets exactly when the 32-bit total reaches the prefix of the last runnable process, wrapped or not |
| Lottery.NoOverflowKeeps | schedos-kern.c:336-340 | a total below 2^32 is enough for that |
| Lottery.ResidueCount | schedos-kern.c:355 | how many numbers below m leave a remainder in a given interval |
| Lottery.SeedsAreResidues | schedos-kern.c:343-364 | the winning seeds of a process are as many as the numbers with its remainders |
| Lottery.Fairness | schedos-kern.c:335-365 | over all 2^32 seeds an owner of t tickets out of L wins between t*floor(2^32/L) and t*ceil(2^32/L) of them |
| Apps.EntryStep | schedos-1.c:38-56 | an entry into the kernel is the caller's next call and changes only its place and the console |
| Apps.SysPrintRefinesLog | schedos-kern.c:218-220 | the system-call variant refines the log: a print appends its author, other steps leave it alone |
| Apps.RunShowsLog | schedos-1.c:38-56 | in every run the console is exactly the log, with each process's prints counted by its place |
| Apps.CallsFollowScript | schedos-1.c:38-56 | the calls of a process are a prefix of R times print then yield, then exit, under any algorithm and any clock ticks |
| Apps.ScriptInNumbers | schedos-1.c:38-56 | the script is 53, 48, R times, then 49 |
| Apps.CallsInNumbers | schedos-1.c:38-56 | the calls with their numbers: a print carries the character, an exit the status 0 |
| Apps.ExitStatusIsZero | schedos-1.c:56 | in every state of a run an exited process has status 0 |
| Apps.CallsAreCounted | schedos-1.c:38-56 | the calls of a run are the sum of the places, so each call lowers what remains |
| Apps.CallsAreBounded | schedos-1.c:38-56 | at most 2R+1 calls for each process |
| Apps.NeverStuck | schedos-kern.c:250-366 | as long as a process is runnable some dispatch exists, under all five algorithms |
| Apps.Completion | schedos-1.c:38-56 | when nothing is runnable every process has finished with status 0 and the console holds R copies of each in n*R distinct cells, inside the console when n*R <= 2000 |
| Apps.HaltedMeansCompleted | schedos-1.c:38-56 | under all five algorithms a run can go on exactly while a process is runnable, and one that cannot go on has completed |
| Finishing.RunCanComplete | schedos-1.c:38-56 | every run, however many clock ticks it has had, continues by calls alone to completion, under all five algorithms |
| PrintLog.LogLength | schedos-1.c:38-51 | a log in which each of n authors occurs R times has n*R entries |
| Order.RoundRobinState | schedos-kern.c:265-274 | without clock ticks every state of algorithm 0 is some number of full turns and some further calls |
| Order.RoundRobinOutput | schedos-kern.c:265-274 | cell k holds the character of process (k mod n)+1 at every time |
| Order.StrictState | schedos-kern.c:275-281 | without clock ticks every state of algorithm 2 has the processes below the current one finished and those above not begun |
| Order.StrictOutput | schedos-kern.c:275-281 | cell k holds the character of process (k div R)+1 at every time |
| Order.HaltingRunExists | schedos-1.c:38-56 | from every booted state there is a run without clock ticks that completes |
| Order.RoundRobinFinalLog | schedos-kern.c:265-274 | a halted run of algorithm 0 without clock ticks has printed 1 to n in turns, R times, and nothing else |
| Order.RoundRobinFinalCell | schedos-kern.c:265-274 | its cell k shows process (k mod n)+1 for all k < n*R |
| Order.RoundRobinTurnaround | answers.txt:18-22 | process i makes its last print at n*(R-1)+i |
| Order.StrictFinalLog | schedos-kern.c:275-281 | a halted run of algorithm 2 without clock ticks has printed R times 1, then R times 2, up to n |
| Order.StrictFinalCell | schedos-kern.c:275-281 | its cell k shows process (k div R)+1 for all k < n*R |
| Order.StrictTurnaround | answers.txt:26-30 | process i makes its last print at i*R |
| SpinLock.StepKeepsExclusion | schedos-1.c:41-48 | under any interleaving at most one process is in the update, and the lock word is 1 exactly then |
| SpinLock.StepKeepsCursor | schedos-1.c:41-48 | a process past its load holds the current cursor and no cell beyond it is written |
| SpinLock.StoreIsFresh | schedos-1.c:42 | a print writes a cell no print has written |
| SpinLock.LockRefinesLog | schedos-1.c:38-51 | the lock variant refines the log: the cursor write appends the running process |
| SpinLock.LockRunShowsLog | schedos-1.c:38-51 | in every run, with a clock interrupt between any two instructions, the cells before the cursor are the log |
| SpinLock.StoresAreDistinct | schedos-1.c:38-51 | no cell is written by two prints |
| SpinLock.LockCompletion | schedos-1.c:38-56 | when all have exited the lock is free and the console holds R prints of each and nothing else |
| SpinLock.StepWork | schedos-1.c:41-48 | every instruction but a failing swap brings the end nearer by one, a clock interrupt does not |
| SpinLock.Progress | schedos-1.c:41-48 | no deadlock: one interrupt and one instruction always do some work |
| SpinLock.LockRunCanFinish | schedos-1.c:38-56 | every run of the lock variant can be continued to its end |
| LockOrder.TurnsInOrder | schedos-1.c:38-56 | the lock variant under algorithm 0 without clock ticks prints in turns |
| LockOrder.BlocksInOrder | schedos-1.c:38-56 | and under algorithm 2 in blocks |
| LockOrder.LockOutput | schedos-1.c:38-56 | cell by cell the same output as the system-call variant |
| LockOrder.CoopNeverSpins | schedos-1.c:41 | without clock ticks no swap ever fails |
| LockOrder.LockHalts | schedos-1.c:38-56 | without clock ticks a run that cannot go on has taken n*(6R+1) instructions, all have exited, and the log is that of the system-call variant |
| LockLiveness.TurnsMakeProgress | schedos-1.c:41-48 | under round robin, in any stretch with n clock interrupts each followed by an instruction, an instruction other than a failing swap is executed |
| LockLiveness.ClocksAgainstWork | schedos-1.c:41-48 | so the clock interrupts of any stretch are bounded by the work done in it |
| LockLiveness.ClocksAreBounded | schedos-1.c:38-56 | a round-robin run of the lock variant sees fewer than n*(n*(6R+1)+1) clock interrupts, however long the quanta are, as long as each is at least one instruction |
| LockLiveness.WorkDone | schedos-1.c:38-56 | all processes have exited exactly when all n*(6R+1) instructions are done |
| LockLiveness.TurnRunFinishes | schedos-1.c:38-56 | every such run continues to its end with the clock interrupting before every instruction |
| Memory.MemCpy | lib.c:16-24 | copies whenever the destination does not start inside the source |
| Memory.MemMove | lib.c:26-39 | with any overlap the destination becomes the old source and nothing else changes |
| Memory.MemSet | lib.c:41-48 | fills the range and nothing else |
| Numbers.DigitsRoundTrip | lib.c:91-102 | the digits read back as the number, with no superfluous leading zero |
| Numbers.WordDigitsFit | lib.c:115-116 | a 32-bit number has at most ten digits |
| Numbers.WriteDigits | lib.c:97-100 | the do-while loop leaves the digits of the number at the end of the buffer |
| Numbers.FillNumbuf | lib.c:91-102 | the buffer ends with the number's digits and a NUL, within its twenty bytes |
| Format.Magnitude | lib.c:167 | the absolute value, also for INT_MIN |
| Format.FieldParts | lib.c:233-242 | pads, sign, zeros, digits, and the pads last when left-justified |
| Format.FieldLength | lib.c:212-231 | a field is as long as its width, or its sign with the digits or the precision, whichever is more |
| Format.FieldReadsBack | lib.c:233-242 | a field of pads, sign, zeros and digits parses to its number |
| Format.NumberRoundTrip | lib.c:165-241 | for %d, %u, %x and %X with any flags and width the field parses back to the argument and is max(width, digits + sign) long |
| Format.SpecReadsBack | lib.c:125-159 | flags in any order, a width and a precision, written in decimal, as a star or not at all, are read as written, and the text and the arguments go on just past them |
| Format.NumberFromFormat | lib.c:125-242 | from the text of the directive: what is printed flag by flag, that it parses back to the argument, its length, and where format and arguments go on |
| Format.NumberWidthFits | lib.c:232 | the width left for the pads is an int unless the given width is within eleven of the least int |
| Format.PrintsNumber | lib.c:119-243 | a format that is one such directive prints exactly that field |
| Format.NulEnds | lib.c:119-134 | nothing after the first NUL of the format is read or printed |
| Directives.PlainPrints | lib.c:120-123 | wherever it stands in a format, text without '%' is printed as it is, and the rest follows |
| Directives.PlainFormat | lib.c:120-123 | a format without directives prints itself in its colour |
| Directives.DirectiveReads | lib.c:125-161 | a directive acts by its character with its flags, width and precision as written, and the format goes on just past it |
| Directives.StringActs | lib.c:191-193 | %s prints the argument up to its NUL, cut to the precision, justified in the width |
| Directives.CharacterActs | lib.c:197-201 | %c prints the low byte of the argument, nothing for zero |
| Directives.ColorActs | lib.c:194-196 | %C prints nothing and sets the colour |
| Directives.OtherActs | lib.c:202-210 | any other character stands for itself and takes no argument |
| Directives.EndPrintsPercent | lib.c:202-210 | a format that ends inside a directive prints '%' |
| Directives.PrecisionActs | lib.c:212-232 | numbers with a precision: digits cut off at the precision or zeros up to it, as the code does |
| Directives.ZerosInFull | lib.c:119-243 | "%05d" of 42 is "00042" |
| Directives.LeftInFull | lib.c:119-243 | "%-5d" of 42 is "42" and three blanks |
| Directives.HexInFull | lib.c:119-243 | "%x" of 0xbeef is "beef" |
| Directives.DigitCharacters | lib.c:88-89 | the digit characters of both tables |
| Console.CellShows | lib.c:84 | a cell shows its character and its colour |
| Console.CellBits | lib.c:84 | for every colour, bit by bit: the cell is `c or colour` cut to sixteen bits |
| Console.PutGlyph | lib.c:74-86 | a character keeps the cursor within the closed range of the console |
| Console.NewlineInFull | lib.c:76-82 | a newline blanks the cells from the cursor to the end of its row of 80, changes no other and goes to the next row |
| Console.CharacterInFull | lib.c:76-85 | any other character changes the cell under the cursor alone, cell 0 at the end of the console |
| Console.CursorSafety | lib.c:74-86 | any stream keeps the cursor in that range, and a newline lands on a row boundary |
| Console.PlainText | lib.c:74-86 | text that fits appears cell by cell from the cursor and changes nothing else |
| Console.PutC | lib.c:74-86 | wraps at the end, blanks the rest of the row on a newline, else writes one cell |
| Console.BlankRow | lib.c:80-82 | the newline loop blanks up to the next row and stays in the console |
| Console.PutField | lib.c:212-242 | one field is put as laid out |
| Console.ScanSpec | lib.c:125-159 | the scanning loops read what Format.SpecReadsBack says |
| Console.ConvertArg | lib.c:161-210 | the datum of each conversion character |
| Console.PrintDirective | lib.c:125-243 | one directive prints its field and says where format and arguments go on |
| Console.Vprintf | lib.c:111-247 | for every format, argument list and start cursor the console receives exactly the formatted stream and the cursor stays in range |
| Console.PrintText | lib.c:111-247 | a text without directives and newlines stands in the cells from the cursor on, in its colour, and nothing else changes |
| DiskImage.FilesInPlace | mkbootdisk.c:115-150 | file i stands whole at its start sector, zero-filled to the next; the boot block with its signature at sector 0 |
| DiskImage.ImageSize | mkbootdisk.c:115-156 | at least 1024 whole sectors; a file after @X starts at sector X |
| DiskImage.BootSectorInFull | mkbootdisk.c:94-108 | sector 0 is the boot file, zeros up to byte 510, then 0x55 and 0xAA |
| DiskImage.StartsInFull | mkbootdisk.c:115-150 | the first argument at sector 1, the next after a file at the first boundary at or after its end, after `@X` at sector X |
| DiskImage.AcceptedInFull | mkbootdisk.c:125-128 | a list is acceptable when no `@X` lies before the end of what precedes it |
| DiskImage.GapsAreZero | mkbootdisk.c:129-132 | what `@X` skips is zero |
| DiskImage.EndIsZero | mkbootdisk.c:151-156 | so is the end of the image |
| MkBootDisk.Output.Write | mkbootdisk.c:55 | the system call with its short, interrupted and failed outcomes |
| MkBootDisk.Output.DiskWrite | mkbootdisk.c:46-68 | all bytes are written however the writes fall out, unless one fails |
| MkBootDisk.Output.WriteFile | mkbootdisk.c:136-148 | a file and its padding, in 4096-byte pieces |
| MkBootDisk.Output.WriteBootSector | mkbootdisk.c:94-108 | at most 510 bytes, padded with zeros and signed 0x55 0xAA |
| MkBootDisk.Output.WriteArgument | mkbootdisk.c:117-149 | one argument extends the layout; bytes written stay 512 times the sector count |
| MkBootDisk.Output.MakeImage | mkbootdisk.c:70-158 | the output is the image of the arguments, and barring write failures exactly the acceptable lists are accepted |
| Boot.ReadSect | schedos-boot.c:109-127 | one sector into memory |
| Elf.MagicIsElf | elf.h:4 | the magic test holds exactly for the bytes 0x7F, 0x45, 0x4C, 0x46 |
| Elf.EhdrReadsBack | elf.h:6-22 | a file header written byte by byte, low byte first, reads back its magic, entry point, header offset and header count |
| Elf.ProghdrReadsBack | elf.h:24-33 | so does a program header of eight words |
| Boot.ReadSectors | schedos-boot.c:86-94 | whole sectors from a rounded-down address, and whether the loop ends when that address wraps |
| Boot.ReadSeg | schedos-boot.c:78-99 | for all arguments: whether the call ends, and then every byte of memory after it, with the wrapping sums |
| Boot.CongruenceIsExact | schedos-boot.c:70-99 | for a segment within memory: readseg ends and loads it whole, bytes and zeros, from every file exactly when neither its end nor the sector address wraps and its address and offset agree modulo 512 or it has no file bytes |
| Boot.SectorsEndExactly | schedos-boot.c:86-94 | with the 32-bit address the sector loop ends exactly when the bytes end no later than the last sector of memory begins |
| Boot.SegmentBytes | schedos-boot.c:78-99 | a congruent segment is loaded as the System V ABI asks and nothing outside its sectors changes |
| Boot.BootMain | schedos-boot.c:53-74 | every segment of the kernel file is in place, nothing outside the segments and the scratch page has changed; a file is refused exactly when it does not begin with 0x7F, 'E', 'L', 'F' |
| Boot.ImageHoldsKernel | mkbootdisk.c:135-150 | the first file argument stands at sector 1 |
| Boot.BuildAndBoot | schedos-boot.c:19-31 | written by mkbootdisk and read by the boot loader, address p_va+k holds file byte p_offset+k, then zeros up to p_memsz; memory outside the segments' sectors and the scratch page is unchanged |
| Loader.CopySeg | schedos-loader.c:71-85 | every byte of memory after copying a segment, aligned or not |
| Loader.AlignmentIsExact | schedos-loader.c:71-85 | file bytes, zeros and an untouched rest, for all memories, exactly when the destination is page-aligned, or the segment has no file bytes and what lies below it is copied onto itself |
| Loader.LoadSegment | schedos-loader.c:59-63 | one header more is dealt with, headers of other types are skipped |
| Loader.ProgramLoader | schedos-loader.c:41-67 | all segments of type 1 of an image are in place byte by byte, nothing else is touched, the entry point is returned; it panics exactly for a bad id or an image that does not begin with 0x7F, 'E', 'L', 'F' |

## Left out

- Search.RoundRobin, Search.Strict: the endless loops are given one turn of the table; what they do after coming back to where they began is not modelled again.
- Search.Priority: cut after NPROCS passes, when the start slot of the pass repeats.
- Search.Share: cut after three passes, when the table no longer changes.
- Search.Draw: the cycle counter is a finite list of seeds; real outcomes are not claimed, and of the end of redrawing only when it is possible (`Lottery.RedrawsForever`). The local copy of the ticket amounts is read from the table, which does not change meanwhile.
- KernelCode.Kernel.Schedule: for an unknown algorithm the kernel prints a message through console_printf before it stops; only the stop is modelled.
- KernelCode.Kernel.Interrupt: the write through the cursor has no bound in the source; cells beyond the console are modelled as further cells, not as the memory they overlay.
- Console.Vprintf: widths and precisions, written in the format or given as arguments, and what is left of a width are unbounded numbers, where the source's int can overflow; a missing or mismatched argument, undefined in C, reads as zero or the empty string.
- Format.NumberFromFormat: a star width within eleven of the least int overflows the source's int when the field is subtracted from it (`Format.NumberWidthFits`), as does a written width above the greatest int; the model pads by the exact difference.
- Format.NumberRoundTrip: claims nothing with an explicit precision, where the code cuts digits.
- Boot.BootMain: states no result for programs whose addresses wrap or whose sectors overlap; reads past the end of the disk give zeros.
- Loader.ProgramLoader: page-aligned, non-overlapping segments apart from the RAM image.
- MkBootDisk.Output.MakeImage: parsing of `@X`, opening of files, and the partition limit, which the program never sets; sizes are unbounded.
- The applications of schedos-2.c to schedos-4.c only choose a character.
- Hardware setup, port input and output, the keyboard and the assembly entry and exit paths; saving and restoring registers is one assignment each way.
- The combination of the spin-lock variant with each scheduling algorithm under clock interrupts: the kernel may there dispatch any process that has not exited, which covers every algorithm.
