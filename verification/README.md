# strace-macos: a model of the tracer, its decoders and its printers

strace-macos traces the system calls of a macOS process through LLDB. Breakpoints stand on the libc
wrappers; every stop of a thread is either the entry of a syscall or, at a one-shot breakpoint on the
return address, its end. At entry the tracer saves the raw arguments and decodes them; at exit it
decodes the result, decodes output arguments a second time from the saved raw values, and writes one
line. This project models that machine and proves what holds over all its runs, together with the
decoders and the printers that feed it.

How the parts fit together:

- `TracerSpec` is the state machine: `Step` says what one debugger stop does to the pending calls, the
  written events and the two sysctl caches; `Trace` is the same machine without caches, in which every
  call is decoded from its own two stops. `Tracer` holds the classes that the program mutates (decode
  context, events, tracer); every method is proved to do exactly what `Step` and `Run` say.
- `CallTree` runs a program whose calls form a tree and proves that the pending calls are the traced
  frames on the stack and the output is the post-order of the tree. `Threads` shows that threads do not
  interfere, `Ledger` treats arbitrary sequences of stops (conservation of calls, lost calls, the
  two-phase law of arguments, the error column), `Filters` states which calls the options select. `Runs` carries these results over to the tracer with its
  caches, at every prefix of every interleaving, and `Program` to a whole session of the tracer object.
- `Identities` is about the identities of argument lists, by which the caches are keyed, `StaleMib` about
  results decoded with the type of another call; `Counterexamples` holds runs in which a property fails.
- `Params`, `Sysctl`, `CStrings` and `Arch` are argument decoding: the cache protocol, memory reads, the
  calling conventions. `Meanings` states, from raw arguments and memory alone, what every decoder has to
  say, `Results` what the result of a call has to say, and `Calls` carries both to every written event of
  every run, and to a caller that fills registers, stack slots and memory on its own (`Numbers` are the
  integers it stores). `StringQuote`, `Args`, `Formatters`, `IpcSymbols`,
  `FileSymbols` and `EventSymbols` are printers, each with a
  reader written for it and the exact set of inputs that survive the round trip; `MibReader` reads the text
  of a MIB, `LineReader` a whole line of the output. `FdSet`, `Registry` and
  `Summary` are the bitmap decoder, the three dictionaries and the counters.
- `Prelude`, `Text` and `Bits` hold memory, number texts and bitwise operations on integers.

A process is seen through values: memory is a partial map from addresses to bytes, a read fails or
returns exactly the bytes asked for, a stop is a thread identifier with a frame (registers, memory,
function name, program counter, the `errno` expression's result). Registers are 64-bit unsigned values,
converted to signed where the program does.

Where the code differs from what one would expect, the code is modelled and the exact condition proved:

- `decode_ipc_flags` drops every bit from 0x2000 up as soon as it prints a known one
  (`IpcSymbols.IpcRoundTrip`); `decode_open_flags` drops unknown bits and access mode 3
  (`FileSymbols.OpenRoundTrip`); `decode_kevent_fflags` prints half of `NOTE_FFCOPY` for four USER words
  (`EventSymbols.FflagsRoundTrip`).
- A `sysctl` call with a null name pointer leaves the MIB cache alone, so if it succeeds its result buffer
  is decoded with whatever type is cached under the identity of its argument list, which the list of an
  earlier call may have had (`StaleMib.MibTypeIsOwn`, `StaleMib.ReturnIsExactly`). `Identities.NewLists`
  says which identities a new list can have: none of a list that the decode context or a pending call still
  holds. `Counterexamples.StaleType` is such a run with a wrong event; `Identities.RunWithNewLists` shows
  that events are exact in every run of the program in which no `sysctl` without a MIB has the identity of
  an earlier one with a MIB. `TracerSpec.RunOutline` and `Runs` state what holds in every run.
- A fixed argument beyond the last argument register is read as 0 (`Arch.CallingConvention`).
- A string is read in chunks, so an unreadable byte after the terminator but in the same chunk shortens
  the result (`CStrings.ReadStringRefines`).
- With abbreviation a return of -1 becomes a text, and the summary does not count it
  (`Ledger.SummaryErrors`).
- A second entry of a thread with the same return address overwrites the pending call. Nothing is lost
  exactly when no stop does this (`Ledger.NothingLost`); nested runs never do
  (`Runs.NestedRunLosesNothing`), `Counterexamples.LostCall` is a run that does.
- The colour line erases to the plain one only for parts without colour sequences of their own
  (`Formatters.ColorErasure`).
- All leading underscores are stripped before the lookup, so a registered name is entered from some
  function exactly when it has no leading underscore (`TracerSpec.ReachableNames`). Eighteen definitions
  have one, `__mac_execve` among them (`TracerSpec.MacExecveIsNeverEntered`).
- The x86-64 architecture's own documentation (`strace_macos/arch.py:172-174`) says that the variadic
  argument of fcntl or ioctl is still in a register; the code reads it from the stack. The model follows
  the code, and `Arch.VariadicInRegister` says when such an argument is recovered.

## Model

| member | source | states |
|---|---|---|
| Tracer.Tracer.TraceLoop | strace_macos/tracer.py:386-420 | The final state is the state machine run over exactly the stops before the round that ends the loop; the code is that of the first round that does not go on: 0 at the interrupt, the exit status, or 1 after a crash. |
| Tracer.Tracer.Round | strace_macos/tracer.py:395-418 | A round ends the loop with 0 at the interrupt flag, with the exit status, or with 1 after a crash, changing nothing then; a running or stopped process goes on, and its stop is handled. |
| Tracer.RoundsAreRun | strace_macos/tracer.py:395-418 | Any number of rounds amounts to the state machine run over the stops among them. |
| Tracer.Tracer.HandleStop | strace_macos/tracer.py:422-477 | One stop changes pending calls, written events and caches exactly as `Step` says, and keeps summary, output and pending objects consistent. |
| Tracer.Tracer.HandleSyscallEntry | strace_macos/tracer.py:479-529 | An entry files the event decoded from the frame's own registers and memory: pending under (thread, return address), or written at once without one. |
| Tracer.Tracer.FileEvent | strace_macos/tracer.py:497-529 | Only the key of this thread and return address changes, or only the output grows by one. |
| Tracer.Tracer.AddEvent | strace_macos/tracer.py:511-529 | Filing replaces or adds exactly one key, with a new object that no other key shares. |
| Tracer.Tracer.HandleSyscallReturn | strace_macos/tracer.py:531-557 | A return removes exactly its key, and writes the event with its result and the re-decoded arguments. |
| Tracer.Tracer.PopEvent | strace_macos/tracer.py:541-545 | Popping hands out the event object and no other key keeps it. |
| Tracer.Tracer.CompleteEvent | strace_macos/tracer.py:547-554 | The object's result and arguments become those of the exit decoding; nothing is re-decoded unless the result is a non-negative number. |
| Tracer.Tracer.ExtractArgs | strace_macos/tracer.py:678-718 | The raw values are those of the calling convention; the arguments are those of new contexts, whatever the shared context held. |
| Tracer.Tracer.DecodeWith | strace_macos/tracer.py:666-676 | Decoding with the shared context overwrites its raw value, and equals decoding with a context built for this argument. |
| Tracer.Tracer.DecodePass | strace_macos/tracer.py:709-716 | A whole left-to-right pass through the one shared context equals decoding every argument with its own. |
| Tracer.Tracer.DecodeParamsAtExit | strace_macos/tracer.py:720-751 | Arguments are updated in place from the saved raw values; exactly those that decode to something change. |
| Tracer.Tracer.WriteEvent | strace_macos/tracer.py:164-183 | Every written event enters the summary; a line is printed for it unless the run is summary-only. |
| Tracer.Tracer.HandleHit | strace_macos/tracer.py:440-477 | A hit breakpoint is a return exactly of a pending key, an entry where the name is traced, and nothing otherwise. |
| Program.TraceProgram | strace_macos/tracer.py:386-557 | A new tracer that sees a nested run to its end has nothing pending, has printed the post-order one line per call, has counted exactly these calls, and returns the code of the first round that ends the loop. |
| Tracer.Tracer.constructor | strace_macos/tracer.py:69-92 | A new tracer has nothing pending or written and empty caches; definitions with ordered parameters make its configuration well formed. |
| TracerSpec.StripsUnderscores | strace_macos/tracer.py:451-452 | Stripping a function name gives a name exactly when the function is that name behind underscores only and the name starts with none. |
| TracerSpec.EnteredExactly | strace_macos/tracer.py:448-477 | A function stop is the entry of a syscall if and only if the function is its name behind underscores, it is registered, passes the filter, and is not an implementation under a pending call. |
| TracerSpec.ReachableNames | strace_macos/tracer.py:448-477 | A registered name that passes the filter is entered from some function if and only if it has no leading underscore. |
| TracerSpec.MacExecveIsNeverEntered | strace_macos/syscalls/definitions/process.py:181-185 | The registered `__mac_execve` is never entered, not even at a stop in that very function. |
| TracerSpec.Classify | strace_macos/tracer.py:428-477 | A stop is a return if and only if its thread and address have a pending call; an entry names a registered syscall. |
| TracerSpec.EntryWithPending | strace_macos/tracer.py:463-470 | A pending call can silence an entry but never changes the name it is traced under. |
| TracerSpec.StepIsTraceStep | strace_macos/tracer.py:422-557 | One stop of the tracer with caches does what the cache-free tracer does, and pending calls keep their MIB. |
| TracerSpec.RunIsTrace | strace_macos/tracer.py:666-751 | In every run whose sysctl calls name a MIB, from any cache contents, events are those of a tracer that decodes each call from its own two stops. |
| TracerSpec.RunOutline | strace_macos/tracer.py:422-557 | In every run whatsoever, caches can affect decoded arguments only: calls, order, raw arguments and return values are those of the cache-free tracer. |
| CallTree.TraceIsPostOrder | strace_macos/tracer.py:441-477 | For every call tree with distinct open return addresses, the finished run leaves nothing pending and has written the post-order of its traced calls. |
| CallTree.RunIsPostOrder | strace_macos/tracer.py:441-557 | The same for the tracer with its caches. |
| Runs.RunAtEveryPoint | strace_macos/tracer.py:527-557 | At every prefix of a nested run of the tracer with caches, the pending calls are the traced frames on the stack and the output is a prefix of the post-order: exactly, unless a sysctl without a MIB shares its list identity with one that has one, and always up to decoded arguments. |
| CallTree.RunStaysInStep | strace_macos/tracer.py:441-557 | Every legal call or return keeps the pending calls equal to the traced frames and the output equal to the expected log. |
| CallTree.PerformCalls | strace_macos/tracer.py:527-557 | Running a list of calls restores the stack and logs their post-order, under any enclosing frames. |
| CallTree.PendingHasThread | strace_macos/tracer.py:463-470 | The test "this thread has a pending call" is true exactly when a traced frame is open. |
| Runs.RunThreadsAreIndependent | strace_macos/tracer.py:441-477 | For every interleaving, from any cache contents, a thread's pending calls and written events are those of running its own stops alone, unless a sysctl without a MIB shares its list identity with one that has one: sharing the caches does not show. |
| Runs.RunThreadsOutline | strace_macos/tracer.py:441-557 | Without any condition, other threads and the caches can change decoded arguments only. |
| Runs.InterleavedAtEveryPrefix | strace_macos/tracer.py:441-557 | After every prefix of every interleaving, a thread whose own stops are a nested run has exactly its open traced frames pending and a prefix of its post-order written. |
| Runs.RunInterleavedThreadIsPostOrder | strace_macos/tracer.py:441-557 | However threads interleave, a thread whose nested run is finished has nothing pending and exactly its post-order written. |
| Threads.ClassifyLocally | strace_macos/tracer.py:441-470 | The decision about a stop depends on the pending keys of its own thread only. |
| Ledger.Conservation | strace_macos/tracer.py:497-557 | After any stops, accepted entries = written + pending + overwritten, all distinct; no entry is written twice. |
| Ledger.NothingLost | strace_macos/tracer.py:527-529 | No accepted call is lost if and only if no stop is an entry whose thread and return address already have a pending call. |
| Ledger.SecondEntryOverwrites | strace_macos/tracer.py:527-529 | Two entries of one thread with one return address: the first call is overwritten and lost. |
| Counterexamples.LostCall | strace_macos/tracer.py:527-529 | A concrete run of two stops, with argument lists of different identities, in which a call is lost. |
| Runs.NestedRunLosesNothing | strace_macos/tracer.py:527-557 | A nested run with distinct open return addresses loses no call. |
| Runs.InterleavedLosesNothing | strace_macos/tracer.py:441-557 | Threads that each make a nested run lose no call, however they interleave. |
| Ledger.EveryEventHasItsStops | strace_macos/tracer.py:497-557 | Every pending event is the image of its entry stop, every written one of its entry stop and one later return stop of the same thread at its return address. |
| Ledger.RunIsConserved | strace_macos/tracer.py:452-557 | The same count for the tracer with caches; every written name is registered and passes the filter, which `Filters.RunIsFiltered` states in the options. |
| Filters.RunIsFiltered | strace_macos/tracer.py:128-143 | In every run, from any caches, every pending and written name is registered, last under the category of the filter if there is one, else in the set of names if there is one. |
| Filters.FilterDecides | strace_macos/tracer.py:128-143 | A stop in a function without leading underscore, at no pending address, is its entry if and only if the options select the name of that function. |
| Results.DecodeReturnShows | strace_macos/tracer.py:559-591 | If the callee left w in rax or x0, the result is the number that w is in two's complement, except for a decoded fcntl result and an abbreviated -1, whose text is "-1" with the table's name of a known errno. |
| Results.FcntlResultShows | strace_macos/syscalls/definitions/file.py:69-98 | FD_CLOEXEC appears if and only if the command is 1 and bit 0 is set; the F_GETFL text reads back to the register; anything else is the number. |
| Results.RunShowsResults | strace_macos/tracer.py:531-591 | In every run, from any caches, every written event shows what the callee of its own return stop left, or "?" if nothing could be read. |
| Calls.RunMeans | strace_macos/tracer.py:531-751 | In every run whose sysctl calls name a MIB, every argument of every written event means what the raw arguments and the memory of its own two stops say, kind by kind as `Meanings` has it. |
| Calls.CallMeans | strace_macos/tracer.py:479-751 | The event of a call whose arguments fit holds the caller's list, every argument decoded from it and the memory at the call or its return, and the callee's result. |
| Calls.CallIsFiled | strace_macos/tracer.py:497-529 | The entry of a call adds one pending key, its thread with the address it returns to, and keeps every other pending call and the output. |
| Calls.OpenMode | strace_macos/syscalls/definitions/file.py:117-131 | The mode of an open is left out of its event if and only if bit 9 of the caller's flags is clear. |
| Ledger.TwoPhaseLaw | strace_macos/tracer.py:698-751 | A completed event has one argument per parameter, its entry-time raw values, process, time and list identity; argument i is the exit decode if the call succeeded and there is one, else the entry decode or unknown. |
| Ledger.SkippedArguments | strace_macos/syscalls/definitions/__init__.py:638-653 | An argument is left out of the finished event exactly when its raw discriminator is listed as skipped or has no bit of the required mask, through nested variants. |
| Ledger.ClobberedRegistersDoNotMatter | strace_macos/tracer.py:726-732 | The return stop's argument registers never reach the event: only memory, the return register and errno do. |
| Ledger.SummaryErrors | strace_macos/tracer.py:559-591 | The error count of a name is the number of its returns with a negative register, except that -1 does not count unless abbreviation is off. |
| Ledger.ReturnIsError | strace_macos/tracer.py:568-591 | A decoded result is a negative number exactly for those registers. |
| Params.PassIsFresh | strace_macos/syscalls/definitions/sysinfo.py:40-173 | Whatever the caches hold and whichever list identities are reused, a pass decodes every argument from this call's own MIB or name; a call without a MIB too, if nothing is cached under its identity. |
| Params.PassPrimes | strace_macos/syscalls/definitions/sysinfo.py:40-124 | After the first parameter, in either phase, the caches hold what it read in this very pass. |
| Params.PassCaches | strace_macos/syscalls/definitions/sysinfo.py:40-173 | The caches after a pass are those the first parameter leaves: nothing later in the pass writes them. |
| Params.PassLeavesMib | strace_macos/syscalls/definitions/sysinfo.py:40-55 | A pass caches MIB values only under its own list identity, and only from a non-null name pointer. |
| StaleMib.MibTypeIsOwn | strace_macos/syscalls/definitions/sysinfo.py:40-104 | A result buffer takes the type of the call's own MIB, whichever earlier sysctl had an argument list of the same identity, if and only if the name pointer is not null. |
| StaleMib.ReturnIsExactly | strace_macos/syscalls/definitions/sysinfo.py:40-104 | The successful return of a sysctl without a MIB writes the event decoded from its own stops if and only if the type cached under its list identity, if any, still shows its result buffer as a pointer. |
| StaleMib.StaleTypeShows | strace_macos/syscalls/definitions/sysinfo.py:40-104 | After any run from any caches, whenever a sysctl without a MIB returns successfully and the type cached under its list identity shows its result buffer as something other than a pointer, the run differs from the one decoded call by call. |
| Counterexamples.StaleType | strace_macos/syscalls/definitions/sysinfo.py:40-104 | A concrete run of six stops, in which no new list has the identity of a live one, whose events differ because of the caches. |
| Identities.RunIsExact | strace_macos/tracer.py:666-751 | Every run in which no sysctl without a MIB shares its list identity with a call that leaves one, before it or while it is pending, writes the events decoded call by call, from any caches. |
| Identities.RunWithNewLists | strace_macos/tracer.py:699-731 | In every run in which new lists have identities of no live list, events are exact if no sysctl without a MIB has the list identity of an earlier call that left one. |
| Identities.MibsAreUnshared | strace_macos/tracer.py:666-751 | Runs whose sysctl calls all name a MIB share no identity in this sense. |
| Identities.CallKeepsNewLists | strace_macos/tracer.py:699-731 | After a call with nothing else pending, its argument list is the one the decode context holds, whether it succeeded or not, so the next list has another identity. |
| Params.DecodeMatchesFresh | strace_macos/syscalls/definitions/__init__.py:638-660 | A decoder with primed caches, variants included, says what the cache-free one says. |
| Params.DecodeKeepsCaches | strace_macos/syscalls/definitions/sysinfo.py:90-104 | Buffer and other decoders never write a cache, variants included. |
| Params.SysctlParamsAreOrdered | strace_macos/syscalls/definitions/sysinfo.py:238-277 | The definitions of sysctl and sysctlbyname list the cache writer first; only sysctl can lack a MIB, exactly with a null name. |
| Params.SkipIsStable | strace_macos/syscalls/definitions/__init__.py:638-660 | Whether an argument is skipped is decided by the listed values and mask bits of its raw discriminator alone: not by phase, memory, result or caches. |
| Params.FreshSkipIsStable | strace_macos/syscalls/definitions/__init__.py:638-660 | The same for the cache-free decoder. |
| Params.ChooseExactly | strace_macos/syscalls/definitions/__init__.py:638-660 | A variant is skipped if and only if the discriminator is listed or has no bit of the mask; else it is the variant listed for the discriminator, else the default. |
| Params.OpenModeIsAbsent | strace_macos/syscalls/definitions/file.py:127-131 | The third argument of open does not exist if and only if bit 0x200 of the flags is clear. |
| Meanings.DecodeMeans | strace_macos/syscalls/definitions/__init__.py:159-660 | Every decoder, in either phase and through variants, says what its parameter means in terms of the raw arguments and memory: integers in two's complement, flags, strings, structs, buffers, descriptor sets and sysctl values. |
| Meanings.StructMeans | strace_macos/syscalls/definitions/__init__.py:435-549 | Members stored one after another in their own sizes and signedness come back under their names, padding left out, in the phase of the struct only. |
| Meanings.BufferMeans | strace_macos/syscalls/definitions/__init__.py:551-604 | A buffer shows, in its own phase, as many bytes of memory as the least of size argument, cap and returned count; nothing to read gives the pointer, the other phase the pointer at entry and nothing at exit. |
| Meanings.TypedMeans | strace_macos/syscalls/definitions/sysinfo.py:65-88 | A stored 32-bit or 64-bit integer comes back as that number, a readable string as its text unless it starts like an address. |
| Meanings.MibResultMeans | strace_macos/syscalls/definitions/sysinfo.py:90-104 | A sysctl result is shown at exit by the type listed for the first two elements of its readable MIB, and as the pointer otherwise. |
| Meanings.NameResultMeans | strace_macos/syscalls/definitions/sysinfo.py:127-173 | A sysctlbyname result is shown at exit by the type listed for its name. |
| Meanings.StringsMean | strace_macos/syscalls/definitions/__init__.py:217-247 | A stored array of pointers comes back as one string a pointer, at most the limit, each the C string it points to. |
| Meanings.FdSetMeans | strace_macos/syscalls/struct_params/event_structs.py:505-541 | The text shown at entry reads back to exactly the descriptors whose bit is set, in ascending order. |
| Params.BufferLimit | strace_macos/syscalls/definitions/__init__.py:574-596 | A read never exceeds the size argument, the cap, or a positive result at exit, and meets one of them. |
| Params.DecodeBuffer | strace_macos/syscalls/definitions/__init__.py:557-604 | A buffer is shown exactly in its own phase for a non-null pointer with a positive readable extent, and shows that memory. |
| CStrings.ReadStringAt | strace_macos/syscalls/definitions/__init__.py:121-156 | The chunk loop ends and returns the chunked reading of the memory, null and unreadable pointers included. |
| CStrings.ReadStringRefines | strace_macos/syscalls/definitions/__init__.py:121-156 | The result is the byte-at-a-time C string cut at the limit exactly when the chunks holding it are readable; it is always a NUL-free prefix of it. |
| CStrings.ChunksAreExact | strace_macos/syscalls/definitions/__init__.py:133-151 | Chunked and byte-wise reading agree if and only if every chunk with a string byte is readable whole. |
| CStrings.ChunksArePrefix | strace_macos/syscalls/definitions/__init__.py:133-151 | The chunked result holds no NUL and is a prefix of the true string. |
| CStrings.ReadStrings | strace_macos/syscalls/definitions/__init__.py:217-247 | The pointer loop returns the strings of the array from its start. |
| CStrings.StringsOfPointers | strace_macos/syscalls/definitions/__init__.py:217-247 | An array of pointers ended by null or unreadable memory is read in order, one string each, up to the limit. |
| Sysctl.DecodeSysctlMib | strace_macos/syscalls/struct_decoders/sysctl.py:214-269 | Both loops together give the MIB's text and values, or the error text and no values if any element is unreadable; `MibReader` states what that text is. |
| Sysctl.ReadIntsStops | strace_macos/syscalls/struct_decoders/sysctl.py:236-249 | The first unreadable element ends the reading whatever lies behind it. |
| MibReader.MibRoundTrip | strace_macos/syscalls/struct_decoders/sysctl.py:214-269 | For tables of unambiguous names, the text of every readable MIB of up to twelve elements reads back to its values, the second element by the kern names exactly under 1 and by the hw names exactly under 6. |
| MibReader.MibErrors | strace_macos/syscalls/struct_decoders/sysctl.py:225-249 | A MIB with an unreadable element has no values and a text that says which one, or that there is none or it is too long. |
| Arch.CallingConvention | strace_macos/tracer.py:638-702 | A caller fills rdi, rsi, rdx, rcx, r8, r9 or x0 to x7 and stack slots: the raw values are its argument list if and only if every fixed argument beyond the registers is 0; the return address is always recovered. |
| Arch.RawArgOfCall | strace_macos/tracer.py:638-664 | One argument that the caller put in its register or slot, fixed or variadic, is read back, or 0 beyond the last register. |
| Arch.VariadicArgOfCall | strace_macos/arch.py:94-201 | Variadic argument k comes back from its 8-byte stack slot on both architectures. |
| Arch.VariadicInRegister | strace_macos/arch.py:167-201 | A variadic argument passed in a register, as x86-64 callers do, is recovered if and only if its stack slot holds it, or it is 0 and the slot is unreadable. |
| Arch.ReturnAddressOfCall | strace_macos/arch.py:73-165 | The return address comes back from the link register or from the top of the stack. |
| Arch.ResultOfCallee | strace_macos/arch.py:60-145 | The register read as the result holds w if and only if the callee left w in rax or x0. |
| Prelude.ToSigned | strace_macos/syscalls/definitions/__init__.py:101-107 | The signed value is congruent to the register modulo 2^64 and lies in the signed range. |
| Prelude.ToSigned32 | strace_macos/syscalls/definitions/__init__.py:110-118 | The signed value is congruent to the register modulo 2^32 and lies in the signed 32-bit range. |
| StringQuote.QuoteString | strace_macos/string_quote.py:61-88 | The loop prints the body of the shown bytes and the dots of a truncated buffer. |
| StringQuote.QuoteRoundTrip | strace_macos/string_quote.py:33-88 | A C-style reader gets back the shown bytes, all of them up to the limit; truncation shows as three dots after them. |
| StringQuote.QuoteIsUnambiguous | strace_macos/string_quote.py:61-88 | Equal texts mean equally truncated buffers with the same shown bytes. |
| StringQuote.BodyStartsOctal | strace_macos/string_quote.py:33-58 | The text after an escape starts with an octal digit exactly when the raw next byte is one, so the lookahead is right. |
| StringQuote.QuoteIsPrintable | strace_macos/string_quote.py:21-58 | Quoted text holds printable characters only. |
| StringQuote.EscapeLength | strace_macos/string_quote.py:33-58 | A printable byte stands for itself; an octal escape takes no more digits than needed, and three exactly if the next byte looks like a digit or the byte needs them. |
| Args.FormatStringArray | strace_macos/syscalls/args.py:219-230 | The loop prints the quoted strings with separators and brackets. |
| Args.EscapeIsOnePass | strace_macos/syscalls/args.py:80-84 | Replacing backslashes, then quotes, equals one pass that escapes both. |
| Args.StringArrayRoundTrip | strace_macos/syscalls/args.py:219-230 | Reading a printed list gives the list, for all strings, empty ones and ones with separators included. |
| Formatters.FormatColor | strace_macos/syscalls/formatters.py:153-203 | The loop builds the coloured line, leaving out skipped arguments. |
| Formatters.EraseColorLine | strace_macos/syscalls/formatters.py:116-203 | Erasing the colours leaves the plain line with every part rid of its own colour sequences. |
| Formatters.ColoredEnds | strace_macos/syscalls/formatters.py:137-203 | The coloured line starts with the name in cyan and ends with the result, red for a negative number and green for anything else. |
| Formatters.ColorErasure | strace_macos/syscalls/formatters.py:116-203 | The coloured line erases to the plain one if and only if no part holds a colour sequence. |
| Formatters.CleanEventErases | strace_macos/syscalls/formatters.py:116-203 | An event whose strings hold no escape character erases to its plain line. |
| Formatters.QuoteIsClean | strace_macos/syscalls/args.py:189-205 | A printed buffer never holds an escape character. |
| Formatters.ArgColor | strace_macos/syscalls/formatters.py:137-203 | Strings, numbers, pointers and descriptors have their own colours and nothing else has one. |
| Formatters.ReturnColor | strace_macos/syscalls/formatters.py:137-203 | The result is red if and only if it is a negative number. |
| LineReader.ArgShows | strace_macos/syscalls/args.py:19-288 | The text of every argument shows it: a reader gets back the number, address, string, bytes, fields or list, or finds the symbolic form. |
| LineReader.LineIsRead | strace_macos/syscalls/formatters.py:116-135 | Reading the plain line gives the name, the texts of the arguments without the skipped ones, each showing its argument, and the result. |
| LineReader.OutputIsRead | strace_macos/tracer.py:164-183 | Every line of the output shows its event, once its colours are erased; it has colours if and only if the run has them. |
| Summary.SummaryFormatter.AddEvent | strace_macos/syscalls/formatters.py:213-229 | The counters of every name stay equal to its events and its errors in the history. |
| Summary.SummaryFormatter.TotalCalls | strace_macos/syscalls/formatters.py:231-262 | The printed total is the number of written events. |
| Summary.TotalIsLength | strace_macos/syscalls/formatters.py:213-262 | Counters that agree with a history add up to its length. |
| Summary.AddAgrees | strace_macos/syscalls/formatters.py:213-229 | Counting one more event keeps the counters in agreement with the history. |
| Summary.Errors | strace_macos/syscalls/formatters.py:226-229 | The errors of a name never exceed its calls. |
| FdSet.DecodeBitmap | strace_macos/syscalls/struct_params/event_structs.py:505-541 | The list walked word by word is ascending and holds a descriptor exactly when its bit of its byte is set. |
| FdSet.BitOfLittleEndian | strace_macos/syscalls/struct_params/event_structs.py:526-534 | Bit k of a little-endian word is bit k % 8 of byte k / 8. |
| FdSet.DecodeOfEncode | strace_macos/syscalls/struct_params/event_structs.py:505-541 | Decoding the bitmap of an ascending list gives the list. |
| FdSet.EncodeOfDecode | strace_macos/syscalls/struct_params/event_structs.py:505-541 | Setting the decoded bits rebuilds the bitmap byte for byte. |
| FlagTables.CollectFlags | strace_macos/syscalls/struct_params/event_structs.py:201-207 | The loop collects the flags sharing a bit with the value, and leaves the bits none of them has. |
| EventSymbols.DecodeKeventFflags | strace_macos/syscalls/struct_params/event_structs.py:173-213 | The loop's result is the flag text of the filter's table or the plain number. |
| EventSymbols.FilterNames | strace_macos/syscalls/struct_params/event_structs.py:185-197 | The filters -4, -5, -7 and -10 have the vnode, process, timer and user names; no other filter has any. |
| EventSymbols.FflagsSymbolic | strace_macos/syscalls/struct_params/event_structs.py:199-213 | The text is symbolic exactly when every set bit is named. |
| EventSymbols.FflagsRoundTrip | strace_macos/syscalls/struct_params/event_structs.py:173-213 | The text reads back to the value for every filter and 32-bit word, if and only if it is not one of four USER words. |
| IpcSymbols.DecodeIpcFlags | strace_macos/syscalls/symbols/ipc.py:88-99 | The loop's result is the joined names, the octal mode, or the hexadecimal value. |
| IpcSymbols.IpcRoundTrip | strace_macos/syscalls/symbols/ipc.py:88-99 | The text reads back to the value if and only if it is below 0x2000 or a multiple of 0x2000. |
| FileSymbols.DecodeOpenFlags | strace_macos/syscalls/symbols/file.py:491-504 | The loop's result is the access mode and the status flags in table order, or the hexadecimal value. |
| FileSymbols.OpenRoundTrip | strace_macos/syscalls/symbols/file.py:491-504 | The text reads back to the value if and only if it has an access mode below 3 and no unknown bit, or access mode 3 and no known one. |
| FlagTables.UnionOfMatching | strace_macos/syscalls/struct_params/event_structs.py:201-207 | If no flag straddles the value, the printed flags make up all its named bits. |
| FlagTables.ResidueIsUnnamed | strace_macos/syscalls/struct_params/event_structs.py:201-207 | What remains after clearing are exactly the bits no flag names. |
| Registry.SyscallRegistry.constructor | strace_macos/syscalls/registry.py:26-49 | The dictionaries of a new registry hold, under every key, the last registration for it. |
| Registry.SyscallRegistry.Register | strace_macos/syscalls/registry.py:51-65 | Registering keeps the three dictionaries in agreement, overwriting included. |
| Registry.RegisterReflects | strace_macos/syscalls/registry.py:51-65 | Setting all three dictionaries keeps each equal to the last registrations, with names and categories over the same keys in the same order. |
| Registry.SyscallRegistry.LookupByName | strace_macos/syscalls/registry.py:67-76 | A lookup finds exactly the last definition registered under the name, if there is one. |
| Registry.SyscallRegistry.GetCategory | strace_macos/syscalls/registry.py:78-87 | The category is that of the last registration under the name. |
| Registry.SyscallRegistry.GetAllSyscalls | strace_macos/syscalls/registry.py:100-106 | If numbers and names correspond one to one, every registered name is listed once, with the definition a lookup finds. |
| Registry.SyscallRegistry.GetSyscallsByCategory | strace_macos/syscalls/registry.py:89-98 | The loop returns the definitions of the names of the category, in order. |
| Registry.CategoriesPartition | strace_macos/syscalls/registry.py:78-98 | The category lists partition the names: each once, under the category of its last registration, with that definition. |
| Registry.AllSyscallsListedOnce | strace_macos/syscalls/registry.py:100-106 | If numbers and names correspond one to one, the list breakpoints are set from holds every name exactly once. |

## Left out

- LLDB itself: launching, attaching, breakpoint creation, signal handlers, evaluating the errno expression. Their results are parameters of the model, and a stop is delivered as data.
- That every pending call returns in a multi-threaded run: one-shot breakpoints belong to addresses, not to threads, so another thread can consume one.
- Partial reads: `ReadMemory` of the debugger fails or returns every byte asked for.
- UTF-8 decoding of strings with replacement: one byte stands for one character.
- Addresses that wrap around at 2^64: memory addresses are unbounded integers.
- The JSON formatter, timestamps, percentages, sorting and padding of the summary table.
- Meanings.DecodeMeans: says of a string with unreadable later chunks no more than that it is a string; the decoder shortens it (`CStrings.ChunksArePrefix`).
- Struct layouts: `StructParam` stands for the ctypes-based struct decoders and reads unpadded little-endian members; their per-field formatters are not part of the model.
- Array and record decoders (kevent, pollfd, iovec, sockaddr, aiocb, int arrays) and the small ones (user ids, directory descriptors, lock operations, UUIDs, times): phases and size bounds repeat those of `BufferParam`.
- `FlagsParam`, which drops unknown bits, and `decode_kevent_flags`.
- The constant, errno and syscall tables except the flag tables of the round trips: they are parameters of the model.
- Parsing of the filter expression and of the command line, and the fixed list of libraries searched for breakpoints.
- Exceptions inside a decoder and the interrupt arriving in the middle of a stop: a stop is handled to its end, and the flag is seen at the next round.
