# POSIX process primitives of rust-subprocess, modelled in Dafny

This project models the pure logic around the raw syscalls in the POSIX
layer of the `subprocess` crate (`src/posix.rs`). It proves properties of
that model. The layer stages a child-process execution before `fork()`,
then finishes it in the child without heap allocation. It also offers a
`poll()` wrapper that can wait longer than the syscall's 32-bit millisecond
timeout allows.

Modules (one per component of `src/posix.rs`, plus `ByteVec`, which models the part of the standard library's `Vec<u8>` that the scratch buffer relies on):

- `Sys` (`sys.dfy`) holds the integer widths, bytes, `Error`/`Result`/`Option`,
  and `check_err` ("negative means failure; the reason is errno").
- `PathSplit` (`split_path.dfy`) models the allocation-free PATH splitter.
  It is a cursor record `(path, last, current)` whose `Next` follows the
  source's `for` loop. It is proved equal to a reference reading: the
  non-empty `:`-separated fields of the path, in order. Empty fields are
  dropped. The POSIX reading of PATH (section 8.3 of the XBD volume of
  POSIX.1-2017) would treat them as the current directory; the model
  follows the code.
- `CStrings` (`cvec.dfy`) models `os_to_cstring` and `CVec::new`. The
  pointer table is a sequence of string indices, with `None` as the null
  pointer. `ReadTable` reads the table the way the kernel reads
  `argv`/`envp`.
- `ByteVec` (`byte_vec.dfy`) models the part of `Vec<u8>` the scratch
  buffer uses: contents plus capacity. "No allocation after fork" becomes
  "capacity unchanged".
- `Exec` (`exec.dfy`) models `FinishExec` (`new`, `set_exe`, `exec`,
  `finish`) and `stage_exec`. The exec syscall is an oracle
  `ExecCall -> ExecReply`: it either replaces the image (the call never
  returns) or fails with an errno. `finish` returns the sequence of calls
  it made, so "the first success ends the search" is a postcondition.
- `Process` (`process.dfy`) models the result mapping of `fork`, `waitpid`
  with exit-status classification, and the unit-result wrappers.
- `PollFds` (`poll_fd.dfy`) models `PollFd::new` and `PollFd::test` over
  16-bit event masks (`c_short` in the source).
- `Poll` (`poll.dfy`) models the timeout clamp and the `poll`
  loop. The clock is a natural number of milliseconds. The syscall is a
  finite trace of replies, each with the clock reading taken after it.

A PATH that holds only colons (for example `:`) is non-empty, so
`stage_exec` sets a search path. It yields no directory, so `finish` makes
no exec call and returns errno as it stood on entry. `Exec.Finish` states
this exactly: with no attempts, the error is `errno0`.

`stage_exec` checks the arguments and the environment for NUL bytes, but
not `cmd`. A `cmd` with a NUL in it is staged without error. Every name
`finish` then hands to exec is read by the kernel only up to that NUL, so a
shorter file name is looked up (`Exec.NulInCmdCutsName`). The model follows
the code here.

## Model

| member | source | states |
|---|---|---|
| Sys.CheckErr | src/posix.rs:21-26 | a negative syscall return becomes the OS error taken from errno; any other value passes through unchanged |
| PathSplit.SplitPath.Next | src/posix.rs:98-117 | from a valid cursor, `next` leaves a valid cursor with both indices equal; a yielded piece is non-empty, holds no ':', and moves the segment start forward; after `None` both cursors sit at the end of the path |
| PathSplit.Start | src/posix.rs:120-129 | `split_path` starts with both cursors at 0, a valid state |
| PathSplit.Scan | src/posix.rs:98-117 | one run of `next`'s scan: a yielded piece is non-empty and holds no ':', the segment start strictly advances when something is yielded, and after `None` both cursors sit at the end of the path |
| PathSplit.ScanYields | src/posix.rs:98-117 | the piece `next` yields, followed by the directories left after its new cursor, are exactly the non-empty ':'-fields of the path from the old segment start |
| PathSplit.CollectIsPathDirs | src/posix.rs:98-117 | from any valid cursor, iterating `next` to `None` yields the non-empty ':'-fields of the unconsumed part of the path |
| PathSplit.SplitPathYieldsPathDirs | src/posix.rs:120-129 | `split_path(p)` yields exactly the non-empty ':'-separated fields of `p`, in input order |
| PathSplit.CollectClean | src/posix.rs:98-117 | every segment the splitter yields is non-empty and contains no ':' |
| PathSplit.Fused | src/posix.rs:110-116 | once `next` returns `None` it keeps returning `None` and the cursor stays put |
| PathSplit.LeadingColonIgnored | src/posix.rs:152-156 | a leading ':' never changes the directories a PATH names |
| PathSplit.TrailingColonIgnored | src/posix.rs:150 | a trailing ':' never changes the directories a PATH names |
| PathSplit.DoubledColonIgnored | src/posix.rs:155-156 | doubling a ':' never changes the directories a PATH names |
| PathSplit.FieldsSplitAt | src/posix.rs:100-108 | the ':'-fields of `a:b` are the fields of `a` followed by the fields of `b` |
| PathSplit.JoinRoundTrip | src/posix.rs:148-149 | joining non-empty, colon-free directories with single ':' and splitting the result gives the directories back |
| PathSplit.ScanSkips | src/posix.rs:100-101 | bytes other than ':' only move the scan point; the outcome of `next` does not change |
| PathSplit.SplitPathTableSimple | src/posix.rs:148-150 | "a:b" splits to ["a","b"] and "a:" to ["a"] |
| PathSplit.SplitPathTableWords | src/posix.rs:149 | "one:twothree" splits to ["one","twothree"] |
| PathSplit.SplitPathTableEmpty | src/posix.rs:151-154 | "", ":", "::" and ":::" yield nothing |
| PathSplit.SplitPathTableDoubled | src/posix.rs:155 | "a::b" splits to ["a","b"] |
| PathSplit.SplitPathTableMixed | src/posix.rs:156 | ":a::::b:" splits to ["a","b"] |
| CStrings.CReadTerminated | src/posix.rs:54-58 | a C reader of `s` followed by one NUL sees exactly `s` when `s` has no NUL |
| CStrings.CReadStopsAtNul | src/posix.rs:54-58 | a C reader of a buffer with a NUL at index `i` sees at most `i` bytes |
| CStrings.OsToCString | src/posix.rs:54-58 | fails with EINVAL iff the input holds a NUL byte; otherwise the result is one byte longer, ends in NUL, and reads back as the input |
| CStrings.NewCVec | src/posix.rs:72-82 | fails with EINVAL iff some input holds a NUL byte; on success there is one pointer per string plus a trailing null, each string is its input followed by one NUL, and reading the table back gives the inputs |
| CStrings.ReadTableOf | src/posix.rs:76-80 | a well-formed pointer table over `xs[i] ++ [NUL]` reads back as `xs` from any entry onward |
| Exec.MaxLen | src/posix.rs:189 | the longest length in the list (0 for an empty list): no element is longer, and some element reaches it |
| Exec.NewFinishExec | src/posix.rs:174-199 | the plan keeps its inputs and the scratch buffer starts empty; the buffer always has room for `<cmd>` plus its NUL and for every candidate `<dir>/<cmd>` or `<cmd>` plus its NUL; the longest candidate fills it exactly; a search path that names no directory still reserves `<cmd>` plus separator and NUL (`unwrap_or(0)`) |
| Exec.CandidateFillsCapacity | src/posix.rs:185-190 | when there is at least one candidate, the reserved size `cmd.len()+1` (plus `1 + longest segment` with a search path) equals the size of some candidate with its NUL; when there is none, a search path is set and the reservation is `cmd.len()+2` |
| Exec.CandidatesFollowPathDirs | src/posix.rs:204-211 | with a search path the candidates are `<dir>/<cmd>` for exactly the non-empty ':'-fields of PATH, in PATH order |
| Exec.SetExe | src/posix.rs:222-229 | the buffer ends up holding exactly the concatenated slices and one NUL, whatever it held before; its capacity is unchanged whenever that fits |
| Exec.ExecCallFor | src/posix.rs:231-243 | `execve` is used exactly when an environment vector was staged, `execv` otherwise, with the buffer as file name and the staged argv |
| Exec.ExecOnce | src/posix.rs:231-245 | exec either replaces the image or returns the OS error; it never returns success |
| Exec.TryCandidate | src/posix.rs:208-211 | one loop round execs `<dir>/<cmd>\0` and keeps the buffer's capacity when that name fits |
| Exec.SearchAndExec | src/posix.rs:204-213 | tries `<dir>/<cmd>` for the yielded directories in order, every attempt but the last failed, stops at the first that replaces the image, and otherwise reports errno after trying them all |
| Exec.Finish | src/posix.rs:201-220 | the calls made are the candidates in order; all but the last failed; the image is replaced iff the last call succeeded; an error comes only after every candidate failed and carries the last errno; a correctly sized buffer never grows |
| Exec.StageExec | src/posix.rs:248-271 | fails with EINVAL iff an argument or environment string holds a NUL; on success argv/envp are well-formed tables (one pointer per string, then a null) that read back as the inputs, PATH is searched iff `cmd` has no '/' and PATH is set and non-empty, and the plan is sized for every candidate |
| Exec.NulInCmdCutsName | src/posix.rs:253-270 | `cmd` is never checked for NUL; with a NUL in it, every candidate name the kernel reads from the buffer is shorter than `<dir>/<cmd>` or `<cmd>` |
| Process.ForkResult | src/posix.rs:35-42 | a negative return is an error, 0 means "in the child" (`None`), and a positive return is the child's pid |
| Process.DecodeExitStatus | src/posix.rs:291-301 | exited is checked first, then signaled; anything else is `Other` carrying the raw status unchanged |
| Process.Waitpid | src/posix.rs:279-289 | a negative return is the OS error; otherwise the pid and the decoded status |
| Process.UnitResult | src/posix.rs:305-308 | `kill` (like `setuid`, `setgid`, `dup2`) succeeds iff the syscall returned a non-negative value |
| Poll.TimeoutMs | src/posix.rs:391-400 | no timeout gives -1 without overflow; otherwise the value passed never exceeds the request, fits in i32, and is smaller than the request exactly when it was clamped to `i32::MAX` |
| PollFds.NewPollFd | src/posix.rs:371-377 | a missing descriptor becomes -1; events are kept and no event is reported yet |
| PollFds.FreshReportsNothing | src/posix.rs:371-380 | `test` on a fresh `PollFd` is false for every mask |
| PollFds.Test | src/posix.rs:378-380 | `test` is true exactly when some event bit is set both in the reported events and in the mask |
| PollFds.TestMeansSharedEvent | src/posix.rs:378-380 | `revents & mask != 0` holds exactly when the two masks share an event bit |
| PollFds.TestSingleEvent | src/posix.rs:378-380 | `test` with a single-event mask `1 << b` is true exactly when bit `b` of `revents` is set |
| Poll.Poll | src/posix.rs:385-414 | the first call gets the clamped request; each later call gets the clamped time left to the original deadline, which is positive; the loop repeats only after a clamped, zero-ready call before the deadline; a non-zero count or an error returns at once; zero is returned only when the last call was given the whole remaining time or the deadline has passed |

## Left out

- Real syscalls (`fork`, `execv`/`execve`, `waitpid`, `kill`, `setuid`, `setgid`, `pipe`, `fcntl`, `dup2`, `poll`): the model has only their return values and errno, as parameters or oracles.
- `pipe` and `fcntl`: after the syscall they apply only `check_err` (`Sys.CheckErr`), so they get no member of their own.
- `_exit`, `reset_sigpipe`, `make_standard_stream`: these only cause OS side effects (process exit, signal mask, a deliberate `Rc` leak).
- `CVec::as_c_vec`, raw pointer validity and lifetimes: pointers are indices into the owned strings.
- `RefCell` borrow mechanics: the scratch buffer is passed and returned as a value.
- The exact growth amount of `Vec` when it must reallocate: it is std-internal and not in this file. The model only claims that capacity is unchanged when the contents fit.
- The libc wait-status macros: they are parameters (`WaitMacros`), because their bit layout is platform-defined.
- Reading `PATH` from the environment: its value is a parameter of `StageExec`.
- The closure that `stage_exec` returns: `StageExec` returns the plan, and calling the closure is `Finish`.
- `Instant` and `Duration`: time is whole milliseconds on an abstract clock. The sub-millisecond part of the deadline and the flooring of `as_millis` are not modelled.
- Poll.Poll: the panic of `Instant::now() + timeout` when the deadline falls outside the clock's range (for example `Duration::MAX`) is not modelled; the model accepts every timeout and always makes the first call. The `fds` slice and the `revents` the syscall writes into it are not modelled; only the ready count is. A wait that never ends is modelled as a finite reply trace that runs out (`Waiting`).
- Exec oracle: the same exec call always gets the same reply, within one run of `finish`.
