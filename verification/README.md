# vpsctl: a verified model of its stateful core

A Dafny 4.11 model of the parts of the vpsctl panel whose guarantees range over whole runs, with
proofs of those guarantees. `dafny verify dfyconfig.toml` checks all of it.

- **Accounts** (`Accounts`, `Answers`, `Lockout`, `SecondFactor`, `Credentials`). The account map as
  a value, what each Manager call does to it and the exact condition of each answer, and theorems
  about arbitrary runs of calls with a clock that does not go back: how many wrong passwords and
  codes can be evaluated in an interval (and that the bound is reached), that no lockout is
  permanent, that a verified second factor is never bypassed, that a changed password or an enrolled
  secret is what later calls check.
- **The users file** (`Storage`). Saves that work, fail or are cut short, and restarts, as runs
  over a disk; these refine a ledger without lists, orders or files.
- **The Manager and handler objects** (`AccountManager`, `AuthHandlers`). The classes with their
  fields and loops, each method tied to the functions above.
- **Sessions** (`Sessions`). Login, refresh and logout over the refresh store and the set of
  minted tokens: logout is final, accepted tokens descend from a login and are accepted for a day,
  the store is the history, and the accounts of a session are those of its Manager calls.
- **The rate limiter** (`RateLimiter`). Its comment promises a sliding window; the code restarts a
  fixed one. The sharp bound for any number of windows, when the comment is right, the bound for
  clock readings in any order, and independence of keys.
- **Paths** (`Text`, `Paths`, `Files`). Go's lexical path functions and their documented rules,
  exactly what `resolve` accepts and returns under the configured directory, and the listing and
  upload round trips.
- **The terminal session** (`Terminal`). The two forwarding goroutines and the shutdown as
  interleaved steps: order-preserving forwarding that no frame can stop, one close of `done`, and
  only after a failed read or send, and termination.
- **Supporting pieces** (`Decimal`, `ShowOutput`, `CpuSampler`): the decimal printers, the
  `key=value` parser over the line scan, and CPU shares across samples.

`Results` and `Arithmetic` are helpers.

## How to read the model

Times are integers, nanoseconds after Go's zero time, which is 0. A call that reads the clock takes
its readings as arguments, in the order the code takes them. Password matching and TOTP checking
are arbitrary functions in `Env`; random strings and bcrypt results are arguments. A JWT is an ideal
record that cannot be forged; its expiry is cut to whole seconds as a NumericDate is, and compared
as section 4.1.4 of RFC 7519 asks. Every handler call is one atomic step. A save takes a `Fault`;
each fault also stands for a crash at that point of the save. Strings are sequences of bytes; only
ASCII bytes are ever compared. In the classes a few steps the source writes out more than once have
a method of their own (`Put`, `Fail`, `AddUser`, `Grant`, `FillDigits`), and `Commit` is SaveLocked
with its effect stated for the whole call.

Where the code and its comments disagree the model follows the code:

- the limiter is called a sliding window (`internal/middleware/middleware.go:87`) and is one only
  for a limit of one or a window of one tick (`RateLimiter.SlidingLimitExactly`);
- `resolve` promises to reject traversal segments instead of clamping them
  (`internal/handlers/file_handler.go:31-32`), but Upload cleans the target first, so only what
  cleaning leaves is scanned (`Files.UploadExact`, `Files.UploadCleansBeforeTheScan`);
- a listed path resolves back only when no part of the name between backslashes is `..`
  (`Files.ListedPathResolvesBack`);
- writes to the PTY ignore their result (`internal/terminal/terminal.go:134,138`), so the shell is
  sure to see a prefix of the input exactly when nothing follows a short write
  (`Terminal.ShellSeesPrefixIffSticky`, and a session that fails: `Terminal.ShellCanMissAByte`);
- the middleware's printer prints the 64-bit minimum as a bare minus sign
  (`Decimal.SignedReadsBack`);
- Authenticate ignores a failed save, so a counted miss survives a restart exactly when its save
  worked (`Storage.MissSurvivesIffSaved`).

## Model

| member | source | states |
|---|---|---|
| Accounts.StepKeeps | internal/auth/auth.go:170-344 | every Manager call keeps each account stored under its own name and verified-implies-required, and removes no account, changes no role and drops no code requirement |
| Accounts.UnsavedChangesNothing | internal/auth/auth.go:195-222 | a call that does not save (unknown user, locked, code required, not configured, rejected) changes no account |
| Accounts.OthersUntouched | internal/auth/auth.go:169-345 | an account that exists is changed only by calls that name it |
| Accounts.RunKeeps | internal/auth/auth.go:169-345 | the same invariants over every run of calls |
| Accounts.RunKeepsBounds | internal/auth/auth.go:206-214 | over every run with a forward clock, counters stay in 0..max-1 and no deadline is more than one lockout after the last clock reading |
| Answers.AuthenticateAnswers | internal/auth/auth.go:191-242 | which of its answers Authenticate gives, each exactly on its own condition over the stored fields, the password, the code and the clock; a wrong attempt is an evaluated wrong password or wrong code |
| Answers.AuthenticateLeaves | internal/auth/auth.go:202-241 | a wrong attempt, by password or code, is counted or locks, a right one clears both, both are saved; every other answer changes and saves nothing |
| Answers.RegisterAnswers | internal/auth/auth.go:170-187 | registering succeeds exactly for a free name that can be hashed, and leaves exactly the account asked for |
| Answers.SetSecretAnswers | internal/auth/auth.go:281-291 | enrolling replaces the secret, marks it unproven, and touches nothing else |
| Answers.VerifyAnswers | internal/auth/auth.go:294-311 | exactly a code valid for the stored secret is accepted, and marks it verified and required |
| Answers.ChangePasswordAnswers | internal/auth/auth.go:326-345 | a change is accepted exactly from the old password, for a new one of at least eight bytes that can be hashed |
| Answers.BootstrapAnswers | internal/auth/auth.go:418-438 | the administrator is created exactly when missing, with the administrator role and no code required |
| Lockout.MissUsesOne | internal/auth/auth.go:206-231 | one evaluated wrong password or code uses up exactly one of the attempts left before a given time, whether or not it locks |
| Lockout.AttemptsBound | internal/auth/auth.go:191-242 | from any state inside the interval, evaluated wrong passwords and codes never exceed the attempts left |
| Lockout.LockoutBound | internal/auth/auth.go:191-242 | in any run without a right login of the user in a closed interval of length T, the evaluated wrong passwords and wrong codes there, told by the stored fields and not by the answer, number at most max*(T/lock + 1), from any non-negative counter and whatever else is called |
| Lockout.LockoutBoundAttained | internal/auth/auth.go:202-231 | from every state with a non-negative counter, for every interval and every password and code wrong throughout it, by either, some run evaluates exactly the attempts left that AttemptsBound allows; from a zero counter and no lock past the start that is the number of LockoutBound |
| Lockout.NoPermanentLockout | internal/auth/auth.go:202-241 | after any run, from the deadline on (at most one lockout after the last reading) the right password, with a valid code where one is needed, logs in, clears counter and deadline and leaves all other accounts alone |
| SecondFactor.CodeNeededIffRequired | internal/auth/auth.go:216 | in every state reached from one where verified implies required, a code is needed exactly when it is required: the second disjunct is redundant |
| SecondFactor.SecondFactorStays | internal/auth/auth.go:216-233 | once VerifyTOTP succeeds for a user, every later successful login of that user, after any run, supplied a code valid for the secret stored at that moment |
| SecondFactor.SecondFactorSurvivesRestarts | internal/auth/auth.go:99-311 | the same over runs with failed and interrupted saves and restarts: once VerifyTOTP has answered success no restart goes back behind it |
| SecondFactor.RolesNeverChange | internal/auth/auth.go:169-345 | no run of Manager calls removes an account or changes its role |
| Credentials.PasswordChangeTakesEffect | internal/auth/auth.go:326-345 | a change needed a matching old password and eight bytes; afterwards, until the next change, an unlocked login answers "wrong password" exactly when the password does not match the new hash, and succeeds exactly with everything right against it |
| Credentials.RegistrationTakesEffect | internal/auth/auth.go:170-242 | a registration takes a free name; until the password changes, a login of that name needs a match for the registered hash, a valid code if required, and yields the registered role |
| Credentials.NewAccountLogsIn | internal/auth/auth.go:170-242 | after a registration or a bootstrap and any run without a new password or an enrolment of that account, an unlocked login with a matching password succeeds if and only if no code was required |
| Credentials.BootstrapOnce | internal/auth/auth.go:418-438 | after a successful bootstrap every later state has an account named `admin`, with the administrator role if that bootstrap created it, and later bootstraps change and save nothing |
| Credentials.EnrolmentNeedsProof | internal/auth/auth.go:281-311 | an enrolled secret stays until the next enrolment and counts as verified only if a code valid for that very secret was presented |
| Credentials.EnrolmentCompletes | internal/auth/auth.go:281-311 | until the next enrolment exactly the codes valid for the enrolled secret are accepted as proof, after any run, and from then on logins are asked for a code |
| Storage.LoadUndoesSave | internal/auth/auth.go:114-132 | loading a saved map gives back exactly the map, in whatever order the map was iterated |
| Storage.LoadedIsKeyed | internal/auth/auth.go:114-116 | whatever list the file holds, the loaded map stores every account under its own name |
| Storage.StartExactly | internal/auth/auth.go:61-118 | a start fails exactly on a file that cannot be read or parsed, or when there is no account and the first cannot be hashed or saved; otherwise it holds the last record of every name with the disk unchanged, or exactly one administrator, which the file then holds too |
| Storage.BootAgrees | internal/auth/auth.go:74-96 | every start that succeeds, from any disk, has accounts and holds in memory exactly what its users file loads to |
| Storage.FileIsLastSave | internal/auth/auth.go:99-143 | in every run of calls, failed or interrupted saves and restarts, the users file loads to exactly the accounts of the last save that worked, and a restart resumes from them |
| Storage.CrashIsAllOrNothing | internal/auth/auth.go:134-142 | a save interrupted at any point and followed by a restart leaves the accounts of the last completed save, a completed one the new accounts, never a mixture |
| Storage.AnswersAreHonest | internal/auth/auth.go:170-345 | a call other than Authenticate answers "save failed" exactly when its save failed, and one that saved and was accepted survives a restart |
| Storage.RestartsAreInvisible | internal/auth/auth.go:74-76 | while saves work, a run with restarts ends with the accounts, in memory and in the file, of its calls alone |
| Storage.MissSurvivesIffSaved | internal/auth/auth.go:206-231 | from agreeing file and memory, a wrong password or code that counted (or locked) is still counted after a restart if and only if its save worked; with a failed one the restart is back at the accounts before it |
| AccountManager.User.CountFailure | internal/auth/auth.go:207-211 | the in-place count-or-lock of a failed attempt |
| AccountManager.Manager.New | internal/auth/auth.go:61-97 | null exactly when the directory cannot be made, the file cannot be read or parsed, or there is no account and hashing or saving the first fails; otherwise the last record of every name and the disk as it was, or exactly one administrator, in memory and in the file |
| AccountManager.Manager.LoadFile | internal/auth/auth.go:99-118 | the loop over the records fills the map with their index, a later record of a name replacing an earlier one |
| AccountManager.Manager.SaveLocked | internal/auth/auth.go:128-143 | writes every account once, in some order, to the temporary file and renames it; each fault leaves the corresponding disk |
| AccountManager.Manager.Get | internal/auth/auth.go:158-167 | a copy of the account stored under the name, if there is one |
| AccountManager.Manager.Authenticate | internal/auth/auth.go:191-242 | the in-place update, the save and the answer are those of the account model for the same readings |
| AccountManager.Manager.RegisterUser | internal/auth/auth.go:170-187 | likewise, adding a fresh user object |
| AccountManager.Manager.SetTOTPSecret | internal/auth/auth.go:281-291 | likewise for enrolment |
| AccountManager.Manager.VerifyTOTP | internal/auth/auth.go:294-311 | likewise for verification |
| AccountManager.Manager.ChangePassword | internal/auth/auth.go:326-345 | likewise for a password change |
| AccountManager.Manager.EnsureBootstrap | internal/auth/auth.go:418-438 | likewise for the administrator account |
| Sessions.MintedExpireSoon | internal/auth/auth.go:355-372 | in every run no minted JWT expires more than 24 hours after the last clock reading |
| Sessions.AcceptedForADay | internal/auth/auth.go:355-392 | in every run the JWT a login or a refresh gives is accepted, whatever follows and logouts included, until the whole second of its minting plus 24 hours, and refused from then on |
| Sessions.LoginSucceedsIff | internal/handlers/auth_handler.go:43-58 | a login succeeds exactly when name and password are given and password, lock and code are in order |
| Sessions.AccountsAreRuns | internal/handlers/auth_handler.go:43-116 | the accounts of a session are those of the Manager calls it makes, so the lockout bound and every other result about runs of calls holds over sessions |
| Sessions.LogoutEndsRefresh | internal/handlers/auth_handler.go:88-132 | in any run with a logout and no successful login after it, every later refresh fails, whatever came before |
| Sessions.LogoutIsFinal | internal/handlers/auth_handler.go:43-132 | in any such run with the logout at t nothing is minted any more, and no token of any user is accepted at t + 24h or later |
| Sessions.LoginRevives | internal/handlers/auth_handler.go:66-71 | a login that succeeds, with no logout after it, leaves a refresh token that refreshes until 14 days after its issue |
| Sessions.StoredCameFromLogin | internal/handlers/auth_handler.go:66-71 | every stored refresh token is the very one a successful login of its user drew, expiring 14 days after that login issued it |
| Sessions.MintedCameFromLogin | internal/handlers/auth_handler.go:54-106 | every minted JWT was made by a successful login of its user, or by a successful refresh with the very token that login issued, has the identifier and expiry minted there, and carries the role the user still has |
| Sessions.AcceptedTokensDescend | internal/handlers/auth_handler.go:54-116 | every token accepted at a time descends from a login of its user less than 14 days and 24 hours before, plus the time the refresh handler took between check and minting |
| Sessions.StoreIsIssued | internal/handlers/auth_handler.go:66-132 | the refresh store holds for a string exactly the token of the last successful login that drew it, unless a logout followed |
| Sessions.RefreshIffIssued | internal/handlers/auth_handler.go:88-116 | a refresh succeeds exactly when such a token exists and has not expired; no refresh makes, extends or spends one |
| AuthHandlers.AuthHandler.Login | internal/handlers/auth_handler.go:43-81 | the handler's effect on accounts, store and minted tokens is the session step; it answers with tokens exactly when that step logs in, and "bad request" exactly without a name or a password; the JWT is that user's, minted then, and is accepted at once |
| AuthHandlers.AuthHandler.Refresh | internal/handlers/auth_handler.go:88-116 | likewise for a refresh, which changes only the minted tokens; the JWT is that of the refresh token's owner |
| AuthHandlers.AuthHandler.Logout | internal/handlers/auth_handler.go:119-132 | the deleting loop empties the store |
| RateLimiter.Limiter.constructor | internal/middleware/middleware.go:96-108 | no entries, with the defaults for a limit or window that is not positive |
| RateLimiter.Limiter.Allow | internal/middleware/middleware.go:110-122 | the decision and the new windows are those of the specification; other keys' windows stay |
| RateLimiter.AllowanceBounds | internal/middleware/middleware.go:114-121 | from inside a window, admissions before a time never exceed the rest of the window plus a full limit per further window |
| RateLimiter.SlidingBound | internal/middleware/middleware.go:110-122 | for nondecreasing times every half-open interval of k windows admits at most limit*(k+1) - 1 requests of a key |
| RateLimiter.SlidingBoundAttained | internal/middleware/middleware.go:110-122 | for every limit and k some run reaches that bound, given a window of at least two clock ticks |
| RateLimiter.SlidingLimitExactly | internal/middleware/middleware.go:87-122 | no sliding interval exceeds the limit, as the comment promises, if and only if the limit is one or the window one tick |
| RateLimiter.AnyOrderBound | internal/middleware/middleware.go:110-122 | with clock readings in any order, a key's admissions number at most limit*(1 + (latest - first)/window) |
| RateLimiter.NoCallDelaysTheWindow | internal/middleware/middleware.go:114-121 | no number of calls before a window ends moves it; the first call at its end is admitted |
| RateLimiter.DeniedOnlyAtTheLimit | internal/middleware/middleware.go:120-121 | with nondecreasing times a call is denied only when at least `limit` requests of its key were admitted less than a window ago |
| RateLimiter.DecisionAt | internal/middleware/middleware.go:110-122 | the decisions of a run are those on the windows left by the calls before |
| RateLimiter.KeysAreIndependent | internal/middleware/middleware.go:110-122 | a key's decisions and window in any interleaving are those of a limiter that sees only that key's calls |
| Paths.CleanIdempotent | internal/handlers/file_handler.go:22-38 | cleaning a cleaned path changes nothing |
| Paths.CleanSkips | internal/handlers/file_handler.go:22-38 | an empty or `.` element at the end changes nothing |
| Paths.CleanAppends | internal/handlers/file_handler.go:38 | a name is appended to the cleaned path |
| Paths.CleanCancels | internal/handlers/file_handler.go:22-38 | a name followed by `..` changes nothing |
| Paths.CleanClimbs | internal/handlers/file_handler.go:22-38 | a `..` with nothing to cancel vanishes at the root and adds up on a relative path |
| Paths.RelBelow | internal/handlers/file_handler.go:40 | the relative path from a path to one below it is exactly the extra segments |
| Paths.RelJoins | internal/handlers/file_handler.go:40-51 | whenever Rel has an answer, joining it onto the base gives the cleaned target |
| Paths.RelFails | internal/handlers/file_handler.go:40-51 | Rel has none exactly between an absolute and a relative path, and from a base that climbs further than the target |
| Files.ResolveExact | internal/handlers/file_handler.go:27-46 | the lexical part accepts exactly the paths without a `..` segment (backslashes read as slashes), so the Rel check never fires, and returns the base's segments followed by the path's without empty and `.` ones |
| Files.ResolvedLiesUnderBase | internal/handlers/file_handler.go:38-46 | as strings, an accepted path is the cleaned base or lies below it |
| Files.TraversesExactly | internal/handlers/file_handler.go:33-37 | the scan refuses exactly the paths with two dots between slashes of either kind or the path's ends |
| Files.ServesConfigured | internal/handlers/file_handler.go:18-46 | a handler made for a directory accepts exactly the paths without such dots and resolves them to that directory's segments, or the root's when none is configured, followed by the path's plain parts |
| Files.ServesUnderConfigured | internal/handlers/file_handler.go:18-46 | as strings, what it accepts is the configured directory, cleaned, or lies below it |
| Files.SymlinkCheckExact | internal/handlers/file_handler.go:47-55 | a path the lexical part refuses stays refused; of the others the symlink check accepts exactly the link targets within the base, which for absolute paths are those that start with the base's segments; it does not apply when EvalSymlinks or Rel fails |
| Files.FileHandler.List | internal/handlers/file_handler.go:94-110 | the loop lists the entries with file info, in order, with that info and their reported paths |
| Files.ListingConcat | internal/handlers/file_handler.go:94-110 | a listing keeps the order of the entries and is made of the listings of its parts |
| Files.EveryEntryIsListed | internal/handlers/file_handler.go:95-109 | every entry that has file info appears under its name, with its info and reported path |
| Files.ListedPathResolvesBack | internal/handlers/file_handler.go:100-108 | an entry's reported path resolves back to the entry if and only if no part of its name between backslashes is `..` |
| Files.ListingResolvesBack | internal/handlers/file_handler.go:94-110 | every line of a listing is an entry with file info, and its path resolves back to it under the same condition |
| Files.UploadExact | internal/handlers/file_handler.go:186-187 | for every destination and filename, the upload target is accepted exactly when no segment that cleaning leaves of the two joined is refused by the scan, and is then those segments below the base |
| Files.UploadLandsInDestination | internal/handlers/file_handler.go:186-187 | a name uploaded into an accepted destination resolves to that name in the resolved destination if and only if no part of it between backslashes is `..` |
| Files.UploadCleansBeforeTheScan | internal/handlers/file_handler.go:186-187 | two targets spelled with `..`, one in the destination and one as the filename, that resolve refuses as spelled and Upload has accepted, cleaned |
| Terminal.InvHolds | internal/terminal/terminal.go:87-157 | the shutdown and both stream invariants hold in every state of every interleaving |
| Terminal.SessionEndsOnFailureOnly | internal/terminal/terminal.go:92-144 | in every session each goroutine leaves its loop exactly after a failed read or send of its own, so no frame, resize or malformed message closes `done` |
| Terminal.FailureClosesDone | internal/terminal/terminal.go:89-116 | a goroutine past its loop closes `done` by its own next step, once |
| Terminal.NothingReadIsLost | internal/terminal/terminal.go:97-109 | while no send fails, all that was read from the PTY is sent or in hand, the bytes of a read that also failed included |
| Terminal.AnyOutputIsRelayed | internal/terminal/terminal.go:97-109 | any chunks of up to 4096 bytes can be read and sent on, with the session still running |
| Terminal.AnyFramesAreTakenIn | internal/terminal/terminal.go:117-141 | any frames can be taken in with the session still running, writing out exactly the binary data and "input" text, in order; resizes, unknown, malformed and other frames write nothing |
| Terminal.ClientSeesPrefix | internal/terminal/terminal.go:94-109 | in every interleaving the bytes sent to the client are a prefix of those read from the PTY |
| Terminal.ShellSeesPrefix | internal/terminal/terminal.go:113-141 | in every interleaving the PTY is offered a prefix of the input (binary frames and "input" data in arrival order), and gets a prefix of it if nothing follows a short write |
| Terminal.HealthyPtySeesPrefix | internal/terminal/terminal.go:134-155 | if writes to the open PTY go out whole, closing it in the middle of a session still leaves the shell a prefix of the input |
| Terminal.PrefixIffSticky | internal/terminal/terminal.go:134-138 | for a list of writes, what went out is a prefix of what was offered, for all bytes of those lengths, if and only if nothing follows a short write |
| Terminal.TypingMakes | internal/terminal/terminal.go:113-141 | every list of writes to the PTY, with any counts, is made by some session, and offers all of its input |
| Terminal.ShellSeesPrefixIffSticky | internal/terminal/terminal.go:113-141 | every session that makes writes of given lengths and counts leaves the shell a prefix of the client's input if and only if nothing follows a short write |
| Terminal.ShellCanMissAByte | internal/terminal/terminal.go:134-138 | a session of two one-byte frames in which the shell gets only the second |
| Terminal.ShutdownOrder | internal/terminal/terminal.go:87-157 | `done` is closed at most once, by a goroutine that ended; neither end is closed before; ServeHTTP returns only after both goroutines |
| Terminal.ShutdownTerminates | internal/terminal/terminal.go:153-157 | once both ends are closed, every run is no longer than a measure of main's steps, live goroutines and buffered frames |
| Terminal.MainIsNeverHeldBack | internal/terminal/terminal.go:143-157 | after `done` is closed and until both ends are, main's next step is always possible and no other step sets it back |
| Terminal.StuckMeansOver | internal/terminal/terminal.go:143-157 | a session whose `done` is closed and that cannot move has returned, with both goroutines finished, given that Wait on the ended process returns |
| Decimal.MiddlewareItoa | internal/middleware/middleware.go:300-320 | never leaves its 20-byte buffer and returns the signed decimal form, a bare minus for the 64-bit minimum |
| Decimal.TerminalItoa | internal/terminal/terminal.go:236-248 | never leaves its buffer and returns the decimal form, nothing for negative numbers |
| Decimal.SignedReadsBack | internal/middleware/middleware.go:300-320 | the printed form reads back as the number if and only if it is not the 64-bit minimum |
| Decimal.SignedIsInjective | internal/middleware/middleware.go:300-320 | no two numbers print alike and nothing but zero starts with a zero |
| Decimal.PrintersAgree | internal/terminal/terminal.go:236-248 | the two printers agree exactly on the numbers that are not negative |
| ShowOutput.SplitLines | internal/handlers/docker_handler.go:188-202 | the index scan returns the newline-separated parts, each without one trailing carriage return |
| ShowOutput.LinesExactly | internal/handlers/docker_handler.go:188-202 | the lines are the text again when joined with newlines, after giving each the one carriage return it lost |
| ShowOutput.ParseShow | internal/handlers/service_handler.go:153-165 | the loop collects the lines cut at their first `=` |
| ShowOutput.LastLineWins | internal/handlers/service_handler.go:155-163 | for any text, a key is present exactly when some line starts with it and an `=`, with the rest of the last such line as its value |
| ShowOutput.PrintedReadsBack | internal/handlers/service_handler.go:153-165 | printed entries read back as their table, up to one carriage return a plain LF ending takes from a value |
| ShowOutput.ShowRoundTrip | internal/handlers/service_handler.go:153-165 | printing a table in any order with LF or CRLF endings and parsing it gives the table back if and only if keys hold no `=` or newline, values no newline, and no value before a plain LF ends in a carriage return |
| CpuSampler.ReadTimes | internal/handlers/system_handler.go:280-299 | the counters of a snapshot and their 64-bit total; none for fewer than four |
| CpuSampler.Sampler.ReadCPU | internal/handlers/system_handler.go:254-266 | reports the shares since the previous snapshot and replaces it |
| CpuSampler.TimesExactly | internal/handlers/system_handler.go:284-299 | a snapshot keeps the first four counters in their order and the 64-bit sum of all; fewer than four give zeros |
| CpuSampler.ReportsAdvance | internal/handlers/system_handler.go:254-266 | between any two snapshots, rising or not, a field's report is a hundred times its own advance over the total's, a counter that went back having come round 64 bits; all zeros when the total is the same |
| CpuSampler.ReportsExactly | internal/handlers/system_handler.go:254-266 | in every such run a field's report is a hundred times its own advance over that of all counters, and everything is zero when nothing advanced |
| CpuSampler.ReportsWithinHundred | internal/handlers/system_handler.go:254-266 | in every run of rising snapshots each report's shares are not negative and add up to at most 100 |
| CpuSampler.ReportsTelescope | internal/handlers/system_handler.go:254-266 | in every such run the reports of a field, weighted by the time they cover, add up to 100 times its last counter; a sample with no time passed adds nothing to the sum |

## Left out

- bcrypt, TOTP code generation, JWT signing and parsing, and random bytes: arbitrary functions or arguments instead.
- JSON, YAML and HTTP encoding, and the status codes for malformed bodies: the users file is a list of records or does not parse; handlers take parsed arguments.
- Overlapping handler calls: the refresh store and the last CPU times are unsynchronised in the source; each call is one step here.
- Durability below the rename: a completed rename is taken to persist.
- The issued-at claim of a JWT, which is written and never read.
- AccountManager.Manager.LoadFile: does not model a `null` element in the users file, which ends the program.
- RateLimiter.Limiter.Allow: does not model 64-bit wrap-around of the count, which needs 2^63 calls in one window, or saturation of time differences beyond 292 years.
- RateLimiter.SlidingBoundAttained: needs a window of two clock ticks; for one tick the sharp bound is in RateLimiter.OneTickBound.
- Paths: `filepath.Clean`, `Join` and `Rel` follow their documentation; their code is not part of this model. Errors of `Rel` on relative bases that climb above the target follow the documentation's wording.
- Files: `EvalSymlinks` is an arbitrary function; reading, writing, renaming and deleting files are not modelled.
- Terminal: modelled as a step system over values, because its subject is interleaving; PTY allocation, window sizes, and the signal and kill block are not modelled, and "Close makes later reads and writes fail" is an assumption, stated where a step is enabled. So is "Wait returns": once both goroutines have finished, the last step of ServeHTTP is always possible, which `Terminal.StuckMeansOver` rests on.
- CpuSampler.Sampler.ReadCPU: percentages are real numbers, not floats; a failed read of `/proc/stat` resets the snapshot to zeros, which the rising runs of the theorems exclude.
- Docker, systemctl, journalctl and /proc readers, CORS, headers, IP lists, routing, configuration loading beyond its validated bounds, metrics history and the web client: plumbing, or easy members only.
