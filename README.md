# Listener bootstrap and lock-free logging, modelled in Dafny

This project models the bootstrap layer of a small Redis-derived network
service:

- the calendar decomposition of `log.c` (`is_leap_year` and
  `nolocks_localtime`), which turns a Unix timestamp, a timezone offset and a
  daylight-saving flag into the fields of a `struct tm` without calling the
  C library;
- the decision policy of `serverLog` (masking the modifier bits, filtering by
  the threshold, choosing standard output or the log file, choosing raw or
  prefixed output and the severity mark), and the logger singleton that
  `logInit`, `setLogLevel` and `logRelease` manage;
- the listening-socket set of `server.c`: `listenToPort` binds the
  configured addresses into a fixed array of 16 slots, skipping some errors
  and rolling back on the others; `createSocketAcceptHandler` registers all
  the sockets with the event loop or none of them; `closeSocketListeners`
  unregisters and closes them; plus the start-up guard that binds only when a
  port is configured.

Files:

- `wrappers.dfy` holds an `Option` type.
- `calendar.dfy` (module `Calendar`) holds the calendar. The year and month
  loops are specified as the recursive searches `FindYear` and `FindMonth`,
  and `Decompose` is built from them. The method `NoLocksLocaltime` keeps the
  C loops, including the local month table in an array whose February entry
  is bumped, and is proved equal to `Decompose`. The lemmas prove:
  - the field ranges;
  - that the year and month loops consume exactly the days they skip;
  - that the timestamp rebuilt from the fields (`ToTimestamp`) gives back the
    adjusted input, and, the other way, that decomposing the timestamp of
    well-formed fields gives those fields back;
  - three dates: the epoch, 1 January 1971 and 29 February 2000.
- `log.dfy` (module `Log`) holds the log policy. `LogLine` is the line one
  call of `serverLog` prints, if any. The class `Logger` holds the fields of
  `g_log` and `g_init`, plus the text written to each sink. Its method
  `ServerLog` mirrors the C body and calls `Calendar.NoLocksLocaltime`.
- `listeners.dfy` (module `Listeners`) holds the listening-socket set.
  - The world is a value: the fd slots, the count, the set of open
    descriptors, the set of registered descriptors, and the trace of calls
    made to the system and the event loop.
  - `ListenFrom`, `CloseFrom`, `RegisterFrom` and `Rollback` say how each
    C loop moves the world.
  - The class `SocketFds` holds the `fd` array and `count`.
  - The class `Host` stands for the operating system and the event loop. Its
    methods take the system's answer as a parameter (a descriptor or an
    errno; success or failure of a registration).
  - The methods `ListenToPort`, `CreateSocketAcceptHandler`,
    `CloseSocketListeners` and `StartListening` keep the C loops. Each is
    proved to move the world exactly as its function says.

The comment at server.c:18-19 calls the registration of the accept handler
atomic over all the descriptors, and the comment at server.c:81 calls the
close after a failed bind a rollback of the listens that succeeded. Together
they describe the socket set as all-or-nothing: a failed registration or a
failed bind undoes what the call did. Where that intent and the code differ, the model follows the
code:

- **Rollback after a failed bind.** `listenToPort` calls
  `closeSocketListeners`, which closes every listed slot of the set. That
  includes descriptors the set already held before the call, not only those
  the call opened. `Listeners.ListenAbortEffect` states it this way.
- **Rollback after a failed registration.** `createSocketAcceptHandler`
  unregisters slots `j-1` down to `0` whether or not they were registered
  before the call. So a registration that existed before the call, on one of
  those descriptors, is removed as well. `Listeners.RegisterRollback` states
  this: descriptors outside those slots keep their registration.
- **No capacity check.** There is no check against the capacity of the set,
  and no "capacity exceeded" error. Staying within the 16 slots is a
  precondition of `Listeners.ListenToPort`.
- **No bind address at all.** `listenToPort` returns `C_OK` without binding
  anything, as server.c:55-56 does. The comment at server.c:40-42 describes
  a fallback to the wildcard address that the code does not have.

## Model

| member | source | states |
|---|---|---|
| `Calendar.IsLeapYear` | log.c:32-37 | A year is leap iff it is divisible by 4 and either not by 100 or also by 400, decided by the same chain of tests. |
| `Calendar.MonthTable` | log.c:73-74 | The month table after the leap adjustment has twelve months, none of them empty. |
| `Calendar.MonthTableLengths` | log.c:73-74 | The adjusted table lists the Gregorian month lengths, February having 29 days exactly in leap years. |
| `Calendar.MonthTableTotal` | log.c:73-74 | The month lengths add up to 365 days, or 366 in a leap year. |
| `Calendar.DaysSinceEpoch` | log.c:60-68 | From 1970 to 2100, the days in the years before `year` are 365 per year plus one per leap year. |
| `Calendar.FindYear` | log.c:60-68 | The year loop ends on a year not before its start, with a day of the year inside that year and not after the days it was given. |
| `Calendar.FindYearSums` | log.c:60-68 | The days given to the year loop equal the lengths of the years it skipped plus the day of the year it returns. |
| `Calendar.FindYearOfSum` | log.c:60-68 | Given the skipped year lengths plus a day inside the year, the year loop lands on that year and that day: its result is the only decomposition. |
| `Calendar.FindMonth` | log.c:76-80 | For a day inside the year, the month loop stops in a month no later than December, on a day inside that month. |
| `Calendar.FindMonthSums` | log.c:76-82 | The day of the year equals the lengths of the months the loop skipped plus the day of the month it returns. |
| `Calendar.FindMonthOfSum` | log.c:76-80 | Given the skipped month lengths plus a day inside a month, the month loop lands on that month and that day. |
| `Calendar.Decompose` | log.c:39-84 | What `nolocks_localtime` writes for an adjusted time from the epoch on: calendar year 1970 or later, month 0..11, day of the month 1..31, hour, minute and second in range, day of the year 0..365, and `isdst` the flag given. |
| `Calendar.NoLocksLocaltime` | log.c:39-84 | The C loops (timezone and daylight adjustment, the year loop, the bumped local month table, the month loop) compute exactly `Decompose` of their inputs. |
| `Calendar.SplitSecondOfDay` | log.c:46-52 | For a second of the day, hour, minute and second lie in 0..23, 0..59 and 0..59, and `hour*3600 + min*60 + sec` gives the second of the day back. |
| `Calendar.FromDaysFields` | log.c:46-83 | The fields computed from a day count and a second of the day are well-formed, and add back up to that day count and that second. |
| `Calendar.DecomposeWellFormed` | log.c:39-84 | For an adjusted time from 1970 on, every field lies in its range: the year is 1970 or later, the month is 0..11, the day of the month is 1..month length, the weekday is 0..6, the day of the year lies inside the year and equals the earlier months plus the day of the month minus one, and `isdst` is the flag given. |
| `Calendar.DecomposeDays` | log.c:44-57 | The fields count the whole days since the epoch of the adjusted time and the seconds into the last day, and the weekday is `(days+4)%7`. |
| `Calendar.DecomposeRoundTrip` | log.c:44-83 | Rebuilding the timestamp from the fields gives back `t - tz + 3600*dst`. |
| `Calendar.DecomposeOfTimestamp` | log.c:39-84 | For any timezone, decomposing the timestamp whose adjusted time is the timestamp of well-formed fields gives those fields back, daylight-saving flag included; so the decomposition is onto the well-formed fields. |
| `Calendar.EpochIsThursday` | log.c:54-57 | Timestamp 0 is Thursday 1 January 1970, 00:00:00, day 0 of the year. |
| `Calendar.FirstDayOf1971` | log.c:60-68 | Timestamp 31536000 is Friday 1 January 1971, because 1970 is not leap. |
| `Calendar.LeapDayOf2000` | log.c:32-37 | 2000 is leap and 1900 is not; timestamp 951782400 is Tuesday 29 February 2000, day 59 of the year. |
| `Log.Masked` | log.c:135 | `level & 0xff` lies in 0..255. |
| `Log.FlagsAndLevel` | log.c:133-135 | A level built from a base level and the `LL_RAW`/`LL_STDOUT` modifiers gives back the base level after masking, and each modifier when its bit is read. |
| `Log.SeverityDistinct` | log.c:142-151 | The four levels map to four different marks of `".-*#"`. |
| `Log.Truncate` | log.c:127-129 | The message is a prefix of the formatted text and at most 1023 characters long. It is the whole text exactly when the text is shorter than the buffer, and otherwise exactly its first 1023 characters. |
| `Log.Destination` | log.c:132-138 | A line goes to standard output iff no log file is open or the `LL_STDOUT` bit is set. |
| `Log.DecorateParts` | log.c:151 | A prefixed line consists of the date prefix, a space, the severity mark, a space, the message and a newline, and each part can be read back at its position. |
| `Log.LogLine` | log.c:125-151 | `serverLog` prints a line iff the masked level reaches the threshold. The line goes where `Destination` says, and in raw mode it is the truncated message. |
| `Log.LogLineFilter` | log.c:135-136 | Nothing is printed exactly when `level % 256` is below the threshold; the modifier bits play no part. |
| `Log.LogLineSink` | log.c:132-138 | A printed line goes to standard output iff no log file is open or bit 11 (`LL_STDOUT`) of the unmasked level is set. |
| `Log.LogLineRaw` | log.c:129-140 | With `LL_RAW`, the output is exactly the truncated message: the formatted text when it is shorter than 1024 characters, and its first 1023 characters otherwise. |
| `Log.LogLinePrefixed` | log.c:141-151 | Without `LL_RAW`, the output is exactly the date prefix computed from the decomposed clock, a space, the mark `".-*#"[level & 0xff]`, a space, the truncated message and a newline. |
| `Log.Logger.constructor` | log.c:94-95 | Before `logInit`, the logger is uninitialised, has no file, its threshold is 0 and both sinks are empty. |
| `Log.Logger.SetLogLevel` | log.c:121-123 | The threshold is overwritten and nothing else changes. |
| `Log.Logger.LogInit` | log.c:97-113 | `logInit` initialises the logger and sets the threshold to `LL_DEBUG`. It records the DST flag and the timezone in seconds west, and stores the path. A file is open iff a path was given and could be opened. The result is -1 iff no file is open, which includes a missing path. |
| `Log.Logger.LogRelease` | log.c:114-119 | The file is closed only when the logger is initialised and a file is open; nothing else changes. A second release of a closed handle is excluded. |
| `Log.Logger.ServerLog` | log.c:125-154 | The line `LogLine` gives for the call (threshold, whether a file is open, timezone, DST flag) is appended to its sink, the other sink is unchanged, and the logger state is unchanged. |
| `Listeners.ParseBindAddr` | server.c:59-61 | An address is optional iff it starts with `-`, and the host is the address without that marker. |
| `Listeners.FamilyOf` | server.c:62-68 | The IPv6 creator is used iff the host contains `:`. |
| `Listeners.BindErrors` | server.c:69-83 | `EADDRNOTAVAIL` is skipped iff the address is optional. The five unsupported-protocol errors are always skipped. Every other errno aborts. |
| `Listeners.BindEffect` | server.c:59-88 | For one address: the first call is the creator for the stripped host, with the family its colons select. Slots below `count` and the registrations are kept. A refused bind leaves the count and the open descriptors alone. A successful bind stores the fd in slot `count`, opens it and adds one to the count. It sets the configured mark on the fd right after the creator, and without a configured mark it sets none. Its last two calls make the fd non-blocking and close-on-exec. |
| `Listeners.ListenNoAddresses` | server.c:55-56 | With no bind address, the result is `C_OK` and nothing changes. |
| `Listeners.ListenFrom` | server.c:58-90 | The listen loop from address `j` on gives `C_OK` or `C_ERR` and keeps the set within its 16 slots. On `C_ERR` the count is 0; on `C_OK` the count has not shrunk and no registration changed. |
| `Listeners.ListenSucceedsIff` | server.c:58-90 | `listenToPort` returns `C_OK` or `C_ERR`, and `C_OK` iff every bind error it meets is skippable. |
| `Listeners.ListenOkEffect` | server.c:64-88 | On `C_OK`, the listed fds are the old ones followed by the successfully bound fds in configuration order. The count grew by their number, they are all open, and no registration changed. |
| `Listeners.ListenConfigures` | server.c:85-87 | On `C_OK` the trace only grew. Every descriptor the loop bound was made non-blocking and close-on-exec, and was given the configured socket mark when one is set. |
| `Listeners.ListenAbortEffect` | server.c:81-83 | On `C_ERR`, the count is 0. The open descriptors are those open before, minus those the set listed before, so no descriptor the call opened stays open. This assumes the system hands out fresh descriptors. |
| `Listeners.ListenMarks` | server.c:85 | With `socket_mark_id == 0`, the call only appends to the trace and sets no socket mark. |
| `Listeners.ListenFits` | server.c:58-88 | The count never grows by more than the number of addresses, and slots past the addresses' reach are untouched. |
| `Listeners.CloseFrom` | server.c:8-16 | The close loop from slot `j` on leaves the count at 0 and the slots as they were. |
| `Listeners.CloseEffect` | server.c:8-16 | Closing empties the set. Every listed fd is unregistered and closed, one after the other in slot order, and slots holding -1 are skipped. The slots themselves are not cleared. |
| `Listeners.CloseIdempotent` | server.c:8-16 | Closing twice is closing once: closing an empty set changes nothing. |
| `Listeners.UnregistersReversed` | server.c:26 | The rollback makes one unregister call per slot, and its m-th call is for slot `j-m`, so the slots are visited in reverse order. |
| `Listeners.Rollback` | server.c:26 | The rollback loop from slot `j` down to 0 makes one call per slot. It can only remove registrations, and it leaves the slots, the count and the open descriptors alone. |
| `Listeners.RollbackEffect` | server.c:26 | The rollback from slot `j` removes the fds of slots 0..j from the registered descriptors and logs the unregistrations from slot `j` down to 0. |
| `Listeners.RegisterFrom` | server.c:20-31 | The registration loop from slot `j` on gives `C_OK` or `C_ERR`, and it leaves the slots, the count and the open descriptors alone. |
| `Listeners.RegisterOkIff` | server.c:20-31 | The result is `C_OK` iff every registration succeeds, and then every fd of slots 0..count-1 is registered and registered in slot order. |
| `Listeners.RegisterRollback` | server.c:23-28 | If registering slot `k` is the first failure, the result is `C_ERR`. Slots 0..k-1 are registered and then unregistered in reverse order. Descriptors outside those slots keep the registration they had, and nothing else changes. |
| `Listeners.StartFrom` | server.c:102-112 | Start-up keeps the set within its 16 slots. It fails in `listenToPort` only when a port is configured, and then the set is empty; otherwise the count has not shrunk. |
| `Listeners.StartWithoutPort` | server.c:103-112 | With port 0, nothing is bound, the set and the open descriptors are unchanged, and start-up succeeds iff every registration does. |
| `Listeners.CloseSocketListeners` | server.c:8-16 | The loop moves the world exactly as `CloseFrom` says (see `CloseEffect`). |
| `Listeners.CreateSocketAcceptHandler` | server.c:20-31 | The forward loop and the nested reverse rollback loop move the world and give the code exactly as `RegisterFrom` says (see `RegisterOkIff`, `RegisterRollback`). |
| `Listeners.OpenListener` | server.c:59-68 | The optional marker is stripped, and the creator the host selects is called. Its result is stored in slot `count`, and a bound fd is opened. |
| `Listeners.BindAddress` | server.c:59-88 | One turn of the loop moves the world as `Bind` says, and it reports an abort exactly on a non-skippable error. |
| `Listeners.ListenToPort` | server.c:51-91 | The loop, with its rollback through `closeSocketListeners`, moves the world and gives the code exactly as `ListenFrom` says (see `ListenOkEffect`, `ListenAbortEffect`). |
| `Listeners.StartListening` | server.c:102-112 | `listenToPort` runs only when the port is not 0. Its failure ends start-up, and otherwise the accept handler is registered; the outcome is that of `StartFrom`. |

## Left out

- Integer widths are not modelled. `time_t`, `int` and `long` are unbounded integers, with no overflow or wrap-around, for example in `3600*dst` or in `tz_minuteswest * 60`.
- `Calendar.Decompose`, `Calendar.NoLocksLocaltime`: only adjusted times from the epoch on are in the contract. The C code documents that dates before 1970 do not work, and there C's truncating `/` and `%` would also differ from the model's.
- `Log.Logger.ServerLog`: a prefixed line is only modelled for masked levels 0..3. For masked level 4, `c[level]` at log.c:151 reads the terminating NUL of `".-*#"` and prints it as the mark. For masked levels 5..255 it reads past the array. The model excludes both.
- `Log.Logger.ServerLog`: a negative microsecond count is excluded. Writing to the file after `logRelease` is also excluded: the handle is closed but still set, and writing through it is not defined.
- `strftime` and the date format are not modelled. The date prefix is a parameter `stamp` applied to the decomposed fields and the milliseconds. Truncation of the prefix to the 64-byte buffer is not modelled.
- `Log.Logger.LogRelease`: a second release after the file was closed is excluded. `logfp` stays non-NULL after `fclose` (log.c:115-118), so C would flush and close a closed handle, which is not defined.
- `Log.Truncate`: each `char` of a message stands for one byte of the C string. Dafny's `char` is a Unicode scalar value, so the 1023-character bound is a 1023-byte bound only under that reading.
- `vsnprintf` formatting is not modelled: the formatted message is an input, and only the truncation to 1023 characters is modelled. A NUL character inside the message would end the output in C; it is not modelled.
- `Log.Logger.LogInit`: `localtime`, `gettimeofday` and whether `fopen` succeeds are parameters. The file's earlier contents are not modelled, because it is opened for appending.
- I/O is not modelled: the actual writes, `fflush`, `fclose` and their errors. Each sink is the text appended to it.
- Fork and thread safety, the point of the lock-free design, is not modelled.
- The warning that `listenToPort` logs for a failed bind, and `server.neterr`, are not modelled: they are output only.
- errno values are given as their Linux numbers.
- `Listeners.ListenToPort`: the initial count plus the number of addresses must be at most 16. The C code writes `sfd->fd[sfd->count]` with no check, so going beyond that would write past the array.
- `Listeners.ListenAbortEffect`: it assumes that every descriptor the system returns is not already open and differs from the others it returns in the same call.
- The external primitives are oracles and ghost state: `anetTcpServer`, `anetTcp6Server`, `anetSetSockMarkId`, `anetNonBlock`, `anetCloexec`, `aeCreateFileEvent`, `aeDeleteFileEvent` and `close`. Their own behaviour and errors are not modelled, and neither is the accept handler itself.
- The rest of `initServer` and `main` is not modelled: the pid, the monotonic clock, the creation and running of the event loop, `exit` and `serverPanic`. The outcomes `ListenFailed` and `AcceptFailed` stand for the `exit(1)` and the panic.
- The Python server and client, `syncio.h` and `networking.h` are not part of this model.
