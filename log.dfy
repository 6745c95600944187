/** The logging policy of log.c: which calls of serverLog print, where the
    line goes, and what it looks like; and the singleton logger state that
    logInit, setLogLevel and logRelease manage.

    The formatted message (the result of vsnprintf before truncation), the
    wall clock and the rendering of the date by strftime are inputs. The two
    sinks, standard output and the log file, are modelled as the text that
    has been appended to each. */
module Log {
  import opened Wrappers
  import Calendar

  const LOG_BUFFER_SIZE: int := 1024

  const LL_DEBUG: int := 0
  const LL_VERBOSE: int := 1
  const LL_NOTICE: int := 2
  const LL_WARNING: int := 3
  /** Modifier: log the message without the date and severity prefix. */
  const LL_RAW: int := 1024
  /** Modifier: log to standard output even when a log file is open. */
  const LL_STDOUT: int := 2048

  /** `level & 0xff`: the level with the modifier bits cleared. On a two's
      complement `int` this is the remainder modulo 256, which Dafny's `%`
      computes for negative levels too. */
  function Masked(level: int): (m: int)
    ensures 0 <= m < 256
  {
    level % 256
  }

  /** Bit `k` of a two's complement integer, where `bit` is `2^k`. */
  predicate HasBit(level: int, bit: int)
    requires bit > 0
  {
    (level / bit) % 2 == 1
  }

  /** `level & LL_RAW`. */
  predicate IsRaw(level: int) {
    HasBit(level, LL_RAW)
  }

  /** `level & LL_STDOUT`. */
  predicate IsStdout(level: int) {
    HasBit(level, LL_STDOUT)
  }

  /** A level built from a base level and the two modifiers gives back the
      base level after masking and each modifier when its bit is read. */
  lemma FlagsAndLevel(base: int, raw: bool, toStdout: bool)
    requires 0 <= base < 256
    ensures var level := base + (if raw then LL_RAW else 0) + (if toStdout then LL_STDOUT else 0);
      Masked(level) == base && IsRaw(level) == raw && IsStdout(level) == toStdout
  {
  }

  /** The characters `".-*#"` that mark debug, verbose, notice and warning
      lines. */
  function Severity(level: int): (c: char)
    requires LL_DEBUG <= level <= LL_WARNING
  {
    ".-*#"[level]
  }

  /** The four levels have four different marks. */
  lemma SeverityDistinct(a: int, b: int)
    requires LL_DEBUG <= a <= LL_WARNING && LL_DEBUG <= b <= LL_WARNING
    ensures Severity(a) == Severity(b) <==> a == b
  {
  }

  /** `vsnprintf(msg, sizeof(msg), ...)`: the message is cut to the
      buffer size minus the terminating NUL. Each `char` stands for one
      byte of the C string. */
  function Truncate(formatted: string): (msg: string)
    ensures |msg| <= LOG_BUFFER_SIZE - 1
    ensures msg <= formatted
    ensures msg == formatted <==> |formatted| < LOG_BUFFER_SIZE
    ensures |formatted| >= LOG_BUFFER_SIZE ==> msg == formatted[..LOG_BUFFER_SIZE - 1]
  {
    if |formatted| < LOG_BUFFER_SIZE then formatted else formatted[..LOG_BUFFER_SIZE - 1]
  }

  /** The two places a line can go. */
  datatype Sink = Stdout | LogFile

  /** One line of output and where it goes. */
  datatype Line = Line(sink: Sink, text: string)

  /** The wall clock as gettimeofday reports it. */
  datatype Clock = Clock(sec: int, usec: int)

  /** What the calls of serverLog print: a call passes when its masked level
      reaches the threshold. */
  predicate Passes(level: int, threshold: int) {
    Masked(level) >= threshold
  }

  /** Standard output when no log file was opened or the call asks for it. */
  function Destination(level: int, hasFile: bool): (s: Sink)
    ensures s == Stdout <==> !hasFile || IsStdout(level)
  {
    if !hasFile || IsStdout(level) then Stdout else LogFile
  }

  /** The date prefix: strftime's rendering of the decomposed clock,
      followed by the milliseconds. The rendering itself is the parameter
      `stamp`. */
  function Prefix(stamp: (Calendar.Tm, int) -> string, now: Clock, tz: int, dst: int): string
    requires Calendar.Adjusted(now.sec, tz, dst) >= 0
  {
    stamp(Calendar.Decompose(now.sec, tz, dst), now.usec / 1000)
  }

  /** `"%s %c %s\n"` with the prefix, the severity mark and the message. */
  function Decorate(prefix: string, mark: char, msg: string): string {
    prefix + " " + [mark] + " " + msg + "\n"
  }

  /** A decorated line can be taken apart again: it starts with the prefix,
      carries the mark after one space, and the message sits between the
      second space and the final newline. */
  lemma DecorateParts(prefix: string, mark: char, msg: string)
    ensures var line := Decorate(prefix, mark, msg);
      && |line| == |prefix| + |msg| + 4
      && line[..|prefix|] == prefix
      && line[|prefix|] == ' ' && line[|prefix| + 1] == mark && line[|prefix| + 2] == ' '
      && line[|prefix| + 3..|line| - 1] == msg
      && line[|line| - 1] == '\n'
  {
    var line := Decorate(prefix, mark, msg);
    assert line == prefix + [' ', mark, ' '] + msg + ['\n'];
  }

  /** The cases in which serverLog has defined behaviour: a line that is
      printed with a prefix needs a severity mark (levels 0..3, the string
      `".-*#"` has no more) and a clock from 1970 on. */
  predicate Defined(level: int, threshold: int, now: Clock, tz: int, dst: int) {
    !Passes(level, threshold) || IsRaw(level)
    || (Masked(level) <= LL_WARNING && Calendar.Adjusted(now.sec, tz, dst) >= 0 && now.usec >= 0)
  }

  /** The line serverLog prints, if any. */
  function LogLine(level: int, formatted: string, threshold: int, hasFile: bool,
                   stamp: (Calendar.Tm, int) -> string, now: Clock, tz: int, dst: int): (r: Option<Line>)
    requires Defined(level, threshold, now, tz, dst)
    ensures r.Some? <==> Passes(level, threshold)
    ensures r.Some? ==> r.value.sink == Destination(level, hasFile)
    ensures r.Some? && IsRaw(level) ==> r.value.text == Truncate(formatted)
  {
    if !Passes(level, threshold) then None
    else
      var msg := Truncate(formatted);
      var text := if IsRaw(level) then msg
                  else Decorate(Prefix(stamp, now, tz, dst), Severity(Masked(level)), msg);
      Some(Line(Destination(level, hasFile), text))
  }

  /** Nothing is printed exactly when the masked level is below the
      threshold; the modifier bits play no part in the comparison. */
  lemma LogLineFilter(level: int, formatted: string, threshold: int, hasFile: bool,
                      stamp: (Calendar.Tm, int) -> string, now: Clock, tz: int, dst: int)
    requires Defined(level, threshold, now, tz, dst)
    ensures LogLine(level, formatted, threshold, hasFile, stamp, now, tz, dst).None?
        <==> level % 256 < threshold
  {
  }

  /** A printed line goes to standard output exactly when no log file is
      open or the LL_STDOUT bit is set, and to the file otherwise. */
  lemma LogLineSink(level: int, formatted: string, threshold: int, hasFile: bool,
                    stamp: (Calendar.Tm, int) -> string, now: Clock, tz: int, dst: int)
    requires Defined(level, threshold, now, tz, dst) && Passes(level, threshold)
    ensures var line := LogLine(level, formatted, threshold, hasFile, stamp, now, tz, dst);
      line.Some? && (line.value.sink == Stdout <==> !hasFile || (level / 2048) % 2 == 1)
  {
  }

  /** With LL_RAW the output is the (truncated) message and nothing else. */
  lemma LogLineRaw(level: int, formatted: string, threshold: int, hasFile: bool,
                   stamp: (Calendar.Tm, int) -> string, now: Clock, tz: int, dst: int)
    requires Passes(level, threshold) && IsRaw(level)
    ensures var line := LogLine(level, formatted, threshold, hasFile, stamp, now, tz, dst);
      && line.Some? && line.value.text == Truncate(formatted)
      && line.value.text <= formatted && |line.value.text| <= LOG_BUFFER_SIZE - 1
      && (|formatted| < LOG_BUFFER_SIZE ==> line.value.text == formatted)
      && (|formatted| >= LOG_BUFFER_SIZE ==> line.value.text == formatted[..LOG_BUFFER_SIZE - 1])
  {
  }

  /** Without LL_RAW the output is the date prefix, the severity mark of the
      masked level and the truncated message, each separated by a space,
      and a newline. */
  lemma LogLinePrefixed(level: int, formatted: string, threshold: int, hasFile: bool,
                        stamp: (Calendar.Tm, int) -> string, now: Clock, tz: int, dst: int)
    requires Defined(level, threshold, now, tz, dst) && Passes(level, threshold) && !IsRaw(level)
    ensures Calendar.Adjusted(now.sec, tz, dst) >= 0 && 0 <= Masked(level) <= LL_WARNING
    ensures var line := LogLine(level, formatted, threshold, hasFile, stamp, now, tz, dst);
      var prefix := stamp(Calendar.Decompose(now.sec, tz, dst), now.usec / 1000);
      && line.Some?
      && line.value.text == prefix + " " + [Severity(level % 256)] + " " + Truncate(formatted) + "\n"
  {
  }

  /** The state of an open log file handle. logRelease closes the handle
      but leaves the pointer in place, so a released logger still holds a
      (dangling) handle. */
  datatype FileState = NoFile | Open | Closed

  /** The logger singleton: `g_init` and the fields of `g_log`, plus the
      text this process has written so far to each sink (the file is opened
      for appending, so what it held before is not part of the model). */
  class Logger {
    var initialized: bool
    var logfile: Option<string>
    var file: FileState
    var level: int
    var timezone: int
    var daylightActive: int
    var stdoutText: string
    var fileText: string

    /** The zero-initialised static storage before logInit. */
    constructor ()
      ensures !initialized && logfile == None && file == NoFile
      ensures level == LL_DEBUG && timezone == 0 && daylightActive == 0
      ensures stdoutText == [] && fileText == []
    {
      initialized := false;
      logfile := None;
      file := NoFile;
      level := 0;
      timezone := 0;
      daylightActive := 0;
      stdoutText := [];
      fileText := [];
    }

    /** `setLogLevel`: the threshold is overwritten, nothing else changes. */
    method SetLogLevel(threshold: int)
      modifies this
      ensures level == threshold
      ensures initialized == old(initialized) && logfile == old(logfile) && file == old(file)
      ensures timezone == old(timezone) && daylightActive == old(daylightActive)
      ensures stdoutText == old(stdoutText) && fileText == old(fileText)
    {
      level := threshold;
    }

    /** `logInit`: `isdst` is what localtime reports for the current time,
        `minutesWest` what gettimeofday reports as the timezone, and
        `opens` whether fopen of the path in append mode succeeds. Returns
        -1 exactly when no file is open afterwards, which includes a
        missing path. */
    method LogInit(path: Option<string>, isdst: int, minutesWest: int, opens: bool) returns (r: int)
      modifies this
      ensures initialized && level == LL_DEBUG
      ensures daylightActive == isdst && timezone == minutesWest * 60
      ensures logfile == path
      ensures file == (if path.Some? && opens then Open else NoFile)
      ensures r == (if file == NoFile then -1 else 0)
      ensures stdoutText == old(stdoutText) && fileText == old(fileText)
    {
      initialized := true;
      SetLogLevel(LL_DEBUG);
      daylightActive := isdst;
      timezone := minutesWest * 60;
      logfile := path;
      if path.Some? && opens {
        file := Open;
      } else {
        file := NoFile;
      }
      if file == NoFile {
        return -1;
      }
      return 0;
    }

    /** `logRelease`: the file is closed only when the logger was
        initialised and a file is open. The handle stays set after the
        close, so a second release would close it again, which is not
        defined; such a call is excluded. */
    method LogRelease()
      requires !(initialized && file == Closed)
      modifies this
      ensures file == (if old(initialized) && old(file) == Open then Closed else old(file))
      ensures initialized == old(initialized) && logfile == old(logfile) && level == old(level)
      ensures timezone == old(timezone) && daylightActive == old(daylightActive)
      ensures stdoutText == old(stdoutText) && fileText == old(fileText)
    {
      if initialized && file == Open {
        file := Closed;
      }
    }

    /** `serverLog`: `formatted` is the message the format string and its
        arguments produce, `now` the clock at the time of the call and
        `stamp` the rendering of the date. The line of LogLine, if any, is
        appended to its sink; writing through a released handle is not
        defined, so such a call is excluded. */
    method ServerLog(lvl: int, formatted: string, now: Clock, stamp: (Calendar.Tm, int) -> string)
      requires Defined(lvl, level, now, timezone, daylightActive)
      requires file == Closed ==> !Passes(lvl, level) || IsStdout(lvl)
      modifies this
      ensures var line := LogLine(lvl, formatted, old(level), old(file) != NoFile, stamp, now,
                                  old(timezone), old(daylightActive));
        && stdoutText == old(stdoutText) + (if line.Some? && line.value.sink == Stdout then line.value.text else [])
        && fileText == old(fileText) + (if line.Some? && line.value.sink == LogFile then line.value.text else [])
      ensures initialized == old(initialized) && logfile == old(logfile) && file == old(file)
      ensures level == old(level) && timezone == old(timezone) && daylightActive == old(daylightActive)
    {
      var msg := Truncate(formatted);
      var rawmode := IsRaw(lvl);
      var logToStdout := file == NoFile || IsStdout(lvl);
      var masked := Masked(lvl);
      if masked < level {
        return;
      }
      var text;
      if rawmode {
        text := msg;
      } else {
        var tm := Calendar.NoLocksLocaltime(now.sec, timezone, daylightActive);
        var prefix := stamp(tm, now.usec / 1000);
        text := prefix + " " + [Severity(masked)] + " " + msg + "\n";
      }
      if logToStdout {
        stdoutText := stdoutText + text;
      } else {
        fileText := fileText + text;
      }
    }
  }
}
