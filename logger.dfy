/**
 * The console logger of rbf/logger.h. A `Logger` is built for one log
 * statement; each `<<` prints its value unless the statement's level is
 * below the process-wide level, and the first printing `<<` prints a
 * header (level, function, file name, line) before the value. The
 * destructor ends an open statement with a newline. The console is a
 * sequence of emissions; the ANSI colour codes and column widths of the
 * header are not part of the model.
 */
module Log {

  /** LogLevel of rbf/logger.h, ordered by `Rank`. */
  datatype LogLevel = Debugging | Info | Warning | Error | Quiet

  function Rank(l: LogLevel): nat
  {
    match l
    case Debugging => 0
    case Info => 1
    case Warning => 2
    case Error => 3
    case Quiet => 4
  }

  /** One of the characters `find_last_of("/\\")` looks for. */
  predicate IsSeparator(c: char)
  {
    c == '/' || c == '\\'
  }

  /** `find_last_of("/\\")` with `npos` written as -1: the index of the last separator. */
  function LastSeparator(path: string): (r: int)
    ensures -1 <= r < |path|
    ensures r >= 0 ==> IsSeparator(path[r])
    ensures forall j | r < j < |path| :: !IsSeparator(path[j])
  {
    if |path| == 0 then -1
    else if IsSeparator(path[|path| - 1]) then |path| - 1
    else LastSeparator(path[..|path| - 1])
  }

  /**
   * `get_file_name` (rbf/logger.h:42-44): what follows the last separator,
   * or the whole path when it has none (`npos + 1` wraps to 0).
   */
  function FileName(path: string): (r: string)
    ensures |r| <= |path| && r == path[|path| - |r|..]
    ensures forall i | 0 <= i < |r| :: !IsSeparator(r[i])
    ensures |r| < |path| ==> IsSeparator(path[|path| - |r| - 1])
  {
    path[LastSeparator(path) + 1..]
  }

  /** A path without separators is its own file name, so taking the file name twice changes nothing. */
  lemma FileNameIdempotent(path: string)
    ensures FileName(FileName(path)) == FileName(path)
  {
    var r := FileName(path);
    assert LastSeparator(r) == -1;
  }

  /** `Logger::global_level` (rbf/logger.cc), shared by every logger of the process. */
  class LogConfig {
    var globalLevel: LogLevel

    /** The initial level of a build without RELEASE. */
    constructor()
      ensures globalLevel == Debugging
    {
      globalLevel := Debugging;
    }

    /** `SetGlobalLogLevel` (rbf/logger.h:75). */
    method SetGlobalLogLevel(level: LogLevel)
      modifies this
      ensures globalLevel == level
    {
      globalLevel := level;
    }

    /** `GetGlobalLogLevel` (rbf/logger.h:77). */
    method GetGlobalLogLevel() returns (level: LogLevel)
      ensures level == globalLevel
    {
      level := globalLevel;
    }
  }

  /** What a logger writes to the console: a header, a printed value, or the closing newline. */
  datatype Emission =
    | Header(level: LogLevel, funcPath: string, fileName: string, lineNum: int)
    | Text(text: string)
    | Newline

  /** The standard output stream. */
  class Console {
    var out: seq<Emission>

    constructor()
      ensures out == []
    {
      out := [];
    }
  }

  /** The part of a logger `<<` updates. */
  datatype LoggerState = LoggerState(filePath: string, isOpen: bool)

  /** `level_ < global_level`: the statement prints nothing. */
  predicate Gated(level: LogLevel, global: LogLevel)
  {
    Rank(level) < Rank(global)
  }

  /**
   * One `<<` of value `v` (rbf/logger.h:61-73): the new state and what is
   * printed. A gated statement prints nothing and keeps its state; an
   * ungated one prints the header first if not yet open (shortening
   * its file path to the file name), then the value, and is then open.
   */
  function PutStep(level: LogLevel, global: LogLevel, funcPath: string, lineNum: int,
                   s: LoggerState, v: string): (r: (LoggerState, seq<Emission>))
    ensures Gated(level, global) ==> r == (s, [])
    ensures !Gated(level, global) ==> r.0.isOpen && |r.1| == (if s.isOpen then 1 else 2) && r.1[|r.1| - 1] == Text(v)
    ensures !Gated(level, global) && !s.isOpen ==>
      r.1[0] == Header(level, funcPath, FileName(s.filePath), lineNum) && r.0.filePath == FileName(s.filePath)
    ensures s.isOpen ==> r.0 == s
  {
    if Gated(level, global) then (s, [])
    else if s.isOpen then (s, [Text(v)])
    else (LoggerState(FileName(s.filePath), true), [Header(level, funcPath, FileName(s.filePath), lineNum), Text(v)])
  }

  /** A chain `logger << v0 << v1 << ...` under a fixed global level: the final state and all that is printed. */
  function PutAll(level: LogLevel, global: LogLevel, funcPath: string, lineNum: int,
                  s: LoggerState, vs: seq<string>): (r: (LoggerState, seq<Emission>))
    decreases |vs|
  {
    if |vs| == 0 then (s, [])
    else
      var step := PutStep(level, global, funcPath, lineNum, s, vs[0]);
      var rest := PutAll(level, global, funcPath, lineNum, step.0, vs[1..]);
      (rest.0, step.1 + rest.1)
  }

  /** The printed values, in order. */
  function Texts(vs: seq<string>): seq<Emission>
  {
    if |vs| == 0 then [] else [Text(vs[0])] + Texts(vs[1..])
  }

  /** An open logger prints each further value and nothing else. */
  lemma {:induction false} PutAllOpened(level: LogLevel, global: LogLevel, funcPath: string, lineNum: int,
                                        s: LoggerState, vs: seq<string>)
    requires s.isOpen && !Gated(level, global)
    ensures PutAll(level, global, funcPath, lineNum, s, vs) == (s, Texts(vs))
    decreases |vs|
  {
    if |vs| > 0 {
      PutAllOpened(level, global, funcPath, lineNum, s, vs[1..]);
    }
  }

  /** A gated logger prints nothing and keeps its state, however many values it is given. */
  lemma {:induction false} PutAllGated(level: LogLevel, global: LogLevel, funcPath: string, lineNum: int,
                                       s: LoggerState, vs: seq<string>)
    requires Gated(level, global)
    ensures PutAll(level, global, funcPath, lineNum, s, vs) == (s, [])
    decreases |vs|
  {
    if |vs| > 0 {
      var e: seq<Emission> := [];
      assert PutStep(level, global, funcPath, lineNum, s, vs[0]) == (s, e);
      PutAllGated(level, global, funcPath, lineNum, s, vs[1..]);
      assert e + e == e;
    }
  }

  /**
   * The header is printed once, before the first value: a fresh, ungated
   * logger given at least one value prints its header and then the values.
   */
  lemma HeaderOnceFirst(level: LogLevel, global: LogLevel, funcPath: string, lineNum: int,
                        filePath: string, vs: seq<string>)
    requires !Gated(level, global) && |vs| > 0
    ensures PutAll(level, global, funcPath, lineNum, LoggerState(filePath, false), vs) ==
      (LoggerState(FileName(filePath), true), [Header(level, funcPath, FileName(filePath), lineNum)] + Texts(vs))
  {
    var name := FileName(filePath);
    var s1, h := LoggerState(name, true), Header(level, funcPath, name, lineNum);
    assert PutStep(level, global, funcPath, lineNum, LoggerState(filePath, false), vs[0]) == (s1, [h, Text(vs[0])]);
    PutAllOpened(level, global, funcPath, lineNum, s1, vs[1..]);
    assert [h, Text(vs[0])] + Texts(vs[1..]) == [h] + ([Text(vs[0])] + Texts(vs[1..]));
  }

  /** The destructor's output (rbf/logger.h:57-59): a newline exactly when the logger was open. */
  function CloseOutput(s: LoggerState): (r: seq<Emission>)
    ensures r == [Newline] <==> s.isOpen
    ensures r == [] <==> !s.isOpen
  {
    if s.isOpen then [Newline] else []
  }

  /**
   * One whole log statement, from construction to destruction: one line
   * (header, the values, newline) when ungated with a value, and nothing
   * at all otherwise.
   */
  lemma StatementOutput(level: LogLevel, global: LogLevel, funcPath: string, lineNum: int,
                        filePath: string, vs: seq<string>)
    ensures var r := PutAll(level, global, funcPath, lineNum, LoggerState(filePath, false), vs);
      r.1 + CloseOutput(r.0) ==
        if Gated(level, global) || |vs| == 0 then []
        else [Header(level, funcPath, FileName(filePath), lineNum)] + Texts(vs) + [Newline]
  {
    if Gated(level, global) {
      PutAllGated(level, global, funcPath, lineNum, LoggerState(filePath, false), vs);
    } else if |vs| > 0 {
      HeaderOnceFirst(level, global, funcPath, lineNum, filePath, vs);
    }
  }

  /** Logger of rbf/logger.h: one log statement's level, source position and open flag. */
  class Logger {
    const level: LogLevel
    var filePath: string
    const funcPath: string
    const lineNum: int
    var isOpen: bool
    const config: LogConfig
    const console: Console

    /** rbf/logger.h:51-55: a logger starts closed. */
    constructor(lvl: LogLevel, path: string, line: int, func: string, cfg: LogConfig, con: Console)
      ensures level == lvl && filePath == path && lineNum == line && funcPath == func
      ensures config == cfg && console == con && !isOpen
    {
      level := lvl;
      filePath := path;
      lineNum := line;
      funcPath := func;
      config := cfg;
      console := con;
      isOpen := false;
    }

    function State(): LoggerState
      reads this
    {
      LoggerState(filePath, isOpen)
    }

    /** `operator<<` (rbf/logger.h:61-73), with `v` standing for the value's printed form. */
    method Put(v: string)
      modifies this, console
      ensures var r := PutStep(level, config.globalLevel, funcPath, lineNum, old(State()), v);
        State() == r.0 && console.out == old(console.out) + r.1
    {
      ghost var r := PutStep(level, config.globalLevel, funcPath, lineNum, State(), v);
      if Rank(level) < Rank(config.globalLevel) {
        return;
      }
      ghost var out0 := console.out;
      if !isOpen {
        filePath := FileName(filePath);
        console.out := console.out + [Header(level, funcPath, filePath, lineNum)];
        isOpen := true;
      }
      console.out := console.out + [Text(v)];
      assert State() == r.0 && console.out == out0 + r.1;
    }

    /** `~Logger` (rbf/logger.h:57-59). */
    method Destroy()
      modifies console
      ensures console.out == old(console.out) + CloseOutput(State())
    {
      if isOpen {
        console.out := console.out + [Newline];
      }
    }
  }

  /** The element texts separated by ", ". */
  function Join(items: seq<string>): string
  {
    if |items| == 0 then ""
    else if |items| == 1 then items[0]
    else Join(items[..|items| - 1]) + ", " + items[|items| - 1]
  }

  /** Joining one more element appends the separator (unless it is the first) and the element. */
  lemma JoinStep(items: seq<string>, i: nat)
    requires i < |items|
    ensures Join(items[..i + 1]) == Join(items[..i]) + (if i > 0 then ", " else "") + items[i]
  {
    assert items[..i + 1][..i] == items[..i];
  }

  /** The total length of the strings. */
  function TotalLength(items: seq<string>): nat
  {
    if |items| == 0 then 0 else TotalLength(items[..|items| - 1]) + |items[|items| - 1]|
  }

  /** Joining adds exactly two characters between each pair of neighbours. */
  lemma {:induction false} JoinLength(items: seq<string>)
    ensures |Join(items)| == TotalLength(items) + (if |items| == 0 then 0 else 2 * (|items| - 1))
    decreases |items|
  {
    if |items| > 1 {
      JoinLength(items[..|items| - 1]);
    }
  }

  /**
   * The vector printer (rbf/logger.h:81-90), with each element given by
   * its printed form: "[", the elements separated by ", ", then "]\n".
   */
  method PrintVector(items: seq<string>) returns (out: string)
    ensures out == "[" + Join(items) + "]\n"
    ensures items == [] ==> out == "[]\n"
  {
    out := "[";
    var i := 0;
    while i < |items|
      invariant 0 <= i <= |items|
      invariant out == "[" + Join(items[..i]) + (if 0 < i < |items| then ", " else "")
    {
      JoinStep(items, i);
      out := out + items[i];
      if i != |items| - 1 {
        out := out + ", ";
      }
      i := i + 1;
    }
    assert items[..i] == items;
    out := out + "]\n";
  }
}
