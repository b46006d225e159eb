/**
 * The command-line front end of the current socket-server harness: the
 * argv scanner, the usage text, the choice between calling the handler
 * and starting the server, the environment clean-up a connection child
 * performs, and the password prompt.  Sockets, fork/exec, chroot and
 * privilege changes are not part of this model.
 */
module Harness {
  import opened Wrappers
  import opened LibC
  import opened ServerConfig
  import Net

  // ---------------------------------------------------------------------
  // The argv scanner of server_main
  // ---------------------------------------------------------------------

  /**
   * What the scan has set so far: the options copy, the two globals
   * (skipListen, password) and the two locals (inject_lib, exec_prog).
   */
  datatype ScanState = ScanState(
    opts: ServerOptions,
    skipListen: bool,
    password: Option<string>,
    injectLib: Option<string>,
    execProg: Option<string>)

  datatype StopReason = Help | UnknownArgument(arg: string) | MissingValue(flag: string)

  /**
   * Finished: every argument was read.  RanOff: -u, -i or -e was the last
   * argument, so the NULL at argv[argc] is stored as its value and the scan
   * ends there.  Stopped: server_main leaves the loop early; a missing value
   * for -p, -a or -k reaches atoi or strcmp as NULL, which is undefined
   * behaviour in C, and is reported as such.
   */
  datatype ScanResult =
    | Finished(state: ScanState)
    | RanOff(state: ScanState)
    | Stopped(state: ScanState, reason: StopReason)

  predicate IsHelpFlag(a: string) { a == "--help" || a == "-h" }
  predicate IsListenFlag(a: string) { a == "--listen" || a == "-l" }
  predicate IsNoChrootFlag(a: string) { a == "--no-chroot" }
  predicate IsUserFlag(a: string) { a == "--user" || a == "-u" }
  predicate IsPortFlag(a: string) { a == "--port" || a == "-p" }
  predicate IsAlarmFlag(a: string) { a == "--alarm" || a == "-a" }
  predicate IsInjectFlag(a: string) { a == "--inject" || a == "-i" }
  predicate IsExecFlag(a: string) { a == "--exec" || a == "-e" }
  predicate IsPasswordFlag(a: string) { a == "--password" || a == "-k" }

  /** The flags that take the next argument as their value. */
  predicate IsValueFlag(a: string) {
    IsUserFlag(a) || IsPortFlag(a) || IsAlarmFlag(a) || IsInjectFlag(a) || IsExecFlag(a) || IsPasswordFlag(a)
  }

  /** The flags server_main acts on without stopping. */
  predicate IsSettingFlag(a: string) { IsListenFlag(a) || IsNoChrootFlag(a) || IsValueFlag(a) }

  /** A value flag stores its argument; "-k _" clears the password. */
  function SetValue(st: ScanState, flag: string, v: string): (r: ScanState)
    requires IsValueFlag(flag)
    ensures r.opts.user == (if IsUserFlag(flag) then Some(v) else st.opts.user)
    ensures r.opts.port == (if IsPortFlag(flag) then ToUShort(Atoi(v)) else st.opts.port)
    ensures r.opts.timeLimitSeconds == (if IsAlarmFlag(flag) then ToUInt(Atoi(v)) else st.opts.timeLimitSeconds)
    ensures r.injectLib == (if IsInjectFlag(flag) then Some(v) else st.injectLib)
    ensures r.execProg == (if IsExecFlag(flag) then Some(v) else st.execProg)
    ensures r.password == (if !IsPasswordFlag(flag) then st.password else if StrEq(v, "_") then None else Some(v))
    ensures r.opts.chrooted == st.opts.chrooted && r.skipListen == st.skipListen
  {
    if IsUserFlag(flag) then st.(opts := st.opts.(user := Some(v)))
    else if IsPortFlag(flag) then st.(opts := st.opts.(port := ToUShort(Atoi(v))))
    else if IsAlarmFlag(flag) then st.(opts := st.opts.(timeLimitSeconds := ToUInt(Atoi(v))))
    else if IsInjectFlag(flag) then st.(injectLib := Some(v))
    else if IsExecFlag(flag) then st.(execProg := Some(v))
    else st.(password := if StrEq(v, "_") then None else Some(v))
  }

  /** The arguments after the program name. */
  function Args(argv: seq<string>): seq<string> {
    if argv == [] then [] else argv[1..]
  }

  /** The scan of the arguments, left to right, from a given state. */
  function Scan(args: seq<string>, st: ScanState): ScanResult
    decreases |args|
  {
    if args == [] then Finished(st)
    else
      var a := args[0];
      if IsHelpFlag(a) then Stopped(st, Help)
      else if IsListenFlag(a) then Scan(args[1..], st.(skipListen := false))
      else if IsNoChrootFlag(a) then Scan(args[1..], st.(opts := st.opts.(chrooted := false)))
      else if IsValueFlag(a) then
        if |args| >= 2 then Scan(args[2..], SetValue(st, a, args[1]))
        else if IsInjectFlag(a) then RanOff(st.(injectLib := None))
        else if IsExecFlag(a) then RanOff(st.(execProg := None))
        else if IsUserFlag(a) then RanOff(st.(opts := st.opts.(user := None)))
        else Stopped(st, MissingValue(a))
      else Stopped(st, UnknownArgument(a))
  }

  /** One step of the scan, for each kind of argument at the front. */
  lemma ScanStep(args: seq<string>, st: ScanState)
    requires args != []
    ensures IsHelpFlag(args[0]) ==> Scan(args, st) == Stopped(st, Help)
    ensures IsListenFlag(args[0]) ==> Scan(args, st) == Scan(args[1..], st.(skipListen := false))
    ensures IsNoChrootFlag(args[0]) ==> Scan(args, st) == Scan(args[1..], st.(opts := st.opts.(chrooted := false)))
    ensures IsValueFlag(args[0]) && |args| >= 2 ==> Scan(args, st) == Scan(args[2..], SetValue(st, args[0], args[1]))
    ensures IsValueFlag(args[0]) && |args| == 1 ==>
      Scan(args, st) == if IsInjectFlag(args[0]) then RanOff(st.(injectLib := None))
                        else if IsExecFlag(args[0]) then RanOff(st.(execProg := None))
                        else if IsUserFlag(args[0]) then RanOff(st.(opts := st.opts.(user := None)))
                        else Stopped(st, MissingValue(args[0]))
    ensures !IsHelpFlag(args[0]) && !IsSettingFlag(args[0]) ==> Scan(args, st) == Stopped(st, UnknownArgument(args[0]))
  {
  }

  /**
   * Scanning is compositional: once a prefix is scanned through, the rest
   * continues from where it left off; a prefix that stopped for help or an
   * unknown argument stops the whole scan the same way.
   */
  lemma {:induction false} ScanAppend(a: seq<string>, b: seq<string>, st: ScanState)
    ensures Scan(a, st).Finished? ==> Scan(a + b, st) == Scan(b, Scan(a, st).state)
    ensures Scan(a, st).Stopped? && !Scan(a, st).reason.MissingValue? ==> Scan(a + b, st) == Scan(a, st)
    decreases |a|
  {
    if a == [] {
      assert a + b == b;
    } else {
      var x := a[0];
      assert (a + b)[0] == x;
      if IsListenFlag(x) || IsNoChrootFlag(x) {
        assert (a + b)[1..] == a[1..] + b;
        ScanAppend(a[1..], b, if IsListenFlag(x) then st.(skipListen := false) else st.(opts := st.opts.(chrooted := false)));
      } else if IsValueFlag(x) && !IsHelpFlag(x) && |a| >= 2 {
        assert (a + b)[1] == a[1] && (a + b)[2..] == a[2..] + b;
        ScanAppend(a[2..], b, SetValue(st, x, a[1]));
      }
    }
  }

  /**
   * A value flag consumes the next argument, whatever it looks like, and
   * changes only its own option; every earlier setting of that option is
   * overridden and every other option is left as it was.
   */
  lemma ValueFlagSets(pre: seq<string>, flag: string, v: string, st: ScanState)
    requires Scan(pre, st).Finished? && IsValueFlag(flag)
    ensures Scan(pre + [flag, v], st) == Finished(SetValue(Scan(pre, st).state, flag, v))
  {
    ScanAppend(pre, [flag, v], st);
    assert [flag, v][2..] == [];
  }

  /** Two spellings of the same value option, such as -u and --user. */
  predicate SameOption(f: string, g: string) {
    || (IsUserFlag(f) && IsUserFlag(g))
    || (IsPortFlag(f) && IsPortFlag(g))
    || (IsAlarmFlag(f) && IsAlarmFlag(g))
    || (IsInjectFlag(f) && IsInjectFlag(g))
    || (IsExecFlag(f) && IsExecFlag(g))
    || (IsPasswordFlag(f) && IsPasswordFlag(g))
  }

  /**
   * A repeated value option: only the last setting counts.  An earlier
   * setting, under either spelling, can be dropped from the command line
   * whatever lies between the two (as long as it is scanned through) and
   * whatever follows.
   */
  lemma RepeatedFlagOverrides(pre: seq<string>, f1: string, v1: string, mid: seq<string>,
                              f2: string, v2: string, post: seq<string>, st: ScanState)
    requires Scan(pre, st).Finished? && SameOption(f1, f2)
    requires Scan(mid, Scan(pre, st).state).Finished?
    ensures Scan(pre + [f1, v1] + mid + [f2, v2] + post, st) == Scan(pre + mid + [f2, v2] + post, st)
  {
    var s0 := Scan(pre, st).state;
    var s1 := SetValue(s0, f1, v1);
    var tail := mid + ([f2, v2] + post);
    Regroup(pre, [f1, v1], mid, [f2, v2], post);
    ScanAppend(pre, [f1, v1] + tail, st);
    ScanAppend(pre, tail, st);
    ValuePairStep(f1, v1, tail, s0);
    ScanThenSet(mid, s0, f1, v1, f2, v2);
    ScanAfterSetting(mid, f2, v2, post, s1);
    ScanAfterSetting(mid, f2, v2, post, s0);
  }

  /** The two command lines of RepeatedFlagOverrides, grouped from the right. */
  lemma Regroup<T>(pre: seq<T>, x: seq<T>, mid: seq<T>, y: seq<T>, post: seq<T>)
    ensures pre + x + mid + y + post == pre + (x + (mid + (y + post)))
    ensures pre + mid + y + post == pre + (mid + (y + post))
  {
  }

  /** A value flag and its value at the front: the scan goes on from the new setting. */
  lemma ValuePairStep(f: string, v: string, rest: seq<string>, s: ScanState)
    requires IsValueFlag(f)
    ensures Scan([f, v] + rest, s) == Scan(rest, SetValue(s, f, v))
  {
    ScanStep([f, v] + rest, s);
    assert ([f, v] + rest)[2..] == rest;
  }

  /** A stretch scanned through, then a value flag: the rest goes on from the new setting. */
  lemma ScanAfterSetting(mid: seq<string>, f: string, v: string, post: seq<string>, s: ScanState)
    requires Scan(mid, s).Finished? && IsValueFlag(f)
    ensures Scan(mid + ([f, v] + post), s) == Scan(post, SetValue(Scan(mid, s).state, f, v))
  {
    ScanAppend(mid, [f, v] + post, s);
    ValuePairStep(f, v, post, Scan(mid, s).state);
  }

  /**
   * An option set before a stretch of arguments that is scanned through,
   * and set again after it, ends with the second value as if the first had
   * never been given.
   */
  lemma {:induction false} ScanThenSet(mid: seq<string>, s: ScanState, f1: string, v1: string, f2: string, v2: string)
    requires Scan(mid, s).Finished? && SameOption(f1, f2)
    ensures Scan(mid, SetValue(s, f1, v1)).Finished?
    ensures SetValue(Scan(mid, SetValue(s, f1, v1)).state, f2, v2) == SetValue(Scan(mid, s).state, f2, v2)
    decreases |mid|
  {
    if mid == [] {
      SetValueOverrides(s, f1, v1, f2, v2);
    } else {
      var a := mid[0];
      if IsListenFlag(a) {
        assert SetValue(s, f1, v1).(skipListen := false) == SetValue(s.(skipListen := false), f1, v1);
        ScanThenSet(mid[1..], s.(skipListen := false), f1, v1, f2, v2);
      } else if IsNoChrootFlag(a) {
        var t := s.(opts := s.opts.(chrooted := false));
        assert SetValue(s, f1, v1).(opts := SetValue(s, f1, v1).opts.(chrooted := false)) == SetValue(t, f1, v1);
        ScanThenSet(mid[1..], t, f1, v1, f2, v2);
      } else {
        assert IsValueFlag(a) && |mid| >= 2;
        if SameOption(f1, a) {
          SetValueOverrides(s, f1, v1, a, mid[1]);
        } else {
          SetValueCommutes(s, f1, v1, a, mid[1]);
          ScanThenSet(mid[2..], SetValue(s, a, mid[1]), f1, v1, f2, v2);
        }
      }
    }
  }

  /** Setting the same option twice, under either spelling, leaves only the second value. */
  lemma SetValueOverrides(st: ScanState, f1: string, v1: string, f2: string, v2: string)
    requires SameOption(f1, f2)
    ensures SetValue(SetValue(st, f1, v1), f2, v2) == SetValue(st, f2, v2)
  {
  }

  /** Settings of two different options do not interfere: their order does not matter. */
  lemma SetValueCommutes(st: ScanState, f: string, v: string, g: string, w: string)
    requires IsValueFlag(f) && IsValueFlag(g) && !SameOption(f, g)
    ensures SetValue(SetValue(st, f, v), g, w) == SetValue(SetValue(st, g, w), f, v)
  {
  }

  /** "-k _" clears a password given earlier; any other value sets it. */
  lemma PasswordFlag(pre: seq<string>, flag: string, v: string, st: ScanState)
    requires Scan(pre, st).Finished? && IsPasswordFlag(flag) && '\0' !in v
    ensures Scan(pre + [flag, v], st) ==
      Finished(Scan(pre, st).state.(password := if v == "_" then None else Some(v)))
  {
    ValueFlagSets(pre, flag, v, st);
    assert CString("_") == "_";
  }

  /** The value after -u is a user name even when it reads like a flag. */
  lemma FlagValueNotInterpreted(st: ScanState)
    ensures Scan(["-u", "-h"], st) == Finished(st.(opts := st.opts.(user := Some("-h"))))
  {
    assert ["-u", "-h"][2..] == [];
  }

  /**
   * --help, -h or an unrecognised argument met at a flag position stops the
   * scan there, whatever follows.
   */
  lemma StopsAtHelpOrUnknown(pre: seq<string>, a: string, post: seq<string>, st: ScanState)
    requires Scan(pre, st).Finished? && !IsSettingFlag(a)
    ensures Scan(pre + [a] + post, st) ==
      Stopped(Scan(pre, st).state, if IsHelpFlag(a) then Help else UnknownArgument(a))
  {
    ScanAppend(pre, [a] + post, st);
    assert pre + [a] + post == pre + ([a] + post);
  }

  /** A missing value is reported only for a value flag in the last position, and a NULL value only for -u, -i or -e. */
  lemma MissingValueOnlyAtEnd(args: seq<string>, st: ScanState)
    requires Scan(args, st).RanOff? || (Scan(args, st).Stopped? && Scan(args, st).reason.MissingValue?)
    ensures args != [] && IsValueFlag(args[|args| - 1])
    ensures Scan(args, st).RanOff? <==>
      IsInjectFlag(args[|args| - 1]) || IsExecFlag(args[|args| - 1]) || IsUserFlag(args[|args| - 1])
    ensures Scan(args, st).Stopped? ==> Scan(args, st).reason.flag == args[|args| - 1]
    decreases |args|
  {
    var a := args[0];
    if IsListenFlag(a) {
      var rest := args[1..];
      assert Scan(args, st) == Scan(rest, st.(skipListen := false));
      MissingValueOnlyAtEnd(rest, st.(skipListen := false));
      assert rest[|rest| - 1] == args[|args| - 1];
    } else if IsNoChrootFlag(a) {
      var rest := args[1..];
      assert Scan(args, st) == Scan(rest, st.(opts := st.opts.(chrooted := false)));
      MissingValueOnlyAtEnd(rest, st.(opts := st.opts.(chrooted := false)));
      assert rest[|rest| - 1] == args[|args| - 1];
    } else if IsValueFlag(a) && |args| >= 2 {
      var rest := args[2..];
      assert Scan(args, st) == Scan(rest, SetValue(st, a, args[1]));
      MissingValueOnlyAtEnd(rest, SetValue(st, a, args[1]));
      assert rest[|rest| - 1] == args[|args| - 1];
    }
  }

  // ---------------------------------------------------------------------
  // show_usage
  // ---------------------------------------------------------------------

  /** The %*s width show_usage prints after a value: the room left in its column, at least one space. */
  function Pad(width: int, printed: int): (pad: int)
    ensures pad >= 1
    ensures printed < width ==> printed + pad == width
    ensures printed >= width ==> pad == 1
  {
    if width - printed <= 0 then 1 else width - printed
  }

  /** "<lead><value>>" followed by the padding to the description column. */
  function Field(lead: string, value: string, width: int): string {
    lead + value + ">" + Repeat(' ', Pad(width, |value|))
  }

  const DESCRIPTION_COLUMN: nat := 42

  /** The option columns that show no value are written out to the description column. */
  const HELP_COLUMN: string := "    -h, --help                            "
  const LISTEN_COLUMN: string := "    -l, --listen                          "
  const NO_CHROOT_COLUMN: string := "    --no-chroot                           "
  const INJECT_COLUMN: string := "    -i, --inject <dynamic-library>        "
  const PASSWORD_COLUMN: string := "    -k, --password <password>             "

  /** The text before each shown default. */
  const ALARM_LEAD: string := "    -a, --alarm <seconds="
  const PORT_LEAD: string := "    -p, --port <port="
  const USER_LEAD: string := "    -u, --user <user="
  const EXEC_LEAD: string := "    -e, --exec <program="

  /**
   * The column part of each option line, with the current option values as
   * the shown defaults.  show_usage takes strlen of the user, so the user
   * must not be NULL.
   */
  function UsageColumns(opts: ServerOptions, progname: string): seq<string>
    requires opts.user.Some?
  {
    [ HELP_COLUMN,
      LISTEN_COLUMN,
      Field(ALARM_LEAD, DecInt(AsInt(opts.timeLimitSeconds)), 16),
      NO_CHROOT_COLUMN,
      Field(PORT_LEAD, Dec(opts.port), 20),
      Field(USER_LEAD, opts.user.value, 20),
      INJECT_COLUMN,
      Field(EXEC_LEAD, progname, 17),
      PASSWORD_COLUMN ]
  }

  /** The description of each option line, in the same order. */
  const USAGE_DESCRIPTIONS: seq<string> := [
    "Display this help message",
    "Run the server and listen for incoming connections",
    "Time limit for child processes to run, or 0 to disable",
    "Prevent the server from entering a chroot and changing directory",
    "Set the port the server listens on for incoming connections",
    "Name of the user that child processes should run as",
    "Path to dynamic library that should be injected into the target process",
    "Program to execute upon receiving a connection",
    "Require that clients enter the provided password after connecting" ]

  /** The lines server_main prints before returning EXIT_FAILURE. */
  function UsageText(opts: ServerOptions, progname: string, unknown: Option<string>): seq<string>
    requires opts.user.Some?
  {
    var columns := UsageColumns(opts, progname);
    (if unknown.Some? then ["Error: Unknown argument '" + unknown.value + "'"] else [])
    + ["Usage: " + progname + " [options]", "  Options:"]
    + seq(|columns|, i requires 0 <= i < |columns| => columns[i] + USAGE_DESCRIPTIONS[i])
  }

  /** The %d text of an unsigned time limit never has more than 11 characters. */
  lemma TimeLimitTextLength(t: UInt)
    ensures |DecInt(AsInt(t))| <= 11
  {
    var i := AsInt(t);
    assert Pow10(10) == 10000000000;
    if i < 0 {
      DecLength(-i, 10);
    } else {
      DecLength(i, 10);
    }
  }

  /** The %hu text of a port never has more than 5 characters. */
  lemma PortTextLength(p: UShort)
    ensures |Dec(p)| <= 5
  {
    assert Pow10(5) == 100000;
    DecLength(p, 5);
  }

  /** A measured column: the value, ">", then its padding. */
  lemma FieldShape(lead: string, value: string, width: int)
    ensures var f := Field(lead, value, width);
      |f| == |lead| + |value| + 1 + Pad(width, |value|) && f[|f| - 1] == ' '
  {
  }

  /** The last character of a column is a space, so the description never touches it. */
  predicate EndsInSpace(c: string) { c != [] && c[|c| - 1] == ' ' }

  lemma FieldEndsInSpace(lead: string, value: string, width: int)
    ensures EndsInSpace(Field(lead, value, width))
  {
    FieldShape(lead, value, width);
  }

  lemma FixedColumnsEndInSpace()
    ensures EndsInSpace(HELP_COLUMN) && EndsInSpace(LISTEN_COLUMN) && EndsInSpace(NO_CHROOT_COLUMN)
    ensures EndsInSpace(INJECT_COLUMN) && EndsInSpace(PASSWORD_COLUMN)
  {
    FixedColumnsAligned();
  }

  /** A value shorter than its column leaves the column exactly lead + width + 1 wide. */
  lemma FieldWidth(lead: string, value: string, width: int)
    requires |value| < width
    ensures |Field(lead, value, width)| == |lead| + width + 1
  {
    FieldShape(lead, value, width);
  }

  /** The columns written out in full are exactly as wide as the description column. */
  lemma FixedColumnsAligned()
    ensures |HELP_COLUMN| == |LISTEN_COLUMN| == |NO_CHROOT_COLUMN| == DESCRIPTION_COLUMN
    ensures |INJECT_COLUMN| == |PASSWORD_COLUMN| == DESCRIPTION_COLUMN
    ensures HELP_COLUMN[41] == LISTEN_COLUMN[41] == NO_CHROOT_COLUMN[41] == ' '
    ensures INJECT_COLUMN[41] == PASSWORD_COLUMN[41] == ' '
  {
  }

  /** Each lead plus its column width is the description column, counting the ">". */
  lemma LeadLengths()
    ensures |ALARM_LEAD| + 16 + 1 == DESCRIPTION_COLUMN
    ensures |PORT_LEAD| + 20 + 1 == DESCRIPTION_COLUMN
    ensures |USER_LEAD| + 20 + 1 == DESCRIPTION_COLUMN
    ensures |EXEC_LEAD| + 17 + 1 == DESCRIPTION_COLUMN
  {
  }

  /**
   * The columns of show_usage: every value is followed by at least one
   * space, and when the user name and the program name fit their columns
   * every description starts at column 42.
   */
  lemma UsageAligned(opts: ServerOptions, progname: string)
    requires opts.user.Some?
    ensures forall i :: 0 <= i < |UsageColumns(opts, progname)| ==>
      EndsInSpace(UsageColumns(opts, progname)[i])
    ensures |opts.user.value| < 20 && |progname| < 17 ==>
      forall i :: 0 <= i < |UsageColumns(opts, progname)| ==> |UsageColumns(opts, progname)[i]| == DESCRIPTION_COLUMN
  {
    UsageColumnsEndInSpace(opts, progname);
    if |opts.user.value| < 20 && |progname| < 17 {
      UsageColumnsWidth(opts, progname);
    }
  }

  lemma UsageColumnsEndInSpace(opts: ServerOptions, progname: string)
    requires opts.user.Some?
    ensures forall i :: 0 <= i < |UsageColumns(opts, progname)| ==>
      EndsInSpace(UsageColumns(opts, progname)[i])
  {
    var alarm := Field(ALARM_LEAD, DecInt(AsInt(opts.timeLimitSeconds)), 16);
    var port := Field(PORT_LEAD, Dec(opts.port), 20);
    var user := Field(USER_LEAD, opts.user.value, 20);
    var exec := Field(EXEC_LEAD, progname, 17);
    FieldEndsInSpace(ALARM_LEAD, DecInt(AsInt(opts.timeLimitSeconds)), 16);
    FieldEndsInSpace(PORT_LEAD, Dec(opts.port), 20);
    FieldEndsInSpace(USER_LEAD, opts.user.value, 20);
    FieldEndsInSpace(EXEC_LEAD, progname, 17);
    FixedColumnsEndInSpace();
    assert UsageColumns(opts, progname) ==
      [HELP_COLUMN, LISTEN_COLUMN, alarm, NO_CHROOT_COLUMN, port, user, INJECT_COLUMN, exec, PASSWORD_COLUMN];
  }

  lemma UsageColumnsWidth(opts: ServerOptions, progname: string)
    requires opts.user.Some? && |opts.user.value| < 20 && |progname| < 17
    ensures forall i :: 0 <= i < |UsageColumns(opts, progname)| ==> |UsageColumns(opts, progname)[i]| == DESCRIPTION_COLUMN
  {
    var alarm := Field(ALARM_LEAD, DecInt(AsInt(opts.timeLimitSeconds)), 16);
    var port := Field(PORT_LEAD, Dec(opts.port), 20);
    var user := Field(USER_LEAD, opts.user.value, 20);
    var exec := Field(EXEC_LEAD, progname, 17);
    LeadLengths();
    TimeLimitTextLength(opts.timeLimitSeconds);
    FieldWidth(ALARM_LEAD, DecInt(AsInt(opts.timeLimitSeconds)), 16);
    PortTextLength(opts.port);
    FieldWidth(PORT_LEAD, Dec(opts.port), 20);
    FieldWidth(USER_LEAD, opts.user.value, 20);
    FieldWidth(EXEC_LEAD, progname, 17);
    FixedColumnsAligned();
    assert UsageColumns(opts, progname) ==
      [HELP_COLUMN, LISTEN_COLUMN, alarm, NO_CHROOT_COLUMN, port, user, INJECT_COLUMN, exec, PASSWORD_COLUMN];
  }

  // ---------------------------------------------------------------------
  // serve_internal: the guard and the choice of mode
  // ---------------------------------------------------------------------

  /** What serve_internal goes on to do. */
  datatype Mode =
    | NoHandler
    | RunHandler(sock: int)
    | Listen(user: Option<string>, chrooted: bool, port: UShort, timeout: UInt,
             injectLib: Option<string>, execProg: Option<string>)

  /**
   * With neither a handler nor a program to exec it fails at once; with the
   * marker set or without --listen it calls the handler (on socket 0 when
   * not listening, else on the marker's number); otherwise it starts the
   * socket server.  On the handler path the handler must not be NULL.
   */
  function SelectMode(opts: ServerOptions, handler: bool, injectLib: Option<string>, execProg: Option<string>,
                      marker: Option<string>, skipListen: bool): (m: Mode)
    requires handler || execProg.None? || (marker.None? && !skipListen)
    ensures m.NoHandler? <==> !handler && execProg.None?
    ensures m.RunHandler? <==> (handler || execProg.Some?) && (marker.Some? || skipListen)
    ensures m.RunHandler? ==> m.sock == if skipListen then 0 else Atoi(marker.value)
    ensures m.Listen? ==> m == Listen(opts.user, opts.chrooted, opts.port, opts.timeLimitSeconds, injectLib, execProg)
  {
    if !handler && execProg.None? then NoHandler
    else if marker.Some? || skipListen then RunHandler(if skipListen then 0 else Atoi(marker.value))
    else Listen(opts.user, opts.chrooted, opts.port, opts.timeLimitSeconds, injectLib, execProg)
  }

  datatype MainOutcome =
    | Usage(text: seq<string>)
    | ArgumentMissing(flag: string)
    | Served(mode: Mode)

  /** The status server_main returns, when it returns at all. */
  function ExitStatus(o: MainOutcome): Option<int> {
    match o
    case Usage(_) => Some(EXIT_FAILURE)
    case ArgumentMissing(_) => None
    case Served(NoHandler) => Some(EXIT_FAILURE)
    case Served(RunHandler(_)) => Some(EXIT_SUCCESS)
    case Served(Listen(_, _, _, _, _, _)) => None
  }

  function Lookup(env: map<string, string>, name: string): Option<string> {
    if name in env then Some(env[name]) else None
  }

  /** The precondition of the handler path, for a finished scan. */
  predicate HandlerPathSafe(res: ScanResult, handler: bool, env: map<string, string>) {
    !res.Stopped? ==> handler || res.state.execProg.None? || (MARKER !in env && !res.state.skipListen)
  }

  /** The precondition of the usage path: show_usage takes strlen of the user. */
  predicate UsagePathSafe(res: ScanResult) {
    res.Stopped? && !res.reason.MissingValue? ==> res.state.opts.user.Some?
  }

  /**
   * A non-NULL user stays non-NULL up to the end of the scan, except when a
   * trailing -u stores the NULL at argv[argc]; so defaults with a user make
   * the usage path safe.
   */
  lemma {:induction false} ScanKeepsUser(args: seq<string>, st: ScanState)
    requires st.opts.user.Some?
    ensures !Scan(args, st).RanOff? ==> Scan(args, st).state.opts.user.Some?
    ensures UsagePathSafe(Scan(args, st))
    decreases |args|
  {
    if args != [] {
      var a := args[0];
      if IsListenFlag(a) {
        ScanKeepsUser(args[1..], st.(skipListen := false));
      } else if IsNoChrootFlag(a) {
        ScanKeepsUser(args[1..], st.(opts := st.opts.(chrooted := false)));
      } else if IsValueFlag(a) && |args| >= 2 {
        ScanKeepsUser(args[2..], SetValue(st, a, args[1]));
      }
    }
  }

  /** What server_main does with the result of the scan. */
  function MainOutcomeOf(res: ScanResult, handler: bool, env: map<string, string>, progname: string): MainOutcome
    requires HandlerPathSafe(res, handler, env) && UsagePathSafe(res)
  {
    match res
    case Stopped(st, Help) => Usage(UsageText(st.opts, progname, None))
    case Stopped(st, UnknownArgument(a)) => Usage(UsageText(st.opts, progname, Some(a)))
    case Stopped(_, MissingValue(f)) => ArgumentMissing(f)
    case RanOff(st) =>
      Served(SelectMode(st.opts, handler, st.injectLib, st.execProg, Lookup(env, MARKER), st.skipListen))
    case Finished(st) =>
      Served(SelectMode(st.opts, handler, st.injectLib, st.execProg, Lookup(env, MARKER), st.skipListen))
  }

  /** -h, --help or an unknown argument: usage is printed and EXIT_FAILURE returned, nothing is served. */
  lemma HelpFails(pre: seq<string>, a: string, post: seq<string>, st: ScanState,
                  handler: bool, env: map<string, string>, progname: string)
    requires Scan(pre, st).Finished? && !IsSettingFlag(a) && Scan(pre, st).state.opts.user.Some?
    ensures Scan(pre + [a] + post, st).Stopped? && Scan(pre + [a] + post, st).state == Scan(pre, st).state
    ensures var o := MainOutcomeOf(Scan(pre + [a] + post, st), handler, env, progname);
      o.Usage? && ExitStatus(o) == Some(EXIT_FAILURE)
  {
    StopsAtHelpOrUnknown(pre, a, post, st);
  }

  /** Without --listen and with a handler, the handler runs on socket 0 whatever the marker says. */
  lemma NotListeningRunsHandler(args: seq<string>, st: ScanState, env: map<string, string>, progname: string)
    requires st.skipListen && Scan(args, st).Finished?
    requires forall i :: 0 <= i < |args| ==> !IsListenFlag(args[i])
    ensures MainOutcomeOf(Scan(args, st), true, env, progname) == Served(RunHandler(0))
  {
    ScanKeepsSkipListen(args, st);
  }

  /** The scan only ever clears skipListen, and only for -l / --listen. */
  lemma {:induction false} ScanKeepsSkipListen(args: seq<string>, st: ScanState)
    requires forall i :: 0 <= i < |args| ==> !IsListenFlag(args[i])
    ensures Scan(args, st).state.skipListen == st.skipListen
    decreases |args|
  {
    if args != [] {
      var a := args[0];
      assert !IsListenFlag(a);
      forall i | 0 <= i < |args[1..]|
        ensures !IsListenFlag(args[1..][i])
      {
        assert args[1..][i] == args[i + 1];
      }
      if IsNoChrootFlag(a) {
        ScanKeepsSkipListen(args[1..], st.(opts := st.opts.(chrooted := false)));
      } else if IsValueFlag(a) && |args| >= 2 {
        forall i | 0 <= i < |args[2..]|
          ensures !IsListenFlag(args[2..][i])
        {
          assert args[2..][i] == args[i + 2];
        }
        ScanKeepsSkipListen(args[2..], SetValue(st, a, args[1]));
      }
    }
  }

  /**
   * serve: serve_internal with no library to inject and no program to exec,
   * so a NULL handler always stops at the guard.
   */
  function ServeMode(opts: ServerOptions, handler: bool, marker: Option<string>, skipListen: bool): (m: Mode)
    ensures !handler ==> m.NoHandler?
    ensures handler ==> (m.RunHandler? <==> marker.Some? || skipListen)
  {
    SelectMode(opts, handler, None, None, marker, skipListen)
  }

  /** The harness's two process-wide settings, which the argv scan updates. */
  class Harness {
    var skipListen: bool
    var password: Option<string>

    constructor ()
      ensures skipListen && password.None?
    {
      skipListen := true;
      password := None;
    }

    /** The scan state server_main starts from. */
    function Initial(opts: ServerOptions): ScanState
      reads this
    {
      ScanState(opts, skipListen, password, None, None)
    }

    /** serve_internal: the guard, the marker lookup and the choice of mode. */
    method ServeInternal(opts: ServerOptions, handler: bool, injectLib: Option<string>, execProg: Option<string>,
                         env: Environment) returns (m: Mode)
      requires handler || execProg.None? || (MARKER !in env.vars && !skipListen)
      ensures m == SelectMode(opts, handler, injectLib, execProg, Lookup(env.vars, MARKER), skipListen)
    {
      if !handler && execProg.None? {
        return NoHandler;
      }
      var marker := env.Getenv(MARKER);
      if marker.Some? || skipListen {
        return RunHandler(if skipListen then 0 else Atoi(marker.value));
      }
      m := Listen(opts.user, opts.chrooted, opts.port, opts.timeLimitSeconds, injectLib, execProg);
    }

    /** serve: serve_internal without an injected library or an exec'd program. */
    method Serve(opts: ServerOptions, handler: bool, env: Environment) returns (m: Mode)
      ensures m == ServeMode(opts, handler, Lookup(env.vars, MARKER), skipListen)
    {
      m := ServeInternal(opts, handler, None, None, env);
    }

    /** The branch of server_main's loop that stores the value of a value flag. */
    method ApplyValue(a: string, v: string, cur: ServerOptions, injectLib: Option<string>, execProg: Option<string>)
      returns (cur': ServerOptions, injectLib': Option<string>, execProg': Option<string>)
      modifies this
      requires IsValueFlag(a)
      ensures ScanState(cur', skipListen, password, injectLib', execProg') ==
        SetValue(ScanState(cur, old(skipListen), old(password), injectLib, execProg), a, v)
    {
      cur', injectLib', execProg' := cur, injectLib, execProg;
      if IsUserFlag(a) {
        cur' := cur.(user := Some(v));
      } else if IsPortFlag(a) {
        cur' := cur.(port := ToUShort(Atoi(v)));
      } else if IsAlarmFlag(a) {
        cur' := cur.(timeLimitSeconds := ToUInt(Atoi(v)));
      } else if IsInjectFlag(a) {
        injectLib' := Some(v);
      } else if IsExecFlag(a) {
        execProg' := Some(v);
      } else {
        password := if StrEq(v, "_") then None else Some(v);
      }
    }

    /**
     * The loop of server_main: scan argv from index 1, updating the options
     * copy, the two locals and the two settings, up to the first argument
     * that makes server_main return.
     */
    method ScanArguments(argv: seq<string>, opts: ServerOptions) returns (r: ScanResult)
      modifies this
      ensures r == Scan(Args(argv), old(Initial(opts)))
      ensures skipListen == r.state.skipListen && password == r.state.password
    {
      var cur := opts;
      var injectLib: Option<string> := None;
      var execProg: Option<string> := None;
      if |argv| == 0 {
        return Finished(Initial(opts));
      }
      assert Args(argv) == argv[1..];
      var i := 1;
      while i < |argv|
        invariant 1 <= i <= |argv|
        invariant Scan(argv[i..], ScanState(cur, skipListen, password, injectLib, execProg)) == Scan(Args(argv), old(Initial(opts)))
      {
        var a := argv[i];
        var st := ScanState(cur, skipListen, password, injectLib, execProg);
        ScanStep(argv[i..], st);
        if IsHelpFlag(a) {
          return Stopped(st, Help);
        } else if IsListenFlag(a) {
          skipListen := false;
        } else if IsNoChrootFlag(a) {
          cur := cur.(chrooted := false);
        } else if IsValueFlag(a) {
          if i + 1 == |argv| {
            if IsInjectFlag(a) {
              injectLib := None;
            } else if IsExecFlag(a) {
              execProg := None;
            } else if IsUserFlag(a) {
              cur := cur.(user := None);
            } else {
              return Stopped(st, MissingValue(a));
            }
            return RanOff(ScanState(cur, skipListen, password, injectLib, execProg));
          }
          cur, injectLib, execProg := ApplyValue(a, argv[i + 1], cur, injectLib, execProg);
          assert argv[i..][2..] == argv[i + 2..];
          i := i + 1;
        } else {
          return Stopped(st, UnknownArgument(a));
        }
        assert argv[i..][1..] == argv[i + 1..];
        i := i + 1;
      }
      assert argv[i..] == [];
      r := Finished(ScanState(cur, skipListen, password, injectLib, execProg));
    }

    /** server_main: the scan, then usage on help or an unknown argument, else serve_internal. */
    method ServerMain(argv: seq<string>, opts: ServerOptions, handler: bool, env: Environment, progname: string)
      returns (o: MainOutcome)
      modifies this
      requires HandlerPathSafe(Scan(Args(argv), Initial(opts)), handler, env.vars)
      requires UsagePathSafe(Scan(Args(argv), Initial(opts)))
      ensures var res := Scan(Args(argv), old(Initial(opts)));
        o == MainOutcomeOf(res, handler, env.vars, progname) &&
        skipListen == res.state.skipListen && password == res.state.password
    {
      var r := ScanArguments(argv, opts);
      match r
      case Stopped(st, Help) =>
        o := Usage(UsageText(st.opts, progname, None));
      case Stopped(st, UnknownArgument(a)) =>
        o := Usage(UsageText(st.opts, progname, Some(a)));
      case Stopped(_, MissingValue(f)) =>
        o := ArgumentMissing(f);
      case RanOff(st) =>
        var m := ServeInternal(st.opts, handler, st.injectLib, st.execProg, env);
        o := Served(m);
      case Finished(st) =>
        var m := ServeInternal(st.opts, handler, st.injectLib, st.execProg, env);
        o := Served(m);
    }
  }

  // ---------------------------------------------------------------------
  // Connection logging, clean_env and the password prompt
  // ---------------------------------------------------------------------

  /** The line the connection child logs: its pid, then the connection line of the earlier harness. */
  function ConnectionLog(pid: nat, timestamp: string, ip: bv32): string {
    Dec(pid) + ": " + Net.ReceivedLine(timestamp, ip)
  }

  /** The log line starts with the child's pid: atoi reads it back. */
  lemma ConnectionLogPid(pid: nat, timestamp: string, ip: bv32)
    ensures Atoi(ConnectionLog(pid, timestamp, ip)) == pid
  {
    assert ConnectionLog(pid, timestamp, ip) == Dec(pid) + (": " + Net.ReceivedLine(timestamp, ip));
    AtoiDecPrefix(pid, ": " + Net.ReceivedLine(timestamp, ip));
  }

  /** The log line ends with the peer's address and ".\n", and that field reads back to its four octets. */
  lemma ConnectionLogPeer(pid: nat, timestamp: string, ip: bv32)
    ensures var line := ConnectionLog(pid, timestamp, ip);
      var o := Net.SplitIp(ip);
      var k := |line| - |Net.DottedQuad(ip)| - 2;
      0 <= k && line[|line| - 2..] == ".\n" &&
      Net.ParseDottedQuad(line[k..|line| - 2]) == Some((o.a as nat, o.b as nat, o.c as nat, o.d as nat))
  {
    var head := Dec(pid) + ": ";
    ConcatRegroup(head, Net.ReceivedPrefix(timestamp), Net.DottedQuad(ip), ".\n");
    Net.DottedQuadField(head + Net.ReceivedPrefix(timestamp), ip);
  }

  lemma ConcatRegroup(a: string, b: string, c: string, d: string)
    ensures a + (b + c + d) == a + b + c + d
  {
  }

  /** The variables a connection child removes before running the challenge. */
  const CLEANED_VARS: seq<string> := ["CHALLENGE_NAME", "CHALLENGE_PASSWORD", "PORT", "TIMELIMIT", "PWNABLESERVER_EXTRA_ARGS"]

  /** clean_env: unsetenv of each listed variable in turn; every other variable is left alone. */
  method CleanEnv(env: Environment)
    modifies env
    ensures forall k :: k in env.vars <==> k in old(env.vars) && k !in CLEANED_VARS
    ensures forall k :: k in env.vars ==> env.vars[k] == old(env.vars)[k]
  {
    var i := 0;
    while i < |CLEANED_VARS|
      invariant 0 <= i <= |CLEANED_VARS|
      invariant forall k :: k in env.vars <==> k in old(env.vars) && k !in CLEANED_VARS[..i]
      invariant forall k :: k in env.vars ==> env.vars[k] == old(env.vars)[k]
    {
      env.Unsetenv(CLEANED_VARS[i]);
      assert CLEANED_VARS[..i + 1] == CLEANED_VARS[..i] + [CLEANED_VARS[i]];
      i := i + 1;
    }
    assert CLEANED_VARS[..i] == CLEANED_VARS;
  }

  const PASSWORD_BUFFER: nat := 100

  /** How many characters fgets stores for a buffer of the given size: through the first newline, at most size - 1. */
  function FgetsLength(input: string, size: nat): (n: nat)
    requires size >= 1
    ensures n <= size - 1 && n <= |input|
    ensures forall j :: 0 <= j < n - 1 ==> input[j] != '\n'
    ensures n < size - 1 && n < |input| ==> n > 0 && input[n - 1] == '\n'
  {
    var line := match Strchr(input, '\n') case None => |input| case Some(k) => k + 1;
    if line < size - 1 then line else size - 1
  }

  /** The text strcmp sees after the newline is cut off: up to the first newline or NUL. */
  function Typed(line: string): (t: string)
    ensures t <= line && '\n' !in t && '\0' !in t
    ensures |t| < |line| ==> line[|t|] == '\n' || line[|t|] == '\0'
  {
    if line == [] || line[0] == '\n' || line[0] == '\0' then [] else [line[0]] + Typed(line[1..])
  }

  datatype Verdict = NoPassword | Incorrect | Correct

  /**
   * The password check: missing input fails; otherwise what fgets stores,
   * cut at its first newline or NUL, must equal the password.  fgets keeps
   * at most 99 characters, so a line shorter than that must equal the
   * password exactly, while a 99-character password is accepted whatever
   * follows it on the line.
   */
  function PasswordVerdict(input: string, password: string): Verdict {
    if input == [] then NoPassword
    else if Typed(input[..FgetsLength(input, PASSWORD_BUFFER)]) == CString(password) then Correct
    else Incorrect
  }

  /** A password followed by a newline is accepted when it fits the buffer. */
  lemma CorrectLineAccepted(password: string, rest: string)
    requires '\n' !in password && '\0' !in password && |password| < PASSWORD_BUFFER - 1
    ensures PasswordVerdict(password + "\n" + rest, password) == Correct
  {
    var input := password + "\n" + rest;
    StrchrAt(password, "\n" + rest, '\n');
    assert input == password + ("\n" + rest);
    var line := input[..FgetsLength(input, PASSWORD_BUFFER)];
    assert line == password + "\n";
    TypedOf(password, "\n");
    assert CString(password) == password;
  }

  lemma {:induction false} TypedOf(s: string, rest: string)
    requires '\n' !in s && '\0' !in s && (rest == [] || rest[0] == '\n' || rest[0] == '\0')
    ensures Typed(s + rest) == s
    decreases |s|
  {
    if s == [] {
      assert s + rest == rest;
    } else {
      assert (s + rest)[1..] == s[1..] + rest;
      TypedOf(s[1..], rest);
    }
  }

  /** Anything accepted starts with the password, and a password of 100 characters or more is never accepted. */
  lemma AcceptedStartsWithPassword(input: string, password: string)
    requires PasswordVerdict(input, password) == Correct
    ensures CString(password) <= input && |CString(password)| < PASSWORD_BUFFER
  {
  }

  /**
   * A password shorter than 99 characters is accepted exactly when the
   * input starts with it and it is followed by a newline, a NUL or the end
   * of the input.
   */
  lemma ShortPasswordVerdict(input: string, password: string)
    requires |CString(password)| < PASSWORD_BUFFER - 1
    ensures var p := CString(password);
      PasswordVerdict(input, password) == Correct <==>
        input != [] && '\n' !in p && p <= input &&
        (|input| == |p| || input[|p|] == '\n' || input[|p|] == '\0')
  {
    var p := CString(password);
    if input != [] {
      var n := FgetsLength(input, PASSWORD_BUFFER);
      var line := input[..n];
      if PasswordVerdict(input, password) == Correct {
        AcceptedStartsWithPassword(input, password);
        assert Typed(line) == p;
      } else if '\n' !in p && p <= input && (|input| == |p| || input[|p|] == '\n' || input[|p|] == '\0') {
        ShortLineIsPassword(input, p, n);
        assert false;
      }
    }
  }

  /** The step of ShortPasswordVerdict from a line that reaches past the password to its verdict. */
  lemma ShortLineIsPassword(input: string, p: string, n: nat)
    requires '\n' !in p && '\0' !in p && p <= input && n <= |input|
    requires |input| == |p| || input[|p|] == '\n' || input[|p|] == '\0'
    requires n > |p| || n == |input|
    ensures Typed(input[..n]) == p
  {
    var line := input[..n];
    if |p| < |input| {
      assert line == p + line[|p|..];
      TypedOf(p, line[|p|..]);
    } else {
      assert line == p + [];
      TypedOf(p, []);
    }
  }

  /**
   * A password of exactly 99 characters fills the buffer: it is accepted
   * exactly when the input starts with it, whatever follows on the line.
   */
  lemma FullBufferPasswordVerdict(input: string, password: string)
    requires |CString(password)| == PASSWORD_BUFFER - 1
    ensures var p := CString(password);
      PasswordVerdict(input, password) == Correct <==> '\n' !in p && p <= input
  {
    var p := CString(password);
    if PasswordVerdict(input, password) == Correct {
      AcceptedStartsWithPassword(input, password);
    } else if '\n' !in p && p <= input {
      TypedOf(p, []);
      assert false;
    }
  }

  /** fgets(buf, buf.Length, stdin) on non-empty input: the characters it stores, then the terminating NUL. */
  method Fgets(input: string, buf: array<char>) returns (n: nat)
    requires buf.Length >= 1
    modifies buf
    ensures n == FgetsLength(input, buf.Length) && n < buf.Length
    ensures buf[..n] == input[..n] && buf[n] == '\0'
  {
    n := 0;
    while n < buf.Length - 1 && n < |input| && (n == 0 || input[n - 1] != '\n')
      invariant 0 <= n <= FgetsLength(input, buf.Length)
      invariant buf[..n] == input[..n]
      invariant forall j :: 0 <= j < n - 1 ==> input[j] != '\n'
    {
      buf[n] := input[n];
      n := n + 1;
    }
    buf[n] := '\0';
  }

  /** strchr(buf, '\n') and, when found, the newline overwritten by NUL: what is left is the typed text. */
  method CutAtNewline(buf: array<char>, n: nat) returns (k: nat)
    requires n < buf.Length && buf[n] == '\0'
    modifies buf
    ensures k <= n && buf[..k] == Typed(old(buf[..n]))
    ensures k < buf.Length && buf[k] == '\0'
  {
    ghost var line := buf[..n];
    k := 0;
    while buf[k] != '\0' && buf[k] != '\n'
      invariant 0 <= k <= n
      invariant buf[..n] == line && buf[n] == '\0'
      invariant forall j :: 0 <= j < k ==> buf[j] != '\0' && buf[j] != '\n'
      decreases n - k
    {
      k := k + 1;
    }
    TypedPrefix(line, k);
    if buf[k] == '\n' {
      buf[k] := '\0';
    }
  }

  /** strcmp(buf, want) == 0, for a buffer whose string is its first k characters. */
  method StrcmpZero(buf: array<char>, k: nat, want: string) returns (same: bool)
    requires k < buf.Length && buf[k] == '\0' && '\0' !in want
    ensures same <==> buf[..k] == want
  {
    var j := 0;
    while j < k && j < |want| && buf[j] == want[j]
      invariant 0 <= j <= k && j <= |want|
      invariant buf[..j] == want[..j]
    {
      j := j + 1;
    }
    same := j == k && j == |want|;
  }

  /** The password prompt: fgets into a 100-byte buffer, cut at the newline in place, strcmp. */
  method CheckPassword(input: string, password: string) returns (v: Verdict)
    ensures v == PasswordVerdict(input, password)
  {
    if input == [] {
      return NoPassword;
    }
    var pass := new char[PASSWORD_BUFFER];
    var n := Fgets(input, pass);
    var k := CutAtNewline(pass, n);
    var same := StrcmpZero(pass, k, CString(password));
    v := if same then Correct else Incorrect;
  }

  /** The first newline or NUL of a line is where Typed ends. */
  lemma TypedPrefix(line: string, k: nat)
    requires k <= |line|
    requires forall j :: 0 <= j < k ==> line[j] != '\0' && line[j] != '\n'
    requires k < |line| ==> line[k] == '\0' || line[k] == '\n'
    ensures Typed(line) == line[..k]
  {
    TypedOf(line[..k], line[k..]);
    assert line[..k] + line[k..] == line;
  }
}
