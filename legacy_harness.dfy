/**
 * The earlier single-file harness: a smaller argv scanner, a serve that
 * only decides between the handler and the socket server by the marker
 * variable, and a server_main that sets the marker itself when it is not
 * asked to listen.
 */
module LegacyHarness {
  import opened Wrappers
  import opened LibC
  import opened ServerConfig
  import Harness

  /** The options copy and the local listen flag. */
  datatype LegacyState = LegacyState(opts: ServerOptions, listen: bool)

  /**
   * Done: every argument was read.  RanOff: -u was last, so the NULL at
   * argv[argc] is stored as the user and the loop ends.  Unknown: an
   * argument that is none of the five flags (-h among them).  Missing: -p
   * or -a was last, so atoi is given the NULL at argv[argc], which is
   * undefined behaviour in C.
   */
  datatype LegacyScanResult =
    | Done(state: LegacyState)
    | RanOff(state: LegacyState)
    | Unknown(state: LegacyState, arg: string)
    | Missing(state: LegacyState, flag: string)

  /** The three flags that take a value. */
  predicate IsLegacyValueFlag(a: string) {
    Harness.IsUserFlag(a) || Harness.IsPortFlag(a) || Harness.IsAlarmFlag(a)
  }

  /** The flags the earlier server_main knows. */
  predicate IsLegacyFlag(a: string) {
    Harness.IsListenFlag(a) || Harness.IsNoChrootFlag(a) || IsLegacyValueFlag(a)
  }

  function SetLegacyValue(st: LegacyState, flag: string, v: string): (r: LegacyState)
    requires IsLegacyValueFlag(flag)
    ensures r.opts.user == (if Harness.IsUserFlag(flag) then Some(v) else st.opts.user)
    ensures r.opts.port == (if Harness.IsPortFlag(flag) then ToUShort(Atoi(v)) else st.opts.port)
    ensures r.opts.timeLimitSeconds == (if Harness.IsAlarmFlag(flag) then ToUInt(Atoi(v)) else st.opts.timeLimitSeconds)
    ensures r.opts.chrooted == st.opts.chrooted && r.listen == st.listen
  {
    if Harness.IsUserFlag(flag) then st.(opts := st.opts.(user := Some(v)))
    else if Harness.IsPortFlag(flag) then st.(opts := st.opts.(port := ToUShort(Atoi(v))))
    else st.(opts := st.opts.(timeLimitSeconds := ToUInt(Atoi(v))))
  }

  function LegacyScan(args: seq<string>, st: LegacyState): LegacyScanResult
    decreases |args|
  {
    if args == [] then Done(st)
    else
      var a := args[0];
      if Harness.IsListenFlag(a) then LegacyScan(args[1..], st.(listen := true))
      else if Harness.IsNoChrootFlag(a) then LegacyScan(args[1..], st.(opts := st.opts.(chrooted := false)))
      else if IsLegacyValueFlag(a) then
        if |args| >= 2 then LegacyScan(args[2..], SetLegacyValue(st, a, args[1]))
        else if Harness.IsUserFlag(a) then RanOff(st.(opts := st.opts.(user := None)))
        else Missing(st, a)
      else Unknown(st, a)
  }

  /** One step of the scan, for each kind of argument at the front. */
  lemma LegacyScanStep(args: seq<string>, st: LegacyState)
    requires args != []
    ensures Harness.IsListenFlag(args[0]) ==> LegacyScan(args, st) == LegacyScan(args[1..], st.(listen := true))
    ensures Harness.IsNoChrootFlag(args[0]) ==>
      LegacyScan(args, st) == LegacyScan(args[1..], st.(opts := st.opts.(chrooted := false)))
    ensures IsLegacyValueFlag(args[0]) && |args| >= 2 ==>
      LegacyScan(args, st) == LegacyScan(args[2..], SetLegacyValue(st, args[0], args[1]))
    ensures Harness.IsUserFlag(args[0]) && |args| == 1 ==>
      LegacyScan(args, st) == RanOff(st.(opts := st.opts.(user := None)))
    ensures IsLegacyValueFlag(args[0]) && !Harness.IsUserFlag(args[0]) && |args| == 1 ==>
      LegacyScan(args, st) == Missing(st, args[0])
    ensures !IsLegacyFlag(args[0]) ==> LegacyScan(args, st) == Unknown(st, args[0])
  {
  }

  /** The earlier scanner is compositional in the same way as the current one. */
  lemma {:induction false} LegacyScanAppend(a: seq<string>, b: seq<string>, st: LegacyState)
    ensures LegacyScan(a, st).Done? ==> LegacyScan(a + b, st) == LegacyScan(b, LegacyScan(a, st).state)
    ensures LegacyScan(a, st).Unknown? ==> LegacyScan(a + b, st) == LegacyScan(a, st)
    decreases |a|
  {
    if a == [] {
      assert a + b == b;
    } else {
      var x := a[0];
      assert (a + b)[0] == x;
      if Harness.IsListenFlag(x) || Harness.IsNoChrootFlag(x) {
        assert (a + b)[1..] == a[1..] + b;
        LegacyScanAppend(a[1..], b, if Harness.IsListenFlag(x) then st.(listen := true) else st.(opts := st.opts.(chrooted := false)));
      } else if IsLegacyValueFlag(x) && |a| >= 2 {
        assert (a + b)[1] == a[1] && (a + b)[2..] == a[2..] + b;
        LegacyScanAppend(a[2..], b, SetLegacyValue(st, x, a[1]));
      }
    }
  }

  /** -h and --help are not flags of the earlier harness: they are unknown arguments. */
  lemma HelpIsUnknown(pre: seq<string>, a: string, post: seq<string>, st: LegacyState)
    requires LegacyScan(pre, st).Done? && Harness.IsHelpFlag(a)
    ensures LegacyScan(pre + [a] + post, st) == Unknown(LegacyScan(pre, st).state, a)
  {
    LegacyScanAppend(pre, [a] + post, st);
    assert pre + [a] + post == pre + ([a] + post);
  }

  /**
   * A repeated -u, -p or -a: only the last setting counts.  An earlier
   * setting, under either spelling, can be dropped whatever lies between
   * the two (as long as it is scanned through) and whatever follows.
   */
  lemma LegacyRepeatedFlagOverrides(pre: seq<string>, f1: string, v1: string, mid: seq<string>,
                                    f2: string, v2: string, post: seq<string>, st: LegacyState)
    requires LegacyScan(pre, st).Done? && IsLegacyValueFlag(f1) && Harness.SameOption(f1, f2)
    requires LegacyScan(mid, LegacyScan(pre, st).state).Done?
    ensures LegacyScan(pre + [f1, v1] + mid + [f2, v2] + post, st) == LegacyScan(pre + mid + [f2, v2] + post, st)
  {
    var s0 := LegacyScan(pre, st).state;
    var s1 := SetLegacyValue(s0, f1, v1);
    var tail := mid + ([f2, v2] + post);
    Harness.Regroup(pre, [f1, v1], mid, [f2, v2], post);
    LegacyScanAppend(pre, [f1, v1] + tail, st);
    LegacyScanAppend(pre, tail, st);
    LegacyValuePairStep(f1, v1, tail, s0);
    LegacyScanThenSet(mid, s0, f1, v1, f2, v2);
    LegacyScanAfterSetting(mid, f2, v2, post, s1);
    LegacyScanAfterSetting(mid, f2, v2, post, s0);
  }

  lemma LegacyValuePairStep(f: string, v: string, rest: seq<string>, s: LegacyState)
    requires IsLegacyValueFlag(f)
    ensures LegacyScan([f, v] + rest, s) == LegacyScan(rest, SetLegacyValue(s, f, v))
  {
    LegacyScanStep([f, v] + rest, s);
    assert ([f, v] + rest)[2..] == rest;
  }

  lemma LegacyScanAfterSetting(mid: seq<string>, f: string, v: string, post: seq<string>, s: LegacyState)
    requires LegacyScan(mid, s).Done? && IsLegacyValueFlag(f)
    ensures LegacyScan(mid + ([f, v] + post), s) == LegacyScan(post, SetLegacyValue(LegacyScan(mid, s).state, f, v))
  {
    LegacyScanAppend(mid, [f, v] + post, s);
    LegacyValuePairStep(f, v, post, LegacyScan(mid, s).state);
  }

  /** An option set before a stretch that is scanned through and set again after it ends with the second value. */
  lemma {:induction false} LegacyScanThenSet(mid: seq<string>, s: LegacyState, f1: string, v1: string, f2: string, v2: string)
    requires LegacyScan(mid, s).Done? && IsLegacyValueFlag(f1) && Harness.SameOption(f1, f2)
    ensures LegacyScan(mid, SetLegacyValue(s, f1, v1)).Done?
    ensures SetLegacyValue(LegacyScan(mid, SetLegacyValue(s, f1, v1)).state, f2, v2) ==
      SetLegacyValue(LegacyScan(mid, s).state, f2, v2)
    decreases |mid|
  {
    if mid == [] {
      SetLegacyValueOverrides(s, f1, v1, f2, v2);
    } else {
      var a := mid[0];
      if Harness.IsListenFlag(a) {
        assert SetLegacyValue(s, f1, v1).(listen := true) == SetLegacyValue(s.(listen := true), f1, v1);
        LegacyScanThenSet(mid[1..], s.(listen := true), f1, v1, f2, v2);
      } else if Harness.IsNoChrootFlag(a) {
        var t := s.(opts := s.opts.(chrooted := false));
        assert SetLegacyValue(s, f1, v1).(opts := SetLegacyValue(s, f1, v1).opts.(chrooted := false)) == SetLegacyValue(t, f1, v1);
        LegacyScanThenSet(mid[1..], t, f1, v1, f2, v2);
      } else {
        assert IsLegacyValueFlag(a) && |mid| >= 2;
        if Harness.SameOption(f1, a) {
          SetLegacyValueOverrides(s, f1, v1, a, mid[1]);
        } else {
          SetLegacyValueCommutes(s, f1, v1, a, mid[1]);
          LegacyScanThenSet(mid[2..], SetLegacyValue(s, a, mid[1]), f1, v1, f2, v2);
        }
      }
    }
  }

  /** Setting the same option twice, under either spelling, leaves only the second value. */
  lemma SetLegacyValueOverrides(st: LegacyState, f1: string, v1: string, f2: string, v2: string)
    requires IsLegacyValueFlag(f1) && Harness.SameOption(f1, f2)
    ensures SetLegacyValue(SetLegacyValue(st, f1, v1), f2, v2) == SetLegacyValue(st, f2, v2)
  {
  }

  /** Settings of two different options can be made in either order. */
  lemma SetLegacyValueCommutes(st: LegacyState, f: string, v: string, g: string, w: string)
    requires IsLegacyValueFlag(f) && IsLegacyValueFlag(g) && !Harness.SameOption(f, g)
    ensures SetLegacyValue(SetLegacyValue(st, f, v), g, w) == SetLegacyValue(SetLegacyValue(st, g, w), f, v)
  {
  }

  // ---------------------------------------------------------------------
  // The usage message
  // ---------------------------------------------------------------------

  /** The earlier usage message's description column. */
  const LEGACY_DESCRIPTION_COLUMN: nat := 35

  const LEGACY_LISTEN_COLUMN: string := "    -l, --listen                   "
  const LEGACY_NO_CHROOT_COLUMN: string := "    --no-chroot                    "

  const LEGACY_ALARM_LEAD: string := "    -a, --alarm <seconds="
  const LEGACY_PORT_LEAD: string := "    -p, --port <port="
  const LEGACY_USER_LEAD: string := "    -u, --user <user="

  /** "%3d>" and its padding: the time limit is right-aligned in three characters. */
  function AlarmColumn(t: UInt): string {
    LEGACY_ALARM_LEAD + LeftPad(DecInt(AsInt(t)), 3, ' ') + ">      "
  }

  /** "%05hu>" and its padding: the port is zero-filled to five digits. */
  function PortColumn(p: UShort): string {
    LEGACY_PORT_LEAD + LeftPad(Dec(p), 5, '0') + ">        "
  }

  /**
   * "%s>%*s" with width 13 - strlen(user): a negative width left-justifies,
   * so the padding is |13 - strlen(user)| spaces either way.
   */
  function UserColumn(user: string): string {
    var w := 13 - |user|;
    LEGACY_USER_LEAD + user + ">" + Repeat(' ', if w < 0 then -w else w)
  }

  const LEGACY_UNKNOWN_PREFIX: string := "Error: Unkown argument '"
  const LEGACY_OPTIONS_LINE: string := "  Options:"

  /** The description of each option line, in the order printed. */
  const LEGACY_DESCRIPTIONS: seq<string> := [
    "Run the server and listen for incoming connections",
    "Time limit for child processes to run, or 0 to disable",
    "Prevent the server from entering a chroot and changing directory",
    "Set the port the server listens on for incoming connections",
    "Name of the user that child processes should run as" ]

  /** The lines printed for an unknown argument; strlen is taken of the user, so it must not be NULL. */
  function LegacyUsageText(opts: ServerOptions, progname: string, arg: string): seq<string>
    requires opts.user.Some?
  {
    [ LEGACY_UNKNOWN_PREFIX + arg + "'",
      "Usage: " + progname + " [options]",
      LEGACY_OPTIONS_LINE,
      LEGACY_LISTEN_COLUMN + LEGACY_DESCRIPTIONS[0],
      AlarmColumn(opts.timeLimitSeconds) + LEGACY_DESCRIPTIONS[1],
      LEGACY_NO_CHROOT_COLUMN + LEGACY_DESCRIPTIONS[2],
      PortColumn(opts.port) + LEGACY_DESCRIPTIONS[3],
      UserColumn(opts.user.value) + LEGACY_DESCRIPTIONS[4] ]
  }

  /**
   * The earlier usage columns: the listen, no-chroot and port columns are
   * always 35 wide, the time limit column is when the limit has at most
   * three digits, and the user column is exactly when the user name has at
   * most 13 characters.
   */
  lemma LegacyUsageColumns(opts: ServerOptions)
    requires opts.user.Some?
    ensures |LEGACY_LISTEN_COLUMN| == |LEGACY_NO_CHROOT_COLUMN| == LEGACY_DESCRIPTION_COLUMN
    ensures |PortColumn(opts.port)| == LEGACY_DESCRIPTION_COLUMN
    ensures opts.timeLimitSeconds < 1000 ==> |AlarmColumn(opts.timeLimitSeconds)| == LEGACY_DESCRIPTION_COLUMN
    ensures |UserColumn(opts.user.value)| == LEGACY_DESCRIPTION_COLUMN <==> |opts.user.value| <= 13
  {
    Harness.PortTextLength(opts.port);
    if opts.timeLimitSeconds < 1000 {
      assert Pow10(3) == 1000;
      DecLength(opts.timeLimitSeconds, 3);
    }
  }

  // ---------------------------------------------------------------------
  // serve and server_main
  // ---------------------------------------------------------------------

  datatype LegacyMode = RunHandler(sock: int) | Listen(user: Option<string>, chrooted: bool, port: UShort, timeout: UInt)

  datatype LegacyOutcome =
    | Usage(text: seq<string>)
    | ArgumentMissing(flag: string)
    | Served(mode: LegacyMode)

  /** The status the earlier server_main returns, when it returns at all. */
  function LegacyExitStatus(o: LegacyOutcome): Option<int> {
    match o
    case Usage(_) => Some(EXIT_FAILURE)
    case ArgumentMissing(_) => None
    case Served(RunHandler(_)) => Some(EXIT_SUCCESS)
    case Served(Listen(_, _, _, _)) => None
  }

  /** serve: the handler on the marker's number when the marker is set, else the socket server. */
  function ServeMode(opts: ServerOptions, env: map<string, string>): (m: LegacyMode)
    ensures m.RunHandler? <==> MARKER in env
    ensures m.RunHandler? ==> m.sock == Atoi(env[MARKER])
    ensures m.Listen? ==> m == Listen(opts.user, opts.chrooted, opts.port, opts.timeLimitSeconds)
  {
    if MARKER in env then RunHandler(Atoi(env[MARKER]))
    else Listen(opts.user, opts.chrooted, opts.port, opts.timeLimitSeconds)
  }

  /** The environment server_main leaves for serve: the marker set to "0" unless listening or already set. */
  function MarkedEnv(listen: bool, env: map<string, string>): map<string, string> {
    if listen || MARKER in env then env else env[MARKER := "0"]
  }

  function Progname(argv: seq<string>): string {
    if argv == [] then "" else argv[0]
  }

  /** The precondition of the usage path: the user whose strlen is printed is not NULL. */
  predicate LegacyUsagePathSafe(res: LegacyScanResult) {
    res.Unknown? ==> res.state.opts.user.Some?
  }

  /** Only a trailing -u makes a non-NULL user NULL, so defaults with a user make the usage path safe. */
  lemma {:induction false} LegacyScanKeepsUser(args: seq<string>, st: LegacyState)
    requires st.opts.user.Some?
    ensures !LegacyScan(args, st).RanOff? ==> LegacyScan(args, st).state.opts.user.Some?
    ensures LegacyUsagePathSafe(LegacyScan(args, st))
    decreases |args|
  {
    if args != [] {
      var a := args[0];
      if Harness.IsListenFlag(a) {
        LegacyScanKeepsUser(args[1..], st.(listen := true));
      } else if Harness.IsNoChrootFlag(a) {
        LegacyScanKeepsUser(args[1..], st.(opts := st.opts.(chrooted := false)));
      } else if IsLegacyValueFlag(a) && |args| >= 2 {
        LegacyScanKeepsUser(args[2..], SetLegacyValue(st, a, args[1]));
      }
    }
  }

  /**
   * What the earlier server_main does, and the environment it leaves
   * behind.  A trailing -u ends the loop as reading every argument does.
   */
  function LegacyMain(argv: seq<string>, opts: ServerOptions, env: map<string, string>)
    : (LegacyOutcome, map<string, string>)
    requires LegacyUsagePathSafe(LegacyScan(Harness.Args(argv), LegacyState(opts, false)))
  {
    match LegacyScan(Harness.Args(argv), LegacyState(opts, false))
    case Unknown(st, a) => (Usage(LegacyUsageText(st.opts, Progname(argv), a)), env)
    case Missing(_, f) => (ArgumentMissing(f), env)
    case RanOff(st) =>
      var env' := MarkedEnv(st.listen, env);
      (Served(ServeMode(st.opts, env')), env')
    case Done(st) =>
      var env' := MarkedEnv(st.listen, env);
      (Served(ServeMode(st.opts, env')), env')
  }

  /**
   * Without --listen the earlier harness always runs the handler: on the
   * existing marker's number if the marker was already set, else on 0, and
   * it sets the marker only when it was absent.
   */
  lemma NotListeningRunsHandler(argv: seq<string>, opts: ServerOptions, env: map<string, string>)
    requires LegacyScan(Harness.Args(argv), LegacyState(opts, false)).Done? ||
      LegacyScan(Harness.Args(argv), LegacyState(opts, false)).RanOff?
    requires !LegacyScan(Harness.Args(argv), LegacyState(opts, false)).state.listen
    ensures LegacyMain(argv, opts, env).0 ==
      Served(RunHandler(if MARKER in env then Atoi(env[MARKER]) else 0))
    ensures LegacyMain(argv, opts, env).1 == if MARKER in env then env else env[MARKER := "0"]
  {
    var st := LegacyScan(Harness.Args(argv), LegacyState(opts, false)).state;
    var env' := MarkedEnv(false, env);
    assert LegacyMain(argv, opts, env) == (Served(ServeMode(st.opts, env')), env');
    if MARKER !in env {
      AtoiDecPrefix(0, []);
      assert Dec(0) + [] == "0";
    }
  }

  /** With --listen and no marker, the socket server is started with the scanned options. */
  lemma ListeningStartsServer(argv: seq<string>, opts: ServerOptions, env: map<string, string>)
    requires LegacyScan(Harness.Args(argv), LegacyState(opts, false)).Done? ||
      LegacyScan(Harness.Args(argv), LegacyState(opts, false)).RanOff?
    requires LegacyScan(Harness.Args(argv), LegacyState(opts, false)).state.listen && MARKER !in env
    ensures var o := LegacyScan(Harness.Args(argv), LegacyState(opts, false)).state.opts;
      LegacyMain(argv, opts, env) == (Served(Listen(o.user, o.chrooted, o.port, o.timeLimitSeconds)), env)
  {
  }

  /** serve: getenv of the marker decides. */
  method Serve(opts: ServerOptions, env: Environment) returns (m: LegacyMode)
    ensures m == ServeMode(opts, env.vars)
  {
    var marker := env.Getenv(MARKER);
    if marker.Some? {
      return RunHandler(Atoi(marker.value));
    }
    m := Listen(opts.user, opts.chrooted, opts.port, opts.timeLimitSeconds);
  }

  /** The loop of the earlier server_main, up to the first argument that makes it return. */
  method LegacyScanArguments(argv: seq<string>, opts: ServerOptions) returns (r: LegacyScanResult)
    ensures r == LegacyScan(Harness.Args(argv), LegacyState(opts, false))
  {
    var cur := opts;
    var listen := false;
    if |argv| == 0 {
      return Done(LegacyState(cur, listen));
    }
    assert Harness.Args(argv) == argv[1..];
    var i := 1;
    while i < |argv|
      invariant 1 <= i <= |argv|
      invariant LegacyScan(argv[i..], LegacyState(cur, listen)) == LegacyScan(Harness.Args(argv), LegacyState(opts, false))
    {
      var a := argv[i];
      LegacyScanStep(argv[i..], LegacyState(cur, listen));
      if Harness.IsListenFlag(a) {
        listen := true;
      } else if Harness.IsNoChrootFlag(a) {
        cur := cur.(chrooted := false);
      } else if IsLegacyValueFlag(a) {
        if i + 1 == |argv| {
          if Harness.IsUserFlag(a) {
            return RanOff(LegacyState(cur.(user := None), listen));
          }
          return Missing(LegacyState(cur, listen), a);
        }
        var v := argv[i + 1];
        if Harness.IsUserFlag(a) {
          cur := cur.(user := Some(v));
        } else if Harness.IsPortFlag(a) {
          cur := cur.(port := ToUShort(Atoi(v)));
        } else {
          cur := cur.(timeLimitSeconds := ToUInt(Atoi(v)));
        }
        assert argv[i..][2..] == argv[i + 2..];
        i := i + 1;
      } else {
        return Unknown(LegacyState(cur, listen), a);
      }
      assert argv[i..][1..] == argv[i + 1..];
      i := i + 1;
    }
    assert argv[i..] == [];
    r := Done(LegacyState(cur, listen));
  }

  /** The earlier server_main: the scan, usage on an unknown argument, setenv of the marker when not listening, then serve. */
  method ServerMain(argv: seq<string>, opts: ServerOptions, env: Environment) returns (o: LegacyOutcome)
    modifies env
    requires LegacyUsagePathSafe(LegacyScan(Harness.Args(argv), LegacyState(opts, false)))
    ensures (o, env.vars) == LegacyMain(argv, opts, old(env.vars))
  {
    ghost var env0 := env.vars;
    var r := LegacyScanArguments(argv, opts);
    match r
    case Unknown(st, a) =>
      o := Usage(LegacyUsageText(st.opts, Progname(argv), a));
      assert LegacyMain(argv, opts, env0) == (o, env0);
    case Missing(_, f) =>
      o := ArgumentMissing(f);
      assert LegacyMain(argv, opts, env0) == (o, env0);
    case RanOff(st) =>
      if !st.listen {
        env.Setenv(MARKER, "0", false);
      }
      assert env.vars == MarkedEnv(st.listen, env0);
      var m := Serve(st.opts, env);
      o := Served(m);
      assert LegacyMain(argv, opts, env0) == (Served(ServeMode(st.opts, env.vars)), env.vars);
    case Done(st) =>
      if !st.listen {
        env.Setenv(MARKER, "0", false);
      }
      assert env.vars == MarkedEnv(st.listen, env0);
      var m := Serve(st.opts, env);
      o := Served(m);
      assert LegacyMain(argv, opts, env0) == (Served(ServeMode(st.opts, env.vars)), env.vars);
  }
}
