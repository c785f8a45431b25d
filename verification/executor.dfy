/** The executor that runs one HDFS node on an agent: the statuses it
    reports for a task, the exit-code mapping, the hadoop 1.x / 2.x layout,
    and how it finds the hadoop version, the java home and the driver. */
module Executor {
  import opened Wrappers
  import opened Text
  import opened Files

  // ------------------------------------------------------------- statuses

  datatype TaskState = Starting | Running | Finished | Failed | Error

  /** A status update: the task state and the optional message. */
  datatype Status = Status(state: TaskState, message: Option<string>)

  /** The states after which the task is over. */
  predicate Terminal(s: TaskState)
  {
    s == Finished || s == Failed || s == Error
  }

  /** The message of a FAILED status, before the exit code. */
  const ExitedWith := "process exited with "

  /** The terminal status of a process that exited with `code`: 0 and 143
      (128 + SIGTERM, a process stopped by the kill signal) are a normal
      end, anything else a failure that names the code. */
  function ExitStatus(code: int): (s: Status)
    ensures Terminal(s.state) && s.state != Error
    ensures s.state == Finished <==> code == 0 || code == 143
    ensures s.state == Finished ==> s.message.None?
    ensures s.state == Failed ==>
              s.message.Some? && |ExitedWith| < |s.message.value| && s.message.value[..|ExitedWith|] == ExitedWith
  {
    if code == 0 || code == 143 then Status(Finished, None)
    else Status(Failed, Some(ExitedWith + IntToString(code)))
  }

  /** The FAILED message gives the exit code back. */
  lemma ExitStatusNamesCode(code: int)
    requires MinLong <= code <= MaxLong
    requires code != 0 && code != 143
    ensures var m := ExitStatus(code).message.value;
      ParseLong(m[|ExitedWith|..]) == Some(code)
  {
    var m := ExitStatus(code).message.value;
    assert m[|ExitedWith|..] == IntToString(code);
    ParseLongOfIntToString(code);
  }

  // ------------------------------------------------------------- protocol

  /** Where a task stands in the status protocol. */
  datatype Phase = Launched | Started | Operable | Ended

  /** The protocol: STARTING first (or ERROR at once), RUNNING at most once
      and only after STARTING, and one terminal status to end it. */
  function Step(p: Phase, s: TaskState): Option<Phase>
  {
    match p
    case Launched => if s == Starting then Some(Started) else if s == Error then Some(Ended) else None
    case Started => if s == Running then Some(Operable) else if Terminal(s) then Some(Ended) else None
    case Operable => if Terminal(s) then Some(Ended) else None
    case Ended => None
  }

  /** Where a sequence of statuses leads from `p`, or None if it leaves the
      protocol. */
  function Walk(p: Phase, trace: seq<Status>): Option<Phase>
    decreases |trace|
  {
    if |trace| == 0 then Some(p)
    else match Step(p, trace[0].state)
      case None => None
      case Some(q) => Walk(q, trace[1..])
  }

  /** Walking two pieces is walking the first, then the second from where
      the first ended. */
  lemma {:induction false} WalkConcat(p: Phase, a: seq<Status>, b: seq<Status>)
    ensures Walk(p, a + b) == if Walk(p, a).None? then None else Walk(Walk(p, a).value, b)
    decreases |a|
  {
    if |a| == 0 {
      assert a + b == b;
    } else {
      assert (a + b)[0] == a[0] && (a + b)[1..] == a[1..] + b;
      match Step(p, a[0].state)
      case None =>
      case Some(q) => WalkConcat(q, a[1..], b);
    }
  }

  /** A complete status history of a task. */
  predicate Protocol(trace: seq<Status>)
  {
    Walk(Launched, trace) == Some(Ended)
  }

  /** From any phase short of the end, the walk reaches the end exactly at
      the last status, and that one is terminal. */
  lemma {:induction false} WalkEnds(p: Phase, trace: seq<Status>)
    requires p != Ended && Walk(p, trace) == Some(Ended)
    ensures 0 < |trace| && Terminal(trace[|trace| - 1].state)
    ensures forall i :: 0 <= i < |trace| - 1 ==> !Terminal(trace[i].state)
    decreases |trace|
  {
    var q := Step(p, trace[0].state).value;
    if q != Ended {
      WalkEnds(q, trace[1..]);
      forall i | 0 <= i < |trace| - 1 ensures !Terminal(trace[i].state) {
        if 0 < i { assert trace[i] == trace[1..][i - 1]; }
      }
    }
  }

  /** A complete history holds exactly one terminal status, the last, and
      begins with STARTING unless it is a lone ERROR. */
  lemma ProtocolShape(trace: seq<Status>)
    requires Protocol(trace)
    ensures 0 < |trace| && Terminal(trace[|trace| - 1].state)
    ensures forall i :: 0 <= i < |trace| - 1 ==> !Terminal(trace[i].state)
    ensures trace[0].state == Starting || trace == [Status(Error, trace[0].message)]
  {
    WalkEnds(Launched, trace);
  }

  // ------------------------------------------------------------- runHdfs

  /** What `runHdfs` meets, in order: whether decoding the task into a node
      and starting its process succeeded, then whether the process became
      operable, then how `waitFor` ended. An `Err` holds the printed stack
      trace of what was thrown; a later field counts only when the earlier
      ones succeeded. */
  datatype Run = Run(start: Result<()>, operable: Result<bool>, exit: Result<int>)

  /** The statuses `runHdfs` sends, and the stack trace of the throwable
      that escapes it, if any. */
  datatype Report = Report(sent: seq<Status>, thrown: Option<string>)

  /** A RUNNING status is among those sent. */
  predicate SendsRunning(sent: seq<Status>)
  {
    exists i :: 0 <= i < |sent| && sent[i].state == Running
  }

  lemma SendsRunningAppend(sent: seq<Status>, more: seq<Status>)
    requires forall i :: 0 <= i < |more| ==> more[i].state != Running
    ensures SendsRunning(sent + more) <==> SendsRunning(sent)
  {
    if SendsRunning(sent + more) {
      var i :| 0 <= i < |sent + more| && (sent + more)[i].state == Running;
      assert i < |sent| && sent[i] == (sent + more)[i];
    }
    if SendsRunning(sent) {
      var i :| 0 <= i < |sent| && sent[i].state == Running;
      assert (sent + more)[i] == sent[i];
    }
  }

  /** `runHdfs`: STARTING once the process is started, RUNNING when it
      turns operable, then the exit status; a throw stops it where it is. */
  function RunHdfs(run: Run): (r: Report)
    ensures r.thrown.None? <==> run.start.Ok? && run.operable.Ok? && run.exit.Ok?
    ensures r.thrown.None? ==> 0 < |r.sent| && r.sent[|r.sent| - 1] == ExitStatus(run.exit.value)
    ensures forall i :: 0 <= i < |r.sent| ==> r.sent[i].state != Error
    ensures Walk(Launched, r.sent) == Some(
              if r.thrown.None? then Ended
              else if run.start.Err? then Launched
              else if run.operable == Ok(true) then Operable
              else Started)
    ensures SendsRunning(r.sent) <==> run.start.Ok? && run.operable == Ok(true)
  {
    match run.start
    case Err(t) => Report([], Some(t))
    case Ok(_) =>
      var started := [Status(Starting, None)];
      assert Walk(Launched, started) == Some(Started) by { assert started[1..] == []; }
      match run.operable
      case Err(t) => Report(started, Some(t))
      case Ok(operable) =>
        var more := if operable then [Status(Running, None)] else [];
        var sent := started + more;
        var at := if operable then Operable else Started;
        assert Walk(Launched, sent) == Some(at) by {
          WalkConcat(Launched, started, more);
          if operable { assert more[1..] == []; }
        }
        match run.exit
        case Err(t) => Report(sent, Some(t))
        case Ok(code) =>
          var end := [ExitStatus(code)];
          assert Walk(Launched, sent + end) == Some(Ended) by {
            WalkConcat(Launched, sent, end);
            assert end[1..] == [];
          }
          Report(sent + end, None)
  }

  /** The statuses a task's thread sends in `launchTask`: those of
      `runHdfs`, then an ERROR carrying the stack trace when something was
      thrown. The executor does not retry. */
  function Statuses(run: Run): (r: seq<Status>)
    ensures Protocol(r)
    ensures r[0].state == Starting <==> run.start.Ok?
    ensures SendsRunning(r) <==> run.start.Ok? && run.operable == Ok(true)
    ensures r[|r| - 1].state == Error <==> run.start.Err? || run.operable.Err? || run.exit.Err?
    ensures r[|r| - 1].state == Error ==> r[|r| - 1].message == Some(
              if run.start.Err? then run.start.error
              else if run.operable.Err? then run.operable.error
              else run.exit.error)
    ensures r[|r| - 1].state == Finished <==>
              (run.start.Ok? && run.operable.Ok? && run.exit.Ok? && (run.exit.value == 0 || run.exit.value == 143))
  {
    var rep := RunHdfs(run);
    match rep.thrown
    case None => rep.sent
    case Some(t) =>
      var error := [Status(Error, Some(t))];
      SendsRunningAppend(rep.sent, error);
      assert Walk(Launched, rep.sent + error) == Some(Ended) by {
        WalkConcat(Launched, rep.sent, error);
        assert error[1..] == [];
      }
      rep.sent + error
  }

  /** What the task's thread does, in order. */
  datatype Event = Sent(status: Status) | DriverStopped | Exited(code: int)

  /** `launchTask`'s thread: the statuses, then the driver is stopped; with
      the v1 driver the whole process then exits with 0. */
  function LaunchTask(run: Run, driverVersion: string): (r: seq<Event>)
    ensures |r| == |Statuses(run)| + (if DriverV1(driverVersion) then 2 else 1)
    ensures forall i :: 0 <= i < |Statuses(run)| ==> r[i] == Sent(Statuses(run)[i])
    ensures r[|Statuses(run)|] == DriverStopped
    ensures DriverV1(driverVersion) <==> r[|r| - 1] == Exited(0)
  {
    var sent := seq(|Statuses(run)|, i requires 0 <= i < |Statuses(run)| => Sent(Statuses(run)[i]));
    sent + [DriverStopped] + (if DriverV1(driverVersion) then [Exited(0)] else [])
  }

  // ------------------------------------------------------------- driver

  /** The driver used unless the command line names another. */
  const DefaultDriver := "v0"

  /** `driverV1`: the v1 driver is in use. */
  predicate DriverV1(driverVersion: string)
  {
    driverVersion == "v1"
  }

  /** The `--driver` option: absent keeps the current version; "v0" and
      "v1" are taken; anything else is rejected with "Invalid driver". */
  function ParseDriver(option: Option<string>, current: string): (r: Result<string>)
    ensures option.None? ==> r == Ok(current)
    ensures option.Some? ==> (r.Ok? <==> option.value == "v0" || option.value == "v1")
    ensures option.Some? && r.Ok? ==> r.value == option.value
    ensures r.Err? ==> r.error == "Invalid driver"
    ensures r.Ok? ==> (DriverV1(r.value) <==> option == Some("v1") || (option.None? && DriverV1(current)))
  {
    match option
    case None => Ok(current)
    case Some(d) => if d in ["v0", "v1"] then Ok(d) else Err("Invalid driver")
  }

  /** Any accepted driver version is v1 exactly when it is not v0. */
  lemma ParsedDriverIsKnown(option: Option<string>)
    requires ParseDriver(option, DefaultDriver).Ok?
    ensures var v := ParseDriver(option, DefaultDriver).value;
      DriverV1(v) <==> v != DefaultDriver
  {
  }

  /** The `--driver` option decides how a task's thread ends: after an
      accepted option the process exits with 0 exactly when the option was
      "v1"; with no option the default v0 driver never exits. */
  lemma DriverOptionDecidesExit(option: Option<string>, run: Run)
    requires ParseDriver(option, DefaultDriver).Ok?
    ensures var r := LaunchTask(run, ParseDriver(option, DefaultDriver).value);
      r[|r| - 1] == Exited(0) <==> option == Some("v1")
    ensures var r := LaunchTask(run, ParseDriver(option, DefaultDriver).value);
      r[|r| - 1] != Exited(0) <==> r[|r| - 1] == DriverStopped
  {
  }

  // ------------------------------------------------------------- layout

  /** `hadoop1x`: the hadoop version sorts below 2.0. `compare` is the
      version order (`Version.compareTo`). */
  predicate Hadoop1x(version: string, compare: (string, string) -> int)
  {
    compare(version, "2.0") < 0
  }

  const Hadoop1Bin: Path := "bin/hadoop"
  const Hadoop2Bin: Path := "/bin/hdfs"
  const Hadoop2BinRelative: Path := "bin/hdfs"
  const Hadoop1Conf: Path := "conf"
  const Hadoop2Conf: Path := "etc/hadoop"

  /** `hdfs()`: bin/hadoop below the hadoop dir for 1.x, bin/hdfs for
      later versions. */
  function Hdfs(hadoopDir: Path, version: string, compare: (string, string) -> int): (r: Path)
    ensures r == Resolve(hadoopDir, if Hadoop1x(version, compare) then Hadoop1Bin else Hadoop2BinRelative)
  {
    if Hadoop1x(version, compare) then Resolve(hadoopDir, Hadoop1Bin)
    else
      assert Hadoop2Bin == "/" + Hadoop2BinRelative;
      ResolveLeadingSlash(hadoopDir, Hadoop2BinRelative);
      Resolve(hadoopDir, Hadoop2Bin)
  }

  /** `hadoopConfDir()`: conf below the hadoop dir for 1.x, etc/hadoop for
      later versions. */
  function ConfDir(hadoopDir: Path, version: string, compare: (string, string) -> int): (r: Path)
    ensures r == (if hadoopDir == "" || hadoopDir == "/" then "/" else hadoopDir + "/") +
                 (if Hadoop1x(version, compare) then "conf" else "etc/hadoop")
    ensures Normalized(r)
  {
    Resolve(hadoopDir, if Hadoop1x(version, compare) then Hadoop1Conf else Hadoop2Conf)
  }

  /** Below a named hadoop dir, the binary and the conf dir are one level
      further down, whichever the version. */
  lemma LayoutBelowHadoopDir(hadoopDir: Path, version: string, compare: (string, string) -> int)
    requires hadoopDir != "" && hadoopDir != "/"
    ensures Hdfs(hadoopDir, version, compare) ==
              hadoopDir + (if Hadoop1x(version, compare) then "/bin/hadoop" else "/bin/hdfs")
    ensures ConfDir(hadoopDir, version, compare) ==
              hadoopDir + (if Hadoop1x(version, compare) then "/conf" else "/etc/hadoop")
  {
    ResolveLeadingSlash(hadoopDir, Hadoop2BinRelative);
  }

  // ------------------------------------------------------------- initDirs

  /** The version in a hadoop dir name: what follows its last '-'. */
  function VersionOfName(name: string): (r: Option<string>)
    ensures r.None? <==> '-' !in name
    ensures r.Some? ==>
              '-' !in r.value && |r.value| < |name| && name == name[..|name| - |r.value| - 1] + "-" + r.value
  {
    var k := LastIndexOf(name, '-');
    if k == -1 then None
    else
      var v := name[k + 1..];
      assert name == name[..k] + "-" + v;
      Some(v)
  }

  /** A name made of a stem, '-' and a version without '-' gives that
      version back. */
  lemma VersionOfNameOf(stem: string, version: string)
    requires '-' !in version
    ensures VersionOfName(stem + "-" + version) == Some(version)
  {
    var name := stem + "-" + version;
    assert name[|stem|] == '-';
  }

  /** The version part of `initDirs`: the hadoop dir's name after its last
      '-', or the error that names the dir. */
  function HadoopVersion(hadoopDir: Path): (r: Result<string>)
    ensures r.Err? <==> '-' !in BaseName(hadoopDir)
    ensures r.Err? ==> r.error == "Can't extract version from " + hadoopDir
    ensures r.Ok? ==> Some(r.value) == VersionOfName(BaseName(hadoopDir))
  {
    match VersionOfName(BaseName(hadoopDir))
    case None => Err("Can't extract version from " + hadoopDir)
    case Some(v) => Ok(v)
  }

  /** The dir `initDirs` looks for hadoop in, and the data dir below it. */
  const CurrentDir: Path := "."
  const DataSubdir: Path := "data"

  /** `new File(new File("."), "data")` is "./data". */
  lemma DataDirPath()
    ensures Resolve(CurrentDir, DataSubdir) == "./data"
  {
  }

  /** The settings `initDirs` resolves. */
  datatype Layout = Layout(hadoopDir: Path, hadoopVersion: string, dataDir: Path, javaHome: Path)

  /** `initDirs`: the hadoop dir found in the current dir (`found`), its
      version, "./data", and the java home (`javaHome`, the outcome of
      `findJavaHome`), failing at the first step that fails. */
  function InitDirs(found: Option<Path>, javaHome: Result<Path>): (r: Result<Layout>)
    ensures found.None? ==> r == Err("hadoop-.* not found in current dir")
    ensures r.Ok? <==> found.Some? && HadoopVersion(found.value).Ok? && javaHome.Ok?
    ensures r.Ok? ==> && r.value.hadoopDir == found.value
                      && r.value.hadoopVersion == HadoopVersion(found.value).value
                      && r.value.dataDir == Resolve(CurrentDir, DataSubdir)
                      && r.value.javaHome == javaHome.value
  {
    match found
    case None => Err("hadoop-.* not found in current dir")
    case Some(dir) =>
      match HadoopVersion(dir)
      case Err(e) => Err(e)
      case Ok(version) =>
        match javaHome
        case Err(e) => Err(e)
        case Ok(home) =>
          Ok(Layout(dir, version, Resolve(CurrentDir, DataSubdir), home))
  }

  // ------------------------------------------------------------- findJavaHome

  /** The characters `String.trim` removes: codes up to the space. */
  predicate Blank(c: char)
  {
    c <= ' '
  }

  predicate AllBlank(s: string)
  {
    forall i :: 0 <= i < |s| ==> Blank(s[i])
  }

  /** Where the text starts: the first index from `st` on that holds no
      blank, or `|s|`. */
  function SkipBlanks(s: string, st: nat): (i: nat)
    requires st <= |s|
    ensures st <= i <= |s|
    ensures forall k :: st <= k < i ==> Blank(s[k])
    ensures i == |s| || !Blank(s[i])
    decreases |s| - st
  {
    if st < |s| && Blank(s[st]) then SkipBlanks(s, st + 1) else st
  }

  /** Where the text ends: `len` moved down past the blanks before it, but
      not below `st`. */
  function DropBlanks(s: string, st: nat, len: nat): (j: nat)
    requires st <= len <= |s|
    ensures st <= j <= len
    ensures forall k :: j <= k < len ==> Blank(s[k])
    ensures j == st || !Blank(s[j - 1])
    decreases len
  {
    if st < len && Blank(s[len - 1]) then DropBlanks(s, st, len - 1) else len
  }

  /** `r` is `s[i..i + |r|]`, everything around it is blank, and `r`
      neither begins nor ends with a blank. */
  predicate Trimmed(s: string, r: string, i: int)
  {
    && 0 <= i <= i + |r| <= |s|
    && r == s[i..i + |r|]
    && (forall k :: 0 <= k < i ==> Blank(s[k]))
    && (forall k :: i + |r| <= k < |s| ==> Blank(s[k]))
    && (r == [] || (!Blank(r[0]) && !Blank(r[|r| - 1])))
  }

  /** `String.trim`: the blanks at both ends removed. */
  function Trim(s: string): (r: string)
    ensures exists i :: Trimmed(s, r, i)
  {
    var i := SkipBlanks(s, 0);
    var j := DropBlanks(s, i, |s|);
    var r := s[i..j];
    assert Trimmed(s, r, i);
    r
  }

  /** Trim gives back the core of any text padded with blanks: the trimmed
      form is unique. */
  lemma TrimPadded(pre: string, core: string, post: string)
    requires AllBlank(pre) && AllBlank(post)
    requires core == [] || (!Blank(core[0]) && !Blank(core[|core| - 1]))
    ensures Trim(pre + core + post) == core
  {
    var s := pre + core + post;
    var r := Trim(s);
    var i :| Trimmed(s, r, i);
    var j := i + |r|;
    forall k | 0 <= k < |pre| ensures Blank(s[k]) { assert s[k] == pre[k]; }
    forall k | |pre| + |core| <= k < |s| ensures Blank(s[k]) { assert s[k] == post[k - |pre| - |core|]; }
    if r != [] {
      assert s[i] == r[0] && s[j - 1] == r[|r| - 1];
    }
    if core == [] {
      assert r == [];
    } else {
      assert s[|pre|] == core[0] && s[|pre| + |core| - 1] == core[|core| - 1];
      assert i <= |pre| < j;
      assert i == |pre|;
      assert j == |pre| + |core|;
      assert core == s[|pre|..|pre| + |core|];
    }
  }

  /** What `substring(1, 0)` throws on a PATH entry that is a lone '"', in
      the words of JDK 8. */
  const BadQuote := "String index out of range: -1"

  /** The quote stripping `findJavaHome` applies to a trimmed PATH entry: a
      '"' at both ends is dropped from each; a lone '"' starts and ends
      with one and makes `substring` throw. */
  function Unquote(part: string): (r: Result<string>)
    ensures r.Err? <==> part == "\""
    ensures r.Err? ==> r.error == BadQuote
    ensures r.Ok? && 2 <= |part| && part[0] == '"' && part[|part| - 1] == '"' ==>
              part == "\"" + r.value + "\""
    ensures r.Ok? && !(0 < |part| && part[0] == '"' && part[|part| - 1] == '"') ==> r.value == part
  {
    if 0 < |part| && part[0] == '"' && part[|part| - 1] == '"' then
      if |part| == 1 then Err(BadQuote) else Ok(part[1..|part| - 1])
    else Ok(part)
  }

  /** Unquoting a quoted entry gives back what was inside the quotes. */
  lemma UnquoteQuoted(inner: string)
    ensures Unquote("\"" + inner + "\"") == Ok(inner)
  {
    var q := "\"" + inner + "\"";
    assert q[1..|q| - 1] == inner;
  }

  /** The pieces of `s` between the occurrences of `sep`, all of them. */
  function Pieces(s: string, sep: char): (r: seq<string>)
    ensures 0 < |r|
    ensures forall i :: 0 <= i < |r| ==> sep !in r[i]
    decreases |s|
  {
    var k := LastIndexOf(s, sep);
    if k == -1 then [s]
    else
      var last := s[k + 1..];
      assert forall j :: 0 <= j < |last| ==> last[j] == s[k + 1 + j];
      Pieces(s[..k], sep) + [last]
  }

  /** The pieces joined again with `sep` in between. */
  function Join(ps: seq<string>, sep: char): string
    requires 0 < |ps|
  {
    if |ps| == 1 then ps[0] else Join(ps[..|ps| - 1], sep) + [sep] + ps[|ps| - 1]
  }

  /** Splitting and joining again gives the text back. */
  lemma {:induction false} JoinPieces(s: string, sep: char)
    ensures Join(Pieces(s, sep), sep) == s
    decreases |s|
  {
    var k := LastIndexOf(s, sep);
    if k != -1 {
      var ps := Pieces(s, sep);
      JoinPieces(s[..k], sep);
      assert ps[..|ps| - 1] == Pieces(s[..k], sep);
      assert s == s[..k] + [sep] + s[k + 1..];
    }
  }

  /** The pieces without the empty ones at the end. */
  function DropTrailingEmpty(ps: seq<string>): (r: seq<string>)
    ensures |r| <= |ps| && r == ps[..|r|]
    ensures forall i :: |r| <= i < |ps| ==> ps[i] == ""
    ensures r == [] || r[|r| - 1] != ""
  {
    if 0 < |ps| && ps[|ps| - 1] == "" then
      var r := DropTrailingEmpty(ps[..|ps| - 1]);
      assert forall i :: |r| <= i < |ps| - 1 ==> ps[i] == ps[..|ps| - 1][i];
      r
    else ps
  }

  /** `String.split` on a one-character separator: the pieces, less the
      empty ones at the end; a text without the separator is its own single
      piece, even when empty. */
  function Split(s: string, sep: char): (r: seq<string>)
    ensures sep !in s ==> r == [s]
    ensures sep in s ==> r == DropTrailingEmpty(Pieces(s, sep))
    ensures forall i :: 0 <= i < |r| ==> sep !in r[i]
  {
    if sep !in s then [s] else DropTrailingEmpty(Pieces(s, sep))
  }

  /** The name of the java binary in a PATH dir. */
  const JavaFile: Path := "java"

  /** The java binary a PATH entry points at: trimmed, unquoted, then
      `new File(part, "java")`. */
  function Candidate(entry: string): (r: Result<Path>)
    ensures r.Err? <==> Trim(entry) == "\""
  {
    match Unquote(Trim(entry))
    case Err(e) => Err(e)
    case Ok(part) => Ok(Resolve(Normalize(part), JavaFile))
  }

  /** What one PATH entry yields: the java home its binary gives, None when
      it gives none, or the exception of a lone '"'. `javaHomeOf` stands for
      the readable-file test and `readlink`. */
  function Look(entry: string, javaHomeOf: Path -> Option<Path>): Result<Option<Path>>
  {
    match Candidate(entry)
    case Err(e) => Err(e)
    case Ok(java) => Ok(javaHomeOf(java))
  }

  /** The entries from `lo` up to `hi` all point at a java binary that gives
      no java home. */
  predicate Misses(entries: seq<string>, lo: int, hi: int, javaHomeOf: Path -> Option<Path>)
    requires 0 <= lo <= hi <= |entries|
  {
    forall j :: lo <= j < hi ==> Look(entries[j], javaHomeOf) == Ok(None)
  }

  /** The PATH loop of `findJavaHome` from entry `n` on: the first entry
      that yields a java home or an exception decides; None when none
      does. */
  function SearchPath(entries: seq<string>, n: nat, javaHomeOf: Path -> Option<Path>): (r: Result<Option<Path>>)
    requires n <= |entries|
    ensures r == Ok(None) <==> Misses(entries, n, |entries|, javaHomeOf)
    ensures r != Ok(None) ==> exists i :: n <= i < |entries| && Decides(entries, n, i, javaHomeOf, r)
    decreases |entries| - n
  {
    if n == |entries| then Ok(None)
    else
      var here := Look(entries[n], javaHomeOf);
      if here != Ok(None) then
        assert Decides(entries, n, n, javaHomeOf, here);
        here
      else
        var r := SearchPath(entries, n + 1, javaHomeOf);
        MissesFrom(entries, n, |entries|, javaHomeOf);
        assert r != Ok(None) ==> exists i :: n <= i < |entries| && Decides(entries, n, i, javaHomeOf, r) by {
          if r != Ok(None) {
            var i :| n + 1 <= i < |entries| && Decides(entries, n + 1, i, javaHomeOf, r);
            MissesFrom(entries, n, i, javaHomeOf);
            assert Decides(entries, n, i, javaHomeOf, r);
          }
        }
        r
  }

  /** An entry that yields None can be added in front of a run of misses. */
  lemma MissesFrom(entries: seq<string>, lo: int, hi: int, javaHomeOf: Path -> Option<Path>)
    requires 0 <= lo < hi <= |entries| && Look(entries[lo], javaHomeOf) == Ok(None)
    ensures Misses(entries, lo, hi, javaHomeOf) <==> Misses(entries, lo + 1, hi, javaHomeOf)
  {
  }

  /** Entry `i` is the first from `n` on that yields something other than
      None, and what it yields is `r`. */
  predicate Decides(entries: seq<string>, n: int, i: int, javaHomeOf: Path -> Option<Path>, r: Result<Option<Path>>)
    requires 0 <= n <= i < |entries|
  {
    Misses(entries, n, i, javaHomeOf) && Look(entries[i], javaHomeOf) == r
  }

  /** A lone '"' as a PATH entry throws once the loop reaches it; an entry
      with quotes around a dir is looked up as that dir. */
  lemma LookQuoted(pre: string, inner: string, post: string, javaHomeOf: Path -> Option<Path>)
    requires AllBlank(pre) && AllBlank(post)
    requires inner == [] || (!Blank(inner[0]) && !Blank(inner[|inner| - 1]))
    ensures Look(pre + "\"" + inner + "\"" + post, javaHomeOf) == Ok(javaHomeOf(Resolve(Normalize(inner), JavaFile)))
    ensures Look(pre + "\"" + post, javaHomeOf) == Err(BadQuote)
  {
    var q := "\"" + inner + "\"";
    assert pre + "\"" + inner + "\"" + post == pre + q + post;
    TrimPadded(pre, q, post);
    UnquoteQuoted(inner);
    TrimPadded(pre, "\"", post);
  }

  /** An unquoted PATH entry, blanks around it or not, is looked up as the
      file "java" in the dir it names. */
  lemma LookPlain(pre: string, dir: string, post: string, javaHomeOf: Path -> Option<Path>)
    requires AllBlank(pre) && AllBlank(post)
    requires dir == [] || (!Blank(dir[0]) && !Blank(dir[|dir| - 1]))
    requires !(0 < |dir| && dir[0] == '"' && dir[|dir| - 1] == '"')
    ensures Candidate(pre + dir + post) == Ok(Resolve(Normalize(dir), JavaFile))
    ensures Look(pre + dir + post, javaHomeOf) == Ok(javaHomeOf(Resolve(Normalize(dir), JavaFile)))
  {
    TrimPadded(pre, dir, post);
  }

  const NoJavaHome := "Can't resolve JAVA_HOME / find jre"

  /** `findJavaHome`: a jre dir in the current dir first, then the
      JAVA_HOME variable, then the PATH entries in order; failing all of
      them, an exception. */
  function FindJavaHome(jreDir: Option<Path>, javaHomeVar: Option<string>, pathVar: Option<string>,
                        javaHomeOf: Path -> Option<Path>): (r: Result<Path>)
    ensures jreDir.Some? ==> r == Ok(jreDir.value)
    ensures jreDir.None? && javaHomeVar.Some? ==> r == Ok(Normalize(javaHomeVar.value))
    ensures jreDir.None? && javaHomeVar.None? && pathVar.None? ==> r == Err(NoJavaHome)
    ensures jreDir.None? && javaHomeVar.None? && pathVar.Some? ==>
              var entries := Split(pathVar.value, ':');
              && (r == Err(NoJavaHome) <==> Misses(entries, 0, |entries|, javaHomeOf))
              && (r.Ok? ==> exists i :: 0 <= i < |entries| && Decides(entries, 0, i, javaHomeOf, Ok(Some(r.value))))
              && (r.Err? && r.error != NoJavaHome ==>
                    exists i :: 0 <= i < |entries| && Decides(entries, 0, i, javaHomeOf, Err(r.error)))
  {
    if jreDir.Some? then Ok(jreDir.value)
    else if javaHomeVar.Some? then Ok(Normalize(javaHomeVar.value))
    else if pathVar.None? then Err(NoJavaHome)
    else
      match SearchPath(Split(pathVar.value, ':'), 0, javaHomeOf)
      case Err(e) => Err(e)
      case Ok(None) => Err(NoJavaHome)
      case Ok(Some(home)) => Ok(home)
  }
}
