/** `HdfsProcess`: the Hadoop configuration files written for a node, the
    namenode format decision, and the command that launches the node. The
    file writes, the file-system probe and the spawned processes are inputs
    and outputs of pure functions here. */
module HdfsProcess {
  import opened Wrappers
  import opened Text
  import opened Files
  import opened Nodes

  /** The locations the executor resolved at start-up (`Executor.hadoopDir`,
      `Executor.dataDir`, `Executor.javaHome`) and the path of the hadoop
      launcher script. */
  datatype Dirs = Dirs(hadoopDir: Path, dataDir: Path, javaHome: Path, hadoopBin: Path)

  // Configuration keys and environment variables; no two have the same
  // length, so no two are equal.
  const TmpDirKey: string := "hadoop.tmp.dir"
  const DefaultFsKey: string := "fs.default.name"
  const HttpAddressKey: string := "dfs.http.address"
  const NameDirKey: string := "dfs.name.dir"
  const DatanodeHttpKey: string := "dfs.datanode.http.address"
  const DatanodeAddressKey: string := "dfs.datanode.address"
  const DatanodeIpcKey: string := "dfs.datanode.ipc.address"
  const DataDirKey: string := "dfs.data.dir"
  const JavaHomeVar: string := "JAVA_HOME"
  const HadoopOptsVar: string := "HADOOP_OPTS"

  // Paths below the data dir, the namenode dir and the hadoop dir.
  const TmpSubdir: Path := "tmp"
  const NameNodeSubdir: Path := "namenode"
  const DataNodeSubdir: Path := "datanode"
  const FormattedSubdir: Path := "current"
  const CoreSiteFile: Path := "conf/core-site.xml"
  const HdfsSiteFile: Path := "conf/hdfs-site.xml"

  lemma KeysDiffer()
    ensures TmpDirKey != DefaultFsKey && HttpAddressKey != NameDirKey
    ensures DatanodeHttpKey != DatanodeAddressKey && DatanodeHttpKey != DatanodeIpcKey && DatanodeHttpKey != DataDirKey
    ensures DatanodeAddressKey != DatanodeIpcKey && DatanodeAddressKey != DataDirKey && DatanodeIpcKey != DataDirKey
    ensures JavaHomeVar != HadoopOptsVar
  {
    assert |TmpDirKey| == 14 && |DefaultFsKey| == 15;
    assert |HttpAddressKey| == 16 && |NameDirKey| == 12;
    assert |DatanodeHttpKey| == 25 && |DatanodeAddressKey| == 20 && |DatanodeIpcKey| == 24 && |DataDirKey| == 12;
    assert |JavaHomeVar| == 9 && |HadoopOptsVar| == 11;
  }

  // ------------------------------------------------------------ property maps

  /** `props.putAll(overrides)`: every override wins, and every default that
      is not overridden stays. */
  function Overlay(defaults: map<string, string>, overrides: map<string, string>): (m: map<string, string>)
    ensures m.Keys == defaults.Keys + overrides.Keys
    ensures forall k :: k in overrides ==> m[k] == overrides[k]
    ensures forall k :: k in defaults && k !in overrides ==> m[k] == defaults[k]
  {
    defaults + overrides
  }

  /** The namenode's metadata directory: the NameDirKey override, else
      "namenode" below the data dir. */
  function NameNodeDir(node: Node, dirs: Dirs): (d: Path)
    ensures NameDirKey in node.hdfsSiteOpts ==> d == Normalize(node.hdfsSiteOpts[NameDirKey])
    ensures NameDirKey !in node.hdfsSiteOpts ==> BaseName(d) == "namenode"
    ensures NameDirKey !in node.hdfsSiteOpts ==>
              d == (if dirs.dataDir == "" || dirs.dataDir == "/" then "/" else dirs.dataDir + "/") + "namenode"
  {
    if NameDirKey in node.hdfsSiteOpts then Normalize(node.hdfsSiteOpts[NameDirKey])
    else
      BaseNameOfResolve(dirs.dataDir, NameNodeSubdir);
      Resolve(dirs.dataDir, NameNodeSubdir)
  }

  /** The datanode's block directory: the DataDirKey override, else
      "datanode" below the data dir. */
  function DataNodeDir(node: Node, dirs: Dirs): (d: Path)
    ensures DataDirKey in node.hdfsSiteOpts ==> d == Normalize(node.hdfsSiteOpts[DataDirKey])
    ensures DataDirKey !in node.hdfsSiteOpts ==> BaseName(d) == "datanode"
    ensures DataDirKey !in node.hdfsSiteOpts ==>
              d == (if dirs.dataDir == "" || dirs.dataDir == "/" then "/" else dirs.dataDir + "/") + "datanode"
  {
    if DataDirKey in node.hdfsSiteOpts then Normalize(node.hdfsSiteOpts[DataDirKey])
    else
      BaseNameOfResolve(dirs.dataDir, DataNodeSubdir);
      Resolve(dirs.dataDir, DataNodeSubdir)
  }

  /** `createCoreSiteXml`: the temp dir below the data dir and the default
      filesystem from the runtime, then the node's core-site overrides. */
  function CoreSite(node: Node, dirs: Dirs): (m: map<string, string>)
    requires node.runtime.Some?
    ensures m.Keys == {TmpDirKey, DefaultFsKey} + node.coreSiteOpts.Keys
    ensures forall k :: k in node.coreSiteOpts ==> m[k] == node.coreSiteOpts[k]
    ensures DefaultFsKey !in node.coreSiteOpts ==> m[DefaultFsKey] == node.runtime.value.fsUri
    ensures TmpDirKey !in node.coreSiteOpts ==> m[TmpDirKey] == Resolve(dirs.dataDir, TmpSubdir)
  {
    Overlay(map[TmpDirKey := Resolve(dirs.dataDir, TmpSubdir),
                DefaultFsKey := node.runtime.value.fsUri],
            node.coreSiteOpts)
  }

  /** "host:port" for a reserved port. */
  function Address(hostname: string, node: Node, p: Port): string
    requires node.reservation.Some?
  {
    hostname + ":" + PortText(node.reservation.value.ports, p)
  }

  /** The hdfs-site defaults of a namenode: its HTTP address and its
      metadata dir `dir`. */
  function NameNodeDefaults(node: Node, hostname: string, dir: string): (m: map<string, string>)
    requires node.reservation.Some?
    ensures m.Keys == {HttpAddressKey, NameDirKey}
    ensures m[HttpAddressKey] == Address(hostname, node, Http)
    ensures m[NameDirKey] == dir
  {
    KeysDiffer();
    map[HttpAddressKey := Address(hostname, node, Http), NameDirKey := dir]
  }

  /** The hdfs-site defaults of a datanode: its HTTP, data-transfer and IPC
      addresses and its block dir `dir`. */
  function DataNodeDefaults(node: Node, hostname: string, dir: string): (m: map<string, string>)
    requires node.reservation.Some?
    ensures m.Keys == {DatanodeHttpKey, DatanodeAddressKey, DatanodeIpcKey, DataDirKey}
    ensures m[DatanodeHttpKey] == Address(hostname, node, Http)
    ensures m[DatanodeAddressKey] == Address(hostname, node, Data)
    ensures m[DatanodeIpcKey] == Address(hostname, node, Ipc)
    ensures m[DataDirKey] == dir
  {
    KeysDiffer();
    var http := Address(hostname, node, Http);
    var data := Address(hostname, node, Data);
    var ipc := Address(hostname, node, Ipc);
    map[DatanodeHttpKey := http, DatanodeAddressKey := data, DatanodeIpcKey := ipc, DataDirKey := dir]
  }

  /** The hdfs-site defaults for the node's type. */
  function HdfsSiteDefaults(node: Node, hostname: string, dirs: Dirs): map<string, string>
    requires node.reservation.Some?
  {
    if node.nodeType == NameNode then NameNodeDefaults(node, hostname, NameNodeDir(node, dirs))
    else DataNodeDefaults(node, hostname, DataNodeDir(node, dirs))
  }

  /** `createHdfsSiteXml`: the defaults for the node's type, then the node's
      hdfs-site overrides. */
  function HdfsSite(node: Node, hostname: string, dirs: Dirs): (m: map<string, string>)
    requires node.reservation.Some?
    ensures node.nodeType == NameNode ==>
              m.Keys == {HttpAddressKey, NameDirKey} + node.hdfsSiteOpts.Keys
    ensures node.nodeType == DataNode ==>
              m.Keys == {DatanodeHttpKey, DatanodeAddressKey,
                         DatanodeIpcKey, DataDirKey} + node.hdfsSiteOpts.Keys
    ensures forall k :: k in node.hdfsSiteOpts ==> m[k] == node.hdfsSiteOpts[k]
    ensures node.nodeType == NameNode && HttpAddressKey !in node.hdfsSiteOpts ==>
              m[HttpAddressKey] == hostname + ":" + PortText(node.reservation.value.ports, Http)
    ensures node.nodeType == DataNode && DatanodeHttpKey !in node.hdfsSiteOpts ==>
              m[DatanodeHttpKey] == hostname + ":" + PortText(node.reservation.value.ports, Http)
    ensures node.nodeType == DataNode && DatanodeAddressKey !in node.hdfsSiteOpts ==>
              m[DatanodeAddressKey] == hostname + ":" + PortText(node.reservation.value.ports, Data)
    ensures node.nodeType == DataNode && DatanodeIpcKey !in node.hdfsSiteOpts ==>
              m[DatanodeIpcKey] == hostname + ":" + PortText(node.reservation.value.ports, Ipc)
  {
    Overlay(HdfsSiteDefaults(node, hostname, dirs), node.hdfsSiteOpts)
  }

  /** The directory written into hdfs-site is the directory the format
      check looks at: whether it came from an override or from the data dir,
      NameDirKey read back as a path is the namenode dir, and the same
      holds for DataDirKey and the datanode dir. */
  lemma ConfiguredDirsAgree(node: Node, hostname: string, dirs: Dirs)
    requires node.reservation.Some?
    ensures node.nodeType == NameNode ==>
              NameDirKey in HdfsSite(node, hostname, dirs) &&
              Normalize(HdfsSite(node, hostname, dirs)[NameDirKey]) == NameNodeDir(node, dirs)
    ensures node.nodeType == DataNode ==>
              DataDirKey in HdfsSite(node, hostname, dirs) &&
              Normalize(HdfsSite(node, hostname, dirs)[DataDirKey]) == DataNodeDir(node, dirs)
  {
  }

  // ----------------------------------------------------------------- escaping

  /** Java's `s.replace(c, rep)` for a one-character target: every occurrence
      of `c`, left to right. */
  function ReplaceChar(s: string, c: char, rep: string): (r: string)
    ensures c !in s ==> r == s
    ensures c !in rep ==> c !in r
    ensures forall d :: d !in s && d !in rep ==> d !in r
    ensures |s| == 1 ==> r == if s[0] == c then rep else s
  {
    if |s| == 0 then ""
    else (if s[0] == c then rep else [s[0]]) + ReplaceChar(s[1..], c, rep)
  }

  /** `escapeXmlText`: '<' replaced first, then '>'. */
  function EscapeXmlText(s: string): string
  {
    ReplaceChar(ReplaceChar(s, '<', "&lt;"), '>', "&gt;")
  }

  /** The escape of one character, as the XML text would show it. */
  function EscapeChar(c: char): string
  {
    if c == '<' then "&lt;" else if c == '>' then "&gt;" else [c]
  }

  /** Escaping character by character: the reference for `EscapeXmlText`. */
  function EscapeEach(s: string): string
  {
    if |s| == 0 then "" else EscapeChar(s[0]) + EscapeEach(s[1..])
  }

  /** Replacing in a concatenation replaces in each part. */
  lemma {:induction false} ReplaceCharAppend(a: string, b: string, c: char, rep: string)
    ensures ReplaceChar(a + b, c, rep) == ReplaceChar(a, c, rep) + ReplaceChar(b, c, rep)
    decreases |a|
  {
    if |a| == 0 {
      assert a + b == b;
    } else {
      assert (a + b)[1..] == a[1..] + b;
      ReplaceCharAppend(a[1..], b, c, rep);
    }
  }

  /** The two whole-string replacements escape each character on its own:
      "&lt;" holds no '>', so the second pass never touches what the first
      one wrote. */
  lemma {:induction false} EscapeXmlTextIsPerChar(s: string)
    ensures EscapeXmlText(s) == EscapeEach(s)
  {
    if |s| != 0 {
      var head := if s[0] == '<' then "&lt;" else [s[0]];
      assert ReplaceChar(s, '<', "&lt;") == head + ReplaceChar(s[1..], '<', "&lt;");
      ReplaceCharAppend(head, ReplaceChar(s[1..], '<', "&lt;"), '>', "&gt;");
      if s[0] == '<' {
        assert ReplaceChar(head, '>', "&gt;") == "&lt;" by {
          assert '>' !in head;
        }
      } else {
        assert ReplaceChar(head, '>', "&gt;") == EscapeChar(s[0]) by {
          assert head[1..] == "";
        }
      }
      EscapeXmlTextIsPerChar(s[1..]);
    }
  }

  /** The escaped text holds no '<' or '>', and is the input itself when the
      input holds neither. */
  lemma EscapeXmlTextSafe(s: string)
    ensures '<' !in EscapeXmlText(s) && '>' !in EscapeXmlText(s)
    ensures '<' !in s && '>' !in s ==> EscapeXmlText(s) == s
  {
  }

  /** '&' is left as it is, so "&lt;" and "<" escape alike: the escape
      cannot be undone. */
  lemma EscapeXmlTextNotInjective()
    ensures EscapeXmlText("&lt;") == EscapeXmlText("<")
  {
    assert '<' !in "&lt;" && '>' !in "&lt;";
    EscapeXmlTextSafe("&lt;");
    EscapeXmlTextIsPerChar("<");
    assert EscapeEach("<") == EscapeChar('<') + EscapeEach("") by { assert "<"[1..] == ""; }
  }

  // ---------------------------------------------------------------- rendering

  const Header: string := "<configuration>\n"
  const Footer: string := "</configuration>"
  const NameOpen: string := "<property>\n  <name>"
  const NameClose: string := "</name>\n  <value>"
  const ValueClose: string := "</value>\n</property>\n"

  /** One `<property>` block of `writePropsXml`. */
  function PropertyXml(name: string, value: string): string
  {
    NameOpen + EscapeXmlText(name) + NameClose + EscapeXmlText(value) + ValueClose
  }

  /** `names` lists every key of `props` once: the order the map's key set
      happens to iterate in. */
  predicate KeyOrder(names: seq<string>, props: map<string, string>)
  {
    && (forall k :: k in props ==> k in names)
    && (forall i :: 0 <= i < |names| ==> names[i] in props)
    && (forall i, j :: 0 <= i < j < |names| ==> names[i] != names[j])
  }

  /** The `<property>` blocks for the keys listed in `names`, in that
      order; a name that is not a key gives no block. */
  function PropertiesXml(names: seq<string>, props: map<string, string>): string
  {
    if |names| == 0 then ""
    else if names[0] in props then PropertyXml(names[0], props[names[0]]) + PropertiesXml(names[1..], props)
    else PropertiesXml(names[1..], props)
  }

  /** `writePropsXml`: the document written to a configuration file, with
      the keys visited in the order `names`. */
  function PropsXml(names: seq<string>, props: map<string, string>): (doc: string)
  {
    Header + PropertiesXml(names, props) + Footer
  }

  /** The escaped (name, value) pairs of `props` in the order `names`. */
  function EscapedPairs(names: seq<string>, props: map<string, string>): (r: seq<(string, string)>)
    requires forall k :: k in names ==> k in props
    ensures |r| == |names|
    ensures forall i :: 0 <= i < |names| ==>
              r[i] == (EscapeXmlText(names[i]), EscapeXmlText(props[names[i]]))
  {
    if |names| == 0 then []
    else [(EscapeXmlText(names[0]), EscapeXmlText(props[names[0]]))] + EscapedPairs(names[1..], props)
  }

  predicate StartsWith(s: string, p: string)
  {
    |p| <= |s| && s[..|p|] == p
  }

  /** The length of the text before the first '<'. */
  function TextLength(s: string): (n: nat)
    ensures n <= |s|
    ensures forall i :: 0 <= i < n ==> s[i] != '<'
    ensures n < |s| ==> s[n] == '<'
  {
    if |s| == 0 || s[0] == '<' then 0
    else
      var n := 1 + TextLength(s[1..]);
      assert forall i :: 1 <= i < n ==> s[i] == s[1..][i - 1];
      n
  }

  /** Reads the `<property>` blocks of a document body back into (name,
      value) pairs, as written, still escaped. */
  function ReadProperties(body: string): Option<seq<(string, string)>>
    decreases |body|
  {
    if body == "" then Some([])
    else if !StartsWith(body, NameOpen) then None
    else
      var s1 := body[|NameOpen|..];
      var n := TextLength(s1);
      var s2 := s1[n..];
      if !StartsWith(s2, NameClose) then None
      else
        var s3 := s2[|NameClose|..];
        var v := TextLength(s3);
        var s4 := s3[v..];
        if !StartsWith(s4, ValueClose) then None
        else
          match ReadProperties(s4[|ValueClose|..])
          case None => None
          case Some(rest) => Some([(s1[..n], s3[..v])] + rest)
  }

  /** Reads a configuration document back into its escaped pairs. */
  function ReadPropsXml(doc: string): Option<seq<(string, string)>>
  {
    if |Header| + |Footer| <= |doc| && doc[..|Header|] == Header && doc[|doc| - |Footer|..] == Footer
    then ReadProperties(doc[|Header|..|doc| - |Footer|])
    else None
  }

  lemma {:induction false} TextLengthOf(a: string, b: string)
    requires '<' !in a && 0 < |b| && b[0] == '<'
    ensures TextLength(a + b) == |a|
    decreases |a|
  {
    if |a| == 0 {
      assert a + b == b;
    } else {
      assert (a + b)[1..] == a[1..] + b;
      TextLengthOf(a[1..], b);
    }
  }

  lemma Reassociate(a: string, b: string, c: string, d: string, e: string, t: string)
    ensures a + b + c + d + e + t == a + (b + (c + (d + (e + t))))
  {
  }

  lemma StartsWithAppend(p: string, x: string)
    ensures StartsWith(p + x, p) && (p + x)[|p|..] == x
  {
    assert (p + x)[..|p|] == p;
  }

  /** One block in front of more text reads as its name and value followed
      by whatever the rest reads as. */
  lemma ReadOneProperty(en: string, ev: string, tail: string)
    requires '<' !in en && '<' !in ev
    ensures ReadProperties(NameOpen + (en + (NameClose + (ev + (ValueClose + tail)))))
            == match ReadProperties(tail)
               case None => None
               case Some(rest) => Some([(en, ev)] + rest)
  {
    var s4 := ValueClose + tail;
    var s3 := ev + s4;
    var s2 := NameClose + s3;
    var s1 := en + s2;
    StartsWithAppend(NameOpen, s1);
    assert NameClose[0] == '<' && ValueClose[0] == '<';
    TextLengthOf(en, s2);
    StartsWithAppend(en, s2);
    StartsWithAppend(NameClose, s3);
    TextLengthOf(ev, s4);
    StartsWithAppend(ev, s4);
    StartsWithAppend(ValueClose, tail);
  }

  lemma {:induction false} ReadPropertiesXml(names: seq<string>, props: map<string, string>)
    requires forall k :: k in names ==> k in props
    ensures ReadProperties(PropertiesXml(names, props)) == Some(EscapedPairs(names, props))
  {
    if |names| != 0 {
      var en := EscapeXmlText(names[0]);
      var ev := EscapeXmlText(props[names[0]]);
      var tail := PropertiesXml(names[1..], props);
      EscapeXmlTextSafe(names[0]);
      EscapeXmlTextSafe(props[names[0]]);
      Reassociate(NameOpen, en, NameClose, ev, ValueClose, tail);
      ReadOneProperty(en, ev, tail);
      ReadPropertiesXml(names[1..], props);
    }
  }

  /** Reading the written document back gives one block per key, in the
      iteration order, each with its escaped name and escaped value. */
  lemma PropsXmlReadsBack(names: seq<string>, props: map<string, string>)
    requires KeyOrder(names, props)
    ensures ReadPropsXml(PropsXml(names, props)) == Some(EscapedPairs(names, props))
    ensures |EscapedPairs(names, props)| == |props|
  {
    var doc := PropsXml(names, props);
    var body := PropertiesXml(names, props);
    assert doc[..|Header|] == Header;
    assert doc[|doc| - |Footer|..] == Footer;
    assert doc[|Header|..|doc| - |Footer|] == body;
    ReadPropertiesXml(names, props);
    KeyOrderCount(names, props);
  }

  lemma KeyOrderCount(names: seq<string>, props: map<string, string>)
    requires KeyOrder(names, props)
    ensures |names| == |props|
  {
    DistinctCard(names);
    assert props.Keys == set k | k in names;
  }

  lemma {:induction false} DistinctCard(names: seq<string>)
    requires forall i, j :: 0 <= i < j < |names| ==> names[i] != names[j]
    ensures |set k | k in names| == |names|
  {
    if |names| != 0 {
      DistinctCard(names[1..]);
      assert (set k | k in names) == {names[0]} + (set k | k in names[1..]);
      assert names[0] !in names[1..];
    }
  }

  // ------------------------------------------------------------------ start

  /** An effect of `start`, in the order it happens. */
  datatype Action =
    | WriteFile(path: string, content: string)
    | Format(command: seq<string>, env: map<string, string>)
    | Launch(command: seq<string>, env: map<string, string>, stdout: string, stderr: string)

  /** What `start` did, and the exception it ended with, if any. */
  datatype Started = Started(actions: seq<Action>, failure: Option<string>)

  /** The key orders of the two configuration maps, which `HashMap` fixes
      and the model leaves open. */
  datatype KeyOrders = KeyOrders(coreSite: seq<string>, hdfsSite: seq<string>)

  /** The subcommand that runs a node of a type. */
  function Subcommand(t: NodeType): string
  {
    match t
    case NameNode => "namenode"
    case DataNode => "datanode"
  }

  /** The format command and its environment: the inherited one with
      JAVA_HOME set. */
  function FormatAction(dirs: Dirs, inherited: map<string, string>): (a: Action)
    ensures a.Format?
    ensures a.command == [dirs.hadoopBin, "namenode", "-format", "-force"]
    ensures a.env.Keys == inherited.Keys + {JavaHomeVar} && a.env[JavaHomeVar] == dirs.javaHome
    ensures forall k :: k in inherited && k != JavaHomeVar ==> a.env[k] == inherited[k]
  {
    Format([dirs.hadoopBin, "namenode", "-format", "-force"], inherited[JavaHomeVar := dirs.javaHome])
  }

  /** `startProcess`: the node's subcommand, JAVA_HOME and, only when the
      node has hadoop JVM options, HADOOP_OPTS on top of the inherited
      environment, and output sent to "<type>.out" and "<type>.err". */
  function LaunchAction(node: Node, dirs: Dirs, inherited: map<string, string>): (a: Action)
    ensures a.Launch?
    ensures a.command == [dirs.hadoopBin, Subcommand(node.nodeType)]
    ensures JavaHomeVar in a.env && a.env[JavaHomeVar] == dirs.javaHome
    ensures node.hadoopJvmOpts.Some? ==> HadoopOptsVar in a.env && a.env[HadoopOptsVar] == node.hadoopJvmOpts.value
    ensures node.hadoopJvmOpts.None? ==>
              (HadoopOptsVar in a.env <==> HadoopOptsVar in inherited) &&
              (HadoopOptsVar in inherited ==> a.env[HadoopOptsVar] == inherited[HadoopOptsVar])
    ensures inherited.Keys + {JavaHomeVar} <= a.env.Keys <= inherited.Keys + {JavaHomeVar, HadoopOptsVar}
    ensures forall k :: k in inherited && k != JavaHomeVar && k != HadoopOptsVar ==> a.env[k] == inherited[k]
    ensures a.stdout == Subcommand(node.nodeType) + ".out" && a.stderr == Subcommand(node.nodeType) + ".err"
  {
    var env := inherited[JavaHomeVar := dirs.javaHome];
    var env' := if node.hadoopJvmOpts.Some? then env[HadoopOptsVar := node.hadoopJvmOpts.value] else env;
    var cmd := Subcommand(node.nodeType);
    Launch([dirs.hadoopBin, cmd], env', cmd + ".out", cmd + ".err")
  }

  /** Where `formatNameNodeIfRequired` looks for an earlier format. */
  function FormatMarker(node: Node, dirs: Dirs): string
  {
    Resolve(NameNodeDir(node, dirs), FormattedSubdir)
  }

  /** `formatNameNodeIfRequired`'s decision: a namenode is formatted when
      its dir holds no "current" directory; a datanode never is. */
  predicate NeedsFormat(node: Node, dirs: Dirs, isDirectory: string -> bool)
  {
    node.nodeType == NameNode && !isDirectory(FormatMarker(node, dirs))
  }

  /** The two writes `start` begins with: core-site.xml, then
      hdfs-site.xml, in the conf dir below the hadoop dir. */
  function ConfigWrites(node: Node, hostname: string, dirs: Dirs, orders: KeyOrders): (w: seq<Action>)
    requires node.runtime.Some? && node.reservation.Some?
    ensures |w| == 2 && w[0].WriteFile? && w[1].WriteFile?
    ensures w[0].path == Resolve(dirs.hadoopDir, CoreSiteFile) && w[1].path == Resolve(dirs.hadoopDir, HdfsSiteFile)
  {
    var core := WriteFile(Resolve(dirs.hadoopDir, CoreSiteFile), PropsXml(orders.coreSite, CoreSite(node, dirs)));
    var hdfs := WriteFile(Resolve(dirs.hadoopDir, HdfsSiteFile), PropsXml(orders.hdfsSite, HdfsSite(node, hostname, dirs)));
    [core, hdfs]
  }

  /** The two files `start` writes, read back: core-site.xml holds the
      core-site map and hdfs-site.xml the hdfs-site map, one escaped pair
      per key. */
  lemma ConfigWritesReadBack(node: Node, hostname: string, dirs: Dirs, orders: KeyOrders)
    requires node.runtime.Some? && node.reservation.Some?
    requires KeyOrder(orders.coreSite, CoreSite(node, dirs))
    requires KeyOrder(orders.hdfsSite, HdfsSite(node, hostname, dirs))
    ensures var w := ConfigWrites(node, hostname, dirs, orders);
      && w[0].path == Resolve(dirs.hadoopDir, CoreSiteFile)
      && w[1].path == Resolve(dirs.hadoopDir, HdfsSiteFile)
      && ReadPropsXml(w[0].content) == Some(EscapedPairs(orders.coreSite, CoreSite(node, dirs)))
      && ReadPropsXml(w[1].content) == Some(EscapedPairs(orders.hdfsSite, HdfsSite(node, hostname, dirs)))
  {
    TwoWritesReadBack(ConfigWrites(node, hostname, dirs, orders),
                      Resolve(dirs.hadoopDir, CoreSiteFile), orders.coreSite, CoreSite(node, dirs),
                      Resolve(dirs.hadoopDir, HdfsSiteFile), orders.hdfsSite, HdfsSite(node, hostname, dirs));
  }

  lemma TwoWritesReadBack(w: seq<Action>, path0: string, names0: seq<string>, props0: map<string, string>,
                          path1: string, names1: seq<string>, props1: map<string, string>)
    requires KeyOrder(names0, props0) && KeyOrder(names1, props1)
    requires w == [WriteFile(path0, PropsXml(names0, props0)), WriteFile(path1, PropsXml(names1, props1))]
    ensures w[0].path == path0 && w[1].path == path1
    ensures ReadPropsXml(w[0].content) == Some(EscapedPairs(names0, props0))
    ensures ReadPropsXml(w[1].content) == Some(EscapedPairs(names1, props1))
  {
    PropsXmlReadsBack(names0, props0);
    PropsXmlReadsBack(names1, props1);
  }

  /** The message of the exception a failed format ends `start` with. */
  function FormatFailure(code: int): string
  {
    "Failed to format namenode: process exited with " + IntToString(code)
  }

  /** The steps `start` is made of: the configuration writes, the format
      command, the launch command, and whether the format is due. */
  datatype Plan = Plan(writes: seq<Action>, format: Action, launch: Action, formats: bool)

  /** A plan in which only the last step launches the node and only the
      format step formats. */
  predicate WellFormed(p: Plan)
  {
    && (forall a :: a in p.writes ==> a.WriteFile?)
    && p.format.Format? && p.launch.Launch?
  }

  /** The plan `start` follows for a node: write core-site.xml, then
      hdfs-site.xml; format a namenode whose dir holds no "current"
      directory yet; launch. `isDirectory` is the file-system probe. */
  function PlanOf(node: Node, hostname: string, dirs: Dirs, orders: KeyOrders,
                  inherited: map<string, string>, isDirectory: string -> bool): (p: Plan)
    requires node.runtime.Some? && node.reservation.Some?
    ensures WellFormed(p) && |p.writes| == 2
    ensures p.writes == ConfigWrites(node, hostname, dirs, orders)
    ensures p.format == FormatAction(dirs, inherited) && p.launch == LaunchAction(node, dirs, inherited)
    ensures p.formats <==> node.nodeType == NameNode && !isDirectory(Resolve(NameNodeDir(node, dirs), FormattedSubdir))
  {
    var w := ConfigWrites(node, hostname, dirs, orders);
    PairOfWrites(w);
    Plan(w, FormatAction(dirs, inherited), LaunchAction(node, dirs, inherited), NeedsFormat(node, dirs, isDirectory))
  }

  lemma PairOfWrites(w: seq<Action>)
    requires |w| == 2 && w[0].WriteFile? && w[1].WriteFile?
    ensures forall a :: a in w ==> a.WriteFile?
  {
    forall a | a in w ensures a.WriteFile? {
      assert a == w[0] || a == w[1];
    }
  }

  /** `start` carrying out a plan: the writes, then the format when one is
      due, then the launch unless the format exited non-zero, in which case
      `start` throws. `formatExit` is the exit code the format reports. */
  function Start(p: Plan, formatExit: int): (s: Started)
    ensures |p.writes| < |s.actions| && s.actions[..|p.writes|] == p.writes
    ensures |s.actions| == |p.writes| + (if p.formats then 1 else 0) + (if s.failure.None? then 1 else 0)
    ensures p.formats ==> s.actions[|p.writes|] == p.format
    ensures s.failure.Some? <==> p.formats && formatExit != 0
    ensures s.failure.Some? ==> s.failure.value == FormatFailure(formatExit)
    ensures s.failure.None? ==> s.actions[|s.actions| - 1] == p.launch
    ensures WellFormed(p) ==> forall i :: 0 <= i < |s.actions| - 1 ==> !s.actions[i].Launch?
  {
    var s :=
      if p.formats then
        if formatExit != 0 then Started(p.writes + [p.format], Some(FormatFailure(formatExit)))
        else Started(p.writes + [p.format, p.launch], None)
      else Started(p.writes + [p.launch], None);
    assert WellFormed(p) ==> forall i :: 0 <= i < |s.actions| - 1 ==> !s.actions[i].Launch? by {
      if WellFormed(p) {
        forall i | 0 <= i < |s.actions| - 1 ensures !s.actions[i].Launch? {
          if i < |p.writes| { assert s.actions[i] == p.writes[i] && p.writes[i] in p.writes; }
        }
      }
    }
    s
  }

  /** With no format due (a datanode, or a namenode already formatted) the
      format's exit code plays no part and nothing is formatted. */
  lemma NoFormatWhenFormatted(p: Plan, formatExit: int)
    requires WellFormed(p) && !p.formats
    ensures Start(p, formatExit) == Start(p, 0)
    ensures forall i :: 0 <= i < |Start(p, formatExit).actions| ==> !Start(p, formatExit).actions[i].Format?
  {
    var s := Start(p, formatExit);
    forall i | 0 <= i < |s.actions| ensures !s.actions[i].Format? {
      if i < |p.writes| { assert s.actions[i] == p.writes[i] && p.writes[i] in p.writes; }
    }
  }

  /** `start` runs the format exactly for a namenode whose dir holds no
      "current" directory. With no "dfs.name.dir" override that directory
      is "namenode/current" below the data dir. */
  lemma FormatDecision(node: Node, hostname: string, dirs: Dirs, orders: KeyOrders,
                       inherited: map<string, string>, isDirectory: string -> bool, formatExit: int)
    requires node.runtime.Some? && node.reservation.Some?
    ensures var s := Start(PlanOf(node, hostname, dirs, orders, inherited, isDirectory), formatExit);
      FormatAction(dirs, inherited) in s.actions <==>
        node.nodeType == NameNode && !isDirectory(FormatMarker(node, dirs))
    ensures NameDirKey !in node.hdfsSiteOpts ==>
              FormatMarker(node, dirs) ==
                (if dirs.dataDir == "" || dirs.dataDir == "/" then "/" else dirs.dataDir + "/") + "namenode/current"
  {
    FormatRuns(PlanOf(node, hostname, dirs, orders, inherited, isDirectory), formatExit);
    if NameDirKey !in node.hdfsSiteOpts {
      DefaultFormatMarker(node, dirs);
    }
  }

  /** A well-formed plan runs its format step exactly when one is due. */
  lemma FormatRuns(p: Plan, formatExit: int)
    requires WellFormed(p)
    ensures p.format in Start(p, formatExit).actions <==> p.formats
  {
    var s := Start(p, formatExit);
    if p.formats {
      assert s.actions[|p.writes|] == p.format;
    } else {
      NoFormatWhenFormatted(p, formatExit);
    }
  }

  lemma DefaultFormatMarker(node: Node, dirs: Dirs)
    requires NameDirKey !in node.hdfsSiteOpts
    ensures FormatMarker(node, dirs) ==
              (if dirs.dataDir == "" || dirs.dataDir == "/" then "/" else dirs.dataDir + "/") + "namenode/current"
  {
    var d := NameNodeDir(node, dirs);
    var x := if dirs.dataDir == "" || dirs.dataDir == "/" then "/" else dirs.dataDir + "/";
    assert d == x + "namenode";
    assert d != "" && d != "/";
    assert Resolve(d, FormattedSubdir) == d + "/" + "current";
    assert x + "namenode" + "/" + "current" == x + "namenode/current";
  }

  /** A datanode's plan never formats. */
  lemma DataNodeNeverFormats(node: Node, hostname: string, dirs: Dirs, orders: KeyOrders,
                             inherited: map<string, string>, isDirectory: string -> bool)
    requires node.runtime.Some? && node.reservation.Some?
    requires node.nodeType == DataNode
    ensures !PlanOf(node, hostname, dirs, orders, inherited, isDirectory).formats
  {
  }

  /** `waitFor`: the exit code of the launched process; before a `start`
      that got as far as the launch it fails with "!started". `exitCode` is
      what the process would report. */
  function WaitFor(s: Option<Started>, exitCode: int): (r: Result<int>)
    ensures r.Err? <==> s.None? || s.value.failure.Some?
    ensures r.Err? ==> r.error == "!started"
    ensures r.Ok? ==> r.value == exitCode
  {
    match s
    case Some(Started(_, None)) => Ok(exitCode)
    case _ => Err("!started")
  }

  /** After `start`, waiting yields the process's exit code exactly when the
      last step was the launch, which is when no format failed. */
  lemma WaitForAfterStart(p: Plan, formatExit: int, exitCode: int)
    requires WellFormed(p)
    ensures var s := Start(p, formatExit);
      WaitFor(Some(s), exitCode).Ok? <==> s.actions[|s.actions| - 1].Launch?
    ensures WaitFor(Some(Start(p, formatExit)), exitCode).Ok? <==> !(p.formats && formatExit != 0)
  {
    var s := Start(p, formatExit);
    if s.failure.Some? {
      assert s.actions[|s.actions| - 1] == p.format;
    }
  }
}
