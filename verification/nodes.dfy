/** The scheduler-side node: whether an offer suits it (`Node.matches`), the
    resources it takes from an accepted offer (`Node.reserve`), and the
    runtime identity it gets when placed (`Node.initRuntime`), including the
    filesystem URI a datanode borrows from a namenode in the registry. */
module Nodes {
  import opened Wrappers
  import opened Text
  import opened Ranges

  datatype NodeType = NameNode | DataNode

  datatype State = Idle | Starting | Running | Stopping

  /** Logical ports a node binds. */
  datatype Port = Http | Data | Ipc

  /** Resources taken from an offer; cpus in thousandths of a core, mem in MB. */
  datatype Reservation = Reservation(cpus: nat, mem: nat, ports: map<Port, int>)

  /** Facts known once a node is placed. */
  datatype Runtime = Runtime(
    taskId: string,
    executorId: string,
    slaveId: string,
    hostname: string,
    attributes: map<string, string>,
    fsUri: string,
    killSent: bool)

  /** A namenode or datanode; cpus in thousandths of a core, mem in MB.
      Nullable Java fields are `Option`s. */
  datatype Node = Node(
    id: string,
    nodeType: NodeType,
    state: State,
    cpus: nat,
    mem: nat,
    executorJvmOpts: Option<string>,
    hadoopJvmOpts: Option<string>,
    coreSiteOpts: map<string, string>,
    hdfsSiteOpts: map<string, string>,
    externalFsUri: Option<string>,
    runtime: Option<Runtime>,
    reservation: Option<Reservation>)
  {
    /** An external node only advertises a filesystem that runs elsewhere. */
    predicate External() { externalFsUri.Some? }
  }

  /** A resource offer from one host; cpus in thousandths of a core. */
  datatype Offer = Offer(
    slaveId: string,
    hostname: string,
    cpus: nat,
    mem: nat,
    ports: seq<Range>,
    attributes: map<string, string>)

  function Min(a: nat, b: nat): nat { if a <= b then a else b }

  /** The ports a node of type `t` binds, in the order they are reserved. */
  function RequiredPorts(t: NodeType): seq<Port>
  {
    if t == NameNode then [Http, Ipc] else [Http, Data, Ipc]
  }

  // ---------------------------------------------------------------- matching

  /** Why an offer was declined. */
  datatype Rejection = LowCpus(need: nat) | LowMem(need: nat) | NoNamenode | NoActiveNamenode

  /** The text `Node.matches` returns for each rejection. */
  function Reason(r: Rejection): string
  {
    match r
    case LowCpus(c) => "cpus < " + CpusText(c)
    case LowMem(m) => "mem < " + NatToString(m)
    case NoNamenode => "no namenode"
    case NoActiveNamenode => "no running or external namenode"
  }

  /** A cpus amount as Java prints the double below 10^7 cores: "0.5",
      "2.0", "0.125". From 10^7 up Java switches to "1.0E7" notation. */
  function CpusText(millis: nat): string
  {
    NatToString(millis / 1000) + "." + FractionText(millis % 1000)
  }

  function FractionText(f: nat): string
    requires f < 1000
  {
    if f == 0 then "0"
    else if f % 100 == 0 then [DigitChar(f / 100)]
    else if f % 10 == 0 then [DigitChar(f / 100), DigitChar(f / 10 % 10)]
    else [DigitChar(f / 100), DigitChar(f / 10 % 10), DigitChar(f % 10)]
  }

  predicate IsNamenode(n: Node) { n.nodeType == NameNode }

  /** A namenode a datanode can be started against. */
  predicate Active(n: Node) { n.state == Running || n.External() }

  /** The registry's namenodes, in registry order. */
  function Namenodes(registry: seq<Node>): (nns: seq<Node>)
    ensures forall n :: n in nns <==> n in registry && IsNamenode(n)
    ensures |nns| == 0 <==> forall n :: n in registry ==> !IsNamenode(n)
  {
    if |registry| == 0 then []
    else (if IsNamenode(registry[0]) then [registry[0]] else []) + Namenodes(registry[1..])
  }

  function AnyActive(nodes: seq<Node>): (b: bool)
    ensures b <==> exists n :: n in nodes && Active(n)
  {
    |nodes| > 0 && (Active(nodes[0]) || AnyActive(nodes[1..]))
  }

  /** Checks the offer against the node's requirements in a fixed order:
      cpus, then mem, then (datanode only) a namenode to attach to. The first
      failing check decides the rejection. */
  function Matches(node: Node, offer: Offer, registry: seq<Node>): (r: Option<Rejection>)
    ensures r.None? <==>
              && node.cpus <= offer.cpus
              && node.mem <= offer.mem
              && (node.nodeType == DataNode ==> exists n :: n in registry && IsNamenode(n) && Active(n))
    ensures offer.cpus < node.cpus ==> r == Some(LowCpus(node.cpus))
    ensures r == Some(LowMem(node.mem)) <==> node.cpus <= offer.cpus && offer.mem < node.mem
    ensures r == Some(NoNamenode) <==>
              && node.cpus <= offer.cpus && node.mem <= offer.mem && node.nodeType == DataNode
              && forall n :: n in registry ==> !IsNamenode(n)
    ensures r == Some(NoActiveNamenode) <==>
              && node.cpus <= offer.cpus && node.mem <= offer.mem && node.nodeType == DataNode
              && (exists n :: n in registry && IsNamenode(n))
              && forall n :: n in registry && IsNamenode(n) ==> !Active(n)
  {
    if offer.cpus < node.cpus then Some(LowCpus(node.cpus))
    else if offer.mem < node.mem then Some(LowMem(node.mem))
    else if node.nodeType == DataNode then
      var nns := Namenodes(registry);
      if |nns| == 0 then Some(NoNamenode)
      else if !AnyActive(nns) then Some(NoActiveNamenode)
      else None
    else None
  }

  // ------------------------------------------------------------- reservation

  /** Reserves the lowest free port for each name in turn; names for which
      no port is left stay unassigned. */
  function AssignPorts(names: seq<Port>, free: seq<Range>): (m: map<Port, int>)
    ensures forall p :: p in m ==> p in names
    decreases |names|
  {
    if |names| == 0 then map[]
    else
      match ReservePort(None, free)
      case None => AssignPorts(names[1..], free)
      case Some(c) => AssignPorts(names[1..], c.rest)[names[0] := c.port]
  }

  /** Takes the smaller of the node's and the offer's cpus and mem, and the
      lowest free ports of the offer for the node's logical ports. */
  function Reserve(node: Node, offer: Offer): (r: Reservation)
    ensures r.cpus <= node.cpus && r.cpus <= offer.cpus && (r.cpus == node.cpus || r.cpus == offer.cpus)
    ensures r.mem <= node.mem && r.mem <= offer.mem && (r.mem == node.mem || r.mem == offer.mem)
    ensures forall p :: p in r.ports ==> p in RequiredPorts(node.nodeType)
  {
    Reservation(Min(node.cpus, offer.cpus), Min(node.mem, offer.mem),
                AssignPorts(RequiredPorts(node.nodeType), offer.ports))
  }

  predicate Distinct(names: seq<Port>)
  {
    forall i, j :: 0 <= i < j < |names| ==> names[i] != names[j]
  }

  /** The first `count` names have a port and the others none. */
  predicate FirstAssigned(names: seq<Port>, count: int, m: map<Port, int>)
  {
    forall i | 0 <= i < |names| :: names[i] in m <==> i < count
  }

  /** Every port given out was free. */
  predicate TakenFrom(free: seq<Range>, m: map<Port, int>)
  {
    forall p | p in m :: Free(free, m[p])
  }

  /** Ports rise in the order of the names. */
  predicate RisingAlong(names: seq<Port>, m: map<Port, int>)
  {
    forall i, j | 0 <= i < j < |names| && names[i] in m && names[j] in m :: m[names[i]] < m[names[j]]
  }

  /** No free port that was left out lies below a port given out. */
  ghost predicate LowestTaken(free: seq<Range>, m: map<Port, int>)
  {
    forall p, x | p in m && Free(free, x) && x !in m.Values :: m[p] < x
  }

  lemma DistinctTail(names: seq<Port>)
    requires Distinct(names) && 0 < |names|
    ensures Distinct(names[1..]) && names[0] !in names[1..]
  {
    var tail := names[1..];
    forall i | 0 <= i < |tail| ensures tail[i] != names[0] { assert tail[i] == names[i + 1]; }
  }

  lemma FirstAssignedStep(names: seq<Port>, count: int, m': map<Port, int>, port: int)
    requires Distinct(names) && 0 < |names| && 0 < count
    requires FirstAssigned(names[1..], count - 1, m')
    ensures FirstAssigned(names, count, m'[names[0] := port])
  {
    forall i | 0 < i < |names| ensures names[i] != names[0] && names[i] == names[1..][i - 1] { }
  }

  lemma TakenFromStep(free: seq<Range>, rest: seq<Range>, m': map<Port, int>, n: Port, port: int)
    requires TakenFrom(rest, m') && Free(free, port)
    requires forall x :: Free(rest, x) ==> Free(free, x)
    ensures TakenFrom(free, m'[n := port])
  {
  }

  lemma RisingStep(names: seq<Port>, rest: seq<Range>, m': map<Port, int>, port: int)
    requires Distinct(names) && 0 < |names|
    requires RisingAlong(names[1..], m') && TakenFrom(rest, m')
    requires forall x :: Free(rest, x) ==> port < x
    ensures RisingAlong(names, m'[names[0] := port])
  {
    var m := m'[names[0] := port];
    forall i, j | 0 <= i < j < |names| && names[i] in m && names[j] in m
      ensures m[names[i]] < m[names[j]]
    {
      assert names[j] == names[1..][j - 1] && names[j] != names[0];
      if i > 0 {
        assert names[i] == names[1..][i - 1] && names[i] != names[0];
      } else {
        assert Free(rest, m'[names[j]]);
      }
    }
  }

  lemma LowestTakenStep(free: seq<Range>, rest: seq<Range>, m': map<Port, int>, n: Port, port: int)
    requires n !in m' && LowestTaken(rest, m')
    requires forall x :: Free(rest, x) <==> Free(free, x) && x != port
    requires forall x :: Free(free, x) ==> port <= x
    ensures LowestTaken(free, m'[n := port])
  {
    var m := m'[n := port];
    forall p, x | p in m && Free(free, x) && x !in m.Values ensures m[p] < x {
      assert x != port by { assert m[n] == port; }
      if p != n {
        assert x !in m'.Values by {
          forall q | q in m' ensures m'[q] != x { assert m[q] == m'[q] && m[q] in m.Values; }
        }
      }
    }
  }

  /** With distinct names over a valid free list: the first PortCount names
      get a port and the rest none; every port given was free; ports rise in
      the order of the names; and every free port below a given one was
      given too (lowest ports first). */
  lemma {:induction false} AssignPortsSpec(names: seq<Port>, free: seq<Range>)
    requires Valid(free) && Distinct(names)
    ensures FirstAssigned(names, PortCount(free), AssignPorts(names, free))
    ensures TakenFrom(free, AssignPorts(names, free))
    ensures RisingAlong(names, AssignPorts(names, free))
    ensures LowestTaken(free, AssignPorts(names, free))
    decreases |names|
  {
    ReserveAnyPort(free);
    if |names| == 0 {
      assert AssignPorts(names, free) == map[];
    } else {
      var tail := names[1..];
      DistinctTail(names);
      match ReservePort(None, free)
      case None =>
        assert |free| == 0;
        assert AssignPorts(names, free) == map[] by {
          AssignPortsEmpty(names, free);
        }
      case Some(c) =>
        ReservePortRest(None, free);
        ReservePortLowest(None, free);
        ValidCountNonNegative(free);
        AssignPortsSpec(tail, c.rest);
        var m' := AssignPorts(tail, c.rest);
        assert AssignPorts(names, free) == m'[names[0] := c.port];
        FirstAssignedStep(names, PortCount(free), m', c.port);
        TakenFromStep(free, c.rest, m', names[0], c.port);
        RisingStep(names, c.rest, m', c.port);
        LowestTakenStep(free, c.rest, m', names[0], c.port);
    }
  }

  /** Without free ports no name gets one. */
  lemma {:induction false} AssignPortsEmpty(names: seq<Port>, free: seq<Range>)
    requires |free| == 0
    ensures AssignPorts(names, free) == map[]
    decreases |names|
  {
    if 0 < |names| {
      AssignPortsEmpty(names[1..], free);
    }
  }

  /** `reserve` on a valid port list: the node's logical ports are assigned
      in declared order while free ports last; each assigned port was
      offered, ports rise in declared order, and no offered port below an
      assigned one is left unassigned. An offer without ports yields none. */
  lemma ReservePorts(node: Node, offer: Offer)
    requires Valid(offer.ports)
    ensures FirstAssigned(RequiredPorts(node.nodeType), PortCount(offer.ports), Reserve(node, offer).ports)
    ensures TakenFrom(offer.ports, Reserve(node, offer).ports)
    ensures RisingAlong(RequiredPorts(node.nodeType), Reserve(node, offer).ports)
    ensures LowestTaken(offer.ports, Reserve(node, offer).ports)
    ensures |offer.ports| == 0 ==> Reserve(node, offer).ports == map[]
  {
    AssignPortsSpec(RequiredPorts(node.nodeType), offer.ports);
    if |offer.ports| == 0 {
      AssignPortsEmpty(RequiredPorts(node.nodeType), offer.ports);
    }
  }

  /** The two reservations of the unit test: a short offer is clamped and
      has no ports; an ample one gives the node its own cpus and mem and the
      ports HTTP=0 and IPC=1 out of 0..10. */
  lemma ReserveExample(node: Node)
    requires node.nodeType == NameNode && node.cpus == 500 && node.mem == 400
    ensures Reserve(node, Offer("s", "h", 300, 300, [], map[])) == Reservation(300, 300, map[])
    ensures Reserve(node, Offer("s", "h", 700, 1000, [Range(0, 10)], map[]))
            == Reservation(500, 400, map[Http := 0, Ipc := 1])
  {
    assert RequiredPorts(NameNode) == [Http, Ipc];
    assert [Http, Ipc][1..] == [Ipc] && [Ipc][1..] == [];
    assert AssignPorts([Ipc], []) == map[];
    assert AssignPorts([Http, Ipc], []) == map[];
    assert Split(Range(0, 10), 0) == [Range(1, 10)];
    CarveFirst(None, [Range(0, 10)], 0, [Range(1, 10)]);
    assert Split(Range(1, 10), 1) == [Range(2, 10)];
    CarveFirst(None, [Range(1, 10)], 1, [Range(2, 10)]);
    assert AssignPorts([Ipc], [Range(1, 10)]) == map[Ipc := 1];
    assert AssignPorts([Http, Ipc], [Range(0, 10)]) == map[Ipc := 1][Http := 0];
    assert map[Ipc := 1][Http := 0] == map[Http := 0, Ipc := 1];
  }

  // ---------------------------------------------------------------- runtime

  /** A reserved port as Java concatenates an Integer: "null" when absent. */
  function PortText(ports: map<Port, int>, p: Port): string
  {
    if p in ports then IntToString(ports[p]) else "null"
  }

  /** The first node in `nodes` that has a runtime. */
  function FirstPlaced(nodes: seq<Node>): (r: Option<Node>)
    ensures r.None? <==> forall n :: n in nodes ==> n.runtime.None?
    ensures r.Some? ==> exists k | 0 <= k < |nodes| ::
              nodes[k] == r.value && r.value.runtime.Some? && forall j :: 0 <= j < k ==> nodes[j].runtime.None?
  {
    if |nodes| == 0 then None
    else if nodes[0].runtime.Some? then Some(nodes[0])
    else
      var r := FirstPlaced(nodes[1..]);
      if r.Some? then
        var k :| 0 <= k < |nodes[1..]| && nodes[1..][k] == r.value && r.value.runtime.Some? &&
                 forall j :: 0 <= j < k ==> nodes[1..][j].runtime.None?;
        assert nodes[k + 1] == r.value;
        r
      else r
  }

  /** The first external node in `nodes`. */
  function FirstExternal(nodes: seq<Node>): (r: Option<Node>)
    ensures r.None? <==> forall n :: n in nodes ==> !n.External()
    ensures r.Some? ==> exists k | 0 <= k < |nodes| ::
              nodes[k] == r.value && r.value.External() && forall j :: 0 <= j < k ==> !nodes[j].External()
  {
    if |nodes| == 0 then None
    else if nodes[0].External() then Some(nodes[0])
    else
      var r := FirstExternal(nodes[1..]);
      if r.Some? then
        var k :| 0 <= k < |nodes[1..]| && nodes[1..][k] == r.value && r.value.External() &&
                 forall j :: 0 <= j < k ==> !nodes[1..][j].External();
        assert nodes[k + 1] == r.value;
        r
      else r
  }

  /** The filesystem URI a datanode is configured with: that of the first
      namenode with a runtime, else the declared URI of the first external
      namenode. */
  function NamenodeFsUri(registry: seq<Node>): Result<string>
  {
    var nns := Namenodes(registry);
    if |nns| == 0 then Err("no namenode")
    else
      match FirstPlaced(nns)
      case Some(nn) => Ok(nn.runtime.value.fsUri)
      case None =>
        match FirstExternal(nns)
        case Some(nn) => Ok(nn.externalFsUri.value)
        case None => Err("no running or external namenode")
  }

  /** Places the node on the offer's host: fresh task and executor ids
      (supplied by the caller), the offer's slave, host and attributes, the
      reservation, and the filesystem URI. A namenode serves its own IPC
      port; a datanode takes its URI from the registry and fails without a
      namenode to use, leaving the node as it was. */
  function InitRuntime(node: Node, offer: Offer, registry: seq<Node>, taskId: string, executorId: string)
    : (r: Result<Node>)
    ensures r.Ok? ==> r.value.runtime.Some? && r.value.reservation == Some(Reserve(node, offer))
    ensures r.Ok? ==> var rt := r.value.runtime.value;
              && rt.taskId == taskId && rt.executorId == executorId && !rt.killSent
              && rt.slaveId == offer.slaveId && rt.hostname == offer.hostname && rt.attributes == offer.attributes
    ensures r.Ok? ==> r.value.(runtime := node.runtime, reservation := node.reservation) == node
    ensures node.nodeType == NameNode ==> r.Ok? && HasSubstring(r.value.runtime.value.fsUri, offer.hostname)
    ensures node.nodeType == DataNode ==> (r.Err? <==> NamenodeFsUri(registry).Err?)
  {
    var res := Reserve(node, offer);
    if node.nodeType == NameNode then
      var port := PortText(res.ports, Ipc);
      HasSubstringOfConcat("hdfs://", offer.hostname, ":" + port);
      assert "hdfs://" + offer.hostname + ":" + port == "hdfs://" + offer.hostname + (":" + port);
      Ok(Placed(node, offer, res, taskId, executorId, "hdfs://" + offer.hostname + ":" + port))
    else
      match NamenodeFsUri(registry)
      case Err(e) => Err(e)
      case Ok(u) => Ok(Placed(node, offer, res, taskId, executorId, u))
  }

  function Placed(node: Node, offer: Offer, res: Reservation, taskId: string, executorId: string, fsUri: string): Node
  {
    node.(runtime := Some(Runtime(taskId, executorId, offer.slaveId, offer.hostname, offer.attributes, fsUri, false)),
          reservation := Some(res))
  }

  /** A datanode fails with "no namenode" when none is registered. */
  lemma DatanodeWithoutNamenode(node: Node, offer: Offer, registry: seq<Node>, taskId: string, executorId: string)
    requires node.nodeType == DataNode
    requires forall n :: n in registry ==> !IsNamenode(n)
    ensures var r := InitRuntime(node, offer, registry, taskId, executorId);
            r.Err? && HasSubstring(r.error, "no namenode")
  {
    HasSubstringOfConcat("", "no namenode", "");
    assert "" + "no namenode" + "" == "no namenode";
  }

  /** A datanode takes the URI of the first registered namenode that has a
      runtime. */
  lemma DatanodeUsesPlacedNamenode(node: Node, offer: Offer, registry: seq<Node>, taskId: string, executorId: string, k: nat)
    requires node.nodeType == DataNode
    requires k < |registry| && IsNamenode(registry[k]) && registry[k].runtime.Some?
    requires forall j :: 0 <= j < k && IsNamenode(registry[j]) ==> registry[j].runtime.None?
    ensures var r := InitRuntime(node, offer, registry, taskId, executorId);
            r.Ok? && r.value.runtime.value.fsUri == registry[k].runtime.value.fsUri
  {
    FirstPlacedNamenode(registry, k);
  }

  /** Without any namenode runtime, a datanode takes the declared URI of the
      first external namenode. */
  lemma DatanodeUsesExternalNamenode(node: Node, offer: Offer, registry: seq<Node>, taskId: string, executorId: string, k: nat)
    requires node.nodeType == DataNode
    requires k < |registry| && IsNamenode(registry[k]) && registry[k].External()
    requires forall n :: n in registry && IsNamenode(n) ==> n.runtime.None?
    requires forall j :: 0 <= j < k && IsNamenode(registry[j]) ==> !registry[j].External()
    ensures var r := InitRuntime(node, offer, registry, taskId, executorId);
            r.Ok? && r.value.runtime.value.fsUri == registry[k].externalFsUri.value
  {
    FirstExternalNamenode(registry, k);
    assert FirstPlaced(Namenodes(registry)).None?;
  }

  /** `FirstPlaced` looks at the head first. */
  lemma FirstPlacedCons(x: Node, tail: seq<Node>)
    ensures FirstPlaced([x] + tail) == if x.runtime.Some? then Some(x) else FirstPlaced(tail)
  {
    assert ([x] + tail)[1..] == tail;
  }

  /** `FirstExternal` looks at the head first. */
  lemma FirstExternalCons(x: Node, tail: seq<Node>)
    ensures FirstExternal([x] + tail) == if x.External() then Some(x) else FirstExternal(tail)
  {
    assert ([x] + tail)[1..] == tail;
  }

  /** When registry[k] is the first namenode with a runtime, `FirstPlaced`
      over the registry's namenodes finds it. */
  lemma {:induction false} FirstPlacedNamenode(registry: seq<Node>, k: nat)
    requires k < |registry| && IsNamenode(registry[k]) && registry[k].runtime.Some?
    requires forall j :: 0 <= j < k && IsNamenode(registry[j]) ==> registry[j].runtime.None?
    ensures FirstPlaced(Namenodes(registry)) == Some(registry[k])
    decreases k
  {
    var tail := Namenodes(registry[1..]);
    if k == 0 {
      assert FirstPlaced(Namenodes(registry)) == Some(registry[0]) by {
        assert Namenodes(registry) == [registry[0]] + tail;
        FirstPlacedCons(registry[0], tail);
      }
    } else {
      FirstPlacedNamenode(registry[1..], k - 1);
      assert FirstPlaced(Namenodes(registry)) == FirstPlaced(tail) by {
        if IsNamenode(registry[0]) {
          assert Namenodes(registry) == [registry[0]] + tail;
          FirstPlacedCons(registry[0], tail);
        } else {
          assert Namenodes(registry) == tail;
        }
      }
    }
  }

  /** When registry[k] is the first external namenode, `FirstExternal` over
      the registry's namenodes finds it. */
  lemma {:induction false} FirstExternalNamenode(registry: seq<Node>, k: nat)
    requires k < |registry| && IsNamenode(registry[k]) && registry[k].External()
    requires forall j :: 0 <= j < k && IsNamenode(registry[j]) ==> !registry[j].External()
    ensures FirstExternal(Namenodes(registry)) == Some(registry[k])
    decreases k
  {
    var tail := Namenodes(registry[1..]);
    if k == 0 {
      assert FirstExternal(Namenodes(registry)) == Some(registry[0]) by {
        assert Namenodes(registry) == [registry[0]] + tail;
        FirstExternalCons(registry[0], tail);
      }
    } else {
      FirstExternalNamenode(registry[1..], k - 1);
      assert FirstExternal(Namenodes(registry)) == FirstExternal(tail) by {
        if IsNamenode(registry[0]) {
          assert Namenodes(registry) == [registry[0]] + tail;
          FirstExternalCons(registry[0], tail);
        } else {
          assert Namenodes(registry) == tail;
        }
      }
    }
  }

  /** A datanode started after a namenode's `initRuntime` uses that
      namenode's URI, which names the namenode's host. */
  lemma DatanodeAfterNamenode(nn: Node, dn: Node, offer: Offer, offer': Offer, rest: seq<Node>,
                              taskId: string, executorId: string, taskId': string, executorId': string)
    requires nn.nodeType == NameNode && dn.nodeType == DataNode
    ensures var nn' := InitRuntime(nn, offer, [], taskId, executorId).value;
            var r := InitRuntime(dn, offer', [nn'] + rest, taskId', executorId');
            && r.Ok? && r.value.runtime.value.fsUri == nn'.runtime.value.fsUri
            && HasSubstring(r.value.runtime.value.fsUri, nn'.runtime.value.hostname)
  {
    var nn' := InitRuntime(nn, offer, [], taskId, executorId).value;
    assert ([nn'] + rest)[0] == nn';
    DatanodeUsesPlacedNamenode(dn, offer', [nn'] + rest, taskId', executorId', 0);
  }

  /** An accepted offer can be placed: when `matches` accepts a datanode and
      every running namenode has a runtime, `initRuntime` finds a URI. */
  lemma MatchedDatanodeInitializes(dn: Node, offer: Offer, registry: seq<Node>, taskId: string, executorId: string)
    requires dn.nodeType == DataNode && Matches(dn, offer, registry).None?
    requires forall n :: n in registry && IsNamenode(n) && n.state == Running ==> n.runtime.Some?
    ensures InitRuntime(dn, offer, registry, taskId, executorId).Ok?
  {
    var n :| n in registry && IsNamenode(n) && Active(n);
    assert n in Namenodes(registry);
    if FirstPlaced(Namenodes(registry)).None? {
      assert !n.External() ==> n.runtime.Some?;
    }
  }

  /** The rejections of the unit test, in its order: a short offer names the
      missing cpus before the mem; a datanode needs a namenode, then a running
      or external one. */
  lemma MatchesExample()
    ensures var node := Node("0", NameNode, Idle, 500, 500, None, None, map[], map[], None, None, None);
            && Reason(Matches(node, Offer("s", "h", 100, 0, [], map[]), []).value) == "cpus < 0.5"
            && Reason(Matches(node, Offer("s", "h", 500, 400, [], map[]), []).value) == "mem < 500"
  {
    ReasonTexts();
  }

  /** The two resource messages of the unit test. */
  lemma ReasonTexts()
    ensures Reason(LowCpus(500)) == "cpus < 0.5"
    ensures Reason(LowMem(500)) == "mem < 500"
  {
    assert NatToString(0) == "0";
    assert FractionText(500) == "5";
    assert CpusText(500) == "0.5";
    assert NatToString(500) == "500" by {
      assert NatToString(5) == "5";
      assert NatToString(50) == "50";
    }
  }

  /** A datanode needs a namenode that runs or is external; a namenode
      needs nothing. */
  lemma MatchesNamenodeExample(nn: Node)
    requires nn.nodeType == NameNode && nn.state == Idle && nn.externalFsUri.None?
    ensures var node := Node("0", DataNode, Idle, 500, 500, None, None, map[], map[], None, None, None);
            var offer := Offer("s", "h", 500, 500, [Range(0, 4)], map[]);
            && Matches(node.(nodeType := NameNode), offer, []).None?
            && Reason(Matches(node, offer, []).value) == "no namenode"
            && Reason(Matches(node, offer, [nn]).value) == "no running or external namenode"
            && Matches(node, offer, [nn.(externalFsUri := Some("fs-uri"))]).None?
            && Matches(node, offer, [nn.(state := Running)]).None?
  {
    var nnx := nn.(externalFsUri := Some("fs-uri"));
    assert Active(nnx) && nnx in [nnx];
    var nnr := nn.(state := Running);
    assert Active(nnr) && nnr in [nnr];
  }

}
