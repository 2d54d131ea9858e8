// Ban replication over the gossip mesh: cluster/gossip.go, wired to the
// pipeline as in main.go.
module Gossip {
  import opened B = BanStates
  import opened Blacklists

  datatype BanMessage = BanMessage(action: string, ip: string, duration: real, source: string, sentAt: int)

  const MAX_AGE: int := 60

  // time.Now().Unix().
  function Unix(now: real): int {
    now.Floor
  }

  // What NotifyMsg hands to the handlers.
  datatype Handled = Ignored | HandleBan(ip: string, duration: real) | HandleUnban(target: string)

  function Receive(name: string, msg: BanMessage, now: real): Handled {
    if msg.ip == "" && msg.action == "" then Ignored
    else if msg.source == name then Ignored
    else if Unix(now) - msg.sentAt > MAX_AGE then Ignored
    else if msg.action == "unban" then HandleUnban(msg.ip)
    else if msg.action == "unban_all" then HandleUnban("all")
    else HandleBan(msg.ip, msg.duration)
  }

  // ---- A cluster --------------------------------------------------------

  // What is fixed: per node its name, whether it has a mesh, its ban
  // configuration, the kernel map it finds and what a scan of the trusted
  // ranges says.
  datatype Node = Node(name: string, meshed: bool, cfg: Config, found: map<Key, nat>, scanned: string -> bool)

  // A node's own decision to ban.
  datatype Decision = Decision(node: nat, ip: string, duration: real, at: real)

  // `sent` is the network: messages stay in it for ever and may be delivered
  // any number of times, in any order, to anybody, or never.
  datatype Cluster = Cluster(states: seq<State>, sent: set<BanMessage>, broadcasts: nat, decisions: seq<Decision>)

  datatype Event =
    | Decide(node: nat, ip: string, duration: real, now: real)
    | Deliver(node: nat, msg: BanMessage, now: real)
    | Local(node: nat, step: B.Event)   // queries, cleanups and unbans

  function Start(nodes: seq<Node>): Cluster {
    Cluster(seq(|nodes|, i requires 0 <= i < |nodes| => B.Start(nodes[i].found)), {}, 0, [])
  }

  predicate Accepts(node: Node, ip: string) {
    ip != "" && !node.scanned(ip) && !Protected(node.cfg, ip)
  }

  function ClusterStep(nodes: seq<Node>, c: Cluster, e: Event): Cluster
    requires |c.states| == |nodes|
  {
    if e.node >= |nodes| then c
    else
      var node := nodes[e.node];
      var s := c.states[e.node];
      match e
      case Decide(i, ip, duration, now) =>
        if !Accepts(node, ip) then c
        else
          var banned := c.states[i := B.Step(node.cfg, s, Ban(ip, duration, now))];
          var decided := c.(states := banned, decisions := c.decisions + [Decision(i, ip, duration, now)]);
          if node.meshed then
            decided.(sent := c.sent + {BanMessage("ban", ip, duration, node.name, Unix(now))},
                     broadcasts := c.broadcasts + 1)
          else decided
      case Deliver(i, msg, now) =>
        if node.meshed && msg in c.sent && Receive(node.name, msg, now).HandleBan? then
          var h := Receive(node.name, msg, now);
          c.(states := c.states[i := B.Step(node.cfg, s, Ban(h.ip, h.duration, now))])
        else c
      case Local(i, step) =>
        if step.Ban? then c else c.(states := c.states[i := B.Step(node.cfg, s, step)])
  }

  function ClusterRun(nodes: seq<Node>, events: seq<Event>): (c: Cluster)
    ensures |c.states| == |nodes|
  {
    if events == [] then Start(nodes)
    else ClusterStep(nodes, ClusterRun(nodes, events[..|events| - 1]), events[|events| - 1])
  }

  // ---- Provenance -------------------------------------------------------

  // The entry goes back to decision d: made here, or announced at most a
  // message's lifetime before it was taken over.
  predicate GoesBackTo(expiry: real, ip: string, i: nat, d: Decision) {
    d.ip == ip && ((expiry == d.at + d.duration && d.node == i) || expiry < d.at + d.duration + (MAX_AGE + 1) as real)
  }

  ghost predicate EntriesExplained(c: Cluster) {
    forall i, ip :: 0 <= i < |c.states| && ip in c.states[i].banned ==>
      exists k :: 0 <= k < |c.decisions| && GoesBackTo(c.states[i].banned[ip], ip, i, c.decisions[k])
  }

  ghost predicate MessagesExplained(c: Cluster) {
    forall m :: m in c.sent ==>
      exists k :: 0 <= k < |c.decisions| && Announces(m, c.decisions[k])
  }

  predicate Announces(m: BanMessage, d: Decision) {
    m.ip == d.ip && m.duration == d.duration && m.sentAt == Unix(d.at)
  }

  lemma FreshEnough(name: string, m: BanMessage, now: real, d: Decision, i: nat)
    ensures Announces(m, d) && Receive(name, m, now).HandleBan? ==> GoesBackTo(now + m.duration, m.ip, i, d)
  {}

  // One step of one node's ban state: entries stay, go, or are the new ban.
  lemma StepEntries(cfg: Config, s: State, e: B.Event, ip: string)
    requires ip in B.Step(cfg, s, e).banned
    ensures (ip in s.banned && B.Step(cfg, s, e).banned[ip] == s.banned[ip])
      || (e.Ban? && e.ip == ip && B.Step(cfg, s, e).banned[ip] == e.now + e.duration)
  {}

  lemma {:induction false} RunExplained(nodes: seq<Node>, events: seq<Event>)
    ensures EntriesExplained(ClusterRun(nodes, events)) && MessagesExplained(ClusterRun(nodes, events))
  {
    if events != [] {
      RunExplained(nodes, events[..|events| - 1]);
      StepExplained(nodes, ClusterRun(nodes, events[..|events| - 1]), events[|events| - 1]);
    }
  }

  lemma {:induction false} StepExplained(nodes: seq<Node>, c: Cluster, e: Event)
    requires |c.states| == |nodes| && EntriesExplained(c) && MessagesExplained(c)
    ensures EntriesExplained(ClusterStep(nodes, c, e)) && MessagesExplained(ClusterStep(nodes, c, e))
  {
    var c' := ClusterStep(nodes, c, e);
    forall m | m in c'.sent
      ensures exists k :: 0 <= k < |c'.decisions| && Announces(m, c'.decisions[k])
    {
      if m in c.sent {
        var k :| 0 <= k < |c.decisions| && Announces(m, c.decisions[k]);
        assert Announces(m, c'.decisions[k]);
      } else {
        assert Announces(m, c'.decisions[|c.decisions|]);
      }
    }
    forall i, ip | 0 <= i < |c'.states| && ip in c'.states[i].banned
      ensures exists k :: 0 <= k < |c'.decisions| && GoesBackTo(c'.states[i].banned[ip], ip, i, c'.decisions[k])
    {
      EntryExplained(nodes, c, e, i, ip);
    }
  }

  lemma {:induction false} EntryExplained(nodes: seq<Node>, c: Cluster, e: Event, i: nat, ip: string)
    requires |c.states| == |nodes| && EntriesExplained(c) && MessagesExplained(c)
    requires i < |c.states| && ip in ClusterStep(nodes, c, e).states[i].banned
    ensures var c' := ClusterStep(nodes, c, e);
      exists k :: 0 <= k < |c'.decisions| && GoesBackTo(c'.states[i].banned[ip], ip, i, c'.decisions[k])
  {
    hide B.Step, GoesBackTo, Announces, Receive;
    var c' := ClusterStep(nodes, c, e);
    var expiry := c'.states[i].banned[ip];
    if ip in c.states[i].banned && c.states[i].banned[ip] == expiry {
      var k :| 0 <= k < |c.decisions| && GoesBackTo(expiry, ip, i, c.decisions[k]);
      assert c'.decisions[k] == c.decisions[k];
    } else {
      var cfg, s := nodes[i].cfg, c.states[i];
      match e {
        case Decide(_, x, duration, now) =>
          StepEntries(cfg, s, Ban(x, duration, now), ip);
          OwnDecision(i, ip, duration, now);
          assert c'.decisions[|c.decisions|] == Decision(i, ip, duration, now);
        case Deliver(_, msg, now) =>
          HandledIsMessage(nodes[i].name, msg, now);
          StepEntries(cfg, s, Ban(msg.ip, msg.duration, now), ip);
          var k :| 0 <= k < |c.decisions| && Announces(msg, c.decisions[k]);
          FreshEnough(nodes[i].name, msg, now, c.decisions[k], i);
          assert c'.decisions[k] == c.decisions[k];
        case Local(_, step) => StepEntries(cfg, s, step, ip);
      }
    }
  }

  lemma OwnDecision(i: nat, ip: string, duration: real, now: real)
    ensures GoesBackTo(now + duration, ip, i, Decision(i, ip, duration, now))
  {}

  lemma HandledIsMessage(name: string, msg: BanMessage, now: real)
    ensures Receive(name, msg, now).HandleBan? ==> Receive(name, msg, now) == HandleBan(msg.ip, msg.duration)
  {}

  // MAIN RESULT. However messages are lost, repeated and reordered, every ban
  // on every node goes back to some node's own decision for that address and
  // expires less than 61 s after that decision's own ban would.
  lemma {:induction false} BanProvenance(nodes: seq<Node>, events: seq<Event>, i: nat, ip: string)
    requires i < |nodes| && ip in ClusterRun(nodes, events).states[i].banned
    ensures var c := ClusterRun(nodes, events);
      exists d :: d in c.decisions && d.ip == ip && c.states[i].banned[ip] < d.at + d.duration + 61.0
  {
    RunExplained(nodes, events);
    var c := ClusterRun(nodes, events);
    var k :| 0 <= k < |c.decisions| && GoesBackTo(c.states[i].banned[ip], ip, i, c.decisions[k]);
    assert c.decisions[k] in c.decisions;
  }

  // Every decision was one, made by a node that accepted it.
  lemma {:induction false} DecisionsAreEvents(nodes: seq<Node>, events: seq<Event>, k: nat)
    requires k < |ClusterRun(nodes, events).decisions|
    ensures var d := ClusterRun(nodes, events).decisions[k];
      d.node < |nodes| && Accepts(nodes[d.node], d.ip) && Decide(d.node, d.ip, d.duration, d.at) in events
  {
    var before := events[..|events| - 1];
    assert forall x :: x in before ==> x in events;
    if k < |ClusterRun(nodes, before).decisions| {
      DecisionsAreEvents(nodes, before, k);
    } else {
      assert events[|events| - 1] in events;
    }
  }

  // MAIN RESULT. Taking over a remote ban sends nothing, so there are never
  // more broadcasts than local decisions, nor more messages than broadcasts.
  lemma {:induction false} BroadcastsBounded(nodes: seq<Node>, events: seq<Event>)
    ensures var c := ClusterRun(nodes, events);
      |c.sent| <= c.broadcasts <= |c.decisions| <= |events|
  {
    if events != [] {
      BroadcastsBounded(nodes, events[..|events| - 1]);
      var c, e := ClusterRun(nodes, events[..|events| - 1]), events[|events| - 1];
      hide B.Step;
      if e.Decide? && e.node < |nodes| {
        var m := BanMessage("ban", e.ip, e.duration, nodes[e.node].name, Unix(e.now));
        assert |c.sent + {m}| <= |c.sent| + 1;
      }
    }
  }

  // ---- Leader choice ----------------------------------------------------

  // Go's < on strings.
  predicate Less(a: string, b: string) {
    b != "" && (a == "" || a[0] < b[0] || (a[0] == b[0] && Less(a[1..], b[1..])))
  }

  lemma {:induction false} LessTotal(a: string, b: string)
    ensures Less(a, b) || a == b || Less(b, a)
    ensures !(Less(a, b) && Less(b, a)) && !Less(a, a)
  {
    if a != "" && b != "" && a[0] == b[0] {
      LessTotal(a[1..], b[1..]);
      assert a == [a[0]] + a[1..] && b == [b[0]] + b[1..];
    }
    if a != "" {
      LessTotal(a[1..], a[1..]);
    }
  }

  lemma {:induction false} LessTransitive(a: string, b: string, c: string)
    requires Less(a, b) && Less(b, c)
    ensures Less(a, c)
  {
    if a != "" && a[0] == b[0] == c[0] {
      LessTransitive(a[1..], b[1..], c[1..]);
    }
  }

  predicate Leads(mine: string, members: seq<string>) {
    |members| <= 1 || forall i :: 0 <= i < |members| ==> !Less(members[i], mine)
  }

  // MAIN RESULT. Nodes that agree on the members, all with different keys,
  // agree on one leader.
  lemma {:induction false} ExactlyOneLeader(members: seq<string>) returns (leader: nat)
    requires members != [] && forall i, j :: 0 <= i < j < |members| ==> members[i] != members[j]
    ensures leader < |members|
    ensures forall i :: 0 <= i < |members| ==> (Leads(members[i], members) <==> i == leader)
  {
    Lowest(members);
    leader :| IsLowest(members, leader);
    forall i | 0 <= i < |members| && i != leader
      ensures |members| > 1 && Less(members[leader], members[i])
    {
      LessTotal(members[leader], members[i]);
    }
  }

  predicate IsLowest(members: seq<string>, k: nat) {
    k < |members| && forall i :: 0 <= i < |members| ==> !Less(members[i], members[k])
  }

  lemma {:induction false} Lowest(members: seq<string>)
    requires members != []
    ensures exists k: nat :: IsLowest(members, k)
  {
    var m := |members| - 1;
    if m == 0 {
      LessTotal(members[0], members[0]);
      assert IsLowest(members, 0);
    } else {
      Lowest(members[..m]);
      var k: nat :| IsLowest(members[..m], k);
      if Less(members[m], members[k]) {
        forall i | 0 <= i < |members| ensures !Less(members[i], members[m]) {
          LessTotal(members[m], members[m]);
          if i < m && Less(members[i], members[m]) {
            LessTransitive(members[i], members[m], members[k]);
          }
        }
        assert IsLowest(members, m);
      } else {
        assert IsLowest(members, k);
      }
    }
  }

  // ---- The object -------------------------------------------------------

  class MeshNode {
    const name: string
    var queue: seq<BanMessage>

    constructor (name: string)
      ensures this.name == name && queue == []
    {
      this.name, queue := name, [];
    }

    method BroadcastBan(ip: string, duration: real, now: real)
      modifies this
      ensures queue == old(queue) + [BanMessage("ban", ip, duration, name, Unix(now))]
    {
      queue := queue + [BanMessage("ban", ip, duration, name, Unix(now))];
    }

    // The ban branch of NotifyMsg; the result is what the handlers get.
    method NotifyMsg(msg: BanMessage, now: real) returns (h: Handled)
      ensures h == Receive(name, msg, now)
    {
      if msg.ip != "" || msg.action != "" {
        if msg.source == name {
          return Ignored;
        }
        if Unix(now) - msg.sentAt > MAX_AGE {
          return Ignored;
        }
        if msg.action == "unban" {
          return HandleUnban(msg.ip);
        }
        if msg.action == "unban_all" {
          return HandleUnban("all");
        }
        return HandleBan(msg.ip, msg.duration);
      }
      return Ignored;
    }

    // members are the keys name_address of the nodes in the member list.
    method IsLeader(myKey: string, members: seq<string>) returns (leads: bool)
      ensures leads == Leads(myKey, members)
    {
      if |members| <= 1 {
        return true;
      }
      var lowest := myKey;
      LessTotal(myKey, myKey);
      for k := 0 to |members|
        invariant lowest == myKey || Less(lowest, myKey)
        invariant lowest == myKey ==> forall j :: 0 <= j < k ==> !Less(members[j], myKey)
        invariant lowest != myKey ==> exists j :: 0 <= j < k && members[j] == lowest
      {
        var key := members[k];
        if Less(key, lowest) {
          if lowest != myKey {
            LessTransitive(key, lowest, myKey);
          }
          LessTotal(myKey, key);
          lowest := key;
        }
      }
      leads := myKey == lowest;
    }
  }

  // A node of the mesh with its ban pipeline, wired as main.go does.
  class Edge {
    const pipeline: Pipeline
    const mesh: MeshNode

    constructor (pipeline: Pipeline, mesh: MeshNode)
      ensures this.pipeline == pipeline && this.mesh == mesh
    {
      this.pipeline, this.mesh := pipeline, mesh;
    }

    ghost predicate Valid()
      reads pipeline, pipeline.banned, pipeline.banned.shards, pipeline.xdpMgr
    {
      pipeline.Valid()
    }

    // BanIPLocal with its broadcast.
    method Decide(ip: string, duration: real, now: real, scanned: bool)
      requires Valid()
      modifies pipeline`bannedIPs, pipeline.banned, pipeline.banned.shards, pipeline.xdpMgr.bpfMap, mesh
      ensures Valid()
      ensures if ip == "" || scanned || Protected(pipeline.cfg, ip)
        then pipeline.View() == old(pipeline.View()) && mesh.queue == old(mesh.queue)
        else
          && pipeline.View() == B.Step(pipeline.cfg, old(pipeline.View()), Ban(ip, duration, now))
          && mesh.queue == old(mesh.queue) + [BanMessage("ban", ip, duration, mesh.name, Unix(now))]
    {
      var broadcast := pipeline.BanIPLocal(ip, duration, now, scanned);
      if broadcast {
        mesh.BroadcastBan(ip, duration, now);
      }
    }

    // A message arrives; bans are taken over without a broadcast.
    method Deliver(msg: BanMessage, now: real) returns (h: Handled)
      requires Valid()
      modifies pipeline`bannedIPs, pipeline.banned, pipeline.banned.shards, pipeline.xdpMgr.bpfMap
      ensures Valid() && h == Receive(mesh.name, msg, now)
      ensures pipeline.View() ==
        if h.HandleBan? then B.Step(pipeline.cfg, old(pipeline.View()), Ban(h.ip, h.duration, now))
        else old(pipeline.View())
    {
      h := mesh.NotifyMsg(msg, now);
      if h.HandleBan? {
        pipeline.BanIPRemote(h.ip, h.duration, now);
      }
    }
  }
}
