// What the ban messages of cluster/gossip.go bring about on the nodes that receive them.
module Replications {
  import opened Gossip
  import B = BanStates

  // What happens to the ban table of node j.
  function OnNode(nodes: seq<Node>, events: seq<Event>, j: nat): seq<B.Event>
    requires j < |nodes|
  {
    if events == [] then []
    else
      var before, e := events[..|events| - 1], events[|events| - 1];
      OnNode(nodes, before, j) + Effect(nodes, ClusterRun(nodes, before), e, j)
  }

  function Effect(nodes: seq<Node>, c: Cluster, e: Event, j: nat): seq<B.Event>
    requires j < |nodes|
  {
    if e.node != j then []
    else
      match e
      case Decide(_, ip, duration, now) =>
        if ip != "" && !nodes[j].scanned(ip) then [B.Ban(ip, duration, now)] else []
      case Deliver(_, msg, now) =>
        if nodes[j].meshed && msg in c.sent && msg.source != nodes[j].name && now.Floor - msg.sentAt <= 60
        then [B.Ban(msg.ip, msg.duration, now)] else []
      case Local(_, step) => if step.Ban? then [] else [step]
  }

  // Only bans are sent.
  lemma {:induction false} SentAreBans(nodes: seq<Node>, events: seq<Event>, m: BanMessage)
    requires m in ClusterRun(nodes, events).sent
    ensures m.action == "ban"
  {
    if m in ClusterRun(nodes, events[..|events| - 1]).sent {
      SentAreBans(nodes, events[..|events| - 1], m);
    }
  }

  // A message stays in the network.
  lemma {:induction false} SentStays(nodes: seq<Node>, events: seq<Event>, d: nat, r: nat, m: BanMessage)
    requires d <= r <= |events| && m in ClusterRun(nodes, events[..d]).sent
    ensures m in ClusterRun(nodes, events[..r]).sent
    decreases r
  {
    if d < r {
      SentStays(nodes, events, d, r - 1, m);
      assert events[..r][..r - 1] == events[..r - 1];
    }
  }

  // Node j is a pipeline that runs through these events.
  lemma {:induction false} NodeIsPipeline(nodes: seq<Node>, events: seq<Event>, j: nat)
    requires j < |nodes|
    ensures ClusterRun(nodes, events).states[j] == B.Run(nodes[j].cfg, nodes[j].found, OnNode(nodes, events, j))
  {
    if events != [] {
      var before, e := events[..|events| - 1], events[|events| - 1];
      NodeIsPipeline(nodes, before, j);
      StepOnNode(nodes, before, e, j);
      RunMore(nodes[j], OnNode(nodes, before, j), Effect(nodes, ClusterRun(nodes, before), e, j));
    }
  }

  lemma RunMore(node: Node, before: seq<B.Event>, more: seq<B.Event>)
    requires |more| <= 1
    ensures B.Run(node.cfg, node.found, before + more) ==
      if more == [] then B.Run(node.cfg, node.found, before)
      else B.Step(node.cfg, B.Run(node.cfg, node.found, before), more[0])
  {
    if more == [] {
      assert before + more == before;
    } else {
      assert (before + more)[..|before|] == before;
    }
  }

  lemma {:induction false} StepOnNode(nodes: seq<Node>, before: seq<Event>, e: Event, j: nat)
    requires j < |nodes|
    ensures var c := ClusterRun(nodes, before);
      var effect := Effect(nodes, c, e, j);
      && |effect| <= 1
      && ClusterStep(nodes, c, e).states[j] ==
         if effect == [] then c.states[j] else B.Step(nodes[j].cfg, c.states[j], effect[0])
  {
    var c := ClusterRun(nodes, before);
    if e.Deliver? && e.msg in c.sent {
      SentAreBans(nodes, before, e.msg);
    }
    hide ClusterRun;
  }

  // A node's own message, or one more than a minute old, changes nothing anywhere.
  lemma {:induction false} EchoIgnored(nodes: seq<Node>, events: seq<Event>, j: nat, msg: BanMessage, now: real)
    requires j < |nodes| && (msg.source == nodes[j].name || now.Floor > msg.sentAt + 60)
    ensures ClusterRun(nodes, events + [Deliver(j, msg, now)]) == ClusterRun(nodes, events)
  {
    assert (events + [Deliver(j, msg, now)])[..|events|] == events;
  }

  // ---- A replicated ban -------------------------------------------------

  // Neither bans the address again on node j nor lifts the ban.
  predicate Spares(e: Event, j: nat, ip: string) {
    e.node == j ==>
      match e
      case Decide(_, x, _, _) => x != ip
      case Deliver(_, msg, _) => msg.ip != ip
      case Local(_, step) => !step.UnbanAll? && (step.Unban? ==> step.ip != ip)
  }

  lemma {:induction false} LatestStays(nodes: seq<Node>, events: seq<Event>, j: nat, ip: string, r: nat, n: nat)
    requires j < |nodes| && r <= n <= |events|
    requires forall k :: r <= k < n ==> Spares(events[k], j, ip)
    ensures B.Latest(nodes[j].cfg, OnNode(nodes, events[..n], j), ip)
         == B.Latest(nodes[j].cfg, OnNode(nodes, events[..r], j), ip)
    decreases n
  {
    if r < n {
      LatestStays(nodes, events, j, ip, r, n - 1);
      assert events[..n][..n - 1] == events[..n - 1];
      var before, c := events[..n - 1], ClusterRun(nodes, events[..n - 1]);
      hide B.Latest, ClusterRun, Spares, Effect;
      assert OnNode(nodes, events[..n], j) == OnNode(nodes, before, j) + Effect(nodes, c, events[n - 1], j);
      hide OnNode;
      LatestSpared(nodes, OnNode(nodes, before, j), c, events[n - 1], j, ip);
    }
  }

  lemma {:induction false} LatestSpared(
    nodes: seq<Node>, before: seq<B.Event>, c: Cluster, e: Event, j: nat, ip: string)
    requires j < |nodes| && Spares(e, j, ip)
    ensures var cfg, effect := nodes[j].cfg, Effect(nodes, c, e, j);
      B.Latest(cfg, before + effect, ip) == B.Latest(cfg, before, ip)
  {
    var effect := Effect(nodes, c, e, j);
    if effect == [] {
      assert before + effect == before;
    } else {
      assert (before + effect)[..|before|] == before;
    }
  }

  lemma {:induction false} Announced(nodes: seq<Node>, events: seq<Event>, d: nat)
    requires d < |events| && events[d].Decide? && events[d].node < |nodes|
    requires nodes[events[d].node].meshed && Accepts(nodes[events[d].node], events[d].ip)
    ensures var e := events[d];
      BanMessage("ban", e.ip, e.duration, nodes[e.node].name, e.now.Floor) in ClusterRun(nodes, events[..d + 1]).sent
  {
    assert events[..d + 1][..d] == events[..d];
  }

  // MAIN RESULT. A decision of one meshed node, delivered to another within sixty whole seconds,
  // bans the address there from its delivery on for the decision's duration, unless that node
  // protects it; that stands in every run of the cluster, whatever else is decided, delivered,
  // lost and repeated, until the node bans the address anew or lifts the ban.
  lemma {:induction false} DeliveredBanHolds(
    nodes: seq<Node>, events: seq<Event>, d: nat, r: nat, i: nat, j: nat, ip: string, duration: real,
    at: real, now: real, t: real)
    requires i < |nodes| && j < |nodes| && nodes[i].meshed && nodes[j].meshed && nodes[i].name != nodes[j].name
    requires d < r < |events| && events[d] == Decide(i, ip, duration, at) && Accepts(nodes[i], ip)
    requires events[r] == Deliver(j, BanMessage("ban", ip, duration, nodes[i].name, at.Floor), now)
    requires now.Floor <= at.Floor + 60
    requires forall k :: r < k < |events| ==> Spares(events[k], j, ip)
    requires B.Timely(OnNode(nodes, events, j), t)
    ensures B.IsBanned(nodes[j].cfg, ClusterRun(nodes, events).states[j], ip, t) <==>
      !nodes[j].cfg.trusted(ip) && !nodes[j].cfg.whitelisted(ip) && t <= now + duration
  {
    hide *;
    var msg := BanMessage("ban", ip, duration, nodes[i].name, at.Floor);
    Announced(nodes, events, d);
    SentStays(nodes, events, d + 1, r, msg);
    TakenOver(nodes, events, r, j);
    LatestStays(nodes, events, j, ip, r + 1, |events|);
    assert events[..|events|] == events;
    NodeIsPipeline(nodes, events, j);
    B.LazyExpiryRefinesHistory(nodes[j].cfg, nodes[j].found, OnNode(nodes, events, j), ip, t);
  }

  lemma {:induction false} TakenOver(nodes: seq<Node>, events: seq<Event>, r: nat, j: nat)
    requires j < |nodes| && nodes[j].meshed && r < |events| && events[r].Deliver? && events[r].node == j
    requires var m := events[r].msg;
      m in ClusterRun(nodes, events[..r]).sent && m.source != nodes[j].name && events[r].now.Floor - m.sentAt <= 60
    ensures var m := events[r].msg;
      !nodes[j].cfg.trusted(m.ip) && !nodes[j].cfg.whitelisted(m.ip) ==>
        B.Latest(nodes[j].cfg, OnNode(nodes, events[..r + 1], j), m.ip) == B.Entry(events[r].now + m.duration)
  {
    assert events[..r + 1][..r] == events[..r];
    var before := OnNode(nodes, events[..r], j);
    var m := events[r].msg;
    assert OnNode(nodes, events[..r + 1], j) == before + [B.Ban(m.ip, m.duration, events[r].now)];
  }

  // Which handler gets what: only messages of other nodes that are at most sixty whole seconds old
  // reach one, unban and unban_all the unban handler, any other action the ban handler.
  lemma HandlersGet(name: string, msg: BanMessage, now: real)
    ensures var live := msg.source != name && now.Floor <= msg.sentAt + 60 && !(msg.ip == "" && msg.action == "");
      var unban := msg.action in {"unban", "unban_all"};
      && (Receive(name, msg, now).Ignored? <==> !live)
      && (forall target :: Receive(name, msg, now) == HandleUnban(target) <==>
            live && unban && target == if msg.action == "unban" then msg.ip else "all")
      && (forall ip, duration :: Receive(name, msg, now) == HandleBan(ip, duration) <==>
            live && !unban && ip == msg.ip && duration == msg.duration)
  {}
}
