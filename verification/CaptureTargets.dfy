/** Which pods and nodes a capture runs on, grouped by node (pkg/capture/crd_to_job.go). */
module CaptureTargets {

  datatype Pod = Pod(node: string, ips: seq<string>)

  datatype Target = Target(podIps: seq<string>, nodeInterface: bool, os: string)

  // ----- what the grouping means -----

  function Block(node: string, ips: seq<string>): (block: seq<(string, string)>)
    ensures |block| == |ips| && forall i | 0 <= i < |ips| :: block[i] == (node, ips[i])
  {
    seq(|ips|, i requires 0 <= i < |ips| => (node, ips[i]))
  }

  /** Every pod address with the node its pod runs on, in listing order. */
  function Tagged(pods: seq<Pod>): seq<(string, string)>
  {
    if pods == [] then []
    else
      var last := pods[|pods| - 1];
      Tagged(pods[..|pods| - 1]) + Block(last.node, last.ips)
  }

  /** The addresses of the pods on one node, in listing order. */
  function IpsOn(pods: seq<Pod>, node: string): seq<string>
  {
    if pods == [] then []
    else
      var last := pods[|pods| - 1];
      IpsOn(pods[..|pods| - 1], node) + (if last.node == node then last.ips else [])
  }

  function NodesOf(pods: seq<Pod>): set<string> { set pod | pod in pods :: pod.node }

  function PodTargets(pods: seq<Pod>): map<string, Target>
  {
    map n | n in NodesOf(pods) :: Target(IpsOn(pods, n), false, "")
  }

  function OnNode(tagged: seq<(string, string)>, node: string): seq<string>
  {
    if tagged == [] then []
    else
      var last := tagged[|tagged| - 1];
      OnNode(tagged[..|tagged| - 1], node) + (if last.0 == node then [last.1] else [])
  }

  lemma {:induction false} OnNodeConcat(a: seq<(string, string)>, b: seq<(string, string)>, node: string)
    ensures OnNode(a + b, node) == OnNode(a, node) + OnNode(b, node)
  {
    if b == [] {
      assert a + b == a;
    } else {
      var n := |b| - 1;
      assert (a + b)[..|a| + n] == a + b[..n];
      OnNodeConcat(a, b[..n], node);
    }
  }

  lemma {:induction false} OnNodeBlock(host: string, ips: seq<string>, node: string)
    ensures OnNode(Block(host, ips), node) == if host == node then ips else []
  {
    if ips != [] {
      var n := |ips| - 1;
      OnNodeBlock(host, ips[..n], node);
      assert Block(host, ips)[..n] == Block(host, ips[..n]);
      assert ips == ips[..n] + [ips[n]];
    }
  }

  /** The per-node lists are the order-preserving partition of all listed addresses by node. */
  lemma {:induction false} IpsOnPartitions(pods: seq<Pod>, node: string)
    ensures IpsOn(pods, node) == OnNode(Tagged(pods), node)
  {
    if pods != [] {
      var front, last := pods[..|pods| - 1], pods[|pods| - 1];
      IpsOnPartitions(front, node);
      OnNodeConcat(Tagged(front), Block(last.node, last.ips), node);
      OnNodeBlock(last.node, last.ips, node);
    }
  }

  /** None is lost, moved or repeated: on every node each address occurs as often as it was listed
      for that node. */
  lemma {:induction false} NoneLostOrMoved(tagged: seq<(string, string)>, node: string, ip: string)
    ensures multiset(OnNode(tagged, node))[ip] == multiset(tagged)[(node, ip)]
  {
    if tagged != [] {
      var n := |tagged| - 1;
      NoneLostOrMoved(tagged[..n], node, ip);
      assert tagged == tagged[..n] + [tagged[n]];
    }
  }

  /** A node is a target exactly when a selected pod runs on it, even a pod without addresses. */
  lemma TargetsAreNodes(pods: seq<Pod>, node: string)
    ensures node in PodTargets(pods) <==> exists pod | pod in pods :: pod.node == node
    ensures node in PodTargets(pods) ==> PodTargets(pods)[node].podIps == OnNode(Tagged(pods), node)
  {
    IpsOnPartitions(pods, node);
  }

  lemma {:induction false} NoIps(pods: seq<Pod>, node: string)
    requires node !in NodesOf(pods)
    ensures IpsOn(pods, node) == []
  {
    if pods != [] {
      var n := |pods| - 1;
      assert pods[n].node in NodesOf(pods);
      assert NodesOf(pods[..n]) <= NodesOf(pods);
      NoIps(pods[..n], node);
    }
  }

  function AddedPod(targets: map<string, Target>, pod: Pod): map<string, Target>
  {
    targets[pod.node := if pod.node in targets
                        then targets[pod.node].(podIps := targets[pod.node].podIps + pod.ips)
                        else Target(pod.ips, false, "")]
  }

  lemma NodesOfStep(pods: seq<Pod>, pod: Pod)
    ensures NodesOf(pods + [pod]) == NodesOf(pods) + {pod.node}
  {
    assert pod in pods + [pod];
    forall q | q in pods ensures q in pods + [pod] {}
  }

  lemma IpsOnStep(pods: seq<Pod>, pod: Pod, node: string)
    ensures IpsOn(pods + [pod], node) == IpsOn(pods, node) + (if pod.node == node then pod.ips else [])
  {
    assert (pods + [pod])[..|pods|] == pods;
  }

  lemma PodTargetsStep(pods: seq<Pod>, pod: Pod)
    ensures PodTargets(pods + [pod]) == AddedPod(PodTargets(pods), pod)
  {
    var l, r := PodTargets(pods + [pod]), AddedPod(PodTargets(pods), pod);
    NodesOfStep(pods, pod);
    forall n | n in l ensures n in r && l[n] == r[n] {
      IpsOnStep(pods, pod, n);
      if n !in NodesOf(pods) {
        NoIps(pods, n);
      }
    }
    assert l.Keys == r.Keys;
  }

  // ----- what a Capture selects -----

  /** What is left of the three selectors after validateTargetSelector: pods, by selector or by name,
      or nodes, as the API server lists them. */
  datatype Selection = SelectedPods(pods: seq<Pod>) | SelectedNodes(names: seq<string>)

  function NodesSelected(sel: Selection): set<string>
  {
    match sel
    case SelectedPods(pods) => NodesOf(pods)
    case SelectedNodes(names) => set n | n in names
  }

  /** The selected pods' addresses on a node; a selected node is captured on its interface instead. */
  function IpsSelected(sel: Selection, node: string): seq<string>
  {
    match sel
    case SelectedPods(pods) => OnNode(Tagged(pods), node)
    case SelectedNodes(_) => []
  }

  // ----- the map and its updates -----

  class TargetsOnNode {
    var targets: map<string, Target>

    constructor ()
      ensures targets == map[]
    {
      targets := map[];
    }

    method AddPod(hostname: string, ips: seq<string>)
      modifies this
      ensures targets == AddedPod(old(targets), Pod(hostname, ips))
    {
      if hostname !in targets {
        targets := targets[hostname := Target(ips, false, "")];
      } else {
        var target := targets[hostname];
        targets := targets[hostname := target.(podIps := target.podIps + ips)];
      }
    }

    method AddNodeInterface(hostname: string)
      modifies this
      ensures targets == old(targets)[hostname := Target([], true, "")]
    {
      targets := targets[hostname := Target([], true, "")];
    }

    method UpdateNodeOS(hostname: string, os: string)
      modifies this
      ensures targets == if hostname in old(targets)
                         then old(targets)[hostname := old(targets)[hostname].(os := os)]
                         else old(targets)
    {
      if hostname in targets {
        targets := targets[hostname := targets[hostname].(os := os)];
      }
    }

    /** calculateCaptureTargetsByPodSelector and calculateCaptureTargetsByPodNames, given the pods. */
    method CollectPods(pods: seq<Pod>)
      requires targets == map[]
      modifies this
      ensures targets == PodTargets(pods)
    {
      for i := 0 to |pods|
        invariant targets == PodTargets(pods[..i])
      {
        assert pods[..i + 1] == pods[..i] + [pods[i]];
        PodTargetsStep(pods[..i], pods[i]);
        AddPod(pods[i].node, pods[i].ips);
      }
      assert pods[..|pods|] == pods;
    }

    /** calculateCaptureTargetsByNodeSelector, given the nodes. */
    method CollectNodes(nodes: seq<string>)
      requires targets == map[]
      modifies this
      ensures targets == map n | n in nodes :: Target([], true, "")
    {
      for i := 0 to |nodes|
        invariant targets == map n | n in nodes[..i] :: Target([], true, "")
      {
        assert nodes[..i + 1] == nodes[..i] + [nodes[i]];
        AddNodeInterface(nodes[i]);
      }
      assert nodes[..|nodes|] == nodes;
    }

    /** updateCaptureTargetsOSOnNode: the systems of the listed nodes, nothing else, are filled in. */
    method UpdateAllOS(nodes: seq<string>, os: map<string, string>)
      modifies this
      ensures targets.Keys == old(targets).Keys
      ensures forall n | n in targets ::
                targets[n] == if n in nodes
                              then old(targets)[n].(os := if n in os then os[n] else "")
                              else old(targets)[n]
    {
      for i := 0 to |nodes|
        invariant targets.Keys == old(targets).Keys
        invariant forall n | n in targets ::
                    targets[n] == if n in nodes[..i]
                                  then old(targets)[n].(os := if n in os then os[n] else "")
                                  else old(targets)[n]
      {
        assert nodes[..i + 1] == nodes[..i] + [nodes[i]];
        UpdateNodeOS(nodes[i], if nodes[i] in os then os[nodes[i]] else "");
      }
      assert nodes[..|nodes|] == nodes;
    }
  }
}
