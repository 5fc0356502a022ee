/** One job per target node: its environment, made from the common one, and what its container sees
    (pkg/capture/crd_to_job.go, pkg/capture/capture_manager.go). */
module CaptureJobs {
  import opened GoStrings
  import opened AddressClauses
  import opened CaptureTargets

  const CAPTURE_NAME := "CAPTURE_NAME"
  const NODE_HOST_NAME := "NODE_HOST_NAME"
  const CAPTURE_START_TIMESTAMP := "CAPTURE_START_TIMESTAMP"
  const TCPDUMP_FILTER := "TCPDUMP_FILTER"
  const TCPDUMP_RAW_FILTER := "TCPDUMP_RAW_FILTER"
  const PCAP_FILTER := "PCAP_FILTER"
  const NETSH_FILTER := "NETSH_FILTER"
  const HANDOFF := "__netsh_source_dest_filter__"
  const ENTRYPOINT := "./retina/captureworkload"
  const ENTRYPOINT_WIN := "captureworkload.exe"

  type Env = map<string, string>

  function Get(e: Env, key: string): string { if key in e then e[key] else "" }

  datatype EnvVar = EnvVar(name: string, value: string)

  datatype Job = Job(node: string, filename: string, command: string, env: seq<EnvVar>)

  /** What rendering takes from outside: the template's variables, the start time as annotated, the
      canonical form of a time (parse, then print), and the netsh text of an address list. */
  datatype Context = Context(
    template: seq<EnvVar>, timestamp: string, canonicalTime: string -> Option<string>,
    netsh: (string, seq<string>) -> string)

  function Filename(name: string, node: string, time: string): string
  {
    name + "-" + node + "-" + time
  }

  // ----- the environment of one job -----

  function LinuxEnv(target: Target, common: Env): Env
  {
    var e := common - {NETSH_FILTER, HANDOFF};
    var filter := WithPodAddresses(target.podIps, Get(e, TCPDUMP_FILTER));
    if filter != "" then e[TCPDUMP_FILTER := filter] else e
  }

  function NetshFilter(netsh: (string, seq<string>) -> string, target: Target, common: Env): string
  {
    var pods, ends := netsh("Address", target.podIps), Get(common, HANDOFF);
    if pods == "" then ends else if ends == "" then pods else pods + " " + ends
  }

  function WindowsEnv(netsh: (string, seq<string>) -> string, target: Target, common: Env): Env
  {
    var e := common - {TCPDUMP_FILTER, HANDOFF};
    var filter := NetshFilter(netsh, target, common);
    if filter != "" then e[NETSH_FILTER := filter] else e
  }

  function JobEnv(netsh: (string, seq<string>) -> string, target: Target, common: Env): Env
  {
    if target.os == "linux" then LinuxEnv(target, common) else WindowsEnv(netsh, target, common)
  }

  /** `vars` lists the entries of `e`, in some order. */
  ghost predicate Lists(vars: seq<EnvVar>, e: Env)
  {
    && (forall v | v in vars :: v.name in e && v.value == e[v.name])
    && (forall k | k in e :: EnvVar(k, e[k]) in vars)
    && |vars| == |e|
  }

  ghost predicate IsJobFor(ctx: Context, job: Job, node: string, target: Target, common: Env)
  {
    && job.node == node
    && ctx.canonicalTime(ctx.timestamp).Some?
    && job.filename == Filename(Get(common, CAPTURE_NAME), node, ctx.canonicalTime(ctx.timestamp).value)
    && job.command == (if target.os == "linux" then ENTRYPOINT else ENTRYPOINT_WIN)
    && exists vars | Lists(vars, JobEnv(ctx.netsh, target, common)) ::
         job.env == ctx.template + vars +
                    [EnvVar(NODE_HOST_NAME, node), EnvVar(CAPTURE_START_TIMESTAMP, ctx.timestamp)]
  }

  // ----- rendering -----

  /** A Go map of variables, shared by reference. */
  class EnvMap {
    var entries: Env

    constructor (entries: Env)
      ensures this.entries == entries
    {
      this.entries := entries;
    }
  }

  /** A job under construction, shared by reference. */
  class JobObject {
    var node: string
    var filename: string
    var command: string
    var env: seq<EnvVar>

    constructor (env: seq<EnvVar>)
      ensures View() == Job("", "", "", env)
    {
      node, filename, command, this.env := "", "", "", env;
    }

    function View(): Job
      reads this
    {
      Job(node, filename, command, env)
    }

    method DeepCopy() returns (copied: JobObject)
      ensures fresh(copied) && copied.View() == View()
    {
      copied := new JobObject(env);
      copied.node, copied.filename, copied.command := node, filename, command;
    }
  }

  function Views(jobs: seq<JobObject>): (views: seq<Job>)
    reads jobs
    ensures |views| == |jobs|
  {
    if jobs == [] then [] else Views(jobs[..|jobs| - 1]) + [jobs[|jobs| - 1].View()]
  }

  datatype RenderResult = NoNodes | BadTimestamp | Rendered(jobs: seq<Job>)

  method EnvInSomeOrder(e: Env) returns (vars: seq<EnvVar>)
    ensures Lists(vars, e)
  {
    vars := [];
    var todo := e.Keys;
    while todo != {}
      invariant todo <= e.Keys && |vars| + |todo| == |e|
      invariant forall v | v in vars :: v.name in e && v.value == e[v.name]
      invariant forall k | k in e && k !in todo :: EnvVar(k, e[k]) in vars
      decreases todo
    {
      var k :| k in todo;
      vars := vars + [EnvVar(k, e[k])];
      todo := todo - {k};
    }
  }

  lemma JoinUpToTwo(a: string, b: string)
    ensures Join([], " ") == "" && Join([a], " ") == a && Join([b], " ") == b
    ensures Join([a, b], " ") == a + " " + b
    ensures [] + [a] == [a] && [] + [b] == [b] && [a] + [b] == [a, b]
  {
    assert [a, b][1..] == [b];
  }

  /** The copy made for each job, key by key. */
  method CopyEnv(common: EnvMap) returns (jobEnv: EnvMap)
    ensures fresh(jobEnv) && jobEnv.entries == common.entries
  {
    jobEnv := new EnvMap(map[]);
    var todo := common.entries.Keys;
    while todo != {}
      invariant fresh(jobEnv) && todo <= common.entries.Keys
      invariant jobEnv.entries == map k | k in common.entries && k !in todo :: common.entries[k]
      decreases todo
    {
      var k :| k in todo;
      jobEnv.entries := jobEnv.entries[k := common.entries[k]];
      todo := todo - {k};
    }
  }

  /** A new map with the job's entries; the common one is only read. */
  method RenderEnv(ctx: Context, target: Target, common: EnvMap) returns (jobEnv: EnvMap)
    ensures fresh(jobEnv) && jobEnv.entries == JobEnv(ctx.netsh, target, common.entries)
  {
    jobEnv := CopyEnv(common);
    if target.os == "linux" {
      jobEnv.entries := jobEnv.entries - {NETSH_FILTER};
      jobEnv.entries := jobEnv.entries - {HANDOFF};
      var updated := UpdateTcpdumpFilterWithPodIPAddress(target.podIps, Get(jobEnv.entries, TCPDUMP_FILTER));
      assert jobEnv.entries == common.entries - {NETSH_FILTER, HANDOFF};
      if |updated| != 0 {
        jobEnv.entries := jobEnv.entries[TCPDUMP_FILTER := updated];
      }
    } else {
      jobEnv.entries := jobEnv.entries - {TCPDUMP_FILTER};
      var groups: seq<string> := [];
      var podFilter := ctx.netsh("Address", target.podIps);
      if podFilter != "" {
        groups := groups + [podFilter];
      }
      var endsFilter := Get(jobEnv.entries, HANDOFF);
      if endsFilter != "" {
        groups := groups + [endsFilter];
      }
      jobEnv.entries := jobEnv.entries - {HANDOFF};
      var filter := Join(groups, " ");
      assert endsFilter == Get(common.entries, HANDOFF);
      JoinUpToTwo(podFilter, endsFilter);
      assert filter == NetshFilter(ctx.netsh, target, common.entries);
      assert jobEnv.entries == common.entries - {TCPDUMP_FILTER, HANDOFF};
      if filter != "" {
        jobEnv.entries := jobEnv.entries[NETSH_FILTER := filter];
      }
    }
  }

  ghost predicate OneJobPerNode(jobs: seq<Job>, nodes: set<string>)
  {
    && (forall i, j | 0 <= i < j < |jobs| :: jobs[i].node != jobs[j].node)
    && (forall n :: n in nodes <==> exists i | 0 <= i < |jobs| :: jobs[i].node == n)
  }

  /** Jobs that stand for their own nodes: none shares anything with another. */
  ghost predicate JobsFor(ctx: Context, jobs: seq<Job>, targets: map<string, Target>, common: Env)
  {
    forall job | job in jobs :: job.node in targets && IsJobFor(ctx, job, job.node, targets[job.node], common)
  }

  ghost predicate DistinctFilenames(jobs: seq<Job>)
  {
    forall i, j | 0 <= i < j < |jobs| :: jobs[i].filename != jobs[j].filename
  }

  /** Renders every target from the shared template and the shared common environment, which stay as
      they are. */
  method RenderJob(ctx: Context, template: JobObject, targets: map<string, Target>, common: EnvMap)
    returns (r: RenderResult)
    requires template.env == ctx.template
    ensures r.NoNodes? <==> |targets| == 0
    ensures r.BadTimestamp? <==> |targets| != 0 && ctx.canonicalTime(ctx.timestamp).None?
    ensures r.Rendered? ==> OneJobPerNode(r.jobs, targets.Keys) && |r.jobs| == |targets|
    ensures r.Rendered? ==> JobsFor(ctx, r.jobs, targets, common.entries) && DistinctFilenames(r.jobs)
    ensures common.entries == old(common.entries) && template.View() == old(template.View())
  {
    if |targets| == 0 {
      return NoNodes;
    }
    var time := ctx.canonicalTime(ctx.timestamp);
    if time.None? {
      return BadTimestamp;
    }
    var jobs := RenderTargets(ctx, template, targets, common);
    r := Rendered(Views(jobs));
    JobFilenamesDiffer(ctx, r.jobs, targets, common.entries);
  }

  /** The jobs rendered so far, for the nodes in `done`. */
  ghost predicate RenderedSoFar(
    ctx: Context, jobs: seq<JobObject>, targets: map<string, Target>, done: set<string>, common: EnvMap)
    reads jobs, common
  {
    OneJobPerNode(Views(jobs), done) && JobsFor(ctx, Views(jobs), targets, common.entries)
  }

  lemma NoneRendered(ctx: Context, targets: map<string, Target>, common: EnvMap)
    ensures RenderedSoFar(ctx, [], targets, {}, common)
  {
    hide IsJobFor;
  }

  method RenderTargets(ctx: Context, template: JobObject, targets: map<string, Target>, common: EnvMap)
    returns (jobs: seq<JobObject>)
    requires ctx.canonicalTime(ctx.timestamp).Some? && template.env == ctx.template
    ensures |jobs| == |targets| && RenderedSoFar(ctx, jobs, targets, targets.Keys, common)
  {
    hide RenderedSoFar;
    jobs := [];
    var todo := targets.Keys;
    NoneRendered(ctx, targets, common);
    assert targets.Keys - todo == {};
    while todo != {}
      invariant todo <= targets.Keys && |jobs| + |todo| == |targets|
      invariant RenderedSoFar(ctx, jobs, targets, targets.Keys - todo, common)
      decreases todo
    {
      var node :| node in todo;
      assert targets.Keys - (todo - {node}) == (targets.Keys - todo) + {node};
      var job := RenderNext(ctx, template, targets, common, jobs, targets.Keys - todo, node);
      jobs := jobs + [job];
      todo := todo - {node};
    }
    assert targets.Keys - todo == targets.Keys;
  }

  /** One turn of the loop; no job rendered before changes. */
  method RenderNext(
    ctx: Context, template: JobObject, targets: map<string, Target>, common: EnvMap,
    ghost jobs: seq<JobObject>, ghost done: set<string>, node: string)
    returns (job: JobObject)
    requires ctx.canonicalTime(ctx.timestamp).Some? && template.env == ctx.template
    requires node in targets && node !in done && RenderedSoFar(ctx, jobs, targets, done, common)
    ensures RenderedSoFar(ctx, jobs + [job], targets, done + {node}, common)
  {
    hide IsJobFor, OneJobPerNode;
    job := RenderOne(ctx, template, node, targets[node], common);
    assert (jobs + [job])[..|jobs|] == jobs;
    OneMoreJob(Views(jobs), job.View(), done);
  }

  lemma OneMoreJob(jobs: seq<Job>, job: Job, nodes: set<string>)
    requires OneJobPerNode(jobs, nodes) && job.node !in nodes
    ensures OneJobPerNode(jobs + [job], nodes + {job.node})
  {
    var more := jobs + [job];
    forall n ensures n in nodes + {job.node} <==> exists i | 0 <= i < |more| :: more[i].node == n {
      if n in nodes {
        var i :| 0 <= i < |jobs| && jobs[i].node == n;
        assert more[i].node == n;
      }
      if n == job.node {
        assert more[|jobs|].node == n;
      }
    }
    forall i, j | 0 <= i < j < |more| ensures more[i].node != more[j].node {
      assert jobs[i].node in nodes;
    }
  }

  /** A copy of the template with the node's affinity, file name, command and variables. */
  method RenderOne(ctx: Context, template: JobObject, node: string, target: Target, common: EnvMap)
    returns (job: JobObject)
    requires ctx.canonicalTime(ctx.timestamp).Some? && template.env == ctx.template
    ensures fresh(job) && job.View().node == node && IsJobFor(ctx, job.View(), node, target, common.entries)
  {
    var jobEnv := RenderEnv(ctx, target, common);
    job := template.DeepCopy();
    job.filename := Filename(Get(common.entries, CAPTURE_NAME), node, ctx.canonicalTime(ctx.timestamp).value);
    job.node := node;
    job.command := if target.os == "linux" then ENTRYPOINT else ENTRYPOINT_WIN;
    var vars := EnvInSomeOrder(jobEnv.entries);
    job.env := job.env + vars;
    job.env := job.env + [EnvVar(NODE_HOST_NAME, node)];
    job.env := job.env + [EnvVar(CAPTURE_START_TIMESTAMP, ctx.timestamp)];
    assert job.env == ctx.template + vars +
                      [EnvVar(NODE_HOST_NAME, node), EnvVar(CAPTURE_START_TIMESTAMP, ctx.timestamp)];
  }

  // ----- reading the environment in the container -----

  /** The last definition of a variable is the one a container sees. */
  function Getenv(env: seq<EnvVar>, key: string): string
  {
    if env == [] then ""
    else if env[|env| - 1].name == key then env[|env| - 1].value
    else Getenv(env[..|env| - 1], key)
  }

  predicate Defines(env: seq<EnvVar>, key: string) { exists v | v in env :: v.name == key }

  lemma {:induction false} GetenvConcat(a: seq<EnvVar>, b: seq<EnvVar>, key: string)
    ensures Getenv(a + b, key) == if Defines(b, key) then Getenv(b, key) else Getenv(a, key)
  {
    if b == [] {
      assert a + b == a;
    } else {
      var n := |b| - 1;
      assert (a + b)[..|a| + n] == a + b[..n];
      assert b == b[..n] + [b[n]];
      GetenvConcat(a, b[..n], key);
      assert b[n] in b;
    }
  }

  lemma {:induction false} GetenvFound(env: seq<EnvVar>, key: string)
    ensures Defines(env, key) ==> EnvVar(key, Getenv(env, key)) in env
    ensures !Defines(env, key) ==> Getenv(env, key) == ""
  {
    if env != [] {
      var n := |env| - 1;
      assert env == env[..n] + [env[n]];
      assert env[n] in env;
      GetenvFound(env[..n], key);
    }
  }

  predicate AddedByRenderer(key: string) { key == NODE_HOST_NAME || key == CAPTURE_START_TIMESTAMP }

  lemma GetenvListed(vars: seq<EnvVar>, e: Env, key: string)
    requires Lists(vars, e)
    ensures Defines(vars, key) <==> key in e
    ensures Getenv(vars, key) == Get(e, key)
  {
    GetenvFound(vars, key);
    if key in e { assert EnvVar(key, e[key]) in vars; }
  }

  /** A container sees the job's own environment, which the template cannot shadow. */
  lemma JobVariables(ctx: Context, job: Job, node: string, target: Target, common: Env, key: string)
    requires IsJobFor(ctx, job, node, target, common)
    requires !AddedByRenderer(key) && !Defines(ctx.template, key)
    ensures Getenv(job.env, key) == Get(JobEnv(ctx.netsh, target, common), key)
    ensures Getenv(job.env, NODE_HOST_NAME) == node
    ensures Getenv(job.env, CAPTURE_START_TIMESTAMP) == ctx.timestamp
  {
    var vars :| Lists(vars, JobEnv(ctx.netsh, target, common)) &&
      job.env == ctx.template + vars +
                 [EnvVar(NODE_HOST_NAME, node), EnvVar(CAPTURE_START_TIMESTAMP, ctx.timestamp)];
    var tail := [EnvVar(NODE_HOST_NAME, node), EnvVar(CAPTURE_START_TIMESTAMP, ctx.timestamp)];
    GetenvConcat(ctx.template + vars, tail, key);
    GetenvConcat(ctx.template, vars, key);
    GetenvListed(vars, JobEnv(ctx.netsh, target, common), key);
    GetenvFound(ctx.template, key);
    TailVariables(ctx.template + vars, node, ctx.timestamp);
  }

  lemma TailVariables(front: seq<EnvVar>, node: string, time: string)
    ensures var env := front + [EnvVar(NODE_HOST_NAME, node), EnvVar(CAPTURE_START_TIMESTAMP, time)];
            Getenv(env, NODE_HOST_NAME) == node && Getenv(env, CAPTURE_START_TIMESTAMP) == time
  {
    var a, b := EnvVar(NODE_HOST_NAME, node), EnvVar(CAPTURE_START_TIMESTAMP, time);
    var env := front + [a, b];
    assert env[..|env| - 1] == front + [a];
  }

  /** Which filters a job may carry; the handoff variable never reaches a container. */
  lemma JobEnvKeys(netsh: (string, seq<string>) -> string, target: Target, common: Env)
    ensures HANDOFF !in JobEnv(netsh, target, common)
    ensures target.os == "linux" ==> NETSH_FILTER !in JobEnv(netsh, target, common)
    ensures target.os != "linux" ==> TCPDUMP_FILTER !in JobEnv(netsh, target, common)
    ensures forall k | k !in {NETSH_FILTER, TCPDUMP_FILTER, HANDOFF} ::
              Get(JobEnv(netsh, target, common), k) == Get(common, k)
  {
  }

  ghost predicate TemplateLeavesFilters(ctx: Context)
  {
    !Defines(ctx.template, PCAP_FILTER) && !Defines(ctx.template, TCPDUMP_RAW_FILTER) &&
    !Defines(ctx.template, TCPDUMP_FILTER)
  }

  /** The filters in a Linux container: the common ones, and the node's own tcpdump filter. */
  lemma LinuxJobFilters(ctx: Context, common: Env, job: Job, node: string, target: Target)
    requires TemplateLeavesFilters(ctx)
    requires IsJobFor(ctx, job, node, target, common) && target.os == "linux"
    ensures Getenv(job.env, PCAP_FILTER) == Get(common, PCAP_FILTER)
    ensures Getenv(job.env, TCPDUMP_RAW_FILTER) == Get(common, TCPDUMP_RAW_FILTER)
    ensures Getenv(job.env, TCPDUMP_FILTER) == WithPodAddresses(target.podIps, Get(common, TCPDUMP_FILTER))
  {
    hide Getenv, WithPodAddresses, IsJobFor;
    JobVariables(ctx, job, node, target, common, PCAP_FILTER);
    JobVariables(ctx, job, node, target, common, TCPDUMP_RAW_FILTER);
    JobVariables(ctx, job, node, target, common, TCPDUMP_FILTER);
    JobEnvKeys(ctx.netsh, target, common);
    LinuxTcpdumpFilter(target, common);
  }

  lemma LinuxTcpdumpFilter(target: Target, common: Env)
    ensures Get(LinuxEnv(target, common), TCPDUMP_FILTER) ==
            WithPodAddresses(target.podIps, Get(common, TCPDUMP_FILTER))
  {
    var e := common - {NETSH_FILTER, HANDOFF};
    assert Get(e, TCPDUMP_FILTER) == Get(common, TCPDUMP_FILTER);
    if WithPodAddresses(target.podIps, Get(common, TCPDUMP_FILTER)) == "" {
      assert Get(common, TCPDUMP_FILTER) == "";
    }
  }

  /** The file name the workload rebuilds from its environment is the annotated one. */
  lemma FilenameRebuilt(ctx: Context, job: Job, node: string, target: Target, common: Env)
    requires IsJobFor(ctx, job, node, target, common)
    requires !Defines(ctx.template, CAPTURE_NAME)
    ensures var time := ctx.canonicalTime(Getenv(job.env, CAPTURE_START_TIMESTAMP));
            time.Some? &&
            Filename(Getenv(job.env, CAPTURE_NAME), Getenv(job.env, NODE_HOST_NAME), time.value) == job.filename
  {
    JobVariables(ctx, job, node, target, common, CAPTURE_NAME);
    JobEnvKeys(ctx.netsh, target, common);
  }

  /** Jobs of different nodes write different files. */
  lemma FilenamesDiffer(name: string, a: string, b: string, time: string)
    requires Filename(name, a, time) == Filename(name, b, time)
    ensures a == b
  {
    var fa, fb := Filename(name, a, time), Filename(name, b, time);
    assert |fa| == |name| + 1 + |a| + 1 + |time|;
    assert fa[|name| + 1 .. |name| + 1 + |a|] == a;
    assert fb[|name| + 1 .. |name| + 1 + |b|] == b;
  }

  /** Hence the jobs of one capture write different files. */
  lemma JobFilenamesDiffer(ctx: Context, jobs: seq<Job>, targets: map<string, Target>, common: Env)
    requires OneJobPerNode(jobs, targets.Keys) && JobsFor(ctx, jobs, targets, common)
    ensures DistinctFilenames(jobs)
  {
    forall i, j | 0 <= i < j < |jobs| ensures jobs[i].filename != jobs[j].filename {
      assert jobs[i] in jobs && jobs[j] in jobs;
      if jobs[i].filename == jobs[j].filename {
        FilenamesDiffer(Get(common, CAPTURE_NAME), jobs[i].node, jobs[j].node,
                        ctx.canonicalTime(ctx.timestamp).value);
      }
    }
  }
}
