/** TranslateCaptureToJobs as a whole: validation, targets, environment and jobs
    (pkg/capture/crd_to_job.go), and what the jobs capture. */
module CaptureTranslation {
  import opened GoStrings
  import opened PcapFilter
  import opened CaptureFilters
  import opened CaptureText
  import opened CaptureMeaning
  import opened AddressClauses
  import opened CaptureTargets
  import opened CaptureJobs
  import opened CapturePipeline

  datatype Translation =
    | Rejected(verdict: Verdict)
    | NoTargets
    | InvalidFilter(filter: string)
    | InvalidTimestamp
    | TooManyJobs(count: nat)
    | Jobs(jobs: seq<Job>)

  /** buildNetshSourceDestinationIPFilter. */
  function NetshEnds(netsh: (string, seq<string>) -> string, c: Capture): string
  {
    var source, destination := netsh("SourceAddress", c.sources), netsh("DestinationAddress", c.destinations);
    if source == "" then destination else if destination == "" then source else source + " " + destination
  }

  ghost predicate LinuxNode(nodes: seq<string>, os: map<string, string>, node: string)
  {
    node in nodes && node in os && os[node] == "linux"
  }

  /** What a job of a Linux node does when the user's text is an expression: it refuses a flag, runs
      tcpdump exactly when all include and exclude entries are printable, and then keeps exactly the
      packets requested on its node. */
  ghost predicate KeepsRequested(w: World, c: Capture, sel: Selection, job: Job)
    requires Usable(UserText(c))
  {
    var run := FilterToRun(job.env);
    && (run.ContainsFlag? <==> Flagged(c))
    && (run.Run? <==> !Flagged(c) && AllPrintable(w, c))
    && (run.Run? ==> forall p :: Keeps(w, run, p) <==> Requested(w, c, IpsSelected(sel, job.node), p))
  }

  /** What it does for every user text. */
  ghost predicate StaysWithin(w: World, c: Capture, sel: Selection, job: Job)
  {
    var run := FilterToRun(job.env);
    && (run.ContainsFlag? <==> Flagged(c))
    && (run.Run? ==> AllPrintable(w, c))
    && (forall p | Keeps(w, run, p) :: SystemWants(w, c, IpsSelected(sel, job.node), p))
    && (Usable(PcapText(w.resolve, c)) ==>
          forall p | Keeps(w, run, p) :: FromTo(w, c.sources, c.destinations, p))
  }

  ghost predicate HaveAddresses(w: World, sel: Selection)
  {
    sel.SelectedPods? ==> forall pod, ip | pod in sel.pods && ip in pod.ips :: w.resolve(ip).Some?
  }

  lemma {:induction false} NodeIpsResolve(w: World, pods: seq<Pod>, node: string)
    requires HaveAddresses(w, SelectedPods(pods))
    ensures forall ip | ip in IpsOn(pods, node) :: w.resolve(ip).Some?
  {
    if pods != [] {
      var n := |pods| - 1;
      assert pods[n] in pods;
      NodeIpsResolve(w, pods[..n], node);
    }
  }

  /** The targets of a selection, with the systems of the listed nodes. */
  ghost predicate TargetsFor(
    targets: map<string, Target>, sel: Selection, nodes: seq<string>, os: map<string, string>)
  {
    && targets.Keys == NodesSelected(sel)
    && forall n | n in targets ::
         targets[n] == Target(IpsSelected(sel, n), sel.SelectedNodes?, if n in nodes && n in os then os[n] else "")
  }

  /** CalculateCaptureTargetsOnNode, given what the API server lists. */
  method CalculateTargets(sel: Selection, nodes: seq<string>, os: map<string, string>)
    returns (targets: map<string, Target>)
    ensures TargetsFor(targets, sel, nodes, os) && targets.Keys == NodesSelected(sel)
  {
    var t := new TargetsOnNode();
    match sel {
      case SelectedPods(pods) =>
        t.CollectPods(pods);
        forall n | n in t.targets ensures t.targets[n].podIps == IpsSelected(sel, n) { IpsOnPartitions(pods, n); }
      case SelectedNodes(names) =>
        t.CollectNodes(names);
    }
    t.UpdateAllOS(nodes, os);
    targets := t.targets;
  }

  lemma TargetIpsResolve(w: World, sel: Selection, node: string)
    requires HaveAddresses(w, sel)
    ensures forall ip | ip in IpsSelected(sel, node) :: w.resolve(ip).Some?
  {
    if sel.SelectedPods? {
      NodeIpsResolve(w, sel.pods, node);
      IpsOnPartitions(sel.pods, node);
    }
  }

  lemma JobKeepsRequested(
    ctx: Context, w: World, c: Capture, sel: Selection, nodes: seq<string>, os: map<string, string>,
    targets: map<string, Target>, common: Env, job: Job)
    requires ReadsAddresses(w.resolve) && FiltersValid(w.resolve, c) && HaveAddresses(w, sel)
    requires CommonEnvFor(w, c, common) && TemplateLeavesFilters(ctx)
    requires TargetsFor(targets, sel, nodes, os) && job.node in targets && LinuxNode(nodes, os, job.node)
    requires IsJobFor(ctx, job, job.node, targets[job.node], common)
    ensures StaysWithin(w, c, sel, job)
    ensures Usable(UserText(c)) ==> KeepsRequested(w, c, sel, job)
  {
    hide FilterToRun, Requested, SystemWants, AllPrintable, Flagged, IsJobFor, CommonEnvFor, TemplateLeavesFilters,
         ReadsAddresses, HaveAddresses, IpsSelected, Usable;
    TargetIpsResolve(w, sel, job.node);
    CapturedWithin(ctx, w, c, common, job, job.node, targets[job.node]);
    if Usable(UserText(c)) {
      CapturedPackets(ctx, w, c, common, job, job.node, targets[job.node]);
    }
  }

  ghost predicate EntriesValid(w: World, c: Capture)
  {
    forall f | f in c.includes || f in c.excludes :: !ReadEntry(w.resolve, f).Invalid?
  }

  /** The entry an error names: the first malformed one, includes before excludes. */
  ghost predicate FirstBadEntry(w: World, c: Capture, bad: string)
  {
    FirstInvalid(w.resolve, c.includes, bad) ||
    ((forall f | f in c.includes :: !ReadEntry(w.resolve, f).Invalid?) && FirstInvalid(w.resolve, c.excludes, bad))
  }

  /** Everything that is asked of a Capture before the number of its jobs: filters, targets, entries and
      time. */
  ghost predicate Translatable(ctx: Context, w: World, c: Capture, sel: Selection)
  {
    && FiltersValid(w.resolve, c) && NodesSelected(sel) != {} && EntriesValid(w, c)
    && ctx.canonicalTime(ctx.timestamp).Some?
  }

  /** Which outcome a translation has, each exactly in its own case. */
  ghost predicate OutcomeOf(ctx: Context, w: World, c: Capture, sel: Selection, limit: nat, r: Translation)
  {
    var filters, some, entries := FiltersValid(w.resolve, c), NodesSelected(sel) != {}, EntriesValid(w, c);
    var count := |NodesSelected(sel)|;
    && (r.Rejected? <==> !filters)
    && (r.NoTargets? <==> filters && !some)
    && (r.InvalidFilter? <==> filters && some && !entries)
    && (r.InvalidTimestamp? <==> filters && some && entries && ctx.canonicalTime(ctx.timestamp).None?)
    && (r.TooManyJobs? <==> Translatable(ctx, w, c, sel) && limit != 0 && count > limit)
    && (r.Jobs? <==> Translatable(ctx, w, c, sel) && (limit == 0 || count <= limit))
    && (r.TooManyJobs? ==> r.count == count)
    && (r.InvalidFilter? ==> FirstBadEntry(w, c, r.filter))
  }

  ghost predicate LinuxJobsKeep(
    w: World, c: Capture, sel: Selection, nodes: seq<string>, os: map<string, string>, jobs: seq<Job>)
  {
    forall job | job in jobs && LinuxNode(nodes, os, job.node) ::
      StaysWithin(w, c, sel, job) && (Usable(UserText(c)) ==> KeepsRequested(w, c, sel, job))
  }

  lemma AllJobsKeep(
    ctx: Context, w: World, c: Capture, sel: Selection, nodes: seq<string>, os: map<string, string>,
    targets: map<string, Target>, common: Env, jobs: seq<Job>)
    requires ReadsAddresses(w.resolve) && FiltersValid(w.resolve, c) && HaveAddresses(w, sel)
    requires CommonEnvFor(w, c, common) && TemplateLeavesFilters(ctx)
    requires TargetsFor(targets, sel, nodes, os) && JobsFor(ctx, jobs, targets, common)
    ensures LinuxJobsKeep(w, c, sel, nodes, os, jobs)
  {
    hide KeepsRequested, StaysWithin, IsJobFor, CommonEnvFor, TargetsFor, LinuxNode;
    forall job | job in jobs && LinuxNode(nodes, os, job.node)
      ensures StaysWithin(w, c, sel, job) && (Usable(UserText(c)) ==> KeepsRequested(w, c, sel, job))
    {
      JobKeepsRequested(ctx, w, c, sel, nodes, os, targets, common, job);
    }
  }

  // ----- what every job carries -----

  /** The non-empty ones, in order. */
  function NonEmpty(texts: seq<string>): seq<string>
  {
    if texts == [] then [] else (if texts[0] == "" then [] else [texts[0]]) + NonEmpty(texts[1..])
  }

  /** What the common environment holds besides the filters of Linux jobs. */
  ghost predicate CommonRest(ctx: Context, c: Capture, common: Env)
  {
    && NETSH_FILTER !in common && Get(common, HANDOFF) == NetshEnds(ctx.netsh, c)
    && Get(common, CAPTURE_NAME) == c.name
    && forall k | k in c.options :: k in common && common[k] == c.options[k]
  }

  /** A job as the Capture asks for it, variable by variable, as its container sees it: its name, command
      and options, and the netsh groups of its pods, sources and destinations on Windows only. */
  ghost predicate AsAsked(
    ctx: Context, c: Capture, sel: Selection, nodes: seq<string>, os: map<string, string>, job: Job)
  {
    var linux := LinuxNode(nodes, os, job.node);
    var groups := [ctx.netsh("Address", IpsSelected(sel, job.node)),
                   ctx.netsh("SourceAddress", c.sources), ctx.netsh("DestinationAddress", c.destinations)];
    && job.command == (if linux then "./retina/captureworkload" else "captureworkload.exe")
    && ctx.canonicalTime(ctx.timestamp).Some?
    && job.filename == c.name + "-" + job.node + "-" + ctx.canonicalTime(ctx.timestamp).value
    && Getenv(job.env, "NODE_HOST_NAME") == job.node
    && Getenv(job.env, "CAPTURE_START_TIMESTAMP") == ctx.timestamp
    && (!Defines(ctx.template, "CAPTURE_NAME") ==> Getenv(job.env, "CAPTURE_NAME") == c.name)
    && (forall k | k in c.options && !Defines(ctx.template, k) :: Getenv(job.env, k) == c.options[k])
    && (!Defines(ctx.template, "NETSH_FILTER") ==>
          Getenv(job.env, "NETSH_FILTER") == if linux then "" else Join(NonEmpty(groups), " "))
    && (!linux && !Defines(ctx.template, "TCPDUMP_FILTER") ==> Getenv(job.env, "TCPDUMP_FILTER") == "")
    && (!Defines(ctx.template, "__netsh_source_dest_filter__") ==>
          Getenv(job.env, "__netsh_source_dest_filter__") == "")
  }

  lemma JoinNonEmpty(a: string, b: string, c: string)
    ensures var ends := if b == "" then c else if c == "" then b else b + " " + c;
            Join(NonEmpty([a, b, c]), " ") == if a == "" then ends else if ends == "" then a else a + " " + ends
  {
    assert [a, b, c][1..] == [b, c] && [b, c][1..] == [c] && [c][1..] == [];
    assert NonEmpty([c]) == if c == "" then [] else [c];
    assert NonEmpty([b, c]) == (if b == "" then [] else [b]) + NonEmpty([c]);
    assert NonEmpty([a, b, c]) == (if a == "" then [] else [a]) + NonEmpty([b, c]);
    JoinUpToTwo(a, b);
    JoinUpToTwo(a, c);
    JoinUpToTwo(b, c);
    assert [a] + [b, c] == [a, b, c] && Join([a, b, c], " ") == a + " " + Join([b, c], " ");
  }

  /** The netsh filter of a job that does not run on Linux. */
  lemma WindowsFilter(ctx: Context, c: Capture, target: Target, common: Env)
    requires CommonRest(ctx, c, common)
    ensures Get(WindowsEnv(ctx.netsh, target, common), NETSH_FILTER) ==
            Join(NonEmpty([ctx.netsh("Address", target.podIps), ctx.netsh("SourceAddress", c.sources),
                           ctx.netsh("DestinationAddress", c.destinations)]), " ")
  {
    hide Join, NonEmpty;
    JoinNonEmpty(ctx.netsh("Address", target.podIps), ctx.netsh("SourceAddress", c.sources),
                 ctx.netsh("DestinationAddress", c.destinations));
  }

  /** A variable of the job, seen in its container. */
  lemma SeenInContainer(ctx: Context, job: Job, target: Target, common: Env, key: string)
    requires IsJobFor(ctx, job, job.node, target, common)
    requires key != NODE_HOST_NAME && key != CAPTURE_START_TIMESTAMP && !Defines(ctx.template, key)
    ensures Getenv(job.env, key) == Get(JobEnv(ctx.netsh, target, common), key)
  {
    hide IsJobFor, Getenv, JobEnv;
    JobVariables(ctx, job, job.node, target, common, key);
  }

  lemma FiltersSeen(ctx: Context, c: Capture, job: Job, target: Target, common: Env)
    requires CommonRest(ctx, c, common) && IsJobFor(ctx, job, job.node, target, common)
    ensures !Defines(ctx.template, NETSH_FILTER) ==>
              Getenv(job.env, NETSH_FILTER) ==
              if target.os == "linux" then ""
              else Join(NonEmpty([ctx.netsh("Address", target.podIps), ctx.netsh("SourceAddress", c.sources),
                                  ctx.netsh("DestinationAddress", c.destinations)]), " ")
    ensures target.os != "linux" && !Defines(ctx.template, TCPDUMP_FILTER) ==> Getenv(job.env, TCPDUMP_FILTER) == ""
    ensures !Defines(ctx.template, HANDOFF) ==> Getenv(job.env, HANDOFF) == ""
  {
    hide IsJobFor, Getenv, Join, NonEmpty, Defines, LinuxEnv, WindowsEnv;
    JobEnvKeys(ctx.netsh, target, common);
    WindowsFilter(ctx, c, target, common);
    if !Defines(ctx.template, NETSH_FILTER) { SeenInContainer(ctx, job, target, common, NETSH_FILTER); }
    if !Defines(ctx.template, TCPDUMP_FILTER) { SeenInContainer(ctx, job, target, common, TCPDUMP_FILTER); }
    if !Defines(ctx.template, HANDOFF) { SeenInContainer(ctx, job, target, common, HANDOFF); }
  }

  lemma OptionsSeen(ctx: Context, c: Capture, job: Job, target: Target, common: Env, k: string)
    requires CommonRest(ctx, c, common) && IsJobFor(ctx, job, job.node, target, common)
    requires k in c.options && c.options.Keys !! FILTER_KEYS && !Defines(ctx.template, k)
    ensures Getenv(job.env, k) == c.options[k]
  {
    hide IsJobFor, Getenv, Defines, JobEnv;
    assert k !in FILTER_KEYS;
    SeenInContainer(ctx, job, target, common, k);
    JobEnvKeys(ctx.netsh, target, common);
  }

  lemma NameSeen(ctx: Context, c: Capture, job: Job, target: Target, common: Env)
    requires CommonRest(ctx, c, common) && IsJobFor(ctx, job, job.node, target, common)
    ensures !Defines(ctx.template, CAPTURE_NAME) ==> Getenv(job.env, CAPTURE_NAME) == c.name
  {
    hide IsJobFor, Getenv, Defines, JobEnv;
    JobEnvKeys(ctx.netsh, target, common);
    if !Defines(ctx.template, CAPTURE_NAME) { SeenInContainer(ctx, job, target, common, CAPTURE_NAME); }
  }

  lemma FixedPartsSeen(ctx: Context, c: Capture, job: Job, target: Target, common: Env)
    requires CommonRest(ctx, c, common) && IsJobFor(ctx, job, job.node, target, common)
    ensures job.command == (if target.os == "linux" then "./retina/captureworkload" else "captureworkload.exe")
    ensures ctx.canonicalTime(ctx.timestamp).Some?
    ensures job.filename == c.name + "-" + job.node + "-" + ctx.canonicalTime(ctx.timestamp).value
    ensures Getenv(job.env, "NODE_HOST_NAME") == job.node
    ensures Getenv(job.env, "CAPTURE_START_TIMESTAMP") == ctx.timestamp
  {
    hide Getenv, Lists, JobEnv;
    var vars :| Lists(vars, JobEnv(ctx.netsh, target, common)) &&
      job.env == ctx.template + vars +
                 [EnvVar(NODE_HOST_NAME, job.node), EnvVar(CAPTURE_START_TIMESTAMP, ctx.timestamp)];
    TailVariables(ctx.template + vars, job.node, ctx.timestamp);
  }

  lemma JobAsAsked(
    ctx: Context, c: Capture, sel: Selection, nodes: seq<string>, os: map<string, string>,
    targets: map<string, Target>, common: Env, job: Job)
    requires CommonRest(ctx, c, common) && c.options.Keys !! FILTER_KEYS
    requires TargetsFor(targets, sel, nodes, os) && job.node in targets
    requires IsJobFor(ctx, job, job.node, targets[job.node], common)
    ensures AsAsked(ctx, c, sel, nodes, os, job)
  {
    hide IsJobFor, Getenv, Join, NonEmpty, Defines, CommonRest, IpsSelected;
    var target := targets[job.node];
    assert LinuxNode(nodes, os, job.node) <==> target.os == "linux";
    FixedPartsSeen(ctx, c, job, target, common);
    NameSeen(ctx, c, job, target, common);
    FiltersSeen(ctx, c, job, target, common);
    forall k | k in c.options && !Defines(ctx.template, k) ensures Getenv(job.env, k) == c.options[k] {
      OptionsSeen(ctx, c, job, target, common, k);
    }
  }

  lemma AllAsAsked(
    ctx: Context, c: Capture, sel: Selection, nodes: seq<string>, os: map<string, string>,
    targets: map<string, Target>, common: Env, jobs: seq<Job>)
    requires CommonRest(ctx, c, common) && c.options.Keys !! FILTER_KEYS
    requires TargetsFor(targets, sel, nodes, os) && JobsFor(ctx, jobs, targets, common)
    ensures forall job | job in jobs :: AsAsked(ctx, c, sel, nodes, os, job)
  {
    hide IsJobFor, AsAsked, CommonRest, TargetsFor;
    forall job | job in jobs ensures AsAsked(ctx, c, sel, nodes, os, job) {
      JobAsAsked(ctx, c, sel, nodes, os, targets, common, job);
    }
  }

  // ----- the whole translation -----

  ghost function EntriesText(w: World, c: Capture): string
  {
    FilterText(PortSetsOf(IncludeAtoms(w.resolve, c)), PortSetsOf(ExcludeAtoms(w.resolve, c)))
  }

  /** obtainTcpdumpFilters for the entries of a Capture. */
  method ReadEntries(w: World, c: Capture) returns (r: Result<string>)
    requires ReadsAddresses(w.resolve)
    ensures r.Ok? <==> EntriesValid(w, c)
    ensures r.Ok? ==> r.value == EntriesText(w, c)
    ensures r.Err? ==> FirstBadEntry(w, c, r.filter)
  {
    hide FilterText;
    r := ObtainTcpdumpFilters(w, c.includes, c.excludes);
  }

  /** obtainCaptureJobPodEnv and renderJob. */
  method RenderCapture(ctx: Context, w: World, c: Capture, targets: map<string, Target>, text: string)
    returns (r: RenderResult, ghost common: Env)
    requires c.options.Keys !! FILTER_KEYS && |targets| != 0
    requires text == EntriesText(w, c)
    ensures CommonEnvFor(w, c, common) && CommonRest(ctx, c, common)
    ensures r.Rendered? <==> ctx.canonicalTime(ctx.timestamp).Some?
    ensures r.BadTimestamp? <==> ctx.canonicalTime(ctx.timestamp).None?
    ensures r.Rendered? ==>
              && OneJobPerNode(r.jobs, targets.Keys) && |r.jobs| == |targets|
              && JobsFor(ctx, r.jobs, targets, common) && DistinctFilenames(r.jobs)
  {
    hide FilterText, PcapText, IsJobFor, OneJobPerNode, DistinctFilenames;
    var env := ObtainCaptureJobPodEnv(w.resolve, c, text, NetshEnds(ctx.netsh, c));
    common := env;
    var template := new JobObject(ctx.template);
    var envMap := new EnvMap(env);
    r := RenderJob(ctx, template, targets, envMap);
  }

  /** A Capture becomes one job per selected node, as asked and with a file of its own, or one of the
      errors, each exactly when it should; on Linux nodes each job keeps exactly the packets the Capture
      requests there. */
  method TranslateCaptureToJobs(
    ctx: Context, w: World, c: Capture, sel: Selection, nodes: seq<string>, os: map<string, string>, limit: nat)
    returns (r: Translation)
    requires ReadsAddresses(w.resolve) && TemplateLeavesFilters(ctx) && HaveAddresses(w, sel)
    requires c.options.Keys !! FILTER_KEYS
    ensures OutcomeOf(ctx, w, c, sel, limit, r)
    ensures r.Jobs? ==>
              && OneJobPerNode(r.jobs, NodesSelected(sel)) && |r.jobs| == |NodesSelected(sel)|
              && DistinctFilenames(r.jobs)
    ensures r.Jobs? ==> forall job | job in r.jobs :: AsAsked(ctx, c, sel, nodes, os, job)
    ensures r.Jobs? ==> LinuxJobsKeep(w, c, sel, nodes, os, r.jobs)
  {
    hide LinuxJobsKeep, AsAsked, OneJobPerNode, DistinctFilenames, JobsFor, CommonEnvFor, CommonRest, EntriesText, FirstBadEntry,
         EntriesValid, FiltersValid, TargetsFor, HaveAddresses, NodesSelected, ReadsAddresses, TemplateLeavesFilters;
    var verdict := ValidateFilters(w.resolve, c);
    if !verdict.Valid? {
      return Rejected(verdict);
    }
    var targets := CalculateTargets(sel, nodes, os);
    if |targets| == 0 {
      return NoTargets;
    }
    var text := ReadEntries(w, c);
    if text.Err? {
      return InvalidFilter(text.filter);
    }
    var rendered, common := RenderCapture(ctx, w, c, targets, text.value);
    if rendered.BadTimestamp? {
      return InvalidTimestamp;
    }
    if limit != 0 && |rendered.jobs| > limit {
      return TooManyJobs(|rendered.jobs|);
    }
    AllJobsKeep(ctx, w, c, sel, nodes, os, targets, common, rendered.jobs);
    AllAsAsked(ctx, c, sel, nodes, os, targets, common, rendered.jobs);
    return Jobs(rendered.jobs);
  }
}
