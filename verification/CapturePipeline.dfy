/** A Capture end to end: from its filter fields, through validation, the job environment and the
    workload, to the packets tcpdump keeps (pkg/capture/crd_to_job.go,
    pkg/capture/provider/network_capture_unix.go). */
module CapturePipeline {
  import opened GoStrings
  import opened PcapFilter
  import opened PcapNesting
  import opened CaptureFilters
  import opened CaptureText
  import opened CaptureMeaning
  import opened AddressClauses
  import opened CaptureTargets
  import opened CaptureJobs

  /** The fields that decide which packets are kept; `options` stands for the environment entries
      that do not (output, duration, size, flags). An absent pcapFilter is "". */
  datatype Capture = Capture(
    name: string, includes: seq<string>, excludes: seq<string>,
    pcapFilter: string, tcpdumpFilter: Option<string>,
    sources: seq<string>, destinations: seq<string>, options: Env)

  function RawFilter(c: Capture): string { if c.tcpdumpFilter.Some? then c.tcpdumpFilter.value else "" }

  const FILTER_KEYS: set<string> :=
    {CAPTURE_NAME, TCPDUMP_FILTER, TCPDUMP_RAW_FILTER, PCAP_FILTER, NETSH_FILTER, HANDOFF,
     NODE_HOST_NAME, CAPTURE_START_TIMESTAMP}

  // ----- validation -----

  datatype Verdict = Valid | RawWithAddresses | NotAnAddress(entry: string)

  /** validateIPAddresses: the first entry that is not an address. */
  method ValidateIPAddresses(resolve: string -> Option<Address>, ips: seq<string>)
    returns (bad: Option<string>)
    ensures bad.None? <==> forall ip | ip in ips :: resolve(ip).Some?
    ensures bad.Some? ==> exists i | 0 <= i < |ips| ::
                            ips[i] == bad.value && resolve(bad.value).None? &&
                            forall j | 0 <= j < i :: resolve(ips[j]).Some?
  {
    for i := 0 to |ips|
      invariant forall j | 0 <= j < i :: resolve(ips[j]).Some?
    {
      if resolve(ips[i]).None? {
        return Some(ips[i]);
      }
    }
    return None;
  }

  ghost predicate FiltersValid(resolve: string -> Option<Address>, c: Capture)
  {
    && (RawFilter(c) != "" ==> c.sources == [] && c.destinations == [])
    && forall ip | ip in c.sources || ip in c.destinations :: resolve(ip).Some?
  }

  /** The filter checks of validateCapture. */
  method ValidateFilters(resolve: string -> Option<Address>, c: Capture) returns (v: Verdict)
    ensures v.Valid? <==> FiltersValid(resolve, c)
    ensures v.RawWithAddresses? <==> RawFilter(c) != "" && (c.sources != [] || c.destinations != [])
  {
    if RawFilter(c) != "" && (|c.sources| > 0 || |c.destinations| > 0) {
      return RawWithAddresses;
    }
    var bad := ValidateIPAddresses(resolve, c.sources);
    if bad.None? {
      bad := ValidateIPAddresses(resolve, c.destinations);
    }
    return if bad.Some? then NotAnAddress(bad.value) else Valid;
  }

  // ----- the common environment -----

  function PcapText(resolve: string -> Option<Address>, c: Capture): string
  {
    CombineExpressions(c.pcapFilter, SourceDestinationFilter(resolve, c.sources, c.destinations))
  }

  /** obtainCaptureJobPodEnv, given the include/exclude text and the netsh source/destination text. */
  method ObtainCaptureJobPodEnv(
    resolve: string -> Option<Address>, c: Capture, tcpdumpText: string, netshEnds: string)
    returns (env: Env)
    requires c.options.Keys !! FILTER_KEYS
    ensures Get(env, TCPDUMP_FILTER) == tcpdumpText
    ensures Get(env, PCAP_FILTER) == PcapText(resolve, c)
    ensures Get(env, TCPDUMP_RAW_FILTER) == RawFilter(c)
    ensures Get(env, HANDOFF) == netshEnds
    ensures Get(env, CAPTURE_NAME) == c.name
    ensures NETSH_FILTER !in env && NODE_HOST_NAME !in env && CAPTURE_START_TIMESTAMP !in env
    ensures forall k | k !in FILTER_KEYS :: k in env <==> k in c.options
    ensures forall k | k in c.options :: k in env && env[k] == c.options[k]
  {
    env := c.options;
    if |tcpdumpText| != 0 {
      env := env[TCPDUMP_FILTER := tcpdumpText];
    }
    var source := BpfDirectionalHostClause(resolve, Source, c.sources);
    var destination := BpfDirectionalHostClause(resolve, Destination, c.destinations);
    var combined := CombineExpressions(c.pcapFilter, CombineExpressions(source, destination));
    if combined != "" {
      env := env[PCAP_FILTER := combined];
    }
    if netshEnds != "" {
      env := env[HANDOFF := netshEnds];
    }
    if c.tcpdumpFilter.Some? {
      env := env[TCPDUMP_RAW_FILTER := c.tcpdumpFilter.value];
    }
    if |c.name| != 0 {
      env := env[CAPTURE_NAME := c.name];
    }
  }

  // ----- the workload -----

  function TrimLeft(s: string): string
  {
    if s != "" && IsSpace(s[0]) then TrimLeft(s[1..]) else s
  }

  function TrimRight(s: string): string
  {
    if s != "" && IsSpace(s[|s| - 1]) then TrimRight(s[..|s| - 1]) else s
  }

  /** strings.TrimSpace. */
  function Trim(s: string): string { TrimRight(TrimLeft(s)) }

  /** Some blank-separated field starts with '-'. */
  predicate HasFlag(s: string) { exists i | 0 <= i < |s| :: FlagAt(s, i) }

  predicate FlagAt(s: string, i: nat)
    requires i < |s|
  {
    s[i] == '-' && (i == 0 || IsSpace(s[i - 1]))
  }

  datatype WorkloadFilter = Blank | ContainsFlag | SyntaxError | Run(filter: string)

  /** obtainAndValidateUserFilter, combineFilters and validateBPFFilterSyntax. */
  function FilterToRun(env: seq<EnvVar>): (f: WorkloadFilter)
    ensures f.Run? ==> Usable(f.filter)
  {
    var pcap, raw := Getenv(env, PCAP_FILTER), Getenv(env, TCPDUMP_RAW_FILTER);
    var user := Trim(if pcap != "" then pcap else raw);
    if user == "" && (pcap != "" || raw != "") then Blank
    else if HasFlag(user) then ContainsFlag
    else
      var combined := CombineExpressions(user, Getenv(env, TCPDUMP_FILTER));
      if Usable(combined) then Run(combined) else SyntaxError
  }

  lemma BlankInFront(c: char, s: string)
    requires IsSpace(c)
    ensures HasFlag([c] + s) <==> HasFlag(s)
  {
    var t := [c] + s;
    if HasFlag(t) {
      var i :| 0 <= i < |t| && FlagAt(t, i);
      assert FlagAt(s, i - 1);
    }
    if HasFlag(s) {
      var i :| 0 <= i < |s| && FlagAt(s, i);
      assert FlagAt(t, i + 1);
    }
  }

  lemma BlankBehind(s: string, c: char)
    requires IsSpace(c)
    ensures HasFlag(s + [c]) <==> HasFlag(s)
  {
    var t := s + [c];
    if HasFlag(t) {
      var i :| 0 <= i < |t| && FlagAt(t, i);
      assert FlagAt(s, i);
    }
    if HasFlag(s) {
      var i :| 0 <= i < |s| && FlagAt(s, i);
      assert FlagAt(t, i);
    }
  }

  lemma LexBlank(c: char)
    requires IsSpace(c)
    ensures Lex([c]) == []
  {
    assert [c][1..] == "";
  }

  lemma {:induction false} TrimLeftKeeps(s: string)
    ensures Lex(TrimLeft(s)) == Lex(s) && (HasFlag(TrimLeft(s)) <==> HasFlag(s))
  {
    hide Lex, HasFlag;
    if s != "" && IsSpace(s[0]) {
      TrimLeftKeeps(s[1..]);
      assert s == [s[0]] + s[1..];
      BlankInFront(s[0], s[1..]);
      LexBlank(s[0]);
      LexConcat([s[0]], s[1..]);
    }
  }

  lemma {:induction false} TrimRightKeeps(s: string)
    ensures Lex(TrimRight(s)) == Lex(s) && (HasFlag(TrimRight(s)) <==> HasFlag(s))
  {
    hide Lex, HasFlag;
    if s != "" && IsSpace(s[|s| - 1]) {
      var front, c := s[..|s| - 1], s[|s| - 1];
      TrimRightKeeps(front);
      assert s == front + [c];
      BlankBehind(front, c);
      LexBlank(c);
      LexConcat(front, [c]);
    }
  }

  /** Trimming changes neither what a text means nor whether it holds a flag. */
  lemma TrimKeeps(s: string)
    ensures Parse(Trim(s)) == Parse(s) && (HasFlag(Trim(s)) <==> HasFlag(s))
    ensures Usable(s) ==> (Trim(s) == "" <==> s == "")
  {
    TrimLeftKeeps(s);
    TrimRightKeeps(TrimLeft(s));
    assert ParseExpr([]) == Fail;
  }

  predicate AllBlank(s: string) { forall c | c in s :: IsSpace(c) }

  lemma {:induction false} TrimLeftCuts(s: string) returns (front: string)
    ensures AllBlank(front) && s == front + TrimLeft(s)
    ensures TrimLeft(s) != "" ==> !IsSpace(TrimLeft(s)[0])
  {
    if s != "" && IsSpace(s[0]) {
      front := TrimLeftCuts(s[1..]);
      front := [s[0]] + front;
    } else {
      front := "";
    }
  }

  lemma {:induction false} TrimRightCuts(s: string) returns (back: string)
    ensures AllBlank(back) && s == TrimRight(s) + back
    ensures TrimRight(s) != "" ==> !IsSpace(TrimRight(s)[|TrimRight(s)| - 1])
  {
    if s != "" && IsSpace(s[|s| - 1]) {
      back := TrimRightCuts(s[..|s| - 1]);
      back := back + [s[|s| - 1]];
    } else {
      back := "";
    }
  }

  /** Trimming takes blanks away at both ends, all of them and nothing else. */
  lemma TrimExactly(s: string)
    ensures exists front, back :: AllBlank(front) && AllBlank(back) && s == front + Trim(s) + back
    ensures Trim(s) != "" ==> !IsSpace(Trim(s)[0]) && !IsSpace(Trim(s)[|Trim(s)| - 1])
    ensures Trim(s) == "" <==> AllBlank(s)
  {
    hide TrimLeft, TrimRight, IsSpace;
    var front := TrimLeftCuts(s);
    var back := TrimRightCuts(TrimLeft(s));
    assert s == front + Trim(s) + back;
    if Trim(s) != "" {
      assert TrimLeft(s)[0] == Trim(s)[0];
      assert Trim(s)[0] in s;
    }
  }

  /** The length of the run of characters other than blanks at the front. */
  function RunLength(s: string): (n: nat)
    ensures n <= |s| && (forall i | 0 <= i < n :: !IsSpace(s[i])) && (n < |s| ==> IsSpace(s[n]))
  {
    if s == "" || IsSpace(s[0]) then 0 else 1 + RunLength(s[1..])
  }

  /** strings.Fields: the runs between blanks. */
  function BlankFields(s: string): (fields: seq<string>)
    ensures forall f | f in fields :: f != ""
    decreases |s|
  {
    if s == "" then []
    else if IsSpace(s[0]) then BlankFields(s[1..])
    else [s[..RunLength(s)]] + BlankFields(s[RunLength(s)..])
  }

  lemma FlagAfter(s: string, n: nat)
    requires 0 < n <= |s| && (forall i | 0 <= i < n - 1 :: !IsSpace(s[i]))
    requires n < |s| ==> IsSpace(s[n]) || IsSpace(s[n - 1])
    ensures HasFlag(s) <==> s[0] == '-' || HasFlag(s[n..])
  {
    var rest := s[n..];
    if HasFlag(s) {
      var i :| 0 <= i < |s| && FlagAt(s, i);
      if i >= n { assert FlagAt(rest, i - n); }
    }
    if s[0] == '-' { assert FlagAt(s, 0); }
    if HasFlag(rest) {
      var i :| 0 <= i < |rest| && FlagAt(rest, i);
      assert FlagAt(s, n + i);
    }
  }

  /** The flag check is the one the code makes: some blank-separated field starts with '-'. */
  lemma {:induction false} FlagIsField(s: string)
    ensures HasFlag(s) <==> exists f | f in BlankFields(s) :: f[0] == '-'
    decreases |s|
  {
    if s != "" {
      if IsSpace(s[0]) {
        FlagIsField(s[1..]);
        FlagAfter(s, 1);
      } else {
        var n := RunLength(s);
        FlagIsField(s[n..]);
        FlagAfter(s, n);
        assert s[..n][0] == s[0];
      }
    }
  }

  lemma {:induction false} JoinNoDash(xs: seq<string>)
    requires forall x | x in xs :: '-' !in x
    ensures '-' !in Join(xs, " or ")
  {
    if |xs| > 1 {
      JoinNoDash(xs[1..]);
      assert xs[0] in xs;
    } else if |xs| == 1 {
      assert xs[0] in xs;
    }
  }

  lemma {:induction false} ClausesNoDash(resolve: string -> Option<Address>, d: Direction, ips: seq<string>)
    requires ReadsAddresses(resolve)
    ensures forall x | x in Clauses(resolve, d, ips) :: '-' !in x
  {
    if ips != [] {
      var n := |ips| - 1;
      ClausesNoDash(resolve, d, ips[..n]);
      assert !IsAddressChar('-');
      assert '-' !in Prefix(d);
    }
  }

  lemma EndsNoDash(resolve: string -> Option<Address>, c: Capture)
    requires ReadsAddresses(resolve)
    ensures '-' !in SourceDestinationFilter(resolve, c.sources, c.destinations)
  {
    ClausesNoDash(resolve, Source, c.sources);
    ClausesNoDash(resolve, Destination, c.destinations);
    JoinNoDash(Clauses(resolve, Source, c.sources));
    JoinNoDash(Clauses(resolve, Destination, c.destinations));
  }

  /** A flag that is not the very first thing in the text. */
  predicate FlagInside(s: string)
  {
    exists i | 0 < i < |s| :: s[i] == '-' && IsSpace(s[i - 1])
  }

  /** Where the dashes of a combined text are. */
  lemma CombinedChars(a: string, b: string, i: nat)
    requires '-' !in b && i < |Conjoined(a, b)|
    ensures Conjoined(a, b)[i] == '-' ==> 1 <= i <= |a| && a[i - 1] == '-'
    ensures 1 <= i <= |a| ==> Conjoined(a, b)[i] == a[i - 1]
    ensures i == 0 ==> Conjoined(a, b)[i] == '('
  {
    var tail := ") and (" + b + ")";
    assert Conjoined(a, b) == "(" + a + tail;
    if i > |a| {
      assert Conjoined(a, b)[i] == tail[i - |a| - 1];
      assert '-' !in tail;
    }
  }

  lemma ConjoinedFlag(a: string, b: string)
    requires '-' !in b
    ensures HasFlag(Conjoined(a, b)) <==> FlagInside(a)
  {
    hide Conjoined;
    var text := Conjoined(a, b);
    if HasFlag(text) {
      var i :| 0 <= i < |text| && FlagAt(text, i);
      CombinedChars(a, b, i);
      CombinedChars(a, b, i - 1);
      var k := i - 1;
      assert 0 < k < |a| && a[k] == '-' && IsSpace(a[k - 1]);
    }
    if FlagInside(a) {
      var i :| 0 < i < |a| && a[i] == '-' && IsSpace(a[i - 1]);
      ConjoinedLength(a, b);
      var k := i + 1;
      CombinedChars(a, b, k);
      CombinedChars(a, b, i);
      assert 0 <= k < |text| && FlagAt(text, k);
    }
  }

  lemma ConjoinedLength(a: string, b: string) ensures |Conjoined(a, b)| >= |a| + 2 {}

  /** Combining puts a parenthesis in front of the text, so only the flags inside it are still seen. */
  lemma CombinedFlag(a: string, b: string)
    requires '-' !in b
    ensures HasFlag(CombineExpressions(a, b)) <==> if a != "" && b != "" then FlagInside(a) else HasFlag(a)
  {
    hide HasFlag, FlagInside;
    ConjoinedFlag(a, b);
    NoFlagWithoutDash(b);
    NoFlagWithoutDash("");
  }

  lemma NoFlagWithoutDash(s: string)
    requires '-' !in s
    ensures !HasFlag(s)
  {
  }

  // ----- end to end -----

  /** The user's expression: pcapFilter, or else the deprecated tcpdumpFilter. */
  function UserText(c: Capture): string { if c.pcapFilter != "" then c.pcapFilter else RawFilter(c) }

  function IncludeAtoms(resolve: string -> Option<Address>, c: Capture): seq<Atom> { Atoms(resolve, c.includes) }
  function ExcludeAtoms(resolve: string -> Option<Address>, c: Capture): seq<Atom> { Atoms(resolve, c.excludes) }

  /** What the include and exclude entries and the pods of a node ask for. */
  ghost predicate SystemWants(w: World, c: Capture, podIps: seq<string>, p: Packet)
  {
    var incl, excl := IncludeAtoms(w.resolve, c), ExcludeAtoms(w.resolve, c);
    if podIps == [] then Wanted(w, incl, excl, p)
    else ((incl != [] || excl != []) && Wanted(w, incl, excl, p)) || SomeTouches(w, Either, podIps, p)
  }

  /** What a Capture asks for on a node with the given pods. */
  ghost predicate Requested(w: World, c: Capture, podIps: seq<string>, p: Packet)
    requires Usable(UserText(c))
  {
    && Accepts(w, if c.pcapFilter != "" then c.pcapFilter else RawFilter(c), p)
    && FromTo(w, c.sources, c.destinations, p)
    && SystemWants(w, c, podIps, p)
  }

  ghost predicate AllPrintable(w: World, c: Capture)
  {
    EntriesPrintable(IncludeAtoms(w.resolve, c)) && EntriesPrintable(ExcludeAtoms(w.resolve, c))
  }

  /** The user text the workload looks at. */
  function Chosen(resolve: string -> Option<Address>, c: Capture): string
  {
    if PcapText(resolve, c) != "" then PcapText(resolve, c) else RawFilter(c)
  }

  /** Whether the workload will see a flag in the user's text. */
  predicate Flagged(c: Capture)
  {
    if c.sources == [] && c.destinations == [] then HasFlag(UserText(c)) else FlagInside(UserText(c))
  }

  /** The user half: the expression and the source/destination lists, nothing skipped. */
  lemma PcapTextCorrect(w: World, c: Capture)
    requires ReadsAddresses(w.resolve) && FiltersValid(w.resolve, c) && Usable(c.pcapFilter)
    ensures Usable(PcapText(w.resolve, c))
    ensures forall p :: Accepts(w, PcapText(w.resolve, c), p) <==>
                        Accepts(w, c.pcapFilter, p) && FromTo(w, c.sources, c.destinations, p)
    ensures PcapText(w.resolve, c) == "" <==> c.pcapFilter == "" && c.sources == [] && c.destinations == []
  {
    SourceDestinationCorrect(w, c.sources, c.destinations);
    CombineCorrect(w, c.pcapFilter, SourceDestinationFilter(w.resolve, c.sources, c.destinations));
    ClauseCorrect(w, Source, c.sources);
    ClauseCorrect(w, Destination, c.destinations);
    if c.sources != [] { assert c.sources[0] in c.sources; }
    if c.destinations != [] { assert c.destinations[0] in c.destinations; }
  }

  lemma EndsEmpty(w: World, c: Capture)
    requires ReadsAddresses(w.resolve) && FiltersValid(w.resolve, c)
    ensures Usable(SourceDestinationFilter(w.resolve, c.sources, c.destinations))
    ensures SourceDestinationFilter(w.resolve, c.sources, c.destinations) == "" <==>
            c.sources == [] && c.destinations == []
  {
    hide Clause, Parse;
    SourceDestinationCorrect(w, c.sources, c.destinations);
    ClauseCorrect(w, Source, c.sources);
    ClauseCorrect(w, Destination, c.destinations);
    if c.sources != [] { assert c.sources[0] in c.sources; }
    if c.destinations != [] { assert c.destinations[0] in c.destinations; }
  }

  lemma ChosenFlag(w: World, c: Capture)
    requires ReadsAddresses(w.resolve) && FiltersValid(w.resolve, c)
    ensures HasFlag(Chosen(w.resolve, c)) <==> Flagged(c)
  {
    hide SourceDestinationFilter;
    EndsEmpty(w, c);
    EndsNoDash(w.resolve, c);
    CombinedFlag(c.pcapFilter, SourceDestinationFilter(w.resolve, c.sources, c.destinations));
  }

  lemma UserHalf(w: World, c: Capture)
    requires ReadsAddresses(w.resolve) && FiltersValid(w.resolve, c) && Usable(UserText(c))
    ensures var chosen := Chosen(w.resolve, c);
            && Usable(chosen)
            && forall p :: Accepts(w, chosen, p) <==>
                           Accepts(w, UserText(c), p) && FromTo(w, c.sources, c.destinations, p)
  {
    PcapTextCorrect(w, c);
  }

  /** The system half: the include/exclude text, or the node's pods. */
  lemma SystemHalf(w: World, c: Capture, podIps: seq<string>)
    requires ReadsAddresses(w.resolve) && forall ip | ip in podIps :: w.resolve(ip).Some?
    requires AllPrintable(w, c)
    ensures var incl, excl := IncludeAtoms(w.resolve, c), ExcludeAtoms(w.resolve, c);
            var text := WithPodAddresses(podIps, FilterText(PortSetsOf(incl), PortSetsOf(excl)));
            Usable(text) && forall p :: Accepts(w, text, p) <==> SystemWants(w, c, podIps, p)
  {
    var incl, excl := IncludeAtoms(w.resolve, c), ExcludeAtoms(w.resolve, c);
    FilterTextCorrect(w, incl, excl);
    WithPodAddressesCorrect(w, FilterText(PortSetsOf(incl), PortSetsOf(excl)), podIps);
  }

  ghost predicate CommonEnvFor(w: World, c: Capture, common: Env)
  {
    && Get(common, PCAP_FILTER) == PcapText(w.resolve, c)
    && Get(common, TCPDUMP_RAW_FILTER) == RawFilter(c)
    && Get(common, TCPDUMP_FILTER) ==
       FilterText(PortSetsOf(IncludeAtoms(w.resolve, c)), PortSetsOf(ExcludeAtoms(w.resolve, c)))
  }

  /** The user text and the system text in a workload's environment. */
  ghost predicate HasFilters(env: seq<EnvVar>, chosen: string, system: string)
  {
    && chosen == (if Getenv(env, PCAP_FILTER) != "" then Getenv(env, PCAP_FILTER) else Getenv(env, TCPDUMP_RAW_FILTER))
    && system == Getenv(env, TCPDUMP_FILTER)
  }

  /** What the workload does with every pair of texts. */
  lemma WorkloadOutcome(env: seq<EnvVar>, chosen: string, system: string)
    requires HasFilters(env, chosen, system)
    ensures FilterToRun(env).ContainsFlag? <==> HasFlag(chosen)
    ensures FilterToRun(env).Blank? <==> chosen != "" && Trim(chosen) == ""
    ensures FilterToRun(env).Run? <==>
            !HasFlag(chosen) && (chosen == "" || Trim(chosen) != "") && Usable(CombineExpressions(Trim(chosen), system))
    ensures FilterToRun(env).Run? ==> FilterToRun(env).filter == CombineExpressions(Trim(chosen), system)
  {
    hide HasFlag, Usable, CombineExpressions;
    TrimKeeps(chosen);
    assert Trim("") == "";
    NoFlagWithoutDash("");
  }

  /** A well-formed user text and a well-formed system text are conjoined. */
  lemma WorkloadRuns(w: World, env: seq<EnvVar>, chosen: string, system: string)
    requires HasFilters(env, chosen, system) && Usable(chosen) && !HasFlag(chosen) && Usable(system)
    ensures FilterToRun(env).Run?
    ensures forall p :: Accepts(w, FilterToRun(env).filter, p) <==> Accepts(w, chosen, p) && Accepts(w, system, p)
  {
    hide HasFlag, FilterToRun, CombineExpressions;
    TrimKeeps(chosen);
    CombineCorrect(w, Trim(chosen), system);
    WorkloadOutcome(env, chosen, system);
  }

  /** An unprintable entry stops the workload, whatever the user's text. */
  lemma WorkloadRejects(env: seq<EnvVar>, chosen: string, system: string)
    requires HasFilters(env, chosen, system) && Unreadable(system) && system != ""
    ensures !FilterToRun(env).Run?
  {
    hide HasFlag, FilterToRun, Unreadable;
    WorkloadOutcome(env, chosen, system);
    UnreadableFails(system);
    UnreadableConjunct(Trim(chosen), system);
  }

  /** Whatever the user's text is, if the workload runs, it keeps nothing the system text rejects. */
  lemma WorkloadStaysWithin(w: World, env: seq<EnvVar>, chosen: string, system: string, p: Packet)
    requires HasFilters(env, chosen, system) && Usable(system) && FilterToRun(env).Run?
    requires Accepts(w, FilterToRun(env).filter, p)
    ensures Accepts(w, system, p)
  {
    hide HasFlag, FilterToRun, Parse;
    WorkloadOutcome(env, chosen, system);
    if Trim(chosen) != "" && system != "" {
      ConjunctStays(Trim(chosen), system);
    }
  }

  /** Adding the pods cannot repair an unreadable base filter. */
  lemma SystemUnreadable(w: World, c: Capture, podIps: seq<string>)
    requires ReadsAddresses(w.resolve)
    requires !AllPrintable(w, c)
    ensures var base := FilterText(PortSetsOf(IncludeAtoms(w.resolve, c)), PortSetsOf(ExcludeAtoms(w.resolve, c)));
            Unreadable(WithPodAddresses(podIps, base)) && WithPodAddresses(podIps, base) != ""
  {
    var incl, excl := IncludeAtoms(w.resolve, c), ExcludeAtoms(w.resolve, c);
    var base := FilterText(PortSetsOf(incl), PortSetsOf(excl));
    FilterTextUnreadable(w, incl, excl);
    FilterTextCorrect(w, incl, excl);
    PodsUnreadable(base, podIps);
  }

  lemma PodsUnreadable(base: string, podIps: seq<string>)
    requires Unreadable(base) && base != ""
    ensures Unreadable(WithPodAddresses(podIps, base)) && WithPodAddresses(podIps, base) != ""
  {
    if podIps != [] {
      var group := "(" + Join(HostTexts(podIps), " or ") + ")";
      UnreadableStays(base, " or " + group);
      assert base + (" or " + group) == base + " or " + group;
    }
  }

  /** The packets tcpdump keeps, if it runs. */
  ghost predicate Keeps(w: World, f: WorkloadFilter, p: Packet)
    requires f.Run? ==> Usable(f.filter)
  {
    f.Run? && Accepts(w, f.filter, p)
  }

  /** A job on a Linux node of a Capture that passed validation. */
  ghost predicate LinuxJobOf(
    ctx: Context, w: World, c: Capture, common: Env, job: Job, node: string, target: Target)
  {
    && ReadsAddresses(w.resolve) && FiltersValid(w.resolve, c)
    && (forall ip | ip in target.podIps :: w.resolve(ip).Some?)
    && CommonEnvFor(w, c, common) && TemplateLeavesFilters(ctx)
    && IsJobFor(ctx, job, node, target, common) && target.os == "linux"
  }

  lemma JobFilters(ctx: Context, w: World, c: Capture, common: Env, job: Job, node: string, target: Target)
    requires LinuxJobOf(ctx, w, c, common, job, node, target)
    ensures HasFilters(job.env, Chosen(w.resolve, c), WithPodAddresses(target.podIps, Get(common, TCPDUMP_FILTER)))
  {
    hide Lex, Parse, PcapText, WithPodAddresses, FilterText, FilterToRun, EntriesPrintable, Holds, IsJobFor;
    LinuxJobFilters(ctx, common, job, node, target);
  }

  /** On every Linux node, for every well-formed user expression: the workload refuses exactly the
      texts in which it sees a flag, runs tcpdump exactly when moreover all include and exclude
      entries are printable, and then with a filter that keeps exactly the packets the Capture
      requests there. */
  lemma CapturedPackets(
    ctx: Context, w: World, c: Capture, common: Env, job: Job, node: string, target: Target)
    requires LinuxJobOf(ctx, w, c, common, job, node, target) && Usable(UserText(c))
    ensures FilterToRun(job.env).ContainsFlag? <==> Flagged(c)
    ensures FilterToRun(job.env).Run? <==> !Flagged(c) && AllPrintable(w, c)
    ensures FilterToRun(job.env).SyntaxError? <==> !Flagged(c) && !AllPrintable(w, c)
    ensures FilterToRun(job.env).Run? ==>
              forall p :: Keeps(w, FilterToRun(job.env), p) <==> Requested(w, c, target.podIps, p)
  {
    hide Lex, Parse, PcapText, WithPodAddresses, FilterText, FilterToRun, AllPrintable, Holds, HasFlag, HasFilters,
         IsJobFor, Flagged, SystemWants, CombineExpressions, Unreadable;
    var chosen, system := Chosen(w.resolve, c), WithPodAddresses(target.podIps, Get(common, TCPDUMP_FILTER));
    JobFilters(ctx, w, c, common, job, node, target);
    UserHalf(w, c);
    ChosenFlag(w, c);
    TrimKeeps(chosen);
    WorkloadOutcome(job.env, chosen, system);
    if AllPrintable(w, c) {
      SystemHalf(w, c, target.podIps);
      if !HasFlag(chosen) { WorkloadRuns(w, job.env, chosen, system); }
    } else {
      SystemUnreadable(w, c, target.podIps);
      WorkloadRejects(job.env, chosen, system);
    }
  }

  /** On every Linux node, for every user text, well formed or not: a flag is refused, and if tcpdump
      runs at all then the entries are printable, no packet outside the include/exclude entries and
      pods is kept, and none outside the source and destination lists, provided the text combined with
      the lists is an expression of its own. */
  lemma CapturedWithin(
    ctx: Context, w: World, c: Capture, common: Env, job: Job, node: string, target: Target)
    requires LinuxJobOf(ctx, w, c, common, job, node, target)
    ensures FilterToRun(job.env).ContainsFlag? <==> Flagged(c)
    ensures FilterToRun(job.env).Run? ==> AllPrintable(w, c)
    ensures forall p | Keeps(w, FilterToRun(job.env), p) :: SystemWants(w, c, target.podIps, p)
    ensures Usable(PcapText(w.resolve, c)) ==>
              forall p | Keeps(w, FilterToRun(job.env), p) :: FromTo(w, c.sources, c.destinations, p)
  {
    hide Lex, Parse, PcapText, WithPodAddresses, FilterText, FilterToRun, AllPrintable, Holds, HasFlag, HasFilters,
         IsJobFor, Flagged, SystemWants, FromTo, CombineExpressions, Unreadable;
    var chosen, system := Chosen(w.resolve, c), WithPodAddresses(target.podIps, Get(common, TCPDUMP_FILTER));
    JobFilters(ctx, w, c, common, job, node, target);
    ChosenFlag(w, c);
    WorkloadOutcome(job.env, chosen, system);
    if AllPrintable(w, c) {
      SystemHalf(w, c, target.podIps);
      if FilterToRun(job.env).Run? {
        forall p | Keeps(w, FilterToRun(job.env), p) ensures Accepts(w, system, p) {
          WorkloadStaysWithin(w, job.env, chosen, system, p);
        }
        if Usable(PcapText(w.resolve, c)) {
          EndsKept(w, c, job.env, system);
        }
      }
    } else {
      SystemUnreadable(w, c, target.podIps);
      WorkloadRejects(job.env, chosen, system);
    }
  }

  lemma EndsKept(w: World, c: Capture, env: seq<EnvVar>, system: string)
    requires ReadsAddresses(w.resolve) && FiltersValid(w.resolve, c) && Usable(PcapText(w.resolve, c))
    requires HasFilters(env, Chosen(w.resolve, c), system) && Usable(system) && FilterToRun(env).Run?
    ensures forall p | Keeps(w, FilterToRun(env), p) :: FromTo(w, c.sources, c.destinations, p)
  {
    hide Lex, Parse, FilterToRun, Holds, HasFlag, FromTo, SourceDestinationFilter;
    var ends := SourceDestinationFilter(w.resolve, c.sources, c.destinations);
    EndsEmpty(w, c);
    SourceDestinationCorrect(w, c.sources, c.destinations);
    WorkloadOutcome(env, Chosen(w.resolve, c), system);
    if ends == "" {
      forall p ensures FromTo(w, c.sources, c.destinations, p) { NoLists(w, c, p); }
    } else {
      PcapTextKeepsEnds(w, c);
      WorkloadRuns(w, env, Chosen(w.resolve, c), system);
    }
  }

  lemma NoLists(w: World, c: Capture, p: Packet)
    requires c.sources == [] && c.destinations == []
    ensures FromTo(w, c.sources, c.destinations, p)
  {
  }

  /** If PCAP_FILTER is an expression, it accepts nothing outside the lists, whatever the user wrote. */
  lemma PcapTextKeepsEnds(w: World, c: Capture)
    requires ReadsAddresses(w.resolve) && FiltersValid(w.resolve, c) && Usable(PcapText(w.resolve, c))
    requires SourceDestinationFilter(w.resolve, c.sources, c.destinations) != ""
    ensures PcapText(w.resolve, c) != ""
    ensures forall p | Accepts(w, PcapText(w.resolve, c), p) :: FromTo(w, c.sources, c.destinations, p)
  {
    hide Lex, Parse, SourceDestinationFilter, FromTo;
    var ends := SourceDestinationFilter(w.resolve, c.sources, c.destinations);
    EndsEmpty(w, c);
    SourceDestinationCorrect(w, c.sources, c.destinations);
    if c.pcapFilter != "" {
      ConjunctStays(c.pcapFilter, ends);
    }
  }
}
