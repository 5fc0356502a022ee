/** What the generated bpftrace filters accept, and which events a generated script reports. */
module TraceMeaning {
  import opened GoStrings
  import opened IpBytes
  import opened Powers
  import opened TraceScript

  // ----- the meaning of the listed entries -----

  /** The address is a listed IP or lies in a listed network with a 4-byte mask. */
  ghost predicate ListedIP(ips: seq<Bytes>, a: Bytes) { exists ip | ip in ips :: To4(ip) == Some(a) }

  predicate InNet(c: Option<IPNet>, a: Bytes)
    requires IsV4(a)
  {
    ByteUsable(c) && MaskBytes(a, c.value.mask) == To4(c.value.ip).value
  }

  ghost predicate ListedNet(nets: seq<Option<IPNet>>, a: Bytes)
    requires IsV4(a)
  {
    exists c | c in nets :: InNet(c, a)
  }

  ghost predicate Listed(cfg: Config, a: Bytes)
    requires IsV4(a)
  {
    ListedIP(cfg.filterIPs, a) || ListedNet(cfg.filterCIDRs, a)
  }

  ghost predicate Matches(cfg: Config, p: Pair)
    requires ValidPair(p)
  {
    Listed(cfg, p.src) || Listed(cfg, p.dst)
  }

  /** An IPv4 network whose mask is not 4 bytes long; only the word builder keeps it. */
  predicate Odd(c: Option<IPNet>) { WordUsable(c) && !IsV4(c.value.mask) }

  predicate InOdd(c: Option<IPNet>, a: Bytes)
    requires IsV4(a)
  {
    Odd(c) && WordPasses(a, MaskHex(c.value.mask), IpToHex(To4(c.value.ip).value))
  }

  ghost predicate OddMatches(nets: seq<Option<IPNet>>, p: Pair)
    requires ValidPair(p)
  {
    exists c | c in nets :: InOdd(c, p.src) || InOdd(c, p.dst)
  }

  // ----- single conditions -----

  lemma ByteEqual(x: bv8, b: bv8) ensures Widen(x) == Widen(b) <==> x == b {}

  lemma ByteMaskedEqual(x: bv8, m: bv8, b: bv8)
    ensures MaskTest(Widen(x), Widen(m), Widen(b)) <==> Passes(x, m, b)
  {
  }

  lemma ByteOfEqual(side: Side, i: nat, b: bv8, p: Pair)
    requires ValidPair(p) && i < 4
    ensures Eval(Equal(ByteOf(side, i), Widen(b)), p) <==> SideOf(p, side)[i] == b
  {
    hide Widen;
    ByteEqual(SideOf(p, side)[i], b);
  }

  lemma ByteOfMasked(side: Side, i: nat, m: bv8, b: bv8, p: Pair)
    requires ValidPair(p) && i < 4
    ensures Eval(MaskedEqual(ByteOf(side, i), Widen(m), Widen(b)), p) <==> Passes(SideOf(p, side)[i], m, b)
  {
    hide MaskTest, Passes, Widen;
    ByteMaskedEqual(SideOf(p, side)[i], m, b);
  }

  lemma EvalFour(a: Cond, b: Cond, c: Cond, d: Cond, p: Pair)
    requires ValidPair(p)
    ensures Eval(AndAlso(AndAlso(AndAlso(a, b), c), d), p) <==> Eval(a, p) && Eval(b, p) && Eval(c, p) && Eval(d, p)
  {
    assert Eval(AndAlso(AndAlso(a, b), c), p) <==> Eval(AndAlso(a, b), p) && Eval(c, p);
  }

  lemma BytesEqualMeans(side: Side, b: Bytes, p: Pair)
    requires IsV4(b) && ValidPair(p)
    ensures Eval(BytesEqual(side, b), p) <==> SideOf(p, side) == b
  {
    hide Eval, Widen;
    var a := SideOf(p, side);
    EvalFour(Equal(ByteOf(side, 0), Widen(b[0])), Equal(ByteOf(side, 1), Widen(b[1])),
             Equal(ByteOf(side, 2), Widen(b[2])), Equal(ByteOf(side, 3), Widen(b[3])), p);
    ByteOfEqual(side, 0, b[0], p);
    ByteOfEqual(side, 1, b[1], p);
    ByteOfEqual(side, 2, b[2], p);
    ByteOfEqual(side, 3, b[3], p);
    assert a == b <==> a[0] == b[0] && a[1] == b[1] && a[2] == b[2] && a[3] == b[3];
  }

  lemma BytesMaskedEqualMeans(side: Side, m: Bytes, b: Bytes, p: Pair)
    requires IsV4(b) && IsV4(m) && ValidPair(p)
    ensures Eval(BytesMaskedEqual(side, m, b), p) <==> MaskBytes(SideOf(p, side), m) == b
  {
    hide Eval, Passes, MaskBytes, Widen;
    EvalFour(MaskedEqual(ByteOf(side, 0), Widen(m[0]), Widen(b[0])),
             MaskedEqual(ByteOf(side, 1), Widen(m[1]), Widen(b[1])),
             MaskedEqual(ByteOf(side, 2), Widen(m[2]), Widen(b[2])),
             MaskedEqual(ByteOf(side, 3), Widen(m[3]), Widen(b[3])), p);
    ByteOfMasked(side, 0, m[0], b[0], p);
    ByteOfMasked(side, 1, m[1], b[1], p);
    ByteOfMasked(side, 2, m[2], b[2], p);
    ByteOfMasked(side, 3, m[3], b[3], p);
    MaskedAt(SideOf(p, side), m, b);
  }

  lemma ByteIPMeans(b: Bytes, p: Pair)
    requires IsV4(b) && ValidPair(p)
    ensures Eval(ByteIPCond(b), p) <==> p.src == b || p.dst == b
  {
    hide BytesEqual;
    BytesEqualMeans(Src, b, p);
    BytesEqualMeans(Dst, b, p);
  }

  lemma ByteNetMeans(m: Bytes, b: Bytes, p: Pair)
    requires IsV4(b) && IsV4(m) && ValidPair(p)
    ensures Eval(ByteNetCond(m, b), p) <==> MaskBytes(p.src, m) == b || MaskBytes(p.dst, m) == b
  {
    hide BytesMaskedEqual, MaskBytes;
    BytesMaskedEqualMeans(Src, m, b, p);
    BytesMaskedEqualMeans(Dst, m, b, p);
  }

  lemma LoadSwapped(side: Side, p: Pair)
    requires ValidPair(p)
    ensures Load(SwappedRaw(side), p) == BigEndian(SideOf(p, side))
  {
    SwapLoad(SideOf(p, side));
  }

  lemma WordIPMeans(b: Bytes, p: Pair)
    requires IsV4(b) && ValidPair(p)
    ensures Eval(WordIPCond(IpToHex(b)), p) <==> p.src == b || p.dst == b
  {
    hide Load, BigEndian;
    LoadSwapped(Src, p);
    LoadSwapped(Dst, p);
    WordsEqual(p.src, b);
    WordsEqual(p.dst, b);
  }

  lemma WordTest(side: Side, mask: bv32, net: bv32, p: Pair)
    requires ValidPair(p)
    ensures Eval(MaskedEqual(SwappedRaw(side), mask, net), p) <==> WordPasses(SideOf(p, side), mask, net)
  {
    hide BigEndian, Load, MaskTest;
    LoadSwapped(side, p);
  }

  lemma WordNetMeans(mask: bv32, net: bv32, p: Pair)
    requires ValidPair(p)
    ensures Eval(WordNetCond(mask, net), p) <==> WordPasses(p.src, mask, net) || WordPasses(p.dst, mask, net)
  {
    hide Load, WordPasses;
    WordTest(Src, mask, net, p);
    WordTest(Dst, mask, net, p);
    assert Eval(WordNetCond(mask, net), p) <==>
           Eval(MaskedEqual(SwappedRaw(Src), mask, net), p) || Eval(MaskedEqual(SwappedRaw(Dst), mask, net), p);
  }

  /** On a 4-byte mask the word test is the byte test. */
  lemma WordNetIsByteNet(m: Bytes, b: Bytes, p: Pair)
    requires IsV4(b) && IsV4(m) && ValidPair(p)
    ensures Eval(WordNetCond(MaskHex(m), IpToHex(b)), p) <==> MaskBytes(p.src, m) == b || MaskBytes(p.dst, m) == b
  {
    hide BigEndian, MaskBytes, WordPasses, Eval, WordNetCond;
    WordNetMeans(BigEndian(m), BigEndian(b), p);
    WordsMasked(p.src, m, b);
    WordsMasked(p.dst, m, b);
  }

  // ----- lists of conditions -----

  ghost predicate SomeCond(conds: seq<Cond>, p: Pair)
    requires ValidPair(p)
  {
    exists c | c in conds :: Eval(c, p)
  }

  lemma SomeCondConcat(a: seq<Cond>, b: seq<Cond>, p: Pair)
    requires ValidPair(p)
    ensures SomeCond(a + b, p) <==> SomeCond(a, p) || SomeCond(b, p)
  {
    hide Eval;
  }

  lemma SomeCondOne(c: Cond, p: Pair)
    requires ValidPair(p)
    ensures SomeCond([c], p) <==> Eval(c, p)
  {
    hide Eval;
    assert c in [c];
  }

  lemma {:induction false} JoinOrMeans(conds: seq<Cond>, p: Pair)
    requires conds != [] && ValidPair(p)
    ensures Eval(JoinOr(conds), p) <==> SomeCond(conds, p)
  {
    var n := |conds| - 1;
    assert conds == conds[..n] + [conds[n]];
    SomeCondOne(conds[n], p);
    SomeCondConcat(conds[..n], [conds[n]], p);
    if n > 0 {
      JoinOrMeans(conds[..n], p);
    }
  }

  lemma {:induction false} IPCondsMean(ips: seq<Bytes>, p: Pair)
    requires ValidPair(p)
    ensures SomeCond(ByteIPConds(ips), p) <==> ListedIP(ips, p.src) || ListedIP(ips, p.dst)
    ensures SomeCond(WordIPConds(ips), p) <==> ListedIP(ips, p.src) || ListedIP(ips, p.dst)
    ensures ByteIPConds(ips) == [] <==> forall ip | ip in ips :: To4(ip).None?
    ensures WordIPConds(ips) == [] <==> forall ip | ip in ips :: To4(ip).None?
  {
    hide Eval, ByteIPCond, WordIPCond, To4, IpToHex;
    if ips != [] {
      var n := |ips| - 1;
      var front, last := ips[..n], ips[n];
      assert ips == front + [last];
      IPCondsMean(front, p);
      if To4(last).Some? {
        var b := To4(last).value;
        ByteIPMeans(b, p);
        WordIPMeans(b, p);
        SomeCondOne(ByteIPCond(b), p);
        SomeCondOne(WordIPCond(IpToHex(b)), p);
        SomeCondConcat(ByteIPConds(front), [ByteIPCond(b)], p);
        SomeCondConcat(WordIPConds(front), [WordIPCond(IpToHex(b))], p);
      }
    }
  }

  lemma {:induction false} ByteNetCondsMean(nets: seq<Option<IPNet>>, p: Pair)
    requires ValidPair(p)
    ensures SomeCond(ByteNetConds(nets), p) <==> ListedNet(nets, p.src) || ListedNet(nets, p.dst)
    ensures ByteNetConds(nets) == [] <==> forall c | c in nets :: !ByteUsable(c)
  {
    hide Eval, ByteNetCond, To4, MaskBytes;
    if nets != [] {
      var n := |nets| - 1;
      var front, last := nets[..n], nets[n];
      assert nets == front + [last];
      ByteNetCondsMean(front, p);
      if ByteUsable(last) {
        var m, b := last.value.mask, To4(last.value.ip).value;
        ByteNetMeans(m, b, p);
        SomeCondOne(ByteNetCond(m, b), p);
        SomeCondConcat(ByteNetConds(front), [ByteNetCond(m, b)], p);
      }
      assert ListedNet(nets, p.src) <==> ListedNet(front, p.src) || InNet(last, p.src);
      assert ListedNet(nets, p.dst) <==> ListedNet(front, p.dst) || InNet(last, p.dst);
    }
  }

  lemma WordNetCondMeans(c: Option<IPNet>, p: Pair)
    requires ValidPair(p) && WordUsable(c)
    ensures Eval(WordNetCond(MaskHex(c.value.mask), IpToHex(To4(c.value.ip).value)), p) <==>
            InNet(c, p.src) || InNet(c, p.dst) || InOdd(c, p.src) || InOdd(c, p.dst)
  {
    var m, b := c.value.mask, To4(c.value.ip).value;
    hide BigEndian, MaskBytes, Eval, WordPasses, WordNetCond;
    WordNetMeans(MaskHex(m), IpToHex(b), p);
    if IsV4(m) {
      WordNetIsByteNet(m, b, p);
    }
  }

  lemma {:induction false} WordNetCondsMean(nets: seq<Option<IPNet>>, p: Pair)
    requires ValidPair(p)
    ensures SomeCond(WordNetConds(nets), p) <==>
            ListedNet(nets, p.src) || ListedNet(nets, p.dst) || OddMatches(nets, p)
    ensures WordNetConds(nets) == [] <==> forall c | c in nets :: !WordUsable(c)
  {
    hide Eval, WordNetCond, InNet, InOdd, MaskHex, IpToHex;
    if nets != [] {
      var n := |nets| - 1;
      var front, last := nets[..n], nets[n];
      assert nets == front + [last];
      WordNetCondsMean(front, p);
      if WordUsable(last) {
        var cond := WordNetCond(MaskHex(last.value.mask), IpToHex(To4(last.value.ip).value));
        WordNetCondMeans(last, p);
        SomeCondOne(cond, p);
        SomeCondConcat(WordNetConds(front), [cond], p);
      } else {
        NotWordUsable(last, p);
      }
    }
  }

  lemma NotWordUsable(c: Option<IPNet>, p: Pair)
    requires ValidPair(p) && !WordUsable(c)
    ensures !InNet(c, p.src) && !InNet(c, p.dst) && !InOdd(c, p.src) && !InOdd(c, p.dst)
  {
  }

  // ----- the two filters -----

  ghost predicate FilterPasses(cfg: Config, point: ProbePoint, p: Pair)
    requires ValidPair(p)
  {
    forall s | s in FilterOf(cfg, point) :: s.ReturnUnless? && Eval(s.c, p)
  }

  ghost predicate SomeUsable(cfg: Config)
  {
    (exists ip | ip in cfg.filterIPs :: To4(ip).Some?) || (exists c | c in cfg.filterCIDRs :: ByteUsable(c))
  }

  ghost predicate SomeOdd(cfg: Config) { exists c | c in cfg.filterCIDRs :: Odd(c) }

  lemma StmtPasses(conds: seq<Cond>, p: Pair)
    requires ValidPair(p)
    ensures (forall s | s in FilterStmt(conds) :: s.ReturnUnless? && Eval(s.c, p)) <==> conds == [] || SomeCond(conds, p)
  {
    hide Eval, JoinOr;
    if conds != [] {
      JoinOrMeans(conds, p);
      assert ReturnUnless(JoinOr(conds)) in FilterStmt(conds);
    }
  }

  /** Exactly what each of the two filters lets through. */
  lemma FilterMeans(cfg: Config, point: ProbePoint, p: Pair)
    requires ValidPair(p)
    ensures !ReadsSkb(point) ==> (FilterPasses(cfg, point, p) <==> !SomeUsable(cfg) || Matches(cfg, p))
    ensures ReadsSkb(point) ==> (FilterPasses(cfg, point, p) <==>
              (!SomeUsable(cfg) && !SomeOdd(cfg)) || Matches(cfg, p) || OddMatches(cfg.filterCIDRs, p))
  {
    hide Eval, InNet, InOdd, JoinOr, ByteIPConds, ByteNetConds, WordIPConds, WordNetConds;
    IPCondsMean(cfg.filterIPs, p);
    if ReadsSkb(point) {
      WordNetCondsMean(cfg.filterCIDRs, p);
      SomeCondConcat(WordIPConds(cfg.filterIPs), WordNetConds(cfg.filterCIDRs), p);
      StmtPasses(WordConds(cfg), p);
    } else {
      ByteNetCondsMean(cfg.filterCIDRs, p);
      SomeCondConcat(ByteIPConds(cfg.filterIPs), ByteNetConds(cfg.filterCIDRs), p);
      StmtPasses(ByteConds(cfg), p);
    }
  }

  /** The decision all probes share when no IPv4 network has an odd mask. */
  ghost predicate Decision(cfg: Config, p: Pair)
    requires ValidPair(p)
  {
    !SomeUsable(cfg) || Matches(cfg, p)
  }

  /** Byte tests and word tests agree: every probe makes the same decision. */
  lemma ProbesAgree(cfg: Config, point: ProbePoint, p: Pair)
    requires ValidPair(p) && !SomeOdd(cfg)
    ensures FilterPasses(cfg, point, p) <==> Decision(cfg, p)
  {
    hide Eval, FilterPasses, Matches, SomeUsable;
    FilterMeans(cfg, point, p);
  }

  /** With odd masks present, the exact pairs on which the two filters still agree. */
  lemma ProbesAgreeExactly(cfg: Config, skb: ProbePoint, args: ProbePoint, p: Pair)
    requires ValidPair(p) && ReadsSkb(skb) && !ReadsSkb(args)
    ensures (FilterPasses(cfg, skb, p) <==> FilterPasses(cfg, args, p)) <==>
            if SomeUsable(cfg) then Matches(cfg, p) || !OddMatches(cfg.filterCIDRs, p)
            else !SomeOdd(cfg) || OddMatches(cfg.filterCIDRs, p)
  {
    hide Eval, FilterPasses, SomeUsable, InNet, InOdd, To4, ListedIP;
    FilterMeans(cfg, skb, p);
    FilterMeans(cfg, args, p);
    if !SomeUsable(cfg) { NoUsableNoMatch(cfg, p); }
  }

  lemma NoUsableNoMatch(cfg: Config, p: Pair)
    requires ValidPair(p) && !SomeUsable(cfg)
    ensures !Matches(cfg, p)
  {
  }

  /** The shared decision is "no filter configured, or an address is listed" on all pairs exactly
      when no filter is configured or some entry is usable; a list of unusable entries only (IPv6
      networks, say) filters nothing. */
  lemma DecisionIsListed(cfg: Config)
    ensures (forall p | ValidPair(p) :: Decision(cfg, p) <==> !HasIPFilter(cfg) || Matches(cfg, p)) <==>
            !HasIPFilter(cfg) || SomeUsable(cfg)
  {
    var zero := Pair([0, 0, 0, 0], [0, 0, 0, 0]);
    if HasIPFilter(cfg) && !SomeUsable(cfg) {
      NoUsableNoMatch(cfg, zero);
      assert ValidPair(zero) && Decision(cfg, zero) && !Matches(cfg, zero);
    }
  }

  /** A mapped network, as `::ffff:1.2.3.0/120` is read: the word filter passes nothing while the byte
      filter passes everything. */
  lemma MappedNetworkDisagrees(cfg: Config, p: Pair)
    requires ValidPair(p) && cfg.filterIPs == []
    requires cfg.filterCIDRs == [Some(IPNet([0, 0, 0, 0, 0, 0, 0, 0, 0, 0, 0xff, 0xff, 1, 2, 3, 0],
                                            [0xff, 0xff, 0xff, 0xff, 0xff, 0xff, 0xff, 0xff,
                                             0xff, 0xff, 0xff, 0xff, 0xff, 0xff, 0xff, 0]))]
    ensures !FilterPasses(cfg, KfreeSkb, p) && FilterPasses(cfg, TcpSendReset, p)
  {
    hide Eval, FilterPasses;
    FilterMeans(cfg, KfreeSkb, p);
    FilterMeans(cfg, TcpSendReset, p);
    var c := cfg.filterCIDRs[0];
    assert c in cfg.filterCIDRs && Odd(c);
    assert !SomeUsable(cfg);
    NoUsableNoMatch(cfg, p);
    MappedMasks(c, p.src);
    MappedMasks(c, p.dst);
  }

  lemma ZeroMask(x: bv32) ensures x & 0 == 0 {}

  lemma MappedMasks(c: Option<IPNet>, a: Bytes)
    requires IsV4(a) && c.Some? && |c.value.mask| == 16 && c.value.mask[0] == 0xff
    requires To4(c.value.ip) == Some([1, 2, 3, 0])
    ensures !InOdd(c, a)
  {
    assert MaskHex(c.value.mask) == 0;
    ZeroMask(BigEndian(a));
  }

  /** A prefix entry with host bits zero matches exactly the addresses of its block. */
  lemma PrefixEntryIsBlock(net: Bytes, len: nat, a: Bytes)
    requires IsV4(net) && IsV4(a) && len <= 32 && MaskBytes(net, PrefixMask(len)) == net
    ensures InNet(Some(IPNet(net, PrefixMask(len))), a) <==>
            Number(net) <= Number(a) < Number(net) + Pow2(32 - len)
  {
    hide MaskBytes, PrefixMask, Number, Pow2;
    PrefixIsInterval(a, net, len);
  }

  // ----- events -----

  predicate IPv4Event(e: Event)
  {
    if ReadsSkb(e.point) then e.protocol == (0x08, 0x00) else e.family == 2
  }

  /** reason > 2 for drops, error != 0 for socket errors, retval < 0 for queue drops. */
  predicate ProbeTest(e: Event)
  {
    match e.point
    case KfreeSkb => e.reason > 2
    case InetSkErrorReport => e.error != 0
    case NfQueue => e.retval < 0
    case TcpSendReset => true
    case TcpReceiveReset => true
    case TcpRetransmitSkb => true
  }

  lemma ProtocolTest(b: (bv8, bv8))
    ensures BSwap16(LoadProtocol(b)) == 0x0800 <==> b == (0x08, 0x00)
  {
  }

  lemma GuardsMean(e: Event)
    requires ValidPair(e.pair)
    ensures Prints(GuardsOf(e.point), e) <==> IPv4Event(e) && ProbeTest(e)
  {
    hide BSwap16, LoadProtocol, Eval;
    ProtocolTest(e.protocol);
    var g := GuardsOf(e.point);
    assert Prints(g, e) <==> !Returns(g[0], e) && (|g| > 1 ==> !Returns(g[1], e));
  }

  lemma FilterOfShape(cfg: Config, point: ProbePoint)
    ensures forall s | s in FilterOf(cfg, point) :: s.ReturnUnless?
  {
  }

  /** A probe prints an event iff it is IPv4, passes the probe's own test, and passes the filter. */
  lemma ProbePrints(cfg: Config, e: Event)
    requires ValidPair(e.pair)
    ensures Prints(ProbeFor(cfg, e.point).body, e) <==>
            IPv4Event(e) && ProbeTest(e) && FilterPasses(cfg, e.point, e.pair)
  {
    hide Eval, IPv4Event, ProbeTest, FilterOf, GuardsOf;
    GuardsMean(e);
    FilterOfShape(cfg, e.point);
    var body := GuardsOf(e.point) + FilterOf(cfg, e.point);
    assert Prints(body, e) <==> Prints(GuardsOf(e.point), e) && Prints(FilterOf(cfg, e.point), e);
    assert Prints(FilterOf(cfg, e.point), e) <==> FilterPasses(cfg, e.point, e.pair);
  }

  /** What the filter of a probe lets through, for every configuration: the two probes that read the
      packet buffer compare words, the others bytes. */
  ghost predicate PassesFilter(cfg: Config, point: ProbePoint, p: Pair)
    requires ValidPair(p)
  {
    if point == KfreeSkb || point == NfQueue
    then (!SomeUsable(cfg) && !SomeOdd(cfg)) || Matches(cfg, p) || OddMatches(cfg.filterCIDRs, p)
    else !SomeUsable(cfg) || Matches(cfg, p)
  }

  /** The events each probe is for, when its option is on: IPv4 only; drops with a reason above 2, socket
      errors other than 0, negative queue verdicts. */
  predicate Wanted(cfg: Config, e: Event)
  {
    match e.point
    case KfreeSkb => cfg.enableDrops && e.protocol == (0x08, 0x00) && e.reason > 2
    case TcpSendReset => cfg.enableRST && e.family == 2
    case TcpReceiveReset => cfg.enableRST && e.family == 2
    case InetSkErrorReport => cfg.enableErrors && e.family == 2 && e.error != 0
    case TcpRetransmitSkb => cfg.enableRetransmits && e.family == 2
    case NfQueue => cfg.enableNfqueueDrops && e.protocol == (0x08, 0x00) && e.retval < 0
  }

  ghost predicate ShouldReport(cfg: Config, e: Event)
    requires ValidPair(e.pair)
  {
    Wanted(cfg, e) && PassesFilter(cfg, e.point, e.pair)
  }

  /** The generated script reports every event that should be reported exactly once, and no other;
      without odd masks every probe makes the same decision. */
  method GenerateScript(cfg: Config) returns (script: seq<Probe>)
    ensures forall e: Event | ValidPair(e.pair) ::
              Reports(script, e) == if ShouldReport(cfg, e) then 1 else 0
    ensures !SomeOdd(cfg) ==> forall e: Event | ValidPair(e.pair) ::
              ShouldReport(cfg, e) <==> Wanted(cfg, e) && Decision(cfg, e.pair)
  {
    script := Generate(cfg);
    forall e: Event | ValidPair(e.pair)
      ensures Reports(script, e) == if ShouldReport(cfg, e) then 1 else 0
      ensures !SomeOdd(cfg) ==> (PassesFilter(cfg, e.point, e.pair) <==> Decision(cfg, e.pair))
    {
      EventDecision(cfg, e);
    }
  }

  lemma EventDecision(cfg: Config, e: Event)
    requires ValidPair(e.pair)
    ensures Enabled(cfg, e.point) && Prints(ProbeFor(cfg, e.point).body, e) <==> ShouldReport(cfg, e)
    ensures !SomeOdd(cfg) ==> (PassesFilter(cfg, e.point, e.pair) <==> Decision(cfg, e.pair))
  {
    hide Eval, Prints, FilterPasses, Decision, Matches, OddMatches, SomeUsable, SomeOdd;
    ProbePrints(cfg, e);
    FilterMeans(cfg, e.point, e.pair);
    if !SomeOdd(cfg) { ProbesAgree(cfg, e.point, e.pair); }
  }

  // ----- filters on addresses -----

  /** The entries are these addresses, each in its 4-byte form or in the form net.ParseIP returns. */
  ghost predicate Spells(ips: seq<Bytes>, addrs: seq<Bytes>)
  {
    && |ips| == |addrs| && (forall a | a in addrs :: IsV4(a))
    && forall i | 0 <= i < |ips| :: ips[i] == addrs[i] || ips[i] == Mapped(addrs[i])
  }

  lemma ListedSpelt(ips: seq<Bytes>, addrs: seq<Bytes>, a: Bytes)
    requires Spells(ips, addrs) && IsV4(a)
    ensures ListedIP(ips, a) <==> a in addrs
  {
    hide To4, Mapped;
    forall i | 0 <= i < |ips| ensures To4(ips[i]) == Some(addrs[i]) {
      assert addrs[i] in addrs;
      To4Exactly(ips[i], addrs[i]);
    }
    if a in addrs {
      var i :| 0 <= i < |addrs| && addrs[i] == a;
      assert ips[i] in ips;
    }
  }

  /** A filter on addresses only reports exactly the wanted events that have one of them at either end. */
  lemma AddressesReported(cfg: Config, addrs: seq<Bytes>, e: Event)
    requires cfg.filterCIDRs == [] && addrs != [] && Spells(cfg.filterIPs, addrs) && ValidPair(e.pair)
    ensures ShouldReport(cfg, e) <==> Wanted(cfg, e) && (e.pair.src in addrs || e.pair.dst in addrs)
  {
    hide To4, Mapped, Wanted;
    ListedSpelt(cfg.filterIPs, addrs, e.pair.src);
    ListedSpelt(cfg.filterIPs, addrs, e.pair.dst);
    assert addrs[0] in addrs;
    To4Exactly(cfg.filterIPs[0], addrs[0]);
    assert cfg.filterIPs[0] in cfg.filterIPs;
  }

  method TraceAddresses(cfg: Config, addrs: seq<Bytes>) returns (script: seq<Probe>)
    requires cfg.filterCIDRs == [] && addrs != [] && Spells(cfg.filterIPs, addrs)
    ensures forall e: Event | ValidPair(e.pair) ::
              Reports(script, e) == if Wanted(cfg, e) && (e.pair.src in addrs || e.pair.dst in addrs) then 1 else 0
  {
    hide ShouldReport, Spells, Wanted;
    script := GenerateScript(cfg);
    forall e: Event | ValidPair(e.pair)
      ensures ShouldReport(cfg, e) <==> Wanted(cfg, e) && (e.pair.src in addrs || e.pair.dst in addrs)
    {
      AddressesReported(cfg, addrs, e);
    }
  }
}
