/** The bpftrace script generator: one address filter compiled twice, to byte tests and to masked
    32-bit tests, inside the guards of six probes (shell/tracescript.go). A script is modelled as
    the conditions and early returns it consists of; its text is not. */
module TraceScript {
  import opened GoStrings
  import opened IpBytes

  // ----- configuration -----

  datatype IPNet = IPNet(ip: Bytes, mask: Bytes)

  /** A nil entry of filterCIDRs is None. */
  datatype Config = Config(
    filterIPs: seq<Bytes>, filterCIDRs: seq<Option<IPNet>>,
    enableDrops: bool, enableRST: bool, enableErrors: bool, enableRetransmits: bool, enableNfqueueDrops: bool)

  // ----- the script language -----

  datatype Side = Src | Dst

  /** `$s0`..`$s3`, `$d0`..`$d3`, and bswap of `$saddr_raw`, `$daddr_raw`. */
  datatype Operand = ByteOf(side: Side, i: nat) | SwappedRaw(side: Side)

  datatype Cond =
    | Equal(x: Operand, k: bv32)
    | MaskedEqual(x: Operand, mask: bv32, k: bv32)
    | AndAlso(l: Cond, r: Cond)
    | OrElse(l: Cond, r: Cond)

  /** The early returns of a probe body, in order; a body that reaches its end prints the event. */
  datatype Stmt =
    | ReturnIfReasonAtMost(n: int)
    | ReturnIfProtocolNot(ethertype: bv16)
    | ReturnIfFamilyNot(n: int)
    | ReturnIfErrorIs(n: int)
    | ReturnIfRetvalAtLeast(n: int)
    | ReturnUnless(c: Cond)

  datatype ProbePoint =
    | KfreeSkb | TcpSendReset | TcpReceiveReset | InetSkErrorReport | TcpRetransmitSkb | NfQueue

  datatype Probe = Probe(point: ProbePoint, body: seq<Stmt>)

  /** Two addresses as they lie in a packet or in tracepoint arguments: network order. */
  datatype Pair = Pair(src: Bytes, dst: Bytes)

  predicate ValidPair(p: Pair) { IsV4(p.src) && IsV4(p.dst) }

  /** `protocol` is the two header bytes of skb->protocol. */
  datatype Event = Event(
    point: ProbePoint, reason: int, family: int, protocol: (bv8, bv8), error: int, retval: int, pair: Pair)

  function SideOf(p: Pair, side: Side): Bytes { if side.Src? then p.src else p.dst }

  function Widen(b: bv8): bv32 { b as bv32 }

  function Load(x: Operand, p: Pair): bv32
    requires ValidPair(p)
  {
    match x
    case ByteOf(side, i) => if i < 4 then Widen(SideOf(p, side)[i]) else 0
    case SwappedRaw(side) => BSwap(LittleEndian(SideOf(p, side)))
  }

  predicate Eval(c: Cond, p: Pair)
    requires ValidPair(p)
  {
    match c
    case Equal(x, k) => Load(x, p) == k
    case MaskedEqual(x, mask, k) => MaskTest(Load(x, p), mask, k)
    case AndAlso(l, r) => Eval(l, p) && Eval(r, p)
    case OrElse(l, r) => Eval(l, p) || Eval(r, p)
  }

  function BSwap16(x: bv16): bv16 { (x << 8) | (x >> 8) }

  function LoadProtocol(b: (bv8, bv8)): bv16 { ((b.1 as bv16) << 8) | (b.0 as bv16) }

  predicate Returns(s: Stmt, e: Event)
    requires ValidPair(e.pair)
  {
    match s
    case ReturnIfReasonAtMost(n) => e.reason <= n
    case ReturnIfProtocolNot(n) => BSwap16(LoadProtocol(e.protocol)) != n
    case ReturnIfFamilyNot(n) => e.family != n
    case ReturnIfErrorIs(n) => e.error == n
    case ReturnIfRetvalAtLeast(n) => e.retval >= n
    case ReturnUnless(c) => !Eval(c, e.pair)
  }

  predicate Prints(body: seq<Stmt>, e: Event)
    requires ValidPair(e.pair)
  {
    forall s | s in body :: !Returns(s, e)
  }

  /** How many lines a script prints for one event. */
  function Reports(script: seq<Probe>, e: Event): nat
    requires ValidPair(e.pair)
  {
    if script == [] then 0
    else
      var last := script[|script| - 1];
      Reports(script[..|script| - 1], e) + (if last.point == e.point && Prints(last.body, e) then 1 else 0)
  }

  // ----- the two filter builders -----

  function BytesEqual(side: Side, b: Bytes): Cond
    requires IsV4(b)
  {
    AndAlso(AndAlso(AndAlso(Equal(ByteOf(side, 0), Widen(b[0])), Equal(ByteOf(side, 1), Widen(b[1]))),
                    Equal(ByteOf(side, 2), Widen(b[2]))),
            Equal(ByteOf(side, 3), Widen(b[3])))
  }

  function BytesMaskedEqual(side: Side, m: Bytes, b: Bytes): Cond
    requires IsV4(b) && IsV4(m)
  {
    AndAlso(AndAlso(AndAlso(MaskedEqual(ByteOf(side, 0), Widen(m[0]), Widen(b[0])),
                            MaskedEqual(ByteOf(side, 1), Widen(m[1]), Widen(b[1]))),
                    MaskedEqual(ByteOf(side, 2), Widen(m[2]), Widen(b[2]))),
            MaskedEqual(ByteOf(side, 3), Widen(m[3]), Widen(b[3])))
  }

  function ByteIPCond(b: Bytes): Cond
    requires IsV4(b)
  {
    OrElse(BytesEqual(Src, b), BytesEqual(Dst, b))
  }

  function ByteNetCond(m: Bytes, b: Bytes): Cond
    requires IsV4(b) && IsV4(m)
  {
    OrElse(BytesMaskedEqual(Src, m, b), BytesMaskedEqual(Dst, m, b))
  }

  function WordIPCond(hex: bv32): Cond { OrElse(Equal(SwappedRaw(Src), hex), Equal(SwappedRaw(Dst), hex)) }

  function WordNetCond(mask: bv32, net: bv32): Cond
  {
    OrElse(MaskedEqual(SwappedRaw(Src), mask, net), MaskedEqual(SwappedRaw(Dst), mask, net))
  }

  /** strings.Join(conditions, " || "). */
  function JoinOr(conds: seq<Cond>): Cond
    requires conds != []
  {
    if |conds| == 1 then conds[0] else OrElse(JoinOr(conds[..|conds| - 1]), conds[|conds| - 1])
  }

  /** The statement of a builder, or nothing when it has no condition. */
  function FilterStmt(conds: seq<Cond>): seq<Stmt>
  {
    if conds == [] then [] else [ReturnUnless(JoinOr(conds))]
  }

  function ByteIPConds(ips: seq<Bytes>): seq<Cond>
  {
    if ips == [] then []
    else
      var front, v4 := ByteIPConds(ips[..|ips| - 1]), To4(ips[|ips| - 1]);
      if v4.None? then front else front + [ByteIPCond(v4.value)]
  }

  /** An entry the byte builder uses: an IPv4 network with a 4-byte mask. */
  predicate ByteUsable(c: Option<IPNet>) { c.Some? && To4(c.value.ip).Some? && IsV4(c.value.mask) }

  function ByteNetConds(nets: seq<Option<IPNet>>): seq<Cond>
  {
    if nets == [] then []
    else
      var front, c := ByteNetConds(nets[..|nets| - 1]), nets[|nets| - 1];
      if ByteUsable(c) then front + [ByteNetCond(c.value.mask, To4(c.value.ip).value)] else front
  }

  function WordIPConds(ips: seq<Bytes>): seq<Cond>
  {
    if ips == [] then []
    else
      var front, v4 := WordIPConds(ips[..|ips| - 1]), To4(ips[|ips| - 1]);
      if v4.None? then front else front + [WordIPCond(IpToHex(v4.value))]
  }

  predicate WordUsable(c: Option<IPNet>) { c.Some? && To4(c.value.ip).Some? }

  /** ipToHex(net.IP(mask).To4()): zero when the mask has no 4-byte form. */
  function MaskHex(mask: Bytes): bv32 { if To4(mask).Some? then IpToHex(To4(mask).value) else 0 }

  function WordNetConds(nets: seq<Option<IPNet>>): seq<Cond>
  {
    if nets == [] then []
    else
      var front, c := WordNetConds(nets[..|nets| - 1]), nets[|nets| - 1];
      if WordUsable(c) then front + [WordNetCond(MaskHex(c.value.mask), IpToHex(To4(c.value.ip).value))] else front
  }

  function ByteConds(cfg: Config): seq<Cond> { ByteIPConds(cfg.filterIPs) + ByteNetConds(cfg.filterCIDRs) }

  function WordConds(cfg: Config): seq<Cond> { WordIPConds(cfg.filterIPs) + WordNetConds(cfg.filterCIDRs) }

  predicate HasIPFilter(cfg: Config) { |cfg.filterIPs| > 0 || |cfg.filterCIDRs| > 0 }

  method BuildTCPIPFilterCheckFromLocalVars(cfg: Config) returns (r: seq<Stmt>)
    ensures r == FilterStmt(ByteConds(cfg))
  {
    if |cfg.filterIPs| == 0 && |cfg.filterCIDRs| == 0 {
      return [];
    }
    var conds: seq<Cond> := [];
    for i := 0 to |cfg.filterIPs|
      invariant conds == ByteIPConds(cfg.filterIPs[..i])
    {
      assert cfg.filterIPs[..i + 1][..i] == cfg.filterIPs[..i];
      var ipv4 := To4(cfg.filterIPs[i]);
      if ipv4.None? { continue; }
      conds := conds + [ByteIPCond(ipv4.value)];
    }
    assert cfg.filterIPs[..|cfg.filterIPs|] == cfg.filterIPs;
    ghost var ipConds := conds;
    for i := 0 to |cfg.filterCIDRs|
      invariant conds == ipConds + ByteNetConds(cfg.filterCIDRs[..i])
    {
      assert cfg.filterCIDRs[..i + 1][..i] == cfg.filterCIDRs[..i];
      var cidr := cfg.filterCIDRs[i];
      if cidr.None? { continue; }
      var ipv4, mask := To4(cidr.value.ip), cidr.value.mask;
      if ipv4.None? || |mask| != 4 { continue; }
      conds := conds + [ByteNetCond(mask, ipv4.value)];
    }
    assert cfg.filterCIDRs[..|cfg.filterCIDRs|] == cfg.filterCIDRs;
    if |conds| == 0 {
      return [];
    }
    return [ReturnUnless(JoinOr(conds))];
  }

  method BuildSkbIPFilterCondition(cfg: Config) returns (r: seq<Stmt>)
    ensures r == FilterStmt(WordConds(cfg))
  {
    if |cfg.filterIPs| == 0 && |cfg.filterCIDRs| == 0 {
      return [];
    }
    var conds: seq<Cond> := [];
    for i := 0 to |cfg.filterIPs|
      invariant conds == WordIPConds(cfg.filterIPs[..i])
    {
      assert cfg.filterIPs[..i + 1][..i] == cfg.filterIPs[..i];
      var ipv4 := To4(cfg.filterIPs[i]);
      if ipv4.None? { continue; }
      var ipHex := IpToHex(ipv4.value);
      conds := conds + [WordIPCond(ipHex)];
    }
    assert cfg.filterIPs[..|cfg.filterIPs|] == cfg.filterIPs;
    ghost var ipConds := conds;
    for i := 0 to |cfg.filterCIDRs|
      invariant conds == ipConds + WordNetConds(cfg.filterCIDRs[..i])
    {
      assert cfg.filterCIDRs[..i + 1][..i] == cfg.filterCIDRs[..i];
      var cidr := cfg.filterCIDRs[i];
      if cidr.None? { continue; }
      var ipv4 := To4(cidr.value.ip);
      if ipv4.None? { continue; }
      var networkHex := IpToHex(ipv4.value);
      var maskHex := MaskHex(cidr.value.mask);
      conds := conds + [WordNetCond(maskHex, networkHex)];
    }
    assert cfg.filterCIDRs[..|cfg.filterCIDRs|] == cfg.filterCIDRs;
    if |conds| == 0 {
      return [];
    }
    return [ReturnUnless(JoinOr(conds))];
  }

  // ----- Generate -----

  function GuardsOf(point: ProbePoint): seq<Stmt>
  {
    match point
    case KfreeSkb => [ReturnIfReasonAtMost(2), ReturnIfProtocolNot(0x0800)]
    case TcpSendReset => [ReturnIfFamilyNot(2)]
    case TcpReceiveReset => [ReturnIfFamilyNot(2)]
    case InetSkErrorReport => [ReturnIfFamilyNot(2), ReturnIfErrorIs(0)]
    case TcpRetransmitSkb => [ReturnIfFamilyNot(2)]
    case NfQueue => [ReturnIfRetvalAtLeast(0), ReturnIfProtocolNot(0x0800)]
  }

  predicate ReadsSkb(point: ProbePoint) { point.KfreeSkb? || point.NfQueue? }

  /** The filter of a probe: on the raw words of the packet header, or on the argument bytes. */
  function FilterOf(cfg: Config, point: ProbePoint): seq<Stmt>
  {
    if ReadsSkb(point) then FilterStmt(WordConds(cfg)) else FilterStmt(ByteConds(cfg))
  }

  function ProbeFor(cfg: Config, point: ProbePoint): Probe
  {
    Probe(point, GuardsOf(point) + FilterOf(cfg, point))
  }

  method GenerateSkbProbe(cfg: Config, point: ProbePoint) returns (probe: Probe)
    requires ReadsSkb(point)
    ensures probe == ProbeFor(cfg, point)
  {
    var body := GuardsOf(point);
    var ipFilter := BuildSkbIPFilterCondition(cfg);
    if ipFilter != [] {
      body := body + ipFilter;
    }
    probe := Probe(point, body);
  }

  method GenerateArgsProbe(cfg: Config, point: ProbePoint) returns (probe: Probe)
    requires !ReadsSkb(point)
    ensures probe == ProbeFor(cfg, point)
  {
    var body := GuardsOf(point);
    if HasIPFilter(cfg) {
      var ipFilter := BuildTCPIPFilterCheckFromLocalVars(cfg);
      body := body + ipFilter;
    }
    probe := Probe(point, body);
  }

  predicate Enabled(cfg: Config, point: ProbePoint)
  {
    match point
    case KfreeSkb => cfg.enableDrops
    case TcpSendReset => cfg.enableRST
    case TcpReceiveReset => cfg.enableRST
    case InetSkErrorReport => cfg.enableErrors
    case TcpRetransmitSkb => cfg.enableRetransmits
    case NfQueue => cfg.enableNfqueueDrops
  }

  method Generate(cfg: Config) returns (script: seq<Probe>)
    ensures forall e: Event | ValidPair(e.pair) ::
              Reports(script, e) == if Enabled(cfg, e.point) && Prints(ProbeFor(cfg, e.point).body, e) then 1 else 0
  {
    script := [];
    if cfg.enableDrops {
      script := Emit(cfg, script, KfreeSkb);
    }
    if cfg.enableRST {
      script := Emit(cfg, script, TcpSendReset);
      script := Emit(cfg, script, TcpReceiveReset);
    }
    if cfg.enableErrors {
      script := Emit(cfg, script, InetSkErrorReport);
    }
    if cfg.enableRetransmits {
      script := Emit(cfg, script, TcpRetransmitSkb);
    }
    if cfg.enableNfqueueDrops {
      script := Emit(cfg, script, NfQueue);
    }
  }

  method Emit(cfg: Config, script: seq<Probe>, point: ProbePoint) returns (r: seq<Probe>)
    ensures forall e: Event | ValidPair(e.pair) ::
              Reports(r, e) == Reports(script, e) +
                               if e.point == point && Prints(ProbeFor(cfg, point).body, e) then 1 else 0
  {
    var probe;
    if ReadsSkb(point) {
      probe := GenerateSkbProbe(cfg, point);
    } else {
      probe := GenerateArgsProbe(cfg, point);
    }
    r := script + [probe];
    assert r[..|r| - 1] == script;
  }
}
