/** The extensions of a flow: values added to a struct, packed into the flow, enriched with zones, and
    read back (pkg/utils/flow_utils.go, pkg/enricher/enricher.go). */
module FlowExtensions {
  import opened GoStrings
  import opened Float64

  const BYTES := "bytes"
  const DNS_TYPE := "dns_type"
  const NUM_RESPONSES := "num_responses"
  const TCP_ID := "tcp_id"
  const DROP_REASON := "drop_reason"
  const PREV_PACKETS := "previously_observed_packets"
  const PREV_BYTES := "previously_observed_bytes"
  const PREV_FLAGS := "previously_observed_tcp_flags"
  const SOURCE_ZONE := "source_zone"
  const DESTINATION_ZONE := "destination_zone"
  const UNKNOWN_ZONE := "unknown"
  const QUERY := "QUERY"
  const RESPONSE := "RESPONSE"

  /** A structpb.Value; a number holds the integer its float64 stands for, flags the nine counts from
      SYN to NS. */
  datatype Value = Number(n: nat) | Text(s: string) | Flags(counts: seq<nat>)

  type Fields = map<string, Value>

  const UINT32: nat := 0x1_0000_0000
  const UINT64: nat := 0x1_0000_0000_0000_0000

  /** A converted float outside the target range is implementation-specific; `wrap` stands for it. */
  function ToUint(x: nat, range: nat, wrap: nat -> nat): nat { if x < range then x else wrap(x) }

  // ----- additions to a struct -----

  datatype Addition =
    | PacketSize(size: nat)
    | PreviousBytes(bytes: nat)
    | PreviousPackets(packets: nat)
    | PreviousFlags(counts: seq<nat>)
    | TCPID(id: nat)
    | DNSInfo(qType: string, answers: int)
    | DropReason(reason: string)
    | Zones(source: string, destination: string)

  predicate AllZero(counts: seq<nat>) { forall i | 0 <= i < |counts| :: counts[i] == 0 }

  function RoundAll(counts: seq<nat>): seq<nat> { seq(|counts|, i requires 0 <= i < |counts| => Round(counts[i])) }

  function AddNonZero(f: Fields, key: string, n: nat): Fields
  {
    if n == 0 then f else f[key := Number(Round(n))]
  }

  /** What one Add call does to the fields. */
  function Added(f: Fields, a: Addition): Fields
  {
    match a
    case PacketSize(n) => AddNonZero(f, BYTES, n)
    case PreviousBytes(n) => AddNonZero(f, PREV_BYTES, n)
    case PreviousPackets(n) => AddNonZero(f, PREV_PACKETS, n)
    case PreviousFlags(counts) => if AllZero(counts) then f else f[PREV_FLAGS := Flags(RoundAll(counts))]
    case TCPID(id) => AddNonZero(f, TCP_ID, id)
    case DNSInfo(qType, answers) =>
      var g := if qType == "Q" then f[DNS_TYPE := Text(QUERY)]
               else if qType == "R" then f[DNS_TYPE := Text(RESPONSE)] else f;
      if answers > 0 then g[NUM_RESPONSES := Number(Round(answers))] else g
    case DropReason(reason) => f[DROP_REASON := Text(reason)]
    case Zones(source, destination) => f[SOURCE_ZONE := Text(source)][DESTINATION_ZONE := Text(destination)]
  }

  /** All Add calls in order, on a new struct. */
  function AddedAll(adds: seq<Addition>): Fields
  {
    if adds == [] then map[] else Added(AddedAll(adds[..|adds| - 1]), adds[|adds| - 1])
  }

  // ----- the flow and its extensions -----

  class Struct {
    var fields: Fields

    /** NewExtensions. */
    constructor ()
      ensures fields == map[]
    {
      fields := map[];
    }
  }

  class Flow {
    var extensions: Option<Fields>
    var sourceIP: Option<string>
    var destinationIP: string
    var ipVersion: nat
    var isTCP: bool
    var exported: bool

    /** A flow as ToFlow builds it, without extensions; a flow without an IP layer has no source IP. */
    constructor (source: Option<string>, destination: string, version: nat, tcp: bool)
      ensures extensions == None && !exported
      ensures sourceIP == source && destinationIP == destination && ipVersion == version && isTCP == tcp
    {
      extensions, exported := None, false;
      sourceIP, destinationIP, ipVersion, isTCP := source, destination, version, tcp;
    }
  }

  method AddPacketSize(s: Struct?, size: nat)
    modifies s
    ensures s != null ==> s.fields == Added(old(s.fields), PacketSize(size))
  {
    if s == null || size == 0 { return; }
    s.fields := s.fields[BYTES := Number(Round(size))];
  }

  method AddPreviouslyObservedBytes(s: Struct?, bytes: nat)
    modifies s
    ensures s != null ==> s.fields == Added(old(s.fields), PreviousBytes(bytes))
  {
    if s == null || bytes == 0 { return; }
    s.fields := s.fields[PREV_BYTES := Number(Round(bytes))];
  }

  method AddPreviouslyObservedPackets(s: Struct?, packets: nat)
    modifies s
    ensures s != null ==> s.fields == Added(old(s.fields), PreviousPackets(packets))
  {
    if s == null || packets == 0 { return; }
    s.fields := s.fields[PREV_PACKETS := Number(Round(packets))];
  }

  method AddPreviouslyObservedTCPFlags(s: Struct?, counts: seq<nat>)
    modifies s
    ensures s != null ==> s.fields == Added(old(s.fields), PreviousFlags(counts))
  {
    if s == null { return; }
    if AllZero(counts) { return; }
    s.fields := s.fields[PREV_FLAGS := Flags(RoundAll(counts))];
  }

  method AddTCPID(s: Struct?, id: nat)
    modifies s
    ensures s != null ==> s.fields == Added(old(s.fields), TCPID(id))
  {
    if s == null || id == 0 { return; }
    s.fields := s.fields[TCP_ID := Number(Round(id))];
  }

  /** The extension part of AddDNSInfo. */
  method AddDNSInfo(s: Struct?, qType: string, answers: int)
    modifies s
    ensures s != null ==> s.fields == Added(old(s.fields), DNSInfo(qType, answers))
  {
    if s == null { return; }
    if qType == "Q" {
      s.fields := s.fields[DNS_TYPE := Text(QUERY)];
    } else if qType == "R" {
      s.fields := s.fields[DNS_TYPE := Text(RESPONSE)];
    }
    if answers > 0 {
      s.fields := s.fields[NUM_RESPONSES := Number(Round(answers))];
    }
  }

  /** The extension part of AddDropReason. */
  method AddDropReason(s: Struct?, reason: string)
    modifies s
    ensures s != null ==> s.fields == Added(old(s.fields), DropReason(reason))
  {
    if s == null { return; }
    s.fields := s.fields[DROP_REASON := Text(reason)];
  }

  method AddZones(s: Struct?, source: string, destination: string)
    modifies s
    ensures s != null ==> s.fields == Added(old(s.fields), Zones(source, destination))
  {
    if s == null { return; }
    s.fields := s.fields[SOURCE_ZONE := Text(source)];
    s.fields := s.fields[DESTINATION_ZONE := Text(destination)];
  }

  /** What packing and enrichment leave alone. */
  ghost predicate SameFlow(f: Flow, source: Option<string>, destination: string, version: nat, tcp: bool)
    reads f
  {
    f.sourceIP == source && f.destinationIP == destination && f.ipVersion == version && f.isTCP == tcp
  }

  function Packed(previous: Option<Fields>, fields: Fields): Option<Fields>
  {
    if |fields| == 0 then previous else Some(fields)
  }

  method SetExtensions(f: Flow?, s: Struct?)
    modifies f
    ensures f != null ==> SameFlow(f, old(f.sourceIP), old(f.destinationIP), old(f.ipVersion), old(f.isTCP))
    ensures f != null ==> f.exported == old(f.exported)
    ensures f != null ==>
              f.extensions == if s == null then old(f.extensions) else Packed(old(f.extensions), s.fields)
  {
    if f == null || s == null || |s.fields| == 0 { return; }
    f.extensions := Some(s.fields);
  }

  /** A fresh struct with the unpacked fields, or null. */
  method GetExtensionsStruct(f: Flow?) returns (s: Struct?)
    ensures s == null <==> f == null || f.extensions.None?
    ensures s != null ==> fresh(s) && s.fields == f.extensions.value
  {
    if f == null || f.extensions.None? { return null; }
    var t := new Struct();
    t.fields := f.extensions.value;
    s := t;
  }

  // ----- enrichment -----

  /** A cached object: an endpoint on the node with the given address, or something else. */
  datatype CacheObject = Absent | Endpoint(nodeIP: string) | Other

  /** What the cache answers: the object behind an address, and the zone of a node. */
  datatype Cache = Cache(objectAt: string -> CacheObject, nodeZone: string -> Option<string>)

  /** zoneFromObj. */
  function ZoneOf(cache: Cache, ip: string): string
  {
    var o := cache.objectAt(ip);
    if o.Endpoint? && o.nodeIP != "" && cache.nodeZone(o.nodeIP).Some? && cache.nodeZone(o.nodeIP).value != ""
    then cache.nodeZone(o.nodeIP).value
    else UNKNOWN_ZONE
  }

  /** The zone of an address is the one the cache knows for the node of the endpoint behind it, and
      "unknown" when any link of that chain is missing. */
  lemma ZoneExactly(cache: Cache, ip: string, zone: string)
    requires zone != "unknown"
    ensures ZoneOf(cache, ip) == zone <==>
            zone != "" && exists node :: node != "" && cache.objectAt(ip) == Endpoint(node) &&
                                         cache.nodeZone(node) == Some(zone)
    ensures (forall node | node != "" && cache.objectAt(ip) == Endpoint(node) ::
               cache.nodeZone(node) in {None, Some("")}) ==> ZoneOf(cache, ip) == "unknown"
  {
    if ZoneOf(cache, ip) == zone {
      assert cache.objectAt(ip) == Endpoint(cache.objectAt(ip).nodeIP);
    }
  }

  /** The flows enrich handles: an IP layer, at most version 1 (IPv4), both addresses present. */
  predicate Enrichable(sourceIP: Option<string>, destinationIP: string, ipVersion: nat)
  {
    sourceIP.Some? && ipVersion <= 1 && sourceIP.value != "" && destinationIP != ""
  }

  function Enriched(extensions: Option<Fields>, source: string, destination: string): Fields
  {
    Added(if extensions.Some? then extensions.value else map[], Zones(source, destination))
  }

  /** enrich: adds the zones, keeps every other extension, and exports; or changes nothing here. */
  method Enrich(cache: Cache, f: Flow?)
    modifies f
    ensures f != null ==> SameFlow(f, old(f.sourceIP), old(f.destinationIP), old(f.ipVersion), old(f.isTCP))
    ensures f != null ==>
              if f.sourceIP.Some? && f.sourceIP.value != "" && f.destinationIP != "" && f.ipVersion in {0, 1} then
                f.exported &&
                f.extensions == Some(Enriched(old(f.extensions), ZoneOf(cache, f.sourceIP.value), ZoneOf(cache, f.destinationIP)))
              else f.exported == old(f.exported) && f.extensions == old(f.extensions)
  {
    if f == null { return; }
    if f.sourceIP.None? { return; }
    if f.ipVersion > 1 { return; }
    if f.sourceIP.value == "" { return; }
    if f.destinationIP == "" { return; }
    var srcZone, dstZone := ZoneOf(cache, f.sourceIP.value), ZoneOf(cache, f.destinationIP);
    var ext := GetExtensionsStruct(f);
    if ext == null {
      ext := new Struct();
    }
    AddZones(ext, srcZone, dstZone);
    assert SOURCE_ZONE in ext.fields;
    SetExtensions(f, ext);
    f.exported := true;
  }

  // ----- a flow's whole way -----

  /** Any of the Add calls. */
  method Add(s: Struct, a: Addition)
    modifies s
    ensures s.fields == Added(old(s.fields), a)
  {
    match a
    case PacketSize(n) => AddPacketSize(s, n);
    case PreviousBytes(n) => AddPreviouslyObservedBytes(s, n);
    case PreviousPackets(n) => AddPreviouslyObservedPackets(s, n);
    case PreviousFlags(counts) => AddPreviouslyObservedTCPFlags(s, counts);
    case TCPID(id) => AddTCPID(s, id);
    case DNSInfo(qType, answers) => AddDNSInfo(s, qType, answers);
    case DropReason(reason) => AddDropReason(s, reason);
    case Zones(source, destination) => AddZones(s, source, destination);
  }

  /** A plugin adds what it observed, packs it into the flow, and the enricher handles the flow. */
  method ObserveAndEnrich(cache: Cache, f: Flow, adds: seq<Addition>)
    requires f.extensions.None? && Enrichable(f.sourceIP, f.destinationIP, f.ipVersion)
    modifies f
    ensures f.exported
    ensures f.extensions == EnrichedExt(adds, ZoneOf(cache, old(f.sourceIP.value)), ZoneOf(cache, old(f.destinationIP)))
  {
    var s := new Struct();
    for i := 0 to |adds|
      invariant fresh(s) && s.fields == AddedAll(adds[..i])
      invariant unchanged(f)
    {
      assert adds[..i + 1][..i] == adds[..i];
      Add(s, adds[i]);
    }
    assert adds[..|adds|] == adds;
    SetExtensions(f, s);
    Enrich(cache, f);
  }

  // ----- getters -----

  function Lookup(ext: Option<Fields>, key: string): Option<Value>
  {
    if ext.Some? && key in ext.value then Some(ext.value[key]) else None
  }

  /** GetNumberValue: 0 unless the value is a number. */
  function NumberAt(ext: Option<Fields>, key: string): nat
  {
    var v := Lookup(ext, key);
    if v.Some? && v.value.Number? then v.value.n else 0
  }

  function TextAt(ext: Option<Fields>, key: string, missing: string): string
  {
    var v := Lookup(ext, key);
    if v.None? then missing else if v.value.Text? then v.value.s else ""
  }

  function GetPacketSize(ext: Option<Fields>, wrap: nat -> nat): nat { ToUint(NumberAt(ext, BYTES), UINT32, wrap) }
  function GetPreviousBytes(ext: Option<Fields>, wrap: nat -> nat): nat { ToUint(NumberAt(ext, PREV_BYTES), UINT32, wrap) }
  function GetPreviousPackets(ext: Option<Fields>, wrap: nat -> nat): nat { ToUint(NumberAt(ext, PREV_PACKETS), UINT32, wrap) }
  function GetTCPID(isTCP: bool, ext: Option<Fields>, wrap: nat -> nat): nat
  {
    if isTCP then ToUint(NumberAt(ext, TCP_ID), UINT64, wrap) else 0
  }
  function GetNumResponses(ext: Option<Fields>, wrap: nat -> nat): nat { ToUint(NumberAt(ext, NUM_RESPONSES), UINT32, wrap) }
  /** The type GetDNS returns for a flow with a DNS record. */
  function GetDNSType(ext: Option<Fields>): string
  {
    var t := TextAt(ext, DNS_TYPE, "");
    if t == QUERY || t == RESPONSE then t else "UNKNOWN"
  }
  function GetDropReason(ext: Option<Fields>): string { TextAt(ext, DROP_REASON, "") }
  function GetSourceZone(ext: Option<Fields>): string { TextAt(ext, SOURCE_ZONE, UNKNOWN_ZONE) }
  function GetDestinationZone(ext: Option<Fields>): string { TextAt(ext, DESTINATION_ZONE, UNKNOWN_ZONE) }
  function GetPreviousFlags(ext: Option<Fields>, wrap: nat -> nat): Option<seq<nat>>
  {
    var v := Lookup(ext, PREV_FLAGS);
    if v.Some? && v.value.Flags?
    then Some(seq(|v.value.counts|, i requires 0 <= i < |v.value.counts| => ToUint(v.value.counts[i], UINT32, wrap)))
    else None
  }

  // ----- no interference -----

  /** What one addition stores under a key, if anything; written without the other keys in sight. */
  function Stores(a: Addition, key: string): Option<Value>
  {
    if a.PacketSize? && key == BYTES && a.size != 0 then Some(Number(Round(a.size)))
    else if a.PreviousBytes? && key == PREV_BYTES && a.bytes != 0 then Some(Number(Round(a.bytes)))
    else if a.PreviousPackets? && key == PREV_PACKETS && a.packets != 0 then Some(Number(Round(a.packets)))
    else if a.PreviousFlags? && key == PREV_FLAGS && !AllZero(a.counts) then Some(Flags(RoundAll(a.counts)))
    else if a.TCPID? && key == TCP_ID && a.id != 0 then Some(Number(Round(a.id)))
    else if a.DNSInfo? && key == DNS_TYPE && a.qType == "Q" then Some(Text(QUERY))
    else if a.DNSInfo? && key == DNS_TYPE && a.qType == "R" then Some(Text(RESPONSE))
    else if a.DNSInfo? && key == NUM_RESPONSES && a.answers > 0 then Some(Number(Round(a.answers)))
    else if a.DropReason? && key == DROP_REASON then Some(Text(a.reason))
    else if a.Zones? && key == SOURCE_ZONE then Some(Text(a.source))
    else if a.Zones? && key == DESTINATION_ZONE then Some(Text(a.destination))
    else None
  }

  function LastStored(adds: seq<Addition>, key: string): Option<Value>
  {
    if adds == [] then None
    else
      var v := Stores(adds[|adds| - 1], key);
      if v.Some? then v else LastStored(adds[..|adds| - 1], key)
  }

  lemma AddedStores(f: Fields, a: Addition, key: string)
    ensures Lookup(Some(Added(f, a)), key) ==
            if Stores(a, key).Some? then Stores(a, key) else Lookup(Some(f), key)
  {
    hide Round, RoundAll, AllZero;
  }

  /** After any sequence of additions a key holds the last value stored under it; no addition to one
      key disturbs another. */
  lemma {:induction false} LastValueWins(adds: seq<Addition>, key: string)
    ensures Lookup(Some(AddedAll(adds)), key) == LastStored(adds, key)
  {
    if adds != [] {
      var n := |adds| - 1;
      LastValueWins(adds[..n], key);
      AddedStores(AddedAll(adds[..n]), adds[n], key);
    }
  }

  /** What an enriched flow carries under a key: the zones of the enricher, and otherwise the last
      value added before the flow was packed. */
  lemma EnrichedLookup(adds: seq<Addition>, source: string, destination: string, key: string)
    ensures Lookup(Some(Enriched(Packed(None, AddedAll(adds)), source, destination)), key) ==
            if key == SOURCE_ZONE then Some(Text(source))
            else if key == DESTINATION_ZONE then Some(Text(destination))
            else LastStored(adds, key)
  {
    var f := AddedAll(adds);
    var kept: Fields := if |f| == 0 then map[] else f;
    LastValueWins(adds, key);
    AddedStores(kept, Zones(source, destination), key);
    if |f| == 0 { assert f == map[]; }
  }

  // ----- what the getters return, by the calls made -----

  /** The number a call of one kind carries, 0 for every other kind. */
  function SizeIn(a: Addition): nat { if a.PacketSize? then a.size else 0 }
  function BytesIn(a: Addition): nat { if a.PreviousBytes? then a.bytes else 0 }
  function PacketsIn(a: Addition): nat { if a.PreviousPackets? then a.packets else 0 }
  function IdIn(a: Addition): nat { if a.TCPID? then a.id else 0 }
  function AnswersIn(a: Addition): nat { if a.DNSInfo? && a.answers > 0 then a.answers else 0 }

  /** The last non-zero number among calls of one kind, or 0. */
  function LastNumber(adds: seq<Addition>, numberIn: Addition -> nat): nat
  {
    if adds == [] then 0
    else
      var n := numberIn(adds[|adds| - 1]);
      if n != 0 then n else LastNumber(adds[..|adds| - 1], numberIn)
  }

  /** The key holds the numbers of that kind of call and nothing else. */
  ghost predicate KeyFor(key: string, numberIn: Addition -> nat)
  {
    && key != SOURCE_ZONE && key != DESTINATION_ZONE
    && forall a :: Stores(a, key) == if numberIn(a) == 0 then None else Some(Number(Round(numberIn(a))))
  }

  /** No two kinds of values share a key. */
  lemma KeysDiffer()
    ensures |{BYTES, DNS_TYPE, NUM_RESPONSES, TCP_ID, DROP_REASON, PREV_PACKETS, PREV_BYTES, PREV_FLAGS, SOURCE_ZONE,
              DESTINATION_ZONE}| == 10
  {
    assert DROP_REASON[0] != SOURCE_ZONE[0];
    var a := {BYTES, DNS_TYPE, NUM_RESPONSES, TCP_ID, DROP_REASON};
    var b := {PREV_PACKETS, PREV_BYTES, PREV_FLAGS, SOURCE_ZONE, DESTINATION_ZONE};
    assert |a| == 5 && |b| == 5 && a !! b;
    assert |a + b| == 10;
    assert a + b == {BYTES, DNS_TYPE, NUM_RESPONSES, TCP_ID, DROP_REASON, PREV_PACKETS, PREV_BYTES, PREV_FLAGS,
                     SOURCE_ZONE, DESTINATION_ZONE};
  }

  lemma KeysFit()
    ensures KeyFor(BYTES, SizeIn) && KeyFor(PREV_BYTES, BytesIn) && KeyFor(PREV_PACKETS, PacketsIn)
    ensures KeyFor(TCP_ID, IdIn) && KeyFor(NUM_RESPONSES, AnswersIn)
  {
    hide Round, RoundAll, AllZero;
  }

  lemma {:induction false} LastStoredNumber(adds: seq<Addition>, key: string, numberIn: Addition -> nat)
    requires KeyFor(key, numberIn)
    ensures var n := LastNumber(adds, numberIn);
            LastStored(adds, key) == if n == 0 then None else Some(Number(Round(n)))
  {
    hide Round, Stores;
    if adds != [] {
      LastStoredNumber(adds[..|adds| - 1], key, numberIn);
    }
  }

  function EnrichedExt(adds: seq<Addition>, source: string, destination: string): Option<Fields>
  {
    Some(Enriched(Packed(None, AddedAll(adds)), source, destination))
  }

  lemma NumberReadBack(
    adds: seq<Addition>, source: string, destination: string, key: string, numberIn: Addition -> nat)
    requires KeyFor(key, numberIn)
    ensures NumberAt(EnrichedExt(adds, source, destination), key) == Round(LastNumber(adds, numberIn))
  {
    EnrichedLookup(adds, source, destination, key);
    LastStoredNumber(adds, key, numberIn);
    hide Round, LastStored, LastNumber, Enriched, Packed, AddedAll, Stores;
    if LastNumber(adds, numberIn) == 0 { ExactIffRepresentable(0); }
  }

  lemma Uint32ReadBack(
    adds: seq<Addition>, source: string, destination: string, key: string, numberIn: Addition -> nat, wrap: nat -> nat)
    requires KeyFor(key, numberIn) && LastNumber(adds, numberIn) < UINT32
    ensures ToUint(NumberAt(EnrichedExt(adds, source, destination), key), UINT32, wrap) == LastNumber(adds, numberIn)
  {
    hide Round, LastNumber, EnrichedExt, KeyFor;
    NumberReadBack(adds, source, destination, key, numberIn);
    ExactIffRepresentable(LastNumber(adds, numberIn));
  }

  ghost predicate FitsUint32(adds: seq<Addition>)
  {
    LastNumber(adds, SizeIn) <= 0xffff_ffff && LastNumber(adds, BytesIn) <= 0xffff_ffff &&
    LastNumber(adds, PacketsIn) <= 0xffff_ffff && LastNumber(adds, AnswersIn) <= 0xffff_ffff
  }

  /** After any additions, packing and enrichment: every uint32 getter returns, exactly, the last
      non-zero number among the calls of its own kind. */
  lemma CountersReadBack(adds: seq<Addition>, source: string, destination: string, wrap: nat -> nat)
    requires FitsUint32(adds)
    ensures var ext := EnrichedExt(adds, source, destination);
            && GetPacketSize(ext, wrap) == LastNumber(adds, SizeIn)
            && GetPreviousBytes(ext, wrap) == LastNumber(adds, BytesIn)
            && GetPreviousPackets(ext, wrap) == LastNumber(adds, PacketsIn)
            && GetNumResponses(ext, wrap) == LastNumber(adds, AnswersIn)
  {
    hide LastNumber, EnrichedExt, ToUint, NumberAt, KeyFor;
    KeysFit();
    Uint32ReadBack(adds, source, destination, BYTES, SizeIn, wrap);
    Uint32ReadBack(adds, source, destination, PREV_BYTES, BytesIn, wrap);
    Uint32ReadBack(adds, source, destination, PREV_PACKETS, PacketsIn, wrap);
    Uint32ReadBack(adds, source, destination, NUM_RESPONSES, AnswersIn, wrap);
  }

  /** The last TCP id added is read back exactly iff a float64 represents it, in particular up to 2^53;
      only an id that rounds up to 2^64 is beyond what Go defines. A flow that is not TCP has none. */
  lemma TCPIDReadBack(adds: seq<Addition>, source: string, destination: string, wrap: nat -> nat)
    requires LastNumber(adds, IdIn) <= 0xffff_ffff_ffff_ffff
    ensures var id, read := LastNumber(adds, IdIn), GetTCPID(true, EnrichedExt(adds, source, destination), wrap);
            && (Representable(id) ==> read == id)
            && (id <= LIMIT ==> read == id)
            && (!Representable(id) && Round(id) < UINT64 ==> read != id)
    ensures GetTCPID(false, EnrichedExt(adds, source, destination), wrap) == 0
  {
    hide Round, LastNumber, EnrichedExt, Representable, KeyFor;
    KeysFit();
    NumberReadBack(adds, source, destination, TCP_ID, IdIn);
    ExactIffRepresentable(LastNumber(adds, IdIn));
  }

  /** A flow without extensions, or packed before any addition, has no values. */
  lemma NothingToRead(ext: Option<Fields>, wrap: nat -> nat)
    requires ext == None || ext == Some(map[])
    ensures GetPacketSize(ext, wrap) == 0 && GetPreviousBytes(ext, wrap) == 0 && GetPreviousPackets(ext, wrap) == 0
    ensures GetTCPID(true, ext, wrap) == 0 && GetNumResponses(ext, wrap) == 0 && GetPreviousFlags(ext, wrap) == None
    ensures GetDropReason(ext) == "" && GetDNSType(ext) == "UNKNOWN"
    ensures GetSourceZone(ext) == "unknown" && GetDestinationZone(ext) == "unknown"
  {
  }

  /** The zones of an enriched flow are the enricher's. */
  lemma ZonesReadBack(adds: seq<Addition>, source: string, destination: string)
    ensures GetSourceZone(EnrichedExt(adds, source, destination)) == source
    ensures GetDestinationZone(EnrichedExt(adds, source, destination)) == destination
  {
    hide Enriched, Packed, AddedAll, LastStored;
    EnrichedLookup(adds, source, destination, SOURCE_ZONE);
    EnrichedLookup(adds, source, destination, DESTINATION_ZONE);
  }

  /** The reason of the last AddDropReason call, or "". */
  function LastReason(adds: seq<Addition>): string
  {
    if adds == [] then ""
    else if adds[|adds| - 1].DropReason? then adds[|adds| - 1].reason
    else LastReason(adds[..|adds| - 1])
  }

  /** The type of the last AddDNSInfo call for a query or a response, or "UNKNOWN". */
  function LastDNSType(adds: seq<Addition>): string
  {
    if adds == [] then "UNKNOWN"
    else
      var a := adds[|adds| - 1];
      if a.DNSInfo? && a.qType == "Q" then "QUERY"
      else if a.DNSInfo? && a.qType == "R" then "RESPONSE"
      else LastDNSType(adds[..|adds| - 1])
  }

  lemma TextKeys(a: Addition)
    ensures Stores(a, DROP_REASON) == if a.DropReason? then Some(Text(a.reason)) else None
    ensures Stores(a, DNS_TYPE) ==
            if a.DNSInfo? && a.qType == "Q" then Some(Text("QUERY"))
            else if a.DNSInfo? && a.qType == "R" then Some(Text("RESPONSE")) else None
  {
    hide Round, RoundAll, AllZero;
    assert DROP_REASON[0] != SOURCE_ZONE[0];
  }

  lemma {:induction false} LastStoredText(adds: seq<Addition>)
    ensures LastStored(adds, DROP_REASON).None? ==> LastReason(adds) == ""
    ensures LastStored(adds, DROP_REASON).Some? ==> LastStored(adds, DROP_REASON) == Some(Text(LastReason(adds)))
    ensures LastStored(adds, DNS_TYPE).None? ==> LastDNSType(adds) == "UNKNOWN"
    ensures LastStored(adds, DNS_TYPE).Some? ==>
              LastStored(adds, DNS_TYPE) == Some(Text(LastDNSType(adds))) && LastDNSType(adds) in {"QUERY", "RESPONSE"}
  {
    hide Stores;
    if adds != [] {
      LastStoredText(adds[..|adds| - 1]);
      TextKeys(adds[|adds| - 1]);
    }
  }

  /** The drop reason and the DNS type are the last ones added; a DNS record of another type keeps the
      type added before it. */
  lemma TextReadBack(adds: seq<Addition>, source: string, destination: string)
    ensures GetDropReason(EnrichedExt(adds, source, destination)) == LastReason(adds)
    ensures GetDNSType(EnrichedExt(adds, source, destination)) == LastDNSType(adds)
  {
    hide Enriched, Packed, AddedAll, LastStored, LastReason, LastDNSType;
    assert DROP_REASON[0] != SOURCE_ZONE[0];
    EnrichedLookup(adds, source, destination, DROP_REASON);
    EnrichedLookup(adds, source, destination, DNS_TYPE);
    LastStoredText(adds);
  }

  function LastFlags(adds: seq<Addition>): Option<seq<nat>>
  {
    if adds == [] then None
    else
      var a := adds[|adds| - 1];
      if a.PreviousFlags? && !AllZero(a.counts) then Some(a.counts) else LastFlags(adds[..|adds| - 1])
  }

  lemma {:induction false} LastStoredFlags(adds: seq<Addition>)
    ensures LastFlags(adds).None? ==> LastStored(adds, PREV_FLAGS) == None
    ensures LastFlags(adds).Some? ==> LastStored(adds, PREV_FLAGS) == Some(Flags(RoundAll(LastFlags(adds).value)))
  {
    hide Round, RoundAll, AllZero;
    if adds != [] { LastStoredFlags(adds[..|adds| - 1]); }
  }

  /** The flag counts are the last ones added that were not all zero, exactly. */
  lemma FlagsReadBack(adds: seq<Addition>, source: string, destination: string, wrap: nat -> nat)
    requires LastFlags(adds).Some? ==> forall i | 0 <= i < |LastFlags(adds).value| :: LastFlags(adds).value[i] <= 0xffff_ffff
    ensures GetPreviousFlags(EnrichedExt(adds, source, destination), wrap) == LastFlags(adds)
  {
    hide Round, LastFlags, LastStored, Enriched, Packed, AddedAll;
    EnrichedLookup(adds, source, destination, PREV_FLAGS);
    LastStoredFlags(adds);
    if LastFlags(adds).Some? {
      var counts := LastFlags(adds).value;
      forall i | 0 <= i < |counts| ensures RoundAll(counts)[i] == counts[i] { ExactIffRepresentable(counts[i]); }
      assert GetPreviousFlags(EnrichedExt(adds, source, destination), wrap).value == counts;
    }
  }
}
