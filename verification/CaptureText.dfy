/** Printing include/exclude port maps as a pcap-filter text, whatever order the maps are ranged over
    (tcpdumpFiltersFromIncludeAndExcludeFilters in pkg/capture/crd_to_job.go). */
module CaptureText {
  import opened GoStrings
  import opened CaptureFilters

  // ----- the printed pieces -----

  datatype Piece = PortPiece(port: string) | HostPiece(ip: string) | HostPortPiece(ip: string, port: string)

  function Show(pc: Piece): string
  {
    match pc
    case PortPiece(port) => "(port " + port + ")"
    case HostPiece(ip) => "(host " + ip + ")"
    case HostPortPiece(ip, port) => "(host " + ip + " and port " + port + ")"
  }

  function ShowAll(pieces: seq<Piece>): (texts: seq<string>)
    ensures |texts| == |pieces|
    ensures forall i | 0 <= i < |pieces| :: texts[i] == Show(pieces[i])
  {
    if pieces == [] then [] else [Show(pieces[0])] + ShowAll(pieces[1..])
  }

  function PieceFor(ip: string, ports: seq<string>, port: string): Piece
  {
    if ip == "" then PortPiece(port)
    else if ports == [""] then HostPiece(ip)
    else HostPortPiece(ip, port)
  }

  /** The pieces of one address. */
  function PiecesFor(ip: string, ports: seq<string>, n: nat): (pieces: seq<Piece>)
    requires n <= |ports|
    ensures |pieces| == n
    ensures forall i | 0 <= i < n :: pieces[i] == PieceFor(ip, ports, ports[i])
  {
    if n == 0 then [] else PiecesFor(ip, ports, n - 1) + [PieceFor(ip, ports, ports[n - 1])]
  }

  /** The pieces of the first `n` addresses, each with its ports in sorted order. */
  function AllPieces(ips: seq<string>, lists: PortLists, n: nat): seq<Piece>
    requires n <= |ips| && forall ip | ip in ips :: ip in lists
  {
    if n == 0 then []
    else
      var ports := SortStrings(lists[ips[n - 1]]);
      AllPieces(ips, lists, n - 1) + PiecesFor(ips[n - 1], ports, |ports|)
  }

  function GroupOf(pieces: seq<Piece>): string
  {
    if pieces == [] then "" else "(" + Join(ShowAll(pieces), " or ") + ")"
  }

  function CombineGroups(incl: string, excl: string): string
  {
    if incl == "" && excl == "" then ""
    else if incl != "" && excl != "" then incl + " and not " + excl
    else if incl != "" then incl
    else "not " + excl
  }

  // ----- one text per map -----

  ghost function Listing(s: set<string>): (xs: seq<string>)
    ensures multiset(xs) == multiset(s)
  {
    if s == {} then []
    else
      var x :| x in s;
      assert s == (s - {x}) + {x};
      [x] + Listing(s - {x})
  }

  lemma ListingElements(xs: seq<string>, s: set<string>)
    requires multiset(xs) == multiset(s)
    ensures forall x :: x in xs <==> x in s
  {
    forall x ensures x in xs <==> x in s {
      assert x in xs <==> x in multiset(xs);
      assert x in s <==> x in multiset(s);
    }
  }

  /** The pieces a map stands for; no iteration order is involved. */
  ghost function Pieces(m: PortSets): seq<Piece>
  {
    var lists := map ip | ip in m :: Listing(m[ip]);
    var ips := SortStrings(Listing(m.Keys));
    ListingElements(ips, m.Keys);
    AllPieces(ips, lists, |ips|)
  }

  /** The text the source prints for an include map and an exclude map. */
  ghost function FilterText(incl: PortSets, excl: PortSets): string
  {
    CombineGroups(GroupOf(Pieces(incl)), GroupOf(Pieces(excl)))
  }

  lemma {:induction false} AllPiecesUnique(ips: seq<string>, xs: PortLists, ys: PortLists, n: nat)
    requires n <= |ips| && forall ip | ip in ips :: ip in xs && ip in ys
    requires forall ip | ip in ips :: multiset(xs[ip]) == multiset(ys[ip])
    ensures AllPieces(ips, xs, n) == AllPieces(ips, ys, n)
  {
    if n > 0 {
      AllPiecesUnique(ips, xs, ys, n - 1);
      var ip := ips[n - 1];
      SortedUnique(SortStrings(xs[ip]), SortStrings(ys[ip]));
    }
  }

  /** Whatever order the map and its port lists were ranged over, the pieces are the same. */
  lemma PiecesUnique(m: PortSets, order: seq<string>, lists: PortLists)
    requires Represents(lists, m) && multiset(order) == multiset(m.Keys)
    ensures forall ip | ip in SortStrings(order) :: ip in lists
    ensures AllPieces(SortStrings(order), lists, |SortStrings(order)|) == Pieces(m)
  {
    var ips := SortStrings(order);
    SortedUnique(ips, SortStrings(Listing(m.Keys)));
    ListingElements(ips, m.Keys);
    AllPiecesUnique(ips, lists, map ip | ip in m :: Listing(m[ip]), |ips|);
  }

  lemma ShowAllAppend(xs: seq<Piece>, ys: seq<Piece>)
    ensures ShowAll(xs + ys) == ShowAll(xs) + ShowAll(ys)
  {
    var l, r := ShowAll(xs + ys), ShowAll(xs) + ShowAll(ys);
    assert forall i | 0 <= i < |l| :: l[i] == r[i];
  }

  method ShowPieces(ips: seq<string>, lists: PortLists) returns (filters: seq<string>)
    requires forall ip | ip in ips :: ip in lists
    ensures filters == ShowAll(AllPieces(ips, lists, |ips|))
  {
    filters := [];
    for i := 0 to |ips|
      invariant filters == ShowAll(AllPieces(ips, lists, i))
    {
      var ports := SortStrings(lists[ips[i]]);
      ShowAllAppend(AllPieces(ips, lists, i), PiecesFor(ips[i], ports, |ports|));
      filters := AppendPieces(filters, ips[i], ports);
    }
  }

  lemma PiecesOfEmpty(m: PortSets)
    requires m.Keys == {}
    ensures Pieces(m) == []
  {
    assert Listing(m.Keys) == [];
  }

  /** getFilterGroupFunc: ranges over the addresses, sorts them and their ports, appends the pieces. */
  method FilterGroup(lists: PortLists, ghost m: PortSets) returns (text: string)
    requires Represents(lists, m)
    ensures text == GroupOf(Pieces(m))
  {
    if |lists| == 0 {
      PiecesOfEmpty(m);
      return "";
    }
    var order := InSomeOrder(lists.Keys);
    PiecesUnique(m, order, lists);
    var filters := ShowPieces(SortStrings(order), lists);
    if |filters| == 0 {
      return "";
    }
    return "(" + Join(filters, " or ") + ")";
  }

  method AppendPieces(filters: seq<string>, ip: string, ports: seq<string>) returns (r: seq<string>)
    ensures r == filters + ShowAll(PiecesFor(ip, ports, |ports|))
  {
    r := filters;
    if ip == "" {
      for i := 0 to |ports|
        invariant r == filters + ShowAll(PiecesFor(ip, ports, i))
      {
        ShowAllAppend(PiecesFor(ip, ports, i), [PortPiece(ports[i])]);
        r := r + ["(port " + ports[i] + ")"];
      }
    } else if |ports| == 1 && ports[0] == "" {
      r := r + ["(host " + ip + ")"];
    } else {
      for i := 0 to |ports|
        invariant r == filters + ShowAll(PiecesFor(ip, ports, i))
      {
        ShowAllAppend(PiecesFor(ip, ports, i), [HostPortPiece(ip, ports[i])]);
        r := r + ["(host " + ip + " and port " + ports[i] + ")"];
      }
    }
  }

  method Combine(inclGroup: string, exclGroup: string) returns (text: string)
    ensures text == CombineGroups(inclGroup, exclGroup)
  {
    if |inclGroup| == 0 && |exclGroup| == 0 {
      return "";
    }
    if |inclGroup| != 0 && |exclGroup| != 0 {
      return inclGroup + " and not " + exclGroup;
    }
    if |inclGroup| != 0 {
      return inclGroup;
    }
    return "not " + exclGroup;
  }

  method TcpdumpFiltersFromIncludeAndExcludeFilters(
    incl: PortLists, excl: PortLists, ghost inclSets: PortSets, ghost exclSets: PortSets)
    returns (text: string)
    requires Represents(incl, inclSets) && Represents(excl, exclSets)
    ensures text == FilterText(inclSets, exclSets)
  {
    var inclGroup := FilterGroup(incl, inclSets);
    var exclGroup := FilterGroup(excl, exclSets);
    text := Combine(inclGroup, exclGroup);
  }
}
