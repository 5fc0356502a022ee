/** What the printed include/exclude text accepts: it parses exactly when every surviving entry is
    printable, and then accepts exactly the packets of the listed atoms. */
module CaptureMeaning {
  import opened GoStrings
  import opened PcapFilter
  import opened CaptureFilters
  import opened CaptureText

  // ----- one piece -----

  ghost predicate ValidPiece(resolve: string -> Option<Address>, pc: Piece)
  {
    (pc.PortPiece? || resolve(pc.ip).Some?) && (pc.HostPiece? || pc.port == "" || ValidPort(pc.port))
  }

  /** A printed port has to be a bare number: no wildcard, no sign. */
  predicate PieceOk(pc: Piece) { pc.HostPiece? || IsDigits(pc.port) }

  function PieceExpr(pc: Piece): Expr
  {
    match pc
    case PortPiece(port) => Prim(["port", port])
    case HostPiece(ip) => Prim(["host", ip])
    case HostPortPiece(ip, port) => And(Prim(["host", ip]), Prim(["port", port]))
  }

  lemma PortWord(port: string)
    requires ValidPort(port)
    ensures Lex(port) == [Word(port)] && (IsIdentifier(port) <==> IsDigits(port))
    ensures IsDigits(port) ==> PortNumber(port) == Decimal(port)
  {
    var digits := if port[0] == '-' || port[0] == '+' then port[1..] else port;
    assert IsDigits(digits);
    forall c | c in port ensures IsDigit(c) || c == '-' || c == '+' {
      assert c == port[0] || c in port[1..];
    }
    assert port[0] in port;
    if IsDigit(port[0]) {
      assert digits == port;
    }
    LexWord(port);
  }

  /** The tokens inside the parentheses of a piece. */
  function Inner(pc: Piece): seq<Token>
  {
    match pc
    case PortPiece(port) => [Word("port")] + Lex(port)
    case HostPiece(ip) => [Word("host"), Word(ip)]
    case HostPortPiece(ip, port) => [Word("host"), Word(ip), AndOp, Word("port")] + Lex(port)
  }

  lemma LexPort(port: string)
    ensures Lex("port " + port) == [Word("port")] + Lex(port)
  {
    hide Lex;
    LexSpaced("port");
    assert "port " == "port" + " ";
    LexConcat("port ", port);
  }

  lemma LexHost(resolve: string -> Option<Address>, ip: string)
    requires ReadsAddresses(resolve) && resolve(ip).Some?
    ensures Lex("host " + ip) == [Word("host"), Word(ip)]
  {
    hide Lex;
    LexSpaced("host");
    assert "host " == "host" + " ";
    LexConcat("host ", ip);
    AddressWord(resolve, ip);
  }

  lemma LexHostPort(resolve: string -> Option<Address>, ip: string, port: string)
    requires ReadsAddresses(resolve) && resolve(ip).Some?
    ensures Lex("host " + ip + (" and " + ("port " + port))) == Inner(HostPortPiece(ip, port))
  {
    hide Lex;
    var h, q := "host " + ip, "port " + port;
    LexHost(resolve, ip);
    LexPort(port);
    LexAnd();
    LexConcat(" and ", q);
    LexConcat(h, " and " + q);
  }

  lemma ShowParenthesised(pc: Piece)
    ensures Show(pc) == "(" + (match pc
                               case PortPiece(port) => "port " + port
                               case HostPiece(ip) => "host " + ip
                               case HostPortPiece(ip, port) => "host " + ip + (" and " + ("port " + port))) + ")"
  {
    if pc.HostPortPiece? {
      assert " and port " == " and " + "port ";
    }
  }

  lemma LexPiece(resolve: string -> Option<Address>, pc: Piece)
    requires ReadsAddresses(resolve) && ValidPiece(resolve, pc)
    ensures Lex(Show(pc)) == [LParen] + Inner(pc) + [RParen]
  {
    hide Lex, Show;
    ShowParenthesised(pc);
    match pc
    case PortPiece(port) =>
      LexPort(port);
      LexParenthesised("port " + port);
    case HostPiece(ip) =>
      LexHost(resolve, ip);
      LexParenthesised("host " + ip);
    case HostPortPiece(ip, port) =>
      LexHostPort(resolve, ip, port);
      LexParenthesised("host " + ip + (" and " + ("port " + port)));
  }

  lemma TwoWords(a: string, b: string, u: seq<Token>)
    requires u == [] || !u[0].Word?
    ensures LeadingWords([Word(a), Word(b)] + u) == [a, b]
    ensures IsIdentifier(b) ==> ParseTerm([Word(a), Word(b)] + u) == Done(Prim([a, b]), u)
    ensures !IsIdentifier(b) ==> ParseTerm([Word(a), Word(b)] + u) == Fail
  {
    var ts := [Word(a), Word(b)] + u;
    assert ts[1..] == [Word(b)] + u && ts[1..][1..] == u;
    assert LeadingWords(u) == [];
    assert LeadingWords(ts[1..]) == [b];
    assert ts[2..] == u;
  }

  lemma OneWord(a: string, u: seq<Token>)
    requires (u == [] || !u[0].Word?) && !IsIdentifier(a)
    ensures ParseTerm([Word(a)] + u) == Fail
  {
    var ts := [Word(a)] + u;
    assert ts[1..] == u && LeadingWords(u) == [];
    assert LeadingWords(ts) == [a];
  }

  /** `port P`, with whatever was printed for P. */
  lemma PortTerm(port: string, u: seq<Token>)
    requires (port == "" || ValidPort(port)) && (u == [] || !u[0].Word?)
    ensures ParseTerm([Word("port")] + Lex(port) + u) ==
            if IsDigits(port) then Done(Prim(["port", port]), u) else Fail
  {
    hide Lex, ValidPort;
    if port == "" {
      LexEmpty();
      assert [Word("port")] + Lex(port) + u == [Word("port")] + u;
      OneWord("port", u);
    } else {
      PortWord(port);
      TwoWords("port", port, u);
      assert [Word("port")] + Lex(port) + u == [Word("port"), Word(port)] + u;
    }
  }

  lemma StopsAt(acc: Expr, u: seq<Token>)
    requires u == [] || u[0].RParen?
    ensures ParseTail(acc, u) == Done(acc, u)
  {
  }

  lemma JustPort(port: string, u: seq<Token>)
    requires (port == "" || ValidPort(port)) && u != [] && u[0].RParen?
    ensures ParseExpr([Word("port")] + Lex(port) + u) ==
            if IsDigits(port) then Done(Prim(["port", port]), u) else Fail
  {
    hide Lex, ValidPort, ParseTerm;
    PortTerm(port, u);
    StopsAt(Prim(["port", port]), u);
  }

  lemma JustHost(resolve: string -> Option<Address>, ip: string, u: seq<Token>)
    requires ReadsAddresses(resolve) && resolve(ip).Some? && u != [] && u[0].RParen?
    ensures ParseExpr([Word("host"), Word(ip)] + u) == Done(Prim(["host", ip]), u)
  {
    AddressWord(resolve, ip);
    TwoWords("host", ip, u);
    StopsAt(Prim(["host", ip]), u);
  }

  lemma HostAndPort(resolve: string -> Option<Address>, ip: string, port: string, u: seq<Token>)
    requires ReadsAddresses(resolve) && resolve(ip).Some? && (port == "" || ValidPort(port))
    requires u != [] && u[0].RParen?
    ensures ParseExpr([Word("host"), Word(ip)] + ([AndOp] + ([Word("port")] + Lex(port) + u))) ==
            if IsDigits(port) then Done(And(Prim(["host", ip]), Prim(["port", port])), u) else Fail
  {
    hide Lex, ParseTerm, ValidPort;
    var tail := [Word("port")] + Lex(port) + u;
    var v := [AndOp] + tail;
    AddressWord(resolve, ip);
    TwoWords("host", ip, v);
    PortTerm(port, u);
    assert v[1..] == tail;
    var host := Prim(["host", ip]);
    assert ParseExpr([Word("host"), Word(ip)] + v) == ParseTail(host, v);
    if IsDigits(port) {
      var both := And(host, Prim(["port", port]));
      assert ParseTail(host, v) == ParseTail(both, u);
      assert ParseTail(both, u) == Done(both, u);
    }
  }

  lemma PieceInner(resolve: string -> Option<Address>, pc: Piece, u: seq<Token>)
    requires ReadsAddresses(resolve) && ValidPiece(resolve, pc)
    requires u != [] && u[0].RParen?
    ensures ParseExpr(Inner(pc) + u) == if PieceOk(pc) then Done(PieceExpr(pc), u) else Fail
  {
    hide Lex, ParseExpr;
    if pc.PortPiece? {
      JustPort(pc.port, u);
    } else if pc.HostPiece? {
      JustHost(resolve, pc.ip, u);
    } else {
      HostAndPort(resolve, pc.ip, pc.port, u);
      assert Inner(pc) + u ==
             [Word("host"), Word(pc.ip)] + ([AndOp] + ([Word("port")] + Lex(pc.port) + u));
    }
  }

  /** A printed piece is one term, or makes the whole text unreadable. */
  lemma PieceTerm(resolve: string -> Option<Address>, pc: Piece, u: seq<Token>)
    requires ReadsAddresses(resolve) && ValidPiece(resolve, pc)
    ensures ParseTerm(Lex(Show(pc)) + u) == if PieceOk(pc) then Done(PieceExpr(pc), u) else Fail
  {
    hide Lex, Show, Inner, ParseExpr, PieceExpr;
    LexPiece(resolve, pc);
    var ts := Lex(Show(pc)) + u;
    assert ts[1..] == Inner(pc) + ([RParen] + u);
    PieceInner(resolve, pc, [RParen] + u);
    assert ([RParen] + u)[1..] == u;
  }

  // ----- a group -----

  function OrTokens(pieces: seq<Piece>): seq<Token>
  {
    if pieces == [] then [] else [OrOp] + Lex(Show(pieces[0])) + OrTokens(pieces[1..])
  }

  function OrFold(acc: Expr, pieces: seq<Piece>): Expr
    decreases |pieces|
  {
    if pieces == [] then acc else OrFold(Or(acc, PieceExpr(pieces[0])), pieces[1..])
  }

  ghost predicate AllValid(resolve: string -> Option<Address>, pieces: seq<Piece>)
  {
    forall pc | pc in pieces :: ValidPiece(resolve, pc)
  }

  ghost predicate AllOk(pieces: seq<Piece>) { forall pc | pc in pieces :: PieceOk(pc) }

  lemma {:induction false} LexJoin(pieces: seq<Piece>)
    requires pieces != []
    ensures Lex(Join(ShowAll(pieces), " or ")) == Lex(Show(pieces[0])) + OrTokens(pieces[1..])
    decreases |pieces|
  {
    hide Lex, Show;
    var texts := ShowAll(pieces);
    if |pieces| > 1 {
      LexJoin(pieces[1..]);
      var tail := Join(ShowAll(pieces[1..]), " or ");
      assert Join(texts, " or ") == texts[0] + " or " + tail;
      assert texts[0] + " or " + tail == texts[0] + (" or " + tail);
      LexConcat(texts[0], " or " + tail);
      LexConcat(" or ", tail);
      LexOr();
    } else {
      assert pieces[1..] == [] && OrTokens(pieces[1..]) == [];
    }
  }

  lemma OrStep(resolve: string -> Option<Address>, acc: Expr, pc: Piece, u: seq<Token>)
    requires ReadsAddresses(resolve) && ValidPiece(resolve, pc)
    ensures ParseTail(acc, [OrOp] + Lex(Show(pc)) + u) ==
            if PieceOk(pc) then ParseTail(Or(acc, PieceExpr(pc)), u) else Fail
  {
    hide Lex, Show, ParseTerm, PieceExpr;
    PieceTerm(resolve, pc, u);
    assert ([OrOp] + Lex(Show(pc)) + u)[1..] == Lex(Show(pc)) + u;
  }

  lemma {:induction false} OrTokensParse(
    resolve: string -> Option<Address>, acc: Expr, pieces: seq<Piece>, u: seq<Token>)
    requires ReadsAddresses(resolve) && AllValid(resolve, pieces)
    requires u != [] && u[0].RParen?
    ensures ParseTail(acc, OrTokens(pieces) + u) ==
            if AllOk(pieces) then Done(OrFold(acc, pieces), u) else Fail
    decreases |pieces|
  {
    hide Lex, Show, PieceExpr, ParseTail, ValidPiece;
    if pieces == [] {
      assert OrTokens(pieces) + u == u;
      StopsAt(acc, u);
    } else {
      var first, rest := pieces[0], pieces[1..];
      assert pieces == [first] + rest;
      var tail := OrTokens(rest) + u;
      assert OrTokens(pieces) + u == [OrOp] + Lex(Show(first)) + tail;
      OrStep(resolve, acc, first, tail);
      if PieceOk(first) {
        OrTokensParse(resolve, Or(acc, PieceExpr(first)), rest, u);
      }
    }
  }

  function GroupExpr(pieces: seq<Piece>): Expr
    requires pieces != []
  {
    OrFold(PieceExpr(pieces[0]), pieces[1..])
  }

  lemma LexGroup(pieces: seq<Piece>)
    requires pieces != []
    ensures Lex(GroupOf(pieces)) == [LParen] + (Lex(Show(pieces[0])) + OrTokens(pieces[1..])) + [RParen]
  {
    hide Lex, Show, OrTokens;
    LexJoin(pieces);
    LexParenthesised(Join(ShowAll(pieces), " or "));
  }

  lemma GroupInner(resolve: string -> Option<Address>, pieces: seq<Piece>, u: seq<Token>)
    requires ReadsAddresses(resolve) && AllValid(resolve, pieces) && pieces != []
    requires u != [] && u[0].RParen?
    ensures ParseExpr(Lex(Show(pieces[0])) + (OrTokens(pieces[1..]) + u)) ==
            if AllOk(pieces) then Done(GroupExpr(pieces), u) else Fail
  {
    hide Lex, Show, ParseTerm, ParseTail, OrTokens, PieceExpr, ValidPiece;
    var first, rest := pieces[0], pieces[1..];
    assert pieces == [first] + rest;
    PieceTerm(resolve, first, OrTokens(rest) + u);
    OrTokensParse(resolve, PieceExpr(first), rest, u);
  }

  /** A group is one term: the disjunction of its pieces. */
  lemma GroupTerm(resolve: string -> Option<Address>, pieces: seq<Piece>, u: seq<Token>)
    requires ReadsAddresses(resolve) && AllValid(resolve, pieces) && pieces != []
    ensures ParseTerm(Lex(GroupOf(pieces)) + u) ==
            if AllOk(pieces) then Done(GroupExpr(pieces), u) else Fail
  {
    hide Lex, Show, GroupOf, OrTokens, ParseTerm, ParseExpr, GroupExpr;
    LexGroup(pieces);
    var v := [RParen] + u;
    var inner := Lex(Show(pieces[0])) + (OrTokens(pieces[1..]) + v);
    assert Lex(GroupOf(pieces)) + u == [LParen] + inner;
    GroupInner(resolve, pieces, v);
    ParseParen(inner);
    assert v[1..] == u;
  }

  lemma ParseParen(ts: seq<Token>)
    ensures var p := ParseExpr(ts);
            ParseTerm([LParen] + ts) ==
            if p.Done? && p.rest != [] && p.rest[0].RParen? then Done(p.e, p.rest[1..]) else Fail
  {
    assert ([LParen] + ts)[1..] == ts;
  }

  predicate PieceHolds(w: World, pc: Piece, p: Packet) { Holds(w, PieceExpr(pc), p) }

  lemma {:induction false} OrFoldHolds(w: World, acc: Expr, pieces: seq<Piece>, p: Packet)
    ensures Holds(w, OrFold(acc, pieces), p) <==>
            Holds(w, acc, p) || exists pc | pc in pieces :: PieceHolds(w, pc, p)
    decreases |pieces|
  {
    if pieces != [] {
      var first, rest := pieces[0], pieces[1..];
      assert pieces == [first] + rest;
      var acc' := Or(acc, PieceExpr(first));
      OrFoldHolds(w, acc', rest, p);
      assert Holds(w, acc', p) <==> Holds(w, acc, p) || PieceHolds(w, first, p);
    }
  }

  // ----- the pieces of a map -----

  predicate Bare(m: PortSets, ip: string) { ip != "" && ip in m && m[ip] == {""} }

  function PieceOf(m: PortSets, a: Atom): Piece
  {
    if a.ip == "" then PortPiece(a.port)
    else if Bare(m, a.ip) then HostPiece(a.ip)
    else HostPortPiece(a.ip, a.port)
  }

  /** `pc` is what is printed for some held atom with an address among `ips`. */
  ghost predicate PrintsSome(m: PortSets, ips: seq<string>, pc: Piece)
  {
    exists a | Held(m, a) && a.ip in ips :: pc == PieceOf(m, a)
  }

  lemma PiecesOfPorts(ip: string, ports: seq<string>, m: PortSets, pc: Piece)
    requires ip in m && (forall x :: x in ports <==> x in m[ip]) && (ports == [""] <==> m[ip] == {""})
    ensures pc in PiecesFor(ip, ports, |ports|) <==> PrintsSome(m, [ip], pc)
  {
    hide PiecesFor;
    var these := PiecesFor(ip, ports, |ports|);
    forall i | 0 <= i < |ports| ensures these[i] == PieceOf(m, Atom(ip, ports[i])) {}
    if pc in these {
      var i :| 0 <= i < |these| && these[i] == pc;
      assert Held(m, Atom(ip, ports[i]));
    }
    if a :| Held(m, a) && a.ip in [ip] && pc == PieceOf(m, a) {
      var i :| 0 <= i < |ports| && ports[i] == a.port;
      assert these[i] == pc;
    }
  }

  lemma PiecesForExact(ip: string, lists: PortLists, m: PortSets, pc: Piece)
    requires Represents(lists, m) && ip in m
    ensures var ports := SortStrings(lists[ip]);
            pc in PiecesFor(ip, ports, |ports|) <==> PrintsSome(m, [ip], pc)
  {
    hide PiecesFor, PrintsSome;
    var ports := SortStrings(lists[ip]);
    ListingElements(ports, m[ip]);
    BareListing(ports, m[ip]);
    PiecesOfPorts(ip, ports, m, pc);
  }

  lemma PrintsSomeSplit(m: PortSets, ips: seq<string>, ip: string, pc: Piece)
    ensures PrintsSome(m, ips + [ip], pc) <==> PrintsSome(m, ips, pc) || PrintsSome(m, [ip], pc)
  {
    hide Held, PieceOf;
  }

  lemma {:induction false} AllPiecesExact(ips: seq<string>, lists: PortLists, n: nat, m: PortSets)
    requires n <= |ips| && (forall ip | ip in ips :: ip in lists) && Represents(lists, m)
    ensures forall pc :: pc in AllPieces(ips, lists, n) <==> PrintsSome(m, ips[..n], pc)
  {
    hide SortStrings, PiecesFor, Held;
    if n > 0 {
      AllPiecesExact(ips, lists, n - 1, m);
      var ip := ips[n - 1];
      assert ips[..n] == ips[..n - 1] + [ip];
      forall pc ensures pc in AllPieces(ips, lists, n) <==> PrintsSome(m, ips[..n], pc) {
        hide PrintsSome;
        PiecesForExact(ip, lists, m, pc);
        PrintsSomeSplit(m, ips[..n - 1], ip, pc);
      }
    }
  }

  lemma BareListing(xs: seq<string>, s: set<string>)
    requires multiset(xs) == multiset(s)
    ensures xs == [""] <==> s == {""}
  {
    ListingElements(xs, s);
    assert |xs| == |multiset(xs)| == |multiset(s)| == |s|;
    if s == {""} {
      assert |xs| == 1 && xs[0] in xs;
    }
    if xs == [""] {
      assert "" in xs;
      assert forall x | x in s :: x == "";
    }
  }

  lemma PiecesAre(m: PortSets) returns (ips: seq<string>, lists: PortLists)
    ensures Represents(lists, m) && forall ip :: ip in ips <==> ip in m
    ensures Pieces(m) == AllPieces(ips, lists, |ips|)
  {
    lists := map ip | ip in m :: Listing(m[ip]);
    ips := SortStrings(Listing(m.Keys));
    ListingElements(ips, m.Keys);
  }

  lemma PiecesExact(m: PortSets, pc: Piece)
    ensures pc in Pieces(m) <==> exists a | Held(m, a) :: pc == PieceOf(m, a)
  {
    var ips, lists := PiecesAre(m);
    AllPiecesExact(ips, lists, |ips|, m);
    assert ips[..|ips|] == ips;
    assert pc in Pieces(m) <==> PrintsSome(m, ips, pc);
  }

  /** Every held port is printed as a bare number, or not printed because its address is bare. */
  ghost predicate Printable(m: PortSets)
  {
    forall a | Held(m, a) :: IsDigits(a.port) || Bare(m, a.ip)
  }

  lemma PiecesOk(resolve: string -> Option<Address>, m: PortSets)
    requires ValidSets(resolve, m)
    ensures AllValid(resolve, Pieces(m))
    ensures AllOk(Pieces(m)) <==> Printable(m)
    ensures Pieces(m) == [] <==> forall a :: !Held(m, a)
  {
    hide Pieces;
    var pieces := Pieces(m);
    forall pc ensures pc in pieces <==> exists a | Held(m, a) :: pc == PieceOf(m, a) {
      PiecesExact(m, pc);
    }
    forall a | Held(m, a) ensures PieceOf(m, a) in pieces {}
    if pieces != [] {
      assert pieces[0] in pieces;
    }
  }

  lemma PieceMatches(w: World, m: PortSets, a: Atom, p: Packet)
    requires Held(m, a) && ValidAtom(w.resolve, a) && (IsDigits(a.port) || Bare(m, a.ip))
    ensures PieceHolds(w, PieceOf(m, a), p) <==> AtomMatches(w, a, p)
  {
    if a.port != "" { PortWord(a.port); }
    match PieceOf(m, a)
    case PortPiece(port) =>
      assert Holds(w, Prim(["port", port]), p) == HoldsPrimitive(w, ["port", port], p);
    case HostPiece(ip) =>
      assert Holds(w, Prim(["host", ip]), p) == HoldsPrimitive(w, ["host", ip], p);
    case HostPortPiece(ip, port) =>
      assert Holds(w, Prim(["port", port]), p) == HoldsPrimitive(w, ["port", port], p);
      assert Holds(w, Prim(["host", ip]), p) == HoldsPrimitive(w, ["host", ip], p);
  }

  lemma SomePieceHolds(w: World, m: PortSets, p: Packet)
    requires ValidSets(w.resolve, m) && Printable(m)
    ensures (exists pc | pc in Pieces(m) :: PieceHolds(w, pc, p)) <==> SetsMatch(w, m, p)
  {
    if pc :| pc in Pieces(m) && PieceHolds(w, pc, p) {
      PiecesExact(m, pc);
      var a :| Held(m, a) && pc == PieceOf(m, a);
      PieceMatches(w, m, a, p);
    }
    if a :| Held(m, a) && AtomMatches(w, a, p) {
      PieceMatches(w, m, a, p);
      PiecesExact(m, PieceOf(m, a));
    }
  }

  lemma GroupExprHolds(w: World, pieces: seq<Piece>, p: Packet)
    requires pieces != []
    ensures Holds(w, GroupExpr(pieces), p) <==> exists pc | pc in pieces :: PieceHolds(w, pc, p)
  {
    assert pieces == [pieces[0]] + pieces[1..];
    OrFoldHolds(w, PieceExpr(pieces[0]), pieces[1..], p);
    assert PieceHolds(w, pieces[0], p) <==> Holds(w, PieceExpr(pieces[0]), p);
  }

  // ----- the whole text -----

  lemma IncludeText(resolve: string -> Option<Address>, pieces: seq<Piece>)
    requires ReadsAddresses(resolve) && AllValid(resolve, pieces) && pieces != []
    ensures Parse(GroupOf(pieces)) == if AllOk(pieces) then Some(GroupExpr(pieces)) else None
  {
    hide GroupOf, GroupExpr, ParseTerm;
    GroupTerm(resolve, pieces, []);
    assert Lex(GroupOf(pieces)) + [] == Lex(GroupOf(pieces));
    StopsAt(GroupExpr(pieces), []);
  }

  lemma NotGroup(resolve: string -> Option<Address>, pieces: seq<Piece>)
    requires ReadsAddresses(resolve) && AllValid(resolve, pieces) && pieces != []
    ensures ParseTerm([NotOp] + Lex(GroupOf(pieces))) ==
            if AllOk(pieces) then Done(Not(GroupExpr(pieces)), []) else Fail
  {
    hide GroupOf, GroupExpr, Lex;
    var ts := Lex(GroupOf(pieces));
    GroupTerm(resolve, pieces, []);
    assert ts + [] == ts && ([NotOp] + ts)[1..] == ts;
  }

  lemma ExcludeText(resolve: string -> Option<Address>, pieces: seq<Piece>)
    requires ReadsAddresses(resolve) && AllValid(resolve, pieces) && pieces != []
    ensures Parse("not " + GroupOf(pieces)) == if AllOk(pieces) then Some(Not(GroupExpr(pieces))) else None
  {
    hide GroupOf, GroupExpr, Lex, ParseTerm;
    LexNot();
    LexConcat("not ", GroupOf(pieces));
    NotGroup(resolve, pieces);
    StopsAt(Not(GroupExpr(pieces)), []);
  }

  lemma BothText(resolve: string -> Option<Address>, incl: seq<Piece>, excl: seq<Piece>)
    requires ReadsAddresses(resolve) && AllValid(resolve, incl) && AllValid(resolve, excl)
    requires incl != [] && excl != []
    ensures Parse(GroupOf(incl) + " and not " + GroupOf(excl)) ==
            if AllOk(incl) && AllOk(excl) then Some(And(GroupExpr(incl), Not(GroupExpr(excl)))) else None
  {
    hide Lex, GroupOf, GroupExpr, ParseTerm;
    var i, e := GroupOf(incl), GroupOf(excl);
    assert i + " and not " + e == i + (" and " + ("not " + e));
    LexNot();
    LexAnd();
    LexConcat("not ", e);
    LexConcat(" and ", "not " + e);
    LexConcat(i, " and " + ("not " + e));
    var tail := [NotOp] + Lex(e);
    GroupTerm(resolve, incl, [AndOp] + tail);
    NotGroup(resolve, excl);
    AndTail(GroupExpr(incl), tail);
    StopsAt(And(GroupExpr(incl), Not(GroupExpr(excl))), []);
  }

  lemma AndTail(acc: Expr, ts: seq<Token>)
    ensures ParseTail(acc, [AndOp] + ts) ==
            if ParseTerm(ts).Fail? then Fail else ParseTail(And(acc, ParseTerm(ts).e), ParseTerm(ts).rest)
  {
    assert ([AndOp] + ts)[1..] == ts;
  }

  /** Every entry that survives is either a bare port number or an address with only a wildcard port
      left; a signed port, `*:*`, or `ip:port` listed after the last `ip:*` makes this fail. */
  ghost predicate EntriesPrintable(atoms: seq<Atom>)
  {
    forall a | Survives(atoms, a) ::
      IsDigits(a.port) ||
      (a.ip != "" && a.port == "" && forall b | Survives(atoms, b) && b.ip == a.ip :: b.port == "")
  }

  lemma EntriesPrintableMap(atoms: seq<Atom>)
    ensures EntriesPrintable(atoms) <==> Printable(PortSetsOf(atoms))
    ensures atoms == [] <==> forall a :: !Held(PortSetsOf(atoms), a)
  {
    PortSetsExact(atoms);
    var m := PortSetsOf(atoms);
    if atoms != [] {
      SurvivesLast(atoms, atoms[|atoms| - 1]);
      assert Held(m, atoms[|atoms| - 1]);
    }
    forall ip ensures Bare(m, ip) <==> ip != "" && Held(m, Atom(ip, "")) && forall b | Held(m, b) && b.ip == ip :: b.port == "" {
      if ip != "" && Held(m, Atom(ip, "")) && (forall b | Held(m, b) && b.ip == ip :: b.port == "") {
        forall q | q in m[ip] ensures q == "" { assert Held(m, Atom(ip, q)); }
        assert m[ip] == {""};
      }
    }
    forall a | Held(m, a) && a.port != "" ensures !Bare(m, a.ip) {}
  }

  lemma CombinedParses(resolve: string -> Option<Address>, incl: seq<Piece>, excl: seq<Piece>)
    requires ReadsAddresses(resolve) && AllValid(resolve, incl) && AllValid(resolve, excl)
    requires incl != [] || excl != []
    ensures var text := CombineGroups(GroupOf(incl), GroupOf(excl));
            text != "" &&
            Parse(text) == if AllOk(incl) && AllOk(excl) then Some(FilterExpr(incl, excl)) else None
  {
    if excl == [] {
      IncludeText(resolve, incl);
    } else if incl == [] {
      ExcludeText(resolve, excl);
    } else {
      BothText(resolve, incl, excl);
    }
  }

  lemma GroupReads(resolve: string -> Option<Address>, pieces: seq<Piece>)
    requires ReadsAddresses(resolve) && AllValid(resolve, pieces) && pieces != []
    ensures AllOk(pieces) ==> ReadsTerm(GroupOf(pieces), GroupExpr(pieces))
    ensures !AllOk(pieces) ==> UnreadableTerm(GroupOf(pieces))
  {
    hide Lex, GroupOf, GroupExpr, ParseTerm;
    forall u: seq<Token>
      ensures ParseTerm(Lex(GroupOf(pieces)) + u) == if AllOk(pieces) then Done(GroupExpr(pieces), u) else Fail
    {
      GroupTerm(resolve, pieces, u);
    }
  }

  lemma CombineUnreadable(i: string, e: string, ie: Expr)
    requires i != "" && e != ""
    requires UnreadableTerm(i) || (ReadsTerm(i, ie) && UnreadableTerm(e))
    ensures Unreadable(CombineGroups(i, e))
  {
    var n := "not " + e;
    assert i + " and not " + e == i + (" and " + n);
    if UnreadableTerm(i) {
      UnreadableTermFails(i);
      UnreadableStays(i, " and " + n);
    } else {
      UnreadableNegation(e);
      UnreadableOperand(i, ie, n);
    }
  }

  lemma CombinedUnreadable(resolve: string -> Option<Address>, incl: seq<Piece>, excl: seq<Piece>)
    requires ReadsAddresses(resolve) && AllValid(resolve, incl) && AllValid(resolve, excl)
    requires !AllOk(incl) || !AllOk(excl)
    ensures Unreadable(CombineGroups(GroupOf(incl), GroupOf(excl)))
  {
    var i, e := GroupOf(incl), GroupOf(excl);
    if incl != [] { GroupReads(resolve, incl); }
    if excl != [] { GroupReads(resolve, excl); }
    if excl == [] {
      UnreadableTermFails(i);
    } else if incl == [] {
      UnreadableNegation(e);
      UnreadableTermFails("not " + e);
    } else {
      CombineUnreadable(i, e, GroupExpr(incl));
    }
  }

  /** One unprintable entry spoils any text the printed filter is a part of. */
  lemma FilterTextUnreadable(w: World, incl: seq<Atom>, excl: seq<Atom>)
    requires ReadsAddresses(w.resolve)
    requires forall a | a in incl || a in excl :: ValidAtom(w.resolve, a)
    requires !EntriesPrintable(incl) || !EntriesPrintable(excl)
    ensures Unreadable(FilterText(PortSetsOf(incl), PortSetsOf(excl)))
  {
    var i, e := PortSetsOf(incl), PortSetsOf(excl);
    var any := Packet(0, 0, None, None);
    PortSetsMean(w, incl, any);
    PortSetsMean(w, excl, any);
    EntriesPrintableMap(incl);
    EntriesPrintableMap(excl);
    PiecesOk(w.resolve, i);
    PiecesOk(w.resolve, e);
    CombinedUnreadable(w.resolve, Pieces(i), Pieces(e));
  }

  lemma FilterTextParses(w: World, i: PortSets, e: PortSets)
    requires ReadsAddresses(w.resolve) && ValidSets(w.resolve, i) && ValidSets(w.resolve, e)
    ensures var text := FilterText(i, e);
            && (text == "" <==> Pieces(i) == [] && Pieces(e) == [])
            && (Usable(text) <==> Printable(i) && Printable(e))
            && (text != "" && Usable(text) ==> Parse(text).value == FilterExpr(Pieces(i), Pieces(e)))
  {
    PiecesOk(w.resolve, i);
    PiecesOk(w.resolve, e);
    if Pieces(i) != [] || Pieces(e) != [] {
      CombinedParses(w.resolve, Pieces(i), Pieces(e));
    }
  }

  function FilterExpr(incl: seq<Piece>, excl: seq<Piece>): Expr
    requires incl != [] || excl != []
  {
    if excl == [] then GroupExpr(incl)
    else if incl == [] then Not(GroupExpr(excl))
    else And(GroupExpr(incl), Not(GroupExpr(excl)))
  }

  lemma FilterExprHolds(w: World, i: PortSets, e: PortSets, p: Packet)
    requires ValidSets(w.resolve, i) && ValidSets(w.resolve, e) && Printable(i) && Printable(e)
    requires Pieces(i) != [] || Pieces(e) != []
    ensures Holds(w, FilterExpr(Pieces(i), Pieces(e)), p) <==>
            (Pieces(i) == [] || SetsMatch(w, i, p)) && !SetsMatch(w, e, p)
  {
    hide GroupExpr, Pieces;
    var pi, pe := Pieces(i), Pieces(e);
    PiecesOk(w.resolve, e);
    SomePieceHolds(w, i, p);
    SomePieceHolds(w, e, p);
    if pi != [] { GroupExprHolds(w, pi, p); }
    if pe != [] { GroupExprHolds(w, pe, p); }
  }

  ghost predicate Wanted(w: World, incl: seq<Atom>, excl: seq<Atom>, p: Packet)
    requires forall a | a in incl || a in excl :: ValidAtom(w.resolve, a)
  {
    (incl == [] || SomeMatches(w, incl, p)) && !SomeMatches(w, excl, p)
  }

  /** The printed text is a pcap-filter expression exactly when all entries are printable, and then
      it accepts exactly the packets some include entry, and no exclude entry, matches. A port is
      read in decimal here; libpcap reads one with a leading zero, which Atoi accepts, in octal. */
  lemma FilterTextCorrect(w: World, incl: seq<Atom>, excl: seq<Atom>)
    requires ReadsAddresses(w.resolve)
    requires forall a | a in incl || a in excl :: ValidAtom(w.resolve, a)
    ensures var text := FilterText(PortSetsOf(incl), PortSetsOf(excl));
            && (text == "" <==> incl == [] && excl == [])
            && (Usable(text) <==> EntriesPrintable(incl) && EntriesPrintable(excl))
            && (Usable(text) ==> forall p :: Accepts(w, text, p) <==> Wanted(w, incl, excl, p))
  {
    var i, e := PortSetsOf(incl), PortSetsOf(excl);
    EntriesPrintableMap(incl);
    EntriesPrintableMap(excl);
    forall p: Packet
      ensures ValidSets(w.resolve, i) && (SetsMatch(w, i, p) <==> SomeMatches(w, incl, p))
      ensures ValidSets(w.resolve, e) && (SetsMatch(w, e, p) <==> SomeMatches(w, excl, p))
    {
      PortSetsMean(w, incl, p);
      PortSetsMean(w, excl, p);
    }
    var any := Packet(0, 0, None, None);
    assert ValidSets(w.resolve, i) && ValidSets(w.resolve, e) by {
      PortSetsMean(w, incl, any);
      PortSetsMean(w, excl, any);
    }
    PiecesOk(w.resolve, i);
    PiecesOk(w.resolve, e);
    FilterTextParses(w, i, e);
    var text := FilterText(i, e);
    if Usable(text) && text != "" {
      forall p: Packet ensures Accepts(w, text, p) <==> Wanted(w, incl, excl, p) {
        FilterExprHolds(w, i, e, p);
      }
    }
  }

  /** The text, unlike the meaning, depends on the order of the entries: the same two entries print
      a usable text one way round and an unusable one the other. */
  lemma PrintabilityDependsOnOrder(ip: string, port: string)
    requires ip != "" && port != ""
    ensures EntriesPrintable([Atom(ip, port), Atom(ip, "")])
    ensures !EntriesPrintable([Atom(ip, ""), Atom(ip, port)])
    ensures !EntriesPrintable([Atom("", "")])
  {
    var a, b := Atom(ip, port), Atom(ip, "");
    forall x ensures Survives([a, b], x) <==> x == b { SurvivesPair(a, b, x); }
    forall x ensures Survives([b, a], x) <==> x == a || x == b { SurvivesPair(b, a, x); }
    SurvivesLast([Atom("", "")], Atom("", ""));
  }

  lemma SurvivesPair(a: Atom, b: Atom, x: Atom)
    ensures Survives([a, b], x) <==> x == b || (x == a && !Absorbs(b, a))
  {
    SurvivesLast([a, b], x);
    assert [a, b][..1] == [a];
    SurvivesLast([a], x);
    assert !Survives([], x);
  }

  /** obtainTcpdumpFilters, from the listed strings to the printed text. */
  method ObtainTcpdumpFilters(w: World, includes: seq<string>, excludes: seq<string>)
    returns (r: Result<string>)
    requires ReadsAddresses(w.resolve)
    ensures r.Ok? <==> forall f | f in includes || f in excludes :: !ReadEntry(w.resolve, f).Invalid?
    ensures r.Err? ==>
              FirstInvalid(w.resolve, includes, r.filter) ||
              ((forall f | f in includes :: !ReadEntry(w.resolve, f).Invalid?) &&
               FirstInvalid(w.resolve, excludes, r.filter))
    ensures r.Ok? ==> r.value == FilterText(PortSetsOf(Atoms(w.resolve, includes)), PortSetsOf(Atoms(w.resolve, excludes)))
  {
    var incl: PortLists, excl: PortLists := map[], map[];
    if |includes| != 0 {
      var i := FilterToIPPortsMap(w.resolve, includes);
      if i.Err? { return Err(i.filter); }
      incl := i.value;
    }
    if |excludes| != 0 {
      var e := FilterToIPPortsMap(w.resolve, excludes);
      if e.Err? { return Err(e.filter); }
      excl := e.value;
    }
    var text := TcpdumpFiltersFromIncludeAndExcludeFilters(
      incl, excl, PortSetsOf(Atoms(w.resolve, includes)), PortSetsOf(Atoms(w.resolve, excludes)));
    return Ok(text);
  }
}
