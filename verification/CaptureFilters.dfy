/** The include/exclude filters of a Capture: reading `ip:port` entries and folding them into a
    wildcard-aware port map, and what that map matches (pkg/capture/crd_to_job.go). */
module CaptureFilters {
  import opened GoStrings
  import opened PcapFilter

  // ----- reading one entry -----

  /** One listed filter; "" stands for any address or any port. */
  datatype Atom = Atom(ip: string, port: string)

  datatype Reading = Skipped | Invalid | Read(atom: Atom)

  predicate ValidPort(port: string)
  {
    var n := Atoi(port);
    n.Some? && 0 <= n.value <= 65535
  }

  function SplitEntry(filter: string): Atom
  {
    if ':' in filter then
      var parts := Split(filter, ':');
      Atom(if parts[0] == "*" then "" else parts[0], if parts[1] == "*" then "" else parts[1])
    else if '.' in filter then Atom(filter, "")
    else Atom("", filter)
  }

  predicate ValidAtom(resolve: string -> Option<Address>, a: Atom)
  {
    (a.ip == "" || resolve(a.ip).Some?) && (a.port == "" || ValidPort(a.port))
  }

  function ReadEntry(resolve: string -> Option<Address>, filter: string): Reading
  {
    if filter == "" then Skipped
    else if ValidAtom(resolve, SplitEntry(filter)) then Read(SplitEntry(filter))
    else Invalid
  }

  function Wildcard(s: string): string { if s == "*" then "" else s }

  /** An `ip:port` entry reads as that address and port, with "*" for any; what follows a second colon
      is ignored. */
  lemma EntryReadsBack(ip: string, port: string, rest: string)
    requires ':' !in ip && ':' !in port
    ensures SplitEntry(ip + ":" + port) == Atom(Wildcard(ip), Wildcard(port))
    ensures SplitEntry(ip + ":" + port + ":" + rest) == Atom(Wildcard(ip), Wildcard(port))
  {
    hide Split;
    SplitWhole(port, ':');
    SplitAtSeparator(port, ':', rest);
    SplitAtSeparator(ip, ':', port);
    SplitAtSeparator(ip, ':', port + [':'] + rest);
    assert ip + ":" + port == ip + [':'] + port;
    assert ip + ":" + port + ":" + rest == ip + [':'] + (port + [':'] + rest);
  }

  /** An IPv6 address that starts with "::" is read as any address with any port. */
  lemma LeadingColonsReadAsAny(resolve: string -> Option<Address>, rest: string)
    ensures ReadEntry(resolve, "::" + rest) == Read(Atom("", ""))
  {
    EntryReadsBack("", "", rest);
    assert "" + ":" + "" + ":" + rest == "::" + rest;
  }

  /** The atoms of a list of entries, in order; empty entries are skipped. */
  function Atoms(resolve: string -> Option<Address>, filters: seq<string>): (atoms: seq<Atom>)
    ensures forall a | a in atoms :: ValidAtom(resolve, a)
  {
    if filters == [] then []
    else
      var before := Atoms(resolve, filters[..|filters| - 1]);
      var r := ReadEntry(resolve, filters[|filters| - 1]);
      if r.Read? then before + [r.atom] else before
  }

  // ----- what an atom, and a port map, match -----

  function PortNumber(port: string): nat
    requires ValidPort(port)
  {
    Atoi(port).value
  }

  predicate AtomMatches(w: World, a: Atom, p: Packet)
    requires ValidAtom(w.resolve, a)
  {
    (a.ip == "" || HostIs(w, a.ip, p)) && (a.port == "" || PortIs(PortNumber(a.port), p))
  }

  /** The entry is accepted, and the packet is one it matches. */
  predicate EntryMatches(w: World, filter: string, p: Packet)
  {
    var r := ReadEntry(w.resolve, filter);
    r.Read? && AtomMatches(w, r.atom, p)
  }

  /** A number up to 65535 is that port of any address. */
  lemma PortEntry(w: World, n: nat)
    requires n <= 65535
    ensures ReadEntry(w.resolve, Itoa(n)).Read?
    ensures forall p :: EntryMatches(w, Itoa(n), p) <==> p.sport == Some(n) || p.dport == Some(n)
  {
    hide Atoi, Itoa, Decimal, IsDigits;
    AtoiReads(Itoa(n));
    DigitsPlain(Itoa(n));
    PlainNumber(w, Itoa(n), n);
  }

  lemma DigitsPlain(s: string)
    requires IsDigits(s)
    ensures s != "" && ':' !in s && '.' !in s
  {
    assert !IsDigit(':') && !IsDigit('.');
  }

  lemma PlainNumber(w: World, s: string, n: nat)
    requires s != "" && ':' !in s && '.' !in s && Atoi(s) == Some(n) && n <= 65535
    ensures ReadEntry(w.resolve, s) == Read(Atom("", s))
    ensures forall p :: EntryMatches(w, s, p) <==> p.sport == Some(n) || p.dport == Some(n)
  {
    hide Atoi;
  }

  /** An address with a dot is that address on any port. */
  lemma AddressEntry(w: World, s: string, a: Address)
    requires '.' in s && ':' !in s && w.resolve(s) == Some(a)
    ensures ReadEntry(w.resolve, s).Read?
    ensures forall p :: EntryMatches(w, s, p) <==> p.src == a || p.dst == a
  {
    assert s != "";
  }

  /** A port strconv.Atoi does not read, or out of range. */
  predicate BadPort(s: string) { Atoi(s).None? || Atoi(s).value < 0 || Atoi(s).value > 65535 }

  /** Exactly which entries without a colon are malformed. */
  lemma PlainEntryInvalid(resolve: string -> Option<Address>, s: string)
    requires ':' !in s && s != ""
    ensures ReadEntry(resolve, s).Invalid? <==> if '.' in s then resolve(s).None? else BadPort(s)
  {
  }

  /** What may stand on either side of a colon: nothing or "*" for any, or a value. */
  predicate AnyPart(s: string) { s == "" || s == "*" }

  /** The texts of an entry with a colon; what follows a second one does not matter. */
  predicate IsPair(s: string, ip: string, port: string, rest: string)
  {
    ':' !in ip && ':' !in port && (s == ip + ":" + port || s == ip + ":" + port + ":" + rest)
  }

  /** Exactly which entries with a colon are malformed, and what the others match. */
  lemma PairEntry(w: World, s: string, ip: string, port: string, rest: string)
    requires IsPair(s, ip, port, rest)
    ensures ReadEntry(w.resolve, s).Invalid? <==>
            (!AnyPart(ip) && w.resolve(ip).None?) || (!AnyPart(port) && BadPort(port))
    ensures !ReadEntry(w.resolve, s).Invalid? ==> forall p :: EntryMatches(w, s, p) <==>
              && (AnyPart(ip) || w.resolve(ip) == Some(p.src) || w.resolve(ip) == Some(p.dst))
              && (AnyPart(port) || p.sport == Some(Atoi(port).value) || p.dport == Some(Atoi(port).value))
  {
    hide SplitEntry, Atoi;
    EntryReadsBack(ip, port, rest);
    assert s != "";
  }

  lemma {:induction false} FirstColon(s: string) returns (before: string, after: string)
    requires ':' in s
    ensures s == before + ":" + after && ':' !in before
  {
    if s[0] == ':' {
      before, after := "", s[1..];
    } else {
      before, after := FirstColon(s[1..]);
      before := [s[0]] + before;
    }
  }

  /** Every entry with a colon is of that form. */
  lemma EveryPair(s: string)
    requires ':' in s
    ensures exists ip, port, rest :: IsPair(s, ip, port, rest)
  {
    var ip, tail := FirstColon(s);
    if ':' in tail {
      var port, rest := FirstColon(tail);
      assert s == ip + ":" + port + ":" + rest;
      assert IsPair(s, ip, port, rest);
    } else {
      assert IsPair(s, ip, tail, "");
    }
  }

  ghost predicate SomeMatches(w: World, atoms: seq<Atom>, p: Packet)
    requires forall a | a in atoms :: ValidAtom(w.resolve, a)
  {
    exists a | a in atoms :: AtomMatches(w, a, p)
  }

  type PortSets = map<string, set<string>>

  predicate Held(m: PortSets, a: Atom) { a.ip in m && a.port in m[a.ip] }

  ghost predicate ValidSets(resolve: string -> Option<Address>, m: PortSets)
  {
    forall a | Held(m, a) :: ValidAtom(resolve, a)
  }

  ghost predicate SetsMatch(w: World, m: PortSets, p: Packet)
    requires ValidSets(w.resolve, m)
  {
    exists a | Held(m, a) :: AtomMatches(w, a, p)
  }

  // ----- folding atoms into port sets -----

  function Forget(m: PortSets, port: string): PortSets { map ip | ip in m :: m[ip] - {port} }

  function PortsOf(m: PortSets, ip: string): set<string> { if ip in m then m[ip] else {} }

  /** One turn of the loop: a wildcard replaces what it covers. */
  function Insert(m: PortSets, a: Atom): PortSets
  {
    if a.ip == "" then
      var f := Forget(m, a.port);
      f["" := PortsOf(f, "") + {a.port}]
    else if a.port == "" then m[a.ip := {""}]
    else m[a.ip := PortsOf(m, a.ip) + {a.port}]
  }

  function PortSetsOf(atoms: seq<Atom>): PortSets
  {
    if atoms == [] then map[]
    else Insert(PortSetsOf(atoms[..|atoms| - 1]), atoms[|atoms| - 1])
  }

  /** `b` makes the earlier `a` superfluous and removes it. */
  predicate Absorbs(b: Atom, a: Atom)
  {
    a.ip != "" && b != a && (b == Atom("", a.port) || b == Atom(a.ip, ""))
  }

  /** `a` is listed, and no later entry absorbs that listing. */
  ghost predicate Survives(atoms: seq<Atom>, a: Atom)
  {
    exists j | 0 <= j < |atoms| ::
      atoms[j] == a && forall k | j < k < |atoms| :: !Absorbs(atoms[k], a)
  }

  lemma SurvivesLast(atoms: seq<Atom>, a: Atom)
    requires atoms != []
    ensures var n := |atoms| - 1;
            Survives(atoms, a) <==> a == atoms[n] || (Survives(atoms[..n], a) && !Absorbs(atoms[n], a))
  {
    var n := |atoms| - 1;
    var front := atoms[..n];
    if a != atoms[n] && Survives(atoms, a) {
      var j :| 0 <= j < |atoms| && atoms[j] == a && forall k | j < k < |atoms| :: !Absorbs(atoms[k], a);
      assert front[j] == a && forall k | j < k < n :: !Absorbs(front[k], a);
    }
    if Survives(front, a) && !Absorbs(atoms[n], a) {
      var j :| 0 <= j < n && front[j] == a && forall k | j < k < n :: !Absorbs(front[k], a);
      forall k | j < k < |atoms| ensures !Absorbs(atoms[k], a) {
        if k < n { assert front[k] == atoms[k]; }
      }
      assert atoms[j] == a;
    }
  }

  /** Exactly the unabsorbed entries are in the map, whatever order and repetition produced it. */
  lemma {:induction false} PortSetsExact(atoms: seq<Atom>)
    ensures forall a :: Held(PortSetsOf(atoms), a) <==> Survives(atoms, a)
    ensures forall ip :: ip in PortSetsOf(atoms) <==> exists a | a in atoms :: a.ip == ip
  {
    if atoms != [] {
      var n := |atoms| - 1;
      var front, last := atoms[..n], atoms[n];
      PortSetsExact(front);
      assert atoms == front + [last];
      forall a ensures Held(PortSetsOf(atoms), a) <==> Survives(atoms, a) {
        SurvivesLast(atoms, a);
        InsertHolds(PortSetsOf(front), last, a);
      }
    }
  }

  lemma InsertHolds(m: PortSets, b: Atom, a: Atom)
    ensures Held(Insert(m, b), a) <==> a == b || (Held(m, a) && !Absorbs(b, a))
  {
  }

  /** The map means the union of the listed atoms; so its meaning depends on the set of entries
      only, not on their order or repetition. */
  lemma {:induction false} PortSetsMean(w: World, atoms: seq<Atom>, p: Packet)
    requires forall a | a in atoms :: ValidAtom(w.resolve, a)
    ensures ValidSets(w.resolve, PortSetsOf(atoms))
    ensures SetsMatch(w, PortSetsOf(atoms), p) <==> SomeMatches(w, atoms, p)
  {
    if atoms != [] {
      var n := |atoms| - 1;
      assert atoms == atoms[..n] + [atoms[n]];
      PortSetsMean(w, atoms[..n], p);
      InsertMeans(w, PortSetsOf(atoms[..n]), atoms[n], p);
    }
  }

  lemma InsertMeans(w: World, m: PortSets, b: Atom, p: Packet)
    requires ValidSets(w.resolve, m) && ValidAtom(w.resolve, b)
    ensures ValidSets(w.resolve, Insert(m, b))
    ensures SetsMatch(w, Insert(m, b), p) <==> SetsMatch(w, m, p) || AtomMatches(w, b, p)
  {
    hide Insert, Held;
    forall a ensures Held(Insert(m, b), a) <==> a == b || (Held(m, a) && !Absorbs(b, a)) {
      InsertHolds(m, b, a);
    }
    if SetsMatch(w, m, p) && !AtomMatches(w, b, p) {
      var a :| Held(m, a) && AtomMatches(w, a, p);
      assert !Absorbs(b, a);
    }
  }

  /** Two lists of the same entries, in any order and with any repetition, mean the same. */
  lemma PermutationInvariant(w: World, xs: seq<Atom>, ys: seq<Atom>, p: Packet)
    requires forall a | a in xs :: ValidAtom(w.resolve, a)
    requires forall a :: a in xs <==> a in ys
    ensures ValidSets(w.resolve, PortSetsOf(xs)) && ValidSets(w.resolve, PortSetsOf(ys))
    ensures SetsMatch(w, PortSetsOf(xs), p) <==> SetsMatch(w, PortSetsOf(ys), p)
  {
    PortSetsMean(w, xs, p);
    PortSetsMean(w, ys, p);
  }

  // ----- the loop of filterToIPPortsMap -----

  datatype Result<+T> = Ok(value: T) | Err(filter: string)

  type PortLists = map<string, seq<string>>

  /** `lists` holds the port sets of `m`, each in some order without repetition. */
  ghost predicate Represents(lists: PortLists, m: PortSets)
  {
    lists.Keys == m.Keys && forall ip | ip in m :: multiset(lists[ip]) == multiset(m[ip])
  }

  ghost predicate FirstInvalid(resolve: string -> Option<Address>, filters: seq<string>, bad: string)
  {
    exists i | 0 <= i < |filters| ::
      filters[i] == bad && ReadEntry(resolve, bad).Invalid? &&
      forall j | 0 <= j < i :: !ReadEntry(resolve, filters[j]).Invalid?
  }

  /** Deletes one port from every entry, entry by entry. */
  method DeleteEverywhere(m: PortSets, port: string) returns (r: PortSets)
    ensures r == Forget(m, port)
  {
    r := m;
    var todo := m.Keys;
    while todo != {}
      invariant todo <= m.Keys == r.Keys
      invariant forall ip | ip in m :: r[ip] == if ip in todo then m[ip] else m[ip] - {port}
      decreases todo
    {
      var ip :| ip in todo;
      r := r[ip := r[ip] - {port}];
      todo := todo - {ip};
    }
  }

  /** The elements of a set in an arbitrary order, as ranging over a Go map gives them. */
  method InSomeOrder(s: set<string>) returns (xs: seq<string>)
    ensures multiset(xs) == multiset(s)
  {
    xs := [];
    var todo := s;
    while todo != {}
      invariant todo <= s && multiset(xs) == multiset(s - todo)
      decreases todo
    {
      var x :| x in todo;
      assert s - (todo - {x}) == (s - todo) + {x};
      xs := xs + [x];
      todo := todo - {x};
    }
    assert s - todo == s;
  }

  /** The map update at the end of one turn of the loop. */
  method InsertInto(m: PortSets, ip: string, port: string) returns (r: PortSets)
    ensures r == Insert(m, Atom(ip, port))
  {
    assert PortsOf(map[], ip) + {port} == {port};
    if ip == "" {
      r := DeleteEverywhere(m, port);
      if "" in r {
        r := r["" := r[""] + {port}];
      } else {
        r := r["" := {port}];
      }
    } else if port == "" {
      r := m[ip := {""}];
    } else if ip !in m {
      r := m[ip := {port}];
    } else {
      r := m[ip := m[ip] + {port}];
    }
  }

  /** Turns the port sets into lists, in whatever order ranging over them gives. */
  method ListPorts(m: PortSets) returns (lists: PortLists)
    ensures Represents(lists, m)
  {
    lists := map[];
    var todo := m.Keys;
    while todo != {}
      invariant todo <= m.Keys && lists.Keys == m.Keys - todo
      invariant forall ip | ip in lists :: multiset(lists[ip]) == multiset(m[ip])
      decreases todo
    {
      var ip :| ip in todo;
      var ports := InSomeOrder(m[ip]);
      lists := lists[ip := ports];
      todo := todo - {ip};
    }
  }

  lemma AtomsStep(resolve: string -> Option<Address>, filters: seq<string>, i: nat)
    requires i < |filters|
    ensures var r := ReadEntry(resolve, filters[i]);
            PortSetsOf(Atoms(resolve, filters[..i + 1])) ==
            if r.Read? then Insert(PortSetsOf(Atoms(resolve, filters[..i])), r.atom)
            else PortSetsOf(Atoms(resolve, filters[..i]))
  {
    assert filters[..i + 1][..i] == filters[..i];
    var before, r := Atoms(resolve, filters[..i]), ReadEntry(resolve, filters[i]);
    if r.Read? {
      assert (before + [r.atom])[..|before|] == before;
    }
  }

  method FilterToIPPortsMap(resolve: string -> Option<Address>, filters: seq<string>)
    returns (r: Result<PortLists>)
    ensures r.Err? ==> FirstInvalid(resolve, filters, r.filter)
    ensures r.Ok? ==> forall f | f in filters :: !ReadEntry(resolve, f).Invalid?
    ensures r.Ok? ==> Represents(r.value, PortSetsOf(Atoms(resolve, filters)))
  {
    var m: PortSets := map[];
    for i := 0 to |filters|
      invariant m == PortSetsOf(Atoms(resolve, filters[..i]))
      invariant forall j | 0 <= j < i :: !ReadEntry(resolve, filters[j]).Invalid?
    {
      var filter := filters[i];
      AtomsStep(resolve, filters, i);
      if filter == "" {
        continue;
      }
      var ip, port := "", "";
      if ':' in filter {
        var ipPort := Split(filter, ':');
        ip, port := ipPort[0], ipPort[1];
        if ipPort[0] == "*" { ip := ""; }
        if ipPort[1] == "*" { port := ""; }
      } else if '.' in filter {
        ip := filter;
      } else {
        port := filter;
      }
      assert SplitEntry(filter) == Atom(ip, port);
      if ip != "" && resolve(ip).None? {
        return Err(filter);
      }
      if port != "" && !ValidPort(port) {
        return Err(filter);
      }
      m := InsertInto(m, ip, port);
    }
    assert filters[..|filters|] == filters;
    var lists := ListPorts(m);
    return Ok(lists);
  }
}
