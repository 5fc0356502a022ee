/** The address clauses added to a capture filter: source and destination lists joined to the
    user's expression, and the pod addresses of a node (pkg/capture/crd_to_job.go), with the last
    combination made by the capture workload (pkg/capture/provider/network_capture_unix.go). */
module AddressClauses {
  import opened GoStrings
  import opened PcapFilter

  datatype Direction = Source | Destination | Either

  function Prefix(d: Direction): string
  {
    match d
    case Source => "src host "
    case Destination => "dst host "
    case Either => "host "
  }

  function Words(d: Direction): seq<string>
  {
    match d
    case Source => ["src", "host"]
    case Destination => ["dst", "host"]
    case Either => ["host"]
  }

  predicate Touches(w: World, d: Direction, ip: string, p: Packet)
  {
    match d
    case Source => SrcIs(w, ip, p)
    case Destination => DstIs(w, ip, p)
    case Either => HostIs(w, ip, p)
  }

  // ----- texts -----

  /** The clauses for the entries that are addresses; the others are dropped. */
  function Clauses(resolve: string -> Option<Address>, d: Direction, ips: seq<string>): seq<string>
  {
    if ips == [] then []
    else
      var n := |ips| - 1;
      var front := Clauses(resolve, d, ips[..n]);
      if resolve(ips[n]).Some? then front + [Prefix(d) + ips[n]] else front
  }

  function Clause(resolve: string -> Option<Address>, d: Direction, ips: seq<string>): string
  {
    Join(Clauses(resolve, d, ips), " or ")
  }

  /** bpfDirectionalHostClause. */
  method BpfDirectionalHostClause(resolve: string -> Option<Address>, d: Direction, ips: seq<string>)
    returns (text: string)
    ensures text == Clause(resolve, d, ips)
  {
    var clauses: seq<string> := [];
    for i := 0 to |ips|
      invariant clauses == Clauses(resolve, d, ips[..i])
    {
      assert ips[..i + 1][..i] == ips[..i];
      if resolve(ips[i]).None? {
        continue;
      }
      clauses := clauses + [Prefix(d) + ips[i]];
    }
    assert ips[..|ips|] == ips;
    text := Join(clauses, " or ");
  }

  /** combineBPFFilterExpressions, and combineFilters in the workload. */
  function CombineExpressions(a: string, b: string): string
  {
    if a != "" && b != "" then "(" + a + ") and (" + b + ")"
    else if a != "" then a
    else b
  }

  function SourceDestinationFilter(
    resolve: string -> Option<Address>, sources: seq<string>, destinations: seq<string>): string
  {
    CombineExpressions(Clause(resolve, Source, sources), Clause(resolve, Destination, destinations))
  }

  function HostTexts(ips: seq<string>): (texts: seq<string>)
    ensures |texts| == |ips|
    ensures forall i | 0 <= i < |ips| :: texts[i] == "host " + ips[i]
  {
    if ips == [] then [] else HostTexts(ips[..|ips| - 1]) + ["host " + ips[|ips| - 1]]
  }

  /** updateTcpdumpFilterWithPodIPAddress. */
  function WithPodAddresses(ips: seq<string>, base: string): string
  {
    if ips == [] then base
    else
      var group := "(" + Join(HostTexts(ips), " or ") + ")";
      if base == "" then group else base + " or " + group
  }

  method UpdateTcpdumpFilterWithPodIPAddress(ips: seq<string>, base: string) returns (text: string)
    ensures text == WithPodAddresses(ips, base)
  {
    if |ips| == 0 {
      return base;
    }
    var hosts: seq<string> := [];
    for i := 0 to |ips|
      invariant hosts == HostTexts(ips[..i])
    {
      assert ips[..i + 1][..i] == ips[..i];
      hosts := hosts + ["host " + ips[i]];
    }
    assert ips[..|ips|] == ips;
    var group := "(" + Join(hosts, " or ") + ")";
    if |base| == 0 {
      return group;
    }
    return base + " or " + group;
  }

  // ----- meaning -----

  lemma {:induction false} JoinAppend(xs: seq<string>, x: string, sep: string)
    requires xs != []
    ensures Join(xs + [x], sep) == Join(xs, sep) + sep + x
  {
    if |xs| > 1 {
      JoinAppend(xs[1..], x, sep);
      assert (xs + [x])[1..] == xs[1..] + [x];
    } else {
      assert (xs + [x])[1..] == [x];
    }
  }

  lemma LexPrefix(d: Direction)
    ensures match d
            case Source => Lex(Prefix(d)) == [Word("src"), Word("host")]
            case Destination => Lex(Prefix(d)) == [Word("dst"), Word("host")]
            case Either => Lex(Prefix(d)) == [Word("host")]
  {
    hide Lex;
    LexSpaced("host");
    assert "host " == "host" + " ";
    if d.Source? {
      LexSpaced("src");
      assert "src " == "src" + " " && "src host " == "src " + "host ";
      LexConcat("src ", "host ");
    } else if d.Destination? {
      LexSpaced("dst");
      assert "dst " == "dst" + " " && "dst host " == "dst " + "host ";
      LexConcat("dst ", "host ");
    }
  }

  lemma WordsTerm(ws: seq<string>, ts: seq<Token>)
    requires WellFormedPrimitive(ws) && |ts| == |ws| && forall i | 0 <= i < |ws| :: ts[i] == Word(ws[i])
    ensures ParseTerm(ts) == Done(Prim(ws), [])
  {
    assert LeadingWords(ts) == ws;
  }

  lemma ClauseTerm(w: World, d: Direction, ip: string)
    requires ReadsAddresses(w.resolve) && w.resolve(ip).Some?
    ensures ParseTerm(Lex(Prefix(d) + ip)) == Done(Prim(Words(d) + [ip]), [])
  {
    AddressWord(w.resolve, ip);
    LexPrefix(d);
    LexConcat(Prefix(d), ip);
    WordsTerm(Words(d) + [ip], Lex(Prefix(d) + ip));
  }

  lemma ClauseHolds(w: World, d: Direction, ip: string, p: Packet)
    requires w.resolve(ip).Some?
    ensures Holds(w, Prim(Words(d) + [ip]), p) <==> Touches(w, d, ip, p)
  {
  }

  ghost predicate SomeTouches(w: World, d: Direction, ips: seq<string>, p: Packet)
  {
    exists ip | ip in ips :: Touches(w, d, ip, p)
  }

  /** A clause is absent exactly when no entry is an address; otherwise it accepts exactly the
      packets one of the addresses touches. */
  lemma {:induction false} ClauseCorrect(w: World, d: Direction, ips: seq<string>)
    requires ReadsAddresses(w.resolve)
    ensures Usable(Clause(w.resolve, d, ips))
    ensures Clause(w.resolve, d, ips) == "" <==> forall ip | ip in ips :: w.resolve(ip).None?
    ensures Clauses(w.resolve, d, ips) == [] <==> Clause(w.resolve, d, ips) == ""
    ensures Clause(w.resolve, d, ips) != "" ==>
              forall p :: Accepts(w, Clause(w.resolve, d, ips), p) <==> SomeTouches(w, d, ips, p)
  {
    if ips != [] {
      var n := |ips| - 1;
      var front, ip := ips[..n], ips[n];
      assert ips == front + [ip];
      ClauseCorrect(w, d, front);
      if w.resolve(ip).Some? {
        AppendClause(w, d, front, ip);
        forall p: Packet
          ensures Accepts(w, Clause(w.resolve, d, ips), p) <==> SomeTouches(w, d, ips, p)
        {
          ClauseHolds(w, d, ip, p);
          assert SomeTouches(w, d, ips, p) <==> SomeTouches(w, d, front, p) || Touches(w, d, ip, p);
          var before, e := Clause(w.resolve, d, front), Prim(Words(d) + [ip]);
          if before == "" {
            assert !SomeTouches(w, d, front, p);
          } else {
            assert Accepts(w, before, p) <==> SomeTouches(w, d, front, p);
            assert Holds(w, Or(Parse(before).value, e), p) <==> Accepts(w, before, p) || Holds(w, e, p);
          }
        }
      }
    }
  }

  lemma AppendClause(w: World, d: Direction, front: seq<string>, ip: string)
    requires ReadsAddresses(w.resolve) && w.resolve(ip).Some?
    requires Usable(Clause(w.resolve, d, front))
    requires Clauses(w.resolve, d, front) == [] <==> Clause(w.resolve, d, front) == ""
    ensures var before, e := Clause(w.resolve, d, front), Prim(Words(d) + [ip]);
            var after := Clause(w.resolve, d, front + [ip]);
            after != "" &&
            Parse(after) == Some(if before == "" then e else Or(Parse(before).value, e))
  {
    var texts, t := Clauses(w.resolve, d, front), Prefix(d) + ip;
    assert (front + [ip])[..|front|] == front;
    ClauseTerm(w, d, ip);
    if texts == [] {
      assert texts + [t] == [t];
      assert ParseTail(Prim(Words(d) + [ip]), []) == Done(Prim(Words(d) + [ip]), []);
    } else {
      JoinAppend(texts, t, " or ");
      OrAppend(Clause(w.resolve, d, front), t);
    }
  }

  /** An expression joined to another accepts what both accept. */
  lemma CombineCorrect(w: World, a: string, b: string)
    requires Usable(a) && Usable(b)
    ensures Usable(CombineExpressions(a, b))
    ensures CombineExpressions(a, b) == "" <==> a == "" && b == ""
    ensures forall p :: Accepts(w, CombineExpressions(a, b), p) <==> Accepts(w, a, p) && Accepts(w, b, p)
  {
    if a != "" && b != "" {
      ParseConjunction(a, b);
    }
  }

  ghost predicate FromTo(w: World, sources: seq<string>, destinations: seq<string>, p: Packet)
  {
    && (sources == [] || SomeTouches(w, Source, sources, p))
    && (destinations == [] || SomeTouches(w, Destination, destinations, p))
  }

  /** When every listed entry is an address none is skipped, and the clause is exactly the lists. */
  lemma SourceDestinationCorrect(w: World, sources: seq<string>, destinations: seq<string>)
    requires ReadsAddresses(w.resolve)
    requires forall ip | ip in sources || ip in destinations :: w.resolve(ip).Some?
    ensures var text := SourceDestinationFilter(w.resolve, sources, destinations);
            Usable(text) && forall p :: Accepts(w, text, p) <==> FromTo(w, sources, destinations, p)
  {
    ClauseCorrect(w, Source, sources);
    ClauseCorrect(w, Destination, destinations);
    if sources != [] { assert sources[0] in sources; }
    if destinations != [] { assert destinations[0] in destinations; }
    CombineCorrect(w, Clause(w.resolve, Source, sources), Clause(w.resolve, Destination, destinations));
  }

  lemma {:induction false} HostTextsAreClauses(resolve: string -> Option<Address>, ips: seq<string>)
    requires forall ip | ip in ips :: resolve(ip).Some?
    ensures HostTexts(ips) == Clauses(resolve, Either, ips)
  {
    if ips != [] {
      var n := |ips| - 1;
      assert ips[n] in ips;
      HostTextsAreClauses(resolve, ips[..n]);
    }
  }

  ghost predicate BaseOrPods(w: World, base: string, ips: seq<string>, p: Packet)
    requires Usable(base)
  {
    if ips == [] then Accepts(w, base, p)
    else (base != "" && Accepts(w, base, p)) || SomeTouches(w, Either, ips, p)
  }

  /** The pods' addresses are an alternative to the whole base filter, however it is built. */
  lemma WithPodAddressesCorrect(w: World, base: string, ips: seq<string>)
    requires ReadsAddresses(w.resolve) && Usable(base)
    requires forall ip | ip in ips :: w.resolve(ip).Some?
    ensures Usable(WithPodAddresses(ips, base))
    ensures forall p :: Accepts(w, WithPodAddresses(ips, base), p) <==> BaseOrPods(w, base, ips, p)
  {
    hide Lex, ParseExpr;
    if ips != [] {
      assert ips[0] in ips;
      ClauseCorrect(w, Either, ips);
      HostTextsAreClauses(w.resolve, ips);
      var hosts := Clause(w.resolve, Either, ips);
      ParseParens(hosts);
      if base != "" {
        ParseDisjunction(base, hosts);
        assert base + " or (" + hosts + ")" == base + " or " + ("(" + hosts + ")");
      }
    }
  }
}
