/** What a text cannot do to the clauses it is combined with, well formed or not: the shape of every
    expression that `(a) and (b)` can be read as. */
module PcapNesting {
  import opened GoStrings
  import opened PcapFilter

  // ----- nesting depth -----

  function Step(t: Token): int { if t.LParen? then 1 else if t.RParen? then -1 else 0 }

  function Depth(ts: seq<Token>): int
  {
    if ts == [] then 0 else Depth(ts[..|ts| - 1]) + Step(ts[|ts| - 1])
  }

  lemma {:induction false} DepthConcat(a: seq<Token>, b: seq<Token>)
    ensures Depth(a + b) == Depth(a) + Depth(b)
  {
    if b == [] {
      assert a + b == a;
    } else {
      var n := |b| - 1;
      assert (a + b)[..|a| + n] == a + b[..n];
      DepthConcat(a, b[..n]);
    }
  }

  lemma DepthOne(t: Token)
    ensures Depth([t]) == Step(t)
  {
    assert [t][..0] == [];
  }

  /** Balanced, and never below the level it started on. */
  ghost predicate Nested(ts: seq<Token>)
  {
    Depth(ts) == 0 && forall i | 0 <= i <= |ts| :: Depth(ts[..i]) >= 0
  }

  predicate IsOperator(t: Token) { t.AndOp? || t.OrOp? }

  /** Nested, and with operators inside parentheses only. */
  ghost predicate Closed(ts: seq<Token>)
  {
    Nested(ts) && forall i | 0 <= i < |ts| && IsOperator(ts[i]) :: Depth(ts[..i]) >= 1
  }

  lemma PrefixOfConcat(a: seq<Token>, b: seq<Token>, i: nat)
    requires i <= |a| + |b|
    ensures Depth((a + b)[..i]) == if i <= |a| then Depth(a[..i]) else Depth(a) + Depth(b[..i - |a|])
  {
    if i <= |a| {
      assert (a + b)[..i] == a[..i];
    } else {
      assert (a + b)[..i] == a + b[..i - |a|];
      DepthConcat(a, b[..i - |a|]);
    }
  }

  lemma NestedConcat(a: seq<Token>, b: seq<Token>)
    requires Nested(a) && Nested(b)
    ensures Nested(a + b)
  {
    DepthConcat(a, b);
    forall i | 0 <= i <= |a + b| ensures Depth((a + b)[..i]) >= 0 { PrefixOfConcat(a, b, i); }
  }

  lemma NestedNone() ensures Nested([]) {}

  lemma NestedOne(t: Token)
    requires Step(t) == 0
    ensures Nested([t])
  {
    DepthOne(t);
    forall i | 0 <= i <= 1 ensures Depth([t][..i]) >= 0 { assert i == 1 ==> [t][..i] == [t]; }
  }

  lemma ClosedNot(ts: seq<Token>)
    requires Closed(ts)
    ensures Closed([NotOp] + ts)
  {
    NestedOne(NotOp);
    NestedConcat([NotOp], ts);
    DepthOne(NotOp);
    var all := [NotOp] + ts;
    forall i | 0 <= i < |all| && IsOperator(all[i]) ensures Depth(all[..i]) >= 1 {
      PrefixOfConcat([NotOp], ts, i);
      assert all[i] == ts[i - 1];
    }
  }

  lemma ClosedParens(ts: seq<Token>)
    requires Nested(ts)
    ensures Closed([LParen] + ts + [RParen])
  {
    var open := [LParen] + ts;
    var all := open + [RParen];
    DepthOne(LParen);
    DepthOne(RParen);
    DepthConcat([LParen], ts);
    DepthConcat(open, [RParen]);
    forall i | 1 <= i <= |open| ensures Depth(all[..i]) >= 1 {
      PrefixOfConcat(open, [RParen], i);
      PrefixOfConcat([LParen], ts, i);
      if i == 1 { assert ts[..0] == []; }
    }
    assert all[..|all|] == all;
  }

  lemma {:induction false} ClosedWords(ts: seq<Token>)
    requires forall t | t in ts :: t.Word?
    ensures Closed(ts)
  {
    if ts != [] {
      var n := |ts| - 1;
      ClosedWords(ts[..n]);
      assert ts[n] in ts;
      NestedOne(ts[n]);
      NestedConcat(ts[..n], [ts[n]]);
      assert ts == ts[..n] + [ts[n]];
      forall i | 0 <= i < |ts| ensures !IsOperator(ts[i]) { assert ts[i] in ts; }
    }
  }

  // ----- the parser, one step at a time -----

  lemma ReadNot(ts: seq<Token>)
    requires ts != [] && ts[0].NotOp?
    ensures ParseTerm(ts) ==
            if ParseTerm(ts[1..]).Done? then Done(Not(ParseTerm(ts[1..]).e), ParseTerm(ts[1..]).rest) else Fail
  {
  }

  lemma ReadParen(ts: seq<Token>)
    requires ts != [] && ts[0].LParen?
    ensures ParseTerm(ts) ==
            var p := ParseExpr(ts[1..]);
            if p.Done? && p.rest != [] && p.rest[0].RParen? then Done(p.e, p.rest[1..]) else Fail
  {
  }

  lemma ReadWords(ts: seq<Token>)
    requires ts != [] && !ts[0].NotOp? && !ts[0].LParen?
    ensures var ws := LeadingWords(ts);
            ParseTerm(ts) == if WellFormedPrimitive(ws) then Done(Prim(ws), ts[|ws|..]) else Fail
  {
  }

  lemma ReadExpr(ts: seq<Token>)
    ensures ParseExpr(ts) == if ParseTerm(ts).Done? then ParseTail(ParseTerm(ts).e, ParseTerm(ts).rest) else Fail
  {
  }

  lemma ReadTail(acc: Expr, ts: seq<Token>)
    ensures ts == [] || !IsOperator(ts[0]) ==> ParseTail(acc, ts) == Done(acc, ts)
    ensures ts != [] && IsOperator(ts[0]) ==>
              ParseTail(acc, ts) ==
              if ParseTerm(ts[1..]).Done? then ParseTail(Joined(ts[0], acc, ParseTerm(ts[1..]).e), ParseTerm(ts[1..]).rest)
              else Fail
  {
  }

  function Joined(op: Token, l: Expr, r: Expr): Expr { if op.AndOp? then And(l, r) else Or(l, r) }

  // ----- what the parser consumes -----

  lemma {:induction false} TermShape(ts: seq<Token>) returns (c: seq<Token>)
    requires ParseTerm(ts).Done?
    ensures ts == c + ParseTerm(ts).rest && Closed(c)
    decreases |ts|, 0
  {
    hide Nested, Closed, Depth, ParseTerm, ParseExpr, ParseTail;
    assert ts != [];
    if ts[0].NotOp? {
      ReadNot(ts);
      var d := TermShape(ts[1..]);
      ClosedNot(d);
      c := [NotOp] + d;
    } else if ts[0].LParen? {
      ReadParen(ts);
      var d := ExprShape(ts[1..]);
      ClosedParens(d);
      c := [LParen] + d + [RParen];
    } else {
      ReadWords(ts);
      c := ts[..|LeadingWords(ts)|];
      ClosedWords(c);
    }
  }

  lemma ClosedIsNested(ts: seq<Token>)
    requires Closed(ts)
    ensures Nested(ts)
  {
  }

  lemma {:induction false} ExprShape(ts: seq<Token>) returns (c: seq<Token>)
    requires ParseExpr(ts).Done?
    ensures ts == c + ParseExpr(ts).rest && Nested(c)
    decreases |ts|, 1
  {
    hide Nested, Closed, Depth, ParseTerm, ParseExpr, ParseTail;
    ReadExpr(ts);
    var t := ParseTerm(ts);
    var first := TermShape(ts);
    var more := TailShape(t.e, t.rest);
    ClosedIsNested(first);
    NestedConcat(first, more);
    c := first + more;
  }

  lemma {:induction false} TailShape(acc: Expr, ts: seq<Token>) returns (c: seq<Token>)
    requires ParseTail(acc, ts).Done?
    ensures ts == c + ParseTail(acc, ts).rest && Nested(c)
    decreases |ts|, 0
  {
    hide Nested, Closed, Depth, ParseTerm, ParseExpr, ParseTail;
    ReadTail(acc, ts);
    if ts == [] || !IsOperator(ts[0]) {
      c := [];
      NestedNone();
    } else {
      var t := ParseTerm(ts[1..]);
      var first := TermShape(ts[1..]);
      var more := TailShape(Joined(ts[0], acc, t.e), t.rest);
      NestedOne(ts[0]);
      ClosedIsNested(first);
      NestedConcat(first, more);
      NestedConcat([ts[0]], first + more);
      c := [ts[0]] + (first + more);
    }
  }

  // ----- the parser looks no further than it reads -----

  lemma {:induction false} LeadingWordsSwap(c: seq<Token>, r: seq<Token>, s: seq<Token>)
    requires |LeadingWords(c + r)| == |c| && (s == [] || !s[0].Word?)
    ensures LeadingWords(c + s) == LeadingWords(c + r)
  {
    if c == [] {
      assert c + s == s;
    } else {
      assert (c + r)[0] == (c + s)[0] == c[0];
      assert (c + r)[1..] == c[1..] + r && (c + s)[1..] == c[1..] + s;
      LeadingWordsSwap(c[1..], r, s);
    }
  }

  ghost predicate ReadsTo(p: Parsed, rest: seq<Token>) { p.Done? && p.rest == rest }

  lemma {:induction false} TermSwap(c: seq<Token>, r: seq<Token>, s: seq<Token>)
    requires ReadsTo(ParseTerm(c + r), r) && (s == [] || !s[0].Word?)
    ensures ParseTerm(c + s) == Done(ParseTerm(c + r).e, s)
    decreases |c|, 0
  {
    hide Nested, Closed, Depth, ParseTerm, ParseExpr, ParseTail;
    assert c != [] by { assert |r| < |c + r|; }
    assert (c + r)[0] == (c + s)[0] == c[0];
    assert (c + r)[1..] == c[1..] + r && (c + s)[1..] == c[1..] + s;
    if c[0].NotOp? {
      ReadNot(c + r);
      ReadNot(c + s);
      TermSwap(c[1..], r, s);
    } else if c[0].LParen? {
      ReadParen(c + r);
      ReadParen(c + s);
      var d := ExprShape(c[1..] + r);
      ParenSwap(c[1..], d, r, s);
      ExprSwap(d, [RParen] + r, [RParen] + s);
    } else {
      ReadWords(c + r);
      ReadWords(c + s);
      assert |LeadingWords(c + r)| == |c|;
      LeadingWordsSwap(c, r, s);
      assert (c + s)[|c|..] == s;
    }
  }

  lemma ParenSwap(c: seq<Token>, d: seq<Token>, r: seq<Token>, s: seq<Token>)
    requires ParseExpr(c + r).Done? && c + r == d + ParseExpr(c + r).rest
    requires ParseExpr(c + r).rest != [] && ParseExpr(c + r).rest[0].RParen? && ParseExpr(c + r).rest[1..] == r
    ensures |d| < |c| && ParseExpr(c + r).rest == [RParen] + r
    ensures c + r == d + ([RParen] + r) && c + s == d + ([RParen] + s)
  {
    hide ParseExpr;
    var q := ParseExpr(c + r).rest;
    assert q == [RParen] + r;
    assert (c + r)[..|c|] == c && (d + q)[..|d| + 1] == d + [RParen];
    assert c == d + [RParen];
  }

  /** Where a first part ends, in a text that is read up to `r`. */
  lemma SplitAt(c: seq<Token>, r: seq<Token>, first: seq<Token>, more: seq<Token>, s: seq<Token>)
    requires c + r == first + (more + r)
    ensures c == first + more && c + s == first + (more + s)
  {
    assert (c + r)[..|c|] == c;
    assert first + (more + r) == (first + more) + r;
    assert ((first + more) + r)[..|first + more|] == first + more;
  }

  lemma {:induction false} ExprSwap(c: seq<Token>, r: seq<Token>, s: seq<Token>)
    requires ReadsTo(ParseExpr(c + r), r) && (s == [] || s[0].RParen?)
    ensures ParseExpr(c + s) == Done(ParseExpr(c + r).e, s)
    decreases |c|, 1
  {
    hide Nested, Closed, Depth, ParseTerm, ParseExpr, ParseTail;
    ReadExpr(c + r);
    ReadExpr(c + s);
    var t := ParseTerm(c + r);
    var first := TermShape(c + r);
    var more := TailShape(t.e, t.rest);
    SplitAt(c, r, first, more, s);
    TailStarts(t.e, more, r);
    assert |first| > 0;
    TermSwap(first, more + r, more + s);
    TailSwap(t.e, more, r, s);
  }

  /** What a tail reads starts with an operator. */
  lemma TailStarts(acc: Expr, c: seq<Token>, r: seq<Token>)
    requires ReadsTo(ParseTail(acc, c + r), r)
    ensures c != [] ==> IsOperator(c[0])
  {
    hide ParseTail;
    ReadTail(acc, c + r);
    if c != [] { assert (c + r)[0] == c[0]; }
  }

  lemma {:induction false} TailSwap(acc: Expr, c: seq<Token>, r: seq<Token>, s: seq<Token>)
    requires ReadsTo(ParseTail(acc, c + r), r) && (s == [] || s[0].RParen?)
    ensures ParseTail(acc, c + s) == Done(ParseTail(acc, c + r).e, s)
    decreases |c|, 0
  {
    hide Nested, Closed, Depth, ParseTerm, ParseExpr, ParseTail;
    ReadTail(acc, c + r);
    ReadTail(acc, c + s);
    if c == [] {
      assert c + r == r && c + s == s;
    } else {
      TailStarts(acc, c, r);
      assert (c + r)[0] == (c + s)[0] == c[0];
      assert (c + r)[1..] == c[1..] + r && (c + s)[1..] == c[1..] + s;
      var t := ParseTerm(c[1..] + r);
      var acc' := Joined(c[0], acc, t.e);
      var first := TermShape(c[1..] + r);
      var more := TailShape(acc', t.rest);
      SplitAt(c[1..], r, first, more, s);
      TailStarts(acc', more, r);
      TermSwap(first, more + r, more + s);
      TailSwap(acc', more, r, s);
    }
  }

  // ----- an operator outside parentheses -----

  /** Two ways to cut one sequence, the first one earlier. */
  lemma CutEarlier(c: seq<Token>, rest: seq<Token>, x: seq<Token>, z: seq<Token>)
    requires c + rest == x + z && |c| <= |x|
    ensures x == c + x[|c|..] && rest == x[|c|..] + z
  {
    assert (c + rest)[..|c|] == c && (x + z)[..|c|] == x[..|c|];
    assert (c + rest)[|c|..] == rest && (x + z)[|c|..] == x[|c|..] + z;
  }

  lemma ClosedAt(c: seq<Token>, i: nat)
    requires Closed(c) && i < |c| && IsOperator(c[i])
    ensures Depth(c[..i]) >= 1
  {
  }

  lemma NestedDepth(c: seq<Token>)
    requires Nested(c)
    ensures Depth(c) == 0
  {
  }

  lemma CutLater(c: seq<Token>, rest: seq<Token>, x: seq<Token>, z: seq<Token>)
    requires c + rest == x + z && |c| > |x| && z != []
    ensures c[|x|] == z[0] && c[..|x|] == x
  {
    assert (c + rest)[|x|] == c[|x|] && (x + z)[|x|] == z[0];
    assert (c + rest)[..|x|] == c[..|x|] && (x + z)[..|x|] == x;
  }

  /** A term cannot read past an operator on its own level. */
  lemma TermStops(c: seq<Token>, rest: seq<Token>, x: seq<Token>, z: seq<Token>)
    requires Closed(c) && z != [] && IsOperator(z[0]) && c + rest == x + z && Depth(x) == 0
    ensures |c| <= |x| && rest == x[|c|..] + z && Depth(x[|c|..]) == 0
  {
    hide Closed, Nested, Depth;
    if |c| > |x| {
      CutLater(c, rest, x, z);
      ClosedAt(c, |x|);
      assert false;
    }
    CutEarlier(c, rest, x, z);
    ClosedIsNested(c);
    NestedDepth(c);
    DepthConcat(c, x[|c|..]);
  }

  ghost predicate Ends(r: seq<Token>) { r == [] || r[0].RParen? }

  /** The last operand of a balanced tail is what stands behind its last operator. */
  lemma {:induction false} LastOperand(acc: Expr, x: seq<Token>, y: seq<Token>, v: Expr, r: seq<Token>)
    requires Depth(x) == 0 && Ends(r) && ParseTerm(y + r) == Done(v, r)
    requires ReadsTo(ParseTail(acc, x + ([AndOp] + (y + r))), r)
    ensures var e := ParseTail(acc, x + ([AndOp] + (y + r))).e; e.And? && e.r == v
    decreases |x|
  {
    hide Nested, Closed, Depth, ParseTerm, ParseExpr, ParseTail;
    var ts := x + ([AndOp] + (y + r));
    ReadTail(acc, ts);
    if x == [] {
      assert ts[1..] == y + r;
      ReadTail(And(acc, v), r);
    } else {
      assert ts[0] == x[0] && ts[1..] == x[1..] + ([AndOp] + (y + r));
      assert IsOperator(x[0]);
      var c := TermShape(ts[1..]);
      var t := ParseTerm(ts[1..]);
      DepthTail(x);
      TermStops(c, t.rest, x[1..], [AndOp] + (y + r));
      LastOperand(Joined(x[0], acc, t.e), x[1..][|c|..], y, v, r);
    }
  }

  lemma DepthTail(ts: seq<Token>)
    requires ts != []
    ensures Depth(ts) == Step(ts[0]) + Depth(ts[1..])
  {
    assert ts == [ts[0]] + ts[1..];
    DepthConcat([ts[0]], ts[1..]);
    DepthOne(ts[0]);
  }

  lemma LastOperandOfExpr(x: seq<Token>, y: seq<Token>, v: Expr, r: seq<Token>)
    requires Depth(x) == 0 && Ends(r) && ParseTerm(y + r) == Done(v, r)
    requires ReadsTo(ParseExpr(x + ([AndOp] + (y + r))), r)
    ensures var e := ParseExpr(x + ([AndOp] + (y + r))).e; e.And? && e.r == v
  {
    hide Nested, Closed, Depth, ParseTerm, ParseExpr, ParseTail;
    var ts := x + ([AndOp] + (y + r));
    ReadExpr(ts);
    var c := TermShape(ts);
    var t := ParseTerm(ts);
    TermStops(c, t.rest, x, [AndOp] + (y + r));
    LastOperand(t.e, x[|c|..], y, v, r);
  }

  function Group(text: string): seq<Token> { [LParen] + Lex(text) + [RParen] }

  lemma GroupReads(b: string, u: seq<Token>)
    requires Parse(b).Some?
    ensures ParseTerm(Group(b) + u) == Done(Parse(b).value, u) && Nested(Group(b))
  {
    hide Lex, ParseTerm, ParseExpr, Nested, Closed;
    ParseParenthesised(Lex(b), u);
    var c := ExprShape(Lex(b));
    assert c == Lex(b);
    ClosedParens(c);
    ClosedIsNested(Group(b));
  }

  lemma LexConjunction(a: string, b: string)
    ensures Lex("(" + a + ") and (" + b + ")") == Group(a) + [AndOp] + Group(b)
  {
    hide Lex;
    var pa, pb := "(" + a + ")", "(" + b + ")";
    assert "(" + a + ") and (" + b + ")" == pa + (" and " + pb);
    LexConcat(pa, " and " + pb);
    LexConcat(" and ", pb);
    LexAnd();
    LexParenthesised(a);
    LexParenthesised(b);
  }

  /** Whatever `a` is, even no expression at all: if `(a) and (b)` can be read, then as a conjunction
      with `b`. */
  lemma ConjunctStays(a: string, b: string)
    requires Parse(b).Some? && Parse("(" + a + ") and (" + b + ")").Some?
    ensures var e := Parse("(" + a + ") and (" + b + ")").value; e.And? && e.r == Parse(b).value
  {
    hide Lex, ParseTerm, ParseExpr, Nested, Depth;
    LexConjunction(a, b);
    var ts := Group(a) + [AndOp] + Group(b);
    var c := ExprShape(ts);
    assert c == ts;
    GroupReads(b, []);
    assert Group(b) + [] == Group(b);
    BalancedFront(Group(a), [AndOp], Group(b));
    assert ts == Group(a) + ([AndOp] + (Group(b) + []));
    LastOperandOfExpr(Group(a), Group(b), Parse(b).value, []);
  }

  lemma BalancedFront(x: seq<Token>, op: seq<Token>, y: seq<Token>)
    requires Nested(x + op + y) && Nested(y) && op == [AndOp]
    ensures Depth(x) == 0
  {
    DepthConcat(x + op, y);
    DepthConcat(x, op);
    DepthOne(AndOp);
  }

  // ----- every operator has its operand -----

  lemma {:induction false} TermOperands(ts: seq<Token>, i: nat)
    requires ParseTerm(ts).Done? && i < |ts| - |ParseTerm(ts).rest| && IsOperator(ts[i])
    ensures ParseTerm(ts[i + 1..]).Done?
    decreases |ts|, 0
  {
    hide ParseTerm, ParseExpr, ParseTail;
    if ts[0].NotOp? {
      ReadNot(ts);
      TermOperands(ts[1..], i - 1);
      assert ts[1..][i..] == ts[i + 1..];
    } else if ts[0].LParen? {
      ReadParen(ts);
      var c := ExprShape(ts[1..]);
      ExprOperands(ts[1..], i - 1);
      assert ts[1..][i..] == ts[i + 1..];
    } else {
      ReadWords(ts);
    }
  }

  lemma {:induction false} ExprOperands(ts: seq<Token>, i: nat)
    requires ParseExpr(ts).Done? && i < |ts| - |ParseExpr(ts).rest| && IsOperator(ts[i])
    ensures ParseTerm(ts[i + 1..]).Done?
    decreases |ts|, 1
  {
    hide ParseTerm, ParseExpr, ParseTail, Closed;
    ReadExpr(ts);
    var t := ParseTerm(ts);
    var c := TermShape(ts);
    if i < |c| {
      TermOperands(ts, i);
    } else {
      TailOperands(t.e, t.rest, i - |c|);
      assert t.rest[i - |c| + 1..] == ts[i + 1..];
    }
  }

  lemma {:induction false} TailOperands(acc: Expr, ts: seq<Token>, i: nat)
    requires ParseTail(acc, ts).Done? && i < |ts| - |ParseTail(acc, ts).rest| && IsOperator(ts[i])
    ensures ParseTerm(ts[i + 1..]).Done?
    decreases |ts|, 0
  {
    hide ParseTerm, ParseExpr, ParseTail, Closed;
    ReadTail(acc, ts);
    if i > 0 {
      var t := ParseTerm(ts[1..]);
      var c := TermShape(ts[1..]);
      if i - 1 < |c| {
        TermOperands(ts[1..], i - 1);
        assert ts[1..][i..] == ts[i + 1..];
      } else {
        TailOperands(Joined(ts[0], acc, t.e), t.rest, i - 1 - |c|);
        assert t.rest[i - |c|..] == ts[i + 1..];
      }
    }
  }

  /** No text in front of an unreadable one makes it readable. */
  lemma UnreadableConjunct(a: string, b: string)
    requires Unreadable(b)
    ensures Parse("(" + a + ") and (" + b + ")") == None
  {
    hide Lex, ParseTerm, ParseExpr;
    LexConjunction(a, b);
    var ts := Group(a) + [AndOp] + Group(b);
    var n := |Group(a)|;
    assert ts[n] == AndOp && ts[n + 1..] == Group(b);
    ReadParen(Group(b));
    assert Group(b)[1..] == Lex(b) + [RParen];
    if ParseExpr(ts).Done? && ParseExpr(ts).rest == [] {
      ExprOperands(ts, n);
    }
  }

  // ----- two combinations, one inside the other -----

  /** A clause inside a group: `(… and (sd))`, its opening part cut off. */
  function Inner(sd: string): seq<Token> { [AndOp] + Group(sd) + [RParen] }

  lemma InnerDepths(sd: string, i: nat)
    requires Parse(sd).Some? && i <= |Inner(sd)|
    ensures Depth(Inner(sd)[..i]) == -1 <==> i == |Inner(sd)|
    ensures i < |Inner(sd)| ==> Depth(Inner(sd)[..i]) >= 0
  {
    hide Lex, ParseTerm, Nested, Depth;
    GroupReads(sd, []);
    NestedOne(AndOp);
    var front := [AndOp] + Group(sd);
    NestedConcat([AndOp], Group(sd));
    DepthOne(RParen);
    PrefixOfConcat(front, [RParen], i);
    if i < |Inner(sd)| {
      NestedPrefix(front, i);
    } else {
      NestedDepth(front);
      assert [RParen][..1] == [RParen];
    }
  }

  lemma NestedPrefix(c: seq<Token>, i: nat)
    requires Nested(c) && i <= |c|
    ensures Depth(c[..i]) >= 0
  {
  }

  lemma InnerDepth(sd: string)
    requires Parse(sd).Some?
    ensures Depth(Inner(sd)) == -1
  {
    hide Depth, Parse, Inner;
    InnerDepths(sd, |Inner(sd)|);
    assert Inner(sd)[..|Inner(sd)|] == Inner(sd);
  }

  /** After an open parenthesis and such a clause a term cannot read on past an operator. */
  lemma TermNotBeyond(c: seq<Token>, rest: seq<Token>, p: seq<Token>, sd: string, w: seq<Token>)
    requires Closed(c) && c + rest == p + Inner(sd) + w && Depth(p) == 1
    requires Parse(sd).Some? && w != [] && IsOperator(w[0])
    ensures |c| <= |p| + |Inner(sd)|
  {
    hide Closed, Nested, Depth, Inner, Parse;
    var front := p + Inner(sd);
    DepthConcat(p, Inner(sd));
    InnerDepth(sd);
    if |c| > |front| {
      CutLater(c, rest, front, w);
      ClosedAt(c, |front|);
      assert false;
    }
  }

  /** A term that opened one parenthesis before such a clause ends exactly behind it. */
  lemma TermEnds(c: seq<Token>, rest: seq<Token>, p: seq<Token>, sd: string, w: seq<Token>)
    requires Closed(c) && c + rest == p + (Inner(sd) + w) && Depth(p) == 1 && |c| > |p|
    requires Parse(sd).Some? && w != [] && IsOperator(w[0])
    ensures c == p + Inner(sd) && rest == w
  {
    hide Closed, Nested, Depth, Inner, Parse;
    assert p + (Inner(sd) + w) == p + Inner(sd) + w;
    TermNotBeyond(c, rest, p, sd, w);
    CutEarlier(p, Inner(sd) + w, c, rest);
    var d := c[|p|..];
    ClosedIsNested(c);
    NestedDepth(c);
    DepthConcat(p, d);
    ExactEnd(d, rest, sd, w);
  }

  lemma ExactEnd(d: seq<Token>, rest: seq<Token>, sd: string, w: seq<Token>)
    requires Parse(sd).Some? && |d| <= |Inner(sd)| && d + rest == Inner(sd) + w && Depth(d) == -1
    ensures d == Inner(sd) && rest == w
  {
    hide Depth, Inner, Parse;
    CutEarlier(d, rest, Inner(sd), w);
    assert d == Inner(sd)[..|d|];
    InnerDepths(sd, |d|);
  }

  /** The clause is a conjunct of something smaller than the whole. */
  ghost predicate Buried(e: Expr, sd: Expr)
  {
    (e.And? && e.r == sd) || (e.Not? && Buried(e.e, sd))
  }

  function Size(e: Expr): nat
  {
    match e
    case Prim(_) => 1
    case Not(a) => 1 + Size(a)
    case And(a, b) => 1 + Size(a) + Size(b)
    case Or(a, b) => 1 + Size(a) + Size(b)
  }

  lemma {:induction false} BuriedDiffers(e: Expr, sd: Expr)
    requires Buried(e, sd)
    ensures Size(e) > Size(sd)
  {
    if e.Not? { BuriedDiffers(e.e, sd); }
  }

  lemma {:induction false} BuriedTerm(p: seq<Token>, sd: string, w: seq<Token>)
    requires Parse(sd).Some? && Depth(p) == 1
    requires ReadsTo(ParseTerm(p + (Inner(sd) + w)), w)
    ensures Buried(ParseTerm(p + (Inner(sd) + w)).e, Parse(sd).value)
    decreases |p|
  {
    hide Closed, Nested, Depth, ParseTerm, ParseExpr, ParseTail, Parse, Lex;
    var ts := p + (Inner(sd) + w);
    if p == [] {
      DepthNone();
      assert false;
    }
    DepthTail(p);
    assert ts[0] == p[0] && ts[1..] == p[1..] + (Inner(sd) + w);
    assert ts[|p|] == AndOp;
    assert |LeadingWords(ts)| <= |p|;
    if p[0].NotOp? {
      ReadNot(ts);
      BuriedTerm(p[1..], sd, w);
    } else if p[0].LParen? {
      ReadParen(ts);
      var r := [RParen] + w;
      assert ts[1..] == p[1..] + ([AndOp] + (Group(sd) + r));
      assert ParseExpr(ts[1..]).rest == r;
      GroupReads(sd, r);
      LastOperandOfExpr(p[1..], Group(sd), Parse(sd).value, r);
    } else {
      ReadWords(ts);
      assert false;
    }
  }

  lemma DepthNone() ensures Depth([]) == 0 {}

  /** A tail that opens a group around the clause keeps the clause inside that group. */
  lemma {:induction false} BuriedTail(acc: Expr, p: seq<Token>, sd: string, sys: string)
    requires Parse(sd).Some? && Parse(sys).Some? && Depth(p) == 1
    requires ReadsTo(ParseTail(acc, p + (Inner(sd) + ([AndOp] + Group(sys)))), [])
    ensures var e := ParseTail(acc, p + (Inner(sd) + ([AndOp] + Group(sys)))).e;
            e.And? && (e.l.And? || e.l.Or?) && Buried(e.l.r, Parse(sd).value)
    decreases |p|
  {
    hide Closed, Nested, Depth, ParseTerm, ParseExpr, ParseTail, Parse, Lex, Inner, Buried;
    var w := [AndOp] + Group(sys);
    var z := Inner(sd) + w;
    var ts := p + z;
    if p == [] {
      DepthNone();
      assert false;
    }
    ReadTail(acc, ts);
    assert ts[0] == p[0] && ts[1..] == p[1..] + z;
    assert IsOperator(p[0]);
    DepthTail(p);
    var c := TermShape(ts[1..]);
    var t := ParseTerm(ts[1..]);
    var acc' := Joined(p[0], acc, t.e);
    if |c| <= |p[1..]| {
      CutEarlier(c, t.rest, p[1..], z);
      ClosedIsNested(c);
      NestedDepth(c);
      DepthConcat(c, p[1..][|c|..]);
      BuriedTail(acc', p[1..][|c|..], sd, sys);
    } else {
      TermEnds(c, t.rest, p[1..], sd, w);
      BuriedTerm(p[1..], sd, w);
      SystemLast(acc', sys);
    }
  }

  lemma SystemLast(acc: Expr, sys: string)
    requires Parse(sys).Some?
    ensures ParseTail(acc, [AndOp] + Group(sys)) == Done(And(acc, Parse(sys).value), [])
  {
    hide ParseTerm, ParseExpr, ParseTail, Parse, Lex, Nested;
    var w := [AndOp] + Group(sys);
    ReadTail(acc, w);
    GroupReads(sys, []);
    assert w[1..] == Group(sys) + [];
    ReadTail(And(acc, Parse(sys).value), []);
  }

  function Conjoined(a: string, b: string): string { "(" + a + ") and (" + b + ")" }

  lemma NestedTokens(user: string, sd: string, sys: string)
    ensures Lex(Conjoined(Conjoined(user, sd), sys)) ==
            ([LParen] + Group(user)) + (Inner(sd) + ([AndOp] + Group(sys)))
    ensures Lex(Conjoined(Conjoined(user, sd), sys)) ==
            [LParen] + (Lex(Conjoined(user, sd)) + ([RParen] + ([AndOp] + Group(sys))))
  {
    hide Lex;
    LexConjunction(user, sd);
    LexConjunction(Conjoined(user, sd), sys);
  }

  /** If the inner combination is no expression of its own but the whole is read, then the clause has
      ended up inside a group the user's text opened. */
  lemma Escapes(user: string, sd: string, sys: string)
    requires Parse(sd).Some? && Parse(sys).Some?
    requires Parse(Conjoined(user, sd)).None? && Parse(Conjoined(Conjoined(user, sd), sys)).Some?
    ensures var e := Parse(Conjoined(Conjoined(user, sd), sys)).value;
            e.And? && (e.l.And? || e.l.Or?) && Buried(e.l.r, Parse(sd).value)
  {
    var w := [AndOp] + Group(sys);
    var u, z := [LParen] + Group(user), Inner(sd) + w;
    NestedTokens(user, sd, sys);
    var ts := Lex(Conjoined(Conjoined(user, sd), sys));
    var inside := Lex(Conjoined(user, sd));
    assert inside + [] == inside;
    hide Closed, Nested, Depth, ParseTerm, ParseExpr, ParseTail, Lex, Inner, Buried, Conjoined;
    OpenDepth(user, sd, sys);
    ReadExpr(ts);
    var first := ParseTerm(ts);
    var c := TermShape(ts);
    if |c| <= |u| {
      CutEarlier(c, first.rest, u, z);
      ClosedIsNested(c);
      NestedDepth(c);
      DepthConcat(c, u[|c|..]);
      BuriedTail(first.e, u[|c|..], sd, sys);
    } else {
      TermEnds(c, first.rest, u, sd, w);
      ReadParen(ts);
      assert ts[1..] == inside + ([RParen] + w);
      assert ParseExpr(ts[1..]).rest == [RParen] + w;
      ExprSwap(inside, [RParen] + w, []);
      assert false;
    }
  }

  lemma OpenDepth(user: string, sd: string, sys: string)
    requires Parse(sd).Some? && Parse(sys).Some? && Parse(Conjoined(Conjoined(user, sd), sys)).Some?
    ensures Depth([LParen] + Group(user)) == 1
  {
    hide Lex, ParseExpr, Nested, Depth, Inner, Conjoined;
    NestedTokens(user, sd, sys);
    var u, w := [LParen] + Group(user), [AndOp] + Group(sys);
    var c := ExprShape(Lex(Conjoined(Conjoined(user, sd), sys)));
    assert c == u + (Inner(sd) + w);
    NestedDepth(c);
    DepthConcat(u, Inner(sd) + w);
    DepthConcat(Inner(sd), w);
    InnerDepth(sd);
    GroupReads(sys, []);
    NestedOne(AndOp);
    NestedConcat([AndOp], Group(sys));
    NestedDepth(w);
  }

  /** For every user text: what is run always has the system filter as a conjunct, and it has the
      source/destination clause as a conjunct exactly when the text combined with that clause is an
      expression of its own. */
  lemma ClausesStay(user: string, sd: string, sys: string)
    requires Parse(sd).Some? && Parse(sys).Some? && Parse(Conjoined(Conjoined(user, sd), sys)).Some?
    ensures var e := Parse(Conjoined(Conjoined(user, sd), sys)).value;
            && e.And? && e.r == Parse(sys).value
            && (e.l.And? && e.l.r == Parse(sd).value <==> Parse(Conjoined(user, sd)).Some?)
  {
    hide Lex, ParseExpr, Parse;
    ConjunctStays(Conjoined(user, sd), sys);
    if Parse(Conjoined(user, sd)).Some? {
      ParseConjunction(Conjoined(user, sd), sys);
      ConjunctStays(user, sd);
    } else {
      Escapes(user, sd, sys);
      BuriedDiffers(Parse(Conjoined(Conjoined(user, sd), sys)).value.l.r, Parse(sd).value);
    }
  }

  /** A user text of that other kind: the clause then restricts its second half only. */
  lemma ClauseEscaped(x: string, y: string, sd: string, sys: string)
    requires Parse(x).Some? && Parse(y).Some? && Parse(sd).Some? && Parse(sys).Some?
    ensures Parse(Conjoined(Conjoined(x + ")) or ((" + y, sd), sys)) ==
            Some(And(Or(Parse(x).value, And(Parse(y).value, Parse(sd).value)), Parse(sys).value))
  {
    hide Lex, Parse;
    var left, right := "(" + x + ")", "(" + y + ") and (" + sd + ")";
    assert Conjoined(Conjoined(x + ")) or ((" + y, sd), sys) ==
           "(" + left + ")" + " or (" + right + ")" + " and " + ("(" + sys + ")");
    ParseParens(x);
    ParseParens(left);
    ParseConjunction(y, sd);
    ParseDisjunction("(" + left + ")", right);
    ParensTerm(sys);
    AndAppend("(" + left + ")" + " or (" + right + ")", "(" + sys + ")");
  }

  lemma ParensTerm(b: string)
    requires Parse(b).Some?
    ensures IsTerm("(" + b + ")") && TermOf("(" + b + ")") == Parse(b).value
  {
    hide Lex, ParseTerm, Parse;
    LexParenthesised(b);
    GroupReads(b, []);
    assert Group(b) + [] == Group(b);
  }
}
