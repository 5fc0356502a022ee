/** The target language: pcap-filter(7) expressions, from characters to the packets they accept.

    `not` binds tightest; `and` and `or` have equal precedence and associate to the left;
    parentheses group. A primitive is a run of words. The primitives this program prints
    (`host A`, `src host A`, `dst host A`, `port N`) have their manual-page meaning, every other
    primitive a user may write keeps an arbitrary but fixed meaning supplied by the `World`. */
module PcapFilter {
  import opened GoStrings

  // ----- lexical structure -----

  datatype Token = LParen | RParen | NotOp | AndOp | OrOp | Word(text: string)

  predicate IsSpace(c: char) { c == ' ' || c == '\t' || c == '\n' || c == '\r' }

  predicate IsDelimiter(c: char) { IsSpace(c) || c == '(' || c == ')' || c == '!' }

  function Keyword(w: string): Token
  {
    if w == "and" || w == "&&" then AndOp
    else if w == "or" || w == "||" then OrOp
    else if w == "not" then NotOp
    else Word(w)
  }

  /** The length of the word at the front of `s`. */
  function WordLength(s: string): (n: nat)
    ensures n <= |s|
    ensures forall i | 0 <= i < n :: !IsDelimiter(s[i])
    ensures n < |s| ==> IsDelimiter(s[n])
  {
    if s == "" || IsDelimiter(s[0]) then 0 else 1 + WordLength(s[1..])
  }

  function Lex(s: string): seq<Token>
    decreases |s|
  {
    if s == "" then []
    else if IsSpace(s[0]) then Lex(s[1..])
    else if s[0] == '(' then [LParen] + Lex(s[1..])
    else if s[0] == ')' then [RParen] + Lex(s[1..])
    else if s[0] == '!' then [NotOp] + Lex(s[1..])
    else
      var n := WordLength(s);
      [Keyword(s[..n])] + Lex(s[n..])
  }

  /** Texts lex separately wherever a delimiter keeps their words apart. */
  predicate Separated(a: string, b: string)
  {
    a == "" || b == "" || IsDelimiter(a[|a| - 1]) || IsDelimiter(b[0])
  }

  function DelimiterTokens(c: char): seq<Token>
    requires IsDelimiter(c)
  {
    if IsSpace(c) then [] else if c == '(' then [LParen] else if c == ')' then [RParen] else [NotOp]
  }

  lemma LexDelimiter(s: string)
    requires s != "" && IsDelimiter(s[0])
    ensures Lex(s) == DelimiterTokens(s[0]) + Lex(s[1..])
  {
  }

  lemma LexFirstWord(s: string)
    requires s != "" && !IsDelimiter(s[0])
    ensures Lex(s) == [Keyword(s[..WordLength(s)])] + Lex(s[WordLength(s)..])
  {
  }

  lemma {:induction false} LexConcat(a: string, b: string)
    requires Separated(a, b)
    ensures Lex(a + b) == Lex(a) + Lex(b)
    decreases |a|
  {
    hide Lex, Keyword, DelimiterTokens;
    if a == "" {
      assert a + b == b;
      assert Lex(a) == [] by { LexEmpty(); }
    } else if IsDelimiter(a[0]) {
      LexDelimiter(a);
      LexDelimiter(a + b);
      LexConcat(a[1..], b);
      assert (a + b)[1..] == a[1..] + b;
    } else {
      LexFirstWord(a);
      LexFirstWord(a + b);
      var n := WordLength(a);
      assert n >= 1;
      WordLengthConcat(a, b);
      LexConcat(a[n..], b);
      assert (a + b)[..n] == a[..n];
      assert (a + b)[n..] == a[n..] + b;
    }
  }

  lemma LexEmpty() ensures Lex("") == [] {}

  lemma {:induction false} WordLengthConcat(a: string, b: string)
    requires a != "" && !IsDelimiter(a[0]) && Separated(a, b)
    ensures WordLength(a + b) == WordLength(a)
  {
    assert (a + b)[1..] == a[1..] + b;
    if |a| > 1 && !IsDelimiter(a[1]) {
      WordLengthConcat(a[1..], b);
    } else if |a| > 1 {
      assert (a + b)[1] == a[1];
    } else {
      assert (a + b)[1..] == b;
    }
  }

  /** A text without delimiters is one word. */
  lemma {:induction false} LexWord(w: string)
    requires w != "" && forall c | c in w :: !IsDelimiter(c)
    ensures Lex(w) == [Keyword(w)]
  {
    assert WordLength(w) == |w|;
    assert w[..|w|] == w && w[|w|..] == "";
  }

  // ----- grammar -----

  datatype Expr =
    | Prim(words: seq<string>)
    | Not(e: Expr)
    | And(l: Expr, r: Expr)
    | Or(l: Expr, r: Expr)

  datatype Parsed = Fail | Done(e: Expr, rest: seq<Token>)

  predicate IsQualifier(w: string)
  {
    w == "host" || w == "port" || w == "src" || w == "dst"
  }

  /** What may follow a qualifier: an address, a number or a name. */
  predicate IsIdentifier(w: string)
  {
    w != "" && !IsQualifier(w) &&
    (IsDigit(w[0]) || 'a' <= w[0] <= 'z' || 'A' <= w[0] <= 'Z' || w[0] == ':')
  }

  /** A primitive ends in an identifier; a dangling qualifier is a syntax error. */
  predicate WellFormedPrimitive(words: seq<string>)
  {
    words != [] && IsIdentifier(words[|words| - 1])
  }

  function LeadingWords(ts: seq<Token>): (ws: seq<string>)
    ensures |ws| <= |ts|
    ensures |ws| < |ts| ==> !ts[|ws|].Word?
    ensures forall i | 0 <= i < |ws| :: ts[i] == Word(ws[i])
  {
    if ts == [] || !ts[0].Word? then [] else [ts[0].text] + LeadingWords(ts[1..])
  }

  function ParseTerm(ts: seq<Token>): (p: Parsed)
    ensures p.Done? ==> |p.rest| < |ts|
    decreases |ts|, 0
  {
    if ts == [] then Fail
    else if ts[0].NotOp? then
      var p := ParseTerm(ts[1..]);
      if p.Done? then Done(Not(p.e), p.rest) else Fail
    else if ts[0].LParen? then
      var p := ParseExpr(ts[1..]);
      if p.Done? && p.rest != [] && p.rest[0].RParen? then Done(p.e, p.rest[1..]) else Fail
    else
      var ws := LeadingWords(ts);
      if WellFormedPrimitive(ws) then Done(Prim(ws), ts[|ws|..]) else Fail
  }

  function ParseExpr(ts: seq<Token>): (p: Parsed)
    ensures p.Done? ==> |p.rest| < |ts|
    decreases |ts|, 1
  {
    var t := ParseTerm(ts);
    if t.Done? then ParseTail(t.e, t.rest) else Fail
  }

  /** The `and`/`or` operators after a first operand, folded to the left. */
  function ParseTail(acc: Expr, ts: seq<Token>): (p: Parsed)
    ensures p.Done? ==> |p.rest| <= |ts|
    decreases |ts|, 0
  {
    if ts == [] || !(ts[0].AndOp? || ts[0].OrOp?) then Done(acc, ts)
    else
      var t := ParseTerm(ts[1..]);
      if t.Fail? then Fail
      else ParseTail(if ts[0].AndOp? then And(acc, t.e) else Or(acc, t.e), t.rest)
  }

  /** The expression a whole text denotes, if it is one. */
  function Parse(text: string): Option<Expr>
  {
    var p := ParseExpr(Lex(text));
    if p.Done? && p.rest == [] then Some(p.e) else None
  }

  // ----- reading on past a parsed prefix -----

  lemma {:induction false} LeadingWordsConcat(ts: seq<Token>, u: seq<Token>)
    requires (u != [] && !u[0].Word?) || |LeadingWords(ts)| < |ts|
    ensures LeadingWords(ts + u) == LeadingWords(ts)
  {
    if ts != [] {
      assert (ts + u)[0] == ts[0];
      if ts[0].Word? {
        assert (ts + u)[1..] == ts[1..] + u;
        LeadingWordsConcat(ts[1..], u);
      }
    } else {
      assert ts + u == u;
    }
  }

  /** A term is read the same way whatever follows it, unless that extends its last word run. */
  lemma {:induction false} ParseTermConcat(ts: seq<Token>, u: seq<Token>)
    requires ParseTerm(ts).Done?
    requires ParseTerm(ts).rest != [] || u == [] || !u[0].Word?
    ensures ParseTerm(ts + u) == Done(ParseTerm(ts).e, ParseTerm(ts).rest + u)
    decreases |ts|, 0
  {
    if u == [] {
      assert ts + u == ts && ParseTerm(ts).rest + u == ParseTerm(ts).rest;
    } else {
      assert (ts + u)[0] == ts[0] && (ts + u)[1..] == ts[1..] + u;
      if ts[0].NotOp? {
        ParseTermConcat(ts[1..], u);
      } else if ts[0].LParen? {
        ParseExprConcat(ts[1..], u);
        var inner := ParseExpr(ts[1..]);
        assert (inner.rest + u)[1..] == inner.rest[1..] + u;
      } else {
        var n := |LeadingWords(ts)|;
        LeadingWordsConcat(ts, u);
        assert (ts + u)[n..] == ts[n..] + u;
      }
    }
  }

  /** An expression stops where neither a word nor an operator continues it. */
  lemma {:induction false} ParseExprConcat(ts: seq<Token>, u: seq<Token>)
    requires ParseExpr(ts).Done?
    requires ParseExpr(ts).rest != [] || u == [] || u[0].RParen?
    ensures ParseExpr(ts + u) == Done(ParseExpr(ts).e, ParseExpr(ts).rest + u)
    decreases |ts|, 1
  {
    var t := ParseTerm(ts);
    ParseTermConcat(ts, u);
    ParseTailConcat(t.e, t.rest, u);
  }

  lemma {:induction false} ParseTailConcat(acc: Expr, ts: seq<Token>, u: seq<Token>)
    requires ParseTail(acc, ts).Done?
    requires ParseTail(acc, ts).rest != [] || u == [] || u[0].RParen?
    ensures ParseTail(acc, ts + u) == Done(ParseTail(acc, ts).e, ParseTail(acc, ts).rest + u)
    decreases |ts|, 0
  {
    if ts == [] {
      assert ts + u == u;
    } else {
      assert (ts + u)[0] == ts[0] && (ts + u)[1..] == ts[1..] + u;
      if ts[0].AndOp? || ts[0].OrOp? {
        var t := ParseTerm(ts[1..]);
        ParseTermConcat(ts[1..], u);
        ParseTailConcat(if ts[0].AndOp? then And(acc, t.e) else Or(acc, t.e), t.rest, u);
      }
    }
  }

  /** An operator after a complete expression takes that whole expression as its left operand. */
  lemma {:induction false} ParseTailContinues(acc: Expr, ts: seq<Token>, u: seq<Token>)
    requires ParseTail(acc, ts).Done? && ParseTail(acc, ts).rest == []
    requires u != [] && (u[0].AndOp? || u[0].OrOp?)
    ensures ParseTail(acc, ts + u) == ParseTail(ParseTail(acc, ts).e, u)
    decreases |ts|
  {
    if ts == [] {
      assert ts + u == u;
    } else {
      assert (ts + u)[0] == ts[0] && (ts + u)[1..] == ts[1..] + u;
      var t := ParseTerm(ts[1..]);
      ParseTermConcat(ts[1..], u);
      ParseTailContinues(if ts[0].AndOp? then And(acc, t.e) else Or(acc, t.e), t.rest, u);
    }
  }

  lemma {:induction false} ParseExprContinues(ts: seq<Token>, u: seq<Token>)
    requires ParseExpr(ts).Done? && ParseExpr(ts).rest == []
    requires u != [] && (u[0].AndOp? || u[0].OrOp?)
    ensures ParseExpr(ts + u) == ParseTail(ParseExpr(ts).e, u)
  {
    var t := ParseTerm(ts);
    ParseTermConcat(ts, u);
    ParseTailContinues(t.e, t.rest, u);
  }

  /** Parentheses around a complete expression make it one term. */
  lemma {:induction false} ParseParenthesised(ts: seq<Token>, u: seq<Token>)
    requires ParseExpr(ts).Done? && ParseExpr(ts).rest == []
    ensures ParseTerm([LParen] + ts + [RParen] + u) == Done(ParseExpr(ts).e, u)
  {
    var all := [LParen] + ts + [RParen] + u;
    assert all[1..] == ts + ([RParen] + u);
    ParseExprConcat(ts, [RParen] + u);
    assert [] + ([RParen] + u) == [RParen] + u;
  }

  // ----- texts -----

  lemma LexBrackets() ensures Lex("(") == [LParen] && Lex(")") == [RParen] {}

  lemma {:induction false} LexParenthesised(a: string)
    ensures Lex("(" + a + ")") == [LParen] + Lex(a) + [RParen]
  {
    hide Lex;
    LexBrackets();
    LexConcat("(", a + ")");
    LexConcat(a, ")");
    assert "(" + a + ")" == "(" + (a + ")");
  }

  /** `(a)` denotes what `a` denotes. */
  lemma {:induction false} ParseParens(a: string)
    requires Parse(a).Some?
    ensures Parse("(" + a + ")") == Parse(a)
  {
    LexParenthesised(a);
    ParseParenthesised(Lex(a), []);
    var ts := [LParen] + Lex(a) + [RParen];
    assert ts + [] == ts;
    var e := ParseExpr(Lex(a)).e;
    assert ParseTerm(ts) == Done(e, []);
    assert ParseTail(e, []) == Done(e, []);
  }

  /** A word between blanks. */
  lemma {:induction false} LexSpaced(w: string)
    requires w != "" && forall c | c in w :: !IsDelimiter(c)
    ensures Lex(w + " ") == [Keyword(w)]
    ensures Lex(" " + w + " ") == [Keyword(w)]
  {
    hide Keyword;
    LexWord(w);
    LexConcat(w, " ");
    assert Lex(" ") == [];
    assert (" " + w + " ")[1..] == w + " ";
  }

  lemma LexAnd() ensures Lex(" and ") == [AndOp]
  {
    LexSpaced("and");
    assert " and " == " " + "and" + " ";
  }

  lemma LexOr() ensures Lex(" or ") == [OrOp]
  {
    LexSpaced("or");
    assert " or " == " " + "or" + " ";
  }

  lemma LexNot() ensures Lex("not ") == [NotOp]
  {
    LexSpaced("not");
    assert "not " == "not" + " ";
  }

  /** However `a` and `b` mix operators, `(a) and (b)` is exactly their conjunction. */
  lemma {:induction false} ParseConjunction(a: string, b: string)
    requires Parse(a).Some? && Parse(b).Some?
    ensures Parse("(" + a + ") and (" + b + ")") == Some(And(Parse(a).value, Parse(b).value))
  {
    hide Lex, ParseTerm, ParseExpr;
    var pa, pb := "(" + a + ")", "(" + b + ")";
    var text := "(" + a + ") and (" + b + ")";
    assert text == pa + (" and " + pb);
    LexConcat(pa, " and " + pb);
    LexConcat(" and ", pb);
    LexAnd();
    LexParenthesised(a);
    LexParenthesised(b);
    ParseParens(a);
    ParseExprContinues(Lex(pa), [AndOp] + Lex(pb));
    ParseParenthesised(Lex(b), []);
    assert ([AndOp] + Lex(pb))[1..] == [LParen] + Lex(b) + [RParen] + [];
  }

  /** `a or (b)` has all of `a` on the left of `or`, even when `a` contains `and` or `not`. */
  lemma {:induction false} ParseDisjunction(a: string, b: string)
    requires Parse(a).Some? && Parse(b).Some?
    ensures Parse(a + " or (" + b + ")") == Some(Or(Parse(a).value, Parse(b).value))
  {
    hide Lex, ParseTerm, ParseExpr;
    var pb := "(" + b + ")";
    assert a + " or (" + b + ")" == a + (" or " + pb);
    LexConcat(a, " or " + pb);
    LexConcat(" or ", pb);
    LexOr();
    LexParenthesised(b);
    ParseExprContinues(Lex(a), [OrOp] + Lex(pb));
    ParseParenthesised(Lex(b), []);
    assert ([OrOp] + Lex(pb))[1..] == [LParen] + Lex(b) + [RParen] + [];
  }

  predicate IsTerm(t: string) { ParseTerm(Lex(t)).Done? && ParseTerm(Lex(t)).rest == [] }

  function TermOf(t: string): Expr
    requires IsTerm(t)
  {
    ParseTerm(Lex(t)).e
  }

  /** One more alternative: the `or` joins it to everything before it. */
  lemma OrAppend(a: string, t: string)
    requires Parse(a).Some? && IsTerm(t)
    ensures Parse(a + " or " + t) == Some(Or(Parse(a).value, TermOf(t)))
  {
    assert a + " or " + t == a + (" or " + t);
    LexConcat(a, " or " + t);
    LexConcat(" or ", t);
    LexOr();
    ParseExprContinues(Lex(a), [OrOp] + Lex(t));
    assert ([OrOp] + Lex(t))[1..] == Lex(t);
  }

  lemma AndAppend(a: string, t: string)
    requires Parse(a).Some? && IsTerm(t)
    ensures Parse(a + " and " + t) == Some(And(Parse(a).value, TermOf(t)))
  {
    assert a + " and " + t == a + (" and " + t);
    LexConcat(a, " and " + t);
    LexConcat(" and ", t);
    LexAnd();
    ParseExprContinues(Lex(a), [AndOp] + Lex(t));
    assert ([AndOp] + Lex(t))[1..] == Lex(t);
  }

  /** The manual page's rule: `and` and `or` have equal precedence and associate left to right. */
  lemma EqualPrecedence(a: string, b: string, c: string)
    requires IsTerm(a) && IsTerm(b) && IsTerm(c)
    ensures Parse(a + " or " + b + " and " + c) == Some(And(Or(TermOf(a), TermOf(b)), TermOf(c)))
    ensures Parse(a + " and " + b + " or " + c) == Some(Or(And(TermOf(a), TermOf(b)), TermOf(c)))
  {
    hide Lex, ParseTerm;
    assert Parse(a) == Some(TermOf(a)) by { assert ParseTail(TermOf(a), []) == Done(TermOf(a), []); }
    OrAppend(a, b);
    AndAppend(a + " or " + b, c);
    AndAppend(a, b);
    OrAppend(a + " and " + b, c);
  }

  /** A text that cannot be read even as the beginning of an expression. */
  ghost predicate Unreadable(text: string)
  {
    forall u :: ParseExpr(Lex(text) + u) == Fail
  }

  ghost predicate UnreadableTerm(text: string)
  {
    forall u :: ParseTerm(Lex(text) + u) == Fail
  }

  ghost predicate ReadsTerm(text: string, e: Expr)
  {
    forall u :: ParseTerm(Lex(text) + u) == Done(e, u)
  }

  lemma UnreadableTermFails(text: string)
    requires UnreadableTerm(text)
    ensures Unreadable(text)
  {
    forall u ensures ParseExpr(Lex(text) + u) == Fail {
      assert ParseTerm(Lex(text) + u) == Fail;
    }
  }

  lemma UnreadableNegation(g: string)
    requires UnreadableTerm(g)
    ensures UnreadableTerm("not " + g)
  {
    hide Lex, ParseExpr;
    LexNot();
    LexConcat("not ", g);
    forall u ensures ParseTerm(Lex("not " + g) + u) == Fail {
      var ts := Lex("not " + g) + u;
      assert ts[0] == NotOp && ts[1..] == Lex(g) + u;
    }
  }

  lemma LexAndJoin(i: string, n: string)
    requires Separated(i, " ")
    ensures Lex(i + (" and " + n)) == Lex(i) + ([AndOp] + Lex(n))
  {
    hide Lex;
    LexAnd();
    LexConcat(" and ", n);
    LexConcat(i, " and " + n);
  }

  lemma UnreadableOperand(i: string, e: Expr, n: string)
    requires ReadsTerm(i, e) && UnreadableTerm(n)
    ensures Unreadable(i + (" and " + n))
  {
    hide Lex, ParseTerm, ParseExpr;
    LexAndJoin(i, n);
    var ti, tn := Lex(i), Lex(n);
    forall u ensures ParseExpr(Lex(i + (" and " + n)) + u) == Fail {
      ConcatThree(ti, [AndOp], tn, u);
      assert ParseTerm(ti + ([AndOp] + (tn + u))) == Done(e, [AndOp] + (tn + u));
      OperandFails(ti, e, tn + u);
    }
  }

  lemma ConcatThree(a: seq<Token>, b: seq<Token>, c: seq<Token>, d: seq<Token>)
    ensures a + (b + c) + d == a + (b + (c + d))
  {
  }

  lemma OperandFails(ts: seq<Token>, e: Expr, u: seq<Token>)
    requires ParseTerm(ts + ([AndOp] + u)) == Done(e, [AndOp] + u) && ParseTerm(u) == Fail
    ensures ParseExpr(ts + ([AndOp] + u)) == Fail
  {
    assert ([AndOp] + u)[1..] == u;
    assert ParseTail(e, [AndOp] + u) == Fail;
  }

  lemma UnreadableFails(text: string)
    requires Unreadable(text)
    ensures Parse(text) == None
  {
    assert Lex(text) + [] == Lex(text);
  }

  /** Nothing joined to an unreadable text makes it readable. */
  lemma UnreadableStays(a: string, b: string)
    requires Unreadable(a) && Separated(a, b)
    ensures Unreadable(a + b)
  {
    LexConcat(a, b);
    forall u ensures ParseExpr(Lex(a + b) + u) == Fail {
      assert Lex(a + b) + u == Lex(a) + (Lex(b) + u);
    }
  }

  // ----- meaning -----

  /** The number an address stands for. */
  type Address = nat

  datatype Packet = Packet(src: Address, dst: Address, sport: Option<nat>, dport: Option<nat>)

  /** `resolve` reads an address (net.ParseIP); `other` interprets the primitives of user filters. */
  datatype World = World(resolve: string -> Option<Address>, other: (seq<string>, Packet) -> bool)

  ghost predicate IsAddressChar(c: char)
  {
    IsDigit(c) || 'a' <= c <= 'f' || 'A' <= c <= 'F' || c == '.' || c == ':'
  }

  /** All net.ParseIP is relied on for: what it accepts is spelt with hex digits, dots and colons,
      and starts with a digit, a hex letter or a colon. */
  ghost predicate ReadsAddresses(resolve: string -> Option<Address>)
  {
    forall s | resolve(s).Some? :: s != "" && s[0] != '.' && forall c | c in s :: IsAddressChar(c)
  }

  /** An address is one word, and may stand after a qualifier. */
  lemma AddressWord(resolve: string -> Option<Address>, ip: string)
    requires ReadsAddresses(resolve) && resolve(ip).Some?
    ensures Lex(ip) == [Word(ip)] && IsIdentifier(ip)
  {
    assert forall c | c in ip :: IsAddressChar(c);
    assert IsAddressChar(ip[0]);
    if |ip| > 1 { assert IsAddressChar(ip[1]); }
    if |ip| > 2 { assert IsAddressChar(ip[2]); }
    LexWord(ip);
  }

  predicate SrcIs(w: World, x: string, p: Packet) { w.resolve(x) == Some(p.src) }
  predicate DstIs(w: World, x: string, p: Packet) { w.resolve(x) == Some(p.dst) }
  predicate HostIs(w: World, x: string, p: Packet) { SrcIs(w, x, p) || DstIs(w, x, p) }

  predicate PortIs(n: nat, p: Packet) { p.sport == Some(n) || p.dport == Some(n) }

  predicate HoldsPrimitive(w: World, words: seq<string>, p: Packet)
  {
    if |words| == 2 && words[0] == "host" && w.resolve(words[1]).Some? then HostIs(w, words[1], p)
    else if |words| == 3 && words[0] == "src" && words[1] == "host" && w.resolve(words[2]).Some? then
      SrcIs(w, words[2], p)
    else if |words| == 3 && words[0] == "dst" && words[1] == "host" && w.resolve(words[2]).Some? then
      DstIs(w, words[2], p)
    else if |words| == 2 && words[0] == "port" && IsDigits(words[1]) then PortIs(Decimal(words[1]), p)
    else w.other(words, p)
  }

  predicate Holds(w: World, e: Expr, p: Packet)
  {
    match e
    case Prim(words) => HoldsPrimitive(w, words, p)
    case Not(e1) => !Holds(w, e1, p)
    case And(l, r) => Holds(w, l, p) && Holds(w, r, p)
    case Or(l, r) => Holds(w, l, p) || Holds(w, r, p)
  }

  /** A filter that is absent ("") accepts every packet. */
  predicate Usable(text: string) { text == "" || Parse(text).Some? }

  predicate Accepts(w: World, text: string, p: Packet)
    requires Usable(text)
  {
    text == "" || Holds(w, Parse(text).value, p)
  }
}
