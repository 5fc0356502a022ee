/** The slog handler that resolves the zap core at call time (pkg/log/zap.go): derivations are recorded
    and replayed on the real handler once it exists. */
module LazyLog {
  import opened GoStrings

  type Attr = (string, string)

  /** A recorded derivation; `attrs` is never empty and `group` never "" in a handler's list. */
  datatype LazyOp = AttrsOp(attrs: seq<Attr>) | GroupOp(group: string)

  /** A derivation call as a user of the handler makes it. */
  datatype Call = WithAttrsCall(attrs: seq<Attr>) | WithGroupCall(name: string)

  /** The real handlers: how they derive. */
  datatype Handlers<!H> = Handlers(withAttrs: (H, seq<Attr>) -> H, withGroup: (H, string) -> H)

  /** The contract of slog.Handler: an empty derivation is the receiver itself. */
  ghost predicate HonoursEmpty<H(!new)>(zap: Handlers<H>)
  {
    (forall h :: zap.withAttrs(h, []) == h) && (forall h :: zap.withGroup(h, "") == h)
  }

  // ----- Go slices -----

  /** A slice that starts at its array's first element; the array's length is its capacity. */
  datatype Slice = Slice(buf: array<LazyOp>, len: nat)

  ghost predicate ValidSlice(s: Slice) { s.len <= s.buf.Length }

  ghost function Contents(s: Slice): seq<LazyOp>
    requires ValidSlice(s)
    reads s.buf
  {
    s.buf[..s.len]
  }

  /** append: in place when there is capacity left, which every slice of the same array can see. */
  method Append(s: Slice, op: LazyOp) returns (r: Slice)
    requires ValidSlice(s)
    modifies if s.len < s.buf.Length then {s.buf} else {}
    ensures ValidSlice(r) && Contents(r) == old(Contents(s)) + [op]
    ensures s.len < s.buf.Length ==> r.buf == s.buf && s.buf[..] == old(s.buf[..])[s.len := op]
    ensures s.len == s.buf.Length ==> fresh(r.buf)
  {
    if s.len < s.buf.Length {
      s.buf[s.len] := op;
      return Slice(s.buf, s.len + 1);
    }
    var grown := new LazyOp[2 * s.len + 1];
    Copy(grown, s);
    grown[s.len] := op;
    return Slice(grown, s.len + 1);
  }

  /** copy into an array with room for the whole slice. */
  method Copy(to: array<LazyOp>, s: Slice)
    requires ValidSlice(s) && s.len <= to.Length && to != s.buf
    modifies to
    ensures to[..s.len] == Contents(s)
  {
    for i := 0 to s.len
      invariant to[..i] == s.buf[..i]
    {
      to[i] := s.buf[i];
    }
  }

  /** Why a derivation must copy: appending twice to one slice with spare capacity gives both results
      the second operation. */
  method SharedAppendOverwrites(s: Slice, first: LazyOp, second: LazyOp) returns (l: Slice, r: Slice)
    requires ValidSlice(s) && s.len < s.buf.Length
    modifies s.buf
    ensures ValidSlice(l) && ValidSlice(r)
    ensures Contents(l) == Contents(r) == old(Contents(s)) + [second]
  {
    l := Append(s, first);
    r := Append(s, second);
  }

  // ----- the handler -----

  class LazyZapHandler {
    const ops: Slice

    ghost predicate Valid() { ValidSlice(ops) }

    ghost function Ops(): seq<LazyOp>
      requires Valid()
      reads ops.buf
    {
      Contents(ops)
    }

    /** SlogHandler. */
    constructor ()
      ensures Valid() && Ops() == [] && fresh(ops.buf)
    {
      var buf := new LazyOp[0];
      ops := Slice(buf, 0);
    }

    constructor Of(ops: Slice)
      ensures this.ops == ops
    {
      this.ops := ops;
    }

    /** The part common to WithAttrs and WithGroup: a copy of the slice with one more operation. */
    method Extended(op: LazyOp) returns (h: LazyZapHandler)
      requires Valid()
      ensures h.Valid() && fresh(h) && fresh(h.ops.buf)
      ensures h.Ops() == Ops() + [op]
    {
      var buf := new LazyOp[ops.len + 1];
      Copy(buf, ops);
      var extended := Append(Slice(buf, ops.len), op);
      h := new LazyZapHandler.Of(extended);
    }

    /** Returns the handler itself, or a new one with an array of its own; nothing existing changes. */
    method WithAttrs(attrs: seq<Attr>) returns (h: LazyZapHandler)
      requires Valid()
      ensures h.Valid() && h.Ops() == Recorded(Ops(), WithAttrsCall(attrs))
      ensures if attrs == [] then h == this else fresh(h) && fresh(h.ops.buf)
    {
      if |attrs| == 0 {
        return this;
      }
      h := Extended(AttrsOp(attrs));
    }

    method WithGroup(name: string) returns (h: LazyZapHandler)
      requires Valid()
      ensures h.Valid() && h.Ops() == Recorded(Ops(), WithGroupCall(name))
      ensures if name == "" then h == this else fresh(h) && fresh(h.ops.buf)
    {
      if name == "" {
        return this;
      }
      h := Extended(GroupOp(name));
    }

    method Derive(call: Call) returns (h: LazyZapHandler)
      requires Valid()
      ensures h.Valid() && h.Ops() == Recorded(Ops(), call)
      ensures h == this || (fresh(h) && fresh(h.ops.buf))
    {
      match call
      case WithAttrsCall(attrs) => h := WithAttrs(attrs);
      case WithGroupCall(name) => h := WithGroup(name);
    }

    /** inner: the real handler, rebuilt from the recorded operations, once the global one is set. */
    method Inner<H>(zap: Handlers<H>, global: Option<H>) returns (h: Option<H>)
      requires Valid()
      ensures h == if global.None? then None else Some(Replay(zap, global.value, Ops()))
    {
      if global.None? {
        return None;
      }
      var sh := global.value;
      for i := 0 to ops.len
        invariant sh == Replay(zap, global.value, Ops()[..i])
      {
        assert Ops()[..i + 1][..i] == Ops()[..i];
        var op := ops.buf[i];
        if op.AttrsOp? {
          sh := zap.withAttrs(sh, op.attrs);
        } else {
          sh := zap.withGroup(sh, op.group);
        }
      }
      assert Ops()[..ops.len] == Ops();
      return Some(sh);
    }
  }

  // ----- recording and replaying -----

  function Recorded(ops: seq<LazyOp>, call: Call): seq<LazyOp>
  {
    match call
    case WithAttrsCall(attrs) => if attrs == [] then ops else ops + [AttrsOp(attrs)]
    case WithGroupCall(name) => if name == "" then ops else ops + [GroupOp(name)]
  }

  function RecordedAll(ops: seq<LazyOp>, calls: seq<Call>): seq<LazyOp>
  {
    if calls == [] then ops else Recorded(RecordedAll(ops, calls[..|calls| - 1]), calls[|calls| - 1])
  }

  function Replay<H>(zap: Handlers<H>, base: H, ops: seq<LazyOp>): H
  {
    if ops == [] then base
    else
      var h := Replay(zap, base, ops[..|ops| - 1]);
      match ops[|ops| - 1]
      case AttrsOp(attrs) => zap.withAttrs(h, attrs)
      case GroupOp(group) => zap.withGroup(h, group)
  }

  /** The handler the same calls would have built on the real one. */
  function Eager<H>(zap: Handlers<H>, base: H, calls: seq<Call>): H
  {
    if calls == [] then base
    else
      var h := Eager(zap, base, calls[..|calls| - 1]);
      match calls[|calls| - 1]
      case WithAttrsCall(attrs) => zap.withAttrs(h, attrs)
      case WithGroupCall(name) => zap.withGroup(h, name)
  }

  /** Replaying what a chain of calls recorded is making the calls on the replayed handler: the order
      and nesting of attributes and groups are kept. */
  lemma {:induction false} ReplayIsEager<H(!new)>(zap: Handlers<H>, base: H, ops: seq<LazyOp>, calls: seq<Call>)
    requires HonoursEmpty(zap)
    ensures Replay(zap, base, RecordedAll(ops, calls)) == Eager(zap, Replay(zap, base, ops), calls)
  {
    if calls != [] {
      var n := |calls| - 1;
      var before := RecordedAll(ops, calls[..n]);
      ReplayIsEager(zap, base, ops, calls[..n]);
      match calls[n]
      case WithAttrsCall(attrs) =>
        if attrs != [] { assert (before + [AttrsOp(attrs)])[..|before|] == before; }
      case WithGroupCall(name) =>
        if name != "" { assert (before + [GroupOp(name)])[..|before|] == before; }
    }
  }

  // ----- families of handlers -----

  /** One derivation from a handler that already exists, given by its number. */
  datatype Step = Step(parent: nat, call: Call)

  ghost predicate InOrder(steps: seq<Step>) { forall k | 0 <= k < |steps| :: steps[k].parent <= k }

  /** The calls that lead from handler 0 to handler `k`. */
  ghost function Path(steps: seq<Step>, k: nat): seq<Call>
    requires InOrder(steps) && k <= |steps|
  {
    if k == 0 then [] else Path(steps, steps[k - 1].parent) + [steps[k - 1].call]
  }

  lemma RecordedPath(ops: seq<LazyOp>, steps: seq<Step>, k: nat)
    requires InOrder(steps) && k < |steps|
    ensures RecordedAll(ops, Path(steps, k + 1)) ==
            Recorded(RecordedAll(ops, Path(steps, steps[k].parent)), steps[k].call)
  {
    var path := Path(steps, steps[k].parent);
    assert (path + [steps[k].call])[..|path|] == path;
  }

  ghost predicate Records(h: LazyZapHandler, ops: seq<LazyOp>)
    reads h.ops.buf
  {
    h.Valid() && h.Ops() == ops
  }

  /** Each handler records the calls that led to it from handler 0, which recorded `start`. */
  ghost predicate Family(hs: seq<LazyZapHandler>, start: seq<LazyOp>, steps: seq<Step>)
    requires InOrder(steps) && |hs| <= |steps| + 1
    reads set h | h in hs :: h.ops.buf
  {
    forall k | 0 <= k < |hs| :: Records(hs[k], RecordedAll(start, Path(steps, k)))
  }

  /** No two handlers share an array. */
  ghost predicate Apart(hs: seq<LazyZapHandler>)
  {
    forall j, k | 0 <= j < k < |hs| :: hs[j] == hs[k] || hs[j].ops.buf != hs[k].ops.buf
  }

  lemma ApartMore(hs: seq<LazyZapHandler>, h: LazyZapHandler)
    requires Apart(hs)
    requires h in hs || forall j | 0 <= j < |hs| :: hs[j].ops.buf != h.ops.buf
    ensures Apart(hs + [h])
  {
    var more := hs + [h];
    forall j, k | 0 <= j < k < |more| ensures more[j] == more[k] || more[j].ops.buf != more[k].ops.buf {
      if k == |hs| && h in hs {
        var p :| 0 <= p < |hs| && hs[p] == h;
        if p < j { assert hs[p] == hs[j] || hs[p].ops.buf != hs[j].ops.buf; }
      }
    }
  }

  /** The next derivation changes no handler of the family. */
  method DeriveNext(hs: seq<LazyZapHandler>, ghost start: seq<LazyOp>, steps: seq<Step>) returns (h: LazyZapHandler)
    requires InOrder(steps) && 0 < |hs| <= |steps| && Family(hs, start, steps)
    ensures Family(hs + [h], start, steps)
    ensures h in hs || (fresh(h) && fresh(h.ops.buf))
  {
    hide RecordedAll, Recorded, Path, Contents;
    var n := |hs| - 1;
    RecordedPath(start, steps, n);
    var parent := hs[steps[n].parent];
    assert Records(parent, RecordedAll(start, Path(steps, steps[n].parent)));
    h := parent.Derive(steps[n].call);
    assert Records(h, RecordedAll(start, Path(steps, n + 1)));
  }

  /** However handlers are derived from each other, in whatever order, at the end each records exactly
      the calls that led to it, and no two of them share an array. */
  method DeriveFamily(root: LazyZapHandler, steps: seq<Step>) returns (hs: seq<LazyZapHandler>)
    requires root.Valid() && InOrder(steps)
    ensures |hs| == |steps| + 1 && hs[0] == root
    ensures Family(hs, old(root.Ops()), steps) && Apart(hs)
  {
    ghost var start := root.Ops();
    assert RecordedAll(start, Path(steps, 0)) == start;
    hs := [root];
    assert Family(hs, start, steps);
    hide Family, Apart;
    for i := 0 to |steps|
      invariant |hs| == i + 1 && hs[0] == root
      invariant Family(hs, start, steps) && Apart(hs)
    {
      var h := DeriveNext(hs, start, steps);
      ApartMore(hs, h);
      hs := hs + [h];
    }
  }

  /** Whenever they are asked, all handlers of a family behave as if their calls had been made on the
      real handler directly. */
  method Siblings<H(!new)>(root: LazyZapHandler, steps: seq<Step>, zap: Handlers<H>, core: H)
    returns (hs: seq<LazyZapHandler>, inner: seq<Option<H>>)
    requires root.Valid() && InOrder(steps) && HonoursEmpty(zap)
    ensures |inner| == |hs| == |steps| + 1 && hs[0] == root
    ensures forall k | 0 <= k < |inner| ::
              inner[k] == Some(Eager(zap, Replay(zap, core, root.Ops()), Path(steps, k)))
  {
    hide HonoursEmpty, RecordedAll, Path, Replay, Eager, Contents;
    ghost var start := root.Ops();
    hs := DeriveFamily(root, steps);
    inner := [];
    for i := 0 to |hs|
      invariant |inner| == i && Family(hs, start, steps)
      invariant forall k | 0 <= k < i :: inner[k] == Some(Eager(zap, Replay(zap, core, start), Path(steps, k)))
    {
      assert Records(hs[i], RecordedAll(start, Path(steps, i)));
      var h := hs[i].Inner(zap, Some(core));
      ReplayIsEager(zap, core, start, Path(steps, i));
      inner := inner + [h];
    }
  }
}
