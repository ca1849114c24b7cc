/**
 Which chunk-level names stand for methods: `local g = a.b.m`, then `h = g`, and so on, resolved by one
 last-wins pass and a loop that runs to a fixed point.
 */
module Aliases {
  import opened Wrappers

  type FuncId = nat

  datatype Expr = Ident(name: string) | Str(text: string) | Index(target: Expr, key: Expr) | OtherExpr

  datatype Stmt =
    | Local(name: string, value: Expr)
    | Assign(name: string, value: Expr)
    | LocalMulti(names: seq<string>, values: seq<Expr>)
    | AssignMulti(names: seq<string>, values: seq<Expr>)
    | OtherStmt

  /** A method is found by the path of its table and its own name. */
  type Methods = map<(seq<string>, string), FuncId>

  // ----- Paths -----

  /** The path `a.b.c` an assignment target spells, if it spells one. */
  function ChainFromTarget(target: Expr): Option<seq<string>> {
    match target
    case Ident(name) => Some([name])
    case Index(inner, Str(segment)) =>
      (match ChainFromTarget(inner)
       case Some(prefix) => Some(prefix + [segment])
       case None => None)
    case _ => None
  }

  function IndexChain(callee: Expr): Option<(seq<string>, string)> {
    match callee
    case Index(target, Str(m)) =>
      (match ChainFromTarget(target)
       case Some(chain) => Some((chain, m))
       case None => None)
    case _ => None
  }

  /** The expression that spells a path. */
  function Path(chain: seq<string>): Expr
    requires chain != []
  {
    if |chain| == 1 then Ident(chain[0]) else Index(Path(chain[..|chain| - 1]), Str(chain[|chain| - 1]))
  }

  /** An expression has a path exactly if it is the spelling of that path. */
  lemma {:induction false} ChainIsPath(e: Expr, chain: seq<string>)
    ensures ChainFromTarget(e) == Some(chain) <==> chain != [] && e == Path(chain)
    decreases e, |chain|
  {
    if e.Ident? && |chain| == 1 {
      assert chain == [chain[0]];
    }
    if chain != [] && e.Index? && e.key.Str? {
      var inner := ChainFromTarget(e.target);
      var front := chain[..|chain| - 1];
      ChainIsPath(e.target, front);
      if inner.Some? && inner.value + [e.key.text] == chain {
        assert inner.value == front;
      }
      if e == Path(chain) {
        assert front + [e.key.text] == chain;
      }
    }
  }

  /** The path is collected from its last segment backwards. */
  method ExtractIndexChain(callee: Expr) returns (r: Option<(seq<string>, string)>)
    ensures r == IndexChain(callee)
  {
    if !callee.Index? || !callee.key.Str? {
      return None;
    }
    var cur, chain: seq<string> := callee.target, [];
    assert forall prefix: seq<string> :: prefix + chain == prefix;
    while true
      invariant match ChainFromTarget(cur)
                case Some(prefix) => ChainFromTarget(callee.target) == Some(prefix + chain)
                case None => ChainFromTarget(callee.target) == None
      decreases cur
    {
      match cur {
        case Ident(head) => return Some(([head] + chain, callee.key.text));
        case Index(target, Str(segment)) =>
          assert forall prefix: seq<string> :: prefix + [segment] + chain == prefix + ([segment] + chain);
          chain := [segment] + chain;
          cur := target;
        case _ => return None;
      }
    }
  }

  // ----- Bindings -----

  datatype Binding = Binding(name: string, value: Expr)

  /** The bindings a chunk-level statement makes; uneven lists make none here. */
  function Bindings(s: Stmt): seq<Binding> {
    match s
    case Local(name, value) => [Binding(name, value)]
    case Assign(name, value) => [Binding(name, value)]
    case LocalMulti(names, values) => if |names| == |values| then Pairs(names, values) else []
    case AssignMulti(names, values) => if |names| == |values| then Pairs(names, values) else []
    case OtherStmt => []
  }

  function Pairs(names: seq<string>, values: seq<Expr>): seq<Binding>
    requires |names| == |values|
  {
    seq(|names|, k requires 0 <= k < |names| => Binding(names[k], values[k]))
  }

  function AllBindings(chunk: seq<Stmt>): seq<Binding> {
    if chunk == [] then [] else Bindings(chunk[0]) + AllBindings(chunk[1..])
  }

  /** `value` is itself the path of a method. */
  function MethodOf(value: Expr, methods: Methods): Option<FuncId> {
    match IndexChain(value)
    case Some(path) => if path in methods then Some(methods[path]) else None
    case None => None
  }

  /** What `value` stands for, given the names known so far. */
  function Lookup(value: Expr, known: map<string, FuncId>, methods: Methods): Option<FuncId> {
    if MethodOf(value, methods).Some? then MethodOf(value, methods)
    else if value.Ident? && value.name in known then Some(known[value.name])
    else None
  }

  // ----- What a name may stand for -----

  /** `name` stands for `fid` through `n` rebinds, the last of a name bound to a method's path. */
  ghost predicate Derives(bs: seq<Binding>, methods: Methods, name: string, fid: FuncId, n: nat)
    decreases n
  {
    if n == 0 then
      exists b | b in bs :: b.name == name && MethodOf(b.value, methods) == Some(fid)
    else
      exists b | b in bs :: b.name == name && b.value.Ident? && Derives(bs, methods, b.value.name, fid, n - 1)
  }

  ghost predicate Reaches(bs: seq<Binding>, methods: Methods, name: string, fid: FuncId) {
    exists n: nat :: Derives(bs, methods, name, fid, n)
  }

  ghost predicate Derivable(bs: seq<Binding>, methods: Methods, name: string) {
    exists fid: FuncId :: Reaches(bs, methods, name, fid)
  }

  /** Every entry is the end of a finite chain of rebinds. */
  ghost predicate Justified(bs: seq<Binding>, methods: Methods, known: map<string, FuncId>) {
    forall name | name in known :: Reaches(bs, methods, name, known[name])
  }

  /** No binding adds a name. */
  predicate Saturated(bs: seq<Binding>, methods: Methods, known: map<string, FuncId>) {
    forall b | b in bs :: b.name in known || Lookup(b.value, known, methods).None?
  }

  lemma RecordJustified(bs: seq<Binding>, methods: Methods, known: map<string, FuncId>, b: Binding)
    requires Justified(bs, methods, known) && b in bs && Lookup(b.value, known, methods).Some?
    ensures Justified(bs, methods, known[b.name := Lookup(b.value, known, methods).value])
  {
    var fid := Lookup(b.value, known, methods).value;
    if MethodOf(b.value, methods).Some? {
      assert Derives(bs, methods, b.name, fid, 0);
    } else {
      var n: nat :| Derives(bs, methods, b.value.name, fid, n);
      assert Derives(bs, methods, b.name, fid, n + 1);
    }
    assert Reaches(bs, methods, b.name, fid);
  }

  lemma {:induction false} SaturatedHas(bs: seq<Binding>, methods: Methods, known: map<string, FuncId>, name: string, fid: FuncId, n: nat)
    requires Saturated(bs, methods, known) && Derives(bs, methods, name, fid, n)
    ensures name in known
    decreases n
  {
    if n == 0 {
      var b :| b in bs && b.name == name && MethodOf(b.value, methods) == Some(fid);
    } else {
      var b :| b in bs && b.name == name && b.value.Ident? && Derives(bs, methods, b.value.name, fid, n - 1);
      SaturatedHas(bs, methods, known, b.value.name, fid, n - 1);
    }
  }

  /** A saturated table of justified entries holds exactly the derivable names. */
  lemma FixedPointIsDerivable(bs: seq<Binding>, methods: Methods, known: map<string, FuncId>)
    requires Saturated(bs, methods, known) && Justified(bs, methods, known)
    ensures forall name :: name in known <==> Derivable(bs, methods, name)
  {
    forall name
      ensures name in known <==> Derivable(bs, methods, name)
    {
      if name in known {
        assert Reaches(bs, methods, name, known[name]);
      }
      if Derivable(bs, methods, name) {
        var fid: FuncId :| Reaches(bs, methods, name, fid);
        var n: nat :| Derives(bs, methods, name, fid, n);
        SaturatedHas(bs, methods, known, name, fid, n);
      }
    }
  }

  /** Derivability does not depend on the order of the bindings, nor on repetitions. */
  lemma {:induction false} OrderIrrelevant(bs: seq<Binding>, cs: seq<Binding>, methods: Methods, name: string, fid: FuncId, n: nat)
    requires forall b :: b in bs <==> b in cs
    ensures Derives(bs, methods, name, fid, n) <==> Derives(cs, methods, name, fid, n)
    decreases n
  {
    if n > 0 {
      forall b | b in bs && b.name == name && b.value.Ident?
        ensures Derives(bs, methods, b.value.name, fid, n - 1) <==> Derives(cs, methods, b.value.name, fid, n - 1)
      {
        OrderIrrelevant(bs, cs, methods, b.value.name, fid, n - 1);
      }
    }
  }

  /** It is the least set closed under the bindings. */
  lemma {:induction false} DerivableIsLeast(bs: seq<Binding>, methods: Methods, closed: set<string>, name: string, fid: FuncId, n: nat)
    requires forall b | b in bs && MethodOf(b.value, methods).Some? :: b.name in closed
    requires forall b | b in bs && b.value.Ident? && b.value.name in closed :: b.name in closed
    requires Derives(bs, methods, name, fid, n)
    ensures name in closed
    decreases n
  {
    if n > 0 {
      var b :| b in bs && b.name == name && b.value.Ident? && Derives(bs, methods, b.value.name, fid, n - 1);
      DerivableIsLeast(bs, methods, closed, b.value.name, fid, n - 1);
    }
  }

  // ----- What the statements of a chunk say -----

  /** The statement binds `name` to `value`; a statement with uneven lists binds nothing here. */
  predicate Binds(s: Stmt, name: string, value: Expr) {
    match s
    case Local(n, v) => n == name && v == value
    case Assign(n, v) => n == name && v == value
    case LocalMulti(ns, vs) => |ns| == |vs| && exists k | 0 <= k < |ns| :: ns[k] == name && vs[k] == value
    case AssignMulti(ns, vs) => |ns| == |vs| && exists k | 0 <= k < |ns| :: ns[k] == name && vs[k] == value
    case OtherStmt => false
  }

  predicate ChunkBinds(chunk: seq<Stmt>, name: string, value: Expr) {
    exists i | 0 <= i < |chunk| :: Binds(chunk[i], name, value)
  }

  lemma BindingsOfStmt(s: Stmt, b: Binding)
    ensures b in Bindings(s) <==> Binds(s, b.name, b.value)
  {
    match s
    case LocalMulti(ns, vs) => BindingsOfLists(ns, vs, b);
    case AssignMulti(ns, vs) => BindingsOfLists(ns, vs, b);
    case _ =>
  }

  lemma BindingsOfLists(ns: seq<string>, vs: seq<Expr>, b: Binding)
    ensures b in (if |ns| == |vs| then Pairs(ns, vs) else [])
       <==> |ns| == |vs| && exists k | 0 <= k < |ns| :: ns[k] == b.name && vs[k] == b.value
  {
    if |ns| == |vs| {
      if k :| 0 <= k < |ns| && ns[k] == b.name && vs[k] == b.value {
        assert Pairs(ns, vs)[k] == b;
      }
    }
  }

  /** The bindings of a chunk are those its statements make. */
  lemma {:induction false} BindingsOfChunk(chunk: seq<Stmt>, b: Binding)
    ensures b in AllBindings(chunk) <==> ChunkBinds(chunk, b.name, b.value)
    decreases |chunk|
  {
    if chunk != [] {
      BindingsOfStmt(chunk[0], b);
      BindingsOfChunk(chunk[1..], b);
      if i :| 0 <= i < |chunk| && Binds(chunk[i], b.name, b.value) {
        assert i > 0 ==> Binds(chunk[1..][i - 1], b.name, b.value);
      }
      if ChunkBinds(chunk[1..], b.name, b.value) {
        var i :| 0 <= i < |chunk[1..]| && Binds(chunk[1..][i], b.name, b.value);
        assert Binds(chunk[i + 1], b.name, b.value);
      }
    }
  }

  /** `name` is bound in the chunk to the expression that spells the path of method `fid`. */
  ghost predicate NamesMethod(chunk: seq<Stmt>, methods: Methods, name: string, fid: FuncId) {
    exists path | path in methods ::
      path.0 != [] && methods[path] == fid && ChunkBinds(chunk, name, Index(Path(path.0), Str(path.1)))
  }

  /** The chunk has a binding `name = other`. */
  predicate Rebinds(chunk: seq<Stmt>, name: string, other: string) {
    ChunkBinds(chunk, name, Ident(other))
  }

  /** Through `n` rebinds `name = other` of the chunk, `name` leads to a name bound to method `fid`. */
  ghost predicate Leads(chunk: seq<Stmt>, methods: Methods, name: string, fid: FuncId, n: nat)
    decreases n
  {
    if n == 0 then NamesMethod(chunk, methods, name, fid)
    else exists other :: Rebinds(chunk, name, other) && Leads(chunk, methods, other, fid, n - 1)
  }

  ghost predicate StandsFor(chunk: seq<Stmt>, methods: Methods, name: string, fid: FuncId) {
    exists n: nat :: Leads(chunk, methods, name, fid, n)
  }

  lemma IndexChainIsPath(e: Expr, path: (seq<string>, string))
    ensures IndexChain(e) == Some(path) <==> path.0 != [] && e == Index(Path(path.0), Str(path.1))
  {
    if e.Index? && e.key.Str? {
      ChainIsPath(e.target, path.0);
    }
  }

  lemma NamesMethodDerives(chunk: seq<Stmt>, methods: Methods, name: string, fid: FuncId)
    ensures NamesMethod(chunk, methods, name, fid) <==> Derives(AllBindings(chunk), methods, name, fid, 0)
  {
    var bs := AllBindings(chunk);
    if NamesMethod(chunk, methods, name, fid) {
      var path :| path in methods && path.0 != [] && methods[path] == fid
        && ChunkBinds(chunk, name, Index(Path(path.0), Str(path.1)));
      var b := Binding(name, Index(Path(path.0), Str(path.1)));
      IndexChainIsPath(b.value, path);
      BindingsOfChunk(chunk, b);
      assert b in bs && b.name == name && MethodOf(b.value, methods) == Some(fid);
    }
    if b :| b in bs && b.name == name && MethodOf(b.value, methods) == Some(fid) {
      var path := IndexChain(b.value).value;
      IndexChainIsPath(b.value, path);
      BindingsOfChunk(chunk, b);
      assert path in methods && methods[path] == fid;
    }
  }

  lemma {:induction false} LeadsDerives(chunk: seq<Stmt>, methods: Methods, name: string, fid: FuncId, n: nat)
    ensures Leads(chunk, methods, name, fid, n) <==> Derives(AllBindings(chunk), methods, name, fid, n)
    decreases n
  {
    if n == 0 {
      NamesMethodDerives(chunk, methods, name, fid);
    } else {
      var bs, m: nat := AllBindings(chunk), n - 1;
      forall other: string
        ensures Leads(chunk, methods, other, fid, m) <==> Derives(bs, methods, other, fid, m)
      {
        LeadsDerives(chunk, methods, other, fid, m);
      }
      RebindsAlike(chunk, bs, methods, name, fid, m);
    }
  }

  lemma RebindsAlike(chunk: seq<Stmt>, bs: seq<Binding>, methods: Methods, name: string, fid: FuncId, n: nat)
    requires bs == AllBindings(chunk)
    requires forall other :: Leads(chunk, methods, other, fid, n) <==> Derives(bs, methods, other, fid, n)
    ensures Leads(chunk, methods, name, fid, n + 1) <==> Derives(bs, methods, name, fid, n + 1)
  {
    if other :| Rebinds(chunk, name, other) && Leads(chunk, methods, other, fid, n) {
      var b := Binding(name, Ident(other));
      BindingsOfChunk(chunk, b);
      assert b in bs && b.value.Ident? && Derives(bs, methods, b.value.name, fid, n);
    }
    if b :| b in bs && b.name == name && b.value.Ident? && Derives(bs, methods, b.value.name, fid, n) {
      BindingsOfChunk(chunk, b);
      assert Rebinds(chunk, name, b.value.name);
    }
  }

  lemma StandsForReaches(chunk: seq<Stmt>, methods: Methods, name: string, fid: FuncId)
    ensures StandsFor(chunk, methods, name, fid) <==> Reaches(AllBindings(chunk), methods, name, fid)
  {
    if n: nat :| Leads(chunk, methods, name, fid, n) {
      LeadsDerives(chunk, methods, name, fid, n);
    }
    if n: nat :| Derives(AllBindings(chunk), methods, name, fid, n) {
      LeadsDerives(chunk, methods, name, fid, n);
    }
  }

  /** A multiple binding records what its single bindings, in order, record. */
  lemma ListsAreSingles(ns: seq<string>, vs: seq<Expr>)
    requires |ns| == |vs|
    ensures var singles := seq(|ns|, k requires 0 <= k < |ns| => Local(ns[k], vs[k]));
            && Bindings(LocalMulti(ns, vs)) == AllBindings(singles)
            && Bindings(AssignMulti(ns, vs)) == AllBindings(singles)
  {
    SinglesInOrder(ns, vs);
  }

  lemma {:induction false} SinglesInOrder(ns: seq<string>, vs: seq<Expr>)
    requires |ns| == |vs|
    ensures AllBindings(seq(|ns|, k requires 0 <= k < |ns| => Local(ns[k], vs[k]))) == Pairs(ns, vs)
    decreases |ns|
  {
    var singles := seq(|ns|, k requires 0 <= k < |ns| => Local(ns[k], vs[k]));
    if ns != [] {
      SinglesInOrder(ns[1..], vs[1..]);
      assert singles[1..] == seq(|ns[1..]|, k requires 0 <= k < |ns[1..]| => Local(ns[1..][k], vs[1..][k]));
      assert Pairs(ns, vs) == [Binding(ns[0], vs[0])] + Pairs(ns[1..], vs[1..]);
    }
  }

  // ----- The table in place -----

  /** One pass over `bs`: the table and whether anything was recorded. */
  function Pass(bs: seq<Binding>, known: map<string, FuncId>, methods: Methods, insertOnly: bool): (map<string, FuncId>, bool)
    decreases |bs|
  {
    if bs == [] then (known, false)
    else
      var b := bs[0];
      var found := if insertOnly && b.name in known then None else Lookup(b.value, known, methods);
      match found
      case None => Pass(bs[1..], known, methods, insertOnly)
      case Some(fid) => (Pass(bs[1..], known[b.name := fid], methods, insertOnly).0, true)
  }

  lemma {:induction false} PassAppend(front: seq<Binding>, bs: seq<Binding>, known: map<string, FuncId>, methods: Methods, insertOnly: bool)
    ensures var p := Pass(front, known, methods, insertOnly);
            var q := Pass(bs, p.0, methods, insertOnly);
            Pass(front + bs, known, methods, insertOnly) == (q.0, p.1 || q.1)
    decreases |front|
  {
    if front == [] {
      assert front + bs == bs;
    } else {
      assert (front + bs)[1..] == front[1..] + bs;
      var b := front[0];
      var found := if insertOnly && b.name in known then None else Lookup(b.value, known, methods);
      PassAppend(front[1..], bs, if found.Some? then known[b.name := found.value] else known, methods, insertOnly);
    }
  }

  lemma {:induction false} PassJustified(
      all: seq<Binding>, bs: seq<Binding>, known: map<string, FuncId>, methods: Methods, insertOnly: bool)
    requires Justified(all, methods, known) && forall b | b in bs :: b in all
    ensures Justified(all, methods, Pass(bs, known, methods, insertOnly).0)
    decreases |bs|
  {
    if bs != [] {
      var b := bs[0];
      var found := if insertOnly && b.name in known then None else Lookup(b.value, known, methods);
      if found.Some? {
        RecordJustified(all, methods, known, b);
      }
      PassJustified(all, bs[1..], if found.Some? then known[b.name := found.value] else known, methods, insertOnly);
    }
  }

  /** An insert-only pass keeps what is known, records bound names only, and records one unless nothing is missing. */
  lemma {:induction false} PassGrows(bs: seq<Binding>, known: map<string, FuncId>, methods: Methods)
    ensures var p := Pass(bs, known, methods, true);
            && known.Keys <= p.0.Keys && (forall name | name in known :: p.0[name] == known[name])
            && (p.1 ==> exists name :: name in BoundNames(bs) && name !in known && name in p.0)
            && (!p.1 ==> p.0 == known && Saturated(bs, methods, known))
    decreases |bs|
  {
    if bs != [] {
      var b := bs[0];
      var found := if b.name in known then None else Lookup(b.value, known, methods);
      var next := if found.Some? then known[b.name := found.value] else known;
      PassGrows(bs[1..], next, methods);
      var p := Pass(bs, known, methods, true);
      if found.Some? {
        assert b.name in BoundNames(bs) && b.name !in known && b.name in p.0;
      } else if p.1 {
        var name :| name in BoundNames(bs[1..]) && name !in known && name in p.0;
        assert name in BoundNames(bs);
      }
    }
  }

  // ----- Which binding counts -----

  lemma {:induction false} PassSpares(
      bs: seq<Binding>, known: map<string, FuncId>, methods: Methods, insertOnly: bool, name: string)
    requires forall b | b in bs :: b.name != name
    ensures var p := Pass(bs, known, methods, insertOnly).0;
            (name in p <==> name in known) && (name in known ==> p[name] == known[name])
    decreases |bs|
  {
    if bs != [] {
      var b := bs[0];
      var found := if insertOnly && b.name in known then None else Lookup(b.value, known, methods);
      PassSpares(bs[1..], if found.Some? then known[b.name := found.value] else known, methods, insertOnly, name);
    }
  }

  /** In the first pass the last binding of a name that stands for something wins, whatever was recorded before. */
  lemma LastWins(front: seq<Binding>, b: Binding, back: seq<Binding>, known: map<string, FuncId>, methods: Methods)
    requires Lookup(b.value, Pass(front, known, methods, false).0, methods).Some?
    requires forall c | c in back :: c.name != b.name
    ensures var p := Pass(front + [b] + back, known, methods, false).0;
            && b.name in p
            && Some(p[b.name]) == Lookup(b.value, Pass(front, known, methods, false).0, methods)
  {
    var before := Pass(front, known, methods, false).0;
    var fid := Lookup(b.value, before, methods).value;
    PassAppend(front, [b] + back, known, methods, false);
    assert front + [b] + back == front + ([b] + back) && ([b] + back)[1..] == back;
    PassSpares(back, before[b.name := fid], methods, false, b.name);
  }

  predicate Mentions(s: Stmt, name: string) {
    match s
    case Local(n, _) => n == name
    case Assign(n, _) => n == name
    case LocalMulti(ns, vs) => |ns| == |vs| && name in ns
    case AssignMulti(ns, vs) => |ns| == |vs| && name in ns
    case OtherStmt => false
  }

  predicate LastInLists(ns: seq<string>, vs: seq<Expr>, name: string, value: Expr) {
    |ns| == |vs| && exists k | 0 <= k < |ns| :: ns[k] == name && vs[k] == value && name !in ns[k + 1..]
  }

  /** The last binding the statement makes of `name` is to `value`. */
  predicate EndsBinding(s: Stmt, name: string, value: Expr) {
    match s
    case Local(n, v) => n == name && v == value
    case Assign(n, v) => n == name && v == value
    case LocalMulti(ns, vs) => LastInLists(ns, vs, name, value)
    case AssignMulti(ns, vs) => LastInLists(ns, vs, name, value)
    case OtherStmt => false
  }

  /** So is the last binding the chunk makes. */
  predicate LastBinds(chunk: seq<Stmt>, name: string, value: Expr) {
    exists i | 0 <= i < |chunk| ::
      EndsBinding(chunk[i], name, value) && forall j | i < j < |chunk| :: !Mentions(chunk[j], name)
  }

  /** The last binding the chunk makes of `name` is to the expression that spells `path`. */
  predicate LastNames(chunk: seq<Stmt>, name: string, path: (seq<string>, string)) {
    path.0 != [] && LastBinds(chunk, name, Index(Path(path.0), Str(path.1)))
  }

  lemma MentionsBindings(s: Stmt, name: string)
    ensures (exists b | b in Bindings(s) :: b.name == name) <==> Mentions(s, name)
  {
    if Mentions(s, name) && (s.LocalMulti? || s.AssignMulti?) {
      var k :| 0 <= k < |s.names| && s.names[k] == name;
      assert Bindings(s)[k].name == name;
    } else if Mentions(s, name) {
      assert Bindings(s)[0].name == name;
    }
  }

  lemma {:induction false} ChunkSpares(chunk: seq<Stmt>, name: string)
    requires forall j | 0 <= j < |chunk| :: !Mentions(chunk[j], name)
    ensures forall b | b in AllBindings(chunk) :: b.name != name
    decreases |chunk|
  {
    if chunk != [] {
      MentionsBindings(chunk[0], name);
      ChunkSpares(chunk[1..], name);
    }
  }

  /** The place of that binding among those of its statement. */
  lemma EndsBindingAt(s: Stmt, name: string, value: Expr) returns (front: seq<Binding>, back: seq<Binding>)
    requires EndsBinding(s, name, value)
    ensures Bindings(s) == front + [Binding(name, value)] + back && forall c | c in back :: c.name != name
  {
    match s {
      case LocalMulti(ns, vs) => front, back := LastPairAt(ns, vs, name, value);
      case AssignMulti(ns, vs) => front, back := LastPairAt(ns, vs, name, value);
      case _ => front, back := [], [];
    }
  }

  lemma LastPairAt(ns: seq<string>, vs: seq<Expr>, name: string, value: Expr)
    returns (front: seq<Binding>, back: seq<Binding>)
    requires LastInLists(ns, vs, name, value)
    ensures Pairs(ns, vs) == front + [Binding(name, value)] + back && forall c | c in back :: c.name != name
  {
    var bs := Pairs(ns, vs);
    var k :| 0 <= k < |ns| && ns[k] == name && vs[k] == value && name !in ns[k + 1..];
    front, back := bs[..k], bs[k + 1..];
    assert bs == bs[..k] + [bs[k]] + bs[k + 1..];
    forall c | c in back ensures c.name != name {
      var j :| 0 <= j < |back| && back[j] == c;
      assert ns[k + 1..][j] == c.name;
    }
  }

  /** And among those of its chunk. */
  lemma {:induction false} LastBindsAt(chunk: seq<Stmt>, name: string, value: Expr)
    returns (front: seq<Binding>, back: seq<Binding>)
    requires LastBinds(chunk, name, value)
    ensures AllBindings(chunk) == front + [Binding(name, value)] + back && forall c | c in back :: c.name != name
    decreases |chunk|
  {
    var b := [Binding(name, value)];
    var rest := AllBindings(chunk[1..]);
    var before, after;
    if LastBinds(chunk[1..], name, value) {
      before, after := LastBindsAt(chunk[1..], name, value);
      front, back := Bindings(chunk[0]) + before, after;
      Regroup(Bindings(chunk[0]), before, b, after, []);
    } else {
      LastBindsFirst(chunk, name, value);
      before, after := EndsBindingAt(chunk[0], name, value);
      ChunkSpares(chunk[1..], name);
      front, back := before, after + rest;
      Regroup([], before, b, after, rest);
    }
  }

  lemma LastBindsFirst(chunk: seq<Stmt>, name: string, value: Expr)
    requires LastBinds(chunk, name, value)
    ensures LastBinds(chunk[1..], name, value)
      || (EndsBinding(chunk[0], name, value) && forall j | 0 <= j < |chunk| - 1 :: !Mentions(chunk[1..][j], name))
  {
    var i :| 0 <= i < |chunk| && EndsBinding(chunk[i], name, value)
      && forall j | i < j < |chunk| :: !Mentions(chunk[j], name);
    if i > 0 {
      assert EndsBinding(chunk[1..][i - 1], name, value);
    }
  }

  lemma Regroup<T>(a: seq<T>, b: seq<T>, c: seq<T>, d: seq<T>, e: seq<T>)
    ensures a + (b + c + d) + e == (a + b) + c + (d + e)
    ensures e == [] ==> a + (b + c + d) == (a + b) + c + d
    ensures a == [] ==> (b + c + d) + e == b + c + (d + e)
  {
  }

  /** A name that the chunk binds last to the path of a method stands for that method after the first pass. */
  lemma LastMethodWins(chunk: seq<Stmt>, methods: Methods, name: string, path: (seq<string>, string))
    requires path in methods && LastNames(chunk, name, path)
    ensures var p := Pass(AllBindings(chunk), map[], methods, false).0; name in p && p[name] == methods[path]
  {
    var value := Index(Path(path.0), Str(path.1));
    var front, back := LastBindsAt(chunk, name, value);
    IndexChainIsPath(value, path);
    LastWins(front, Binding(name, value), back, map[], methods);
  }

  predicate Extends(known: map<string, FuncId>, more: map<string, FuncId>) {
    forall name | name in known :: name in more && more[name] == known[name]
  }

  function BoundNames(bs: seq<Binding>): set<string> { set b | b in bs :: b.name }

  class AliasTable {
    var entries: map<string, FuncId>
    const methods: Methods

    constructor (methods: Methods)
      ensures entries == map[] && this.methods == methods
    {
      this.methods := methods;
      entries := map[];
    }

    method RecordAliasBinding(name: string, value: Expr, insertOnly: bool) returns (inserted: bool)
      modifies this
      ensures (entries, inserted) == Pass([Binding(name, value)], old(entries), methods, insertOnly)
    {
      assert [Binding(name, value)][1..] == [];
      if insertOnly && name in entries {
        return false;
      }
      var chain := ExtractIndexChain(value);
      if chain.Some? && chain.value in methods {
        entries := entries[name := methods[chain.value]];
        return true;
      }
      if value.Ident? && value.name in entries {
        entries := entries[name := entries[value.name]];
        return true;
      }
      inserted := false;
    }

    method ProcessAliasStmt(s: Stmt, insertOnly: bool) returns (inserted: bool)
      modifies this
      ensures (entries, inserted) == Pass(Bindings(s), old(entries), methods, insertOnly)
    {
      match s {
        case Local(name, value) => inserted := RecordAliasBinding(name, value, insertOnly);
        case Assign(name, value) => inserted := RecordAliasBinding(name, value, insertOnly);
        case LocalMulti(names, values) => inserted := RecordPairs(names, values, insertOnly);
        case AssignMulti(names, values) => inserted := RecordPairs(names, values, insertOnly);
        case OtherStmt => inserted := false;
      }
    }

    method RecordPairs(names: seq<string>, values: seq<Expr>, insertOnly: bool) returns (inserted: bool)
      modifies this
      ensures (entries, inserted)
           == Pass(if |names| == |values| then Pairs(names, values) else [], old(entries), methods, insertOnly)
    {
      inserted := false;
      if |names| != |values| {
        return;
      }
      var all := Pairs(names, values);
      for k := 0 to |names|
        invariant (entries, inserted) == Pass(all[..k], old(entries), methods, insertOnly)
      {
        PassAppend(all[..k], [all[k]], old(entries), methods, insertOnly);
        assert all[..k + 1] == all[..k] + [all[k]];
        var any := RecordAliasBinding(names[k], values[k], insertOnly);
        inserted := inserted || any;
      }
      assert all[..|names|] == all;
    }

    method ProcessChunk(chunk: seq<Stmt>, insertOnly: bool) returns (changed: bool)
      modifies this
      ensures (entries, changed) == Pass(AllBindings(chunk), old(entries), methods, insertOnly)
    {
      changed := false;
      AllBindingsSplit(chunk, 0);
      for i := 0 to |chunk|
        invariant (entries, changed) == Pass(AllBindings(chunk[..i]), old(entries), methods, insertOnly)
      {
        AllBindingsSplit(chunk, i);
        PassAppend(AllBindings(chunk[..i]), Bindings(chunk[i]), old(entries), methods, insertOnly);
        var any := ProcessAliasStmt(chunk[i], insertOnly);
        changed := changed || any;
      }
      assert chunk[..|chunk|] == chunk;
    }

    /**
     One last-wins pass, then insert-only passes until nothing changes.  The table ends with exactly the names
     that lead to a method, each standing for a method it leads to; what the first pass recorded stays, so a name
     bound last to the path of a method stands for that method.
     */
    method ResolveAliases(chunk: seq<Stmt>)
      requires entries == map[]
      modifies this
      ensures forall name :: name in entries <==> exists fid :: StandsFor(chunk, methods, name, fid)
      ensures forall name | name in entries :: StandsFor(chunk, methods, name, entries[name])
      ensures var first := Pass(AllBindings(chunk), map[], methods, false).0;
              Extends(first, entries)
      ensures forall name, path | path in methods && LastNames(chunk, name, path) ::
                name in entries && entries[name] == methods[path]
    {
      ghost var bs := AllBindings(chunk);
      PassJustified(bs, bs, entries, methods, false);
      var changed := ProcessChunk(chunk, false);
      ghost var first := entries;
      changed := true;
      while changed
        invariant Justified(bs, methods, entries)
        invariant Extends(first, entries)
        invariant !changed ==> Saturated(bs, methods, entries)
        decreases BoundNames(bs) - entries.Keys, changed
      {
        ghost var before := entries;
        PassJustified(bs, bs, entries, methods, true);
        PassGrows(bs, entries, methods);
        changed := ProcessChunk(chunk, true);
        if changed {
          assert BoundNames(bs) - entries.Keys < BoundNames(bs) - before.Keys by {
            var name :| name in BoundNames(bs) && name !in before && name in entries;
            assert name in BoundNames(bs) - before.Keys && name !in BoundNames(bs) - entries.Keys;
          }
        }
      }
      FixedPointIsDerivable(bs, methods, entries);
      Resolved(chunk, methods, entries);
      forall name, path | path in methods && LastNames(chunk, name, path)
        ensures name in entries && entries[name] == methods[path]
      {
        LastMethodWins(chunk, methods, name, path);
      }
    }
  }

  /** The table in terms of the chunk. */
  lemma Resolved(chunk: seq<Stmt>, methods: Methods, known: map<string, FuncId>)
    requires Justified(AllBindings(chunk), methods, known)
    requires forall name :: name in known <==> Derivable(AllBindings(chunk), methods, name)
    ensures forall name :: name in known <==> exists fid :: StandsFor(chunk, methods, name, fid)
    ensures forall name | name in known :: StandsFor(chunk, methods, name, known[name])
  {
    forall name, fid ensures StandsFor(chunk, methods, name, fid) <==> Reaches(AllBindings(chunk), methods, name, fid) {
      StandsForReaches(chunk, methods, name, fid);
    }
    forall name | name in known ensures StandsFor(chunk, methods, name, known[name]) {
      assert Reaches(AllBindings(chunk), methods, name, known[name]);
    }
    forall name ensures name in known <==> exists fid :: StandsFor(chunk, methods, name, fid) {
      if fid :| StandsFor(chunk, methods, name, fid) {
        assert Reaches(AllBindings(chunk), methods, name, fid);
      }
    }
  }

  lemma {:induction false} AllBindingsSplit(chunk: seq<Stmt>, i: nat)
    requires i <= |chunk|
    ensures chunk[..0] == [] && AllBindings([]) == []
    ensures i < |chunk| ==> AllBindings(chunk[..i + 1]) == AllBindings(chunk[..i]) + Bindings(chunk[i])
    decreases i
  {
    if i < |chunk| {
      var front := chunk[..i + 1];
      if i == 0 {
        assert front[1..] == [] && chunk[..0] == [];
      } else {
        AllBindingsSplit(chunk[1..], i - 1);
        assert front[1..] == chunk[1..][..i] && chunk[..i][1..] == chunk[1..][..i - 1];
        assert front[0] == chunk[0] == chunk[..i][0];
      }
    }
  }
}
