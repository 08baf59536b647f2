/** Dependency formulas and their closure (`apt/aptlist.h`, `apt/apt.cpp`). */
module Deps {

  type Package = string

  /** A dependency tree: a name, alternatives (`|`) or a conjunction (`,`). */
  datatype Expr = Value(name: Package) | Or(left: Expr, right: Expr) | And(left: Expr, right: Expr)

  function Names(e: Expr): set<Package> {
    match e
    case Value(p) => {p}
    case Or(l, r) => Names(l) + Names(r)
    case And(l, r) => Names(l) + Names(r)
  }

  /** Truth of the formula when `s` are the true names. */
  predicate Holds(e: Expr, s: set<Package>) {
    match e
    case Value(p) => p in s
    case Or(l, r) => Holds(l, s) || Holds(r, s)
    case And(l, r) => Holds(l, s) && Holds(r, s)
  }

  /** `satisfy`: grows `packages`; the flag is true where the source returns 0. An alternative is
      tried on an empty set and merged only if it succeeds; a conjunction runs both sides in place
      even when the first fails. */
  function Satisfy(e: Expr, packages: set<Package>, avail: set<Package>): (r: (bool, set<Package>)) {
    match e
    case Value(p) => if p in avail then (true, packages + {p}) else (false, packages)
    case Or(l, r) =>
      var (okL, tempL) := Satisfy(l, {}, avail);
      if okL then (true, packages + tempL)
      else
        var (okR, tempR) := Satisfy(r, {}, avail);
        if okR then (true, packages + tempR) else (false, packages)
    case And(l, r) =>
      var (okL, grown) := Satisfy(l, packages, avail);
      var (okR, grown') := Satisfy(r, grown, avail);
      (okL && okR, grown')
  }

  /** What `satisfy` adds. */
  function Pick(e: Expr, avail: set<Package>): set<Package> { Satisfy(e, {}, avail).1 }

  /** It succeeds exactly when the formula is true of the available packages; what it adds does not
      depend on the set it is given, exists, occurs in the tree, and makes the formula true. */
  lemma {:induction false} SatisfyCorrect(e: Expr, packages: set<Package>, avail: set<Package>)
    ensures var (ok, grown) := Satisfy(e, packages, avail);
            && ok == Satisfy(e, {}, avail).0
            && (ok <==> Holds(e, avail))
            && grown == packages + Pick(e, avail)
            && Pick(e, avail) <= Names(e) * avail
            && (ok ==> Holds(e, Pick(e, avail)))
  {
    match e
    case Value(p) =>
    case Or(l, r) =>
      SatisfyCorrect(l, {}, avail);
      SatisfyCorrect(r, {}, avail);
    case And(l, r) =>
      var left := Satisfy(l, packages, avail);
      var left0 := Satisfy(l, {}, avail);
      SatisfyCorrect(l, packages, avail);
      SatisfyCorrect(l, {}, avail);
      SatisfyCorrect(r, left.1, avail);
      SatisfyCorrect(r, left0.1, avail);
      HoldsMonotone(l, Pick(l, avail), Pick(l, avail) + Pick(r, avail));
      HoldsMonotone(r, Pick(r, avail), Pick(l, avail) + Pick(r, avail));
  }

  lemma {:induction false} HoldsMonotone(e: Expr, s: set<Package>, t: set<Package>)
    requires s <= t
    ensures Holds(e, s) ==> Holds(e, t)
  {
    match e
    case Value(p) =>
    case Or(l, r) => HoldsMonotone(l, s, t); HoldsMonotone(r, s, t);
    case And(l, r) => HoldsMonotone(l, s, t); HoldsMonotone(r, s, t);
  }

  // ---------------------------------------------------------------- which packages are chosen

  /** The members of a chain of alternatives, from left to right. */
  function Alternatives(e: Expr): (alts: seq<Expr>)
    ensures |alts| >= 1 && forall i :: 0 <= i < |alts| ==> !alts[i].Or? && Size(alts[i]) <= Size(e)
    ensures e.Or? ==> forall i :: 0 <= i < |alts| ==> Size(alts[i]) < Size(e)
    ensures !e.Or? ==> alts == [e]
  {
    if e.Or? then Alternatives(e.left) + Alternatives(e.right) else [e]
  }

  function Size(e: Expr): nat { if e.Value? then 1 else Size(e.left) + Size(e.right) + 1 }

  /** The first of them that holds, or their number. */
  function First(alts: seq<Expr>, avail: set<Package>): (k: nat)
    ensures k <= |alts| && (k < |alts| ==> Holds(alts[k], avail))
    ensures forall i :: 0 <= i < k ==> !Holds(alts[i], avail)
  {
    if alts == [] || Holds(alts[0], avail) then 0 else 1 + First(alts[1..], avail)
  }

  /** The selection a reader expects: a name that exists; of a chain of alternatives what the first
      that holds selects; of a conjunction what both sides select. */
  function Selected(e: Expr, avail: set<Package>): set<Package>
    decreases Size(e)
  {
    match e
    case Value(p) => if p in avail then {p} else {}
    case Or(_, _) =>
      var alts := Alternatives(e);
      var k := First(alts, avail);
      if k < |alts| then Selected(alts[k], avail) else {}
    case And(l, r) => Selected(l, avail) + Selected(r, avail)
  }

  /** `satisfy` adds exactly that. */
  lemma {:induction false} PickIsSelected(e: Expr, avail: set<Package>)
    ensures Pick(e, avail) == Selected(e, avail)
  {
    match e
    case Value(p) =>
    case Or(l, r) =>
      LeftFirst(l, r, avail);
      SelectedOr(l, r, avail);
      PickIsSelected(l, avail);
      PickIsSelected(r, avail);
    case And(l, r) =>
      PickIsSelected(l, avail);
      PickIsSelected(r, avail);
      SatisfyCorrect(l, {}, avail);
      SatisfyCorrect(r, Satisfy(l, {}, avail).1, avail);
  }

  /** Of two alternatives the left one is taken if it holds, else the right one. */
  lemma LeftFirst(l: Expr, r: Expr, avail: set<Package>)
    ensures Pick(Or(l, r), avail)
         == if Holds(l, avail) then Pick(l, avail) else if Holds(r, avail) then Pick(r, avail) else {}
  {
    SatisfyCorrect(l, {}, avail);
    SatisfyCorrect(r, {}, avail);
  }

  lemma {:induction false} ChainHolds(e: Expr, avail: set<Package>)
    ensures Holds(e, avail) <==> First(Alternatives(e), avail) < |Alternatives(e)|
  {
    if e.Or? {
      ChainHolds(e.left, avail);
      ChainHolds(e.right, avail);
      FirstOf(Alternatives(e.left), Alternatives(e.right), avail);
    }
  }

  lemma {:induction false} FirstOf(a: seq<Expr>, b: seq<Expr>, avail: set<Package>)
    ensures First(a + b, avail) == if First(a, avail) < |a| then First(a, avail) else |a| + First(b, avail)
    decreases |a|
  {
    if a == [] {
      assert a + b == b;
    } else {
      assert (a + b)[1..] == a[1..] + b;
      FirstOf(a[1..], b, avail);
    }
  }

  lemma SelectedOr(l: Expr, r: Expr, avail: set<Package>)
    ensures Selected(Or(l, r), avail)
         == if Holds(l, avail) then Selected(l, avail) else if Holds(r, avail) then Selected(r, avail) else {}
  {
    hide Holds;
    ChainHolds(l, avail);
    ChainHolds(r, avail);
    FirstOf(Alternatives(l), Alternatives(r), avail);
    ChainSelects(l, avail);
    ChainSelects(r, avail);
  }

  lemma ChainSelects(e: Expr, avail: set<Package>)
    ensures var alts, k := Alternatives(e), First(Alternatives(e), avail);
            k < |alts| ==> Selected(e, avail) == Selected(alts[k], avail)
  {
  }

  /** For one: of "a | b" with both available, "a". */
  lemma LeftChosen()
    ensures Satisfy(Or(Value("a"), Value("b")), {}, {"a", "b"}) == (true, {"a"})
  {
    var none: set<Package> := {};
    assert none + {"a"} == {"a"};
    assert Satisfy(Value("a"), {}, {"a", "b"}) == (true, {"a"});
  }

  /** A failed alternative leaves nothing behind. */
  lemma FailedAlternative(l: Expr, r: Expr, packages: set<Package>, avail: set<Package>)
    requires !Holds(Or(l, r), avail)
    ensures Satisfy(Or(l, r), packages, avail) == (false, packages)
  {
    SatisfyCorrect(l, {}, avail);
    SatisfyCorrect(r, {}, avail);
  }

  /** The parts of a formula between its top-level commas, each a name or alternatives. */
  function Conjuncts(e: Expr): set<Expr> {
    if e.And? then Conjuncts(e.left) + Conjuncts(e.right) else {e}
  }

  ghost predicate PickedFor(e: Expr, avail: set<Package>, p: Package) {
    exists c :: c in Conjuncts(e) && Holds(c, avail) && p in Pick(c, avail)
  }

  /** `satisfy` adds what it picks for every conjunct that holds, whether or not the others do. */
  lemma {:induction false} PickConjuncts(e: Expr, avail: set<Package>, p: Package)
    ensures p in Pick(e, avail) <==> PickedFor(e, avail, p)
    ensures Holds(e, avail) <==> forall c :: c in Conjuncts(e) ==> Holds(c, avail)
    ensures forall c :: c in Conjuncts(e) ==> (Holds(c, avail) <==> Pick(c, avail) != {})
  {
    if e.And? {
      PickConjuncts(e.left, avail, p);
      PickConjuncts(e.right, avail, p);
      SatisfyCorrect(e.left, {}, avail);
      SatisfyCorrect(e.right, Satisfy(e.left, {}, avail).1, avail);
      assert Pick(e, avail) == Pick(e.left, avail) + Pick(e.right, avail);
      assert PickedFor(e, avail, p) <==> PickedFor(e.left, avail, p) || PickedFor(e.right, avail, p);
    } else {
      SatisfyCorrect(e, {}, avail);
      HoldsSomething(e, Pick(e, avail));
      if e.Or? { FailedEither(e, avail); }
      assert e in Conjuncts(e);
    }
  }

  lemma FailedEither(e: Expr, avail: set<Package>)
    requires e.Or?
    ensures !Holds(e, avail) ==> Pick(e, avail) == {}
  {
    if !Holds(e, avail) { FailedAlternative(e.left, e.right, {}, avail); }
  }

  lemma {:induction false} HoldsSomething(e: Expr, s: set<Package>)
    ensures Holds(e, s) ==> s != {}
  {
    match e
    case Value(p) =>
    case Or(l, r) => HoldsSomething(l, s); HoldsSomething(r, s);
    case And(l, r) => HoldsSomething(l, s);
  }

  /** A failed formula leaves the set as it was exactly if what was picked for the conjuncts that
      hold was already there. */
  lemma FailedFormula(e: Expr, packages: set<Package>, avail: set<Package>)
    requires !Holds(e, avail)
    ensures Satisfy(e, packages, avail) == (false, packages)
            <==> forall c :: c in Conjuncts(e) && Holds(c, avail) ==> Pick(c, avail) <= packages
  {
    SatisfyCorrect(e, packages, avail);
    forall p ensures p in Pick(e, avail) <==> PickedFor(e, avail, p) { PickConjuncts(e, avail, p); }
    if forall c :: c in Conjuncts(e) && Holds(c, avail) ==> Pick(c, avail) <= packages {
      assert forall p :: p in Pick(e, avail) ==> PickedFor(e, avail, p);
      assert packages + Pick(e, avail) == packages;
    }
    if packages + Pick(e, avail) == packages {
      forall c, p | c in Conjuncts(e) && Holds(c, avail) && p in Pick(c, avail) ensures p in packages {
        assert PickedFor(e, avail, p);
        assert p in packages + Pick(e, avail);
      }
    }
  }

  /** So a failed formula leaves the empty set empty exactly if none of its conjuncts holds. */
  lemma FailedConjunction(e: Expr, avail: set<Package>)
    requires !Holds(e, avail)
    ensures Satisfy(e, {}, avail) == (false, {}) <==> forall c :: c in Conjuncts(e) ==> !Holds(c, avail)
  {
    FailedFormula(e, {}, avail);
    PickConjuncts(e, avail, "");
  }

  /** For one: "a" stays behind although "a, b" fails. */
  lemma LeftBehind()
    ensures Satisfy(And(Value("a"), Value("b")), {}, {"a"}) == (false, {"a"})
  {
    var none: set<Package> := {};
    assert none + {"a"} == {"a"} && "b" != "a";
    assert Satisfy(Value("a"), {}, {"a"}) == (true, {"a"});
    assert Satisfy(Value("b"), {"a"}, {"a"}) == (false, {"a"});
  }

  // ---------------------------------------------------------------- package lists

  datatype Option<T> = None | Some(value: T)

  /** The two dependency trees of a package record. */
  datatype Detail = Detail(deps: Option<Expr>, preDeps: Option<Expr>)

  type Lists = seq<map<Package, Detail>>

  /** Names for which `packageExists` holds. */
  function Available(lists: Lists): set<Package> { set i, p | 0 <= i < |lists| && p in lists[i] :: p }

  /** `Apt::find`: the first list that has the package decides. */
  method Find(lists: Lists, p: Package) returns (r: Option<Detail>)
    ensures r.None? <==> p !in Available(lists)
    ensures r.Some? ==> exists i :: 0 <= i < |lists| && p in lists[i] && r.value == lists[i][p]
                                    && forall j :: 0 <= j < i ==> p !in lists[j]
    ensures r == Lookup(lists, p)
  {
    for i := 0 to |lists|
      invariant forall j :: 0 <= j < i ==> p !in lists[j]
      invariant Lookup(lists, p) == Lookup(lists[i..], p)
    {
      assert lists[i..][1..] == lists[i + 1..];
      if p in lists[i] { return Some(lists[i][p]); }
    }
    return None;
  }

  function Lookup(lists: Lists, p: Package): Option<Detail> {
    if lists == [] then None else if p in lists[0] then Some(lists[0][p]) else Lookup(lists[1..], p)
  }

  function SelectedOpt(e: Option<Expr>, avail: set<Package>): set<Package> {
    if e.Some? then Selected(e.value, avail) else {}
  }

  /** Packages that resolving `p` adds. */
  function Needs(lists: Lists, p: Package): set<Package> {
    var d := Lookup(lists, p);
    if d.None? then {}
    else SelectedOpt(d.value.deps, Available(lists)) + SelectedOpt(d.value.preDeps, Available(lists))
  }

  // ---------------------------------------------------------------- closure

  ghost predicate Closed(lists: Lists, s: set<Package>) {
    forall p :: p in s ==> Needs(lists, p) <= s
  }

  /** The least set that has the named packages and everything their members pull in. */
  ghost predicate LeastClosure(lists: Lists, named: set<Package>, s: set<Package>) {
    && named <= s && Closed(lists, s)
    && forall t :: named <= t && Closed(lists, t) ==> s <= t
  }

  /** The least closure is a set of packages that satisfies every dependency that can be satisfied,
      and holds no missing package except a named one. */
  lemma ClosureModels(lists: Lists, named: set<Package>, s: set<Package>, p: Package)
    requires LeastClosure(lists, named, s) && p in s
    ensures p in named || p in Available(lists)
    ensures var d := Lookup(lists, p); d.Some? ==>
              && (d.value.deps.Some? && Holds(d.value.deps.value, Available(lists)) ==> Holds(d.value.deps.value, s))
              && (d.value.preDeps.Some? && Holds(d.value.preDeps.value, Available(lists))
                 ==> Holds(d.value.preDeps.value, s))
  {
    UniverseClosed(lists, named);
    var d := Lookup(lists, p);
    if d.Some? {
      PickHolds(d.value.deps, Available(lists), s);
      PickHolds(d.value.preDeps, Available(lists), s);
    }
  }

  lemma PickHolds(e: Option<Expr>, avail: set<Package>, s: set<Package>)
    requires SelectedOpt(e, avail) <= s
    ensures e.Some? && Holds(e.value, avail) ==> Holds(e.value, s)
  {
    if e.Some? {
      SatisfyCorrect(e.value, {}, avail);
      PickIsSelected(e.value, avail);
      HoldsMonotone(e.value, Pick(e.value, avail), s);
    }
  }

  function AsSet(named: seq<Package>): set<Package> { set p | p in named }

  /** The order in which `std::set` is traversed. */
  ghost predicate StrictOrder(less: (Package, Package) -> bool) {
    && (forall a, b :: a == b || less(a, b) || less(b, a))
    && (forall a, b :: !(less(a, b) && less(b, a)))
    && (forall a, b, c :: less(a, b) && less(b, c) ==> less(a, c))
  }

  /** The resolver grows one shared set, as `packagesRequired` in `downloadDeps`. */
  class Resolver {
    const lists: Lists
    var required: set<Package>

    constructor (lists: Lists)
      ensures this.lists == lists && required == {}
    {
      this.lists := lists;
      required := {};
    }

    method DoSatisfy(p: Package)
      modifies this`required
      ensures required == old(required) + {p} + Needs(lists, p)
    {
      required := required + {p};
      var d := Find(lists, p);
      if d.Some? {
        if d.value.deps.Some? {
          SatisfyCorrect(d.value.deps.value, required, Available(lists));
          PickIsSelected(d.value.deps.value, Available(lists));
          required := Satisfy(d.value.deps.value, required, Available(lists)).1;
        }
        if d.value.preDeps.Some? {
          SatisfyCorrect(d.value.preDeps.value, required, Available(lists));
          PickIsSelected(d.value.preDeps.value, Available(lists));
          required := Satisfy(d.value.preDeps.value, required, Available(lists)).1;
        }
      }
    }

    /** One pass over the set in order. Elements inserted ahead of the cursor are visited in this
        pass, those behind it are not. */
    method Pass(less: (Package, Package) -> bool, ghost universe: set<Package>)
      requires StrictOrder(less)
      requires required <= universe && Closed(lists, universe)
      modifies this`required
      ensures old(required) <= required <= universe
      ensures forall p :: p in old(required) ==> Needs(lists, p) <= required
      ensures forall t :: old(required) <= t && Closed(lists, t) ==> required <= t
    {
      hide Needs, Lookup, SelectedOpt, Available;
      var cursor: Option<Package> := None;
      ghost var visited: set<Package>, ahead := {}, universe;
      ghost var before := required;
      while true
        invariant before <= required <= universe && visited <= required
        invariant forall p :: p in visited ==> Needs(lists, p) <= required
        invariant forall p :: p in before && p !in visited ==> p in ahead
        invariant forall p :: p in universe ==> (p in ahead <==> cursor.None? || less(cursor.value, p))
        invariant forall t :: before <= t && Closed(lists, t) ==> required <= t
        invariant ahead <= universe
        decreases ahead
      {
        var rest := set p | p in required && (cursor.None? || less(cursor.value, p));
        if rest == {} { break; }
        var p := Least(rest, less);
        DoSatisfy(p);
        visited := visited + {p};
        cursor := Some(p);
        ahead := set q | q in universe && less(p, q);
      }
    }

    /** `downloadDeps`: resolve the named packages, then pass over the set until it stops growing. */
    method Resolve(named: seq<Package>, less: (Package, Package) -> bool, ghost universe: set<Package>)
      requires StrictOrder(less) && required == {}
      requires AsSet(named) <= universe && Closed(lists, universe)
      modifies this`required
      ensures LeastClosure(lists, AsSet(named), required)
    {
      ghost var goal := AsSet(named);
      for i := 0 to |named|
        invariant AsSet(named[..i]) <= required <= universe
        invariant forall t :: goal <= t && Closed(lists, t) ==> required <= t
      {
        DoSatisfy(named[i]);
        assert named[..i + 1] == named[..i] + [named[i]];
      }
      assert named[..|named|] == named;
      var count := |required|;
      while true
        invariant goal <= required <= universe && count == |required|
        invariant forall t :: goal <= t && Closed(lists, t) ==> required <= t
        decreases universe - required
      {
        ghost var was := required;
        Pass(less, universe);
        assert required == was + (required - was);
        if |required| == count {
          SameSize(was, required);
          break;
        }
        assert universe - required < universe - was;
        count := |required|;
      }
    }
  }

  lemma SameSize(s: set<Package>, t: set<Package>)
    requires s <= t && |s| == |t|
    ensures s == t
  {
    assert |t| == |s| + |t - s|;
  }

  method Least(s: set<Package>, less: (Package, Package) -> bool) returns (m: Package)
    requires s != {} && StrictOrder(less)
    ensures m in s && forall p :: p in s ==> p == m || less(m, p)
  {
    m :| m in s;
    var left := s - {m};
    while left != {}
      invariant m in s && left <= s
      invariant forall p :: p in s - left ==> p == m || less(m, p)
      decreases left
    {
      var p :| p in left;
      if less(p, m) { m := p; }
      left := left - {p};
    }
  }

  // ---------------------------------------------------------------- it terminates: a finite universe exists

  lemma SelectedExist(e: Option<Expr>, avail: set<Package>)
    ensures SelectedOpt(e, avail) <= avail
  {
    if e.Some? {
      SatisfyCorrect(e.value, {}, avail);
      PickIsSelected(e.value, avail);
    }
  }

  /** The named packages and the available ones are closed: only available packages are added. */
  lemma UniverseClosed(lists: Lists, named: set<Package>)
    ensures Closed(lists, named + Available(lists))
  {
    forall p | p in named + Available(lists) ensures Needs(lists, p) <= named + Available(lists) {
      var d := Lookup(lists, p);
      if d.Some? {
        SelectedExist(d.value.deps, Available(lists));
        SelectedExist(d.value.preDeps, Available(lists));
      }
    }
  }

  /** `downloadDeps` from the lists alone, for every traversal order. */
  method DownloadDeps(lists: Lists, named: seq<Package>, less: (Package, Package) -> bool)
    returns (required: set<Package>)
    requires StrictOrder(less)
    ensures LeastClosure(lists, AsSet(named), required)
    ensures forall s :: LeastClosure(lists, AsSet(named), s) ==> s == required
  {
    var r := new Resolver(lists);
    UniverseClosed(lists, AsSet(named));
    r.Resolve(named, less, AsSet(named) + Available(lists));
    required := r.required;
  }
}
