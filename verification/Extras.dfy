/** Which extras a lock must install: each package's requirements are walked, the extras
    they ask for are added to the lock, and the walk is repeated until nothing is asked
    for any more. */
module Extras {

  /** A line of a package's metadata: the package it needs, the extras of it that it asks
      for, the extras of the package itself that switch the line on ("" for a line that
      holds without any), and whether the locked version satisfies it. */
  datatype Requirement = Requirement(dep: string, extras: set<string>, on: set<string>, fits: bool)

  /** The requirements of every package, from its metadata. */
  type Tree = map<string, seq<Requirement>>

  /** The extras each locked package is installed with. */
  type Lock = map<string, set<string>>

  datatype Problem =
    | NotInLock(name: string, need: Requirement)
    | WrongVersion(name: string, need: Requirement)
    | ExtraNotInstalled(name: string, need: Requirement, extra: string)

  function Needs(tree: Tree, name: string): seq<Requirement> {
    if name in tree then tree[name] else []
  }

  /** The marker holds for "" or for one of the package's extras. */
  predicate Active(need: Requirement, extras: set<string>) {
    exists x :: x in need.on && (x == "" || x in extras)
  }

  /** Package `name` asks, by its i-th requirement, for an extra the lock does not install. */
  predicate Asks(tree: Tree, lock: Lock, name: string, i: int, extra: string) {
    && name in lock
    && 0 <= i < |Needs(tree, name)|
    && var need := Needs(tree, name)[i];
       && Active(need, lock[name])
       && need.dep in lock
       && extra in need.extras - lock[need.dep]
  }

  function AskedBy(tree: Tree, lock: Lock, name: string, count: nat): set<(string, string)>
    requires count <= |Needs(tree, name)|
  {
    set i: nat, extra |
      i < count && extra in Needs(tree, name)[i].extras && Asks(tree, lock, name, i, extra)
      :: (Needs(tree, name)[i].dep, extra)
  }

  /** Everything asked for, by the packages named. */
  function AskedFor(tree: Tree, lock: Lock, names: set<string>): set<(string, string)> {
    set name, want | name in names && want in AskedBy(tree, lock, name, |Needs(tree, name)|) :: want
  }

  /** Nothing is asked for: every active requirement's extras are installed. */
  ghost predicate Closed(tree: Tree, lock: Lock) {
    forall name, i, extra :: !Asks(tree, lock, name, i, extra)
  }

  /** What one requirement reports, apart from extras. */
  function Reported(tree: Tree, lock: Lock, name: string, i: nat): set<Problem>
    requires name in lock && i < |Needs(tree, name)|
  {
    var need := Needs(tree, name)[i];
    if !Active(need, lock[name]) then {}
    else if need.dep !in lock then {NotInLock(name, need)}
    else if !need.fits then {WrongVersion(name, need)}
    else {}
  }

  /** The extras one requirement reports when they are not collected. */
  function ReportedExtras(tree: Tree, lock: Lock, name: string, i: nat): set<Problem>
    requires name in lock && i < |Needs(tree, name)|
  {
    set extra | extra in Needs(tree, name)[i].extras && Asks(tree, lock, name, i, extra)
      :: ExtraNotInstalled(name, Needs(tree, name)[i], extra)
  }

  function AllReported(tree: Tree, lock: Lock, name: string, i: nat, collect: bool): set<Problem>
    requires name in lock && i < |Needs(tree, name)|
  {
    Reported(tree, lock, name, i) + if collect then {} else ReportedExtras(tree, lock, name, i)
  }

  function ProblemsOf(tree: Tree, lock: Lock, name: string, count: nat, collect: bool): set<Problem>
    requires name in lock && count <= |Needs(tree, name)|
  {
    set i: nat, p | i < count && p in AllReported(tree, lock, name, i, collect) :: p
  }

  function Problems(tree: Tree, lock: Lock, names: set<string>, collect: bool): set<Problem>
    requires names <= lock.Keys
  {
    set name, p | name in names && p in ProblemsOf(tree, lock, name, |Needs(tree, name)|, collect) :: p
  }

  // ---- the walk of one package ------------------------------------------------------------

  function Wanted(need: Requirement, extras: set<string>): set<(string, string)> {
    set x | x in extras :: (need.dep, x)
  }

  function Lacking(name: string, need: Requirement, extras: set<string>): set<Problem> {
    set x | x in extras :: ExtraNotInstalled(name, need, x)
  }

  /** The extras one requirement asks for and the lock does not install. */
  function Missing(lock: Lock, name: string, need: Requirement): set<string>
    requires name in lock
  {
    if Active(need, lock[name]) && need.dep in lock then need.extras - lock[need.dep] else {}
  }

  /** The requirement walk of `_check`: collects what is asked for into `wants`, or reports
      it when nothing is collected. */
  method Check(tree: Tree, lock: Lock, name: string, collect: bool, wants: set<(string, string)>)
    returns (problems: set<Problem>, wants': set<(string, string)>)
    requires name in lock
    ensures problems == ProblemsOf(tree, lock, name, |Needs(tree, name)|, collect)
    ensures wants' == wants + if collect then AskedBy(tree, lock, name, |Needs(tree, name)|) else {}
  {
    hide AskedBy, ProblemsOf, Active;
    problems, wants' := {}, wants;
    NothingYet(tree, lock, name, collect);
    var needs := Needs(tree, name);
    for i := 0 to |needs|
      invariant problems == ProblemsOf(tree, lock, name, i, collect)
      invariant wants' == wants + if collect then AskedBy(tree, lock, name, i) else {}
    {
      AskedByStep(tree, lock, name, i);
      ProblemsStep(tree, lock, name, i, collect);
      var need := needs[i];
      assert Wanted(need, {}) == {} && Lacking(name, need, {}) == {};
      if !Active(need, lock[name]) {
        continue;
      }
      if need.dep !in lock {
        problems := problems + {NotInLock(name, need)};
        continue;
      }
      if !need.fits {
        problems := problems + {WrongVersion(name, need)};
      }
      var lacking, wanted := AddExtras(lock, name, need, collect);
      problems, wants' := problems + lacking, wants' + wanted;
    }
  }

  /** The loop over the extras one requirement asks for. */
  method AddExtras(lock: Lock, name: string, need: Requirement, collect: bool)
    returns (lacking: set<Problem>, wanted: set<(string, string)>)
    requires need.dep in lock
    ensures lacking == if collect then {} else Lacking(name, need, need.extras - lock[need.dep])
    ensures wanted == if collect then Wanted(need, need.extras - lock[need.dep]) else {}
  {
    lacking, wanted := {}, {};
    var missing := need.extras - lock[need.dep];
    var todo := missing;
    ghost var done: set<string> := {};
    OneExtraMore(name, need, done, "");
    hide Wanted, Lacking;
    while todo != {}
      invariant done + todo == missing
      invariant lacking == if collect then {} else Lacking(name, need, done)
      invariant wanted == if collect then Wanted(need, done) else {}
      decreases |todo|
    {
      var extra :| extra in todo;
      OneExtraMore(name, need, done, extra);
      done, todo := done + {extra}, todo - {extra};
      if collect {
        wanted := wanted + {(need.dep, extra)};
      } else {
        lacking := lacking + {ExtraNotInstalled(name, need, extra)};
      }
    }
    assert done == missing;
  }

  lemma OneExtraMore(name: string, need: Requirement, extras: set<string>, extra: string)
    ensures Wanted(need, {}) == {} && Lacking(name, need, {}) == {}
    ensures Wanted(need, extras + {extra}) == Wanted(need, extras) + {(need.dep, extra)}
    ensures Lacking(name, need, extras + {extra})
         == Lacking(name, need, extras) + {ExtraNotInstalled(name, need, extra)}
  {
  }

  lemma NothingYet(tree: Tree, lock: Lock, name: string, collect: bool)
    requires name in lock
    ensures AskedBy(tree, lock, name, 0) == {} && ProblemsOf(tree, lock, name, 0, collect) == {}
  {
  }

  lemma AskedByStep(tree: Tree, lock: Lock, name: string, i: nat)
    requires name in lock && i < |Needs(tree, name)|
    ensures var need := Needs(tree, name)[i];
            AskedBy(tree, lock, name, i + 1)
            == AskedBy(tree, lock, name, i) + Wanted(need, Missing(lock, name, need))
  {
    var need := Needs(tree, name)[i];
    forall extra
      ensures extra in Missing(lock, name, need) <==> extra in need.extras && Asks(tree, lock, name, i, extra)
    {
    }
    hide Active, Missing, Asks;
  }

  lemma ProblemsStep(tree: Tree, lock: Lock, name: string, i: nat, collect: bool)
    requires name in lock && i < |Needs(tree, name)|
    ensures var need := Needs(tree, name)[i];
            ProblemsOf(tree, lock, name, i + 1, collect)
            == ProblemsOf(tree, lock, name, i, collect) + Reported(tree, lock, name, i)
               + if collect then {} else Lacking(name, need, Missing(lock, name, need))
  {
    var need := Needs(tree, name)[i];
    forall extra
      ensures extra in Missing(lock, name, need) <==> extra in need.extras && Asks(tree, lock, name, i, extra)
    {
    }
    assert ReportedExtras(tree, lock, name, i) == Lacking(name, need, Missing(lock, name, need));
    hide Active, Missing, Asks, Reported, ReportedExtras, Lacking;
    assert AllReported(tree, lock, name, i, collect)
        == Reported(tree, lock, name, i) + if collect then {} else Lacking(name, need, Missing(lock, name, need));
    hide AllReported;
  }

  // ---- the fixpoint -------------------------------------------------------------------------

  /** The same packages, none with fewer extras. */
  ghost predicate Within(a: Lock, b: Lock) {
    a.Keys == b.Keys && forall name :: name in a ==> a[name] <= b[name]
  }

  /** The smallest lock containing this one that asks for nothing. */
  ghost predicate IsLeastClosed(tree: Tree, lock: Lock, least: Lock) {
    && Within(lock, least)
    && Closed(tree, least)
    && forall other :: Within(lock, other) && Closed(tree, other) ==> Within(least, other)
  }

  /** There is at most one such lock. */
  lemma LeastIsUnique(tree: Tree, lock: Lock, a: Lock, b: Lock)
    requires IsLeastClosed(tree, lock, a) && IsLeastClosed(tree, lock, b)
    ensures a == b
  {
    assert Within(a, b) && Within(b, a);
    forall name | name in a
      ensures a[name] == b[name]
    {
    }
  }

  /** More extras only activate more requirements: whatever is asked for now is installed
      in every closed lock that contains this one. */
  lemma AskedIsInClosed(tree: Tree, lock: Lock, closed: Lock, want: (string, string))
    requires Within(lock, closed) && Closed(tree, closed)
    requires want in AskedFor(tree, lock, lock.Keys)
    ensures want.0 in closed && want.1 in closed[want.0]
  {
    var name :| name in lock && want in AskedBy(tree, lock, name, |Needs(tree, name)|);
    var i: nat :| i < |Needs(tree, name)| && Needs(tree, name)[i].dep == want.0
                  && Asks(tree, lock, name, i, want.1);
    assert Asks(tree, lock, name, i, want.1);
    var need := Needs(tree, name)[i];
    assert name in lock;
    assert need.dep in lock;
    assert Active(need, lock[name]);
    MoreActive(need, lock[name], closed[name]);
    assert !Asks(tree, closed, name, i, want.1);
  }

  lemma MoreActive(need: Requirement, few: set<string>, many: set<string>)
    requires few <= many && Active(need, few)
    ensures Active(need, many)
  {
    var x :| x in need.on && (x == "" || x in few);
    assert x in need.on && (x == "" || x in many);
  }

  lemma AskedIsNew(tree: Tree, lock: Lock, want: (string, string))
    requires want in AskedFor(tree, lock, lock.Keys)
    ensures want.0 in lock && want.1 !in lock[want.0]
    ensures want in Named(tree, lock)
  {
    var name :| name in lock && want in AskedBy(tree, lock, name, |Needs(tree, name)|);
    var i: nat :| i < |Needs(tree, name)| && Needs(tree, name)[i].dep == want.0
                  && Asks(tree, lock, name, i, want.1);
    assert name in tree && tree[name][i] == Needs(tree, name)[i];
  }

  /** Every extra any requirement names: finite, and the same in every round. */
  function Named(tree: Tree, lock: Lock): set<(string, string)> {
    set name, i: nat, extra | name in tree && i < |tree[name]| && extra in tree[name][i].extras
      :: (tree[name][i].dep, extra)
  }

  function Installed(lock: Lock): set<(string, string)> {
    set name, extra | name in lock && extra in lock[name] :: (name, extra)
  }

  lemma AskedInAll(tree: Tree, lock: Lock, name: string, i: int, extra: string)
    requires Asks(tree, lock, name, i, extra)
    ensures (Needs(tree, name)[i].dep, extra) in AskedFor(tree, lock, lock.Keys)
  {
    assert (Needs(tree, name)[i].dep, extra) in AskedBy(tree, lock, name, |Needs(tree, name)|);
  }

  lemma NothingAskedIsClosed(tree: Tree, lock: Lock)
    ensures AskedFor(tree, lock, lock.Keys) == {} <==> Closed(tree, lock)
  {
    if AskedFor(tree, lock, lock.Keys) == {} {
      forall name, i, extra
        ensures !Asks(tree, lock, name, i, extra)
      {
        if Asks(tree, lock, name, i, extra) {
          AskedInAll(tree, lock, name, i, extra);
        }
      }
    } else {
      var want :| want in AskedFor(tree, lock, lock.Keys);
      var name :| name in lock && want in AskedBy(tree, lock, name, |Needs(tree, name)|);
    }
  }

  /** The lock with everything wanted added. */
  function Grown(lock: Lock, wants: set<(string, string)>): Lock {
    map name | name in lock :: lock[name] + Added(wants, name)
  }

  function Added(wants: set<(string, string)>, name: string): set<string> {
    set want | want in wants && want.0 == name :: want.1
  }

  /** One round: the lock grows, strictly, inside every closed lock around it. */
  lemma RoundGrows(tree: Tree, start: Lock, lock: Lock)
    requires Within(start, lock)
    requires forall other :: Within(start, other) && Closed(tree, other) ==> Within(lock, other)
    ensures var wants := AskedFor(tree, lock, lock.Keys); var next := Grown(lock, wants);
            && Within(start, next)
            && (forall other :: Within(start, other) && Closed(tree, other) ==> Within(next, other))
            && (wants != {} ==> Named(tree, next) - Installed(next) < Named(tree, lock) - Installed(lock))
  {
    var wants := AskedFor(tree, lock, lock.Keys);
    var next := Grown(lock, wants);
    forall other | Within(start, other) && Closed(tree, other)
      ensures Within(next, other)
    {
      forall name | name in next
        ensures next[name] <= other[name]
      {
        forall extra | extra in next[name]
          ensures extra in other[name]
        {
          if extra !in lock[name] {
            AskedIsInClosed(tree, lock, other, (name, extra));
          }
        }
      }
    }
    InstalledGrows(lock, wants);
    if wants != {} {
      var want :| want in wants;
      AskedIsNew(tree, lock, want);
      assert want !in Installed(lock) && want in Installed(next);
    }
  }

  lemma InstalledGrows(lock: Lock, wants: set<(string, string)>)
    ensures Installed(lock) <= Installed(Grown(lock, wants))
    ensures forall want :: want in wants && want.0 in lock ==> want in Installed(Grown(lock, wants))
  {
  }

  lemma SmallerSet<T>(a: set<T>, b: set<T>)
    requires a < b
    ensures |a| < |b|
  {
    var x :| x in b && x !in a;
    Subset(a, b - {x});
  }

  lemma {:induction false} Subset<T>(a: set<T>, b: set<T>)
    requires a <= b
    ensures |a| <= |b|
  {
    if a != {} {
      var x :| x in a;
      Subset(a - {x}, b - {x});
    }
  }

  // ---- the main loop ------------------------------------------------------------------------

  /** One pass over the whole lock. */
  method CheckAll(tree: Tree, lock: Lock, collect: bool)
    returns (problems: set<Problem>, wants: set<(string, string)>)
    ensures problems == Problems(tree, lock, lock.Keys, collect)
    ensures wants == if collect then AskedFor(tree, lock, lock.Keys) else {}
  {
    problems, wants := {}, {};
    var todo := lock.Keys;
    while todo != {}
      invariant todo <= lock.Keys
      invariant problems == Problems(tree, lock, lock.Keys - todo, collect)
      invariant wants == if collect then AskedFor(tree, lock, lock.Keys - todo) else {}
      decreases |todo|
    {
      var name :| name in todo;
      OneMore(tree, lock, lock.Keys - todo, name, collect);
      assert lock.Keys - (todo - {name}) == lock.Keys - todo + {name};
      todo := todo - {name};
      var found;
      found, wants := Check(tree, lock, name, collect, wants);
      problems := problems + found;
    }
    assert lock.Keys - todo == lock.Keys;
  }

  lemma OneMore(tree: Tree, lock: Lock, names: set<string>, name: string, collect: bool)
    requires names <= lock.Keys && name in lock
    ensures Problems(tree, lock, names + {name}, collect)
         == Problems(tree, lock, names, collect) + ProblemsOf(tree, lock, name, |Needs(tree, name)|, collect)
    ensures AskedFor(tree, lock, names + {name})
         == AskedFor(tree, lock, names) + AskedBy(tree, lock, name, |Needs(tree, name)|)
  {
    hide ProblemsOf, AskedBy;
  }

  lemma GrownByNothing(lock: Lock)
    ensures Grown(lock, {}) == lock
  {
    forall name | name in lock
      ensures Grown(lock, {})[name] == lock[name]
    {
      assert Added({}, name) == {};
    }
  }

  /** Each package keeps its extras and gains exactly those wanted of it. */
  lemma GrownMeaning(lock: Lock, wants: set<(string, string)>)
    ensures Grown(lock, wants).Keys == lock.Keys
    ensures forall name :: name in lock ==> Grown(lock, wants)[name] == lock[name] + Added(wants, name)
    ensures forall name, extra :: extra in Added(wants, name) <==> (name, extra) in wants
  {
  }

  lemma GrownByOne(lock: Lock, wants: set<(string, string)>, want: (string, string))
    requires want.0 in lock
    ensures var few, more := Grown(lock, wants), Grown(lock, wants + {want});
            few.Keys == lock.Keys && more == few[want.0 := few[want.0] + {want.1}]
  {
    hide Grown, Added;
    var few, more := Grown(lock, wants), Grown(lock, wants + {want});
    GrownMeaning(lock, wants);
    GrownMeaning(lock, wants + {want});
    forall name | name in lock
      ensures more[name] == if name == want.0 then few[name] + {want.1} else few[name]
    {
      AddedOne(wants, want, name);
    }
  }

  lemma AddedOne(wants: set<(string, string)>, want: (string, string), name: string)
    ensures Added(wants + {want}, name) == Added(wants, name) + if want.0 == name then {want.1} else {}
  {
  }

  /** The loop that adds each wanted extra to its package. */
  method Grow(lock: Lock, wants: set<(string, string)>) returns (next: Lock)
    requires forall want :: want in wants ==> want.0 in lock
    ensures next == Grown(lock, wants)
    ensures next.Keys == lock.Keys
    ensures forall name, extra :: name in lock ==>
              (extra in next[name] <==> extra in lock[name] || (name, extra) in wants)
  {
    hide Grown, Added;
    GrownMeaning(lock, wants);
    next := lock;
    var todo := wants;
    GrownByNothing(lock);
    assert wants - wants == {};
    while todo != {}
      invariant todo <= wants && next == Grown(lock, wants - todo)
      decreases |todo|
    {
      var want :| want in todo;
      GrownByOne(lock, wants - todo, want);
      assert wants - (todo - {want}) == wants - todo + {want};
      todo := todo - {want};
      next := next[want.0 := next[want.0] + {want.1}];
    }
    assert wants - todo == wants;
  }

  /** `main`: in the mode that works the extras out, the lock the loop ends with is the
      least closed one and the problems are those of that lock; in the other mode the lock
      is as given, and every extra it lacks is a problem. The loop always ends, because
      each further round installs an extra some requirement names. */
  method Resolve(tree: Tree, given: Lock, rocm: bool) returns (lock: Lock, problems: set<Problem>)
    ensures rocm ==> IsLeastClosed(tree, given, lock)
    ensures !rocm ==> lock == given
    ensures problems == Problems(tree, lock, lock.Keys, rocm)
  {
    lock := given;
    while true
      invariant rocm ==> Within(given, lock)
      invariant rocm ==> forall other :: Within(given, other) && Closed(tree, other) ==> Within(lock, other)
      invariant !rocm ==> lock == given
      decreases |Named(tree, lock) - Installed(lock)|
    {
      var wants;
      problems, wants := CheckAll(tree, lock, rocm);
      if wants == {} {
        break;
      }
      forall want | want in wants
        ensures want.0 in lock
      {
        AskedIsNew(tree, lock, want);
      }
      RoundGrows(tree, given, lock);
      ghost var next := Grown(lock, wants);
      SmallerSet(Named(tree, next) - Installed(next), Named(tree, lock) - Installed(lock));
      lock := Grow(lock, wants);
    }
    NothingAskedIsClosed(tree, lock);
  }

  /** In the other mode, the extras reported are exactly what keeps the lock from being
      closed. */
  lemma ReportedMeansOpen(tree: Tree, lock: Lock)
    ensures Closed(tree, lock)
       <==> forall p :: p in Problems(tree, lock, lock.Keys, false) ==> !p.ExtraNotInstalled?
  {
    if p :| p in Problems(tree, lock, lock.Keys, false) && p.ExtraNotInstalled? {
      var name :| name in lock && p in ProblemsOf(tree, lock, name, |Needs(tree, name)|, false);
      var i: nat :| i < |Needs(tree, name)| && p in AllReported(tree, lock, name, i, false);
      assert Asks(tree, lock, name, i, p.extra);
    }
    if name, i, extra :| Asks(tree, lock, name, i, extra) {
      var p := ExtraNotInstalled(name, Needs(tree, name)[i], extra);
      assert p in AllReported(tree, lock, name, i, false);
      assert p in ProblemsOf(tree, lock, name, |Needs(tree, name)|, false);
      assert p in Problems(tree, lock, lock.Keys, false);
    }
  }

  // ---- in the lock's own terms ----------------------------------------------------------------

  /** The requirement holds without any extra, or for one that is installed. */
  predicate Holds(need: Requirement, extras: set<string>) {
    "" in need.on || need.on * extras != {}
  }

  lemma ActiveMeaning(need: Requirement, extras: set<string>)
    ensures Active(need, extras) <==> Holds(need, extras)
  {
    if need.on * extras != {} {
      var x :| x in need.on * extras;
    }
    if Active(need, extras) {
      var x :| x in need.on && (x == "" || x in extras);
      assert x != "" ==> x in need.on * extras;
    }
  }

  /** A lock is closed exactly when every requirement that holds and whose package is locked
      finds all the extras it names installed. */
  lemma ClosedMeaning(tree: Tree, lock: Lock)
    ensures Closed(tree, lock)
       <==> forall name, need ::
              (name in lock && name in tree && need in tree[name] && Holds(need, lock[name]) && need.dep in lock)
              ==> need.extras <= lock[need.dep]
  {
    if Closed(tree, lock) {
      forall name, need | name in lock && name in tree && need in tree[name]
                          && Holds(need, lock[name]) && need.dep in lock
        ensures need.extras <= lock[need.dep]
      {
        ActiveMeaning(need, lock[name]);
        var i :| 0 <= i < |tree[name]| && tree[name][i] == need;
        forall extra | extra in need.extras
          ensures extra in lock[need.dep]
        {
          assert !Asks(tree, lock, name, i, extra);
        }
      }
    }
    if name, i, extra :| Asks(tree, lock, name, i, extra) {
      var need := Needs(tree, name)[i];
      ActiveMeaning(need, lock[name]);
      assert name in tree && need in tree[name];
    }
  }

  /** A requirement that holds, for a package that is not locked or is locked at a version
      that does not fit, or, where extras are not worked out, for an extra its package lacks. */
  predicate IsProblem(tree: Tree, lock: Lock, collect: bool, p: Problem) {
    && p.name in lock && p.name in tree && p.need in tree[p.name] && Holds(p.need, lock[p.name])
    && match p
       case NotInLock(_, need) => need.dep !in lock
       case WrongVersion(_, need) => need.dep in lock && !need.fits
       case ExtraNotInstalled(_, need, extra) =>
         !collect && need.dep in lock && extra in need.extras && extra !in lock[need.dep]
  }

  /** What is reported is exactly that. */
  lemma ProblemsMeaning(tree: Tree, lock: Lock, collect: bool, p: Problem)
    ensures p in Problems(tree, lock, lock.Keys, collect) <==> IsProblem(tree, lock, collect, p)
  {
    if p.name in lock && p.name in tree {
      ActiveMeaning(p.need, lock[p.name]);
    }
    hide Holds, Active;
    if p in Problems(tree, lock, lock.Keys, collect) {
      var i := ReportOf(tree, lock, collect, p);
    }
    if IsProblem(tree, lock, collect, p) {
      var i :| 0 <= i < |tree[p.name]| && tree[p.name][i] == p.need;
      assert Needs(tree, p.name)[i] == p.need;
      assert p.ExtraNotInstalled? ==> Asks(tree, lock, p.name, i, p.extra);
      OneReport(tree, lock, p.name, i, collect, p);
    }
  }

  lemma ReportOf(tree: Tree, lock: Lock, collect: bool, p: Problem) returns (i: nat)
    requires p in Problems(tree, lock, lock.Keys, collect)
    ensures p.name in lock && i < |Needs(tree, p.name)| && p.need == Needs(tree, p.name)[i]
    ensures p in AllReported(tree, lock, p.name, i, collect)
  {
    hide Active;
    var name :| name in lock && p in ProblemsOf(tree, lock, name, |Needs(tree, name)|, collect);
    i :| i < |Needs(tree, name)| && p in AllReported(tree, lock, name, i, collect);
  }

  lemma OneReport(tree: Tree, lock: Lock, name: string, i: nat, collect: bool, p: Problem)
    requires name in lock && i < |Needs(tree, name)| && p in AllReported(tree, lock, name, i, collect)
    ensures p in Problems(tree, lock, lock.Keys, collect)
  {
    hide AllReported;
    assert p in ProblemsOf(tree, lock, name, |Needs(tree, name)|, collect);
  }
}
