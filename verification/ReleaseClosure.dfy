/**
 The dependency-closure worklist of the release hash lock: `validate_closure` in
 tools/build_release_hash_lock.py.

 Names and extras are canonical already.  Markers and version specifiers are uninterpreted
 predicates: a marker of the one extra that varies, a specifier of the pinned version.
 */
module ReleaseClosure {
  import opened Wrappers

  datatype Requirement = Requirement(
    dependency: string,
    url: bool,
    marker: Option<string -> bool>,
    accepts: string -> bool,
    extras: set<string>)

  datatype Wheel = Wheel(name: string, version: string, requirements: seq<Requirement>, extras: set<string>)

  datatype Verdict =
    | Accepted
    | Duplicate(name: string)
    | DirectUrl(name: string, dependency: string)
    | Missing(name: string, dependency: string)
    | VersionRejected(name: string, dependency: string)
    | ExtrasUndeclared(name: string, dependency: string)

  type Wheels = map<string, Wheel>
  type Extras = map<string, set<string>>

  // ---------------------------------------------------------------- one requirement

  /** A requirement without a marker is active; another one is active when some context satisfies it. */
  predicate Active(r: Requirement, contexts: set<string>) {
    r.marker.None? || exists c :: c in contexts && r.marker.value(c)
  }

  /** The first reason for which an active requirement of `name` stops the lock. */
  function Fault(wheels: Wheels, name: string, r: Requirement): Verdict {
    if r.url then DirectUrl(name, r.dependency)
    else if r.dependency !in wheels then Missing(name, r.dependency)
    else if !r.accepts(wheels[r.dependency].version) then VersionRejected(name, r.dependency)
    else if !(r.extras <= wheels[r.dependency].extras) then ExtrasUndeclared(name, r.dependency)
    else Accepted
  }

  // ---------------------------------------------------------------- the least fixpoint, independently of any queue

  /** The extra `e` of `dependency` is requested by a chain of at most `k` requirements. */
  ghost predicate Derived(wheels: Wheels, k: nat, dependency: string, e: string)
    decreases k, 0
  {
    k > 0 && exists n, r ::
               && n in wheels && r in wheels[n].requirements
               && r.dependency == dependency && e in r.extras
               && DerivedActive(wheels, k - 1, n, r)
  }

  ghost predicate DerivedActive(wheels: Wheels, k: nat, n: string, r: Requirement)
    decreases k, 1
  {
    r.marker.None? || r.marker.value("") || exists c :: Derived(wheels, k, n, c) && r.marker.value(c)
  }

  ghost predicate Requested(wheels: Wheels, n: string, e: string) {
    exists k: nat :: Derived(wheels, k, n, e)
  }

  /** Active in the least assignment of extras. */
  ghost predicate Needed(wheels: Wheels, n: string, r: Requirement) {
    r.marker.None? || r.marker.value("") || exists c :: Requested(wheels, n, c) && r.marker.value(c)
  }

  ghost predicate Acceptable(wheels: Wheels) {
    forall n, r :: n in wheels && r in wheels[n].requirements && Needed(wheels, n, r) ==> Fault(wheels, n, r).Accepted?
  }

  ghost predicate Distinct(ws: seq<Wheel>) {
    forall i, j :: 0 <= i < j < |ws| ==> ws[i].name != ws[j].name
  }

  function Table(ws: seq<Wheel>): Wheels {
    if ws == [] then map[] else Table(ws[..|ws| - 1])[ws[|ws| - 1].name := ws[|ws| - 1]]
  }

  /** What the lock promises: one artifact a name, and no faulty requirement in the least closure. */
  ghost predicate ClosureHolds(ws: seq<Wheel>) {
    Distinct(ws) && Acceptable(Table(ws))
  }

  // ---------------------------------------------------------------- certificates

  ghost predicate Settled(wheels: Wheels, extras: Extras, n: string)
    requires extras.Keys == wheels.Keys && n in wheels
  {
    forall r :: r in wheels[n].requirements && Active(r, {""} + extras[n]) ==>
                  Fault(wheels, n, r).Accepted? && r.extras <= extras[r.dependency]
  }

  /** An assignment of extras that is closed and shows no fault. */
  ghost predicate Certifies(wheels: Wheels, extras: Extras) {
    extras.Keys == wheels.Keys && forall n :: n in wheels ==> Settled(wheels, extras, n)
  }

  lemma {:induction false} CertificateCovers(wheels: Wheels, extras: Extras, k: nat, n: string, e: string)
    requires Certifies(wheels, extras) && Derived(wheels, k, n, e)
    ensures n in wheels && e in extras[n]
    decreases k
  {
    var m, r :| && m in wheels && r in wheels[m].requirements
                && r.dependency == n && e in r.extras
                && DerivedActive(wheels, k - 1, m, r);
    if !r.marker.None? && !r.marker.value("") {
      var c :| Derived(wheels, k - 1, m, c) && r.marker.value(c);
      CertificateCovers(wheels, extras, k - 1, m, c);
      assert c in {""} + extras[m];
    } else {
      assert "" in {""} + extras[m];
    }
    assert Active(r, {""} + extras[m]);
    assert Settled(wheels, extras, m);
  }

  lemma CertifiedIsAcceptable(wheels: Wheels, extras: Extras)
    requires Certifies(wheels, extras)
    ensures Acceptable(wheels)
  {
    forall n, r | n in wheels && r in wheels[n].requirements && Needed(wheels, n, r)
      ensures Fault(wheels, n, r).Accepted?
    {
      if !r.marker.None? && !r.marker.value("") {
        var c :| Requested(wheels, n, c) && r.marker.value(c);
        var k: nat :| Derived(wheels, k, n, c);
        CertificateCovers(wheels, extras, k, n, c);
        assert c in {""} + extras[n];
      } else {
        assert "" in {""} + extras[n];
      }
      assert Settled(wheels, extras, n);
    }
  }

  /** The extras that the least closure requests, among those each wheel declares. */
  ghost function LeastExtras(wheels: Wheels): Extras {
    map n | n in wheels :: set e | e in wheels[n].extras && Requested(wheels, n, e)
  }

  lemma NeededRequests(wheels: Wheels, n: string, r: Requirement, e: string)
    requires n in wheels && r in wheels[n].requirements && Needed(wheels, n, r) && e in r.extras
    ensures Requested(wheels, r.dependency, e)
  {
    var k: nat := 0;
    if !r.marker.None? && !r.marker.value("") {
      var c :| Requested(wheels, n, c) && r.marker.value(c);
      k :| Derived(wheels, k, n, c);
    }
    assert DerivedActive(wheels, k, n, r);
    assert Derived(wheels, k + 1, r.dependency, e);
  }

  lemma ActiveUnderRequestedIsNeeded(wheels: Wheels, n: string, r: Requirement, extras: set<string>)
    requires Active(r, {""} + extras)
    requires forall e :: e in extras ==> Requested(wheels, n, e)
    ensures Needed(wheels, n, r)
  {
  }

  lemma AcceptableIsCertified(wheels: Wheels)
    requires Acceptable(wheels)
    ensures Certifies(wheels, LeastExtras(wheels))
  {
    var extras := LeastExtras(wheels);
    forall n, r | n in wheels && r in wheels[n].requirements && Active(r, {""} + extras[n])
      ensures Fault(wheels, n, r).Accepted? && r.extras <= extras[r.dependency]
    {
      ActiveUnderRequestedIsNeeded(wheels, n, r, extras[n]);
      forall e | e in r.extras ensures e in extras[r.dependency] {
        NeededRequests(wheels, n, r, e);
      }
    }
  }

  /** Acceptance is exactly the existence of one closed, faultless assignment of extras. */
  lemma AcceptableIffCertified(wheels: Wheels)
    ensures Acceptable(wheels) <==> exists extras :: Certifies(wheels, extras)
  {
    if Acceptable(wheels) {
      AcceptableIsCertified(wheels);
    }
    if extras :| Certifies(wheels, extras) {
      CertifiedIsAcceptable(wheels, extras);
    }
  }

  // ---------------------------------------------------------------- order does not matter

  ghost predicate SameRequirements(a: Wheels, b: Wheels) {
    && a.Keys == b.Keys
    && forall n :: n in a ==>
                     && a[n].version == b[n].version && a[n].extras == b[n].extras
                     && forall r :: r in a[n].requirements <==> r in b[n].requirements
  }

  lemma {:induction false} DerivedIgnoresOrder(a: Wheels, b: Wheels, k: nat, n: string, e: string)
    requires SameRequirements(a, b) && Derived(a, k, n, e)
    ensures Derived(b, k, n, e)
    decreases k
  {
    var m, r :| m in a && r in a[m].requirements && r.dependency == n && e in r.extras && DerivedActive(a, k - 1, m, r);
    if !r.marker.None? && !r.marker.value("") {
      var c :| Derived(a, k - 1, m, c) && r.marker.value(c);
      DerivedIgnoresOrder(a, b, k - 1, m, c);
    }
    assert m in b && r in b[m].requirements && DerivedActive(b, k - 1, m, r);
  }

  lemma AcceptableIgnoresRequirementOrder(a: Wheels, b: Wheels)
    requires SameRequirements(a, b) && Acceptable(a)
    ensures Acceptable(b)
  {
    forall n, r | n in b && r in b[n].requirements && Needed(b, n, r)
      ensures Fault(b, n, r).Accepted?
    {
      if !r.marker.None? && !r.marker.value("") {
        var c :| Requested(b, n, c) && r.marker.value(c);
        var k: nat :| Derived(b, k, n, c);
        DerivedIgnoresOrder(b, a, k, n, c);
        assert Requested(a, n, c);
      }
      assert Needed(a, n, r);
      assert Fault(a, n, r).Accepted?;
    }
  }

  lemma {:induction false} TableFacts(ws: seq<Wheel>)
    ensures forall w :: w in ws ==> w.name in Table(ws)
    ensures forall n :: n in Table(ws) ==> Table(ws)[n] in ws && Table(ws)[n].name == n
    decreases |ws|
  {
    if ws != [] {
      var front, last := ws[..|ws| - 1], ws[|ws| - 1];
      TableFacts(front);
      assert forall w :: w in ws <==> w in front || w == last;
    }
  }

  lemma TableLooksUp(ws: seq<Wheel>, w: Wheel)
    requires Distinct(ws) && w in ws
    ensures w.name in Table(ws) && Table(ws)[w.name] == w
  {
    TableFacts(ws);
    var i :| 0 <= i < |ws| && ws[i] == w;
    var j :| 0 <= j < |ws| && ws[j] == Table(ws)[w.name];
    assert i == j;
  }

  lemma DistinctIgnoresOrder(a: seq<Wheel>, b: seq<Wheel>)
    requires multiset(a) == multiset(b) && Distinct(a)
    ensures Distinct(b)
  {
    forall i, j | 0 <= i < j < |b| ensures b[i].name != b[j].name {
      if b[i].name == b[j].name {
        assert b[i] in multiset(b) && b[j] in multiset(b);
        assert b[i] in a && b[j] in a;
        var p :| 0 <= p < |a| && a[p] == b[i];
        var q :| 0 <= q < |a| && a[q] == b[j];
        assert p == q;
        TwoCopies(b, i, j);
        OneCopy(a, p);
        assert false;
      }
    }
  }

  lemma TwoCopies(b: seq<Wheel>, i: nat, j: nat)
    requires i < j < |b| && b[i] == b[j]
    ensures multiset(b)[b[i]] >= 2
  {
    assert b == b[..i] + [b[i]] + b[i + 1..j] + [b[j]] + b[j + 1..];
  }

  lemma OneCopy(a: seq<Wheel>, p: nat)
    requires Distinct(a) && p < |a|
    ensures multiset(a)[a[p]] == 1
  {
    var rest := a[..p] + a[p + 1..];
    assert a == a[..p] + [a[p]] + a[p + 1..];
    assert multiset(a) == multiset(rest) + multiset{a[p]};
    forall s | 0 <= s < |rest| ensures rest[s].name != a[p].name {
      assert rest[s] == if s < p then a[s] else a[s + 1];
    }
  }

  /** Neither the order of the wheels nor that of their requirements can change the verdict. */
  lemma VerdictIgnoresOrder(a: seq<Wheel>, b: seq<Wheel>, c: seq<Wheel>)
    requires multiset(a) == multiset(b)
    requires |b| == |c|
    requires forall i :: 0 <= i < |b| ==> SameWheel(b[i], c[i])
    ensures ClosureHolds(a) == ClosureHolds(c)
  {
    SameNames(b, c);
    if Distinct(b) {
      DistinctIgnoresOrder(b, a);
      PermutedTables(a, b);
      SameTables(b, c);
      if Acceptable(Table(b)) { AcceptableIgnoresRequirementOrder(Table(b), Table(c)); }
      if Acceptable(Table(c)) { AcceptableIgnoresRequirementOrder(Table(c), Table(b)); }
    } else if Distinct(a) {
      DistinctIgnoresOrder(a, b);
    }
  }

  lemma SameNames(b: seq<Wheel>, c: seq<Wheel>)
    requires |b| == |c| && forall i :: 0 <= i < |b| ==> SameWheel(b[i], c[i])
    ensures Distinct(b) == Distinct(c)
  {
    assert forall i :: 0 <= i < |b| ==> SameWheel(b[i], c[i]) && b[i].name == c[i].name;
  }

  lemma TableWithin(a: seq<Wheel>, b: seq<Wheel>)
    requires Distinct(b) && forall w :: w in a ==> w in b
    ensures forall n :: n in Table(a) ==> n in Table(b) && Table(b)[n] == Table(a)[n]
  {
    TableFacts(a);
    forall n | n in Table(a) ensures n in Table(b) && Table(b)[n] == Table(a)[n] {
      TableLooksUp(b, Table(a)[n]);
    }
  }

  lemma PermutedTables(a: seq<Wheel>, b: seq<Wheel>)
    requires multiset(a) == multiset(b) && Distinct(a) && Distinct(b)
    ensures Table(a) == Table(b)
  {
    forall w ensures w in a <==> w in b {
      assert w in a <==> w in multiset(a);
      assert w in b <==> w in multiset(b);
    }
    TableWithin(a, b);
    TableWithin(b, a);
  }

  ghost predicate SameWheel(w: Wheel, v: Wheel) {
    && w.name == v.name && w.version == v.version && w.extras == v.extras
    && multiset(w.requirements) == multiset(v.requirements)
  }

  lemma SameEntry(b: seq<Wheel>, c: seq<Wheel>, i: nat)
    requires i < |b| == |c| && Distinct(b) && Distinct(c) && SameWheel(b[i], c[i])
    ensures b[i].name in Table(b) && b[i].name in Table(c)
    ensures Table(b)[b[i].name] == b[i] && Table(c)[b[i].name] == c[i]
    ensures forall r :: r in b[i].requirements <==> r in c[i].requirements
  {
    TableLooksUp(b, b[i]);
    TableLooksUp(c, c[i]);
    forall r ensures r in b[i].requirements <==> r in c[i].requirements {
      assert r in b[i].requirements <==> r in multiset(b[i].requirements);
      assert r in c[i].requirements <==> r in multiset(c[i].requirements);
    }
  }

  lemma SameTables(b: seq<Wheel>, c: seq<Wheel>)
    requires |b| == |c| && Distinct(b) && Distinct(c)
    requires forall i :: 0 <= i < |b| ==> SameWheel(b[i], c[i])
    ensures SameRequirements(Table(b), Table(c))
  {
    TableFacts(b);
    TableFacts(c);
    forall n | n in Table(b) || n in Table(c)
      ensures n in Table(b) && n in Table(c)
      ensures Table(b)[n].version == Table(c)[n].version && Table(b)[n].extras == Table(c)[n].extras
      ensures forall r :: r in Table(b)[n].requirements <==> r in Table(c)[n].requirements
    {
      var i :| 0 <= i < |b| && b[i].name == n;
      SameEntry(b, c, i);
    }
  }

  // ---------------------------------------------------------------- how often the queue is popped

  ghost function DeclaredExtras(ws: seq<Wheel>): nat {
    if ws == [] then 0 else |ws[0].extras| + DeclaredExtras(ws[1..])
  }

  ghost predicate Covers(ws: seq<Wheel>, extras: Extras) {
    forall w :: w in ws ==> w.name in extras
  }

  ghost function GrantedExtras(ws: seq<Wheel>, extras: Extras): nat
    requires Covers(ws, extras)
  {
    if ws == [] then 0 else |extras[ws[0].name]| + GrantedExtras(ws[1..], extras)
  }

  lemma {:induction false} GrantedWithinDeclared(ws: seq<Wheel>, extras: Extras)
    requires Covers(ws, extras) && forall w :: w in ws ==> extras[w.name] <= w.extras
    ensures GrantedExtras(ws, extras) <= DeclaredExtras(ws)
  {
    if ws != [] {
      SubsetSize(extras[ws[0].name], ws[0].extras);
      GrantedWithinDeclared(ws[1..], extras);
    }
  }

  lemma SubsetSize(a: set<string>, b: set<string>)
    requires a <= b
    ensures |a| <= |b| && (a != b ==> |a| < |b|)
  {
    assert b == a + (b - a);
    assert a != b ==> b - a != {};
  }

  lemma {:induction false} GrantGrows(ws: seq<Wheel>, before: Extras, after: Extras, n: string)
    requires Covers(ws, before) && Covers(ws, after) && forall w :: w in ws ==> before[w.name] <= after[w.name]
    ensures GrantedExtras(ws, before) <= GrantedExtras(ws, after)
    ensures (exists w :: w in ws && w.name == n && before[n] != after[n]) ==>
              GrantedExtras(ws, before) < GrantedExtras(ws, after)
  {
    if ws != [] {
      SubsetSize(before[ws[0].name], after[ws[0].name]);
      GrantGrows(ws[1..], before, after, n);
      assert forall w :: w in ws <==> w == ws[0] || w in ws[1..];
    }
  }

  lemma {:induction false} NothingGranted(ws: seq<Wheel>, extras: Extras)
    requires Covers(ws, extras) && forall w :: w in ws ==> extras[w.name] == {}
    ensures GrantedExtras(ws, extras) == 0
  {
    if ws != [] { NothingGranted(ws[1..], extras); }
  }

  // ---------------------------------------------------------------- the worklist itself

  /** Between two queue entries every wheel that is not waiting in the queue owes nothing. */
  ghost predicate Progress(wheels: Wheels, extras: Extras, queue: seq<string>) {
    && extras.Keys == wheels.Keys
    && (forall m :: m in queue ==> m in wheels)
    && (forall m {:trigger Settled(wheels, extras, m)} :: m in wheels && m !in queue ==> Settled(wheels, extras, m))
    && (forall m :: m in wheels ==> extras[m] <= wheels[m].extras)
    && (forall m, e {:trigger Requested(wheels, m, e)} :: m in wheels && e in extras[m] ==> Requested(wheels, m, e))
  }

  lemma GrantKeepsProgress(wheels: Wheels, extras: Extras, queue: seq<string>, name: string,
                           r: Requirement, added: set<string>)
    requires Progress(wheels, extras, queue)
    requires name in wheels && r in wheels[name].requirements && Needed(wheels, name, r)
    requires Fault(wheels, name, r).Accepted? && added <= r.extras
    ensures Progress(wheels, extras[r.dependency := extras[r.dependency] + added], queue + [r.dependency])
  {
    var grown := extras[r.dependency := extras[r.dependency] + added];
    forall e | e in added ensures Requested(wheels, r.dependency, e) {
      NeededRequests(wheels, name, r, e);
    }
    forall m | m in wheels && m !in queue + [r.dependency]
      ensures Settled(wheels, grown, m)
    {
      assert m !in queue && r.dependency in queue + [r.dependency];
      assert grown[m] == extras[m];
      assert Settled(wheels, extras, m);
    }
  }

  /** An entry whose extras did not grow while it was processed leaves the queue for good. */
  lemma RetireEntry(wheels: Wheels, extras: Extras, name: string, queue: seq<string>)
    requires name in wheels && Progress(wheels, extras, [name] + queue)
    requires name !in queue ==> Settled(wheels, extras, name)
    ensures Progress(wheels, extras, queue)
  {
    forall m | m in wheels && m !in queue ensures Settled(wheels, extras, m) {
      if m != name { assert m !in [name] + queue; }
    }
    assert forall m :: m in queue ==> m in [name] + queue;
  }

  lemma DistinctGrows(front: seq<Wheel>, w: Wheel)
    requires Distinct(front) && forall v :: v in front ==> v.name != w.name
    ensures Distinct(front + [w])
  {
    var longer := front + [w];
    forall j, k | 0 <= j < k < |longer| ensures longer[j].name != longer[k].name {
      assert front[j] in front && longer[j] == front[j];
    }
  }

  lemma {:induction false} TableGrows(front: seq<Wheel>, w: Wheel)
    requires Distinct(front)
    ensures Table(front + [w]) == Table(front)[w.name := w]
    ensures w.name !in Table(front) ==> Distinct(front + [w])
  {
    assert (front + [w])[..|front|] == front;
    TableFacts(front);
    if w.name !in Table(front) { DistinctGrows(front, w); }
  }

  lemma Clash(artifacts: seq<Wheel>, i: nat)
    requires i < |artifacts| && artifacts[i].name in Table(artifacts[..i])
    ensures !Distinct(artifacts) && exists j :: 0 <= j < i && artifacts[j].name == artifacts[i].name
  {
    var front := artifacts[..i];
    TableFacts(front);
    var j :| 0 <= j < i && front[j] == Table(front)[artifacts[i].name];
    assert artifacts[j].name == artifacts[i].name;
  }

  /** The first loop: every artifact once, in order of supply. */
  method Enroll(artifacts: seq<Wheel>) returns (wheels: Wheels, pending: seq<string>, duplicate: Option<string>)
    ensures duplicate.None? <==> Distinct(artifacts)
    ensures duplicate.Some? ==>
              exists i, j :: 0 <= i < j < |artifacts| && artifacts[i].name == artifacts[j].name == duplicate.value
    ensures duplicate.None? ==> wheels == Table(artifacts) && |pending| == |artifacts|
    ensures duplicate.None? ==> forall m :: m in wheels <==> m in pending
  {
    wheels, pending, duplicate := map[], [], None;
    for i := 0 to |artifacts|
      invariant wheels == Table(artifacts[..i]) && Distinct(artifacts[..i])
      invariant |pending| == i && duplicate.None?
      invariant forall m :: m in wheels <==> m in pending
    {
      TableGrows(artifacts[..i], artifacts[i]);
      assert artifacts[..i + 1] == artifacts[..i] + [artifacts[i]];
      if artifacts[i].name in wheels {
        Clash(artifacts, i);
        return wheels, pending, Some(artifacts[i].name);
      }
      wheels := wheels[artifacts[i].name := artifacts[i]];
      pending := pending + [artifacts[i].name];
    }
    assert artifacts[..|artifacts|] == artifacts;
  }

  ghost predicate Grew(before: Extras, after: Extras) {
    before.Keys == after.Keys && forall m :: m in before ==> before[m] <= after[m]
  }

  /** The verdict is the fault of a requirement of `name` that the least closure needs. */
  ghost predicate Condemns(wheels: Wheels, name: string, verdict: Verdict) {
    && name in wheels && !verdict.Accepted? && !verdict.Duplicate?
    && exists r :: r in wheels[name].requirements && Needed(wheels, name, r) && Fault(wheels, name, r) == verdict
  }

  lemma FaultCondemns(wheels: Wheels, name: string, r: Requirement)
    requires name in wheels && r in wheels[name].requirements && Needed(wheels, name, r)
    requires !Fault(wheels, name, r).Accepted?
    ensures Condemns(wheels, name, Fault(wheels, name, r))
  {
  }

  lemma CondemnedIsUnacceptable(wheels: Wheels, name: string, verdict: Verdict)
    requires Condemns(wheels, name, verdict)
    ensures !Acceptable(wheels)
  {
    var r :| r in wheels[name].requirements && Needed(wheels, name, r) && Fault(wheels, name, r) == verdict;
  }

  /** In these contexts `name` owes nothing for its first requirements. */
  ghost predicate Paid(wheels: Wheels, extras: Extras, name: string, contexts: set<string>,
                       requirements: seq<Requirement>, n: nat)
    requires extras.Keys == wheels.Keys && n <= |requirements|
  {
    forall j :: 0 <= j < n ==> Owes(wheels, extras, name, contexts, requirements[j]) == false
  }

  ghost predicate Owes(wheels: Wheels, extras: Extras, name: string, contexts: set<string>, r: Requirement)
    requires extras.Keys == wheels.Keys
  {
    Active(r, contexts) && !(Fault(wheels, name, r).Accepted? && r.extras <= extras[r.dependency])
  }

  lemma GrewKeepsPaid(wheels: Wheels, before: Extras, after: Extras, name: string, contexts: set<string>,
                      requirements: seq<Requirement>, n: nat)
    requires before.Keys == wheels.Keys && Grew(before, after) && n <= |requirements|
    requires Paid(wheels, before, name, contexts, requirements, n)
    ensures Paid(wheels, after, name, contexts, requirements, n)
  {
    forall j | 0 <= j < n ensures !Owes(wheels, after, name, contexts, requirements[j]) {
      assert !Owes(wheels, before, name, contexts, requirements[j]);
    }
  }

  lemma PaidIsSettled(wheels: Wheels, extras: Extras, name: string)
    requires name in wheels && extras.Keys == wheels.Keys
    requires Paid(wheels, extras, name, {""} + extras[name], wheels[name].requirements, |wheels[name].requirements|)
    ensures Settled(wheels, extras, name)
  {
    forall r | r in wheels[name].requirements && Active(r, {""} + extras[name])
      ensures Fault(wheels, name, r).Accepted? && r.extras <= extras[r.dependency]
    {
      assert !Owes(wheels, extras, name, {""} + extras[name], r);
    }
  }

  /** The queue state that the loop over one entry's requirements keeps. */
  ghost predicate Working(artifacts: seq<Wheel>, wheels: Wheels, extras: Extras, queue: seq<string>, name: string) {
    && Distinct(artifacts) && wheels == Table(artifacts) && name in wheels
    && Progress(wheels, extras, [name] + queue) && Covers(artifacts, extras)
  }

  /** What a step over the entry `name` may do: grant extras, and queue their owners at most once for each extra. */
  ghost predicate Advance(artifacts: seq<Wheel>, before: Extras, queue: seq<string>,
                          after: Extras, pending: seq<string>, name: string) {
    && Covers(artifacts, before) && Covers(artifacts, after) && Grew(before, after)
    && name in before && (name !in pending ==> after[name] == before[name] && name !in queue)
    && GrantedExtras(artifacts, after) - GrantedExtras(artifacts, before) >= |pending| - |queue| >= 0
  }

  /** The extras of one active, faultless requirement are granted and their owner is queued again. */
  method GrantExtras(ghost artifacts: seq<Wheel>, ghost wheels: Wheels, before: Extras, queue: seq<string>,
                     ghost name: string, r: Requirement)
    returns (extras: Extras, pending: seq<string>)
    requires Working(artifacts, wheels, before, queue, name)
    requires r in wheels[name].requirements && Needed(wheels, name, r) && Fault(wheels, name, r).Accepted?
    ensures Working(artifacts, wheels, extras, pending, name)
    ensures Advance(artifacts, before, queue, extras, pending, name)
    ensures r.extras <= extras[r.dependency]
  {
    TableFacts(artifacts);
    extras, pending := before, queue;
    var added := r.extras - extras[r.dependency];
    if added != {} {
      GrantKeepsProgress(wheels, extras, [name] + pending, name, r, added);
      extras := extras[r.dependency := extras[r.dependency] + added];
      GrantGrows(artifacts, before, extras, r.dependency);
      assert wheels[r.dependency] in artifacts && before[r.dependency] != extras[r.dependency];
      assert [name] + (pending + [r.dependency]) == [name] + pending + [r.dependency];
      pending := pending + [r.dependency];
      assert r.dependency in pending;
    }
  }

  method ProcessRequirement(ghost artifacts: seq<Wheel>, wheels: Wheels, before: Extras, queue: seq<string>,
                            name: string, contexts: set<string>, r: Requirement)
    returns (fault: Verdict, extras: Extras, pending: seq<string>)
    requires Working(artifacts, wheels, before, queue, name) && r in wheels[name].requirements
    requires contexts <= {""} + before[name]
    ensures !fault.Accepted? ==> Condemns(wheels, name, fault)
    ensures Working(artifacts, wheels, extras, pending, name)
    ensures Advance(artifacts, before, queue, extras, pending, name)
    ensures fault.Accepted? ==> !Owes(wheels, extras, name, contexts, r)
  {
    fault, extras, pending := Accepted, before, queue;
    if Active(r, contexts) {
      ActiveUnderRequestedIsNeeded(wheels, name, r, before[name]);
      fault := Fault(wheels, name, r);
      if !fault.Accepted? {
        FaultCondemns(wheels, name, r);
        return;
      }
      extras, pending := GrantExtras(artifacts, wheels, extras, pending, name, r);
    }
  }

  lemma AdvanceTwice(artifacts: seq<Wheel>, e0: Extras, q0: seq<string>, e1: Extras, q1: seq<string>,
                     e2: Extras, q2: seq<string>, name: string)
    requires Advance(artifacts, e0, q0, e1, q1, name) && Advance(artifacts, e1, q1, e2, q2, name)
    ensures Advance(artifacts, e0, q0, e2, q2, name)
  {
  }

  lemma FinishEntry(artifacts: seq<Wheel>, wheels: Wheels, extras: Extras, pending: seq<string>, name: string,
                    contexts: set<string>)
    requires Working(artifacts, wheels, extras, pending, name)
    requires Paid(wheels, extras, name, contexts, wheels[name].requirements, |wheels[name].requirements|)
    requires name !in pending ==> contexts == {""} + extras[name]
    ensures Progress(wheels, extras, pending)
  {
    if name !in pending { PaidIsSettled(wheels, extras, name); }
    RetireEntry(wheels, extras, name, pending);
  }

  /** One queue entry: every requirement of `name` under the contexts known when it was popped. */
  method ProcessEntry(ghost artifacts: seq<Wheel>, wheels: Wheels, before: Extras, queue: seq<string>, name: string)
    returns (fault: Verdict, extras: Extras, pending: seq<string>)
    requires Working(artifacts, wheels, before, queue, name)
    ensures !fault.Accepted? ==> Condemns(wheels, name, fault)
    ensures Covers(artifacts, before) && Covers(artifacts, extras)
    ensures fault.Accepted? ==>
              && Progress(wheels, extras, pending)
              && GrantedExtras(artifacts, extras) - GrantedExtras(artifacts, before) >= |pending| - |queue| >= 0
  {
    fault, extras, pending := Accepted, before, queue;
    var requirements := wheels[name].requirements;
    var contexts := {""} + extras[name];
    for i := 0 to |requirements|
      invariant fault.Accepted? && Working(artifacts, wheels, extras, pending, name)
      invariant Advance(artifacts, before, queue, extras, pending, name)
      invariant Paid(wheels, extras, name, contexts, requirements, i)
    {
      var granted, waiting;
      fault, granted, waiting := ProcessRequirement(artifacts, wheels, extras, pending, name, contexts, requirements[i]);
      if !fault.Accepted? { return; }
      GrewKeepsPaid(wheels, extras, granted, name, contexts, requirements, i);
      AdvanceTwice(artifacts, before, queue, extras, pending, granted, waiting, name);
      extras, pending := granted, waiting;
    }
    FinishEntry(artifacts, wheels, extras, pending, name, contexts);
  }

  /** The queue is popped until it is empty or a fault is found. */
  method Drain(ghost artifacts: seq<Wheel>, wheels: Wheels, queue: seq<string>) returns (verdict: Verdict, ghost pops: nat)
    requires Distinct(artifacts) && wheels == Table(artifacts)
    requires |queue| == |artifacts| && forall m :: m in wheels <==> m in queue
    ensures verdict.Accepted? ==> Acceptable(wheels)
    ensures !verdict.Accepted? ==> exists name :: Condemns(wheels, name, verdict)
    ensures pops <= |artifacts| + DeclaredExtras(artifacts)
  {
    pops := 0;
    var pending := queue;
    TableFacts(artifacts);
    var extras: Extras := map n | n in wheels :: {};
    NothingGranted(artifacts, extras);
    GrantedWithinDeclared(artifacts, extras);
    while pending != []
      invariant Progress(wheels, extras, pending)
      invariant Covers(artifacts, extras)
      invariant pops + |pending| <= |artifacts| + GrantedExtras(artifacts, extras)
      invariant GrantedExtras(artifacts, extras) <= DeclaredExtras(artifacts)
      decreases DeclaredExtras(artifacts) - GrantedExtras(artifacts, extras), |pending|
    {
      var name := pending[0];
      assert pending == [name] + pending[1..];
      pops := pops + 1;
      verdict, extras, pending := ProcessEntry(artifacts, wheels, extras, pending[1..], name);
      if !verdict.Accepted? {
        assert Condemns(wheels, name, verdict);
        return;
      }
      GrantedWithinDeclared(artifacts, extras);
    }
    CertifiedIsAcceptable(wheels, extras);
    verdict := Accepted;
  }

  /** Exactly the needed requirements that meet all four conditions are faultless. */
  lemma AcceptableExactly(wheels: Wheels)
    ensures Acceptable(wheels) <==>
            forall n, r :: n in wheels && r in wheels[n].requirements && Needed(wheels, n, r) ==>
                             && !r.url && r.dependency in wheels
                             && r.accepts(wheels[r.dependency].version)
                             && r.extras <= wheels[r.dependency].extras
  {
    forall n, r | n in wheels && r in wheels[n].requirements
      ensures Fault(wheels, n, r).Accepted? <==>
              && !r.url && r.dependency in wheels
              && r.accepts(wheels[r.dependency].version) && r.extras <= wheels[r.dependency].extras
    {
    }
  }

  /** A verdict shows the defect of some needed requirement, the first one in the order of the tests. */
  lemma VerdictShowsTheDefect(wheels: Wheels, verdict: Verdict)
    requires exists name :: Condemns(wheels, name, verdict)
    ensures !verdict.Accepted? && !verdict.Duplicate? && verdict.name in wheels
    ensures exists r :: && r in wheels[verdict.name].requirements && Needed(wheels, verdict.name, r)
                        && r.dependency == verdict.dependency
                        && match verdict {
                             case DirectUrl(_, _) => r.url
                             case Missing(_, d) => !r.url && d !in wheels
                             case VersionRejected(_, d) => !r.url && d in wheels && !r.accepts(wheels[d].version)
                             case ExtrasUndeclared(_, d) =>
                               !r.url && d in wheels && r.accepts(wheels[d].version) && !(r.extras <= wheels[d].extras)
                             case _ => false
                           }
  {
    var name :| Condemns(wheels, name, verdict);
    var r :| r in wheels[name].requirements && Needed(wheels, name, r) && Fault(wheels, name, r) == verdict;
    assert verdict.name == name && r.dependency == verdict.dependency;
  }

  method ValidateClosure(selected: seq<Wheel>, provided: seq<Wheel>) returns (verdict: Verdict, ghost pops: nat)
    ensures verdict.Accepted? <==>
            && (forall i, j :: 0 <= i < j < |selected + provided| ==> (selected + provided)[i].name != (selected + provided)[j].name)
            && var wheels := Table(selected + provided);
               forall n, r :: n in wheels && r in wheels[n].requirements && Needed(wheels, n, r) ==>
                                && !r.url && r.dependency in wheels
                                && r.accepts(wheels[r.dependency].version)
                                && r.extras <= wheels[r.dependency].extras
    ensures verdict.Accepted? <==> ClosureHolds(selected + provided)
    ensures verdict.Duplicate? <==> !Distinct(selected + provided)
    ensures verdict.Duplicate? ==>
              exists i, j :: && 0 <= i < j < |selected + provided|
                             && (selected + provided)[i].name == (selected + provided)[j].name == verdict.name
    ensures !verdict.Accepted? && !verdict.Duplicate? ==>
              var wheels := Table(selected + provided);
              && verdict.name in wheels
              && exists r :: && r in wheels[verdict.name].requirements && Needed(wheels, verdict.name, r)
                             && r.dependency == verdict.dependency
                             && match verdict {
                                  case DirectUrl(_, _) => r.url
                                  case Missing(_, d) => !r.url && d !in wheels
                                  case VersionRejected(_, d) => !r.url && d in wheels && !r.accepts(wheels[d].version)
                                  case ExtrasUndeclared(_, d) =>
                                    !r.url && d in wheels && r.accepts(wheels[d].version) && !(r.extras <= wheels[d].extras)
                                  case _ => false
                                }
    ensures pops <= |selected + provided| + DeclaredExtras(selected + provided)
  {
    var artifacts := selected + provided;
    AcceptableExactly(Table(artifacts));
    var wheels, pending, duplicate := Enroll(artifacts);
    if duplicate.Some? { return Duplicate(duplicate.value), 0; }
    verdict, pops := Drain(artifacts, wheels, pending);
    if name :| Condemns(wheels, name, verdict) {
      CondemnedIsUnacceptable(wheels, name, verdict);
      VerdictShowsTheDefect(wheels, verdict);
    }
  }
}
