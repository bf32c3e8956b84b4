/** The manager/subordinate hierarchy (`app/utils/hierarchy.py`).

    Every user row may name a manager; `u.subordinates` is the reverse
    relation. `get_all_subordinate_ids` walks it depth first with no visited
    set, so it only terminates when the manager graph has no cycle. The model
    makes that explicit: `Acyclic(users)` says some rank strictly decreases
    from every manager to each of its subordinates, and that rank is the
    termination measure of the walk. */
module Hierarchy {
  import opened Basics
  import opened Entities
  import opened Seqs

  /** `u.subordinates` for a user with primary key `id`: the users whose
      `manager_id` is `id`, in table order. */
  function Subordinates(users: seq<User>, id: int): seq<User> {
    Filter(users, (u: User) => u.managerId == Some(id))
  }

  /** `rank` strictly decreases along every manager-to-subordinate link. */
  ghost predicate Ranked(users: seq<User>, rank: int -> nat) {
    forall u :: u in users && u.managerId.Some? ==> rank(u.id) < rank(u.managerId.value)
  }

  /** The manager graph has no cycle (a finite graph has a decreasing rank iff it is acyclic). */
  ghost predicate Acyclic(users: seq<User>) {
    exists rank: int -> nat :: Ranked(users, rank)
  }

  /** One rank witnessing `Acyclic`; the termination measure of the walk. */
  ghost function Rank(users: seq<User>): (rank: int -> nat)
    requires Acyclic(users)
    ensures Ranked(users, rank)
  {
    var rank :| Ranked(users, rank); rank
  }

  /** `collect(u)` for the user with primary key `id`: for each subordinate in
      turn, its id followed by everything collected below it (preorder). */
  function Collect(users: seq<User>, id: int): seq<int>
    requires Acyclic(users)
    decreases Rank(users)(id), 1
  {
    CollectAll(users, id, Subordinates(users, id))
  }

  /** The ids collected for the first `|subs|` subordinates of `id`. */
  function CollectAll(users: seq<User>, id: int, subs: seq<User>): seq<int>
    requires Acyclic(users)
    requires forall s :: s in subs ==> s in users && s.managerId == Some(id)
    decreases Rank(users)(id), 0, |subs|
  {
    if subs == [] then []
    else
      var last := subs[|subs| - 1];
      CollectAll(users, id, subs[..|subs| - 1]) + [last.id] + Collect(users, last.id)
  }

  /** `get_all_subordinate_ids(user)`: empty for no user, the walk otherwise. */
  function SubordinateIds(users: seq<User>, user: Option<User>): seq<int>
    requires Acyclic(users)
  {
    if user.None? then [] else Collect(users, user.value.id)
  }

  /** The imperative walk of `get_all_subordinate_ids`: `collect(u)` appends each
      subordinate's id to the shared list `ids` and then recurses into it. */
  method CollectInto(users: seq<User>, id: int, ids: seq<int>) returns (out: seq<int>)
    requires Acyclic(users)
    ensures out == ids + Collect(users, id)
    decreases Rank(users)(id)
  {
    var subs := Subordinates(users, id);
    SubordinatesLinked(users, id);
    out := ids;
    for i := 0 to |subs|
      invariant out == ids + CollectAll(users, id, subs[..i])
    {
      CollectAllStep(users, id, subs, i);
      AppendAssoc(ids, CollectAll(users, id, subs[..i]), [subs[i].id], Collect(users, subs[i].id));
      out := out + [subs[i].id];
      out := CollectInto(users, subs[i].id, out);
    }
    assert subs[..|subs|] == subs;
    assert Collect(users, id) == CollectAll(users, id, subs);
  }

  /** Appending is associative (a step of the walk's invariant). */
  lemma AppendAssoc(a: seq<int>, b: seq<int>, c: seq<int>, d: seq<int>)
    ensures a + b + c + d == a + (b + c + d)
  {
  }

  /** The subordinates of `id` are user rows that name `id` as their manager. */
  lemma SubordinatesLinked(users: seq<User>, id: int)
    ensures forall s :: s in Subordinates(users, id) ==> s in users && s.managerId == Some(id)
  {
  }

  /** One more subordinate visited: the partial walk grows by its id and subtree. */
  lemma CollectAllStep(users: seq<User>, id: int, subs: seq<User>, i: nat)
    requires Acyclic(users)
    requires forall s :: s in subs ==> s in users && s.managerId == Some(id)
    requires i < |subs|
    ensures CollectAll(users, id, subs[..i + 1])
      == CollectAll(users, id, subs[..i]) + [subs[i].id] + Collect(users, subs[i].id)
    ensures Rank(users)(subs[i].id) < Rank(users)(id)
  {
    assert subs[..i + 1][..i] == subs[..i];
    assert subs[i] in subs;
  }

  /** `get_all_subordinate_ids`. */
  method GetAllSubordinateIds(users: seq<User>, user: Option<User>) returns (ids: seq<int>)
    requires Acyclic(users)
    ensures ids == SubordinateIds(users, user)
  {
    if user.None? {
      return [];
    }
    ids := CollectInto(users, user.value.id, []);
  }

  /** `can_assign_task(assigner, assignee)`. */
  function CanAssignTask(users: seq<User>, assigner: Option<User>, assignee: Option<User>): bool
    requires Acyclic(users)
  {
    if assigner.None? || assignee.None? then false
    else if IsAdmin(assigner.value) then true
    else if assigner.value.id == assignee.value.id then true
    else assignee.value.id in SubordinateIds(users, assigner)
  }

  // ---------------------------------------------------------------------
  // Reachability: what the walk collects

  /** Some user row with primary key `s` names `m` as its manager. */
  ghost predicate Link(users: seq<User>, m: int, s: int) {
    exists u :: u in users && u.id == s && u.managerId == Some(m)
  }

  /** A path that follows manager-to-subordinate links. */
  ghost predicate IsChain(users: seq<User>, p: seq<int>) {
    forall i :: 0 <= i < |p| - 1 ==> Link(users, p[i], p[i + 1])
  }

  /** `x` is reached from `a` by following one or more subordinate links. */
  ghost predicate ReportsTo(users: seq<User>, x: int, a: int) {
    exists p :: |p| >= 2 && p[0] == a && p[|p| - 1] == x && IsChain(users, p)
  }

  /** What a partial walk over `subs` has collected: each subordinate's id and its subtree. */
  lemma {:induction false} CollectAllMembers(users: seq<User>, id: int, subs: seq<User>, x: int)
    requires Acyclic(users)
    requires forall s :: s in subs ==> s in users && s.managerId == Some(id)
    ensures x in CollectAll(users, id, subs) <==>
      exists s :: s in subs && (x == s.id || x in Collect(users, s.id))
    decreases |subs|
  {
    if subs != [] {
      var init := subs[..|subs| - 1];
      CollectAllMembers(users, id, init, x);
      assert subs == init + [subs[|subs| - 1]];
    }
  }

  /** What the walk from `id` collects: each direct subordinate's id and its subtree. */
  lemma CollectMembers(users: seq<User>, id: int, x: int)
    requires Acyclic(users)
    ensures x in Collect(users, id) <==>
      exists s :: s in users && s.managerId == Some(id) && (x == s.id || x in Collect(users, s.id))
  {
    CollectAllMembers(users, id, Subordinates(users, id), x);
  }

  /** Soundness: every collected id is reached by following subordinate links. */
  lemma {:induction false} CollectSound(users: seq<User>, a: int, x: int)
    requires Acyclic(users)
    requires x in Collect(users, a)
    ensures ReportsTo(users, x, a)
    decreases Rank(users)(a)
  {
    CollectMembers(users, a, x);
    var s :| s in users && s.managerId == Some(a) && (x == s.id || x in Collect(users, s.id));
    if x != s.id {
      CollectSound(users, s.id, x);
    }
    ReportsToCons(users, a, s, x);
  }

  /** A subordinate, and everyone who reports to it, reports to its manager. */
  lemma ReportsToCons(users: seq<User>, a: int, s: User, x: int)
    requires s in users && s.managerId == Some(a)
    requires x == s.id || ReportsTo(users, x, s.id)
    ensures ReportsTo(users, x, a)
  {
    assert Link(users, a, s.id);
    var p := [x];
    if x != s.id {
      p :| |p| >= 2 && p[0] == s.id && p[|p| - 1] == x && IsChain(users, p);
    }
    ChainCons(users, a, p);
    var q := [a] + p;
    assert q[|q| - 1] == x;
  }

  /** A link from `a` to the head of a chain extends the chain at the front. */
  lemma ChainCons(users: seq<User>, a: int, p: seq<int>)
    requires p != [] && Link(users, a, p[0]) && IsChain(users, p)
    ensures IsChain(users, [a] + p)
  {
    var q := [a] + p;
    forall i | 0 <= i < |q| - 1 ensures Link(users, q[i], q[i + 1]) {
      if i > 0 {
        assert q[i] == p[i - 1] && q[i + 1] == p[i];
      }
    }
  }

  /** Completeness: every id reached by following subordinate links is collected. */
  lemma {:induction false} CollectComplete(users: seq<User>, p: seq<int>)
    requires Acyclic(users)
    requires |p| >= 2 && IsChain(users, p)
    ensures p[|p| - 1] in Collect(users, p[0])
    decreases |p|
  {
    assert Link(users, p[0], p[1]);
    var s :| s in users && s.id == p[1] && s.managerId == Some(p[0]);
    if |p| == 2 {
      CollectMembers(users, p[0], p[1]);
    } else {
      var q := p[1..];
      assert IsChain(users, q) by {
        forall i | 0 <= i < |q| - 1 ensures Link(users, q[i], q[i + 1]) {
          assert q[i] == p[i + 1] && q[i + 1] == p[i + 2];
        }
      }
      CollectComplete(users, q);
      CollectMembers(users, p[0], p[|p| - 1]);
    }
  }

  /** The subordinate list holds exactly the ids reachable through one or more
      subordinate links; for no user it is empty. */
  lemma SubordinateIdsReachable(users: seq<User>, user: Option<User>, x: int)
    requires Acyclic(users)
    ensures user.None? ==> SubordinateIds(users, user) == []
    ensures user.Some? ==> (x in SubordinateIds(users, user) <==> ReportsTo(users, x, user.value.id))
  {
    if user.Some? {
      var a := user.value.id;
      if x in Collect(users, a) {
        CollectSound(users, a, x);
      }
      if ReportsTo(users, x, a) {
        var p :| |p| >= 2 && p[0] == a && p[|p| - 1] == x && IsChain(users, p);
        CollectComplete(users, p);
      }
    }
  }

  /** Every collected id ranks strictly below the root of the walk. */
  lemma {:induction false} CollectRankBelow(users: seq<User>, a: int, x: int)
    requires Acyclic(users)
    requires x in Collect(users, a)
    ensures Rank(users)(x) < Rank(users)(a)
    decreases Rank(users)(a)
  {
    CollectMembers(users, a, x);
    var s :| s in users && s.managerId == Some(a) && (x == s.id || x in Collect(users, s.id));
    if x != s.id {
      CollectRankBelow(users, s.id, x);
    }
  }

  /** The user's own id is never in their subordinate list. */
  lemma RootNotCollected(users: seq<User>, user: User)
    requires Acyclic(users)
    ensures user.id !in SubordinateIds(users, Some(user))
  {
    if user.id in Collect(users, user.id) {
      CollectRankBelow(users, user.id, user.id);
    }
  }

  // ---------------------------------------------------------------------
  // Shape of the list: no duplicates, preorder

  /** `x` is `a` itself or collected below it. */
  ghost predicate InSubtree(users: seq<User>, x: int, a: int)
    requires Acyclic(users)
  {
    x == a || x in Collect(users, a)
  }

  /** What is collected below a collected id is collected too. */
  lemma {:induction false} CollectTransitive(users: seq<User>, b: int, c: int, x: int)
    requires Acyclic(users)
    requires c in Collect(users, b) && x in Collect(users, c)
    ensures x in Collect(users, b)
    decreases Rank(users)(b)
  {
    CollectMembers(users, b, c);
    var s :| s in users && s.managerId == Some(b) && (c == s.id || c in Collect(users, s.id));
    if c != s.id {
      CollectTransitive(users, s.id, c, x);
    }
    CollectMembers(users, b, x);
  }

  /** The manager of a collected id is the root or is collected itself. */
  lemma {:induction false} ParentInSubtree(users: seq<User>, b: int, z: int)
    requires Acyclic(users) && UniqueUserIds(users)
    requires z in Collect(users, b)
    ensures ManagerOf(users, z).Some? && InSubtree(users, ManagerOf(users, z).value, b)
    decreases Rank(users)(b)
  {
    CollectMembers(users, b, z);
    var s :| s in users && s.managerId == Some(b) && (z == s.id || z in Collect(users, s.id));
    if z == s.id {
      FindUserUnique(users, s);
    } else {
      ParentInSubtree(users, s.id, z);
      CollectMembers(users, b, ManagerOf(users, z).value);
    }
  }

  /** Each user has one manager, so two subtrees that share an id are nested. */
  lemma {:induction false} SubtreesNested(users: seq<User>, p: int, q: int, y: int)
    requires Acyclic(users) && UniqueUserIds(users)
    requires InSubtree(users, y, p) && InSubtree(users, y, q)
    ensures InSubtree(users, p, q) || InSubtree(users, q, p)
    decreases Rank(users)(p) + Rank(users)(q)
  {
    if y != p && y != q {
      CollectMembers(users, p, y);
      var c1 :| c1 in users && c1.managerId == Some(p) && (y == c1.id || y in Collect(users, c1.id));
      CollectMembers(users, q, y);
      var c2 :| c2 in users && c2.managerId == Some(q) && (y == c2.id || y in Collect(users, c2.id));
      SubtreesNested(users, c1.id, c2.id, y);
      FindUserUnique(users, c1);
      FindUserUnique(users, c2);
      if c1.id == c2.id {
        assert p == q;
      } else if c1.id in Collect(users, c2.id) {
        ParentInSubtree(users, c2.id, c1.id);
        CollectMembers(users, q, p);
      } else {
        ParentInSubtree(users, c1.id, c2.id);
        CollectMembers(users, p, q);
      }
    }
  }

  /** Two different subordinates of one manager have disjoint subtrees. */
  lemma SiblingsDisjoint(users: seq<User>, s1: User, s2: User, y: int)
    requires Acyclic(users) && UniqueUserIds(users)
    requires s1 in users && s2 in users && s1.managerId.Some? && s1.managerId == s2.managerId
    requires s1.id != s2.id
    ensures !(InSubtree(users, y, s1.id) && InSubtree(users, y, s2.id))
  {
    if InSubtree(users, y, s1.id) && InSubtree(users, y, s2.id) {
      SubtreesNested(users, s1.id, s2.id, y);
      var a := s1.managerId.value;
      if s1.id in Collect(users, s2.id) {
        FindUserUnique(users, s1);
        ParentInSubtree(users, s2.id, s1.id);
        if a != s2.id {
          CollectRankBelow(users, s2.id, a);
        }
      } else {
        FindUserUnique(users, s2);
        ParentInSubtree(users, s1.id, s2.id);
        if a != s1.id {
          CollectRankBelow(users, s1.id, a);
        }
      }
    }
  }

  /** No id occurs twice. */
  ghost predicate NoDuplicates(s: seq<int>) {
    forall i, j :: 0 <= i < j < |s| ==> s[i] != s[j]
  }

  lemma NoDuplicatesConcat(a: seq<int>, b: seq<int>)
    requires NoDuplicates(a) && NoDuplicates(b)
    requires forall x :: x in a ==> x !in b
    ensures NoDuplicates(a + b)
  {
    var r := a + b;
    forall i, j | 0 <= i < j < |r| ensures r[i] != r[j] {
      if j < |a| {
        assert r[i] == a[i] && r[j] == a[j];
      } else if i >= |a| {
        assert r[i] == b[i - |a|] && r[j] == b[j - |a|];
      } else {
        assert r[i] in a && r[j] == b[j - |a|];
      }
    }
  }

  /** With unique primary keys, the walk lists every subordinate id once. */
  lemma {:induction false} CollectNoDuplicates(users: seq<User>, a: int)
    requires Acyclic(users) && UniqueUserIds(users)
    ensures NoDuplicates(Collect(users, a))
    decreases Rank(users)(a), 1
  {
    SubordinatesLinked(users, a);
    assert DistinctBy(users, (u: User) => u.id);
    FilterDistinct(users, (u: User) => u.managerId == Some(a), (u: User) => u.id);
    CollectAllNoDuplicates(users, a, Subordinates(users, a));
  }

  lemma {:induction false} CollectAllNoDuplicates(users: seq<User>, a: int, subs: seq<User>)
    requires Acyclic(users) && UniqueUserIds(users)
    requires forall s :: s in subs ==> s in users && s.managerId == Some(a)
    requires DistinctBy(subs, (u: User) => u.id)
    ensures NoDuplicates(CollectAll(users, a, subs))
    decreases Rank(users)(a), 0, |subs|
  {
    if subs != [] {
      var n := |subs| - 1;
      var init, last := subs[..n], subs[n];
      assert DistinctBy(init, (u: User) => u.id) by {
        forall i, j | 0 <= i < j < |init| ensures init[i].id != init[j].id {
          assert init[i] == subs[i] && init[j] == subs[j];
        }
      }
      CollectAllNoDuplicates(users, a, init);
      CollectNoDuplicates(users, last.id);
      var A, B := CollectAll(users, a, init), Collect(users, last.id);
      if last.id in B {
        CollectRankBelow(users, last.id, last.id);
      }
      forall x | x in A ensures x != last.id && x !in B {
        CollectAllMembers(users, a, init, x);
        var s :| s in init && (x == s.id || x in Collect(users, s.id));
        var k :| 0 <= k < n && init[k] == s;
        assert subs[k].id != subs[n].id;
        SiblingsDisjoint(users, s, last, x);
      }
      NoDuplicatesConcat(A, [last.id]);
      NoDuplicatesConcat(A + [last.id], B);
    }
  }

  /** Preorder: the manager of every listed id is the root of the walk or is listed before it. */
  ghost predicate Preorder(users: seq<User>, r: seq<int>, a: int) {
    forall i :: 0 <= i < |r| ==>
      ManagerOf(users, r[i]) == Some(a) ||
      (ManagerOf(users, r[i]).Some? && ManagerOf(users, r[i]).value in r[..i])
  }

  /** The walk is a preorder: a subordinate's id comes before the ids below it. */
  lemma {:induction false} CollectPreorder(users: seq<User>, a: int)
    requires Acyclic(users) && UniqueUserIds(users)
    ensures Preorder(users, Collect(users, a), a)
    decreases Rank(users)(a), 1
  {
    SubordinatesLinked(users, a);
    CollectAllPreorder(users, a, Subordinates(users, a));
  }

  lemma {:induction false} CollectAllPreorder(users: seq<User>, a: int, subs: seq<User>)
    requires Acyclic(users) && UniqueUserIds(users)
    requires forall s :: s in subs ==> s in users && s.managerId == Some(a)
    ensures Preorder(users, CollectAll(users, a, subs), a)
    decreases Rank(users)(a), 0, |subs|
  {
    if subs != [] {
      var n := |subs| - 1;
      var init, last := subs[..n], subs[n];
      CollectAllPreorder(users, a, init);
      CollectPreorder(users, last.id);
      FindUserUnique(users, last);
      var A, B := CollectAll(users, a, init), Collect(users, last.id);
      var r := A + [last.id] + B;
      forall i | 0 <= i < |r|
        ensures ManagerOf(users, r[i]) == Some(a) ||
          (ManagerOf(users, r[i]).Some? && ManagerOf(users, r[i]).value in r[..i])
      {
        if i < |A| {
          assert r[i] == A[i] && r[..i] == A[..i];
        } else if i > |A| {
          var j := i - |A| - 1;
          assert r[i] == B[j];
          assert r[..i] == A + [last.id] + B[..j];
        }
      }
    }
  }

  /** For a user, the subordinate list has no duplicates and is in preorder. */
  lemma SubordinateIdsShape(users: seq<User>, user: User)
    requires Acyclic(users) && UniqueUserIds(users)
    ensures NoDuplicates(SubordinateIds(users, Some(user)))
    ensures Preorder(users, SubordinateIds(users, Some(user)), user.id)
  {
    CollectNoDuplicates(users, user.id);
    CollectPreorder(users, user.id);
  }

  // ---------------------------------------------------------------------
  // Can-assign

  /** `can_assign_task` is false without both users, and otherwise holds exactly
      for an admin assigner, for self-assignment, and for an assignee reached
      through the assigner's subordinate links. */
  lemma CanAssignTaskSpec(users: seq<User>, assigner: Option<User>, assignee: Option<User>)
    requires Acyclic(users)
    ensures assigner.None? || assignee.None? ==> !CanAssignTask(users, assigner, assignee)
    ensures assigner.Some? && assignee.Some? ==>
      (CanAssignTask(users, assigner, assignee) <==>
        IsAdmin(assigner.value) || assigner.value.id == assignee.value.id ||
        ReportsTo(users, assignee.value.id, assigner.value.id))
  {
    if assigner.Some? && assignee.Some? {
      SubordinateIdsReachable(users, assigner, assignee.value.id);
    }
  }

  /** Following links from `a` to `b` and then from `b` to `c` leads from `a` to `c`. */
  lemma ReportsToTransitive(users: seq<User>, a: int, b: int, c: int)
    requires ReportsTo(users, b, a) && ReportsTo(users, c, b)
    ensures ReportsTo(users, c, a)
  {
    var p :| |p| >= 2 && p[0] == a && p[|p| - 1] == b && IsChain(users, p);
    var q :| |q| >= 2 && q[0] == b && q[|q| - 1] == c && IsChain(users, q);
    var r := p + q[1..];
    assert IsChain(users, r) by {
      forall i | 0 <= i < |r| - 1 ensures Link(users, r[i], r[i + 1]) {
        if i < |p| - 1 {
          assert r[i] == p[i] && r[i + 1] == p[i + 1];
        } else {
          assert r[i] == q[i - |p| + 1] && r[i + 1] == q[i - |p| + 2];
        }
      }
    }
    assert r[|r| - 1] == c;
  }

  /** For non-admins assignment rights compose: if A may assign to B and B to C,
      then A may assign to C. */
  lemma CanAssignTaskTransitive(users: seq<User>, a: User, b: User, c: User)
    requires Acyclic(users)
    requires !IsAdmin(b)
    requires CanAssignTask(users, Some(a), Some(b)) && CanAssignTask(users, Some(b), Some(c))
    ensures CanAssignTask(users, Some(a), Some(c))
  {
    CanAssignTaskSpec(users, Some(a), Some(b));
    CanAssignTaskSpec(users, Some(b), Some(c));
    CanAssignTaskSpec(users, Some(a), Some(c));
    if !IsAdmin(a) && a.id != b.id && b.id != c.id && a.id != c.id {
      ReportsToTransitive(users, a.id, b.id, c.id);
    }
  }

  /** A user who is their own manager makes the graph cyclic: no walk terminates. */
  lemma SelfManagedIsCyclic(users: seq<User>, u: User)
    requires u in users && u.managerId == Some(u.id)
    ensures !Acyclic(users)
  {
    forall rank: int -> nat ensures !Ranked(users, rank) {
      assert u.managerId.value == u.id;
    }
  }
}
