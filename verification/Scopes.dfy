/**
 Lexical scopes: alter_db gives each statement its innermost scope and tabulates the
 ancestors of every scope; the `variables` request joins the two.
 */
module Scopes {

  const GLOBAL_SCOPE: nat := 0

  /** A row of the `scope` table, keyed by id; addresses in [start, end). */
  datatype Scope = Scope(parent: nat, depth: nat, start: nat, end: nat) {
    predicate Contains(address: nat) {
      start <= address < end
    }
  }

  type Table = map<nat, Scope>

  /** Functions have no parent scope; a block lies inside its parent, apart from its siblings. */
  ghost predicate WellNested(t: Table) {
    && GLOBAL_SCOPE !in t
    && (forall s {:trigger Placed(t, s)} :: s in t ==> Placed(t, s))
    && (forall s, r {:trigger Apart(t, s, r)} :: s in t && r in t ==> Apart(t, s, r))
  }

  ghost predicate Placed(t: Table, s: nat)
    requires s in t
  {
    if t[s].depth == 0 then t[s].parent == GLOBAL_SCOPE
    else
      var p := t[s].parent;
      p in t && t[s].depth == t[p].depth + 1 && t[p].start <= t[s].start && t[s].end <= t[p].end
  }

  ghost predicate Apart(t: Table, s: nat, r: nat)
    requires s in t && r in t
  {
    s != r && t[s].parent == t[r].parent ==> t[s].end <= t[r].start || t[r].end <= t[s].start
  }

  // The transitive closure of parent

  ghost predicate IsAncestor(t: Table, a: nat, s: nat) {
    exists k: nat :: IsAncestorAt(t, a, s, k)
  }

  /** `a` is reached from `s` by following `parent` k + 1 times. */
  ghost predicate IsAncestorAt(t: Table, a: nat, s: nat, k: nat)
    decreases k
  {
    s in t && if k == 0 then a == t[s].parent else IsAncestorAt(t, a, t[s].parent, k - 1)
  }

  lemma {:induction false} AncestorSnoc(t: Table, a: nat, s: nat, k: nat)
    requires IsAncestorAt(t, a, s, k) && a in t
    ensures IsAncestorAt(t, t[a].parent, s, k + 1)
    decreases k
  {
    if k == 0 {
    } else {
      AncestorSnoc(t, a, t[s].parent, k - 1);
    }
  }

  /** A row of scope_ancestor. */
  datatype Link = Link(ancestor: nat, id: nat)

  /** Every pair of a parent and a scope: the recursion cannot leave it. */
  ghost function Universe(t: Table): set<Link> {
    set s, r | s in t && r in t :: Link(t[r].parent, s)
  }

  /** The recursion so far: `seen` holds every row queued, `done` those already joined. */
  ghost predicate Progress(t: Table, seen: set<Link>, done: set<Link>) {
    && done <= seen
    && (forall x {:trigger Proper(t, x)} :: x in seen ==> Proper(t, x))
    && (forall s :: s in t ==> Link(t[s].parent, s) in seen)
    && (forall x {:trigger Followed(t, x, seen)} :: x in done ==> Followed(t, x, seen))
  }

  ghost predicate Proper(t: Table, x: Link) {
    x in Universe(t) && IsAncestor(t, x.ancestor, x.id)
  }

  ghost predicate Followed(t: Table, x: Link, seen: set<Link>) {
    x.ancestor in t ==> Link(t[x.ancestor].parent, x.id) in seen
  }

  lemma ProgressStarts(t: Table)
    ensures Progress(t, set s | s in t :: Link(t[s].parent, s), {})
  {
    forall s | s in t ensures Proper(t, Link(t[s].parent, s)) {
      assert IsAncestorAt(t, t[s].parent, s, 0);
    }
  }

  lemma NextIsAncestor(t: Table, a: nat, s: nat)
    requires IsAncestor(t, a, s) && a in t
    ensures Proper(t, Link(t[a].parent, s))
  {
    var k: nat :| IsAncestorAt(t, a, s, k);
    AncestorSnoc(t, a, s, k);
  }

  lemma {:induction false} DoneHasAncestor(t: Table, done: set<Link>, a: nat, s: nat, b: nat, k: nat)
    requires Progress(t, done, done) && Link(b, s) in done && IsAncestorAt(t, a, b, k)
    ensures Link(a, s) in done
    decreases k
  {
    assert Followed(t, Link(b, s), done);
    if k == 0 {
    } else {
      DoneHasAncestor(t, done, a, s, t[b].parent, k - 1);
    }
  }

  lemma DoneIsComplete(t: Table, done: set<Link>, a: nat, s: nat)
    requires Progress(t, done, done) && IsAncestor(t, a, s)
    ensures Link(a, s) in done
  {
    var k: nat :| IsAncestorAt(t, a, s, k);
    if k > 0 {
      DoneHasAncestor(t, done, a, s, t[s].parent, k - 1);
    }
  }

  /** The rows one row leads to. */
  function NextRows(t: Table, row: Link): set<Link> {
    if row.ancestor in t then {Link(t[row.ancestor].parent, row.id)} else {}
  }

  lemma Advance(t: Table, seen: set<Link>, done: set<Link>, row: Link)
    requires Progress(t, seen, done) && row in seen
    ensures Progress(t, seen + NextRows(t, row), done + {row})
  {
    assert Proper(t, row);
    if row.ancestor in t {
      NextIsAncestor(t, row.ancestor, row.id);
    }
    forall x | x in seen + NextRows(t, row) ensures Proper(t, x) {
      assert x in seen ==> Proper(t, x);
    }
    forall x | x in done + {row} ensures Followed(t, x, seen + NextRows(t, row)) {
      assert x in done ==> Followed(t, x, seen);
    }
  }

  /**
   The recursive query: rows are taken from a work list one at a time, each joined with `scope`,
   and a row already seen is not queued again. It terminates on any table and yields the
   transitive closure of parent.
   */
  method ScopeAncestors(t: Table) returns (rel: set<Link>)
    ensures forall x :: x in rel <==> IsAncestor(t, x.ancestor, x.id)
  {
    var seen := set s | s in t :: Link(t[s].parent, s);
    rel := {};
    ProgressStarts(t);
    while seen - rel != {}
      invariant Progress(t, seen, rel)
      decreases Universe(t) - rel
    {
      var row :| row in seen - rel;
      Advance(t, seen, rel, row);
      assert Proper(t, row);
      seen, rel := seen + NextRows(t, row), rel + {row};
    }
    forall x | x in seen ensures x in rel {
      assert x !in seen - rel;
    }
    assert rel == seen;
    forall x | x in rel ensures IsAncestor(t, x.ancestor, x.id) {
      assert Proper(t, x);
    }
    forall x: Link | IsAncestor(t, x.ancestor, x.id) ensures x in rel {
      DoneIsComplete(t, rel, x.ancestor, x.id);
    }
  }

  // The innermost scope of a statement

  /** A containing scope of the greatest depth (ORDER BY depth DESC LIMIT 1). */
  ghost predicate IsInnermost(t: Table, address: nat, s: nat) {
    && s in t && t[s].Contains(address)
    && forall r :: r in t && t[r].Contains(address) ==> t[r].depth <= t[s].depth
  }

  lemma {:induction false} SameDepthSameScope(t: Table, address: nat, s: nat, r: nat)
    requires WellNested(t) && s in t && r in t && t[s].depth == t[r].depth
    requires t[s].Contains(address) && t[r].Contains(address)
    ensures s == r
    decreases if s in t then t[s].depth else 0
  {
    assert Placed(t, s) && Placed(t, r) && Apart(t, s, r);
    if t[s].depth == 0 {
    } else {
      SameDepthSameScope(t, address, t[s].parent, t[r].parent);
    }
  }

  /** Of two scopes that contain an address, the shallower is an ancestor of the deeper. */
  lemma {:induction false} ShallowerIsAncestor(t: Table, address: nat, r: nat, s: nat)
    requires WellNested(t) && s in t && r in t && t[r].depth < t[s].depth
    requires t[s].Contains(address) && t[r].Contains(address)
    ensures IsAncestorAt(t, r, s, t[s].depth - t[r].depth - 1)
    decreases t[s].depth
  {
    assert Placed(t, s);
    if t[s].depth == t[r].depth + 1 {
      SameDepthSameScope(t, address, t[s].parent, r);
    } else {
      ShallowerIsAncestor(t, address, r, t[s].parent);
    }
  }

  lemma {:induction false} AncestorContains(t: Table, address: nat, a: nat, s: nat, k: nat)
    requires WellNested(t) && IsAncestorAt(t, a, s, k) && t[s].Contains(address) && a != GLOBAL_SCOPE
    ensures a in t && t[a].Contains(address) && t[a].depth < t[s].depth
    decreases k
  {
    assert Placed(t, s);
    if k == 0 {
    } else {
      AncestorContains(t, address, a, t[s].parent, k - 1);
    }
  }

  /**
   A statement's innermost scope and its ancestors, without the global scope, are exactly the
   scopes whose range contains the statement.
   */
  lemma InnermostAndAncestors(t: Table, address: nat, s: nat, r: nat)
    requires WellNested(t) && IsInnermost(t, address, s)
    ensures (r == s || IsAncestor(t, r, s)) && r != GLOBAL_SCOPE <==> r in t && t[r].start <= address < t[r].end
  {
    if r in t && t[r].Contains(address) {
      if t[r].depth == t[s].depth {
        SameDepthSameScope(t, address, r, s);
      } else {
        ShallowerIsAncestor(t, address, r, s);
      }
    } else if r != s && IsAncestor(t, r, s) && r != GLOBAL_SCOPE {
      var k: nat :| IsAncestorAt(t, r, s, k);
      AncestorContains(t, address, r, s, k);
      assert false;
    }
  }

  // The local-variable query

  ghost function Ancestors(rel: set<Link>, s: nat): set<nat> {
    set x | x in rel && x.id == s :: x.ancestor
  }

  /**
   How many rows the join of `var` and scope_ancestor returns for one variable declared in scope
   `v`, when asked for scope `s`.
   */
  ghost function RowsFor(rel: set<Link>, v: nat, s: nat): nat {
    if v == GLOBAL_SCOPE then 0 else |set a | a in Ancestors(rel, s) && (v == a || v == s)|
  }

  ghost predicate IsClosure(t: Table, rel: set<Link>) {
    forall x :: x in rel <==> IsAncestor(t, x.ancestor, x.id)
  }

  lemma AncestorStep(t: Table, a: nat, s: nat)
    requires s in t
    ensures IsAncestor(t, a, s) <==> a == t[s].parent || IsAncestor(t, a, t[s].parent)
  {
    if k: nat :| IsAncestorAt(t, a, s, k) {
      if k > 0 {
        assert IsAncestorAt(t, a, t[s].parent, k - 1);
      }
    }
    if a == t[s].parent {
      assert IsAncestorAt(t, a, s, 0);
    }
    if k: nat :| IsAncestorAt(t, a, t[s].parent, k) {
      assert IsAncestorAt(t, a, s, k + 1);
    }
  }

  lemma {:induction false} AncestorIsShallower(t: Table, a: nat, s: nat, k: nat)
    requires WellNested(t) && IsAncestorAt(t, a, s, k)
    ensures a == GLOBAL_SCOPE || (a in t && t[a].depth < t[s].depth)
    decreases k
  {
    assert Placed(t, s);
    if k == 0 {
    } else {
      AncestorIsShallower(t, a, t[s].parent, k - 1);
    }
  }

  lemma NotItsOwnAncestor(t: Table, s: nat)
    requires WellNested(t) && s in t
    ensures !IsAncestor(t, s, s)
  {
    if k: nat :| IsAncestorAt(t, s, s, k) {
      AncestorIsShallower(t, s, s, k);
    }
  }

  /** A scope at depth d has d + 1 ancestors, the global scope among them. */
  lemma {:induction false} AncestorCount(t: Table, rel: set<Link>, s: nat)
    requires WellNested(t) && IsClosure(t, rel) && s in t
    ensures |Ancestors(rel, s)| == t[s].depth + 1
    decreases t[s].depth
  {
    var p := t[s].parent;
    assert Placed(t, s);
    forall a ensures a in Ancestors(rel, s) <==> a == p || a in Ancestors(rel, p) {
      if a >= 0 {
        AncestorStep(t, a, s);
        assert Link(a, s) in rel <==> IsAncestor(t, a, s);
        assert Link(a, p) in rel <==> IsAncestor(t, a, p);
      }
    }
    assert Ancestors(rel, s) == {p} + Ancestors(rel, p);
    if t[s].depth == 0 {
      assert Ancestors(rel, p) == {};
    } else {
      AncestorCount(t, rel, p);
      NotItsOwnAncestor(t, p);
      assert p !in Ancestors(rel, p);
    }
  }

  /**
   The query lists a variable of an enclosing scope once, but one of the frame's own scope once
   per ancestor, that is depth + 1 times.
   */
  lemma LocalVariableRows(t: Table, rel: set<Link>, v: nat, s: nat)
    requires WellNested(t) && IsClosure(t, rel) && s in t
    ensures RowsFor(rel, v, s) ==
              if v == s then t[s].depth + 1
              else if v != GLOBAL_SCOPE && IsAncestor(t, v, s) then 1
              else 0
  {
    AncestorCount(t, rel, s);
    NotItsOwnAncestor(t, s);
    var rows := set a | a in Ancestors(rel, s) && (v == a || v == s);
    assert Link(v, s) in rel <==> IsAncestor(t, v, s);
    if v == s {
      assert rows == Ancestors(rel, s);
    } else if IsAncestor(t, v, s) {
      assert v in Ancestors(rel, s) by { assert Link(v, s) in rel; }
      assert rows == {v};
    } else {
      assert rows == {};
    }
  }

  /** So every visible variable is listed exactly once if and only if the frame's scope is a function's. */
  lemma ListedOnceIffFunctionScope(t: Table, rel: set<Link>, s: nat)
    requires WellNested(t) && IsClosure(t, rel) && s in t
    ensures (forall v: nat :: v != GLOBAL_SCOPE && (v == s || IsAncestor(t, v, s)) ==> RowsFor(rel, v, s) == 1)
            <==> t[s].depth == 0
  {
    LocalVariableRows(t, rel, s, s);
    if t[s].depth == 0 {
      forall v: nat | v != GLOBAL_SCOPE && (v == s || IsAncestor(t, v, s)) ensures RowsFor(rel, v, s) == 1 {
        LocalVariableRows(t, rel, v, s);
      }
    } else {
      assert RowsFor(rel, s, s) != 1;
    }
  }

  /** A block inside a function: its own variable is listed twice, the function's once. */
  lemma BlockVariableExample(t: Table, rel: set<Link>)
    requires t == map[1 := Scope(GLOBAL_SCOPE, 0, 10, 50), 2 := Scope(1, 1, 20, 30)] && IsClosure(t, rel)
    ensures WellNested(t) && RowsFor(rel, 2, 2) == 2 && RowsFor(rel, 1, 2) == 1
  {
    assert Placed(t, 1) && Placed(t, 2);
    assert WellNested(t);
    LocalVariableRows(t, rel, 2, 2);
    LocalVariableRows(t, rel, 1, 2);
    assert IsAncestorAt(t, 1, 2, 0);
  }
}
