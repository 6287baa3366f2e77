/** Commits, trees and reachability: the part of git's object model that the
    server relies on.

    A commit id is a hash of the commit's content, parents included, so the model
    uses the content itself as the id: two commits are the same exactly if tree,
    parents and time stamp are, and a commit can never be changed or be its own
    ancestor. */
module GitObjects {

  type Path = string
  type Bytes = string
  type Tree = map<Path, Bytes>

  datatype Option<+T> = None | Some(value: T)

  datatype Commit =
    | RootCommit(tree: Tree, stamp: int)
    | ChildCommit(parent: Commit, tree: Tree, stamp: int)
    | MergeCommit(parent: Commit, second: Commit, tree: Tree, stamp: int)

  // ---------------------------------------------------------------- trees

  function Get(t: Tree, p: Path): Option<Bytes> {
    if p in t then Some(t[p]) else None
  }

  /** `keep` with every path of `which` replaced by what `take` has there,
      which may be nothing. All of git's checkouts have this shape. */
  function Mix(keep: Tree, take: Tree, which: set<Path>): (t: Tree)
    ensures forall p :: Get(t, p) == Get(if p in which then take else keep, p)
  {
    (keep - which) + (map p | p in which && p in take :: take[p])
  }

  /** The paths at which two trees differ. */
  function Changed(a: Tree, b: Tree): (s: set<Path>)
    ensures forall p :: p in s <==> Get(a, p) != Get(b, p)
  {
    set p | p in a.Keys + b.Keys && Get(a, p) != Get(b, p)
  }

  // --------------------------------------------------------- reachability

  /** Every commit in the history of `c`, itself included. */
  function Reach(c: Commit): (s: set<Commit>)
    ensures c in s
  {
    match c
    case RootCommit(_, _) => {c}
    case ChildCommit(p, _, _) => {c} + Reach(p)
    case MergeCommit(p, q, _, _) => {c} + Reach(p) + Reach(q)
  }

  /** One of the two is in the history of the other. */
  predicate InLine(a: Commit, b: Commit) { a in Reach(b) || b in Reach(a) }

  /** The two have a common history. */
  predicate Related(a: Commit, b: Commit) { exists x :: x in Reach(a) && x in Reach(b) }

  lemma RelatedToItself(a: Commit)
    ensures Related(a, a)
  {
    assert a in Reach(a);
  }

  lemma RelatedGrows(a: Commit, b: Commit, a': Commit, b': Commit)
    requires Related(a, b) && Reach(a) <= Reach(a') && Reach(b) <= Reach(b')
    ensures Related(a', b')
  {
    var x :| x in Reach(a) && x in Reach(b);
    assert x in Reach(a') && x in Reach(b');
  }

  function Height(c: Commit): nat {
    match c
    case RootCommit(_, _) => 0
    case ChildCommit(p, _, _) => Height(p) + 1
    case MergeCommit(p, q, _, _) => (if Height(p) < Height(q) then Height(q) else Height(p)) + 1
  }

  lemma {:induction false} AncestorIsLower(c: Commit, x: Commit)
    requires x in Reach(c)
    ensures x == c || Height(x) < Height(c)
  {
    match c {
      case RootCommit(_, _) =>
      case ChildCommit(p, _, _) => if x in Reach(p) { AncestorIsLower(p, x); }
      case MergeCommit(p, q, _, _) =>
        if x in Reach(p) { AncestorIsLower(p, x); } else if x in Reach(q) { AncestorIsLower(q, x); }
    }
  }

  lemma {:induction false} ReachTransitive(c: Commit, mid: Commit)
    requires mid in Reach(c)
    ensures Reach(mid) <= Reach(c)
  {
    match c {
      case RootCommit(_, _) =>
      case ChildCommit(p, _, _) => if mid in Reach(p) { ReachTransitive(p, mid); }
      case MergeCommit(p, q, _, _) =>
        if mid in Reach(p) { ReachTransitive(p, mid); } else if mid in Reach(q) { ReachTransitive(q, mid); }
    }
  }

  /** Two commits that are in each other's history are the same. */
  lemma MutualAncestors(a: Commit, b: Commit)
    requires a in Reach(b) && b in Reach(a)
    ensures a == b
  {
    AncestorIsLower(a, b);
    AncestorIsLower(b, a);
  }

  // ----------------------------------------------------------- merge base

  /** A best common ancestor, as `git merge-base a b` prints one. */
  predicate IsMergeBase(a: Commit, b: Commit, m: Commit) {
    && m in Reach(a) && m in Reach(b)
    && forall x | x in Reach(a) :: x in Reach(b) && x != m ==> m !in Reach(x)
  }

  /** Comparing a tip with the printed merge base decides ancestry exactly, even
      when the two histories have several best common ancestors. */
  lemma MergeBaseDecidesAncestry(a: Commit, b: Commit, m: Commit)
    requires IsMergeBase(a, b, m)
    ensures m == a <==> a in Reach(b)
    ensures m == b <==> b in Reach(a)
  {
    assert a in Reach(a) && b in Reach(b);
  }

  /** There is one whenever the histories are related. */
  lemma MergeBaseExists(a: Commit, b: Commit)
    requires Reach(a) * Reach(b) != {}
    ensures exists m :: m in Reach(a) && IsMergeBase(a, b, m)
  {
    var common := Reach(a) * Reach(b);
    var m := Highest(common);
    forall x | x in common && x != m ensures m !in Reach(x) {
      if m in Reach(x) { AncestorIsLower(x, m); }
    }
    assert IsMergeBase(a, b, m);
  }

  ghost function Highest(s: set<Commit>): (m: Commit)
    requires s != {}
    ensures m in s && forall x | x in s :: Height(x) <= Height(m)
  {
    var x :| x in s;
    var rest := s - {x};
    assert forall z | z in s :: z == x || z in rest;
    if rest == {} then x else
      var y := Highest(rest);
      if Height(x) < Height(y) then y else x
  }
}
