/** Which windows `anthrex tree` shows for a project: `selected_windows` of
    crates/cli/src/tree_cmd.rs. Paths are compared by components, as `Path` does. */
module ProjectSelection {
  import opened Prelude

  type Path = seq<string>

  datatype Window = Window(id: nat, project: Path)

  datatype Query = Query(requested: Path, normalized: Path)

  function Roots(windows: seq<Window>): set<Path> {
    set w | w in windows :: w.project
  }

  /** `find(|root| *root == query)` */
  function Exact(windows: seq<Window>, query: Path): Option<Path> {
    if windows == [] then None
    else if windows[0].project == query then Some(windows[0].project)
    else Exact(windows[1..], query)
  }

  /** `filter(|root| query.starts_with(root)).max_by_key(component count)`: the last of the
      longest. */
  function Containing(windows: seq<Window>, query: Path): Option<Path> {
    if windows == [] then None
    else
      var n := |windows| - 1;
      var best := Containing(windows[..n], query);
      var root := windows[n].project;
      if root <= query && (best.None? || |root| >= |best.value|) then Some(root) else best
  }

  function OrElse(a: Option<Path>, b: Option<Path>): Option<Path> {
    if a.Some? then a else b
  }

  function Root(windows: seq<Window>, q: Query): Option<Path> {
    OrElse(Exact(windows, q.requested),
      OrElse(Containing(windows, q.requested),
        OrElse(Exact(windows, q.normalized), Containing(windows, q.normalized))))
  }

  function OfRoot(windows: seq<Window>, root: Option<Path>): seq<Window> {
    if windows == [] then []
    else (if Some(windows[0].project) == root then [windows[0]] else []) + OfRoot(windows[1..], root)
  }

  function Selected(windows: seq<Window>, project: Option<Query>): seq<Window> {
    match project
    case None => windows
    case Some(q) => OfRoot(windows, Root(windows, q))
  }

  // ---- What is chosen ----

  /** r is the longest of the roots that contain the path. */
  ghost predicate Longest(roots: set<Path>, path: Path, r: Path) {
    r in roots && r <= path && forall other | other in roots && other <= path :: |other| <= |r|
  }

  ghost predicate Contained(roots: set<Path>, path: Path) {
    exists r :: r in roots && r <= path
  }

  /** There is at most one: two prefixes of one path of one length are equal. */
  lemma LongestIsUnique(roots: set<Path>, path: Path, a: Path, b: Path)
    requires Longest(roots, path, a) && Longest(roots, path, b)
    ensures a == b
  {
    assert a == path[..|a|] && b == path[..|b|];
  }

  lemma {:induction false} ContainingIsLongest(windows: seq<Window>, query: Path)
    ensures var c := Containing(windows, query);
            && (c.Some? ==> Longest(Roots(windows), query, c.value))
            && (c.None? ==> !Contained(Roots(windows), query))
    decreases |windows|
  {
    if windows != [] {
      var n := |windows| - 1;
      ContainingIsLongest(windows[..n], query);
      assert windows == windows[..n] + [windows[n]];
      assert Roots(windows) == Roots(windows[..n]) + {windows[n].project};
    }
  }

  lemma {:induction false} ExactIsTheQuery(windows: seq<Window>, query: Path)
    ensures Exact(windows, query) == if query in Roots(windows) then Some(query) else None
    decreases |windows|
  {
    if windows != [] {
      ExactIsTheQuery(windows[1..], query);
      assert windows == [windows[0]] + windows[1..];
      assert Roots(windows) == {windows[0].project} + Roots(windows[1..]);
    }
  }

  /** The exact step finds nothing the containing step would not. */
  lemma ExactIsRedundant(windows: seq<Window>, query: Path)
    ensures OrElse(Exact(windows, query), Containing(windows, query)) == Containing(windows, query)
  {
    ExactIsTheQuery(windows, query);
    ContainingIsLongest(windows, query);
    if query in Roots(windows) {
      assert query <= query;
      LongestIsUnique(Roots(windows), query, query, Containing(windows, query).value);
    }
  }

  /** The root chosen is the longest one containing the request or, only when none does,
      the longest one containing the normalized path; there is none exactly when no root
      contains either. */
  lemma RootIsLongest(windows: seq<Window>, q: Query)
    ensures var roots := Roots(windows);
            match Root(windows, q)
            case Some(r) =>
              if Contained(roots, q.requested) then Longest(roots, q.requested, r)
              else Longest(roots, q.normalized, r)
            case None => !Contained(roots, q.requested) && !Contained(roots, q.normalized)
  {
    ExactIsRedundant(windows, q.requested);
    ExactIsRedundant(windows, q.normalized);
    ContainingIsLongest(windows, q.requested);
    ContainingIsLongest(windows, q.normalized);
  }

  /** The order and number of the windows do not matter, only their set of roots. */
  lemma RootIsOrderIndependent(a: seq<Window>, b: seq<Window>, q: Query)
    requires Roots(a) == Roots(b)
    ensures Root(a, q) == Root(b, q)
  {
    hide Root;
    RootIsLongest(a, q);
    RootIsLongest(b, q);
    var roots := Roots(a);
    if Root(a, q).Some? && Root(b, q).Some? {
      var path := if Contained(roots, q.requested) then q.requested else q.normalized;
      LongestIsUnique(roots, path, Root(a, q).value, Root(b, q).value);
    }
  }

  lemma {:induction false} OfRootIsFilter(windows: seq<Window>, root: Option<Path>)
    ensures forall w :: w in OfRoot(windows, root) <==> w in windows && Some(w.project) == root
    ensures forall w :: multiset(OfRoot(windows, root))[w] ==
                        if Some(w.project) == root then multiset(windows)[w] else 0
    ensures root.None? ==> OfRoot(windows, root) == []
    decreases |windows|
  {
    if windows != [] {
      OfRootIsFilter(windows[1..], root);
      assert windows == [windows[0]] + windows[1..];
    }
  }

  /** A project query selects exactly the windows of the chosen root, all of one root. */
  lemma SelectionSharesRoot(windows: seq<Window>, q: Query)
    ensures forall w :: multiset(Selected(windows, Some(q)))[w] ==
                        if Some(w.project) == Root(windows, q) then multiset(windows)[w] else 0
    ensures forall v, w | v in Selected(windows, Some(q)) && w in Selected(windows, Some(q)) :: v.project == w.project
    ensures Selected(windows, Some(q)) == [] <==> Root(windows, q).None?
  {
    hide Root;
    OfRootIsFilter(windows, Root(windows, q));
    RootIsLongest(windows, q);
    if Root(windows, q).Some? {
      var r := Root(windows, q).value;
      assert r in Roots(windows);
      var w :| w in windows && w.project == r;
      assert w in Selected(windows, Some(q));
    }
  }

  lemma OfRootFirst(windows: seq<Window>, root: Option<Path>)
    requires windows != []
    ensures OfRoot(windows, root) ==
            (if Some(windows[0].project) == root then [windows[0]] else []) + OfRoot(windows[1..], root)
  {
  }

  lemma {:induction false} OfRootAppend(a: seq<Window>, b: seq<Window>, root: Option<Path>)
    ensures OfRoot(a + b, root) == OfRoot(a, root) + OfRoot(b, root)
    decreases |a|
  {
    if a == [] {
      assert a + b == b;
      assert [] + OfRoot(b, root) == OfRoot(b, root);
    } else {
      OfRootFirst(a, root);
      OfRootFirst(a + b, root);
      hide OfRoot;
      assert (a + b)[1..] == a[1..] + b;
      OfRootAppend(a[1..], b, root);
      Associate(if Some(a[0].project) == root then [a[0]] else [], OfRoot(a[1..], root), OfRoot(b, root));
    }
  }

  /** Without a project every window is shown; with one, each window is kept or left out by
      its root and the windows stay in order. */
  lemma SelectionKeepsOrder(a: seq<Window>, w: Window, b: seq<Window>, q: Query)
    ensures var windows := a + [w] + b;
            var root := Root(windows, q);
            && Selected(windows, None) == windows
            && Selected(windows, Some(q)) ==
               OfRoot(a, root) + (if root == Some(w.project) then [w] else []) + OfRoot(b, root)
  {
    hide Root;
    var windows := a + [w] + b;
    var root := Root(windows, q);
    OfRootAppend(a + [w], b, root);
    OfRootAppend(a, [w], root);
    assert [w][1..] == [];
    assert OfRoot([w], root) == if root == Some(w.project) then [w] else [];
  }

  /** The windows of a root alone are all shown. */
  lemma {:induction false} OneRootIsShown(windows: seq<Window>, root: Path)
    requires forall k | 0 <= k < |windows| :: windows[k].project == root
    ensures OfRoot(windows, Some(root)) == windows
    decreases |windows|
  {
    if windows != [] {
      OneRootIsShown(windows[1..], root);
      assert windows == [windows[0]] + windows[1..];
    }
  }
}
