/**
  An in-memory directory tree: a finite map from paths (sequences of names) to
  files and directories, the directory operations both installers perform on
  it, and what each leaves behind.
 */
module Tree {

  type Path = seq<string>

  datatype Node = File(data: string) | Dir

  type Fs = map<Path, Node>

  function Parent(p: Path): Path
    requires p != []
  {
    p[..|p| - 1]
  }

  /** The root is a directory and every other entry sits in a directory. */
  ghost predicate WellFormed(t: Fs) {
    && [] in t && t[[]].Dir?
    && forall p {:trigger Parent(p)} | p in t && p != [] :: Parent(p) in t && t[Parent(p)].Dir?
  }

  predicate IsDir(t: Fs, p: Path) { p in t && t[p].Dir? }

  /** Neither path lies inside the other. */
  predicate Disjoint(a: Path, b: Path) { !(a <= b) && !(b <= a) }

  /** The names in directory p (`os.listdir`, `fs.readdirSync`). */
  function Listing(t: Fs, p: Path): set<string> {
    set q | q in t && |q| == |p| + 1 && p <= q :: q[|p|]
  }

  /** The names an existence test of `target` joined with a name finds
      (`os.path.exists`, `fs.existsSync`): the entries of target, and '', '.'
      and '..', which name target itself or its parent; none when target is
      not a directory. */
  const SelfNames: set<string> := {"", ".", ".."}

  function Present(t: Fs, target: Path): set<string> {
    if IsDir(t, target) then Listing(t, target) + SelfNames else {}
  }

  // ---------------------------------------------------------------------------
  // Facts about paths and well-formed trees
  // ---------------------------------------------------------------------------

  lemma PrefixOfJoin(a: Path, b: Path, r: Path)
    ensures a <= b + r ==> a <= b || b <= a
  {
    if a <= b + r {
      if |a| <= |b| {
        assert a == (b + r)[..|a|] == b[..|a|];
      } else {
        assert b == (b + r)[..|b|] == a[..|b|];
      }
    }
  }

  lemma DisjointJoin(a: Path, b: Path, r: Path)
    ensures Disjoint(a, b) ==> !(a <= b + r) && !(b <= a + r)
  {
    PrefixOfJoin(a, b, r);
    PrefixOfJoin(b, a, r);
  }

  lemma DisjointChildren(a: Path, b: Path, x: string)
    ensures Disjoint(a, b) ==> Disjoint(a + [x], b + [x])
  {
    DisjointJoin(a, b, [x]);
    if a + [x] <= b + [x] { assert a == (a + [x])[..|a|]; assert a <= b; }
    if b + [x] <= a + [x] { assert b == (b + [x])[..|b|]; assert b <= a; }
  }

  /** Two different children of one directory lie apart. */
  lemma SiblingsDisjoint(p: Path, x: string, y: string)
    requires x != y
    ensures Disjoint(p + [x], p + [y])
  {
    assert (p + [x])[|p|] == x && (p + [y])[|p|] == y;
  }

  /** Every proper prefix of an entry is a directory of the tree. */
  lemma {:induction false} AncestorIsDir(t: Fs, p: Path, k: nat)
    requires WellFormed(t) && p in t && k < |p|
    ensures IsDir(t, p[..k])
    decreases |p| - k
  {
    if k == |p| - 1 {
      assert p[..k] == Parent(p);
    } else {
      AncestorIsDir(t, p, k + 1);
      assert p[..k] == Parent(p[..k + 1]);
    }
  }

  /** Whatever has an entry strictly below it is a directory. */
  lemma StrictAncestorIsDir(t: Fs, f: Path, q: Path)
    requires WellFormed(t) && q in t && f < q
    ensures IsDir(t, f)
  {
    AncestorIsDir(t, q, |f|);
    assert q[..|f|] == f;
  }

  /** Every entry below p is reached through a name in p's listing. */
  lemma ListingComplete(t: Fs, p: Path, q: Path)
    requires WellFormed(t) && q in t && p < q
    ensures q[|p|] in Listing(t, p) && p + [q[|p|]] in t && p + [q[|p|]] <= q
  {
    var c := q[..|p| + 1];
    assert c == p + [q[|p|]];
    if |q| > |p| + 1 {
      AncestorIsDir(t, q, |p| + 1);
    } else {
      assert c == q;
    }
    assert c in t && |c| == |p| + 1 && p <= c;
    assert c[|p|] == q[|p|];
  }

  lemma ListingMember(t: Fs, p: Path, x: string)
    ensures x in Listing(t, p) <==> p + [x] in t
  {
    if x in Listing(t, p) {
      var q :| q in t && |q| == |p| + 1 && p <= q && q[|p|] == x;
      assert q[..|p|] == p;
      assert q == q[..|p|] + [q[|p|]];
      assert p + [x] in t;
    }
    if p + [x] in t {
      var q := p + [x];
      assert q in t && |q| == |p| + 1 && p <= q;
      assert q[|p|] == x;
      assert x in Listing(t, p);
    }
  }

  // ---------------------------------------------------------------------------
  // Overlaying one subtree on another
  // ---------------------------------------------------------------------------

  /** True when q = D + r for some r whose counterpart S + r is an entry. */
  predicate Covered(t: Fs, s: Path, d: Path, q: Path) {
    d <= q && s + q[|d|..] in t
  }

  function Targets(t: Fs, s: Path, d: Path): set<Path> {
    set p | p in t && s <= p :: d + p[|s|..]
  }

  lemma TargetsCovered(t: Fs, s: Path, d: Path, q: Path)
    ensures q in Targets(t, s, d) <==> Covered(t, s, d, q)
  {
    if q in Targets(t, s, d) {
      var p :| p in t && s <= p && q == d + p[|s|..];
      assert q[|d|..] == p[|s|..];
      assert s + q[|d|..] == p;
    }
    if Covered(t, s, d, q) {
      var p := s + q[|d|..];
      assert p[|s|..] == q[|d|..];
      assert q == d + q[|d|..];
    }
  }

  /** Tree s laid over tree d: every entry s + r appears as d + r with the same
      node, and every other entry keeps its node. */
  function Overlay(t: Fs, s: Path, d: Path): (r: Fs)
    ensures forall q {:trigger q in r} :: q in r <==> q in t || Covered(t, s, d, q)
    ensures forall q {:trigger r[q]} | q in r :: r[q] == if Covered(t, s, d, q) then t[s + q[|d|..]] else t[q]
  {
    forall q ensures q in Targets(t, s, d) <==> Covered(t, s, d, q) {
      TargetsCovered(t, s, d, q);
    }
    map q | q in t.Keys + Targets(t, s, d) :: if Covered(t, s, d, q) then t[s + q[|d|..]] else t[q]
  }

  /** Overlay restricted to the children of s named in `names`. */
  predicate CoveredBy(t: Fs, s: Path, d: Path, names: set<string>, q: Path) {
    d < q && q[|d|] in names && s + q[|d|..] in t
  }

  function TargetsBy(t: Fs, s: Path, d: Path, names: set<string>): set<Path> {
    set p | p in t && s < p && p[|s|] in names :: d + p[|s|..]
  }

  lemma TargetsByCovered(t: Fs, s: Path, d: Path, names: set<string>, q: Path)
    ensures q in TargetsBy(t, s, d, names) <==> CoveredBy(t, s, d, names, q)
  {
    if q in TargetsBy(t, s, d, names) {
      var p :| p in t && s < p && p[|s|] in names && q == d + p[|s|..];
      assert q[|d|..] == p[|s|..];
      assert s + q[|d|..] == p;
    }
    if CoveredBy(t, s, d, names, q) {
      var p := s + q[|d|..];
      assert p[|s|..] == q[|d|..];
      assert q == d + q[|d|..];
    }
  }

  function Graft(t: Fs, s: Path, d: Path, names: set<string>): (r: Fs)
    ensures forall q {:trigger q in r} :: q in r <==> q in t || CoveredBy(t, s, d, names, q)
    ensures forall q {:trigger r[q]} | q in r :: r[q] == if CoveredBy(t, s, d, names, q) then t[s + q[|d|..]] else t[q]
  {
    forall q ensures q in TargetsBy(t, s, d, names) <==> CoveredBy(t, s, d, names, q) {
      TargetsByCovered(t, s, d, names, q);
    }
    map q | q in t.Keys + TargetsBy(t, s, d, names) ::
      if CoveredBy(t, s, d, names, q) then t[s + q[|d|..]] else t[q]
  }

  // ---------------------------------------------------------------------------
  // Removing a subtree
  // ---------------------------------------------------------------------------

  /** The tree without p and everything below it. */
  function Pruned(t: Fs, p: Path): (r: Fs)
    ensures forall q {:trigger q in r} :: q in r <==> q in t && !(p <= q)
    ensures forall q {:trigger r[q]} | q in r :: r[q] == t[q]
  {
    map q | q in t && !(p <= q) :: t[q]
  }

  // ---------------------------------------------------------------------------
  // Conditions under which an overlay is well defined
  // ---------------------------------------------------------------------------

  /** No directory of d is replaced by a file of s. */
  predicate NoDirReplaced(t: Fs, s: Path, d: Path) {
    forall q {:trigger Covered(t, s, d, q)} | q in t && Covered(t, s, d, q) :: t[q].Dir? ==> t[s + q[|d|..]].Dir?
  }

  /** Every entry of s that meets an entry of d has the same kind. */
  predicate SameKinds(t: Fs, s: Path, d: Path) {
    forall q {:trigger Covered(t, s, d, q)} | q in t && Covered(t, s, d, q) :: t[q].Dir? <==> t[s + q[|d|..]].Dir?
  }

  /** Overlaying keeps the tree well formed as long as no directory turns into a file. */
  lemma OverlayWellFormed(t: Fs, s: Path, d: Path)
    requires WellFormed(t) && Disjoint(s, d) && IsDir(t, s)
    requires d != [] && IsDir(t, Parent(d)) && NoDirReplaced(t, s, d)
    ensures WellFormed(Overlay(t, s, d))
  {
    var r := Overlay(t, s, d);
    assert !Covered(t, s, d, []);
    forall q | q in r && q != [] ensures Parent(q) in r && r[Parent(q)].Dir? {
      var pq := Parent(q);
      if Covered(t, s, d, q) {
        var x := q[|d|..];
        if x == [] {
          assert q == d;
          assert !(d <= pq);
        } else {
          assert d <= pq && pq[|d|..] == Parent(s + x)[|s|..];
          assert s + pq[|d|..] == Parent(s + x);
          assert Covered(t, s, d, pq);
        }
      } else {
        assert q in t;
      }
    }
  }

  /** Nothing lies below a path that is not in a well-formed tree. */
  lemma AbsentHasNothingBelow(t: Fs, d: Path, q: Path)
    requires WellFormed(t) && d !in t && d != []
    ensures q in t ==> !(d <= q)
  {
    if q in t && d <= q && d != q {
      StrictAncestorIsDir(t, d, q);
    }
  }

  lemma AbsentSameKinds(t: Fs, s: Path, d: Path)
    requires WellFormed(t) && d !in t && d != []
    ensures SameKinds(t, s, d) && NoDirReplaced(t, s, d)
  {
    forall q | q in t ensures !Covered(t, s, d, q) {
      AbsentHasNothingBelow(t, d, q);
    }
  }

  /** Below a file, only the file itself has a counterpart. */
  lemma CoveredByFile(t: Fs, s: Path, d: Path, q: Path)
    requires WellFormed(t) && s in t && t[s].File?
    ensures Covered(t, s, d, q) <==> q == d
  {
    if Covered(t, s, d, q) {
      var y := q[|d|..];
      if s + y != s {
        StrictAncestorIsDir(t, s, s + y);
      } else {
        assert |y| == 0;
        assert q == q[..|d|];
      }
    }
    if q == d {
      assert s + q[|d|..] == s;
    }
  }

  /** Copying a file is the overlay of a one-entry tree. */
  lemma OverlayOfFile(t: Fs, s: Path, d: Path)
    requires WellFormed(t) && s in t && t[s].File?
    ensures Overlay(t, s, d) == t[d := t[s]]
  {
    var r, u := Overlay(t, s, d), t[d := t[s]];
    forall q ensures (q in r <==> q in u) && (q in r ==> r[q] == u[q]) {
      CoveredByFile(t, s, d, q);
      if q == d {
        assert s + q[|d|..] == s;
      }
    }
    assert r.Keys == u.Keys;
  }

  /** Laying s over d a second time changes nothing, and afterwards every
      entry of s meets an entry of d of its own kind. */
  lemma OverlayIdempotent(t: Fs, s: Path, d: Path)
    requires Disjoint(s, d)
    ensures Overlay(Overlay(t, s, d), s, d) == Overlay(t, s, d)
    ensures SameKinds(Overlay(t, s, d), s, d)
  {
    var o := Overlay(t, s, d);
    forall q | d <= q
      ensures Covered(o, s, d, q) <==> Covered(t, s, d, q)
      ensures Covered(t, s, d, q) ==> o[s + q[|d|..]] == t[s + q[|d|..]]
    {
      DisjointJoin(s, d, q[|d|..]);
      assert !Covered(t, s, d, s + q[|d|..]);
    }
    assert Overlay(o, s, d).Keys == o.Keys;
  }

  // ---------------------------------------------------------------------------
  // Overlaying child by child
  // ---------------------------------------------------------------------------

  /** Entries below s, and below children of d not yet grafted, are untouched. */
  lemma NotCoveredBy(t: Fs, s: Path, d: Path, names: set<string>, q: Path)
    requires Disjoint(s, d)
    requires s <= q || (d < q && q[|d|] !in names)
    ensures !CoveredBy(t, s, d, names, q)
  {
    if s <= q {
      PrefixOfJoin(d, s, q[|s|..]);
      assert q == s + q[|s|..];
    }
  }

  lemma GraftNone(t: Fs, s: Path, d: Path)
    ensures Graft(t, s, d, {}) == t
  {
    assert Graft(t, s, d, {}).Keys == t.Keys;
  }

  /** Overlaying child x of s onto child x of d extends a graft by x. */
  lemma GraftStep(t: Fs, s: Path, d: Path, names: set<string>, x: string)
    requires Disjoint(s, d) && x !in names
    ensures Overlay(Graft(t, s, d, names), s + [x], d + [x]) == Graft(t, s, d, names + {x})
  {
    var lhs := Overlay(Graft(t, s, d, names), s + [x], d + [x]);
    var rhs := Graft(t, s, d, names + {x});
    forall q
      ensures (q in lhs <==> q in rhs)
      ensures q in lhs ==> lhs[q] == rhs[q]
    {
      GraftStepAt(t, s, d, names, x, q);
    }
    assert lhs.Keys == rhs.Keys;
  }

  /** GraftStep at one path q. */
  lemma GraftStepAt(t: Fs, s: Path, d: Path, names: set<string>, x: string, q: Path)
    requires Disjoint(s, d) && x !in names
    ensures var lhs := Overlay(Graft(t, s, d, names), s + [x], d + [x]);
      var rhs := Graft(t, s, d, names + {x});
      (q in lhs <==> q in rhs) && (q in lhs ==> lhs[q] == rhs[q])
  {
    var g := Graft(t, s, d, names);
    var sx, dx := s + [x], d + [x];
    ChildPrefix(d, x, q);
    if dx <= q {
      var y := q[|dx|..];
      assert q == d + [x] + y;
      assert q[|d|..] == [x] + y && q[|d|] == x;
      assert s + q[|d|..] == sx + y;
      NotCoveredBy(t, s, d, names, sx + y);
      NotCoveredBy(t, s, d, names, q);
      assert sx + y in g <==> sx + y in t;
      assert Covered(g, sx, dx, q) <==> CoveredBy(t, s, d, names + {x}, q);
    } else {
      assert !Covered(g, sx, dx, q);
      assert CoveredBy(t, s, d, names + {x}, q) <==> CoveredBy(t, s, d, names, q);
    }
  }

  /** Grafting every child of s overlays all of s when both roots are directories. */
  lemma GraftAll(t: Fs, s: Path, d: Path)
    requires WellFormed(t) && IsDir(t, s) && IsDir(t, d)
    ensures Graft(t, s, d, Listing(t, s)) == Overlay(t, s, d)
  {
    var g := Graft(t, s, d, Listing(t, s));
    var o := Overlay(t, s, d);
    forall q
      ensures (q in g <==> q in o)
      ensures q in g ==> g[q] == o[q]
    {
      if Covered(t, s, d, q) && q != d {
        var p := s + q[|d|..];
        assert d < q;
        assert s < p;
        ListingComplete(t, s, p);
        assert p[|s|] == q[|d|];
      }
      if q == d {
        assert s + q[|d|..] == s;
      }
    }
    assert g.Keys == o.Keys;
  }

  lemma GraftParent(t: Fs, s: Path, d: Path, names: set<string>, q: Path)
    requires WellFormed(t) && Disjoint(s, d) && IsDir(t, s) && IsDir(t, d)
    requires NoDirReplaced(t, s, d)
    requires q in Graft(t, s, d, names) && q != []
    ensures Parent(q) in Graft(t, s, d, names) && Graft(t, s, d, names)[Parent(q)].Dir?
  {
    var pq := Parent(q);
    if CoveredBy(t, s, d, names, q) {
      var x := q[|d|..];
      if |x| == 1 {
        assert pq == d;
        assert !CoveredBy(t, s, d, names, pq);
      } else {
        assert pq[|d|..] == Parent(s + x)[|s|..];
        assert s + pq[|d|..] == Parent(s + x);
        assert CoveredBy(t, s, d, names, pq);
      }
    } else {
      assert q in t;
      if CoveredBy(t, s, d, names, pq) {
        assert Covered(t, s, d, pq);
      }
    }
  }

  /** A graft keeps the tree well formed as long as no directory turns into a file. */
  lemma GraftWellFormed(t: Fs, s: Path, d: Path, names: set<string>)
    requires WellFormed(t) && Disjoint(s, d) && IsDir(t, s) && IsDir(t, d)
    requires NoDirReplaced(t, s, d)
    ensures WellFormed(Graft(t, s, d, names))
  {
    assert !CoveredBy(t, s, d, names, []);
    forall q | q in Graft(t, s, d, names) && q != []
      ensures Parent(q) in Graft(t, s, d, names) && Graft(t, s, d, names)[Parent(q)].Dir?
    {
      GraftParent(t, s, d, names, q);
    }
  }

  // ---------------------------------------------------------------------------
  // Size of a subtree, for termination of the recursive walks
  // ---------------------------------------------------------------------------

  /** p and every entry below it. */
  function Region(t: Fs, p: Path): set<Path> {
    set q | q in t && p <= q
  }

  lemma RegionShrinks(t: Fs, u: Fs, p: Path, x: string)
    requires p in t
    requires forall q | q in u && p <= q :: q in t
    ensures |Region(u, p + [x])| < |Region(t, p)|
  {
    var a, b := Region(u, p + [x]), Region(t, p);
    forall q | q in a ensures q in b {
      assert q[..|p|] == (p + [x])[..|p|] == p;
      assert p <= q;
    }
    assert p in b && p !in a;
    SubsetSize(a, b - {p});
  }

  /** The subtree of a child still to be copied is smaller than the whole. */
  lemma GraftRegionShrinks(t: Fs, s: Path, d: Path, names: set<string>, x: string)
    requires Disjoint(s, d) && x !in names && s in t
    ensures |Region(Graft(t, s, d, names), s + [x])| < |Region(t, s)|
  {
    var g := Graft(t, s, d, names);
    forall q | q in g && s <= q ensures q in t {
      NotCoveredBy(t, s, d, names, q);
    }
    RegionShrinks(t, g, s, x);
  }

  lemma {:induction false} SubsetSize<T>(a: set<T>, b: set<T>)
    requires a <= b
    ensures |a| <= |b|
  {
    if a != {} {
      var x :| x in a;
      SubsetSize(a - {x}, b - {x});
    }
  }

  /** What a partial graft leaves alone: the source tree, and each destination
      child not grafted yet. */
  lemma GraftChildView(t: Fs, s: Path, d: Path, names: set<string>, x: string)
    requires Disjoint(s, d) && x !in names
    ensures forall q | s <= q || d + [x] <= q ::
      (q in Graft(t, s, d, names) <==> q in t) && (q in t ==> Graft(t, s, d, names)[q] == t[q])
    ensures SameKinds(t, s, d) ==> SameKinds(Graft(t, s, d, names), s + [x], d + [x])
    ensures NoDirReplaced(t, s, d) ==> NoDirReplaced(Graft(t, s, d, names), s + [x], d + [x])
  {
    var g := Graft(t, s, d, names);
    var sx, dx := s + [x], d + [x];
    forall q | s <= q || dx <= q ensures !CoveredBy(t, s, d, names, q) {
      if dx <= q {
        assert d < q && q[|d|] == x;
      }
      NotCoveredBy(t, s, d, names, q);
    }
    forall q | q in g && Covered(g, sx, dx, q)
      ensures q in t && Covered(t, s, d, q) && sx + q[|dx|..] in t
      ensures g[q] == t[q] && g[sx + q[|dx|..]] == t[sx + q[|dx|..]]
      ensures s + q[|d|..] == sx + q[|dx|..]
    {
      var y := sx + q[|dx|..];
      assert q == d + [x] + q[|dx|..];
      assert q[|d|..] == [x] + q[|dx|..];
      assert s + q[|d|..] == y;
      assert s <= y && dx <= q;
      assert y in t && q in t;
    }
  }

  /** The path facts a step of a child-by-child walk needs about child x. */
  lemma ChildReady(t: Fs, s: Path, d: Path, names: set<string>, x: string)
    requires WellFormed(t) && Disjoint(s, d) && IsDir(t, s) && IsDir(t, d)
    requires x in Listing(t, s) && x !in names
    ensures var g := Graft(t, s, d, names);
      && Disjoint(s + [x], d + [x])
      && s + [x] in g && g[s + [x]] == t[s + [x]]
      && (d + [x] in g <==> d + [x] in t) && (d + [x] in g ==> g[d + [x]] == t[d + [x]])
      && d + [x] != [] && Parent(d + [x]) == d && IsDir(g, d)
      && (d + [x] in t ==> Covered(t, s, d, d + [x]) && s + (d + [x])[|d|..] == s + [x])
  {
    var sx, dx := s + [x], d + [x];
    DisjointChildren(s, d, x);
    ListingMember(t, s, x);
    NotCoveredBy(t, s, d, names, sx);
    assert dx[..|d|] == d && dx[|d|..] == [x];
    if dx[|d|] !in names {
      NotCoveredBy(t, s, d, names, dx);
    }
  }

  /** Writing a file where no directory stands keeps the tree well formed. */
  lemma PutFileWellFormed(t: Fs, p: Path, data: string)
    requires WellFormed(t) && p != [] && IsDir(t, Parent(p)) && !IsDir(t, p)
    ensures WellFormed(t[p := File(data)])
  {
    var u := t[p := File(data)];
    forall q | q in u && q != [] ensures Parent(q) in u && u[Parent(q)].Dir? {
    }
  }

  // ---------------------------------------------------------------------------
  // Removing child by child
  // ---------------------------------------------------------------------------

  /** The tree without the children of d named in `names`, and what lies below them. */
  function PrunedBy(t: Fs, d: Path, names: set<string>): (r: Fs)
    ensures forall q {:trigger q in r} :: q in r <==> q in t && !(d < q && q[|d|] in names)
    ensures forall q {:trigger r[q]} | q in r :: r[q] == t[q]
  {
    map q | q in t && !(d < q && q[|d|] in names) :: t[q]
  }

  lemma PrunedWellFormed(t: Fs, p: Path)
    requires WellFormed(t) && p != []
    ensures WellFormed(Pruned(t, p))
  {
    var r := Pruned(t, p);
    forall q | q in r && q != [] ensures Parent(q) in r && r[Parent(q)].Dir? {
      assert Parent(q) <= q;
    }
  }

  /** Removing a file removes nothing else. */
  lemma FilePruned(t: Fs, p: Path)
    requires WellFormed(t) && p in t && t[p].File?
    ensures t - {p} == Pruned(t, p)
  {
    forall q ensures q in t - {p} <==> q in Pruned(t, p) {
      if q in t && p <= q && q != p {
        assert p < q;
        StrictAncestorIsDir(t, p, q);
      }
    }
    assert (t - {p}).Keys == Pruned(t, p).Keys;
  }

  lemma RemoveAbsent(t: Fs, p: Path)
    requires p !in t
    ensures t - {p} == t
  {
    assert (t - {p}).Keys == t.Keys;
  }

  lemma PrunedByNone(t: Fs, d: Path)
    ensures PrunedBy(t, d, {}) == t
  {
    assert PrunedBy(t, d, {}).Keys == t.Keys;
  }

  lemma PrunedByStep(t: Fs, d: Path, names: set<string>, x: string)
    ensures Pruned(PrunedBy(t, d, names), d + [x]) == PrunedBy(t, d, names + {x})
  {
    var lhs, rhs := Pruned(PrunedBy(t, d, names), d + [x]), PrunedBy(t, d, names + {x});
    forall q ensures d + [x] <= q <==> d < q && q[|d|] == x {
      if d < q && q[|d|] == x {
        assert q[..|d| + 1] == d + [x];
      }
    }
    assert lhs.Keys == rhs.Keys;
  }

  lemma PrunedByAll(t: Fs, d: Path)
    requires WellFormed(t)
    ensures PrunedBy(t, d, Listing(t, d)) - {d} == Pruned(t, d)
  {
    var names := Listing(t, d);
    var lhs, rhs := PrunedBy(t, d, names) - {d}, Pruned(t, d);
    forall q ensures q in lhs <==> q in rhs {
      if q in t && d <= q && q != d {
        assert d < q;
        ListingComplete(t, d, q);
        assert q[|d|] in names;
      }
    }
    assert lhs.Keys == rhs.Keys;
  }

  // ---------------------------------------------------------------------------
  // Moving one subtree into another
  // ---------------------------------------------------------------------------

  /** Path q lies below child x of d. */
  lemma ChildPrefix(d: Path, x: string, q: Path)
    ensures d + [x] <= q <==> d < q && q[|d|] == x
  {
    if d < q && q[|d|] == x {
      assert q[..|d| + 1] == d + [x];
    }
  }

  /** Every directory on the way from d down to the counterpart of q exists, so
      a move of s into d recursed all the way to q and left it in place. */
  predicate Kept(t: Fs, s: Path, d: Path, q: Path)
    decreases |q|
  {
    && s < q && IsDir(t, d + q[|s|..])
    && (|q| == |s| + 1 || Kept(t, s, d, q[..|q| - 1]))
  }

  /** A kept path has every ancestor below s kept as well. */
  lemma {:induction false} KeptPrefix(t: Fs, s: Path, d: Path, q: Path, k: nat)
    requires Kept(t, s, d, q) && |s| < k <= |q|
    ensures Kept(t, s, d, q[..k])
    decreases |q|
  {
    if k < |q| {
      var pq := q[..|q| - 1];
      KeptPrefix(t, s, d, pq, k);
      assert pq[..k] == q[..k];
    } else {
      assert q[..k] == q;
    }
  }

  /** s moved into d: d becomes the overlay of s, and below s only the
      directories a merge went through are left (emptied of everything else). */
  function Patched(t: Fs, s: Path, d: Path): (r: Fs)
    ensures forall q {:trigger q in r} :: q in r <==> (q in t || Covered(t, s, d, q)) && !(s < q && !Kept(t, s, d, q))
    ensures forall q {:trigger r[q]} | q in r :: r[q] == Overlay(t, s, d)[q]
  {
    var o := Overlay(t, s, d);
    map q | q in o && !(s < q && !Kept(t, s, d, q)) :: o[q]
  }

  /** Once s is removed, moving s into d and copying s over d agree. */
  lemma MoveIsCopy(t: Fs, s: Path, d: Path)
    ensures Pruned(Patched(t, s, d), s) == Pruned(Overlay(t, s, d), s)
  {
    var a, b := Pruned(Patched(t, s, d), s), Pruned(Overlay(t, s, d), s);
    assert a.Keys == b.Keys;
  }

  /** A copy is well defined wherever a move is. */
  lemma SameKindsNoDirReplaced(t: Fs, s: Path, d: Path)
    requires SameKinds(t, s, d)
    ensures NoDirReplaced(t, s, d)
  {
  }

  /** Below the child q[|s|] of s, already moved, q is gone. */
  predicate Moved(t: Fs, s: Path, d: Path, names: set<string>, q: Path) {
    s < q && q[|s|] in names && !Kept(t, s, d, q)
  }

  /** The move of s into d restricted to the children named in `names`. */
  function PatchGraft(t: Fs, s: Path, d: Path, names: set<string>): (r: Fs)
    ensures forall q {:trigger q in r} :: q in r <==> (q in t || CoveredBy(t, s, d, names, q)) && !Moved(t, s, d, names, q)
    ensures forall q {:trigger r[q]} | q in r :: r[q] == Graft(t, s, d, names)[q]
  {
    var g := Graft(t, s, d, names);
    map q | q in g && !Moved(t, s, d, names, q) :: g[q]
  }

  lemma PatchGraftNone(t: Fs, s: Path, d: Path)
    ensures PatchGraft(t, s, d, {}) == t
  {
    GraftNone(t, s, d);
    assert PatchGraft(t, s, d, {}).Keys == t.Keys;
  }

  lemma PatchGraftAll(t: Fs, s: Path, d: Path)
    requires WellFormed(t) && Disjoint(s, d) && IsDir(t, s) && IsDir(t, d)
    ensures PatchGraft(t, s, d, Listing(t, s)) == Patched(t, s, d)
  {
    var names := Listing(t, s);
    GraftAll(t, s, d);
    var lhs, rhs := PatchGraft(t, s, d, names), Patched(t, s, d);
    forall q | q in t && s < q ensures q[|s|] in names {
      ListingComplete(t, s, q);
    }
    forall q | Covered(t, s, d, q) ensures !(s < q) {
      DisjointJoin(s, d, q[|d|..]);
      assert q == d + q[|d|..];
    }
    assert lhs.Keys == rhs.Keys;
  }

  /** A partial move leaves the child x of s and the child x of d as they were. */
  lemma PatchChildView(t: Fs, s: Path, d: Path, names: set<string>, x: string)
    requires Disjoint(s, d) && x !in names
    ensures var g := PatchGraft(t, s, d, names); forall r ::
      && (s + [x] + r in g <==> s + [x] + r in t) && (s + [x] + r in t ==> g[s + [x] + r] == t[s + [x] + r])
      && (d + [x] + r in g <==> d + [x] + r in t) && (d + [x] + r in t ==> g[d + [x] + r] == t[d + [x] + r])
  {
    var g := PatchGraft(t, s, d, names);
    forall r
      ensures s + [x] + r in g <==> s + [x] + r in t
      ensures s + [x] + r in t ==> g[s + [x] + r] == t[s + [x] + r]
      ensures d + [x] + r in g <==> d + [x] + r in t
      ensures d + [x] + r in t ==> g[d + [x] + r] == t[d + [x] + r]
    {
      var sq, dq := s + [x] + r, d + [x] + r;
      ChildPrefix(s, x, sq);
      ChildPrefix(d, x, dq);
      NotCoveredBy(t, s, d, names, sq);
      NotCoveredBy(t, s, d, names, dq);
      DisjointJoin(s, d, [x] + r);
      assert sq == s + ([x] + r) && dq == d + ([x] + r);
    }
  }

  lemma PatchChildReady(t: Fs, s: Path, d: Path, names: set<string>, x: string)
    requires WellFormed(t) && Disjoint(s, d) && IsDir(t, s) && IsDir(t, d)
    requires x in Listing(t, s) && x !in names
    ensures var g := PatchGraft(t, s, d, names);
      && Disjoint(s + [x], d + [x]) && s + [x] != []
      && s + [x] in g && g[s + [x]] == t[s + [x]]
      && (d + [x] in g <==> d + [x] in t) && (d + [x] in g ==> g[d + [x]] == t[d + [x]])
      && d + [x] != [] && Parent(d + [x]) == d && IsDir(g, d)
  {
    PatchChildView(t, s, d, names, x);
    DisjointChildren(s, d, x);
    ListingMember(t, s, x);
    assert (s + [x]) + [] == s + [x] && (d + [x]) + [] == d + [x];
    assert !Moved(t, s, d, names, d) && !CoveredBy(t, s, d, names, d);
  }

  lemma PatchChildNoDirReplaced(t: Fs, s: Path, d: Path, names: set<string>, x: string)
    requires Disjoint(s, d) && x !in names && NoDirReplaced(t, s, d)
    ensures NoDirReplaced(PatchGraft(t, s, d, names), s + [x], d + [x])
  {
    var g := PatchGraft(t, s, d, names);
    var sx, dx := s + [x], d + [x];
    PatchChildView(t, s, d, names, x);
    forall q | q in g && Covered(g, sx, dx, q) ensures g[q].Dir? ==> g[sx + q[|dx|..]].Dir? {
      var r := q[|dx|..];
      assert q == dx + r;
      assert q[|d|..] == [x] + r;
      assert s + q[|d|..] == sx + r;
      assert Covered(t, s, d, q);
    }
  }

  lemma PatchRegionShrinks(t: Fs, s: Path, d: Path, names: set<string>, x: string)
    requires Disjoint(s, d) && s in t
    ensures |Region(PatchGraft(t, s, d, names), s + [x])| < |Region(t, s)|
  {
    var g := PatchGraft(t, s, d, names);
    forall q | q in g && s <= q ensures q in t {
      NotCoveredBy(t, s, d, names, q);
    }
    RegionShrinks(t, g, s, x);
  }

  /** Whether the path down to a child's counterpart is all directories, seen
      from the parent or from the child. */
  lemma {:induction false} KeptChild(t: Fs, g: Fs, s: Path, d: Path, x: string, q: Path)
    requires s + [x] < q
    requires forall r :: IsDir(g, d + [x] + r) <==> IsDir(t, d + [x] + r)
    ensures Kept(t, s, d, q) <==> IsDir(t, d + [x]) && Kept(g, s + [x], d + [x], q)
    decreases |q|
  {
    var sx, dx := s + [x], d + [x];
    var pq := q[..|q| - 1];
    assert q[..|s| + 1] == sx;
    assert q[|s|..] == [x] + q[|sx|..];
    assert d + q[|s|..] == d + [x] + q[|sx|..];
    assert IsDir(t, d + q[|s|..]) <==> IsDir(g, dx + q[|sx|..]);
    assert s < q;
    if |q| == |sx| + 1 {
      assert pq == sx;
      assert pq[|s|..] == [x];
      assert Kept(t, s, d, pq) <==> IsDir(t, dx);
    } else {
      assert pq[..|s| + 1] == sx;
      assert sx < pq && s < pq;
      KeptChild(t, g, s, d, x, pq);
    }
  }

  /** Merging child x of s into an existing directory extends a partial move by x. */
  lemma PatchRecurseStep(t: Fs, s: Path, d: Path, names: set<string>, x: string)
    requires WellFormed(t) && Disjoint(s, d) && x !in names && IsDir(t, d + [x])
    ensures Patched(PatchGraft(t, s, d, names), s + [x], d + [x]) == PatchGraft(t, s, d, names + {x})
  {
    var g := PatchGraft(t, s, d, names);
    var lhs, rhs := Patched(g, s + [x], d + [x]), PatchGraft(t, s, d, names + {x});
    forall q
      ensures (q in lhs <==> q in rhs) && (q in lhs ==> lhs[q] == rhs[q])
    {
      ChildPrefix(s, x, q);
      ChildPrefix(d, x, q);
      if d + [x] <= q {
        RecurseBelowTarget(t, s, d, names, x, q);
      } else if s + [x] <= q {
        RecurseBelowSource(t, s, d, names, x, q);
      } else {
        assert !Covered(g, s + [x], d + [x], q);
      }
    }
    assert lhs.Keys == rhs.Keys;
  }

  lemma RecurseBelowTarget(t: Fs, s: Path, d: Path, names: set<string>, x: string, q: Path)
    requires Disjoint(s, d) && x !in names && d + [x] <= q
    ensures var g := PatchGraft(t, s, d, names);
      var lhs, rhs := Patched(g, s + [x], d + [x]), PatchGraft(t, s, d, names + {x});
      (q in lhs <==> q in rhs) && (q in lhs ==> lhs[q] == rhs[q])
  {
    var g := PatchGraft(t, s, d, names);
    var sx, dx := s + [x], d + [x];
    PatchChildView(t, s, d, names, x);
    var r := q[|dx|..];
    assert q == dx + r && q[|d|..] == [x] + r && s + q[|d|..] == sx + r;
    DisjointJoin(s, d, q[|d|..]);
    DisjointJoin(sx, dx, r);
    assert !(s < q) && !(sx < q);
    assert Covered(g, sx, dx, q) <==> CoveredBy(t, s, d, names + {x}, q);
  }

  lemma RecurseBelowSource(t: Fs, s: Path, d: Path, names: set<string>, x: string, q: Path)
    requires Disjoint(s, d) && x !in names && IsDir(t, d + [x]) && s + [x] <= q
    ensures var g := PatchGraft(t, s, d, names);
      var lhs, rhs := Patched(g, s + [x], d + [x]), PatchGraft(t, s, d, names + {x});
      (q in lhs <==> q in rhs) && (q in lhs ==> lhs[q] == rhs[q])
  {
    var g := PatchGraft(t, s, d, names);
    var sx, dx := s + [x], d + [x];
    PatchChildView(t, s, d, names, x);
    forall r ensures IsDir(g, d + [x] + r) <==> IsDir(t, d + [x] + r) {
    }
    DisjointJoin(s, d, q[|s|..]);
    assert q == s + q[|s|..];
    assert !(d < q);
    assert q == sx + q[|sx|..];
    assert !Covered(g, sx, dx, q);
    if sx < q {
      KeptChild(t, g, s, d, x, q);
    } else {
      assert q[|s|..] == [x];
      assert Kept(t, s, d, q);
    }
  }

  /** Moving child x of s onto a place where no directory stands (after unlinking
      a file there) extends a partial move by x. */
  lemma PatchMoveStep(t: Fs, s: Path, d: Path, names: set<string>, x: string)
    requires WellFormed(t) && Disjoint(s, d) && x !in names && !IsDir(t, d + [x])
    requires x in Listing(t, s)
    ensures Pruned(Overlay(PatchGraft(t, s, d, names) - {d + [x]}, s + [x], d + [x]), s + [x])
      == PatchGraft(t, s, d, names + {x})
  {
    var u := PatchGraft(t, s, d, names) - {d + [x]};
    var lhs, rhs := Pruned(Overlay(u, s + [x], d + [x]), s + [x]), PatchGraft(t, s, d, names + {x});
    PatchChildView(t, s, d, names, x);
    ListingMember(t, s, x);
    forall q
      ensures (q in lhs <==> q in rhs) && (q in lhs ==> lhs[q] == rhs[q])
    {
      ChildPrefix(s, x, q);
      ChildPrefix(d, x, q);
      if d + [x] <= q {
        MoveBelowTarget(t, s, d, names, x, q);
      } else if s + [x] <= q {
        MoveBelowSource(t, s, d, names, x, q);
      } else {
        assert !Covered(u, s + [x], d + [x], q);
      }
    }
    assert lhs.Keys == rhs.Keys;
  }

  lemma MoveBelowTarget(t: Fs, s: Path, d: Path, names: set<string>, x: string, q: Path)
    requires WellFormed(t) && Disjoint(s, d) && x !in names && !IsDir(t, d + [x])
    requires s + [x] in t && d + [x] <= q
    ensures var u := PatchGraft(t, s, d, names) - {d + [x]};
      var lhs, rhs := Pruned(Overlay(u, s + [x], d + [x]), s + [x]), PatchGraft(t, s, d, names + {x});
      (q in lhs <==> q in rhs) && (q in lhs ==> lhs[q] == rhs[q])
  {
    var g := PatchGraft(t, s, d, names);
    var u := g - {d + [x]};
    var sx, dx := s + [x], d + [x];
    var n2 := names + {x};
    PatchChildView(t, s, d, names, x);
    var r := q[|dx|..];
    assert q == dx + r && q[|d|..] == [x] + r && s + q[|d|..] == sx + r;
    DisjointJoin(s, d, q[|d|..]);
    DisjointJoin(sx, dx, r);
    assert !(s < q) && !(sx <= q);
    if q != dx && q in t {
      StrictAncestorIsDir(t, dx, q);
    }
    assert sx + r != dx;
    assert q in u <==> false;
    assert Covered(u, sx, dx, q) <==> CoveredBy(t, s, d, n2, q);
  }

  lemma MoveBelowSource(t: Fs, s: Path, d: Path, names: set<string>, x: string, q: Path)
    requires Disjoint(s, d) && !IsDir(t, d + [x]) && s + [x] <= q
    ensures var u := PatchGraft(t, s, d, names) - {d + [x]};
      q !in Pruned(Overlay(u, s + [x], d + [x]), s + [x]) && q !in PatchGraft(t, s, d, names + {x})
  {
    var sx := s + [x];
    assert q[..|s| + 1] == sx;
    assert s < q && q[|s|] == x;
    assert sx[|s|..] == [x];
    assert !Kept(t, s, d, sx);
    if Kept(t, s, d, q) {
      KeptPrefix(t, s, d, q, |s| + 1);
    }
  }

  // ---------------------------------------------------------------------------
  // Writing files and making directories
  // ---------------------------------------------------------------------------

  /** The tree after writing data to p, which succeeds only in an existing
      directory and where no directory stands. */
  function Written(t: Fs, p: Path, data: string): (r: Fs)
    requires p != []
    ensures IsDir(t, Parent(p)) && !IsDir(t, p) ==> p in r && r[p] == File(data)
    ensures !(IsDir(t, Parent(p)) && !IsDir(t, p)) ==> r == t
    ensures forall q {:trigger q in r} | q != p :: q in r <==> q in t
    ensures forall q {:trigger r[q]} | q in r && q != p :: r[q] == t[q]
  {
    if IsDir(t, Parent(p)) && !IsDir(t, p) then t[p := File(data)] else t
  }

  /** The tree with each of the first n non-empty prefixes of p that is missing
      added as a directory, shortest first. */
  function WithDirs(t: Fs, p: Path, n: nat): Fs
    requires n <= |p|
  {
    if n == 0 then t
    else
      var u := WithDirs(t, p, n - 1);
      if p[..n] in u then u else u[p[..n] := Dir]
  }

  lemma {:induction false} WithDirsEntries(t: Fs, p: Path, n: nat)
    requires n <= |p|
    ensures forall q :: q in WithDirs(t, p, n) <==> q in t || (q <= p && 1 <= |q| <= n)
    ensures forall q | q in t :: WithDirs(t, p, n)[q] == t[q]
    ensures forall q | q in WithDirs(t, p, n) && q !in t :: WithDirs(t, p, n)[q] == Dir
  {
    if n > 0 {
      WithDirsEntries(t, p, n - 1);
      forall q | q <= p && |q| == n ensures q == p[..n] {
      }
    }
  }

  lemma {:induction false} WithDirsPresent(t: Fs, p: Path, n: nat)
    requires n <= |p| && forall i | 1 <= i <= n :: p[..i] in t
    ensures WithDirs(t, p, n) == t
  {
    if n > 0 {
      WithDirsPresent(t, p, n - 1);
    }
  }

  /** Adding a directory inside a directory keeps the tree well formed. */
  lemma PutDirWellFormed(t: Fs, p: Path)
    requires WellFormed(t) && p != [] && IsDir(t, Parent(p)) && p !in t
    ensures WellFormed(t[p := Dir])
  {
  }

  /** No prefix of p shorter than n and than p is a file of t. */
  predicate PrefixesAreDirs(t: Fs, p: Path, n: nat) {
    forall j | 0 <= j < n && j < |p| :: p[..j] in t ==> t[p[..j]].Dir?
  }

  /** One step of `ensure_dir`: what looking at the k-th prefix of p leads to. */
  lemma EnsureDirStep(t: Fs, p: Path, k: nat, u: Fs)
    requires WellFormed(t) && p !in t && 1 <= k <= |p|
    requires u == WithDirs(t, p, k - 1) && WellFormed(u) && IsDir(u, p[..k - 1])
    requires PrefixesAreDirs(t, p, k)
    ensures var q := p[..k];
      && (q !in u ==>
            WellFormed(u[q := Dir]) && u[q := Dir] == WithDirs(t, p, k) && PrefixesAreDirs(t, p, k + 1))
      && (q in u && (u[q].Dir? || k == |p|) ==>
            u == WithDirs(t, p, k) && IsDir(u, q) && PrefixesAreDirs(t, p, k + 1))
      && (q in u && u[q].File? && k < |p| ==> !Creatable(t, p) && u == t)
  {
    var q := p[..k];
    if q !in u {
      EnsureDirNew(t, p, k, u);
    } else if u[q].File? && k < |p| {
      EnsureDirBlocked(t, p, k, u);
    } else {
      EnsureDirFound(t, p, k, u);
    }
  }

  /** The k-th prefix is missing: it is made. */
  lemma EnsureDirNew(t: Fs, p: Path, k: nat, u: Fs)
    requires WellFormed(t) && p !in t && 1 <= k <= |p|
    requires u == WithDirs(t, p, k - 1) && WellFormed(u) && IsDir(u, p[..k - 1])
    requires PrefixesAreDirs(t, p, k) && p[..k] !in u
    ensures WellFormed(u[p[..k] := Dir]) && u[p[..k] := Dir] == WithDirs(t, p, k) && PrefixesAreDirs(t, p, k + 1)
  {
    var q := p[..k];
    assert Parent(q) == p[..k - 1];
    WithDirsEntries(t, p, k - 1);
    PutDirWellFormed(u, q);
  }

  /** The k-th prefix is a file below p: p cannot be made, and nothing was. */
  lemma EnsureDirBlocked(t: Fs, p: Path, k: nat, u: Fs)
    requires WellFormed(t) && p !in t && 1 <= k < |p|
    requires u == WithDirs(t, p, k - 1) && WellFormed(u) && IsDir(u, p[..k - 1])
    requires PrefixesAreDirs(t, p, k) && p[..k] in u && u[p[..k]].File?
    ensures !Creatable(t, p) && u == t
  {
    var q := p[..k];
    WithDirsEntries(t, p, k - 1);
    assert q in t;
    forall i | 1 <= i <= k - 1 ensures p[..i] in t {
      AncestorIsDir(t, q, i);
      assert q[..i] == p[..i];
    }
    WithDirsPresent(t, p, k - 1);
  }

  /** The k-th prefix is there already. */
  lemma EnsureDirFound(t: Fs, p: Path, k: nat, u: Fs)
    requires WellFormed(t) && p !in t && 1 <= k <= |p|
    requires u == WithDirs(t, p, k - 1) && WellFormed(u) && IsDir(u, p[..k - 1])
    requires PrefixesAreDirs(t, p, k) && p[..k] in u && (u[p[..k]].Dir? || k == |p|)
    ensures u == WithDirs(t, p, k) && IsDir(u, p[..k]) && PrefixesAreDirs(t, p, k + 1)
  {
    var q := p[..k];
    assert k == |p| ==> q == p;
    WithDirsEntries(t, p, k - 1);
    assert q in t;
  }

  /** True when no proper prefix of p in t is a file, so that p can be created. */
  predicate Creatable(t: Fs, p: Path) {
    PrefixesAreDirs(t, p, |p|)
  }

  /** True when `os.makedirs(p)` either creates p or finds it there. */
  predicate Makeable(t: Fs, p: Path) {
    p in t || Creatable(t, p)
  }

  /** The tree `os.makedirs(p)` leaves behind, an existing p accepted. */
  function Made(t: Fs, p: Path): (r: Fs)
    ensures !Makeable(t, p) ==> r == t
    ensures Makeable(t, p) && p != [] ==> p in r
    ensures t.Keys <= r.Keys
  {
    if p in t || !Creatable(t, p) then t
    else
      WithDirsEntries(t, p, |p|);
      WithDirs(t, p, |p|)
  }

  /** `makeDir` of install_pack.js: a missing p is created when its parent
      is a directory. */
  function DirMade(t: Fs, p: Path): (r: Fs)
    requires p != []
    ensures p in t ==> r == t
    ensures p !in t ==> (p in r <==> IsDir(t, Parent(p)))
    ensures forall q {:trigger q in r} | q != p :: q in r <==> q in t
    ensures p in r && p !in t ==> r[p] == Dir
    ensures forall q {:trigger r[q]} | q in t :: q in r && r[q] == t[q]
  {
    if p !in t && IsDir(t, Parent(p)) then t[p := Dir] else t
  }

  /** `os.makedirs` only adds entries, leaves p present when it succeeds, and
      does nothing the second time. */
  lemma MadeEntries(t: Fs, p: Path)
    ensures t.Keys <= Made(t, p).Keys
    ensures forall q | q in t :: Made(t, p)[q] == t[q]
    ensures forall q | q in Made(t, p) && q !in t :: q <= p && Made(t, p)[q] == Dir
    ensures Makeable(t, p) && p != [] ==> p in Made(t, p)
    ensures Makeable(t, p) ==> Makeable(Made(t, p), p) && Made(Made(t, p), p) == Made(t, p)
  {
    if p !in t && Creatable(t, p) {
      WithDirsEntries(t, p, |p|);
    }
  }

  // ---------------------------------------------------------------------------
  // The disk
  // ---------------------------------------------------------------------------

  /** The file system both installers work on, changed in place. */
  class Disk {
    var fs: Fs

    ghost predicate Valid()
      reads this
    {
      WellFormed(fs)
    }

    constructor (t: Fs)
      requires WellFormed(t)
      ensures Valid() && fs == t
    {
      fs := t;
    }

    /** `shutil.copytree(src, dst)`: copies directory src as the new directory dst. */
    method CopyNewTree(src: Path, dst: Path)
      requires Valid() && Disjoint(src, dst) && IsDir(fs, src)
      requires dst !in fs && IsDir(fs, Parent(dst))
      modifies this
      ensures Valid() && fs == Overlay(old(fs), src, dst)
    {
      AbsentSameKinds(fs, src, dst);
      OverlayWellFormed(fs, src, dst);
      fs := Overlay(fs, src, dst);
    }

    /** `shutil.copy2(src, dst)` onto a path that is not a directory. */
    method CopyFile(src: Path, dst: Path)
      requires Valid() && src in fs && fs[src].File?
      requires dst != [] && IsDir(fs, Parent(dst)) && !IsDir(fs, dst)
      modifies this
      ensures Valid() && fs == old(fs)[dst := old(fs)[src]]
    {
      PutFileWellFormed(fs, dst, fs[src].data);
      fs := fs[dst := fs[src]];
    }

    /** `fs.unlinkSync` of a file. */
    method Unlink(p: Path)
      requires Valid() && p in fs && fs[p].File?
      modifies this
      ensures Valid() && fs == old(fs) - {p}
    {
      FilePruned(fs, p);
      PrunedWellFormed(fs, p);
      fs := fs - {p};
    }

    /** `fs.renameSync(src, dst)` onto a path that does not exist: src and its
        subtree move to dst. */
    method Rename(src: Path, dst: Path)
      requires Valid() && src in fs && src != [] && Disjoint(src, dst)
      requires dst !in fs && dst != [] && IsDir(fs, Parent(dst))
      modifies this
      ensures Valid() && fs == Pruned(Overlay(old(fs), src, dst), src)
    {
      if fs[src].Dir? {
        AbsentSameKinds(fs, src, dst);
        OverlayWellFormed(fs, src, dst);
      } else {
        OverlayOfFile(fs, src, dst);
        PutFileWellFormed(fs, dst, fs[src].data);
      }
      PrunedWellFormed(Overlay(fs, src, dst), src);
      fs := Pruned(Overlay(fs, src, dst), src);
    }

    /** `rmdir` of install_pack.js: removes directory d and everything below it,
        child by child; a missing d is left alone. */
    method RmDir(d: Path)
      requires Valid() && d != [] && (d in fs ==> fs[d].Dir?)
      modifies this
      ensures Valid() && fs == Pruned(old(fs), d)
      decreases |Region(fs, d)|
    {
      if d !in fs {
        forall q | q in fs ensures !(d <= q) {
          AbsentHasNothingBelow(fs, d, q);
        }
        assert Pruned(fs, d).Keys == fs.Keys;
        return;
      }
      ghost var t := fs;
      var items := Listing(fs, d);
      ghost var all, done: set<string> := items, {};
      PrunedByNone(t, d);
      while items != {}
        invariant items + done == all && items !! done
        invariant fs == PrunedBy(t, d, done) && Valid()
        decreases items
      {
        var item :| item in items;
        var c := d + [item];
        ListingMember(t, d, item);
        assert c[|d|] == item && d < c;
        if fs[c].Dir? {
          RegionShrinks(t, fs, d, item);
          RmDir(c);
        } else {
          FilePruned(fs, c);
          Unlink(c);
        }
        PrunedByStep(t, d, done, item);
        items := items - {item};
        done := done + {item};
      }
      PrunedByAll(t, d);
      PrunedWellFormed(t, d);
      fs := fs - {d};
    }

    /** Unlinks a file at dst, if there is one, and renames src onto dst. */
    method Replace(src: Path, dst: Path)
      requires Valid() && src in fs && src != [] && Disjoint(src, dst)
      requires dst != [] && IsDir(fs, Parent(dst)) && !IsDir(fs, dst)
      modifies this
      ensures Valid() && fs == Pruned(Overlay(old(fs) - {dst}, src, dst), src)
    {
      if dst in fs {
        Unlink(dst);
      } else {
        RemoveAbsent(fs, dst);
      }
      Rename(src, dst);
    }

    /** `patchDirs(dir, patch)` of install_pack.js: every entry of patch is
        renamed into dir, except that one meeting a directory of dir is merged
        into it recursively; a file in the way is unlinked first. */
    method PatchDirs(dir: Path, patch: Path)
      requires Valid() && Disjoint(patch, dir) && IsDir(fs, patch) && IsDir(fs, dir)
      requires NoDirReplaced(fs, patch, dir)
      modifies this
      ensures Valid() && fs == Patched(old(fs), patch, dir)
      decreases |Region(fs, patch)|, 1
    {
      ghost var t := fs;
      var items := Listing(fs, patch);
      ghost var all, done: set<string> := items, {};
      PatchGraftNone(t, patch, dir);
      while items != {}
        invariant items + done == all && items !! done
        invariant fs == PatchGraft(t, patch, dir, done) && Valid()
        decreases items
      {
        var item :| item in items;
        PatchEntry(dir, patch, item, t, done);
        items := items - {item};
        done := done + {item};
      }
      PatchGraftAll(t, patch, dir);
    }

    /** The body of the loop in `patchDirs`, for one entry of patch. */
    method PatchEntry(dir: Path, patch: Path, item: string, ghost t: Fs, ghost done: set<string>)
      requires Valid() && WellFormed(t) && Disjoint(patch, dir) && IsDir(t, patch) && IsDir(t, dir)
      requires NoDirReplaced(t, patch, dir)
      requires item in Listing(t, patch) && item !in done && fs == PatchGraft(t, patch, dir, done)
      modifies this
      ensures Valid() && fs == PatchGraft(t, patch, dir, done + {item})
      decreases |Region(t, patch)|, 0
    {
      var p, d := patch + [item], dir + [item];
      PatchChildReady(t, patch, dir, done, item);
      if d in fs && fs[d].Dir? {
        PatchChildNoDirReplaced(t, patch, dir, done, item);
        assert d[|dir|..] == [item] && Covered(t, patch, dir, d);
        PatchRegionShrinks(t, patch, dir, done, item);
        PatchRecurseStep(t, patch, dir, done, item);
        PatchDirs(d, p);
      } else {
        PatchMoveStep(t, patch, dir, done, item);
        Replace(p, d);
      }
    }

    /** Writes data to p (`open(p, 'wb')`, `fs.createWriteStream`); ok reports
        whether the file could be opened. */
    method WriteFile(p: Path, data: string) returns (ok: bool)
      requires Valid() && p != []
      modifies this
      ensures Valid() && fs == Written(old(fs), p, data)
      ensures ok <==> IsDir(old(fs), Parent(p)) && !IsDir(old(fs), p)
    {
      ok := IsDir(fs, Parent(p)) && !IsDir(fs, p);
      if ok {
        PutFileWellFormed(fs, p, data);
        fs := fs[p := File(data)];
      }
    }

    /** `makeDir` of install_pack.js: creates p when it is missing; ok is false
        when the parent is not a directory, and the tree is then unchanged. */
    method MakeDir(p: Path) returns (ok: bool)
      requires Valid() && p != []
      modifies this
      ensures Valid()
      ensures ok <==> p in old(fs) || IsDir(old(fs), Parent(p))
      ensures fs == DirMade(old(fs), p)
    {
      if p in fs {
        return true;
      }
      ok := IsDir(fs, Parent(p));
      if ok {
        PutDirWellFormed(fs, p);
        fs := fs[p := Dir];
      }
    }

    /** `ensure_dir` of install_pack.py (`os.makedirs`, an existing p accepted):
        creates every missing prefix of p, top down; ok is false when a proper
        prefix is a file, and the tree is then unchanged. */
    method EnsureDir(p: Path) returns (ok: bool)
      requires Valid()
      modifies this
      ensures Valid()
      ensures ok <==> Makeable(old(fs), p)
      ensures fs == Made(old(fs), p)
    {
      if p in fs {
        return true;
      }
      ghost var t := fs;
      var k := 1;
      ok := true;
      while k <= |p| && ok
        invariant 1 <= k <= |p| + 1
        invariant Valid()
        invariant ok ==> fs == WithDirs(t, p, k - 1) && IsDir(fs, p[..k - 1])
        invariant ok ==> PrefixesAreDirs(t, p, k)
        invariant !ok ==> !Creatable(t, p) && fs == t
        decreases |p| + 1 - k, ok
      {
        var q := p[..k];
        EnsureDirStep(t, p, k, fs);
        if q !in fs {
          fs := fs[q := Dir];
        } else if fs[q].File? && k < |p| {
          ok := false;
        }
        if ok {
          k := k + 1;
        }
      }
    }

    /** `copytree(src, dst)` of install_pack.py: directories of src that exist in
        dst are merged recursively, missing ones are copied whole, and files
        overwrite; the result is src laid over dst. */
    method CopyTree(src: Path, dst: Path)
      requires Valid() && Disjoint(src, dst) && IsDir(fs, src) && IsDir(fs, dst)
      requires SameKinds(fs, src, dst)
      modifies this
      ensures Valid() && fs == Overlay(old(fs), src, dst)
      decreases |Region(fs, src)|
    {
      ghost var t := fs;
      var items := Listing(fs, src);
      ghost var all, done: set<string> := items, {};
      GraftNone(t, src, dst);
      while items != {}
        invariant items + done == all && items !! done
        invariant fs == Graft(t, src, dst, done) && Valid()
        decreases items
      {
        var item :| item in items;
        var s, d := src + [item], dst + [item];
        ChildReady(t, src, dst, done, item);
        GraftChildView(t, src, dst, done, item);
        if fs[s].Dir? {
          if d in fs {
            GraftRegionShrinks(t, src, dst, done, item);
            CopyTree(s, d);
          } else {
            CopyNewTree(s, d);
          }
        } else {
          OverlayOfFile(fs, s, d);
          CopyFile(s, d);
        }
        GraftStep(t, src, dst, done, item);
        items := items - {item};
        done := done + {item};
        GraftWellFormed(t, src, dst, done);
      }
      GraftAll(t, src, dst);
    }
  }
}
