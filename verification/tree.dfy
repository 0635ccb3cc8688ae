/**
 The tree builder of `github.js` (lines 184-198): a flat list of blob paths
 becomes nested levels keyed by path segment. A level is the JavaScript
 object the source builds; a node is either a directory (a nested level) or a
 file carrying its full path, replacing the source's `__file` marker.

 The source keeps one quirk the model keeps too: when a directory segment
 meets an existing file entry (`cur[part] || {}` keeps the file object), the
 walk continues inside the file object, so the entries it adds there are
 attached to the file and are never rendered. `File.hidden` holds them.
 */
module Tree {
  import opened Wrappers
  import opened Text

  datatype Node =
    | Dir(children: map<string, Node>)
    | File(path: string, hidden: map<string, Node>)

  type Level = map<string, Node>

  /** `path.split('/')`. */
  function Segments(path: string): seq<string>
  {
    Split(path, '/')
  }

  predicate ProperPrefix(a: seq<string>, b: seq<string>)
  {
    |a| < |b| && a == b[..|a|]
  }

  /** One walk of the inner loop: create a directory for each missing segment
      but the last, then put a fresh file entry under the last segment. Only
      the key of the first segment changes at this level. */
  function Insert(m: Level, segs: seq<string>, path: string): (r: Level)
    requires |segs| >= 1
    ensures r.Keys == m.Keys + {segs[0]}
    ensures forall k :: k in m && k != segs[0] ==> r[k] == m[k]
    decreases |segs|, 0
  {
    var k := segs[0];
    if |segs| == 1 then m[k := File(path, map[])]
    else m[k := Descend(if k in m then m[k] else Dir(map[]), segs[1..], path)]
  }

  /** Continues a walk below an existing entry: inside a directory's level,
      or inside a file object's own properties when a file sits where a
      directory is wanted. */
  function Descend(n: Node, segs: seq<string>, path: string): Node
    requires |segs| >= 1
    decreases |segs|, 1
  {
    match n
    case Dir(c) => Dir(Insert(c, segs, path))
    case File(p, h) => File(p, Insert(h, segs, path))
  }

  function InsertPath(m: Level, path: string): Level
  {
    Insert(m, Segments(path), path)
  }

  /** The outer loop over the blob paths, in list order. */
  function BuildFrom(m: Level, paths: seq<string>): Level
    decreases |paths|
  {
    if |paths| == 0 then m else BuildFrom(InsertPath(m, paths[0]), paths[1..])
  }

  /** The root level built from an empty object. */
  function Build(paths: seq<string>): Level
  {
    BuildFrom(map[], paths)
  }

  /** Follows `segs` from a level through directories only, the way the
      renderer reaches nodes (it never looks inside a file entry). */
  function Lookup(m: Level, segs: seq<string>): Option<Node>
    requires |segs| >= 1
    decreases |segs|
  {
    var k := segs[0];
    if k !in m then None
    else if |segs| == 1 then Some(m[k])
    else match m[k]
      case Dir(c) => Lookup(c, segs[1..])
      case File(_, _) => None
  }

  // ----- what a well-built tree looks like ----------------------------------

  /** A node at location `loc`: a file entry sits exactly at its own path's
      segments and its path is one of `paths`; a directory is never empty and
      its entries are placed in turn. */
  ghost predicate NodePlaced(n: Node, loc: seq<string>, paths: set<string>)
  {
    match n
    case File(p, _) => p in paths && Segments(p) == loc
    case Dir(c) => c != map[] && forall k :: k in c ==> NodePlaced(c[k], loc + [k], paths)
  }

  ghost predicate Placed(m: Level, pre: seq<string>, paths: set<string>)
  {
    forall k :: k in m ==> NodePlaced(m[k], pre + [k], paths)
  }

  /** Inserting a path at the level its own segments lead to keeps the tree
      well placed. */
  lemma {:induction false} InsertPlaced(m: Level, pre: seq<string>, segs: seq<string>,
                                        p: string, paths: set<string>)
    requires |segs| >= 1
    requires Placed(m, pre, paths) && p in paths && pre + segs == Segments(p)
    ensures Placed(Insert(m, segs, p), pre, paths)
    decreases |segs|
  {
    var k := segs[0];
    var r := Insert(m, segs, p);
    if |segs| > 1 {
      var child := if k in m then m[k] else Dir(map[]);
      assert (pre + [k]) + segs[1..] == Segments(p) by {
        assert segs == [k] + segs[1..];
      }
      match child
      case Dir(c) =>
        InsertPlaced(c, pre + [k], segs[1..], p, paths);
        assert segs[1..][0] in Insert(c, segs[1..], p);
      case File(q, h) =>
    } else {
      assert pre + [k] == Segments(p);
    }
  }

  /** Inserting a path whose segments no existing file entry prefixes puts its
      file entry where its segments lead. */
  lemma {:induction false} InsertFinds(m: Level, pre: seq<string>, segs: seq<string>,
                                       p: string, paths: set<string>)
    requires |segs| >= 1
    requires Placed(m, pre, paths) && pre + segs == Segments(p)
    requires forall q :: q in paths ==> !ProperPrefix(Segments(q), Segments(p))
    ensures Lookup(Insert(m, segs, p), segs) == Some(File(p, map[]))
    decreases |segs|
  {
    var k := segs[0];
    if |segs| > 1 {
      assert (pre + [k]) + segs[1..] == Segments(p) by {
        assert segs == [k] + segs[1..];
      }
      assert ProperPrefix(pre + [k], Segments(p)) by {
        assert (pre + segs)[..|pre| + 1] == pre + [k];
      }
      // no file entry can sit at `pre + [k]`: its path would prefix `p`
      assert forall q :: q in paths ==> Segments(q) != pre + [k];
      if k in m {
        InsertFinds(m[k].children, pre + [k], segs[1..], p, paths);
      } else {
        InsertFinds(map[], pre + [k], segs[1..], p, paths);
      }
    }
  }

  /** Inserting a path never disturbs a file entry whose segments neither
      prefix nor extend the inserted ones. */
  lemma {:induction false} InsertKeeps(m: Level, a: seq<string>, q: string, b: seq<string>, p: string)
    requires |a| >= 1 && |b| >= 1
    requires Lookup(m, a) == Some(File(q, map[]))
    requires a == b ==> p == q
    requires !ProperPrefix(a, b) && !ProperPrefix(b, a)
    ensures Lookup(Insert(m, b, p), a) == Some(File(q, map[]))
    decreases |a|
  {
    if a[0] == b[0] {
      assert a == [a[0]] + a[1..] && b == [b[0]] + b[1..];
      assert |a| == 1 && |b| > 1 ==> ProperPrefix(a, b);
      assert |b| == 1 && |a| > 1 ==> ProperPrefix(b, a);
      if |a| > 1 {
        assert ProperPrefix(a[1..], b[1..]) ==> ProperPrefix(a, b);
        assert ProperPrefix(b[1..], a[1..]) ==> ProperPrefix(b, a);
        InsertKeeps(m[a[0]].children, a[1..], q, b[1..], p);
      }
    }
  }

  /** Neither path's segments properly prefix the other's: the two paths
      never put a file entry where the other needs a directory. */
  predicate Compatible(p: string, q: string)
  {
    !ProperPrefix(Segments(p), Segments(q)) && !ProperPrefix(Segments(q), Segments(p))
  }

  /** No path of the list is a directory of another, which a repository
      listing guarantees. */
  predicate PrefixFree(paths: seq<string>)
  {
    forall p, q :: p in paths && q in paths ==> Compatible(p, q)
  }

  lemma {:induction false} BuildPlaced(m: Level, ps: seq<string>, paths: set<string>)
    requires Placed(m, [], paths)
    requires forall p :: p in ps ==> p in paths
    ensures Placed(BuildFrom(m, ps), [], paths)
    decreases |ps|
  {
    if |ps| > 0 {
      assert [] + Segments(ps[0]) == Segments(ps[0]);
      InsertPlaced(m, [], Segments(ps[0]), ps[0], paths);
      BuildPlaced(InsertPath(m, ps[0]), ps[1..], paths);
    }
  }

  lemma {:induction false} BuildKeeps(m: Level, ps: seq<string>, p: string)
    requires Lookup(m, Segments(p)) == Some(File(p, map[]))
    requires forall q :: q in ps ==> Compatible(p, q)
    ensures Lookup(BuildFrom(m, ps), Segments(p)) == Some(File(p, map[]))
    decreases |ps|
  {
    if |ps| > 0 {
      var q := ps[0];
      assert q in ps;
      if Segments(q) == Segments(p) { SplitInjective(q, p, '/'); }
      InsertKeeps(m, Segments(p), p, Segments(q), q);
      BuildKeeps(InsertPath(m, q), ps[1..], p);
    }
  }

  lemma {:induction false} BuildFinds(m: Level, ps: seq<string>, p: string, paths: set<string>)
    requires Placed(m, [], paths)
    requires forall q :: q in ps ==> q in paths
    requires p in ps
    requires forall q :: q in paths ==> Compatible(p, q)
    ensures Lookup(BuildFrom(m, ps), Segments(p)) == Some(File(p, map[]))
    decreases |ps|
  {
    assert [] + Segments(ps[0]) == Segments(ps[0]);
    if ps[0] == p {
      assert [] + Segments(p) == Segments(p);
      InsertFinds(m, [], Segments(p), p, paths);
      BuildKeeps(InsertPath(m, p), ps[1..], p);
    } else {
      InsertPlaced(m, [], Segments(ps[0]), ps[0], paths);
      BuildFinds(InsertPath(m, ps[0]), ps[1..], p, paths);
    }
  }

  /** Every blob path becomes a file entry carrying that very path, reached
      by following its `/`-segments from the root. */
  lemma BuildLeaves(paths: seq<string>, p: string)
    requires PrefixFree(paths)
    requires p in paths
    ensures Lookup(Build(paths), Segments(p)) == Some(File(p, map[]))
  {
    var s := set q | q in paths;
    BuildFinds(map[], paths, p, s);
  }

  lemma {:induction false} LookupPlaced(m: Level, pre: seq<string>, segs: seq<string>, paths: set<string>)
    requires |segs| >= 1
    requires Placed(m, pre, paths)
    requires Lookup(m, segs).Some?
    ensures NodePlaced(Lookup(m, segs).value, pre + segs, paths)
    decreases |segs|
  {
    var k := segs[0];
    if |segs| > 1 {
      assert (pre + [k]) + segs[1..] == pre + segs by {
        assert segs == [k] + segs[1..];
      }
      LookupPlaced(m[k].children, pre + [k], segs[1..], paths);
    } else {
      assert segs == [k];
    }
  }

  /** Everything the renderer can reach is sound: a file entry found at
      `segs` came from the list and its path splits into exactly `segs`;
      a directory found is never empty, so directories never appear as
      leaves. Needs no assumption on the list. */
  lemma BuildSound(paths: seq<string>, segs: seq<string>)
    requires |segs| >= 1
    ensures match Lookup(Build(paths), segs)
      case Some(File(q, _)) => q in paths && Segments(q) == segs
      case Some(Dir(c)) => c != map[]
      case None => true
  {
    var s := set q | q in paths;
    BuildPlaced(map[], paths, s);
    if Lookup(Build(paths), segs).Some? {
      LookupPlaced(Build(paths), [], segs, s);
      assert [] + segs == segs;
    }
  }

  // ----- order independence -------------------------------------------------

  /** The entry a walk leaves under its first segment depends only on what
      was there before. */
  lemma InsertLocal(m1: Level, m2: Level, segs: seq<string>, p: string)
    requires |segs| >= 1
    requires segs[0] in m1 <==> segs[0] in m2
    requires segs[0] in m1 ==> m1[segs[0]] == m2[segs[0]]
    ensures Insert(m1, segs, p)[segs[0]] == Insert(m2, segs, p)[segs[0]]
  {
  }

  /** Walks that start at different keys commute. */
  lemma InsertCommuteApart(m: Level, a: seq<string>, p: string, b: seq<string>, q: string)
    requires |a| >= 1 && |b| >= 1 && a[0] != b[0]
    ensures Insert(Insert(m, a, p), b, q) == Insert(Insert(m, b, q), a, p)
  {
    var ma, mb := Insert(m, a, p), Insert(m, b, q);
    var l, r := Insert(ma, b, q), Insert(mb, a, p);
    InsertLocal(m, mb, a, p);
    InsertLocal(m, ma, b, q);
    assert l.Keys == r.Keys;
    forall k | k in l ensures l[k] == r[k] {
    }
  }

  /** Two walks that share a first key and continue past it meet again one
      level down. */
  lemma InsertSameKey(m: Level, a: seq<string>, p: string, b: seq<string>, q: string)
    requires |a| >= 2 && |b| >= 2 && a[0] == b[0]
    ensures var child := if a[0] in m then m[a[0]] else Dir(map[]);
      Insert(Insert(m, a, p), b, q) == m[a[0] := Descend(Descend(child, a[1..], p), b[1..], q)]
  {
  }

  /** Below a shared first key, neither tail prefixes the other. */
  lemma TailsApart(a: seq<string>, b: seq<string>)
    requires |a| >= 1 && |b| >= 1 && a[0] == b[0] && a != b
    requires !ProperPrefix(a, b) && !ProperPrefix(b, a)
    ensures |a| >= 2 && |b| >= 2
    ensures !ProperPrefix(a[1..], b[1..]) && !ProperPrefix(b[1..], a[1..]) && a[1..] != b[1..]
  {
    var k := a[0];
    assert a == [k] + a[1..] && b == [k] + b[1..];
    assert |a| == 1 ==> ProperPrefix(a, b);
    assert |b| == 1 ==> ProperPrefix(b, a);
    assert ProperPrefix(a[1..], b[1..]) ==> ProperPrefix(a, b);
    assert ProperPrefix(b[1..], a[1..]) ==> ProperPrefix(b, a);
  }

  /** Two walks whose segments neither prefix the other commute. */
  lemma {:induction false} InsertCommute(m: Level, a: seq<string>, p: string, b: seq<string>, q: string)
    requires |a| >= 1 && |b| >= 1
    requires a == b ==> p == q
    requires !ProperPrefix(a, b) && !ProperPrefix(b, a)
    ensures Insert(Insert(m, a, p), b, q) == Insert(Insert(m, b, q), a, p)
    decreases |a|, 0
  {
    if a[0] != b[0] {
      InsertCommuteApart(m, a, p, b, q);
    } else if a != b {
      TailsApart(a, b);
      var child := if a[0] in m then m[a[0]] else Dir(map[]);
      DescendCommute(child, a[1..], p, b[1..], q);
      InsertSameKey(m, a, p, b, q);
      InsertSameKey(m, b, q, a, p);
    }
  }

  lemma {:induction false} DescendCommute(n: Node, a: seq<string>, p: string, b: seq<string>, q: string)
    requires |a| >= 1 && |b| >= 1
    requires a == b ==> p == q
    requires !ProperPrefix(a, b) && !ProperPrefix(b, a)
    ensures Descend(Descend(n, a, p), b, q) == Descend(Descend(n, b, q), a, p)
    decreases |a|, 1
  {
    match n
    case Dir(c) => InsertCommute(c, a, p, b, q);
    case File(_, h) => InsertCommute(h, a, p, b, q);
  }

  lemma {:induction false} BuildAppend(m: Level, xs: seq<string>, ys: seq<string>)
    ensures BuildFrom(m, xs + ys) == BuildFrom(BuildFrom(m, xs), ys)
    decreases |xs|
  {
    if |xs| > 0 {
      assert (xs + ys)[1..] == xs[1..] + ys;
      BuildAppend(InsertPath(m, xs[0]), xs[1..], ys);
    } else {
      assert xs + ys == ys;
    }
  }

  lemma {:induction false} MoveToFront(m: Level, xs: seq<string>, x: string)
    requires forall y :: y in xs ==> Compatible(x, y)
    ensures BuildFrom(m, xs + [x]) == BuildFrom(InsertPath(m, x), xs)
    decreases |xs|
  {
    if |xs| > 0 {
      var y := xs[0];
      assert y in xs;
      assert (xs + [x])[1..] == xs[1..] + [x];
      MoveToFront(InsertPath(m, y), xs[1..], x);
      if Segments(x) == Segments(y) { SplitInjective(x, y, '/'); }
      InsertCommute(m, Segments(y), y, Segments(x), x);
    }
  }

  /** Taking the first element off one sequence and the same element out
      of a permutation of it leaves permutations of each other. */
  lemma RemoveMatching(ps: seq<string>, qs: seq<string>, i: nat)
    requires multiset(ps) == multiset(qs)
    requires |ps| > 0 && i < |qs| && qs[i] == ps[0]
    ensures multiset(ps[1..]) == multiset(qs[..i] + qs[i + 1..])
  {
    var x, before, after := ps[0], qs[..i], qs[i + 1..];
    assert ps == [x] + ps[1..];
    assert qs == before + [x] + after;
    var rest, others := multiset(ps[1..]), multiset(before + after);
    assert others == multiset(before) + multiset(after);
    forall y ensures rest[y] == others[y] {
      assert multiset(ps)[y] == multiset{x}[y] + rest[y];
      assert multiset(qs)[y] == multiset(before)[y] + multiset{x}[y] + multiset(after)[y];
    }
  }

  lemma {:induction false} BuildPermutation(m: Level, ps: seq<string>, qs: seq<string>)
    requires multiset(ps) == multiset(qs)
    requires PrefixFree(ps)
    ensures BuildFrom(m, ps) == BuildFrom(m, qs)
    decreases |ps|
  {
    if |ps| > 0 {
      var x := ps[0];
      assert x in multiset(qs);
      var i :| 0 <= i < |qs| && qs[i] == x;
      var before, after := qs[..i], qs[i + 1..];
      assert qs == (before + [x]) + after;
      RemoveMatching(ps, qs, i);
      forall y | y in before ensures Compatible(x, y) {
        assert y in multiset(qs);
      }
      assert PrefixFree(ps[1..]) by {
        assert forall y :: y in ps[1..] ==> y in ps;
      }
      BuildAppend(m, before + [x], after);
      MoveToFront(m, before, x);
      BuildAppend(InsertPath(m, x), before, after);
      BuildPermutation(InsertPath(m, x), ps[1..], before + after);
    }
  }

  /** Shuffling the listing builds the same tree, given that no path is a
      directory of another. */
  lemma BuildOrderIndependent(ps: seq<string>, qs: seq<string>)
    requires multiset(ps) == multiset(qs)
    requires PrefixFree(ps)
    ensures Build(ps) == Build(qs)
  {
    BuildPermutation(map[], ps, qs);
  }

  // ----- listings that are not prefix-free ----------------------------------

  lemma SegmentsOfTwo(a: string, b: string)
    requires '/' !in a && '/' !in b
    ensures Segments(a + "/" + b) == [a, b]
    ensures Segments(a) == [a]
  {
    assert Join([a, b], '/') == a + "/" + b;
    SplitJoin([a, b], '/');
    SplitJoin([a], '/');
  }

  /** When a file precedes a path that uses it as a directory, line 194 keeps
      the file object and files the later path inside it, where the renderer
      never looks: `a/b` is built but cannot be reached. */
  lemma FileHidesLaterPath()
    ensures Lookup(Build(["a", "a/b"]), ["a"]) == Some(File("a", map["b" := File("a/b", map[])]))
    ensures Lookup(Build(["a", "a/b"]), ["a", "b"]) == None
  {
    SegmentsOfTwo("a", "b");
    var m1 := InsertPath(map[], "a");
    assert m1 == map["a" := File("a", map[])];
    assert Build(["a", "a/b"]) == InsertPath(m1, "a/b") by {
      assert ["a", "a/b"][1..] == ["a/b"];
      assert ["a/b"][1..] == [];
    }
    assert ["a", "b"][1..] == ["b"];
    assert Insert(map[], ["b"], "a/b") == map["b" := File("a/b", map[])];
  }

  /** When a file follows a path that made the same name a directory, line 192
      replaces the directory: the earlier path disappears from the tree. */
  lemma LaterFileReplacesDirectory()
    ensures Build(["a/b", "a"]) == map["a" := File("a", map[])]
  {
    SegmentsOfTwo("a", "b");
    assert ["a/b", "a"][1..] == ["a"];
    assert ["a"][1..] == [];
  }
}
