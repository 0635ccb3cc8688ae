/**
 The tree renderer of `github.js` (`build`, lines 214-257), flattened: the
 nested lists it appends become one sequence of entries in document order.
 A directory contributes its disclosure entry, then its contents; a file
 contributes one button. Keys at each level are visited in sorted order,
 directories and files interleaved. An entry carries its location: the
 segments from the root down to it (its label is the last one, its depth
 the number before it).
 */
module Render {
  import opened Wrappers
  import opened Text
  import opened Tree

  datatype Entry =
    | DirEntry(loc: seq<string>)
    | FileEntry(loc: seq<string>, path: string)

  /** The last segment of a location is the label shown for it; the
      heading of a directory is created only when that label is non-empty
      (an empty name renders the bare list). */
  predicate Labelled(loc: seq<string>)
  {
    |loc| > 0 && loc[|loc| - 1] != ""
  }

  function Heading(loc: seq<string>): seq<Entry>
  {
    if Labelled(loc) then [DirEntry(loc)] else []
  }

  /** Entries of the node found at `loc`: a file is one button (line 217 looks
      only at the marker, so whatever hangs inside a file object is never
      shown); a directory is its heading followed by its contents. */
  function RenderNode(n: Node, loc: seq<string>): seq<Entry>
    decreases n, 1, 0
  {
    match n
    case File(p, _) => [FileEntry(loc, p)]
    case Dir(c) => Heading(loc) + RenderKeys(n, loc, SortedKeys(c.Keys))
  }

  /** The loop of `build` over `keys` of directory `n` rendered at `loc`. */
  function RenderKeys(n: Node, loc: seq<string>, keys: seq<string>): seq<Entry>
    requires n.Dir? && forall k :: k in keys ==> k in n.children
    decreases n, 0, |keys|
  {
    if |keys| == 0 then []
    else RenderNode(n.children[keys[0]], loc + [keys[0]]) + RenderKeys(n, loc, keys[1..])
  }

  /** The root list: the root object has no name and so no heading. */
  function RenderTree(root: Level): seq<Entry>
  {
    RenderKeys(Dir(root), [], SortedKeys(root.Keys))
  }

  // ----- order --------------------------------------------------------------

  /** Document order on locations: a directory before everything inside it,
      otherwise the first differing segment decides by string order. */
  predicate LocLess(a: seq<string>, b: seq<string>)
    decreases |a|
  {
    if |a| == 0 then |b| > 0
    else |b| > 0 && (Less(a[0], b[0]) || (a[0] == b[0] && LocLess(a[1..], b[1..])))
  }

  predicate InOrder(s: seq<Entry>)
  {
    forall i, j :: 0 <= i < j < |s| ==> LocLess(s[i].loc, s[j].loc)
  }

  /** `b` continues below `pre` (or is `pre` itself). */
  predicate Under(b: seq<string>, pre: seq<string>)
  {
    |pre| <= |b| && b[..|pre|] == pre
  }

  lemma {:induction false} LocLessAt(a: seq<string>, b: seq<string>, i: nat)
    requires i < |a| && i < |b| && a[..i] == b[..i] && Less(a[i], b[i])
    ensures LocLess(a, b)
    decreases i
  {
    if i > 0 {
      assert a[1..][..i - 1] == a[..i][1..] && b[1..][..i - 1] == b[..i][1..];
      LocLessAt(a[1..], b[1..], i - 1);
    }
  }

  lemma {:induction false} LocLessBelow(a: seq<string>, b: seq<string>)
    requires |a| < |b| && b[..|a|] == a
    ensures LocLess(a, b)
    decreases |a|
  {
    if |a| > 0 {
      assert b[1..][..|a| - 1] == a[1..];
      LocLessBelow(a[1..], b[1..]);
    }
  }

  lemma InOrderAppend(a: seq<Entry>, b: seq<Entry>)
    requires InOrder(a) && InOrder(b)
    requires forall x, y :: x in a && y in b ==> LocLess(x.loc, y.loc)
    ensures InOrder(a + b)
  {
    forall i, j | 0 <= i < j < |a + b| ensures LocLess((a + b)[i].loc, (a + b)[j].loc) {
      if j < |a| {
        assert (a + b)[i] == a[i] && (a + b)[j] == a[j];
      } else if i >= |a| {
        assert (a + b)[i] == b[i - |a|] && (a + b)[j] == b[j - |a|];
      } else {
        assert (a + b)[i] in a && (a + b)[j] in b;
      }
    }
  }

  lemma {:induction false} NodeInOrder(n: Node, loc: seq<string>)
    ensures InOrder(RenderNode(n, loc))
    ensures forall e :: e in RenderNode(n, loc) ==> Under(e.loc, loc)
    decreases n, 1, 0
  {
    match n
    case File(p, _) =>
    case Dir(c) =>
      var keys := SortedKeys(c.Keys);
      var rest := RenderKeys(n, loc, keys);
      KeysInOrder(n, loc, keys);
      forall e | e in rest ensures LocLess(loc, e.loc) {
        LocLessBelow(loc, e.loc);
      }
      forall x, y | x in Heading(loc) && y in rest ensures LocLess(x.loc, y.loc) {
        assert x.loc == loc;
      }
      InOrderAppend(Heading(loc), rest);
      forall e | e in Heading(loc) + rest ensures Under(e.loc, loc) {
        if e !in rest { assert e == DirEntry(loc); }
      }
  }

  /** `b` lies below `loc + [k]` exactly when it lies strictly below `loc`
      and its next segment is `k`. */
  lemma UnderStep(b: seq<string>, loc: seq<string>, k: string)
    ensures Under(b, loc + [k]) <==> |loc| < |b| && b[..|loc|] == loc && b[|loc|] == k
  {
    if |loc| < |b| {
      assert b[..|loc| + 1] == b[..|loc|] + [b[|loc|]];
    }
  }

  /** Everything below `loc + [k]` comes before everything below a later
      sibling `loc + [k']`. */
  lemma SiblingsInOrder(x: seq<string>, y: seq<string>, loc: seq<string>, k: string, keys: seq<string>)
    requires StrictlySorted([k] + keys)
    requires Under(x, loc + [k])
    requires |loc| < |y| && y[..|loc|] == loc && y[|loc|] in keys
    ensures LocLess(x, y)
  {
    UnderStep(x, loc, k);
    var j :| 0 <= j < |keys| && keys[j] == y[|loc|];
    assert ([k] + keys)[0] == k && ([k] + keys)[j + 1] == keys[j];
    LocLessAt(x, y, |loc|);
  }

  lemma {:induction false} KeysInOrder(n: Node, loc: seq<string>, keys: seq<string>)
    requires n.Dir? && forall k :: k in keys ==> k in n.children
    requires StrictlySorted(keys)
    ensures InOrder(RenderKeys(n, loc, keys))
    ensures forall e :: e in RenderKeys(n, loc, keys) ==>
      |loc| < |e.loc| && e.loc[..|loc|] == loc && e.loc[|loc|] in keys
    decreases n, 0, |keys|
  {
    if |keys| > 0 {
      var k := keys[0];
      var here := loc + [k];
      var first := RenderNode(n.children[k], here);
      var rest := RenderKeys(n, loc, keys[1..]);
      NodeInOrder(n.children[k], here);
      assert StrictlySorted(keys[1..]) by {
        forall i, j | 0 <= i < j < |keys[1..]| ensures Less(keys[1..][i], keys[1..][j]) {
          assert keys[1..][i] == keys[i + 1] && keys[1..][j] == keys[j + 1];
        }
      }
      KeysInOrder(n, loc, keys[1..]);
      assert [k] + keys[1..] == keys;
      forall x, y | x in first && y in rest ensures LocLess(x.loc, y.loc) {
        SiblingsInOrder(x.loc, y.loc, loc, k, keys[1..]);
      }
      InOrderAppend(first, rest);
      forall e | e in first ensures |loc| < |e.loc| && e.loc[..|loc|] == loc && e.loc[|loc|] in keys {
        UnderStep(e.loc, loc, k);
      }
    }
  }

  /** The rendered list is in document order: every directory heading
      precedes its contents, and siblings appear by ascending name whether
      they are files or directories. Strict order also means no location is
      rendered twice. */
  lemma RenderInOrder(root: Level)
    ensures InOrder(RenderTree(root))
  {
    KeysInOrder(Dir(root), [], SortedKeys(root.Keys));
  }

  // ----- contents -----------------------------------------------------------

  /** Does entry `e` show node `o`: a heading for a directory with a
      non-empty name, a button with the same path for a file. */
  predicate Shows(e: Entry, o: Option<Node>)
  {
    match e
    case DirEntry(loc) => o.Some? && o.value.Dir? && Labelled(loc)
    case FileEntry(_, p) => o.Some? && o.value.File? && o.value.path == p
  }

  lemma {:induction false} NodeContents(n: Node, loc: seq<string>, e: Entry)
    ensures e in RenderNode(n, loc) <==>
      Under(e.loc, loc) &&
      (if |e.loc| == |loc| then Shows(e, Some(n))
       else n.Dir? && Shows(e, Lookup(n.children, e.loc[|loc|..])))
    decreases n, 1, 0
  {
    assert Under(e.loc, loc) && |e.loc| == |loc| ==> e.loc == loc;
    match n
    case File(p, _) =>
    case Dir(c) =>
      var keys := SortedKeys(c.Keys);
      KeysContents(n, loc, keys, e);
      assert Under(e.loc, loc) && |e.loc| == |loc| ==> e.loc == loc;
      assert |loc| < |e.loc| ==> e.loc[|loc|..][0] == e.loc[|loc|];
  }

  lemma {:induction false} KeysContents(n: Node, loc: seq<string>, keys: seq<string>, e: Entry)
    requires n.Dir? && forall k :: k in keys ==> k in n.children
    ensures e in RenderKeys(n, loc, keys) <==>
      |loc| < |e.loc| && e.loc[..|loc|] == loc && e.loc[|loc|] in keys &&
      Shows(e, Lookup(n.children, e.loc[|loc|..]))
    decreases n, 0, |keys|
  {
    if |keys| > 0 {
      var k := keys[0];
      var here := loc + [k];
      NodeContents(n.children[k], here, e);
      KeysContents(n, loc, keys[1..], e);
      UnderStep(e.loc, loc, k);
      assert keys == [k] + keys[1..];
      if |loc| < |e.loc| && e.loc[|loc|] == k {
        var segs := e.loc[|loc|..];
        assert segs[0] == k;
        assert |e.loc| == |here| <==> |segs| == 1;
        assert |segs| > 1 ==> segs[1..] == e.loc[|here|..];
      }
    }
  }

  /** An entry is rendered exactly when following its location from the root
      reaches the node it shows. */
  lemma RenderContents(root: Level, e: Entry)
    ensures e in RenderTree(root) <==> |e.loc| >= 1 && Shows(e, Lookup(root, e.loc))
  {
    KeysContents(Dir(root), [], SortedKeys(root.Keys), e);
    assert e.loc[..0] == [] && e.loc[0..] == e.loc;
  }

  // ----- the explorer's list ------------------------------------------------

  /** Following `loc` from the root reaches a directory with contents. */
  predicate NonEmptyDirAt(root: Level, loc: seq<string>)
  {
    |loc| >= 1 && Lookup(root, loc).Some? && Lookup(root, loc).value.Dir? &&
    Lookup(root, loc).value.children != map[]
  }

  lemma {:induction false} LocLessIrreflexive(a: seq<string>)
    ensures !LocLess(a, a)
    decreases |a|
  {
    if |a| > 0 {
      LessIrreflexive(a[0]);
      LocLessIrreflexive(a[1..]);
    }
  }

  /** For a repository listing (no blob path is a directory of another) the
      explorer shows, in document order, one button per blob: a button for
      every path of the listing, placed at the path's own `/`-segments, each
      path on exactly one button, no button for anything else, and no
      heading for an empty directory. */
  lemma ExplorerListsEachFile(ps: seq<string>)
    requires PrefixFree(ps)
    ensures InOrder(RenderTree(Build(ps)))
    ensures forall p :: p in ps ==> FileEntry(Segments(p), p) in RenderTree(Build(ps))
    ensures forall e :: e in RenderTree(Build(ps)) && e.FileEntry? ==>
      e.path in ps && e.loc == Segments(e.path)
    ensures forall i, j ::
      (0 <= i < j < |RenderTree(Build(ps))| &&
       RenderTree(Build(ps))[i].FileEntry? && RenderTree(Build(ps))[j].FileEntry?) ==>
      RenderTree(Build(ps))[i].path != RenderTree(Build(ps))[j].path
    ensures forall e :: e in RenderTree(Build(ps)) && e.DirEntry? ==> NonEmptyDirAt(Build(ps), e.loc)
  {
    var root := Build(ps);
    var r := RenderTree(root);
    RenderInOrder(root);
    forall p | p in ps ensures FileEntry(Segments(p), p) in r {
      BuildLeaves(ps, p);
      RenderContents(root, FileEntry(Segments(p), p));
    }
    forall e | e in r
      ensures e.FileEntry? ==> e.path in ps && e.loc == Segments(e.path)
      ensures e.DirEntry? ==> NonEmptyDirAt(root, e.loc)
    {
      RenderContents(root, e);
      BuildSound(ps, e.loc);
    }
    forall i, j | 0 <= i < j < |r| && r[i].FileEntry? && r[j].FileEntry?
      ensures r[i].path != r[j].path
    {
      assert r[i] in r && r[j] in r;
      LocLessIrreflexive(r[i].loc);
    }
  }
}
