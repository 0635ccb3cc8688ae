/**
 The active-file marker (`github.js` lines 223-224). A file button's click
 first clears the marker from every file button inside the list that holds
 the button — its own directory and everything below it — and then marks
 the button. A button is identified by its location in the rendered tree.
 */
module Active {
  import opened Render

  type Loc = seq<string>

  /** The directory whose list holds the button at `loc`. */
  function DirOf(loc: Loc): Loc
    requires |loc| >= 1
  {
    loc[..|loc| - 1]
  }

  function Click(active: set<Loc>, loc: Loc): (r: set<Loc>)
    requires |loc| >= 1
    ensures loc in r
    ensures forall a :: a in r && a != loc ==> a in active && !Under(a, DirOf(loc))
    ensures forall a :: a in active && !Under(a, DirOf(loc)) ==> a in r
  {
    (set a | a in active && !Under(a, DirOf(loc))) + {loc}
  }

  // ----- properties ---------------------------------------------------------

  /** No two marked buttons sit in the same directory. */
  predicate OnePerDirectory(active: set<Loc>)
  {
    && (forall a :: a in active ==> |a| >= 1)
    && (forall a, b :: a in active && b in active && a != b ==> a[..|a| - 1] != b[..|b| - 1])
  }

  /** A button lies below its own directory. */
  lemma UnderOwnDirectory(a: Loc)
    requires |a| >= 1
    ensures Under(a, DirOf(a))
  {
  }

  /** Clicking keeps at most one marked button per directory. */
  lemma ClickKeepsOnePerDirectory(active: set<Loc>, loc: Loc)
    requires |loc| >= 1
    requires OnePerDirectory(active)
    ensures OnePerDirectory(Click(active, loc))
  {
    var r := Click(active, loc);
    forall a, b | a in r && b in r && a != b ensures a[..|a| - 1] != b[..|b| - 1] {
      UnderOwnDirectory(a);
      UnderOwnDirectory(b);
    }
  }

  /** A click at the top level clears every other marker in the tree. */
  lemma TopLevelClickClearsAll(active: set<Loc>, name: string)
    ensures Click(active, [name]) == {[name]}
  {
    forall a | a in active ensures Under(a, DirOf([name])) {
      assert DirOf([name]) == [];
      assert a[..0] == [];
    }
  }

  /** Markers in two different directories survive each other: after
      opening `a/x` and then `b/y`, both buttons are marked. */
  lemma TwoDirectoriesTwoMarkers()
    ensures Click(Click({}, ["a", "x"]), ["b", "y"]) == {["a", "x"], ["b", "y"]}
  {
    var s1 := Click({}, ["a", "x"]);
    assert s1 == {["a", "x"]};
    assert DirOf(["b", "y"]) == ["b"];
    assert !Under(["a", "x"], ["b"]) by {
      assert ["a", "x"][..1] == ["a"];
      assert "a" != "b";
    }
  }

  /** A marker inside the clicked button's directory, however deep, is
      cleared: opening `a/c/d` and then `a/b` leaves only `a/b` marked. */
  lemma DeeperMarkerCleared()
    ensures Click(Click({}, ["a", "c", "d"]), ["a", "b"]) == {["a", "b"]}
  {
    var s1 := Click({}, ["a", "c", "d"]);
    assert s1 == {["a", "c", "d"]};
    assert DirOf(["a", "b"]) == ["a"];
    assert Under(["a", "c", "d"], ["a"]) by {
      assert ["a", "c", "d"][..1] == ["a"];
    }
  }
}
