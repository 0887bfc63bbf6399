/** Paths as component lists, and trees of them: every entry below the root has its parent
    in the tree. `<=` on paths is "at or above", `<` is "properly above". */
module PathTree {
  type Path = seq<string>

  function Parent(p: Path): Path
    requires p != []
  {
    p[..|p| - 1]
  }

  /** Entries other than the root, each directly below the root or below another entry. */
  ghost predicate IsTree(s: set<Path>) {
    forall p :: p in s ==> p != [] && (|p| > 1 ==> Parent(p) in s)
  }

  /** No entry is directly below `d`. */
  ghost predicate Childless(s: set<Path>, d: Path) {
    forall p :: p in s && p != [] ==> Parent(p) != d
  }

  /** The entry on the way from `d` down to `p`, one level below `d`. */
  function ChildToward(d: Path, p: Path): (c: Path)
    requires d < p
    ensures c != [] && Parent(c) == d && c <= p
  {
    p[..|d| + 1]
  }

  lemma {:induction false} AncestorsIn(s: set<Path>, p: Path, a: Path)
    requires IsTree(s) && p in s && a != [] && a <= p
    ensures a in s
    decreases |p|
  {
    if a != p {
      assert a <= Parent(p);
      AncestorsIn(s, Parent(p), a);
    }
  }

  /** In a tree, an entry without children has nothing below it. */
  lemma ChildlessMeansNothingBelow(s: set<Path>, d: Path)
    requires IsTree(s)
    ensures Childless(s, d) <==> forall p :: p in s ==> !(d < p)
  {
    if Childless(s, d) {
      forall p | p in s ensures !(d < p) {
        if d < p {
          var c := ChildToward(d, p);
          AncestorsIn(s, p, c);
          assert false;
        }
      }
    } else {
      var p :| p in s && p != [] && Parent(p) == d;
      assert d < p;
    }
  }
}
