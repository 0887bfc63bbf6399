/** Path normalisation of the updater: `normalizedManifestPath` and `manifestPathKey`.
    The library's lexical normalisation is the algorithm of ISO C++17
    [fs.path.generic] paragraph 6 for a path grammar without root names. */
module ManifestPath {
  import opened Alphabets
  import opened Components

  const DOT: string := "."
  const DOTDOT: string := ".."

  // ----- Lexical normalisation -----

  /** `std::replace` of '\' by '/'. */
  function Slashes(s: string): (r: string)
    ensures |r| == |s|
    ensures forall i :: 0 <= i < |s| ==> r[i] == if s[i] == '\\' then '/' else s[i]
  {
    seq(|s|, i requires 0 <= i < |s| => if s[i] == '\\' then '/' else s[i])
  }

  /** The components of a path spelled with either separator. */
  function Names(s: string): seq<string> { Split(Slashes(s), '/') }

  predicate Rooted(s: string) { s != "" && Slashes(s)[0] == '/' }

  predicate EndsInSeparator(s: string) { s != "" && Slashes(s)[|s| - 1] == '/' }

  function Last(ns: seq<string>): string
    requires ns != []
  {
    ns[|ns| - 1]
  }

  /** Removes dot components and name/dot-dot pairs, left to right, on top of the
      components kept so far; a root directory absorbs dot-dots. */
  function Collapse(kept: seq<string>, ns: seq<string>, rooted: bool): seq<string>
    decreases ns
  {
    if ns == [] then kept
    else if ns[0] == DOT then Collapse(kept, ns[1..], rooted)
    else if ns[0] == DOTDOT then
      if kept != [] && Last(kept) != DOTDOT then Collapse(kept[..|kept| - 1], ns[1..], rooted)
      else if rooted then Collapse(kept, ns[1..], rooted)
      else Collapse(kept + [DOTDOT], ns[1..], rooted)
    else Collapse(kept + [ns[0]], ns[1..], rooted)
  }

  /** The components that normalisation leaves. */
  function NormalNames(s: string): seq<string> { Collapse([], Names(s), Rooted(s)) }

  /** A directory marker survives unless the last component left is a dot-dot; removing
      a final dot or dot-dot leaves the separator in front of it. */
  predicate KeepsTrailing(s: string) {
    var ns := NormalNames(s);
    && ns != [] && Last(ns) != DOTDOT
    && (EndsInSeparator(s) || Last(Names(s)) in {DOT, DOTDOT})
  }

  function Body(s: string): string {
    Join(NormalNames(s), '/') + if KeepsTrailing(s) then "/" else ""
  }

  /** `fs::path::lexically_normal` followed by `generic_u8string`, for a path already
      spelled with '/'. */
  function LexicallyNormal(s: string): string {
    if s == "" then ""
    else
      var r := (if Rooted(s) then "/" else "") + Body(s);
      if r == "" then DOT else r
  }

  /** What `normalizedManifestPath` computes. */
  function Norm(s: string): string { Body(s) }

  /** `std::tolower` in the C locale. */
  function LowerChar(c: char): char { if 'A' <= c <= 'Z' then c + 32 as char else c }

  function Lower(s: string): (r: string)
    ensures |r| == |s|
    ensures forall i :: 0 <= i < |s| ==> r[i] == LowerChar(s[i])
  {
    seq(|s|, i requires 0 <= i < |s| => LowerChar(s[i]))
  }

  /** What `manifestPathKey` computes; `foldCase` holds on Windows and macOS. */
  function Key(s: string, foldCase: bool): string {
    if foldCase then Lower(Norm(s)) else Norm(s)
  }

  // ----- The operations -----

  method ReplaceBackslashes(given: string) returns (path: string)
    ensures path == Slashes(given)
  {
    path := given;
    for i := 0 to |path|
      invariant |path| == |given|
      invariant forall k :: 0 <= k < |given| ==>
        path[k] == if k < i && given[k] == '\\' then '/' else given[k]
    {
      if path[i] == '\\' { path := path[i := '/']; }
    }
  }

  /** Erases separators from the front. */
  method StripRoot(given: string, ghost body: string) returns (path: string)
    requires given == body || given == "/" + body
    requires body != "" ==> body[0] != '/'
    ensures path == body
  {
    path := given;
    while path != "" && path[0] == '/'
      invariant path == body || path == "/" + body
      decreases |path|
    {
      path := path[1..];
    }
  }

  /** The operation itself: replace, normalise, strip leading separators, map "." to "". */
  method NormalizedManifestPath(given: string) returns (path: string)
    ensures path == Norm(given)
  {
    path := ReplaceBackslashes(given);
    SlashesTwice(given);
    BodyShape(path);
    path := LexicallyNormal(path);
    hide Body;
    path := StripRoot(path, if path == DOT then DOT else Norm(given));
    if path == DOT { path := ""; }
  }

  method ManifestPathKey(given: string, foldCase: bool) returns (path: string)
    ensures path == Key(given, foldCase)
  {
    path := NormalizedManifestPath(given);
    ghost var norm := path;
    if foldCase {
      for i := 0 to |path|
        invariant |path| == |norm|
        invariant forall k :: 0 <= k < |norm| ==>
          path[k] == if k < i then LowerChar(norm[k]) else norm[k]
      {
        path := path[i := LowerChar(path[i])];
      }
      assert path == Lower(norm);
    }
  }

  lemma SlashesTwice(s: string)
    ensures Slashes(Slashes(s)) == Slashes(s)
    ensures Norm(Slashes(s)) == Norm(s)
  {
    assert Slashes(Slashes(s)) == Slashes(s);
  }

  /** Paths that differ only in how separators are spelled have one normal form. */
  lemma BackslashSpelling(s: string, t: string)
    requires |s| == |t|
    requires forall i :: 0 <= i < |s| ==> s[i] == t[i] || (s[i] in "/\\" && t[i] in "/\\")
    ensures Norm(s) == Norm(t)
  {
    assert Slashes(s) == Slashes(t);
  }

  // ----- Canonical component lists -----

  /** No dots, and dot-dots only at the front. */
  predicate Canonical(ns: seq<string>) {
    forall i :: 0 <= i < |ns| ==> ns[i] != DOT && (ns[i] == DOTDOT ==> i == 0 || ns[i - 1] == DOTDOT)
  }

  predicate Plain(ns: seq<string>) {
    forall i :: 0 <= i < |ns| ==> ns[i] != DOT && ns[i] != DOTDOT
  }

  lemma {:induction false} CollapseShape(kept: seq<string>, ns: seq<string>, rooted: bool)
    requires Canonical(kept) && (rooted ==> Plain(kept))
    requires AreNames(kept, '/') && AreNames(ns, '/')
    ensures var r := Collapse(kept, ns, rooted);
            Canonical(r) && (rooted ==> Plain(r)) && AreNames(r, '/')
    decreases ns
  {
    if ns != [] {
      var n := ns[0];
      assert n in ns;
      if n == DOT {
        CollapseShape(kept, ns[1..], rooted);
      } else if n == DOTDOT && kept != [] && Last(kept) != DOTDOT {
        CollapseShape(kept[..|kept| - 1], ns[1..], rooted);
      } else if n == DOTDOT && rooted {
        CollapseShape(kept, ns[1..], rooted);
      } else {
        CollapseShape(kept + [n], ns[1..], rooted);
      }
    }
  }

  /** A canonical list is its own normal form. */
  lemma {:induction false} CollapseCanonical(kept: seq<string>, ns: seq<string>, rooted: bool)
    requires Canonical(kept + ns) && (rooted ==> Plain(kept + ns))
    ensures Collapse(kept, ns, rooted) == kept + ns
    decreases ns
  {
    if ns != [] {
      var all := kept + ns;
      assert all[|kept|] == ns[0];
      assert kept != [] ==> all[|kept| - 1] == Last(kept);
      assert kept + [ns[0]] + ns[1..] == all;
      CollapseCanonical(kept + [ns[0]], ns[1..], rooted);
    }
  }

  lemma BodyBackslashFree(s: string)
    ensures Slashes(Body(s)) == Body(s)
  {
    hide Collapse, Split;
    NoBackslash(Names(s), s);
    CollapseNoBackslash([], Names(s), Rooted(s));
    JoinNoBackslash(NormalNames(s));
  }

  lemma BodyEnds(s: string)
    ensures Body(s) != "" ==> Body(s)[0] != '/'
    ensures EndsInSeparator(Body(s)) <==> KeepsTrailing(s)
    ensures !Rooted(Body(s))
  {
    CollapseShape([], Names(s), Rooted(s));
    BodyBackslashFree(s);
    JoinEnds(NormalNames(s), '/');
    hide NormalNames, Join, Names, Slashes;
  }

  lemma BodyNames(s: string)
    ensures Names(Body(s)) == NormalNames(s)
  {
    CollapseShape([], Names(s), Rooted(s));
    BodyBackslashFree(s);
    hide Collapse, NormalNames;
    var ns := NormalNames(s);
    var j := Join(ns, '/');
    SplitJoin(ns, '/');
    if KeepsTrailing(s) {
      assert Body(s) == j + ['/'] + "";
      SplitAppend(j, "", '/');
      assert Split(j, '/') + [] == Split(j, '/');
    } else {
      assert Body(s) == j;
    }
  }

  /** The normal form neither starts with a separator nor reads as a dot. */
  lemma BodyShape(s: string)
    ensures Body(s) != DOT
    ensures Body(s) != "" ==> Body(s)[0] != '/'
    ensures Names(Body(s)) == NormalNames(s)
    ensures EndsInSeparator(Body(s)) <==> KeepsTrailing(s)
    ensures !Rooted(Body(s)) && Slashes(Body(s)) == Body(s)
  {
    BodyBackslashFree(s);
    BodyEnds(s);
    BodyNames(s);
    CollapseShape([], Names(s), Rooted(s));
    SplitName(DOT, '/');
    assert Names(DOT) == [DOT] by { assert Slashes(DOT) == DOT; }
    hide Body, Names;
    assert NormalNames(s) != [DOT];
  }

  predicate BackslashFree(ns: seq<string>) { forall n :: n in ns ==> '\\' !in n }

  lemma {:induction false} SplitBackslashFree(t: string)
    requires '\\' !in t
    ensures BackslashFree(Split(t, '/'))
    decreases |t|
  {
    if t != "" {
      if t[0] == '/' {
        SplitBackslashFree(t[1..]);
      } else {
        var n := FirstName(t, '/');
        assert forall c :: c in n ==> c in t;
        SplitBackslashFree(t[|n|..]);
      }
    }
  }

  lemma NoBackslash(ns: seq<string>, s: string)
    requires ns == Names(s)
    ensures BackslashFree(ns)
  {
    SplitBackslashFree(Slashes(s));
  }

  lemma {:induction false} CollapseNoBackslash(kept: seq<string>, ns: seq<string>, rooted: bool)
    requires BackslashFree(kept) && BackslashFree(ns)
    ensures BackslashFree(Collapse(kept, ns, rooted))
    decreases ns
  {
    if ns != [] {
      var n := ns[0];
      assert n in ns;
      if n == DOT || (n == DOTDOT && rooted && !(kept != [] && Last(kept) != DOTDOT)) {
        CollapseNoBackslash(kept, ns[1..], rooted);
      } else if n == DOTDOT && kept != [] && Last(kept) != DOTDOT {
        CollapseNoBackslash(kept[..|kept| - 1], ns[1..], rooted);
      } else {
        CollapseNoBackslash(kept + [n], ns[1..], rooted);
      }
    }
  }

  lemma {:induction false} JoinNoBackslash(ns: seq<string>)
    requires BackslashFree(ns)
    ensures '\\' !in Join(ns, '/')
  {
    if ns != [] {
      assert ns[0] in ns;
      if |ns| > 1 { JoinNoBackslash(ns[1..]); }
    }
  }

  // ----- Idempotence -----

  /** Normalising twice is normalising once. */
  lemma NormIdempotent(s: string)
    ensures Norm(Norm(s)) == Norm(s)
  {
    var ns := NormalNames(s);
    BodyShape(s);
    CollapseShape([], Names(s), Rooted(s));
    assert [] + ns == ns;
    CollapseCanonical([], ns, false);
  }

  lemma LowerOfNames(n: string)
    ensures Lower(n) == DOT <==> n == DOT
    ensures Lower(n) == DOTDOT <==> n == DOTDOT
    ensures '/' in Lower(n) <==> '/' in n
  {
    if Lower(n) == DOT { assert LowerChar(n[0]) == '.'; }
    if Lower(n) == DOTDOT { assert LowerChar(n[0]) == '.' && LowerChar(n[1]) == '.'; }
    if '/' in Lower(n) {
      var i :| 0 <= i < |n| && Lower(n)[i] == '/';
      assert n[i] == '/';
    }
    if '/' in n {
      var i :| 0 <= i < |n| && n[i] == '/';
      assert Lower(n)[i] == '/';
    }
  }

  function LowerAll(ns: seq<string>): (r: seq<string>)
    ensures |r| == |ns| && forall i :: 0 <= i < |ns| ==> r[i] == Lower(ns[i])
  {
    seq(|ns|, i requires 0 <= i < |ns| => Lower(ns[i]))
  }

  lemma {:induction false} FirstNameLower(t: string)
    ensures FirstName(Lower(t), '/') == Lower(FirstName(t, '/'))
  {
    if t != "" {
      assert Lower(t)[1..] == Lower(t[1..]);
      assert Lower(t)[0] == '/' <==> t[0] == '/';
      if t[0] != '/' {
        FirstNameLower(t[1..]);
        assert Lower([t[0]] + FirstName(t[1..], '/')) == [Lower(t)[0]] + Lower(FirstName(t[1..], '/'));
      }
    }
  }

  lemma {:induction false} SplitLower(t: string)
    ensures Split(Lower(t), '/') == LowerAll(Split(t, '/'))
    decreases |t|
  {
    if t != "" {
      assert Lower(t)[0] == '/' <==> t[0] == '/';
      if t[0] == '/' {
        assert Lower(t)[1..] == Lower(t[1..]);
        SplitLower(t[1..]);
      } else {
        FirstNameLower(t);
        var n := FirstName(t, '/');
        assert Lower(t)[|n|..] == Lower(t[|n|..]);
        SplitLower(t[|n|..]);
        assert LowerAll([n] + Split(t[|n|..], '/')) == [Lower(n)] + LowerAll(Split(t[|n|..], '/'));
      }
    }
  }

  lemma {:induction false} CollapseLower(kept: seq<string>, ns: seq<string>, rooted: bool)
    ensures Collapse(LowerAll(kept), LowerAll(ns), rooted) == LowerAll(Collapse(kept, ns, rooted))
    decreases ns
  {
    if ns != [] {
      var n := ns[0];
      LowerOfNames(n);
      if kept != [] { LowerOfNames(Last(kept)); }
      assert LowerAll(ns)[1..] == LowerAll(ns[1..]);
      if n == DOT || (n == DOTDOT && rooted && !(kept != [] && Last(kept) != DOTDOT)) {
        CollapseLower(kept, ns[1..], rooted);
      } else if n == DOTDOT && kept != [] && Last(kept) != DOTDOT {
        assert LowerAll(kept)[..|kept| - 1] == LowerAll(kept[..|kept| - 1]);
        CollapseLower(kept[..|kept| - 1], ns[1..], rooted);
      } else {
        assert LowerAll(kept + [n]) == LowerAll(kept) + [Lower(n)];
        CollapseLower(kept + [n], ns[1..], rooted);
      }
    }
  }

  lemma {:induction false} JoinLower(ns: seq<string>)
    ensures Join(LowerAll(ns), '/') == Lower(Join(ns, '/'))
  {
    if |ns| > 1 {
      assert LowerAll(ns)[1..] == LowerAll(ns[1..]);
      JoinLower(ns[1..]);
      assert Lower(ns[0] + ['/'] + Join(ns[1..], '/'))
          == Lower(ns[0]) + ['/'] + Lower(Join(ns[1..], '/'));
    }
  }

  lemma NamesLower(s: string)
    ensures Names(Lower(s)) == LowerAll(Names(s))
    ensures Rooted(Lower(s)) == Rooted(s) && EndsInSeparator(Lower(s)) == EndsInSeparator(s)
    ensures NormalNames(Lower(s)) == LowerAll(NormalNames(s))
  {
    assert Slashes(Lower(s)) == Lower(Slashes(s));
    SplitLower(Slashes(s));
    CollapseLower([], Names(s), Rooted(s));
    assert LowerAll([]) == [];
  }

  lemma KeepsTrailingLower(s: string)
    ensures KeepsTrailing(Lower(s)) == KeepsTrailing(s)
  {
    hide Collapse, Split;
    NamesLower(s);
    EmptyCollapses(s);
    if NormalNames(s) != [] {
      LowerOfNames(Last(Names(s)));
      LowerOfNames(Last(NormalNames(s)));
    }
  }

  /** Folding case and normalising commute. */
  lemma NormLower(s: string)
    ensures Norm(Lower(s)) == Lower(Norm(s))
  {
    NamesLower(s);
    KeepsTrailingLower(s);
    JoinLower(NormalNames(s));
    var j := Join(NormalNames(s), '/');
    assert Lower(j + "/") == Lower(j) + "/" && Lower(j + "") == Lower(j) + "";
  }

  lemma EmptyCollapses(s: string)
    ensures Names(s) == [] ==> NormalNames(s) == []
  {
  }

  /** The set key is stable: taking the key of a key, or of a normalised path, changes
      nothing. */
  lemma KeyStable(s: string, foldCase: bool)
    ensures Key(Key(s, foldCase), foldCase) == Key(s, foldCase)
    ensures Key(Norm(s), foldCase) == Key(s, foldCase)
  {
    NormIdempotent(s);
    if foldCase {
      NormLower(Norm(s));
      assert Lower(Lower(Norm(s))) == Lower(Norm(s));
    }
  }

  // ----- Meaning -----

  /** The directory stack reached from `base`: a dot stays, a dot-dot leaves the last
      directory (staying put at the root of the file system), a name enters. */
  function Walk(base: seq<string>, ns: seq<string>): seq<string>
    decreases ns
  {
    if ns == [] then base
    else if ns[0] == DOT then Walk(base, ns[1..])
    else if ns[0] == DOTDOT then Walk(if base == [] then [] else base[..|base| - 1], ns[1..])
    else Walk(base + [ns[0]], ns[1..])
  }

  /** Where the string `base/s` leads. */
  function Resolve(base: seq<string>, s: string): seq<string> { Walk(base, Names(s)) }

  lemma {:induction false} WalkAppend(base: seq<string>, a: seq<string>, b: seq<string>)
    ensures Walk(base, a + b) == Walk(Walk(base, a), b)
    decreases a
  {
    if a == [] {
      assert a + b == b;
    } else {
      assert (a + b)[1..] == a[1..] + b;
      if a[0] == DOT {
        WalkAppend(base, a[1..], b);
      } else if a[0] == DOTDOT {
        WalkAppend(if base == [] then [] else base[..|base| - 1], a[1..], b);
      } else {
        WalkAppend(base + [a[0]], a[1..], b);
      }
    }
  }

  lemma {:induction false} CollapseKeepsWalk(base: seq<string>, kept: seq<string>, ns: seq<string>)
    requires Canonical(kept)
    ensures Walk(base, Collapse(kept, ns, false)) == Walk(base, kept + ns)
    decreases ns
  {
    if ns == [] {
      assert kept + ns == kept;
    } else {
      var n := ns[0];
      WalkAppend(base, kept, ns);
      if n == DOT {
        CollapseKeepsWalk(base, kept, ns[1..]);
        WalkAppend(base, kept, ns[1..]);
      } else if n == DOTDOT && kept != [] && Last(kept) != DOTDOT {
        var front := kept[..|kept| - 1];
        assert kept == front + [Last(kept)];
        WalkAppend(base, front, [Last(kept)]);
        CollapseKeepsWalk(base, front, ns[1..]);
        WalkAppend(base, front, ns[1..]);
      } else {
        assert kept + ns == kept + [n] + ns[1..];
        CollapseKeepsWalk(base, kept + [n], ns[1..]);
      }
    }
  }

  function DotDots(ns: seq<string>): (d: nat)
    ensures d <= |ns|
  {
    if ns != [] && ns[0] == DOTDOT then 1 + DotDots(ns[1..]) else 0
  }

  lemma {:induction false} CanonicalSplit(ns: seq<string>)
    requires Canonical(ns)
    ensures Plain(ns[DotDots(ns)..])
    decreases ns
  {
    if ns != [] {
      if ns[0] == DOTDOT {
        forall i | 0 <= i < |ns[1..]|
          ensures ns[1..][i] != DOT && (ns[1..][i] == DOTDOT ==> i == 0 || ns[1..][i - 1] == DOTDOT)
        {
          assert ns[1..][i] == ns[i + 1];
          if i > 0 { assert ns[1..][i - 1] == ns[i]; }
        }
        CanonicalSplit(ns[1..]);
        assert ns[1..][DotDots(ns[1..])..] == ns[DotDots(ns)..];
      } else {
        NoLaterDotDot(ns, |ns| - 1);
        forall i | 0 <= i < |ns| ensures ns[i] != DOTDOT { NoLaterDotDot(ns, i); }
      }
    }
  }

  lemma {:induction false} NoLaterDotDot(ns: seq<string>, i: nat)
    requires Canonical(ns) && i < |ns| && ns[0] != DOTDOT
    ensures ns[i] != DOTDOT
  {
    if i > 0 { NoLaterDotDot(ns, i - 1); }
  }

  lemma {:induction false} WalkPlain(base: seq<string>, ns: seq<string>)
    requires Plain(ns)
    ensures Walk(base, ns) == base + ns
    decreases ns
  {
    if ns != [] { WalkPlain(base + [ns[0]], ns[1..]); }
  }

  lemma {:induction false} WalkCanonical(base: seq<string>, ns: seq<string>)
    requires Canonical(ns) && DotDots(ns) <= |base|
    ensures Walk(base, ns) == base[..|base| - DotDots(ns)] + ns[DotDots(ns)..]
    decreases ns
  {
    if ns != [] && ns[0] == DOTDOT {
      forall i | 0 <= i < |ns[1..]|
        ensures ns[1..][i] != DOT && (ns[1..][i] == DOTDOT ==> i == 0 || ns[1..][i - 1] == DOTDOT)
      {
        assert ns[1..][i] == ns[i + 1];
        if i > 0 { assert ns[1..][i - 1] == ns[i]; }
      }
      WalkCanonical(base[..|base| - 1], ns[1..]);
    } else {
      CanonicalSplit(ns);
      WalkPlain(base, ns);
    }
  }

  /** Different canonical lists lead to different places from some directory. */
  lemma CanonicalSeparated(a: seq<string>, b: seq<string>) returns (base: seq<string>)
    requires Canonical(a) && Canonical(b) && a != b
    ensures Walk(base, a) != Walk(base, b)
  {
    if DotDots(a) > DotDots(b) {
      base := SeparatedInOrder(b, a);
    } else {
      base := SeparatedInOrder(a, b);
    }
  }

  lemma SeparatedInOrder(a: seq<string>, b: seq<string>) returns (base: seq<string>)
    requires Canonical(a) && Canonical(b) && a != b && DotDots(a) <= DotDots(b)
    ensures Walk(base, a) != Walk(base, b)
  {
    hide Walk, DotDots;
    var da, db := DotDots(a), DotDots(b);
    var marker := if db < |b| && b[db] == "x" then "y" else "x";
    base := seq(db, i => marker);
    WalkCanonical(base, a);
    WalkCanonical(base, b);
    var ra, rb := Walk(base, a), Walk(base, b);
    assert ra == base[..db - da] + a[da..] && rb == b[db..];
    if da == db {
      SameDotDots(a, b);
    } else if |ra| == |rb| {
      assert ra[0] == marker && rb[0] == b[db];
    }
  }

  lemma SameDotDots(a: seq<string>, b: seq<string>)
    requires a != b && DotDots(a) == DotDots(b)
    ensures a[DotDots(a)..] != b[DotDots(b)..]
  {
    DotDotPrefix(a);
    DotDotPrefix(b);
    hide DotDots;
    var d := DotDots(a);
    assert a == a[..d] + a[d..] && b == b[..d] + b[d..];
  }

  lemma {:induction false} DotDotPrefix(ns: seq<string>)
    ensures ns[..DotDots(ns)] == seq(DotDots(ns), i => DOTDOT)
  {
    if ns != [] && ns[0] == DOTDOT {
      DotDotPrefix(ns[1..]);
      assert ns[..DotDots(ns)] == [DOTDOT] + ns[1..][..DotDots(ns[1..])];
    }
  }

  /** For relative paths the normal form is exactly the location: two paths normalise to
      the same components iff they lead to the same place from every directory. */
  lemma SameLocationIffSameNames(s: string, t: string)
    requires !Rooted(s) && !Rooted(t)
    ensures NormalNames(s) == NormalNames(t) <==> forall base :: Resolve(base, s) == Resolve(base, t)
  {
    CollapseShape([], Names(s), false);
    CollapseShape([], Names(t), false);
    forall base
      ensures Walk(base, NormalNames(s)) == Resolve(base, s)
      ensures Walk(base, NormalNames(t)) == Resolve(base, t)
    {
      CollapseKeepsWalk(base, [], Names(s));
      CollapseKeepsWalk(base, [], Names(t));
      assert [] + Names(s) == Names(s) && [] + Names(t) == Names(t);
    }
    if NormalNames(s) != NormalNames(t) {
      var base := CanonicalSeparated(NormalNames(s), NormalNames(t));
      assert Resolve(base, s) != Resolve(base, t);
    }
  }

  /** Following `ns` from depth `depth` leaves the starting directory at some point. */
  predicate Escapes(ns: seq<string>, depth: nat)
    decreases ns
  {
    ns != [] &&
    if ns[0] == DOT then Escapes(ns[1..], depth)
    else if ns[0] == DOTDOT then depth == 0 || Escapes(ns[1..], depth - 1)
    else Escapes(ns[1..], depth + 1)
  }

  /** Below whatever folder the path is followed, it never leaves that folder. */
  predicate StaysInside(s: string) { !Escapes(Names(s), 0) }

  lemma {:induction false} DotDotsStay(kept: seq<string>, ns: seq<string>)
    requires Canonical(kept) && DotDots(kept) > 0
    ensures DotDots(Collapse(kept, ns, false)) > 0
    decreases ns
  {
    if ns != [] {
      if ns[0] == DOT {
        DotDotsStay(kept, ns[1..]);
      } else if ns[0] == DOTDOT && Last(kept) != DOTDOT {
        assert |kept| > 1;
        assert kept[..|kept| - 1][0] == DOTDOT;
        DotDotsStay(kept[..|kept| - 1], ns[1..]);
      } else {
        assert (kept + [ns[0]])[0] == DOTDOT;
        DotDotsStay(kept + [ns[0]], ns[1..]);
      }
    }
  }

  lemma {:induction false} EscapesIffDotDots(kept: seq<string>, ns: seq<string>)
    requires Plain(kept)
    ensures Escapes(ns, |kept|) <==> DotDots(Collapse(kept, ns, false)) > 0
    ensures !Escapes(ns, |kept|) ==> Collapse(kept, ns, true) == Collapse(kept, ns, false)
    decreases ns
  {
    if ns != [] {
      if ns[0] == DOT {
        EscapesIffDotDots(kept, ns[1..]);
      } else if ns[0] == DOTDOT {
        if kept == [] {
          assert DotDots([DOTDOT]) > 0;
          DotDotsStay([DOTDOT], ns[1..]);
          assert [] + [DOTDOT] == [DOTDOT];
        } else {
          EscapesIffDotDots(kept[..|kept| - 1], ns[1..]);
        }
      } else {
        EscapesIffDotDots(kept + [ns[0]], ns[1..]);
      }
    }
  }

  /** Normalising keeps the place a path leads to below any directory, exactly when the
      path does not both start with a separator and climb out of that directory: the
      updater drops the leading separator only after a root has absorbed the dot-dots. */
  lemma KeepsLocationIff(s: string)
    ensures (forall base :: Resolve(base, Norm(s)) == Resolve(base, s))
            <==> !(Rooted(s) && Escapes(Names(s), 0))
  {
    BodyShape(s);
    CollapseShape([], Names(s), Rooted(s));
    CollapseShape([], Names(s), false);
    EscapesIffDotDots([], Names(s));
    var relative := Collapse([], Names(s), false);
    forall base
      ensures Resolve(base, Norm(s)) == Walk(base, NormalNames(s))
      ensures Resolve(base, s) == Walk(base, relative)
    {
      CollapseKeepsWalk(base, [], Names(s));
      assert [] + Names(s) == Names(s);
    }
    if Rooted(s) && Escapes(Names(s), 0) {
      PlainHasNoDotDots(NormalNames(s));
      var base := CanonicalSeparated(NormalNames(s), relative);
      assert Resolve(base, Norm(s)) != Resolve(base, s);
    }
  }

  lemma PlainHasNoDotDots(ns: seq<string>)
    requires Plain(ns)
    ensures DotDots(ns) == 0
  {
  }

  lemma EscapingNames()
    ensures Names("/../a") == ["..", "a"] && Names("a") == ["a"]
  {
    assert Slashes("/../a") == "/../a" && Slashes("a") == "a";
    SplitName("a", '/');
    SplitName("..", '/');
    SplitAppend("..", "a", '/');
    assert ".." + ['/'] + "a" == "../a" == "/../a"[1..];
  }

  /** "/../a" below the application folder names a place outside it; its normal form
      does not. */
  lemma RootedEscapeMoves()
    ensures Norm("/../a") == "a"
    ensures Resolve(["app"], "/../a") == ["a"]
    ensures Resolve(["app"], "a") == ["app", "a"]
  {
    hide Split;
    EscapingNames();
    var ns := ["..", "a"];
    assert Slashes("/../a") == "/../a" && ns[1..] == ["a"];
    assert Collapse([], ns, true) == Collapse([], ["a"], true) == [] + ["a"] == ["a"];
    assert Walk(["app"], ns) == Walk([], ["a"]) == [] + ["a"] == ["a"];
    assert Walk(["app"], ["a"]) == Walk(["app", "a"], []);
  }

  // ----- Paths of files -----

  /** The path of a file as a directory iterator spells it below its root. */
  ghost predicate IsFilePath(s: string) {
    exists ns: seq<string> :: ns != [] && AreNames(ns, '/') && Plain(ns) && s == Join(ns, '/')
  }

  /** Such a path is its own normal form exactly when it holds no backslash. */
  lemma FilePathNormalIff(s: string)
    requires IsFilePath(s)
    ensures Norm(s) == s <==> '\\' !in s
  {
    if Norm(s) == s {
      BodyBackslashFree(s);
      forall i | 0 <= i < |s| ensures s[i] != '\\' { assert Slashes(s)[i] == s[i]; }
    }
    if '\\' !in s {
      var ns: seq<string> :| ns != [] && AreNames(ns, '/') && Plain(ns) && s == Join(ns, '/');
      assert Slashes(s) == s;
      SplitJoin(ns, '/');
      JoinEnds(ns, '/');
      hide Join, Split;
      assert [] + ns == ns;
      CollapseCanonical([], ns, false);
    }
  }

  lemma NamesOfPieces(a: string, b: string)
    ensures Names(a + "/" + b) == Names(a) + Names(b)
  {
    assert Slashes(a + "/" + b) == Slashes(a) + ['/'] + Slashes(b);
    SplitAppend(Slashes(a), Slashes(b), '/');
  }

  lemma PieceNames(n: string)
    requires IsName(n, '/') && '\\' !in n
    ensures Names(n) == [n]
  {
    assert Slashes(n) == n;
    SplitName(n, '/');
  }

  lemma NoNames()
    ensures Names("") == []
  {
  }

  lemma FilePathParts(s: string) returns (ns: seq<string>)
    requires IsFilePath(s) && '\\' !in s
    ensures ns != [] && Plain(ns) && Names(s) == ns && Join(ns, '/') == s
    ensures s != "" && s[0] != '/' && s[|s| - 1] != '/'
  {
    ns :| ns != [] && AreNames(ns, '/') && Plain(ns) && s == Join(ns, '/');
    assert Slashes(s) == s;
    SplitJoin(ns, '/');
    JoinEnds(ns, '/');
  }

  lemma {:induction false} CollapsePlain(kept: seq<string>, ns: seq<string>, rest: seq<string>, rooted: bool)
    requires Plain(ns)
    ensures Collapse(kept, ns + rest, rooted) == Collapse(kept + ns, rest, rooted)
    decreases ns
  {
    if ns == [] {
      assert ns + rest == rest && kept + ns == kept;
    } else {
      assert (ns + rest)[1..] == ns[1..] + rest;
      assert kept + [ns[0]] + ns[1..] == kept + ns;
      CollapsePlain(kept + [ns[0]], ns[1..], rest, rooted);
    }
  }

  lemma CollapseNone(kept: seq<string>, rooted: bool)
    ensures Collapse(kept, [], rooted) == kept && Collapse(kept, [DOT], rooted) == kept
  {
  }

  lemma CollapsePair(kept: seq<string>, n: string)
    requires n != DOTDOT
    ensures Collapse(kept + [n], [DOTDOT], false) == kept
  {
    assert (kept + [n])[..|kept|] == kept && Last(kept + [n]) == n;
    assert [DOTDOT][1..] == [];
    CollapseNone(kept, false);
  }

  /** What may follow the names of a file without leading elsewhere. */
  predicate LeadsBack(rest: seq<string>) {
    || rest == [] || rest == [DOT]
    || (|rest| == 2 && rest[0] != DOT && rest[0] != DOTDOT && rest[1] == DOTDOT)
  }

  lemma CollapseBack(ns: seq<string>, rest: seq<string>)
    requires Plain(ns) && LeadsBack(rest)
    ensures Collapse([], ns + rest, false) == ns
  {
    hide Collapse;
    assert [] + ns == ns;
    if |rest| == 2 {
      var longer := ns + [rest[0]];
      assert ns + rest == longer + [DOTDOT] && [] + longer == longer;
      CollapsePlain([], longer, [DOTDOT], false);
      CollapsePair(ns, rest[0]);
    } else {
      CollapsePlain([], ns, rest, false);
      CollapseNone(ns, false);
    }
  }

  /** `t` continues the path `s` of names `ns` and ends like a directory. */
  lemma FolderSpelling(s: string, t: string, ns: seq<string>, rest: seq<string>)
    requires ns != [] && Plain(ns) && Join(ns, '/') == s && s != "" && s[0] != '/' && s[0] != '\\' && s < t
    requires Names(t) == ns + rest && LeadsBack(rest) && (rest == [] ==> t[|t| - 1] == '/')
    ensures Norm(t) == s + "/"
  {
    hide Names, Join, Collapse;
    assert !Rooted(t) by { assert t[0] == s[0] && Slashes(t)[0] == s[0]; }
    CollapseBack(ns, rest);
    assert rest == [] ==> EndsInSeparator(t);
  }

  lemma RootedFile(s: string, ns: seq<string>)
    requires ns != [] && Plain(ns) && Join(ns, '/') == s && s != "" && s[|s| - 1] != '/' && '\\' !in s
    requires Names("/" + s) == ns
    ensures Norm("/" + s) == s
  {
    hide Names, Join, Collapse;
    CollapsePlain([], ns, [], true);
    assert ns + [] == ns && [] + ns == ns;
    CollapseNone(ns, true);
    var t := "/" + s;
    assert Rooted(t) by { assert Slashes(t)[0] == t[0]; }
    assert t[|t| - 1] == s[|s| - 1] && s[|s| - 1] in s;
    assert !EndsInSeparator(t) by { assert Slashes(t)[|t| - 1] == t[|t| - 1]; }
  }

  /** A separator, a dot, or a name that is left again at the end of a path keeps it a
      directory; a separator in front of it is dropped. */
  lemma DirectoryPathNormal(s: string, n: string)
    requires IsFilePath(s) && '\\' !in s && IsName(n, '/') && '\\' !in n && n !in {".", ".."}
    ensures Norm("/" + s) == s
    ensures Norm(s + "/") == Norm(s + "/.") == Norm(s + "/" + n + "/..") == s + "/"
  {
    hide Split, Join, Collapse, Names, Norm;
    var ns := FilePathParts(s);
    NoNames();
    NamesOfPieces("", s);
    assert "" + "/" + s == "/" + s && [] + ns == ns && ns + [] == ns;
    RootedFile(s, ns);
    NamesOfPieces(s, "");
    assert s + "/" + "" == s + "/";
    FolderSpelling(s, s + "/", ns, []);
    PieceNames(".");
    NamesOfPieces(s, ".");
    assert s + "/" + "." == s + "/.";
    FolderSpelling(s, s + "/.", ns, ["."]);
    PieceNames(n);
    PieceNames("..");
    NamesOfPieces(s, n);
    NamesOfPieces(s + "/" + n, "..");
    assert s + "/" + n + "/" + ".." == s + "/" + n + "/.." && ns + [n] + [".."] == ns + [n, ".."];
    FolderSpelling(s, s + "/" + n + "/..", ns, [n, ".."]);
  }

  // ----- Folding case, spelled out -----

  /** Equal, or a capital and its small letter. */
  predicate SameButCase(c: char, d: char) {
    c == d || exists i :: 0 <= i < 26 && {c, d} == {CAPITALS[i], SMALL_LETTERS[i]}
  }

  lemma CapitalAt(c: char) returns (i: nat)
    requires 65 <= c as int <= 90
    ensures i < 26 && |CAPITALS| == 26 && CAPITALS[i] == c && i == c as int - 65
  {
    CharacterCodes();
    i := c as int - 65;
    assert CAPITALS[i] as int == c as int;
  }

  lemma FoldsLetter(c: char)
    ensures LowerChar(c) !in CAPITALS
    ensures c !in CAPITALS ==> LowerChar(c) == c
    ensures |CAPITALS| == |SMALL_LETTERS| == 26
    ensures forall j :: 0 <= j < 26 && c == CAPITALS[j] ==> LowerChar(c) == SMALL_LETTERS[j]
  {
    CharacterCodes();
    if c !in CAPITALS && 65 <= c as int <= 90 {
      var i := CapitalAt(c);
      assert false;
    }
    forall j | 0 <= j < 26 && c == CAPITALS[j] ensures LowerChar(c) == SMALL_LETTERS[j] {
      assert LowerChar(c) as int == SMALL_LETTERS[j] as int;
    }
  }

  /** A folded key is the normal form with every capital letter replaced by its small one,
      and nothing else. */
  lemma FoldedKey(s: string)
    ensures |CAPITALS| == |SMALL_LETTERS| == 26
    ensures var k, n := Key(s, true), Norm(s);
      |k| == |n| && forall i :: 0 <= i < |k| ==>
        && k[i] !in CAPITALS
        && (n[i] !in CAPITALS ==> k[i] == n[i])
        && forall j :: 0 <= j < 26 && n[i] == CAPITALS[j] ==> k[i] == SMALL_LETTERS[j]
    ensures Key(s, false) == Norm(s)
  {
    CharacterCodes();
    hide Norm, LowerChar;
    var k, n := Key(s, true), Norm(s);
    forall i | 0 <= i < |k|
      ensures k[i] !in CAPITALS && (n[i] !in CAPITALS ==> k[i] == n[i])
      ensures forall j :: 0 <= j < 26 && n[i] == CAPITALS[j] ==> k[i] == SMALL_LETTERS[j]
    {
      FoldsLetter(n[i]);
    }
  }

  lemma SameFold(c: char, d: char)
    requires 65 <= c as int <= 90 && d != c && LowerChar(d) == LowerChar(c)
    ensures SameButCase(c, d) && SameButCase(d, c)
  {
    CharacterCodes();
    var i := CapitalAt(c);
    assert SMALL_LETTERS[i] as int == d as int;
    assert {c, d} == {CAPITALS[i], SMALL_LETTERS[i]} == {d, c};
  }

  lemma LettersFold(c: char, d: char, i: nat)
    requires i < 26 && |CAPITALS| == |SMALL_LETTERS| == 26 && {c, d} == {CAPITALS[i], SMALL_LETTERS[i]}
    ensures LowerChar(c) == LowerChar(d)
  {
    CharacterCodes();
    assert c in {CAPITALS[i], SMALL_LETTERS[i]} && d in {CAPITALS[i], SMALL_LETTERS[i]};
    assert LowerChar(CAPITALS[i]) as int == SMALL_LETTERS[i] as int;
    assert LowerChar(SMALL_LETTERS[i]) as int == SMALL_LETTERS[i] as int;
  }

  lemma SameFoldIff(c: char, d: char)
    ensures LowerChar(c) == LowerChar(d) <==> SameButCase(c, d)
  {
    CharacterCodes();
    if c != d && LowerChar(c) == LowerChar(d) {
      if 65 <= c as int <= 90 { SameFold(c, d); } else { SameFold(d, c); }
    }
    if c != d && SameButCase(c, d) {
      var i :| 0 <= i < 26 && {c, d} == {CAPITALS[i], SMALL_LETTERS[i]};
      LettersFold(c, d, i);
    }
  }

  /** Two paths have one folded key exactly when their normal forms differ in nothing but the
      case of letters. */
  lemma SameKeyIff(s: string, t: string)
    ensures Key(s, true) == Key(t, true) <==>
      |Norm(s)| == |Norm(t)| && forall i :: 0 <= i < |Norm(s)| ==> SameButCase(Norm(s)[i], Norm(t)[i])
  {
    hide Norm, LowerChar, SameButCase;
    var m, n := Norm(s), Norm(t);
    if |m| == |n| {
      forall i | 0 <= i < |m| ensures Key(s, true)[i] == Key(t, true)[i] <==> SameButCase(m[i], n[i]) {
        SameFoldIff(m[i], n[i]);
      }
    }
  }
}
