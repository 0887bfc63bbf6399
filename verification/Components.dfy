/** Splitting a separated path string into its non-empty components, and joining
    components back. Used for '/'-separated manifest and file paths and for
    '\'-separated registry paths. */
module Components {

  /** A component: not empty and free of the separator. */
  predicate IsName(n: string, sep: char) {
    n != "" && sep !in n
  }

  predicate AreNames(ns: seq<string>, sep: char) {
    forall n :: n in ns ==> IsName(n, sep)
  }

  /** The longest prefix of `s` without a separator. */
  function FirstName(s: string, sep: char): (n: string)
    ensures n <= s && sep !in n
    ensures |n| < |s| ==> s[|n|] == sep
  {
    if s == "" || s[0] == sep then "" else [s[0]] + FirstName(s[1..], sep)
  }

  /** The non-empty components of `s`; runs of separators count as one. */
  function Split(s: string, sep: char): (ns: seq<string>)
    ensures AreNames(ns, sep)
  {
    if s == "" then []
    else if s[0] == sep then Split(s[1..], sep)
    else
      var n := FirstName(s, sep);
      [n] + Split(s[|n|..], sep)
  }

  function Join(ns: seq<string>, sep: char): string {
    if ns == [] then ""
    else if |ns| == 1 then ns[0]
    else ns[0] + [sep] + Join(ns[1..], sep)
  }

  lemma {:induction false} FirstNameAppend(a: string, b: string, sep: char)
    ensures FirstName(a + [sep] + b, sep) == FirstName(a, sep)
  {
    if a != "" && a[0] != sep {
      FirstNameAppend(a[1..], b, sep);
      assert (a + [sep] + b)[1..] == a[1..] + [sep] + b;
    } else if a == "" {
      assert a + [sep] + b == [sep] + b;
    }
  }

  /** Splitting distributes over a separator. */
  lemma {:induction false} SplitAppend(a: string, b: string, sep: char)
    ensures Split(a + [sep] + b, sep) == Split(a, sep) + Split(b, sep)
    decreases |a|
  {
    hide FirstName;
    var s := a + [sep] + b;
    if a == "" {
      assert s == [sep] + b;
      assert s[1..] == b;
    } else if a[0] == sep {
      assert s[1..] == a[1..] + [sep] + b;
      SplitAppend(a[1..], b, sep);
    } else {
      FirstNameAppend(a, b, sep);
      var n := FirstName(a, sep);
      assert s[|n|..] == a[|n|..] + [sep] + b;
      SplitAppend(a[|n|..], b, sep);
    }
  }

  lemma {:induction false} FirstNameOfName(n: string, sep: char)
    requires sep !in n
    ensures FirstName(n, sep) == n
  {
    if n != "" {
      assert forall c :: c in n[1..] ==> c in n;
      FirstNameOfName(n[1..], sep);
    }
  }

  lemma SplitName(n: string, sep: char)
    requires IsName(n, sep)
    ensures Split(n, sep) == [n]
  {
    FirstNameOfName(n, sep);
    assert n[|n|..] == "";
  }

  /** Joining names and splitting again gives the names back. */
  lemma {:induction false} SplitJoin(ns: seq<string>, sep: char)
    requires AreNames(ns, sep)
    ensures Split(Join(ns, sep), sep) == ns
  {
    if ns != [] {
      SplitName(ns[0], sep);
      if |ns| > 1 {
        SplitAppend(ns[0], Join(ns[1..], sep), sep);
        SplitJoin(ns[1..], sep);
      }
    }
  }

  /** A joined list of names is empty only for no names, and neither starts nor ends
      with a separator. */
  lemma {:induction false} JoinEnds(ns: seq<string>, sep: char)
    requires AreNames(ns, sep)
    ensures ns == [] <==> Join(ns, sep) == ""
    ensures ns != [] ==> var s := Join(ns, sep); s[0] != sep && s[|s| - 1] != sep
  {
    if ns != [] {
      assert IsName(ns[0], sep);
      assert ns[0][0] in ns[0] && ns[0][|ns[0]| - 1] in ns[0];
      if |ns| > 1 { JoinEnds(ns[1..], sep); }
    }
  }
}
