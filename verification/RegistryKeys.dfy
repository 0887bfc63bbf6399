/** Recursive deletion of registry keys through a path buffer that every level of the
    recursion extends in place and truncates again. */
module RegistryKeys {
  import opened Components
  import opened PathTree

  const MAX_PATH := 260

  /** The key that a path string names; backslashes separate, and a trailing one is idle. */
  function KeyOf(s: string): Path { Split(s, '\\') }

  /** The array holds `s` as a C string. */
  ghost predicate Holds(buffer: array<char>, s: string)
    reads buffer
  {
    |s| < buffer.Length && buffer[..|s|] == s && buffer[|s|] == '\0' && '\0' !in s
  }

  function WithSlash(s: string): (t: string)
    ensures t != "" && t[|t| - 1] == '\\'
  {
    if s != "" && s[|s| - 1] == '\\' then s else s + "\\"
  }

  /** The path string that a level of the recursion leaves behind. */
  function WithoutSlash(s: string): string { WithSlash(s)[..|WithSlash(s)| - 1] }

  lemma KeyOfWithoutSlash(s: string)
    ensures WithSlash(s) == WithoutSlash(s) + "\\"
    ensures KeyOf(WithoutSlash(s)) == KeyOf(s)
  {
    var front := WithoutSlash(s);
    if WithSlash(s) == s {
      assert s == front + ['\\'] + "";
      SplitAppend(front, "", '\\');
      assert Split(front, '\\') + [] == Split(front, '\\');
    } else {
      assert front == s;
    }
  }

  lemma KeyOfChild(s: string, name: string)
    requires IsName(name, '\\')
    ensures KeyOf(WithSlash(s) + name) == KeyOf(s) + [name]
  {
    hide Split;
    KeyOfWithoutSlash(s);
    assert WithSlash(s) + name == WithoutSlash(s) + ['\\'] + name;
    SplitAppend(WithoutSlash(s), name, '\\');
    SplitName(name, '\\');
  }

  /** Characters that a path of names takes, each with a separator. */
  function Extra(ns: Path): nat { if ns == [] then 0 else |ns[0]| + 1 + Extra(ns[1..]) }

  function AtOrBelow(keys: set<Path>, p: Path): set<Path> { set k | k in keys && p <= k }

  lemma SubtreeShrinks(keys: set<Path>, p: Path, c: Path)
    requires p in keys && p < c
    ensures AtOrBelow(keys, c) < AtOrBelow(keys, p)
  {
    assert p in AtOrBelow(keys, p) && p !in AtOrBelow(keys, c);
  }

  /** Which keys can be deleted, and which can be opened. */
  datatype Rights = Rights(deletes: Path -> bool, opens: Path -> bool)

  class Registry {
    var keys: set<Path>
    /** Keys that may not be deleted. */
    const denied: set<Path>
    /** Keys that may not be opened. */
    const locked: set<Path>

    ghost predicate Valid()
      reads this`keys
    {
      IsTree(keys) && forall k, i :: k in keys && 0 <= i < |k| ==> IsName(k[i], '\\') && '\0' !in k[i]
    }

    /** The rights that the registry grants. */
    function Granted(): Rights { Rights(k => k !in denied, k => k !in locked) }

    /** Every key of the subtree can be deleted, and opened if it has subkeys. */
    ghost predicate Deletable(g: Rights, ks: set<Path>, p: Path) {
      forall k :: k in ks && p <= k ==> g.deletes(k) && (Childless(ks, k) || g.opens(k))
    }

    /** What deleting the subtree at `p` means for the registry. */
    ghost predicate Deleted(g: Rights, ks: set<Path>, p: Path, ok: bool, now: set<Path>) {
      && now <= ks && ks - AtOrBelow(ks, p) <= now
      && (ok <==> Deletable(g, ks, p))
      && (ok ==> now == ks - AtOrBelow(ks, p))
      && (!ok ==> p in now)
    }

    /** Length of the text that names `k` when the recursion starts from `subkey`. */
    function TextLength(subkey: string, k: Path): int
      requires KeyOf(subkey) <= k
    {
      if k == KeyOf(subkey) then |subkey| else |WithSlash(subkey)| + Extra(k[|KeyOf(subkey)|..]) - 1
    }

    /** The same with the backslash that is needed to enumerate below `k`. */
    function SlashedLength(subkey: string, k: Path): int
      requires KeyOf(subkey) <= k
    {
      if k == KeyOf(subkey) then |WithSlash(subkey)| else TextLength(subkey, k) + 1
    }

    /** The recursion from `p` can come to `k`: all keys above it can be opened. */
    predicate Visited(p: Path, k: Path) {
      p <= k && forall j :: |p| <= j < |k| ==> k[..j] !in locked
    }

    /** The first attempt to delete `k` fails, and it is opened. */
    ghost predicate Opened(ks: set<Path>, k: Path) {
      k !in locked && (k in denied || !Childless(ks, k))
    }

    /** Every path that is written fits with its NUL: the name of a key that the recursion
        can come to, and the backslash behind that of a key it opens. */
    ghost predicate Fits(ks: set<Path>, s: string, length: int) {
      forall k :: k in ks && Visited(KeyOf(s), k) ==>
        TextLength(s, k) < length && (Opened(ks, k) ==> SlashedLength(s, k) < length)
    }

    // ----- Registry calls -----

    method DeleteKey(p: Path) returns (ok: bool)
      requires Valid()
      modifies this`keys
      ensures Valid()
      ensures ok <==> p in old(keys) && p !in denied && Childless(old(keys), p)
      ensures keys == if ok then old(keys) - {p} else old(keys)
    {
      ok := p in keys && p !in denied && forall k :: k in keys && k != [] ==> Parent(k) != p;
      if ok { keys := keys - {p}; }
    }

    // ----- The recursion -----

    /** Deletes the key that `buffer` names with everything below it. The buffer comes back
        with the same path, without its trailing backslash if the key had to be opened.
        The answer is exact; on success exactly the subtree is gone; on failure nothing
        outside it is touched and the key itself is still there. */
    method RegDelNodeRecurse(buffer: array<char>, ghost s: string) returns (ok: bool)
      requires Valid() && Holds(buffer, s) && KeyOf(s) != []
      requires Fits(keys, s, buffer.Length)
      modifies this`keys, buffer
      ensures Valid() && (Holds(buffer, s) || Holds(buffer, WithoutSlash(s)))
      ensures Deleted(Granted(), old(keys), KeyOf(s), ok, keys)
      decreases AtOrBelow(keys, KeyOf(s)), 2
    {
      hide Deletable, Deleted, GoneDeletable, Within, Childless, KeyOf;
      ghost var p, start := KeyOf(s), keys;
      var length := StringLength(buffer, s);
      var here := KeyOf(buffer[..length]);
      assert buffer[..length] == s;
      ok := DeleteKey(here);
      if ok {
        LeafDeleted(Granted(), start, p);
        return;
      }
      if here !in keys {
        AbsentDeleted(Granted(), start, p);
        return true;
      }
      if here in locked {
        LockedStays(Granted(), start, p);
        return false;
      }
      KeyNotEmpty(s);
      var lpEnd := EndWithSlash(buffer, length, s);
      var complete := DeleteChildren(buffer, lpEnd, s, here);
      lpEnd := lpEnd - 1;
      buffer[lpEnd] := '\0';
      assert buffer[..lpEnd] == WithoutSlash(s);
      ghost var now := keys;
      WithinShrinks(start, here, now);
      ok := DeleteKey(here);
      NodeDeleted(Granted(), start, p, complete, now, ok, keys);
    }

    /** Adds a backslash to the path in the buffer if it is missing. */
    method EndWithSlash(buffer: array<char>, length: nat, ghost s: string) returns (lpEnd: nat)
      requires length == |s| > 0 && |WithSlash(s)| < buffer.Length && buffer[..length] == s
      modifies buffer
      ensures lpEnd == |WithSlash(s)| && buffer[..lpEnd] == WithSlash(s)
    {
      lpEnd := length;
      assert buffer[length - 1] == s[length - 1];
      if buffer[lpEnd - 1] != '\\' {
        buffer[lpEnd] := '\\';
        lpEnd := lpEnd + 1;
        buffer[lpEnd] := '\0';
      }
    }

    lemma KeyNotEmpty(s: string)
      requires KeyOf(s) != []
      ensures s != ""
    {
    }

    method StringLength(buffer: array<char>, ghost s: string) returns (n: nat)
      requires Holds(buffer, s)
      ensures n == |s|
    {
      n := 0;
      assert forall k :: 0 <= k < |s| ==> buffer[k] == buffer[..|s|][k] && s[k] in s;
      while buffer[n] != '\0'
        invariant n <= |s|
        decreases |s| - n
      {
        n := n + 1;
      }
    }

    /** Nothing outside the subtree of `p` has changed, and `p` is still there. */
    ghost predicate Within(start: set<Path>, p: Path, now: set<Path>) {
      now <= start && start - AtOrBelow(start, p) <= now && p in now
    }

    /** Subkeys of `p` that are gone were deletable. */
    ghost predicate GoneDeletable(g: Rights, start: set<Path>, p: Path, now: set<Path>) {
      forall c :: c in start && c != [] && Parent(c) == p && c !in now ==> Deletable(g, start, c)
    }

    /** Subkeys of `p` that remain are untouched with all below them. */
    ghost predicate RestUntouched(start: set<Path>, p: Path, now: set<Path>) {
      forall k :: k in start && p < k && ChildToward(p, k) in now ==> k in now
    }

    /** The enumeration loop: the first subkey is deleted until none is left or one fails. */
    method DeleteChildren(buffer: array<char>, lpEnd: nat, ghost s: string, here: Path) returns (complete: bool)
      requires Valid() && here == KeyOf(s) && here in keys && here !in locked
      requires '\0' !in s && lpEnd == |WithSlash(s)| < buffer.Length && buffer[..lpEnd] == WithSlash(s)
      requires Fits(keys, s, buffer.Length)
      modifies this`keys, buffer
      ensures Valid() && buffer[..lpEnd] == WithSlash(s)
      ensures Within(old(keys), here, keys)
      ensures complete ==> Childless(keys, here) && GoneDeletable(Granted(), old(keys), here, keys)
      ensures !complete ==> !Childless(keys, here) && !Deletable(Granted(), old(keys), here)
      decreases AtOrBelow(keys, here), 1
    {
      ghost var start := keys;
      hide Within, GoneDeletable, RestUntouched, Fits, Deletable, Deleted, KeyOf, WithSlash;
      NothingDone(Granted(), start, here);
      while true
        invariant Valid() && buffer[..lpEnd] == WithSlash(s)
        invariant Within(start, here, keys) && GoneDeletable(Granted(), start, here, keys)
        invariant RestUntouched(start, here, keys)
        decreases keys
      {
        WithinShrinks(start, here, keys);
        if forall k :: k in keys && k != [] ==> Parent(k) != here {
          return true;
        }
        var child :| child in keys && child != [] && Parent(child) == here;
        ghost var before := keys;
        FitsShrinks(start, keys, s, buffer.Length);
        var deleted := DeleteChild(buffer, lpEnd, s, here, child);
        ChildDeleted(Granted(), start, here, before, child, deleted, keys);
        if !deleted { return false; }
      }
    }

    /** Appends the subkey's name to the path in the buffer and descends. */
    method DeleteChild(buffer: array<char>, lpEnd: nat, ghost s: string, here: Path,
                       child: Path) returns (deleted: bool)
      requires Valid() && here == KeyOf(s) && here in keys && here !in locked
      requires child in keys && child != [] && Parent(child) == here
      requires '\0' !in s && lpEnd == |WithSlash(s)| < buffer.Length && buffer[..lpEnd] == WithSlash(s)
      requires Fits(keys, s, buffer.Length)
      modifies this`keys, buffer
      ensures Valid() && buffer[..lpEnd] == WithSlash(s)
      ensures Deleted(Granted(), old(keys), child, deleted, keys)
      decreases AtOrBelow(keys, here), 0
    {
      hide Deletable, Deleted, KeyOf, Fits, AtOrBelow, Granted, IsName;
      var szName := child[|child| - 1];
      assert IsName(szName, '\\') && '\0' !in szName;
      KeyOfChild(s, szName);
      assert here + [szName] == child;
      ghost var t := WithSlash(s) + szName;
      ChildFits(keys, s, child, buffer.Length);
      ChildText(s, szName);
      hide WithSlash, Valid;
      StringCopy(buffer, lpEnd, szName);
      assert buffer[..|t|] == t;
      SubtreeShrinks(keys, here, child);
      deleted := RegDelNodeRecurse(buffer, t);
      KeepsFront(buffer, t, lpEnd, WithSlash(s));
    }

    lemma ChildText(s: string, name: string)
      requires '\0' !in s && '\0' !in name && IsName(name, '\\')
      ensures var t := WithSlash(s) + name; '\0' !in t && t[|t| - 1] != '\\'
    {
      assert name[|name| - 1] in name;
    }

    /** `StringCchCopy` at `lpEnd`. */
    method StringCopy(buffer: array<char>, lpEnd: nat, szName: string)
      requires lpEnd + |szName| < buffer.Length
      modifies buffer
      ensures buffer[..lpEnd] == old(buffer[..lpEnd])
      ensures buffer[lpEnd..lpEnd + |szName|] == szName && buffer[lpEnd + |szName|] == '\0'
    {
      for i := 0 to |szName|
        invariant buffer[..lpEnd] == old(buffer[..lpEnd])
        invariant buffer[lpEnd..lpEnd + i] == szName[..i]
      {
        buffer[lpEnd + i] := szName[i];
      }
      buffer[lpEnd + |szName|] := '\0';
    }

    // ----- The recursion with a buffer of its own at every level -----

    /** The rights that are left when every level copies the path into `MAX_PATH`
        characters: a subkey whose path does not fit cannot be reached, and one that
        leaves no room for a backslash and a NUL cannot be emptied. */
    function Reached(subkey: string): Rights {
      Rights(k => k !in denied && (KeyOf(subkey) < k ==> TextLength(subkey, k) < MAX_PATH),
             k => k !in locked && (KeyOf(subkey) <= k ==> TextLength(subkey, k) < MAX_PATH - 1))
    }

    /** The text that the recursion from `subkey` writes for the key `k` below it. */
    function Text(subkey: string, k: Path): string
      requires KeyOf(subkey) <= k
    {
      if k == KeyOf(subkey) then subkey else WithSlash(subkey) + Join(k[|KeyOf(subkey)|..], '\\')
    }

    lemma {:induction false} JoinLength(ns: Path)
      requires ns != []
      ensures |Join(ns, '\\')| == Extra(ns) - 1
    {
      if |ns| > 1 { JoinLength(ns[1..]); }
    }

    /** That text names the key, and `TextLength` is its length. */
    lemma TextNames(subkey: string, k: Path)
      requires KeyOf(subkey) <= k && AreNames(k, '\\')
      ensures KeyOf(Text(subkey, k)) == k && |Text(subkey, k)| == TextLength(subkey, k)
      ensures |WithSlash(Text(subkey, k))| == SlashedLength(subkey, k)
    {
      hide Split, Join;
      var p := KeyOf(subkey);
      var rest := k[|p|..];
      if k != p {
        assert rest != [] && AreNames(rest, '\\') && k == p + rest;
        KeyOfWithoutSlash(subkey);
        assert Text(subkey, k) == WithoutSlash(subkey) + ['\\'] + Join(rest, '\\');
        SplitAppend(WithoutSlash(subkey), Join(rest, '\\'), '\\');
        SplitJoin(rest, '\\');
        JoinLength(rest);
        JoinEnds(rest, '\\');
      }
    }

    /** A key can be deleted if its text and a NUL fit in 260 characters, and emptied if
        there is room for a backslash too. */
    lemma ReachedInCharacters(subkey: string, k: Path)
      requires KeyOf(subkey) <= k && AreNames(k, '\\')
      ensures Reached(subkey).deletes(k) <==>
        k !in denied && (k == KeyOf(subkey) || |Text(subkey, k)| + 1 <= 260)
      ensures Reached(subkey).opens(k) <==> k !in locked && |Text(subkey, k)| + 2 <= 260
    {
      TextNames(subkey, k);
      hide KeyOf, TextLength;
    }

    /** As above, but each level copies the path; `subkey` is only read. It succeeds exactly
        when the rights and the lengths of all paths of the subtree allow it. */
    method DeleteRegKey(subkey: string) returns (ok: bool)
      requires Valid() && KeyOf(subkey) != [] && '\0' !in subkey
      modifies this`keys
      ensures Valid()
      ensures Deleted(Reached(subkey), old(keys), KeyOf(subkey), ok, keys)
      decreases AtOrBelow(keys, KeyOf(subkey)), 2
    {
      hide Deletable, Deleted, GoneDeletable, Within, Childless, KeyOf, Extra;
      ghost var g, start := Reached(subkey), keys;
      var here := KeyOf(subkey);
      ok := DeleteKey(here);
      if ok {
        LeafDeleted(g, start, here);
        return;
      }
      if here !in keys {
        AbsentDeleted(g, start, here);
        return true;
      }
      var len := |subkey|;
      if here in locked || len >= MAX_PATH - 1 {
        LockedStays(g, start, here);
        return false;
      }
      var keyPath := new char[MAX_PATH];
      StringCopy(keyPath, 0, subkey);
      assert keyPath[..len] == keyPath[0..0 + |subkey|];
      KeyNotEmpty(subkey);
      len := EndWithSlash(keyPath, len, subkey);
      var complete := DeleteSubkeys(keyPath, len, subkey, here);
      ghost var now := keys;
      WithinShrinks(start, here, now);
      ok := DeleteKey(here);
      NodeDeleted(g, start, here, complete, now, ok, keys);
    }

    /** The enumeration loop over the private buffer. */
    method DeleteSubkeys(keyPath: array<char>, len: nat, ghost subkey: string, here: Path) returns (complete: bool)
      requires Valid() && here == KeyOf(subkey) && here in keys && here != [] && '\0' !in subkey
      requires keyPath.Length == MAX_PATH && len == |WithSlash(subkey)| < MAX_PATH
      requires keyPath[..len] == WithSlash(subkey)
      modifies this`keys, keyPath
      ensures Valid()
      ensures Within(old(keys), here, keys)
      ensures complete ==> Childless(keys, here) && GoneDeletable(Reached(subkey), old(keys), here, keys)
      ensures !complete ==> !Childless(keys, here) && !Deletable(Reached(subkey), old(keys), here)
      decreases AtOrBelow(keys, here), 1
    {
      ghost var g, start := Reached(subkey), keys;
      hide Within, GoneDeletable, RestUntouched, Deletable, Deleted, KeyOf, WithSlash, Reached;
      NothingDone(g, start, here);
      while true
        invariant Valid() && keyPath[..len] == WithSlash(subkey)
        invariant Within(start, here, keys) && GoneDeletable(g, start, here, keys) && RestUntouched(start, here, keys)
        decreases keys
      {
        WithinShrinks(start, here, keys);
        if forall k :: k in keys && k != [] ==> Parent(k) != here {
          return true;
        }
        var child :| child in keys && child != [] && Parent(child) == here;
        ghost var before := keys;
        var deleted := DeleteSubkey(keyPath, len, subkey, here, child);
        ChildDeleted(g, start, here, before, child, deleted, keys);
        if !deleted { return false; }
      }
    }

    /** Enumerates one subkey into the buffer behind the path, if its name fits, and
        descends. */
    method DeleteSubkey(keyPath: array<char>, len: nat, ghost subkey: string, here: Path, child: Path)
      returns (deleted: bool)
      requires Valid() && here == KeyOf(subkey) && here in keys && '\0' !in subkey
      requires child in keys && child != [] && Parent(child) == here
      requires keyPath.Length == MAX_PATH && len == |WithSlash(subkey)| < MAX_PATH
      requires keyPath[..len] == WithSlash(subkey)
      modifies this`keys, keyPath
      ensures Valid() && keyPath[..len] == WithSlash(subkey)
      ensures Deleted(Reached(subkey), old(keys), child, deleted, keys)
      decreases AtOrBelow(keys, here), 0
    {
      hide Deletable, Deleted, KeyOf, Reached;
      var szName := child[|child| - 1];
      assert IsName(szName, '\\') && '\0' !in szName;
      KeyOfChild(subkey, szName);
      assert here + [szName] == child;
      if |szName| + 1 > MAX_PATH - len {
        TooLongStays(keys, subkey, child);
        return false;
      }
      ghost var t := WithSlash(subkey) + szName;
      StringCopy(keyPath, len, szName);
      assert keyPath[..len + |szName|] == t;
      SubtreeShrinks(keys, here, child);
      ghost var before := keys;
      deleted := DeleteRegKey(keyPath[..len + |szName|]);
      ReachedFromChild(before, subkey, child, deleted, keys);
    }

    /** Seen from a subkey, the rights below it are the same. */
    lemma ReachedFromChild(ks: set<Path>, subkey: string, child: Path, deleted: bool, now: set<Path>)
      requires child in ks && child != [] && Parent(child) == KeyOf(subkey) && IsName(child[|child| - 1], '\\')
      requires |WithSlash(subkey)| + |child[|child| - 1]| < MAX_PATH
      requires KeyOf(WithSlash(subkey) + child[|child| - 1]) == child
      requires Deleted(Reached(WithSlash(subkey) + child[|child| - 1]), ks, child, deleted, now)
      ensures Deleted(Reached(subkey), ks, child, deleted, now)
    {
      var n := child[|child| - 1];
      var t := WithSlash(subkey) + n;
      forall k | child <= k
        ensures Reached(t).deletes(k) == Reached(subkey).deletes(k) && Reached(t).opens(k) == Reached(subkey).opens(k)
      {
        TextLengthFromChild(subkey, child, k);
      }
      hide Reached, TextLength, KeyOf;
      SameRights(Reached(t), Reached(subkey), ks, child);
    }

    lemma SameRights(g: Rights, h: Rights, ks: set<Path>, p: Path)
      requires forall k :: p <= k ==> g.deletes(k) == h.deletes(k) && g.opens(k) == h.opens(k)
      ensures Deletable(g, ks, p) == Deletable(h, ks, p)
    {
      hide Childless;
    }

    lemma TextLengthFromChild(subkey: string, child: Path, k: Path)
      requires child != [] && Parent(child) == KeyOf(subkey) && IsName(child[|child| - 1], '\\') && child <= k
      requires KeyOf(WithSlash(subkey) + child[|child| - 1]) == child
      ensures KeyOf(subkey) < k
      ensures TextLength(WithSlash(subkey) + child[|child| - 1], k) == TextLength(subkey, k)
    {
      var p, n := KeyOf(subkey), child[|child| - 1];
      var t := WithSlash(subkey) + n;
      hide KeyOf;
      assert WithSlash(t) == t + "\\";
      assert k[|p|] == n;
      assert k[|p|..] == [n] + k[|child|..];
      assert k[|p|..][1..] == k[|child|..];
      if k == child {
        assert k[|p|..] == [n];
        assert Extra([n]) == |n| + 1;
      }
    }

    lemma TooLongStays(ks: set<Path>, subkey: string, child: Path)
      requires child in ks && child != [] && Parent(child) == KeyOf(subkey)
      requires |WithSlash(subkey)| + |child[|child| - 1]| >= MAX_PATH
      ensures Deleted(Reached(subkey), ks, child, false, ks)
    {
      var p := KeyOf(subkey);
      hide KeyOf;
      assert child[|p|..] == [child[|child| - 1]];
      assert Extra([child[|child| - 1]]) == |child[|child| - 1]| + 1;
      assert p < child;
      assert !Reached(subkey).deletes(child);
    }

    // ----- Lemmas -----

    lemma NothingDone(g: Rights, ks: set<Path>, p: Path)
      requires p in ks
      ensures Within(ks, p, ks) && GoneDeletable(g, ks, p, ks) && RestUntouched(ks, p, ks)
    {
    }

    lemma WithinShrinks(start: set<Path>, p: Path, now: set<Path>)
      requires Within(start, p, now)
      ensures p in now && now <= start && AtOrBelow(now, p) <= AtOrBelow(start, p)
    {
    }

    lemma FitsShrinks(ks: set<Path>, ls: set<Path>, s: string, length: int)
      requires Fits(ks, s, length) && ls <= ks
      ensures Fits(ls, s, length)
    {
    }

    lemma KeepsFront(buffer: array<char>, t: string, n: nat, front: string)
      requires n == |front| < |t| && t[..n] == front && t[|t| - 1] != '\\'
      requires Holds(buffer, t) || Holds(buffer, WithoutSlash(t))
      ensures n <= buffer.Length && buffer[..n] == front
    {
      assert WithoutSlash(t) == t;
      assert buffer[..n] == buffer[..|t|][..n];
    }

    lemma ChildFits(ks: set<Path>, s: string, c: Path, length: int)
      requires Fits(ks, s, length) && c in ks && c != [] && Parent(c) == KeyOf(s) && KeyOf(s) !in locked
      requires IsName(c[|c| - 1], '\\') && KeyOf(WithSlash(s) + c[|c| - 1]) == c
      ensures |WithSlash(s)| + |c[|c| - 1]| < length
      ensures Fits(ks, WithSlash(s) + c[|c| - 1], length)
    {
      var p, n := KeyOf(s), c[|c| - 1];
      var t := WithSlash(s) + n;
      hide KeyOf, Opened, Extra;
      forall k | k in ks && Visited(c, k)
        ensures TextLength(t, k) < length && (Opened(ks, k) ==> SlashedLength(t, k) < length)
      {
        VisitedFromChild(p, c, k);
        TextLengthFromChild(s, c, k);
        assert WithSlash(t) == t + "\\";
        hide WithSlash;
      }
      VisitedFromChild(p, c, c);
      TextLengthFromChild(s, c, c);
    }

    lemma VisitedFromChild(p: Path, c: Path, k: Path)
      requires c != [] && Parent(c) == p && p !in locked && Visited(c, k)
      ensures Visited(p, k)
    {
      assert k[..|c|] == c && k[..|p|] == p;
    }

    lemma LeafDeleted(g: Rights, ks: set<Path>, p: Path)
      requires IsTree(ks) && p in ks && g.deletes(p) && Childless(ks, p)
      ensures Deleted(g, ks, p, true, ks - {p})
    {
      ChildlessMeansNothingBelow(ks, p);
      forall k | k in ks && p <= k ensures k == p {
        assert !(p < k);
      }
      assert AtOrBelow(ks, p) == {p};
    }

    lemma AbsentDeleted(g: Rights, ks: set<Path>, p: Path)
      requires IsTree(ks) && p !in ks && p != []
      ensures Deleted(g, ks, p, true, ks)
    {
      forall k | k in ks ensures !(p <= k) {
        if p <= k { AncestorsIn(ks, k, p); }
      }
      assert AtOrBelow(ks, p) == {};
    }

    lemma LockedStays(g: Rights, ks: set<Path>, p: Path)
      requires p in ks && !g.opens(p) && (!g.deletes(p) || !Childless(ks, p))
      ensures Deleted(g, ks, p, false, ks)
    {
    }

    /** Whether a subtree can be deleted depends on that subtree alone. */
    lemma DeletableLocal(g: Rights, ks: set<Path>, ls: set<Path>, c: Path)
      requires forall k :: c <= k ==> (k in ks <==> k in ls)
      ensures Deletable(g, ks, c) <==> Deletable(g, ls, c)
    {
      forall k | c <= k ensures Childless(ks, k) <==> Childless(ls, k) {
        forall q | q != [] && Parent(q) == k ensures c <= q {}
      }
    }

    lemma ChildDeleted(g: Rights, start: set<Path>, p: Path, before: set<Path>, c: Path, deleted: bool, now: set<Path>)
      requires IsTree(start) && IsTree(before)
      requires Within(start, p, before) && GoneDeletable(g, start, p, before) && RestUntouched(start, p, before)
      requires c in before && c != [] && Parent(c) == p && Deleted(g, before, c, deleted, now)
      ensures Within(start, p, now)
      ensures deleted ==> now < before && GoneDeletable(g, start, p, now) && RestUntouched(start, p, now)
      ensures !deleted ==> !Childless(now, p) && !Deletable(g, start, p)
    {
      forall k | c <= k ensures k in start <==> k in before {
        assert p < k && ChildToward(p, k) == c;
      }
      DeletableLocal(g, start, before, c);
      hide Deletable;
      assert p < c;
      forall k | k in before && !(c <= k) ensures k in now { assert k !in AtOrBelow(before, c); }
      if deleted {
        forall k | k in now ensures !(c <= k) {
          assert k in before - AtOrBelow(before, c);
        }
        assert c in before && c !in now;
        forall k | k in start && p < k && ChildToward(p, k) in now ensures k in now {
          assert k in before;
          assert c <= k <==> ChildToward(p, k) == c;
        }
        forall d | d in start && d != [] && Parent(d) == p && d !in now ensures Deletable(g, start, d) {
          if d in before { assert c <= d; assert d == c; }
        }
      } else {
        UpperNotDeletable(g, start, p, c);
      }
    }

    lemma UpperNotDeletable(g: Rights, ks: set<Path>, p: Path, c: Path)
      requires p <= c && !Deletable(g, ks, c)
      ensures !Deletable(g, ks, p)
    {
    }

    lemma NodeDeleted(g: Rights, start: set<Path>, p: Path, complete: bool, now: set<Path>, ok: bool, after: set<Path>)
      requires IsTree(start) && IsTree(now) && Within(start, p, now) && g.opens(p)
      requires complete ==> Childless(now, p) && GoneDeletable(g, start, p, now)
      requires !complete ==> !Childless(now, p) && !Deletable(g, start, p)
      requires ok <==> g.deletes(p) && Childless(now, p)
      requires after == if ok then now - {p} else now
      ensures Deleted(g, start, p, ok, after)
    {
      if ok {
        ChildlessMeansNothingBelow(now, p);
        forall k | k in start && p <= k
          ensures k !in after && g.deletes(k) && (Childless(start, k) || g.opens(k))
        {
          if k != p {
            assert p < k;
            var c := ChildToward(p, k);
            AncestorsIn(start, k, c);
            assert p < c && c !in now;
            assert Deletable(g, start, c);
          }
        }
      }
    }
  }
}
