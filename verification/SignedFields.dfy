/** What the manifest signature binds. Both sides hash version, URLs, paths and signatures one
    after the other without separators: an accepted manifest is some splitting of a signed
    stream into fields, and its files are signed files, but which path they go to is not
    settled by the signature. */
module SignedFields {
  import opened Wrappers
  import opened Components
  import opened Bytes
  import opened ManifestPath
  import opened VersionNumber
  import opened Manifest
  import opened Base64
  import opened Signature
  import opened UpdateGenerator
  import opened UpdateDisk
  import opened UpdateTransaction
  import opened UpdateSweep
  import opened UpdateRuns
  import opened UpdateSafety
  import opened GeneratedUpdate

  // ----- What the key has signed -----

  ghost predicate CompleteContents(c: Contents, read: string -> Option<seq<byte>>) {
    |c.files| == |c.targets| && AllReadable(c, read)
  }

  /** The stream that the generator signs. */
  function StreamOf(c: Contents, read: string -> Option<seq<byte>>, sha: seq<byte> -> seq<byte>, decrypt: nat -> nat)
    : seq<byte>
    requires |c.files| == |c.targets| && AllReadable(c, read)
  {
    SignedStream(c.version, Entries(c, |c.files|, read, sha, decrypt))
  }

  ghost predicate IsFile(c: Contents, read: string -> Option<seq<byte>>, x: seq<byte>)
    requires AllReadable(c, read)
  {
    exists j :: 0 <= j < |c.files| && x == read(c.files[j]).value
  }

  /** The text holds the signature that the key makes of this digest. */
  predicate Carries(text: string, digest: seq<byte>, decrypt: nat -> nat) {
    |DecodeText(text)| >= SIGNATURE_LENGTH && DecodeText(text)[..SIGNATURE_LENGTH] == SignatureOf(digest, decrypt)
  }

  /** Nobody without the key has made this text: if it is accepted for anything, it carries
      the signature of some `signed` content. */
  ghost predicate Unforged(text: string, sha: seq<byte> -> seq<byte>, encrypt: nat -> nat, decrypt: nat -> nat,
                           signed: iset<seq<byte>>)
  {
    forall x: seq<byte> :: Accepts(text, sha(x), encrypt) ==> exists y :: y in signed && Carries(text, sha(y), decrypt)
  }

  lemma CarriedIsDigest(text: string, signed: seq<byte>, checked: seq<byte>,
                        encrypt: nat -> nat, decrypt: nat -> nat, modulus: nat)
    requires KeyPair(encrypt, decrypt, modulus) && |signed| == |checked| == DIGEST_LENGTH
    requires Carries(text, signed, decrypt) && Accepts(text, checked, encrypt)
    ensures checked == signed
  {
    hide DecodeText, SignatureOf;
    SignatureValue(signed, encrypt, decrypt, modulus);
    BigEndianBound(signed);
    BigEndianInjective(signed, checked);
  }

  /** A text that nobody forged is accepted for signed digests only. */
  lemma AcceptedIsSigned(text: string, x: seq<byte>, sha: seq<byte> -> seq<byte>,
                         encrypt: nat -> nat, decrypt: nat -> nat, modulus: nat, signed: iset<seq<byte>>)
    requires GoodKeys(sha, encrypt, decrypt, modulus)
    requires Unforged(text, sha, encrypt, decrypt, signed) && Accepts(text, sha(x), encrypt)
    ensures exists y :: y in signed && sha(y) == sha(x)
  {
    hide Accepts, Carries, KeyPair, BigEndian;
    var y :| y in signed && Carries(text, sha(y), decrypt);
    CarriedIsDigest(text, sha(y), sha(x), encrypt, decrypt, modulus);
  }

  // ----- What an accepted manifest can be -----

  function SignedFiles(c: Contents, read: string -> Option<seq<byte>>): iset<seq<byte>>
    requires AllReadable(c, read)
  {
    iset j | 0 <= j < |c.files| :: read(c.files[j]).value
  }

  /** The server cannot forge, and none of the contents involved collide under the hash. The
      signatures of the entries are cut from a signed content, which does not contain the
      signature of the stream. */
  ghost predicate Trusted(m: Manifest, c: Contents, read: string -> Option<seq<byte>>, sha: seq<byte> -> seq<byte>,
                          encrypt: nat -> nat, decrypt: nat -> nat)
    requires CompleteContents(c, read)
  {
    var signed := SignedFiles(c, read) + iset{StreamOf(c, read, sha, decrypt)};
    && Unforged(m.signature + "\0", sha, encrypt, decrypt, signed)
    && (forall y :: y in signed && sha(y) == sha(SignedStream(m.version, m.entries))
          ==> y == SignedStream(m.version, m.entries))
    && (forall i :: 0 <= i < |m.entries| ==>
          Unforged(m.entries[i].signature + "\0", sha, encrypt, decrypt, SignedFiles(c, read)))
  }

  /** The manifest is a splitting of the generator's stream, or of a file that was signed. */
  ghost predicate SplitsSigned(m: Manifest, c: Contents, read: string -> Option<seq<byte>>,
                               sha: seq<byte> -> seq<byte>, decrypt: nat -> nat)
    requires CompleteContents(c, read)
  {
    || SignedStream(m.version, m.entries) == StreamOf(c, read, sha, decrypt)
    || IsFile(c, read, SignedStream(m.version, m.entries))
  }

  lemma AcceptedSplitsSigned(m: Manifest, c: Contents, read: string -> Option<seq<byte>>, sha: seq<byte> -> seq<byte>,
                             encrypt: nat -> nat, decrypt: nat -> nat, modulus: nat)
    requires GoodKeys(sha, encrypt, decrypt, modulus) && CompleteContents(c, read)
    requires Trusted(m, c, read, sha, encrypt, decrypt)
    requires Accepts(m.signature + "\0", sha(SignedStream(m.version, m.entries)), encrypt)
    ensures SplitsSigned(m, c, read, sha, decrypt)
  {
    hide Accepts, Unforged, SignedStream, GoodKeys, StreamOf;
    var signed := SignedFiles(c, read) + iset{StreamOf(c, read, sha, decrypt)};
    var stream := SignedStream(m.version, m.entries);
    AcceptedIsSigned(m.signature + "\0", stream, sha, encrypt, decrypt, modulus, signed);
  }

  lemma VouchedIsFile(mc: Machine, m: Manifest, q: string, x: seq<byte>, c: Contents,
                      read: string -> Option<seq<byte>>, sha: seq<byte> -> seq<byte>,
                      encrypt: nat -> nat, decrypt: nat -> nat, modulus: nat)
    requires GoodKeys(sha, encrypt, decrypt, modulus) && CompleteContents(c, read)
    requires Trusted(m, c, read, sha, encrypt, decrypt) && mc.accepts == Checker(sha, encrypt)
    requires Vouched(mc, m, q, x)
    ensures exists j :: 0 <= j < |c.files| && sha(x) == sha(read(c.files[j]).value)
  {
    hide Accepts, Unforged, SignedStream, GoodKeys, StreamOf, Norm, NameOf;
    var i :| 0 <= i < |m.entries| && NameOf(mc, m.entries[i].path) == q && mc.accepts(x, m.entries[i].signature);
    AcceptedIsSigned(m.entries[i].signature + "\0", x, sha, encrypt, decrypt, modulus, SignedFiles(c, read));
  }

  /** Whatever text the server offers and whatever fails: each file that a run brings into the
      application folder has the digest of a file that the generator signed, and the
      manifest that listed it is a splitting of a signed content. The exception is a
      left-over backup, as in `OnlySignedFilesInstalled`. */
  lemma OnlyGeneratedFilesInstalled(mc: Machine, os: Os, d: Disk, text: string, m: Manifest, q: string, c: Contents,
                                    read: string -> Option<seq<byte>>, sha: seq<byte> -> seq<byte>,
                                    encrypt: nat -> nat, decrypt: nat -> nat, modulus: nat)
    requires GoodKeys(sha, encrypt, decrypt, modulus) && CompleteContents(c, read)
    requires mc.accepts == Checker(sha, encrypt)
    requires Parse(text) == Some(m) && SeparatePlaces(mc, m.entries) && Trusted(m, c, read, sha, encrypt, decrypt)
    ensures var x := At(CheckForUpdates(mc, os, Start(d), text).disk.app, q);
      || x == None || x == At(d.app, q) || (x == At(d.backup, q) && !os.reply(1).Works?)
      || (SplitsSigned(m, c, read, sha, decrypt)
          && exists j :: 0 <= j < |c.files| && sha(x.value) == sha(read(c.files[j]).value))
  {
    hide Accepts, SignedStream, GoodKeys, Norm, NameOf, Parse, CheckForUpdates, SeparatePlaces, Trusted, Vouched,
      ParseInt, SplitsSigned;
    OnlySignedFilesInstalled(mc, os, d, text, m, q);
    var x := At(CheckForUpdates(mc, os, Start(d), text).disk.app, q);
    if x.Some? && Vouched(mc, m, q, x.value) && mc.accepts(SignedStream(m.version, m.entries), m.signature) {
      VouchedIsFile(mc, m, q, x.value, c, read, sha, encrypt, decrypt, modulus);
      AcceptedSplitsSigned(m, c, read, sha, encrypt, decrypt, modulus);
    }
  }

  // ----- When the fields are the generator's own -----

  predicate ByteText(s: string) { forall i :: 0 <= i < |s| ==> s[i] as int < 256 }

  function Concat(fs: seq<string>): string { if fs == [] then "" else fs[0] + Concat(fs[1..]) }

  function EntryFields(es: seq<Entry>): seq<string> {
    if es == [] then [] else [es[0].url, es[0].path, es[0].signature] + EntryFields(es[1..])
  }

  /** The fields that are hashed, in order. */
  function Fields(version: string, es: seq<Entry>): seq<string> { [version] + EntryFields(es) }

  function Widths(fs: seq<string>): (w: seq<nat>)
    ensures |w| == |fs| && forall i :: 0 <= i < |w| ==> w[i] == |fs[i]|
  {
    seq(|fs|, i requires 0 <= i < |fs| => |fs[i]|)
  }

  lemma ConcatCons(f: string, fs: seq<string>)
    ensures Concat([f] + fs) == f + Concat(fs)
  {
    assert ([f] + fs)[1..] == fs;
  }

  lemma ConcatEntry(e: Entry, rest: seq<string>)
    ensures Concat([e.url, e.path, e.signature] + rest) == EntryText(e) + Concat(rest)
  {
    hide Concat;
    ConcatCons(e.signature, rest);
    ConcatCons(e.path, [e.signature] + rest);
    ConcatCons(e.url, [e.path] + ([e.signature] + rest));
    assert [e.url, e.path, e.signature] + rest == [e.url] + ([e.path] + ([e.signature] + rest));
    TextThen(e, Concat(rest));
  }

  lemma TextThen(e: Entry, t: string)
    ensures e.url + (e.path + (e.signature + t)) == EntryText(e) + t
  {
  }

  lemma ConcatNothing()
    ensures Concat([]) == ""
  {
  }

  lemma {:induction false} ConcatEntries(es: seq<Entry>)
    ensures Concat(EntryFields(es)) == EntryStream(es)
  {
    hide Concat, EntryText;
    if es != [] {
      ConcatEntries(es[1..]);
      ConcatEntry(es[0], EntryFields(es[1..]));
    } else {
      ConcatNothing();
    }
  }

  lemma StreamIsConcat(version: string, es: seq<Entry>)
    ensures SignedStream(version, es) == CharBytes(Concat(Fields(version, es)))
  {
    ConcatEntries(es);
    assert Fields(version, es)[1..] == EntryFields(es);
  }

  lemma {:induction false} FieldsOfLines(lines: seq<string>, es: seq<Entry>)
    requires ListsEntries(lines, es)
    ensures EntryFields(es) == lines
  {
    if es != [] {
      assert es[0] == Entry(lines[3 * 0], lines[1 + 3 * 0], lines[2 + 3 * 0]);
      forall i | 0 <= i < |es[1..]|
        ensures es[1..][i] == Entry(lines[3..][3 * i], lines[3..][1 + 3 * i], lines[3..][2 + 3 * i])
      {
        assert es[1..][i] == es[i + 1];
      }
      FieldsOfLines(lines[3..], es[1..]);
      assert lines == [lines[0], lines[1], lines[2]] + lines[3..];
    }
  }

  /** All lines of a manifest but its signature are hashed, one after the other, each
      character as one byte. */
  lemma HashedLines(lines: seq<string>, m: Manifest)
    requires Lists(lines, m) && ByteText(Concat([lines[0]] + lines[2..]))
    ensures var hashed, text := SignedStream(m.version, m.entries), Concat([lines[0]] + lines[2..]);
      |hashed| == |text| && forall i :: 0 <= i < |text| ==> hashed[i] == text[i] as int
  {
    ListsFromEntries(lines, m.entries);
    FieldsOfLines(lines[2..], m.entries);
    StreamIsConcat(m.version, m.entries);
    hide SignedStream, Concat, Lists, ListsEntries;
  }

  lemma SameBytesSameText(s: string, t: string)
    requires ByteText(s) && ByteText(t) && CharBytes(s) == CharBytes(t)
    ensures s == t
  {
    assert |s| == |CharBytes(s)| == |CharBytes(t)| == |t|;
    forall i | 0 <= i < |s| ensures s[i] == t[i] {
      assert CharBytes(s)[i] == CharBytes(t)[i];
      assert s[i] as int == t[i] as int;
    }
  }

  lemma {:induction false} SameWidthsSameFields(fs: seq<string>, gs: seq<string>)
    requires Concat(fs) == Concat(gs) && Widths(fs) == Widths(gs)
    ensures fs == gs
  {
    if fs != [] {
      assert |gs| == |Widths(gs)| == |fs| && |fs[0]| == Widths(fs)[0] == |gs[0]|;
      assert fs[0] == Concat(fs)[..|fs[0]|] && gs[0] == Concat(gs)[..|gs[0]|];
      assert Concat(fs[1..]) == Concat(fs)[|fs[0]|..] && Concat(gs[1..]) == Concat(gs)[|gs[0]|..];
      assert Widths(fs[1..]) == Widths(fs)[1..] && Widths(gs[1..]) == Widths(gs)[1..];
      SameWidthsSameFields(fs[1..], gs[1..]);
      assert fs == [fs[0]] + fs[1..] && gs == [gs[0]] + gs[1..];
    }
  }

  lemma {:induction false} SameEntryFields(es: seq<Entry>, fs: seq<Entry>)
    requires EntryFields(es) == EntryFields(fs)
    ensures es == fs
  {
    if es != [] {
      assert fs != [] by { assert |EntryFields(es)| > 0; }
      var a, b := EntryFields(es), EntryFields(fs);
      assert a[3..] == EntryFields(es[1..]) && b[3..] == EntryFields(fs[1..]);
      assert a[0] == b[0] && a[1] == b[1] && a[2] == b[2];
      SameEntryFields(es[1..], fs[1..]);
      assert es == [es[0]] + es[1..] && fs == [fs[0]] + fs[1..];
    } else {
      assert |EntryFields(fs)| == 0;
    }
  }

  /** Of two manifests with one signed stream, the fields are the same exactly when they have
      the same widths. */
  lemma OwnFieldsIff(version: string, es: seq<Entry>, other: string, fs: seq<Entry>)
    requires ByteText(Concat(Fields(version, es))) && ByteText(Concat(Fields(other, fs)))
    requires SignedStream(version, es) == SignedStream(other, fs)
    ensures version == other && es == fs <==> Widths(Fields(version, es)) == Widths(Fields(other, fs))
  {
    StreamIsConcat(version, es);
    StreamIsConcat(other, fs);
    hide SignedStream, CharBytes, Concat;
    SameBytesSameText(Concat(Fields(version, es)), Concat(Fields(other, fs)));
    if Widths(Fields(version, es)) == Widths(Fields(other, fs)) {
      var a, b := Fields(version, es), Fields(other, fs);
      SameWidthsSameFields(a, b);
      assert a[0] == version && b[0] == other && a[1..] == EntryFields(es) && b[1..] == EntryFields(fs);
      SameEntryFields(es, fs);
    }
  }

  // ----- Other readings of one stream -----

  /** The longest field that survives as a line. */
  const LONGEST_FIELD := LINE_BUFFER - 2

  /** The characters that are hashed. */
  function Hashed(version: string, es: seq<Entry>): string { version + EntryStream(es) }

  /** The characters that are hashed before the signature of entry `i`. */
  function Before(version: string, es: seq<Entry>, i: nat): string
    requires i < |es|
  {
    Hashed(version, es[..i]) + es[i].url + es[i].path
  }

  /** Signature `i` of one manifest starts where signature `j` of the other does, and with it. */
  predicate Meets(version: string, es: seq<Entry>, i: nat, own: string, fs: seq<Entry>, j: nat)
    requires i < |es| && j < |fs|
  {
    Before(version, es, i) == Before(own, fs, j) && fs[j].signature <= es[i].signature
  }

  ghost predicate MeetsOne(version: string, es: seq<Entry>, i: nat, own: string, fs: seq<Entry>)
    requires i < |es|
  {
    exists j :: 0 <= j < |fs| && Meets(version, es, i, own, fs, j)
  }

  /** Another way to cut the generator's stream into lines. Every signature line starts with
      one of the generator's signatures, at its place in the stream; what follows it on the
      line is ignored when the signature is checked. */
  ghost predicate Reading(version: string, es: seq<Entry>, own: string, fs: seq<Entry>) {
    && IsField(version) && AreEntries(es)
    && Hashed(version, es) == Hashed(own, fs)
    && forall i :: 0 <= i < |es| ==> MeetsOne(version, es, i, own, fs)
  }

  /** Entries as the generator makes them: their signatures are encodings of 512 bytes. */
  ghost predicate SignedEntries(fs: seq<Entry>) {
    && AreEntries(fs)
    && forall f :: f in fs ==> exists sig: seq<byte> :: |sig| == SIGNATURE_LENGTH && f.signature == Encode(sig)
  }

  ghost predicate AcceptedAlike(s: string, t: string, encrypt: nat -> nat) {
    forall digest: seq<byte> :: Accepts(s + "\0", digest, encrypt) <==> Accepts(t + "\0", digest, encrypt)
  }

  lemma FirstDecides(sig: seq<byte>, more: string, encrypt: nat -> nat)
    requires |sig| == SIGNATURE_LENGTH
    ensures AcceptedAlike(Encode(sig) + more, Encode(sig), encrypt)
  {
    hide Encode, Accepts;
    forall digest: seq<byte>
      ensures Accepts(Encode(sig) + more + "\0", digest, encrypt) <==> Accepts(Encode(sig) + "\0", digest, encrypt)
    {
      assert Encode(sig) + more + "\0" == Encode(sig) + (more + "\0");
      AcceptsFirst(sig, more + "\0", digest, encrypt);
      AcceptsFirst(sig, "\0", digest, encrypt);
    }
  }

  /** The updater takes every reading for the generator's own: the manifest signature is
      checked against the same stream, and each file signature is accepted for the same
      digests as one of the generator's. */
  lemma ReadingsAcceptedAlike(version: string, es: seq<Entry>, own: string, fs: seq<Entry>, encrypt: nat -> nat)
    requires Reading(version, es, own, fs) && SignedEntries(fs)
    ensures SignedStream(version, es) == SignedStream(own, fs)
    ensures forall i :: 0 <= i < |es| ==>
      exists j :: 0 <= j < |fs| && AcceptedAlike(es[i].signature, fs[j].signature, encrypt)
  {
    hide Encode, Before, AcceptedAlike, AreEntries, IsField;
    forall i | 0 <= i < |es|
      ensures exists j :: 0 <= j < |fs| && AcceptedAlike(es[i].signature, fs[j].signature, encrypt)
    {
      assert MeetsOne(version, es, i, own, fs);
      var j :| 0 <= j < |fs| && Meets(version, es, i, own, fs, j);
      assert fs[j] in fs;
      var sig: seq<byte> :| |sig| == SIGNATURE_LENGTH && fs[j].signature == Encode(sig);
      var more := es[i].signature[|Encode(sig)|..];
      assert es[i].signature == Encode(sig) + more;
      FirstDecides(sig, more, encrypt);
    }
  }

  // ----- Making readings -----

  lemma HashedAppend(version: string, front: seq<Entry>, rest: seq<Entry>)
    ensures Hashed(version, front + rest) == Hashed(version, front) + EntryStream(rest)
  {
    EntryStreamAppend(front, rest);
    hide EntryStream;
  }

  lemma HashedSnoc(version: string, front: seq<Entry>, e: Entry)
    ensures Hashed(version, front + [e]) == Hashed(version, front) + e.url + e.path + e.signature
    ensures Before(version, front + [e], |front|) == Hashed(version, front) + e.url + e.path
  {
    HashedAppend(version, front, [e]);
    EntryStreamOne(e);
    hide EntryStream, Hashed;
    assert Hashed(version, front) + EntryText(e) == Hashed(version, front) + e.url + e.path + e.signature;
    assert (front + [e])[..|front|] == front;
  }

  lemma HashedOne(version: string, e: Entry)
    ensures Hashed(version, [e]) == version + e.url + e.path + e.signature
    ensures Before(version, [e], 0) == version + e.url + e.path
  {
    assert Hashed(version, []) == version;
    HashedSnoc(version, [], e);
    hide Hashed, Before;
    assert [] + [e] == [e];
  }

  /** What comes after the first entries. */
  lemma BeforeRest(version: string, front: seq<Entry>, rest: seq<Entry>, i: nat)
    requires |front| <= i < |front| + |rest|
    ensures var k := i - |front|;
      Before(version, front + rest, i) == Before(Hashed(version, front), rest, k)
  {
    var k := i - |front|;
    assert (front + rest)[..i] == front + rest[..k] && (front + rest)[i] == rest[k];
    HashedAppend(version, front, rest[..k]);
  }

  lemma BeforeFront(version: string, front: seq<Entry>, rest: seq<Entry>, i: nat)
    requires i < |front|
    ensures Before(version, front + rest, i) == Before(version, front, i)
  {
    hide Hashed;
    assert (front + rest)[..i] == front[..i];
  }

  lemma MeetsSome(version: string, es: seq<Entry>, i: nat, own: string, fs: seq<Entry>, j: nat)
    requires i < |es| && j < |fs| && Meets(version, es, i, own, fs, j)
    ensures MeetsOne(version, es, i, own, fs)
  {
    hide Meets;
  }

  lemma MeetsGrown(version: string, es: seq<Entry>, i: nat, own: string, fs: seq<Entry>, j: nat, rest: seq<Entry>)
    requires i < |es| && j < |fs| && Meets(version, es, i, own, fs, j)
    ensures Meets(version, es + rest, i, own, fs + rest, j)
  {
    hide Before;
    BeforeFront(version, es, rest, i);
    BeforeFront(own, fs, rest, j);
  }

  /** More entries at the end do not matter. */
  lemma ReadingGrows(version: string, es: seq<Entry>, own: string, fs: seq<Entry>, rest: seq<Entry>)
    requires Reading(version, es, own, fs) && AreEntries(rest)
    ensures Reading(version, es + rest, own, fs + rest)
  {
    hide IsEntry, IsField, Hashed, EntryStream;
    HashedAppend(version, es, rest);
    HashedAppend(own, fs, rest);
    forall i | 0 <= i < |es + rest| ensures MeetsOne(version, es + rest, i, own, fs + rest) {
      if i < |es| {
        assert MeetsOne(version, es, i, own, fs);
        var j :| 0 <= j < |fs| && Meets(version, es, i, own, fs, j);
        MeetsGrown(version, es, i, own, fs, j, rest);
      } else {
        var j := i - |es| + |fs|;
        BeforeRest(version, es, rest, i);
        BeforeRest(own, fs, rest, j);
        hide Before;
        assert Meets(version, es + rest, i, own, fs + rest, j);
      }
    }
  }

  lemma MeetsItself(own: string, fs: seq<Entry>, i: nat)
    requires i < |fs|
    ensures Meets(own, fs, i, own, fs, i)
  {
    hide Before;
  }

  /** A manifest is a reading of itself. */
  lemma OwnReading(own: string, fs: seq<Entry>)
    requires IsField(own) && AreEntries(fs)
    ensures Reading(own, fs, own, fs)
  {
    hide IsField, IsEntry, Hashed, Meets;
    forall i | 0 <= i < |fs| ensures MeetsOne(own, fs, i, own, fs) { MeetsItself(own, fs, i); }
  }

  /** Moving the cut in front of a path, or in front of the first URL. */
  lemma CutMoved(version: string, own: string, front: seq<Entry>, e: Entry, f: Entry)
    requires version == own || front == []
    requires IsField(version) && AreEntries(front) && IsEntry(e) && e.signature == f.signature
    requires Hashed(version, front) + e.url + e.path == Hashed(own, front) + f.url + f.path
    ensures Reading(version, front + [e], own, front + [f])
  {
    hide IsField, Hashed;
    var es, fs := front + [e], front + [f];
    HashedSnoc(version, front, e);
    HashedSnoc(own, front, f);
    forall i | 0 <= i < |es| ensures MeetsOne(version, es, i, own, fs) {
      if i < |front| { assert es[..i] == front[..i] == fs[..i]; }
      assert Meets(version, es, i, own, fs, i);
    }
  }

  /** The first character of a URL goes to the signature line in front of it. */
  lemma SignatureGrows(own: string, f: Entry, g: Entry, e: Entry, h: Entry)
    requires IsField(own) && IsEntry(e) && IsEntry(h) && |g.url| > 0
    requires e == f.(signature := f.signature + g.url[..1]) && h == g.(url := g.url[1..])
    ensures Reading(own, [e] + [h], own, [f] + [g])
  {
    hide IsField, Hashed, Before;
    HashedOne(own, e);
    HashedOne(own, f);
    HashedSnoc(own, [e], h);
    HashedSnoc(own, [f], g);
    var x := own + f.url + f.path;
    assert x + e.signature + h.url == x + f.signature + g.url by { assert g.url == g.url[..1] + h.url; }
    BeforeFront(own, [e], [h], 0);
    BeforeFront(own, [f], [g], 0);
    assert ([e] + [h])[0] == e && ([f] + [g])[0] == f && f.signature <= e.signature;
    MeetsSome(own, [e] + [h], 0, own, [f] + [g], 0);
    MeetsSome(own, [e] + [h], 1, own, [f] + [g], 1);
  }

  /** A whole entry goes to the signature line in front of it. */
  lemma SignatureSwallows(own: string, f: Entry, g: Entry, e: Entry)
    requires IsField(own) && IsEntry(e) && e == f.(signature := f.signature + g.url + g.path + g.signature)
    ensures Reading(own, [e], own, [f] + [g])
  {
    hide IsField, Hashed, Before;
    HashedOne(own, e);
    HashedOne(own, f);
    HashedSnoc(own, [f], g);
    var x := own + f.url + f.path;
    assert x + e.signature == x + f.signature + g.url + g.path + g.signature;
    BeforeFront(own, [f], [g], 0);
    assert ([f] + [g])[0] == f && f.signature <= e.signature;
    MeetsSome(own, [e], 0, own, [f] + [g], 0);
  }

  /** The first entries go to the version line. */
  lemma VersionSwallows(own: string, fs: seq<Entry>, n: nat)
    requires n <= |fs| && AreEntries(fs) && IsField(Hashed(own, fs[..n]))
    ensures Reading(Hashed(own, fs[..n]), fs[n..], own, fs)
  {
    hide IsField, IsEntry;
    var version, front, es := Hashed(own, fs[..n]), fs[..n], fs[n..];
    assert fs == front + es;
    HashedAppend(own, front, es);
    forall i | 0 <= i < |es| ensures MeetsOne(version, es, i, own, fs) {
      BeforeRest(own, front, es, n + i);
      hide Before;
      assert Meets(version, es, i, own, fs, n + i);
    }
    hide Meets, Hashed;
  }

  // ----- When there is no other reading -----

  /** No character can move from one of two neighbouring fields to the other. */
  predicate Stuck(x: string, y: string) { |x| == |y| && |x| in {1, LONGEST_FIELD} }

  predicate Rigid(own: string, fs: seq<Entry>) {
    && (fs != [] ==> Stuck(own, fs[0].url))
    && forall i :: 0 <= i < |fs| ==> Stuck(fs[i].url, fs[i].path)
  }

  lemma MoveCut(x: string, y: string) returns (u: string, v: string)
    requires IsField(x) && IsField(y) && !Stuck(x, y)
    ensures IsField(u) && IsField(v) && u + v == x + y && u != x
  {
    if |x| >= 2 && |y| < LONGEST_FIELD {
      u, v := x[..|x| - 1], x[|x| - 1..] + y;
      assert x == u + x[|x| - 1..];
    } else {
      u, v := x + y[..1], y[1..];
      assert y == y[..1] + v;
    }
  }

  lemma StuckCut(x: string, y: string, u: string, v: string)
    requires Stuck(x, y) && IsField(u) && IsField(v) && u + v == x + y
    ensures u == x && v == y
  {
    assert |u| == |x|;
    assert (u + v)[..|x|] == u && (x + y)[..|x|] == x && (u + v)[|x|..] == v && (x + y)[|x|..] == y;
  }

  lemma StuckCuts(w: string, x: string, y: string, t: string, u: string, v: string)
    requires Stuck(w, x) && Stuck(x, y) && IsField(t) && IsField(u) && IsField(v) && t + u + v == w + x + y
    ensures t == w && u == x && v == y
  {
    assert |t| == |u| == |v| == |w|;
    assert (t + u + v)[..|w|] == t && (w + x + y)[..|w|] == w;
    assert (t + u + v)[|w|..] == u + v && (w + x + y)[|w|..] == x + y;
    StuckCut(x, y, u, v);
  }

  lemma BeforesGrow(version: string, es: seq<Entry>)
    requires |es| > 1 && es[0].signature != ""
    ensures |Before(version, es, 0)| < |Before(version, es, 1)|
  {
    HashedOne(version, es[0]);
    assert es[..1] == [es[0]] && es[..0] == [];
    hide EntryStream;
  }

  /** A rigid manifest of one entry leaves no choice. */
  lemma RigidHasOneReading(version: string, es: seq<Entry>, own: string, f: Entry)
    requires Rigid(own, [f]) && es != [] && Reading(version, es, own, [f])
    ensures version == own && es == [f]
  {
    var e := es[0];
    assert e in es && IsEntry(e);
    assert MeetsOne(version, es, 0, own, [f]);
    assert Meets(version, es, 0, own, [f], 0);
    if |es| > 1 {
      assert MeetsOne(version, es, 1, own, [f]);
      assert Meets(version, es, 1, own, [f], 0);
      BeforesGrow(version, es);
    }
    assert es == [e];
    HashedOne(version, e);
    HashedOne(own, f);
    hide IsField, Stuck, Hashed, Before;
    StuckCuts(own, f.url, f.path, version, e.url, e.path);
    SameTail(own + f.url + f.path, e.signature, f.signature);
  }

  lemma SameTail(x: string, s: string, t: string)
    requires x + s == x + t
    ensures s == t
  {
    assert (x + s)[|x|..] == s && (x + t)[|x|..] == t;
  }

  lemma SplitAt(fs: seq<Entry>, i: nat)
    requires i < |fs|
    ensures fs == fs[..i] + [fs[i]] + fs[i + 1..]
  {
  }

  lemma OtherCut(own: string, fs: seq<Entry>, i: nat) returns (es: seq<Entry>)
    requires IsField(own) && AreEntries(fs) && i < |fs| && !Stuck(fs[i].url, fs[i].path)
    ensures Reading(own, es, own, fs) && es != [] && es != fs
  {
    var f := fs[i];
    assert f in fs && IsEntry(f);
    hide IsField, Stuck, Hashed, Reading;
    var u, v := MoveCut(f.url, f.path);
    var e, front, rest := f.(url := u, path := v), fs[..i], fs[i + 1..];
    SplitAt(fs, i);
    assert Hashed(own, front) + u + v == Hashed(own, front) + f.url + f.path by {
      assert Hashed(own, front) + u + v == Hashed(own, front) + (u + v);
      assert Hashed(own, front) + f.url + f.path == Hashed(own, front) + (f.url + f.path);
    }
    CutMoved(own, own, front, e, f);
    ReadingGrows(own, front + [e], own, front + [f], rest);
    es := front + [e] + rest;
    assert es[i] == e;
  }

  lemma OtherVersion(own: string, fs: seq<Entry>) returns (version: string, es: seq<Entry>)
    requires IsField(own) && AreEntries(fs) && fs != [] && !Stuck(own, fs[0].url)
    ensures Reading(version, es, own, fs) && es != [] && version != own
  {
    var f := fs[0];
    assert f in fs && IsEntry(f);
    var u: string;
    version, u := MoveCut(own, f.url);
    var e, rest := f.(url := u), fs[1..];
    assert Hashed(version, []) == version && Hashed(own, []) == own;
    hide IsField, Stuck, Hashed, Reading;
    CutMoved(version, own, [], e, f);
    assert [] + [e] == [e] && [] + [f] == [f];
    ReadingGrows(version, [e], own, [f], rest);
    es := [e] + rest;
    assert fs == [f] + rest;
  }

  lemma FewerSignatures(own: string, fs: seq<Entry>) returns (es: seq<Entry>)
    requires IsField(own) && AreEntries(fs) && |fs| > 1 && Stuck(fs[1].url, fs[1].path)
    requires |fs[0].signature| == |fs[1].signature| == EncodedLength(SIGNATURE_LENGTH)
    ensures Reading(own, es, own, fs) && es != [] && es != fs
  {
    var f, g, rest := fs[0], fs[1], fs[2..];
    assert f in fs && g in fs && IsEntry(f) && IsEntry(g);
    assert fs == [f] + [g] + rest;
    if |g.url| == 1 {
      var e := f.(signature := f.signature + g.url + g.path + g.signature);
      assert IsEntry(e);
      hide IsField, Stuck, Reading;
      SignatureSwallows(own, f, g, e);
      ReadingGrows(own, [e], own, [f] + [g], rest);
      es := [e] + rest;
    } else {
      var e, h := f.(signature := f.signature + g.url[..1]), g.(url := g.url[1..]);
      assert IsEntry(e) && IsEntry(h);
      hide IsField, Stuck, Reading;
      SignatureGrows(own, f, g, e, h);
      ReadingGrows(own, [e] + [h], own, [f] + [g], rest);
      es := [e] + [h] + rest;
      assert |es[0].signature| == |fs[0].signature| + 1;
    }
  }

  lemma AnotherReading(own: string, fs: seq<Entry>) returns (version: string, es: seq<Entry>)
    requires IsField(own) && SignedEntries(fs) && !(Rigid(own, fs) && |fs| <= 1)
    ensures Reading(version, es, own, fs) && es != [] && (version != own || es != fs)
  {
    hide IsField, Stuck, Reading, Encode;
    version := own;
    if Rigid(own, fs) {
      assert fs[0] in fs && fs[1] in fs;
      SignedWidth(fs, fs[0]);
      SignedWidth(fs, fs[1]);
      es := FewerSignatures(own, fs);
    } else if !Stuck(own, fs[0].url) {
      version, es := OtherVersion(own, fs);
    } else {
      var i :| 0 <= i < |fs| && !Stuck(fs[i].url, fs[i].path);
      es := OtherCut(own, fs, i);
    }
  }

  lemma SignedWidth(fs: seq<Entry>, f: Entry)
    requires SignedEntries(fs) && f in fs
    ensures |f.signature| == EncodedLength(SIGNATURE_LENGTH)
  {
    var sig: seq<byte> :| |sig| == SIGNATURE_LENGTH && f.signature == Encode(sig);
    SextetsLength(sig);
    hide Sextets;
  }

  /** The generator's own fields are the only reading with an entry exactly when there is at
      most one entry, and version, URL and path all have one character, or all the length of
      a line. */
  lemma FieldsBoundIff(own: string, fs: seq<Entry>)
    requires IsField(own) && SignedEntries(fs)
    ensures Reading(own, fs, own, fs)
    ensures (forall version: string, es: seq<Entry> :: es != [] && Reading(version, es, own, fs) ==>
               version == own && es == fs)
            <==> Rigid(own, fs) && |fs| <= 1
  {
    OwnReading(own, fs);
    hide IsField, SignedEntries, Reading, Rigid;
    if Rigid(own, fs) && |fs| <= 1 {
      forall version: string, es: seq<Entry> | es != [] && Reading(version, es, own, fs)
        ensures version == own && es == fs
      {
        HasEntry(version, es, own, fs);
        assert fs == [fs[0]];
        RigidHasOneReading(version, es, own, fs[0]);
      }
    } else {
      var version, es := AnotherReading(own, fs);
    }
  }

  lemma HasEntry(version: string, es: seq<Entry>, own: string, fs: seq<Entry>)
    requires es != [] && Reading(version, es, own, fs)
    ensures fs != []
  {
    hide Meets, Hashed;
    assert MeetsOne(version, es, 0, own, fs);
  }

  // ----- A signed file at a path nobody signed it for -----

  /** One file "b" at "a" + "b" for the target "c", as version 12. */
  const ONE_FILE := Contents(["b"], ["c"], [UNKNOWN_HASH], "12", "a")

  /** The same stream read as version 1 with the file at "2a" for the target "bc". */
  function OtherReading(m: Manifest): Manifest
    requires |m.entries| == 1
  {
    Manifest("1", m.signature, [Entry("2a", "bc", m.entries[0].signature)])
  }

  lemma OtherReadingStream(signature: string)
    ensures SignedStream("12", [Entry("ab", "c", signature)]) == SignedStream("1", [Entry("2a", "bc", signature)])
  {
    var e, f := Entry("ab", "c", signature), Entry("2a", "bc", signature);
    assert [e][1..] == [] && [f][1..] == [];
    assert EntryStream([e]) == EntryText(e) + "" && EntryStream([f]) == EntryText(f) + "";
    assert "12" + (EntryText(e) + "") == "12abc" + signature;
    assert "1" + (EntryText(f) + "") == "12abc" + signature;
  }

  lemma OneDigit()
    ensures ParseInt("1") == 1
  {
    assert LeadingDigits("1", 0) == LeadingDigits("", 1) by { assert "1"[1..] == ""; }
  }

  lemma PlainPlace(mc: Machine)
    ensures NameOf(mc, "bc") == "bc" && StaysInside("bc")
  {
    var ns := ["bc"];
    assert AreNames(ns, '/') && Plain(ns) && Join(ns, '/') == "bc";
    assert IsFilePath("bc");
    FilePathNormalIff("bc");
    SplitName("bc", '/');
    assert Slashes("bc") == "bc" && Names("bc") == ns;
    assert Lower("bc") == "bc";
    hide Split, Norm;
    assert ns[1..] == [];
  }

  /** What the updater makes of the other reading. */
  lemma OtherReadingIsUpdate(mc: Machine, read: string -> Option<seq<byte>>, sha: seq<byte> -> seq<byte>,
                             encrypt: nat -> nat, decrypt: nat -> nat, modulus: nat, d: Disk, os: Os)
    requires GoodKeys(sha, encrypt, decrypt, modulus) && mc.accepts == Checker(sha, encrypt)
    requires read("b").Some? && Healthy(os, 0) && os.served("2a") == read("b").value
    requires d.version == Some(0) && "bc" !in d.app
    ensures AllReadable(ONE_FILE, read)
    ensures var m := OtherReading(ManifestOf(ONE_FILE, read, sha, decrypt));
      && Parse(Print(m)) == Some(m) && SeparatePlaces(mc, m.entries) && HealthyRun(mc, os, m) && IsUpdate(mc, d, m)
  {
    hide Accepts, KeyPair, Parse, Print, SignedStream, BigEndian, Encode, SignatureOf, Decimal, ParseInt, Key, Norm,
      NameOf, IsField;
    var own := ManifestOf(ONE_FILE, read, sha, decrypt);
    var m, e := OtherReading(own), own.entries[0];
    assert own.entries == [Entry("ab", "c", e.signature)] by { assert "a" + "b" == "ab"; }
    OtherReadingStream(e.signature);
    SignedTextAccepted(sha(SignedStream("12", own.entries)), sha(SignedStream(m.version, m.entries)), "\0",
                       encrypt, decrypt, modulus);
    FileAcceptedIff(ONE_FILE, read, sha, encrypt, decrypt, modulus, 0, read("b").value);
    SignatureIsField(sha(SignedStream(ONE_FILE.version, own.entries)), decrypt);
    SignatureIsField(sha(read("b").value), decrypt);
    OtherReadingPrints(own);
    PlainPlace(mc);
    OneDigit();
    OneMissing(mc, d, m);
  }

  lemma SignatureIsField(digest: seq<byte>, decrypt: nat -> nat)
    ensures IsField(Encode(SignatureOf(digest, decrypt)))
  {
    SignatureWidth(digest, decrypt);
    EncodedIsField(SignatureOf(digest, decrypt));
    hide Encode, SignatureOf, IsField;
  }

  lemma OtherReadingPrints(own: Manifest)
    requires |own.entries| == 1 && IsField(own.signature) && IsField(own.entries[0].signature)
    ensures var m := OtherReading(own); Parse(Print(m)) == Some(m)
  {
    hide Parse, Print;
    var m := OtherReading(own);
    assert IsEntry(m.entries[0]);
    ParsePrint(m);
  }

  lemma OneMissing(mc: Machine, d: Disk, m: Manifest)
    requires |m.entries| == 1 && NameOf(mc, m.entries[0].path) !in d.app
    ensures Pending(mc, d.app, m.entries) != []
  {
    PendingHas(mc, d.app, m.entries, 0);
    hide Pending, Norm, NameOf;
  }

  /** A server without the key can have the signed file installed under a path, and sealed
      with a version number, that the generator never put together. */
  lemma InstalledElsewhere(mc: Machine, read: string -> Option<seq<byte>>, sha: seq<byte> -> seq<byte>,
                           encrypt: nat -> nat, decrypt: nat -> nat, modulus: nat, d: Disk, os: Os)
    requires GoodKeys(sha, encrypt, decrypt, modulus) && mc.accepts == Checker(sha, encrypt)
    requires read("b").Some? && Healthy(os, 0) && os.served("2a") == read("b").value
    requires d.version == Some(0) && "bc" !in d.app
    ensures AllReadable(ONE_FILE, read)
    ensures var m := OtherReading(ManifestOf(ONE_FILE, read, sha, decrypt));
      var e := CheckForUpdates(mc, os, Start(d), Print(m)).disk;
      "bc" in e.app && sha(e.app["bc"]) == sha(read("b").value) && e.version == Some(1)
  {
    hide Accepts, KeyPair, Parse, Print, SignedStream, BigEndian, Encode, SignatureOf, Decimal, ParseInt, Key, Norm,
      NameOf, CheckForUpdates, SeparatePlaces, HealthyRun, IsUpdate;
    OtherReadingIsUpdate(mc, read, sha, encrypt, decrypt, modulus, d, os);
    var own := ManifestOf(ONE_FILE, read, sha, decrypt);
    var m := OtherReading(own);
    HealthyRunInstalls(mc, os, d, Print(m), m);
    PlainPlace(mc);
    OneDigit();
    var app := CheckForUpdates(mc, os, Start(d), Print(m)).disk.app;
    assert Installed(mc, app, m.entries[0]);
    FileAcceptedIff(ONE_FILE, read, sha, encrypt, decrypt, modulus, 0, app["bc"]);
  }

  // ----- Entries that are never installed -----

  /** The manifest with its first `n` entries made part of the version line. */
  function Swallowed(m: Manifest, n: nat): Manifest
    requires n <= |m.entries|
  {
    Manifest(Hashed(m.version, m.entries[..n]), m.signature, m.entries[n..])
  }

  lemma SameNumber(version: string, es: seq<Entry>)
    requires CanonicalDecimal(version) && es != [] && es[0].url != "" && !IsDigit(es[0].url[0])
    ensures ParseInt(Hashed(version, es)) == ParseInt(version)
  {
    var rest := EntryStream(es);
    assert rest[0] == es[0].url[0];
    hide EntryStream, Decimal;
    ParsePrintedThen(ParseInt(version), rest);
  }

  /** Every run on the shortened manifest goes as one on the manifest itself, as far as it
      is accepted, served and read. */
  lemma SwallowedIsGood(mc: Machine, os: Os, m: Manifest, n: nat)
    requires IsPrintable(m) && n <= |m.entries| && IsField(Hashed(m.version, m.entries[..n]))
    requires SeparatePlaces(mc, m.entries) && HealthyRun(mc, os, m)
    requires mc.accepts(SignedStream(m.version, m.entries), m.signature)
    ensures var w := Swallowed(m, n);
      && Parse(Print(w)) == Some(w) && SeparatePlaces(mc, w.entries) && HealthyRun(mc, os, w)
      && mc.accepts(SignedStream(w.version, w.entries), w.signature)
  {
    hide IsEntry, IsField, Parse, Print, Hashed, Key, StaysInside, Healthy;
    var w := Swallowed(m, n);
    VersionSwallows(m.version, m.entries, n);
    ParsePrint(w);
    SameStream(w.version, w.entries, m.version, m.entries);
    hide SignedStream;
  }

  lemma SameStream(version: string, es: seq<Entry>, own: string, fs: seq<Entry>)
    requires Reading(version, es, own, fs)
    ensures SignedStream(version, es) == SignedStream(own, fs)
  {
  }

  /** A file that the manifest does not list is not installed by a run that can remove the
      old backups. */
  lemma UnlistedStaysOut(mc: Machine, os: Os, d: Disk, text: string, m: Manifest, f: Entry)
    requires Parse(text) == Some(m) && SeparatePlaces(mc, m.entries) && os.reply(1).Works?
    requires forall i :: 0 <= i < |m.entries| ==> NameOf(mc, m.entries[i].path) != NameOf(mc, f.path)
    requires !Installed(mc, d.app, f)
    ensures !Installed(mc, CheckForUpdates(mc, os, Start(d), text).disk.app, f)
  {
    OnlySignedFilesInstalled(mc, os, d, text, m, NameOf(mc, f.path));
    hide CheckForUpdates, SeparatePlaces, Parse, NameOf, SignedStream, ParseInt;
  }

  /** A run is over at once when the version is not older than the manifest. */
  lemma SealedStopsRuns(mc: Machine, os: Os, d: Disk, text: string, m: Manifest)
    requires Parse(text) == Some(m) && d.version.Some? && d.version.value >= ParseInt(m.version)
    ensures CheckForUpdates(mc, os, Start(d), text).disk == d
  {
    hide Parse, ParseInt, ApplyManifest, Pending, SignedStream;
  }

  /** A server without the key can drop the first entries of the generator's manifest: as
      part of the version line they do not change the number, if the first URL does not
      start with a digit. One healthy run then seals the generator's own version, although
      the dropped files are not installed, and no later run on the generator's manifest
      changes anything. */
  lemma EntriesDropped(mc: Machine, c: Contents, read: string -> Option<seq<byte>>, sha: seq<byte> -> seq<byte>,
                       encrypt: nat -> nat, decrypt: nat -> nat, modulus: nat, d: Disk, os: Os, n: nat)
    requires GoodKeys(sha, encrypt, decrypt, modulus) && mc.accepts == Checker(sha, encrypt)
    requires Publishable(mc, c, read) && Healthy(os, 0) && Serves(os, c, read)
    requires 0 < n <= |c.files| && !IsDigit((c.baseUrl + c.files[0])[0])
    requires IsField(Hashed(c.version, ManifestOf(c, read, sha, decrypt).entries[..n]))
    requires Readable(d.version) && d.version.value < ParseInt(c.version)
    requires !AllInstalled(mc, d.app, ManifestOf(c, read, sha, decrypt).entries[n..])
    ensures var own := ManifestOf(c, read, sha, decrypt);
      var e := CheckForUpdates(mc, os, Start(d), Print(Swallowed(own, n))).disk;
      && e.version == Some(ParseInt(c.version)) && AllInstalled(mc, e.app, own.entries[n..])
      && (forall i :: 0 <= i < n && !Installed(mc, d.app, own.entries[i]) ==> !Installed(mc, e.app, own.entries[i]))
      && forall later: Os :: CheckForUpdates(mc, later, Start(e), Print(own)).disk == e
  {
    hide Accepts, KeyPair, BigEndian, Encode, SignatureOf, Decimal, ParseInt, Key, StaysInside, Hashed, SignedStream,
      SeparatePlaces, HealthyRun, Parse, Print, IsField, CheckForUpdates, NameOf, Installed, AllInstalled, IsPrintable;
    var own := ManifestOf(c, read, sha, decrypt);
    PublishedManifest(mc, c, read, sha, encrypt, decrypt, modulus, os);
    ManifestIsPrintable(c, read, sha, decrypt);
    SwallowedIsGood(mc, os, own, n);
    var w := Swallowed(own, n);
    assert own.entries[..n][0].url == c.baseUrl + c.files[0];
    FieldNotEmpty(c.baseUrl + c.files[0]);
    SameNumber(c.version, own.entries[..n]);
    PendingIs(mc, d.app, w.entries);
    HealthyRunInstalls(mc, os, d, Print(w), w);
    var e := CheckForUpdates(mc, os, Start(d), Print(w)).disk;
    forall i | 0 <= i < n && !Installed(mc, d.app, own.entries[i]) ensures !Installed(mc, e.app, own.entries[i]) {
      DistinctNames(mc, own.entries, n, i);
      UnlistedStaysOut(mc, os, d, Print(w), w, own.entries[i]);
    }
    forall later: Os ensures CheckForUpdates(mc, later, Start(e), Print(own)).disk == e {
      SealedStopsRuns(mc, later, e, Print(own), own);
    }
  }

  lemma DistinctNames(mc: Machine, es: seq<Entry>, n: nat, i: nat)
    requires SeparatePlaces(mc, es) && i < n <= |es|
    ensures forall k :: 0 <= k < |es[n..]| ==> NameOf(mc, es[n..][k].path) != NameOf(mc, es[i].path)
  {
    DistinctPlaces(mc, es);
    hide SeparatePlaces, NameOf;
    forall k | 0 <= k < |es[n..]| ensures NameOf(mc, es[n..][k].path) != NameOf(mc, es[i].path) {
      assert NormalPaths(mc, es)[i] != NormalPaths(mc, es)[n + k];
    }
  }
}
