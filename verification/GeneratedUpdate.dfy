/** From the generator's contents list to the installed files. */
module GeneratedUpdate {
  import opened Wrappers
  import opened Bytes
  import opened ManifestPath
  import opened VersionNumber
  import opened Manifest
  import opened Base64
  import opened Signature
  import opened UpdateGenerator
  import opened UpdateDisk
  import opened UpdateSweep
  import opened UpdateRuns
  import opened UpdateSuccession

  /** The updater's check of a file or stream against a signature text. */
  function Checker(sha: seq<byte> -> seq<byte>, encrypt: nat -> nat): (seq<byte>, string) -> bool {
    (content, signature) => Accepts(signature + "\0", sha(content), encrypt)
  }

  ghost predicate GoodKeys(sha: seq<byte> -> seq<byte>, encrypt: nat -> nat, decrypt: nat -> nat, modulus: nat) {
    && KeyPair(encrypt, decrypt, modulus)
    && forall x :: |sha(x)| == DIGEST_LENGTH && BigEndian(sha(x)) != 0
  }

  /** The check compares digests: what one signature accepts, all treat alike. */
  lemma CheckerByDigest(mc: Machine, sha: seq<byte> -> seq<byte>, encrypt: nat -> nat)
    requires mc.accepts == Checker(sha, encrypt)
    ensures ByDigest(mc)
  {
    hide DecodeText, BigEndian;
    forall x: Content, y: Content, s: string, t: string | mc.accepts(x, s) && mc.accepts(y, s) && mc.accepts(x, t)
      ensures mc.accepts(y, t)
    {
      assert BigEndian(sha(x)) == BigEndian(sha(y));
    }
  }

  /** The generator's inputs that the updater can read back, with one target per file, none
      of them outside the folder. */
  ghost predicate Publishable(mc: Machine, c: Contents, read: string -> Option<seq<byte>>) {
    && PrintableNames(c) && AllReadable(c, read) && CanonicalDecimal(c.version)
    && (forall i :: 0 <= i < |c.targets| ==> StaysInside(c.targets[i]))
    && forall i, j :: 0 <= i < j < |c.targets| ==> mc.PathKey(c.targets[i]) != mc.PathKey(c.targets[j])
  }

  /** The server has every signed file under its URL. */
  ghost predicate Serves(os: Os, c: Contents, read: string -> Option<seq<byte>>)
    requires AllReadable(c, read)
  {
    forall i :: 0 <= i < |c.files| ==> os.served(c.baseUrl + c.files[i]) == read(c.files[i]).value
  }

  lemma PublishedManifest(mc: Machine, c: Contents, read: string -> Option<seq<byte>>,
                          sha: seq<byte> -> seq<byte>, encrypt: nat -> nat, decrypt: nat -> nat, modulus: nat, os: Os)
    requires GoodKeys(sha, encrypt, decrypt, modulus) && Publishable(mc, c, read) && Serves(os, c, read)
    requires mc.accepts == Checker(sha, encrypt) && Healthy(os, 0)
    ensures var m := ManifestOf(c, read, sha, decrypt);
      && Parse(Print(m)) == Some(m) && m.version == c.version
      && SeparatePlaces(mc, m.entries) && HealthyRun(mc, os, m)
      && mc.accepts(SignedStream(m.version, m.entries), m.signature)
  {
    hide Accepts, KeyPair, Parse, Print, SignedStream, BigEndian, Encode, SignatureOf, Decimal, ParseInt, Key,
      StaysInside, SeparatePlaces;
    var m := ManifestOf(c, read, sha, decrypt);
    ManifestReadBack(c, read, sha, decrypt);
    ManifestAcceptedIff(c, read, sha, encrypt, decrypt, modulus);
    PublishedPlaces(mc, c, m.entries);
    forall i | 0 <= i < |m.entries|
      ensures mc.accepts(os.served(m.entries[i].url), m.entries[i].signature)
    {
      FileAcceptedIff(c, read, sha, encrypt, decrypt, modulus, i, read(c.files[i]).value);
    }
  }

  lemma PublishedPlaces(mc: Machine, c: Contents, es: seq<Entry>)
    requires |es| == |c.targets| && forall i :: 0 <= i < |es| ==> es[i].path == c.targets[i]
    requires forall i :: 0 <= i < |c.targets| ==> StaysInside(c.targets[i])
    requires forall i, j :: 0 <= i < j < |c.targets| ==> mc.PathKey(c.targets[i]) != mc.PathKey(c.targets[j])
    ensures SeparatePlaces(mc, es)
  {
    hide Key, StaysInside;
  }

  lemma InstalledFile(mc: Machine, c: Contents, read: string -> Option<seq<byte>>,
                      sha: seq<byte> -> seq<byte>, encrypt: nat -> nat, decrypt: nat -> nat, modulus: nat,
                      app: Files, i: nat)
    requires GoodKeys(sha, encrypt, decrypt, modulus) && PrintableNames(c) && AllReadable(c, read)
    requires mc.accepts == Checker(sha, encrypt) && i < |c.files|
    requires Installed(mc, app, ManifestOf(c, read, sha, decrypt).entries[i])
    ensures NameOf(mc, c.targets[i]) in app && sha(app[NameOf(mc, c.targets[i])]) == sha(read(c.files[i]).value)
  {
    hide Accepts, KeyPair, SignedStream, BigEndian, Encode, SignatureOf, Decimal, ParseInt, Norm, NameOf;
    FileAcceptedIff(c, read, sha, encrypt, decrypt, modulus, i, app[NameOf(mc, c.targets[i])]);
  }

  /** A manifest that the generator prints takes any older installation, after any number
      of broken or killed runs and then one healthy run, to the files that were signed:
      under every target path lies a file with the digest of the generator's file. */
  lemma GeneratedUpdateInstalls(mc: Machine, c: Contents, read: string -> Option<seq<byte>>,
                                sha: seq<byte> -> seq<byte>, encrypt: nat -> nat, decrypt: nat -> nat, modulus: nat,
                                d: Disk, oldVersion: int, runs: seq<Os>, last: Os)
    requires GoodKeys(sha, encrypt, decrypt, modulus) && Publishable(mc, c, read)
    requires mc.accepts == Checker(sha, encrypt)
    requires d.version == Some(oldVersion) && oldVersion != -1 && oldVersion < ParseInt(c.version)
    requires Healthy(last, 0) && Serves(last, c, read)
    ensures var text := Print(ManifestOf(c, read, sha, decrypt));
      var app := Runs(mc, text, d, runs + [last]).app;
      forall i :: 0 <= i < |c.files| ==>
        NameOf(mc, c.targets[i]) in app && sha(app[NameOf(mc, c.targets[i])]) == sha(read(c.files[i]).value)
  {
    var m := ManifestOf(c, read, sha, decrypt);
    PublishedManifest(mc, c, read, sha, encrypt, decrypt, modulus, last);
    hide Accepts, KeyPair, Parse, Print, SignedStream, BigEndian, Encode, SignatureOf, Decimal, ParseInt, Key,
      Norm, NameOf, Runs, SeparatePlaces, HealthyRun;
    CrashConvergence(mc, Print(m), m, d, oldVersion, runs, last);
    var app := Runs(mc, Print(m), d, runs + [last]).app;
    forall i | 0 <= i < |c.files|
      ensures NameOf(mc, c.targets[i]) in app && sha(app[NameOf(mc, c.targets[i])]) == sha(read(c.files[i]).value)
    {
      InstalledFile(mc, c, read, sha, encrypt, decrypt, modulus, app, i);
    }
  }
}
