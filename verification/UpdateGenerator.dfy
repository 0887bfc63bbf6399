/** The manifest generator: it reads a contents list, signs every file, and prints and
    signs the manifest that the updater reads. */
module UpdateGenerator {
  import opened Wrappers
  import opened Bytes
  import opened Base64
  import opened Signature
  import opened VersionNumber
  import opened Manifest

  // ----- The contents list -----

  const UNKNOWN_HASH := "UNKNOWN"

  datatype Contents = Contents(files: seq<string>, targets: seq<string>, hashes: seq<string>,
                               version: string, baseUrl: string)

  const NO_CONTENTS := Contents([], [], [], "", "UNSET")

  /** Index of the first `c` in `s`; the length if there is none. */
  function Find(s: string, c: char): (i: nat)
    ensures i <= |s| && (i < |s| ==> s[i] == c) && c !in s[..i]
  {
    if s == "" || s[0] == c then 0 else 1 + Find(s[1..], c)
  }

  function StripReturn(line: string): string {
    if line != "" && line[|line| - 1] == '\r' then line[..|line| - 1] else line
  }

  predicate HasTarget(line: string) { Find(line, ';') + 1 < |line| }

  predicate IsEntryLine(line: string) { line != "" && line[0] != '#' }

  function TargetOf(line: string): string {
    if HasTarget(line) then
      var rest := line[Find(line, ';') + 1..];
      rest[..Find(rest, ';')]
    else line[..Find(line, ';')]
  }

  function HashOf(line: string): string
    requires HasTarget(line)
  {
    var rest := line[Find(line, ';') + 1..];
    if HasTarget(rest) then rest[Find(rest, ';') + 1..] else UNKNOWN_HASH
  }

  const VERSION_TAG := "#version="
  const URL_TAG := "#baseurl="

  function AddLine(c: Contents, raw: string): Contents {
    var line := StripReturn(raw);
    if IsEntryLine(line) then
      c.(files := c.files + [line[..Find(line, ';')]],
         targets := c.targets + [TargetOf(line)],
         hashes := c.hashes + if HasTarget(line) then [HashOf(line)] else [])
    else if VERSION_TAG <= line then c.(version := line[|VERSION_TAG|..])
    else if URL_TAG <= line then c.(baseUrl := line[|URL_TAG|..])
    else c
  }

  function ReadLines(lines: seq<string>): Contents {
    if lines == [] then NO_CONTENTS
    else AddLine(ReadLines(lines[..|lines| - 1]), lines[|lines| - 1])
  }

  method ReadLine(before: Contents, raw: string) returns (c: Contents)
    ensures c == AddLine(before, raw)
  {
    c := before;
    var line := StripReturn(raw);
    if line != "" && line[0] != '#' {
      var pos := Find(line, ';');
      var file, target := line[..pos], line[..pos];
      if pos + 1 < |line| {
        var rest := line[pos + 1..];
        pos := Find(rest, ';');
        target := rest[..pos];
        c := c.(hashes := c.hashes + [if pos + 1 < |rest| then rest[pos + 1..] else UNKNOWN_HASH]);
      }
      c := c.(files := c.files + [file], targets := c.targets + [target]);
    } else if VERSION_TAG <= line {
      c := c.(version := line[|VERSION_TAG|..]);
    } else if URL_TAG <= line {
      c := c.(baseUrl := line[|URL_TAG|..]);
    }
  }

  method ReadContents(lines: seq<string>) returns (c: Contents)
    ensures c == ReadLines(lines)
  {
    c := NO_CONTENTS;
    for i := 0 to |lines|
      invariant c == ReadLines(lines[..i])
    {
      c := ReadLine(c, lines[i]);
      hide AddLine;
      ReadLinesSnoc(lines[..i], lines[i]);
      assert lines[..i + 1] == lines[..i] + [lines[i]];
    }
    assert lines[..|lines|] == lines;
  }

  lemma AddLineCounts(c: Contents, raw: string)
    ensures var d, line := AddLine(c, raw), StripReturn(raw);
      && |d.files| == |c.files| + (if IsEntryLine(line) then 1 else 0)
      && |d.targets| == |c.targets| + (if IsEntryLine(line) then 1 else 0)
      && |d.hashes| == |c.hashes| + (if IsEntryLine(line) && HasTarget(line) then 1 else 0)
  {
    hide StripReturn, HasTarget, TargetOf, HashOf;
  }

  predicate AllHaveTargets(lines: seq<string>) {
    forall l :: l in lines && IsEntryLine(StripReturn(l)) ==> HasTarget(StripReturn(l))
  }

  /** The three vectors line up exactly when every entry line names its target: the hash
      of the i-th file is then the i-th hash. */
  lemma {:induction false} HashesAligned(lines: seq<string>)
    ensures var c := ReadLines(lines);
      && |c.targets| == |c.files| && |c.hashes| <= |c.files|
      && (|c.hashes| == |c.files| <==> AllHaveTargets(lines))
  {
    if lines != [] {
      var front, last := lines[..|lines| - 1], lines[|lines| - 1];
      HashesAligned(front);
      hide AddLine, StripReturn, HasTarget, IsEntryLine;
      AddLineCounts(ReadLines(front), last);
      assert lines == front + [last];
      assert forall l :: l in lines <==> l in front || l == last;
    }
  }

  lemma ReadLinesSnoc(front: seq<string>, last: string)
    ensures ReadLines(front + [last]) == AddLine(ReadLines(front), last)
  {
    assert (front + [last])[..|front|] == front;
  }

  function ContentsLine(file: string, target: string, hash: string): string {
    file + ";" + (target + ";" + hash)
  }

  /** Fields that a contents line carries intact. */
  predicate LineFields(file: string, target: string, hash: string) {
    && file != "" && file[0] != '#' && target != "" && hash != ""
    && ';' !in file && ';' !in target && hash[|hash| - 1] != '\r'
  }

  lemma {:induction false} FindAfter(front: string, rest: string)
    requires ';' !in front
    ensures Find(front + ";" + rest, ';') == |front|
    ensures (front + ";" + rest)[|front| + 1..] == rest
  {
    var s := front + ";" + rest;
    if front != "" {
      assert s[1..] == front[1..] + ";" + rest;
      FindAfter(front[1..], rest);
    }
  }

  /** A contents line is read back into its three fields, with or without a carriage
      return at its end. */
  lemma ContentsLineRead(c: Contents, file: string, target: string, hash: string)
    requires LineFields(file, target, hash)
    ensures var d := c.(files := c.files + [file], targets := c.targets + [target], hashes := c.hashes + [hash]);
      && AddLine(c, ContentsLine(file, target, hash)) == d
      && AddLine(c, ContentsLine(file, target, hash) + "\r") == d
  {
    var rest := target + ";" + hash;
    var line := ContentsLine(file, target, hash);
    FindAfter(file, rest);
    FindAfter(target, hash);
    hide Find;
    assert StripReturn(line) == line && StripReturn(line + "\r") == line;
    assert line[0] == file[0] && line[..|file|] == file;
    assert rest[..|target|] == target;
  }

  // ----- Whole contents lists -----

  /** A line of a contents list as somebody writes it: the version, the base URL, a file with
      or without target and hash, or anything else after a '#'. A line that is `closed` has a
      ';' after its last field. */
  datatype Item =
    | VersionItem(text: string)
    | UrlItem(text: string)
    | FileItem(file: string, closed: bool)
    | TargetItem(file: string, target: string, closed: bool)
    | HashItem(file: string, target: string, hash: string)
    | Comment(text: string)
    | Blank

  function Text(item: Item): string {
    match item
    case VersionItem(text) => "#version=" + text
    case UrlItem(text) => "#baseurl=" + text
    case FileItem(file, closed) => file + if closed then ";" else ""
    case TargetItem(file, target, closed) => file + ";" + (target + if closed then ";" else "")
    case HashItem(file, target, hash) => file + ";" + target + ";" + hash
    case Comment(text) => "#" + text
    case Blank => ""
  }

  /** Texts without a ';' in front of the last field, that start a file line with a file name
      and do not end in a carriage return. */
  predicate WellWritten(item: Item) {
    && (Text(item) != "" ==> Text(item)[|Text(item)| - 1] != '\r')
    && match item
       case VersionItem(_) => true
       case UrlItem(_) => true
       case FileItem(file, _) => file != "" && file[0] != '#' && ';' !in file
       case TargetItem(file, target, _) =>
         file != "" && file[0] != '#' && ';' !in file && target != "" && ';' !in target
       case HashItem(file, target, hash) =>
         file != "" && file[0] != '#' && ';' !in file && ';' !in target && hash != ""
       case Comment(text) => !("version=" <= text) && !("baseurl=" <= text)
       case Blank => true
  }

  /** What the list says: the last version and base URL, and the files in order. A file
      without a target is its own target and adds no hash. */
  function Meaning(items: seq<Item>): Contents {
    if items == [] then Contents([], [], [], "", "UNSET")
    else
      var c := Meaning(items[..|items| - 1]);
      match items[|items| - 1]
      case VersionItem(text) => c.(version := text)
      case UrlItem(text) => c.(baseUrl := text)
      case FileItem(file, _) => c.(files := c.files + [file], targets := c.targets + [file])
      case TargetItem(file, target, _) =>
        c.(files := c.files + [file], targets := c.targets + [target], hashes := c.hashes + ["UNKNOWN"])
      case HashItem(file, target, hash) =>
        c.(files := c.files + [file], targets := c.targets + [target], hashes := c.hashes + [hash])
      case Comment(_) => c
      case Blank => c
  }

  /** The lines of a list, each ended by a line feed alone or by a carriage return too. */
  predicate Spells(lines: seq<string>, items: seq<Item>) {
    && |lines| == |items|
    && forall i :: 0 <= i < |items| ==> lines[i] == Text(items[i]) || lines[i] == Text(items[i]) + "\r"
  }

  lemma {:induction false} FindNone(s: string)
    requires ';' !in s
    ensures Find(s, ';') == |s|
  {
    if s != "" { FindNone(s[1..]); }
  }

  lemma StripsReturn(s: string)
    requires s != "" ==> s[|s| - 1] != '\r'
    ensures StripReturn(s) == s && StripReturn(s + "\r") == s
  {
  }

  lemma FileItemRead(c: Contents, file: string, tail: string)
    requires file != "" && file[0] != '#' && ';' !in file && tail in {"", ";"}
    requires StripReturn(file + tail) == file + tail
    ensures AddLine(c, file + tail) == c.(files := c.files + [file], targets := c.targets + [file])
  {
    hide Find, StripReturn;
    var line := file + tail;
    if tail == "" {
      FindNone(file);
      assert line == file;
    } else {
      FindAfter(file, "");
      assert file + ";" + "" == line;
    }
    assert c.hashes + [] == c.hashes && line[..|file|] == file && line[0] == file[0];
  }

  lemma TargetItemRead(c: Contents, file: string, target: string, tail: string)
    requires file != "" && file[0] != '#' && ';' !in file && target != "" && ';' !in target && tail in {"", ";"}
    requires StripReturn(file + ";" + (target + tail)) == file + ";" + (target + tail)
    ensures AddLine(c, file + ";" + (target + tail))
         == c.(files := c.files + [file], targets := c.targets + [target], hashes := c.hashes + ["UNKNOWN"])
  {
    hide Find, StripReturn;
    var rest := target + tail;
    var line := file + ";" + rest;
    FindAfter(file, rest);
    if tail == "" {
      FindNone(target);
      assert rest == target;
    } else {
      FindAfter(target, "");
      assert target + ";" + "" == rest;
    }
    assert line[0] == file[0] && line[..|file|] == file && rest[..|target|] == target;
  }

  lemma HashItemRead(c: Contents, file: string, target: string, hash: string)
    requires file != "" && file[0] != '#' && ';' !in file && ';' !in target && hash != ""
    requires StripReturn(file + ";" + target + ";" + hash) == file + ";" + target + ";" + hash
    ensures AddLine(c, file + ";" + target + ";" + hash)
         == c.(files := c.files + [file], targets := c.targets + [target], hashes := c.hashes + [hash])
  {
    hide Find, StripReturn;
    var rest := target + ";" + hash;
    var line := file + ";" + target + ";" + hash;
    assert line == file + ";" + rest;
    FindAfter(file, rest);
    FindAfter(target, hash);
    assert line[0] == file[0] && line[..|file|] == file && rest[..|target|] == target;
  }

  lemma TaggedRead(c: Contents, text: string)
    ensures var v, u := "#version=" + text, "#baseurl=" + text;
      && (StripReturn(v) == v ==> AddLine(c, v) == c.(version := text))
      && (StripReturn(u) == u ==> AddLine(c, u) == c.(baseUrl := text))
  {
    hide StripReturn, Find;
    var v, u := "#version=" + text, "#baseurl=" + text;
    assert v[9..] == text && u[9..] == text && v[1] == 'v' && u[1] == 'b';
    assert |"#version="| == |"#baseurl="| == 9 && "#baseurl="[1] == 'b' && "#version="[1] == 'v';
  }

  lemma TagInside(tag: string, text: string)
    ensures "#" + tag <= "#" + text <==> tag <= text
  {
    if "#" + tag <= "#" + text {
      assert ("#" + tag)[1..] == tag && ("#" + text)[1..] == text && ("#" + text)[..|tag| + 1] == "#" + tag;
    }
  }

  lemma CommentRead(c: Contents, text: string)
    requires !("version=" <= text) && !("baseurl=" <= text) && StripReturn("#" + text) == "#" + text
    ensures AddLine(c, "#" + text) == c
  {
    hide StripReturn, Find;
    TagInside("version=", text);
    TagInside("baseurl=", text);
    assert "#" + "version=" == "#version=" && "#" + "baseurl=" == "#baseurl=";
  }

  lemma BlankRead(c: Contents)
    ensures AddLine(c, "") == c
  {
  }

  lemma SameStripped(c: Contents, raw: string, line: string)
    requires StripReturn(raw) == StripReturn(line)
    ensures AddLine(c, raw) == AddLine(c, line)
  {
    hide StripReturn, Find;
  }

  lemma ItemRead(items: seq<Item>, line: string)
    requires items != [] && WellWritten(items[|items| - 1])
    requires var text := Text(items[|items| - 1]); line == text || line == text + "\r"
    ensures AddLine(Meaning(items[..|items| - 1]), line) == Meaning(items)
  {
    var c, item := Meaning(items[..|items| - 1]), items[|items| - 1];
    StripsReturn(Text(item));
    SameStripped(c, line, Text(item));
    hide AddLine, StripReturn;
    match item
    case VersionItem(text) => TaggedRead(c, text);
    case UrlItem(text) => TaggedRead(c, text);
    case FileItem(file, closed) => FileItemRead(c, file, if closed then ";" else "");
    case TargetItem(file, target, closed) => TargetItemRead(c, file, target, if closed then ";" else "");
    case HashItem(file, target, hash) => HashItemRead(c, file, target, hash);
    case Comment(text) => CommentRead(c, text);
    case Blank => BlankRead(c);
  }

  /** A contents list is read back as it was meant, whatever the order of its lines and
      however they end. */
  lemma {:induction false} ListReadBack(items: seq<Item>, lines: seq<string>)
    requires Spells(lines, items) && forall item :: item in items ==> WellWritten(item)
    ensures ReadLines(lines) == Meaning(items)
  {
    hide AddLine, Meaning, WellWritten, Text;
    if items == [] {
      NothingWritten();
    } else {
      var n := |items| - 1;
      var front := items[..n];
      assert forall item :: item in front ==> item in items;
      ListReadBack(front, lines[..n]);
      assert items[n] in items;
      ItemRead(items, lines[n]);
    }
  }

  lemma NothingWritten()
    ensures ReadLines([]) == Meaning([])
  {
  }

  // ----- Signing and printing -----

  datatype Outcome = Printed(text: string) | Failed(code: int)

  /** The signed entries of the first `n` files; `read` gives a file's content. */
  function Entries(c: Contents, n: nat, read: string -> Option<seq<byte>>,
                   sha: seq<byte> -> seq<byte>, decrypt: nat -> nat): (es: seq<Entry>)
    requires n <= |c.files| == |c.targets|
    requires forall i :: 0 <= i < n ==> read(c.files[i]).Some?
    ensures |es| == n
    ensures forall i :: 0 <= i < n ==>
      es[i] == Entry(c.baseUrl + c.files[i], c.targets[i],
                     Encode(SignatureOf(sha(read(c.files[i]).value), decrypt)))
  {
    seq(n, i requires 0 <= i < n =>
      Entry(c.baseUrl + c.files[i], c.targets[i], Encode(SignatureOf(sha(read(c.files[i]).value), decrypt))))
  }

  predicate AllReadable(c: Contents, read: string -> Option<seq<byte>>) {
    forall i :: 0 <= i < |c.files| ==> read(c.files[i]).Some?
  }

  predicate HashesMatch(c: Contents, n: nat, fileHash: string -> string)
    requires n <= |c.files| == |c.hashes|
  {
    forall i :: 0 <= i < n ==> c.hashes[i] == "UNKNOWN" || fileHash(c.files[i]) == c.hashes[i]
  }

  /** The manifest printed: its version line is the number read from the version text,
      while its signature covers the version text itself. */
  function ManifestOf(c: Contents, read: string -> Option<seq<byte>>,
                      sha: seq<byte> -> seq<byte>, decrypt: nat -> nat): Manifest
    requires |c.files| == |c.targets| && AllReadable(c, read)
  {
    var es := Entries(c, |c.files|, read, sha, decrypt);
    Manifest(Decimal(ParseInt(c.version)),
             Encode(SignatureOf(sha(SignedStream(c.version, es)), decrypt)), es)
  }

  /** The raw power of a stream that the generator accepts as its signature. */
  predicate Signable(digest: seq<byte>, decrypt: nat -> nat) {
    0 < ByteCount(decrypt(BigEndian(digest))) <= SIGNATURE_LENGTH
  }

  method SignatureText(signature: array<byte>) returns (s: string)
    requires signature.Length == SIGNATURE_LENGTH
    ensures s == Encode(signature[..])
  {
    var buffer := new char[SIGNATURE_LENGTH * 4 / 3 + 4];
    BuffersSuffice(signature[..], "");
    SextetsLength(signature[..]);
    var p := Btoa(signature[..], buffer);
    s := buffer[..p];
  }

  /** File `i` is the first that cannot be used, and `code` says why. */
  ghost predicate FailsFirstAt(c: Contents, i: nat, read: string -> Option<seq<byte>>, fileHash: string -> string,
                               code: int)
    requires |c.files| == |c.hashes|
  {
    && i < |c.files| && HashesMatch(c, i, fileHash) && (forall k :: 0 <= k < i ==> read(c.files[k]).Some?)
    && code == (if !HashesMatch(c, i + 1, fileHash) then 6 else 4)
    && (code == 4 ==> read(c.files[i]).None?)
  }

  const UNREADABLE := 4
  const WRONG_VERSION := 5
  const WRONG_HASH := 6
  const NOT_SIGNED := 6

  /** Signs every file while feeding its entry to the manifest hash. */
  method SignFiles(c: Contents, read: string -> Option<seq<byte>>, fileHash: string -> string,
                   sha: seq<byte> -> seq<byte>, decrypt: nat -> nat)
    returns (code: int, hashed: seq<byte>, downloadURLs: seq<string>, signatures: seq<string>,
             ghost es: seq<Entry>)
    requires |c.files| == |c.targets| == |c.hashes|
    ensures code == 0 <==> AllReadable(c, read) && HashesMatch(c, |c.files|, fileHash)
    ensures code != 0 ==> exists i: nat :: FailsFirstAt(c, i, read, fileHash, code)
    ensures code == 0 ==>
      && es == Entries(c, |c.files|, read, sha, decrypt)
      && hashed == SignedStream(c.version, es)
      && |downloadURLs| == |signatures| == |es|
      && forall k :: 0 <= k < |es| ==> es[k] == Entry(downloadURLs[k], c.targets[k], signatures[k])
  {
    hide Encode, SignatureOf, SignedStream, CharBytes, Entries;
    hashed := CharBytes(c.version);
    downloadURLs, signatures, es := [], [], [];
    SignedNothing(c.version);
    for i := 0 to |c.files|
      invariant forall k :: 0 <= k < i ==> read(c.files[k]).Some?
      invariant HashesMatch(c, i, fileHash)
      invariant es == Entries(c, i, read, sha, decrypt)
      invariant |downloadURLs| == |signatures| == i
      invariant forall k :: 0 <= k < i ==> es[k] == Entry(downloadURLs[k], c.targets[k], signatures[k])
      invariant hashed == SignedStream(c.version, es)
    {
      if c.hashes[i] != UNKNOWN_HASH && fileHash(c.files[i]) != c.hashes[i] {
        code := WRONG_HASH;
        assert FailsFirstAt(c, i, read, fileHash, code);
        return;
      }
      var content := read(c.files[i]);
      if content.None? {
        code := UNREADABLE;
        assert FailsFirstAt(c, i, read, fileHash, code);
        return;
      }
      var s := SignText(content.value, sha, decrypt);
      signatures := signatures + [s];
      var url := c.baseUrl + c.files[i];
      downloadURLs := downloadURLs + [url];
      hashed := hashed + CharBytes(url) + CharBytes(c.targets[i]) + CharBytes(s);
      SignedStreamSnoc(c.version, es, Entry(url, c.targets[i], s));
      es := es + [Entry(url, c.targets[i], s)];
    }
    code := 0;
  }

  method Generate(c: Contents, read: string -> Option<seq<byte>>, fileHash: string -> string,
                  sha: seq<byte> -> seq<byte>, decrypt: nat -> nat) returns (r: Outcome)
    requires |c.files| == |c.targets| == |c.hashes|
    ensures r.Printed? <==>
      && ParseInt(c.version) != 0
      && (forall i :: 0 <= i < |c.files| ==>
           read(c.files[i]).Some? && (c.hashes[i] == "UNKNOWN" || fileHash(c.files[i]) == c.hashes[i]))
      && var digest := sha(SignedStream(c.version, Entries(c, |c.files|, read, sha, decrypt)));
      0 < ByteCount(decrypt(BigEndian(digest))) <= 512
    ensures r.Printed? ==> r.text == Print(ManifestOf(c, read, sha, decrypt))
    ensures r == Failed(5) <==> ParseInt(c.version) == 0
    ensures r.Failed? && r.code != 5 ==>
      || (exists i: nat :: FailsFirstAt(c, i, read, fileHash, r.code))
      || (r.code == 6 && AllReadable(c, read) && HashesMatch(c, |c.files|, fileHash))
  {
    hide Encode, SignatureOf, Print, SignedStream, Entries, ParseInt, Decimal, ByteCount, BigEndian;
    var versionCode := ParseInt(c.version);
    if versionCode == 0 { return Failed(WRONG_VERSION); }
    var code, hashed, downloadURLs, signatures, es := SignFiles(c, read, fileHash, sha, decrypt);
    if code != 0 { return Failed(code); }
    var text := SignAndPrint(c, hashed, sha, decrypt, versionCode, downloadURLs, signatures, es);
    if text.None? { return Failed(NOT_SIGNED); }
    return Printed(text.value);
  }

  method SignText(content: seq<byte>, sha: seq<byte> -> seq<byte>, decrypt: nat -> nat)
    returns (s: string)
    ensures s == Encode(SignatureOf(sha(content), decrypt))
  {
    var signature := new byte[SIGNATURE_LENGTH];
    var _ := SignFile(content, sha, decrypt, signature);
    s := SignatureText(signature);
  }

  /** Signs the stream that was hashed and prints the manifest. */
  method SignAndPrint(c: Contents, hashed: seq<byte>, sha: seq<byte> -> seq<byte>, decrypt: nat -> nat,
                      versionCode: int, downloadURLs: seq<string>, signatures: seq<string>, ghost es: seq<Entry>)
    returns (text: Option<string>)
    requires |c.targets| == |downloadURLs| == |signatures| == |es|
    requires forall k :: 0 <= k < |es| ==> es[k] == Entry(downloadURLs[k], c.targets[k], signatures[k])
    ensures text.Some? <==> Signable(sha(hashed), decrypt)
    ensures text.Some? ==>
      text.value == Print(Manifest(Decimal(versionCode), Encode(SignatureOf(sha(hashed), decrypt)), es))
  {
    hide Encode, PrintEntries, ByteCount, BigEndian, Decimal;
    var signatureGenerator := new HashSignature(sha);
    signatureGenerator.Add(hashed);
    assert [] + hashed == hashed;
    var signature := new byte[SIGNATURE_LENGTH];
    var size := signatureGenerator.Get(decrypt, signature);
    if size == 0 { return None; }
    PadInPlace(signature, size);
    var s := SignatureText(signature);
    var body := "";
    PrintNothing();
    for i := 0 to |c.targets|
      invariant body == PrintEntries(es[..i])
    {
      var line := downloadURLs[i] + "\n" + (c.targets[i] + "\n" + (signatures[i] + "\n"));
      body := body + line;
      PrintEntriesSnoc(es[..i], es[i]);
      assert es[..i + 1] == es[..i] + [es[i]];
    }
    assert es[..|es|] == es;
    text := Some(Decimal(versionCode) + "\n" + (s + "\n" + body));
  }

  lemma PrintNothing()
    ensures PrintEntries([]) == ""
  {
  }

  lemma SignedNothing(version: string)
    ensures SignedStream(version, []) == CharBytes(version)
  {
    assert version + "" == version;
  }

  // ----- Round trip -----

  lemma LetterIsPlain(c: byte)
    ensures To64(c) != '\n' && To64(c) != '\0'
  {
  }

  lemma EncodedIsField(sig: seq<byte>)
    requires |sig| == SIGNATURE_LENGTH
    ensures IsField(Encode(sig))
  {
    SextetsLength(sig);
    hide Sextets, To64;
    var cs := Sextets(sig);
    forall i | 0 <= i < |cs| ensures Encode(sig)[i] != '\n' && Encode(sig)[i] != '\0' {
      LetterIsPlain(cs[i]);
    }
  }

  /** Every URL and target survives as a line of its own. */
  predicate PrintableNames(c: Contents) {
    && |c.files| == |c.targets|
    && IsField(Decimal(ParseInt(c.version)))
    && forall i :: 0 <= i < |c.files| ==> IsField(c.baseUrl + c.files[i]) && IsField(c.targets[i])
  }

  lemma SignatureWidth(digest: seq<byte>, decrypt: nat -> nat)
    ensures |SignatureOf(digest, decrypt)| == SIGNATURE_LENGTH == 512
    ensures |Encode(SignatureOf(digest, decrypt))| == 683
  {
    SextetsLength(SignatureOf(digest, decrypt));
    hide Sextets;
  }

  lemma ManifestIsPrintable(c: Contents, read: string -> Option<seq<byte>>,
                            sha: seq<byte> -> seq<byte>, decrypt: nat -> nat)
    requires PrintableNames(c) && AllReadable(c, read)
    ensures IsPrintable(ManifestOf(c, read, sha, decrypt))
  {
    var m := ManifestOf(c, read, sha, decrypt);
    hide Encode, SignatureOf, IsField, Decimal, ParseInt;
    SignatureWidth(sha(SignedStream(c.version, m.entries)), decrypt);
    EncodedIsField(SignatureOf(sha(SignedStream(c.version, m.entries)), decrypt));
    forall i | 0 <= i < |m.entries| ensures IsEntry(m.entries[i]) {
      SignatureWidth(sha(read(c.files[i]).value), decrypt);
      EncodedIsField(SignatureOf(sha(read(c.files[i]).value), decrypt));
    }
  }

  /** The updater reads back exactly what the generator signed: version number, URLs,
      target paths and file signatures. */
  lemma ManifestReadBack(c: Contents, read: string -> Option<seq<byte>>,
                         sha: seq<byte> -> seq<byte>, decrypt: nat -> nat)
    requires PrintableNames(c) && AllReadable(c, read)
    ensures var m := ManifestOf(c, read, sha, decrypt);
      && Parse(Print(m)) == Some(m)
      && ParseInt(m.version) == ParseInt(c.version)
  {
    var m := ManifestOf(c, read, sha, decrypt);
    ManifestIsPrintable(c, read, sha, decrypt);
    hide Encode, SignatureOf, IsPrintable, Parse, Print, Decimal, ParseInt;
    ParsePrint(m);
    ParsePrinted(ParseInt(c.version));
  }

  /** The updater accepts the manifest it reads exactly when the digest of the stream it
      hashes, which starts with the printed number, is the digest that was signed, which
      started with the version text. Digests are 64 bytes wide and not zero. */
  lemma ManifestAcceptedIff(c: Contents, read: string -> Option<seq<byte>>, sha: seq<byte> -> seq<byte>,
                            encrypt: nat -> nat, decrypt: nat -> nat, modulus: nat)
    requires |c.files| == |c.targets| && AllReadable(c, read)
    requires KeyPair(encrypt, decrypt, modulus)
    requires forall x :: |sha(x)| == DIGEST_LENGTH && BigEndian(sha(x)) != 0
    ensures var m := ManifestOf(c, read, sha, decrypt);
      Accepts(m.signature + "\0", sha(SignedStream(m.version, m.entries)), encrypt)
      <==> sha(SignedStream(m.version, m.entries)) == sha(SignedStream(c.version, m.entries))
  {
    hide Accepts, Encode, SignatureOf, KeyPair, SignedStream, Decimal, ParseInt, BigEndian, Entries;
    var m := ManifestOf(c, read, sha, decrypt);
    var signed, checked := sha(SignedStream(c.version, m.entries)), sha(SignedStream(m.version, m.entries));
    SignedTextAccepted(signed, checked, "\0", encrypt, decrypt, modulus);
  }

  /** The updater accepts every file signature of the manifest for the file signed, and
      for no file with another digest. */
  lemma FileAcceptedIff(c: Contents, read: string -> Option<seq<byte>>, sha: seq<byte> -> seq<byte>,
                        encrypt: nat -> nat, decrypt: nat -> nat, modulus: nat, i: nat, file: seq<byte>)
    requires |c.files| == |c.targets| && AllReadable(c, read) && i < |c.files|
    requires KeyPair(encrypt, decrypt, modulus)
    requires forall x :: |sha(x)| == DIGEST_LENGTH && BigEndian(sha(x)) != 0
    ensures Accepts(ManifestOf(c, read, sha, decrypt).entries[i].signature + "\0", sha(file), encrypt)
            <==> sha(file) == sha(read(c.files[i]).value)
  {
    hide Accepts, Encode, SignatureOf, KeyPair, SignedStream, Decimal, ParseInt, BigEndian;
    SignedTextAccepted(sha(read(c.files[i]).value), sha(file), "\0", encrypt, decrypt, modulus);
  }

  /** With a canonical version text the two signed streams are the same bytes, so the
      printed manifest is read back and accepted. */
  lemma CanonicalManifestAccepted(c: Contents, read: string -> Option<seq<byte>>, sha: seq<byte> -> seq<byte>,
                                  encrypt: nat -> nat, decrypt: nat -> nat, modulus: nat)
    requires PrintableNames(c) && AllReadable(c, read) && CanonicalDecimal(c.version)
    requires KeyPair(encrypt, decrypt, modulus)
    requires forall x :: |sha(x)| == DIGEST_LENGTH && BigEndian(sha(x)) != 0
    ensures var m := Parse(Print(ManifestOf(c, read, sha, decrypt)));
      && m.Some? && m.value.version == c.version
      && Accepts(m.value.signature + "\0", sha(SignedStream(m.value.version, m.value.entries)), encrypt)
  {
    hide Accepts, Encode, SignatureOf, KeyPair, SignedStream, Decimal, ParseInt, BigEndian, Entries, Parse, Print;
    ManifestReadBack(c, read, sha, decrypt);
    ManifestAcceptedIff(c, read, sha, encrypt, decrypt, modulus);
  }

  /** A version text such as "007" is signed as it stands but printed as "7": the updater
      then hashes a different stream. */
  lemma PaddedVersionSignsAnotherStream(es: seq<Entry>)
    ensures !CanonicalDecimal("07") && ParseInt("07") == 7 && Decimal(7) == "7"
    ensures SignedStream("07", es) != SignedStream("7", es)
  {
    assert LeadingDigits("07", 0) == LeadingDigits("7", 0) by { assert "07"[1..] == "7"; }
    assert LeadingDigits("7", 0) == LeadingDigits("", 7) by { assert "7"[1..] == ""; }
    assert Digits(7) == "" + [Digit(7)];
    assert |SignedStream("07", es)| == |SignedStream("7", es)| + 1;
  }
}
