/** The text format of the update manifest: what the generator prints and how the updater
    reads it line by line. */
module Manifest {
  import opened Wrappers
  import opened Bytes

  datatype Entry = Entry(url: string, path: string, signature: string)

  datatype Manifest = Manifest(version: string, signature: string, entries: seq<Entry>)

  /** Size of the line buffer handed to `fgets`. */
  const LINE_BUFFER := 4096

  // ----- Reading a line -----

  /** How many characters `fgets` takes when at most `room` fit: up to and including the
      first newline. */
  function Taken(rest: string, room: nat): (n: nat)
    ensures n <= |rest| && n <= room
    ensures rest != "" && room > 0 ==> n > 0
  {
    if rest == "" || room == 0 then 0
    else if rest[0] == '\n' then 1
    else 1 + Taken(rest[1..], room - 1)
  }

  /** A C string ends at its first NUL, and the line is cut at its first newline. */
  function Cut(s: string): (r: string)
    ensures |r| <= |s|
  {
    if s == "" || s[0] == '\n' || s[0] == '\0' then "" else [s[0]] + Cut(s[1..])
  }

  function NextLine(rest: string): string { Cut(rest[..Taken(rest, LINE_BUFFER - 1)]) }

  function AfterLine(rest: string): (r: string)
    ensures |r| <= |rest|
    ensures NextLine(rest) != "" ==> |r| < |rest|
  {
    rest[Taken(rest, LINE_BUFFER - 1)..]
  }

  /** A text that survives as one line: not empty, no newline or NUL, and short enough to
      share the buffer with its newline and a NUL. */
  predicate IsField(s: string) {
    0 < |s| <= LINE_BUFFER - 2 && '\n' !in s && '\0' !in s
  }

  lemma {:induction false} TakenField(s: string, tail: string, room: nat)
    requires '\n' !in s && |s| < room
    ensures Taken(s + "\n" + tail, room) == |s| + 1
  {
    var all := s + "\n" + tail;
    if s == "" {
      assert all[0] == '\n';
    } else {
      assert all[1..] == s[1..] + "\n" + tail;
      TakenField(s[1..], tail, room - 1);
    }
  }

  lemma {:induction false} CutField(s: string)
    requires '\n' !in s && '\0' !in s
    ensures Cut(s + "\n") == s
  {
    if s != "" {
      assert (s + "\n")[1..] == s[1..] + "\n";
      CutField(s[1..]);
    }
  }

  /** A printed field is read back as it was. */
  lemma NextLineOfField(s: string, tail: string)
    requires IsField(s)
    ensures NextLine(s + "\n" + tail) == s && AfterLine(s + "\n" + tail) == tail
  {
    var all := s + "\n" + tail;
    TakenField(s, tail, LINE_BUFFER - 1);
    CutField(s);
    assert all[..|s| + 1] == s + "\n" && all[|s| + 1..] == tail;
  }

  /** An open text file: the characters not read yet. */
  class TextFile {
    var rest: string

    constructor (text: string)
      ensures rest == text
    {
      rest := text;
    }

    method ReadNextLine() returns (line: string)
      modifies this
      ensures line == NextLine(old(rest)) && rest == AfterLine(old(rest))
    {
      var n := Taken(rest, LINE_BUFFER - 1);
      if n == 0 { return ""; }
      line := Cut(rest[..n]);
      rest := rest[n..];
    }
  }

  // ----- Reading a manifest -----

  /** Entries up to the first empty URL line; none if an entry is cut short. */
  function ParseEntries(rest: string): Option<seq<Entry>>
    decreases |rest|
  {
    var url, afterUrl := NextLine(rest), AfterLine(rest);
    if url == "" then Some([])
    else
      var path, afterPath := NextLine(afterUrl), AfterLine(afterUrl);
      var signature := NextLine(afterPath);
      if path == "" || signature == "" then None
      else
        var more := ParseEntries(AfterLine(afterPath));
        if more.None? then None else Some([Entry(url, path, signature)] + more.value)
  }

  function Parse(text: string): Option<Manifest> {
    var version, afterVersion := NextLine(text), AfterLine(text);
    var signature := NextLine(afterVersion);
    if version == "" || signature == "" then None
    else
      var entries := ParseEntries(AfterLine(afterVersion));
      if entries.None? then None else Some(Manifest(version, signature, entries.value))
  }

  // ----- What is signed -----

  function CharBytes(s: string): (b: seq<byte>)
    ensures |b| == |s|
  {
    seq(|s|, i requires 0 <= i < |s| => s[i] as int % 256)
  }

  function EntryText(e: Entry): string { e.url + e.path + e.signature }

  /** The entry fields in the order in which both sides feed them to the hash. */
  function EntryStream(entries: seq<Entry>): string {
    if entries == [] then "" else EntryText(entries[0]) + EntryStream(entries[1..])
  }

  function SignedStream(version: string, entries: seq<Entry>): seq<byte> {
    CharBytes(version + EntryStream(entries))
  }

  lemma {:induction false} EntryStreamAppend(front: seq<Entry>, rest: seq<Entry>)
    ensures EntryStream(front + rest) == EntryStream(front) + EntryStream(rest)
  {
    hide EntryText;
    var all := front + rest;
    if front == [] {
      assert all == rest;
    } else {
      assert all[1..] == front[1..] + rest;
      EntryStreamAppend(front[1..], rest);
    }
  }

  lemma EntryStreamOne(e: Entry)
    ensures EntryStream([e]) == EntryText(e)
  {
    hide EntryText;
    assert [e][1..] == [];
  }

  lemma CharBytesAppend(a: string, b: string)
    ensures CharBytes(a + b) == CharBytes(a) + CharBytes(b)
  {
  }

  /** Feeding one more entry to the hash, field by field. */
  lemma SignedStreamSnoc(version: string, entries: seq<Entry>, e: Entry)
    ensures SignedStream(version, entries + [e])
         == SignedStream(version, entries) + CharBytes(e.url) + CharBytes(e.path) + CharBytes(e.signature)
  {
    hide CharBytes, EntryStream;
    EntryStreamAppend(entries, [e]);
    EntryStreamOne(e);
    var before := version + EntryStream(entries);
    assert version + EntryStream(entries + [e]) == before + e.url + e.path + e.signature;
    CharBytesAppend(before, e.url);
    CharBytesAppend(before + e.url, e.path);
    CharBytesAppend(before + e.url + e.path, e.signature);
  }

  // ----- Printing -----

  function PrintEntry(e: Entry): string {
    e.url + "\n" + (e.path + "\n" + (e.signature + "\n"))
  }

  function PrintEntries(entries: seq<Entry>): string {
    if entries == [] then "" else PrintEntry(entries[0]) + PrintEntries(entries[1..])
  }

  function Print(m: Manifest): string {
    m.version + "\n" + (m.signature + "\n" + PrintEntries(m.entries))
  }

  lemma {:induction false} PrintEntriesSnoc(entries: seq<Entry>, e: Entry)
    ensures PrintEntries(entries + [e]) == PrintEntries(entries) + PrintEntry(e)
  {
    hide PrintEntry;
    var all := entries + [e];
    if entries == [] {
      assert all == [e] && [e][1..] == [];
    } else {
      assert all[1..] == entries[1..] + [e];
      PrintEntriesSnoc(entries[1..], e);
    }
  }

  predicate IsEntry(e: Entry) { IsField(e.url) && IsField(e.path) && IsField(e.signature) }

  predicate AreEntries(entries: seq<Entry>) { forall e :: e in entries ==> IsEntry(e) }

  predicate IsPrintable(m: Manifest) {
    IsField(m.version) && IsField(m.signature) && AreEntries(m.entries)
  }

  lemma ParsePrintedEntry(e: Entry, rest: string)
    requires IsEntry(e) && ParseEntries(rest).Some?
    ensures ParseEntries(PrintEntry(e) + rest) == Some([e] + ParseEntries(rest).value)
  {
    hide IsField, NextLine, AfterLine;
    var afterPath := e.signature + "\n" + rest;
    var afterUrl := e.path + "\n" + afterPath;
    assert PrintEntry(e) + rest == e.url + "\n" + afterUrl;
    NextLineOfField(e.url, afterUrl);
    NextLineOfField(e.path, afterPath);
    NextLineOfField(e.signature, rest);
    FieldNotEmpty(e.url);
    FieldNotEmpty(e.path);
    FieldNotEmpty(e.signature);
  }

  lemma FieldNotEmpty(s: string)
    requires IsField(s)
    ensures s != ""
  {
  }

  lemma {:induction false} ParsePrintedEntries(entries: seq<Entry>)
    requires AreEntries(entries)
    ensures ParseEntries(PrintEntries(entries)) == Some(entries)
  {
    if entries != [] {
      hide ParseEntries, PrintEntry, IsEntry;
      ParsePrintedEntries(entries[1..]);
      ParsePrintedEntry(entries[0], PrintEntries(entries[1..]));
      assert entries == [entries[0]] + entries[1..];
    }
  }

  /** Reading a printed manifest gives it back. */
  lemma ParsePrint(m: Manifest)
    requires IsPrintable(m)
    ensures Parse(Print(m)) == Some(m)
  {
    hide NextLine, AfterLine, PrintEntries, ParseEntries;
    var rest := PrintEntries(m.entries);
    NextLineOfField(m.version, m.signature + "\n" + rest);
    NextLineOfField(m.signature, rest);
    ParsePrintedEntries(m.entries);
  }

  // ----- The format, line by line -----

  lemma {:induction false} TakenAll(s: string, rest: string, room: nat)
    requires '\n' !in s && |s| == room
    ensures Taken(s + rest, room) == room
  {
    var all := s + rest;
    if s != "" {
      assert all[1..] == s[1..] + rest;
      TakenAll(s[1..], rest, room - 1);
    }
  }

  lemma {:induction false} CutWhole(s: string)
    requires '\n' !in s && '\0' !in s
    ensures Cut(s) == s
  {
    if s != "" { CutWhole(s[1..]); }
  }

  /** A line with more than 4094 characters is cut into two. */
  lemma LongLineCut(s: string, rest: string)
    requires |s| == 4095 && '\n' !in s && '\0' !in s
    ensures NextLine(s + rest) == s && AfterLine(s + rest) == rest
  {
    TakenAll(s, rest, 4095);
    assert (s + rest)[..4095] == s && (s + rest)[4095..] == rest;
    CutWhole(s);
  }

  lemma {:induction false} CutAtNul(s: string, t: string)
    requires '\n' !in s && '\0' !in s
    ensures Cut(s + "\0" + t) == s
  {
    if s == "" {
      assert (s + "\0" + t)[0] == '\0';
    } else {
      assert (s + "\0" + t)[1..] == s[1..] + "\0" + t;
      CutAtNul(s[1..], t);
    }
  }

  /** What follows a NUL on a line is lost, but not the lines after it. */
  lemma NulHidesRest(s: string, t: string, rest: string)
    requires '\n' !in s && '\0' !in s && '\n' !in t && |s| + |t| < 4094
    ensures NextLine(s + "\0" + t + "\n" + rest) == s && AfterLine(s + "\0" + t + "\n" + rest) == rest
  {
    var line := s + "\0" + t;
    var all := line + "\n" + rest;
    assert '\n' !in line by { assert forall c :: c in line <==> c in s || c == '\0' || c in t; }
    TakenField(line, rest, 4095);
    assert all[..|line| + 1] == s + "\0" + (t + "\n") && all[|line| + 1..] == rest;
    CutAtNul(s, t + "\n");
  }

  lemma {:induction false} CutShape(s: string)
    ensures '\n' !in Cut(s) && '\0' !in Cut(s)
  {
    if s != "" && s[0] != '\n' && s[0] != '\0' { CutShape(s[1..]); }
  }

  /** The texts that survive as lines of their own are exactly the fields. */
  lemma FieldSurvivesIff(s: string, rest: string)
    requires s != ""
    ensures NextLine(s + "\n" + rest) == s && AfterLine(s + "\n" + rest) == rest
            <==> |s| <= 4094 && '\n' !in s && '\0' !in s
    ensures |s| <= 4094 && '\n' !in s && '\0' !in s <==> IsField(s)
  {
    hide Taken, Cut;
    if IsField(s) {
      NextLineOfField(s, rest);
    } else {
      var all := s + "\n" + rest;
      CutShape(all[..Taken(all, 4095)]);
      if |s| == 4095 && '\n' !in s && '\0' !in s {
        assert all == s + ("\n" + rest);
        LongLineCut(s, "\n" + rest);
        assert |"\n" + rest| != |rest|;
      }
    }
  }

  function Unlines(lines: seq<string>): string { if lines == [] then "" else lines[0] + "\n" + Unlines(lines[1..]) }

  ghost predicate AreFields(lines: seq<string>) { forall l :: l in lines ==> IsField(l) }

  /** Version and signature, and then URL, path and signature of each entry. */
  predicate Lists(lines: seq<string>, m: Manifest) {
    && |lines| == 2 + 3 * |m.entries| && m.version == lines[0] && m.signature == lines[1]
    && forall i :: 0 <= i < |m.entries| ==>
         m.entries[i] == Entry(lines[2 + 3 * i], lines[3 + 3 * i], lines[4 + 3 * i])
  }

  predicate ListsEntries(lines: seq<string>, es: seq<Entry>) {
    && |lines| == 3 * |es|
    && forall i :: 0 <= i < |es| ==> es[i] == Entry(lines[3 * i], lines[1 + 3 * i], lines[2 + 3 * i])
  }

  lemma UnlinesFirst(lines: seq<string>, rest: string)
    requires lines != [] && IsField(lines[0])
    ensures var text := Unlines(lines) + rest;
      NextLine(text) == lines[0] != "" && AfterLine(text) == Unlines(lines[1..]) + rest
  {
    hide NextLine, AfterLine;
    assert Unlines(lines) + rest == lines[0] + "\n" + (Unlines(lines[1..]) + rest);
    NextLineOfField(lines[0], Unlines(lines[1..]) + rest);
  }

  lemma NothingLeft(rest: string)
    ensures Unlines([]) + rest == rest
  {
  }

  lemma ListsOneMore(lines: seq<string>, es: seq<Entry>)
    requires |lines| >= 3 && ListsEntries(lines[3..], es)
    ensures ListsEntries(lines, [Entry(lines[0], lines[1], lines[2])] + es)
  {
    var all := [Entry(lines[0], lines[1], lines[2])] + es;
    forall i | 0 <= i < |all| ensures all[i] == Entry(lines[3 * i], lines[1 + 3 * i], lines[2 + 3 * i]) {
      if i > 0 { assert all[i] == es[i - 1]; }
    }
  }

  lemma {:induction false} EntriesOfLines(lines: seq<string>, rest: string)
    requires AreFields(lines) && NextLine(rest) == ""
    ensures ParseEntries(Unlines(lines) + rest).Some? <==> |lines| % 3 == 0
    ensures |lines| % 3 == 0 ==> ListsEntries(lines, ParseEntries(Unlines(lines) + rest).value)
    decreases |lines|
  {
    hide NextLine, AfterLine, Unlines, IsField, ListsEntries;
    NothingLeft(rest);
    if lines == [] {
      assert ParseEntries(rest) == Some([]);
      NoEntries(lines);
    } else {
      UnlinesFirst(lines, rest);
      if |lines| > 1 { UnlinesFirst(lines[1..], rest); }
      if |lines| > 2 {
        UnlinesFirst(lines[2..], rest);
        assert lines[2..][1..] == lines[3..] && lines[1..][1..] == lines[2..];
        EntriesOfLines(lines[3..], rest);
        if |lines| % 3 == 0 { ListsOneMore(lines, ParseEntries(Unlines(lines[3..]) + rest).value); }
      } else if |lines| == 2 {
        assert lines[1..][1..] == [];
      } else {
        assert lines[1..] == [];
      }
    }
  }

  lemma NoEntries(lines: seq<string>)
    requires lines == []
    ensures ListsEntries(lines, [])
  {
  }

  lemma ListsFromEntries(lines: seq<string>, es: seq<Entry>)
    requires |lines| >= 2
    ensures ListsEntries(lines[2..], es) <==> Lists(lines, Manifest(lines[0], lines[1], es))
  {
    var tail := lines[2..];
    if |lines| == 2 + 3 * |es| {
      forall i | 0 <= i < |es|
        ensures tail[3 * i] == lines[2 + 3 * i] && tail[1 + 3 * i] == lines[3 + 3 * i]
        ensures tail[2 + 3 * i] == lines[4 + 3 * i]
      {
      }
    }
  }

  lemma ParseFirstTwo(lines: seq<string>, rest: string)
    requires |lines| >= 2 && IsField(lines[0]) && IsField(lines[1])
    ensures var es := ParseEntries(Unlines(lines[2..]) + rest);
      Parse(Unlines(lines) + rest) == if es.None? then None else Some(Manifest(lines[0], lines[1], es.value))
  {
    hide NextLine, AfterLine, Unlines, IsField, ParseEntries;
    UnlinesFirst(lines, rest);
    UnlinesFirst(lines[1..], rest);
    assert lines[1..][1..] == lines[2..];
  }

  lemma ParseTooShort(lines: seq<string>, rest: string)
    requires |lines| < 2 && AreFields(lines) && NextLine(rest) == ""
    ensures Parse(Unlines(lines) + rest) == None
  {
    hide NextLine, AfterLine, Unlines, IsField, ParseEntries;
    NothingLeft(rest);
    if lines != [] {
      UnlinesFirst(lines, rest);
      assert lines[1..] == [];
    }
  }

  /** A text of whole lines is a manifest exactly when there are two lines and then threes,
      and then it is the one that lists them. An empty line ends it. */
  lemma ParseLines(lines: seq<string>, rest: string)
    requires AreFields(lines) && NextLine(rest) == ""
    ensures Parse(Unlines(lines) + rest).Some? <==> |lines| >= 2 && |lines| % 3 == 2
    ensures |lines| >= 2 && |lines| % 3 == 2 ==> Lists(lines, Parse(Unlines(lines) + rest).value)
  {
    hide Parse, NextLine, Unlines, IsField, ParseEntries, Lists, ListsEntries;
    if |lines| < 2 {
      ParseTooShort(lines, rest);
    } else {
      ParseFirstTwo(lines, rest);
      EntriesOfLines(lines[2..], rest);
      if |lines| % 3 == 2 { ListsFromEntries(lines, ParseEntries(Unlines(lines[2..]) + rest).value); }
    }
  }

  lemma NoEmptyLine(rest: string)
    ensures rest == "" || rest[0] == '\n' ==> NextLine(rest) == ""
  {
  }

  lemma {:induction false} PrintedEntries(lines: seq<string>, es: seq<Entry>)
    requires ListsEntries(lines, es)
    ensures PrintEntries(es) == Unlines(lines)
  {
    if es != [] {
      forall i | 0 <= i < |es[1..]|
        ensures es[1..][i] == Entry(lines[3..][3 * i], lines[3..][1 + 3 * i], lines[3..][2 + 3 * i])
      {
        assert es[1..][i] == es[i + 1];
      }
      PrintedEntries(lines[3..], es[1..]);
      hide PrintEntries;
      UnlinesOfThree(lines);
      var e := es[0];
      assert e == Entry(lines[3 * 0], lines[1 + 3 * 0], lines[2 + 3 * 0]);
      assert PrintEntry(e) + Unlines(lines[3..])
          == e.url + "\n" + (e.path + "\n" + (e.signature + "\n" + Unlines(lines[3..])));
    }
  }

  lemma UnlinesOfThree(lines: seq<string>)
    requires |lines| >= 3
    ensures Unlines(lines) == lines[0] + "\n" + (lines[1] + "\n" + (lines[2] + "\n" + Unlines(lines[3..])))
  {
    assert lines[1..][1..] == lines[2..] && lines[2..][1..] == lines[3..];
    assert Unlines(lines[1..]) == lines[1] + "\n" + Unlines(lines[2..]);
    assert Unlines(lines[2..]) == lines[2] + "\n" + Unlines(lines[3..]);
  }

  /** A manifest is printed as the lines it lists. */
  lemma PrintedLines(lines: seq<string>, m: Manifest)
    requires Lists(lines, m)
    ensures Print(m) == Unlines(lines)
  {
    hide PrintEntries, ListsEntries;
    var tail := lines[2..];
    ListsFromEntries(lines, m.entries);
    PrintedEntries(tail, m.entries);
    assert lines[1..][1..] == tail && Unlines(lines[1..]) == lines[1] + "\n" + Unlines(tail);
    hide Unlines;
  }
}
