/**
  The vocabulary file and its parser. The file is plain text with one entry
  per line and the fields word, example and meaning separated by `;`. The
  whole text is trimmed, split on line feeds, and every line is split on
  `;`; a missing field reads as the empty string and any field after the
  third is dropped.
 */
module Vocabulary {
  import opened Strings

  datatype Entry = Entry(word: string, example: string, meaning: string)

  /** `parts[i] || ''`: a missing piece and an empty piece read alike, as
      the empty string; any other piece is taken as it is. */
  function Field(parts: seq<string>, i: nat): (r: string)
    ensures |r| == 0 <==> (i >= |parts| || |parts[i]| == 0)
    ensures |r| > 0 ==> r == parts[i]
  {
    if i < |parts| then parts[i] else []
  }

  /** The entry can be written to the file and read back: no field holds a
      field separator or a line break. */
  predicate WellFormed(e: Entry) {
    && ';' !in e.word && ';' !in e.example && ';' !in e.meaning
    && '\n' !in e.word && '\n' !in e.example && '\n' !in e.meaning
  }

  /** The line of the file that stores `e`. */
  function Line(e: Entry): string {
    e.word + ";" + e.example + ";" + e.meaning
  }

  /** One line of the file as an entry. The result is characterised without
      reference to `split`: its stored form, padded by two separators for
      the fields a short line lacks, is the longest prefix of the line with
      exactly two separators. */
  function ParseLine(line: string): (e: Entry)
    ensures ';' !in e.word && ';' !in e.example && ';' !in e.meaning
    ensures Line(e) <= line + ";;"
    ensures |Line(e)| < |line| + 2 ==> (line + ";;")[|Line(e)|] == ';'
  {
    var parts := Split(line, ';');
    var e := Entry(Field(parts, 0), Field(parts, 1), Field(parts, 2));
    LineOfParts(parts, line, e);
    e
  }

  lemma LineOfParts(parts: seq<string>, line: string, e: Entry)
    requires |parts| >= 1 && Join(parts, ';') == line
    requires forall i :: 0 <= i < |parts| ==> ';' !in parts[i]
    requires e == Entry(Field(parts, 0), Field(parts, 1), Field(parts, 2))
    ensures Line(e) <= line + ";;"
    ensures |Line(e)| < |line| + 2 ==> (line + ";;")[|Line(e)|] == ';'
  {
    if |parts| == 1 {
      LineOfOnePart(parts, line, e);
    } else if |parts| == 2 {
      LineOfTwoParts(parts, line, e);
    } else {
      assert e == Entry(parts[0], parts[1], parts[2]);
      LineOfManyParts(parts, line, e);
    }
  }

  lemma LineOfOnePart(parts: seq<string>, line: string, e: Entry)
    requires |parts| == 1 && Join(parts, ';') == line
    requires e == Entry(Field(parts, 0), Field(parts, 1), Field(parts, 2))
    ensures Line(e) == line + ";;"
  {
    assert line == parts[0];
    assert e == Entry(line, [], []);
  }

  lemma LineOfTwoParts(parts: seq<string>, line: string, e: Entry)
    requires |parts| == 2 && Join(parts, ';') == line
    requires e == Entry(Field(parts, 0), Field(parts, 1), Field(parts, 2))
    ensures Line(e) == line + ";"
  {
    assert Join(parts[1..], ';') == parts[1];
    assert line == parts[0] + ";" + parts[1];
    assert e == Entry(parts[0], parts[1], []);
  }

  lemma LineOfManyParts(parts: seq<string>, line: string, e: Entry)
    requires |parts| >= 3 && Join(parts, ';') == line
    requires e == Entry(parts[0], parts[1], parts[2])
    ensures Line(e) <= line
    ensures |Line(e)| < |line| ==> line[|Line(e)|] == ';'
  {
    var tail := Join(parts[2..], ';');
    var head := parts[0] + ";" + parts[1] + ";";
    assert parts[1..][1..] == parts[2..];
    assert Join(parts[1..], ';') == parts[1] + ";" + tail;
    assert line == head + tail;
    assert Line(e) == head + parts[2];
    if |parts| == 3 {
      assert tail == parts[2];
    } else {
      assert tail == parts[2] + ";" + Join(parts[3..], ';');
      assert tail[..|parts[2]|] == parts[2];
      assert line[..|Line(e)|] == head + tail[..|parts[2]|];
      assert line[|Line(e)|] == tail[|parts[2]|];
    }
  }

  /** A well-formed entry survives being written as a line and read back. */
  lemma ParseLineOfLine(e: Entry)
    requires WellFormed(e)
    ensures ParseLine(Line(e)) == e
  {
    var parts := [e.word, e.example, e.meaning];
    assert Join(parts, ';') == Line(e) by {
      assert parts[1..][1..] == [e.meaning];
      assert Join(parts[1..][1..], ';') == e.meaning;
      assert Join(parts[1..], ';') == e.example + ";" + e.meaning;
    }
    SplitJoin(parts, ';');
  }

  /** The parsing step of `loadVocabulary`: entry `i` is line `i` of the
      trimmed text read by `ParseLine`, so a blank file still yields one
      (all-empty) entry; every entry is well formed. */
  function Parse(text: string): (entries: seq<Entry>)
    ensures |entries| == Count(Trim(text), '\n') + 1
    ensures forall i :: 0 <= i < |entries| ==> WellFormed(entries[i])
    ensures forall i :: 0 <= i < |entries| ==> entries[i] == ParseLine(Split(Trim(text), '\n')[i])
  {
    var lines := Split(Trim(text), '\n');
    var entries := ParseLines(lines);
    EntriesWellFormed(lines, entries);
    entries
  }

  /** `lines.map(...)`: each line read by `ParseLine`, in order. */
  function ParseLines(lines: seq<string>): (entries: seq<Entry>)
    ensures |entries| == |lines|
    ensures forall i :: 0 <= i < |lines| ==> entries[i] == ParseLine(lines[i])
  {
    seq(|lines|, i requires 0 <= i < |lines| => ParseLine(lines[i]))
  }

  /** Lines without line breaks give well-formed entries. */
  lemma EntriesWellFormed(lines: seq<string>, entries: seq<Entry>)
    requires forall i :: 0 <= i < |lines| ==> '\n' !in lines[i]
    requires |entries| == |lines|
    requires forall i :: 0 <= i < |lines| ==> entries[i] == ParseLine(lines[i])
    ensures forall i :: 0 <= i < |entries| ==> WellFormed(entries[i])
  {
    forall i | 0 <= i < |entries|
      ensures WellFormed(entries[i])
    {
      ParseLineNoBreak(lines[i]);
    }
  }

  /** A line without line breaks gives fields without line breaks. */
  lemma ParseLineNoBreak(line: string)
    requires '\n' !in line
    ensures WellFormed(ParseLine(line))
  {
    var e := ParseLine(line);
    var padded := line + ";;";
    assert '\n' !in padded;
    assert Line(e) == padded[..|Line(e)|];
    assert forall k :: 0 <= k < |e.word| ==> e.word[k] == Line(e)[k];
    assert forall k :: 0 <= k < |e.example| ==> e.example[k] == Line(e)[|e.word| + 1 + k];
    assert forall k :: 0 <= k < |e.meaning| ==> e.meaning[k] == Line(e)[|e.word| + |e.example| + 2 + k];
  }

  /** The file text that stores `entries`, one line each. */
  function Serialize(entries: seq<Entry>): string {
    Join(seq(|entries|, i requires 0 <= i < |entries| => Line(entries[i])), '\n')
  }

  /** An empty or blank file reads as a single entry with three empty
      fields. */
  lemma ParseBlank(text: string)
    requires AllSpace(text)
    ensures Parse(text) == [Entry([], [], [])]
  {
    TrimAllSpace(text);
    assert Split([], '\n') == [[]];
    assert Split([], ';') == [[]];
  }

  /** Writing a non-empty list of well-formed entries and reading it back
      gives the same list, provided the written text has no white space at
      either end for the trim to remove. */
  lemma ParseSerialize(entries: seq<Entry>)
    requires |entries| >= 1
    requires forall i :: 0 <= i < |entries| ==> WellFormed(entries[i])
    requires IsTrimmed(Serialize(entries))
    ensures Parse(Serialize(entries)) == entries
  {
    var lines := seq(|entries|, i requires 0 <= i < |entries| => Line(entries[i]));
    var text := Serialize(entries);
    TrimOfTrimmed(text);
    forall i | 0 <= i < |lines|
      ensures '\n' !in lines[i]
    {
      assert forall k :: 0 <= k < |lines[i]| ==> lines[i][k] != '\n';
    }
    SplitJoin(lines, '\n');
    forall i | 0 <= i < |entries|
      ensures Parse(text)[i] == entries[i]
    {
      ParseLineOfLine(entries[i]);
    }
  }
}
