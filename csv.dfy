/**
 * The line-level logic of the library's comma-separated interchange format:
 * what `export` writes for one row, how `import_` takes one line apart, and
 * the `.csv` suffix rule both apply to the file name.
 */
module Csv {
  import opened Wrappers
  import opened GameRecords

  /** `s.endswith(suffix)` */
  predicate EndsWith(s: string, suffix: string)
  {
    |suffix| <= |s| && s[|s| - |suffix|..] == suffix
  }

  /** The file `import_` and `export` open for `path`: `.csv` is appended unless already there. */
  function WithCsv(path: string): (file: string)
    ensures EndsWith(file, ".csv")
    ensures file == path <==> EndsWith(path, ".csv")
    ensures file == path || file == path + ".csv"
  {
    if EndsWith(path, ".csv") then path else path + ".csv"
  }

  /** The rule names the same file when applied again. */
  lemma WithCsvIdempotent(path: string)
    ensures WithCsv(WithCsv(path)) == WithCsv(path)
  {
  }

  /** Python's `str.isspace`, which holds for exactly these characters: what `rstrip()` removes. */
  predicate IsSpace(c: char)
  {
    || c as int in {0x09, 0x0A, 0x0B, 0x0C, 0x0D, 0x1C, 0x1D, 0x1E, 0x1F, 0x20, 0x85, 0xA0}
    || c as int in {0x1680, 0x2028, 0x2029, 0x202F, 0x205F, 0x3000}
    || 0x2000 <= c as int <= 0x200A
  }

  /** `s.rstrip()`: `s` without its trailing whitespace. */
  function RStrip(s: string): (r: string)
    ensures r <= s
    ensures r == [] || !IsSpace(r[|r| - 1])
    ensures forall i :: |r| <= i < |s| ==> IsSpace(s[i])
    decreases |s|
  {
    if s != [] && IsSpace(s[|s| - 1]) then RStrip(s[..|s| - 1]) else s
  }

  /** `','.join(parts)` */
  function Join(parts: seq<string>): string
  {
    if parts == [] then ""
    else if |parts| == 1 then parts[0]
    else parts[0] + "," + Join(parts[1..])
  }

  /** `s.split(',')`: the pieces between commas; never empty. */
  function Split(s: string): (parts: seq<string>)
    ensures |parts| == multiset(s)[','] + 1
    ensures forall k :: 0 <= k < |parts| ==> ',' !in parts[k]
  {
    if s == [] then [""]
    else
      var rest := Split(s[1..]);
      assert s == [s[0]] + s[1..];
      if s[0] == ',' then [""] + rest
      else [[s[0]] + rest[0]] + rest[1..]
  }

  /** Joining the pieces puts back the commas `split` removed. */
  lemma {:induction false} JoinSplit(s: string)
    ensures Join(Split(s)) == s
  {
    if s != [] {
      assert s == [s[0]] + s[1..];
      JoinSplit(s[1..]);
      SplitCons(s[0], s[1..]);
      if s[0] == ',' {
        JoinCons("", Split(s[1..]));
      } else {
        JoinExtend(s[0], Split(s[1..]));
      }
    }
  }

  lemma JoinCons(a: string, rest: seq<string>)
    requires rest != []
    ensures Join([a] + rest) == a + "," + Join(rest)
  {
    assert ([a] + rest)[1..] == rest;
  }

  lemma JoinExtend(c: char, rest: seq<string>)
    requires rest != []
    ensures Join([[c] + rest[0]] + rest[1..]) == [c] + Join(rest)
  {
    var parts := [[c] + rest[0]] + rest[1..];
    assert parts[1..] == rest[1..];
  }

  /** One step of `split`: the first character either ends a piece or starts it. */
  lemma SplitCons(c: char, t: string)
    ensures Split([c] + t) == if c == ',' then [""] + Split(t) else [[c] + Split(t)[0]] + Split(t)[1..]
  {
    assert ([c] + t)[1..] == t;
  }

  /** Splitting a comma-free piece, a comma and the rest. */
  lemma {:induction false} SplitAfterPiece(a: string, t: string)
    requires ',' !in a
    ensures Split(a + "," + t) == [a] + Split(t)
  {
    if a == [] {
      assert a + "," + t == [','] + t;
      SplitCons(',', t);
    } else {
      assert [a[0]] + a[1..] == a;
      var t' := a[1..] + "," + t;
      assert a + "," + t == [a[0]] + t';
      SplitAfterPiece(a[1..], t);
      var rest := Split(t');
      assert rest[0] == a[1..] && rest[1..] == Split(t);
      SplitCons(a[0], t');
    }
  }

  /** A comma-free string splits into itself. */
  lemma {:induction false} SplitPiece(a: string)
    requires ',' !in a
    ensures Split(a) == [a]
  {
    if a != [] {
      SplitPiece(a[1..]);
      SplitCons(a[0], a[1..]);
      assert a == [a[0]] + a[1..];
    }
  }

  /** Splitting undoes joining when no piece holds a comma. */
  lemma {:induction false} SplitJoin(parts: seq<string>)
    requires parts != []
    requires forall k :: 0 <= k < |parts| ==> ',' !in parts[k]
    ensures Split(Join(parts)) == parts
  {
    if |parts| == 1 {
      SplitPiece(parts[0]);
    } else {
      SplitJoin(parts[1..]);
      SplitAfterPiece(parts[0], Join(parts[1..]));
      assert parts == [parts[0]] + parts[1..];
    }
  }

  /** The order `export` writes a row's columns in. */
  function Columns(r: Record): seq<string>
  {
    [r.platform, r.platformId, r.title, r.titleId, r.cover, r.coverId, r.releaseDate, r.genres]
  }

  /** One line of the exported file: the eight columns, each followed by a comma, then a newline. */
  function FormatLine(r: Record): string
  {
    Join(Columns(r) + [""]) + "\n"
  }

  /** The exported line spelled out: each of the eight columns followed by a comma, then a newline. */
  lemma FormatLineFields(r: Record)
    ensures FormatLine(r)
         == r.platform + "," + (r.platformId + "," + (r.title + "," + (r.titleId + "," + (r.cover + ","
            + (r.coverId + "," + (r.releaseDate + "," + (r.genres + ","))))))) + "\n"
  {
    var p8 := [""];
    var p7 := [r.genres] + p8;
    var p6 := [r.releaseDate] + p7;
    var p5 := [r.coverId] + p6;
    var p4 := [r.cover] + p5;
    var p3 := [r.titleId] + p4;
    var p2 := [r.title] + p3;
    var p1 := [r.platformId] + p2;
    var p0 := [r.platform] + p1;
    JoinCons(r.genres, p8);
    JoinCons(r.releaseDate, p7);
    JoinCons(r.coverId, p6);
    JoinCons(r.cover, p5);
    JoinCons(r.titleId, p4);
    JoinCons(r.title, p3);
    JoinCons(r.platformId, p2);
    JoinCons(r.platform, p1);
    assert Columns(r) + [""] == p0;
  }

  /** The lines `export` writes for rows listed in this order. */
  function ExportLines(games: seq<Game>): (lines: seq<string>)
    ensures |lines| == |games|
    ensures forall i :: 0 <= i < |games| ==> lines[i] == FormatLine(games[i].record)
  {
    seq(|games|, i requires 0 <= i < |games| => FormatLine(games[i].record))
  }

  /** The text of a file written by successive `write` calls. */
  function Concat(lines: seq<string>): string
  {
    if lines == [] then "" else lines[0] + Concat(lines[1..])
  }

  lemma {:induction false} ConcatAppend(lines: seq<string>, line: string)
    ensures Concat(lines + [line]) == Concat(lines) + line
  {
    if lines != [] {
      assert (lines + [line])[1..] == lines[1..] + [line];
      ConcatAppend(lines[1..], line);
    }
  }

  /** Reading a file in text mode: each `"\r\n"` and each lone `"\r"` becomes `"\n"`. */
  function Translate(s: string): (t: string)
    ensures '\r' !in t
    decreases |s|
  {
    if s == [] then ""
    else if s[0] == '\r' then "\n" + Translate(if |s| > 1 && s[1] == '\n' then s[2..] else s[1..])
    else [s[0]] + Translate(s[1..])
  }

  /** Text without a carriage return reads as itself. */
  lemma {:induction false} TranslateKeeps(s: string)
    requires '\r' !in s
    ensures Translate(s) == s
  {
    if s != [] {
      TranslateKeeps(s[1..]);
      assert s == [s[0]] + s[1..];
    }
  }

  /** The length of the first line of `s`: up to and including its first `"\n"`, or all of `s`. */
  function LineEnd(s: string): (k: nat)
    requires s != []
    ensures 0 < k <= |s|
    ensures '\n' !in s[..k - 1]
    ensures k < |s| ==> s[k - 1] == '\n'
  {
    if s[0] == '\n' || |s| == 1 then 1
    else
      var k := 1 + LineEnd(s[1..]);
      assert s[..k - 1] == [s[0]] + s[1..][..k - 2];
      k
  }

  /** `for line in infile`: the lines of the text, each with its `"\n"`, the last one possibly without. */
  function SplitLines(s: string): (lines: seq<string>)
    ensures Concat(lines) == s
    decreases |s|
  {
    if s == [] then []
    else
      var k := LineEnd(s);
      var rest := SplitLines(s[k..]);
      assert ([s[..k]] + rest)[1..] == rest;
      assert s[..k] + s[k..] == s;
      [s[..k]] + rest
  }

  /** The lines `import_` iterates over in a file holding `text`. */
  function ReadLines(text: string): seq<string>
  {
    SplitLines(Translate(text))
  }

  /** A line ending in its only newline is read as one line. */
  lemma LineFirst(body: string, rest: string)
    requires '\n' !in body
    ensures SplitLines(body + "\n" + rest) == [body + "\n"] + SplitLines(rest)
  {
    var s := body + "\n" + rest;
    var k := LineEnd(s);
    assert s[|body|] == '\n';
    assert s[..k] == body + "\n";
    assert s[k..] == rest;
  }

  /** One exported line: some text without line breaks, then a newline. */
  predicate IsLine(line: string)
  {
    line != [] && line[|line| - 1] == '\n' && '\n' !in line[..|line| - 1] && '\r' !in line
  }

  /** A file written as whole lines is read back as those lines. */
  lemma {:induction false} ReadWrittenLines(lines: seq<string>)
    requires forall i :: 0 <= i < |lines| ==> IsLine(lines[i])
    ensures '\r' !in Concat(lines)
    ensures ReadLines(Concat(lines)) == lines
  {
    if lines != [] {
      var line := lines[0];
      ReadWrittenLines(lines[1..]);
      assert IsLine(line);
      assert line == line[..|line| - 1] + "\n";
      LineFirst(line[..|line| - 1], Concat(lines[1..]));
      TranslateKeeps(Concat(lines));
      assert lines == [line] + lines[1..];
    }
  }

  /** No column holds a line break. */
  predicate NoLineBreaks(r: Record)
  {
    forall k :: 0 <= k < |Columns(r)| ==> '\n' !in Columns(r)[k] && '\r' !in Columns(r)[k]
  }

  /** Joining with commas adds no character but the comma. */
  lemma {:induction false} JoinAvoids(parts: seq<string>, c: char)
    requires c != ','
    requires forall k :: 0 <= k < |parts| ==> c !in parts[k]
    ensures c !in Join(parts)
  {
    if |parts| > 1 {
      JoinAvoids(parts[1..], c);
    }
  }

  /** The line exported for a row without line breaks in its values is a single line. */
  lemma FormatIsLine(r: Record)
    requires NoLineBreaks(r)
    ensures IsLine(FormatLine(r))
  {
    var parts := Columns(r) + [""];
    JoinAvoids(parts, '\n');
    JoinAvoids(parts, '\r');
    var line := FormatLine(r);
    assert line[..|line| - 1] == Join(parts);
  }

  /** Reading the exported file gives back the exported lines, when no value holds a line break. */
  lemma ExportedFileReadsBack(games: seq<Game>)
    requires forall g :: g in games ==> NoLineBreaks(g.record)
    ensures ReadLines(Concat(ExportLines(games))) == ExportLines(games)
  {
    var lines := ExportLines(games);
    forall i | 0 <= i < |lines|
      ensures IsLine(lines[i])
    {
      FormatIsLine(games[i].record);
    }
    ReadWrittenLines(lines);
  }

  /** Writing one more row's line extends the exported text by that line. */
  lemma ExportTextAppend(games: seq<Game>, g: Game)
    ensures Concat(ExportLines(games + [g])) == Concat(ExportLines(games)) + FormatLine(g.record)
  {
    assert ExportLines(games + [g]) == ExportLines(games) + [FormatLine(g.record)];
    ConcatAppend(ExportLines(games), FormatLine(g.record));
  }

  /** `import_` indexes `ln[7]`: a line with fewer fields raises an index error. */
  datatype ParseError = MissingFields(found: nat)

  /** The fields `import_` reads from one line: `line.rstrip().split(',')`. */
  function Fields(line: string): seq<string>
  {
    Split(RStrip(line))
  }

  /** The row `import_` adds for one line: platform, platform id, title, title
      id, cover, cover id, release date and genres are the fields at 0..7. */
  function ParseLine(line: string): Result<Record, ParseError>
  {
    var ln := Fields(line);
    if |ln| < 8 then Failure(MissingFields(|ln|))
    else Success(Record(ln[0], ln[1], ln[2], ln[3], ln[4], ln[5], ln[6], ln[7]))
  }

  /** ParseLine in terms of the split fields. */
  lemma ParseLineReads(line: string)
    ensures var ln := Split(RStrip(line));
      ParseLine(line) == if |ln| < 8 then Failure(MissingFields(|ln|))
                         else Success(Record(ln[0], ln[1], ln[2], ln[3], ln[4], ln[5], ln[6], ln[7]))
  {
  }

  /** A line is rejected exactly when it has fewer than seven commas once trailing whitespace is gone. */
  lemma ParseLineFails(line: string)
    ensures ParseLine(line).Failure? <==> multiset(RStrip(line))[','] < 7
  {
  }

  /** No column holds the separator. */
  predicate NoCommas(r: Record)
  {
    forall k :: 0 <= k < |Columns(r)| ==> ',' !in Columns(r)[k]
  }

  /** Reading back an exported line gives the row's eight values. */
  lemma ParseFormat(r: Record)
    requires NoCommas(r)
    ensures ParseLine(FormatLine(r)) == Success(r)
  {
    var body := Join(Columns(r) + [""]);
    var line := body + "\n";
    assert line[..|line| - 1] == body;
    assert body == r.platform + "," + Join((Columns(r) + [""])[1..]);
    assert RStrip(line) == body by {
      assert RStrip(line) == RStrip(body);
      assert body != [] && body[|body| - 1] == ',' by {
        JoinEndsWithSeparator(Columns(r));
      }
    }
    SplitJoin(Columns(r) + [""]);
  }

  /** Joining with an empty last piece leaves a trailing comma. */
  lemma {:induction false} JoinEndsWithSeparator(parts: seq<string>)
    requires parts != []
    ensures var s := Join(parts + [""]); s != [] && s[|s| - 1] == ','
  {
    if |parts| > 1 {
      JoinEndsWithSeparator(parts[1..]);
      assert (parts + [""])[1..] == parts[1..] + [""];
    }
  }

  /** The rows `import_` adds before it stops: one per line, up to the first
      line that fails to parse. */
  function ParsePrefix(lines: seq<string>): (recs: seq<Record>)
    ensures |recs| <= |lines|
  {
    if lines == [] then []
    else
      match ParseLine(lines[0])
      case Failure(_) => []
      case Success(r) => [r] + ParsePrefix(lines[1..])
  }

  /** Each parsed record is its line's, and parsing stops only at a line that fails. */
  lemma {:induction false} ParsePrefixLines(lines: seq<string>)
    ensures var recs := ParsePrefix(lines);
      && (forall i :: 0 <= i < |recs| ==> ParseLine(lines[i]) == Success(recs[i]))
      && (|recs| < |lines| ==> ParseLine(lines[|recs|]).Failure?)
  {
    if lines != [] && ParseLine(lines[0]).Success? {
      ParsePrefixLines(lines[1..]);
      var recs, rest := ParsePrefix(lines), ParsePrefix(lines[1..]);
      assert recs == [ParseLine(lines[0]).value] + rest;
      forall i | 1 <= i < |recs|
        ensures ParseLine(lines[i]) == Success(recs[i])
      {
        assert lines[i] == lines[1..][i - 1] && recs[i] == rest[i - 1];
      }
      if |recs| < |lines| {
        assert lines[|recs|] == lines[1..][|rest|];
      }
    }
  }

  /** When every line parses, the import reads every line's record. */
  lemma {:induction false} ParsePrefixAll(lines: seq<string>, recs: seq<Record>)
    requires |lines| == |recs|
    requires forall i :: 0 <= i < |lines| ==> ParseLine(lines[i]) == Success(recs[i])
    ensures ParsePrefix(lines) == recs
  {
    if lines != [] {
      assert ParseLine(lines[0]) == Success(recs[0]);
      ParsePrefixAll(lines[1..], recs[1..]);
      assert recs == [recs[0]] + recs[1..];
    }
  }

  /** Importing the lines export wrote gives back every exported row's values, in order. */
  lemma ImportReadsExport(games: seq<Game>)
    requires forall g :: g in games ==> NoCommas(g.record)
    ensures ParsePrefix(ExportLines(games)) == RecordsOf(games)
  {
    var lines, recs := ExportLines(games), RecordsOf(games);
    forall i | 0 <= i < |lines|
      ensures ParseLine(lines[i]) == Success(recs[i])
    {
      ParseFormat(games[i].record);
    }
    ParsePrefixAll(lines, recs);
  }
}
