/**
  The backup dump (dump_phrases_backup.py): every phrase row, in id order,
  as one `id<TAB>phrase` line under an `id<TAB>phrase` header, with tabs and
  line breaks inside a phrase turned into spaces so that each line keeps
  exactly two fields; and the rule that decides where the file goes.
*/
module Backup {
  import opened Wrappers
  import opened Decimal
  import opened Ordering

  // ---------------------------------------------------------------------
  // Output path resolution
  // ---------------------------------------------------------------------

  /**
    A POSIX path as pathlib holds it: whether it is rooted, and its components
    (never empty and never ".": repeated and trailing separators and "."
    components are dropped when the string is parsed).
  */
  datatype Path = Path(absolute: bool, parts: seq<string>)

  const DefaultBackupName: string := "phrases_backup.tsv"

  /** The position of the first `c` in `s`, or `|s|` when there is none. */
  function IndexOf(s: string, c: char): (k: nat)
    ensures k <= |s|
    ensures k < |s| ==> s[k] == c
    ensures forall j :: 0 <= j < k ==> s[j] != c
  {
    if s == [] then 0 else if s[0] == c then 0 else 1 + IndexOf(s[1..], c)
  }

  /** The text between separators, as `s.split("/")` gives it. */
  function Segments(s: string): (segs: seq<string>)
    ensures forall i :: 0 <= i < |segs| ==> '/' !in segs[i]
    decreases |s|
  {
    var k := IndexOf(s, '/');
    if k == |s| then [s] else [s[..k]] + Segments(s[k + 1..])
  }

  predicate IsComponent(seg: string)
  {
    seg != "" && seg != "."
  }

  function Components(segs: seq<string>): (parts: seq<string>)
    ensures forall i :: 0 <= i < |parts| ==> IsComponent(parts[i]) && parts[i] in segs
  {
    if segs == [] then []
    else (if IsComponent(segs[0]) then [segs[0]] else []) + Components(segs[1..])
  }

  /** `Path(s)`. */
  function ParsePath(s: string): (p: Path)
    ensures forall i :: 0 <= i < |p.parts| ==> IsComponent(p.parts[i]) && '/' !in p.parts[i]
  {
    Path(|s| > 0 && s[0] == '/', Components(Segments(s)))
  }

  /** `base / p`: an absolute right-hand side replaces the base. */
  function Join(base: Path, p: Path): Path
  {
    if p.absolute then p else Path(base.absolute, base.parts + p.parts)
  }

  /**
    Where the backup is written: `--output` as given when it is absolute,
    under the audio directory when it is relative, and
    `phrases_backup.tsv` in the audio directory when it is absent or empty.
  */
  function ResolveOutputPath(audioDir: string, output: Option<string>): (out: Path)
    ensures output.Some? && output.value != "" && output.value[0] == '/' ==>
              out == ParsePath(output.value)
    ensures output.Some? && output.value != "" && output.value[0] != '/' ==>
              out.absolute == ParsePath(audioDir).absolute &&
              out.parts == ParsePath(audioDir).parts + ParsePath(output.value).parts
    ensures (output.None? || output.value == "") ==>
              out.absolute == ParsePath(audioDir).absolute &&
              out.parts == ParsePath(audioDir).parts + [DefaultBackupName]
  {
    var dir := ParsePath(audioDir);
    if output.Some? && output.value != "" then
      Join(dir, ParsePath(output.value))
    else
      SingleComponent(DefaultBackupName);
      Join(dir, ParsePath(DefaultBackupName))
  }

  /** A plain file name parses to a relative path of that one component. */
  lemma SingleComponent(name: string)
    requires IsComponent(name) && '/' !in name
    ensures ParsePath(name) == Path(false, [name])
  {
    assert IndexOf(name, '/') == |name|;
    assert Segments(name) == [name];
    assert name[0] in name;
    assert Components([name]) == [name] by {
      assert [name][1..] == [];
    }
  }

  /** No component steps up to a parent directory. */
  predicate NoParentSteps(parts: seq<string>)
  {
    forall i :: 0 <= i < |parts| ==> parts[i] != ".."
  }

  /**
    Unless `--output` is absolute, the path of the backup starts with the
    components of the audio directory. Components are not collapsed, so the
    file stays inside that directory when `--output` has no `..` component.
  */
  lemma ResolvedUnderAudioDir(audioDir: string, output: Option<string>)
    requires output.None? || output.value == "" || output.value[0] != '/'
    ensures var out := ResolveOutputPath(audioDir, output);
      out.absolute == ParsePath(audioDir).absolute &&
      ParsePath(audioDir).parts <= out.parts
    ensures var out := ResolveOutputPath(audioDir, output);
      (output.None? || output.value == "" || NoParentSteps(ParsePath(output.value).parts)) ==>
      NoParentSteps(out.parts[|ParsePath(audioDir).parts|..])
  {
    var dir := ParsePath(audioDir);
    var out := ResolveOutputPath(audioDir, output);
    assert out.parts[..|dir.parts|] == dir.parts;
    if output.Some? && output.value != "" {
      assert out.parts[|dir.parts|..] == ParsePath(output.value).parts;
    } else {
      assert out.parts[|dir.parts|..] == [DefaultBackupName];
    }
  }

  /**
    A relative `--output` that steps up out of the audio directory: the
    resolved path keeps the `..`, exactly as pathlib does.
  */
  lemma ParentStepKept()
    ensures ResolveOutputPath("a", Some("../b")) == Path(false, ["a", "..", "b"])
  {
    SingleComponent("a");
    StepUpParsed();
    assert ["a"] + ["..", "b"] == ["a", "..", "b"];
  }

  lemma StepUpParsed()
    ensures ParsePath("../b") == Path(false, ["..", "b"])
  {
    assert "../b" == ".." + "/" + "b";
    SegmentsSplit("..", "b");
    WholeSegment("b");
    var segs: seq<string> := ["..", "b"];
    assert segs[1..] == ["b"] && segs[1..][1..] == [];
    assert Components(segs) == segs;
  }

  /** A string without a separator is one segment. */
  lemma WholeSegment(name: string)
    requires '/' !in name
    ensures Segments(name) == [name]
  {
    assert IndexOf(name, '/') == |name|;
  }

  /** The text before the first separator is the first segment. */
  lemma SegmentsSplit(first: string, rest: string)
    requires '/' !in first
    ensures Segments(first + "/" + rest) == [first] + Segments(rest)
  {
    var s := first + "/" + rest;
    IndexOfFirst(first, '/', rest);
    assert s[..|first|] == first;
    assert s[|first| + 1..] == rest;
  }

  // ---------------------------------------------------------------------
  // The dump
  // ---------------------------------------------------------------------

  /** A row of `SELECT id, phrase FROM phrases`; the phrase column is nullable. */
  datatype PhraseRow = PhraseRow(id: int, phrase: Option<string>)

  /** A line of the backup as a reader splits it back into its two fields. */
  datatype Record = Record(id: int, text: string)

  const HeaderFields: string := "id\tphrase"
  const Header: string := HeaderFields + "\n"

  function RowsFor(table: map<int, Option<string>>, ids: seq<int>): (rows: seq<PhraseRow>)
    requires forall i :: 0 <= i < |ids| ==> ids[i] in table
    ensures |rows| == |ids|
    ensures forall i :: 0 <= i < |ids| ==> rows[i] == PhraseRow(ids[i], table[ids[i]])
  {
    if ids == [] then [] else [PhraseRow(ids[0], table[ids[0]])] + RowsFor(table, ids[1..])
  }

  /** `SELECT id, phrase FROM phrases ORDER BY id`: every row once, by ascending id. */
  function SelectAll(table: map<int, Option<string>>): (rows: seq<PhraseRow>)
    ensures |rows| == |table|
    ensures forall i, j :: 0 <= i < j < |rows| ==> rows[i].id < rows[j].id
    ensures forall i :: 0 <= i < |rows| ==> rows[i].id in table && rows[i] == PhraseRow(rows[i].id, table[rows[i].id])
  {
    SortedKeys(table);
    RowsFor(table, SortedElements(table.Keys))
  }

  /** The ids of the table in ascending order, each of them a key. */
  lemma SortedKeys(table: map<int, Option<string>>)
    ensures var ids := SortedElements(table.Keys);
      |ids| == |table| && Increasing(ids) && forall i :: 0 <= i < |ids| ==> ids[i] in table
  {
    var ids := SortedElements(table.Keys);
    forall i | 0 <= i < |ids|
      ensures ids[i] in table
    {
      assert ids[i] in ids;
    }
  }

  /** No row of the table is left out of the query. */
  lemma SelectAllCovers(table: map<int, Option<string>>, id: int)
    requires id in table
    ensures PhraseRow(id, table[id]) in SelectAll(table)
  {
    var ids := SortedElements(table.Keys);
    assert id in ids;
    var i :| 0 <= i < |ids| && ids[i] == id;
    assert SelectAll(table)[i] == PhraseRow(id, table[id]);
  }

  function Replace(s: string, from: char, to: char): (r: string)
    ensures |r| == |s|
    ensures forall i :: 0 <= i < |s| ==> r[i] == if s[i] == from then to else s[i]
  {
    if s == [] then [] else [if s[0] == from then to else s[0]] + Replace(s[1..], from, to)
  }

  predicate IsBreak(c: char)
  {
    c == '\t' || c == '\r' || c == '\n'
  }

  /** `phr.replace("\t", " ").replace("\r", " ").replace("\n", " ")`. */
  function Sanitize(s: string): (r: string)
    ensures |r| == |s|
    ensures forall i :: 0 <= i < |s| ==> !IsBreak(r[i])
    ensures forall i :: 0 <= i < |s| ==> r[i] == if IsBreak(s[i]) then ' ' else s[i]
  {
    Replace(Replace(Replace(s, '\t', ' '), '\r', ' '), '\n', ' ')
  }

  lemma SanitizeIdempotent(s: string)
    ensures Sanitize(Sanitize(s)) == Sanitize(s)
  {
  }

  /** The second field: `(row["phrase"] or "")`, sanitised. A NULL phrase is the empty string. */
  function Cell(phrase: Option<string>): (c: string)
    ensures phrase.None? ==> c == ""
    ensures phrase.Some? ==> |c| == |phrase.value|
    ensures forall i :: 0 <= i < |c| ==> !IsBreak(c[i])
    ensures '\t' !in c && '\n' !in c
  {
    Sanitize(phrase.GetOr(""))
  }

  /** One data line without its terminating newline. */
  function LineText(row: PhraseRow): string
  {
    IntToString(row.id) + "\t" + Cell(row.phrase)
  }

  function Line(row: PhraseRow): string
  {
    LineText(row) + "\n"
  }

  function Body(rows: seq<PhraseRow>): string
  {
    if rows == [] then "" else Line(rows[0]) + Body(rows[1..])
  }

  /** The whole file. */
  function Render(rows: seq<PhraseRow>): string
  {
    Header + Body(rows)
  }

  lemma {:induction false} BodyAppend(a: seq<PhraseRow>, b: seq<PhraseRow>)
    ensures Body(a + b) == Body(a) + Body(b)
  {
    if a == [] {
      assert a + b == b;
    } else {
      assert (a + b)[1..] == a[1..] + b;
      BodyAppend(a[1..], b);
    }
  }

  /**
    The write loop (`for row in cur: fout.write(...)`): the header, then one
    line per row in cursor order, counting the rows written.
  */
  method WriteBackup(rows: seq<PhraseRow>) returns (text: string, rowsWritten: nat)
    ensures text == Render(rows)
    ensures rowsWritten == |rows|
  {
    text := Header;
    rowsWritten := 0;
    assert rows[..0] == [];
    for k := 0 to |rows|
      invariant text == Render(rows[..k])
      invariant rowsWritten == k
    {
      RenderSnoc(rows, k);
      text := text + Line(rows[k]);
      rowsWritten := rowsWritten + 1;
    }
    assert rows[..|rows|] == rows;
  }

  /** Writing one more line extends the rendering of the rows so far by that line. */
  lemma RenderSnoc(rows: seq<PhraseRow>, k: nat)
    requires k < |rows|
    ensures Render(rows[..k + 1]) == Render(rows[..k]) + Line(rows[k])
  {
    assert rows[..k + 1] == rows[..k] + [rows[k]];
    BodyAppend(rows[..k], [rows[k]]);
    assert Body([rows[k]]) == Line(rows[k]) by {
      assert [rows[k]][1..] == [];
    }
  }

  datatype BackupError = AudioDirNotFound

  datatype BackupFile = BackupFile(path: Path, text: string, rowsWritten: nat)

  /**
    `main`: a missing audio directory stops the script before the database is
    read; otherwise the table is dumped to the resolved path.
  */
  method DumpBackup(audioDir: string, audioDirExists: bool, output: Option<string>,
                    table: map<int, Option<string>>)
    returns (r: Result<BackupFile, BackupError>)
    ensures !audioDirExists <==> r == Failure(AudioDirNotFound)
    ensures r.Success? ==>
      r.value.path == ResolveOutputPath(audioDir, output) &&
      r.value.text == Render(SelectAll(table)) &&
      r.value.rowsWritten == |table|
  {
    if !audioDirExists {
      return Failure(AudioDirNotFound);
    }
    var path := ResolveOutputPath(audioDir, output);
    var rows := SelectAll(table);
    var text, rowsWritten := WriteBackup(rows);
    r := Success(BackupFile(path, text, rowsWritten));
  }

  // ---------------------------------------------------------------------
  // Reading a backup back
  // ---------------------------------------------------------------------

  /** Splits newline-terminated lines; text after the last newline makes it fail. */
  function ReadLines(s: string): Option<seq<string>>
    decreases |s|
  {
    if s == [] then Some([])
    else
      var k := IndexOf(s, '\n');
      if k == |s| then None
      else match ReadLines(s[k + 1..])
        case None => None
        case Some(rest) => Some([s[..k]] + rest)
  }

  /** A data line: an integer, one tab, and a field without tabs. */
  function ParseRecord(line: string): Option<Record>
  {
    var k := IndexOf(line, '\t');
    if k == |line| || '\t' in line[k + 1..] then None
    else match ParseInt(line[..k])
      case None => None
      case Some(id) => Some(Record(id, line[k + 1..]))
  }

  function ParseRecords(lines: seq<string>): Option<seq<Record>>
  {
    if lines == [] then Some([])
    else match (ParseRecord(lines[0]), ParseRecords(lines[1..]))
      case (Some(rec), Some(rest)) => Some([rec] + rest)
      case _ => None
  }

  /** Reads a backup file: the header line, then records. */
  function ParseBackup(text: string): Option<seq<Record>>
  {
    match ReadLines(text)
    case Some(lines) =>
      if |lines| > 0 && lines[0] == HeaderFields then ParseRecords(lines[1..]) else None
    case None => None
  }

  /** What each row should come back as. */
  function Records(rows: seq<PhraseRow>): (recs: seq<Record>)
    ensures |recs| == |rows|
    ensures forall i :: 0 <= i < |rows| ==> recs[i] == Record(rows[i].id, Cell(rows[i].phrase))
  {
    if rows == [] then [] else [Record(rows[0].id, Cell(rows[0].phrase))] + Records(rows[1..])
  }

  function LineTexts(rows: seq<PhraseRow>): seq<string>
  {
    if rows == [] then [] else [LineText(rows[0])] + LineTexts(rows[1..])
  }

  lemma {:induction false} IndexOfFirst(p: string, c: char, rest: string)
    requires c !in p
    ensures IndexOf(p + [c] + rest, c) == |p|
  {
    if p != [] {
      assert (p + [c] + rest)[1..] == p[1..] + [c] + rest;
      IndexOfFirst(p[1..], c, rest);
    }
  }

  lemma NoBreaksInLineText(row: PhraseRow)
    ensures '\n' !in LineText(row)
  {
    var t := LineText(row);
    var idText := IntToString(row.id);
    var cell := Cell(row.phrase);
    assert t == idText + "\t" + cell;
    forall i | 0 <= i < |t|
      ensures t[i] != '\n'
    {
      if i < |idText| {
        assert t[i] == idText[i];
        assert IsDigit(idText[i]) || idText[i] == '-';
      } else if i == |idText| {
        assert t[i] == '\t';
      } else {
        assert t[i] == cell[i - |idText| - 1];
        assert !IsBreak(cell[i - |idText| - 1]);
      }
    }
  }

  lemma {:induction false} ReadLinesOfLines(prefix: string, rest: string, lines: seq<string>)
    requires '\n' !in prefix
    requires ReadLines(rest) == Some(lines)
    ensures ReadLines(prefix + "\n" + rest) == Some([prefix] + lines)
  {
    var s := prefix + "\n" + rest;
    IndexOfFirst(prefix, '\n', rest);
    assert s[..|prefix|] == prefix;
    assert s[|prefix| + 1..] == rest;
  }

  lemma {:induction false} ReadLinesOfBody(rows: seq<PhraseRow>)
    ensures ReadLines(Body(rows)) == Some(LineTexts(rows))
  {
    if rows != [] {
      ReadLinesOfBody(rows[1..]);
      NoBreaksInLineText(rows[0]);
      ReadLinesOfLines(LineText(rows[0]), Body(rows[1..]), LineTexts(rows[1..]));
    }
  }

  /** Each line splits back into exactly the id and the cleaned phrase. */
  lemma ParseLineText(row: PhraseRow)
    ensures ParseRecord(LineText(row)) == Some(Record(row.id, Cell(row.phrase)))
  {
    var idText := IntToString(row.id);
    var cell := Cell(row.phrase);
    var line := LineText(row);
    assert '\t' !in idText;
    IndexOfFirst(idText, '\t', cell);
    assert line == idText + ['\t'] + cell;
    assert line[..|idText|] == idText;
    assert line[|idText| + 1..] == cell;
    IntToStringRoundTrip(row.id);
  }

  lemma {:induction false} ParseLineTexts(rows: seq<PhraseRow>)
    ensures ParseRecords(LineTexts(rows)) == Some(Records(rows))
  {
    if rows != [] {
      ParseLineText(rows[0]);
      ParseLineTexts(rows[1..]);
      assert LineTexts(rows)[1..] == LineTexts(rows[1..]);
    }
  }

  /** A reader of the backup gets every row back, in order, as its id and cleaned phrase. */
  lemma BackupRoundTrip(rows: seq<PhraseRow>)
    ensures ParseBackup(Render(rows)) == Some(Records(rows))
  {
    ReadLinesOfBody(rows);
    assert '\n' !in HeaderFields;
    ReadLinesOfLines(HeaderFields, Body(rows), LineTexts(rows));
    assert Render(rows) == HeaderFields + "\n" + Body(rows);
    ParseLineTexts(rows);
  }

  /**
    The dump of a table reads back as one record per row, in ascending id
    order, each holding the row's id and its cleaned phrase.
  */
  lemma BackupListsTable(table: map<int, Option<string>>)
    ensures var recs := ParseBackup(Render(SelectAll(table)));
      recs.Some? &&
      |recs.value| == |table| &&
      (forall i, j :: 0 <= i < j < |recs.value| ==> recs.value[i].id < recs.value[j].id) &&
      (forall i :: 0 <= i < |recs.value| ==>
         recs.value[i].id in table && recs.value[i].text == Cell(table[recs.value[i].id]))
  {
    var rows := SelectAll(table);
    BackupRoundTrip(rows);
    var recs := Records(rows);
    forall i | 0 <= i < |recs|
      ensures recs[i].id in table && recs[i].text == Cell(table[recs[i].id])
    {
      assert recs[i] == Record(rows[i].id, Cell(rows[i].phrase));
      assert rows[i] == PhraseRow(rows[i].id, table[rows[i].id]);
    }
    forall i, j | 0 <= i < j < |recs|
      ensures recs[i].id < recs[j].id
    {
      assert recs[i].id == rows[i].id && recs[j].id == rows[j].id;
    }
  }
}
