/** Catalog ingest (`create_file_database`): the listing of WISE file paths is
    filtered to intensity frames, each kept path is cut to its file name, and
    one `(prefix, band)` row per file name is inserted into the `files` table,
    in listing order. */
module Catalog {
  import opened Wrappers
  import opened Text
  import opened Sql

  /** The columns an ingest row fills; `id` is assigned by the database. */
  datatype FileEntry = FileEntry(prefix: string, band: string)

  /** Why an ingest stopped early: the kept file name at `position` has no
      character at index 11. */
  datatype IngestOutcome = Ingested | IndexError(position: nat)

  /** A listing line is ingested when it contains `int`. */
  predicate IsIntensityLine(line: string)
  {
    Contains(line, "int")
  }

  /** `[x.split("/")[-1] for x in lines if 'int' in x]`: at most one file
      name per line, none of them containing `/`. */
  function KeptSegments(lines: seq<string>): (names: seq<string>)
    ensures |names| <= |lines|
    ensures forall k :: 0 <= k < |names| ==> '/' !in names[k]
    decreases |lines|
  {
    if |lines| == 0 then []
    else
      var last := lines[|lines| - 1];
      KeptSegments(lines[..|lines| - 1]) + (if IsIntensityLine(last) then [LastSegment(last, '/')] else [])
  }

  /** The positions of the intensity lines of `lines`, in increasing order. */
  function KeptIndices(lines: seq<string>): (idx: seq<nat>)
    ensures forall j :: 0 <= j < |idx| ==> idx[j] < |lines| && IsIntensityLine(lines[idx[j]])
    ensures forall j, j' :: 0 <= j < j' < |idx| ==> idx[j] < idx[j']
    ensures forall i :: 0 <= i < |lines| && IsIntensityLine(lines[i]) ==> i in idx
    decreases |lines|
  {
    if |lines| == 0 then []
    else
      var n := |lines| - 1;
      var front := KeptIndices(lines[..n]);
      assert forall i :: 0 <= i < n ==> lines[..n][i] == lines[i];
      front + (if IsIntensityLine(lines[n]) then [n] else [])
  }

  /** The filter keeps exactly the intensity lines, in listing order, and
      keeps of each only the text after its last `/`. */
  lemma {:induction false} KeptSegmentsSpec(lines: seq<string>)
    ensures var idx := KeptIndices(lines);
      && |KeptSegments(lines)| == |idx|
      && forall j :: 0 <= j < |idx| ==> KeptSegments(lines)[j] == LastSegment(lines[idx[j]], '/')
    decreases |lines|
  {
    if |lines| > 0 {
      var n := |lines| - 1;
      KeptSegmentsSpec(lines[..n]);
      var front := KeptIndices(lines[..n]);
      forall j | 0 <= j < |front| ensures lines[..n][front[j]] == lines[front[j]] {
      }
    }
  }

  /** Filtering a concatenated listing filters each part. */
  lemma {:induction false} KeptSegmentsAppend(a: seq<string>, b: seq<string>)
    ensures KeptSegments(a + b) == KeptSegments(a) + KeptSegments(b)
    decreases |b|
  {
    if |b| == 0 {
      assert a + b == a;
    } else {
      var n := |b| - 1;
      assert (a + b)[..|a + b| - 1] == a + b[..n];
      assert (a + b)[|a + b| - 1] == b[n];
      KeptSegmentsAppend(a, b[..n]);
      var tail := if IsIntensityLine(b[n]) then [LastSegment(b[n], '/')] else [];
      assert KeptSegments(a + b) == KeptSegments(a + b[..n]) + tail;
      assert KeptSegments(b) == KeptSegments(b[..n]) + tail;
    }
  }

  /** `(item[:9], item[11])`: the row taken from one kept file name, or the
      index error Python raises when the name has no character at index 11. */
  function ParseEntry(name: string): (r: Option<FileEntry>)
    ensures r.Some? <==> |name| >= 12
    ensures r.Some? ==> |r.value.prefix| == 9 && |r.value.band| == 1
    ensures r.Some? ==> r.value.prefix + name[9..11] + r.value.band + name[12..] == name
  {
    if |name| < 12 then None
    else
      assert name[..9] + name[9..11] + [name[11]] + name[12..] == name;
      Some(FileEntry(name[..9], [name[11]]))
  }

  /** A WISE single-frame intensity file name: a 9-character scan-and-frame
      prefix, the band digit and the `int` tag. */
  function WiseFrameName(prefix: string, band: char): string
  {
    prefix + "-w" + [band] + "-int-1b.fits"
  }

  /** Parsing a WISE frame name recovers the prefix and the band it was made
      from, and such a name passes the intensity filter. */
  lemma ParseWiseFrameName(prefix: string, band: char)
    requires |prefix| == 9
    ensures ParseEntry(WiseFrameName(prefix, band)) == Some(FileEntry(prefix, [band]))
    ensures IsIntensityLine(WiseFrameName(prefix, band))
  {
    var name := WiseFrameName(prefix, band);
    assert name[..9] == prefix;
    assert name[11] == band;
    assert OccursAt("int", name, 13) by {
      assert name[13..16] == "int";
    }
  }

  /** The rows of a run of kept file names that are all long enough. */
  function Entries(names: seq<string>): (rows: seq<FileEntry>)
    requires forall k :: 0 <= k < |names| ==> |names[k]| >= 12
  {
    seq(|names|, k requires 0 <= k < |names| => ParseEntry(names[k]).value)
  }

  /** The position of the first kept file name too short to parse. */
  function FirstShort(names: seq<string>): (r: Option<nat>)
    ensures r.None? <==> forall k :: 0 <= k < |names| ==> |names[k]| >= 12
    ensures r.Some? ==>
      && r.value < |names| && |names[r.value]| < 12
      && forall k :: 0 <= k < r.value ==> |names[k]| >= 12
    decreases |names|
  {
    if |names| == 0 then None
    else if |names[0]| < 12 then Some(0)
    else match FirstShort(names[1..])
      case None =>
        assert forall k :: 1 <= k < |names| ==> names[1..][k - 1] == names[k];
        None
      case Some(k) =>
        assert forall j :: 1 <= j < k + 1 ==> names[1..][j - 1] == names[j];
        Some(k + 1)
  }

  /** The first short name is the one after a run of long names. */
  lemma FirstShortAt(names: seq<string>, i: nat)
    requires i < |names| && |names[i]| < 12
    requires forall k :: 0 <= k < i ==> |names[k]| >= 12
    ensures FirstShort(names) == Some(i)
  {
  }

  lemma EntriesExtend(names: seq<string>, i: nat)
    requires i < |names|
    requires forall k :: 0 <= k <= i ==> |names[k]| >= 12
    ensures Entries(names[..i + 1]) == Entries(names[..i]) + [ParseEntry(names[i]).value]
  {
  }

  /** The `files` table as the sequence of rows inserted into it. */
  class FilesTable {
    var rows: seq<FileEntry>

    constructor ()
      ensures rows == []
    {
      rows := [];
    }

    /** `create_entry(conn, 'files', '(prefix, band)', entry)`: one INSERT with
        one parameter per value of the entry, appending the row. */
    method CreateEntry(entry: FileEntry) returns (sql: string)
      modifies this
      ensures rows == old(rows) + [entry]
      ensures sql == InsertStatement("files", "(prefix, band)", 2)
    {
      sql := InsertStatement("files", "(prefix, band)", 2);
      rows := rows + [entry];
    }
  }

  /** The INSERT the ingest executes binds two parameters, the prefix and the
      band. */
  lemma FilesInsertParameters()
    ensures Count(InsertStatement("files", "(prefix, band)", 2), '?') == 2
  {
    assert '?' !in "files" && '?' !in "(prefix, band)";
    CountAbsent("files", '?');
    CountAbsent("(prefix, band)", '?');
  }

  /** What an ingest of the kept file names `names` leaves appended to the
      table, and how it ends. */
  function IngestResult(names: seq<string>): (r: (IngestOutcome, seq<FileEntry>))
    ensures r.0 == Ingested <==> forall k :: 0 <= k < |names| ==> |names[k]| >= 12
    ensures r.0 == Ingested ==> |r.1| == |names|
    ensures r.0.IndexError? ==> r.0.position < |names| && |names[r.0.position]| < 12 && |r.1| == r.0.position
    ensures forall j :: 0 <= j < |r.1| ==> Some(r.1[j]) == ParseEntry(names[j])
  {
    match FirstShort(names)
    case None => (Ingested, Entries(names))
    case Some(k) => (IndexError(k), Entries(names[..k]))
  }

  /** The loop of `create_file_database`. Each insert commits on its own, so a
      file name too short to parse stops the ingest with the rows for the names
      before it already in the table. */
  method CreateFileDatabase(files: FilesTable, listing: seq<string>) returns (outcome: IngestOutcome)
    modifies files
    ensures files.rows == old(files.rows) + IngestResult(KeptSegments(listing)).1
    ensures outcome == IngestResult(KeptSegments(listing)).0
  {
    var fileList := KeptSegments(listing);
    outcome := InsertAll(files, fileList);
  }

  method InsertAll(files: FilesTable, fileList: seq<string>) returns (outcome: IngestOutcome)
    modifies files
    ensures files.rows == old(files.rows) + IngestResult(fileList).1
    ensures outcome == IngestResult(fileList).0
  {
    ghost var before := files.rows;
    for i := 0 to |fileList|
      invariant forall k :: 0 <= k < i ==> |fileList[k]| >= 12
      invariant files.rows == before + Entries(fileList[..i])
    {
      var item := fileList[i];
      var parsed := ParseEntry(item);
      if parsed.None? {
        FirstShortAt(fileList, i);
        return IndexError(i);
      }
      EntriesExtend(fileList, i);
      var _ := files.CreateEntry(parsed.value);
    }
    assert fileList[..|fileList|] == fileList;
    return Ingested;
  }

  /** A listing whose intensity lines all name files of at least 12 characters
      is ingested completely: the table grows by one row per intensity line, the
      rows already there are kept, and the row for the `j`th intensity line is
      taken from that line's file name. */
  lemma IngestAllRows(before: seq<FileEntry>, listing: seq<string>)
    requires FirstShort(KeptSegments(listing)).None?
    ensures var after := before + Entries(KeptSegments(listing));
      var idx := KeptIndices(listing);
      && |after| == |before| + |idx|
      && after[..|before|] == before
      && forall j :: 0 <= j < |idx| ==>
           Some(after[|before| + j]) == ParseEntry(LastSegment(listing[idx[j]], '/'))
  {
    KeptSegmentsSpec(listing);
  }

  /** A two-line listing: one intensity frame and one other file give one
      row, taken from the intensity frame's file name. */
  lemma IngestExample()
    ensures KeptSegments(["/a/xxxxxxxxxintYband.fits", "/a/skip_this_one.fits"]) == ["xxxxxxxxxintYband.fits"]
    ensures IngestResult(["xxxxxxxxxintYband.fits"]) == (Ingested, [FileEntry("xxxxxxxxx", "t")])
  {
    ExampleLines();
    KeepFirstOfTwo("/a/xxxxxxxxxintYband.fits", "/a/skip_this_one.fits");
    ExampleEntry("xxxxxxxxxintYband.fits");
  }

  lemma KeepFirstOfTwo(kept: string, skipped: string)
    requires IsIntensityLine(kept) && !IsIntensityLine(skipped)
    ensures KeptSegments([kept, skipped]) == [LastSegment(kept, '/')]
  {
    var lines := [kept, skipped];
    assert lines[..1] == [kept];
    assert lines[..1][..0] == [];
    assert KeptSegments(lines[..1]) == KeptSegments([]) + [LastSegment(kept, '/')];
    assert KeptSegments(lines) == KeptSegments(lines[..1]) + [];
  }

  lemma ExampleEntry(name: string)
    requires name == "xxxxxxxxxintYband.fits"
    ensures IngestResult([name]) == (Ingested, [FileEntry("xxxxxxxxx", "t")])
  {
    assert FirstShort([name]) == None;
    assert name[..9] == "xxxxxxxxx";
    assert name[11] == 't';
    assert Entries([name]) == [ParseEntry(name).value];
  }

  lemma ExampleLines()
    ensures IsIntensityLine("/a/xxxxxxxxxintYband.fits")
    ensures !IsIntensityLine("/a/skip_this_one.fits")
    ensures LastSegment("/a/xxxxxxxxxintYband.fits", '/') == "xxxxxxxxxintYband.fits"
  {
    ExampleKeptLine("/a/xxxxxxxxxintYband.fits");
    ExampleSkippedLine("/a/skip_this_one.fits");
  }

  lemma ExampleKeptLine(kept: string)
    requires kept == "/a/xxxxxxxxxintYband.fits"
    ensures IsIntensityLine(kept)
    ensures LastSegment(kept, '/') == "xxxxxxxxxintYband.fits"
  {
    assert OccursAt("int", kept, 12) by {
      assert kept[12..15] == "int";
    }
    var name := "xxxxxxxxxintYband.fits";
    assert '/' !in name;
    assert "/a/" + name == kept;
    LastSegmentAfterSeparator("/a/", name, '/');
  }

  lemma ExampleSkippedLine(skipped: string)
    requires skipped == "/a/skip_this_one.fits"
    ensures !IsIntensityLine(skipped)
  {
    assert forall i :: 0 <= i < |skipped| - 2 ==>
      !(skipped[i] == 'i' && skipped[i + 1] == 'n' && skipped[i + 2] == 't');
    NoIntensityTag(skipped);
  }

  /** A line without the characters `i`, `n`, `t` in a row is not an
      intensity line. */
  lemma NoIntensityTag(line: string)
    requires forall i :: 0 <= i < |line| - 2 ==>
      !(line[i] == 'i' && line[i + 1] == 'n' && line[i + 2] == 't')
    ensures !IsIntensityLine(line)
  {
    forall i ensures !OccursAt("int", line, i) {
      if 0 <= i && i + 3 <= |line| {
        assert line[i..i + 3][0] == line[i] && line[i..i + 3][1] == line[i + 1];
        assert line[i..i + 3][2] == line[i + 2];
      }
    }
  }
}
