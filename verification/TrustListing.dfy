/**
 Reading `git ls-tree -r -z` (crates/daemon/src/checkout_trust.rs,
 `contents_match`): the blobs the remote tree holds below the declared paths.
 */
module TrustListing {
  import opened Wrappers
  import opened Strings
  import opened TrustWalk

  const MODE_FILE: string := "100644"
  const MODE_EXECUTABLE: string := "100755"
  const BLOB: string := "blob"

  datatype Blob = Blob(executable: bool, id: string)

  datatype Record = Skipped | Malformed | NotAFile | Listed(path: string, blob: Blob)

  function ParseRecord(record: string): (r: Record) {
    if record == "" then Skipped
    else
      match SplitOnce(record, '\t')
      case None => Malformed
      case Some((meta, path)) =>
        var fields := Split(meta, ' ');
        if |fields| != 3 || fields[1] != BLOB then NotAFile
        else if fields[0] == MODE_FILE then Listed(path, Blob(false, fields[2]))
        else if fields[0] == MODE_EXECUTABLE then Listed(path, Blob(true, fields[2]))
        else NotAFile
  }

  /** The expected files, `None` for a tree entry that is not a plain file. */
  type Listing = Result<Option<map<string, Blob>>, Failure>

  /** The first record that is not a file decides; a later record of a path replaces an earlier one. */
  function Parsed(records: seq<string>): (r: Listing) {
    if records == [] then Ok(Some(map[]))
    else
      var before := Parsed(records[..|records| - 1]);
      if before.Err? || before.value.None? then before
      else
        match ParseRecord(records[|records| - 1])
        case Skipped => before
        case Malformed => Err(OutputUnreadable)
        case NotAFile => Ok(None)
        case Listed(path, blob) => Ok(Some(before.value.value[path := blob]))
  }

  /** The loop over the records. */
  method ParseListing(stdout: string) returns (r: Listing)
    ensures r == Parsed(Split(stdout, '\0'))
  {
    var records := Split(stdout, '\0');
    var expected: map<string, Blob> := map[];
    var i := 0;
    while i < |records|
      invariant 0 <= i <= |records|
      invariant Parsed(records[..i]) == Ok(Some(expected))
    {
      assert records[..i + 1][..i] == records[..i];
      match ParseRecord(records[i]) {
        case Skipped =>
        case Malformed =>
          StoppedListing(records, i + 1);
          return Err(OutputUnreadable);
        case NotAFile =>
          StoppedListing(records, i + 1);
          return Ok(None);
        case Listed(path, blob) => expected := expected[path := blob];
      }
      i := i + 1;
    }
    assert records[..i] == records;
    r := Ok(Some(expected));
  }

  /** Once reading has stopped, the remaining records do not matter. */
  lemma {:induction false} StoppedListing(records: seq<string>, i: nat)
    requires i <= |records|
    requires Parsed(records[..i]).Err? || Parsed(records[..i]).value.None?
    ensures Parsed(records) == Parsed(records[..i])
    decreases |records|
  {
    hide ParseRecord;
    if i < |records| {
      var n := |records| - 1;
      assert records[..n][..i] == records[..i];
      StoppedListing(records[..n], i);
    } else {
      assert records[..i] == records;
    }
  }

  /** A record that lets reading go on. */
  predicate IsReadable(record: string) {
    ParseRecord(record).Skipped? || ParseRecord(record).Listed?
  }

  predicate AllReadable(records: seq<string>) {
    forall record | record in records :: IsReadable(record)
  }

  /** The listing is accepted exactly when each record is a plain file, and it holds exactly their paths. */
  lemma {:induction false} AcceptedIffAllFiles(records: seq<string>)
    ensures Parsed(records).Ok? && Parsed(records).value.Some? <==> AllReadable(records)
    ensures Parsed(records).Ok? && Parsed(records).value.Some? ==>
              forall path :: path in Parsed(records).value.value <==>
                exists record | record in records :: ParseRecord(record).Listed? && ParseRecord(record).path == path
    decreases |records|
  {
    hide ParseRecord;
    if records != [] {
      var n := |records| - 1;
      AcceptedIffAllFiles(records[..n]);
      assert records == records[..n] + [records[n]];
      assert AllReadable(records) <==> AllReadable(records[..n]) && IsReadable(records[n]);
    }
  }

  // ------------------------------------------------------------- round trip

  datatype Line = Line(path: string, blob: Blob)

  /** What git prints for one blob. */
  function PrintRecord(line: Line): (s: string) {
    Mode(line.blob.executable) + [' '] + BLOB + [' '] + line.blob.id
    + ['\t'] + line.path
  }

  function Print(lines: seq<Line>): (s: string) {
    if lines == [] then "" else Print(lines[..|lines| - 1]) + PrintRecord(lines[|lines| - 1]) + ['\0']
  }

  /** A path or object name git can print: object names are hexadecimal, no path holds a NUL. */
  predicate IsPrintable(line: Line) {
    && '\0' !in line.path && '\0' !in line.blob.id
    && ' ' !in line.blob.id && '\t' !in line.blob.id
  }

  function AsMap(lines: seq<Line>): (m: map<string, Blob>)
    ensures forall path :: path in m <==> exists line | line in lines :: line.path == path
  {
    if lines == [] then map[]
    else
      var last := lines[|lines| - 1];
      assert lines == lines[..|lines| - 1] + [last];
      AsMap(lines[..|lines| - 1])[last.path := last.blob]
  }

  /** The last line of a path is the one that counts. */
  lemma {:induction false} LastLineCounts(lines: seq<Line>, i: nat)
    requires i < |lines| && (forall j | i < j < |lines| :: lines[j].path != lines[i].path)
    ensures AsMap(lines)[lines[i].path] == lines[i].blob
    decreases |lines|
  {
    if i < |lines| - 1 {
      LastLineCounts(lines[..|lines| - 1], i);
    }
  }

  /** Three space-free fields are read back as those fields. */
  lemma FieldsRoundTrip(mode: string, kind: string, id: string)
    requires ' ' !in mode && ' ' !in kind && ' ' !in id
    ensures Split(mode + [' '] + kind + [' '] + id, ' ') == [mode, kind, id]
  {
    SplitConcat(mode + [' '] + kind, id, ' ');
    SplitConcat(mode, kind, ' ');
    SplitFree(mode, ' ');
    SplitFree(kind, ' ');
    SplitFree(id, ' ');
  }

  function Mode(executable: bool): (mode: string) {
    if executable then MODE_EXECUTABLE else MODE_FILE
  }

  lemma RecordRoundTrip(line: Line)
    requires IsPrintable(line)
    ensures ParseRecord(PrintRecord(line)) == Listed(line.path, line.blob)
    ensures '\0' !in PrintRecord(line)
  {
    hide Split, SplitOnce;
    var mode := Mode(line.blob.executable);
    var meta := mode + [' '] + BLOB + [' '] + line.blob.id;
    FieldsRoundTrip(mode, BLOB, line.blob.id);
    SplitOnceUnique(meta, line.path, '\t');
    assert PrintRecord(line) != "";
    assert MODE_FILE[3] != MODE_EXECUTABLE[3];
  }

  /** Reading what git prints for any list of blobs gives exactly those blobs back. */
  lemma {:induction false} ListingRoundTrip(lines: seq<Line>)
    requires forall line | line in lines :: IsPrintable(line)
    ensures Parsed(Split(Print(lines), '\0')) == Ok(Some(AsMap(lines)))
    ensures Split(Print(lines), '\0')[|Split(Print(lines), '\0')| - 1] == ""
    decreases |lines|
  {
    hide ParseRecord, PrintRecord;
    if lines == [] {
      EmptyListing();
    } else {
      var n := |lines| - 1;
      ListingRoundTrip(lines[..n]);
      RecordRoundTrip(lines[n]);
      PrintedRecordAppends(Print(lines[..n]), PrintRecord(lines[n]));
      AppendedRecord(Split(Print(lines[..n]), '\0'), PrintRecord(lines[n]));
    }
  }

  lemma EmptyListing()
    ensures Split("", '\0') == [""] && Parsed([""]) == Ok(Some(map[]))
  {
    assert [""][..0] == [];
  }

  /** Printing one more record replaces the empty end of the split. */
  lemma PrintedRecordAppends(s: string, record: string)
    requires '\0' !in record
    requires Split(s, '\0')[|Split(s, '\0')| - 1] == ""
    ensures Split(s + record + ['\0'], '\0') == Split(s, '\0')[..|Split(s, '\0')| - 1] + [record, ""]
  {
    var parts := Split(s, '\0');
    JoinSplit(s, '\0');
    JoinEndingEmpty(parts, record, '\0');
    var longer := parts[..|parts| - 1] + [record, ""];
    SplitJoin(longer, '\0');
  }

  lemma {:induction false} JoinEndingEmpty(parts: seq<string>, record: string, sep: char)
    requires |parts| >= 1 && parts[|parts| - 1] == ""
    ensures Join(parts[..|parts| - 1] + [record, ""], sep) == Join(parts, sep) + record + [sep]
    decreases |parts|
  {
    var longer := parts[..|parts| - 1] + [record, ""];
    if |parts| == 1 {
      assert longer == [record, ""] && longer[1..] == [""];
    } else {
      JoinEndingEmpty(parts[1..], record, sep);
      assert longer[1..] == parts[1..][..|parts[1..]| - 1] + [record, ""];
    }
  }

  /** An empty last record is skipped, so one more record is read after the others. */
  lemma AppendedRecord(parts: seq<string>, record: string)
    requires |parts| >= 1 && parts[|parts| - 1] == ""
    requires Parsed(parts).Ok? && Parsed(parts).value.Some?
    requires ParseRecord(record).Listed?
    ensures Parsed(parts[..|parts| - 1] + [record, ""]) ==
            Ok(Some(Parsed(parts).value.value[ParseRecord(record).path := ParseRecord(record).blob]))
  {
    var n := |parts| - 1;
    var longer := parts[..n] + [record, ""];
    assert longer[..n + 1][..n] == parts[..n];
    assert longer[..|longer| - 1] == longer[..n + 1];
    assert ParseRecord("") == Skipped;
  }
}
