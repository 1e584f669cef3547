/** The fixed-width report text: the header block, the status report of
    `print_status` and the list of `print_completed`, as lists of lines (the
    report joins them with newlines). */
module Report {
  import opened Wrappers
  import opened PyStr
  import opened Records
  import opened Views

  const Width: nat := 80

  function Sep1(): string { Repeat('-', 80) }

  function Sep2(): string { Repeat('=', 80) }

  /** `_gen_header`: a blank line, a rule of '=', a blank line, the centred
      title, the right-aligned "Generated by" line, a rule and a blank line.
      The rules are 80 characters whatever the width asked for. */
  function GenHeader(title: string, width: nat, user: string): (lines: seq<string>)
    ensures |lines| == 7
    ensures lines[0] == lines[2] == lines[6] == ""
    ensures lines[1] == lines[5] && |lines[1]| == 80 && forall i :: 0 <= i < 80 ==> lines[1][i] == '='
    ensures |lines[3]| == Max(|title|, width) && lines[3][CenterLeft(|title|, width)..CenterLeft(|title|, width) + |title|] == title
    ensures |lines[4]| == Max(|"Generated by " + user|, width) && lines[4][|lines[4]| - |"Generated by " + user|..] == "Generated by " + user
  {
    ["", Sep2(), "", Center(title, width), RJust("Generated by " + user, width), Sep2(), ""]
  }

  /** Why a report could not be produced: `len(None)` on a raw record
      without a name (`TypeError`), or `.path` of an unresolved association
      (`AttributeError`). */
  datatype ReportError = NoName | Unresolved(file: string)

  // ---------------------------------------------------------------------
  // Rows

  /** A row of the pending list: the abbreviated name in 70 columns, then
      the size right-aligned in 10. */
  function PendingRow(path: string, size: string): (row: string)
    ensures |row| == 70 + Max(|size|, 10)
    ensures row[..|Abbreviate(path, 70)|] == Abbreviate(path, 70)
    ensures row[|row| - |size|..] == size
  {
    var a := Abbreviate(path, 70);
    var l := LJust(a, 70);
    var r := RJust(size, 10);
    PrefixOfConcat(l, r, |a|);
    SuffixOfConcat(l, r, |size|);
    l + r
  }

  /** The condition column of an issued archive: "Issued" when it is not
      crashed; when crashed, "Crashed" if its raw record has a name and
      "Failed" if not; an unresolved association raises. */
  function Condition(raws: seq<RawRecord>, b: ArcRecord): (c: Result<string, ReportError>)
    ensures c == Ok("Issued") <==> !b.crashed
    ensures c == Ok("Crashed") <==> b.crashed && RawOf(raws, b).Some? && raws[RawOf(raws, b).value].path.Some?
    ensures c == Ok("Failed") <==> b.crashed && RawOf(raws, b).Some? && raws[RawOf(raws, b).value].path.None?
    ensures c.Err? <==> b.crashed && RawOf(raws, b).None?
    ensures c.Ok? ==> c.value in {"Issued", "Crashed", "Failed"}
  {
    if !b.crashed then Ok("Issued")
    else
      match RawOf(raws, b)
      case None => Err(Unresolved(b.path))
      case Some(i) => if raws[i].path.None? then Ok("Failed") else Ok("Crashed")
  }

  /** A row of the issued list: name in 60 columns, condition centred in
      10, size right-aligned in 10. */
  function IssueRow(path: string, condition: string, size: string): (row: string)
    requires |condition| <= 10
    ensures |row| == 70 + Max(|size|, 10)
    ensures row[..|Abbreviate(path, 60)|] == Abbreviate(path, 60)
    ensures row[60 + CenterLeft(|condition|, 10)..60 + CenterLeft(|condition|, 10) + |condition|] == condition
  {
    var a := Abbreviate(path, 60);
    var l := LJust(a, 60);
    var c := Center(condition, 10);
    var r := RJust(size, 10);
    PrefixOfConcat(l, c + r, |a|);
    PrefixOfConcat(c, r, |c|);
    assert l + c + r == l + (c + r);
    assert (l + (c + r))[60..] == c + r;
    l + c + r
  }

  /** The rows of one group of duplicates: the raw name (or "-- Removed --")
      beside the first archive, blanks beside the others; each name cut to
      39 columns. */
  function DuplicateRows(key: Option<string>, paths: seq<string>): (rows: seq<string>)
    ensures |rows| == |paths|
    ensures forall i :: 0 <= i < |rows| ==> |rows[i]| == 80
    ensures forall i :: 0 <= i < |rows| ==> rows[i][41..41 + |Abbreviate(paths[i], 39)|] == Abbreviate(paths[i], 39)
    ensures forall i :: 0 <= i < |rows| ==> rows[i][39..41] == (if i == 0 then ":-" else " -")
    ensures |rows| > 0 ==> rows[0][..|Abbreviate(RawLabel(key), 39)|] == Abbreviate(RawLabel(key), 39)
  {
    seq(|paths|, i requires 0 <= i < |paths| => DuplicateRow(key, paths[i], i == 0))
  }

  function RawLabel(key: Option<string>): string {
    if key.None? then "-- Removed --" else key.value
  }

  function DuplicateRow(key: Option<string>, path: string, first: bool): (row: string)
    ensures |row| == 80
    ensures row[41..41 + |Abbreviate(path, 39)|] == Abbreviate(path, 39)
    ensures row[39..41] == (if first then ":-" else " -")
    ensures first ==> row[..|Abbreviate(RawLabel(key), 39)|] == Abbreviate(RawLabel(key), 39)
  {
    var left := if first then LJust(Abbreviate(RawLabel(key), 39), 39) else Center("", 39);
    var mid := if first then ":-" else " -";
    var right := LJust(Abbreviate(path, 39), 39);
    var row := left + mid + right;
    assert row[39..41] == mid && row[41..] == right;
    assert row[..39] == left;
    row
  }

  /** A row of the completed list: name in 60 columns, then the removed
      and archived flags centred in 10 each. */
  function CompletedRow(path: string, removed: bool, archived: bool): (row: string)
    ensures |row| == 80
    ensures row[..|Abbreviate(path, 60)|] == Abbreviate(path, 60)
    ensures row[60..70] == Center(if removed then "True" else "False", 10)
    ensures row[70..] == Center(if archived then "True" else "False", 10)
  {
    var l := LJust(Abbreviate(path, 60), 60);
    var row := l + Center(if removed then "True" else "False", 10) + Center(if archived then "True" else "False", 10);
    assert row[..60] == l;
    row
  }

  // ---------------------------------------------------------------------
  // Sections

  /** The rows of a list, one per element in order; the loop raises the
      error of the first element whose row cannot be formatted. */
  function MapRows<T(!new)>(xs: seq<T>, row: T -> Result<string, ReportError>): (r: Result<seq<string>, ReportError>)
    ensures r.Ok? <==> forall x :: x in xs ==> row(x).Ok?
    ensures r.Err? ==> exists i :: 0 <= i < |xs| && row(xs[i]) == Err(r.error)
    ensures r.Ok? ==> |r.value| == |xs|
    ensures r.Ok? ==> forall i :: 0 <= i < |xs| ==> row(xs[i]).Ok? && r.value[i] == row(xs[i]).value
    decreases |xs|
  {
    if xs == [] then Ok([])
    else if row(xs[0]).Err? then Err(row(xs[0]).error)
    else
      var rest := MapRows(xs[1..], row);
      assert forall x :: x in xs <==> x == xs[0] || x in xs[1..];
      if rest.Err? then
        assert exists i :: 1 <= i < |xs| && row(xs[i]) == Err(rest.error) by {
          var k :| 0 <= k < |xs[1..]| && row(xs[1..][k]) == Err(rest.error);
          assert xs[k + 1] == xs[1..][k];
        }
        rest
      else
        var out := [row(xs[0]).value] + rest.value;
        assert forall i :: 1 <= i < |xs| ==> out[i] == rest.value[i - 1] && xs[i] == xs[1..][i - 1];
        Ok(out)
  }

  /** The row of a raw record, or `TypeError` (`len(None)`) when it has no
      name. */
  function NamedRow(x: RawRecord, row: string -> string): Result<string, ReportError> {
    if x.path.None? then Err(NoName) else Ok(row(x.path.value))
  }

  /** The rows of the pending list. */
  function PendingRows(raws: seq<RawRecord>, dirSize: string -> string): (r: Result<seq<string>, ReportError>)
    ensures r.Ok? <==> forall x :: x in raws ==> x.path.Some?
    ensures r.Ok? ==> |r.value| == |raws|
    ensures r.Ok? ==> forall i :: 0 <= i < |raws| ==>
              raws[i].path.Some? && r.value[i] == PendingRow(raws[i].path.value, dirSize(raws[i].path.value))
  {
    MapRows(raws, (x: RawRecord) => NamedRow(x, p => PendingRow(p, dirSize(p))))
  }

  /** The rows of the issued list. */
  function IssueRows(raws: seq<RawRecord>, arcs: seq<ArcRecord>, fileSize: string -> string): (r: Result<seq<string>, ReportError>)
    ensures r.Ok? <==> forall b :: b in arcs ==> Condition(raws, b).Ok?
    ensures r.Ok? ==> |r.value| == |arcs|
    ensures r.Ok? ==> forall i :: 0 <= i < |arcs| ==>
              Condition(raws, arcs[i]).Ok? &&
              r.value[i] == IssueRow(arcs[i].path, Condition(raws, arcs[i]).value, fileSize(arcs[i].path))
  {
    MapRows(arcs, (b: ArcRecord) => ConditionRow(raws, b, fileSize))
  }

  function ConditionRow(raws: seq<RawRecord>, b: ArcRecord, fileSize: string -> string): Result<string, ReportError> {
    match Condition(raws, b)
    case Err(e) => Err(e)
    case Ok(c) => Ok(IssueRow(b.path, c, fileSize(b.path)))
  }

  /** The number of archives over all groups. */
  function PathCount(gs: seq<Group>): nat {
    if gs == [] then 0 else |gs[0].paths| + PathCount(gs[1..])
  }

  /** The rows of the duplicated block: one row of 80 columns per archive
      in every group, the groups one after another. */
  function GroupRows(gs: seq<Group>): (rows: seq<string>)
    ensures |rows| == PathCount(gs)
    ensures forall i :: 0 <= i < |rows| ==> |rows[i]| == 80
    ensures (forall i :: 0 <= i < |gs| ==> |gs[i].paths| > 0) && gs != [] ==> |rows| > 0
    decreases |gs|
  {
    if gs == [] then [] else DuplicateRows(gs[0].key, gs[0].paths) + GroupRows(gs[1..])
  }

  /** The rows of group k sit, unchanged, between the rows of the groups
      before it and those of the groups after it. */
  lemma GroupRowsPlacement(gs: seq<Group>, k: nat)
    requires k < |gs|
    ensures GroupRows(gs) == GroupRows(gs[..k]) + DuplicateRows(gs[k].key, gs[k].paths) + GroupRows(gs[k + 1..])
  {
    TakeDrop(gs, k);
    GroupRowsAppend(gs[..k], gs[k..]);
    GroupRowsCons(gs[k..]);
    TakeDrop(gs[k..], 1);
    assert gs[k..][1..] == gs[k + 1..];
    Regroup(GroupRows(gs[..k]), DuplicateRows(gs[k].key, gs[k].paths), GroupRows(gs[k + 1..]));
  }

  lemma TakeDrop<T>(xs: seq<T>, k: nat)
    requires k <= |xs|
    ensures xs[..k] + xs[k..] == xs
  {
  }

  lemma Regroup<T>(a: seq<T>, b: seq<T>, c: seq<T>)
    ensures a + (b + c) == a + b + c
  {
  }

  /** The rows of two runs of groups are the rows of each, in turn. */
  lemma {:induction false} GroupRowsAppend(a: seq<Group>, b: seq<Group>)
    ensures GroupRows(a + b) == GroupRows(a) + GroupRows(b)
    decreases |a|
  {
    if a != [] {
      ConsTail(a, b);
      GroupRowsCons(a + b);
      GroupRowsAppend(a[1..], b);
      GroupRowsCons(a);
      Regroup(DuplicateRows(a[0].key, a[0].paths), GroupRows(a[1..]), GroupRows(b));
    } else {
      assert a + b == b;
    }
  }

  lemma ConsTail<T>(a: seq<T>, b: seq<T>)
    requires a != []
    ensures (a + b)[0] == a[0] && (a + b)[1..] == a[1..] + b
  {
  }

  lemma GroupRowsCons(gs: seq<Group>)
    requires gs != []
    ensures GroupRows(gs) == DuplicateRows(gs[0].key, gs[0].paths) + GroupRows(gs[1..])
  {
  }

  /** A titled block of rows, or nothing at all when there are no rows to
      show. */
  function Section(shown: bool, title: string, note: string, columns: string, rows: seq<string>): (lines: seq<string>)
    ensures shown ==> |lines| == |rows| + 6
    ensures shown ==> lines[..4] == [title, note, Sep1(), columns] && lines[4..4 + |rows|] == rows &&
                      lines[4 + |rows|..] == [Sep1(), ""]
    ensures !shown ==> lines == []
  {
    if shown then [title, note, Sep1(), columns] + rows + [Sep1(), ""] else []
  }

  function UpToDate(): (lines: seq<string>)
    ensures |lines| == 4
  {
    ["", Center("The status of archived data is up-to-date...", 80), "", Sep1()]
  }

  /** `_get_backup_status` for the clock reading `now` and the user name
      `user`; sizes are given already formatted. */
  function StatusReport(raws: seq<RawRecord>, arcs: seq<ArcRecord>, now: string, user: string,
                        dirSize: string -> string, fileSize: string -> string): (r: Result<seq<string>, ReportError>)
    ensures r.Ok? ==> |r.value| >= 11 && r.value[..7] == GenHeader(StatusTitle + now + "]", Width, user)
  {
    match PendingRows(ListForBackup(raws), dirSize)
    case Err(e) => Err(e)
    case Ok(pRows) =>
      match IssueRows(raws, Issued(arcs), fileSize)
      case Err(e) => Err(e)
      case Ok(iRows) => Ok(StatusLines(raws, arcs, now, user, pRows, iRows))
  }

  /** The lines of a status report whose rows could all be formatted. */
  function StatusLines(raws: seq<RawRecord>, arcs: seq<ArcRecord>, now: string, user: string,
                       pRows: seq<string>, iRows: seq<string>): seq<string>
  {
    GenHeader(StatusTitle + now + "]", Width, user)
      + Sections(ListForBackup(raws), Issued(arcs), Duplicated(raws, arcs, arcs), pRows, iRows)
  }

  const StatusTitle: string := "Report of the status of archived data ["

  // The titles and notes of the three blocks.
  const PendingTitle: string := ">> The list of raw data need to be archived."
  const PendingNote: string := "[Note: The list exclude the raw data does not contain any binary file]"
  const IssuedTitle: string := ">> Failed or incompleted archived data."
  const IssuedNote: string := "[Note: The listed data are either crashed or incompleted]"
  const DuplicatedTitle: string := ">> List of duplicated archived data."
  const DuplicatedNote: string := "[Note: The listed raw data has been archived into multiple files]"
  const PendingColumns: string := Center("Rawdata Path", 70) + RJust("Size", 10)
  const IssuedColumns: string := Center("Archived Path", 60) + RJust("Condition", 10) + RJust("Size", 10)
  const DuplicatedColumns: string := Center("Raw Path", 39) + "  " + Center("Archived", 39)

  /** The three titled blocks of the status report, followed by the
      "up-to-date" notice when all three lists are empty; the result is that
      notice alone exactly when nothing is pending, issued or duplicated. */
  function Sections(pending: seq<RawRecord>, issued: seq<ArcRecord>, groups: seq<Group>,
                    pRows: seq<string>, iRows: seq<string>): (lines: seq<string>)
    ensures pending == [] && issued == [] && groups == [] ==> lines == UpToDate()
    ensures pending != [] || issued != [] || groups != [] ==> |lines| >= 6
  {
    var total := |pending| + |issued| + |groups|;
    var s1 := Section(pending != [], PendingTitle, PendingNote, PendingColumns, pRows);
    var s2 := Section(issued != [], IssuedTitle, IssuedNote, IssuedColumns, iRows);
    var s3 := Section(groups != [], DuplicatedTitle, DuplicatedNote, DuplicatedColumns, GroupRows(groups));
    s1 + s2 + s3 + (if total == 0 then UpToDate() else [])
  }

  /** The status report fails exactly when a pending raw record has no
      name or a crashed issued archive is unresolved. */
  lemma StatusReportFails(raws: seq<RawRecord>, arcs: seq<ArcRecord>, now: string, user: string,
                          dirSize: string -> string, fileSize: string -> string)
    ensures StatusReport(raws, arcs, now, user, dirSize, fileSize).Err? <==>
              (exists x :: x in raws && NeedsBackup(x) && x.path.None?) ||
              (exists b :: b in arcs && b.issued && b.crashed && RawOf(raws, b).None?)
  {
    var p := PendingRows(ListForBackup(raws), dirSize);
    var i := IssueRows(raws, Issued(arcs), fileSize);
    var r := StatusReport(raws, arcs, now, user, dirSize, fileSize);
    if p.Err? {
      assert r == Err(p.error);
    } else if i.Err? {
      assert r == Err(i.error);
    } else {
      assert r.Ok?;
    }
    PendingRowsFail(raws, dirSize);
    IssueRowsFail(raws, arcs, fileSize);
  }

  lemma PendingRowsFail(raws: seq<RawRecord>, dirSize: string -> string)
    ensures PendingRows(ListForBackup(raws), dirSize).Err? <==> exists x :: x in raws && NeedsBackup(x) && x.path.None?
  {
    ListForBackupIsPending(raws);
    if PendingRows(ListForBackup(raws), dirSize).Err? {
      var x :| x in ListForBackup(raws) && x.path.None?;
      assert x in raws && NeedsBackup(x);
    }
    if exists x :: x in raws && NeedsBackup(x) && x.path.None? {
      var x :| x in raws && NeedsBackup(x) && x.path.None?;
      assert x in ListForBackup(raws);
    }
  }

  lemma IssueRowsFail(raws: seq<RawRecord>, arcs: seq<ArcRecord>, fileSize: string -> string)
    ensures IssueRows(raws, Issued(arcs), fileSize).Err? <==>
            exists b :: b in arcs && b.issued && b.crashed && RawOf(raws, b).None?
  {
    if IssueRows(raws, Issued(arcs), fileSize).Err? {
      var b :| b in Issued(arcs) && Condition(raws, b).Err?;
    }
    if exists b :: b in arcs && b.issued && b.crashed && RawOf(raws, b).None? {
      var b :| b in arcs && b.issued && b.crashed && RawOf(raws, b).None?;
      assert b in Issued(arcs);
    }
  }

  /** A status report that succeeds is the bare header and the
      "up-to-date" notice exactly when nothing is pending, issued or
      duplicated. */
  lemma StatusReportUpToDate(raws: seq<RawRecord>, arcs: seq<ArcRecord>, now: string, user: string,
                             dirSize: string -> string, fileSize: string -> string)
    requires StatusReport(raws, arcs, now, user, dirSize, fileSize).Ok?
    ensures StatusReport(raws, arcs, now, user, dirSize, fileSize).value
              == GenHeader(StatusTitle + now + "]", Width, user) + UpToDate()
            <==> ListForBackup(raws) == [] && Issued(arcs) == [] && Duplicated(raws, arcs, arcs) == []
  {
    var header := GenHeader(StatusTitle + now + "]", Width, user);
    var pending, issued := ListForBackup(raws), Issued(arcs);
    var rest := Sections(pending, issued, Duplicated(raws, arcs, arcs),
                         PendingRows(pending, dirSize).value, IssueRows(raws, issued, fileSize).value);
    assert StatusReport(raws, arcs, now, user, dirSize, fileSize).value ==
           StatusLines(raws, arcs, now, user, PendingRows(pending, dirSize).value, IssueRows(raws, issued, fileSize).value);
    assert StatusLines(raws, arcs, now, user, PendingRows(pending, dirSize).value, IssueRows(raws, issued, fileSize).value) == header + rest;
    assert |header + UpToDate()| == |header| + 4;
  }

  const CompletedTitle: string := "List of archived dataset ["
  const CompletedColumns: string := Center("Rawdata Path", 60) + RJust("Removed", 10) + RJust("Archived", 10)
  const NoneArchived: string := Center("No archived data...", 80)

  /** `print_completed`: the archived raw datasets with their flags, or a
      "No archived data..." notice. */
  function CompletedReport(raws: seq<RawRecord>, now: string, user: string): (r: Result<seq<string>, ReportError>)
    ensures r.Err? <==> exists x :: x in raws && x.backup && x.path.None?
    ensures r.Ok? && Completed(raws) == [] ==> |r.value| == 11
    ensures r.Ok? && Completed(raws) != [] ==> |r.value| == 7 + 4 + |Completed(raws)|
  {
    var header := GenHeader(CompletedTitle + now + "]", Width, user);
    var done := Completed(raws);
    match CompletedRows(done)
    case Err(e) => Err(e)
    case Ok(_) => Ok(header + CompletedTail(raws))
  }

  /** A completed list that could be produced opens with its header. */
  lemma CompletedReportHeader(raws: seq<RawRecord>, now: string, user: string)
    requires CompletedReport(raws, now, user).Ok?
    ensures CompletedReport(raws, now, user).value[..7] == GenHeader(CompletedTitle + now + "]", Width, user)
  {
    CompletedReportSplit(raws, now, user);
    HeadKept(CompletedReport(raws, now, user).value, GenHeader(CompletedTitle + now + "]", Width, user), CompletedTail(raws));
  }

  /** What follows the header in a completed list that could be produced. */
  function CompletedTail(raws: seq<RawRecord>): seq<string>
    requires CompletedRows(Completed(raws)).Ok?
  {
    if Completed(raws) != [] then [Sep1(), CompletedColumns] + CompletedRows(Completed(raws)).value + [Sep1(), ""]
    else ["", NoneArchived, "", Sep1()]
  }

  lemma CompletedReportSplit(raws: seq<RawRecord>, now: string, user: string)
    requires CompletedReport(raws, now, user).Ok?
    ensures CompletedRows(Completed(raws)).Ok?
    ensures CompletedReport(raws, now, user).value == GenHeader(CompletedTitle + now + "]", Width, user) + CompletedTail(raws)
  {
  }

  lemma HeadKept<T>(x: seq<T>, h: seq<T>, t: seq<T>)
    requires x == h + t
    ensures x[..|h|] == h
  {
  }

  /** The rows of a completed list that could be produced, from the tenth
      line on, are the archived raw records in cache order. */
  lemma CompletedReportLines(raws: seq<RawRecord>, now: string, user: string)
    requires CompletedReport(raws, now, user).Ok?
    ensures forall i :: 0 <= i < |Completed(raws)| ==>
              var x := Completed(raws)[i];
              x.path.Some? && CompletedReport(raws, now, user).value[9 + i] == CompletedRow(x.path.value, x.removed, x.backup)
  {
    var done := Completed(raws);
    if done != [] {
      var rows := CompletedRows(done).value;
      var header := GenHeader(CompletedTitle + now + "]", Width, user);
      CompletedReportSplit(raws, now, user);
      forall i | 0 <= i < |rows|
        ensures CompletedReport(raws, now, user).value[9 + i] == rows[i]
      {
        RowAt(header, [Sep1(), CompletedColumns], rows, [Sep1(), ""], i);
      }
    }
  }

  /** Element i of the middle part of `h + (a + m + b)` sits at `|h| + |a| + i`. */
  lemma RowAt<T>(h: seq<T>, a: seq<T>, m: seq<T>, b: seq<T>, i: nat)
    requires i < |m|
    ensures (h + (a + m + b))[|h| + |a| + i] == m[i]
  {
  }

  /** The rows of the completed list. */
  function CompletedRows(raws: seq<RawRecord>): (r: Result<seq<string>, ReportError>)
    ensures r.Ok? <==> forall x :: x in raws ==> x.path.Some?
    ensures r.Ok? ==> |r.value| == |raws|
    ensures r.Ok? ==> forall i :: 0 <= i < |raws| ==>
              raws[i].path.Some? && r.value[i] == CompletedRow(raws[i].path.value, raws[i].removed, raws[i].backup)
  {
    MapRows(raws, (x: RawRecord) => NamedRow(x, p => CompletedRow(p, x.removed, x.backup)))
  }
}
