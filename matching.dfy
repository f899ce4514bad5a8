/**
 * The driver (main): every extracted student is matched with the first
 * report file whose name contains the student's name, the grade is filled
 * into that report, and the students without a report, the reports nobody
 * matched and the reports whose filling failed are collected.
 *
 * Filling a report works on files on disk, whose contents change from one
 * call to the next, so here it is an `outcome` oracle: `outcome(k, file)` is
 * what fill_grade_in_report returns when the k-th student of the grade
 * table is filled into `file`.
 */
module Matching {
  import opened Wrappers
  import opened Text
  import opened GradeTable
  import opened Seqs

  /** One call of fill_grade_in_report: the report file, the student's name and grade. */
  datatype Call = Call(file: string, name: string, grade: string)

  /** The lists and the set main keeps while matching. */
  datatype Bookkeeping = Bookkeeping(
    calls: seq<Call>,
    unmatchedStudents: seq<(string, string)>,
    failedReports: seq<string>,
    processed: set<string>)

  /** Everything main reports. */
  datatype Summary = Summary(
    grades: seq<GradeEntry>,
    calls: seq<Call>,
    unmatchedStudents: seq<(string, string)>,
    unmatchedReports: seq<string>,
    failedReports: seq<string>)

  predicate IsReportFile(file: string) {
    EndsWith(file, ".doc") || EndsWith(file, ".docx")
  }

  /**
   * The directory listing reduced to Word files: exactly the listed names
   * ending in `.doc` or `.docx`, in listing order.
   */
  function ReportFiles(listing: seq<string>): (files: seq<string>)
    ensures files == Project(listing, Positions(listing, IsReportFile))
    ensures forall f :: f in files <==> f in listing && IsReportFile(f)
  {
    if listing == [] then []
    else
      var n := |listing| - 1;
      assert listing == listing[..n] + [listing[n]];
      ProjectPositionsSnoc(listing, IsReportFile);
      ReportFiles(listing[..n]) + if IsReportFile(listing[n]) then [listing[n]] else []
  }

  /** The first file whose name contains `name`. */
  function FirstMatch(files: seq<string>, name: string): (r: Option<nat>)
    ensures r.None? ==> forall j :: 0 <= j < |files| ==> !Contains(files[j], name)
    ensures r.Some? ==> r.value < |files| && Contains(files[r.value], name)
                        && forall j :: 0 <= j < r.value ==> !Contains(files[j], name)
  {
    if files == [] then None
    else
      var n := |files| - 1;
      var front := files[..n];
      var r := FirstMatch(front, name);
      assert forall j :: 0 <= j < n ==> front[j] == files[j];
      if r.Some? then r
      else if Contains(files[n], name) then Some(n) else None
  }

  /** The call made for a student: on the first file containing the name, if there is one. */
  function CallOf(files: seq<string>, e: GradeEntry): Option<Call> {
    match FirstMatch(files, e.name)
    case None => None
    case Some(j) => Some(Call(files[j], e.name, e.grade))
  }

  function HasReport(files: seq<string>): GradeEntry -> bool {
    e => CallOf(files, e).Some?
  }

  function HasNoReport(files: seq<string>): GradeEntry -> bool {
    e => CallOf(files, e).None?
  }

  /** One student: filled into the first matching file, or recorded as unmatched. */
  function MatchStudent(files: seq<string>, outcome: (nat, string) -> bool,
                        b: Bookkeeping, k: nat, e: GradeEntry): Bookkeeping
  {
    match CallOf(files, e)
    case None => b.(unmatchedStudents := b.unmatchedStudents + [(e.studentId, e.name)])
    case Some(c) =>
      Bookkeeping(
        b.calls + [c],
        b.unmatchedStudents,
        b.failedReports + if outcome(k, c.file) then [] else [c.file],
        b.processed + {c.file})
  }

  /** The matching loop over the students, in grade-table order. */
  function MatchAll(files: seq<string>, outcome: (nat, string) -> bool, grades: seq<GradeEntry>): Bookkeeping {
    if grades == [] then Bookkeeping([], [], [], {})
    else
      var k := |grades| - 1;
      MatchStudent(files, outcome, MatchAll(files, outcome, grades[..k]), k, grades[k])
  }

  function Unclaimed(processed: set<string>): string -> bool {
    f => f !in processed
  }

  /** The files nobody was matched with, in listing order. */
  function Unprocessed(files: seq<string>, processed: set<string>): seq<string> {
    if files == [] then []
    else
      var n := |files| - 1;
      Unprocessed(files[..n], processed) + if files[n] in processed then [] else [files[n]]
  }

  /** What main computes from the pages of the grade table and the directory listing. */
  function RunMain(pages: seq<Page>, listing: seq<string>, outcome: (nat, string) -> bool): Result<Summary, Crash> {
    match Extract(pages)
    case Err(e) => Err(e)
    case Ok(grades) =>
      var files := ReportFiles(listing);
      var b := MatchAll(files, outcome, grades);
      Ok(Summary(grades, b.calls, b.unmatchedStudents, Unprocessed(files, b.processed), b.failedReports))
  }

  // ---------------------------------------------------------------------
  // Properties of the matching

  /** The k-th student is called on a file and that call returns False. */
  predicate Fails(files: seq<string>, outcome: (nat, string) -> bool, k: nat, e: GradeEntry) {
    CallOf(files, e).Some? && !outcome(k, CallOf(files, e).value.file)
  }

  /** The positions in the grade table of the students whose call returns False, in increasing order. */
  function FailedStudents(files: seq<string>, outcome: (nat, string) -> bool, grades: seq<GradeEntry>): (fs: seq<nat>)
    ensures Increasing(fs)
    ensures forall i :: 0 <= i < |fs| ==> fs[i] < |grades|
    ensures forall k :: 0 <= k < |grades| ==> (k in fs <==> Fails(files, outcome, k, grades[k]))
  {
    if grades == [] then []
    else
      var n := |grades| - 1;
      var fs := FailedStudents(files, outcome, grades[..n]);
      assert forall k :: 0 <= k < n ==> grades[..n][k] == grades[k];
      fs + if Fails(files, outcome, n, grades[n]) then [n] else []
  }

  /**
   * The calls are, in grade-table order, one for each student with a
   * candidate file, on the first such file; the unmatched students are, in
   * grade-table order, exactly the others. Every processed file was called,
   * and every failed report is a processed one. The failed reports are, in
   * grade-table order, the files of the calls that returned False (a file
   * that fails for two students is listed twice).
   */
  lemma MatchAllSpec(files: seq<string>, outcome: (nat, string) -> bool, grades: seq<GradeEntry>)
    ensures var b := MatchAll(files, outcome, grades);
      var ms := Positions(grades, HasReport(files));
      var us := Positions(grades, HasNoReport(files));
      && |b.calls| == |ms|
      && (forall i :: 0 <= i < |ms| ==> CallOf(files, grades[ms[i]]) == Some(b.calls[i]))
      && |b.unmatchedStudents| == |us|
      && (forall i :: 0 <= i < |us| ==>
            b.unmatchedStudents[i] == (grades[us[i]].studentId, grades[us[i]].name))
      && (forall f :: f in b.processed <==> exists c :: c in b.calls && c.file == f)
      && (forall f :: f in b.failedReports ==> f in b.processed)
      && var fs := FailedStudents(files, outcome, grades);
         && |b.failedReports| == |fs|
         && forall i :: 0 <= i < |fs| ==>
              CallOf(files, grades[fs[i]]).Some? && b.failedReports[i] == CallOf(files, grades[fs[i]]).value.file
  {
    CallsInOrder(files, outcome, grades);
    FailedInOrder(files, outcome, grades);
    UnmatchedInOrder(files, outcome, grades);
    MatchAllKeepsProcessed(files, outcome, grades);
  }

  lemma {:induction false} CallsInOrder(files: seq<string>, outcome: (nat, string) -> bool, grades: seq<GradeEntry>)
    ensures var b := MatchAll(files, outcome, grades);
      var ms := Positions(grades, HasReport(files));
      && |b.calls| == |ms|
      && forall i :: 0 <= i < |ms| ==> CallOf(files, grades[ms[i]]) == Some(b.calls[i])
  {
    if grades != [] {
      var n := |grades| - 1;
      CallsInOrder(files, outcome, grades[..n]);
      var b0 := MatchAll(files, outcome, grades[..n]);
      var b := MatchAll(files, outcome, grades);
      var ms0 := Positions(grades[..n], HasReport(files));
      var ms := Positions(grades, HasReport(files));
      forall i | 0 <= i < |ms0|
        ensures CallOf(files, grades[ms[i]]) == Some(b.calls[i])
      {
        assert ms[i] == ms0[i] && b.calls[i] == b0.calls[i];
        assert grades[..n][ms0[i]] == grades[ms0[i]];
      }
    }
  }

  lemma {:induction false} FailedInOrder(files: seq<string>, outcome: (nat, string) -> bool, grades: seq<GradeEntry>)
    ensures var b := MatchAll(files, outcome, grades);
      var fs := FailedStudents(files, outcome, grades);
      && |b.failedReports| == |fs|
      && forall i :: 0 <= i < |fs| ==>
           CallOf(files, grades[fs[i]]).Some? && b.failedReports[i] == CallOf(files, grades[fs[i]]).value.file
  {
    if grades != [] {
      var n := |grades| - 1;
      FailedInOrder(files, outcome, grades[..n]);
      var b0 := MatchAll(files, outcome, grades[..n]);
      var b := MatchAll(files, outcome, grades);
      var fs0 := FailedStudents(files, outcome, grades[..n]);
      var fs := FailedStudents(files, outcome, grades);
      forall i | 0 <= i < |fs0|
        ensures CallOf(files, grades[fs[i]]).Some? && b.failedReports[i] == CallOf(files, grades[fs[i]]).value.file
      {
        assert fs[i] == fs0[i] && b.failedReports[i] == b0.failedReports[i];
        assert grades[..n][fs0[i]] == grades[fs0[i]];
      }
    }
  }

  lemma {:induction false} UnmatchedInOrder(files: seq<string>, outcome: (nat, string) -> bool, grades: seq<GradeEntry>)
    ensures var b := MatchAll(files, outcome, grades);
      var us := Positions(grades, HasNoReport(files));
      && |b.unmatchedStudents| == |us|
      && forall i :: 0 <= i < |us| ==>
           b.unmatchedStudents[i] == (grades[us[i]].studentId, grades[us[i]].name)
  {
    if grades != [] {
      var n := |grades| - 1;
      UnmatchedInOrder(files, outcome, grades[..n]);
      var b0 := MatchAll(files, outcome, grades[..n]);
      var b := MatchAll(files, outcome, grades);
      var us0 := Positions(grades[..n], HasNoReport(files));
      var us := Positions(grades, HasNoReport(files));
      forall i | 0 <= i < |us0|
        ensures b.unmatchedStudents[i] == (grades[us[i]].studentId, grades[us[i]].name)
      {
        assert us[i] == us0[i] && b.unmatchedStudents[i] == b0.unmatchedStudents[i];
        assert grades[..n][us0[i]] == grades[us0[i]];
      }
    }
  }

  /** The processed files are exactly the called ones, and every failed report is a processed one. */
  ghost predicate ProcessedAreCalled(b: Bookkeeping) {
    && (forall f :: f in b.processed <==> exists c :: c in b.calls && c.file == f)
    && (forall f :: f in b.failedReports ==> f in b.processed)
  }

  lemma {:induction false} MatchAllKeepsProcessed(files: seq<string>, outcome: (nat, string) -> bool, grades: seq<GradeEntry>)
    ensures ProcessedAreCalled(MatchAll(files, outcome, grades))
  {
    if grades != [] {
      var k := |grades| - 1;
      MatchAllKeepsProcessed(files, outcome, grades[..k]);
      MatchStudentKeepsProcessed(files, outcome, MatchAll(files, outcome, grades[..k]), k, grades[k]);
    }
  }

  lemma MatchStudentKeepsProcessed(files: seq<string>, outcome: (nat, string) -> bool,
                                   b0: Bookkeeping, k: nat, e: GradeEntry)
    requires ProcessedAreCalled(b0)
    ensures ProcessedAreCalled(MatchStudent(files, outcome, b0, k, e))
  {
    var b := MatchStudent(files, outcome, b0, k, e);
    match CallOf(files, e)
    case None =>
    case Some(c) =>
      assert b.calls == b0.calls + [c];
      forall f | f in b.processed
        ensures exists c' :: c' in b.calls && c'.file == f
      {
        if f == c.file {
          assert c in b.calls;
        } else {
          var c' :| c' in b0.calls && c'.file == f;
          assert c' in b.calls;
        }
      }
  }

  /**
   * Conversely, every student with a candidate file gets a call on the
   * first one, with its own grade, and every student without one is listed
   * as unmatched.
   */
  lemma {:induction false} EveryStudentAccountedFor(files: seq<string>, outcome: (nat, string) -> bool, grades: seq<GradeEntry>)
    ensures var b := MatchAll(files, outcome, grades);
      forall k :: 0 <= k < |grades| ==>
        match FirstMatch(files, grades[k].name)
        case None => (grades[k].studentId, grades[k].name) in b.unmatchedStudents
        case Some(j) => Call(files[j], grades[k].name, grades[k].grade) in b.calls
  {
    if grades != [] {
      var n := |grades| - 1;
      EveryStudentAccountedFor(files, outcome, grades[..n]);
      var b0 := MatchAll(files, outcome, grades[..n]);
      var b := MatchAll(files, outcome, grades);
      assert forall x :: x in b0.calls ==> x in b.calls;
      assert forall u :: u in b0.unmatchedStudents ==> u in b.unmatchedStudents;
      forall k | 0 <= k < n
        ensures grades[k] == grades[..n][k]
      {
      }
    }
  }

  /**
   * The unmatched reports are exactly the report files not processed, in
   * listing order; so every report file ends up either processed or listed
   * as unmatched, never both.
   */
  lemma UnprocessedSpec(files: seq<string>, processed: set<string>)
    ensures Unprocessed(files, processed) == Project(files, Positions(files, Unclaimed(processed)))
    ensures forall f :: f in Unprocessed(files, processed) <==> f in files && f !in processed
  {
    UnprocessedInOrder(files, processed);
    UnprocessedMembers(files, processed);
  }

  lemma {:induction false} UnprocessedInOrder(files: seq<string>, processed: set<string>)
    ensures Unprocessed(files, processed) == Project(files, Positions(files, Unclaimed(processed)))
  {
    if files != [] {
      var n := |files| - 1;
      UnprocessedInOrder(files[..n], processed);
      ProjectPositionsSnoc(files, Unclaimed(processed));
    }
  }

  lemma {:induction false} UnprocessedMembers(files: seq<string>, processed: set<string>)
    ensures forall f :: f in Unprocessed(files, processed) <==> f in files && f !in processed
  {
    if files != [] {
      var n := |files| - 1;
      UnprocessedMembers(files[..n], processed);
      assert files == files[..n] + [files[n]];
    }
  }

  /** One file can be matched by two students: 张三 and 张三丰 both match 张三丰.docx. */
  lemma SameFileMatchedTwice(outcome: (nat, string) -> bool)
    ensures var files := ["张三丰.docx"];
      var grades := [GradeEntry("1", "张三", "90"), GradeEntry("2", "张三丰", "80")];
      MatchAll(files, outcome, grades).calls ==
        [Call("张三丰.docx", "张三", "90"), Call("张三丰.docx", "张三丰", "80")]
  {
    var file := "张三丰.docx";
    assert OccursAt(file, "张三", 0);
    assert OccursAt(file, "张三丰", 0);
    var grades := [GradeEntry("1", "张三", "90"), GradeEntry("2", "张三丰", "80")];
    assert grades[..1] == [GradeEntry("1", "张三", "90")];
    assert grades[..1][..0] == [];
  }

  // ---------------------------------------------------------------------
  // The loops of main

  /** The inner loop: the first report file whose name contains the student's name. */
  method FindReport(files: seq<string>, name: string) returns (r: Option<nat>)
    ensures r == FirstMatch(files, name)
  {
    var i := 0;
    while i < |files|
      invariant 0 <= i <= |files|
      invariant FirstMatch(files[..i], name).None?
    {
      assert files[..i + 1][..i] == files[..i];
      if Contains(files[i], name) {
        FirstMatchPrefix(files, i + 1, name);
        return Some(i);
      }
      i := i + 1;
    }
    assert files[..i] == files;
    return None;
  }

  /** A match in a prefix is the match in the whole list. */
  lemma FirstMatchPrefix(files: seq<string>, i: nat, name: string)
    requires i <= |files| && FirstMatch(files[..i], name).Some?
    ensures FirstMatch(files, name) == FirstMatch(files[..i], name)
  {
    var r := FirstMatch(files[..i], name);
    assert forall j :: 0 <= j <= r.value ==> files[..i][j] == files[j];
  }

  /** The loop over the students. */
  method MatchReports(files: seq<string>, outcome: (nat, string) -> bool, grades: seq<GradeEntry>)
    returns (b: Bookkeeping)
    ensures b == MatchAll(files, outcome, grades)
  {
    var calls: seq<Call> := [];
    var unmatchedStudents: seq<(string, string)> := [];
    var failedReports: seq<string> := [];
    var processed: set<string> := {};
    for k := 0 to |grades|
      invariant MatchAll(files, outcome, grades[..k]) == Bookkeeping(calls, unmatchedStudents, failedReports, processed)
    {
      assert grades[..k + 1][..k] == grades[..k];
      var e := grades[k];
      var found := FindReport(files, e.name);
      if found.None? {
        unmatchedStudents := unmatchedStudents + [(e.studentId, e.name)];
      } else {
        var file := files[found.value];
        calls := calls + [Call(file, e.name, e.grade)];
        var success := outcome(k, file);
        processed := processed + {file};
        if !success {
          failedReports := failedReports + [file];
        }
      }
    }
    assert grades[..|grades|] == grades;
    b := Bookkeeping(calls, unmatchedStudents, failedReports, processed);
  }

  /** The loop collecting the report files nobody was matched with. */
  method UnmatchedReports(files: seq<string>, processed: set<string>) returns (unmatched: seq<string>)
    ensures unmatched == Unprocessed(files, processed)
  {
    unmatched := [];
    for i := 0 to |files|
      invariant unmatched == Unprocessed(files[..i], processed)
    {
      assert files[..i + 1][..i] == files[..i];
      if files[i] !in processed {
        unmatched := unmatched + [files[i]];
      }
    }
    assert files[..|files|] == files;
  }

  /**
   * main: `pages` are the grade table's pages, `listing` the reports
   * directory's entries. An exception while reading the grade table ends
   * the run.
   */
  method RunScript(pages: seq<Page>, listing: seq<string>, outcome: (nat, string) -> bool)
    returns (r: Result<Summary, Crash>)
    ensures r == RunMain(pages, listing, outcome)
  {
    var extracted := ExtractGrades(pages);
    if extracted.Err? {
      return Err(extracted.error);
    }
    var grades := extracted.value;
    var files := ReportFiles(listing);
    var b := MatchReports(files, outcome, grades);
    var unmatchedReports := UnmatchedReports(files, b.processed);
    return Ok(Summary(grades, b.calls, b.unmatchedStudents, unmatchedReports, b.failedReports));
  }
}
