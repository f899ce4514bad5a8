/**
 * Writing a grade into one internship report (fill_grade_in_report).
 * The report's tables are walked in reading order; the first paragraph
 * holding the grade blank gets the grade, the first paragraph holding the
 * signature label gets the teacher's signature picture, and in the cell
 * where the grade went the hint is removed, the date blank is filled and
 * the first empty paragraph receives the comment. The walk stops after
 * that cell. The report is saved, and the call succeeds, only when all
 * three of grade, signature and comment were written.
 */
module ReportFill {
  import opened Wrappers
  import opened Text
  import opened Seqs
  import opened Comments

  /** A paragraph: its text and how many signature pictures have been appended to it. */
  datatype Paragraph = Paragraph(text: string, signatures: nat)
  type Cell = seq<Paragraph>
  type Row = seq<Cell>
  type Table = seq<Row>

  /** grade_filled, sign_filled, comment_filled. */
  datatype Flags = Flags(grade: bool, sign: bool, comment: bool)
  const NO_FLAGS: Flags := Flags(false, false, false)

  /** int(grade) raised ValueError; the function catches it and returns False. */
  datatype FillError = ValueError

  /** What the filling needs besides the document: the grade text and today's date text. */
  datatype Context = Context(grade: string, date: string)

  /** A report as it is saved: the path written and the document's tables. */
  datatype SavedReport = SavedReport(path: string, tables: seq<Table>)

  const GRADE_LABEL: string := "综合成绩评定（百分制或五级制）："
  const GRADE_BLANK: string := GRADE_LABEL + "        "
  const SIGNATURE_LABEL: string := "指导教师手写签名："
  const HINT: string := "（学生是否完成实习计划，实习任务完成的水平、效益，研究和解决实践问题的意识和能力，工作态度、综合素质、品德纪律等情况）"
  const DATE_BLANK: string := "年   月   日"

  /** The text that replaces the grade blank. */
  function GradeWritten(grade: string): string {
    GRADE_LABEL + "  " + grade + "  "
  }

  // ---------------------------------------------------------------------
  // The report path

  /** report_path.replace('.doc', '.docx'): every occurrence, not only the extension. */
  function DocxPath(path: string): string {
    ReplaceAll(path, ".doc", ".docx")
  }

  /** The path that is opened and saved: a `.doc` report is read from its `.docx` rewrite. */
  function ReportPath(path: string): string {
    if EndsWith(path, ".doc") then DocxPath(path) else path
  }

  /** `.doc` does not overlap itself: a path longer than it that starts and ends with it has room for both. */
  lemma DocDoesNotOverlap(path: string)
    requires |path| > 4 && path[..4] == ".doc" && EndsWith(path, ".doc")
    ensures |path| >= 8
  {
    var d := |path| - 4;
    assert path[d] == path[|path| - 4..][0] == '.';
    assert forall k :: 0 <= k < 4 ==> path[k] == path[..4][k];
  }

  /** A path ending in `.doc` is rewritten to one ending in `.docx`. */
  lemma {:induction false} DocxPathKeepsExtension(path: string)
    requires EndsWith(path, ".doc")
    ensures EndsWith(DocxPath(path), ".docx")
    decreases |path|
  {
    var out := DocxPath(path);
    if |path| == 4 {
      assert path == ".doc";
      assert out == ".docx" + DocxPath([]);
    } else if path[..4] == ".doc" {
      var rest := path[4..];
      DocDoesNotOverlap(path);
      assert rest[|rest| - 4..] == path[|path| - 4..];
      DocxPathKeepsExtension(rest);
      var tail := DocxPath(rest);
      assert out == ".docx" + tail;
      assert out[|out| - 5..] == tail[|tail| - 5..];
    } else {
      var rest := path[1..];
      assert rest[|rest| - 4..] == path[|path| - 4..];
      DocxPathKeepsExtension(rest);
      var tail := DocxPath(rest);
      assert out == [path[0]] + tail;
      assert out[|out| - 5..] == tail[|tail| - 5..];
    }
  }

  /**
   * Every `.doc` in the path is rewritten, a directory name's included: the
   * path is cut at each occurrence, no piece holds `.doc` any more, and the
   * pieces are joined with `.docx`.
   */
  lemma DocxPathRewritesEveryOccurrence(path: string)
    ensures path == Join(Split(path, ".doc"), ".doc")
    ensures DocxPath(path) == Join(Split(path, ".doc"), ".docx")
    ensures forall k :: 0 <= k < |Split(path, ".doc")| ==> !Contains(Split(path, ".doc")[k], ".doc")
  {
    ReplaceIsJoinOfSplit(path, ".doc", ".docx");
  }

  // ---------------------------------------------------------------------
  // The first paragraph loop of a cell: grade and signature

  /** One paragraph: replace the grade blank once, then append the signature once. */
  function ScanParagraph(ctx: Context, p: Paragraph, f: Flags): (Paragraph, Flags) {
    var graded :=
      if Contains(p.text, GRADE_BLANK) && !f.grade
      then (p.(text := ReplaceAll(p.text, GRADE_BLANK, GradeWritten(ctx.grade))), f.(grade := true))
      else (p, f);
    var q := graded.0;
    var g := graded.1;
    if Contains(q.text, SIGNATURE_LABEL) && !g.sign
    then (q.(signatures := q.signatures + 1), g.(sign := true))
    else (q, g)
  }

  function ScanParagraphs(ctx: Context, ps: seq<Paragraph>, f: Flags): (seq<Paragraph>, Flags) {
    if ps == [] then ([], f)
    else
      var before := ScanParagraphs(ctx, ps[..|ps| - 1], f);
      var last := ScanParagraph(ctx, ps[|ps| - 1], before.1);
      (before.0 + [last.0], last.1)
  }

  /** The first paragraph whose text contains `pat`. */
  function FirstContaining(ps: seq<Paragraph>, pat: string): (r: Option<nat>)
    ensures r.None? ==> forall i :: 0 <= i < |ps| ==> !Contains(ps[i].text, pat)
    ensures r.Some? ==> r.value < |ps| && Contains(ps[r.value].text, pat)
                        && forall i :: 0 <= i < r.value ==> !Contains(ps[i].text, pat)
  {
    if ps == [] then None
    else
      var n := |ps| - 1;
      assert forall i :: 0 <= i < n ==> ps[..n][i] == ps[i];
      match FirstContaining(ps[..n], pat)
      case Some(k) => Some(k)
      case None => if Contains(ps[n].text, pat) then Some(n) else None
  }

  /** The sum of the signature counts of the paragraphs. */
  function Signatures(ps: seq<Paragraph>): nat {
    if ps == [] then 0 else Signatures(ps[..|ps| - 1]) + ps[|ps| - 1].signatures
  }

  /** The paragraph loop replaces the grade blank in the first paragraph holding it, and nowhere else. */
  predicate GradeReplacedOnce(ctx: Context, ps: seq<Paragraph>, f: Flags, qs: seq<Paragraph>) {
    GradedAt(ctx, ps, if f.grade then None else FirstContaining(ps, GRADE_BLANK), qs)
  }

  /** Only the paragraph at `k` has its grade blank replaced; every other text is kept. */
  predicate GradedAt(ctx: Context, ps: seq<Paragraph>, k: Option<nat>, qs: seq<Paragraph>) {
    |qs| == |ps| &&
    forall i :: 0 <= i < |ps| ==>
      qs[i].text == if k == Some(i) then ReplaceAll(ps[i].text, GRADE_BLANK, GradeWritten(ctx.grade)) else ps[i].text
  }

  /** ... and appends one signature to the first paragraph (after that) holding the label, and nowhere else. */
  predicate SignedOnce(ps: seq<Paragraph>, f: Flags, qs: seq<Paragraph>) {
    SignedAt(ps, if f.sign then None else FirstContaining(qs, SIGNATURE_LABEL), qs)
  }

  /** Only the paragraph at `k` gains a signature. */
  predicate SignedAt(ps: seq<Paragraph>, k: Option<nat>, qs: seq<Paragraph>) {
    |qs| == |ps| &&
    forall i :: 0 <= i < |ps| ==> qs[i].signatures == ps[i].signatures + if k == Some(i) then 1 else 0
  }

  /** `k` is the first marked position of `ps` when `k0` is that of all but its last element. */
  predicate FirstOfSnoc(n: nat, k0: Option<nat>, k: Option<nat>) {
    && (k0.Some? ==> k == k0 && k0.value < n)
    && (k0.None? ==> k.None? || k == Some(n))
  }

  lemma GradedAtSnoc(ctx: Context, ps: seq<Paragraph>, k0: Option<nat>, k: Option<nat>, qs0: seq<Paragraph>, q: Paragraph)
    requires |ps| > 0 && FirstOfSnoc(|ps| - 1, k0, k)
    requires GradedAt(ctx, ps[..|ps| - 1], k0, qs0)
    requires q.text == if k == Some(|ps| - 1)
                       then ReplaceAll(ps[|ps| - 1].text, GRADE_BLANK, GradeWritten(ctx.grade))
                       else ps[|ps| - 1].text
    ensures GradedAt(ctx, ps, k, qs0 + [q])
  {
    var n := |ps| - 1;
    var qs := qs0 + [q];
    forall i | 0 <= i < n
      ensures qs[i].text == if k == Some(i) then ReplaceAll(ps[i].text, GRADE_BLANK, GradeWritten(ctx.grade)) else ps[i].text
    {
      assert qs[i] == qs0[i] && ps[i] == ps[..n][i];
    }
  }

  lemma SignedAtSnoc(ps: seq<Paragraph>, k0: Option<nat>, k: Option<nat>, qs0: seq<Paragraph>, q: Paragraph)
    requires |ps| > 0 && FirstOfSnoc(|ps| - 1, k0, k)
    requires SignedAt(ps[..|ps| - 1], k0, qs0)
    requires q.signatures == ps[|ps| - 1].signatures + if k == Some(|ps| - 1) then 1 else 0
    ensures SignedAt(ps, k, qs0 + [q])
  {
    var n := |ps| - 1;
    var qs := qs0 + [q];
    forall i | 0 <= i < n
      ensures qs[i].signatures == ps[i].signatures + if k == Some(i) then 1 else 0
    {
      assert qs[i] == qs0[i] && ps[i] == ps[..n][i];
    }
  }

  lemma FirstContainingSnoc(ps: seq<Paragraph>, p: Paragraph, pat: string)
    ensures FirstContaining(ps + [p], pat) ==
      if FirstContaining(ps, pat).Some? then FirstContaining(ps, pat)
      else if Contains(p.text, pat) then Some(|ps|) else None
  {
    assert (ps + [p])[..|ps|] == ps;
  }

  /** The paragraph loop keeps the number of paragraphs; each flag is set exactly when its paragraph was found. */
  lemma {:induction false} ScanParagraphsFlags(ctx: Context, ps: seq<Paragraph>, f: Flags)
    ensures var (qs, g) := ScanParagraphs(ctx, ps, f);
      && |qs| == |ps|
      && g.grade == (f.grade || FirstContaining(ps, GRADE_BLANK).Some?)
      && g.sign == (f.sign || FirstContaining(qs, SIGNATURE_LABEL).Some?)
      && g.comment == f.comment
  {
    if ps != [] {
      var front, p := ps[..|ps| - 1], ps[|ps| - 1];
      assert ps == front + [p];
      ScanParagraphsFlags(ctx, front, f);
      var before := ScanParagraphs(ctx, front, f);
      var last := ScanParagraph(ctx, p, before.1);
      ScanParagraphsSnoc(ctx, front, p, f);
      FirstContainingSnoc(front, p, GRADE_BLANK);
      FirstContainingSnoc(before.0, last.0, SIGNATURE_LABEL);
    }
  }

  /**
   * The paragraph loop replaces the grade blank (every occurrence, as
   * str.replace does) in the first paragraph holding it and leaves every
   * other text as it was; the signature does not touch any text.
   */
  lemma {:induction false} ScanParagraphsTexts(ctx: Context, ps: seq<Paragraph>, f: Flags)
    ensures GradeReplacedOnce(ctx, ps, f, ScanParagraphs(ctx, ps, f).0)
  {
    if ps != [] {
      var front, p := ps[..|ps| - 1], ps[|ps| - 1];
      assert ps == front + [p];
      ScanParagraphsTexts(ctx, front, f);
      ScanParagraphsFlags(ctx, front, f);
      var before := ScanParagraphs(ctx, front, f);
      var last := ScanParagraph(ctx, p, before.1);
      ScanParagraphsSnoc(ctx, front, p, f);
      ScanParagraphText(ctx, p, before.1);
      FirstContainingSnoc(front, p, GRADE_BLANK);
      GradedAtSnoc(ctx, ps, if f.grade then None else FirstContaining(front, GRADE_BLANK),
                   if f.grade then None else FirstContaining(ps, GRADE_BLANK), before.0, last.0);
    }
  }

  /** One more paragraph of the first paragraph loop. */
  lemma ScanParagraphsSnoc(ctx: Context, front: seq<Paragraph>, p: Paragraph, f: Flags)
    ensures ScanParagraphs(ctx, front + [p], f) ==
      (ScanParagraphs(ctx, front, f).0 + [ScanParagraph(ctx, p, ScanParagraphs(ctx, front, f).1).0],
       ScanParagraph(ctx, p, ScanParagraphs(ctx, front, f).1).1)
  {
    assert (front + [p])[..|front|] == front;
  }

  /** One paragraph's text: the grade blank replaced if it holds one and no grade was written yet. */
  lemma ScanParagraphText(ctx: Context, p: Paragraph, f: Flags)
    ensures ScanParagraph(ctx, p, f).0.text ==
      if Contains(p.text, GRADE_BLANK) && !f.grade then ReplaceAll(p.text, GRADE_BLANK, GradeWritten(ctx.grade)) else p.text
  {
  }

  /** The paragraph loop appends one signature to the first paragraph whose (already graded) text holds the label, and nowhere else. */
  lemma {:induction false} ScanParagraphsSigned(ctx: Context, ps: seq<Paragraph>, f: Flags)
    ensures SignedOnce(ps, f, ScanParagraphs(ctx, ps, f).0)
  {
    if ps != [] {
      var n := |ps| - 1;
      var front := ps[..n];
      ScanParagraphsSigned(ctx, front, f);
      ScanParagraphsFlags(ctx, front, f);
      var (qs0, g0) := ScanParagraphs(ctx, front, f);
      var (q, g) := ScanParagraph(ctx, ps[n], g0);
      var qs := qs0 + [q];
      assert ScanParagraphs(ctx, ps, f).0 == qs;
      FirstContainingSnoc(qs0, q, SIGNATURE_LABEL);
      SignedAtSnoc(ps, if f.sign then None else FirstContaining(qs0, SIGNATURE_LABEL),
                   if f.sign then None else FirstContaining(qs, SIGNATURE_LABEL), qs0, q);
    }
  }

  /** The total number of signatures grows by one exactly when the signature flag is newly set. */
  lemma {:induction false} ScanParagraphsSignatureCount(ctx: Context, ps: seq<Paragraph>, f: Flags)
    ensures var (qs, g) := ScanParagraphs(ctx, ps, f);
      Signatures(qs) == Signatures(ps) + if g.sign && !f.sign then 1 else 0
  {
    if ps != [] {
      var n := |ps| - 1;
      ScanParagraphsSignatureCount(ctx, ps[..n], f);
      var (qs0, g0) := ScanParagraphs(ctx, ps[..n], f);
      var (q, g) := ScanParagraph(ctx, ps[n], g0);
      assert ScanParagraphs(ctx, ps, f) == (qs0 + [q], g);
      ScanParagraphsFlags(ctx, ps[..n], f);
      assert (qs0 + [q])[..|qs0|] == qs0;
      assert f.sign ==> g0.sign;
      assert q.signatures == ps[n].signatures + if g.sign && !g0.sign then 1 else 0;
    }
  }

  // ---------------------------------------------------------------------
  // The second paragraph loop of the graded cell: hint, date and comment

  /** A paragraph's text after the hint is removed and the date blank filled. */
  function Cleaned(ctx: Context, text: string): string {
    var unhinted := if Contains(text, HINT) then "" else text;
    if Contains(unhinted, DATE_BLANK) then ReplaceAll(unhinted, DATE_BLANK, ctx.date) else unhinted
  }

  /** The comment for a grade given as text; None when int() rejects it. */
  function GradeComment(grade: string): Option<string> {
    match ParseInt(grade)
    case None => None
    case Some(g) => Some(TeacherComment(g))
  }

  /**
   * One paragraph of the graded cell; `done` is comment_filled. The comment
   * goes into a paragraph that is blank after cleaning; computing it
   * converts the grade with int(), which fails on a non-integer grade.
   */
  function FinishParagraph(ctx: Context, p: Paragraph, done: bool): Result<(Paragraph, bool), FillError> {
    var text := Cleaned(ctx, p.text);
    if Strip(text) == [] && !done then
      match ParseInt(ctx.grade)
      case None => Err(ValueError)
      case Some(g) => Ok((p.(text := TeacherComment(g)), true))
    else
      Ok((p.(text := text), done))
  }

  function FinishParagraphs(ctx: Context, ps: seq<Paragraph>, done: bool): Result<(seq<Paragraph>, bool), FillError> {
    if ps == [] then Ok(([], done))
    else
      match FinishParagraphs(ctx, ps[..|ps| - 1], done)
      case Err(e) => Err(e)
      case Ok((qs, d)) =>
        match FinishParagraph(ctx, ps[|ps| - 1], d)
        case Err(e) => Err(e)
        case Ok((q, d')) => Ok((qs + [q], d'))
  }

  predicate BlankAfterCleaning(ctx: Context, p: Paragraph) {
    Strip(Cleaned(ctx, p.text)) == []
  }

  /** The first position holding true. */
  function FirstTrue(bs: seq<bool>): (r: Option<nat>)
    ensures r.None? ==> forall i :: 0 <= i < |bs| ==> !bs[i]
    ensures r.Some? ==> r.value < |bs| && bs[r.value] && forall i :: 0 <= i < r.value ==> !bs[i]
  {
    if bs == [] then None
    else
      var n := |bs| - 1;
      var front := bs[..n];
      assert forall i :: 0 <= i < n ==> front[i] == bs[i];
      match FirstTrue(front)
      case Some(k) => Some(k)
      case None => if bs[n] then Some(n) else None
  }

  /** Which paragraphs are blank once cleaned. */
  function Blanks(ctx: Context, ps: seq<Paragraph>): (bs: seq<bool>)
    ensures |bs| == |ps|
    ensures forall i :: 0 <= i < |ps| ==> bs[i] == BlankAfterCleaning(ctx, ps[i])
  {
    seq(|ps|, i requires 0 <= i < |ps| => BlankAfterCleaning(ctx, ps[i]))
  }

  /** The first paragraph that is blank once cleaned. */
  function FirstBlank(ctx: Context, ps: seq<Paragraph>): (r: Option<nat>)
    ensures r.None? ==> forall i :: 0 <= i < |ps| ==> !BlankAfterCleaning(ctx, ps[i])
    ensures r.Some? ==> r.value < |ps| && BlankAfterCleaning(ctx, ps[r.value])
                        && forall i :: 0 <= i < r.value ==> !BlankAfterCleaning(ctx, ps[i])
  {
    var bs := Blanks(ctx, ps);
    assert forall i :: 0 <= i < |ps| ==> bs[i] == BlankAfterCleaning(ctx, ps[i]);
    FirstTrue(bs)
  }

  lemma FirstBlankLast(ctx: Context, ps: seq<Paragraph>)
    requires |ps| > 0
    ensures var n := |ps| - 1;
      FirstBlank(ctx, ps) ==
        if FirstBlank(ctx, ps[..n]).Some? then FirstBlank(ctx, ps[..n])
        else if BlankAfterCleaning(ctx, ps[n]) then Some(n) else None
  {
    var n := |ps| - 1;
    assert Blanks(ctx, ps)[..n] == Blanks(ctx, ps[..n]);
  }

  /** One paragraph of the second loop: cleaned, or given the comment when it is the blank one. */
  lemma FinishParagraphSpec(ctx: Context, p: Paragraph, done: bool)
    ensures FinishParagraph(ctx, p, done).Err? <==>
      !done && BlankAfterCleaning(ctx, p) && ParseInt(ctx.grade).None?
    ensures FinishParagraph(ctx, p, done).Ok? ==>
      var (q, d) := FinishParagraph(ctx, p, done).value;
      && d == (done || BlankAfterCleaning(ctx, p))
      && q.signatures == p.signatures
      && if !done && BlankAfterCleaning(ctx, p)
         then GradeComment(ctx.grade) == Some(q.text)
         else q.text == Cleaned(ctx, p.text)
  {
  }

  /**
   * The second paragraph loop fails exactly when a comment is still needed,
   * some paragraph is blank after cleaning, and the grade is not an integer.
   */
  lemma {:induction false} FinishParagraphsFails(ctx: Context, ps: seq<Paragraph>, done: bool)
    ensures FinishParagraphs(ctx, ps, done).Err? <==>
      !done && FirstBlank(ctx, ps).Some? && ParseInt(ctx.grade).None?
    ensures FinishParagraphs(ctx, ps, done).Ok? ==>
      FinishParagraphs(ctx, ps, done).value.1 == (done || FirstBlank(ctx, ps).Some?)
  {
    if ps != [] {
      var n := |ps| - 1;
      var front := ps[..n];
      FinishParagraphsFails(ctx, front, done);
      FirstBlankLast(ctx, ps);
      match FinishParagraphs(ctx, front, done)
      case Err(e) =>
      case Ok((qs0, d0)) =>
        FinishParagraphSpec(ctx, ps[n], d0);
    }
  }

  /**
   * What the second loop leaves behind: every paragraph is cleaned, except
   * the one at `commented`, which receives the comment of the grade's band;
   * the signatures are untouched.
   */
  predicate FinishedTexts(ctx: Context, ps: seq<Paragraph>, commented: Option<nat>, qs: seq<Paragraph>) {
    && |qs| == |ps|
    && forall i :: 0 <= i < |ps| ==> FinishedAs(ctx, ps[i], qs[i], commented == Some(i))
  }

  /** Paragraph `p` became `q`: it got the comment if `commented`, else it was cleaned. */
  predicate FinishedAs(ctx: Context, p: Paragraph, q: Paragraph, commented: bool) {
    && q.signatures == p.signatures
    && if commented then GradeComment(ctx.grade) == Some(q.text)
       else q.text == Cleaned(ctx, p.text)
  }

  /** The paragraph that receives the comment: the first blank one, unless a comment was already written. */
  function CommentIndex(ctx: Context, ps: seq<Paragraph>, done: bool): Option<nat> {
    if done then None else FirstBlank(ctx, ps)
  }

  /**
   * The second loop, when it succeeds, cleans every paragraph and writes the
   * comment into the first blank one if no comment was written yet.
   */
  lemma {:induction false} FinishParagraphsTexts(ctx: Context, ps: seq<Paragraph>, done: bool)
    ensures FinishParagraphs(ctx, ps, done).Ok? ==>
      FinishedTexts(ctx, ps, CommentIndex(ctx, ps, done), FinishParagraphs(ctx, ps, done).value.0)
  {
    if ps != [] {
      var n := |ps| - 1;
      var front := ps[..n];
      FinishParagraphsTexts(ctx, front, done);
      FinishParagraphsFails(ctx, front, done);
      match FinishParagraphs(ctx, front, done)
      case Err(e) =>
        assert FinishParagraphs(ctx, ps, done) == Err(e);
      case Ok((qs0, d0)) =>
        match FinishParagraph(ctx, ps[n], d0)
        case Err(e) =>
          assert FinishParagraphs(ctx, ps, done) == Err(e);
        case Ok((q, d1)) =>
          assert FinishParagraphs(ctx, ps, done) == Ok((qs0 + [q], d1));
          FinishLastParagraph(ctx, ps, done, d0, q, d1);
          FirstBlankLast(ctx, ps);
          FinishedTextsSnoc(ctx, ps, CommentIndex(ctx, front, done), CommentIndex(ctx, ps, done), qs0, q);
    }
  }

  /** Extending the finished paragraphs by the last one. */
  lemma FinishedTextsSnoc(ctx: Context, ps: seq<Paragraph>, k0: Option<nat>, k: Option<nat>,
                          qs0: seq<Paragraph>, q: Paragraph)
    requires |ps| > 0
    requires k0.Some? ==> k == k0 && k0.value < |ps| - 1
    requires k0.None? ==> k.None? || k == Some(|ps| - 1)
    requires FinishedTexts(ctx, ps[..|ps| - 1], k0, qs0)
    requires FinishedAs(ctx, ps[|ps| - 1], q, k == Some(|ps| - 1))
    ensures FinishedTexts(ctx, ps, k, qs0 + [q])
  {
    var n := |ps| - 1;
    var front := ps[..n];
    var qs := qs0 + [q];
    forall i | 0 <= i < n
      ensures FinishedAs(ctx, ps[i], qs[i], k == Some(i))
    {
      assert qs[i] == qs0[i] && ps[i] == front[i];
      assert FinishedAs(ctx, front[i], qs0[i], k0 == Some(i));
    }
  }

  /** The last paragraph of the second loop, given what the loop knew before it. */
  lemma FinishLastParagraph(ctx: Context, ps: seq<Paragraph>, done: bool, d0: bool, q: Paragraph, d1: bool)
    requires |ps| > 0
    requires d0 == (done || FirstBlank(ctx, ps[..|ps| - 1]).Some?)
    requires FinishParagraph(ctx, ps[|ps| - 1], d0) == Ok((q, d1))
    ensures FinishedAs(ctx, ps[|ps| - 1], q, CommentIndex(ctx, ps, done) == Some(|ps| - 1))
  {
    var n := |ps| - 1;
    FirstBlankLast(ctx, ps);
    FinishParagraphSpec(ctx, ps[n], d0);
    assert (FirstBlank(ctx, ps) == Some(n)) == (FirstBlank(ctx, ps[..n]).None? && BlankAfterCleaning(ctx, ps[n]));
  }


  // ---------------------------------------------------------------------
  // One cell, and the traversal that stops after the graded cell

  /** One cell: the first paragraph loop, then, when the grade is written, the second. */
  function FillCell(ctx: Context, cell: Cell, f: Flags): Result<(Cell, Flags), FillError> {
    var (scanned, g) := ScanParagraphs(ctx, cell, f);
    if g.grade then
      match FinishParagraphs(ctx, scanned, g.comment)
      case Err(e) => Err(e)
      case Ok((finished, c)) => Ok((finished, g.(comment := c)))
    else
      Ok((scanned, g))
  }

  /**
   * A loop over `xs` that applies `step` and breaks as soon as the grade
   * flag is set: the elements after that are returned as they were.
   */
  function FoldStop<T>(ctx: Context, xs: seq<T>, f: Flags,
                       step: (Context, T, Flags) -> Result<(T, Flags), FillError>): Result<(seq<T>, Flags), FillError>
  {
    if xs == [] then Ok(([], f))
    else
      match FoldStop(ctx, xs[..|xs| - 1], f, step)
      case Err(e) => Err(e)
      case Ok((ys, g)) =>
        if g.grade then Ok((ys + [xs[|xs| - 1]], g))
        else
          match step(ctx, xs[|xs| - 1], g)
          case Err(e) => Err(e)
          case Ok((y, h)) => Ok((ys + [y], h))
  }

  function FillRow(ctx: Context, row: Row, f: Flags): Result<(Row, Flags), FillError> {
    FoldStop(ctx, row, f, FillCell)
  }

  function FillTable(ctx: Context, table: Table, f: Flags): Result<(Table, Flags), FillError> {
    FoldStop(ctx, table, f, FillRow)
  }

  function FillDocument(ctx: Context, tables: seq<Table>, f: Flags): Result<(seq<Table>, Flags), FillError> {
    FoldStop(ctx, tables, f, FillTable)
  }

  /** The document to save: only when grade, signature and comment were all written. */
  function FillReport(ctx: Context, tables: seq<Table>): Option<seq<Table>> {
    match FillDocument(ctx, tables, NO_FLAGS)
    case Err(_) => None
    case Ok((doc, g)) => if g.grade && g.sign && g.comment then Some(doc) else None
  }

  /** What fill_grade_in_report writes: the filled report at the (rewritten) path, or nothing. */
  function FillOutcome(path: string, tables: seq<Table>, grade: string, date: string): Option<SavedReport> {
    match FillReport(Context(grade, date), tables)
    case None => None
    case Some(doc) => Some(SavedReport(ReportPath(path), doc))
  }

  // ---------------------------------------------------------------------
  // Properties of the stopping loop

  /** Prepends `prefix` to a successful result. */
  function Extend<T>(prefix: seq<T>, r: Result<(seq<T>, Flags), FillError>): Result<(seq<T>, Flags), FillError> {
    match r
    case Err(e) => Err(e)
    case Ok((ys, g)) => Ok((prefix + ys, g))
  }

  /** Once the grade is written, the loop leaves everything alone. */
  lemma {:induction false} FoldStopSkips<T>(ctx: Context, xs: seq<T>, f: Flags,
                                           step: (Context, T, Flags) -> Result<(T, Flags), FillError>)
    requires f.grade
    ensures FoldStop(ctx, xs, f, step) == Ok((xs, f))
  {
    if xs != [] {
      FoldStopSkips(ctx, xs[..|xs| - 1], f, step);
      assert xs[..|xs| - 1] + [xs[|xs| - 1]] == xs;
    }
  }

  /** Running the loop over `a + b` is running it over `a`, then over `b` from where it stopped. */
  lemma {:induction false} FoldStopAppend<T>(ctx: Context, a: seq<T>, b: seq<T>, f: Flags,
                                            step: (Context, T, Flags) -> Result<(T, Flags), FillError>)
    ensures FoldStop(ctx, a + b, f, step) ==
      match FoldStop(ctx, a, f, step)
      case Err(e) => Err(e)
      case Ok((ys, g)) => Extend(ys, FoldStop(ctx, b, g, step))
  {
    if b == [] {
      assert a + b == a;
      match FoldStop(ctx, a, f, step)
      case Err(e) =>
      case Ok((ys, g)) => assert ys + [] == ys;
    } else {
      var n := |b| - 1;
      FoldStopAppend(ctx, a, b[..n], f, step);
      assert (a + b)[..|a + b| - 1] == a + b[..n];
      assert (a + b)[|a + b| - 1] == b[n];
      match FoldStop(ctx, a, f, step)
      case Err(e) =>
      case Ok((ys, g)) =>
        match FoldStop(ctx, b[..n], g, step)
        case Err(e) =>
        case Ok((zs, h)) =>
          assert ys + zs + [b[n]] == ys + (zs + [b[n]]);
          match step(ctx, b[n], h)
          case Err(e) =>
          case Ok((y, k)) =>
            assert ys + zs + [y] == ys + (zs + [y]);
    }
  }

  /** A one-element result. */
  function Lift<T>(r: Result<(T, Flags), FillError>): Result<(seq<T>, Flags), FillError> {
    match r
    case Err(e) => Err(e)
    case Ok((y, g)) => Ok(([y], g))
  }

  /** Concatenates the pieces of a successful result. */
  function Flat<T>(r: Result<(seq<seq<T>>, Flags), FillError>): Result<(seq<T>, Flags), FillError> {
    match r
    case Err(e) => Err(e)
    case Ok((yss, g)) => Ok((Concat(yss), g))
  }

  /**
   * Nested stopping loops, where the inner loop breaks and the outer loop
   * then breaks too, do what one stopping loop over the concatenation does.
   */
  lemma {:induction false} FoldStopFlatten<T>(ctx: Context, xss: seq<seq<T>>, f: Flags,
                                             inner: (Context, seq<T>, Flags) -> Result<(seq<T>, Flags), FillError>,
                                             step: (Context, T, Flags) -> Result<(T, Flags), FillError>)
    requires forall xs, g :: inner(ctx, xs, g) == FoldStop(ctx, xs, g, step)
    ensures Flat(FoldStop(ctx, xss, f, inner)) == FoldStop(ctx, Concat(xss), f, step)
  {
    if xss != [] {
      var n := |xss| - 1;
      var front := xss[..n];
      var xs := xss[n];
      FoldStopFlatten(ctx, front, f, inner, step);
      assert xss == front + [xs];
      ConcatAppend(front, [xs]);
      assert Concat([xs]) == Concat([]) + xs;
      FoldStopAppend(ctx, Concat(front), xs, f, step);
      match FoldStop(ctx, front, f, inner)
      case Err(e) =>
      case Ok((yss, g)) =>
        if g.grade {
          FoldStopSkips(ctx, xs, g, step);
          ConcatAppend(yss, [xs]);
          assert Concat([xs]) == Concat([]) + xs;
        } else {
          match inner(ctx, xs, g)
          case Err(e) =>
          case Ok((ys, h)) =>
            ConcatAppend(yss, [ys]);
            assert Concat([ys]) == Concat([]) + ys;
        }
    }
  }

  // ---------------------------------------------------------------------
  // Properties of one cell

  /** The texts of two cells agree paragraph by paragraph. */
  predicate SameTexts(a: Cell, b: Cell) {
    |a| == |b| && forall i :: 0 <= i < |a| ==> a[i].text == b[i].text
  }

  predicate HasGradeBlank(cell: Cell) {
    FirstContaining(cell, GRADE_BLANK).Some?
  }

  /**
   * The cell with the grade written into its first paragraph holding the
   * blank: the texts the signature test and the second loop see.
   */
  function GradedCell(ctx: Context, cell: Cell): (graded: Cell)
    ensures GradedAt(ctx, cell, FirstContaining(cell, GRADE_BLANK), graded)
  {
    var k := FirstContaining(cell, GRADE_BLANK);
    seq(|cell|, i requires 0 <= i < |cell| =>
      cell[i].(text := if k == Some(i) then ReplaceAll(cell[i].text, GRADE_BLANK, GradeWritten(ctx.grade)) else cell[i].text))
  }

  /** The first paragraph loop, entered before the grade is written, leaves the graded texts. */
  lemma ScannedIsGraded(ctx: Context, cell: Cell, f: Flags)
    requires !f.grade
    ensures SameTexts(ScanParagraphs(ctx, cell, f).0, GradedCell(ctx, cell))
  {
    ScanParagraphsTexts(ctx, cell, f);
  }

  /** The searches over paragraphs look at the texts only. */
  lemma SameTextsSameSearches(ctx: Context, a: Cell, b: Cell)
    requires SameTexts(a, b)
    ensures FirstBlank(ctx, a) == FirstBlank(ctx, b)
    ensures FirstContaining(a, SIGNATURE_LABEL) == FirstContaining(b, SIGNATURE_LABEL)
  {
    SameTextsSameBlanks(ctx, a, b);
    SameTextsSameLabel(a, b, SIGNATURE_LABEL);
  }

  lemma SameTextsSameBlanks(ctx: Context, a: Cell, b: Cell)
    requires SameTexts(a, b)
    ensures FirstBlank(ctx, a) == FirstBlank(ctx, b)
  {
    forall i | 0 <= i < |a|
      ensures Blanks(ctx, a)[i] == Blanks(ctx, b)[i]
    {
      assert a[i].text == b[i].text;
    }
    assert Blanks(ctx, a) == Blanks(ctx, b);
  }

  lemma SameTextsSameLabel(a: Cell, b: Cell, pat: string)
    requires SameTexts(a, b)
    ensures FirstContaining(a, pat) == FirstContaining(b, pat)
  {
    assert forall i :: 0 <= i < |a| ==> a[i].text == b[i].text;
  }

  /**
   * The texts of the graded cell after the second loop: every paragraph of
   * the graded texts is cleaned, except the first blank one, which holds
   * the comment, when no comment was written before (`done`).
   */
  predicate FinishedCellTexts(ctx: Context, cell: Cell, done: bool, out: Cell) {
    var graded := GradedCell(ctx, cell);
    var blank := CommentIndex(ctx, graded, done);
    && |out| == |cell|
    && forall i :: 0 <= i < |cell| ==>
         if blank == Some(i) then GradeComment(ctx.grade) == Some(out[i].text)
         else out[i].text == Cleaned(ctx, graded[i].text)
  }

  /**
   * One cell, entered before the grade is written: the grade flag is set
   * exactly when the cell holds the grade blank; a comment is only written
   * for a grade int() accepts, and a failure means int() rejected it.
   */
  lemma FillCellFlags(ctx: Context, cell: Cell, f: Flags)
    requires !f.grade
    ensures FillCell(ctx, cell, f).Err? ==> HasGradeBlank(cell) && ParseInt(ctx.grade).None?
    ensures FillCell(ctx, cell, f).Ok? ==>
      var (out, g) := FillCell(ctx, cell, f).value;
      && |out| == |cell|
      && g.grade == HasGradeBlank(cell)
      && (!g.grade ==> g.comment == f.comment)
      && (f.sign ==> g.sign)
      && (g.comment ==> f.comment || ParseInt(ctx.grade).Some?)
  {
    ScanParagraphsFlags(ctx, cell, f);
    var (scanned, g) := ScanParagraphs(ctx, cell, f);
    if g.grade {
      FinishParagraphsFails(ctx, scanned, g.comment);
      FinishParagraphsTexts(ctx, scanned, g.comment);
      match FinishParagraphs(ctx, scanned, g.comment)
      case Err(e) =>
      case Ok((finished, c)) =>
        if c && !g.comment {
          var k := FirstBlank(ctx, scanned).value;
          assert GradeComment(ctx.grade) == Some(finished[k].text);
        }
    }
  }

  /**
   * More exactly: the cell fails exactly when it holds the grade blank, a
   * comment is still due, some graded paragraph is blank after cleaning,
   * and int() rejects the grade. Otherwise the signature flag ends set
   * exactly when it was set or a graded paragraph holds the label, and the
   * comment flag exactly when it was set or the cell was graded and has a
   * paragraph that is blank after cleaning.
   */
  lemma FillCellFlagsExact(ctx: Context, cell: Cell, f: Flags)
    requires !f.grade
    ensures FillCell(ctx, cell, f).Err? <==>
      HasGradeBlank(cell) && CommentIndex(ctx, GradedCell(ctx, cell), f.comment).Some? && ParseInt(ctx.grade).None?
    ensures FillCell(ctx, cell, f).Ok? ==>
      var graded := GradedCell(ctx, cell);
      var g := FillCell(ctx, cell, f).value.1;
      && g.sign == (f.sign || FirstContaining(graded, SIGNATURE_LABEL).Some?)
      && g.comment == (f.comment || (HasGradeBlank(cell) && FirstBlank(ctx, graded).Some?))
  {
    ScanParagraphsFlags(ctx, cell, f);
    ScannedIsGraded(ctx, cell, f);
    var (scanned, g) := ScanParagraphs(ctx, cell, f);
    SameTextsSameSearches(ctx, scanned, GradedCell(ctx, cell));
    if g.grade {
      FinishParagraphsFails(ctx, scanned, g.comment);
    }
  }

  /** The graded cell: its texts after both paragraph loops. */
  lemma FillCellGraded(ctx: Context, cell: Cell, f: Flags)
    requires !f.grade && HasGradeBlank(cell)
    ensures FillCell(ctx, cell, f).Ok? ==> FinishedCellTexts(ctx, cell, f.comment, FillCell(ctx, cell, f).value.0)
  {
    ScanParagraphsFlags(ctx, cell, f);
    var (scanned, g) := ScanParagraphs(ctx, cell, f);
    FinishParagraphsTexts(ctx, scanned, g.comment);
    match FinishParagraphs(ctx, scanned, g.comment)
    case Err(e) =>
    case Ok((finished, c)) =>
      assert FillCell(ctx, cell, f).value.0 == finished;
      FinishedGradedTexts(ctx, cell, f, scanned, finished);
  }

  lemma FinishedGradedTexts(ctx: Context, cell: Cell, f: Flags, scanned: Cell, finished: Cell)
    requires !f.grade && scanned == ScanParagraphs(ctx, cell, f).0
    requires FinishedTexts(ctx, scanned, CommentIndex(ctx, scanned, f.comment), finished)
    ensures FinishedCellTexts(ctx, cell, f.comment, finished)
  {
    var graded := GradedCell(ctx, cell);
    ScannedIsGraded(ctx, cell, f);
    SameTextsSameBlanks(ctx, scanned, graded);
    var blank := CommentIndex(ctx, graded, f.comment);
    forall i | 0 <= i < |cell|
      ensures if blank == Some(i) then GradeComment(ctx.grade) == Some(finished[i].text)
              else finished[i].text == Cleaned(ctx, graded[i].text)
    {
      assert FinishedAs(ctx, scanned[i], finished[i], blank == Some(i));
      assert scanned[i].text == graded[i].text;
    }
  }

  /** A cell without the grade blank keeps its texts. */
  lemma FillCellTexts(ctx: Context, cell: Cell, f: Flags)
    requires !f.grade && !HasGradeBlank(cell)
    ensures FillCell(ctx, cell, f).Ok?
    ensures SameTexts(FillCell(ctx, cell, f).value.0, cell)
  {
    ScanParagraphsFlags(ctx, cell, f);
    ScanParagraphsTexts(ctx, cell, f);
  }

  /** Exactly one signature is added to a cell when the signature flag is newly set there. */
  lemma FillCellSignatures(ctx: Context, cell: Cell, f: Flags)
    ensures FillCell(ctx, cell, f).Ok? ==>
      var (out, g) := FillCell(ctx, cell, f).value;
      Signatures(out) == Signatures(cell) + if g.sign && !f.sign then 1 else 0
  {
    ScanParagraphsSignatureCount(ctx, cell, f);
    var (scanned, g) := ScanParagraphs(ctx, cell, f);
    if g.grade {
      FinishParagraphsTexts(ctx, scanned, g.comment);
      match FinishParagraphs(ctx, scanned, g.comment)
      case Err(e) =>
      case Ok((finished, c)) =>
        FinishedKeepsSignatures(scanned, finished);
    }
  }

  lemma {:induction false} FinishedKeepsSignatures(ps: seq<Paragraph>, qs: seq<Paragraph>)
    requires |qs| == |ps|
    requires forall i :: 0 <= i < |ps| ==> qs[i].signatures == ps[i].signatures
    ensures Signatures(qs) == Signatures(ps)
  {
    if ps != [] {
      var n := |ps| - 1;
      FinishedKeepsSignatures(ps[..n], qs[..n]);
    }
  }

  // ---------------------------------------------------------------------
  // The document as the sequence of its cells in reading order

  /** All cells of all rows of all tables, in the order the loops visit them. */
  function Cells(tables: seq<Table>): seq<Cell> {
    Concat(Concat(tables))
  }

  /** The first cell holding the grade blank. */
  function GradeCell(cells: seq<Cell>): (r: Option<nat>)
    ensures r.None? ==> forall j :: 0 <= j < |cells| ==> !HasGradeBlank(cells[j])
    ensures r.Some? ==> r.value < |cells| && HasGradeBlank(cells[r.value])
                        && forall j :: 0 <= j < r.value ==> !HasGradeBlank(cells[j])
  {
    var bs := seq(|cells|, j requires 0 <= j < |cells| => HasGradeBlank(cells[j]));
    assert forall j :: 0 <= j < |cells| ==> bs[j] == HasGradeBlank(cells[j]);
    FirstTrue(bs)
  }

  lemma GradeCellSnoc(cells: seq<Cell>, cell: Cell)
    ensures GradeCell(cells + [cell]) ==
      if GradeCell(cells).Some? then GradeCell(cells)
      else if HasGradeBlank(cell) then Some(|cells|) else None
  {
    var all := cells + [cell];
    assert forall j :: 0 <= j < |cells| ==> all[j] == cells[j];
    assert all[|cells|] == cell;
  }

  /** The sum of the signature counts over all cells. */
  function TotalSignatures(cells: seq<Cell>): nat {
    if cells == [] then 0 else TotalSignatures(cells[..|cells| - 1]) + Signatures(cells[|cells| - 1])
  }

  /**
   * The cell loop, entered before the grade is written: the grade is written
   * exactly when some cell holds the grade blank, a comment only for a grade
   * int() accepts, a failure only for a grade int() rejects, and the cells
   * keep their number.
   */
  lemma {:induction false} CellsFlags(ctx: Context, cells: seq<Cell>, f: Flags)
    requires !f.grade
    ensures FoldStop(ctx, cells, f, FillCell).Err? ==> GradeCell(cells).Some? && ParseInt(ctx.grade).None?
    ensures FoldStop(ctx, cells, f, FillCell).Ok? ==>
      var (out, g) := FoldStop(ctx, cells, f, FillCell).value;
      && |out| == |cells|
      && g.grade == GradeCell(cells).Some?
      && (!g.grade ==> g.comment == f.comment)
      && (g.comment ==> f.comment || ParseInt(ctx.grade).Some?)
  {
    if cells != [] {
      var front, c := cells[..|cells| - 1], cells[|cells| - 1];
      assert cells == front + [c];
      CellsFlags(ctx, front, f);
      CellLoopSnoc(ctx, front, c, f);
      GradeCellSnoc(front, c);
      match FoldStop(ctx, front, f, FillCell)
      case Err(e) =>
      case Ok((out0, g0)) =>
        if !g0.grade {
          FillCellFlags(ctx, c, g0);
        }
    }
  }

  /** One more cell of the loop over the cells. */
  lemma CellLoopSnoc(ctx: Context, front: seq<Cell>, c: Cell, f: Flags)
    ensures FoldStop(ctx, front + [c], f, FillCell) ==
      match FoldStop(ctx, front, f, FillCell)
      case Err(e) => Err(e)
      case Ok((ys, g)) =>
        if g.grade then Ok((ys + [c], g))
        else
          match FillCell(ctx, c, g)
          case Err(e) => Err(e)
          case Ok((y, h)) => Ok((ys + [y], h))
  {
    assert (front + [c])[..|front|] == front;
  }

  /**
   * The cells before the graded one keep their texts, and the cells after it
   * are left exactly as they were (the loops break after the graded cell).
   */
  lemma {:induction false} CellsUntouched(ctx: Context, cells: seq<Cell>, f: Flags)
    requires !f.grade
    ensures FoldStop(ctx, cells, f, FillCell).Ok? ==>
      var out := FoldStop(ctx, cells, f, FillCell).value.0;
      var k := GradeCell(cells);
      && |out| == |cells|
      && (forall j :: 0 <= j < |cells| && (k.None? || j < k.value) ==> SameTexts(out[j], cells[j]))
      && (forall j :: 0 <= j < |cells| && k.Some? && k.value < j ==> out[j] == cells[j])
  {
    if cells != [] {
      var front, c := cells[..|cells| - 1], cells[|cells| - 1];
      assert cells == front + [c];
      CellsUntouched(ctx, front, f);
      CellsFlags(ctx, front, f);
      CellLoopSnoc(ctx, front, c, f);
      GradeCellSnoc(front, c);
      match FoldStop(ctx, front, f, FillCell)
      case Err(e) =>
      case Ok((out0, g0)) =>
        if g0.grade {
          UntouchedSnoc(front, c, out0, c, GradeCell(front), GradeCell(cells));
        } else {
          FillCellFlags(ctx, c, g0);
          if !HasGradeBlank(c) {
            FillCellTexts(ctx, c, g0);
          }
          match FillCell(ctx, c, g0)
          case Err(e) =>
          case Ok((y, h)) =>
            UntouchedSnoc(front, c, out0, y, GradeCell(front), GradeCell(cells));
        }
    }
  }

  /** One more cell keeps the cells before the graded one and after it as `CellsUntouched` says. */
  lemma UntouchedSnoc(front: seq<Cell>, c: Cell, out0: seq<Cell>, y: Cell, k0: Option<nat>, k: Option<nat>)
    requires |out0| == |front| && FirstOfSnoc(|front|, k0, k)
    requires forall j :: 0 <= j < |front| && (k0.None? || j < k0.value) ==> SameTexts(out0[j], front[j])
    requires forall j :: 0 <= j < |front| && k0.Some? && k0.value < j ==> out0[j] == front[j]
    requires k0.Some? ==> y == c
    requires k.None? ==> SameTexts(y, c)
    ensures var cells, out := front + [c], out0 + [y];
      && |out| == |cells|
      && (forall j :: 0 <= j < |cells| && (k.None? || j < k.value) ==> SameTexts(out[j], cells[j]))
      && (forall j :: 0 <= j < |cells| && k.Some? && k.value < j ==> out[j] == cells[j])
  {
    var cells, out := front + [c], out0 + [y];
    assert forall j :: 0 <= j < |front| ==> cells[j] == front[j] && out[j] == out0[j];
    assert cells[|front|] == c && out[|front|] == y;
  }

  /**
   * The graded cell, reached with no comment written yet (the cells before
   * it cannot write one): its texts are the graded texts cleaned, with the
   * comment in the first blank paragraph, and the comment flag ends set
   * exactly when there is such a paragraph.
   */
  lemma {:induction false} CellsGraded(ctx: Context, cells: seq<Cell>, f: Flags)
    requires !f.grade && !f.comment
    ensures FoldStop(ctx, cells, f, FillCell).Ok? && GradeCell(cells).Some? ==>
      var (out, g) := FoldStop(ctx, cells, f, FillCell).value;
      var k := GradeCell(cells).value;
      && |out| == |cells|
      && FinishedCellTexts(ctx, cells[k], false, out[k])
      && g.comment == FirstBlank(ctx, GradedCell(ctx, cells[k])).Some?
  {
    if cells != [] {
      var n := |cells| - 1;
      var front := cells[..n];
      CellsGraded(ctx, front, f);
      CellsFlags(ctx, front, f);
      assert cells == front + [cells[n]];
      CellLoopSnoc(ctx, front, cells[n], f);
      GradeCellSnoc(front, cells[n]);
      match FoldStop(ctx, front, f, FillCell)
      case Err(e) =>
      case Ok((out0, g0)) =>
        if g0.grade {
          GradedCellKept(ctx, front, cells[n], out0, g0);
        } else if HasGradeBlank(cells[n]) {
          GradedCellHere(ctx, cells[n], g0);
        }
    }
  }

  /** A step after the graded cell keeps what was shown about it. */
  lemma GradedCellKept(ctx: Context, front: seq<Cell>, cell: Cell, out0: seq<Cell>, g0: Flags)
    requires GradeCell(front).Some? && |out0| == |front|
    requires FinishedCellTexts(ctx, front[GradeCell(front).value], false, out0[GradeCell(front).value])
    ensures var k := GradeCell(front).value;
      && (front + [cell])[k] == front[k]
      && (out0 + [cell])[k] == out0[k]
      && |out0 + [cell]| == |front + [cell]|
  {
  }

  /** The step on the graded cell, reached with no comment written. */
  lemma GradedCellHere(ctx: Context, cell: Cell, g0: Flags)
    requires !g0.grade && !g0.comment && HasGradeBlank(cell)
    ensures FillCell(ctx, cell, g0).Ok? ==>
      && FinishedCellTexts(ctx, cell, false, FillCell(ctx, cell, g0).value.0)
      && FillCell(ctx, cell, g0).value.1.comment == FirstBlank(ctx, GradedCell(ctx, cell)).Some?
  {
    FillCellFlagsExact(ctx, cell, g0);
    FillCellGraded(ctx, cell, g0);
  }

  /** The cell has a paragraph holding the signature label. */
  predicate HasLabel(cell: Cell) {
    FirstContaining(cell, SIGNATURE_LABEL).Some?
  }

  /** Some cell before position `k` holds the signature label. */
  predicate LabelBefore(cells: seq<Cell>, k: nat) {
    exists j :: 0 <= j < k && j < |cells| && HasLabel(cells[j])
  }

  /**
   * Whether the first paragraph loop meets the signature label before the
   * loops break: in a cell before the graded one, or in the graded cell once
   * its grade is written; with no graded cell, in any cell.
   */
  predicate SignatureFound(ctx: Context, cells: seq<Cell>) {
    match GradeCell(cells)
    case None => LabelBefore(cells, |cells|)
    case Some(k) => LabelBefore(cells, k) || HasLabel(GradedCell(ctx, cells[k]))
  }

  lemma LabelBeforeSnoc(front: seq<Cell>, c: Cell, k: nat)
    requires k <= |front|
    ensures LabelBefore(front + [c], k) == LabelBefore(front, k)
  {
    assert forall j :: 0 <= j < k ==> (front + [c])[j] == front[j];
  }

  lemma LabelBeforeLast(front: seq<Cell>, c: Cell)
    ensures LabelBefore(front + [c], |front| + 1) == (LabelBefore(front, |front|) || HasLabel(c))
  {
    assert forall j :: 0 <= j < |front| ==> (front + [c])[j] == front[j];
    assert (front + [c])[|front|] == c;
  }

  /** A cell without the grade blank is its own graded cell, as far as the label is concerned. */
  lemma GradedCellWithoutBlank(ctx: Context, c: Cell)
    requires !HasGradeBlank(c)
    ensures HasLabel(GradedCell(ctx, c)) == HasLabel(c)
  {
    SameTextsSameLabel(GradedCell(ctx, c), c, SIGNATURE_LABEL);
  }

  lemma SignatureFoundSnoc(ctx: Context, front: seq<Cell>, c: Cell)
    ensures SignatureFound(ctx, front + [c]) ==
      if GradeCell(front).Some? then SignatureFound(ctx, front)
      else LabelBefore(front, |front|) || HasLabel(GradedCell(ctx, c))
  {
    GradeCellSnoc(front, c);
    match GradeCell(front)
    case Some(k) =>
      LabelBeforeSnoc(front, c, k);
      assert (front + [c])[k] == front[k];
    case None =>
      if HasGradeBlank(c) {
        LabelBeforeSnoc(front, c, |front|);
        assert (front + [c])[|front|] == c;
      } else {
        LabelBeforeLast(front, c);
        GradedCellWithoutBlank(ctx, c);
      }
  }

  /**
   * The cell loop, entered before the grade is written: the signature flag
   * ends set exactly when it was set or the label is met before the break.
   */
  lemma {:induction false} CellsSign(ctx: Context, cells: seq<Cell>, f: Flags)
    requires !f.grade
    ensures FoldStop(ctx, cells, f, FillCell).Ok? ==>
      FoldStop(ctx, cells, f, FillCell).value.1.sign == (f.sign || SignatureFound(ctx, cells))
  {
    if cells != [] {
      var front, c := cells[..|cells| - 1], cells[|cells| - 1];
      assert cells == front + [c];
      CellsSign(ctx, front, f);
      CellsFlags(ctx, front, f);
      CellLoopSnoc(ctx, front, c, f);
      SignatureFoundSnoc(ctx, front, c);
      match FoldStop(ctx, front, f, FillCell)
      case Err(e) =>
      case Ok((out0, g0)) =>
        if !g0.grade {
          FillCellFlagsExact(ctx, c, g0);
        }
    }
  }

  /** Over the whole traversal, exactly one signature is added when the signature flag is set. */
  lemma {:induction false} CellsSignatures(ctx: Context, cells: seq<Cell>, f: Flags)
    requires !f.grade
    ensures FoldStop(ctx, cells, f, FillCell).Ok? ==>
      var (out, g) := FoldStop(ctx, cells, f, FillCell).value;
      TotalSignatures(out) == TotalSignatures(cells) + if g.sign && !f.sign then 1 else 0
  {
    if cells != [] {
      var n := |cells| - 1;
      var front := cells[..n];
      CellsSignatures(ctx, front, f);
      CellsFlags(ctx, front, f);
      assert cells == front + [cells[n]];
      CellLoopSnoc(ctx, front, cells[n], f);
      match FoldStop(ctx, front, f, FillCell)
      case Err(e) =>
      case Ok((out0, g0)) =>
        assert f.sign ==> g0.sign by { FoldStopKeepsSign(ctx, front, f); }
        if g0.grade {
          var out := out0 + [cells[n]];
          assert out[..n] == out0;
        } else {
          FillCellSignatures(ctx, cells[n], g0);
          FillCellFlags(ctx, cells[n], g0);
          match FillCell(ctx, cells[n], g0)
          case Err(e) =>
          case Ok((c, h)) =>
            var out := out0 + [c];
            assert out[..n] == out0;
        }
    }
  }

  /** The signature flag, once set, stays set. */
  lemma {:induction false} FoldStopKeepsSign(ctx: Context, cells: seq<Cell>, f: Flags)
    ensures FoldStop(ctx, cells, f, FillCell).Ok? ==> (f.sign ==> FoldStop(ctx, cells, f, FillCell).value.1.sign)
  {
    if cells != [] {
      var n := |cells| - 1;
      FoldStopKeepsSign(ctx, cells[..n], f);
      match FoldStop(ctx, cells[..n], f, FillCell)
      case Err(e) =>
      case Ok((out0, g0)) =>
        if !g0.grade {
          FillCellFlags(ctx, cells[n], g0);
        }
    }
  }

  // ---------------------------------------------------------------------
  // The whole document

  /** The three nested loops over tables, rows and cells do what one loop over the cells in reading order does. */
  lemma DocumentIsCellLoop(ctx: Context, tables: seq<Table>, f: Flags)
    ensures Flat(Flat(FillDocument(ctx, tables, f))) == FoldStop(ctx, Cells(tables), f, FillCell)
  {
    assert forall xs, g :: FillTable(ctx, xs, g) == FoldStop(ctx, xs, g, FillRow);
    assert forall xs, g :: FillRow(ctx, xs, g) == FoldStop(ctx, xs, g, FillCell);
    FoldStopFlatten(ctx, tables, f, FillTable, FillRow);
    FoldStopFlatten(ctx, Concat(tables), f, FillRow, FillCell);
  }

  /** A report without the grade blank is never saved. */
  lemma NoGradeBlankNeverSaves(ctx: Context, tables: seq<Table>)
    requires GradeCell(Cells(tables)).None?
    ensures FillReport(ctx, tables).None?
  {
    DocumentIsCellLoop(ctx, tables, NO_FLAGS);
    CellsFlags(ctx, Cells(tables), NO_FLAGS);
  }

  /** A grade int() rejects is never saved: either no comment is written or the ValueError is caught. */
  lemma NonIntegerGradeNeverSaves(ctx: Context, tables: seq<Table>)
    requires ParseInt(ctx.grade).None?
    ensures FillReport(ctx, tables).None?
  {
    DocumentIsCellLoop(ctx, tables, NO_FLAGS);
    CellsFlags(ctx, Cells(tables), NO_FLAGS);
  }

  /**
   * A grade that passes the table's digit check can still be rejected by
   * int(): such a report is never saved.
   */
  lemma GradeWithUnitNeverSaves(tables: seq<Table>, date: string)
    ensures StartsWithDigit("85分")
    ensures FillReport(Context("85分", date), tables).None?
  {
    var g := "85分";
    StripTrimmed(g);
    ParseIntRejectsStray(g, 2);
    NonIntegerGradeNeverSaves(Context(g, date), tables);
  }

  /**
   * A saved report: the grade is an integer, the report held the grade
   * blank, the cells before the first such cell keep their texts, the cells
   * after it are unchanged, the graded cell holds the graded texts cleaned
   * with the comment in its first blank paragraph (which exists), and
   * exactly one signature was added.
   */
  lemma SavedReportShape(ctx: Context, tables: seq<Table>)
    requires FillReport(ctx, tables).Some?
    ensures var cells := Cells(tables);
      var out := Cells(FillReport(ctx, tables).value);
      && ParseInt(ctx.grade).Some?
      && GradeCell(cells).Some?
      && |out| == |cells|
      && (forall j :: 0 <= j < GradeCell(cells).value ==> SameTexts(out[j], cells[j]))
      && (forall j :: GradeCell(cells).value < j < |cells| ==> out[j] == cells[j])
      && FirstBlank(ctx, GradedCell(ctx, cells[GradeCell(cells).value])).Some?
      && FinishedCellTexts(ctx, cells[GradeCell(cells).value], false, out[GradeCell(cells).value])
      && TotalSignatures(out) == TotalSignatures(cells) + 1
  {
    DocumentIsCellLoop(ctx, tables, NO_FLAGS);
    CellsFlags(ctx, Cells(tables), NO_FLAGS);
    CellsGraded(ctx, Cells(tables), NO_FLAGS);
    CellsUntouched(ctx, Cells(tables), NO_FLAGS);
    CellsSignatures(ctx, Cells(tables), NO_FLAGS);
  }

  /**
   * The save condition, both ways: a report is saved exactly when int()
   * accepts the grade, some cell holds the grade blank, the graded cell has
   * a blank paragraph after cleaning (for the comment), and the signature
   * label is met before the loops break.
   */
  lemma SavedExactly(ctx: Context, tables: seq<Table>)
    ensures FillReport(ctx, tables).Some? <==>
      var cells := Cells(tables);
      && ParseInt(ctx.grade).Some?
      && GradeCell(cells).Some?
      && FirstBlank(ctx, GradedCell(ctx, cells[GradeCell(cells).value])).Some?
      && SignatureFound(ctx, cells)
  {
    DocumentIsCellLoop(ctx, tables, NO_FLAGS);
    CellsFlags(ctx, Cells(tables), NO_FLAGS);
    CellsGraded(ctx, Cells(tables), NO_FLAGS);
    CellsSign(ctx, Cells(tables), NO_FLAGS);
  }

  // ---------------------------------------------------------------------
  // Lemmas the loops below need

  /** Breaking out of the loop after the grade is written leaves the rest as it was. */
  lemma FoldStopBreak<T>(ctx: Context, xs: seq<T>, i: nat, f: Flags,
                         step: (Context, T, Flags) -> Result<(T, Flags), FillError>)
    requires i <= |xs|
    requires FoldStop(ctx, xs[..i], f, step).Ok? && FoldStop(ctx, xs[..i], f, step).value.1.grade
    ensures FoldStop(ctx, xs, f, step) ==
      Ok((FoldStop(ctx, xs[..i], f, step).value.0 + xs[i..], FoldStop(ctx, xs[..i], f, step).value.1))
  {
    assert xs == xs[..i] + xs[i..];
    FoldStopAppend(ctx, xs[..i], xs[i..], f, step);
    FoldStopSkips(ctx, xs[i..], FoldStop(ctx, xs[..i], f, step).value.1, step);
  }

  /** One more turn of the loop, before the grade is written. */
  lemma FoldStopStep<T>(ctx: Context, xs: seq<T>, i: nat, f: Flags,
                        step: (Context, T, Flags) -> Result<(T, Flags), FillError>)
    requires i < |xs|
    requires FoldStop(ctx, xs[..i], f, step).Ok? && !FoldStop(ctx, xs[..i], f, step).value.1.grade
    ensures FoldStop(ctx, xs[..i + 1], f, step) ==
      Extend(FoldStop(ctx, xs[..i], f, step).value.0, Lift(step(ctx, xs[i], FoldStop(ctx, xs[..i], f, step).value.1)))
  {
    assert xs[..i + 1][..i] == xs[..i];
  }

  /** An exception ends the whole loop. */
  lemma FoldStopErr<T>(ctx: Context, xs: seq<T>, i: nat, f: Flags,
                       step: (Context, T, Flags) -> Result<(T, Flags), FillError>)
    requires i <= |xs|
    requires FoldStop(ctx, xs[..i], f, step).Err?
    ensures FoldStop(ctx, xs, f, step) == FoldStop(ctx, xs[..i], f, step)
  {
    assert xs == xs[..i] + xs[i..];
    FoldStopAppend(ctx, xs[..i], xs[i..], f, step);
  }

  lemma ScanParagraphsStep(ctx: Context, ps: seq<Paragraph>, i: nat, f: Flags)
    requires i < |ps|
    ensures ScanParagraphs(ctx, ps[..i + 1], f) ==
      var (qs, g) := ScanParagraphs(ctx, ps[..i], f);
      var (q, h) := ScanParagraph(ctx, ps[i], g);
      (qs + [q], h)
  {
    assert ps[..i + 1][..i] == ps[..i];
  }

  lemma FinishParagraphsStep(ctx: Context, ps: seq<Paragraph>, i: nat, done: bool)
    requires i < |ps|
    requires FinishParagraphs(ctx, ps[..i], done).Ok?
    ensures FinishParagraphs(ctx, ps[..i + 1], done) ==
      var (qs, d) := FinishParagraphs(ctx, ps[..i], done).value;
      match FinishParagraph(ctx, ps[i], d)
      case Err(e) => Err(e)
      case Ok((q, d')) => Ok((qs + [q], d'))
  {
    assert ps[..i + 1][..i] == ps[..i];
  }

  lemma {:induction false} FinishParagraphsErr(ctx: Context, ps: seq<Paragraph>, i: nat, done: bool)
    requires i <= |ps|
    requires FinishParagraphs(ctx, ps[..i], done).Err?
    ensures FinishParagraphs(ctx, ps, done) == Err(ValueError)
  {
    var j := i;
    while j < |ps|
      invariant i <= j <= |ps|
      invariant FinishParagraphs(ctx, ps[..j], done).Err?
    {
      FinishParagraphsErrStep(ctx, ps, j, done);
      j := j + 1;
    }
    assert ps[..j] == ps;
    assert FinishParagraphs(ctx, ps, done).error.ValueError?;
  }

  lemma FinishParagraphsErrStep(ctx: Context, ps: seq<Paragraph>, j: nat, done: bool)
    requires j < |ps| && FinishParagraphs(ctx, ps[..j], done).Err?
    ensures FinishParagraphs(ctx, ps[..j + 1], done) == FinishParagraphs(ctx, ps[..j], done)
  {
    assert ps[..j + 1][..j] == ps[..j];
  }

  // ---------------------------------------------------------------------
  // The loops of fill_grade_in_report

  /** The first paragraph loop of a cell: grade and signature. */
  method ScanCellParagraphs(ctx: Context, cell: Cell, f: Flags) returns (scanned: Cell, flags: Flags)
    ensures (scanned, flags) == ScanParagraphs(ctx, cell, f)
  {
    scanned := [];
    flags := f;
    for i := 0 to |cell|
      invariant ScanParagraphs(ctx, cell[..i], f) == (scanned, flags)
    {
      var p := cell[i];
      ScanParagraphsStep(ctx, cell, i, f);
      if Contains(p.text, GRADE_BLANK) && !flags.grade {
        p := p.(text := ReplaceAll(p.text, GRADE_BLANK, GradeWritten(ctx.grade)));
        flags := flags.(grade := true);
      }
      if Contains(p.text, SIGNATURE_LABEL) && !flags.sign {
        p := p.(signatures := p.signatures + 1);
        flags := flags.(sign := true);
      }
      scanned := scanned + [p];
    }
    assert cell[..|cell|] == cell;
  }

  /** The second paragraph loop of the graded cell: hint, date and comment; int() may fail. */
  method FinishCellParagraphs(ctx: Context, scanned: Cell, done: bool) returns (r: Result<(Cell, bool), FillError>)
    ensures r == FinishParagraphs(ctx, scanned, done)
  {
    var finished: Cell := [];
    var commentFilled := done;
    for i := 0 to |scanned|
      invariant FinishParagraphs(ctx, scanned[..i], done) == Ok((finished, commentFilled))
    {
      var p := scanned[i];
      FinishParagraphsStep(ctx, scanned, i, done);
      if Contains(p.text, HINT) {
        p := p.(text := "");
      }
      if Contains(p.text, DATE_BLANK) {
        p := p.(text := ReplaceAll(p.text, DATE_BLANK, ctx.date));
      }
      assert p.text == Cleaned(ctx, scanned[i].text);
      if Strip(p.text) == [] && !commentFilled {
        var grade := ParseInt(ctx.grade);
        if grade.None? {
          assert FinishParagraphs(ctx, scanned[..i + 1], done).Err?;
          FinishParagraphsErr(ctx, scanned, i + 1, done);
          return Err(ValueError);
        }
        p := p.(text := TeacherComment(grade.value));
        commentFilled := true;
      }
      finished := finished + [p];
    }
    assert scanned[..|scanned|] == scanned;
    return Ok((finished, commentFilled));
  }

  /** The two paragraph loops of one cell; the second runs only when the grade is written. */
  method FillCellParagraphs(ctx: Context, cell: Cell, f: Flags) returns (r: Result<(Cell, Flags), FillError>)
    ensures r == FillCell(ctx, cell, f)
  {
    var scanned, flags := ScanCellParagraphs(ctx, cell, f);
    if !flags.grade {
      return Ok((scanned, flags));
    }
    var finish := FinishCellParagraphs(ctx, scanned, flags.comment);
    if finish.Err? {
      return Err(finish.error);
    }
    var (finished, commentFilled) := finish.value;
    return Ok((finished, flags.(comment := commentFilled)));
  }

  /** The cell loop of one row; it breaks after the cell where the grade was written. */
  method FillRowCells(ctx: Context, row: Row, f: Flags) returns (r: Result<(Row, Flags), FillError>)
    ensures r == FillRow(ctx, row, f)
  {
    var done: Row := [];
    var flags := f;
    var i := 0;
    while i < |row| && !flags.grade
      invariant 0 <= i <= |row|
      invariant FoldStop(ctx, row[..i], f, FillCell) == Ok((done, flags))
    {
      var outcome := FillCellParagraphs(ctx, row[i], flags);
      FoldStopStep(ctx, row, i, f, FillCell);
      if outcome.Err? {
        FoldStopErr(ctx, row, i + 1, f, FillCell);
        return Err(outcome.error);
      }
      var (cell, next) := outcome.value;
      done := done + [cell];
      flags := next;
      i := i + 1;
    }
    if i < |row| {
      FoldStopBreak(ctx, row, i, f, FillCell);
      return Ok((done + row[i..], flags));
    }
    assert row[..i] == row;
    return Ok((done, flags));
  }

  /** The row loop of one table; it breaks once the grade is written. */
  method FillTableRows(ctx: Context, table: Table, f: Flags) returns (r: Result<(Table, Flags), FillError>)
    ensures r == FillTable(ctx, table, f)
  {
    var done: Table := [];
    var flags := f;
    var i := 0;
    while i < |table| && !flags.grade
      invariant 0 <= i <= |table|
      invariant FoldStop(ctx, table[..i], f, FillRow) == Ok((done, flags))
    {
      var outcome := FillRowCells(ctx, table[i], flags);
      FoldStopStep(ctx, table, i, f, FillRow);
      if outcome.Err? {
        FoldStopErr(ctx, table, i + 1, f, FillRow);
        return Err(outcome.error);
      }
      var (row, next) := outcome.value;
      done := done + [row];
      flags := next;
      i := i + 1;
    }
    if i < |table| {
      FoldStopBreak(ctx, table, i, f, FillRow);
      return Ok((done + table[i..], flags));
    }
    assert table[..i] == table;
    return Ok((done, flags));
  }

  /**
   * fill_grade_in_report: `tables` is the document read from the report
   * (after the `.doc` conversion) and `date` today's date text. The result
   * is True exactly when the filled report was written back to its path.
   */
  method FillGradeInReport(reportPath: string, tables: seq<Table>, grade: string, date: string)
    returns (ok: bool, written: Option<SavedReport>)
    ensures written == FillOutcome(reportPath, tables, grade, date)
    ensures ok == written.Some?
  {
    var path := reportPath;
    if EndsWith(path, ".doc") {
      path := ReplaceAll(path, ".doc", ".docx");
    }
    var ctx := Context(grade, date);
    var doc: seq<Table> := [];
    var flags := NO_FLAGS;
    var t := 0;
    while t < |tables| && !flags.grade
      invariant 0 <= t <= |tables|
      invariant FoldStop(ctx, tables[..t], NO_FLAGS, FillTable) == Ok((doc, flags))
    {
      var outcome := FillTableRows(ctx, tables[t], flags);
      FoldStopStep(ctx, tables, t, NO_FLAGS, FillTable);
      if outcome.Err? {
        FoldStopErr(ctx, tables, t + 1, NO_FLAGS, FillTable);
        return false, None;
      }
      var (table, next) := outcome.value;
      doc := doc + [table];
      flags := next;
      t := t + 1;
    }
    if t < |tables| {
      FoldStopBreak(ctx, tables, t, NO_FLAGS, FillTable);
      doc := doc + tables[t..];
    } else {
      assert tables[..t] == tables;
    }
    if flags.grade && flags.sign && flags.comment {
      return true, Some(SavedReport(path, doc));
    }
    return false, None;
  }
}
