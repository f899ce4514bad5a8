/** The teacher's comment chosen from a numeric grade (generate_teacher_comment). */
module Comments {
  const FAIR_COMMENT: string := "实习报告内容尚可，但需要进一步提高对专业知识的理解。"
  const GOOD_COMMENT: string := "实习报告较为完整，体现了较好的专业理解能力。"
  const EXCELLENT_COMMENT: string := "实习报告内容优秀，体现了较强的专业素养和实践能力。"

  /** One of three fixed sentences by grade band; grades outside [60, 100] get no comment. */
  function TeacherComment(grade: int): string {
    if 60 <= grade <= 70 then FAIR_COMMENT
    else if 70 < grade <= 85 then GOOD_COMMENT
    else if 85 < grade <= 100 then EXCELLENT_COMMENT
    else ""
  }

  /** Exactly four outcomes, each on its band and only there. */
  lemma CommentBands(grade: int)
    ensures TeacherComment(grade) in {FAIR_COMMENT, GOOD_COMMENT, EXCELLENT_COMMENT, ""}
    ensures TeacherComment(grade) == FAIR_COMMENT <==> 60 <= grade <= 70
    ensures TeacherComment(grade) == GOOD_COMMENT <==> 70 < grade <= 85
    ensures TeacherComment(grade) == EXCELLENT_COMMENT <==> 85 < grade <= 100
    ensures TeacherComment(grade) == "" <==> grade < 60 || grade > 100
  {
    assert FAIR_COMMENT[4] != GOOD_COMMENT[4] && GOOD_COMMENT[4] != EXCELLENT_COMMENT[4];
    assert FAIR_COMMENT[6] != EXCELLENT_COMMENT[6];
  }

  /** Every comment the function produces is a sentence, except the one outside [60, 100]. */
  lemma CommentNonEmptyInRange(grade: int)
    requires 60 <= grade <= 100
    ensures |TeacherComment(grade)| > 0
  {
  }
}
