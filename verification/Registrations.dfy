/** Rows of `subject_registrations` (prisma/schema.prisma:318-354). */
module Registrations {
  import opened Basics
  import opened GradeScale

  datatype CaComponent = CA1 | CA2 | CA3 | CA4 | CA5

  /** The columns ca1_score .. ca5_score. */
  type CaScores = s: seq<Option<real>> | |s| == 5 witness [None, None, None, None, None]

  /** The columns that one recalculation writes together; before the first one they are null. */
  datatype SubjectResult = SubjectResult(caTotal: real, total: real, grading: Grading, isPassed: bool)

  datatype Registration = Registration(
    id: Id,
    tenant: Id,
    student: Id,
    subject: Id,
    classId: Id,
    term: Id,
    session: Id,
    creditUnits: int,
    ca: CaScores,
    exam: Option<real>,
    result: Option<SubjectResult>)

  function Units(r: Registration): real {
    r.creditUnits as real
  }

  function Points(r: Registration): real {
    if r.result.Some? then r.result.value.grading.points else 0.0
  }

  function WeightedPoints(r: Registration): real {
    Points(r) * Units(r)
  }

  function TotalScore(r: Registration): real {
    if r.result.Some? then r.result.value.total else 0.0
  }
}
