# Eduvia: the invariants of the school back end

Eduvia keeps, for many schools in one database, timetables, registrations, assessments, results, files
and sessions. Most services check something, then write several rows that must go on fitting together.
This project models those services and proves what their writes keep, over all inputs and all runs.

Tables are maps or sequences held by a class whose methods change them as the service does. Each such
method is proved equal to a function on the tables, and the properties are lemmas about these functions
and their runs; the modules named Effects say, in terms of rows and columns only, what each call answers and
leaves. Where the code does not do what its surroundings suggest, the code is modelled and the
exact condition under which it works is proved.

| files | what they cover |
|---|---|
| `GradeScale`, `SchoolConfig` | grade lookup, scales that tile 0..100, the validator of submitted scales |
| `SubjectScore`, `PassMark`, `Gpa`, `SessionResults`, `ClassPosition` | the arithmetic of one subject, one term, one session, one class |
| `ResultDb`, `ResultEngine`, `ResultAgreement`, `ResultRange`, `ResultReruns`, `ResultEffects` | the three levels of derived rows, the engine that rewrites them, and that they always agree |
| `GradingDb`, `GradingService`, `GradingSafety`, `GradingRequests`, `GradingRuns`, `MarkingRules`, `GradingEffects` | marking answers, grading by hand, what reaches the result engine, and runs of it all |
| `Clock`, `Timetable`, `TimetableService`, `TimetableSafety`, `TimetableViews`, `TimetableEffects`, `Tutorials`, `TutorialEffects` | the slot allocator, its packing bound, the views, and the tutorial classes of a teacher |
| `SetupDb`, `SetupAgreement`, `SetupSteps`, `SetupService`, `SetupEffects`, `RegistrationUpdate`, `RegistrationRuns` | the denormalised subject lists over the relation tables, and replacing a student's electives |
| `TokenProtocol`, `TokenRevocation`, `TokenSuspension`, `TokenReissue`, `AuthService` | refresh tokens, with the database calls of concurrent requests interleaved freely |
| `RepositoryDb`, `RepositorySafety`, `RepositoryEffects`, `RepositoryService` | files, versions, share links and the storage quota |
| `ApprovalDb`, `ApprovalSafety`, `ApprovalEffects`, `AssessmentService` | assessments from draft to publication, and the approval log |
| `Identifiers` | the generator of matric numbers and employee ids |
| `Basics`, `Rounding`, `Sums`, `Sorting`, `Counting`, `Registrations` | what the others share |

## Where the code departs from its evident intent

- `validateGradeScale` (src/school-config/school-config.service.ts:183) starts its scan one index too early and
  throws for every tiling of two or more bands, the default scale included: `SchoolConfig.ValidatorAgainstTiling`.
- Bands have integer ends, so a percentage such as 69.5 falls between two bands and gets the lowest grade:
  `GradeScale.GradeOfPercentage`, `SchoolConfig.DefaultScaleDropsFractions`.
- A timetable update is checked only for the fields it sends (src/timetable/timetable.service.ts:119), and an
  empty identifier is checked as sent but not written. `TimetableSafety.Harmless` is a condition on the slot and the
  request, and `TimetableSafety.HarmlessIffNeverBreaks` proves it exact.
- Grading by hand before the auto-grade job has stored its score counts that score as zero, and the job then stores
  its part without touching the total (src/assessment/grading.service.ts:108-115, 161-165). The stored total and parts
  stop adding up, exactly as `GradingSafety.TotalAddsUpAfterJobIff` says; `GradingSafety.JobAfterGradingCanLoseMarks`
  is an input.
- Starting a submission checks the time window and the attempts, never the status, so an exam can be handed out
  before it is approved (src/assessment/assessment.service.ts:131-188): `ApprovalSafety.HandsOutClearedIff`,
  `ApprovalSafety.DraftExamIsHandedOut`.
- Grading by hand checks each grade against its own question only (src/assessment/grading.service.ts:133-150): an
  answer named twice counts twice, and auto-gradable or foreign answers count too. `GradingRequests.AlwaysWithinIff` is
  the exact condition on the answers named, `GradingRequests.RepeatedGradesExceed` an input.
- Revoking a user's tokens does not reach a refresh or login that has already passed its checks
  (src/auth/auth.service.ts:117-154): `TokenRevocation.RevokedStaysOutIff` says exactly when the user stays without
  tokens, `TokenRevocation.RevocationBound` how many there can be, and `TokenRevocation.SuspendedUserCanHoldToken` is an
  input.
- Signing puts nothing into a refresh token that tells two of the same second apart (src/auth/auth.service.ts:211-239),
  so a value can be issued and redeemed again: `TokenProtocol.RedeemedWithinIssued`,
  `TokenReissue.SameValueCanBeRedeemedTwice`. Rows are redeemed once all the same.
- Approving looks the approver up in the caller's school and the assessment in none
  (src/approval/approval-workflow.service.ts:71-112): `ApprovalSafety.ApprovedByOwnSchoolIff`,
  `ApprovalSafety.ForeignApproverApproves`.
- `deleteVersion` deletes its row twice, so it fails after having worked, and never gives bytes back
  (src/repository/repository-file.service.ts:354): `RepositorySafety.DeleteVersionRemovesAndFails`,
  `RepositorySafety.OldVersionIsDeletedAndFails`, `RepositorySafety.RunConservesBytes`. Revoking a share link fails in
  the same way (lines 564-573): `RepositorySafety.RevokeRemovesAndFails`.
- The identifier generator takes the string maximum, so once a number outgrows its padding it repeats itself:
  `Identifiers.NextIsNewIffBelowCapacity`.
- Approving and rejecting require no particular status (src/approval/approval-workflow.service.ts:71-159); what was
  approved is still what gets published, because content is frozen as soon as a draft leaves that status.
- `is_passed` compares grade points with a percentage mark (src/result-engine/result-engine.service.ts:77). Nobody
  passes under the default configuration (`PassMark.NobodyPassesByDefault`); `PassMark.PassedMeansMarkIff` says for
  which configurations it means that the total reaches the mark.

## Model

| member | source | states |
|---|---|---|
| `GradeScale.AwardedBand` | src/assessment/gpa-calculator.service.ts:74-102 | for every non-empty scale in any list order the grade is that of a band of the list: the highest-starting band around the percentage, or else a lowest band |
| `GradeScale.ExactlyOneBand` | src/school-config/school-config.service.ts:170-193 | when the integer bands tile 0..100, each integer percentage lies in exactly one entry of the list |
| `GradeScale.GradeOfPercentage` | src/assessment/gpa-calculator.service.ts:74-102 | the grade of any percentage in 0..100: the band its integer part lies in, or the lowest band when it falls in the gap above that band |
| `GradeScale.NoBandGivesLowest` | src/assessment/gpa-calculator.service.ts:85-101 | a percentage in no band (in a gap, below 0, above 100) gets the lowest band |
| `GradeScale.GradeIgnoresListOrder` | src/assessment/gpa-calculator.service.ts:80-83 | reordering the list of a tiling scale changes no grade |
| `SchoolConfig.DefaultScaleTiles` | src/school-config/school-config.service.ts:25-44 | the default scale tiles 0..100 |
| `SchoolConfig.DefaultScaleDropsFractions` | src/school-config/school-config.service.ts:25-44 | concrete: under the default scale 69.5 is graded F while 69 is graded B |
| `SchoolConfig.AcceptedIffSingleBand` | src/school-config/school-config.service.ts:170-193 | the validator as written accepts a scale if and only if it is the single band 0..100 |
| `SchoolConfig.TilingMakesItThrow` | src/school-config/school-config.service.ts:182-192 | every tiling of two or more bands makes the validator read the property of an undefined entry |
| `SchoolConfig.ValidatorAgainstTiling` | src/school-config/school-config.service.ts:170-193 | for all scales: what is accepted tiles, and a tiling is accepted or makes the validator throw, by its number of bands |
| `SchoolConfig.DefaultScaleRefused` | src/school-config/school-config.service.ts:25-44 | the default scale itself tiles and would not pass the validator |
| `SchoolConfig.VerdictByEnds` | src/school-config/school-config.service.ts:170-193 | the verdict for every scale depends on its lowest and highest bands and their number only |
| `SchoolConfig.ConfigOrDefault` | src/school-config/school-config.service.ts:195-209 | a school without a configuration gets weights 40 and 60, pass mark 40, the default scale and approval of exams |
| `SchoolConfig.DefaultGrades` | src/school-config/school-config.service.ts:25-44 | the grade, points and remark of each whole percentage under the default scale |
| `SubjectScore.FinalScoreInRange` | src/result-engine/result-engine.service.ts:42-60 | weights in 1..99 summing to 100 and scores in 0..100 give a final score in 0..100, within 0.005 of the unrounded value |
| `SubjectScore.FinalScoreMonotone` | src/result-engine/result-engine.service.ts:42-60 | the final score never falls when a non-null CA score or the exam score rises |
| `ResultEffects.SubjectRowIsGraded` | src/result-engine/result-engine.service.ts:31-79 | weights unset or not making 100 write nothing; otherwise, with m the mean of the CA columns that are not null (zero when all are) and e the exam score or zero, the row stores ca_total_score = m x CA weight / 100, the total as m x CA weight / 100 + e x exam weight / 100 to the nearest hundredth, the grade of that total, and is_passed; no other registration and no score changes |
| `PassMark.PointsBelowMark` | src/result-engine/result-engine.service.ts:76-78 | where no band carries as many points as the (positive) pass mark, no subject is ever passed |
| `PassMark.NobodyPassesByDefault` | src/school-config/school-config.service.ts:195-209 | concrete: under the default configuration nobody passes any subject |
| `PassMark.PassedMeansMarkIff` | src/result-engine/result-engine.service.ts:42-78 | for every tiling scale and valid weights: is_passed says that the total reaches the pass mark, for all scores in 0..100, if and only if the bands line up with the mark (enough points exactly from the mark on, and no gap above a positive mark) |
| `Gpa.GpaAsSums` | src/assessment/gpa-calculator.service.ts:7-31 | the GPA over eligible rows is the rounded quotient of two sums over all rows, zero when no credits are eligible |
| `Gpa.WeightedGpaPermutation` | src/assessment/gpa-calculator.service.ts:7-31 | the GPA does not depend on the order of the rows |
| `Gpa.WeightedGpaWithinPoints` | src/assessment/gpa-calculator.service.ts:7-31 | with positive eligible credits the GPA is within 0.005 of a mean lying between any bounds on the eligible points |
| `Gpa.CgpaNeverAboveGpa` | src/result-engine/result-engine.service.ts:177-189 | counting missing points as zero never gives a larger figure than the GPA of the same rows, and the same one when no points are missing |
| `SessionResults.GroupBySession` | src/result-engine/result-engine.service.ts:277-293 | one pass files every row under its session, in order of arrival, and creates no other group |
| `SessionResults.GroupingConserves` | src/result-engine/result-engine.service.ts:173-175 | summing any figure (credits, weighted points) group by group gives its sum over all rows |
| `SessionResults.LifetimeIsWeightedMean` | src/result-engine/result-engine.service.ts:177-207 | the exact lifetime CGPA is the credit-weighted mean of the exact session CGPAs, and its credits are the sum of theirs |
| `SessionResults.LifetimeBetweenSessions` | src/result-engine/result-engine.service.ts:173-207 | the rounded lifetime CGPA lies between the rounded CGPAs of two sessions that carry credit |
| `ClassPosition.RankIsPlace` | src/result-engine/result-engine.service.ts:256-270 | the rank of an entry is its place in the list sorted by descending average |
| `ClassPosition.SameRankSameEntry` | src/result-engine/result-engine.service.ts:262-268 | no two students share a rank |
| `ClassPosition.RanksAreOnto` | src/result-engine/result-engine.service.ts:262-268 | ranks lie in 1..total and every one of them is held |
| `ClassPosition.RankBounds` | src/result-engine/result-engine.service.ts:256-270 | a rank exceeds the number of students strictly above and is at most the number at least as good |
| `ResultEngine.TermFiguresIgnoreOrder` | src/result-engine/result-engine.service.ts:90-106 | total, average, credits and GPA of a term do not depend on the order the rows are read in |
| `ResultEngine.ResultEngine.RecalculateCgpa` | src/result-engine/result-engine.service.ts:164-233 | the loop over sessions leaves every cumulative row of the student, and no other, rewritten from all of the student's registrations |
| `ResultEngine.ResultEngine.RecalculateTermResult` | src/result-engine/result-engine.service.ts:85-156 | upserts the term row from the term's registrations, with the position read before the write, then recalculates the CGPA |
| `ResultEngine.ResultEngine.RecalculateSubjectResult` | src/result-engine/result-engine.service.ts:23-82 | refuses unset weights and weights not summing to 100; otherwise writes the result of the registration and cascades |
| `ResultEngine.ResultEngine.UpdateSubjectScore` | src/assessment/grading.service.ts:225-254 | records the percentage in its CA column, if there is one, and recalculates; nothing happens without a registration |
| `ResultEffects.ScoreIsRecorded` | src/assessment/grading.service.ts:225-265 | nothing happens without a registration of the student for the subject in the term; else the percentage goes into exactly the column of its component, CA1 to CA5, and the registration is graded by its own scores |
| `ResultEffects.TermRowFigures` | src/result-engine/result-engine.service.ts:90-106 | a stored term row: the sum of the totals of the registrations of student and term, null as zero; their rounded average; credits; and the GPA over graded subjects |
| `ResultEffects.CumulativeRowFigures` | src/result-engine/result-engine.service.ts:173-232 | a stored cumulative row: the session CGPA and credits beside those of all the student's registrations |
| `ResultEffects.CumulativeRowsExist` | src/result-engine/result-engine.service.ts:191-207 | there is one exactly for each session in which a student with a term row is registered |
| `ResultEffects.TermAnswers` | src/result-engine/result-engine.service.ts:85-156 | a term is recalculated for a known user with registrations and a profile; without registrations nothing happens, without user or profile it is refused |
| `ResultEffects.NewTermRow` | src/result-engine/result-engine.service.ts:129-142 | a new term row takes class and session of the registration that comes first by total, nulls first |
| `ResultEffects.RankedStudents` | src/result-engine/result-engine.service.ts:243-260 | a position ranks exactly the students of the class who hold a row of the term, by their stored averages |
| `ResultEffects.PositionIsStored` | src/result-engine/result-engine.service.ts:108-109 | the stored position and class size are the student's among these, as the rows stood before |
| `ResultEffects.AbsentIsLast` | src/result-engine/result-engine.service.ts:267-270 | a student without a row of the term is ranked last |
| `ResultAgreement.ScoreKeepsAgreement` | src/result-engine/result-engine.service.ts:23-233 | one score update, whatever its outcome, leaves all three derived levels equal to their recomputation, and exactly the rows that should exist |
| `ResultAgreement.RunKeepsAgreement` | src/result-engine/result-engine.service.ts:23-233 | the same over every sequence of updates of any students |
| `ResultAgreement.AnyRunAgrees` | src/assessment/grading.service.ts:225-254 | from registrations without results every run of score updates ends in agreement |
| `ResultAgreement.EventsKeepRows` | src/result-engine/result-engine.service.ts:85-233 | term and cumulative rows stay equal to their recomputation over every run of score updates with configurations changing in between |
| `ResultAgreement.AnyEventsAgree` | src/result-engine/result-engine.service.ts:85-233 | and so from registrations without results |
| `ResultAgreement.OtherStudentsUntouched` | src/assessment/grading.service.ts:225-254 | a step for one student changes no registration, term row or cumulative row of another |
| `ResultAgreement.StoredLifetimeBetweenSessions` | src/result-engine/result-engine.service.ts:191-232 | in every agreeing state a stored lifetime CGPA lies between two of the student's stored session CGPAs with positive credits |
| `ResultRange.UpdateScoresRows` | src/assessment/grading.service.ts:225-254 | an update changes no scores but the one it records, and no row's tenant or exam score |
| `ResultRange.StoredFiguresInRange` | src/result-engine/result-engine.service.ts:23-156 | over every run of updates within 0..100 all stored totals and term averages stay within 0..100 |
| `ResultReruns.ScoreAgain` | src/assessment/grading.service.ts:225-254 | recording the same score again has the same outcome and leaves every registration, term figure and cumulative row as it was; only positions may move |
| `GradingSafety.AutoScoreIsMarksOfRightAnswers` | src/assessment/grading.service.ts:53-95 | the marks the loop accumulates are the marks of the questions answered right, summed |
| `MarkingRules.JobMarksByRule` | src/assessment/grading.service.ts:53-95 | an auto-gradable answer of the submission gets full marks and is_correct, or zero and not: for choices and true/false exactly when the selected id is that of the first option marked correct, for blanks exactly when the text matches an accepted answer (the list, else the correct answer), else never; no other answer changes, and the auto score is the sum of the marks written |
| `MarkingRules.NormalIffSameText` | src/assessment/grading.service.ts:78-87 | two texts match exactly when they differ in ASCII case and outer spaces only |
| `MarkingRules.JobFailsIff` | src/assessment/grading.service.ts:36-87 | the job fails, changing nothing, exactly without its submission or when a gradable answer's question lacks options or an accepted answer |
| `GradingSafety.CreditsFit` | src/assessment/assessment.service.ts:75-78 | non-negative credits for distinct questions of a paper sum to no more than its total marks |
| `GradingSafety.TotalWithinMarks` | src/assessment/grading.service.ts:119-187 | for answers to distinct questions of the paper, and grades that name manual answers of the submission once each: auto marks plus manual marks never exceed total_marks |
| `GradingRequests.AlwaysWithinIff` | src/assessment/grading.service.ts:133-166 | the exact condition on the answers named: every accepted request keeps stored auto plus manual marks within total_marks if and only if the stored auto score plus all that the named answers can be given is within it, or some name is no answer |
| `GradingRequests.GradedPercentageInRange` | src/assessment/grading.service.ts:119-216 | where the named answers fit in this sense, before or after the job stored its score, the stored percentage, and the one passed to the result engine, lie in 0..100 |
| `GradingRequests.ProperGradesFit` | src/assessment/grading.service.ts:119-166 | requests that name manual answers of the submission once each fit |
| `GradingRequests.RepeatedGradesExceed` | src/assessment/grading.service.ts:133-150 | concrete: naming one essay three times is accepted, stores 15 of 10 marks and passes 150 percent on |
| `GradingSafety.AutoPercentageInRange` | src/assessment/grading.service.ts:97-117 | the same when the auto-grade job finalises by itself |
| `GradingSafety.RerunChangesNothing` | src/queue/queue.module.ts:57-60 | a second run of the auto-grade job leaves every grading table, and what it passes on, as the first left it |
| `GradingRuns.JobAgain` | src/queue/queue.module.ts:57-60 | and it leaves every figure of the result engine: only positions and class sizes in term rows may be written anew |
| `GradingSafety.RetryAfterGradingKeepsScoresIff` | src/assessment/grading.service.ts:97-166 | a job that runs after a grading by hand leaves all score columns as they were if and only if some answer waits for a manual grade and the auto score that grading found is the job's own, or the job cannot mark the answers at all |
| `GradingSafety.TotalAddsUpAfterJobIff` | src/assessment/grading.service.ts:97-187 | after a grading by hand and then the job the stored total is the sum of the two stored parts if and only if grading had found the job's own score (zero, when none was stored), nothing was left to grade by hand, or the job cannot mark the answers |
| `GradingSafety.JobAfterGradingCanLoseMarks` | src/assessment/grading.service.ts:159-163 | concrete: an essay graded 3 before the job ran; the job stores 5 more, and the total stays 3 |
| `GradingRuns.CallKeepsFits` | src/assessment/grading.service.ts:36-166 | each job, and each request whose named answers fit the total marks, keeps every submission fitting its paper and passes on nothing outside 0..100 |
| `GradingRuns.GradingKeepsFiguresInRange` | src/assessment/grading.service.ts:36-254 | over every run of jobs and of gradings by hand whose named answers fit the total marks, on any submissions, the derived rows agree, and all stored totals and term averages stay within 0..100 |
| `GradingService.GradingService.FinaliseSubmissionScore` | src/assessment/grading.service.ts:169-216 | writes exactly the score columns of the submission, feeds the result engine and reports its answer, and keeps its derived rows in agreement |
| `GradingService.GradingService.AutoGradeSubmission` | src/assessment/grading.service.ts:36-117 | the loop marks exactly the auto-gradable answers and either finalises or stores the auto score; agreement is kept |
| `GradingService.GradingService.GradeManualAnswers` | src/assessment/grading.service.ts:119-166 | all grades are written and finalised or, at the first excessive or unknown one, nothing is; agreement is kept |
| `GradingEffects.FinaliseWrites` | src/assessment/grading.service.ts:169-216 | the score columns of the one submission, from total and total_marks: rounded percentage, grade, pass against the mark of the assessment, else of the school, else 40; and what is passed on, exactly where the assessment counts |
| `GradingEffects.JobFinishes` | src/assessment/grading.service.ts:105-117 | the job finalises exactly when no answer of the submission waits for a teacher, and else stores the auto score alone |
| `GradingEffects.HandGradesWritten` | src/assessment/grading.service.ts:119-166 | unless every grade names an answer and stays within its question's marks nothing changes; else each answer gets the marks of the last grade naming it, and the submission is finalised with stored auto score and sum |
| `Clock.StringOrderIsTimeOrder` | src/timetable/timetable.service.ts:186-196 | for HH:MM strings, string order is the order of timeToMinutes |
| `Clock.TimeToMinutesInjective` | src/timetable/timetable.service.ts:653-656 | different HH:MM strings are different times |
| `TimetableService.TimetableService.CheckTeacherConflict` | src/timetable/timetable.service.ts:566-595 | the loop reports a conflict if and only if some other active slot of the teacher in that term and day overlaps |
| `TimetableService.TimetableService.CheckClassConflict` | src/timetable/timetable.service.ts:598-623 | the same for a class |
| `TimetableService.TimetableService.CreateTimetableSlot` | src/timetable/timetable.service.ts:44-99 | one row is appended, or the first failing check is reported and nothing changes; safety is kept |
| `TimetableService.TimetableService.UpdateTimetableSlot` | src/timetable/timetable.service.ts:102-159 | the row is overwritten field by field, with the checks run exactly when the code runs them; a null venue clears the column; safety is kept by every harmless request |
| `TimetableService.TimetableService.DeleteSlot` | src/timetable/timetable.service.ts:162-173 | exactly the named row of the tenant disappears; safety is kept |
| `TimetableService.TimetableService.GetClassTimetable` | src/timetable/timetable.service.ts:177-198 | the view is the class's active rows of the current term, sorted and split by day |
| `TimetableService.TimetableService.GetTeacherTimetable` | src/timetable/timetable.service.ts:201-222 | the same for a teacher |
| `TimetableService.GroupByDay` | src/timetable/timetable.service.ts:753-763 | every day has its list, holding the rows of that day in order |
| `TimetableSafety.CreateKeepsSafe` | src/timetable/timetable.service.ts:44-99 | creating a slot keeps all active slots of a teacher or a class disjoint and every slot inside school hours |
| `TimetableSafety.DeleteKeepsSafe` | src/timetable/timetable.service.ts:162-173 | so does deleting one |
| `TimetableEffects.CreateAnswers` | src/timetable/timetable.service.ts:44-83 | for every request the answer: the first thing amiss, TeacherConflict or ClassConflict exactly when an active slot of teacher or class shares minutes of the term and day, and Done for every request without a conflict |
| `TimetableEffects.CreateAddsActiveSlot` | src/timetable/timetable.service.ts:84-99 | an accepted creation keeps every row and adds one active row with the request's class, subject, teacher, day, times and venue in the current term |
| `TimetableEffects.CreatedSlotIsSeen` | src/timetable/timetable.service.ts:177-222 | it is then in the timetables of its class and its teacher |
| `TimetableEffects.SecondSlotIsRefused` | src/timetable/timetable.service.ts:566-623 | and a later valid request for the same teacher or class that overlaps it is refused with a conflict |
| `TimetableEffects.UpdateWritesSentFields` | src/timetable/timetable.service.ts:146-159 | sent fields are written, a null venue clears, fields not sent and empty ids leave the column; refused updates change nothing |
| `TimetableEffects.UpdateAnswers` | src/timetable/timetable.service.ts:106-144 | the answer for every update: times checked when one is sent, conflicts when day, time or a non-empty id is, for teacher and class as sent |
| `TimetableEffects.DeleteRemovesSlot` | src/timetable/timetable.service.ts:162-173 | exactly one row with this id and school goes, or none exists |
| `TimetableSafety.UpdateSafeIffNoClash` | src/timetable/timetable.service.ts:102-159 | an accepted update keeps the timetable safe if and only if the written row clashes with no other |
| `TimetableSafety.HarmlessIffNeverBreaks` | src/timetable/timetable.service.ts:102-159 | the exact guard on slot and request: a harmless request never breaks a safe timetable, and every other one that the checks can accept breaks a timetable of two slots |
| `TimetableSafety.HarmfulBreaks` | src/timetable/timetable.service.ts:116-146 | for every other such request, the second slot: clear of the old time, inside the written one |
| `TimetableSafety.HarmlessUpdateKeepsSafe` | src/timetable/timetable.service.ts:102-159 | every harmless update keeps the timetable safe |
| `TimetableSafety.RunKeepsSafe` | src/timetable/timetable.service.ts:44-173 | over every run of creations, deletions and harmless updates no two active slots of a teacher or class overlap |
| `TimetableSafety.ReactivationCanClash` | src/timetable/timetable.service.ts:119-127 | concrete: sending only is_active = true is accepted and double-books a teacher |
| `TimetableSafety.EmptyTeacherCanClash` | src/timetable/timetable.service.ts:119-146 | concrete: an empty teacher id is checked as sent but not written, and double-books the old teacher |
| `TimetableSafety.DisjointSlotsFit` | src/timetable/timetable.service.ts:30-31 | disjoint slots inside school hours last at most 480 minutes together, however many they are |
| `TimetableSafety.DayLoadBound` | src/timetable/timetable.service.ts:30-31 | the active slots of a teacher, or a class, in a term on a day sum to at most 480 minutes |
| `TimetableViews.SplitByDay` | src/timetable/timetable.service.ts:753-763 | the day lists one after the other are the sorted list: nothing is lost, repeated or reordered |
| `TimetableViews.ViewIsSchedule` | src/timetable/timetable.service.ts:186-197 | on each day of rows that never overlap, an earlier slot ends no later than a later one starts, by the clock and by string |
| `TimetableViews.TimetablesAreSchedules` | src/timetable/timetable.service.ts:177-222 | so in every safe state the timetable of each class and teacher is a schedule |
| `Tutorials.TutorialService.CreateTutorialClass` | src/timetable/timetable.service.ts:420-477 | one tutorial is appended, or the first failing check is reported and nothing changes; no teacher's tutorials come to overlap |
| `Tutorials.TutorialService.UpdateTutorialClass` | src/timetable/timetable.service.ts:480-521 | title and times are overwritten after the check against the teacher's other tutorials |
| `Tutorials.TutorialService.DeleteTutorialClass` | src/timetable/timetable.service.ts:524-537 | exactly the teacher's named tutorial disappears |
| `TutorialEffects.CreateAddsTutorial` | src/timetable/timetable.service.ts:420-477 | the answer for every request, and the tutorial that an accepted one adds in the current term |
| `TutorialEffects.UpdateWritesTutorial` | src/timetable/timetable.service.ts:480-521 | the answer for every update, and that sent times and a non-empty title are written |
| `TutorialEffects.DeleteRemovesTutorial` | src/timetable/timetable.service.ts:524-537 | exactly one own tutorial of this id goes, or none exists |
| `Tutorials.RunKeepsSafe` | src/timetable/timetable.service.ts:420-649 | over every run no teacher has two tutorials that overlap; here no update escapes the check |
| `TokenProtocol.RowRedeemedOnce` | src/auth/auth.service.ts:117-154 | under every interleaving of the database calls no row of the token table is redeemed twice |
| `TokenProtocol.RedeemedWithinIssued` | src/auth/auth.service.ts:117-154 | under every interleaving, and with no assumption on the values signed, a refresh token is redeemed at most as often as it was issued, its live row included |
| `TokenReissue.SameValueCanBeRedeemedTwice` | src/auth/auth.service.ts:211-239 | concrete: a refresh within the second of the login yields the same value, which is then redeemed twice |
| `TokenProtocol.StepConserves` | src/auth/auth.service.ts:117-172 | every database call keeps: successful logins = live tokens + refreshes in flight + ended sessions, per user |
| `TokenProtocol.RunConserves` | src/auth/auth.service.ts:31-172 | the same over every interleaving |
| `TokenProtocol.AnyInterleaving` | src/users/users.service.ts:972-1104 | from an empty token table, live tokens and refreshes in flight never exceed the user's successful logins, no row is redeemed twice, and no value more often than it was issued |
| `TokenRevocation.StepKeepsReach` | src/auth/auth.service.ts:117-154 | without a new login no database call raises a user's live tokens plus tokens still to be stored |
| `TokenRevocation.RevocationBound` | src/users/users.service.ts:972-1104 | from the revocation on, in every interleaving and until a new login, a user's live tokens never exceed the logins and refreshes already past their checks |
| `TokenRevocation.RevokedStaysOutIff` | src/users/users.service.ts:972-1104 | after the revocation the user stays without tokens in every continuation without a new login if and only if no login or refresh had passed its checks by then, or the user's row is gone |
| `TokenRevocation.SuspendedUserCanHoldToken` | src/auth/auth.service.ts:117-154 | concrete: the bound is met by a refresh that stores its token after the suspension |
| `TokenSuspension.LoginStarts` | src/auth/auth.service.ts:54-84 | a login call starts exactly for an existing user who is not suspended, pending or inactive, with the right password |
| `TokenSuspension.UserSteps` | src/users/users.service.ts:1010-1044 | reactivating sets the status; removing a user takes the row and the user's tokens; all others stay |
| `TokenSuspension.SuspensionHolds` | src/users/users.service.ts:990-1002 | with nothing in flight at the revocation, a suspended user holds no token in any continuation until the suspension is lifted, even if logins are attempted |
| `AuthService.AuthService.GenerateTokens` | src/auth/auth.service.ts:211-239 | the issuing step: the row is stored, or the insert fails and nothing is |
| `AuthService.AuthService.Login` | src/auth/auth.service.ts:31-114 | a token is issued exactly for an existing user who is not suspended, pending or inactive, with the right password and a value not stored; each refusal exactly under its own status; a refused login changes nothing |
| `AuthService.AuthService.RefreshTokens` | src/auth/auth.service.ts:117-154 | each answer exactly under its own condition: unknown, expired, user not active; success replaces the old token by a new one of the same user |
| `AuthService.AuthService.Logout` | src/auth/auth.service.ts:157-163 | exactly that token of that user goes |
| `AuthService.AuthService.LogoutAllDevices` | src/auth/auth.service.ts:166-172 | exactly the user's tokens go |
| `AuthService.AuthService.MarkAndRevoke` | src/users/users.service.ts:972-1104 | the end of a suspension or of the two password changes: the status is as marked and exactly the user's tokens go |
| `SetupAgreement.SyncClassesAgree` | src/school-setup/school-setup.service.ts:1873-1885 | synchronising classes makes their subject_ids duplicate-free and equal to what the relation table gives, and changes no other class |
| `SetupAgreement.SyncTeachersAgree` | src/school-setup/school-setup.service.ts:1888-1913 | the same for assigned_subject_ids |
| `SetupAgreement.SyncingWhatChanged` | src/school-setup/school-setup.service.ts:1873-1913 | synchronising all classes and teachers touched by a change restores every agreement that held before it |
| `SetupSteps.AssignSubjectKeeps` | src/school-setup/school-setup.service.ts:1392-1419 | pairs stay unique and all indexes that agreed still agree after assigning a subject |
| `SetupSteps.BulkAssignSubjectsKeeps` | src/school-setup/school-setup.service.ts:1422-1472 | the same for bulk assignment, skipped entries included |
| `SetupSteps.RemoveSubjectKeeps` | src/school-setup/school-setup.service.ts:1475-1502 | the same for removing a subject from a class, with its teachers cascading away |
| `SetupSteps.DeleteSubjectKeeps` | src/school-setup/school-setup.service.ts:1352-1388 | the same for deleting a subject everywhere |
| `SetupSteps.AssignTeacherKeeps` | src/school-setup/school-setup.service.ts:1505-1538 | the same for assigning a teacher |
| `SetupSteps.BulkTeachersKeep` | src/school-setup/school-setup.service.ts:1540-1599 | the same for every list of teachers |
| `SetupSteps.RemoveTeacherKeeps` | src/school-setup/school-setup.service.ts:1602-1631 | Done exactly when class, subject and teacher are the school's and the teacher teaches the subject there; then exactly that assignment is deleted, every index stays exact, and the teacher's list holds the subject only if the teacher still teaches it elsewhere |
| `SetupEffects.AssignSubjectAddsRow` | src/school-setup/school-setup.service.ts:1392-1419 | the answer for every request, and the one row of the requested kind that is added |
| `SetupEffects.BulkAssignAddsRows` | src/school-setup/school-setup.service.ts:1422-1472 | every row stays, and what is added are the subjects named that are the school's and were not offered, of the kind they are named with |
| `SetupEffects.RemoveSubjectDeletesRow` | src/school-setup/school-setup.service.ts:1475-1502 | the answer for every request; exactly the class's row of the subject and its teachers go, unless it is registered for |
| `SetupEffects.DeleteSubjectDeletesRows` | src/school-setup/school-setup.service.ts:1352-1388 | Done exactly when nothing refers to the subject; then exactly the subject, its rows and their teachers go |
| `SetupEffects.AssignTeacherAddsRow` | src/school-setup/school-setup.service.ts:1505-1538 | the answer for every request, and the one row that is added |
| `SetupEffects.BulkTeachersAddRows` | src/school-setup/school-setup.service.ts:1540-1599 | every teacher named is assigned, by at most one new row, and nobody else is |
| `SetupEffects.BulkTeachersAnswer` | src/school-setup/school-setup.service.ts:1540-1599 | Done exactly when the class offers the subject |
| `SetupSteps.RunKeeps` | src/school-setup/school-setup.service.ts:1352-1631 | over all runs the relation pairs stay unique and every synced class and teacher index stays exact |
| `SetupService.SetupService.AssignSubjectToClass` | src/school-setup/school-setup.service.ts:1392-1419 | the row is added and the class synchronised, or nothing changes |
| `SetupService.SetupService.BulkAssignSubjectsToClass` | src/school-setup/school-setup.service.ts:1422-1472 | the loop adds what is new and valid, in order; added and skipped together account for the request |
| `SetupService.SetupService.RemoveSubjectFromClass` | src/school-setup/school-setup.service.ts:1475-1502 | the row and its teachers go, class and teachers are synchronised |
| `SetupService.SetupService.DeleteSubject` | src/school-setup/school-setup.service.ts:1352-1388 | rows, teachers and the subject go; each touched class and teacher is synchronised |
| `SetupService.SetupService.AssignTeacherToClassSubject` | src/school-setup/school-setup.service.ts:1505-1538 | the pair is added and the teacher synchronised, or nothing changes |
| `SetupService.SetupService.BulkAssignTeachersToClassSubjects` | src/school-setup/school-setup.service.ts:1540-1599 | the loop adds each new teacher once and synchronises them; added and skipped account for the request |
| `SetupService.SetupService.RemoveTeacherFromClassSubject` | src/school-setup/school-setup.service.ts:1602-1631 | the pair goes and the teacher is synchronised |
| `SetupService.SetupService.UpdateSubjectRegistration` | src/school-setup/school-setup.service.ts:1719-1796 | runs as the delete-then-upsert loops and the profile synchronisation |
| `RegistrationUpdate.AcceptedIff` | src/school-setup/school-setup.service.ts:1719-1765 | a request is accepted if and only if it names all compulsory subjects of the class and nothing outside it; a rejected one changes nothing |
| `RegistrationUpdate.RefusedFor` | src/school-setup/school-setup.service.ts:1719-1765 | each refusal exactly under its own condition, in the order of the checks |
| `RegistrationUpdate.UpdateReplacesElectives` | src/school-setup/school-setup.service.ts:1766-1790 | the electives registered for the current term are exactly those requested, and all compulsory subjects are registered |
| `RegistrationUpdate.UpdateLeavesOthers` | src/school-setup/school-setup.service.ts:1766-1796 | no registration of another student or term changes, nor any other profile |
| `RegistrationUpdate.UpdateSyncsProfile` | src/school-setup/school-setup.service.ts:1919-1939 | registered_subject_ids lists each subject registered for the term exactly once |
| `RegistrationUpdate.UpdateIsIdempotent` | src/school-setup/school-setup.service.ts:1719-1796 | sending the same request again changes no registration and no listed subject |
| `RegistrationUpdate.UpdateKeepsAgreement` | src/school-setup/school-setup.service.ts:1719-1796 | and class and teacher indexes stay exact |
| `RegistrationRuns.AssignmentKeeps` | src/school-setup/school-setup.service.ts:1352-1631 | every assignment, removal or deletion leaves exact the registered_subject_ids that were exact |
| `RegistrationRuns.RegistrationKeeps` | src/school-setup/school-setup.service.ts:1719-1796 | so does every registration, which makes the student's own exact |
| `RegistrationRuns.EventsKeepLists` | src/school-setup/school-setup.service.ts:1352-1796 | over every run of both, class, teacher and student lists stay exact for the current term once synchronised |
| `Identifiers.PadParseRoundTrip` | src/users/users.service.ts:1374-1377 | parsing a padded number gives the number back |
| `Identifiers.StringOrderIsNumberOrder` | src/users/users.service.ts:1363-1367 | among digit strings of one length string order is numeric order |
| `Identifiers.LastIsMaximum` | src/users/users.service.ts:1362-1368 | the row found first in descending order is a string maximum of its prefix |
| `Identifiers.LastIsLargest` | src/users/users.service.ts:1362-1368 | among generated identifiers of the padded width it carries the largest number |
| `Identifiers.NextIsNewAndLarger` | src/users/users.service.ts:1358-1416 | the next identifier is larger than, and different from, every stored one |
| `Identifiers.EachKindIsNew` | src/users/users.service.ts:1358-1416 | for matric numbers (4 digits) and for employee ids of teachers and staff (3 digits) |
| `Identifiers.FirstOfEachKind` | src/users/users.service.ts:1358-1416 | concrete: the first matric number and employee ids, GFA/2026/0001, GFA/TCH/001 and GFA/EMP/001 |
| `Identifiers.NextAfterLargest` | src/users/users.service.ts:1358-1416 | after the largest stored number m the next identifier is the prefix and m + 1, padded |
| `Identifiers.SeriesExtends` | src/users/users.service.ts:1358-1416 | below the capacity of the width each generated identifier extends the series 1, 2, 3, ... by one |
| `Identifiers.NextIsNewIffBelowCapacity` | src/users/users.service.ts:1358-1416 | for the series generated from nothing the next identifier is new if and only if 10^width has not been reached |
| `RepositorySafety.CreateFileKeeps` | src/repository/repository-file.service.ts:72-167 | creating a file keeps all of: distinct version numbers within 1..total, live current version numbered total, live <= used <= quota |
| `RepositorySafety.AddVersionKeeps` | src/repository/repository-file.service.ts:170-230 | so does adding a version |
| `RepositorySafety.DeleteVersionKeeps` | src/repository/repository-file.service.ts:328-361 | so does deleting one |
| `RepositorySafety.DeleteVersionRemovesAndFails` | src/repository/repository-file.service.ts:350-361 | deleting an old version never reports success: past its checks the version is gone, everything else as before, and the call fails |
| `RepositorySafety.OldVersionIsDeletedAndFails` | src/repository/repository-file.service.ts:328-361 | concrete: of a file with two versions the first is deleted, the call fails, and 30 bytes stay charged for 20 |
| `RepositorySafety.RevokeRemovesAndFails` | src/repository/repository-file.service.ts:557-576 | revoking a share link never reports success: a link of the file is gone, all others are as before, and the call fails |
| `RepositoryEffects.CreateFileEffects` | src/repository/repository-file.service.ts:72-167 | the answer for every upload, by object and quota; the file, its first version and the charge of an accepted one |
| `RepositoryEffects.AddVersionEffects` | src/repository/repository-file.service.ts:170-230 | the answer for every new version; its number, the file's new current version and the charge |
| `RepositoryEffects.DeleteVersionEffects` | src/repository/repository-file.service.ts:328-361 | each refusal exactly under its own condition, and never success |
| `RepositoryEffects.ArchiveEffects` | src/repository/repository-file.service.ts:385-415 | the answer for every file, and that its status alone changes |
| `RepositoryEffects.ShareEffects` | src/repository/repository-file.service.ts:461-503 | the answer for every file; health, counselling and salary records are never shared; a new link has served nobody |
| `RepositoryEffects.AccessEffects` | src/repository/repository-file.service.ts:506-554 | the answer for every link by time, limit and status of the file, and that one access is counted |
| `RepositoryEffects.LimitedLinkServes` | src/repository/repository-file.service.ts:519-534 | a link limited to n accesses serves the first n and answers every later one that it is used up |
| `RepositorySafety.RunKeeps` | src/repository/repository-file.service.ts:72-576 | the invariant over every run of file, version, archive and share-link operations |
| `RepositorySafety.ServedIsCurrent` | src/repository/repository-file.service.ts:506-554 | the highest-numbered version, which a share link serves, is the one current_version_id names |
| `RepositorySafety.BreaksDownOneMore` | src/repository/repository-quota.service.ts:99-103 | adding a version to the dictionary keeps one entry per scope, each scope's bytes right, and their sum the live bytes |
| `RepositorySafety.StepConservesBytes` | src/repository/repository-quota.service.ts:47-60 | each step changes used bytes minus live bytes by exactly the size of the version it deletes |
| `RepositorySafety.RunConservesBytes` | src/repository/repository-file.service.ts:328-361 | over every run used bytes exceed live bytes by all that was ever deleted: nothing is given back |
| `RepositoryService.RepositoryService.AssertUploadAllowed` | src/repository/repository-quota.service.ts:23-44 | allowed if and only if used plus size is within the quota, the row being created when missing |
| `RepositoryService.RepositoryService.IncrementUsage` | src/repository/repository-quota.service.ts:47-60 | adds the size to the tenant's used bytes only |
| `RepositoryService.RepositoryService.GetUsageBreakdown` | src/repository/repository-quota.service.ts:91-110 | distinct scopes, each with the bytes of its live versions, summing to the tenant's live bytes |
| `RepositoryService.RepositoryService.CreateFileRecord` | src/repository/repository-file.service.ts:72-167 | file and first version are created, pointed at and charged, or nothing but the quota row appears |
| `RepositoryService.RepositoryService.AddNewVersion` | src/repository/repository-file.service.ts:170-230 | the next version is created, the file repointed and the bytes charged, or nothing but the quota row appears |
| `RepositoryService.RepositoryService.DeleteVersion` | src/repository/repository-file.service.ts:328-361 | the state and the failure it leaves |
| `RepositoryService.RepositoryService.SoftDelete` | src/repository/repository-file.service.ts:385-415 | archives the file unless it is retained |
| `RepositoryService.RepositoryService.GenerateShareLink` | src/repository/repository-file.service.ts:461-503 | stores one unused link, or refuses |
| `RepositoryService.RepositoryService.RevokeShareLink` | src/repository/repository-file.service.ts:557-576 | the link is gone and the call fails |
| `RepositoryService.RepositoryService.AccessShareLink` | src/repository/repository-file.service.ts:506-554 | a link in working order serves the version its file points at and counts the access |
| `ApprovalSafety.LeftDraftIsFrozen` | src/assessment/assessment.service.ts:283-301 | an assessment that leaves DRAFT never returns to it, is never removed, and its content never changes |
| `ApprovalSafety.UpdateReachesAnyContent` | src/assessment/assessment.service.ts:283-292 | one update turns a draft's content into any other with the same questions, clearing nullable fields by null, and touches nothing else |
| `ApprovalSafety.RowsKeepMarks` | src/assessment/assessment.service.ts:68-95 | the stored questions carry the total marks of the request and are auto-gradable exactly by their kind |
| `ApprovalSafety.StepKeeps` | src/approval/approval-workflow.service.ts:28-204 | each operation keeps every status, with its approver, rejector and reason, explained by the last log entry; the total marks equal to the questions' sum; the attempts within the limit |
| `ApprovalSafety.RunKeeps` | src/approval/approval-workflow.service.ts:28-204 | the same over every run |
| `ApprovalSafety.ReachableIsValid` | src/assessment/assessment.service.ts:45-301 | and so in every state reached from empty tables |
| `ApprovalSafety.OutWasCleared` | src/assessment/assessment.service.ts:101-128 | whatever is approved or published was cleared by an earlier step (an approval, or a publication that needed none) with the very content it has now, and was sent back by no later one |
| `ApprovalSafety.PublishedExamWasApproved` | src/approval/approval-workflow.service.ts:71-180 | an exam published while its own school required approval was approved earlier by a holder of an approver role, with exactly this content, and the log holds that entry |
| `ApprovalSafety.ApprovedByOwnSchoolIff` | src/approval/approval-workflow.service.ts:71-112 | a successful approval is by an approver of the assessment's own school if and only if the caller's school is the assessment's |
| `ApprovalSafety.ForeignApproverApproves` | src/approval/approval-workflow.service.ts:71-112 | concrete: the head of another school approves an exam |
| `ApprovalSafety.HandsOutClearedIff` | src/assessment/assessment.service.ts:131-188 | for every start of a submission in every run: the content handed out had been cleared by an earlier step and sent back by no later one if and only if the assessment was approved or published at that moment |
| `ApprovalSafety.DraftExamIsHandedOut` | src/assessment/assessment.service.ts:131-188 | concrete: an exam in draft, approval required and nothing logged, is started |
| `ApprovalSafety.LogGrows` | src/approval/approval-workflow.service.ts:52-60 | the approval log only grows |
| `ApprovalEffects.CreateMakesDraft` | src/assessment/assessment.service.ts:45-98 | the answer for every request, and the draft: own teacher, content and marks of the questions, one attempt by default |
| `ApprovalEffects.UpdateWritesSentFields` | src/assessment/assessment.service.ts:283-292 | a column whose field is left out is as it was, one sent as null is null, one sent with a value holds it; nothing else changes |
| `ApprovalEffects.RemoveDeletesDraft` | src/assessment/assessment.service.ts:294-301 | an own draft goes exactly when no log entry and no attempt refers to it |
| `ApprovalEffects.PublishByKind` | src/assessment/assessment.service.ts:101-128 | an exam where approval is required becomes PENDING_APPROVAL with a log entry; every other own draft with questions is PUBLISHED and nothing is logged |
| `ApprovalEffects.PublishApprovedPublishes` | src/approval/approval-workflow.service.ts:163-180 | exactly an approved assessment, whose status alone changes |
| `ApprovalEffects.SubmitMarksAndLogs` | src/approval/approval-workflow.service.ts:28-68 | status and one log entry, or nothing |
| `ApprovalEffects.ApproveMarksAndLogs` | src/approval/approval-workflow.service.ts:71-112 | Done exactly for one of the six roles in the caller's school and an existing row; status, approver and one log entry |
| `ApprovalEffects.RejectMarksAndLogs` | src/approval/approval-workflow.service.ts:115-159 | and for a reason that is more than spaces; status, rejector, reason and one log entry |
| `ApprovalEffects.StartCountsAttempt` | src/assessment/assessment.service.ts:131-188 | the answer by times and attempts made, and one attempt more |
| `AssessmentService.AssessmentService.CreateAssessment` | src/assessment/assessment.service.ts:45-98 | a new draft with its question rows and total marks |
| `AssessmentService.AssessmentService.Update` | src/assessment/assessment.service.ts:283-292 | the owner's draft takes the sent fields, null where the column can be null; anything else is refused; the invariant is kept |
| `AssessmentService.AssessmentService.Remove` | src/assessment/assessment.service.ts:294-301 | the owner's unreferenced draft disappears; anything else is refused |
| `AssessmentService.AssessmentService.Publish` | src/assessment/assessment.service.ts:101-128 | a draft with questions goes to approval when it is an exam and approval is required, otherwise to publication |
| `AssessmentService.AssessmentService.PublishApproved` | src/approval/approval-workflow.service.ts:163-180 | only what is approved becomes published |
| `AssessmentService.AssessmentService.SubmitForApproval` | src/approval/approval-workflow.service.ts:28-68 | status and log entry change together |
| `AssessmentService.AssessmentService.Approve` | src/approval/approval-workflow.service.ts:71-112 | only an approver of the tenant; status and log entry change together |
| `AssessmentService.AssessmentService.Reject` | src/approval/approval-workflow.service.ts:115-159 | a non-blank reason and an approver; status and log entry change together |
| `AssessmentService.AssessmentService.StartSubmission` | src/assessment/assessment.service.ts:131-188 | within the time window and below the attempt limit, one more attempt |

## Left out

- JavaScript's floating-point numbers: scores, points and averages are reals, and rounding is floor(100x + 1/2)/100.
- GradingService.GradingService.FinaliseSubmissionScore: for zero total marks the source still passes its NaN or infinite percentage on; what the database stores for such a number is outside this model, so nothing is passed on then, and the theorems on runs of gradings say nothing of the source for such papers.
- Freshness of class positions: a position is computed before the student's own row is written (src/result-engine/result-engine.service.ts:109), so agreement covers all figures of a term row except position and class size.
- The order of database rows where no order is asked for: table order is used, and ties in class positions are broken by it.
- The cache in front of the configuration: the configuration is read as stored.
- Null columns one by one: the result columns of a registration, or the score columns of a submission, are written together and are null together.
- Timestamps that nothing depends on, such as created_at, graded_at or last_login.
- Unicode: lower-casing and trimming of answers cover ASCII, and string order is by character code.
- Signs and white space in front of numbers read by parseInt.
- Interleavings outside authentication: quota, timetable, attempt and identifier checks are check-then-act, so their invariants hold for calls that run one at a time.
- JWT signing, password hashing, object storage, queues, e-mail and notifications: a token is an opaque value, a password check a boolean, a file size what the store reports, a queue retry a repeated call.
- A token's own signature and payload checks: the token table is what is modelled.
- Repository access rules, retention clocks (a boolean here), access logs, metadata edits and lowering usage, which no operation calls.
- `registerSubjectsForStudent`, which validates subject ids and then filters by class-subject ids (src/school-setup/school-setup.service.ts:1674-1680).
- `deleteClass`, `deleteTerm`, bulk user import and teacher profiles created with subject ids: they do not keep the invariants above.
- Foreign keys of an updated timetable slot: an update naming an unknown class or subject is refused by the database, and accepted here.
- Timetables of a student and of the whole school, lectures, and recurring tutorials beyond their stored interval.
- Submitting and auto-saving answers: that a submission answers each question at most once is a hypothesis of the grading theorems, given by the unique key of the answers table.
- Statuses of an assessment that no operation sets, and the actions of the approval log that no operation writes.
- Prefixes shared by two schools: an identifier is new among the stored ones the generator looks at, which are those of its own tenant.
- Controllers, request validation beyond the hypotheses stated, guards, listing and search, uploads and CSV parsing.
