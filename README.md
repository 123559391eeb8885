# QCU attendance kiosk: a Dafny model of its core

The QCU attendance system is a Next.js kiosk with Python face-embedding
servers. A professor starts a class from the kiosk. The kiosk camera then
finds faces in each frame, and the face embeddings are matched against the
students registered for the section. Each recognised student gets an
attendance record, whose status comes from the class start time: present,
late, or locked once the lock time has passed. The professor and admin
pages read the records back as daily details, summaries and reports.

This project models the decision logic of that system and proves
properties of it:

- the face matching: the cosine similarity with its guards, the single-face
  argmax routes, and the greedy one-to-one assignment of one frame's faces;
- the time rules: the mark route's present/late/locked classifier, the
  class-info lock, and the kiosk countdown and clock formatting;
- the roster roll-ups: absent marking, the student/record merges, and the
  counts and rates of the summary, today-stats, report, history and
  classmates routes;
- the passive liveness counter;
- the crop and box geometry of the face servers and the MediaPipe helper;
- professor face registration (file numbering and descriptor checks) and
  verification (variance band, similarity bands);
- the route guard in the Supabase proxy;
- the kiosk's per-frame deduplication with its `marking`/`marked` sets.

Database tables are sequences of rows passed in, or a field of a class
that the handler methods update (`AttendanceMark.AttendanceStore`,
`ProfRegister.RegistrationStore`). A failing query is a
`Fetch.FetchError` input, or a boolean parameter where only failure
matters. The clock is a `Now` value: weekday, milliseconds since midnight,
ISO date and ISO timestamp. Square roots, face detection, embedding models
and image decoding are function parameters or inputs. `IsSqrt` states
what the proofs assume of the square root.

## Model

| member | source | states |
|---|---|---|
| Similarity.CosineLoop | app/api/attendance/match-faces/route.ts:13-25 | the accumulation loop of `cosineSimilarity`, then its guards, computes `Cosine`: 0 on a length mismatch or a zero magnitude, else dot / (‖a‖·‖b‖) |
| Similarity.Cosine | app/api/attendance/match-faces/route.ts:13-25 | 0 on a length mismatch or a zero magnitude; otherwise the value times the product of the magnitudes is the dot product |
| Similarity.CosineJointMagnitude | app/api/auth/face-login/route.ts:5-25 | 0 on a length mismatch or a zero product of magnitudes; otherwise the value times that product is the dot product |
| Similarity.GuardedNumpyCosine | face-server.py:49-57 | a zero norm gives 0.0 whatever the lengths; the call raises iff the lengths differ and both norms are non-zero; otherwise the value times the norms is the dot product |
| Similarity.NumpyCosine | facenet-optimized-server.py:128-131 | the call raises iff the lengths differ; it is NaN iff the product of the norms is 0; a finite value times that product is the dot product |
| Similarity.Accumulate | app/api/attendance/match-faces/route.ts:15-20 | the loop leaves the dot product and the two squared norms |
| Similarity.CosineJointMagnitudeLoop | app/api/auth/face-login/route.ts:5-25 | the auth copy, which tests the product of the magnitudes once, computes `CosineJointMagnitude` |
| Similarity.CosineVariantsAgree | app/api/auth/face-login/route.ts:21-24 | testing the product of the magnitudes gives the same value as testing each magnitude |
| Similarity.DotSelfNonNegative | app/api/attendance/match-faces/route.ts:18-23 | a squared norm is never negative, and it is zero exactly for the zero vector |
| Similarity.CosineZeroVector | app/api/attendance/match-faces/route.ts:23 | a zero vector has similarity 0 with anything, in the TypeScript copies and in face-server's guarded copy |
| Similarity.CosineSymmetric | lib/mediapipe-face.ts:340-357 | the similarity is symmetric in its arguments |
| Similarity.CosineSelf | app/api/attendance/match-faces/route.ts:13-25 | a non-zero vector has similarity exactly 1 with itself |
| Similarity.GuardedNumpyAgrees | face-server.py:49-57 | the Python copy agrees with the TypeScript one for equal lengths; it raises exactly for a length mismatch between non-zero vectors |
| Similarity.NumpyCosineNaN | facenet-optimized-server.py:128-131 | the unguarded numpy quotient is NaN exactly when a vector is zero, else the guarded value |
| Similarity.DotCommutes | lib/mediapipe-face.ts:347-351 | the dot product is symmetric |
| Similarity.DotWithZero | app/api/attendance/match-faces/route.ts:17 | the dot product with a zero vector is 0 |
| BestMatch.Scan | app/api/attendance/match-faces/route.ts:98-110 | the argmax with strict `>`: the best score is a considered score that no considered score exceeds, no earlier candidate reaches it, and no index means the start value |
| BestMatch.GatedScan | app/api/auth/face-login/route.ts:95-97 | the gated argmax picks a candidate with that candidate's score, or keeps the start value |
| BestMatch.GatedScanIsThresholdedScan | app/api/auth/face-login/route.ts:95-97 | gating each comparison by the threshold picks what a plain argmax followed by one threshold test picks, when the start lies below the threshold |
| BestMatch.ScanConcatTie | app/api/auth/face-login/route.ts:100-177 | over professors then students, a student replaces a professor only with a strictly higher score |
| BestMatch.ScanReaches | app/api/attendance/match-faces/route.ts:116 | the best score reaches the threshold iff some considered candidate does |
| BestMatch.ScanFirstMax | app/api/professor/face-login/route.ts:96-142 | a candidate above the start that no score beats and no earlier score ties is the one the argmax picks, with its score |
| Records.SectionStudents | app/api/attendance/mark-absent/route.ts:24-28 | the query keeps exactly the active registrations of the section |
| Records.SessionKey | app/api/attendance/mark/route.ts:116-118 | the session key starts with `attendance-` and has the combined length of its parts |
| Records.SessionKeyInjective | app/api/attendance/mark/route.ts:116-118 | for dates of one length, the same key means the same section and date, in both directions |
| Records.SessionKeyCollision | app/api/attendance/mark/route.ts:117 | for dates of different lengths two sections can share a key |
| Records.RecordsFor | app/api/attendance/mark/route.ts:139-144 | the lookup keeps exactly the records of that session and student number |
| MatchFaces.Preprocess | app/api/attendance/match-faces/route.ts:74-87 | students without a descriptor are dropped; every other student appears, flattened, and nothing else does |
| MatchFaces.PreprocessInOrder | app/api/attendance/match-faces/route.ts:74-87 | the candidates are, position by position, the flattened students that have a descriptor, in query order and one per student |
| MatchFaces.ToInputs | app/api/attendance/match-faces/route.ts:93-96 | one input per face, in order, with the flattened embedding |
| MatchFaces.StepScores | app/api/attendance/match-faces/route.ts:101-106 | a candidate claimed by an earlier face is skipped; every other candidate is scored by cosine |
| MatchFaces.Decide | app/api/attendance/match-faces/route.ts:98-137 | a face is matched iff some available student scores ≥ 0.70; then to the best-scoring available student, the earliest on a tie, with that score as confidence; an unmatched face carries a score iff some available student scores > 0, and that score is some available student's score, below 0.70 and not beaten |
| MatchFaces.GreedyConsistent | app/api/attendance/match-faces/route.ts:89-138 | the outer loop gives one entry per face in input order with the face's index; the claimed ids are exactly the matched ones; no student is matched twice |
| MatchFaces.Greedy | app/api/attendance/match-faces/route.ts:93-138 | the outer loop gives one entry per face |
| MatchFaces.Extend | app/api/attendance/match-faces/route.ts:115-136 | pushing one more face's entry, and adding its student to the claimed ids only when that student was not claimed yet, keeps the entries aligned, the claimed ids equal to the matched ones, and the matches distinct |
| MatchFaces.GreedyPrefix | app/api/attendance/match-faces/route.ts:93-138 | the outer loop never revises an earlier face's entry |
| MatchFaces.GreedyEntry | app/api/attendance/match-faces/route.ts:93-138 | entry i is face i's decision over the students the earlier faces left |
| MatchFaces.TakenBefore | app/api/attendance/match-faces/route.ts:90-117 | the ids claimed when face i is reached are those matched by earlier entries |
| MatchFaces.GreedyDecision | app/api/attendance/match-faces/route.ts:98-128 | a matched face took the best student not claimed by an earlier face, the earliest on a tie, with score ≥ 0.70; an unmatched face scored below 0.70 against every student left |
| MatchFaces.CountMatched | app/api/attendance/match-faces/route.ts:144 | the matched count never exceeds the number of entries |
| MatchFaces.Respond | app/api/attendance/match-faces/route.ts:27-153 | 400 iff `faces` is missing or empty; a failed fetch gives 400 iff `faces` is given; the no-students reply iff the query returns nobody, with one no-faces entry per face; 500 iff some face lacks an embedding; otherwise success, whose entries are the greedy assignment over the preprocessed students, `totalFaces` the face count, `totalMatched` the matched entries, entries in face order, no student matched twice |
| MatchFaces.MatchFaces | app/api/attendance/match-faces/route.ts:27-145 | the handler with its preprocessing and nested loops gives `Respond` |
| MatchFaces.AssignLoop | app/api/attendance/match-faces/route.ts:93-138 | the outer loop finishes iff every face has an embedding, and then gives `Greedy` |
| MatchFaces.DecideLoop | app/api/attendance/match-faces/route.ts:98-137 | the inner loop and the test after it give `Decide` |
| AttendanceMark.ParseStartTime | app/api/attendance/mark/route.ts:29-32 | a parsed class start is never before midnight, and a start parses iff it has at least two `:`-separated pieces, the first two all digits |
| AttendanceMark.NumberOf | app/api/attendance/mark/route.ts:30 | a time piece converts to a number iff it is all digits; the empty piece converts to 0 |
| AttendanceMark.TodayDate | app/api/attendance/mark/route.ts:114 | today's date is the part of the ISO timestamp before its first `T`: a prefix of the timestamp, without `T`, followed by `T` when shorter |
| AttendanceMark.StartOfClockTime | app/api/attendance/mark/route.ts:29-32 | `hh:mm` and `hh:mm:ss` start hh·3 600 000 + mm·60 000 ms after midnight; the seconds are ignored |
| AttendanceMark.ElapsedTiming | app/api/attendance/mark/route.ts:34-58 | present iff at most 20 minutes have passed; locked iff more than 60 have; never absent |
| AttendanceMark.GetAttendanceStatus | app/api/attendance/mark/route.ts:16-59 | a missing start or day, or another weekday, gives present and unlocked; locked implies late |
| AttendanceMark.TimingMonotone | app/api/attendance/mark/route.ts:46-58 | the status never goes back as time passes: present, then late, then locked |
| AttendanceMark.ClassDayBands | app/api/attendance/mark/route.ts:39-58 | on the class day: present iff diff ≤ 20 minutes, locked iff diff > 60 minutes |
| AttendanceMark.MalformedStartLocks | app/api/attendance/mark/route.ts:30-35 | a start time without minutes, or with a non-digit in them, gives NaN, which locks the marking |
| AttendanceMark.StoredConfidence | app/api/attendance/mark/route.ts:164 | the fallback to null stores the confidence iff it is present and non-zero |
| AttendanceMark.FindSession | app/api/attendance/mark/route.ts:75-94 | with a schedule id, a session only when it is the one session with that id, none when no session has it, and that session when exactly one has it; otherwise the first session of the section held on today's weekday (`AttendanceMark.HeldToday`), none iff there is no such session |
| AttendanceMark.SessionTiming | app/api/attendance/mark/route.ts:76-101 | no session, or a session not held on today's weekday, gives present and unlocked; a locked timing is always late; the timing is never absent |
| AttendanceMark.RegistrationOf | app/api/attendance/mark/route.ts:122-127 | a registration only when it is the one row with the student id, none when no row has it, and that row when exactly one row has the id |
| AttendanceMark.MarkOutcome | app/api/attendance/mark/route.ts:61-198 | missing ids give 400; locked iff the ids are present and the found session's timing locks; registration not found iff not locked and the lookup finds no single row; already marked iff exactly one record of the registration exists; otherwise the insert error iff the insert fails, and a new record iff it succeeds, with today's session key, the section, the computed status, the stored confidence and the registration's number |
| AttendanceMark.AttendanceStore.Mark | app/api/attendance/mark/route.ts:61-198 | the handler gives `MarkOutcome` and appends exactly the new record, only when it reports Marked |
| AttendanceMark.AttendanceStore.constructor | app/api/attendance/mark/route.ts:139-169 | the store starts with the given records |
| AttendanceMark.MarkKeepsOnePerStudent | app/api/attendance/mark/route.ts:139-169 | on a store with one record per student and session, marking keeps it so |
| AttendanceMark.AtMostOneMatch | app/api/attendance/mark/route.ts:139-146 | in such a store the existing-record lookup finds at most one row |
| MatchFace.Scores | app/api/attendance/match-face/route.ts:99-119 | one score per active registration; a registration without a descriptor is skipped, and an object descriptor is flattened |
| MatchFace.Score | app/api/attendance/match-face/route.ts:100-121 | no score iff the registration has no descriptor; a length mismatch or zero magnitude scores 0; otherwise the score times the magnitude product is the dot product |
| MatchFace.Respond | app/api/attendance/match-face/route.ts:42-160 | 400 iff the descriptor is missing; 400 iff it is given and the fetch fails; 404 iff no active registrations exist; otherwise a match or a rejection; a match has confidence ≥ 0.7 and is the first registration with the highest score; a rejection's best score is below 0.7, no registration beats it, and it is some registration's score or the start value −1 |
| MatchFace.MatchedIffSomeoneReachesThreshold | app/api/attendance/match-face/route.ts:133-148 | a match is reported iff some registered descriptor scores at least 0.7 |
| MatchFace.MatchFace | app/api/attendance/match-face/route.ts:42-160 | the handler with its loop from -1 and strict `>` gives `Respond` |
| ProfessorFaceLogin.Score | app/api/professor/face-login/route.ts:82-94 | a registration is scored iff it has a descriptor whose length equals the input's |
| ProfessorFaceLogin.Scores | app/api/professor/face-login/route.ts:80-103 | one score per active registration |
| ProfessorFaceLogin.LookupUser | app/api/professor/face-login/route.ts:106-111 | the user lookup returns a user only when it is the one user with that id, nothing when no user has it, and that user when exactly one user has the id |
| ProfessorFaceLogin.Decide | app/api/professor/face-login/route.ts:105-152 | a best score ≥ 0.7 gives 404 iff no single user row has the professor id, 403 iff that user's role is neither `professor` nor `adviser`, and a login iff it is one of them, with the best score; no match iff no best or a best below 0.7, reporting the best score |
| ProfessorFaceLogin.Respond | app/api/professor/face-login/route.ts:29-152 | 400 iff the descriptor is missing; 400 iff it is given and the fetch fails; 404 iff there are no active registrations; otherwise the decision on the argmax, from −1, over the same-length scores |
| ProfessorFaceLogin.LoginDecision | app/api/professor/face-login/route.ts:76-152 | a login is a faculty user whose same-length descriptor scores ≥ 0.7 with no same-length descriptor higher; a failed recognition reports a best score below 0.7 that nobody beats, and happens iff every same-length score is below 0.7 |
| ProfessorFaceLogin.LoginGranted | app/api/professor/face-login/route.ts:96-142 | a registration whose score reaches 0.7, that nobody beats and no earlier one ties, and whose user is faculty, logs that user in with its score |
| ProfessorFaceLogin.ProfessorFaceLogin | app/api/professor/face-login/route.ts:29-161 | the handler with its loop gives `Respond` |
| AuthFaceLogin.StoredSimilarityLoop | app/api/auth/face-login/route.ts:126-127 | the stored descriptor is used as an array; an object descriptor has no length and scores 0 |
| AuthFaceLogin.StoredSimilarity | app/api/auth/face-login/route.ts:126-127 | an object descriptor or a length mismatch scores 0; for equal-length arrays with a nonzero magnitude product, the score times that product is the dot product |
| AuthFaceLogin.LookupUser | app/api/auth/face-login/route.ts:106-116 | the fallback lookup returns a user only when it is the one user with that id, nothing when no user has it, and that user when exactly one user has the id |
| AuthFaceLogin.CandidateOf | app/api/auth/face-login/route.ts:102-124 | a row is considered iff it has a descriptor and a single joined or looked-up user, not an array |
| AuthFaceLogin.Candidates | app/api/auth/face-login/route.ts:101-136 | one entry per row |
| AuthFaceLogin.Scores | app/api/auth/face-login/route.ts:127-167 | a considered row's score is its similarity |
| AuthFaceLogin.ScoresConcat | app/api/auth/face-login/route.ts:100-177 | the scores of professors then students are the professors' scores then the students' |
| AuthFaceLogin.Step | app/api/auth/face-login/route.ts:129-135 | one step never lowers the best similarity; it changes the state only to a candidate scoring at least 0.7, and takes every candidate at least 0.7 that beats the best |
| AuthFaceLogin.Run | app/api/auth/face-login/route.ts:95-177 | with no match the best similarity is still 0; a match has one at least 0.7; every candidate scoring at least 0.7 is at most the best |
| AuthFaceLogin.RunIsGatedScan | app/api/auth/face-login/route.ts:95-177 | the loop state from `bestSimilarity = 0` is the gated argmax: the same score, and a match exactly when that argmax picked a candidate, namely that candidate |
| AuthFaceLogin.Outcome | app/api/auth/face-login/route.ts:179-199 | the answer is a match or no match |
| AuthFaceLogin.Respond | app/api/auth/face-login/route.ts:27-199 | 400 iff the descriptor is missing or not an array; the professor error iff it is an array and the professor query fails; the student error iff that query succeeds and the student query fails; otherwise the outcome of the two loops over the active rows |
| AuthFaceLogin.OutcomeIsThresholdedArgmax | app/api/auth/face-login/route.ts:95-199 | a match is a considered row with the highest score of all, at least 0.7, its similarity reported; no match means every considered row scored below 0.7 |
| AuthFaceLogin.ProfessorKeptOnTie | app/api/auth/face-login/route.ts:100-177 | a student wins only with a score strictly above every considered professor's |
| AuthFaceLogin.Consider | app/api/auth/face-login/route.ts:129-135 | one loop step replaces the best only on a strictly greater score that reaches 0.7 |
| AuthFaceLogin.ScanRows | app/api/auth/face-login/route.ts:101-136 | one loop continues the state the earlier rows left |
| AuthFaceLogin.AuthFaceLogin | app/api/auth/face-login/route.ts:27-199 | the handler with its two loops gives `Respond` |
| RecognizeFace.Scores | recognize_face.py:36-37 | one score per user; a NaN score is never chosen |
| RecognizeFace.Score | recognize_face.py:9-12 | a score exists iff the embeddings have equal length and a nonzero magnitude product, and then the score times that product is the dot product |
| RecognizeFace.Recognize | recognize_face.py:18-47 | an unread image or no face returns before any lookup; a length mismatch with any user crashes numpy |
| RecognizeFace.RecognizeDecision | recognize_face.py:29-42 | only the first face is compared; a match iff some score is strictly above the threshold; the match is the first user with the highest score; no match reports a best score at most the threshold that no user beats and that is some user's score or the start value 0 |
| RecognizeFace.ZeroEmbeddingNeverMatches | recognize_face.py:9-42 | an all-zero embedding scores NaN against everyone, so nobody matches and the best stays 0 |
| RecognizeFace.RecognizeFace | recognize_face.py:18-47 | the script with its loop from 0 and strict `>` gives `Recognize` |
| RecognizeFace.BestUser | recognize_face.py:33-40 | the loop over the users stops with numpy's error exactly when some embedding has a length other than the new face's, and otherwise ends with the best user and score that the argmax `Scan` from 0 picks |
| ClassInfo.IsAttendanceLocked | app/api/attendance/class-info/route.ts:95-111 | never locked on another weekday, nor for a start time that does not parse |
| ClassInfo.LockedExactlyAfterThirtyMinutes | app/api/attendance/class-info/route.ts:103-110 | on the class day, locked iff more than 30 minutes have passed; at exactly 30 minutes it is open |
| ClassInfo.LockedBeforeMarkLocks | app/api/attendance/class-info/route.ts:108 | whenever marking is locked (60 minutes) the class info says locked, and 45 minutes after the start only the class info does |
| ClassInfo.MalformedStartDisagrees | app/api/attendance/class-info/route.ts:103-110 | for a start time without minutes, marking is locked while the class info says open |
| ClassInfo.OrElse | app/api/attendance/class-info/route.ts:61-87 | a number falls back when it is null or 0, and is kept otherwise |
| ClassInfo.PrimarySession | app/api/attendance/class-info/route.ts:15-26 | `.single()` by schedule id when one is given, else by section: a session only when it is the one row with that key, and that row when exactly one row has it; none when the query fails |
| ClassInfo.AnySession | app/api/attendance/class-info/route.ts:28-34 | none iff the query fails or the section has no session; otherwise the section's session at the first position |
| ClassInfo.RegistrationCount | app/api/attendance/class-info/route.ts:69-72 | the count is the number of positions holding a registration of the section, active or not; none iff the query fails |
| ClassInfo.ClassInfoOutcome | app/api/attendance/class-info/route.ts:4-93 | a missing section gives 400; `classInfo: null` iff neither lookup finds a session; the lock is computed from the session's start and day; the direct path counts registrations, then capacity, then 0, and the fallback path uses capacity only |
| ClassInfo.TotalStudentsFallback | app/api/attendance/class-info/route.ts:61-87 | a direct hit with registrations reports their count; a zero count or the fallback path reports the capacity or 0 |
| ClassInfo.NoSessionsNoClassInfo | app/api/attendance/class-info/route.ts:36-43 | a section with no session at all gets the empty class info |
| MarkAbsent.RecordedNumbers | app/api/attendance/mark-absent/route.ts:44-56 | a number is recorded iff some record of the session has it |
| MarkAbsent.Absentees | app/api/attendance/mark-absent/route.ts:59-61 | the absentees are exactly the registered students whose number is not recorded |
| MarkAbsent.AbsenteesInOrder | app/api/attendance/mark-absent/route.ts:59-61 | order and multiplicity: the absentees of two runs of students are those of the first then those of the second, one student is listed iff unrecorded, and an unrecorded student is listed as often as registered |
| MarkAbsent.AbsentRecords | app/api/attendance/mark-absent/route.ts:72-81 | one record per absentee, in order, each `absent` with null confidence, the call's session and section, and the auto note |
| MarkAbsent.AbsentRecord | app/api/attendance/mark-absent/route.ts:72-81 | the record of one absentee: status `absent`, null confidence, the auto note, the call's session and section, check-in at now, and the absentee's number and registration |
| MarkAbsent.Names | app/api/attendance/mark-absent/route.ts:97-100 | one reported name per absentee, in order, with that absentee's number and the name `first last` joined by one space |
| MarkAbsent.Outcome | app/api/attendance/mark-absent/route.ts:9-101 | one iff per exit in the route's order: missing section; students fetch failed; no students; records fetch failed; all recorded iff nobody is unmarked; insert failed iff someone is unmarked and the insert fails; marked iff someone is unmarked and it succeeds, with the count of the unmarked and their names; all recorded means every student has a record in the session |
| MarkAbsent.Unmarked | app/api/attendance/mark-absent/route.ts:54-61 | exactly the section's students whose number has no record in today's session |
| MarkAbsent.Inserted | app/api/attendance/mark-absent/route.ts:83-96 | the number of rows inserted equals the reported `markedAbsent` |
| MarkAbsent.AllRecordedNoAbsentees | app/api/attendance/mark-absent/route.ts:59-69 | when every student's number is recorded, nobody is absent |
| MarkAbsent.MarkRemainingAbsent | app/api/attendance/mark-absent/route.ts:9-106 | the handler gives `Outcome` and appends exactly the `Inserted` rows to the store |
| MarkAbsent.SecondCallMarksNothing | app/api/attendance/mark-absent/route.ts:43-69 | after a successful call, a second call with the same students marks 0 |
| Rollups.Count | app/api/professor/attendance/daily-detail/route.ts:66-68 | a status count is at most the list length, and 0 iff the status does not occur |
| Rollups.CountAllSnoc | app/api/attendance/enrolled-students/route.ts:65-68 | adding one entry raises the combined count of distinct statuses by one exactly when its status is among them |
| Rollups.CountsCover | app/api/attendance/enrolled-students/route.ts:65-73 | counts of distinct statuses add up to at most the total, and to the total when every status is among them |
| Rollups.EmptyCounts | app/api/attendance/enrolled-students/route.ts:65-68 | an empty list counts 0 for every status |
| Rollups.CountAllThree | app/api/professor/attendance/daily-detail/route.ts:66-68 | the combined count of three statuses is the sum of their counts |
| Rollups.CountAllFive | app/api/attendance/enrolled-students/route.ts:65-68 | the combined count of five statuses is the sum of their counts |
| Rollups.RosterNamesDistinct | app/api/attendance/enrolled-students/route.ts:59-68 | the four stored statuses and `pending` are distinct names |
| Rollups.RosterCountsBounded | app/api/attendance/enrolled-students/route.ts:65-73 | the five roster status counts together never exceed the number of statuses |
| Rollups.RosterStatusesCover | app/api/attendance/enrolled-students/route.ts:65-73 | a roster whose statuses are stored names or `pending` has five counts that add up to its length |
| Rollups.Statuses | app/api/admin/reports/route.ts:35-38 | one status name per record, in order |
| Rollups.StatusCountsBounded | app/api/admin/reports/route.ts:35-38 | present, late and absent records together are at most all records |
| Rollups.RecordMapSnoc | app/api/attendance/enrolled-students/route.ts:47-49 | one more record overrides that number's earlier entry in the map |
| Rollups.RecordMap | app/api/attendance/enrolled-students/route.ts:46-48 | the map from student number to record has no more entries than there are records |
| Rollups.CountStatus | app/api/attendance/today-stats/route.ts:30-31 | a count of records with one status is at most the number of records, and 0 iff no record has that status |
| Rollups.RecordMapDomain | app/api/attendance/enrolled-students/route.ts:47-49 | every record's number is a key, and every key maps to a record with that number |
| Rollups.RecordMapKeepsLast | app/api/professor/attendance/daily-detail/route.ts:39-49 | the map keeps the last record with each number |
| Rollups.RecordMapRestrict | app/api/professor/attendance/daily-detail/route.ts:47-53 | records of numbers never looked up do not change the looked-up entries |
| Rollups.RoundedRate | app/api/student/attendance-records/route.ts:93 | the nearest integer to present/total × 100, halves rounded up, and 0 for no days |
| Rollups.RoundedRateInRange | app/api/student/attendance-records/route.ts:93 | with present ≤ total the rounded rate lies in [0, 100], and is 100 when every day is present |
| Rollups.Percent | app/api/admin/reports/route.ts:40-46 | the unrounded rate times the total is 100 × present, and 0 for no records |
| Rollups.PercentInRange | app/api/admin/reports/route.ts:40-46 | with present ≤ total the rate lies in [0, 100] |
| Rollups.Merge | app/api/attendance/enrolled-students/route.ts:52-63 | one entry per student, in roster order, with that student's id, number and names |
| Rollups.EntryStatuses | app/api/attendance/enrolled-students/route.ts:65-68 | the entries' statuses, in order |
| Rollups.MergeStatus | app/api/attendance/enrolled-students/route.ts:53-61 | a student without a record gets the default status with no check-in and no confidence; otherwise the status of their last record |
| Rollups.MergeStatusNames | app/api/attendance/enrolled-students/route.ts:59 | every merged status is a stored status name or the default |
| Rollups.MergeIgnoresOthers | app/api/professor/attendance/daily-detail/route.ts:47-63 | records for numbers outside the roster change nothing |
| DailyDetail.DayRecords | app/api/professor/attendance/daily-detail/route.ts:16-39 | the records kept are exactly those of the requested date's session in the section |
| DailyDetail.DailyDetailOutcome | app/api/professor/attendance/daily-detail/route.ts:5-88 | 400 iff the section or date is missing; the students error iff the parameters are given and that query fails; the records error iff the students query succeeds and the records query fails; the entries merge the active students with that day's records, default `absent`; the summary is computed from the entries; the section is the one row with the id (code, semester and year), and just the id as its code when the lookup fails, finds none or finds two |
| DailyDetail.SummaryOf | app/api/professor/attendance/daily-detail/route.ts:66-81 | the total is the number of entries; present, late and absent are the counts of entries with that status; their sum is at most the total; each count is 0 iff no entry has that status |
| DailyDetail.DetailCoversRoster | app/api/professor/attendance/daily-detail/route.ts:52-81 | one entry per active student in fetched order; the total is the student count; present + late + absent ≤ total |
| DailyDetail.SummaryAddsUp | app/api/professor/attendance/daily-detail/route.ts:66-81 | when no kept record is excused, present + late + absent equals the total |
| DailyDetail.DetailStatus | app/api/professor/attendance/daily-detail/route.ts:39-59 | a student without a record that day shows `absent`; otherwise the status of their last record by check-in time |
| EnrolledStudents.TodayRecords | app/api/attendance/enrolled-students/route.ts:33-48 | today's session records, or none when the query fails |
| EnrolledStudents.EnrolledOutcome | app/api/attendance/enrolled-students/route.ts:9-79 | 400 iff the section is missing, and also when the students query fails; the list merges the active students with today's records, default `pending`; the stats are computed from the list |
| EnrolledStudents.RecordsErrorMeansAllPending | app/api/attendance/enrolled-students/route.ts:42-48 | a failed records query behaves like no records: everybody is pending, and pending equals the total |
| EnrolledStudents.PendingCountsAll | app/api/attendance/enrolled-students/route.ts:68 | an all-pending list has a pending count equal to its length |
| EnrolledStudents.StatsOf | app/api/attendance/enrolled-students/route.ts:65-73 | the total is the number of entries; present, late, absent and pending are the counts of entries with that status, summing to at most the total; pending and present are 0 iff no entry has that status |
| EnrolledStudents.StatsAddUp | app/api/attendance/enrolled-students/route.ts:65-73 | the total is the number of active students, and present + late + absent + pending + excused equals it |
| AttendanceSummary.Dedup | app/api/professor/attendance/summary/route.ts:22 | the Set keeps each id once, loses none and adds none |
| AttendanceSummary.DedupFirstOccurrences | app/api/professor/attendance/summary/route.ts:22 | the ids come out in the order of their first occurrences: an id listed before another occurs in the input before every occurrence of the other |
| AttendanceSummary.DedupOfDistinct | app/api/professor/attendance/summary/route.ts:22 | a list without repeats comes back unchanged |
| AttendanceSummary.SessionSections | app/api/professor/attendance/summary/route.ts:18-22 | an id is listed iff some session of the professor is in that section |
| AttendanceSummary.TodayInSection | app/api/professor/attendance/summary/route.ts:63-69 | the records kept are exactly the section's records whose check-in date part is today |
| AttendanceSummary.CheckedInToday | app/api/professor/attendance/summary/route.ts:66-69 | a record counts as today iff its check-in is set and starts with today's date followed by `T` or nothing |
| AttendanceSummary.SectionStatsOf | app/api/professor/attendance/summary/route.ts:49-82 | present and late count today's records with those statuses; total is the number of active registrations of the section, 0 when that count fails; absent is total − present − late when that is not negative, else 0; the code is `SectionCode` |
| AttendanceSummary.ActiveCount | app/api/professor/attendance/summary/route.ts:50-54 | the exact count of the positions holding an active registration of the section |
| AttendanceSummary.SectionCode | app/api/professor/attendance/summary/route.ts:57-61 | the section code when exactly one section has the id and its code is set; the id itself when its code is empty, when no section has the id, and when two or more do |
| AttendanceSummary.EntriesAreSectionEntries | app/api/professor/attendance/summary/route.ts:49-82 | the entries read back from the map the loop fills are `SectionEntries`, and every chosen id is a key |
| AttendanceSummary.ListedOnce | app/api/professor/attendance/summary/route.ts:17-22 | with a professor id, each taught section has exactly one entry, and only taught sections have one |
| AttendanceSummary.EntriesCover | app/api/professor/attendance/summary/route.ts:71-94 | summed over the entries, present + late + absent covers the total |
| AttendanceSummary.OverallSplits | app/api/professor/attendance/summary/route.ts:86-94 | the overall summary of two lists of sections is the componentwise sum of theirs |
| AttendanceSummary.Overall | app/api/professor/attendance/summary/route.ts:86-94 | each section's present, late, absent and total are at most the overall ones; the overall total is 0 iff every section's total is 0 |
| AttendanceSummary.Entries | app/api/professor/attendance/summary/route.ts:99-102 | one entry per section id, in order, each pairing the id with that section's stats |
| AttendanceSummary.OverallCovers | app/api/professor/attendance/summary/route.ts:71-94 | summed over sections, present + late + absent still covers the total |
| AttendanceSummary.Values | app/api/professor/attendance/summary/route.ts:86 | one value per entry |
| AttendanceSummary.SectionEntries | app/api/professor/attendance/summary/route.ts:49-102 | one entry per id, in order, keyed by that id and holding that section's stats |
| AttendanceSummary.SummaryOutcome | app/api/professor/attendance/summary/route.ts:4-108 | 400 iff neither id is given; 500 iff some section is chosen and the records query fails; no chosen sections gives zeros and no entries; otherwise the entries are the chosen sections' stats, in order, and the overall summary is their sum |
| AttendanceSummary.BuildSectionStats | app/api/professor/attendance/summary/route.ts:47-83 | the loop leaves a map whose keys are the chosen ids, each mapped to its section's stats |
| AttendanceSummary.Summarize | app/api/professor/attendance/summary/route.ts:4-108 | the handler with its loop gives `SummaryOutcome` |
| AttendanceSummary.SummaryProperties | app/api/professor/attendance/summary/route.ts:11-102 | a professor id takes precedence over a section id; each of the professor's sections appears exactly once, and only those; overall present + late + absent ≥ total |
| TodayStats.SessionRecords | app/api/attendance/today-stats/route.ts:20-23 | the records kept are exactly those of the session |
| TodayStats.RegisteredCount | app/api/attendance/today-stats/route.ts:34-39 | the count is the number of positions holding a registration of the section, active or not; 0 when the count fails |
| TodayStats.TodayStatsOutcome | app/api/attendance/today-stats/route.ts:5-48 | 400 iff the section is missing, and 400 iff the records query fails; present and late count today's session records by status; total is `RegisteredCount`, the section's registrations active or not; absent = max(0, total − present − late) |
| TodayStats.NoRecordsAllAbsent | app/api/attendance/today-stats/route.ts:30-40 | before anybody checks in, every registered student counts as absent |
| AdminReports.LexLeTrans | app/api/admin/reports/route.ts:17-23 | the timestamp order is transitive |
| AdminReports.LexLeTotal | app/api/admin/reports/route.ts:17-23 | any two timestamps are ordered one way or the other |
| AdminReports.LexLePrefix | app/api/admin/reports/route.ts:19-22 | a common date prefix does not change the order |
| AdminReports.LowerBound | app/api/admin/reports/route.ts:19 | the lower bound is the date followed by `T` and nine more characters |
| AdminReports.UpperBound | app/api/admin/reports/route.ts:22 | the upper bound is the date followed by `T` and nine more characters |
| AdminReports.InWindow | app/api/admin/reports/route.ts:17-23 | without dates every check-in is in the window; with both dates a check-in is in it only when the lower bound is not after the upper bound |
| AdminReports.WindowRecords | app/api/admin/reports/route.ts:13-25 | a record is kept iff its check-in lies in the window; with neither date every record is kept |
| Common.FilterAll | app/api/admin/reports/route.ts:13-15 | a filter that keeps every row returns the rows unchanged |
| Common.FilterConcat | app/api/attendance/mark-absent/route.ts:59-61 | filtering a concatenation is filtering each part and concatenating: kept rows stay in order |
| Common.FilterCount | app/api/attendance/mark-absent/route.ts:59-61 | a kept row occurs in the result as often as in the input, a dropped row not at all |
| Common.FilterFirst | app/api/attendance/mark/route.ts:86-93 | the first kept row is the first row that passes, with no passing row before it |
| Common.SingleFilter | app/api/attendance/mark/route.ts:122-127 | `.single()` on a filtered query returns a row only when it passes and every passing row equals it; nothing when no row passes or when two positions pass; the row itself when it is the only passing one |
| Common.FilterFirstAt | app/api/student/attendance-records/route.ts:72-76 | `.limit(1)` after a filter returns the row at the first passing position |
| Common.FilterSize | app/api/attendance/class-info/route.ts:69-72 | the filter keeps as many rows as there are passing positions (what `count: 'exact'` reports) |
| Common.Filter | app/api/professor/attendance/summary/route.ts:63 | no more rows than the input; a row is kept iff it is in the input and passes |
| AdminReports.WiderWindowKeepsMore | app/api/admin/reports/route.ts:17-23 | a wider window keeps every record a narrower one keeps |
| AdminReports.DayWindowKeepsDay | app/api/admin/reports/route.ts:17-23 | a one-day window keeps a check-in of that day between `00:00:00` and `23:59:59` |
| AdminReports.LastSecondOfDayDropped | app/api/admin/reports/route.ts:22 | a check-in at 23:59:59.500 on `dateTo` falls outside the window |
| AdminReports.OverallOf | app/api/admin/reports/route.ts:34-46 | total is the record count; present, absent and late are the counts of records with that status, summing to at most the total; the rate is present/total × 100, late not counted, 0 with no records, within [0, 100] |
| AdminReports.CourseCode | app/api/admin/reports/route.ts:87 | `Course-` followed by a prefix of the course id that is 8 characters long, or the whole id when it is shorter; `N/A` when there is no course id |
| AdminReports.SectionRecords | app/api/admin/reports/route.ts:76-78 | a section's records are exactly those with its id |
| AdminReports.ReportOf | app/api/admin/reports/route.ts:75-97 | a section's total and its present, absent and late counts are those of the records with its id; the report names the section and course code, says `Unassigned`, and has a rate in [0, 100] that is 0 for an empty section |
| AdminReports.ReportsOutcome | app/api/admin/reports/route.ts:4-113 | 500 iff a query fails; the overall stats cover the window's records; one report per section, in order |
| StudentRecords.StudentNumber | app/api/student/attendance-records/route.ts:15-22 | a number is found only from a fetched user row with that id whose `student_id` is set and non-empty; when exactly one row has the id, its `student_id` if non-empty, else none |
| StudentRecords.StatsOf | app/api/student/attendance-records/route.ts:89-93 | total days are all records, present days the `present` ones, absent days the rest (late included), and the rate is present/total × 100 rounded, within [0, 100] |
| StudentRecords.FirstSection | app/api/student/attendance-records/route.ts:72-76 | none iff the query fails or no section has the id; otherwise the section at the first position with the id |
| StudentRecords.EntryOf | app/api/student/attendance-records/route.ts:78-85 | the entry keeps the check-in time and status; with no section found it says `Unknown` with empty semester and year; with one found it takes its code, semester and year, written `Unknown`, empty and empty when they are not set |
| StudentRecords.StudentRecordsOf | app/api/student/attendance-records/route.ts:36-40 | exactly the records with the student's number |
| StudentRecords.HistoryOutcome | app/api/student/attendance-records/route.ts:4-104 | 400 iff the id is missing; an unknown student or a failed records query gives the empty history with zero stats; otherwise one entry per own record, in order, with the stats of those records |
| StudentRecords.NoStatsOfNoRecords | app/api/student/attendance-records/route.ts:88-93 | the zero stats of the early returns are the stats of an empty history |
| StudentRecords.LateCountsAsAbsent | app/api/student/attendance-records/route.ts:91-92 | a single late record counts as one absent day and rates 0 |
| StudentRecords.AllPresentRatesFull | app/api/student/attendance-records/route.ts:90-93 | a non-empty all-present history rates 100 with no absent days |
| Classmates.StudentSection | app/api/student/classmates/route.ts:30-62 | a section is found only from a registration of the student with a non-empty section id; none when the student has no registration; otherwise the section of the student's first registration, if it is set and non-empty |
| Classmates.ClassmateRecords | app/api/student/classmates/route.ts:91-97 | exactly the classmate's records in the section; none when that query fails |
| Classmates.ClassmateOf | app/api/student/classmates/route.ts:97-112 | the classmate keeps their name and number, and their counts are the history counts of their records in the section |
| Classmates.InSection | app/api/student/classmates/route.ts:65-70 | exactly the registrations of the section |
| Classmates.ClassmatesOutcome | app/api/student/classmates/route.ts:4-119 | one iff per exit: 400 iff the id is missing; `Student not found` iff no number; the section error iff the lookup fails other than with PGRST116; not enrolled iff it fails with PGRST116 or finds no section; the classmates error iff a section is found and that query fails; otherwise a listing with one classmate per registration of the section, in order |
| Classmates.ListsTheStudent | app/api/student/classmates/route.ts:31-69 | when both lookups read one table, the student is among their own classmates and every rate lies in [0, 100] |
| Classmates.ListedClassmates | app/api/student/classmates/route.ts:90-112 | every registration of the listing has a classmate with its number, and every classmate's rate lies in [0, 100] |
| Kiosk.Hour12 | app/page.tsx:599 | the 12-hour clock hour lies in 1..12 and agrees with the hour modulo 12 |
| Kiosk.FormatTime | app/page.tsx:596-601 | the rendering starts with a digit, holds a colon, has at least seven characters and ends in " AM" before noon and " PM" from noon |
| Kiosk.Pad2 | app/page.tsx:396 | a padded field has at least two digits, exactly two below 100, and reads back as the number |
| Kiosk.FormatTimeParts | app/page.tsx:596-601 | the rendering splits into the hour, `:`, the minutes and the suffix; the hour reads back as the 12-hour hour, the minutes as the minute with at least two digits, and the suffix is AM exactly before noon |
| Kiosk.Hour12Examples | app/page.tsx:599 | midnight and noon read 12, 13 reads 1, and the hour repeats every 12 hours |
| Kiosk.CheckLock | app/page.tsx:369-398 | with a parsed start the countdown locks exactly when now is at or past start + 30 minutes; a start that does not parse gives no number |
| Kiosk.CountdownIsRemainingTime | app/page.tsx:394-396 | the minutes and seconds are the time left rounded down to the second, seconds below 60, both padded to two digits and reading back as their values |
| Kiosk.Classify | app/page.tsx:432-476 | a recognised face is `already-marked` iff its student is marked and `matched` otherwise; any other face is `no-match` named `Unknown` |
| Kiosk.Classified | app/page.tsx:430-476 | one badge per face, in order |
| Kiosk.Members | app/page.tsx:441 | the set of the sequence's elements |
| Kiosk.Extend | app/page.tsx:441 | appending one id adds exactly that id to the set |
| Kiosk.RequestsAreFresh | app/page.tsx:432-445 | a frame never issues two requests for one student, never one for a student marked or being marked, issues only for recognised faces, and leaves every recognised unmarked student being marked |
| Kiosk.Requests | app/page.tsx:432-445 | at most one request per face, and none for a student marked or being marked |
| Kiosk.Aggregate | app/page.tsx:481-496 | `already-marked` iff the frame is non-empty and all badges are; `matched` iff some badge is; `no-match` iff some badge is and none matched; otherwise the status stays |
| Kiosk.AggregateOfNonEmptyFrame | app/page.tsx:481-496 | a frame with a face always sets a status |
| Kiosk.KioskPage.constructor | app/page.tsx:70-85 | empty sets, nothing pending, not locked, status idle, no cooldown |
| Kiosk.KioskPage.SelectSchedule | app/page.tsx:304-309 | both sets empty and the absent marking re-armed, the rest unchanged, and the page invariant holds |
| Kiosk.KioskPage.ProcessFrame | app/page.tsx:413-497 | an empty frame sets idle and sends nothing; otherwise the badges are the classification, the requests those of RequestsAreFresh, the status the aggregate, and each request is pending and its student being marked; at most one request per student stays pending |
| Kiosk.KioskPage.ScanFaces | app/page.tsx:432-477 | the loop over the faces gives the badges and requests of the whole frame and keeps the page invariant |
| Kiosk.KioskPage.ScanStep | app/page.tsx:432-477 | one loop step extends the badges and requests by the next face |
| Kiosk.KioskPage.HandleFace | app/page.tsx:433-476 | a request goes out iff the face is recognised, not marked and not being marked; its student is then being marked with one pending request |
| Kiosk.KioskPage.OnMarkReply | app/page.tsx:452-471 | the reply ends the pending request; already-marked and success move the student to marked; locked and a network error release them, locked also locking the page; any other reply leaves them being marked |
| Kiosk.KioskPage.CheckLockTick | app/page.tsx:369-398 | the tick locks the page when the countdown is over, and triggers the absent marking exactly once until re-armed |
| Kiosk.KioskPage.ResetToScan | app/page.tsx:535-564 | empty sets, unlocked, idle, re-armed, and no professor scan for exactly the next 4 seconds |
| Liveness.CheckEyesOpen | hooks/usePassiveLivenessDetection.ts:49-60 | true iff both eyelid gaps (landmarks 37/41 and 43/47) exceed 5 |
| Liveness.HeadYaw | hooks/usePassiveLivenessDetection.ts:35-47 | a nose equally far from both eye corners gives yaw 0 |
| Liveness.NextFrames | hooks/usePassiveLivenessDetection.ts:69-73 | open eyes add one frame; otherwise one is taken off, floored at 0 |
| Liveness.Score | hooks/usePassiveLivenessDetection.ts:20-84 | the score lies in [0, 100] and reaches 100 iff the counter reaches 30 |
| Liveness.FramesBoundedByOpenFrames | hooks/usePassiveLivenessDetection.ts:69-75 | from a reset the counter never exceeds the number of open-eye frames, so passing needs at least 30 of them |
| Liveness.OpenFramesCount | hooks/usePassiveLivenessDetection.ts:69-70 | from a reset, a run of open-eye frames counts each frame |
| Liveness.ThirtyOpenFramesPass | hooks/usePassiveLivenessDetection.ts:20-84 | thirty open-eye frames in a row from a reset pass |
| Liveness.LivenessDetector.constructor | hooks/usePassiveLivenessDetection.ts:24-33 | counter, previous yaw and score zero, every flag false |
| Liveness.LivenessDetector.UpdateLivenessScore | hooks/usePassiveLivenessDetection.ts:62-85 | the counter steps by NextFrames, previous yaw becomes this frame's yaw, head movement iff the yaw changed by more than 5, a face is detected, and the result is true iff the counter reaches 30 |
| Liveness.LivenessDetector.ResetLiveness | hooks/usePassiveLivenessDetection.ts:87-97 | counter, previous yaw and score zero, every flag false |
| MediapipeFace.LandmarkExtent | lib/mediapipe-face.ts:277-283 | the loop's bounds start at min 1 and max 0, bound every landmark, and are each attained by a landmark or still at the start value |
| MediapipeFace.BoxOf | lib/mediapipe-face.ts:285-290 | the box's edges, centre ± half size, are exactly the extent's bounds |
| MediapipeFace.ExtentInUnitSquare | lib/mediapipe-face.ts:277-283 | for at least one landmark in the frame, each min is at most its max and both lie in [0, 1] |
| MediapipeFace.LandmarkBoxContains | lib/mediapipe-face.ts:277-290 | for landmarks in the frame the box has non-negative size and contains every landmark |
| MediapipeFace.EmptyLandmarksBox | lib/mediapipe-face.ts:277-290 | with no landmarks the box keeps the start values and has size −1 |
| MediapipeFace.Crop | lib/mediapipe-face.ts:203-213 | the padded crop never leaves the source: x, y ≥ 0, x + width ≤ source width, y + height ≤ source height |
| MediapipeFace.PixelBox | lib/mediapipe-face.ts:203-206 | a box within the unit square scales to pixels that stay within the source: x, width ≥ 0 and x + width ≤ source width, and the same for y and height |
| MediapipeFace.CropContainsBox | lib/mediapipe-face.ts:208-213 | a pixel box inside the source lies inside its crop, which has non-negative size |
| MediapipeFace.UnitExtentCropContainsBox | lib/mediapipe-face.ts:203-290 | an extent inside the unit square scales to a pixel box inside the source that its crop contains |
| MediapipeFace.ScaledInterval | lib/mediapipe-face.ts:203-206 | an interval inside [0, 1] scaled by a non-negative size lies inside [0, size] |
| MediapipeFace.CheckedEmbedding | lib/mediapipe-face.ts:233-246 | the descriptor is kept iff it is present with length 128 |
| MediapipeFace.DetectFaceInVideo | lib/mediapipe-face.ts:270-318 | no mesh gives no detection; a detection carries the first mesh, its landmark box, and the 128-length descriptor of the padded crop; no detection otherwise means that descriptor was missing or the wrong length |
| MediapipeFace.DescriptorSimilarity | lib/mediapipe-face.ts:335-338 | 0 for a missing descriptor or a length mismatch |
| MediapipeFace.DescriptorSimilarityProperties | lib/mediapipe-face.ts:335-358 | symmetric; 0 when either descriptor is all zero; 1 for a non-zero descriptor against itself |
| MediapipeFace.CalculateSimilarity | lib/mediapipe-face.ts:335-358 | the loop computes the guarded cosine of the two descriptors |
| ProfRegister.BaseFileName | app/api/professor/face-registration/register/route.ts:58 | the lower-cased `first.last.prof` prefix, which ends in `.prof` |
| ProfRegister.ImageExtension | app/api/professor/face-registration/register/route.ts:66 | a `.jpg`, `.jpeg` or `.png` ending in any case is recognised, with a dot before it |
| ProfRegister.FileNumberAsWritten | app/api/professor/face-registration/register/route.ts:65-68 | the number the route reads is always below 1000, and 0 when the name has no image extension or fewer than three characters before it |
| ProfRegister.FileNumber | app/api/professor/face-registration/register/route.ts:66-67 | a name without an image extension reads as 0 (the whole-number reading is pinned down by `FileNumberOfFileName`) |
| ProfRegister.ThreeDigitsBelowThousand | app/api/professor/face-registration/register/route.ts:66-67 | three digits read as a number below 1000 |
| ProfRegister.Pow10 | app/api/professor/face-registration/register/route.ts:66-67 | a power of ten is at least 1 |
| ProfRegister.DigitsBelowPower | app/api/professor/face-registration/register/route.ts:66-67 | k digits read as a number below 10^k |
| ProfRegister.TrailingDigitCount | app/api/professor/face-registration/register/route.ts:66 | the count of trailing digits: all of them digits, and the character before them is not |
| ProfRegister.UserFiles | app/api/professor/face-registration/register/route.ts:59-60 | exactly the files whose name starts with the professor's prefix |
| ProfRegister.MaxOf | app/api/professor/face-registration/register/route.ts:69 | the maximum is one of the numbers and bounds them all |
| ProfRegister.NextNumberAsWritten | app/api/professor/face-registration/register/route.ts:63-70 | 1 when the professor has no file; otherwise one more than the number the route reads from one of the professor's files, above every number it reads from them |
| ProfRegister.NextNumber | app/api/professor/face-registration/register/route.ts:63-70 | 1 when the professor has no file; otherwise one more than the whole trailing number of one of the professor's files, above that number of every one of them |
| ProfRegister.FileName | app/api/professor/face-registration/register/route.ts:72 | the generated name starts with the professor's prefix, ends in `.jpg` and is at least seven characters longer than the prefix (the padded number and the extension) |
| ProfRegister.JpgExtension | app/api/professor/face-registration/register/route.ts:72 | a generated name has a 3-letter image extension and its stem is prefix plus number |
| ProfRegister.TrailingDigitsAfter | app/api/professor/face-registration/register/route.ts:66-72 | after a prefix ending in a non-digit, the trailing digits are exactly the appended digits |
| ProfRegister.FileNumberOfFileName | app/api/professor/face-registration/register/route.ts:66-72 | the corrected reading of a generated name gives back its number, whatever its size |
| ProfRegister.ReadsLastThree | app/api/professor/face-registration/register/route.ts:66-67 | the route reads only the last three digits before `.jpg` |
| ProfRegister.FileNumberAsWrittenOfFileName | app/api/professor/face-registration/register/route.ts:66-72 | the route's reading gives back numbers below 1000 |
| ProfRegister.NextFileIsNew | app/api/professor/face-registration/register/route.ts:57-75 | with the corrected reading the next file name is never an existing file |
| ProfRegister.NextFileIsNewBelowThousand | app/api/professor/face-registration/register/route.ts:57-75 | the route's own numbering gives a new file while the next number stays below 1000 |
| ProfRegister.ThousandRendering | app/api/professor/face-registration/register/route.ts:72 | 1000 padded to three digits is `1000` |
| ProfRegister.ThousandReadsAsZero | app/api/professor/face-registration/register/route.ts:66-72 | the route reads image 1000 as number 0 |
| ProfRegister.ThousandthImageOverwritten | app/api/professor/face-registration/register/route.ts:63-75 | with images 999 and 1000 present the route picks 1000 again, an existing file |
| ProfRegister.BothUserFiles | app/api/professor/face-registration/register/route.ts:60 | two files with the prefix are both kept |
| ProfRegister.ImageUrl | app/api/professor/face-registration/register/route.ts:45-83 | the image path is set iff the data URL has a comma and the write succeeds |
| ProfRegister.UpdateRows | app/api/professor/face-registration/register/route.ts:111-122 | the professor's rows take the new values, every other row is unchanged |
| ProfRegister.RegistrationsAfter | app/api/professor/face-registration/register/route.ts:98-168 | a missing field, an invalid descriptor, a missing configuration or a database failure leave the table as it was; otherwise the new registration is in the table, every other professor's row is kept, the table grows by one row only when the check found no row for the professor, and a failed check query always appends a new row |
| ProfRegister.SingleOfUnique | app/api/professor/face-registration/register/route.ts:99-103 | with one registration per professor the lookup finds at most one row |
| ProfRegister.RegistrationIsUnique | app/api/professor/face-registration/register/route.ts:98-168 | when the existence check answers, a call keeps one registration per professor, and a successful one leaves exactly the new, active registration for the professor |
| ProfRegister.Checked | app/api/professor/face-registration/register/route.ts:99-109 | a check query failing with an error other than PGRST116 is only logged and reads as no existing row; otherwise the `.single()` lookup |
| ProfRegister.FailedCheckDuplicates | app/api/professor/face-registration/register/route.ts:99-153 | when the check query fails for a professor who already has a row, a successful call inserts a second row for that professor |
| ProfRegister.FilterNoneUnique | app/api/professor/face-registration/register/route.ts:99-109 | when the lookup finds nothing and at most one row could match, no row belongs to the professor |
| ProfRegister.RegistrationStore.constructor | app/api/professor/face-registration/register/route.ts:52-59 | the store holds the given files and registrations |
| ProfRegister.RegistrationStore.Register | app/api/professor/face-registration/register/route.ts:8-168 | 400 for a missing field or a descriptor that is not 512 numbers, changing nothing; otherwise the image is saved under the route's own next number (`NextNumberAsWritten`) before the configuration check, an existing name being overwritten rather than listed twice, then the professor's row is updated when the check query found it and inserted otherwise (a failed check query counts as not found), a failure giving 500 |
| ProfVerify.SquaredDeviations | app/api/professor/face-registration/verify/route.ts:32 | the sum of squared deviations is never negative |
| ProfVerify.Sum | app/api/professor/face-registration/verify/route.ts:31 | the sum of non-negative values is non-negative, and of one value is that value |
| ProfVerify.Mean | app/api/professor/face-registration/verify/route.ts:31 | the mean times the count is the sum; the mean of non-negative values is non-negative |
| ProfVerify.SquareNonNegative | app/api/professor/face-registration/verify/route.ts:32 | a square is never negative |
| ProfVerify.Variance | app/api/professor/face-registration/verify/route.ts:30-34 | the population variance is never negative |
| ProfVerify.BoundsAccepted | app/api/professor/face-registration/verify/route.ts:103-106 | the bounds 0.001 and 10.0 are themselves accepted, and 0 and 10.5 are not |
| ProfVerify.SumConstant | app/api/professor/face-registration/verify/route.ts:31 | a constant sequence sums to its length times the constant |
| ProfVerify.NoDeviationFromConstant | app/api/professor/face-registration/verify/route.ts:32 | a constant sequence has no deviation from that constant |
| ProfVerify.ConstantHasNoVariance | app/api/professor/face-registration/verify/route.ts:30-34 | a constant descriptor has variance 0 |
| ProfVerify.StoredDescriptor | app/api/professor/face-registration/verify/route.ts:65-77 | the stored value fails only when it is text that is not JSON; null and parsed null both mean no descriptor |
| ProfVerify.RejectionMessage | app/api/professor/face-registration/verify/route.ts:153-159 | below 0.3 `not recognized`; in [0.5, 0.7) `partially matched`; otherwise `does not match` |
| ProfVerify.VerifyOutcome | app/api/professor/face-registration/verify/route.ts:36-167 | one iff per exit in the route's order: missing field; no single active registration; stored text that is not JSON (500); no stored descriptor; a length other than 512; live variance outside [0.001, 10]; otherwise an answer, verified iff the cosine reaches 0.70, reporting that cosine with the greeting or the rejection message |
| ProfVerify.Lookup | app/api/professor/face-registration/verify/route.ts:50-63 | the registration is the one active row with the professor id, none when no active row has it, and that row when exactly one active row has the id |
| ProfVerify.ConstantInputRejected | app/api/professor/face-registration/verify/route.ts:97-112 | a constant live descriptor of length 512 is never verified |
| FaceServer.Base64Payload | face-server.py:35-39 | text without a comma is decoded whole; otherwise only a comma-free part after the first comma is |
| FaceServer.DataUrlPayload | face-server.py:37-38 | a data URL loses exactly its header |
| FaceServer.BoxOf | face-server.py:103-110 | the box's left plus width is the right edge and its top plus height the bottom edge |
| FaceServer.ExtractOutcome | face-server.py:77-118 | 400 iff the image is missing or is base64 that `cv2` cannot decode; 500 iff it is present but not base64; "no face detected" without a location and "could not compute" without an encoding; a detection iff a face was located and encoded, carrying the first face's encoding, its size and box, confidence 1 and the number of faces |
| FaceServer.ExtractMultiple | face-server.py:121-180 | 400 iff the image is missing or is base64 that `cv2` cannot decode; 500 iff it is present but not base64; detected iff some face was located; one entry per encoding and location pair, indexed in order |
| FaceServer.VerifyOutcome | face-server.py:188-223 | an image that does not decode gives 500; "not detected" only for a decoded image with no location or no encoding, and then the matching answer; a server error iff the image does not decode or a located, encoded face cannot be compared with the stored embedding; a result needs a located, encoded face and a stored embedding numpy can subtract from it, and then is given whenever the guarded cosine is defined, verified iff it reaches 0.70, confidence 100 times the similarity |
| FaceServer.VerifyLengthMismatch | face-server.py:203-207 | a stored embedding of another length fails the call, or gives similarity 0 unverified; with two non-zero vectors it always fails |
| FaceServer.CompareOutcome | face-server.py:226-251 | 500 iff an embedding is missing or the lengths differ; otherwise the cosine, a match iff it reaches 0.70, confidence 100 times it |
| FaceServer.CosineEqualLength | face-server.py:49-57 | for vectors of equal length numpy's guarded similarity is defined and is the plain cosine |
| FaceServer.CompareSelfMatches | face-server.py:226-247 | a non-zero embedding compared with itself matches with similarity 1 and confidence 100 |
| FacenetOptimized.LargestFace | facenet-optimized-server.py:77 | the face chosen has the largest area, and is the first of that area |
| FacenetOptimized.CropOf | facenet-optimized-server.py:79-85 | the padded crop stays inside the image and still covers whichever box edges lie inside it |
| FacenetOptimized.CropContainsBox | facenet-optimized-server.py:79-85 | a box inside the image lies inside its crop |
| FacenetOptimized.ExtractOutcome | facenet-optimized-server.py:59-106 | 500 iff the image does not decode; 400 iff no face was detected; otherwise the embedding of the largest face's crop, its dimension and that face's confidence |
| FacenetOptimized.VerifyFacesOutcome | facenet-optimized-server.py:108-118 | the extraction's result when it succeeds; every failure, no face included, becomes 500 |
| FacenetOptimized.CompareOutcome | facenet-optimized-server.py:120-143 | 500 iff the lengths differ; otherwise the cosine times 100, NaN exactly when numpy gives NaN, a match iff it is a number of at least 70 |
| FacenetOptimized.ServersAgreeOnMatch | facenet-optimized-server.py:120-143 | this server and the dlib server fail on the same embeddings and agree on the match whenever they answer |
| RouteGuard.LoginPage | utils/supabase/proxy.ts:11-15 | each family's login page lies under that family's prefix |
| RouteGuard.FamilyOf | utils/supabase/proxy.ts:47-50 | a family is reported only for a path under its prefix and not under its login page; none when no family's test holds |
| RouteGuard.RoleOf | utils/supabase/proxy.ts:74-81 | a role is found only from a row of the signed-in user with a non-empty role; when exactly one row is that user's, its role if non-empty, else none |
| RouteGuard.Guard | utils/supabase/proxy.ts:17-100 | a path of no family passes without an auth lookup; an anonymous visitor to a family's page goes to that family's login; a user with no role passes; otherwise the user passes iff the family admits the role, else goes to `/` |
| RouteGuard.AtMostOneFamily | utils/supabase/proxy.ts:48-50 | no path is the page of two families |
| RouteGuard.LoginPagesOpen | utils/supabase/proxy.ts:48-55 | every path beginning with a login page passes, signed in or not |
| RouteGuard.PrefixNotSegment | utils/supabase/proxy.ts:48 | `/administrator` counts as an admin page and an anonymous visitor is sent to `/admin/login` |
| RouteGuard.RolesEnforced | utils/supabase/proxy.ts:88-99 | on a family's page a user with a role passes iff that family admits the role: `admin` for admin pages, `professor` or `adviser` for professor pages, `student` for student pages |
| MatchFaces.ClaimedInPrefix | app/api/attendance/match-faces/route.ts:90-117 | the taken set after the first i faces holds exactly the ids those faces matched |
| Common.Single | utils/supabase/proxy.ts:79 | `.single()` yields a row iff exactly one matches, and that row is one of them |
| Common.PadStart | app/page.tsx:396 | the padded text has the larger of its length and the width, ends with the original and is filled with the pad character in front |
| Common.ParsePadded | app/api/professor/face-registration/register/route.ts:72 | a number padded with zeros is all digits and reads back as the number |
| Common.Lower | app/api/professor/face-registration/register/route.ts:58 | ASCII lower-casing maps each character on its own, A-Z to a-z and everything else unchanged |
| Common.Split | app/api/attendance/mark/route.ts:30 | a split gives at least one part, and no part holds the separator |
| Records.StatusName | app/api/attendance/mark/route.ts:165 | each status has its own name and each name one status |

The three lock rules differ, and the model keeps each as written. The mark
route locks 60 minutes after the start (`AttendanceMark.GetAttendanceStatus`).
The class-info route and the kiosk countdown both lock after 30 minutes; the
route locks strictly after, the kiosk at 30 minutes exactly. A start time
that does not parse locks marking but leaves the class info open
(`ClassInfo.LockedBeforeMarkLocks`, `ClassInfo.MalformedStartDisagrees`).

## Left out

- Floating point: vectors, similarities, rates and coordinates are exact `real`s or integers. JavaScript `Number` rounding, `Math.sqrt` and numpy's float64 are not modelled. The square root is a parameter satisfying `IsSqrt`; NaN appears only where numpy's 0/0 decides a branch (`Similarity.NumpyCosine`).
- The clock and locale: `new Date()`, `toLocaleDateString` weekday names and ISO date slicing become a `Now` value supplied by the caller.
- The uuid v5 session id is taken to be the session key itself, i.e. an injective function of the key text.
- Databases: every query is a sequence of rows or a `Fetch` value given to the model. Row order is the order the query returns (`order by last_name`, `checked_in_at`), taken as given rather than sorted by the model. Filters other than the equality and window filters shown are not modelled.
- Student history and classmates send one query per record or classmate, and the attendance summary sends one registration count and one section lookup per section; the model answers all of them from one table, so a failure is either everywhere or nowhere.
- AttendanceMark.NumberOf: reads a piece of the start time only as a plain string of digits (none reads as 0); JavaScript's `Number` also accepts surrounding blanks, a sign, a decimal point and exponents, which the `HH:MM:SS` times the database stores do not contain.
- Check-then-insert races in the mark and mark-absent routes: two concurrent calls can both find no record and both insert. Each model call runs atomically.
- ProfRegister.RegistrationIsUnique: holds only when the existence check answers (a failed check query inserts a duplicate, shown by `ProfRegister.FailedCheckDuplicates`), and only for one call at a time: two concurrent registrations of the same professor can both find no row and both insert.
- AdminReports.WindowRecords: compares timestamps as text. This agrees with the database's timestamp order only for ISO-8601 values in one format and time zone.
- The professors query in the admin report is fetched but never used, so it is not modelled.
- Object key order in the summary's section statistics follows the order the sections were first seen (`AttendanceSummary.SectionEntries`); JavaScript's special ordering of integer-like keys is not modelled.
- The class info's `section_code`, `room`, `end_time`, `semester` and `academic_year` fields are passed through unread and are not modelled. The same goes for the classmates' `registered_at` and the history's record `id`.
- Liveness.HeadYaw: requires the two eye corners to differ in x. The source divides by zero there, giving an infinite or NaN yaw.
- Liveness.LivenessDetector.UpdateLivenessScore: requires the eye corners apart, for the same reason as `HeadYaw`.
- Kiosk.KioskPage.OnMarkReply: requires a pending request for the student. A reply that lands after `ResetToScan` or `SelectSchedule` has cleared the sets is not modelled.
- Kiosk: a reply that carries none of the `alreadyMarked`, `locked` or `success` flags (a 400 or 404 body) leaves the student in `marking`, so that student is never retried during the session. The model keeps this behaviour as written.
- The kiosk's phase machine, sounds, the recent-recognitions list, the student list refresh, canvas drawing, the professor-scan loop (apart from its cooldown) and the realtime WebSocket recogniser are not modelled: they are UI, audio and transport.
- RouteGuard.PrefixNotSegment: the guard function treats `/administrator` as an admin page. The matcher in `utils/supabase/proxy.ts:102-108` would not send that path to the guard at all, and request routing is not modelled.
- Common.Lower: folds ASCII A-Z only. JavaScript `toLowerCase` also lower-cases other letters (`É` to `é`), and some change the length (`İ` becomes two code units). Names with such letters give a different file prefix in the source.
- ProfRegister.BaseFileName: builds on `Common.Lower`, so it shares that ASCII-only folding and the length it keeps for non-ASCII names.
- FaceServer.VerifyOutcome: the Euclidean `distance` in the reply is not modelled. Only its effect is: an embedding numpy cannot subtract makes the call fail.
- The `catch` blocks of the Next.js routes are not modelled: a body that is not JSON, or a thrown database-client or runtime error, answers 500 there (`attendance/mark/route.ts:199-202`, `attendance/mark-absent/route.ts:102-105`, `attendance/match-face/route.ts:161-166`, `attendance/match-faces/route.ts:146-152`, `professor/face-login/route.ts:154-158`, `auth/face-login/route.ts:201-206`, `face-registration/verify/route.ts:168-174`, `student/classmates/route.ts:121-125` and the other routes' blocks alike). The model takes the request body as parsed and every query as either rows or an error value. The thrown errors the model does keep are a face without an embedding in `MatchFaces.Respond` (`InternalError`) and stored text that is not JSON in `ProfVerify.VerifyOutcome` (`VerificationError`).
- FastAPI's pydantic validation of request bodies (a missing field answered with 422) is not modelled; the inputs are taken as well-typed.
- FacenetOptimized.CompareOutcome: returns a NaN similarity as a result. The web framework's JSON rendering of that NaN is not modelled.
- Embedding and detection libraries (dlib `face_recognition`, `keras_facenet`, MTCNN, face-api.js, MediaPipe) and image decoding (cv2, PIL, base64) are function parameters or inputs.
- `facenet-server.py`, `facenet-fast-server.py` and `register_face.py` are not part of this model. They are thin wrappers that compare one similarity with a threshold or append to a file.
- The CRUD, session and authentication routes, the Supabase clients, bcrypt, the UI pages and components, the auth context and the client-side route guards are not part of this model.
- Logging (`console.*`, `print`) and the timing fields of the face servers' replies are not modelled.

## Findings

| source | as written | input that shows it | evidently intended | confidence | as-written member | corrected member |
|---|---|---|---|---|---|---|
| app/api/professor/face-registration/register/route.ts:64-72 | the next image number is read with `(\d{3})` before the extension, but numbers from 1000 on are written with four digits | files `ana.cruz.prof999.jpg` and `ana.cruz.prof1000.jpg`: the second reads as 0, so the next number is 1000 again and the new image overwrites the old one | read the whole run of digits before the extension, so every new number is above all existing ones | not executed | ProfRegister.ThousandthImageOverwritten | ProfRegister.NextFileIsNew |

The handler `ProfRegister.RegistrationStore.Register` keeps the route's
numbering as written, so its contract shows the overwrite: writing to a name
already in the listing leaves the listing as it was. The corrected numbering
is `ProfRegister.NextNumber`, and `ProfRegister.NextFileIsNew` proves that it
always names a new file.
