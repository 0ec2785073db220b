# AttendanceAppPython: face matching, enrollment and attendance confirmation

This project is a Dafny model of the core of AttendanceAppPython, a desktop
attendance application. The application recognises students by face and
records their attendance in a MySQL database. The model covers these parts:

- **Known-face caches.** `FaceRecognizer` keeps three index-aligned lists of
  vectors, ids and names. `FaceEmbedder` keeps two, vectors and ids. Both
  caches are rebuilt from the `KhuonMat` table. Only blobs that decode to
  exactly 128 float32 values are kept.
- **Matching.** The recognizer takes the first index of minimum distance and
  accepts it only below the threshold. The embedder takes the first raised
  match flag.
- **Enrollment.** The capture loop of `capture_and_extract_face_embedding`
  collects samples over camera frames. The dialog `FaceCaptureDialog` stores
  one sample per timer tick until it has three.
- **Repository guards.** `add_face_embedding` checks a blob before writing
  it. `get_all_face_embeddings` filters the rows it reads.
- **Attendance screen.** The screen holds a running camera, a candidate
  student and an enabled confirm button. A confirmation writes one
  `DiemDanh` record.
- **Attendance queries.** The model covers the filter-to-SQL builder, the
  summary guard and the half-open "today" window.
- **Smaller UI algorithms:**
  - the counter animation of the dashboard cards;
  - the colour brightening of the module buttons;
  - the button grid and the module-window cache of the main menu;
  - the class-list line format and its parse;
  - the case-insensitive subject search;
  - the subject form checks.

The face_recognition library, the camera and the database driver are inputs
of the model:

- each probe comes with one distance per cached vector, or one match flag per
  cached vector;
- each camera read is an event record;
- each `execute_query` call comes with a success flag.

Tables are `seq` fields of the repository classes, and widget state is class
fields. A float32 is modelled as its four bytes, so encoding and decoding are
exact inverses on lengths and contents.

Modules, one per source file plus two shared ones:

| module | source |
|---|---|
| `Common` | Python string helpers: `strip`, `lower`, `find`, `rfind`, `in` |
| `Embedding` | the float32 blob codec (`tobytes` / `np.frombuffer`) |
| `StudentRepo` | database/student_repository.py |
| `Recognizer` | face_recognition_module/face_recognizer.py |
| `Embedder` | face_recognition_module/face_embedder.py |
| `AttendanceRepo` | database/attendance_repository.py |
| `AttendanceTaking` | ui/attendance_taking_ui.py |
| `StudentManagement` | ui/student_management_ui.py |
| `Dashboard` | ui/dashboard_ui.py |
| `Manage` | ui/manage_ui.py |
| `ClassSubject` | ui/class_subject_management_ui.py |

## Model

| member | source | states |
|---|---|---|
| Embedding.ToBytes | face_recognition_module/face_embedder.py:261-262 | a vector is written as four bytes per element |
| Embedding.FromBuffer | face_recognition_module/face_embedder.py:68 | a buffer reads iff its length is a multiple of four, and then as one element per four bytes |
| Embedding.DecodeEncode | face_recognition_module/face_embedder.py:261-262 | decoding the float32 bytes of a vector gives the vector back |
| Embedding.EncodeDecode | face_recognition_module/face_embedder.py:68 | a blob that decodes re-encodes to the same bytes |
| Embedding.DecodesToVectorIff | face_recognition_module/face_embedder.py:68-72 | a blob decodes to shape (128,) exactly when it has 512 bytes |
| StudentRepo.ValidateEmbedding | database/student_repository.py:85-96 | str and other values fail as not bytes. bytes, bytearray and memoryview pass exactly when they are 512 long, and pass unchanged. An ndarray passes exactly when it has 128 elements, as its float32 bytes. |
| StudentRepo.StudentRepository.AddFaceEmbedding | database/student_repository.py:83-113 | True exactly when the guard passes and the insert commits. The row is then appended. Otherwise the table is unchanged. |
| StudentRepo.ValidEmbeddings | database/student_repository.py:128-150 | every returned blob is 512 bytes, and at most one pair is returned per row |
| StudentRepo.ValidEmbeddingsAppend | database/student_repository.py:128-150 | the filter distributes over concatenation, so row order is kept |
| StudentRepo.ValidEmbeddingsMember | database/student_repository.py:128-150 | a pair is returned iff some row holds it as a 512-byte bytes or memoryview cell |
| StudentRepo.WrittenRowIsRead | database/student_repository.py:94-96 | a blob accepted on write passes the read filter and is read back last |
| StudentRepo.StudentRepository.GetAllFaceEmbeddings | database/student_repository.py:115-161 | the loop returns exactly the filtered pairs. A failed read returns []. This is the read as intended. |
| StudentRepo.ReadAsWritten | database/student_repository.py:123 | as written, the read always answers [], because `self.conn` is never assigned |
| StudentRepo.WrittenFaceNeverReadBack | database/student_repository.py:123 | a face that add_face_embedding accepts is never read back as written, but the intended read returns it last |
| StudentRepo.AsBytes | database/student_repository.py:85-92 | str and other values give no bytes. An ndarray gives four bytes per element, which decode back to its elements. |
| StudentRepo.KeepsRow | database/student_repository.py:128-150 | a kept row holds a bytes or memoryview cell whose contents decode to a 128-element vector |
| Recognizer.KeptFaces | face_recognition_module/face_recognizer.py:46-86 | the rebuilt cache has at most one entry per row, and every vector has 128 elements |
| Recognizer.KeptFacesAppend | face_recognition_module/face_recognizer.py:46-86 | the reload distributes over concatenation of the rows |
| Recognizer.SkippedRowLeavesTheRest | face_recognition_module/face_recognizer.py:46-86 | a failing row removes only its own entry, and the reload goes on |
| Recognizer.AllGoodRowsKept | face_recognition_module/face_recognizer.py:46-86 | when every row is acceptable, the cache has one entry per row |
| Recognizer.RepositoryRowsOnlyNeedStudent | face_recognition_module/face_recognizer.py:55-76 | on rows from the repository the None and shape checks never fire, so only an unknown student drops a row |
| Recognizer.FaceRecognizer.LoadKnownFaces | face_recognition_module/face_recognizer.py:32-91 | No rows keeps the old cache. Otherwise the three lists are the vectors, ids and names of the accepted rows, in order, and successful + failed equals the number of rows. |
| Recognizer.FaceRecognizer.constructor | face_recognition_module/face_recognizer.py:18-30 | the threshold is stored and the cache is loaded from the rows |
| Recognizer.RowFace | face_recognition_module/face_recognizer.py:46-86 | a row is kept iff it has a 512-byte blob and a known student. The kept entry re-encodes to the blob and carries the row's id and the student's name. |
| Recognizer.Confidence | face_recognition_module/face_recognizer.py:197-203 | a whole number of hundredths within 0.005 of (1-d)*100, and 100.0 at distance 0 |
| Recognizer.FaceResultOf | face_recognition_module/face_recognizer.py:156-169 | a match gives its id, name and confidence at the face's location, and no match gives (None, "Unknown", 0.0) there |
| Recognizer.ArgMin | face_recognition_module/face_recognizer.py:193-194 | returns the first index of the minimum distance |
| Recognizer.FirstMinUnique | face_recognition_module/face_recognizer.py:193-194 | that index is unique |
| Recognizer.Round2 | face_recognition_module/face_recognizer.py:203 | the result is a whole number of hundredths within 0.005 of its input |
| Recognizer.Round2Monotone | face_recognition_module/face_recognizer.py:203 | rounding to two places is monotone |
| Recognizer.CompareFaceWithDatabase | face_recognition_module/face_recognizer.py:175-209 | None iff every distance is at or above the threshold, which covers the empty cache. Otherwise the result is the id, name and rounded (1-d)*100 at the first minimum, whose distance is strictly below the threshold. |
| Recognizer.ThresholdMonotone | face_recognition_module/face_recognizer.py:193-197 | raising the threshold keeps every match, and keeps it the same |
| Recognizer.ExactMatchFullConfidence | face_recognition_module/face_recognizer.py:197-203 | distance 0 is matched with confidence 100.0 |
| Recognizer.ConfidenceInRange | face_recognition_module/face_recognizer.py:197-203 | with non-negative distances and a threshold of at most 1, a reported confidence lies in [0, 100] |
| Recognizer.FaceRecognizer.RecognizeFacesInFrame | face_recognition_module/face_recognizer.py:131-173 | An empty cache or no faces gives []. Otherwise there is one result per zipped pair, each being the comparison's answer or (None, "Unknown", location, 0.0). |
| Recognizer.FaceRecognizer.UpdateRecognitionThreshold | face_recognition_module/face_recognizer.py:227-238 | the threshold changes only for a value in [0, 1] |
| Recognizer.FaceRecognizer.GetStatistics | face_recognition_module/face_recognizer.py:247-258 | the cache size, the threshold and the index-aligned (id, name) pairs |
| Embedder.DecodedFaces | face_recognition_module/face_embedder.py:66-78 | at most one pair per row, and every kept vector has 128 elements |
| Embedder.DecodedFacesAppend | face_recognition_module/face_embedder.py:66-78 | decoding distributes over concatenation, so order is kept |
| Embedder.RepositoryPairsAllDecode | face_recognition_module/face_embedder.py:66-78 | pairs from the repository all decode, with the same ids, and re-encode to the stored blobs |
| Embedder.FaceEmbedder.LoadKnownFaces | face_recognition_module/face_embedder.py:56-83 | the lists are reset first, so a failed read leaves them empty. Otherwise they are the ids and vectors of the decodable pairs, equal in length. |
| Embedder.FaceEmbedder.constructor | face_recognition_module/face_embedder.py:30-54 | the tolerance is 0.6 and the cache is loaded through the repository |
| Embedder.FirstMatch | face_recognition_module/face_embedder.py:334-336 | None iff no flag is raised. Otherwise the id at the first raised flag. |
| Embedder.FaceEmbedder.RecognizeFace | face_recognition_module/face_embedder.py:314-344 | None on an empty cache. Otherwise the first matching id, not the nearest. |
| Embedder.IdSet | face_recognition_module/face_embedder.py:350-354 | the set of ids has exactly the ids as members and is no larger than the list |
| Embedder.FaceEmbedder.GetStats | face_recognition_module/face_embedder.py:346-354 | total_faces is the cache size, unique_students is the number of distinct ids, and unique_students <= total_faces |
| Embedder.Accepts | face_recognition_module/face_embedder.py:246-268 | an accepted frame has a face encoding whose bytes pass the repository guard |
| Embedder.Step | face_recognition_module/face_embedder.py:246-268 | a frame adds one sample and one written row iff it is accepted, and otherwise changes nothing |
| Embedder.Run | face_recognition_module/face_embedder.py:217-285 | the count never falls and never passes num_samples, and one row is written per collected sample |
| Embedder.StepKeepsInvariant | face_recognition_module/face_embedder.py:246-268 | one frame keeps the counters consistent and adds at most one sample, exactly when all five acceptance conditions hold |
| Embedder.FailedWriteChangesNothing | face_recognition_module/face_embedder.py:264-273 | a failed insert changes neither the count, the list nor the last capture time |
| Embedder.RunKeepsInvariant | face_recognition_module/face_embedder.py:217-285 | the loop keeps the invariant and never collects more than num_samples |
| Embedder.StoredSamplesReload | face_recognition_module/face_embedder.py:262-264 | rows written by the capture reload, through the read filter and the decode, as exactly the captured vectors |
| Embedder.WrittenRowsReloadAsSamples | face_recognition_module/face_embedder.py:262-264 | the rows one capture wrote pass the read filter and decode to exactly the returned samples, each under the student's id |
| Embedder.CaptureReloadEndsWithSamples | face_recognition_module/face_embedder.py:300-306 | the reload after a capture finds the faces the table held before, followed by exactly the returned samples under the student's id |
| Embedder.QuitBeforeAnySample | face_recognition_module/face_embedder.py:217-285 | quitting on a frame without a face ends the capture with nothing written |
| Embedder.FaceEmbedder.CaptureAndExtractFaceEmbedding | face_recognition_module/face_embedder.py:167-312 | A blank id, num_samples <= 0 or a closed camera returns None and writes nothing. Otherwise the table gains exactly the rows the loop wrote. The samples are returned iff at least one was collected, and with none the cache is unchanged. After a capture with samples and a successful reload, the cache is the faces held before followed by the samples under the student's id. After one whose reload fails, the cache is empty. |
| AttendanceRepo.AttendanceRepository.AddAttendanceRecord | database/attendance_repository.py:11-20 | the record is appended whenever the insert commits, with no duplicate check |
| AttendanceRepo.PlaceholdersConcat | database/attendance_repository.py:41-58 | placeholders add up over concatenation |
| AttendanceRepo.AppendClause | database/attendance_repository.py:41-56 | a filter adds as many placeholders as it adds parameters |
| AttendanceRepo.RecordPlaceholders | database/attendance_repository.py:41-58 | the query has one placeholder per parameter, starts with the SELECT and ends with ORDER BY |
| AttendanceRepo.RecordParams | database/attendance_repository.py:41-56 | the parameters are the truthy filters in the order MaBuoiHoc, MaSV, Ngay, TrangThai |
| AttendanceRepo.CorrectedRecordsQueryWellFormed | database/attendance_repository.py:41-58 | both of the above for the intended builder |
| AttendanceRepo.CorrectedRecordsQuery | database/attendance_repository.py:41-58 | at most four parameters, and the query grows by one clause of two fragments per parameter |
| AttendanceRepo.RecordsQuery | database/attendance_repository.py:22-58 | the builder as written fails iff a date is given, and otherwise equals the intended builder |
| AttendanceRepo.RecordsQueryWellFormed | database/attendance_repository.py:22-58 | the builder as written fails iff a date is given, and is well-formed otherwise |
| AttendanceRepo.DateFilterRaises | database/attendance_repository.py:51-53 | a date filter raises where the intended builder passes it as the only parameter |
| AttendanceRepo.GetAttendanceRecordsQuery | database/attendance_repository.py:22-58 | building the query clause by clause gives the query of the builder as written |
| AttendanceRepo.SummaryQuery | database/attendance_repository.py:60-79 | no criteria gives None. A date raises. Otherwise the query has one placeholder, whose parameter is the session. |
| AttendanceRepo.SummaryDict | database/attendance_repository.py:89 | the dictionary has exactly the statuses of the pairs as keys, and each maps to the count of some pair with that status |
| AttendanceRepo.SummaryDictLastWins | database/attendance_repository.py:89 | a status maps to the count on its last pair |
| AttendanceRepo.IntendedPairs | database/attendance_repository.py:89 | the intended unpacking gives one (status, count) pair per row, in order |
| AttendanceRepo.SummaryAsWrittenIsColumnNames | database/attendance_repository.py:89 | as written, dictionary rows unpack to their keys, so any non-empty fetch gives {'TrangThai': 'SoLuong'} |
| AttendanceRepo.SummaryOfOneRow | database/attendance_repository.py:89 | one row ('Có mặt', 3) gives {'TrangThai': 'SoLuong'} as written and {'Có mặt': 3} as intended |
| AttendanceRepo.DailySummary | database/attendance_repository.py:60-89 | get_daily_attendance_summary as intended: None without criteria, an exception for a date, and {} when nothing is fetched. Otherwise the keys are exactly the fetched statuses, each mapped to the count of a row with that status. |
| AttendanceRepo.InDayIffSameDay | database/attendance_repository.py:114-123 | a time is in [today, tomorrow) iff its day is today |
| AttendanceRepo.CountInDay | database/attendance_repository.py:114-123 | the count never exceeds the number of records |
| AttendanceRepo.CountInDayAppend | database/attendance_repository.py:114-123 | a new record counts once if it falls inside the window, and not at all otherwise |
| AttendanceRepo.CountAttendanceToday | database/attendance_repository.py:106-126 | the window count, or 0 when no row comes back |
| AttendanceTaking.Classify | ui/attendance_taking_ui.py:389-411 | confident iff an id is present and confidence > 70. Low confidence iff an id is present and confidence <= 70. Unrecognized iff there is no id. |
| AttendanceTaking.LastConfident | ui/attendance_taking_ui.py:389-411 | the last confident face of a frame, or None iff there is none |
| AttendanceTaking.CandidateOf | ui/attendance_taking_ui.py:389-411 | a confident face gives a candidate with the face's non-empty id |
| AttendanceTaking.StatusOf | ui/attendance_taking_ui.py:506 | the status is no longer than the type label, and a label without either circle is kept as it is |
| AttendanceTaking.PlainLabelKept | ui/attendance_taking_ui.py:506 | a label without either circle symbol passes both replacements unchanged |
| AttendanceTaking.RemoveAllAbsent | ui/attendance_taking_ui.py:506 | replace leaves text unchanged when the pattern's first character does not occur in it |
| AttendanceTaking.StatusDropsPrefix | ui/attendance_taking_ui.py:506 | the status is the type label without its blue- or red-circle prefix |
| AttendanceTaking.ComboStatuses | ui/attendance_taking_ui.py:506 | the two combo items give "Vào" and "Ra" |
| AttendanceTaking.AttendanceUI.constructor | ui/attendance_taking_ui.py:15-114 | the camera is off, there is no candidate and the button is disabled |
| AttendanceTaking.AttendanceUI.StartCamera | ui/attendance_taking_ui.py:344-370 | does nothing while running. A failed open keeps the capture and stays stopped. A successful open starts the timer and disables confirm. |
| AttendanceTaking.AttendanceUI.DisplayStudentInfo | ui/attendance_taking_ui.py:440-481 | the candidate is replaced, and confirm is enabled when the student is found |
| AttendanceTaking.AttendanceUI.UpdateFrame | ui/attendance_taking_ui.py:372-417 | the candidate is the last confident face, or unchanged when there is none. Confirm becomes enabled when some confident face's student is found, and otherwise keeps its state. Nothing changes without a running camera and a frame. |
| AttendanceTaking.AttendanceUI.ProcessAttendance | ui/attendance_taking_ui.py:495-524 | nothing is written without a session. Otherwise exactly one record with the derived status is appended when the insert commits, with no check for earlier records. |
| AttendanceTaking.AttendanceUI.ConfirmAttendance | ui/attendance_taking_ui.py:483-493 | no candidate does nothing. Otherwise at most one record is written, and the candidate is dropped and confirm disabled either way. |
| AttendanceTaking.AttendanceUI.StopCamera | ui/attendance_taking_ui.py:526-546 | everything is released, the candidate is dropped and confirm is disabled |
| StudentManagement.FaceStatusOf | ui/student_management_ui.py:469-493 | "complete" iff there are at least 3 samples, otherwise the count |
| StudentManagement.ValidateInput | ui/student_management_ui.py:515-530 | fails on a blank id, else on a blank name, and passes otherwise, whatever the sample count |
| StudentManagement.FaceCaptureDialog.constructor | ui/student_management_ui.py:23-36 | no samples, no camera and no timer |
| StudentManagement.FaceCaptureDialog.StartCapture | ui/student_management_ui.py:133-145 | the capture is kept, and the timer starts only if it opened |
| StudentManagement.FaceCaptureDialog.TimerEvent | ui/student_management_ui.py:147-186 | Without a camera, a frame or a face nothing changes. Otherwise the first face is stored, and the list and the count grow by one exactly when the insert succeeds. Capture stops at 3 samples. |
| StudentManagement.FaceCaptureDialog.StopCapture | ui/student_management_ui.py:188-197 | the camera and the timer are released |
| StudentManagement.FaceCaptureDialog.SaveFaces | ui/student_management_ui.py:199-204 | fewer than 3 samples neither emits nor accepts. Otherwise the samples are emitted and the dialog accepted. |
| StudentManagement.EmittedSamplesAreComplete | ui/student_management_ui.py:199-204 | whatever the dialog emits makes the form report complete |
| Dashboard.StepFor | ui/dashboard_ui.py:132 | the step is at least 1, and a twentieth of the distance when that is larger |
| Dashboard.Tick | ui/dashboard_ui.py:139-142 | a tick stays between the current value and the target, never passes the target, and strictly shrinks the distance |
| Dashboard.TicksToTarget | ui/dashboard_ui.py:137-147 | the least number of ticks whose steps cover the distance |
| Dashboard.AnimationReachesTarget | ui/dashboard_ui.py:137-147 | that many ticks reach the target, and every value on the way lies between the start and the target |
| Dashboard.TickNFixed | ui/dashboard_ui.py:139-147 | at the target, further ticks change nothing |
| Dashboard.AnimationIsShort | ui/dashboard_ui.py:120-147 | every animation ends within 40 ticks |
| Dashboard.StatCard.constructor | ui/dashboard_ui.py:23-48 | the count starts at 0 and no animation runs |
| Dashboard.StatCard.AnimateCountChange | ui/dashboard_ui.py:120-135 | the animation restarts from the start value with step StepFor |
| Dashboard.StatCard.SetCount | ui/dashboard_ui.py:109-118 | an equal count does nothing. Otherwise the animation starts from the old count and the count is set at once. |
| Dashboard.StatCard.UpdateCountAnimation | ui/dashboard_ui.py:137-147 | one tick is taken, the timer stops exactly at the target, and the distance strictly shrinks |
| Manage.StripHashesDropsHashes | ui/manage_ui.py:107 | lstrip('#') removes exactly the leading '#' characters |
| Manage.HexDigit | ui/manage_ui.py:115 | the lowercase hex digit of a value reads back as that value |
| Manage.ParseGroupStrips | ui/manage_ui.py:111-113 | the two-character parse agrees with the parse of the stripped group, for ASCII hex digits |
| Manage.ParseGroup | ui/manage_ui.py:111-113 | a parsed group lies in [-15, 255]. It is negative only after a '-', and above 15 only when both characters are hex digits. |
| Manage.Clamp | ui/manage_ui.py:111-113 | max(0, min(255, v)) lies in [0, 255] and keeps values already in range |
| Manage.FormatColor | ui/manage_ui.py:115 | '#' followed by three two-digit lowercase hex groups |
| Manage.AdjustColor | ui/manage_ui.py:105-117 | the result is the stripped input or a colour code, and the stripped input itself unless it has six characters |
| Manage.AdjustColorShape | ui/manage_ui.py:105-117 | the result is the stripped input, or a colour code exactly when six characters parse |
| Manage.Hex2RoundTrip | ui/manage_ui.py:111-115 | a formatted channel parses back to its value |
| Manage.FormatRoundTrip | ui/manage_ui.py:111-115 | a formatted colour parses back to its channels |
| Manage.AdjustedChannels | ui/manage_ui.py:111-115 | each output channel is the input channel plus amount, clamped to [0, 255] |
| Manage.AdjustColorMonotone | ui/manage_ui.py:111-115 | every output channel is monotone in amount |
| Manage.HexPairRoundTrip | ui/manage_ui.py:111-115 | two lowercase hex digits parse and format back to themselves |
| Manage.LowerHexChannels | ui/manage_ui.py:110-113 | six lowercase hex digits always parse |
| Manage.AdjustByZero | ui/manage_ui.py:105-117 | amount 0 on a lowercase "#rrggbb" gives it back |
| Manage.LenientGroups | ui/manage_ui.py:111-113 | int(" f", 16) and int("-f", 16) parse as 15 and -15 |
| Manage.NegativeChannelColor | ui/manage_ui.py:105-117 | a signed group is accepted and clamped: "#-f0000" brightened by 20 has channels (5, 20, 20) |
| Manage.GridPosition | ui/manage_ui.py:208-214 | button i sits at row i // 3, column i % 3 |
| Manage.GridPositionInjective | ui/manage_ui.py:208-214 | no two buttons share a cell |
| Manage.WindowKindFor | ui/manage_ui.py:356-382 | the student window iff the name is the student module and its import and construction succeed, otherwise a placeholder with that title |
| Manage.AttendanceManagerUI.constructor | ui/manage_ui.py:302-306 | the window map starts empty |
| Manage.AttendanceManagerUI.OnModuleSelected | ui/manage_ui.py:332-354 | A visible window is raised and the map is unchanged. Otherwise a fresh, shown window replaces the entry, and the other entries are unchanged. |
| Common.StripIdempotent | ui/class_subject_management_ui.py:369-371 | strip is idempotent |
| Common.Find | ui/class_subject_management_ui.py:562-563 | the first occurrence of the separator, or None iff it is absent |
| Common.RFind | ui/class_subject_management_ui.py:567-570 | the last occurrence of a character, or None iff it is absent |
| ClassSubject.ClassLine | ui/class_subject_management_ui.py:529 | "{code} - {name} ({faculty})": its length, its code prefix and its separator position |
| ClassSubject.ParseClassLine | ui/class_subject_management_ui.py:558-576 | None iff the line has no " - ". Otherwise the code is the text before the first " - ". |
| ClassSubject.ClassLineRoundTrip | ui/class_subject_management_ui.py:529-572 | parsing a formatted line gives (code, name.strip(), faculty.strip()) when the separator first occurs after the code and the faculty has no parentheses |
| ClassSubject.FirstSeparatorAfterCode | ui/class_subject_management_ui.py:562-563 | the split is at the formatter's separator |
| ClassSubject.ParenthesesOfRest | ui/class_subject_management_ui.py:567-572 | the last '(' and ')' of the remainder are the formatter's |
| ClassSubject.FilterSubjects | ui/class_subject_management_ui.py:466-490 | a subject is kept iff it matches the query case-insensitively, by code in code mode and by name otherwise |
| ClassSubject.FilterSubjectsAppend | ui/class_subject_management_ui.py:466-490 | the filter distributes over concatenation, so order is kept |
| ClassSubject.FilterSubjectsIdempotent | ui/class_subject_management_ui.py:466-490 | filtering twice equals filtering once |
| ClassSubject.SearchSubjects | ui/class_subject_management_ui.py:458-490 | No search without a database, a query or subjects. Otherwise the loop shows exactly the filter's result. |
| ClassSubject.ParseShowNat | ui/class_subject_management_ui.py:380 | int() reads back what str() writes |
| ClassSubject.ParseInt | ui/class_subject_management_ui.py:380 | int() on the stripped credits gives a value only for non-empty text, and a negative value only after a leading '-'. Its round trip with str() is ParseShowNat. |
| ClassSubject.CheckSubjectForm | ui/class_subject_management_ui.py:363-424 | Success iff there is a connection, three non-blank fields, and credits that parse to a positive integer. Each failure names the first check that failed. |
| ClassSubject.PositiveCreditsAccepted | ui/class_subject_management_ui.py:373-384 | positive numeric credits are accepted with that value, and zero is refused as not positive |

## Left out

- Qt widgets, layouts, styles, message boxes and signal wiring are not modelled; only the fields the handlers update are.
- OpenCV capture, drawing, cropping and image saving are not modelled. A saved image is a path input, "" on failure.
- The face_recognition library's `face_locations`, `face_encodings`, `face_distance` and `compare_faces` are inputs: one distance or one flag per cached vector.
- Distances and times are exact reals, not IEEE floats.
- Recognizer.Round2: Python's `round(x, 2)` is modelled on exact reals with ties to even. It does not model the binary representation of its argument.
- Embedding.FromBuffer: a float32 is its four bytes, and the IEEE layout is not interpreted. Only lengths and contents matter.
- The `face_recognition_module/face_recognizer.py` reload takes `get_student_by_id` as a map from id to name. A lookup that raises counts as a missing student.
- Common.Lower: only ASCII letters are folded, not all of Unicode's `str.lower()`. The subject search uses it.
- ClassSubject.FilterSubjects: with the ASCII-only Common.Lower, a capital such as 'Đ' does not match its lowercase 'đ', where Python's `lower()` folds it.
- ClassSubject.SearchSubjects: shows the result of ClassSubject.FilterSubjects, so it has the same ASCII-only folding.
- ClassSubject.ParseInt: the credits parse accepts ASCII digits with an optional sign and single underscores. Python's `int()` also takes other Unicode decimal digits.
- The `processing_lock` of face_embedder.py and the `ConnectionWorker` thread are concurrency and are not modelled.
- `check_student_attended_today` indexes a dictionary row by position and no flow calls it, so it is not modelled.
- `recognize_face_from_image`, `get_student_info`, `reload_known_faces` and `_initialize_camera` are thin wrappers over the library, the camera and `get_student_by_id`. Their outcomes are inputs of the modelled operations.
- The `search_classes` handler only reformats the class lines; its line format is `ClassSubject.ClassLine`.
- The widget handlers that only move text between fields are not modelled. This covers `on_subject_row_clicked`, `clear_*` and `load_*`.
- `StudentManagement.FaceCaptureDialog.StartCapture` does not reset the sample count. A restarted capture therefore keeps counting from where it stopped. The model states this as written. The dialog disables its start button while a capture runs (ui/student_management_ui.py:140) and enables it again only after stopCapture has killed the timer (line 195), so the model's start while a timer runs comes only from a direct call. The buttons are not modelled.
- Manage.ParseGroup: only ASCII hex digits are read. Python's `int(_, 16)` also takes other Unicode decimal digits, so '٣f' reads as 63 there and fails here.
- Manage.ParseGroupStrips: it states the agreement for ASCII hex digits only, for the same reason as Manage.ParseGroup.
- StudentRepo.StudentRepository.GetAllFaceEmbeddings: it models the read as intended. As written, every call takes the failed-read path (see Findings), so the recognizer keeps its old cache and the embedder's cache stays empty. The callers' failed-read cases state that outcome.
- AttendanceRepo.SummaryQuery: a truthy date raises as written, because database/attendance_repository.py:79 repeats the `isinstance` error of line 51. No corrected summary query is modelled.
- `AttendanceRepo` keeps SQL as a list of fragments and placeholders, not as text. The SQL text itself and its execution are not modelled.

## Findings

| source | as written | input that shows it | evidently intended | confidence | as-written member | corrected member |
|---|---|---|---|---|---|---|
| database/attendance_repository.py:51 | `isinstance(Ngay, datetime.date)` raises TypeError. `datetime` is the imported class, so `datetime.date` is a method, not a type. | `get_attendance_records(Ngay="2024-05-01")` | a truthy date adds ` AND DATE(dd.ThoiGian) = %s` and passes the date as a parameter | high, not executed | AttendanceRepo.DateFilterRaises | AttendanceRepo.CorrectedRecordsQueryWellFormed |
| database/attendance_repository.py:89 | `fetch_all` uses a DictCursor (database/connection_manager.py:45), so each row is a dict and `for status, count in results` unpacks its two keys | `get_daily_attendance_summary(MaBuoiHoc="BH01")` fetching one row `{'TrangThai': 'Có mặt', 'SoLuong': 3}` gives `{'TrangThai': 'SoLuong'}` | `{'Có mặt': 3}`, one count per status | high, not executed | AttendanceRepo.SummaryAsWrittenIsColumnNames | AttendanceRepo.DailySummary |
| database/student_repository.py:123 | `self.conn` is never assigned (the repository holds `conn_manager`), so AttributeError is caught at lines 159-161 and [] is returned | any call of `get_all_face_embeddings`, even after `add_face_embedding` returned True | the rows of KhuonMat read through the connection manager and filtered | high, not executed | StudentRepo.WrittenFaceNeverReadBack | StudentRepo.StudentRepository.GetAllFaceEmbeddings |
