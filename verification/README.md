# Face attendance: a verified model of the recognition core

The system is a small Flask web application. At start-up it builds a gallery of
known faces from a directory tree, one sub-directory per person. It then streams
webcam frames to the browser as a multipart response. On every fifth successful
camera read it detects the faces in the frame and labels each one "Unknown" or
with the nearest gallery name, accepted only below distance 0.5. On the first
recognized person whose attendance is not yet in the CSV ledger for today, it
appends a row `[name, "YYYY-MM-DD HH:MM:SS"]`, releases the camera and ends the
stream.

The model has five modules, one per file:

- `clock.dfy` (`Clock`): calendar readings and the two `strftime` layouts,
  "%Y-%m-%d" and "%Y-%m-%d %H:%M:%S".
- `ledger.dfy` (`Ledger`): the ledger as a file that is absent or holds
  already-split rows.
  - `is_attendance_marked` is a scan with early return.
  - `mark_attendance` is an append.
  - Both are methods of the `AttendanceLog` class, each proved against the
    functions `CheckMarked` and `AfterMark`.
- `gallery.dfy` (`Gallery`): the list-building loops of `load_known_faces`.
  They are proved to produce exactly one slot per contributing image file, in
  walk order.
- `matching.dfy` (`Matching`): the per-face decision, using `np.argmin` (first
  index on ties) and the strict threshold 0.5.
- `stream.dfy` (`Stream`): the loop of `video_stream`.
  - A `Camera` class holds the reads still to come.
  - The method `VideoStream` is proved equal to a functional reading
    `StreamFrom`, which is proved equal to a run over the analysed frames
    (every fifth successful read).
  - On that run the model proves when the stream stops and what it writes.

The foreign results are inputs:
- the directory listings and the encodings found in each image;
- one distance vector per detected face;
- the clock reading for each analysed frame;
- the ledger rows as the CSV reader splits them.

A row holding the person's name as its only field makes `row[1]` raise
`IndexError` in the source. The model keeps that error as `Check.RowTooShort`,
and the stream ends on it as `End.LedgerRowTooShort` without releasing the
camera. The lemmas show that this error cannot occur on a ledger with no
one-field rows, and `mark_attendance` only ever writes two-field rows.

The frame on which attendance is taken is never sent: `return` (app.py:107)
comes before the `yield` (app.py:113-116). In the model, too, the stopping
frame yields no chunk.

## Model

| member | source | states |
|---|---|---|
| Clock.Timestamp | app.py:66 | the "%Y-%m-%d %H:%M:%S" text of a reading is 19 characters long and begins with the "%Y-%m-%d" text of its day |
| Clock.DateStringInjective | app.py:51 | two days print the same "%Y-%m-%d" text if and only if they are the same day, so a date prefix identifies one calendar day |
| Ledger.Scan | app.py:57-59 | Marked only if some row from `from` on has the name first and a second field starting with today's date; NotMarked only if no such row exists and no one-field row holds the name; RowTooShort names a one-field row holding the name |
| Ledger.CheckMarkedExists | app.py:50-60 | on a ledger without one-field rows the check never raises, and it answers Marked if and only if some row has the name and a timestamp on that day (so an absent ledger answers not marked) |
| Ledger.ScanAppend | app.py:55-60 | appending one row changes the scan's answer only when no earlier row decided it, and then the new row alone decides |
| Ledger.MarkedAfterMark | app.py:63-66 | after marking `name` at `now`, the check answers Marked for that name on that day (unless an earlier row already decides the scan); for any other person or day the answer is unchanged |
| Ledger.MarkThenMarked | app.py:58 | after a mark the marked person is Marked on the marking day, on any ledger whose scan for them does not stop on a malformed row |
| Ledger.GuardedMarkKeepsOncePerDay | app.py:100-101 | a mark made only after the check answered not marked keeps the ledger at no more than one row per person per day |
| Ledger.MarkKeepsWellFormed | app.py:66 | appending the two-field row keeps the ledger free of one-field rows |
| Ledger.AttendanceLog.IsAttendanceMarked | app.py:50-60 | the early-return loop over the rows answers what `CheckMarked` answers for the current ledger and clock reading |
| Ledger.AttendanceLog.MarkAttendance | app.py:63-66 | the ledger becomes present with exactly one row `[name, timestamp]` appended, and every earlier row unchanged |
| Matching.ArgMin | app.py:96 | the result is an index where the minimum is reached, and no earlier index reaches it (first index on ties) |
| Matching.FirstMinimumUnique | app.py:96 | the first index of the minimum is unique |
| Matching.Classify | app.py:92-98 | Recognized if and only if some distance is strictly below 0.5 (so an empty gallery gives Unknown), and then with the name at the first index of the minimum distance |
| Matching.ThresholdIsStrict | app.py:97 | in any non-empty gallery, a nearest distance equal to 0.5 is not a match, and a nearest distance below it matches the first nearest entry |
| Matching.TieGoesToFirst | app.py:96 | when two entries tie for the minimum, the match goes to the earlier one |
| Gallery.ImageOrigins | app.py:30-39 | in one person directory, the contributing files are those with a ".jpg" or ".png" name and at least one face, each listed once, in listing order |
| Gallery.Origins | app.py:26-39 | every contributing file of the whole walk is listed once, each one contributes, and they are in walk order (entry by entry, then file by file) |
| Gallery.ImagesGalleryFollowsOrigins | app.py:30-39 | the slots one directory adds match its contributing files one for one: the file's first encoding, labelled with the directory's name |
| Gallery.GalleryFollowsOrigins | app.py:23-39 | the gallery has one slot per contributing file, in walk order, holding that file's first encoding and its directory's name |
| Gallery.LoadKnownFaces | app.py:23-45 | the two lists have equal length, and at every index they hold the first encoding of the k-th contributing file and the name of the directory it sits in |
| Stream.DecideCases | app.py:92-107 | a face stops the stream if and only if it is recognized and not marked today; it fails only on a one-field ledger row; otherwise (unknown, or already marked) it is labelled with its verdict's text and passed, which writes nothing |
| Stream.ProcessFacesAnnotated | app.py:91-111 | a frame's face loop completes if and only if every face passes, and then with one label per face, in face order |
| Stream.ProcessFacesFirstStop | app.py:91-107 | if the face loop does not complete, it ends on the first face that does not pass, every earlier face having passed |
| Stream.RunFramesSpec | app.py:78-116 | over the analysed frames: every frame before the stop is yielded with its labels, and the stopping frame is not; the ledger is unchanged unless attendance is taken, and then exactly one mark for the stopping face at that frame's reading is added |
| Stream.SampleEveryFifth | app.py:83-85 | with the counter `phase` past a multiple of five, the frames let through are those at positions 4 - phase, 9 - phase, ..., and there are (n + phase) / 5 of them |
| Stream.SampledStep | app.py:79-85 | a failed read does not move the counter; a successful read moves it and is analysed exactly when the new count is a multiple of five |
| Stream.StreamIsSampledRun | app.py:78-116 | the read loop from any read and count is the run over the frames the counter lets through |
| Stream.FrameTakenIff | app.py:91-107 | on a ledger without one-field rows a frame never fails, and it stops the stream if and only if some face in it is recognized and not yet marked |
| Stream.RunStopsIffUnmarkedMatch | app.py:100-107 | on such a ledger the run never fails, and it ends with attendance taken if and only if some face in some analysed frame is recognized and not yet marked |
| Stream.AnalysedFramesAreEveryFifth | app.py:79-85 | the analysed frames are the 5th, 10th, 15th, ... successful reads, and there are (number of successful reads) / 5 of them |
| Stream.StreamIsRunOverAnalysedFrames | app.py:78-116 | the whole loop equals the run over the analysed frames: failed reads are ignored and only every fifth successful read is analysed |
| Stream.StreamStopsIffUnmarkedMatch | app.py:78-116 | on the whole loop, with a well-formed ledger: the stream ends with attendance taken if and only if some analysed frame holds a recognized face not yet marked that day, and it never fails |
| Stream.RunKeepsLedgerInvariants | app.py:100-101 | a stream keeps the ledger at no more than one row per person per day, and keeps it free of one-field rows |
| Stream.NoSecondMarkSameDay | app.py:100-101 | after a stream takes attendance for a person, a face recognized as that person later the same day is labelled and passed, not marked again |
| Stream.Camera.Read | app.py:79 | a read delivers the next pending read and consumes it |
| Stream.Camera.Release | app.py:106 | releasing marks the device released and consumes nothing |
| Stream.AnalyseFaces | app.py:91-111 | the face loop over one frame returns the outcome `ProcessFaces` defines for the current ledger |
| Stream.VideoStream | app.py:69-118 | chunks, end and the new ledger are exactly what `StreamFrom` defines for the reads and the old ledger; the camera is released exactly when attendance is taken; reads are consumed in order, all of them when the stream is still live |

## Left out

- Flask routes and application start-up (app.py:120-130) are web-framework plumbing and are not modelled.
- Capture set-up, colour conversion, drawing, JPEG encoding and the multipart framing are foreign `cv2` calls and byte I/O. A yielded chunk is kept only as the list of labels drawn on its frame. The "Attendance Taken!" caption drawn on the stopping frame is never sent (see above) and is not modelled.
- `face_recognition` detection, embedding and distance computation are foreign numeric calls. Encodings are an abstract type, and each detected face arrives as its vector of real distances to the gallery. NaN distances are not modelled.
- The pickle cache (app.py:19-21, 42-43) is file I/O and serialization; only the list-building part of `load_known_faces` is modelled.
- The order of `os.listdir` and the `os.path.isdir` answers are inputs: an entry carries its `isDir` flag and its files in listing order.
- CSV quoting and parsing are left to the `csv` module. Rows arrive already split into fields.
- `print` on a mark (app.py:102) and the camera resolution settings (app.py:73-74) have no effect on the modelled state.
- Exceptions raised by the foreign calls themselves are not modelled: an unreadable image, or a directory whose name ends in ".jpg" (app.py:34), ledger I/O errors (app.py:55, 64), and a camera that cannot be opened (app.py:70). In the source these abort start-up or the stream; in the model `LoadKnownFaces` always returns its two lists and the ledger and camera operations always succeed.
- Generator suspension, HTTP client disconnect and the teardown that goes with it concern the framework lifecycle and are not modelled.
- Stream.VideoStream: runs only as long as the supplied reads last. The source loops forever on `while True`, so an exhausted feed is modelled as ending in `StillStreaming` with the camera not released. The `release()` after the loop (app.py:118) cannot be reached in the source and is not modelled.
- Stream.AnalyseFaces: the check and the mark use one clock reading per analysed frame. The source calls `datetime.now()` separately in `is_attendance_marked` and in `mark_attendance`, so a mark made just after midnight can carry the next day's date; that race is not modelled.
- Clock.DateString: years outside 1000..9999, where "%Y" would not print exactly four digits, are excluded by `ValidDate`.
