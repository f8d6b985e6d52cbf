# Turret vision and log housekeeping, modelled in Dafny

This project models two small, deterministic parts of a Raspberry Pi
security turret written in Python.

- **Log-folder housekeeping** (`log_retention.dfy`, module `LogRetention`).
  This is the start of `init_outfile_logging` in the `logger` package.
  - A missing log folder is created (its parent must exist), and nothing is deleted.
  - Otherwise every entry whose name contains `.log` anywhere is a candidate.
  - While there are more than `max_logs` candidates, the one with the least
    modification time is deleted. This happens `count - max_logs` times.
  - The folder is modelled as its listing plus a map from names to integer
    modification times. The deletions are the sequence of names removed.
  - The three loops of the source are three methods with loop invariants:
    filter, time, evict. `min(dict, key=dict.get)` is a method of its own.
- **Object position table and detection schedule** (`object_positions.dfy`,
  module `ObjectPositions`).
  - `ObjectDetector.find_position` turns the detector's detections into a
    map. Its key is the name of each detection's top category. Its value
    holds the detection's index, bounding box and integer centre. A later
    detection with the same name replaces an earlier one.
  - The module's camera loop runs the detector only when its frame counter
    is a multiple of 12. On other frames it reuses the last table.

The two modules share nothing. Each file verifies on its own.

The detection stride is 12 (`counter % 12 == 0`, objectDetectionModule.py:183).
Eviction selects every name that contains `.log` anywhere (logger/__init__.py:26).

## Model

| member | source | states |
|---|---|---|
| `LogRetention.ContainsInfix` | logger/__init__.py:26 | Python's `'.log' in name`: true exactly when the pattern occurs at some index of the name |
| `LogRetention.CandidateWhereverMarker` | logger/__init__.py:26 | any name with `.log` anywhere is a candidate, not only one ending in it (e.g. rotated `x.log.1`) |
| `LogRetention.IsLogName` | logger/__init__.py:26 | an entry is a candidate exactly when `.log` stands at some index of its name; a name shorter than `.log` never is |
| `LogRetention.LogEntries` | logger/__init__.py:23-27 | the candidates are exactly the listed names containing `.log`, never more than the listing |
| `LogRetention.LogEntriesDistinct` | logger/__init__.py:23-27 | filtering a duplicate-free listing gives duplicate-free candidates |
| `LogRetention.CollectLogs` | logger/__init__.py:24-27 | the append loop yields exactly the candidate list, in listing order |
| `LogRetention.CandidateTimes` | logger/__init__.py:29-31 | the `logs_timed` dictionary: keys are exactly the candidates; values are their modification times |
| `LogRetention.RecordTimes` | logger/__init__.py:29-31 | the filling loop's keys are exactly the candidates, each mapped to its own modification time |
| `LogRetention.Oldest` | logger/__init__.py:33 | `min` by modification time: a key of least time when the dict is non-empty, an error (`None`) exactly when it is empty |
| `LogRetention.EvictOldest` | logger/__init__.py:32-36 | `rounds` deletions, or all candidates and failure when `rounds` exceeds their number; no name twice; each deletion is oldest among those not yet deleted |
| `LogRetention.RemovedNoNewerThanKept` | logger/__init__.py:32-36 | every deleted candidate is at most as new as every kept candidate |
| `LogRetention.RemovalOrderNonDecreasing` | logger/__init__.py:32-36 | the deletions happen in non-decreasing order of modification time |
| `LogRetention.OldestFirstDeterminate` | logger/__init__.py:33 | with distinct modification times, any two oldest-first deletion sequences of equal length are the same; ties are the only freedom |
| `LogRetention.KeptCount` | logger/__init__.py:32-36 | deleting k distinct candidates leaves exactly `count - k` of them |
| `LogRetention.PruneLogFolder` | logger/__init__.py:20-36 | missing folder: created, nothing removed; otherwise only candidates removed, each once, each oldest among those left, oldest first (non-decreasing modification time) and none newer than any kept candidate, `count - max_logs` of them leaving `max_logs` (none when `count <= max_logs`); negative `max_logs` removes every candidate and then fails |
| `ObjectPositions.TruncHalf` | objectDetectionModule.py:133-134 | `int(n / 2)` truncates toward zero: within one of `n / 2`, never past it away from zero |
| `ObjectPositions.Centre` | objectDetectionModule.py:133-134 | `int(extent / 2 + origin)` lies between `origin` and `origin + extent` for any non-negative extent; equals `origin + extent / 2` for non-negative fields |
| `ObjectPositions.EntryFor` | objectDetectionModule.py:133-145 | the entry for detection `obj_id` carries that index, copies the four box fields unchanged, and has its centre inside a box with non-negative sides |
| `ObjectPositions.PositionTable` | objectDetectionModule.py:127-145 | the table after assigning each detection in order, a later assignment to the same name overwriting; never more entries than detections |
| `ObjectPositions.LastIndexOf` | objectDetectionModule.py:130-137 | reference definition: the last index whose top category has the given name, or -1 when none has |
| `ObjectPositions.PositionTableLastWins` | objectDetectionModule.py:130-145 | a name is a key exactly when some detection carries it, and its entry is built from the last such detection |
| `ObjectPositions.PositionTableKeys` | objectDetectionModule.py:130-137 | the key set is exactly the set of top-category names of the detections (empty for no detections) |
| `ObjectPositions.PositionTableEntries` | objectDetectionModule.py:130-145 | each entry's `obj_id` indexes the detections, names a detection with that key, copies its box fields unchanged, and has its centre inside the box |
| `ObjectPositions.FindPosition` | objectDetectionModule.py:119-149 | the enumerate loop builds exactly the position table; no detections give the empty map |
| `ObjectPositions.RefreshesDetection` | objectDetectionModule.py:183 | the `counter % 12 == 0` test: of the first twelve counter values only 0 detects |
| `ObjectPositions.RefreshPeriodic` | objectDetectionModule.py:183 | the detection test repeats every 12 counter values |
| `ObjectPositions.LastRefresh` | objectDetectionModule.py:183-189 | the latest detector frame at or before a frame: a multiple of 12, at most 11 frames back, with no detector frame in between |
| `ObjectPositions.TrackFrames` | objectDetectionModule.py:164-189 | with the counter starting at 0, frame k uses the table of frame `k - k % 12`, so frame 0 always detects; the detector runs `ceil(n / 12)` times in n frames |

## Left out

- File-system I/O: `os.path.exists`, `os.mkdir`, `os.listdir`, `getmtime` and
  `os.remove` are abstracted to an optional folder value, a listing, an mtime
  map and the sequence of removed names. The listing must be duplicate-free
  and name exactly the entries that have a modification time. An entry that
  is a directory would make `os.remove` raise; this is not modelled.
- A missing folder whose parent directory is also missing makes `os.mkdir`
  raise (logger/__init__.py:20-21); this error path is not modelled.
- A `log_folder` that exists as a regular file makes `os.listdir` raise
  (logger/__init__.py:20-23); this error path is not modelled.
- An entry removed between `os.listdir` and `getmtime` makes `getmtime` raise
  (logger/__init__.py:31); this error path is not modelled.
- Modification times are integers. Real `getmtime` floats are not modelled.
- Which of several equally old candidates `min` picks depends on dictionary
  order, which follows listdir order. `Oldest` promises only some oldest one.
- The logging set-up after the eviction is not modelled: `getLogger`, the
  formatter, `RotatingFileHandler` and the `datetime` file name (logger/__init__.py:38-54).
- `ObjectDetector.__init__` and `find_object` are not modelled: TFLite model
  construction, inference and OpenCV drawing. Only the detection fields that
  `find_position` reads are modelled: bounding box and category names.
- `Centre` uses exact arithmetic. Python computes `width / 2 + origin_x` in
  floating point, which is exact only while `|width + 2 * origin_x| < 2^53`,
  that is while the centre stays below 2^52 in magnitude.
- A detection without categories would make `categories[0]` raise. The model
  requires at least one category per detection, as the detector supplies.
- In the camera loop, only the detection schedule is modelled. Frame capture,
  flipping, the FPS estimate (float wall-clock time), the text overlay and the
  `person` marker drawing are left out. The loop's end (`cap.isOpened()`) is
  modelled as the end of the given frame sequence.
- `main.py` is not part of this model. Its servo and GPIO code is hardware
  plumbing, and its targeting fragment is unfinished.
- `poseDetectionModule.py` is not part of this model. It wraps MediaPipe and
  only scales float landmarks.
