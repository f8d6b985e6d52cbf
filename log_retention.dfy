/**
 Start-up housekeeping of the `logger` package (`init_outfile_logging`):
 the log folder is created when it is missing; otherwise every entry whose
 name contains ".log" is a candidate, and while there are more candidates
 than `max_logs` the one with the smallest modification time is deleted.

 The folder is abstracted to its listing (the names `os.listdir` returns)
 and a map from names to integer modification times (`os.path.getmtime`);
 a deletion is recorded by name, in the order the `os.remove` calls happen.
 */
module LogRetention {

  datatype Option<T> = None | Some(value: T)

  /** The text whose presence anywhere in a name makes the entry a log file. */
  const LogMarker: string := ".log"

  /** A folder as the housekeeping sees it. */
  datatype Folder = Folder(listing: seq<string>, mtime: map<string, int>)

  /** What the housekeeping did to the folder. */
  datatype Housekeeping =
    | CreatedFolder                      // the folder was missing and is made; nothing is removed
    | Pruned(removed: seq<string>)       // these entries were deleted, in this order
    | PruneFailed(removed: seq<string>)  // these were deleted, then `min` of an empty dict raised

  predicate Distinct(s: seq<string>)
  {
    forall i, j :: 0 <= i < j < |s| ==> s[i] != s[j]
  }

  /** `os.listdir` names each entry once, and every listed entry has a modification time. */
  ghost predicate WellFormed(f: Folder)
  {
    Distinct(f.listing) && (forall n :: n in f.listing <==> n in f.mtime)
  }

  /** `pat` occurs in `s` starting at index `i`. */
  ghost predicate InfixAt(pat: string, s: string, i: int)
  {
    0 <= i && i + |pat| <= |s| && s[i..i + |pat|] == pat
  }

  /** Python's `pat in s` on strings: `pat` is a contiguous part of `s`. */
  function ContainsInfix(pat: string, s: string): (r: bool)
    ensures r <==> exists i :: InfixAt(pat, s, i)
    decreases |s|
  {
    if |s| < |pat| then false
    else if s[..|pat|] == pat then assert InfixAt(pat, s, 0); true
    else
      var r := ContainsInfix(pat, s[1..]);
      assert forall i :: InfixAt(pat, s[1..], i) <==> InfixAt(pat, s, i + 1) by {
        forall i ensures InfixAt(pat, s[1..], i) <==> InfixAt(pat, s, i + 1) {
          if 0 <= i && i + |pat| <= |s| - 1 {
            assert s[1..][i..i + |pat|] == s[i + 1..i + 1 + |pat|];
          }
        }
      }
      assert r ==> exists i :: InfixAt(pat, s, i) by {
        if r {
          var i :| InfixAt(pat, s[1..], i);
          assert InfixAt(pat, s, i + 1);
        }
      }
      assert (exists i :: InfixAt(pat, s, i)) ==> r by {
        if exists i :: InfixAt(pat, s, i) {
          var i :| InfixAt(pat, s, i);
          assert i != 0;
          assert InfixAt(pat, s[1..], i - 1);
        }
      }
      r
  }

  /** `'.log' in name` (logger/__init__.py:26): the marker stands at some index of the name. */
  predicate IsLogName(name: string): (r: bool)
    ensures r <==> exists i :: InfixAt(LogMarker, name, i)
    ensures |name| < |LogMarker| ==> !r
  {
    ContainsInfix(LogMarker, name)
  }

  /**
   A name is a candidate wherever the marker stands in it, not only at the
   end: rotated backups such as "x.log.1" count as well.
   */
  lemma CandidateWhereverMarker(prefix: string, suffix: string)
    ensures IsLogName(prefix + LogMarker + suffix)
  {
    var name := prefix + LogMarker + suffix;
    assert name[|prefix|..|prefix| + |LogMarker|] == LogMarker;
    assert InfixAt(LogMarker, name, |prefix|);
  }

  /** The log candidates of a listing, in listing order. */
  function LogEntries(listing: seq<string>): (logs: seq<string>)
    ensures |logs| <= |listing|
    ensures forall n :: n in logs <==> n in listing && IsLogName(n)
  {
    if listing == [] then []
    else
      var last := listing[|listing| - 1];
      var front := listing[..|listing| - 1];
      assert listing == front + [last];
      LogEntries(front) + (if IsLogName(last) then [last] else [])
  }

  /** Filtering keeps distinct names distinct. */
  lemma {:induction false} LogEntriesDistinct(listing: seq<string>)
    requires Distinct(listing)
    ensures Distinct(LogEntries(listing))
  {
    if listing != [] {
      var front := listing[..|listing| - 1];
      var last := listing[|listing| - 1];
      assert listing == front + [last];
      assert Distinct(front);
      LogEntriesDistinct(front);
      assert last !in front;
    }
  }

  /** The first loop: keep each listed name that contains ".log", in order. */
  method CollectLogs(listing: seq<string>) returns (logs: seq<string>)
    ensures logs == LogEntries(listing)
  {
    logs := [];
    var i := 0;
    while i < |listing|
      invariant 0 <= i <= |listing|
      invariant logs == LogEntries(listing[..i])
    {
      assert listing[..i + 1][..i] == listing[..i];
      if IsLogName(listing[i]) {
        logs := logs + [listing[i]];
      }
      i := i + 1;
    }
    assert listing[..i] == listing;
  }

  /** The candidates together with their modification times. */
  function CandidateTimes(f: Folder): (timed: map<string, int>)
    requires WellFormed(f)
    ensures forall n :: n in timed <==> n in f.listing && IsLogName(n)
    ensures forall n :: n in timed ==> timed[n] == f.mtime[n]
  {
    map n | n in LogEntries(f.listing) :: f.mtime[n]
  }

  /** The second loop: record the modification time of every candidate. */
  method RecordTimes(logs: seq<string>, mtime: map<string, int>) returns (timed: map<string, int>)
    requires forall n :: n in logs ==> n in mtime
    ensures forall n :: n in timed <==> n in logs
    ensures forall n :: n in timed ==> timed[n] == mtime[n]
  {
    timed := map[];
    var i := 0;
    while i < |logs|
      invariant 0 <= i <= |logs|
      invariant forall n :: n in timed <==> n in logs[..i]
      invariant forall n :: n in timed ==> timed[n] == mtime[n]
    {
      assert logs[..i + 1] == logs[..i] + [logs[i]];
      timed := timed[logs[i] := mtime[logs[i]]];
      i := i + 1;
    }
    assert logs[..i] == logs;
  }

  /**
   `min(timed, key=timed.get)`: a name of least modification time; an empty
   dict makes `min` raise, which is `None` here.
   */
  method Oldest(timed: map<string, int>) returns (oldest: Option<string>)
    ensures oldest.None? <==> |timed| == 0
    ensures oldest.Some? ==> oldest.value in timed
    ensures oldest.Some? ==> forall k :: k in timed ==> timed[oldest.value] <= timed[k]
  {
    if |timed| == 0 {
      return None;
    }
    var unseen := timed.Keys;
    var best :| best in unseen;
    unseen := unseen - {best};
    while unseen != {}
      invariant unseen <= timed.Keys
      invariant best in timed
      invariant forall k :: k in timed && k !in unseen ==> timed[best] <= timed[k]
      decreases unseen
    {
      var k :| k in unseen;
      if timed[k] < timed[best] {
        best := k;
      }
      unseen := unseen - {k};
    }
    return Some(best);
  }

  /**
   Each removal took a name of least modification time among the candidates
   not removed before it.
   */
  ghost predicate OldestFirst(removed: seq<string>, timed: map<string, int>)
  {
    && (forall i :: 0 <= i < |removed| ==> removed[i] in timed)
    && (forall i, k :: 0 <= i < |removed| && k in timed && k !in removed[..i] ==>
          timed[removed[i]] <= timed[k])
  }

  /**
   One round of the third loop keeps its invariant: deleting a name of least
   time among those left extends an oldest-first, duplicate-free sequence.
   */
  lemma EvictStep(timed0: map<string, int>, timed: map<string, int>, removed: seq<string>, victim: string)
    requires Distinct(removed) && OldestFirst(removed, timed0)
    requires forall n :: n in timed <==> n in timed0 && n !in removed
    requires forall n :: n in timed ==> timed[n] == timed0[n]
    requires victim in timed && forall k :: k in timed ==> timed[victim] <= timed[k]
    ensures Distinct(removed + [victim]) && OldestFirst(removed + [victim], timed0)
    ensures forall n :: n in timed - {victim} <==> n in timed0 && n !in removed + [victim]
    ensures |timed - {victim}| == |timed| - 1
  {
    var r := removed + [victim];
    assert r[..|removed|] == removed;
    forall i, k | 0 <= i < |r| && k in timed0 && k !in r[..i]
      ensures timed0[r[i]] <= timed0[k]
    {
      if i < |removed| {
        assert r[..i] == removed[..i];
      } else {
        assert k in timed;
      }
    }
    assert (timed - {victim}).Keys == timed.Keys - {victim};
  }

  /**
   The third loop: `rounds` times, delete the oldest remaining candidate.
   `ok` is false when the candidates run out first (`min` of an empty dict).
   */
  method EvictOldest(timed0: map<string, int>, rounds: int) returns (removed: seq<string>, ok: bool)
    ensures ok <==> rounds <= |timed0|
    ensures |removed| == if !ok then |timed0| else if rounds < 0 then 0 else rounds
    ensures Distinct(removed)
    ensures OldestFirst(removed, timed0)
  {
    var timed := timed0;
    removed := [];
    ok := true;
    var i := 0;
    while i < rounds
      invariant 0 <= i <= if rounds < 0 then 0 else rounds
      invariant |removed| == i
      invariant Distinct(removed)
      invariant OldestFirst(removed, timed0)
      invariant forall n :: n in timed <==> n in timed0 && n !in removed
      invariant forall n :: n in timed ==> timed[n] == timed0[n]
      invariant |timed| == |timed0| - i
    {
      var oldest := Oldest(timed);
      if oldest.None? {
        ok := false;
        return;
      }
      var victim := oldest.value;
      EvictStep(timed0, timed, removed, victim);
      removed := removed + [victim];
      timed := timed - {victim};
      i := i + 1;
    }
  }

  /** Every removed candidate is at least as old as every candidate that is kept. */
  lemma RemovedNoNewerThanKept(removed: seq<string>, timed: map<string, int>)
    requires OldestFirst(removed, timed)
    ensures forall r, k :: r in removed && k in timed && k !in removed ==> timed[r] <= timed[k]
  {
  }

  /** Removals happen in order of non-decreasing modification time. */
  lemma RemovalOrderNonDecreasing(removed: seq<string>, timed: map<string, int>)
    requires Distinct(removed) && OldestFirst(removed, timed)
    ensures forall i, j :: 0 <= i < j < |removed| ==> timed[removed[i]] <= timed[removed[j]]
  {
  }

  /** No two candidates share a modification time. */
  ghost predicate DistinctTimes(timed: map<string, int>)
  {
    forall a, b :: a in timed && b in timed && a != b ==> timed[a] != timed[b]
  }

  /**
   The only freedom in the eviction is the choice among equally old
   candidates: when modification times are distinct, any two oldest-first
   removal sequences of the same length are identical.
   */
  lemma {:induction false} OldestFirstDeterminate(r1: seq<string>, r2: seq<string>, timed: map<string, int>)
    requires DistinctTimes(timed)
    requires |r1| == |r2| && Distinct(r1) && Distinct(r2)
    requires OldestFirst(r1, timed) && OldestFirst(r2, timed)
    ensures r1 == r2
  {
    var i := 0;
    while i < |r1|
      invariant 0 <= i <= |r1|
      invariant r1[..i] == r2[..i]
    {
      assert r2[i] !in r2[..i] && r1[i] !in r1[..i];
      assert timed[r1[i]] <= timed[r2[i]] && timed[r2[i]] <= timed[r1[i]];
      assert r1[..i + 1] == r1[..i] + [r1[i]] && r2[..i + 1] == r2[..i] + [r2[i]];
      i := i + 1;
    }
    assert r1 == r1[..i] && r2 == r2[..i];
  }

  /** A duplicate-free sequence has as many elements as its set. */
  lemma {:induction false} DistinctCard(s: seq<string>)
    requires Distinct(s)
    ensures |set n | n in s| == |s|
  {
    if s != [] {
      var front := s[..|s| - 1];
      var last := s[|s| - 1];
      assert s == front + [last];
      assert Distinct(front);
      DistinctCard(front);
      assert last !in front;
      assert (set n | n in s) == (set n | n in front) + {last};
    }
  }

  /** The candidates still in the folder after `removed` were deleted. */
  ghost function KeptLogs(f: Folder, removed: seq<string>): set<string>
  {
    set n | n in f.listing && IsLogName(n) && n !in removed
  }

  /** The kept candidates are the candidate set less the deleted ones, all of them candidates. */
  lemma KeptIsDifference(f: Folder, removed: seq<string>)
    requires forall n :: n in removed ==> n in f.listing && IsLogName(n)
    ensures (set n | n in removed) <= (set n | n in LogEntries(f.listing))
    ensures KeptLogs(f, removed) == (set n | n in LogEntries(f.listing)) - (set n | n in removed)
  {
    var logs := LogEntries(f.listing);
    forall n ensures n in logs <==> n in f.listing && IsLogName(n) { }
  }

  /** Deleting `k` distinct candidates leaves `count - k` of them. */
  lemma KeptCount(f: Folder, removed: seq<string>)
    requires WellFormed(f) && Distinct(removed)
    requires forall n :: n in removed ==> n in f.listing && IsLogName(n)
    ensures |KeptLogs(f, removed)| == |LogEntries(f.listing)| - |removed|
  {
    var logs := LogEntries(f.listing);
    LogEntriesDistinct(f.listing);
    DistinctCard(logs);
    DistinctCard(removed);
    KeptIsDifference(f, removed);
    var all := set n | n in logs;
    var gone := set n | n in removed;
    assert |all - gone| == |all| - |gone|;
  }

  /**
   logger/__init__.py:20-36, in `init_outfile_logging`: create a missing folder, or
   delete the oldest log candidates until at most `maxLogs` remain.
   */
  method PruneLogFolder(folder: Option<Folder>, maxLogs: int) returns (h: Housekeeping)
    requires folder.Some? ==> WellFormed(folder.value)
    ensures h.CreatedFolder? <==> folder.None?
    ensures folder.Some? ==> (h.PruneFailed? <==> maxLogs < 0)
    ensures folder.Some? ==>
              var f := folder.value;
              var count := |LogEntries(f.listing)|;
              && Distinct(h.removed)
              && (forall n :: n in h.removed ==> n in f.listing && IsLogName(n))
              && OldestFirst(h.removed, CandidateTimes(f))
              && |h.removed| == (if h.PruneFailed? then count else if count > maxLogs then count - maxLogs else 0)
              && |KeptLogs(f, h.removed)| == (if h.PruneFailed? then 0 else if count > maxLogs then maxLogs else count)
              && (forall r, k :: r in h.removed && k in KeptLogs(f, h.removed) ==> f.mtime[r] <= f.mtime[k])
              && (forall i, j :: 0 <= i < j < |h.removed| ==> f.mtime[h.removed[i]] <= f.mtime[h.removed[j]])
  {
    if folder.None? {
      return CreatedFolder;
    }
    var f := folder.value;
    var logs := CollectLogs(f.listing);
    if |logs| > maxLogs {
      var timed := RecordTimes(logs, f.mtime);
      assert timed == CandidateTimes(f);
      LogEntriesDistinct(f.listing);
      DistinctCard(logs);
      assert timed.Keys == set n | n in logs;
      var removed, ok := EvictOldest(timed, |logs| - maxLogs);
      h := if ok then Pruned(removed) else PruneFailed(removed);
    } else {
      h := Pruned([]);
    }
    KeptCount(f, h.removed);
    RemovedNoNewerThanKept(h.removed, CandidateTimes(f));
    RemovalOrderNonDecreasing(h.removed, CandidateTimes(f));
  }
}
