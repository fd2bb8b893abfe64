/**
 * The resumable download loop of `download_me_truyen_chu`
 * (src/download_me_truyen_chu.rs). The list has already been read from its
 * file; the browser and the file system are replaced by one `Attempt` per
 * entry that says how far the work on that entry gets. The effects on the
 * outside world are recorded, in order, as a log of events.
 */
module Download {
  import opened Results
  import opened Model
  import opened Normalize

  /**
   * What the file system does with the two writes that follow a successful
   * read. A failed write is taken to leave its file as it was.
   */
  datatype Disk =
    | Saved               // both writes succeed
    | ChapterWriteFails   // the chapter file cannot be written (the `?` of line 53)
    | ListWriteFails      // the list file cannot be rewritten (the `?`s of line 58)

  /** How far the work on one entry gets, as decided by the browser and the disk. */
  datatype Attempt =
    | SetCookiesFails                  // the `?` of line 28: the run ends
    | NavigateFails                    // lines 30-33: logged, on to the next entry
    | WaitNavigatedFails               // the `?` of line 35: the run ends
    | ContentMissing                   // lines 37-40: logged, on to the next entry
    | EvaluateFails                    // the `?` of line 46: the run ends
    | NoValue                          // line 48: the script gave no value, on to the next entry
    | Value(text: string, disk: Disk)  // line 48: the script evaluated to the string `text`

  /** An effect on the world outside the program. */
  datatype Event =
    | Visit(index: nat)                                    // the browser is driven for this entry
    | WriteChapter(index: nat, name: string, value: string) // the chapter file of `name` is written from the page value `value`
    | WriteList(list: seq<Chapter>)                        // the whole list file is rewritten

  /**
   * The file a chapter write creates and the text it holds: the sanitised
   * name under `download/` with `.md` (line 51), and the page value after
   * JSON quoting and `format_content` (lines 49-50, 53).
   */
  function WrittenFile(e: Event, isAlphanumeric: char -> bool): (string, string)
    requires e.WriteChapter?
  {
    (ChapterFile(e.name, isAlphanumeric), FormatContent(JsonString(e.value)))
  }

  /** The in-memory list, the effects so far, and the entry at which a fatal error ended the run. */
  datatype Run = Run(chapters: seq<Chapter>, log: seq<Event>, stoppedAt: Option<nat>)

  /** What `download_me_truyen_chu` returns: `Ok(())`, or the error raised while on an entry. */
  datatype Status = Completed | Aborted(index: nat)

  /** Same length, order, names and links; a flag only ever goes from false to true. */
  ghost predicate SameShape(before: seq<Chapter>, after: seq<Chapter>) {
    && |after| == |before|
    && forall j :: 0 <= j < |before| ==>
         && after[j].name == before[j].name
         && after[j].link == before[j].link
         && (before[j].isDownload ==> after[j].isDownload)
  }

  /** The attempt on an entry ends the run (one of the `?`s of lines 28, 35, 46, 53 and 58). */
  predicate Fatal(a: Attempt) {
    a.SetCookiesFails? || a.WaitNavigatedFails? || a.EvaluateFails? || (a.Value? && a.disk != Saved)
  }

  /** The attempt gives a value whose chapter file is written, so the entry is marked in memory. */
  predicate Marks(a: Attempt) {
    a.Value? && a.disk != ChapterWriteFails
  }

  /**
   * One pass of the loop body on entry `i`, for a run that is still going:
   * skip a marked entry; otherwise drive the browser, and when a value comes
   * back write the chapter file, mark the entry, and rewrite the list.
   */
  function Step(chapters: seq<Chapter>, log: seq<Event>, i: nat, a: Attempt): (r: Run)
    requires i < |chapters|
    ensures SameShape(chapters, r.chapters)
    ensures forall j :: 0 <= j < |chapters| && j != i ==> r.chapters[j] == chapters[j]
    ensures r.stoppedAt.None? || r.stoppedAt == Some(i)
  {
    if chapters[i].isDownload then Run(chapters, log, None)
    else if !Marks(a) then Run(chapters, log + [Visit(i)], if Fatal(a) then Some(i) else None)
    else
      var written := log + [Visit(i)] + [WriteChapter(i, chapters[i].name, a.text)];
      var marked := chapters[i := chapters[i].(isDownload := true)];
      if a.disk == ListWriteFails then Run(marked, written, Some(i))
      else Run(marked, written + [WriteList(marked)], None)
  }

  /** The run after the loop has looked at the first `n` entries (or stopped earlier). */
  function RunUpTo(init: seq<Chapter>, attempts: seq<Attempt>, n: nat): (r: Run)
    requires n <= |init| == |attempts|
    ensures SameShape(init, r.chapters)
    ensures forall j :: n <= j < |init| ==> r.chapters[j] == init[j]
    ensures r.stoppedAt.Some? ==> r.stoppedAt.value < n
    decreases n
  {
    if n == 0 then Run(init, [], None)
    else
      var r := RunUpTo(init, attempts, n - 1);
      if r.stoppedAt.Some? then r else Step(r.chapters, r.log, n - 1, attempts[n - 1])
  }

  /** One more entry looked at: the definition of `RunUpTo`, stated once so that proofs need not unfold it. */
  lemma RunUpToNext(init: seq<Chapter>, attempts: seq<Attempt>, n: nat)
    requires 0 < n <= |init| == |attempts|
    ensures var p := RunUpTo(init, attempts, n - 1);
      RunUpTo(init, attempts, n)
        == if p.stoppedAt.Some? then p else Step(p.chapters, p.log, n - 1, attempts[n - 1])
  {
  }

  /** A run still going after `n - 1` entries takes one more step, on an entry as it was at the start. */
  lemma RunUpToGoing(init: seq<Chapter>, attempts: seq<Attempt>, n: nat)
    requires 0 < n <= |init| == |attempts|
    requires RunUpTo(init, attempts, n - 1).stoppedAt.None?
    ensures var p := RunUpTo(init, attempts, n - 1);
      && p.chapters[n - 1] == init[n - 1]
      && RunUpTo(init, attempts, n) == Step(p.chapters, p.log, n - 1, attempts[n - 1])
  {
  }

  /** A run that stopped as `r` after `n - 1` entries is still `r` after `n`. */
  lemma StoppedStays(init: seq<Chapter>, attempts: seq<Attempt>, n: nat, r: Run)
    requires 0 < n <= |init| == |attempts|
    requires RunUpTo(init, attempts, n - 1) == r && r.stoppedAt.Some?
    ensures RunUpTo(init, attempts, n) == r
  {
    RunUpToStopped(init, attempts, n);
  }

  /** A run that stopped stays as it is. */
  lemma RunUpToStopped(init: seq<Chapter>, attempts: seq<Attempt>, n: nat)
    requires 0 < n <= |init| == |attempts|
    requires RunUpTo(init, attempts, n - 1).stoppedAt.Some?
    ensures RunUpTo(init, attempts, n) == RunUpTo(init, attempts, n - 1)
  {
  }

  /** A whole run over the list. */
  function RunAll(init: seq<Chapter>, attempts: seq<Attempt>): Run
    requires |init| == |attempts|
  {
    RunUpTo(init, attempts, |init|)
  }

  /** The list file's content after the effects in `log`: the last list written, else the list the run started from. */
  function Persisted(init: seq<Chapter>, log: seq<Event>): seq<Chapter> {
    if log == [] then init
    else if log[|log| - 1].WriteList? then log[|log| - 1].list
    else Persisted(init, log[..|log| - 1])
  }

  /** Entry `j` was reached by a run that looked at the first `n` entries. */
  predicate Reached(r: Run, n: nat, j: nat) {
    j < n && (r.stoppedAt.None? || j <= r.stoppedAt.value)
  }

  /**
   * `download_me_truyen_chu` from line 17 on. Each entry is looked at in
   * order; one already downloaded is skipped. For the others the attempt
   * decides: a soft failure moves on, a fatal one returns at once, a value
   * writes the chapter file, marks the entry and rewrites the whole list.
   */
  method DownloadAll(chapters: array<Chapter>, attempts: seq<Attempt>)
    returns (status: Status, ghost log: seq<Event>)
    requires |attempts| == chapters.Length
    modifies chapters
    ensures var r := RunAll(old(chapters[..]), attempts);
      && chapters[..] == r.chapters
      && log == r.log
      && status == (if r.stoppedAt.Some? then Aborted(r.stoppedAt.value) else Completed)
  {
    ghost var init := chapters[..];
    log := [];
    var i := 0;
    while i < chapters.Length
      invariant 0 <= i <= chapters.Length
      invariant RunUpTo(init, attempts, i) == Run(chapters[..], log, None)
    {
      RunUpToGoing(init, attempts, i + 1);
      var fatal;
      fatal, log := VisitEntry(chapters, i, attempts[i], log);
      if fatal {
        status := Aborted(i);
        StopIsFinal(init, attempts, i + 1, chapters.Length);
        return;
      }
      i := i + 1;
    }
    status := Completed;
  }

  /**
   * The body of the loop of lines 18-64 for entry `i`: skipped when already
   * downloaded, otherwise visited, and on a value written and marked and the
   * list rewritten. `fatal` says that the error returned by `?` ends the run.
   */
  method VisitEntry(chapters: array<Chapter>, i: nat, a: Attempt, ghost log: seq<Event>)
    returns (fatal: bool, ghost log': seq<Event>)
    requires i < chapters.Length
    modifies chapters
    ensures var r := Step(old(chapters[..]), log, i, a);
      && chapters[..] == r.chapters
      && log' == r.log
      && r.stoppedAt == (if fatal then Some(i) else None)
  {
    log' := log;
    fatal := false;
    if chapters[i].isDownload {
      return;
    }
    log' := log' + [Visit(i)];
    match a {
    case SetCookiesFails =>
      fatal := true;
    case NavigateFails =>
    case WaitNavigatedFails =>
      fatal := true;
    case ContentMissing =>
    case EvaluateFails =>
      fatal := true;
    case NoValue =>
    case Value(text, disk) =>
      if disk == ChapterWriteFails {
        fatal := true;
        return;
      }
      log' := log' + [WriteChapter(i, chapters[i].name, text)];
      chapters[i] := chapters[i].(isDownload := true);
      if disk == ListWriteFails {
        fatal := true;
        return;
      }
      log' := log' + [WriteList(chapters[..])];
    }
  }

  /** Once a fatal error has ended the run, looking at more entries changes nothing. */
  lemma {:induction false} StopIsFinal(init: seq<Chapter>, attempts: seq<Attempt>, m: nat, n: nat)
    requires m <= n <= |init| == |attempts|
    requires RunUpTo(init, attempts, m).stoppedAt.Some?
    ensures RunUpTo(init, attempts, n) == RunUpTo(init, attempts, m)
    decreases n
  {
    if n > m {
      StopIsFinal(init, attempts, m, n - 1);
      StoppedStays(init, attempts, n, RunUpTo(init, attempts, m));
    }
  }

  /**
   * An entry ends up marked exactly when it was marked already, or when the
   * run reached it and the script gave a value whose chapter file was
   * written: whatever text came back.
   */
  lemma {:induction false} MarkedExactly(init: seq<Chapter>, attempts: seq<Attempt>, n: nat)
    requires n <= |init| == |attempts|
    ensures var r := RunUpTo(init, attempts, n);
      forall j :: 0 <= j < |init| ==>
        (r.chapters[j].isDownload <==> init[j].isDownload || (Reached(r, n, j) && Marks(attempts[j])))
    decreases n
  {
    if n > 0 {
      MarkedExactly(init, attempts, n - 1);
      var p := RunUpTo(init, attempts, n - 1);
      var r := RunUpTo(init, attempts, n);
      if p.stoppedAt.None? {
        forall j | 0 <= j < |init|
          ensures r.chapters[j].isDownload <==> init[j].isDownload || (Reached(r, n, j) && Marks(attempts[j]))
        {
          if j < n - 1 {
            assert Reached(p, n - 1, j) && Reached(r, n, j);
          }
        }
      }
    }
  }

  /** Rewriting the list is the only event that changes what the list file holds. */
  lemma PersistedAppend(init: seq<Chapter>, log: seq<Event>, e: Event)
    ensures Persisted(init, log + [e]) == if e.WriteList? then e.list else Persisted(init, log)
  {
    assert (log + [e])[..|log|] == log;
  }

  /** The list file agrees with the in-memory list, except at the entry where the run stopped. */
  ghost predicate PersistedAgrees(init: seq<Chapter>, r: Run) {
    var saved := Persisted(init, r.log);
    && |saved| == |init| == |r.chapters|
    && forall j :: 0 <= j < |init| ==> saved[j] == if r.stoppedAt == Some(j) then init[j] else r.chapters[j]
  }

  lemma PersistedStep(init: seq<Chapter>, p: Run, i: nat, a: Attempt, r: Run)
    requires i < |p.chapters| == |init|
    requires p.stoppedAt.None? && PersistedAgrees(init, p) && p.chapters[i] == init[i]
    requires r == Step(p.chapters, p.log, i, a)
    ensures PersistedAgrees(init, r)
  {
    if !p.chapters[i].isDownload {
      var visited := p.log + [Visit(i)];
      PersistedAppend(init, p.log, Visit(i));
      if Marks(a) {
        var e := WriteChapter(i, p.chapters[i].name, a.text);
        PersistedAppend(init, visited, e);
        var marked := p.chapters[i := p.chapters[i].(isDownload := true)];
        PersistedAppend(init, visited + [e], WriteList(marked));
      }
    }
  }

  /**
   * The list file always holds the in-memory list, except for the entry at
   * which a fatal error ended the run: that one is as it was when the run
   * started. So every mark but the interrupted one is on disk.
   */
  lemma {:induction false} PersistedMatchesList(init: seq<Chapter>, attempts: seq<Attempt>, n: nat)
    requires n <= |init| == |attempts|
    ensures PersistedAgrees(init, RunUpTo(init, attempts, n))
    decreases n
  {
    if n > 0 {
      PersistedMatchesList(init, attempts, n - 1);
      PersistedNext(init, attempts, n);
    }
  }

  lemma PersistedNext(init: seq<Chapter>, attempts: seq<Attempt>, n: nat)
    requires 0 < n <= |init| == |attempts|
    requires PersistedAgrees(init, RunUpTo(init, attempts, n - 1))
    ensures PersistedAgrees(init, RunUpTo(init, attempts, n))
  {
    if RunUpTo(init, attempts, n - 1).stoppedAt.None? {
      PersistedGoing(init, attempts, n);
    } else {
      RunUpToStopped(init, attempts, n);
    }
  }

  lemma PersistedGoing(init: seq<Chapter>, attempts: seq<Attempt>, n: nat)
    requires 0 < n <= |init| == |attempts|
    requires RunUpTo(init, attempts, n - 1).stoppedAt.None?
    requires PersistedAgrees(init, RunUpTo(init, attempts, n - 1))
    ensures PersistedAgrees(init, RunUpTo(init, attempts, n))
  {
    var p := RunUpTo(init, attempts, n - 1);
    RunUpToGoing(init, attempts, n);
    PersistedStep(init, p, n - 1, attempts[n - 1], RunUpTo(init, attempts, n));
  }

  /** The entries the browser was driven for. */
  function VisitedIn(log: seq<Event>): set<nat> {
    if log == [] then {}
    else VisitedIn(log[..|log| - 1]) + (if log[|log| - 1].Visit? then {log[|log| - 1].index} else {})
  }

  /** The entries a chapter file was written for. */
  function WrittenIn(log: seq<Event>): set<nat> {
    if log == [] then {}
    else WrittenIn(log[..|log| - 1]) + (if log[|log| - 1].WriteChapter? then {log[|log| - 1].index} else {})
  }

  lemma TouchedAppend(log: seq<Event>, e: Event)
    ensures VisitedIn(log + [e]) == VisitedIn(log) + (if e.Visit? then {e.index} else {})
    ensures WrittenIn(log + [e]) == WrittenIn(log) + (if e.WriteChapter? then {e.index} else {})
  {
    assert (log + [e])[..|log|] == log;
  }

  /** What one step adds to the visited and written entries. */
  lemma TouchedStep(p: Run, i: nat, a: Attempt)
    requires i < |p.chapters|
    ensures var r := Step(p.chapters, p.log, i, a);
      && VisitedIn(r.log) == VisitedIn(p.log) + (if p.chapters[i].isDownload then {} else {i})
      && WrittenIn(r.log) == WrittenIn(p.log) + (if !p.chapters[i].isDownload && Marks(a) then {i} else {})
  {
    if !p.chapters[i].isDownload {
      var visited := p.log + [Visit(i)];
      TouchedAppend(p.log, Visit(i));
      if Marks(a) {
        var e := WriteChapter(i, p.chapters[i].name, a.text);
        TouchedAppend(visited, e);
        var marked := p.chapters[i := p.chapters[i].(isDownload := true)];
        TouchedAppend(visited + [e], WriteList(marked));
      }
    }
  }

  /** Visits and writes are exactly those the attempts call for, on the entries reached and not marked before. */
  ghost predicate TouchedAsReached(init: seq<Chapter>, attempts: seq<Attempt>, n: nat, r: Run)
    requires |attempts| == |init|
  {
    forall j :: 0 <= j < |init| ==>
      && (j in VisitedIn(r.log) <==> !init[j].isDownload && Reached(r, n, j))
      && (j in WrittenIn(r.log) <==> !init[j].isDownload && Reached(r, n, j) && Marks(attempts[j]))
  }

  /**
   * The browser is driven for an entry only when the run reached it and it
   * was not marked yet, and a chapter file is written for it only when, in
   * addition, the script gave a value and the write succeeded. An entry
   * marked before the run is never visited and never written.
   */
  lemma {:induction false} TouchedExactly(init: seq<Chapter>, attempts: seq<Attempt>, n: nat)
    requires n <= |init| == |attempts|
    ensures TouchedAsReached(init, attempts, n, RunUpTo(init, attempts, n))
    decreases n
  {
    if n > 0 {
      TouchedExactly(init, attempts, n - 1);
      TouchedNext(init, attempts, n);
    }
  }

  lemma TouchedNext(init: seq<Chapter>, attempts: seq<Attempt>, n: nat)
    requires 0 < n <= |init| == |attempts|
    requires TouchedAsReached(init, attempts, n - 1, RunUpTo(init, attempts, n - 1))
    ensures TouchedAsReached(init, attempts, n, RunUpTo(init, attempts, n))
  {
    var p := RunUpTo(init, attempts, n - 1);
    if p.stoppedAt.None? {
      TouchedGoing(init, attempts, n, p, RunUpTo(init, attempts, n));
    } else {
      RunUpToStopped(init, attempts, n);
      var r := RunUpTo(init, attempts, n);
      forall j | 0 <= j < |init|
        ensures Reached(r, n, j) == Reached(p, n - 1, j)
      {
      }
    }
  }

  lemma TouchedGoing(init: seq<Chapter>, attempts: seq<Attempt>, n: nat, p: Run, r: Run)
    requires 0 < n <= |init| == |attempts|
    requires p == RunUpTo(init, attempts, n - 1) && p.stoppedAt.None?
    requires TouchedAsReached(init, attempts, n - 1, p)
    requires r == RunUpTo(init, attempts, n)
    ensures TouchedAsReached(init, attempts, n, r)
  {
    RunUpToGoing(init, attempts, n);
    TouchedStepReached(init, attempts, p, n - 1, r);
  }

  /** One step on a run still going extends the visited and written entries as the attempt at entry `i` says. */
  lemma TouchedStepReached(init: seq<Chapter>, attempts: seq<Attempt>, p: Run, i: nat, r: Run)
    requires i < |init| == |attempts| == |p.chapters|
    requires p.stoppedAt.None? && p.chapters[i] == init[i]
    requires TouchedAsReached(init, attempts, i, p)
    requires r == Step(p.chapters, p.log, i, attempts[i])
    ensures TouchedAsReached(init, attempts, i + 1, r)
  {
    TouchedStep(p, i, attempts[i]);
    assert r.stoppedAt.None? || r.stoppedAt == Some(i);
    forall j | 0 <= j < |init|
      ensures j in VisitedIn(r.log) <==> !init[j].isDownload && Reached(r, i + 1, j)
      ensures j in WrittenIn(r.log) <==> !init[j].isDownload && Reached(r, i + 1, j) && Marks(attempts[j])
    {
      if j < i {
        assert Reached(p, i, j) && Reached(r, i + 1, j);
      } else if j > i {
        assert !Reached(p, i, j) && !Reached(r, i + 1, j);
      }
    }
  }

  /**
   * Each chapter file written is followed at once by a rewrite of the whole
   * list, with that entry marked and the list's shape kept, unless the
   * rewrite failed and ended the run; and the list is rewritten only right
   * after a chapter file.
   */
  ghost predicate ListFollowsChapter(init: seq<Chapter>, r: Run) {
    && (forall k :: 0 <= k < |r.log| && r.log[k].WriteChapter? ==> ListAfter(init, r, k))
    && (forall k :: 0 <= k < |r.log| && r.log[k].WriteList? ==> k > 0 && r.log[k - 1].WriteChapter?)
  }

  /** The chapter file written at event `k` is followed at once by the list with its entry marked, or ended the run. */
  ghost predicate ListAfter(init: seq<Chapter>, r: Run, k: nat)
    requires k < |r.log| && r.log[k].WriteChapter?
  {
    || (&& k + 1 < |r.log|
        && r.log[k + 1].WriteList?
        && SameShape(init, r.log[k + 1].list)
        && r.log[k].index < |init|
        && r.log[k + 1].list[r.log[k].index].isDownload)
    || (k == |r.log| - 1 && r.stoppedAt == Some(r.log[k].index))
  }

  /** The events of a run that had not stopped keep their guarantee when more events follow them. */
  lemma ListFollowsOld(init: seq<Chapter>, p: Run, r: Run)
    requires p.stoppedAt.None? && ListFollowsChapter(init, p)
    requires |p.log| <= |r.log| && r.log[..|p.log|] == p.log
    ensures forall k :: 0 <= k < |p.log| && r.log[k].WriteChapter? ==> ListAfter(init, r, k)
    ensures forall k :: 0 <= k < |p.log| && r.log[k].WriteList? ==> k > 0 && r.log[k - 1].WriteChapter?
  {
    forall k | 0 <= k < |p.log|
      ensures r.log[k] == p.log[k]
    {
      assert r.log[k] == r.log[..|p.log|][k];
    }
    forall k | 0 <= k < |p.log| && r.log[k].WriteChapter?
      ensures ListAfter(init, r, k)
    {
      assert ListAfter(init, p, k);
      assert r.log[k + 1] == p.log[k + 1];
    }
  }

  lemma ListFollowsStep(init: seq<Chapter>, p: Run, i: nat, a: Attempt, r: Run)
    requires i < |p.chapters| == |init|
    requires p.stoppedAt.None? && SameShape(init, p.chapters) && ListFollowsChapter(init, p)
    requires r == Step(p.chapters, p.log, i, a)
    ensures ListFollowsChapter(init, r)
  {
    if !p.chapters[i].isDownload {
      var n := |p.log|;
      assert r.log[..n] == p.log;
      ListFollowsOld(init, p, r);
      if Marks(a) {
        var marked := p.chapters[i := p.chapters[i].(isDownload := true)];
        assert SameShape(init, marked);
        assert r.log[n + 1].WriteChapter? && r.log[n + 1].index == i;
        assert ListAfter(init, r, n + 1);
      }
      forall k | 0 <= k < |r.log| && r.log[k].WriteChapter?
        ensures ListAfter(init, r, k)
      {
        if k >= n {
          assert k == n + 1;
        }
      }
      forall k | 0 <= k < |r.log| && r.log[k].WriteList?
        ensures k > 0 && r.log[k - 1].WriteChapter?
      {
        if k >= n {
          assert k == n + 2;
        }
      }
    }
  }

  lemma {:induction false} ListWrittenAfterEachMark(init: seq<Chapter>, attempts: seq<Attempt>, n: nat)
    requires n <= |init| == |attempts|
    ensures ListFollowsChapter(init, RunUpTo(init, attempts, n))
    decreases n
  {
    if n > 0 {
      ListWrittenAfterEachMark(init, attempts, n - 1);
      ListFollowsNext(init, attempts, n);
    }
  }

  lemma ListFollowsNext(init: seq<Chapter>, attempts: seq<Attempt>, n: nat)
    requires 0 < n <= |init| == |attempts|
    requires ListFollowsChapter(init, RunUpTo(init, attempts, n - 1))
    ensures ListFollowsChapter(init, RunUpTo(init, attempts, n))
  {
    var p := RunUpTo(init, attempts, n - 1);
    if p.stoppedAt.None? {
      RunUpToGoing(init, attempts, n);
      ListFollowsStep(init, p, n - 1, attempts[n - 1], RunUpTo(init, attempts, n));
    } else {
      RunUpToStopped(init, attempts, n);
    }
  }

  /**
   * Every chapter write is for an entry of the list, under that entry's name,
   * with the value its page script gave (lines 48-53).
   */
  ghost predicate WritesFromAttempts(init: seq<Chapter>, attempts: seq<Attempt>, log: seq<Event>)
    requires |attempts| == |init|
  {
    forall k :: 0 <= k < |log| && log[k].WriteChapter? ==>
      && log[k].index < |init|
      && log[k].name == init[log[k].index].name
      && attempts[log[k].index].Value?
      && log[k].value == attempts[log[k].index].text
  }

  /** The chapter writes of a run carry the names of their entries and the values of their attempts. */
  lemma {:induction false} WritesCarryEntry(init: seq<Chapter>, attempts: seq<Attempt>, n: nat)
    requires n <= |init| == |attempts|
    ensures WritesFromAttempts(init, attempts, RunUpTo(init, attempts, n).log)
    decreases n
  {
    if n > 0 {
      WritesCarryEntry(init, attempts, n - 1);
      if RunUpTo(init, attempts, n - 1).stoppedAt.None? {
        WritesGoing(init, attempts, n);
      } else {
        RunUpToStopped(init, attempts, n);
      }
    }
  }

  lemma WritesGoing(init: seq<Chapter>, attempts: seq<Attempt>, n: nat)
    requires 0 < n <= |init| == |attempts|
    requires RunUpTo(init, attempts, n - 1).stoppedAt.None?
    requires WritesFromAttempts(init, attempts, RunUpTo(init, attempts, n - 1).log)
    ensures WritesFromAttempts(init, attempts, RunUpTo(init, attempts, n).log)
  {
    var p := RunUpTo(init, attempts, n - 1);
    RunUpToGoing(init, attempts, n);
    WritesStep(init, attempts, p, n - 1, RunUpTo(init, attempts, n));
  }

  lemma WritesStep(init: seq<Chapter>, attempts: seq<Attempt>, p: Run, i: nat, r: Run)
    requires i < |init| == |attempts| == |p.chapters| && p.chapters[i].name == init[i].name
    requires WritesFromAttempts(init, attempts, p.log)
    requires r == Step(p.chapters, p.log, i, attempts[i])
    ensures WritesFromAttempts(init, attempts, r.log)
  {
    var n := |p.log|;
    assert r.log[..n] == p.log;
    forall k | 0 <= k < |r.log| && r.log[k].WriteChapter?
      ensures r.log[k].index < |init| && r.log[k].name == init[r.log[k].index].name
      ensures attempts[r.log[k].index].Value? && r.log[k].value == attempts[r.log[k].index].text
    {
      if k < n {
        assert r.log[k] == p.log[k];
      } else {
        assert k == n + 1 && r.log[k] == WriteChapter(i, p.chapters[i].name, attempts[i].text);
      }
    }
  }

  /**
   * The file each chapter write of a run creates is `download/<sanitised name
   * of the entry>.md` (line 51), and it holds `format_content` of the JSON
   * form of that entry's page value (lines 49-53).
   */
  lemma WrittenFilesOfRun(init: seq<Chapter>, attempts: seq<Attempt>, n: nat, isAlphanumeric: char -> bool)
    requires n <= |init| == |attempts|
    ensures var log := RunUpTo(init, attempts, n).log;
      forall k :: 0 <= k < |log| && log[k].WriteChapter? ==>
        && log[k].index < |init| && attempts[log[k].index].Value?
        && WrittenFile(log[k], isAlphanumeric)
           == (ChapterFile(init[log[k].index].name, isAlphanumeric), FormatContent(JsonString(attempts[log[k].index].text)))
  {
    WritesCarryEntry(init, attempts, n);
  }

  /** The run ends at the first entry, not marked beforehand, whose attempt is fatal, and only there. */
  ghost predicate StopsAtFirstFatal(init: seq<Chapter>, attempts: seq<Attempt>, n: nat, r: Run)
    requires n <= |init| == |attempts|
  {
    match r.stoppedAt
    case None =>
      forall j :: 0 <= j < n && !init[j].isDownload ==> !Fatal(attempts[j])
    case Some(k) =>
      && k < n
      && !init[k].isDownload && Fatal(attempts[k])
      && forall j :: 0 <= j < k && !init[j].isDownload ==> !Fatal(attempts[j])
  }

  lemma {:induction false} StopsExactlyAtFirstFatal(init: seq<Chapter>, attempts: seq<Attempt>, n: nat)
    requires n <= |init| == |attempts|
    ensures StopsAtFirstFatal(init, attempts, n, RunUpTo(init, attempts, n))
    decreases n
  {
    if n > 0 {
      StopsExactlyAtFirstFatal(init, attempts, n - 1);
      RunUpToNext(init, attempts, n);
      var p := RunUpTo(init, attempts, n - 1);
      if p.stoppedAt.None? {
        assert p.chapters[n - 1] == init[n - 1];
      }
    }
  }

  /** A list whose every entry is marked already: nothing is visited, nothing written, and the run completes. */
  lemma {:induction false} AllMarkedIsNoop(init: seq<Chapter>, attempts: seq<Attempt>, n: nat)
    requires n <= |init| == |attempts|
    requires forall j :: 0 <= j < |init| ==> init[j].isDownload
    ensures RunUpTo(init, attempts, n) == Run(init, [], None)
    decreases n
  {
    if n > 0 {
      AllMarkedIsNoop(init, attempts, n - 1);
      RunUpToNext(init, attempts, n);
    }
  }

  /**
   * A run over three entries, the first downloaded before: the second gets
   * its chapter file and a list rewrite marking it, the third cannot be
   * opened and is skipped, and the run completes with the third still
   * unmarked.
   */
  lemma ThreeEntryRun(init: seq<Chapter>, first: Attempt, text: string)
    requires |init| == 3
    requires init[0].isDownload && !init[1].isDownload && !init[2].isDownload
    ensures var marked := init[1 := init[1].(isDownload := true)];
      RunAll(init, [first, Value(text, Saved), NavigateFails])
        == Run(marked,
               [ Visit(1),
                 WriteChapter(1, init[1].name, text),
                 WriteList(marked),
                 Visit(2) ],
               None)
  {
    var attempts := [first, Value(text, Saved), NavigateFails];
    RunUpToNext(init, attempts, 1);
    RunUpToNext(init, attempts, 2);
    RunUpToNext(init, attempts, 3);
  }
}
