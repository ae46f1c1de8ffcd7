/**
 * The installer download window: the read/write loop with its throttled progress
 * updates, the speed and percentage it shows, and the window's completion, cancel and
 * close rules. Time is the Stopwatch tick count, `freq` ticks per second.
 */
module Download {
  import opened Wrappers

  /** Size of the read buffer. */
  const BufferSize: int := 81920

  /** Bytes after which the loop reports progress even within 200 ms (256 KiB). */
  const UpdateBytes: int := 262144

  /** What one `ReadAsync` into the buffer returned; a read of 0 ends the loop. */
  type ChunkSize = n: int | 1 <= n <= BufferSize witness 1

  /** One pass of the read loop: the bytes read and written, and the timestamp taken
      after writing them. */
  datatype Chunk = Chunk(size: ChunkSize, ticks: int)

  /** Bytes in a run of chunks. */
  function Sum(chunks: seq<Chunk>): (n: int)
    ensures n >= |chunks|
    decreases |chunks|
  {
    if |chunks| == 0 then 0 else Sum(chunks[..|chunks| - 1]) + chunks[|chunks| - 1].size
  }

  /** The fixed facts of one download: the tick rate, the size announced by the server
      (Content-Length, or 0 when absent) and the timestamp taken when reading began. */
  datatype Context = Context(freq: int, totalBytes: int, startTicks: int)

  /** The percentage shown: 0 when the total size is unknown. */
  function Percent(downloaded: int, totalBytes: int): (r: real)
    ensures totalBytes <= 0 ==> r == 0.0
    ensures totalBytes > 0 ==> r * totalBytes as real == downloaded as real * 100.0
  {
    if totalBytes > 0 then downloaded as real / totalBytes as real * 100.0 else 0.0
  }

  /** The speed shown, in bytes per second: computed only once more than half a second
      has elapsed, as the integer quotient `downloaded * freq / elapsed`. */
  function Speed(downloaded: int, elapsed: int, freq: int): (r: Option<int>)
    requires freq > 0
    ensures r.Some? <==> elapsed > freq / 2
    ensures r.Some? && downloaded >= 0 ==>
              r.value >= 0 && r.value * elapsed <= downloaded * freq < (r.value + 1) * elapsed
  {
    if elapsed > freq / 2 then Some(downloaded * freq / elapsed) else None
  }

  /** One `UpdateProgressUI` call: the running total it reads and the timestamp it is
      given. */
  datatype Update = Update(downloaded: int, ticks: int)

  /** What an update puts on screen: the percentage, and the speed once it is known. */
  datatype Shown = Shown(percent: real, speed: Option<int>)

  /** The figures `UpdateProgressUI` computes from an update. */
  function Display(u: Update, ctx: Context): Shown
    requires ctx.freq > 0
  {
    Shown(Percent(u.downloaded, ctx.totalBytes), Speed(u.downloaded, u.ticks - ctx.startTicks, ctx.freq))
  }

  /** The loop's bookkeeping: the running total and the byte and time markers of the
      last update. */
  datatype Meter = Meter(downloaded: int, lastUpdateBytes: int, lastUpdateTime: int)

  /** The throttle: report when 256 KiB have arrived since the last report, or 200 ms
      (freq / 5 ticks) have passed. */
  predicate Due(total: int, now: int, m: Meter, freq: int) {
    total - m.lastUpdateBytes >= UpdateBytes || now - m.lastUpdateTime >= freq / 5
  }

  /** The loop's state after a run of chunks. */
  datatype Progress = Progress(meter: Meter, updates: seq<Update>)

  /** Each report's byte count lies above the previous one (0 before the first) and
      less than 256 KiB plus one buffer beyond it. */
  predicate Spaced(updates: seq<Update>) {
    forall k {:trigger Before(updates, k)} :: 0 <= k < |updates| ==>
      Before(updates, k) < updates[k].downloaded < Before(updates, k) + UpdateBytes + BufferSize
  }

  /** The byte count of the report before the `k`-th one, 0 before the first. */
  function Before(updates: seq<Update>, k: int): int
    requires 0 <= k <= |updates|
  {
    if k == 0 then 0 else updates[k - 1].downloaded
  }

  /** What the loop keeps true: fewer than 256 KiB unreported, the reports spaced, and
      the byte marker equal to the last report's count. */
  predicate Consistent(p: Progress) {
    && 0 <= p.meter.downloaded - p.meter.lastUpdateBytes < UpdateBytes
    && Spaced(p.updates)
    && p.meter.lastUpdateBytes == Before(p.updates, |p.updates|)
  }

  lemma {:induction false} SpacedSnoc(updates: seq<Update>, u: Update)
    requires Spaced(updates)
    requires Before(updates, |updates|) < u.downloaded < Before(updates, |updates|) + UpdateBytes + BufferSize
    ensures Spaced(updates + [u])
  {
    var s := updates + [u];
    forall k | 0 <= k < |s|
      ensures Before(s, k) < s[k].downloaded < Before(s, k) + UpdateBytes + BufferSize
    {
      if k < |updates| {
        assert Before(s, k) == Before(updates, k);
      }
    }
  }

  /** One pass of the loop: add the chunk, and report when the throttle is due, moving
      both markers to the current values. */
  function Advance(p: Progress, c: Chunk, ctx: Context): (r: Progress)
    requires ctx.freq > 0
    requires Consistent(p)
    ensures Consistent(r)
    ensures r.meter.downloaded == p.meter.downloaded + c.size
    ensures |r.updates| == |p.updates| + 1 <==> Due(r.meter.downloaded, c.ticks, p.meter, ctx.freq)
    ensures Due(r.meter.downloaded, c.ticks, p.meter, ctx.freq) ==>
              && r.meter.lastUpdateBytes == r.meter.downloaded && r.meter.lastUpdateTime == c.ticks
              && r.updates == p.updates + [Update(r.meter.downloaded, c.ticks)]
    ensures !Due(r.meter.downloaded, c.ticks, p.meter, ctx.freq) ==>
              && r.meter.lastUpdateBytes == p.meter.lastUpdateBytes
              && r.meter.lastUpdateTime == p.meter.lastUpdateTime
              && r.updates == p.updates
  {
    var total := p.meter.downloaded + c.size;
    if Due(total, c.ticks, p.meter, ctx.freq) then
      var u := Update(total, c.ticks);
      SpacedSnoc(p.updates, u);
      Progress(Meter(total, total, c.ticks), p.updates + [u])
    else
      Progress(Meter(total, p.meter.lastUpdateBytes, p.meter.lastUpdateTime), p.updates)
  }

  /** The read loop over `chunks`, the time marker starting at `loopStart`. The running
      total is the sum of the chunks; fewer than 256 KiB are ever left unreported; the
      reports carry increasing totals, spaced by less than 256 KiB plus one buffer, and
      the last of them carries the byte marker. */
  function Throttle(chunks: seq<Chunk>, ctx: Context, loopStart: int): (r: Progress)
    requires ctx.freq > 0
    ensures r.meter.downloaded == Sum(chunks)
    ensures Consistent(r)
    ensures |r.updates| <= |chunks|
    decreases |chunks|
  {
    if |chunks| == 0 then Progress(Meter(0, 0, loopStart), [])
    else Advance(Throttle(chunks[..|chunks| - 1], ctx, loopStart), chunks[|chunks| - 1], ctx)
  }

  /** How the server answered the request: with a success status and a readable body
      (the file then being created), with an error status, or with an exception,
      either a cancellation or another failure. */
  datatype Connect = Opened(contentLength: Option<int>) | Refused | ConnectCancelled | ConnectFailed

  /** How the read loop ended: the stream ran out (the timestamp of the final update), a
      cancellation (the user's, or the client's 30-minute timeout, which .NET reports as
      one), or another exception. */
  datatype Ending = EndOfStream(ticks: int) | Cancelled | Faulted

  /** `StartDownloadAsync`'s counting: the updates issued and the bytes downloaded. Inside
      the loop an update fires exactly when the throttle is due, both markers then moving
      to the current values; a loop that runs out adds one unconditional final update
      carrying the full total; an interrupted loop adds none. */
  method ReadLoop(ctx: Context, loopStart: int, chunks: seq<Chunk>, ending: Ending)
    returns (updates: seq<Update>, downloaded: int)
    requires ctx.freq > 0
    ensures downloaded == Sum(chunks)
    ensures ending.EndOfStream? ==>
              updates == Throttle(chunks, ctx, loopStart).updates + [Update(downloaded, ending.ticks)]
    ensures !ending.EndOfStream? ==> updates == Throttle(chunks, ctx, loopStart).updates
  {
    updates := [];
    downloaded := 0;
    var lastUpdateBytes := 0;
    var lastUpdateTime := loopStart;
    var i := 0;
    while i < |chunks|
      invariant 0 <= i <= |chunks|
      invariant Throttle(chunks[..i], ctx, loopStart)
                  == Progress(Meter(downloaded, lastUpdateBytes, lastUpdateTime), updates)
    {
      ThrottleStep(chunks, i, ctx, loopStart);
      downloaded, lastUpdateBytes, lastUpdateTime, updates :=
        Tick(ctx, downloaded, lastUpdateBytes, lastUpdateTime, updates, chunks[i]);
      i := i + 1;
    }
    assert chunks[..|chunks|] == chunks;
    if ending.EndOfStream? {
      updates := updates + [Update(downloaded, ending.ticks)];
    }
  }

  /** Extending the chunks by one is one more pass of the loop. */
  lemma {:induction false} ThrottleStep(chunks: seq<Chunk>, i: int, ctx: Context, loopStart: int)
    requires ctx.freq > 0 && 0 <= i < |chunks|
    ensures Throttle(chunks[..i + 1], ctx, loopStart) == Advance(Throttle(chunks[..i], ctx, loopStart), chunks[i], ctx)
    ensures Sum(chunks[..i + 1]) == Sum(chunks[..i]) + chunks[i].size
  {
    assert chunks[..i + 1][..i] == chunks[..i];
  }

  /** Pass `i` of the loop over `chunks` issued an update. */
  predicate Reported(chunks: seq<Chunk>, i: int, ctx: Context, loopStart: int)
    requires ctx.freq > 0 && 0 <= i < |chunks|
  {
    |Throttle(chunks[..i + 1], ctx, loopStart).updates| == |Throttle(chunks[..i], ctx, loopStart).updates| + 1
  }

  /** Pass `i` reports exactly when the throttle is due for the running total and that
      pass's timestamp against the markers the earlier passes left; the update then
      carries them, and otherwise the updates stay as they were. */
  lemma {:induction false} ReportWhenDue(chunks: seq<Chunk>, i: int, ctx: Context, loopStart: int)
    requires ctx.freq > 0 && 0 <= i < |chunks|
    ensures Reported(chunks, i, ctx, loopStart) <==>
              Due(Sum(chunks[..i + 1]), chunks[i].ticks, Throttle(chunks[..i], ctx, loopStart).meter, ctx.freq)
    ensures Reported(chunks, i, ctx, loopStart) ==>
              Throttle(chunks[..i + 1], ctx, loopStart).updates
                == Throttle(chunks[..i], ctx, loopStart).updates
                   + [Update(Sum(chunks[..i + 1]), chunks[i].ticks)]
    ensures !Reported(chunks, i, ctx, loopStart) ==>
              Throttle(chunks[..i + 1], ctx, loopStart).updates == Throttle(chunks[..i], ctx, loopStart).updates
  {
    ThrottleStep(chunks, i, ctx, loopStart);
  }

  /** The markers after a run of chunks are those of report `k`: when `k` is -1 no
      pass reported and the markers hold 0 and `loopStart`; otherwise pass `k` reported,
      the markers hold its total and timestamp, and no later pass reported. */
  predicate MarkersFrom(chunks: seq<Chunk>, k: int, ctx: Context, loopStart: int)
    requires ctx.freq > 0 && -1 <= k < |chunks|
  {
    var p := Throttle(chunks, ctx, loopStart);
    if k == -1 then
      p.updates == [] && p.meter.lastUpdateBytes == 0 && p.meter.lastUpdateTime == loopStart
    else
      && Reported(chunks, k, ctx, loopStart)
      && p.meter.lastUpdateBytes == Sum(chunks[..k + 1])
      && p.meter.lastUpdateTime == chunks[k].ticks
      && p.updates == Throttle(chunks[..k + 1], ctx, loopStart).updates
  }

  /** The markers after a run of chunks are those of its last report, `k`. */
  lemma {:induction false} LastReport(chunks: seq<Chunk>, ctx: Context, loopStart: int) returns (k: int)
    requires ctx.freq > 0
    ensures -1 <= k < |chunks| && MarkersFrom(chunks, k, ctx, loopStart)
    decreases |chunks|
  {
    if |chunks| == 0 {
      k := -1;
    } else {
      var n := |chunks| - 1;
      ReportWhenDue(chunks, n, ctx, loopStart);
      assert chunks[..n + 1] == chunks;
      if Reported(chunks, n, ctx, loopStart) {
        k := n;
        assert MarkersFrom(chunks, k, ctx, loopStart);
      } else {
        k := LastReport(chunks[..n], ctx, loopStart);
        QuietPass(chunks, k, ctx, loopStart);
      }
    }
  }

  /** A last pass that does not report leaves the markers of the run before it. */
  lemma {:induction false} QuietPass(chunks: seq<Chunk>, k: int, ctx: Context, loopStart: int)
    requires ctx.freq > 0 && |chunks| > 0 && -1 <= k < |chunks| - 1
    requires !Reported(chunks, |chunks| - 1, ctx, loopStart)
    requires MarkersFrom(chunks[..|chunks| - 1], k, ctx, loopStart)
    ensures MarkersFrom(chunks, k, ctx, loopStart)
  {
    var front := chunks[..|chunks| - 1];
    QuietStep(chunks, ctx, loopStart);
    if k >= 0 {
      PrefixKeepsPass(chunks, |chunks| - 1, k, ctx, loopStart);
      calc {
        Throttle(chunks, ctx, loopStart).updates;
        Throttle(front, ctx, loopStart).updates;
        Throttle(front[..k + 1], ctx, loopStart).updates;
        Throttle(chunks[..k + 1], ctx, loopStart).updates;
      }
    }
  }

  /** Pass `k` looks the same in a run and in any longer prefix of it. */
  lemma {:induction false} PrefixKeepsPass(chunks: seq<Chunk>, m: int, k: int, ctx: Context, loopStart: int)
    requires ctx.freq > 0 && 0 <= k < m <= |chunks|
    ensures Reported(chunks[..m], k, ctx, loopStart) == Reported(chunks, k, ctx, loopStart)
    ensures Throttle(chunks[..m][..k + 1], ctx, loopStart) == Throttle(chunks[..k + 1], ctx, loopStart)
    ensures Sum(chunks[..m][..k + 1]) == Sum(chunks[..k + 1])
  {
    assert chunks[..m][..k + 1] == chunks[..k + 1];
    assert chunks[..m][..k] == chunks[..k];
  }

  /** A last pass that does not report changes neither the updates nor the markers. */
  lemma {:induction false} QuietStep(chunks: seq<Chunk>, ctx: Context, loopStart: int)
    requires ctx.freq > 0 && |chunks| > 0
    requires !Reported(chunks, |chunks| - 1, ctx, loopStart)
    ensures var p := Throttle(chunks[..|chunks| - 1], ctx, loopStart);
            var q := Throttle(chunks, ctx, loopStart);
            q.updates == p.updates && q.meter.lastUpdateBytes == p.meter.lastUpdateBytes
            && q.meter.lastUpdateTime == p.meter.lastUpdateTime
  {
    var n := |chunks| - 1;
    assert chunks[..n + 1] == chunks;
  }

  /** One pass of the loop body: write the chunk, count it, and report when due. */
  method Tick(ctx: Context, downloaded: int, lastUpdateBytes: int, lastUpdateTime: int,
              updates: seq<Update>, chunk: Chunk)
    returns (downloaded': int, lastUpdateBytes': int, lastUpdateTime': int, updates': seq<Update>)
    requires ctx.freq > 0
    requires Consistent(Progress(Meter(downloaded, lastUpdateBytes, lastUpdateTime), updates))
    ensures Progress(Meter(downloaded', lastUpdateBytes', lastUpdateTime'), updates')
              == Advance(Progress(Meter(downloaded, lastUpdateBytes, lastUpdateTime), updates), chunk, ctx)
  {
    downloaded', lastUpdateBytes', lastUpdateTime', updates' := downloaded + chunk.size, lastUpdateBytes, lastUpdateTime, updates;
    var currentTicks := chunk.ticks;
    var due := downloaded' - lastUpdateBytes >= UpdateBytes || currentTicks - lastUpdateTime >= ctx.freq / 5;
    if due {
      updates' := updates + [Update(downloaded', currentTicks)];
      lastUpdateBytes' := downloaded';
      lastUpdateTime' := currentTicks;
    }
  }

  /** The final update of a completed download shows the full total, less than 256 KiB
      beyond the last in-loop report. */
  lemma {:induction false} FinalUpdateCarriesTotal(ctx: Context, loopStart: int, chunks: seq<Chunk>, now: int)
    requires ctx.freq > 0
    ensures var p := Throttle(chunks, ctx, loopStart);
            var last := Update(p.meter.downloaded, now);
            && last.downloaded == Sum(chunks)
            && (|p.updates| > 0 ==>
                  p.updates[|p.updates| - 1].downloaded <= last.downloaded
                  < p.updates[|p.updates| - 1].downloaded + UpdateBytes)
  {
  }

  /** Where the window stands. */
  datatype Status = Connecting | Downloading | Complete | CancelledStatus | FailedStatus

  /** The window's state: its status, `_downloadCompleted`, whether cancellation was
      requested, whether it was closed, whether the file at the download path exists and
      whether the download still holds it open (it is opened with FileShare.None), and
      whether the error box was shown. */
  datatype Window = Window(status: Status, completed: bool, cancelRequested: bool, closed: bool,
                           fileExists: bool, fileOpen: bool, errorShown: bool)

  const Initial: Window := Window(Connecting, false, false, false, false, false, false)

  /** `OnClosing`: cancels, and deletes the file of an unfinished download. The delete
      throws, and the exception is swallowed, while the download still holds the file. */
  function OnClosing(w: Window): (r: Window)
    ensures r.closed && r.cancelRequested
    ensures r.completed == w.completed && r.fileOpen == w.fileOpen && r.status == w.status
    ensures r.fileExists <==> w.fileExists && (w.completed || w.fileOpen)
  {
    var w' := w.(cancelRequested := true, closed := true);
    if !w.completed && w.fileExists && !w.fileOpen then w'.(fileExists := false) else w'
  }

  /** `CancelButton_Click`: after completion it only closes; before, it cancels and
      closes only on a confirmed "Yes", and otherwise changes nothing. */
  function CancelClick(w: Window, confirmed: bool): (r: Window)
    ensures w.completed || confirmed ==> r.closed && r.cancelRequested
    ensures !w.completed && !confirmed ==> r == w
    ensures r.completed == w.completed
  {
    if w.completed then OnClosing(w)
    else if confirmed then OnClosing(w.(cancelRequested := true))
    else w
  }

  /** The response arrived and the file was created: the loop is running. */
  function StreamOpened(w: Window): Window {
    w.(status := Downloading, fileExists := true, fileOpen := true)
  }

  /** How `StartDownloadAsync` leaves the window when the loop ends; the file is released
      on every path. Only a loop that runs out marks the download completed; a failure
      shows the error box and closes the window. */
  function LoopEnded(w: Window, ending: Ending): (r: Window)
    ensures !r.fileOpen
    ensures r.completed <==> w.completed || ending.EndOfStream?
    ensures ending.Faulted? ==> r.closed && r.errorShown && r.status == FailedStatus
    ensures ending.Cancelled? ==> r.status == CancelledStatus && r.fileExists == w.fileExists
    ensures ending.EndOfStream? ==> r.status == Complete && r.fileExists == w.fileExists
    ensures !ending.Faulted? ==>
              r.closed == w.closed && r.errorShown == w.errorShown && r.cancelRequested == w.cancelRequested
  {
    match ending
    case EndOfStream(_) => w.(status := Complete, completed := true, fileOpen := false)
    case Cancelled => w.(status := CancelledStatus, fileOpen := false)
    case Faulted => OnClosing(w.(status := FailedStatus, errorShown := true, fileOpen := false))
  }

  /** `StartDownloadAsync` from the first request to the end of the loop. A download is
      completed exactly when the response was a success and the stream ran out; the file
      exists afterwards exactly when it was created and the download did not fail. */
  method StartDownload(freq: int, connect: Connect, startTicks: int, loopStart: int,
                       chunks: seq<Chunk>, ending: Ending)
    returns (updates: seq<Update>, downloaded: int, w: Window)
    requires freq > 0
    ensures w.completed <==> connect.Opened? && ending.EndOfStream?
    ensures w.fileExists <==> connect.Opened? && !ending.Faulted?
    ensures !w.fileOpen
    ensures w.closed <==> connect.Refused? || connect.ConnectFailed? || (connect.Opened? && ending.Faulted?)
    ensures w.errorShown <==> w.closed
    ensures w.status == Complete <==> connect.Opened? && ending.EndOfStream?
    ensures w.status == CancelledStatus <==> connect.ConnectCancelled? || (connect.Opened? && ending.Cancelled?)
    ensures w.status == FailedStatus <==> w.closed
    ensures connect.Opened? ==>
              var ctx := Context(freq, connect.contentLength.GetOr(0), startTicks);
              downloaded == Sum(chunks)
              && updates == Throttle(chunks, ctx, loopStart).updates
                            + (if ending.EndOfStream? then [Update(downloaded, ending.ticks)] else [])
    ensures !connect.Opened? ==> updates == [] && downloaded == 0
  {
    updates, downloaded, w := [], 0, Initial;
    match connect {
      case ConnectCancelled =>
        w := w.(status := CancelledStatus);
      case Refused =>
        w := OnClosing(w.(status := FailedStatus, errorShown := true));
      case ConnectFailed =>
        w := OnClosing(w.(status := FailedStatus, errorShown := true));
      case Opened(contentLength) =>
        var ctx := Context(freq, contentLength.GetOr(0), startTicks);
        w := StreamOpened(w);
        updates, downloaded := ReadLoop(ctx, loopStart, chunks, ending);
        w := LoopEnded(w, ending);
    }
  }

  /** Cancelling a running download, as written: "Yes" closes the window while the loop
      still holds the file, so the delete in `OnClosing` fails; the loop then stops on
      the cancellation and releases the file, which stays behind. */
  lemma {:induction false} CancelLeavesPartialFile()
    ensures var running := StreamOpened(Initial);
            var after := LoopEnded(CancelClick(running, true), Cancelled);
            after.closed && !after.completed && after.fileExists
  {
  }

  /** The cancellation handler with the intended cleanup: once the loop has released the
      file, an unfinished download's file is deleted. */
  function LoopEndedCorrected(w: Window, ending: Ending): (r: Window)
    ensures !r.fileOpen
    ensures r.completed <==> w.completed || ending.EndOfStream?
    ensures ending.Cancelled? ==> r.status == CancelledStatus && (r.fileExists <==> w.fileExists && w.completed)
  {
    match ending
    case Cancelled =>
      var released := w.(status := CancelledStatus, fileOpen := false);
      if !w.completed then released.(fileExists := false) else released
    case _ => LoopEnded(w, ending)
  }

  /** With the corrected handler, cancelling a running download leaves no partial file,
      whatever the window's state when "Yes" was confirmed. */
  lemma {:induction false} CancelRemovesPartialFile(w: Window)
    requires !w.completed
    ensures var after := LoopEndedCorrected(CancelClick(w, true), Cancelled);
            after.closed && !after.completed && !after.fileExists
  {
  }

  /** With the corrected handler, a download that ends in any way other than completion
      leaves no file once its window has been closed. */
  lemma {:induction false} ClosedUnfinishedLeavesNoFile(w: Window, ending: Ending, closeAfter: bool)
    requires !w.completed && !ending.EndOfStream?
    ensures var ended := LoopEndedCorrected(w, ending);
            var r := if closeAfter then OnClosing(ended) else ended;
            r.closed ==> !r.fileExists
  {
  }
}
