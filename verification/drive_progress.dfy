/**
  The progress accounting of one download: the increments the shared progress
  bar is advanced by, chunk after chunk.
 */
module DriveProgress {
  import opened Wrappers

  /**
    One `downloader.next_chunk()` result: the status (absent, or carrying the
    cumulative `resumable_progress`) and the `done` flag.
   */
  datatype Chunk = Chunk(status: Option<int>, done: bool)

  /** The progress a chunk reports: none when its status is absent. */
  function StatusValue(c: Chunk): seq<int> {
    if c.status.Some? then [c.status.value] else []
  }

  /** The cumulative progress values reported by the first `n` chunks, in order. */
  function Reported(chunks: seq<Chunk>, n: nat): seq<int>
    requires n <= |chunks|
  {
    if n == 0 then [] else Reported(chunks, n - 1) + StatusValue(chunks[n - 1])
  }

  /** The last of a sequence of cumulative values, 0 when there is none. */
  function LastOf(rep: seq<int>): int {
    if |rep| == 0 then 0 else rep[|rep| - 1]
  }

  /** The last cumulative progress the first `n` chunks report, 0 before any report. */
  function LastReported(chunks: seq<Chunk>, n: nat): int
    requires n <= |chunks|
  {
    LastOf(Reported(chunks, n))
  }

  /** The total the progress bar is advanced by. */
  function Sum(s: seq<int>): int {
    if |s| == 0 then 0 else Sum(s[..|s| - 1]) + s[|s| - 1]
  }

  /** `d` holds the successive differences of the cumulative values `rep`, starting from 0. */
  predicate DeltasOf(d: seq<int>, rep: seq<int>) {
    && |d| == |rep|
    && (forall i :: 0 <= i < |d| ==> d[i] == rep[i] - LastOf(rep[..i]))
  }

  lemma DeltasAppend(d: seq<int>, rep: seq<int>, x: int)
    requires DeltasOf(d, rep)
    ensures DeltasOf(d + [x - LastOf(rep)], rep + [x])
  {
    var d', rep' := d + [x - LastOf(rep)], rep + [x];
    forall i | 0 <= i < |d'|
      ensures d'[i] == rep'[i] - LastOf(rep'[..i])
    {
      assert rep'[..i] == rep[..i] || i == |rep|;
      assert rep'[..|rep|] == rep;
    }
  }

  lemma SumSnoc(s: seq<int>, x: int)
    ensures Sum(s + [x]) == Sum(s) + x
  {
    assert (s + [x])[..|s|] == s;
  }

  /** The successive differences of cumulative values, starting from 0. */
  function Deltas(rep: seq<int>): (d: seq<int>)
    ensures |d| == |rep|
  {
    if |rep| == 0 then []
    else
      var front := rep[..|rep| - 1];
      Deltas(front) + [rep[|rep| - 1] - LastOf(front)]
  }

  /** One more cumulative value adds its difference from the previous last. */
  lemma {:induction false} DeltasSnoc(rep: seq<int>, x: int)
    ensures Deltas(rep + [x]) == Deltas(rep) + [x - LastOf(rep)]
  {
    assert (rep + [x])[..|rep|] == rep;
  }

  /** The differences add up to the last cumulative value. */
  lemma {:induction false} DeltasTelescope(rep: seq<int>)
    ensures Sum(Deltas(rep)) == LastOf(rep)
  {
    if |rep| > 0 {
      var front := rep[..|rep| - 1];
      DeltasTelescope(front);
      SumSnoc(Deltas(front), rep[|rep| - 1] - LastOf(front));
    }
  }

  /** Each difference is a value minus the one before it (0 for the first). */
  lemma {:induction false} DeltasAreDifferences(rep: seq<int>)
    ensures DeltasOf(Deltas(rep), rep)
  {
    if |rep| > 0 {
      var front := rep[..|rep| - 1];
      DeltasAreDifferences(front);
      DeltasAppend(Deltas(front), front, rep[|rep| - 1]);
      assert front + [rep[|rep| - 1]] == rep;
    }
  }

  /** One more chunk extends the differences by its status's growth, if it has a status. */
  lemma {:induction false} ReportedStep(chunks: seq<Chunk>, n: nat)
    requires n < |chunks|
    ensures chunks[n].status.None? ==> Reported(chunks, n + 1) == Reported(chunks, n)
    ensures chunks[n].status.Some? ==>
              && Deltas(Reported(chunks, n + 1)) == Deltas(Reported(chunks, n)) + [chunks[n].status.value - LastReported(chunks, n)]
              && LastReported(chunks, n + 1) == chunks[n].status.value
  {
    var rep := Reported(chunks, n);
    if chunks[n].status.Some? {
      DeltasSnoc(rep, chunks[n].status.value);
    } else {
      assert rep + [] == rep;
    }
  }

  /** No chunk before position `n` says `done`. */
  predicate NoneDone(chunks: seq<Chunk>, n: int) {
    forall i :: 0 <= i < n && i < |chunks| ==> !chunks[i].done
  }

  /**
    The progress loop of `_download_single_file`: chunks are consumed until
    one says `done`; each status adds the growth of `resumable_progress`
    since the previous status to the progress bar.
   */
  method TrackProgress(chunks: seq<Chunk>) returns (deltas: seq<int>, consumed: nat, finished: bool)
    ensures consumed <= |chunks|
    ensures finished ==> 0 < consumed && chunks[consumed - 1].done
    ensures !finished ==> consumed == |chunks|
    ensures NoneDone(chunks, consumed - 1)
    ensures !finished ==> NoneDone(chunks, |chunks|)
    ensures deltas == Deltas(Reported(chunks, consumed))
    ensures Sum(deltas) == LastReported(chunks, consumed)
  {
    deltas := [];
    consumed := 0;
    finished := false;
    var previous := 0;
    ghost var rep: seq<int> := [];
    while !finished && consumed < |chunks|
      invariant consumed <= |chunks|
      invariant finished == (0 < consumed && chunks[consumed - 1].done)
      invariant NoneDone(chunks, consumed - 1)
      invariant rep == Reported(chunks, consumed)
      invariant deltas == Deltas(rep)
      invariant previous == LastOf(rep)
      decreases |chunks| - consumed
    {
      var c := chunks[consumed];
      if c.status.Some? {
        var current := c.status.value;
        var delta := current - previous;
        DeltasSnoc(rep, current);
        deltas := deltas + [delta];
        previous := current;
        rep := rep + [current];
      } else {
        assert rep + StatusValue(c) == rep;
      }
      consumed := consumed + 1;
      finished := c.done;
    }
    DeltasTelescope(Reported(chunks, consumed));
  }
}
