/** The render button's bookkeeping of GIF jobs: a click aborts the job still
    encoding, if any, then starts a new capture whose download name comes from
    the chosen file. The encoder itself is external; only its running /
    finished / aborted state is kept. */
module CaptureSession {
  import opened Options
  import FileName

  datatype Status = Running | Finished | Aborted

  /** One `GIF` object created by `render`: the name its output is offered
      under and where its encoding stands. */
  datatype Job = Job(filename: string, status: Status)

  /** Number of jobs still encoding. */
  function RunningCount(jobs: seq<Job>): nat
  {
    if |jobs| == 0 then 0
    else RunningCount(jobs[..|jobs| - 1]) + (if jobs[|jobs| - 1].status == Running then 1 else 0)
  }

  /** Only the most recent job may still be encoding. */
  ghost predicate OnlyLastMayRun(jobs: seq<Job>)
  {
    forall k :: 0 <= k < |jobs| - 1 ==> jobs[k].status != Running
  }

  /** If only the newest job may run, at most one job runs: exactly one when
      the newest is running, none otherwise. */
  lemma {:induction false} AtMostOneRunning(jobs: seq<Job>)
    requires OnlyLastMayRun(jobs)
    ensures RunningCount(jobs) == if |jobs| > 0 && jobs[|jobs| - 1].status == Running then 1 else 0
    ensures RunningCount(jobs) <= 1
  {
    if |jobs| > 0 {
      NoneRunning(jobs[..|jobs| - 1]);
    }
  }

  /** Jobs none of which is encoding have a running count of zero. */
  lemma {:induction false} NoneRunning(jobs: seq<Job>)
    requires forall k :: 0 <= k < |jobs| ==> jobs[k].status != Running
    ensures RunningCount(jobs) == 0
  {
    if |jobs| > 0 {
      NoneRunning(jobs[..|jobs| - 1]);
    }
  }

  /** Starting a job when none is encoding leaves exactly that job running. */
  lemma StartWhenIdle(jobs: seq<Job>, job: Job)
    requires forall k :: 0 <= k < |jobs| ==> jobs[k].status != Running
    requires job.status == Running
    ensures OnlyLastMayRun(jobs + [job])
    ensures RunningCount(jobs + [job]) == 1
  {
    NoneRunning(jobs);
    assert (jobs + [job])[..|jobs|] == jobs;
  }

  /** The `gif` variable of the page and the jobs it has pointed to. */
  class RenderButton {
    /** Every job started so far, oldest first; the last one is `gif`. */
    var jobs: seq<Job>

    ghost predicate Valid()
      reads this
    {
      OnlyLastMayRun(jobs)
    }

    /** `let gif = undefined`. */
    constructor ()
      ensures Valid() && jobs == []
    {
      jobs := [];
    }

    /** `renderButton.onclick`: abort the current job if it is still running,
        then start a capture named after the chosen file. */
    method OnClick(file: Option<string>)
      requires Valid()
      modifies this
      ensures Valid()
      ensures |jobs| == |old(jobs)| + 1
      ensures jobs[|jobs| - 1] == Job(FileName.DownloadName(file), Running)
      ensures forall k :: 0 <= k < |old(jobs)| - 1 ==> jobs[k] == old(jobs)[k]
      ensures |old(jobs)| > 0 ==> var last := old(jobs)[|old(jobs)| - 1];
        jobs[|old(jobs)| - 1] == if last.status == Running then last.(status := Aborted) else last
      ensures RunningCount(jobs) == 1
    {
      if |jobs| > 0 && jobs[|jobs| - 1].status == Running {
        var gif := jobs[|jobs| - 1];
        jobs := jobs[..|jobs| - 1] + [gif.(status := Aborted)];
      }
      assert forall k :: 0 <= k < |jobs| ==> jobs[k].status != Running;
      var filename := if file.Some? then FileName.RemoveFileNameExt(file.value) else "result";
      var job := Job(filename + ".gif", Running);
      StartWhenIdle(jobs, job);
      jobs := jobs + [job];
    }

    /** The encoder's `finished` event for the current job: its output is
        ready to download. An aborted job never reports. */
    method OnFinished()
      requires Valid()
      modifies this
      ensures Valid()
      ensures |jobs| == |old(jobs)|
      ensures forall k :: 0 <= k < |jobs| - 1 ==> jobs[k] == old(jobs)[k]
      ensures |jobs| > 0 ==> var last := old(jobs)[|jobs| - 1];
        jobs[|jobs| - 1] == if last.status == Running then last.(status := Finished) else last
      ensures RunningCount(jobs) == 0
    {
      if |jobs| > 0 && jobs[|jobs| - 1].status == Running {
        var gif := jobs[|jobs| - 1];
        jobs := jobs[..|jobs| - 1] + [gif.(status := Finished)];
      }
      AtMostOneRunning(jobs);
    }
  }
}
