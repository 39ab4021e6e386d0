/** The shape shared by the two loops of the handler: turns are taken in order,
    each either issues its upload or throws, and the first exception ends the
    loop (and, uncaught, the invocation) while the uploads already issued stay
    issued. */
module Runs {
  import opened Common
  import opened Resizing
  import opened Uploading

  /** What one turn of the response loop does: issue its upload, or throw. */
  type Step = Result<UploadRequest, ResizeError>

  /** What a loop did: the uploads it issued, in order, and the exception that
      ended it early, if any. */
  datatype Run = Run(uploads: seq<UploadRequest>, failure: Option<ResizeError>)

  /** `uploads` issued first, then what `run` did. */
  function Then(uploads: seq<UploadRequest>, run: Run): (joined: Run)
  {
    Run(uploads + run.uploads, run.failure)
  }

  lemma ThenAssociative(first: seq<UploadRequest>, second: seq<UploadRequest>, run: Run)
    ensures Then(first + second, run) == Then(first, Then(second, run))
  {
    assert first + second + run.uploads == first + (second + run.uploads);
  }

  /** The turns taken in order until the first one that throws. */
  function Issue(steps: seq<Step>): (run: Run)
  {
    if steps == [] then Run([], None)
    else
      match steps[0]
      case Err(e) => Run([], Some(e))
      case Ok(upload) => Then([upload], Issue(steps[1..]))
  }

  /** Every turn before the first exception issues exactly its upload, in order;
      the loop ends normally exactly when no turn throws, and otherwise with the
      exception of the first turn that threw. */
  lemma {:induction false} IssueCharacterised(steps: seq<Step>)
    ensures var run := Issue(steps);
      && |run.uploads| <= |steps|
      && (forall i :: 0 <= i < |run.uploads| ==> steps[i] == Ok(run.uploads[i]))
      && (run.failure.None? <==> |run.uploads| == |steps|)
      && (run.failure.Some? ==> steps[|run.uploads|] == Err(run.failure.value))
  {
    if steps != [] && steps[0].Ok? {
      var run, rest := Issue(steps), Issue(steps[1..]);
      IssueCharacterised(steps[1..]);
      assert run.uploads == [steps[0].value] + rest.uploads;
      forall i | 0 < i < |run.uploads|
        ensures steps[i] == Ok(run.uploads[i])
      {
        assert steps[1..][i - 1] == steps[i] && run.uploads[i] == rest.uploads[i - 1];
      }
    }
  }

  /** One turn of a loop that has issued `uploads` for the turns before `i`: turn
      `i` either ends the loop with its exception or adds its upload. */
  lemma IssueStep(steps: seq<Step>, i: nat, uploads: seq<UploadRequest>)
    requires i < |steps| && Issue(steps) == Then(uploads, Issue(steps[i..]))
    ensures steps[i].Err? ==> Issue(steps) == Run(uploads, Some(steps[i].error))
    ensures steps[i].Ok? ==> Issue(steps) == Then(uploads + [steps[i].value], Issue(steps[i + 1..]))
  {
    assert steps[i..][0] == steps[i];
    assert steps[i..][1..] == steps[i + 1..];
    if steps[i].Err? {
      assert uploads + [] == uploads;
    } else {
      ThenAssociative(uploads, [steps[i].value], Issue(steps[i + 1..]));
    }
  }

  /** Taking the turns of `a` and then those of `b` is running `a` and, unless it
      threw, then `b`. */
  lemma {:induction false} IssueAppend(a: seq<Step>, b: seq<Step>)
    ensures Issue(a + b) == if Issue(a).failure.Some? then Issue(a) else Then(Issue(a).uploads, Issue(b))
  {
    if a == [] {
      assert a + b == b;
    } else {
      assert (a + b)[0] == a[0] && (a + b)[1..] == a[1..] + b;
      IssueAppend(a[1..], b);
      if a[0].Ok? {
        ThenAssociative([a[0].value], Issue(a[1..]).uploads, Issue(b));
      }
    }
  }

  /** The runs of consecutive loops, each started only when the one before ended
      normally. */
  function Chain(runs: seq<Run>): (run: Run)
  {
    if runs == [] then Run([], None)
    else if runs[0].failure.Some? then runs[0]
    else Then(runs[0].uploads, Chain(runs[1..]))
  }

  /** One turn of the outer loop that has issued `uploads` for the runs before `i`. */
  lemma ChainStep(runs: seq<Run>, i: nat, uploads: seq<UploadRequest>)
    requires i < |runs| && Chain(runs) == Then(uploads, Chain(runs[i..]))
    ensures runs[i].failure.Some? ==> Chain(runs) == Then(uploads, runs[i])
    ensures runs[i].failure.None? ==> Chain(runs) == Then(uploads + runs[i].uploads, Chain(runs[i + 1..]))
  {
    assert runs[i..][0] == runs[i];
    assert runs[i..][1..] == runs[i + 1..];
    if runs[i].failure.None? {
      ThenAssociative(uploads, runs[i].uploads, Chain(runs[i + 1..]));
    }
  }
}
