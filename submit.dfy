/** Submission `POST /v1`: the bounded wait for the freshly created job
    directory to become visible. */
module TaskSubmission {

  /** The loop gives up on a failed check once its counter exceeds this. */
  const CounterLimit := 10

  /** Counter values 0 to CounterLimit + 1 each see one failed check before
      the loop gives up: the most existence checks (and sleeps) it makes. */
  const MaxChecks := CounterLimit + 2

  /** Whether the job directory exists at the `i`-th existence check
      (numbered from 0). A check beyond the oracle finds it absent. */
  predicate Visible(seen: seq<bool>, i: nat) {
    i < |seen| && seen[i]
  }

  datatype WaitOutcome =
    | Appeared(checks: nat, sleeps: nat)
    | Raised(message: string, sleeps: nat)

  function TimeoutMessage(jobdir: string): string {
    "Even after 10 seconds the directory: " + jobdir + " did not get created"
  }

  /** Polls for `jobdir`, sleeping once after every failed check, and raises
      when the counter has passed CounterLimit. It returns at the first check
      that sees the directory. */
  method AwaitJobDir(jobdir: string, seen: seq<bool>) returns (outcome: WaitOutcome)
    ensures outcome.Appeared? <==> exists i :: 0 <= i < MaxChecks && Visible(seen, i)
    ensures outcome.Appeared? ==>
              && 1 <= outcome.checks <= MaxChecks
              && Visible(seen, outcome.checks - 1)
              && (forall j :: 0 <= j < outcome.checks - 1 ==> !Visible(seen, j))
              && outcome.sleeps == outcome.checks - 1
    ensures outcome.sleeps <= MaxChecks
    ensures outcome.Raised? ==>
              outcome.sleeps == MaxChecks && outcome.message == TimeoutMessage(jobdir)
  {
    var counter := 0;
    var sleeps := 0;
    while !Visible(seen, counter)
      invariant 0 <= counter <= CounterLimit + 1
      invariant sleeps == counter
      invariant forall j :: 0 <= j < counter ==> !Visible(seen, j)
      decreases CounterLimit + 1 - counter
    {
      sleeps := sleeps + 1;
      if counter > CounterLimit {
        return Raised(TimeoutMessage(jobdir), sleeps);
      }
      counter := counter + 1;
    }
    outcome := Appeared(counter + 1, sleeps);
  }
}
