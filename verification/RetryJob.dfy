// crates/ecp-cli/src/background.rs: what the script of job_script does when it runs.
module RetryJob {
  import opened Options

  datatype Event = Attempt(number: nat) | Sleep | Then

  // The first of the attempts 1..max that succeeds.
  function FirstSuccess(succeeds: nat -> bool, max: nat): (first: Option<nat>)
    ensures first.Some? ==> 1 <= first.value <= max && succeeds(first.value)
    ensures first.Some? ==> forall k :: 1 <= k < first.value ==> !succeeds(k)
    ensures first.None? ==> forall k :: 1 <= k <= max ==> !succeeds(k)
  {
    if max == 0 then None
    else
      var before := FirstSuccess(succeeds, max - 1);
      if before.Some? then before else if succeeds(max) then Some(max) else None
  }

  // Attempts 1..n, with a sleep between each and the next.
  function Attempts(n: nat): seq<Event> {
    if n == 0 then [] else if n == 1 then [Attempt(1)] else Attempts(n - 1) + [Sleep, Attempt(n)]
  }

  lemma {:induction false} AttemptsCount(n: nat)
    ensures
      var run := Attempts(n);
      && |run| == (if n == 0 then 0 else 2 * n - 1)
      && forall k :: 0 <= k < |run| ==> run[k] == if k % 2 == 0 then Attempt(k / 2 + 1) else Sleep
  {
    if n > 1 {
      AttemptsCount(n - 1);
    }
  }

  // The job's lock, and the files it reports in.
  class Files {
    var locked: bool       // by another job
    var complete: bool
    var failed: bool
    var log: seq<nat>      // the numbers in its attempt headers

    constructor (locked: bool, complete: bool, failed: bool, log: seq<nat>)
      ensures this.locked == locked && this.complete == complete && this.failed == failed && this.log == log
    {
      this.locked, this.complete, this.failed, this.log := locked, complete, failed, log;
    }

    // The script, with markers. `succeeds` is the outcome of each attempt.
    method Run(max: nat, succeeds: nat -> bool, hasThen: bool) returns (events: seq<Event>)
      modifies this
      ensures locked == old(locked)
      ensures locked ==> events == [] && complete == old(complete) && failed == old(failed) && log == old(log)
      ensures !locked ==>
                match FirstSuccess(succeeds, max)
                case Some(n) =>
                  && complete && !failed && log == Numbers(n)
                  && events == Attempts(n) + if hasThen then [Then] else []
                case None =>
                  failed && !complete && log == Numbers(max) && events == Attempts(max)
    {
      events := [];
      if locked {
        return;
      }
      log := [];
      var attempt := 0;
      while attempt < max
        invariant attempt <= max && FirstSuccess(succeeds, attempt) == None
        invariant locked == old(locked) && log == Numbers(attempt)
        invariant events == SoFar(attempt, max)
      {
        OneMore(attempt, max);
        attempt := attempt + 1;
        log := log + [attempt];
        events := events + [Attempt(attempt)];
        if succeeds(attempt) {
          FirstStays(succeeds, attempt, max);
          if hasThen {
            events := events + [Then];
          }
          failed := false;
          complete := true;
          return;
        }
        if attempt < max {
          events := events + [Sleep];
        }
      }
      complete := false;
      failed := true;
    }
  }

  // The events before attempt n + 1 of at most `max`.
  function SoFar(n: nat, max: nat): seq<Event> {
    Attempts(n) + if 0 < n < max then [Sleep] else []
  }

  lemma OneMore(n: nat, max: nat)
    requires n < max
    ensures SoFar(n, max) + [Attempt(n + 1)] == Attempts(n + 1)
    ensures Numbers(n) + [n + 1] == Numbers(n + 1)
  {
  }

  function Numbers(n: nat): seq<nat> {
    seq(n, k => k + 1)
  }

  lemma {:induction false} FirstStays(succeeds: nat -> bool, n: nat, max: nat)
    requires n <= max && FirstSuccess(succeeds, n).Some?
    ensures FirstSuccess(succeeds, max) == FirstSuccess(succeeds, n)
    decreases max
  {
    if n < max {
      FirstStays(succeeds, n, max - 1);
    }
  }

  // A job that gets the lock leaves exactly one marker, whatever it found: success if and
  // only if one of at most `max` attempts succeeds.
  method RunLeavesOneMarker(files: Files, max: nat, succeeds: nat -> bool, hasThen: bool) returns (events: seq<Event>)
    requires !files.locked
    modifies files
    ensures files.complete != files.failed
    ensures files.complete <==> exists k :: 1 <= k <= max && succeeds(k)
    ensures |events| <= 2 * max + 1
    ensures forall k, l :: 0 <= k < l < |events| && events[k].Attempt? && events[l].Attempt? ==>
              !succeeds(events[k].number)
  {
    events := files.Run(max, succeeds, hasThen);
    var first := FirstSuccess(succeeds, max);
    AttemptsCount(if first.Some? then first.value else max);
    forall k, l | 0 <= k < l < |events| && events[k].Attempt? && events[l].Attempt?
      ensures !succeeds(events[k].number)
    {
      assert events[l].number == l / 2 + 1;
    }
  }
}
