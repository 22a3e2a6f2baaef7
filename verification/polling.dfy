/**
  The status loops `check_status` (MUSCLE) and `check_status_phylo`
  (simple_phylogeny) of AutophiGen.py. Both request the job status, print the
  body, stop when the body contains "FINISHED" and otherwise sleep five
  seconds and ask again, with no upper bound on the number of rounds.

  The service's answers are given as the finite list of status bodies it
  returns, in order. When none of them contains "FINISHED" the loop has not
  stopped within them; in the script it keeps polling.
 */
module Polling {

  import opened Text
  import opened Effects

  const FinishedMarker := "FINISHED"

  /** The argument of `sleep` between two status requests. */
  const PollSeconds: nat := 5

  /** The stop test: any body containing the marker counts, "UNFINISHED" included. */
  predicate IsFinished(body: string)
  {
    Contains(body, FinishedMarker)
  }

  /** The index of the first body that stops the loop, if any. */
  function FirstFinished(bodies: seq<string>): (r: Option<nat>)
    ensures r.None? <==> forall i :: 0 <= i < |bodies| ==> !IsFinished(bodies[i])
    ensures r.Some? ==> r.value < |bodies| && IsFinished(bodies[r.value])
    ensures r.Some? ==> forall i :: 0 <= i < r.value ==> !IsFinished(bodies[i])
  {
    if bodies == [] then None
    else if IsFinished(bodies[0]) then Some(0)
    else
      match FirstFinished(bodies[1..])
      case None => None
      case Some(k) => Some(k + 1)
  }

  /** The events of one status loop: request, print, and a sleep after every body that does not stop it. */
  function PollEvents(statusUrl: string, bodies: seq<string>): seq<Event>
  {
    if bodies == [] then []
    else
      [Get(statusUrl, "text/plain"), Print(bodies[0])]
      + (if IsFinished(bodies[0]) then [] else [Sleep(PollSeconds)] + PollEvents(statusUrl, bodies[1..]))
  }

  /** One request round and one sleep, counted. */
  lemma RoundCounts(statusUrl: string, body: string)
    ensures Gets([Get(statusUrl, "text/plain"), Print(body)]) == 1
    ensures SecondsSlept([Get(statusUrl, "text/plain"), Print(body)]) == 0
    ensures Gets([Sleep(PollSeconds)]) == 0
    ensures SecondsSlept([Sleep(PollSeconds)]) == PollSeconds
  {
    var round := [Get(statusUrl, "text/plain"), Print(body)];
    var p := [Print(body)];
    assert round[1..] == p;
    assert p[1..] == [];
    assert Gets(p) == 0 && SecondsSlept(p) == 0;
    assert [Sleep(PollSeconds)][1..] == [];
  }

  /** The events of a loop that goes on past its first body. */
  lemma PollUnrolled(statusUrl: string, bodies: seq<string>)
    requires bodies != [] && !IsFinished(bodies[0])
    ensures Gets(PollEvents(statusUrl, bodies)) == 1 + Gets(PollEvents(statusUrl, bodies[1..]))
    ensures SecondsSlept(PollEvents(statusUrl, bodies)) == PollSeconds + SecondsSlept(PollEvents(statusUrl, bodies[1..]))
  {
    var round := [Get(statusUrl, "text/plain"), Print(bodies[0])];
    var rest := PollEvents(statusUrl, bodies[1..]);
    RoundCounts(statusUrl, bodies[0]);
    CountsAppend(round, [Sleep(PollSeconds)] + rest);
    CountsAppend([Sleep(PollSeconds)], rest);
  }

  /**
    Polling stops right after the first body containing "FINISHED": with that
    body at index k there are k + 1 requests and five seconds of sleep between
    each two of them, and the last thing done is printing that body.
   */
  lemma {:induction false} PollCountsFinished(statusUrl: string, bodies: seq<string>)
    requires FirstFinished(bodies).Some?
    ensures var k := FirstFinished(bodies).value;
      && Gets(PollEvents(statusUrl, bodies)) == k + 1
      && SecondsSlept(PollEvents(statusUrl, bodies)) == PollSeconds * k
      && PollEvents(statusUrl, bodies)[|PollEvents(statusUrl, bodies)| - 1] == Print(bodies[k])
    decreases |bodies|
  {
    var round := [Get(statusUrl, "text/plain"), Print(bodies[0])];
    if IsFinished(bodies[0]) {
      RoundCounts(statusUrl, bodies[0]);
      assert PollEvents(statusUrl, bodies) == round;
    } else {
      var rest := PollEvents(statusUrl, bodies[1..]);
      var k := FirstFinished(bodies).value;
      assert FirstFinished(bodies[1..]) == Some(k - 1);
      PollCountsFinished(statusUrl, bodies[1..]);
      PollUnrolled(statusUrl, bodies);
      var all := PollEvents(statusUrl, bodies);
      assert all == (round + [Sleep(PollSeconds)]) + rest;
      assert all[|all| - 1] == rest[|rest| - 1];
      assert bodies[1..][k - 1] == bodies[k];
    }
  }

  /** With no body containing "FINISHED", every body was requested and each was followed by a sleep. */
  lemma {:induction false} PollCountsUnfinished(statusUrl: string, bodies: seq<string>)
    requires FirstFinished(bodies).None?
    ensures Gets(PollEvents(statusUrl, bodies)) == |bodies|
    ensures SecondsSlept(PollEvents(statusUrl, bodies)) == PollSeconds * |bodies|
    decreases |bodies|
  {
    if bodies != [] {
      PollCountsUnfinished(statusUrl, bodies[1..]);
      PollUnrolled(statusUrl, bodies);
    }
  }

  /** Both cases of the loop's request and sleep counts. */
  lemma PollCounts(statusUrl: string, bodies: seq<string>)
    ensures FirstFinished(bodies).Some? ==>
      var k := FirstFinished(bodies).value;
      && Gets(PollEvents(statusUrl, bodies)) == k + 1
      && SecondsSlept(PollEvents(statusUrl, bodies)) == PollSeconds * k
      && PollEvents(statusUrl, bodies)[|PollEvents(statusUrl, bodies)| - 1] == Print(bodies[k])
    ensures FirstFinished(bodies).None? ==>
      && Gets(PollEvents(statusUrl, bodies)) == |bodies|
      && SecondsSlept(PollEvents(statusUrl, bodies)) == PollSeconds * |bodies|
  {
    if FirstFinished(bodies).Some? {
      PollCountsFinished(statusUrl, bodies);
    } else {
      PollCountsUnfinished(statusUrl, bodies);
    }
  }

  /** What the service would say after the stopping body is never asked for. */
  lemma {:induction false} PollStops(statusUrl: string, bodies: seq<string>, more: seq<string>)
    requires FirstFinished(bodies).Some?
    ensures FirstFinished(bodies + more) == FirstFinished(bodies)
    ensures PollEvents(statusUrl, bodies + more) == PollEvents(statusUrl, bodies)
    decreases |bodies|
  {
    assert (bodies + more)[0] == bodies[0];
    assert (bodies + more)[1..] == bodies[1..] + more;
    if !IsFinished(bodies[0]) {
      PollStops(statusUrl, bodies[1..], more);
    }
  }

  /** Before any stopping body, polling goes on into whatever the service says next. */
  lemma {:induction false} PollContinues(statusUrl: string, bodies: seq<string>, more: seq<string>)
    requires FirstFinished(bodies).None?
    ensures PollEvents(statusUrl, bodies + more) == PollEvents(statusUrl, bodies) + PollEvents(statusUrl, more)
    decreases |bodies|
  {
    if bodies == [] {
      assert bodies + more == more;
    } else {
      assert (bodies + more)[0] == bodies[0];
      assert (bodies + more)[1..] == bodies[1..] + more;
      PollContinues(statusUrl, bodies[1..], more);
    }
  }

  /** ... and the loop then stops exactly where it would have stopped on `more` alone, shifted. */
  lemma {:induction false} FirstFinishedShift(bodies: seq<string>, more: seq<string>)
    requires FirstFinished(bodies).None?
    ensures FirstFinished(more).None? ==> FirstFinished(bodies + more).None?
    ensures FirstFinished(more).Some? ==> FirstFinished(bodies + more) == Some(|bodies| + FirstFinished(more).value)
    decreases |bodies|
  {
    if bodies == [] {
      assert bodies + more == more;
    } else {
      var all := bodies + more;
      assert !IsFinished(bodies[0]) && FirstFinished(bodies[1..]).None?;
      assert all[0] == bodies[0];
      assert all[1..] == bodies[1..] + more;
      FirstFinishedShift(bodies[1..], more);
      var r := FirstFinished(all[1..]);
      assert FirstFinished(all) == if r.None? then None else Some(r.value + 1);
    }
  }

  /**
    `check_status` as written: a loop that requests, tests the body, and
    sleeps. It reports how many requests it made, how long it slept, and
    whether it stopped within the bodies given. Its counts agree with the
    events of PollEvents, whatever the status URL.
   */
  method CheckStatus(bodies: seq<string>) returns (polls: nat, slept: nat, finished: bool)
    ensures finished <==> exists i :: 0 <= i < |bodies| && IsFinished(bodies[i])
    ensures finished ==> 1 <= polls <= |bodies| && IsFinished(bodies[polls - 1])
    ensures finished ==> forall i :: 0 <= i < polls - 1 ==> !IsFinished(bodies[i])
    ensures finished ==> slept == PollSeconds * (polls - 1)
    ensures !finished ==> polls == |bodies| && slept == PollSeconds * |bodies|
    ensures finished <==> FirstFinished(bodies).Some?
    ensures finished ==> polls == FirstFinished(bodies).value + 1
    ensures forall url :: Gets(PollEvents(url, bodies)) == polls && SecondsSlept(PollEvents(url, bodies)) == slept
  {
    polls, slept, finished := 0, 0, false;
    while polls < |bodies|
      invariant polls <= |bodies|
      invariant slept == PollSeconds * polls
      invariant forall i :: 0 <= i < polls ==> !IsFinished(bodies[i])
    {
      var body := bodies[polls];
      polls := polls + 1;
      if IsFinished(body) {
        finished := true;
        forall url
          ensures Gets(PollEvents(url, bodies)) == polls && SecondsSlept(PollEvents(url, bodies)) == slept
        {
          PollCounts(url, bodies);
        }
        return;
      }
      slept := slept + PollSeconds;
    }
    forall url
      ensures Gets(PollEvents(url, bodies)) == polls && SecondsSlept(PollEvents(url, bodies)) == slept
    {
      PollCounts(url, bodies);
    }
  }

  /** Any body containing the marker stops the loop, even one saying "UNFINISHED". */
  lemma UnfinishedStops()
    ensures IsFinished("UNFINISHED")
    ensures FirstFinished(["RUNNING", "UNFINISHED", "RUNNING"]) == Some(1)
  {
    assert OccursAt("UNFINISHED", FinishedMarker, 2);
    ShorterNeverContains("RUNNING", FinishedMarker);
  }

  /** A job that fails never produces the marker, so its loop has no end. */
  lemma FailureNeverStops(bodies: seq<string>)
    requires forall i :: 0 <= i < |bodies| ==> bodies[i] in {"RUNNING", "FAILED", "ERROR"}
    ensures FirstFinished(bodies).None?
  {
    forall i | 0 <= i < |bodies|
      ensures !IsFinished(bodies[i])
    {
      ShorterNeverContains(bodies[i], FinishedMarker);
    }
  }

  /** Two RUNNING answers and then FINISHED: three requests and ten seconds of sleep. */
  lemma TwoRoundsThenFinished(statusUrl: string)
    ensures Gets(PollEvents(statusUrl, ["RUNNING", "RUNNING", "FINISHED"])) == 3
    ensures SecondsSlept(PollEvents(statusUrl, ["RUNNING", "RUNNING", "FINISHED"])) == 10
  {
    var bodies := ["RUNNING", "RUNNING", "FINISHED"];
    ShorterNeverContains("RUNNING", FinishedMarker);
    assert OccursAt("FINISHED", FinishedMarker, 0);
    assert FirstFinished(bodies[2..]) == Some(0);
    assert FirstFinished(bodies[1..]) == Some(1);
    PollCounts(statusUrl, bodies);
  }
}
