/** The `daemon` endpoint (Daemon.java): each request carrying a unit-file text takes the
    next id from the endpoint's own counter and is answered 202 with a descriptor holding
    that id and the text; a request without it is answered 404 and takes no id. */
module DaemonEndpoint {
  import opened Wrappers

  /** The descriptor of SystemCtlService.java: an id and the unit-file text, nothing else. */
  datatype SystemCtlService = SystemCtlService(id: nat, serviceFileContent: string)

  /** 404, or 202 with the descriptor as its entity. */
  datatype Reply = NotFound404 | Accepted202(entity: SystemCtlService)

  /** One request against the counter value `counter`: the new counter value and the reply. */
  function Handle(counter: nat, serviceFileContents: Option<string>): (r: (nat, Reply))
    ensures r.1 == NotFound404 <==> serviceFileContents.None?
    ensures r.1 == NotFound404 ==> r.0 == counter
    ensures r.1.Accepted202? ==> r.0 == counter + 1 && r.1.entity == SystemCtlService(r.0, serviceFileContents.value)
  {
    if serviceFileContents.None? then (counter, NotFound404)
    else (counter + 1, Accepted202(SystemCtlService(counter + 1, serviceFileContents.value)))
  }

  class Daemon {
    /** The last id handed out; an `AtomicLong` starting at 0. */
    var counter: nat

    constructor ()
      ensures counter == 0
    {
      counter := 0;
    }

    /** `register`: 404 without the parameter, else the next id and a 202. */
    method Register(serviceFileContents: Option<string>) returns (reply: Reply)
      modifies this
      ensures (counter, reply) == Handle(old(counter), serviceFileContents)
    {
      if serviceFileContents.None? {
        return NotFound404;
      }
      counter := counter + 1;
      reply := Accepted202(SystemCtlService(counter, serviceFileContents.value));
    }
  }

  /** Handle `reqs` in order from counter value `counter`: the final counter and the replies. */
  function Replay(counter: nat, reqs: seq<Option<string>>): (nat, seq<Reply>)
    decreases |reqs|
  {
    if reqs == [] then (counter, [])
    else
      var (c, replies) := Replay(counter, reqs[..|reqs| - 1]);
      var (c', reply) := Handle(c, reqs[|reqs| - 1]);
      (c', replies + [reply])
  }

  /** The number of requests in `reqs` that carry the parameter. */
  function CountPresent(reqs: seq<Option<string>>): nat
    decreases |reqs|
  {
    if reqs == [] then 0
    else CountPresent(reqs[..|reqs| - 1]) + (if reqs[|reqs| - 1].Some? then 1 else 0)
  }

  /** Each request is answered 404 exactly when it lacks the parameter; otherwise its reply
      carries its own text and the id counter + (the number of requests up to and including
      it that carried the parameter); the counter ends at the last id handed out. */
  lemma {:induction false} ReplayIds(counter: nat, reqs: seq<Option<string>>)
    ensures var (c, replies) := Replay(counter, reqs);
            && |replies| == |reqs|
            && c == counter + CountPresent(reqs)
            && forall i :: 0 <= i < |reqs| ==>
                 replies[i] == if reqs[i].None? then NotFound404
                               else Accepted202(SystemCtlService(counter + CountPresent(reqs[..i + 1]), reqs[i].value))
    decreases |reqs|
  {
    if reqs != [] {
      var init, last := reqs[..|reqs| - 1], reqs[|reqs| - 1];
      ReplayIds(counter, init);
      var (c, replies) := Replay(counter, init);
      var all := Replay(counter, reqs).1;
      assert all == replies + [Handle(c, last).1];
      forall i | 0 <= i < |reqs|
        ensures all[i] == if reqs[i].None? then NotFound404
                          else Accepted202(SystemCtlService(counter + CountPresent(reqs[..i + 1]), reqs[i].value))
      {
        if i < |init| {
          assert reqs[..i + 1] == init[..i + 1];
          assert all[i] == replies[i];
        } else {
          assert reqs[..i + 1] == reqs;
        }
      }
    }
  }

  /** Counting over a longer prefix never counts fewer requests. */
  lemma {:induction false} CountPresentMonotone(reqs: seq<Option<string>>, i: nat, j: nat)
    requires i <= j <= |reqs|
    ensures CountPresent(reqs[..i]) <= CountPresent(reqs[..j])
    decreases j - i
  {
    if i < j {
      CountPresentMonotone(reqs, i, j - 1);
      assert reqs[..j][..j - 1] == reqs[..j - 1];
    }
  }

  /** Ids are strictly increasing in request order, so no two accepted requests share one. */
  lemma ReplayIdsIncrease(counter: nat, reqs: seq<Option<string>>, i: nat, j: nat)
    requires i < j < |reqs|
    ensures var replies := Replay(counter, reqs).1;
            |replies| == |reqs| &&
            (replies[i].Accepted202? && replies[j].Accepted202? ==> replies[i].entity.id < replies[j].entity.id)
  {
    ReplayIds(counter, reqs);
    CountPresentMonotone(reqs, i + 1, j);
    assert reqs[..j + 1][..j] == reqs[..j];
  }
}
