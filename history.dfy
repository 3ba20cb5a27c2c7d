/** A sequence of registration requests handled one after another by the single resource
    instance the application creates: the ids it hands out and what its registry holds. */
module History {
  import opened Wrappers
  import opened Models
  import opened Host
  import opened Workflow

  /** One call of the public `registerService`, with the host's behaviour for it. */
  datatype Request = Request(name: Option<string>, content: Option<string>, jarFileName: Option<string>, throws: set<Action>)

  /** The state after a run, the descriptors built (one per complete request, in order), the
      descriptors committed to the registry (in order) and the responses. */
  datatype RunResult = RunResult(state: State, built: seq<SystemCtlService>, committed: seq<SystemCtlService>,
                                 responses: seq<Response>)

  /** Whether the response to a request for `name` means its descriptor was committed: the
      request got past registration. */
  predicate Commits(response: Response, name: string)
  {
    response == Accepted202 || response == Failed(ServiceStartException(name))
  }

  /** Handle `reqs` in order, starting from `s`. */
  function Run(s: State, reqs: seq<Request>): RunResult
    decreases |reqs|
  {
    if reqs == [] then RunResult(s, [], [], [])
    else
      var prev := Run(s, reqs[..|reqs| - 1]);
      var q := reqs[|reqs| - 1];
      var out := RegisterService(prev.state, q.name, q.content, q.jarFileName, q.throws);
      var built := if out.service.Some? then [out.service.value] else [];
      var committed := if out.service.Some? && Commits(out.response, out.service.value.name) then [out.service.value] else [];
      RunResult(out.state, prev.built + built, prev.committed + committed, prev.responses + [out.response])
  }

  /** Whether a request carries all three parameters. */
  predicate Complete(q: Request)
  {
    q.name.Some? && q.content.Some? && q.jarFileName.Some?
  }

  /** The number of complete requests in `reqs`. */
  function CountComplete(reqs: seq<Request>): nat
    decreases |reqs|
  {
    if reqs == [] then 0
    else CountComplete(reqs[..|reqs| - 1]) + (if Complete(reqs[|reqs| - 1]) then 1 else 0)
  }

  /** One step of a run: the facts about a single request that the run lemmas use. */
  lemma RunStep(s: State, reqs: seq<Request>)
    requires reqs != []
    ensures var prev, q := Run(s, reqs[..|reqs| - 1]), reqs[|reqs| - 1];
            var r := Run(s, reqs);
            && (!Complete(q) ==> r.state == prev.state && r.built == prev.built && r.committed == prev.committed)
            && (Complete(q) ==>
                  var service := SystemCtlService(prev.state.counter + 1, q.name.value, q.content.value, q.jarFileName.value);
                  && r.state.counter == prev.state.counter + 1
                  && r.built == prev.built + [service]
                  && (r.committed == prev.committed + [service] || r.committed == prev.committed)
                  && r.state.serviceMap == if r.committed == prev.committed + [service]
                                           then prev.state.serviceMap[service.name := service]
                                           else prev.state.serviceMap)
  {
    var prev, q := Run(s, reqs[..|reqs| - 1]), reqs[|reqs| - 1];
    RegisterRejectsIncomplete(prev.state, q.name, q.content, q.jarFileName, q.throws);
    if Complete(q) {
      var name := q.name.value;
      RegisterTakesNextId(prev.state, name, q.content.value, q.jarFileName.value, q.throws);
      RegisterCommitPoint(prev.state, name, q.content.value, q.jarFileName.value, q.throws);
    }
  }

  /** Ids are handed out one by one, in request order, starting after the counter: the
      descriptor of the i-th complete request has id counter + i + 1, incomplete requests take
      no id, and the counter ends at the last id handed out. */
  lemma {:induction false} RunTakesConsecutiveIds(s: State, reqs: seq<Request>)
    ensures var r := Run(s, reqs);
            && |r.built| == CountComplete(reqs)
            && r.state.counter == s.counter + |r.built|
            && forall i :: 0 <= i < |r.built| ==> r.built[i].id == s.counter + i + 1
    decreases |reqs|
  {
    if reqs != [] {
      RunTakesConsecutiveIds(s, reqs[..|reqs| - 1]);
      RunStep(s, reqs);
    }
  }

  /** The descriptor last committed under `name` in `committed`, or `fallback` when none is. */
  function Latest(committed: seq<SystemCtlService>, name: string, fallback: Option<SystemCtlService>): Option<SystemCtlService>
    decreases |committed|
  {
    if committed == [] then fallback
    else if committed[|committed| - 1].name == name then Some(committed[|committed| - 1])
    else Latest(committed[..|committed| - 1], name, fallback)
  }

  /** The registry entry for `name`, if any. */
  function Lookup(serviceMap: map<string, SystemCtlService>, name: string): Option<SystemCtlService>
  {
    if name in serviceMap then Some(serviceMap[name]) else None
  }

  /** Last write wins: after a run, the registry maps each name to the descriptor last
      committed under it, and keeps the entry it had before for every other name. */
  lemma {:induction false} RunRegistryLastWriteWins(s: State, reqs: seq<Request>, name: string)
    ensures var r := Run(s, reqs);
            Lookup(r.state.serviceMap, name) == Latest(r.committed, name, Lookup(s.serviceMap, name))
    decreases |reqs|
  {
    if reqs != [] {
      var prev, r := Run(s, reqs[..|reqs| - 1]), Run(s, reqs);
      RunRegistryLastWriteWins(s, reqs[..|reqs| - 1], name);
      RunStep(s, reqs);
      if r.committed != prev.committed {
        assert r.committed[..|r.committed| - 1] == prev.committed;
      }
    }
  }

  /** The registry invariant holds after any run that starts from a state where it holds,
      in particular from the empty registry the resource starts with. */
  lemma {:induction false} RunPreservesValid(s: State, reqs: seq<Request>)
    requires Valid(s)
    ensures Valid(Run(s, reqs).state)
    decreases |reqs|
  {
    if reqs != [] {
      var prev, q := Run(s, reqs[..|reqs| - 1]), reqs[|reqs| - 1];
      RunPreservesValid(s, reqs[..|reqs| - 1]);
      RegisterPreservesValid(prev.state, q.name, q.content, q.jarFileName, q.throws);
    }
  }
}
