/** The registration workflow of `ServiceRegistrationResource.registerService` as functions on
    the resource's state, with the reference definitions it is proved against: the plan of host
    actions for a request and the fail-fast prefix of it that is actually attempted. */
module Workflow {
  import opened Wrappers
  import opened Models
  import opened Host

  /** The four step exceptions (the exceptions package); each carries the service name. */
  datatype StepError =
    | ServiceStopException(name: string)
    | ServiceDeregistrationException(name: string)
    | ServiceRegistrationException(name: string)
    | ServiceStartException(name: string)

  /** What the caller sees: 404 for a missing parameter, 202 on completion, or the step
      exception that escaped the resource method. */
  datatype Response = NotFound404 | Accepted202 | Failed(error: StepError)

  /** The resource's fields `counter` and `serviceMap`, and the host. */
  datatype State = State(counter: nat, serviceMap: map<string, SystemCtlService>, host: Machine)

  /** The host after one private step, and the exception it threw, if any. */
  datatype StepResult = StepResult(host: Machine, error: Option<StepError>)

  /** The result of one request; `service` is the descriptor built for it, if it got that far. */
  datatype Outcome = Outcome(state: State, response: Response, service: Option<SystemCtlService>)

  /** `stopService`: `systemctl stop name`. */
  function StopService(m: Machine, throws: set<Action>, name: string): (r: StepResult)
    ensures r.host.trace == m.trace + [Systemctl(Stop, name)] && r.host.installed == m.installed
    ensures r.host.delivery == m.delivery
    ensures r.error.Some? <==> Fails(m.delivery, throws, Systemctl(Stop, name))
    ensures r.error.Some? ==> r.error.value == ServiceStopException(name)
  {
    var (m1, ok) := Perform(m, throws, Systemctl(Stop, name));
    StepResult(m1, if ok then None else Some(ServiceStopException(name)))
  }

  /** `deRegisterService`: `systemctl disable name`, then delete the installed `jarFileName`;
      either throwing is a deregistration failure and the delete is skipped after a failed disable. */
  function DeRegisterService(m: Machine, throws: set<Action>, name: string, jarFileName: string): (r: StepResult)
    ensures var disable, delete := Systemctl(Disable, name), DeleteIfExists(jarFileName);
            && r.host.trace == m.trace + (if Fails(m.delivery, throws, disable) then [disable] else [disable, delete])
            && (r.error.None? <==> !Fails(m.delivery, throws, disable) && !Fails(m.delivery, throws, delete))
            && r.host.installed == if r.error.None? then m.installed - {jarFileName} else m.installed
    ensures r.host.delivery == m.delivery
    ensures r.error.Some? ==> r.error.value == ServiceDeregistrationException(name)
  {
    var (m1, disabled) := Perform(m, throws, Systemctl(Disable, name));
    if !disabled then StepResult(m1, Some(ServiceDeregistrationException(name)))
    else
      var (m2, deleted) := Perform(m1, throws, DeleteIfExists(jarFileName));
      StepResult(m2, if deleted then None else Some(ServiceDeregistrationException(name)))
  }

  /** The private `registerService`: copy the artifact from delivery into the installation
      directory, replacing any file there, then `systemctl enable name`. */
  function InstallService(m: Machine, throws: set<Action>, service: SystemCtlService): (r: StepResult)
    ensures var copy, enable := CopyReplaceExisting(service.jarFileName), Systemctl(Enable, service.name);
            && r.host.trace == m.trace + (if Fails(m.delivery, throws, copy) then [copy] else [copy, enable])
            && (r.error.None? <==> !Fails(m.delivery, throws, copy) && !Fails(m.delivery, throws, enable))
            && r.host.installed == if Fails(m.delivery, throws, copy) then m.installed
                                   else m.installed[service.jarFileName := m.delivery[service.jarFileName]]
    ensures r.host.delivery == m.delivery
    ensures r.error.Some? ==> r.error.value == ServiceRegistrationException(service.name)
  {
    var (m1, copied) := Perform(m, throws, CopyReplaceExisting(service.jarFileName));
    if !copied then StepResult(m1, Some(ServiceRegistrationException(service.name)))
    else
      var (m2, enabled) := Perform(m1, throws, Systemctl(Enable, service.name));
      StepResult(m2, if enabled then None else Some(ServiceRegistrationException(service.name)))
  }

  /** `startService`: `systemctl start name`. */
  function StartService(m: Machine, throws: set<Action>, name: string): (r: StepResult)
    ensures r.host.trace == m.trace + [Systemctl(Start, name)] && r.host.installed == m.installed
    ensures r.host.delivery == m.delivery
    ensures r.error.Some? <==> Fails(m.delivery, throws, Systemctl(Start, name))
    ensures r.error.Some? ==> r.error.value == ServiceStartException(name)
  {
    var (m1, ok) := Perform(m, throws, Systemctl(Start, name));
    StepResult(m1, if ok then None else Some(ServiceStartException(name)))
  }

  /** Teardown of a registered name: `stopService`, then `deRegisterService` if the stop did not throw. */
  function TearDown(m: Machine, throws: set<Action>, name: string, jarFileName: string): (r: StepResult)
    ensures r.host.delivery == m.delivery
    ensures r.error.Some? ==> r.error.value in {ServiceStopException(name), ServiceDeregistrationException(name)}
  {
    var stopped := StopService(m, throws, name);
    if stopped.error.Some? then stopped
    else DeRegisterService(stopped.host, throws, name, jarFileName)
  }

  /** The public `registerService(Optional, Optional, Optional)`. */
  function RegisterService(s: State, serviceName: Option<string>, serviceFileContents: Option<string>,
                           serviceJarFileName: Option<string>, throws: set<Action>): (out: Outcome)
    ensures out.response == NotFound404 <==> serviceName.None? || serviceFileContents.None? || serviceJarFileName.None?
    ensures out.response != NotFound404 ==> out.state.counter == s.counter + 1 && out.service.Some? && out.service.value.id == s.counter + 1
    ensures out.state.host.delivery == s.host.delivery
  {
    if serviceName.None? || serviceFileContents.None? || serviceJarFileName.None? then
      Outcome(s, NotFound404, None)
    else
      var counter := s.counter + 1;
      var service := SystemCtlService(counter, serviceName.value, serviceFileContents.value, serviceJarFileName.value);
      var teardown :=
        if service.name in s.serviceMap then TearDown(s.host, throws, service.name, service.jarFileName)
        else StepResult(s.host, None);
      if teardown.error.Some? then
        Outcome(State(counter, s.serviceMap, teardown.host), Failed(teardown.error.value), Some(service))
      else
        InstallAndStart(State(counter, s.serviceMap, teardown.host), service, throws)
  }

  /** The tail of the public `registerService`: register the new service, commit its
      descriptor to `serviceMap`, then start it. */
  function InstallAndStart(s: State, service: SystemCtlService, throws: set<Action>): (out: Outcome)
    ensures out.state.counter == s.counter && out.service == Some(service) && out.response != NotFound404
    ensures out.state.host.delivery == s.host.delivery
    ensures out.response.Failed? ==> out.response.error in {ServiceRegistrationException(service.name), ServiceStartException(service.name)}
  {
    var installed := InstallService(s.host, throws, service);
    if installed.error.Some? then
      Outcome(State(s.counter, s.serviceMap, installed.host), Failed(installed.error.value), Some(service))
    else
      var serviceMap := s.serviceMap[service.name := service];
      var started := StartService(installed.host, throws, service.name);
      Outcome(State(s.counter, serviceMap, started.host),
              if started.error.Some? then Failed(started.error.value) else Accepted202,
              Some(service))
  }

  // ---------------------------------------------------------------------------------------
  // Reference definitions

  /** Every host action a request for `name` and `jarFileName` would take, in order, when
      nothing fails: teardown only for a known name, then install and start. */
  function Plan(known: bool, name: string, jarFileName: string): seq<Action>
  {
    (if known then TearDownPlan(name, jarFileName) else []) + InstallPlan(name, jarFileName) + [Systemctl(Start, name)]
  }

  /** Stop the service, disable it and delete the installed file of the requested name. */
  function TearDownPlan(name: string, jarFileName: string): seq<Action>
  {
    [Systemctl(Stop, name), Systemctl(Disable, name), DeleteIfExists(jarFileName)]
  }

  /** Copy the artifact into place and enable the service. */
  function InstallPlan(name: string, jarFileName: string): seq<Action>
  {
    [CopyReplaceExisting(jarFileName), Systemctl(Enable, name)]
  }

  /** The exception an action's step raises when the action throws. */
  function StepErrorOf(a: Action, name: string): StepError
  {
    match a
    case Systemctl(Stop, _) => ServiceStopException(name)
    case Systemctl(Disable, _) => ServiceDeregistrationException(name)
    case DeleteIfExists(_) => ServiceDeregistrationException(name)
    case CopyReplaceExisting(_) => ServiceRegistrationException(name)
    case Systemctl(Enable, _) => ServiceRegistrationException(name)
    case Systemctl(Start, _) => ServiceStartException(name)
  }

  /** The actions of `plan` that are attempted when the first one that throws aborts the rest. */
  function Attempted(plan: seq<Action>, delivery: map<string, string>, throws: set<Action>): (r: seq<Action>)
    decreases |plan|
  {
    if plan == [] then []
    else if Fails(delivery, throws, plan[0]) then [plan[0]]
    else [plan[0]] + Attempted(plan[1..], delivery, throws)
  }

  /** No action of `plan` throws. */
  predicate AllSucceed(plan: seq<Action>, delivery: map<string, string>, throws: set<Action>)
  {
    forall i :: 0 <= i < |plan| ==> !Fails(delivery, throws, plan[i])
  }

  /** Whether the action `a` was attempted and did not throw. */
  predicate Succeeded(att: seq<Action>, delivery: map<string, string>, throws: set<Action>, a: Action)
  {
    a in att && !Fails(delivery, throws, a)
  }

  /** The registry invariant: each key maps to a descriptor of that name whose id was issued. */
  ghost predicate Valid(s: State)
  {
    forall n :: n in s.serviceMap ==> s.serviceMap[n].name == n && 1 <= s.serviceMap[n].id <= s.counter
  }

  // ---------------------------------------------------------------------------------------
  // Facts about fail-fast runs of a plan

  /** `Attempted` is the fail-fast prefix: every action before the last succeeded, and when
      it stops short of the whole plan its last action is the one that threw. */
  lemma {:induction false} AttemptedIsFailFast(plan: seq<Action>, delivery: map<string, string>, throws: set<Action>)
    ensures var r := Attempted(plan, delivery, throws);
            && |r| <= |plan| && r == plan[..|r|]
            && (forall i :: 0 <= i < |r| - 1 ==> !Fails(delivery, throws, r[i]))
            && (|r| < |plan| ==> |r| > 0 && Fails(delivery, throws, r[|r| - 1]))
    decreases |plan|
  {
    if plan != [] && !Fails(delivery, throws, plan[0]) {
      AttemptedIsFailFast(plan[1..], delivery, throws);
      var r, rest := Attempted(plan, delivery, throws), Attempted(plan[1..], delivery, throws);
      assert r == [plan[0]] + rest;
      forall i | 0 <= i < |r| - 1 ensures !Fails(delivery, throws, r[i]) {
        if i > 0 { assert r[i] == rest[i - 1]; }
      }
    }
  }

  /** One unfolding of `Attempted`. */
  lemma AttemptedCons(a: Action, rest: seq<Action>, delivery: map<string, string>, throws: set<Action>)
    ensures Attempted([a] + rest, delivery, throws)
         == if Fails(delivery, throws, a) then [a] else [a] + Attempted(rest, delivery, throws)
  {
    assert ([a] + rest)[1..] == rest;
  }

  /** Nothing in `p + q` throws exactly when nothing in `p` and nothing in `q` does. */
  lemma AllSucceedAppend(p: seq<Action>, q: seq<Action>, delivery: map<string, string>, throws: set<Action>)
    ensures AllSucceed(p + q, delivery, throws) <==> AllSucceed(p, delivery, throws) && AllSucceed(q, delivery, throws)
  {
    if AllSucceed(p, delivery, throws) && AllSucceed(q, delivery, throws) {
      forall k | 0 <= k < |p + q| ensures !Fails(delivery, throws, (p + q)[k]) {
        if k >= |p| { assert (p + q)[k] == q[k - |p|]; }
      }
    }
    if AllSucceed(p + q, delivery, throws) {
      forall k | 0 <= k < |q| ensures !Fails(delivery, throws, q[k]) {
        assert (p + q)[k + |p|] == q[k];
      }
      forall k | 0 <= k < |p| ensures !Fails(delivery, throws, p[k]) {
        assert (p + q)[k] == p[k];
      }
    }
  }

  /** Running `p` then `q` fail-fast: `q` is reached only when all of `p` succeeds. */
  lemma {:induction false} AttemptedAppend(p: seq<Action>, q: seq<Action>, delivery: map<string, string>, throws: set<Action>)
    ensures Attempted(p + q, delivery, throws)
         == if AllSucceed(p, delivery, throws) then p + Attempted(q, delivery, throws) else Attempted(p, delivery, throws)
    decreases |p|
  {
    if p != [] {
      var a, rest := p[0], p[1..];
      assert AllSucceed(p, delivery, throws) <==> !Fails(delivery, throws, a) && AllSucceed(rest, delivery, throws) by {
        assert p == [a] + rest;
        AllSucceedAppend([a], rest, delivery, throws);
        assert AllSucceed([a], delivery, throws) <==> !Fails(delivery, throws, a);
      }
      assert Attempted(p + q, delivery, throws)
          == if Fails(delivery, throws, a) then [a] else [a] + Attempted(rest + q, delivery, throws) by {
        assert (p + q)[0] == a && (p + q)[1..] == rest + q;
      }
      if !Fails(delivery, throws, a) {
        AttemptedAppend(rest, q, delivery, throws);
        assert [a] + (rest + Attempted(q, delivery, throws)) == p + Attempted(q, delivery, throws) by {
          assert p == [a] + rest;
        }
      }
    } else {
      assert p + q == q;
    }
  }

  /** Three actions run fail-fast, spelled out. */
  lemma AttemptedOfThree(a: Action, b: Action, c: Action, delivery: map<string, string>, throws: set<Action>)
    ensures Attempted([a, b, c], delivery, throws)
         == if Fails(delivery, throws, a) then [a] else if Fails(delivery, throws, b) then [a, b] else [a, b, c]
    ensures AllSucceed([a, b, c], delivery, throws)
        <==> !Fails(delivery, throws, a) && !Fails(delivery, throws, b) && !Fails(delivery, throws, c)
  {
    AttemptedCons(c, [], delivery, throws);
    AttemptedCons(b, [c], delivery, throws);
    AttemptedCons(a, [b, c], delivery, throws);
    assert [a, b, c] == [a] + [b, c] && [b, c] == [b] + [c];
  }

  /** The attempted prefix of a non-empty plan is non-empty, and every action of the plan
      succeeds exactly when the whole plan is attempted and its last action does not throw. */
  lemma {:induction false} AttemptedStopsAtFailure(plan: seq<Action>, delivery: map<string, string>, throws: set<Action>)
    requires |plan| > 0
    ensures var att := Attempted(plan, delivery, throws);
            |att| > 0 && (AllSucceed(plan, delivery, throws) <==> att == plan && !Fails(delivery, throws, att[|att| - 1]))
    decreases |plan|
  {
    var a, rest := plan[0], plan[1..];
    AllSucceedAppend([a], rest, delivery, throws);
    assert plan == [a] + rest;
    assert AllSucceed([a], delivery, throws) <==> !Fails(delivery, throws, a);
    if !Fails(delivery, throws, a) && rest != [] {
      AttemptedStopsAtFailure(rest, delivery, throws);
      var att := Attempted(plan, delivery, throws);
      assert att[|att| - 1] == Attempted(rest, delivery, throws)[|Attempted(rest, delivery, throws)| - 1];
    }
  }

  /** The attempted prefix of a non-empty plan ends at the first action that throws, if any. */
  lemma AttemptedEndsAtFirstFailure(plan: seq<Action>, delivery: map<string, string>, throws: set<Action>)
    requires |plan| > 0
    ensures var att := Attempted(plan, delivery, throws);
            && att <= plan && |att| > 0
            && (forall i :: 0 <= i < |att| - 1 ==> !Fails(delivery, throws, att[i]))
            && (AllSucceed(plan, delivery, throws) <==> att == plan && !Fails(delivery, throws, att[|att| - 1]))
            && (!AllSucceed(plan, delivery, throws) ==> Fails(delivery, throws, att[|att| - 1]))
  {
    AttemptedIsFailFast(plan, delivery, throws);
    AttemptedStopsAtFailure(plan, delivery, throws);
  }

  /** The plan spelled out. */
  lemma PlanLiteral(known: bool, name: string, jarFileName: string)
    ensures Plan(known, name, jarFileName)
         == if known then [Systemctl(Stop, name), Systemctl(Disable, name), DeleteIfExists(jarFileName),
                           CopyReplaceExisting(jarFileName), Systemctl(Enable, name), Systemctl(Start, name)]
            else [CopyReplaceExisting(jarFileName), Systemctl(Enable, name), Systemctl(Start, name)]
  {
  }

  /** Start comes last in every plan and nowhere else. */
  lemma PlanEndsWithStart(known: bool, name: string, jarFileName: string)
    ensures var plan := Plan(known, name, jarFileName);
            && |plan| > 0 && plan[|plan| - 1] == Systemctl(Start, name)
            && forall i :: 0 <= i < |plan| - 1 ==> StepErrorOf(plan[i], name) != ServiceStartException(name)
  {
  }

  /** Start is attempted exactly when every earlier action of the plan succeeded, so the
      attempted actions are then the whole plan. */
  lemma StartAttempted(known: bool, name: string, jarFileName: string, delivery: map<string, string>, throws: set<Action>)
    ensures var plan := Plan(known, name, jarFileName);
            var att := Attempted(plan, delivery, throws);
            && |att| > 0
            && (Systemctl(Start, name) in att <==> att == plan)
            && (AllSucceed(plan, delivery, throws) ==> att == plan)
            && (StepErrorOf(att[|att| - 1], name) == ServiceStartException(name) <==> att == plan)
  {
    var plan := Plan(known, name, jarFileName);
    var att := Attempted(plan, delivery, throws);
    PlanEndsWithStart(known, name, jarFileName);
    AttemptedIsFailFast(plan, delivery, throws);
    if Systemctl(Start, name) in att {
      var i :| 0 <= i < |att| && att[i] == Systemctl(Start, name);
      assert plan[i] == att[i];
      assert StepErrorOf(plan[i], name) == ServiceStartException(name);
    }
  }

  /** A plan's first attempted action is stop exactly when the name is known; otherwise
      stop is never attempted and only (a prefix of) copy, enable, start is. */
  lemma AttemptedStartsWithTearDown(known: bool, name: string, jarFileName: string, delivery: map<string, string>, throws: set<Action>)
    ensures var att := Attempted(Plan(known, name, jarFileName), delivery, throws);
            && |att| > 0
            && (Systemctl(Stop, name) in att <==> known)
            && (known ==> att[0] == Systemctl(Stop, name))
            && (!known ==> att <= [CopyReplaceExisting(jarFileName), Systemctl(Enable, name), Systemctl(Start, name)])
  {
    var plan := Plan(known, name, jarFileName);
    AttemptedIsFailFast(plan, delivery, throws);
    PlanLiteral(known, name, jarFileName);
    var att := Attempted(plan, delivery, throws);
    assert |att| > 0 by {
      AttemptedCons(plan[0], plan[1..], delivery, throws);
      assert plan == [plan[0]] + plan[1..];
    }
    assert att[0] == plan[0];
    if !known {
      assert Systemctl(Stop, name) !in plan;
    }
  }

  /** The only delete any plan attempts is of the requested `jarFileName`. */
  lemma AttemptedDeletesOnlyJar(known: bool, name: string, jarFileName: string, delivery: map<string, string>, throws: set<Action>)
    ensures var att := Attempted(Plan(known, name, jarFileName), delivery, throws);
            forall a :: a in att && a.DeleteIfExists? ==> a == DeleteIfExists(jarFileName)
  {
    var plan := Plan(known, name, jarFileName);
    AttemptedIsFailFast(plan, delivery, throws);
    PlanLiteral(known, name, jarFileName);
    var att := Attempted(plan, delivery, throws);
    forall a | a in att && a.DeleteIfExists? ensures a == DeleteIfExists(jarFileName) {
      var k :| 0 <= k < |att| && att[k] == a;
      assert att[k] == plan[k];
    }
  }

  /** When a known name's teardown throws, nothing after the throwing action is attempted. */
  lemma KnownPlanTearDownFails(name: string, jarFileName: string, delivery: map<string, string>, throws: set<Action>)
    requires !AllSucceed(TearDownPlan(name, jarFileName), delivery, throws)
    ensures var tdAtt := Attempted(TearDownPlan(name, jarFileName), delivery, throws);
            && Attempted(Plan(true, name, jarFileName), delivery, throws) == tdAtt
            && !AllSucceed(Plan(true, name, jarFileName), delivery, throws)
            && Systemctl(Start, name) !in tdAtt && CopyReplaceExisting(jarFileName) !in tdAtt
            && !Succeeded(tdAtt, delivery, throws, DeleteIfExists(jarFileName))
  {
    var td, tail := TearDownPlan(name, jarFileName), InstallPlan(name, jarFileName) + [Systemctl(Start, name)];
    var stop, disable, delete := Systemctl(Stop, name), Systemctl(Disable, name), DeleteIfExists(jarFileName);
    assert Plan(true, name, jarFileName) == td + tail;
    AttemptedAppend(td, tail, delivery, throws);
    AllSucceedAppend(td, tail, delivery, throws);
    AttemptedOfThree(stop, disable, delete, delivery, throws);
  }

  /** After a teardown in which nothing threw, a known name's plan goes on exactly as the
      plan of install and start. */
  lemma KnownPlanContinues(name: string, jarFileName: string, delivery: map<string, string>, throws: set<Action>)
    requires AllSucceed(TearDownPlan(name, jarFileName), delivery, throws)
    ensures var td, tail := TearDownPlan(name, jarFileName), InstallPlan(name, jarFileName) + [Systemctl(Start, name)];
            && Attempted(td, delivery, throws) == td
            && Attempted(Plan(true, name, jarFileName), delivery, throws) == td + Attempted(tail, delivery, throws)
            && (AllSucceed(Plan(true, name, jarFileName), delivery, throws) <==> AllSucceed(tail, delivery, throws))
  {
    var td, tail := TearDownPlan(name, jarFileName), InstallPlan(name, jarFileName) + [Systemctl(Start, name)];
    assert Plan(true, name, jarFileName) == td + tail;
    AttemptedAppend(td, tail, delivery, throws);
    AllSucceedAppend(td, tail, delivery, throws);
    AttemptedOfThree(td[0], td[1], td[2], delivery, throws);
  }

  /** So its last attempted action, and whether it reaches copy or start, are those of the
      plan of install and start, and its delete was attempted and did not throw. */
  lemma KnownPlanAfterTearDown(name: string, jarFileName: string, delivery: map<string, string>, throws: set<Action>)
    requires AllSucceed(TearDownPlan(name, jarFileName), delivery, throws)
    ensures var td, tail := TearDownPlan(name, jarFileName), InstallPlan(name, jarFileName) + [Systemctl(Start, name)];
            var att, tailAtt := Attempted(Plan(true, name, jarFileName), delivery, throws), Attempted(tail, delivery, throws);
            && Attempted(td, delivery, throws) == td && att == td + tailAtt
            && (AllSucceed(Plan(true, name, jarFileName), delivery, throws) <==> AllSucceed(tail, delivery, throws))
            && |tailAtt| > 0 && att[|att| - 1] == tailAtt[|tailAtt| - 1]
            && (Systemctl(Start, name) in att <==> Systemctl(Start, name) in tailAtt)
            && (CopyReplaceExisting(jarFileName) in att <==> CopyReplaceExisting(jarFileName) in tailAtt)
            && Succeeded(att, delivery, throws, DeleteIfExists(jarFileName))
  {
    var td, tail := TearDownPlan(name, jarFileName), InstallPlan(name, jarFileName) + [Systemctl(Start, name)];
    var tailAtt := Attempted(tail, delivery, throws);
    var att := td + tailAtt;
    KnownPlanContinues(name, jarFileName, delivery, throws);
    AttemptedStopsAtFailure(tail, delivery, throws);
    assert att[|att| - 1] == tailAtt[|tailAtt| - 1];
    assert att[2] == DeleteIfExists(jarFileName);
  }

  /** When stop, disable and delete do not throw, the plan of a registered name gets past
      teardown: the delete is attempted and the action attempted last is not a teardown one. */
  lemma AttemptedPastTearDown(name: string, jarFileName: string, delivery: map<string, string>, throws: set<Action>)
    requires Systemctl(Stop, name) !in throws && Systemctl(Disable, name) !in throws && DeleteIfExists(jarFileName) !in throws
    ensures var att := Attempted(Plan(true, name, jarFileName), delivery, throws);
            && DeleteIfExists(jarFileName) in att
            && !StepErrorOf(att[|att| - 1], name).ServiceStopException?
            && !StepErrorOf(att[|att| - 1], name).ServiceDeregistrationException?
  {
    var td, tail := TearDownPlan(name, jarFileName), InstallPlan(name, jarFileName) + [Systemctl(Start, name)];
    assert AllSucceed(td, delivery, throws);
    assert Plan(true, name, jarFileName) == td + tail;
    AttemptedAppend(td, tail, delivery, throws);
    var tailAtt := Attempted(tail, delivery, throws);
    AttemptedCons(tail[0], tail[1..], delivery, throws);
    assert tail == [tail[0]] + tail[1..];
    var att := td + tailAtt;
    assert att[2] == DeleteIfExists(jarFileName);
    assert att[|att| - 1] == tailAtt[|tailAtt| - 1];
    AttemptedIsFailFast(tail, delivery, throws);
    assert tailAtt[|tailAtt| - 1] == tail[|tailAtt| - 1];
  }

  /** Copying over a file just deleted leaves the same directory as copying over the old one. */
  lemma DeleteThenCopy(installed: map<string, string>, file: string, content: string)
    ensures (installed - {file})[file := content] == installed[file := content]
  {
    assert (installed - {file})[file := content].Keys == installed[file := content].Keys;
  }

  // ---------------------------------------------------------------------------------------
  // Each step follows its part of the plan

  /** Teardown `r` on host `m` takes the teardown plan fail-fast, raises the exception of the
      action that threw, and changes the installed files only by deleting `jarFileName` when
      all of it succeeds. */
  ghost predicate TearDownFollows(m: Machine, throws: set<Action>, name: string, jarFileName: string, r: StepResult)
  {
    var plan := TearDownPlan(name, jarFileName);
    var att := Attempted(plan, m.delivery, throws);
    && r.host.trace == m.trace + att
    && r.host.delivery == m.delivery
    && (r.error.None? <==> AllSucceed(plan, m.delivery, throws))
    && (r.error.Some? ==> |att| > 0 && r.error.value == StepErrorOf(att[|att| - 1], name))
    && r.host.installed == if r.error.None? then m.installed - {jarFileName} else m.installed
  }

  /** Teardown follows the teardown plan (see `TearDownFollows`). */
  lemma TearDownFollowsPlan(m: Machine, throws: set<Action>, name: string, jarFileName: string)
    ensures TearDownFollows(m, throws, name, jarFileName, TearDown(m, throws, name, jarFileName))
  {
    var stop, disable, delete := Systemctl(Stop, name), Systemctl(Disable, name), DeleteIfExists(jarFileName);
    AttemptedOfThree(stop, disable, delete, m.delivery, throws);
    if Fails(m.delivery, throws, stop) {
    } else if Fails(m.delivery, throws, disable) {
    } else {
    }
  }

  /** The private `registerService` takes the install plan fail-fast, raises a registration
      exception when either action throws, and changes the installed files only by copying
      `jarFileName` from delivery, which happens exactly when the copy does not throw. */
  lemma InstallFollowsPlan(m: Machine, throws: set<Action>, service: SystemCtlService)
    ensures var r := InstallService(m, throws, service);
            var plan := InstallPlan(service.name, service.jarFileName);
            var att := Attempted(plan, m.delivery, throws);
            var copy := CopyReplaceExisting(service.jarFileName);
            && r.host.trace == m.trace + att
            && r.host.delivery == m.delivery
            && (r.error.None? <==> AllSucceed(plan, m.delivery, throws))
            && (r.error.Some? ==> r.error.value == StepErrorOf(att[|att| - 1], service.name))
            && r.host.installed == if Fails(m.delivery, throws, copy) then m.installed
                                   else m.installed[service.jarFileName := m.delivery[service.jarFileName]]
  {
    var d := m.delivery;
    AttemptedCons(Systemctl(Enable, service.name), [], d, throws);
    AttemptedCons(CopyReplaceExisting(service.jarFileName), [Systemctl(Enable, service.name)], d, throws);
  }

  /** What installing and starting does, stated against the install plan followed by start:
      the counter and descriptor are kept, the attempted actions are that plan cut at the
      first action that throws, 202 comes exactly when nothing throws and otherwise the
      exception of the action that threw, the descriptor is committed exactly when start is
      reached, and the installed files change only by the copy. */
  ghost predicate TailFollowsPlan(s: State, service: SystemCtlService, throws: set<Action>, out: Outcome)
  {
    var d := s.host.delivery;
    var plan := InstallPlan(service.name, service.jarFileName) + [Systemctl(Start, service.name)];
    var att := Attempted(plan, d, throws);
    && out.state.counter == s.counter
    && out.service == Some(service)
    && out.state.host.trace == s.host.trace + att
    && out.state.host.delivery == d
    && (out.response == Accepted202 <==> AllSucceed(plan, d, throws))
    && (out.response != Accepted202 ==> out.response == Failed(StepErrorOf(att[|att| - 1], service.name)))
    && out.state.serviceMap == (if Systemctl(Start, service.name) in att then s.serviceMap[service.name := service] else s.serviceMap)
    && out.state.host.installed == if Fails(d, throws, CopyReplaceExisting(service.jarFileName)) then s.host.installed
                                   else s.host.installed[service.jarFileName := d[service.jarFileName]]
  }

  /** Installing and starting follows the install plan and then start (see `TailFollowsPlan`). */
  lemma InstallAndStartFollowsPlan(s: State, service: SystemCtlService, throws: set<Action>)
    ensures TailFollowsPlan(s, service, throws, InstallAndStart(s, service, throws))
  {
    var d, name, jarFileName := s.host.delivery, service.name, service.jarFileName;
    var copy, enable, start := CopyReplaceExisting(jarFileName), Systemctl(Enable, name), Systemctl(Start, name);
    assert InstallPlan(name, jarFileName) + [start] == [copy, enable, start];
    AttemptedOfThree(copy, enable, start, d, throws);
    if Fails(d, throws, copy) {
    } else if Fails(d, throws, enable) {
    } else {
    }
  }

  // ---------------------------------------------------------------------------------------
  // A request follows its plan

  /** What a valid request that built `service` does, whatever the host does: it takes the
      next id; its host actions are the plan cut at the first action that throws; it answers
      202 exactly when no action throws and otherwise with the exception of the step whose
      action threw; it commits the new descriptor exactly when start is reached; and the
      installed files change only at the requested `jarFileName`: copied from delivery when
      the copy succeeds, else deleted when the teardown's delete succeeds. */
  ghost predicate MatchesPlan(s: State, service: SystemCtlService, throws: set<Action>, out: Outcome)
  {
    RunMatchesPlan(s, service, throws, out) && FilesMatchPlan(s, service, throws, out)
  }

  /** Everything of `MatchesPlan` but the installed files. */
  ghost predicate RunMatchesPlan(s: State, service: SystemCtlService, throws: set<Action>, out: Outcome)
  {
    var d := s.host.delivery;
    var name, jarFileName := service.name, service.jarFileName;
    var plan := Plan(name in s.serviceMap, name, jarFileName);
    var att := Attempted(plan, d, throws);
    && out.service == Some(service)
    && out.state.counter == s.counter + 1
    && out.state.host.trace == s.host.trace + att
    && out.state.host.delivery == d
    && (out.response == Accepted202 <==> AllSucceed(plan, d, throws))
    && (out.response != Accepted202 ==> out.response == Failed(StepErrorOf(att[|att| - 1], name)))
    && out.state.serviceMap == (if Systemctl(Start, name) in att then s.serviceMap[name := service] else s.serviceMap)
  }

  /** The installed-files part of `MatchesPlan`. */
  ghost predicate FilesMatchPlan(s: State, service: SystemCtlService, throws: set<Action>, out: Outcome)
  {
    var d := s.host.delivery;
    var jarFileName := service.jarFileName;
    var att := Attempted(Plan(service.name in s.serviceMap, service.name, jarFileName), d, throws);
    out.state.host.installed ==
         if Succeeded(att, d, throws, CopyReplaceExisting(jarFileName)) then s.host.installed[jarFileName := d[jarFileName]]
         else if Succeeded(att, d, throws, DeleteIfExists(jarFileName)) then s.host.installed - {jarFileName}
         else s.host.installed
  }

  /** A first-time name: only copy, enable and start are planned. */
  lemma {:induction false} NewNameMatchesPlan(s: State, service: SystemCtlService, throws: set<Action>, out: Outcome)
    requires service.name !in s.serviceMap
    requires TailFollowsPlan(State(s.counter + 1, s.serviceMap, s.host), service, throws, out)
    ensures MatchesPlan(s, service, throws, out)
  {
    assert Plan(false, service.name, service.jarFileName)
        == InstallPlan(service.name, service.jarFileName) + [Systemctl(Start, service.name)];
  }

  /** A registered name whose teardown `r` throws: the request ends there. */
  lemma {:induction false} TearDownFailsMatchesPlan(s: State, service: SystemCtlService, throws: set<Action>, r: StepResult)
    requires service.name in s.serviceMap
    requires TearDownFollows(s.host, throws, service.name, service.jarFileName, r) && r.error.Some?
    ensures MatchesPlan(s, service, throws, Outcome(State(s.counter + 1, s.serviceMap, r.host), Failed(r.error.value), Some(service)))
  {
    KnownPlanTearDownFails(service.name, service.jarFileName, s.host.delivery, throws);
  }

  /** What follows a successful teardown `r`, stated over the outcome `out` of installing
      and starting on the host it left behind. */
  lemma {:induction false} AfterTearDownMatchesPlan(s: State, service: SystemCtlService, throws: set<Action>, r: StepResult, out: Outcome)
    requires service.name in s.serviceMap
    requires TearDownFollows(s.host, throws, service.name, service.jarFileName, r) && r.error.None?
    requires TailFollowsPlan(State(s.counter + 1, s.serviceMap, r.host), service, throws, out)
    ensures MatchesPlan(s, service, throws, out)
  {
    AfterTearDownRunMatchesPlan(s, service, throws, r, out);
    AfterTearDownFilesMatchPlan(s, service, throws, r, out);
  }

  /** The part of `AfterTearDownMatchesPlan` other than the installed files. */
  lemma {:induction false} AfterTearDownRunMatchesPlan(s: State, service: SystemCtlService, throws: set<Action>, r: StepResult, out: Outcome)
    requires service.name in s.serviceMap
    requires TearDownFollows(s.host, throws, service.name, service.jarFileName, r) && r.error.None?
    requires TailFollowsPlan(State(s.counter + 1, s.serviceMap, r.host), service, throws, out)
    ensures RunMatchesPlan(s, service, throws, out)
  {
    var d, name := s.host.delivery, service.name;
    var td, tail := TearDownPlan(name, service.jarFileName), InstallPlan(name, service.jarFileName) + [Systemctl(Start, name)];
    var att, tailAtt := Attempted(Plan(true, name, service.jarFileName), d, throws), Attempted(tail, d, throws);
    KnownPlanAfterTearDown(name, service.jarFileName, d, throws);
    assert out.state.host.trace == s.host.trace + att by {
      assert s.host.trace + td + tailAtt == s.host.trace + (td + tailAtt);
    }
    assert out.response != Accepted202 ==> out.response == Failed(StepErrorOf(att[|att| - 1], name));
    assert out.state.serviceMap == if Systemctl(Start, name) in att then s.serviceMap[name := service] else s.serviceMap;
  }

  /** The installed-files part of `AfterTearDownMatchesPlan`: the delete is followed by the copy, if any. */
  lemma {:induction false} AfterTearDownFilesMatchPlan(s: State, service: SystemCtlService, throws: set<Action>, r: StepResult, out: Outcome)
    requires service.name in s.serviceMap
    requires TearDownFollows(s.host, throws, service.name, service.jarFileName, r) && r.error.None?
    requires TailFollowsPlan(State(s.counter + 1, s.serviceMap, r.host), service, throws, out)
    ensures FilesMatchPlan(s, service, throws, out)
  {
    var d, jarFileName := s.host.delivery, service.jarFileName;
    KnownPlanAfterTearDown(service.name, jarFileName, d, throws);
    if !Fails(d, throws, CopyReplaceExisting(jarFileName)) {
      DeleteThenCopy(s.host.installed, jarFileName, d[jarFileName]);
    }
  }

  /** Every valid request follows its plan (see `MatchesPlan`). */
  lemma RegisterMatchesPlan(s: State, name: string, content: string, jarFileName: string, throws: set<Action>)
    ensures MatchesPlan(s, SystemCtlService(s.counter + 1, name, content, jarFileName), throws,
                        RegisterService(s, Some(name), Some(content), Some(jarFileName), throws))
  {
    var service := SystemCtlService(s.counter + 1, name, content, jarFileName);
    if name !in s.serviceMap {
      var s1 := State(s.counter + 1, s.serviceMap, s.host);
      InstallAndStartFollowsPlan(s1, service, throws);
      NewNameMatchesPlan(s, service, throws, InstallAndStart(s1, service, throws));
    } else {
      var teardown := TearDown(s.host, throws, name, jarFileName);
      TearDownFollowsPlan(s.host, throws, name, jarFileName);
      if teardown.error.Some? {
        TearDownFailsMatchesPlan(s, service, throws, teardown);
      } else {
        var s1 := State(s.counter + 1, s.serviceMap, teardown.host);
        InstallAndStartFollowsPlan(s1, service, throws);
        AfterTearDownMatchesPlan(s, service, throws, teardown, InstallAndStart(s1, service, throws));
      }
    }
  }

  // ---------------------------------------------------------------------------------------
  // Properties of one request

  /** A request missing any of the three parameters is answered 404 and changes nothing: no id
      is taken, the registry is untouched and no host action is issued; a complete request is
      never answered 404. */
  lemma RegisterRejectsIncomplete(s: State, serviceName: Option<string>, serviceFileContents: Option<string>,
                                  serviceJarFileName: Option<string>, throws: set<Action>)
    ensures var out := RegisterService(s, serviceName, serviceFileContents, serviceJarFileName, throws);
            (out.response == NotFound404 <==> serviceName.None? || serviceFileContents.None? || serviceJarFileName.None?)
            && (out.response == NotFound404 ==> out.state == s && out.service.None?)
  {
    if serviceName.Some? && serviceFileContents.Some? && serviceJarFileName.Some? {
      RegisterMatchesPlan(s, serviceName.value, serviceFileContents.value, serviceJarFileName.value, throws);
    }
  }

  /** A complete request builds its descriptor with id = previous counter + 1 and leaves the
      counter there, whatever happens to it afterwards. */
  lemma RegisterTakesNextId(s: State, name: string, content: string, jarFileName: string, throws: set<Action>)
    ensures var out := RegisterService(s, Some(name), Some(content), Some(jarFileName), throws);
            && out.state.counter == s.counter + 1
            && out.service == Some(SystemCtlService(s.counter + 1, name, content, jarFileName))
  {
    RegisterMatchesPlan(s, name, content, jarFileName, throws);
  }

  /** Teardown runs exactly for a name already in the registry, and then first of all; a
      first-time name issues only (a prefix of) copy, enable, start. */
  lemma TeardownIffRegistered(s: State, name: string, content: string, jarFileName: string, throws: set<Action>)
    ensures var out := RegisterService(s, Some(name), Some(content), Some(jarFileName), throws);
            var trace := out.state.host.trace;
            && |trace| > |s.host.trace|
            && trace[..|s.host.trace|] == s.host.trace
            && (Systemctl(Stop, name) in trace[|s.host.trace|..] <==> name in s.serviceMap)
            && (name in s.serviceMap ==> trace[|s.host.trace|] == Systemctl(Stop, name))
            && (name !in s.serviceMap ==>
                  trace[|s.host.trace|..] <= [CopyReplaceExisting(jarFileName), Systemctl(Enable, name), Systemctl(Start, name)])
  {
    var att := Attempted(Plan(name in s.serviceMap, name, jarFileName), s.host.delivery, throws);
    RegisterMatchesPlan(s, name, content, jarFileName, throws);
    AttemptedStartsWithTearDown(name in s.serviceMap, name, jarFileName, s.host.delivery, throws);
    var trace := RegisterService(s, Some(name), Some(content), Some(jarFileName), throws).state.host.trace;
    assert trace[|s.host.trace|..] == att;
    assert trace[|s.host.trace|] == att[0];
  }

  /** Fail-fast: the actions `out` issued are a prefix of the plan; every one but the last
      succeeded; the response is 202 exactly when the whole plan was issued and nothing
      threw; and a failure response names the step of the last action issued, which threw:
      stop gives a stop exception, disable and delete a deregistration exception, copy and
      enable a registration exception, start a start exception. */
  ghost predicate AbortsAtFirstFailure(s: State, name: string, jarFileName: string, throws: set<Action>, out: Outcome)
    requires |s.host.trace| <= |out.state.host.trace|
  {
    var d := s.host.delivery;
    var issued := out.state.host.trace[|s.host.trace|..];
    var plan := Plan(name in s.serviceMap, name, jarFileName);
    && issued <= plan
    && (out.response == Accepted202 <==> issued == plan && AllSucceed(plan, d, throws))
    && (forall i :: 0 <= i < |issued| - 1 ==> !Fails(d, throws, issued[i]))
    && (out.response.Failed? ==>
          |issued| > 0 && Fails(d, throws, issued[|issued| - 1])
          && out.response.error == StepErrorOf(issued[|issued| - 1], name))
  }

  /** Any outcome that follows the plan aborts at the first failure. */
  lemma PlanAbortsAtFirstFailure(s: State, service: SystemCtlService, throws: set<Action>, out: Outcome)
    requires MatchesPlan(s, service, throws, out)
    ensures |s.host.trace| <= |out.state.host.trace|
    ensures AbortsAtFirstFailure(s, service.name, service.jarFileName, throws, out)
  {
    var plan := Plan(service.name in s.serviceMap, service.name, service.jarFileName);
    AttemptedEndsAtFirstFailure(plan, s.host.delivery, throws);
    assert out.state.host.trace[|s.host.trace|..] == Attempted(plan, s.host.delivery, throws);
  }

  /** The first action that throws aborts all later ones, and the response names its step
      (see `AbortsAtFirstFailure`). */
  lemma RegisterAbortsAtFirstFailure(s: State, name: string, content: string, jarFileName: string, throws: set<Action>)
    ensures var out := RegisterService(s, Some(name), Some(content), Some(jarFileName), throws);
            |s.host.trace| <= |out.state.host.trace| && AbortsAtFirstFailure(s, name, jarFileName, throws, out)
  {
    var service := SystemCtlService(s.counter + 1, name, content, jarFileName);
    RegisterMatchesPlan(s, name, content, jarFileName, throws);
    PlanAbortsAtFirstFailure(s, service, throws, RegisterService(s, Some(name), Some(content), Some(jarFileName), throws));
  }

  /** The descriptor is committed to the registry at one point: after the registration step
      succeeds and before start. So the registry is exactly as before when stop, deregistration
      or registration throws (an old descriptor stays even after its service was torn down),
      and maps the name to the new descriptor, every other key unchanged, when the request
      succeeds or only its start throws. */
  lemma RegisterCommitPoint(s: State, name: string, content: string, jarFileName: string, throws: set<Action>)
    ensures var out := RegisterService(s, Some(name), Some(content), Some(jarFileName), throws);
            var service := SystemCtlService(s.counter + 1, name, content, jarFileName);
            out.state.serviceMap ==
              if out.response == Accepted202 || out.response == Failed(ServiceStartException(name))
              then s.serviceMap[name := service]
              else s.serviceMap
  {
    var d := s.host.delivery;
    RegisterMatchesPlan(s, name, content, jarFileName, throws);
    StartAttempted(name in s.serviceMap, name, jarFileName, d, throws);
  }

  /** Teardown deletes the installed file named by the new request, whatever file the old
      descriptor named. */
  lemma TeardownDeletesRequestedJar(s: State, name: string, content: string, jarFileName: string, throws: set<Action>)
    ensures var issued := RegisterService(s, Some(name), Some(content), Some(jarFileName), throws).state.host.trace[|s.host.trace|..];
            forall a :: a in issued && a.DeleteIfExists? ==> a == DeleteIfExists(jarFileName)
  {
    RegisterMatchesPlan(s, name, content, jarFileName, throws);
    AttemptedDeletesOnlyJar(name in s.serviceMap, name, jarFileName, s.host.delivery, throws);
    var out := RegisterService(s, Some(name), Some(content), Some(jarFileName), throws);
    assert out.state.host.trace[|s.host.trace|..] == Attempted(Plan(name in s.serviceMap, name, jarFileName), s.host.delivery, throws);
  }

  /** Deleting an installed file that is not there is no error: when stop, disable and delete
      do not throw, a registered name gets past teardown, whether or not `jarFileName` is
      installed, and the delete was issued. */
  lemma TeardownToleratesAbsentJar(s: State, name: string, content: string, jarFileName: string, throws: set<Action>)
    requires name in s.serviceMap
    requires Systemctl(Stop, name) !in throws && Systemctl(Disable, name) !in throws && DeleteIfExists(jarFileName) !in throws
    ensures var out := RegisterService(s, Some(name), Some(content), Some(jarFileName), throws);
            && DeleteIfExists(jarFileName) in out.state.host.trace[|s.host.trace|..]
            && out.response != Failed(ServiceStopException(name))
            && out.response != Failed(ServiceDeregistrationException(name))
  {
    var att := Attempted(Plan(true, name, jarFileName), s.host.delivery, throws);
    RegisterMatchesPlan(s, name, content, jarFileName, throws);
    AttemptedPastTearDown(name, jarFileName, s.host.delivery, throws);
    var out := RegisterService(s, Some(name), Some(content), Some(jarFileName), throws);
    assert out.state.host.trace[|s.host.trace|..] == att;
  }

  /** The installed files change only at `jarFileName`, and once the request is past
      registration (202, or only start threw) the installed `jarFileName` is the delivered one. */
  ghost predicate InstallsArtifact(s: State, name: string, jarFileName: string, out: Outcome)
  {
    var installed := out.state.host.installed;
    && out.state.host.delivery == s.host.delivery
    && (forall f :: f != jarFileName ==>
          (f in installed <==> f in s.host.installed) && (f in installed ==> installed[f] == s.host.installed[f]))
    && (out.response == Accepted202 || out.response == Failed(ServiceStartException(name)) ==>
          jarFileName in s.host.delivery && installed == s.host.installed[jarFileName := s.host.delivery[jarFileName]])
  }

  /** Any outcome that follows the plan installs the artifact and nothing else. */
  lemma PlanInstallsArtifact(s: State, service: SystemCtlService, throws: set<Action>, out: Outcome)
    requires MatchesPlan(s, service, throws, out)
    ensures InstallsArtifact(s, service.name, service.jarFileName, out)
  {
    var d := s.host.delivery;
    var name, jarFileName := service.name, service.jarFileName;
    var plan := Plan(name in s.serviceMap, name, jarFileName);
    StartAttempted(name in s.serviceMap, name, jarFileName, d, throws);
    AttemptedIsFailFast(plan, d, throws);
    var att := Attempted(plan, d, throws);
    if out.response == Accepted202 || out.response == Failed(ServiceStartException(name)) {
      var copy := CopyReplaceExisting(jarFileName);
      var k := |plan| - 3;
      assert plan[k] == copy;
      assert copy in att && !Fails(d, throws, copy);
    }
  }

  /** Registration puts the delivered artifact in place, replacing any installed file of that
      name, and no other installed file changes (see `InstallsArtifact`). */
  lemma RegisterInstallsArtifact(s: State, name: string, content: string, jarFileName: string, throws: set<Action>)
    ensures InstallsArtifact(s, name, jarFileName, RegisterService(s, Some(name), Some(content), Some(jarFileName), throws))
  {
    var service := SystemCtlService(s.counter + 1, name, content, jarFileName);
    RegisterMatchesPlan(s, name, content, jarFileName, throws);
    PlanInstallsArtifact(s, service, throws, RegisterService(s, Some(name), Some(content), Some(jarFileName), throws));
  }

  /** Because teardown deletes the file named by the new request, a re-registration under a
      different `jarFileName` leaves the file of the old descriptor installed, unchanged. */
  lemma ReregistrationKeepsOldJar(s: State, name: string, content: string, jarFileName: string, throws: set<Action>)
    requires name in s.serviceMap && s.serviceMap[name].jarFileName != jarFileName
    requires s.serviceMap[name].jarFileName in s.host.installed
    ensures var installed := RegisterService(s, Some(name), Some(content), Some(jarFileName), throws).state.host.installed;
            var oldJar := s.serviceMap[name].jarFileName;
            oldJar in installed && installed[oldJar] == s.host.installed[oldJar]
  {
    RegisterInstallsArtifact(s, name, content, jarFileName, throws);
  }

  /** The registry invariant survives every request. */
  lemma RegisterPreservesValid(s: State, serviceName: Option<string>, serviceFileContents: Option<string>,
                               serviceJarFileName: Option<string>, throws: set<Action>)
    requires Valid(s)
    ensures Valid(RegisterService(s, serviceName, serviceFileContents, serviceJarFileName, throws).state)
  {
    if serviceName.Some? && serviceFileContents.Some? && serviceJarFileName.Some? {
      RegisterCommitPoint(s, serviceName.value, serviceFileContents.value, serviceJarFileName.value, throws);
      RegisterTakesNextId(s, serviceName.value, serviceFileContents.value, serviceJarFileName.value, throws);
    }
  }
}
