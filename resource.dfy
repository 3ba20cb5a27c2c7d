/** `ServiceRegistrationResource` as an object: its `counter` and `serviceMap` fields are
    updated in place by `RegisterService`, and each host action goes through the shared host.
    Every method is proved to do what the corresponding function of `Workflow` says, so the
    properties proved there hold of the object. */
module Resource {
  import opened Wrappers
  import opened Models
  import opened Host
  import Workflow

  class ServiceRegistrationResource {
    /** `counter`: the last id handed out (an `AtomicLong` starting at 0). */
    var counter: nat
    /** `serviceMap`: service name to the descriptor last committed for it. */
    var serviceMap: map<string, SystemCtlService>
    /** The host the resource acts on: the systemd units and the two directories. */
    const host: HostMachine

    /** The resource's fields and the host, as the value the workflow functions take. */
    function Snapshot(): Workflow.State
      reads this, host
    {
      Workflow.State(counter, serviceMap, host.View())
    }

    constructor (host: HostMachine)
      ensures counter == 0 && serviceMap == map[] && this.host == host
      ensures Workflow.Valid(Snapshot())
    {
      counter := 0;
      serviceMap := map[];
      this.host := host;
    }

    /** The public `registerService`: a missing parameter is answered 404 without touching
        anything; otherwise a new id is taken, a registered name is stopped and deregistered,
        the new artifact is installed and enabled, the descriptor is committed, and the service
        is started; the first step that throws ends the request with its exception. */
    method RegisterService(serviceName: Option<string>, serviceFileContents: Option<string>,
                           serviceJarFileName: Option<string>, throws: set<Action>)
      returns (response: Workflow.Response)
      modifies this, host
      ensures var out := Workflow.RegisterService(old(Snapshot()), serviceName, serviceFileContents, serviceJarFileName, throws);
              Snapshot() == out.state && response == out.response
      ensures Workflow.Valid(old(Snapshot())) ==> Workflow.Valid(Snapshot())
    {
      ghost var s := Snapshot();
      if serviceName.None? || serviceFileContents.None? || serviceJarFileName.None? {
        response := Workflow.NotFound404;
      } else {
        counter := counter + 1;
        var service := SystemCtlService(counter, serviceName.value, serviceFileContents.value, serviceJarFileName.value);
        var error := None;
        if service.name in serviceMap {
          error := TearDown(service.name, service.jarFileName, throws);
        }
        if error.Some? {
          response := Workflow.Failed(error.value);
        } else {
          response := InstallAndStart(service, throws);
        }
      }
      ghost var out := Workflow.RegisterService(s, serviceName, serviceFileContents, serviceJarFileName, throws);
      assert Snapshot() == out.state && response == out.response;
      if Workflow.Valid(s) {
        Workflow.RegisterPreservesValid(s, serviceName, serviceFileContents, serviceJarFileName, throws);
      }
    }

    /** The teardown of an already registered name inside the public `registerService`:
        `stopService`, then `deRegisterService` unless the stop threw. */
    method TearDown(name: string, jarFileName: string, throws: set<Action>) returns (error: Option<Workflow.StepError>)
      modifies host
      ensures Workflow.StepResult(host.View(), error) == Workflow.TearDown(old(host.View()), throws, name, jarFileName)
    {
      error := StopService(name, throws);
      if error.None? {
        error := DeRegisterService(name, jarFileName, throws);
      }
    }

    /** The tail of the public `registerService`: register the new service, commit its
        descriptor to `serviceMap`, then start it. */
    method InstallAndStart(service: SystemCtlService, throws: set<Action>) returns (response: Workflow.Response)
      modifies this, host
      ensures var out := Workflow.InstallAndStart(old(Snapshot()), service, throws);
              Snapshot() == out.state && response == out.response
    {
      var error := InstallService(service, throws);
      if error.Some? {
        return Workflow.Failed(error.value);
      }
      serviceMap := serviceMap[service.name := service];
      error := StartService(service.name, throws);
      if error.Some? {
        return Workflow.Failed(error.value);
      }
      return Workflow.Accepted202;
    }

    /** `startService`: `systemctl start name`; throwing becomes a start exception. */
    method StartService(name: string, throws: set<Action>) returns (error: Option<Workflow.StepError>)
      modifies host
      ensures Workflow.StepResult(host.View(), error) == Workflow.StartService(old(host.View()), throws, name)
    {
      var ok := host.Execute(Start, name, throws);
      error := if ok then None else Some(Workflow.ServiceStartException(name));
    }

    /** `stopService`: `systemctl stop name`; throwing becomes a stop exception. */
    method StopService(name: string, throws: set<Action>) returns (error: Option<Workflow.StepError>)
      modifies host
      ensures Workflow.StepResult(host.View(), error) == Workflow.StopService(old(host.View()), throws, name)
    {
      var ok := host.Execute(Stop, name, throws);
      error := if ok then None else Some(Workflow.ServiceStopException(name));
    }

    /** `deRegisterService`: disable, then delete the installed `jarFileName`; either throwing
        becomes a deregistration exception. */
    method DeRegisterService(name: string, jarFileName: string, throws: set<Action>) returns (error: Option<Workflow.StepError>)
      modifies host
      ensures Workflow.StepResult(host.View(), error) == Workflow.DeRegisterService(old(host.View()), throws, name, jarFileName)
    {
      var ok := host.Execute(Disable, name, throws);
      if !ok {
        return Some(Workflow.ServiceDeregistrationException(name));
      }
      ok := host.DeleteIfExists(jarFileName, throws);
      error := if ok then None else Some(Workflow.ServiceDeregistrationException(name));
    }

    /** The private `registerService`: copy the artifact from delivery into place, then
        `systemctl enable`; either throwing becomes a registration exception. */
    method InstallService(service: SystemCtlService, throws: set<Action>) returns (error: Option<Workflow.StepError>)
      modifies host
      ensures Workflow.StepResult(host.View(), error) == Workflow.InstallService(old(host.View()), throws, service)
    {
      var ok := host.Copy(service.jarFileName, throws);
      if !ok {
        return Some(Workflow.ServiceRegistrationException(service.name));
      }
      ok := host.Execute(Enable, service.name, throws);
      error := if ok then None else Some(Workflow.ServiceRegistrationException(service.name));
    }
  }
}
