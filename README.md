# systemctl-service-generator: registration workflow in Dafny

This project models the two HTTP endpoints of systemctl-service-generator that register
services:

- `ServiceRegistrationResource` (`POST /service-registration`). A request names a systemd
  service, gives its unit-file text and names its JAR artifact. The resource then does this:
  - It answers 404 if any of the three parameters is missing.
  - Otherwise it takes the next id from its counter and builds a descriptor.
  - If the name is already in its in-memory registry, it tears the old service down:
    `systemctl stop`, then `systemctl disable`, then it deletes the installed JAR.
  - It copies the new JAR from the delivery directory into the application home directory,
    replacing any file there, and runs `systemctl enable`.
  - It commits the descriptor to the registry and runs `systemctl start`.
  - It answers 202. The first step that throws ends the request with that step's exception.
- `Daemon` (`POST /daemon`). It answers 404 without its parameter. Otherwise it takes the
  next id from its own counter and answers 202 with a descriptor holding the id and the text.

The files:

- `host.dfy` (`Host`): the host, with a `HostMachine` class whose fields are the installed
  files, the delivered files and the trace of actions issued.
  - Each `systemctl` command, `Files.deleteIfExists` and `Files.copy` is a method on that
    class. Each is proved equal to the function `Perform`.
  - Which actions throw is an input, the oracle `throws: set<Action>`. Nothing decides it
    except one case: copying a JAR that was never delivered always throws.
- `workflow.dfy` (`Workflow`): the resource as functions over a `State` (counter, registry,
  host).
  - It defines the reference `Plan`: the actions a request takes when nothing throws.
  - It defines `Attempted`: that plan cut at the first action that throws.
  - It proves that every complete request follows its plan (`RegisterMatchesPlan`), and
    derives the properties one request has from that.
- `resource.dfy` (`Resource`): `ServiceRegistrationResource` as a class. `counter` and
  `serviceMap` are updated in place. Every method is proved to do what its `Workflow`
  function says.
- `history.dfy` (`History`): any sequence of requests. It proves the ids are consecutive,
  the registry keeps the last descriptor committed under each name, and the registry
  invariant holds throughout.
- `daemon.dfy` (`DaemonEndpoint`): the `Daemon` class and the ids it hands out over a
  sequence of requests.
- `models.dfy` and `wrappers.dfy`: the descriptor and `Option`.

Behaviour of the code that the model keeps on purpose:

- Teardown deletes the installed file named by the NEW request's `jarFileName`, not the old
  descriptor's (`ServiceRegistrationResource.kt:84`). Re-registering under a different file
  name therefore leaves the old JAR in place (`Workflow.ReregistrationKeepsOldJar`).
- The descriptor is committed before `systemctl start` (lines 89-99). A request whose start
  throws therefore stays registered.
- The id is taken before teardown (line 72). A request that fails later still uses up an id.
- The only check on the name is that it is present. An empty name is accepted.
- A command's exit status is never inspected (lines 162-194). A command "fails" only when
  the oracle says it throws.

## Model

| member | source | states |
|---|---|---|
| Host.Perform | src/main/kotlin/com/zakrywilson/systemctl/service/generator/resources/ServiceRegistrationResource.kt:130-152 | An action fails exactly when the oracle says it throws, or when it is a copy of a file absent from delivery. Deleting an absent installed file is no error. A successful copy replaces the installed file with the delivered one. A command, or an action that threw, leaves the installed files alone. Every action is appended to the trace. |
| Host.HostMachine.Execute | src/main/kotlin/com/zakrywilson/systemctl/service/generator/resources/ServiceRegistrationResource.kt:162-194 | Running `systemctl <verb> <unit>` changes the host exactly as `Perform` says. It reports failure only if the command throws, never because of its exit status. |
| Host.HostMachine.DeleteIfExists | src/main/kotlin/com/zakrywilson/systemctl/service/generator/resources/ServiceRegistrationResource.kt:133-135 | Deleting an installed file changes the host exactly as `Perform` says. |
| Host.HostMachine.Copy | src/main/kotlin/com/zakrywilson/systemctl/service/generator/resources/ServiceRegistrationResource.kt:149-152 | Copying from delivery with REPLACE_EXISTING changes the host exactly as `Perform` says. |
| Workflow.StopService | src/main/kotlin/com/zakrywilson/systemctl/service/generator/resources/ServiceRegistrationResource.kt:115-123 | Issues `systemctl stop name` and changes no file. It raises a stop exception exactly when the command throws. |
| Workflow.DeRegisterService | src/main/kotlin/com/zakrywilson/systemctl/service/generator/resources/ServiceRegistrationResource.kt:125-139 | Issues disable, then the delete only if disable did not throw. It succeeds exactly when neither throws, and then the installed file is gone. Any failure is a deregistration exception, and the files are then untouched. |
| Workflow.InstallService | src/main/kotlin/com/zakrywilson/systemctl/service/generator/resources/ServiceRegistrationResource.kt:141-159 | Issues the copy, then enable only if the copy did not throw. It succeeds exactly when neither throws. The installed file is the delivered one exactly when the copy succeeded. Any failure is a registration exception. |
| Workflow.StartService | src/main/kotlin/com/zakrywilson/systemctl/service/generator/resources/ServiceRegistrationResource.kt:105-113 | Issues `systemctl start name` and changes no file. It raises a start exception exactly when the command throws. |
| Workflow.RegisterService | src/main/kotlin/com/zakrywilson/systemctl/service/generator/resources/ServiceRegistrationResource.kt:49-103 | The public `registerService`. It answers 404 exactly when a parameter is missing, and otherwise takes id counter + 1. Its full behaviour is stated by `Workflow.RegisterMatchesPlan`: the plan cut at the first action that throws, the answer, the commit and the installed files. |
| Workflow.TearDown | src/main/kotlin/com/zakrywilson/systemctl/service/generator/resources/ServiceRegistrationResource.kt:78-86 | Teardown of a registered name. It never touches delivery and can raise only a stop or a deregistration exception. Its full behaviour is stated by `Workflow.TearDownFollowsPlan`. |
| Workflow.InstallAndStart | src/main/kotlin/com/zakrywilson/systemctl/service/generator/resources/ServiceRegistrationResource.kt:88-102 | Install, commit and start. It keeps the counter and the descriptor, never answers 404, and can fail only with a registration or a start exception. Its full behaviour is stated by `Workflow.InstallAndStartFollowsPlan`. |
| Workflow.TearDownFollowsPlan | src/main/kotlin/com/zakrywilson/systemctl/service/generator/resources/ServiceRegistrationResource.kt:81-84 | Teardown issues stop, disable, delete, cut at the first that throws. It succeeds exactly when none throws, and otherwise raises the exception of the step that threw. The files change only by the delete, when everything succeeded. |
| Workflow.InstallFollowsPlan | src/main/kotlin/com/zakrywilson/systemctl/service/generator/resources/ServiceRegistrationResource.kt:141-159 | The private `registerService` issues copy then enable, cut at the first that throws. It succeeds exactly when neither throws. It installs the delivered JAR exactly when the copy did not throw. |
| Workflow.InstallAndStartFollowsPlan | src/main/kotlin/com/zakrywilson/systemctl/service/generator/resources/ServiceRegistrationResource.kt:88-102 | Install, commit and start issue copy, enable, start, cut at the first that throws. The answer is 202 exactly when none throws, and otherwise that step's exception. The descriptor is committed exactly when start is reached. |
| Workflow.RegisterMatchesPlan | src/main/kotlin/com/zakrywilson/systemctl/service/generator/resources/ServiceRegistrationResource.kt:72-102 | A complete request takes the next id, and its host actions are its plan cut at the first action that throws. It answers 202 exactly when nothing throws, and otherwise with the failing step's exception. It commits exactly when start is reached. It changes only the requested installed file. |
| Workflow.RegisterRejectsIncomplete | src/main/kotlin/com/zakrywilson/systemctl/service/generator/resources/ServiceRegistrationResource.kt:57-61 | 404 comes exactly when some parameter is missing. A 404 request changes nothing and builds no descriptor. |
| Workflow.RegisterTakesNextId | src/main/kotlin/com/zakrywilson/systemctl/service/generator/resources/ServiceRegistrationResource.kt:72-75 | A complete request builds its descriptor with id counter + 1 and the given name, text and file name, whatever happens afterwards. It leaves the counter at that id. |
| Workflow.TeardownIffRegistered | src/main/kotlin/com/zakrywilson/systemctl/service/generator/resources/ServiceRegistrationResource.kt:77-86 | A stop is issued exactly when the name is already registered, and then it is the first action. A new name issues only a prefix of copy, enable, start. |
| Workflow.RegisterAbortsAtFirstFailure | src/main/kotlin/com/zakrywilson/systemctl/service/generator/resources/ServiceRegistrationResource.kt:81-99 | The actions issued are a prefix of the plan, and all but the last succeeded. The answer is 202 exactly when the whole plan ran and nothing threw. A failure answer names the step of the last action issued, which threw. |
| Workflow.RegisterCommitPoint | src/main/kotlin/com/zakrywilson/systemctl/service/generator/resources/ServiceRegistrationResource.kt:89-99 | The registry maps the name to the new descriptor, every other key unchanged, exactly when the answer is 202 or a start exception. After a stop, deregistration or registration failure it is unchanged. |
| Workflow.TeardownDeletesRequestedJar | src/main/kotlin/com/zakrywilson/systemctl/service/generator/resources/ServiceRegistrationResource.kt:84 | The only file a request deletes is the one named by its own `jarFileName`. |
| Workflow.TeardownToleratesAbsentJar | src/main/kotlin/com/zakrywilson/systemctl/service/generator/resources/ServiceRegistrationResource.kt:135 | Take a registered name whose stop, disable and delete do not throw. Whether or not its file is installed, the delete is issued and the request gets past teardown. |
| Workflow.RegisterInstallsArtifact | src/main/kotlin/com/zakrywilson/systemctl/service/generator/resources/ServiceRegistrationResource.kt:148-152 | No installed file other than `jarFileName` changes, and delivery never changes. Once past registration, the installed `jarFileName` is the delivered one. |
| Workflow.ReregistrationKeepsOldJar | src/main/kotlin/com/zakrywilson/systemctl/service/generator/resources/ServiceRegistrationResource.kt:133-135 | Re-registering a name under a different file name leaves the old descriptor's installed file in place, unchanged. |
| Workflow.RegisterPreservesValid | src/main/kotlin/com/zakrywilson/systemctl/service/generator/resources/ServiceRegistrationResource.kt:90 | Every registry entry is keyed by its descriptor's name and has an id already issued, and each request keeps this so. |
| Resource.ServiceRegistrationResource.constructor | src/main/kotlin/com/zakrywilson/systemctl/service/generator/resources/ServiceRegistrationResource.kt:39-41 | The counter starts at 0 and the registry empty, which satisfies the registry invariant. |
| Resource.ServiceRegistrationResource.RegisterService | src/main/kotlin/com/zakrywilson/systemctl/service/generator/resources/ServiceRegistrationResource.kt:49-103 | The fields and the host after the call, and the answer, are those of `Workflow.RegisterService`. The registry invariant is preserved. |
| Resource.ServiceRegistrationResource.TearDown | src/main/kotlin/com/zakrywilson/systemctl/service/generator/resources/ServiceRegistrationResource.kt:78-86 | The host and the exception are those of `Workflow.TearDown`. |
| Resource.ServiceRegistrationResource.InstallAndStart | src/main/kotlin/com/zakrywilson/systemctl/service/generator/resources/ServiceRegistrationResource.kt:88-102 | The fields, the host and the answer are those of `Workflow.InstallAndStart`. |
| Resource.ServiceRegistrationResource.StartService | src/main/kotlin/com/zakrywilson/systemctl/service/generator/resources/ServiceRegistrationResource.kt:105-113 | The host and the exception are those of `Workflow.StartService`. |
| Resource.ServiceRegistrationResource.StopService | src/main/kotlin/com/zakrywilson/systemctl/service/generator/resources/ServiceRegistrationResource.kt:115-123 | The host and the exception are those of `Workflow.StopService`. |
| Resource.ServiceRegistrationResource.DeRegisterService | src/main/kotlin/com/zakrywilson/systemctl/service/generator/resources/ServiceRegistrationResource.kt:125-139 | The host and the exception are those of `Workflow.DeRegisterService`. |
| Resource.ServiceRegistrationResource.InstallService | src/main/kotlin/com/zakrywilson/systemctl/service/generator/resources/ServiceRegistrationResource.kt:141-159 | The host and the exception are those of `Workflow.InstallService`. |
| History.RunTakesConsecutiveIds | src/main/kotlin/com/zakrywilson/systemctl/service/generator/resources/ServiceRegistrationResource.kt:72 | Over any run, the i-th complete request gets id counter + i + 1, incomplete requests take none, and the counter ends at the last id issued. |
| History.RunRegistryLastWriteWins | src/main/kotlin/com/zakrywilson/systemctl/service/generator/resources/ServiceRegistrationResource.kt:90 | After any run, each name maps to the descriptor last committed under it, or keeps its earlier entry if none was committed. |
| History.RunPreservesValid | src/main/kotlin/com/zakrywilson/systemctl/service/generator/resources/ServiceRegistrationResource.kt:41 | The registry invariant holds after any run that starts where it holds. |
| DaemonEndpoint.Daemon.constructor | src/main/java/com/zakrywilson/systemctl/service/generator/Daemon.java:20-22 | The counter starts at 0. |
| DaemonEndpoint.Daemon.Register | src/main/java/com/zakrywilson/systemctl/service/generator/Daemon.java:24-32 | Without the parameter: 404 and the counter unchanged. Otherwise the counter goes up by one and the answer is 202 with the new id and the given text. |
| DaemonEndpoint.Handle | src/main/java/com/zakrywilson/systemctl/service/generator/Daemon.java:26-31 | One `register` call. It answers 404 exactly when the parameter is absent, and then leaves the counter alone. Otherwise it answers 202 with counter + 1 and the given text. Its behaviour over any sequence of calls is stated by `DaemonEndpoint.ReplayIds`. |
| DaemonEndpoint.ReplayIds | src/main/java/com/zakrywilson/systemctl/service/generator/Daemon.java:26-31 | Over a sequence of requests, each is answered 404 exactly when it lacks the parameter. Otherwise its descriptor holds its own text and the id counter + (present requests so far, itself included). |
| DaemonEndpoint.ReplayIdsIncrease | src/main/java/com/zakrywilson/systemctl/service/generator/Daemon.java:30 | Ids of accepted requests strictly increase in request order, so no two share an id. |

## Left out

- `execute`'s internals are not modelled: the temporary output file, the process, reading its output, logging and `waitFor` (and the interrupt it swallows). They can only throw or not, which is the oracle `throws`.
- A failing copy or delete is assumed to leave the installed files as they were. Partial effects of a failing I/O operation are not modelled.
- Concurrency is not modelled: requests are handled one at a time. So is the atomicity of `AtomicLong` and the unsynchronised `serviceMap` reassignment.
- Ids are unbounded `nat`s. The 64-bit wrap-around of `AtomicLong` after 2^63 - 1 requests is not modelled, in either endpoint.
- An exception escaping `registerService` is modelled as `Failed(error)`. How the HTTP framework maps it to a 5xx response is not modelled, and neither is the exception's message or cause.
- `ping` (`GET /info`) only returns the injected `ServiceInfo` and is not modelled. Nor are dependency injection, configuration, `App.kt` or `App.java`.
- The directories `appHomeDir` and `deliveryDir` are the two maps of the host. Their path strings and any aliasing between them are not modelled.
- The debug logging that dumps the request and the registry is not modelled.
