/** The host the workflow drives: the systemctl service manager, the delivery directory
    the new artifact is read from and the application home directory it is installed in.
    Directories are maps from file name to content; every action taken is appended to a trace. */
module Host {

  datatype Verb = Stop | Disable | Enable | Start

  /** One host action: a `systemctl <verb> <unit>` command, `Files.deleteIfExists` of an
      installed file, or `Files.copy(..., REPLACE_EXISTING)` from delivery to installation. */
  datatype Action =
    | Systemctl(verb: Verb, unit: string)
    | DeleteIfExists(file: string)
    | CopyReplaceExisting(file: string)

  datatype Machine = Machine(installed: map<string, string>, delivery: map<string, string>, trace: seq<Action>)

  /** Whether action `a` throws. The oracle `throws` stands for everything the model does not
      see: failing to create the temporary output file, to spawn the process or to read its
      output for a command, and I/O errors for the file operations. The exit status of a
      command is never inspected, so a command that runs and fails does not throw. The one
      failure the model does see: copying a file that is absent from the delivery directory. */
  predicate Fails(delivery: map<string, string>, throws: set<Action>, a: Action)
  {
    a in throws || (a.CopyReplaceExisting? && a.file !in delivery)
  }

  /** Performs `a` on `m`; the boolean is false when the action threw. */
  function Perform(m: Machine, throws: set<Action>, a: Action): (r: (Machine, bool))
    ensures r.1 <==> !Fails(m.delivery, throws, a)
    ensures r.0.trace == m.trace + [a] && r.0.delivery == m.delivery
    // deleting an installed file that does not exist is not an error
    ensures a.DeleteIfExists? && a !in throws ==> r.1 && r.0.installed == m.installed - {a.file}
    ensures a.CopyReplaceExisting? && r.1 ==> r.0.installed == m.installed[a.file := m.delivery[a.file]]
    // a command, or an action that threw, leaves the installed files alone
    ensures a.Systemctl? || !r.1 ==> r.0.installed == m.installed
  {
    var ok := !Fails(m.delivery, throws, a);
    var installed :=
      if !ok then m.installed
      else match a
        case Systemctl(_, _) => m.installed
        case DeleteIfExists(f) => m.installed - {f}
        case CopyReplaceExisting(f) => m.installed[f := m.delivery[f]];
    (Machine(installed, m.delivery, m.trace + [a]), ok)
  }

  /** The host as mutable state. */
  class HostMachine {
    var installed: map<string, string>
    var delivery: map<string, string>
    var trace: seq<Action>

    function View(): Machine
      reads this
    {
      Machine(installed, delivery, trace)
    }

    constructor (installed: map<string, string>, delivery: map<string, string>)
      ensures View() == Machine(installed, delivery, [])
    {
      this.installed := installed;
      this.delivery := delivery;
      trace := [];
    }

    /** `execute("systemctl", verb, unit)`: succeeds unless the oracle says it throws. */
    method Execute(verb: Verb, unit: string, throws: set<Action>) returns (ok: bool)
      modifies this
      ensures (View(), ok) == Perform(old(View()), throws, Systemctl(verb, unit))
    {
      trace := trace + [Systemctl(verb, unit)];
      ok := Systemctl(verb, unit) !in throws;
    }

    /** `Files.deleteIfExists(File(appHomeDir, file))`. */
    method DeleteIfExists(file: string, throws: set<Action>) returns (ok: bool)
      modifies this
      ensures (View(), ok) == Perform(old(View()), throws, Action.DeleteIfExists(file))
    {
      trace := trace + [Action.DeleteIfExists(file)];
      ok := Action.DeleteIfExists(file) !in throws;
      if ok {
        installed := installed - {file};
      }
    }

    /** `Files.copy(File(deliveryDir, file), File(appHomeDir, file), REPLACE_EXISTING)`. */
    method Copy(file: string, throws: set<Action>) returns (ok: bool)
      modifies this
      ensures (View(), ok) == Perform(old(View()), throws, CopyReplaceExisting(file))
    {
      trace := trace + [CopyReplaceExisting(file)];
      ok := CopyReplaceExisting(file) !in throws && file in delivery;
      if ok {
        installed := installed[file := delivery[file]];
      }
    }
  }
}
