/** What a report must say about its subject and its commands before passed cases give credit. */
module Attribution {
  import opened Options
  import opened OptionInvocation

  /** An artifact; absent fields are empty. */
  datatype Artifact = Artifact(path: string, sha256: string)

  /** The selected target and its adapters. */
  datatype Target = Target(cli: Artifact, configuration: string, adapters: seq<Artifact>)

  /** The library and the client that drives it. */
  datatype Library = Library(file: Artifact, version: string, client: string)

  datatype Subject = Subject(target: string, version: string, started: string, finished: string,
                             selected: Target, fixture: Artifact, driven: Library, verified: bool)

  /** A remark beside the commands; `alone` says that it has neither arguments nor an interface. */
  datatype Observation = Observation(text: string, data: bool, alone: bool)

  /** A piece of evidence; `completed` says that it has an exit status and both streams, `traced`
      that it has a list of calls and one of signals. */
  datatype Command = Command(record: Record, completed: bool, traced: bool, observation: Option<Observation>)

  predicate IsSha256(s: string) {
    |s| == 64 && forall k :: 0 <= k < 64 ==> '0' <= s[k] <= '9' || 'a' <= s[k] <= 'f'
  }

  predicate IsNamed(a: Artifact) { a.path != "" && IsSha256(a.sha256) }

  predicate AllText(names: seq<string>) { forall i :: 0 <= i < |names| ==> names[i] != "" }

  /** Target, adapters and fixture are named with their hashes. */
  predicate Selected(s: Subject) {
    && AllText([s.target, s.version, s.started, s.finished])
    && IsNamed(s.selected.cli) && IsSha256(s.selected.configuration)
    && s.selected.adapters != []
    && (forall i :: 0 <= i < |s.selected.adapters| ==> IsNamed(s.selected.adapters[i]))
    && IsNamed(s.fixture)
  }

  predicate LibrarySelected(s: Subject) {
    IsNamed(s.driven.file) && s.driven.version != "" && IsSha256(s.driven.client)
  }

  predicate CommandOk(c: Command) {
    match c.observation
    case Some(o) => o.text != "" && o.data && o.alone
    case None =>
      && c.record.argv != [] && c.record.argv[0] != "" && c.completed
      && (c.record.interface == "library" ==> c.traced && AllText(c.record.apiCalls) && AllText(c.record.signals))
  }

  /** The evidence of a passed case: sound commands, one of them at the interface of its driver. */
  predicate Evidenced(driver: string, evidence: seq<Command>) {
    && (forall i :: 0 <= i < |evidence| ==> CommandOk(evidence[i]))
    && exists i :: 0 <= i < |evidence| && evidence[i].record.interface == driver
  }
}
