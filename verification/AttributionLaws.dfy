/** What a report with passed results must hold, field by field. */
module AttributionLaws {
  import opened Attribution
  import opened Coverage

  const HEXADECIMAL := {'0', '1', '2', '3', '4', '5', '6', '7', '8', '9', 'a', 'b', 'c', 'd', 'e', 'f'}

  /** Sixty-four lower-case hexadecimal digits. */
  predicate Hash(s: string) { |s| == 64 && forall c :: c in s ==> c in HEXADECIMAL }

  lemma HashIsSha256(s: string)
    ensures Hash(s) <==> IsSha256(s)
  {
    if Hash(s) {
      forall k | 0 <= k < 64 ensures '0' <= s[k] <= '9' || 'a' <= s[k] <= 'f' {
        assert s[k] in s;
      }
    }
    if IsSha256(s) {
      forall c | c in s ensures c in HEXADECIMAL {
        var k :| 0 <= k < |s| && s[k] == c;
        Digit(c);
      }
    }
  }

  lemma Digit(c: char)
    requires '0' <= c <= '9' || 'a' <= c <= 'f'
    ensures c in HEXADECIMAL
  {
  }

  /** Target, versions and times, the command, its configuration, its adapters and the fixture. */
  predicate NamesTarget(s: Subject) {
    && s.target != "" && s.version != "" && s.started != "" && s.finished != ""
    && s.selected.cli.path != "" && Hash(s.selected.cli.sha256) && Hash(s.selected.configuration)
    && |s.selected.adapters| > 0
    && (forall a :: a in s.selected.adapters ==> a.path != "" && Hash(a.sha256))
    && s.fixture.path != "" && Hash(s.fixture.sha256)
  }

  predicate NamesLibrary(s: Subject) {
    s.driven.file.path != "" && Hash(s.driven.file.sha256) && s.driven.version != "" && Hash(s.driven.client)
  }

  /** A remark with data and nothing of a command, or a command with its arguments and its result, and
      with both traces if it is of the library. */
  predicate SoundCommand(c: Command) {
    (c.observation.Some? ==> c.observation.value.text != "" && c.observation.value.data && c.observation.value.alone)
    && (c.observation.None? ==>
          && |c.record.argv| > 0 && c.record.argv[0] != "" && c.completed
          && (c.record.interface == "library" ==> c.traced && "" !in c.record.apiCalls && "" !in c.record.signals))
  }

  /** Sound commands, one of them at the interface of the case. */
  predicate ShowsCommands(r: Result) {
    (forall c :: c in r.evidence ==> SoundCommand(c))
    && exists c :: c in r.evidence && c.record.interface == r.key.driver
  }

  lemma SelectedIfNamed(s: Subject)
    ensures NamesTarget(s) <==> Selected(s)
    ensures NamesLibrary(s) <==> LibrarySelected(s)
  {
    forall h ensures Hash(h) <==> IsSha256(h) {
      HashIsSha256(h);
    }
    hide Hash, IsSha256;
    var texts := [s.target, s.version, s.started, s.finished];
    assert AllText(texts) <==> texts[0] != "" && texts[1] != "" && texts[2] != "" && texts[3] != "";
    if Selected(s) {
      forall a | a in s.selected.adapters ensures IsNamed(a) {
      }
    }
  }

  lemma CommandIfSound(c: Command)
    ensures SoundCommand(c) <==> CommandOk(c)
  {
    assert forall names: seq<string> :: AllText(names) <==> "" !in names;
  }

  lemma EvidencedIfShown(r: Result)
    ensures ShowsCommands(r) <==> Evidenced(r.key.driver, r.evidence)
  {
    forall c ensures SoundCommand(c) <==> CommandOk(c) {
      CommandIfSound(c);
    }
    hide SoundCommand, CommandOk;
    if Evidenced(r.key.driver, r.evidence) {
      var i :| 0 <= i < |r.evidence| && r.evidence[i].record.interface == r.key.driver;
      assert r.evidence[i] in r.evidence;
    }
    if ShowsCommands(r) {
      var c :| c in r.evidence && c.record.interface == r.key.driver;
      var i :| 0 <= i < |r.evidence| && r.evidence[i] == c;
    }
  }

  /** A report is attributed exactly if, once a result has passed, it names what was run and was found
      unchanged, names the library if a library case has passed, and shows the commands of every
      passed result. */
  lemma {:induction false} AttributedByFields(s: Subject, results: seq<Result>)
    ensures Attributed(s, results) <==>
              ((exists r :: r in results && r.status == "passed") ==>
                 && NamesTarget(s) && s.verified
                 && ((exists r :: r in results && r.status == "passed" && r.key.driver == "library") ==>
                       NamesLibrary(s))
                 && forall r :: r in results && r.status == "passed" ==> ShowsCommands(r))
  {
    SelectedIfNamed(s);
    forall r: Result ensures ShowsCommands(r) <==> Evidenced(r.key.driver, r.evidence) {
      EvidencedIfShown(r);
    }
    hide NamesTarget, Selected, NamesLibrary, LibrarySelected, ShowsCommands, Evidenced;
    assert forall r: Result :: Passed(r) <==> r.status == "passed";
  }
}
