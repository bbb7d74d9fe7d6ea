/** The module loading protocol on the files themselves: dependencies are what .modinfo sections ask for. */
module ModuleFiles {
  import opened Graphs
  import opened Tokens
  import opened Modinfo
  import opened ModuleNames
  import opened ModuleLoader
  import opened LoaderCompletion

  /** The protocol's view of a kernel build: the .modinfo section of every module that has a file. */
  function ConfigOf(sections: map<string, string>, start: seq<string>): Config {
    Config(map n | n in sections :: Requests(sections[n], 0, KEY), start)
  }

  /** The section is a NUL-padded rendering of records, of which the first with the key lists these names. */
  ghost predicate Describes(section: string, names: seq<string>) {
    && (forall k | 0 <= k < |names| :: Tokens.Plain(names[k], ','))
    && exists lead, records :: Renders(section, lead, records, names)
  }

  ghost predicate Renders(section: string, lead: nat, records: seq<Record>, names: seq<string>) {
    var k := FirstWith(records, KEY);
    && Proper(records) && Rendered(section, 0, lead, records)
    && (k == |records| ==> names == [])
    && (k < |records| ==> records[k].text == KEY + ['='] + Join(names, ','))
  }

  lemma SectionAsks(section: string, names: seq<string>)
    requires Describes(section, names)
    ensures Requests(section, 0, KEY) == names
  {
    var lead, records :| Renders(section, lead, records, names);
    if FirstWith(records, KEY) < |records| {
      NamesRequested(section, lead, records, KEY, '=', names);
    } else {
      RequestsOfRendering(section, 0, lead, records, KEY);
    }
  }

  /** Sections that describe the dependencies configure the protocol with these dependencies. */
  lemma ConfigIs(sections: map<string, string>, deps: map<string, seq<string>>, start: seq<string>)
    requires sections.Keys == deps.Keys && forall n | n in sections :: Describes(sections[n], deps[n])
    ensures ConfigOf(sections, start) == Config(deps, start)
  {
    forall n | n in sections ensures Requests(sections[n], 0, KEY) == deps[n] {
      SectionAsks(sections[n], deps[n]);
    }
    assert ConfigOf(sections, start).files == deps;
  }

  ghost predicate EveryFairRunLoads(cfg: Config, workers: nat) {
    forall f | Fair(f, workers) :: exists k: nat :: Joined(At(cfg, f, workers, k))
  }

  lemma AcyclicLoads(cfg: Config, workers: nat)
    requires NoCycle(DepGraph(cfg), Names(cfg.start)) && AllFilesExist(cfg)
    ensures EveryFairRunLoads(cfg, workers)
  {
    AcyclicIff(DepGraph(cfg), Names(cfg.start));
    forall f | Fair(f, workers) ensures exists k: nat :: Joined(At(cfg, f, workers, k)) {
      FairCompletes(cfg, f, workers);
    }
  }

  /**
   From section bytes to the joined map: some schedule loads everything exactly if the dependencies the
   sections describe have no cycle and every module has a file; and then every fair schedule does.
   */
  lemma LoadsFromSections(sections: map<string, string>, deps: map<string, seq<string>>, start: seq<string>,
    workers: nat)
    requires workers > 0
    requires sections.Keys == deps.Keys && forall n | n in sections :: Describes(sections[n], deps[n])
    ensures (exists order :: Schedule(workers, order) && Joined(After(ConfigOf(sections, start), workers, order)))
       <==> NoCycle(DepGraph(Config(deps, start)), Names(start)) && AllFilesExist(Config(deps, start))
    ensures NoCycle(DepGraph(Config(deps, start)), Names(start)) && AllFilesExist(Config(deps, start)) ==>
              EveryFairRunLoads(ConfigOf(sections, start), workers)
  {
    var cfg := Config(deps, start);
    ConfigIs(sections, deps, start);
    LoadsIffNoCycle(cfg, workers);
    if NoCycle(DepGraph(cfg), Names(start)) && AllFilesExist(cfg) {
      AcyclicLoads(cfg, workers);
    }
  }
}
