/** The AutoMoc object of kde4automoc.cpp: one run over a target's manifest. Its member
    flags and flag lists change step by step, so it is a class. The classification
    methods compute the Classification functions, the flag methods the Flags functions,
    and the moc loops follow Replay, which generateMoc's decisions and the moc outcomes
    determine. */
module AutoMocTool {
  import opened Text
  import opened Scanner
  import opened Disk
  import opened Classification
  import opened Flags
  import opened Aggregator

  /** How a run ends: the fatal exit for a moc include whose header is missing, a
      failed moc run (nothing written), an aggregator left as it was, or a write. */
  datatype Verdict = Aborted(source: Path, moc: string) | FailedRun | Unchanged | Written

  /** The header extensions of a case-sensitive non-Windows, non-macOS build, in the
      order they are tried. */
  const UnixHeaderExtensions: seq<string> := [".h", ".hpp", ".hxx", ".H"]

  /** The manifest's source list. */
  function SourceList(m: Manifest): seq<Path> {
    Split(Trimmed(m.sources), ';')
  }

  /** The arguments moc is started with. */
  function MocArguments(m: Manifest, mocPath: Path, source: Path): seq<string> {
    IncludeFlags(m) + DefinitionFlags(m) + ["-o", mocPath, source]
  }

  /** The contents of the previous aggregator file, if there is one. */
  function Previous(fs: FileSystem, outfile: Path): Option<string> {
    if outfile in fs then Some(fs[outfile].contents) else None
  }

  /** utime(): the file gets the new modification time; a missing file stays missing. */
  function Touch(fs: FileSystem, p: Path, time: int): FileSystem {
    if p in fs then fs[p := FileEntry(fs[p].contents, time)] else fs
  }

  /** Touching creates and removes no file, keeps every contents and changes only the
      time of p. */
  lemma TouchSetsTime(fs: FileSystem, p: Path, time: int)
    ensures Touch(fs, p, time).Keys == fs.Keys
    ensures p in fs ==> Touch(fs, p, time)[p] == FileEntry(fs[p].contents, time)
    ensures forall q :: q in fs && q != p ==> Touch(fs, p, time)[q] == fs[q]
  {
  }

  /** The values of m for the keys in order. */
  function ValuesOf(order: seq<Path>, m: map<Path, string>): (vs: seq<string>)
    requires forall i :: 0 <= i < |order| ==> order[i] in m
    ensures |vs| == |order|
    ensures forall i :: 0 <= i < |order| ==> vs[i] == m[order[i]]
    decreases |order|
  {
    if order == [] then [] else ValuesOf(order[..|order| - 1], m) + [m[order[|order| - 1]]]
  }

  /** order lists every key of keys exactly once. */
  predicate IsEnumeration(order: seq<Path>, keys: set<Path>) {
    && (forall i :: 0 <= i < |order| ==> order[i] in keys)
    && (forall k :: k in keys ==> k in order)
    && (forall i, j :: 0 <= i < j < |order| ==> order[i] != order[j])
  }

  /** The state of a loop that takes keys out of todo one at a time and appends them to
      order: order holds the keys already taken, each once. */
  predicate Enumerating(order: seq<Path>, todo: set<Path>, keys: set<Path>) {
    && todo <= keys
    && (forall i :: 0 <= i < |order| ==> order[i] in keys && order[i] !in todo)
    && (forall k :: k in keys ==> k in todo || k in order)
    && (forall i, j :: 0 <= i < j < |order| ==> order[i] != order[j])
  }

  lemma EnumeratingStep(order: seq<Path>, todo: set<Path>, keys: set<Path>, key: Path)
    requires Enumerating(order, todo, keys) && key in todo
    ensures Enumerating(order + [key], todo - {key}, keys)
  {
    var order' := order + [key];
    forall k | k in keys
      ensures k in todo - {key} || k in order'
    {
      if k == key {
        assert order'[|order|] == key;
      } else if k !in todo {
        var i :| 0 <= i < |order| && order[i] == k;
        assert order'[i] == k;
      }
    }
  }

  /** A loop that has taken every key has enumerated them. */
  lemma EnumeratingDone(order: seq<Path>, keys: set<Path>)
    requires Enumerating(order, {}, keys)
    ensures IsEnumeration(order, keys)
    ensures keys != {} ==> order != []
  {
    if keys != {} {
      var k :| k in keys;
      assert k in order;
    }
  }

  /** What every generateMoc call of one run shares: generateAll, the build directory,
      the manifest the arguments come from, the moc process and the time. */
  datatype Batch = Batch(all: bool, dir: Path, manifest: Manifest, moc: MocProcess, now: int)

  /** The file system after a sequence of generateMoc calls, and their attempts. */
  datatype Replayed = Replayed(fs: FileSystem, attempts: seq<Attempt>)

  /** One generateMoc call for source with moc name mocName on fs: moc runs into
      dir + mocName when generateAll holds or that file is not newer than the source. */
  function GenerateOne(b: Batch, fs: FileSystem, source: Path, mocName: string): Replayed {
    var mocPath := b.dir + mocName;
    if NeedsRegeneration(b.all, fs, mocPath, source) then
      var run := b.moc(MocArguments(b.manifest, mocPath, source));
      Replayed(AfterRun(fs, mocPath, run, b.now), [Attempt(source, mocPath, run)])
    else
      Replayed(fs, [])
  }

  /** generateMoc for the keys of m in the order visits, starting on fs. */
  function Replay(b: Batch, fs: FileSystem, m: map<Path, string>, visits: seq<Path>): Replayed
    requires forall i :: 0 <= i < |visits| ==> visits[i] in m
    decreases |visits|
  {
    if visits == [] then Replayed(fs, [])
    else
      var prev := Replay(b, fs, m, visits[..|visits| - 1]);
      var key := visits[|visits| - 1];
      var one := GenerateOne(b, prev.fs, key, m[key]);
      Replayed(one.fs, prev.attempts + one.attempts)
  }

  /** The attempt generateMoc makes for source when it runs moc. */
  function AttemptOf(b: Batch, source: Path, mocName: string): Attempt {
    var mocPath := b.dir + mocName;
    Attempt(source, mocPath, b.moc(MocArguments(b.manifest, mocPath, source)))
  }

  /** Each attempt is for a visited key, into the build directory plus its moc name,
      with the arguments built from the manifest; there is at most one per visit. */
  lemma {:induction false} ReplayAttempts(b: Batch, fs: FileSystem, m: map<Path, string>, visits: seq<Path>)
    requires forall i :: 0 <= i < |visits| ==> visits[i] in m
    ensures var r := Replay(b, fs, m, visits);
      && |r.attempts| <= |visits|
      && forall i :: 0 <= i < |r.attempts| ==>
           r.attempts[i].source in visits && r.attempts[i] == AttemptOf(b, r.attempts[i].source, m[r.attempts[i].source])
    decreases |visits|
  {
    if visits != [] {
      var init := visits[..|visits| - 1];
      ReplayAttempts(b, fs, m, init);
      var r := Replay(b, fs, m, visits);
      var prev := Replay(b, fs, m, init);
      forall i | 0 <= i < |r.attempts|
        ensures r.attempts[i].source in visits
      {
        if i < |prev.attempts| {
          assert r.attempts[i] == prev.attempts[i];
          var k :| 0 <= k < |init| && init[k] == r.attempts[i].source;
          assert visits[k] == init[k];
        }
      }
    }
  }

  /** Under generateAll every visit makes exactly one attempt, in the order of the
      visits. */
  lemma {:induction false} ReplayUnderGenerateAll(b: Batch, fs: FileSystem, m: map<Path, string>, visits: seq<Path>)
    requires forall i :: 0 <= i < |visits| ==> visits[i] in m
    requires b.all
    ensures var r := Replay(b, fs, m, visits);
      && |r.attempts| == |visits|
      && forall i :: 0 <= i < |visits| ==> r.attempts[i] == AttemptOf(b, visits[i], m[visits[i]])
    decreases |visits|
  {
    if visits != [] {
      var init := visits[..|visits| - 1];
      ReplayUnderGenerateAll(b, fs, m, init);
      var r := Replay(b, fs, m, visits);
      var prev := Replay(b, fs, m, init);
      forall i | 0 <= i < |visits|
        ensures r.attempts[i] == AttemptOf(b, visits[i], m[visits[i]])
      {
        if i < |init| {
          assert r.attempts[i] == prev.attempts[i] && visits[i] == init[i];
        }
      }
    }
  }

  /** A loop that visits every key once runs moc at most once per key. */
  lemma {:induction false} ReplayOncePerKey(b: Batch, fs: FileSystem, m: map<Path, string>, visits: seq<Path>)
    requires forall i :: 0 <= i < |visits| ==> visits[i] in m
    requires forall i, j :: 0 <= i < j < |visits| ==> visits[i] != visits[j]
    ensures var r := Replay(b, fs, m, visits);
      forall i, j :: 0 <= i < j < |r.attempts| ==> r.attempts[i].source != r.attempts[j].source
    decreases |visits|
  {
    if visits != [] {
      var init := visits[..|visits| - 1];
      var key := visits[|visits| - 1];
      ReplayOncePerKey(b, fs, m, init);
      ReplayAttempts(b, fs, m, init);
      var r := Replay(b, fs, m, visits);
      var prev := Replay(b, fs, m, init);
      forall i, j | 0 <= i < j < |r.attempts|
        ensures r.attempts[i].source != r.attempts[j].source
      {
        if j >= |prev.attempts| {
          assert r.attempts[j].source == key;
          assert r.attempts[i] == prev.attempts[i];
          var k :| 0 <= k < |init| && init[k] == r.attempts[i].source;
          assert visits[k] == init[k];
        } else {
          assert r.attempts[i] == prev.attempts[i] && r.attempts[j] == prev.attempts[j];
        }
      }
    }
  }

  /** No file other than the moc files of the visits is created, removed or changed. */
  lemma {:induction false} ReplayKeepsOtherFiles(b: Batch, fs: FileSystem, m: map<Path, string>, visits: seq<Path>, p: Path)
    requires forall i :: 0 <= i < |visits| ==> visits[i] in m
    requires forall i :: 0 <= i < |visits| ==> p != b.dir + m[visits[i]]
    ensures var r := Replay(b, fs, m, visits);
      (p in r.fs <==> p in fs) && (p in fs ==> r.fs[p] == fs[p])
    decreases |visits|
  {
    if visits != [] {
      ReplayKeepsOtherFiles(b, fs, m, visits[..|visits| - 1], p);
    }
  }

  /** Which visits run moc when generateAll does not hold: a visit whose moc file and
      source no earlier visit writes is decided on the file system the loop started
      from, by whether its moc file is missing or not newer than its source. */
  lemma ReplayDecidesOnStartingFiles(b: Batch, fs: FileSystem, m: map<Path, string>, visits: seq<Path>, i: nat)
    requires forall k :: 0 <= k < |visits| ==> visits[k] in m
    requires i < |visits|
    requires forall j :: 0 <= j < i ==>
      b.dir + m[visits[j]] != b.dir + m[visits[i]] && b.dir + m[visits[j]] != visits[i]
    ensures var key := visits[i];
      Replay(b, fs, m, visits[..i + 1]).attempts
        == Replay(b, fs, m, visits[..i]).attempts
           + if NeedsRegeneration(b.all, fs, b.dir + m[key], key) then [AttemptOf(b, key, m[key])] else []
  {
    var key := visits[i];
    var init := visits[..i];
    assert visits[..i + 1][..i] == init;
    ReplayKeepsOtherFiles(b, fs, m, init, b.dir + m[key]);
    ReplayKeepsOtherFiles(b, fs, m, init, key);
    var prev := Replay(b, fs, m, init);
    assert LastModified(prev.fs, b.dir + m[key]) == LastModified(fs, b.dir + m[key]);
    assert LastModified(prev.fs, key) == LastModified(fs, key);
  }

  /** The state once generateMoc has run for the keys of m in the order visits,
      starting from the file system fs, the log start and the definitions flag done:
      the log and the disk are those Replay gives, and the definitions have been read
      when they had been before or some moc ran. */
  predicate Replays(b: Batch, fs: FileSystem, start: seq<Attempt>, done: bool, m: map<Path, string>, visits: seq<Path>,
                    log: seq<Attempt>, disk: FileSystem, definitionsDone: bool)
  {
    && (forall i :: 0 <= i < |visits| ==> visits[i] in m)
    && var r := Replay(b, fs, m, visits);
       && log == start + r.attempts
       && disk == r.fs
       && (definitionsDone <==> done || r.attempts != [])
  }

  /** One more generateMoc call extends the replay by one visit. */
  lemma ReplaysStep(b: Batch, fs: FileSystem, start: seq<Attempt>, done: bool, m: map<Path, string>, visits: seq<Path>,
                    key: Path, log: seq<Attempt>, disk: FileSystem, definitionsDone: bool,
                    log': seq<Attempt>, disk': FileSystem, definitionsDone': bool)
    requires Replays(b, fs, start, done, m, visits, log, disk, definitionsDone) && key in m
    requires var one := GenerateOne(b, disk, key, m[key]);
      && log' == log + one.attempts && disk' == one.fs
      && (definitionsDone' <==> definitionsDone || one.attempts != [])
    ensures Replays(b, fs, start, done, m, visits + [key], log', disk', definitionsDone')
  {
    var vs := visits + [key];
    assert vs[..|vs| - 1] == visits && vs[|vs| - 1] == key;
    assert forall i :: 0 <= i < |vs| ==> vs[i] in m;
    var r := Replay(b, fs, m, visits);
    var one := GenerateOne(b, disk, key, m[key]);
    assert Replay(b, fs, m, vs) == Replayed(one.fs, r.attempts + one.attempts);
    assert log' == start + (r.attempts + one.attempts);
  }

  /** The mocs of run(): the claimed files in the order claimedOrder, then the unclaimed
      ones in the order order, each once, from the file system fs and the log start; log
      and after are the log and the file system Replay gives, and changed records
      whether a process for an unclaimed file started. */
  predicate MocsRan(b: Batch, t: MocTable, claimedOrder: seq<Path>, order: seq<Path>, fs: FileSystem,
                    start: seq<Attempt>, log: seq<Attempt>, after: FileSystem, changed: bool)
  {
    && IsEnumeration(claimedOrder, t.included.Keys)
    && IsEnumeration(order, t.notIncluded.Keys)
    && var c := Replay(b, fs, t.included, claimedOrder);
       var u := Replay(b, c.fs, t.notIncluded, order);
       && log == start + c.attempts + u.attempts
       && after == u.fs
       && (changed <==> StartedSince(log, |start| + |c.attempts|))
  }

  /** The mocs ran as MocsRan describes; text is the aggregator with the definitions
      recorded and the unclaimed moc names in visiting order, and asWritten is the text
      with the header as the source writes it, whose definitions line is empty unless
      they had been read before (done) or a moc for a claimed file ran. */
  predicate Aggregated(b: Batch, t: MocTable, text: string, asWritten: string, claimedOrder: seq<Path>,
                       order: seq<Path>, fs: FileSystem, start: seq<Attempt>, done: bool, log: seq<Attempt>,
                       after: FileSystem, changed: bool)
  {
    && MocsRan(b, t, claimedOrder, order, fs, start, log, after, changed)
    && text == AggregatorText(Join(DefinitionFlags(b.manifest), ' '), ValuesOf(order, t.notIncluded))
    && var c := Replay(b, fs, t.included, claimedOrder);
       asWritten == AggregatorText(if done || c.attempts != [] then Join(DefinitionFlags(b.manifest), ' ') else [],
                                   ValuesOf(order, t.notIncluded))
  }

  /** The loop over the claimed files followed by the loop over the unclaimed ones. */
  lemma MocsRanInSequence(b: Batch, t: MocTable, claimedOrder: seq<Path>, order: seq<Path>, fs: FileSystem,
                          start: seq<Attempt>, done: bool, claimed: seq<Attempt>, mid: FileSystem, midDone: bool,
                          nextDone: bool, log: seq<Attempt>, after: FileSystem, afterDone: bool, changed: bool)
    requires IsEnumeration(claimedOrder, t.included.Keys) && IsEnumeration(order, t.notIncluded.Keys)
    requires Replays(b, fs, start, done, t.included, claimedOrder, claimed, mid, midDone)
    requires Replays(b, mid, claimed, nextDone, t.notIncluded, order, log, after, afterDone)
    requires changed <==> StartedSince(log, |claimed|)
    ensures MocsRan(b, t, claimedOrder, order, fs, start, log, after, changed)
  {
    var c := Replay(b, fs, t.included, claimedOrder);
    var u := Replay(b, c.fs, t.notIncluded, order);
    assert log == start + c.attempts + u.attempts;
  }

  /** Some moc process started from position `from` on. */
  predicate StartedSince(log: seq<Attempt>, from: nat) {
    exists i :: from <= i < |log| && !log[i].run.FailedToStart?
  }

  lemma StartedSinceSnoc(log: seq<Attempt>, a: Attempt, from: nat)
    requires from <= |log|
    ensures StartedSince(log + [a], from) <==> StartedSince(log, from) || !a.run.FailedToStart?
  {
    var log' := log + [a];
    if StartedSince(log, from) {
      var i :| from <= i < |log| && !log[i].run.FailedToStart?;
      assert log'[i] == log[i];
    }
    if !a.run.FailedToStart? {
      assert log'[|log|] == a;
    }
    if StartedSince(log', from) {
      var i :| from <= i < |log'| && !log'[i].run.FailedToStart?;
      if i < |log| {
        assert log'[i] == log[i];
      }
    }
  }

  /** The definitions line of a run that recorded the current definitions reads back as
      those definitions, so the next run with the same manifest does not regenerate
      everything. */
  lemma WrittenOutputIsStable(m: Manifest, mocs: seq<string>)
    ensures !GenerateAllFor(Some(AggregatorText(Join(DefinitionFlags(m), ' '), mocs)), DefinitionFlags(m))
  {
    DefinitionFlagsShape(m);
    JoinHasNoNewline(DefinitionFlags(m));
    RecordedDefinitionsRoundTrip(Join(DefinitionFlags(m), ' '), mocs);
  }

  /** Definitions that are all present join to a non-empty line. */
  lemma {:induction false} JoinOfFlagsIsNotEmpty(defs: seq<string>)
    requires defs != [] && forall i :: 0 <= i < |defs| ==> StartsWith(defs[i], "-D")
    ensures Join(defs, ' ') != []
  {
    if |defs| > 1 {
      assert |Join(defs, ' ')| >= |defs[0]|;
    }
  }

  /** A file whose header was written before any definitions were read records an
      empty line; when the manifest has definitions, the next run then regenerates
      every moc although nothing changed. */
  lemma UnrecordedDefinitionsForceRegeneration(m: Manifest, mocs: seq<string>)
    requires DefinitionFlags(m) != []
    ensures GenerateAllFor(Some(AggregatorText(Join([], ' '), mocs)), DefinitionFlags(m))
  {
    DefinitionFlagsShape(m);
    JoinOfFlagsIsNotEmpty(DefinitionFlags(m));
    RecordedDefinitionsRoundTrip([], mocs);
  }

  /** The manifest of a target compiled with the single definition FOO. */
  const FooManifest := Manifest("a.cpp", "FOO", "", "", "", "/b", "/s")

  /** For that target the definitions are the one flag -DFOO, so a file written with an
      empty definitions line makes the next run regenerate everything. */
  lemma FooManifestRegeneratesEverything()
    ensures DefinitionFlags(FooManifest) == ["-DFOO"]
    ensures GenerateAllFor(Some(AggregatorText(Join([], ' '), ["moc_a.cpp"])), DefinitionFlags(FooManifest))
  {
    assert Trimmed("FOO") == "FOO";
    assert FieldEnd("FOO", ';', 3) == 3;
    assert FieldEnd("FOO", ';', 0) == 3;
    assert "FOO"[..3] == "FOO" && "FOO"[3..] == [];
    assert Split("FOO", ';') == ["FOO"];
    var flags := Prefixed("-D", ["FOO"]);
    assert |flags| == 1 && flags[0] == "-D" + "FOO";
    assert "-D" + "FOO" == "-DFOO";
    assert flags == ["-DFOO"];
    UnrecordedDefinitionsForceRegeneration(FooManifest, ["moc_a.cpp"]);
  }

  class AutoMoc {
    const outfile: Path
    /** The build directory, always with a trailing '/'. */
    const builddir: Path
    const manifest: Manifest
    const headerExtensions: seq<string>
    /** Whether the command line ends with --touch. */
    const touchRequested: bool

    var disk: FileSystem
    var mocDefinitions: seq<string>
    var mocIncludes: seq<string>
    /** The once-flag of lazyInitMocDefinitions. */
    var definitionsDone: bool
    /** The once-flag of generateMoc that guards lazyInit. */
    var initialized: bool
    var failed: bool
    var automocCppChanged: bool
    var generateAll: bool
    var doTouch: bool
    /** Every moc invocation so far, in order. */
    ghost var log: seq<Attempt>

    ghost predicate Valid()
      reads this`mocDefinitions, this`definitionsDone, this`mocIncludes, this`initialized,
            this`doTouch, this`failed, this`log
    {
      && EndsWith(builddir, "/")
      && (definitionsDone ==> mocDefinitions == DefinitionFlags(manifest))
      && (!definitionsDone ==> mocDefinitions == [])
      && (initialized ==> definitionsDone && mocIncludes == IncludeFlags(manifest) && doTouch == touchRequested)
      && (!initialized ==> mocIncludes == [] && !doTouch)
      && (failed <==> AnyFailure(log))
    }

    /** The state of a freshly constructed object. */
    ghost predicate Pristine()
      reads this
    {
      && !definitionsDone && !initialized && !failed && !automocCppChanged && !generateAll
      && log == []
    }

    function ManifestPath(): Path {
      outfile + ".files"
    }

    constructor (outfile: Path, builddir: Path, manifest: Manifest, headerExtensions: seq<string>,
                 touchRequested: bool, disk: FileSystem)
      ensures Valid() && Pristine()
      ensures this.outfile == outfile && this.manifest == manifest
      ensures this.headerExtensions == headerExtensions && this.touchRequested == touchRequested
      ensures this.builddir == if EndsWith(builddir, "/") then builddir else builddir + "/"
      ensures this.disk == disk
    {
      this.outfile := outfile;
      this.builddir := if EndsWith(builddir, "/") then builddir else builddir + "/";
      this.manifest := manifest;
      this.headerExtensions := headerExtensions;
      this.touchRequested := touchRequested;
      this.disk := disk;
      mocDefinitions := [];
      mocIncludes := [];
      definitionsDone := false;
      initialized := false;
      failed := false;
      automocCppChanged := false;
      generateAll := false;
      doTouch := false;
      log := [];
    }

    // -------------------------------------------------------------------------------
    // Flags

    /** lazyInitMocDefinitions: on its first call, fills mocDefinitions. */
    method LazyInitMocDefinitions()
      requires Valid()
      modifies this`mocDefinitions, this`definitionsDone
      ensures Valid() && definitionsDone
      ensures mocDefinitions == DefinitionFlags(manifest)
    {
      if definitionsDone {
        return;
      }
      definitionsDone := true;
      var cdefs := Split(Trimmed(manifest.compileDefinitions), ';');
      if cdefs != [] {
        var i := 0;
        while i < |cdefs|
          invariant 0 <= i <= |cdefs|
          invariant definitionsDone && mocDefinitions == Prefixed("-D", cdefs[..i])
        {
          assert cdefs[..i + 1][..i] == cdefs[..i];
          mocDefinitions := mocDefinitions + ["-D" + cdefs[i]];
          i := i + 1;
        }
        assert cdefs[..|cdefs|] == cdefs;
      } else {
        var words := Split(Trimmed(manifest.definitions), ' ');
        var i := 0;
        while i < |words|
          invariant 0 <= i <= |words|
          invariant definitionsDone && mocDefinitions == Keep(words[..i], "-D")
        {
          assert words[..i + 1][..i] == words[..i];
          if StartsWith(words[i], "-D") {
            mocDefinitions := mocDefinitions + [words[i]];
          }
          i := i + 1;
        }
        assert words[..|words|] == words;
      }
    }

    /** The QMutableListIterator pass of lazyInit: removes from mocIncludes, in order,
        the flags that start with prefix and returns them in the same order. */
    method TakeWithPrefix(prefix: string) returns (taken: seq<string>)
      modifies this`mocIncludes
      ensures taken == Keep(old(mocIncludes), prefix)
      ensures mocIncludes == Drop(old(mocIncludes), prefix)
    {
      ghost var orig := mocIncludes;
      taken := [];
      var i := 0;
      ghost var k := 0;
      while i < |mocIncludes|
        invariant 0 <= i <= |mocIncludes| && 0 <= k <= |orig|
        invariant mocIncludes[..i] == Drop(orig[..k], prefix)
        invariant mocIncludes[i..] == orig[k..]
        invariant taken == Keep(orig[..k], prefix)
        decreases |mocIncludes| - i
      {
        var x := mocIncludes[i];
        ghost var before := mocIncludes;
        assert x == orig[k];
        assert orig[..k + 1] == orig[..k] + [x];
        assert before[i + 1..] == orig[k + 1..] by {
          assert before[i..] == orig[k..];
        }
        DropSnoc(orig[..k], x, prefix);
        if StartsWith(x, prefix) {
          taken := taken + [x];
          mocIncludes := mocIncludes[..i] + mocIncludes[i + 1..];
          assert mocIncludes[..i] == before[..i];
          assert mocIncludes[i..] == before[i + 1..];
        } else {
          i := i + 1;
          assert mocIncludes[..i] == before[..i - 1] + [x];
        }
        k := k + 1;
      }
      assert orig[k..] == [];
      assert orig[..k] == orig;
    }

    /** The include-path loop of lazyInit: "-I" before each ';'-separated path. */
    method AddIncludePaths()
      requires mocIncludes == []
      modifies this`mocIncludes
      ensures mocIncludes == Prefixed("-I", Split(Trimmed(manifest.includes), ';'))
    {
      var paths := Split(Trimmed(manifest.includes), ';');
      var i := 0;
      while i < |paths|
        invariant 0 <= i <= |paths|
        invariant mocIncludes == Prefixed("-I", paths[..i])
      {
        assert paths[..i + 1][..i] == paths[..i];
        mocIncludes := mocIncludes + ["-I" + paths[i]];
        i := i + 1;
      }
      assert paths[..|paths|] == paths;
    }

    /** The project-first reordering of lazyInit: the flags that start with bin, then
        those that start with src, then the rest, each group in its old order. */
    method ReorderProjectFirst(bin: string, src: string)
      modifies this`mocIncludes
      ensures mocIncludes == ProjectFirst(old(mocIncludes), bin, src)
    {
      var sorted := TakeWithPrefix(bin);
      var fromSourceDir := TakeWithPrefix(src);
      mocIncludes := sorted + fromSourceDir + mocIncludes;
    }

    /** lazyInit: the definitions, then the include flags, reordered project-first when
        the manifest asks for it, and the --touch request. */
    method LazyInit()
      requires Valid() && !initialized
      modifies this`mocDefinitions, this`definitionsDone, this`mocIncludes, this`doTouch, this`initialized
      ensures Valid() && initialized
    {
      LazyInitMocDefinitions();
      assert definitionsDone && mocDefinitions == DefinitionFlags(manifest);
      AddIncludePaths();
      ghost var incs := mocIncludes;
      if manifest.projectBefore == "ON" {
        ReorderProjectFirst("-I" + Trimmed(manifest.binaryDir), "-I" + Trimmed(manifest.sourceDir));
        assert mocIncludes == ProjectFirst(incs, "-I" + Trimmed(manifest.binaryDir), "-I" + Trimmed(manifest.sourceDir));
      }
      assert mocIncludes == IncludeFlags(manifest);
      doTouch := touchRequested;
      initialized := true;
    }

    // -------------------------------------------------------------------------------
    // Staleness

    /** generateAll from the previous aggregator file, if any. */
    method ComputeGenerateAll()
      requires Valid()
      modifies this`generateAll, this`mocDefinitions, this`definitionsDone
      ensures Valid()
      ensures generateAll == GenerateAllFor(Previous(disk, outfile), DefinitionFlags(manifest))
      ensures outfile in disk ==> definitionsDone
      ensures outfile !in disk ==> definitionsDone == old(definitionsDone)
    {
      var previous := Previous(disk, outfile);
      var all := true;
      if previous.Some? {
        var recorded := RecordedDefinitions(previous.value);
        LazyInitMocDefinitions();
        all := recorded != Join(mocDefinitions, ' ');
      }
      generateAll := all;
    }

    // -------------------------------------------------------------------------------
    // Classification

    /** The first of the header extensions for which stem + extension exists. */
    method FindHeader(stem: Path) returns (i: nat)
      ensures i == FirstExisting(disk, stem, headerExtensions, 0)
    {
      i := 0;
      while i < |headerExtensions|
        invariant 0 <= i <= |headerExtensions|
        invariant FirstExisting(disk, stem, headerExtensions, 0) == FirstExisting(disk, stem, headerExtensions, i)
      {
        if stem + headerExtensions[i] in disk {
          return;
        }
        i := i + 1;
      }
    }

    /** One of the two header loops of a source without moc includes. */
    method ProbeHeader(t: MocTable, stem: Path, moc: string) returns (r: MocTable)
      ensures r == Probe(disk, headerExtensions, t, stem, moc)
    {
      r := t;
      var i := 0;
      while i < |headerExtensions|
        invariant 0 <= i <= |headerExtensions|
        invariant FirstFresh(disk, t, stem, headerExtensions, 0) == FirstFresh(disk, t, stem, headerExtensions, i)
      {
        var header := stem + headerExtensions[i];
        if header in disk && header !in t.included && header !in t.notIncluded {
          if HasQObject(Read(disk, header)) {
            r := AddUnclaimed(t, header, moc);
          }
          return;
        }
        i := i + 1;
      }
    }

    /** One moc include found in a source. */
    method ClaimMocInclude(t: MocTable, source: Path, text: string, name: string) returns (s: Step)
      ensures s == ClaimForMatch(disk, headerExtensions, t, source, text, name)
    {
      var base := CompleteBaseName(name);
      var mocStyle := StartsWith(base, "moc_");
      if mocStyle || !HasQObject(text) {
        if mocStyle {
          base := base[4..];
        }
        var stem := SourceDir(source) + base;
        var i := FindHeader(stem);
        if i < |headerExtensions| {
          return Next(Claim(t, stem + headerExtensions[i], name));
        }
        if '/' in name {
          var sub := SourceDir(source) + IncludeDir(name) + "/" + base;
          var j := FindHeader(sub);
          if j < |headerExtensions| {
            return Next(Claim(t, sub + headerExtensions[j], name));
          }
        }
        return Abort(source, name);
      }
      return Next(Claim(t, source, name));
    }

    /** A compilable source file: its moc includes, visited by the do/while loop, or the
        header probes when it has none. */
    method ScanSource(t: MocTable, source: Path) returns (s: Step)
      ensures s == ClassifySource(disk, headerExtensions, t, source)
    {
      var text := Read(disk, source);
      if text == [] {
        return Next(t);
      }
      var found := FindMocInclude(text, 0);
      if found.None? {
        var stem := SourceDir(source) + CompleteBaseName(source);
        var t1 := ProbeHeader(t, stem, "moc_" + CompleteBaseName(source) + ".cpp");
        var t2 := ProbeHeader(t1, stem + "_p", "moc_" + CompleteBaseName(source) + "_p.cpp");
        return Next(t2);
      }
      s := ClaimMocIncludes(t, source, text, found);
    }

    /** The do/while loop over the moc includes of one source, from the first match
        on: each is claimed in turn and the first fatal one ends the pass. */
    method ClaimMocIncludes(t: MocTable, source: Path, text: string, first: Option<Match>) returns (s: Step)
      requires first.Some? ==> first.value.offset < |text| && MatchAt(text, first.value.offset) == Some(first.value.name)
      ensures s == ClaimAll(disk, headerExtensions, t, source, text, MatchesAfter(text, first))
    {
      var table := t;
      var found := first;
      while found.Some?
        invariant found.Some? ==> found.value.offset < |text| && MatchAt(text, found.value.offset) == Some(found.value.name)
        invariant ClaimAll(disk, headerExtensions, t, source, text, MatchesAfter(text, first))
               == ClaimAll(disk, headerExtensions, table, source, text, MatchesAfter(text, found))
        decreases if found.Some? then |text| - found.value.offset else 0
      {
        var m := found.value;
        MocNameLength(m.name);
        MatchesAfterStep(text, m);
        var step := ClaimMocInclude(table, source, text, m.name);
        if step.Abort? {
          return step;
        }
        table := step.table;
        found := FindMocInclude(text, m.offset + |m.name|);
      }
      return Next(table);
    }

    /** The classification loop over the manifest's source list. */
    method ClassifySources() returns (s: Step)
      ensures s == Classify(disk, headerExtensions, EmptyTable, SourceList(manifest))
    {
      var files := SourceList(manifest);
      var table := EmptyTable;
      var i := 0;
      while i < |files|
        invariant 0 <= i <= |files|
        invariant Classify(disk, headerExtensions, EmptyTable, files)
               == Classify(disk, headerExtensions, table, files[i..])
      {
        var f := files[i];
        assert files[i..][1..] == files[i + 1..];
        var c := CategoryOf(f);
        if c == CompilableSource {
          var step := ScanSource(table, f);
          if step.Abort? {
            return step;
          }
          table := step.table;
        } else if c == Header {
          if f !in table.included && f !in table.notIncluded {
            table := AddUnclaimed(table, f, "moc_" + CompleteBaseName(f) + ".cpp");
          }
        }
        i := i + 1;
      }
      assert files[|files|..] == [];
      return Next(table);
    }

    // -------------------------------------------------------------------------------
    // Running moc

    /** The QProcess part of generateMoc: moc runs with the include flags, the
        definitions, -o and the two paths. Any failure sets failed; a started process
        that failed loses its output file. */
    method RunMoc(source: Path, mocPath: Path, moc: MocProcess, now: int) returns (started: bool)
      requires Valid() && initialized
      modifies this`disk, this`failed, this`log
      ensures Valid()
      ensures var run := moc(MocArguments(manifest, mocPath, source));
        && log == old(log) + [Attempt(source, mocPath, run)]
        && disk == AfterRun(old(disk), mocPath, run, now)
        && started == !run.FailedToStart?
    {
      var args := mocIncludes + mocDefinitions + ["-o", mocPath, source];
      assert args == MocArguments(manifest, mocPath, source);
      var run := moc(args);
      AnyFailureSnoc(log, Attempt(source, mocPath, run));
      log := log + [Attempt(source, mocPath, run)];
      match run {
        case FailedToStart =>
          failed := true;
          started := false;
        case Crashed =>
          failed := true;
          disk := disk - {mocPath};
          started := true;
        case Exited(code, output) =>
          if code == 0 {
            disk := disk[mocPath := FileEntry(output, now)];
          } else {
            failed := true;
            disk := disk - {mocPath};
          }
          started := true;
      }
    }

    /** generateMoc: runs moc on source into builddir + mocName when generateAll holds
        or the moc is not newer than its source, initializing the flags before the
        first run, and reports whether a process started. */
    method GenerateMoc(source: Path, mocName: string, moc: MocProcess, now: int) returns (started: bool)
      requires Valid()
      modifies this`disk, this`failed, this`log, this`mocDefinitions, this`definitionsDone,
               this`mocIncludes, this`doTouch, this`initialized
      ensures Valid()
      ensures var mocPath := builddir + mocName;
        var run := moc(MocArguments(manifest, mocPath, source));
        if NeedsRegeneration(generateAll, old(disk), mocPath, source) then
          && initialized
          && log == old(log) + [Attempt(source, mocPath, run)]
          && disk == AfterRun(old(disk), mocPath, run, now)
          && started == !run.FailedToStart?
        else
          !started && unchanged(this)
      ensures initialized <==> old(initialized) || |log| > |old(log)|
    {
      var mocPath := builddir + mocName;
      if generateAll || NotNewer(LastModified(disk, mocPath), LastModified(disk, source)) {
        if !initialized {
          LazyInit();
        }
        started := RunMoc(source, mocPath, moc, now);
      } else {
        started := false;
      }
    }

    /** The generateMoc calls of this run: they share generateAll, the build directory
        and the manifest. */
    function BatchOf(moc: MocProcess, now: int): Batch
      reads this`generateAll
    {
      Batch(generateAll, builddir, manifest, moc, now)
    }

    /** Replays for the generateMoc calls of this run, on the current log, disk and
        definitions flag. */
    ghost predicate Replaying(fs: FileSystem, start: seq<Attempt>, done: bool, m: map<Path, string>,
                              visits: seq<Path>, moc: MocProcess, now: int)
      reads this`disk, this`log, this`definitionsDone, this`generateAll
    {
      Replays(BatchOf(moc, now), fs, start, done, m, visits, log, disk, definitionsDone)
    }

    /** One iteration of either loop over a moc table: generateMoc for key, one more
        visit of the replay; started records whether a process started. */
    method GenerateStep(key: Path, m: map<Path, string>, moc: MocProcess, now: int, ghost fs: FileSystem,
                        ghost start: seq<Attempt>, ghost done: bool, ghost visits: seq<Path>)
      returns (started: bool)
      requires Valid() && key in m && Replaying(fs, start, done, m, visits, moc, now)
      modifies this`disk, this`failed, this`log, this`mocDefinitions, this`definitionsDone,
               this`mocIncludes, this`doTouch, this`initialized
      ensures Valid() && Replaying(fs, start, done, m, visits + [key], moc, now)
      ensures StartedSince(log, |start|) <==> old(StartedSince(log, |start|)) || started
      ensures initialized <==> old(initialized) || |log| > |old(log)|
      ensures |old(log)| <= |log|
    {
      ghost var b := BatchOf(moc, now);
      ghost var before, was, doneBefore := log, disk, definitionsDone;
      started := GenerateMoc(key, m[key], moc, now);
      ghost var one := GenerateOne(b, was, key, m[key]);
      ReplaysStep(b, fs, start, done, m, visits, key, before, was, doneBefore, log, disk, definitionsDone);
      if one.attempts != [] {
        StartedSinceSnoc(before, one.attempts[0], |start|);
      }
    }

    /** The loop over includedMocs, in an order the hash chooses: generateMoc for every
        claimed file once, as Replay describes for that order. */
    method GenerateClaimed(included: map<Path, string>, moc: MocProcess, now: int)
      returns (ghost visits: seq<Path>)
      requires Valid()
      modifies this`disk, this`failed, this`log, this`mocDefinitions, this`definitionsDone,
               this`mocIncludes, this`doTouch, this`initialized
      ensures Valid() && IsEnumeration(visits, included.Keys)
      ensures Replaying(old(disk), old(log), old(definitionsDone), included, visits, moc, now)
      ensures initialized <==> old(initialized) || |log| > |old(log)|
      ensures |old(log)| <= |log|
    {
      var todo := included.Keys;
      visits := [];
      while todo != {}
        invariant Valid() && Enumerating(visits, todo, included.Keys)
        invariant Replaying(old(disk), old(log), old(definitionsDone), included, visits, moc, now)
        invariant initialized <==> old(initialized) || |log| > |old(log)|
        invariant |old(log)| <= |log|
        decreases |todo|
      {
        var key :| key in todo;
        var _ := GenerateStep(key, included, moc, now, old(disk), old(log), old(definitionsDone), visits);
        EnumeratingStep(visits, todo, included.Keys, key);
        visits := visits + [key];
        todo := todo - {key};
      }
      EnumeratingDone(visits, included.Keys);
    }

    /** The loop over notIncludedMocs, in an order the hash chooses: generateMoc for
        every unclaimed file once, as Replay describes for the order returned; changed
        records whether some process started. */
    method VisitUnclaimed(notIncluded: map<Path, string>, moc: MocProcess, now: int)
      returns (order: seq<Path>, changed: bool)
      requires Valid()
      modifies this`disk, this`failed, this`log, this`mocDefinitions, this`definitionsDone,
               this`mocIncludes, this`doTouch, this`initialized
      ensures Valid() && IsEnumeration(order, notIncluded.Keys)
      ensures Replaying(old(disk), old(log), old(definitionsDone), notIncluded, order, moc, now)
      ensures changed <==> StartedSince(log, |old(log)|)
      ensures initialized <==> old(initialized) || |log| > |old(log)|
      ensures |old(log)| <= |log|
    {
      order, changed := [], false;
      var todo := notIncluded.Keys;
      while todo != {}
        invariant Valid() && Enumerating(order, todo, notIncluded.Keys)
        invariant Replaying(old(disk), old(log), old(definitionsDone), notIncluded, order, moc, now)
        invariant changed <==> StartedSince(log, |old(log)|)
        invariant initialized <==> old(initialized) || |log| > |old(log)|
        invariant |old(log)| <= |log|
        decreases |todo|
      {
        var key :| key in todo;
        var started := GenerateStep(key, notIncluded, moc, now, old(disk), old(log), old(definitionsDone), order);
        changed := changed || started;
        EnumeratingStep(order, todo, notIncluded.Keys, key);
        order := order + [key];
        todo := todo - {key};
      }
      EnumeratingDone(order, notIncluded.Keys);
    }

    // -------------------------------------------------------------------------------
    // The aggregator file

    /** The header as run() writes it: the definitions joined with ' ' as they stand
        when the header is written. When lazyInitMocDefinitions has not run yet (no
        earlier output and no moc run before this point), the recorded line is empty. */
    method AggregatorHeaderAsWritten() returns (h: string)
      requires Valid()
      ensures definitionsDone ==> h == Aggregator.Header(Join(DefinitionFlags(manifest), ' '))
      ensures !definitionsDone ==> h == Aggregator.Header([])
    {
      h := Aggregator.Header(Join(mocDefinitions, ' '));
    }

    /** The header with the definitions read first, so that it always records the
        definitions the next run compares against. */
    method RecordingHeader() returns (h: string)
      requires Valid()
      modifies this`mocDefinitions, this`definitionsDone
      ensures Valid() && definitionsDone
      ensures h == Aggregator.Header(Join(DefinitionFlags(manifest), ' '))
    {
      LazyInitMocDefinitions();
      h := Aggregator.Header(Join(mocDefinitions, ' '));
    }

    /** What the end of run() did with the aggregator text, given the file system
        before: a failed moc leaves everything as it was and fails; an unchanged text
        that no new moc requires leaves everything as it was and succeeds; otherwise the
        text is written with the time now, the manifest is touched when doTouch is set,
        and the run fails only when that manifest is missing. */
    ghost predicate Outcome(text: string, before: FileSystem, now: int, touchTime: int, success: bool, verdict: Verdict)
      reads this`disk, this`failed, this`automocCppChanged, this`doTouch
    {
      && (verdict == FailedRun <==> failed)
      && (verdict == Unchanged <==> !failed && !automocCppChanged && Read(before, outfile) == text)
      && (verdict == Written <==> !failed && (automocCppChanged || Read(before, outfile) != text))
      && (verdict != Written ==> disk == before && (success <==> verdict == Unchanged))
      && (verdict == Written ==>
            var written := before[outfile := FileEntry(text, now)];
            && disk == (if doTouch then Touch(written, ManifestPath(), touchTime) else written)
            && (success <==> !doTouch || ManifestPath() in written))
    }

    /** Writes the aggregator text unless a moc failed or nothing changed, then touches
        the manifest when --touch was given and some moc ran. */
    method Finish(text: string, now: int, touchTime: int) returns (success: bool, ghost verdict: Verdict)
      requires Valid()
      modifies this`disk
      ensures Valid()
      ensures Outcome(text, old(disk), now, touchTime, success, verdict)
      ensures verdict == Written ==> outfile in disk && disk[outfile].contents == text
    {
      if failed {
        return false, FailedRun;
      }
      if !automocCppChanged {
        var oldContents := Read(disk, outfile);
        if oldContents == text {
          return true, Unchanged;
        }
      }
      disk := disk[outfile := FileEntry(text, now)];
      verdict := Written;
      if doTouch {
        if ManifestPath() !in disk {
          return false, verdict;
        }
        disk := Touch(disk, ManifestPath(), touchTime);
      }
      success := true;
    }

    /** The state once every moc of run() has run, from the file system fs, the log
        start and the definitions flag done: the claimed files were visited in the order
        claimedOrder and the unclaimed ones in the order order, each once, with the
        attempts and the file system `after` that Replay gives; automocCppChanged records
        whether a process for an unclaimed file started; text and asWritten are the
        aggregator texts Aggregated describes. */
    ghost predicate MocsDone(t: MocTable, text: string, asWritten: string, claimedOrder: seq<Path>, order: seq<Path>,
                             fs: FileSystem, start: seq<Attempt>, done: bool, moc: MocProcess, now: int, after: FileSystem)
      reads this`log, this`generateAll, this`automocCppChanged
    {
      Aggregated(BatchOf(moc, now), t, text, asWritten, claimedOrder, order, fs, start, done, log, after, automocCppChanged)
    }

    /** The part of run() between classification and writing: the mocs of the claimed
        files, the header, then the mocs of the unclaimed files and one include line per
        file in the order they were visited, or the placeholder when there is none. A
        started process for an unclaimed file marks the aggregator as changed. */
    method RunMocs(t: MocTable, moc: MocProcess, now: int)
      returns (text: string, order: seq<Path>, asWritten: string, ghost claimedOrder: seq<Path>)
      requires Valid() && !automocCppChanged
      modifies this`disk, this`failed, this`log, this`mocDefinitions, this`definitionsDone,
               this`mocIncludes, this`doTouch, this`initialized, this`automocCppChanged
      ensures Valid()
      ensures MocsDone(t, text, asWritten, claimedOrder, order, old(disk), old(log), old(definitionsDone), moc, now, disk)
      ensures initialized <==> old(initialized) || |log| > |old(log)|
    {
      claimedOrder := GenerateClaimed(t.included, moc, now);
      ghost var claimed := log;
      ghost var afterClaimed := disk;
      ghost var doneAfterClaimed := definitionsDone;
      var headerAsWritten := AggregatorHeaderAsWritten();
      var header := RecordingHeader();
      var changed;
      order, changed := VisitUnclaimed(t.notIncluded, moc, now);
      automocCppChanged := changed;
      var mocs := ValuesOf(order, t.notIncluded);
      var body := if mocs == [] then Placeholder else IncludeLines(mocs);
      text := header + body;
      asWritten := headerAsWritten + body;
      MocsRanInSequence(BatchOf(moc, now), t, claimedOrder, order, old(disk), old(log), old(definitionsDone),
                        claimed, afterClaimed, doneAfterClaimed, true, log, disk, definitionsDone, changed);
    }

    /** The state once run() has got past classification with the table t: the mocs ran
        as MocsDone describes, leaving afterMocs, the aggregator text was written or not
        as Outcome describes, the run failed exactly when some moc failed or the touch
        did, and a written aggregator records the definitions, so that the next run with
        the same manifest does not regenerate everything. The manifest is to be touched
        (doTouch) exactly when --touch was given and lazyInit has run: before (init) or
        because some moc was attempted since the log was start. */
    ghost predicate Finished(t: MocTable, text: string, asWritten: string, claimedOrder: seq<Path>, order: seq<Path>,
                             fs: FileSystem, start: seq<Attempt>, done: bool, init: bool, moc: MocProcess, now: int,
                             touchTime: int, afterMocs: FileSystem, success: bool, verdict: Verdict)
      reads this
    {
      && MocsDone(t, text, asWritten, claimedOrder, order, fs, start, done, moc, now, afterMocs)
      && (doTouch <==> touchRequested && (init || |log| > |start|))
      && Outcome(text, afterMocs, now, touchTime, success, verdict)
      && (verdict == FailedRun <==> AnyFailure(log))
      && (verdict == Written ==> !GenerateAllFor(Previous(disk, outfile), DefinitionFlags(manifest)))
    }

    /** run() once classification succeeded with the table t: the mocs, then the write
        of the aggregator file, given the file system afterMocs the mocs left. A written
        aggregator records the definitions, so that the next run with the same manifest
        does not regenerate everything. */
    method GenerateAndWrite(t: MocTable, moc: MocProcess, now: int, touchTime: int,
                            ghost fs: FileSystem, ghost start: seq<Attempt>, ghost done: bool, ghost init: bool)
      returns (success: bool, ghost verdict: Verdict, text: string, order: seq<Path>, asWritten: string,
               ghost claimedOrder: seq<Path>, ghost afterMocs: FileSystem)
      requires Valid() && !automocCppChanged
      requires fs == disk && start == log && done == definitionsDone && init == initialized
      modifies this`disk, this`failed, this`log, this`mocDefinitions, this`definitionsDone,
               this`mocIncludes, this`doTouch, this`initialized, this`automocCppChanged
      ensures Valid()
      ensures Finished(t, text, asWritten, claimedOrder, order, fs, start, done, init, moc, now,
                       touchTime, afterMocs, success, verdict)
    {
      text, order, asWritten, claimedOrder := RunMocs(t, moc, now);
      afterMocs := disk;
      assert text == AggregatorText(Join(DefinitionFlags(manifest), ' '), ValuesOf(order, t.notIncluded));
      ghost var log1, changed1, b := log, automocCppChanged, BatchOf(moc, now);
      success, verdict := Finish(text, now, touchTime);
      assert log == log1 && automocCppChanged == changed1 && BatchOf(moc, now) == b;
      if verdict == Written {
        WrittenOutputIsStable(manifest, ValuesOf(order, t.notIncluded));
        assert Previous(disk, outfile) == Some(text);
      }
    }

    /** run(): the staleness test, the classification pass, then the mocs and the write.
        A source whose header is missing aborts before any moc runs. Otherwise the mocs
        run as MocsDone describes from the file system run() started on, the definitions
        having been read exactly when an aggregator file existed, and the run fails
        exactly when some moc failed or the touch did. The manifest is touched only when
        --touch was given and some moc was attempted, since only then has lazyInit run.
        (Finished is compared with true so that it is checked as the one fact
        GenerateAndWrite establishes, not conjunct by conjunct.) */
    method Run(moc: MocProcess, now: int, touchTime: int)
      returns (success: bool, ghost verdict: Verdict, text: string, order: seq<Path>, asWritten: string,
               ghost claimedOrder: seq<Path>, ghost afterMocs: FileSystem)
      requires Valid() && Pristine()
      modifies this`disk, this`failed, this`log, this`mocDefinitions, this`definitionsDone,
               this`mocIncludes, this`doTouch, this`initialized, this`automocCppChanged, this`generateAll
      ensures Valid()
      ensures generateAll == GenerateAllFor(Previous(old(disk), outfile), DefinitionFlags(manifest))
      ensures var s := Classify(old(disk), headerExtensions, EmptyTable, SourceList(manifest));
        && (s.Abort? ==> verdict == Aborted(s.source, s.moc) && !success && disk == old(disk) && log == [])
        && (s.Next? ==>
              Finished(s.table, text, asWritten, claimedOrder, order, old(disk), [], outfile in old(disk), false,
                       moc, now, touchTime, afterMocs, success, verdict) == true)
    {
      ComputeGenerateAll();
      var s := ClassifySources();
      if s.Abort? {
        return false, Aborted(s.source, s.moc), [], [], [], [], disk;
      }
      success, verdict, text, order, asWritten, claimedOrder, afterMocs :=
        GenerateAndWrite(s.table, moc, now, touchTime, old(disk), [], outfile in old(disk), false);
    }
  }
}
