/** The classification pass of AutoMoc::run: which moc files are included by a source
    ("claimed", includedMocs) and which automoc must include itself ("unclaimed",
    notIncludedMocs). Each table maps the file moc reads to the moc file name. */
module Classification {
  import opened Text
  import opened Scanner
  import opened Disk

  datatype MocTable = MocTable(included: map<Path, string>, notIncluded: map<Path, string>)

  const EmptyTable := MocTable(map[], map[])

  /** No file is both claimed and unclaimed. */
  predicate Disjoint(t: MocTable) {
    forall p :: p in t.included ==> p !in t.notIncluded
  }

  predicate IsKey(t: MocTable, p: Path) {
    p in t.included || p in t.notIncluded
  }

  /** An unclaimed moc name as automoc makes it: moc_<name>.cpp, a bare file name. */
  predicate IsGeneratedName(n: string) {
    StartsWith(n, "moc_") && EndsWith(n, ".cpp") && '/' !in n
  }

  /** The shape every table built by the pass keeps: the two maps are disjoint, every
      claimed name is a name the include pattern captures, and every unclaimed name is
      one automoc made. */
  predicate WellFormed(t: MocTable) {
    && Disjoint(t)
    && (forall p :: p in t.included ==> IsMocName(t.included[p]))
    && (forall p :: p in t.notIncluded ==> IsGeneratedName(t.notIncluded[p]))
  }

  /** includedMocs.insert(key, moc); notIncludedMocs.remove(key): key is claimed with
      moc and no longer unclaimed, and every other entry stays as it was. */
  function Claim(t: MocTable, key: Path, moc: string): (r: MocTable)
    ensures key in r.included && r.included[key] == moc && key !in r.notIncluded
    ensures forall p :: p != key ==>
      && (p in r.included <==> p in t.included) && (p in t.included ==> r.included[p] == t.included[p])
      && (p in r.notIncluded <==> p in t.notIncluded) && (p in t.notIncluded ==> r.notIncluded[p] == t.notIncluded[p])
  {
    MocTable(t.included[key := moc], t.notIncluded - {key})
  }

  /** notIncludedMocs.insert(key, moc): key is unclaimed with moc, the claimed table is
      untouched and every other unclaimed entry stays as it was. */
  function AddUnclaimed(t: MocTable, key: Path, moc: string): (r: MocTable)
    ensures r.included == t.included && key in r.notIncluded && r.notIncluded[key] == moc
    ensures forall p :: p != key ==>
      (p in r.notIncluded <==> p in t.notIncluded) && (p in t.notIncluded ==> r.notIncluded[p] == t.notIncluded[p])
  {
    MocTable(t.included, t.notIncluded[key := moc])
  }

  /** The three kinds of manifest entry, by file name suffix. */
  datatype Category = CompilableSource | Header | Other

  function CategoryOf(p: Path): (c: Category)
    ensures c == CompilableSource <==>
      EndsWith(p, ".cpp") || EndsWith(p, ".cc") || EndsWith(p, ".mm") || EndsWith(p, ".cxx") || EndsWith(p, ".C")
    ensures c == Header <==>
      !(EndsWith(p, ".cpp") || EndsWith(p, ".cc") || EndsWith(p, ".mm") || EndsWith(p, ".cxx") || EndsWith(p, ".C"))
      && (EndsWith(p, ".h") || EndsWith(p, ".hpp") || EndsWith(p, ".hxx") || EndsWith(p, ".H"))
  {
    if EndsWith(p, ".cpp") || EndsWith(p, ".cc") || EndsWith(p, ".mm") || EndsWith(p, ".cxx") || EndsWith(p, ".C") then
      CompilableSource
    else if EndsWith(p, ".h") || EndsWith(p, ".hpp") || EndsWith(p, ".hxx") || EndsWith(p, ".H") then
      Header
    else
      Other
  }

  /** The index of the first extension at or after k for which stem + extension exists,
      or |exts| when there is none. */
  function FirstExisting(fs: FileSystem, stem: Path, exts: seq<string>, k: nat): (i: nat)
    requires k <= |exts|
    ensures k <= i <= |exts|
    ensures i < |exts| ==> stem + exts[i] in fs
    ensures forall j :: k <= j < i ==> stem + exts[j] !in fs
    decreases |exts| - k
  {
    if k == |exts| || stem + exts[k] in fs then k else FirstExisting(fs, stem, exts, k + 1)
  }

  /** The index of the first extension at or after k for which stem + extension exists
      and is not yet a key of either table, or |exts| when there is none. */
  function FirstFresh(fs: FileSystem, t: MocTable, stem: Path, exts: seq<string>, k: nat): (i: nat)
    requires k <= |exts|
    ensures k <= i <= |exts|
    ensures i < |exts| ==> stem + exts[i] in fs && !IsKey(t, stem + exts[i])
    ensures forall j :: k <= j < i ==> stem + exts[j] !in fs || IsKey(t, stem + exts[j])
    decreases |exts| - k
  {
    if k == |exts| || (stem + exts[k] in fs && !IsKey(t, stem + exts[k])) then k
    else FirstFresh(fs, t, stem, exts, k + 1)
  }

  /** One header probe of a source without moc includes: only the first existing header
      that is not yet a key is examined, and it is added unclaimed as moc when it holds
      the Q_OBJECT marker. It never claims, forgets no key, and what it adds is such a
      header. */
  function Probe(fs: FileSystem, exts: seq<string>, t: MocTable, stem: Path, moc: string): (r: MocTable)
    ensures r.included == t.included && Grows(t, r)
    ensures forall p :: p in r.notIncluded && p !in t.notIncluded ==> MarkedHeader(fs, exts, t, stem, p)
  {
    var i := FirstFresh(fs, t, stem, exts, 0);
    assert i < |exts| ==> exts[i] in exts;
    if i < |exts| && HasQObject(Read(fs, stem + exts[i])) then AddUnclaimed(t, stem + exts[i], moc)
    else t
  }

  /** A compilable source without any moc include: probe <dir>/<base><ext> for
      moc_<base>.cpp, then <dir>/<base>_p<ext> for moc_<base>_p.cpp. */
  function NoIncludeStep(fs: FileSystem, exts: seq<string>, t: MocTable, src: Path): (r: MocTable)
    ensures r.included == t.included && Grows(t, r)
  {
    var stem := SourceDir(src) + CompleteBaseName(src);
    var t1 := Probe(fs, exts, t, stem, "moc_" + CompleteBaseName(src) + ".cpp");
    Probe(fs, exts, t1, stem + "_p", "moc_" + CompleteBaseName(src) + "_p.cpp")
  }

  /** The outcome of a step: the updated tables, or the fatal exit for a source whose
      moc include names a header that exists nowhere. */
  datatype Step = Next(table: MocTable) | Abort(source: Path, moc: string)

  /** Whether an include of moc name `name` is resolved through a header: a moc_ style
      name always is, and a .moc name is when the including source has no Q_OBJECT. */
  predicate NeedsHeader(name: string, text: string) {
    StartsWith(CompleteBaseName(name), "moc_") || !HasQObject(text)
  }

  /** The header base name for an include: its complete base name without moc_. */
  function HeaderBase(name: string): string {
    var b := CompleteBaseName(name);
    if StartsWith(b, "moc_") then b[4..] else b
  }

  /** The second place a header is looked for: the include's own directory below the
      source's directory. */
  function SubdirStem(src: Path, name: string): Path {
    SourceDir(src) + IncludeDir(name) + "/" + HeaderBase(name)
  }

  /** One moc include `name` found in source src (whose text is `text`). */
  function ClaimForMatch(fs: FileSystem, exts: seq<string>, t: MocTable, src: Path, text: string, name: string): (s: Step)
    ensures s.Abort? ==> s.source == src && s.moc == name && NeedsHeader(name, text)
  {
    if NeedsHeader(name, text) then
      var stem := SourceDir(src) + HeaderBase(name);
      var i := FirstExisting(fs, stem, exts, 0);
      if i < |exts| then Next(Claim(t, stem + exts[i], name))
      else if '/' in name then
        var sub := SubdirStem(src, name);
        var j := FirstExisting(fs, sub, exts, 0);
        if j < |exts| then Next(Claim(t, sub + exts[j], name)) else Abort(src, name)
      else Abort(src, name)
    else Next(Claim(t, src, name))
  }

  /** The moc includes ms of one source, handled in order; the first fatal one ends
      the pass. */
  function ClaimAll(fs: FileSystem, exts: seq<string>, t: MocTable, src: Path, text: string, ms: seq<Match>): (s: Step)
    ensures s.Abort? ==> s.source == src && exists i :: 0 <= i < |ms| && s.moc == ms[i].name
    decreases |ms|
  {
    if ms == [] then Next(t)
    else
      match ClaimForMatch(fs, exts, t, src, text, ms[0].name)
      case Abort(s, m) => Abort(s, m)
      case Next(t1) => ClaimAll(fs, exts, t1, src, text, ms[1..])
  }

  /** A compilable source: an empty (or missing) file is skipped; a file without moc
      includes probes its headers; otherwise every moc include is claimed. */
  function ClassifySource(fs: FileSystem, exts: seq<string>, t: MocTable, src: Path): (s: Step)
    ensures s.Abort? ==> s.source == src && exists i :: 0 <= i < |MocIncludes(Read(fs, src))| && s.moc == MocIncludes(Read(fs, src))[i].name
  {
    var text := Read(fs, src);
    if text == [] then Next(t)
    else if MocIncludes(text) == [] then Next(NoIncludeStep(fs, exts, t, src))
    else ClaimAll(fs, exts, t, src, text, MocIncludes(text))
  }

  /** A header listed in the manifest: added unclaimed, without looking for Q_OBJECT,
      unless it is already a key. */
  function ClassifyHeader(t: MocTable, h: Path): (r: MocTable)
    ensures IsKey(r, h) && r.included == t.included && Grows(t, r)
  {
    if IsKey(t, h) then t else AddUnclaimed(t, h, "moc_" + CompleteBaseName(h) + ".cpp")
  }

  /** One entry of the source list, by its category; only a compilable source can end
      the pass. */
  function ClassifyFile(fs: FileSystem, exts: seq<string>, t: MocTable, f: Path): (s: Step)
    ensures s.Abort? ==> s.source == f && CategoryOf(f) == CompilableSource
  {
    match CategoryOf(f)
    case CompilableSource => ClassifySource(fs, exts, t, f)
    case Header => Next(ClassifyHeader(t, f))
    case Other => Next(t)
  }

  /** The whole pass over the manifest's source list, from table t. */
  function Classify(fs: FileSystem, exts: seq<string>, t: MocTable, files: seq<Path>): (s: Step)
    ensures s.Abort? ==> s.source in files && CategoryOf(s.source) == CompilableSource
    decreases |files|
  {
    if files == [] then Next(t)
    else
      match ClassifyFile(fs, exts, t, files[0])
      case Abort(s, m) => Abort(s, m)
      case Next(t1) => Classify(fs, exts, t1, files[1..])
  }

  // ---------------------------------------------------------------------------------
  // Properties of the pass

  /** Keys only grow along the pass and the table keeps its shape. */
  predicate Grows(t: MocTable, r: MocTable) {
    t.included.Keys + t.notIncluded.Keys <= r.included.Keys + r.notIncluded.Keys
  }

  lemma ProbeKeepsShape(fs: FileSystem, exts: seq<string>, t: MocTable, stem: Path, moc: string)
    requires WellFormed(t) && IsGeneratedName(moc)
    ensures var r := Probe(fs, exts, t, stem, moc);
      WellFormed(r) && Grows(t, r) && r.included == t.included
  {
  }

  lemma GeneratedNameOf(b: string, tail: string)
    requires '/' !in b && '/' !in tail && EndsWith(tail, ".cpp")
    ensures IsGeneratedName("moc_" + b + tail)
  {
    var n := "moc_" + b + tail;
    assert n[..4] == "moc_";
    assert n[|n| - 4..] == tail[|tail| - 4..];
    NotInConcat('/', "moc_", b);
    NotInConcat('/', "moc_" + b, tail);
  }

  /** The names automoc makes for a file are bare moc_*.cpp names. */
  lemma GeneratedNames(p: Path)
    ensures IsGeneratedName("moc_" + CompleteBaseName(p) + ".cpp")
    ensures IsGeneratedName("moc_" + CompleteBaseName(p) + "_p.cpp")
  {
    BaseNameHasNoSlash(p);
    GeneratedNameOf(CompleteBaseName(p), ".cpp");
    GeneratedNameOf(CompleteBaseName(p), "_p.cpp");
  }

  /** p is a header a probe of stem may add to t: an existing stem + extension that is
      not yet a key and holds the Q_OBJECT marker. */
  predicate MarkedHeader(fs: FileSystem, exts: seq<string>, t: MocTable, stem: Path, p: Path) {
    p in fs && HasQObject(Read(fs, p)) && !IsKey(t, p) && exists e :: e in exts && p == stem + e
  }

  /** A source without moc includes never claims anything, and what it adds unclaimed
      is an existing header, named after the source, that holds Q_OBJECT and was not a
      key before. */
  lemma {:induction false} NoIncludeStepAddsMarkedHeaders(fs: FileSystem, exts: seq<string>, t: MocTable, src: Path)
    ensures var r := NoIncludeStep(fs, exts, t, src);
      && r.included == t.included
      && Grows(t, r)
      && forall p :: p in r.notIncluded && p !in t.notIncluded ==>
           || MarkedHeader(fs, exts, t, SourceDir(src) + CompleteBaseName(src), p)
           || MarkedHeader(fs, exts, t, SourceDir(src) + CompleteBaseName(src) + "_p", p)
  {
    var stem := SourceDir(src) + CompleteBaseName(src);
    var t1 := Probe(fs, exts, t, stem, "moc_" + CompleteBaseName(src) + ".cpp");
    var r := Probe(fs, exts, t1, stem + "_p", "moc_" + CompleteBaseName(src) + "_p.cpp");
    forall p | p in r.notIncluded && p !in t.notIncluded
      ensures MarkedHeader(fs, exts, t, stem, p) || MarkedHeader(fs, exts, t, stem + "_p", p)
    {
      if p in t1.notIncluded {
        assert MarkedHeader(fs, exts, t, stem, p);
      } else {
        assert MarkedHeader(fs, exts, t1, stem + "_p", p);
        assert !IsKey(t, p) by { assert Grows(t, t1); }
      }
    }
  }

  /** The probe looks at one header only: when the first existing header that is not a
      key lacks Q_OBJECT, nothing is added even if a later extension would match. */
  lemma ProbeExaminesFirstFreshOnly(fs: FileSystem, exts: seq<string>, t: MocTable, stem: Path, moc: string, i: nat)
    requires i < |exts| && stem + exts[i] in fs && !IsKey(t, stem + exts[i])
    requires forall j :: 0 <= j < i ==> stem + exts[j] !in fs || IsKey(t, stem + exts[j])
    ensures Probe(fs, exts, t, stem, moc) ==
      if HasQObject(Read(fs, stem + exts[i])) then AddUnclaimed(t, stem + exts[i], moc) else t
  {
  }

  /** The search over the extensions finds nothing exactly when no stem + extension
      exists. */
  lemma FirstExistingNone(fs: FileSystem, stem: Path, exts: seq<string>)
    ensures FirstExisting(fs, stem, exts, 0) == |exts| <==> forall e :: e in exts ==> stem + e !in fs
  {
    var i := FirstExisting(fs, stem, exts, 0);
    if i == |exts| {
      forall e | e in exts ensures stem + e !in fs {
        var k :| 0 <= k < |exts| && exts[k] == e;
      }
    } else {
      assert exts[i] in exts;
    }
  }

  /** A moc include aborts the run exactly when it needs a header and no header
      exists, neither next to the source nor (for a name with a directory) in the
      include's own directory. */
  lemma ClaimForMatchAborts(fs: FileSystem, exts: seq<string>, t: MocTable, src: Path, text: string, name: string)
    ensures var s := ClaimForMatch(fs, exts, t, src, text, name);
      && (s.Abort? <==>
            && NeedsHeader(name, text)
            && (forall e :: e in exts ==> SourceDir(src) + HeaderBase(name) + e !in fs)
            && ('/' in name ==> forall e :: e in exts ==> SubdirStem(src, name) + e !in fs))
      && (s.Abort? ==> s.source == src && s.moc == name)
  {
    if NeedsHeader(name, text) {
      var stem := SourceDir(src) + HeaderBase(name);
      FirstExistingNone(fs, stem, exts);
      if '/' in name {
        FirstExistingNone(fs, SubdirStem(src, name), exts);
      }
    }
  }

  /** i is the first extension for which stem + extension exists. */
  predicate FirstFound(fs: FileSystem, stem: Path, exts: seq<string>, i: nat) {
    i < |exts| && stem + exts[i] in fs && forall j :: 0 <= j < i ==> stem + exts[j] !in fs
  }

  /** Otherwise exactly one file is claimed for the name: the source itself for a .moc
      include in a source with Q_OBJECT, or else the header with the first existing
      extension next to the source, or, only when there is none there and the name has
      a directory, the header with the first existing extension in the include's own
      directory. */
  lemma ClaimForMatchClaims(fs: FileSystem, exts: seq<string>, t: MocTable, src: Path, text: string, name: string)
    returns (i: nat)
    ensures var s := ClaimForMatch(fs, exts, t, src, text, name);
      && (!NeedsHeader(name, text) ==> s == Next(Claim(t, src, name)))
      && (NeedsHeader(name, text) && s.Next? ==>
            var stem := SourceDir(src) + HeaderBase(name);
            var sub := SubdirStem(src, name);
            || (FirstFound(fs, stem, exts, i) && s.table == Claim(t, stem + exts[i], name))
            || ('/' in name && (forall j :: 0 <= j < |exts| ==> stem + exts[j] !in fs)
                && FirstFound(fs, sub, exts, i) && s.table == Claim(t, sub + exts[i], name)))
  {
    var s := ClaimForMatch(fs, exts, t, src, text, name);
    var stem := SourceDir(src) + HeaderBase(name);
    i := FirstExisting(fs, stem, exts, 0);
    if NeedsHeader(name, text) {
      if i < |exts| {
        assert s == Next(Claim(t, stem + exts[i], name));
        assert FirstFound(fs, stem, exts, i);
      } else if '/' in name {
        var sub := SubdirStem(src, name);
        i := FirstExisting(fs, sub, exts, 0);
        if i < |exts| {
          assert s == Next(Claim(t, sub + exts[i], name));
          assert FirstFound(fs, sub, exts, i);
        }
      }
    }
  }

  lemma ClaimForMatchKeepsShape(fs: FileSystem, exts: seq<string>, t: MocTable, src: Path, text: string, name: string)
    requires WellFormed(t) && IsMocName(name)
    ensures var s := ClaimForMatch(fs, exts, t, src, text, name);
      s.Next? ==> WellFormed(s.table) && Grows(t, s.table)
  {
    var s := ClaimForMatch(fs, exts, t, src, text, name);
    if !NeedsHeader(name, text) {
      assert s == Next(Claim(t, src, name));
      ClaimKeepsShape(t, src, name);
    } else {
      var stem := SourceDir(src) + HeaderBase(name);
      var i := FirstExisting(fs, stem, exts, 0);
      if i < |exts| {
        assert s == Next(Claim(t, stem + exts[i], name));
        ClaimKeepsShape(t, stem + exts[i], name);
      } else if '/' in name {
        var sub := SubdirStem(src, name);
        var j := FirstExisting(fs, sub, exts, 0);
        if j < |exts| {
          assert s == Next(Claim(t, sub + exts[j], name));
          ClaimKeepsShape(t, sub + exts[j], name);
        }
      }
    }
  }

  /** Claiming a file with a captured moc name keeps the table's shape. */
  lemma ClaimKeepsShape(t: MocTable, key: Path, name: string)
    requires WellFormed(t) && IsMocName(name)
    ensures WellFormed(Claim(t, key, name)) && Grows(t, Claim(t, key, name))
  {
  }

  lemma {:induction false} ClaimAllKeepsShape(fs: FileSystem, exts: seq<string>, t: MocTable, src: Path, text: string, ms: seq<Match>)
    requires WellFormed(t)
    requires forall i :: 0 <= i < |ms| ==> IsMocName(ms[i].name)
    ensures var s := ClaimAll(fs, exts, t, src, text, ms);
      s.Next? ==> WellFormed(s.table) && Grows(t, s.table)
    decreases |ms|
  {
    if ms != [] {
      ClaimForMatchKeepsShape(fs, exts, t, src, text, ms[0].name);
      match ClaimForMatch(fs, exts, t, src, text, ms[0].name)
      case Abort(_, _) =>
      case Next(t1) =>
        ClaimAllKeepsShape(fs, exts, t1, src, text, ms[1..]);
    }
  }

  /** The names the scan captures are moc names. */
  lemma MocIncludeNames(text: string)
    ensures forall i :: 0 <= i < |MocIncludes(text)| ==> IsMocName(MocIncludes(text)[i].name)
  {
    forall i | 0 <= i < |MocIncludes(text)|
      ensures IsMocName(MocIncludes(text)[i].name)
    {
      MocIncludeAnchored(text, i);
    }
  }

  lemma ClassifySourceKeepsShape(fs: FileSystem, exts: seq<string>, t: MocTable, src: Path)
    requires WellFormed(t)
    ensures var s := ClassifySource(fs, exts, t, src);
      s.Next? ==> WellFormed(s.table) && Grows(t, s.table)
  {
    var text := Read(fs, src);
    if text != [] {
      if MocIncludes(text) == [] {
        GeneratedNames(src);
        var stem := SourceDir(src) + CompleteBaseName(src);
        var t1 := Probe(fs, exts, t, stem, "moc_" + CompleteBaseName(src) + ".cpp");
        ProbeKeepsShape(fs, exts, t, stem, "moc_" + CompleteBaseName(src) + ".cpp");
        ProbeKeepsShape(fs, exts, t1, stem + "_p", "moc_" + CompleteBaseName(src) + "_p.cpp");
      } else {
        MocIncludeNames(text);
        ClaimAllKeepsShape(fs, exts, t, src, text, MocIncludes(text));
      }
    }
  }

  lemma ClassifyFileKeepsShape(fs: FileSystem, exts: seq<string>, t: MocTable, f: Path)
    requires WellFormed(t)
    ensures var s := ClassifyFile(fs, exts, t, f);
      s.Next? ==> WellFormed(s.table) && Grows(t, s.table)
  {
    var c := CategoryOf(f);
    if c == CompilableSource {
      ClassifySourceKeepsShape(fs, exts, t, f);
    } else if c == Header {
      ClassifyHeaderKeepsShape(t, f);
    }
  }

  lemma ClassifyHeaderKeepsShape(t: MocTable, h: Path)
    requires WellFormed(t)
    ensures WellFormed(ClassifyHeader(t, h)) && Grows(t, ClassifyHeader(t, h))
  {
    GeneratedNames(h);
  }

  /** After the pass no file is both claimed and unclaimed (nor is the shape of either
      table lost), and no key of the starting table is forgotten. */
  lemma {:induction false} ClassifyKeepsShape(fs: FileSystem, exts: seq<string>, t: MocTable, files: seq<Path>)
    requires WellFormed(t)
    ensures var s := Classify(fs, exts, t, files);
      s.Next? ==> WellFormed(s.table) && Grows(t, s.table)
    decreases |files|
  {
    if files != [] {
      ClassifyFileKeepsShape(fs, exts, t, files[0]);
      match ClassifyFile(fs, exts, t, files[0])
      case Abort(_, _) =>
      case Next(t1) =>
        ClassifyKeepsShape(fs, exts, t1, files[1..]);
    }
  }

  /** A listed header is a key once the pass has finished: it is either already a key
      when it is reached (and then left as it is) or added unclaimed as
      moc_<complete base name>.cpp, whatever its contents. */
  lemma HeaderEntry(t: MocTable, h: Path)
    ensures var r := ClassifyHeader(t, h);
      && IsKey(r, h)
      && (IsKey(t, h) ==> r == t)
      && (!IsKey(t, h) ==>
            r.included == t.included
            && r.notIncluded == t.notIncluded[h := "moc_" + CompleteBaseName(h) + ".cpp"])
  {
  }

  lemma {:induction false} ListedHeadersAreKeys(fs: FileSystem, exts: seq<string>, t: MocTable, files: seq<Path>)
    requires WellFormed(t)
    ensures var s := Classify(fs, exts, t, files);
      s.Next? ==> forall i :: 0 <= i < |files| && CategoryOf(files[i]) == Header ==> IsKey(s.table, files[i])
    decreases |files|
  {
    if files != [] {
      ClassifyFileKeepsShape(fs, exts, t, files[0]);
      match ClassifyFile(fs, exts, t, files[0])
      case Abort(_, _) =>
      case Next(t1) =>
        ListedHeadersAreKeys(fs, exts, t1, files[1..]);
        ClassifyKeepsShape(fs, exts, t1, files[1..]);
        var s := Classify(fs, exts, t1, files[1..]);
        if s.Next? {
          forall i | 0 <= i < |files| && CategoryOf(files[i]) == Header
            ensures IsKey(s.table, files[i])
          {
            if i == 0 {
              assert IsKey(t1, files[0]);
            } else {
              assert files[i] == files[1..][i - 1];
            }
          }
        }
    }
  }
}
