/** The aggregator file (<target>_automoc.cpp): the text automoc writes, what a later
    run reads back from it, and the two staleness tests that decide which mocs are
    regenerated. */
module Aggregator {
  import opened Text
  import opened Disk

  const FirstLine := "/* This file is autogenerated, do not edit"

  /** The line written when there is no unclaimed moc, so that the file is never an
      empty translation unit. */
  const Placeholder := "enum some_compilers { need_more_than_nothing };\n"

  /** The comment that opens the file; its second line records the definitions. */
  function Header(defs: string): string {
    FirstLine + "\n" + defs + "\n*/\n"
  }

  function IncludeLine(moc: string): string {
    "#include \"" + moc + "\"\n"
  }

  /** One include line per moc name, in the given order. */
  function IncludeLines(mocs: seq<string>): string
    decreases |mocs|
  {
    if mocs == [] then [] else IncludeLines(mocs[..|mocs| - 1]) + IncludeLine(mocs[|mocs| - 1])
  }

  /** The whole file: the header, then the placeholder when there is nothing to include
      and the include lines otherwise. */
  function AggregatorText(defs: string, mocs: seq<string>): string {
    Header(defs) + (if mocs == [] then Placeholder else IncludeLines(mocs))
  }

  /** QIODevice::readLine(): the text up to and including the first newline, or all of
      it when there is none. */
  function TakeLine(s: string): (l: string)
    ensures StartsWith(s, l)
    ensures l == s || EndsWith(l, "\n")
    ensures l != [] ==> '\n' !in l[..|l| - 1]
  {
    var k := FieldEnd(s, '\n', 0);
    var l := if k < |s| then s[..k + 1] else s;
    assert l != [] ==> l[..|l| - 1] == s[..|l| - 1];
    assert forall j :: 0 <= j < |l| - 1 ==> s[..|l| - 1][j] == s[j];
    l
  }

  /** The text after the first line. */
  function SkipLine(s: string): (r: string)
    ensures TakeLine(s) + r == s
  {
    var k := FieldEnd(s, '\n', 0);
    assert k < |s| ==> s == s[..k + 1] + s[k + 1..];
    if k < |s| then s[k + 1..] else []
  }

  /** QByteArray::chop(1). */
  function Chop(s: string): string {
    if s == [] then [] else s[..|s| - 1]
  }

  /** The definitions an earlier run recorded: the second line of the file, its last
      character removed. */
  function RecordedDefinitions(text: string): (d: string)
    ensures '\n' !in d
  {
    Chop(TakeLine(SkipLine(text)))
  }

  /** generateAll: no earlier output, or the definitions it records are not the current
      ones joined with ' '. */
  predicate GenerateAllFor(previous: Option<string>, defs: seq<string>) {
    previous.None? || RecordedDefinitions(previous.value) != Join(defs, ' ')
  }

  /** The per-moc test of generateMoc: everything is regenerated under generateAll;
      otherwise a moc is regenerated when it is not newer than the file it is made
      from. */
  predicate NeedsRegeneration(generateAll: bool, fs: FileSystem, mocPath: Path, source: Path) {
    generateAll || NotNewer(LastModified(fs, mocPath), LastModified(fs, source))
  }

  // ---------------------------------------------------------------------------------
  // Properties

  /** The include lines of a concatenation are the concatenation of the include lines:
      exactly one line per name, in order. */
  lemma {:induction false} IncludeLinesAppend(a: seq<string>, b: seq<string>)
    ensures IncludeLines(a + b) == IncludeLines(a) + IncludeLines(b)
    decreases |b|
  {
    if b == [] {
      assert a + b == a;
    } else {
      var init := b[..|b| - 1];
      IncludeLinesAppend(a, init);
      assert (a + b)[..|a + b| - 1] == a + init;
      assert (a + b)[|a + b| - 1] == b[|b| - 1];
    }
  }

  /** The line-reading view of a text made of a newline-free first line, a newline and
      a rest. */
  lemma LinesOf(first: string, rest: string)
    requires '\n' !in first
    ensures TakeLine(first + "\n" + rest) == first + "\n"
    ensures SkipLine(first + "\n" + rest) == rest
  {
    var s := first + "\n" + rest;
    if first == [] {
      assert s[0] == '\n';
    } else {
      FieldEndOf(first, '\n', "\n" + rest);
      assert s == first + ("\n" + rest);
    }
    assert s[..|first| + 1] == first + "\n";
    assert s[|first| + 1..] == rest;
  }

  /** What a run writes on the second line is what the next run reads back, whatever
      follows the header. */
  lemma RecordedDefinitionsRoundTrip(defs: string, mocs: seq<string>)
    requires '\n' !in defs
    ensures RecordedDefinitions(AggregatorText(defs, mocs)) == defs
  {
    var tail := if mocs == [] then Placeholder else IncludeLines(mocs);
    var rest := defs + "\n*/\n" + tail;
    assert AggregatorText(defs, mocs) == FirstLine + "\n" + rest;
    LinesOf(FirstLine, rest);
    assert rest == defs + "\n" + ("*/\n" + tail);
    LinesOf(defs, "*/\n" + tail);
    assert Chop(defs + "\n") == defs;
  }

  /** Reading back an output written with the definitions d: generateAll holds exactly
      when d differs from the current definitions joined with ' '. */
  lemma GenerateAllExactlyWhenChanged(d: string, mocs: seq<string>, defs: seq<string>)
    requires '\n' !in d
    ensures GenerateAllFor(Some(AggregatorText(d, mocs)), defs) <==> d != Join(defs, ' ')
  {
    RecordedDefinitionsRoundTrip(d, mocs);
  }

  /** The timestamp rule, with QDateTime's ordering spelled out: a missing moc is always
      regenerated; an existing one whose source is missing only under generateAll;
      otherwise when the moc is not strictly newer than its source. */
  lemma RegenerationRule(generateAll: bool, fs: FileSystem, mocPath: Path, source: Path)
    ensures mocPath !in fs ==> NeedsRegeneration(generateAll, fs, mocPath, source)
    ensures mocPath in fs && source !in fs ==>
      (NeedsRegeneration(generateAll, fs, mocPath, source) <==> generateAll)
    ensures mocPath in fs && source in fs ==>
      (NeedsRegeneration(generateAll, fs, mocPath, source) <==>
         generateAll || fs[mocPath].mtime <= fs[source].mtime)
  {
  }
}
