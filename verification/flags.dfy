/** The moc command-line flags automoc derives from its manifest (<outfile>.files):
    the -D definitions of lazyInitMocDefinitions and the -I include paths of lazyInit,
    including the project-first reordering. */
module Flags {
  import opened Text

  /** The manifest values the flags are built from, each a line without its
      terminator. */
  datatype Manifest = Manifest(
    sources: Line,
    compileDefinitions: Line,
    definitions: Line,
    includes: Line,
    projectBefore: Line,
    binaryDir: Line,
    sourceDir: Line)

  /** Each element of xs with prefix p in front, in order. */
  function Prefixed(p: string, xs: seq<string>): (r: seq<string>)
    ensures |r| == |xs|
    ensures forall i :: 0 <= i < |xs| ==> r[i] == p + xs[i]
    ensures forall i :: 0 <= i < |r| ==> StartsWith(r[i], p)
    decreases |xs|
  {
    if xs == [] then []
    else
      var x := xs[|xs| - 1];
      assert (p + x)[..|p|] == p;
      Prefixed(p, xs[..|xs| - 1]) + [p + x]
  }

  /** The elements of xs that start with p, in order. */
  function Keep(xs: seq<string>, p: string): (r: seq<string>)
    ensures forall i :: 0 <= i < |r| ==> StartsWith(r[i], p)
    decreases |xs|
  {
    if xs == [] then []
    else
      var x := xs[|xs| - 1];
      Keep(xs[..|xs| - 1], p) + (if StartsWith(x, p) then [x] else [])
  }

  /** The elements of xs that do not start with p, in order. */
  function Drop(xs: seq<string>, p: string): (r: seq<string>)
    ensures forall i :: 0 <= i < |r| ==> !StartsWith(r[i], p)
    decreases |xs|
  {
    if xs == [] then []
    else
      var x := xs[|xs| - 1];
      Drop(xs[..|xs| - 1], p) + (if StartsWith(x, p) then [] else [x])
  }

  /** mocDefinitions as lazyInitMocDefinitions builds it: "-D" before each
      ';'-separated compile definition when there is any; otherwise the ' '-separated
      words of the definitions line that already start with "-D". */
  function DefinitionFlags(m: Manifest): (r: seq<string>)
    ensures forall i :: 0 <= i < |r| ==> StartsWith(r[i], "-D")
  {
    var cdefs := Split(Trimmed(m.compileDefinitions), ';');
    if cdefs != [] then Prefixed("-D", cdefs)
    else Keep(Split(Trimmed(m.definitions), ' '), "-D")
  }

  /** mocIncludes as lazyInit builds it (without -F framework paths): "-I" before each
      ';'-separated include path, reordered project-first when the manifest says ON. */
  function IncludeFlags(m: Manifest): seq<string> {
    var incs := Prefixed("-I", Split(Trimmed(m.includes), ';'));
    if m.projectBefore == "ON" then
      ProjectFirst(incs, "-I" + Trimmed(m.binaryDir), "-I" + Trimmed(m.sourceDir))
    else incs
  }

  /** The reordered include list: the build-directory entries, then the source-directory
      entries among the rest, then everything else. */
  function ProjectFirst(xs: seq<string>, bin: string, src: string): seq<string> {
    Keep(xs, bin) + Keep(Drop(xs, bin), src) + Drop(Drop(xs, bin), src)
  }

  // ---------------------------------------------------------------------------------
  // Definitions

  /** Every definition flag starts with "-D" and, since the manifest values are single
      lines, none of them holds a newline. Compile definitions are all kept, in order. */
  lemma {:induction false} DefinitionFlagsShape(m: Manifest)
    ensures forall i :: 0 <= i < |DefinitionFlags(m)| ==>
      StartsWith(DefinitionFlags(m)[i], "-D") && '\n' !in DefinitionFlags(m)[i]
    ensures Split(Trimmed(m.compileDefinitions), ';') != [] ==>
      DefinitionFlags(m) == Prefixed("-D", Split(Trimmed(m.compileDefinitions), ';'))
  {
    var cdefs := Split(Trimmed(m.compileDefinitions), ';');
    var d := DefinitionFlags(m);
    TrimmedKeepsOut(m.compileDefinitions, '\n');
    SplitKeepsOut(Trimmed(m.compileDefinitions), ';', '\n');
    if cdefs != [] {
      forall i | 0 <= i < |d| ensures StartsWith(d[i], "-D") && '\n' !in d[i] {
        assert d[i] == "-D" + cdefs[i];
        assert d[i][..2] == "-D";
        assert '\n' !in cdefs[i];
        NotInConcat('\n', "-D", cdefs[i]);
      }
    } else {
      var words := Split(Trimmed(m.definitions), ' ');
      TrimmedKeepsOut(m.definitions, '\n');
      SplitKeepsOut(Trimmed(m.definitions), ' ', '\n');
      KeepKeepsNoNewline(words, "-D");
    }
  }

  lemma {:induction false} KeepKeepsNoNewline(xs: seq<string>, p: string)
    requires forall i :: 0 <= i < |xs| ==> '\n' !in xs[i]
    ensures forall i :: 0 <= i < |Keep(xs, p)| ==> '\n' !in Keep(xs, p)[i]
    decreases |xs|
  {
    if xs != [] {
      var init, x := xs[..|xs| - 1], xs[|xs| - 1];
      KeepKeepsNoNewline(init, p);
      var r := Keep(xs, p);
      assert r == Keep(init, p) + (if StartsWith(x, p) then [x] else []);
      assert '\n' !in x;
    }
  }

  /** Joining newline-free words with ' ' gives a newline-free line. */
  lemma {:induction false} JoinHasNoNewline(parts: seq<string>)
    requires forall i :: 0 <= i < |parts| ==> '\n' !in parts[i]
    ensures '\n' !in Join(parts, ' ')
    decreases |parts|
  {
    if |parts| > 1 {
      JoinHasNoNewline(parts[1..]);
      NotInConcat('\n', parts[0], [' ']);
      NotInConcat('\n', parts[0] + [' '], Join(parts[1..], ' '));
    }
  }

  // ---------------------------------------------------------------------------------
  // The project-first reordering of include flags

  /** The group an include flag falls in: 0 for the build directory, 1 for the source
      directory, 2 for the rest. A flag that starts with both goes with the build
      directory. */
  function Rank(x: string, bin: string, src: string): (g: nat)
    ensures g <= 2
  {
    if StartsWith(x, bin) then 0 else if StartsWith(x, src) then 1 else 2
  }

  /** The elements of xs of group g, in order. */
  function OfRank(xs: seq<string>, bin: string, src: string, g: nat): seq<string>
    decreases |xs|
  {
    if xs == [] then []
    else
      var x := xs[|xs| - 1];
      OfRank(xs[..|xs| - 1], bin, src, g) + (if Rank(x, bin, src) == g then [x] else [])
  }

  lemma {:induction false} KeepDropSplit(xs: seq<string>, p: string)
    ensures multiset(Keep(xs, p)) + multiset(Drop(xs, p)) == multiset(xs)
    decreases |xs|
  {
    if xs != [] {
      var init := xs[..|xs| - 1];
      KeepDropSplit(init, p);
      assert xs == init + [xs[|xs| - 1]];
    }
  }

  /** The reordering neither loses nor duplicates a flag. */
  lemma ProjectFirstIsPermutation(xs: seq<string>, bin: string, src: string)
    ensures multiset(ProjectFirst(xs, bin, src)) == multiset(xs)
  {
    KeepDropSplit(xs, bin);
    KeepDropSplit(Drop(xs, bin), src);
  }

  /** The include flags are "-I" before each include path, in some order: the manifest
      order, or the project-first one. */
  lemma IncludeFlagsArePrefixedPaths(m: Manifest)
    ensures multiset(IncludeFlags(m)) == multiset(Prefixed("-I", Split(Trimmed(m.includes), ';')))
    ensures m.projectBefore != "ON" ==> IncludeFlags(m) == Prefixed("-I", Split(Trimmed(m.includes), ';'))
  {
    var incs := Prefixed("-I", Split(Trimmed(m.includes), ';'));
    if m.projectBefore == "ON" {
      ProjectFirstIsPermutation(incs, "-I" + Trimmed(m.binaryDir), "-I" + Trimmed(m.sourceDir));
    }
  }

  /** Filtering a list none of whose elements starts with q gives such a list. */
  lemma {:induction false} KeepKeepsOut(xs: seq<string>, p: string, q: string)
    requires forall i :: 0 <= i < |xs| ==> !StartsWith(xs[i], q)
    ensures forall i :: 0 <= i < |Keep(xs, p)| ==> !StartsWith(Keep(xs, p)[i], q)
    decreases |xs|
  {
    if xs != [] {
      var init, x := xs[..|xs| - 1], xs[|xs| - 1];
      KeepKeepsOut(init, p, q);
      var a, r := Keep(init, p), Keep(xs, p);
      assert r == a + (if StartsWith(x, p) then [x] else []);
      forall i | 0 <= i < |r| ensures !StartsWith(r[i], q) {
        if i < |a| {
          assert r[i] == a[i];
        } else {
          assert r[i] == xs[|xs| - 1];
        }
      }
    }
  }

  lemma {:induction false} DropKeepsOut(xs: seq<string>, p: string, q: string)
    requires forall i :: 0 <= i < |xs| ==> !StartsWith(xs[i], q)
    ensures forall i :: 0 <= i < |Drop(xs, p)| ==> !StartsWith(Drop(xs, p)[i], q)
    decreases |xs|
  {
    if xs != [] {
      var init, x := xs[..|xs| - 1], xs[|xs| - 1];
      DropKeepsOut(init, p, q);
      var a, r := Drop(init, p), Drop(xs, p);
      assert r == a + (if StartsWith(x, p) then [] else [x]);
      forall i | 0 <= i < |r| ensures !StartsWith(r[i], q) {
        if i < |a| {
          assert r[i] == a[i];
        } else {
          assert r[i] == xs[|xs| - 1];
        }
      }
    }
  }

  /** The reordered list is sorted by group: build-directory flags first, then
      source-directory flags, then the rest. */
  lemma ProjectFirstIsGrouped(xs: seq<string>, bin: string, src: string)
    ensures forall i, j :: 0 <= i < j < |ProjectFirst(xs, bin, src)| ==>
      Rank(ProjectFirst(xs, bin, src)[i], bin, src) <= Rank(ProjectFirst(xs, bin, src)[j], bin, src)
  {
    var a := Keep(xs, bin);
    var b := Keep(Drop(xs, bin), src);
    var c := Drop(Drop(xs, bin), src);
    var r := ProjectFirst(xs, bin, src);
    KeepKeepsOut(Drop(xs, bin), src, bin);
    DropKeepsOut(Drop(xs, bin), src, bin);
    assert forall k :: 0 <= k < |a| ==> Rank(a[k], bin, src) == 0;
    assert forall k :: 0 <= k < |b| ==> Rank(b[k], bin, src) == 1;
    assert forall k :: 0 <= k < |c| ==> Rank(c[k], bin, src) == 2;
    assert forall k :: 0 <= k < |r| ==>
      Rank(r[k], bin, src) == if k < |a| then 0 else if k < |a| + |b| then 1 else 2;
  }

  /** Dropping from a list with one more element at its end. */
  lemma DropSnoc(init: seq<string>, x: string, p: string)
    ensures Drop(init + [x], p) == Drop(init, p) + (if StartsWith(x, p) then [] else [x])
    ensures Keep(init + [x], p) == Keep(init, p) + (if StartsWith(x, p) then [x] else [])
  {
    assert (init + [x])[..|init|] == init;
  }

  lemma {:induction false} BuildGroupZero(xs: seq<string>, bin: string, src: string)
    ensures OfRank(xs, bin, src, 0) == Keep(xs, bin)
    decreases |xs|
  {
    if xs != [] {
      BuildGroupZero(xs[..|xs| - 1], bin, src);
    }
  }

  lemma {:induction false} BuildGroupOne(xs: seq<string>, bin: string, src: string)
    ensures OfRank(xs, bin, src, 1) == Keep(Drop(xs, bin), src)
    decreases |xs|
  {
    if xs != [] {
      var init, x := xs[..|xs| - 1], xs[|xs| - 1];
      BuildGroupOne(init, bin, src);
      assert OfRank(xs, bin, src, 1) == OfRank(init, bin, src, 1) + (if Rank(x, bin, src) == 1 then [x] else []);
      assert xs == init + [x];
      DropSnoc(init, x, bin);
      if !StartsWith(x, bin) {
        assert Drop(xs, bin) == Drop(init, bin) + [x];
        DropSnoc(Drop(init, bin), x, src);
      } else {
        assert Drop(xs, bin) == Drop(init, bin);
      }
    }
  }

  lemma {:induction false} BuildGroupTwo(xs: seq<string>, bin: string, src: string)
    ensures OfRank(xs, bin, src, 2) == Drop(Drop(xs, bin), src)
    decreases |xs|
  {
    if xs != [] {
      var init, x := xs[..|xs| - 1], xs[|xs| - 1];
      BuildGroupTwo(init, bin, src);
      assert OfRank(xs, bin, src, 2) == OfRank(init, bin, src, 2) + (if Rank(x, bin, src) == 2 then [x] else []);
      assert xs == init + [x];
      DropSnoc(init, x, bin);
      if !StartsWith(x, bin) {
        assert Drop(xs, bin) == Drop(init, bin) + [x];
        DropSnoc(Drop(init, bin), x, src);
      } else {
        assert Drop(xs, bin) == Drop(init, bin);
      }
    }
  }

  /** The reordering is the stable partition of the flags by group: each group keeps
      the relative order it had. */
  lemma ProjectFirstIsStablePartition(xs: seq<string>, bin: string, src: string)
    ensures ProjectFirst(xs, bin, src) ==
      OfRank(xs, bin, src, 0) + OfRank(xs, bin, src, 1) + OfRank(xs, bin, src, 2)
  {
    BuildGroupZero(xs, bin, src);
    BuildGroupOne(xs, bin, src);
    BuildGroupTwo(xs, bin, src);
  }
}
