/** The two regular expressions of automoc, as deterministic matchers over the text
    of a file:
      mocIncludeRegExp  [\n]\s*#\s*include\s+["<]((?:[^ ">]+/)?moc_[^ ">/]+\.cpp|[^ ">]+\.moc)[">]
      qObjectRegExp     [\n]\s*Q_OBJECT\b
    Both begin with a newline, so a directive on the first line of a file never matches. */
module Scanner {
  import opened Text

  /** One match of mocIncludeRegExp: where it starts (the newline) and capture 1. */
  datatype Match = Match(offset: nat, name: string)

  /** `\s`: QChar::isSpace for the Latin-1 range. */
  predicate IsRegExpSpace(c: char) {
    IsAsciiSpace(c) || c == '\U{0085}' || c == '\U{00A0}'
  }

  /** The characters on the word side of `\b`. */
  predicate IsWordChar(c: char) {
    ('a' <= c <= 'z') || ('A' <= c <= 'Z') || ('0' <= c <= '9') || c == '_'
  }

  /** `[^ ">]`: the characters an included file name may contain. */
  predicate IsNameChar(c: char) {
    c != ' ' && c != '"' && c != '>'
  }

  /** The end of the run of name characters at the start of s. */
  function NameEnd(s: string, i: nat): (k: nat)
    requires i <= |s|
    ensures i <= k <= |s|
    ensures forall j :: i <= j < k ==> IsNameChar(s[j])
    ensures k < |s| ==> !IsNameChar(s[k])
    decreases |s| - i
  {
    if i < |s| && IsNameChar(s[i]) then NameEnd(s, i + 1) else i
  }

  /** Capture 1 of mocIncludeRegExp, for a run n of name characters:
      either `[^ ">]+\.moc`, or `(?:[^ ">]+/)?moc_[^ ">/]+\.cpp` (a last path segment
      moc_X.cpp with X non-empty, after an optional directory part of two or more
      characters ending in '/'). */
  predicate IsMocName(n: string) {
    (|n| >= 5 && EndsWith(n, ".moc"))
    || (var f := FileName(n);
        |f| >= 9 && StartsWith(f, "moc_") && EndsWith(f, ".cpp") && (|n| == |f| || |n| - |f| >= 2))
  }

  /** mocIncludeRegExp anchored at position p: the captured file name, if it matches
      there. Each `\s*` or `\s+` is greedy and is followed by a non-space, and the capture
      cannot contain ' ', '"' or '>' while it must be followed by '"' or '>', so a match
      at p is unique: the capture is the whole run of name characters after the opening
      quote. The matcher reads the text after the newline one character at a time. */
  function MatchAt(t: string, p: nat): (r: Option<string>)
    ensures r.Some? ==> p < |t| && t[p] == '\n' && IsMocName(r.value)
  {
    if p < |t| && t[p] == '\n' then BeforeHash(t[p + 1..]) else None
  }

  /** `\s*#` */
  function BeforeHash(s: string): (r: Option<string>)
    ensures r.Some? ==> IsMocName(r.value)
  {
    if s == [] then None
    else if IsRegExpSpace(s[0]) then BeforeHash(s[1..])
    else if s[0] == '#' then AfterHash(s[1..])
    else None
  }

  /** `\s*include` */
  function AfterHash(s: string): (r: Option<string>)
    ensures r.Some? ==> IsMocName(r.value)
  {
    if s == [] then None
    else if IsRegExpSpace(s[0]) then AfterHash(s[1..])
    else if StartsWith(s, "include") then AfterInclude(s[7..], false)
    else None
  }

  /** `\s+["<]`; `spaced` records whether a space has been read. */
  function AfterInclude(s: string, spaced: bool): (r: Option<string>)
    ensures r.Some? ==> IsMocName(r.value)
  {
    if s == [] then None
    else if IsRegExpSpace(s[0]) then AfterInclude(s[1..], true)
    else if spaced && (s[0] == '"' || s[0] == '<') then Capture(s[1..])
    else None
  }

  /** The capture, then `[">]`. */
  function Capture(s: string): (r: Option<string>)
    ensures r.Some? ==> IsMocName(r.value)
  {
    var e := NameEnd(s, 0);
    if e < |s| && s[e] != ' ' && IsMocName(s[..e]) then Some(s[..e]) else None
  }

  /** A matched name is at least five characters long. */
  lemma MocNameLength(n: string)
    requires IsMocName(n)
    ensures |n| >= 5
  {
  }

  // ---------------------------------------------------------------------------------
  // The lines mocIncludeRegExp matches

  /** A directive line as the pattern sees it: the spaces before '#', between '#' and
      include, and after include; the opening quote, the captured name and the closing
      quote. */
  datatype Directive = Directive(indent: string, gap: string, space: string, open: char, name: string, close: char)

  predicate AllSpace(w: string) {
    forall k :: 0 <= k < |w| ==> IsRegExpSpace(w[k])
  }

  predicate AllNameChars(n: string) {
    forall k :: 0 <= k < |n| ==> IsNameChar(n[k])
  }

  /** The directives the pattern describes: `\s*`, `\s*`, `\s+`, `["<]`, a capture made of
      `[^ ">]` that is a moc name, `[">]`. */
  predicate WellFormedDirective(d: Directive) {
    && AllSpace(d.indent) && AllSpace(d.gap) && AllSpace(d.space) && d.space != []
    && (d.open == '"' || d.open == '<')
    && AllNameChars(d.name) && IsMocName(d.name)
    && (d.close == '"' || d.close == '>')
  }

  /** The text of a directive, from the newline that anchors it to its closing quote. */
  function DirectiveText(d: Directive): string {
    DirectiveLine(d, [])
  }

  /** A directive followed by the rest of the file. */
  function DirectiveLine(d: Directive, rest: string): string {
    "\n" + (d.indent + ("#" + (d.gap + ("include" + (d.space + ([d.open] + (d.name + ([d.close] + rest))))))))
  }

  lemma {:induction false} DirectiveLineSplits(d: Directive, rest: string)
    ensures DirectiveText(d) + rest == DirectiveLine(d, rest)
  {
    var c := [d.close];
    assert (c + []) + rest == c + rest;
    assert (d.name + (c + [])) + rest == d.name + (c + rest);
    assert ([d.open] + (d.name + (c + []))) + rest == [d.open] + (d.name + (c + rest));
    assert (d.space + ([d.open] + (d.name + (c + [])))) + rest == d.space + ([d.open] + (d.name + (c + rest)));
    assert ("include" + (d.space + ([d.open] + (d.name + (c + []))))) + rest
        == "include" + (d.space + ([d.open] + (d.name + (c + rest))));
    assert (d.gap + ("include" + (d.space + ([d.open] + (d.name + (c + [])))))) + rest
        == d.gap + ("include" + (d.space + ([d.open] + (d.name + (c + rest)))));
    assert ("#" + (d.gap + ("include" + (d.space + ([d.open] + (d.name + (c + []))))))) + rest
        == "#" + (d.gap + ("include" + (d.space + ([d.open] + (d.name + (c + rest))))));
    assert (d.indent + ("#" + (d.gap + ("include" + (d.space + ([d.open] + (d.name + (c + [])))))))) + rest
        == d.indent + ("#" + (d.gap + ("include" + (d.space + ([d.open] + (d.name + (c + rest)))))));
  }

  lemma BeforeHashSkips(w: string, s: string)
    requires AllSpace(w)
    ensures BeforeHash(w + s) == BeforeHash(s)
    decreases |w|
  {
    if w != [] {
      assert (w + s)[1..] == w[1..] + s;
      BeforeHashSkips(w[1..], s);
    } else {
      assert w + s == s;
    }
  }

  lemma AfterHashSkips(w: string, s: string)
    requires AllSpace(w) && s != [] && !IsRegExpSpace(s[0])
    ensures AfterHash(w + s) == AfterHash(s)
    decreases |w|
  {
    if w != [] {
      assert (w + s)[1..] == w[1..] + s;
      AfterHashSkips(w[1..], s);
    } else {
      assert w + s == s;
    }
  }

  lemma AfterIncludeSkips(w: string, s: string, spaced: bool)
    requires AllSpace(w)
    ensures AfterInclude(w + s, spaced) == AfterInclude(s, spaced || w != [])
    decreases |w|
  {
    if w != [] {
      assert (w + s)[1..] == w[1..] + s;
      AfterIncludeSkips(w[1..], s, true);
    } else {
      assert w + s == s;
    }
  }

  lemma NameEndOf(n: string, c: char, rest: string)
    requires AllNameChars(n) && !IsNameChar(c)
    ensures NameEnd(n + ([c] + rest), 0) == |n|
  {
    var s := n + ([c] + rest);
    var k := NameEnd(s, 0);
    assert forall j :: 0 <= j < |n| ==> s[j] == n[j];
    assert s[|n|] == c;
  }

  /** A well-formed directive followed by anything is matched at its newline. */
  lemma {:induction false} DirectiveLineIsMatched(d: Directive, rest: string)
    requires WellFormedDirective(d)
    ensures BeforeHash(DirectiveLine(d, rest)[1..]) == Some(d.name)
  {
    var z := d.name + ([d.close] + rest);
    var y := [d.open] + z;
    var x := "include" + (d.space + y);
    var u := "#" + (d.gap + x);
    assert DirectiveLine(d, rest)[1..] == d.indent + u;
    BeforeHashSkips(d.indent, u);
    assert u[1..] == d.gap + x;
    AfterHashSkips(d.gap, x);
    assert x[7..] == d.space + y;
    AfterIncludeSkips(d.space, y, false);
    assert y[1..] == z;
    NameEndOf(d.name, d.close, rest);
    assert z[..|d.name|] == d.name;
  }

  /** Every well-formed directive is matched where its text starts, and the capture is
      its name, whatever follows it. */
  lemma {:induction false} DirectiveIsMatched(t: string, p: nat, d: Directive)
    requires WellFormedDirective(d)
    requires p + |DirectiveText(d)| <= |t| && t[p..p + |DirectiveText(d)|] == DirectiveText(d)
    ensures MatchAt(t, p) == Some(d.name)
  {
    var n := |DirectiveText(d)|;
    var rest := t[p + n..];
    assert t[p..] == t[p..p + n] + rest;
    DirectiveLineSplits(d, rest);
    DirectiveLineIsMatched(d, rest);
    assert t[p..][0] == '\n';
    assert t[p + 1..] == t[p..][1..];
  }

  lemma {:induction false} BeforeHashParts(s: string) returns (w: string, x: string)
    requires BeforeHash(s).Some?
    ensures AllSpace(w) && s == w + ("#" + x) && BeforeHash(s) == AfterHash(x)
    decreases |s|
  {
    if IsRegExpSpace(s[0]) {
      var w', x' := BeforeHashParts(s[1..]);
      w, x := [s[0]] + w', x';
      assert s == [s[0]] + s[1..];
    } else {
      w, x := [], s[1..];
      assert s == [s[0]] + s[1..];
    }
  }

  lemma {:induction false} AfterHashParts(x: string) returns (w: string, y: string)
    requires AfterHash(x).Some?
    ensures AllSpace(w) && x == w + ("include" + y) && AfterHash(x) == AfterInclude(y, false)
    decreases |x|
  {
    if IsRegExpSpace(x[0]) {
      var w', y' := AfterHashParts(x[1..]);
      w, y := [x[0]] + w', y';
      assert x == [x[0]] + x[1..];
    } else {
      w, y := [], x[7..];
      assert x == x[..7] + x[7..];
    }
  }

  lemma {:induction false} AfterIncludeParts(y: string, spaced: bool) returns (w: string, o: char, z: string)
    requires AfterInclude(y, spaced).Some?
    ensures AllSpace(w) && (spaced || w != []) && (o == '"' || o == '<')
    ensures y == w + ([o] + z) && AfterInclude(y, spaced) == Capture(z)
    decreases |y|
  {
    if IsRegExpSpace(y[0]) {
      var w', o', z' := AfterIncludeParts(y[1..], true);
      w, o, z := [y[0]] + w', o', z';
      assert y == [y[0]] + y[1..];
    } else {
      w, o, z := [], y[0], y[1..];
      assert y == [y[0]] + y[1..];
    }
  }

  lemma CaptureParts(z: string) returns (c: char, rest: string)
    requires Capture(z).Some?
    ensures var n := Capture(z).value;
      AllNameChars(n) && IsMocName(n) && (c == '"' || c == '>') && z == n + ([c] + rest)
  {
    var e := NameEnd(z, 0);
    c, rest := z[e], z[e + 1..];
    assert z == z[..e] + ([z[e]] + z[e + 1..]);
  }

  /** The directive and the rest of the text behind a match. */
  lemma {:induction false} MatchParts(t: string, p: nat) returns (d: Directive, rest: string)
    requires MatchAt(t, p).Some?
    ensures WellFormedDirective(d) && d.name == MatchAt(t, p).value
    ensures t[p..] == DirectiveLine(d, rest)
  {
    var s := t[p + 1..];
    var indent, x := BeforeHashParts(s);
    var gap, y := AfterHashParts(x);
    var space, o, z := AfterIncludeParts(y, false);
    var c, r := CaptureParts(z);
    d, rest := Directive(indent, gap, space, o, Capture(z).value, c), r;
    assert t[p..] == [t[p]] + s;
  }

  /** Conversely every match is a well-formed directive starting at the match position,
      whose name is the capture. */
  lemma {:induction false} MatchIsDirective(t: string, p: nat) returns (d: Directive)
    requires MatchAt(t, p).Some?
    ensures WellFormedDirective(d) && d.name == MatchAt(t, p).value
    ensures p + |DirectiveText(d)| <= |t| && t[p..p + |DirectiveText(d)|] == DirectiveText(d)
  {
    var rest;
    d, rest := MatchParts(t, p);
    DirectiveLineSplits(d, rest);
    var n := |DirectiveText(d)|;
    assert t[p..][..n] == DirectiveText(d);
    assert t[p..p + n] == t[p..][..n];
  }

  // ---------------------------------------------------------------------------------
  // The search loop, for any anchored matcher

  /** A pattern matched at a given position: its capture there, if it matches. */
  type Matcher = (string, nat) -> Option<string>

  /** The captures are never empty, so a search that resumes after a capture moves
      forward. */
  ghost predicate NonEmptyCaptures(f: Matcher) {
    forall t: string, p: nat :: f(t, p).Some? ==> f(t, p).value != []
  }

  /** QRegExp::indexIn(t, from): the first position at or after from where the pattern
      matches (IndexInIsLeftmost). */
  function IndexIn(f: Matcher, t: string, from: nat): (r: Option<Match>)
    ensures r.Some? ==> from <= r.value.offset < |t| && f(t, r.value.offset) == Some(r.value.name)
    decreases |t| - from
  {
    if from >= |t| then None
    else
      match f(t, from)
      case Some(n) => Some(Match(from, n))
      case None => IndexIn(f, t, from + 1)
  }

  /** The search finds the leftmost match: none starts between `from` and the match
      found, and when nothing is found no position at or after `from` matches. */
  lemma {:induction false} IndexInIsLeftmost(f: Matcher, t: string, from: nat)
    ensures var r := IndexIn(f, t, from);
      && (r.Some? ==> forall q :: from <= q < r.value.offset ==> f(t, q).None?)
      && (r.None? ==> forall q :: from <= q < |t| ==> f(t, q).None?)
    decreases |t| - from
  {
    if from < |t| && f(t, from).None? {
      IndexInIsLeftmost(f, t, from + 1);
    }
  }

  /** The matches the do/while loop of the source visits once a search has found
      `found`: that match, then (after each match the search resumes at the match offset
      plus the length of its capture) the matches the resumed search visits. */
  function VisitsAfter(f: Matcher, t: string, found: Option<Match>): seq<Match>
    requires NonEmptyCaptures(f)
    requires found.Some? ==> found.value.offset < |t| && f(t, found.value.offset) == Some(found.value.name)
    decreases if found.Some? then |t| - found.value.offset else 0, 0
  {
    match found
    case None => []
    case Some(m) => [m] + Visits(f, t, m.offset + |m.name|)
  }

  /** The matches the loop visits when its first search starts at `from`. */
  function Visits(f: Matcher, t: string, from: nat): seq<Match>
    requires NonEmptyCaptures(f)
    decreases if from <= |t| then |t| - from else 0, 1
  {
    VisitsAfter(f, t, IndexIn(f, t, from))
  }

  /** The first visit is the leftmost match at or after `from`; there is none exactly
      when that search finds nothing. */
  lemma VisitsFirst(f: Matcher, t: string, from: nat)
    requires NonEmptyCaptures(f)
    ensures var ms := Visits(f, t, from);
      && (ms == [] <==> IndexIn(f, t, from).None?)
      && (ms != [] ==> IndexIn(f, t, from) == Some(ms[0]))
  {
  }

  /** A non-empty run of visits: the first match, then the visits from just after its
      capture, which lies strictly after `from`. */
  lemma VisitsCons(f: Matcher, t: string, from: nat)
    requires NonEmptyCaptures(f) && Visits(f, t, from) != []
    ensures var ms := Visits(f, t, from);
      && IndexIn(f, t, from) == Some(ms[0])
      && from < ms[0].offset + |ms[0].name|
      && ms[1..] == Visits(f, t, ms[0].offset + |ms[0].name|)
  {
  }

  /** The i-th visit is a match of the pattern at or after `from`. */
  lemma {:induction false} VisitsMatch(f: Matcher, t: string, from: nat, i: nat)
    requires NonEmptyCaptures(f) && i < |Visits(f, t, from)|
    ensures var m := Visits(f, t, from)[i];
      from <= m.offset < |t| && f(t, m.offset) == Some(m.name)
    decreases i
  {
    var ms := Visits(f, t, from);
    VisitsCons(f, t, from);
    if i > 0 {
      var next := ms[0].offset + |ms[0].name|;
      VisitsMatch(f, t, next, i - 1);
      assert ms[i] == ms[1..][i - 1];
    }
  }

  /** Each later visit is the leftmost match at or after the previous match's offset
      plus the length of its capture. */
  lemma {:induction false} VisitsNext(f: Matcher, t: string, from: nat, i: nat)
    requires NonEmptyCaptures(f) && i + 1 < |Visits(f, t, from)|
    ensures var ms := Visits(f, t, from);
      IndexIn(f, t, ms[i].offset + |ms[i].name|) == Some(ms[i + 1])
    decreases i
  {
    var ms := Visits(f, t, from);
    VisitsCons(f, t, from);
    var next := ms[0].offset + |ms[0].name|;
    var rest := ms[1..];
    if i > 0 {
      VisitsNext(f, t, next, i - 1);
      assert ms[i] == rest[i - 1] && ms[i + 1] == rest[i];
    } else {
      VisitsFirst(f, t, next);
      assert ms[1] == rest[0];
    }
  }

  /** The loop ends exactly when the search after the last visit finds nothing. */
  lemma {:induction false} VisitsEnd(f: Matcher, t: string, from: nat)
    requires NonEmptyCaptures(f) && Visits(f, t, from) != []
    ensures var ms := Visits(f, t, from);
      IndexIn(f, t, ms[|ms| - 1].offset + |ms[|ms| - 1].name|).None?
    decreases |t| - from
  {
    var ms := Visits(f, t, from);
    VisitsCons(f, t, from);
    var next := ms[0].offset + |ms[0].name|;
    var rest := ms[1..];
    if rest == [] {
      VisitsFirst(f, t, next);
    } else {
      VisitsEnd(f, t, next);
      assert ms[|ms| - 1] == rest[|rest| - 1];
    }
  }

  // ---------------------------------------------------------------------------------
  // The search for moc includes

  /** Every capture of mocIncludeRegExp is at least five characters long. */
  lemma MatchAtCapturesNonEmpty()
    ensures NonEmptyCaptures(MatchAt)
  {
    forall t: string, p: nat | MatchAt(t, p).Some?
      ensures MatchAt(t, p).value != []
    {
      MocNameLength(MatchAt(t, p).value);
    }
  }

  /** mocIncludeRegExp.indexIn(t, from). */
  function FindMocInclude(t: string, from: nat): (r: Option<Match>)
    ensures r.Some? ==> from <= r.value.offset < |t| && MatchAt(t, r.value.offset) == Some(r.value.name)
  {
    IndexIn(MatchAt, t, from)
  }

  /** The moc includes the classification loop visits in a file's text. */
  function MocIncludes(t: string): seq<Match>
  {
    MatchesAfter(t, FindMocInclude(t, 0))
  }

  /** The moc includes still to visit once the search has found `found`. */
  function MatchesAfter(t: string, found: Option<Match>): seq<Match>
    requires found.Some? ==> found.value.offset < |t| && MatchAt(t, found.value.offset) == Some(found.value.name)
  {
    MatchAtCapturesNonEmpty();
    VisitsAfter(MatchAt, t, found)
  }

  /** One turn of the do/while loop: the match found, then the matches of the search
      resumed after its capture. */
  lemma MatchesAfterStep(t: string, m: Match)
    requires m.offset < |t| && MatchAt(t, m.offset) == Some(m.name)
    ensures MatchesAfter(t, Some(m)) == [m] + MatchesAfter(t, FindMocInclude(t, m.offset + |m.name|))
  {
    MatchAtCapturesNonEmpty();
    var next := m.offset + |m.name|;
    assert MatchesAfter(t, Some(m)) == [m] + Visits(MatchAt, t, next);
    assert Visits(MatchAt, t, next) == VisitsAfter(MatchAt, t, IndexIn(MatchAt, t, next));
  }

  /** Every visited include is a line-anchored match whose capture is a moc name. */
  lemma MocIncludeAnchored(t: string, i: nat)
    requires i < |MocIncludes(t)|
    ensures var m := MocIncludes(t)[i];
      && m.offset < |t| && t[m.offset] == '\n' && MatchAt(t, m.offset) == Some(m.name)
      && IsMocName(m.name)
  {
    MatchAtCapturesNonEmpty();
    VisitsMatch(MatchAt, t, 0, i);
  }

  /** `[\n]\s*Q_OBJECT\b` anchored at p. */
  predicate QObjectAt(t: string, p: nat) {
    p < |t| && t[p] == '\n' && QObjectMarker(t[p + 1..])
  }

  /** `\s*Q_OBJECT\b` */
  predicate QObjectMarker(s: string) {
    if s == [] then false
    else if IsRegExpSpace(s[0]) then QObjectMarker(s[1..])
    else StartsWith(s, "Q_OBJECT") && (|s| == 8 || !IsWordChar(s[8]))
  }

  /** Q_OBJECT after any run of spaces, followed by the end of the text or a non-word
      character, is a marker. */
  lemma {:induction false} QObjectLine(w: string, rest: string)
    requires AllSpace(w) && (rest == [] || !IsWordChar(rest[0]))
    ensures QObjectMarker(w + ("Q_OBJECT" + rest))
    decreases |w|
  {
    var s := w + ("Q_OBJECT" + rest);
    if w != [] {
      assert s[0] == w[0] && IsRegExpSpace(s[0]);
      assert s[1..] == w[1..] + ("Q_OBJECT" + rest);
      QObjectLine(w[1..], rest);
    } else {
      assert s == "Q_OBJECT" + rest;
      QObjectWord(rest);
    }
  }

  /** The marker without leading spaces. */
  lemma QObjectWord(rest: string)
    requires rest == [] || !IsWordChar(rest[0])
    ensures QObjectMarker("Q_OBJECT" + rest)
  {
    var s := "Q_OBJECT" + rest;
    assert s[0] == 'Q';
    assert s[..8] == "Q_OBJECT";
    assert |s| > 8 ==> s[8] == rest[0];
  }

  /** Conversely every marker is such a line. */
  lemma {:induction false} QObjectMarkerParts(s: string) returns (w: string, rest: string)
    requires QObjectMarker(s)
    ensures AllSpace(w) && (rest == [] || !IsWordChar(rest[0])) && s == w + ("Q_OBJECT" + rest)
    decreases |s|
  {
    if IsRegExpSpace(s[0]) {
      var w', r' := QObjectMarkerParts(s[1..]);
      w, rest := [s[0]] + w', r';
      assert s == [s[0]] + s[1..];
    } else {
      w, rest := [], s[8..];
      assert s == s[..8] + s[8..];
    }
  }

  /** Whether qObjectRegExp matches anywhere at or after from. */
  predicate FindQObject(t: string, from: nat)
    decreases |t| - from
  {
    if from >= |t| then false
    else QObjectAt(t, from) || FindQObject(t, from + 1)
  }

  /** The search answers whether the pattern matches at some position at or after
      from. */
  lemma {:induction false} FindQObjectIsSearch(t: string, from: nat)
    ensures FindQObject(t, from) <==> exists p :: from <= p && QObjectAt(t, p)
    decreases |t| - from
  {
    if from < |t| {
      FindQObjectIsSearch(t, from + 1);
      if QObjectAt(t, from) {
        assert from <= from && QObjectAt(t, from);
      }
      if exists p :: from <= p && QObjectAt(t, p) {
        var p :| from <= p && QObjectAt(t, p);
        if p > from {
          assert from + 1 <= p;
        }
      }
    }
  }

  /** qObjectRegExp.indexIn(t) >= 0. */
  predicate HasQObject(t: string) {
    FindQObject(t, 0)
  }
}
