/** String and path helpers used by automoc: the QString / QFileInfo / QByteArray
    operations the tool relies on, as pure functions over `seq<char>`. */
module Text {

  datatype Option<T> = None | Some(value: T)

  type Path = string

  /** A line as returned by readLine() with its terminator removed. */
  type Line = s: string | '\n' !in s witness ""

  predicate StartsWith(s: string, prefix: string) {
    |prefix| <= |s| && s[..|prefix|] == prefix
  }

  predicate EndsWith(s: string, suffix: string) {
    |suffix| <= |s| && s[|s| - |suffix|..] == suffix
  }

  /** QString::lastIndexOf(c): the last position of c, or -1. */
  function LastIndexOf(s: string, c: char): (i: int)
    ensures -1 <= i < |s|
    ensures i >= 0 ==> s[i] == c
    ensures forall k :: i < k < |s| ==> s[k] != c
  {
    if s == [] then -1
    else if s[|s| - 1] == c then |s| - 1
    else LastIndexOf(s[..|s| - 1], c)
  }

  /** A suffix past the last occurrence of c holds no c. */
  lemma SuffixAvoids(s: string, i: nat, c: char)
    requires i <= |s| && forall k :: i <= k < |s| ==> s[k] != c
    ensures c !in s[i..]
  {
    assert forall k :: 0 <= k < |s| - i ==> s[i..][k] == s[i + k];
  }

  /** QFileInfo::fileName(): everything after the last '/'. */
  function FileName(p: Path): (f: string)
    ensures |f| <= |p| && EndsWith(p, f)
    ensures '/' !in f
    ensures |f| < |p| ==> p[|p| - |f| - 1] == '/'
  {
    var i := LastIndexOf(p, '/');
    SuffixAvoids(p, i + 1, '/');
    p[i + 1..]
  }

  /** QFileInfo::completeBaseName(): the file name up to (not including) its last '.';
      the whole file name when it has no '.'. */
  function CompleteBaseName(p: Path): (b: string)
    ensures StartsWith(FileName(p), b)
    ensures var f := FileName(p);
      || (b == f && '.' !in f)
      || (|b| < |f| && f[|b|] == '.' && '.' !in f[|b| + 1..])
  {
    var f := FileName(p);
    var d := LastIndexOf(f, '.');
    SuffixAvoids(f, d + 1, '.');
    if d < 0 then f else f[..d]
  }

  /** QFileInfo::absolutePath() + '/' for an absolute path: its directory with the
      trailing slash, so that the path is that directory followed by its file name.
      For a file in the root directory Qt gives "//" here; this gives "/". */
  function SourceDir(p: Path): (d: Path)
    ensures p == d + FileName(p)
    ensures d == [] || d[|d| - 1] == '/'
  {
    var i := LastIndexOf(p, '/');
    assert FileName(p) == p[i + 1..];
    assert p == p[..i + 1] + p[i + 1..];
    p[..i + 1]
  }

  /** Nor does a complete base name, which is a prefix of the file name. */
  lemma BaseNameHasNoSlash(p: Path)
    ensures '/' !in CompleteBaseName(p)
  {
    var f := FileName(p);
    var b := CompleteBaseName(p);
    assert forall k :: 0 <= k < |b| ==> b[k] == f[k];
  }

  lemma NotInConcat(c: char, a: string, b: string)
    requires c !in a && c !in b
    ensures c !in a + b
  {
    assert forall k :: 0 <= k < |a + b| ==> (a + b)[k] == if k < |a| then a[k] else b[k - |a|];
  }

  /** QFileInfo::path() of a relative include name that contains a '/': the text
      before its last '/', or "/" when that slash is the first character. */
  function IncludeDir(n: string): (d: string)
    ensures '/' !in n ==> d == "."
    ensures '/' in n ==>
      || (d == "/" && n == "/" + FileName(n))
      || (d != [] && n == d + "/" + FileName(n))
  {
    var i := LastIndexOf(n, '/');
    assert '/' in n ==> i >= 0;
    assert i >= 0 ==> n == n[..i] + "/" + n[i + 1..];
    if i == 0 then "/" else if i < 0 then "." else n[..i]
  }

  /** The whitespace removed by QByteArray::trimmed(). */
  predicate IsAsciiSpace(c: char) {
    c == ' ' || c == '\t' || c == '\n' || c == '\r' || c == '\U{000B}' || c == '\U{000C}'
  }

  /** QByteArray::trimmed(): leading and trailing whitespace removed. */
  function Trimmed(s: string): (t: string)
    ensures |t| <= |s|
    ensures t != [] ==> !IsAsciiSpace(t[0]) && !IsAsciiSpace(t[|t| - 1])
    decreases |s|
  {
    if s == [] then []
    else if IsAsciiSpace(s[0]) then Trimmed(s[1..])
    else if IsAsciiSpace(s[|s| - 1]) then Trimmed(s[..|s| - 1])
    else s
  }

  /** Trimming removes whitespace from both ends and nothing else: the result is the
      slice s[i..j], and every character outside it is whitespace. */
  lemma {:induction false} TrimmedIsSlice(s: string) returns (i: nat, j: nat)
    ensures i <= j <= |s| && Trimmed(s) == s[i..j]
    ensures forall k :: 0 <= k < i || j <= k < |s| ==> IsAsciiSpace(s[k])
    decreases |s|
  {
    if s == [] {
      i, j := 0, 0;
    } else if IsAsciiSpace(s[0]) {
      var i', j' := TrimmedIsSlice(s[1..]);
      i, j := i' + 1, j' + 1;
      assert s[1..][i'..j'] == s[i..j];
      forall k | 0 <= k < i || j <= k < |s| ensures IsAsciiSpace(s[k]) {
        if k > 0 {
          assert s[k] == s[1..][k - 1];
        }
      }
    } else if IsAsciiSpace(s[|s| - 1]) {
      var i', j' := TrimmedIsSlice(s[..|s| - 1]);
      i, j := i', j';
      assert s[..|s| - 1][i'..j'] == s[i..j];
      forall k | 0 <= k < i || j <= k < |s| ensures IsAsciiSpace(s[k]) {
        if k < |s| - 1 {
          assert s[k] == s[..|s| - 1][k];
        }
      }
    } else {
      i, j := 0, |s|;
    }
  }

  /** The end of the field that starts at i: the first separator at or after i, or |s|. */
  function FieldEnd(s: string, sep: char, i: nat): (k: nat)
    requires i <= |s|
    ensures i <= k <= |s|
    ensures k < |s| ==> s[k] == sep
    ensures forall j :: i <= j < k ==> s[j] != sep
    decreases |s| - i
  {
    if i == |s| || s[i] == sep then i else FieldEnd(s, sep, i + 1)
  }

  /** QString::split(sep, QString::SkipEmptyParts): the non-empty fields of s. */
  function Split(s: string, sep: char): (parts: seq<string>)
    ensures forall i :: 0 <= i < |parts| ==> parts[i] != [] && sep !in parts[i]
    decreases |s|
  {
    if s == [] then []
    else if s[0] == sep then
      Split(s[1..], sep)
    else
      var k := FieldEnd(s, sep, 0);
      [s[..k]] + Split(s[k..], sep)
  }

  /** Trimming adds no character. */
  lemma {:induction false} TrimmedKeepsOut(s: string, c: char)
    requires c !in s
    ensures c !in Trimmed(s)
    decreases |s|
  {
    if s != [] {
      if IsAsciiSpace(s[0]) {
        assert c !in s[1..];
        TrimmedKeepsOut(s[1..], c);
      } else if IsAsciiSpace(s[|s| - 1]) {
        assert c !in s[..|s| - 1];
        TrimmedKeepsOut(s[..|s| - 1], c);
      }
    }
  }

  /** Splitting adds no character: a character absent from s is absent from every
      field. */
  lemma {:induction false} SplitKeepsOut(s: string, sep: char, c: char)
    requires c !in s
    ensures forall i :: 0 <= i < |Split(s, sep)| ==> c !in Split(s, sep)[i]
    decreases |s|
  {
    if s != [] {
      if s[0] == sep {
        assert c !in s[1..];
        SplitKeepsOut(s[1..], sep, c);
      } else {
        var k := FieldEnd(s, sep, 0);
        assert c !in s[..k] && c !in s[k..];
        SplitKeepsOut(s[k..], sep, c);
        var parts := Split(s, sep);
        assert parts == [s[..k]] + Split(s[k..], sep);
        forall i | 0 <= i < |parts| ensures c !in parts[i] {
          if i > 0 {
            assert parts[i] == Split(s[k..], sep)[i - 1];
          }
        }
      }
    }
  }

  /** QStringList::join(sep): the parts, in order, with sep between them. */
  function Join(parts: seq<string>, sep: char): string
  {
    if parts == [] then []
    else if |parts| == 1 then parts[0]
    else parts[0] + [sep] + Join(parts[1..], sep)
  }

  /** A join starts with the first part and ends with the last one. */
  lemma {:induction false} JoinEnds(parts: seq<string>, sep: char)
    requires parts != []
    ensures StartsWith(Join(parts, sep), parts[0]) && EndsWith(Join(parts, sep), parts[|parts| - 1])
    decreases |parts|
  {
    if |parts| > 1 {
      JoinEnds(parts[1..], sep);
      var rest := Join(parts[1..], sep);
      var s := parts[0] + [sep] + rest;
      assert s[..|parts[0]|] == parts[0];
      assert s[|s| - |rest|..] == rest;
      assert parts[1..][|parts[1..]| - 1] == parts[|parts| - 1];
    }
  }

  /** Splitting a join of non-empty, separator-free fields gives the fields back. */
  lemma {:induction false} SplitJoin(parts: seq<string>, sep: char)
    requires forall i :: 0 <= i < |parts| ==> parts[i] != [] && sep !in parts[i]
    ensures Split(Join(parts, sep), sep) == parts
    decreases |parts|
  {
    if parts == [] {
    } else {
      var p := parts[0];
      var tail := if |parts| == 1 then [] else [sep] + Join(parts[1..], sep);
      var s := p + tail;
      assert Join(parts, sep) == s by {
        if |parts| > 1 {
          assert parts[0] + [sep] + Join(parts[1..], sep) == p + tail;
        }
      }
      FieldEndOf(p, sep, tail);
      assert Split(s, sep) == [p] + Split(tail, sep);
      if |parts| > 1 {
        var rest := Join(parts[1..], sep);
        assert tail[1..] == rest;
        assert Split(tail, sep) == Split(rest, sep);
        SplitJoin(parts[1..], sep);
        assert parts == [p] + parts[1..];
      }
    }
  }

  /** The first field of p + tail is p itself when p is non-empty, has no separator
      and the tail is empty or starts with the separator. */
  lemma FieldEndOf(p: string, sep: char, tail: string)
    requires p != [] && sep !in p
    requires tail == [] || tail[0] == sep
    ensures FieldEnd(p + tail, sep, 0) == |p|
    ensures (p + tail)[0] != sep && (p + tail)[..|p|] == p && (p + tail)[|p|..] == tail
  {
    var s := p + tail;
    var k := FieldEnd(s, sep, 0);
    assert forall j :: 0 <= j < |p| ==> s[j] == p[j] && s[j] != sep;
    assert |p| < |s| ==> s[|p|] == sep;
  }
}
