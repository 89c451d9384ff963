/** The string handling that ingestion relies on: trimming whitespace from a
    line, splitting on a single separator character, and the running joins of
    a path's segments.
 */
module Text {

  /** The separator of path segments in item and tag identifiers. */
  const PathSep: char := '/'

  /** The separator of tokens on a declaration line. */
  const TokenSep: char := ' '

  /** The whitespace that trimming removes: space, tab, line feed, carriage
      return, vertical tab and form feed. */
  predicate IsSpace(c: char) {
    c == ' ' || c == '\t' || c == '\n' || c == '\r' || c == '\U{000B}' || c == '\U{000C}'
  }

  function TrimStart(s: string): (r: string)
    ensures |r| <= |s| && r == s[|s| - |r|..]
    ensures forall i :: 0 <= i < |s| - |r| ==> IsSpace(s[i])
    ensures r == [] || !IsSpace(r[0])
    decreases |s|
  {
    if |s| > 0 && IsSpace(s[0]) then TrimStart(s[1..]) else s
  }

  function TrimEnd(s: string): (r: string)
    ensures |r| <= |s| && r == s[..|r|]
    ensures forall i :: |r| <= i < |s| ==> IsSpace(s[i])
    ensures r == [] || !IsSpace(r[|r| - 1])
    decreases |s|
  {
    if |s| > 0 && IsSpace(s[|s| - 1]) then TrimEnd(s[..|s| - 1]) else s
  }

  /** `r` sits at offset `i` of `s` with only whitespace around it. */
  ghost predicate StrippedAt(s: string, r: string, i: int) {
    && 0 <= i && i + |r| <= |s|
    && r == s[i..i + |r|]
    && (forall k :: 0 <= k < i ==> IsSpace(s[k]))
    && (forall k :: i + |r| <= k < |s| ==> IsSpace(s[k]))
  }

  /** Remove leading and trailing whitespace. */
  function Strip(s: string): (r: string)
    ensures exists i :: StrippedAt(s, r, i)
    ensures r == [] || (!IsSpace(r[0]) && !IsSpace(r[|r| - 1]))
  {
    var t := TrimStart(s);
    var r := TrimEnd(t);
    var i := |s| - |t|;
    assert r == s[i..i + |r|];
    forall k | i + |r| <= k < |s|
      ensures IsSpace(s[k])
    {
      assert s[k] == t[k - i];
    }
    assert StrippedAt(s, r, i);
    r
  }

  /** Stripping is determined by what it keeps: any infix of `s` with only
      whitespace around it and none at its own ends is the stripped `s`. */
  lemma {:induction false} StripUnique(s: string, r: string, i: int)
    requires StrippedAt(s, r, i)
    requires r == [] || (!IsSpace(r[0]) && !IsSpace(r[|r| - 1]))
    ensures Strip(s) == r
  {
    var r' := Strip(s);
    var i' :| StrippedAt(s, r', i');
    if r == [] {
      assert forall k :: 0 <= k < |s| ==> IsSpace(s[k]) by {
        forall k | 0 <= k < |s|
          ensures IsSpace(s[k])
        {
          if k >= i {
            assert i + |r| <= k;
          }
        }
      }
    } else if r' != [] {
      assert i == i';
      assert i + |r| == i' + |r'|;
    }
  }

  /** Stripping twice is stripping once. */
  lemma StripIdempotent(s: string)
    ensures Strip(Strip(s)) == Strip(s)
  {
    var r := Strip(s);
    assert StrippedAt(r, r, 0);
    StripUnique(r, r, 0);
  }

  /** The parts joined with `sep` between consecutive ones. */
  function Join(parts: seq<string>, sep: char): string
    requires |parts| >= 1
    decreases |parts|
  {
    if |parts| == 1 then parts[0] else parts[0] + [sep] + Join(parts[1..], sep)
  }

  /** Cut `s` at every occurrence of `sep`; an empty string gives one empty
      part, and adjacent separators give empty parts between them. */
  function Split(s: string, sep: char): (r: seq<string>)
    ensures |r| >= 1
    ensures forall i :: 0 <= i < |r| ==> sep !in r[i]
    ensures Join(r, sep) == s
    decreases |s|
  {
    if |s| == 0 then
      [""]
    else
      var rest := Split(s[1..], sep);
      if s[0] == sep then
        assert ([""] + rest)[1..] == rest;
        [""] + rest
      else
        var r := [[s[0]] + rest[0]] + rest[1..];
        assert s == [s[0]] + s[1..];
        assert |rest| > 1 ==> r[1..] == rest[1..];
        r
  }

  lemma {:induction false} SplitAfterPlainPrefix(x: string, y: string, sep: char)
    requires sep !in x
    ensures Split(x + y, sep) == [x + Split(y, sep)[0]] + Split(y, sep)[1..]
    decreases |x|
  {
    if |x| == 0 {
      assert x + y == y;
      assert x + Split(y, sep)[0] == Split(y, sep)[0];
      assert Split(y, sep) == [Split(y, sep)[0]] + Split(y, sep)[1..];
    } else {
      assert (x + y)[0] == x[0];
      assert (x + y)[1..] == x[1..] + y;
      SplitAfterPlainPrefix(x[1..], y, sep);
      assert [x[0]] + (x[1..] + Split(y, sep)[0]) == x + Split(y, sep)[0];
    }
  }

  /** Splitting undoes joining parts that do not contain the separator. */
  lemma {:induction false} SplitJoin(parts: seq<string>, sep: char)
    requires |parts| >= 1
    requires forall i :: 0 <= i < |parts| ==> sep !in parts[i]
    ensures Split(Join(parts, sep), sep) == parts
    decreases |parts|
  {
    var x := parts[0];
    if |parts| == 1 {
      SplitAfterPlainPrefix(x, "", sep);
      assert x + "" == x;
    } else {
      var z := Join(parts[1..], sep);
      SplitJoin(parts[1..], sep);
      assert Join(parts, sep) == x + ([sep] + z);
      SplitAfterPlainPrefix(x, [sep] + z, sep);
      assert ([sep] + z)[1..] == z;
      assert Split([sep] + z, sep) == [""] + Split(z, sep);
      assert x + "" == x;
      assert parts == [x] + parts[1..];
    }
  }

  lemma {:induction false} JoinSnoc(parts: seq<string>, x: string, sep: char)
    requires |parts| >= 1
    ensures Join(parts + [x], sep) == Join(parts, sep) + [sep] + x
    decreases |parts|
  {
    if |parts| == 1 {
      assert (parts + [x])[1..] == [x];
    } else {
      assert (parts + [x])[1..] == parts[1..] + [x];
      JoinSnoc(parts[1..], x, sep);
    }
  }

  /** The running joins of path segments, as `itertools.accumulate` builds
      them: the first segment, then each previous prefix, a separator and the
      next segment. */
  function Prefixes(segments: seq<string>): (r: seq<string>)
    requires |segments| >= 1
    ensures |r| == |segments|
    ensures r[0] == segments[0]
    ensures forall i :: 0 <= i < |r| - 1 ==> r[i + 1] == r[i] + [PathSep] + segments[i + 1]
    ensures forall i :: 0 <= i < |r| ==> r[i] == Join(segments[..i + 1], PathSep)
    decreases |segments|
  {
    if |segments| == 1 then
      [segments[0]]
    else
      var init := segments[..|segments| - 1];
      var a := Prefixes(init);
      var last := a[|a| - 1] + [PathSep] + segments[|segments| - 1];
      assert segments == init + [segments[|segments| - 1]];
      JoinSnoc(init, segments[|segments| - 1], PathSep);
      assert init[..|a|] == init;
      var r := a + [last];
      forall i | 0 <= i < |r|
        ensures r[i] == Join(segments[..i + 1], PathSep)
      {
        if i < |a| {
          assert init[..i + 1] == segments[..i + 1];
        } else {
          assert segments[..i + 1] == segments;
        }
      }
      r
  }

  /** The chain of containers a path denotes: every prefix that ends just
      before a separator, then the whole path. */
  function PathChain(path: string): (r: seq<string>)
    ensures |r| >= 1
    ensures r[|r| - 1] == path
    ensures |r| == 1 <==> PathSep !in path
    ensures forall i :: 0 <= i < |r| - 1 ==> r[i] + [PathSep] <= r[i + 1]
    ensures PathSep !in r[0]
    ensures forall i :: 0 <= i < |r| - 1 ==> PathSep !in r[i + 1][|r[i]| + 1..]
  {
    var segments := Split(path, PathSep);
    var r := Prefixes(segments);
    assert segments[..|segments|] == segments;
    assert PathSep !in path ==> |segments| == 1;
    assert |segments| == 1 ==> path == segments[0];
    forall i | 0 <= i < |r| - 1
      ensures PathSep !in r[i + 1][|r[i]| + 1..]
    {
      assert r[i + 1][|r[i]| + 1..] == segments[i + 1];
    }
    r
  }
}
