/**
 * Horizontal route matching for one path parameter (`ParamSegment`, written
 * `:name` in a route) and one wildcard (`WildcardSegment`, written `*name`).
 *
 * A path is a sequence of characters and every character counts one unit of
 * length, so the counters of the matchers are character counts.
 */
module ParamSegments {
  import opened Wrappers

  /** One element of a path generated from a route definition. Only the two
      variants produced by these segments are modelled. */
  datatype PathSegment = Param(name: string) | Splat(name: string)

  /** A successful partial match: the unconsumed suffix, the captured
      (name, value) parameters, and the consumed prefix. */
  datatype PartialPathMatch = PartialPathMatch(remaining: string, params: seq<(string, string)>, matched: string)

  /** The growable vector a route's segments append themselves to. */
  class SegmentVec {
    var segments: seq<PathSegment>

    constructor ()
      ensures segments == []
    {
      segments := [];
    }
  }

  /** Length of the longest prefix of `s` that holds no '/'. */
  function RunLength(s: string): (n: nat)
    ensures n <= |s|
    ensures forall i :: 0 <= i < n ==> s[i] != '/'
    ensures n < |s| ==> s[n] == '/'
  {
    if s == [] || s[0] == '/' then 0 else 1 + RunLength(s[1..])
  }

  /** `RunLength` is determined by the position of the first '/'. */
  lemma RunLengthIs(s: string, n: nat)
    requires n <= |s|
    requires forall i :: 0 <= i < n ==> s[i] != '/'
    requires n < |s| ==> s[n] == '/'
    ensures RunLength(s) == n
  {
  }

  /** The first character is consumed unconditionally, but counted only when
      it is '/'; the offset of the parameter value is then 1, otherwise 0. */
  function ParamOffset(path: string): (offset: nat)
    ensures offset <= 1 && offset <= |path|
    ensures offset == 1 <==> |path| > 0 && path[0] == '/'
  {
    if |path| > 0 && path[0] == '/' then 1 else 0
  }

  /** The characters counted into the parameter of a `ParamSegment`: those
      after the first one, up to (excluding) the next '/'. */
  function ParamLen(path: string): (len: nat)
    ensures ParamOffset(path) + len <= |path|
    ensures path != [] ==> len < |path|
  {
    if path == [] then 0 else RunLength(path[1..])
  }

  /** What `ParamSegment::test` computes, as written: split the path at
      `matched_len = param_offset + param_len` and capture
      `path[param_offset .. param_offset + param_len]`. */
  function ParamMatch(name: string, path: string): (r: Option<PartialPathMatch>)
    ensures r.None? <==> path == [] || (path[0] != '/' && (|path| == 1 || path[1] == '/'))
    ensures r.Some? ==> r.value.matched + r.value.remaining == path
    ensures r.Some? ==> |r.value.matched| == ParamOffset(path) + ParamLen(path)
    ensures r.Some? ==> r.value.params == [(name, path[ParamOffset(path)..|r.value.matched|])]
    ensures r.Some? && path[0] == '/' ==>
              && r.value.matched[0] == '/'
              && (forall i :: 1 <= i < |r.value.matched| ==> r.value.matched[i] != '/')
              && (r.value.remaining == [] || r.value.remaining[0] == '/')
              && r.value.params == [(name, r.value.matched[1..])]
  {
    var offset, len := ParamOffset(path), ParamLen(path);
    if offset + len == 0 then None
    else
      var matched, remaining := path[..offset + len], path[offset + len..];
      assert matched + remaining == path;
      Some(PartialPathMatch(remaining, [(name, path[offset..offset + len])], matched))
  }

  /** The characters counted into the value of a `WildcardSegment`: every
      character after the first one. */
  function WildcardLen(path: string): (len: nat)
    ensures ParamOffset(path) + len <= |path|
  {
    if path == [] then 0 else |path| - 1
  }

  /** What `WildcardSegment::test` computes, as written. */
  function WildcardMatch(name: string, path: string): (r: Option<PartialPathMatch>)
    ensures r.Some?
    ensures r.value.matched + r.value.remaining == path
    ensures |r.value.matched| == ParamOffset(path) + WildcardLen(path)
    ensures r.value.params == [(name, path[ParamOffset(path)..|r.value.matched|])]
    ensures path == [] || path[0] == '/' ==>
              r.value.matched == path && r.value.remaining == [] && r.value.params == [(name, path[ParamOffset(path)..])]
    ensures path != [] && path[0] != '/' ==>
              |r.value.matched| == |path| - 1 && r.value.remaining == [path[|path| - 1]]
  {
    var offset, len := ParamOffset(path), WildcardLen(path);
    var matched, remaining := path[..offset + len], path[offset + len..];
    assert matched + remaining == path;
    Some(PartialPathMatch(remaining, [(name, path[offset..offset + len])], matched))
  }

  /** A route segment that captures one path parameter named `name`. */
  datatype ParamSegment = ParamSegment(name: string)
  {
    /** Scans the path one character at a time, consuming an optional leading
        '/' and stopping before the next '/'. */
    method Test(path: string) returns (r: Option<PartialPathMatch>)
      ensures r == ParamMatch(name, path)
    {
      var matchedLen, paramOffset, paramLen := 0, 0, 0;
      // the first character is taken from the iterator whatever it is
      var i := if path == [] then 0 else 1;
      if path != [] && path[0] == '/' {
        matchedLen := matchedLen + 1;
        paramOffset := 1;
      }
      while i < |path|
        invariant i <= |path| && (if path == [] then i == paramLen == 0 else i == 1 + paramLen)
        invariant paramOffset == ParamOffset(path)
        invariant matchedLen == paramOffset + paramLen
        invariant forall k :: 1 <= k < i ==> path[k] != '/'
      {
        if path[i] == '/' {
          break;
        }
        matchedLen := matchedLen + 1;
        paramLen := paramLen + 1;
        i := i + 1;
      }
      if matchedLen == 0 {
        return None;
      }
      var matched, remaining := path[..matchedLen], path[matchedLen..];
      r := Some(PartialPathMatch(remaining, [(name, path[paramOffset..paramLen + paramOffset])], matched));
    }

    /** Appends this segment to a path being generated from a route. */
    method GeneratePath(path: SegmentVec)
      modifies path
      ensures path.segments == old(path.segments) + [Param(name)]
    {
      path.segments := path.segments + [Param(name)];
    }
  }

  /** A route segment that captures the rest of the path as `name`. */
  datatype WildcardSegment = WildcardSegment(name: string)
  {
    /** Consumes an optional leading '/' and then every other character. */
    method Test(path: string) returns (r: Option<PartialPathMatch>)
      ensures r == WildcardMatch(name, path)
    {
      var matchedLen, paramOffset, paramLen := 0, 0, 0;
      var i := if path == [] then 0 else 1;
      if path != [] && path[0] == '/' {
        matchedLen := matchedLen + 1;
        paramOffset := paramOffset + 1;
      }
      while i < |path|
        invariant i <= |path| && (if path == [] then i == paramLen == 0 else i == 1 + paramLen)
        invariant paramOffset == ParamOffset(path)
        invariant matchedLen == paramOffset + paramLen
      {
        matchedLen := matchedLen + 1;
        paramLen := paramLen + 1;
        i := i + 1;
      }
      var matched, remaining := path[..matchedLen], path[matchedLen..];
      r := Some(PartialPathMatch(remaining, [(name, path[paramOffset..paramLen + paramOffset])], matched));
    }

    /** Appends this segment to a path being generated from a route. */
    method GeneratePath(path: SegmentVec)
      modifies path
      ensures path.segments == old(path.segments) + [Splat(name)]
    {
      path.segments := path.segments + [Splat(name)];
    }
  }

  // Examples pinned down by the unit tests next to the matchers.

  lemma SingleParamMatch()
    ensures ParamMatch("a", "/foo") == Some(PartialPathMatch("", [("a", "foo")], "/foo"))
  {
    var path := "/foo";
    RunLengthIs(path[1..], 3);
    assert path[..4] == path && path[4..] == "" && path[1..4] == "foo";
  }

  lemma SingleParamMatchWithTrailingSlash()
    ensures ParamMatch("a", "/foo/") == Some(PartialPathMatch("/", [("a", "foo")], "/foo"))
  {
    var path := "/foo/";
    RunLengthIs(path[1..], 3);
    assert path[..4] == "/foo" && path[4..] == "/" && path[1..4] == "foo";
  }

  /** The first of two parameter segments stops at the slash before `bar`. */
  lemma FirstOfTupleMatch()
    ensures ParamMatch("a", "/foo/bar") == Some(PartialPathMatch("/bar", [("a", "foo")], "/foo"))
  {
    var path := "/foo/bar";
    RunLengthIs(path[1..], 3);
    assert path[..4] == "/foo" && path[4..] == "/bar" && path[1..4] == "foo";
  }

  /** The second of two parameter segments takes what the first one left. */
  lemma SecondOfTupleMatch()
    ensures ParamMatch("b", "/bar") == Some(PartialPathMatch("", [("b", "bar")], "/bar"))
  {
    var rest := "/bar";
    RunLengthIs(rest[1..], 3);
    assert rest[..4] == rest && rest[4..] == "" && rest[1..4] == "bar";
  }

  /** Two parameter segments in a row: the second one is tried on what the
      first one left, and together they consume `/foo/bar`. */
  lemma TupleOfParamMatches()
    ensures ParamMatch("a", "/foo/bar") == Some(PartialPathMatch("/bar", [("a", "foo")], "/foo"))
    ensures ParamMatch("b", "/bar") == Some(PartialPathMatch("", [("b", "bar")], "/bar"))
    ensures var first := ParamMatch("a", "/foo/bar");
            var second := ParamMatch("b", first.value.remaining);
            && first.Some? && second.Some?
            && first.value.matched + second.value.matched == "/foo/bar"
            && second.value.remaining == ""
            && first.value.params + second.value.params == [("a", "foo"), ("b", "bar")]
  {
    FirstOfTupleMatch();
    SecondOfTupleMatch();
    assert "/foo" + "/bar" == "/foo/bar";
    assert [("a", "foo")] + [("b", "bar")] == [("a", "foo"), ("b", "bar")];
  }

  /** The wildcard, tried on what two static segments leave of `/foo/bar/////`,
      keeps every slash after the first one. */
  lemma SplatShouldMatchAll()
    ensures WildcardMatch("rest", "/////") == Some(PartialPathMatch("", [("rest", "////")], "/////"))
  {
  }

  // The first character of a path that does not start with '/' is consumed
  // by the iterator but never counted, so the split point falls one
  // character short of the characters that were examined.

  /** The parameter match as evidently intended: a first character other
      than '/' belongs to the parameter. */
  function IntendedParamMatch(name: string, path: string): (r: Option<PartialPathMatch>)
    ensures r.None? <==> path == []
    ensures r.Some? ==>
              && r.value.matched + r.value.remaining == path
              && (r.value.remaining == [] || r.value.remaining[0] == '/')
              && |r.value.matched| >= ParamOffset(path)
              && r.value.params == [(name, r.value.matched[ParamOffset(path)..])]
              && (forall i :: ParamOffset(path) <= i < |r.value.matched| ==> r.value.matched[i] != '/')
  {
    var offset := ParamOffset(path);
    var len := RunLength(path[offset..]);
    if offset + len == 0 then None
    else
      var matched, remaining := path[..offset + len], path[offset + len..];
      assert matched + remaining == path;
      Some(PartialPathMatch(remaining, [(name, path[offset..offset + len])], matched))
  }

  /** As written, `foo` is split into `fo` and `o`: the remainder does not
      start with '/', and the intended match would consume all of `foo`. */
  lemma ParamMatchDropsFirstCharacter()
    ensures ParamMatch("a", "foo") == Some(PartialPathMatch("o", [("a", "fo")], "fo"))
    ensures IntendedParamMatch("a", "foo") == Some(PartialPathMatch("", [("a", "foo")], "foo"))
  {
    var path := "foo";
    RunLengthIs(path[1..], 2);
    assert path[..2] == "fo" && path[2..] == "o" && path[0..2] == "fo";
    RunLengthIs(path, 3);
    assert path[0..] == path && path[..3] == path && path[3..] == "" && path[0..3] == path;
  }

  /** On the empty path and on every path that starts with '/', the code as
      written and the intended match agree. */
  lemma {:induction false} ParamMatchAgreesOnSlashPaths(name: string, path: string)
    requires path == [] || path[0] == '/'
    ensures ParamMatch(name, path) == IntendedParamMatch(name, path)
  {
    if path != [] {
      assert path[ParamOffset(path)..] == path[1..];
    }
  }

  /** The wildcard match as evidently intended: it consumes the whole path. */
  function IntendedWildcardMatch(name: string, path: string): (r: Option<PartialPathMatch>)
    ensures r.Some?
    ensures r.value.matched == path && r.value.remaining == []
    ensures r.value.params == [(name, path[ParamOffset(path)..])]
  {
    Some(PartialPathMatch([], [(name, path[ParamOffset(path)..])], path))
  }

  /** As written, `abc` is split into `ab` and `c`. */
  lemma WildcardMatchDropsLastCharacter()
    ensures WildcardMatch("rest", "abc") == Some(PartialPathMatch("c", [("rest", "ab")], "ab"))
    ensures IntendedWildcardMatch("rest", "abc") == Some(PartialPathMatch("", [("rest", "abc")], "abc"))
  {
    var path := "abc";
    assert path[..2] == "ab" && path[2..] == "c" && path[0..2] == "ab" && path[0..] == path;
  }

  lemma WildcardMatchAgreesOnSlashPaths(name: string, path: string)
    requires path == [] || path[0] == '/'
    ensures WildcardMatch(name, path) == IntendedWildcardMatch(name, path)
  {
  }
}
