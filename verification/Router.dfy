/** Path templates and most-specific dispatch (src/http/router.cpp). */
module Router {
  import opened Text
  import opened Wrappers

  // ----- paths and segments -----

  function StripSlashes(path: string): string {
    if path != "" && path[0] == '/' then StripSlashes(path[1..]) else path
  }

  /** The pieces between slashes, empty ones included. */
  function Segments(s: string): seq<string>
    decreases |s|
  {
    var (segment, after) := Cut(s, {'/'});
    assert |segment| + |after| == |s|;
    if after == "" then [segment] else [segment] + Segments(after[1..])
  }

  function PathSegments(path: string): seq<string> {
    var segments := Segments(StripSlashes(path));
    if segments == [""] then [] else segments
  }

  method SplitPath(path: string) returns (segments: seq<string>)
    ensures segments == PathSegments(path)
  {
    var rest := path;
    while rest != "" && rest[0] == '/'
      invariant StripSlashes(rest) == StripSlashes(path)
      decreases |rest|
    {
      rest := rest[1..];
    }
    ghost var stripped := rest;
    segments := [];
    var more := true;
    while more
      invariant more ==> segments + Segments(rest) == Segments(stripped)
      invariant !more ==> segments == Segments(stripped)
      decreases more, |rest|
    {
      var (segment, after) := Cut(rest, {'/'});
      ghost var before := segments;
      segments := segments + [segment];
      if after == "" {
        more := false;
      } else {
        assert |segment| + |after| == |rest|;
        assert before + ([segment] + Segments(after[1..])) == segments + Segments(after[1..]);
        rest := after[1..];
      }
    }
    if |segments| == 1 && segments[0] == "" {
      segments := [];
    }
  }

  /** The inverse of splitting: segments with slashes between them. */
  function Joined(segments: seq<string>): string {
    if segments == [] then "" else if |segments| == 1 then segments[0]
    else segments[0] + ("/" + Joined(segments[1..]))
  }

  lemma {:induction false} JoinSegments(s: string)
    ensures Segments(s) != [] && Joined(Segments(s)) == s
    ensures forall i :: 0 <= i < |Segments(s)| ==> NoneOf(Segments(s)[i], {'/'})
    decreases |s|
  {
    var (segment, after) := Cut(s, {'/'});
    if after != "" {
      assert |segment| + |after| == |s|;
      JoinSegments(after[1..]);
      assert "/" + after[1..] == after;
      assert Segments(s)[1..] == Segments(after[1..]);
    }
  }

  /** A path is its leading slashes and a text that does not start with one. */
  lemma {:induction false} Stripped(path: string)
    ensures var rest := StripSlashes(path);
            && |rest| <= |path| && path[|path| - |rest|..] == rest && (rest == "" || rest[0] != '/')
            && forall i :: 0 <= i < |path| - |rest| ==> path[i] == '/'
  {
    if path != "" && path[0] == '/' {
      Stripped(path[1..]);
      assert forall i :: 1 <= i < |path| ==> path[i] == path[1..][i - 1];
    }
  }

  /** Splitting a path and joining the segments gives the path without its leading slashes, all of them and nothing else. */
  lemma {:induction false} SplitPathJoins(path: string)
    ensures Joined(PathSegments(path)) == StripSlashes(path)
    ensures var rest := Joined(PathSegments(path));
            && |rest| <= |path| && path[|path| - |rest|..] == rest && (rest == "" || rest[0] != '/')
            && forall i :: 0 <= i < |path| - |rest| ==> path[i] == '/'
    ensures forall i :: 0 <= i < |PathSegments(path)| ==> NoneOf(PathSegments(path)[i], {'/'})
  {
    JoinSegments(StripSlashes(path));
    Stripped(path);
  }

  /** Any list of slash-free segments is what its joined text splits into. */
  lemma {:induction false} SegmentsOfJoined(segments: seq<string>)
    requires segments != [] && forall i :: 0 <= i < |segments| ==> NoneOf(segments[i], {'/'})
    ensures Segments(Joined(segments)) == segments
  {
    if |segments| == 1 {
      CutUnique(segments[0], "", {'/'});
      assert segments[0] + "" == segments[0];
    } else {
      var rest := Joined(segments[1..]);
      SegmentsOfJoined(segments[1..]);
      CutUnique(segments[0], "/" + rest, {'/'});
      assert ("/" + rest)[1..] == rest;
    }
  }

  // ----- templates -----

  predicate IsNameStart(c: char) {
    IsLetter(c) || c == '_'
  }

  predicate IsCapture(segment: string) {
    && |segment| >= 3 && segment[0] == '{' && segment[|segment| - 1] == '}'
    && IsNameStart(segment[1])
    && forall i :: 2 <= i < |segment| - 1 ==> IsNameStart(segment[i]) || IsDigit(segment[i])
  }

  function CaptureName(segment: string): string
    requires IsCapture(segment)
  {
    segment[1..|segment| - 1]
  }

  /** A name is matched by [A-Za-z_][A-Za-z0-9_]*. */
  ghost predicate IsName(name: string) {
    && name != "" && !('0' <= name[0] <= '9')
    && forall i :: 0 <= i < |name| ==>
         'A' <= name[i] <= 'Z' || 'a' <= name[i] <= 'z' || name[i] == '_' || '0' <= name[i] <= '9'
  }

  /** A capture is a name in braces. */
  lemma {:induction false} CaptureExactly(segment: string, name: string)
    ensures IsCapture(segment) && CaptureName(segment) == name <==> segment == "{" + name + "}" && IsName(name)
  {
    if IsCapture(segment) {
      var inside := CaptureName(segment);
      assert segment == "{" + inside + "}";
      assert forall i :: 0 <= i < |inside| ==> inside[i] == segment[i + 1];
    }
    if segment == "{" + name + "}" && IsName(name) {
      assert segment[1..|segment| - 1] == name;
      assert forall i :: 1 <= i < |segment| - 1 ==> segment[i] == name[i - 1];
    }
  }

  function CountLiterals(segments: seq<string>): nat {
    if segments == [] then 0 else
      CountLiterals(segments[..|segments| - 1]) + (if IsCapture(segments[|segments| - 1]) then 0 else 1)
  }

  function Specificity(pattern: string): nat {
    CountLiterals(PathSegments(pattern))
  }

  /** Specificity counts the segments that are not captures. */
  lemma {:induction false} LiteralsAreCounted(segments: seq<string>)
    ensures CountLiterals(segments) == |set i | 0 <= i < |segments| && !IsCapture(segments[i])|
  {
    var literals := set i | 0 <= i < |segments| && !IsCapture(segments[i]);
    if segments == [] {
      assert literals == {};
    } else {
      var n := |segments| - 1;
      var front := segments[..n];
      LiteralsAreCounted(front);
      var before := set i | 0 <= i < |front| && !IsCapture(front[i]);
      if IsCapture(segments[n]) {
        assert literals == before;
      } else {
        assert literals == before + {n};
      }
    }
  }

  datatype Context = Context(params: map<string, string>, query: string, routeLabel: string)

  /** A segment list fits a pattern: literals are equal and captures are not empty. */
  predicate Fits(pattern: seq<string>, actual: seq<string>) {
    && |pattern| == |actual|
    && forall i :: 0 <= i < |pattern| ==> FitsAt(pattern[i], actual[i])
  }

  predicate FitsAt(pattern: string, actual: string) {
    if IsCapture(pattern) then actual != "" else pattern == actual
  }

  /** The captured values; a later capture of the same name wins. */
  function Captures(pattern: seq<string>, actual: seq<string>): map<string, string>
    requires |pattern| == |actual|
  {
    if pattern == [] then map[] else
      var n := |pattern| - 1;
      var before := Captures(pattern[..n], actual[..n]);
      if IsCapture(pattern[n]) then before[CaptureName(pattern[n]) := actual[n]] else before
  }

  predicate IsCatchAll(pattern: seq<string>) {
    |pattern| == 1 && IsCapture(pattern[0]) && CaptureName(pattern[0]) == "path"
  }

  function PathOf(target: string): string {
    Cut(target, {'?'}).0
  }

  function QueryOf(target: string): string {
    var q := Cut(target, {'?'}).1;
    if q == "" then "" else q[1..]
  }

  /** The parameters of a match, or `None`. */
  function MatchParams(pattern: string, path: string): Option<map<string, string>> {
    var expected, actual := PathSegments(pattern), PathSegments(path);
    if |expected| != |actual| then
      if IsCatchAll(expected) && path != "" && path != "/"
      then Some(map["path" := if path[0] == '/' then path[1..] else path]) else None
    else if Fits(expected, actual) then Some(Captures(expected, actual)) else None
  }

  predicate Matches(pattern: string, target: string) {
    MatchParams(pattern, PathOf(target)).Some?
  }

  /** On a mismatch the source clears the context, except for the query when the lengths differ. */
  method MatchPath(pattern: string, target: string) returns (context: Option<Context>)
    ensures context == if Matches(pattern, target)
                       then Some(Context(MatchParams(pattern, PathOf(target)).value, QueryOf(target), "")) else None
  {
    var (path, rest) := Cut(target, {'?'});
    var query := if rest == "" then "" else rest[1..];
    var expected := SplitPath(pattern);
    var actual := SplitPath(path);
    if |expected| != |actual| {
      if |expected| == 1 && IsCapture(expected[0]) && CaptureName(expected[0]) == "path" && path != "" && path != "/" {
        var value := if path[0] == '/' then path[1..] else path;
        return Some(Context(map["path" := value], query, ""));
      }
      return None;
    }
    var params := MatchSegments(expected, actual);
    if params.None? {
      return None;
    }
    return Some(Context(params.value, query, ""));
  }

  /** The loop over the segments. */
  method MatchSegments(expected: seq<string>, actual: seq<string>) returns (result: Option<map<string, string>>)
    requires |expected| == |actual|
    ensures result == if Fits(expected, actual) then Some(Captures(expected, actual)) else None
  {
    var params: map<string, string> := map[];
    for i := 0 to |expected|
      invariant forall j :: 0 <= j < i ==> FitsAt(expected[j], actual[j])
      invariant params == Captures(expected[..i], actual[..i])
    {
      assert expected[..i + 1][..i] == expected[..i] && actual[..i + 1][..i] == actual[..i];
      if IsCapture(expected[i]) {
        if actual[i] == "" {
          assert !FitsAt(expected[i], actual[i]);
          return None;
        }
        params := params[CaptureName(expected[i]) := actual[i]];
        continue;
      }
      if expected[i] != actual[i] {
        assert !FitsAt(expected[i], actual[i]);
        return None;
      }
    }
    assert expected[..|expected|] == expected && actual[..|actual|] == actual;
    return Some(params);
  }

  /** A target is a path, then optionally a question mark and the query. */
  lemma TargetSplits(path: string, query: string)
    requires NoneOf(path, {'?'})
    ensures PathOf(path + ("?" + query)) == path && QueryOf(path + ("?" + query)) == query
    ensures PathOf(path) == path && QueryOf(path) == ""
  {
    CutUnique(path, "?" + query, {'?'});
    CutUnique(path, "", {'?'});
    assert path + "" == path && ("?" + query)[1..] == query;
  }

  /** The catch-all template matches every path except the empty one and the root. */
  lemma CatchAllExactly(pattern: string, target: string)
    requires IsCatchAll(PathSegments(pattern))
    ensures Matches(pattern, target) <==> PathOf(target) != "" && PathOf(target) != "/"
  {
    var path := PathOf(target);
    var segments := PathSegments(path);
    SplitPathJoins(path);
    if |segments| == 1 {
      assert segments[0] != "";
      assert FitsAt(PathSegments(pattern)[0], segments[0]);
    }
  }

  // ----- captures put back -----

  /** The pattern with every capture replaced by its value. */
  function Substitute(pattern: seq<string>, params: map<string, string>): seq<string> {
    if pattern == [] then [] else
      var n := |pattern| - 1;
      var last := pattern[n];
      Substitute(pattern[..n], params)
      + [if IsCapture(last) && CaptureName(last) in params then params[CaptureName(last)] else last]
  }

  predicate SameCapture(a: string, b: string) {
    IsCapture(a) && IsCapture(b) && CaptureName(a) == CaptureName(b)
  }

  /** Captures of one name saw one value; always so when names are distinct. */
  ghost predicate OneValuePerName(pattern: seq<string>, actual: seq<string>)
    requires |pattern| == |actual|
  {
    forall i, j :: 0 <= i < j < |pattern| && SameCapture(pattern[i], pattern[j]) ==> actual[i] == actual[j]
  }

  lemma {:induction false} SubstituteAt(pattern: seq<string>, params: map<string, string>, i: nat)
    requires i < |pattern|
    ensures |Substitute(pattern, params)| == |pattern|
    ensures var s := pattern[i];
            Substitute(pattern, params)[i] == if IsCapture(s) && CaptureName(s) in params then params[CaptureName(s)] else s
  {
    var n := |pattern| - 1;
    if i < n {
      SubstituteAt(pattern[..n], params, i);
    } else if n > 0 {
      SubstituteAt(pattern[..n], params, 0);
    }
  }

  /** Every captured name is recorded, with the value of its last occurrence. */
  lemma {:induction false} CapturedLast(pattern: seq<string>, actual: seq<string>, i: nat)
    requires |pattern| == |actual| && i < |pattern| && IsCapture(pattern[i])
    ensures CaptureName(pattern[i]) in Captures(pattern, actual)
    ensures exists j :: i <= j < |pattern| && IsCapture(pattern[j]) && CaptureName(pattern[j]) == CaptureName(pattern[i])
                        && Captures(pattern, actual)[CaptureName(pattern[i])] == actual[j]
  {
    var n := |pattern| - 1;
    if IsCapture(pattern[n]) && CaptureName(pattern[n]) == CaptureName(pattern[i]) {
      assert Captures(pattern, actual)[CaptureName(pattern[i])] == actual[n];
    } else {
      CapturedLast(pattern[..n], actual[..n], i);
      var j :| i <= j < n && IsCapture(pattern[..n][j]) && CaptureName(pattern[..n][j]) == CaptureName(pattern[i])
               && Captures(pattern[..n], actual[..n])[CaptureName(pattern[i])] == actual[..n][j];
      assert IsCapture(pattern[j]) && Captures(pattern, actual)[CaptureName(pattern[i])] == actual[j];
    }
  }

  lemma {:induction false} FittedRebuilds(pattern: seq<string>, actual: seq<string>)
    requires Fits(pattern, actual)
    ensures Substitute(pattern, Captures(pattern, actual)) == actual <==> OneValuePerName(pattern, actual)
  {
    var params := Captures(pattern, actual);
    forall i | 0 <= i < |pattern|
      ensures |Substitute(pattern, params)| == |pattern|
      ensures OneValuePerName(pattern, actual) ==> Substitute(pattern, params)[i] == actual[i]
      ensures IsCapture(pattern[i]) ==> CaptureName(pattern[i]) in params && Substitute(pattern, params)[i] == params[CaptureName(pattern[i])]
    {
      SubstituteAt(pattern, params, i);
      if IsCapture(pattern[i]) {
        CapturedLast(pattern, actual, i);
      }
    }
  }

  /**
   Putting the captures of any match back into the pattern rebuilds the path's segments exactly when
   there are as many as in the pattern and captures of one name saw one value.
   */
  lemma CapturesRebuildPath(pattern: string, path: string)
    requires MatchParams(pattern, path).Some?
    ensures var expected, actual := PathSegments(pattern), PathSegments(path);
            Substitute(expected, MatchParams(pattern, path).value) == actual
            <==> |expected| == |actual| && OneValuePerName(expected, actual)
  {
    var expected, actual := PathSegments(pattern), PathSegments(path);
    if |expected| == |actual| {
      FittedRebuilds(expected, actual);
    } else {
      SubstituteAt(expected, MatchParams(pattern, path).value, 0);
    }
  }

  /** With one name for two segments the second value wins: the pattern /{a}/{a} on /x/y gives /y/y. */
  lemma RepeatedNameLosesValue()
    ensures var pattern, actual := ["{a}", "{a}"], ["x", "y"];
            Fits(pattern, actual) && Substitute(pattern, Captures(pattern, actual)) != actual
  {
    var pattern, actual := ["{a}", "{a}"], ["x", "y"];
    assert IsCapture("{a}");
    assert SameCapture(pattern[0], pattern[1]) && actual[0] != actual[1];
    FittedRebuilds(pattern, actual);
  }

  /** A catch-all match of several segments keeps them in one capture, so putting it back does not give them. */
  lemma CatchAllKeepsOneSegment(pattern: string, path: string)
    requires IsCatchAll(PathSegments(pattern)) && |PathSegments(path)| > 1
    ensures MatchParams(pattern, path).Some?
    ensures Substitute(PathSegments(pattern), MatchParams(pattern, path).value) != PathSegments(path)
  {
    EmptyPaths();
    CapturesRebuildPath(pattern, path);
  }

  lemma EmptyPaths()
    ensures PathSegments("") == [] && PathSegments("/") == []
  {
    assert StripSlashes("/") == "" && Segments("") == [""];
  }

  /** The path of two segments that the fallback template of the server takes whole. */
  lemma CatchAllOfTwoSegments(name: string, text: string)
    requires name == "{path}" && text == "a/b"
    ensures MatchParams("/" + name, "/" + text) == Some(map["path" := text])
    ensures Substitute(PathSegments("/" + name), map["path" := text]) != PathSegments("/" + text)
  {
    PathIsCapture(name);
    TwoSegments(text);
    SegmentsOfPath(name, [name]);
    SegmentsOfPath(text, ["a", "b"]);
    assert ("/" + text)[1..] == text;
    CatchAllKeepsOneSegment("/" + name, "/" + text);
  }

  lemma PathIsCapture(name: string)
    requires name == "{path}"
    ensures IsCapture(name) && CaptureName(name) == "path" && NoneOf(name, {'/'}) && name[0] != '/'
  {
  }

  lemma TwoSegments(text: string)
    requires text == "a/b"
    ensures text == Joined(["a", "b"]) && text[0] != '/' && NoneOf("a", {'/'}) && NoneOf("b", {'/'})
  {
    assert ["a", "b"][1..] == ["b"];
  }

  /** A slash and some segments. */
  lemma {:induction false} SegmentsOfPath(text: string, segments: seq<string>)
    requires segments != [] && text == Joined(segments) && text != "" && text[0] != '/'
    requires forall i :: 0 <= i < |segments| ==> NoneOf(segments[i], {'/'})
    ensures PathSegments("/" + text) == PathSegments(text) == segments
  {
    assert ("/" + text)[1..] == text;
    SegmentsOfJoined(segments);
  }

  /** What a catch-all match does keep: its capture has the segments of the path. */
  lemma CatchAllKeepsPath(pattern: string, path: string)
    requires IsCatchAll(PathSegments(pattern)) && MatchParams(pattern, path).Some?
    ensures var params := MatchParams(pattern, path).value;
            && params.Keys == {"path"} && PathSegments(params["path"]) == PathSegments(path)
            && (|PathSegments(path)| != 1 ==> params["path"] == if path[0] == '/' then path[1..] else path)
  {
    var expected, actual := PathSegments(pattern), PathSegments(path);
    if |actual| == 1 {
      SplitPathJoins(path);
      assert expected[..0] == [] && actual[..0] == [];
      assert Captures(expected, actual) == map["path" := actual[0]];
      assert actual[0] != "" && actual == [actual[0]];
      SegmentsOfPath(actual[0], actual);
    }
  }

  // ----- dispatch -----

  datatype Verb = Unknown | Get | Post | Patch | Delete | Other(name: string)

  datatype Route = Route(verb: Verb, pattern: string, routeLabel: string)

  /** Which handler runs, or the error response; `only` is the one supported method the message names. */
  datatype Outcome = Handled(index: nat, context: Context) | InvalidMethod(only: Option<Verb>) | NotFound

  /** What dispatch needs to know about a route for one target: the context of a match, if it matches. */
  datatype Candidate = Candidate(context: Option<Context>, specificity: nat, verb: Verb)

  function CandidateOf(route: Route, target: string): Candidate {
    var params := MatchParams(route.pattern, PathOf(target));
    var context := if params.Some? then Some(Context(params.value, QueryOf(target), route.routeLabel)) else None;
    Candidate(context, Specificity(route.pattern), route.verb)
  }

  function Candidates(routes: seq<Route>, target: string): (cs: seq<Candidate>)
    ensures |cs| == |routes|
  {
    if routes == [] then [] else
      Candidates(routes[..|routes| - 1], target) + [CandidateOf(routes[|routes| - 1], target)]
  }

  lemma {:induction false} CandidateAt(routes: seq<Route>, target: string, i: nat)
    requires i < |routes|
    ensures Candidates(routes, target)[i] == CandidateOf(routes[i], target)
  {
    if i < |routes| - 1 {
      CandidateAt(routes[..|routes| - 1], target, i);
    }
  }

  /** The route matches and no matching route has more literal segments. */
  ghost predicate IsBest(cs: seq<Candidate>, i: nat)
    requires i < |cs|
  {
    cs[i].context.Some? && forall j :: 0 <= j < |cs| && cs[j].context.Some? ==> cs[j].specificity <= cs[i].specificity
  }

  ghost predicate AnyMatches(cs: seq<Candidate>) {
    exists i :: 0 <= i < |cs| && cs[i].context.Some?
  }

  /** The first `n` routes hold no most specific match with the given method. */
  ghost predicate NoneBestWith(cs: seq<Candidate>, n: nat, verb: Verb)
    requires n <= |cs|
  {
    forall i :: 0 <= i < n && IsBest(cs, i) ==> cs[i].verb != verb
  }

  /** What the method of the error message means, when no route is registered for the unknown method. */
  ghost predicate OnlyIsRight(cs: seq<Candidate>, only: Option<Verb>) {
    (forall i :: 0 <= i < |cs| ==> cs[i].verb != Unknown) ==>
      if only.Some? then forall i :: 0 <= i < |cs| && IsBest(cs, i) ==> cs[i].verb == only.value
      else Differ(cs, |cs|)
  }

  // ----- the same in terms of the route table -----

  /** How many segments of a pattern are no captures. */
  ghost function Literals(pattern: string): nat {
    |set i | 0 <= i < |PathSegments(pattern)| && !IsCapture(PathSegments(pattern)[i])|
  }

  /** What a request for `path` that a route takes gets recorded: the whole path for a catch-all, else one value for each captured name. */
  ghost predicate IsRecord(pattern: string, path: string, params: map<string, string>) {
    var expected, actual := PathSegments(pattern), PathSegments(path);
    if |expected| == |actual| then
      && (forall i :: 0 <= i < |expected| && IsCapture(expected[i]) ==> CaptureName(expected[i]) in params)
      && (forall name :: name in params ==> exists i :: RecordedAt(expected, actual, name, params[name], i))
    else params == map["path" := if path != "" && path[0] == '/' then path[1..] else path]
  }

  /** The last segment captured under a name has the value. */
  ghost predicate RecordedAt(expected: seq<string>, actual: seq<string>, name: string, value: string, i: int)
    requires |expected| == |actual|
  {
    && 0 <= i < |expected| && IsCapture(expected[i]) && CaptureName(expected[i]) == name && actual[i] == value
    && forall j :: i < j < |expected| && IsCapture(expected[j]) ==> CaptureName(expected[j]) != name
  }

  /** A route takes a path: segment by segment, or as a catch-all of another number of segments. */
  ghost predicate Takes(pattern: string, path: string) {
    var expected, actual := PathSegments(pattern), PathSegments(path);
    if |expected| == |actual| then forall i :: 0 <= i < |expected| ==> if IsCapture(expected[i]) then actual[i] != "" else expected[i] == actual[i]
    else |expected| == 1 && expected[0] == "{path}" && path != "" && path != "/"
  }

  /** The route takes the path and none that does has more literal segments. */
  ghost predicate IsMostSpecific(routes: seq<Route>, path: string, i: nat)
    requires i < |routes|
  {
    && Takes(routes[i].pattern, path)
    && forall j :: 0 <= j < |routes| && Takes(routes[j].pattern, path) ==> Literals(routes[j].pattern) <= Literals(routes[i].pattern)
  }

  /** The contract of dispatch for a request for `path` with a query. */
  ghost predicate Answers(routes: seq<Route>, verb: Verb, path: string, query: string, outcome: Outcome) {
    match outcome
    case NotFound => forall i :: 0 <= i < |routes| ==> !Takes(routes[i].pattern, path)
    case InvalidMethod(only) =>
      && (exists i :: 0 <= i < |routes| && IsMostSpecific(routes, path, i))
      && (forall i :: 0 <= i < |routes| && IsMostSpecific(routes, path, i) ==> routes[i].verb != verb)
      && NamesOnly(routes, path, only)
    case Handled(k, context) =>
      && k < |routes| && IsMostSpecific(routes, path, k) && routes[k].verb == verb
      && (forall i :: 0 <= i < k && IsMostSpecific(routes, path, i) ==> routes[i].verb != verb)
      && context == Context(context.params, query, routes[k].routeLabel) && IsRecord(routes[k].pattern, path, context.params)
  }

  /** The error names a method when all most specific routes have it, and none when they differ (no route has the unknown method). */
  ghost predicate NamesOnly(routes: seq<Route>, path: string, only: Option<Verb>) {
    (forall i :: 0 <= i < |routes| ==> routes[i].verb != Unknown) ==>
      if only.Some? then forall i :: 0 <= i < |routes| && IsMostSpecific(routes, path, i) ==> routes[i].verb == only.value
      else exists i, j :: 0 <= i < j < |routes| && IsMostSpecific(routes, path, i) && IsMostSpecific(routes, path, j) && routes[i].verb != routes[j].verb
  }

  lemma {:induction false} CapturesAreLast(pattern: seq<string>, actual: seq<string>, name: string) returns (i: nat)
    requires |pattern| == |actual| && name in Captures(pattern, actual)
    ensures RecordedAt(pattern, actual, name, Captures(pattern, actual)[name], i)
  {
    var n := |pattern| - 1;
    if IsCapture(pattern[n]) && CaptureName(pattern[n]) == name {
      i := n;
    } else {
      i := CapturesAreLast(pattern[..n], actual[..n], name);
    }
  }

  lemma {:induction false} CatchAllText(segment: string)
    ensures IsCapture(segment) && CaptureName(segment) == "path" <==> segment == "{path}"
  {
    if IsCapture(segment) && CaptureName(segment) == "path" {
      assert segment == [segment[0]] + CaptureName(segment) + [segment[|segment| - 1]];
    } else if segment == "{path}" {
      PathIsCapture(segment);
    }
  }

  lemma {:induction false} TakesIsMatch(pattern: string, path: string)
    ensures Takes(pattern, path) <==> MatchParams(pattern, path).Some?
    ensures Takes(pattern, path) ==> IsRecord(pattern, path, MatchParams(pattern, path).value)
  {
    var expected, actual := PathSegments(pattern), PathSegments(path);
    if |expected| == 1 {
      CatchAllText(expected[0]);
    }
    if |expected| == |actual| {
      assert Takes(pattern, path) <==> Fits(expected, actual) by {
        assert forall i :: 0 <= i < |expected| ==> (FitsAt(expected[i], actual[i]) <==> if IsCapture(expected[i]) then actual[i] != "" else expected[i] == actual[i]);
      }
      RecordOfCaptures(expected, actual);
    }
  }

  lemma {:induction false} RecordOfCaptures(expected: seq<string>, actual: seq<string>)
    requires |expected| == |actual|
    ensures forall i :: 0 <= i < |expected| && IsCapture(expected[i]) ==> CaptureName(expected[i]) in Captures(expected, actual)
    ensures forall name :: name in Captures(expected, actual) ==> exists i :: RecordedAt(expected, actual, name, Captures(expected, actual)[name], i)
  {
    forall i | 0 <= i < |expected| && IsCapture(expected[i])
      ensures CaptureName(expected[i]) in Captures(expected, actual)
    {
      CapturedLast(expected, actual, i);
    }
    forall name | name in Captures(expected, actual)
      ensures exists i :: RecordedAt(expected, actual, name, Captures(expected, actual)[name], i)
    {
      var i := CapturesAreLast(expected, actual, name);
    }
  }

  /** A candidate says of its route whether it takes the path, how specific it is, and what is recorded. */
  ghost predicate Describes(c: Candidate, route: Route, path: string, query: string) {
    && (c.context.Some? <==> Takes(route.pattern, path)) && c.specificity == Literals(route.pattern) && c.verb == route.verb
    && (c.context.Some? ==> c.context.value == Context(c.context.value.params, query, route.routeLabel)
                            && IsRecord(route.pattern, path, c.context.value.params))
  }

  ghost predicate Describe(cs: seq<Candidate>, routes: seq<Route>, path: string, query: string) {
    |cs| == |routes| && forall i :: 0 <= i < |cs| ==> Describes(cs[i], routes[i], path, query)
  }

  lemma {:induction false} CandidatesDescribe(routes: seq<Route>, target: string)
    ensures Describe(Candidates(routes, target), routes, PathOf(target), QueryOf(target))
  {
    forall i | 0 <= i < |routes|
      ensures Describes(Candidates(routes, target)[i], routes[i], PathOf(target), QueryOf(target))
    {
      CandidateAt(routes, target, i);
      TakesIsMatch(routes[i].pattern, PathOf(target));
      LiteralsAreCounted(PathSegments(routes[i].pattern));
    }
  }

  lemma {:induction false} BestIsMostSpecific(cs: seq<Candidate>, routes: seq<Route>, path: string, query: string)
    requires Describe(cs, routes, path, query)
    ensures forall i :: 0 <= i < |cs| ==> (IsBest(cs, i) <==> IsMostSpecific(routes, path, i))
  {
  }

  lemma {:induction false} AnswerMeans(cs: seq<Candidate>, routes: seq<Route>, verb: Verb, path: string, query: string, outcome: Outcome)
    requires Describe(cs, routes, path, query) && IsAnswer(cs, verb, outcome)
    ensures Answers(routes, verb, path, query, outcome)
  {
    BestIsMostSpecific(cs, routes, path, query);
    match outcome
    case NotFound =>
    case Handled(k, context) =>
    case InvalidMethod(only) =>
      BestExists(cs);
      OnlyMeans(cs, routes, path, query, only);
  }

  lemma {:induction false} OnlyMeans(cs: seq<Candidate>, routes: seq<Route>, path: string, query: string, only: Option<Verb>)
    requires Describe(cs, routes, path, query) && OnlyIsRight(cs, only)
    requires forall i :: 0 <= i < |cs| ==> (IsBest(cs, i) <==> IsMostSpecific(routes, path, i))
    ensures NamesOnly(routes, path, only)
  {
    if (forall i :: 0 <= i < |routes| ==> routes[i].verb != Unknown) && only.None? {
      assert forall i :: 0 <= i < |cs| ==> cs[i].verb != Unknown;
      var i, j :| 0 <= i < j < |cs| && IsBest(cs, i) && IsBest(cs, j) && cs[i].verb != cs[j].verb;
      assert IsMostSpecific(routes, path, i) && IsMostSpecific(routes, path, j) && routes[i].verb != routes[j].verb;
    }
  }

  class RouteTable {
    var routes: seq<Route>

    constructor ()
      ensures routes == []
    {
      routes := [];
    }

    method Add(verb: Verb, pattern: string, routeLabel: string)
      modifies this
      ensures routes == old(routes) + [Route(verb, pattern, routeLabel)]
    {
      routes := routes + [Route(verb, pattern, routeLabel)];
    }

    /**
     Runs the earliest route with the request's method among the most specific matches; 404 exactly
     when nothing matches, 400 exactly when none of the most specific matches has the method.
     The source matches every route again in its second pass; here each is matched once.
     */
    method Dispatch(verb: Verb, target: string) returns (outcome: Outcome)
      ensures var (path, rest) := Cut(target, {'?'});
              Answers(routes, verb, path, if rest == "" then "" else rest[1..], outcome)
    {
      var cs := ProbeAll(routes, target);
      outcome := Choose(cs, verb);
      CandidatesDescribe(routes, target);
      AnswerMeans(cs, routes, verb, PathOf(target), QueryOf(target), outcome);
    }
  }

  method Probe(route: Route, target: string) returns (c: Candidate)
    ensures c == CandidateOf(route, target)
  {
    var context := MatchPath(route.pattern, target);
    if context.Some? {
      context := Some(context.value.(routeLabel := route.routeLabel));
    }
    var segments := SplitPath(route.pattern);
    c := Candidate(context, CountLiterals(segments), route.verb);
  }

  method ProbeAll(routes: seq<Route>, target: string) returns (cs: seq<Candidate>)
    ensures cs == Candidates(routes, target)
  {
    cs := [];
    for k := 0 to |routes|
      invariant cs == Candidates(routes[..k], target)
    {
      var c := Probe(routes[k], target);
      CandidatesNext(routes, target, k);
      cs := cs + [c];
    }
    assert routes[..|routes|] == routes;
  }

  lemma {:induction false} CandidatesNext(routes: seq<Route>, target: string, k: nat)
    requires k < |routes|
    ensures Candidates(routes[..k + 1], target) == Candidates(routes[..k], target) + [CandidateOf(routes[k], target)]
  {
    assert routes[..k + 1][..k] == routes[..k];
  }

  /** The contract of dispatch. */
  ghost predicate IsAnswer(cs: seq<Candidate>, verb: Verb, outcome: Outcome) {
    && (outcome.NotFound? <==> !AnyMatches(cs))
    && (outcome.InvalidMethod? <==> AnyMatches(cs) && NoneBestWith(cs, |cs|, verb))
    && (outcome.InvalidMethod? ==> OnlyIsRight(cs, outcome.only))
    && (outcome.Handled? ==>
          && outcome.index < |cs| && IsBest(cs, outcome.index) && cs[outcome.index].verb == verb
          && NoneBestWith(cs, outcome.index, verb)
          && cs[outcome.index].context == Some(outcome.context))
  }

  /** The first pass: the most literal segments of any matching route. */
  method BestSpecificity(cs: seq<Candidate>) returns (matched: bool, best: nat)
    ensures matched <==> AnyMatches(cs)
    ensures forall i :: 0 <= i < |cs| && cs[i].context.Some? ==> (IsBest(cs, i) <==> cs[i].specificity == best)
  {
    matched, best := false, 0;
    ghost var found := 0;
    for k := 0 to |cs|
      invariant matched ==> 0 <= found < k && cs[found].context.Some? && cs[found].specificity == best
      invariant forall i :: 0 <= i < k && cs[i].context.Some? ==> matched && cs[i].specificity <= best
    {
      if cs[k].context.None? {
        continue;
      }
      if !matched || cs[k].specificity > best {
        best, matched, found := cs[k].specificity, true, k;
      }
    }
  }

  /** The second pass, over the most specific matches. */
  method Choose(cs: seq<Candidate>, verb: Verb) returns (outcome: Outcome)
    ensures IsAnswer(cs, verb, outcome)
  {
    var matched, best := BestSpecificity(cs);
    var only, multiple := Unknown, false;
    for k := 0 to |cs|
      invariant NoneBestWith(cs, k, verb)
      invariant Tracks(cs, k, only, multiple)
    {
      if cs[k].context.None? {
        TracksSkip(cs, k, only, multiple, verb);
        continue;
      }
      if cs[k].specificity != best {
        TracksSkip(cs, k, only, multiple, verb);
        continue;
      }
      TracksNext(cs, k, only, multiple);
      if only == Unknown {
        only := cs[k].verb;
      } else if only != cs[k].verb {
        multiple := true;
      }
      if cs[k].verb != verb {
        continue;
      }
      HandledAnswers(cs, k, verb);
      return Handled(k, cs[k].context.value);
    }
    ErrorAnswers(cs, verb, only, multiple);
    if matched {
      return InvalidMethod(if multiple then None else Some(only));
    }
    return NotFound;
  }

  lemma HandledAnswers(cs: seq<Candidate>, k: nat, verb: Verb)
    requires k < |cs| && IsBest(cs, k) && cs[k].verb == verb && NoneBestWith(cs, k, verb)
    ensures IsAnswer(cs, verb, Handled(k, cs[k].context.value))
  {
  }

  lemma ErrorAnswers(cs: seq<Candidate>, verb: Verb, only: Verb, multiple: bool)
    requires NoneBestWith(cs, |cs|, verb) && Tracks(cs, |cs|, only, multiple)
    ensures AnyMatches(cs) ==> IsAnswer(cs, verb, InvalidMethod(if multiple then None else Some(only)))
    ensures !AnyMatches(cs) ==> IsAnswer(cs, verb, NotFound)
  {
  }

  ghost predicate HasBest(cs: seq<Candidate>, n: nat, verb: Verb)
    requires n <= |cs|
  {
    exists i :: 0 <= i < n && IsBest(cs, i) && cs[i].verb == verb
  }

  ghost predicate Differ(cs: seq<Candidate>, n: nat)
    requires n <= |cs|
  {
    exists i, j :: 0 <= i < j < n && IsBest(cs, i) && IsBest(cs, j) && cs[i].verb != cs[j].verb
  }

  /** What the two flags say about the first `n` routes. */
  ghost predicate Tracks(cs: seq<Candidate>, n: nat, only: Verb, multiple: bool)
    requires n <= |cs|
  {
    && (only != Unknown ==> HasBest(cs, n, only))
    && (multiple ==> Differ(cs, n))
    && ((forall i :: 0 <= i < |cs| ==> cs[i].verb != Unknown) ==>
          forall i :: 0 <= i < n && IsBest(cs, i) ==> only != Unknown && (multiple || cs[i].verb == only))
  }

  lemma TracksSkip(cs: seq<Candidate>, k: nat, only: Verb, multiple: bool, verb: Verb)
    requires k < |cs| && Tracks(cs, k, only, multiple) && !IsBest(cs, k)
    ensures Tracks(cs, k + 1, only, multiple)
    ensures NoneBestWith(cs, k, verb) ==> NoneBestWith(cs, k + 1, verb)
  {
  }

  lemma TracksNext(cs: seq<Candidate>, k: nat, only: Verb, multiple: bool)
    requires k < |cs| && Tracks(cs, k, only, multiple) && IsBest(cs, k)
    ensures only == Unknown ==> Tracks(cs, k + 1, cs[k].verb, multiple)
    ensures only != Unknown ==> Tracks(cs, k + 1, only, multiple || cs[k].verb != only)
  {
    if only != Unknown {
      var i :| 0 <= i < k && IsBest(cs, i) && cs[i].verb == only;
      assert cs[k].verb != only ==> Differ(cs, k + 1);
    }
  }

  lemma {:induction false} BestExists(cs: seq<Candidate>)
    requires AnyMatches(cs)
    ensures exists i :: 0 <= i < |cs| && IsBest(cs, i)
  {
    var n := |cs| - 1;
    if AnyMatches(cs[..n]) {
      BestExists(cs[..n]);
      var i :| 0 <= i < n && IsBest(cs[..n], i);
      if cs[n].context.Some? && cs[n].specificity > cs[i].specificity {
        assert IsBest(cs, n);
      } else {
        assert IsBest(cs, i);
      }
    } else {
      assert forall i :: 0 <= i < n ==> cs[..n][i] == cs[i];
      assert IsBest(cs, n);
    }
  }

  /**
   The three outcomes decide each other: when something matches there is a most specific match, so a
   request is answered 404, 400 or by exactly one handler, whatever the table.
   */
  lemma {:induction false} SomeRouteIsBest(routes: seq<Route>, target: string)
    ensures (exists i :: 0 <= i < |routes| && Matches(routes[i].pattern, target))
            <==> exists i :: 0 <= i < |routes| && IsBest(Candidates(routes, target), i)
  {
    var cs := Candidates(routes, target);
    if i :| 0 <= i < |routes| && Matches(routes[i].pattern, target) {
      CandidateAt(routes, target, i);
      assert cs[i].context.Some?;
      BestExists(cs);
    }
    if i :| 0 <= i < |routes| && IsBest(cs, i) {
      CandidateAt(routes, target, i);
    }
  }
}
