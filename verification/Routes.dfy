/** Route lookup: path templates, `pathMatches` and `findOperation`. */
module Routes {
  import opened Wrappers
  import opened Text
  import opened Sorting
  import opened Schemas

  datatype Response = Response(content: map<string, Schema>)

  /** An operation whose responses are absent or null is told apart from one with none. */
  datatype Operation = Operation(responses: Option<map<string, Response>>)

  type Paths = map<string, map<string, Operation>>

  // ---------------------------------------------------------------- template matching

  function SplitPath(path: string): (parts: seq<string>)
    ensures forall i :: 0 <= i < |parts| ==> Free(parts[i], '/')
  {
    var trimmed := Trim(path, '/');
    if trimmed == "" then [] else Split(trimmed, '/')
  }

  predicate IsParameter(part: string) {
    "{" <= part && HasSuffix(part, "}") && |part| > 2
  }

  predicate PartMatches(templatePart: string, pathPart: string) {
    if IsParameter(templatePart) then pathPart != "" else templatePart == pathPart
  }

  predicate Matches(template: string, path: string) {
    var templateParts, pathParts := SplitPath(template), SplitPath(path);
    && |templateParts| == |pathParts|
    && forall i :: 0 <= i < |pathParts| ==> PartMatches(templateParts[i], pathParts[i])
  }

  /** `pathMatches`. */
  method PathMatches(template: string, path: string) returns (matches: bool)
    ensures matches == Matches(template, path)
  {
    var templateParts, pathParts := SplitPath(template), SplitPath(path);
    if |templateParts| != |pathParts| {
      return false;
    }
    for i := 0 to |templateParts|
      invariant forall j :: 0 <= j < i ==> PartMatches(templateParts[j], pathParts[j])
    {
      if IsParameter(templateParts[i]) {
        if pathParts[i] == "" {
          return false;
        }
      } else if templateParts[i] != pathParts[i] {
        return false;
      }
    }
    return true;
  }

  /** The template's segments with values in place of the parameters. */
  function Instantiate(parts: seq<string>, values: seq<string>): (r: seq<string>)
    requires |values| == |parts|
  {
    seq(|parts|, i requires 0 <= i < |parts| => if IsParameter(parts[i]) then values[i] else parts[i])
  }

  /** One non-empty value without a slash for every parameter. */
  predicate Assigns(parts: seq<string>, values: seq<string>) {
    && |values| == |parts|
    && forall i :: 0 <= i < |parts| && IsParameter(parts[i]) ==> values[i] != "" && Free(values[i], '/')
  }

  /** Matching is substitution. */
  lemma MatchingIsSubstitution(template: string, path: string)
    ensures Matches(template, path) <==>
            exists values :: Assigns(SplitPath(template), values)
              && Instantiate(SplitPath(template), values) == SplitPath(path)
  {
    var parts, pathParts := SplitPath(template), SplitPath(path);
    if Matches(template, path) {
      assert Instantiate(parts, pathParts) == pathParts;
      assert Assigns(parts, pathParts);
    } else if values :| Assigns(parts, values) && Instantiate(parts, values) == pathParts {
      forall i | 0 <= i < |pathParts|
        ensures PartMatches(parts[i], pathParts[i])
      {
        assert pathParts[i] == Instantiate(parts, values)[i];
      }
    }
  }

  lemma {:induction false} OuterSegments(s: string)
    requires s != "" && s[|s| - 1] != '/'
    ensures s[0] != '/' ==> Split(s, '/')[0] != ""
    ensures var parts := Split(s, '/'); parts[|parts| - 1] != ""
  {
    if |s| > 1 {
      OuterSegments(s[1..]);
    }
  }

  lemma {:induction false} JoinEnds(parts: seq<string>)
    requires parts != [] && parts[0] != "" && parts[|parts| - 1] != ""
    requires forall i :: 0 <= i < |parts| ==> Free(parts[i], '/')
    ensures var s := Join(parts, '/'); s != "" && s[0] != '/' && s[|s| - 1] != '/'
  {
    if |parts| > 1 {
      LastJoined(parts);
    }
  }

  lemma {:induction false} LastJoined(parts: seq<string>)
    requires parts != [] && parts[|parts| - 1] != ""
    requires forall i :: 0 <= i < |parts| ==> Free(parts[i], '/')
    ensures var s := Join(parts, '/'); s != "" && s[|s| - 1] != '/'
  {
    if |parts| > 1 {
      LastJoined(parts[1..]);
    }
  }

  /** Segments survive being written as a path, when the outer ones are not empty. */
  lemma SplitPathOfSegments(parts: seq<string>)
    requires forall i :: 0 <= i < |parts| ==> Free(parts[i], '/')
    requires parts != [] ==> parts[0] != "" && parts[|parts| - 1] != ""
    ensures SplitPath("/" + Join(parts, '/')) == parts
  {
    var s := Join(parts, '/');
    assert ("/" + s)[1..] == s;
    if parts == [] {
      assert TrimLeft("/" + s, '/') == TrimLeft(s, '/');
    } else {
      JoinEnds(parts);
      assert TrimLeft("/" + s, '/') == TrimLeft(s, '/') == s;
      TrimUnchanged(s, '/');
      SplitOfJoin(parts, '/');
    }
  }

  /** Every instance of a template matches it. */
  lemma InstanceMatches(template: string, values: seq<string>)
    requires Assigns(SplitPath(template), values)
    ensures Matches(template, "/" + Join(Instantiate(SplitPath(template), values), '/'))
  {
    var parts := SplitPath(template);
    var instance := Instantiate(parts, values);
    if parts != [] {
      OuterSegments(Trim(template, '/'));
      assert instance[0] != "" && instance[|instance| - 1] != "";
    }
    SplitPathOfSegments(instance);
    MatchingIsSubstitution(template, "/" + Join(instance, '/'));
  }

  // ---------------------------------------------------------------- lookup

  datatype Route = Found(operation: Operation) | Ambiguous(templates: seq<string>)

  const NO_OPERATION := Operation(None)

  /** The templates, other than the path itself, that match and define the method. */
  ghost function Candidates(paths: Paths, verb: string, path: string): set<string> {
    set template | template in paths && IsCandidate(paths, verb, path, template)
  }

  predicate IsCandidate(paths: Paths, verb: string, path: string, template: string)
    requires template in paths
  {
    template != path && Matches(template, path) && verb in paths[template]
  }

  /** What lookup finds: the operation under the exact key, if that key defines the method;
      otherwise the only candidate, or the ambiguity in ascending order, or nothing. */
  ghost function Lookup(paths: Paths, verb: string, path: string): Route {
    if path in paths && verb in paths[path] then Found(paths[path][verb])
    else
      var candidates := Candidates(paths, verb, path);
      if |candidates| > 1 then Ambiguous(SortedKeys(candidates))
      else if candidates == {} then Found(NO_OPERATION)
      else
        var template :| template in candidates;
        Found(paths[template][verb])
  }

  /** The candidates in a list of templates, in the order of the list. */
  ghost function Filter(paths: Paths, verb: string, path: string, templates: seq<string>): seq<string> {
    if templates == [] then []
    else
      var last := templates[|templates| - 1];
      Filter(paths, verb, path, templates[..|templates| - 1])
      + if last in paths && IsCandidate(paths, verb, path, last) then [last] else []
  }

  lemma {:induction false} FilterIsSorted(paths: Paths, verb: string, path: string, templates: seq<string>)
    requires Sorted(templates) && Distinct(templates)
    ensures var names := Filter(paths, verb, path, templates);
            && Sorted(names) && Distinct(names)
            && forall t :: t in names <==> t in templates && t in paths && IsCandidate(paths, verb, path, t)
    decreases |templates|
  {
    if templates != [] {
      var front, last := templates[..|templates| - 1], templates[|templates| - 1];
      FilterIsSorted(paths, verb, path, front);
      assert templates == front + [last];
      var names := Filter(paths, verb, path, front);
      assert forall i :: 0 <= i < |names| ==> names[i] in front;
    }
  }

  lemma FilterIsCandidates(paths: Paths, verb: string, path: string, templates: seq<string>)
    requires templates == SortedKeys(paths.Keys)
    ensures Filter(paths, verb, path, templates) == SortedKeys(Candidates(paths, verb, path))
  {
    FilterIsSorted(paths, verb, path, templates);
    SortedKeysUnique(Filter(paths, verb, path, templates), Candidates(paths, verb, path));
  }

  ghost predicate IsLastOperation(paths: Paths, verb: string, templates: seq<string>, operation: Operation) {
    templates != [] ==>
      var last := templates[|templates| - 1];
      last in paths && verb in paths[last] && operation == paths[last][verb]
  }

  /** `findOperation`, with the method already in lower case. */
  method FindOperation(paths: Paths, verb: string, path: string) returns (route: Route)
    ensures route == Lookup(paths, verb, path)
  {
    if path in paths && verb in paths[path] {
      return Found(paths[path][verb]);
    }
    var templates := SortedNames(paths.Keys);
    var matchedTemplates, matchedOperation := Collect(paths, verb, path, templates);
    FilterIsCandidates(paths, verb, path, templates);
    route := Conclude(paths, verb, path, matchedTemplates, matchedOperation);
  }

  /** The loop over the sorted templates. */
  method Collect(paths: Paths, verb: string, path: string, templates: seq<string>)
    returns (matchedTemplates: seq<string>, matchedOperation: Operation)
    requires forall i :: 0 <= i < |templates| ==> templates[i] in paths
    ensures matchedTemplates == Filter(paths, verb, path, templates)
    ensures IsLastOperation(paths, verb, matchedTemplates, matchedOperation)
  {
    matchedTemplates, matchedOperation := [], NO_OPERATION;
    for i := 0 to |templates|
      invariant matchedTemplates == Filter(paths, verb, path, templates[..i])
      invariant IsLastOperation(paths, verb, matchedTemplates, matchedOperation)
    {
      FilterNext(paths, verb, path, templates, i);
      var ok := TestTemplate(paths, verb, path, templates[i]);
      if ok {
        matchedTemplates := matchedTemplates + [templates[i]];
        matchedOperation := paths[templates[i]][verb];
      }
    }
    assert templates[..|templates|] == templates;
  }

  method TestTemplate(paths: Paths, verb: string, path: string, template: string) returns (ok: bool)
    requires template in paths
    ensures ok == IsCandidate(paths, verb, path, template)
  {
    var matches := PathMatches(template, path);
    ok := template != path && matches && verb in paths[template];
  }

  lemma FilterNext(paths: Paths, verb: string, path: string, templates: seq<string>, i: nat)
    requires i < |templates| && templates[i] in paths
    ensures var t := templates[i];
            Filter(paths, verb, path, templates[..i + 1])
            == Filter(paths, verb, path, templates[..i]) + if IsCandidate(paths, verb, path, t) then [t] else []
  {
    assert templates[..i + 1][..i] == templates[..i];
  }

  /** The decision after the loop. */
  method Conclude(paths: Paths, verb: string, path: string, matchedTemplates: seq<string>,
      matchedOperation: Operation)
    returns (route: Route)
    requires !(path in paths && verb in paths[path])
    requires matchedTemplates == SortedKeys(Candidates(paths, verb, path))
    requires IsLastOperation(paths, verb, matchedTemplates, matchedOperation)
    ensures route == Lookup(paths, verb, path)
  {
    SortedKeysSize(Candidates(paths, verb, path));
    OnlyMember(Candidates(paths, verb, path));
    if |matchedTemplates| > 1 {
      return Ambiguous(matchedTemplates);
    }
    if |matchedTemplates| == 1 {
      return Found(matchedOperation);
    }
    return Found(NO_OPERATION);
  }

  lemma OnlyMember(s: set<string>)
    ensures |s| <= 1 ==> forall x, y :: x in s && y in s ==> x == y
  {
    forall x, y | x in s && y in s && |s| <= 1
      ensures x == y
    {
      assert |s - {x}| == |s| - 1;
    }
  }

  // ---------------------------------------------------------------- templates that are written

  /** What a template is made of: literal segments and named parameters. */
  datatype Segment = Literal(text: string) | Named(name: string)
  {
    function Text(): string {
      match this
      case Literal(text) => text
      case Named(name) => "{" + name + "}"
    }

    /** No slash and, in a literal, no non-empty name between braces. */
    ghost predicate IsWritable() {
      && Free(Text(), '/')
      && match this
         case Literal(text) => forall name :: name != "" ==> text != "{" + name + "}"
         case Named(name) => name != ""
    }
  }

  function Texts(segments: seq<Segment>): (texts: seq<string>)
    ensures |texts| == |segments|
  {
    seq(|segments|, i requires 0 <= i < |segments| => segments[i].Text())
  }

  function TemplateOf(segments: seq<Segment>): string {
    "/" + Join(Texts(segments), '/')
  }

  ghost predicate IsTemplate(segments: seq<Segment>) {
    && (forall i :: 0 <= i < |segments| ==> segments[i].IsWritable())
    && (segments != [] ==> segments[0].Text() != "" && segments[|segments| - 1].Text() != "")
  }

  /** The same text at the literals, any non-empty segment at the names. */
  predicate Agrees(segments: seq<Segment>, parts: seq<string>) {
    && |parts| == |segments|
    && forall i :: 0 <= i < |segments| ==>
                     if segments[i].Literal? then parts[i] == segments[i].text else parts[i] != ""
  }

  /** A parameter is a non-empty name between braces. */
  lemma ParametersAreNames(part: string)
    ensures IsParameter(part) <==> exists name :: name != "" && part == "{" + name + "}"
  {
    if IsParameter(part) {
      var name := part[1..|part| - 1];
      assert part == "{" + name + "}";
    }
    if name :| name != "" && part == "{" + name + "}" {
      assert part[|part| - 1..] == "}";
    }
  }

  lemma SegmentMatches(segment: Segment, part: string)
    requires segment.IsWritable()
    ensures PartMatches(segment.Text(), part) <==>
            if segment.Literal? then part == segment.text else part != ""
  {
    ParametersAreNames(segment.Text());
  }

  /** Empty braces and unpaired ones are literals: they match only themselves. */
  lemma OddBracesAreLiteral(text: string, part: string)
    requires text == "" || (text[0] != '{' && text[|text| - 1] != '}')
    ensures PartMatches("{}", part) <==> part == "{}"
    ensures PartMatches("{" + text, part) <==> part == "{" + text
    ensures PartMatches(text + "}", part) <==> part == text + "}"
  {
    assert text != "" ==> ("{" + text)[|text|] == text[|text| - 1] && (text + "}")[0] == text[0];
  }

  lemma TemplateSegments(segments: seq<Segment>)
    requires IsTemplate(segments)
    ensures SplitPath(TemplateOf(segments)) == Texts(segments)
  {
    SplitPathOfSegments(Texts(segments));
  }

  /** A written template matches exactly the paths whose segments agree with it. */
  lemma TemplateMatches(segments: seq<Segment>, path: string)
    requires IsTemplate(segments)
    ensures Matches(TemplateOf(segments), path) <==> Agrees(segments, SplitPath(path))
  {
    TemplateSegments(segments);
    var parts := SplitPath(path);
    if |parts| == |segments| {
      forall i | 0 <= i < |segments|
        ensures PartMatches(Texts(segments)[i], parts[i]) <==>
                if segments[i].Literal? then parts[i] == segments[i].text else parts[i] != ""
      {
        SegmentMatches(segments[i], parts[i]);
      }
    }
  }

  /** The segments of a path that is written from them; slashes at the ends do not count. */
  lemma PathSegments(parts: seq<string>)
    requires forall i :: 0 <= i < |parts| ==> Free(parts[i], '/')
    requires parts != [] ==> parts[0] != "" && parts[|parts| - 1] != ""
    ensures SplitPath("/" + Join(parts, '/')) == parts
    ensures SplitPath(Join(parts, '/')) == parts
    ensures SplitPath("/" + Join(parts, '/') + "/") == parts
  {
    var path := Join(parts, '/');
    SplitPathOfSegments(parts);
    assert ("/" + path)[1..] == path;
    TrimTrailing("/" + path);
  }

  lemma TrimTrailing(path: string)
    requires path != ""
    ensures Trim(path + "/", '/') == Trim(path, '/')
  {
    TrimLeftOfMore(path);
    var rest := TrimLeft(path, '/');
    assert (rest + "/")[..|rest|] == rest;
  }

  lemma {:induction false} TrimLeftOfMore(path: string)
    ensures TrimLeft(path + "/", '/') ==
            if TrimLeft(path, '/') == "" then "" else TrimLeft(path, '/') + "/"
  {
    if path == "" {
      assert path + "/" == "/" && "/"[1..] == "";
    } else {
      assert (path + "/")[1..] == path[1..] + "/";
      if path[0] == '/' {
        TrimLeftOfMore(path[1..]);
      }
    }
  }

  /** A written template is a candidate for exactly the other paths that agree with it, if it
      defines the method. */
  lemma TemplateIsCandidate(paths: Paths, verb: string, path: string, segments: seq<Segment>)
    requires IsTemplate(segments) && TemplateOf(segments) in paths
    ensures TemplateOf(segments) in Candidates(paths, verb, path) <==>
            && TemplateOf(segments) != path && verb in paths[TemplateOf(segments)]
            && Agrees(segments, SplitPath(path))
  {
    TemplateMatches(segments, path);
  }

  /** Lookup with one written template: its operation for exactly the paths that agree with
      it, and for its own text. */
  lemma LookupOfTemplate(segments: seq<Segment>, operations: map<string, Operation>, verb: string, path: string)
    requires IsTemplate(segments)
    ensures Lookup(map[TemplateOf(segments) := operations], verb, path) ==
            if verb in operations && (path == TemplateOf(segments) || Agrees(segments, SplitPath(path)))
            then Found(operations[verb])
            else Found(NO_OPERATION)
  {
    var template := TemplateOf(segments);
    var paths := map[template := operations];
    TemplateIsCandidate(paths, verb, path, segments);
    var candidates := Candidates(paths, verb, path);
    assert candidates <= {template};
    if template in candidates {
      assert candidates == {template};
    } else {
      assert candidates == {};
    }
  }
}
