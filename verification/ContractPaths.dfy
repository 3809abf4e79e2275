/** The contract root: which files a path may name. Unix paths are sequences of names. */
module ContractPaths {
  import opened Wrappers
  import opened Text

  predicate IsName(c: string) {
    c != "" && c != "." && c != ".." && Free(c, '/')
  }

  /** A cleaned absolute path; the root directory is the empty sequence. */
  type Path = names: seq<string> | forall i :: 0 <= i < |names| ==> IsName(names[i])

  /** The components between the slashes of any path text. */
  type Components = names: seq<string> | forall i :: 0 <= i < |names| ==> Free(names[i], '/')

  /** `filepath.EvalSymlinks` on a cleaned absolute path: any partial function at all. */
  type Links = Path -> Option<Components>

  // ---------------------------------------------------------------- lexical operations

  /** `filepath.Join(base, raw)`: the components applied one by one to a cleaned path. */
  function CleanOnto(base: Path, raw: Components): Path
    decreases |raw|
  {
    if raw == [] then base
    else if raw[0] == "" || raw[0] == "." then CleanOnto(base, raw[1..])
    else if raw[0] == ".." then CleanOnto(Dir(base), raw[1..])
    else CleanOnto(base + [raw[0]], raw[1..])
  }

  /** `filepath.Dir`: the root directory is its own parent. */
  function Dir(path: Path): Path {
    if path == [] then [] else path[..|path| - 1]
  }

  /** `filepath.Clean` on a relative path, after the components in `done`: leading `..`
      components stay. */
  function CleanRelative(done: Components, raw: Components): Components
    decreases |raw|
  {
    if raw == [] then done
    else if raw[0] == "" || raw[0] == "." then CleanRelative(done, raw[1..])
    else if raw[0] == ".." && done != [] && done[|done| - 1] != ".." then CleanRelative(done[..|done| - 1], raw[1..])
    else CleanRelative(done + [raw[0]], raw[1..])
  }

  lemma {:induction false} CleanOntoNames(base: Path, names: Path)
    ensures CleanOnto(base, names) == base + names
    decreases |names|
  {
    if names == [] {
      assert base + names == base;
    } else {
      CleanOntoNames(base + [names[0]], names[1..]);
      assert base + [names[0]] + names[1..] == base + names;
    }
  }

  lemma {:induction false} CleanOntoAppend(base: Path, done: Components, raw: Components)
    ensures CleanOnto(base, done + raw) == CleanOnto(CleanOnto(base, done), raw)
    decreases |done|
  {
    if done == [] {
      assert done + raw == raw;
    } else {
      assert (done + raw)[1..] == done[1..] + raw;
      CleanOntoAppend(
        if done[0] == "" || done[0] == "." then base else if done[0] == ".." then Dir(base) else base + [done[0]],
        done[1..], raw);
    }
  }

  /** Cleaning a relative path before joining it to the root changes nothing: it names the
      same place as its components taken one by one from the root. */
  lemma {:induction false} CleaningFirstIsHarmless(base: Path, done: Components, raw: Components)
    requires "" !in done && "." !in done
    ensures CleanOnto(base, CleanRelative(done, raw)) == CleanOnto(CleanOnto(base, done), raw)
    decreases |raw|
  {
    if raw != [] {
      var name := raw[0];
      if name == "" || name == "." {
        CleaningFirstIsHarmless(base, done, raw[1..]);
      } else if name == ".." && done != [] && done[|done| - 1] != ".." {
        var front: Components, last := done[..|done| - 1], done[|done| - 1];
        assert done == front + [last];
        assert last in done;
        CleanOntoAppend(base, front, [last]);
        assert Dir(CleanOnto(base, front) + [last]) == CleanOnto(base, front);
        CleaningFirstIsHarmless(base, front, raw[1..]);
      } else {
        CleanOntoAppend(base, done, [name]);
        CleaningFirstIsHarmless(base, done + [name], raw[1..]);
      }
    }
  }

  function CommonPrefix(a: Path, b: Path): (n: nat)
    ensures n <= |a| && n <= |b| && a[..n] == b[..n]
    ensures n < |a| && n < |b| ==> a[n] != b[n]
  {
    if a == [] || b == [] || a[0] != b[0] then 0
    else
      assert a == [a[0]] + a[1..] && b == [b[0]] + b[1..];
      1 + CommonPrefix(a[1..], b[1..])
  }

  /** `filepath.Rel` on cleaned absolute paths; the empty sequence is printed as `.`. */
  function Rel(base: Path, target: Path): Components {
    var n := CommonPrefix(base, target);
    seq(|base| - n, _ => "..") + target[n..]
  }

  lemma CommonPrefixOfPrefix(a: Path, b: Path)
    requires a <= b
    ensures CommonPrefix(a, b) == |a|
  {
    assert forall i :: 0 <= i < |a| ==> a[i] == b[i];
  }

  // ---------------------------------------------------------------- the boundary

  /** The place a path really denotes, as far as its longest prefix of length at most `k`
      that can be resolved tells. */
  function BoundaryFrom(links: Links, path: Path, k: nat): Path
    requires k <= |path|
  {
    match links(path[..k])
    case Some(resolved) => CleanOnto(CleanOnto([], resolved), path[k..])
    case None => if k == 0 then path else BoundaryFrom(links, path, k - 1)
  }

  /** `evaluatePathForBoundary`: the loop walks up from the path to the root directory. */
  method EvaluatePathForBoundary(links: Links, path: Path) returns (place: Path)
    ensures place == BoundaryFrom(links, path, |path|)
  {
    assert path[..|path|] == path;
    var resolved := links(path);
    if resolved.Some? {
      return CleanOnto([], resolved.value);
    }
    var parent := Dir(path);
    while true
      invariant parent <= path
      invariant BoundaryFrom(links, path, |path|) == BoundaryFrom(links, path, |parent|)
      decreases |parent|
    {
      assert path[..|parent|] == parent;
      var resolvedParent := links(parent);
      if resolvedParent.Some? {
        CommonPrefixOfPrefix(parent, path);
        assert Rel(parent, path) == path[|parent|..];
        return CleanOnto(CleanOnto([], resolvedParent.value), Rel(parent, path));
      }
      var next := Dir(parent);
      if next == parent {
        return path;
      }
      parent := next;
    }
  }

  ghost predicate IsLongestResolvable(links: Links, path: Path, k: nat) {
    && k <= |path| && links(path[..k]).Some?
    && forall j :: k < j <= |path| ==> links(path[..j]).None?
  }

  /** The result is the resolution of the longest resolvable ancestor-or-self, followed by
      the remaining names; or the path itself when nothing resolves. */
  lemma BoundaryIsLongestAncestor(links: Links, path: Path)
    ensures var place := BoundaryFrom(links, path, |path|);
            if exists k: nat :: k <= |path| && links(path[..k]).Some? then
              exists k: nat :: IsLongestResolvable(links, path, k)
                && place == CleanOnto([], links(path[..k]).value) + path[k..]
            else place == path
  {
    var k := LongestBelow(links, path, |path|);
  }

  lemma {:induction false} LongestBelow(links: Links, path: Path, top: nat) returns (k: nat)
    requires top <= |path|
    requires forall j :: top < j <= |path| ==> links(path[..j]).None?
    ensures k <= top
    ensures var place := BoundaryFrom(links, path, top);
            if links(path[..k]).Some? then
              IsLongestResolvable(links, path, k) && place == CleanOnto([], links(path[..k]).value) + path[k..]
            else (forall j :: 0 <= j <= |path| ==> links(path[..j]).None?) && place == path
  {
    if links(path[..top]).Some? {
      k := top;
      CleanOntoNames(CleanOnto([], links(path[..top]).value), path[top..]);
    } else if top == 0 {
      k := 0;
    } else {
      k := LongestBelow(links, path, top - 1);
    }
  }

  // ---------------------------------------------------------------- containment

  /** `pathWithinRoot`, read off the relative path. */
  predicate PathWithinRoot(root: Path, path: Path) {
    var relative := Rel(root, path);
    relative == [] || (relative != [".."] && !(|relative| > 1 && relative[0] == ".."))
  }

  /** The test on the text of the relative path decides containment. */
  lemma WithinRootIsPrefix(root: Path, path: Path)
    ensures PathWithinRoot(root, path) <==> root <= path
    ensures root <= path ==> Rel(root, path) == path[|root|..]
  {
    var n := CommonPrefix(root, path);
    var relative := Rel(root, path);
    if root <= path {
      CommonPrefixOfPrefix(root, path);
      assert relative == path[|root|..];
      assert relative != [] ==> relative[0] == path[|root|] && IsName(path[|root|]);
    } else {
      assert root[..|root|] == root;
      assert relative[0] == "..";
    }
  }

  // ---------------------------------------------------------------- resolve

  datatype PathError = MissingPath | PathNotAllowed

  /** The file to read, and the name to report: a path relative to the root. */
  datatype ResolvedPath = ResolvedPath(readPath: Path, sourcePath: Components)

  /** The absolute path a command names, before links are followed; None for no path. */
  function Candidate(root: Path, text: string): Option<Path>
  {
    var trimmed := TrimSpace(text);
    if trimmed != "" && trimmed[0] == '/' then Some(CleanOnto([], Split(trimmed, '/')))
    else
      var names := CleanRelative([], Split(trimmed, '/'));
      if names == [] then None else Some(CleanOnto(root, names))
  }

  /** The containment test and the result, for the place a path really denotes. */
  function AdmitPlace(root: Path, place: Path): Result<ResolvedPath, PathError>
  {
    if PathWithinRoot(root, place) then Success(ResolvedPath(place, CleanRelative([], Rel(root, place))))
    else Failure(PathNotAllowed)
  }

  ghost function ResolveSpec(root: Path, links: Links, text: string): Result<ResolvedPath, PathError>
  {
    match Candidate(root, text)
    case None => Failure(MissingPath)
    case Some(candidate) => AdmitPlace(root, BoundaryFrom(links, candidate, |candidate|))
  }

  /** `contractRoot.resolve`. */
  method Resolve(root: Path, links: Links, text: string) returns (result: Result<ResolvedPath, PathError>)
    ensures result == ResolveSpec(root, links, text)
  {
    var candidate := Candidate(root, text);
    if candidate.None? {
      return Failure(MissingPath);
    }
    var boundaryPath := EvaluatePathForBoundary(links, candidate.value);
    result := AdmitPlace(root, boundaryPath);
  }

  lemma {:induction false} CleanRelativeNames(done: Components, names: Path)
    ensures CleanRelative(done, names) == done + names
    decreases |names|
  {
    if names == [] {
      assert done + names == done;
    } else {
      CleanRelativeNames(done + [names[0]], names[1..]);
      assert done + [names[0]] + names[1..] == done + names;
    }
  }

  lemma RelInside(root: Path, names: Path)
    ensures CleanRelative([], names) == names && ".." !in names && CleanOnto(root, names) == root + names
  {
    CleanRelativeNames([], names);
    assert [] + names == names;
    CleanOntoNames(root, names);
  }

  /** A place is admitted exactly when it lies under the root. */
  lemma AdmittedIffInside(root: Path, place: Path)
    ensures AdmitPlace(root, place).Success? <==> root <= place
  {
    WithinRootIsPrefix(root, place);
  }

  /** The reported name has no `..` and, joined to the root, is the place. */
  lemma AdmittedName(root: Path, names: Path)
    ensures AdmitPlace(root, root + names) == Success(ResolvedPath(root + names, names))
    ensures ".." !in names && CleanOnto(root, names) == root + names
  {
    WithinRootIsPrefix(root, root + names);
    assert (root + names)[|root|..] == names;
    RelInside(root, names);
  }

  /** What is read lies under the root whatever the links do, and nothing under the root is
      refused. */
  lemma ResolveStaysInRoot(root: Path, links: Links, text: string)
    ensures var candidate, result := Candidate(root, text), ResolveSpec(root, links, text);
            if candidate.None? then result == Failure(MissingPath)
            else
              var place := BoundaryFrom(links, candidate.value, |candidate.value|);
              if root <= place then
                && result == Success(ResolvedPath(place, place[|root|..]))
                && ".." !in place[|root|..] && CleanOnto(root, place[|root|..]) == place
              else result == Failure(PathNotAllowed)
  {
    var candidate := Candidate(root, text);
    if candidate.Some? {
      var place := BoundaryFrom(links, candidate.value, |candidate.value|);
      AdmittedIffInside(root, place);
      if root <= place {
        assert root + place[|root|..] == place;
        AdmittedName(root, place[|root|..]);
      }
    }
  }

  lemma RealPathStays(path: Path)
    ensures CleanOnto([], path) == path && CleanOnto(path, []) == path
  {
    CleanOntoNames([], path);
    assert [] + path == path;
  }

  /** A plain file name is inside the root, even one that begins with two dots, if the file
      is no link. A file that does not exist yet is inside as well, the root being resolved. */
  lemma NameIsInside(root: Path, links: Links, name: string)
    requires IsName(name) && TrimSpace(name) == name
    requires links(root + [name]) == Some(root + [name]) ||
             (links(root + [name]).None? && links(root) == Some(root))
    ensures ResolveSpec(root, links, name) == Success(ResolvedPath(root + [name], [name]))
  {
    var place := root + [name];
    assert Candidate(root, name) == Some(place) by {
      SplitFree(name, '/');
      CleanRelativeNames([], [name]);
      assert [] + [name] == [name];
      CleanOntoNames(root, [name]);
    }
    assert place[..|place|] == place && place[..|root|] == root && place[|place|..] == [];
    RealPathStays(place);
    RealPathStays(root);
    CleanOntoNames(root, [name]);
    assert place[|root|..] == [name];
    if links(place).Some? {
      assert BoundaryFrom(links, place, |place|) == place;
    } else {
      assert BoundaryFrom(links, place, |place|) == BoundaryFrom(links, place, |root|);
    }
    AdmittedName(root, [name]);
  }

  // ---------------------------------------------------------------- which file a text names

  lemma CandidateOfCore(root: Path, text: string, core: string)
    requires IsTrimmed(core) && SurroundedBySpaces(text, core)
    ensures Candidate(root, text) == Candidate(root, core)
  {
    TrimIsCore(text, core);
    assert core == "" + core + "" && IsBlank("");
    TrimIsCore(core, core);
  }

  lemma CandidateOfAbsolute(root: Path, core: string)
    requires IsTrimmed(core) && core != "" && core[0] == '/'
    ensures Candidate(root, core) == Some(CleanOnto([], Split(core, '/')))
  {
    assert core == "" + core + "" && IsBlank("");
    TrimIsCore(core, core);
  }

  lemma CandidateOfRelative(root: Path, core: string)
    requires IsTrimmed(core) && core != "" && core[0] != '/'
    ensures var names := CleanRelative([], Split(core, '/'));
            Candidate(root, core) == if names == [] then None else Some(CleanOnto(root, names))
  {
    assert core == "" + core + "" && IsBlank("");
    TrimIsCore(core, core);
  }

  lemma CleanAbsolute(names: Path)
    ensures CleanOnto([], Split("/" + Join(names, '/'), '/')) == names
  {
    assert "/" + Join(names, '/') == "" + ['/'] + Join(names, '/');
    SplitAtSeparator("", Join(names, '/'), '/');
    if names == [] {
      assert CleanOnto([], ["", ""]) == CleanOnto([], [""]) == [];
    } else {
      SplitOfJoin(names, '/');
      assert ([""] + names)[1..] == names;
      CleanOntoNames([], names);
      assert [] + names == names;
    }
  }

  /** An absolute text names its own components, wherever the root is. */
  lemma AbsoluteText(root: Path, text: string, names: Path)
    requires IsTrimmed("/" + Join(names, '/')) && SurroundedBySpaces(text, "/" + Join(names, '/'))
    ensures Candidate(root, text) == Some(names)
  {
    CandidateOfCore(root, text, "/" + Join(names, '/'));
    CandidateOfAbsolute(root, "/" + Join(names, '/'));
    CleanAbsolute(names);
  }

  function Up(path: Path, k: nat): Path {
    if k < |path| then path[..|path| - k] else []
  }

  function Dots(k: nat): (dots: Components)
    ensures |dots| == k
  {
    seq(k, _ => "..")
  }

  lemma {:induction false} DotsGoUp(base: Path, k: nat)
    ensures CleanOnto(base, Dots(k)) == Up(base, k)
    decreases k
  {
    if k > 0 {
      assert Dots(k)[1..] == Dots(k - 1);
      DotsGoUp(Dir(base), k - 1);
    } else {
      assert Up(base, 0) == base;
    }
  }

  lemma {:induction false} LeadingDotsStay(done: Components, k: nat)
    requires forall i :: 0 <= i < |done| ==> done[i] == ".."
    ensures CleanRelative(done, Dots(k)) == done + Dots(k)
    decreases k
  {
    if k > 0 {
      assert Dots(k)[1..] == Dots(k - 1) && Dots(k)[0] == "..";
      LeadingDotsStay(done + [".."], k - 1);
      assert done + [".."] + Dots(k - 1) == done + Dots(k);
    } else {
      assert done + Dots(0) == done;
    }
  }

  lemma CleanUpAndDown(root: Path, k: nat, names: Path)
    ensures CleanOnto(root, CleanRelative([], Dots(k) + names)) == Up(root, k) + names
  {
    var raw: Components := Dots(k) + names;
    CleaningFirstIsHarmless(root, [], raw);
    assert CleanOnto(root, []) == root;
    CleanOntoAppend(root, Dots(k), names);
    DotsGoUp(root, k);
    CleanOntoNames(Up(root, k), names);
  }

  lemma CandidateOfComponents(root: Path, text: string, core: string, raw: Components, place: Path)
    requires raw != [] && core == Join(raw, '/') && IsTrimmed(core) && core != "" && core[0] != '/'
    requires CleanRelative([], raw) != [] && CleanOnto(root, CleanRelative([], raw)) == place
    requires SurroundedBySpaces(text, core)
    ensures Candidate(root, text) == Some(place)
  {
    CandidateOfCore(root, text, core);
    CandidateOfRelative(root, core);
    SplitOfJoin(raw, '/');
  }

  lemma UpAndDown(root: Path, k: nat, names: Path, raw: Components)
    requires k + |names| > 0 && raw == Dots(k) + names
    ensures raw != [] && Join(raw, '/') != "" && Join(raw, '/')[0] != '/'
    ensures CleanRelative([], raw) != [] && CleanOnto(root, CleanRelative([], raw)) == Up(root, k) + names
  {
    FirstIsNoSlash(raw, k, names);
    RawStays(k, names);
    CleanUpAndDown(root, k, names);
  }

  /** A relative text goes up from the root as often as it begins with two dots, and then
      down its names. */
  lemma RelativeText(root: Path, text: string, k: nat, names: Path, raw: Components)
    requires k + |names| > 0 && raw == Dots(k) + names
    requires IsTrimmed(Join(raw, '/')) && SurroundedBySpaces(text, Join(raw, '/'))
    ensures Candidate(root, text) == Some(Up(root, k) + names)
  {
    UpAndDown(root, k, names, raw);
    CandidateOfComponents(root, text, Join(raw, '/'), raw, Up(root, k) + names);
  }

  lemma FirstIsNoSlash(raw: Components, k: nat, names: Path)
    requires raw == Dots(k) + names && k + |names| > 0
    ensures Join(raw, '/') != "" && Join(raw, '/')[0] != '/'
  {
    assert raw[0] == if k > 0 then ".." else names[0];
    FirstOfJoin(raw);
  }

  lemma FirstOfJoin(parts: seq<string>)
    requires parts != [] && parts[0] != ""
    ensures Join(parts, '/') != "" && Join(parts, '/')[0] == parts[0][0]
  {
  }

  lemma RawStays(k: nat, names: Path)
    requires k + |names| > 0
    ensures CleanRelative([], Dots(k) + names) != []
  {
    CleanRelativeAppend([], Dots(k), names);
    LeadingDotsStay([], k);
    assert [] + Dots(k) == Dots(k);
    CleanRelativeNames(Dots(k), names);
  }

  lemma {:induction false} CleanRelativeAppend(done: Components, a: Components, b: Components)
    ensures CleanRelative(done, a + b) == CleanRelative(CleanRelative(done, a), b)
    decreases |a|
  {
    if a == [] {
      assert a + b == b;
    } else {
      assert (a + b)[1..] == a[1..] + b;
      CleanRelativeAppend(
        if a[0] == "" || a[0] == "." then done
        else if a[0] == ".." && done != [] && done[|done| - 1] != ".." then done[..|done| - 1]
        else done + [a[0]],
        a[1..], b);
    }
  }

  /** No text and the text `.` name no file. */
  lemma NoFile(root: Path, text: string)
    requires IsBlank(text) || SurroundedBySpaces(text, ".")
    ensures Candidate(root, text) == None
  {
    if IsBlank(text) {
      assert text == text + "" + "" && IsBlank("");
      assert SurroundedBySpaces(text, "");
      TrimIsCore(text, "");
      assert CleanRelative([], [""]) == [];
    } else {
      CandidateOfCore(root, text, ".");
      CandidateOfRelative(root, ".");
      SplitFree(".", '/');
      assert CleanRelative([], ["."]) == [];
    }
  }

  /** The file that is read, when no link is in the way. */
  lemma NamedFileIsRead(root: Path, links: Links, text: string, file: Path)
    requires Candidate(root, text) == Some(file) && links(file) == Some(file)
    ensures ResolveSpec(root, links, text) ==
            if root <= file then Success(ResolvedPath(file, file[|root|..])) else Failure(PathNotAllowed)
  {
    assert file[..|file|] == file && file[|file|..] == [];
    RealPathStays(file);
    ResolveStaysInRoot(root, links, text);
  }
}
