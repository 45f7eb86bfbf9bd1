/** Absolute paths and the relative-import resolution of scripts/load-channel-config-surface.ts. */
module ImportPaths {
  import opened JsText

  /** An absolute, normalised path as its segments; the root directory is the empty sequence. */
  type Path = seq<string>

  /** An import specifier split at its slashes. */
  type Specifier = seq<string>

  function SourceFileExtensions(): seq<string> {
    [".ts", ".tsx", ".mts", ".cts", ".js", ".jsx", ".mjs", ".cjs"]
  }

  function Dirname(p: Path): Path {
    if p == [] then [] else p[..|p| - 1]
  }

  function Basename(p: Path): string {
    if p == [] then "" else p[|p| - 1]
  }

  /** `path.resolve(dir, specifier)` for a specifier that does not start with a slash. */
  function Walk(dir: Path, spec: Specifier): Path
    decreases |spec|
  {
    if spec == [] then dir else Walk(Step(dir, spec[0]), spec[1..])
  }

  function Step(dir: Path, segment: string): Path {
    if segment == "" || segment == "." then dir
    else if segment == ".." then Dirname(dir)
    else dir + [segment]
  }

  /** The position of the last dot in the first `i` characters, or -1. */
  function LastDot(name: string, i: nat): (r: int)
    requires i <= |name|
    ensures -1 <= r < i
    ensures r >= 0 ==> name[r] == '.'
    ensures forall k :: r < k < i ==> name[k] != '.'
  {
    if i == 0 then -1 else if name[i - 1] == '.' then i - 1 else LastDot(name, i - 1)
  }

  /** `path.extname` of a path whose last segment is `name`. */
  function Extname(name: string): (e: string)
    ensures |e| <= |name| && name == name[..|name| - |e|] + e
  {
    var dot := LastDot(name, |name|);
    if dot <= 0 || name == ".." then "" else name[dot..]
  }

  /** The path string of `p` with `suffix` appended to it. */
  function Append(p: Path, suffix: string): Path {
    if p == [] then [suffix] else Dirname(p) + [Basename(p) + suffix]
  }

  /** `base` without its extension, with another one. */
  function Swap(base: Path, extension: string): Path
    requires base != []
  {
    var name := Basename(base);
    Dirname(base) + [name[..|name| - |Extname(name)|] + extension]
  }

  function Index(base: Path, extension: string): Path { base + ["index" + extension] }

  /** The candidates one extension contributes, in order. */
  function CandidatesWith(base: Path, e: string): seq<Path> {
    if Extname(Basename(base)) != "" then [Swap(base, e)] else [Append(base, e), Index(base, e)]
  }

  function CandidatesFrom(base: Path, extensions: seq<string>): seq<Path>
    decreases |extensions|
  {
    if extensions == [] then []
    else CandidatesWith(base, extensions[0]) + CandidatesFrom(base, extensions[1..])
  }

  function Candidates(base: Path): seq<Path> { [base] + CandidatesFrom(base, SourceFileExtensions()) }

  /** The first candidate that is a file. */
  function FirstFile(candidates: seq<Path>, files: set<Path>): (r: Option<Path>)
    ensures r.Some? ==> r.value in files && r.value in candidates
    ensures r.None? <==> forall c :: c in candidates ==> c !in files
  {
    if candidates == [] then None
    else if candidates[0] in files then Some(candidates[0])
    else FirstFile(candidates[1..], files)
  }

  function Resolve(files: set<Path>, from: Path, spec: Specifier): Option<Path> {
    FirstFile(Candidates(Walk(Dirname(from), spec)), files)
  }

  // ---- the source's loops ----------------------------------------------------------------------

  /** Adding to a JavaScript Set, kept here in insertion order. */
  function AddAll(s: seq<Path>, more: seq<Path>): seq<Path>
    decreases |more|
  {
    if more == [] then s
    else AddAll(if more[0] in s then s else s + [more[0]], more[1..])
  }

  lemma {:induction false} AddAllConcat(s: seq<Path>, a: seq<Path>, b: seq<Path>)
    ensures AddAll(s, a + b) == AddAll(AddAll(s, a), b)
    decreases |a|
  {
    if a == [] {
      assert a + b == b;
    } else {
      assert (a + b)[1..] == a[1..] + b;
      AddAllConcat(if a[0] in s then s else s + [a[0]], a[1..], b);
    }
  }

  lemma {:induction false} FirstFileConcat(a: seq<Path>, b: seq<Path>, files: set<Path>)
    ensures FirstFile(a + b, files) == if FirstFile(a, files).Some? then FirstFile(a, files) else FirstFile(b, files)
  {
    if a == [] {
      assert a + b == b;
    } else {
      assert (a + b)[1..] == a[1..] + b;
      FirstFileConcat(a[1..], b, files);
    }
  }

  /** Dropping repeated candidates does not change which file is found. */
  lemma {:induction false} FirstFileInSet(s: seq<Path>, more: seq<Path>, files: set<Path>)
    ensures FirstFile(AddAll(s, more), files) == FirstFile(s + more, files)
    decreases |more|
  {
    if more == [] {
      assert s + more == s;
    } else {
      var s' := if more[0] in s then s else s + [more[0]];
      FirstFileInSet(s', more[1..], files);
      FirstFileConcat(s', more[1..], files);
      FirstFileConcat(s, more, files);
      FirstFileConcat(s, [more[0]], files);
    }
  }

  method ResolveImportCandidates(basePath: Path) returns (candidates: seq<Path>)
    ensures candidates == AddAll([basePath], CandidatesFrom(basePath, SourceFileExtensions()))
  {
    hide Extname, SourceFileExtensions;
    var extension := Extname(Basename(basePath));
    var extensions := SourceFileExtensions();
    candidates := [basePath];
    for i := 0 to |extensions|
      invariant AddAll(candidates, CandidatesFrom(basePath, extensions[i..]))
             == AddAll([basePath], CandidatesFrom(basePath, extensions))
    {
      var e := extensions[i];
      assert extensions[i..][0] == e && extensions[i..][1..] == extensions[i + 1..];
      AddAllConcat(candidates, CandidatesWith(basePath, e), CandidatesFrom(basePath, extensions[i + 1..]));
      if extension != "" {
        candidates := AddAll(candidates, [Swap(basePath, e)]);
      } else {
        candidates := AddAll(candidates, [Append(basePath, e), Index(basePath, e)]);
      }
    }
  }

  method ResolveRelativeImportPath(files: set<Path>, fromFile: Path, specifier: Specifier) returns (r: Option<Path>)
    ensures r == Resolve(files, fromFile, specifier)
  {
    hide SourceFileExtensions, CandidatesFrom, Walk;
    var base := Walk(Dirname(fromFile), specifier);
    var candidates := ResolveImportCandidates(base);
    FirstFileInSet([base], CandidatesFrom(base, SourceFileExtensions()), files);
    for i := 0 to |candidates|
      invariant FirstFile(candidates[i..], files) == FirstFile(candidates, files)
    {
      if candidates[i] in files {
        return Some(candidates[i]);
      }
      assert candidates[i..][1..] == candidates[i + 1..];
    }
    return None;
  }

  // ---- what a specifier's segments do ----------------------------------------------------------

  predicate PlainName(name: string) { name != "" && name != "." && name != ".." }

  lemma {:induction false} WalkConcat(dir: Path, a: Specifier, b: Specifier)
    ensures Walk(dir, a + b) == Walk(Walk(dir, a), b)
    decreases |a|
  {
    if a == [] {
      assert a + b == b;
    } else {
      assert (a + b)[1..] == a[1..] + b;
      hide Step;
      WalkConcat(Step(dir, a[0]), a[1..], b);
    }
  }

  lemma WalkOne(dir: Path, segment: string, rest: Specifier)
    ensures Walk(dir, [segment] + rest) == Walk(Step(dir, segment), rest)
  {
    assert ([segment] + rest)[1..] == rest;
  }

  lemma Steps(dir: Path, segment: string)
    ensures segment == "" || segment == "." ==> Step(dir, segment) == dir
    ensures segment == ".." ==> Step(dir, segment) == Dirname(dir)
    ensures PlainName(segment) ==> Step(dir, segment) == dir + [segment] && Dirname(dir + [segment]) == dir
  {
  }

  /** Empty segments and "." are skipped anywhere. */
  lemma SegmentsAreSkipped(dir: Path, a: Specifier, segment: string, b: Specifier)
    requires segment == "" || segment == "."
    ensures Walk(dir, a + ([segment] + b)) == Walk(dir, a + b)
  {
    Steps(Walk(dir, a), segment);
    hide *;
    WalkConcat(dir, a, b);
    WalkConcat(dir, a, [segment] + b);
    WalkOne(Walk(dir, a), segment, b);
  }

  /** A name followed by ".." cancels out anywhere. */
  lemma NamesCancel(dir: Path, a: Specifier, name: string, up: string, b: Specifier)
    requires PlainName(name) && up == ".."
    ensures Walk(dir, a + ([name] + ([up] + b))) == Walk(dir, a + b)
  {
    var d := Walk(dir, a);
    Steps(d, name);
    Steps(d + [name], up);
    hide *;
    WalkConcat(dir, a, b);
    WalkConcat(dir, a, [name] + ([up] + b));
    WalkOne(d, name, [up] + b);
    WalkOne(d + [name], up, b);
  }

  lemma {:induction false} WalkNames(dir: Path, names: Specifier)
    requires forall k :: 0 <= k < |names| ==> PlainName(names[k])
    ensures Walk(dir, names) == dir + names
    decreases |names|
  {
    if names != [] {
      Steps(dir, names[0]);
      hide PlainName, Step;
      WalkNames(dir + [names[0]], names[1..]);
      assert PlainName(names[0]) && names == [names[0]] + names[1..];
    }
  }

  predicate AllUp(climb: Specifier) { forall k :: 0 <= k < |climb| ==> climb[k] == ".." }

  lemma UpFirst(climb: Specifier)
    requires AllUp(climb) && climb != []
    ensures climb[0] == ".." && AllUp(climb[1..])
  {
  }

  function Above(dir: Path, levels: nat): Path { dir[..if levels <= |dir| then |dir| - levels else 0] }

  lemma AboveOne(dir: Path, levels: nat)
    ensures Above(dir, 0) == dir && Above(Dirname(dir), levels) == Above(dir, levels + 1)
  {
  }

  /** What is left of a simplified specifier, some ".." and then names, climbs that many levels,
      though never above the root directory, and descends by the names. */
  lemma {:induction false} WalkLands(dir: Path, climb: Specifier, names: Specifier)
    requires AllUp(climb)
    requires forall k :: 0 <= k < |names| ==> PlainName(names[k])
    ensures Walk(dir, climb + names) == Above(dir, |climb|) + names
    decreases |climb|
  {
    if climb == [] {
      WalkNames(dir, names);
      AboveOne(dir, 0);
      assert climb + names == names;
    } else {
      UpFirst(climb);
      assert climb + names == [climb[0]] + (climb[1..] + names);
      Steps(dir, climb[0]);
      hide PlainName, AllUp, Above, Step, Walk;
      WalkOne(dir, climb[0], climb[1..] + names);
      WalkLands(Dirname(dir), climb[1..], names);
      AboveOne(dir, |climb| - 1);
    }
  }

  // ---- where an import lands, name by name ---------------------------------------------------

  /** `r` is the first of `candidates` that is a file. */
  ghost predicate IsFirstFile(candidates: seq<Path>, files: set<Path>, r: Option<Path>) {
    match r
    case None => forall k :: 0 <= k < |candidates| ==> candidates[k] !in files
    case Some(p) => exists k :: 0 <= k < |candidates| && FirstAt(candidates, files, k) && candidates[k] == p
  }

  ghost predicate FirstAt(candidates: seq<Path>, files: set<Path>, k: nat)
    requires k < |candidates|
  {
    candidates[k] in files && forall j :: 0 <= j < k ==> candidates[j] !in files
  }

  lemma {:induction false} FirstFileIsFirst(candidates: seq<Path>, files: set<Path>)
    ensures IsFirstFile(candidates, files, FirstFile(candidates, files))
  {
    if candidates != [] {
      if candidates[0] in files {
        assert FirstAt(candidates, files, 0);
      } else {
        var rest := candidates[1..];
        FirstFileIsFirst(rest, files);
        var r := FirstFile(rest, files);
        assert forall j :: 0 < j < |candidates| ==> candidates[j] == rest[j - 1];
        if r.Some? {
          var k :| 0 <= k < |rest| && FirstAt(rest, files, k) && rest[k] == r.value;
          assert FirstAt(candidates, files, k + 1);
        }
      }
    }
  }

  /** The name has a dot that is not its first character; what follows the last one, with it, is `tail`. */
  predicate EndsWith(stem: string, tail: string) {
    stem != "" && tail != "" && tail[0] == '.' && stem + tail != ".." &&
    forall k :: 0 < k < |tail| ==> tail[k] != '.'
  }

  /** The name has no dot after its first character. */
  predicate NoInnerDot(name: string) {
    forall k :: 0 < k < |name| ==> name[k] != '.'
  }

  lemma ExtnameIsTail(stem: string, tail: string)
    requires EndsWith(stem, tail)
    ensures Extname(stem + tail) == tail
  {
    var name := stem + tail;
    var dot := LastDot(name, |name|);
    assert name[|stem|] == '.';
    assert forall k {:trigger name[k]} :: |stem| < k < |name| ==> name[k] == tail[k - |stem|];
    assert dot == |stem|;
  }

  lemma NoExtname(name: string)
    requires NoInnerDot(name)
    ensures Extname(name) == ""
  {
  }

  /** The source extensions, in the order they are tried. */
  lemma SourceExtensions()
    ensures SourceFileExtensions() == [".ts", ".tsx", ".mts", ".cts", ".js", ".jsx", ".mjs", ".cjs"]
  {
  }

  /** The name `stem` in `dir` with each extension. */
  function Replacements(dir: Path, stem: string, es: seq<string>): seq<Path> {
    seq(|es|, i requires 0 <= i < |es| => dir + [stem + es[i]])
  }

  /** For each extension the name with it, and then the index file of the directory of that name. */
  function Additions(dir: Path, name: string, es: seq<string>): seq<Path> {
    seq(2 * |es|, i requires 0 <= i < 2 * |es| =>
      if i % 2 == 0 then dir + [name + es[i / 2]] else dir + [name, "index" + es[i / 2]])
  }

  lemma SwapIs(dir: Path, stem: string, tail: string, e: string)
    requires EndsWith(stem, tail)
    ensures Swap(dir + [stem + tail], e) == dir + [stem + e]
  {
    ExtnameIsTail(stem, tail);
    hide Extname;
    assert (stem + tail)[..|stem|] == stem;
  }

  lemma AppendIs(dir: Path, name: string, e: string)
    ensures Append(dir + [name], e) == dir + [name + e] && Index(dir + [name], e) == dir + [name, "index" + e]
  {
  }

  lemma BasenameIs(dir: Path, name: string)
    ensures Basename(dir + [name]) == name
  {
  }

  lemma FirstCandidates(base: Path, es: seq<string>, i: nat)
    requires i < |es|
    ensures CandidatesFrom(base, es[i..]) == CandidatesWith(base, es[i]) + CandidatesFrom(base, es[i + 1..])
  {
    hide CandidatesWith;
    assert es[i..][0] == es[i] && es[i..][1..] == es[i + 1..];
  }

  lemma NoCandidates(base: Path, es: seq<string>)
    requires es == []
    ensures CandidatesFrom(base, es) == []
  {
  }

  lemma {:induction false} SwappedCandidates(dir: Path, stem: string, tail: string, es: seq<string>, i: nat)
    requires EndsWith(stem, tail) && i <= |es|
    ensures CandidatesFrom(dir + [stem + tail], es[i..]) == Replacements(dir, stem, es)[i..]
    decreases |es| - i
  {
    hide EndsWith, Extname, Swap, CandidatesFrom, Basename;
    var base := dir + [stem + tail];
    if i < |es| {
      SwappedCandidates(dir, stem, tail, es, i + 1);
      FirstCandidates(base, es, i);
      BasenameIs(dir, stem + tail);
      ExtnameIsTail(stem, tail);
      TailIsNotEmpty(stem, tail);
      SwapIs(dir, stem, tail, es[i]);
      assert CandidatesWith(base, es[i]) == [Replacements(dir, stem, es)[i]];
    } else {
      NoCandidates(base, es[i..]);
    }
  }

  lemma TailIsNotEmpty(stem: string, tail: string)
    requires EndsWith(stem, tail)
    ensures tail != ""
  {
  }

  lemma {:induction false} AppendedCandidates(dir: Path, name: string, es: seq<string>, i: nat)
    requires NoInnerDot(name) && i <= |es|
    ensures CandidatesFrom(dir + [name], es[i..]) == Additions(dir, name, es)[2 * i..]
    decreases |es| - i
  {
    hide NoInnerDot, Extname, Append, Index, CandidatesFrom, Basename;
    var base := dir + [name];
    if i < |es| {
      AppendedCandidates(dir, name, es, i + 1);
      FirstCandidates(base, es, i);
      BasenameIs(dir, name);
      NoExtname(name);
      AppendIs(dir, name, es[i]);
      var all := Additions(dir, name, es);
      assert all[2 * i] == dir + [name + es[i]] && all[2 * i + 1] == dir + [name, "index" + es[i]];
      assert all[2 * i..] == [all[2 * i], all[2 * i + 1]] + all[2 * (i + 1)..];
    } else {
      NoCandidates(base, es[i..]);
    }
  }

  lemma ResolvesFirst(files: set<Path>, from: Path, spec: Specifier, base: Path, more: seq<Path>)
    requires Walk(Dirname(from), spec) == base && CandidatesFrom(base, SourceFileExtensions()) == more
    ensures IsFirstFile([base] + more, files, Resolve(files, from, spec))
  {
    FirstFileIsFirst([base] + more, files);
    hide SourceFileExtensions, CandidatesFrom, Walk, IsFirstFile, FirstFile;
  }

  /** An import whose base path ends in an extension finds the base path itself, or else the first file
      among the paths with a source extension in place of it, or nothing. */
  lemma ExtensionIsReplaced(files: set<Path>, from: Path, spec: Specifier, dir: Path, stem: string, tail: string)
    requires Walk(Dirname(from), spec) == dir + [stem + tail] && EndsWith(stem, tail)
    ensures SourceFileExtensions() == [".ts", ".tsx", ".mts", ".cts", ".js", ".jsx", ".mjs", ".cjs"]
    ensures IsFirstFile([dir + [stem + tail]] + Replacements(dir, stem, SourceFileExtensions()), files,
                        Resolve(files, from, spec))
  {
    var es := SourceFileExtensions();
    hide *;
    SourceExtensions();
    SwappedCandidates(dir, stem, tail, es, 0);
    assert es[0..] == es;
    ResolvesFirst(files, from, spec, dir + [stem + tail], Replacements(dir, stem, es)[0..]);
    assert Replacements(dir, stem, es)[0..] == Replacements(dir, stem, es);
  }

  /** An import whose base path has no extension finds the base path itself, or else, extension by
      extension, the path with it or the index file with it, or nothing. */
  lemma ExtensionIsAppended(files: set<Path>, from: Path, spec: Specifier, dir: Path, name: string)
    requires Walk(Dirname(from), spec) == dir + [name] && NoInnerDot(name)
    ensures SourceFileExtensions() == [".ts", ".tsx", ".mts", ".cts", ".js", ".jsx", ".mjs", ".cjs"]
    ensures IsFirstFile([dir + [name]] + Additions(dir, name, SourceFileExtensions()), files,
                        Resolve(files, from, spec))
  {
    var es := SourceFileExtensions();
    hide *;
    SourceExtensions();
    AppendedCandidates(dir, name, es, 0);
    assert es[0..] == es;
    ResolvesFirst(files, from, spec, dir + [name], Additions(dir, name, es)[0..]);
    assert Additions(dir, name, es)[0..] == Additions(dir, name, es);
  }
}
