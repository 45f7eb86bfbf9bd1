/** The isolated copy of an import graph and what it keeps of import resolution
    (scripts/load-channel-config-surface.ts). */
module ModuleCopy {
  import opened JsText
  import opened ImportPaths
  import opened ImportGraph
  import CommonAncestor

  /** The copy of `p`: its path relative to `root`, joined to `iso`. */
  function Relocate(root: Path, iso: Path, p: Path): Path
    requires root <= p
  {
    iso + p[|root|..]
  }

  /** Every discovered file lies strictly below the copy root. */
  ghost predicate Below(root: Path, found: set<Path>) {
    forall f :: f in found ==> root < f
  }

  /** Neither the isolated root, nor a sibling whose name starts with its name, holds a file: the
      name is one that `mkdtemp` has just made up. */
  ghost predicate Fresh(iso: Path, files: set<Path>) {
    iso != [] && forall p :: p in files ==> !UnderName(iso, p)
  }

  predicate UnderName(iso: Path, p: Path)
    requires iso != []
  {
    |p| >= |iso| && p[..|iso| - 1] == Dirname(iso) && Basename(iso) <= p[|iso| - 1]
  }

  /** The files once the discovered ones are copied. */
  ghost function WithCopies(files: set<Path>, found: set<Path>, root: Path, iso: Path): set<Path>
    requires Below(root, found)
  {
    files + set f | f in found :: Relocate(root, iso, f)
  }

  // ---- walking a specifier -------------------------------------------------------------------

  /** Some prefix of the specifier leaves a directory that lies `depth` levels below the root. */
  predicate Climbs(depth: nat, spec: Specifier)
    decreases |spec|
  {
    if spec == [] then false
    else if spec[0] == "" || spec[0] == "." then Climbs(depth, spec[1..])
    else if spec[0] == ".." then depth == 0 || Climbs(depth - 1, spec[1..])
    else Climbs(depth + 1, spec[1..])
  }

  lemma {:induction false} WalkRelocates(root: Path, iso: Path, dir: Path, spec: Specifier)
    requires root <= dir && !Climbs(|dir| - |root|, spec)
    ensures root <= Walk(dir, spec)
    ensures Walk(Relocate(root, iso, dir), spec) == Relocate(root, iso, Walk(dir, spec))
    decreases |spec|
  {
    if spec != [] {
      var next := Step(dir, spec[0]);
      assert root <= next;
      assert Step(Relocate(root, iso, dir), spec[0]) == Relocate(root, iso, next);
      WalkRelocates(root, iso, next, spec[1..]);
    }
  }

  /** If `path` reaches the depth of `iso`, it does so through one of `names`. */
  ghost predicate Elsewhere(iso: Path, names: Specifier, path: Path) {
    |path| >= |iso| > 0 ==> path[|iso| - 1] in names
  }

  lemma {:induction false} WalkStaysElsewhere(iso: Path, names: Specifier, path: Path, spec: Specifier)
    requires Elsewhere(iso, names, path) && forall s :: s in spec ==> s in names
    ensures Elsewhere(iso, names, Walk(path, spec))
    decreases |spec|
  {
    if spec != [] {
      assert spec[0] in names;
      WalkStaysElsewhere(iso, names, Step(path, spec[0]), spec[1..]);
    }
  }

  lemma {:induction false} ClimbEscapes(iso: Path, names: Specifier, dir: Path, spec: Specifier)
    requires iso <= dir && iso != [] && Climbs(|dir| - |iso|, spec)
    requires forall s :: s in spec ==> s in names
    ensures Elsewhere(iso, names, Walk(dir, spec))
    decreases |spec|
  {
    assert spec[0] in names && forall s :: s in spec[1..] ==> s in spec;
    var next := Step(dir, spec[0]);
    if spec[0] == ".." && |dir| == |iso| {
      WalkStaysElsewhere(iso, names, next, spec[1..]);
    } else {
      assert iso <= next;
      ClimbEscapes(iso, names, next, spec[1..]);
    }
  }

  // ---- candidates ----------------------------------------------------------------------------

  /** `cs'` holds the copies of `cs`, in the same order. */
  ghost predicate Copies(root: Path, iso: Path, cs: seq<Path>, cs': seq<Path>) {
    |cs| == |cs'| && forall i :: 0 <= i < |cs| ==> root <= cs[i] && cs'[i] == Relocate(root, iso, cs[i])
  }

  lemma CopiesAppend(root: Path, iso: Path, a: seq<Path>, a': seq<Path>, b: seq<Path>, b': seq<Path>)
    requires Copies(root, iso, a, a') && Copies(root, iso, b, b')
    ensures Copies(root, iso, a + b, a' + b')
  {
    hide Relocate;
  }

  lemma ChildRelocates(root: Path, iso: Path, dir: Path, name: string)
    requires root <= dir
    ensures Relocate(root, iso, dir + [name]) == Relocate(root, iso, dir) + [name]
  {
  }

  lemma CandidatesWithRelocate(root: Path, iso: Path, base: Path, e: string)
    requires root < base
    ensures Copies(root, iso, CandidatesWith(base, e), CandidatesWith(Relocate(root, iso, base), e))
  {
    DirnameRelocates(root, iso, base);
    var dir, name := Dirname(base), Basename(base);
    var dir', base' := Relocate(root, iso, dir), Relocate(root, iso, base);
    var stem := name[..|name| - |Extname(name)|];
    assert Basename(base') == name;
    assert base != [] && base' != [];
    ChildRelocates(root, iso, dir, name + e);
    ChildRelocates(root, iso, dir, stem + e);
    ChildRelocates(root, iso, base, "index" + e);
    hide Extname, Relocate;
    assert Swap(base', e) == dir' + [stem + e] && Swap(base, e) == dir + [stem + e];
    assert Append(base', e) == dir' + [name + e] && Append(base, e) == dir + [name + e];
    hide Dirname, Basename, Swap, Append;
  }

  lemma {:induction false} CandidatesFromRelocate(root: Path, iso: Path, base: Path, extensions: seq<string>)
    requires root < base
    ensures Copies(root, iso, CandidatesFrom(base, extensions), CandidatesFrom(Relocate(root, iso, base), extensions))
    decreases |extensions|
  {
    if extensions != [] {
      var base' := Relocate(root, iso, base);
      CandidatesWithRelocate(root, iso, base, extensions[0]);
      CandidatesFromRelocate(root, iso, base, extensions[1..]);
      hide CandidatesWith, Copies, Relocate;
      CopiesAppend(root, iso, CandidatesWith(base, extensions[0]), CandidatesWith(base', extensions[0]),
                   CandidatesFrom(base, extensions[1..]), CandidatesFrom(base', extensions[1..]));
    }
  }

  /** Below the root, the candidates of a copy are the copies of the candidates. */
  lemma CandidatesRelocate(root: Path, iso: Path, base: Path)
    requires root < base
    ensures Copies(root, iso, Candidates(base), Candidates(Relocate(root, iso, base)))
  {
    hide SourceFileExtensions, CandidatesFrom;
    CandidatesFromRelocate(root, iso, base, SourceFileExtensions());
    var base' := Relocate(root, iso, base);
    assert Copies(root, iso, [base], [base']);
    CopiesAppend(root, iso, [base], [base'], CandidatesFrom(base, SourceFileExtensions()),
                 CandidatesFrom(base', SourceFileExtensions()));
  }

  lemma CandidateShape(base: Path, e: string, c: Path)
    requires c in CandidatesWith(base, e)
    ensures c == Index(base, e) || c == Append(base, e) || |c| == |base|
    ensures c != Index(base, e) ==> |c| > 0 && c[..|c| - 1] == Dirname(base)
    ensures Extname(Basename(base)) != "" ==> |c| == |base|
  {
    hide Extname;
  }

  /** A candidate deeper than `iso` and below it comes from a base at or below `iso`. */
  lemma {:induction false} CandidatesFromUnder(iso: Path, base: Path, extensions: seq<string>, c: Path)
    requires c in CandidatesFrom(base, extensions) && iso < c
    ensures iso <= base
    decreases |extensions|
  {
    if c in CandidatesFrom(base, extensions[1..]) {
      CandidatesFromUnder(iso, base, extensions[1..], c);
    } else {
      CandidateShape(base, extensions[0], c);
      hide CandidatesFrom, CandidatesWith;
      assert iso <= c[..|c| - 1];
    }
  }

  /** With an extension, every candidate lies as deep as its base. */
  lemma {:induction false} CandidatesFromDepth(base: Path, extensions: seq<string>, c: Path)
    requires c in CandidatesFrom(base, extensions) && Extname(Basename(base)) != ""
    ensures |c| == |base|
    decreases |extensions|
  {
    if c in CandidatesWith(base, extensions[0]) {
      CandidateShape(base, extensions[0], c);
    } else {
      CandidatesFromDepth(base, extensions[1..], c);
    }
  }

  // ---- resolution in the copy ----------------------------------------------------------------

  lemma CopiedExactly(files: set<Path>, found: set<Path>, root: Path, iso: Path, c: Path)
    requires Below(root, found) && Fresh(iso, files) && root <= c
    ensures Relocate(root, iso, c) in WithCopies(files, found, root, iso) <==> c in found
  {
    var c' := Relocate(root, iso, c);
    assert c'[..|iso| - 1] == Dirname(iso) && c'[|iso| - 1] == Basename(iso);
    assert UnderName(iso, c');
    forall f | f in found && Relocate(root, iso, f) == c' ensures f == c {
      assert f[|root|..] == c'[|iso|..] == c[|root|..];
      assert f == root + f[|root|..] && c == root + c[|root|..];
    }
  }

  lemma {:induction false} FirstFileRelocates(files: set<Path>, found: set<Path>, root: Path, iso: Path,
                                              cs: seq<Path>, cs': seq<Path>)
    requires Below(root, found) && Fresh(iso, files) && found <= files && Copies(root, iso, cs, cs')
    requires FirstFile(cs, files).Some? ==> FirstFile(cs, files).value in found
    ensures FirstFile(cs', WithCopies(files, found, root, iso))
         == if FirstFile(cs, files).Some? then Some(Relocate(root, iso, FirstFile(cs, files).value)) else None
    decreases |cs|
  {
    if cs != [] {
      CopiedExactly(files, found, root, iso, cs[0]);
      hide WithCopies, Fresh;
      if cs[0] !in files {
        assert Copies(root, iso, cs[1..], cs'[1..]);
        FirstFileRelocates(files, found, root, iso, cs[1..], cs'[1..]);
      }
    }
  }

  /** The specifier, walked from the importing file, stays strictly below the copy root. */
  ghost predicate StaysBelow(root: Path, from: Path, spec: Specifier) {
    root < from && !Climbs(|from| - 1 - |root|, spec) && Walk(Dirname(from), spec) != root
  }

  /** Such a specifier resolves in the copy to the copy of what it resolved to, or to nothing if it
      resolved to nothing. */
  lemma ResolutionCommutes(files: set<Path>, found: set<Path>, root: Path, iso: Path, from: Path, spec: Specifier)
    requires Below(root, found) && Fresh(iso, files) && found <= files && from in found
    requires StaysBelow(root, from, spec)
    requires Resolve(files, from, spec).Some? ==> Resolve(files, from, spec).value in found
    ensures Resolve(WithCopies(files, found, root, iso), Relocate(root, iso, from), spec)
         == var r := Resolve(files, from, spec);
            if r.Some? && root <= r.value then Some(Relocate(root, iso, r.value)) else None
  {
    hide Candidates, Walk, Copies, WithCopies, Fresh, Climbs, FirstFile;
    DirnameRelocates(root, iso, from);
    var dir := Dirname(from);
    WalkRelocates(root, iso, dir, spec);
    var base := Walk(dir, spec);
    CandidatesRelocate(root, iso, base);
    FirstFileRelocates(files, found, root, iso, Candidates(base), Candidates(Relocate(root, iso, base)));
  }

  // ---- exactly when one import survives ------------------------------------------------------

  /** An import of the root directory itself survives when the isolated root's name has no extension
      (with one, no index file is a candidate) and the target is an index file. */
  predicate RootImportSurvives(iso: Path, target: Path) {
    Extname(Basename(iso)) == "" && "index" <= Basename(target)
  }

  lemma AppendedIsUnder(iso: Path, e: string)
    requires iso != []
    ensures UnderName(iso, Append(iso, e)) && |Append(iso, e)| == |iso|
  {
  }

  lemma ExtensionsStartWithDot()
    ensures forall e :: e in SourceFileExtensions() ==> e != "" && e[0] == '.'
  {
  }

  lemma AppendIsNoIndex(root: Path, e: string, target: Path)
    requires e != "" && e[0] == '.' && root < target && "index" <= Basename(target)
    ensures Append(root, e) != target
  {
    assert "index"[0] == 'i';
    assert root == [] ==> Basename(Append(root, e)) == e;
    assert root != [] ==> |Append(root, e)| == |root|;
  }

  lemma {:induction false} RootIndexFound(files: set<Path>, found: set<Path>, root: Path, iso: Path,
                                          extensions: seq<string>, target: Path)
    requires Below(root, found) && Fresh(iso, files) && found <= files && target in found
    requires forall e :: e in extensions ==> e != "" && e[0] == '.'
    requires RootImportSurvives(iso, target) && Extname(Basename(root)) == "" && extensions != []
    requires FirstFile(CandidatesFrom(root, extensions), files) == Some(target)
    ensures FirstFile(CandidatesFrom(iso, extensions), WithCopies(files, found, root, iso))
         == Some(Relocate(root, iso, target))
    decreases |extensions|
  {
    hide *;
    SurvivalMeans(iso, target);
    DotTail(extensions);
    var files' := WithCopies(files, found, root, iso);
    var e, more := extensions[0], extensions[1..];
    assert extensions == [e] + more;
    RootCandidates(root, e, more, files);
    RootCandidates(iso, e, more, files');
    NextRootCandidates(files, found, root, iso, e, target);
    if Index(root, e) != target {
      NothingWithoutExtensions(root, more, files);
      RootIndexFound(files, found, root, iso, more, target);
    }
  }

  lemma SurvivalMeans(iso: Path, target: Path)
    requires RootImportSurvives(iso, target)
    ensures Extname(Basename(iso)) == "" && "index" <= Basename(target)
  {
  }

  lemma DotTail(extensions: seq<string>)
    requires extensions != [] && forall e :: e in extensions ==> e != "" && e[0] == '.'
    ensures extensions[0] != "" && extensions[0][0] == '.'
    ensures forall e :: e in extensions[1..] ==> e != "" && e[0] == '.'
  {
    assert extensions[0] in extensions && forall e :: e in extensions[1..] ==> e in extensions;
  }

  lemma NothingWithoutExtensions(base: Path, extensions: seq<string>, files: set<Path>)
    ensures extensions == [] ==> FirstFile(CandidatesFrom(base, extensions), files) == None
  {
  }

  lemma RootCandidates(base: Path, e: string, more: seq<string>, files: set<Path>)
    requires Extname(Basename(base)) == ""
    ensures FirstFile(CandidatesFrom(base, [e] + more), files)
         == if Append(base, e) in files then Some(Append(base, e))
            else if Index(base, e) in files then Some(Index(base, e))
            else FirstFile(CandidatesFrom(base, more), files)
  {
    hide Extname, FirstFile;
    assert ([e] + more)[1..] == more;
    FirstFilePair(Append(base, e), Index(base, e), CandidatesFrom(base, more), files);
  }

  /** Of the two candidates one extension contributes, only an index file can be the target, and it
      is copied exactly when it was discovered. */
  lemma NextRootCandidates(files: set<Path>, found: set<Path>, root: Path, iso: Path, e: string, target: Path)
    requires Below(root, found) && Fresh(iso, files) && target in found
    requires e != "" && e[0] == '.' && "index" <= Basename(target)
    ensures Append(root, e) != target
    ensures Append(iso, e) !in WithCopies(files, found, root, iso)
    ensures Index(iso, e) in WithCopies(files, found, root, iso) <==> Index(root, e) in found
    ensures Relocate(root, iso, Index(root, e)) == Index(iso, e)
  {
    AppendIsNoIndex(root, e, target);
    SiblingNotCopied(files, found, root, iso, e);
    CopiedExactly(files, found, root, iso, Index(root, e));
    ChildRelocates(root, iso, root, "index" + e);
  }

  lemma FirstFilePair(c: Path, d: Path, cs: seq<Path>, files: set<Path>)
    ensures FirstFile([c, d] + cs, files)
         == if c in files then Some(c) else if d in files then Some(d) else FirstFile(cs, files)
  {
    assert [c, d] + cs == [c] + ([d] + cs);
    FirstFileCons(c, [d] + cs, files);
    FirstFileCons(d, cs, files);
  }

  lemma FirstFileCons(c: Path, cs: seq<Path>, files: set<Path>)
    ensures FirstFile([c] + cs, files) == if c in files then Some(c) else FirstFile(cs, files)
  {
    assert ([c] + cs)[1..] == cs;
  }

  lemma SiblingNotCopied(files: set<Path>, found: set<Path>, root: Path, iso: Path, e: string)
    requires Below(root, found) && Fresh(iso, files)
    ensures Append(iso, e) !in WithCopies(files, found, root, iso)
  {
    AppendedIsUnder(iso, e);
  }

  /** For an import of a discovered file by a discovered file: in the copy it resolves to the copy of
      its target exactly when the specifier never climbs above the copy root and, if it names the
      root itself, the root import survives. */
  lemma ImportSurvivesExactly(files: set<Path>, found: set<Path>, root: Path, iso: Path,
                              from: Path, spec: Specifier, target: Path)
    requires Below(root, found) && found <= files && from in found && target in found
    requires Fresh(iso, files) && Basename(iso) !in spec
    requires Resolve(files, from, spec) == Some(target)
    ensures Resolve(WithCopies(files, found, root, iso), Relocate(root, iso, from), spec)
         == Some(Relocate(root, iso, target))
       <==> !Climbs(|from| - 1 - |root|, spec)
            && (Walk(Dirname(from), spec) == root ==> RootImportSurvives(iso, target))
  {
    assert root < from && root < target;
    hide *;
    if Climbs(|from| - 1 - |root|, spec) {
      ClimbingImportFails(files, found, root, iso, from, spec, target);
    } else if Walk(Dirname(from), spec) != root {
      StayingImportSurvives(files, found, root, iso, from, spec, target);
    } else {
      RootImport(files, found, root, iso, from, spec, target);
    }
  }

  lemma StayingImportSurvives(files: set<Path>, found: set<Path>, root: Path, iso: Path,
                              from: Path, spec: Specifier, target: Path)
    requires Below(root, found) && found <= files && from in found && target in found && root < target
    requires Fresh(iso, files) && Resolve(files, from, spec) == Some(target)
    requires root < from && !Climbs(|from| - 1 - |root|, spec) && Walk(Dirname(from), spec) != root
    ensures Resolve(WithCopies(files, found, root, iso), Relocate(root, iso, from), spec)
         == Some(Relocate(root, iso, target))
  {
    assert StaysBelow(root, from, spec);
    hide *;
    ResolutionCommutes(files, found, root, iso, from, spec);
  }

  lemma DirnameRelocates(root: Path, iso: Path, from: Path)
    requires root < from
    ensures root <= Dirname(from) && Dirname(Relocate(root, iso, from)) == Relocate(root, iso, Dirname(from))
    ensures |Dirname(from)| == |from| - 1
  {
  }

  lemma ClimbingImportFails(files: set<Path>, found: set<Path>, root: Path, iso: Path,
                            from: Path, spec: Specifier, target: Path)
    requires Below(root, found) && root < from && root < target && iso != [] && Basename(iso) !in spec
    requires Climbs(|from| - 1 - |root|, spec)
    ensures Resolve(WithCopies(files, found, root, iso), Relocate(root, iso, from), spec)
         != Some(Relocate(root, iso, target))
  {
    hide Candidates, WithCopies, FirstFile, Walk, Climbs;
    DirnameRelocates(root, iso, from);
    var dir' := Relocate(root, iso, Dirname(from));
    ClimbEscapes(iso, spec, dir', spec);
    var base' := Walk(dir', spec);
    NotUnderIso(iso, spec, base');
    TargetUnder(WithCopies(files, found, root, iso), iso, base', Relocate(root, iso, target));
  }

  lemma NotUnderIso(iso: Path, names: Specifier, path: Path)
    requires iso != [] && Elsewhere(iso, names, path) && Basename(iso) !in names
    ensures !(iso <= path)
  {
  }

  lemma TargetUnder(files': set<Path>, iso: Path, base': Path, copy: Path)
    requires iso < copy && !(iso <= base')
    ensures FirstFile(Candidates(base'), files') != Some(copy)
  {
    if copy in Candidates(base') && copy != base' {
      CandidatesFromUnder(iso, base', SourceFileExtensions(), copy);
    }
  }

  lemma RootImport(files: set<Path>, found: set<Path>, root: Path, iso: Path,
                   from: Path, spec: Specifier, target: Path)
    requires Below(root, found) && found <= files && from in found && target in found && root < target
    requires Fresh(iso, files) && Resolve(files, from, spec) == Some(target)
    requires root < from && !Climbs(|from| - 1 - |root|, spec) && Walk(Dirname(from), spec) == root
    ensures Resolve(WithCopies(files, found, root, iso), Relocate(root, iso, from), spec)
         == Some(Relocate(root, iso, target))
       <==> RootImportSurvives(iso, target)
  {
    assert Fresh(iso, files) && iso != [];
    hide *;
    var extensions := SourceFileExtensions();
    RootSpecifier(files, WithCopies(files, found, root, iso), root, iso, from, spec, target);
    IsoIsNoFile(files, found, root, iso);
    ExtensionsStartWithDot();
    RootHasNoExtension(files, root, extensions, target);
    if RootImportSurvives(iso, target) {
      RootIndexFound(files, found, root, iso, extensions, target);
    } else {
      OnlyIndexFilesSurvive(WithCopies(files, found, root, iso), root, iso, extensions, target);
    }
  }

  lemma RootHasNoExtension(files: set<Path>, root: Path, extensions: seq<string>, target: Path)
    requires root < target && FirstFile(CandidatesFrom(root, extensions), files) == Some(target)
    ensures Extname(Basename(root)) == "" && extensions != []
  {
    hide Extname;
    if Extname(Basename(root)) != "" {
      CandidatesFromDepth(root, extensions, target);
    }
  }

  lemma FirstFileIsCandidate(cs: seq<Path>, files: set<Path>)
    ensures forall c :: FirstFile(cs, files) == Some(c) ==> c in cs
  {
  }

  lemma BasenameRelocates(root: Path, iso: Path, p: Path)
    requires root < p
    ensures |Relocate(root, iso, p)| > |iso| && Basename(Relocate(root, iso, p)) == Basename(p)
  {
  }

  lemma OnlyIndexFilesSurvive(files': set<Path>, root: Path, iso: Path, extensions: seq<string>, target: Path)
    requires root < target && iso != [] && !RootImportSurvives(iso, target)
    ensures FirstFile(CandidatesFrom(iso, extensions), files') != Some(Relocate(root, iso, target))
  {
    var copy := Relocate(root, iso, target);
    BasenameRelocates(root, iso, target);
    assert Extname(Basename(iso)) != "" || !("index" <= Basename(target));
    hide *;
    FirstFileIsCandidate(CandidatesFrom(iso, extensions), files');
    if copy in CandidatesFrom(iso, extensions) {
      DeeperIsIndex(iso, extensions, copy);
    }
  }

  /** Both resolutions skip the directory itself and search what the extensions contribute. */
  lemma RootSpecifier(files: set<Path>, files': set<Path>, root: Path, iso: Path, from: Path, spec: Specifier,
                      target: Path)
    requires Resolve(files, from, spec) == Some(target) && root < target
    requires root < from && !Climbs(|from| - 1 - |root|, spec) && Walk(Dirname(from), spec) == root
    ensures FirstFile(CandidatesFrom(root, SourceFileExtensions()), files) == Some(target)
    ensures Resolve(files', Relocate(root, iso, from), spec)
         == if iso in files' then Some(iso) else FirstFile(CandidatesFrom(iso, SourceFileExtensions()), files')
  {
    hide Walk, Climbs, FirstFile, CandidatesFrom, SourceFileExtensions;
    DirnameRelocates(root, iso, from);
    WalkRelocates(root, iso, Dirname(from), spec);
    assert Relocate(root, iso, root) == iso;
    FirstFileCons(root, CandidatesFrom(root, SourceFileExtensions()), files);
    FirstFileCons(iso, CandidatesFrom(iso, SourceFileExtensions()), files');
  }

  lemma IsoIsNoFile(files: set<Path>, found: set<Path>, root: Path, iso: Path)
    requires Below(root, found) && Fresh(iso, files)
    ensures iso !in WithCopies(files, found, root, iso)
  {
    assert UnderName(iso, iso);
  }

  lemma {:induction false} DeeperIsIndex(base: Path, extensions: seq<string>, c: Path)
    requires c in CandidatesFrom(base, extensions) && |c| > |base| && base != []
    ensures Extname(Basename(base)) == "" && "index" <= Basename(c)
    decreases |extensions|
  {
    var e := extensions[0];
    if c in CandidatesFrom(base, extensions[1..]) {
      DeeperIsIndex(base, extensions[1..], c);
    } else {
      CandidateShape(base, e, c);
      assert c == Index(base, e);
      assert ("index" + e)[..5] == "index";
    }
  }

  // ---- copyModuleImportGraphWithoutNodeModules ---------------------------------------------------

  /** A regular file has nothing below it. */
  ghost predicate Treelike(files: set<Path>) {
    forall f, g :: f in files && g in files ==> !(f < g)
  }

  function PackageFile(dir: Path): Path { dir + ["package.json"] }

  /** The nearest directory at or above `dir` that holds a package file. */
  function PackageRoot(files: set<Path>, dir: Path): (r: Option<Path>)
    ensures r.Some? ==> PackageFile(r.value) in files && |r.value| <= |dir| && r.value == dir[..|r.value|]
    ensures forall n :: (if r.Some? then |r.value| + 1 else 0) <= n <= |dir| ==> PackageFile(dir[..n]) !in files
    decreases |dir|
  {
    hide PackageFile;
    assert dir[..|dir|] == dir;
    if PackageFile(dir) in files then Some(dir)
    else if dir == [] then None
    else
      assert forall n {:trigger dir[..n]} :: 0 <= n < |dir| ==> dir[..n] == Dirname(dir)[..n];
      PackageRoot(files, Dirname(dir))
  }

  method ResolvePackageRoot(files: set<Path>, modulePath: Path) returns (r: Option<Path>)
    ensures r == PackageRoot(files, Dirname(modulePath))
  {
    var cursor := Dirname(modulePath);
    while true
      invariant PackageRoot(files, cursor) == PackageRoot(files, Dirname(modulePath))
      decreases |cursor|
    {
      hide PackageFile;
      if PackageFile(cursor) in files {
        return Some(cursor);
      }
      if cursor == [] {
        return None;
      }
      cursor := Dirname(cursor);
    }
  }

  predicate CanCopy(fs: FileSystem, root: Path, files: seq<Path>) {
    forall i :: 0 <= i < |files| ==> files[i] in fs && root <= files[i]
  }

  /** The files copied one after the other, each with its content. */
  function CopyAll(fs: FileSystem, root: Path, iso: Path, files: seq<Path>): FileSystem
    requires CanCopy(fs, root, files)
  {
    if files == [] then map[]
    else
      var last := files[|files| - 1];
      CopyAll(fs, root, iso, files[..|files| - 1])[Relocate(root, iso, last) := fs[last]]
  }

  /** The copies are exactly the relocated files, with unchanged contents. */
  lemma {:induction false} CopyAllExact(fs: FileSystem, root: Path, iso: Path, files: seq<Path>)
    requires CanCopy(fs, root, files)
    ensures forall i :: 0 <= i < |files| ==>
              && Relocate(root, iso, files[i]) in CopyAll(fs, root, iso, files)
              && CopyAll(fs, root, iso, files)[Relocate(root, iso, files[i])] == fs[files[i]]
    ensures forall p :: p in CopyAll(fs, root, iso, files) ==>
              exists i :: 0 <= i < |files| && p == Relocate(root, iso, files[i])
    decreases |files|
  {
    if files != [] {
      var n := |files| - 1;
      var rest, last := files[..n], files[n];
      CopyAllExact(fs, root, iso, rest);
      forall i | 0 <= i < n && Relocate(root, iso, files[i]) == Relocate(root, iso, last) ensures files[i] == last {
        RelocateInjective(root, iso, files[i], last);
      }
      hide Relocate;
      assert forall i {:trigger files[i]} :: 0 <= i < n ==> rest[i] == files[i];
    }
  }

  lemma RelocateInjective(root: Path, iso: Path, f: Path, g: Path)
    requires root <= f && root <= g
    ensures Relocate(root, iso, f) == Relocate(root, iso, g) ==> f == g
  {
    var f', g' := Relocate(root, iso, f), Relocate(root, iso, g);
    assert f'[|iso|..] == f[|root|..] && g'[|iso|..] == g[|root|..];
    assert f == root + f[|root|..] && g == root + g[|root|..];
  }

  method CopyFiles(fs: FileSystem, copyRoot: Path, isolatedRoot: Path, relativeFiles: seq<Path>)
    returns (targets: FileSystem)
    requires CanCopy(fs, copyRoot, relativeFiles)
    ensures targets == CopyAll(fs, copyRoot, isolatedRoot, relativeFiles)
  {
    hide Relocate;
    targets := map[];
    for i := 0 to |relativeFiles|
      invariant targets == CopyAll(fs, copyRoot, isolatedRoot, relativeFiles[..i])
    {
      var sourcePath := relativeFiles[i];
      assert relativeFiles[..i + 1][..i] == relativeFiles[..i];
      var targetPath := Relocate(copyRoot, isolatedRoot, sourcePath);
      targets := targets[targetPath := fs[sourcePath]];
    }
    assert relativeFiles[..|relativeFiles|] == relativeFiles;
  }

  ghost predicate IsClosure(fs: FileSystem, entry: Path, files: seq<Path>) {
    entry in files && forall f :: f in files <==> Reachable(fs, entry, f)
  }

  ghost predicate AllBelow(root: Path, files: seq<Path>) {
    forall i :: 0 <= i < |files| ==> root < files[i]
  }

  /** The discovered files in order, the root they were copied from, the copies, and where the module
      ended up. */
  datatype Copy = Copy(files: seq<Path>, root: Path, targets: FileSystem, copiedModulePath: Path)

  /** What a finished copy holds: the root is the deepest directory that contains the package root
      and every reachable file, and exactly those files are copied below it. */
  ghost predicate CopyOf(fs: FileSystem, packageRoot: Path, modulePath: Path, iso: Path, c: Copy) {
    && IsClosure(fs, modulePath, c.files)
    && CommonAncestor.DeepestCommon(c.root, [packageRoot] + c.files)
    && AllBelow(c.root, c.files)
    && CanCopy(fs, c.root, c.files)
    && c.targets == CopyAll(fs, c.root, iso, c.files)
    && c.root <= modulePath
    && c.copiedModulePath == Relocate(c.root, iso, modulePath)
  }

  /** In a tree-like file system no file lies on the way to the package root. */
  lemma NotAbovePackageRoot(files: set<Path>, packageRoot: Path, f: Path)
    requires Treelike(files) && PackageFile(packageRoot) in files && f in files
    ensures !(f <= packageRoot)
  {
    assert f <= packageRoot ==> f < PackageFile(packageRoot);
  }

  lemma NoneSwallows(files: set<Path>, packageRoot: Path, found: seq<Path>)
    requires forall i :: 0 <= i < |found| ==> found[i] in files
    requires Treelike(files) && PackageFile(packageRoot) in files
    ensures !CommonAncestor.Swallowed(packageRoot, found)
  {
    forall i | 0 <= i < |found| ensures !(found[i] <= packageRoot) {
      NotAbovePackageRoot(files, packageRoot, found[i]);
    }
    hide Treelike, PackageFile;
  }

  /** So the root the source computes is common to all. */
  lemma CopyRootIsCommon(files: set<Path>, packageRoot: Path, found: seq<Path>)
    requires forall i :: 0 <= i < |found| ==> found[i] in files
    requires Treelike(files) && PackageFile(packageRoot) in files
    ensures CommonAncestor.DeepestCommon(CommonAncestor.Fold(packageRoot, found), [packageRoot] + found)
    ensures AllBelow(CommonAncestor.Fold(packageRoot, found), found)
  {
    hide Treelike, PackageFile, CommonAncestor.Fold, CommonAncestor.DeepestCommon;
    NoneSwallows(files, packageRoot, found);
    CommonAncestor.CommonAncestorExact(packageRoot, found);
    var root := CommonAncestor.Fold(packageRoot, found);
    forall i | 0 <= i < |found| ensures root < found[i] {
      CommonToAll(root, packageRoot, found, i);
      NotAbovePackageRoot(files, packageRoot, found[i]);
    }
  }

  lemma CommonToAll(root: Path, first: Path, rest: seq<Path>, i: nat)
    requires CommonAncestor.DeepestCommon(root, [first] + rest) && i < |rest|
    ensures root <= first && root <= rest[i]
  {
    var all := [first] + rest;
    assert all[0] in all && all[i + 1] in all;
  }

  method CopyModuleImportGraph(fs: FileSystem, modulePath: Path, isolatedRoot: Path) returns (r: Result<Copy>)
    requires Treelike(fs.Keys)
    ensures var p := PackageRoot(fs.Keys, Dirname(modulePath));
            match r
            case NoPackageRoot => p.None?
            case MissingFile(f) => p.Some? && f == modulePath && f !in fs
            case Ok(c) => p.Some? && modulePath in fs && CopyOf(fs, p.value, modulePath, isolatedRoot, c)
  {
    var packageRoot := ResolvePackageRoot(fs.Keys, modulePath);
    if packageRoot.None? {
      return NoPackageRoot;
    }
    var graph := CollectRelativeImportGraph(fs, modulePath);
    if !graph.Ok? {
      return MissingFile(modulePath);
    }
    var relativeFiles := graph.value;
    assert ([packageRoot.value] + relativeFiles)[1..] == relativeFiles;
    assert IsClosure(fs, modulePath, relativeFiles);
    CopyIsExact(fs, packageRoot.value, modulePath, isolatedRoot, relativeFiles);
    assert modulePath in fs;
    hide *;
    var ancestor := CommonAncestor.ResolveCommonAncestor([packageRoot.value] + relativeFiles);
    var copyRoot := ancestor.value;
    var targets := CopyFiles(fs, copyRoot, isolatedRoot, relativeFiles);
    return Ok(Copy(relativeFiles, copyRoot, targets, Relocate(copyRoot, isolatedRoot, modulePath)));
  }

  lemma CopyIsExact(fs: FileSystem, packageRoot: Path, modulePath: Path, iso: Path, files: seq<Path>)
    requires Treelike(fs.Keys) && PackageFile(packageRoot) in fs.Keys && IsClosure(fs, modulePath, files)
    ensures var root := CommonAncestor.Fold(packageRoot, files);
            && CanCopy(fs, root, files) && root <= modulePath && modulePath in fs
            && CopyOf(fs, packageRoot, modulePath, iso,
                      Copy(files, root, CopyAll(fs, root, iso, files), Relocate(root, iso, modulePath)))
  {
    hide Treelike, PackageFile, Relocate, CopyAll, CommonAncestor.Fold, CommonAncestor.DeepestCommon;
    ClosureIsFiles(fs, modulePath, files);
    var i :| 0 <= i < |files| && files[i] == modulePath;
    hide IsClosure;
    CopyRootIsCommon(fs.Keys, packageRoot, files);
    assert CommonAncestor.Fold(packageRoot, files) < files[i];
  }

  lemma ClosureIsFiles(fs: FileSystem, entry: Path, files: seq<Path>)
    requires IsClosure(fs, entry, files)
    ensures forall i :: 0 <= i < |files| ==> files[i] in fs
  {
    forall i | 0 <= i < |files| ensures files[i] in fs {
      assert Reachable(fs, entry, files[i]);
      var route :| RouteLeads(fs, entry, route, files[i]);
      if route.Via? {
        ImportsAreFiles(fs, route.importer, files[i]);
      }
    }
  }

  // ---- the copied graph ------------------------------------------------------------------------

  /** An import of a discovered file survives the copy (see ImportSurvivesExactly). */
  ghost predicate Survives(root: Path, iso: Path, from: Path, spec: Specifier, target: Path) {
    && root < from && !Climbs(|from| - 1 - |root|, spec)
    && (Walk(Dirname(from), spec) == root ==> RootImportSurvives(iso, target))
  }

  /** A specifier that finds nothing and leaves the copy root, or names it, finds nothing in the copy
      either: outside the isolated root no file is there to be found, or neither root has an extension. */
  ghost predicate StaysMissing(files: set<Path>, root: Path, iso: Path, from: Path, spec: Specifier) {
    && root < from
    && if Climbs(|from| - 1 - |root|, spec) then Resolve(files, Relocate(root, iso, from), spec) == None
       else Extname(Basename(root)) == Extname(Basename(iso)) == ""
  }

  /** The condition on one import: it stays strictly below the copy root, or does not mention the
      isolated root's name and survives, or stays missing, by the exact conditions. */
  ghost predicate Kept(files: set<Path>, root: Path, iso: Path, from: Path, spec: Specifier) {
    || StaysBelow(root, from, spec)
    || (Basename(iso) !in spec
        && match Resolve(files, from, spec)
           case Some(target) => Survives(root, iso, from, spec, target)
           case None => StaysMissing(files, root, iso, from, spec))
  }

  ghost predicate AllKept(fs: FileSystem, root: Path, iso: Path, found: set<Path>) {
    forall f, spec :: f in found && f in fs && spec in fs[f] && IsRelative(spec) ==> Kept(fs.Keys, root, iso, f, spec)
  }

  lemma {:induction false} RootIndexMissing(files: set<Path>, found: set<Path>, root: Path, iso: Path,
                                            extensions: seq<string>)
    requires Below(root, found) && Fresh(iso, files) && found <= files
    requires Extname(Basename(root)) == Extname(Basename(iso)) == ""
    requires FirstFile(CandidatesFrom(root, extensions), files) == None
    ensures FirstFile(CandidatesFrom(iso, extensions), WithCopies(files, found, root, iso)) == None
    decreases |extensions|
  {
    hide *;
    if extensions == [] {
      NothingWithoutExtensions(iso, extensions, WithCopies(files, found, root, iso));
    } else {
      var e, more := extensions[0], extensions[1..];
      assert extensions == [e] + more;
      RootCandidates(root, e, more, files);
      RootCandidates(iso, e, more, WithCopies(files, found, root, iso));
      SiblingNotCopied(files, found, root, iso, e);
      IndexCopied(files, found, root, iso, e);
      RootIndexMissing(files, found, root, iso, more);
    }
  }

  lemma IndexCopied(files: set<Path>, found: set<Path>, root: Path, iso: Path, e: string)
    requires Below(root, found) && Fresh(iso, files) && found <= files
    ensures Index(iso, e) in WithCopies(files, found, root, iso) ==> Index(root, e) in files
  {
    ChildRelocates(root, iso, root, "index" + e);
    CopiedExactly(files, found, root, iso, Index(root, e));
    hide WithCopies, Fresh, Below;
    assert Relocate(root, iso, root) == iso;
  }

  lemma MissingRootStaysMissing(files: set<Path>, found: set<Path>, root: Path, iso: Path, from: Path, spec: Specifier)
    requires Below(root, found) && Fresh(iso, files) && found <= files && root < from
    requires !Climbs(|from| - 1 - |root|, spec) && Walk(Dirname(from), spec) == root
    requires Extname(Basename(root)) == Extname(Basename(iso)) == "" && Resolve(files, from, spec) == None
    ensures Resolve(WithCopies(files, found, root, iso), Relocate(root, iso, from), spec) == None
  {
    var files' := WithCopies(files, found, root, iso);
    DirnameRelocates(root, iso, from);
    WalkRelocates(root, iso, Dirname(from), spec);
    assert Relocate(root, iso, root) == iso;
    IsoIsNoFile(files, found, root, iso);
    hide Walk, Dirname, Climbs, CandidatesFrom, SourceFileExtensions, FirstFile, WithCopies, Extname, Below, Fresh;
    FirstFileCons(root, CandidatesFrom(root, SourceFileExtensions()), files);
    FirstFileCons(iso, CandidatesFrom(iso, SourceFileExtensions()), files');
    RootIndexMissing(files, found, root, iso, SourceFileExtensions());
  }

  /** A candidate outside the isolated root is no copy. */
  lemma NoCandidateCopied(found: set<Path>, root: Path, iso: Path, base: Path, c: Path)
    requires Below(root, found) && !(iso <= base) && c in Candidates(base)
    ensures !exists f :: f in found && c == Relocate(root, iso, f)
  {
    hide CandidatesFrom, SourceFileExtensions;
    if f :| f in found && c == Relocate(root, iso, f) {
      assert iso < Relocate(root, iso, f);
      if c != base {
        CandidatesFromUnder(iso, base, SourceFileExtensions(), c);
      }
    }
  }

  lemma MissingClimbStaysMissing(files: set<Path>, found: set<Path>, root: Path, iso: Path, from: Path, spec: Specifier)
    requires Below(root, found) && iso != [] && root < from && Basename(iso) !in spec
    requires Climbs(|from| - 1 - |root|, spec) && Resolve(files, Relocate(root, iso, from), spec) == None
    ensures Resolve(WithCopies(files, found, root, iso), Relocate(root, iso, from), spec) == None
  {
    hide *;
    var from' := Relocate(root, iso, from);
    var dir := Dirname(from');
    CopiedDirname(root, iso, from);
    ClimbEscapes(iso, spec, dir, spec);
    NotUnderIso(iso, spec, Walk(dir, spec));
    MissingMeans(files, from', spec);
    MissingMeans(WithCopies(files, found, root, iso), from', spec);
    forall c | c in Candidates(Walk(dir, spec)) ensures c !in WithCopies(files, found, root, iso) {
      NoCandidateCopied(found, root, iso, Walk(dir, spec), c);
      CopiesAre(files, found, root, iso, c);
    }
  }

  lemma CopiedDirname(root: Path, iso: Path, from: Path)
    requires root < from
    ensures iso <= Dirname(Relocate(root, iso, from))
    ensures |Dirname(Relocate(root, iso, from))| - |iso| == |from| - 1 - |root|
  {
    DirnameRelocates(root, iso, from);
    hide Dirname;
  }

  lemma MissingMeans(files: set<Path>, from: Path, spec: Specifier)
    ensures Resolve(files, from, spec) == None
       <==> forall c :: c in Candidates(Walk(Dirname(from), spec)) ==> c !in files
  {
    hide Candidates, Walk, Dirname, FirstFile;
  }

  lemma CopiesAre(files: set<Path>, found: set<Path>, root: Path, iso: Path, c: Path)
    requires Below(root, found)
    ensures c in WithCopies(files, found, root, iso)
       <==> c in files || exists f :: f in found && c == Relocate(root, iso, f)
  {
    hide Relocate;
  }

  /** What the original file system, a closed set of its files and their copies give. */
  ghost predicate Isolated(fs: FileSystem, found: set<Path>, root: Path, iso: Path, copied: FileSystem) {
    && Below(root, found) && Fresh(iso, fs.Keys) && Closed(fs, found) && AllKept(fs, root, iso, found)
    && copied.Keys == WithCopies(fs.Keys, found, root, iso)
    && forall f :: f in found ==> Relocate(root, iso, f) in copied && copied[Relocate(root, iso, f)] == fs[f]
  }

  lemma SpecifierCommutes(fs: FileSystem, found: set<Path>, root: Path, iso: Path, copied: FileSystem, f: Path,
                          spec: Specifier)
    requires Isolated(fs, found, root, iso, copied) && f in found && spec in fs[f]
    ensures Leads(copied, Relocate(root, iso, f), spec) <==> Leads(fs, f, spec)
    ensures Leads(fs, f, spec) ==> Target(fs, f, spec) in found && root < Target(fs, f, spec)
                                   && Target(copied, Relocate(root, iso, f), spec)
                                      == Relocate(root, iso, Target(fs, f, spec))
  {
    if IsRelative(spec) {
      if Leads(fs, f, spec) {
        assert Target(fs, f, spec) in Imports(fs, f);
      }
      assert Kept(fs.Keys, root, iso, f, spec);
      hide Resolve, Imports, Fresh, WithCopies, Relocate, Kept;
      KeptCommutes(fs.Keys, found, root, iso, f, spec);
    }
  }

  /** A kept specifier resolves in the copy to the copy of what it resolved to, or to nothing. */
  lemma KeptCommutes(files: set<Path>, found: set<Path>, root: Path, iso: Path, from: Path, spec: Specifier)
    requires Below(root, found) && Fresh(iso, files) && found <= files && from in found
    requires Kept(files, root, iso, from, spec)
    requires Resolve(files, from, spec).Some? ==> Resolve(files, from, spec).value in found
    ensures Resolve(WithCopies(files, found, root, iso), Relocate(root, iso, from), spec)
         == var r := Resolve(files, from, spec);
            if r.Some? && root <= r.value then Some(Relocate(root, iso, r.value)) else None
  {
    assert root < from && iso != [];
    assert Resolve(files, from, spec).Some? ==> root < Resolve(files, from, spec).value;
    hide Resolve, Fresh, WithCopies, Relocate, Climbs, Walk, RootImportSurvives, Below, Dirname, Basename, Extname;
    if StaysBelow(root, from, spec) {
      ResolutionCommutes(files, found, root, iso, from, spec);
    } else if Resolve(files, from, spec).Some? {
      ImportSurvivesExactly(files, found, root, iso, from, spec, Resolve(files, from, spec).value);
    } else if Climbs(|from| - 1 - |root|, spec) {
      MissingClimbStaysMissing(files, found, root, iso, from, spec);
    } else {
      MissingRootStaysMissing(files, found, root, iso, from, spec);
    }
  }

  /** Each copy imports exactly the copies of what its original imports. */
  lemma ImportsCommute(fs: FileSystem, found: set<Path>, root: Path, iso: Path, copied: FileSystem, f: Path)
    requires Isolated(fs, found, root, iso, copied) && f in found
    ensures Imports(fs, f) <= found
    ensures Imports(copied, Relocate(root, iso, f))
         == set g | g in Imports(fs, f) && root <= g :: Relocate(root, iso, g)
  {
    var f' := Relocate(root, iso, f);
    forall spec | spec in fs[f]
      ensures Leads(copied, f', spec) <==> Leads(fs, f, spec)
      ensures Leads(fs, f, spec) ==>
                root < Target(fs, f, spec) && Target(copied, f', spec) == Relocate(root, iso, Target(fs, f, spec))
    {
      SpecifierCommutes(fs, found, root, iso, copied, f, spec);
    }
    hide Leads, Target, Relocate, Fresh, WithCopies;
    forall g' | g' in Imports(copied, f')
      ensures exists g :: g in Imports(fs, f) && root <= g && g' == Relocate(root, iso, g)
    {
      var spec :| spec in copied[f'] && Leads(copied, f', spec) && g' == Target(copied, f', spec);
      assert Target(fs, f, spec) in Imports(fs, f);
    }
    forall g | g in Imports(fs, f) && root <= g ensures Relocate(root, iso, g) in Imports(copied, f') {
      var spec :| spec in fs[f] && Leads(fs, f, spec) && g == Target(fs, f, spec);
      assert Leads(copied, f', spec);
    }
  }

  lemma {:induction false} RouteCopied(fs: FileSystem, found: set<Path>, root: Path, iso: Path, copied: FileSystem,
                                       entry: Path, route: Route, f: Path)
    requires Isolated(fs, found, root, iso, copied) && entry in found && RouteLeads(fs, entry, route, f)
    ensures f in found && root < f
    ensures Reachable(copied, Relocate(root, iso, entry), Relocate(root, iso, f))
    decreases route
  {
    match route
    case Here =>
      ReachableSelf(copied, Relocate(root, iso, f));
    case Via(importer, before) =>
      RouteCopied(fs, found, root, iso, copied, entry, before, importer);
      ImportsCommute(fs, found, root, iso, copied, importer);
      hide Imports, Reachable, Relocate, Fresh, WithCopies, AllKept;
      ReachableStep(copied, Relocate(root, iso, entry), Relocate(root, iso, importer), Relocate(root, iso, f));
  }

  /** Loading from the copy reads the copies of the discovered files and nothing else. */
  lemma CopiedGraphIsIsomorphic(fs: FileSystem, found: set<Path>, root: Path, iso: Path, copied: FileSystem,
                                entry: Path)
    requires Isolated(fs, found, root, iso, copied) && entry in found
    requires forall f :: f in found ==> Reachable(fs, entry, f)
    ensures forall p :: Reachable(copied, Relocate(root, iso, entry), p)
                   <==> exists f :: f in found && p == Relocate(root, iso, f)
  {
    var found' := set f | f in found :: Relocate(root, iso, f);
    forall f | f in found
      ensures Reachable(copied, Relocate(root, iso, entry), Relocate(root, iso, f))
      ensures Imports(copied, Relocate(root, iso, f)) <= found'
    {
      var route :| RouteLeads(fs, entry, route, f);
      RouteCopied(fs, found, root, iso, copied, entry, route, f);
      ImportsCommute(fs, found, root, iso, copied, f);
    }
    hide Reachable, Imports, Relocate, Fresh, AllKept;
    assert Closed(copied, found');
    ClosedIsReachable(copied, Relocate(root, iso, entry), found');
  }

  lemma ClosureIsClosed(fs: FileSystem, entry: Path, files: seq<Path>)
    requires IsClosure(fs, entry, files)
    ensures Closed(fs, Elements(files)) && entry in Elements(files)
    ensures forall f :: f in Elements(files) ==> Reachable(fs, entry, f)
  {
    ClosureIsFiles(fs, entry, files);
    forall f, g | f in files && f in fs && g in Imports(fs, f) ensures g in files {
      ReachableStep(fs, entry, f, g);
    }
  }

  lemma CopyIsIsolated(fs: FileSystem, packageRoot: Path, modulePath: Path, iso: Path, c: Copy)
    requires CopyOf(fs, packageRoot, modulePath, iso, c)
    requires Fresh(iso, fs.Keys) && AllKept(fs, c.root, iso, Elements(c.files))
    ensures Isolated(fs, Elements(c.files), c.root, iso, fs + c.targets)
    ensures c.targets.Keys == set f | f in Elements(c.files) && c.root <= f :: Relocate(c.root, iso, f)
  {
    hide Relocate, Fresh, AllKept, Reachable, CopyAll, Imports, CommonAncestor.DeepestCommon;
    var found := Elements(c.files);
    ClosureIsClosed(fs, modulePath, c.files);
    CopyAllExact(fs, c.root, iso, c.files);
    forall f | f in found
      ensures c.root < f && Relocate(c.root, iso, f) in c.targets && c.targets[Relocate(c.root, iso, f)] == fs[f]
    {
      var i :| 0 <= i < |c.files| && f == c.files[i];
    }
    forall p | p in c.targets ensures exists f :: f in found && c.root <= f && p == Relocate(c.root, iso, f) {
      var i :| 0 <= i < |c.files| && p == Relocate(c.root, iso, c.files[i]);
      assert c.files[i] in found;
    }
  }

  /** When every import is kept, loading the copied module reads exactly the copied files: the closure of
      the copied entry is the set of copies. */
  lemma CopyIsSelfContained(fs: FileSystem, packageRoot: Path, modulePath: Path, iso: Path, c: Copy)
    requires CopyOf(fs, packageRoot, modulePath, iso, c)
    requires Fresh(iso, fs.Keys) && AllKept(fs, c.root, iso, Elements(c.files))
    ensures forall p :: Reachable(fs + c.targets, c.copiedModulePath, p) <==> p in c.targets
  {
    CopyIsIsolated(fs, packageRoot, modulePath, iso, c);
    ClosureIsClosed(fs, modulePath, c.files);
    hide Relocate, Reachable, Closed, Fresh, AllKept, CopyAll;
    CopiedGraphIsIsomorphic(fs, Elements(c.files), c.root, iso, fs + c.targets, modulePath);
  }

  // ---- imports the copy breaks -----------------------------------------------------------------

  lemma WalkUp(dir: Path, rest: Specifier)
    ensures Walk(dir, [".."] + rest) == Walk(Dirname(dir), rest)
    ensures forall depth: nat :: Climbs(depth, [".."] + rest) == (depth == 0 || Climbs(depth - 1, rest))
  {
    assert ([".."] + rest)[1..] == rest;
  }

  lemma WalkName(dir: Path, name: string, rest: Specifier)
    requires PlainName(name)
    ensures Walk(dir, [name] + rest) == Walk(dir + [name], rest)
    ensures forall depth: nat :: Climbs(depth, [name] + rest) == Climbs(depth + 1, rest)
  {
    assert ([name] + rest)[1..] == rest;
  }

  lemma BaseIsFile(files: set<Path>, base: Path)
    requires base in files
    ensures FirstFile(Candidates(base), files) == Some(base)
  {
    hide CandidatesFrom, SourceFileExtensions;
    FirstFileCons(base, CandidatesFrom(base, SourceFileExtensions()), files);
  }

  lemma BelowPair(root: Path, f: Path, g: Path)
    requires root < f && root < g
    ensures Below(root, {f, g}) && |f| > |root| && |g| > |root|
  {
  }

  /** "../pkg/b" written in the file /w/pkg/a climbs above the copy root /w/pkg and comes back by
      name: it finds /w/pkg/b, but its copy under any other name does not. */
  lemma DetourBreaks(w: string, pkg: string, a: string, b: string, iso: Path)
    requires PlainName(pkg) && PlainName(b)
    requires iso != [] && Basename(iso) != ".." && Basename(iso) != pkg && Basename(iso) != b
    ensures var root, from, target := [w, pkg], [w, pkg, a], [w, pkg, b];
            var files, spec := {from, target}, [".."] + ([pkg] + ([b] + []));
            && Below(root, files) && Resolve(files, from, spec) == Some(target)
            && Resolve(WithCopies(files, files, root, iso), Relocate(root, iso, from), spec)
               != Some(Relocate(root, iso, target))
  {
    hide *;
    DetourResolves(w, pkg, a, b);
    var root, from, target: Path := [w, pkg], [w, pkg, a], [w, pkg, b];
    BelowPair(root, from, target);
    NotInDetour(Basename(iso), pkg, b);
    ClimbingImportFails({from, target}, {from, target}, root, iso, from, [".."] + ([pkg] + ([b] + [])), target);
  }

  lemma NotInDetour(name: string, pkg: string, b: string)
    requires name != ".." && name != pkg && name != b
    ensures name !in [".."] + ([pkg] + ([b] + []))
  {
  }

  lemma DetourResolves(w: string, pkg: string, a: string, b: string)
    requires PlainName(pkg) && PlainName(b)
    ensures var root, from, target := [w, pkg], [w, pkg, a], [w, pkg, b];
            var files, spec := {from, target}, [".."] + ([pkg] + ([b] + []));
            && Resolve(files, from, spec) == Some(target)
            && root < from && root < target && |from| - 1 - |root| == 0 && Climbs(|from| - 1 - |root|, spec)
  {
    var root, from, target: Path := [w, pkg], [w, pkg, a], [w, pkg, b];
    var none: Specifier := [];
    assert Dirname(from) == root && Dirname(root) == [w] && [w] + [pkg] == root && root + [b] == target;
    hide Candidates, FirstFile, Dirname, Walk, Climbs;
    WalkUp(root, [pkg] + ([b] + none));
    WalkName([w], pkg, [b] + none);
    WalkName(root, b, none);
    WalkNowhere(target);
    BaseIsFile({from, target}, target);
  }

  lemma WalkNowhere(dir: Path)
    ensures Walk(dir, []) == dir
  {
  }

  /** ".." written in the file /w/p/a names the copy root /w, whose index file it finds. When the
      isolated root's name has an extension (it is made from the package's name), its copy does
      not. */
  lemma RootImportBreaks(w: string, p: string, a: string, iso: Path)
    requires Extname(w) == "" && iso != [] && Extname(Basename(iso)) != ""
    requires Fresh(iso, {[w, p, a], Index([w], ".ts")})
    ensures var root, from, target := [w], [w, p, a], Index([w], ".ts");
            var files, spec := {from, target}, [".."] + [];
            && Below(root, files) && Resolve(files, from, spec) == Some(target)
            && Resolve(WithCopies(files, files, root, iso), Relocate(root, iso, from), spec)
               != Some(Relocate(root, iso, target))
  {
    var root, from, target: Path := [w], [w, p, a], Index([w], ".ts");
    var files := {from, target};
    var none: Specifier := [];
    var spec := [".."] + none;
    assert Dirname(from) == [w, p] && Dirname(Dirname(from)) == root;
    assert !RootImportSurvives(iso, target);
    BelowPair(root, from, target);
    hide Candidates, FirstFile, WithCopies, Relocate, Below, Fresh, Extname, Dirname, Basename, Index;
    WalkUp(Dirname(from), none);
    assert !Climbs(1, spec) && Walk(Dirname(from), spec) == root;
    FindsRootIndex(files, w);
    assert Resolve(files, from, spec) == Some(target);
    hide *;
    RootImport(files, files, root, iso, from, spec, target);
  }

  lemma FindsRootIndex(files: set<Path>, w: string)
    requires Extname(w) == "" && Index([w], ".ts") in files && Below([w], files)
    ensures FirstFile(Candidates([w]), files) == Some(Index([w], ".ts"))
  {
    var dir: Path := [w];
    var more := SourceFileExtensions()[1..];
    assert SourceFileExtensions() == [".ts"] + more;
    hide SourceFileExtensions, Extname;
    assert Basename(dir) == w && |Append(dir, ".ts")| == 1;
    assert Append(dir, ".ts") !in files && dir !in files;
    FirstFileCons(dir, CandidatesFrom(dir, SourceFileExtensions()), files);
    RootCandidates(dir, ".ts", more, files);
  }
}
