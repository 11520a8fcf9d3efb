/**
 * The orphans task end to end: option checks, path normalisation, the two
 * loops over `filesByModuleName`, the orphan filter and the fail decision.
 * Globbing and madge are not run: their results (`files`, the expanded
 * whitelist, the dependency tree) are inputs.
 */
module GruntOrphans {
  import opened Wrappers
  import opened JsStrings
  import opened FileTree
  import opened FlagTable
  import opened OrphanReport

  /** An option's JavaScript value, as far as `_.isString` and `_.isArray` tell values apart. */
  datatype JsValue = JsNull | JsString(str: string) | JsArray(elems: seq<JsValue>) | JsOther

  /** The options the core reads, after grunt merged them with the grunt task's defaults. */
  datatype TaskOptions = TaskOptions(entryFileGlob: JsValue, baseDir: Option<string>, whitelist: JsValue)

  /** The defaults the grunt task declares: no entry glob, no base directory, an empty whitelist. */
  const DefaultOptions: TaskOptions := TaskOptions(JsNull, None, JsArray([]))

  datatype ConfigError = BadEntryFileGlob | BadWhitelist {
    /** The message of the failing `assert`. */
    function Message(): string {
      match this
      case BadEntryFileGlob => "options.entryFileGlob must be a string or an array"
      case BadWhitelist => "options.whitelist must be an array"
    }
  }

  /** The two option assertions, in order; the first that fails is the error. */
  function CheckOptions(opts: TaskOptions): (r: Option<ConfigError>)
    ensures r.None? <==> (opts.entryFileGlob.JsString? || opts.entryFileGlob.JsArray?) && opts.whitelist.JsArray?
    ensures !(opts.entryFileGlob.JsString? || opts.entryFileGlob.JsArray?) ==> r == Some(BadEntryFileGlob)
    ensures (opts.entryFileGlob.JsString? || opts.entryFileGlob.JsArray?) && !opts.whitelist.JsArray? ==>
              r == Some(BadWhitelist)
  {
    if !(opts.entryFileGlob.JsArray? || opts.entryFileGlob.JsString?) then Some(BadEntryFileGlob)
    else if !opts.whitelist.JsArray? then Some(BadWhitelist)
    else None
  }

  /** The defaults alone fail the first assertion: `entryFileGlob` has to be configured. */
  lemma DefaultOptionsRejected()
    ensures CheckOptions(DefaultOptions) == Some(BadEntryFileGlob)
  {
  }

  /** How one run ends: a failed option assertion, success, or `grunt.fail.warn` with the orphans. */
  datatype TaskOutcome = InvalidConfig(error: ConfigError) | Clean | OrphansFound(orphans: seq<string>) {
    predicate Fails() {
      !Clean?
    }

    /** The text grunt reports when the run fails: the assertion's message or the orphan count. */
    function Message(): (m: Option<string>)
      ensures m.Some? <==> Fails()
      ensures OrphansFound? ==> CountInMessage(m.value) == Some(|orphans|)
    {
      match this
      case InvalidConfig(e) => Some(e.Message())
      case Clean => None
      case OrphansFound(found) => Some(FailureMessage(|found|))
    }
  }

  /** The reported orphans; empty unless the run reached the filter and found some. */
  function OrphanList(outcome: TaskOutcome): seq<string> {
    if outcome.OrphansFound? then outcome.orphans else []
  }

  const FoundPrefix: string := "Found "
  const FoundSuffix: string := " orphaned files."

  /** The count a failure message carries, if it has the failure message's shape. */
  function CountInMessage(m: string): Option<nat> {
    if |m| < |FoundPrefix| + |FoundSuffix| || !(FoundPrefix <= m) || m[|m| - |FoundSuffix|..] != FoundSuffix then None
    else
      var middle := m[|FoundPrefix|..|m| - |FoundSuffix|];
      if forall i :: 0 <= i < |middle| ==> IsDigit(middle[i]) then Some(ParseDecimal(middle)) else None
  }

  /** Digits framed by the failure message's words read back as their value. */
  lemma CountBetweenWords(digits: string)
    requires forall i :: 0 <= i < |digits| ==> IsDigit(digits[i])
    ensures CountInMessage(FoundPrefix + digits + FoundSuffix) == Some(ParseDecimal(digits))
  {
    var m := FoundPrefix + digits + FoundSuffix;
    assert m[..|FoundPrefix|] == FoundPrefix;
    assert m[|m| - |FoundSuffix|..] == FoundSuffix;
    assert m[|FoundPrefix|..|m| - |FoundSuffix|] == digits;
  }

  /** The failure text: the word Found, the orphan count, then the words orphaned files. The count reads back. */
  function FailureMessage(count: nat): (m: string)
    ensures CountInMessage(m) == Some(count)
  {
    CountBetweenWords(DecimalString(count));
    ParseDecimalString(count);
    FoundPrefix + DecimalString(count) + FoundSuffix
  }

  /** The module names of the tree files are those of the source paths. */
  lemma {:induction false} TreeFileNames(files: seq<FileEntry>, baseDir: Option<string>)
    ensures forall i, j :: 0 <= i < |files| && 0 <= j < |files[i].src| ==>
              ModuleName(files[i].src[j], baseDir) in ModuleNames(AllFilesInTree(files, baseDir))
    ensures forall x :: x in ModuleNames(AllFilesInTree(files, baseDir)) ==>
              exists i, j :: 0 <= i < |files| && 0 <= j < |files[i].src| && x == ModuleName(files[i].src[j], baseDir)
  {
    var allFilesInTree := AllFilesInTree(files, baseDir);
    var names := ModuleNames(allFilesInTree);
    AllFilesInTreeMembers(files, baseDir);
    forall i, j | 0 <= i < |files| && 0 <= j < |files[i].src|
      ensures ModuleName(files[i].src[j], baseDir) in names
    {
      var path := ReplaceFirst(files[i].src[j], SearchString(baseDir));
      var n :| 0 <= n < |allFilesInTree| && allFilesInTree[n] == path;
      assert names[n] == ModuleName(files[i].src[j], baseDir);
    }
    forall x | x in names
      ensures exists i, j :: 0 <= i < |files| && 0 <= j < |files[i].src| && x == ModuleName(files[i].src[j], baseDir)
    {
      var n :| 0 <= n < |names| && names[n] == x;
      assert allFilesInTree[n] in allFilesInTree;
    }
  }

  /** The candidate keys: the distinct module names of the tree files, in first-insertion order. */
  function Candidates(files: seq<FileEntry>, baseDir: Option<string>): (r: seq<string>)
    ensures Distinct(r)
    ensures forall i, j :: 0 <= i < |files| && 0 <= j < |files[i].src| ==> ModuleName(files[i].src[j], baseDir) in r
    ensures forall x :: x in r ==>
              exists i, j :: 0 <= i < |files| && 0 <= j < |files[i].src| && x == ModuleName(files[i].src[j], baseDir)
  {
    TreeFileNames(files, baseDir);
    Dedup(ModuleNames(AllFilesInTree(files, baseDir)))
  }

  /** What one run of the grunt task computes, as a function of its inputs. */
  function OrphansTask(opts: TaskOptions, files: seq<FileEntry>, expandedWhitelist: seq<string>,
                       tree: seq<TreeEntry>): (r: TaskOutcome)
    ensures CheckOptions(opts).Some? ==> r == InvalidConfig(CheckOptions(opts).value)
    ensures r.InvalidConfig? ==> CheckOptions(opts).Some?
    ensures r.OrphansFound? ==> |r.orphans| > 0
  {
    match CheckOptions(opts)
    case Some(e) => InvalidConfig(e)
    case None =>
      var whitelist := NormalizeWhitelist(expandedWhitelist, opts.baseDir);
      var allFilesInTree := AllFilesInTree(files, opts.baseDir);
      var orphans := Report(ModuleNames(allFilesInTree), Targets(tree), whitelist);
      if orphans == [] then Clean else OrphansFound(orphans)
  }

  /** `orphansTaskMethod` with globbing and madge replaced by their results. */
  method RunOrphansTask(opts: TaskOptions, files: seq<FileEntry>, expandedWhitelist: seq<string>,
                        tree: seq<TreeEntry>) returns (outcome: TaskOutcome)
    ensures outcome == OrphansTask(opts, files, expandedWhitelist, tree)
  {
    var problem := CheckOptions(opts);
    if problem.Some? {
      return InvalidConfig(problem.value);
    }
    var whitelist := NormalizeWhitelist(expandedWhitelist, opts.baseDir);
    var allFilesInTree := AllFilesInTree(files, opts.baseDir);
    var filesByModuleName := new ModuleFlags();
    filesByModuleName.AddUnusedFiles(allFilesInTree);
    filesByModuleName.MarkDependencies(tree);
    var orphanedFiles := Orphans(filesByModuleName.keys, filesByModuleName.flags, whitelist);
    if |orphanedFiles| > 0 {
      outcome := OrphansFound(orphanedFiles);
    } else {
      outcome := Clean;
    }
  }

  /**
   * With valid options the report is exactly the candidates that are no
   * dependency target and no whitelist entry, in key order, and the grunt task
   * fails exactly when that list is non-empty.
   */
  lemma ReportIsUnreachedCandidates(opts: TaskOptions, files: seq<FileEntry>, expandedWhitelist: seq<string>,
                                    tree: seq<TreeEntry>)
    requires CheckOptions(opts).None?
    ensures var expected := Unreached(Candidates(files, opts.baseDir), Targets(tree),
                                      NormalizeWhitelist(expandedWhitelist, opts.baseDir));
            OrphanList(OrphansTask(opts, files, expandedWhitelist, tree)) == expected &&
            (OrphansTask(opts, files, expandedWhitelist, tree).Fails() <==> expected != [])
  {
    ReportAfterMarking(ModuleNames(AllFilesInTree(files, opts.baseDir)), Targets(tree),
                       NormalizeWhitelist(expandedWhitelist, opts.baseDir));
  }

  /**
   * A name is reported iff the options are valid, it is a candidate, no
   * dependency points at it and it is not whitelisted. In particular a
   * target outside the candidates is never reported, and an entry point or
   * a module whose only edges are its own outbound ones is reported unless
   * whitelisted.
   */
  lemma ReportedIff(opts: TaskOptions, files: seq<FileEntry>, expandedWhitelist: seq<string>,
                    tree: seq<TreeEntry>, name: string)
    ensures name in OrphanList(OrphansTask(opts, files, expandedWhitelist, tree)) <==>
              CheckOptions(opts).None? && name in Candidates(files, opts.baseDir) && name !in Targets(tree) &&
              name !in NormalizeWhitelist(expandedWhitelist, opts.baseDir)
  {
    if CheckOptions(opts).None? {
      ReportIsUnreachedCandidates(opts, files, expandedWhitelist, tree);
      UnreachedMembers(Candidates(files, opts.baseDir), Targets(tree), NormalizeWhitelist(expandedWhitelist, opts.baseDir));
    }
  }

  /**
   * With valid options the run fails with a message exactly when some
   * candidate is unreached, and the message carries how many are.
   */
  lemma FailureMessageCountsReport(opts: TaskOptions, files: seq<FileEntry>, expandedWhitelist: seq<string>,
                                   tree: seq<TreeEntry>)
    requires CheckOptions(opts).None?
    ensures var outcome := OrphansTask(opts, files, expandedWhitelist, tree);
            var expected := Unreached(Candidates(files, opts.baseDir), Targets(tree),
                                      NormalizeWhitelist(expandedWhitelist, opts.baseDir));
            (outcome.Message().Some? <==> expected != []) &&
            (outcome.Message().Some? ==> CountInMessage(outcome.Message().value) == Some(|expected|))
  {
    ReportIsUnreachedCandidates(opts, files, expandedWhitelist, tree);
  }

  /** Without dependencies nothing is reached: the report is the candidates minus the whitelist, in key order. */
  lemma EmptyTreeReportsUnwhitelisted(opts: TaskOptions, files: seq<FileEntry>, expandedWhitelist: seq<string>,
                                      tree: seq<TreeEntry>)
    requires CheckOptions(opts).None?
    requires forall e :: e in tree ==> e.deps == []
    ensures var report := OrphanList(OrphansTask(opts, files, expandedWhitelist, tree));
            var candidates := Candidates(files, opts.baseDir);
            IsSubsequence(report, candidates) &&
            forall x :: x in report <==> x in candidates && x !in NormalizeWhitelist(expandedWhitelist, opts.baseDir)
  {
    TargetsMembers(tree);
    var candidates := Candidates(files, opts.baseDir);
    var whitelist := NormalizeWhitelist(expandedWhitelist, opts.baseDir);
    ReportIsUnreachedCandidates(opts, files, expandedWhitelist, tree);
    UnreachedMembers(candidates, [], whitelist);
    UnreachedSubsequence(candidates, [], whitelist);
  }

  /** If every candidate is whitelisted the grunt task never fails on orphans, whatever the tree. */
  lemma WhitelistCoveringCandidatesPasses(opts: TaskOptions, files: seq<FileEntry>, expandedWhitelist: seq<string>,
                                          tree: seq<TreeEntry>)
    requires CheckOptions(opts).None?
    requires forall c :: c in Candidates(files, opts.baseDir) ==> c in NormalizeWhitelist(expandedWhitelist, opts.baseDir)
    ensures OrphansTask(opts, files, expandedWhitelist, tree) == Clean
  {
    var report := OrphanList(OrphansTask(opts, files, expandedWhitelist, tree));
    ReportIsUnreachedCandidates(opts, files, expandedWhitelist, tree);
    if report != [] {
      ReportedIff(opts, files, expandedWhitelist, tree, report[0]);
      assert false;
    }
  }

  /**
   * The report depends on the tree only through the set of its targets, so
   * the order in which madge lists modules and dependencies does not matter.
   */
  lemma TreeOrderIrrelevant(opts: TaskOptions, files: seq<FileEntry>, expandedWhitelist: seq<string>,
                            tree1: seq<TreeEntry>, tree2: seq<TreeEntry>)
    requires forall d :: d in Targets(tree1) <==> d in Targets(tree2)
    ensures OrphansTask(opts, files, expandedWhitelist, tree1) == OrphansTask(opts, files, expandedWhitelist, tree2)
  {
    if CheckOptions(opts).None? {
      var candidates := Candidates(files, opts.baseDir);
      var whitelist := NormalizeWhitelist(expandedWhitelist, opts.baseDir);
      ReportIsUnreachedCandidates(opts, files, expandedWhitelist, tree1);
      ReportIsUnreachedCandidates(opts, files, expandedWhitelist, tree2);
      UnreachedDependsOnTargetSet(candidates, Targets(tree1), Targets(tree2), whitelist);
    }
  }

  lemma {:induction false} UnreachedDependsOnTargetSet(candidates: seq<string>, targets1: seq<string>,
                                                       targets2: seq<string>, whitelist: seq<string>)
    requires forall d :: d in targets1 <==> d in targets2
    ensures Unreached(candidates, targets1, whitelist) == Unreached(candidates, targets2, whitelist)
    decreases |candidates|
  {
    if candidates != [] {
      UnreachedDependsOnTargetSet(candidates[1..], targets1, targets2, whitelist);
    }
  }

  /**
   * A path that is both a tree file and matched by the whitelist globs
   * normalises to the same name in both lists: it is a candidate and is
   * never reported.
   */
  lemma WhitelistedTreeFileNeverReported(opts: TaskOptions, files: seq<FileEntry>, expandedWhitelist: seq<string>,
                                         tree: seq<TreeEntry>, i: nat, j: nat, k: nat)
    requires i < |files| && j < |files[i].src| && k < |expandedWhitelist|
    requires files[i].src[j] == expandedWhitelist[k]
    ensures ModuleName(files[i].src[j], opts.baseDir) in Candidates(files, opts.baseDir)
    ensures ModuleName(files[i].src[j], opts.baseDir) !in OrphanList(OrphansTask(opts, files, expandedWhitelist, tree))
  {
    var path := files[i].src[j];
    var name := ModuleName(path, opts.baseDir);
    var allFilesInTree := AllFilesInTree(files, opts.baseDir);
    AllFilesInTreeMembers(files, opts.baseDir);
    var n :| 0 <= n < |allFilesInTree| && allFilesInTree[n] == ReplaceFirst(path, SearchString(opts.baseDir));
    assert ModuleNames(allFilesInTree)[n] == name;
    assert NormalizeWhitelist(expandedWhitelist, opts.baseDir)[k] == name;
    ReportedIff(opts, files, expandedWhitelist, tree, name);
  }
}
