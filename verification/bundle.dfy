/** `createReport` and the target list of `runEslint`: how the collaborators'
    results are shaped into the report bundle. */
module Bundle {
  import opened Js
  import opened Eslint
  import opened Blame
  import opened Normalizer

  /** The file listing: directory keys in object-key order, each with the
      file names found under it. */
  type FileListing = seq<(string, seq<string>)>

  /** The paths of one directory's files. */
  function Prefixed(dir: string, files: seq<string>): (r: seq<string>)
    ensures |r| == |files|
    ensures forall k :: 0 <= k < |files| ==> r[k] == dir + files[k]
  {
    seq(|files|, k requires 0 <= k < |files| => dir + files[k])
  }

  /** Reference definition of the flattened target list. */
  function Targets(listing: FileListing): (r: seq<string>)
    ensures |r| == FileCount(listing)
    decreases |listing|
  {
    if |listing| == 0 then []
    else Targets(listing[..|listing| - 1]) + Prefixed(listing[|listing| - 1].0, listing[|listing| - 1].1)
  }

  /** Number of files in a listing. */
  function FileCount(listing: FileListing): nat
    decreases |listing|
  {
    if |listing| == 0 then 0
    else FileCount(listing[..|listing| - 1]) + |listing[|listing| - 1].1|
  }

  /** One target per listed file, and a path is a target exactly when it is
      some directory key followed by one of that directory's files. */
  lemma {:induction false} TargetsExactlyListedFiles(listing: FileListing, t: string)
    ensures |Targets(listing)| == FileCount(listing)
    ensures t in Targets(listing) <==>
              exists i, k :: 0 <= i < |listing| && 0 <= k < |listing[i].1| && t == listing[i].0 + listing[i].1[k]
    decreases |listing|
  {
    if |listing| > 0 {
      var init := listing[..|listing| - 1];
      var last := listing[|listing| - 1];
      TargetsExactlyListedFiles(init, t);
      if t in Targets(listing) {
        if t in Targets(init) {
          var i, k :| 0 <= i < |init| && 0 <= k < |init[i].1| && t == init[i].0 + init[i].1[k];
          assert listing[i] == init[i];
        } else {
          assert t in Prefixed(last.0, last.1);
          var k :| 0 <= k < |last.1| && Prefixed(last.0, last.1)[k] == t;
          assert t == listing[|listing| - 1].0 + listing[|listing| - 1].1[k];
        }
      }
      if exists i, k :: 0 <= i < |listing| && 0 <= k < |listing[i].1| && t == listing[i].0 + listing[i].1[k] {
        var i, k :| 0 <= i < |listing| && 0 <= k < |listing[i].1| && t == listing[i].0 + listing[i].1[k];
        if i < |init| {
          assert listing[i] == init[i];
          assert t in Targets(init);
        } else {
          assert Prefixed(last.0, last.1)[k] == t;
        }
      }
    }
  }

  /** The nested `forEach` of `runEslint` that builds `target`. */
  method FlattenTargets(listing: FileListing) returns (target: seq<string>)
    ensures target == Targets(listing)
    ensures |target| == FileCount(listing)
  {
    target := [];
    var i := 0;
    while i < |listing|
      invariant 0 <= i <= |listing|
      invariant target == Targets(listing[..i])
      invariant |target| == FileCount(listing[..i])
    {
      var dir := listing[i].0;
      var files := listing[i].1;
      var j := 0;
      while j < |files|
        invariant 0 <= j <= |files|
        invariant target == Targets(listing[..i]) + Prefixed(dir, files[..j])
      {
        target := target + [dir + files[j]];
        j := j + 1;
      }
      assert files[..j] == files;
      assert listing[..i + 1][..i] == listing[..i];
      i := i + 1;
    }
    assert listing[..i] == listing;
  }

  /** `runEslint`: null for an absent listing; otherwise the lint run over
      the flattened targets. The run itself is the `lint` collaborator. */
  function RunEslint(listing: Option<FileListing>, lint: seq<string> -> seq<FileReport>): (r: Option<seq<FileReport>>)
    ensures r.None? <==> listing.None?
    ensures listing.Some? ==> r.value == lint(Targets(listing.value))
  {
    match listing
    case None => None
    case Some(l) => Some(lint(Targets(l)))
  }

  /** One declared dependency: name and version constraint. */
  datatype DependencyRef = DependencyRef(name: string, version: string)

  /** What the VCS client reports for the project root. */
  datatype VcsValues = VcsValues(hash: Option<string>, projectName: Option<string>, blame: Option<BlameMap>, url: Option<string>)

  /** Every collaborator of `createReport`: the host name, the VCS values,
      the dependency list of the manifest, `Vcs.parseBlm`, the lint run and
      the normaliser's foreign functions. */
  datatype Environment<A, B, L> = Environment(
    hostName: string,
    vcs: VcsValues,
    dependencies: seq<DependencyRef>,
    parseBlm: (Option<BlameMap>, seq<DependencyRef>) -> L,
    lint: seq<string> -> seq<FileReport>,
    tools: Tools<A, B>)

  datatype DateInfo = DateInfo(start: string)

  datatype VcsInfo<L> = VcsInfo(gitUrl: Option<string>, gitHash: Option<string>, blmLists: L)

  datatype ProjectMeta<L> = ProjectMeta(
    projectName: Option<string>,
    dependencies: seq<DependencyRef>,
    absolutePath: string,
    exitCode: int,
    vcsInfo: VcsInfo<L>,
    fileInfo: FileListing,
    root: string)

  datatype Project<J, A, B, L> = Project(dependencyReport: J, eslintReport: seq<PreparedReport<A, B>>, meta: ProjectMeta<L>)

  /** The bundle; every field is always present, absent values are null. */
  datatype ReportBundle<J, A, B, L> = ReportBundle(date: DateInfo, machineName: string, project: Project<J, A, B, L>)

  /** The VCS values as `createReport` uses them: all null unless the
      project is under version control. */
  function GatedVcs(isGit: bool, vcs: VcsValues): (v: VcsValues)
    ensures !isGit ==> v == VcsValues(None, None, None, None)
    ensures isGit ==> v == vcs
  {
    if isGit then vcs else VcsValues(None, None, None, None)
  }

  /** `createReport`, with the parsed audit JSON as `data`. */
  function CreateReport<J, A, B, L>(data: J, start: string, rootPath: string, listing: FileListing,
                                    isGit: bool, env: Environment<A, B, L>): (r: ReportBundle<J, A, B, L>)
    ensures r.date.start == start && r.machineName == env.hostName
    ensures r.project.dependencyReport == data
    ensures r.project.meta.exitCode == 0
    ensures r.project.meta.root == "."
    ensures r.project.meta.absolutePath == rootPath
    ensures r.project.meta.fileInfo == listing
    ensures r.project.meta.dependencies == env.dependencies
    ensures !isGit ==> r.project.meta.projectName.None? && r.project.meta.vcsInfo.gitHash.None?
                       && r.project.meta.vcsInfo.gitUrl.None?
                       && r.project.meta.vcsInfo.blmLists == env.parseBlm(None, env.dependencies)
    ensures isGit ==> r.project.meta.projectName == env.vcs.projectName && r.project.meta.vcsInfo.gitHash == env.vcs.hash
                      && r.project.meta.vcsInfo.gitUrl == env.vcs.url
                      && r.project.meta.vcsInfo.blmLists == env.parseBlm(env.vcs.blame, env.dependencies)
    ensures r.project.eslintReport == PrepareEslint(env.lint(Targets(listing)), GatedVcs(isGit, env.vcs).blame,
                                                    rootPath, GatedVcs(isGit, env.vcs).hash, env.tools)
    ensures |r.project.eslintReport| == |env.lint(Targets(listing))|
    ensures forall i :: 0 <= i < |r.project.eslintReport| ==>
              r.project.eslintReport[i].filePath == env.lint(Targets(listing))[i].filePath
  {
    var vcs := GatedVcs(isGit, env.vcs);
    var esData := PrepareEslint(RunEslint(Some(listing), env.lint).value, vcs.blame, rootPath, vcs.hash, env.tools);
    Assemble(data, start, rootPath, listing, vcs, env, esData)
  }

  /** The nested bundle `createReport` builds, from the already gated VCS values
      and the prepared lint results. */
  function Assemble<J, A, B, L>(data: J, start: string, rootPath: string, listing: FileListing,
                                vcs: VcsValues, env: Environment<A, B, L>, esData: seq<PreparedReport<A, B>>): (r: ReportBundle<J, A, B, L>)
    ensures r.date.start == start && r.machineName == env.hostName
    ensures r.project.dependencyReport == data && r.project.eslintReport == esData
    ensures r.project.meta.exitCode == 0 && r.project.meta.root == "."
    ensures r.project.meta.projectName == vcs.projectName && r.project.meta.dependencies == env.dependencies
    ensures r.project.meta.absolutePath == rootPath && r.project.meta.fileInfo == listing
    ensures r.project.meta.vcsInfo == VcsInfo(vcs.url, vcs.hash, env.parseBlm(vcs.blame, env.dependencies))
  {
    var blmLists := env.parseBlm(vcs.blame, env.dependencies);
    var status := 0;
    var vcsInfo := VcsInfo(vcs.url, vcs.hash, blmLists);
    var meta := ProjectMeta(vcs.projectName, env.dependencies, rootPath, status, vcsInfo, listing, ".");
    ReportBundle(DateInfo(start), env.hostName, Project(data, esData, meta))
  }

  /** Outside version control the corrected bundle is produced, every
      diagnostic has a null blame, and every instance hash is MD5 of the
      literal revision "null", the relative path and the span. */
  lemma NonGitReportHasNullVcsData<J, A, B, L>(data: J, start: string, rootPath: string, listing: FileListing,
                                               env: Environment<A, B, L>)
    ensures var r := CreateReport(data, start, rootPath, listing, false, env);
            var reports := env.lint(Targets(listing));
            |r.project.eslintReport| == |reports| &&
            forall i, k :: 0 <= i < |reports| && 0 <= k < |r.project.eslintReport[i].messages| ==>
              && k < |reports[i].messages|
              && r.project.eslintReport[i].messages[k].blame.None?
              && r.project.eslintReport[i].messages[k].instanceHash
                 == env.tools.md5("null" + Identity.Relative(reports[i].filePath, rootPath)
                                  + Identity.InstanceData(reports[i].source, Split(reports[i].source, '\n'), reports[i].messages[k]))
  {
    var r := CreateReport(data, start, rootPath, listing, false, env);
    var reports := env.lint(Targets(listing));
    var es := PrepareEslint(reports, None, rootPath, None, env.tools);
    assert r.project.eslintReport == es;
    forall i, k | 0 <= i < |reports| && 0 <= k < |es[i].messages|
      ensures k < |reports[i].messages|
      ensures es[i].messages[k].blame.None?
      ensures es[i].messages[k].instanceHash
              == env.tools.md5("null" + Identity.Relative(reports[i].filePath, rootPath)
                               + Identity.InstanceData(reports[i].source, Split(reports[i].source, '\n'), reports[i].messages[k]))
    {
      var ctx := Context(reports[i], None, rootPath);
      assert es[i] == PrepareReport(reports[i], None, rootPath, None, env.tools);
      assert es[i].messages[k] == PrepareMessage(reports[i].messages[k], ctx, None, env.tools);
    }
  }

  /** `createReport` exactly as written: the lint results go to
      `prepareEslint` as written, which throws when the blame map is null
      (always so outside version control) and there is a file result. */
  function CreateReportAsWritten<J, A, B, L>(data: J, start: string, rootPath: string, listing: FileListing,
                                             isGit: bool, env: Environment<A, B, L>): (r: Result<ReportBundle<J, A, B, L>>)
    ensures !isGit && |env.lint(Targets(listing))| > 0 ==> r.Throws?
    ensures r.Ok? ==> r.value.project.meta.exitCode == 0 && r.value.project.meta.root == "."
  {
    var vcs := GatedVcs(isGit, env.vcs);
    match PrepareEslintAsWritten(RunEslint(Some(listing), env.lint).value, vcs.blame, rootPath, vcs.hash, env.tools)
    case Throws(e) => Throws(e)
    case Ok(esData) => Ok(Assemble(data, start, rootPath, listing, vcs, env, esData))
  }

  /** Whenever the VCS client supplied a blame map (or the lint run found
      nothing), the code as written produces the corrected bundle. */
  lemma CreateReportAsWrittenAgrees<J, A, B, L>(data: J, start: string, rootPath: string, listing: FileListing,
                                                isGit: bool, env: Environment<A, B, L>)
    requires (isGit && env.vcs.blame.Some?) || |env.lint(Targets(listing))| == 0
    ensures CreateReportAsWritten(data, start, rootPath, listing, isGit, env)
         == Ok(CreateReport(data, start, rootPath, listing, isGit, env))
  {
    var vcs := GatedVcs(isGit, env.vcs);
    AsWrittenAgreesWithBlameMap(env.lint(Targets(listing)), vcs.blame, rootPath, vcs.hash, env.tools);
  }

  /** A lint run with no diagnostics gives an empty findings list for every
      file, and the bundle is still produced. */
  lemma NoDiagnosticsNoFindings<J, A, B, L>(data: J, start: string, rootPath: string, listing: FileListing,
                                            isGit: bool, env: Environment<A, B, L>)
    requires forall i :: 0 <= i < |env.lint(Targets(listing))| ==> env.lint(Targets(listing))[i].messages == []
    ensures var r := CreateReport(data, start, rootPath, listing, isGit, env);
            forall i :: 0 <= i < |r.project.eslintReport| ==> r.project.eslintReport[i].messages == []
  {
  }
}
