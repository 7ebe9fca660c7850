/** `prepareEslint`: rewrites every diagnostic of every file result
    (taxonomy label, instance hash, blame) and replaces each file's source
    text by its parsed syntax tree. */
module Normalizer {
  import opened Js
  import opened Eslint
  import opened Taxonomy
  import opened Identity
  import opened Blame

  /** A diagnostic after preparation: the rule id is classified, the
      instance hash and blame are added, every other field is as received. */
  datatype Message<B> = Message(
    ruleId: Option<string>,
    severity: int,
    message: string,
    line: int,
    column: Option<int>,
    endLine: Option<int>,
    endColumn: Option<int>,
    instanceHash: string,
    blame: Option<seq<B>>)

  /** A file result after preparation: no `source` field, an `ast` that is
      null when parsing failed. */
  datatype PreparedReport<A, B> = PreparedReport(filePath: string, messages: seq<Message<B>>, ast: Option<A>)

  /** The foreign functions the normaliser calls: MD5, the tolerant
      JavaScript parser (None when it throws) and `Vcs.genBlame`. */
  datatype Tools<A, B> = Tools(md5: string -> string, parse: string -> Option<A>, genBlame: string -> B)

  /** The per-file values computed before the diagnostics are visited. */
  datatype FileContext = FileContext(source: string, lines: seq<string>, relative: string, rawBlame: Option<seq<string>>)

  /** Blame lines of a file when the blame map itself may be absent; an
      absent map means no file has blame. */
  function LookupBlame(blameInf: Option<BlameMap>, path: string): (r: Option<seq<string>>)
    ensures blameInf.None? ==> r.None?
    ensures blameInf.Some? ==> r == RawBlame(blameInf.value, path)
  {
    match blameInf
    case None => None
    case Some(m) => RawBlame(m, path)
  }

  /** The values `prepareEslint` computes per file before visiting its
      diagnostics: the source split into its `'\n'`-separated lines, the
      path relative to the root, and the file's blame lines. */
  function Context(report: FileReport, blameInf: Option<BlameMap>, rootPath: string): (c: FileContext)
    ensures |c.lines| >= 1
    ensures forall k :: 0 <= k < |c.lines| ==> '\n' !in c.lines[k]
    ensures Join(c.lines, "\n") == report.source
    ensures c.source == report.source
    ensures c.relative == Relative(report.filePath, rootPath)
    ensures c.rawBlame == LookupBlame(blameInf, report.filePath)
  {
    FileContext(report.source, Split(report.source, '\n'), Relative(report.filePath, rootPath),
                LookupBlame(blameInf, report.filePath))
  }

  /** The lines of the context are the only separator-free lines that
      rejoin to the source. */
  lemma ContextLinesDetermined(report: FileReport, blameInf: Option<BlameMap>, rootPath: string, lines: seq<string>)
    requires |lines| >= 1
    requires forall k :: 0 <= k < |lines| ==> '\n' !in lines[k]
    ensures Join(lines, "\n") == report.source <==> lines == Context(report, blameInf, rootPath).lines
  {
    var c := Context(report, blameInf, rootPath);
    if Join(lines, "\n") == report.source {
      JoinInjective(lines, c.lines, '\n');
    }
  }

  /** The body of the inner loop for one diagnostic. */
  function PrepareMessage<A, B>(m: RawMessage, ctx: FileContext, gitHash: Option<string>, tools: Tools<A, B>): (r: Message<B>)
    ensures m.ruleId.Some? && m.ruleId.value in RuleLabels ==> r.ruleId == Some(LabelName(RuleLabels[m.ruleId.value]))
    ensures m.ruleId.None? || m.ruleId.value !in RuleLabels ==> r.ruleId == m.ruleId
    ensures r.severity == m.severity && r.message == m.message && r.line == m.line
    ensures r.column == m.column && r.endLine == m.endLine && r.endColumn == m.endColumn
    ensures r.instanceHash == tools.md5(HashInput(gitHash, ctx.relative, InstanceData(ctx.source, ctx.lines, m)))
    ensures r.blame == MessageBlame(m, ctx.rawBlame, tools.genBlame)
  {
    var ruleId := Classify(m.ruleId);
    var hash := tools.md5(HashInput(gitHash, ctx.relative, InstanceData(ctx.source, ctx.lines, m)));
    var blame := MessageBlame(m, ctx.rawBlame, tools.genBlame);
    Message(ruleId, m.severity, m.message, m.line, m.column, m.endLine, m.endColumn, hash, blame)
  }

  /** `_assignBlame` over the diagnostic's normalised line range: the
      records of the lines from `line` on, as many as the range covers. */
  function MessageBlame<B>(m: RawMessage, raw: Option<seq<string>>, genBlame: string -> B): (b: Option<seq<B>>)
    ensures b.None? <==> raw.None?
    ensures raw.Some? && 1 <= m.line ==>
              forall k :: 0 <= k < |b.value| ==>
                m.line - 1 + k < |raw.value| && b.value[k] == genBlame(raw.value[m.line - 1 + k])
    ensures raw.Some? && 1 <= m.line && 0 <= Range(m).end ==>
              |b.value| == Max(0, Min(Range(m).end, |raw.value|) - Min(m.line - 1, |raw.value|))
  {
    var range := Range(m);
    AssignBlame(raw, range.start, range.end, genBlame)
  }

  /** `report['messages'].forEach(...)`: every diagnostic, in order. */
  function PrepareMessages<A, B>(ms: seq<RawMessage>, ctx: FileContext, gitHash: Option<string>, tools: Tools<A, B>): (r: seq<Message<B>>)
    ensures |r| == |ms|
    ensures forall k :: 0 <= k < |ms| ==> r[k] == PrepareMessage(ms[k], ctx, gitHash, tools)
    decreases |ms|
  {
    if |ms| == 0 then []
    else [PrepareMessage(ms[0], ctx, gitHash, tools)] + PrepareMessages(ms[1..], ctx, gitHash, tools)
  }

  /** One iteration of the outer loop: messages rewritten, `source`
      deleted, `ast` attached (null when the parser throws). */
  function PrepareReport<A, B>(report: FileReport, blameInf: Option<BlameMap>, rootPath: string,
                               gitHash: Option<string>, tools: Tools<A, B>): (r: PreparedReport<A, B>)
    ensures r.filePath == report.filePath
    ensures r.ast == tools.parse(report.source)
    ensures |r.messages| == |report.messages|
    ensures forall k :: 0 <= k < |r.messages| ==>
              r.messages[k] == PrepareMessage(report.messages[k], Context(report, blameInf, rootPath), gitHash, tools)
  {
    var ctx := Context(report, blameInf, rootPath);
    PreparedReport(report.filePath, PrepareMessages(report.messages, ctx, gitHash, tools), tools.parse(report.source))
  }

  /** `prepareEslint`, with an absent blame map treated as "no file has
      blame": the same files in the same order, each prepared on its own. */
  function PrepareEslint<A, B>(reports: seq<FileReport>, blameInf: Option<BlameMap>, rootPath: string,
                               gitHash: Option<string>, tools: Tools<A, B>): (r: seq<PreparedReport<A, B>>)
    ensures |r| == |reports|
    ensures forall i :: 0 <= i < |reports| ==> r[i] == PrepareReport(reports[i], blameInf, rootPath, gitHash, tools)
    decreases |reports|
  {
    if |reports| == 0 then []
    else [PrepareReport(reports[0], blameInf, rootPath, gitHash, tools)]
         + PrepareEslint(reports[1..], blameInf, rootPath, gitHash, tools)
  }

  /** `prepareEslint` exactly as written: reading `blame_inf[f_path]` when
      `blame_inf` is null throws a TypeError, on the first file. */
  function PrepareEslintAsWritten<A, B>(reports: seq<FileReport>, blameInf: Option<BlameMap>, rootPath: string,
                                        gitHash: Option<string>, tools: Tools<A, B>): (r: Result<seq<PreparedReport<A, B>>>)
    ensures blameInf.None? && |reports| > 0 ==> r.Throws?
    ensures r.Ok? ==> |r.value| == |reports|
    decreases |reports|
  {
    if |reports| == 0 then Ok([])
    else if blameInf.None? then Throws(TypeError("Cannot read properties of null"))
    else
      match PrepareEslintAsWritten(reports[1..], blameInf, rootPath, gitHash, tools)
      case Throws(e) => Throws(e)
      case Ok(rest) => Ok([PrepareReport(reports[0], blameInf, rootPath, gitHash, tools)] + rest)
  }

  /** With a blame map, the code as written and the corrected model agree. */
  lemma {:induction false} AsWrittenAgreesWithBlameMap<A, B>(reports: seq<FileReport>, blameInf: Option<BlameMap>,
                                                           rootPath: string, gitHash: Option<string>, tools: Tools<A, B>)
    requires blameInf.Some? || |reports| == 0
    ensures PrepareEslintAsWritten(reports, blameInf, rootPath, gitHash, tools)
         == Ok(PrepareEslint(reports, blameInf, rootPath, gitHash, tools))
    decreases |reports|
  {
    if |reports| > 0 {
      AsWrittenAgreesWithBlameMap(reports[1..], blameInf, rootPath, gitHash, tools);
    }
  }

  /** Without a blame map (a project outside version control) the code as
      written throws as soon as there is one file result. */
  lemma AsWrittenThrowsWithoutBlameMap<A, B>(report: FileReport, rootPath: string, gitHash: Option<string>, tools: Tools<A, B>)
    ensures PrepareEslintAsWritten([report], None, rootPath, gitHash, tools).Throws?
  {
  }

  /** Files are prepared independently: preparing a concatenation is
      concatenating the preparations. */
  lemma PrepareEslintAppend<A, B>(a: seq<FileReport>, b: seq<FileReport>, blameInf: Option<BlameMap>,
                                  rootPath: string, gitHash: Option<string>, tools: Tools<A, B>)
    ensures PrepareEslint(a + b, blameInf, rootPath, gitHash, tools)
         == PrepareEslint(a, blameInf, rootPath, gitHash, tools) + PrepareEslint(b, blameInf, rootPath, gitHash, tools)
  {
    var l := PrepareEslint(a + b, blameInf, rootPath, gitHash, tools);
    var r := PrepareEslint(a, blameInf, rootPath, gitHash, tools) + PrepareEslint(b, blameInf, rootPath, gitHash, tools);
    forall i | 0 <= i < |l|
      ensures l[i] == r[i]
    {
      if i < |a| {
        assert (a + b)[i] == a[i];
      } else {
        assert (a + b)[i] == b[i - |a|];
      }
    }
  }

  /** Without a blame map every prepared diagnostic has a null blame. */
  lemma NoBlameMapMeansNullBlame<A, B>(reports: seq<FileReport>, rootPath: string, gitHash: Option<string>, tools: Tools<A, B>)
    ensures forall i, k :: 0 <= i < |reports| && 0 <= k < |reports[i].messages| ==>
              PrepareEslint(reports, None, rootPath, gitHash, tools)[i].messages[k].blame.None?
  {
  }

  /** A diagnostic without `endLine` on an existing blame line gets exactly
      that line's blame record. */
  lemma DefaultBlameIsOwnLine<A, B>(m: RawMessage, ctx: FileContext, gitHash: Option<string>, tools: Tools<A, B>)
    requires m.endLine.None?
    requires ctx.rawBlame.Some? && 1 <= m.line <= |ctx.rawBlame.value|
    ensures PrepareMessage(m, ctx, gitHash, tools).blame == Some([tools.genBlame(ctx.rawBlame.value[m.line - 1])])
  {
    var b := MessageBlame(m, ctx.rawBlame, tools.genBlame);
    assert Range(m).end == m.line;
    assert |b.value| == 1;
    assert b.value[0] == tools.genBlame(ctx.rawBlame.value[m.line - 1]);
    assert b.value == [tools.genBlame(ctx.rawBlame.value[m.line - 1])];
  }

  /** A mapped rule on line 3 of a file with four blame lines: the rule id
      becomes its label and the blame holds one record, for line 3. */
  lemma MappedRuleWithBlame<A, B>(gitHash: Option<string>, tools: Tools<A, B>)
    ensures var m := RawMessage(Some("security/detect-eval-with-expression"), 2, "eval", 3, Some(1), Some(3), Some(10));
            var ctx := FileContext("a\nb\neval(x)\nd", ["a", "b", "eval(x)", "d"], "./index.js", Some(["b1", "b2", "b3", "b4"]));
            var r := PrepareMessage(m, ctx, gitHash, tools);
            r.ruleId == Some("CODE_EXECUTION") && r.blame == Some([tools.genBlame("b3")])
  {
    var m := RawMessage(Some("security/detect-eval-with-expression"), 2, "eval", 3, Some(1), Some(3), Some(10));
    EvalRuleIsCodeExecution();
    LineThreeBlame(m, tools.genBlame);
  }

  lemma EvalRuleIsCodeExecution()
    ensures Classify(Some("security/detect-eval-with-expression")) == Some("CODE_EXECUTION")
  {
    assert RuleLabels["security/detect-eval-with-expression"] == CodeExecution;
  }

  lemma LineThreeBlame<B>(m: RawMessage, genBlame: string -> B)
    requires m.line == 3 && m.endLine == Some(3)
    ensures MessageBlame(m, Some(["b1", "b2", "b3", "b4"]), genBlame) == Some([genBlame("b3")])
  {
    var lines := ["b1", "b2", "b3", "b4"];
    var b := MessageBlame(m, Some(lines), genBlame).value;
    assert Range(m).end == 3;
    assert |b| == 1;
    assert b[0] == genBlame(lines[2]);
    assert b == [genBlame("b3")];
  }
}
