/** The rule-id to vulnerability-class table (`EslintMap`) and its lookup. */
module Taxonomy {
  import opened Js

  /** The closed set of vulnerability classes the table maps onto. */
  datatype Label =
    | Ddos
    | BufferOverflows
    | Xss
    | CodeExecution
    | Csrf
    | UnauthorizedAccessFileSystem
    | InsecureRequire
    | InsecureObject
    | TimeAttack
    | InsecureCrypto

  /** The label text written into the report. */
  function LabelName(l: Label): string {
    match l
    case Ddos => "DDOS"
    case BufferOverflows => "BUFFER_OVERFLOWS"
    case Xss => "XSS"
    case CodeExecution => "CODE_EXECUTION"
    case Csrf => "CSRF"
    case UnauthorizedAccessFileSystem => "UNAUTHORIZED_ACCESS_FILE_SYSTEM"
    case InsecureRequire => "INSECURE_REQUIRE"
    case InsecureObject => "INSECURE_OBJECT"
    case TimeAttack => "TIME_ATTACK"
    case InsecureCrypto => "INSECURE_CRYPTO"
  }

  /** The own keys of `EslintMap` and their labels. */
  const RuleLabels: map<string, Label> := map[
    "security/detect-unsafe-regex" := Ddos,
    "security/detect-buffer-noassert" := BufferOverflows,
    "security/detect-disable-mustache-escape" := Xss,
    "security/detect-eval-with-expression" := CodeExecution,
    "security/detect-no-csrf-before-method-override" := Csrf,
    "security/detect-non-literal-fs-filename" := UnauthorizedAccessFileSystem,
    "security/detect-non-literal-regexp" := Ddos,
    "security/detect-non-literal-require" := InsecureRequire,
    "security/detect-object-injection" := InsecureObject,
    "security/detect-possible-timing-attacks" := TimeAttack,
    "security/detect-pseudoRandomBytes" := InsecureCrypto
  ]

  /** Every text a rule id can be rewritten to. */
  predicate IsLabelName(s: string) {
    exists l: Label :: LabelName(l) == s
  }

  /** The `hasOwnProperty` test and rewrite: a mapped rule id becomes its
      label, anything else (including a null rule id) passes through. */
  function Classify(ruleId: Option<string>): (r: Option<string>)
    ensures ruleId.Some? && ruleId.value in RuleLabels ==>
              r == Some(LabelName(RuleLabels[ruleId.value]))
    ensures ruleId.None? || ruleId.value !in RuleLabels ==> r == ruleId
  {
    if ruleId.Some? && ruleId.value in RuleLabels then Some(LabelName(RuleLabels[ruleId.value]))
    else ruleId
  }

  /** No label text is itself a rule id of the table. */
  lemma LabelsAreNotRuleIds(l: Label)
    ensures LabelName(l) !in RuleLabels
  {
  }

  /** Every class is the target of at least one rule. */
  lemma EveryLabelReachable(l: Label)
    ensures exists id :: id in RuleLabels && RuleLabels[id] == l
  {
    match l
    case Ddos => assert RuleLabels["security/detect-unsafe-regex"] == l;
    case BufferOverflows => assert RuleLabels["security/detect-buffer-noassert"] == l;
    case Xss => assert RuleLabels["security/detect-disable-mustache-escape"] == l;
    case CodeExecution => assert RuleLabels["security/detect-eval-with-expression"] == l;
    case Csrf => assert RuleLabels["security/detect-no-csrf-before-method-override"] == l;
    case UnauthorizedAccessFileSystem => assert RuleLabels["security/detect-non-literal-fs-filename"] == l;
    case InsecureRequire => assert RuleLabels["security/detect-non-literal-require"] == l;
    case InsecureObject => assert RuleLabels["security/detect-object-injection"] == l;
    case TimeAttack => assert RuleLabels["security/detect-possible-timing-attacks"] == l;
    case InsecureCrypto => assert RuleLabels["security/detect-pseudoRandomBytes"] == l;
  }

  /** The rule id is rewritten exactly when it is a key of the table, and a
      rewritten id is always a label. */
  lemma ClassifyChangesExactlyMappedIds(ruleId: Option<string>)
    ensures Classify(ruleId) != ruleId <==> ruleId.Some? && ruleId.value in RuleLabels
    ensures Classify(ruleId) != ruleId ==> IsLabelName(Classify(ruleId).value)
  {
    if ruleId.Some? && ruleId.value in RuleLabels {
      LabelsAreNotRuleIds(RuleLabels[ruleId.value]);
    }
  }

  /** Classifying twice is classifying once. */
  lemma ClassifyIdempotent(ruleId: Option<string>)
    ensures Classify(Classify(ruleId)) == Classify(ruleId)
  {
    if ruleId.Some? && ruleId.value in RuleLabels {
      LabelsAreNotRuleIds(RuleLabels[ruleId.value]);
    }
  }
}
