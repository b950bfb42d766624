/** batch_create_issues.py: load issues from a parsed JSON or CSV file, check that each has
    a title and a body, and, only when all of them do, create them one by one with
    `gh issue create`, counting successes and failures. The gh CLI is an input: `gh(k, cmd)`
    says how the k-th call (from 0) with argument vector cmd ends. */
module BatchCreate {
  import opened Wrappers
  import opened Text
  import opened PyJson
  import opened GhCli
  import ValidateInput
  import Seqs

  // ---------------------------------------------------------------------------------------
  // Issues and how they are loaded
  // ---------------------------------------------------------------------------------------

  /** An issue as create_issue reads it. A text field is "" where the file has no value, a
      None or an empty or otherwise falsy value: the script tests these fields only for
      truthiness. The labels and assignees are [] where the file has no value or a falsy
      one, since `if labels:` skips them all; joinable is false when one of the two is None,
      False or 0, which the dry run's ', '.join refuses with a TypeError. */
  datatype Issue = Issue(
    title: string,
    body: string,
    labels: seq<string>,
    assignees: seq<string>,
    milestone: string,
    joinable: bool)

  /** load_json: the issue list named by the document, or None for the ValueError raised on
      any other document. It takes the same value validate_input checks. */
  function LoadJson(data: JValue): (r: Option<JValue>)
    ensures r.Some? <==> ValidateInput.IsContainer(data)
    ensures r.Some? ==> r.value == ValidateInput.IssuesValue(data)
  {
    if data.JObject? && HasKey(data.fields, "issues") then Get(data.fields, "issues")
    else if data.JArray? then Some(data)
    else None
  }

  /** load_json succeeds with a list exactly when validate_input finds the shape valid. */
  lemma LoadJsonAgreesWithValidator(data: JValue)
    ensures (LoadJson(data).Some? && LoadJson(data).value.JArray?) <==> ValidateInput.ValidateJsonStructure(data).0
  {
  }

  /** A text field of a JSON issue: absent or falsy gives "", a string gives itself. None
      for a truthy value of another type, which the model does not follow. */
  function TextField(issue: Dict<JValue>, field: string): (r: Option<string>)
    ensures !HasKey(issue, field) ==> r == Some("")
    ensures HasKey(issue, field) && Get(issue, field).value.JString? ==> r == Some(Get(issue, field).value.s)
  {
    match Get(issue, field)
    case None => Some("")
    case Some(v) => if v.JString? then Some(v.s) else if !Truthy(v) then Some("") else None
  }

  /** A list field of a JSON issue: absent or falsy gives [], a list of strings gives its
      strings in order. None for a truthy value of another type, which the model does not
      follow. */
  function ListField(issue: Dict<JValue>, field: string): (r: Option<seq<string>>)
    ensures !HasKey(issue, field) ==> r == Some([])
    ensures HasKey(issue, field) && !Truthy(Get(issue, field).value) ==> r == Some([])
    ensures HasKey(issue, field) && Truthy(Get(issue, field).value) ==>
              (r.Some? <==> ValidateInput.IsStringArray(Get(issue, field).value))
    ensures HasKey(issue, field) && ValidateInput.IsStringArray(Get(issue, field).value) ==>
              r.Some? && |r.value| == |Get(issue, field).value.items|
              && forall i :: 0 <= i < |r.value| ==> Get(issue, field).value.items[i] == JString(r.value[i])
  {
    match Get(issue, field)
    case None => Some([])
    case Some(v) =>
      if !Truthy(v) then Some([])
      else if ValidateInput.IsStringArray(v) then Some(seq(|v.items|, i requires 0 <= i < |v.items| => v.items[i].s))
      else None
  }

  /** Whether ', '.join can take the value of a list field: not when it is None, a bool or
      a number. An absent field reads as []. */
  predicate Joinable(issue: Dict<JValue>, field: string) {
    match Get(issue, field)
    case None => true
    case Some(v) => !(v.JNull? || v.JBool? || v.JNumber?)
  }

  /** A JSON issue as a typed issue; None when it is not a dict or a field has a type the
      model does not follow. */
  function ToIssue(v: JValue): Option<Issue> {
    if !v.JObject? then None
    else
      var f := v.fields;
      match (TextField(f, "title"), TextField(f, "body"), ListField(f, "labels"),
             ListField(f, "assignees"), TextField(f, "milestone"))
      case (Some(t), Some(b), Some(l), Some(a), Some(m)) =>
        Some(Issue(t, b, l, a, m, Joinable(f, "labels") && Joinable(f, "assignees")))
      case _ => None
  }

  /** A falsy labels or assignees value converts to no names, so the command gets no flag
      for it; None, False and 0 make the issue one the dry run cannot print, while "", {}
      and [] do not. */
  lemma FalsyListField(v: JValue, field: string)
    requires v.JObject? && (field == "labels" || field == "assignees")
    requires HasKey(v.fields, field) && !Truthy(Get(v.fields, field).value)
    requires ToIssue(v).Some?
    ensures field == "labels" ==> ToIssue(v).value.labels == []
    ensures field == "assignees" ==> ToIssue(v).value.assignees == []
    ensures var x := Get(v.fields, field).value;
            x.JNull? || x.JBool? || x.JNumber? ==> !ToIssue(v).value.joinable
  {
  }

  /** An issue validate_input accepts is converted, keeps its own title and body, and
      passes validate_issue. */
  lemma AcceptedIssueConverts(v: JValue)
    requires ValidateInput.IssueValid(v)
    ensures ToIssue(v).Some?
    ensures ToIssue(v).value.title == Get(v.fields, "title").value.s
    ensures ToIssue(v).value.body == Get(v.fields, "body").value.s
    ensures ToIssue(v).value.joinable
    ensures ValidateIssue(ToIssue(v).value) == []
  {
    var f := v.fields;
    assert !IsBlank(Get(f, "title").value.s) && !IsBlank(Get(f, "body").value.s);
  }

  /** The issues of a JSON document, when load_json accepts it and every issue converts. */
  function JsonIssues(data: JValue): (r: Option<seq<Issue>>)
    ensures r.None? <==>
              || LoadJson(data).None?
              || !LoadJson(data).value.JArray?
              || exists i :: 0 <= i < |LoadJson(data).value.items| && ToIssue(LoadJson(data).value.items[i]).None?
    ensures r.Some? ==> LoadJson(data).Some? && LoadJson(data).value.JArray?
                        && |r.value| == |LoadJson(data).value.items|
    ensures r.Some? ==> forall i :: 0 <= i < |r.value| ==> ToIssue(LoadJson(data).value.items[i]) == Some(r.value[i])
  {
    match LoadJson(data)
    case None => None
    case Some(list) =>
      if !list.JArray? || exists i :: 0 <= i < |list.items| && ToIssue(list.items[i]).None? then None
      else Some(seq(|list.items|, i requires 0 <= i < |list.items| => ToIssue(list.items[i]).value))
  }

  /** A file validate_input accepts loads completely and passes the batch script's own
      validation, so the batch goes on to create its issues. */
  lemma AcceptedFileLoads(data: JValue)
    requires ValidateInput.JsonReport(data).Returns? && ValidateInput.JsonReport(data).value.valid
    ensures JsonIssues(data).Some? && |JsonIssues(data).value| > 0
    ensures ValidationMessages(JsonIssues(data).value) == []
  {
    ValidateInput.JsonValidOnlyIf(data);
    AcceptedListConverts(data);
    ValidationMessagesEmpty(JsonIssues(data).value);
  }

  /** A list of issues of the accepted shape converts, issue by issue, to issues that all
      pass validate_issue. */
  lemma AcceptedListConverts(data: JValue)
    requires LoadJson(data).Some? && LoadJson(data).value.JArray?
    requires ValidateInput.AllIssuesValid(LoadJson(data).value.items)
    ensures JsonIssues(data).Some?
    ensures forall i :: 0 <= i < |JsonIssues(data).value| ==> HasTitleAndBody(JsonIssues(data).value[i])
  {
    var items := LoadJson(data).value.items;
    AcceptedIssuesConvert(items);
    var issues := JsonIssues(data).value;
    forall i | 0 <= i < |issues| ensures HasTitleAndBody(issues[i]) {
      assert issues[i] == ToIssue(items[i]).value;
    }
  }

  /** Every issue of an accepted list converts to one that passes validate_issue. */
  lemma AcceptedIssuesConvert(items: seq<JValue>)
    requires ValidateInput.AllIssuesValid(items)
    ensures forall i :: 0 <= i < |items| ==> ToIssue(items[i]).Some? && ValidateIssue(ToIssue(items[i]).value) == []
  {
    forall i | 0 <= i < |items| ensures ToIssue(items[i]).Some? && ValidateIssue(ToIssue(items[i]).value) == [] {
      AcceptedIssueConverts(items[i]);
    }
  }

  /** The cells of a CSV row that the script reads; None where the header has no such
      column or the line is too short to have the cell. */
  datatype CsvRecord = CsvRecord(
    title: Option<string>,
    body: Option<string>,
    labels: Option<string>,
    assignees: Option<string>,
    milestone: Option<string>)

  /** The pieces of a labels or assignees cell: [l.strip() for l in cell.split(',')] for a
      non-empty cell, [] otherwise. Item i is piece i of the split, stripped; there is one
      piece per comma plus one, none contains a comma, and each is already stripped. Empty
      pieces are kept. */
  function SplitCell(cell: Option<string>): (items: seq<string>)
    ensures cell.None? || cell.value == [] ==> items == []
    ensures cell.Some? && cell.value != [] ==> |items| == multiset(cell.value)[','] + 1
    ensures cell.Some? && cell.value != [] ==>
              && |items| == |Split(cell.value, ",")|
              && forall i :: 0 <= i < |items| ==> items[i] == Strip(Split(cell.value, ",")[i])
    ensures forall i :: 0 <= i < |items| ==> ',' !in items[i] && Strip(items[i]) == items[i]
  {
    if cell.None? || cell.value == [] then []
    else
      var parts := Split(cell.value, ",");
      OccurrencesOfChar(cell.value, ',');
      SplitPiecesWithout(cell.value, ',');
      StrippedPieces(parts);
      StripEach(parts)
  }

  lemma StrippedPieces(parts: seq<string>)
    requires forall i :: 0 <= i < |parts| ==> ',' !in parts[i]
    ensures forall i :: 0 <= i < |parts| ==> ',' !in Strip(parts[i]) && Strip(Strip(parts[i])) == Strip(parts[i])
  {
    forall i | 0 <= i < |parts| ensures ',' !in Strip(parts[i]) && Strip(Strip(parts[i])) == Strip(parts[i]) {
      StripIdempotent(parts[i]);
    }
  }

  /** The pieces of a non-empty cell join back to the cell with commas, none of them holds
      a comma, and the items are those pieces stripped. */
  lemma SplitCellPieces(cell: string)
    requires cell != []
    ensures var pieces := Split(cell, ",");
            && Join(pieces, ",") == cell
            && |SplitCell(Some(cell))| == |pieces|
            && forall i :: 0 <= i < |pieces| ==> ',' !in pieces[i] && SplitCell(Some(cell))[i] == Strip(pieces[i])
  {
    JoinSplit(cell, ",");
    SplitPiecesWithout(cell, ',');
  }

  /** Writing stripped, comma-free names joined by commas into a cell and splitting the cell
      gives the names back. */
  lemma SplitCellJoin(names: seq<string>)
    requires names != [] && Join(names, ",") != []
    requires forall i :: 0 <= i < |names| ==> ',' !in names[i] && Strip(names[i]) == names[i]
    ensures SplitCell(Some(Join(names, ","))) == names
  {
    SplitJoin(names, ',');
    SplitCellOf(Join(names, ","), names);
  }

  lemma SplitCellOf(cell: string, names: seq<string>)
    requires cell != [] && Split(cell, ",") == names
    requires forall i :: 0 <= i < |names| ==> Strip(names[i]) == names[i]
    ensures SplitCell(Some(cell)) == names
  {
    StripEachStripped(names);
  }

  /** The pieces, each stripped. */
  function StripEach(parts: seq<string>): seq<string> {
    seq(|parts|, i requires 0 <= i < |parts| => Strip(parts[i]))
  }

  lemma StripEachStripped(parts: seq<string>)
    requires forall i :: 0 <= i < |parts| ==> Strip(parts[i]) == parts[i]
    ensures StripEach(parts) == parts
  {
  }

  /** The issue load_csv makes of a row: the labels and assignees cells split, the other
      cells as they are, with a missing cell read as "". */
  function RowToIssue(row: CsvRecord): (issue: Issue)
    ensures issue.labels == SplitCell(row.labels) && issue.assignees == SplitCell(row.assignees)
    ensures issue.title == row.title.GetOr("") && issue.body == row.body.GetOr("")
    ensures issue.milestone == row.milestone.GetOr("") && issue.joinable
  {
    Issue(row.title.GetOr(""), row.body.GetOr(""), SplitCell(row.labels), SplitCell(row.assignees),
          row.milestone.GetOr(""), true)
  }

  /** The names a labels or assignees cell can hold so that they come back unchanged:
      non-empty, stripped, without a comma. */
  predicate CellNames(names: seq<string>) {
    forall i :: 0 <= i < |names| ==> names[i] != [] && ',' !in names[i] && Strip(names[i]) == names[i]
  }

  /** The CSV row of an issue: every cell given, the names joined by commas. */
  function IssueRow(issue: Issue): CsvRecord {
    CsvRecord(Some(issue.title), Some(issue.body), Some(Join(issue.labels, ",")),
              Some(Join(issue.assignees, ",")), Some(issue.milestone))
  }

  /** Names joined by commas split back into the same names; no names make an empty cell. */
  lemma NamesCellSplit(names: seq<string>)
    requires CellNames(names)
    ensures SplitCell(Some(Join(names, ","))) == names
  {
    if names != [] {
      assert |Join(names, ",")| >= |names[0]|;
      SplitCellJoin(names);
    }
  }

  /** Reading back the row of an issue whose labels and assignees are cell names gives the
      issue itself. */
  lemma RowToIssueRoundTrip(issue: Issue)
    requires CellNames(issue.labels) && CellNames(issue.assignees) && issue.joinable
    ensures RowToIssue(IssueRow(issue)) == issue
  {
    NamesCellSplit(issue.labels);
    NamesCellSplit(issue.assignees);
  }

  /** load_csv after csv.DictReader: one issue per row, in order. */
  method LoadCsv(rows: seq<CsvRecord>) returns (issues: seq<Issue>)
    ensures |issues| == |rows|
    ensures forall i :: 0 <= i < |rows| ==> issues[i] == RowToIssue(rows[i])
  {
    issues := [];
    for i := 0 to |rows|
      invariant |issues| == i
      invariant forall j :: 0 <= j < i ==> issues[j] == RowToIssue(rows[j])
    {
      var row := rows[i];
      var labels := SplitCell(row.labels);
      var assignees := SplitCell(row.assignees);
      issues := issues + [Issue(row.title.GetOr(""), row.body.GetOr(""), labels, assignees, row.milestone.GetOr(""), true)];
    }
  }

  // ---------------------------------------------------------------------------------------
  // validate_issue and the validation pass of main
  // ---------------------------------------------------------------------------------------

  const TitleMissing: string := "Missing required field: title"
  const BodyMissing: string := "Missing required field: body"

  predicate HasTitleAndBody(issue: Issue) {
    issue.title != [] && issue.body != []
  }

  /** validate_issue: the title error when the title is missing or falsy, then the body
      error when the body is; nothing when both are present. */
  function ValidateIssue(issue: Issue): (errors: seq<string>)
    ensures errors == [] <==> HasTitleAndBody(issue)
    ensures |errors| == (if issue.title == [] then 1 else 0) + (if issue.body == [] then 1 else 0)
    ensures issue.title == [] ==> errors[0] == TitleMissing
    ensures issue.body == [] ==> errors[|errors| - 1] == BodyMissing
  {
    (if issue.title == [] then [TitleMissing] else [])
    + (if issue.body == [] then [BodyMissing] else [])
  }

  /** f"Issue {i}: {', '.join(errors)}". */
  function IssueMessage(n: int, errors: seq<string>): string {
    "Issue " + IntToString(n) + ": " + Join(errors, ", ")
  }

  /** The validation errors main collects: one message per invalid issue, numbered from 1,
      in order. */
  function ValidationMessages(issues: seq<Issue>): (messages: seq<string>)
    ensures |messages| <= |issues|
  {
    if issues == [] then []
    else
      var n := |issues| - 1;
      var errors := ValidateIssue(issues[n]);
      ValidationMessages(issues[..n]) + (if errors == [] then [] else [IssueMessage(n + 1, errors)])
  }

  predicate AllValid(issues: seq<Issue>) {
    forall i :: 0 <= i < |issues| ==> HasTitleAndBody(issues[i])
  }

  lemma AllValidSnoc(front: seq<Issue>, last: Issue)
    ensures AllValid(front + [last]) <==> AllValid(front) && HasTitleAndBody(last)
  {
    assert forall i :: 0 <= i < |front| ==> (front + [last])[i] == front[i];
    assert (front + [last])[|front|] == last;
  }

  /** There are no validation messages exactly when every issue has a title and a body. */
  lemma {:induction false} ValidationMessagesEmpty(issues: seq<Issue>)
    ensures ValidationMessages(issues) == [] <==> AllValid(issues)
  {
    if issues != [] {
      var n := |issues| - 1;
      var front := issues[..n];
      assert issues == front + [issues[n]];
      ValidationMessagesEmpty(front);
      AllValidSnoc(front, issues[n]);
    }
  }

  /** The number of invalid issues is the number of messages. */
  function InvalidCount(issues: seq<Issue>): nat {
    if issues == [] then 0
    else InvalidCount(issues[..|issues| - 1]) + (if HasTitleAndBody(issues[|issues| - 1]) then 0 else 1)
  }

  lemma {:induction false} ValidationMessagesCount(issues: seq<Issue>)
    ensures |ValidationMessages(issues)| == InvalidCount(issues)
  {
    if issues != [] {
      ValidationMessagesCount(issues[..|issues| - 1]);
    }
  }
  /** The message of an invalid issue i is "Issue {i + 1}: " followed by its errors joined
      with ", ", and it comes right after the messages of the invalid issues before it. */
  lemma {:induction false} ValidationMessageAt(issues: seq<Issue>, i: nat)
    requires i < |issues| && !HasTitleAndBody(issues[i])
    ensures InvalidCount(issues[..i]) < |ValidationMessages(issues)|
    ensures ValidationMessages(issues)[InvalidCount(issues[..i])] == IssueMessage(i + 1, ValidateIssue(issues[i]))
  {
    var n := |issues| - 1;
    var front := issues[..n];
    ValidationMessagesCount(front);
    if i < n {
      ValidationMessageAt(front, i);
      assert front[..i] == issues[..i] && front[i] == issues[i];
    } else {
      assert front == issues[..i];
    }
  }


  // ---------------------------------------------------------------------------------------
  // create_issue
  // ---------------------------------------------------------------------------------------

  /** One flag before each value: [flag, v0, flag, v1, ...]. */
  function FlagPairs(flag: string, values: seq<string>): (args: seq<string>)
    ensures |args| == 2 * |values|
    ensures forall i :: 0 <= i < |values| ==> args[2 * i] == flag && args[2 * i + 1] == values[i]
  {
    if values == [] then []
    else
      var n := |values| - 1;
      var front := FlagPairs(flag, values[..n]);
      assert forall i :: 0 <= i < n ==> values[..n][i] == values[i];
      front + [flag, values[n]]
  }

  /** The seven words every gh issue create command starts with. */
  function IssueBase(issue: Issue): (words: seq<string>)
    ensures |words| == 7
  {
    ["gh", "issue", "create", "--title", issue.title, "--body", issue.body]
  }

  /** [flag, value] when value is given (not ""), nothing otherwise. */
  function OptionPair(flag: string, value: string): (args: seq<string>)
    ensures value == [] ==> args == []
    ensures value != [] ==> args == [flag, value]
  {
    if value != [] then [flag, value] else []
  }

  /** The gh issue create argument vector; repo is "" when none is given. */
  function IssueCommand(issue: Issue, repo: string): seq<string> {
    IssueBase(issue)
    + OptionPair("--repo", repo)
    + FlagPairs("--label", issue.labels)
    + FlagPairs("--assignee", issue.assignees)
    + OptionPair("--milestone", issue.milestone)
  }

  /** The vector starts with the fixed seven words, then "--repo repo" when a repo is given,
      and its length is 7 plus two for every optional pair. */
  lemma IssueCommandShape(issue: Issue, repo: string)
    ensures var cmd := IssueCommand(issue, repo);
            && |cmd| == 7 + 2 * |issue.labels| + 2 * |issue.assignees|
                        + (if repo != [] then 2 else 0) + (if issue.milestone != [] then 2 else 0)
            && cmd[..7] == ["gh", "issue", "create", "--title", issue.title, "--body", issue.body]
            && (repo != [] ==> cmd[7] == "--repo" && cmd[8] == repo)
            && (issue.milestone != [] ==> cmd[|cmd| - 2] == "--milestone" && cmd[|cmd| - 1] == issue.milestone)
  {
    var base := IssueBase(issue);
    var repoPair := OptionPair("--repo", repo);
    var labels := FlagPairs("--label", issue.labels);
    var assignees := FlagPairs("--assignee", issue.assignees);
    var milestonePair := OptionPair("--milestone", issue.milestone);
    var cmd := IssueCommand(issue, repo);
    assert cmd == base + repoPair + (labels + assignees) + milestonePair by {
      Seqs.AppendAssoc(base + repoPair, labels, assignees);
    }
    Seqs.FourParts(base, repoPair, labels + assignees, milestonePair);
  }

  /** After the start come the "--label" pairs of the labels, then the "--assignee" pairs
      of the assignees (FlagPairs puts the flag before each value, in order). */
  lemma IssueCommandPairs(issue: Issue, repo: string)
    ensures var cmd := IssueCommand(issue, repo);
            var r := if repo != [] then 2 else 0;
            var a := 7 + r + 2 * |issue.labels|;
            && a + 2 * |issue.assignees| <= |cmd|
            && cmd[7 + r..a] == FlagPairs("--label", issue.labels)
            && cmd[a..a + 2 * |issue.assignees|] == FlagPairs("--assignee", issue.assignees)
  {
    var pre := IssueBase(issue) + OptionPair("--repo", repo);
    var labels := FlagPairs("--label", issue.labels);
    var assignees := FlagPairs("--assignee", issue.assignees);
    var milestone := OptionPair("--milestone", issue.milestone);
    var cmd := IssueCommand(issue, repo);
    assert cmd == pre + labels + (assignees + milestone);
    assert cmd == (pre + labels) + assignees + milestone;
    Seqs.Middle(pre, labels, assignees + milestone);
    Seqs.Middle(pre + labels, assignees, milestone);
  }

  /** create_issue's command building: the fixed words, then the optional pairs appended one
      extend at a time. */
  method BuildIssueCommand(issue: Issue, repo: string) returns (cmd: seq<string>)
    ensures cmd == IssueCommand(issue, repo)
  {
    cmd := ["gh", "issue", "create", "--title", issue.title, "--body", issue.body];
    if repo != [] {
      cmd := cmd + ["--repo", repo];
    }
    assert cmd == IssueBase(issue) + OptionPair("--repo", repo);
    var base := cmd;
    for i := 0 to |issue.labels|
      invariant cmd == base + FlagPairs("--label", issue.labels[..i])
    {
      FlagPairsStep("--label", issue.labels, i);
      Seqs.AppendAssoc(base, FlagPairs("--label", issue.labels[..i]), ["--label", issue.labels[i]]);
      cmd := cmd + ["--label", issue.labels[i]];
    }
    assert issue.labels[..|issue.labels|] == issue.labels;
    base := cmd;
    for i := 0 to |issue.assignees|
      invariant cmd == base + FlagPairs("--assignee", issue.assignees[..i])
    {
      FlagPairsStep("--assignee", issue.assignees, i);
      Seqs.AppendAssoc(base, FlagPairs("--assignee", issue.assignees[..i]), ["--assignee", issue.assignees[i]]);
      cmd := cmd + ["--assignee", issue.assignees[i]];
    }
    assert issue.assignees[..|issue.assignees|] == issue.assignees;
    if issue.milestone != [] {
      cmd := cmd + ["--milestone", issue.milestone];
    }
  }

  /** One more value adds its pair after the pairs of the values before it. */
  lemma FlagPairsStep(flag: string, values: seq<string>, i: nat)
    requires i < |values|
    ensures FlagPairs(flag, values[..i + 1]) == FlagPairs(flag, values[..i]) + [flag, values[i]]
  {
    assert values[..i + 1][..i] == values[..i];
  }

  /** result.get('success', True), the test main counts a result by. */
  predicate Succeeded(r: RunResult) {
    r.success.GetOr(true)
  }

  /** What create_issue returns or raises, given how the gh call ends: a dry run raises when
      the issue cannot be printed, and otherwise returns {'number': 0, 'url': 'dry-run',
      'title': title} without a success key, which counts as a success; outside a dry run
      the outcome of the call. */
  function IssueResult(issue: Issue, dryRun: bool, run: GhRun): (r: Outcome<RunResult>)
    ensures r.Returns? ==> r.value.title == issue.title
    ensures dryRun ==> (r.Returns? <==> issue.joinable)
    ensures dryRun && r.Returns? ==> Succeeded(r.value) && r.value.success.None?
                                     && r.value.number == Some(0) && r.value.url == Some("dry-run")
    ensures !dryRun ==> (r.Raised? <==> run.NotLaunched? || (run.Completed? && UrlNumber(Strip(run.stdout)).None?))
    ensures !dryRun && r.Returns? ==> (Succeeded(r.value) <==> run.Completed?)
  {
    if dryRun then
      if issue.joinable then Returns(RunResult(Some(0), Some("dry-run"), issue.title, None, None))
      else Raised
    else Interpret(issue.title, run)
  }

  /** create_issue: the command is built, and gh is called with it unless this is a dry
      run. call says which call to gh this is. */
  method CreateIssue(issue: Issue, repo: string, dryRun: bool, call: nat, gh: (nat, seq<string>) -> GhRun)
    returns (r: Outcome<RunResult>)
    ensures r == IssueResult(issue, dryRun, gh(call, IssueCommand(issue, repo)))
  {
    var cmd := BuildIssueCommand(issue, repo);
    if dryRun {
      if !issue.joinable {
        return Raised;
      }
      return Returns(RunResult(Some(0), Some("dry-run"), issue.title, None, None));
    }
    r := Interpret(issue.title, gh(call, cmd));
  }

  /** A gh that prints the URL of the new issue yields a successful result carrying the
      number at the end of the URL. */
  lemma CreatedIssueNumber(issue: Issue, base: string, n: int)
    requires base == [] || !IsSpace(base[0])
    ensures IssueResult(issue, false, Completed(base + "/" + IntToString(n) + "\n"))
            == Returns(RunResult(Some(n), Some(base + "/" + IntToString(n)), issue.title, Some(true), None))
  {
    InterpretCreated(issue.title, base, n);
  }

  // ---------------------------------------------------------------------------------------
  // main: validate everything, then create and count
  // ---------------------------------------------------------------------------------------

  /** What creating each issue gives, issue i with the i-th gh call. */
  function Attempts(issues: seq<Issue>, repo: string, dryRun: bool, gh: (nat, seq<string>) -> GhRun)
    : (r: seq<Outcome<RunResult>>)
    ensures |r| == |issues|
  {
    seq(|issues|, i requires 0 <= i < |issues| => IssueResult(issues[i], dryRun, gh(i, IssueCommand(issues[i], repo))))
  }

  /** The results of creating the issues in order; an exception from any call ends the
      run. */
  function Results(issues: seq<Issue>, repo: string, dryRun: bool, gh: (nat, seq<string>) -> GhRun)
    : (r: Outcome<seq<RunResult>>)
    ensures r.Returns? ==> |r.value| == |issues|
  {
    InOrder(Attempts(issues, repo, dryRun, gh))
  }

  /** Result i is what creating issue i with the i-th gh call gives. */
  lemma ResultsAt(issues: seq<Issue>, repo: string, dryRun: bool, gh: (nat, seq<string>) -> GhRun, i: nat)
    requires Results(issues, repo, dryRun, gh).Returns? && i < |issues|
    ensures Returns(Results(issues, repo, dryRun, gh).value[i])
            == IssueResult(issues[i], dryRun, gh(i, IssueCommand(issues[i], repo)))
  {
    InOrderAt(Attempts(issues, repo, dryRun, gh), i);
  }

  function SuccessCount(results: seq<RunResult>): (n: nat)
    ensures n <= |results|
  {
    if results == [] then 0
    else SuccessCount(results[..|results| - 1]) + (if Succeeded(results[|results| - 1]) then 1 else 0)
  }

  function FailureCount(results: seq<RunResult>): (n: nat)
    ensures n <= |results|
  {
    if results == [] then 0
    else FailureCount(results[..|results| - 1]) + (if Succeeded(results[|results| - 1]) then 0 else 1)
  }

  /** One more result adds one to the successes or to the failures. */
  lemma CountsStep(done: seq<RunResult>, last: RunResult)
    ensures SuccessCount(done + [last]) == SuccessCount(done) + (if Succeeded(last) then 1 else 0)
    ensures FailureCount(done + [last]) == FailureCount(done) + (if Succeeded(last) then 0 else 1)
  {
    assert (done + [last])[..|done|] == done;
  }

  /** Every result is counted once, as a success or as a failure. */
  lemma {:induction false} CountsAddUp(results: seq<RunResult>)
    ensures SuccessCount(results) + FailureCount(results) == |results|
  {
    if results != [] {
      CountsAddUp(results[..|results| - 1]);
    }
  }

  /** No failure is counted exactly when every result is a success. */
  lemma {:induction false} NoFailureIff(results: seq<RunResult>)
    ensures FailureCount(results) == 0 <==> forall i :: 0 <= i < |results| ==> Succeeded(results[i])
  {
    if results != [] {
      var n := |results| - 1;
      var front := results[..n];
      NoFailureIff(front);
      assert forall i :: 0 <= i < n ==> front[i] == results[i];
    }
  }

  /** How main ends: aborted by validation errors, ended by an uncaught exception, or with
      every issue attempted and the counts it prints. */
  datatype BatchOutcome =
    | Aborted(messages: seq<string>)
    | Crashed
    | Finished(results: seq<RunResult>, successful: nat, failed: nat)

  /** main from the loaded issues on. */
  function Batch(issues: seq<Issue>, repo: string, dryRun: bool, gh: (nat, seq<string>) -> GhRun): BatchOutcome {
    var messages := ValidationMessages(issues);
    if messages != [] then Aborted(messages)
    else
      match Results(issues, repo, dryRun, gh)
      case Raised => Crashed
      case Returns(results) => Finished(results, SuccessCount(results), FailureCount(results))
  }

  /** sys.exit(0 if failed == 0 else 1), and 1 for an abort or a traceback. */
  function ExitStatus(outcome: BatchOutcome): int {
    match outcome
    case Finished(_, _, failed) => if failed == 0 then 0 else 1
    case _ => 1
  }

  /** main's validation pass: one message per issue with errors. */
  method CollectValidationErrors(issues: seq<Issue>) returns (messages: seq<string>)
    ensures messages == ValidationMessages(issues)
  {
    messages := [];
    for i := 0 to |issues|
      invariant messages == ValidationMessages(issues[..i])
    {
      var errors := ValidateIssue(issues[i]);
      assert issues[..i + 1][..i] == issues[..i];
      if errors != [] {
        messages := messages + [IssueMessage(i + 1, errors)];
      }
    }
    assert issues[..|issues|] == issues;
  }

  /** main's creation pass: each result is appended and counted as a success or a failure;
      an exception from create_issue ends the pass. */
  method CreateAll(issues: seq<Issue>, repo: string, dryRun: bool, gh: (nat, seq<string>) -> GhRun)
    returns (r: Outcome<(seq<RunResult>, nat, nat)>)
    ensures r.Raised? <==> Results(issues, repo, dryRun, gh).Raised?
    ensures r.Returns? ==> r.value.0 == Results(issues, repo, dryRun, gh).value
                           && r.value.1 == SuccessCount(r.value.0) && r.value.2 == FailureCount(r.value.0)
  {
    var results := [];
    var successful := 0;
    var failed := 0;
    ghost var attempts := Attempts(issues, repo, dryRun, gh);
    for i := 0 to |issues|
      invariant InOrder(attempts[..i]) == Returns(results)
      invariant successful == SuccessCount(results) && failed == FailureCount(results)
    {
      var result := CreateIssue(issues[i], repo, dryRun, i, gh);
      assert result == attempts[i];
      InOrderLoopStep(attempts, i, results);
      if result.Raised? {
        return Raised;
      }
      CountsStep(results, result.value);
      results := results + [result.value];
      if result.value.success.GetOr(true) {
        successful := successful + 1;
      } else {
        failed := failed + 1;
      }
    }
    assert attempts[..|issues|] == attempts;
    r := Returns((results, successful, failed));
  }

  /** main from the loaded issues on: validate every issue, then create them all. */
  method RunBatch(issues: seq<Issue>, repo: string, dryRun: bool, gh: (nat, seq<string>) -> GhRun)
    returns (outcome: BatchOutcome)
    ensures outcome == Batch(issues, repo, dryRun, gh)
  {
    var messages := CollectValidationErrors(issues);
    if messages != [] {
      return Aborted(messages);
    }
    var created := CreateAll(issues, repo, dryRun, gh);
    if created.Raised? {
      return Crashed;
    }
    var (results, successful, failed) := created.value;
    outcome := Finished(results, successful, failed);
  }

  /** The run is aborted, before any issue is created, exactly when some issue lacks a title
      or a body; there is then one message per such issue. */
  lemma BatchAbortsIff(issues: seq<Issue>, repo: string, dryRun: bool, gh: (nat, seq<string>) -> GhRun)
    ensures Batch(issues, repo, dryRun, gh).Aborted? <==> exists i :: 0 <= i < |issues| && !HasTitleAndBody(issues[i])
    ensures Batch(issues, repo, dryRun, gh).Aborted? ==>
              |Batch(issues, repo, dryRun, gh).messages| == InvalidCount(issues)
  {
    ValidationMessagesEmpty(issues);
    ValidationMessagesCount(issues);
  }

  /** A finished run attempted every issue, in order, and counted each once; it exits with
      0 exactly when no result failed. */
  lemma BatchTally(issues: seq<Issue>, repo: string, dryRun: bool, gh: (nat, seq<string>) -> GhRun)
    requires Batch(issues, repo, dryRun, gh).Finished?
    ensures var o := Batch(issues, repo, dryRun, gh);
            && |o.results| == |issues|
            && o.successful + o.failed == |issues|
            && (forall i :: 0 <= i < |issues| ==> o.results[i].title == issues[i].title)
            && (ExitStatus(o) == 0 <==> forall i :: 0 <= i < |issues| ==> Succeeded(o.results[i]))
  {
    var results := Results(issues, repo, dryRun, gh).value;
    CountsAddUp(results);
    NoFailureIff(results);
    forall i | 0 <= i < |issues| ensures results[i].title == issues[i].title {
      ResultsAt(issues, repo, dryRun, gh, i);
    }
  }

  /** Whether the dry run can print every issue's labels and assignees. */
  predicate AllJoinable(issues: seq<Issue>) {
    forall i :: 0 <= i < |issues| ==> issues[i].joinable
  }

  /** A dry run of issues that all pass validation and can all be printed creates nothing,
      reports every issue as created with number 0, and exits with 0. */
  lemma DryRunSucceeds(issues: seq<Issue>, repo: string, gh: (nat, seq<string>) -> GhRun)
    requires AllValid(issues) && AllJoinable(issues)
    ensures Batch(issues, repo, true, gh).Finished?
    ensures Batch(issues, repo, true, gh).successful == |issues|
    ensures Batch(issues, repo, true, gh).failed == 0
    ensures ExitStatus(Batch(issues, repo, true, gh)) == 0
  {
    ValidationMessagesEmpty(issues);
    DryRunReturns(issues, repo, gh);
    var results := Results(issues, repo, true, gh).value;
    forall i | 0 <= i < |results| ensures Succeeded(results[i]) {
      ResultsAt(issues, repo, true, gh, i);
    }
    NoFailureIff(results);
    CountsAddUp(results);
  }

  /** A dry run of valid issues one of which has a labels or assignees value of None,
      False or 0 ends with the TypeError of ', '.join, and so with exit status 1. */
  lemma DryRunCrashes(issues: seq<Issue>, repo: string, gh: (nat, seq<string>) -> GhRun)
    requires AllValid(issues) && !AllJoinable(issues)
    ensures Batch(issues, repo, true, gh).Crashed?
    ensures ExitStatus(Batch(issues, repo, true, gh)) == 1
  {
    ValidationMessagesEmpty(issues);
    DryRunReturns(issues, repo, gh);
  }

  /** A dry run never calls gh; it raises exactly when some issue cannot be printed. */
  lemma DryRunReturns(issues: seq<Issue>, repo: string, gh: (nat, seq<string>) -> GhRun)
    ensures Results(issues, repo, true, gh).Returns? <==> AllJoinable(issues)
  {
    var attempts := Attempts(issues, repo, true, gh);
    if AllJoinable(issues) {
      forall i | 0 <= i < |attempts| ensures attempts[i].Returns? {
        assert attempts[i] == IssueResult(issues[i], true, gh(i, IssueCommand(issues[i], repo)));
      }
      InOrderReturns(attempts);
    } else {
      var k :| 0 <= k < |issues| && !issues[k].joinable;
      assert attempts[k] == IssueResult(issues[k], true, gh(k, IssueCommand(issues[k], repo)));
      InOrderStep(attempts, k);
      InOrderRaise(attempts, k + 1);
    }
  }
}
