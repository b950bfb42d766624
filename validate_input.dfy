/** validate_input.py: the checks run on an issue file before batch creation. A JSON file is
    checked for its shape and for the fields of every issue; a CSV file for its header and
    for blank cells. The result is (is_valid, errors, warnings). Reading and parsing the
    file are not modelled: the checks start from the parsed document. */
module ValidateInput {
  import opened Wrappers
  import opened Text
  import opened PyJson
  import Seqs

  // ---------------------------------------------------------------------------------------
  // The shape of a JSON document
  // ---------------------------------------------------------------------------------------

  const ShapeError: string := "JSON must be array or object with 'issues' key"
  const IssuesNotArray: string := "'issues' must be an array"
  const NoIssues: string := "No issues found in file"

  /** A list, or a dict with an 'issues' key: the documents that name an issue list. */
  predicate IsContainer(data: JValue) {
    data.JArray? || (data.JObject? && HasKey(data.fields, "issues"))
  }

  /** The value the scripts take as the issue list. */
  function IssuesValue(data: JValue): JValue
    requires IsContainer(data)
  {
    if data.JArray? then data else Get(data.fields, "issues").value
  }

  /** validate_json_structure: the shape is valid when the issue list is a list; an empty
      list is valid in shape but reported as "No issues found in file". */
  function ValidateJsonStructure(data: JValue): (r: (bool, seq<string>))
    ensures r.0 <==> IsContainer(data) && IssuesValue(data).JArray?
    ensures !IsContainer(data) ==> r.1 == [ShapeError]
    ensures IsContainer(data) && !r.0 ==> r.1 == [IssuesNotArray]
    ensures r.0 ==> r.1 == (if IssuesValue(data).items == [] then [NoIssues] else [])
  {
    var issues :=
      if data.JArray? then Some(data)
      else if data.JObject? && HasKey(data.fields, "issues") then Get(data.fields, "issues")
      else None;
    match issues
    case None => (false, [ShapeError])
    case Some(v) =>
      if !v.JArray? then (false, [IssuesNotArray])
      else (true, if v.items == [] then [NoIssues] else [])
  }

  // ---------------------------------------------------------------------------------------
  // The fields of one issue
  // ---------------------------------------------------------------------------------------

  /** The f"Issue {index}" prefix of every field error. */
  function IssuePrefix(index: int): string {
    "Issue " + IntToString(index)
  }

  predicate IsNonBlankString(v: JValue) {
    v.JString? && !IsBlank(v.s)
  }

  predicate IsStringArray(v: JValue) {
    v.JArray? && forall i :: 0 <= i < |v.items| ==> v.items[i].JString?
  }

  /** What validate_issue_fields accepts: title and body non-blank strings, labels and
      assignees lists of strings if present, milestone a string if present. */
  predicate IssueFieldsValid(issue: Dict<JValue>) {
    && HasKey(issue, "title") && IsNonBlankString(Get(issue, "title").value)
    && HasKey(issue, "body") && IsNonBlankString(Get(issue, "body").value)
    && (HasKey(issue, "labels") ==> IsStringArray(Get(issue, "labels").value))
    && (HasKey(issue, "assignees") ==> IsStringArray(Get(issue, "assignees").value))
    && (HasKey(issue, "milestone") ==> Get(issue, "milestone").value.JString?)
  }

  /** f"{prefix}: {detail}", the form of every field error. */
  function Labelled(prefix: string, detail: string): (m: string)
    ensures StartsWith(m, prefix + ": ")
  {
    var head := prefix + ": ";
    assert (head + detail)[..|head|] == head;
    head + detail
  }

  /** The check of a required field (title or body), as the text after the prefix:
      "Missing" when the key is absent, "must be non-empty string" when the value is not a
      string or is blank, and no error otherwise. */
  function RequiredFieldError(issue: Dict<JValue>, field: string): (e: Option<string>)
    ensures e.None? <==> HasKey(issue, field) && IsNonBlankString(Get(issue, field).value)
    ensures !HasKey(issue, field) ==> e == Some("Missing '" + field + "'")
    ensures HasKey(issue, field) && e.Some? ==> e == Some("'" + field + "' must be non-empty string")
  {
    match Get(issue, field)
    case None => Some("Missing '" + field + "'")
    case Some(v) =>
      if !v.JString? || Strip(v.s) == [] then Some("'" + field + "' must be non-empty string")
      else None
  }

  /** The check of an optional list field (labels or assignees): nothing when the key is
      absent; "must be array" for a value that is not a list; otherwise "All ... must be
      strings" when some element is not a string. Never both. */
  function ListFieldError(issue: Dict<JValue>, field: string): (e: Option<string>)
    ensures e.None? <==> !HasKey(issue, field) || IsStringArray(Get(issue, field).value)
    ensures HasKey(issue, field) && !Get(issue, field).value.JArray? ==>
              e == Some("'" + field + "' must be array")
    ensures HasKey(issue, field) && Get(issue, field).value.JArray? && e.Some? ==>
              e == Some("All " + field + " must be strings")
  {
    match Get(issue, field)
    case None => None
    case Some(v) =>
      if !v.JArray? then Some("'" + field + "' must be array")
      else if !(forall i :: 0 <= i < |v.items| ==> v.items[i].JString?) then
        Some("All " + field + " must be strings")
      else None
  }

  /** The check of the optional milestone: an error only for a present non-string value. */
  function MilestoneError(issue: Dict<JValue>): (e: Option<string>)
    ensures e.None? <==> !HasKey(issue, "milestone") || Get(issue, "milestone").value.JString?
    ensures e.Some? ==> e == Some("'milestone' must be string")
  {
    match Get(issue, "milestone")
    case Some(v) => if !v.JString? then Some("'milestone' must be string") else None
    case None => None
  }

  /** How many of the checks found an error. */
  function SomeCount(checks: seq<Option<string>>): nat {
    if checks == [] then 0 else (if checks[0].Some? then 1 else 0) + SomeCount(checks[1..])
  }

  /** The present values, in order. */
  function Present(checks: seq<Option<string>>): (r: seq<string>)
    ensures |r| <= |checks| && |r| == SomeCount(checks)
    ensures r == [] <==> forall i :: 0 <= i < |checks| ==> checks[i].None?
  {
    if checks == [] then []
    else
      var rest := Present(checks[1..]);
      assert forall i :: 1 <= i < |checks| ==> checks[1..][i - 1] == checks[i];
      match checks[0]
      case Some(e) => [e] + rest
      case None => rest
  }

  /** The value of check f comes after those of the checks before it: its place is the
      number of them that found an error. */
  lemma {:induction false} PresentAt(checks: seq<Option<string>>, f: nat)
    requires f < |checks| && checks[f].Some?
    ensures SomeCount(checks[..f]) < |Present(checks)|
    ensures Present(checks)[SomeCount(checks[..f])] == checks[f].value
  {
    if f > 0 {
      PresentAt(checks[1..], f - 1);
      assert checks[1..][f - 1] == checks[f];
      assert checks[..f][1..] == checks[1..][..f - 1];
    }
  }

  /** PresentAt for every check that found an error. */
  lemma PresentOrder(checks: seq<Option<string>>)
    ensures forall f :: 0 <= f < |checks| && checks[f].Some? ==>
              SomeCount(checks[..f]) < |Present(checks)| && Present(checks)[SomeCount(checks[..f])] == checks[f].value
  {
    forall f | 0 <= f < |checks| && checks[f].Some?
      ensures SomeCount(checks[..f]) < |Present(checks)| && Present(checks)[SomeCount(checks[..f])] == checks[f].value
    {
      PresentAt(checks, f);
    }
  }

  /** Five checks give nothing exactly when each of them passes. */
  lemma PresentNone(checks: seq<Option<string>>)
    requires |checks| == 5
    ensures Present(checks) == [] <==>
              checks[0].None? && checks[1].None? && checks[2].None? && checks[3].None? && checks[4].None?
  {
  }

  /** The five field checks in the order validate_issue_fields runs them: title, body,
      labels, assignees, milestone. */
  function FieldChecks(issue: Dict<JValue>): seq<Option<string>> {
    [
      RequiredFieldError(issue, "title"),
      RequiredFieldError(issue, "body"),
      ListFieldError(issue, "labels"),
      ListFieldError(issue, "assignees"),
      MilestoneError(issue)
    ]
  }

  /** validate_issue_fields: one error per failing field check, each "Issue {index}: "
      followed by that check's message, in the order of the checks: the error of check f
      comes right after those of the failing checks before it. There are none exactly when
      the issue has the accepted shape. */
  function ValidateIssueFields(issue: Dict<JValue>, index: int): (errors: seq<string>)
    ensures |errors| <= 5
    ensures |errors| == SomeCount(FieldChecks(issue))
    ensures forall f :: 0 <= f < 5 && FieldChecks(issue)[f].Some? ==>
              && SomeCount(FieldChecks(issue)[..f]) < |errors|
              && errors[SomeCount(FieldChecks(issue)[..f])]
                 == Labelled(IssuePrefix(index), FieldChecks(issue)[f].value)
    ensures forall i :: 0 <= i < |errors| ==> StartsWith(errors[i], IssuePrefix(index) + ": ")
    ensures errors == [] <==> IssueFieldsValid(issue)
  {
    var prefix := IssuePrefix(index);
    var checks := FieldChecks(issue);
    var details := Present(checks);
    PresentNone(checks);
    PresentOrder(checks);
    seq(|details|, i requires 0 <= i < |details| => Labelled(prefix, details[i]))
  }

  // ---------------------------------------------------------------------------------------
  // validate_json after json.load
  // ---------------------------------------------------------------------------------------

  /** A warning. The duplicate-title warning's text joins the titles in the order a Python
      set yields them, which string hashing decides; the set itself is kept here. */
  datatype Warning = DuplicateTitles(titles: set<string>) | NoDataRows

  /** (is_valid, errors, warnings); E is the type of the error messages. */
  datatype Report<E> = Report(valid: bool, errors: seq<E>, warnings: seq<Warning>)

  predicate AllDicts(issues: seq<JValue>) {
    forall i :: 0 <= i < |issues| ==> issues[i].JObject?
  }

  /** The errors of every issue, numbered from 1, in list order. */
  function IssueErrors(issues: seq<JValue>): (errors: seq<string>)
    requires AllDicts(issues)
    ensures |errors| <= 5 * |issues|
  {
    if issues == [] then []
    else
      var n := |issues| - 1;
      var front := issues[..n];
      assert forall i :: 0 <= i < n ==> front[i] == issues[i];
      IssueErrors(front) + ValidateIssueFields(issues[n].fields, n + 1)
  }

  /** Every issue is a dict of the accepted shape. */
  predicate AllIssuesValid(issues: seq<JValue>) {
    forall i :: 0 <= i < |issues| ==> IssueValid(issues[i])
  }

  /** A dict of the accepted shape. */
  predicate IssueValid(issue: JValue) {
    issue.JObject? && IssueFieldsValid(issue.fields)
  }

  /** The issue list yields no field error exactly when every issue has the accepted shape. */
  lemma {:induction false} IssueErrorsEmpty(issues: seq<JValue>)
    requires AllDicts(issues)
    ensures IssueErrors(issues) == [] <==> AllIssuesValid(issues)
  {
    if issues != [] {
      var n := |issues| - 1;
      var front := issues[..n];
      assert issues == front + [issues[n]];
      IssueErrorsStep(issues, n);
      assert issues[..n + 1] == issues;
      IssueErrorsEmpty(front);
      AllIssuesValidSnoc(front, issues[n]);
      var mine := ValidateIssueFields(issues[n].fields, n + 1);
      assert mine == [] <==> IssueFieldsValid(issues[n].fields);
      assert IssueErrors(front) + mine == [] <==> IssueErrors(front) == [] && mine == [];
    }
  }

  lemma AllIssuesValidSnoc(front: seq<JValue>, last: JValue)
    ensures AllIssuesValid(front + [last]) <==> AllIssuesValid(front) && IssueValid(last)
  {
    assert forall i :: 0 <= i < |front| ==> (front + [last])[i] == front[i];
    assert (front + [last])[|front|] == last;
  }

  /** One more issue adds its own errors after those of the issues before it. */
  lemma IssueErrorsStep(issues: seq<JValue>, i: nat)
    requires i < |issues| && forall j :: 0 <= j <= i ==> issues[j].JObject?
    ensures AllDicts(issues[..i]) && AllDicts(issues[..i + 1])
    ensures IssueErrors(issues[..i + 1]) == IssueErrors(issues[..i]) + ValidateIssueFields(issues[i].fields, i + 1)
  {
    var next := issues[..i + 1];
    assert next[..i] == issues[..i];
    assert next[i] == issues[i];
  }

  /** issue.get('title', '') for every issue. */
  function Titles(issues: seq<JValue>): (titles: seq<JValue>)
    requires AllDicts(issues)
    ensures |titles| == |issues|
    ensures forall i :: 0 <= i < |issues| && !HasKey(issues[i].fields, "title") ==> titles[i] == JString("")
    ensures forall i :: 0 <= i < |issues| && HasKey(issues[i].fields, "title") ==>
              titles[i] == Get(issues[i].fields, "title").value
  {
    seq(|issues|, i requires 0 <= i < |issues| => Get(issues[i].fields, "title").GetOr(JString("")))
  }

  /** A truthy title that is not a string but occurs more than once reaches set() (a list
      or a dict is unhashable) or ', '.join (which takes only strings): either raises. */
  predicate DuplicateRaises(titles: seq<JValue>) {
    exists i :: 0 <= i < |titles| && !titles[i].JString? && Truthy(titles[i]) && PyCount(titles, titles[i]) > 1
  }

  /** set([t for t in titles if titles.count(t) > 1 and t]) when every such t is a string. */
  function DuplicateSet(titles: seq<JValue>): set<string> {
    set i | 0 <= i < |titles| && titles[i].JString? && titles[i].s != [] && PyCount(titles, titles[i]) > 1
      :: titles[i].s
  }

  /** What validate_json returns once the file is parsed. A document of the wrong shape is
      reported with the structure error alone. An issue that is not a dict makes the script
      raise (`in` on a number, or issue.get on a list or a string), and so does a repeated
      title of the wrong type. Otherwise the errors are the structure error, if any,
      followed by the field errors, and the file is valid exactly when there are none. */
  function JsonReport(data: JValue): (r: Outcome<Report<string>>)
    ensures r.Returns? ==> (r.value.valid <==> r.value.errors == [])
  {
    var structure := ValidateJsonStructure(data);
    if !structure.0 then Returns(Report(false, structure.1, []))
    else
      var issues := IssuesValue(data).items;
      if !AllDicts(issues) || DuplicateRaises(Titles(issues)) then Raised
      else
        var errors := structure.1 + IssueErrors(issues);
        var duplicates := DuplicateSet(Titles(issues));
        Returns(Report(errors == [], errors, if duplicates == {} then [] else [DuplicateTitles(duplicates)]))
  }

  /** validate_json once the file is parsed: the structure check, then the loop over the
      issues. */
  method ValidateJson(data: JValue) returns (r: Outcome<Report<string>>)
    ensures r == JsonReport(data)
  {
    var structure := ValidateJsonStructure(data);
    if !structure.0 {
      return Returns(Report(false, structure.1, []));
    }
    var issues := IssuesValue(data).items;
    var errors := structure.1;
    var i := 0;
    while i < |issues|
      invariant 0 <= i <= |issues|
      invariant forall j :: 0 <= j < i ==> issues[j].JObject?
      invariant errors == structure.1 + IssueErrors(issues[..i])
    {
      if !issues[i].JObject? {
        assert !AllDicts(issues);
        return Raised;
      }
      var fieldErrors := ValidateIssueFields(issues[i].fields, i + 1);
      IssueErrorsStep(issues, i);
      Seqs.AppendAssoc(structure.1, IssueErrors(issues[..i]), fieldErrors);
      errors := errors + fieldErrors;
      i := i + 1;
    }
    assert issues[..i] == issues;
    var titles := Titles(issues);
    if DuplicateRaises(titles) {
      return Raised;
    }
    var duplicates := DuplicateSet(titles);
    var warnings := if duplicates == {} then [] else [DuplicateTitles(duplicates)];
    r := Returns(Report(errors == [], errors, warnings));
  }

  /** A file passes exactly when it names a non-empty list of issues that all have the
      accepted shape. Duplicate titles never make a file fail. */
  lemma JsonValidIff(data: JValue)
    ensures (JsonReport(data).Returns? && JsonReport(data).value.valid)
            <==> && IsContainer(data) && IssuesValue(data).JArray? && IssuesValue(data).items != []
                 && AllIssuesValid(IssuesValue(data).items)
  {
    if JsonReport(data).Returns? && JsonReport(data).value.valid {
      JsonValidOnlyIf(data);
    }
    if IsContainer(data) && IssuesValue(data).JArray? && IssuesValue(data).items != []
       && AllIssuesValid(IssuesValue(data).items) {
      JsonValidIf(data);
    }
  }

  lemma JsonValidOnlyIf(data: JValue)
    requires JsonReport(data).Returns? && JsonReport(data).value.valid
    ensures IsContainer(data) && IssuesValue(data).JArray? && IssuesValue(data).items != []
    ensures AllIssuesValid(IssuesValue(data).items)
  {
    IssueErrorsEmpty(IssuesValue(data).items);
  }

  lemma JsonValidIf(data: JValue)
    requires IsContainer(data) && IssuesValue(data).JArray? && IssuesValue(data).items != []
    requires AllIssuesValid(IssuesValue(data).items)
    ensures JsonReport(data).Returns? && JsonReport(data).value.valid
  {
    var issues := IssuesValue(data).items;
    assert AllDicts(issues);
    IssueErrorsEmpty(issues);
    NoDuplicateRaiseWhenValid(issues);
  }

  /** The parts of the report: a document of the wrong shape gets its structure error alone
      and no warning; otherwise the run raises exactly when some issue is not a dict or a
      repeated title is not a string, and a report has the structure errors followed by the
      errors of every issue, and the duplicate-title warning exactly when some non-empty
      title is repeated. */
  lemma JsonReportParts(data: JValue)
    ensures var structure := ValidateJsonStructure(data);
            !structure.0 ==> JsonReport(data) == Returns(Report(false, structure.1, []))
    ensures var structure := ValidateJsonStructure(data);
            structure.0 ==>
              var issues := IssuesValue(data).items;
              && (JsonReport(data).Raised? <==> !AllDicts(issues) || DuplicateRaises(Titles(issues)))
              && (JsonReport(data).Returns? ==>
                    && JsonReport(data).value.errors == structure.1 + IssueErrors(issues)
                    && (JsonReport(data).value.warnings == []
                        <==> DuplicateSet(Titles(issues)) == {})
                    && (JsonReport(data).value.warnings != [] ==>
                          JsonReport(data).value.warnings == [DuplicateTitles(DuplicateSet(Titles(issues)))]))
  {
  }

  /** The duplicate-title warning of a returned report names a title exactly when it is
      non-empty and at least two issues have it as their title. */
  lemma JsonDuplicateWarning(data: JValue, t: string)
    requires JsonReport(data).Returns? && ValidateJsonStructure(data).0
    ensures var issues := IssuesValue(data).items;
            AllDicts(issues) &&
            ((exists w :: w in JsonReport(data).value.warnings && t in w.titles)
             <==> t != [] && |Positions(Titles(issues), JString(t))| > 1)
  {
    var issues := IssuesValue(data).items;
    JsonReportParts(data);
    DuplicateSetExact(Titles(issues), t);
    var r := JsonReport(data).value;
    if t in DuplicateSet(Titles(issues)) {
      assert r.warnings == [DuplicateTitles(DuplicateSet(Titles(issues)))];
      assert r.warnings[0] in r.warnings;
    }
  }

  /** When every title is a string, the duplicate check cannot raise. */
  lemma NoDuplicateRaiseWhenValid(issues: seq<JValue>)
    requires AllDicts(issues)
    requires AllIssuesValid(issues)
    ensures !DuplicateRaises(Titles(issues))
  {
    var titles := Titles(issues);
    forall i | 0 <= i < |titles| ensures titles[i].JString? {
      assert IssueValid(issues[i]);
    }
  }

  /** An empty issue list is invalid, with the single error "No issues found in file". */
  lemma JsonEmptyIssues(data: JValue)
    requires IsContainer(data) && IssuesValue(data) == JArray([])
    ensures JsonReport(data) == Returns(Report(false, [NoIssues], []))
  {
    assert ValidateJsonStructure(data) == (true, [NoIssues]);
    var issues := IssuesValue(data).items;
    assert issues == [] && Titles(issues) == [];
    assert AllDicts(issues) && !DuplicateRaises(Titles(issues));
    assert IssueErrors(issues) == [];
    assert [NoIssues] + IssueErrors(issues) == [NoIssues];
    assert DuplicateSet(Titles(issues)) == {};
  }

  /** The warning names exactly the non-empty titles that occur more than once. */
  lemma DuplicateSetExact(titles: seq<JValue>, t: string)
    ensures t in DuplicateSet(titles)
            <==> t != [] && |Positions(titles, JString(t))| > 1
  {
    PyCountString(titles, t);
    var idx := Positions(titles, JString(t));
    if t in DuplicateSet(titles) {
      var i :| 0 <= i < |titles| && titles[i].JString? && titles[i].s != [] && PyCount(titles, titles[i]) > 1
               && titles[i].s == t;
      assert titles[i] == JString(t);
    }
    if t != [] && |idx| > 1 {
      var i :| i in idx;
      assert titles[i].s in DuplicateSet(titles);
    }
  }

  // ---------------------------------------------------------------------------------------
  // validate_csv after csv.DictReader
  // ---------------------------------------------------------------------------------------

  /** What row.get('title', '') and row.get('body', '') give for a csv.DictReader row once
      the header has both columns: the cell, or None where the line is too short to have
      one. */
  datatype CsvRow = CsvRow(title: Option<string>, body: Option<string>)

  /** The errors validate_csv reports, as values; Text gives the message. */
  datatype CsvError =
    | NoHeader
    | MissingColumns(missing: set<string>, titleFirst: bool)
    | MissingCell
    | EmptyTitle(row: int)
    | EmptyBody(row: int)
  {
    /** The message as the script writes it. The missing columns are joined with ", " in
        set order; titleFirst says which of the two a Python set yields first. A missing
        cell is the caught AttributeError raised by None.strip(). */
    function Text(): string {
      match this
      case NoHeader => "CSV file is empty or has no header"
      case MissingColumns(m, titleFirst) =>
        "Missing required columns: "
        + if m == {"title", "body"} then (if titleFirst then "title, body" else "body, title")
          else if "title" in m then "title" else "body"
      case MissingCell => "Error reading CSV: 'NoneType' object has no attribute 'strip'"
      case EmptyTitle(n) => "Row " + IntToString(n) + ": Empty title"
      case EmptyBody(n) => "Row " + IntToString(n) + ": Empty body"
    }
  }

  /** Distinct row errors have distinct messages, so the messages name their row and
      their column. */
  lemma RowMessagesDistinct(a: CsvError, b: CsvError)
    requires (a.EmptyTitle? || a.EmptyBody?) && (b.EmptyTitle? || b.EmptyBody?)
    requires a.Text() == b.Text()
    ensures a == b
  {
    var t, u := a.Text(), b.Text();
    var x, y := IntToString(a.row), IntToString(b.row);
    assert t[|t| - 1] == (if a.EmptyTitle? then 'e' else 'y');
    assert u[|u| - 1] == (if b.EmptyTitle? then 'e' else 'y');
    assert |x| == |y|;
    assert x == t[4..4 + |x|] && y == u[4..4 + |y|];
    IntToStringInjective(a.row, b.row);
  }

  /** The columns of title and body that the header lacks. */
  function AbsentColumns(header: seq<string>): (m: set<string>)
    ensures m <= {"title", "body"}
    ensures "title" in m <==> "title" !in header
    ensures "body" in m <==> "body" !in header
  {
    {"title", "body"} - set h | h in header
  }

  predicate HasMissingCell(row: CsvRow) {
    row.title.None? || row.body.None?
  }

  predicate NoMissingCell(rows: seq<CsvRow>) {
    forall i :: 0 <= i < |rows| ==> !HasMissingCell(rows[i])
  }

  /** The errors of row number n: a blank title, then a blank body. */
  function RowErrors(row: CsvRow, n: int): (errors: seq<CsvError>)
    requires !HasMissingCell(row)
    ensures forall i :: 0 <= i < |errors| ==> errors[i] in {EmptyTitle(n), EmptyBody(n)}
    ensures EmptyTitle(n) in errors <==> IsBlank(row.title.value)
    ensures EmptyBody(n) in errors <==> IsBlank(row.body.value)
    ensures |errors| == (if IsBlank(row.title.value) then 1 else 0) + (if IsBlank(row.body.value) then 1 else 0)
    ensures IsBlank(row.title.value) ==> errors[0] == EmptyTitle(n)
    ensures IsBlank(row.body.value) ==> errors[|errors| - 1] == EmptyBody(n)
  {
    (if Strip(row.title.value) == [] then [EmptyTitle(n)] else [])
    + (if Strip(row.body.value) == [] then [EmptyBody(n)] else [])
  }

  /** The errors of every row, numbered from 1, in order. */
  function AllRowErrors(rows: seq<CsvRow>): (errors: seq<CsvError>)
    requires NoMissingCell(rows)
    ensures |errors| <= 2 * |rows|
  {
    if rows == [] then []
    else
      var n := |rows| - 1;
      NoMissingCellPrefix(rows, n);
      AllRowErrors(rows[..n]) + RowErrors(rows[n], n + 1)
  }

  /** One more row adds its own errors after those of the rows before it. */
  lemma AllRowErrorsStep(rows: seq<CsvRow>, i: nat)
    requires i < |rows| && forall j :: 0 <= j <= i ==> !HasMissingCell(rows[j])
    ensures NoMissingCell(rows[..i]) && NoMissingCell(rows[..i + 1])
    ensures AllRowErrors(rows[..i + 1]) == AllRowErrors(rows[..i]) + RowErrors(rows[i], i + 1)
  {
    var next := rows[..i + 1];
    assert next[..i] == rows[..i];
    assert next[i] == rows[i];
  }

  lemma NoMissingCellPrefix(rows: seq<CsvRow>, n: nat)
    requires NoMissingCell(rows) && n <= |rows|
    ensures NoMissingCell(rows[..n])
  {
    assert forall j :: 0 <= j < n ==> rows[..n][j] == rows[j];
  }

  /** Row k + 1 is reported for a blank title exactly when there is such a row and its
      title is blank: no row reports another row's number. */
  lemma {:induction false} TitleReported(rows: seq<CsvRow>, k: nat)
    requires NoMissingCell(rows)
    ensures EmptyTitle(k + 1) in AllRowErrors(rows) <==> k < |rows| && IsBlank(rows[k].title.value)
  {
    if rows != [] {
      var n := |rows| - 1;
      var front := rows[..n];
      NoMissingCellPrefix(rows, n);
      TitleReported(front, k);
      var last := RowErrors(rows[n], n + 1);
      assert AllRowErrors(rows) == AllRowErrors(front) + last;
      if k < n {
        assert front[k] == rows[k];
        assert EmptyTitle(k + 1) !in last;
      } else if k == n {
        assert EmptyTitle(k + 1) !in AllRowErrors(front);
      } else {
        assert EmptyTitle(k + 1) !in last;
      }
    }
  }

  /** The same for a blank body. */
  lemma {:induction false} BodyReported(rows: seq<CsvRow>, k: nat)
    requires NoMissingCell(rows)
    ensures EmptyBody(k + 1) in AllRowErrors(rows) <==> k < |rows| && IsBlank(rows[k].body.value)
  {
    if rows != [] {
      var n := |rows| - 1;
      var front := rows[..n];
      NoMissingCellPrefix(rows, n);
      BodyReported(front, k);
      var last := RowErrors(rows[n], n + 1);
      assert AllRowErrors(rows) == AllRowErrors(front) + last;
      if k < n {
        assert front[k] == rows[k];
        assert EmptyBody(k + 1) !in last;
      } else if k == n {
        assert EmptyBody(k + 1) !in AllRowErrors(front);
      } else {
        assert EmptyBody(k + 1) !in last;
      }
    }
  }

  /** Every reported error is a row error of some row. */
  lemma {:induction false} AllRowErrorsAreRowErrors(rows: seq<CsvRow>)
    requires NoMissingCell(rows)
    ensures forall e :: e in AllRowErrors(rows) ==> (e.EmptyTitle? || e.EmptyBody?) && 1 <= e.row <= |rows|
  {
    if rows != [] {
      var n := |rows| - 1;
      var front := rows[..n];
      NoMissingCellPrefix(rows, n);
      AllRowErrorsAreRowErrors(front);
      assert AllRowErrors(rows) == AllRowErrors(front) + RowErrors(rows[n], n + 1);
    }
  }

  /** What validate_csv returns once the header and the rows are read. */
  function CsvReport(header: seq<string>, rows: seq<CsvRow>, titleFirst: bool): (r: Report<CsvError>)
    ensures r.valid <==> r.errors == []
  {
    if header == [] then Report(false, [NoHeader], [])
    else if AbsentColumns(header) != {} then
      Report(false, [MissingColumns(AbsentColumns(header), titleFirst)], [])
    else if !NoMissingCell(rows) then Report(false, [MissingCell], [])
    else
      var errors := AllRowErrors(rows);
      Report(errors == [], errors, if rows == [] then [NoDataRows] else [])
  }

  /** validate_csv once the reader is open: the header checks, then the loop over the
      rows. */
  method ValidateCsv(header: seq<string>, rows: seq<CsvRow>, titleFirst: bool) returns (r: Report<CsvError>)
    ensures r == CsvReport(header, rows, titleFirst)
  {
    if header == [] {
      return Report(false, [NoHeader], []);
    }
    var missing := AbsentColumns(header);
    if missing != {} {
      return Report(false, [MissingColumns(missing, titleFirst)], []);
    }
    var warnings := if rows == [] then [NoDataRows] else [];
    var errors := [];
    for i := 0 to |rows|
      invariant forall j :: 0 <= j < i ==> !HasMissingCell(rows[j])
      invariant errors == AllRowErrors(rows[..i])
    {
      var title := rows[i].title;
      if title.None? {
        return Report(false, [MissingCell], []);
      }
      var rowErrors := if Strip(title.value) == [] then [EmptyTitle(i + 1)] else [];
      var body := rows[i].body;
      if body.None? {
        return Report(false, [MissingCell], []);
      }
      rowErrors := rowErrors + if Strip(body.value) == [] then [EmptyBody(i + 1)] else [];
      AllRowErrorsStep(rows, i);
      errors := errors + rowErrors;
    }
    assert rows[..|rows|] == rows;
    r := Report(errors == [], errors, warnings);
  }

  /** A header without title or without body gives one error, naming exactly the missing
      columns, and nothing else. */
  lemma CsvMissingColumn(header: seq<string>, rows: seq<CsvRow>, titleFirst: bool)
    requires header != []
    requires "title" !in header || "body" !in header
    ensures CsvReport(header, rows, titleFirst) == Report(false, [MissingColumns(AbsentColumns(header), titleFirst)], [])
  {
  }

  /** A header with both columns and no rows: valid, with the "no data rows" warning. */
  lemma CsvNoRows(header: seq<string>, titleFirst: bool)
    requires "title" in header && "body" in header
    ensures CsvReport(header, [], titleFirst) == Report(true, [], [NoDataRows])
  {
    assert AbsentColumns(header) == {};
  }

  /** When the header is complete and no cell is missing, row n is reported for an empty
      title exactly when its title cell is blank, the same for the body, and nothing else
      is reported. */
  lemma CsvRowReported(header: seq<string>, rows: seq<CsvRow>, titleFirst: bool, k: nat)
    requires "title" in header && "body" in header
    requires NoMissingCell(rows)
    requires k < |rows|
    ensures EmptyTitle(k + 1) in CsvReport(header, rows, titleFirst).errors
            <==> IsBlank(rows[k].title.value)
    ensures EmptyBody(k + 1) in CsvReport(header, rows, titleFirst).errors
            <==> IsBlank(rows[k].body.value)
    ensures forall e :: e in CsvReport(header, rows, titleFirst).errors ==>
              (e.EmptyTitle? || e.EmptyBody?) && 1 <= e.row <= |rows|
  {
    assert AbsentColumns(header) == {};
    TitleReported(rows, k);
    BodyReported(rows, k);
    AllRowErrorsAreRowErrors(rows);
  }

  /** A CSV file passes exactly when its header has both columns and every row has a
      non-blank title and body. */
  lemma CsvValidIff(header: seq<string>, rows: seq<CsvRow>, titleFirst: bool)
    ensures CsvReport(header, rows, titleFirst).valid
            <==> && "title" in header && "body" in header
                 && forall i :: 0 <= i < |rows| ==>
                      && !HasMissingCell(rows[i])
                      && !IsBlank(rows[i].title.value)
                      && !IsBlank(rows[i].body.value)
  {
    if "title" in header && "body" in header && NoMissingCell(rows) {
      assert AbsentColumns(header) == {};
      RowErrorsEmpty(rows);
    }
  }

  /** No row error is reported exactly when every title and every body is non-blank. */
  lemma RowErrorsEmpty(rows: seq<CsvRow>)
    requires NoMissingCell(rows)
    ensures AllRowErrors(rows) == [] <==> RowsFilled(rows)
  {
    if AllRowErrors(rows) == [] {
      NoRowErrorFilled(rows);
    }
    if RowsFilled(rows) {
      FilledNoRowError(rows);
    }
  }

  /** Every title and every body is non-blank. */
  predicate RowsFilled(rows: seq<CsvRow>)
    requires NoMissingCell(rows)
  {
    forall i :: 0 <= i < |rows| ==> !IsBlank(rows[i].title.value) && !IsBlank(rows[i].body.value)
  }

  lemma NoRowErrorFilled(rows: seq<CsvRow>)
    requires NoMissingCell(rows) && AllRowErrors(rows) == []
    ensures RowsFilled(rows)
  {
    forall i | 0 <= i < |rows|
      ensures !IsBlank(rows[i].title.value) && !IsBlank(rows[i].body.value)
    {
      TitleReported(rows, i);
      BodyReported(rows, i);
    }
  }

  lemma {:induction false} FilledNoRowError(rows: seq<CsvRow>)
    requires NoMissingCell(rows) && RowsFilled(rows)
    ensures AllRowErrors(rows) == []
  {
    if rows != [] {
      var n := |rows| - 1;
      var front := rows[..n];
      NoMissingCellPrefix(rows, n);
      assert RowsFilled(front) by {
        assert forall j :: 0 <= j < n ==> front[j] == rows[j];
      }
      FilledNoRowError(front);
      assert RowErrors(rows[n], n + 1) == [];
    }
  }
}
