# kriskrug-wp: the GitHub workflow scripts and two theme filters, in Dafny

This project models the logic of three Python scripts from the repository's
`github-workflow-automation` skill, plus two WordPress filters of the kk-aurora theme.

- **`validate_input.py`** checks an issue file before a batch run.
  - A JSON document must be a list, or a dict with an `issues` key holding a list.
  - Every issue needs a non-blank string title and body. Labels and assignees, when
    present, must be lists of strings, and a milestone must be a string.
  - A repeated title is only a warning.
  - A CSV file needs a header with `title` and `body` columns and no blank title or body
    cell.
- **`batch_create_issues.py`** loads issues from JSON or CSV and validates every one of
  them. It then calls `gh issue create` once per issue, counts successes and failures,
  and exits with 0 exactly when nothing failed. A dry run calls nothing and reports
  every issue as number 0, unless printing an issue's labels or assignees raises.
- **`create_pr_from_issue.py`** does three things:
  - it reads the comma-separated `--issue` argument;
  - it builds the pull-request title and a body with `Fixes #N` references and issue
    summaries;
  - it calls `gh pr create`.
- **`theme/kk-aurora/functions.php`** has two filters:
  - `script_loader_tag` adds `crossorigin="anonymous"` to the two GSAP scripts loaded
    from a CDN;
  - `body_classes` appends `aurora-theme` to the body classes.

The modules follow the scripts:

| module | file | contents |
|---|---|---|
| `ValidateInput` | `validate_input.dfy` | `validate_input.py` |
| `BatchCreate` | `batch_create.dfy` | `batch_create_issues.py` |
| `CreatePr` | `create_pr.dfy` | `create_pr_from_issue.py` |
| `ThemeFilters` | `theme_filters.dfy` | the two filters of `functions.php` |
| `GhCli` | `gh_cli.dfy` | the `subprocess.run` call and `try/except` that both writers share, including reading the number at the end of the printed URL |
| `PyJson` | `json_value.dfy` | JSON values as Python sees them after `json.load`: dicts as key/value lists where the last binding wins, truthiness, and Python `==` (so `True == 1 == 1.0`), used by `list.count` |
| `Text` | `text.dfy` | the string built-ins the scripts use: `str.strip`, `str.split`, `str.join`, `int()` and `str()` on integers, and PHP's `str_replace` |
| `Seqs`, `Wrappers` | `seqs.dfy`, `wrappers.dfy` | sequence lemmas, and `Option` and `Outcome` |

An uncaught Python exception ends a script with a traceback. The model writes it as
`Outcome.Raised`; `Returns(v)` is a normal return. A call to `gh` is an input to the model:
- `BatchCreate` takes a function from (call number, argument vector) to how the call ended;
- `CreatePr` takes a function from the argument vector to how the call ended.

Where a script loops while building a list, the model is a `method` with a loop, proved equal
to a function. The properties are proved about that function:
- `ValidateJson`, `ValidateCsv`;
- `LoadCsv`, `BuildIssueCommand`, `CollectValidationErrors`, `CreateAll`;
- `GeneratePrBody`.

The steps that call `gh` (`CreateIssue`, `RunBatch` and `CreatePrRun`) are methods without
a loop, each proved equal to a function in the same way.

## Model

| member | source | states |
|---|---|---|
| ValidateInput.ValidateJsonStructure | skills/github-workflow-automation/scripts/validate_input.py:15-33 | The shape is valid exactly when the document is a list, or a dict with `issues`, and the issue list is a list. The error is the shape message for other documents and the "must be an array" message for a non-list `issues`. An empty list is valid with the single "No issues found in file" error, and any other list has no error. |
| ValidateInput.RequiredFieldError | skills/github-workflow-automation/scripts/validate_input.py:42-50 | There is no error exactly when the field is present and a string that is not blank after strip. The message is "Missing '<field>'" when the field is absent and "must be non-empty string" otherwise. |
| ValidateInput.ListFieldError | skills/github-workflow-automation/scripts/validate_input.py:53-63 | There is no error exactly when the field is absent or a list of strings. The message is "must be array" for a non-list and "All <field> must be strings" for a list holding a non-string. |
| ValidateInput.MilestoneError | skills/github-workflow-automation/scripts/validate_input.py:65-67 | There is no error exactly when the milestone is absent or a string. Otherwise the one message is "'milestone' must be string". |
| ValidateInput.PresentAt | skills/github-workflow-automation/scripts/validate_input.py:41-69 | The message of a failing check comes right after those of the failing checks before it, so the errors keep the order of the checks. |
| ValidateInput.ValidateIssueFields | skills/github-workflow-automation/scripts/validate_input.py:36-69 | There is one error per failing check, in the order title, body, labels, assignees, milestone. Each is "Issue {index}: " followed by that check's own message, so at most five. There are none exactly when the issue has the accepted shape. |
| ValidateInput.IssueErrorsEmpty | skills/github-workflow-automation/scripts/validate_input.py:99-101 | The loop over a list of dicts collects no error exactly when every issue has the accepted shape. |
| ValidateInput.IssueErrorsStep | skills/github-workflow-automation/scripts/validate_input.py:99-101 | Each issue adds its own errors, numbered from 1, after those of the issues before it. |
| ValidateInput.Titles | skills/github-workflow-automation/scripts/validate_input.py:104 | There is one title per issue: the issue's own `title` value when it has one, and "" when it has none. |
| ValidateInput.JsonReport | skills/github-workflow-automation/scripts/validate_input.py:86-110 | A report that is returned is valid exactly when it has no errors. |
| ValidateInput.JsonReportParts | skills/github-workflow-automation/scripts/validate_input.py:86-110 | A document of the wrong shape gives its structure error alone, with no warning. Otherwise the run raises exactly when some issue is not a dict or a repeated title is not a string. A returned report has the structure errors followed by every issue's errors. It has the duplicate-title warning exactly when some non-empty title is repeated. |
| ValidateInput.JsonDuplicateWarning | skills/github-workflow-automation/scripts/validate_input.py:103-107 | The warning of a returned report names a title exactly when the title is non-empty and at least two issues have it. |
| ValidateInput.ValidateJson | skills/github-workflow-automation/scripts/validate_input.py:86-110 | The loop over the issues gives JsonReport, so the run raises when some issue is not a dict. |
| ValidateInput.JsonValidIff | skills/github-workflow-automation/scripts/validate_input.py:86-110 | A parsed document passes exactly when it names a non-empty list of issues that all have the accepted shape. Duplicate titles never make it fail. |
| ValidateInput.JsonValidOnlyIf | skills/github-workflow-automation/scripts/validate_input.py:86-110 | A document that passes names a non-empty list of issues of the accepted shape. |
| ValidateInput.JsonValidIf | skills/github-workflow-automation/scripts/validate_input.py:86-110 | Such a document returns a report and passes. |
| ValidateInput.NoDuplicateRaiseWhenValid | skills/github-workflow-automation/scripts/validate_input.py:104-107 | When every issue has the accepted shape, every title is a string, so `set()` and `', '.join` cannot raise. |
| ValidateInput.JsonEmptyIssues | skills/github-workflow-automation/scripts/validate_input.py:30-31 | An empty issue list gives exactly the report (False, ["No issues found in file"], []). |
| ValidateInput.DuplicateSetExact | skills/github-workflow-automation/scripts/validate_input.py:104-107 | The warning names a title exactly when it is non-empty and at least two issues have that title. |
| ValidateInput.RowMessagesDistinct | skills/github-workflow-automation/scripts/validate_input.py:137-140 | Two row messages are equal only for the same row and the same column. |
| ValidateInput.AbsentColumns | skills/github-workflow-automation/scripts/validate_input.py:126-127 | The missing columns are among title and body, and each is missing exactly when the header lacks it. |
| ValidateInput.RowErrors | skills/github-workflow-automation/scripts/validate_input.py:137-140 | A row reports an empty title exactly when its title cell is blank, and the same for the body. Nothing else is reported: one error per blank cell, the title's first and the body's last. |
| ValidateInput.AllRowErrorsStep | skills/github-workflow-automation/scripts/validate_input.py:136-140 | Each row adds its own errors, numbered from 1, after those of the rows before it. |
| ValidateInput.TitleReported | skills/github-workflow-automation/scripts/validate_input.py:136-138 | "Row k: Empty title" is reported exactly when row k exists and its title is blank. |
| ValidateInput.BodyReported | skills/github-workflow-automation/scripts/validate_input.py:136-140 | "Row k: Empty body" is reported exactly when row k exists and its body is blank. |
| ValidateInput.AllRowErrorsAreRowErrors | skills/github-workflow-automation/scripts/validate_input.py:136-140 | Every row error is an empty-title or empty-body error for an existing row. |
| ValidateInput.CsvReport | skills/github-workflow-automation/scripts/validate_input.py:122-146 | The report is valid exactly when it has no errors. |
| ValidateInput.ValidateCsv | skills/github-workflow-automation/scripts/validate_input.py:122-146 | The checks and the loop over the rows give CsvReport. The loop stops with the caught `None.strip()` error at the first missing cell. |
| ValidateInput.CsvMissingColumn | skills/github-workflow-automation/scripts/validate_input.py:126-129 | A header without title or without body gives the single "Missing required columns" error, naming the missing columns, and no warning. |
| ValidateInput.CsvNoRows | skills/github-workflow-automation/scripts/validate_input.py:132-134 | A complete header with no rows is valid, with the "No data rows found in CSV" warning. |
| ValidateInput.CsvRowReported | skills/github-workflow-automation/scripts/validate_input.py:136-140 | With a complete header and no missing cell, row k is reported for an empty title exactly when its title is blank, and the same for the body. Every error is such a row error. |
| ValidateInput.CsvValidIff | skills/github-workflow-automation/scripts/validate_input.py:113-146 | A CSV file passes exactly when its header has both columns and every row has a non-blank title and body cell. |
| ValidateInput.RowErrorsEmpty | skills/github-workflow-automation/scripts/validate_input.py:136-145 | The rows give no error exactly when every title and body is non-blank. |
| BatchCreate.LoadJson | skills/github-workflow-automation/scripts/batch_create_issues.py:16-27 | A document loads exactly when it is a dict with `issues` or a list, and it then yields the same issue value as the validator. Other documents raise ValueError. |
| BatchCreate.LoadJsonAgreesWithValidator | skills/github-workflow-automation/scripts/batch_create_issues.py:16-27 | `load_json` yields a list exactly when `validate_json_structure` finds the shape valid. |
| BatchCreate.TextField | skills/github-workflow-automation/scripts/batch_create_issues.py:68-72 | An absent field reads as "". A string field reads as itself. |
| BatchCreate.ListField | skills/github-workflow-automation/scripts/batch_create_issues.py:70-71 | An absent list and a falsy value read as []. A list of strings reads as those strings, in order. A truthy value converts exactly when it is a list of strings. |
| BatchCreate.FalsyListField | skills/github-workflow-automation/scripts/batch_create_issues.py:70-94 | A falsy labels or assignees value gives no names. When it is None, False or 0, the issue is not joinable. |
| BatchCreate.AcceptedIssueConverts | skills/github-workflow-automation/scripts/batch_create_issues.py:53-63 | An issue that `validate_input` accepts converts, keeps its title and body, is joinable, and passes `validate_issue`. |
| BatchCreate.AcceptedIssuesConvert | skills/github-workflow-automation/scripts/batch_create_issues.py:53-63 | Every issue of an accepted list converts and passes `validate_issue`. |
| BatchCreate.JsonIssues | skills/github-workflow-automation/scripts/batch_create_issues.py:16-27 | Issue i is item i of the loaded list, converted. There are none exactly when loading fails, the loaded value is not a list, or some item does not convert. |
| BatchCreate.AcceptedListConverts | skills/github-workflow-automation/scripts/batch_create_issues.py:16-27 | A loaded list of accepted issues converts to issues that all pass `validate_issue`. |
| BatchCreate.AcceptedFileLoads | skills/github-workflow-automation/scripts/batch_create_issues.py:148-172 | A JSON file that `validate_input` accepts loads as a non-empty list and gets through `main`'s validation pass without a message. |
| BatchCreate.SplitCell | skills/github-workflow-automation/scripts/batch_create_issues.py:36-46 | A missing or empty cell gives []. Otherwise name i is piece i of the split on ",", stripped, and there is one name per piece: the number of commas plus one. Each name has no comma and is stripped. |
| BatchCreate.SplitCellPieces | skills/github-workflow-automation/scripts/batch_create_issues.py:38 | The pieces of a non-empty cell join back into the cell with ",", none holds a comma, and the names are those pieces stripped. |
| BatchCreate.StrippedPieces | skills/github-workflow-automation/scripts/batch_create_issues.py:38 | Stripping a piece without a comma gives a stripped piece without a comma. |
| BatchCreate.SplitCellJoin | skills/github-workflow-automation/scripts/batch_create_issues.py:38 | Stripped names without commas, joined with ",", split back into the same names. |
| BatchCreate.SplitCellOf | skills/github-workflow-automation/scripts/batch_create_issues.py:38 | A cell whose comma-separated pieces are already stripped splits into exactly those pieces. |
| BatchCreate.NamesCellSplit | skills/github-workflow-automation/scripts/batch_create_issues.py:37-46 | Non-empty, stripped names without commas, joined with ",", split back into the same names; no names give an empty cell and an empty list. |
| BatchCreate.RowToIssueRoundTrip | skills/github-workflow-automation/scripts/batch_create_issues.py:35-48 | The CSV row of an issue, with its names joined by commas, converts back to the same issue when the names are non-empty, stripped and comma-free, and the issue is joinable, as every CSV issue is. |
| BatchCreate.LoadCsv | skills/github-workflow-automation/scripts/batch_create_issues.py:30-50 | There is one issue per row, in order, each converted from its row. |
| BatchCreate.ValidateIssue | skills/github-workflow-automation/scripts/batch_create_issues.py:53-63 | There is no error exactly when the title and the body are non-empty. That is one error per empty field, with the title error first and the body error last. |
| BatchCreate.ValidationMessages | skills/github-workflow-automation/scripts/batch_create_issues.py:162-166 | There is at most one message per issue. |
| BatchCreate.ValidationMessagesEmpty | skills/github-workflow-automation/scripts/batch_create_issues.py:162-168 | There is no validation message exactly when every issue passes `validate_issue`. |
| BatchCreate.ValidationMessagesCount | skills/github-workflow-automation/scripts/batch_create_issues.py:162-166 | There is exactly one message per failing issue. |
| BatchCreate.ValidationMessageAt | skills/github-workflow-automation/scripts/batch_create_issues.py:162-166 | The message of failing issue i is "Issue {i + 1}: " followed by its errors joined with ", ", placed after the messages of the failing issues before it. |
| BatchCreate.CollectValidationErrors | skills/github-workflow-automation/scripts/batch_create_issues.py:162-166 | The validation loop gives ValidationMessages. |
| BatchCreate.FlagPairs | skills/github-workflow-automation/scripts/batch_create_issues.py:80-86 | Each value is preceded by the flag, in order, so there are twice as many words as values. |
| BatchCreate.FlagPairsStep | skills/github-workflow-automation/scripts/batch_create_issues.py:81-82 | Each further value adds the flag and the value at the end. |
| BatchCreate.IssueCommandShape | skills/github-workflow-automation/scripts/batch_create_issues.py:74-89 | The `gh issue create` argument vector has the stated length. It starts with the title and body words, then `--repo` when a repo is given, and ends with `--milestone` when a milestone is given. |
| BatchCreate.IssueCommandPairs | skills/github-workflow-automation/scripts/batch_create_issues.py:80-86 | After the repo come the label pairs, and then the assignee pairs. |
| BatchCreate.BuildIssueCommand | skills/github-workflow-automation/scripts/batch_create_issues.py:74-89 | Extending the list step by step gives IssueCommand. |
| BatchCreate.IssueResult | skills/github-workflow-automation/scripts/batch_create_issues.py:91-117 | A returned result keeps the title. A dry run raises exactly when the issue is not joinable; otherwise it returns number 0 and url "dry-run" without a success key, which counts as success. Otherwise the call raises exactly when gh cannot be started or its output does not end in a number, and the result is a success exactly when gh exits with 0. |
| BatchCreate.CreateIssue | skills/github-workflow-automation/scripts/batch_create_issues.py:66-117 | It builds the command and calls gh only outside a dry run, giving IssueResult. |
| BatchCreate.CreatedIssueNumber | skills/github-workflow-automation/scripts/batch_create_issues.py:99-111 | A gh that prints ".../N" gives a successful result with number N and the stripped URL. |
| BatchCreate.Attempts | skills/github-workflow-automation/scripts/batch_create_issues.py:179-181 | There is one attempt per issue. |
| BatchCreate.Results | skills/github-workflow-automation/scripts/batch_create_issues.py:179-182 | A run that gets through has one result per issue. |
| BatchCreate.ResultsAt | skills/github-workflow-automation/scripts/batch_create_issues.py:179-182 | Result i is what creating issue i with the i-th gh call gives. |
| BatchCreate.SuccessCount | skills/github-workflow-automation/scripts/batch_create_issues.py:184-185 | There are at most as many successes as results. |
| BatchCreate.FailureCount | skills/github-workflow-automation/scripts/batch_create_issues.py:188-189 | There are at most as many failures as results. |
| BatchCreate.CountsStep | skills/github-workflow-automation/scripts/batch_create_issues.py:184-189 | Each result adds one to exactly one of the two counts. |
| BatchCreate.CountsAddUp | skills/github-workflow-automation/scripts/batch_create_issues.py:175-197 | Successes plus failures is the number of results. |
| BatchCreate.NoFailureIff | skills/github-workflow-automation/scripts/batch_create_issues.py:212 | There is no failure exactly when every result is a success. |
| BatchCreate.CreateAll | skills/github-workflow-automation/scripts/batch_create_issues.py:175-190 | The creation loop raises exactly when some creation raises. Otherwise it gives Results and counts them with SuccessCount and FailureCount. |
| BatchCreate.RunBatch | skills/github-workflow-automation/scripts/batch_create_issues.py:161-212 | The validation pass and then the creation pass give Batch. |
| BatchCreate.BatchAbortsIff | skills/github-workflow-automation/scripts/batch_create_issues.py:161-172 | The run stops before creating anything exactly when some issue lacks a title or body. It then prints one message per such issue. |
| BatchCreate.BatchTally | skills/github-workflow-automation/scripts/batch_create_issues.py:175-212 | A finished run attempted every issue in order and counted each once. It exits with 0 exactly when every result is a success. |
| BatchCreate.DryRunSucceeds | skills/github-workflow-automation/scripts/batch_create_issues.py:91-97 | A dry run of valid, joinable issues finishes with every issue successful, none failed, and exit status 0. |
| BatchCreate.DryRunCrashes | skills/github-workflow-automation/scripts/batch_create_issues.py:93-94 | A dry run of valid issues, one of which is not joinable, ends in an uncaught exception with exit status 1. |
| BatchCreate.DryRunReturns | skills/github-workflow-automation/scripts/batch_create_issues.py:91-97 | A dry run raises exactly when some issue is not joinable. |
| GhCli.UrlNumberOf | skills/github-workflow-automation/scripts/batch_create_issues.py:104-107 | For a URL ending in "/N", `int(url.split('/')[-1])` reads back N. |
| GhCli.Interpret | skills/github-workflow-automation/scripts/create_pr_from_issue.py:97-115 | The call raises exactly when gh cannot be started or its output does not end in a number, since only CalledProcessError is caught. Success carries the number, the stripped URL and the title. A non-zero exit carries the stderr text and success False. |
| GhCli.InterpretCreated | skills/github-workflow-automation/scripts/create_pr_from_issue.py:97-109 | Output ".../N\n" gives success with number N and the URL without the newline. |
| GhCli.StripNewline | skills/github-workflow-automation/scripts/create_pr_from_issue.py:99 | strip() removes the trailing newline of an output with no space at either end. |
| CreatePr.Summary | skills/github-workflow-automation/scripts/create_pr_from_issue.py:59-63 | A body of at most 200 characters is kept. A longer one becomes its first 200 characters and "...". |
| CreatePr.Sections | skills/github-workflow-automation/scripts/create_pr_from_issue.py:55-63 | The sections have four lines per issue. |
| CreatePr.GeneratePrBody | skills/github-workflow-automation/scripts/create_pr_from_issue.py:29-65 | Appending the parts one at a time and joining them with newlines gives PrBody. |
| CreatePr.SingleIssueBody | skills/github-workflow-automation/scripts/create_pr_from_issue.py:29-65 | For one issue the body is the optional custom text, then "Fixes #N", "## Issue Summary" and the issue's full body, separated by blank lines. |
| CreatePr.CustomBodyFirst | skills/github-workflow-automation/scripts/create_pr_from_issue.py:33-36 | A custom body is the body without it, preceded by the custom text and a blank line. |
| CreatePr.MultiIssueLayout | skills/github-workflow-automation/scripts/create_pr_from_issue.py:39-58 | For zero or several issues the body has 3 + 5n parts after the custom lines. The multi-issue header comes first, then a blank line after the n references, then the "## Issues Summary" header. |
| CreatePr.MultiIssueBlocks | skills/github-workflow-automation/scripts/create_pr_from_issue.py:42-63 | The references are one "- Fixes #N" per issue, in order, and the parts end with one section per issue. |
| CreatePr.MultiIssueSection | skills/github-workflow-automation/scripts/create_pr_from_issue.py:55-63 | The section of issue k is the k-th block of four lines after the summary header. |
| CreatePr.MultiIssueSectionLines | skills/github-workflow-automation/scripts/create_pr_from_issue.py:55-63 | That block is a blank line, "### #N: title", a blank line and the summary of the issue's description. |
| CreatePr.SummaryOneLine | skills/github-workflow-automation/scripts/create_pr_from_issue.py:59-63 | Cutting a one-line body keeps it one line. |
| CreatePr.SectionOneLine | skills/github-workflow-automation/scripts/create_pr_from_issue.py:56-63 | A section of an issue with a one-line title and body is one-line parts. |
| CreatePr.ReferencesOneLine | skills/github-workflow-automation/scripts/create_pr_from_issue.py:39-44 | The reference parts have no newline. |
| CreatePr.SummariesOneLine | skills/github-workflow-automation/scripts/create_pr_from_issue.py:49-63 | The summary parts of one-line issues have no newline. |
| CreatePr.PartsOneLine | skills/github-workflow-automation/scripts/create_pr_from_issue.py:29-63 | Every part is one line when the custom body, the titles and the bodies are. |
| CreatePr.BodyLines | skills/github-workflow-automation/scripts/create_pr_from_issue.py:65 | When its inputs have no newline, the body splits on newlines back into its parts. There are 5 lines for one issue and 3 + 5n for n others, plus 2 for a custom body. |
| CreatePr.PrTitle | skills/github-workflow-automation/scripts/create_pr_from_issue.py:78-83 | A given title is used as it is. |
| CreatePr.DefaultTitleCount | skills/github-workflow-automation/scripts/create_pr_from_issue.py:82-83 | Two default multi-issue titles are equal only for equally many issues. |
| CreatePr.DefaultTitleMulti | skills/github-workflow-automation/scripts/create_pr_from_issue.py:82-83 | The default title of any number of issues other than one is "Fix multiple issues (", then the number of issues as `int()` reads it back, then " issues)". |
| CreatePr.DefaultTitleSingle | skills/github-workflow-automation/scripts/create_pr_from_issue.py:80-81 | The default title of a single issue is "Fix: " followed by its title. |
| CreatePr.PrCommand | skills/github-workflow-automation/scripts/create_pr_from_issue.py:88-95 | The argument vector has 9 words, 2 more with a repo and 1 more for a draft. |
| CreatePr.PrCommandRoundTrip | skills/github-workflow-automation/scripts/create_pr_from_issue.py:88-95 | The title, body, base, repo and draft flag are all read back from the argument vector. |
| CreatePr.CreatePrRun | skills/github-workflow-automation/scripts/create_pr_from_issue.py:68-115 | It builds the title, the body and the vector, calls gh with them, and interprets the result. |
| CreatePr.CreatedPrNumber | skills/github-workflow-automation/scripts/create_pr_from_issue.py:97-109 | A gh that prints ".../N" gives a successful result with number N and the PR title. |
| CreatePr.Collect | skills/github-workflow-automation/scripts/create_pr_from_issue.py:133 | A list that is built has one value per piece. |
| CreatePr.CollectSome | skills/github-workflow-automation/scripts/create_pr_from_issue.py:133-136 | The list is built exactly when every piece converts. |
| CreatePr.CollectAt | skills/github-workflow-automation/scripts/create_pr_from_issue.py:133 | Element k of the list is the value of piece k. |
| CreatePr.CollectMap | skills/github-workflow-automation/scripts/create_pr_from_issue.py:133 | Mapping and collecting succeeds exactly when every element converts, and then keeps their values in order. |
| CreatePr.CollectMapAll | skills/github-workflow-automation/scripts/create_pr_from_issue.py:133 | When every element converts to the matching value, the collected list is those values. |
| CreatePr.IssueNumbersPieces | skills/github-workflow-automation/scripts/create_pr_from_issue.py:133-136 | `--issue` gives one number per comma-separated piece, exactly when every stripped piece is an integer literal. Each number is its piece's value. |
| CreatePr.PieceValueDecimal | skills/github-workflow-automation/scripts/create_pr_from_issue.py:133 | `int(str(n).strip())` is n. |
| CreatePr.IssueNumbersRoundTrip | skills/github-workflow-automation/scripts/create_pr_from_issue.py:133 | Numbers joined with commas are read back as the same numbers. |
| ThemeFilters.ScriptLoaderTag | theme/kk-aurora/functions.php:196-205 | Any handle but "gsap" and "gsap-scrolltrigger" leaves the tag as it is. For those two, the tag grows by 24 characters per occurrence of " src". |
| ThemeFilters.NoSrcUnchanged | theme/kk-aurora/functions.php:200-202 | A tag without " src" is returned unchanged. |
| ThemeFilters.CrossoriginRemoved | theme/kk-aurora/functions.php:201 | The new tag and the old tag are the same pieces, between the occurrences of " src". The new tag joins them with ' crossorigin="anonymous" src' and the old tag with " src". |
| ThemeFilters.CrossoriginReplacedBack | theme/kk-aurora/functions.php:196-205 | For a CDN handle, replacing every ' crossorigin="anonymous" src' in the filtered tag by " src" gives back the original tag, whatever it held. |
| Text.SplitPiecesLack | theme/kk-aurora/functions.php:201 | No piece of a split holds the separator at any position. |
| ThemeFilters.BodyClasses | theme/kk-aurora/functions.php:211-219 | The result is the existing classes, in order, followed by "aurora-theme". |
| Text.Strip | skills/github-workflow-automation/scripts/validate_input.py:44 | strip() leaves nothing exactly for a blank string. Otherwise the result begins and ends with a non-space. |
| Text.StripPlace | skills/github-workflow-automation/scripts/validate_input.py:44 | The stripped text is the original with only blank text removed before and after it. |
| Text.StripIdempotent | skills/github-workflow-automation/scripts/batch_create_issues.py:38 | Stripping twice is stripping once. |
| Text.Split | skills/github-workflow-automation/scripts/batch_create_issues.py:38 | There is one more piece than there are occurrences of the separator. |
| Text.JoinSplit | skills/github-workflow-automation/scripts/create_pr_from_issue.py:133 | Joining the pieces of a split with the separator gives back the string. |
| Text.SplitJoin | skills/github-workflow-automation/scripts/create_pr_from_issue.py:65 | Pieces without the character, joined with it, split back into the same pieces. |
| Text.ReplaceAllIsSplitJoin | theme/kk-aurora/functions.php:201 | A left-to-right `str_replace` is the split on the search joined with the replacement. |
| Text.ReplaceAllLength | theme/kk-aurora/functions.php:201 | Each replaced occurrence changes the length by the difference of the two lengths. |
| Text.ParseIntToString | skills/github-workflow-automation/scripts/batch_create_issues.py:107 | `int(str(n))` is n, for negative n too. |
| Text.IntToStringInjective | skills/github-workflow-automation/scripts/create_pr_from_issue.py:83 | Different numbers have different decimal texts. |
| PyJson.PyCountString | skills/github-workflow-automation/scripts/validate_input.py:105 | `titles.count(s)` for a string s is the number of positions that hold s. |
| PyJson.KeyIndex | skills/github-workflow-automation/scripts/validate_input.py:42 | The lookup finds the last binding of the key, and finds none exactly when the key is absent. |
| PyJson.Get | skills/github-workflow-automation/scripts/validate_input.py:44 | A dict gives a value exactly for a key it has. |

## Left out

- Reading the files, `json.load` and `csv.DictReader` are left out. The model starts from
  the parsed document or from the cells a CSV row gives for the columns the scripts read.
  Other columns of a row are not modelled.
- Invalid JSON, a missing file and an unreadable file are left out: the `try` around
  loading, and the error messages it prints.
- `argparse`, choosing the format from the file suffix, printing, `sys.exit` and the
  `--output` file are left out. The exit status of batch creation is modelled as
  `ExitStatus`.
- `subprocess.run` and the `gh` CLI are left out. How each call ends is an input.
- `get_issue_details` and the loop in `create_pr_from_issue.py` `main` that fetches the
  issues are left out. The issues are an input, as `IssueDetails`.
- JSON numbers are real numbers. NaN and Infinity, which Python's `json` accepts, are
  not modelled.
- `int()` is modelled for ASCII digits, signs, surrounding whitespace and underscores
  between digits. Other Unicode digits are not modelled.
- `str.strip` and `int()` take as whitespace the characters for which `str.isspace()`
  holds, as listed in `Text.IsSpace`.
- An issue that is not a dict makes `validate_json` raise. Depending on its type, this
  happens inside the field checks or at the title list on line 104. The model gives
  `Raised` for either, without saying which.
- The texts of the duplicate-title warning and of the missing-columns error depend on
  Python's set iteration order, which string hashing decides.
  - The warning keeps the set of titles instead of its text.
  - The missing-columns error takes the order as a parameter.
- An issue of batch creation is a record of strings, string lists and a flag `joinable`.
  JSON field values become these as follows.
  - Title, body and milestone: an absent field and every falsy value (null, false, 0,
    "", [], {}) read as "". This is faithful. `validate_issue` reports a falsy title or
    body as missing, and `if milestone:` skips a falsy milestone in the command and in
    the dry run.
  - Labels and assignees: an absent field and every falsy value read as [], since
    `if labels:` adds no flag for any of them. null, false and 0 also make `joinable`
    false, because the dry run's `', '.join` raises a TypeError on them. "", [] and {}
    join to "", so they print like [].
  - `AcceptedIssueConverts` shows that every issue `validate_input` accepts is converted
    and joinable.
- ToIssue: gives None, so no batch runs, for a truthy field value of another type: a
  number or a list or dict as a text field, or a string, a dict or a list with a
  non-string as a list field. The script does otherwise. It puts such a value into the
  command, where `subprocess.run` raises for a non-string, and it iterates a string or a
  dict as the names.
- An issue body of `None` from `gh`, which would make `"\n".join` raise, is not modelled.
  Body is either absent or a string.
- A title, body or repo argument passed as `None` equals one passed as "", since the
  scripts test them for truth.
- `JsonIssues` gives None, so no batch runs, for a document whose `issues` value is not a
  list or holds an issue that is not a dict. `batch_create_issues.py` does otherwise: its
  `load_json` (lines 23 and 25) returns such a value as it is, the count printed at line 159
  raises for a number, a dict or string is iterated as the issues, and the validation loop
  (lines 162-166) raises or prints validation messages for an issue that is not a dict,
  depending on its type.
- PHP strings are bytes. The model works on characters, so the length in
  `ThemeFilters.ScriptLoaderTag` counts characters.
- The rest of `functions.php` is not part of this model: theme setup, enqueueing, block
  styles and patterns. Neither are the theme's JavaScript, the block patterns and the
  `fixes/` files.
