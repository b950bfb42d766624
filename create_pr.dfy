/** create_pr_from_issue.py: the pull-request body and title built from the issues it
    fixes, the gh pr create argument vector, and the parse of the --issue argument.
    Fetching the issues (gh issue view) is not modelled: the issues are an input. */
module CreatePr {
  import opened Wrappers
  import opened Text
  import opened GhCli
  import Seqs

  /** What gh issue view --json number,title,body gives for one issue; body is None where
      the dict has no body key. */
  datatype IssueDetails = IssueDetails(number: int, title: string, body: Option<string>)

  const MultiHeader := "This PR addresses multiple issues:"
  const SingleSummaryHeader := "## Issue Summary"
  const MultiSummaryHeader := "## Issues Summary"

  /** issue.get('body', 'No description'). */
  function Description(issue: IssueDetails): string {
    issue.body.GetOr("No description")
  }

  // ---------------------------------------------------------------------------------------
  // generate_pr_body
  // ---------------------------------------------------------------------------------------

  /** The multi-issue summary keeps a body of at most 200 characters and cuts a longer one
      to its first 200 characters followed by "...". */
  function Summary(body: string): (s: string)
    ensures |s| <= 203
    ensures |body| <= 200 ==> s == body
    ensures |body| > 200 ==> |s| == 203 && s[..200] == body[..200] && s[200..] == "..."
  {
    if |body| > 200 then body[..200] + "..." else body
  }

  /** The custom body and the empty line after it, or nothing when no custom body (None or
      "") is given. */
  function CustomLines(custom: string): (lines: seq<string>)
    ensures custom == [] ==> lines == []
    ensures custom != [] ==> lines == [custom, ""]
  {
    if custom != [] then [custom, ""] else []
  }

  /** f"- Fixes #{issue['number']}". */
  function FixLine(issue: IssueDetails): string {
    "- Fixes #" + IntToString(issue.number)
  }

  /** The four parts generate_pr_body appends for each issue of a multi-issue body. */
  function SectionLines(issue: IssueDetails): (lines: seq<string>)
    ensures |lines| == 4
  {
    ["", "### #" + IntToString(issue.number) + ": " + issue.title, "", Summary(Description(issue))]
  }

  /** The issue references: "Fixes #N" for one issue, otherwise a header and one
      "- Fixes #N" line per issue. */
  function References(issues: seq<IssueDetails>): seq<string> {
    if |issues| == 1 then ["Fixes #" + IntToString(issues[0].number)]
    else [MultiHeader] + Seqs.Map(FixLine, issues)
  }

  /** The sections of all issues, one after the other. */
  function Sections(issues: seq<IssueDetails>): (lines: seq<string>)
    ensures |lines| == 4 * |issues|
  {
    Seqs.FlatMapLength(SectionLines, issues, 4);
    Seqs.FlatMap(SectionLines, issues)
  }

  /** The summaries: the full body of a single issue, otherwise a header and a section
      per issue. */
  function Summaries(issues: seq<IssueDetails>): seq<string> {
    if |issues| == 1 then [SingleSummaryHeader, "", Description(issues[0])]
    else [MultiSummaryHeader] + Sections(issues)
  }

  /** body_parts as generate_pr_body leaves it. */
  function PrBodyParts(issues: seq<IssueDetails>, custom: string): seq<string> {
    CustomLines(custom) + References(issues) + [""] + Summaries(issues)
  }

  /** The text generate_pr_body returns: its parts joined with newlines. */
  function PrBody(issues: seq<IssueDetails>, custom: string): string {
    Join(PrBodyParts(issues, custom), "\n")
  }

  /** generate_pr_body, appending the parts one at a time. */
  method GeneratePrBody(issues: seq<IssueDetails>, custom: string) returns (text: string)
    ensures text == PrBody(issues, custom)
  {
    var parts: seq<string> := [];
    if custom != [] {
      parts := parts + [custom];
      parts := parts + [""];
    }
    assert parts == CustomLines(custom);
    ghost var lead := parts;
    if |issues| == 1 {
      parts := parts + ["Fixes #" + IntToString(issues[0].number)];
    } else {
      parts := parts + [MultiHeader];
      var head := parts;
      for i := 0 to |issues|
        invariant parts == head + Seqs.Map(FixLine, issues[..i])
      {
        Seqs.MapStep(FixLine, issues, i);
        Seqs.AppendAssoc(head, Seqs.Map(FixLine, issues[..i]), [FixLine(issues[i])]);
        parts := parts + [FixLine(issues[i])];
      }
      assert issues[..|issues|] == issues;
      Seqs.AppendAssoc(lead, [MultiHeader], Seqs.Map(FixLine, issues));
    }
    assert parts == lead + References(issues);
    parts := parts + [""];
    ghost var front := parts;
    if |issues| == 1 {
      parts := parts + [SingleSummaryHeader];
      parts := parts + [""];
      parts := parts + [Description(issues[0])];
      assert parts == front + [SingleSummaryHeader, "", Description(issues[0])];
    } else {
      parts := parts + [MultiSummaryHeader];
      var head := parts;
      for i := 0 to |issues|
        invariant parts == head + Seqs.FlatMap(SectionLines, issues[..i])
      {
        Seqs.FlatMapStep(SectionLines, issues, i);
        var lines := SectionLines(issues[i]);
        Seqs.AppendAssoc(head, Seqs.FlatMap(SectionLines, issues[..i]), lines);
        parts := parts + [lines[0]];
        parts := parts + [lines[1]];
        parts := parts + [lines[2]];
        Seqs.AppendFour(head + Seqs.FlatMap(SectionLines, issues[..i]), lines);
        parts := parts + [lines[3]];
      }
      assert issues[..|issues|] == issues;
      Seqs.AppendAssoc(front, [MultiSummaryHeader], Sections(issues));
    }
    assert parts == front + Summaries(issues);
    text := Join(parts, "\n");
  }

  /** A single issue: "Fixes #N", an empty line, the summary header, an empty line, and
      the issue's body in full, after the custom body and an empty line if one is given. */
  lemma SingleIssueBody(issue: IssueDetails, custom: string)
    ensures PrBody([issue], custom)
            == (if custom != [] then custom + "\n\n" else "")
               + ("Fixes #" + IntToString(issue.number) + "\n\n"
                  + (SingleSummaryHeader + "\n\n" + Description(issue)))
  {
    var fixes := "Fixes #" + IntToString(issue.number);
    var desc := Description(issue);
    var rest := [fixes, "", SingleSummaryHeader, "", desc];
    assert PrBodyParts([issue], custom) == CustomLines(custom) + rest;
    var sep := "\n";
    assert sep + sep == "\n\n";
    JoinBlankAfter(fixes, [SingleSummaryHeader, "", desc], sep);
    JoinBlankAfter(SingleSummaryHeader, [desc], sep);
    assert Join([desc], sep) == desc;
    assert Join(rest, sep) == fixes + "\n\n" + (SingleSummaryHeader + "\n\n" + desc);
    if custom != [] {
      JoinBlankAfter(custom, rest, sep);
      assert [custom, ""] + rest == CustomLines(custom) + rest;
    } else {
      assert CustomLines(custom) + rest == rest;
    }
  }

  /** A non-empty custom body comes first and is followed by one empty line; the rest is
      the body generated without it. */
  lemma CustomBodyFirst(issues: seq<IssueDetails>, custom: string)
    requires custom != []
    ensures PrBody(issues, custom) == custom + "\n\n" + PrBody(issues, "")
  {
    var refs := References(issues);
    var sums := Summaries(issues);
    var rest := refs + [""] + sums;
    Seqs.AppendAssoc([custom, ""], refs, [""]);
    Seqs.AppendAssoc([custom, ""], refs + [""], sums);
    assert PrBodyParts(issues, custom) == [custom, ""] + rest;
    assert PrBodyParts(issues, "") == rest;
    JoinBlankAfter(custom, rest, "\n");
  }

  /** With no issue or several, the parts are the custom lines, the multi-issue header, one
      line per issue, an empty line, the summary header, and four lines per issue. */
  lemma MultiIssueLayout(issues: seq<IssueDetails>, custom: string)
    requires |issues| != 1
    ensures var p := PrBodyParts(issues, custom);
            var c := |CustomLines(custom)|;
            var n := |issues|;
            && |p| == c + 3 + 5 * n
            && p[c] == MultiHeader
            && p[c + 1 + n] == ""
            && p[c + 2 + n] == MultiSummaryHeader
  {
    var cl := CustomLines(custom);
    var refs := [MultiHeader] + Seqs.Map(FixLine, issues);
    var x := cl + refs + [""];
    Seqs.Parts(x, [MultiSummaryHeader] + Sections(issues));
    Seqs.Parts(cl + refs, [""]);
    Seqs.Parts(cl, refs);
  }

  /** With no issue or several, the lines after the multi-issue header are the "- Fixes #N"
      lines of the issues in order, and the lines after the summary header are their
      sections in order. */
  lemma MultiIssueBlocks(issues: seq<IssueDetails>, custom: string)
    requires |issues| != 1
    ensures var p := PrBodyParts(issues, custom);
            var c := |CustomLines(custom)|;
            var n := |issues|;
            && c + 3 + n <= |p|
            && p[c + 1..c + 1 + n] == Seqs.Map(FixLine, issues)
            && p[c + 3 + n..] == Sections(issues)
  {
    var p := PrBodyParts(issues, custom);
    var cl := CustomLines(custom);
    var fixes := Seqs.Map(FixLine, issues);
    var pre := cl + [MultiHeader];
    var post := [""] + Summaries(issues);
    assert p == pre + fixes + post by {
      Seqs.AppendAssoc(cl, [MultiHeader], fixes);
    }
    Seqs.Middle(pre, fixes, post);
    var front := cl + References(issues) + [""] + [MultiSummaryHeader];
    assert p == front + Sections(issues) by {
      Seqs.AppendAssoc(cl + References(issues) + [""], [MultiSummaryHeader], Sections(issues));
    }
    Seqs.Rest(front, Sections(issues));
  }

  /** With no issue or several, the section of issue k is lines 4k to 4k + 3 after the
      summary header. */
  lemma MultiIssueSection(issues: seq<IssueDetails>, custom: string, k: nat)
    requires |issues| != 1 && k < |issues|
    ensures var p := PrBodyParts(issues, custom);
            var o := |CustomLines(custom)| + 3 + |issues| + 4 * k;
            o + 4 <= |p| && p[o..o + 4] == SectionLines(issues[k])
  {
    var p := PrBodyParts(issues, custom);
    var start := |CustomLines(custom)| + 3 + |issues|;
    MultiIssueBlocks(issues, custom);
    assert p[start..] == Seqs.FlatMap(SectionLines, issues);
    Seqs.FlatMapChunk(p, start, SectionLines, issues, 4, k);
    assert p[start + 4 * k..start + 4 * k + 4] == SectionLines(issues[k]);
  }

  /** The lines of that section: a blank line, "### #N: title", a blank line and the
      summary of the issue's description. */
  lemma MultiIssueSectionLines(issues: seq<IssueDetails>, custom: string, k: nat)
    requires |issues| != 1 && k < |issues|
    ensures var p := PrBodyParts(issues, custom);
            var o := |CustomLines(custom)| + 3 + |issues| + 4 * k;
            && o + 4 <= |p|
            && p[o] == "" && p[o + 2] == ""
            && p[o + 1] == "### #" + IntToString(issues[k].number) + ": " + issues[k].title
            && p[o + 3] == Summary(Description(issues[k]))
  {
    var p := PrBodyParts(issues, custom);
    var o := |CustomLines(custom)| + 3 + |issues| + 4 * k;
    MultiIssueSection(issues, custom, k);
    Seqs.FourAt(p, o, SectionLines(issues[k]));
  }

  /** No newline in a string. */
  predicate OneLine(s: string) {
    '\n' !in s
  }

  /** The texts generate_pr_body puts in: the custom body, the titles and the bodies. */
  predicate InputsOneLine(issues: seq<IssueDetails>, custom: string) {
    && OneLine(custom)
    && forall i :: 0 <= i < |issues| ==> OneLine(issues[i].title) && OneLine(Description(issues[i]))
  }

  lemma SummaryOneLine(body: string)
    requires OneLine(body)
    ensures OneLine(Summary(body))
  {
    if |body| > 200 {
      assert body == body[..200] + body[200..];
    }
  }

  lemma SectionOneLine(issue: IssueDetails)
    requires OneLine(issue.title) && OneLine(Description(issue))
    ensures Seqs.Every(OneLine, SectionLines(issue))
  {
    IntToStringWithout(issue.number, '\n');
    SummaryOneLine(Description(issue));
  }

  lemma ReferencesOneLine(issues: seq<IssueDetails>)
    ensures Seqs.Every(OneLine, References(issues))
  {
    if |issues| == 1 {
      IntToStringWithout(issues[0].number, '\n');
    } else {
      forall k | 0 <= k < |issues|
        ensures OneLine(Seqs.Map(FixLine, issues)[k])
      {
        Seqs.MapAt(FixLine, issues, k);
        IntToStringWithout(issues[k].number, '\n');
      }
      Seqs.EveryAppend(OneLine, [MultiHeader], Seqs.Map(FixLine, issues));
    }
  }

  lemma SummariesOneLine(issues: seq<IssueDetails>)
    requires InputsOneLine(issues, "")
    ensures Seqs.Every(OneLine, Summaries(issues))
  {
    if |issues| != 1 {
      forall i | 0 <= i < |issues|
        ensures Seqs.Every(OneLine, SectionLines(issues[i]))
      {
        SectionOneLine(issues[i]);
      }
      Seqs.FlatMapEvery(SectionLines, issues, OneLine);
      Seqs.EveryAppend(OneLine, [MultiSummaryHeader], Sections(issues));
    }
  }

  lemma PartsOneLine(issues: seq<IssueDetails>, custom: string)
    requires InputsOneLine(issues, custom)
    ensures Seqs.Every(OneLine, PrBodyParts(issues, custom))
  {
    var cl := CustomLines(custom);
    var refs := References(issues);
    ReferencesOneLine(issues);
    assert InputsOneLine(issues, "");
    SummariesOneLine(issues);
    Seqs.EveryAppend(OneLine, cl, refs);
    Seqs.EveryAppend(OneLine, cl + refs, [""]);
    Seqs.EveryAppend(OneLine, cl + refs + [""], Summaries(issues));
  }

  /** When the custom body, the titles and the bodies are single lines, the text has one
      line per appended part: splitting it at newlines gives back the parts, which number
      5 for one issue and 3 + 5n for n issues otherwise, plus 2 for a custom body. */
  lemma BodyLines(issues: seq<IssueDetails>, custom: string)
    requires InputsOneLine(issues, custom)
    ensures Split(PrBody(issues, custom), "\n") == PrBodyParts(issues, custom)
    ensures |Split(PrBody(issues, custom), "\n")|
            == (if custom != [] then 2 else 0) + (if |issues| == 1 then 5 else 3 + 5 * |issues|)
  {
    var p := PrBodyParts(issues, custom);
    PartsOneLine(issues, custom);
    SplitJoin(p, '\n');
    if |issues| != 1 {
      MultiIssueLayout(issues, custom);
    }
  }

  // ---------------------------------------------------------------------------------------
  // create_pr
  // ---------------------------------------------------------------------------------------

  /** The title create_pr uses; title is "" when none is given. */
  function PrTitle(issues: seq<IssueDetails>, title: string): (t: string)
    ensures title != [] ==> t == title
  {
    if title != [] then title
    else if |issues| == 1 then "Fix: " + issues[0].title
    else "Fix multiple issues (" + IntToString(|issues|) + " issues)"
  }

  /** A default title names the single issue's title, or says how many issues there are:
      two default titles for several issues are equal only for equally many issues. */
  lemma DefaultTitleCount(a: seq<IssueDetails>, b: seq<IssueDetails>)
    requires |a| != 1 && |b| != 1
    requires PrTitle(a, "") == PrTitle(b, "")
    ensures |a| == |b|
  {
    var x := IntToString(|a|);
    var y := IntToString(|b|);
    var pre := "Fix multiple issues (";
    var post := " issues)";
    assert (pre + x + post)[|pre|..|pre| + |x|] == x;
    assert (pre + y + post)[|pre|..|pre| + |y|] == y;
    IntToStringInjective(|a|, |b|);
  }

    /** The default title of any other number of issues is "Fix multiple issues (", the
      number of issues as int() reads it back, and " issues)". */
  lemma DefaultTitleMulti(issues: seq<IssueDetails>)
    requires |issues| != 1
    ensures var t := PrTitle(issues, "");
            && |t| >= 29
            && t[..21] == "Fix multiple issues ("
            && t[|t| - 8..] == " issues)"
            && ParseInt(t[21..|t| - 8]) == Some(|issues|)
  {
    var x := IntToString(|issues|);
    var t := "Fix multiple issues (" + x + " issues)";
    assert t[21..|t| - 8] == x;
    ParseIntToString(|issues|);
  }

/** The default title of a single issue is "Fix: " and its title. */
  lemma DefaultTitleSingle(issue: IssueDetails)
    ensures PrTitle([issue], "")[..5] == "Fix: "
    ensures PrTitle([issue], "")[5..] == issue.title
  {
  }

  /** The options create_pr hands to gh pr create; repo is "" when none is given. */
  datatype PrArgs = PrArgs(title: string, body: string, base: string, repo: string, draft: bool)

  /** The gh pr create argument vector. */
  function PrCommand(a: PrArgs): (cmd: seq<string>)
    ensures |cmd| == 9 + (if a.repo != [] then 2 else 0) + (if a.draft then 1 else 0)
  {
    ["gh", "pr", "create", "--title", a.title, "--body", a.body, "--base", a.base]
    + (if a.repo != [] then ["--repo", a.repo] else [])
    + (if a.draft then ["--draft"] else [])
  }

  /** Reads the options back from an argument vector of that shape: the three values at
      their fixed places, then by the length whether --repo and --draft follow. */
  function ReadPrCommand(cmd: seq<string>): Option<PrArgs> {
    if 9 <= |cmd| <= 12 && cmd[..4] == ["gh", "pr", "create", "--title"]
       && cmd[5] == "--body" && cmd[7] == "--base"
    then
      var hasRepo := |cmd| >= 11;
      var draft := |cmd| == 10 || |cmd| == 12;
      if hasRepo && (cmd[9] != "--repo" || cmd[10] == []) then None
      else if draft && cmd[|cmd| - 1] != "--draft" then None
      else Some(PrArgs(cmd[4], cmd[6], cmd[8], if hasRepo then cmd[10] else "", draft))
    else None
  }

  /** The argument vector determines the options: each is read back from it. */
  lemma PrCommandRoundTrip(a: PrArgs)
    ensures ReadPrCommand(PrCommand(a)) == Some(a)
  {
    var cmd := PrCommand(a);
    assert cmd[..4] == ["gh", "pr", "create", "--title"];
    assert cmd[4] == a.title && cmd[5] == "--body" && cmd[6] == a.body;
    assert cmd[7] == "--base" && cmd[8] == a.base;
    if a.repo != [] {
      assert cmd[9] == "--repo" && cmd[10] == a.repo;
    }
    if a.draft {
      assert cmd[|cmd| - 1] == "--draft";
    }
  }

  /** create_pr: the title, the body and the argument vector are built, and gh is called with
      it; how the call ends is given by gh. */
  method CreatePrRun(issues: seq<IssueDetails>, title: string, custom: string, base: string,
                     draft: bool, repo: string, gh: seq<string> -> GhRun)
    returns (r: Outcome<RunResult>)
    ensures var t := PrTitle(issues, title);
            r == Interpret(t, gh(PrCommand(PrArgs(t, PrBody(issues, custom), base, repo, draft))))
  {
    var t := title;
    if t == [] {
      if |issues| == 1 {
        t := "Fix: " + issues[0].title;
      } else {
        t := "Fix multiple issues (" + IntToString(|issues|) + " issues)";
      }
    }
    assert t == PrTitle(issues, title);
    var body := GeneratePrBody(issues, custom);
    var cmd := ["gh", "pr", "create", "--title", t, "--body", body, "--base", base];
    if repo != [] {
      cmd := cmd + ["--repo", repo];
    }
    if draft {
      cmd := cmd + ["--draft"];
    }
    assert cmd == PrCommand(PrArgs(t, body, base, repo, draft));
    r := Interpret(t, gh(cmd));
  }

  /** A gh that prints the URL of the new pull request yields a successful result carrying
      the number at the end of the URL and the title used. */
  lemma CreatedPrNumber(issues: seq<IssueDetails>, title: string, base: string, n: int)
    requires base == [] || !IsSpace(base[0])
    ensures Interpret(PrTitle(issues, title), Completed(base + "/" + IntToString(n) + "\n"))
            == Returns(RunResult(Some(n), Some(base + "/" + IntToString(n)), PrTitle(issues, title),
                                 Some(true), None))
  {
    InterpretCreated(PrTitle(issues, title), base, n);
  }

  // ---------------------------------------------------------------------------------------
  // main: the --issue argument
  // ---------------------------------------------------------------------------------------

  /** Every value in order, or None as soon as one is missing: the list comprehension in
      main that reads --issue either builds the whole list or stops at the first piece int() rejects. */
  function Collect<T>(vs: seq<Option<T>>): (r: Option<seq<T>>)
    ensures r.Some? ==> |r.value| == |vs|
  {
    if vs == [] then Some([])
    else
      match (Collect(vs[..|vs| - 1]), vs[|vs| - 1])
      case (Some(front), Some(v)) => Some(front + [v])
      case _ => None
  }

  /** The list is built exactly when every value is present. */
  lemma {:induction false} CollectSome<T>(vs: seq<Option<T>>)
    ensures Collect(vs).Some? <==> forall i :: 0 <= i < |vs| ==> vs[i].Some?
  {
    if vs != [] {
      var n := |vs| - 1;
      CollectSome(vs[..n]);
      assert forall i :: 0 <= i < n ==> vs[..n][i] == vs[i];
    }
  }

  /** The k-th element of the list is the k-th value. */
  lemma {:induction false} CollectAt<T>(vs: seq<Option<T>>, k: nat)
    requires Collect(vs).Some? && k < |vs|
    ensures Some(Collect(vs).value[k]) == vs[k]
  {
    var n := |vs| - 1;
    if k < n {
      CollectAt(vs[..n], k);
    }
  }

  /** int(n.strip()) for one piece; None stands for the ValueError, on which main exits
      with status 1. */
  function PieceValue(piece: string): Option<int> {
    ParseInt(Strip(piece))
  }

  /** The issue numbers main reads from --issue: one per comma-separated piece. */
  function IssueNumbers(arg: string): Option<seq<int>> {
    Collect(Seqs.Map(PieceValue, Split(arg, ",")))
  }

  /** Collecting f over a list succeeds exactly when f succeeds on every element, and then
      yields f's values in order. */
  lemma CollectMap<A, B>(f: A -> Option<B>, xs: seq<A>)
    ensures Collect(Seqs.Map(f, xs)).Some? <==> forall i :: 0 <= i < |xs| ==> f(xs[i]).Some?
    ensures Collect(Seqs.Map(f, xs)).Some? ==>
              forall k :: 0 <= k < |xs| ==> Some(Collect(Seqs.Map(f, xs)).value[k]) == f(xs[k])
  {
    var vs := Seqs.Map(f, xs);
    forall i | 0 <= i < |xs|
      ensures vs[i] == f(xs[i])
    {
      Seqs.MapAt(f, xs, i);
    }
    CollectSome(vs);
    if Collect(vs).Some? {
      forall k | 0 <= k < |vs|
        ensures Some(Collect(vs).value[k]) == vs[k]
      {
        CollectAt(vs, k);
      }
    }
  }

  /** When f yields ys[i] on every xs[i], collecting f over xs yields ys. */
  lemma CollectMapAll<A, B>(f: A -> Option<B>, xs: seq<A>, ys: seq<B>)
    requires |xs| == |ys|
    requires forall i :: 0 <= i < |xs| ==> f(xs[i]) == Some(ys[i])
    ensures Collect(Seqs.Map(f, xs)) == Some(ys)
  {
    CollectMap(f, xs);
    var r := Collect(Seqs.Map(f, xs));
    assert r.Some? && |r.value| == |ys|;
    assert forall k :: 0 <= k < |ys| ==> r.value[k] == ys[k];
    assert r.value == ys;
  }

  /** The numbers are read exactly when every piece is an integer once stripped, and then
      there is one number per piece, the k-th being the value of the k-th piece. */
  lemma IssueNumbersPieces(arg: string)
    ensures var pieces := Split(arg, ",");
            && (IssueNumbers(arg).Some? ==> |IssueNumbers(arg).value| == |pieces|)
            && (IssueNumbers(arg).Some? <==> forall i :: 0 <= i < |pieces| ==> PieceValue(pieces[i]).Some?)
            && (IssueNumbers(arg).Some? ==>
                  forall k :: 0 <= k < |pieces| ==> Some(IssueNumbers(arg).value[k]) == PieceValue(pieces[k]))
  {
    assert IssueNumbers(arg) == Collect(Seqs.Map(PieceValue, Split(arg, ",")));
    CollectMap(PieceValue, Split(arg, ","));
  }

  /** A piece holding the decimal form of n is read as n. */
  lemma PieceValueDecimal(n: int)
    ensures PieceValue(IntToString(n)) == Some(n)
  {
    StripUnchanged(IntToString(n));
    ParseIntToString(n);
  }

  /** Numbers written out and joined with commas are read back, in order. */
  lemma IssueNumbersRoundTrip(ns: seq<int>)
    requires ns != []
    ensures IssueNumbers(Join(Seqs.Map(IntToString, ns), ",")) == Some(ns)
  {
    var ds := Seqs.Map(IntToString, ns);
    forall i | 0 <= i < |ds|
      ensures ',' !in ds[i] && PieceValue(ds[i]) == Some(ns[i])
    {
      Seqs.MapAt(IntToString, ns, i);
      IntToStringWithout(ns[i], ',');
      PieceValueDecimal(ns[i]);
    }
    SplitJoin(ds, ',');
    assert IssueNumbers(Join(ds, ",")) == Collect(Seqs.Map(PieceValue, ds));
    CollectMapAll(PieceValue, ds, ns);
  }
}
