/** The one call both scripts make into the GitHub CLI, and what they make of its answer.
    The CLI itself is not modelled: how a run ends is an input. */
module GhCli {
  import opened Wrappers
  import opened Text

  /** How `subprocess.run(cmd, capture_output=True, text=True, check=True)` ends. */
  datatype GhRun =
    | Completed(stdout: string)     // exit status 0
    | NonZeroExit(stderr: string)   // CalledProcessError, which the scripts catch
    | NotLaunched                   // an OSError such as a missing gh binary, which they do not

  /** The dict create_issue and create_pr return; a field is None where the dict has no
      such key. */
  datatype RunResult = RunResult(
    number: Option<int>,
    url: Option<string>,
    title: string,
    success: Option<bool>,
    error: Option<string>)

  /** int(url.split('/')[-1]); None stands for the ValueError int() raises. */
  function UrlNumber(url: string): Option<int> {
    ParseInt(LastPiece(url, '/'))
  }

  /** The number at the end of an issue or pull request URL is read back. */
  lemma UrlNumberOf(base: string, n: int)
    ensures UrlNumber(base + "/" + IntToString(n)) == Some(n)
  {
    LastPieceAfter(base, '/', IntToString(n));
    ParseIntToString(n);
  }

  /** The try/except around subprocess.run in create_issue and create_pr: a URL printed by
      gh gives a successful result carrying its number; a failing gh gives an unsuccessful
      result carrying its stderr; a URL whose last piece is not an integer, or a gh that
      cannot be started, raises. */
  function Interpret(title: string, run: GhRun): (r: Outcome<RunResult>)
    ensures r.Raised? <==> run.NotLaunched? || (run.Completed? && UrlNumber(Strip(run.stdout)).None?)
    ensures r.Returns? ==> r.value.title == title && r.value.success == Some(run.Completed?)
    ensures r.Returns? && run.Completed? ==>
              r.value.number == UrlNumber(Strip(run.stdout)) && r.value.url == Some(Strip(run.stdout))
              && r.value.error.None?
    ensures r.Returns? && run.NonZeroExit? ==>
              r.value.number.None? && r.value.url.None? && r.value.error == Some(run.stderr)
  {
    match run
    case Completed(out) =>
      var url := Strip(out);
      (match UrlNumber(url)
       case Some(n) => Returns(RunResult(Some(n), Some(url), title, Some(true), None))
       case None => Raised)
    case NonZeroExit(err) => Returns(RunResult(None, None, title, Some(false), Some(err)))
    case NotLaunched => Raised
  }

  /** gh prints the URL of what it created followed by a newline; the result carries the
      URL without the newline and the number at its end. */
  lemma InterpretCreated(title: string, base: string, n: int)
    requires base == [] || !IsSpace(base[0])
    ensures Interpret(title, Completed(base + "/" + IntToString(n) + "\n"))
            == Returns(RunResult(Some(n), Some(base + "/" + IntToString(n)), title, Some(true), None))
  {
    var url := base + "/" + IntToString(n);
    var out := url + "\n";
    StripUnchanged(url);
    StripNewline(url);
    UrlNumberOf(base, n);
  }

  /** A trailing newline is stripped away. */
  lemma StripNewline(s: string)
    requires s != [] && !IsSpace(s[0]) && !IsSpace(s[|s| - 1])
    ensures Strip(s + "\n") == s
  {
    var t := s + "\n";
    assert LeadEnd(t, 0) == 0;
    assert TrailStart(t, 0, |t| - 1) == |s|;
    assert TrailStart(t, 0, |t|) == |s|;
    assert t[0..|s|] == s;
  }
}
