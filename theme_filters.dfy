/** Two WordPress filters of the kk-aurora theme: the script_loader_tag filter, which marks
    the two GSAP scripts loaded from a CDN as cross-origin, and the body_class filter, which
    adds the theme's own class to the page body. */
module ThemeFilters {
  import opened Text

  /** The handles of the scripts loaded from a CDN. */
  const CdnHandles: seq<string> := ["gsap", "gsap-scrolltrigger"]

  /** The text str_replace looks for, and the attribute it puts in front of it. */
  const Src: string := " src"
  const Crossorigin: string := " crossorigin=\"anonymous\""

  /** What the filter puts in place of each " src". */
  const Marked: string := Crossorigin + Src

  /** in_array($handle, $cdn_scripts, true): a strict comparison, so only these two exact
      strings match. */
  predicate IsCdnHandle(handle: string) {
    handle in CdnHandles
  }

  /** script_loader_tag: for a CDN handle, every " src" in the tag, found from left to
      right, becomes ' crossorigin="anonymous" src'; any other tag is returned as it is. The
      script's URL is passed to the filter but not used. */
  function ScriptLoaderTag(tag: string, handle: string, src: string): (r: string)
    ensures !IsCdnHandle(handle) ==> r == tag
    ensures IsCdnHandle(handle) ==> |r| == |tag| + 24 * Occurrences(tag, Src)
  {
    if IsCdnHandle(handle) then
      ReplaceAllLength(tag, Src, Crossorigin + Src);
      ReplaceAll(tag, Src, Crossorigin + Src)
    else tag
  }

  /** Without a " src" there is nothing to replace. */
  lemma NoSrcUnchanged(tag: string, handle: string, src: string)
    requires Occurrences(tag, Src) == 0
    ensures ScriptLoaderTag(tag, handle, src) == tag
  {
    ReplaceAllIsSplitJoin(tag, Src, Crossorigin + Src);
    JoinSplit(tag, Src);
  }

  /** Removing the inserted attributes gives back the original tag: both are the pieces of
      the tag between its occurrences of " src", joined once with ' crossorigin="anonymous"
      src' and once with " src". */
  lemma CrossoriginRemoved(tag: string, handle: string, src: string)
    requires IsCdnHandle(handle)
    ensures var pieces := Split(tag, Src);
            && ScriptLoaderTag(tag, handle, src) == Join(pieces, Crossorigin + Src)
            && Join(pieces, Src) == tag
  {
    ReplaceAllIsSplitJoin(tag, Src, Crossorigin + Src);
    JoinSplit(tag, Src);
  }

  /** What the proof that the filter can be undone needs of the text it inserts: 28
      characters ending in " src", with a space only at the start and before "src", and
      "c" after the first space. */
  predicate MarkShape(m: string) {
    && |m| == 28 && m[24..] == Src && m[1] == 'c' && m[25] == 's'
    && forall j :: 0 <= j < 28 ==> (m[j] == ' ' <==> j == 0 || j == 24)
  }

  /** ' crossorigin="anonymous" src' has that shape. */
  lemma MarkedShape()
    ensures MarkShape(Marked)
  {
  }

  /** A piece without " src", followed by the marked text, cannot start the marked text
      anywhere but at its end: its first 28 characters differ from the marked text. */
  lemma MarkNotAtStart(m: string, p: string, t: string)
    requires MarkShape(m) && Lacks(p, Src) && p != []
    requires |t| >= 28 && t[..28] == m
    ensures (p + t)[..28] != m
  {
    var s := p + t;
    if |p| >= 28 {
      assert !OccursAt(p, 24, Src);
      assert s[..28][24..28] == p[24..28];
      assert m[24..28] == Src;
    } else if |p| > 24 {
      assert s[|p|] == t[0] == m[0] == ' ' != m[|p|];
    } else if |p| < 24 {
      assert s[24] == t[24 - |p|] == m[24 - |p|] != ' ' == m[24];
    } else {
      assert s[25] == t[1] == m[1] == 'c' != m[25];
    }
  }

  /** Replacing the marked text back leaves a piece without " src" alone. */
  lemma {:induction false} UnmarkedUnchanged(m: string, p: string)
    requires MarkShape(m) && Lacks(p, Src)
    ensures ReplaceAll(p, m, Src) == p
    decreases |p|
  {
    if |p| >= 28 {
      assert p[..28] != m by {
        assert !OccursAt(p, 24, Src);
        assert p[..28][24..28] == p[24..28];
        assert m[24..28] == Src;
      }
      ReplaceAllSkip(p, m, Src);
      LacksTail(p, Src);
      UnmarkedUnchanged(m, p[1..]);
      assert [p[0]] + p[1..] == p;
    }
  }

  /** Replacing back, a piece without " src" followed by the marked text becomes the piece
      followed by " src". */
  lemma {:induction false} UnmarkAfter(m: string, p: string, rest: string)
    requires MarkShape(m) && Lacks(p, Src)
    ensures ReplaceAll(p + m + rest, m, Src) == p + Src + ReplaceAll(rest, m, Src)
    decreases |p|
  {
    var t := m + rest;
    var s := p + t;
    assert p + m + rest == s;
    assert t[..28] == m && t[28..] == rest;
    if p == [] {
      assert s == t;
      ReplaceAllHit(t, m, Src);
    } else {
      MarkNotAtStart(m, p, t);
      ReplaceAllSkip(s, m, Src);
      assert s[1..] == p[1..] + m + rest;
      LacksTail(p, Src);
      UnmarkAfter(m, p[1..], rest);
      var back := ReplaceAll(rest, m, Src);
      assert [p[0]] + (p[1..] + Src + back) == p + Src + back by {
        assert [p[0]] + p[1..] == p;
      }
    }
  }

  /** Pieces without " src" joined with the marked text are joined with " src" once the
      marked text is replaced back. */
  lemma {:induction false} UnmarkJoin(m: string, pieces: seq<string>)
    requires MarkShape(m)
    requires forall k :: 0 <= k < |pieces| ==> Lacks(pieces[k], Src)
    ensures ReplaceAll(Join(pieces, m), m, Src) == Join(pieces, Src)
    decreases |pieces|
  {
    if |pieces| == 1 {
      UnmarkedUnchanged(m, pieces[0]);
    } else if |pieces| > 1 {
      UnmarkAfter(m, pieces[0], Join(pieces[1..], m));
      UnmarkJoin(m, pieces[1..]);
    }
  }

  /** str_replace(' crossorigin="anonymous" src', ' src', ...) undoes the filter: the only
      occurrences of the marked text in a filtered tag are the ones the filter put in. */
  lemma CrossoriginReplacedBack(tag: string, handle: string, src: string)
    requires IsCdnHandle(handle)
    ensures ReplaceAll(ScriptLoaderTag(tag, handle, src), Crossorigin + Src, Src) == tag
  {
    CrossoriginRemoved(tag, handle, src);
    SplitPiecesLack(tag, Src);
    MarkedShape();
    UnmarkJoin(Marked, Split(tag, Src));
  }

  /** body_classes: the classes the page body already has, in order, followed by
      "aurora-theme"; a class that is already there is added again. */
  function BodyClasses(classes: seq<string>): (r: seq<string>)
    ensures |r| == |classes| + 1
    ensures r[..|classes|] == classes
    ensures r[|classes|] == "aurora-theme"
  {
    classes + ["aurora-theme"]
  }
}
