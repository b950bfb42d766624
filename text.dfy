/** The string operations the scripts and the theme rely on, as Python and PHP define them:
    whitespace stripping, splitting and joining on a separator, left-to-right replacement,
    and the decimal form of integers (str(n) and int(s)). */
module Text {
  import opened Wrappers

  // ---------------------------------------------------------------------------------------
  // Whitespace and str.strip()
  // ---------------------------------------------------------------------------------------

  /** The characters for which Python's str.isspace() holds; str.strip() and int() drop
      them at both ends. */
  predicate IsSpace(c: char) {
    || c == ' '
    || ('\t' <= c <= '\r')
    || ('\U{1c}' <= c <= '\U{1f}')
    || c == '\U{85}' || c == '\U{a0}' || c == '\U{1680}'
    || ('\U{2000}' <= c <= '\U{200a}')
    || c == '\U{2028}' || c == '\U{2029}' || c == '\U{202f}' || c == '\U{205f}' || c == '\U{3000}'
  }

  /** Only whitespace, or nothing at all: the strings for which `not s.strip()` holds. */
  predicate IsBlank(s: string) {
    forall i :: 0 <= i < |s| ==> IsSpace(s[i])
  }

  /** Where the leading whitespace from i on ends: the first position at or after i that
      holds no whitespace, or |s|. */
  function LeadEnd(s: string, i: nat): (j: nat)
    requires i <= |s|
    ensures i <= j <= |s|
    ensures forall k :: i <= k < j ==> IsSpace(s[k])
    ensures j < |s| ==> !IsSpace(s[j])
    decreases |s| - i
  {
    if i < |s| && IsSpace(s[i]) then LeadEnd(s, i + 1) else i
  }

  /** Where the trailing whitespace before j begins, looking no further back than lo: the
      position after the last character in lo..j that is not whitespace, or lo. */
  function TrailStart(s: string, lo: nat, j: nat): (e: nat)
    requires lo <= j <= |s|
    ensures lo <= e <= j
    ensures forall k :: e <= k < j ==> IsSpace(s[k])
    ensures e > lo ==> !IsSpace(s[e - 1])
    decreases j
  {
    if j > lo && IsSpace(s[j - 1]) then TrailStart(s, lo, j - 1) else j
  }

  /** Number of leading whitespace characters of s. */
  function LeadingSpace(s: string): nat
    ensures LeadingSpace(s) <= |s|
  {
    LeadEnd(s, 0)
  }

  /** Python's str.strip() without an argument: the text between the leading and the
      trailing whitespace. It is empty exactly when s is blank. */
  function Strip(s: string): (r: string)
    ensures |r| <= |s|
    ensures r == [] || (!IsSpace(r[0]) && !IsSpace(r[|r| - 1]))
    ensures r == [] <==> IsBlank(s)
  {
    var a := LeadEnd(s, 0);
    var b := TrailStart(s, a, |s|);
    s[a..b]
  }

  /** Where the stripped text sits: after the leading whitespace, followed by nothing but
      whitespace. */
  lemma StripPlace(s: string)
    ensures var k := LeadingSpace(s);
            var r := Strip(s);
            && k + |r| <= |s| && r == s[k..k + |r|]
            && IsBlank(s[..k]) && IsBlank(s[k + |r|..])
  {
    var a := LeadEnd(s, 0);
    var b := TrailStart(s, a, |s|);
    assert Strip(s) == s[a..b];
    assert forall k :: 0 <= k < a ==> s[..a][k] == s[k];
    assert forall k :: 0 <= k < |s| - b ==> s[b..][k] == s[b + k];
  }

  lemma StripIdempotent(s: string)
    ensures Strip(Strip(s)) == Strip(s)
  {
    StripUnchanged(Strip(s));
  }

  /** A string that neither starts nor ends with whitespace is its own strip. */
  lemma StripUnchanged(s: string)
    requires s == [] || (!IsSpace(s[0]) && !IsSpace(s[|s| - 1]))
    ensures Strip(s) == s
  {
    assert LeadEnd(s, 0) == 0;
    assert TrailStart(s, 0, |s|) == |s|;
    assert s[0..|s|] == s;
  }

  // ---------------------------------------------------------------------------------------
  // Prefixes, splitting and joining
  // ---------------------------------------------------------------------------------------

  predicate StartsWith(s: string, prefix: string) {
    |prefix| <= |s| && s[..|prefix|] == prefix
  }

  /** The number of non-overlapping occurrences of sep in s, found scanning left to right. */
  function Occurrences(s: string, sep: string): nat
    requires sep != []
    decreases |s|
  {
    if |s| < |sep| then 0
    else if s[..|sep|] == sep then 1 + Occurrences(s[|sep|..], sep)
    else Occurrences(s[1..], sep)
  }

  /** Python's str.split(sep) and PHP's explode(sep, s) for a non-empty separator: the
      pieces between the occurrences of sep, empty pieces included. */
  function Split(s: string, sep: string): (parts: seq<string>)
    requires sep != []
    ensures |parts| == Occurrences(s, sep) + 1
    decreases |s|
  {
    if |s| < |sep| then [s]
    else if s[..|sep|] == sep then [[]] + Split(s[|sep|..], sep)
    else
      var rest := Split(s[1..], sep);
      [[s[0]] + rest[0]] + rest[1..]
  }

  /** Python's sep.join(parts) and PHP's implode(sep, parts). */
  function Join<T>(parts: seq<seq<T>>, sep: seq<T>): seq<T> {
    if |parts| == 0 then []
    else if |parts| == 1 then parts[0]
    else parts[0] + sep + Join(parts[1..], sep)
  }

  lemma JoinConsFirst<T>(c: seq<T>, parts: seq<seq<T>>, sep: seq<T>)
    requires parts != []
    ensures Join([c + parts[0]] + parts[1..], sep) == c + Join(parts, sep)
  {
    var q := [c + parts[0]] + parts[1..];
    if |parts| > 1 {
      assert q[1..] == parts[1..];
    }
  }

  /** A first piece is followed by the separator and the join of the others. */
  lemma JoinCons<T>(a: seq<T>, rest: seq<seq<T>>, sep: seq<T>)
    requires rest != []
    ensures Join([a] + rest, sep) == a + sep + Join(rest, sep)
  {
    assert ([a] + rest)[1..] == rest;
  }

  /** A piece followed by an empty piece is followed by two separators. */
  lemma JoinBlankAfter<T>(a: seq<T>, rest: seq<seq<T>>, sep: seq<T>)
    requires rest != []
    ensures Join([a, []] + rest, sep) == a + (sep + sep) + Join(rest, sep)
  {
    assert [a, []] + rest == [a] + ([[]] + rest);
    JoinCons(a, [[]] + rest, sep);
    JoinCons([], rest, sep);
  }

  /** Joining the pieces with the separator gives back the string. */
  lemma {:induction false} JoinSplit(s: string, sep: string)
    requires sep != []
    ensures Join(Split(s, sep), sep) == s
    decreases |s|
  {
    if |s| < |sep| {
    } else if s[..|sep|] == sep {
      var tail := s[|sep|..];
      var rest := Split(tail, sep);
      assert Split(s, sep) == [[]] + rest;
      JoinSplit(tail, sep);
      JoinCons([], rest, sep);
      assert s == sep + tail;
    } else {
      var tail := s[1..];
      var rest := Split(tail, sep);
      assert Split(s, sep) == [[s[0]] + rest[0]] + rest[1..];
      JoinSplit(tail, sep);
      JoinConsFirst([s[0]], rest, sep);
      assert s == [s[0]] + tail;
    }
  }

  /** Splitting on a character at an explicit occurrence of that character concatenates
      the pieces of the two sides. */
  lemma {:induction false} SplitAround(x: string, c: char, t: string)
    ensures Split(x + [c] + t, [c]) == Split(x, [c]) + Split(t, [c])
    decreases |x|
  {
    var s := x + [c] + t;
    if x == [] {
      assert s == [c] + t;
      assert s[..1] == [c] && s[1..] == t;
    } else {
      assert s[1..] == x[1..] + [c] + t;
      assert s[..1] == x[..1] == [x[0]];
      SplitAround(x[1..], c, t);
    }
  }

  /** A string without the separator character is a single piece. */
  lemma {:induction false} SplitWithout(s: string, c: char)
    requires c !in s
    ensures Split(s, [c]) == [s]
    decreases |s|
  {
    if |s| >= 1 {
      assert s[..1] == [s[0]] != [c];
      SplitWithout(s[1..], c);
      assert [s[0]] + s[1..] == s;
    }
  }

  /** Splitting on a character undoes joining with it, provided no piece contains it. */
  lemma {:induction false} SplitJoin(parts: seq<string>, c: char)
    requires parts != []
    requires forall i :: 0 <= i < |parts| ==> c !in parts[i]
    ensures Split(Join(parts, [c]), [c]) == parts
    decreases |parts|
  {
    if |parts| == 1 {
      SplitWithout(parts[0], c);
    } else {
      SplitJoin(parts[1..], c);
      SplitWithout(parts[0], c);
      SplitAround(parts[0], c, Join(parts[1..], [c]));
      assert [parts[0]] + parts[1..] == parts;
    }
  }

  /** For a one-character separator, the occurrences are the copies of that character. */
  lemma {:induction false} OccurrencesOfChar(s: string, c: char)
    ensures Occurrences(s, [c]) == multiset(s)[c]
    decreases |s|
  {
    if |s| >= 1 {
      assert s[..1] == [s[0]];
      assert s == [s[0]] + s[1..];
      assert multiset(s) == multiset{s[0]} + multiset(s[1..]);
      OccurrencesOfChar(s[1..], c);
    }
  }

  /** No piece of a split on a character contains that character. */
  lemma {:induction false} SplitPiecesWithout(s: string, c: char)
    ensures forall i :: 0 <= i < |Split(s, [c])| ==> c !in Split(s, [c])[i]
    decreases |s|
  {
    if |s| >= 1 {
      assert s[..1] == [s[0]];
      SplitPiecesWithout(s[1..], c);
    }
  }

  /** sep occurs in p at position i. */
  predicate OccursAt(p: string, i: nat, sep: string) {
    i + |sep| <= |p| && p[i..i + |sep|] == sep
  }

  /** sep occurs nowhere in p, at any position. */
  predicate Lacks(p: string, sep: string) {
    forall i: nat :: i < |p| ==> !OccursAt(p, i, sep)
  }

  /** Dropping the first character keeps a string without sep. */
  lemma LacksTail(p: string, sep: string)
    requires Lacks(p, sep) && p != []
    ensures Lacks(p[1..], sep)
  {
    forall i: nat | i < |p[1..]|
      ensures !OccursAt(p[1..], i, sep)
    {
      assert !OccursAt(p, i + 1, sep);
      if i + |sep| <= |p[1..]| {
        assert p[1..][i..i + |sep|] == p[i + 1..i + 1 + |sep|];
      }
    }
  }

  /** The first piece of a split is a prefix of the string. */
  lemma {:induction false} SplitFirstPrefix(s: string, sep: string)
    requires sep != []
    ensures |Split(s, sep)[0]| <= |s| && s[..|Split(s, sep)[0]|] == Split(s, sep)[0]
    decreases |s|
  {
    if |s| >= |sep| && s[..|sep|] != sep {
      var rest := Split(s[1..], sep);
      SplitFirstPrefix(s[1..], sep);
      assert Split(s, sep)[0] == [s[0]] + rest[0];
      assert s[1..][..|rest[0]|] == s[1..|rest[0]| + 1];
    }
  }

  /** A character that does not start sep, followed by a piece without sep, and together a
      prefix of s that does not start with sep, is a piece without sep. */
  lemma FirstPieceLacks(s: string, sep: string, r: string)
    requires sep != [] && |s| >= |sep| && s[..|sep|] != sep
    requires 1 + |r| <= |s| && s[..1 + |r|] == [s[0]] + r && Lacks(r, sep)
    ensures Lacks([s[0]] + r, sep)
  {
    var first := [s[0]] + r;
    forall i: nat
      ensures !OccursAt(first, i, sep)
    {
      if i == 0 {
        if |sep| <= |first| {
          assert first[..|sep|] == s[..|sep|];
        }
      } else if i + |sep| <= |first| {
        assert first[i..i + |sep|] == r[i - 1..i - 1 + |sep|];
        assert !OccursAt(r, i - 1, sep);
      }
    }
  }

  /** No piece of a split holds the separator anywhere. */
  lemma {:induction false} SplitPiecesLack(s: string, sep: string)
    requires sep != []
    ensures forall k :: 0 <= k < |Split(s, sep)| ==> Lacks(Split(s, sep)[k], sep)
    decreases |s|
  {
    if |s| < |sep| {
      assert Split(s, sep) == [s];
    } else if s[..|sep|] == sep {
      SplitPiecesLack(s[|sep|..], sep);
      assert Split(s, sep) == [[]] + Split(s[|sep|..], sep);
    } else {
      var rest := Split(s[1..], sep);
      SplitPiecesLack(s[1..], sep);
      SplitFirstPrefix(s[1..], sep);
      var first := [s[0]] + rest[0];
      assert Split(s, sep) == [first] + rest[1..];
      assert s[..|first|] == first by {
        assert s[1..][..|rest[0]|] == s[1..|rest[0]| + 1];
      }
      FirstPieceLacks(s, sep, rest[0]);
    }
  }

  /** The last piece of a split on a character. */
  function LastPiece(s: string, c: char): string {
    var parts := Split(s, [c]);
    parts[|parts| - 1]
  }

  /** Whatever precedes the last occurrence of c, the last piece is the text after it. */
  lemma LastPieceAfter(x: string, c: char, t: string)
    requires c !in t
    ensures LastPiece(x + [c] + t, c) == t
  {
    SplitAround(x, c, t);
    SplitWithout(t, c);
  }

  // ---------------------------------------------------------------------------------------
  // PHP's str_replace
  // ---------------------------------------------------------------------------------------

  /** PHP's str_replace(search, replacement, s) for one search string: the occurrences of
      search found scanning s from left to right are replaced, and the inserted text is not
      scanned again. An empty search string leaves s as it is. */
  function ReplaceAll(s: string, search: string, replacement: string): string
    decreases |s|
  {
    if search == [] || |s| < |search| then s
    else if s[..|search|] == search then replacement + ReplaceAll(s[|search|..], search, replacement)
    else [s[0]] + ReplaceAll(s[1..], search, replacement)
  }

  /** Where search starts the string, it is replaced and the scan goes on after it. */
  lemma ReplaceAllHit(s: string, search: string, replacement: string)
    requires search != [] && |search| <= |s| && s[..|search|] == search
    ensures ReplaceAll(s, search, replacement) == replacement + ReplaceAll(s[|search|..], search, replacement)
  {
  }

  /** Where search does not start the string, the first character is kept. */
  lemma ReplaceAllSkip(s: string, search: string, replacement: string)
    requires search != [] && |search| <= |s| && s[..|search|] != search
    ensures ReplaceAll(s, search, replacement) == [s[0]] + ReplaceAll(s[1..], search, replacement)
  {
  }

  /** Replacing is splitting at the occurrences and joining with the replacement. */
  lemma {:induction false} ReplaceAllIsSplitJoin(s: string, search: string, replacement: string)
    requires search != []
    ensures ReplaceAll(s, search, replacement) == Join(Split(s, search), replacement)
    decreases |s|
  {
    if |s| < |search| {
    } else if s[..|search|] == search {
      ReplaceAllIsSplitJoin(s[|search|..], search, replacement);
      var rest := Split(s[|search|..], search);
      assert ([[]] + rest)[1..] == rest;
    } else {
      ReplaceAllIsSplitJoin(s[1..], search, replacement);
      JoinConsFirst([s[0]], Split(s[1..], search), replacement);
    }
  }

  /** Each replacement changes the length by the difference of the two lengths. */
  lemma {:induction false} ReplaceAllLength(s: string, search: string, replacement: string)
    requires search != []
    ensures |ReplaceAll(s, search, replacement)|
            == |s| + (|replacement| - |search|) * Occurrences(s, search)
    decreases |s|
  {
    var d := |replacement| - |search|;
    if |s| < |search| {
    } else if s[..|search|] == search {
      var rest := s[|search|..];
      var k := Occurrences(rest, search);
      ReplaceAllLength(rest, search, replacement);
      assert |ReplaceAll(s, search, replacement)| == |replacement| + |ReplaceAll(rest, search, replacement)|;
      assert Occurrences(s, search) == 1 + k;
      assert |ReplaceAll(rest, search, replacement)| == |rest| + d * k;
      MulSucc(d, k);
    } else {
      var rest := s[1..];
      ReplaceAllLength(rest, search, replacement);
      assert |ReplaceAll(s, search, replacement)| == 1 + |ReplaceAll(rest, search, replacement)|;
      assert Occurrences(s, search) == Occurrences(rest, search);
    }
  }

  /** One more occurrence adds one more difference. */
  lemma MulSucc(d: int, k: int)
    ensures d * (1 + k) == d + d * k
  { }

  // ---------------------------------------------------------------------------------------
  // Integers: str(n) and int(s)
  // ---------------------------------------------------------------------------------------

  predicate IsDigit(c: char) {
    '0' <= c <= '9'
  }

  function DigitChar(d: nat): (c: char)
    requires d < 10
    ensures IsDigit(c) && (c as int) - ('0' as int) == d
  {
    (('0' as int) + d) as char
  }

  /** The decimal digits of n, most significant first, without leading zeros. */
  function NatToString(n: nat): (s: string)
    ensures |s| > 0 && forall i :: 0 <= i < |s| ==> IsDigit(s[i])
    ensures s[0] == '0' ==> n == 0
  {
    if n < 10 then [DigitChar(n)] else NatToString(n / 10) + [DigitChar(n % 10)]
  }

  /** Python's str(n) (and f"{n}") for an int. */
  function IntToString(n: int): (s: string)
    ensures |s| > 0 && !IsSpace(s[0]) && !IsSpace(s[|s| - 1])
    ensures forall i :: 0 <= i < |s| ==> IsDigit(s[i]) || (i == 0 && s[i] == '-')
  {
    if n < 0 then "-" + NatToString(-n) else NatToString(n)
  }

  /** Only ASCII digits and underscores. */
  predicate IsDigitsOrUnderscores(t: string) {
    forall i :: 0 <= i < |t| ==> IsDigit(t[i]) || t[i] == '_'
  }

  /** The literals int() accepts after sign and whitespace: ASCII digits, where a single
      underscore may stand between two digits (the last character being a digit, every
      underscore is followed by one). */
  predicate IsDecimalLiteral(t: string) {
    && |t| > 0 && IsDigit(t[0]) && IsDigit(t[|t| - 1])
    && IsDigitsOrUnderscores(t)
    && forall i :: 0 <= i < |t| && t[i] == '_' ==> i + 1 < |t| && IsDigit(t[i + 1])
  }

  function DigitValue(c: char): nat
    requires IsDigit(c)
  {
    (c as int) - ('0' as int)
  }

  /** The value of a decimal literal; underscores do not count. */
  function LiteralValue(t: string): nat
    requires IsDigitsOrUnderscores(t)
  {
    if t == [] then 0
    else if t[|t| - 1] == '_' then LiteralValue(t[..|t| - 1])
    else 10 * LiteralValue(t[..|t| - 1]) + DigitValue(t[|t| - 1])
  }

  /** Python's int(s) for a str: surrounding whitespace is ignored, a '+' or '-' may come
      first. None stands for the ValueError int() raises on anything else. Digits of other
      scripts, which int() also accepts, are not modelled. */
  function ParseInt(s: string): Option<int> {
    ParseSigned(Strip(s))
  }

  /** int() of a string without surrounding whitespace. */
  function ParseSigned(t: string): Option<int> {
    var signed := |t| > 0 && (t[0] == '+' || t[0] == '-');
    var digits := if signed then t[1..] else t;
    if IsDecimalLiteral(digits) then
      var magnitude: int := LiteralValue(digits);
      Some(if signed && t[0] == '-' then -magnitude else magnitude)
    else None
  }

  lemma {:induction false} NatToStringValue(n: nat)
    ensures IsDecimalLiteral(NatToString(n)) && LiteralValue(NatToString(n)) == n
  {
    var s := NatToString(n);
    if n >= 10 {
      NatToStringValue(n / 10);
      assert s[..|s| - 1] == NatToString(n / 10);
    }
  }

  /** int(str(n)) == n. */
  lemma ParseIntToString(n: int)
    ensures ParseInt(IntToString(n)) == Some(n)
  {
    if n < 0 {
      ParseNegative(-n);
    } else {
      ParseNatural(n);
    }
  }

  lemma ParseNatural(n: nat)
    ensures ParseInt(NatToString(n)) == Some(n)
  {
    NatToStringValue(n);
    ParseUnsigned(NatToString(n));
  }

  lemma ParseNegative(m: nat)
    requires m > 0
    ensures ParseInt("-" + NatToString(m)) == Some(0 - m)
  {
    NatToStringValue(m);
    ParseMinus(NatToString(m));
  }

  /** A literal without a sign is read as its value. */
  lemma ParseUnsigned(t: string)
    requires IsDecimalLiteral(t)
    ensures ParseInt(t) == Some(LiteralValue(t))
  {
    ParseUnpadded(t);
    SignedNone(t);
  }

  /** A literal after a minus sign is read as its value negated. */
  lemma ParseMinus(t: string)
    requires IsDecimalLiteral(t)
    ensures ParseInt("-" + t) == Some(0 - LiteralValue(t))
  {
    var s := "-" + t;
    assert s[0] == '-' && s[|s| - 1] == t[|t| - 1];
    ParseUnpadded(s);
    SignedMinus(t);
  }

  /** Without whitespace at either end there is nothing to strip. */
  lemma ParseUnpadded(s: string)
    requires s == [] || (!IsSpace(s[0]) && !IsSpace(s[|s| - 1]))
    ensures ParseInt(s) == ParseSigned(s)
  {
    StripUnchanged(s);
  }

  lemma SignedNone(t: string)
    requires IsDecimalLiteral(t)
    ensures ParseSigned(t) == Some(LiteralValue(t))
  {
  }

  lemma SignedMinus(t: string)
    requires IsDecimalLiteral(t)
    ensures ParseSigned("-" + t) == Some(0 - LiteralValue(t))
  {
    assert ("-" + t)[1..] == t;
  }

  /** Only digits and a leading minus sign occur in the decimal form of an integer. */
  lemma IntToStringWithout(n: int, c: char)
    requires !IsDigit(c) && c != '-'
    ensures c !in IntToString(n)
  {
    var s := IntToString(n);
    assert forall i :: 0 <= i < |s| ==> s[i] != c;
  }

  /** Decimal forms of distinct integers are distinct. */
  lemma IntToStringInjective(m: int, n: int)
    requires IntToString(m) == IntToString(n)
    ensures m == n
  {
    ParseIntToString(m);
    ParseIntToString(n);
  }
}
