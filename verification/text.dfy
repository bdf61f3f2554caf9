/** Character classes and string primitives of Python's `str` that the core
    relies on: `strip`, `split`, `join`, `replace`, `lower`, `in` and `str(n)`. */
module Text {
  import opened Wrappers

  /** Python's whitespace: the characters for which `str.isspace()` holds,
      which is also what the regex class `\s` and `str.strip()` use. */
  predicate IsSpace(c: char) {
    || c == ' '
    || ('\t' <= c <= '\r')
    || ('\U{1C}' <= c <= '\U{1F}')
    || c == '\U{85}' || c == '\U{A0}' || c == '\U{1680}'
    || ('\U{2000}' <= c <= '\U{200A}')
    || c == '\U{2028}' || c == '\U{2029}' || c == '\U{202F}' || c == '\U{205F}'
    || c == '\U{3000}'
  }

  /** The regex class `\w`: ASCII letters, digits and '_', and non-ASCII
      letters, approximated as every character from U+00C0 on that is not
      whitespace and not in a punctuation block. */
  predicate IsWordChar(c: char) {
    || ('a' <= c <= 'z') || ('A' <= c <= 'Z') || ('0' <= c <= '9') || c == '_'
    || (&& c >= '\U{C0}' && c != '\U{D7}' && c != '\U{F7}'
        && !IsSpace(c)
        && !('\U{2000}' <= c <= '\U{206F}')
        && !('\U{3000}' <= c <= '\U{303F}')
        && !('\U{FF00}' <= c <= '\U{FF0F}')
        && !('\U{FF1A}' <= c <= '\U{FF20}'))
  }

  lemma SpaceIsNotWord(c: char)
    ensures IsSpace(c) ==> !IsWordChar(c)
  {}

  /** `str.lower()` on one character (ASCII case mapping). */
  function Lower(c: char): (r: char)
    ensures 'A' <= c <= 'Z' ==> r != c
    ensures !('A' <= c <= 'Z') ==> r == c
    ensures !('A' <= r <= 'Z')
  {
    if 'A' <= c <= 'Z' then (c as int + 32) as char else c
  }

  function LowerStr(s: string): (r: string)
    ensures |r| == |s|
    ensures forall i :: 0 <= i < |s| ==> r[i] == Lower(s[i])
  {
    if |s| == 0 then "" else [Lower(s[0])] + LowerStr(s[1..])
  }

  predicate AllSpace(s: string) {
    forall i :: 0 <= i < |s| ==> IsSpace(s[i])
  }

  /** A slice between two positions holding no stop character. */
  lemma NoStopBetween(s: string, a: nat, b: nat, stops: set<char>)
    requires a <= b <= |s| && forall j :: a <= j < b ==> s[j] !in stops
    ensures forall x :: x in s[a..b] ==> x !in stops
  {
    forall x | x in s[a..b]
      ensures x !in stops
    {
      var j :| 0 <= j < b - a && s[a..b][j] == x;
      assert s[a + j] == x;
    }
  }

  lemma AllSpaceBetween(s: string, a: nat, b: nat)
    requires a <= b <= |s| && AllSpace(s[a..b])
    ensures forall i :: a <= i < b ==> IsSpace(s[i])
  {
    forall i | a <= i < b
      ensures IsSpace(s[i])
    {
      assert s[a..b][i - a] == s[i];
    }
  }

  predicate NoNewline(s: string) {
    '\n' !in s
  }

  /** The text has no whitespace at either end, as `str.strip()` leaves it. */
  predicate Stripped(s: string) {
    |s| == 0 || (!IsSpace(s[0]) && !IsSpace(s[|s| - 1]))
  }

  /** Slicing laws, stated once so that proofs can cite them in a small
      context; the bounds of the result are given as `x` (and `y`) so that
      the slice they name matches the caller's own term. */
  lemma DropDrop(s: string, a: nat, b: nat, x: nat)
    requires a + b <= |s| && x == a + b
    ensures s[a..][b..] == s[x..]
  {
  }

  lemma SliceOfDrop(s: string, a: nat, x: nat, y: nat, lo: nat, hi: nat)
    requires a <= lo <= hi <= |s| && x == lo - a && y == hi - a
    ensures s[a..][x..y] == s[lo..hi]
  {
  }

  lemma TakeOfDrop(s: string, a: nat, b: nat, y: nat)
    requires a + b <= |s| && y == a + b
    ensures s[a..][..b] == s[a..y]
  {
  }

  /** Number of leading whitespace characters. */
  function LeadCount(s: string): (k: nat)
    ensures k <= |s|
    ensures AllSpace(s[..k])
    ensures k < |s| ==> !IsSpace(s[k])
    ensures k == |s| <==> AllSpace(s)
  {
    var k := SpaceEnd(s, 0);
    assert forall j :: 0 <= j < k ==> s[..k][j] == s[j];
    k
  }

  /** The end of the run of whitespace that starts at `i`. */
  function SpaceEnd(s: string, i: nat): (k: nat)
    requires i <= |s|
    ensures i <= k <= |s|
    ensures forall j :: i <= j < k ==> IsSpace(s[j])
    ensures k < |s| ==> !IsSpace(s[k])
    decreases |s| - i
  {
    if i < |s| && IsSpace(s[i]) then SpaceEnd(s, i + 1) else i
  }

  /** Number of trailing whitespace characters. */
  function TrailCount(s: string): (k: nat)
    ensures k <= |s|
    ensures AllSpace(s[|s| - k..])
    ensures k < |s| ==> !IsSpace(s[|s| - k - 1])
    ensures k == |s| <==> AllSpace(s)
  {
    var b := SpaceStart(s, |s|);
    assert forall j :: 0 <= j < |s| - b ==> s[b..][j] == s[b + j];
    |s| - b
  }

  /** The start of the run of whitespace that ends at `e`. */
  function SpaceStart(s: string, e: nat): (b: nat)
    requires e <= |s|
    ensures b <= e
    ensures forall j :: b <= j < e ==> IsSpace(s[j])
    ensures b > 0 ==> !IsSpace(s[b - 1])
    decreases e
  {
    if e > 0 && IsSpace(s[e - 1]) then SpaceStart(s, e - 1) else e
  }

  /** `str.lstrip()`. */
  function LStrip(s: string): (r: string)
    ensures r == s[LeadCount(s)..]
    ensures |r| > 0 ==> !IsSpace(r[0])
  {
    s[LeadCount(s)..]
  }

  /** `str.rstrip()`. */
  function RStrip(s: string): (r: string)
    ensures r == s[..|s| - TrailCount(s)]
    ensures |r| > 0 ==> !IsSpace(r[|r| - 1])
  {
    s[..|s| - TrailCount(s)]
  }

  /** `str.strip()`: the text between the leading and the trailing whitespace. */
  function Strip(s: string): (r: string)
    ensures Stripped(r)
    ensures LeadCount(s) + |r| <= |s|
    ensures r == s[LeadCount(s)..LeadCount(s) + |r|]
    ensures AllSpace(s[LeadCount(s) + |r|..])
    ensures |r| == 0 <==> AllSpace(s)
  {
    var r := RStrip(s[LeadCount(s)..]);
    StripKeeps(s, r);
    StripDrops(s, r);
    StripEmpty(s, r);
    r
  }

  // The facts behind Strip's contract, one per lemma, each stated on the
  // terms of that contract.

  lemma StripKeeps(s: string, r: string)
    requires r == RStrip(s[LeadCount(s)..])
    ensures LeadCount(s) + |r| <= |s| && r == s[LeadCount(s)..LeadCount(s) + |r|]
  {
    var a := LeadCount(s);
    TakeOfDrop(s, a, |r|, a + |r|);
  }

  lemma StripDrops(s: string, r: string)
    requires r == RStrip(s[LeadCount(s)..])
    ensures LeadCount(s) + |r| <= |s| && AllSpace(s[LeadCount(s) + |r|..])
  {
    var a := LeadCount(s);
    DropDrop(s, a, |r|, a + |r|);
  }

  lemma StripEmpty(s: string, r: string)
    requires r == RStrip(s[LeadCount(s)..])
    ensures |r| == 0 <==> AllSpace(s)
  {
    var a := LeadCount(s);
    if a < |s| {
      assert s[a..][0] == s[a];
    }
  }

  lemma AllSpaceConcat(x: string, y: string)
    requires AllSpace(x) && AllSpace(y)
    ensures AllSpace(x + y)
  {
    forall i | 0 <= i < |x + y| ensures IsSpace((x + y)[i]) {
      if i < |x| { assert (x + y)[i] == x[i]; } else { assert (x + y)[i] == y[i - |x|]; }
    }
  }

  lemma StripOfStripped(s: string)
    requires Stripped(s)
    ensures Strip(s) == s
  {
    if |s| > 0 {
      assert LeadCount(s) == 0;
      assert TrailCount(s) == 0;
    }
  }

  /** The leading-whitespace count is the first position that is not
      whitespace. */
  lemma LeadCountIs(s: string, k: nat)
    requires k <= |s| && (k < |s| ==> !IsSpace(s[k]))
    requires forall j :: 0 <= j < k ==> IsSpace(s[j])
    ensures LeadCount(s) == k
  {
  }

  /** Whitespace in front of a text does not change what stripping leaves. */
  lemma StripSkipsSpaces(s: string, a: nat, b: nat, c: nat)
    requires a <= b <= c <= |s|
    requires forall j :: a <= j < b ==> IsSpace(s[j])
    ensures Strip(s[a..c]) == Strip(s[b..c])
  {
    var x, y := s[a..c], s[b..c];
    var k := LeadCount(y);
    forall j | 0 <= j < b - a + k
      ensures IsSpace(x[j])
    {
      if j >= b - a {
        assert y[..k][j - (b - a)] == y[j - (b - a)];
      }
    }
    if b - a + k < |x| {
      assert x[b - a + k] == y[k];
    }
    LeadCountIs(x, b - a + k);
    assert x[b - a + k..] == y[k..];
  }

  lemma StripSkipsLeading(s: string, a: nat, b: nat)
    requires a <= b <= |s|
    requires forall j :: a <= j < b ==> IsSpace(s[j])
    ensures Strip(s[a..]) == Strip(s[b..])
  {
    assert s[a..|s|] == s[a..];
    assert s[b..|s|] == s[b..];
    StripSkipsSpaces(s, a, b, |s|);
  }

  /** Text that does not end in whitespace only loses its leading whitespace. */
  lemma StripUntrailed(s: string)
    requires |s| == 0 || !IsSpace(s[|s| - 1])
    ensures Strip(s) == s[LeadCount(s)..]
  {
    var t := s[LeadCount(s)..];
    if |t| > 0 {
      assert t[|t| - 1] == s[|s| - 1];
    }
    assert TrailCount(t) == 0;
  }

  /** Stripping a suffix of stripped text only drops that suffix's leading
      whitespace. */
  lemma StripSuffixOfStripped(s: string, k: nat)
    requires Stripped(s) && k <= |s|
    ensures k + LeadCount(s[k..]) <= |s|
    ensures Strip(s[k..]) == s[k + LeadCount(s[k..])..]
    ensures AllSpace(s[k..k + LeadCount(s[k..])])
  {
    var t := s[k..];
    var a := LeadCount(t);
    assert t[..a] == s[k..k + a];
    if |t| > 0 {
      assert t[|t| - 1] == s[|s| - 1];
      assert TrailCount(t[a..]) == 0 by {
        if |t[a..]| > 0 { assert t[a..][|t[a..]| - 1] == s[|s| - 1]; }
      }
    }
  }

  /** `sep.join(xs)`. */
  function Join(xs: seq<string>, sep: string): string {
    if |xs| == 0 then ""
    else if |xs| == 1 then xs[0]
    else xs[0] + sep + Join(xs[1..], sep)
  }

  /** `s.split(sep)` for a one-character separator. */
  function Split(s: string, sep: char): (r: seq<string>)
    ensures |r| >= 1
    ensures forall i :: 0 <= i < |r| ==> sep !in r[i]
  {
    if |s| == 0 then [""]
    else
      var rest := Split(s[1..], sep);
      if s[0] == sep then [""] + rest
      else [[s[0]] + rest[0]] + rest[1..]
  }

  /** Joining the pieces of a split with the separator gives the text back. */
  lemma {:induction false} JoinSplit(s: string, sep: char)
    ensures Join(Split(s, sep), [sep]) == s
  {
    if |s| > 0 {
      var rest := Split(s[1..], sep);
      JoinSplit(s[1..], sep);
      if s[0] == sep {
        assert Split(s, sep) == [""] + rest;
        assert ([""] + rest)[1..] == rest;
      } else {
        var r := Split(s, sep);
        assert r == [[s[0]] + rest[0]] + rest[1..];
        if |rest| > 1 {
          assert r[1..] == rest[1..];
          assert Join(rest, [sep]) == rest[0] + [sep] + Join(rest[1..], [sep]);
        }
      }
      assert s == [s[0]] + s[1..];
    }
  }

  lemma {:induction false} SplitNoSep(a: string, sep: char)
    requires sep !in a
    ensures Split(a, sep) == [a]
  {
    if |a| > 0 {
      SplitNoSep(a[1..], sep);
      assert a == [a[0]] + a[1..];
    }
  }

  lemma {:induction false} SplitAfterPiece(a: string, sep: char, b: string)
    requires sep !in a
    ensures Split(a + [sep] + b, sep) == [a] + Split(b, sep)
  {
    if |a| == 0 {
      assert (a + [sep] + b)[1..] == b;
    } else {
      SplitAfterPiece(a[1..], sep, b);
      assert (a + [sep] + b)[1..] == a[1..] + [sep] + b;
      assert a == [a[0]] + a[1..];
    }
  }

  /** Splitting a join of separator-free pieces gives the pieces back. */
  lemma {:induction false} SplitJoin(xs: seq<string>, sep: char)
    requires |xs| >= 1
    requires forall i :: 0 <= i < |xs| ==> sep !in xs[i]
    ensures Split(Join(xs, [sep]), sep) == xs
  {
    if |xs| == 1 {
      SplitNoSep(xs[0], sep);
    } else {
      SplitJoin(xs[1..], sep);
      SplitAfterPiece(xs[0], sep, Join(xs[1..], [sep]));
      assert xs == [xs[0]] + xs[1..];
    }
  }

  /** Joining two non-empty lists puts one separator between their joins. */
  lemma {:induction false} JoinAppend(xs: seq<string>, ys: seq<string>, sep: string)
    requires |xs| > 0 && |ys| > 0
    ensures Join(xs + ys, sep) == Join(xs, sep) + sep + Join(ys, sep)
  {
    if |xs| == 1 {
      assert (xs + ys)[1..] == ys;
    } else {
      assert (xs + ys)[1..] == xs[1..] + ys;
      JoinAppend(xs[1..], ys, sep);
    }
  }

  /** `s.replace(pat, rep)`: every non-overlapping occurrence, left to right. */
  function ReplaceAll(s: string, pat: string, rep: string): string
    requires |pat| > 0
  {
    if |s| == 0 then ""
    else if pat <= s then rep + ReplaceAll(s[|pat|..], pat, rep)
    else [s[0]] + ReplaceAll(s[1..], pat, rep)
  }

  /** Python's `t in s` for strings. */
  predicate Contains(s: string, t: string) {
    t <= s || (|s| > 0 && Contains(s[1..], t))
  }

  /** The first index at or after `k` holding one of `stops`. */
  function FirstFrom(s: string, k: nat, stops: set<char>): (r: Option<nat>)
    requires k <= |s|
    ensures r.Some? ==> k <= r.value < |s| && s[r.value] in stops
    ensures r.Some? ==> forall j :: k <= j < r.value ==> s[j] !in stops
    ensures r.None? ==> forall j :: k <= j < |s| ==> s[j] !in stops
    decreases |s| - k
  {
    if k == |s| then None
    else if s[k] in stops then Some(k)
    else FirstFrom(s, k + 1, stops)
  }

  /** A stop found in `s` is found at the same place in every extension of `s`. */
  lemma {:induction false} FirstFromExtend(s: string, u: string, k: nat, stops: set<char>)
    requires k <= |s| && FirstFrom(s, k, stops).Some?
    ensures FirstFrom(s + u, k, stops) == FirstFrom(s, k, stops)
    decreases |s| - k
  {
    if s[k] !in stops {
      FirstFromExtend(s, u, k + 1, stops);
    }
  }

  /** The first index at or after `k` that is not whitespace, or `|s|`. */
  function SkipSpaces(s: string, k: nat): (r: nat)
    requires k <= |s|
    ensures k <= r <= |s|
    ensures forall j :: k <= j < r ==> IsSpace(s[j])
    ensures r < |s| ==> !IsSpace(s[r])
    decreases |s| - k
  {
    if k < |s| && IsSpace(s[k]) then SkipSpaces(s, k + 1) else k
  }

  function DigitChar(d: nat): (c: char)
    requires d < 10
    ensures '0' <= c <= '9'
  {
    ('0' as int + d) as char
  }

  /** `str(n)` for a non-negative integer: decimal digits, no leading zero. */
  function NatToString(n: nat): (r: string)
    ensures |r| >= 1
    ensures forall i :: 0 <= i < |r| ==> '0' <= r[i] <= '9'
    ensures n >= 10 ==> |r| >= 2
  {
    if n < 10 then [DigitChar(n)]
    else NatToString(n / 10) + [DigitChar(n % 10)]
  }

  /** Distinct numbers print differently. */
  lemma {:induction false} NatToStringInjective(a: nat, b: nat)
    requires NatToString(a) == NatToString(b)
    ensures a == b
  {
    if a >= 10 && b >= 10 {
      var sa, sb := NatToString(a), NatToString(b);
      assert sa[|sa| - 1] == DigitChar(a % 10);
      assert sb[|sb| - 1] == DigitChar(b % 10);
      assert sa[..|sa| - 1] == NatToString(a / 10);
      assert sb[..|sb| - 1] == NatToString(b / 10);
      NatToStringInjective(a / 10, b / 10);
    } else if a < 10 && b < 10 {
      assert NatToString(a)[0] == DigitChar(a);
      assert NatToString(b)[0] == DigitChar(b);
    }
  }
}
