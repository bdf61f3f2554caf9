/** The pure string helpers of `TextUtils` and `ConfigUtils.deep_merge`:
    URL slugs, truncation with an ellipsis, HTML escaping and its inverse,
    annotation extraction, and the recursive merge of configuration dicts. */
module TextUtils {
  import opened Wrappers
  import opened Text
  import opened Patterns
  import opened Values

  // ---------------------------------------------------------------------
  // slugify
  // ---------------------------------------------------------------------

  /** The characters `re.sub(r'[^\w\s-]', '', ...)` keeps. */
  predicate SlugKeeps(c: char) {
    IsWordChar(c) || IsSpace(c) || c == '-'
  }

  /** The class `[-\s]`. */
  predicate IsSep(c: char) {
    c == '-' || IsSpace(c)
  }

  /** The position just past the run of separators that starts at `k`. */
  function SepRunEnd(s: string, k: nat): (e: nat)
    requires k <= |s|
    ensures k <= e <= |s|
    ensures forall i :: k <= i < e ==> IsSep(s[i])
    ensures e == |s| || !IsSep(s[e])
    decreases |s| - k
  {
    if k < |s| && IsSep(s[k]) then SepRunEnd(s, k + 1) else k
  }

  /** `re.sub(r'[-\s]+', '-', s)`: every maximal run of separators becomes
      one '-'. */
  function Collapse(s: string): (r: string)
    ensures |r| == 0 <==> |s| == 0
    ensures |r| > 0 ==> (r[0] == '-' <==> IsSep(s[0]))
    ensures forall i :: 0 <= i < |r| ==> r[i] == '-' || (r[i] in s && !IsSep(r[i]))
    ensures forall c :: c in s && !IsSep(c) ==> c in r
    ensures forall i :: 0 <= i < |r| - 1 ==> !(r[i] == '-' && r[i + 1] == '-')
    decreases |s|
  {
    if |s| == 0 then ""
    else if IsSep(s[0]) then
      var e := SepRunEnd(s, 0);
      var rest := Collapse(s[e..]);
      assert forall c :: c in s && !IsSep(c) ==> c in s[e..] by {
        forall c | c in s && !IsSep(c) ensures c in s[e..] {
          var i :| 0 <= i < |s| && s[i] == c;
          assert s[e..][i - e] == c;
        }
      }
      "-" + rest
    else
      [s[0]] + Collapse(s[1..])
  }

  /** `slugify`: lower-case and trim, drop every character that is not a
      word character, whitespace or '-', then turn each run of '-' and
      whitespace into a single '-'. */
  function Slugify(text: string): (r: string)
    ensures text == "" ==> r == ""
    ensures forall i :: 0 <= i < |r| ==> IsWordChar(r[i]) || r[i] == '-'
    ensures forall i :: 0 <= i < |r| ==> !IsSpace(r[i]) && !('A' <= r[i] <= 'Z')
    ensures forall i :: 0 <= i < |r| - 1 ==> !(r[i] == '-' && r[i + 1] == '-')
  {
    if |text| == 0 then ""
    else
      var low := Strip(LowerStr(text));
      StripLowerHasNoUpper(text);
      Collapse(Filter(SlugKeeps, low))
  }

  /** Lower-casing then trimming leaves no upper-case letter. */
  lemma StripLowerHasNoUpper(text: string)
    ensures forall c :: c in Strip(LowerStr(text)) ==> !('A' <= c <= 'Z')
  {
    var low := LowerStr(text);
    StripIsInner(low);
    forall c | c in low ensures !('A' <= c <= 'Z') {
      var i :| 0 <= i < |low| && low[i] == c;
    }
  }

  /** Every character of a trimmed text is a character of the text. */
  lemma StripIsInner(s: string)
    ensures forall c :: c in Strip(s) ==> c in s
  {
    var r := Strip(s);
    var a := LeadCount(s);
    forall c | c in r ensures c in s {
      var i :| 0 <= i < |r| && r[i] == c;
      assert s[a + i] == c;
    }
  }

  /** Trimming keeps every character that is not whitespace. */
  lemma StripKeepsInk(s: string, c: char)
    requires c in s && !IsSpace(c)
    ensures c in Strip(s)
  {
    var st := Strip(s);
    var i :| 0 <= i < |s| && s[i] == c;
    var a := LeadCount(s);
    assert a <= i < a + |st|;
    assert st[i - a] == c;
  }

  /** The slug holds exactly the word characters of the lower-cased text. */
  lemma SlugifyKeepsWords(text: string, c: char)
    ensures c in Slugify(text) && c != '-' <==> IsWordChar(c) && c in LowerStr(text)
  {
    var low := LowerStr(text);
    if |text| > 0 {
      var st := Strip(low);
      var f := Filter(SlugKeeps, st);
      assert Slugify(text) == Collapse(f);
      SpaceIsNotWord(c);
      if IsWordChar(c) && c in low {
        StripKeepsInk(low, c);
        assert c in f;
      }
      if c in Collapse(f) && c != '-' {
        assert c in f;
        StripIsInner(low);
      }
    }
  }

  /** A text that is already a slug reads the same after lower-casing. */
  lemma LowerStrOfSlug(s: string)
    requires forall i :: 0 <= i < |s| ==> !('A' <= s[i] <= 'Z')
    ensures LowerStr(s) == s
  {
  }

  /** Dropping characters from a text none of whose characters is dropped
      changes nothing. */
  lemma {:induction false} FilterAllKept(s: string)
    requires forall i :: 0 <= i < |s| ==> SlugKeeps(s[i])
    ensures Filter(SlugKeeps, s) == s
  {
    if |s| > 0 {
      FilterAllKept(s[1..]);
      assert s == [s[0]] + s[1..];
    }
  }

  /** Collapsing a text with no whitespace and no doubled '-' changes nothing. */
  lemma {:induction false} CollapseOfSlug(s: string)
    requires forall i :: 0 <= i < |s| ==> !IsSpace(s[i])
    requires forall i :: 0 <= i < |s| - 1 ==> !(s[i] == '-' && s[i + 1] == '-')
    ensures Collapse(s) == s
  {
    if |s| > 0 {
      if IsSep(s[0]) {
        assert SepRunEnd(s, 0) == 1 by {
          if |s| > 1 { assert !IsSep(s[1]); }
        }
        CollapseOfSlug(s[1..]);
      } else {
        CollapseOfSlug(s[1..]);
      }
      assert s == [s[0]] + s[1..];
    }
  }

  /** `slugify` is idempotent: a slug is its own slug. */
  lemma SlugifyIdempotent(text: string)
    ensures Slugify(Slugify(text)) == Slugify(text)
  {
    var s := Slugify(text);
    if |s| > 0 {
      LowerStrOfSlug(s);
      assert Stripped(s);
      StripOfStripped(s);
      FilterAllKept(s);
      CollapseOfSlug(s);
    }
  }

  // ---------------------------------------------------------------------
  // truncate
  // ---------------------------------------------------------------------

  /** Python's `s[:k]`: a negative `k` counts from the end, and both ends
      are clamped to the text. */
  function PrefixTo(s: string, k: int): (r: string)
    ensures r <= s
    ensures |r| == if k >= |s| then |s| else if k >= 0 then k else if |s| + k >= 0 then |s| + k else 0
  {
    if k >= |s| then s
    else if k >= 0 then s[..k]
    else if |s| + k >= 0 then s[..|s| + k]
    else ""
  }

  /** `truncate(text, length, ellipsis)`: text longer than `length` keeps
      the prefix `text[:length - len(ellipsis)]` followed by the ellipsis. */
  function Truncate(text: string, length: int, ellipsis: string): (r: string)
    ensures |text| <= length ==> r == text
    ensures |text| > length && length >= |ellipsis| ==>
      (&& |r| == length && r[length - |ellipsis|..] == ellipsis
       && r[..length - |ellipsis|] == text[..length - |ellipsis|])
    ensures |text| > length ==>
      (&& |r| >= |ellipsis| && r[|r| - |ellipsis|..] == ellipsis
       && r[..|r| - |ellipsis|] <= text)
  {
    if |text| <= length then text
    else
      var head := PrefixTo(text, length - |ellipsis|);
      var r := head + ellipsis;
      assert r[..|head|] == head && r[|head|..] == ellipsis;
      r
  }

  /** With a limit shorter than the ellipsis the slice index is negative,
      so Python counts it from the end of the text: the result is longer
      than the limit, and can be longer than the text itself. */
  lemma TruncateBelowEllipsis(text: string, length: int, ellipsis: string)
    requires length < |text| && length < |ellipsis|
    ensures var keep := if |text| + length - |ellipsis| >= 0 then |text| + length - |ellipsis| else 0;
      Truncate(text, length, ellipsis) == text[..keep] + ellipsis
  {
  }

  lemma TruncateCanGrow()
    ensures Truncate("abcdef", 1, "...") == "abcd..."
  {
    assert Truncate("abcdef", 1, "...") == "abcdef"[..4] + "...";
  }

  // ---------------------------------------------------------------------
  // escape_html
  // ---------------------------------------------------------------------

  /** The characters `escape_html` must remove from the text. */
  predicate Markup(c: char) {
    c == '<' || c == '>' || c == '"' || c == '\''
  }

  /** The entity `escape_html` writes for one character, or the character. */
  function EscapeChar(c: char): (r: string)
    ensures c == '&' <==> r == "&amp;"
    ensures forall i :: 0 <= i < |r| ==> !Markup(r[i])
  {
    match c
    case '&' => "&amp;"
    case '<' => "&lt;"
    case '>' => "&gt;"
    case '"' => "&quot;"
    case '\'' => "&#39;"
    case _ => [c]
  }

  /** Escaping one character at a time: the reference definition. */
  function EscapeRef(s: string): (r: string)
    ensures forall i :: 0 <= i < |r| ==> !Markup(r[i])
  {
    if |s| == 0 then ""
    else
      var h, t := EscapeChar(s[0]), EscapeRef(s[1..]);
      assert forall i :: |h| <= i < |h + t| ==> (h + t)[i] == t[i - |h|];
      h + t
  }

  /** `escape_html` as written: five whole-text replacements, '&' first. */
  function EscapeHtml(text: string): (r: string)
    ensures forall i :: 0 <= i < |r| ==> !Markup(r[i])
  {
    EscapeIsPerChar(text);
    EscapeSteps(text)
  }

  function EscapeSteps(text: string): string {
    var t1 := ReplaceAll(text, "&", "&amp;");
    var t2 := ReplaceAll(t1, "<", "&lt;");
    var t3 := ReplaceAll(t2, ">", "&gt;");
    var t4 := ReplaceAll(t3, "\"", "&quot;");
    ReplaceAll(t4, "'", "&#39;")
  }

  /** Replacing a single character distributes over concatenation. */
  lemma {:induction false} ReplaceCharConcat(a: string, b: string, c: char, rep: string)
    ensures ReplaceAll(a + b, [c], rep) == ReplaceAll(a, [c], rep) + ReplaceAll(b, [c], rep)
  {
    if |a| == 0 {
      assert a + b == b;
    } else {
      assert (a + b)[0] == a[0];
      assert [c] <= a + b <==> [c] <= a;
      assert (a + b)[1..] == a[1..] + b;
      ReplaceCharConcat(a[1..], b, c, rep);
    }
  }

  lemma EscapeStepsConcat(a: string, b: string)
    ensures EscapeSteps(a + b) == EscapeSteps(a) + EscapeSteps(b)
  {
    ReplaceCharConcat(a, b, '&', "&amp;");
    var a1, b1 := ReplaceAll(a, "&", "&amp;"), ReplaceAll(b, "&", "&amp;");
    ReplaceCharConcat(a1, b1, '<', "&lt;");
    var a2, b2 := ReplaceAll(a1, "<", "&lt;"), ReplaceAll(b1, "<", "&lt;");
    ReplaceCharConcat(a2, b2, '>', "&gt;");
    var a3, b3 := ReplaceAll(a2, ">", "&gt;"), ReplaceAll(b2, ">", "&gt;");
    ReplaceCharConcat(a3, b3, '"', "&quot;");
    var a4, b4 := ReplaceAll(a3, "\"", "&quot;"), ReplaceAll(b3, "\"", "&quot;");
    ReplaceCharConcat(a4, b4, '\'', "&#39;");
  }

  /** A text without the character is left alone by its replacement. */
  lemma {:induction false} ReplaceAbsent(s: string, c: char, rep: string)
    requires c !in s
    ensures ReplaceAll(s, [c], rep) == s
  {
    if |s| > 0 {
      ReplaceAbsent(s[1..], c, rep);
      assert s == [s[0]] + s[1..];
    }
  }

  lemma EscapeStepsChar(c: char)
    ensures EscapeSteps([c]) == EscapeChar(c)
  {
    var t1 := ReplaceAll([c], "&", "&amp;");
    if c == '&' {
      assert t1 == "&amp;" by { assert [c][1..] == ""; }
      ReplaceAbsent(t1, '<', "&lt;");
      ReplaceAbsent(t1, '>', "&gt;");
      ReplaceAbsent(t1, '"', "&quot;");
      ReplaceAbsent(t1, '\'', "&#39;");
    } else {
      ReplaceAbsent([c], '&', "&amp;");
      var t2 := ReplaceAll(t1, "<", "&lt;");
      if c == '<' {
        assert t2 == "&lt;" by { assert [c][1..] == ""; }
        ReplaceAbsent(t2, '>', "&gt;");
        ReplaceAbsent(t2, '"', "&quot;");
        ReplaceAbsent(t2, '\'', "&#39;");
      } else {
        ReplaceAbsent(t1, '<', "&lt;");
        var t3 := ReplaceAll(t2, ">", "&gt;");
        if c == '>' {
          assert t3 == "&gt;" by { assert [c][1..] == ""; }
          ReplaceAbsent(t3, '"', "&quot;");
          ReplaceAbsent(t3, '\'', "&#39;");
        } else {
          ReplaceAbsent(t2, '>', "&gt;");
          var t4 := ReplaceAll(t3, "\"", "&quot;");
          if c == '"' {
            assert t4 == "&quot;" by { assert [c][1..] == ""; }
            ReplaceAbsent(t4, '\'', "&#39;");
          } else {
            ReplaceAbsent(t3, '"', "&quot;");
            if c == '\'' {
              assert ReplaceAll(t4, "'", "&#39;") == "&#39;" by { assert [c][1..] == ""; }
            } else {
              ReplaceAbsent(t4, '\'', "&#39;");
            }
          }
        }
      }
    }
  }

  /** Because '&' is replaced first, the entities later passes insert are
      never escaped again: the five passes escape each character on its own. */
  lemma {:induction false} EscapeIsPerChar(s: string)
    ensures EscapeSteps(s) == EscapeRef(s)
  {
    if |s| > 0 {
      assert s == [s[0]] + s[1..];
      EscapeStepsConcat([s[0]], s[1..]);
      EscapeStepsChar(s[0]);
      EscapeIsPerChar(s[1..]);
    }
  }

  lemma EscapeHtmlIsRef(s: string)
    ensures EscapeHtml(s) == EscapeRef(s)
  {
    EscapeIsPerChar(s);
  }

  // ---------------------------------------------------------------------
  // unescape_html
  // ---------------------------------------------------------------------

  /** `unescape_html` as written: five whole-text replacements, "&amp;" first. */
  function UnescapeHtml(text: string): string {
    var t1 := ReplaceAll(text, "&amp;", "&");
    var t2 := ReplaceAll(t1, "&lt;", "<");
    var t3 := ReplaceAll(t2, "&gt;", ">");
    var t4 := ReplaceAll(t3, "&quot;", "\"");
    ReplaceAll(t4, "&#39;", "'")
  }

  /** The five entities of the table. */
  predicate IsEntity(e: string) {
    e == "&amp;" || e == "&lt;" || e == "&gt;" || e == "&quot;" || e == "&#39;"
  }

  /** A piece of escaped text: one entity, or text without '&'. */
  predicate IsPiece(p: string) {
    IsEntity(p) || '&' !in p
  }

  function Concat(ps: seq<string>): string {
    if |ps| == 0 then "" else ps[0] + Concat(ps[1..])
  }

  /** Every piece equal to `pat` replaced by `rep`. */
  function Subst(ps: seq<string>, pat: string, rep: string): (r: seq<string>)
    ensures |r| == |ps|
    ensures forall i :: 0 <= i < |ps| ==> r[i] == if ps[i] == pat then rep else ps[i]
  {
    if |ps| == 0 then [] else [if ps[0] == pat then rep else ps[0]] + Subst(ps[1..], pat, rep)
  }

  /** A text whose first character differs from the pattern's keeps that
      character and goes on with the rest. */
  lemma ReplaceMissStep(s: string, pat: string, rep: string)
    requires |s| > 0 && |pat| > 0 && s[0] != pat[0]
    ensures ReplaceAll(s, pat, rep) == [s[0]] + ReplaceAll(s[1..], pat, rep)
  {
    assert !(pat <= s);
  }

  /** The first character of `u + v` and the rest, for a non-empty `u`
      without '&'. */
  lemma PlainHead(u: string, v: string)
    requires |u| > 0 && '&' !in u
    ensures (u + v)[0] == u[0] != '&'
    ensures (u + v)[1..] == u[1..] + v
    ensures '&' !in u[1..]
  {
    assert u[0] in u;
    assert forall c :: c in u[1..] ==> c in u;
  }

  /** Text without '&' cannot hold an entity, so a replacement skips it. */
  lemma {:induction false} ReplaceSkipsPlain(u: string, v: string, pat: string, rep: string)
    requires |pat| > 0 && pat[0] == '&' && '&' !in u
    ensures ReplaceAll(u + v, pat, rep) == u + ReplaceAll(v, pat, rep)
  {
    if |u| == 0 {
      assert u + v == v;
    } else {
      PlainHead(u, v);
      ReplaceMissStep(u + v, pat, rep);
      ReplaceSkipsPlain(u[1..], v, pat, rep);
      assert u == [u[0]] + u[1..];
    }
  }

  /** Two different entities differ in their second character. */
  lemma EntitiesDiffer(e: string, pat: string)
    requires IsEntity(e) && IsEntity(pat) && e != pat
    ensures |e| >= 4 && |pat| >= 4 && e[0] == '&' && e[1] != pat[1]
    ensures '&' !in e[1..]
  {
  }

  /** A replacement finds its pattern at the start of the text. */
  lemma ReplaceHit(pat: string, v: string, rep: string)
    requires |pat| > 0
    ensures ReplaceAll(pat + v, pat, rep) == rep + ReplaceAll(v, pat, rep)
  {
    var t := pat + v;
    assert t[..|pat|] == pat && t[|pat|..] == v;
  }

  /** A piece that starts with '&' but differs from the pattern in its second
      character, and holds no other '&', is copied whole. */
  lemma ReplaceMiss(e: string, v: string, pat: string, rep: string)
    requires |e| >= 2 && |pat| >= 2 && pat[0] == '&' && e[1] != pat[1] && '&' !in e[1..]
    ensures ReplaceAll(e + v, pat, rep) == e + ReplaceAll(v, pat, rep)
  {
    var t := e + v;
    assert t[1] == e[1];
    assert !(pat <= t);
    assert t[1..] == e[1..] + v;
    ReplaceSkipsPlain(e[1..], v, pat, rep);
    assert e == [e[0]] + e[1..];
  }

  /** So an entity at the start of the text is replaced exactly when it is
      the pattern. */
  lemma EntityStart(e: string, v: string, pat: string, rep: string)
    requires IsEntity(e) && IsEntity(pat)
    ensures ReplaceAll(e + v, pat, rep) == (if e == pat then rep else e) + ReplaceAll(v, pat, rep)
  {
    if e == pat {
      ReplaceHit(pat, v, rep);
    } else {
      EntitiesDiffer(e, pat);
      EntitiesDiffer(pat, e);
      ReplaceMiss(e, v, pat, rep);
    }
  }

  /** On text cut into pieces, replacing an entity replaces whole pieces. */
  lemma {:induction false} ReplaceOverPieces(ps: seq<string>, pat: string, rep: string)
    requires IsEntity(pat)
    requires forall i :: 0 <= i < |ps| ==> IsPiece(ps[i])
    ensures ReplaceAll(Concat(ps), pat, rep) == Concat(Subst(ps, pat, rep))
  {
    if |ps| > 0 {
      ReplaceOverPieces(ps[1..], pat, rep);
      assert Subst(ps, pat, rep)[1..] == Subst(ps[1..], pat, rep);
      if IsEntity(ps[0]) {
        EntityStart(ps[0], Concat(ps[1..]), pat, rep);
      } else {
        ReplaceSkipsPlain(ps[0], Concat(ps[1..]), pat, rep);
        assert '&' in pat by { assert pat[0] == '&'; }
      }
    }
  }

  /** Every piece is an entity or text without '&'. */
  predicate AllPieces(ps: seq<string>) {
    forall i :: 0 <= i < |ps| ==> IsPiece(ps[i])
  }

  /** One pass of `unescape_html` whose replacement holds no '&': whole
      pieces are replaced, and the result is still cut into pieces. */
  lemma PassOverPieces(ps: seq<string>, pat: string, rep: string)
    requires AllPieces(ps) && IsEntity(pat) && '&' !in rep
    ensures ReplaceAll(Concat(ps), pat, rep) == Concat(Subst(ps, pat, rep))
    ensures AllPieces(Subst(ps, pat, rep))
  {
    ReplaceOverPieces(ps, pat, rep);
  }

  /** The escaped text, one piece per character of the original. */
  function EscapePieces(s: string): (r: seq<string>)
    ensures |r| == |s|
    ensures forall i :: 0 <= i < |s| ==> r[i] == EscapeChar(s[i])
  {
    if |s| == 0 then [] else [EscapeChar(s[0])] + EscapePieces(s[1..])
  }

  lemma {:induction false} ConcatEscapePieces(s: string)
    ensures Concat(EscapePieces(s)) == EscapeRef(s)
  {
    if |s| > 0 {
      assert EscapePieces(s)[1..] == EscapePieces(s[1..]);
      ConcatEscapePieces(s[1..]);
    }
  }

  lemma {:induction false} ConcatSingletons(ps: seq<string>, s: string)
    requires |ps| == |s|
    requires forall i :: 0 <= i < |s| ==> ps[i] == [s[i]]
    ensures Concat(ps) == s
  {
    if |s| > 0 {
      ConcatSingletons(ps[1..], s[1..]);
      assert s == [s[0]] + s[1..];
    }
  }

  /** What the five passes do to one piece that is a whole entity or plain text. */
  function UnescapePiece(p: string): string {
    var p1 := if p == "&amp;" then "&" else p;
    var p2 := if p1 == "&lt;" then "<" else p1;
    var p3 := if p2 == "&gt;" then ">" else p2;
    var p4 := if p3 == "&quot;" then "\"" else p3;
    if p4 == "&#39;" then "'" else p4
  }

  lemma UnescapePieceOfEscape(c: char)
    requires c != '&'
    ensures UnescapePiece(EscapeChar(c)) == [c]
  {
  }

  /** The five passes of `unescape_html` on pieces. */
  function UnescapePieces(p0: seq<string>): (r: seq<string>)
    ensures |r| == |p0|
  {
    Subst(Subst(Subst(Subst(Subst(p0, "&amp;", "&"), "&lt;", "<"), "&gt;", ">"), "&quot;", "\""), "&#39;", "'")
  }

  lemma UnescapePiecesAt(p0: seq<string>, i: nat)
    requires i < |p0|
    ensures UnescapePieces(p0)[i] == UnescapePiece(p0[i])
  {
  }

  /** A pass whose pattern is no piece changes no piece. */
  lemma SubstAbsent(ps: seq<string>, pat: string, rep: string)
    requires forall i :: 0 <= i < |ps| ==> ps[i] != pat
    ensures Subst(ps, pat, rep) == ps
  {
  }

  /** The last four passes of `unescape_html` on text cut into pieces. */
  lemma UnescapeLastPasses(p1: seq<string>)
    requires AllPieces(p1)
    ensures ReplaceAll(ReplaceAll(ReplaceAll(ReplaceAll(Concat(p1), "&lt;", "<"), "&gt;", ">"), "&quot;", "\""), "&#39;", "'")
         == Concat(Subst(Subst(Subst(Subst(p1, "&lt;", "<"), "&gt;", ">"), "&quot;", "\""), "&#39;", "'"))
  {
    PassOverPieces(p1, "&lt;", "<");
    var p2 := Subst(p1, "&lt;", "<");
    PassOverPieces(p2, "&gt;", ">");
    var p3 := Subst(p2, "&gt;", ">");
    PassOverPieces(p3, "&quot;", "\"");
    var p4 := Subst(p3, "&quot;", "\"");
    PassOverPieces(p4, "&#39;", "'");
  }

  /** The passes of `unescape_html` on escaped text cut into pieces, when no
      piece is "&amp;". */
  lemma UnescapeByPieces(p0: seq<string>)
    requires AllPieces(p0)
    requires forall i :: 0 <= i < |p0| ==> p0[i] != "&amp;"
    ensures UnescapeHtml(Concat(p0)) == Concat(UnescapePieces(p0))
  {
    ReplaceOverPieces(p0, "&amp;", "&");
    SubstAbsent(p0, "&amp;", "&");
    UnescapeLastPasses(p0);
  }

  /** `unescape_html` undoes `escape_html` on every text without '&'. */
  lemma UnescapeEscapeWithoutAmp(s: string)
    requires '&' !in s
    ensures UnescapeHtml(EscapeHtml(s)) == s
  {
    EscapeHtmlIsRef(s);
    ConcatEscapePieces(s);
    var p0 := EscapePieces(s);
    forall i | 0 <= i < |p0| ensures IsPiece(p0[i]) && p0[i] != "&amp;" {
      assert s[i] in s;
    }
    UnescapeByPieces(p0);
    var p5 := UnescapePieces(p0);
    forall i | 0 <= i < |s| ensures p5[i] == [s[i]] {
      assert s[i] in s;
      UnescapePiecesAt(p0, i);
      UnescapePieceOfEscape(s[i]);
    }
    ConcatSingletons(p5, s);
  }

  /** A text that starts with a character other than '&' is copied up to it. */
  lemma UnescapeHtmlPlainHead(c: char, v: string)
    requires c != '&'
    ensures UnescapeHtml([c] + v) == [c] + UnescapeHtml(v)
  {
    ReplaceSkipsPlain([c], v, "&amp;", "&");
    var v1 := ReplaceAll(v, "&amp;", "&");
    ReplaceSkipsPlain([c], v1, "&lt;", "<");
    var v2 := ReplaceAll(v1, "&lt;", "<");
    ReplaceSkipsPlain([c], v2, "&gt;", ">");
    var v3 := ReplaceAll(v2, "&gt;", ">");
    ReplaceSkipsPlain([c], v3, "&quot;", "\"");
    var v4 := ReplaceAll(v3, "&quot;", "\"");
    ReplaceSkipsPlain([c], v4, "&#39;", "'");
  }

  /** Text with no character to escape is its own escape. */
  lemma {:induction false} EscapeRefPlain(s: string)
    requires forall i :: 0 <= i < |s| ==> s[i] != '&' && !Markup(s[i])
    ensures EscapeRef(s) == s
  {
    if |s| > 0 {
      EscapeRefPlain(s[1..]);
      assert s == [s[0]] + s[1..];
    }
  }

  lemma EscapeOfEntity(a: string, b: string)
    requires a == "&" && b == "lt;"
    ensures EscapeHtml(a + b) == EscapeChar('&') + b
  {
    EscapeStepsConcat(a, b);
    EscapeStepsChar('&');
    EscapeIsPerChar(b);
    EscapeRefPlain(b);
  }

  /** The last three passes leave "<" alone. */
  lemma LastPassesOnLess()
    ensures ReplaceAll(ReplaceAll(ReplaceAll("<", "&gt;", ">"), "&quot;", "\""), "&#39;", "'") == "<"
  {
    ReplaceSkipsPlain("<", "", "&gt;", ">");
    ReplaceSkipsPlain("<", "", "&quot;", "\"");
    ReplaceSkipsPlain("<", "", "&#39;", "'");
    assert "<" + "" == "<";
  }

  /** The round trip fails once the text holds an entity: "&lt;" is escaped
      to "&amp;lt;", whose "&amp;" the first pass turns back into "&", and
      the second pass then decodes the "&lt;" it has just produced. */
  lemma UnescapeHtmlOverDecodes()
    ensures EscapeHtml("&lt;") == "&amp;lt;"
    ensures UnescapeHtml(EscapeHtml("&lt;")) == "<"
  {
    EscapeOfEntity("&", "lt;");
    assert "&" + "lt;" == "&lt;";
    assert EscapeChar('&') + "lt;" == "&amp;lt;";
    var ps := ["&amp;", "lt;"];
    assert Concat(ps) == "&amp;lt;";
    ReplaceOverPieces(ps, "&amp;", "&");
    assert Subst(ps, "&amp;", "&") == ["&", "lt;"];
    assert ReplaceAll("&amp;lt;", "&amp;", "&") == "&lt;";
    assert ReplaceAll("&lt;", "&lt;", "<") == "<" by {
      assert "&lt;"[4..] == "";
    }
    LastPassesOnLess();
  }

  /** The entity the text starts with, if any. */
  function EntityPrefix(t: string): (r: Option<string>)
    ensures r.Some? ==> IsEntity(r.value) && r.value <= t
  {
    if "&amp;" <= t then Some("&amp;")
    else if "&lt;" <= t then Some("&lt;")
    else if "&gt;" <= t then Some("&gt;")
    else if "&quot;" <= t then Some("&quot;")
    else if "&#39;" <= t then Some("&#39;")
    else None
  }

  /** The character an entity stands for. */
  function EntityChar(e: string): (c: char)
    requires IsEntity(e)
    ensures EscapeChar(c) == e
  {
    if e == "&amp;" then '&'
    else if e == "&lt;" then '<'
    else if e == "&gt;" then '>'
    else if e == "&quot;" then '"'
    else '\''
  }

  /** The intended inverse: one left-to-right pass that decodes each entity
      where it starts and copies every other character. */
  function Unescape(text: string): string
    decreases |text|
  {
    if |text| == 0 then ""
    else match EntityPrefix(text)
      case Some(e) => [EntityChar(e)] + Unescape(text[|e|..])
      case None => [text[0]] + Unescape(text[1..])
  }

  lemma EntityPrefixOfEntity(e: string, v: string)
    requires IsEntity(e)
    ensures EntityPrefix(e + v) == Some(e)
  {
    var t := e + v;
    assert t[..|e|] == e;
    assert t[1] == e[1];
  }

  lemma EntityPrefixPlain(c: char, v: string)
    requires c != '&'
    ensures EntityPrefix([c] + v) == None
  {
    assert ([c] + v)[0] == c;
  }

  /** The single-pass decoder undoes `escape_html` on every text. */
  lemma UnescapeEscape(s: string)
    ensures Unescape(EscapeHtml(s)) == s
  {
    EscapeHtmlIsRef(s);
    UnescapeEscapeRef(s);
  }

  /** The decoder reads an entity at the start as its character. */
  lemma UnescapeEntityStep(e: string, v: string)
    requires IsEntity(e)
    ensures Unescape(e + v) == [EntityChar(e)] + Unescape(v)
  {
    EntityPrefixOfEntity(e, v);
    assert (e + v)[|e|..] == v;
  }

  /** The decoder copies a first character other than '&'. */
  lemma UnescapePlainStep(c: char, v: string)
    requires c != '&'
    ensures Unescape([c] + v) == [c] + Unescape(v)
  {
    EntityPrefixPlain(c, v);
    assert ([c] + v)[1..] == v;
  }

  lemma {:induction false} UnescapeEscapeRef(s: string)
    ensures Unescape(EscapeRef(s)) == s
  {
    if |s| > 0 {
      var e, rest := EscapeChar(s[0]), EscapeRef(s[1..]);
      UnescapeEscapeRef(s[1..]);
      if s[0] == '&' || Markup(s[0]) {
        UnescapeEntityStep(e, rest);
        assert EntityChar(e) == s[0];
      } else {
        assert e == [s[0]];
        UnescapePlainStep(s[0], rest);
      }
      assert s == [s[0]] + s[1..];
    }
  }

  /** Text without '&' is its own decoding, under both decoders. */
  lemma {:induction false} UnescapePlain(t: string)
    requires '&' !in t
    ensures Unescape(t) == t
    ensures UnescapeHtml(t) == t
  {
    if |t| > 0 {
      assert t == [t[0]] + t[1..];
      assert t[0] in t;
      EntityPrefixPlain(t[0], t[1..]);
      UnescapePlain(t[1..]);
      UnescapeHtmlPlainHead(t[0], t[1..]);
    } else {
      assert ReplaceAll("", "&amp;", "&") == "";
    }
  }

  // ---------------------------------------------------------------------
  // extract_vibe_cards
  // ---------------------------------------------------------------------

  /** One `{content, annotation}` dict. */
  datatype VibeEntry = VibeEntry(content: string, annotation: string)

  function EntriesOf(ms: seq<Match>): (r: seq<VibeEntry>)
    ensures |r| == |ms|
    ensures forall i :: 0 <= i < |ms| ==> r[i] == VibeEntry(Strip(ms[i].g1), Strip(ms[i].g2))
  {
    if |ms| == 0 then [] else [VibeEntry(Strip(ms[0].g1), Strip(ms[0].g2))] + EntriesOf(ms[1..])
  }

  /** `extract_vibe_cards`: one entry per non-overlapping annotation span,
      left to right, both groups trimmed. */
  function ExtractVibeCards(text: string): (r: seq<VibeEntry>)
    ensures |r| == |FindAll(Of(Vibe), text)|
    ensures forall i :: 0 <= i < |r| ==> Stripped(r[i].content) && Stripped(r[i].annotation)
  {
    EntriesOf(FindAll(Of(Vibe), text))
  }

  /** Each entry is the trimmed groups of the span `finditer` reports at
      that position. */
  lemma ExtractVibeCardsSpans(text: string, i: nat)
    requires i < |ExtractVibeCards(text)|
    ensures var m := FindAll(Of(Vibe), text)[i];
      && VibeAt(text, m.start, true) == Some(m)
      && ExtractVibeCards(text)[i] == VibeEntry(Strip(m.g1), Strip(m.g2))
      && |ExtractVibeCards(text)[i].content| <= |m.g1|
      && '`' !in ExtractVibeCards(text)[i].content
      && ']' !in ExtractVibeCards(text)[i].annotation
  {
    VibeSpanAt(text, i);
    var m := FindAll(Of(Vibe), text)[i];
    StripIsInner(m.g1);
    StripIsInner(m.g2);
  }

  /** Each span `finditer` reports for the vibe-card pattern is a match of
      the pattern at its start. */
  lemma VibeSpanAt(text: string, i: nat)
    requires i < |FindAll(Of(Vibe), text)|
    ensures VibeAt(text, FindAll(Of(Vibe), text)[i].start, true) == Some(FindAll(Of(Vibe), text)[i])
  {
    FindAllMatches(Of(Vibe), text, 0);
    var m := FindAll(Of(Vibe), text)[i];
    assert Of(Vibe)(text, m.start) == Some(m);
  }

  // ---------------------------------------------------------------------
  // ConfigUtils.deep_merge
  // ---------------------------------------------------------------------

  /** `deep_merge(base, update)`: a copy of `base` into which the entries of
      `update` are written in order, merging recursively where both sides
      hold a dict. */
  function DeepMerge(base: seq<Entry>, update: seq<Entry>): seq<Entry>
    decreases update, 2
  {
    MergeEntries(base, update)
  }

  function MergeEntries(res: seq<Entry>, ups: seq<Entry>): seq<Entry>
    decreases ups, 1
  {
    if |ups| == 0 then res
    else MergeEntries(MergeOne(res, ups[0]), ups[1..])
  }

  /** One iteration of the loop: `result[key] = merged or value`. */
  function MergeOne(res: seq<Entry>, e: Entry): seq<Entry>
    decreases e, 0
  {
    match Get(res, e.key)
    case Some(VDict(b)) =>
      if e.val.VDict? then Put(res, e.key, VDict(DeepMerge(b, e.val.entries)))
      else Put(res, e.key, e.val)
    case _ => Put(res, e.key, e.val)
  }

  /** What `deep_merge` stores under a key of `update`, given what the result
      held under it: the recursive merge when both sides are dicts, else the
      update's value. */
  function Combine(prior: Option<Value>, v: Value): (r: Value)
    ensures !v.VDict? ==> r == v
    ensures (prior.None? || !prior.value.VDict?) ==> r == v
  {
    match prior
    case Some(VDict(b)) => if v.VDict? then VDict(DeepMerge(b, v.entries)) else v
    case _ => v
  }

  lemma MergeOneGet(res: seq<Entry>, e: Entry, k: Key)
    ensures Get(MergeOne(res, e), k) == if k == e.key then Some(Combine(Get(res, k), e.val)) else Get(res, k)
  {
    match Get(res, e.key)
    case Some(VDict(b)) =>
      if e.val.VDict? {
        PutGet(res, e.key, VDict(DeepMerge(b, e.val.entries)), k);
      } else {
        PutGet(res, e.key, e.val, k);
      }
    case _ =>
      PutGet(res, e.key, e.val, k);
  }

  lemma {:induction false} MergeEntriesGet(res: seq<Entry>, ups: seq<Entry>, k: Key)
    requires UniqueKeys(ups)
    ensures Get(MergeEntries(res, ups), k) ==
      match Get(ups, k)
      case Some(v) => Some(Combine(Get(res, k), v))
      case None => Get(res, k)
    decreases |ups|
  {
    if |ups| > 0 {
      var e := ups[0];
      var res' := MergeOne(res, e);
      MergeOneGet(res, e, k);
      MergeEntriesGet(res', ups[1..], k);
      if k == e.key {
        GetNone(ups[1..], k);
        assert k !in Keys(ups[1..]) by {
          forall i | 0 <= i < |ups[1..]| ensures Keys(ups[1..])[i] != k {
            assert ups[1..][i] == ups[i + 1];
          }
        }
      }
    }
  }

  /** `deep_merge(base, update)[k]`: a key only in `base` keeps its value; a
      key of `update` takes the update's value, unless both sides hold a
      dict, which are merged recursively; keys in neither stay absent. */
  lemma DeepMergeGet(base: seq<Entry>, update: seq<Entry>, k: Key)
    requires UniqueKeys(update)
    ensures Get(DeepMerge(base, update), k) ==
      match Get(update, k)
      case None => Get(base, k)
      case Some(v) =>
        match Get(base, k)
        case Some(VDict(b)) => if v.VDict? then Some(VDict(DeepMerge(b, v.entries))) else Some(v)
        case _ => Some(v)
  {
    MergeEntriesGet(base, update, k);
  }

  lemma {:induction false} MergeEntriesUnique(res: seq<Entry>, ups: seq<Entry>)
    requires UniqueKeys(res)
    ensures UniqueKeys(MergeEntries(res, ups))
    decreases |ups|
  {
    if |ups| > 0 {
      var e := ups[0];
      match Get(res, e.key) {
        case Some(VDict(b)) =>
          if e.val.VDict? {
            PutUnique(res, e.key, VDict(DeepMerge(b, e.val.entries)));
          } else {
            PutUnique(res, e.key, e.val);
          }
        case _ =>
          PutUnique(res, e.key, e.val);
      }
      MergeEntriesUnique(MergeOne(res, e), ups[1..]);
    }
  }

  /** The merged dict is a dict: no key occurs twice. */
  lemma DeepMergeUnique(base: seq<Entry>, update: seq<Entry>)
    requires UniqueKeys(base)
    ensures UniqueKeys(DeepMerge(base, update))
  {
    MergeEntriesUnique(base, update);
  }

  /** The merged dict has the keys of `base` in their order, followed by the
      keys only `update` has, in order of first appearance. */
  lemma {:induction false} MergeEntriesKeys(res: seq<Entry>, ups: seq<Entry>, k: Key)
    ensures k in Keys(MergeEntries(res, ups)) <==> k in Keys(res) || k in Keys(ups)
    decreases |ups|
  {
    if |ups| > 0 {
      var e := ups[0];
      var res' := MergeOne(res, e);
      assert Keys(res') == if e.key in Keys(res) then Keys(res) else Keys(res) + [e.key];
      MergeEntriesKeys(res', ups[1..], k);
      assert Keys(ups) == [e.key] + Keys(ups[1..]);
    }
  }

  lemma DeepMergePrefix(base: seq<Entry>, update: seq<Entry>)
    ensures Keys(base) <= Keys(DeepMerge(base, update))
    ensures forall k :: k in Keys(DeepMerge(base, update)) <==> k in Keys(base) || k in Keys(update)
  {
    forall k ensures k in Keys(DeepMerge(base, update)) <==> k in Keys(base) || k in Keys(update) {
      MergeEntriesKeys(base, update, k);
    }
    MergeEntriesPrefix(base, update);
  }

  lemma {:induction false} MergeEntriesPrefix(res: seq<Entry>, ups: seq<Entry>)
    ensures Keys(res) <= Keys(MergeEntries(res, ups))
    decreases |ups|
  {
    if |ups| > 0 {
      var e := ups[0];
      var res' := MergeOne(res, e);
      assert Keys(res') == if e.key in Keys(res) then Keys(res) else Keys(res) + [e.key];
      MergeEntriesPrefix(res', ups[1..]);
    }
  }
}
