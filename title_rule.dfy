/**
 * The title rule of the SOP API: the title of a document is the capture of
 * `content.match(/^#\s+(.+)$/m)`, and when nothing matches it is the file name
 * with its first ".md" removed (`file.replace('.md', '')`).
 *
 * The regular expression is not interpreted; it is written out as a scanner.
 * `Matches` states declaratively what a match of the pattern is, `FirstMatch`
 * which of the matches a backtracking ECMAScript engine reports (section 22.2
 * of ECMA-262), and the lemmas at the end tie the scanner to that statement.
 */
module TitleRule {
  import opened Wrappers

  // ---------------------------------------------------------------------------
  // Character classes
  // ---------------------------------------------------------------------------

  /** LineTerminator of ECMA-262 (section 12.3): LF, CR, LINE SEPARATOR, PARAGRAPH SEPARATOR. */
  predicate IsLineTerminator(c: char) {
    c == '\n' || c == '\r' || c == '\U{2028}' || c == '\U{2029}'
  }

  /**
   * The class `\s` of ECMA-262 (section 22.2.2.9): WhiteSpace (section 12.2:
   * TAB, VT, FF, ZWNBSP and every character of the Unicode category Zs) and
   * LineTerminator.
   */
  predicate IsSpace(c: char) {
    || c == '\t' || c == '\U{000B}' || c == '\U{000C}' || c == '\U{FEFF}'
    || c == ' ' || c == '\U{00A0}' || c == '\U{1680}'
    || ('\U{2000}' <= c <= '\U{200A}')
    || c == '\U{202F}' || c == '\U{205F}' || c == '\U{3000}'
    || IsLineTerminator(c)
  }

  /** The assertion `^` under the `m` flag: start of input or just after a line terminator. */
  predicate AtLineStart(s: string, p: nat)
    requires p <= |s|
  {
    p == 0 || IsLineTerminator(s[p - 1])
  }

  // ---------------------------------------------------------------------------
  // What a match is, and which match the engine reports
  // ---------------------------------------------------------------------------

  /**
   * The pattern `^#\s+(.+)$` matches at position `p` with `\s+` consuming
   * `k` characters and the capture `(.+)` ending at `e`; the capture is then
   * `s[p + 1 + k..e]`.
   */
  ghost predicate Matches(s: string, p: nat, k: nat, e: nat) {
    && p + 1 + k < e <= |s|
    && AtLineStart(s, p)
    && s[p] == '#'
    && 1 <= k
    && (forall i :: p + 1 <= i < p + 1 + k ==> IsSpace(s[i]))
    && (forall i :: p + 1 + k <= i < e ==> !IsLineTerminator(s[i]))
    && (e == |s| || IsLineTerminator(s[e]))
  }

  /**
   * The match a backtracking engine reports: the leftmost starting position,
   * and at that position the longest run for the greedy `\s+` that still lets
   * the rest of the pattern match.
   */
  ghost predicate FirstMatch(s: string, p: nat, k: nat, e: nat) {
    && Matches(s, p, k, e)
    && (forall p': nat, k': nat, e': nat :: p' < p ==> !Matches(s, p', k', e'))
    && (forall k': nat, e': nat :: k < k' ==> !Matches(s, p, k', e'))
  }

  // ---------------------------------------------------------------------------
  // The scanner
  // ---------------------------------------------------------------------------

  /** The end of the run of `\s` characters that starts at `i`. */
  function SpaceRunEnd(s: string, i: nat): (j: nat)
    requires i <= |s|
    ensures i <= j <= |s|
    ensures forall m :: i <= m < j ==> IsSpace(s[m])
    ensures j == |s| || !IsSpace(s[j])
    decreases |s| - i
  {
    if i == |s| || !IsSpace(s[i]) then i else SpaceRunEnd(s, i + 1)
  }

  /** The position of `$`: the first line terminator at or after `i`, or the end of input. */
  function LineEnd(s: string, i: nat): (j: nat)
    requires i <= |s|
    ensures i <= j <= |s|
    ensures forall m :: i <= m < j ==> !IsLineTerminator(s[m])
    ensures j == |s| || IsLineTerminator(s[j])
    decreases |s| - i
  {
    if i == |s| || IsLineTerminator(s[i]) then i else LineEnd(s, i + 1)
  }

  /**
   * Backtracking of the greedy `\s+`: the capture `(.+)` can start at `q`
   * exactly when `s[q]` exists and is not a line terminator. Candidates are
   * tried from `hi` (the whole whitespace run) down to `lo` (a run of one).
   */
  function CaptureStart(s: string, lo: nat, hi: nat): (r: Option<nat>)
    requires lo <= hi <= |s|
    ensures r.Some? ==> lo <= r.value <= hi && r.value < |s| && !IsLineTerminator(s[r.value])
    ensures r.Some? ==> forall q :: r.value < q <= hi && q < |s| ==> IsLineTerminator(s[q])
    ensures r.None? ==> forall q :: lo <= q <= hi && q < |s| ==> IsLineTerminator(s[q])
    decreases hi - lo
  {
    if hi < |s| && !IsLineTerminator(s[hi]) then Some(hi)
    else if hi == lo then None
    else CaptureStart(s, lo, hi - 1)
  }

  /** The capture `(.+)` as a half-open range of positions. */
  datatype Span = Span(start: nat, end: nat)

  /** One attempt of the pattern at position `p`, as the engine makes it. */
  function MatchAt(s: string, p: nat): (r: Option<Span>)
    requires p <= |s|
    ensures r.Some? ==> p + 1 < r.value.start < r.value.end <= |s|
    ensures r.Some? ==> Matches(s, p, r.value.start - p - 1, r.value.end)
  {
    if AtLineStart(s, p) && p + 1 < |s| && s[p] == '#' && IsSpace(s[p + 1]) then
      var w := SpaceRunEnd(s, p + 1);
      match CaptureStart(s, p + 2, w)
      case None => None
      case Some(q) => Some(Span(q, LineEnd(s, q)))
    else
      None
  }

  /** The first position at or after `p` where an attempt succeeds. */
  function FirstMatchFrom(s: string, p: nat): (r: Option<nat>)
    requires p <= |s|
    ensures r.Some? ==> p <= r.value <= |s| && MatchAt(s, r.value).Some?
    ensures r.Some? ==> forall j :: p <= j < r.value ==> MatchAt(s, j).None?
    ensures r.None? ==> forall j :: p <= j <= |s| ==> MatchAt(s, j).None?
    decreases |s| - p
  {
    if MatchAt(s, p).Some? then Some(p)
    else if p == |s| then None
    else FirstMatchFrom(s, p + 1)
  }

  /**
   * `content.match(/^#\s+(.+)$/m)`, reduced to its capture group 1: when
   * there is one, it is a non-empty piece of a single line of `s`.
   */
  function Heading(s: string): (r: Option<string>)
    ensures r.Some? ==> |r.value| >= 1 && forall i :: 0 <= i < |r.value| ==> !IsLineTerminator(r.value[i])
  {
    match FirstMatchFrom(s, 0)
    case None => None
    case Some(p) =>
      var sp := MatchAt(s, p).value;
      Some(s[sp.start..sp.end])
  }

  // ---------------------------------------------------------------------------
  // `file.replace('.md', '')`: removal of the first occurrence only
  // ---------------------------------------------------------------------------

  predicate OccursAt(s: string, pat: string, i: nat) {
    i + |pat| <= |s| && s[i..i + |pat|] == pat
  }

  /** `s.indexOf(pat, from)`: the first occurrence of `pat` at or after `from`. */
  function IndexOf(s: string, pat: string, from: nat): (r: Option<nat>)
    requires from <= |s|
    ensures r.Some? ==> from <= r.value && OccursAt(s, pat, r.value)
    ensures r.Some? ==> forall j :: from <= j < r.value ==> !OccursAt(s, pat, j)
    ensures r.None? ==> forall j :: from <= j <= |s| ==> !OccursAt(s, pat, j)
    decreases |s| - from
  {
    if OccursAt(s, pat, from) then Some(from)
    else if from == |s| then None
    else IndexOf(s, pat, from + 1)
  }

  /**
   * `s.replace(pat, '')` for a string pattern: the first occurrence of `pat`
   * is cut out; putting `pat` back at that place gives `s` again.
   */
  function RemoveFirst(s: string, pat: string): (r: string)
    ensures IndexOf(s, pat, 0).None? ==> r == s
    ensures IndexOf(s, pat, 0).Some? ==>
      var i := IndexOf(s, pat, 0).value;
      |r| == |s| - |pat| && i <= |r| && r[..i] + pat + r[i..] == s
  {
    match IndexOf(s, pat, 0)
    case None => s
    case Some(i) =>
      var r := s[..i] + s[i + |pat|..];
      assert r[..i] == s[..i] && r[i..] == s[i + |pat|..];
      assert s == s[..i] + s[i..i + |pat|] + s[i + |pat|..];
      r
  }

  /**
   * `titleMatch ? titleMatch[1] : file.replace('.md', '')`: the capture of the
   * match the engine reports, or, when the pattern matches nowhere, the file
   * name with its first ".md" removed.
   */
  function Title(content: string, file: string): (r: string)
    ensures forall p: nat, k: nat, e: nat :: FirstMatch(content, p, k, e) ==> r == content[p + 1 + k..e]
    ensures (forall p: nat, k: nat, e: nat :: !Matches(content, p, k, e)) ==> r == RemoveFirst(file, ".md")
  {
    HeadingOfEveryFirstMatch(content);
    NoHeadingIffNoMatch(content);
    match Heading(content)
    case Some(t) => t
    case None => RemoveFirst(file, ".md")
  }

  // ---------------------------------------------------------------------------
  // The scanner against the declarative statement
  // ---------------------------------------------------------------------------

  /** Every match the pattern has at `p` is found by the attempt there, and none has a longer `\s+` run. */
  lemma MatchAtComplete(s: string, p: nat, k: nat, e: nat)
    requires Matches(s, p, k, e)
    ensures MatchAt(s, p).Some?
    ensures k <= MatchAt(s, p).value.start - p - 1
  {
    assert p + 1 + k < |s| && !IsLineTerminator(s[p + 1 + k]);
  }

  /** The match an attempt reports has the longest `\s+` run of all matches at that position. */
  lemma MatchAtGreediest(s: string, p: nat, k': nat, e': nat)
    requires p <= |s| && MatchAt(s, p).Some?
    requires MatchAt(s, p).value.start - p - 1 < k'
    ensures !Matches(s, p, k', e')
  {
    if Matches(s, p, k', e') {
      MatchAtComplete(s, p, k', e');
    }
  }

  /** The capture of a match is fixed by where it starts: it runs to the end of the line. */
  lemma CaptureEndUnique(s: string, p: nat, k: nat, e: nat, e': nat)
    requires Matches(s, p, k, e) && Matches(s, p, k, e')
    ensures e == e'
  {
  }

  /** The capture the scanner returns is that of the match the engine reports. */
  lemma HeadingOfFirstMatch(s: string, p: nat, k: nat, e: nat)
    requires FirstMatch(s, p, k, e)
    ensures Heading(s) == Some(s[p + 1 + k..e])
  {
    MatchAtComplete(s, p, k, e);
    var f := FirstMatchFrom(s, 0);
    assert f.Some?;
    var p0 := f.value;
    var sp := MatchAt(s, p0).value;
    if p0 < p {
      assert false;
    }
    assert p0 == p;
    var k0 := sp.start - p - 1;
    if k0 > k {
      assert false;
    }
    assert k0 == k;
    CaptureEndUnique(s, p, k, e, sp.end);
  }

  /** `HeadingOfFirstMatch` for every match the engine could report. */
  lemma HeadingOfEveryFirstMatch(s: string)
    ensures forall p: nat, k: nat, e: nat :: FirstMatch(s, p, k, e) ==> Heading(s) == Some(s[p + 1 + k..e])
  {
    forall p: nat, k: nat, e: nat | FirstMatch(s, p, k, e)
      ensures Heading(s) == Some(s[p + 1 + k..e])
    {
      HeadingOfFirstMatch(s, p, k, e);
    }
  }

  /** Whenever the scanner finds a heading, it is the capture of the match the engine reports. */
  lemma HeadingIsFirstMatch(s: string)
    requires Heading(s).Some?
    ensures exists p: nat, k: nat, e: nat :: FirstMatch(s, p, k, e) && Heading(s) == Some(s[p + 1 + k..e])
  {
    var p := FirstMatchFrom(s, 0).value;
    var sp := MatchAt(s, p).value;
    var k := sp.start - p - 1;
    forall p': nat, k': nat, e': nat | p' < p
      ensures !Matches(s, p', k', e')
    {
      if Matches(s, p', k', e') {
        MatchAtComplete(s, p', k', e');
      }
    }
    forall k': nat, e': nat | k < k'
      ensures !Matches(s, p, k', e')
    {
      MatchAtGreediest(s, p, k', e');
    }
    assert FirstMatch(s, p, k, sp.end);
  }

  /** The scanner finds no heading exactly when the pattern matches nowhere. */
  lemma NoHeadingIffNoMatch(s: string)
    ensures Heading(s).None? <==> forall p: nat, k: nat, e: nat :: !Matches(s, p, k, e)
  {
    if Heading(s).None? {
      forall p: nat, k: nat, e: nat
        ensures !Matches(s, p, k, e)
      {
        if Matches(s, p, k, e) {
          MatchAtComplete(s, p, k, e);
        }
      }
    } else {
      var p := FirstMatchFrom(s, 0).value;
      var sp := MatchAt(s, p).value;
      assert Matches(s, p, sp.start - p - 1, sp.end);
    }
  }

  // ---------------------------------------------------------------------------
  // Consequences for the title
  // ---------------------------------------------------------------------------

  /** A line starting "##" never matches at its own start: `#` is not in `\s`. */
  lemma DoubleHashIsNoMatch(s: string, p: nat)
    requires p + 1 < |s| && s[p] == '#' && s[p + 1] == '#'
    ensures MatchAt(s, p).None?
    ensures forall k: nat, e: nat :: !Matches(s, p, k, e)
  {
  }

  /**
   * A document that opens with "#", a run of whitespace (which may span line
   * breaks), and then a non-blank line `t` has title `t`.
   */
  lemma LeadingHeadingTitle(s: string, ws: string, t: string, rest: string, file: string)
    requires s == "#" + ws + t + rest
    requires |ws| >= 1 && forall i :: 0 <= i < |ws| ==> IsSpace(ws[i])
    requires |t| >= 1 && !IsSpace(t[0])
    requires forall i :: 0 <= i < |t| ==> !IsLineTerminator(t[i])
    requires rest == [] || IsLineTerminator(rest[0])
    ensures Title(s, file) == t
  {
    var k, e := |ws|, 1 + |ws| + |t|;
    assert s[1 + k..e] == t;
    assert forall i :: 1 <= i < 1 + k ==> s[i] == ws[i - 1];
    assert forall i :: 1 + k <= i < e ==> s[i] == t[i - 1 - k];
    assert e < |s| ==> s[e] == rest[0];
    assert Matches(s, 0, k, e);
    forall k': nat, e': nat | k < k'
      ensures !Matches(s, 0, k', e')
    {
    }
    HeadingOfFirstMatch(s, 0, k, e);
  }

  /**
   * When the whitespace run after "#" reaches the end of the line and nothing
   * follows on the next, `\s+` gives back characters: "#" followed by two
   * spaces has the title " ".
   */
  lemma BacktrackedTitle(file: string)
    ensures Title("#  ", file) == " "
  {
  }

  /** "#", a space and a line break match nowhere, so the file name decides. */
  lemma BlankHeadingFallsBack()
    ensures Title("# \n", "a.md") == "a"
  {
    var s := "# \n";
    assert |s| == 3 && IsLineTerminator(s[2]);
    forall p: nat, k: nat, e: nat
      ensures !Matches(s, p, k, e)
    {
      if p == 0 && k == 1 {
        assert IsLineTerminator(s[p + 1 + k]);
      }
    }
    assert "a.md"[0] != '.';
    assert OccursAt("a.md", ".md", 1);
  }

  /**
   * Removing ".md" from a name that ends in ".md" and has no other ".md" gives
   * back the stem; an earlier ".md" cannot straddle the stem and the suffix.
   */
  lemma {:induction false} RemoveMdSuffix(stem: string)
    requires forall j: nat :: !OccursAt(stem, ".md", j)
    ensures RemoveFirst(stem + ".md", ".md") == stem
  {
    var s := stem + ".md";
    forall j: nat | j < |stem|
      ensures !OccursAt(s, ".md", j)
    {
      if j + 3 <= |stem| {
        assert s[j..j + 3] == stem[j..j + 3] && !OccursAt(stem, ".md", j);
      } else if j + 3 <= |s| {
        // an occurrence from inside the stem into the suffix would meet the
        // suffix's '.' at its second or third place
        assert s[j..j + 3][|stem| - j] == s[|stem|] == '.';
        assert ".md"[|stem| - j] != '.';
      }
    }
    assert OccursAt(s, ".md", |stem|);
    assert IndexOf(s, ".md", 0) == Some(|stem|);
  }

  /** Only the first ".md" goes: "a.md.md" becomes "a.md". */
  lemma RemovesFirstOccurrenceOnly()
    ensures RemoveFirst("a.md.md", ".md") == "a.md"
  {
    assert OccursAt("a.md.md", ".md", 1);
    assert "a.md.md"[0] != '.';
  }

  /** The document of the worked example: "# Deploy Guide" on its first line. */
  lemma DeployGuideTitle()
    ensures Title("# Deploy Guide\nSteps...", "deploy.md") == "Deploy Guide"
  {
    var content := "# Deploy Guide\nSteps...";
    var t := "Deploy Guide";
    assert forall i :: 0 <= i < |t| ==> !IsLineTerminator(t[i]) by {
      assert t == ['D', 'e', 'p', 'l', 'o', 'y', ' ', 'G', 'u', 'i', 'd', 'e'];
    }
    assert "#" + " " + t + "\nSteps..." == content;
    LeadingHeadingTitle(content, " ", t, "\nSteps...", "deploy.md");
  }
}
