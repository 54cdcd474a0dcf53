/** The regular-expression substitutions of `normalize_text` (app.py:44-49).

    Each pattern is given by its language (`InLanguage`): the set of strings the
    regular expression matches as a whole.  For every pattern here the match
    Python's backtracking engine reports at a position is the LONGEST prefix in
    that language, so `MatchLen` is specified that way, and `Sub` is one
    left-to-right pass of `re.sub` with non-overlapping matches. */
module Regex {
  import opened Chars
  import opened Scanning

  datatype Pattern =
    | Mention         // @[A-Za-z0-9_]+      (app.py:44)
    | Hashtag         // #\w+                (app.py:45)
    | RetweetMarker   // rt[\s]+             (app.py:46)
    | Url             // https?://\S+        (app.py:47)
    | NotWhitelisted  // [^A-Za-z0-9\' ]     (app.py:48)
    | SpaceRun        // \s+                 (app.py:49)

  /** `s` begins with the literal `lead`. */
  predicate StartsWith(s: string, lead: string) {
    |lead| <= |s| && s[..|lead|] == lead
  }

  /** Whether a text starts with `lead` is decided by its first `|lead|` characters. */
  lemma StartsWithTake(s: string, lead: string, m: nat)
    requires |lead| <= m <= |s|
    ensures StartsWith(s[..m], lead) <==> StartsWith(s, lead)
  {
    assert s[..m][..|lead|] == s[..|lead|];
  }

  /** `w` is the literal `lead` followed by one or more characters of class `k`:
      the shape of every pattern here except the whitelist. */
  predicate LeadRun(lead: string, k: CharClass, w: string) {
    |w| > |lead| && StartsWith(w, lead) && forall i | |lead| <= i < |w| :: InClass(k, w[i])
  }

  /** `w` as a whole is matched by the regular expression `p`. */
  predicate InLanguage(p: Pattern, w: string) {
    match p
    case Mention => LeadRun("@", Word, w)
    case Hashtag => LeadRun("#", Word, w)
    case RetweetMarker => LeadRun("rt", Space, w)
    case Url => LeadRun("http://", NonSpace, w) || LeadRun("https://", NonSpace, w)
    case NotWhitelisted => |w| == 1 && !IsWhitelisted(w[0])
    case SpaceRun => LeadRun("", Space, w)
  }

  /** A character that could lengthen a match of `p` ending just before it. */
  predicate Extends(p: Pattern, c: char) {
    match p
    case Mention => IsWordChar(c)
    case Hashtag => IsWordChar(c)
    case RetweetMarker => IsSpace(c)
    case Url => !IsSpace(c)
    case NotWhitelisted => false
    case SpaceRun => IsSpace(c)
  }

  /** A character that can occur anywhere in a match of `p`. */
  predicate Involved(p: Pattern, c: char) {
    match p
    case Mention => c == '@' || IsWordChar(c)
    case Hashtag => c == '#' || IsWordChar(c)
    case RetweetMarker => c == 'r' || c == 't' || IsSpace(c)
    case Url => !IsSpace(c)
    case NotWhitelisted => !IsWhitelisted(c)
    case SpaceRun => IsSpace(c)
  }

  /** Length of the longest prefix of `s` of the shape `lead` then a run of `k`,
      or 0 when no prefix has that shape. */
  function LeadRunLen(lead: string, k: CharClass, s: string): (n: nat)
    ensures n <= |s|
    ensures n > 0 ==> n > |lead| && LeadRun(lead, k, s[..n])
    ensures forall m {:trigger LeadRun(lead, k, s[..m])} | n < m <= |s| :: !LeadRun(lead, k, s[..m])
    ensures 0 < n < |s| ==> !InClass(k, s[n])
  {
    if |s| > |lead| && StartsWith(s, lead) && InClass(k, s[|lead|]) then
      var n := |lead| + RunLength(k, s[|lead|..]);
      StartsWithTake(s, lead, n);
      LeadRunLongest(lead, k, s, n);
      n
    else
      LeadRunNone(lead, k, s);
      0
  }

  lemma LeadRunLongest(lead: string, k: CharClass, s: string, n: nat)
    requires |lead| < n <= |s| && StartsWith(s, lead)
    requires forall i | |lead| <= i < n :: InClass(k, s[i])
    requires n == |s| || !InClass(k, s[n])
    ensures forall m {:trigger LeadRun(lead, k, s[..m])} | n < m <= |s| :: !LeadRun(lead, k, s[..m])
  {
    forall m | n < m <= |s| ensures !LeadRun(lead, k, s[..m]) {
      assert s[..m][n] == s[n];
    }
  }

  lemma LeadRunNone(lead: string, k: CharClass, s: string)
    requires !(|s| > |lead| && StartsWith(s, lead) && InClass(k, s[|lead|]))
    ensures forall m {:trigger LeadRun(lead, k, s[..m])} | 0 < m <= |s| :: !LeadRun(lead, k, s[..m])
  {
    forall m | 0 < m <= |s| ensures !LeadRun(lead, k, s[..m]) {
      if m > |lead| {
        StartsWithTake(s, lead, m);
        assert s[..m][|lead|] == s[|lead|];
      }
    }
  }

  /** The literal a match of `p` at the start of `s` must begin with; for a URL,
      the scheme `s` itself spells (`https?` tries `https` first). */
  function Lead(p: Pattern, s: string): string {
    match p
    case Mention => "@"
    case Hashtag => "#"
    case RetweetMarker => "rt"
    case Url => if StartsWith(s, "https") then "https://" else "http://"
    case NotWhitelisted => ""
    case SpaceRun => ""
  }

  /** The class of the `+` run that follows the literal. */
  function RunClass(p: Pattern): CharClass {
    match p
    case Mention => Word
    case Hashtag => Word
    case RetweetMarker => Space
    case Url => NonSpace
    case NotWhitelisted => Space
    case SpaceRun => Space
  }

  /** A text cannot start with both schemes; the one `Lead` picks is the only
      one that can match. */
  lemma UrlLeadOnly(s: string, m: nat)
    requires m <= |s|
    ensures !StartsWith(s[..m], if StartsWith(s, "https") then "http://" else "https://")
  {
    if StartsWith(s, "https") {
      assert m < 7 || s[..m][..7][4] == s[..5][4];
    } else {
      assert m < 8 || s[..m][..8][..5] == s[..5];
    }
  }

  /** For the patterns built from a literal and a run, the language of `p` at a
      prefix of `s` is the shape `Lead(p, s)` then a run of `RunClass(p)`. */
  lemma LanguageAsLeadRun(p: Pattern, s: string, m: nat)
    requires p != NotWhitelisted && m <= |s|
    ensures InLanguage(p, s[..m]) <==> LeadRun(Lead(p, s), RunClass(p), s[..m])
  {
    if p == Url {
      UrlLeadOnly(s, m);
    }
  }

  /** Length of the match of `p` at the start of `s`, or 0 when there is none:
      the longest prefix of `s` in the language of `p`, which cannot be
      extended by the character after it. */
  function MatchLen(p: Pattern, s: string): (n: nat)
    ensures n <= |s|
    ensures n > 0 ==> InLanguage(p, s[..n])
    ensures forall m {:trigger InLanguage(p, s[..m])} | n < m <= |s| :: !InLanguage(p, s[..m])
    ensures 0 < n < |s| ==> !Extends(p, s[n])
  {
    if p == NotWhitelisted then
      if |s| >= 1 && !IsWhitelisted(s[0]) then 1 else 0
    else
      var n := LeadRunLen(Lead(p, s), RunClass(p), s);
      LanguageAsLeadRun(p, s, n);
      assert forall m | n < m <= |s| :: !InLanguage(p, s[..m]) by {
        forall m | n < m <= |s| ensures !InLanguage(p, s[..m]) {
          LanguageAsLeadRun(p, s, m);
        }
      }
      n
  }

  /** The matcher `re.sub` runs for `p`. */
  function Matcher(p: Pattern): string -> nat {
    s => MatchLen(p, s)
  }

  lemma MatcherBounded(p: Pattern)
    ensures Bounded(Matcher(p))
  {
    forall x ensures Matcher(p)(x) <= |x| {
      assert Matcher(p)(x) == MatchLen(p, x);
    }
  }

  /** `re.sub(p, repl, s)`: every match of `p`, scanning left to right,
      replaced by `repl`. */
  function Sub(p: Pattern, repl: string, s: string): (r: string)
    ensures |repl| <= 1 ==> |r| <= |s|
  {
    MatcherBounded(p);
    SubWith(Matcher(p), repl, s)
  }

  /** No nonempty substring of `s` (the `n` characters from position `i`) is
      in the language of `p`. */
  predicate NoMatch(p: Pattern, s: string) {
    forall i, n | 0 <= i < |s| && 0 < n <= |s| - i :: !InLanguage(p, s[i..][..n])
  }

  /** The characters of `s` no match of `p` can contain, in order. */
  function Untouched(p: Pattern, s: string): string {
    Bystanders(c => Involved(p, c), s)
  }

  /** Every character of a match is one the pattern is about. */
  lemma LanguageInvolved(p: Pattern, w: string)
    requires InLanguage(p, w)
    ensures forall i | 0 <= i < |w| :: Involved(p, w[i])
  {
    if p != NotWhitelisted {
      var lead := if LeadRun("http://", NonSpace, w) then "http://" else Lead(p, w);
      assert LeadRun(lead, RunClass(p), w);
      forall i | 0 <= i < |lead| ensures Involved(p, w[i]) {
        assert w[i] == w[..|lead|][i];
      }
    }
  }

  /** Outside the retweet pattern, every character of a match after the first
      could extend a shorter match. */
  lemma LanguageExtends(p: Pattern, w: string)
    requires p != RetweetMarker
    requires InLanguage(p, w)
    ensures forall i | 1 <= i < |w| :: Extends(p, w[i])
  {
    if p == Url {
      var lead := if LeadRun("http://", NonSpace, w) then "http://" else "https://";
      forall i | 1 <= i < |lead| ensures Extends(p, w[i]) {
        assert w[i] == w[..|lead|][i];
      }
    }
  }

  lemma MatcherCovers(p: Pattern)
    ensures Covers(Matcher(p), c => Involved(p, c))
  {
    forall x, i | 0 <= i < Matcher(p)(x) && i < |x| ensures Involved(p, x[i]) {
      var n := MatchLen(p, x);
      LanguageInvolved(p, x[..n]);
      assert x[..n][i] == x[i];
    }
  }

  lemma MatcherMaximal(p: Pattern)
    ensures Maximal(Matcher(p), c => Extends(p, c))
  {
    forall x | 0 < Matcher(p)(x) < |x| ensures !Extends(p, x[Matcher(p)(x)]) {
      assert Matcher(p)(x) == MatchLen(p, x);
    }
  }

  lemma MatcherTailExtends(p: Pattern)
    requires p != RetweetMarker
    ensures TailExtends(Matcher(p), c => Extends(p, c))
  {
    forall x, i | 1 <= i < Matcher(p)(x) && i < |x| ensures Extends(p, x[i]) {
      var n := MatchLen(p, x);
      LanguageExtends(p, x[..n]);
      assert x[..n][i] == x[i];
    }
  }

  lemma MatcherDecidedBySpan(p: Pattern)
    ensures DecidedBySpan(Matcher(p))
  {
    forall x, y | 0 < Matcher(p)(x) <= |x| && Matcher(p)(x) <= |y| && y[..Matcher(p)(x)] == x[..Matcher(p)(x)]
      ensures Matcher(p)(y) > 0
    {
      var n := MatchLen(p, x);
      assert InLanguage(p, y[..n]);
    }
  }

  /** The language view and the matcher view of "nothing matches" agree. */
  lemma NoMatchIff(p: Pattern, s: string)
    ensures NoMatch(p, s) <==> NoMatchBy(Matcher(p), s)
  {
    if NoMatch(p, s) {
      forall i | 0 <= i < |s| ensures Matcher(p)(s[i..]) == 0 {
        var n := MatchLen(p, s[i..]);
      }
    }
    if NoMatchBy(Matcher(p), s) {
      forall i, n | 0 <= i < |s| && 0 < n <= |s| - i ensures !InLanguage(p, s[i..][..n]) {
        assert MatchLen(p, s[i..]) == 0;
      }
    }
  }

  /** Deleting the matches of `p` keeps, in order, every character no match
      can contain. */
  lemma SubKeepsUntouched(p: Pattern, s: string)
    ensures Untouched(p, Sub(p, "", s)) == Untouched(p, s)
  {
    MatcherBounded(p);
    MatcherCovers(p);
    SubWithKeepsBystanders(Matcher(p), c => Involved(p, c), s);
  }

  /** Deleting the matches of any pattern but the retweet marker leaves no
      match behind. */
  lemma SubLeavesNoMatch(p: Pattern, s: string)
    requires p != RetweetMarker
    ensures NoMatch(p, Sub(p, "", s))
  {
    MatcherBounded(p);
    MatcherMaximal(p);
    MatcherTailExtends(p);
    MatcherDecidedBySpan(p);
    SubWithLeavesNoMatch(Matcher(p), c => Extends(p, c), s);
    NoMatchIff(p, Sub(p, "", s));
  }

  /** A text without a match of `p` passes through `re.sub` unchanged. */
  lemma SubWithoutMatch(p: Pattern, repl: string, s: string)
    requires NoMatch(p, s)
    ensures Sub(p, repl, s) == s
  {
    MatcherBounded(p);
    NoMatchIff(p, s);
    Scanning.SubWithoutMatch(Matcher(p), repl, s);
  }

  /** Deleting the matches of any pattern but the retweet marker twice is the
      same as deleting them once. */
  lemma SubIdempotent(p: Pattern, s: string)
    requires p != RetweetMarker
    ensures Sub(p, "", Sub(p, "", s)) == Sub(p, "", s)
  {
    SubLeavesNoMatch(p, s);
    SubWithoutMatch(p, "", Sub(p, "", s));
  }

  /** The whitelist step leaves only `[A-Za-z0-9' ]`. */
  lemma WhitelistOnly(s: string)
    ensures forall i | 0 <= i < |Sub(NotWhitelisted, "", s)| :: IsWhitelisted(Sub(NotWhitelisted, "", s)[i])
  {
    var r := Sub(NotWhitelisted, "", s);
    SubLeavesNoMatch(NotWhitelisted, s);
    forall i | 0 <= i < |r| ensures IsWhitelisted(r[i]) {
      assert !InLanguage(NotWhitelisted, r[i..][..1]);
    }
  }

  /** A single `re.sub` step, unfolded. */
  lemma SubUnfold(p: Pattern, repl: string, s: string)
    requires s != []
    ensures Sub(p, repl, s) ==
      if MatchLen(p, s) > 0 then repl + Sub(p, repl, s[MatchLen(p, s)..])
      else [s[0]] + Sub(p, repl, s[1..])
  {
    MatcherBounded(p);
    assert Matcher(p)(s) == MatchLen(p, s);
  }
}
