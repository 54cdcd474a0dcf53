/** Worked instances of `normalize_text` and the stop-word filter, including
    the ones that show where the regular expressions behave differently from
    what their names suggest. */
module Examples {
  import opened Chars
  import opened Regex
  import opened Words
  import opened Deletions
  import opened TextNormalizer
  import opened Sentiment

  /** When the emoji step's output is whitelisted, only the retweet step
      changes it, and the cleaned text is that step's output with its words
      joined by single spaces. */
  lemma CleanPlainText(demojize: string -> string, text: string)
    requires Whitelisted(demojize(Lower(text)))
    ensures CleanText(demojize, text) == Join(Split(DropRetweets(demojize(Lower(text)))))
  {
    var e := demojize(Lower(text));
    MentionStep(e);
    HashtagStep(e);
    WhitelistedFixed(e);
    RetweetStep(e);
    var r := DropRetweets(e);
    DropRetweetsChars(e, IsWhitelisted);
    UrlStep(r);
    WhitelistStep(r);
    WhitelistedFixed(r);
    assert Scrub(demojize, text) == r;
    CollapseStrip(r);
  }

  /** When the retweet step leaves tidy text, cleaning gives that text back. */
  lemma CleanPlainTidy(demojize: string -> string, text: string)
    requires Whitelisted(text) && forall i | 0 <= i < |text| :: !IsUpper(text[i])
    requires demojize(text) == text
    requires Tidy(DropRetweets(text))
    ensures CleanText(demojize, text) == DropRetweets(text)
  {
    LowerOfLowerCase(text);
    CleanPlainText(demojize, text);
    JoinSplit(DropRetweets(text));
  }

  /** One step of the retweet scan where a marker with a single space starts. */
  lemma RetweetSkip(t: string)
    requires |t| > 3 && t[0] == 'r' && t[1] == 't' && t[2] == ' ' && !IsSpace(t[3])
    ensures DropRetweets(t) == DropRetweets(t[3..])
  {
    assert RunLength(Space, t[2..]) == 1;
  }

  /** A marker with a single space at the start of text without another `r`
      is all the retweet step deletes. */
  lemma LeadingRetweet(t: string)
    requires |t| > 3 && t[0] == 'r' && t[1] == 't' && t[2] == ' ' && !IsSpace(t[3])
    requires forall i | 3 <= i < |t| :: t[i] != 'r'
    ensures DropRetweets(t) == t[3..]
  {
    RetweetSkip(t);
    forall i | 0 <= i < |t[3..]| ensures t[3..][i] != 'r' {
      assert t[3..][i] == t[i + 3];
    }
    DropRetweetsWithoutR(t[3..]);
  }

  lemma RetweetHead(s: string)
    requires s == "start now"
    ensures DropRetweets(s) == "sta" + DropRetweets(s[3..])
  {
    var p := s[..3];
    assert p == "sta";
    assert s == p + s[3..];
    DropRetweetsKeepsPrefix(p, s[3..]);
  }

  /** The retweet pattern is not anchored to a word start: in "start now"
      the "rt " at the end of "start" is deleted. */
  lemma RetweetInsideWord(s: string)
    requires s == "start now"
    ensures Sub(RetweetMarker, "", s) == "stanow"
  {
    RetweetStep(s);
    RetweetHead(s);
    LeadingRetweet(s[3..]);
  }

  /** The word characters after the `@` form a run of exactly `n - 1`. */
  lemma MentionRun(t: string, n: nat)
    requires 1 < n <= |t|
    requires forall i | 1 <= i < n :: IsWordChar(t[i])
    requires n == |t| || !IsWordChar(t[n])
    ensures RunLength(Word, t[1..]) == n - 1
  {
    var u := t[1..n];
    var x := t[n..];
    forall i | 0 <= i < |u| ensures InClass(Word, u[i]) {
      assert u[i] == t[i + 1];
    }
    assert x == [] || x[0] == t[n];
    assert t[1..] == u + x;
    RunLengthAll(Word, u, x);
  }

  /** One step of the mention scan where a mention of `n - 1` word
      characters starts. */
  lemma MentionSkip(t: string, n: nat)
    requires 1 < n <= |t| && t[0] == '@'
    requires forall i | 1 <= i < n :: IsWordChar(t[i])
    requires n == |t| || !IsWordChar(t[n])
    ensures DropMentions(t) == DropMentions(t[n..])
  {
    MentionRun(t, n);
  }

  lemma MentionTail(t: string)
    requires t == "@ab c"
    ensures DropMentions(t) == " c"
  {
    MentionSkip(t, 3);
    MentionMatchKeep(t[3..]);
    MentionMatchKeep(t[4..]);
    assert t[3..][1..] == t[4..];
    assert t[4..][1..] == [];
  }

  lemma MentionHead(s: string)
    requires s == "@ @ab c"
    ensures DropMentions(s) == "@ " + DropMentions(s[2..])
  {
    MentionMatchKeep(s);
    MentionMatchKeep(s[1..]);
    assert s[1..][1..] == s[2..];
  }

  /** An `@` without a word character after it is kept; a mention goes, the
      space before it and the space after it stay. */
  lemma BareAtKept(s: string)
    requires s == "@ @ab c"
    ensures Sub(Mention, "", s) == "@  c"
  {
    MentionStep(s);
    MentionHead(s);
    MentionTail(s[2..]);
  }

  /** For lower-case whitelisted text whose retweet step leaves tidy text,
      `normalize_text` expands the slang words of that text. */
  lemma NormalizePlain(demojize: string -> string, text: string)
    requires Whitelisted(text) && forall i | 0 <= i < |text| :: !IsUpper(text[i])
    requires demojize(text) == text
    requires Tidy(DropRetweets(text))
    ensures Normalize(demojize, text) == Join(ExpandSlang(Split(DropRetweets(text))))
  {
    CleanPlainTidy(demojize, text);
  }

  /** As `NormalizePlain`, when none of the words is slang: the retweet
      step's output comes back unchanged. */
  lemma NormalizePlainNoSlang(demojize: string -> string, text: string)
    requires Whitelisted(text) && forall i | 0 <= i < |text| :: !IsUpper(text[i])
    requires demojize(text) == text
    requires Tidy(DropRetweets(text))
    requires forall k | 0 <= k < |Split(DropRetweets(text))| :: Split(DropRetweets(text))[k] !in SlangDict
    ensures Normalize(demojize, text) == DropRetweets(text)
  {
    CleanPlainTidy(demojize, text);
    NormalizeWithoutSlang(demojize, text);
  }

  /** Lower-case letters and spaces are whitelisted and have no upper-case
      letter to lower. */
  lemma LowerCaseWords(s: string)
    requires forall i | 0 <= i < |s| :: IsLower(s[i]) || s[i] == ' '
    ensures Whitelisted(s) && forall i | 0 <= i < |s| :: !IsUpper(s[i])
  {
  }

  lemma RrtRetweets(s: string)
    requires s == "rrt t x"
    ensures DropRetweets(s) == "rt x"
  {
    RetweetMatchKeep(s);
    RetweetSkip(s[1..]);
    assert s[1..][3..] == s[4..];
    DropRetweetsWithoutR(s[4..]);
  }

  /** Slang keys have one, three or five letters, and the only one-letter
      key is "u": words of any other shape are not slang. */
  lemma NotSlangByLength(ws: seq<string>)
    requires forall k | 0 <= k < |ws| ::
      (|ws[k]| == 1 && ws[k][0] != 'u') || |ws[k]| == 2 || |ws[k]| == 4 || |ws[k]| > 5
    ensures forall k | 0 <= k < |ws| :: ws[k] !in SlangDict
  {
  }

  lemma RtxWords(s: string)
    requires s == "rt x"
    ensures Tidy(s) && Split(s) == ["rt", "x"]
    ensures forall k | 0 <= k < |Split(s)| :: Split(s)[k] !in SlangDict
  {
    assert s == "rt" + " " + "x";
    SplitTwo("rt", "x");
    NotSlangByLength(Split(s));
  }

  /** The emoji step is a library call; these examples hold for every
      emoji step that leaves text without emoji as it is. */
  lemma NormalizeRrt(demojize: string -> string, s: string)
    requires s == "rrt t x" && demojize(s) == s
    ensures Normalize(demojize, s) == "rt x"
  {
    LowerCaseWords(s);
    RrtRetweets(s);
    RtxWords(DropRetweets(s));
    NormalizePlainNoSlang(demojize, s);
  }

  lemma XWords(s: string)
    requires s == "x"
    ensures Tidy(s) && Split(s) == ["x"]
    ensures forall k | 0 <= k < |Split(s)| :: Split(s)[k] !in SlangDict
  {
    SplitOne(s);
    NotSlangByLength(Split(s));
  }

  lemma NormalizeRt(demojize: string -> string, s: string)
    requires s == "rt x" && demojize(s) == s
    ensures Normalize(demojize, s) == "x"
  {
    LowerCaseWords(s);
    LeadingRetweet(s);
    XWords(DropRetweets(s));
    NormalizePlainNoSlang(demojize, s);
  }

  /** `normalize_text` is not idempotent: deleting "rt " inside "rrt " leaves
      a new "rt " for the next call to delete. */
  lemma NormalizeNotIdempotent(demojize: string -> string)
    requires demojize("rrt t x") == "rrt t x" && demojize("rt x") == "rt x"
    ensures exists text :: Normalize(demojize, Normalize(demojize, text)) != Normalize(demojize, text)
  {
    var s := "rrt t x";
    NormalizeRrt(demojize, s);
    NormalizeRt(demojize, Normalize(demojize, s));
    assert Normalize(demojize, Normalize(demojize, s)) != Normalize(demojize, s);
  }

  lemma IdkLetters(s: string)
    requires s == "idk what to do"
    ensures forall i | 0 <= i < |s| :: IsLower(s[i]) || s[i] == ' '
    ensures forall i | 0 <= i < |s| :: s[i] != 'r'
  {
  }

  lemma IdkJoin()
    ensures Join(["idk", "what", "to", "do"]) == "idk what to do"
  {
    assert Join(["do"]) == "do";
    assert Join(["to", "do"]) == "to do";
    assert Join(["what", "to", "do"]) == "what to do";
  }

  lemma IdkExpandedJoin()
    ensures Join(["i don't know", "what", "to", "do"]) == "i don't know what to do"
  {
    assert Join(["do"]) == "do";
    assert Join(["to", "do"]) == "to do";
    assert Join(["what", "to", "do"]) == "what to do";
  }

  lemma IdkTokens(ws: seq<string>)
    requires ws == ["idk", "what", "to", "do"]
    ensures forall k | 0 <= k < |ws| :: IsToken(ws[k])
  {
  }

  lemma IdkTidy(s: string)
    requires s == "idk what to do"
    ensures Tidy(s)
  {
  }

  lemma IdkSplit(s: string)
    requires s == "idk what to do"
    ensures Split(s) == ["idk", "what", "to", "do"]
  {
    var ws := ["idk", "what", "to", "do"];
    IdkJoin();
    IdkTokens(ws);
    SplitJoin(ws);
  }

  lemma IdkExpansion(ws: seq<string>)
    requires ws == ["idk", "what", "to", "do"]
    ensures Join(ExpandSlang(ws)) == "i don't know what to do"
  {
    assert ExpandWord(ws[0]) == "i don't know";
    assert ExpandWord(ws[1]) == "what";
    assert ExpandWord(ws[2]) == "to";
    assert ExpandWord(ws[3]) == "do";
    assert ExpandSlang(ws) == ["i don't know", "what", "to", "do"];
    IdkExpandedJoin();
  }

  /** A slang word is replaced by its expansion, the other words stay. */
  lemma NormalizeIdk(demojize: string -> string, s: string)
    requires s == "idk what to do" && demojize(s) == s
    ensures Normalize(demojize, s) == "i don't know what to do"
  {
    IdkLetters(s);
    LowerCaseWords(s);
    DropRetweetsWithoutR(s);
    IdkTidy(s);
    IdkSplit(s);
    NormalizePlain(demojize, s);
    IdkExpansion(Split(s));
  }

  /** The whitelist step runs before whitespace is collapsed, so a tab between
      two words is deleted rather than turned into a space. */
  lemma TabDeleted(s: string)
    requires s == "a\tb"
    ensures Sub(NotWhitelisted, "", s) == "ab"
  {
    WhitelistStep(s);
    var t := s[2..];
    assert t == "b" && t[1..] == [];
    assert KeepWhitelisted(t) == "b";
    assert s[1..][1..] == t;
    assert KeepWhitelisted(s[1..]) == "b";
  }

  lemma OkHandChars(e: string)
    requires e == ":OK_hand:"
    ensures forall i | 0 <= i < |e| :: e[i] != '@' && e[i] != '#' && e[i] != 'r' && e[i] != '/'
  {
  }

  lemma HandKept(t: string)
    requires t == "hand:"
    ensures KeepWhitelisted(t) == "hand"
  {
    assert KeepWhitelisted(t[5..]) == [];
    assert t[4..][1..] == t[5..];
    assert KeepWhitelisted(t[4..]) == [];
    assert t[3..][1..] == t[4..];
    assert KeepWhitelisted(t[3..]) == "d";
    assert t[2..][1..] == t[3..];
    assert KeepWhitelisted(t[2..]) == "nd";
    assert t[1..][1..] == t[2..];
    assert KeepWhitelisted(t[1..]) == "and";
  }

  lemma OkHandKept(e: string)
    requires e == ":OK_hand:"
    ensures KeepWhitelisted(e) == "OKhand"
  {
    HandKept(e[4..]);
    assert e[3..][1..] == e[4..];
    assert KeepWhitelisted(e[3..]) == "hand";
    assert e[2..][1..] == e[3..];
    assert KeepWhitelisted(e[2..]) == "Khand";
    assert e[1..][1..] == e[2..];
    assert KeepWhitelisted(e[1..]) == "OKhand";
  }

  /** With the emoji step spelling U+1F44C as ":OK_hand:", the deletion steps
      leave "OKhand". */
  lemma OkHandScrub(demojize: string -> string, text: string)
    requires text == "\U{1F44C}" && demojize(text) == ":OK_hand:"
    ensures Scrub(demojize, text) == "OKhand"
  {
    LowerOfLowerCase(text);
    var e := demojize(Lower(text));
    OkHandChars(e);
    MentionStep(e);
    DropMentionsWithoutAt(e);
    HashtagStep(e);
    DropHashtagsWithoutHash(e);
    RetweetStep(e);
    DropRetweetsWithoutR(e);
    UrlStep(e);
    DropUrlsWithoutSlash(e);
    WhitelistStep(e);
    OkHandKept(e);
  }

  lemma OkHandWords(w: string)
    requires w == "OKhand"
    ensures Split(w) == [w] && Join(Split(w)) == w
    ensures forall k | 0 <= k < |Split(w)| :: Split(w)[k] !in SlangDict
  {
    SplitOne(w);
    NotSlangByLength(Split(w));
  }

  /** Lower-casing happens before the emoji step, so the upper-case letters of
      an emoji name reach the output: `normalize_text("\U{1F44C}")` is
      "OKhand" when the emoji step spells U+1F44C as ":OK_hand:". */
  lemma UpperCaseSurvives(demojize: string -> string, text: string)
    requires text == "\U{1F44C}" && demojize(text) == ":OK_hand:"
    ensures Normalize(demojize, text) == "OKhand"
  {
    OkHandScrub(demojize, text);
    var w := Scrub(demojize, text);
    CollapseStrip(w);
    OkHandWords(w);
    NormalizeWithoutSlang(demojize, text);
  }

  /** Stop words are dropped, the other tokens keep their order. */
  lemma FilterExample()
    ensures FilterStopWords(["the", "cat", "is", "happy"], {"the", "a", "is"}) == ["cat", "happy"]
  {
    LowerOfLowerCase("the");
    LowerOfLowerCase("cat");
    LowerOfLowerCase("is");
    LowerOfLowerCase("happy");
  }
}
