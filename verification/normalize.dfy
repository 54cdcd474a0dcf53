/** `normalize_text` (app.py:41-55): lower-casing, emoji names, five regular
    expression deletions, whitespace collapsing, and word-by-word slang
    expansion with the table `slang_dict` (app.py:25-33).

    `emoji.demojize` is a library call and is a parameter here. */
module TextNormalizer {
  import opened Chars
  import opened Regex
  import opened Words

  /** `slang_dict` (app.py:25-33). */
  const SlangDict: map<string, string> := map[
    "u" := "you",
    "omg" := "oh my god",
    "bff" := "best friend forever",
    "gonna" := "going to",
    "wanna" := "want to",
    "idk" := "i don't know",
    "brb" := "be right back"
  ]

  /** One element of the list comprehension at app.py:53. */
  function ExpandWord(w: string): string {
    if w in SlangDict then SlangDict[w] else w
  }

  /** The list comprehension at app.py:53. */
  function ExpandSlang(ws: seq<string>): (r: seq<string>)
    ensures |r| == |ws|
    ensures forall k | 0 <= k < |ws| :: ws[k] in SlangDict ==> r[k] == SlangDict[ws[k]]
    ensures forall k | 0 <= k < |ws| :: ws[k] !in SlangDict ==> r[k] == ws[k]
  {
    seq(|ws|, k requires 0 <= k < |ws| => ExpandWord(ws[k]))
  }

  /** The words the expansion produces, in order: each word's expansion,
      split into words. */
  function SlangWords(ws: seq<string>): seq<string>
    decreases |ws|
  {
    if ws == [] then [] else Split(ExpandWord(ws[0])) + SlangWords(ws[1..])
  }

  /** app.py:42-48: lower-case, spell emoji as names, then delete mentions,
      hashtags, retweet markers, links and every character outside
      `[A-Za-z0-9' ]`, in that order. */
  function Scrub(demojize: string -> string, text: string): string {
    var demojized := demojize(Lower(text));
    var noMentions := Sub(Mention, "", demojized);
    var noHashtags := Sub(Hashtag, "", noMentions);
    var noRetweets := Sub(RetweetMarker, "", noHashtags);
    var noUrls := Sub(Url, "", noRetweets);
    Sub(NotWhitelisted, "", noUrls)
  }

  /** app.py:42-49: the scrubbed text with whitespace runs collapsed and the
      ends stripped. */
  function CleanText(demojize: string -> string, text: string): string {
    Strip(Collapse(Scrub(demojize, text)))
  }

  /** `normalize_text(text)` (app.py:41-55). */
  function Normalize(demojize: string -> string, text: string): string {
    Join(ExpandSlang(Split(CleanText(demojize, text))))
  }

  /** Scrubbing leaves only whitelisted characters. */
  lemma ScrubWhitelisted(demojize: string -> string, text: string)
    ensures Whitelisted(Scrub(demojize, text))
  {
    var demojized := demojize(Lower(text));
    var noMentions := Sub(Mention, "", demojized);
    var noHashtags := Sub(Hashtag, "", noMentions);
    var noRetweets := Sub(RetweetMarker, "", noHashtags);
    var noUrls := Sub(Url, "", noRetweets);
    WhitelistOnly(noUrls);
  }

  /** The cleaned text is the scrubbed text's words joined by single spaces:
      tidy, and made only of whitelisted characters. */
  lemma CleanTextShape(demojize: string -> string, text: string)
    ensures CleanText(demojize, text) == Join(Split(Scrub(demojize, text)))
    ensures Tidy(CleanText(demojize, text)) && Whitelisted(CleanText(demojize, text))
  {
    var s := Scrub(demojize, text);
    CollapseStrip(s);
    ScrubWhitelisted(demojize, text);
    SplitChars(s, IsWhitelisted);
    JoinChars(Split(s), IsWhitelisted);
    forall k | 0 <= k < |Split(s)| ensures Split(s)[k] != [] && Tidy(Split(s)[k]) {
      TokenTidy(Split(s)[k]);
    }
    JoinTidy(Split(s));
  }

  lemma SplitOne(a: string)
    requires IsToken(a)
    ensures Split(a) == [a]
  {
    SplitToken(a, []);
    assert a + [] == a;
  }

  lemma SplitTwo(a: string, b: string)
    requires IsToken(a) && IsToken(b)
    ensures Split(a + " " + b) == [a, b]
  {
    SplitSeparated(a, b);
    SplitOne(a);
    SplitOne(b);
  }

  lemma SplitThree(a: string, b: string, c: string)
    requires IsToken(a) && IsToken(b) && IsToken(c)
    ensures Split(a + " " + b + " " + c) == [a, b, c]
  {
    SplitSeparated(a + " " + b, c);
    SplitTwo(a, b);
    SplitOne(c);
  }

  /** What the slang table promises of an expansion: nonempty, tidy,
      whitelisted, and made of words that are not slang themselves. */
  predicate WellFormedExpansion(v: string) {
    v != [] && Tidy(v) && Whitelisted(v) && forall j | 0 <= j < |Split(v)| :: Split(v)[j] !in SlangDict
  }

  /** A word the slang table may use in an expansion: whitelisted and not
      slang itself. */
  predicate PlainWord(w: string) {
    IsToken(w) && Whitelisted(w) && w !in SlangDict
  }

  /** A single plain word is a well-formed expansion. */
  lemma ExpansionOne(a: string)
    requires PlainWord(a)
    ensures WellFormedExpansion(a)
  {
    SplitOne(a);
  }

  /** Two plain words joined by a space form a well-formed expansion. */
  lemma ExpansionTwo(a: string, b: string)
    requires PlainWord(a) && PlainWord(b)
    ensures WellFormedExpansion(a + " " + b)
  {
    SplitTwo(a, b);
    TidyGlue(a, b);
    WhitelistedGlue(a, b);
  }

  /** Three plain words joined by spaces form a well-formed expansion. */
  lemma ExpansionThree(a: string, b: string, c: string)
    requires PlainWord(a) && PlainWord(b) && PlainWord(c)
    ensures WellFormedExpansion(a + " " + b + " " + c)
  {
    SplitThree(a, b, c);
    TidyGlue(a, b);
    TidyGlue(a + " " + b, c);
    WhitelistedGlue(a, b);
    WhitelistedGlue(a + " " + b, c);
  }

  lemma WhitelistedGlue(a: string, b: string)
    requires Whitelisted(a) && Whitelisted(b)
    ensures Whitelisted(a + " " + b)
  {
    var r := a + " " + b;
    forall i | 0 <= i < |r| ensures IsWhitelisted(r[i]) {
      if i < |a| {
        assert r[i] == a[i];
      } else if i > |a| {
        assert r[i] == b[i - |a| - 1];
      }
    }
  }

  lemma UWords()
    ensures PlainWord("you")
  {
  }

  lemma ExpansionU()
    ensures WellFormedExpansion(SlangDict["u"])
  {
    UWords();
    ExpansionOne("you");
  }

  lemma OmgWords()
    ensures PlainWord("oh") && PlainWord("my") && PlainWord("god")
  {
  }

  lemma ExpansionOmg()
    ensures WellFormedExpansion(SlangDict["omg"])
  {
    OmgWords();
    ExpansionThree("oh", "my", "god");
    assert "oh" + " " + "my" + " " + "god" == SlangDict["omg"];
  }

  lemma BffWords()
    ensures PlainWord("best") && PlainWord("friend") && PlainWord("forever")
  {
  }

  lemma ExpansionBff()
    ensures WellFormedExpansion(SlangDict["bff"])
  {
    BffWords();
    ExpansionThree("best", "friend", "forever");
    assert "best" + " " + "friend" + " " + "forever" == SlangDict["bff"];
  }

  lemma GonnaWords()
    ensures PlainWord("going") && PlainWord("to")
  {
  }

  lemma ExpansionGonna()
    ensures WellFormedExpansion(SlangDict["gonna"])
  {
    GonnaWords();
    ExpansionTwo("going", "to");
    assert "going" + " " + "to" == SlangDict["gonna"];
  }

  lemma WannaWords()
    ensures PlainWord("want") && PlainWord("to")
  {
  }

  lemma ExpansionWanna()
    ensures WellFormedExpansion(SlangDict["wanna"])
  {
    WannaWords();
    ExpansionTwo("want", "to");
    assert "want" + " " + "to" == SlangDict["wanna"];
  }

  lemma IdkWords()
    ensures PlainWord("i") && PlainWord("don't") && PlainWord("know")
  {
  }

  lemma ExpansionIdk()
    ensures WellFormedExpansion(SlangDict["idk"])
  {
    IdkWords();
    ExpansionThree("i", "don't", "know");
    assert "i" + " " + "don't" + " " + "know" == SlangDict["idk"];
  }

  lemma BrbWords()
    ensures PlainWord("be") && PlainWord("right") && PlainWord("back")
  {
  }

  lemma ExpansionBrb()
    ensures WellFormedExpansion(SlangDict["brb"])
  {
    BrbWords();
    ExpansionThree("be", "right", "back");
    assert "be" + " " + "right" + " " + "back" == SlangDict["brb"];
  }

  /** Every slang expansion is nonempty, tidy and whitelisted, and none of
      its words is itself slang. */
  lemma SlangTableWellFormed(k: string)
    requires k in SlangDict
    ensures WellFormedExpansion(SlangDict[k])
  {
    if k == "u" {
      ExpansionU();
    } else if k == "omg" {
      ExpansionOmg();
    } else if k == "bff" {
      ExpansionBff();
    } else if k == "gonna" {
      ExpansionGonna();
    } else if k == "wanna" {
      ExpansionWanna();
    } else if k == "idk" {
      ExpansionIdk();
    } else {
      ExpansionBrb();
    }
  }

  /** An expanded word is nonempty, tidy and whitelisted when the word is a
      whitelisted token. */
  lemma ExpandWordShape(w: string)
    requires IsToken(w) && Whitelisted(w)
    ensures ExpandWord(w) != [] && Tidy(ExpandWord(w)) && Whitelisted(ExpandWord(w))
  {
    if w in SlangDict {
      SlangTableWellFormed(w);
    } else {
      TokenTidy(w);
    }
  }

  /** The output of `normalize_text` has only `[A-Za-z0-9' ]` characters, no
      whitespace at either end and never two spaces in a row. */
  lemma NormalizeShape(demojize: string -> string, text: string)
    ensures Tidy(Normalize(demojize, text)) && Whitelisted(Normalize(demojize, text))
  {
    var clean := CleanText(demojize, text);
    var ws := Split(clean);
    var es := ExpandSlang(ws);
    CleanTextShape(demojize, text);
    SplitChars(clean, IsWhitelisted);
    forall k | 0 <= k < |es| ensures es[k] != [] && Tidy(es[k]) && Whitelisted(es[k]) {
      ExpandWordShape(ws[k]);
    }
    JoinTidy(es);
    JoinChars(es, IsWhitelisted);
  }

  /** Slang expansion works word by word: it maps concatenated word lists to
      concatenated expansions. */
  lemma {:induction false} SlangWordsAppend(a: seq<string>, b: seq<string>)
    ensures SlangWords(a + b) == SlangWords(a) + SlangWords(b)
    decreases |a|
  {
    if a == [] {
      assert a + b == b;
    } else {
      assert (a + b)[0] == a[0];
      assert (a + b)[1..] == a[1..] + b;
      SlangWordsAppend(a[1..], b);
    }
  }

  /** Splitting the joined expansions gives the expanded words in order. */
  lemma {:induction false} SplitJoinExpand(ws: seq<string>)
    ensures Split(Join(ExpandSlang(ws))) == SlangWords(ws)
    decreases |ws|
  {
    if ws != [] {
      var es := ExpandSlang(ws);
      assert ExpandSlang(ws[1..]) == es[1..];
      SplitJoinExpand(ws[1..]);
      if |ws| == 1 {
        assert Join(es) == ExpandWord(ws[0]);
      } else {
        assert es == [es[0]] + es[1..];
        JoinCons(es[0], es[1..]);
        SplitSeparated(es[0], Join(es[1..]));
      }
    }
  }

  /** The words of `normalize_text`'s output are the cleaned text's words,
      each replaced by the words of its slang expansion, in order. */
  lemma NormalizeWords(demojize: string -> string, text: string)
    ensures Split(Normalize(demojize, text)) == SlangWords(Split(CleanText(demojize, text)))
  {
    SplitJoinExpand(Split(CleanText(demojize, text)));
  }

  /** Words that are not slang pass through the expansion unchanged. */
  lemma {:induction false} SlangWordsNoSlang(ws: seq<string>)
    requires forall k | 0 <= k < |ws| :: IsToken(ws[k]) && ws[k] !in SlangDict
    ensures SlangWords(ws) == ws
    decreases |ws|
  {
    if ws != [] {
      assert ExpandWord(ws[0]) == ws[0];
      SplitOne(ws[0]);
      SlangWordsNoSlang(ws[1..]);
      assert SlangWords(ws) == [ws[0]] + ws[1..];
    }
  }

  /** Without slang words, `normalize_text` returns the cleaned text. */
  lemma NormalizeWithoutSlang(demojize: string -> string, text: string)
    requires forall k | 0 <= k < |Split(CleanText(demojize, text))| :: Split(CleanText(demojize, text))[k] !in SlangDict
    ensures Normalize(demojize, text) == CleanText(demojize, text)
  {
    var clean := CleanText(demojize, text);
    var ws := Split(clean);
    assert ExpandSlang(ws) == ws;
    CleanTextShape(demojize, text);
    JoinSplit(clean);
  }

  /** Expanded words are never slang, so expanding twice is expanding once. */
  lemma {:induction false} SlangWordsIdempotent(ws: seq<string>)
    requires forall k | 0 <= k < |ws| :: IsToken(ws[k])
    ensures SlangWords(SlangWords(ws)) == SlangWords(ws)
    decreases |ws|
  {
    if ws != [] {
      var w := ws[0];
      var first := Split(ExpandWord(w));
      if w in SlangDict {
        SlangTableWellFormed(w);
      } else {
        SplitOne(w);
      }
      SlangWordsNoSlang(first);
      SlangWordsIdempotent(ws[1..]);
      SlangWordsAppend(first, SlangWords(ws[1..]));
    }
  }

  /** `normalize_text("")` is `""`, provided the emoji step maps the empty
      text to itself. */
  lemma NormalizeEmpty(demojize: string -> string)
    requires demojize("") == ""
    ensures Normalize(demojize, "") == ""
  {
    MatcherBounded(Mention);
    MatcherBounded(Hashtag);
    MatcherBounded(RetweetMarker);
    MatcherBounded(Url);
    MatcherBounded(NotWhitelisted);
    MatcherBounded(SpaceRun);
    assert Lower("") == "";
    assert Scrub(demojize, "") == "";
    assert CleanText(demojize, "") == "";
  }
}
