/** Reference definitions of the deletion steps of `normalize_text`
    (app.py:44-48), written directly as scans over the text, and the proof
    that `re.sub` with each pattern computes them. */
module Deletions {
  import opened Chars
  import opened Regex

  /** `re.sub(r'@[A-Za-z0-9_]+', '', s)`: an `@` followed by a word character
      goes, together with the whole run of word characters after it; a bare
      `@` stays. */
  function DropMentions(s: string): string
    decreases |s|
  {
    if s == [] then []
    else if |s| > 1 && s[0] == '@' && IsWordChar(s[1]) then DropMentions(s[1 + RunLength(Word, s[1..])..])
    else [s[0]] + DropMentions(s[1..])
  }

  /** `re.sub(r'#\w+', '', s)`, with `\w` as ASCII word characters. */
  function DropHashtags(s: string): string
    decreases |s|
  {
    if s == [] then []
    else if |s| > 1 && s[0] == '#' && IsWordChar(s[1]) then DropHashtags(s[1 + RunLength(Word, s[1..])..])
    else [s[0]] + DropHashtags(s[1..])
  }

  /** `re.sub(r'rt[\s]+', '', s)`: `rt` followed by whitespace goes with all
      of that whitespace, wherever it occurs, including at the end of a
      longer word. */
  function DropRetweets(s: string): string
    decreases |s|
  {
    if s == [] then []
    else if |s| > 2 && s[0] == 'r' && s[1] == 't' && IsSpace(s[2]) then DropRetweets(s[2 + RunLength(Space, s[2..])..])
    else [s[0]] + DropRetweets(s[1..])
  }

  /** Length of a link at the start of `s`: `https://` or `http://` followed
      by the run of non-whitespace after it (at least one character), or 0. */
  function UrlLen(s: string): nat {
    if |s| > 8 && s[..8] == "https://" && !IsSpace(s[8]) then 8 + RunLength(NonSpace, s[8..])
    else if |s| > 7 && s[..7] == "http://" && !IsSpace(s[7]) then 7 + RunLength(NonSpace, s[7..])
    else 0
  }

  /** `re.sub(r'https?://\S+', '', s)`: a scheme and everything up to the next
      whitespace goes; the whitespace stays. */
  function DropUrls(s: string): string
    decreases |s|
  {
    if s == [] then []
    else if UrlLen(s) > 0 then DropUrls(s[UrlLen(s)..])
    else [s[0]] + DropUrls(s[1..])
  }

  /** `re.sub(r'[^A-Za-z0-9\' ]', '', s)`: keep exactly the whitelisted
      characters. */
  function KeepWhitelisted(s: string): string
    decreases |s|
  {
    if s == [] then []
    else if IsWhitelisted(s[0]) then [s[0]] + KeepWhitelisted(s[1..])
    else KeepWhitelisted(s[1..])
  }

  lemma MentionMatchLen(s: string)
    ensures MatchLen(Mention, s) ==
      if |s| > 1 && s[0] == '@' && IsWordChar(s[1]) then 1 + RunLength(Word, s[1..]) else 0
  {
    assert StartsWith(s, "@") <==> |s| >= 1 && s[0] == '@' by {
      if |s| >= 1 { assert s[..1] == [s[0]]; }
    }
  }

  lemma HashtagMatchLen(s: string)
    ensures MatchLen(Hashtag, s) ==
      if |s| > 1 && s[0] == '#' && IsWordChar(s[1]) then 1 + RunLength(Word, s[1..]) else 0
  {
    assert StartsWith(s, "#") <==> |s| >= 1 && s[0] == '#' by {
      if |s| >= 1 { assert s[..1] == [s[0]]; }
    }
  }

  lemma RetweetMatchLen(s: string)
    ensures MatchLen(RetweetMarker, s) ==
      if |s| > 2 && s[0] == 'r' && s[1] == 't' && IsSpace(s[2]) then 2 + RunLength(Space, s[2..]) else 0
  {
    assert StartsWith(s, "rt") <==> |s| >= 2 && s[0] == 'r' && s[1] == 't' by {
      if |s| >= 2 { assert s[..2] == [s[0], s[1]]; }
    }
  }

  lemma UrlMatchLen(s: string)
    ensures MatchLen(Url, s) == UrlLen(s)
  {
    if |s| >= 8 && s[..8] == "https://" {
      assert s[..5] == s[..8][..5];
    }
    if StartsWith(s, "https") && |s| >= 7 {
      assert s[..7][4] == s[..5][4];
    }
  }

  /** Where an `@` mention starts, the pattern matches it and the scan skips it. */
  lemma MentionMatchSkip(s: string)
    requires |s| > 1 && s[0] == '@' && IsWordChar(s[1])
    ensures MatchLen(Mention, s) > 0 && DropMentions(s) == DropMentions(s[MatchLen(Mention, s)..])
  {
    MentionMatchLen(s);
  }

  /** Elsewhere the pattern does not match and the scan copies a character. */
  lemma MentionMatchKeep(s: string)
    requires s != [] && !(|s| > 1 && s[0] == '@' && IsWordChar(s[1]))
    ensures MatchLen(Mention, s) == 0 && DropMentions(s) == [s[0]] + DropMentions(s[1..])
  {
    MentionMatchLen(s);
  }

  lemma {:induction false} MentionStep(s: string)
    ensures Sub(Mention, "", s) == DropMentions(s)
    decreases |s|
  {
    if s == [] {
      MatcherBounded(Mention);
    } else {
      SubUnfold(Mention, "", s);
      if |s| > 1 && s[0] == '@' && IsWordChar(s[1]) {
        MentionMatchSkip(s);
        MentionStep(s[MatchLen(Mention, s)..]);
      } else {
        MentionMatchKeep(s);
        MentionStep(s[1..]);
      }
    }
  }

  /** Where a hashtag starts, the pattern matches it and the scan skips it. */
  lemma HashtagMatchSkip(s: string)
    requires |s| > 1 && s[0] == '#' && IsWordChar(s[1])
    ensures MatchLen(Hashtag, s) > 0 && DropHashtags(s) == DropHashtags(s[MatchLen(Hashtag, s)..])
  {
    HashtagMatchLen(s);
  }

  /** Elsewhere the pattern does not match and the scan copies a character. */
  lemma HashtagMatchKeep(s: string)
    requires s != [] && !(|s| > 1 && s[0] == '#' && IsWordChar(s[1]))
    ensures MatchLen(Hashtag, s) == 0 && DropHashtags(s) == [s[0]] + DropHashtags(s[1..])
  {
    HashtagMatchLen(s);
  }

  lemma {:induction false} HashtagStep(s: string)
    ensures Sub(Hashtag, "", s) == DropHashtags(s)
    decreases |s|
  {
    if s == [] {
      MatcherBounded(Hashtag);
    } else {
      SubUnfold(Hashtag, "", s);
      if |s| > 1 && s[0] == '#' && IsWordChar(s[1]) {
        HashtagMatchSkip(s);
        HashtagStep(s[MatchLen(Hashtag, s)..]);
      } else {
        HashtagMatchKeep(s);
        HashtagStep(s[1..]);
      }
    }
  }

  /** Where a retweet marker starts, the pattern matches it and the scan skips it. */
  lemma RetweetMatchSkip(s: string)
    requires |s| > 2 && s[0] == 'r' && s[1] == 't' && IsSpace(s[2])
    ensures MatchLen(RetweetMarker, s) > 0 && DropRetweets(s) == DropRetweets(s[MatchLen(RetweetMarker, s)..])
  {
    RetweetMatchLen(s);
  }

  /** Elsewhere the pattern does not match and the scan copies a character. */
  lemma RetweetMatchKeep(s: string)
    requires s != [] && !(|s| > 2 && s[0] == 'r' && s[1] == 't' && IsSpace(s[2]))
    ensures MatchLen(RetweetMarker, s) == 0 && DropRetweets(s) == [s[0]] + DropRetweets(s[1..])
  {
    RetweetMatchLen(s);
  }

  lemma {:induction false} RetweetStep(s: string)
    ensures Sub(RetweetMarker, "", s) == DropRetweets(s)
    decreases |s|
  {
    if s == [] {
      MatcherBounded(RetweetMarker);
    } else {
      SubUnfold(RetweetMarker, "", s);
      if |s| > 2 && s[0] == 'r' && s[1] == 't' && IsSpace(s[2]) {
        RetweetMatchSkip(s);
        RetweetStep(s[MatchLen(RetweetMarker, s)..]);
      } else {
        RetweetMatchKeep(s);
        RetweetStep(s[1..]);
      }
    }
  }

  /** One step of the scan for a link, with the match length of the
      pattern in place of the hand-written test. */
  lemma UrlUnfold(s: string)
    requires s != []
    ensures DropUrls(s) ==
      if MatchLen(Url, s) > 0 then DropUrls(s[MatchLen(Url, s)..])
      else [s[0]] + DropUrls(s[1..])
  {
    UrlMatchLen(s);
  }

  lemma {:induction false} UrlStep(s: string)
    ensures Sub(Url, "", s) == DropUrls(s)
    decreases |s|
  {
    if s == [] {
      MatcherBounded(Url);
    } else {
      SubUnfold(Url, "", s);
      UrlUnfold(s);
      var n := MatchLen(Url, s);
      if n > 0 {
        UrlStep(s[n..]);
      } else {
        UrlStep(s[1..]);
      }
    }
  }

  lemma {:induction false} WhitelistStep(s: string)
    ensures Sub(NotWhitelisted, "", s) == KeepWhitelisted(s)
    decreases |s|
  {
    if s == [] {
      MatcherBounded(NotWhitelisted);
    } else {
      SubUnfold(NotWhitelisted, "", s);
      WhitelistStep(s[1..]);
    }
  }

  /** A link needs a `:`, which is not whitelisted. */
  lemma UrlLenWhitelisted(s: string)
    requires Whitelisted(s)
    ensures UrlLen(s) == 0
  {
    if |s| > 8 {
      assert s[..8][5] == s[5];
    }
    if |s| > 7 {
      assert s[..7][4] == s[4];
    }
  }

  /** Whitelisted text has no `@`, `#` or `:`, so the mention, hashtag, link
      and whitelist steps leave it as it is; only the retweet step can still
      change it. */
  lemma {:induction false} WhitelistedFixed(s: string)
    requires Whitelisted(s)
    ensures DropMentions(s) == s && DropHashtags(s) == s
    ensures DropUrls(s) == s && KeepWhitelisted(s) == s
    decreases |s|
  {
    if s != [] {
      WhitelistedFixed(s[1..]);
      UrlLenWhitelisted(s);
      assert DropUrls(s) == [s[0]] + DropUrls(s[1..]);
    }
  }

  /** The retweet step only deletes: every character it keeps satisfies any
      property all characters of its input have. */
  lemma {:induction false} DropRetweetsChars(s: string, P: char -> bool)
    requires forall i | 0 <= i < |s| :: P(s[i])
    ensures forall i | 0 <= i < |DropRetweets(s)| :: P(DropRetweets(s)[i])
    decreases |s|
  {
    if s != [] {
      if |s| > 2 && s[0] == 'r' && s[1] == 't' && IsSpace(s[2]) {
        DropRetweetsChars(s[2 + RunLength(Space, s[2..])..], P);
      } else {
        DropRetweetsChars(s[1..], P);
      }
    }
  }

  /** Text without the letter `r` has no retweet marker to delete. */
  lemma {:induction false} DropRetweetsWithoutR(s: string)
    requires forall i | 0 <= i < |s| :: s[i] != 'r'
    ensures DropRetweets(s) == s
    decreases |s|
  {
    if s != [] {
      DropRetweetsWithoutR(s[1..]);
    }
  }

  /** Text without `@` has no mention to delete. */
  lemma {:induction false} DropMentionsWithoutAt(s: string)
    requires forall i | 0 <= i < |s| :: s[i] != '@'
    ensures DropMentions(s) == s
    decreases |s|
  {
    if s != [] {
      DropMentionsWithoutAt(s[1..]);
    }
  }

  /** Text without `#` has no hashtag to delete. */
  lemma {:induction false} DropHashtagsWithoutHash(s: string)
    requires forall i | 0 <= i < |s| :: s[i] != '#'
    ensures DropHashtags(s) == s
    decreases |s|
  {
    if s != [] {
      DropHashtagsWithoutHash(s[1..]);
    }
  }

  /** A link needs the `/` of its scheme. */
  lemma UrlLenWithoutSlash(s: string)
    requires forall i | 0 <= i < |s| :: s[i] != '/'
    ensures UrlLen(s) == 0
  {
    if |s| > 8 {
      assert s[..8][6] == s[6];
    }
    if |s| > 7 {
      assert s[..7][6] == s[6];
    }
  }

  /** Text without `/` has no link to delete. */
  lemma {:induction false} DropUrlsWithoutSlash(s: string)
    requires forall i | 0 <= i < |s| :: s[i] != '/'
    ensures DropUrls(s) == s
    decreases |s|
  {
    if s != [] {
      UrlLenWithoutSlash(s);
      DropUrlsWithoutSlash(s[1..]);
      assert DropUrls(s) == [s[0]] + DropUrls(s[1..]);
    }
  }

  /** A prefix without the letter `r` is copied, and the scan goes on after
      it as if it were not there. */
  lemma {:induction false} DropRetweetsKeepsPrefix(p: string, t: string)
    requires forall i | 0 <= i < |p| :: p[i] != 'r'
    ensures DropRetweets(p + t) == p + DropRetweets(t)
    decreases |p|
  {
    if p == [] {
      assert p + t == t;
    } else {
      assert (p + t)[1..] == p[1..] + t;
      DropRetweetsKeepsPrefix(p[1..], t);
    }
  }

  /** No link starts at whitespace. */
  lemma UrlLenAtSpace(t: string)
    requires |t| > 0 && IsSpace(t[0])
    ensures UrlLen(t) == 0
  {
    if |t| > 8 {
      assert t[..8][0] == t[0];
    }
    if |t| > 7 {
      assert t[..7][0] == t[0];
    }
  }

  /** A link that does not reach the end of the text stops at whitespace. */
  lemma UrlEndsAtSpace(s: string)
    requires 0 < UrlLen(s) < |s|
    ensures IsSpace(s[UrlLen(s)])
  {
    if |s| > 8 && s[..8] == "https://" && !IsSpace(s[8]) {
      var n := RunLength(NonSpace, s[8..]);
      assert s[8..][n] == s[8 + n];
    } else {
      var n := RunLength(NonSpace, s[7..]);
      assert s[7..][n] == s[7 + n];
    }
  }

  /** A link ends at whitespace or at the end of the text, and that
      whitespace character is kept: it cannot start another link. */
  lemma LinkKeepsFollowingSpace(s: string)
    requires UrlLen(s) > 0
    ensures UrlLen(s) == |s| ==> DropUrls(s) == []
    ensures UrlLen(s) < |s| ==> IsSpace(s[UrlLen(s)])
    ensures UrlLen(s) < |s| ==> DropUrls(s) == [s[UrlLen(s)]] + DropUrls(s[UrlLen(s) + 1..])
  {
    var n := UrlLen(s);
    if n < |s| {
      UrlEndsAtSpace(s);
      UrlLenAtSpace(s[n..]);
      assert s[n..][0] == s[n];
      assert s[n..][1..] == s[n + 1..];
    }
  }
}
