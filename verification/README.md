# Tweet normalisation and stop-word filtering, in Dafny

This project models the text-cleaning path of a tweet sentiment classifier.
It covers two functions of `app.py`:

- `normalize_text` (`app.py:41-55`). It lower-cases the text and spells emoji as names. It then applies six regular-expression substitutions: mentions, hashtags, `rt` markers, links and every character outside `[A-Za-z0-9' ]` are deleted, and whitespace runs are collapsed. Finally it strips the ends and replaces slang words using the table `slang_dict` (`app.py:25-33`).
- The text half of `sentiment_analysis` (`app.py:57-62`). It normalises, tokenizes and lemmatizes the text, drops stop words and joins the remaining tokens with single spaces.

Modules, in dependency order:

| module | file | contents |
|---|---|---|
| `Chars` | `chars.dfy` | character classes (ASCII letters and digits, Python's whitespace set, the whitelist), ASCII `lower()`, runs of a class |
| `Scanning` | `scanning.dfy` | one left-to-right `re.sub` pass for an abstract matcher (`SubWith`); its facts follow from a few properties of the matcher |
| `Regex` | `regex.dfy` | the six patterns as languages, the match at a position as the longest prefix in the language, `Sub` = `re.sub` |
| `Words` | `words.dfy` | `str.split()`, `str.strip()`, `' '.join`, the collapsing step, and the round trips between them |
| `Deletions` | `deletions.dfy` | each deletion step as a hand-written scan, proved equal to `re.sub` with its pattern |
| `TextNormalizer` | `normalize.dfy` | `slang_dict`, `normalize_text`, and its properties |
| `Sentiment` | `sentiment.dfy` | the stop-word filter, `lemmatize_tokens`, and the text handed to the vectorizer |
| `Examples` | `examples.dfy` | worked instances, including the ones where the patterns behave differently from what their names suggest |

Several steps are library calls: `emoji.demojize`, `nltk.word_tokenize` and the WordNet lemmatizer. They appear as function parameters. A lemma that depends on one of them states what it assumes about it, for example `demojize("") == ""`. The stop-word set is a parameter as well.

### Behaviour of the code as written

- **The output is not guaranteed to be lower case.** `lower()` runs before `demojize`, and the whitelist step keeps `A-Z`. Upper-case letters written by the emoji step therefore survive. When the emoji step spells U+1F44C as `:OK_hand:`, the output for that one emoji is `OKhand` (`Examples.UpperCaseSurvives`).
- **Tabs and newlines are deleted, not turned into spaces.** The whitelist step runs before whitespace is collapsed, so `"a\tb"` becomes `"ab"` (`Examples.TabDeleted`).
- **`rt` followed by whitespace is deleted wherever it occurs, including at the end of a word.** For example, `"start now"` becomes `"stanow"` (`Examples.RetweetInsideWord`).
- **`normalize_text` is not idempotent.** Deleting the `rt ` inside `"rrt t x"` leaves `"rt x"`, and a second call turns that into `"x"` (`Examples.NormalizeNotIdempotent`).

The model follows the code in all four cases.

## Model

| member | source | states |
|---|---|---|
| Chars.Lower | app.py:42 | lower-casing keeps the length, turns each `A-Z` letter into the matching `a-z` letter, and leaves every other character as it is |
| Chars.LowerIdempotent | app.py:42 | lower-casing twice is lower-casing once |
| Chars.IsSpace | app.py:46-52 | the characters Python's `\s`, `\S`, `str.split()` and `str.strip()` treat as whitespace: tab, line feed, vertical tab, form feed, carriage return, U+001C-U+001F, space, U+0085, U+00A0, U+1680, U+2000-U+200A, U+2028, U+2029, U+202F, U+205F and U+3000 |
| Regex.InLanguage | app.py:44-49 | the six regular expressions as languages: `@` then one or more of `[A-Za-z0-9_]`; `#` then one or more word characters; `rt` then one or more whitespace characters; `http://` or `https://` then one or more non-whitespace characters; any single character outside `[A-Za-z0-9' ]`; one or more whitespace characters |
| Regex.MatchLen | app.py:44-49 | the match of a pattern at the start of a text is the longest prefix in the pattern's language: no longer prefix is in it, and the character after the match cannot extend it |
| Regex.Sub | app.py:44-49 | one left-to-right pass of `re.sub`: each match is replaced and scanning resumes after it; with a replacement of at most one character, the result is never longer than the input |
| Regex.SubKeepsUntouched | app.py:44-49 | a deletion pass keeps, in their order, all characters that no match of the pattern can contain |
| Regex.SubLeavesNoMatch | app.py:44-49 | after deleting the matches of a pattern other than `rt[\s]+`, no substring of the result matches it: deleting cannot glue a new match together |
| Regex.SubWithoutMatch | app.py:44-49 | text that contains no match comes back from `re.sub` unchanged |
| Regex.SubIdempotent | app.py:44-49 | deleting the matches of a pattern other than `rt[\s]+` twice is the same as deleting them once |
| Regex.NoMatchIff | app.py:44-49 | "no substring is in the pattern's language" and "the matcher finds nothing at any position" are equivalent |
| Regex.WhitelistOnly | app.py:48 | after the whitelist step every character is one of `[A-Za-z0-9' ]` |
| Deletions.MentionStep | app.py:44 | `re.sub(r'@[A-Za-z0-9_]+', '', s)` deletes each `@` followed by a word character, together with the whole run of word characters after it; a bare `@` stays, and every other character is copied |
| Deletions.HashtagStep | app.py:45 | `re.sub(r'#\w+', '', s)` deletes each `#` that is followed by a word character, together with that word-character run; everything else is copied |
| Deletions.RetweetStep | app.py:46 | `re.sub(r'rt[\s]+', '', s)` deletes each `rt` followed by whitespace, together with all of that whitespace, at any position, including inside a word |
| Deletions.UrlStep | app.py:47 | `re.sub(r'https?://\S+', '', s)` deletes the scheme and the non-whitespace run after it; everything else is copied |
| Deletions.WhitelistStep | app.py:48 | the whitelist step keeps exactly the whitelisted characters, in order |
| Deletions.LinkKeepsFollowingSpace | app.py:47 | a link ends at whitespace or at the end of the text, and that whitespace character is kept |
| Deletions.WhitelistedFixed | app.py:44-48 | on text made only of `[A-Za-z0-9' ]`, the mention, hashtag, link and whitelist steps change nothing |
| Deletions.DropMentionsWithoutAt | app.py:44 | text without `@` passes through the mention step unchanged |
| Deletions.DropHashtagsWithoutHash | app.py:45 | text without `#` passes through the hashtag step unchanged |
| Deletions.DropUrlsWithoutSlash | app.py:47 | text without `/` passes through the link step unchanged |
| Deletions.DropRetweetsKeepsPrefix | app.py:46 | a prefix without the letter `r` passes through the retweet step, and the scan of the rest is unaffected by it |
| Deletions.DropRetweetsWithoutR | app.py:46 | text without the letter `r` passes through the retweet step unchanged |
| Deletions.DropRetweetsChars | app.py:46 | the retweet step only deletes: every character it keeps has any property all input characters have |
| Words.Split | app.py:52 | `str.split()`: every piece is nonempty and contains no whitespace |
| Words.Strip | app.py:49 | `str.strip()`: the result is the contiguous part of the text after its leading whitespace, with no whitespace at either end, and everything cut from the end is whitespace; text without whitespace at its ends comes back unchanged |
| Words.Collapse | app.py:49 | `re.sub(r'\s+', ' ', s)`: the `\s+` pattern's matches each replaced by one space; what this does is `Words.CollapseIsSqueeze` |
| Words.Join | app.py:55 | `' '.join(ws)`: the words with one space between each pair; its round trips with `Split` are `Words.SplitJoin` and `Words.JoinSplit` |
| Words.CollapseIsSqueeze | app.py:49 | `re.sub(r'\s+', ' ', s)` replaces every maximal whitespace run by one space and copies everything else |
| Words.CollapseStrip | app.py:49 | collapsing and then stripping gives the words of the text joined by single spaces |
| Words.SplitJoin | app.py:52-55 | splitting the space-join of whitespace-free nonempty words gives the words back |
| Words.JoinSplit | app.py:49-52 | joining the split of text with single spaces gives the text back, when the text is already single-spaced with no whitespace at the ends |
| Words.JoinTidy | app.py:55 | joining nonempty single-spaced pieces gives single-spaced text with no space at either end |
| Words.SplitChars | app.py:52 | if every character of the text has a property, so does every character of every word `split()` returns |
| Words.JoinChars | app.py:55 | if the space and every character of every word have a property, so does every character of the joined text |
| TextNormalizer.Scrub | app.py:42-48 | lower-casing, the emoji step, then the five deletion passes in the code's order; its output is whitelisted (`TextNormalizer.ScrubWhitelisted`) |
| TextNormalizer.CleanText | app.py:42-49 | the scrubbed text with whitespace runs collapsed and both ends stripped; its shape is `TextNormalizer.CleanTextShape` |
| TextNormalizer.ExpandSlang | app.py:53 | one entry per word, in order: the word's `slang_dict` expansion when it is a key, the word itself otherwise |
| TextNormalizer.Normalize | app.py:41-55 | `normalize_text`: the cleaned text's words, each slang word replaced by its expansion, joined by single spaces; its properties are the `TextNormalizer` lemmas below |
| TextNormalizer.SlangDict | app.py:25-33 | `slang_dict`: the seven keys `u`, `omg`, `bff`, `gonna`, `wanna`, `idk`, `brb` and their expansions, entry for entry |
| TextNormalizer.SlangTableWellFormed | app.py:25-33 | every expansion in `slang_dict` is nonempty, single-spaced and whitelisted, and none of its words is itself a slang key |
| TextNormalizer.ScrubWhitelisted | app.py:42-48 | after the five deletion steps only `[A-Za-z0-9' ]` characters remain |
| TextNormalizer.CleanTextShape | app.py:42-49 | the cleaned text is the scrubbed text's words joined by single spaces: no leading, trailing or doubled space, only whitelisted characters |
| TextNormalizer.ExpandWordShape | app.py:53 | a whitelisted word is replaced by nonempty, single-spaced, whitelisted text |
| TextNormalizer.NormalizeShape | app.py:41-55 | the output of `normalize_text` has only `[A-Za-z0-9' ]` characters, no space at either end and never two spaces in a row |
| TextNormalizer.NormalizeWords | app.py:52-55 | the output's words are the cleaned text's words, in order, each slang word replaced by the words of its expansion |
| TextNormalizer.SlangWordsAppend | app.py:53 | slang expansion works word by word: it commutes with concatenating word lists |
| TextNormalizer.SlangWordsIdempotent | app.py:53 | expanding the expanded words again changes nothing |
| TextNormalizer.NormalizeWithoutSlang | app.py:52-55 | when no word is slang, `normalize_text` returns the cleaned text |
| TextNormalizer.NormalizeEmpty | app.py:41-55 | the empty text normalises to the empty text, provided the emoji step maps it to itself |
| Sentiment.LemmatizeTokens | app.py:38-39 | `lemmatize_tokens`: one entry per token, in order, entry k being the lemmatizer's result for token k |
| Sentiment.AnalysisText | app.py:57-62 | the text `sentiment_analysis` hands to the vectorizer: normalise, tokenize, lemmatize, drop stop words, join with single spaces |
| Sentiment.Kept | app.py:61 | the comprehension's condition `word.lower() not in stop_words`: a token is kept exactly when its lower-cased form is not a stop word |
| Sentiment.FilterStopWords | app.py:61 | a token is in the result if and only if it is in the input and its lower-case form is not a stop word; the result is never longer than the input |
| Sentiment.FilterIsSubsequence | app.py:61 | the kept tokens appear in their original order |
| Sentiment.FilterCounts | app.py:61 | every occurrence of a kept token stays, and every occurrence of a stop word goes |
| Sentiment.FilterAppend | app.py:61 | filtering works token by token: it commutes with concatenation |
| Sentiment.FilterIdempotent | app.py:61 | filtering the filtered list changes nothing |
| Sentiment.JoinKeptSplits | app.py:61-62 | for whitespace-free tokens, the joined text splits back into exactly the kept tokens |
| Sentiment.AnalysisTextEmpty | app.py:57-62 | the empty text gives the empty analysis text, provided the emoji step and the tokenizer map empty input to empty output |
| Examples.RetweetInsideWord | app.py:46 | the retweet step turns `"start now"` into `"stanow"` |
| Examples.BareAtKept | app.py:44 | the mention step turns `"@ @ab c"` into `"@  c"`: the bare `@` and both spaces stay |
| Examples.TabDeleted | app.py:48 | the whitelist step turns `"a\tb"` into `"ab"` |
| Examples.UpperCaseSurvives | app.py:42-55 | when the emoji step spells U+1F44C as `":OK_hand:"`, `normalize_text` of that emoji is `"OKhand"`, with its upper-case letters |
| Examples.NormalizeIdk | app.py:41-55 | `normalize_text("idk what to do")` is `"i don't know what to do"` |
| Examples.NormalizeNotIdempotent | app.py:41-55 | some text gives a different result when `normalize_text` is applied a second time |
| Examples.FilterExample | app.py:61 | filtering `the cat is happy` with stop words `the`, `a`, `is` keeps `cat happy` |

## Left out

- The Streamlit page, the Twitter crawl, the CSV handling, the plots and the environment variables (`app.py:66` onwards) are user interface and I/O.
- `load_stopwords` (`app.py:17-21`) reads a file. The stop-word set is a parameter instead.
- The TF-IDF vectorizer and the two classifiers (`app.py:23`, `app.py:63-64`, `app.py:69-70`) are trained models loaded from disk, so they are not modelled. `Sentiment.AnalysisText` is the text handed to the vectorizer.
- `emoji.demojize`, `nltk.word_tokenize` and `WordNetLemmatizer.lemmatize` are library code. They are function parameters, so no property depends on what they do beyond the assumptions a lemma states.
- Chars.Lower: lower-cases ASCII `A-Z` only. Python's `str.lower()` also lower-cases other Unicode letters, and it can change the length of some texts. Most non-ASCII letters are deleted by the whitelist step either way. A few non-ASCII capitals lower-case to ASCII letters, though. U+212A KELVIN SIGN becomes `k`, and U+0130 becomes `i` followed by U+0307. Python keeps that ASCII letter, while the model leaves the capital as it is and the whitelist step deletes it. So Python's `normalize_text("\u212a")` is `"k"` and the model's is `""`.
- Chars.IsWordChar: `\w` in the hashtag pattern is restricted to `[A-Za-z0-9_]`. Python's `\w` also matches non-ASCII letters and digits.
- Regex.Sub: its own contract states only that a replacement of at most one character never lengthens the text. What it deletes and keeps is stated by the `Deletions` step lemmas and the `Regex` lemmas above.
- Regex.SubLeavesNoMatch: does not cover `rt[\s]+`. Deleting `rt ` inside `rrt ` produces a new match, as `Examples.NormalizeNotIdempotent` shows.
- Regex.SubIdempotent: does not cover `rt[\s]+`, for the same reason.
