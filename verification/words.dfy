/** Python's `str.strip()`, `str.split()` and `' '.join(...)` on whitespace as
    `str.isspace` defines it, and the whitespace-collapsing step of
    `normalize_text` (app.py:49). */
module Words {
  import opened Chars
  import opened Regex

  /** A piece `str.split()` can return: nonempty, without whitespace. */
  predicate IsToken(w: string) {
    w != [] && forall i | 0 <= i < |w| :: !IsSpace(w[i])
  }

  /** Text in the shape `' '.join` gives to tokens: the only whitespace is the
      plain space, never at either end and never twice in a row. */
  predicate Tidy(s: string) {
    && (forall i | 0 <= i < |s| :: IsSpace(s[i]) ==> s[i] == ' ')
    && (s == [] || (s[0] != ' ' && s[|s| - 1] != ' '))
    && (forall i, j | 0 <= i && j == i + 1 < |s| :: !(s[i] == ' ' && s[j] == ' '))
  }

  /** `s.lstrip()`: the suffix after the leading whitespace. */
  function LStrip(s: string): (r: string)
    ensures |r| <= |s| && r == s[|s| - |r|..]
    ensures forall i | 0 <= i < |s| - |r| :: IsSpace(s[i])
    ensures r == [] || !IsSpace(r[0])
  {
    s[RunLength(Space, s)..]
  }

  /** `s.rstrip()`: the prefix before the trailing whitespace. */
  function RStrip(s: string): (r: string)
    ensures |r| <= |s| && r == s[..|r|]
    ensures forall i | |r| <= i < |s| :: IsSpace(s[i])
    ensures r == [] || !IsSpace(r[|r| - 1])
    decreases |s|
  {
    if s != [] && IsSpace(s[|s| - 1]) then RStrip(s[..|s| - 1]) else s
  }

  /** `s.strip()`. */
  function Strip(s: string): (r: string)
    ensures |r| <= |s| - RunLength(Space, s) && r == s[RunLength(Space, s)..][..|r|]
    ensures r == [] || (!IsSpace(r[0]) && !IsSpace(r[|r| - 1]))
    ensures forall i | RunLength(Space, s) + |r| <= i < |s| :: IsSpace(s[i])
    ensures s == [] || (!IsSpace(s[0]) && !IsSpace(s[|s| - 1])) ==> r == s
  {
    RStrip(LStrip(s))
  }

  /** `s.split()`: the maximal runs of non-whitespace, in order. */
  function Split(s: string): (ws: seq<string>)
    ensures forall k | 0 <= k < |ws| :: IsToken(ws[k])
    decreases |s|
  {
    if s == [] then []
    else if IsSpace(s[0]) then Split(s[1..])
    else
      var n := RunLength(NonSpace, s);
      [s[..n]] + Split(s[n..])
  }

  /** Every character of a piece of `s.split()` is a character of `s`; in
      particular the pieces keep any property all of `s` has. */
  lemma {:induction false} SplitChars(s: string, P: char -> bool)
    requires forall i | 0 <= i < |s| :: P(s[i])
    ensures forall k, i | 0 <= k < |Split(s)| && 0 <= i < |Split(s)[k]| :: P(Split(s)[k][i])
    decreases |s|
  {
    if s != [] {
      if IsSpace(s[0]) {
        SplitChars(s[1..], P);
      } else {
        var n := RunLength(NonSpace, s);
        SplitChars(s[n..], P);
        var ws := Split(s);
        assert ws == [s[..n]] + Split(s[n..]);
        forall k, i | 0 <= k < |ws| && 0 <= i < |ws[k]| ensures P(ws[k][i]) {
          if k == 0 {
            assert ws[0][i] == s[i];
          } else {
            assert ws[k] == Split(s[n..])[k - 1];
          }
        }
      }
    }
  }

  /** `str.split()` ignores leading whitespace. */
  lemma {:induction false} SplitLStrip(s: string)
    ensures Split(LStrip(s)) == Split(s)
    decreases |s|
  {
    if s != [] && IsSpace(s[0]) {
      SplitLStrip(s[1..]);
      assert LStrip(s) == LStrip(s[1..]);
    }
  }

  /** Text joined by a space splits into the pieces of each side. */
  lemma {:induction false} SplitSeparated(a: string, b: string)
    ensures Split(a + " " + b) == Split(a) + Split(b)
    decreases |a|
  {
    if a == [] {
      assert a + " " + b == " " + b;
      SplitSpaceThen(b);
    } else if IsSpace(a[0]) {
      assert (a + " " + b)[1..] == a[1..] + " " + b;
      SplitSeparated(a[1..], b);
    } else {
      var n := RunLength(NonSpace, a);
      var w, x := a[..n], a[n..];
      assert a == w + x;
      if x == [] {
        assert w + [] == w;
        SplitSeparatedLast(w, b);
      } else {
        SplitSeparated(x, b);
        SplitSeparatedMore(w, x, b);
      }
    }
  }

  lemma SplitSeparatedLast(w: string, b: string)
    requires IsToken(w)
    ensures Split(w + [] + " " + b) == Split(w + []) + Split(b)
  {
    assert w + [] == w;
    assert w + " " + b == w + (" " + b);
    SplitToken(w, " " + b);
    SplitSpaceThen(b);
    SplitToken(w, []);
    assert Split([]) == [];
  }

  lemma SplitSeparatedMore(w: string, x: string, b: string)
    requires IsToken(w) && x != [] && IsSpace(x[0])
    requires Split(x + " " + b) == Split(x) + Split(b)
    ensures Split(w + x + " " + b) == Split(w + x) + Split(b)
  {
    assert w + x + " " + b == w + (x + " " + b);
    SplitToken(w, x + " " + b);
    SplitToken(w, x);
  }

  /** Whitespace in front of a token is dropped by `str.split()`. */
  lemma SplitSpaceThen(t: string)
    ensures Split(" " + t) == Split(t)
  {
    assert (" " + t)[1..] == t;
  }

  /** A token and the text after it, where that text does not continue it,
      split into the token and the split of the rest. */
  lemma SplitToken(w: string, x: string)
    requires IsToken(w)
    requires x == [] || IsSpace(x[0])
    ensures Split(w + x) == [w] + Split(x)
  {
    RunLengthAll(NonSpace, w, x);
    assert (w + x)[..|w|] == w;
    assert (w + x)[|w|..] == x;
  }

  /** `' '.join(ws)`. */
  function Join(ws: seq<string>): string
    decreases |ws|
  {
    if ws == [] then ""
    else if |ws| == 1 then ws[0]
    else ws[0] + " " + Join(ws[1..])
  }

  lemma {:induction false} JoinAppend(a: seq<string>, b: seq<string>)
    requires a != [] && b != []
    ensures Join(a + b) == Join(a) + " " + Join(b)
    decreases |a|
  {
    if |a| == 1 {
      assert (a + b)[1..] == b;
    } else {
      assert (a + b)[1..] == a[1..] + b;
      JoinAppend(a[1..], b);
    }
  }

  /** A join has a property at every character when every piece does and the
      separator does. */
  lemma {:induction false} JoinChars(ws: seq<string>, P: char -> bool)
    requires P(' ')
    requires forall k, i | 0 <= k < |ws| && 0 <= i < |ws[k]| :: P(ws[k][i])
    ensures forall i | 0 <= i < |Join(ws)| :: P(Join(ws)[i])
    decreases |ws|
  {
    if |ws| > 1 {
      forall k, i | 0 <= k < |ws| - 1 && 0 <= i < |ws[1..][k]| ensures P(ws[1..][k][i]) {
        assert ws[1..][k] == ws[k + 1];
      }
      JoinChars(ws[1..], P);
      var t := Join(ws[1..]);
      var r := Join(ws);
      assert r == ws[0] + " " + t;
      forall i | 0 <= i < |r| ensures P(r[i]) {
        if i < |ws[0]| {
          assert r[i] == ws[0][i];
        } else if i > |ws[0]| {
          assert r[i] == t[i - |ws[0]| - 1];
        }
      }
    } else if |ws| == 1 {
      assert Join(ws) == ws[0];
    }
  }

  /** A token is tidy. */
  lemma TokenTidy(w: string)
    requires IsToken(w)
    ensures Tidy(w)
  {
  }

  /** Joining nonempty tidy pieces gives tidy text. */
  lemma {:induction false} JoinTidy(ws: seq<string>)
    requires forall k | 0 <= k < |ws| :: ws[k] != [] && Tidy(ws[k])
    ensures Tidy(Join(ws))
    decreases |ws|
  {
    if |ws| > 1 {
      JoinTidy(ws[1..]);
      JoinNonEmpty(ws[1..]);
      TidyGlue(ws[0], Join(ws[1..]));
    }
  }

  /** Two nonempty tidy texts joined by a space are tidy. */
  lemma TidyGlue(a: string, b: string)
    requires a != [] && Tidy(a) && b != [] && Tidy(b)
    ensures Tidy(a + " " + b)
  {
    var r := a + " " + b;
    forall i | 0 <= i < |r| ensures IsSpace(r[i]) ==> r[i] == ' ' {
      if i > |a| { assert r[i] == b[i - |a| - 1]; }
    }
    forall i, j | 0 <= i && j == i + 1 < |r| ensures !(r[i] == ' ' && r[j] == ' ') {
      if i > |a| {
        assert r[i] == b[i - |a| - 1] && r[j] == b[j - |a| - 1];
      } else if i == |a| {
        assert r[j] == b[0];
      } else if j < |a| {
        assert r[i] == a[i] && r[j] == a[j];
      }
    }
    assert r[|r| - 1] == b[|b| - 1];
  }

  lemma {:induction false} JoinNonEmpty(ws: seq<string>)
    requires ws != [] && ws[0] != []
    ensures Join(ws) != [] && Join(ws)[0] == ws[0][0]
  {
  }

  /** Splitting joined tokens recovers them. */
  lemma {:induction false} SplitJoin(ws: seq<string>)
    requires forall k | 0 <= k < |ws| :: IsToken(ws[k])
    ensures Split(Join(ws)) == ws
    decreases |ws|
  {
    if ws != [] {
      var w := ws[0];
      if |ws| == 1 {
        SplitToken(w, []);
        assert w + [] == w;
      } else {
        var t := Join(ws[1..]);
        assert Join(ws) == w + (" " + t);
        SplitToken(w, " " + t);
        SplitSpaceThen(t);
        SplitJoin(ws[1..]);
        assert ws == [w] + ws[1..];
      }
    }
  }

  /** A run of class `k` followed by text that does not continue it is
      measured exactly. */
  lemma {:induction false} RunLengthAll(k: CharClass, w: string, x: string)
    requires forall i | 0 <= i < |w| :: InClass(k, w[i])
    requires x == [] || !InClass(k, x[0])
    ensures RunLength(k, w + x) == |w|
    decreases |w|
  {
    if w != [] {
      assert (w + x)[1..] == w[1..] + x;
      RunLengthAll(k, w[1..], x);
    } else {
      assert w + x == x;
    }
  }

  /** Splitting tidy text and joining the pieces gives it back. */
  lemma {:induction false} JoinSplit(s: string)
    requires Tidy(s)
    ensures Join(Split(s)) == s
    decreases |s|
  {
    if s != [] {
      var n := RunLength(NonSpace, s);
      if n < |s| {
        SplitTidyHead(s);
        JoinSplit(s[n + 1..]);
        JoinSplitGlue(s, n);
      } else {
        SplitToken(s, []);
        assert s + [] == s;
      }
    }
  }

  /** Tidy text splits into its first word and the split of what follows
      the first space. */
  lemma SplitTidyHead(s: string)
    requires Tidy(s) && s != [] && RunLength(NonSpace, s) < |s|
    ensures var n := RunLength(NonSpace, s);
      n + 1 < |s| && s[n] == ' ' && Tidy(s[n + 1..]) && Split(s[n + 1..]) != []
      && Split(s) == [s[..n]] + Split(s[n + 1..])
  {
    var n := RunLength(NonSpace, s);
    TidyFirstSpace(s);
    TidyTail(s, n + 1);
    SplitAtSpace(s, n);
    SplitStartsWithWord(s[n + 1..]);
  }

  /** A word followed by whitespace splits off as the first word. */
  lemma SplitAtSpace(s: string, n: nat)
    requires n < |s| && IsToken(s[..n]) && IsSpace(s[n])
    ensures Split(s) == [s[..n]] + Split(s[n + 1..])
  {
    var x := s[n..];
    assert s == s[..n] + x;
    SplitToken(s[..n], x);
    assert x[1..] == s[n + 1..];
  }

  /** In tidy text the first word ends at a space that is not the last
      character. */
  lemma TidyFirstSpace(s: string)
    requires Tidy(s) && s != [] && RunLength(NonSpace, s) < |s|
    ensures var n := RunLength(NonSpace, s);
      0 < n && n + 1 < |s| && s[n] == ' ' && IsToken(s[..n])
  {
    var n := RunLength(NonSpace, s);
    assert IsSpace(s[n]);
    assert s[n] == ' ';
    assert !IsSpace(s[0]);
  }

  /** Text that starts with a non-space character has at least one word. */
  lemma SplitStartsWithWord(t: string)
    requires t != [] && !IsSpace(t[0])
    ensures Split(t) != []
  {
  }

  /** The inductive step of `JoinSplit`: the first word, a space, and the
      rejoined rest give back the text. */
  lemma JoinSplitGlue(s: string, n: nat)
    requires n < |s| && s[n] == ' '
    requires Split(s[n + 1..]) != [] && Split(s) == [s[..n]] + Split(s[n + 1..])
    requires Join(Split(s[n + 1..])) == s[n + 1..]
    ensures Join(Split(s)) == s
  {
    var w := s[..n];
    var t := s[n + 1..];
    assert s == w + " " + t by {
      assert s == s[..n] + s[n..];
      assert s[n..] == [s[n]] + t;
    }
    JoinCons(w, Split(t));
  }

  /** Joining a word in front of nonempty pieces adds one separator. */
  lemma JoinCons(w: string, ws: seq<string>)
    requires ws != []
    ensures Join([w] + ws) == w + " " + Join(ws)
  {
    assert ([w] + ws)[1..] == ws;
  }

  /** What follows a separator in tidy text is tidy. */
  lemma TidyTail(s: string, j: nat)
    requires Tidy(s) && 0 < j < |s| && s[j - 1] == ' '
    ensures Tidy(s[j..]) && !IsSpace(s[j])
  {
    var t := s[j..];
    forall i, k | 0 <= i && k == i + 1 < |t| ensures !(t[i] == ' ' && t[k] == ' ') {
      assert t[i] == s[j + i] && t[k] == s[j + k];
    }
    assert s[j - 1] == ' ' && s[j] == t[0];
  }

  /** `text.lstrip()` of a space then `x` is `x.lstrip()`. */
  lemma LStripSpaceThen(x: string)
    ensures LStrip(" " + x) == LStrip(x)
  {
    assert (" " + x)[1..] == x;
    assert RunLength(Space, " " + x) == 1 + RunLength(Space, x);
    assert (" " + x)[1 + RunLength(Space, x)..] == x[RunLength(Space, x)..];
  }

  /** Trailing whitespace after text is stripped with it. */
  lemma {:induction false} RStripSpaces(a: string, b: string)
    requires forall i | 0 <= i < |b| :: IsSpace(b[i])
    ensures RStrip(a + b) == RStrip(a)
    decreases |b|
  {
    if b == [] {
      assert a + b == a;
    } else {
      var b' := b[..|b| - 1];
      assert (a + b)[..|a + b| - 1] == a + b';
      RStripSpaces(a, b');
    }
  }

  /** Stripping the end of `a + b` touches only `b` when `b` has a
      non-whitespace character. */
  lemma {:induction false} RStripAppend(a: string, b: string)
    requires RStrip(b) != []
    ensures RStrip(a + b) == a + RStrip(b)
    decreases |b|
  {
    var b' := b[..|b| - 1];
    if IsSpace(b[|b| - 1]) {
      assert (a + b)[..|a + b| - 1] == a + b';
      RStripAppend(a, b');
    }
  }

  /** `\s+` matches exactly the leading whitespace run. */
  lemma SpaceRunMatch(s: string)
    ensures MatchLen(SpaceRun, s) == RunLength(Space, s)
  {
    assert s[0..] == s;
  }

  /** `re.sub(r'\s+', ' ', x)`, the collapsing step of app.py:49. */
  function Collapse(x: string): string {
    Sub(SpaceRun, " ", x)
  }

  /** Reference definition of the collapsing step: every whitespace run
      becomes a single space, everything else is copied. */
  function Squeeze(s: string): string
    decreases |s|
  {
    if s == [] then []
    else if IsSpace(s[0]) then " " + Squeeze(LStrip(s))
    else [s[0]] + Squeeze(s[1..])
  }

  /** `re.sub(r'\s+', ' ', s)` agrees with the reference definition. */
  lemma {:induction false} CollapseIsSqueeze(s: string)
    ensures Collapse(s) == Squeeze(s)
    decreases |s|
  {
    MatcherBounded(SpaceRun);
    if s != [] {
      SubUnfold(SpaceRun, " ", s);
      SpaceRunMatch(s);
      if IsSpace(s[0]) {
        CollapseIsSqueeze(LStrip(s));
      } else {
        CollapseIsSqueeze(s[1..]);
      }
    }
  }

  /** Collapsing passes a token through unchanged. */
  lemma {:induction false} SqueezeToken(w: string, x: string)
    requires forall i | 0 <= i < |w| :: !IsSpace(w[i])
    ensures Squeeze(w + x) == w + Squeeze(x)
    decreases |w|
  {
    if w == [] {
      assert w + x == x;
    } else {
      assert (w + x)[1..] == w[1..] + x;
      SqueezeToken(w[1..], x);
      assert [w[0]] + (w[1..] + Squeeze(x)) == w + Squeeze(x);
    }
  }

  /** Text that starts with a non-whitespace character collapses to text
      that starts with the same character. */
  lemma SqueezeHead(t: string)
    requires t != [] && !IsSpace(t[0])
    ensures Squeeze(t) != [] && Squeeze(t)[0] == t[0]
  {
  }

  /** Stripping a word, a space and text that starts with a non-whitespace
      character strips only that text's end. */
  lemma StripGlue(w: string, c: string)
    requires IsToken(w) && c != [] && !IsSpace(c[0])
    ensures Strip(w + " " + c) == w + " " + Strip(c)
  {
    assert LStrip(c) == c;
    assert RStrip(c) != [];
    assert LStrip(w + " " + c) == w + " " + c;
    RStripAppend(w + " ", c);
  }

  /** Stripping a word and trailing space gives the word. */
  lemma StripWordSpace(w: string)
    requires IsToken(w)
    ensures Strip(w + " ") == w
  {
    assert LStrip(w + " ") == w + " ";
    RStripSpaces(w, " ");
  }

  /** For text without leading whitespace, collapsing and stripping agrees
      with splitting and joining. */
  lemma {:induction false} SqueezeStripBody(t: string)
    requires t == [] || !IsSpace(t[0])
    ensures Strip(Squeeze(t)) == Join(Split(t))
    decreases |t|
  {
    if t != [] {
      var n := RunLength(NonSpace, t);
      if n == |t| {
        SqueezeStripToken(t);
      } else {
        var w, x := t[..n], t[n..];
        assert t == w + x;
        SqueezeStripBody(LStrip(x));
        SqueezeStripWord(w, x);
      }
    }
  }

  /** A lone token collapses and strips to itself, and splits into itself. */
  lemma SqueezeStripToken(w: string)
    requires IsToken(w)
    ensures Strip(Squeeze(w)) == Join(Split(w)) == w
  {
    SqueezeToken(w, []);
    SplitToken(w, []);
    assert w + [] == w;
    assert LStrip(w) == w;
  }

  /** The inductive step of `SqueezeStripBody`: a word, then whitespace, then
      text for which the property holds. */
  lemma SqueezeStripWord(w: string, x: string)
    requires IsToken(w) && x != [] && IsSpace(x[0])
    requires Strip(Squeeze(LStrip(x))) == Join(Split(LStrip(x)))
    ensures Strip(Squeeze(w + x)) == Join(Split(w + x))
  {
    var t' := LStrip(x);
    SqueezeWordSpaces(w, x);
    SplitWordSpaces(w, x);
    if t' == [] {
      SqueezeStripLast(w);
    } else {
      SqueezeStripGlue(w, t');
    }
  }

  /** A word then whitespace collapses to the word, one space, and the
      collapse of what follows the whitespace. */
  lemma SqueezeWordSpaces(w: string, x: string)
    requires IsToken(w) && x != [] && IsSpace(x[0])
    ensures Squeeze(w + x) == w + " " + Squeeze(LStrip(x))
  {
    SqueezeToken(w, x);
    assert Squeeze(x) == " " + Squeeze(LStrip(x));
    assert w + (" " + Squeeze(LStrip(x))) == w + " " + Squeeze(LStrip(x));
  }

  /** A word then whitespace splits into the word and the split of what
      follows the whitespace. */
  lemma SplitWordSpaces(w: string, x: string)
    requires IsToken(w) && x != [] && IsSpace(x[0])
    ensures Split(w + x) == [w] + Split(LStrip(x))
  {
    SplitToken(w, x);
    SplitLStrip(x);
  }

  lemma SqueezeStripLast(w: string)
    requires IsToken(w)
    ensures Strip(w + " " + Squeeze([])) == Join([w] + Split([]))
  {
    assert [w] + Split([]) == [w];
    assert w + " " + Squeeze([]) == w + " ";
    StripWordSpace(w);
    assert Join([w]) == w;
  }

  lemma SqueezeStripGlue(w: string, t: string)
    requires IsToken(w) && t != [] && !IsSpace(t[0])
    requires Strip(Squeeze(t)) == Join(Split(t))
    ensures Strip(w + " " + Squeeze(t)) == Join([w] + Split(t))
  {
    SqueezeHead(t);
    StripGlue(w, Squeeze(t));
    assert Split(t) != [];
    JoinCons(w, Split(t));
  }

  /** Collapsing then stripping equals splitting then joining, for the
      reference collapse. */
  lemma SqueezeStrip(s: string)
    ensures Strip(Squeeze(s)) == Join(Split(s))
  {
    var t := LStrip(s);
    SplitLStrip(s);
    if s != [] && IsSpace(s[0]) {
      LStripSpaceThen(Squeeze(t));
    }
    SqueezeStripBody(t);
  }

  /** `re.sub(r'\s+', ' ', text).strip()` equals `' '.join(text.split())`:
      the collapsing step leaves tidy text made of the same tokens. */
  lemma CollapseStrip(s: string)
    ensures Strip(Collapse(s)) == Join(Split(s))
  {
    CollapseIsSqueeze(s);
    SqueezeStrip(s);
  }
}
