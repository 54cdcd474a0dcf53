/** One left-to-right pass of Python's `re.sub`, for any matcher.

    A matcher `m` reports the length of the match at the start of a text (0 for
    none).  `SubWith` copies the text, replacing each match by `repl` and resuming
    after it; matches never overlap.  The lemmas below need only a few abstract
    facts about the matcher, which `Regex` establishes for each pattern. */
module Scanning {

  /** A match never runs past the end of the text. */
  ghost predicate Bounded(m: string -> nat) {
    forall x {:trigger m(x)} :: m(x) <= |x|
  }

  /** A match cannot be lengthened by the character after it (greedy `+`). */
  ghost predicate Maximal(m: string -> nat, ext: char -> bool) {
    forall x {:trigger m(x)} | 0 < m(x) < |x| :: !ext(x[m(x)])
  }

  /** Every character inside a match satisfies `inv`. */
  ghost predicate Covers(m: string -> nat, inv: char -> bool) {
    forall x, i {:trigger m(x), x[i]} | 0 <= i < m(x) && i < |x| :: inv(x[i])
  }

  /** Every character of a match after its first could lengthen a shorter match. */
  ghost predicate TailExtends(m: string -> nat, ext: char -> bool) {
    forall x, i {:trigger m(x), x[i]} | 1 <= i < m(x) && i < |x| :: ext(x[i])
  }

  /** Whether a match starts at the head of a text depends only on the
      characters such a match spans. */
  ghost predicate DecidedBySpan(m: string -> nat) {
    forall x, y {:trigger m(x), m(y)} | 0 < m(x) <= |x| && m(x) <= |y| && y[..m(x)] == x[..m(x)] :: m(y) > 0
  }

  /** No match starts anywhere in `s`. */
  ghost predicate NoMatchBy(m: string -> nat, s: string) {
    forall i | 0 <= i < |s| :: m(s[i..]) == 0
  }

  function SubWith(m: string -> nat, repl: string, s: string): (r: string)
    requires Bounded(m)
    ensures |repl| <= 1 ==> |r| <= |s|
    decreases |s|
  {
    if s == [] then []
    else
      var n := m(s);
      if n > 0 then repl + SubWith(m, repl, s[n..])
      else [s[0]] + SubWith(m, repl, s[1..])
  }

  /** The characters of `s` that no match can contain, in order. */
  function Bystanders(inv: char -> bool, s: string): (r: string)
    ensures forall i | 0 <= i < |r| :: !inv(r[i]) && r[i] in s
  {
    if s == [] then []
    else if inv(s[0]) then Bystanders(inv, s[1..])
    else [s[0]] + Bystanders(inv, s[1..])
  }

  lemma {:induction false} BystandersAppend(inv: char -> bool, a: string, b: string)
    ensures Bystanders(inv, a + b) == Bystanders(inv, a) + Bystanders(inv, b)
    decreases |a|
  {
    if a == [] {
      assert a + b == b;
    } else {
      assert (a + b)[1..] == a[1..] + b;
      BystandersAppend(inv, a[1..], b);
    }
  }

  lemma {:induction false} BystandersNone(inv: char -> bool, w: string)
    requires forall i | 0 <= i < |w| :: inv(w[i])
    ensures Bystanders(inv, w) == []
    decreases |w|
  {
    if w != [] {
      BystandersNone(inv, w[1..]);
    }
  }

  /** Skipping a match skips no bystander. */
  lemma MatchHasNoBystanders(m: string -> nat, inv: char -> bool, s: string)
    requires Bounded(m) && Covers(m, inv)
    ensures Bystanders(inv, s) == Bystanders(inv, s[m(s)..])
  {
    var n := m(s);
    forall i | 0 <= i < n ensures inv(s[..n][i]) {
      assert s[..n][i] == s[i];
    }
    BystandersNone(inv, s[..n]);
    assert s == s[..n] + s[n..];
    BystandersAppend(inv, s[..n], s[n..]);
  }

  /** A character copied by the pass keeps its place among the bystanders. */
  lemma KeepsBystandersCopy(m: string -> nat, inv: char -> bool, s: string)
    requires Bounded(m) && s != [] && m(s) == 0
    requires Bystanders(inv, SubWith(m, "", s[1..])) == Bystanders(inv, s[1..])
    ensures Bystanders(inv, SubWith(m, "", s)) == Bystanders(inv, s)
  {
    var u := SubWith(m, "", s[1..]);
    assert SubWith(m, "", s) == [s[0]] + u;
    assert ([s[0]] + u)[1..] == u;
  }

  /** A match deleted by the pass held no bystander. */
  lemma KeepsBystandersSkip(m: string -> nat, inv: char -> bool, s: string)
    requires Bounded(m) && Covers(m, inv) && s != [] && m(s) > 0
    requires Bystanders(inv, SubWith(m, "", s[m(s)..])) == Bystanders(inv, s[m(s)..])
    ensures Bystanders(inv, SubWith(m, "", s)) == Bystanders(inv, s)
  {
    assert SubWith(m, "", s) == SubWith(m, "", s[m(s)..]);
    MatchHasNoBystanders(m, inv, s);
  }

  /** Deleting the matches leaves every character a match cannot contain, in
      order. */
  lemma {:induction false} SubWithKeepsBystanders(m: string -> nat, inv: char -> bool, s: string)
    requires Bounded(m) && Covers(m, inv)
    ensures Bystanders(inv, SubWith(m, "", s)) == Bystanders(inv, s)
    decreases |s|
  {
    if s != [] {
      var n := m(s);
      if n > 0 {
        SubWithKeepsBystanders(m, inv, s[n..]);
        KeepsBystandersSkip(m, inv, s);
      } else {
        SubWithKeepsBystanders(m, inv, s[1..]);
        KeepsBystandersCopy(m, inv, s);
      }
    }
  }

  /** After a deletion pass the text starts with a character that could extend
      a match only if the input did. */
  lemma {:induction false} SubWithStartsOutside(m: string -> nat, ext: char -> bool, t: string)
    requires Bounded(m) && Maximal(m, ext)
    requires t == [] || !ext(t[0])
    ensures SubWith(m, "", t) == [] || !ext(SubWith(m, "", t)[0])
    decreases |t|
  {
    if t != [] {
      var n := m(t);
      if n > 0 {
        assert t[n..] == [] || t[n..][0] == t[n];
        SubWithStartsOutside(m, ext, t[n..]);
      }
    }
  }

  /** A prefix of the deletion result made of characters that could extend a
      match was copied unchanged from the input. */
  lemma {:induction false} SubWithExtendPrefix(m: string -> nat, ext: char -> bool, t: string, k: nat)
    requires Bounded(m) && Maximal(m, ext)
    requires k <= |SubWith(m, "", t)|
    requires forall i | 0 <= i < k :: ext(SubWith(m, "", t)[i])
    ensures k <= |t| && SubWith(m, "", t)[..k] == t[..k]
    decreases |t|
  {
    if k > 0 {
      var u := SubWith(m, "", t);
      var n := m(t);
      if n > 0 {
        assert u == SubWith(m, "", t[n..]);
        assert t[n..] == [] || t[n..][0] == t[n];
        SubWithStartsOutside(m, ext, t[n..]);
        assert false;
      } else {
        var u' := SubWith(m, "", t[1..]);
        assert u == [t[0]] + u';
        forall i | 0 <= i < k - 1 ensures ext(u'[i]) {
          assert u'[i] == u[i + 1];
        }
        SubWithExtendPrefix(m, ext, t[1..], k - 1);
        assert u[..k] == [t[0]] + u'[..k - 1];
        assert t[..k] == [t[0]] + t[1..][..k - 1];
      }
    }
  }

  /** A match at the head of "first character, then the deletion result of the
      rest" spans only copied characters, so the same match starts `s`:
      deleting later matches cannot glue a new one together. */
  lemma CopiedHeadMatch(m: string -> nat, ext: char -> bool, s: string)
    requires Bounded(m) && Maximal(m, ext) && TailExtends(m, ext) && DecidedBySpan(m)
    requires s != [] && m([s[0]] + SubWith(m, "", s[1..])) > 0
    ensures m(s) > 0
  {
    CopiedHeadSpan(m, ext, s);
  }

  /** The span of such a match is a prefix of `s` itself. */
  lemma CopiedHeadSpan(m: string -> nat, ext: char -> bool, s: string)
    requires Bounded(m) && Maximal(m, ext) && TailExtends(m, ext)
    requires s != []
    ensures var r := [s[0]] + SubWith(m, "", s[1..]);
      m(r) <= |s| && s[..m(r)] == r[..m(r)]
  {
    var u := SubWith(m, "", s[1..]);
    var r := [s[0]] + u;
    var j := m(r);
    if j > 0 {
      forall q | 0 <= q < j - 1 ensures ext(u[q]) {
        assert u[q] == r[q + 1];
      }
      SubWithExtendPrefix(m, ext, s[1..], j - 1);
      assert r[..j] == [s[0]] + u[..j - 1];
      assert s[..j] == [s[0]] + s[1..][..j - 1];
    }
  }

  /** A deletion pass leaves nothing for the same matcher to match, provided
      the matcher is greedy and a match's tail could extend it. */
  lemma {:induction false} SubWithLeavesNoMatch(m: string -> nat, ext: char -> bool, s: string)
    requires Bounded(m) && Maximal(m, ext) && TailExtends(m, ext) && DecidedBySpan(m)
    ensures NoMatchBy(m, SubWith(m, "", s))
    decreases |s|
  {
    if s != [] {
      var n := m(s);
      if n > 0 {
        assert SubWith(m, "", s) == SubWith(m, "", s[n..]);
        SubWithLeavesNoMatch(m, ext, s[n..]);
      } else {
        var u := SubWith(m, "", s[1..]);
        var r := [s[0]] + u;
        assert SubWith(m, "", s) == r;
        SubWithLeavesNoMatch(m, ext, s[1..]);
        if m(r) > 0 {
          CopiedHeadMatch(m, ext, s);
        }
        forall i | 0 <= i < |r| ensures m(r[i..]) == 0 {
          if i > 0 {
            assert r[i..] == u[i - 1..];
          }
        }
      }
    }
  }

  /** Where nothing matches, the pass returns its input unchanged. */
  lemma {:induction false} SubWithoutMatch(m: string -> nat, repl: string, s: string)
    requires Bounded(m) && NoMatchBy(m, s)
    ensures SubWith(m, repl, s) == s
    decreases |s|
  {
    if s != [] {
      assert m(s[0..]) == 0;
      assert s[0..] == s;
      forall i | 0 <= i < |s| - 1 ensures m(s[1..][i..]) == 0 {
        assert s[1..][i..] == s[i + 1..];
      }
      SubWithoutMatch(m, repl, s[1..]);
    }
  }
}
