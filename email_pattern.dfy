/**
 * The e-mail pattern of the contact form, `^[^\s@]+@[^\s@]+\.[^\s@]+$`,
 * as a predicate over strings, its properties, and a one-pass checker
 * proved to decide it.
 */
module EmailPattern {

  /**
   * JavaScript's `\s`: the ECMAScript WhiteSpace and LineTerminator code
   * points. Besides the ASCII tab, line feed, vertical tab, form feed,
   * carriage return and space this includes the Unicode spaces (no-break
   * space, ogham space mark, the en/em/thin spaces U+2000..U+200A, line and
   * paragraph separators, narrow no-break space, medium mathematical space,
   * ideographic space) and the byte-order mark.
   */
  predicate IsWhitespace(c: char)
    ensures c in " \t\n\r" || c == 11 as char || c == 12 as char ==> IsWhitespace(c)
    ensures IsWhitespace(c) ==> c != '@' && c != '.'
  {
    var n := c as int;
    (0x09 <= n <= 0x0D) || n == 0x20 || n == 0xA0 || n == 0x1680
    || (0x2000 <= n <= 0x200A) || n == 0x2028 || n == 0x2029
    || n == 0x202F || n == 0x205F || n == 0x3000 || n == 0xFEFF
  }

  /**
   * The only ASCII characters in `\s` are the six of `IsWhitespace`'s
   * contract; no-break space, the line separator and the ideographic space
   * are in it too.
   */
  lemma WhitespaceClass()
    ensures forall c: char | c as int < 128 && IsWhitespace(c) :: c in {' ', '\t', '\n', 11 as char, 12 as char, '\r'}
    ensures IsWhitespace(0xA0 as char) && IsWhitespace(0x2028 as char) && IsWhitespace(0x3000 as char)
  {
  }

  /** The character class `[^\s@]`. */
  predicate IsAtomChar(c: char) {
    !IsWhitespace(c) && c != '@'
  }

  /** Every character of `x` is in `[^\s@]`. */
  predicate AtomChars(x: seq<char>) {
    forall i :: 0 <= i < |x| ==> IsAtomChar(x[i])
  }

  /** `x` is matched entirely by `[^\s@]+`. */
  predicate Segment(x: seq<char>) {
    |x| > 0 && AtomChars(x)
  }

  /**
   * `s` is matched by the pattern with its `@` at index `at` and the
   * literal `\.` at index `dot`.
   */
  predicate SplitsAt(s: seq<char>, at: int, dot: int) {
    0 <= at < dot < |s| && s[at] == '@' && s[dot] == '.'
    && Segment(s[..at]) && Segment(s[at + 1..dot]) && Segment(s[dot + 1..])
  }

  /** `s` matches `^[^\s@]+@[^\s@]+\.[^\s@]+$`: some choice of split positions works. */
  predicate MatchesEmail(s: seq<char>)
    ensures MatchesEmail(s) ==> 5 <= |s| && IsAtomChar(s[0]) && IsAtomChar(s[|s| - 1])
  {
    exists at, dot | 0 <= at < |s| && 0 <= dot < |s| :: SplitsAt(s, at, dot)
  }

  /** Number of occurrences of `c` in `s`. */
  function CountOf(s: seq<char>, c: char): nat {
    if s == [] then 0 else (if s[0] == c then 1 else 0) + CountOf(s[1..], c)
  }

  /**
   * An independent description of the accepted strings: no whitespace,
   * exactly one `@`, something before it, and a `.` after it with at least
   * one character between the `@` and the dot and at least one after the dot.
   */
  ghost predicate WellShaped(s: seq<char>) {
    (forall i :: 0 <= i < |s| ==> !IsWhitespace(s[i]))
    && CountOf(s, '@') == 1
    && exists at, dot :: 0 < at && at + 1 < dot < |s| - 1 && s[at] == '@' && s[dot] == '.'
  }

  // ---------------------------------------------------------------------
  // Counting

  lemma {:induction false} CountOfAppend(a: seq<char>, b: seq<char>, c: char)
    ensures CountOf(a + b, c) == CountOf(a, c) + CountOf(b, c)
  {
    if a == [] {
      assert a + b == b;
    } else {
      assert (a + b)[1..] == a[1..] + b;
      CountOfAppend(a[1..], b, c);
    }
  }

  lemma {:induction false} CountOfPositive(s: seq<char>, i: int, c: char)
    requires 0 <= i < |s| && s[i] == c
    ensures CountOf(s, c) >= 1
  {
    if i > 0 {
      CountOfPositive(s[1..], i - 1, c);
    }
  }

  /** Two distinct occurrences of `c` make its count at least two. */
  lemma CountOfTwo(s: seq<char>, i: int, j: int, c: char)
    requires 0 <= i < j < |s| && s[i] == c && s[j] == c
    ensures CountOf(s, c) >= 2
  {
    assert s == s[..j] + s[j..];
    CountOfAppend(s[..j], s[j..], c);
    CountOfPositive(s[..j], i, c);
    CountOfPositive(s[j..], 0, c);
  }

  /** A string of `[^\s@]` characters has no `@`. */
  lemma {:induction false} AtomCharsHaveNoAt(x: seq<char>)
    requires AtomChars(x)
    ensures CountOf(x, '@') == 0
  {
    if x != [] {
      assert AtomChars(x[1..]) by {
        forall i | 0 <= i < |x[1..]| ensures IsAtomChar(x[1..][i]) {
          assert x[1..][i] == x[i + 1];
        }
      }
      AtomCharsHaveNoAt(x[1..]);
    }
  }

  // ---------------------------------------------------------------------
  // Splitting an accepted string into local part, domain label and rest

  /** Any local part, domain label and tail drawn from `[^\s@]+` join into an accepted address. */
  lemma Compose(l: seq<char>, d: seq<char>, t: seq<char>)
    requires Segment(l) && Segment(d) && Segment(t)
    ensures MatchesEmail(l + ['@'] + d + ['.'] + t)
  {
    var s := l + ['@'] + d + ['.'] + t;
    var at, dot := |l|, |l| + 1 + |d|;
    assert s[..at] == l;
    assert s[at + 1..dot] == d;
    assert s[dot + 1..] == t;
    assert SplitsAt(s, at, dot);
  }

  /** Every accepted address is a local part, `@`, a domain label, `.` and a tail, each from `[^\s@]+`. */
  lemma Decompose(s: seq<char>) returns (l: seq<char>, d: seq<char>, t: seq<char>)
    requires MatchesEmail(s)
    ensures Segment(l) && Segment(d) && Segment(t)
    ensures s == l + ['@'] + d + ['.'] + t
  {
    var at, dot :| 0 <= at < |s| && 0 <= dot < |s| && SplitsAt(s, at, dot);
    l, d, t := s[..at], s[at + 1..dot], s[dot + 1..];
    assert s == l + [s[at]] + d + [s[dot]] + t;
  }

  /** Within a successful split, the only `@` is the one at `at`, and no character is whitespace. */
  lemma SplitChar(s: seq<char>, at: int, dot: int, i: int)
    requires SplitsAt(s, at, dot) && 0 <= i < |s|
    ensures !IsWhitespace(s[i])
    ensures s[i] == '@' <==> i == at
  {
    if i < at {
      assert s[..at][i] == s[i];
    } else if at < i < dot {
      assert s[at + 1..dot][i - at - 1] == s[i];
    } else if dot < i {
      assert s[dot + 1..][i - dot - 1] == s[i];
    }
  }

  // ---------------------------------------------------------------------
  // Properties of accepted addresses

  /** An accepted address contains exactly one `@`. */
  lemma AcceptedHasOneAt(s: seq<char>)
    requires MatchesEmail(s)
    ensures CountOf(s, '@') == 1
  {
    var l, d, t := Decompose(s);
    CountOfAppend(l + ['@'] + d + ['.'], t, '@');
    CountOfAppend(l + ['@'] + d, ['.'], '@');
    CountOfAppend(l + ['@'], d, '@');
    CountOfAppend(l, ['@'], '@');
    AtomCharsHaveNoAt(l);
    AtomCharsHaveNoAt(d);
    AtomCharsHaveNoAt(t);
  }

  /** Any two `@` positions of an accepted address coincide. */
  lemma AcceptedAtUnique(s: seq<char>, i: int, j: int)
    requires MatchesEmail(s)
    requires 0 <= i < |s| && 0 <= j < |s| && s[i] == '@' && s[j] == '@'
    ensures i == j
  {
    var at, dot :| 0 <= at < |s| && 0 <= dot < |s| && SplitsAt(s, at, dot);
    SplitChar(s, at, dot, i);
    SplitChar(s, at, dot, j);
  }

  /** An accepted address contains no whitespace anywhere. */
  lemma AcceptedHasNoWhitespace(s: seq<char>)
    requires MatchesEmail(s)
    ensures forall i :: 0 <= i < |s| ==> !IsWhitespace(s[i])
  {
    var at, dot :| 0 <= at < |s| && 0 <= dot < |s| && SplitsAt(s, at, dot);
    forall i | 0 <= i < |s| ensures !IsWhitespace(s[i]) {
      SplitChar(s, at, dot, i);
    }
  }

  /**
   * In an accepted address the `@` is not first, and after it comes a `.`
   * with at least one character between the two and at least one after the dot.
   */
  lemma AcceptedDotAfterAt(s: seq<char>, at: int)
    requires MatchesEmail(s)
    requires 0 <= at < |s| && s[at] == '@'
    ensures 0 < at
    ensures exists dot :: at + 1 < dot < |s| - 1 && s[dot] == '.'
  {
    var a, dot :| 0 <= a < |s| && 0 <= dot < |s| && SplitsAt(s, a, dot);
    SplitChar(s, a, dot, at);
    assert at + 1 < dot < |s| - 1 && s[dot] == '.';
  }

  /** The pattern accepts exactly the well-shaped strings. */
  lemma MatchesIffWellShaped(s: seq<char>)
    ensures MatchesEmail(s) <==> WellShaped(s)
  {
    if MatchesEmail(s) {
      AcceptedHasNoWhitespace(s);
      AcceptedHasOneAt(s);
      var at, dot :| 0 <= at < |s| && 0 <= dot < |s| && SplitsAt(s, at, dot);
      AcceptedDotAfterAt(s, at);
    }
    if WellShaped(s) {
      var at, dot :| 0 < at && at + 1 < dot < |s| - 1 && s[at] == '@' && s[dot] == '.';
      forall i | 0 <= i < |s| && i != at ensures s[i] != '@' {
        if s[i] == '@' {
          if i < at { CountOfTwo(s, i, at, '@'); } else { CountOfTwo(s, at, i, '@'); }
        }
      }
      var l, d, t := s[..at], s[at + 1..dot], s[dot + 1..];
      assert AtomChars(l) by {
        forall k | 0 <= k < |l| ensures IsAtomChar(l[k]) { assert l[k] == s[k]; }
      }
      assert AtomChars(d) by {
        forall k | 0 <= k < |d| ensures IsAtomChar(d[k]) { assert d[k] == s[at + 1 + k]; }
      }
      assert AtomChars(t) by {
        forall k | 0 <= k < |t| ensures IsAtomChar(t[k]) { assert t[k] == s[dot + 1 + k]; }
      }
      assert SplitsAt(s, at, dot);
    }
  }

  // ---------------------------------------------------------------------
  // Worked cases

  /** Dots in the local part and several dots in the domain are accepted. */
  lemma AcceptedExamples()
    ensures MatchesEmail("a@b.c")
    ensures MatchesEmail("a@b.c.d")
    ensures MatchesEmail("j.d@ex.org")
  {
    var s1, s2, s3 := "a@b.c", "a@b.c.d", "j.d@ex.org";
    assert SplitsAt(s1, 1, 3) by {
      assert s1[..1] == "a" && s1[2..3] == "b" && s1[4..] == "c";
    }
    assert SplitsAt(s2, 1, 3) by {
      assert s2[..1] == "a" && s2[2..3] == "b" && s2[4..] == "c.d";
    }
    assert SplitsAt(s3, 3, 6) by {
      assert s3[..3] == "j.d" && s3[4..6] == "ex" && s3[7..] == "org";
    }
  }

  /**
   * Backtracking lets the tail after the matched dot carry further dots, so
   * a doubled dot and a final dot are accepted as long as some earlier dot
   * has a character on each side.
   */
  lemma AcceptedOddDots()
    ensures MatchesEmail("a@b..c")
    ensures MatchesEmail("a@b.c.")
  {
    var s4, s5 := "a@b..c", "a@b.c.";
    assert SplitsAt(s4, 1, 4) by {
      assert s4[..1] == "a" && s4[2..4] == "b." && s4[5..] == "c";
    }
    assert SplitsAt(s5, 1, 3) by {
      assert s5[..1] == "a" && s5[2..3] == "b" && s5[4..] == "c.";
    }
  }

  /** No dot after the `@`, an empty local part or domain label, or nothing after the dot, are rejected. */
  lemma RejectedShapes()
    ensures !MatchesEmail("")
    ensures !MatchesEmail("a@b")
    ensures !MatchesEmail("ab.c")
    ensures !MatchesEmail("@b.c")
    ensures !MatchesEmail("a@.c")
    ensures !MatchesEmail("a@b.")
  {
    MatchesIffWellShaped("");
    MatchesIffWellShaped("a@b");
    MatchesIffWellShaped("ab.c");
    MatchesIffWellShaped("@b.c");
    MatchesIffWellShaped("a@.c");
    MatchesIffWellShaped("a@b.");
  }

  /** Whitespace anywhere, or a second `@`, is rejected. */
  lemma RejectedCharacters()
    ensures !MatchesEmail("a b@c.d")
    ensures !MatchesEmail("a@b.c\n")
    ensures !MatchesEmail("a@b@c.d")
  {
    MatchesIffWellShaped("a b@c.d");
    assert IsWhitespace("a b@c.d"[1]);
    MatchesIffWellShaped("a@b.c\n");
    assert IsWhitespace("a@b.c\n"[5]);
    MatchesIffWellShaped("a@b@c.d");
    CountOfTwo("a@b@c.d", 1, 3, '@');
  }

  // ---------------------------------------------------------------------
  // A one-pass checker

  /**
   * Decides the pattern in a single left-to-right scan: it stops at the
   * first whitespace or second `@`, remembers where the `@` is, and notes
   * any `.` that has a character between it and the `@` and one after it.
   */
  method CheckEmail(s: seq<char>) returns (ok: bool)
    ensures ok == MatchesEmail(s)
  {
    var at := -1;
    var dotSeen := false;
    var i := 0;
    while i < |s|
      invariant 0 <= i <= |s|
      invariant -1 <= at < i
      invariant forall k :: 0 <= k < i ==> !IsWhitespace(s[k])
      invariant at >= 0 ==> s[at] == '@'
      invariant forall k :: 0 <= k < i && k != at ==> s[k] != '@'
      invariant dotSeen <==> at >= 0 && exists k :: at + 1 < k < i && k + 1 < |s| && s[k] == '.'
    {
      var c := s[i];
      if IsWhitespace(c) {
        if MatchesEmail(s) { AcceptedHasNoWhitespace(s); }
        return false;
      }
      if c == '@' {
        if at >= 0 {
          if MatchesEmail(s) { AcceptedAtUnique(s, at, i); }
          return false;
        }
        at := i;
      } else if c == '.' && at >= 0 && at + 1 < i && i + 1 < |s| {
        dotSeen := true;
      }
      i := i + 1;
    }
    ok := at > 0 && dotSeen;
    if ok {
      ghost var dot :| at + 1 < dot < |s| && dot + 1 < |s| && s[dot] == '.';
      ghost var l, d, t := s[..at], s[at + 1..dot], s[dot + 1..];
      assert AtomChars(l) by {
        forall k | 0 <= k < |l| ensures IsAtomChar(l[k]) { assert l[k] == s[k]; }
      }
      assert AtomChars(d) by {
        forall k | 0 <= k < |d| ensures IsAtomChar(d[k]) { assert d[k] == s[at + 1 + k]; }
      }
      assert AtomChars(t) by {
        forall k | 0 <= k < |t| ensures IsAtomChar(t[k]) { assert t[k] == s[dot + 1 + k]; }
      }
      assert SplitsAt(s, at, dot);
    }
  }
}
