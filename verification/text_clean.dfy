/**
 The whitespace normalizer applied to every extracted page and slide
 (`DocumentProcessor._clean_text` in document_processor.py): runs of spaces
 become one space, runs of two or more newlines become exactly one blank
 line, and the result is stripped. The two regular-expression substitutions
 are written out as recursive functions over the text.
 */
module TextClean {
  import opened PyStr

  /** Two spaces start at position `i`. */
  predicate DoubleSpaceAt(s: string, i: nat)
    requires i + 1 < |s|
  {
    s[i] == ' ' && s[i + 1] == ' '
  }

  /** Three newlines start at position `i`. */
  predicate TripleNewlineAt(s: string, i: nat)
    requires i + 2 < |s|
  {
    s[i] == '\n' && s[i + 1] == '\n' && s[i + 2] == '\n'
  }

  /** No two adjacent spaces. */
  predicate NoDoubleSpace(s: string) {
    forall i: nat :: i + 1 < |s| ==> !DoubleSpaceAt(s, i)
  }

  /** No three adjacent newlines (at most one blank line in a row). */
  predicate NoTripleNewline(s: string) {
    forall i: nat :: i + 2 < |s| ==> !TripleNewlineAt(s, i)
  }

  /** `a` can be obtained from `b` by deleting characters. */
  predicate Subseq(a: string, b: string)
    decreases |b|
  {
    if a == [] then true
    else if b == [] then false
    else (a[0] == b[0] && Subseq(a[1..], b[1..])) || Subseq(a, b[1..])
  }

  /** What `re.sub(r'\n\n+', '\n\n')` leaves of a run of newlines: one
      blank line. */
  const BlankLine: string := "\n\n"

  /** `s` with every `c` removed. */
  function Without(s: string, c: char): string {
    if s == [] then [] else (if s[0] == c then [] else [s[0]]) + Without(s[1..], c)
  }

  /** The characters of `s` that are not whitespace, in order. */
  function Visible(s: string): string {
    if s == [] then [] else (if IsSpace(s[0]) then [] else [s[0]]) + Visible(s[1..])
  }

  /** `re.sub(r' +', ' ', s)`: a space followed by another space is dropped,
      so each run of spaces keeps exactly one. */
  function CollapseSpaces(s: string): (r: string)
    ensures NoDoubleSpace(r)
    ensures |s| > 0 ==> |r| > 0 && r[0] == s[0]
  {
    if s == [] then s
    else if |s| >= 2 && s[0] == ' ' && s[1] == ' ' then CollapseSpaces(s[1..])
    else
      var rest := CollapseSpaces(s[1..]);
      ConsNoDoubleSpace(s[0], rest);
      [s[0]] + rest
  }

  /** `re.sub(r'\n\n+', '\n\n', s)`: a newline followed by two more newlines
      is dropped, so each run of two or more keeps exactly two. */
  function CollapseNewlines(s: string): (r: string)
    ensures NoTripleNewline(r)
    ensures NoDoubleSpace(s) ==> NoDoubleSpace(r)
    ensures |s| >= 1 ==> |r| >= 1 && r[0] == s[0]
    ensures |s| >= 2 ==> |r| >= 2 && r[1] == s[1]
    ensures |r| <= |s|
  {
    if s == [] then s
    else if |s| >= 3 && s[0] == '\n' && s[1] == '\n' && s[2] == '\n' then
      TailShape(s);
      CollapseNewlines(s[1..])
    else
      var rest := CollapseNewlines(s[1..]);
      TailShape(s);
      ConsNoDoubleSpace(s[0], rest);
      ConsNoTripleNewline(s[0], rest);
      [s[0]] + rest
  }

  // ---------------------------------------------------------------------
  // The substitutions as normal forms

  /** Deleting one space of a double space does not change what
      `re.sub(r' +', ' ')` makes of the text. */
  lemma {:induction false} CollapseSpacesRun(s: string, i: nat)
    requires i + 1 < |s| && DoubleSpaceAt(s, i)
    ensures CollapseSpaces(s[..i] + s[i + 1..]) == CollapseSpaces(s)
    decreases i
  {
    var t := s[..i] + s[i + 1..];
    if i == 0 {
      assert t == s[1..];
    } else {
      var s1 := s[1..];
      CollapseSpacesRun(s1, i - 1);
      assert t[1..] == s1[..i - 1] + s1[i..];
      assert t[0] == s[0] && t[1] == s[1];
    }
  }

  /** `re.sub(r' +', ' ')` is the only function that leaves a text without a
      double space alone and ignores the deletion of one space of a double
      space: each run of spaces keeps exactly one, and nothing else changes. */
  lemma {:induction false} CollapseSpacesUnique(f: string -> string, s: string)
    requires forall t :: NoDoubleSpace(t) ==> f(t) == t
    requires forall t, i: nat :: i + 1 < |t| && DoubleSpaceAt(t, i) ==> f(t[..i] + t[i + 1..]) == f(t)
    ensures f(s) == CollapseSpaces(s)
    decreases |s|
  {
    if NoDoubleSpace(s) {
      CollapseSpacesFixed(s);
    } else {
      var i: nat :| i + 1 < |s| && DoubleSpaceAt(s, i);
      CollapseSpacesRun(s, i);
      CollapseSpacesUnique(f, s[..i] + s[i + 1..]);
    }
  }

  /** Deleting one newline of a triple newline does not change what
      `re.sub(r'\n\n+', '\n\n')` makes of the text. */
  lemma {:induction false} CollapseNewlinesRun(s: string, i: nat)
    requires i + 2 < |s| && TripleNewlineAt(s, i)
    ensures CollapseNewlines(s[..i] + s[i + 1..]) == CollapseNewlines(s)
    decreases i
  {
    var t := s[..i] + s[i + 1..];
    if i == 0 {
      assert t == s[1..];
    } else {
      var s1 := s[1..];
      CollapseNewlinesRun(s1, i - 1);
      assert t[1..] == s1[..i - 1] + s1[i..];
      assert t[0] == s[0] && t[1] == s[1] && t[2] == s[2];
    }
  }

  /** `re.sub(r'\n\n+', '\n\n')` is the only function that leaves a text
      without a triple newline alone and ignores the deletion of one newline
      of a triple newline: each run of two or more keeps exactly two. */
  lemma {:induction false} CollapseNewlinesUnique(f: string -> string, s: string)
    requires forall t :: NoTripleNewline(t) ==> f(t) == t
    requires forall t, i: nat :: i + 2 < |t| && TripleNewlineAt(t, i) ==> f(t[..i] + t[i + 1..]) == f(t)
    ensures f(s) == CollapseNewlines(s)
    decreases |s|
  {
    if NoTripleNewline(s) {
      CollapseNewlinesFixed(s);
    } else {
      var i: nat :| i + 2 < |s| && TripleNewlineAt(s, i);
      CollapseNewlinesRun(s, i);
      CollapseNewlinesUnique(f, s[..i] + s[i + 1..]);
    }
  }

  /** Collapsing spaces keeps every blank line. */
  lemma {:induction false} CollapseSpacesBlankLine(s: string)
    ensures Occurs(BlankLine, s) ==> Occurs(BlankLine, CollapseSpaces(s))
    decreases |s|
  {
    if Occurs(BlankLine, s) {
      var r := CollapseSpaces(s);
      if s[..2] == BlankLine {
        assert r == [s[0]] + CollapseSpaces(s[1..]);
        assert Window(r, 0, 2) == BlankLine;
      } else {
        OccursTail(BlankLine, s);
        CollapseSpacesBlankLine(s[1..]);
        OccursCons(BlankLine, s[0], CollapseSpaces(s[1..]));
      }
    }
  }

  /** Collapsing newlines keeps a blank line wherever there was one. */
  lemma {:induction false} CollapseNewlinesBlankLine(s: string)
    ensures Occurs(BlankLine, s) ==> Occurs(BlankLine, CollapseNewlines(s))
    decreases |s|
  {
    if Occurs(BlankLine, s) {
      var r := CollapseNewlines(s);
      if s[..2] == BlankLine {
        if |s| >= 3 && s[2] == '\n' {
          assert Window(s[1..], 0, 2) == BlankLine;
          CollapseNewlinesBlankLine(s[1..]);
        } else {
          assert r == [s[0]] + CollapseNewlines(s[1..]);
          assert Window(r, 0, 2) == BlankLine;
        }
      } else {
        OccursTail(BlankLine, s);
        CollapseNewlinesBlankLine(s[1..]);
        OccursCons(BlankLine, s[0], CollapseNewlines(s[1..]));
      }
    }
  }

  /** An occurrence not at the start of `s` is one in `s[1..]`. */
  lemma OccursTail(t: string, s: string)
    requires Occurs(t, s) && |t| <= |s| && s[..|t|] != t
    ensures Occurs(t, s[1..])
  {
    var k: nat :| k + |t| <= |s| && Window(s, k, |t|) == t;
    assert k != 0;
    var w: nat := k - 1;
    assert Window(s[1..], w, |t|) == Window(s, k, |t|);
  }

  /** Putting a character in front keeps every occurrence. */
  lemma OccursCons(t: string, c: char, s: string)
    ensures Occurs(t, s) ==> Occurs(t, s) && Occurs(t, [c] + s)
  {
    if Occurs(t, s) {
      var k: nat :| k + |t| <= |s| && Window(s, k, |t|) == t;
      var w: nat := k + 1;
      assert Window([c] + s, w, |t|) == Window(s, k, |t|);
    }
  }

  /** `_clean_text`: the normalized text keeps every visible character in
      order, only deletes characters, and has no double space, no run of
      three newlines and no whitespace at either end. */
  function Clean(s: string): (r: string)
    ensures NoDoubleSpace(r)
    ensures NoTripleNewline(r)
    ensures Trimmed(r)
  {
    var t := CollapseNewlines(CollapseSpaces(s));
    StripKeepsShape(t);
    Strip(t)
  }

  /** A text is left unchanged by `_clean_text` exactly when it has no double
      space, no run of three newlines and no whitespace at either end. */
  lemma CleanFixedIff(s: string)
    ensures Clean(s) == s <==> NoDoubleSpace(s) && NoTripleNewline(s) && Trimmed(s)
  {
    if NoDoubleSpace(s) && NoTripleNewline(s) && Trimmed(s) {
      CollapseSpacesFixed(s);
      CollapseNewlinesFixed(s);
      StripTrimmed(s);
    }
  }

  /** Stripping first and collapsing afterwards gives the same text: the
      whitespace at the ends never reaches the result. */
  lemma CleanStripFirst(s: string)
    ensures Clean(s) == CollapseNewlines(CollapseSpaces(Strip(s)))
  {
    var m := Strip(s);
    var lo := StripOffset(s);
    StripSpec(s);
    var l, r := s[..lo], s[lo + |m|..];
    assert s == l + m + r;
    if m == [] {
      StripEmptyIff(s);
      VisibleBlank(s);
      CleanEmptyIff(s);
    } else {
      CollapseSpacesAround(l, m, r);
      var cl, cm, cr := CollapseSpaces(l), CollapseSpaces(m), CollapseSpaces(r);
      CollapseNewlinesAround(cl, cm, cr);
      StripAround(CollapseNewlines(cl), CollapseNewlines(cm), CollapseNewlines(cr));
    }
  }

  /** Collapsing spaces keeps whitespace margins apart from a solid middle. */
  lemma CollapseSpacesAround(l: string, m: string, r: string)
    requires Blank(l) && Solid(m) && Blank(r)
    ensures CollapseSpaces(l + m + r) == CollapseSpaces(l) + CollapseSpaces(m) + CollapseSpaces(r)
    ensures Blank(CollapseSpaces(l)) && Solid(CollapseSpaces(m)) && Blank(CollapseSpaces(r))
  {
    assert (l + m)[|l + m| - 1] == m[|m| - 1];
    CollapseSpacesAppend(l, m);
    CollapseSpacesAppend(l + m, r);
    CollapseSpacesMargins(l, m, r);
  }

  lemma CollapseSpacesMargins(l: string, m: string, r: string)
    requires Blank(l) && Solid(m) && Blank(r)
    ensures Blank(CollapseSpaces(l)) && Solid(CollapseSpaces(m)) && Blank(CollapseSpaces(r))
  {
    CollapseSpacesKeeps(l);
    CollapseSpacesKeeps(r);
    CollapseSpacesLast(m);
    VisibleBlank(l);
    VisibleBlank(r);
    VisibleEmptyBlank(CollapseSpaces(l));
    VisibleEmptyBlank(CollapseSpaces(r));
  }

  /** Collapsing newlines keeps whitespace margins apart from a solid middle. */
  lemma CollapseNewlinesAround(l: string, m: string, r: string)
    requires Blank(l) && Solid(m) && Blank(r)
    ensures CollapseNewlines(l + m + r) == CollapseNewlines(l) + CollapseNewlines(m) + CollapseNewlines(r)
    ensures Blank(CollapseNewlines(l)) && Solid(CollapseNewlines(m)) && Blank(CollapseNewlines(r))
  {
    assert (l + m)[|l + m| - 1] == m[|m| - 1];
    CollapseNewlinesAppend(l, m);
    CollapseNewlinesAppend(l + m, r);
    CollapseNewlinesMargins(l, m, r);
  }

  lemma CollapseNewlinesMargins(l: string, m: string, r: string)
    requires Blank(l) && Solid(m) && Blank(r)
    ensures Blank(CollapseNewlines(l)) && Solid(CollapseNewlines(m)) && Blank(CollapseNewlines(r))
  {
    CollapseNewlinesKeeps(l);
    CollapseNewlinesKeeps(r);
    CollapseNewlinesLast(m);
    VisibleBlank(l);
    VisibleBlank(r);
    VisibleEmptyBlank(CollapseNewlines(l));
    VisibleEmptyBlank(CollapseNewlines(r));
  }

  /** Collapsing spaces deletes spaces and nothing else. */
  lemma {:induction false} CollapseSpacesOnlySpaces(s: string)
    ensures Without(CollapseSpaces(s), ' ') == Without(s, ' ')
  {
    if s != [] {
      CollapseSpacesOnlySpaces(s[1..]);
    }
  }

  /** Collapsing newlines deletes newlines and nothing else. */
  lemma {:induction false} CollapseNewlinesOnlyNewlines(s: string)
    ensures Without(CollapseNewlines(s), '\n') == Without(s, '\n')
  {
    if s != [] {
      CollapseNewlinesOnlyNewlines(s[1..]);
      CollapseNewlinesCons(s[0], s[1..]);
      assert s == [s[0]] + s[1..];
      WithoutCons(s[0], CollapseNewlines(s[1..]), '\n');
    }
  }

  /** A run of spaces is never removed entirely: the text has a space after
      collapsing exactly when it had one before. */
  lemma {:induction false} CollapseSpacesKeepsSpace(s: string)
    ensures ' ' in CollapseSpaces(s) <==> ' ' in s
  {
    if s != [] {
      CollapseSpacesKeepsSpace(s[1..]);
      assert s == [s[0]] + s[1..];
    }
  }

  lemma WithoutCons(x: char, t: string, c: char)
    ensures Without([x] + t, c) == (if x == c then [] else [x]) + Without(t, c)
  {
    assert ([x] + t)[1..] == t;
  }

  /** Collapsing spaces keeps the last character. */
  lemma {:induction false} CollapseSpacesLast(s: string)
    ensures s != [] ==> CollapseSpaces(s)[|CollapseSpaces(s)| - 1] == s[|s| - 1]
  {
    if |s| >= 2 {
      CollapseSpacesLast(s[1..]);
    }
  }

  /** Collapsing newlines keeps the last character. */
  lemma {:induction false} CollapseNewlinesLast(s: string)
    ensures s != [] ==> CollapseNewlines(s)[|CollapseNewlines(s)| - 1] == s[|s| - 1]
  {
    if |s| >= 2 {
      CollapseNewlinesLast(s[1..]);
    }
  }

  /** A blank line between two visible characters of the input survives
      `_clean_text`: paragraphs stay apart. */
  lemma CleanKeepsBlankLine(s: string)
    ensures Occurs(BlankLine, Strip(s)) ==> Occurs(BlankLine, Clean(s))
  {
    CleanStripFirst(s);
    CollapseSpacesBlankLine(Strip(s));
    CollapseNewlinesBlankLine(CollapseSpaces(Strip(s)));
  }

  /** Collapsing spaces works piece by piece when the pieces do not meet in
      a double space. */
  lemma {:induction false} CollapseSpacesAppend(x: string, y: string)
    requires x == [] || y == [] || x[|x| - 1] != ' ' || y[0] != ' '
    ensures CollapseSpaces(x + y) == CollapseSpaces(x) + CollapseSpaces(y)
    decreases |x|
  {
    var z := x + y;
    if x == [] {
      assert z == y;
    } else if |x| == 1 {
      assert z[1..] == y;
      assert y != [] ==> z[1] == y[0];
      assert CollapseSpaces(z) == [x[0]] + CollapseSpaces(y);
    } else {
      assert z[1..] == x[1..] + y;
      assert z[0] == x[0] && z[1] == x[1];
      CollapseSpacesAppend(x[1..], y);
      if x[0] == ' ' && x[1] == ' ' {
        assert CollapseSpaces(z) == CollapseSpaces(x[1..] + y);
        assert CollapseSpaces(x) == CollapseSpaces(x[1..]);
      } else {
        var a, b := CollapseSpaces(x[1..]), CollapseSpaces(y);
        assert CollapseSpaces(z) == [x[0]] + (a + b);
        assert CollapseSpaces(x) == [x[0]] + a;
        ConsAssoc(x[0], a, b);
      }
    }
  }

  /** Collapsing newlines works piece by piece when the pieces do not meet
      in a run of newlines. */
  lemma {:induction false} CollapseNewlinesAppend(x: string, y: string)
    requires x == [] || y == [] || x[|x| - 1] != '\n' || y[0] != '\n'
    ensures CollapseNewlines(x + y) == CollapseNewlines(x) + CollapseNewlines(y)
    decreases |x|
  {
    if x == [] {
      assert x + y == y;
    } else {
      var c, t := x[0], x[1..];
      assert x == [c] + t && x + y == [c] + (t + y);
      assert t != [] ==> t[|t| - 1] == x[|x| - 1];
      CollapseNewlinesAppend(t, y);
      CollapseNewlinesCons(c, t);
      CollapseNewlinesCons(c, t + y);
      var a, b := CollapseNewlines(t), CollapseNewlines(y);
      var drop := |t| >= 2 && c == '\n' && t[0] == '\n' && t[1] == '\n';
      RunStartAppend(c, t, y);
      if !drop {
        ConsAssoc(c, a, b);
      }
    }
  }

  /** Appending `y` does not change whether `c` starts a run of three
      newlines in `[c] + t`, unless `t` (or `c`) ends in a newline and `y`
      starts with one. */
  lemma RunStartAppend(c: char, t: string, y: string)
    requires y == [] || (if t == [] then c else t[|t| - 1]) != '\n' || y[0] != '\n'
    ensures (|t| >= 2 && c == '\n' && t[0] == '\n' && t[1] == '\n') ==
      (|t + y| >= 2 && c == '\n' && (t + y)[0] == '\n' && (t + y)[1] == '\n')
  {
    if |t| >= 2 {
      assert (t + y)[0] == t[0] && (t + y)[1] == t[1];
    } else if |t| == 1 {
      assert (t + y)[0] == t[0];
      assert y != [] ==> (t + y)[1] == y[0];
    } else {
      assert t + y == y;
    }
  }

  /** One step of `re.sub(r'\n\n+', '\n\n')`: a newline is dropped when
      two more follow it. */
  lemma CollapseNewlinesCons(c: char, t: string)
    ensures CollapseNewlines([c] + t) ==
      if |t| >= 2 && c == '\n' && t[0] == '\n' && t[1] == '\n' then CollapseNewlines(t)
      else [c] + CollapseNewlines(t)
  {
    assert ([c] + t)[1..] == t;
  }

  lemma ConsAssoc(c: char, a: string, b: string)
    ensures [c] + (a + b) == ([c] + a) + b
  {
  }

  /** A text with no visible character is all whitespace. */
  lemma {:induction false} VisibleEmptyBlank(a: string)
    ensures Visible(a) == [] ==> Blank(a)
  {
    if a != [] {
      VisibleEmptyBlank(a[1..]);
      if Visible(a) == [] {
        assert forall i :: 1 <= i < |a| ==> a[1..][i - 1] == a[i];
      }
    }
  }

  /** The normalized text only deletes characters, and never a visible one. */
  lemma CleanKeeps(s: string)
    ensures Subseq(Clean(s), s)
    ensures Visible(Clean(s)) == Visible(s)
  {
    var c := CollapseSpaces(s);
    var t := CollapseNewlines(c);
    CollapseSpacesKeeps(s);
    CollapseNewlinesKeeps(c);
    StripKeepsShape(t);
    SubseqTrans(Strip(t), t, c);
    SubseqTrans(Strip(t), c, s);
  }

  /** Collapsing spaces only deletes spaces. */
  lemma {:induction false} CollapseSpacesKeeps(s: string)
    ensures Subseq(CollapseSpaces(s), s)
    ensures Visible(CollapseSpaces(s)) == Visible(s)
  {
    if s != [] {
      CollapseSpacesKeeps(s[1..]);
    }
  }

  /** Collapsing newlines only deletes newlines. */
  lemma {:induction false} CollapseNewlinesKeeps(s: string)
    ensures Subseq(CollapseNewlines(s), s)
    ensures Visible(CollapseNewlines(s)) == Visible(s)
  {
    if s != [] {
      CollapseNewlinesKeeps(s[1..]);
    }
  }

  /** Normalizing twice is the same as normalizing once. */
  lemma CleanIdempotent(s: string)
    ensures Clean(Clean(s)) == Clean(s)
  {
    var c := Clean(s);
    CollapseSpacesFixed(c);
    CollapseNewlinesFixed(c);
    StripTrimmed(c);
  }

  /** The normalized text is empty exactly when the input has no visible
      character: only all-whitespace pages and slides are skipped. */
  lemma CleanEmptyIff(s: string)
    ensures Clean(s) == [] <==> Visible(s) == []
  {
    CleanKeeps(s);
    var c := Clean(s);
    if c != [] {
      assert !IsSpace(c[0]);
      assert Visible(c) == [c[0]] + Visible(c[1..]);
    }
  }

  lemma {:induction false} CollapseSpacesFixed(s: string)
    requires NoDoubleSpace(s)
    ensures CollapseSpaces(s) == s
  {
    if s != [] {
      if |s| >= 2 {
        assert !DoubleSpaceAt(s, 0);
      }
      assert NoDoubleSpace(s[1..]) by {
        forall i: nat | i + 1 < |s[1..]|
          ensures !DoubleSpaceAt(s[1..], i)
        {
          assert !DoubleSpaceAt(s, i + 1);
          assert s[1..][i] == s[i + 1] && s[1..][i + 1] == s[i + 2];
        }
      }
      CollapseSpacesFixed(s[1..]);
    }
  }

  lemma {:induction false} CollapseNewlinesFixed(s: string)
    requires NoTripleNewline(s)
    ensures CollapseNewlines(s) == s
  {
    if s != [] {
      if |s| >= 3 {
        assert !TripleNewlineAt(s, 0);
      }
      assert NoTripleNewline(s[1..]) by {
        forall i: nat | i + 2 < |s[1..]|
          ensures !TripleNewlineAt(s[1..], i)
        {
          assert !TripleNewlineAt(s, i + 1);
          assert s[1..][i] == s[i + 1] && s[1..][i + 1] == s[i + 2] && s[1..][i + 2] == s[i + 3];
        }
      }
      CollapseNewlinesFixed(s[1..]);
    }
  }

  /** Stripping keeps an infix, so it keeps both shape properties, keeps
      every visible character, and yields a subsequence. */
  lemma {:induction false} StripKeepsShape(t: string)
    ensures NoDoubleSpace(t) ==> NoDoubleSpace(Strip(t))
    ensures NoTripleNewline(t) ==> NoTripleNewline(Strip(t))
    ensures Visible(Strip(t)) == Visible(t)
    ensures Subseq(Strip(t), t)
  {
    var lo := StripOffset(t);
    var r := Strip(t);
    var hi := lo + |r|;
    StripSpec(t);
    InfixShape(t, lo, hi);
    StripVisible(t);
    InfixSubseq(t, lo, hi);
  }

  lemma {:induction false} InfixShape(t: string, lo: nat, hi: nat)
    requires lo <= hi <= |t|
    ensures NoDoubleSpace(t) ==> NoDoubleSpace(t[lo..hi])
    ensures NoTripleNewline(t) ==> NoTripleNewline(t[lo..hi])
  {
    var r := t[lo..hi];
    if NoDoubleSpace(t) {
      forall i: nat | i + 1 < |r| ensures !DoubleSpaceAt(r, i) {
        assert !DoubleSpaceAt(t, lo + i);
        assert r[i] == t[lo + i] && r[i + 1] == t[lo + i + 1];
      }
    }
    if NoTripleNewline(t) {
      forall i: nat | i + 2 < |r| ensures !TripleNewlineAt(r, i) {
        assert !TripleNewlineAt(t, lo + i);
        assert r[i] == t[lo + i] && r[i + 1] == t[lo + i + 1] && r[i + 2] == t[lo + i + 2];
      }
    }
  }

  lemma TailShape(s: string)
    requires s != []
    ensures NoDoubleSpace(s) ==> NoDoubleSpace(s[1..])
    ensures NoDoubleSpace(s) && |s| >= 2 ==> !(s[0] == ' ' && s[1] == ' ')
  {
    if NoDoubleSpace(s) && |s| >= 2 {
      assert !DoubleSpaceAt(s, 0);
    }
    InfixShape(s, 1, |s|);
    assert s[1..|s|] == s[1..];
  }

  /** Putting `c` in front keeps "no double space" unless it makes one. */
  lemma {:induction false} ConsNoDoubleSpace(c: char, t: string)
    ensures NoDoubleSpace(t) && (t != [] && c == ' ' ==> t[0] != ' ') ==> NoDoubleSpace([c] + t)
  {
    var s := [c] + t;
    if NoDoubleSpace(t) && (t != [] && c == ' ' ==> t[0] != ' ') {
      forall i: nat | i + 1 < |s| ensures !DoubleSpaceAt(s, i) {
        if i > 0 {
          assert !DoubleSpaceAt(t, i - 1);
          assert s[i] == t[i - 1] && s[i + 1] == t[i];
        }
      }
    }
  }

  /** Putting `c` in front keeps "no triple newline" unless it makes one. */
  lemma {:induction false} ConsNoTripleNewline(c: char, t: string)
    requires NoTripleNewline(t)
    requires |t| >= 2 && c == '\n' && t[0] == '\n' ==> t[1] != '\n'
    ensures NoTripleNewline([c] + t)
  {
    var s := [c] + t;
    forall i: nat | i + 2 < |s| ensures !TripleNewlineAt(s, i) {
      if i > 0 {
        assert !TripleNewlineAt(t, i - 1);
        assert s[i] == t[i - 1] && s[i + 1] == t[i] && s[i + 2] == t[i + 1];
      }
    }
  }

  lemma {:induction false} StripVisible(t: string)
    ensures Visible(Strip(t)) == Visible(t)
  {
    var lo := StripOffset(t);
    var r := Strip(t);
    var hi := lo + |r|;
    StripSpec(t);
    assert t == t[..lo] + (r + t[hi..]);
    VisibleAppend(t[..lo], r + t[hi..]);
    VisibleAppend(r, t[hi..]);
    VisibleBlank(t[..lo]);
    VisibleBlank(t[hi..]);
  }

  lemma {:induction false} VisibleAppend(a: string, b: string)
    ensures Visible(a + b) == Visible(a) + Visible(b)
  {
    if a != [] {
      assert (a + b)[1..] == a[1..] + b;
      VisibleAppend(a[1..], b);
    } else {
      assert a + b == b;
    }
  }

  lemma {:induction false} VisibleBlank(a: string)
    requires forall i :: 0 <= i < |a| ==> IsSpace(a[i])
    ensures Visible(a) == []
  {
    if a != [] {
      VisibleBlank(a[1..]);
    }
  }

  lemma {:induction false} InfixSubseq(t: string, lo: nat, hi: nat)
    requires lo <= hi <= |t|
    ensures Subseq(t[lo..hi], t)
    decreases |t|
  {
    if lo > 0 {
      assert t[1..][lo - 1..hi - 1] == t[lo..hi];
      InfixSubseq(t[1..], lo - 1, hi - 1);
    } else if hi > 0 {
      assert t[lo..hi][1..] == t[1..][0..hi - 1];
      InfixSubseq(t[1..], 0, hi - 1);
    }
  }

  lemma {:induction false} SubseqTrans(a: string, b: string, c: string)
    requires Subseq(a, b) && Subseq(b, c)
    ensures Subseq(a, c)
    decreases |c|
  {
    if a != [] && c != [] {
      if Subseq(b, c[1..]) {
        SubseqTrans(a, b, c[1..]);
      } else {
        assert b[0] == c[0] && Subseq(b[1..], c[1..]);
        if Subseq(a, b[1..]) {
          SubseqTrans(a, b[1..], c[1..]);
        } else {
          SubseqTrans(a[1..], b[1..], c[1..]);
        }
      }
    }
  }
}
