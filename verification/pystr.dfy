/** Optional values, for the dictionary keys and file reads that may be
    absent, and the concatenation of a list of lists. */
module Wrappers {

  datatype Option<+T> = None | Some(value: T) {

    /** The value, or `default` when absent (Python's `d.get(key, default)`). */
    function GetOr(default: T): T {
      match this
      case Some(v) => v
      case None => default
    }
  }

  /** The concatenation of a list of lists, in order. */
  function Flatten<T>(xss: seq<seq<T>>): seq<T> {
    if xss == [] then [] else xss[0] + Flatten(xss[1..])
  }
}

/**
 The parts of Python's `str` that the pipeline relies on: `strip`, `split`,
 `join`, `replace`, slicing, `lower` and decimal rendering of integers.
 Strings are sequences of Unicode code points, as in Python 3.
 */
module PyStr {

  /** The characters for which Python's `str.isspace()` holds. */
  predicate IsSpace(c: char) {
    || c == ' '
    || '\t' <= c <= '\r'
    || '\U{001C}' <= c <= '\U{001F}'
    || c == '\U{0085}' || c == '\U{00A0}' || c == '\U{1680}'
    || '\U{2000}' <= c <= '\U{200A}'
    || c == '\U{2028}' || c == '\U{2029}' || c == '\U{202F}' || c == '\U{205F}'
    || c == '\U{3000}'
  }

  /** Neither end of `s` is whitespace (vacuously true of the empty string). */
  predicate Trimmed(s: string) {
    s == [] || (!IsSpace(s[0]) && !IsSpace(s[|s| - 1]))
  }

  /** `s` has at least one character and neither end is whitespace. */
  predicate Solid(s: string) {
    s != [] && Trimmed(s)
  }

  /** Python `s.lstrip()`: drops leading whitespace (see `LStripSuffix`). */
  function LStrip(s: string): (r: string)
    ensures |r| <= |s|
    ensures r == [] || !IsSpace(r[0])
  {
    if |s| > 0 && IsSpace(s[0]) then LStrip(s[1..]) else s
  }

  /** Python `s.rstrip()`: drops trailing whitespace (see `RStripPrefix`). */
  function RStrip(s: string): (r: string)
    ensures |r| <= |s|
    ensures r == [] || !IsSpace(r[|r| - 1])
    ensures r != [] ==> r[0] == s[0]
  {
    if |s| > 0 && IsSpace(s[|s| - 1]) then RStrip(s[..|s| - 1]) else s
  }

  /** Python `s.strip()`. Its ends are not whitespace; `StripSpec` says it is
      the infix of `s` starting at `StripOffset(s)` with only whitespace
      around it. (The contract leaves the infix to the lemma: an equation
      between a string and a slice of itself sends the solver's slice axioms
      into a loop in every proof that mentions `Strip`.) */
  function Strip(s: string): (r: string)
    ensures Trimmed(r)
    ensures |r| <= |s|
  {
    RStrip(LStrip(s))
  }

  /** Where the stripped infix of `s` starts. */
  function StripOffset(s: string): nat
    ensures StripOffset(s) <= |s|
  {
    |s| - |LStrip(s)|
  }

  /** `s.lstrip()` is a suffix of `s` ... */
  lemma {:induction false} LStripSuffix(s: string)
    ensures LStrip(s) == s[|s| - |LStrip(s)|..]
  {
    if |s| > 0 && IsSpace(s[0]) {
      LStripSuffix(s[1..]);
      assert s[1..][|s| - 1 - |LStrip(s)|..] == s[|s| - |LStrip(s)|..];
    }
  }

  /** ... after a run of whitespace. */
  lemma {:induction false} LStripDropped(s: string)
    ensures forall i :: 0 <= i < |s| - |LStrip(s)| ==> IsSpace(s[i])
  {
    if |s| > 0 && IsSpace(s[0]) {
      LStripDropped(s[1..]);
      forall i | 0 <= i < |s| - |LStrip(s)| ensures IsSpace(s[i]) {
        if i > 0 {
          assert s[i] == s[1..][i - 1];
        }
      }
    }
  }

  /** `s.rstrip()` is a prefix of `s` ... */
  lemma {:induction false} RStripPrefix(s: string)
    ensures RStrip(s) == s[..|RStrip(s)|]
  {
    if |s| > 0 && IsSpace(s[|s| - 1]) {
      RStripPrefix(s[..|s| - 1]);
      assert s[..|s| - 1][..|RStrip(s)|] == s[..|RStrip(s)|];
    }
  }

  /** ... before a run of whitespace. */
  lemma {:induction false} RStripDropped(s: string)
    ensures forall i :: |RStrip(s)| <= i < |s| ==> IsSpace(s[i])
  {
    if |s| > 0 && IsSpace(s[|s| - 1]) {
      RStripDropped(s[..|s| - 1]);
      forall i | |RStrip(s)| <= i < |s| ensures IsSpace(s[i]) {
        if i < |s| - 1 {
          assert s[i] == s[..|s| - 1][i];
        }
      }
    }
  }

  /** `s.strip()` is the infix `s[lo..lo + |r|]` with `lo == StripOffset(s)`,
      and everything outside it is whitespace. */
  lemma StripSpec(s: string)
    ensures StripOffset(s) + |Strip(s)| <= |s|
    ensures Strip(s) == s[StripOffset(s)..StripOffset(s) + |Strip(s)|]
    ensures forall i :: 0 <= i < StripOffset(s) ==> IsSpace(s[i])
    ensures forall i :: StripOffset(s) + |Strip(s)| <= i < |s| ==> IsSpace(s[i])
  {
    LStripDropped(s);
    StripInfix(s);
    StripTrailing(s);
  }

  lemma StripInfix(s: string)
    ensures StripOffset(s) + |Strip(s)| <= |s|
    ensures Strip(s) == s[StripOffset(s)..StripOffset(s) + |Strip(s)|]
  {
    LStripSuffix(s);
    RStripPrefix(LStrip(s));
    PrefixOfSuffix(s, LStrip(s), Strip(s), StripOffset(s));
  }

  /** A prefix of the suffix from `lo` is the infix starting at `lo`. */
  lemma PrefixOfSuffix<T>(s: seq<T>, l: seq<T>, r: seq<T>, lo: nat)
    requires lo <= |s| && l == s[lo..] && |r| <= |l| && r == l[..|r|]
    ensures lo + |r| <= |s| && r == s[lo..lo + |r|]
  {
  }

  lemma StripTrailing(s: string)
    ensures forall i :: StripOffset(s) + |Strip(s)| <= i < |s| ==> IsSpace(s[i])
  {
    var l := LStrip(s);
    var lo := StripOffset(s);
    LStripSuffix(s);
    RStripDropped(l);
    forall i | lo + |Strip(s)| <= i < |s| ensures IsSpace(s[i]) {
      assert s[i] == l[i - lo];
    }
  }

  /** Stripping a string whose ends are not whitespace changes nothing. */
  lemma {:induction false} StripTrimmed(s: string)
    requires Trimmed(s)
    ensures Strip(s) == s
  {
  }

  /** Stripping whitespace off both sides of a text whose own ends are not
      whitespace gives that text back. */
  lemma StripAround(l: string, m: string, r: string)
    requires Blank(l) && Blank(r) && Solid(m)
    ensures Strip(l + m + r) == m
  {
    assert l + m + r == l + (m + r);
    LStripPast(l, m + r);
    RStripPast(m, r);
  }

  lemma {:induction false} LStripPast(l: string, t: string)
    requires Blank(l) && (t == [] || !IsSpace(t[0]))
    ensures LStrip(l + t) == t
  {
    if l == [] {
      assert l + t == t;
    } else {
      assert (l + t)[1..] == l[1..] + t;
      assert Blank(l[1..]) by {
        forall i | 0 <= i < |l[1..]| ensures IsSpace(l[1..][i]) {
          assert l[1..][i] == l[i + 1];
        }
      }
      LStripPast(l[1..], t);
    }
  }

  lemma {:induction false} RStripPast(t: string, r: string)
    requires Blank(r) && (t == [] || !IsSpace(t[|t| - 1]))
    ensures RStrip(t + r) == t
  {
    if r == [] {
      assert t + r == t;
    } else {
      var r' := r[..|r| - 1];
      assert (t + r)[..|t + r| - 1] == t + r';
      assert Blank(r') by {
        forall i | 0 <= i < |r'| ensures IsSpace(r'[i]) {
          assert r'[i] == r[i];
        }
      }
      RStripPast(t, r');
    }
  }

  /** Whatever occurs in the stripped text occurs in the text. */
  lemma StripOccurs(t: string, s: string)
    ensures Occurs(t, Strip(s)) ==> Occurs(t, s)
  {
    StripSpec(s);
    var lo := StripOffset(s);
    OccursInfix(t, s, lo, lo + |Strip(s)|);
  }

  /** Every character is whitespace: Python's `not s.strip()`. */
  predicate Blank(s: string) {
    forall i :: 0 <= i < |s| ==> IsSpace(s[i])
  }

  /** `Strip(s)` is empty exactly when `s` is all whitespace. */
  lemma StripEmptyIff(s: string)
    ensures Strip(s) == [] <==> Blank(s)
  {
    StripSpec(s);
    if Strip(s) != [] {
      var k := StripOffset(s);
      assert !IsSpace(s[k]);
    }
  }

  /** The `n` characters of `s` starting at `i`. */
  function Window(s: string, i: nat, n: nat): string
    requires i + n <= |s|
  {
    s[i..i + n]
  }

  /** `t` occurs somewhere in `s`. */
  predicate Occurs(t: string, s: string) {
    exists i: nat :: i + |t| <= |s| && Window(s, i, |t|) == t
  }

  /** Whatever occurs in a slice occurs in the whole. */
  lemma OccursInfix(t: string, s: string, lo: nat, hi: nat)
    requires lo <= hi <= |s|
    ensures Occurs(t, s[lo..hi]) ==> Occurs(t, s)
  {
    if Occurs(t, s[lo..hi]) {
      var k: nat :| k + |t| <= hi - lo && Window(s[lo..hi], k, |t|) == t;
      forall j | 0 <= j < |t| ensures Window(s, lo + k, |t|)[j] == t[j] {
        assert Window(s, lo + k, |t|)[j] == s[lo + k + j] == s[lo..hi][k + j];
      }
      var w: nat := lo + k;
      assert w + |t| <= |s| && Window(s, w, |t|) == t;
    }
  }

  /** A character of `s` is a one-character string occurring in `s`. */
  lemma OccursChar(c: char, s: string)
    ensures c in s ==> Occurs([c], s)
  {
    if c in s {
      var k :| 0 <= k < |s| && s[k] == c;
      assert Window(s, k, 1) == [c];
    }
  }

  /** Python `sep.join(xs)`. */
  function Join(xs: seq<string>, sep: string): string
  {
    if |xs| == 0 then ""
    else if |xs| == 1 then xs[0]
    else xs[0] + sep + Join(xs[1..], sep)
  }

  /** Joining two non-empty lists puts one separator between their joins. */
  lemma {:induction false} JoinAppend(xs: seq<string>, ys: seq<string>, sep: string)
    requires xs != [] && ys != []
    ensures Join(xs + ys, sep) == Join(xs, sep) + sep + Join(ys, sep)
  {
    if |xs| == 1 {
      assert (xs + ys)[1..] == ys;
    } else {
      assert (xs + ys)[1..] == xs[1..] + ys;
      JoinAppend(xs[1..], ys, sep);
    }
  }

  /** Appending one more piece to a join puts one separator before it. */
  lemma JoinSnoc(xs: seq<string>, y: string, sep: string)
    ensures Join(xs + [y], sep) == if xs == [] then y else Join(xs, sep) + sep + y
  {
    if xs != [] {
      JoinAppend(xs, [y], sep);
    } else {
      assert xs + [y] == [y];
    }
  }

  /** A join of solid pieces is solid: its ends are those of its first and
      last pieces. */
  lemma {:induction false} JoinSolid(xs: seq<string>, sep: string)
    requires |xs| > 0
    requires forall i :: 0 <= i < |xs| ==> Solid(xs[i])
    ensures Solid(Join(xs, sep))
  {
    if |xs| > 1 {
      JoinSolid(xs[1..], sep);
    }
  }

  /** Joining whitespace-only pieces with a whitespace-only separator gives
      whitespace only. */
  lemma {:induction false} JoinBlank(xs: seq<string>, sep: string)
    requires Blank(sep)
    requires forall i :: 0 <= i < |xs| ==> Blank(xs[i])
    ensures Blank(Join(xs, sep))
  {
    if |xs| > 1 {
      JoinBlank(xs[1..], sep);
      var r := Join(xs[1..], sep);
      assert Join(xs, sep) == xs[0] + sep + r;
      assert forall i :: 0 <= i < |xs[0] + sep + r| ==>
        (xs[0] + sep + r)[i] == if i < |xs[0]| then xs[0][i]
                                else if i < |xs[0]| + |sep| then sep[i - |xs[0]|]
                                else r[i - |xs[0]| - |sep|];
    }
  }

  /** Every piece of a join occurs in it. */
  lemma {:induction false} JoinOccurs(xs: seq<string>, k: nat, sep: string)
    requires k < |xs|
    ensures Occurs(xs[k], Join(xs, sep))
  {
    var j := Join(xs, sep);
    if |xs| == 1 {
      assert Window(j, 0, |xs[0]|) == xs[0];
    } else if k == 0 {
      assert j == xs[0] + sep + Join(xs[1..], sep);
      assert Window(j, 0, |xs[0]|) == xs[0];
    } else {
      JoinOccurs(xs[1..], k - 1, sep);
      var r := Join(xs[1..], sep);
      var t := xs[k];
      assert t == xs[1..][k - 1];
      var i: nat :| i + |t| <= |r| && Window(r, i, |t|) == t;
      var off := |xs[0]| + |sep|;
      assert j == xs[0] + sep + r;
      assert Window(j, off + i, |t|) == Window(r, i, |t|);
    }
  }

  /** Python `s.split(sep)`: the pieces between leftmost non-overlapping
      occurrences of `sep`. */
  function Split(s: string, sep: string): (r: seq<string>)
    requires |sep| > 0
    ensures |r| >= 1
    decreases |s|
  {
    if |s| < |sep| then [s]
    else if s[..|sep|] == sep then [""] + Split(s[|sep|..], sep)
    else
      var rest := Split(s[1..], sep);
      [[s[0]] + rest[0]] + rest[1..]
  }

  /** Splitting and re-joining with the same separator gives back the text. */
  lemma {:induction false} JoinSplit(s: string, sep: string)
    requires |sep| > 0
    ensures Join(Split(s, sep), sep) == s
    decreases |s|
  {
    if |s| < |sep| {
    } else if s[..|sep|] == sep {
      JoinSplit(s[|sep|..], sep);
      JoinSplitAtSep(s, sep);
    } else {
      JoinSplit(s[1..], sep);
      JoinSplitPastChar(s, sep);
    }
  }

  /** No piece of `s.split(sep)` contains `sep`: the text is cut at every
      occurrence of the separator. */
  lemma {:induction false} SplitNoSep(s: string, sep: string)
    requires |sep| > 0
    ensures forall p :: p in Split(s, sep) ==> !Occurs(sep, p)
    decreases |s|
  {
    var ps := Split(s, sep);
    if |s| < |sep| {
      assert ps == [s];
    } else if s[..|sep|] == sep {
      SplitNoSep(s[|sep|..], sep);
      assert ps == [""] + Split(s[|sep|..], sep);
    } else {
      var rest := Split(s[1..], sep);
      SplitNoSep(s[1..], sep);
      JoinSplit(s[1..], sep);
      JoinHeadPrefix(rest, sep);
      HeadOccurs(s, sep, rest[0]);
      assert ps == [[s[0]] + rest[0]] + rest[1..];
      assert forall p :: p in rest[1..] ==> p in rest;
    }
  }

  /** The first piece of a join is a prefix of it. */
  lemma JoinHeadPrefix(xs: seq<string>, sep: string)
    requires xs != []
    ensures |xs[0]| <= |Join(xs, sep)| && Join(xs, sep)[..|xs[0]|] == xs[0]
  {
    if |xs| > 1 {
      assert Join(xs, sep) == xs[0] + (sep + Join(xs[1..], sep));
    }
  }

  /** An occurrence in `[s[0]] + h`, where `h` is a prefix of `s[1..]`, is
      either an occurrence in `h` or one at the start of `s`. */
  lemma HeadOccurs(s: string, t: string, h: string)
    requires |t| > 0 && |s| >= |t| && |h| < |s| && h == s[1..][..|h|]
    ensures Occurs(t, [s[0]] + h) ==> Occurs(t, h) || s[..|t|] == t
  {
    var x := [s[0]] + h;
    if Occurs(t, x) {
      var k: nat :| k + |t| <= |x| && Window(x, k, |t|) == t;
      assert x == s[..|x|];
      if k == 0 {
        assert s[..|t|] == Window(x, 0, |t|);
      } else {
        assert Window(h, k - 1, |t|) == Window(x, k, |t|);
      }
    }
  }

  /** A text opening with the separator splits into an empty piece and the
      pieces of the rest. */
  lemma JoinSplitAtSep(s: string, sep: string)
    requires |sep| > 0 && |s| >= |sep| && s[..|sep|] == sep
    requires Join(Split(s[|sep|..], sep), sep) == s[|sep|..]
    ensures Join(Split(s, sep), sep) == s
  {
    assert s == sep + s[|sep|..];
  }

  /** A text not opening with the separator has its first character at the
      head of the first piece. */
  lemma JoinSplitPastChar(s: string, sep: string)
    requires |sep| > 0 && |s| >= |sep| && s[..|sep|] != sep
    requires Join(Split(s[1..], sep), sep) == s[1..]
    ensures Join(Split(s, sep), sep) == s
  {
    JoinConsHead(s[0], Split(s[1..], sep), sep);
    assert s == [s[0]] + s[1..];
  }

  /** Prefixing the first piece prefixes the join. */
  lemma JoinConsHead(c: char, xs: seq<string>, sep: string)
    requires xs != []
    ensures Join([[c] + xs[0]] + xs[1..], sep) == [c] + Join(xs, sep)
  {
  }

  /** Python `s[:n]` for `n >= 0`, on strings and lists alike. */
  function Take<T>(s: seq<T>, n: nat): (r: seq<T>)
    ensures |r| == if |s| <= n then |s| else n
    ensures r == s[..|r|]
  {
    if |s| <= n then s else s[..n]
  }

  /** Python `s[:n]` for any integer `n`; a negative `n` counts from the end. */
  function SliceTo<T>(s: seq<T>, n: int): (r: seq<T>)
    ensures |r| == if n >= 0 then (if n < |s| then n else |s|) else (if |s| + n > 0 then |s| + n else 0)
    ensures r == s[..|r|]
  {
    if n >= 0 then Take(s, n) else Take(s, if |s| + n > 0 then |s| + n else 0)
  }

  /** Python `s.endswith(c)` for a one-character suffix. */
  predicate EndsWith(s: string, c: char) {
    |s| > 0 && s[|s| - 1] == c
  }

  /** Python `s.replace(pat, rep)`: every leftmost non-overlapping occurrence
      of `pat`, scanning left to right, becomes `rep`. */
  function ReplaceStr(s: string, pat: string, rep: string): string
    requires |pat| > 0
    decreases |s|
  {
    if |s| < |pat| then s
    else if s[..|pat|] == pat then rep + ReplaceStr(s[|pat|..], pat, rep)
    else [s[0]] + ReplaceStr(s[1..], pat, rep)
  }

  /** Replacing a one-character pattern by one character substitutes that
      character at every position and keeps the length. */
  lemma {:induction false} ReplaceCharSpec(s: string, a: char, b: char)
    ensures |ReplaceStr(s, [a], [b])| == |s|
    ensures forall i :: 0 <= i < |s| ==>
      ReplaceStr(s, [a], [b])[i] == if s[i] == a then b else s[i]
  {
    if s != [] {
      ReplaceCharSpec(s[1..], a, b);
      var r, t := ReplaceStr(s, [a], [b]), ReplaceStr(s[1..], [a], [b]);
      assert r == [if s[0] == a then b else s[0]] + t by {
        if s[..1] == [a] { assert s[0] == a; } else { assert s[0] != a; }
      }
      forall i | 0 < i < |s|
        ensures r[i] == if s[i] == a then b else s[i]
      {
        assert r[i] == t[i - 1] && s[i] == s[1..][i - 1];
      }
    }
  }

  /** A stretch of text that does not contain the first character of the
      pattern passes through `replace` untouched. */
  lemma {:induction false} ReplaceSkip(lit: string, rest: string, pat: string, rep: string)
    requires |pat| > 0
    requires pat[0] !in lit
    ensures ReplaceStr(lit + rest, pat, rep) == lit + ReplaceStr(rest, pat, rep)
    decreases |lit|
  {
    if lit != [] {
      var s := lit + rest;
      assert s[1..] == lit[1..] + rest;
      assert lit[0] != pat[0];
      ReplaceSkip(lit[1..], rest, pat, rep);
      if |s| < |pat| {
        assert ReplaceStr(rest, pat, rep) == rest;
      } else {
        assert s[..|pat|][0] == lit[0];
        assert s[..|pat|] != pat;
        assert ReplaceStr(s, pat, rep) == [s[0]] + ReplaceStr(s[1..], pat, rep);
        assert s == [lit[0]] + (lit[1..] + rest);
      }
    } else {
      assert lit + rest == rest;
    }
  }

  /** Python's `.lower()` on the characters that carry case in ASCII and
      Latin-1; every other character is its own lower case here. */
  function LowerChar(c: char): char {
    if 'A' <= c <= 'Z' || ('\U{00C0}' <= c <= '\U{00DE}' && c != '\U{00D7}') then
      (c as int + 32) as char
    else c
  }

  function Lower(s: string): (r: string)
    ensures |r| == |s|
    ensures forall i :: 0 <= i < |s| ==> r[i] == LowerChar(s[i])
  {
    if s == [] then [] else [LowerChar(s[0])] + Lower(s[1..])
  }

  // ---------------------------------------------------------------------
  // Ordering: Python compares strings code point by code point

  /** Python `a <= b` on strings. */
  predicate StrLeq(a: string, b: string) {
    a == [] || (b != [] && (a[0] < b[0] || (a[0] == b[0] && StrLeq(a[1..], b[1..]))))
  }

  /** Python `a < b` on strings. */
  predicate StrLess(a: string, b: string) {
    StrLeq(a, b) && a != b
  }

  lemma {:induction false} StrLeqTotal(a: string, b: string)
    ensures StrLeq(a, b) || StrLeq(b, a)
  {
    if a != [] && b != [] && a[0] == b[0] {
      StrLeqTotal(a[1..], b[1..]);
    }
  }

  lemma {:induction false} StrLeqTrans(a: string, b: string, c: string)
    requires StrLeq(a, b) && StrLeq(b, c)
    ensures StrLeq(a, c)
  {
    if a != [] && b != [] && c != [] && a[0] == b[0] && b[0] == c[0] {
      StrLeqTrans(a[1..], b[1..], c[1..]);
    }
  }

  lemma {:induction false} StrLeqAntisym(a: string, b: string)
    requires StrLeq(a, b) && StrLeq(b, a)
    ensures a == b
  {
    if a != [] && b != [] {
      StrLeqAntisym(a[1..], b[1..]);
      assert a == [a[0]] + a[1..] && b == [b[0]] + b[1..];
    }
  }

  /** Exactly one of `a < b`, `a == b`, `b < a` holds. */
  lemma {:induction false} StrLessTrichotomy(a: string, b: string)
    ensures !StrLess(a, b) <==> StrLeq(b, a)
  {
    StrLeqTotal(a, b);
    if StrLeq(a, b) && StrLeq(b, a) {
      StrLeqAntisym(a, b);
    }
  }

  // ---------------------------------------------------------------------
  // Decimal rendering: Python `str(n)` and `f"{n:04d}"`

  predicate IsDigit(c: char) {
    '0' <= c <= '9'
  }

  function DigitChar(d: nat): char
    requires d < 10
  {
    ('0' as int + d) as char
  }

  function DigitValue(c: char): nat
    requires IsDigit(c)
  {
    c as int - '0' as int
  }

  /** The value of a string of decimal digits; leading zeros are allowed. */
  function ParseNat(s: string): nat
    requires forall i :: 0 <= i < |s| ==> IsDigit(s[i])
  {
    if s == [] then 0 else ParseNat(s[..|s| - 1]) * 10 + DigitValue(s[|s| - 1])
  }

  /** Python `str(n)` for `n >= 0`: digits only, no leading zero. */
  function NatToString(n: nat): (r: string)
    ensures |r| >= 1
    ensures forall i :: 0 <= i < |r| ==> IsDigit(r[i])
    ensures |r| > 1 ==> r[0] != '0'
  {
    if n < 10 then [DigitChar(n)] else NatToString(n / 10) + [DigitChar(n % 10)]
  }

  /** Python `str(i)` for any integer. */
  function IntToString(i: int): (r: string)
    ensures |r| >= 1
    ensures (i < 0) <==> r[0] == '-'
  {
    if i < 0 then "-" + NatToString(-i) else NatToString(i)
  }

  function Zeros(k: nat): (r: string)
    ensures |r| == k
    ensures forall i :: 0 <= i < k ==> r[i] == '0'
  {
    if k == 0 then "" else "0" + Zeros(k - 1)
  }

  /** Python `f"{n:0{width}d}"` for `n >= 0`: the decimal digits of `n`,
      left-padded with zeros to at least `width` characters. */
  function ZeroPad(n: nat, width: nat): (r: string)
    ensures |r| == if |NatToString(n)| < width then width else |NatToString(n)|
    ensures forall i :: 0 <= i < |r| ==> IsDigit(r[i])
  {
    var d := NatToString(n);
    if |d| < width then Zeros(width - |d|) + d else d
  }

  /** Reading back the decimal rendering gives the number. */
  lemma {:induction false} ParseNatToString(n: nat)
    ensures ParseNat(NatToString(n)) == n
  {
    if n >= 10 {
      var s := NatToString(n);
      assert s[..|s| - 1] == NatToString(n / 10);
      ParseNatToString(n / 10);
    }
  }

  /** Leading zeros do not change the value read. */
  lemma {:induction false} ParseNatLeadingZeros(k: nat, s: string)
    requires forall i :: 0 <= i < |s| ==> IsDigit(s[i])
    ensures ParseNat(Zeros(k) + s) == ParseNat(s)
    decreases |s|
  {
    var z := Zeros(k) + s;
    if s == [] {
      assert z == Zeros(k);
      ParseNatZeros(k);
    } else {
      assert z[..|z| - 1] == Zeros(k) + s[..|s| - 1];
      ParseNatLeadingZeros(k, s[..|s| - 1]);
    }
  }

  lemma {:induction false} ParseNatZeros(k: nat)
    ensures ParseNat(Zeros(k)) == 0
  {
    if k > 0 {
      var z := Zeros(k);
      assert z[..k - 1] == Zeros(k - 1);
      ParseNatZeros(k - 1);
    }
  }

  /** Zero padding can be read back, so distinct numbers pad to distinct
      strings. */
  lemma ZeroPadParse(n: nat, width: nat)
    ensures ParseNat(ZeroPad(n, width)) == n
  {
    ParseNatToString(n);
    if |NatToString(n)| < width {
      ZeroPadPadded(n, width);
    } else {
      assert ZeroPad(n, width) == NatToString(n);
    }
  }

  /** The padding zeros are read as leading zeros. */
  lemma ZeroPadPadded(n: nat, width: nat)
    requires |NatToString(n)| < width
    ensures ParseNat(ZeroPad(n, width)) == ParseNat(NatToString(n))
  {
    var d := NatToString(n);
    assert ZeroPad(n, width) == Zeros(width - |d|) + d;
    ParseNatLeadingZeros(width - |d|, d);
  }

  lemma ZeroPadInjective(m: nat, n: nat, width: nat)
    requires ZeroPad(m, width) == ZeroPad(n, width)
    ensures m == n
  {
    ZeroPadParse(m, width);
    ZeroPadParse(n, width);
  }
}
