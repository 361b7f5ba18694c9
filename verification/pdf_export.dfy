/**
 The markup escaping of utils/pdf_exporter.py (`PDFExporter._clean_text`):
 three successive `str.replace` calls, `&` first, that make a text safe for
 the PDF library's paragraph markup.

 `Escaped(s, k)` names the text after the first `k` replacements; the escape
 is `Escaped(s, 3)` and each `replace` moves from one stage to the next.
 Undoing the replacements in the reverse order walks the stages back, which
 gives the round trip and hence injectivity.
 */
module PdfExport {
  import opened PyStr

  const AmpEntity: string := "&amp;"
  const LtEntity: string := "&lt;"
  const GtEntity: string := "&gt;"

  /** `_clean_text`. */
  function CleanText(text: string): string {
    ReplaceStr(ReplaceStr(ReplaceStr(text, "&", AmpEntity), "<", LtEntity), ">", GtEntity)
  }

  /** The reverse replacements, last one first. */
  function Unescape(text: string): string {
    ReplaceStr(ReplaceStr(ReplaceStr(text, GtEntity, ">"), LtEntity, "<"), AmpEntity, "&")
  }

  /** The character replaced by step `k` (1, 2, 3) and its entity. */
  function StepChar(k: nat): char
    requires 1 <= k <= 3
  {
    if k == 1 then '&' else if k == 2 then '<' else '>'
  }

  function StepEntity(k: nat): string
    requires 1 <= k <= 3
  {
    if k == 1 then AmpEntity else if k == 2 then LtEntity else GtEntity
  }

  /** One character after the first `k` replacements. */
  function EscapedChar(c: char, k: nat): string {
    if c == '&' && k >= 1 then AmpEntity
    else if c == '<' && k >= 2 then LtEntity
    else if c == '>' && k >= 3 then GtEntity
    else [c]
  }

  /** The text after the first `k` replacements, character by character. */
  function Escaped(s: string, k: nat): string {
    if s == [] then [] else EscapedChar(s[0], k) + Escaped(s[1..], k)
  }

  /** A stretch that cannot begin the pattern, and contains no other
      character that could, is copied through by `replace`. */
  lemma SkipLeading(lit: string, rest: string, pat: string, rep: string)
    requires |pat| > 0 && lit != []
    requires pat[0] !in lit[1..]
    requires lit[0] != pat[0] || (|lit| >= |pat| && lit[..|pat|] != pat)
    ensures ReplaceStr(lit + rest, pat, rep) == lit + ReplaceStr(rest, pat, rep)
  {
    var s := lit + rest;
    ReplaceSkip(lit[1..], rest, pat, rep);
    if |s| >= |pat| {
      NoMatchAtHead(lit, rest, pat);
      ReplaceNoMatch(s, pat, rep);
      HeadTail(lit, rest, ReplaceStr(rest, pat, rep));
    } else {
      assert ReplaceStr(rest, pat, rep) == rest;
    }
  }

  /** Re-associating the first character of a non-empty prefix. */
  lemma HeadTail<T>(x: seq<T>, y: seq<T>, z: seq<T>)
    requires x != []
    ensures (x + y)[0] == x[0] && (x + y)[1..] == x[1..] + y
    ensures [x[0]] + (x[1..] + z) == x + z
  {
    assert x == [x[0]] + x[1..];
  }

  /** Where the pattern does not start the text, its first character is
      copied through. */
  lemma ReplaceNoMatch(s: string, pat: string, rep: string)
    requires |pat| > 0 && |s| >= |pat| && s[..|pat|] != pat
    ensures ReplaceStr(s, pat, rep) == [s[0]] + ReplaceStr(s[1..], pat, rep)
  {
  }

  /** Under the conditions of `SkipLeading`, the pattern does not start the
      text. */
  lemma NoMatchAtHead(lit: string, rest: string, pat: string)
    requires |pat| > 0 && lit != [] && |lit + rest| >= |pat|
    requires lit[0] != pat[0] || (|lit| >= |pat| && lit[..|pat|] != pat)
    ensures (lit + rest)[..|pat|] != pat
  {
    var s := lit + rest;
    if lit[0] == pat[0] {
      assert s[..|pat|] == lit[..|pat|];
    } else {
      assert s[..|pat|][0] == lit[0];
    }
  }

  /** Below stage `k`, a character's rendering at stage `k` cannot begin
      the `k`-th entity, and `&` can only lead it. */
  lemma EntityDiffers(c: char, k: nat)
    requires 1 <= k <= 3 && c != StepChar(k)
    ensures var lit, pat := EscapedChar(c, k), StepEntity(k);
      && '&' !in lit[1..]
      && (lit[0] != pat[0] || (|lit| >= |pat| && lit[..|pat|] != pat))
  {
    var lit := EscapedChar(c, k);
    if lit == AmpEntity {
      assert lit[1..] == "amp;";
      assert k == 1 || lit[..4] == "&amp";
    } else if lit == LtEntity {
      assert lit[1..] == "lt;";
      assert k == 3 && lit[..4] == "&lt;";
    } else if lit == GtEntity {
      assert false;
    } else {
      assert lit == [c] && c != '&';
    }
  }

  /** A text that starts with the pattern has it replaced there. */
  lemma MatchLeading(rest: string, pat: string, rep: string)
    requires |pat| > 0
    ensures ReplaceStr(pat + rest, pat, rep) == rep + ReplaceStr(rest, pat, rep)
  {
  }

  /** Step `k` of `_clean_text` turns stage `k - 1` into stage `k`. */
  lemma {:induction false} EscapeStep(s: string, k: nat)
    requires 1 <= k <= 3
    ensures ReplaceStr(Escaped(s, k - 1), [StepChar(k)], StepEntity(k)) == Escaped(s, k)
  {
    if s != [] {
      EscapeStep(s[1..], k);
      var lit, rest := EscapedChar(s[0], k - 1), Escaped(s[1..], k - 1);
      if s[0] == StepChar(k) {
        assert lit == [StepChar(k)];
        MatchLeading(rest, [StepChar(k)], StepEntity(k));
      } else {
        assert StepChar(k) !in lit;
        ReplaceSkip(lit, rest, [StepChar(k)], StepEntity(k));
      }
    }
  }

  /** Undoing step `k` turns stage `k` back into stage `k - 1`. */
  lemma {:induction false} UnescapeStep(s: string, k: nat)
    requires 1 <= k <= 3
    ensures ReplaceStr(Escaped(s, k), StepEntity(k), [StepChar(k)]) == Escaped(s, k - 1)
  {
    if s != [] {
      UnescapeStep(s[1..], k);
      var lit, rest := EscapedChar(s[0], k), Escaped(s[1..], k);
      if s[0] == StepChar(k) {
        assert lit == StepEntity(k);
        MatchLeading(rest, StepEntity(k), [StepChar(k)]);
      } else {
        assert lit == EscapedChar(s[0], k - 1);
        EntityDiffers(s[0], k);
        SkipLeading(lit, rest, StepEntity(k), [StepChar(k)]);
      }
    }
  }

  lemma {:induction false} EscapedNone(s: string)
    ensures Escaped(s, 0) == s
  {
    if s != [] {
      EscapedNone(s[1..]);
      assert s == [s[0]] + s[1..];
    }
  }

  /** `_clean_text` is the per-character escape `& -> &amp;`, `< -> &lt;`,
      `> -> &gt;`: because `&` is replaced first, the entities it inserts
      are not escaped again. */
  lemma CleanTextSpec(s: string)
    ensures CleanText(s) == Escaped(s, 3)
  {
    EscapedNone(s);
    EscapeStep(s, 1);
    EscapeStep(s, 2);
    EscapeStep(s, 3);
  }

  /** Reversing the replacements recovers the text, so `_clean_text` is
      injective. */
  lemma CleanTextRoundTrip(s: string)
    ensures Unescape(CleanText(s)) == s
  {
    CleanTextSpec(s);
    UnescapeStep(s, 3);
    UnescapeStep(s, 2);
    UnescapeStep(s, 1);
    EscapedNone(s);
  }

  lemma CleanTextInjective(s: string, t: string)
    requires CleanText(s) == CleanText(t)
    ensures s == t
  {
    CleanTextRoundTrip(s);
    CleanTextRoundTrip(t);
  }

  /** No `<` or `>` survives. */
  lemma {:induction false} EscapedNoBrackets(s: string)
    ensures '<' !in Escaped(s, 3) && '>' !in Escaped(s, 3)
  {
    if s != [] {
      EscapedNoBrackets(s[1..]);
    }
  }

  /** Each `&` grows by four characters, each `<` and `>` by three. */
  lemma {:induction false} EscapedLength(s: string)
    ensures |Escaped(s, 3)| == |s| + 4 * multiset(s)['&'] + 3 * multiset(s)['<'] + 3 * multiset(s)['>']
  {
    if s != [] {
      EscapedLength(s[1..]);
      MultisetCons(s);
      EscapedCharLength(s[0]);
    }
  }

  lemma EscapedCharLength(c: char)
    ensures |EscapedChar(c, 3)| == 1 + (if c == '&' then 4 else if c == '<' || c == '>' then 3 else 0)
  {
  }

  lemma MultisetCons<T>(s: seq<T>)
    requires s != []
    ensures multiset(s) == multiset{s[0]} + multiset(s[1..])
  {
    assert s == [s[0]] + s[1..];
  }

  /** The properties of `_clean_text` on every input. */
  lemma CleanTextProperties(s: string)
    ensures '<' !in CleanText(s) && '>' !in CleanText(s)
    ensures |CleanText(s)| == |s| + 4 * multiset(s)['&'] + 3 * multiset(s)['<'] + 3 * multiset(s)['>']
    ensures '&' !in s && '<' !in s && '>' !in s ==> CleanText(s) == s
  {
    CleanTextSpec(s);
    EscapedNoBrackets(s);
    EscapedLength(s);
    if '&' !in s && '<' !in s && '>' !in s {
      EscapedPlain(s);
    }
  }

  lemma {:induction false} EscapedPlain(s: string)
    requires '&' !in s && '<' !in s && '>' !in s
    ensures Escaped(s, 3) == s
  {
    if s != [] {
      EscapedPlain(s[1..]);
      assert s == [s[0]] + s[1..];
    }
  }
}
