/**
 * The wikilink rewriter of `Qwicky#format`: one left-to-right, non-overlapping
 * substitution pass over the HTML produced by the active markup engine, which
 * replaces every token `[[Text]]` or `[[Text|Page]]` by an anchor.
 *
 * A token is `[[`, one or more characters other than `|` and `]` (the visible
 * text), optionally `|` and one or more characters other than `]` (the page the
 * anchor points to), and `]]`. Without the bar the visible text is also the
 * page. The page store is reduced to the set of existing page names.
 */
module Wikilink {
  import opened Wrappers
  import RubyString

  /** `[^|\]]`: the characters of the part before the bar. */
  predicate IsTextChar(c: char) { c != '|' && c != ']' }

  /** `[^\]]`: the characters of the part after the bar. */
  predicate IsPageChar(c: char) { c != ']' }

  predicate Allowed(c: char, afterBar: bool)
  {
    if afterBar then IsPageChar(c) else IsTextChar(c)
  }

  predicate IsText(s: string)
  {
    |s| > 0 && forall i :: 0 <= i < |s| ==> IsTextChar(s[i])
  }

  predicate IsPage(s: string)
  {
    |s| > 0 && forall i :: 0 <= i < |s| ==> IsPageChar(s[i])
  }

  /** One token: the first capture group and the optional third one. */
  datatype Link = Link(text: string, page: Option<string>)

  predicate WellFormed(lk: Link)
  {
    IsText(lk.text) && (lk.page.Some? ==> IsPage(lk.page.value))
  }

  /** The token as it is written in the page. */
  function Spelling(lk: Link): string
  {
    "[[" + lk.text + (if lk.page.Some? then "|" + lk.page.value else "") + "]]"
  }

  /** `$3 || $1`: the page the anchor points to. */
  function Target(lk: Link): string
  {
    if lk.page.Some? then lk.page.value else lk.text
  }

  // ---------------------------------------------------------------------------
  // The matcher
  // ---------------------------------------------------------------------------

  /** The end of the longest run of allowed characters starting at `i`. */
  function SpanEnd(s: string, i: nat, afterBar: bool): (j: nat)
    requires i <= |s|
    ensures i <= j <= |s|
    ensures forall k :: i <= k < j ==> Allowed(s[k], afterBar)
    ensures j == |s| || !Allowed(s[j], afterBar)
    decreases |s| - i
  {
    if i == |s| || !Allowed(s[i], afterBar) then i else SpanEnd(s, i + 1, afterBar)
  }

  /**
   * The token at the start of `s`, with its length, if there is one. Each part
   * of the token excludes the character that ends it, so the longest run of
   * each part is the only one that can be followed by what the pattern asks
   * for next: taking the longest runs finds exactly the match of the regular
   * expression.
   */
  function MatchPrefix(s: string): (m: Option<(Link, nat)>)
    ensures m.Some? ==> WellFormed(m.value.0)
    ensures m.Some? ==> m.value.1 == |Spelling(m.value.0)| <= |s| && s[..m.value.1] == Spelling(m.value.0)
  {
    if |s| < 2 || s[0] != '[' || s[1] != '[' then None
    else
      var j := SpanEnd(s, 2, false);
      if j == 2 || j == |s| then None
      else if s[j] == '|' then
        var k := SpanEnd(s, j + 1, true);
        if k == j + 1 || k + 2 > |s| || s[k + 1] != ']' then None
        else
          var lk := Link(s[2..j], Some(s[j + 1..k]));
          SpelledAt(s, j, k, lk);
          Some((lk, k + 2))
      else if j + 2 > |s| || s[j + 1] != ']' then None
      else
        var lk := Link(s[2..j], None);
        SpelledAt(s, j, j, lk);
        Some((lk, j + 2))
  }

  /** The runs `MatchPrefix` found, with their delimiters, spell a well-formed token. */
  lemma SpelledAt(s: string, j: nat, k: nat, lk: Link)
    requires 2 < j <= k < |s| - 1 && s[0] == '[' && s[1] == '[' && s[k] == ']' && s[k + 1] == ']'
    requires forall i :: 2 <= i < j ==> Allowed(s[i], false)
    requires lk.text == s[2..j]
    requires k == j ==> lk.page.None?
    requires k > j ==> k > j + 1 && s[j] == '|' && lk.page == Some(s[j + 1..k])
    requires forall i :: j < i < k ==> Allowed(s[i], true)
    ensures WellFormed(lk) && s[..k + 2] == Spelling(lk)
  {
    var text := lk.text;
    forall i | 0 <= i < |text| ensures IsTextChar(text[i]) {
      assert Allowed(s[2 + i], false);
    }
    if k > j {
      var page := lk.page.value;
      forall i | 0 <= i < |page| ensures IsPageChar(page[i]) {
        assert Allowed(s[j + 1 + i], true);
      }
    }
  }

  /** `SpanEnd` is determined by the run it finds. */
  lemma SpanEndIs(s: string, i: nat, j: nat, afterBar: bool)
    requires i <= j <= |s|
    requires forall k :: i <= k < j ==> Allowed(s[k], afterBar)
    requires j == |s| || !Allowed(s[j], afterBar)
    ensures SpanEnd(s, i, afterBar) == j
  {
  }

  /** Where each part of a token sits in its spelling. */
  lemma SpellingLayout(lk: Link)
    ensures var sp, n := Spelling(lk), |lk.text|;
      && |sp| == (if lk.page.Some? then 5 + n + |lk.page.value| else 4 + n)
      && sp[0] == '[' && sp[1] == '['
      && sp[2..2 + n] == lk.text
      && (lk.page.None? ==> sp[2 + n] == ']' && sp[3 + n] == ']')
      && (lk.page.Some? ==>
            var m := |lk.page.value|;
            sp[2 + n] == '|' && sp[3 + n..3 + n + m] == lk.page.value
            && sp[3 + n + m] == ']' && sp[4 + n + m] == ']')
  {
  }

  /** Every well-formed token at the start of `s` is the one the matcher finds. */
  lemma MatchPrefixComplete(s: string, lk: Link)
    requires WellFormed(lk) && Spelling(lk) <= s
    ensures MatchPrefix(s) == Some((lk, |Spelling(lk)|))
  {
    if lk.page.None? {
      BareComplete(s, lk);
    } else {
      PipedComplete(s, lk);
    }
  }

  lemma BareComplete(s: string, lk: Link)
    requires WellFormed(lk) && lk.page.None? && Spelling(lk) <= s
    ensures MatchPrefix(s) == Some((lk, |Spelling(lk)|))
  {
    var sp := Spelling(lk);
    var n := |lk.text|;
    SpellingLayout(lk);
    assert s[..|sp|] == sp;
    assert s[2..2 + n] == lk.text;
    RunAllowed(s, 2, lk.text, false);
    assert s[2 + n] == ']' && s[3 + n] == ']';
    SpanEndIs(s, 2, 2 + n, false);
  }

  lemma PipedComplete(s: string, lk: Link)
    requires WellFormed(lk) && lk.page.Some? && Spelling(lk) <= s
    ensures MatchPrefix(s) == Some((lk, |Spelling(lk)|))
  {
    PipedRuns(s, lk);
  }

  /** Where `MatchPrefix` finds the two runs of a piped token spelled at the start of `s`. */
  lemma PipedRuns(s: string, lk: Link)
    requires WellFormed(lk) && lk.page.Some? && Spelling(lk) <= s
    ensures var n, m := |lk.text|, |lk.page.value|;
      && |Spelling(lk)| == 5 + n + m <= |s| && s[0] == '[' && s[1] == '['
      && SpanEnd(s, 2, false) == 2 + n && s[2 + n] == '|' && s[2..2 + n] == lk.text
      && SpanEnd(s, 3 + n, true) == 3 + n + m && s[3 + n..3 + n + m] == lk.page.value
      && s[4 + n + m] == ']'
  {
    var sp := Spelling(lk);
    var n, m := |lk.text|, |lk.page.value|;
    SpellingLayout(lk);
    assert s[..|sp|] == sp;
    assert s[2..2 + n] == lk.text;
    RunAllowed(s, 2, lk.text, false);
    assert s[2 + n] == '|';
    SpanEndIs(s, 2, 2 + n, false);
    assert s[3 + n..3 + n + m] == lk.page.value;
    RunAllowed(s, 3 + n, lk.page.value, true);
    assert s[3 + n + m] == ']' && s[4 + n + m] == ']';
    SpanEndIs(s, 3 + n, 3 + n + m, true);
  }

  /** A part of a token written at `i` is a run of allowed characters there. */
  lemma RunAllowed(s: string, i: nat, w: string, afterBar: bool)
    requires i + |w| <= |s| && s[i..i + |w|] == w
    requires if afterBar then IsPage(w) else IsText(w)
    ensures forall k :: i <= k < i + |w| ==> Allowed(s[k], afterBar)
  {
    forall k | i <= k < i + |w|
      ensures Allowed(s[k], afterBar)
    {
      assert s[k] == w[k - i];
    }
  }


  /** Some well-formed token is written at the start of `s`. */
  ghost predicate StartsWithToken(s: string)
  {
    exists lk :: WellFormed(lk) && Spelling(lk) <= s
  }

  /** The matcher finds a token exactly when one is written at the start. */
  lemma MatchPrefixExact(s: string)
    ensures MatchPrefix(s).Some? <==> StartsWithToken(s)
  {
    if StartsWithToken(s) {
      var lk :| WellFormed(lk) && Spelling(lk) <= s;
      MatchPrefixComplete(s, lk);
    }
    if MatchPrefix(s).Some? {
      var lk := MatchPrefix(s).value.0;
      assert WellFormed(lk) && Spelling(lk) <= s;
    }
  }

  /** At most one token starts at any position: the pattern cannot match two ways. */
  lemma TokenUnique(s: string, a: Link, b: Link)
    requires WellFormed(a) && Spelling(a) <= s
    requires WellFormed(b) && Spelling(b) <= s
    ensures a == b
  {
    MatchPrefixComplete(s, a);
    MatchPrefixComplete(s, b);
  }

  // ---------------------------------------------------------------------------
  // The substitution pass
  // ---------------------------------------------------------------------------

  /** What the pass sees at one position: a copied character or a token. */
  datatype Piece = Verbatim(c: char) | Token(link: Link)

  function PieceSource(p: Piece): string
  {
    match p
    case Verbatim(c) => [c]
    case Token(lk) => Spelling(lk)
  }

  /** The input text a sequence of pieces stands for. */
  function Source(ps: seq<Piece>): string
  {
    if ps == [] then "" else PieceSource(ps[0]) + Source(ps[1..])
  }

  /**
   * The matches of the pass, found left to right: at each position either the
   * token that starts there is taken and the scan goes on after it, or the
   * character is copied and the scan goes on at the next one.
   */
  function Scan(s: string): (ps: seq<Piece>)
    ensures Source(ps) == s
    decreases |s|
  {
    if s == [] then []
    else match MatchPrefix(s)
      case Some(m) =>
        assert s == s[..m.1] + s[m.1..];
        [Token(m.0)] + Scan(s[m.1..])
      case None =>
        assert s == [s[0]] + s[1..];
        [Verbatim(s[0])] + Scan(s[1..])
  }

  /** The attributes and content of the anchor a token becomes. */
  datatype Anchor = Anchor(href: string, title: string, klass: string, body: string)

  /** The anchor for one token, by whether its target page exists. */
  function AnchorFor(lk: Link, pages: set<string>): Anchor
  {
    var page := Target(lk);
    var missing := page !in pages;
    Anchor("/" + page,
           if missing then "Create page " + page else "Page " + page,
           if missing then "bad" else "good",
           lk.text)
  }

  function ToHtml(a: Anchor): string
  {
    "<a href=" + RubyString.Inspect(a.href) + " title=" + RubyString.Inspect(a.title)
      + " class='" + a.klass + "'>" + a.body + "</a>"
  }

  function PieceHtml(p: Piece, pages: set<string>): string
  {
    match p
    case Verbatim(c) => [c]
    case Token(lk) => ToHtml(AnchorFor(lk, pages))
  }

  /** Copied characters stay, tokens become anchors. */
  function Render(ps: seq<Piece>, pages: set<string>): string
  {
    if ps == [] then "" else PieceHtml(ps[0], pages) + Render(ps[1..], pages)
  }

  /** The whole pass. Anchors are produced from the input only and never rescanned. */
  function Rewrite(s: string, pages: set<string>): string
  {
    Render(Scan(s), pages)
  }

  // ---------------------------------------------------------------------------
  // The pass against its declarative description
  // ---------------------------------------------------------------------------

  /**
   * `ps` is the leftmost non-overlapping decomposition of `s`: the pieces cover
   * `s` in order, every token is well formed, and a character is copied only
   * where no token starts.
   */
  ghost predicate Leftmost(s: string, ps: seq<Piece>)
    decreases ps
  {
    if ps == [] then s == []
    else match ps[0]
      case Verbatim(c) => s != [] && s[0] == c && !StartsWithToken(s) && Leftmost(s[1..], ps[1..])
      case Token(lk) => WellFormed(lk) && Spelling(lk) <= s && Leftmost(s[|Spelling(lk)|..], ps[1..])
  }

  /** The matches the pass finds are the leftmost decomposition. */
  lemma {:induction false} ScanLeftmost(s: string)
    ensures Leftmost(s, Scan(s))
    decreases |s|
  {
    if s != [] {
      MatchPrefixExact(s);
      match MatchPrefix(s)
      case Some(m) =>
        ScanLeftmost(s[m.1..]);
      case None =>
        ScanLeftmost(s[1..]);
    }
  }

  /** There is only one leftmost decomposition. */
  lemma {:induction false} LeftmostUnique(s: string, ps: seq<Piece>, qs: seq<Piece>)
    requires Leftmost(s, ps) && Leftmost(s, qs)
    ensures ps == qs
    decreases ps
  {
    if ps == [] {
    } else if ps[0].Verbatim? {
      if qs[0].Verbatim? {
        LeftmostUnique(s[1..], ps[1..], qs[1..]);
      }
    } else {
      var a := ps[0].link;
      if qs[0].Verbatim? {
        assert StartsWithToken(s);
      } else {
        TokenUnique(s, a, qs[0].link);
        LeftmostUnique(s[|Spelling(a)|..], ps[1..], qs[1..]);
      }
    }
  }

  /**
   * The output of the pass is the leftmost decomposition of the input with
   * every token replaced by its anchor: the text between matches is copied
   * unchanged and in order.
   */
  lemma RewriteIsLeftmost(s: string, ps: seq<Piece>, pages: set<string>)
    requires Leftmost(s, ps)
    ensures Rewrite(s, pages) == Render(ps, pages)
    ensures Source(ps) == s
  {
    ScanLeftmost(s);
    LeftmostUnique(s, ps, Scan(s));
  }

  /** One step of the pass, as `gsub` takes it. */
  lemma RewriteStep(s: string, pages: set<string>)
    requires s != []
    ensures MatchPrefix(s).Some? ==>
      Rewrite(s, pages) == ToHtml(AnchorFor(MatchPrefix(s).value.0, pages)) + Rewrite(s[MatchPrefix(s).value.1..], pages)
    ensures MatchPrefix(s).None? ==> Rewrite(s, pages) == [s[0]] + Rewrite(s[1..], pages)
  {
  }

  // ---------------------------------------------------------------------------
  // Properties of the pass
  // ---------------------------------------------------------------------------

  /** A text in which no token starts anywhere comes back unchanged. */
  lemma {:induction false} RewriteWithoutTokens(s: string, pages: set<string>)
    requires forall i :: 0 <= i < |s| ==> !StartsWithToken(s[i..])
    ensures Rewrite(s, pages) == s
    decreases |s|
  {
    if s != [] {
      assert s[0..] == s;
      MatchPrefixExact(s);
      RewriteStep(s, pages);
      forall i | 0 <= i < |s[1..]|
        ensures !StartsWithToken(s[1..][i..])
      {
        assert s[1..][i..] == s[i + 1..];
      }
      RewriteWithoutTokens(s[1..], pages);
    }
  }

  /** No `[[` anywhere in the text. */
  predicate NoOpen(s: string)
  {
    forall i :: 0 <= i < |s| - 1 ==> !(s[i] == '[' && s[i + 1] == '[')
  }

  /** A text without `[[` comes back unchanged. */
  lemma {:induction false} RewriteWithoutOpen(s: string, pages: set<string>)
    requires NoOpen(s)
    ensures Rewrite(s, pages) == s
    decreases |s|
  {
    if s != [] {
      assert MatchPrefix(s).None? by {
        if |s| >= 2 {
          assert !(s[0] == '[' && s[1] == '[');
        }
      }
      RewriteStep(s, pages);
      assert NoOpen(s[1..]) by {
        forall i | 0 <= i < |s[1..]| - 1
          ensures !(s[1..][i] == '[' && s[1..][i + 1] == '[')
        {
          assert s[1..][i] == s[i + 1] && s[1..][i + 1] == s[i + 2];
        }
      }
      RewriteWithoutOpen(s[1..], pages);
    }
  }

  /** Where no token starts, the pass copies the first character. */
  lemma RewriteCopiesFirst(s: string, pages: set<string>)
    requires s != [] && MatchPrefix(s).None?
    ensures Rewrite(s, pages) == [s[0]] + Rewrite(s[1..], pages)
  {
    RewriteStep(s, pages);
  }

  /** Where a token starts, the pass emits its anchor and goes on after it. */
  lemma RewriteTakesToken(s: string, lk: Link, n: nat, pages: set<string>)
    requires MatchPrefix(s) == Some((lk, n))
    ensures n <= |s|
    ensures Rewrite(s, pages) == ToHtml(AnchorFor(lk, pages)) + Rewrite(s[n..], pages)
  {
    RewriteStep(s, pages);
  }

  lemma ConsAppend(x: string, y: string)
    requires x != []
    ensures [x[0]] + (x[1..] + y) == x + y
  {
    assert x == [x[0]] + x[1..];
  }

  /** Text without `[` in front of any text is copied as it is: no token starts in it. */
  lemma {:induction false} RewriteAfterPlain(p: string, t: string, pages: set<string>)
    requires forall i :: 0 <= i < |p| ==> p[i] != '['
    ensures Rewrite(p + t, pages) == p + Rewrite(t, pages)
    decreases |p|
  {
    if p == [] {
      assert p + t == t;
    } else {
      var s := p + t;
      assert s[0] == p[0] != '[';
      RewriteCopiesFirst(s, pages);
      assert s[1..] == p[1..] + t;
      RewriteAfterPlain(p[1..], t, pages);
      ConsAppend(p, Rewrite(t, pages));
    }
  }

  /** A token ends in `]]`, so it cannot reach into a text without `]`. */
  lemma MatchPrefixBeforeClose(t: string, q: string)
    requires forall i :: 0 <= i < |q| ==> q[i] != ']'
    ensures MatchPrefix(t + q) == MatchPrefix(t)
  {
    var m := MatchPrefix(t);
    if m.Some? {
      var sp := Spelling(m.value.0);
      assert (t + q)[..|sp|] == t[..|sp|];
      MatchPrefixComplete(t + q, m.value.0);
    } else if MatchPrefix(t + q).Some? {
      var lk := MatchPrefix(t + q).value.0;
      var sp := Spelling(lk);
      SpellingLayout(lk);
      assert sp[|sp| - 1] == ']';
      assert (t + q)[|sp| - 1] == ']';
      assert |sp| <= |t|;
      assert t[..|sp|] == (t + q)[..|sp|];
      MatchPrefixComplete(t, lk);
    }
  }

  /** Text without `[` or `]` after any text is copied as it is: no token reaches into it. */
  lemma {:induction false} RewriteBeforePlain(t: string, q: string, pages: set<string>)
    requires forall i :: 0 <= i < |q| ==> q[i] != '[' && q[i] != ']'
    ensures Rewrite(t + q, pages) == Rewrite(t, pages) + q
    decreases |t|
  {
    if t == [] {
      assert t + q == q + [];
      RewriteAfterPlain(q, [], pages);
    } else {
      MatchPrefixBeforeClose(t, q);
      if MatchPrefix(t).Some? {
        RewriteBeforeToken(t, q, pages);
      } else {
        RewriteBeforeCopy(t, q, pages);
      }
    }
  }

  /** The step of `RewriteBeforePlain` where a token starts. */
  lemma {:induction false} RewriteBeforeToken(t: string, q: string, pages: set<string>)
    requires forall i :: 0 <= i < |q| ==> q[i] != '[' && q[i] != ']'
    requires MatchPrefix(t).Some? && MatchPrefix(t + q) == MatchPrefix(t)
    ensures Rewrite(t + q, pages) == Rewrite(t, pages) + q
    decreases |t|, 0
  {
    var lk, n := MatchPrefix(t).value.0, MatchPrefix(t).value.1;
    RewriteTakesToken(t, lk, n, pages);
    RewriteTakesToken(t + q, lk, n, pages);
    DropAppend(t, q, n);
    RewriteBeforePlain(t[n..], q, pages);
    AppendAssoc(ToHtml(AnchorFor(lk, pages)), Rewrite(t[n..], pages), q);
  }

  /** The step of `RewriteBeforePlain` where a character is copied. */
  lemma {:induction false} RewriteBeforeCopy(t: string, q: string, pages: set<string>)
    requires forall i :: 0 <= i < |q| ==> q[i] != '[' && q[i] != ']'
    requires t != [] && MatchPrefix(t).None? && MatchPrefix(t + q).None?
    ensures Rewrite(t + q, pages) == Rewrite(t, pages) + q
    decreases |t|, 0
  {
    CopyThenMore(t, q, pages);
    RewriteCopiesFirst(t, pages);
    RewriteBeforePlain(t[1..], q, pages);
    AppendAssoc([t[0]], Rewrite(t[1..], pages), q);
  }

  /** Dropping a prefix of `t` from `t + q`. */
  lemma DropAppend(t: string, q: string, n: nat)
    requires n <= |t|
    ensures (t + q)[n..] == t[n..] + q
  {
  }

  /** `RewriteCopiesFirst` on `t + q`. */
  lemma CopyThenMore(t: string, q: string, pages: set<string>)
    requires t != [] && MatchPrefix(t + q).None?
    ensures Rewrite(t + q, pages) == [t[0]] + Rewrite(t[1..] + q, pages)
  {
    var s := t + q;
    RewriteCopiesFirst(s, pages);
    assert s[0] == t[0];
    assert s[1..] == t[1..] + q;
  }

  lemma AppendAssoc(a: string, b: string, c: string)
    ensures a + (b + c) == (a + b) + c
  {
  }

  /** `[[]]` and `[[|X]]`, whatever X is, are not tokens: the visible text is empty. */
  lemma EmptyTextNeverMatches(x: string)
    ensures MatchPrefix("[[]]").None? && !StartsWithToken("[[]]")
    ensures MatchPrefix("[[|" + x + "]]").None? && !StartsWithToken("[[|" + x + "]]")
  {
    var s1 := "[[]]";
    SpanEndIs(s1, 2, 2, false);
    MatchPrefixExact(s1);
    var s2 := "[[|" + x + "]]";
    assert s2[2] == '|';
    SpanEndIs(s2, 2, 2, false);
    MatchPrefixExact(s2);
  }

  /**
   * `[[]]` and `[[|X]]` produce no anchor and are copied verbatim. The copy of
   * the second needs X free of `[`: `[[|[[B]]]]` holds the token `[[B]]`.
   */
  lemma EmptyTextIsCopied(x: string, pages: set<string>)
    requires forall i :: 0 <= i < |x| ==> x[i] != '['
    ensures Rewrite("[[]]", pages) == "[[]]"
    ensures Rewrite("[[|" + x + "]]", pages) == "[[|" + x + "]]"
  {
    EmptyTextNeverMatches(x);
    StartCopied("[]]", pages);
    var rest := "[|" + x + "]]";
    assert "[" + rest == "[[|" + x + "]]";
    StartCopied(rest, pages);
  }

  /** `[` and a rest without `[` after its first character, when no token starts there. */
  lemma StartCopied(rest: string, pages: set<string>)
    requires forall i :: 0 < i < |rest| ==> rest[i] != '['
    requires MatchPrefix("[" + rest).None?
    ensures Rewrite("[" + rest, pages) == "[" + rest
  {
    var s := "[" + rest;
    RewriteStep(s, pages);
    assert s[1..] == rest;
    assert NoOpen(rest) by {
      forall i | 0 <= i < |rest| - 1
        ensures !(rest[i] == '[' && rest[i + 1] == '[')
      {
        assert rest[i + 1] != '[';
      }
    }
    RewriteWithoutOpen(rest, pages);
  }

  /** No token starts at text characters followed by `|]]`: its part after the bar would be empty. */
  lemma NoTokenBeforeEmptyPage(w: string)
    requires forall i :: 0 <= i < |w| ==> IsTextChar(w[i])
    ensures MatchPrefix(w + "|]]").None?
  {
    var s := w + "|]]";
    var n := |w|;
    if |s| >= 2 && s[0] == '[' && s[1] == '[' {
      assert n >= 2;
      forall k | 2 <= k < n
        ensures Allowed(s[k], false)
      {
        assert s[k] == w[k];
      }
      assert s[n] == '|' && s[n + 1] == ']';
      SpanEndIs(s, 2, n, false);
      SpanEndIs(s, n + 1, n + 1, true);
    }
  }

  /** `[[A|]]` is not a token: the part after the bar is empty. */
  lemma EmptyPageNeverMatches(a: string)
    requires forall i :: 0 <= i < |a| ==> IsTextChar(a[i])
    ensures MatchPrefix("[[" + a + "|]]").None? && !StartsWithToken("[[" + a + "|]]")
  {
    var w := "[[" + a;
    forall i | 0 <= i < |w|
      ensures IsTextChar(w[i])
    {
      if i >= 2 {
        assert w[i] == a[i - 2];
      }
    }
    NoTokenBeforeEmptyPage(w);
    assert w + "|]]" == "[[" + a + "|]]";
    MatchPrefixExact("[[" + a + "|]]");
  }

  /**
   * No token starts anywhere in `[[A|]]` when A holds no bar and no `]`, so it
   * produces no anchor and is copied verbatim.
   */
  lemma EmptyPageIsCopied(a: string, pages: set<string>)
    requires forall i :: 0 <= i < |a| ==> IsTextChar(a[i])
    ensures Rewrite("[[" + a + "|]]", pages) == "[[" + a + "|]]"
  {
    var w := "[[" + a;
    var s := w + "|]]";
    assert s == "[[" + a + "|]]";
    forall i | 0 <= i < |s|
      ensures !StartsWithToken(s[i..])
    {
      if i < |w| {
        assert s[i..] == w[i..] + "|]]";
        forall k | 0 <= k < |w[i..]|
          ensures IsTextChar(w[i..][k])
        {
          if i + k >= 2 {
            assert w[i..][k] == a[i + k - 2];
          }
        }
        NoTokenBeforeEmptyPage(w[i..]);
      } else {
        assert s[i..][0] != '[';
      }
      MatchPrefixExact(s[i..]);
    }
    RewriteWithoutTokens(s, pages);
  }

  /** A text that is one token becomes that token's anchor. */
  lemma RewriteWhole(s: string, lk: Link, pages: set<string>)
    requires MatchPrefix(s) == Some((lk, |s|))
    ensures Rewrite(s, pages) == ToHtml(AnchorFor(lk, pages))
  {
    RewriteTakesToken(s, lk, |s|, pages);
    assert s[|s|..] == [];
  }

  /** The anchor for page `page` showing `text`, as the rewriter writes it. */
  function Expected(page: string, text: string, pages: set<string>): Anchor
  {
    Anchor("/" + page,
           if page in pages then "Page " + page else "Create page " + page,
           if page in pages then "good" else "bad",
           text)
  }

  /**
   * `[[A]]` becomes one anchor to `/A` showing `A`, of class `good` and title
   * `Page A` when page A exists, of class `bad` and title `Create page A` when
   * it does not.
   */
  lemma RewriteBareLink(a: string, pages: set<string>)
    requires IsText(a)
    ensures Rewrite("[[" + a + "]]", pages) == ToHtml(Expected(a, a, pages))
  {
    var lk := Link(a, None);
    var s := "[[" + a + "]]";
    assert Spelling(lk) == s;
    MatchPrefixComplete(s, lk);
    RewriteWhole(s, lk, pages);
  }

  /**
   * `[[A|B]]` becomes one anchor to `/B` whose class and title are decided by
   * page B, but whose visible text is A: the part before the bar is shown and
   * the part after it is the target.
   */
  lemma RewritePipedLink(a: string, b: string, pages: set<string>)
    requires IsText(a) && IsPage(b)
    ensures Rewrite("[[" + a + "|" + b + "]]", pages) == ToHtml(Expected(b, a, pages))
  {
    var lk := Link(a, Some(b));
    var s := "[[" + a + "|" + b + "]]";
    assert Spelling(lk) == s;
    MatchPrefixComplete(s, lk);
    RewriteWhole(s, lk, pages);
  }

  /** Only the first bar splits a token: in `[[A|B|C]]` the target is `B|C`. */
  lemma FirstBarSplits(a: string, b: string, c: string, pages: set<string>)
    requires IsText(a) && IsPage(b) && IsPage(c)
    ensures Rewrite("[[" + a + "|" + b + "|" + c + "]]", pages) == ToHtml(Expected(b + "|" + c, a, pages))
  {
    var lk := Link(a, Some(b + "|" + c));
    var s := "[[" + a + "|" + b + "|" + c + "]]";
    BarJoinIsPage(b, c);
    assert Spelling(lk) == s;
    MatchPrefixComplete(s, lk);
    RewriteWhole(s, lk, pages);
  }

  lemma BarJoinIsPage(b: string, c: string)
    requires IsPage(b) && IsPage(c)
    ensures IsPage(b + "|" + c)
  {
    var bc := b + "|" + c;
    forall i | 0 <= i < |bc|
      ensures IsPageChar(bc[i])
    {
      if i < |b| {
        assert bc[i] == b[i];
      } else if i > |b| {
        assert bc[i] == c[i - |b| - 1];
      }
    }
  }
}
