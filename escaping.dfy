/**
 * HTML special-character escaping as PHP's `htmlspecialchars` performs it with
 * the ENT_HTML5 flag and double encoding on. `Element` escapes with ENT_COMPAT
 * (the apostrophe is left alone); `Html` escapes with ENT_QUOTES (the apostrophe
 * becomes `&apos;`). Characters are abstract: no byte encoding is modelled.
 */
module Escaping {

  /** ENT_COMPAT or ENT_QUOTES. */
  datatype QuoteMode = Compat | Quotes

  /** The characters that `mode` replaces by an entity. */
  predicate IsSpecial(c: char, mode: QuoteMode) {
    c == '&' || c == '<' || c == '>' || c == '"' || (mode == Quotes && c == '\'')
  }

  /** A string holding none of the characters `mode` replaces. */
  predicate Plain(s: string, mode: QuoteMode) {
    forall i :: 0 <= i < |s| ==> !IsSpecial(s[i], mode)
  }

  /** A string holding none of `<`, `>`, `"`, and in ENT_QUOTES mode no `'` either. */
  predicate MarkupFree(s: string, mode: QuoteMode) {
    forall i :: 0 <= i < |s| ==> s[i] != '<' && s[i] != '>' && s[i] != '"' && (mode == Quotes ==> s[i] != '\'')
  }

  /** The replacement of one character. */
  function EscapeChar(c: char, mode: QuoteMode): (r: string)
    ensures IsSpecial(c, mode) <==> r != [c]
    ensures MarkupFree(r, mode)
    ensures 0 < |r| && (r[0] == '&' <==> IsSpecial(c, mode))
  {
    if c == '&' then "&amp;"
    else if c == '<' then "&lt;"
    else if c == '>' then "&gt;"
    else if c == '"' then "&quot;"
    else if c == '\'' && mode == Quotes then "&apos;"
    else [c]
  }

  /** htmlspecialchars($s, mode | ENT_HTML5): every character replaced independently. */
  function Escape(s: string, mode: QuoteMode): (r: string)
    ensures |r| >= |s|
    ensures MarkupFree(r, mode)
  {
    if s == [] then [] else EscapeChar(s[0], mode) + Escape(s[1..], mode)
  }

  /** Escaping works character by character: it distributes over concatenation. */
  lemma {:induction false} EscapeAppend(a: string, b: string, mode: QuoteMode)
    ensures Escape(a + b, mode) == Escape(a, mode) + Escape(b, mode)
  {
    if a == [] {
      assert a + b == b;
    } else {
      assert (a + b)[0] == a[0] && (a + b)[1..] == a[1..] + b;
      EscapeAppend(a[1..], b, mode);
    }
  }

  /** Escaping leaves a string unchanged exactly when it holds no special character. */
  lemma {:induction false} EscapeIdentity(s: string, mode: QuoteMode)
    ensures Escape(s, mode) == s <==> Plain(s, mode)
  {
    if s != [] {
      EscapeIdentity(s[1..], mode);
      var head, tail := EscapeChar(s[0], mode), Escape(s[1..], mode);
      if Escape(s, mode) == s {
        // Lengths never shrink, so the head cannot grow either.
        assert |head| + |tail| == |s| && |tail| >= |s| - 1;
        assert head == [s[0]] by { assert head == Escape(s, mode)[..|head|]; }
        assert tail == s[1..] by { assert tail == Escape(s, mode)[|head|..]; }
        assert Plain(s, mode) by {
          forall i | 0 <= i < |s| ensures !IsSpecial(s[i], mode) {
            if i > 0 { assert s[i] == s[1..][i - 1]; }
          }
        }
      }
      if Plain(s, mode) {
        assert Plain(s[1..], mode) by {
          forall i | 0 <= i < |s[1..]| ensures !IsSpecial(s[1..][i], mode) { assert s[1..][i] == s[i + 1]; }
        }
        assert [s[0]] + s[1..] == s;
      }
    }
  }

  /** An entity that starts at position i of t. */
  predicate EntityAt(t: string, i: nat, mode: QuoteMode)
    requires i < |t|
  {
    var rest := t[i..];
    "&amp;" <= rest || "&lt;" <= rest || "&gt;" <= rest || "&quot;" <= rest || (mode == Quotes && "&apos;" <= rest)
  }

  /** Every ampersand in escaped text begins one of the entities: a literal `&` is always re-encoded. */
  lemma {:induction false} AmpersandsStartEntities(s: string, mode: QuoteMode)
    ensures forall i :: 0 <= i < |Escape(s, mode)| && Escape(s, mode)[i] == '&' ==> EntityAt(Escape(s, mode), i, mode)
  {
    if s != [] {
      AmpersandsStartEntities(s[1..], mode);
      var head, tail, r := EscapeChar(s[0], mode), Escape(s[1..], mode), Escape(s, mode);
      forall i | 0 <= i < |r| && r[i] == '&' ensures EntityAt(r, i, mode) {
        if i < |head| {
          // Inside the head only its first character can be an ampersand.
          assert r[i] == head[i];
          assert i == 0;
          assert r[0..] == head + tail;
        } else {
          assert r[i..] == tail[i - |head|..];
          assert tail[i - |head|] == '&';
          assert EntityAt(tail, i - |head|, mode);
        }
      }
    }
  }

  /** The inverse of Escape: htmlspecialchars_decode with the same quote mode. */
  function Unescape(t: string, mode: QuoteMode): string
    decreases |t|
  {
    if t == [] then []
    else if "&amp;" <= t then "&" + Unescape(t[5..], mode)
    else if "&lt;" <= t then "<" + Unescape(t[4..], mode)
    else if "&gt;" <= t then ">" + Unescape(t[4..], mode)
    else if "&quot;" <= t then "\"" + Unescape(t[6..], mode)
    else if mode == Quotes && "&apos;" <= t then "'" + Unescape(t[6..], mode)
    else [t[0]] + Unescape(t[1..], mode)
  }

  /** Decoding what was escaped gives back the original text: escaping loses nothing. */
  lemma {:induction false} UnescapeEscape(s: string, mode: QuoteMode)
    ensures Unescape(Escape(s, mode), mode) == s
  {
    if s != [] {
      UnescapeEscape(s[1..], mode);
      UnescapeChar(s[0], Escape(s[1..], mode), mode);
      assert [s[0]] + s[1..] == s;
    }
  }

  /** Decoding one replacement followed by any escaped text gives back its character first. */
  lemma UnescapeChar(c: char, tail: string, mode: QuoteMode)
    ensures Unescape(EscapeChar(c, mode) + tail, mode) == [c] + Unescape(tail, mode)
  {
    var t := EscapeChar(c, mode) + tail;
    if c == '&' {
      assert "&amp;" <= t && t[5..] == tail;
    } else if c == '<' {
      assert !("&amp;" <= t) by { assert t[1] == 'l'; }
      assert "&lt;" <= t && t[4..] == tail;
    } else if c == '>' {
      assert !("&amp;" <= t) by { assert t[1] == 'g'; }
      assert !("&lt;" <= t) by { assert t[1] == 'g'; }
      assert "&gt;" <= t && t[4..] == tail;
    } else if c == '"' {
      assert !("&amp;" <= t) && !("&lt;" <= t) && !("&gt;" <= t) by { assert t[1] == 'q'; }
      assert "&quot;" <= t && t[6..] == tail;
    } else if c == '\'' && mode == Quotes {
      assert !("&amp;" <= t) && !("&lt;" <= t) && !("&gt;" <= t) && !("&quot;" <= t) by { assert t[1] == 'a' && t[2] == 'p'; }
      assert "&apos;" <= t && t[6..] == tail;
    } else {
      assert t[0] == c && c != '&' && t[1..] == tail;
    }
  }

  /** Different texts never escape to the same output. */
  lemma EscapeInjective(a: string, b: string, mode: QuoteMode)
    requires Escape(a, mode) == Escape(b, mode)
    ensures a == b
  {
    UnescapeEscape(a, mode);
    UnescapeEscape(b, mode);
  }

  /** Escaping is not idempotent: a second pass re-encodes the ampersand of every entity. */
  lemma EscapeTwiceDiffers()
    ensures Escape(Escape("&", Compat), Compat) != Escape("&", Compat)
  {
    assert Escape("&", Compat) == "&amp;";
    assert |Escape(Escape("&", Compat), Compat)| >= 5;
    assert Escape("&amp;", Compat)[..5] == "&amp;";
    assert Escape("&amp;", Compat)[5] == 'a';
  }

  /** Without apostrophes the two quote modes escape identically. */
  lemma {:induction false} EscapeModesAgree(s: string)
    requires forall i :: 0 <= i < |s| ==> s[i] != '\''
    ensures Escape(s, Compat) == Escape(s, Quotes)
  {
    if s != [] {
      EscapeModesAgree(s[1..]);
    }
  }
}
