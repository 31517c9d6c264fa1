/**
 * The standalone tag renderer (classes/Html.php). It escapes with ENT_QUOTES, so
 * the apostrophe is encoded too, and writes the open tag as the element name and
 * the attribute tokens joined by single spaces.
 */
module Html {
  import opened Escaping
  import opened Attributes
  import Elements

  /** One attribute token: a flag raw, a keyed entry as `key="escaped value"`. */
  function Token(x: Attr): string {
    match x
    case Flag(t) => t
    case Keyed(k, v) => KeyedToken(k, v)
  }

  /** `key="escaped value"`, what `array_walk` writes in place of a string-keyed value. */
  function KeyedToken(k: string, v: string): string {
    k + "=\"" + Escape(v, Quotes) + "\""
  }

  function Tokens(a: seq<Attr>): (r: seq<string>)
    ensures |r| == |a|
  {
    seq(|a|, i requires 0 <= i < |a| => Token(a[i]))
  }

  /** `implode($sep, $parts)` */
  function Join(parts: seq<string>, sep: string): string {
    if parts == [] then ""
    else if |parts| == 1 then parts[0]
    else parts[0] + sep + Join(parts[1..], sep)
  }

  /** Each part preceded by the separator. */
  function Prefixed(parts: seq<string>, sep: string): string {
    if parts == [] then "" else sep + parts[0] + Prefixed(parts[1..], sep)
  }

  /** `openTag($element, $attributes)` */
  function OpenTag(element: string, attrs: seq<Attr>): string {
    "<" + Join([element] + Tokens(attrs), " ") + ">"
  }

  /** `closeTag($element)` */
  function CloseTag(element: string): (r: string)
    ensures |r| == |element| + 3 && r[..2] == "</" && r[2..|r| - 1] == element && r[|r| - 1] == '>'
  {
    "</" + element + ">"
  }

  /** `tag($element, $attributes, $content)`: the content is always escaped text. */
  function Tag(element: string, attrs: seq<Attr>, content: string): string {
    OpenTag(element, attrs) + Escape(content, Quotes) + CloseTag(element)
  }

  /**
   * `openTag` as the source computes it: `array_unshift` puts the element name in
   * front of the attribute values, `array_walk` rewrites every string-keyed entry
   * in place, and `implode` joins the result with single spaces. A PHP array is a
   * value, so the array is a sequence that each step reassigns.
   */
  method BuildOpenTag(element: string, attrs: seq<Attr>) returns (r: string)
    ensures r == OpenTag(element, attrs)
  {
    var n := |attrs|;
    var parts: seq<string> := [element];
    var i := 0;
    while i < n
      invariant 0 <= i <= n && |parts| == i + 1
      invariant parts[0] == element
      invariant forall j :: 0 <= j < i ==> parts[j + 1] == ValueOf(attrs[j])
    {
      parts := parts + [ValueOf(attrs[i])];
      i := i + 1;
    }
    i := 0;
    while i < n
      invariant 0 <= i <= n && |parts| == n + 1
      invariant parts[0] == element
      invariant forall j :: 0 <= j < i ==> parts[j + 1] == Token(attrs[j])
      invariant forall j :: i <= j < n ==> parts[j + 1] == ValueOf(attrs[j])
    {
      if attrs[i].Keyed? {
        parts := parts[i + 1 := KeyedToken(attrs[i].key, parts[i + 1])];
      }
      i := i + 1;
    }
    PartsAreTokens(element, attrs, parts);
    r := "<" + Join(parts, " ") + ">";
  }

  /** The walked array is the element name followed by one token per attribute. */
  lemma PartsAreTokens(element: string, attrs: seq<Attr>, parts: seq<string>)
    requires |parts| == |attrs| + 1 && parts[0] == element
    requires forall j :: 0 <= j < |attrs| ==> parts[j + 1] == Token(attrs[j])
    ensures parts == [element] + Tokens(attrs)
  {
  }

  // ---------------------------------------------------------------------
  // Shape of the open tag

  /** Joining a head and a tail: every later part is preceded by exactly one separator. */
  lemma {:induction false} JoinCons(x: string, ys: seq<string>, sep: string)
    ensures Join([x] + ys, sep) == x + Prefixed(ys, sep)
    decreases |ys|
  {
    if ys != [] {
      JoinCons(ys[0], ys[1..], sep);
      assert [ys[0]] + ys[1..] == ys;
      assert ([x] + ys)[1..] == ys;
    }
  }

  /** The open tag is `<`, the name, each token after one space, then `>`: no trailing space. */
  lemma OpenTagSpaced(element: string, attrs: seq<Attr>)
    ensures OpenTag(element, attrs) == "<" + element + Prefixed(Tokens(attrs), " ") + ">"
  {
    JoinCons(element, Tokens(attrs), " ");
  }

  /** With no attributes the open tag is exactly `<element>`. */
  lemma OpenTagNoAttributes(element: string)
    ensures OpenTag(element, []) == "<" + element + ">"
  {
    OpenTagSpaced(element, []);
  }

  predicate NoApostrophe(s: string) {
    forall j :: 0 <= j < |s| ==> s[j] != '\''
  }

  predicate NoApostropheValues(attrs: seq<Attr>) {
    forall i :: 0 <= i < |attrs| ==> attrs[i].Keyed? ==> NoApostrophe(attrs[i].val)
  }

  /** Where no value holds an apostrophe, the two renderers write the same attributes. */
  lemma {:induction false} TokensMatchElement(attrs: seq<Attr>)
    requires NoApostropheValues(attrs)
    ensures Prefixed(Tokens(attrs), " ") == Elements.AttributesText(attrs)
  {
    if attrs != [] {
      assert Tokens(attrs)[1..] == Tokens(attrs[1..]);
      assert NoApostropheValues(attrs[1..]) by {
        forall i | 0 <= i < |attrs[1..]| ensures attrs[1..][i].Keyed? ==> NoApostrophe(attrs[1..][i].val) {
          assert attrs[1..][i] == attrs[i + 1];
        }
      }
      TokensMatchElement(attrs[1..]);
      TokenMatchesElement(attrs[0]);
      var t := Tokens(attrs);
      calc {
        Prefixed(t, " ");
        " " + t[0] + Prefixed(t[1..], " ");
        Elements.AttributeText(attrs[0]) + Elements.AttributesText(attrs[1..]);
      }
    }
  }

  lemma TokenMatchesElement(x: Attr)
    requires x.Keyed? ==> NoApostrophe(x.val)
    ensures " " + Token(x) == Elements.AttributeText(x)
  {
    if x.Keyed? {
      EscapeModesAgree(x.val);
      var k, e := x.key, Escape(x.val, Quotes);
      assert " " + (k + "=\"" + e + "\"") == " " + k + "=\"" + e + "\"";
    }
  }

  /**
   * `Html::openTag` agrees with `Element::open` for an element without content,
   * unless an attribute value holds an apostrophe (only `Html` encodes it).
   */
  lemma OpenTagMatchesElement(element: string, attrs: AttrList)
    requires NoApostropheValues(attrs)
    ensures OpenTag(element, attrs) == Elements.Open(Elements.Element(element, attrs, Elements.Absent))
  {
    OpenTagSpaced(element, attrs);
    TokensMatchElement(attrs);
  }

  /** `Html::tag` agrees with rendering an `Element` with the same text, apostrophes aside. */
  lemma TagMatchesElement(element: string, attrs: AttrList, content: string)
    requires NoApostropheValues(attrs)
    requires NoApostrophe(content)
    ensures Tag(element, attrs, content) == Elements.Render(Elements.Element(element, attrs, Elements.Single(content)))
  {
    OpenTagMatchesElement(element, attrs);
    EscapeModesAgree(content);
  }

  /**
   * The content of `tag` is text, never markup: with a name and tokens free of `<`,
   * the output holds exactly two `<`, those of the open and the close tag.
   */
  lemma TagIsTwoTags(element: string, attrs: seq<Attr>, content: string)
    requires Elements.NoLt(element) && Elements.SafeAttrs(attrs)
    ensures Elements.Occurrences(Tag(element, attrs, content), '<') == 2
  {
    var open := OpenTag(element, attrs);
    OpenTagSpaced(element, attrs);
    TokensCountLt(attrs);
    Elements.OccurrencesAbsent(element, '<');
    Elements.OccurrencesAppend("<" + element, Prefixed(Tokens(attrs), " "), '<');
    Elements.OccurrencesAppend("<", element, '<');
    Elements.OccurrencesAppend("<" + element + Prefixed(Tokens(attrs), " "), ">", '<');
    Elements.OccurrencesAbsent(Escape(content, Quotes), '<');
    Elements.OccurrencesAppend(open, Escape(content, Quotes), '<');
    Elements.OccurrencesAppend(open + Escape(content, Quotes), CloseTag(element), '<');
    Elements.OccurrencesAppend("</", element, '<');
    Elements.OccurrencesAppend("</" + element, ">", '<');
  }

  lemma TokensCountLt(attrs: seq<Attr>)
    requires Elements.SafeAttrs(attrs)
    ensures Elements.Occurrences(Prefixed(Tokens(attrs), " "), '<') == 0
  {
    forall i | 0 <= i < |attrs| ensures Elements.NoLt(Tokens(attrs)[i]) {
      TokenNoLt(attrs[i]);
    }
    PrefixedNoLt(Tokens(attrs), " ");
  }

  /** A token whose flag or key is free of `<` holds none: escaping removes it from the value. */
  lemma TokenNoLt(x: Attr)
    requires match x case Flag(t) => Elements.NoLt(t) case Keyed(k, _) => Elements.NoLt(k)
    ensures Elements.NoLt(Token(x))
  {
    if x.Keyed? {
      var t, k, ev := Token(x), x.key, Escape(x.val, Quotes);
      assert t == k + "=\"" + ev + "\"";
      forall i | 0 <= i < |t| ensures t[i] != '<' {
        if i < |k| {
          assert t[i] == k[i];
        } else if |k| + 2 <= i < |k| + 2 + |ev| {
          assert t[i] == ev[i - |k| - 2];
        }
      }
    }
  }

  /** Parts and a separator free of `<` give a joined text free of `<`. */
  lemma {:induction false} PrefixedNoLt(parts: seq<string>, sep: string)
    requires Elements.NoLt(sep)
    requires forall i :: 0 <= i < |parts| ==> Elements.NoLt(parts[i])
    ensures Elements.Occurrences(Prefixed(parts, sep), '<') == 0
  {
    if parts != [] {
      PrefixedNoLt(parts[1..], sep);
      assert Elements.NoLt(parts[0]);
      Elements.OccurrencesAbsent(sep, '<');
      Elements.OccurrencesAbsent(parts[0], '<');
      Elements.OccurrencesAppend(sep, parts[0], '<');
      Elements.OccurrencesAppend(sep + parts[0], Prefixed(parts[1..], sep), '<');
    }
  }
}
