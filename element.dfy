/**
 * An HTML element as a value tree and its rendering (classes/Element.php).
 * An element has a tag name, an attribute array and optional content: a single
 * text, or a list of texts and nested elements. Text is escaped with ENT_COMPAT;
 * nested elements are inserted as their own rendering, never escaped again.
 */
module Elements {
  import opened Escaping
  import opened Attributes

  datatype Node = TextNode(text: string) | ElementNode(element: Element)

  /** `null`, a string, or an array of strings and elements. */
  datatype Content = Absent | Single(text: string) | Items(items: seq<Node>)

  datatype Element = Element(name: string, attributes: AttrList, content: Content)

  /** One attribute prefixed by a space: a flag bare, a keyed entry as `key="escaped value"`. */
  function AttributeText(x: Attr): (r: string)
    ensures 0 < |r| && r[0] == ' '
  {
    match x
    case Flag(t) => " " + t
    case Keyed(k, v) => " " + k + "=\"" + Escape(v, Compat) + "\""
  }

  /** `attributes()`: every entry in array order. */
  function AttributesText(a: seq<Attr>): string {
    if a == [] then "" else AttributeText(a[0]) + AttributesText(a[1..])
  }

  /** `open()` */
  function Open(e: Element): string {
    "<" + e.name + AttributesText(e.attributes) + ">"
  }

  /** `close()` */
  function Close(e: Element): string {
    "</" + e.name + ">"
  }

  /** `(string) $element`, that is `__toString()`: the open tag alone when there is no content. */
  function Render(e: Element): string
    decreases e
  {
    if e.content.Absent? then Open(e) else Open(e) + ContentText(e) + Close(e)
  }

  /** `content()`: a text escaped, a nested element rendered, in list order. */
  function ContentText(e: Element): string
    decreases e, 0
  {
    match e.content
    case Absent => ""
    case Single(s) => Escape(s, Compat)
    case Items(xs) => NodesText(xs)
  }

  function NodesText(xs: seq<Node>): string
    decreases xs
  {
    if xs == [] then "" else NodeText(xs[0]) + NodesText(xs[1..])
  }

  function NodeText(n: Node): string
    decreases n
  {
    match n
    case TextNode(s) => Escape(s, Compat)
    case ElementNode(c) => Render(c)
  }

  // ---------------------------------------------------------------------
  // Shape of the output

  /** Attributes render in insertion order: the rendering of a concatenation is the concatenation. */
  lemma {:induction false} AttributesAppend(a: seq<Attr>, b: seq<Attr>)
    ensures AttributesText(a + b) == AttributesText(a) + AttributesText(b)
  {
    if a == [] {
      assert a + b == b;
    } else {
      assert (a + b)[0] == a[0] && (a + b)[1..] == a[1..] + b;
      AttributesAppend(a[1..], b);
    }
  }

  /** Content items render in list order. */
  lemma {:induction false} NodesAppend(xs: seq<Node>, ys: seq<Node>)
    ensures NodesText(xs + ys) == NodesText(xs) + NodesText(ys)
  {
    if xs == [] {
      assert xs + ys == ys;
    } else {
      assert (xs + ys)[0] == xs[0] && (xs + ys)[1..] == xs[1..] + ys;
      NodesAppend(xs[1..], ys);
    }
  }

  /** A list of nodes renders as the concatenation of each node's own rendering. */
  lemma {:induction false} NodesTextAt(xs: seq<Node>, i: nat)
    requires i < |xs|
    ensures NodesText(xs) == NodesText(xs[..i]) + NodeText(xs[i]) + NodesText(xs[i + 1..])
  {
    assert xs == xs[..i] + [xs[i]] + xs[i + 1..];
    NodesAppend(xs[..i] + [xs[i]], xs[i + 1..]);
    NodesAppend(xs[..i], [xs[i]]);
    assert NodesText([xs[i]]) == NodeText(xs[i]) + NodesText([]);
  }

  /** With no attributes and no content an element renders as `<name>` and nothing else. */
  lemma RenderBare(name: string)
    ensures Render(Element(name, [], Absent)) == "<" + name + ">"
  {
  }

  /** An element with content starts with its open tag and ends with `</name>`. */
  lemma RenderWithContent(e: Element)
    requires !e.content.Absent?
    ensures Open(e) <= Render(e)
    ensures Render(e)[|Render(e)| - |Close(e)|..] == "</" + e.name + ">"
  {
    var r := Render(e);
    assert r == Open(e) + ContentText(e) + Close(e);
    assert r[..|Open(e)|] == Open(e);
  }

  // ---------------------------------------------------------------------
  // Escaped text never forms markup

  /** How many times c occurs in s. */
  function Occurrences(s: string, c: char): nat {
    if s == [] then 0 else (if s[0] == c then 1 else 0) + Occurrences(s[1..], c)
  }

  lemma {:induction false} OccurrencesAppend(a: string, b: string, c: char)
    ensures Occurrences(a + b, c) == Occurrences(a, c) + Occurrences(b, c)
  {
    if a == [] {
      assert a + b == b;
    } else {
      assert (a + b)[0] == a[0] && (a + b)[1..] == a[1..] + b;
      OccurrencesAppend(a[1..], b, c);
    }
  }

  lemma {:induction false} OccurrencesAbsent(s: string, c: char)
    requires forall i :: 0 <= i < |s| ==> s[i] != c
    ensures Occurrences(s, c) == 0
  {
    if s != [] {
      assert forall i :: 0 <= i < |s[1..]| ==> s[1..][i] == s[i + 1];
      OccurrencesAbsent(s[1..], c);
    }
  }

  predicate NoLt(s: string) {
    forall i :: 0 <= i < |s| ==> s[i] != '<'
  }

  /** Names, flags and keys are written raw, so they must not hold `<` for the count below. */
  predicate SafeAttrs(a: seq<Attr>) {
    forall i :: 0 <= i < |a| ==> match a[i] case Flag(t) => NoLt(t) case Keyed(k, _) => NoLt(k)
  }

  predicate SafeElement(e: Element)
    decreases e
  {
    NoLt(e.name) && SafeAttrs(e.attributes) && (e.content.Items? ==> SafeNodes(e.content.items))
  }

  predicate SafeNodes(xs: seq<Node>)
    decreases xs
  {
    xs != [] ==> SafeNode(xs[0]) && SafeNodes(xs[1..])
  }

  predicate SafeNode(n: Node)
    decreases n
  {
    n.ElementNode? ==> SafeElement(n.element)
  }

  /** The tags an element writes: one open tag, and a close tag when it has content. */
  function Tags(e: Element): nat
    decreases e
  {
    match e.content
    case Absent => 1
    case Single(_) => 2
    case Items(xs) => 2 + NodesTags(xs)
  }

  function NodesTags(xs: seq<Node>): nat
    decreases xs
  {
    if xs == [] then 0 else NodeTags(xs[0]) + NodesTags(xs[1..])
  }

  function NodeTags(n: Node): nat
    decreases n
  {
    match n
    case TextNode(_) => 0
    case ElementNode(c) => Tags(c)
  }

  lemma {:induction false} AttributesNoLt(a: seq<Attr>)
    requires SafeAttrs(a)
    ensures Occurrences(AttributesText(a), '<') == 0
  {
    if a != [] {
      assert SafeAttrs(a[1..]) by { assert forall i :: 0 <= i < |a[1..]| ==> a[1..][i] == a[i + 1]; }
      AttributesNoLt(a[1..]);
      AttributeNoLt(a[0]);
      OccurrencesAbsent(AttributeText(a[0]), '<');
      OccurrencesAppend(AttributeText(a[0]), AttributesText(a[1..]), '<');
    }
  }

  /** An attribute whose flag or key is free of `<` renders without one: the value is escaped. */
  lemma AttributeNoLt(x: Attr)
    requires match x case Flag(t) => NoLt(t) case Keyed(k, _) => NoLt(k)
    ensures NoLt(AttributeText(x))
  {
    var t := AttributeText(x);
    match x
    case Flag(tok) =>
      assert forall i :: 1 <= i < |t| ==> t[i] == tok[i - 1];
    case Keyed(k, v) =>
      var ev := Escape(v, Compat);
      assert t == " " + k + "=\"" + ev + "\"";
      forall i | 0 <= i < |t| ensures t[i] != '<' {
        if 1 <= i <= |k| {
          assert t[i] == k[i - 1];
        } else if |k| + 3 <= i < |k| + 3 + |ev| {
          assert t[i] == ev[i - |k| - 3];
        }
      }
  }

  /**
   * Every `<` in a rendering belongs to a tag the tree writes: text and attribute
   * values cannot inject markup, whatever characters they hold.
   */
  lemma {:induction false} RenderTagCount(e: Element)
    requires SafeElement(e)
    ensures Occurrences(Render(e), '<') == Tags(e)
    decreases e, 1
  {
    var open := Open(e);
    AttributesNoLt(e.attributes);
    OccurrencesAbsent(e.name, '<');
    OccurrencesAppend("<" + e.name, AttributesText(e.attributes), '<');
    OccurrencesAppend("<", e.name, '<');
    OccurrencesAppend("<" + e.name + AttributesText(e.attributes), ">", '<');
    assert Occurrences(open, '<') == 1;
    if !e.content.Absent? {
      ContentTagCount(e);
      OccurrencesAppend(open, ContentText(e), '<');
      OccurrencesAppend(open + ContentText(e), Close(e), '<');
      OccurrencesAppend("</", e.name, '<');
      OccurrencesAppend("</" + e.name, ">", '<');
    }
  }

  lemma {:induction false} ContentTagCount(e: Element)
    requires SafeElement(e) && !e.content.Absent?
    ensures Occurrences(ContentText(e), '<') + 2 == Tags(e)
    decreases e, 0
  {
    match e.content
    case Single(s) =>
      OccurrencesAbsent(Escape(s, Compat), '<');
    case Items(xs) =>
      NodesTagCount(xs);
  }

  lemma {:induction false} NodesTagCount(xs: seq<Node>)
    requires SafeNodes(xs)
    ensures Occurrences(NodesText(xs), '<') == NodesTags(xs)
    decreases xs
  {
    if xs != [] {
      NodeTagCount(xs[0]);
      NodesTagCount(xs[1..]);
      OccurrencesAppend(NodeText(xs[0]), NodesText(xs[1..]), '<');
    }
  }

  lemma {:induction false} NodeTagCount(n: Node)
    requires SafeNode(n)
    ensures Occurrences(NodeText(n), '<') == NodeTags(n)
    decreases n
  {
    match n
    case TextNode(s) => OccurrencesAbsent(Escape(s, Compat), '<');
    case ElementNode(c) => RenderTagCount(c);
  }
}
