/**
 * The form builder (classes/Form.php). A form is a snapshot of field captions,
 * submitted values and validation errors, fixed when it is constructed; every
 * builder is a function of that snapshot that returns an `Element`.
 *
 * Submitted values are strings, or lists of strings as a multi-select submits
 * them; they are compared with plain equality.
 */
module Forms {
  import opened Options
  import opened Escaping
  import opened Attributes
  import opened Elements

  /** A submitted value: one text, or several (a multi-select). */
  datatype Value = Scalar(text: string) | Several(items: seq<string>)

  /** One `key => text` entry of a PHP array of strings: an error message, or a select option. */
  datatype Entry = Entry(key: string, text: string)

  datatype Form = Form(captions: map<string, string>, values: map<string, Value>, errors: seq<Entry>)

  /** The placeholder in an error message that stands for the field's caption. */
  const FieldToken := ":field"

  // ---------------------------------------------------------------------
  // Construction: caption substitution in error messages

  /** pat occurs in s at position i. */
  predicate MatchAt(s: string, pat: string, i: nat) {
    i + |pat| <= |s| && s[i..i + |pat|] == pat
  }

  /** pat occurs somewhere in s. */
  predicate Contains(s: string, pat: string) {
    exists i: nat :: i <= |s| && MatchAt(s, pat, i)
  }

  /** `str_replace($pat, $rep, $s)`: every occurrence of pat, scanning left to right, becomes rep. */
  function Replace(s: string, pat: string, rep: string): string
    decreases |s|
  {
    if pat == [] || |s| < |pat| then s
    else if s[..|pat|] == pat then rep + Replace(s[|pat|..], pat, rep)
    else [s[0]] + Replace(s[1..], pat, rep)
  }

  /** Replacing a pattern by itself changes nothing. */
  lemma {:induction false} ReplaceSelf(s: string, pat: string)
    ensures Replace(s, pat, pat) == s
    decreases |s|
  {
    if pat != [] && |s| >= |pat| {
      if s[..|pat|] == pat {
        ReplaceSelf(s[|pat|..], pat);
        assert pat + s[|pat|..] == s;
      } else {
        ReplaceSelf(s[1..], pat);
        assert [s[0]] + s[1..] == s;
      }
    }
  }

  /** A text without the pattern comes out unchanged. */
  lemma {:induction false} ReplaceAbsent(s: string, pat: string, rep: string)
    requires !Contains(s, pat)
    ensures Replace(s, pat, rep) == s
    decreases |s|
  {
    if pat != [] && |s| >= |pat| {
      assert !MatchAt(s, pat, 0);
      assert s[0..|pat|] == s[..|pat|];
      forall i: nat | i <= |s[1..]| ensures !MatchAt(s[1..], pat, i) {
        if MatchAt(s[1..], pat, i) {
          assert s[1..][i..i + |pat|] == s[i + 1..i + 1 + |pat|];
          assert MatchAt(s, pat, i + 1);
        }
      }
      ReplaceAbsent(s[1..], pat, rep);
      assert [s[0]] + s[1..] == s;
    }
  }

  /** A text that starts with the pattern starts with the replacement. */
  lemma ReplaceLeading(pat: string, rest: string, rep: string)
    requires pat != []
    ensures Replace(pat + rest, pat, rep) == rep + Replace(rest, pat, rep)
  {
    assert (pat + rest)[..|pat|] == pat;
    assert (pat + rest)[|pat|..] == rest;
  }

  /** The message of one error once its field's caption is substituted; with no caption `:field` stays. */
  function Describe(captions: map<string, string>, e: Entry): Entry {
    Entry(e.key, Replace(e.text, FieldToken, if e.key in captions then captions[e.key] else FieldToken))
  }

  /** `new Form($captions, $values, $errors)` */
  function NewForm(captions: map<string, string>, values: map<string, Value>, errors: seq<Entry>): (f: Form)
    ensures f.captions == captions && f.values == values
    ensures |f.errors| == |errors|
    ensures forall i :: 0 <= i < |errors| ==> f.errors[i].key == errors[i].key
  {
    Form(captions, values, seq(|errors|, i requires 0 <= i < |errors| => Describe(captions, errors[i])))
  }

  /**
   * Each error keeps its field and its place; its message has every `:field`
   * replaced by the field's caption, and is unchanged when the field has no caption
   * or the message names no field.
   */
  lemma NewFormMessages(captions: map<string, string>, values: map<string, Value>, errors: seq<Entry>, i: nat)
    requires i < |errors|
    ensures NewForm(captions, values, errors).errors[i].key == errors[i].key
    ensures errors[i].key in captions ==>
      NewForm(captions, values, errors).errors[i].text == Replace(errors[i].text, FieldToken, captions[errors[i].key])
    ensures errors[i].key !in captions ==> NewForm(captions, values, errors).errors[i].text == errors[i].text
    ensures !Contains(errors[i].text, FieldToken) ==> NewForm(captions, values, errors).errors[i].text == errors[i].text
  {
    ReplaceSelf(errors[i].text, FieldToken);
    if !Contains(errors[i].text, FieldToken) {
      var c := if errors[i].key in captions then captions[errors[i].key] else FieldToken;
      ReplaceAbsent(errors[i].text, FieldToken, c);
    }
  }

  // ---------------------------------------------------------------------
  // Getters

  /** `caption($name)`: the stored caption, or the field name itself. */
  function Caption(f: Form, name: string): (r: string)
    ensures name in f.captions ==> r == f.captions[name]
    ensures name !in f.captions ==> r == name
  {
    if name in f.captions then f.captions[name] else name
  }

  /** `value($name)`: the submitted value, or null. */
  function StoredValue(f: Form, name: string): (r: Option<Value>)
    ensures r.Some? <==> name in f.values
    ensures r.Some? ==> r.value == f.values[name]
  {
    if name in f.values then Some(f.values[name]) else None
  }

  /** `error($name)`: the (substituted) error message of a field, or null. */
  function Error(f: Form, name: string): (r: Option<string>)
    ensures r.Some? <==> exists i :: 0 <= i < |f.errors| && f.errors[i].key == name
    ensures r.Some? ==> exists i :: 0 <= i < |f.errors| && f.errors[i] == Entry(name, r.value)
  {
    FindEntry(f.errors, name)
  }

  function FindEntry(es: seq<Entry>, name: string): (r: Option<string>)
    ensures r.Some? <==> exists i :: 0 <= i < |es| && es[i].key == name
    ensures r.Some? ==> exists i :: 0 <= i < |es| && es[i] == Entry(name, r.value)
  {
    if es == [] then None
    else if es[0].key == name then Some(es[0].text)
    else
      var r := FindEntry(es[1..], name);
      assert forall i :: 0 <= i < |es[1..]| ==> es[1..][i] == es[i + 1];
      assert (exists i :: 0 <= i < |es| && es[i].key == name) ==> exists i :: 0 <= i < |es[1..]| && es[1..][i].key == name by {
        if exists i :: 0 <= i < |es| && es[i].key == name {
          var i :| 0 <= i < |es| && es[i].key == name;
          assert es[1..][i - 1].key == name;
        }
      }
      r
  }

  // ---------------------------------------------------------------------
  // Error list, form tags, label

  /** `errorList($attributes)`: null without errors, else a `<ul>` with one `<li>` per message. */
  function ErrorList(f: Form, attrs: AttrList): (r: Option<Element>)
    ensures r.None? <==> f.errors == []
    ensures r.Some? ==> r.value.name == "ul" && r.value.attributes == attrs && r.value.content.Items?
    ensures r.Some? ==> |r.value.content.items| == |f.errors|
    ensures r.Some? ==> forall i :: 0 <= i < |f.errors| ==>
      r.value.content.items[i] == ElementNode(Element("li", [], Single(f.errors[i].text)))
  {
    if f.errors == [] then None
    else Some(Element("ul", attrs, Items(ListItems(f.errors))))
  }

  function ListItems(es: seq<Entry>): (r: seq<Node>)
    ensures |r| == |es|
  {
    seq(|es|, i requires 0 <= i < |es| => ElementNode(Element("li", [], Single(es[i].text))))
  }

  /** The markup of a message list, written out independently: `<li>escaped</li>` per message. */
  function ListMarkup(es: seq<Entry>): string {
    if es == [] then "" else "<li>" + Escape(es[0].text, Compat) + "</li>" + ListMarkup(es[1..])
  }

  /** The error list renders as `<ul…>`, one `<li>` per message in error order, then `</ul>`. */
  lemma ErrorListRender(f: Form, attrs: AttrList)
    requires f.errors != []
    ensures Render(ErrorList(f, attrs).value) == Open(Element("ul", attrs, Absent)) + ListMarkup(f.errors) + "</ul>"
  {
    ListItemsRender(f.errors);
  }

  lemma {:induction false} ListItemsRender(es: seq<Entry>)
    ensures NodesText(ListItems(es)) == ListMarkup(es)
  {
    if es != [] {
      var xs := ListItems(es);
      assert xs[1..] == ListItems(es[1..]);
      ListItemsRender(es[1..]);
      var li := Element("li", [], Single(es[0].text));
      assert xs[0] == ElementNode(li);
      assert "<" + "li" + "" + ">" == "<li>" && "</" + "li" + ">" == "</li>";
      assert Open(li) == "<li>" && Close(li) == "</li>";
      assert NodesText(xs) == Render(li) + NodesText(xs[1..]);
    }
  }

  /** `open($attributes)`: the `<form…>` open tag. */
  function OpenForm(attrs: AttrList): (r: string)
    ensures attrs == [] ==> r == "<form>"
    ensures r == "<form" + AttributesText(attrs) + ">"
  {
    var a := AttributesText(attrs);
    assert "<" + "form" + a + ">" == "<form" + a + ">";
    Open(Element("form", attrs, Absent))
  }

  /** `close()` */
  function CloseForm(): (r: string)
    ensures r == Close(Element("form", [], Absent))
  {
    "</form>"
  }

  /** `label($name, $attributes)`: the caption (or the name) as the label's text. */
  function Label(f: Form, name: string, attrs: AttrList): (r: Element)
    ensures r.name == "label" && r.attributes == attrs
    ensures r.content == Single(if name in f.captions then f.captions[name] else name)
  {
    Element("label", attrs, Single(Caption(f, name)))
  }

  // ---------------------------------------------------------------------
  // Inputs

  /** Input types whose stored value is never written back: `file`, `image`, `password`. */
  predicate Unfilled(kind: string) {
    kind == "file" || kind == "image" || kind == "password"
  }

  /** Whether `input` injects the stored value: the caller gave none, one is stored, the type allows it. */
  predicate Fills(f: Form, kind: string, name: string, attrs: AttrList) {
    !HasKey(attrs, "value") && name in f.values && f.values[name].Scalar? && !Unfilled(kind)
  }

  /** `['type' => $type, 'name' => $name]`, plus the stored value when it is injected. */
  function InputBase(f: Form, kind: string, name: string, attrs: AttrList): (r: AttrList)
    ensures Lookup(r, "type") == Some(kind) && Lookup(r, "name") == Some(name)
    ensures Lookup(r, "value") == if Fills(f, kind, name, attrs) then Some(f.values[name].text) else None
    ensures forall k :: k != "type" && k != "name" && k != "value" ==> !HasKey(r, k)
    ensures forall t :: FlagCount(r, t) == 0
    ensures |r| >= 2 && r[0] == Keyed("type", kind) && r[1] == Keyed("name", name)
    ensures Fills(f, kind, name, attrs) ==> |r| == 3 && r[2] == Keyed("value", f.values[name].text)
  {
    if Fills(f, kind, name, attrs) then
      var r: AttrList := [Keyed("type", kind), Keyed("name", name), Keyed("value", f.values[name].text)];
      PositionUnique(r, "type", 0);
      PositionUnique(r, "name", 1);
      PositionUnique(r, "value", 2);
      KeyedFlagCount(r);
      r
    else
      var r: AttrList := [Keyed("type", kind), Keyed("name", name)];
      PositionUnique(r, "type", 0);
      PositionUnique(r, "name", 1);
      KeyedFlagCount(r);
      r
  }

  /** Every key's value and every flag's count after `array_merge($a, $b)`. */
  lemma MergeAll(a: AttrList, b: AttrList)
    ensures forall k :: Lookup(Merge(a, b), k) == if HasKey(b, k) then Lookup(b, k) else Lookup(a, k)
    ensures forall t :: FlagCount(Merge(a, b), t) == FlagCount(a, t) + FlagCount(b, t)
  {
    forall k ensures Lookup(Merge(a, b), k) == if HasKey(b, k) then Lookup(b, k) else Lookup(a, k) {
      MergeLookup(a, b, k);
    }
    forall t ensures FlagCount(Merge(a, b), t) == FlagCount(a, t) + FlagCount(b, t) {
      MergeFlagCount(a, b, t);
    }
  }

  /**
   * `input($type, $name, $attributes)`: `type` and `name` come first; the stored
   * value is injected only when the caller gave no `value`, one is stored, and the
   * type is not file, image or password; the caller's attributes are merged last,
   * so a caller's key overrides in place.
   */
  function Input(f: Form, kind: string, name: string, attrs: AttrList): (r: Element)
    ensures r.name == "input" && r.content == Absent && |r.attributes| >= 2
    ensures r.attributes[0].Keyed? && r.attributes[0].key == "type"
    ensures r.attributes[1].Keyed? && r.attributes[1].key == "name"
    ensures Lookup(r.attributes, "type") == Some(Lookup(attrs, "type").GetOr(kind))
    ensures Lookup(r.attributes, "name") == Some(Lookup(attrs, "name").GetOr(name))
    ensures Lookup(r.attributes, "value") ==
      if HasKey(attrs, "value") then Lookup(attrs, "value")
      else if name in f.values && f.values[name].Scalar? && !Unfilled(kind) then Some(f.values[name].text)
      else None
    ensures forall k :: k != "type" && k != "name" && k != "value" ==> Lookup(r.attributes, k) == Lookup(attrs, k)
    ensures forall t :: FlagCount(r.attributes, t) == FlagCount(attrs, t)
  {
    InputMerge(f, kind, name, attrs);
    Element("input", Merge(InputBase(f, kind, name, attrs), attrs), Absent)
  }

  /** The merged attributes of `input`: every key and flag as `input` promises. */
  lemma InputMerge(f: Form, kind: string, name: string, attrs: AttrList)
    ensures var r := Merge(InputBase(f, kind, name, attrs), attrs);
      && |r| >= 2
      && r[0].Keyed? && r[0].key == "type" && r[1].Keyed? && r[1].key == "name"
      && Lookup(r, "type") == Some(Lookup(attrs, "type").GetOr(kind))
      && Lookup(r, "name") == Some(Lookup(attrs, "name").GetOr(name))
      && Lookup(r, "value") ==
           (if HasKey(attrs, "value") then Lookup(attrs, "value")
            else if name in f.values && f.values[name].Scalar? && !Unfilled(kind) then Some(f.values[name].text)
            else None)
      && (forall k :: k != "type" && k != "name" && k != "value" ==> Lookup(r, k) == Lookup(attrs, k))
      && (forall t :: FlagCount(r, t) == FlagCount(attrs, t))
  {
    var base := InputBase(f, kind, name, attrs);
    MergeAll(base, attrs);
    InputSlots(base, attrs);
  }

  /** The first two slots of the base keep their keys after the caller's attributes are merged. */
  lemma InputSlots(base: AttrList, attrs: AttrList)
    requires |base| >= 2 && base[0].Keyed? && base[0].key == "type" && base[1].Keyed? && base[1].key == "name"
    ensures var r := Merge(base, attrs);
      |r| >= 2 && r[0].Keyed? && r[0].key == "type" && r[1].Keyed? && r[1].key == "name"
  {
    MergeKeepsSlots(base, attrs, 0);
    MergeKeepsSlots(base, attrs, 1);
  }

  /** With no `type`, `name` or `value` of the caller's, the attributes are exactly type, name, the injected value, then the caller's in order. */
  lemma InputOrder(f: Form, kind: string, name: string, attrs: AttrList)
    requires !HasKey(attrs, "type") && !HasKey(attrs, "name") && !HasKey(attrs, "value")
    ensures Input(f, kind, name, attrs).attributes ==
      [Keyed("type", kind), Keyed("name", name)]
      + (if name in f.values && f.values[name].Scalar? && !Unfilled(kind) then [Keyed("value", f.values[name].text)] else [])
      + attrs
  {
    var base := InputBase(f, kind, name, attrs);
    forall i | 0 <= i < |attrs| && attrs[i].Keyed? ensures !HasKey(base, attrs[i].key) {
      var k := attrs[i].key;
      assert HasKey(attrs, k);
      assert k != "type" && k != "name" && k != "value";
    }
    MergeFresh(base, attrs);
    assert base == [Keyed("type", kind), Keyed("name", name)]
      + (if name in f.values && f.values[name].Scalar? && !Unfilled(kind) then [Keyed("value", f.values[name].text)] else []);
  }

  /** `$attributes['value'] = $value`, then the `checked` flag appended when the stored value equals it. */
  function CheckedAttrs(f: Form, name: string, value: string, attrs: AttrList): AttrList {
    var a := Set(attrs, "value", value);
    if name in f.values && f.values[name] == Scalar(value) then Put(a, Flag("checked")) else a
  }

  /** The attributes checkbox and radio pass on: the given value, and `checked` last iff it is the stored value. */
  lemma CheckedAttrsFacts(f: Form, name: string, value: string, attrs: AttrList)
    ensures var c := CheckedAttrs(f, name, value, attrs);
      && Lookup(c, "value") == Some(value)
      && Lookup(c, "type") == Lookup(attrs, "type")
      && Lookup(c, "name") == Lookup(attrs, "name")
      && FlagCount(c, "checked") == FlagCount(attrs, "checked") + (if name in f.values && f.values[name] == Scalar(value) then 1 else 0)
      && (name in f.values && f.values[name] == Scalar(value) ==> c == Set(attrs, "value", value) + [Flag("checked")])
  {
    var a := Set(attrs, "value", value);
    var c := CheckedAttrs(f, name, value, attrs);
    SetLookup(attrs, "value", value, "value");
    SetLookup(attrs, "value", value, "type");
    SetLookup(attrs, "value", value, "name");
    PutFlagCount(a, Flag("checked"), "checked");
    PutFlagCount(attrs, Keyed("value", value), "checked");
    if name in f.values && f.values[name] == Scalar(value) {
      PositionUnique(c, "value", Position(a, "value").value);
      if HasKey(a, "type") {
        PositionUnique(c, "type", Position(a, "type").value);
      } else {
        assert !HasKey(c, "type");
      }
      if HasKey(a, "name") {
        PositionUnique(c, "name", Position(a, "name").value);
      } else {
        assert !HasKey(c, "name");
      }
    }
  }

  /** What checkbox and radio promise: the given value, and one more `checked` iff it is the stored value. */
  lemma CheckableFacts(f: Form, kind: string, name: string, value: string, attrs: AttrList)
    ensures Lookup(Input(f, kind, name, CheckedAttrs(f, name, value, attrs)).attributes, "value") == Some(value)
    ensures Lookup(Input(f, kind, name, CheckedAttrs(f, name, value, attrs)).attributes, "type") ==
      Some(Lookup(attrs, "type").GetOr(kind))
    ensures Lookup(Input(f, kind, name, CheckedAttrs(f, name, value, attrs)).attributes, "name") ==
      Some(Lookup(attrs, "name").GetOr(name))
    ensures FlagCount(Input(f, kind, name, CheckedAttrs(f, name, value, attrs)).attributes, "checked") ==
      FlagCount(attrs, "checked") + (if name in f.values && f.values[name] == Scalar(value) then 1 else 0)
  {
    var c := CheckedAttrs(f, name, value, attrs);
    CheckedAttrsFacts(f, name, value, attrs);
    assert HasKey(c, "value");
    assert Lookup(c, "type") == Lookup(attrs, "type");
    assert Lookup(c, "name") == Lookup(attrs, "name");
  }

  /** When the value is the stored one, `checked` is the input's last attribute. */
  lemma CheckedLast(f: Form, kind: string, name: string, value: string, attrs: AttrList)
    ensures name in f.values && f.values[name] == Scalar(value) ==>
      var r := Input(f, kind, name, CheckedAttrs(f, name, value, attrs)).attributes;
      r[|r| - 1] == Flag("checked")
  {
    if name in f.values && f.values[name] == Scalar(value) {
      CheckedAttrsFacts(f, name, value, attrs);
      var a := Set(attrs, "value", value);
      var c := CheckedAttrs(f, name, value, attrs);
      SetLookup(attrs, "value", value, "value");
      var base := InputBase(f, kind, name, c);
      assert base == InputBase(f, kind, name, a);
      MergeSnoc(base, a, Flag("checked"));
    }
  }

  /** Checkbox and radio share one body: what `input` makes of the checked attributes. */
  lemma CheckableInput(f: Form, kind: string, name: string, value: string, attrs: AttrList)
    ensures var r := Input(f, kind, name, CheckedAttrs(f, name, value, attrs));
      && r.name == "input" && r.content == Absent
      && Lookup(r.attributes, "type") == Some(Lookup(attrs, "type").GetOr(kind))
      && Lookup(r.attributes, "name") == Some(Lookup(attrs, "name").GetOr(name))
      && Lookup(r.attributes, "value") == Some(value)
      && FlagCount(r.attributes, "checked") ==
           FlagCount(attrs, "checked") + (if name in f.values && f.values[name] == Scalar(value) then 1 else 0)
      && (name in f.values && f.values[name] == Scalar(value) ==> r.attributes[|r.attributes| - 1] == Flag("checked"))
  {
    CheckableFacts(f, kind, name, value, attrs);
    CheckedLast(f, kind, name, value, attrs);
  }

  /** `checkbox($name, $value, $attributes)` */
  function Checkbox(f: Form, name: string, value: string, attrs: AttrList): (r: Element)
    ensures r.name == "input" && r.content == Absent
    ensures Lookup(r.attributes, "type") == Some(Lookup(attrs, "type").GetOr("checkbox"))
    ensures Lookup(r.attributes, "name") == Some(Lookup(attrs, "name").GetOr(name))
    ensures Lookup(r.attributes, "value") == Some(value)
    ensures FlagCount(r.attributes, "checked") ==
      FlagCount(attrs, "checked") + (if name in f.values && f.values[name] == Scalar(value) then 1 else 0)
    ensures name in f.values && f.values[name] == Scalar(value) ==> r.attributes[|r.attributes| - 1] == Flag("checked")
  {
    var c := CheckedAttrs(f, name, value, attrs);
    CheckableInput(f, "checkbox", name, value, attrs);
    Input(f, "checkbox", name, c)
  }

  /** `radio($name, $value, $attributes)` */
  function Radio(f: Form, name: string, value: string, attrs: AttrList): (r: Element)
    ensures r.name == "input" && r.content == Absent
    ensures Lookup(r.attributes, "type") == Some(Lookup(attrs, "type").GetOr("radio"))
    ensures Lookup(r.attributes, "name") == Some(Lookup(attrs, "name").GetOr(name))
    ensures Lookup(r.attributes, "value") == Some(value)
    ensures FlagCount(r.attributes, "checked") ==
      FlagCount(attrs, "checked") + (if name in f.values && f.values[name] == Scalar(value) then 1 else 0)
    ensures name in f.values && f.values[name] == Scalar(value) ==> r.attributes[|r.attributes| - 1] == Flag("checked")
  {
    var c := CheckedAttrs(f, name, value, attrs);
    CheckableInput(f, "radio", name, value, attrs);
    Input(f, "radio", name, c)
  }

  /** The single-purpose input builders, one per HTML input type. */
  datatype InputKind =
    | Color | Date | DatetimeLocal | Email | File | Hidden | Image | Month | Number
    | Password | Range | Search | Tel | Text | Time | Url | Week

  function TypeName(kind: InputKind): string {
    match kind
    case Color => "color"
    case Date => "date"
    case DatetimeLocal => "datetime-local"
    case Email => "email"
    case File => "file"
    case Hidden => "hidden"
    case Image => "image"
    case Month => "month"
    case Number => "number"
    case Password => "password"
    case Range => "range"
    case Search => "search"
    case Tel => "tel"
    case Text => "text"
    case Time => "time"
    case Url => "url"
    case Week => "week"
  }

  /** The validation pattern the date-like builders force. */
  function FixedPattern(kind: InputKind): Option<string> {
    match kind
    case Date => Some("[0-9]{4}-[0-9]{2}-[0-9]{2}")
    case Month => Some("[0-9]{4}-[0-9]{2}")
    case Time => Some("[0-9]{2}:[0-9]{2}")
    case Week => Some("[0-9]{4}-W[0-9]{2}")
    case _ => None
  }

  /**
   * `color`, `date`, … `week` (`$name`, `$attributes`): `input` with the builder's
   * type; `date`, `month`, `time` and `week` first set `pattern`, overwriting the
   * caller's.
   */
  function FieldInput(f: Form, kind: InputKind, name: string, attrs: AttrList): (r: Element)
    ensures r.name == "input" && r.content == Absent
    ensures Lookup(r.attributes, "type") == Some(Lookup(attrs, "type").GetOr(TypeName(kind)))
    ensures Lookup(r.attributes, "name") == Some(Lookup(attrs, "name").GetOr(name))
    ensures Lookup(r.attributes, "value") ==
      if HasKey(attrs, "value") then Lookup(attrs, "value")
      else if name in f.values && f.values[name].Scalar? && !Unfilled(TypeName(kind)) then Some(f.values[name].text)
      else None
    ensures forall k :: k != "type" && k != "name" && k != "value" && k != "pattern" ==>
      Lookup(r.attributes, k) == Lookup(attrs, k)
    ensures FixedPattern(kind).Some? ==> Lookup(r.attributes, "pattern") == FixedPattern(kind)
    ensures FixedPattern(kind).None? ==> r == Input(f, TypeName(kind), name, attrs)
    ensures FixedPattern(kind).Some? && !HasKey(attrs, "pattern") ==>
      r.attributes[|r.attributes| - 1] == Keyed("pattern", FixedPattern(kind).value)
  {
    match FixedPattern(kind)
    case None => Input(f, TypeName(kind), name, attrs)
    case Some(p) =>
      PatternedInput(f, TypeName(kind), name, attrs, p);
      SetLookup(attrs, "pattern", p, "name");
      SetLookup(attrs, "pattern", p, "value");
      forall k | k != "pattern" {
        SetLookup(attrs, "pattern", p, k);
      }
      Input(f, TypeName(kind), name, Set(attrs, "pattern", p))
  }

  /** `file`, `image` and `password` never write a stored value: `value` is the caller's or absent. */
  lemma UnfilledKinds(f: Form, kind: InputKind, name: string, attrs: AttrList)
    requires kind == File || kind == Image || kind == Password
    ensures Lookup(FieldInput(f, kind, name, attrs).attributes, "value") == Lookup(attrs, "value")
  {
    assert FixedPattern(kind).None? && Unfilled(TypeName(kind));
  }

  /** `$attributes['pattern'] = $p` before `input`: the pattern is forced, type and value are the caller's. */
  lemma PatternedInput(f: Form, kind: string, name: string, attrs: AttrList, p: string)
    ensures var r := Input(f, kind, name, Set(attrs, "pattern", p)).attributes;
      && Lookup(r, "pattern") == Some(p)
      && Lookup(r, "type") == Some(Lookup(attrs, "type").GetOr(kind))
      && (Unfilled(kind) ==> Lookup(r, "value") == Lookup(attrs, "value"))
      && (!HasKey(attrs, "pattern") ==> r[|r| - 1] == Keyed("pattern", p))
  {
    SetLookup(attrs, "pattern", p, "pattern");
    SetLookup(attrs, "pattern", p, "type");
    SetLookup(attrs, "pattern", p, "value");
    PatternLast(f, kind, name, attrs, p);
  }

  /** A pattern the caller did not give is appended, so it is the input's last attribute. */
  lemma PatternLast(f: Form, kind: string, name: string, attrs: AttrList, p: string)
    ensures !HasKey(attrs, "pattern") ==>
      var r := Input(f, kind, name, Set(attrs, "pattern", p)).attributes; r[|r| - 1] == Keyed("pattern", p)
  {
    if HasKey(attrs, "pattern") { return; }
    var a := Set(attrs, "pattern", p);
    assert a == attrs + [Keyed("pattern", p)];
    SetLookup(attrs, "pattern", p, "value");
    var base := InputBase(f, kind, name, a);
    assert base == InputBase(f, kind, name, attrs);
    MergeSnoc(base, attrs, Keyed("pattern", p));
    var m := Merge(base, attrs);
    MergeLookup(base, attrs, "pattern");
    assert !HasKey(m, "pattern");
  }

  // ---------------------------------------------------------------------
  // Select lists

  /** `option($label, $value, $attributes)`: `value` first when given; no close tag without a label. */
  function OptionElement(text: Option<string>, value: Option<string>, attrs: AttrList): (r: Element)
    ensures r.name == "option"
    ensures value.Some? && !HasKey(attrs, "value") ==> r.attributes == [Keyed("value", value.value)] + attrs
    ensures value.None? ==> r.attributes == attrs
    ensures r.content == if text.Some? then Single(text.value) else Absent
  {
    var a := if value.Some? then
      var v: AttrList := [Keyed("value", value.value)];
      (if !HasKey(attrs, "value") then
         forall i | 0 <= i < |attrs| && attrs[i].Keyed? ensures !HasKey(v, attrs[i].key) {}
         MergeFresh(v, attrs);
         Merge(v, attrs)
       else Merge(v, attrs))
    else attrs;
    Element("option", a, if text.Some? then Single(text.value) else Absent)
  }

  /** A caller's own `value` overrides the given one, in the first slot; every other key is the caller's. */
  lemma OptionCallerValue(text: Option<string>, v: string, attrs: AttrList)
    requires HasKey(attrs, "value")
    ensures var a := OptionElement(text, Some(v), attrs).attributes;
      && |a| > 0 && a[0].Keyed? && a[0].key == "value"
      && forall k :: Lookup(a, k) == Lookup(attrs, k)
  {
    var base: AttrList := [Keyed("value", v)];
    MergeKeepsSlots(base, attrs, 0);
    MergeAll(base, attrs);
    assert OptionElement(text, Some(v), attrs).attributes == Merge(base, attrs);
  }

  function SelectedFlag(selected: bool): AttrList {
    if selected then [Flag("selected")] else []
  }

  /** One option of a select list, built from its key and label. */
  function OptionNode(option: Entry, selected: bool): Node {
    ElementNode(OptionElement(Some(option.text), Some(option.key), SelectedFlag(selected)))
  }

  /** The disabled, hidden, value-less first option a `placeholder` attribute asks for. */
  function PlaceholderNode(text: string, selected: bool): Node {
    var a: AttrList := SelectedFlag(selected) + [Flag("disabled"), Flag("value"), Keyed("style", "display: none;")];
    ElementNode(OptionElement(Some(text), None, a))
  }

  /** Whether a rendered option carries the `selected` flag. */
  predicate IsSelected(n: Node) {
    n.ElementNode? && HasFlag(n.element.attributes, "selected")
  }

  /** The select's own attributes: `name` first, the caller's after it, `placeholder` removed. */
  function SelectAttrs(name: string, attrs: AttrList): (r: AttrList)
    ensures 0 < |r| && r[0] == Keyed("name", Lookup(attrs, "name").GetOr(name))
    ensures !HasKey(r, "placeholder")
    ensures forall k :: k != "name" && k != "placeholder" ==> Lookup(r, k) == Lookup(attrs, k)
    ensures forall t :: FlagCount(r, t) == FlagCount(attrs, t)
  {
    var rest := Unset(attrs, "placeholder");
    var base: AttrList := [Keyed("name", name)];
    var r := Merge(base, rest);
    MergeAll(base, rest);
    MergeKeepsSlots(base, rest, 0);
    PositionUnique(base, "name", 0);
    PositionUnique(r, "name", 0);
    UnsetFlagCount(attrs, "placeholder");
    KeyedFlagCount(base);
    r
  }

  lemma UnsetFlagCount(a: AttrList, k: string)
    ensures forall t :: FlagCount(Unset(a, k), t) == FlagCount(a, t)
  {
    if HasKey(a, k) {
      var p := Position(a, k).value;
      assert a == a[..p] + [a[p]] + a[p + 1..];
      forall t ensures FlagCount(Unset(a, k), t) == FlagCount(a, t) {
        FlagCountAppend(a[..p] + [a[p]], a[p + 1..], t);
        FlagCountAppend(a[..p], [a[p]], t);
        FlagCountAppend(a[..p], a[p + 1..], t);
      }
    }
  }

  /** Where the real options start: after the placeholder, if there is one. */
  function Offset(attrs: AttrList): nat {
    if HasKey(attrs, "placeholder") then 1 else 0
  }

  /**
   * The tail `select` and `multiSelect` share: a `placeholder` attribute becomes a
   * first option, selected as asked, and leaves the attributes; then `name` is
   * merged in front of them.
   */
  function Finish(name: string, attrs: AttrList, opts: seq<Node>, placeholderSelected: bool): Element {
    var items := if HasKey(attrs, "placeholder")
      then [PlaceholderNode(Lookup(attrs, "placeholder").value, placeholderSelected)] + opts
      else opts;
    Element("select", SelectAttrs(name, attrs), Items(items))
  }

  /** The options keep their order after the placeholder, which alone is added. */
  lemma FinishShape(name: string, attrs: AttrList, opts: seq<Node>, placeholderSelected: bool)
    ensures var e := Finish(name, attrs, opts, placeholderSelected);
      && e.name == "select"
      && e.attributes == SelectAttrs(name, attrs)
      && e.content.Items?
      && |e.content.items| == Offset(attrs) + |opts|
      && e.content.items[Offset(attrs)..] == opts
      && (HasKey(attrs, "placeholder") ==>
            e.content.items[0] == PlaceholderNode(Lookup(attrs, "placeholder").value, placeholderSelected))
  {
  }

  lemma SelectedFlagFacts(b: bool)
    ensures HasFlag(SelectedFlag(b), "selected") <==> b
    ensures !HasKey(SelectedFlag(b), "value")
  {
    if b { assert SelectedFlag(b)[0] == Flag("selected"); }
  }

  /** Node n is the option for an entry: its key as the first attribute `value`, its text as content, `selected` exactly as given. */
  predicate Shows(n: Node, option: Entry, selected: bool) {
    && n.ElementNode?
    && |n.element.attributes| > 0
    && n.element.attributes[0] == Keyed("value", option.key)
    && n.element.content == Single(option.text)
    && (IsSelected(n) <==> selected)
  }

  /** An option built from an entry: its value first, its text as content, `selected` exactly as asked. */
  lemma OptionNodeFacts(option: Entry, selected: bool)
    ensures Shows(OptionNode(option, selected), option, selected)
  {
    SelectedFlagFacts(selected);
    var a := OptionNode(option, selected).element.attributes;
    assert a == [Keyed("value", option.key)] + SelectedFlag(selected);
    if selected {
      assert a[1] == Flag("selected");
    }
    if HasFlag(a, "selected") {
      var j :| 0 <= j < |a| && a[j] == Flag("selected");
      assert SelectedFlag(selected)[j - 1] == Flag("selected");
    }
  }

  /** The placeholder option: its text, no value, disabled, hidden, `selected` exactly as asked. */
  lemma PlaceholderFacts(text: string, selected: bool)
    ensures var n := PlaceholderNode(text, selected);
      && n.ElementNode?
      && n.element.content == Single(text)
      && !HasKey(n.element.attributes, "value")
      && HasFlag(n.element.attributes, "value")
      && HasFlag(n.element.attributes, "disabled")
      && Lookup(n.element.attributes, "style") == Some("display: none;")
      && (IsSelected(n) <==> selected)
  {
    var tail: AttrList := [Flag("disabled"), Flag("value"), Keyed("style", "display: none;")];
    var a: AttrList := if selected then [Flag("selected")] + tail else tail;
    assert SelectedFlag(selected) + tail == a;
    assert PlaceholderNode(text, selected).element.attributes == a;
    PlaceholderAttributes(a, selected);
  }

  /** The placeholder's attributes: only `style` is keyed, `disabled` is present, `selected` only when asked. */
  lemma PlaceholderAttributes(a: AttrList, selected: bool)
    requires a == if selected then [Flag("selected"), Flag("disabled"), Flag("value"), Keyed("style", "display: none;")]
      else [Flag("disabled"), Flag("value"), Keyed("style", "display: none;")]
    ensures !HasKey(a, "value") && HasFlag(a, "value") && HasFlag(a, "disabled") && Lookup(a, "style") == Some("display: none;")
    ensures HasFlag(a, "selected") <==> selected
  {
    var o := if selected then 1 else 0;
    assert a[o] == Flag("disabled") && a[o + 1] == Flag("value");
    PositionUnique(a, "style", o + 2);
    if selected { assert a[0] == Flag("selected"); }
  }

  /** Whether option key k is the stored value of field name (`$value === $selected`). */
  predicate SelectMatches(f: Form, name: string, k: string) {
    name in f.values && f.values[name] == Scalar(k)
  }

  /** The options of a select after the `array_walk`, placeholder not yet added. */
  function SelectOptions(f: Form, name: string, options: seq<Entry>): (r: seq<Node>)
    ensures |r| == |options|
  {
    seq(|options|, i requires 0 <= i < |options| => OptionNode(options[i], SelectMatches(f, name, options[i].key)))
  }

  /** `select($name, $options, $attributes)`: the placeholder is selected when no value is stored. */
  function SelectElement(f: Form, name: string, options: seq<Entry>, attrs: AttrList): Element {
    Finish(name, attrs, SelectOptions(f, name, options), name !in f.values)
  }

  /**
   * `select` as the source computes it: `array_walk` rewrites each label of the
   * options array in place into its option element (a PHP array is a value, so it
   * is a sequence the loop reassigns); the shared tail then puts the placeholder
   * option in front.
   */
  method Select(f: Form, name: string, options: seq<Entry>, attrs: AttrList) returns (e: Element)
    ensures e == SelectElement(f, name, options, attrs)
  {
    var selected := StoredValue(f, name);
    var n := |options|;
    var opts := seq(n, i requires 0 <= i < n => TextNode(options[i].text));
    var i := 0;
    while i < n
      invariant 0 <= i <= n && |opts| == n
      invariant forall j :: 0 <= j < i ==> opts[j] == OptionNode(options[j], SelectMatches(f, name, options[j].key))
      invariant forall j :: i <= j < n ==> opts[j] == TextNode(options[j].text)
    {
      var text := opts[i].text;
      opts := opts[i := ElementNode(OptionElement(Some(text), Some(options[i].key),
                                                  SelectedFlag(selected == Some(Scalar(options[i].key)))))];
      i := i + 1;
    }
    assert opts == SelectOptions(f, name, options);
    e := Finish(name, attrs, opts, selected == None);
  }

  /**
   * A select holds one option per entry, in order after the placeholder, whose value
   * is the entry's key and whose label is its text, `selected` exactly when the key
   * is the stored value.
   */
  lemma SelectShape(f: Form, name: string, options: seq<Entry>, attrs: AttrList)
    ensures var e := SelectElement(f, name, options, attrs);
      && e.name == "select"
      && e.attributes == SelectAttrs(name, attrs)
      && e.content.Items?
      && |e.content.items| == Offset(attrs) + |options|
      && e.content.items[Offset(attrs)..] == SelectOptions(f, name, options)
    ensures forall i :: 0 <= i < |options| ==>
      Shows(SelectOptions(f, name, options)[i], options[i], SelectMatches(f, name, options[i].key))
  {
    FinishShape(name, attrs, SelectOptions(f, name, options), name !in f.values);
    forall i | 0 <= i < |options|
      ensures Shows(SelectOptions(f, name, options)[i], options[i], SelectMatches(f, name, options[i].key))
    {
      OptionNodeFacts(options[i], SelectMatches(f, name, options[i].key));
    }
  }

  /**
   * With a `placeholder` attribute the first option is that text: disabled, hidden,
   * without a value, and `selected` exactly when no value is stored.
   */
  lemma SelectPlaceholder(f: Form, name: string, options: seq<Entry>, attrs: AttrList)
    requires HasKey(attrs, "placeholder")
    ensures var first := SelectElement(f, name, options, attrs).content.items[0];
      && first.ElementNode?
      && first.element.content == Single(Lookup(attrs, "placeholder").value)
      && !HasKey(first.element.attributes, "value")
      && HasFlag(first.element.attributes, "value")
      && HasFlag(first.element.attributes, "disabled")
      && Lookup(first.element.attributes, "style") == Some("display: none;")
      && (IsSelected(first) <==> name !in f.values)
  {
    FinishShape(name, attrs, SelectOptions(f, name, options), name !in f.values);
    PlaceholderFacts(Lookup(attrs, "placeholder").value, name !in f.values);
  }

  /** Option keys are distinct, as in every PHP array. */
  predicate DistinctEntries(options: seq<Entry>) {
    forall i, j :: 0 <= i < j < |options| ==> options[i].key != options[j].key
  }

  /** At most one real option is selected, and none when the placeholder is. */
  lemma SelectAtMostOne(f: Form, name: string, options: seq<Entry>, attrs: AttrList)
    requires DistinctEntries(options)
    ensures var items := SelectElement(f, name, options, attrs).content.items;
      forall i, j :: Offset(attrs) <= i < j < |items| ==> !(IsSelected(items[i]) && IsSelected(items[j]))
    ensures var items := SelectElement(f, name, options, attrs).content.items;
      HasKey(attrs, "placeholder") && IsSelected(items[0]) ==>
        forall i :: 1 <= i < |items| ==> !IsSelected(items[i])
  {
    SelectShape(f, name, options, attrs);
    var items := SelectElement(f, name, options, attrs).content.items;
    ShownAtMostOne(f, name, options, items, Offset(attrs), SelectOptions(f, name, options));
    if HasKey(attrs, "placeholder") {
      SelectPlaceholder(f, name, options, attrs);
    }
  }

  /**
   * Options shown after offset o for distinct keys: only one distinct key can equal
   * the stored value, so at most one carries `selected`, and none when nothing is stored.
   */
  lemma ShownAtMostOne(f: Form, name: string, options: seq<Entry>, items: seq<Node>, o: nat, opts: seq<Node>)
    requires DistinctEntries(options) && |items| == o + |options| && |opts| == |options| && items[o..] == opts
    requires forall i :: 0 <= i < |options| ==> Shows(opts[i], options[i], SelectMatches(f, name, options[i].key))
    ensures forall i, j :: o <= i < j < |items| ==> !(IsSelected(items[i]) && IsSelected(items[j]))
    ensures forall i :: o <= i < |items| && IsSelected(items[i]) ==> name in f.values
  {
    forall i | o <= i < |items| ensures IsSelected(items[i]) <==> SelectMatches(f, name, options[i - o].key) {
      assert items[i] == opts[i - o];
    }
  }

  // ---------------------------------------------------------------------
  // Multi-select

  /** Whether the attributes already make the select a multi-select. */
  predicate IsMultiple(a: seq<Attr>) {
    HasFlag(a, "multiple") || HasKey(a, "multiple")
  }

  /**
   * The `multiple` step as written: `in_array('multiple', $attributes)` searches
   * the values of every entry, so any attribute whose value is the text
   * `multiple` suppresses the flag.
   */
  function MultipleAsWritten(attrs: AttrList): AttrList {
    if InArray(attrs, "multiple") then attrs else Put(attrs, Flag("multiple"))
  }

  /** Counterexample: `['class' => 'multiple']` yields a select without `multiple`. */
  lemma MultipleAsWrittenMissesFlag()
    ensures !IsMultiple(MultipleAsWritten([Keyed("class", "multiple")]))
  {
    var a: AttrList := [Keyed("class", "multiple")];
    assert ValueOf(a[0]) == "multiple";
    assert MultipleAsWritten(a) == a;
  }

  /**
   * Counterexample: `['multiple' => 'on']` already makes the select multiple, yet no
   * value is the text `multiple`, so the step as written appends a second `multiple`.
   */
  lemma MultipleAsWrittenDuplicatesFlag()
    ensures MultipleAsWritten([Keyed("multiple", "on")]) == [Keyed("multiple", "on"), Flag("multiple")]
    ensures Multiple([Keyed("multiple", "on")]) == [Keyed("multiple", "on")]
  {
    var a: AttrList := [Keyed("multiple", "on")];
    assert a[0].Keyed? && a[0].key == "multiple";
    assert !InArray(a, "multiple") by {
      assert ValueOf(a[0]) == "on";
    }
    assert Put(a, Flag("multiple")) == a + [Flag("multiple")];
  }

  /** The `multiple` step as intended: the flag is appended once unless the select is already multiple. */
  function Multiple(attrs: AttrList): (r: AttrList)
    ensures IsMultiple(r)
    ensures FlagCount(r, "multiple") == FlagCount(attrs, "multiple") + (if IsMultiple(attrs) then 0 else 1)
    ensures forall k :: Lookup(r, k) == Lookup(attrs, k)
    ensures forall t :: t != "multiple" ==> FlagCount(r, t) == FlagCount(attrs, t)
  {
    if IsMultiple(attrs) then attrs
    else
      var r := Put(attrs, Flag("multiple"));
      assert r[|attrs|] == Flag("multiple");
      forall t ensures FlagCount(r, t) == FlagCount(attrs, t) + (if t == "multiple" then 1 else 0) {
        PutFlagCount(attrs, Flag("multiple"), t);
      }
      forall k ensures Lookup(r, k) == Lookup(attrs, k) {
        if HasKey(attrs, k) { PositionUnique(r, k, Position(attrs, k).value); }
      }
      r
  }

  /** The two agree whenever no attribute other than a `multiple` flag has the value `multiple` and there is no `multiple` key. */
  lemma MultipleAgrees(attrs: AttrList)
    requires forall i :: 0 <= i < |attrs| && ValueOf(attrs[i]) == "multiple" ==> attrs[i] == Flag("multiple")
    requires !HasKey(attrs, "multiple")
    ensures MultipleAsWritten(attrs) == Multiple(attrs)
  {
    if InArray(attrs, "multiple") {
      var i :| 0 <= i < |attrs| && ValueOf(attrs[i]) == "multiple";
      assert HasFlag(attrs, "multiple");
    }
  }

  /** `multiSelect` exactly as written: the `multiple` step searches the values of every entry. */
  function MultiSelectAsWritten(f: Form, name: string, options: seq<Entry>, attrs: AttrList): Element {
    Finish(name, MultipleAsWritten(attrs), MultiSelectOptions(f, name, options), NothingChosen(f, name))
  }

  /** Where no entry other than a `multiple` flag has the value `multiple` and there is no `multiple` key, the builder as written and the corrected one are the same element. */
  lemma MultiSelectAgrees(f: Form, name: string, options: seq<Entry>, attrs: AttrList)
    requires forall i :: 0 <= i < |attrs| && ValueOf(attrs[i]) == "multiple" ==> attrs[i] == Flag("multiple")
    requires !HasKey(attrs, "multiple")
    ensures MultiSelectAsWritten(f, name, options, attrs) == MultiSelectElement(f, name, options, attrs)
  {
    MultipleAgrees(attrs);
  }

  /** Counterexample: `multiSelect($name, $options, ['class' => 'multiple'])` as written gives a single select; corrected, a multiple one. */
  lemma MultiSelectAsWrittenMissesFlag(f: Form, name: string, options: seq<Entry>)
    ensures !IsMultiple(MultiSelectAsWritten(f, name, options, [Keyed("class", "multiple")]).attributes)
    ensures IsMultiple(MultiSelectElement(f, name, options, [Keyed("class", "multiple")]).attributes)
  {
    var a: AttrList := [Keyed("class", "multiple")];
    MultipleAsWrittenMissesFlag();
    FinishShape(name, MultipleAsWritten(a), MultiSelectOptions(f, name, options), NothingChosen(f, name));
    SelectAttrsMultiple(name, MultipleAsWritten(a));
    MultiSelectAttributes(f, name, options, a);
  }

  /** Building the select's attributes neither adds nor removes `multiple`. */
  lemma SelectAttrsMultiple(name: string, a: AttrList)
    ensures IsMultiple(SelectAttrs(name, a)) <==> IsMultiple(a)
  {
    var r := SelectAttrs(name, a);
    FlagCountPositive(a, "multiple");
    FlagCountPositive(r, "multiple");
    assert Lookup(r, "multiple") == Lookup(a, "multiple");
  }

  /** The stored list a multi-select compares against (`$this->values[$name] ?? []`). */
  function StoredList(f: Form, name: string): seq<string> {
    if name in f.values && f.values[name].Several? then f.values[name].items else []
  }

  /** Whether the placeholder of a multi-select is selected (`$selected === []`). */
  predicate NothingChosen(f: Form, name: string) {
    name !in f.values || f.values[name] == Several([])
  }

  function MultiSelectOptions(f: Form, name: string, options: seq<Entry>): (r: seq<Node>)
    ensures |r| == |options|
  {
    seq(|options|, i requires 0 <= i < |options| => OptionNode(options[i], options[i].key in StoredList(f, name)))
  }

  /** `multiSelect($name, $options, $attributes)`, with the intended `multiple` step. */
  function MultiSelectElement(f: Form, name: string, options: seq<Entry>, attrs: AttrList): Element {
    Finish(name, Multiple(attrs), MultiSelectOptions(f, name, options), NothingChosen(f, name))
  }

  /** `multiSelect` with its `array_walk` over the options, as `Select`. */
  method MultiSelect(f: Form, name: string, options: seq<Entry>, attrs: AttrList) returns (e: Element)
    ensures e == MultiSelectElement(f, name, options, attrs)
  {
    var selected := StoredList(f, name);
    var n := |options|;
    var opts := seq(n, i requires 0 <= i < n => TextNode(options[i].text));
    var i := 0;
    while i < n
      invariant 0 <= i <= n && |opts| == n
      invariant forall j :: 0 <= j < i ==> opts[j] == OptionNode(options[j], options[j].key in selected)
      invariant forall j :: i <= j < n ==> opts[j] == TextNode(options[j].text)
    {
      var text := opts[i].text;
      opts := opts[i := ElementNode(OptionElement(Some(text), Some(options[i].key), SelectedFlag(options[i].key in selected)))];
      i := i + 1;
    }
    assert opts == MultiSelectOptions(f, name, options);
    e := Finish(name, Multiple(attrs), opts, NothingChosen(f, name));
  }

  /**
   * A multi-select carries `multiple`, appended once and only when absent, `name`
   * first and no `placeholder`; every other attribute is the caller's.
   */
  lemma MultiSelectAttributes(f: Form, name: string, options: seq<Entry>, attrs: AttrList)
    ensures var r := MultiSelectElement(f, name, options, attrs).attributes;
      && r[0] == Keyed("name", Lookup(attrs, "name").GetOr(name))
      && IsMultiple(r)
      && FlagCount(r, "multiple") == FlagCount(attrs, "multiple") + (if IsMultiple(attrs) then 0 else 1)
      && !HasKey(r, "placeholder")
      && (forall k :: k != "name" && k != "placeholder" ==> Lookup(r, k) == Lookup(attrs, k))
      && (forall t :: t != "multiple" ==> FlagCount(r, t) == FlagCount(attrs, t))
  {
    var a := Multiple(attrs);
    var r := SelectAttrs(name, a);
    FinishShape(name, a, MultiSelectOptions(f, name, options), NothingChosen(f, name));
    assert Lookup(a, "name") == Lookup(attrs, "name");
    if HasFlag(a, "multiple") {
      FlagCountPositive(a, "multiple");
      FlagCountPositive(r, "multiple");
    } else {
      assert Lookup(r, "multiple") == Lookup(a, "multiple");
    }
  }

  /** The options follow the placeholder, if any, in the order of the entries. */
  lemma MultiSelectItems(f: Form, name: string, options: seq<Entry>, attrs: AttrList)
    ensures MultiSelectElement(f, name, options, attrs).name == "select"
    ensures MultiSelectElement(f, name, options, attrs).content.Items?
    ensures |MultiSelectElement(f, name, options, attrs).content.items| == Offset(attrs) + |options|
    ensures MultiSelectElement(f, name, options, attrs).content.items[Offset(attrs)..] == MultiSelectOptions(f, name, options)
  {
    FinishShape(name, Multiple(attrs), MultiSelectOptions(f, name, options), NothingChosen(f, name));
    MultipleOffset(attrs);
  }

  /**
   * Option i of a multi-select is `selected` exactly when its key is in the stored
   * list; options keep the entries' order, value and label.
   */
  lemma MultiSelectShape(f: Form, name: string, options: seq<Entry>, attrs: AttrList)
    ensures MultiSelectElement(f, name, options, attrs).content.Items?
    ensures |MultiSelectElement(f, name, options, attrs).content.items| == Offset(attrs) + |options|
    ensures MultiSelectElement(f, name, options, attrs).content.items[Offset(attrs)..] == MultiSelectOptions(f, name, options)
    ensures forall i :: 0 <= i < |options| ==>
      Shows(MultiSelectOptions(f, name, options)[i], options[i], options[i].key in StoredList(f, name))
  {
    MultiSelectItems(f, name, options, attrs);
    forall i | 0 <= i < |options|
      ensures Shows(MultiSelectOptions(f, name, options)[i], options[i], options[i].key in StoredList(f, name))
    {
      OptionNodeFacts(options[i], options[i].key in StoredList(f, name));
    }
  }

  lemma MultipleOffset(attrs: AttrList)
    ensures Offset(Multiple(attrs)) == Offset(attrs)
  {
    assert Lookup(Multiple(attrs), "placeholder") == Lookup(attrs, "placeholder");
  }

  /** The placeholder of a multi-select is `selected` exactly when nothing is stored (`$selected === []`). */
  lemma MultiSelectPlaceholder(f: Form, name: string, options: seq<Entry>, attrs: AttrList)
    requires HasKey(attrs, "placeholder")
    ensures var first := MultiSelectElement(f, name, options, attrs).content.items[0];
      && first.ElementNode?
      && first.element.content == Single(Lookup(attrs, "placeholder").value)
      && !HasKey(first.element.attributes, "value")
      && HasFlag(first.element.attributes, "value")
      && HasFlag(first.element.attributes, "disabled")
      && (IsSelected(first) <==> NothingChosen(f, name))
  {
    var a := Multiple(attrs);
    assert Lookup(a, "placeholder") == Lookup(attrs, "placeholder");
    FinishShape(name, a, MultiSelectOptions(f, name, options), NothingChosen(f, name));
    PlaceholderFacts(Lookup(attrs, "placeholder").value, NothingChosen(f, name));
  }

  // ---------------------------------------------------------------------
  // Textarea and buttons

  /** The content of a textarea: the stored value, or the empty text. */
  function StoredContent(f: Form, name: string): Content {
    if name !in f.values then Single("")
    else match f.values[name]
      case Scalar(s) => Single(s)
      case Several(xs) => Items(seq(|xs|, i requires 0 <= i < |xs| => TextNode(xs[i])))
  }

  /** `textarea($name, $attributes)`: the stored value is content, never an attribute, so the close tag is always written. */
  function Textarea(f: Form, name: string, attrs: AttrList): (r: Element)
    ensures r.name == "textarea" && !r.content.Absent?
    ensures |r.attributes| > 0 && r.attributes[0] == Keyed("name", Lookup(attrs, "name").GetOr(name))
    ensures Lookup(r.attributes, "value") == Lookup(attrs, "value")
    ensures name in f.values && f.values[name].Scalar? ==> r.content == Single(f.values[name].text)
    ensures name in f.values && f.values[name].Several? ==>
      r.content.Items? && |r.content.items| == |f.values[name].items| &&
      forall i :: 0 <= i < |r.content.items| ==> r.content.items[i] == TextNode(f.values[name].items[i])
    ensures name !in f.values ==> r.content == Single("")
  {
    var base: AttrList := [Keyed("name", name)];
    var a := Merge(base, attrs);
    MergeLookup(base, attrs, "value");
    MergeLookup(base, attrs, "name");
    MergeKeepsSlots(base, attrs, 0);
    PositionUnique(base, "name", 0);
    PositionUnique(a, "name", 0);
    Element("textarea", a, StoredContent(f, name))
  }

  /** A textarea is never written as a lone open tag: its rendering always ends with `</textarea>`. */
  lemma TextareaCloses(f: Form, name: string, attrs: AttrList)
    ensures var out := Render(Textarea(f, name, attrs)); |out| >= 11 && out[|out| - 11..] == "</textarea>"
  {
    var e := Textarea(f, name, attrs);
    assert "</" + "textarea" + ">" == "</textarea>";
    assert e.name == "textarea" && !e.content.Absent?;
    RenderWithContent(e);
  }

  /** A button of the given type: `$attributes['type'] = $type`, the label as escaped text. */
  function ButtonOf(kind: string, text: string, attrs: AttrList): (r: Element)
    ensures r.name == "button" && r.content == Single(text)
    ensures Lookup(r.attributes, "type") == Some(kind)
    ensures forall k :: k != "type" ==> Lookup(r.attributes, k) == Lookup(attrs, k)
    ensures HasKey(attrs, "type") ==> |r.attributes| == |attrs|
    ensures !HasKey(attrs, "type") ==> r.attributes == attrs + [Keyed("type", kind)]
  {
    forall k ensures Lookup(Set(attrs, "type", kind), k) == if k == "type" then Some(kind) else Lookup(attrs, k) {
      SetLookup(attrs, "type", kind, k);
    }
    Element("button", Set(attrs, "type", kind), Single(text))
  }

  /** `button($label, $attributes)`: type forced to `button`. */
  function Button(text: string, attrs: AttrList): (r: Element)
    ensures r.name == "button" && r.content == Single(text)
    ensures Lookup(r.attributes, "type") == Some("button")
    ensures forall k :: k != "type" ==> Lookup(r.attributes, k) == Lookup(attrs, k)
  {
    ButtonOf("button", text, attrs)
  }

  /** `reset($label, $attributes)`: type forced to `reset`. */
  function Reset(text: string, attrs: AttrList): (r: Element)
    ensures r.name == "button" && r.content == Single(text)
    ensures Lookup(r.attributes, "type") == Some("reset")
    ensures forall k :: k != "type" ==> Lookup(r.attributes, k) == Lookup(attrs, k)
  {
    ButtonOf("reset", text, attrs)
  }

  /** `submit($label, $attributes)`: type forced to `submit`. */
  function Submit(text: string, attrs: AttrList): (r: Element)
    ensures r.name == "button" && r.content == Single(text)
    ensures Lookup(r.attributes, "type") == Some("submit")
    ensures forall k :: k != "type" ==> Lookup(r.attributes, k) == Lookup(attrs, k)
  {
    ButtonOf("submit", text, attrs)
  }

  /**
   * A button writes the caller's attributes first, in order, then the forced type;
   * its label is written escaped, as text.
   */
  lemma ButtonRender(kind: string, text: string, attrs: AttrList)
    requires !HasKey(attrs, "type")
    ensures var b := ButtonOf(kind, text, attrs);
      && AttributesText(b.attributes) == AttributesText(attrs) + AttributeText(Keyed("type", kind))
      && Render(b) == Open(b) + Escape(text, Compat) + "</button>"
  {
    var a: seq<Attr> := [Keyed("type", kind)];
    assert AttributesText(a) == AttributeText(a[0]) + AttributesText(a[1..]);
    assert a[1..] == [];
    AttributesAppend(attrs, a);
  }
}
