/**
 * Concrete cases from the repository's own test suite, stated on the model: each
 * lemma fixes the inputs of one test and proves what the model produces for them.
 * That is the test's expected output except for element content, where the code
 * encodes the double quote and the test expects it raw; the lemma there states what
 * the code produces. The general lemmas at the head give the exact attribute order
 * of whole families of inputs, which the cases then instantiate.
 */
module Vectors {
  import opened Escaping
  import opened Attributes
  import opened Elements
  import opened Forms

  /** Element attribute values: the apostrophe passes, the other four characters are encoded. */
  lemma ElementValueEscaped()
    ensures Escape("<>\"&'", Compat) == "&lt;&gt;&quot;&amp;'"
  {
  }

  /**
   * Element content is escaped with the same flags as attribute values, so the double
   * quote is encoded in text too: `content()` of `<>&'"` is the string below (the content
   * test in ElementTest.php expects the double quote raw).
   */
  lemma ElementContentEscaped()
    ensures Escape("<>&'\"", Compat) == "&lt;&gt;&amp;'&quot;"
  {
  }

  /** `Html::escape` also encodes the apostrophe. */
  lemma HtmlEscapeQuotes()
    ensures Escape("<>&\"'", Quotes) == "&lt;&gt;&amp;&quot;&apos;"
  {
  }

  /** File, image and password inputs with no caller attributes: type and name only, whatever is stored. */
  lemma UnfilledOrder(f: Form, kind: InputKind, name: string)
    requires kind == File || kind == Image || kind == Password
    ensures FieldInput(f, kind, name, []).attributes == [Keyed("type", TypeName(kind)), Keyed("name", name)]
  {
    assert FixedPattern(kind).None? && Unfilled(TypeName(kind));
    InputOrder(f, TypeName(kind), name, []);
  }

  /** A stored scalar is injected right after type and name, before the caller's attributes. */
  lemma FilledOrder(f: Form, kind: string, name: string, attrs: AttrList)
    requires !Unfilled(kind) && name in f.values && f.values[name].Scalar?
    requires !HasKey(attrs, "type") && !HasKey(attrs, "name") && !HasKey(attrs, "value")
    ensures Input(f, kind, name, attrs).attributes ==
      [Keyed("type", kind), Keyed("name", name), Keyed("value", f.values[name].text)] + attrs
  {
    InputOrder(f, kind, name, attrs);
  }

  /** A forced pattern on an empty array, with a stored scalar: type, name, value, then the pattern. */
  lemma PatternedInputOrder(f: Form, kind: string, name: string, p: string)
    requires !Unfilled(kind) && name in f.values && f.values[name].Scalar?
    ensures Input(f, kind, name, Set([], "pattern", p)).attributes ==
      [Keyed("type", kind), Keyed("name", name), Keyed("value", f.values[name].text), Keyed("pattern", p)]
  {
    var a: AttrList := [Keyed("pattern", p)];
    assert Set([], "pattern", p) == a;
    FilledOrder(f, kind, name, a);
  }

  /** Date, month, time and week with a stored value: type, name, value, then the forced pattern. */
  lemma PatternedOrder(f: Form, kind: InputKind, name: string)
    requires FixedPattern(kind).Some? && !Unfilled(TypeName(kind))
    requires name in f.values && f.values[name].Scalar?
    ensures FieldInput(f, kind, name, []).attributes ==
      [Keyed("type", TypeName(kind)), Keyed("name", name), Keyed("value", f.values[name].text),
       Keyed("pattern", FixedPattern(kind).value)]
  {
    PatternedInputOrder(f, TypeName(kind), name, FixedPattern(kind).value);
  }

  /** `date('date')` with `2018-01-01` stored. */
  lemma DateInputAttributes()
    ensures FieldInput(Form(map[], map["date" := Scalar("2018-01-01")], []), Date, "date", []).attributes ==
      [Keyed("type", "date"), Keyed("name", "date"), Keyed("value", "2018-01-01"),
       Keyed("pattern", "[0-9]{4}-[0-9]{2}-[0-9]{2}")]
  {
    PatternedOrder(Form(map[], map["date" := Scalar("2018-01-01")], []), Date, "date");
  }

  /** `file('file')` with a value stored: the value is never written into a file input. */
  lemma FileInputIgnoresValue()
    ensures FieldInput(Form(map[], map["file" := Scalar("ignored")], []), File, "file", []).attributes ==
      [Keyed("type", "file"), Keyed("name", "file")]
  {
    UnfilledOrder(Form(map[], map["file" := Scalar("ignored")], []), File, "file");
  }

  /** Checkbox and radio with no caller attributes: type, name, value, and `checked` last when the value is the stored one. */
  lemma CheckableOrder(f: Form, kind: string, name: string, value: string)
    ensures Input(f, kind, name, CheckedAttrs(f, name, value, [])).attributes ==
      [Keyed("type", kind), Keyed("name", name), Keyed("value", value)]
      + (if name in f.values && f.values[name] == Scalar(value) then [Flag("checked")] else [])
  {
    var c := CheckedAttrs(f, name, value, []);
    var tail: seq<Attr> := if name in f.values && f.values[name] == Scalar(value) then [Flag("checked")] else [];
    var x, y, z := Keyed("type", kind), Keyed("name", name), Keyed("value", value);
    assert [x, y] + ([z] + tail) == [x, y, z] + tail;
    CheckedPrefix(f, name, value);
    CallerValueOrder(f, kind, name, c);
  }

  /** A caller's array holding `value` but neither `type` nor `name` follows type and name unchanged. */
  lemma CallerValueOrder(f: Form, kind: string, name: string, c: AttrList)
    requires HasKey(c, "value") && !HasKey(c, "type") && !HasKey(c, "name")
    ensures Input(f, kind, name, c).attributes == [Keyed("type", kind), Keyed("name", name)] + c
  {
    var base: AttrList := [Keyed("type", kind), Keyed("name", name)];
    assert !Fills(f, kind, name, c);
    assert InputBase(f, kind, name, c) == base;
    forall i | 0 <= i < |c| && c[i].Keyed? ensures !HasKey(base, c[i].key) {
      assert c[i].key != "type" && c[i].key != "name";
    }
    MergeFresh(base, c);
  }

  /** On an empty array: the given value, then `checked` when it is the stored one. */
  lemma CheckedPrefix(f: Form, name: string, value: string)
    ensures CheckedAttrs(f, name, value, []) ==
      [Keyed("value", value)] + (if name in f.values && f.values[name] == Scalar(value) then [Flag("checked")] else [])
    ensures HasKey(CheckedAttrs(f, name, value, []), "value")
    ensures !HasKey(CheckedAttrs(f, name, value, []), "type") && !HasKey(CheckedAttrs(f, name, value, []), "name")
  {
    var a: AttrList := [Keyed("value", value)];
    assert Set([], "value", value) == a;
    assert a[0] == Keyed("value", value);
    if name in f.values && f.values[name] == Scalar(value) {
      assert Put(a, Flag("checked")) == a + [Flag("checked")];
      assert CheckedAttrs(f, name, value, [])[0] == a[0];
    }
  }

  /** A form with `value` stored for the field `name`, as in the value tests. */
  function ValuesForm(): Form {
    Form(map[], map["name" := Scalar("value")], [])
  }

  /** `checkbox('name', 'value')`: checked. */
  lemma CheckboxChecked()
    ensures Checkbox(ValuesForm(), "name", "value", []).attributes ==
      [Keyed("type", "checkbox"), Keyed("name", "name"), Keyed("value", "value"), Flag("checked")]
  {
    CheckableOrder(ValuesForm(), "checkbox", "name", "value");
  }

  /** `radio('name', 'another value')`: not checked. */
  lemma RadioUnchecked()
    ensures Radio(ValuesForm(), "name", "another value", []).attributes ==
      [Keyed("type", "radio"), Keyed("name", "name"), Keyed("value", "another value")]
  {
    CheckableOrder(ValuesForm(), "radio", "name", "another value");
    assert ValuesForm().values["name"] != Scalar("another value");
  }

  /** `textarea('name')`: the stored value becomes the content. */
  lemma TextareaStored()
    ensures var e := Textarea(ValuesForm(), "name", []);
      e.attributes == [Keyed("name", "name")] && e.content == Single("value")
  {
    var e := Textarea(ValuesForm(), "name", []);
    assert |e.attributes| == 1;
  }

  /** `button('test')`: `type="button"` and the text as content. */
  lemma ButtonDefault()
    ensures Button("test", []) == Element("button", [Keyed("type", "button")], Single("test"))
  {
    assert ButtonOf("button", "test", []).attributes == [] + [Keyed("type", "button")];
  }

  /** A form with `2` stored for the field `select`, as in the value tests. */
  function SelectForm(): Form {
    Form(map[], map["select" := Scalar("2")], [])
  }

  /** `select('select', [1 => 'first', 2 => 'second'])` with `2` stored: only the second option is selected. */
  lemma SelectSecond()
    ensures var e := SelectElement(SelectForm(), "select", [Entry("1", "first"), Entry("2", "second")], []);
      && e.attributes == [Keyed("name", "select")]
      && e.content == Items([OptionNode(Entry("1", "first"), false), OptionNode(Entry("2", "second"), true)])
  {
    var options := [Entry("1", "first"), Entry("2", "second")];
    FinishShape("select", [], SelectOptions(SelectForm(), "select", options), false);
    assert Unset([], "placeholder") == [];
    assert SelectAttrs("select", []) == [Keyed("name", "select")];
  }
}
