# neat-php/view: HTML elements, form builders and the tag renderer

This project models the view helpers of neat-php/view and proves properties about them:

- **`Element`** is an HTML element held as a value tree. It has a tag name, an ordered attribute array and optional content. The content is a text, or a list of texts and nested elements. The element renders itself to a string:
  - attributes come out in array order;
  - text is escaped with `htmlspecialchars` in ENT_COMPAT mode;
  - nested elements are inserted as their own rendering;
  - the close tag is omitted when there is no content.
- **`Form`** is a snapshot of captions, submitted values and error messages. It is fixed at construction. Its builders return elements:
  - `input` and the one-type inputs (`date`, `file`, …);
  - `checkbox`, `radio`, `select`, `multiSelect` and `option`;
  - `textarea`, `label`, `errorList`;
  - `button`, `reset` and `submit`;
  - the `open`/`close` form tags.

  The builders decide:
  - when a stored value is written back;
  - which attributes are forced;
  - when `checked` or `selected` is set;
  - how the select placeholder option looks.
- **`Html`** is a standalone tag renderer. It escapes in ENT_QUOTES mode and joins the attribute tokens with single spaces.

Modules:

| module | file | what it holds |
|---|---|---|
| `Options` | `options.dfy` | An `Option` type, used for PHP's `null` |
| `Escaping` | `escaping.dfy` | `htmlspecialchars` with the quote mode as a parameter, its inverse, and injectivity |
| `Attributes` | `attributes.dfy` | The PHP attribute array as a sequence of `Flag(token)` entries (integer keys) and `Keyed(key, value)` entries (string keys, never repeated) |
| `Elements` | `element.dfy` | `Element.php`: the element tree and its rendering |
| `Html` | `html.dfy` | `Html.php`; `openTag` is also a method that replays the source's array steps |
| `Forms` | `form.dfy` | `Form.php` as a datatype, with one function per builder; `select` and `multiSelect` are also methods |
| `Vectors` | `vectors.dfy` | The cases pinned by the repository's tests, proved on the model |

`Attributes` models these PHP array operations:

| PHP | model |
|---|---|
| `array_merge` | `Merge`. A string key already present keeps its slot and takes the new value. An integer-keyed entry is appended. |
| `$a[$k] = $v` | `Set` |
| `$a[] = $t` | `Put` |
| `unset($a[$k])` | `Unset` |
| `isset($a[$k])` / `$a[$k] ?? null` | `HasKey` / `Lookup` |
| `in_array($v, $a)` | `InArray`, which looks at the values of all entries |

A PHP array is a value, not a shared buffer. The methods that replay an `array_walk` (`Html.BuildOpenTag`, `Forms.Select`, `Forms.MultiSelect`) therefore hold their working array as a sequence that each step reassigns.

Where the code and its documentation disagree, the model follows the code:

- **Error messages with no caption.** Every `:field` in an error message is replaced by the field's caption. When the field has no caption, the replacement text is `:field` itself (`classes/Form.php:36`). Such a message stays exactly as given; it does not receive the field name.
- **Double quotes in content.** `Element` escapes content with ENT_COMPAT (`classes/Element.php:58`), which encodes the double quote. The content case in `tests/ElementTest.php:43` expects the double quote raw. `Vectors.ElementContentEscaped` states what the code produces.

## Model

| member | source | states |
|---|---|---|
| Escaping.EscapeChar | classes/Element.php:56-59 | A character changes exactly when it is one the mode encodes. The replacement holds no `<`, `>` or `"`, and no `'` in quote mode. It starts with `&` exactly when the character was encoded. |
| Escaping.Escape | classes/Element.php:56-59 | The escaped text is never shorter than the input and holds no character that could close a tag or an attribute value. |
| Escaping.EscapeAppend | classes/Element.php:56-59 | Escaping works character by character, so it distributes over concatenation. |
| Escaping.EscapeIdentity | classes/Html.php:30-33 | Escaping leaves a string unchanged if and only if it holds none of the characters the mode encodes. |
| Escaping.AmpersandsStartEntities | classes/Element.php:58 | Every `&` in escaped text starts one of the entities of the mode: an input `&` is always re-encoded. |
| Escaping.UnescapeEscape | classes/Element.php:58 | Decoding the five entities gives back the original text: escaping loses nothing. |
| Escaping.UnescapeChar | classes/Element.php:58 | Decoding one replacement followed by any escaped text gives back its character first. |
| Escaping.EscapeInjective | classes/Element.php:58 | Two texts with the same escaped form are equal. |
| Escaping.EscapeTwiceDiffers | classes/Element.php:58 | Encoding is not idempotent: `&` escaped twice differs from `&` escaped once. |
| Escaping.EscapeModesAgree | classes/Html.php:30-33 | On text without an apostrophe, ENT_COMPAT and ENT_QUOTES give the same output. |
| Attributes.Lookup | classes/Form.php:169 | A key has a value exactly when the array holds that key. |
| Attributes.Set | classes/Form.php:186 | Assigning to a key overwrites it in its slot and changes no other entry, or appends it when the key is new. |
| Attributes.SetLookup | classes/Form.php:186 | After an assignment the key reads back the new value and every other key reads as before. |
| Attributes.Put | classes/Form.php:188 | Appending an entry never shortens the array. |
| Attributes.PutFlagCount | classes/Form.php:188 | Appending a flag raises that flag's count by one and no other count changes. |
| Attributes.Merge | classes/Form.php:173 | `array_merge` never shortens its first array. |
| Attributes.MergeLookup | classes/Form.php:173 | After `array_merge($a, $b)` a key reads `$b`'s value when `$b` has it, otherwise `$a`'s. |
| Attributes.MergeKeepsSlots | classes/Form.php:173 | Merging keeps every slot of the first array: a flag stays as it was, a keyed slot keeps its key. |
| Attributes.MergeFresh | classes/Form.php:173 | When the second array shares no key with the first, merging is plain concatenation. |
| Attributes.MergeSnoc | classes/Form.php:173 | Merging an array that ends in one more entry equals merging without it and then putting that entry. |
| Attributes.MergeFlagCount | classes/Form.php:173 | Merging loses no flag and invents none: the counts add up. |
| Attributes.Unset | classes/Form.php:445 | After `unset` the key is gone and every other key reads as before. |
| Attributes.RemoveIndex | classes/Form.php:445 | Removing one slot shifts every later entry down by one, and the keys stay distinct. |
| Attributes.RemoveLookup | classes/Form.php:445 | Removing the slot of one key leaves every other key's value unchanged. |
| Attributes.HasKeyAppend | classes/Form.php:188 | A key is in an array with one entry appended exactly when it was there before or is the new entry's key. |
| Elements.AttributesText | classes/Element.php:76-88 | Definition of `attributes()`: each entry's text, concatenated in order. Pinned down by `AttributesAppend`, `AttributeText` and `AttributesNoLt`. |
| Elements.Open | classes/Element.php:95-98 | Definition of `open()`: `<`, the name, the attribute text, then `>`. Pinned down by `RenderBare`, `RenderWithContent` and `Html.OpenTagMatchesElement`. |
| Elements.Close | classes/Element.php:121-124 | Definition of `close()`: `</`, the name, then `>`. Pinned down by `RenderWithContent` and `Forms.TextareaCloses`. |
| Elements.ContentText | classes/Element.php:105-114 | Definition of `content()`: a single text escaped, or each item rendered in order. Pinned down by `ContentTagCount` and `NodesTextAt`. |
| Elements.NodesText | classes/Element.php:107-113 | Definition of the `implode('', array_map(…))` over the content list. Pinned down by `NodesAppend`, `NodesTextAt` and `NodesTagCount`. |
| Elements.NodeText | classes/Element.php:108-112 | Definition of one content item: a nested element rendered, a text escaped. Pinned down by `NodeTagCount`. |
| Elements.Render | classes/Element.php:41-48 | Definition of `__toString()`: the open tag alone without content, else open tag, content and close tag. Pinned down by `RenderBare`, `RenderWithContent` and `RenderTagCount`. |
| Elements.AttributeText | classes/Element.php:79-85 | Every attribute is written after a single space. |
| Elements.AttributesAppend | classes/Element.php:76-88 | Attributes render in array order: rendering a concatenation concatenates the renderings. |
| Elements.NodesAppend | classes/Element.php:105-114 | Content items render in list order. |
| Elements.NodesTextAt | classes/Element.php:105-114 | Each item sits in the content at its own place, as its own rendering: escaped text or the nested element's output. |
| Elements.RenderBare | classes/Element.php:41-45 | An element with no attributes and no content renders as exactly `<name>`, with no close tag. |
| Elements.RenderWithContent | classes/Element.php:41-48 | An element with content starts with its open tag and ends with `</name>`. |
| Elements.AttributesNoLt | classes/Element.php:76-88 | With names free of `<`, no attribute value can introduce a `<`. |
| Elements.AttributeNoLt | classes/Element.php:79-85 | One attribute with a flag or key free of `<` renders without a `<`. |
| Elements.RenderTagCount | classes/Element.php:41-48 | For element names, flag tokens and keys without `<`, the `<` in a rendering are exactly the tags the tree writes: one per element without content, two per element with content. Text cannot inject markup. |
| Elements.ContentTagCount | classes/Element.php:105-114 | The content adds exactly the tags of its nested elements. |
| Elements.NodesTagCount | classes/Element.php:105-114 | A list of items holds exactly the tags of its nested elements. |
| Elements.NodeTagCount | classes/Element.php:108-112 | A text item holds no `<`; a nested element holds exactly its own tags. |
| Html.KeyedToken | classes/Html.php:45-49 | Definition of a keyed entry's token: `key="value"` with the value escaped in quote mode. Pinned down by `TokenMatchesElement` and `TokenNoLt`. |
| Html.Token | classes/Html.php:45-49 | Definition of the `array_walk` step: a flag stays as it is, a keyed entry becomes its `KeyedToken`. Pinned down by `PartsAreTokens`, `TokenMatchesElement` and `TokenNoLt`. |
| Html.Join | classes/Html.php:51 | Definition of `implode`: the parts with the separator between each two. Pinned down by `JoinCons` and `PrefixedNoLt`. |
| Html.OpenTag | classes/Html.php:42-52 | Definition of `openTag()`: the element and its tokens joined by spaces, inside `<` and `>`. Pinned down by `BuildOpenTag`, `OpenTagSpaced`, `OpenTagNoAttributes` and `OpenTagMatchesElement`. |
| Html.Tag | classes/Html.php:73-78 | Definition of `tag()`: the open tag, the escaped content and the close tag. Pinned down by `TagIsTwoTags` and `TagMatchesElement`. |
| Html.CloseTag | classes/Html.php:60-63 | The close tag is `</`, the element name, then `>`. |
| Html.BuildOpenTag | classes/Html.php:42-52 | The source's steps give the open tag: put the name in front, rewrite each keyed entry as `key="escaped"`, join with spaces. |
| Html.JoinCons | classes/Html.php:51 | `implode` puts exactly one separator before every part after the first. |
| Html.OpenTagSpaced | classes/Html.php:42-52 | The open tag is `<`, the name, one space before each token, then `>`, with no trailing space. |
| Html.OpenTagNoAttributes | classes/Html.php:42-52 | With no attributes the open tag is exactly `<element>`. |
| Html.TokensMatchElement | classes/Html.php:45-49 | When no value holds an apostrophe, `Html`'s space-joined tokens equal `Element`'s attribute text. |
| Html.TokenMatchesElement | classes/Html.php:45-49 | Token by token: a space and the token equal `Element`'s rendering of the same attribute. |
| Html.OpenTagMatchesElement | classes/Html.php:42-52 | `openTag` equals `Element::open` for the same name and attributes, apostrophes in values aside. |
| Html.TagMatchesElement | classes/Html.php:73-78 | `tag` equals rendering an `Element` with the same text, apostrophes aside. |
| Html.TagIsTwoTags | classes/Html.php:73-78 | With a name and attribute tokens free of `<`, the output of `tag` holds exactly two `<`: the content is never markup. |
| Html.TokensCountLt | classes/Html.php:42-52 | Tokens from names and keys free of `<` hold no `<`, whatever the values. |
| Html.TokenNoLt | classes/Html.php:45-49 | One token with a flag or key free of `<` holds no `<`. |
| Html.PrefixedNoLt | classes/Html.php:51 | Joining parts and a separator free of `<` gives a text free of `<`. |
| Html.PartsAreTokens | classes/Html.php:44-49 | The walked array is the element name followed by one token per attribute. |
| Forms.Replace | classes/Form.php:36 | Definition of `str_replace` on one message: each occurrence, left to right, is replaced without rescanning the replacement. Pinned down by `ReplaceSelf`, `ReplaceAbsent` and `ReplaceLeading`. |
| Forms.Describe | classes/Form.php:35-37 | Definition of the `array_map` step: the message with `:field` replaced by the field's caption, or by `:field` itself when it has none. Pinned down by `NewFormMessages`. |
| Forms.ReplaceSelf | classes/Form.php:36 | Replacing `:field` by `:field` changes nothing: an uncaptioned message is kept as is. |
| Forms.ReplaceAbsent | classes/Form.php:36 | A message without `:field` is kept as is. |
| Forms.ReplaceLeading | classes/Form.php:36 | A leading `:field` is replaced and the scan continues after it. |
| Forms.NewForm | classes/Form.php:29-39 | Captions and values are kept. The errors keep their number, order and keys. |
| Forms.NewFormMessages | classes/Form.php:34-38 | A captioned field's message has every `:field` replaced by the caption. An uncaptioned field's message, or one without `:field`, is unchanged. |
| Forms.Caption | classes/Form.php:57-60 | The stored caption, or the name itself when there is none. |
| Forms.StoredValue | classes/Form.php:78-81 | The stored value exactly when one is stored, null otherwise. |
| Forms.Error | classes/Form.php:99-102 | A message exactly when the field has an error, and then that field's message. |
| Forms.ErrorList | classes/Form.php:110-119 | Null if and only if there are no errors. Otherwise a `ul` with the given attributes and one `li` per message, in error order. |
| Forms.ErrorListRender | classes/Form.php:110-119 | The list renders as the `ul` open tag, each escaped message in its own `li`, then `</ul>`. |
| Forms.ListItemsRender | classes/Form.php:116-118 | The items render as `<li>`, the escaped message and `</li>`, one after another. |
| Forms.OpenForm | classes/Form.php:127-132 | The form open tag is `<form`, the attributes, `>`; with none it is `<form>`. |
| Forms.CloseForm | classes/Form.php:139-144 | The form close tag is an element's close tag for `form`. |
| Forms.Label | classes/Form.php:153-156 | A `label` with the given attributes whose text is the caption, or the name when uncaptioned. |
| Forms.InputBase | classes/Form.php:168-171 | Type first, then name, and the stored value third exactly when it is injected. It holds no other key and no flag. |
| Forms.MergeAll | classes/Form.php:173 | Merging the caller's attributes: the caller's keys win, other keys keep the base value, and flags add up. |
| Forms.InputMerge | classes/Form.php:166-174 | The merged attributes keep `type` and `name` in the first two slots, take the caller's value for every key the caller gives, and add up the flags. |
| Forms.Input | classes/Form.php:166-174 | `type` and `name` are the first two attributes; a caller's `type` or `name` overrides them in place. `value` is the caller's if given, else the stored scalar unless the type is file, image or password, else absent. Every other key and every flag is the caller's. |
| Forms.InputOrder | classes/Form.php:166-174 | Without a caller `type`, `name` or `value`, the attributes are exactly type, name, the injected value if any, then the caller's in order. |
| Forms.CheckedAttrs | classes/Form.php:186-189 | Definition of the checkbox and radio attributes: `value` set, then `checked` appended when the stored value matches. Pinned down by `CheckedAttrsFacts` and `CheckedLast`. |
| Forms.CheckedAttrsFacts | classes/Form.php:186-189 | `value` is set to the given value and `type` and `name` are the caller's. `checked` is appended, and counted once more, if and only if the stored value equals it. |
| Forms.CheckableFacts | classes/Form.php:184-192 | The resulting input has the given value, and the builder's type and name unless the caller gave its own. It has one more `checked` if and only if the stored value matches. |
| Forms.CheckedLast | classes/Form.php:184-192 | When the stored value matches, `checked` is the input's last attribute. |
| Forms.CheckableInput | classes/Form.php:184-210 | The shared body of checkbox and radio: an `input` with the given value, the builder's type and name unless the caller gave its own, and one more `checked`, last, exactly when the stored value matches. |
| Forms.Checkbox | classes/Form.php:184-192 | A checkbox input carrying the given value, with type `checkbox` and the given name unless the caller gave its own. It gains `checked`, as its last attribute, if and only if the stored value equals that value. |
| Forms.Radio | classes/Form.php:202-210 | A radio input carrying the given value, with type `radio` and the given name unless the caller gave its own. It gains `checked`, as its last attribute, if and only if the stored value equals that value. |
| Forms.FieldInput | classes/Form.php:219-422 | Each one-type builder is an `input` with its type, and with the given name unless the caller gave one. `value` is the caller's, else the stored scalar (never for file, image and password), else absent, and every other key is the caller's. Date, month, time and week force their pattern, last unless the caller had one. |
| Forms.UnfilledKinds | classes/Form.php:269-272 | File, image and password never receive a stored value: `value` is the caller's or absent. |
| Forms.PatternedInput | classes/Form.php:231-236 | Setting `pattern` before `input` forces the pattern. The type stays the caller's or the builder's, and it is the last attribute when the caller had none. |
| Forms.PatternLast | classes/Form.php:231-236 | A pattern the caller did not give ends up as the last attribute. |
| Forms.OptionElement | classes/Form.php:493-500 | An `option`. With a value and no caller `value`, `value` comes first and then the caller's attributes. Without a value, the caller's attributes are kept as they are. The label is the content, or there is none. |
| Forms.OptionCallerValue | classes/Form.php:493-500 | When the caller also gives `value`, the `value` slot stays first and the caller's `value` wins. Every key reads as the caller gave it. |
| Forms.OptionNode | classes/Form.php:435-438 | Definition of one walked option: its label as text, its key as value and `selected` when chosen. Pinned down by `OptionNodeFacts`. |
| Forms.PlaceholderNode | classes/Form.php:440-444 | Definition of the placeholder option. Pinned down by `PlaceholderFacts`. |
| Forms.Finish | classes/Form.php:440-450 | Definition of the common tail of `select` and `multiSelect`: the placeholder option unshifted when asked for, `placeholder` unset and `name` merged first. Pinned down by `FinishShape` and `SelectAttrs`. |
| Forms.SelectOptions | classes/Form.php:434-439 | Definition of the walked options of `select`: one option per entry, selected when its key is the stored value. Pinned down by `SelectShape`. |
| Forms.SelectElement | classes/Form.php:432-451 | Definition of `select()`. Pinned down by `Select`, `SelectShape`, `SelectPlaceholder` and `SelectAtMostOne`. |
| Forms.SelectAttrs | classes/Form.php:445-448 | `name` comes first, and the caller's `name` overrides in place. `placeholder` is removed. Every other key and every flag is kept. |
| Forms.UnsetFlagCount | classes/Form.php:445 | Removing a key removes no flag. |
| Forms.FinishShape | classes/Form.php:440-450 | A `select` with the placeholder option first when asked for, then the options in order. |
| Forms.SelectedFlagFacts | classes/Form.php:436 | The flag list holds `selected` if and only if the option is chosen. It holds no `value`. |
| Forms.OptionNodeFacts | classes/Form.php:435-439 | An option is built with its key as `value` in first place and its label as content. It is selected if and only if chosen. |
| Forms.PlaceholderFacts | classes/Form.php:440-444 | The placeholder option shows the placeholder text. It is disabled and hidden, with an empty `value` attribute (a bare `value` flag) and no `value` key, and is selected if and only if asked. |
| Forms.Select | classes/Form.php:432-451 | The loop over the options builds the same element as `SelectElement`. |
| Forms.SelectShape | classes/Form.php:432-451 | After the placeholder, if any, come exactly the options built from the entries, in order. Each has its key as first attribute `value` and its label as content, and is selected if and only if the stored value is that key. |
| Forms.SelectPlaceholder | classes/Form.php:440-446 | The placeholder option comes first, disabled and hidden, with an empty `value` attribute (a bare `value` flag) and no `value` key. It is selected if and only if no value is stored. |
| Forms.SelectAtMostOne | classes/Form.php:435-446 | With distinct keys, at most one option is selected. When the placeholder is selected, no option is. |
| Forms.ShownAtMostOne | classes/Form.php:435-439 | Strict equality with one stored value selects at most one of several distinct keys, and none when nothing is stored. |
| Attributes.InArray | classes/Form.php:469 | Definition of `in_array` without strictness: some entry, flag or keyed, has the value. Pinned down by `Forms.MultipleAsWrittenMissesFlag` and `Forms.MultipleAgrees`. |
| Forms.MultipleAsWritten | classes/Form.php:469-471 | Definition of the `multiple` step as written. Pinned down by `MultipleAsWrittenMissesFlag`, `MultipleAsWrittenDuplicatesFlag` and `MultipleAgrees`. |
| Forms.MultiSelectAsWritten | classes/Form.php:461-483 | Definition of `multiSelect()` as written. Pinned down by `MultiSelectAsWrittenMissesFlag` and `MultiSelectAgrees`. |
| Forms.MultiSelectOptions | classes/Form.php:464-468 | Definition of the walked options of `multiSelect`: one option per entry, selected when its key is in the stored list. Pinned down by `MultiSelectShape`. |
| Forms.MultiSelectElement | classes/Form.php:461-483 | Definition of `multiSelect()` with the corrected `multiple` step. Pinned down by `MultiSelect`, `MultiSelectAttributes`, `MultiSelectShape` and `MultiSelectPlaceholder`. |
| Forms.MultipleAsWrittenMissesFlag | classes/Form.php:469-471 | As written, a `multiple` keyed value, such as a class name, makes the builder skip the `multiple` flag. |
| Forms.MultiSelectAgrees | classes/Form.php:461-483 | Where no entry other than the `multiple` flag has the value `multiple` and there is no `multiple` key, the builder as written and the corrected builder produce the same element. |
| Forms.MultiSelectAsWrittenMissesFlag | classes/Form.php:461-483 | For any form, name and options, the builder as written with a `class` of `multiple` gives a select that is not multiple; the corrected builder gives a multiple one. |
| Forms.SelectAttrsMultiple | classes/Form.php:477-480 | Putting `name` first and removing `placeholder` neither makes a select multiple nor stops it being multiple. |
| Forms.MultipleAsWrittenDuplicatesFlag | classes/Form.php:469-471 | As written, `['multiple' => 'on']` gets a second `multiple`, a flag after the key, because no value is the text `multiple`. The corrected step leaves the list as it is. |
| Forms.Multiple | classes/Form.php:469-471 | The corrected `multiple` step (see Findings), not the lines as written: the select is multiple afterwards. `multiple` is added once, only when neither the flag nor a `multiple` key is present. Nothing else changes. |
| Forms.MultipleAgrees | classes/Form.php:469-471 | Where no entry other than the `multiple` flag has the value `multiple` and there is no `multiple` key, the corrected step and the written one agree. |
| Forms.MultiSelect | classes/Form.php:461-483 | The loop over the options builds the same element as `MultiSelectElement`, which uses the corrected `multiple` step (see Findings). |
| Forms.MultiSelectAttributes | classes/Form.php:469-480 | With the corrected `multiple` step (see Findings), `name` comes first and the select is multiple, with `multiple` added at most once. `placeholder` is removed and every other key and flag is kept. |
| Forms.MultiSelectItems | classes/Form.php:461-483 | A `select` whose options follow the placeholder, in order. |
| Forms.MultiSelectShape | classes/Form.php:461-483 | After the placeholder, if any, come exactly the options built from the entries, in order. Each has its key as first attribute `value` and its label as content, and is selected if and only if its key is in the stored list. |
| Forms.MultipleOffset | classes/Form.php:469-477 | Adding `multiple` does not change whether a placeholder is shown. |
| Forms.MultiSelectPlaceholder | classes/Form.php:472-478 | The placeholder option comes first, disabled, with an empty `value` attribute (a bare `value` flag) and no `value` key. It is selected if and only if nothing is chosen. |
| Forms.StoredContent | classes/Form.php:513 | Definition of `$this->values[$name] ?? ''` as content. Pinned down by `Textarea`. |
| Forms.Textarea | classes/Form.php:509-514 | `name` comes first. The content is the stored scalar; for a stored list of strings, one text node per item, in order; with nothing stored, empty text. So there is always content. `value` is only ever the caller's. |
| Forms.TextareaCloses | classes/Form.php:509-514 | Every textarea rendering ends with `</textarea>`. |
| Forms.ButtonOf | classes/Form.php:523-528 | `type` is forced whatever the caller gave: in place when present, appended otherwise. Every other key is the caller's. The label is the content. |
| Forms.Button | classes/Form.php:523-528 | A `button` element whose `type` is `button` and whose content is the label. Every other key is the caller's. |
| Forms.Reset | classes/Form.php:537-542 | A `button` element whose `type` is `reset` and whose content is the label. Every other key is the caller's. |
| Forms.Submit | classes/Form.php:551-556 | A `button` element whose `type` is `submit` and whose content is the label. Every other key is the caller's. |
| Forms.ButtonRender | classes/Form.php:523-528 | When the caller gives no `type`, a button renders as the caller's attributes, then `type`, then the escaped label and `</button>`. |
| Vectors.ElementValueEscaped | tests/ElementTest.php:27-30 | Attribute values encode `<`, `>`, `"` and `&` and pass the apostrophe. |
| Vectors.ElementContentEscaped | tests/ElementTest.php:43 | Content text is escaped the same way, so the double quote is encoded. |
| Vectors.HtmlEscapeQuotes | tests/HtmlTest.php:15 | `Html::escape` encodes all five characters, the apostrophe as `&apos;`. |
| Vectors.UnfilledOrder | classes/Form.php:269-272 | The file, image and password builders with no attributes give type and name only, whatever is stored. |
| Vectors.FilledOrder | classes/Form.php:166-174 | A stored scalar is injected right after type and name, before the caller's attributes. |
| Vectors.PatternedOrder | classes/Form.php:231-236 | Date, month, time and week with a stored value give type, name, value, then pattern. |
| Vectors.DateInputAttributes | tests/FormTest.php:123 | `date('date')` with `2018-01-01` stored gives type, name, value, pattern, in that order. |
| Vectors.FileInputIgnoresValue | tests/FormTest.php:126 | `file('file')` ignores the stored value. |
| Vectors.CheckableOrder | classes/Form.php:184-192 | Checkbox and radio give type, name, value, and `checked` last when the stored value matches. |
| Vectors.CheckedPrefix | classes/Form.php:186-189 | On an empty array the checked attributes are the given value, then `checked` when it is the stored one. |
| Vectors.CallerValueOrder | classes/Form.php:166-174 | A caller's array with `value` but no `type` or `name` comes unchanged after type and name. |
| Vectors.CheckboxChecked | tests/FormTest.php:118 | `checkbox('name', 'value')` with `value` stored is checked. |
| Vectors.RadioUnchecked | tests/FormTest.php:121 | `radio('name', 'another value')` with `value` stored is not checked. |
| Vectors.TextareaStored | tests/FormTest.php:141 | `textarea('name')` has the stored value as content and only `name` as attribute. |
| Vectors.ButtonDefault | tests/FormTest.php:151 | `button('test')` is a `button` with `type="button"` and the text `test`. |
| Vectors.SelectSecond | tests/FormTest.php:139-140 | With `2` stored, only the second option is selected, and the select carries only `name`. |

## Left out

- Character encoding: `htmlspecialchars`'s encoding parameter, including the one `Html` takes in its constructor, and its handling of invalid byte sequences are not modelled. Text is a sequence of characters and each character is escaped on its own.
- Comparisons are plain string equality. This covers PHP's loose `==` in `checkbox`/`radio` and its strict `===` and `in_array(…, true)` in `select`/`multiSelect`. The model does not cover PHP turning numeric option keys into integers. Stored values and option keys are strings throughout.
- Values other than strings and string lists (numbers, objects, `null`) are not modelled, and neither are `null` attribute values (which `isset` treats as absent).
- Forms.Input: a stored list (an array value) is not injected as an attribute. Writing one there fails in PHP 8, so that path is not modelled.
- Forms.MultiSelect: the builder, `MultiSelectElement` and the lemmas about them use the corrected `multiple` step, not the one at classes/Form.php:469. `MultiSelectAsWritten` is the builder as written, and `MultiSelectAgrees` says where the two agree. The two differ in two ways. With a keyed value `multiple` (`['class' => 'multiple']`) the source adds no flag, while the corrected builder does. With a `multiple` key (`['multiple' => 'on']`) the source appends a second, bare `multiple`, while the corrected builder does not.
- Attribute keys are taken to be non-numeric strings. PHP turns a key that is a decimal integer, such as `'5'`, into an integer key. Such a key would render as a bare flag and `array_merge` would renumber it. Neither is modelled.
- Forms.MultiSelectShape: with a scalar stored, the model treats the selection as empty and the placeholder as unselected. In PHP, `in_array` on a string fails.
- Content that is a bare `Element` object, rather than a list containing one, is not modelled. PHP would cast it to an array of its properties.
- Forms.NewForm: error keys are a sequence and may repeat. In PHP they are array keys and are unique.
- The getters `captions()`, `values()` and `errors()` return the stored fields unchanged and have no members of their own.
- Forms.OptionCallerValue: when the caller passes its own `value` along with a value, the contract states the first slot and every key's value. It does not state the order of the entries after the first.
- classes/Model.php is not part of this model: it is an interface with no logic.
- `Element::name()` and the `Element` constructor are field reads and writes of the datatype and have no members of their own.

## Findings

| source | as written | input that shows it | evidently intended | confidence | as-written member | corrected member |
|---|---|---|---|---|---|---|
| classes/Form.php:469 | `in_array('multiple', $attributes)` searches the values of every entry, keyed ones included | `multiSelect('x', [], ['class' => 'multiple'])`: no `multiple` flag is added and the select is single. Conversely, `multiSelect('x', [], ['multiple' => 'on'])` gets a duplicate bare `multiple` after the key | add the flag exactly when neither the `multiple` flag nor a `multiple` key is present | medium, not executed | Forms.MultipleAsWritten, Forms.MultipleAsWrittenMissesFlag, Forms.MultipleAsWrittenDuplicatesFlag, Forms.MultiSelectAsWritten, Forms.MultiSelectAsWrittenMissesFlag | Forms.Multiple, Forms.MultipleAgrees, Forms.MultiSelectElement, Forms.MultiSelectAgrees |
