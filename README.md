# zenpy class generator: field classification and naming

This project models the core of zenpy's class generator, `zenpy/tools/gen_classes.py`.
The generator reads example JSON documents of the Zendesk API and writes one Python class per document.
The model covers the deterministic logic between a JSON key and the text of the generated class:

- **Field classification** (`Attributes`).
  - One JSON key and the shape of its example value give an `Attribute`.
  - The attribute holds the semantic type (`object_type`), the accessor name (`object_name`), the storage name (`attr_name`), the setter expression (`attr_assignment`), and whether an accessor pair is generated (`is_property`).
  - The key `from` is renamed to `from_` first.
- **Class rendering, as a description instead of text** (`Render`).
  - Which storage fields the constructor sets to `None`, in key order.
  - Which attributes get a getter/setter pair, in key order.
  - Which getter template (date parsing or an API lookup) and which setter template (assigning an expression or storing the argument) each pair uses, and with which names.
- **Names** (`Naming`).
  - The class name built from a spec file's base name: capitalise, cut at `_`, capitalise every word, glue the words.
  - `to_snake_case`, which names the output module. Its two regular-expression substitutions are written out as the left-to-right, non-overlapping scans the regular-expression engine makes over ASCII text.
- **String operations of Python 2** (`Strings`): `endswith`, `in`, `replace(pat, '')` (which deletes every occurrence, not only a suffix), `lower`, `capitalize`, `split`, `join`.

Facts about the code that the model states and proves:

- Every key ending in `_at` gets no accessor, `created_at` with a string value included (`gen_classes.py:171`).
- A key ending in `_ids` gets an accessor exactly when its value is neither a string nor a bool (`gen_classes.py:170-174`).
- The date getter template is reachable. The key `date` with a number, null or object value is typed `date` and gets an accessor (`Render.DateKeyGetsDateGetter`), and so does `date_id` (`Render.DateIdSetterAsWritten`). Among keys typed `date`, only those ending in `_at` can never reach it (`Render.NoDateGetterForAtKeys`).
- The assigning setter writes the field named like the key (`gen_classes.py:85`). The constructor initialises, and the lookup getter reads, the storage name (`gen_classes.py:40`, `80-81`). For an object value the storage name carries a `_` prefix, so the two differ (`Render.AssignSetterStorage`). For example, `assignee_id` with an object value is read from `self._assignee_id` but written to `self.assignee_id`.

JSON values appear only as their shape: `Bool`, `Str`, `Num`, `Null`, `Obj` or `List`.
Bool is its own case and is tested first, as `isinstance` on a Python `bool` would otherwise also match `int`.
A document is an ordered list of key/value pairs in enumeration order.

## Model

| member | source | states |
|---|---|---|
| Strings.RemoveAll | zenpy/tools/gen_classes.py:138 | `replace(pat, '')` never lengthens the string. It shortens it exactly when the pattern is non-empty and occurs. It leaves the string unchanged when the pattern is empty or absent. |
| Strings.RemoveAllAfterStem | zenpy/tools/gen_classes.py:138 | When the stem does not contain the pattern, and the pattern's first character does not recur in it, the occurrence right after the stem is the first one deleted. The rest is then processed on its own. |
| Strings.RemoveAllSuffix | zenpy/tools/gen_classes.py:164 | Deleting a suffix that occurs nowhere else gives the stem back, for a pattern whose first character does not recur in it. |
| Strings.Capitalize | zenpy/tools/gen_classes.py:215 | `capitalize` keeps the length, upper-cases the first character and lower-cases every other one. |
| Strings.CapitalizeKeeps | zenpy/tools/gen_classes.py:215-216 | `capitalize` neither adds nor removes a non-letter such as `_`. |
| Strings.Split | zenpy/tools/gen_classes.py:216 | `split(sep)` gives at least one piece. No piece holds the separator. Joining the pieces with the separator gives the input back. |
| Strings.SplitJoin | zenpy/tools/gen_classes.py:216 | Splitting what was joined gives back the words, for at least one word and when none of them holds the separator. (No words join to `""`, which splits to `[""]`.) |
| Attributes.ObjectType | zenpy/tools/gen_classes.py:126-139 | A key ending in `_id` is never its own type. A key with no `_id` anywhere, no `_at` ending and none of the fixed names is its own type. |
| Attributes.ObjectTypeOfStem | zenpy/tools/gen_classes.py:137-138 | For a stem that does not contain `_id`, `<stem>_id` is typed `<stem>` and `<stem>_ids` is typed `<stem>s` (`group_ids` gives `groups`), unless the key is one of the fixed names. |
| Attributes.ObjectName | zenpy/tools/gen_classes.py:161-167 | The accessor name tries `_at`, then `_ids`, then `_id`. The first one that ends the key is deleted everywhere in it, with `s` appended for `_ids`. A key with none of these endings is unchanged. |
| Attributes.ObjectNameOfStem | zenpy/tools/gen_classes.py:161-167 | `<stem>_at` and `<stem>_id` are named `<stem>`, and `<stem>_ids` is named `<stem>s`, when the stem does not contain the suffix. |
| Attributes.AttrName | zenpy/tools/gen_classes.py:141-153 | The storage name is `_<key>` exactly for an object value and the key itself otherwise, bools and `_at` keys included. The `_at` branch before the last is dead. |
| Attributes.AttrAssignment | zenpy/tools/gen_classes.py:155-159 | A setter expression, when there is one, is longer than the accessor name, so it is never empty. |
| Attributes.AssignmentRules | zenpy/tools/gen_classes.py:155-159 | For `_id` keys, the setter expression is `<name>.id` unless the type is `date` (then there is none). For `_ids` keys it is `[o.id for o in <name>]`. For all other keys there is none. |
| Attributes.IsProperty | zenpy/tools/gen_classes.py:169-177 | There is no accessor exactly when one of these holds: the value is a string or bool, the key ends in `_at`, the key is `id`, or the value is a list whose key does not end in `ids`. |
| Attributes.Classify | zenpy/tools/gen_classes.py:115-124 | Only `from` is renamed (to `from_`). The storage name, setter-expression presence and accessor flag follow their rules on the renamed key. |
| Attributes.FromIsRenamed | zenpy/tools/gen_classes.py:116-119 | `from` is classified exactly as `from_`. |
| Attributes.AtKeyIsPlainDate | zenpy/tools/gen_classes.py:133-171 | An `_at` key is typed `date`, never gets an accessor, and keeps its key as storage name unless the value is an object. |
| Attributes.SingleReference | zenpy/tools/gen_classes.py:119-124 | For a stem that does not contain `_id`, `<stem>_id` with a number, null or object value gets the accessor `<stem>`. Its setter expression is `<stem>.id`, or none when the type is `date`. |
| Attributes.IdListKey | zenpy/tools/gen_classes.py:155-177 | An `_ids` key gets an accessor exactly when its value is neither a string nor a bool. Its setter collects `.id` from every element. |
| Attributes.ListRules | zenpy/tools/gen_classes.py:169-177 | `tags` and `recipients` lists get no accessor. A `collaborator_ids` list, typed `users`, gets one. |
| Attributes.PlainKey | zenpy/tools/gen_classes.py:119-124 | A key with no `_id` anywhere, no `_at` ending and none of the fixed names (`id` and `from` included), with a number, null or object value, is its own type and accessor name, has no setter expression and gets an accessor. |
| Render.Property | zenpy/tools/gen_classes.py:60-111 | A pair exists exactly for a property and is named by the accessor name. It uses the date getter exactly for type `date`, and that getter parses the field named like the key. Otherwise it looks up `get_<type>` on the storage name. It uses the assigning setter exactly when there is a setter expression, and that setter stores the expression into the field named like the key. The default setter stores its own parameter (corrected, see Findings). |
| Render.InitFields | zenpy/tools/gen_classes.py:38-42 | Every non-empty storage name gets a `None` initialiser, and only those names do. |
| Render.Accessors | zenpy/tools/gen_classes.py:49-57 | Every accessor pair comes from one of the attributes. |
| Render.AttributesOf | zenpy/tools/gen_classes.py:29 | One classified attribute per key, in document order. |
| Render.Class | zenpy/tools/gen_classes.py:27-31 | The class keeps its given name and has no more initialisers or pairs than keys. |
| Render.InitFieldsAppend | zenpy/tools/gen_classes.py:38-42 | Initialisers of a concatenation are the initialisers of its parts, in order. |
| Render.AccessorsAppend | zenpy/tools/gen_classes.py:51-57 | Accessor pairs of a concatenation are the pairs of its parts, in order. |
| Render.ClassOfOne | zenpy/tools/gen_classes.py:27-70 | A one-key document gives a `None` initialiser exactly when the storage name is non-empty, and a pair exactly when the attribute is a property. |
| Render.ClassAppend | zenpy/tools/gen_classes.py:27-57 | The class of a document is assembled from the classes of its parts in key order. With ClassOfOne, this fixes the whole class. |
| Render.EmptyKeyNotInitialised | zenpy/tools/gen_classes.py:39-40 | The empty key with a non-object value gets no initialiser. |
| Render.NoDateGetterForAtKeys | zenpy/tools/gen_classes.py:98-100 | No date getter ever reads a field whose key ends in `_at`. |
| Render.DateKeyGetsDateGetter | zenpy/tools/gen_classes.py:98-100 | The key `date` with a number, null or object value gets the accessor `date` with the date getter. |
| Render.DefaultSetterAsWritten | zenpy/tools/gen_classes.py:88-89 | As written, the default setter reads a name other than its parameter exactly for `_id` keys. Those keys reach the default setter only when typed `date`. For every other accessor, the written and corrected setters agree. |
| Render.DefaultSetterNames | zenpy/tools/gen_classes.py:155-167 | For a key without `_at` and without a setter expression, the accessor name differs from the key exactly when the key ends in `_id`, and then the type is `date`. |
| Render.DateIdSetterAsWritten | zenpy/tools/gen_classes.py:67-89 | For `date_id`, the setter `date(self, date)` stores `date_id` as written, and stores `date` once corrected. |
| Render.AssignSetterStorage | zenpy/tools/gen_classes.py:80-85 | The assigning setter writes a field other than the storage name exactly when the value is an object. The lookup getter reads the storage name. |
| Render.ObjectReferenceStorage | zenpy/tools/gen_classes.py:80-85 | For `<stem>_id` with an object value, for a stem that does not contain `_id` and is not `date`: the getter looks up `self._<stem>_id` and the setter writes `<stem>.id` into `self.<stem>_id`. |
| Naming.CapitalizeAll | zenpy/tools/gen_classes.py:216 | Every word is capitalised, and no word gains or loses `_`. |
| Naming.ClassName | zenpy/tools/gen_classes.py:215-216 | A class name contains no `_`. |
| Naming.ClassNameKeepsLetters | zenpy/tools/gen_classes.py:215-216 | Up to case, the class name is the base name with every `_` removed. |
| Naming.ClassNameOfSnakeWords | zenpy/tools/gen_classes.py:215-216 | For at least one word, each of two or more lower-case letters, joined by `_`, the class name is the words capitalised and glued together. |
| Naming.LowerRunLength | zenpy/tools/gen_classes.py:192 | The greedy `[a-z]*` match is the longest run of lower-case letters at the start. |
| Naming.UnderscoreBeforeWords | zenpy/tools/gen_classes.py:192 | The first substitution only inserts `_` characters. |
| Naming.UnderscoreBeforeCapitals | zenpy/tools/gen_classes.py:193 | The second substitution only inserts `_` characters. |
| Naming.UnderscoreBeforeCapitalsIsMarking | zenpy/tools/gen_classes.py:193 | The second substitution puts `_` before exactly the capitals whose left neighbour is a lower-case letter or a digit. |
| Naming.SnakeCase | zenpy/tools/gen_classes.py:191-193 | The result has no capital letters and is the lower-cased name with `_` characters inserted. |
| Naming.WordsPassOnCamel | zenpy/tools/gen_classes.py:192 | On capitalised words glued together, the first substitution separates only the second word of every pair, because each match swallows a whole word. |
| Naming.MarkPairedWords | zenpy/tools/gen_classes.py:193 | The second substitution completes that result into all words separated by `_`. |
| Naming.SnakeCaseOfClassName | zenpy/tools/gen_classes.py:191-216 | For base names of lower-case words of two letters or more joined by `_`, `to_snake_case` of the class name gives back the base name. |
| Naming.OutputFileName | zenpy/tools/gen_classes.py:218 | The output file name ends in `.py` and has no capital letters. |
| Naming.OutputFileKeepsBaseName | zenpy/tools/gen_classes.py:215-218 | `ticket_audit.json` is generated into `ticket_audit.py`, and so is every snake-case base name of that form. |

## Findings

| source | as written | input that shows it | evidently intended | confidence | as-written member | corrected member |
|---|---|---|---|---|---|---|
| zenpy/tools/gen_classes.py:88-89 | The default setter body is `self.<attr_name> = <key>`, but the setter's parameter is named `<object_name>` (line 68). | Key `date_id` with a number or null value. It is typed `date`, so it has no setter expression. It gets `def date(self, date): self.date_id = date_id`, which reads an undefined name. | The setter stores its own argument: `self.<attr_name> = <object_name>`. | high, not executed | Render.DateIdSetterAsWritten | Render.Property |

`Render.PropSetterBodyAsWritten` models the setter selection as written, and `Render.DefaultSetterAsWritten` shows that the two versions differ only for such keys.
`Render.PropSetterBody` is the corrected selection, and `Render.Property` uses it.

## Left out

- Command-line parsing and its usage-error exits (`gen_classes.py:196-212`): process-level input and output.
- The directory glob, JSON loading and file writing (`gen_classes.py:214-219`): file-system I/O. The output file's name (line 218) is modelled.
- The path handling of line 215 (`os.path.basename`, `os.path.splitext`): it sits outside the class-generation core. `Naming.ClassName` starts from the base name without extension.
- Jinja2 template rendering and its whitespace trimming (`gen_classes.py:13-14`, `104`, `111`): a foreign library. The model records which template is chosen and which names fill it.
- The fixed header lines importing `dateutil` and `BaseObject` (`gen_classes.py:19-22`), and the constructor's constant `self.api = api` line (line 37): constant text.
- `Attribute.__str__` and `__repr__` (`gen_classes.py:179-188`): debug formatting.
- The order of `dict.iteritems()` (line 29) is not fixed by Python 2. A document is modelled as a sequence in whatever order the dictionary yields.
- Case mapping is modelled for ASCII only, as the regular expressions' `[A-Z]`, `[a-z]` and `[0-9]` classes read it. Python 2 byte strings under the default locale do the same.
- Render.InitFields: its own contract states membership and non-emptiness only. The exact sequence of initialisers follows from Render.ClassOfOne and Render.ClassAppend.
- Render.Accessors: its own contract states only where each pair comes from. The exact sequence of pairs follows from Render.ClassOfOne and Render.ClassAppend.
- Naming.SnakeCaseOfClassName: stated only for words of two or more lower-case letters. Some base names with one-letter words do not come back: `a_b` gives `AB`, which gives `ab`.
