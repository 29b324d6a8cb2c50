/** The field classifier of the class generator: from one JSON key and the
    shape of its example value, the `Attribute` record with its semantic type,
    accessor name, storage name, setter expression and whether an accessor
    pair is generated. */
module Attributes {
  import opened Strings

  /** The kinds of JSON value an example document can hold.  A Python `bool`
      is its own case here, apart from `Num`. */
  datatype Shape = Bool | Str | Num | Null | Obj | List

  datatype Option<T> = None | Some(value: T)

  datatype Attribute = Attribute(
    key: string,                    // the (possibly renamed) JSON key
    objectType: string,             // semantic type, `object_type`
    objectName: string,             // accessor name, `object_name`
    attrName: string,               // storage name, `attr_name`
    attrAssignment: Option<string>, // setter expression, `attr_assignment`
    isProperty: bool                // whether an accessor pair is emitted
  )

  const UserKeys: seq<string> := ["assignee_id", "submitter_id", "requester_id", "author_id", "updater_id"]
  const UsersKeys: seq<string> := ["recipients", "collaborator_ids"]
  const TopicKeys: seq<string> := ["forum_topic_id"]

  predicate IsSpecialKey(key: string) {
    key in UserKeys || key in UsersKeys || key in TopicKeys
  }

  /** `get_object_type`.  A key ending in `_id` never keeps its own name as
      its type, and a plain key (no `_id` anywhere, no `_at` ending, none of
      the fixed names) is its own type. */
  function ObjectType(key: string): (r: string)
    ensures EndsWith(key, "_id") ==> r != key
    ensures !IsSpecialKey(key) && !EndsWith(key, "_at") && key != "id" && !Occurs(key, "_id") ==> r == key
  {
    EndsWithOccurs(key, "_id");
    if key in UserKeys then "user"
    else if key in UsersKeys then "users"
    else if key in TopicKeys then "topic"
    else if EndsWith(key, "_at") then "date"
    else if key == "id" then "id"
    else RemoveAll(key, "_id")
  }

  /** The `for replacement in ('_at', '_id')` loop of `get_object_name`:
      each round first tests the current replacement, then `_ids`, and
      returns on the first hit. */
  function ObjectNameScan(key: string, replacements: seq<string>): string
    decreases |replacements|
  {
    if replacements == [] then key
    else if EndsWith(key, replacements[0]) then RemoveAll(key, replacements[0])
    else if EndsWith(key, "_ids") then RemoveAll(key, "_ids") + "s"
    else ObjectNameScan(key, replacements[1..])
  }

  /** `get_object_name` (its value argument is unused there and omitted).
      The suffixes are tried in the order `_at`, `_ids`, `_id`; only the first
      that ends the key applies, and it is removed wherever it occurs. */
  function ObjectName(key: string): (r: string)
    ensures EndsWith(key, "_at") ==> r == RemoveAll(key, "_at")
    ensures !EndsWith(key, "_at") && EndsWith(key, "_ids") ==> r == RemoveAll(key, "_ids") + "s"
    ensures !EndsWith(key, "_at") && !EndsWith(key, "_ids") && EndsWith(key, "_id") ==> r == RemoveAll(key, "_id")
    ensures !EndsWith(key, "_at") && !EndsWith(key, "_ids") && !EndsWith(key, "_id") ==> r == key
  {
    ObjectNameScan(key, ["_at", "_id"])
  }

  /** `get_attr_name`, branch for branch.  Only an object value gets the
      private `_` prefix; the `_at` branch before the last is never reached,
      because the branch before it already returns for every `_at` key. */
  function AttrName(key: string, value: Shape): (r: string)
    ensures r == if value.Obj? then "_" + key else key
  {
    if value.Bool? then key
    else if value.Obj? then "_" + key
    else if key == "id" || EndsWith(key, "_ids") || key in ["tags"] then key
    else if EndsWith(key, "_id") || EndsWith(key, "_at") then key
    else if EndsWith(key, "_at") then "_" + RemoveAll(key, "_at")
    else key
  }

  /** `get_attr_assignment`: `None` stands for the function falling off its
      end.  An expression, when there is one, is never empty text, so the
      setter template's truth test is the same as presence. */
  function AttrAssignment(objectName: string, objectType: string, key: string): (r: Option<string>)
    ensures r.Some? ==> |r.value| > |objectName|
  {
    if objectType != key && objectType != "date" && EndsWith(key, "_id") then Some(objectName + ".id")
    else if EndsWith(key, "_ids") then Some("[o.id for o in " + objectName + "]")
    else None
  }

  /** The two classes `get_is_property` iterates over. */
  datatype PyType = BaseString | BoolType

  predicate IsInstance(value: Shape, t: PyType) {
    match t
    case BaseString => value.Str?
    case BoolType => value.Bool?
  }

  /** `any([...  for t in types])` of `get_is_property`: the type test
      changes from round to round, the key tests do not. */
  predicate AnyExcludes(key: string, value: Shape, types: seq<PyType>)
    decreases |types|
  {
    types != [] &&
    ((IsInstance(value, types[0])
      || EndsWith(key, "_at")
      || key == "id"
      || (!EndsWith(key, "ids") && value.List?))
     || AnyExcludes(key, value, types[1..]))
  }

  /** `get_is_property`: no accessor exactly for string and bool values, keys
      ending in `_at`, the key `id`, and lists whose key does not end in
      `ids`. */
  function IsProperty(key: string, value: Shape): (r: bool)
    ensures !r <==> value.Str? || value.Bool? || EndsWith(key, "_at") || key == "id"
                    || (value.List? && !EndsWith(key, "ids"))
  {
    !AnyExcludes(key, value, [BaseString, BoolType])
  }

  /** `Attribute.__init__`: `from` is renamed to `from_` before anything is
      derived; every field is then computed from the renamed key. */
  function Classify(name: string, value: Shape): (a: Attribute)
    ensures a.key == if name == "from" then "from_" else name
    ensures a.attrName == if value.Obj? then "_" + a.key else a.key
    ensures a.attrAssignment.Some? <==>
              (EndsWith(a.key, "_id") && a.objectType != "date") || EndsWith(a.key, "_ids")
    ensures !a.isProperty <==> value.Str? || value.Bool? || EndsWith(a.key, "_at") || a.key == "id"
                               || (value.List? && !EndsWith(a.key, "ids"))
  {
    var key := if name == "from" then "from_" else name;
    var objectType := ObjectType(key);
    var objectName := ObjectName(key);
    Attribute(key, objectType, objectName, AttrName(key, value),
              AttrAssignment(objectName, objectType, key), IsProperty(key, value))
  }

  /** The renaming of `from` is the only one, and it happens before any
      classification. */
  lemma FromIsRenamed(value: Shape)
    ensures Classify("from", value) == Classify("from_", value)
    ensures Classify("from", value).key == "from_"
  {
  }

  /** A reference to a single entity is typed by its stem
      (`organization_id` is an `organization`), and a list of references by
      the plural of its stem (`group_ids` are `groups`). */
  lemma {:induction false} ObjectTypeOfStem(stem: string)
    requires !Occurs(stem, "_id")
    ensures !IsSpecialKey(stem + "_id") ==> ObjectType(stem + "_id") == stem
    ensures !IsSpecialKey(stem + "_ids") ==> ObjectType(stem + "_ids") == stem + "s"
  {
    RemoveAllSuffix(stem, "_id");
    RemoveAllAfterStem(stem, "_id", "s");
    assert stem + "_ids" == stem + "_id" + "s";
    assert RemoveAll("s", "_id") == "s";
    assert !EndsWith(stem + "_id", "_at") by {
      assert (stem + "_id")[|stem| + 2] == 'd';
    }
    assert !EndsWith(stem + "_ids", "_at") by {
      assert (stem + "_ids")[|stem| + 3] == 's';
    }
  }

  /** The accessor name of `<stem>_at` is `<stem>`, of `<stem>_id` is
      `<stem>`, of `<stem>_ids` is `<stem>s`, when the stem does not itself
      contain the suffix. */
  lemma ObjectNameOfStem(stem: string)
    ensures !Occurs(stem, "_at") ==> ObjectName(stem + "_at") == stem
    ensures !Occurs(stem, "_id") ==> ObjectName(stem + "_id") == stem
    ensures !Occurs(stem, "_ids") ==> ObjectName(stem + "_ids") == stem + "s"
  {
    if !Occurs(stem, "_at") {
      ObjectNameOfAtKey(stem);
    }
    if !Occurs(stem, "_id") {
      ObjectNameOfIdKey(stem);
    }
    if !Occurs(stem, "_ids") {
      ObjectNameOfIdsKey(stem);
    }
  }

  lemma ObjectNameOfAtKey(stem: string)
    requires !Occurs(stem, "_at")
    ensures ObjectName(stem + "_at") == stem
  {
    var key := stem + "_at";
    assert EndsWith(key, "_at");
    assert RemoveAll(key, "_at") == stem by {
      RemoveAllSuffix(stem, "_at");
    }
  }

  lemma ObjectNameOfIdKey(stem: string)
    requires !Occurs(stem, "_id")
    ensures ObjectName(stem + "_id") == stem
  {
    var key := stem + "_id";
    assert key[|stem| + 2] == 'd';
    assert EndsWith(key, "_id") && !EndsWith(key, "_at") && !EndsWith(key, "_ids");
    assert RemoveAll(key, "_id") == stem by {
      RemoveAllSuffix(stem, "_id");
    }
  }

  lemma ObjectNameOfIdsKey(stem: string)
    requires !Occurs(stem, "_ids")
    ensures ObjectName(stem + "_ids") == stem + "s"
  {
    var key := stem + "_ids";
    assert key[|stem| + 3] == 's';
    assert EndsWith(key, "_ids") && !EndsWith(key, "_at");
    assert RemoveAll(key, "_ids") == stem by {
      RemoveAllSuffix(stem, "_ids");
    }
  }

  /** The setter expression: `<name>.id` for a key ending in `_id` unless its
      type is `date` (so `assignee_id` gives `assignee.id` and `date_id` gives
      none); `[o.id for o in <name>]` for a key ending in `_ids`; none
      otherwise. */
  lemma AssignmentRules(key: string)
    ensures var objectType, objectName := ObjectType(key), ObjectName(key);
      var r := AttrAssignment(objectName, objectType, key);
      && (EndsWith(key, "_id") ==> r == if objectType == "date" then None else Some(objectName + ".id"))
      && (EndsWith(key, "_ids") ==> r == Some("[o.id for o in " + objectName + "]"))
      && (!EndsWith(key, "_id") && !EndsWith(key, "_ids") ==> r == None)
  {
    if EndsWith(key, "_id") {
      assert ObjectType(key) != key;
      assert !EndsWith(key, "_ids") by {
        assert key[|key| - 1] == 'd';
      }
    }
  }

  /** A key ending in `_at` is typed `date` and never gets an accessor; its
      storage name is the key itself unless the value is an object. */
  lemma AtKeyIsPlainDate(name: string, value: Shape)
    requires EndsWith(name, "_at")
    ensures var a := Classify(name, value);
      a.objectType == "date" && !a.isProperty && (!value.Obj? ==> a.attrName == name)
  {
    assert name != "from" by { assert "from"[3] != 't'; }
    assert !IsSpecialKey(name) by {
      forall k | k in UserKeys + UsersKeys + TopicKeys ensures !EndsWith(k, "_at") {
        assert k[|k| - 1] != 't';
      }
    }
  }

  /** A string whose characters all differ from the pattern's first one does
      not contain the pattern. */
  lemma {:induction false} NotOccurs(s: string, pat: string)
    requires |pat| > 0
    requires forall i :: 0 <= i < |s| ==> s[i] != pat[0]
    ensures !Occurs(s, pat)
    decreases |s|
  {
    if |s| > 0 {
      if |pat| <= |s| {
        assert s[..|pat|][0] != pat[0];
      }
      NotOccurs(s[1..], pat);
    }
  }

  /** A reference to one entity, `<stem>_id` with a number, null or object
      value: the accessor is named `<stem>` and its setter stores
      `<stem>.id`, unless the stem makes the type `date`. */
  lemma SingleReference(stem: string, value: Shape)
    requires !Occurs(stem, "_id")
    requires value.Num? || value.Null? || value.Obj?
    ensures var a := Classify(stem + "_id", value);
      && a.key == stem + "_id" && a.objectName == stem && a.isProperty
      && a.attrAssignment == if a.objectType == "date" then None else Some(stem + ".id")
  {
    var key := stem + "_id";
    assert key[|key| - 1] == 'd' && key[|key| - 3] == '_';
    assert key != "from" && key != "id";
    assert EndsWith(key, "_id") && !EndsWith(key, "_at") && !EndsWith(key, "_ids") && !EndsWith(key, "ids");
    assert ObjectName(key) == stem by {
      ObjectNameOfStem(stem);
    }
    assert ObjectType(key) != key;
    assert IsProperty(key, value);
  }

  /** A list of references, any key ending in `_ids`: an accessor exactly
      when the value is neither a string nor a bool, and its setter collects
      `.id` from each element. */
  lemma IdListKey(name: string, value: Shape)
    requires EndsWith(name, "_ids")
    ensures var a := Classify(name, value);
      && (a.isProperty <==> !value.Str? && !value.Bool?)
      && a.attrAssignment == Some("[o.id for o in " + a.objectName + "]")
  {
    assert name[|name| - 1] == 's' && name[|name| - 4] == '_';
    assert name != "from" && name != "id";
    assert !EndsWith(name, "_at") && !EndsWith(name, "_id");
    assert EndsWith(name, "ids") by {
      assert name[|name| - 3..] == name[|name| - 4..][1..];
    }
  }

  /** Lists: `tags` and `recipients` lists are exposed directly, while a
      `collaborator_ids` list, typed `users`, gets an accessor. */
  lemma ListRules()
    ensures !IsProperty("tags", List)
    ensures !IsProperty("recipients", List)
    ensures IsProperty("collaborator_ids", List) && ObjectType("collaborator_ids") == "users"
  {
    assert !EndsWith("tags", "ids");
    assert !EndsWith("recipients", "ids");
    assert EndsWith("collaborator_ids", "ids");
    assert "collaborator_ids" in UsersKeys;
  }

  /** A key with no `_id` anywhere, no `_at` ending and none of the fixed
      names, with a number, null or object value, is its own type and accessor name, has no
      setter expression and gets an accessor pair. */
  lemma PlainKey(key: string, value: Shape)
    requires !IsSpecialKey(key) && key != "from" && key != "id"
    requires !Occurs(key, "_id") && !EndsWith(key, "_at")
    requires value.Num? || value.Null? || value.Obj?
    ensures var a := Classify(key, value);
      a.key == key && a.objectType == key && a.objectName == key
      && a.attrAssignment == None && a.isProperty
  {
    EndsWithOccurs(key, "_id");
    assert !EndsWith(key, "_ids") by {
      EndsWithOccurs(key, "_ids");
      assert "_id" + "s" == "_ids";
      OccursPrefix(key, "_id", "s");
    }
    assert ObjectType(key) == key;
    assert ObjectName(key) == key;
    assert AttrAssignment(key, key, key) == None;
  }
}
