/** The class renderer, as an abstract class description instead of text:
    which fields the constructor sets to `None`, which attributes get a
    getter/setter pair, and which getter and setter template each pair uses
    with which names filled in. */
module Render {
  import opened Strings
  import opened Attributes

  /** The getter body: `DATE_TEMPLATE` parses `self.<field>` as a date,
      `PROPERTY_TEMPLATE` looks `self.<field>` up with `self.api.get_<resource>`. */
  datatype Getter = DateGetter(field: string) | ApiGetter(field: string, resource: string)

  /** The setter body: `SETTER_TEMPLATE_ASSIGN` stores `self.<field> = <expr>`,
      `SETTER_TEMPLATE_DEFAULT` stores `self.<field> = <source>`. */
  datatype Setter = AssignSetter(field: string, expr: string) | DefaultSetter(field: string, source: string)

  /** One `@property` getter and its `.setter`, both named `name`; the
      setter's parameter is also called `name`. */
  datatype Accessor = Accessor(name: string, getter: Getter, setter: Setter)

  /** A generated class: its name, the storage fields its `__init__` sets to
      `None` after `self.api = api`, in order, and its accessor pairs, in order. */
  datatype ClassDesc = ClassDesc(name: string, initFields: seq<string>, accessors: seq<Accessor>)

  /** Python truthiness of an optional string. */
  predicate Truthy(s: Option<string>) {
    s.Some? && s.value != ""
  }

  /** `Property.get_prop_body` */
  function PropBody(a: Attribute): (g: Getter)
  {
    if a.objectType == "date" then DateGetter(a.key) else ApiGetter(a.attrName, a.objectType)
  }

  /** `Property.get_prop_setter_body` as written: the default setter stores
      the variable named like the key, although the setter's parameter is
      named like the accessor. */
  function PropSetterBodyAsWritten(a: Attribute): (s: Setter)
  {
    if Truthy(a.attrAssignment) then AssignSetter(a.key, a.attrAssignment.value)
    else DefaultSetter(a.attrName, a.key)
  }

  /** `Property.get_prop_setter_body` with the default setter storing the
      setter's own parameter, which is what the rest of this model uses. */
  function PropSetterBody(a: Attribute): (s: Setter)
  {
    if Truthy(a.attrAssignment) then AssignSetter(a.key, a.attrAssignment.value)
    else DefaultSetter(a.attrName, a.objectName)
  }

  /** `Property` rendered: an accessor pair exactly for an attribute flagged
      as a property, named by its accessor name; the date getter, parsing the
      field named like the key, exactly for the type `date`, otherwise a
      lookup by the semantic type on the storage field; the assigning setter,
      storing the expression into the field named like the key, exactly when
      there is a setter expression. */
  function Property(a: Attribute): (r: Option<Accessor>)
    ensures r.Some? <==> a.isProperty
    ensures r.Some? ==> r.value.name == a.objectName
    ensures r.Some? ==> (r.value.getter.DateGetter? <==> a.objectType == "date")
    ensures r.Some? && r.value.getter.DateGetter? ==> r.value.getter == DateGetter(a.key)
    ensures r.Some? && r.value.getter.ApiGetter? ==>
              r.value.getter == ApiGetter(a.attrName, a.objectType)
    ensures r.Some? ==> (r.value.setter.AssignSetter? <==> Truthy(a.attrAssignment))
    ensures r.Some? && r.value.setter.AssignSetter? ==>
              r.value.setter == AssignSetter(a.key, a.attrAssignment.value)
    ensures r.Some? && r.value.setter.DefaultSetter? ==>
              r.value.setter == DefaultSetter(a.attrName, r.value.name)
  {
    if a.isProperty then Some(Accessor(a.objectName, PropBody(a), PropSetterBody(a))) else None
  }

  /** The `{% if attr.attr_name %}` loop of `Init`: the non-empty storage
      names, in attribute order. */
  function InitFields(attrs: seq<Attribute>): (r: seq<string>)
    ensures |r| <= |attrs|
    ensures forall i :: 0 <= i < |r| ==> r[i] != ""
    ensures forall i :: 0 <= i < |attrs| && attrs[i].attrName != "" ==> attrs[i].attrName in r
    ensures forall f :: f in r ==> exists i :: 0 <= i < |attrs| && attrs[i].attrName == f
    decreases |attrs|
  {
    if attrs == [] then []
    else
      var rest := InitFields(attrs[1..]);
      assert forall i :: 1 <= i < |attrs| ==> attrs[i] == attrs[1..][i - 1];
      if attrs[0].attrName != "" then [attrs[0].attrName] + rest else rest
  }

  /** `Properties`: the accessor pairs of the attributes flagged as
      properties, in attribute order. */
  function Accessors(attrs: seq<Attribute>): (r: seq<Accessor>)
    ensures |r| <= |attrs|
    ensures forall x :: x in r ==> exists i :: 0 <= i < |attrs| && Property(attrs[i]) == Some(x)
    decreases |attrs|
  {
    if attrs == [] then []
    else
      var rest := Accessors(attrs[1..]);
      assert forall i :: 1 <= i < |attrs| ==> attrs[i] == attrs[1..][i - 1];
      match Property(attrs[0])
      case Some(x) => [x] + rest
      case None => rest
  }

  /** The list comprehension of `Class.__init__`: one attribute per key, in
      document order. */
  function AttributesOf(doc: seq<(string, Shape)>): (r: seq<Attribute>)
    ensures |r| == |doc|
    ensures forall i :: 0 <= i < |doc| ==> r[i] == Classify(doc[i].0, doc[i].1)
  {
    seq(|doc|, i requires 0 <= i < |doc| => Classify(doc[i].0, doc[i].1))
  }

  /** `Class`: the class named `name` for a document given as its key/value
      pairs in enumeration order. */
  function Class(name: string, doc: seq<(string, Shape)>): (c: ClassDesc)
    ensures c.name == name
    ensures |c.initFields| <= |doc| && |c.accessors| <= |doc|
  {
    var attrs := AttributesOf(doc);
    ClassDesc(name, InitFields(attrs), Accessors(attrs))
  }

  lemma {:induction false} InitFieldsAppend(a: seq<Attribute>, b: seq<Attribute>)
    ensures InitFields(a + b) == InitFields(a) + InitFields(b)
    decreases |a|
  {
    if a == [] {
      assert a + b == b;
    } else {
      assert (a + b)[1..] == a[1..] + b;
      InitFieldsAppend(a[1..], b);
    }
  }

  lemma {:induction false} AccessorsAppend(a: seq<Attribute>, b: seq<Attribute>)
    ensures Accessors(a + b) == Accessors(a) + Accessors(b)
    decreases |a|
  {
    if a == [] {
      assert a + b == b;
    } else {
      assert (a + b)[1..] == a[1..] + b;
      AccessorsAppend(a[1..], b);
    }
  }

  /** The class of a one-key document: a `None` initialiser when the storage
      name is non-empty, an accessor pair when the attribute is a property. */
  lemma ClassOfOne(name: string, key: string, value: Shape)
    ensures var a := Classify(key, value);
      Class(name, [(key, value)]) ==
        ClassDesc(name,
                  if a.attrName != "" then [a.attrName] else [],
                  if a.isProperty then [Property(a).value] else [])
  {
    var attrs := AttributesOf([(key, value)]);
    assert attrs == [Classify(key, value)];
    assert attrs[1..] == [];
  }

  /** Fields and accessors keep document order: the class of a document is
      built piece by piece from the classes of its parts. */
  lemma ClassAppend(name: string, d1: seq<(string, Shape)>, d2: seq<(string, Shape)>)
    ensures Class(name, d1 + d2).initFields == Class(name, d1).initFields + Class(name, d2).initFields
    ensures Class(name, d1 + d2).accessors == Class(name, d1).accessors + Class(name, d2).accessors
  {
    assert AttributesOf(d1 + d2) == AttributesOf(d1) + AttributesOf(d2);
    InitFieldsAppend(AttributesOf(d1), AttributesOf(d2));
    AccessorsAppend(AttributesOf(d1), AttributesOf(d2));
  }

  /** Only an empty key with a value that is not an object yields an empty
      storage name, and then the constructor does not initialise it. */
  lemma EmptyKeyNotInitialised(name: string, value: Shape)
    requires !value.Obj?
    ensures Class(name, [("", value)]).initFields == []
  {
    ClassOfOne(name, "", value);
  }

  /** A date getter never comes from a key ending in `_at`: those keys get
      no accessor at all. */
  lemma NoDateGetterForAtKeys(name: string, doc: seq<(string, Shape)>)
    ensures forall x :: x in Class(name, doc).accessors && x.getter.DateGetter? ==>
              !EndsWith(x.getter.field, "_at")
  {
    var attrs := AttributesOf(doc);
    forall x | x in Class(name, doc).accessors && x.getter.DateGetter?
      ensures !EndsWith(x.getter.field, "_at")
    {
      var i :| 0 <= i < |attrs| && Property(attrs[i]) == Some(x);
      assert attrs[i].isProperty && x.getter == DateGetter(attrs[i].key);
    }
  }

  /** The date getter is still reached: the key `date` with a number, null
      or object value has the type `date` and is a property. */
  lemma DateKeyGetsDateGetter(value: Shape)
    requires value.Num? || value.Null? || value.Obj?
    ensures var a := Classify("date", value);
      Property(a) == Some(Accessor("date", DateGetter("date"), DefaultSetter(a.attrName, "date")))
  {
    DateKeyAttribute(value);
  }

  lemma DateKeyAttribute(value: Shape)
    requires value.Num? || value.Null? || value.Obj?
    ensures var a := Classify("date", value);
      a.key == "date" && a.objectType == "date" && a.objectName == "date"
      && a.attrAssignment == None && a.isProperty
  {
    var key := "date";
    assert !EndsWith(key, "_at") && !EndsWith(key, "_id") && !EndsWith(key, "_ids") && !EndsWith(key, "ids");
    assert !Occurs(key, "_id") by {
      NotOccurs(key, "_id");
    }
    PlainKey(key, value);
  }

  /** As written, the default setter reads a variable other than its own
      parameter exactly for keys ending in `_id`; those reach the default
      setter only when their type is `date`.  For every other accessor the
      written setter and the corrected one agree. */
  lemma DefaultSetterAsWritten(key: string, value: Shape)
    ensures var a := Classify(key, value);
      a.isProperty && !Truthy(a.attrAssignment) ==>
        && (PropSetterBodyAsWritten(a).source != a.objectName <==> EndsWith(a.key, "_id"))
        && (EndsWith(a.key, "_id") ==> a.objectType == "date")
    ensures var a := Classify(key, value);
      a.isProperty && !EndsWith(a.key, "_id") ==> PropSetterBodyAsWritten(a) == PropSetterBody(a)
  {
    var a := Classify(key, value);
    var k := a.key;
    assert a.objectName == ObjectName(k) && a.objectType == ObjectType(k);
    assert a.attrAssignment == AttrAssignment(a.objectName, a.objectType, k);
    assert Truthy(a.attrAssignment) <==> a.attrAssignment.Some?;
    if a.isProperty && !Truthy(a.attrAssignment) {
      DefaultSetterNames(k);
    }
  }

  /** The names a key's default setter involves, for a key without the
      `_at` ending and without a setter expression. */
  lemma DefaultSetterNames(k: string)
    requires !EndsWith(k, "_at")
    requires AttrAssignment(ObjectName(k), ObjectType(k), k) == None
    ensures ObjectName(k) != k <==> EndsWith(k, "_id")
    ensures EndsWith(k, "_id") ==> ObjectType(k) == "date"
  {
    EndsWithOccurs(k, "_id");
    if EndsWith(k, "_id") {
      assert !EndsWith(k, "_ids") by {
        assert k[|k| - 1] == 'd';
      }
      assert |ObjectName(k)| < |k|;
      assert ObjectType(k) != k;
    }
  }

  /** The key `date_id` with a number or null value: the accessor `date`
      gets the date getter and a setter `date(self, date)` whose body, as
      written, stores `date_id`, a name the setter never defines. */
  lemma DateIdSetterAsWritten(value: Shape)
    requires value.Num? || value.Null?
    ensures var a := Classify("date_id", value);
      && Property(a).Some? && Property(a).value.name == "date"
      && Property(a).value.getter == DateGetter("date_id")
      && PropSetterBodyAsWritten(a) == DefaultSetter("date_id", "date_id")
      && Property(a).value.setter == DefaultSetter("date_id", "date")
  {
    var stem := "date";
    assert !Occurs(stem, "_id") by {
      NotOccurs(stem, "_id");
    }
    assert stem + "_id" == "date_id";
    assert !IsSpecialKey("date_id");
    ObjectTypeOfStem(stem);
    SingleReference(stem, value);
  }

  /** The assigning setter stores into the field named like the key, while
      the constructor initialises, and the lookup getter reads, the storage
      name.  The two differ exactly for an object value, whose storage name
      carries the `_` prefix: for `<stem>_id` with an object value the getter
      reads `self._<stem>_id` and the setter writes `self.<stem>_id`. */
  lemma AssignSetterStorage(key: string, value: Shape)
    ensures var a := Classify(key, value);
      Property(a).Some? && Property(a).value.setter.AssignSetter? ==>
        && (Property(a).value.setter.field != a.attrName <==> value.Obj?)
        && (Property(a).value.getter.ApiGetter? ==> Property(a).value.getter.field == a.attrName)
  {
    var a := Classify(key, value);
    if value.Obj? {
      assert |a.attrName| == |a.key| + 1;
    }
  }

  /** `<stem>_id` with an object value, for any stem other than `date`: the
      getter looks up `self._<stem>_id`, the setter writes `self.<stem>_id`. */
  lemma ObjectReferenceStorage(stem: string)
    requires !Occurs(stem, "_id") && stem != "date"
    ensures var a := Classify(stem + "_id", Obj);
      && Property(a).Some?
      && Property(a).value.getter == ApiGetter("_" + stem + "_id", a.objectType)
      && Property(a).value.setter == AssignSetter(stem + "_id", stem + ".id")
  {
    var key := stem + "_id";
    assert ObjectType(key) != "date" by {
      ObjectTypeOfStem(stem);
    }
    SingleReference(stem, Obj);
    assert "_" + key == "_" + stem + "_id";
  }
}
