/**
 * The CSS custom-data provider of src/entities/css/dataProvider.ts: it keeps,
 * per category, the entries of a custom-data object whose `name` is a
 * string, in their original order.
 *
 * The data object is untyped JSON, so it is modelled as a JavaScript value.
 * Reading a property of `null` or `undefined` throws a `TypeError`; reading
 * a property that a value does not have gives `undefined`.
 */
module CssData {
  import opened Wrappers

  datatype Value =
    | Undefined
    | Null
    | Bool(b: bool)
    | Number(n: real)
    | Str(s: string)
    | Array(items: seq<Value>)
    | Object(fields: map<string, Value>)

  /** The error JavaScript raises when reading property `reading` of `null` or `undefined`. */
  datatype TypeError = TypeError(reading: string)

  predicate Nullish(v: Value)
  {
    v.Null? || v.Undefined?
  }

  /** `v[key]`: an own field of an object, `undefined` for anything else, an error on a nullish value. */
  function Member(v: Value, key: string): (r: Result<Value, TypeError>)
    ensures r.Failure? <==> Nullish(v)
    ensures r.Failure? ==> r.error == TypeError(key)
    ensures r.Success? && r.value != Undefined ==> v.Object? && key in v.fields && v.fields[key] == r.value
    ensures v.Object? && key in v.fields ==> r == Success(v.fields[key])
    ensures !Nullish(v) && !(v.Object? && key in v.fields) ==> r == Success(Undefined)
  {
    match v
    case Undefined => Failure(TypeError(key))
    case Null => Failure(TypeError(key))
    case Object(fields) => if key in fields then Success(fields[key]) else Success(Undefined)
    case _ => Success(Undefined)
  }

  /** An entry the provider keeps: an object with a string-valued `name`. */
  predicate Named(d: Value)
  {
    d.Object? && "name" in d.fields && d.fields["name"].Str?
  }

  /**
   * `typeof d.name === "string"`, the test the four predicates
   * `isPropertyData`, `isAtDirective`, `isPseudoClassData` and
   * `isPseudoElementData` share.
   */
  function IsEntry(d: Value): (r: Result<bool, TypeError>)
    ensures r.Failure? <==> Nullish(d)
    ensures r.Success? ==> (r.value <==> Named(d))
  {
    match Member(d, "name")
    case Failure(e) => Failure(e)
    case Success(name) => Success(name.Str?)
  }

  /** The named entries of `items`, in order: the reference for what one loop keeps. */
  function Entries(items: seq<Value>): (r: seq<Value>)
  {
    if |items| == 0 then []
    else
      var init := Entries(items[..|items| - 1]);
      if Named(items[|items| - 1]) then init + [items[|items| - 1]] else init
  }

  /** The four categories of custom data, each read from the data object's field of that name. */
  datatype Category = Properties | AtDirectives | PseudoClasses | PseudoElements
  {
    function Key(): string
    {
      match this
      case Properties => "properties"
      case AtDirectives => "atDirectives"
      case PseudoClasses => "pseudoClasses"
      case PseudoElements => "pseudoElements"
    }
  }

  datatype Provider = Provider(properties: seq<Value>, atDirectives: seq<Value>,
                               pseudoClasses: seq<Value>, pseudoElements: seq<Value>)
  {
    /** The list kept for one category. */
    function List(c: Category): seq<Value>
    {
      match c
      case Properties => properties
      case AtDirectives => atDirectives
      case PseudoClasses => pseudoClasses
      case PseudoElements => pseudoElements
    }
  }

  /** The provider's invariant: every kept entry is named. */
  predicate AllNamed(p: Provider)
  {
    forall c: Category, d :: d in p.List(c) ==> Named(d)
  }

  type CSSDataProvider = p: Provider | AllNamed(p) witness Provider([], [], [], [])

  function ProvideProperties(p: CSSDataProvider): (r: seq<Value>)
    ensures r == p.List(Properties)
    ensures forall d :: d in r ==> Named(d)
  {
    assert p.List(Properties) == p.properties;
    p.properties
  }

  function ProvideAtDirectives(p: CSSDataProvider): (r: seq<Value>)
    ensures r == p.List(AtDirectives)
    ensures forall d :: d in r ==> Named(d)
  {
    assert p.List(AtDirectives) == p.atDirectives;
    p.atDirectives
  }

  function ProvidePseudoClasses(p: CSSDataProvider): (r: seq<Value>)
    ensures r == p.List(PseudoClasses)
    ensures forall d :: d in r ==> Named(d)
  {
    assert p.List(PseudoClasses) == p.pseudoClasses;
    p.pseudoClasses
  }

  function ProvidePseudoElements(p: CSSDataProvider): (r: seq<Value>)
    ensures r == p.List(PseudoElements)
    ensures forall d :: d in r ==> Named(d)
  {
    assert p.List(PseudoElements) == p.pseudoElements;
    p.pseudoElements
  }

  /** The items `Array.isArray` accepts for a field, or none. */
  function ArrayItems(v: Value): seq<Value>
  {
    if v.Array? then v.items else []
  }

  /** No item is `null` or `undefined`, so reading `name` never throws. */
  predicate NoNullish(items: seq<Value>)
  {
    forall i :: 0 <= i < |items| ==> !Nullish(items[i])
  }

  /**
   * One `for (const prop of ...)` loop: push each item whose `name` is a
   * string onto `list`; the first nullish item throws.
   */
  method PushEntries(list: seq<Value>, items: seq<Value>) returns (r: Result<seq<Value>, TypeError>)
    ensures r.Success? <==> NoNullish(items)
    ensures r.Success? ==> r.value == list + Entries(items)
    ensures r.Failure? ==> r.error == TypeError("name")
  {
    var acc := list;
    var i := 0;
    while i < |items|
      invariant 0 <= i <= |items|
      invariant NoNullish(items[..i])
      invariant acc == list + Entries(items[..i])
    {
      assert items[..i + 1][..i] == items[..i];
      match IsEntry(items[i])
      case Failure(e) =>
        return Failure(e);
      case Success(keep) =>
        if keep {
          acc := acc + [items[i]];
        }
      i := i + 1;
    }
    assert items[..i] == items;
    return Success(acc);
  }

  /** The items a category's loop visits: the field's elements when it is an array. */
  function Items(data: Value, c: Category): seq<Value>
    requires !Nullish(data)
  {
    ArrayItems(Member(data, c.Key()).value)
  }

  /** The data object is not nullish and no category's loop meets a nullish item. */
  predicate Loadable(data: Value)
  {
    !Nullish(data) && forall c: Category :: NoNullish(Items(data, c))
  }

  /** The named entries the data object holds for one category. */
  function DataEntries(data: Value, c: Category): seq<Value>
    requires !Nullish(data)
  {
    Entries(Items(data, c))
  }

  lemma LoadableCases(data: Value)
    requires !Nullish(data)
    ensures Loadable(data) <==>
              && NoNullish(Items(data, Properties)) && NoNullish(Items(data, AtDirectives))
              && NoNullish(Items(data, PseudoClasses)) && NoNullish(Items(data, PseudoElements))
  {
    if !Loadable(data) {
      var c: Category :| !NoNullish(Items(data, c));
      match c
      case Properties =>
      case AtDirectives =>
      case PseudoClasses =>
      case PseudoElements =>
    }
  }

  /** Appending each category's named entries keeps the invariant. */
  lemma Extended(p: CSSDataProvider, data: Value, q: Provider)
    requires !Nullish(data)
    requires q.properties == p.properties + DataEntries(data, Properties)
    requires q.atDirectives == p.atDirectives + DataEntries(data, AtDirectives)
    requires q.pseudoClasses == p.pseudoClasses + DataEntries(data, PseudoClasses)
    requires q.pseudoElements == p.pseudoElements + DataEntries(data, PseudoElements)
    ensures forall c: Category :: q.List(c) == p.List(c) + DataEntries(data, c)
    ensures AllNamed(q)
  {
    forall c: Category
      ensures q.List(c) == p.List(c) + DataEntries(data, c)
    {
      match c
      case Properties =>
      case AtDirectives =>
      case PseudoClasses =>
      case PseudoElements =>
    }
    forall c: Category, d | d in q.List(c)
      ensures Named(d)
    {
      EntriesNamed(Items(data, c));
      assert d in p.List(c) || d in DataEntries(data, c);
    }
  }

  /** `addData`: the four categories in turn, each appended to the provider's list for it. */
  method AddData(p: CSSDataProvider, data: Value) returns (r: Result<CSSDataProvider, TypeError>)
    ensures r.Success? <==> Loadable(data)
    ensures r.Success? ==> forall c: Category :: r.value.List(c) == p.List(c) + DataEntries(data, c)
    ensures r.Failure? && Nullish(data) ==> r.error == TypeError(Properties.Key())
    ensures r.Failure? && !Nullish(data) ==> r.error == TypeError("name")
  {
    var first := Member(data, Properties.Key());
    if first.Failure? {
      return Failure(first.error);
    }
    LoadableCases(data);
    var props := PushEntries(p.properties, Items(data, Properties));
    if props.Failure? {
      return Failure(props.error);
    }
    var ats := PushEntries(p.atDirectives, Items(data, AtDirectives));
    if ats.Failure? {
      return Failure(ats.error);
    }
    var classes := PushEntries(p.pseudoClasses, Items(data, PseudoClasses));
    if classes.Failure? {
      return Failure(classes.error);
    }
    var elements := PushEntries(p.pseudoElements, Items(data, PseudoElements));
    if elements.Failure? {
      return Failure(elements.error);
    }
    var q := Provider(props.value, ats.value, classes.value, elements.value);
    Extended(p, data, q);
    return Success(q);
  }

  /** The constructor: a provider with empty lists, then `addData`. */
  method NewProvider(data: Value) returns (r: Result<CSSDataProvider, TypeError>)
    ensures r.Success? <==> Loadable(data)
    ensures r.Success? ==> forall c: Category :: r.value.List(c) == DataEntries(data, c)
    ensures r.Failure? && Nullish(data) ==> r.error == TypeError(Properties.Key())
  {
    var empty: CSSDataProvider := Provider([], [], [], []);
    r := AddData(empty, data);
    if r.Success? {
      forall c: Category
        ensures r.value.List(c) == DataEntries(data, c)
      {
        assert empty.List(c) == [];
      }
    }
  }

  lemma {:induction false} EntriesNamed(items: seq<Value>)
    ensures forall d :: d in Entries(items) ==> Named(d)
  {
    if |items| > 0 {
      EntriesNamed(items[..|items| - 1]);
    }
  }

  /** An item is kept exactly when it occurs in the input and is named. */
  lemma {:induction false} EntriesMembers(items: seq<Value>, d: Value)
    ensures d in Entries(items) <==> d in items && Named(d)
  {
    if |items| > 0 {
      var init := items[..|items| - 1];
      assert items == init + [items[|items| - 1]];
      EntriesMembers(init, d);
    }
  }

  /** Filtering keeps order: the entries of a concatenation are the entries of each part, in turn. */
  lemma {:induction false} EntriesAppend(a: seq<Value>, b: seq<Value>)
    ensures Entries(a + b) == Entries(a) + Entries(b)
    decreases |b|
  {
    if |b| == 0 {
      assert a + b == a;
    } else {
      var init := b[..|b| - 1];
      assert (a + b)[..|a + b| - 1] == a + init;
      assert (a + b)[|a + b| - 1] == b[|b| - 1];
      EntriesAppend(a, init);
    }
  }

  /** The number of named items, counted from the front. */
  function CountNamed(items: seq<Value>): nat
  {
    if |items| == 0 then 0
    else (if Named(items[0]) then 1 else 0) + CountNamed(items[1..])
  }

  /** No named item is dropped: there are as many entries as named items. */
  lemma {:induction false} EntriesCount(items: seq<Value>)
    ensures |Entries(items)| == CountNamed(items)
  {
    if |items| > 0 {
      assert items == [items[0]] + items[1..];
      EntriesAppend([items[0]], items[1..]);
      assert [items[0]][..0] == [];
      EntriesCount(items[1..]);
    }
  }

  /** A category's entries depend only on the data object's field of that category. */
  lemma OtherFieldsIrrelevant(fields: map<string, Value>, key: string, v: Value, c: Category)
    requires key != c.Key()
    ensures DataEntries(Object(fields[key := v]), c) == DataEntries(Object(fields), c)
  {
  }

  /**
   * A field that is absent or not an array contributes nothing: the loop
   * for its category has no items to visit.
   */
  lemma NonArrayField(data: Value, c: Category)
    requires !Nullish(data) && !Member(data, c.Key()).value.Array?
    ensures Items(data, c) == [] && DataEntries(data, c) == []
  {
  }

  /** A list of named values is its own entries. */
  lemma {:induction false} EntriesOfNamed(items: seq<Value>)
    requires forall d :: d in items ==> Named(d)
    ensures Entries(items) == items
  {
    if |items| > 0 {
      var init := items[..|items| - 1];
      assert items == init + [items[|items| - 1]];
      assert forall d :: d in init ==> d in items;
      EntriesOfNamed(init);
    }
  }

  /** Filtering twice is filtering once. */
  lemma {:induction false} EntriesIdempotent(items: seq<Value>)
    ensures Entries(Entries(items)) == Entries(items)
  {
    EntriesNamed(items);
    EntriesOfNamed(Entries(items));
  }

  /** A provider's own lists, fed back as data, are kept whole. */
  lemma ReloadKeepsLists(p: CSSDataProvider)
    ensures forall c: Category :: Entries(p.List(c)) == p.List(c)
  {
    forall c: Category
      ensures Entries(p.List(c)) == p.List(c)
    {
      EntriesOfNamed(p.List(c));
    }
  }

  const Color := Object(map["name" := Str("color")])
  const Unnamed := Object(map["name" := Number(5.0)])

  /**
   * A data object with one named property, one property whose `name` is not
   * a string, a string item, and an `atDirectives` field that is not an
   * array.
   */
  const Sample := Object(map["properties" := Array([Color, Unnamed, Str("x")]),
                             "atDirectives" := Str("@media")])

  lemma SampleItems()
    ensures Items(Sample, Properties) == [Color, Unnamed, Str("x")]
    ensures Items(Sample, AtDirectives) == [] && Items(Sample, PseudoClasses) == []
    ensures Items(Sample, PseudoElements) == []
  {
  }

  lemma SampleEntries()
    ensures Entries([Color, Unnamed, Str("x")]) == [Color]
  {
    var items := [Color, Unnamed, Str("x")];
    assert items[..2] == [Color, Unnamed] && [Color, Unnamed][..1] == [Color] && [Color][..0] == [];
    assert Named(Color) && !Named(Unnamed);
    assert Entries([Color]) == [Color];
    assert Entries([Color, Unnamed]) == [Color];
  }

  lemma SampleLoadable()
    ensures Loadable(Sample)
  {
    var items := [Color, Unnamed, Str("x")];
    SampleItems();
    assert NoNullish(items) && NoNullish([]);
    LoadableCases(Sample);
  }

  /** Only the named property of `Sample` is kept, and the categories it lacks stay empty. */
  lemma ExampleData()
    ensures Loadable(Sample)
    ensures DataEntries(Sample, Properties) == [Color]
    ensures DataEntries(Sample, AtDirectives) == [] && DataEntries(Sample, PseudoClasses) == []
  {
    SampleItems();
    SampleEntries();
    SampleLoadable();
  }

  /** A `null` among the pseudo-element data makes the constructor throw. */
  lemma ExampleNullItem()
    ensures !Loadable(Object(map["pseudoElements" := Array([Null])]))
  {
    var data := Object(map["pseudoElements" := Array([Null])]);
    assert Items(data, PseudoElements) == [Null];
    assert Nullish(Items(data, PseudoElements)[0]);
  }
}
