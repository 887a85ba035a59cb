/**
 * The mapping metadata the bulk operations consult: each entity property
 * with its column, its value-generation policy, whether it belongs to the
 * primary key and its value converter; the row values read from an entity;
 * and the exceptions the operations raise.
 */
module Mapping {
  import opened Wrappers
  import opened SqlText

  /** `ValueGenerated` of a property. */
  datatype ValueGenerated = Never | OnAdd | OnUpdate | OnAddOrUpdate | OnUpdateSometimes

  /** The two forms of a type mapping's value converter; either may be absent. */
  datatype Converter = Converter(
    toProviderExpression: Option<Value -> Value>,  // ConvertToProviderExpression, compiled and invoked
    toProvider: Option<Value -> Value>)             // the ConvertToProvider delegate

  /** One property of the entity type, as the metadata resolver describes it. */
  datatype Property = Property(
    name: string,             // the CLR property name
    column: string,           // GetColumnName(storeObject)
    valueGenerated: ValueGenerated,
    isPrimaryKey: bool,
    converter: Option<Converter>)

  /** An entity object, seen through reflection: CLR property name to value. */
  type Entity = map<string, Value>

  /** The exceptions the bulk operations can raise before executing anything. */
  datatype Error =
    | ArgumentError(message: string, paramName: string)
    | NullReference(member: string)

  /** `properties.Where(keep)`: the positions of the kept properties, in property order. */
  function Where(props: seq<Property>, keep: Property -> bool): (idx: seq<nat>)
    ensures forall k :: 0 <= k < |idx| ==> idx[k] < |props| && keep(props[idx[k]])
    ensures forall k, l :: 0 <= k < l < |idx| ==> idx[k] < idx[l]
    ensures forall i :: 0 <= i < |props| && keep(props[i]) ==> i in idx
    decreases |props|
  {
    if props == [] then []
    else
      var idx := Where(props[..|props| - 1], keep);
      if keep(props[|props| - 1]) then idx + [|props| - 1] else idx
  }

  /** The properties that take part in an INSERT: all but those generated on add. */
  predicate IsInsertColumn(p: Property) {
    p.valueGenerated != OnAdd
  }

  predicate IsKeyColumn(p: Property) {
    p.isPrimaryKey
  }

  function Select(props: seq<Property>, idx: seq<nat>): (cols: seq<Property>)
    requires forall k :: 0 <= k < |idx| ==> idx[k] < |props|
    ensures |cols| == |idx|
  {
    seq(|idx|, k requires 0 <= k < |idx| => props[idx[k]])
  }

  function ColumnNames(cols: seq<Property>): (names: seq<string>)
    ensures |names| == |cols| && forall k :: 0 <= k < |cols| ==> names[k] == cols[k].column
  {
    seq(|cols|, k requires 0 <= k < |cols| => cols[k].column)
  }

  /** The columns of the properties `keep` accepts, read off one property
      at a time: the reference the position-based filter is measured against. */
  function FilteredColumns(props: seq<Property>, keep: Property -> bool): seq<string>
    decreases |props|
  {
    if props == [] then []
    else
      var last := props[|props| - 1];
      FilteredColumns(props[..|props| - 1], keep) + (if keep(last) then [last.column] else [])
  }

  /** The column names of `properties.Where(keep)` are the columns of exactly
      the kept properties, in property order. */
  lemma {:induction false} ColumnsOfWhere(props: seq<Property>, keep: Property -> bool)
    ensures ColumnNames(Select(props, Where(props, keep))) == FilteredColumns(props, keep)
    decreases |props|
  {
    if props != [] {
      var init := props[..|props| - 1];
      var idx := Where(init, keep);
      ColumnsOfWhere(init, keep);
      assert Select(props, idx) == Select(init, idx);
      var last := props[|props| - 1];
      if keep(last) {
        assert Select(props, idx + [|props| - 1]) == Select(init, idx) + [last];
        assert ColumnNames(Select(init, idx) + [last]) == ColumnNames(Select(init, idx)) + [last.column];
      }
    }
  }

  /** `properties.FirstOrDefault(x => x.Name == name)`, as a position. */
  function FindByName(props: seq<Property>, name: string): (r: Option<nat>)
    ensures r.Some? ==> r.value < |props| && props[r.value].name == name
                        && forall i :: 0 <= i < r.value ==> props[i].name != name
    ensures r.None? ==> forall i :: 0 <= i < |props| ==> props[i].name != name
    decreases |props|
  {
    if props == [] then None
    else if props[0].name == name then Some(0)
    else match FindByName(props[1..], name)
         case None => None
         case Some(i) => Some(i + 1)
  }

  /** `objType.GetProperty(p.Name).GetValue(item)`; a property with no CLR
      counterpart (a shadow property) makes `GetValue` dereference null. */
  function ReadProperty(e: Entity, p: Property): (r: Result<Value, Error>)
    ensures r.Success? <==> p.name in e
    ensures r.Success? ==> r.value == e[p.name]
    ensures r.Failure? ==> r.error == NullReference(p.name)
  {
    if p.name in e then Success(e[p.name]) else Failure(NullReference(p.name))
  }

  /** The value stored for v in column p: the converter's expression when it
      exists and v is not null, else the converter's delegate, else v itself. */
  function ProviderValue(p: Property, v: Value): (r: Value)
    ensures p.converter.None? ==> r == v
    ensures v == Null ==> r == (if p.converter.Some? && p.converter.value.toProvider.Some?
                                then p.converter.value.toProvider.value(Null) else Null)
  {
    match p.converter
    case None => v
    case Some(c) =>
      if c.toProviderExpression.Some? && v != Null then c.toProviderExpression.value(v)
      else if c.toProvider.Some? then c.toProvider.value(v)
      else v
  }
}
