/**
 * What reflection tells the engine about a record type, and the values records hold.
 * A record type lists its public properties in declaration order (inherited ones
 * included); a property's type is one of the CLR types the engine distinguishes.
 */
module Schema {
  import opened Wrappers
  import opened Text
  import opened Dates

  /** The CLR types the engine's branches tell apart. */
  datatype Ty =
    | TText                              // string
    | TInt                               // int
    | TDecimal                           // decimal
    | TBool                              // bool
    | TDate                              // DateTime
    | TGuid                              // Guid
    | TTimeSpan                          // TimeSpan
    | TNullable(underlying: Ty)          // Nullable<T>
    | TCollection(element: Option<Ty>)   // an IEnumerable other than string; None when it has no generic argument
    | TRecord(name: string)              // a class declared by the application

  datatype Property = Property(name: string, ty: Ty)

  /** A record type: its properties, and its static `SearchByProperties` list when it implements `IGeneralSearchBy`. */
  datatype RecordType = RecordType(properties: seq<Property>, searchByProperties: Option<seq<string>>)

  /** The record types of the application, by name. */
  type Catalog = map<string, RecordType>

  /** A property value as a query sees it; `VNull` is a null reference or an empty `Nullable<T>`. */
  datatype Value =
    | VNull
    | VText(text: string)
    | VInt(i: int)
    | VDecimal(d: real)
    | VBool(b: bool)
    | VDate(ticks: Ticks)
    | VGuid(g: int)
    | VTimeSpan(span: int)
    | VRecord(fields: map<string, Value>)
    | VList(items: seq<Value>)

  /**
   * The culture-dependent parsers the engine calls, as opaque partial functions:
   * `Convert.ChangeType(s, T)` for `int`, `decimal`, `bool` and `DateTime`, and
   * `DateTime.TryParseExact(s, ["dd/MM/yyyy HH:mm", "dd/MM/yyyy", "dd/MM", "dd"], CurrentCulture, AssumeLocal)`.
   */
  datatype Culture = Culture(
    parseInt: string -> Option<int>,
    parseDecimal: string -> Option<real>,
    parseBool: string -> Option<bool>,
    parseDateTime: string -> Option<Ticks>,
    parseExactDate: string -> Option<Ticks>)

  /** `Nullable.GetUnderlyingType(t) ?? t`. */
  function Underlying(ty: Ty): (r: Ty)
    ensures !ty.TNullable? ==> r == ty
    ensures ty.TNullable? ==> r == ty.underlying
  {
    if ty.TNullable? then ty.underlying else ty
  }

  /** `t.IsClass && !t.IsPrimitive && t != typeof(string)`: the hops the engine null-guards. */
  predicate IsGuardedClass(ty: Ty) {
    ty.TRecord? || ty.TCollection?
  }

  /**
   * Whether `Expression.Equal`/`NotEqual` accept a comparison with `Constant(null)`:
   * reference types (reference equality with `object`) and `Nullable<T>` do;
   * a non-nullable value type has no such operator, and the builder throws.
   */
  predicate AdmitsNull(ty: Ty) {
    ty.TText? || ty.TRecord? || ty.TCollection? || ty.TNullable?
  }

  /** The properties of `props` whose names match `name` ignoring case, in declaration order. */
  function MatchingProperties(props: seq<Property>, name: string): (r: seq<Property>)
    ensures |r| <= |props|
  {
    if props == [] then []
    else (if EqualsIgnoringCase(props[0].name, name) then [props[0]] else []) + MatchingProperties(props[1..], name)
  }

  /** The matches are exactly the properties whose name equals `name` ignoring case. */
  lemma {:induction false} MatchingPropertiesAreMatches(props: seq<Property>, name: string)
    ensures forall p :: p in MatchingProperties(props, name) <==> p in props && EqualsIgnoringCase(p.name, name)
  {
    if props != [] {
      MatchingPropertiesAreMatches(props[1..], name);
      assert props == [props[0]] + props[1..];
    }
  }

  /**
   * `Expression.PropertyOrField(e, name)` on an expression of type `ty`: the public property
   * whose name equals `name` ignoring case. Only record types have members here; no match,
   * or more than one (`AmbiguousMatchException`), throws.
   */
  function Member(cat: Catalog, ty: Ty, name: string): (r: Option<Property>)
    ensures r.Some? ==> ty.TRecord? && ty.name in cat && r.value in cat[ty.name].properties
    ensures r.Some? ==> EqualsIgnoringCase(r.value.name, name)
  {
    if ty.TRecord? && ty.name in cat then
      var found := MatchingProperties(cat[ty.name].properties, name);
      MatchingPropertiesAreMatches(cat[ty.name].properties, name);
      if |found| == 1 then Some(found[0]) else None
    else None
  }

  /** The property `Member` finds is the only one of the type whose name matches, ignoring case. */
  lemma MemberIsUnique(cat: Catalog, ty: Ty, name: string)
    requires Member(cat, ty, name).Some?
    ensures forall p :: p in cat[ty.name].properties && EqualsIgnoringCase(p.name, name) ==> p == Member(cat, ty, name).value
  {
    var found := MatchingProperties(cat[ty.name].properties, name);
    MatchingPropertiesAreMatches(cat[ty.name].properties, name);
    forall p | p in cat[ty.name].properties && EqualsIgnoringCase(p.name, name) ensures p == found[0] {
      assert p in found;
    }
  }

  /** A property of a catalogue record type that is the only one matching `name` is the member found. */
  lemma MemberFindsOnlyMatch(cat: Catalog, ty: Ty, name: string, k: nat)
    requires ty.TRecord? && ty.name in cat && k < |cat[ty.name].properties|
    requires EqualsIgnoringCase(cat[ty.name].properties[k].name, name)
    requires forall j :: 0 <= j < |cat[ty.name].properties| && j != k ==>
      !EqualsIgnoringCase(cat[ty.name].properties[j].name, name)
    ensures Member(cat, ty, name) == Some(cat[ty.name].properties[k])
  {
    OnlyMatch(cat[ty.name].properties, name, k);
  }

  /** With no property of the type matching `name`, no member is found (`PropertyOrField` throws). */
  lemma MemberMissingWithoutMatch(cat: Catalog, ty: Ty, name: string)
    requires ty.TRecord? && ty.name in cat ==>
      forall j :: 0 <= j < |cat[ty.name].properties| ==> !EqualsIgnoringCase(cat[ty.name].properties[j].name, name)
    ensures Member(cat, ty, name) == None
  {
    if ty.TRecord? && ty.name in cat {
      NoMatch(cat[ty.name].properties, name);
    }
  }

  /** The matches of a list in which only position `k` matches. */
  lemma {:induction false} OnlyMatch(props: seq<Property>, name: string, k: nat)
    requires k < |props| && EqualsIgnoringCase(props[k].name, name)
    requires forall j :: 0 <= j < |props| && j != k ==> !EqualsIgnoringCase(props[j].name, name)
    ensures MatchingProperties(props, name) == [props[k]]
  {
    if k == 0 {
      NoMatch(props[1..], name);
    } else {
      OnlyMatch(props[1..], name, k - 1);
    }
  }

  /** The matches of a list in which nothing matches. */
  lemma {:induction false} NoMatch(props: seq<Property>, name: string)
    requires forall j :: 0 <= j < |props| ==> !EqualsIgnoringCase(props[j].name, name)
    ensures MatchingProperties(props, name) == []
  {
    if props != [] {
      NoMatch(props[1..], name);
    }
  }

  /**
   * `Convert.ChangeType(s, ty)`: identity on `string`, the culture's parser for `int`, `decimal`,
   * `bool` and `DateTime`; every other target (`Nullable<T>`, `Guid`, `TimeSpan`, classes,
   * collections) raises `InvalidCastException`.
   */
  function ChangeType(cul: Culture, ty: Ty, s: string): (r: Option<Value>)
    ensures ty == TText ==> r == Some(VText(s))
    ensures ty.TNullable? || ty.TGuid? || ty.TTimeSpan? || ty.TRecord? || ty.TCollection? ==> r.None?
    ensures ty != TText && r.Some? ==> !r.value.VText? && r.value != VNull
  {
    match ty
    case TText => Some(VText(s))
    case TInt => (match cul.parseInt(s) case Some(i) => Some(VInt(i)) case None => None)
    case TDecimal => (match cul.parseDecimal(s) case Some(d) => Some(VDecimal(d)) case None => None)
    case TBool => (match cul.parseBool(s) case Some(b) => Some(VBool(b)) case None => None)
    case TDate => (match cul.parseDateTime(s) case Some(t) => Some(VDate(t)) case None => None)
    case _ => None
  }
}
