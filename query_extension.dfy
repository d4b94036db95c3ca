/**
 * `QueryableExtension`'s builders as the step-by-step code they are: loops that
 * walk a property path, fill an array, thread a `ref` counter, accumulate an
 * OR-expression and reassign the query. Each method is proved to compute the
 * function of module `QuerySpec` that states what it builds.
 */
module QueryableExtension {
  import opened Wrappers
  import opened Text
  import opened Dates
  import opened Schema
  import opened Predicates
  import S = QuerySpec

  /** `GeneralSearchOptions`: the search term and the paths to search, which `GeneralSearch` may overwrite. */
  class GeneralSearchOptions {
    var Value: Option<string>
    var Properties: Option<seq<string>>

    constructor (value: Option<string>, properties: Option<seq<string>>)
      ensures Value == value && Properties == properties
    {
      Value := value;
      Properties := properties;
    }
  }

  /** `ConvertToArray`: a new array holding the list, with every string lower-cased. */
  method ConvertToArray(list: seq<Value>) returns (arr: array<Value>)
    ensures fresh(arr)
    ensures arr[..] == S.LoweredArray(list)
  {
    arr := new Value[|list|];
    for i := 0 to |list|
      invariant forall k :: 0 <= k < i ==> arr[k] == S.LoweredArray(list)[k]
    {
      var value := list[i];
      if value.VText? {
        value := VText(Lower(value.text));
      }
      arr[i] := value;
    }
  }

  /** `ArrayExpression`: membership in the comma-separated tokens, each converted to the property's type. */
  method ArrayExpression(cul: Culture, property: Term, ty: Ty, value: string) returns (r: Fallible<Pred>)
    ensures r == S.ArrayPredicate(cul, property, ty, value)
  {
    var genericList := S.ConvertTokens(cul, ty, Split(value, ','));
    if genericList.None? {
      return Throws;
    }
    var typedArray := ConvertToArray(genericList.value);
    return Returns(S.ContainsForLists(property, ty, typedArray[..]));
  }

  /** `ContainsOrEqualForStrings`: null test, comma list, or case-insensitive substring test. */
  method ContainsOrEqualForStrings(cul: Culture, property: Term, value: Option<string>) returns (r: Fallible<Pred>)
    ensures r == S.StringPredicate(cul, property, value)
  {
    if value.None? {
      return Returns(IsNull(property));
    }
    if ',' in value.value {
      r := ArrayExpression(cul, property, TText, value.value);
      return;
    }
    return Returns(LowerContains(property, Lower(value.value)));
  }

  /** `AdjustDate(ref count, date)`: returns the adjusted date and the incremented counter. */
  method AdjustDate(count: int, date: Option<Ticks>) returns (count': int, r: Fallible<Option<Ticks>>)
    ensures r == S.AdjustedDate(count, date)
    ensures r.Returns? ==> count' == count + 1
  {
    r := Returns(date);
    if date.Some? && count == 1 {
      var d := date.value;
      var moved := if IsMidnight(d) then DayLaterLessOneTick(d) else Add59Seconds(d);
      if moved.Throws? {
        return count, Throws;
      }
      r := Returns(Some(moved.value));
    }
    count' := count + 1;
  }

  /**
   * The `;` date pipeline of `BuildBodyExpression`: parse every trimmed token, adjust
   * each through `AdjustDate` with a counter starting at 0, keep those that parsed.
   */
  method ParseDateRange(cul: Culture, value: string) returns (r: Fallible<seq<Ticks>>)
    ensures S.AdjustedDates(S.ParsedDates(cul, value)).Throws? ==> r.Throws?
    ensures S.AdjustedDates(S.ParsedDates(cul, value)).Returns? ==>
      r == Returns(Somes(S.AdjustedDates(S.ParsedDates(cul, value)).value))
  {
    var tokens := Split(value, ';');
    ghost var parsed := S.ParsedDates(cul, value);
    ghost var adjusted: seq<Option<Ticks>> := [];
    var count := 0;
    var dates: seq<Ticks> := [];
    for i := 0 to |tokens|
      invariant count == i
      invariant S.AdjustedDates(parsed[..i]) == Returns(adjusted)
      invariant dates == Somes(adjusted)
    {
      var parsedDate := cul.parseExactDate(Trim(tokens[i]));
      var c, d := AdjustDate(count, parsedDate);
      AdjustedDatesStep(parsed, i, adjusted);
      if d.Throws? {
        AdjustedDatesThrowsOn(parsed, i + 1);
        return Throws;
      }
      count := c;
      SomesSnoc(adjusted, d.value);
      adjusted := adjusted + [d.value];
      if d.value.Some? {
        dates := dates + [d.value.value];
      }
    }
    assert parsed[..|tokens|] == parsed;
    return Returns(dates);
  }

  /** Adjusting one more date extends the adjusted prefix by that date's adjustment, or throws with it. */
  lemma AdjustedDatesStep(dates: seq<Option<Ticks>>, i: nat, adjusted: seq<Option<Ticks>>)
    requires i < |dates| && S.AdjustedDates(dates[..i]) == Returns(adjusted)
    ensures S.AdjustedDate(i, dates[i]).Throws? ==> S.AdjustedDates(dates[..i + 1]).Throws?
    ensures S.AdjustedDate(i, dates[i]).Returns? ==>
      S.AdjustedDates(dates[..i + 1]) == Returns(adjusted + [S.AdjustedDate(i, dates[i]).value])
  {
    assert dates[..i + 1][..i] == dates[..i];
  }

  /** Once a prefix of the dates makes `AdjustDate` throw, so does the whole list. */
  lemma {:induction false} AdjustedDatesThrowsOn(dates: seq<Option<Ticks>>, k: nat)
    requires k <= |dates| && S.AdjustedDates(dates[..k]).Throws?
    ensures S.AdjustedDates(dates).Throws?
    decreases |dates| - k
  {
    if k < |dates| {
      assert dates[..k + 1][..k] == dates[..k];
      AdjustedDatesThrowsOn(dates, k + 1);
    } else {
      assert dates[..k] == dates;
    }
  }

  /** `BuildBodyExpression(property, value)`: the predicate on `property : ty`, `None` for "no predicate", or `Throws`. */
  method BuildBodyExpression(cul: Culture, property: Term, ty: Ty, value: Option<string>) returns (r: S.Built)
    ensures r == S.BodyPredicate(cul, property, ty, value)
  {
    if value == Some("") {
      return Returns(None);
    }
    if value.None? {
      return if AdmitsNull(ty) then Returns(Some(IsNull(property))) else Throws;
    }
    var v := value.value;
    if ty == TText {
      var e := ContainsOrEqualForStrings(cul, property, value);
      return S.Lift(e);
    }
    if v == "!" {
      return if AdmitsNull(ty) then Returns(Some(NotNull(property))) else Throws;
    }
    if ',' in v {
      var e := ArrayExpression(cul, property, ty, v);
      return S.Lift(e);
    }
    if ';' in v && (ty == TDate || ty == TNullable(TDate)) {
      var dates := ParseDateRange(cul, v);
      if dates.Throws? {
        return Throws;
      }
      var ds := dates.value;
      if |ds| > 1 {
        return Returns(Some(Between(property, VDate(ds[0]), VDate(ds[|ds| - 1]))));
      }
      if ds == [] {
        return Throws;
      }
      var last := DayLaterLessOneTick(ds[0]);
      if last.Throws? {
        return Throws;
      }
      return Returns(Some(Between(property, VDate(ds[0]), VDate(last.value))));
    }
    if Underlying(ty) == TDate {
      var finalValue := cul.parseExactDate(Trim(v));
      if finalValue.None? {
        return Throws;
      }
      var right := DayLaterLessOneTick(DatePart(finalValue.value));
      if right.Throws? {
        return Throws;
      }
      return Returns(Some(Between(property, VDate(finalValue.value), VDate(right.value))));
    }
    // Expression.Constant(value, property.Type) with a string value and a non-string type.
    return Throws;
  }

  /**
   * `BuildPropertyExpression(parameter, key, keys)`: the member-access chain along `keys`,
   * or along `key` split on `.` when `keys` is null; `None` when a member does not resolve.
   */
  method BuildPropertyExpression(cat: Catalog, parameter: Term, ty: Ty, key: string, keys: Option<seq<string>>)
    returns (r: Option<(Term, Ty)>)
    ensures r == S.PropertyChain(cat, parameter, ty, keys.GetOr(Split(key, '.')))
  {
    var propertyPath := if keys.Some? then keys.value else Split(key, '.');
    var property := parameter;
    var propertyTy := ty;
    for i := 0 to |propertyPath|
      invariant S.PropertyChain(cat, property, propertyTy, propertyPath[i..])
             == S.PropertyChain(cat, parameter, ty, propertyPath)
    {
      assert propertyPath[i..][1..] == propertyPath[i + 1..];
      var member := Member(cat, propertyTy, propertyPath[i]);
      if member.None? {
        return None;
      }
      property := Prop(property, member.value.name);
      propertyTy := member.value.ty;
      if IsGuardedClass(propertyTy) {
        property := NullGuarded(property);
      }
    }
    return Some((property, propertyTy));
  }

  /**
   * `BuildNestedPropertyExpression(parameter, key, value)`: walks `key`'s segments from the
   * record type `root`; a collection hop becomes `Any` over the rest of the path, and any
   * exception on the way yields `None`.
   */
  method BuildNestedPropertyExpression(cat: Catalog, cul: Culture, root: Ty, key: string, value: Option<string>)
    returns (r: Option<Pred>)
    ensures r == S.NestedPredicate(cat, cul, root, key, value)
  {
    var index := 1;
    var property := Param;
    var propertyTy := root;
    var propertyPath := Split(key, '.');
    ghost var goal := S.NestedPredicate(cat, cul, root, key, value);
    var i := 0;
    while i < |propertyPath|
      invariant i <= |propertyPath| && 1 <= index <= i + 1
      invariant S.Walk(cat, cul, propertyPath, value, i, property, propertyTy, index) == goal
    {
      var member := Member(cat, propertyTy, propertyPath[i]);
      if member.None? {
        return None;
      }
      property := Prop(property, member.value.name);
      propertyTy := member.value.ty;
      if propertyTy.TCollection? {
        if propertyTy.element.None? {
          assert S.Caught(S.BodyPredicate(cul, property, propertyTy, value)) == goal;
          break;
        }
        var hop := CollectionHop(cat, cul, key, propertyPath[index..], value, property, propertyTy.element.value);
        if hop.Continue? {
          i := i + 1;
          continue;
        }
        return hop.r;
      }
      if IsGuardedClass(propertyTy) {
        property := NullGuarded(property);
      }
      index := index + 1;
      i := i + 1;
    }
    var body := BuildBodyExpression(cul, property, propertyTy, value);
    return S.Caught(body);
  }

  /**
   * The collection branch of `BuildNestedPropertyExpression`'s loop: resolves the remaining
   * segments against the element type and builds the body for `Any`, continuing the loop
   * when either yields null.
   */
  method CollectionHop(cat: Catalog, cul: Culture, key: string, rest: seq<string>, value: Option<string>,
                       property: Term, element: Ty) returns (hop: S.Hop)
    ensures hop == S.CollectionHop(cat, cul, rest, value, property, element)
  {
    var internalProperty := BuildPropertyExpression(cat, Param, element, key, Some(rest));
    if internalProperty.None? {
      return S.Continue;
    }
    var innerExpression := BuildBodyExpression(cul, internalProperty.value.0, internalProperty.value.1, value);
    if innerExpression.Throws? {
      return S.Return(None);
    }
    if innerExpression.value.None? {
      return S.Continue;
    }
    return S.Return(Some(Any(property, innerExpression.value.value)));
  }

  /** `BuildConcatenatedPropertyExpression`: text search over `property1 + " " + property2`. */
  method BuildConcatenatedPropertyExpression(cat: Catalog, cul: Culture, root: Ty, property1: string, property2: string,
                                             value: Option<string>) returns (r: Option<Pred>)
    ensures r == S.ConcatenatedPredicate(cat, cul, root, property1, property2, value)
  {
    var firstProperty := BuildPropertyExpression(cat, Param, root, property1, None);
    var secondProperty := BuildPropertyExpression(cat, Param, root, property2, None);
    if firstProperty.None? || secondProperty.None? {
      return None;
    }
    if firstProperty.value.1 != TText || secondProperty.value.1 != TText {
      return None;   // Expression.Add with string.Concat(string, string) throws
    }
    var concatExpression := ConcatWithSpace(firstProperty.value.0, secondProperty.value.0);
    var e := ContainsOrEqualForStrings(cul, concatExpression, value);
    return if e.Returns? then Some(e.value) else None;
  }

  /** `Search<T>(parameter, value, propertiesNames)`: ORs together what each target contributes. */
  method Search(cat: Catalog, cul: Culture, root: Ty, value: string, propertiesNames: Option<seq<string>>)
    returns (orExpression: Option<Pred>)
    ensures orExpression == S.SearchPredicate(cat, cul, root, value, propertiesNames.GetOr([]))
  {
    var names := propertiesNames.GetOr([]);
    ghost var cs := S.TargetContributions(cat, cul, root, value, names);
    orExpression := None;
    for i := 0 to |names|
      invariant orExpression == S.OrAll(cs[..i])
    {
      OrAllStep(cs, i);
      var property := names[i];
      var propertyExpression: Option<Pred> := None;
      if ',' in property {
        var properties := Split(property, ',');
        if |properties| == 2 {
          propertyExpression := BuildConcatenatedPropertyExpression(cat, cul, root, Trim(properties[0]), Trim(properties[1]), Some(value));
        }
      } else {
        propertyExpression := BuildNestedPropertyExpression(cat, cul, root, property, Some(value));
      }
      assert propertyExpression == S.TargetPredicate(cat, cul, root, names[i], value);
      if propertyExpression.Some? {
        orExpression := if orExpression.None? then propertyExpression else Some(Or(orExpression.value, propertyExpression.value));
      }
    }
    assert cs[..|names|] == cs;
  }

  /** The disjunction over one more contribution. */
  lemma OrAllStep(cs: seq<Option<Pred>>, i: nat)
    requires i < |cs|
    ensures S.OrAll(cs[..i + 1]) == S.OrElse(S.OrAll(cs[..i]), cs[i])
  {
    assert cs[..i + 1][..i] == cs[..i];
  }

  /**
   * `GeneralSearch(query, search)`: filters `query` by the trimmed term, filling in the
   * type's default targets when the request names none.
   */
  method GeneralSearch(cat: Catalog, cul: Culture, root: Ty, query: seq<Value>, search: GeneralSearchOptions?)
    returns (r: seq<Value>)
    modifies search
    ensures search == null ==> r == query
    ensures search != null ==> r == S.SearchedQuery(cat, cul, root, query, old(search.Value), old(search.Properties))
    ensures search != null ==> search.Value == old(search.Value)
    ensures search != null && !IsNullOrWhiteSpace(search.Value) ==>
      search.Properties == S.EffectiveTargets(cat, root, old(search.Properties))
    ensures search != null && IsNullOrWhiteSpace(search.Value) ==> search.Properties == old(search.Properties)
  {
    if search == null || IsNullOrWhiteSpace(search.Value) {
      return query;
    }
    if search.Properties.None? && S.DefaultTargets(cat, root).Some? {
      search.Properties := S.DefaultTargets(cat, root);
    }
    var expression := Search(cat, cul, root, Trim(search.Value.value), search.Properties);
    if expression.None? {
      return query;
    }
    return Where(query, expression.value);
  }

  /** `ApplyGenericFilter(query, filters)`: one `Where` per filter entry that yields a predicate. */
  method ApplyGenericFilter(cat: Catalog, cul: Culture, root: Ty, query: seq<Value>, filters: Option<S.FilterMap>)
    returns (r: seq<Value>)
    ensures r == S.FilteredQuery(cat, cul, root, query, filters)
  {
    if filters.None? || filters.value == [] {
      return query;
    }
    var pairs := filters.value;
    ghost var cs := S.FilterContributions(cat, cul, root, pairs);
    r := query;
    for i := 0 to |pairs|
      invariant r == WhereAll(query, Somes(cs[..i]))
    {
      WhereAllStep(query, cs, i);
      var (key, value) := pairs[i];
      if key !in S.ReservedKeys {
        var expression := BuildNestedPropertyExpression(cat, cul, root, key, Some(value));
        if expression.Some? {
          r := Where(r, expression.value);
        }
      }
    }
    assert cs[..|pairs|] == cs;
  }
}
