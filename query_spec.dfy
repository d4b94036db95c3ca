/**
 * The query engine of `QueryableExtension`, as pure functions: what each builder
 * returns for a property path, a property type and a raw string value. The
 * imperative methods in module `QueryableExtension` are proved equal to these.
 *
 * A builder that "returns null" yields `None`; one that throws yields `Throws`.
 * `BuildNestedPropertyExpression` catches every exception, so at its level both
 * become "no predicate".
 */
module QuerySpec {
  import opened Wrappers
  import opened Text
  import opened Dates
  import opened Schema
  import opened Predicates

  /** What `BuildBodyExpression` does: returns an expression, returns null, or throws. */
  type Built = Fallible<Option<Pred>>

  /** A filter dictionary's entries, in enumeration order. */
  type FilterMap = seq<(string, string)>

  /**
   * The property names reflected from the interface `IPaginatedOptions`: its own
   * declared members only, not the `PageNumber`/`PageSize` it inherits from `IPaginated`.
   */
  const ReservedKeys: seq<string> := ["Filters", "Search", "SortBy", "Direction"]

  /** A predicate as a successful `Built`. */
  function Lift(r: Fallible<Pred>): (b: Built)
    ensures r.Returns? <==> b.Returns?
    ensures r.Returns? ==> b.value == Some(r.value)
  {
    match r
    case Throws => Throws
    case Returns(p) => Returns(Some(p))
  }

  /** The expression a caller gets after catching: an exception or a null both mean "none". */
  function Caught(b: Built): (r: Option<Pred>)
    ensures r.Some? <==> b.Returns? && b.value.Some?
    ensures r.Some? ==> r == b.value
  {
    match b
    case Returns(Some(p)) => Some(p)
    case _ => None
  }

  // ---------------------------------------------------------------------------
  // Comma lists: ArrayExpression, ConvertToArray, ContainsForLists
  // ---------------------------------------------------------------------------

  /** `ConvertToArray`: the list, with every string lower-cased. */
  function LoweredArray(values: seq<Value>): (r: seq<Value>)
    ensures |r| == |values|
    ensures forall i :: 0 <= i < |values| ==>
      r[i] == (if values[i].VText? then VText(Lower(values[i].text)) else values[i])
  {
    seq(|values|, i requires 0 <= i < |values| =>
      if values[i].VText? then VText(Lower(values[i].text)) else values[i])
  }

  /** `tokens.Select(t => Convert.ChangeType(t.Trim(), ty)).ToList()`: `None` when any conversion throws. */
  function ConvertTokens(cul: Culture, ty: Ty, tokens: seq<string>): (r: Option<seq<Value>>)
    ensures r.Some? ==> |r.value| == |tokens|
    ensures r.Some? ==> forall i :: 0 <= i < |tokens| ==> ChangeType(cul, ty, Trim(tokens[i])) == Some(r.value[i])
  {
    if tokens == [] then Some([])
    else
      match ChangeType(cul, ty, Trim(tokens[0]))
      case None => None
      case Some(v) =>
        match ConvertTokens(cul, ty, tokens[1..])
        case None => None
        case Some(rest) => Some([v] + rest)
  }

  /** The conversion succeeds exactly when every trimmed token converts. */
  lemma {:induction false} ConvertTokensSucceeds(cul: Culture, ty: Ty, tokens: seq<string>)
    ensures ConvertTokens(cul, ty, tokens).Some? <==> forall i :: 0 <= i < |tokens| ==> ChangeType(cul, ty, Trim(tokens[i])).Some?
    decreases |tokens|
  {
    if tokens != [] {
      ConvertTokensSucceeds(cul, ty, tokens[1..]);
      EveryTokenConvertsSplit(cul, ty, tokens);
    }
  }

  /** Every token converts exactly when the first does and every later one does. */
  lemma EveryTokenConvertsSplit(cul: Culture, ty: Ty, tokens: seq<string>)
    requires tokens != []
    ensures (forall i :: 0 <= i < |tokens| ==> ChangeType(cul, ty, Trim(tokens[i])).Some?) <==>
      ChangeType(cul, ty, Trim(tokens[0])).Some? &&
      forall i :: 0 <= i < |tokens[1..]| ==> ChangeType(cul, ty, Trim(tokens[1..][i])).Some?
  {
    assert forall i :: 0 <= i < |tokens[1..]| ==> tokens[1..][i] == tokens[i + 1];
  }

  /** `ContainsForLists`: membership of the property (lower-cased when it is text) in the array. */
  function ContainsForLists(t: Term, ty: Ty, arr: seq<Value>): (p: Pred)
    ensures ty == TText ==> p == LowerIn(t, arr)
    ensures ty != TText ==> p == In(t, arr)
  {
    if ty == TText then LowerIn(t, arr) else In(t, arr)
  }

  /** `ArrayExpression`: split on `,`, convert each trimmed token to the property's type, test membership. */
  function ArrayPredicate(cul: Culture, t: Term, ty: Ty, value: string): Fallible<Pred>
  {
    match ConvertTokens(cul, ty, Split(value, ','))
    case None => Throws
    case Some(values) => Returns(ContainsForLists(t, ty, LoweredArray(values)))
  }

  /** `ContainsOrEqualForStrings`. */
  function StringPredicate(cul: Culture, t: Term, value: Option<string>): Fallible<Pred>
  {
    if value.None? then Returns(IsNull(t))
    else if ',' in value.value then ArrayPredicate(cul, t, TText, value.value)
    else Returns(LowerContains(t, Lower(value.value)))
  }

  // ---------------------------------------------------------------------------
  // Dates: AdjustDate and the two date branches of BuildBodyExpression
  // ---------------------------------------------------------------------------

  /** `AdjustDate(ref count, date)` at position `count`: only the token at position 1 moves. */
  function AdjustedDate(count: int, date: Option<Ticks>): (r: Fallible<Option<Ticks>>)
    ensures count != 1 || date.None? ==> r == Returns(date)
    ensures count == 1 && date.Some? && IsMidnight(date.value) ==>
      (r.Returns? <==> date.value + TicksPerDay <= MaxTicks) &&
      (r.Returns? ==> r.value == Some(date.value + TicksPerDay - 1))
    ensures count == 1 && date.Some? && !IsMidnight(date.value) ==>
      (r.Returns? <==> date.value + 59 * TicksPerSecond <= MaxTicks) &&
      (r.Returns? ==> r.value == Some(date.value + 590_000_000))
  {
    if date.Some? && count == 1 then
      var d := date.value;
      match (if IsMidnight(d) then DayLaterLessOneTick(d) else Add59Seconds(d))
      case Throws => Throws
      case Returns(e) => Returns(Some(e))
    else Returns(date)
  }

  /** `dates.Select(d => AdjustDate(ref count, d)).ToList()` with `count` starting at 0. */
  function AdjustedDates(dates: seq<Option<Ticks>>): (r: Fallible<seq<Option<Ticks>>>)
    ensures r.Returns? ==> |r.value| == |dates|
    decreases |dates|
  {
    if dates == [] then Returns([])
    else
      var n := |dates| - 1;
      match AdjustedDates(dates[..n])
      case Throws => Throws
      case Returns(prefix) =>
        match AdjustedDate(n, dates[n])
        case Throws => Throws
        case Returns(d) => Returns(prefix + [d])
  }

  /** Each `;`-separated token, trimmed and parsed with the exact date formats. */
  function ParsedDates(cul: Culture, value: string): (r: seq<Option<Ticks>>)
    ensures |r| == |Split(value, ';')|
  {
    var tokens := Split(value, ';');
    seq(|tokens|, i requires 0 <= i < |tokens| => cul.parseExactDate(Trim(tokens[i])))
  }

  /** Entry `i` of the parsed dates is the exact parse of the trimmed `i`-th `;`-separated token. */
  lemma ParsedDatesParseEachToken(cul: Culture, value: string)
    ensures forall i :: 0 <= i < |ParsedDates(cul, value)| ==>
      ParsedDates(cul, value)[i] == cul.parseExactDate(Trim(Split(value, ';')[i]))
  {
  }

  /** The `;` branch for a `DateTime` or `DateTime?` property. */
  function DateRangePredicate(cul: Culture, t: Term, value: string): Fallible<Pred>
  {
    match AdjustedDates(ParsedDates(cul, value))
    case Throws => Throws
    case Returns(adjusted) => RangeOver(t, Somes(adjusted))
  }

  /** The range the present dates span: first to last, or one day from a lone date. */
  function RangeOver(t: Term, dates: seq<Ticks>): Fallible<Pred>
  {
    if |dates| > 1 then Returns(Between(t, VDate(dates[0]), VDate(dates[|dates| - 1])))
    else if dates == [] then Throws   // dates.First() on an empty list
    else
      match DayLaterLessOneTick(dates[0])
      case Throws => Throws
      case Returns(last) => Returns(Between(t, VDate(dates[0]), VDate(last)))
  }

  /** The single-date branch: from the parsed instant to the last tick of its day. */
  function SingleDatePredicate(cul: Culture, t: Term, value: string): Fallible<Pred>
  {
    match cul.parseExactDate(Trim(value))
    case None => Throws   // finalValue!.Value on null; the fallback constant then throws as well
    case Some(d) =>
      match DayLaterLessOneTick(DatePart(d))
      case Throws => Throws
      case Returns(last) => Returns(Between(t, VDate(d), VDate(last)))
  }

  // ---------------------------------------------------------------------------
  // BuildBodyExpression
  // ---------------------------------------------------------------------------

  /**
   * `BuildBodyExpression(property, value)` for a property of type `ty`. Every non-text
   * scalar that reaches the last line (`Expression.Constant(value, property.Type)` with a
   * string `value`) throws; only text, `!`, comma lists and dates produce expressions.
   */
  function BodyPredicate(cul: Culture, t: Term, ty: Ty, value: Option<string>): Built
  {
    if value == Some("") then Returns(None)
    else if value.None? then (if AdmitsNull(ty) then Returns(Some(IsNull(t))) else Throws)
    else
      var v := value.value;
      if ty == TText then Lift(StringPredicate(cul, t, value))
      else if v == "!" then (if AdmitsNull(ty) then Returns(Some(NotNull(t))) else Throws)
      else if ',' in v then Lift(ArrayPredicate(cul, t, ty, v))
      else if ';' in v && (ty == TDate || ty == TNullable(TDate)) then Lift(DateRangePredicate(cul, t, v))
      else if Underlying(ty) == TDate then Lift(SingleDatePredicate(cul, t, v))
      else Throws
  }

  // ---------------------------------------------------------------------------
  // Path resolution
  // ---------------------------------------------------------------------------

  /** A member access, null-guarded when the member is of a class type other than string. */
  function Access(t: Term, p: Property): Term {
    if IsGuardedClass(p.ty) then NullGuarded(Prop(t, p.name)) else Prop(t, p.name)
  }

  /** `BuildPropertyExpression`: the access chain for `segs` from `t : ty`, or `None` when a member is missing. */
  function PropertyChain(cat: Catalog, t: Term, ty: Ty, segs: seq<string>): Option<(Term, Ty)>
    decreases |segs|
  {
    if segs == [] then Some((t, ty))
    else
      match Member(cat, ty, segs[0])
      case None => None
      case Some(p) => PropertyChain(cat, Access(t, p), p.ty, segs[1..])
  }

  /**
   * The rest of `BuildNestedPropertyExpression`'s walk from segment `i`, with `t : ty` the
   * expression built so far and `index` its counter of completed scalar hops. A collection
   * hop resolves the segments from `index` on against the element type and wraps the body
   * in `Any`; when that inner part yields null the loop `continue`s with the next segment.
   */
  function Walk(cat: Catalog, cul: Culture, segs: seq<string>, value: Option<string>,
                i: nat, t: Term, ty: Ty, index: nat): Option<Pred>
    requires i <= |segs| && 1 <= index <= i + 1
    decreases |segs| - i
  {
    if i == |segs| then Caught(BodyPredicate(cul, t, ty, value))
    else
      match Member(cat, ty, segs[i])
      case None => None
      case Some(p) =>
        var h := Prop(t, p.name);
        if p.ty.TCollection? then
          if p.ty.element.None? then Caught(BodyPredicate(cul, h, p.ty, value))
          else
            match CollectionHop(cat, cul, segs[index..], value, h, p.ty.element.value)
            case Continue => Walk(cat, cul, segs, value, i + 1, h, p.ty, index)
            case Return(r) => r
        else Walk(cat, cul, segs, value, i + 1, Access(t, p), p.ty, index + 1)
  }

  /** How the walk goes on after a collection hop: with the next segment, or out with a result. */
  datatype Hop = Continue | Return(r: Option<Pred>)

  /**
   * A hop onto the collection `h` of `element`s: the remaining segments `rest` resolved against
   * the element type become an `Any` over `h`. A path that does not resolve, or a body that
   * yields null, continues the walk; a body that throws ends it with null.
   */
  function CollectionHop(cat: Catalog, cul: Culture, rest: seq<string>, value: Option<string>, h: Term, element: Ty): Hop
  {
    match PropertyChain(cat, Param, element, rest)
    case None => Continue
    case Some((inner, innerTy)) =>
      match BodyPredicate(cul, inner, innerTy, value)
      case Throws => Return(None)
      case Returns(None) => Continue
      case Returns(Some(q)) => Return(Some(Any(h, q)))
  }

  /** `BuildNestedPropertyExpression(src, key, value)` for `src : root`. */
  function NestedPredicate(cat: Catalog, cul: Culture, root: Ty, key: string, value: Option<string>): Option<Pred>
  {
    Walk(cat, cul, Split(key, '.'), value, 0, Param, root, 1)
  }

  /** `BuildConcatenatedPropertyExpression`: both paths must resolve to text, joined by one space. */
  function ConcatenatedPredicate(cat: Catalog, cul: Culture, root: Ty, path1: string, path2: string,
                                 value: Option<string>): Option<Pred>
  {
    match (PropertyChain(cat, Param, root, Split(path1, '.')), PropertyChain(cat, Param, root, Split(path2, '.')))
    case (Some((t1, ty1)), Some((t2, ty2))) =>
      if ty1 == TText && ty2 == TText then
        match StringPredicate(cul, ConcatWithSpace(t1, t2), value)
        case Returns(p) => Some(p)
        case Throws => None
      else None   // string.Concat(string, string) rejects a non-string operand
    case _ => None
  }

  // ---------------------------------------------------------------------------
  // Search and filters
  // ---------------------------------------------------------------------------

  /** What one search target contributes: a two-path concatenation, or a single path. */
  function TargetPredicate(cat: Catalog, cul: Culture, root: Ty, target: string, value: string): Option<Pred>
  {
    if ',' in target then
      var parts := Split(target, ',');
      if |parts| == 2 then ConcatenatedPredicate(cat, cul, root, Trim(parts[0]), Trim(parts[1]), Some(value))
      else None
    else NestedPredicate(cat, cul, root, target, Some(value))
  }

  /** Adds one contribution to the running disjunction. */
  function OrElse(acc: Option<Pred>, next: Option<Pred>): (r: Option<Pred>)
    ensures r.None? <==> acc.None? && next.None?
  {
    match next
    case None => acc
    case Some(p) => if acc.None? then Some(p) else Some(Or(acc.value, p))
  }

  /** The left-nested OR of the contributions present; `None` when there are none. */
  function OrAll(cs: seq<Option<Pred>>): (r: Option<Pred>)
    ensures r.None? <==> forall i :: 0 <= i < |cs| ==> cs[i].None?
    ensures r.Some? ==> forall x :: Eval(r.value, x) <==> exists i :: 0 <= i < |cs| && cs[i].Some? && Eval(cs[i].value, x)
    decreases |cs|
  {
    if cs == [] then None
    else
      var n := |cs| - 1;
      var init := cs[..n];
      assert forall i :: 0 <= i < n ==> init[i] == cs[i];
      OrElse(OrAll(init), cs[n])
  }

  /** What each search target contributes, target by target. */
  function TargetContributions(cat: Catalog, cul: Culture, root: Ty, value: string, targets: seq<string>): (r: seq<Option<Pred>>)
    ensures |r| == |targets|
    ensures forall i :: 0 <= i < |targets| ==> r[i] == TargetPredicate(cat, cul, root, targets[i], value)
  {
    seq(|targets|, i requires 0 <= i < |targets| => TargetPredicate(cat, cul, root, targets[i], value))
  }

  /** `Search<T>(src, value, targets)`: the left-nested OR of what the targets contribute. */
  function SearchPredicate(cat: Catalog, cul: Culture, root: Ty, value: string, targets: seq<string>): Option<Pred>
  {
    OrAll(TargetContributions(cat, cul, root, value, targets))
  }

  /** The static `SearchByProperties` of a record type implementing `IGeneralSearchBy`, if any. */
  function DefaultTargets(cat: Catalog, root: Ty): Option<seq<string>> {
    if root.TRecord? && root.name in cat then cat[root.name].searchByProperties else None
  }

  /** The targets `GeneralSearch` uses: the request's own, else the type's defaults. */
  function EffectiveTargets(cat: Catalog, root: Ty, targets: Option<seq<string>>): (r: Option<seq<string>>)
    ensures targets.Some? ==> r == targets
    ensures targets.None? ==> r == DefaultTargets(cat, root)
  {
    if targets.None? && DefaultTargets(cat, root).Some? then DefaultTargets(cat, root) else targets
  }

  /** `GeneralSearch(query, search)` with `search.Value == value` and `search.Properties == targets`. */
  function SearchedQuery(cat: Catalog, cul: Culture, root: Ty, q: seq<Value>,
                         value: Option<string>, targets: Option<seq<string>>): seq<Value>
  {
    if IsNullOrWhiteSpace(value) then q
    else
      match SearchPredicate(cat, cul, root, Trim(value.value), EffectiveTargets(cat, root, targets).GetOr([]))
      case None => q
      case Some(p) => Where(q, p)
  }

  /** What one filter entry contributes: nothing for a reserved key, else the nested predicate. */
  function FilterPredicate(cat: Catalog, cul: Culture, root: Ty, key: string, value: string): Option<Pred>
  {
    if key in ReservedKeys then None else NestedPredicate(cat, cul, root, key, Some(value))
  }

  /** What each filter entry contributes, entry by entry. */
  function FilterContributions(cat: Catalog, cul: Culture, root: Ty, filters: FilterMap): (r: seq<Option<Pred>>)
    ensures |r| == |filters|
    ensures forall i :: 0 <= i < |filters| ==> r[i] == FilterPredicate(cat, cul, root, filters[i].0, filters[i].1)
  {
    seq(|filters|, i requires 0 <= i < |filters| => FilterPredicate(cat, cul, root, filters[i].0, filters[i].1))
  }

  /** `ApplyGenericFilter(query, filters)`: one `Where` per entry that yields a predicate, in enumeration order. */
  function FilteredQuery(cat: Catalog, cul: Culture, root: Ty, q: seq<Value>, filters: Option<FilterMap>): seq<Value>
  {
    if filters.None? || filters.value == [] then q
    else WhereAll(q, Somes(FilterContributions(cat, cul, root, filters.value)))
  }
}
