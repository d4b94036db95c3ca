/**
 * What the filters and the search of `QueryableExtension` mean on records: which
 * records a filter value keeps, for each kind of property, and how filter entries
 * and search targets combine.
 */
module QueryLemmas {
  import opened Wrappers
  import opened Text
  import opened Dates
  import opened Schema
  import opened Predicates
  import opened QuerySpec

  // ---------------------------------------------------------------------------
  // ApplyGenericFilter
  // ---------------------------------------------------------------------------

  /**
   * `ApplyGenericFilter` keeps a record exactly when it satisfies the predicate of every
   * entry that yields one: the filters are ANDed, and an entry yielding null changes nothing.
   */
  lemma FilteredQueryIsConjunction(cat: Catalog, cul: Culture, root: Ty, q: seq<Value>, filters: FilterMap)
    ensures forall x :: x in FilteredQuery(cat, cul, root, q, Some(filters)) <==>
      x in q && forall i :: 0 <= i < |filters| && FilterPredicate(cat, cul, root, filters[i].0, filters[i].1).Some? ==>
        Eval(FilterPredicate(cat, cul, root, filters[i].0, filters[i].1).value, x)
  {
    if filters != [] {
      WhereAllOfSomes(q, FilterContributions(cat, cul, root, filters));
    }
  }

  /** A path walk with the empty value never yields a predicate, whatever the path. */
  lemma {:induction false} WalkWithEmptyValue(cat: Catalog, cul: Culture, segs: seq<string>,
                                              i: nat, t: Term, ty: Ty, index: nat)
    requires i <= |segs| && 1 <= index <= i + 1
    ensures Walk(cat, cul, segs, Some(""), i, t, ty, index) == None
    decreases |segs| - i
  {
    if i < |segs| {
      match Member(cat, ty, segs[i])
      case None =>
      case Some(p) =>
        if p.ty.TCollection? {
          if p.ty.element.Some? {
            WalkWithEmptyValue(cat, cul, segs, i + 1, Prop(t, p.name), p.ty, index);
          }
        } else {
          WalkWithEmptyValue(cat, cul, segs, i + 1, Access(t, p), p.ty, index + 1);
        }
    }
  }

  /**
   * A filter map whose every entry has a reserved key (Filters, Search, SortBy, Direction)
   * or an empty value leaves the query as it was.
   */
  lemma InertFiltersLeaveQuery(cat: Catalog, cul: Culture, root: Ty, q: seq<Value>, filters: FilterMap)
    requires forall i :: 0 <= i < |filters| ==> filters[i].0 in ReservedKeys || filters[i].1 == ""
    ensures FilteredQuery(cat, cul, root, q, Some(filters)) == q
  {
    var cs := FilterContributions(cat, cul, root, filters);
    forall i | 0 <= i < |filters|
      ensures cs[i] == None
    {
      if filters[i].0 !in ReservedKeys {
        WalkWithEmptyValue(cat, cul, Split(filters[i].0, '.'), 0, Param, root, 1);
      }
    }
    SomesOfNones(cs);
  }

  // ---------------------------------------------------------------------------
  // BuildNestedPropertyExpression on one-segment and two-segment keys
  // ---------------------------------------------------------------------------

  /** A key without `.` naming a property that is not a collection filters on that property itself. */
  lemma SingleSegmentKey(cat: Catalog, cul: Culture, root: Ty, key: string, value: Option<string>, p: Property)
    requires '.' !in key
    requires Member(cat, root, key) == Some(p) && !p.ty.TCollection?
    ensures NestedPredicate(cat, cul, root, key, value) == Caught(BodyPredicate(cul, Access(Param, p), p.ty, value))
  {
    var segs := Split(key, '.');
    assert segs == [key];
    assert Walk(cat, cul, segs, value, 1, Access(Param, p), p.ty, 2) == Caught(BodyPredicate(cul, Access(Param, p), p.ty, value));
  }

  /** The property a one-segment key reads is the record's field of that name. */
  lemma AccessReadsField(p: Property)
    ensures forall x :: EvalTerm(Access(Param, p), x) == Field(x, p.name)
  {
    forall x ensures EvalTerm(Access(Param, p), x) == Field(x, p.name) {
      assert EvalTerm(Prop(Param, p.name), x) == Field(x, p.name);
    }
  }

  /** A text property matches a value without `,` when its lower-cased text contains the lower-cased value. */
  lemma TextFilterIsSubstringMatch(cat: Catalog, cul: Culture, root: Ty, key: string, v: string, p: Property)
    requires '.' !in key && Member(cat, root, key) == Some(p) && p.ty == TText
    requires v != "" && ',' !in v
    ensures NestedPredicate(cat, cul, root, key, Some(v)) == Some(LowerContains(Prop(Param, p.name), Lower(v)))
    ensures forall x :: Eval(LowerContains(Prop(Param, p.name), Lower(v)), x) <==>
      Field(x, p.name).VText? && ContainsText(Lower(Field(x, p.name).text), Lower(v))
  {
    SingleSegmentKey(cat, cul, root, key, Some(v), p);
    var t := Prop(Param, p.name);
    assert Access(Param, p) == t;
    assert StringPredicate(cul, t, Some(v)) == Returns(LowerContains(t, Lower(v)));
    assert BodyPredicate(cul, t, TText, Some(v)) == Returns(Some(LowerContains(t, Lower(v))));
    AccessReadsField(p);
  }

  /** `"!"` on a text property is an ordinary substring search for the character `!`. */
  lemma BangOnTextIsSubstringMatch(cat: Catalog, cul: Culture, root: Ty, key: string, p: Property)
    requires '.' !in key && Member(cat, root, key) == Some(p) && p.ty == TText
    ensures NestedPredicate(cat, cul, root, key, Some("!")) == Some(LowerContains(Prop(Param, p.name), "!"))
  {
    assert Lower("!") == "!" by {
      assert Lower("!")[0] == LowerChar('!') == '!';
    }
    TextFilterIsSubstringMatch(cat, cul, root, key, "!", p);
  }

  /** Lower-casing leaves a comma where it was and creates none. */
  lemma LowerKeepsCommas(s: string)
    ensures ',' in s <==> ',' in Lower(s)
  {
    if ',' in Lower(s) {
      var k :| 0 <= k < |s| && Lower(s)[k] == ',';
      assert s[k] == ',';
    }
    if ',' in s {
      var k :| 0 <= k < |s| && s[k] == ',';
      assert Lower(s)[k] == ',';
    }
  }

  /** A text filter without `,` does not depend on the case of the value. */
  lemma TextFilterIgnoresCase(cat: Catalog, cul: Culture, root: Ty, key: string, v1: string, v2: string, p: Property)
    requires '.' !in key && Member(cat, root, key) == Some(p) && p.ty == TText
    requires v1 != "" && ',' !in v1 && Lower(v1) == Lower(v2)
    ensures NestedPredicate(cat, cul, root, key, Some(v1)) == NestedPredicate(cat, cul, root, key, Some(v2))
  {
    LowerKeepsCommas(v1);
    LowerKeepsCommas(v2);
    assert |v2| == |Lower(v2)| == |v1|;
    TextFilterIsSubstringMatch(cat, cul, root, key, v1, p);
    TextFilterIsSubstringMatch(cat, cul, root, key, v2, p);
  }

  /** The comma list of a text value, as `ArrayExpression` converts it: each token trimmed and lower-cased. */
  lemma TextTokens(cul: Culture, v: string)
    ensures ConvertTokens(cul, TText, Split(v, ',')).Some?
    ensures var tokens := Split(v, ',');
      var arr := LoweredArray(ConvertTokens(cul, TText, tokens).value);
      |arr| == |tokens| && forall i :: 0 <= i < |tokens| ==> arr[i] == VText(Lower(Trim(tokens[i])))
  {
    var tokens := Split(v, ',');
    var converted := ConvertTokens(cul, TText, tokens);
    ConvertTokensSucceeds(cul, TText, tokens);
    forall i | 0 <= i < |tokens| ensures converted.value[i] == VText(Trim(tokens[i])) {
      assert ChangeType(cul, TText, Trim(tokens[i])) == Some(VText(Trim(tokens[i])));
    }
  }

  /** A text property matches a `,` list when its lower-cased text equals some trimmed, lower-cased token. */
  lemma TextFilterMatchesAnyToken(cat: Catalog, cul: Culture, root: Ty, key: string, v: string, p: Property)
    requires '.' !in key && Member(cat, root, key) == Some(p) && p.ty == TText
    requires ',' in v
    ensures NestedPredicate(cat, cul, root, key, Some(v)).Some?
    ensures forall x :: Eval(NestedPredicate(cat, cul, root, key, Some(v)).value, x) <==>
      Field(x, p.name).VText? &&
      exists i :: 0 <= i < |Split(v, ',')| && Lower(Field(x, p.name).text) == Lower(Trim(Split(v, ',')[i]))
  {
    SingleSegmentKey(cat, cul, root, key, Some(v), p);
    var t := Prop(Param, p.name);
    assert Access(Param, p) == t;
    var tokens := Split(v, ',');
    TextTokens(cul, v);
    var arr := LoweredArray(ConvertTokens(cul, TText, tokens).value);
    assert ArrayPredicate(cul, t, TText, v) == Returns(LowerIn(t, arr));
    assert BodyPredicate(cul, t, TText, Some(v)) == Returns(Some(LowerIn(t, arr)));
    InLoweredTokens(p.name, tokens, arr);
  }

  /** Membership of a text field, lower-cased, in the trimmed and lower-cased tokens. */
  lemma InLoweredTokens(f: string, tokens: seq<string>, arr: seq<Value>)
    requires |arr| == |tokens| && forall i :: 0 <= i < |tokens| ==> arr[i] == VText(Lower(Trim(tokens[i])))
    ensures forall x :: Eval(LowerIn(Prop(Param, f), arr), x) <==>
      Field(x, f).VText? && exists i :: 0 <= i < |tokens| && Lower(Field(x, f).text) == Lower(Trim(tokens[i]))
  {
    forall x ensures Eval(LowerIn(Prop(Param, f), arr), x) <==>
      Field(x, f).VText? && exists i :: 0 <= i < |tokens| && Lower(Field(x, f).text) == Lower(Trim(tokens[i]))
    {
      assert EvalTerm(Prop(Param, f), x) == Field(x, f);
      var v := Field(x, f);
      if v.VText? && VText(Lower(v.text)) in arr {
        var i :| 0 <= i < |arr| && arr[i] == VText(Lower(v.text));
        assert Lower(v.text) == Lower(Trim(tokens[i]));
      }
      if v.VText? && exists i :: 0 <= i < |tokens| && Lower(v.text) == Lower(Trim(tokens[i])) {
        var i :| 0 <= i < |tokens| && Lower(v.text) == Lower(Trim(tokens[i]));
        assert arr[i] == VText(Lower(v.text));
      }
    }
  }

  /** Values converted to a type other than text come through `ConvertToArray` unchanged. */
  lemma NonTextTokens(cul: Culture, ty: Ty, v: string)
    requires ty != TText && ConvertTokens(cul, ty, Split(v, ',')).Some?
    ensures LoweredArray(ConvertTokens(cul, ty, Split(v, ',')).value) == ConvertTokens(cul, ty, Split(v, ',')).value
  {
    var tokens := Split(v, ',');
    var vals := ConvertTokens(cul, ty, tokens).value;
    forall i | 0 <= i < |vals| ensures !vals[i].VText? {
      assert ChangeType(cul, ty, Trim(tokens[i])) == Some(vals[i]);
    }
  }

  /** Membership in the converted tokens, as a statement about the record's field. */
  lemma InConvertedTokens(cul: Culture, p: Property, tokens: seq<string>, vals: seq<Value>)
    requires |vals| == |tokens|
    requires forall i :: 0 <= i < |tokens| ==> ChangeType(cul, p.ty, Trim(tokens[i])) == Some(vals[i])
    ensures MatchesConvertedToken(cul, p, tokens, In(Access(Param, p), vals))
  {
    AccessReadsField(p);
    forall x ensures Eval(In(Access(Param, p), vals), x) <==>
      Field(x, p.name) != VNull && exists i :: 0 <= i < |tokens| && ChangeType(cul, p.ty, Trim(tokens[i])) == Some(Field(x, p.name))
    {
      var f := Field(x, p.name);
      assert Eval(In(Access(Param, p), vals), x) <==> f != VNull && f in vals;
      if f in vals {
        var i :| 0 <= i < |vals| && vals[i] == f;
        assert ChangeType(cul, p.ty, Trim(tokens[i])) == Some(f);
      }
      if exists i :: 0 <= i < |tokens| && ChangeType(cul, p.ty, Trim(tokens[i])) == Some(f) {
        var i :| 0 <= i < |tokens| && ChangeType(cul, p.ty, Trim(tokens[i])) == Some(f);
        assert vals[i] == f;
      }
    }
  }

  /** A `,` value on a property other than text reaches `ArrayExpression`. */
  lemma ValueListReachesArray(cat: Catalog, cul: Culture, root: Ty, key: string, v: string, p: Property)
    requires '.' !in key && Member(cat, root, key) == Some(p) && p.ty != TText && !p.ty.TCollection?
    requires ',' in v
    ensures NestedPredicate(cat, cul, root, key, Some(v)) == Caught(Lift(ArrayPredicate(cul, Access(Param, p), p.ty, v)))
  {
    SingleSegmentKey(cat, cul, root, key, Some(v), p);
    assert v != "" && v != "!";
  }

  /** Every trimmed token converts to `ty`. */
  predicate AllTokensConvert(cul: Culture, ty: Ty, tokens: seq<string>) {
    forall i :: 0 <= i < |tokens| ==> ChangeType(cul, ty, Trim(tokens[i])).Some?
  }

  /** `pr` holds of exactly the records whose property `p` is non-null and equals some converted token. */
  ghost predicate MatchesConvertedToken(cul: Culture, p: Property, tokens: seq<string>, pr: Pred) {
    forall x :: Eval(pr, x) <==>
      Field(x, p.name) != VNull &&
      exists i :: 0 <= i < |tokens| && ChangeType(cul, p.ty, Trim(tokens[i])) == Some(Field(x, p.name))
  }

  /** `ArrayExpression` on a property other than text builds a predicate exactly when every token converts. */
  lemma ValueArrayConverts(cul: Culture, p: Property, v: string)
    requires p.ty != TText
    ensures ArrayPredicate(cul, Access(Param, p), p.ty, v).Returns? <==> AllTokensConvert(cul, p.ty, Split(v, ','))
    ensures p.ty.TNullable? ==> ArrayPredicate(cul, Access(Param, p), p.ty, v) == Throws
  {
    var tokens := Split(v, ',');
    ConvertTokensSucceeds(cul, p.ty, tokens);
    ArrayPredicateCases(cul, Access(Param, p), p.ty, v);
    if p.ty.TNullable? {
      NullableTokensFail(cul, p.ty, tokens);
    }
  }

  /** No token converts to a `Nullable<T>`, and there is always at least one token. */
  lemma NullableTokensFail(cul: Culture, ty: Ty, tokens: seq<string>)
    requires ty.TNullable? && |tokens| >= 1
    ensures ConvertTokens(cul, ty, tokens).None?
  {
    assert ChangeType(cul, ty, Trim(tokens[0])).None?;
  }

  /** The predicate `ArrayExpression` builds on a property other than text, record by record. */
  lemma ValueArrayMembership(cul: Culture, p: Property, v: string)
    requires p.ty != TText && ArrayPredicate(cul, Access(Param, p), p.ty, v).Returns?
    ensures MatchesConvertedToken(cul, p, Split(v, ','), ArrayPredicate(cul, Access(Param, p), p.ty, v).value)
  {
    var tokens := Split(v, ',');
    var converted := ConvertTokens(cul, p.ty, tokens);
    ArrayPredicateCases(cul, Access(Param, p), p.ty, v);
    NonTextTokens(cul, p.ty, v);
    InConvertedTokens(cul, p, tokens, converted.value);
  }

  /** `ArrayExpression` throws exactly when some token does not convert. */
  lemma ArrayPredicateCases(cul: Culture, t: Term, ty: Ty, v: string)
    ensures ConvertTokens(cul, ty, Split(v, ',')).None? ==> ArrayPredicate(cul, t, ty, v) == Throws
    ensures ConvertTokens(cul, ty, Split(v, ',')).Some? ==>
      ArrayPredicate(cul, t, ty, v) == Returns(ContainsForLists(t, ty, LoweredArray(ConvertTokens(cul, ty, Split(v, ',')).value)))
  {
  }

  /**
   * On a property that is neither text nor a collection, a `,` list contributes only when
   * every trimmed token converts to the property's own type, and then matches a non-null
   * value equal to one of the converted tokens. `Nullable<T>` properties never qualify.
   */
  lemma ValueFilterMatchesAnyToken(cat: Catalog, cul: Culture, root: Ty, key: string, v: string, p: Property)
    requires '.' !in key && Member(cat, root, key) == Some(p) && p.ty != TText && !p.ty.TCollection?
    requires ',' in v
    ensures NestedPredicate(cat, cul, root, key, Some(v)).Some? <==> AllTokensConvert(cul, p.ty, Split(v, ','))
    ensures p.ty.TNullable? ==> NestedPredicate(cat, cul, root, key, Some(v)).None?
    ensures NestedPredicate(cat, cul, root, key, Some(v)).Some? ==>
      MatchesConvertedToken(cul, p, Split(v, ','), NestedPredicate(cat, cul, root, key, Some(v)).value)
  {
    ValueListReachesArray(cat, cul, root, key, v, p);
    ValueArrayConverts(cul, p, v);
    if ArrayPredicate(cul, Access(Param, p), p.ty, v).Returns? {
      ValueArrayMembership(cul, p, v);
    }
  }

  /**
   * `"!"` on a property that is neither text nor a collection: IS NOT NULL when the property
   * admits null, and nothing on a non-nullable value type (the comparison cannot be built).
   */
  lemma NotNullFilter(cat: Catalog, cul: Culture, root: Ty, key: string, p: Property)
    requires '.' !in key && Member(cat, root, key) == Some(p) && p.ty != TText && !p.ty.TCollection?
    ensures AdmitsNull(p.ty) ==> NestedPredicate(cat, cul, root, key, Some("!")) == Some(NotNull(Access(Param, p)))
    ensures !AdmitsNull(p.ty) ==> NestedPredicate(cat, cul, root, key, Some("!")) == None
    ensures forall x :: Eval(NotNull(Access(Param, p)), x) <==> Field(x, p.name) != VNull
  {
    SingleSegmentKey(cat, cul, root, key, Some("!"), p);
    var t := Access(Param, p);
    assert BodyPredicate(cul, t, p.ty, Some("!")) == if AdmitsNull(p.ty) then Returns(Some(NotNull(t))) else Throws;
    AccessReadsField(p);
  }

  /**
   * A plain value (not `!`, no `,`) on a property that is neither text nor a date reaches the
   * raw-string constant, which cannot be built: such a filter never contributes.
   */
  lemma ScalarEqualityNeverContributes(cat: Catalog, cul: Culture, root: Ty, key: string, v: string, p: Property)
    requires '.' !in key && Member(cat, root, key) == Some(p) && !p.ty.TCollection?
    requires p.ty != TText && Underlying(p.ty) != TDate
    requires v != "!" && ',' !in v
    ensures NestedPredicate(cat, cul, root, key, Some(v)) == None
  {
    SingleSegmentKey(cat, cul, root, key, Some(v), p);
    var t := Access(Param, p);
    assert p.ty != TDate && p.ty != TNullable(TDate);
    assert BodyPredicate(cul, t, p.ty, Some(v)) == if v == "" then Returns(None) else Throws;
  }

  /** A key `c.f` through a collection `c` tests whether SOME element's text `f` contains the value. */
  lemma CollectionFilterIsExists(cat: Catalog, cul: Culture, root: Ty, c: string, f: string, v: string,
                                 pc: Property, pf: Property)
    requires '.' !in c && '.' !in f
    requires Member(cat, root, c) == Some(pc) && pc.ty.TCollection? && pc.ty.element.Some?
    requires Member(cat, pc.ty.element.value, f) == Some(pf) && pf.ty == TText
    requires v != "" && ',' !in v
    ensures NestedPredicate(cat, cul, root, c + "." + f, Some(v))
         == Some(Any(Prop(Param, pc.name), LowerContains(Prop(Param, pf.name), Lower(v))))
    ensures forall x :: Eval(Any(Prop(Param, pc.name), LowerContains(Prop(Param, pf.name), Lower(v))), x) <==>
      Field(x, pc.name).VList? &&
      exists i :: 0 <= i < |Field(x, pc.name).items| &&
        Field(Field(x, pc.name).items[i], pf.name).VText? &&
        ContainsText(Lower(Field(Field(x, pc.name).items[i], pf.name).text), Lower(v))
  {
    SplitAfterFirst(c, f, '.');
    assert c + "." + f == c + ['.'] + f;
    var segs := Split(c + "." + f, '.');
    assert Split(f, '.') == [f];
    assert segs == [c, f];
    assert segs[1..] == [f];
    var inner := Prop(Param, pf.name);
    var elem := pc.ty.element.value;
    assert Access(Param, pf) == inner;
    assert PropertyChain(cat, inner, TText, []) == Some((inner, TText));
    assert PropertyChain(cat, Param, elem, [f]) == Some((inner, TText));
    assert StringPredicate(cul, inner, Some(v)) == Returns(LowerContains(inner, Lower(v)));
    assert BodyPredicate(cul, inner, TText, Some(v)) == Returns(Some(LowerContains(inner, Lower(v))));
    assert Walk(cat, cul, segs, Some(v), 0, Param, root, 1) == Some(Any(Prop(Param, pc.name), LowerContains(inner, Lower(v))));
    AnyElementContains(pc.name, pf.name, Lower(v));
  }

  /** `c.Any(e => e.f.ToLower().Contains(needle))` on a record. */
  lemma AnyElementContains(c: string, f: string, needle: string)
    ensures forall x :: Eval(Any(Prop(Param, c), LowerContains(Prop(Param, f), needle)), x) <==>
      Field(x, c).VList? &&
      exists i :: 0 <= i < |Field(x, c).items| &&
        Field(Field(x, c).items[i], f).VText? &&
        ContainsText(Lower(Field(Field(x, c).items[i], f).text), needle)
  {
    forall x ensures Eval(Any(Prop(Param, c), LowerContains(Prop(Param, f), needle)), x) <==>
      Field(x, c).VList? &&
      exists i :: 0 <= i < |Field(x, c).items| &&
        Field(Field(x, c).items[i], f).VText? &&
        ContainsText(Lower(Field(Field(x, c).items[i], f).text), needle)
    {
      assert EvalTerm(Prop(Param, c), x) == Field(x, c);
      forall y ensures EvalTerm(Prop(Param, f), y) == Field(y, f) {}
    }
  }

  /** A key `a.f` through a record `a` null-guards `a`: a record whose `a` is null does not match. */
  lemma NestedRecordFilterIsNullGuarded(cat: Catalog, cul: Culture, root: Ty, a: string, f: string, v: string,
                                        pa: Property, pf: Property)
    requires '.' !in a && '.' !in f
    requires Member(cat, root, a) == Some(pa) && pa.ty.TRecord?
    requires Member(cat, pa.ty, f) == Some(pf) && pf.ty == TText
    requires v != "" && ',' !in v
    ensures NestedPredicate(cat, cul, root, a + "." + f, Some(v))
         == Some(LowerContains(Prop(NullGuarded(Prop(Param, pa.name)), pf.name), Lower(v)))
    ensures forall x :: Eval(LowerContains(Prop(NullGuarded(Prop(Param, pa.name)), pf.name), Lower(v)), x) <==>
      Field(Field(x, pa.name), pf.name).VText? &&
      ContainsText(Lower(Field(Field(x, pa.name), pf.name).text), Lower(v))
    ensures forall x :: Field(x, pa.name) == VNull ==>
      !Eval(LowerContains(Prop(NullGuarded(Prop(Param, pa.name)), pf.name), Lower(v)), x)
  {
    SplitAfterFirst(a, f, '.');
    assert a + "." + f == a + ['.'] + f;
    assert Split(f, '.') == [f];
    var segs := Split(a + "." + f, '.');
    assert segs == [a, f];
    var owner := NullGuarded(Prop(Param, pa.name));
    var t := Prop(owner, pf.name);
    assert Access(Param, pa) == owner;
    assert Access(owner, pf) == t;
    assert StringPredicate(cul, t, Some(v)) == Returns(LowerContains(t, Lower(v)));
    assert BodyPredicate(cul, t, TText, Some(v)) == Returns(Some(LowerContains(t, Lower(v))));
    assert Walk(cat, cul, segs, Some(v), 2, t, TText, 3) == Some(LowerContains(t, Lower(v)));
    assert Walk(cat, cul, segs, Some(v), 1, owner, pa.ty, 2) == Some(LowerContains(t, Lower(v)));
    GuardedFieldContains(pa.name, pf.name, Lower(v));
  }

  /** Substring search on the field `f` of the null-guarded record field `a`. */
  lemma GuardedFieldContains(a: string, f: string, needle: string)
    ensures forall x :: Eval(LowerContains(Prop(NullGuarded(Prop(Param, a)), f), needle), x) <==>
      Field(Field(x, a), f).VText? && ContainsText(Lower(Field(Field(x, a), f).text), needle)
    ensures forall x :: Field(x, a) == VNull ==> !Eval(LowerContains(Prop(NullGuarded(Prop(Param, a)), f), needle), x)
  {
    var owner := NullGuarded(Prop(Param, a));
    forall x ensures EvalTerm(Prop(owner, f), x) == Field(Field(x, a), f) {
      assert EvalTerm(owner, x) == EvalTerm(Prop(Param, a), x) == Field(x, a);
    }
  }

  // ---------------------------------------------------------------------------
  // Dates
  // ---------------------------------------------------------------------------

  /**
   * `AdjustDate`'s counter, as an independent statement: every date keeps its value except
   * the one at position 1, which moves to the end of its day (midnight) or 59 seconds later.
   */
  lemma {:induction false} AdjustedDatesMoveOnlySecond(ds: seq<Option<Ticks>>)
    ensures AdjustedDates(ds).Returns? <==> |ds| < 2 || AdjustedDate(1, ds[1]).Returns?
    ensures AdjustedDates(ds).Returns? ==>
      forall i :: 0 <= i < |ds| && i != 1 ==> AdjustedDates(ds).value[i] == ds[i]
    ensures AdjustedDates(ds).Returns? && |ds| >= 2 ==> AdjustedDates(ds).value[1] == AdjustedDate(1, ds[1]).value
    decreases |ds|
  {
    if ds != [] {
      var n := |ds| - 1;
      var init := ds[..n];
      AdjustedDatesMoveOnlySecond(init);
      if |ds| >= 3 {
        assert init[1] == ds[1];
      }
      if AdjustedDates(ds).Returns? {
        var r := AdjustedDates(ds).value;
        assert r == AdjustedDates(init).value + [AdjustedDate(n, ds[n]).value];
        forall i | 0 <= i < n && i != 1 ensures r[i] == ds[i] {
          assert init[i] == ds[i];
        }
      }
    }
  }

  /** `;` with two dates: from the first to the second, the second moved to the end of its day or by 59 s. */
  lemma DateRangeOfTwoDates(cul: Culture, t: Term, v: string, a: Ticks, b: Ticks)
    requires ParsedDates(cul, v) == [Some(a), Some(b)]
    requires IsMidnight(b) ==> b + TicksPerDay <= MaxTicks
    requires !IsMidnight(b) ==> b + 59 * TicksPerSecond <= MaxTicks
    ensures DateRangePredicate(cul, t, v)
         == Returns(Between(t, VDate(a), VDate(if IsMidnight(b) then b + TicksPerDay - 1 else b + 590_000_000)))
  {
    var ds := ParsedDates(cul, v);
    AdjustedDatesMoveOnlySecond(ds);
    var adj := AdjustedDates(ds).value;
    var e: Ticks := if IsMidnight(b) then b + TicksPerDay - 1 else b + 590_000_000;
    assert adj == [Some(a), Some(e)];
    var tail: seq<Option<Ticks>> := adj[1..];
    var none: seq<Option<Ticks>> := tail[1..];
    assert tail == [Some(e)] && none == [];
    assert Somes(adj) == [a, e];
  }

  /** `;` where only the first token is a date: from that instant to one day later less a tick. */
  lemma DateRangeOfOneDate(cul: Culture, t: Term, v: string, a: Ticks)
    requires |ParsedDates(cul, v)| >= 1 && ParsedDates(cul, v)[0] == Some(a)
    requires forall i :: 1 <= i < |ParsedDates(cul, v)| ==> ParsedDates(cul, v)[i].None?
    requires a + TicksPerDay <= MaxTicks
    ensures DateRangePredicate(cul, t, v) == Returns(Between(t, VDate(a), VDate(a + TicksPerDay - 1)))
  {
    var ds := ParsedDates(cul, v);
    AdjustedDatesMoveOnlySecond(ds);
    var adj := AdjustedDates(ds).value;
    assert adj == ds;
    SomesOfNones(ds[1..]);
    assert Somes(ds) == [a];
  }

  /**
   * The dates a list of parsed tokens yields, in token order: the token at position 1 first
   * moved by `AdjustDate` (which may throw), then the unparsable tokens dropped.
   */
  ghost function MovedDates(ds: seq<Option<Ticks>>): Fallible<seq<Ticks>> {
    if |ds| < 2 then Returns(Somes(ds))
    else
      match AdjustedDate(1, ds[1])
      case Throws => Throws
      case Returns(moved) => Returns(Somes(ds[1 := moved]))
  }

  /** The dates of a `;` value. */
  ghost function RangeDates(cul: Culture, v: string): Fallible<seq<Ticks>> {
    MovedDates(ParsedDates(cul, v))
  }

  /** `AdjustedDates` followed by `.Where(d => d.HasValue)` yields `MovedDates`. */
  lemma AdjustedDatesAreMoved(ds: seq<Option<Ticks>>)
    ensures AdjustedDates(ds).Returns? <==> MovedDates(ds).Returns?
    ensures AdjustedDates(ds).Returns? ==> Somes(AdjustedDates(ds).value) == MovedDates(ds).value
  {
    AdjustedDatesMoveOnlySecond(ds);
    if AdjustedDates(ds).Returns? {
      var adj := AdjustedDates(ds).value;
      var moved := if |ds| < 2 then ds else ds[1 := AdjustedDate(1, ds[1]).value];
      forall i | 0 <= i < |adj| ensures adj[i] == moved[i] {
        if i != 1 {
          assert adj[i] == ds[i];
        }
      }
      assert adj == moved;
    }
  }

  /**
   * The `;` rule for any value: two or more dates give the range from the first to the last,
   * one date gives that instant to one day later less a tick, and no date (or a move or a day
   * past `DateTime.MaxValue`) throws.
   */
  lemma DateRangeIsFirstToLast(cul: Culture, t: Term, v: string)
    ensures RangeDates(cul, v).Throws? ==> DateRangePredicate(cul, t, v) == Throws
    ensures RangeDates(cul, v) == Returns([]) ==> DateRangePredicate(cul, t, v) == Throws
    ensures RangeDates(cul, v).Returns? && |RangeDates(cul, v).value| >= 2 ==>
      var s := RangeDates(cul, v).value;
      DateRangePredicate(cul, t, v) == Returns(Between(t, VDate(s[0]), VDate(s[|s| - 1])))
    ensures RangeDates(cul, v).Returns? && |RangeDates(cul, v).value| == 1 ==>
      var d := RangeDates(cul, v).value[0];
      (d + TicksPerDay <= MaxTicks ==> DateRangePredicate(cul, t, v) == Returns(Between(t, VDate(d), VDate(d + TicksPerDay - 1)))) &&
      (d + TicksPerDay > MaxTicks ==> DateRangePredicate(cul, t, v) == Throws)
  {
    AdjustedDatesAreMoved(ParsedDates(cul, v));
    if RangeDates(cul, v).Returns? {
      var s := RangeDates(cul, v).value;
      if |s| == 1 {
        assert DayLaterLessOneTick(s[0]).Returns? ==> DayLaterLessOneTick(s[0]).value == s[0] + TicksPerDay - 1;
      }
    }
  }

  /**
   * `;` whose only date is the token at position 1, a midnight `m`: that date is moved to the
   * end of its day before the day is added, so the range is `[m + day - 1, m + 2 days - 2]`.
   */
  lemma DateRangeOfLoneSecondDate(cul: Culture, t: Term, v: string, m: Ticks)
    requires |ParsedDates(cul, v)| >= 2 && ParsedDates(cul, v)[1] == Some(m) && IsMidnight(m)
    requires forall i :: 0 <= i < |ParsedDates(cul, v)| && i != 1 ==> ParsedDates(cul, v)[i].None?
    requires m + 2 * TicksPerDay <= MaxTicks
    ensures DateRangePredicate(cul, t, v)
         == Returns(Between(t, VDate(m + TicksPerDay - 1), VDate(m + 2 * TicksPerDay - 2)))
  {
    var ds := ParsedDates(cul, v);
    var e: Ticks := m + TicksPerDay - 1;
    var moved := ds[1 := Some(e)];
    SomesOfNones(moved[2..]);
    assert moved[1..] == [Some(e)] + moved[2..];
    assert Somes(moved) == [e];
    DateRangeIsFirstToLast(cul, t, v);
  }

  /** `;` where no token is a date: `First()` on the empty list throws, so no predicate. */
  lemma DateRangeWithoutDates(cul: Culture, t: Term, v: string)
    requires forall i :: 0 <= i < |ParsedDates(cul, v)| ==> ParsedDates(cul, v)[i].None?
    ensures DateRangePredicate(cul, t, v) == Throws
  {
    var ds := ParsedDates(cul, v);
    AdjustedDatesMoveOnlySecond(ds);
    var adj := AdjustedDates(ds).value;
    assert adj == ds;
    SomesOfNones(ds);
  }

  /**
   * A single date on a `DateTime`/`DateTime?` property keeps the records from that instant to the
   * end of the same calendar day; a value that does not parse contributes nothing.
   */
  lemma SingleDateFilterCoversRestOfDay(cat: Catalog, cul: Culture, root: Ty, key: string, v: string, p: Property)
    requires '.' !in key && Member(cat, root, key) == Some(p) && Underlying(p.ty) == TDate
    requires v != "" && v != "!" && ',' !in v && ';' !in v
    ensures cul.parseExactDate(Trim(v)).None? ==> NestedPredicate(cat, cul, root, key, Some(v)) == None
    ensures cul.parseExactDate(Trim(v)).Some? && DatePart(cul.parseExactDate(Trim(v)).value) + TicksPerDay <= MaxTicks ==>
      NestedPredicate(cat, cul, root, key, Some(v)).Some? &&
      OnDayFrom(NestedPredicate(cat, cul, root, key, Some(v)).value, p.name, cul.parseExactDate(Trim(v)).value)
  {
    SingleSegmentKey(cat, cul, root, key, Some(v), p);
    var t := Prop(Param, p.name);
    assert p.ty == TDate || p.ty == TNullable(TDate);
    assert Access(Param, p) == t;
    assert BodyPredicate(cul, t, p.ty, Some(v)) == Lift(SingleDatePredicate(cul, t, v));
    CaughtSingleDate(cul, p.name, v, NestedPredicate(cat, cul, root, key, Some(v)));
  }

  /** What `SingleDateExpression` contributes once its exception is caught. */
  lemma CaughtSingleDate(cul: Culture, f: string, v: string, np: Option<Pred>)
    requires np == Caught(Lift(SingleDatePredicate(cul, Prop(Param, f), v)))
    ensures cul.parseExactDate(Trim(v)).None? ==> np == None
    ensures cul.parseExactDate(Trim(v)).Some? && DatePart(cul.parseExactDate(Trim(v)).value) + TicksPerDay <= MaxTicks ==>
      np.Some? && OnDayFrom(np.value, f, cul.parseExactDate(Trim(v)).value)
  {
    var parsed := cul.parseExactDate(Trim(v));
    if parsed.Some? && DatePart(parsed.value) + TicksPerDay <= MaxTicks {
      var d := parsed.value;
      var m := DatePart(d);
      assert SingleDatePredicate(cul, Prop(Param, f), v) == Returns(Between(Prop(Param, f), VDate(d), VDate(m + TicksPerDay - 1)));
      RestOfDay(f, d);
    }
  }

  /** `pr` holds of exactly the records whose field `f` is a date on the day of `d`, no earlier than `d`. */
  ghost predicate OnDayFrom(pr: Pred, f: string, d: Ticks) {
    forall x :: Eval(pr, x) <==> Field(x, f).VDate? && d <= Field(x, f).ticks && DatePart(Field(x, f).ticks) == DatePart(d)
  }

  /** The range from `d` to the last tick of its day holds the field values on that day from `d` on. */
  lemma RestOfDay(f: string, d: Ticks)
    requires DatePart(d) + TicksPerDay <= MaxTicks
    ensures OnDayFrom(Between(Prop(Param, f), VDate(d), VDate(DatePart(d) + TicksPerDay - 1)), f, d)
  {
    var m := DatePart(d);
    forall x ensures Eval(Between(Prop(Param, f), VDate(d), VDate(m + TicksPerDay - 1)), x) <==>
      Field(x, f).VDate? && d <= Field(x, f).ticks && DatePart(Field(x, f).ticks) == m
    {
      assert EvalTerm(Prop(Param, f), x) == Field(x, f);
      if Field(x, f).VDate? {
        SameDay(m, Field(x, f).ticks);
      }
    }
  }

  /** `pr` holds of exactly the records whose field `f` is a date from `lo` to `hi` inclusive. */
  ghost predicate WithinRange(pr: Pred, f: string, lo: Ticks, hi: Ticks) {
    forall x :: Eval(pr, x) <==> Field(x, f).VDate? && lo <= Field(x, f).ticks <= hi
  }

  /**
   * A `;` value on a `DateTime`/`DateTime?` property keeps the records dated from the first to
   * the last of its dates (`RangeDates`), or over one day from a lone date; when the dates throw,
   * the entry contributes no predicate.
   */
  lemma DateRangeFilter(cat: Catalog, cul: Culture, root: Ty, key: string, v: string, p: Property)
    requires '.' !in key && Member(cat, root, key) == Some(p) && (p.ty == TDate || p.ty == TNullable(TDate))
    requires v != "!" && ',' !in v && ';' in v
    ensures NestedPredicate(cat, cul, root, key, Some(v)) == Caught(Lift(DateRangePredicate(cul, Prop(Param, p.name), v)))
    ensures RangeDates(cul, v).Throws? || RangeDates(cul, v) == Returns([]) ==>
      NestedPredicate(cat, cul, root, key, Some(v)) == None
    ensures RangeDates(cul, v).Returns? && |RangeDates(cul, v).value| >= 2 ==>
      var s := RangeDates(cul, v).value;
      NestedPredicate(cat, cul, root, key, Some(v)).Some? &&
      WithinRange(NestedPredicate(cat, cul, root, key, Some(v)).value, p.name, s[0], s[|s| - 1])
    ensures RangeDates(cul, v).Returns? && |RangeDates(cul, v).value| == 1 ==>
      var d := RangeDates(cul, v).value[0];
      (d + TicksPerDay <= MaxTicks ==>
        NestedPredicate(cat, cul, root, key, Some(v)).Some? &&
        WithinRange(NestedPredicate(cat, cul, root, key, Some(v)).value, p.name, d, d + TicksPerDay - 1)) &&
      (d + TicksPerDay > MaxTicks ==> NestedPredicate(cat, cul, root, key, Some(v)) == None)
  {
    SingleSegmentKey(cat, cul, root, key, Some(v), p);
    var t := Prop(Param, p.name);
    assert Access(Param, p) == t;
    assert v != "";
    assert BodyPredicate(cul, t, p.ty, Some(v)) == Lift(DateRangePredicate(cul, t, v));
    DateRangeIsFirstToLast(cul, t, v);
    var r := DateRangePredicate(cul, t, v);
    if r.Returns? {
      var pr := r.value;
      assert pr.Between? && pr.t == t && pr.lo.VDate? && pr.hi.VDate?;
      BetweenIsWithinRange(p.name, pr.lo.ticks, pr.hi.ticks);
    }
  }

  /** A `Between` on the field `f` keeps exactly the records dated within its bounds. */
  lemma BetweenIsWithinRange(f: string, lo: Ticks, hi: Ticks)
    ensures WithinRange(Between(Prop(Param, f), VDate(lo), VDate(hi)), f, lo, hi)
  {
    forall x ensures Eval(Between(Prop(Param, f), VDate(lo), VDate(hi)), x) <==>
      Field(x, f).VDate? && lo <= Field(x, f).ticks <= hi
    {
      assert EvalTerm(Prop(Param, f), x) == Field(x, f);
    }
  }

  // ---------------------------------------------------------------------------
  // Search
  // ---------------------------------------------------------------------------

  /**
   * `GeneralSearch` keeps every record when the term is null or blank, or when no target
   * contributes; otherwise exactly the records matching some contributing target for the
   * trimmed term.
   */
  lemma SearchedQueryIsDisjunction(cat: Catalog, cul: Culture, root: Ty, q: seq<Value>,
                                   value: Option<string>, targets: Option<seq<string>>)
    ensures IsNullOrWhiteSpace(value) ==> SearchedQuery(cat, cul, root, q, value, targets) == q
    ensures !IsNullOrWhiteSpace(value) ==>
      var term := Trim(value.value);
      var ts := EffectiveTargets(cat, root, targets).GetOr([]);
      forall x :: x in SearchedQuery(cat, cul, root, q, value, targets) <==>
        x in q &&
        ((forall i :: 0 <= i < |ts| ==> TargetPredicate(cat, cul, root, ts[i], term).None?) ||
         exists i :: 0 <= i < |ts| && TargetPredicate(cat, cul, root, ts[i], term).Some? &&
           Eval(TargetPredicate(cat, cul, root, ts[i], term).value, x))
  {
    if !IsNullOrWhiteSpace(value) {
      var term := Trim(value.value);
      var ts := EffectiveTargets(cat, root, targets).GetOr([]);
      var cs := TargetContributions(cat, cul, root, term, ts);
      assert SearchPredicate(cat, cul, root, term, ts) == OrAll(cs);
    }
  }

  /** A target `a,b` (exactly one comma) searches the two trimmed paths concatenated. */
  lemma TwoPartTargetIsConcatenation(cat: Catalog, cul: Culture, root: Ty, a: string, b: string, value: string)
    requires ',' !in a && ',' !in b
    ensures TargetPredicate(cat, cul, root, a + "," + b, value) == ConcatenatedPredicate(cat, cul, root, Trim(a), Trim(b), Some(value))
  {
    var target := a + "," + b;
    SplitAfterFirst(a, b, ',');
    assert target == a + [','] + b;
    assert target[|a|] == ',';
    var parts := Split(target, ',');
    assert parts == [a, b];
    assert TargetPredicate(cat, cul, root, target, value)
        == ConcatenatedPredicate(cat, cul, root, Trim(parts[0]), Trim(parts[1]), Some(value));
  }

  /** A target with three or more comma-separated parts contributes nothing. */
  lemma ThreePartTargetContributesNothing(cat: Catalog, cul: Culture, root: Ty, a: string, b: string, rest: string, value: string)
    requires ',' !in a && ',' !in b
    ensures TargetPredicate(cat, cul, root, a + "," + b + "," + rest, value) == None
  {
    var target := a + "," + b + "," + rest;
    SplitAfterFirst(b, rest, ',');
    SplitAfterFirst(a, b + "," + rest, ',');
    assert b + "," + rest == b + [','] + rest;
    assert target == a + [','] + (b + "," + rest);
    assert target[|a|] == ',';
    assert |Split(target, ',')| >= 3;
  }

  /**
   * Concatenating two text properties: a record matches when `first + " " + second`, with a
   * null read as empty, contains the value ignoring case.
   */
  lemma ConcatenationMatchesJoinedText(cat: Catalog, cul: Culture, root: Ty, a: string, b: string, v: string,
                                       pa: Property, pb: Property)
    requires '.' !in a && '.' !in b
    requires Member(cat, root, a) == Some(pa) && pa.ty == TText
    requires Member(cat, root, b) == Some(pb) && pb.ty == TText
    requires ',' !in v
    ensures ConcatenatedPredicate(cat, cul, root, a, b, Some(v))
         == Some(LowerContains(ConcatWithSpace(Prop(Param, pa.name), Prop(Param, pb.name)), Lower(v)))
    ensures forall x :: Eval(LowerContains(ConcatWithSpace(Prop(Param, pa.name), Prop(Param, pb.name)), Lower(v)), x) <==>
      ContainsText(Lower(TextOf(Field(x, pa.name)) + " " + TextOf(Field(x, pb.name))), Lower(v))
  {
    assert Split(a, '.') == [a];
    assert Split(b, '.') == [b];
    var ta := Prop(Param, pa.name);
    var tb := Prop(Param, pb.name);
    assert Access(Param, pa) == ta && Access(Param, pb) == tb;
    assert PropertyChain(cat, ta, TText, []) == Some((ta, TText));
    assert PropertyChain(cat, tb, TText, []) == Some((tb, TText));
    assert PropertyChain(cat, Param, root, [a]) == Some((ta, TText));
    assert PropertyChain(cat, Param, root, [b]) == Some((tb, TText));
    var t := ConcatWithSpace(ta, tb);
    assert StringPredicate(cul, t, Some(v)) == Returns(LowerContains(t, Lower(v)));
    forall x ensures EvalTerm(t, x) == VText(TextOf(Field(x, pa.name)) + " " + TextOf(Field(x, pb.name))) {
      assert EvalTerm(ta, x) == Field(x, pa.name);
      assert EvalTerm(tb, x) == Field(x, pb.name);
    }
  }
}
