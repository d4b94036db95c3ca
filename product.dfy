/**
 * The `Product` entity: its properties, the argument guards of `Create` and `Update`,
 * its record type as the query engine reflects it, and its default search targets.
 * `decimal` is modelled as `real`; `DateTime` as ticks.
 */
module Products {
  import opened Wrappers
  import opened Text
  import opened Dates
  import opened Schema
  import opened Predicates
  import opened QuerySpec
  import opened QueryLemmas

  /** A product's stored state, column by column (`Id` comes from `Entity`). */
  datatype ProductRow = ProductRow(
    id: int,
    name: string,
    description: Option<string>,
    price: real,
    stock: int,
    createdAt: Ticks,
    updatedAt: Option<Ticks>,
    isDeleted: bool,
    deletedAt: Option<Ticks>)

  function TextOrNull(s: Option<string>): Value {
    if s.Some? then VText(s.value) else VNull
  }

  function DateOrNull(d: Option<Ticks>): Value {
    if d.Some? then VDate(d.value) else VNull
  }

  /** A stored product as the query engine reads it. */
  function RowRecord(row: ProductRow): Value {
    VRecord(map[
      "Name" := VText(row.name),
      "Description" := TextOrNull(row.description),
      "Price" := VDecimal(row.price),
      "Stock" := VInt(row.stock),
      "CreatedAt" := VDate(row.createdAt),
      "UpdatedAt" := DateOrNull(row.updatedAt),
      "IsDeleted" := VBool(row.isDeleted),
      "DeletedAt" := DateOrNull(row.deletedAt),
      "Id" := VInt(row.id)])
  }

  /** `Product.SearchByProperties`. */
  const SearchByProperties: seq<string> := ["Name", "Description", "Price", "Stock", "CreatedAt"]

  /** The public instance properties of `Product`, its own first, then `Entity.Id`. */
  const ProductProperties: seq<Property> := [
    Property("Name", TText),
    Property("Description", TText),
    Property("Price", TDecimal),
    Property("Stock", TInt),
    Property("CreatedAt", TDate),
    Property("UpdatedAt", TNullable(TDate)),
    Property("IsDeleted", TBool),
    Property("DeletedAt", TNullable(TDate)),
    Property("Id", TInt)]

  const ProductType: Ty := TRecord("Product")

  /** The application's record types: `Product`, which implements `IGeneralSearchBy`. */
  const ProductCatalog: Catalog := map["Product" := RecordType(ProductProperties, Some(SearchByProperties))]

  /** `CustomArgumentException.ThrowIfLessThanZero`: whether it throws for `argument`. */
  predicate ThrowsIfLessThanZero(argument: Option<real>) {
    argument.None? || argument.value < 0.0
  }

  /** The three guards `Create` and `Update` run before anything else. */
  predicate Accepts(name: Option<string>, price: real, stock: int) {
    !IsNullOrWhiteSpace(name) && !ThrowsIfLessThanZero(Some(price)) && !ThrowsIfLessThanZero(Some(stock as real))
  }

  /** The guards reject a blank name and a negative price or stock, and nothing else; zero passes. */
  lemma AcceptsExactly(name: Option<string>, price: real, stock: int)
    ensures Accepts(name, price, stock) <==> name.Some? && !AllWhiteSpace(name.value) && price >= 0.0 && stock >= 0
  {
  }

  class Product {
    var Id: int
    var Name: string
    var Description: Option<string>
    var Price: real
    var Stock: int
    var CreatedAt: Ticks
    var UpdatedAt: Option<Ticks>
    var IsDeleted: bool
    var DeletedAt: Option<Ticks>

    /** The product's current state as a row. */
    function Row(): ProductRow
      reads this
    {
      ProductRow(Id, Name, Description, Price, Stock, CreatedAt, UpdatedAt, IsDeleted, DeletedAt)
    }

    /** The private parameterless constructor: every property at its default value. */
    constructor Empty()
      ensures Row() == ProductRow(0, "", None, 0.0, 0, 0, None, false, None)
    {
      Id := 0;
      Name := "";
      Description := None;
      Price := 0.0;
      Stock := 0;
      CreatedAt := 0;
      UpdatedAt := None;
      IsDeleted := false;
      DeletedAt := None;
    }

    /** `Product.Create`: a new product with the given values, or an exception from a guard. */
    static method Create(name: Option<string>, description: Option<string>, price: real, stock: int)
      returns (r: Fallible<Product>)
      ensures r.Returns? <==> name.Some? && !AllWhiteSpace(name.value) && price >= 0.0 && stock >= 0
      ensures r.Returns? ==> fresh(r.value)
      ensures r.Returns? ==> r.value.Row() == ProductRow(0, name.value, description, price, stock, 0, None, false, None)
    {
      if IsNullOrWhiteSpace(name) || ThrowsIfLessThanZero(Some(price)) || ThrowsIfLessThanZero(Some(stock as real)) {
        return Throws;
      }
      var p := new Product.Empty();
      p.Name := name.value;
      p.Description := description;
      p.Price := price;
      p.Stock := stock;
      return Returns(p);
    }

    /**
     * `Product.Update`: the same guards, all before any assignment, then the four values.
     * A rejected update leaves the product as it was.
     */
    method Update(name: Option<string>, description: Option<string>, price: real, stock: int)
      returns (r: Fallible<()>)
      modifies this
      ensures r.Returns? <==> name.Some? && !AllWhiteSpace(name.value) && price >= 0.0 && stock >= 0
      ensures r.Returns? ==> Row() == old(Row()).(name := name.value, description := description, price := price, stock := stock)
      ensures r.Throws? ==> Row() == old(Row())
    {
      if IsNullOrWhiteSpace(name) || ThrowsIfLessThanZero(Some(price)) || ThrowsIfLessThanZero(Some(stock as real)) {
        return Throws;
      }
      Name := name.value;
      Description := description;
      Price := price;
      Stock := stock;
      return Returns(());
    }
  }

  // ---------------------------------------------------------------------------
  // Products in the query engine
  // ---------------------------------------------------------------------------

  /** The length of a name and its first character lower-cased: enough to tell `Product`'s properties apart. */
  function Signature(s: string): (int, char)
    requires s != []
  {
    (|s|, LowerChar(s[0]))
  }

  lemma SignatureDistinguishes(a: string, b: string)
    requires a != [] && b != [] && Signature(a) != Signature(b)
    ensures !EqualsIgnoringCase(a, b)
  {
  }

  /** No property of `props` has the signature of `name`. */
  predicate AllDiffer(props: seq<Property>, name: string)
    requires name != []
  {
    props == [] || (props[0].name != [] && Signature(props[0].name) != Signature(name) && AllDiffer(props[1..], name))
  }

  lemma {:induction false} NoneMatch(props: seq<Property>, name: string)
    requires name != [] && AllDiffer(props, name)
    ensures MatchingProperties(props, name) == []
  {
    if props != [] {
      SignatureDistinguishes(props[0].name, name);
      NoneMatch(props[1..], name);
    }
  }

  /** When only `target` has the signature of `name`, the match is `target` alone. */
  lemma {:induction false} SingleMatch(before: seq<Property>, target: Property, after: seq<Property>, name: string)
    requires target.name == name && name != []
    requires AllDiffer(before, name) && AllDiffer(after, name)
    ensures MatchingProperties(before + [target] + after, name) == [target]
  {
    var props := before + [target] + after;
    if before == [] {
      EqualsIgnoringCaseReflexive(name);
      assert props[1..] == after;
      NoneMatch(after, name);
    } else {
      SignatureDistinguishes(before[0].name, name);
      assert props[1..] == before[1..] + [target] + after;
      SingleMatch(before[1..], target, after, name);
    }
  }

  /** The signatures of `Product`'s property names. */
  lemma Signatures()
    ensures Signature("Name") == (4, 'n')
    ensures Signature("Description") == (11, 'd')
    ensures Signature("Price") == (5, 'p')
    ensures Signature("Stock") == (5, 's')
    ensures Signature("CreatedAt") == (9, 'c')
    ensures Signature("UpdatedAt") == (9, 'u')
    ensures Signature("IsDeleted") == (9, 'i')
    ensures Signature("DeletedAt") == (9, 'd')
    ensures Signature("Id") == (2, 'i')
  {
  }

  /** A property whose signature no other property of `Product` shares is found under its own name. */
  lemma ResolvesTo(before: seq<Property>, target: Property, after: seq<Property>, name: string)
    requires ProductProperties == before + [target] + after
    requires target.name == name && name != []
    requires AllDiffer(before, name) && AllDiffer(after, name)
    ensures Member(ProductCatalog, ProductType, name) == Some(target)
  {
    SingleMatch(before, target, after, name);
  }

  lemma NameResolves()
    ensures Member(ProductCatalog, ProductType, "Name") == Some(Property("Name", TText))
  {
    Signatures();
    assert AllDiffer([Property("Description", TText)], "Name");
    assert AllDiffer([Property("Price", TDecimal)], "Name");
    assert AllDiffer([Property("Stock", TInt)], "Name");
    assert AllDiffer([Property("CreatedAt", TDate)], "Name");
    assert AllDiffer([Property("UpdatedAt", TNullable(TDate))], "Name");
    assert AllDiffer([Property("IsDeleted", TBool)], "Name");
    assert AllDiffer([Property("DeletedAt", TNullable(TDate))], "Name");
    assert AllDiffer([Property("Id", TInt)], "Name");
    var before: seq<Property> := [];
    var after := [Property("Description", TText), Property("Price", TDecimal), Property("Stock", TInt), Property("CreatedAt", TDate), Property("UpdatedAt", TNullable(TDate)), Property("IsDeleted", TBool), Property("DeletedAt", TNullable(TDate)), Property("Id", TInt)];
    ResolvesTo(before, Property("Name", TText), after, "Name");
  }


  lemma DescriptionResolves()
    ensures Member(ProductCatalog, ProductType, "Description") == Some(Property("Description", TText))
  {
    Signatures();
    assert AllDiffer([Property("Name", TText)], "Description");
    assert AllDiffer([Property("Price", TDecimal)], "Description");
    assert AllDiffer([Property("Stock", TInt)], "Description");
    assert AllDiffer([Property("CreatedAt", TDate)], "Description");
    assert AllDiffer([Property("UpdatedAt", TNullable(TDate))], "Description");
    assert AllDiffer([Property("IsDeleted", TBool)], "Description");
    assert AllDiffer([Property("DeletedAt", TNullable(TDate))], "Description");
    assert AllDiffer([Property("Id", TInt)], "Description");
    var before: seq<Property> := [Property("Name", TText)];
    var after := [Property("Price", TDecimal), Property("Stock", TInt), Property("CreatedAt", TDate), Property("UpdatedAt", TNullable(TDate)), Property("IsDeleted", TBool), Property("DeletedAt", TNullable(TDate)), Property("Id", TInt)];
    ResolvesTo(before, Property("Description", TText), after, "Description");
  }


  lemma PriceResolves()
    ensures Member(ProductCatalog, ProductType, "Price") == Some(Property("Price", TDecimal))
  {
    Signatures();
    assert AllDiffer([Property("Name", TText)], "Price");
    assert AllDiffer([Property("Description", TText)], "Price");
    assert AllDiffer([Property("Stock", TInt)], "Price");
    assert AllDiffer([Property("CreatedAt", TDate)], "Price");
    assert AllDiffer([Property("UpdatedAt", TNullable(TDate))], "Price");
    assert AllDiffer([Property("IsDeleted", TBool)], "Price");
    assert AllDiffer([Property("DeletedAt", TNullable(TDate))], "Price");
    assert AllDiffer([Property("Id", TInt)], "Price");
    var before: seq<Property> := [Property("Name", TText), Property("Description", TText)];
    var after := [Property("Stock", TInt), Property("CreatedAt", TDate), Property("UpdatedAt", TNullable(TDate)), Property("IsDeleted", TBool), Property("DeletedAt", TNullable(TDate)), Property("Id", TInt)];
    ResolvesTo(before, Property("Price", TDecimal), after, "Price");
  }


  lemma StockResolves()
    ensures Member(ProductCatalog, ProductType, "Stock") == Some(Property("Stock", TInt))
  {
    Signatures();
    assert AllDiffer([Property("Name", TText)], "Stock");
    assert AllDiffer([Property("Description", TText)], "Stock");
    assert AllDiffer([Property("Price", TDecimal)], "Stock");
    assert AllDiffer([Property("CreatedAt", TDate)], "Stock");
    assert AllDiffer([Property("UpdatedAt", TNullable(TDate))], "Stock");
    assert AllDiffer([Property("IsDeleted", TBool)], "Stock");
    assert AllDiffer([Property("DeletedAt", TNullable(TDate))], "Stock");
    assert AllDiffer([Property("Id", TInt)], "Stock");
    var before: seq<Property> := [Property("Name", TText), Property("Description", TText), Property("Price", TDecimal)];
    var after := [Property("CreatedAt", TDate), Property("UpdatedAt", TNullable(TDate)), Property("IsDeleted", TBool), Property("DeletedAt", TNullable(TDate)), Property("Id", TInt)];
    ResolvesTo(before, Property("Stock", TInt), after, "Stock");
  }


  lemma CreatedAtResolves()
    ensures Member(ProductCatalog, ProductType, "CreatedAt") == Some(Property("CreatedAt", TDate))
  {
    Signatures();
    assert AllDiffer([Property("Name", TText)], "CreatedAt");
    assert AllDiffer([Property("Description", TText)], "CreatedAt");
    assert AllDiffer([Property("Price", TDecimal)], "CreatedAt");
    assert AllDiffer([Property("Stock", TInt)], "CreatedAt");
    assert AllDiffer([Property("UpdatedAt", TNullable(TDate))], "CreatedAt");
    assert AllDiffer([Property("IsDeleted", TBool)], "CreatedAt");
    assert AllDiffer([Property("DeletedAt", TNullable(TDate))], "CreatedAt");
    assert AllDiffer([Property("Id", TInt)], "CreatedAt");
    var before: seq<Property> := [Property("Name", TText), Property("Description", TText), Property("Price", TDecimal), Property("Stock", TInt)];
    var after := [Property("UpdatedAt", TNullable(TDate)), Property("IsDeleted", TBool), Property("DeletedAt", TNullable(TDate)), Property("Id", TInt)];
    ResolvesTo(before, Property("CreatedAt", TDate), after, "CreatedAt");
  }


  /** A text property among the targets searches for the term as a substring, ignoring case. */
  lemma TextTargetContributes(cat: Catalog, cul: Culture, target: string, term: string, p: Property)
    requires ',' !in target && '.' !in target && Member(cat, ProductType, target) == Some(p)
    requires p.ty == TText && term != "" && ',' !in term
    ensures TargetPredicate(cat, cul, ProductType, target, term) == Some(LowerContains(Prop(Param, p.name), Lower(term)))
  {
    TextFilterIsSubstringMatch(cat, cul, ProductType, target, term, p);
  }

  /** A non-text scalar property among the targets contributes nothing for a term without `,` or `;`. */
  lemma ScalarTargetContributesNothing(cat: Catalog, cul: Culture, target: string, term: string, p: Property)
    requires ',' !in target && '.' !in target && Member(cat, ProductType, target) == Some(p)
    requires p.ty == TDecimal || p.ty == TInt || p.ty == TDate
    requires term != "" && ',' !in term && ';' !in term
    requires p.ty == TDate ==> cul.parseExactDate(Trim(term)).None?
    ensures TargetPredicate(cat, cul, ProductType, target, term) == None
  {
    if term == "!" {
      NotNullFilter(cat, cul, ProductType, target, p);
    } else if p.ty == TDate {
      SingleDateFilterCoversRestOfDay(cat, cul, ProductType, target, term, p);
    } else {
      ScalarEqualityNeverContributes(cat, cul, ProductType, target, term, p);
    }
  }

  /**
   * The facts about `cat` the default search relies on, with the targets `ts` kept abstract:
   * `ts` are the type's default targets, and they resolve as `Product`'s do.
   */
  predicate ResolvesLikeProduct(cat: Catalog, ts: seq<string>) {
    && DefaultTargets(cat, ProductType) == Some(ts)
    && |ts| == 5
    && (forall i :: 0 <= i < 5 ==> ',' !in ts[i] && '.' !in ts[i])
    && Member(cat, ProductType, ts[0]) == Some(Property("Name", TText))
    && Member(cat, ProductType, ts[1]) == Some(Property("Description", TText))
    && Member(cat, ProductType, ts[2]) == Some(Property("Price", TDecimal))
    && Member(cat, ProductType, ts[3]) == Some(Property("Stock", TInt))
    && Member(cat, ProductType, ts[4]) == Some(Property("CreatedAt", TDate))
  }

  /** A substring filter on a field of the record holds when the field is text containing the needle. */
  lemma SubstringFilter(field: string, needle: string, x: Value)
    ensures Eval(LowerContains(Prop(Param, field), needle), x) <==>
      Field(x, field).VText? && ContainsText(Lower(Field(x, field).text), needle)
  {
    assert EvalTerm(Prop(Param, field), x) == Field(x, field);
  }

  /** `Id`, inherited from `Entity`, resolves as well: it is the default sort key. */
  lemma IdResolves()
    ensures Member(ProductCatalog, ProductType, "Id") == Some(Property("Id", TInt))
  {
    Signatures();
    assert AllDiffer([Property("Name", TText)], "Id");
    assert AllDiffer([Property("Description", TText)], "Id");
    assert AllDiffer([Property("Price", TDecimal)], "Id");
    assert AllDiffer([Property("Stock", TInt)], "Id");
    assert AllDiffer([Property("CreatedAt", TDate)], "Id");
    assert AllDiffer([Property("UpdatedAt", TNullable(TDate))], "Id");
    assert AllDiffer([Property("IsDeleted", TBool)], "Id");
    assert AllDiffer([Property("DeletedAt", TNullable(TDate))], "Id");
    var before := [Property("Name", TText), Property("Description", TText), Property("Price", TDecimal), Property("Stock", TInt),
                   Property("CreatedAt", TDate), Property("UpdatedAt", TNullable(TDate)), Property("IsDeleted", TBool), Property("DeletedAt", TNullable(TDate))];
    ResolvesTo(before, Property("Id", TInt), [], "Id");
  }

  /** `SearchByProperties` names five plain property paths, and they are `Product`'s defaults. */
  lemma DefaultTargetsOfProduct()
    ensures DefaultTargets(ProductCatalog, ProductType) == Some(SearchByProperties) && |SearchByProperties| == 5
    ensures forall i :: 0 <= i < 5 ==> ',' !in SearchByProperties[i] && '.' !in SearchByProperties[i]
  {
  }

  lemma TextTargetsResolve()
    ensures Member(ProductCatalog, ProductType, SearchByProperties[0]) == Some(Property("Name", TText))
    ensures Member(ProductCatalog, ProductType, SearchByProperties[1]) == Some(Property("Description", TText))
  {
    NameResolves();
    DescriptionResolves();
  }

  lemma ScalarTargetsResolve()
    ensures Member(ProductCatalog, ProductType, SearchByProperties[2]) == Some(Property("Price", TDecimal))
    ensures Member(ProductCatalog, ProductType, SearchByProperties[3]) == Some(Property("Stock", TInt))
    ensures Member(ProductCatalog, ProductType, SearchByProperties[4]) == Some(Property("CreatedAt", TDate))
  {
    PriceResolves();
    StockResolves();
    CreatedAtResolves();
  }

  /** The application's catalog resolves `SearchByProperties` to their own properties. */
  lemma ProductCatalogResolves()
    ensures ResolvesLikeProduct(ProductCatalog, SearchByProperties)
  {
    DefaultTargetsOfProduct();
    TextTargetsResolve();
    ScalarTargetsResolve();
  }

  /** `Name` and `Description` search for the term as a substring, ignoring case. */
  lemma TextTargetsContribute(cat: Catalog, ts: seq<string>, cul: Culture, term: string)
    requires ResolvesLikeProduct(cat, ts)
    requires term != "" && ',' !in term
    ensures TargetPredicate(cat, cul, ProductType, ts[0], term) == Some(LowerContains(Prop(Param, "Name"), Lower(term)))
    ensures TargetPredicate(cat, cul, ProductType, ts[1], term) == Some(LowerContains(Prop(Param, "Description"), Lower(term)))
  {
    TextTargetContributes(cat, cul, ts[0], term, Property("Name", TText));
    TextTargetContributes(cat, cul, ts[1], term, Property("Description", TText));
  }

  /** `Price`, `Stock` and `CreatedAt` contribute nothing for a term without `,` or `;` that is not a date. */
  lemma ScalarTargetsContributeNothing(cat: Catalog, ts: seq<string>, cul: Culture, term: string)
    requires ResolvesLikeProduct(cat, ts)
    requires term != "" && ',' !in term && ';' !in term
    requires cul.parseExactDate(Trim(term)).None?
    ensures TargetPredicate(cat, cul, ProductType, ts[2], term) == None
    ensures TargetPredicate(cat, cul, ProductType, ts[3], term) == None
    ensures TargetPredicate(cat, cul, ProductType, ts[4], term) == None
  {
    ScalarTargetContributesNothing(cat, cul, ts[2], term, Property("Price", TDecimal));
    ScalarTargetContributesNothing(cat, cul, ts[3], term, Property("Stock", TInt));
    ScalarTargetContributesNothing(cat, cul, ts[4], term, Property("CreatedAt", TDate));
  }

  /** Two contributions followed by three empty ones make the OR of the two. */
  lemma {:induction false} OrOfFirstTwo(cs: seq<Option<Pred>>, a: Pred, b: Pred)
    requires |cs| == 5 && cs[0] == Some(a) && cs[1] == Some(b) && cs[2].None? && cs[3].None? && cs[4].None?
    ensures OrAll(cs) == Some(Or(a, b))
  {
    assert OrAll(cs[..1]) == Some(a) by {
      assert cs[..1][..0] == [];
    }
    assert OrAll(cs[..2]) == Some(Or(a, b)) by {
      assert cs[..2][..1] == cs[..1];
    }
    assert OrAll(cs[..3]) == Some(Or(a, b)) by {
      assert cs[..3][..2] == cs[..2];
    }
    assert OrAll(cs[..4]) == Some(Or(a, b)) by {
      assert cs[..4][..3] == cs[..3];
    }
  }

  /**
   * Searching without naming targets uses the default targets. For a term without `,` or `;`
   * that is not a date, only `Name` and `Description` contribute: a record matches when
   * either contains the trimmed term, ignoring case.
   */
  lemma DefaultSearchOver(cat: Catalog, ts: seq<string>, cul: Culture, q: seq<Value>, value: string)
    requires ResolvesLikeProduct(cat, ts)
    requires !AllWhiteSpace(value)
    requires ',' !in Trim(value) && ';' !in Trim(value)
    requires cul.parseExactDate(Trim(value)).None?
    ensures forall x :: x in SearchedQuery(cat, cul, ProductType, q, Some(value), None) <==>
      x in q &&
      ((Field(x, "Name").VText? && ContainsText(Lower(Field(x, "Name").text), Lower(Trim(value)))) ||
       (Field(x, "Description").VText? && ContainsText(Lower(Field(x, "Description").text), Lower(Trim(value)))))
  {
    DefaultSearchIsNameOrDescription(cat, ts, cul, q, value);
    NameOrDescription(q, Lower(Trim(value)));
  }

  /** The default search's predicate, over abstract targets: `Name` or `Description` contains the term. */
  lemma DefaultSearchIsNameOrDescription(cat: Catalog, ts: seq<string>, cul: Culture, q: seq<Value>, value: string)
    requires ResolvesLikeProduct(cat, ts)
    requires !AllWhiteSpace(value)
    requires ',' !in Trim(value) && ';' !in Trim(value)
    requires cul.parseExactDate(Trim(value)).None?
    ensures SearchedQuery(cat, cul, ProductType, q, Some(value), None)
         == Where(q, Or(LowerContains(Prop(Param, "Name"), Lower(Trim(value))),
                        LowerContains(Prop(Param, "Description"), Lower(Trim(value)))))
  {
    DefaultSearchPredicate(cat, ts, cul, value);
    assert EffectiveTargets(cat, ProductType, None).GetOr([]) == ts;
  }

  /** For a term that is not blank and not a date, the targets' OR is `Name` or `Description` containing it. */
  lemma DefaultSearchPredicate(cat: Catalog, ts: seq<string>, cul: Culture, value: string)
    requires ResolvesLikeProduct(cat, ts)
    requires !AllWhiteSpace(value)
    requires ',' !in Trim(value) && ';' !in Trim(value)
    requires cul.parseExactDate(Trim(value)).None?
    ensures SearchPredicate(cat, cul, ProductType, Trim(value), ts)
         == Some(Or(LowerContains(Prop(Param, "Name"), Lower(Trim(value))), LowerContains(Prop(Param, "Description"), Lower(Trim(value)))))
  {
    var term := Trim(value);
    TrimTwice(value);
    TextTargetsContribute(cat, ts, cul, term);
    ScalarTargetsContributeNothing(cat, ts, cul, term);
    var name := LowerContains(Prop(Param, "Name"), Lower(term));
    var description := LowerContains(Prop(Param, "Description"), Lower(term));
    OrOfFirstTwo(TargetContributions(cat, cul, ProductType, term, ts), name, description);
  }

  /** The records kept by "`Name` or `Description` contains `needle`", field by field. */
  lemma NameOrDescription(q: seq<Value>, needle: string)
    ensures forall x :: x in Where(q, Or(LowerContains(Prop(Param, "Name"), needle), LowerContains(Prop(Param, "Description"), needle))) <==>
      x in q &&
      ((Field(x, "Name").VText? && ContainsText(Lower(Field(x, "Name").text), needle)) ||
       (Field(x, "Description").VText? && ContainsText(Lower(Field(x, "Description").text), needle)))
  {
    forall x
      ensures x in Where(q, Or(LowerContains(Prop(Param, "Name"), needle), LowerContains(Prop(Param, "Description"), needle))) <==>
        x in q &&
        ((Field(x, "Name").VText? && ContainsText(Lower(Field(x, "Name").text), needle)) ||
         (Field(x, "Description").VText? && ContainsText(Lower(Field(x, "Description").text), needle)))
    {
      SubstringFilter("Name", needle, x);
      SubstringFilter("Description", needle, x);
    }
  }

  /** The default product search: matches on `Name` or `Description`, ignoring case. */
  lemma DefaultProductSearch(cul: Culture, q: seq<Value>, value: string)
    requires !AllWhiteSpace(value)
    requires ',' !in Trim(value) && ';' !in Trim(value)
    requires cul.parseExactDate(Trim(value)).None?
    ensures forall x :: x in SearchedQuery(ProductCatalog, cul, ProductType, q, Some(value), None) <==>
      x in q &&
      ((Field(x, "Name").VText? && ContainsText(Lower(Field(x, "Name").text), Lower(Trim(value)))) ||
       (Field(x, "Description").VText? && ContainsText(Lower(Field(x, "Description").text), Lower(Trim(value)))))
  {
    ProductCatalogResolves();
    DefaultSearchOver(ProductCatalog, SearchByProperties, cul, q, value);
  }
}
