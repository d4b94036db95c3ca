/**
 * `HttpRequestExtensions`: the query string of a request becomes the filter dictionary that
 * `ApplyGenericFilter` reads. Each query key has its first character upper-cased; each value
 * is the query's `StringValues` as one string.
 */
module HttpRequestExtensions {
  import opened Wrappers
  import opened Text
  import opened QuerySpec

  /**
   * `ToPascalCase(input)`: the first character upper-cased, the rest as they are. The empty
   * string has no first character, and indexing it throws.
   */
  function ToPascalCase(input: string): (r: Fallible<string>)
    ensures r.Throws? <==> input == []
    ensures r.Returns? ==> |r.value| == |input|
    ensures r.Returns? ==> r.value[0] == UpperChar(input[0]) && r.value[1..] == input[1..]
  {
    if input == [] then Throws else Returns([UpperChar(input[0])] + input[1..])
  }

  /** Upper-casing a character does not change what it is ignoring case. */
  lemma LowerOfUpper(c: char)
    ensures LowerChar(UpperChar(c)) == LowerChar(c)
  {
  }

  /** Applying `ToPascalCase` to its own result changes nothing. */
  lemma {:induction false} ToPascalCaseIdempotent(input: string)
    requires input != []
    ensures ToPascalCase(ToPascalCase(input).value) == ToPascalCase(input)
  {
    var once := ToPascalCase(input).value;
    assert UpperChar(once[0]) == once[0];
    assert [once[0]] + once[1..] == once;
  }

  /** `ToPascalCase` keeps a key the same ignoring case. */
  lemma ToPascalCaseIgnoringCase(input: string)
    requires input != []
    ensures Lower(ToPascalCase(input).value) == Lower(input)
    ensures EqualsIgnoringCase(ToPascalCase(input).value, input)
  {
    var r := ToPascalCase(input).value;
    LowerOfUpper(input[0]);
    forall i | 0 <= i < |r| ensures Lower(r)[i] == Lower(input)[i] {
      if i > 0 {
        assert r[i] == r[1..][i - 1] == input[1..][i - 1] == input[i];
      }
    }
    EqualsIgnoringCaseIsLowerEquality(r, input);
  }

  /**
   * `StringValues.ToString()`: the query's values for one key joined with commas, skipping
   * empty ones; no values give the empty string.
   */
  function QueryValue(values: seq<string>): (r: string)
    ensures values == [] ==> r == ""
    ensures |values| == 1 ==> r == values[0]
  {
    Join(NonEmpty(values), ',')
  }

  /** The non-empty strings of `values`, in order. */
  function NonEmpty(values: seq<string>): (r: seq<string>)
    ensures forall s :: s in r <==> s in values && s != []
    ensures |values| == 1 ==> r == if values[0] == [] then [] else values
    ensures forall s {:trigger multiset(r)[s]} :: multiset(r)[s] == if s == [] then 0 else multiset(values)[s]
  {
    if values == [] then []
    else
      assert values == [values[0]] + values[1..];
      (if values[0] == [] then [] else [values[0]]) + NonEmpty(values[1..])
  }

  /** Dropping the empty values keeps the order of the rest: it distributes over concatenation. */
  lemma {:induction false} NonEmptyOfConcat(a: seq<string>, b: seq<string>)
    ensures NonEmpty(a + b) == NonEmpty(a) + NonEmpty(b)
  {
    if a == [] {
      assert a + b == b;
    } else {
      assert (a + b)[0] == a[0] && (a + b)[1..] == a[1..] + b;
      NonEmptyOfConcat(a[1..], b);
    }
  }

  /** Some entry of `filters` has key `key`. */
  predicate HasKey(filters: FilterMap, key: string) {
    exists k :: 0 <= k < |filters| && filters[k].0 == key
  }

  /**
   * `GetFilters(request)`: `ToDictionary` over the query's entries, in order. The key is the
   * entry's key in Pascal case, the value its `StringValues` as one string. An empty key makes
   * `ToPascalCase` throw; two entries with the same Pascal-case key make `ToDictionary` throw.
   */
  function GetFilters(query: seq<(string, seq<string>)>): (r: Fallible<FilterMap>)
    ensures r.Returns? <==>
      (forall i :: 0 <= i < |query| ==> query[i].0 != []) &&
      (forall i, j :: 0 <= i < j < |query| ==> ToPascalCase(query[i].0) != ToPascalCase(query[j].0))
    ensures r.Returns? ==> |r.value| == |query|
    ensures r.Returns? ==> forall i :: 0 <= i < |query| ==>
      ToPascalCase(query[i].0) == Returns(r.value[i].0) && r.value[i].1 == QueryValue(query[i].1)
  {
    if query == [] then Returns([])
    else
      var n := |query| - 1;
      var init := query[..n];
      match GetFilters(init)
      case Throws =>
        assert !(forall i :: 0 <= i < |init| ==> init[i].0 != []) ||
               !(forall i, j :: 0 <= i < j < |init| ==> ToPascalCase(init[i].0) != ToPascalCase(init[j].0));
        Throws
      case Returns(prev) =>
        match ToPascalCase(query[n].0)
        case Throws => Throws
        case Returns(key) =>
          if HasKey(prev, key) then
            var k :| 0 <= k < |prev| && prev[k].0 == key;
            assert ToPascalCase(query[k].0) == ToPascalCase(query[n].0);
            Throws
          else
            var r := prev + [(key, QueryValue(query[n].1))];
            assert forall i :: 0 <= i < n ==> query[i] == init[i];
            Returns(r)
  }

  /**
   * The query collection's keys are distinct ignoring case, so the Pascal-case keys never
   * collide: with no empty key, `GetFilters` always succeeds.
   */
  lemma DistinctQueryKeysNeverCollide(query: seq<(string, seq<string>)>)
    requires forall i :: 0 <= i < |query| ==> query[i].0 != []
    requires forall i, j :: 0 <= i < j < |query| ==> !EqualsIgnoringCase(query[i].0, query[j].0)
    ensures GetFilters(query).Returns?
  {
    forall i, j | 0 <= i < j < |query| ensures ToPascalCase(query[i].0) != ToPascalCase(query[j].0) {
      ToPascalCaseIgnoringCase(query[i].0);
      ToPascalCaseIgnoringCase(query[j].0);
      EqualsIgnoringCaseIsLowerEquality(query[i].0, query[j].0);
    }
  }
}
