/**
 * `ApplySort`: ordering a query by the property a sort path names, ascending or
 * descending. The model orders text ordinally and puts nulls after every value in
 * ascending order (before every value in descending order); ties keep the order in
 * which the rows arrived.
 */
module Ordering {
  import opened Wrappers
  import opened Text
  import opened Schema
  import opened Predicates
  import opened QuerySpec

  /** `directionOptions`: the two directions `ApplySort` takes verbatim. */
  const DirectionOptions: seq<string> := ["asc", "desc"]

  /** The direction `ApplySort` uses: the given one when it is exactly `asc` or `desc`, else `desc`. */
  function EffectiveDirection(direction: Option<string>): string {
    if direction.Some? && direction.value in DirectionOptions then direction.value else "desc"
  }

  /** The sort path `ApplySort` uses: `Id` when none is given or it is blank. */
  function EffectiveSortBy(sortBy: Option<string>): string {
    if IsNullOrWhiteSpace(sortBy) then "Id" else sortBy.value
  }

  // ---------------------------------------------------------------------------
  // The order on key values
  // ---------------------------------------------------------------------------

  /** Ordinal comparison of text: `a` sorts no later than `b`. */
  predicate TextLe(a: string, b: string)
    decreases |a|
  {
    a == [] || (b != [] && (a[0] < b[0] || (a[0] == b[0] && TextLe(a[1..], b[1..]))))
  }

  lemma {:induction false} TextLeTotal(a: string, b: string)
    ensures TextLe(a, b) || TextLe(b, a)
    decreases |a|
  {
    if a != [] && b != [] && a[0] == b[0] {
      TextLeTotal(a[1..], b[1..]);
    }
  }

  lemma {:induction false} TextLeTransitive(a: string, b: string, c: string)
    requires TextLe(a, b) && TextLe(b, c)
    ensures TextLe(a, c)
    decreases |a|
  {
    if a != [] && a[0] == b[0] && b[0] == c[0] {
      TextLeTransitive(a[1..], b[1..], c[1..]);
    }
  }

  /** Where a key value sits in ascending order: null or not, then its number, then its text. */
  datatype SortKey = SortKey(isNull: bool, number: real, text: string)

  /** The position of a property value in the store's ascending order. */
  function KeyOf(v: Value): SortKey {
    match v
    case VNull => SortKey(true, 0.0, "")
    case VText(s) => SortKey(false, 0.0, s)
    case VInt(i) => SortKey(false, i as real, "")
    case VDecimal(d) => SortKey(false, d, "")
    case VBool(b) => SortKey(false, if b then 1.0 else 0.0, "")
    case VDate(t) => SortKey(false, t as real, "")
    case VGuid(g) => SortKey(false, g as real, "")
    case VTimeSpan(s) => SortKey(false, s as real, "")
    case VRecord(_) => SortKey(false, 0.0, "")
    case VList(_) => SortKey(false, 0.0, "")
  }

  /** `a` sorts no later than `b` in ascending order; nulls come last. */
  predicate KeyLe(a: SortKey, b: SortKey) {
    if a.isNull != b.isNull then b.isNull
    else a.number < b.number || (a.number == b.number && TextLe(a.text, b.text))
  }

  /** `x` may come before `y` when the query is ordered by `t`, descending when `desc`. */
  predicate Precedes(t: Term, desc: bool, x: Value, y: Value) {
    var a := KeyOf(EvalTerm(t, x));
    var b := KeyOf(EvalTerm(t, y));
    if desc then KeyLe(b, a) else KeyLe(a, b)
  }

  /** Any two records are comparable. */
  lemma PrecedesTotal(t: Term, desc: bool, x: Value, y: Value)
    ensures Precedes(t, desc, x, y) || Precedes(t, desc, y, x)
  {
    TextLeTotal(KeyOf(EvalTerm(t, x)).text, KeyOf(EvalTerm(t, y)).text);
  }

  /** The order is transitive. */
  lemma PrecedesTransitive(t: Term, desc: bool, x: Value, y: Value, z: Value)
    requires Precedes(t, desc, x, y) && Precedes(t, desc, y, z)
    ensures Precedes(t, desc, x, z)
  {
    var a, b, c := KeyOf(EvalTerm(t, x)), KeyOf(EvalTerm(t, y)), KeyOf(EvalTerm(t, z));
    if desc {
      if c.isNull == b.isNull == a.isNull && c.number == b.number == a.number {
        TextLeTransitive(c.text, b.text, a.text);
      }
    } else {
      if a.isNull == b.isNull == c.isNull && a.number == b.number == c.number {
        TextLeTransitive(a.text, b.text, c.text);
      }
    }
  }

  /** Every record of `s` may come before every later one. */
  predicate Ordered(s: seq<Value>, t: Term, desc: bool) {
    forall i, j :: 0 <= i < j < |s| ==> Precedes(t, desc, s[i], s[j])
  }

  // ---------------------------------------------------------------------------
  // The sort
  // ---------------------------------------------------------------------------

  /** Places `x` after every record of `s` that may precede it, before the first that may not. */
  function Insert(s: seq<Value>, x: Value, t: Term, desc: bool): (r: seq<Value>)
    ensures multiset(r) == multiset(s) + multiset{x}
  {
    if s == [] then [x]
    else if !Precedes(t, desc, s[0], x) then [x] + s
    else
      assert s == [s[0]] + s[1..];
      [s[0]] + Insert(s[1..], x, t, desc)
  }

  /** `OrderBy`/`OrderByDescending` on key `t`: each record inserted in arrival order. */
  function SortBy(q: seq<Value>, t: Term, desc: bool): (r: seq<Value>)
    ensures multiset(r) == multiset(q)
    decreases |q|
  {
    if q == [] then []
    else
      var n := |q| - 1;
      assert q == q[..n] + [q[n]];
      Insert(SortBy(q[..n], t, desc), q[n], t, desc)
  }

  /** A record that may precede every record of an ordered list heads an ordered list. */
  lemma ConsOrdered(h: Value, s: seq<Value>, t: Term, desc: bool)
    requires Ordered(s, t, desc)
    requires forall k :: 0 <= k < |s| ==> Precedes(t, desc, h, s[k])
    ensures Ordered([h] + s, t, desc)
  {
    var r := [h] + s;
    forall i, j | 0 <= i < j < |r| ensures Precedes(t, desc, r[i], r[j]) {
      assert r[j] == s[j - 1];
      if i > 0 {
        assert r[i] == s[i - 1];
      }
    }
  }

  lemma {:induction false} InsertOrdered(s: seq<Value>, x: Value, t: Term, desc: bool)
    requires Ordered(s, t, desc)
    ensures Ordered(Insert(s, x, t, desc), t, desc)
  {
    if s == [] {
    } else if !Precedes(t, desc, s[0], x) {
      PrecedesTotal(t, desc, s[0], x);
      forall k | 0 <= k < |s| ensures Precedes(t, desc, x, s[k]) {
        if k > 0 {
          PrecedesTransitive(t, desc, x, s[0], s[k]);
        }
      }
      ConsOrdered(x, s, t, desc);
    } else {
      var tail := s[1..];
      var rest := Insert(tail, x, t, desc);
      InsertOrdered(tail, x, t, desc);
      forall k | 0 <= k < |rest| ensures Precedes(t, desc, s[0], rest[k]) {
        assert rest[k] in multiset(tail) + multiset{x};
        if rest[k] != x {
          var m :| 0 <= m < |tail| && tail[m] == rest[k];
          assert Precedes(t, desc, s[0], s[m + 1]);
        }
      }
      ConsOrdered(s[0], rest, t, desc);
    }
  }

  lemma {:induction false} SortByOrdered(q: seq<Value>, t: Term, desc: bool)
    ensures Ordered(SortBy(q, t, desc), t, desc)
    decreases |q|
  {
    if q != [] {
      var n := |q| - 1;
      SortByOrdered(q[..n], t, desc);
      InsertOrdered(SortBy(q[..n], t, desc), q[n], t, desc);
    }
  }

  // ---------------------------------------------------------------------------
  // ApplySort
  // ---------------------------------------------------------------------------

  /** `ApplySort(query, sortBy, direction)` on records of type `root`. */
  function ApplySort(cat: Catalog, root: Ty, q: seq<Value>, sortBy: Option<string>, direction: Option<string>): seq<Value>
  {
    match PropertyChain(cat, Param, root, Split(EffectiveSortBy(sortBy), '.'))
    case None => q
    case Some((t, _)) => SortBy(q, t, EffectiveDirection(direction) != "asc")
  }

  /**
   * `ApplySort` reorders without adding or dropping records. A blank path sorts by `Id`; a path
   * that does not resolve leaves the query as it was; otherwise the result is ordered by that
   * property, ascending only when the direction is exactly `asc`.
   */
  lemma ApplySortOrders(cat: Catalog, root: Ty, q: seq<Value>, sortBy: Option<string>, direction: Option<string>)
    ensures multiset(ApplySort(cat, root, q, sortBy, direction)) == multiset(q)
    ensures var path := if IsNullOrWhiteSpace(sortBy) then ["Id"] else Split(sortBy.value, '.');
      match PropertyChain(cat, Param, root, path)
      case None => ApplySort(cat, root, q, sortBy, direction) == q
      case Some((t, _)) => Ordered(ApplySort(cat, root, q, sortBy, direction), t, direction != Some("asc"))
  {
    if IsNullOrWhiteSpace(sortBy) {
      assert Split("Id", '.') == ["Id"];
    }
    match PropertyChain(cat, Param, root, Split(EffectiveSortBy(sortBy), '.'))
    case None =>
    case Some((t, _)) =>
      SortByOrdered(q, t, EffectiveDirection(direction) != "asc");
  }
}
