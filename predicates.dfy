/**
 * The expression trees the engine builds, as data, and what they mean on a record.
 * A `Term` is a property access chain rooted at the lambda parameter; a `Pred` is
 * the boolean body handed to `Where`. Evaluation follows the store's null semantics:
 * a comparison against a null operand does not hold.
 */
module Predicates {
  import opened Wrappers
  import opened Text
  import opened Schema

  /** Property-access expressions. */
  datatype Term =
    | Param                                   // the lambda parameter (`src` or `x`)
    | Prop(target: Term, name: string)        // Expression.PropertyOrField(target, name)
    | NullGuarded(inner: Term)                // inner != null ? inner : default(T)
    | ConcatWithSpace(left: Term, right: Term) // string.Concat(string.Concat(left, " "), right)

  /** Predicate expressions. */
  datatype Pred =
    | True
    | And(left: Pred, right: Pred)
    | Or(left: Pred, right: Pred)
    | LowerContains(t: Term, needle: string)        // t.ToLower().Contains(needle)
    | LowerIn(t: Term, values: seq<Value>)          // values.Contains(t.ToLower())
    | In(t: Term, values: seq<Value>)               // values.Contains(t)
    | IsNull(t: Term)                               // t == null
    | NotNull(t: Term)                              // t != null
    | Between(t: Term, lo: Value, hi: Value)        // t >= lo && t <= hi
    | Any(collection: Term, element: Pred)          // collection.Any(x => element)

  /** `string.Concat` reads a null string as empty. */
  function TextOf(v: Value): string {
    if v.VText? then v.text else ""
  }

  /** Member `name` of `owner`; reading a member through a null owner yields null, as in the store. */
  function Field(owner: Value, name: string): Value {
    if owner.VRecord? && name in owner.fields then owner.fields[name] else VNull
  }

  /** The value `t` denotes when the lambda parameter is bound to `root`. */
  function EvalTerm(t: Term, root: Value): Value {
    match t
    case Param => root
    case Prop(target, name) => Field(EvalTerm(target, root), name)
    case NullGuarded(inner) => EvalTerm(inner, root)
    case ConcatWithSpace(l, r) => VText(TextOf(EvalTerm(l, root)) + " " + TextOf(EvalTerm(r, root)))
  }

  /** Whether `p` holds when the lambda parameter is bound to `root`. */
  predicate Eval(p: Pred, root: Value) {
    match p
    case True => true
    case And(l, r) => Eval(l, root) && Eval(r, root)
    case Or(l, r) => Eval(l, root) || Eval(r, root)
    case LowerContains(t, needle) =>
      var v := EvalTerm(t, root);
      v.VText? && ContainsText(Lower(v.text), needle)
    case LowerIn(t, values) =>
      var v := EvalTerm(t, root);
      v.VText? && VText(Lower(v.text)) in values
    case In(t, values) =>
      var v := EvalTerm(t, root);
      v != VNull && v in values
    case IsNull(t) => EvalTerm(t, root) == VNull
    case NotNull(t) => EvalTerm(t, root) != VNull
    case Between(t, lo, hi) =>
      var v := EvalTerm(t, root);
      v.VDate? && lo.VDate? && hi.VDate? && lo.ticks <= v.ticks <= hi.ticks
    case Any(c, q) =>
      var v := EvalTerm(c, root);
      v.VList? && exists i :: 0 <= i < |v.items| && Eval(q, v.items[i])
  }

  /** `query.Where(p)`: the elements of `q` satisfying `p`, in order. */
  function Where(q: seq<Value>, p: Pred): (r: seq<Value>)
    ensures |r| <= |q|
    ensures forall x :: x in r <==> x in q && Eval(p, x)
    ensures forall x :: multiset(r)[x] == if Eval(p, x) then multiset(q)[x] else 0
  {
    if q == [] then []
    else
      var rest := Where(q[1..], p);
      assert q == [q[0]] + q[1..];
      if Eval(p, q[0]) then [q[0]] + rest else rest
  }

  /** `query.Where(p1).Where(p2)...`: one `Where` per predicate, in order. */
  function WhereAll(q: seq<Value>, preds: seq<Pred>): seq<Value>
    decreases |preds|
  {
    if preds == [] then q else Where(WhereAll(q, preds[..|preds| - 1]), preds[|preds| - 1])
  }

  /** The conjunction of `preds`, `True` when there are none. */
  function Conj(preds: seq<Pred>): (r: Pred)
    ensures forall x :: Eval(r, x) <==> forall i :: 0 <= i < |preds| ==> Eval(preds[i], x)
  {
    if preds == [] then True else And(Conj(preds[..|preds| - 1]), preds[|preds| - 1])
  }

  /** The disjunction of `preds` (at least one). */
  function Disj(preds: seq<Pred>): (r: Pred)
    requires preds != []
    ensures forall x :: Eval(r, x) <==> exists i :: 0 <= i < |preds| && Eval(preds[i], x)
  {
    if |preds| == 1 then preds[0] else Or(Disj(preds[..|preds| - 1]), preds[|preds| - 1])
  }

  /** A chain of `Where` calls keeps exactly the elements satisfying every predicate: the AND of the chain. */
  lemma {:induction false} WhereAllIsConjunction(q: seq<Value>, preds: seq<Pred>)
    ensures WhereAll(q, preds) == Where(q, Conj(preds))
    decreases |preds|
  {
    if preds == [] {
      WhereOfTrue(q);
    } else {
      var init := preds[..|preds| - 1];
      WhereAllIsConjunction(q, init);
      WhereOfWhere(q, Conj(init), preds[|preds| - 1]);
    }
  }

  lemma {:induction false} WhereOfTrue(q: seq<Value>)
    ensures Where(q, True) == q
  {
    if q != [] {
      WhereOfTrue(q[1..]);
    }
  }

  lemma {:induction false} WhereOfWhere(q: seq<Value>, p: Pred, r: Pred)
    ensures Where(Where(q, p), r) == Where(q, And(p, r))
  {
    if q != [] {
      WhereOfWhere(q[1..], p, r);
      var rest := Where(q[1..], p);
      if Eval(p, q[0]) {
        assert Where(q, p) == [q[0]] + rest;
        assert ([q[0]] + rest)[1..] == rest;
      } else {
        assert Where(q, p) == rest;
      }
    }
  }

  /**
   * Chaining one `Where` per `Some` of `cs` keeps exactly the elements satisfying every
   * predicate present; the `None` entries change nothing.
   */
  lemma WhereAllOfSomes(q: seq<Value>, cs: seq<Option<Pred>>)
    ensures forall x :: x in WhereAll(q, Somes(cs)) <==>
      x in q && forall i :: 0 <= i < |cs| && cs[i].Some? ==> Eval(cs[i].value, x)
  {
    var preds := Somes(cs);
    SomesAreValues(cs);
    WhereAllIsConjunction(q, preds);
    forall x | x in q
      ensures (forall k :: 0 <= k < |preds| ==> Eval(preds[k], x)) <==>
              (forall i :: 0 <= i < |cs| && cs[i].Some? ==> Eval(cs[i].value, x))
    {
      if forall k :: 0 <= k < |preds| ==> Eval(preds[k], x) {
        forall i | 0 <= i < |cs| && cs[i].Some? ensures Eval(cs[i].value, x) {
          assert Some(cs[i].value) in cs;
          assert cs[i].value in preds;
        }
      }
      if forall i :: 0 <= i < |cs| && cs[i].Some? ==> Eval(cs[i].value, x) {
        forall k | 0 <= k < |preds| ensures Eval(preds[k], x) {
          assert preds[k] in preds;
          assert Some(preds[k]) in cs;
        }
      }
    }
  }

  /** One more contribution adds one more `Where` when it is present, and nothing otherwise. */
  lemma WhereAllStep(q: seq<Value>, cs: seq<Option<Pred>>, i: nat)
    requires i < |cs|
    ensures WhereAll(q, Somes(cs[..i + 1]))
         == if cs[i].Some? then Where(WhereAll(q, Somes(cs[..i])), cs[i].value) else WhereAll(q, Somes(cs[..i]))
  {
    assert cs[..i + 1] == cs[..i] + [cs[i]];
    SomesSnoc(cs[..i], cs[i]);
    var before := Somes(cs[..i]);
    if cs[i].Some? {
      var after := before + [cs[i].value];
      assert Somes(cs[..i + 1]) == after;
      assert after[..|after| - 1] == before;
      assert WhereAll(q, after) == Where(WhereAll(q, before), cs[i].value);
    } else {
      assert before + [] == before;
    }
  }
}
