/**
 * Scopes: which list a record belongs to.
 *
 * A model declares a set of scope attributes (`is :list, :scope => [...]`). The
 * values a record holds for those attributes select its list; records that
 * agree on all of them are siblings. The same shape of value, a map from
 * attribute name to required value, is also the filter of a store query.
 */
module Scoping {

  datatype Option<T> = None | Some(value: T)

  /** Primary key of a stored record. */
  type Id = nat

  /** Attribute (property) name. */
  type Attr = string

  /** Attribute values; the engine only ever compares them for equality. */
  type Value = int

  /** The attribute values of a record; an absent attribute reads as nil. */
  type Attrs = map<Attr, Value>

  /** A list scope, or a query filter: attribute name to required value (None is nil). */
  type Scope = map<Attr, Option<Value>>

  /** attribute_get: the value of `a`, or nil. */
  function Get(attrs: Attrs, a: Attr): Option<Value>
  {
    if a in attrs then Some(attrs[a]) else None
  }

  /** `list_scope`: the record's current values of the scope attributes. */
  function ListScope(scopeAttrs: set<Attr>, attrs: Attrs): Scope
  {
    map a | a in scopeAttrs :: Get(attrs, a)
  }

  /**
   * `original_list_scope`: like ListScope, but an attribute the ORM reports
   * as changed since loading contributes its original (loaded) value.
   * `originals` holds those original values, keyed by attribute.
   */
  function OriginalListScope(scopeAttrs: set<Attr>, attrs: Attrs, originals: Scope): Scope
  {
    map a | a in scopeAttrs :: if a in originals then originals[a] else Get(attrs, a)
  }

  /** A record with attributes `attrs` satisfies the query filter `filter`. */
  predicate Matches(attrs: Attrs, filter: Scope)
  {
    forall a :: a in filter ==> Get(attrs, a) == filter[a]
  }

  /**
   * Querying by a record's list scope finds exactly the records whose own
   * list scope is the same: "in the list of x" and "has x's scope" agree.
   */
  lemma MatchesListScope(scopeAttrs: set<Attr>, mine: Attrs, other: Attrs)
    ensures Matches(other, ListScope(scopeAttrs, mine))
        <==> ListScope(scopeAttrs, other) == ListScope(scopeAttrs, mine)
  {
    var s, t := ListScope(scopeAttrs, mine), ListScope(scopeAttrs, other);
    if Matches(other, s) {
      assert forall a :: a in t ==> t[a] == s[a];
      assert t == s;
    }
  }

  /**
   * The original scope differs from the current one exactly when some scope
   * attribute was changed to a different value since loading.
   */
  lemma OriginalScopeChanged(scopeAttrs: set<Attr>, attrs: Attrs, originals: Scope)
    ensures OriginalListScope(scopeAttrs, attrs, originals) != ListScope(scopeAttrs, attrs)
        <==> exists a :: a in scopeAttrs && a in originals && originals[a] != Get(attrs, a)
  {
    var o, c := OriginalListScope(scopeAttrs, attrs, originals), ListScope(scopeAttrs, attrs);
    if forall a :: a in scopeAttrs && a in originals ==> originals[a] == Get(attrs, a) {
      assert forall a :: a in o ==> o[a] == c[a];
      assert o == c;
    } else {
      var a :| a in scopeAttrs && a in originals && originals[a] != Get(attrs, a);
      assert o[a] != c[a];
    }
  }
}
