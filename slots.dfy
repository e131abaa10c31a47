/**
 * The slot store: two connector records, one for the source role (`shopify`) and
 * one for the destination role (`snowflake`), a `merge` that takes a partial
 * update naming either role, and the completeness check over the fixed lists of
 * required keys.
 */
module Slots {
  import opened Options
  import opened Json

  datatype Slots = Slots(shopify: Record, snowflake: Record)

  /** `Partial<Slots>`: a role the patch does not name is `None`. */
  datatype Patch = Patch(shopify: Option<Record>, snowflake: Option<Record>)

  const REQUIRED_SHOPIFY: seq<string> :=
    ["storeUrl", "clientId", "clientSecret", "refreshToken", "entity", "fields"]

  const REQUIRED_SNOWFLAKE: seq<string> :=
    ["account", "username", "password", "database", "schema", "table", "loadMode", "key"]

  /** The store's initial state: both role records empty. */
  const EMPTY: Slots := Slots(map[], map[])

  /** `keys.every(k => rec[k])`: every listed key is present with a truthy value. */
  function Every(keys: seq<string>, rec: Record): (b: bool)
    ensures b <==> forall k :: k in keys ==> k in rec && Truthy(rec[k])
  {
    if keys == [] then true
    else (keys[0] in rec && Truthy(rec[keys[0]])) && Every(keys[1..], rec)
  }

  /** The completeness rule over both roles. */
  predicate Complete(s: Slots) {
    Every(REQUIRED_SHOPIFY, s.shopify) && Every(REQUIRED_SNOWFLAKE, s.snowflake)
  }

  /** `{ ...a, ...b }` followed by a JSON round trip: a role the patch names replaces the
      stored record as a whole; the round trip is the identity on these values. */
  function DeepMerge(a: Slots, b: Patch): Slots {
    Slots(b.shopify.GetOr(a.shopify), b.snowflake.GetOr(a.snowflake))
  }

  class SlotStore {
    var slots: Slots

    constructor ()
      ensures slots == EMPTY
    {
      slots := EMPTY;
    }

    method Merge(patch: Patch)
      modifies this
      ensures slots == DeepMerge(old(slots), patch)
    {
      slots := DeepMerge(slots, patch);
    }

    /** Reads the store and changes nothing. */
    method IsComplete() returns (b: bool)
      ensures b <==> Complete(slots)
    {
      b := Every(REQUIRED_SHOPIFY, slots.shopify) && Every(REQUIRED_SNOWFLAKE, slots.snowflake);
    }
  }

  /** A fresh store is not complete. */
  lemma FreshStoreIncomplete()
    ensures !Complete(EMPTY)
  {
    assert "storeUrl" in REQUIRED_SHOPIFY;
  }

  /** Removing any single required key of either role breaks completeness. */
  lemma RemovingRequiredKeyBreaksCompleteness(s: Slots, k: string)
    requires k in REQUIRED_SHOPIFY || k in REQUIRED_SNOWFLAKE
    ensures k in REQUIRED_SHOPIFY ==> !Complete(Slots(s.shopify - {k}, s.snowflake))
    ensures k in REQUIRED_SNOWFLAKE ==> !Complete(Slots(s.shopify, s.snowflake - {k}))
  {
  }

  /** An empty string counts as missing. */
  lemma EmptyStringIsMissing(s: Slots, k: string)
    requires k in REQUIRED_SHOPIFY || k in REQUIRED_SNOWFLAKE
    ensures k in REQUIRED_SHOPIFY ==> !Complete(Slots(s.shopify[k := JStr("")], s.snowflake))
    ensures k in REQUIRED_SNOWFLAKE ==> !Complete(Slots(s.shopify, s.snowflake[k := JStr("")]))
  {
  }

  /** An empty array counts as present: completeness is truthiness, not non-emptiness. */
  lemma EmptyArrayIsPresent(s: Slots)
    ensures Complete(Slots(s.shopify["fields" := JArr([])], s.snowflake))
        <==> Complete(Slots(s.shopify["fields" := Strings(["id"])], s.snowflake))
  {
  }

  /** Keys outside the required lists may be stored but never change completeness. */
  lemma ExtraKeysDoNotMatter(s: Slots, k: string, v: Json)
    ensures k !in REQUIRED_SHOPIFY ==>
      (Complete(Slots(s.shopify[k := v], s.snowflake)) <==> Complete(s))
    ensures k !in REQUIRED_SNOWFLAKE ==>
      (Complete(Slots(s.shopify, s.snowflake[k := v])) <==> Complete(s))
  {
  }

  /** A role named by the patch is replaced wholesale: earlier keys of that role that the
      patch lacks are gone. */
  lemma MergeReplacesNamedRole(a: Slots, p: Patch, k: string)
    ensures p.shopify.Some? && k !in p.shopify.value ==> k !in DeepMerge(a, p).shopify
    ensures p.snowflake.Some? && k !in p.snowflake.value ==> k !in DeepMerge(a, p).snowflake
  {
  }

  /** A role the patch does not name is left as it was. */
  lemma MergeKeepsUnnamedRole(a: Slots, p: Patch)
    ensures p.shopify.None? ==> DeepMerge(a, p).shopify == a.shopify
    ensures p.snowflake.None? ==> DeepMerge(a, p).snowflake == a.snowflake
  {
  }

  /** Merging the same patch twice is merging it once. */
  lemma MergeIdempotent(a: Slots, p: Patch)
    ensures DeepMerge(DeepMerge(a, p), p) == DeepMerge(a, p)
  {
  }

  /** A minimal complete store: one truthy value per required key. */
  lemma MinimalStoreIsComplete()
    ensures Complete(Slots(
      map k | k in REQUIRED_SHOPIFY :: JStr("x"),
      map k | k in REQUIRED_SNOWFLAKE :: JStr("x")))
  {
  }
}
