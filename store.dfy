/** The entity store every parser fills: one per entity kind (node, edge,
    view), as the `ParsedEntities` class of src/hiearch/hiearch.py. */
module Store {
  import opened Values
  import opened Util

  class ParsedEntities {
    /** Records by id. */
    var entities: map<string, Record>
    /** References that must name an entity once every file is parsed. */
    var mustExist: set<Value>
    /** Records still waiting for their style to be applied, in parse order. */
    var styled: seq<Record>

    constructor ()
      ensures entities == map[] && mustExist == {} && styled == []
    {
      entities := map[];
      mustExist := {};
      styled := [];
    }
  }

  /** What the parsers keep true and apply_styles needs: every record is
      stored under its id, and every styled record is the one stored under
      its id, listed once. */
  ghost predicate Resolvable(entities: map<string, Record>, styled: seq<Record>)
  {
    Keyed(entities) && StyledEntries(styled, entities)
  }

  /** Storing `r` under a fresh key keeps the store resolvable, whether or
      not `r` is also queued for styling. */
  lemma AddKeepsResolvable(entities: map<string, Record>, styled: seq<Record>, r: Record, queue: bool)
    requires Resolvable(entities, styled)
    requires HasStrId(r) && IdOf(r) !in entities
    ensures Resolvable(entities[IdOf(r) := r], if queue then styled + [r] else styled)
  {
    var e' := entities[IdOf(r) := r];
    var s' := if queue then styled + [r] else styled;
    var m := multiset(styled);
    forall t | t in m ensures HasStrId(t) && IdOf(t) in e' && e'[IdOf(t)] == t {
      assert IdOf(t) in entities;
    }
    if queue {
      assert multiset(s') == m + multiset{r};
      assert r !in m;
      forall t ensures multiset(s')[t] <= 1 {
        if t == r { assert m[t] == 0; }
      }
    }
  }

  /** A loop over the records of an entity map that rewrites each with `f`
      and stops at the first error; dictionary order is left open. */
  method MapEntries(ents: map<string, Record>, f: Record -> Result<Record>) returns (r: Result<map<string, Record>>)
    ensures r.Ok? <==> forall k :: k in ents ==> f(ents[k]).Ok?
    ensures r.Ok? ==> r.value.Keys == ents.Keys && forall k :: k in ents ==> f(ents[k]) == Ok(r.value[k])
    ensures r.Err? ==> exists k :: k in ents && f(ents[k]) == Err(r.error)
  {
    var rest := ents.Keys;
    var done: map<string, Record> := map[];
    while rest != {}
      invariant rest <= ents.Keys && done.Keys == ents.Keys - rest
      invariant forall k :: k in done ==> f(ents[k]) == Ok(done[k])
      decreases rest
    {
      var k :| k in rest;
      var n := f(ents[k]);
      if n.Err? {
        return Err(n.error);
      }
      done := done[k := n.value];
      rest := rest - {k};
    }
    return Ok(done);
  }
}
