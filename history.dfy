/** Sequences of update calls against the service, and what they promise
    together: ids are handed out in strictly increasing order, one per
    successful create, and are never reused, whatever updates and deletes
    come in between. Queries are left out of the sequences because they
    never change the state. */
module History {
  import opened Types
  import opened Validation
  import opened Service

  /** One update call, with its caller and the time it runs at. */
  datatype Op =
    | AddTaxonomyOp(taxonomy: TaxonomyPayload, caller: Principal, now: u64)
    | UpdateTaxonomyOp(id: u64, taxonomy: TaxonomyPayload, caller: Principal, now: u64)
    | DeleteTaxonomyOp(id: u64, caller: Principal)
    | AddMarineSpecieOp(marineSpecie: MarineSpeciePayload, caller: Principal, now: u64)
    | UpdateMarineSpecieOp(id: u64, marineSpecie: MarineSpeciePayload, caller: Principal, now: u64)
    | DeleteMarineSpecieOp(id: u64, caller: Principal)

  datatype Collection = Taxonomies | MarineSpecies

  /** An id handed out by a successful create. */
  datatype Issue = Issue(collection: Collection, id: u64)

  /** The state after one call and the id it handed out, if any. */
  datatype Effect = Effect(next: Db, issued: Option<Issue>)

  function Counter(db: Db, c: Collection): u64 {
    match c
    case Taxonomies => db.taxonomyCounter
    case MarineSpecies => db.marineSpecieCounter
  }

  /** Both counters can still advance `n` times without passing `U64_MAX`. */
  predicate Headroom(db: Db, n: nat) {
    db.taxonomyCounter + n <= U64_MAX && db.marineSpecieCounter + n <= U64_MAX
  }

  /** Runs one call. A counter advances by one exactly when the call is a
      successful create in that collection, and the id handed out is the
      counter's value before the call. */
  function Apply(db: Db, op: Op): (e: Effect)
    requires Headroom(db, 1)
    ensures forall c :: Counter(e.next, c) ==
              if e.issued.Some? && e.issued.value.collection == c then Counter(db, c) + 1 else Counter(db, c)
    ensures e.issued.Some? ==> e.issued.value.id == Counter(db, e.issued.value.collection)
    ensures db.Valid() ==> e.next.Valid()
  {
    match op
    case AddTaxonomyOp(p, who, now) =>
      var s := AddTaxonomy(db, p, who, now);
      Effect(s.next, if s.reply.Ok? then Some(Issue(Taxonomies, s.reply.value.id)) else None)
    case UpdateTaxonomyOp(id, p, who, now) =>
      Effect(UpdateTaxonomy(db, id, p, who, now).next, None)
    case DeleteTaxonomyOp(id, who) =>
      Effect(DeleteTaxonomy(db, id, who).next, None)
    case AddMarineSpecieOp(p, who, now) =>
      var s := AddMarineSpecie(db, p, who, now);
      Effect(s.next, if s.reply.Ok? then Some(Issue(MarineSpecies, s.reply.value.id)) else None)
    case UpdateMarineSpecieOp(id, p, who, now) =>
      Effect(UpdateMarineSpecie(db, id, p, who, now).next, None)
    case DeleteMarineSpecieOp(id, who) =>
      Effect(DeleteMarineSpecie(db, id, who).next, None)
  }

  /** The state after running `ops` in order. */
  function Run(db: Db, ops: seq<Op>): (final: Db)
    requires Headroom(db, |ops|)
    decreases |ops|
  {
    if ops == [] then db
    else
      var e := Apply(db, ops[0]);
      assert Counter(e.next, Taxonomies) <= db.taxonomyCounter + 1;
      assert Counter(e.next, MarineSpecies) <= db.marineSpecieCounter + 1;
      Run(e.next, ops[1..])
  }

  /** The ids handed out in collection `c` while running `ops`, in call order. */
  function IssuedIds(db: Db, ops: seq<Op>, c: Collection): seq<u64>
    requires Headroom(db, |ops|)
    decreases |ops|
  {
    if ops == [] then []
    else
      var e := Apply(db, ops[0]);
      assert Counter(e.next, Taxonomies) <= db.taxonomyCounter + 1;
      assert Counter(e.next, MarineSpecies) <= db.marineSpecieCounter + 1;
      (if e.issued.Some? && e.issued.value.collection == c then [e.issued.value.id] else [])
      + IssuedIds(e.next, ops[1..], c)
  }

  /** Ids handed out along any run strictly increase, lie between the counter
      before and after the run, and number exactly as many as the counter
      advanced. */
  lemma {:induction false} IssuedIdsIncrease(db: Db, ops: seq<Op>, c: Collection)
    requires Headroom(db, |ops|)
    ensures var ids := IssuedIds(db, ops, c);
            && (forall i, j :: 0 <= i < j < |ids| ==> ids[i] < ids[j])
            && (forall i :: 0 <= i < |ids| ==> Counter(db, c) <= ids[i] < Counter(Run(db, ops), c))
            && Counter(Run(db, ops), c) == Counter(db, c) + |ids|
    decreases |ops|
  {
    if ops != [] {
      var e := Apply(db, ops[0]);
      assert Headroom(e.next, |ops| - 1) by {
        assert Counter(e.next, Taxonomies) <= db.taxonomyCounter + 1;
        assert Counter(e.next, MarineSpecies) <= db.marineSpecieCounter + 1;
      }
      IssuedIdsIncrease(e.next, ops[1..], c);
      var rest, final := IssuedIds(e.next, ops[1..], c), Run(e.next, ops[1..]);
      var issues := e.issued.Some? && e.issued.value.collection == c;
      var here := if issues then [e.issued.value.id] else [];
      assert IssuedIds(db, ops, c) == here + rest;
      assert Run(db, ops) == final;
      assert Counter(e.next, c) == Counter(db, c) + |here|;
      assert forall i :: 0 <= i < |here| ==> here[i] == Counter(db, c);
    }
  }

  /** The stores stay well formed along any run. */
  lemma {:induction false} RunKeepsValid(db: Db, ops: seq<Op>)
    requires Headroom(db, |ops|) && db.Valid()
    ensures Run(db, ops).Valid()
    decreases |ops|
  {
    if ops != [] {
      var e := Apply(db, ops[0]);
      assert Counter(e.next, Taxonomies) <= db.taxonomyCounter + 1;
      assert Counter(e.next, MarineSpecies) <= db.marineSpecieCounter + 1;
      RunKeepsValid(e.next, ops[1..]);
    }
  }

  /** No id handed out along a run belongs to a record that was stored before
      the run, even one deleted during it. */
  lemma IssuedIdsAreFresh(db: Db, ops: seq<Op>)
    requires Headroom(db, |ops|) && db.Valid()
    ensures forall id :: id in IssuedIds(db, ops, Taxonomies) ==> id !in db.taxonomies
    ensures forall id :: id in IssuedIds(db, ops, MarineSpecies) ==> id !in db.marineSpecies
  {
    IssuedIdsIncrease(db, ops, Taxonomies);
    IssuedIdsIncrease(db, ops, MarineSpecies);
  }

  /** Two creates with a delete of the first record in between: the second
      record gets the next id, not the freed one. */
  lemma DeleteDoesNotFreeIds(db: Db, p: TaxonomyPayload, q: TaxonomyPayload, who: Principal, t0: u64, t1: u64)
    requires db.Valid() && db.taxonomyCounter + 2 <= U64_MAX
    requires TaxonomyPayloadValid(p) && TaxonomyPayloadValid(q)
    ensures var first := AddTaxonomy(db, p, who, t0);
            var deleted := DeleteTaxonomy(first.next, first.reply.value.id, who);
            var second := AddTaxonomy(deleted.next, q, who, t1);
            && deleted.reply.Ok?
            && second.reply.Ok?
            && second.reply.value.id == first.reply.value.id + 1
  {
  }

  /** A record read back after its creation is the record that was created. */
  lemma GetAfterAddTaxonomy(db: Db, p: TaxonomyPayload, who: Principal, now: u64)
    requires db.taxonomyCounter < U64_MAX
    ensures var s := AddTaxonomy(db, p, who, now);
            s.reply.Ok? ==> GetTaxonomy(s.next.taxonomies, s.reply.value.id) == s.reply
  {
  }

  /** A record read back after its creation is the record that was created. */
  lemma GetAfterAddMarineSpecie(db: Db, p: MarineSpeciePayload, who: Principal, now: u64)
    requires db.marineSpecieCounter < U64_MAX
    ensures var s := AddMarineSpecie(db, p, who, now);
            s.reply.Ok? ==> GetMarineSpecie(s.next.marineSpecies, s.reply.value.id) == s.reply
  {
  }

  /** After a successful delete the id is no longer found. */
  lemma GetAfterDeleteTaxonomy(db: Db, id: u64, who: Principal)
    ensures var s := DeleteTaxonomy(db, id, who);
            s.reply.Ok? ==> GetTaxonomy(s.next.taxonomies, id) == Err(NotFound)
  {
  }

  /** After a successful delete the id is no longer found. */
  lemma GetAfterDeleteMarineSpecie(db: Db, id: u64, who: Principal)
    ensures var s := DeleteMarineSpecie(db, id, who);
            s.reply.Ok? ==> GetMarineSpecie(s.next.marineSpecies, id) == Err(NotFound)
  {
  }

  /** Creating a taxonomy, then a marine species that refers to it, then
      deleting the taxonomy: the marine species is still found, with its
      reference to the deleted taxonomy left dangling. */
  lemma DanglingReferenceSurvivesDelete(db: Db, tp: TaxonomyPayload, mp: MarineSpeciePayload,
                                        who: Principal, t0: u64, t1: u64)
    requires db.Valid() && db.taxonomyCounter < U64_MAX && db.marineSpecieCounter < U64_MAX
    requires TaxonomyPayloadValid(tp) && MarineSpeciePayloadValid(mp)
    requires mp.taxonomyId == db.taxonomyCounter
    ensures
      var taxonomy := AddTaxonomy(db, tp, who, t0);
      var specie := AddMarineSpecie(taxonomy.next, mp, who, t1);
      var deleted := DeleteTaxonomy(specie.next, mp.taxonomyId, who);
      && taxonomy.reply.Ok? && specie.reply.Ok?
      && deleted.reply == taxonomy.reply
      && GetTaxonomy(deleted.next.taxonomies, mp.taxonomyId) == Err(NotFound)
      && GetMarineSpecie(deleted.next.marineSpecies, specie.reply.value.id) == specie.reply
      && specie.reply.value.taxonomyId == mp.taxonomyId
  {
  }

  /** On an empty service the first id of each collection is 0. */
  lemma FirstIdsAreZero(tp: TaxonomyPayload, mp: MarineSpeciePayload, who: Principal, t0: u64, t1: u64)
    requires TaxonomyPayloadValid(tp) && MarineSpeciePayloadValid(mp)
    ensures AddTaxonomy(EMPTY, tp, who, t0).reply.value.id == 0
    ensures AddMarineSpecie(EMPTY, mp, who, t1).reply.value.id == 0
  {
  }
}
