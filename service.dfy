/** The service as pure functions over its durable state: the two record
    maps and the two id counters. Each update entry point is a function from
    the state before the call to the state after it and the reply; each query
    is a function of one map. The ambient `caller()` and `time()` are
    parameters. */
module Service {
  import opened Types
  import opened Validation
  import opened Text
  import OrderedMap

  /** The durable state: `TAXONOMY_STR`, `TAXONOMY_ID_COUNTER`,
      `MARINESPECIE_STR`, `MARINESPECIE_ID_COUNTER`. */
  datatype Db = Db(
    taxonomies: map<u64, Taxonomy>,
    taxonomyCounter: u64,
    marineSpecies: map<u64, MarineSpecie>,
    marineSpecieCounter: u64)
  {
    /** Every record is stored under its own id, and every id is below its
        collection's counter, so the counter's value is never a used id. */
    ghost predicate Valid() {
      && (forall k :: k in taxonomies ==> taxonomies[k].id == k && k < taxonomyCounter)
      && (forall k :: k in marineSpecies ==> marineSpecies[k].id == k && k < marineSpecieCounter)
    }
  }

  /** Both counters start at 0 and both maps are empty. */
  const EMPTY: Db := Db(map[], 0, map[], 0)

  /** The state after a call, and the call's reply. */
  datatype Step<T> = Step(next: Db, reply: Result<T>)

  lemma EmptyIsValid()
    ensures EMPTY.Valid()
  {
  }

  /** Records are keyed by their own id. */
  ghost predicate KeyedById<R>(m: map<u64, R>, id: R -> u64) {
    forall k :: k in m ==> id(m[k]) == k
  }

  /** A listing whose ids strictly increase. */
  ghost predicate IdsIncreasing<R>(s: seq<R>, id: R -> u64) {
    forall i, j :: 0 <= i < j < |s| ==> id(s[i]) < id(s[j])
  }

  /** Listing a map keyed by id yields strictly increasing ids. */
  lemma KeyOrderIsIdOrder<R>(m: map<u64, R>, id: R -> u64)
    ensures KeyedById(m, id) ==> IdsIncreasing(OrderedMap.ValuesInKeyOrder(m), id)
  {
    if KeyedById(m, id) {
      var r, ks := OrderedMap.ValuesInKeyOrder(m), OrderedMap.SortedKeys(m.Keys);
      forall i, j | 0 <= i < j < |r| ensures id(r[i]) < id(r[j]) {
        assert id(r[i]) == ks[i] && id(r[j]) == ks[j];
      }
    }
  }

  // ---------------------------------------------------------------------
  // Authorization guard

  /** `is_caller_*_research`: only the record's researcher may mutate it. */
  function CheckResearcher(researcher: Principal, caller: Principal): (r: Result<()>)
    ensures r.Ok? <==> researcher == caller
    ensures r.Err? ==> r.error == NotResearcher
  {
    if researcher != caller then Err(NotResearcher) else Ok(())
  }

  // ---------------------------------------------------------------------
  // Queries

  /** `get_taxonomy`: the stored record, or `NotFound`. */
  function GetTaxonomy(store: map<u64, Taxonomy>, id: u64): (r: Result<Taxonomy>)
    ensures r.Ok? <==> id in store
    ensures r.Ok? ==> r.value == store[id]
    ensures r.Err? ==> r.error == NotFound
  {
    match OrderedMap.Get(store, id)
    case Some(t) => Ok(t)
    case None => Err(NotFound)
  }

  /** `get_marinespecie`: the stored record, or `NotFound`. */
  function GetMarineSpecie(store: map<u64, MarineSpecie>, id: u64): (r: Result<MarineSpecie>)
    ensures r.Ok? <==> id in store
    ensures r.Ok? ==> r.value == store[id]
    ensures r.Err? ==> r.error == NotFound
  {
    match OrderedMap.Get(store, id)
    case Some(m) => Ok(m)
    case None => Err(NotFound)
  }

  /** `get_all_taxonomy`: every record in ascending id order; an empty
      collection is reported as `NotFound`. */
  function GetAllTaxonomy(store: map<u64, Taxonomy>): (r: Result<seq<Taxonomy>>)
    ensures r.Err? <==> |store| == 0
    ensures r.Err? ==> r.error == NotFound
    ensures r.Ok? ==> |r.value| == |store|
    ensures r.Ok? ==> forall t :: t in r.value <==> t in store.Values
    ensures r.Ok? && KeyedById(store, (t: Taxonomy) => t.id) ==>
              forall i, j :: 0 <= i < j < |r.value| ==> r.value[i].id < r.value[j].id
  {
    var all := OrderedMap.ValuesInKeyOrder(store);
    if |all| != 0 then
      forall t ensures t in all <==> t in store.Values {
        OrderedMap.ValuesInKeyOrderMembers(store, t);
      }
      KeyOrderIsIdOrder(store, (t: Taxonomy) => t.id);
      Ok(all)
    else
      Err(NotFound)
  }

  /** `get_all_marinespecie`: every record in ascending id order; an empty
      collection is reported as `NotFound`. */
  function GetAllMarineSpecie(store: map<u64, MarineSpecie>): (r: Result<seq<MarineSpecie>>)
    ensures r.Err? <==> |store| == 0
    ensures r.Err? ==> r.error == NotFound
    ensures r.Ok? ==> |r.value| == |store|
    ensures r.Ok? ==> forall m :: m in r.value <==> m in store.Values
    ensures r.Ok? && KeyedById(store, (m: MarineSpecie) => m.id) ==>
              forall i, j :: 0 <= i < j < |r.value| ==> r.value[i].id < r.value[j].id
  {
    var all := OrderedMap.ValuesInKeyOrder(store);
    if |all| != 0 then
      forall m ensures m in all <==> m in store.Values {
        OrderedMap.ValuesInKeyOrderMembers(store, m);
      }
      KeyOrderIsIdOrder(store, (m: MarineSpecie) => m.id);
      Ok(all)
    else
      Err(NotFound)
  }

  /** The filter step of `get_marinespecie_by_conservation_status`: keeps, in
      order, the records whose status equals `status` up to case. */
  function WithStatus(s: seq<MarineSpecie>, status: string): (r: seq<MarineSpecie>)
    ensures |r| <= |s|
    ensures forall m :: m in r <==> m in s && SameIgnoringCase(m.conservationStatus, status)
  {
    if s == [] then []
    else
      var rest := WithStatus(s[1..], status);
      if SameIgnoringCase(s[0].conservationStatus, status) then
        assert forall m :: m in rest ==> m in s[1..];
        [s[0]] + rest
      else
        rest
  }

  /** The filter keeps every copy of a matching record and no copy of any
      other record: each record occurs in the result as often as in the
      input if it matches, and not at all otherwise. */
  lemma {:induction false} WithStatusCounts(s: seq<MarineSpecie>, status: string)
    ensures forall m :: multiset(WithStatus(s, status))[m] ==
              if SameIgnoringCase(m.conservationStatus, status) then multiset(s)[m] else 0
  {
    if s != [] {
      WithStatusCounts(s[1..], status);
      var rest := WithStatus(s[1..], status);
      assert s == [s[0]] + s[1..];
      assert multiset(s) == multiset([s[0]]) + multiset(s[1..]);
      if SameIgnoringCase(s[0].conservationStatus, status) {
        assert WithStatus(s, status) == [s[0]] + rest;
        assert multiset([s[0]] + rest) == multiset([s[0]]) + multiset(rest);
      } else {
        assert WithStatus(s, status) == rest;
      }
    }
  }

  /** A listing in increasing id order stays so after filtering. */
  lemma {:induction false} WithStatusKeepsIdOrder(s: seq<MarineSpecie>, status: string)
    ensures IdsIncreasing(s, (m: MarineSpecie) => m.id) ==>
              IdsIncreasing(WithStatus(s, status), (m: MarineSpecie) => m.id)
  {
    if s != [] && IdsIncreasing(s, (m: MarineSpecie) => m.id) {
      var rest := WithStatus(s[1..], status);
      assert IdsIncreasing(s[1..], (m: MarineSpecie) => m.id);
      WithStatusKeepsIdOrder(s[1..], status);
      forall j | 0 <= j < |rest| ensures s[0].id < rest[j].id {
        assert rest[j] in s[1..];
        var k :| 0 <= k < |s[1..]| && s[1..][k] == rest[j];
        assert s[k + 1] == rest[j];
      }
    }
  }

  /** Filtering a listing made of two parts is filtering each part and
      joining the results: the filter keeps the listing's order. */
  lemma {:induction false} WithStatusDistributes(a: seq<MarineSpecie>, b: seq<MarineSpecie>, status: string)
    ensures WithStatus(a + b, status) == WithStatus(a, status) + WithStatus(b, status)
  {
    if a == [] {
      assert a + b == b;
    } else {
      assert (a + b)[0] == a[0];
      assert (a + b)[1..] == a[1..] + b;
      WithStatusDistributes(a[1..], b, status);
      if SameIgnoringCase(a[0].conservationStatus, status) {
        assert WithStatus(a + b, status) == [a[0]] + WithStatus(a[1..] + b, status);
        assert WithStatus(a, status) == [a[0]] + WithStatus(a[1..], status);
      }
    }
  }

  /** The status filter applied to the whole collection finds a record
      exactly when some stored record has a matching status. */
  lemma {:induction false} StatusFilterFindsStored(store: map<u64, MarineSpecie>, status: string)
    ensures var matching := WithStatus(OrderedMap.ValuesInKeyOrder(store), status);
            && (forall m :: m in matching <==> m in store.Values && SameIgnoringCase(m.conservationStatus, status))
            && (|matching| == 0 <==> forall k :: k in store ==> !SameIgnoringCase(store[k].conservationStatus, status))
  {
    var all := OrderedMap.ValuesInKeyOrder(store);
    var matching := WithStatus(all, status);
    forall m ensures m in all <==> m in store.Values {
      OrderedMap.ValuesInKeyOrderMembers(store, m);
    }
    if |matching| != 0 {
      var m := matching[0];
      assert m in store.Values && SameIgnoringCase(m.conservationStatus, status);
      var k :| k in store && store[k] == m;
    } else {
      forall k | k in store ensures !SameIgnoringCase(store[k].conservationStatus, status) {
        assert store[k] in store.Values;
        assert store[k] !in matching;
      }
    }
  }

  /** `get_marinespecie_by_conservation_status`: exactly the records whose
      status matches `status` up to case, in ascending id order; `NotFound`
      when none matches. */
  function GetMarineSpecieByConservationStatus(store: map<u64, MarineSpecie>, status: string)
    : (r: Result<seq<MarineSpecie>>)
    ensures r.Err? <==> forall k :: k in store ==> !SameIgnoringCase(store[k].conservationStatus, status)
    ensures r.Err? ==> r.error == NotFound
    ensures r.Ok? ==> forall m :: m in r.value <==>
              m in store.Values && SameIgnoringCase(m.conservationStatus, status)
    ensures r.Ok? && KeyedById(store, (m: MarineSpecie) => m.id) ==>
              IdsIncreasing(r.value, (m: MarineSpecie) => m.id)
  {
    var matching := WithStatus(OrderedMap.ValuesInKeyOrder(store), status);
    StatusFilterFindsStored(store, status);
    WithStatusKeepsIdOrder(OrderedMap.ValuesInKeyOrder(store), status);
    KeyOrderIsIdOrder(store, (m: MarineSpecie) => m.id);
    if |matching| != 0 then Ok(matching) else Err(NotFound)
  }

  /** The filter gives the same records for two statuses that are equal
      up to case. */
  lemma {:induction false} WithStatusIgnoresCase(s: seq<MarineSpecie>, a: string, b: string)
    requires SameIgnoringCase(a, b)
    ensures WithStatus(s, a) == WithStatus(s, b)
  {
    if s != [] {
      WithStatusIgnoresCase(s[1..], a, b);
    }
  }

  /** Searching by "endangered" or by "ENDANGERED" gives the same answer. */
  lemma StatusSearchIgnoresCase(store: map<u64, MarineSpecie>, a: string, b: string)
    requires SameIgnoringCase(a, b)
    ensures GetMarineSpecieByConservationStatus(store, a) == GetMarineSpecieByConservationStatus(store, b)
  {
    WithStatusIgnoresCase(OrderedMap.ValuesInKeyOrder(store), a, b);
  }

  // ---------------------------------------------------------------------
  // Taxonomy updates

  /** `add_taxonomy`: validate, then take the counter's value as the new id
      and advance the counter, then store the new record owned by `caller`. */
  function AddTaxonomy(db: Db, payload: TaxonomyPayload, caller: Principal, now: u64)
    : (s: Step<Taxonomy>)
    requires db.taxonomyCounter < U64_MAX
    ensures s.reply.Err? <==> !TaxonomyPayloadValid(payload)
    ensures s.reply.Err? ==>
              s.reply.error == ValidationFailed(TaxonomyViolations(payload)) && s.next == db
    ensures s.reply.Ok? ==>
              var t := s.reply.value;
              && t.id == db.taxonomyCounter
              && t.researcher == caller
              && TaxonomyFields(t) == payload
              && t.createdAt == now && t.updatedAt == None
              && s.next.taxonomies == db.taxonomies[t.id := t]
              && s.next.taxonomyCounter == db.taxonomyCounter + 1
              && s.next.marineSpecies == db.marineSpecies
              && s.next.marineSpecieCounter == db.marineSpecieCounter
    ensures db.Valid() ==> s.next.Valid()
    ensures db.Valid() && s.reply.Ok? ==> s.reply.value.id !in db.taxonomies
  {
    var violations := TaxonomyViolations(payload);
    if violations != {} then
      Step(db, Err(ValidationFailed(violations)))
    else
      var id := db.taxonomyCounter;
      var t := Taxonomy(id, caller, payload.kingdom, payload.phylum, payload.klass,
                        payload.order, payload.family, payload.genus, payload.species,
                        now, None);
      Step(db.(taxonomies := db.taxonomies[t.id := t], taxonomyCounter := id + 1), Ok(t))
  }

  /** `update_taxonomy`: validate, then look the record up, then check the
      owner; on success overwrite the payload fields and stamp `updatedAt`. */
  function UpdateTaxonomy(db: Db, id: u64, payload: TaxonomyPayload, caller: Principal, now: u64)
    : (s: Step<Taxonomy>)
    ensures s.next.taxonomyCounter == db.taxonomyCounter
    ensures s.next.marineSpecies == db.marineSpecies
    ensures s.next.marineSpecieCounter == db.marineSpecieCounter
    ensures s.reply.Err? ==> s.next == db
    ensures !TaxonomyPayloadValid(payload) ==>
              s.reply == Err(ValidationFailed(TaxonomyViolations(payload)))
    ensures TaxonomyPayloadValid(payload) && id !in db.taxonomies ==> s.reply == Err(NotFound)
    ensures TaxonomyPayloadValid(payload) && id in db.taxonomies && db.taxonomies[id].researcher != caller ==>
              s.reply == Err(NotResearcher)
    ensures s.reply.Ok? <==>
              TaxonomyPayloadValid(payload) && id in db.taxonomies && db.taxonomies[id].researcher == caller
    ensures s.reply.Ok? ==>
              var before, t := db.taxonomies[id], s.reply.value;
              && t.id == before.id && t.researcher == before.researcher && t.createdAt == before.createdAt
              && TaxonomyFields(t) == payload
              && t.updatedAt == Some(now)
              && s.next.taxonomies == db.taxonomies[t.id := t]
    ensures db.Valid() ==> s.next.Valid()
    ensures db.Valid() && s.reply.Ok? ==> s.next.taxonomies == db.taxonomies[id := s.reply.value]
  {
    var violations := TaxonomyViolations(payload);
    if violations != {} then
      Step(db, Err(ValidationFailed(violations)))
    else
      match OrderedMap.Get(db.taxonomies, id)
      case None => Step(db, Err(NotFound))
      case Some(before) =>
        match CheckResearcher(before.researcher, caller)
        case Err(e) => Step(db, Err(e))
        case Ok(_) =>
          var t := before.(kingdom := payload.kingdom, phylum := payload.phylum,
                           klass := payload.klass, order := payload.order,
                           family := payload.family, genus := payload.genus,
                           species := payload.species, updatedAt := Some(now));
          Step(db.(taxonomies := db.taxonomies[t.id := t]), Ok(t))
  }

  /** `delete_taxonomy`: look the record up, check the owner, remove it and
      return it. Marine species that refer to it are left as they are. */
  function DeleteTaxonomy(db: Db, id: u64, caller: Principal): (s: Step<Taxonomy>)
    ensures s.next.taxonomyCounter == db.taxonomyCounter
    ensures s.next.marineSpecies == db.marineSpecies
    ensures s.next.marineSpecieCounter == db.marineSpecieCounter
    ensures id !in db.taxonomies ==> s.reply == Err(NotFound) && s.next == db
    ensures id in db.taxonomies && db.taxonomies[id].researcher != caller ==>
              s.reply == Err(NotResearcher) && s.next == db
    ensures s.reply.Ok? <==> id in db.taxonomies && db.taxonomies[id].researcher == caller
    ensures s.reply.Ok? ==> s.reply.value == db.taxonomies[id] && s.next.taxonomies == db.taxonomies - {id}
    ensures db.Valid() ==> s.next.Valid()
  {
    match OrderedMap.Get(db.taxonomies, id)
    case None => Step(db, Err(NotFound))
    case Some(t) =>
      match CheckResearcher(t.researcher, caller)
      case Err(e) => Step(db, Err(e))
      case Ok(_) => Step(db.(taxonomies := db.taxonomies - {id}), Ok(t))
  }

  // ---------------------------------------------------------------------
  // Marine species updates

  /** `add_marinespecie`: validate, then take the counter's value as the new
      id and advance the counter, then store the new record owned by `caller`.
      The taxonomy reference is stored without checking that it exists. */
  function AddMarineSpecie(db: Db, payload: MarineSpeciePayload, caller: Principal, now: u64)
    : (s: Step<MarineSpecie>)
    requires db.marineSpecieCounter < U64_MAX
    ensures s.reply.Err? <==> !MarineSpeciePayloadValid(payload)
    ensures s.reply.Err? ==>
              s.reply.error == ValidationFailed(MarineSpecieViolations(payload)) && s.next == db
    ensures s.reply.Ok? ==>
              var m := s.reply.value;
              && m.id == db.marineSpecieCounter
              && m.researcher == caller
              && MarineSpecieFields(m) == payload
              && m.createdAt == now && m.updatedAt == None
              && s.next.marineSpecies == db.marineSpecies[m.id := m]
              && s.next.marineSpecieCounter == db.marineSpecieCounter + 1
              && s.next.taxonomies == db.taxonomies
              && s.next.taxonomyCounter == db.taxonomyCounter
    ensures db.Valid() ==> s.next.Valid()
    ensures db.Valid() && s.reply.Ok? ==> s.reply.value.id !in db.marineSpecies
  {
    var violations := MarineSpecieViolations(payload);
    if violations != {} then
      Step(db, Err(ValidationFailed(violations)))
    else
      var id := db.marineSpecieCounter;
      var m := MarineSpecie(id, caller, payload.name, payload.habitat, payload.taxonomyId,
                            payload.conservationStatus, now, None);
      Step(db.(marineSpecies := db.marineSpecies[m.id := m], marineSpecieCounter := id + 1), Ok(m))
  }

  /** `update_marinespecie`: validate, then look the record up, then check the
      owner; on success overwrite the payload fields (the taxonomy reference
      included, unchecked) and stamp `updatedAt`. */
  function UpdateMarineSpecie(db: Db, id: u64, payload: MarineSpeciePayload, caller: Principal, now: u64)
    : (s: Step<MarineSpecie>)
    ensures s.next.marineSpecieCounter == db.marineSpecieCounter
    ensures s.next.taxonomies == db.taxonomies
    ensures s.next.taxonomyCounter == db.taxonomyCounter
    ensures s.reply.Err? ==> s.next == db
    ensures !MarineSpeciePayloadValid(payload) ==>
              s.reply == Err(ValidationFailed(MarineSpecieViolations(payload)))
    ensures MarineSpeciePayloadValid(payload) && id !in db.marineSpecies ==> s.reply == Err(NotFound)
    ensures MarineSpeciePayloadValid(payload) && id in db.marineSpecies && db.marineSpecies[id].researcher != caller ==>
              s.reply == Err(NotResearcher)
    ensures s.reply.Ok? <==>
              MarineSpeciePayloadValid(payload) && id in db.marineSpecies && db.marineSpecies[id].researcher == caller
    ensures s.reply.Ok? ==>
              var before, m := db.marineSpecies[id], s.reply.value;
              && m.id == before.id && m.researcher == before.researcher && m.createdAt == before.createdAt
              && MarineSpecieFields(m) == payload
              && m.updatedAt == Some(now)
              && s.next.marineSpecies == db.marineSpecies[m.id := m]
    ensures db.Valid() ==> s.next.Valid()
    ensures db.Valid() && s.reply.Ok? ==> s.next.marineSpecies == db.marineSpecies[id := s.reply.value]
  {
    var violations := MarineSpecieViolations(payload);
    if violations != {} then
      Step(db, Err(ValidationFailed(violations)))
    else
      match OrderedMap.Get(db.marineSpecies, id)
      case None => Step(db, Err(NotFound))
      case Some(before) =>
        match CheckResearcher(before.researcher, caller)
        case Err(e) => Step(db, Err(e))
        case Ok(_) =>
          var m := before.(name := payload.name, habitat := payload.habitat,
                           taxonomyId := payload.taxonomyId,
                           conservationStatus := payload.conservationStatus,
                           updatedAt := Some(now));
          Step(db.(marineSpecies := db.marineSpecies[m.id := m]), Ok(m))
  }

  /** `delete_marinespecie`: look the record up, check the owner, remove it
      and return it. */
  function DeleteMarineSpecie(db: Db, id: u64, caller: Principal): (s: Step<MarineSpecie>)
    ensures s.next.marineSpecieCounter == db.marineSpecieCounter
    ensures s.next.taxonomies == db.taxonomies
    ensures s.next.taxonomyCounter == db.taxonomyCounter
    ensures id !in db.marineSpecies ==> s.reply == Err(NotFound) && s.next == db
    ensures id in db.marineSpecies && db.marineSpecies[id].researcher != caller ==>
              s.reply == Err(NotResearcher) && s.next == db
    ensures s.reply.Ok? <==> id in db.marineSpecies && db.marineSpecies[id].researcher == caller
    ensures s.reply.Ok? ==> s.reply.value == db.marineSpecies[id] && s.next.marineSpecies == db.marineSpecies - {id}
    ensures db.Valid() ==> s.next.Valid()
  {
    match OrderedMap.Get(db.marineSpecies, id)
    case None => Step(db, Err(NotFound))
    case Some(m) =>
      match CheckResearcher(m.researcher, caller)
      case Err(e) => Step(db, Err(e))
      case Ok(_) => Step(db.(marineSpecies := db.marineSpecies - {id}), Ok(m))
  }
}
