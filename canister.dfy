/** The deployed service: one object holding the two persistent record maps
    and the two persistent id counters, updated in place by the update entry
    points. Each method follows the steps of its entry point and promises
    that the new state and its reply are those given by the matching function
    of `Service`, where their properties are stated and proved. */
module Backend {
  import opened Types
  import opened Validation
  import OrderedMap
  import Service

  class Canister {
    /** `TAXONOMY_STR` */
    var taxonomyStore: map<u64, Taxonomy>
    /** `TAXONOMY_ID_COUNTER` */
    var taxonomyIdCounter: u64
    /** `MARINESPECIE_STR` */
    var marineSpecieStore: map<u64, MarineSpecie>
    /** `MARINESPECIE_ID_COUNTER` */
    var marineSpecieIdCounter: u64

    /** The durable state as a value. */
    function State(): Service.Db
      reads this
    {
      Service.Db(taxonomyStore, taxonomyIdCounter, marineSpecieStore, marineSpecieIdCounter)
    }

    ghost predicate Valid()
      reads this
    {
      State().Valid()
    }

    /** Both counters are initialised to 0 and both maps start empty. */
    constructor ()
      ensures Valid() && State() == Service.EMPTY
    {
      taxonomyStore, taxonomyIdCounter := map[], 0;
      marineSpecieStore, marineSpecieIdCounter := map[], 0;
    }

    /** `do_insert_taxonomy`: store `t` under its own id. */
    method DoInsertTaxonomy(t: Taxonomy)
      modifies this
      ensures taxonomyStore == old(taxonomyStore)[t.id := t]
      ensures taxonomyIdCounter == old(taxonomyIdCounter)
      ensures marineSpecieStore == old(marineSpecieStore)
      ensures marineSpecieIdCounter == old(marineSpecieIdCounter)
    {
      taxonomyStore := taxonomyStore[t.id := t];
    }

    /** `do_insert_marinespecie`: store `m` under its own id. */
    method DoInsertMarineSpecie(m: MarineSpecie)
      modifies this
      ensures marineSpecieStore == old(marineSpecieStore)[m.id := m]
      ensures marineSpecieIdCounter == old(marineSpecieIdCounter)
      ensures taxonomyStore == old(taxonomyStore)
      ensures taxonomyIdCounter == old(taxonomyIdCounter)
    {
      marineSpecieStore := marineSpecieStore[m.id := m];
    }

    /** `add_taxonomy` */
    method AddTaxonomy(payload: TaxonomyPayload, caller: Principal, now: u64) returns (r: Result<Taxonomy>)
      requires Valid() && taxonomyIdCounter < U64_MAX
      modifies this
      ensures Valid()
      ensures Service.Step(State(), r) == Service.AddTaxonomy(old(State()), payload, caller, now)
    {
      var violations := TaxonomyViolations(payload);
      if violations != {} {
        return Err(ValidationFailed(violations));
      }
      // `Cell::set` hands back the value it replaces: that value is the id.
      var id := taxonomyIdCounter;
      taxonomyIdCounter := id + 1;
      var t := Taxonomy(id, caller, payload.kingdom, payload.phylum, payload.klass, payload.order,
                        payload.family, payload.genus, payload.species, now, None);
      DoInsertTaxonomy(t);
      r := Ok(t);
    }

    /** `update_taxonomy` */
    method UpdateTaxonomy(id: u64, payload: TaxonomyPayload, caller: Principal, now: u64)
      returns (r: Result<Taxonomy>)
      requires Valid()
      modifies this
      ensures Valid()
      ensures Service.Step(State(), r) == Service.UpdateTaxonomy(old(State()), id, payload, caller, now)
    {
      var violations := TaxonomyViolations(payload);
      if violations != {} {
        return Err(ValidationFailed(violations));
      }
      match OrderedMap.Get(taxonomyStore, id)
      case None =>
        r := Err(NotFound);
      case Some(t) =>
        var owner := Service.CheckResearcher(t.researcher, caller);
        if owner.Err? {
          return Err(owner.error);
        }
        var updated := t.(kingdom := payload.kingdom, phylum := payload.phylum, klass := payload.klass,
                          order := payload.order, family := payload.family, genus := payload.genus,
                          species := payload.species, updatedAt := Some(now));
        DoInsertTaxonomy(updated);
        r := Ok(updated);
    }

    /** `delete_taxonomy` */
    method DeleteTaxonomy(id: u64, caller: Principal) returns (r: Result<Taxonomy>)
      requires Valid()
      modifies this
      ensures Valid()
      ensures Service.Step(State(), r) == Service.DeleteTaxonomy(old(State()), id, caller)
    {
      var found := OrderedMap.Get(taxonomyStore, id);
      if found.None? {
        return Err(NotFound);
      }
      var owner := Service.CheckResearcher(found.value.researcher, caller);
      if owner.Err? {
        return Err(owner.error);
      }
      // `remove` hands back the value it removes.
      var removed := OrderedMap.Get(taxonomyStore, id);
      taxonomyStore := taxonomyStore - {id};
      match removed
      case Some(t) =>
        r := Ok(t);
      case None =>
        // Never taken: the lookup above found the key.
        r := Err(NotFound);
    }

    /** `add_marinespecie` */
    method AddMarineSpecie(payload: MarineSpeciePayload, caller: Principal, now: u64)
      returns (r: Result<MarineSpecie>)
      requires Valid() && marineSpecieIdCounter < U64_MAX
      modifies this
      ensures Valid()
      ensures Service.Step(State(), r) == Service.AddMarineSpecie(old(State()), payload, caller, now)
    {
      var violations := MarineSpecieViolations(payload);
      if violations != {} {
        return Err(ValidationFailed(violations));
      }
      // `Cell::set` hands back the value it replaces: that value is the id.
      var id := marineSpecieIdCounter;
      marineSpecieIdCounter := id + 1;
      var m := MarineSpecie(id, caller, payload.name, payload.habitat, payload.taxonomyId,
                            payload.conservationStatus, now, None);
      DoInsertMarineSpecie(m);
      r := Ok(m);
    }

    /** `update_marinespecie` */
    method UpdateMarineSpecie(id: u64, payload: MarineSpeciePayload, caller: Principal, now: u64)
      returns (r: Result<MarineSpecie>)
      requires Valid()
      modifies this
      ensures Valid()
      ensures Service.Step(State(), r) == Service.UpdateMarineSpecie(old(State()), id, payload, caller, now)
    {
      var violations := MarineSpecieViolations(payload);
      if violations != {} {
        return Err(ValidationFailed(violations));
      }
      match OrderedMap.Get(marineSpecieStore, id)
      case None =>
        r := Err(NotFound);
      case Some(m) =>
        var owner := Service.CheckResearcher(m.researcher, caller);
        if owner.Err? {
          return Err(owner.error);
        }
        var updated := m.(name := payload.name, habitat := payload.habitat,
                          taxonomyId := payload.taxonomyId,
                          conservationStatus := payload.conservationStatus,
                          updatedAt := Some(now));
        DoInsertMarineSpecie(updated);
        r := Ok(updated);
    }

    /** `delete_marinespecie` */
    method DeleteMarineSpecie(id: u64, caller: Principal) returns (r: Result<MarineSpecie>)
      requires Valid()
      modifies this
      ensures Valid()
      ensures Service.Step(State(), r) == Service.DeleteMarineSpecie(old(State()), id, caller)
    {
      var found := OrderedMap.Get(marineSpecieStore, id);
      if found.None? {
        return Err(NotFound);
      }
      var owner := Service.CheckResearcher(found.value.researcher, caller);
      if owner.Err? {
        return Err(owner.error);
      }
      // `remove` hands back the value it removes.
      var removed := OrderedMap.Get(marineSpecieStore, id);
      marineSpecieStore := marineSpecieStore - {id};
      match removed
      case Some(m) =>
        r := Ok(m);
      case None =>
        // Never taken: the lookup above found the key.
        r := Err(NotFound);
    }
  }

  /** A caller's session: create a taxonomy and a marine species referring
      to it, delete the taxonomy, then read the marine species back. */
  method DanglingReferenceSession(caller: Principal, t0: u64, t1: u64)
    returns (taxonomyId: u64, specieId: u64, readBack: Result<MarineSpecie>)
    ensures taxonomyId == 0 && specieId == 0
    ensures readBack.Ok? && readBack.value.taxonomyId == taxonomyId
  {
    var service := new Canister();
    var taxonomy := service.AddTaxonomy(
      TaxonomyPayload("Animalia", "Chordata", "Mammalia", "Cetacea", "Balaenopteridae", "Balaenoptera", "musculus"),
      caller, t0);
    taxonomyId := taxonomy.value.id;
    var specie := service.AddMarineSpecie(MarineSpeciePayload("Blue Whale", "Ocean", taxonomyId, "Endangered"), caller, t1);
    specieId := specie.value.id;
    var deleted := service.DeleteTaxonomy(taxonomyId, caller);
    assert deleted.Ok?;
    readBack := Service.GetMarineSpecie(service.marineSpecieStore, specieId);
  }
}
