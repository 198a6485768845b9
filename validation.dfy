/** Payload validation. Every string field of a payload carries the
    constraint `length(min = 1)`: it must hold at least one character
    (whitespace counts). Validation reports every failing field at once. */
module Validation {
  import opened Types

  /** The names of the taxonomy payload fields. */
  const TAXONOMY_FIELDS: set<string> :=
    {"kingdom", "phylum", "class", "order", "family", "genus", "species"}

  /** The names of the marine species payload's string fields. */
  const MARINE_SPECIE_FIELDS: set<string> := {"name", "habitat", "conservation_status"}

  /** A taxonomy payload meets all of its constraints. */
  predicate TaxonomyPayloadValid(p: TaxonomyPayload) {
    && |p.kingdom| >= 1 && |p.phylum| >= 1 && |p.klass| >= 1 && |p.order| >= 1
    && |p.family| >= 1 && |p.genus| >= 1 && |p.species| >= 1
  }

  /** A marine species payload meets all of its constraints. */
  predicate MarineSpeciePayloadValid(p: MarineSpeciePayload) {
    |p.name| >= 1 && |p.habitat| >= 1 && |p.conservationStatus| >= 1
  }

  /** `validate()` on a taxonomy payload: the set of fields that are empty. */
  function TaxonomyViolations(p: TaxonomyPayload): (v: set<string>)
    ensures v <= TAXONOMY_FIELDS
    ensures "kingdom" in v <==> p.kingdom == []
    ensures "phylum" in v <==> p.phylum == []
    ensures "class" in v <==> p.klass == []
    ensures "order" in v <==> p.order == []
    ensures "family" in v <==> p.family == []
    ensures "genus" in v <==> p.genus == []
    ensures "species" in v <==> p.species == []
    ensures v == {} <==> TaxonomyPayloadValid(p)
  {
    (if p.kingdom == [] then {"kingdom"} else {})
    + (if p.phylum == [] then {"phylum"} else {})
    + (if p.klass == [] then {"class"} else {})
    + (if p.order == [] then {"order"} else {})
    + (if p.family == [] then {"family"} else {})
    + (if p.genus == [] then {"genus"} else {})
    + (if p.species == [] then {"species"} else {})
  }

  /** `validate()` on a marine species payload: the set of string fields that
      are empty. The `range(min = 0)` rule on the unsigned `taxonomy_id` can
      never fail and contributes nothing. */
  function MarineSpecieViolations(p: MarineSpeciePayload): (v: set<string>)
    ensures v <= MARINE_SPECIE_FIELDS
    ensures "name" in v <==> p.name == []
    ensures "habitat" in v <==> p.habitat == []
    ensures "conservation_status" in v <==> p.conservationStatus == []
    ensures v == {} <==> MarineSpeciePayloadValid(p)
  {
    (if p.name == [] then {"name"} else {})
    + (if p.habitat == [] then {"habitat"} else {})
    + (if p.conservationStatus == [] then {"conservation_status"} else {})
  }

  /** Validation does not short-circuit: a payload with every field empty is
      reported with all seven field names. */
  lemma AllEmptyTaxonomyFieldsReported()
    ensures TaxonomyViolations(TaxonomyPayload("", "", "", "", "", "", "")) == TAXONOMY_FIELDS
  {
    var v := TaxonomyViolations(TaxonomyPayload("", "", "", "", "", "", ""));
    assert forall f :: f in TAXONOMY_FIELDS ==> f in v;
  }

  /** Only the length is checked: a blank string of spaces passes. */
  lemma BlankStringsPass()
    ensures MarineSpecieViolations(MarineSpeciePayload(" ", " ", 0, " ")) == {}
  {
  }
}
