/** Records, payloads and errors of the marine species record service.

    Field names follow the Rust structs in camelCase; the taxonomy rank
    `class` is spelled `klass` because `class` is a Dafny keyword. */
module Types {

  /** Largest value of a Rust `u64`. */
  const U64_MAX: int := 0xFFFF_FFFF_FFFF_FFFF

  /** Rust `u64`: record ids, counters and timestamps. */
  type u64 = x: int | 0 <= x <= U64_MAX

  /** The textual form of a caller principal (`caller().to_string()`). */
  type Principal = string

  datatype Option<T> = None | Some(value: T)

  /** The service's error enum. `NotFound` and `ValidationFailed` carry text in
      the source; here `NotFound` carries nothing and `ValidationFailed` carries
      the names of the fields that failed validation. `InvalidInput` is declared
      by the source but never produced by any operation. */
  datatype Error =
    | NotFound
    | ValidationFailed(fields: set<string>)
    | InvalidInput
    | NotResearcher

  /** Rust `Result<T, Error>`. */
  datatype Result<T> = Ok(value: T) | Err(error: Error)

  /** A stored biological classification. */
  datatype Taxonomy = Taxonomy(
    id: u64,
    researcher: Principal,
    kingdom: string,
    phylum: string,
    klass: string,
    order: string,
    family: string,
    genus: string,
    species: string,
    createdAt: u64,
    updatedAt: Option<u64>)

  /** A stored observation of a marine species; `taxonomyId` is a soft
      reference to a `Taxonomy` id that is never checked. */
  datatype MarineSpecie = MarineSpecie(
    id: u64,
    researcher: Principal,
    name: string,
    habitat: string,
    taxonomyId: u64,
    conservationStatus: string,
    createdAt: u64,
    updatedAt: Option<u64>)

  /** Caller-supplied fields of a taxonomy. */
  datatype TaxonomyPayload = TaxonomyPayload(
    kingdom: string,
    phylum: string,
    klass: string,
    order: string,
    family: string,
    genus: string,
    species: string)

  /** Caller-supplied fields of a marine species. */
  datatype MarineSpeciePayload = MarineSpeciePayload(
    name: string,
    habitat: string,
    taxonomyId: u64,
    conservationStatus: string)

  /** The payload part of a stored taxonomy. */
  function TaxonomyFields(t: Taxonomy): TaxonomyPayload {
    TaxonomyPayload(t.kingdom, t.phylum, t.klass, t.order, t.family, t.genus, t.species)
  }

  /** The payload part of a stored marine species. */
  function MarineSpecieFields(m: MarineSpecie): MarineSpeciePayload {
    MarineSpeciePayload(m.name, m.habitat, m.taxonomyId, m.conservationStatus)
  }
}
