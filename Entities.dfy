/**
  The entities the view model holds and the snapshot records the remote
  service returns for them.

  `Filament` and `Spool` are reference types: a refresh updates a surviving
  entity in place, so whoever holds a reference to it sees the new values.
  Their ids never change once an entity exists.
 */
module Entities {

  type FilamentId = int
  type SpoolId = int

  /** One row of the remote filament snapshot. */
  datatype FilamentDto = FilamentDto(id: FilamentId, brand: string, material: string)

  /** One row of the remote spool snapshot; remaining length is not part of it. */
  datatype SpoolDto = SpoolDto(id: SpoolId, filamentId: FilamentId, name: string, lengthTotal: int)

  function FilamentDtoKey(d: FilamentDto): (r: int) { d.id }
  function SpoolDtoKey(d: SpoolDto): (r: int) { d.id }
  /** The foreign key a spool record uses to name its filament. */
  function SpoolDtoFilament(d: SpoolDto): (r: int) { d.filamentId }

  class Filament {
    const id: FilamentId
    var brand: string
    var material: string

    /** The descriptive fields carry the values of `api`. */
    predicate Reflects(api: FilamentDto)
      reads this
    {
      brand == api.brand && material == api.material
    }

    /** `Filament(api:)`: a new local filament built from a snapshot row. */
    constructor (api: FilamentDto)
      ensures id == api.id && Reflects(api)
    {
      id := api.id;
      brand := api.brand;
      material := api.material;
    }

    /** `updateFromRefresh(api:)`: overwrite the descriptive fields, keeping identity. */
    method UpdateFromRefresh(api: FilamentDto)
      modifies this
      ensures Reflects(api)
    {
      brand := api.brand;
      material := api.material;
    }
  }

  class Spool {
    const id: SpoolId
    var name: string
    var lengthTotal: int
    var filament: Filament
    var lengthRemaining: int

    /** The fields copied from the snapshot carry the values of `api`. */
    predicate Reflects(api: SpoolDto)
      reads this
    {
      name == api.name && lengthTotal == api.lengthTotal && filament.id == api.filamentId
    }

    /** `Spool(api:filament:lengthRemaining:)`: a new local spool linked to `filament`. */
    constructor (api: SpoolDto, filament: Filament, lengthRemaining: int)
      requires filament.id == api.filamentId
      ensures id == api.id && Reflects(api)
      ensures this.filament == filament && this.lengthRemaining == lengthRemaining
    {
      id := api.id;
      name := api.name;
      lengthTotal := api.lengthTotal;
      this.filament := filament;
      this.lengthRemaining := lengthRemaining;
    }

    /**
      `updateFromRefresh(api:filament:newLengthRemaining:)`: overwrite the
      snapshot fields, relink the filament and store the freshly fetched
      remaining length, keeping identity.
     */
    method UpdateFromRefresh(api: SpoolDto, filament: Filament, newLengthRemaining: int)
      requires filament.id == api.filamentId
      modifies this
      ensures Reflects(api)
      ensures this.filament == filament && lengthRemaining == newLengthRemaining
    {
      name := api.name;
      lengthTotal := api.lengthTotal;
      this.filament := filament;
      lengthRemaining := newLengthRemaining;
    }
  }

  function FilamentKey(f: Filament): (r: int) { f.id }
  function SpoolKey(s: Spool): (r: int) { s.id }
}
