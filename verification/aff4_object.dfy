/** What the cache and the factory know about a constructed object. */
module Aff4Object {

  /** A constructor registered for a type URI or a URN scheme, known by its name. */
  datatype Handler = Handler(name: string)

  /** Which path of the factory produced an object. */
  datatype Kind = SymbolicStream | ByteRangeMap | Typed(handler: Handler)

  /** A constructed object: its URN (the cache key), its kind, and whether it holds unflushed changes. */
  datatype Obj = Obj(urn: string, kind: Kind, dirty: bool)
}
