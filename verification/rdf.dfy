/** Typed values of the fact store and the vocabulary terms the resolver compares against. */
module Rdf {

  /** A typed value: a URN reference or a literal with its datatype URI. */
  datatype Value = Urn(uri: string) | Literal(lexical: string, datatypeUri: string)

  /** The canonical string form of a value (what `str` and `SerializeToString` give). */
  function Serialize(v: Value): string {
    match v
    case Urn(u) => u
    case Literal(l, _) => l
  }

  /** The vocabulary terms the resolver consults, each in its canonical serialized form. */
  datatype Lexicon = Lexicon(
    typeAttr: string,           // the type attribute
    stored: string,             // the storage-location attribute
    zipType: string,            // type of a zip volume
    zipSegmentType: string,     // type of a zip segment
    volatileNamespace: string,  // prefix of attributes that are never serialized
    dataStream: string          // attribute linking a content hash to its byte stream
  )
}
