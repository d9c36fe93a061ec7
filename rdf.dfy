/**
 * The triple values the normalizer reads and rebuilds, in place of the
 * openrdf value classes, and the datatype URIs it compares literals against.
 */
module Rdf {
  import opened Wrappers

  datatype Uri = Uri(text: string)

  /** A statement subject: a URI or a blank node. */
  datatype Resource = UriResource(uri: Uri) | BNode(id: string)

  /** A literal: its lexical form, its datatype and, for tagged strings, a language. */
  datatype Literal = Literal(lexicalForm: string, dtype: Uri, language: Option<string>)

  /** A statement object: a URI, a blank node or a literal. */
  datatype Value = UriValue(uri: Uri) | BNodeValue(id: string) | LiteralValue(literal: Literal)

  datatype Statement = Statement(subj: Resource, pred: Uri, obj: Value)

  /** XMLSchema.DECIMAL and XMLSchema.INTEGER */
  const XsdDecimal := Uri("http://www.w3.org/2001/XMLSchema#decimal")
  const XsdInteger := Uri("http://www.w3.org/2001/XMLSchema#integer")

  /** GeoSparql.WKT_LITERAL and GeoSparql.WKT_CRS_LITERAL */
  const WktLiteral := Uri("http://www.opengis.net/ont/geosparql#wktLiteral")
  const WktCrsLiteral := Uri("http://www.opengis.net/ont/geosparql#wktCRSLiteral")
}
