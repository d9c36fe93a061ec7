# Wikidata dump normalizer and WKT point codec, in Dafny

This project models two value transformers of the Wikidata Query Service
ingestion tools and proves their contracts.

- **`NormalizingRdfHandler`** (module `Normalizer`, `normalizer.dfy`) rewrites
  each statement of a dump before it is loaded.
  - In every URI it renames the legacy ontology markers `ontology-0.0.1` and
    `ontology-beta` to `ontology`.
  - In a URI that starts with the old ontology namespace, it renames every
    occurrence of that namespace to the current one.
  - It deletes newlines and percent-encodes `| \ { } ` ^`.
  - A decimal or integer literal that is not a numeral becomes `"0"`.
  - A globe-qualified `wktLiteral` (`<globe> Point(...)`) loses its globe
    prefix and is retagged `wktCRSLiteral`. `Point` is upper-cased in every
    WKT literal.
  - Namespace declarations get the renaming but not the escaping.
- **`WikibasePoint`** (module `WikibasePoints`, `wikibase_point.dfy`) reads
  `[<globe> ]POINT(a b)` into a latitude/longitude pair of strings and an
  optional globe, in a chosen coordinate order. It writes a point without a
  globe back as `POINT(a b)`.

Supporting modules:
- `Rdf` (`rdf.dfy`) holds the triple values and the four datatype URIs.
- `JavaStrings` (`java_strings.dfy`) models the Java string operations the two
  classes call: `replace`, `indexOf`, `lastIndexOf`, `trim`,
  `toLowerCase(Locale.ROOT)` and `split("[\\s,]")`.
- `Wrappers` (`wrappers.dfy`) holds `Option` (Java's `null`) and `Result`
  (a thrown exception).

How each kind of source code is modelled:
- `isNumericString` is a loop. It is a method, proved equal to the
  declarative predicate `IsNumeral`.
- `fixUri`, `handleNamespace` and `handleStatement` reassign their locals
  step by step. They are methods, proved against the functions
  `RewriteNamespaces`, `EscapeUri` and `FixedUri`.
- `fixNumber`, `removeGlobe`, the two point constructors, `toOrder` and
  `toString` are functions.

Behaviour of the code that a reader may not expect, which the model follows:
- The globe of a point must be at least two characters long. The code
  rejects a first `>` at index 2 or less. The code measures in UTF-16 units;
  the model counts characters (see "## Left out").
- A newline in a URI is deleted, not percent-encoded.
- A point literal that ends right after its globe (`"<abc>"`) fails with
  `IndexOutOfBounds`, not `InvalidFormat`. So does an empty literal. The code
  throws `StringIndexOutOfBoundsException` there, not
  `IllegalArgumentException`.

## Model

| member | source | states |
|---|---|---|
| `Normalizer.IsNumericString` | tools/src/main/java/org/wikidata/query/rdf/tool/rdf/NormalizingRdfHandler.java:73-96 | The scan returns true exactly when the string matches the declarative `IsNumeral`: it is non-empty; after an optional single `+`/`-`, it holds only digits and dots; and it has at most one dot. |
| `Normalizer.NumeralExamples` | tools/src/main/java/org/wikidata/query/rdf/tool/rdf/NormalizingRdfHandler.java:73-96 | `""` is rejected. A lone `+`, `-` or `.` is accepted, and so are `-12.5` and `007`. `1.2.3`, `+-1`, `1e5` and ` 1` are rejected. |
| `Normalizer.FixNumber` | tools/src/main/java/org/wikidata/query/rdf/tool/rdf/NormalizingRdfHandler.java:104-115 | The datatype is kept. The literal changes exactly when it is a decimal or integer whose label is not a numeral. When it changes, it becomes `"0"` with that datatype and no language. |
| `Normalizer.FixNumberIdempotent` | tools/src/main/java/org/wikidata/query/rdf/tool/rdf/NormalizingRdfHandler.java:104-115 | Fixing a fixed literal again changes nothing. |
| `Normalizer.RemoveGlobe` | tools/src/main/java/org/wikidata/query/rdf/tool/rdf/NormalizingRdfHandler.java:123-133 | Non-WKT literals pass through. A WKT label without `<` keeps its datatype and only has `Point` upper-cased. A WKT label with `<` fails exactly when its last character is `>` (the substring overrun). Otherwise it becomes the text from two characters past the last `>`, with `Point` upper-cased, tagged `wktCRSLiteral`. |
| `Normalizer.RemoveGlobeStripsPrefix` | tools/src/main/java/org/wikidata/query/rdf/tool/rdf/NormalizingRdfHandler.java:124-127 | `<globe>` followed by any one non-`>` character and then a body without `>` becomes the body with `Point` upper-cased, tagged `wktCRSLiteral`. |
| `Normalizer.EscapeChar` | tools/src/main/java/org/wikidata/query/rdf/tool/rdf/NormalizingRdfHandler.java:154-156 | The replacement for one character never holds an unsafe character. A character is kept as it is exactly when it is not one of the seven. A newline is deleted. |
| `Normalizer.EscapeUri` | tools/src/main/java/org/wikidata/query/rdf/tool/rdf/NormalizingRdfHandler.java:154-156 | `StringUtils.replaceEach` with the seven single-character search strings, as a definition. Each character is replaced by `EscapeChar` of it, left to right. Its properties are the lemmas in the next four rows. |
| `Normalizer.EscapeUriAppend` | tools/src/main/java/org/wikidata/query/rdf/tool/rdf/NormalizingRdfHandler.java:154-156 | Escaping distributes over concatenation. So it is a character-by-character map that keeps the order of the text. |
| `Normalizer.EscapeUriSafe` | tools/src/main/java/org/wikidata/query/rdf/tool/rdf/NormalizingRdfHandler.java:154-156 | No newline, `\|`, `\`, `{`, `}`, backtick or `^` survives escaping. |
| `Normalizer.EscapeUriUnchanged` | tools/src/main/java/org/wikidata/query/rdf/tool/rdf/NormalizingRdfHandler.java:154-159 | Escaping leaves a string unchanged if and only if it holds none of the seven characters. |
| `Normalizer.EscapeCharIsPercentEncoding` | tools/src/main/java/org/wikidata/query/rdf/tool/rdf/NormalizingRdfHandler.java:155-156 | Each of the six escaped characters other than newline is replaced by its percent-encoding in upper-case hex, computed independently as in section 2.1 of RFC 3986. |
| `Normalizer.RewriteNamespaces` | tools/src/main/java/org/wikidata/query/rdf/tool/rdf/NormalizingRdfHandler.java:144-152 | The namespace step, written as a definition: `ontology-0.0.1`, then `ontology-beta`, is renamed to `ontology` everywhere. Then, only if the result starts with the old namespace, every occurrence of the old namespace is renamed. Its properties are the lemmas in the next five rows. |
| `Normalizer.RewriteNamespacesUnchanged` | tools/src/main/java/org/wikidata/query/rdf/tool/rdf/NormalizingRdfHandler.java:144-152 | A string with neither marker that does not start with the old namespace is left unchanged by the namespace step. |
| `Normalizer.RewriteSingleVersionedMarker` | tools/src/main/java/org/wikidata/query/rdf/tool/rdf/NormalizingRdfHandler.java:144-152 | A string with one `ontology-0.0.1` becomes the same string with `ontology` in its place and nothing else changed, if no second rule then applies. |
| `Normalizer.RewriteSingleBetaMarker` | tools/src/main/java/org/wikidata/query/rdf/tool/rdf/NormalizingRdfHandler.java:147-149 | A string with one `ontology-beta` and no `ontology-0.0.1` becomes the same string with `ontology` in its place and nothing else changed, if the old-namespace rule then does not apply. |
| `Normalizer.RewriteOldNamespaceInFront` | tools/src/main/java/org/wikidata/query/rdf/tool/rdf/NormalizingRdfHandler.java:150-152 | Take a marker-free string that starts with the old namespace. The prefix becomes the new namespace, and every later occurrence in the rest is renamed too. With no later occurrence, the rest is unchanged. |
| `Normalizer.OldNamespaceKeptOffFront` | tools/src/main/java/org/wikidata/query/rdf/tool/rdf/NormalizingRdfHandler.java:150-152 | A marker-free string that holds the old namespace, but not at its start, is left unchanged. It still holds the old namespace. |
| `Normalizer.FixedUri` | tools/src/main/java/org/wikidata/query/rdf/tool/rdf/NormalizingRdfHandler.java:139-161 | `fixUri` as a definition: the namespace step, then the escape step. Its properties are `FixedUriSafe` and `FixedUriUnchanged`, and the method `FixUri` is proved equal to it. |
| `Normalizer.FixedUriSafe` | tools/src/main/java/org/wikidata/query/rdf/tool/rdf/NormalizingRdfHandler.java:139-161 | A fixed URI holds none of the seven characters. |
| `Normalizer.FixedUriUnchanged` | tools/src/main/java/org/wikidata/query/rdf/tool/rdf/NormalizingRdfHandler.java:139-161 | Take a URI with neither marker that does not start with the old namespace. Fixing it returns it unchanged if and only if it holds none of the seven characters. |
| `Normalizer.FixUri` | tools/src/main/java/org/wikidata/query/rdf/tool/rdf/NormalizingRdfHandler.java:139-161 | The guarded step-by-step rewrite equals the namespace step followed by the escape step. The `contains` and `equals` guards change nothing, because replacing an absent marker is the identity. |
| `Normalizer.HandleNamespace` | tools/src/main/java/org/wikidata/query/rdf/tool/rdf/NormalizingRdfHandler.java:28-38 | The prefix is passed on as it is. The URI gets exactly the namespace step of `fixUri`, without the escaping. |
| `Normalizer.NamespaceKeepsUnsafeChars` | tools/src/main/java/org/wikidata/query/rdf/tool/rdf/NormalizingRdfHandler.java:28-38 | A namespace declaration `a\|b` passes through unchanged, while `fixUri` turns the same text into `a%7Cb`. |
| `Normalizer.HandleStatement` | tools/src/main/java/org/wikidata/query/rdf/tool/rdf/NormalizingRdfHandler.java:42-66 | Only URI subjects are fixed, so blank-node subjects pass through. The predicate is always fixed. URI objects are fixed. Literal objects go through `fixNumber` then `removeGlobe`, never `fixUri`. The call fails exactly when `removeGlobe` would throw. A statement none of whose parts change is passed on as the same statement. |
| `JavaStrings.ReplaceAll` | tools/src/main/java/org/wikidata/query/rdf/tool/rdf/NormalizingRdfHandler.java:127-151 | `String.replace` with a non-empty target, as a definition. At each position, if the target starts there it is replaced and scanning resumes after it; otherwise one character is copied. Its properties are the lemmas in the next four rows. |
| `JavaStrings.Contains` | tools/src/main/java/org/wikidata/query/rdf/tool/rdf/NormalizingRdfHandler.java:144-148 | `String.contains` as a definition: the target occurs at some index. |
| `JavaStrings.StartsWith` | tools/src/main/java/org/wikidata/query/rdf/tool/rdf/NormalizingRdfHandler.java:150 | `String.startsWith` as a definition: the prefix is no longer than the string and equals its first characters. |
| `JavaStrings.EndsWith` | common/src/main/java/org/wikidata/query/rdf/common/WikibasePoint.java:91 | `String.endsWith` as a definition: the suffix is no longer than the string and equals its last characters. |
| `JavaStrings.ReplaceAllAbsent` | tools/src/main/java/org/wikidata/query/rdf/tool/rdf/NormalizingRdfHandler.java:144-152 | `replace` of a target that does not occur returns the string unchanged. |
| `JavaStrings.ReplaceAllKeepsPrefix` | tools/src/main/java/org/wikidata/query/rdf/tool/rdf/NormalizingRdfHandler.java:144-152 | `replace` copies a prefix in which no occurrence of the target starts, character for character, and goes on with the rest. |
| `JavaStrings.ReplaceAllLeftmost` | tools/src/main/java/org/wikidata/query/rdf/tool/rdf/NormalizingRdfHandler.java:144-152 | `replace` keeps the text before the leftmost occurrence and replaces that occurrence. It then carries on after the occurrence, so every occurrence is replaced, left to right, without overlap. |
| `JavaStrings.ReplaceAllOnce` | tools/src/main/java/org/wikidata/query/rdf/tool/rdf/NormalizingRdfHandler.java:144-152 | A string with exactly one occurrence of the target has exactly that occurrence replaced. |
| `JavaStrings.IndexOf` | common/src/main/java/org/wikidata/query/rdf/common/WikibasePoint.java:80 | The result is the first index holding the character, or -1 when there is none. |
| `JavaStrings.LastIndexOf` | tools/src/main/java/org/wikidata/query/rdf/tool/rdf/NormalizingRdfHandler.java:127 | The result is the last index holding the character, or -1 when there is none. |
| `JavaStrings.Trim` | common/src/main/java/org/wikidata/query/rdf/common/WikibasePoint.java:90 | The result is empty or starts and ends with a character above U+0020. A non-empty string that already does is returned unchanged. |
| `JavaStrings.TrimKeepsInterior` | common/src/main/java/org/wikidata/query/rdf/common/WikibasePoint.java:90 | The input is the result with characters at or below U+0020 before and after it. So `trim` removes only the ends. |
| `JavaStrings.ToLowerAscii` | common/src/main/java/org/wikidata/query/rdf/common/WikibasePoint.java:91 | The result has the input's length, and each character is that input character with ASCII upper case lowered. |
| `JavaStrings.Split` | common/src/main/java/org/wikidata/query/rdf/common/WikibasePoint.java:96 | `split("[\\s,]")` as a definition. Text with no whitespace or comma is one piece. Otherwise it is cut at every such character, and the empty pieces at the end are dropped. Its properties are `SplitTwo` and `SplitThree`. |
| `JavaStrings.SplitTwo` | common/src/main/java/org/wikidata/query/rdf/common/WikibasePoint.java:96 | `a` + delimiter + `b` splits into exactly `[a, b]`, for a non-empty `b` and pieces without whitespace or commas. |
| `JavaStrings.SplitThree` | common/src/main/java/org/wikidata/query/rdf/common/WikibasePoint.java:96 | Three such pieces around two delimiters split into exactly those three pieces. |
| `WikibasePoints.CoordinateOrder.Other` | common/src/main/java/org/wikidata/query/rdf/common/WikibasePoint.java:28-39 | `other` is the order that is not this one. With two orders this makes it an involution. |
| `WikibasePoints.FromComponents` | common/src/main/java/org/wikidata/query/rdf/common/WikibasePoint.java:119-128 | The first component is the coordinate written first in the given order, and the second is the one written second. The globe is stored as given. |
| `WikibasePoints.ParseWkt` | common/src/main/java/org/wikidata/query/rdf/common/WikibasePoint.java:90-106 | After the globe, parsing succeeds exactly when the trimmed text starts with `point(` in any case, ends with `)`, and its interior splits into two pieces. Those pieces become the coordinates in the given order, verbatim. Every failure here is `InvalidFormat`. |
| `WikibasePoints.Parse` | common/src/main/java/org/wikidata/query/rdf/common/WikibasePoint.java:77-107 | An empty literal fails. A literal starting with `<` fails with `InvalidFormat` when it has no `>` or its first `>` is at index 1 or 2. On success, a globe is present exactly when the literal starts with `<`. That globe is at least two characters long, holds no `>`, and is what stands between the leading `<` and the first `>`. A literal not starting with `<` is parsed whole as WKT text without a globe. |
| `WikibasePoints.ParseEndsAtGlobe` | common/src/main/java/org/wikidata/query/rdf/common/WikibasePoint.java:80-85 | A literal that is only `<`, a globe of two or more characters without `>`, and `>` fails with `IndexOutOfBounds`. |
| `WikibasePoints.ToOrder` | common/src/main/java/org/wikidata/query/rdf/common/WikibasePoint.java:154-171 | The result is null exactly when the point has a globe. Otherwise it is `POINT(` + the coordinate first in the order + space + the other coordinate + `)`. |
| `WikibasePoints.ToString` | common/src/main/java/org/wikidata/query/rdf/common/WikibasePoint.java:145-147 | The result is null exactly when there is a globe. Otherwise latitude is written first. |
| `WikibasePoints.ParseSkipsOneChar` | common/src/main/java/org/wikidata/query/rdf/common/WikibasePoint.java:78-85 | After a well-formed `<globe>`, exactly one character is skipped, whatever it is. The code skips one UTF-16 unit (see "## Left out"). Parsing then goes on with the rest and that globe. |
| `WikibasePoints.ParseWktWithGlobe` | common/src/main/java/org/wikidata/query/rdf/common/WikibasePoint.java:84-106 | The globe found before the WKT text has no influence on the rest of the parse. It is stored in the result unchanged. |
| `WikibasePoints.ParseOtherOrder` | common/src/main/java/org/wikidata/query/rdf/common/WikibasePoint.java:100-106 | Parsing with the other order succeeds on the same literals. It gives latitude and longitude swapped and the same globe. |
| `WikibasePoints.ParseThenWrite` | common/src/main/java/org/wikidata/query/rdf/common/WikibasePoint.java:77-171 | Take `a` and `b` without whitespace or commas, with `b` non-empty. `POINT(a b)` parsed in an order gives the components point. Written in the same order it gives back the same text, and written in the other order it gives `POINT(b a)`. |
| `WikibasePoints.WriteThenParse` | common/src/main/java/org/wikidata/query/rdf/common/WikibasePoint.java:77-171 | A point without a globe whose coordinates survive splitting is written and read back in the same order as the same point. |
| `WikibasePoints.ComponentsThenWrite` | common/src/main/java/org/wikidata/query/rdf/common/WikibasePoint.java:119-171 | Components given latitude first are written `POINT(lat long)` in latitude-longitude order and `POINT(long lat)` in the other. |
| `WikibasePoints.ParseGlobeThenWrite` | common/src/main/java/org/wikidata/query/rdf/common/WikibasePoint.java:77-171 | `<g> POINT(a b)` is read with globe `g` and the coordinates in the given order. Writing that point fails, returning null. |
| `WikibasePoints.RejectsAfterGlobe` | common/src/main/java/org/wikidata/query/rdf/common/WikibasePoint.java:78-106 | A well-formed globe followed by text that the WKT part rejects is rejected with `InvalidFormat`. |
| `WikibasePoints.ParsePlainExamples` | common/src/test/java/org/wikidata/query/rdf/common/WikibasePointUnitTest.java:13-26 | `POINT(12.34 56.98)` has latitude 12.34 by default and 56.98 in longitude-latitude order. It is written back verbatim. |
| `WikibasePoints.ParseMoonExample` | common/src/test/java/org/wikidata/query/rdf/common/WikibasePointUnitTest.java:28-31 | `<On the Moon> POINT(12.34 56.98)` has globe `On the Moon`, and its plain WKT form is null. |
| `WikibasePoints.ParseMarsExample` | common/src/test/java/org/wikidata/query/rdf/common/WikibasePointUnitTest.java:33-36 | `<On Mars> POINT(12.34 56.98)` read longitude first has latitude 56.98 and globe `On Mars`. |
| `WikibasePoints.RejectsWrongKeyword` | common/src/test/java/org/wikidata/query/rdf/common/WikibasePointUnitTest.java:38-41 | `Points(12.34,56.98)` is rejected. |
| `WikibasePoints.RejectsUnopenedGlobe` | common/src/test/java/org/wikidata/query/rdf/common/WikibasePointUnitTest.java:43-46 | `On Mars> POINT(12.34 56.98)` is rejected. |
| `WikibasePoints.RejectsMissingSpace` | common/src/test/java/org/wikidata/query/rdf/common/WikibasePointUnitTest.java:48-51 | `<On Mars>POINT(12.34 56.98)` is rejected. |
| `WikibasePoints.RejectsOneCoordinate` | common/src/test/java/org/wikidata/query/rdf/common/WikibasePointUnitTest.java:53-56 | `<On Mars> POINT(12.34)` is rejected. |
| `WikibasePoints.RejectsThreeCoordinates` | common/src/test/java/org/wikidata/query/rdf/common/WikibasePointUnitTest.java:58-61 | `<On Mars> POINT(12.34 5.6 7.8)` is rejected. |
| `WikibasePoints.RejectsUnclosedGlobe` | common/src/test/java/org/wikidata/query/rdf/common/WikibasePointUnitTest.java:63-66 | `<On the Moon POINT(12.34 56.98)` is rejected. |

## Left out

- The entity graph munger (`Munger`) is not modelled.
- Handing the rewritten statement or namespace to the next handler
  (`super.handleStatement`, `super.handleNamespace`) and `RDFHandlerException`
  are left out. Both handlers return the values they would pass on.
- Building a new statement only when a part changed (reference identity,
  NormalizingRdfHandler.java:59-63) is modelled by value equality.
- The `Ontology.OLD_NAMESPACE` and `Ontology.NAMESPACE` constants are
  parameters (`OntologyNamespaces`), because their values are not part of this
  model. The old namespace is required to be non-empty.
- Parse, ParseSkipsOneChar, RemoveGlobe: text outside the Basic Multilingual
  Plane is counted in characters, not in the UTF-16 units Java's `indexOf`,
  `lastIndexOf` and `substring` count. A globe of one such character is
  rejected here, while Java accepts it as two units. The one unit skipped after
  a `>` is a whole character here, while Java may cut a surrogate pair. Every
  input within that plane behaves the same in both.
- `toLowerCase(Locale.ROOT)` is modelled as ASCII lower-casing. Non-ASCII
  case mappings, some of which change the length, are not modelled.
- `split` and `trim` use Java's ASCII definitions of whitespace. Regular
  expressions other than `[\s,]` are not modelled.
- A literal without a datatype (a plain or language-tagged literal whose
  `getDatatype()` is null) is not modelled. Every literal carries a
  datatype URI, so such a literal never matches the decimal, integer or WKT
  datatypes. The null-pointer failure is therefore not modelled.
- Literals rebuilt by `fixNumber` and `removeGlobe` have no language tag, as
  `new LiteralImpl(label, datatype)` has none.
- WikibasePoints.FromComponents: requires at least two components. A shorter
  array would make the Java constructor throw `ArrayIndexOutOfBoundsException`.
- The getters and the overloaded constructors that supply the default order
  or a null globe are left out. `DefaultOrder` and `None` are passed
  explicitly instead.
- `fixUri` is not idempotent, so no idempotence is claimed: `ontology-0.0.1-0.0.1`
  becomes `ontology-0.0.1`.
- The commented-out tests describe behaviour the code does not implement, so
  they are not modelled: the coordinate swap in the munger, and the round
  trips of points with a globe.
