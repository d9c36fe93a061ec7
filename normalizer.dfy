/**
 * NormalizingRdfHandler: the per-statement rewrite that turns the older
 * Wikidata dump shapes into the current one. Legacy ontology namespaces are
 * renamed, characters that are illegal in URIs are deleted or percent-encoded,
 * corrupt numerals are coerced to "0" and globe-qualified WKT literals are
 * retagged. Handing the result to the next handler is left to the caller.
 */
module Normalizer {
  import opened Wrappers
  import opened JavaStrings
  import opened Rdf

  type NonEmptyString = s: string | |s| > 0 witness "#"

  /** Ontology.OLD_NAMESPACE and Ontology.NAMESPACE, whose values are not part of this model. */
  datatype OntologyNamespaces = OntologyNamespaces(oldNamespace: NonEmptyString, namespace: string)

  /** The StringIndexOutOfBoundsException thrown by `substring` in `removeGlobe`. */
  datatype NormalizeError = SubstringOutOfBounds(lexicalForm: string)

  const VersionedMarker := "ontology-0.0.1"
  const BetaMarker := "ontology-beta"
  const CurrentMarker := "ontology"

  // ---------------------------------------------------------------- numerals

  predicate IsDigit(c: char) {
    '0' <= c <= '9'
  }

  predicate IsSign(c: char) {
    c == '+' || c == '-'
  }

  /** The text after an optional leading sign. */
  function Unsigned(s: string): string
    requires |s| > 0
  {
    if IsSign(s[0]) then s[1..] else s
  }

  /** Digits and dots only, with at most one dot. */
  predicate IsNumeralBody(b: string) {
    && (forall k :: 0 <= k < |b| ==> b[k] == '.' || IsDigit(b[k]))
    && (forall j, k :: 0 <= j < k < |b| && b[j] == '.' ==> b[k] != '.')
  }

  /** What `isNumericString` accepts: a non-empty string, an optional sign, then a numeral body. */
  predicate IsNumeral(s: string) {
    |s| > 0 && IsNumeralBody(Unsigned(s))
  }

  /** isNumericString: one scan with a flag for the dot already seen. */
  method IsNumericString(s: string) returns (ok: bool)
    ensures ok == IsNumeral(s)
  {
    if |s| == 0 {
      return false;
    }
    var i := 0;
    var seenDot := false;
    if s[0] == '+' || s[0] == '-' {
      i := i + 1;
    }
    ghost var start := i;
    assert Unsigned(s) == s[start..];
    while i < |s|
      invariant start <= i <= |s|
      invariant forall k :: start <= k < i ==> s[k] == '.' || IsDigit(s[k])
      invariant forall j, k :: start <= j < k < i && s[j] == '.' ==> s[k] != '.'
      invariant seenDot <==> exists k :: start <= k < i && s[k] == '.'
    {
      if s[i] == '.' {
        if seenDot {
          ghost var j :| start <= j < i && s[j] == '.';
          assert Unsigned(s)[j - start] == '.' && Unsigned(s)[i - start] == '.';
          return false;
        }
        seenDot := true;
      } else if s[i] < '0' || s[i] > '9' {
        assert Unsigned(s)[i - start] == s[i];
        return false;
      }
      i := i + 1;
    }
    return true;
  }

  /** The acceptance boundary of the numeral check, including its lenient cases. */
  lemma NumeralExamples()
    ensures !IsNumeral("")
    ensures IsNumeral("+") && IsNumeral("-") && IsNumeral(".")
    ensures IsNumeral("-12.5") && IsNumeral("007")
    ensures !IsNumeral("1.2.3") && !IsNumeral("+-1") && !IsNumeral("1e5") && !IsNumeral(" 1")
  {
    assert Unsigned("1.2.3")[1] == '.' && Unsigned("1.2.3")[3] == '.';
    assert Unsigned("+-1")[0] == '-';
    assert Unsigned("1e5")[1] == 'e';
    assert Unsigned(" 1")[0] == ' ';
  }

  predicate IsNumericDatatype(dt: Uri) {
    dt == XsdDecimal || dt == XsdInteger
  }

  /** fixNumber: a decimal or integer literal that is not a numeral becomes "0" of the same datatype. */
  function FixNumber(lit: Literal): (r: Literal)
    ensures r.dtype == lit.dtype
    ensures r != lit <==> IsNumericDatatype(lit.dtype) && !IsNumeral(lit.lexicalForm)
    ensures r != lit ==> r == Literal("0", lit.dtype, None)
  {
    assert IsNumeral("0");
    if lit.dtype == XsdDecimal && !IsNumeral(lit.lexicalForm) then Literal("0", XsdDecimal, None)
    else if lit.dtype == XsdInteger && !IsNumeral(lit.lexicalForm) then Literal("0", XsdInteger, None)
    else lit
  }

  /** Normalizing a numeral again changes nothing. */
  lemma FixNumberIdempotent(lit: Literal)
    ensures FixNumber(FixNumber(lit)) == FixNumber(lit)
  {
    assert IsNumeral("0");
  }

  // ------------------------------------------------------------ WKT literals

  /** Every "Point" upper-cased. */
  function UpcasePoint(s: string): string {
    ReplaceAll(s, "Point", "POINT")
  }

  /**
   * removeGlobe: a wktLiteral whose label has a '<' loses everything up to two
   * characters after its last '>' and is retagged wktCRSLiteral; any other
   * wktLiteral only gets "Point" upper-cased; other datatypes pass through.
   */
  function RemoveGlobe(lit: Literal): (r: Result<Literal, NormalizeError>)
    ensures lit.dtype != WktLiteral ==> r == Success(lit)
    ensures lit.dtype == WktLiteral && '<' !in lit.lexicalForm ==>
      r == Success(Literal(UpcasePoint(lit.lexicalForm), WktLiteral, None))
    ensures lit.dtype == WktLiteral && '<' in lit.lexicalForm ==>
      (r.Failure? <==> lit.lexicalForm[|lit.lexicalForm| - 1] == '>')
    ensures lit.dtype == WktLiteral && '<' in lit.lexicalForm && r.Success? ==>
      var cut := LastIndexOf(lit.lexicalForm, '>') + 2;
      cut <= |lit.lexicalForm| && r.value == Literal(UpcasePoint(lit.lexicalForm[cut..]), WktCrsLiteral, None)
  {
    if lit.dtype == WktLiteral then
      var lex := lit.lexicalForm;
      if '<' in lex then
        var cut := LastIndexOf(lex, '>') + 2;
        if cut > |lex| then Failure(SubstringOutOfBounds(lex))
        else Success(Literal(UpcasePoint(lex[cut..]), WktCrsLiteral, None))
      else Success(Literal(UpcasePoint(lex), WktLiteral, None))
    else Success(lit)
  }

  /**
   * A `<globe>` prefix and the one character after it are stripped, whatever
   * that character is, provided the rest holds no '>'.
   */
  lemma RemoveGlobeStripsPrefix(globe: string, sep: char, body: string, lang: Option<string>)
    requires sep != '>' && '>' !in body
    ensures RemoveGlobe(Literal("<" + globe + ">" + [sep] + body, WktLiteral, lang))
         == Success(Literal(UpcasePoint(body), WktCrsLiteral, None))
  {
    var lex := "<" + globe + ">" + [sep] + body;
    var gt := |globe| + 1;
    assert lex[0] == '<';
    assert lex[gt] == '>';
    assert lex[gt + 1] == sep;
    assert forall j :: gt + 2 <= j < |lex| ==> lex[j] == body[j - gt - 2];
    assert LastIndexOf(lex, '>') == gt;
    assert lex[gt + 2..] == body;
  }

  // ---------------------------------------------------------- URI characters

  /** The characters the dumps contained although URIs may not. */
  predicate IsUnsafeUriChar(c: char) {
    c == '\n' || c == '|' || c == '\\' || c == '{' || c == '}' || c == '`' || c == '^'
  }

  predicate IsSafeUri(s: string) {
    forall k :: 0 <= k < |s| ==> !IsUnsafeUriChar(s[k])
  }

  /** The replacement StringUtils.replaceEach makes for one character. */
  function EscapeChar(c: char): (r: string)
    ensures IsSafeUri(r)
    ensures r == [c] <==> !IsUnsafeUriChar(c)
    ensures c == '\n' ==> r == ""
  {
    match c
    case '\n' => ""
    case '|' => "%7C"
    case '\\' => "%5C"
    case '{' => "%7B"
    case '}' => "%7D"
    case '`' => "%60"
    case '^' => "%5E"
    case _ => [c]
  }

  /** The escape step of fixUri: every character mapped independently, left to right. */
  function EscapeUri(s: string): string
    decreases |s|
  {
    if s == [] then [] else EscapeChar(s[0]) + EscapeUri(s[1..])
  }

  /** Escaping works character by character: it distributes over concatenation. */
  lemma {:induction false} EscapeUriAppend(a: string, b: string)
    ensures EscapeUri(a + b) == EscapeUri(a) + EscapeUri(b)
    decreases |a|
  {
    if a != [] {
      assert (a + b)[0] == a[0] && (a + b)[1..] == a[1..] + b;
      EscapeUriAppend(a[1..], b);
    } else {
      assert a + b == b;
    }
  }

  /** No unsafe character survives escaping. */
  lemma {:induction false} EscapeUriSafe(s: string)
    ensures IsSafeUri(EscapeUri(s))
    decreases |s|
  {
    if s != [] {
      EscapeUriSafe(s[1..]);
      var head := EscapeChar(s[0]);
      assert IsSafeUri(head);
      var r := EscapeUri(s);
      assert r == head + EscapeUri(s[1..]);
      forall k | 0 <= k < |r|
        ensures !IsUnsafeUriChar(r[k])
      {
        if k >= |head| {
          assert r[k] == EscapeUri(s[1..])[k - |head|];
        }
      }
    }
  }

  /** Escaping leaves a string unchanged exactly when it holds no unsafe character. */
  lemma {:induction false} EscapeUriUnchanged(s: string)
    ensures EscapeUri(s) == s <==> IsSafeUri(s)
    decreases |s|
  {
    EscapeUriSafe(s);
    if s != [] {
      EscapeUriUnchanged(s[1..]);
      if IsSafeUri(s) {
        assert IsSafeUri(s[1..]) by {
          forall k | 0 <= k < |s[1..]|
            ensures !IsUnsafeUriChar(s[1..][k])
          {
            assert s[1..][k] == s[k + 1];
          }
        }
        assert EscapeChar(s[0]) == [s[0]];
        assert [s[0]] + s[1..] == s;
      }
    }
  }

  /** Upper-case hexadecimal digit, as section 2.1 of RFC 3986 recommends. */
  function HexDigit(n: int): char
    requires 0 <= n < 16
  {
    if n < 10 then ('0' as int + n) as char else ('A' as int + n - 10) as char
  }

  /** The percent-encoding of a character below U+0100, by section 2.1 of RFC 3986. */
  function PercentEncode(c: char): string
    requires c as int < 256
  {
    "%" + [HexDigit(c as int / 16), HexDigit(c as int % 16)]
  }

  /** Each unsafe character other than newline becomes its own percent-encoding. */
  lemma EscapeCharIsPercentEncoding(c: char)
    requires IsUnsafeUriChar(c) && c != '\n'
    ensures EscapeChar(c) == PercentEncode(c)
  {
  }

  // ---------------------------------------------------------- namespaces

  /**
   * The namespace step shared by fixUri and handleNamespace: the two legacy
   * markers are renamed everywhere, then, for a string that starts with the old
   * ontology namespace, every occurrence of it is renamed.
   */
  function RewriteNamespaces(ont: OntologyNamespaces, s: string): string {
    var unversioned := ReplaceAll(ReplaceAll(s, VersionedMarker, CurrentMarker), BetaMarker, CurrentMarker);
    if StartsWith(unversioned, ont.oldNamespace)
    then ReplaceAll(unversioned, ont.oldNamespace, ont.namespace)
    else unversioned
  }

  /** Without a marker or the old namespace in front, the namespace step is the identity. */
  lemma RewriteNamespacesUnchanged(ont: OntologyNamespaces, s: string)
    requires !Contains(s, VersionedMarker) && !Contains(s, BetaMarker)
    requires !StartsWith(s, ont.oldNamespace)
    ensures RewriteNamespaces(ont, s) == s
  {
    ReplaceAllAbsent(s, VersionedMarker, CurrentMarker);
    ReplaceAllAbsent(s, BetaMarker, CurrentMarker);
  }

  /** A single versioned marker is renamed and nothing else moves. */
  lemma RewriteSingleVersionedMarker(ont: OntologyNamespaces, a: string, b: string)
    requires forall j :: OccursAt(a + VersionedMarker + b, VersionedMarker, j) ==> j == |a|
    requires !Contains(a + CurrentMarker + b, BetaMarker)
    requires !StartsWith(a + CurrentMarker + b, ont.oldNamespace)
    ensures RewriteNamespaces(ont, a + VersionedMarker + b) == a + CurrentMarker + b
  {
    ReplaceAllOnce(a, VersionedMarker, CurrentMarker, b);
    ReplaceAllAbsent(a + CurrentMarker + b, BetaMarker, CurrentMarker);
  }

  /** A single beta marker is renamed and nothing else moves. */
  lemma RewriteSingleBetaMarker(ont: OntologyNamespaces, a: string, b: string)
    requires !Contains(a + BetaMarker + b, VersionedMarker)
    requires forall j :: OccursAt(a + BetaMarker + b, BetaMarker, j) ==> j == |a|
    requires !StartsWith(a + CurrentMarker + b, ont.oldNamespace)
    ensures RewriteNamespaces(ont, a + BetaMarker + b) == a + CurrentMarker + b
  {
    ReplaceAllAbsent(a + BetaMarker + b, VersionedMarker, CurrentMarker);
    ReplaceAllOnce(a, BetaMarker, CurrentMarker, b);
  }

  /**
   * A marker-free string that starts with the old namespace has that prefix,
   * and every later occurrence, renamed.
   */
  lemma RewriteOldNamespaceInFront(ont: OntologyNamespaces, rest: string)
    requires !Contains(ont.oldNamespace + rest, VersionedMarker) && !Contains(ont.oldNamespace + rest, BetaMarker)
    ensures RewriteNamespaces(ont, ont.oldNamespace + rest)
      == ont.namespace + ReplaceAll(rest, ont.oldNamespace, ont.namespace)
    ensures !Contains(rest, ont.oldNamespace) ==>
      RewriteNamespaces(ont, ont.oldNamespace + rest) == ont.namespace + rest
  {
    var s := ont.oldNamespace + rest;
    ReplaceAllAbsent(s, VersionedMarker, CurrentMarker);
    ReplaceAllAbsent(s, BetaMarker, CurrentMarker);
    assert s[..|ont.oldNamespace|] == ont.oldNamespace;
    ReplaceAllAtStart(s, ont.oldNamespace, ont.namespace);
    assert s[|ont.oldNamespace|..] == rest;
    if !Contains(rest, ont.oldNamespace) {
      ReplaceAllAbsent(rest, ont.oldNamespace, ont.namespace);
    }
  }

  /**
   * A marker-free string that holds the old namespace, but not in front,
   * keeps it: the renaming applies only to strings that start with it.
   */
  lemma OldNamespaceKeptOffFront(ont: OntologyNamespaces, a: string, b: string)
    requires !Contains(a + ont.oldNamespace + b, VersionedMarker) && !Contains(a + ont.oldNamespace + b, BetaMarker)
    requires !StartsWith(a + ont.oldNamespace + b, ont.oldNamespace)
    ensures RewriteNamespaces(ont, a + ont.oldNamespace + b) == a + ont.oldNamespace + b
    ensures Contains(RewriteNamespaces(ont, a + ont.oldNamespace + b), ont.oldNamespace)
  {
    var s := a + ont.oldNamespace + b;
    RewriteNamespacesUnchanged(ont, s);
    assert s[|a|..|a| + |ont.oldNamespace|] == ont.oldNamespace;
    assert OccursAt(s, ont.oldNamespace, |a|);
  }

  /** fixUri, as a function of the URI: the namespace step, then the escape step. */
  function FixedUri(ont: OntologyNamespaces, u: Uri): Uri {
    Uri(EscapeUri(RewriteNamespaces(ont, u.text)))
  }

  /** A fixed URI never holds an unsafe character. */
  lemma FixedUriSafe(ont: OntologyNamespaces, u: Uri)
    ensures IsSafeUri(FixedUri(ont, u).text)
  {
    EscapeUriSafe(RewriteNamespaces(ont, u.text));
  }

  /**
   * A URI with no marker and no old namespace in front is kept exactly when it
   * holds no unsafe character.
   */
  lemma FixedUriUnchanged(ont: OntologyNamespaces, u: Uri)
    requires !Contains(u.text, VersionedMarker) && !Contains(u.text, BetaMarker)
    requires !StartsWith(u.text, ont.oldNamespace)
    ensures FixedUri(ont, u) == u <==> IsSafeUri(u.text)
  {
    RewriteNamespacesUnchanged(ont, u.text);
    EscapeUriUnchanged(u.text);
  }

  /** fixUri: the URI is reassigned step by step, each step guarded as in the source. */
  method FixUri(ont: OntologyNamespaces, u: Uri) returns (r: Uri)
    ensures r == FixedUri(ont, u)
  {
    r := u;
    if Contains(r.text, VersionedMarker) {
      r := Uri(ReplaceAll(r.text, VersionedMarker, CurrentMarker));
    } else {
      ReplaceAllAbsent(r.text, VersionedMarker, CurrentMarker);
    }
    if Contains(r.text, BetaMarker) {
      r := Uri(ReplaceAll(r.text, BetaMarker, CurrentMarker));
    } else {
      ReplaceAllAbsent(r.text, BetaMarker, CurrentMarker);
    }
    if StartsWith(r.text, ont.oldNamespace) {
      r := Uri(ReplaceAll(r.text, ont.oldNamespace, ont.namespace));
    }
    var fixed := EscapeUri(r.text);
    if fixed != r.text {
      r := Uri(fixed);
    } else {
      assert r == Uri(fixed);
    }
  }

  /**
   * handleNamespace: the namespace step on the declared URI, without the
   * escape step; the prefix is passed on unchanged.
   */
  method HandleNamespace(ont: OntologyNamespaces, prefix: string, uri: string)
    returns (outPrefix: string, outUri: string)
    ensures outPrefix == prefix
    ensures outUri == RewriteNamespaces(ont, uri)
  {
    outPrefix := prefix;
    outUri := uri;
    if Contains(outUri, VersionedMarker) {
      outUri := ReplaceAll(outUri, VersionedMarker, CurrentMarker);
    } else {
      ReplaceAllAbsent(outUri, VersionedMarker, CurrentMarker);
    }
    if Contains(outUri, BetaMarker) {
      outUri := ReplaceAll(outUri, BetaMarker, CurrentMarker);
    } else {
      ReplaceAllAbsent(outUri, BetaMarker, CurrentMarker);
    }
    if StartsWith(outUri, ont.oldNamespace) {
      outUri := ReplaceAll(outUri, ont.oldNamespace, ont.namespace);
    }
  }

  /** Namespace declarations keep the characters that fixUri would escape. */
  lemma NamespaceKeepsUnsafeChars(ont: OntologyNamespaces)
    requires !StartsWith("a|b", ont.oldNamespace)
    ensures RewriteNamespaces(ont, "a|b") == "a|b"
    ensures FixedUri(ont, Uri("a|b")) == Uri("a%7Cb")
  {
    RewriteNamespacesUnchanged(ont, "a|b");
    assert EscapeUri("a|b") == "a" + EscapeUri("|b");
  }

  // ---------------------------------------------------------- statements

  /** The object after fixNumber and removeGlobe, or the error removeGlobe throws. */
  function FixedLiteral(lit: Literal): Result<Literal, NormalizeError> {
    RemoveGlobe(FixNumber(lit))
  }

  /**
   * handleStatement: a URI subject and the predicate go through fixUri, a URI
   * object through fixUri, a literal object through fixNumber then removeGlobe;
   * blank nodes pass through. A statement none of whose parts change is
   * passed on as the same statement.
   */
  method HandleStatement(ont: OntologyNamespaces, st: Statement) returns (r: Result<Statement, NormalizeError>)
    ensures r.Failure? <==> st.obj.LiteralValue? && FixedLiteral(st.obj.literal).Failure?
    ensures r.Success? ==> r.value.pred == FixedUri(ont, st.pred)
    ensures r.Success? ==> r.value.subj == match st.subj
      case UriResource(u) => UriResource(FixedUri(ont, u))
      case BNode(_) => st.subj
    ensures r.Success? ==> r.value.obj == match st.obj
      case UriValue(u) => UriValue(FixedUri(ont, u))
      case BNodeValue(_) => st.obj
      case LiteralValue(lit) => LiteralValue(FixedLiteral(lit).value)
    ensures (st.subj.UriResource? ==> FixedUri(ont, st.subj.uri) == st.subj.uri)
         && FixedUri(ont, st.pred) == st.pred
         && (st.obj.UriValue? ==> FixedUri(ont, st.obj.uri) == st.obj.uri)
         && (st.obj.LiteralValue? ==> FixedLiteral(st.obj.literal) == Success(st.obj.literal))
         ==> r == Success(st)
  {
    var subj := st.subj;
    var pred := st.pred;
    var obj := st.obj;

    if subj.UriResource? {
      var fixed := FixUri(ont, subj.uri);
      subj := UriResource(fixed);
    }
    pred := FixUri(ont, pred);
    if obj.UriValue? {
      var fixed := FixUri(ont, obj.uri);
      obj := UriValue(fixed);
    } else if obj.LiteralValue? {
      var numeric := FixNumber(obj.literal);
      var globeless := RemoveGlobe(numeric);
      if globeless.Failure? {
        return Failure(globeless.error);
      }
      obj := LiteralValue(globeless.value);
    }
    r := Success(Statement(subj, pred, obj));
  }
}
