/**
 * WikibasePoint: a coordinate point read from and written as a WKT literal,
 * optionally preceded by the URI of the globe it lies on. Coordinates are kept
 * as the strings they were written as.
 */
module WikibasePoints {
  import opened Wrappers
  import opened JavaStrings

  /** Which coordinate is written first. */
  datatype CoordinateOrder = LatLong | LongLat {
    /** `other`: the opposite order. */
    function Other(): (r: CoordinateOrder)
      ensures r != this
    {
      if this == LatLong then LongLat else LatLong
    }
  }

  /** DEFAULT_ORDER */
  const DefaultOrder: CoordinateOrder := LatLong

  datatype Point = Point(longitude: string, latitude: string, globe: Option<string>) {
    /** The coordinate written first in `order`. */
    function Leading(order: CoordinateOrder): string {
      if order == LatLong then latitude else longitude
    }

    /** The coordinate written second in `order`. */
    function Trailing(order: CoordinateOrder): string {
      if order == LatLong then longitude else latitude
    }
  }

  /**
   * The two ways the parsing constructor fails: IllegalArgumentException for a
   * malformed literal, StringIndexOutOfBoundsException where `charAt` or
   * `substring` run past the end of the text.
   */
  datatype PointError = InvalidFormat | IndexOutOfBounds

  /** The components constructor: the first component is written first in `order`. */
  function FromComponents(components: seq<string>, globe: Option<string>, order: CoordinateOrder): (p: Point)
    requires |components| >= 2
    ensures p.Leading(order) == components[0] && p.Trailing(order) == components[1]
    ensures p.globe == globe
  {
    if order == LatLong then Point(components[1], components[0], globe)
    else Point(components[0], components[1], globe)
  }

  /** Text that starts with "point(" in any case and ends with ')' has room for both. */
  lemma PointShapeLength(t: string)
    requires StartsWith(ToLowerAscii(t), "point(") && EndsWith(t, ")")
    ensures |t| >= 7
  {
    assert LowerAscii(t[5]) == '(';
    assert t[|t| - 1] == ')';
  }

  /**
   * The part of the parsing constructor after the globe: the trimmed text
   * must read "point(" in any case, end with ')', and hold exactly two
   * coordinates separated by whitespace or commas.
   */
  function ParseWkt(rest: string, globe: Option<string>, order: CoordinateOrder): (r: Result<Point, PointError>)
    ensures r.Failure? ==> r.error == InvalidFormat
    ensures r.Success? <==>
      var t := Trim(rest);
      StartsWith(ToLowerAscii(t), "point(") && EndsWith(t, ")") && |t| >= 7 && |Split(t[6..|t| - 1])| == 2
    ensures r.Success? ==>
      var t := Trim(rest);
      |t| >= 7 && Split(t[6..|t| - 1]) == [r.value.Leading(order), r.value.Trailing(order)]
      && r.value.globe == globe
  {
    var t := Trim(rest);
    if !StartsWith(ToLowerAscii(t), "point(") || !EndsWith(t, ")") then Failure(InvalidFormat)
    else
      PointShapeLength(t);
      var coords := Split(t[6..|t| - 1]);
      if |coords| != 2 then Failure(InvalidFormat)
      else Success(FromComponents(coords, globe, order))
  }

  /**
   * The parsing constructor. A leading '<' opens a globe that runs to the first
   * '>' and must be at least two characters long; the one character after the
   * '>' is skipped, whatever it is. Text without a leading '<' has no globe.
   */
  function Parse(s: string, order: CoordinateOrder): (r: Result<Point, PointError>)
    ensures s == [] ==> r == Failure(IndexOutOfBounds)
    ensures s != [] && s[0] == '<' && '>' !in s ==> r == Failure(InvalidFormat)
    ensures |s| >= 2 && s[0] == '<' && s[1] == '>' ==> r == Failure(InvalidFormat)
    ensures |s| >= 3 && s[0] == '<' && s[2] == '>' ==> r == Failure(InvalidFormat)
    ensures r.Success? ==> s != [] && (r.value.globe.Some? <==> s[0] == '<')
    ensures r.Success? && r.value.globe.Some? ==>
      var g := r.value.globe.value;
      |g| >= 2 && '>' !in g && StartsWith(s, "<" + g + ">")
    ensures s != [] && s[0] != '<' ==> r == ParseWkt(s, None, order)
  {
    if s == [] then Failure(IndexOutOfBounds)
    else if s[0] == '<' then
      var endUri := IndexOf(s, '>');
      if endUri <= 2 then Failure(InvalidFormat)
      else if endUri + 2 > |s| then Failure(IndexOutOfBounds)
      else
        GlobeSlice(s, endUri);
        ParseWkt(s[endUri + 2..], Some(s[1..endUri]), order)
    else ParseWkt(s, None, order)
  }

  /** A literal that ends right after a globe of two or more characters
      indexes past its end, as the code's substring call does. */
  lemma ParseEndsAtGlobe(g: string, order: CoordinateOrder)
    requires |g| >= 2 && '>' !in g
    ensures Parse("<" + g + ">", order) == Failure(IndexOutOfBounds)
  {
    var s := "<" + g + ">";
    assert s[|s| - 1] == '>';
    assert forall j :: 0 <= j < |s| - 1 ==> s[j] != '>' by {
      forall j | 0 <= j < |s| - 1 ensures s[j] != '>' {
        if j > 0 { assert s[j] == g[j - 1]; }
      }
    }
    assert IndexOf(s, '>') == |s| - 1;
  }

  /** The globe cut out by the parsing constructor: the text between '<' and the first '>'. */
  lemma GlobeSlice(s: string, endUri: int)
    requires s != [] && s[0] == '<' && endUri == IndexOf(s, '>') && endUri > 2
    ensures var g := s[1..endUri];
      |g| >= 2 && '>' !in g && StartsWith(s, "<" + g + ">")
  {
    var g := s[1..endUri];
    assert forall k :: 0 <= k < |g| ==> g[k] == s[k + 1];
    assert s[..endUri + 1] == "<" + g + ">";
  }

  /** `toOrder`: the point as "POINT(a b)" in `order`, or null for a point on a globe. */
  function ToOrder(p: Point, order: CoordinateOrder): (r: Option<string>)
    ensures r.None? <==> p.globe.Some?
    ensures r.Some? ==> r.value == "POINT(" + p.Leading(order) + " " + p.Trailing(order) + ")"
  {
    if p.globe.Some? then None
    else if order == LatLong then Some("POINT(" + p.latitude + " " + p.longitude + ")")
    else Some("POINT(" + p.longitude + " " + p.latitude + ")")
  }

  /** `toString`: latitude first. */
  function ToString(p: Point): (r: Option<string>)
    ensures r.None? <==> p.globe.Some?
    ensures r.Some? ==> r.value == "POINT(" + p.latitude + " " + p.longitude + ")"
  {
    ToOrder(p, DefaultOrder)
  }

  // ------------------------------------------------------------ properties

  /** After a well-formed globe, the one character that follows it is skipped unread. */
  lemma ParseSkipsOneChar(g: string, sep: char, body: string, order: CoordinateOrder)
    requires |g| >= 2 && '>' !in g
    ensures Parse("<" + g + ">" + [sep] + body, order) == ParseWkt(body, Some(g), order)
  {
    var s := "<" + g + ">" + [sep] + body;
    var gt := |g| + 1;
    assert s[gt] == '>';
    assert forall j :: 0 < j < gt ==> s[j] == g[j - 1];
    assert IndexOf(s, '>') == gt;
    assert s[1..gt] == g;
    assert s[gt + 2..] == body;
  }

  /** Reading with the other order finds the same point with its coordinates swapped. */
  lemma ParseOtherOrder(s: string, order: CoordinateOrder)
    ensures Parse(s, order.Other()).Success? == Parse(s, order).Success?
    ensures Parse(s, order).Success? ==>
      var p := Parse(s, order).value;
      var q := Parse(s, order.Other()).value;
      q.latitude == p.longitude && q.longitude == p.latitude && q.globe == p.globe
  {
  }

  /** "POINT(c)" is accepted exactly when c splits into two coordinates. */
  lemma ParseWktPointText(c: string, globe: Option<string>, order: CoordinateOrder)
    ensures ParseWkt("POINT(" + c + ")", globe, order).Success? <==> |Split(c)| == 2
    ensures |Split(c)| == 2 ==> ParseWkt("POINT(" + c + ")", globe, order) == Success(FromComponents(Split(c), globe, order))
  {
    var t := "POINT(" + c + ")";
    assert t[0] == 'P' && t[|t| - 1] == ')';
    assert Trim(t) == t;
    assert t[..6] == "POINT(";
    assert ToLowerAscii(t)[..6] == "point(";
    assert t[6..|t| - 1] == c;
  }

  /**
   * "POINT(a b)" read in `order` and written back in `order` is the same text,
   * and written in the other order has the coordinates swapped. A leading
   * empty coordinate survives the split; a trailing one would not.
   */
  lemma ParseThenWrite(a: string, b: string, order: CoordinateOrder)
    requires NoSplitChar(a) && NoSplitChar(b) && b != ""
    ensures var s := "POINT(" + a + " " + b + ")";
      && Parse(s, order) == Success(FromComponents([a, b], None, order))
      && ToOrder(Parse(s, order).value, order) == Some(s)
      && ToOrder(Parse(s, order).value, order.Other()) == Some("POINT(" + b + " " + a + ")")
  {
    var s := "POINT(" + a + " " + b + ")";
    var c := a + [' '] + b;
    assert s == "POINT(" + c + ")";
    assert s[0] == 'P';
    SplitTwo(a, ' ', b);
    ParseWktPointText(c, None, order);
  }

  /** Writing a point without a globe and reading it back in the same order gives the point. */
  lemma WriteThenParse(p: Point, order: CoordinateOrder)
    requires p.globe.None?
    requires NoSplitChar(p.latitude) && NoSplitChar(p.longitude)
    requires p.Trailing(order) != ""
    ensures Parse(ToOrder(p, order).value, order) == Success(p)
  {
    ParseThenWrite(p.Leading(order), p.Trailing(order), order);
  }

  /** Components given latitude first and written in either order, as the source's tests show. */
  lemma ComponentsThenWrite(lat: string, long: string)
    ensures ToOrder(FromComponents([lat, long], None, LatLong), LatLong) == Some("POINT(" + lat + " " + long + ")")
    ensures ToOrder(FromComponents([lat, long], None, LatLong), LongLat) == Some("POINT(" + long + " " + lat + ")")
  {
  }

  /** The globe is carried through the rest of the parse untouched. */
  lemma ParseWktWithGlobe(rest: string, g: string, order: CoordinateOrder)
    ensures ParseWkt(rest, Some(g), order) == match ParseWkt(rest, None, order)
      case Success(p) => Success(p.(globe := Some(g)))
      case Failure(e) => Failure(e)
  {
  }

  /** The accepted literals without a globe from the source's tests. */
  lemma ParsePlainExamples()
    ensures Parse("POINT(12.34 56.98)", DefaultOrder) == Success(Point("56.98", "12.34", None))
    ensures Parse("POINT(12.34 56.98)", LongLat) == Success(Point("12.34", "56.98", None))
    ensures ToString(Parse("POINT(12.34 56.98)", DefaultOrder).value) == Some("POINT(12.34 56.98)")
  {
    assert NoSplitChar("12.34") && NoSplitChar("56.98");
    assert "POINT(" + "12.34" + " " + "56.98" + ")" == "POINT(12.34 56.98)";
    ParseThenWrite("12.34", "56.98", LatLong);
    ParseThenWrite("12.34", "56.98", LongLat);
  }

  /*
   * GlobeTextShape, MoonText, MarsText, MissingSpaceText, OneCoordinateText and
   * ThreeCoordinatesText only regroup string concatenations. They are proof
   * aids: stated on their own, the equality of two literals is checked once
   * instead of being unfolded inside the lemma that uses it.
   */
  lemma GlobeTextShape(g: string, a: string, b: string)
    ensures "<" + g + "> POINT(" + a + " " + b + ")" == "<" + g + ">" + [' '] + ("POINT(" + a + " " + b + ")")
  {
  }

  /**
   * "<g> POINT(a b)" is read with globe g and the coordinates in `order`, and
   * such a point has no plain WKT form.
   */
  lemma ParseGlobeThenWrite(g: string, a: string, b: string, order: CoordinateOrder)
    requires |g| >= 2 && '>' !in g
    requires NoSplitChar(a) && NoSplitChar(b) && b != ""
    ensures var s := "<" + g + "> POINT(" + a + " " + b + ")";
      && Parse(s, order) == Success(FromComponents([a, b], Some(g), order))
      && ToOrder(Parse(s, order).value, order) == None
  {
    var body := "POINT(" + a + " " + b + ")";
    GlobeTextShape(g, a, b);
    ParseSkipsOneChar(g, ' ', body, order);
    ParseThenWrite(a, b, order);
    assert body[0] == 'P';
    assert Parse(body, order) == ParseWkt(body, None, order);
    ParseWktWithGlobe(body, g, order);
  }

  lemma MoonText()
    ensures "<" + "On the Moon" + "> POINT(" + "12.34" + " " + "56.98" + ")" == "<On the Moon> POINT(12.34 56.98)"
  {
  }

  /** "<On the Moon> POINT(12.34 56.98)" lies on the Moon and has no plain WKT form. */
  lemma ParseMoonExample()
    ensures Parse("<On the Moon> POINT(12.34 56.98)", DefaultOrder) == Success(Point("56.98", "12.34", Some("On the Moon")))
    ensures ToString(Parse("<On the Moon> POINT(12.34 56.98)", DefaultOrder).value) == None
  {
    assert '>' !in "On the Moon";
    assert NoSplitChar("12.34") && NoSplitChar("56.98");
    MoonText();
    ParseGlobeThenWrite("On the Moon", "12.34", "56.98", LatLong);
  }

  lemma MarsText()
    ensures "<" + "On Mars" + "> POINT(" + "12.34" + " " + "56.98" + ")" == "<On Mars> POINT(12.34 56.98)"
  {
  }

  /** "<On Mars> POINT(12.34 56.98)" read longitude first. */
  lemma ParseMarsExample()
    ensures Parse("<On Mars> POINT(12.34 56.98)", LongLat) == Success(Point("12.34", "56.98", Some("On Mars")))
  {
    assert '>' !in "On Mars";
    assert NoSplitChar("12.34") && NoSplitChar("56.98");
    MarsText();
    ParseGlobeThenWrite("On Mars", "12.34", "56.98", LongLat);
  }

  /**
   * Text with nothing to trim whose k-th character, in lower case, differs
   * from the k-th character of "point(" is rejected.
   */
  lemma RejectsKeywordMismatch(rest: string, k: nat, globe: Option<string>, order: CoordinateOrder)
    requires |rest| > 0 && !IsTrimmed(rest[0]) && !IsTrimmed(rest[|rest| - 1])
    requires k < 6 && k < |rest| && LowerAscii(rest[k]) != "point("[k]
    ensures ParseWkt(rest, globe, order) == Failure(InvalidFormat)
  {
    assert Trim(rest) == rest;
    assert ToLowerAscii(rest)[k] == LowerAscii(rest[k]);
  }

  /** "Points(12.34,56.98)": the keyword is not followed by '('. */
  lemma RejectsWrongKeyword()
    ensures Parse("Points(12.34,56.98)", DefaultOrder) == Failure(InvalidFormat)
  {
    RejectsKeywordMismatch("Points(12.34,56.98)", 5, None, DefaultOrder);
  }

  /** "On Mars> POINT(12.34 56.98)": without a leading '<' the globe text is read as the keyword. */
  lemma RejectsUnopenedGlobe()
    ensures Parse("On Mars> POINT(12.34 56.98)", DefaultOrder) == Failure(InvalidFormat)
  {
    RejectsKeywordMismatch("On Mars> POINT(12.34 56.98)", 0, None, DefaultOrder);
  }

  /** "<On the Moon POINT(12.34 56.98)": the globe is never closed. */
  lemma RejectsUnclosedGlobe()
    ensures Parse("<On the Moon POINT(12.34 56.98)", DefaultOrder) == Failure(InvalidFormat)
  {
    assert '>' !in "<On the Moon POINT(12.34 56.98)";
  }

  /** A globe followed by text that the rest of the parse rejects is rejected. */
  lemma RejectsAfterGlobe(g: string, sep: char, body: string, order: CoordinateOrder)
    requires |g| >= 2 && '>' !in g
    requires ParseWkt(body, Some(g), order).Failure?
    ensures Parse("<" + g + ">" + [sep] + body, order) == Failure(InvalidFormat)
  {
    ParseSkipsOneChar(g, sep, body, order);
  }

  lemma KeywordMissingItsP()
    ensures ParseWkt("OINT(12.34 56.98)", Some("On Mars"), DefaultOrder).Failure?
  {
    RejectsKeywordMismatch("OINT(12.34 56.98)", 0, Some("On Mars"), DefaultOrder);
  }

  lemma MissingSpaceText()
    ensures "<" + "On Mars" + ">" + ['P'] + "OINT(12.34 56.98)" == "<On Mars>POINT(12.34 56.98)"
  {
  }

  /** "<On Mars>POINT(12.34 56.98)": the skipped character is the 'P' of the keyword. */
  lemma RejectsMissingSpace()
    ensures Parse("<On Mars>POINT(12.34 56.98)", DefaultOrder) == Failure(InvalidFormat)
  {
    MissingSpaceText();
    KeywordMissingItsP();
    assert '>' !in "On Mars";
    RejectsAfterGlobe("On Mars", 'P', "OINT(12.34 56.98)", DefaultOrder);
  }

  /** A point with a globe and a single coordinate is rejected. */
  lemma RejectsSingleCoordinate(g: string, a: string, order: CoordinateOrder)
    requires |g| >= 2 && '>' !in g && NoSplitChar(a)
    ensures Parse("<" + g + ">" + [' '] + ("POINT(" + a + ")"), order) == Failure(InvalidFormat)
  {
    ParseWktPointText(a, Some(g), order);
    assert Split(a) == [a];
    RejectsAfterGlobe(g, ' ', "POINT(" + a + ")", order);
  }

  /** A point with a globe and three coordinates is rejected. */
  lemma RejectsTripleCoordinate(g: string, a: string, b: string, c: string, order: CoordinateOrder)
    requires |g| >= 2 && '>' !in g
    requires NoSplitChar(a) && NoSplitChar(b) && NoSplitChar(c) && c != ""
    ensures Parse("<" + g + ">" + [' '] + ("POINT(" + (a + [' '] + b + [' '] + c) + ")"), order) == Failure(InvalidFormat)
  {
    ParseWktPointText(a + [' '] + b + [' '] + c, Some(g), order);
    SplitThree(a, ' ', b, ' ', c);
    RejectsAfterGlobe(g, ' ', "POINT(" + (a + [' '] + b + [' '] + c) + ")", order);
  }

  lemma OneCoordinateText()
    ensures "<" + "On Mars" + ">" + [' '] + ("POINT(" + "12.34" + ")") == "<On Mars> POINT(12.34)"
  {
  }

  /** "<On Mars> POINT(12.34)": one coordinate is too few. */
  lemma RejectsOneCoordinate()
    ensures Parse("<On Mars> POINT(12.34)", DefaultOrder) == Failure(InvalidFormat)
  {
    assert '>' !in "On Mars";
    assert NoSplitChar("12.34");
    RejectsSingleCoordinate("On Mars", "12.34", DefaultOrder);
    OneCoordinateText();
  }

  lemma ThreeCoordinatesText()
    ensures "<" + "On Mars" + ">" + [' '] + ("POINT(" + ("12.34" + [' '] + "5.6" + [' '] + "7.8") + ")")
      == "<On Mars> POINT(12.34 5.6 7.8)"
  {
  }

  /** "<On Mars> POINT(12.34 5.6 7.8)": three coordinates are too many. */
  lemma RejectsThreeCoordinates()
    ensures Parse("<On Mars> POINT(12.34 5.6 7.8)", DefaultOrder) == Failure(InvalidFormat)
  {
    assert '>' !in "On Mars";
    assert NoSplitChar("12.34") && NoSplitChar("5.6") && NoSplitChar("7.8");
    RejectsTripleCoordinate("On Mars", "12.34", "5.6", "7.8", DefaultOrder);
    ThreeCoordinatesText();
  }
}
