/** Which texts the number parser accepts, what it returns for them, and with which
    error it refuses the others, told from how the text is put together. */
module NumberShapes {
  import opened ParseScaled

  /** Every text is a decimal, or stops being one at some character: before any point,
      or behind the first. */
  datatype Shape =
    | Decimal(sign: string, whole: string, point: bool, fraction: string)
    | BadWhole(sign: string, whole: string, bad: char, tail: string)
    | BadFraction(sign: string, whole: string, fraction: string, bad: char, tail: string)

  predicate IsSign(c: char) {
    c == '+' || c == '-'
  }

  ghost predicate Proper(h: Shape) {
    && (h.sign == "" || h.sign == "+" || h.sign == "-") && AllDigits(h.whole)
    && match h
       case Decimal(_, _, point, fraction) => AllDigits(fraction) && (!point ==> fraction == [])
       case BadWhole(sign, whole, bad, _) =>
         !IsDigit(bad) && bad != '.' && (sign == "" && whole == [] ==> !IsSign(bad))
       case BadFraction(_, _, fraction, bad, _) => AllDigits(fraction) && !IsDigit(bad)
  }

  function Unsigned(h: Shape): string {
    h.whole +
    match h
    case Decimal(_, _, point, fraction) => if point then "." + fraction else []
    case BadWhole(_, _, bad, tail) => [bad] + tail
    case BadFraction(_, _, fraction, bad, tail) => "." + (fraction + [bad] + tail)
  }

  function Text(h: Shape): string {
    h.sign + Unsigned(h)
  }

  // ---------------------------------------------------- reading a shape back

  lemma SignOf(sign: string, body: string)
    requires sign == "" || sign == "+" || sign == "-"
    requires sign == "" && body != [] ==> !IsSign(body[0])
    ensures Body(sign + body) == body && (Negative(sign + body) <==> sign == "-")
  {
    assert sign == "" ==> sign + body == body;
    assert sign != "" ==> (sign + body)[0] == sign[0] && (sign + body)[1..] == body;
  }

  lemma UnsignedStart(h: Shape)
    requires Proper(h)
    ensures h.sign == "" && Unsigned(h) != [] ==> !IsSign(Unsigned(h)[0])
  {
    if h.whole != [] {
      assert Unsigned(h)[0] == h.whole[0];
      assert IsDigit(h.whole[0]);
    }
  }

  /** Digits and then a point, or the end. */
  lemma WholeOf(whole: string, fraction: string)
    requires AllDigits(whole)
    ensures Whole(whole + ("." + fraction)) == whole && Fraction(whole + ("." + fraction)) == fraction
    ensures Whole(whole) == whole && Fraction(whole) == []
  {
    hide Whole;
    forall i | 0 <= i < |whole|
      ensures whole[i] != '.'
    {
      assert IsDigit(whole[i]);
    }
    var body := whole + ("." + fraction);
    WholeIs(body, |whole|);
    assert body[..|whole|] == whole && body[|whole| + 1..] == fraction;
    WholeIs(whole, |whole|);
    assert whole[..|whole|] == whole;
  }

  lemma BadWholeOf(whole: string, bad: char, tail: string)
    requires AllDigits(whole) && !IsDigit(bad) && bad != '.'
    ensures var body := whole + ([bad] + tail);
      !AllDigits(Whole(body)) && Leading(Whole(body)) == whole
  {
    hide Whole, Leading;
    var body := whole + ([bad] + tail);
    forall i | 0 <= i <= |whole|
      ensures body[i] != '.'
    {
      if i < |whole| {
        assert body[i] == whole[i] && IsDigit(whole[i]);
      }
    }
    WholeReaches(body, |whole|);
    var w := Whole(body);
    assert w[|whole|] == body[|whole|] == bad;
    assert w[..|whole|] == body[..|whole|] == whole;
    LeadingIs(w, |whole|);
  }

  lemma BadFractionOf(fraction: string, bad: char, tail: string, decimals: nat)
    requires AllDigits(fraction) && !IsDigit(bad)
    ensures var f := fraction + [bad] + tail;
      && !AllDigits(f)
      && (AllDigits(KeptOf(f, decimals)) <==> decimals <= |fraction|)
      && Leading(KeptOf(f, decimals)) == KeptOf(fraction, decimals)
  {
    hide Leading;
    var f := fraction + [bad] + tail;
    var kept := KeptOf(f, decimals);
    assert f[|fraction|] == bad;
    if decimals <= |fraction| {
      assert kept == fraction[..decimals];
      LeadingOfDigits(kept);
    } else {
      assert kept[|fraction|] == bad;
      assert kept[..|fraction|] == fraction;
      LeadingIs(kept, |fraction|);
    }
  }

  // ------------------------------------------------------------ what is parsed

  /** A text refused before any point. */
  lemma RefusedWhole(h: Shape, decimals: nat)
    requires Proper(h) && h.BadWhole?
    ensures Parse(Text(h), decimals) == Err(InvalidDigit) && Taken(Text(h), decimals) == h.whole
  {
    hide Whole, Leading, DigitsValue, Fraction, Body, AllDigits;
    UnsignedStart(h);
    SignOf(h.sign, Unsigned(h));
    BadWholeOf(h.whole, h.bad, h.tail);
  }

  /** A text refused behind its first point: among the digits asked for, or later. */
  lemma RefusedFraction(h: Shape, decimals: nat)
    requires Proper(h) && h.BadFraction?
    ensures Parse(Text(h), decimals) == Err(if |h.fraction| < decimals then InvalidDigit else InvalidTrailing)
    ensures Taken(Text(h), decimals) == h.whole + KeptOf(h.fraction, decimals)
  {
    hide Whole, Leading, DigitsValue, Fraction, Body, AllDigits, KeptOf;
    UnsignedStart(h);
    SignOf(h.sign, Unsigned(h));
    WholeOf(h.whole, h.fraction + [h.bad] + h.tail);
    BadFractionOf(h.fraction, h.bad, h.tail, decimals);
    assert h.whole + KeptOf(h.fraction, decimals) + [] == h.whole + KeptOf(h.fraction, decimals);
  }

  lemma DecimalParts(h: Shape)
    requires Proper(h) && h.Decimal?
    ensures Body(Text(h)) == Unsigned(h) && (Negative(Text(h)) <==> h.sign == "-")
    ensures Whole(Unsigned(h)) == h.whole && Fraction(Unsigned(h)) == h.fraction
  {
    hide Whole, Fraction, Body, AllDigits;
    UnsignedStart(h);
    SignOf(h.sign, Unsigned(h));
    WholeOf(h.whole, h.fraction);
    assert h.whole + [] == h.whole;
  }

  /** A decimal has a digit that counts: one before the point, or one behind it if any
      of those are asked for. */
  predicate HasDigit(h: Shape, decimals: nat) {
    h.whole != [] || (decimals > 0 && h.Decimal? && h.fraction != [])
  }

  /** A decimal is accepted exactly when it has a digit that counts. */
  lemma DecimalAccepted(h: Shape, decimals: nat)
    requires Proper(h) && h.Decimal?
    ensures if HasDigit(h, decimals) then Parse(Text(h), decimals).Ok?
            else Parse(Text(h), decimals) == Err(if Text(h) == [] then EmptyNumber else NoDigits)
    ensures HasDigit(h, decimals) ==>
              Taken(Text(h), decimals)
              == h.whole + KeptOf(h.fraction, decimals) + Zeros(decimals - |KeptOf(h.fraction, decimals)|)
  {
    hide Whole, Leading, DigitsValue, Fraction, Body, AllDigits, Zeros, Negative;
    DecimalParts(h);
    var kept := KeptOf(h.fraction, decimals);
    PrefixDigits(h.fraction, decimals);
    LeadingOfDigits(kept);
    if h.whole != [] {
      assert Text(h)[|h.sign|] == h.whole[0];
    }
  }

  lemma PrefixDigits(s: string, n: nat)
    requires AllDigits(s)
    ensures AllDigits(KeptOf(s, n))
  {
  }

  /** Its value: the digits as an integer, scaled and rounded down, with its sign. */
  lemma DecimalValue(h: Shape, decimals: nat)
    requires Proper(h) && h.Decimal? && HasDigit(h, decimals)
    ensures Parse(Text(h), decimals).Ok?
    ensures var v := Parse(Text(h), decimals).value;
            var magnitude := if h.sign == "-" then -v else v;
      magnitude >= 0
      && IsFloor(magnitude, DigitsValue(h.whole + h.fraction) * Pow10(decimals), Pow10(|h.fraction|))
  {
    hide Whole, DigitsValue, Fraction, Body, AllDigits, Parse, IsFloor, Pow10, HasDigit, Negative;
    DecimalAccepted(h, decimals);
    DecimalParts(h);
    ScalingIsExact(Text(h), decimals);
  }

  /** Every text has one of the shapes, so that the laws above decide all. */
  lemma EveryTextHasShape(text: string)
    ensures exists h :: Proper(h) && Text(h) == text
  {
    hide Leading, Proper, Unsigned, AllDigits;
    var sign := if Signed(text) then text[..1] else "";
    var body := Body(text);
    LeadingStops(body);
    var w := Leading(body);
    SignSplits(text);
    if |w| < |body| && body[|w|] == '.' {
      PointShape(sign, w, body);
      var h :| Proper(h) && h.sign == sign && Unsigned(h) == body;
      ShapeOf(h, text, sign, body);
    } else if |w| == |body| {
      WholeShape(sign, w, body);
      ShapeOf(Decimal(sign, w, false, []), text, sign, body);
    } else {
      BadShape(sign, w, body);
      ShapeOf(BadWhole(sign, w, body[|w|], body[|w| + 1..]), text, sign, body);
    }
  }

  lemma SignSplits(text: string)
    ensures var sign := if Signed(text) then text[..1] else "";
      && (sign == "" || sign == "+" || sign == "-") && text == sign + Body(text)
      && (sign == "" && Body(text) != [] ==> !IsSign(Body(text)[0]))
  {
    assert Signed(text) ==> text[..1] == [text[0]];
  }

  lemma WholeShape(sign: string, w: string, body: string)
    requires sign == "" || sign == "+" || sign == "-"
    requires body == w && AllDigits(w)
    ensures Proper(Decimal(sign, w, false, [])) && Unsigned(Decimal(sign, w, false, [])) == body
  {
  }

  lemma BadShape(sign: string, w: string, body: string)
    requires sign == "" || sign == "+" || sign == "-"
    requires sign == "" && body != [] ==> !IsSign(body[0])
    requires |w| < |body| && body == w + body[|w|..] && AllDigits(w) && !IsDigit(body[|w|]) && body[|w|] != '.'
    ensures var h := BadWhole(sign, w, body[|w|], body[|w| + 1..]); Proper(h) && Unsigned(h) == body
  {
    assert body[|w|..] == [body[|w|]] + body[|w| + 1..];
  }

  lemma PointShape(sign: string, w: string, body: string)
    requires sign == "" || sign == "+" || sign == "-"
    requires |w| < |body| && body == w + body[|w|..] && AllDigits(w) && body[|w|] == '.'
    ensures exists h :: Proper(h) && h.sign == sign && Unsigned(h) == body
  {
    hide Leading, AllDigits;
    var behind := body[|w| + 1..];
    assert body[|w|..] == "." + behind;
    LeadingStops(behind);
    var f := Leading(behind);
    if |f| == |behind| {
      var h := Decimal(sign, w, true, f);
      assert Proper(h) && Unsigned(h) == body;
    } else {
      var h := BadFraction(sign, w, f, behind[|f|], behind[|f| + 1..]);
      assert behind == f + [behind[|f|]] + behind[|f| + 1..];
      assert Proper(h) && Unsigned(h) == body;
    }
  }

  lemma ShapeOf(h: Shape, text: string, sign: string, body: string)
    requires Proper(h) && text == sign + body && h.sign == sign && Unsigned(h) == body
    ensures exists h :: Proper(h) && Text(h) == text
  {
    assert Text(h) == text;
  }

  lemma {:induction false} LeadingStops(s: string)
    ensures |Leading(s)| <= |s| && s == Leading(s) + s[|Leading(s)|..] && AllDigits(Leading(s))
    ensures |Leading(s)| < |s| ==> !IsDigit(s[|Leading(s)|])
  {
    if s != [] && IsDigit(s[0]) {
      LeadingStops(s[1..]);
    }
  }

  /** The texts accepted are the decimals with a digit that counts, and no others. */
  lemma AcceptedExactly(text: string, decimals: int)
    ensures decimals < 0 ==> Parse(text, decimals) == Err(NegativeDecimals)
    ensures decimals >= 0 ==>
              (Parse(text, decimals).Ok? <==>
               exists h :: Proper(h) && h.Decimal? && HasDigit(h, decimals) && Text(h) == text)
  {
    hide Proper, Text, HasDigit;
    if decimals >= 0 {
      ShapesDecide(text, decimals);
    }
  }

  lemma ShapesDecide(text: string, decimals: nat)
    ensures Parse(text, decimals).Ok? <==>
              exists h :: Proper(h) && h.Decimal? && HasDigit(h, decimals) && Text(h) == text
  {
    hide Parse, Proper, Text, HasDigit;
    EveryTextHasShape(text);
    var h :| Proper(h) && Text(h) == text;
    match h {
      case Decimal(_, _, _, _) => DecimalAccepted(h, decimals);
      case BadWhole(_, _, _, _) => RefusedWhole(h, decimals);
      case BadFraction(_, _, _, _, _) => RefusedFraction(h, decimals);
    }
    forall g: Shape | Proper(g) && g.Decimal? && HasDigit(g, decimals) && Text(g) == text
      ensures Parse(text, decimals).Ok?
    {
      DecimalAccepted(g, decimals);
    }
  }

  /** More decimals than asked for are cut off, not refused. */
  lemma ExtraDecimalsAreCut()
    ensures Parse("1.239", 2) == Ok(123)
  {
    hide Parse, DigitsValue, Pow10, AllDigits, Unsigned;
    var h := Decimal("", "1", true, "239");
    ExampleShape(h);
    DecimalValue(h, 2);
    ExampleValue();
  }

  lemma ExampleShape(h: Shape)
    requires h == Decimal("", "1", true, "239")
    ensures Proper(h) && Text(h) == "1.239" && "1" + "239" == "1239"
  {
  }

  lemma ExampleValue()
    ensures DigitsValue("1239") == 1239 && Pow10(2) == 100 && Pow10(3) == 1000
  {
    hide DigitsValue;
    assert "1239" == [] + ['1'] + ['2'] + ['3'] + ['9'];
    DigitsAppend([] + ['1'] + ['2'] + ['3'], '9');
    DigitsAppend([] + ['1'] + ['2'], '3');
    DigitsAppend([] + ['1'], '2');
    DigitsAppend([], '1');
    DigitsOfNothing();
  }
}
