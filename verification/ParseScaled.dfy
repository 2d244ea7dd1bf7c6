/** What the number parser's loops accept, which value they return, that printing
    is undone, that order is kept, and exactly which texts overflow. */
module ParseScaled {
  datatype Error = NegativeDecimals | EmptyNumber | InvalidDigit | InvalidTrailing | NoDigits

  datatype Result = Ok(value: int) | Err(error: Error)

  function Pow10(k: nat): (r: nat)
    ensures r > 0
  {
    if k == 0 then 1 else 10 * Pow10(k - 1)
  }

  predicate IsDigit(c: char) {
    '0' <= c <= '9'
  }

  function Digit(c: char): int {
    c as int - '0' as int
  }

  predicate AllDigits(s: string) {
    forall i :: 0 <= i < |s| ==> IsDigit(s[i])
  }

  /** The number a string of digits denotes. */
  function DigitsValue(s: string): int {
    if s == [] then 0 else 10 * DigitsValue(s[..|s| - 1]) + Digit(s[|s| - 1])
  }

  // ---------------------------------------------------- the grammar of numbers

  predicate Signed(text: string) {
    text != [] && (text[0] == '+' || text[0] == '-')
  }

  predicate Negative(text: string) {
    text != [] && text[0] == '-'
  }

  function Body(text: string): string {
    if Signed(text) then text[1..] else text
  }

  /** The characters before the first point. */
  function Whole(body: string): (w: string)
    ensures |w| <= |body| && w == body[..|w|]
    ensures forall i :: 0 <= i < |w| ==> body[i] != '.'
    ensures |w| < |body| ==> body[|w|] == '.'
  {
    if body == [] || body[0] == '.' then [] else [body[0]] + Whole(body[1..])
  }

  /** The characters behind the first point. */
  function Fraction(body: string): string {
    var w := |Whole(body)|;
    if w < |body| then body[w + 1..] else []
  }

  /** As many of a fraction's digits as are asked for. */
  function KeptOf(fraction: string, decimals: nat): (kept: string)
    ensures kept == if |fraction| <= decimals then fraction else fraction[..decimals]
  {
    if |fraction| <= decimals then fraction else fraction[..decimals]
  }

  function Kept(body: string, decimals: nat): string {
    KeptOf(Fraction(body), decimals)
  }

  function Parse(text: string, decimals: int): Result {
    if decimals < 0 then Err(NegativeDecimals)
    else if text == [] then Err(EmptyNumber)
    else
      var body := Body(text);
      var kept := Kept(body, decimals);
      if !AllDigits(Whole(body)) || !AllDigits(kept) then Err(InvalidDigit)
      else if !AllDigits(Fraction(body)) then Err(InvalidTrailing)
      else if Whole(body) + kept == [] then Err(NoDigits)
      else
        var magnitude := DigitsValue(Whole(body) + kept) * Pow10(decimals - |kept|);
        Ok(if Negative(text) then -magnitude else magnitude)
  }

  // ---------------------------------------------------- the digits taken in

  /** The digits a string starts with. */
  function Leading(s: string): string {
    if s == [] || !IsDigit(s[0]) then [] else [s[0]] + Leading(s[1..])
  }

  function Zeros(n: nat): (z: string)
    ensures |z| == n
  {
    seq(n, _ => '0')
  }

  /** The digits whose value the parser accumulates before it stops, refused texts
      included: the digits read, and behind an accepted number its padding. */
  function Taken(text: string, decimals: int): string {
    if decimals < 0 || text == [] then []
    else
      var whole := Whole(Body(text));
      var kept := Kept(Body(text), decimals);
      if !AllDigits(whole) then Leading(whole)
      else whole + Leading(kept) + if Parse(text, decimals).Ok? then Zeros(decimals - |kept|) else []
  }

  lemma {:induction false} LeadingIs(s: string, n: nat)
    requires n <= |s| && AllDigits(s[..n]) && (n < |s| ==> !IsDigit(s[n]))
    ensures Leading(s) == s[..n]
  {
    if n > 0 {
      assert s[..n][0] == s[0];
      assert s[1..][..n - 1] == s[..n][1..];
      LeadingIs(s[1..], n - 1);
    }
  }

  lemma {:induction false} LeadingFits(s: string)
    ensures |Leading(s)| <= |s| && AllDigits(Leading(s))
  {
    if s != [] && IsDigit(s[0]) {
      LeadingFits(s[1..]);
    }
  }

  lemma LeadingOfDigits(s: string)
    requires AllDigits(s)
    ensures Leading(s) == s
  {
    LeadingIs(s, |s|);
  }

  /** No more digits are taken than the integer part has and the decimals asked for. */
  lemma TakenFits(text: string, decimals: int)
    ensures AllDigits(Taken(text, decimals)) && |Taken(text, decimals)| <= Width(text, decimals)
  {
    hide Leading, Whole, Fraction, Body;
    LeadingFits(Whole(Body(text)));
    if decimals >= 0 {
      LeadingFits(Kept(Body(text), decimals));
    }
  }

  lemma {:induction false} ZerosScale(s: string, n: nat)
    ensures DigitsValue(s + Zeros(n)) == DigitsValue(s) * Pow10(n)
  {
    if n == 0 {
      assert s + Zeros(0) == s;
    } else {
      assert s + Zeros(n) == (s + Zeros(n - 1)) + ['0'];
      DigitsAppend(s + Zeros(n - 1), '0');
      ZerosScale(s, n - 1);
      PadStep(DigitsValue(s), n - 1);
    }
  }

  /** The digits taken from an accepted number are those of its value. */
  lemma TakenValue(text: string, decimals: nat)
    requires Parse(text, decimals).Ok?
    ensures DigitsValue(Taken(text, decimals))
         == if Negative(text) then -Parse(text, decimals).value else Parse(text, decimals).value
  {
    hide DigitsValue, Pow10, Whole, Fraction, AllDigits, Leading, Zeros, Body;
    var whole, kept := Whole(Body(text)), Kept(Body(text), decimals);
    LeadingOfDigits(kept);
    ZerosScale(whole + kept, decimals - |kept|);
  }

  // ------------------------------------------------------------------- parsing

  lemma DigitsAppend(s: string, c: char)
    ensures DigitsValue(s + [c]) == 10 * DigitsValue(s) + Digit(c)
  {
  }

  lemma {:induction false} WholeIs(body: string, n: nat)
    requires n <= |body| && forall i :: 0 <= i < n ==> body[i] != '.'
    requires n < |body| ==> body[n] == '.'
    ensures Whole(body) == body[..n]
  {
  }

  lemma WholeReaches(body: string, n: nat)
    requires n < |body| && forall i :: 0 <= i <= n ==> body[i] != '.'
    ensures n < |Whole(body)|
  {
  }

  lemma {:induction false} DigitsBound(s: string)
    requires AllDigits(s)
    ensures 0 <= DigitsValue(s) < Pow10(|s|)
  {
    if s != [] {
      DigitsBound(s[..|s| - 1]);
    }
  }

  lemma {:induction false} Pow10Grows(a: nat, b: nat)
    requires a <= b
    ensures Pow10(a) <= Pow10(b)
    decreases b
  {
    if a < b {
      Pow10Grows(a, b - 1);
    }
  }

  lemma PadStep(value: int, k: nat)
    ensures value * Pow10(k + 1) == 10 * (value * Pow10(k))
  {
  }

  /** The most digits the running value can have. */
  function Width(text: string, decimals: int): nat {
    |Whole(Body(text))| + if decimals < 0 then 0 else decimals
  }

  /** The integer part of the number: its value, or the first thing wrong with it.
      `peak` is the largest running value. */
  method ParseWhole(text: string, start: nat) returns (i: nat, value: int, anyDigit: bool, ok: bool, ghost peak: int)
    requires start <= |text|
    ensures ok <==> AllDigits(Whole(text[start..]))
    ensures ok ==> i == start + |Whole(text[start..])| && value == DigitsValue(Whole(text[start..]))
    ensures ok ==> (anyDigit <==> Whole(text[start..]) != [])
    ensures peak == DigitsValue(Leading(Whole(text[start..])))
  {
    hide Leading;
    ghost var body := text[start..];
    ghost var whole := Whole(body);
    i, value, anyDigit, peak := start, 0, false, 0;
    while i < |text| && text[i] != '.'
      invariant start <= i <= |text|
      invariant forall j :: 0 <= j < i - start ==> body[j] != '.'
      invariant AllDigits(body[..i - start]) && value == DigitsValue(body[..i - start])
      invariant anyDigit <==> i > start
      invariant value == peak >= 0
    {
      assert text[i] == body[i - start];
      WholeReaches(body, i - start);
      if !IsDigit(text[i]) {
        assert whole[..i - start] == body[..i - start];
        LeadingIs(whole, i - start);
        return i, value, anyDigit, false, peak;
      }
      DigitsAppend(body[..i - start], text[i]);
      assert body[..i - start + 1] == body[..i - start] + [text[i]];
      value := value * 10 + Digit(text[i]);
      peak := if value > peak then value else peak;
      anyDigit := true;
      i := i + 1;
    }
    WholeIs(body, i - start);
    LeadingOfDigits(whole);
    ok := true;
  }

  datatype Fractional = Digits(value: int, anyDigit: bool, consumed: nat) | Bad(error: Error)

  lemma NotAll(s: string, i: nat)
    requires i < |s| && !IsDigit(s[i])
    ensures !AllDigits(s)
  {
  }

  lemma OneMore(whole: string, f: string, n: nat)
    requires n < |f| && AllDigits(f[..n])
    ensures IsDigit(f[n]) ==> AllDigits(f[..n + 1])
    ensures DigitsValue(whole + f[..n + 1]) == 10 * DigitsValue(whole + f[..n]) + Digit(f[n])
  {
    DigitsAppend(whole + f[..n], f[n]);
    assert whole + f[..n + 1] == whole + f[..n] + [f[n]];
  }

  /** Are all characters from `i` on digits, those from `start` on being so up to `i`? */
  method CheckDigits(text: string, start: nat, from: nat) returns (ok: bool)
    requires start <= from <= |text| && AllDigits(text[start..][..from - start])
    ensures ok <==> AllDigits(text[start..])
  {
    hide AllDigits, DigitsValue, IsDigit;
    ghost var f := text[start..];
    for i := from to |text|
      invariant AllDigits(f[..i - start])
    {
      assert text[i] == f[i - start];
      if !IsDigit(text[i]) {
        NotAll(f, i - start);
        return false;
      }
      OneMore([], f, i - start);
    }
    assert f[..|text| - start] == f;
    return true;
  }

  /** The digits behind the point: those asked for are taken into the value, the
      rest only checked. */
  method ParseFraction(text: string, start: nat, decimals: nat, ghost whole: string, value0: int, anyDigit0: bool)
    returns (r: Fractional, ghost peak: int)
    requires start <= |text| && AllDigits(whole) && value0 == DigitsValue(whole)
    ensures var f := text[start..];
            var kept := KeptOf(f, decimals);
      r == if !AllDigits(kept) then Bad(InvalidDigit)
           else if !AllDigits(f) then Bad(InvalidTrailing)
           else Digits(DigitsValue(whole + kept), anyDigit0 || kept != [], |kept|)
    ensures peak == DigitsValue(whole + Leading(KeptOf(text[start..], decimals)))
  {
    hide AllDigits, DigitsValue, IsDigit, Pow10, Leading;
    ghost var f := text[start..];
    ghost var kept := KeptOf(f, decimals);
    var i, consumed, value, anyDigit := start, 0, value0, anyDigit0;
    peak := value0;
    assert whole + f[..0] == whole;
    DigitsBound(whole);
    NothingBehind(whole, decimals);
    while i < |text| && consumed < decimals
      invariant start <= i <= |text| && consumed == i - start <= decimals
      invariant AllDigits(f[..consumed]) && value == DigitsValue(whole + f[..consumed])
      invariant anyDigit <==> anyDigit0 || consumed > 0
      invariant value == peak >= 0
      decreases |text| - i
    {
      assert text[i] == f[consumed] == kept[consumed];
      assert kept[..consumed] == f[..consumed];
      if !IsDigit(text[i]) {
        NotAll(kept, consumed);
        LeadingIs(kept, consumed);
        return Bad(InvalidDigit), peak;
      }
      OneMore(whole, f, consumed);
      DigitGrows(value, text[i]);
      value := value * 10 + Digit(text[i]);
      peak := if value > peak then value else peak;
      anyDigit := true;
      i, consumed := i + 1, consumed + 1;
    }
    assert f[..consumed] == kept;
    LeadingOfDigits(kept);
    var ok := CheckDigits(text, start, i);
    r := if ok then Digits(value, anyDigit, consumed) else Bad(InvalidTrailing);
  }

  lemma DigitGrows(value: int, c: char)
    requires value >= 0 && IsDigit(c)
    ensures value * 10 + Digit(c) >= value
  {
  }

  /** Append a zero for every decimal asked for and not given. */
  method Pad(value0: int, consumed0: nat, decimals: nat) returns (value: int, ghost peak: int)
    requires consumed0 <= decimals && value0 >= 0
    ensures value == peak == value0 * Pow10(decimals - consumed0)
  {
    value, peak := value0, value0;
    var consumed := consumed0;
    while consumed < decimals
      invariant consumed0 <= consumed <= decimals
      invariant value == peak == value0 * Pow10(consumed - consumed0) >= 0
    {
      PadStep(value0, consumed - consumed0);
      value := value * 10;
      peak := if value > peak then value else peak;
      consumed := consumed + 1;
    }
  }

  lemma BodyStarts(text: string, start: nat)
    requires text != [] && start == if text[0] == '+' || text[0] == '-' then 1 else 0
    ensures text[start..] == Body(text)
  {
  }

  lemma FractionStarts(text: string, start: nat, i: nat)
    requires start <= |text| && i == start + |Whole(text[start..])|
    ensures i <= |text|
    ensures i < |text| <==> |Whole(text[start..])| < |text[start..]|
    ensures i < |text| ==> text[i] == '.' && text[i + 1..] == Fraction(text[start..])
    ensures i == |text| ==> Fraction(text[start..]) == []
  {
  }

  /** The loops accept, refuse and compute what the grammar says. `peak` is the
      largest magnitude any running value takes. */
  method Scale(text: string, decimals: int) returns (r: Result, ghost peak: int)
    ensures r == Parse(text, decimals)
    ensures peak == DigitsValue(Taken(text, decimals))
    ensures 0 <= peak < Pow10(Width(text, decimals))
    ensures r.Ok? ==> peak == if r.value < 0 then -r.value else r.value
  {
    hide AllDigits, DigitsValue, Whole, Fraction, Pow10, KeptOf, Leading, Zeros, Width;
    TakenBounded(text, decimals);
    if decimals < 0 {
      return Err(NegativeDecimals), 0;
    }
    if text == [] {
      return Err(EmptyNumber), 0;
    }
    var negative, start := false, 0;
    if text[0] == '+' || text[0] == '-' {
      negative := text[0] == '-';
      start := 1;
    }
    BodyStarts(text, start);
    ghost var body := Body(text);
    ghost var whole := Whole(body);
    ghost var kept := Kept(body, decimals);

    var i, value, anyDigit, ok;
    i, value, anyDigit, ok, peak := ParseWhole(text, start);
    if !ok {
      return Err(InvalidDigit), peak;
    }
    FractionStarts(text, start, i);
    NothingBehind(whole, decimals);
    LeadingOfDigits(whole);
    var consumed: nat := 0;
    if i < |text| && text[i] == '.' {
      var part;
      part, peak := ParseFraction(text, i + 1, decimals, whole, value, anyDigit);
      assert whole + Leading(kept) + [] == whole + Leading(kept);
      if part.Bad? {
        return Err(part.error), peak;
      }
      value, anyDigit, consumed := part.value, part.anyDigit, part.consumed;
    }
    LeadingOfDigits(kept);
    if !anyDigit {
      assert whole + kept + [] == whole + kept;
      return Err(NoDigits), peak;
    }
    JoinedDigits(whole, kept);
    DigitsBound(whole + kept);
    value, peak := Pad(value, consumed, decimals);
    r := Ok(if negative then -value else value);
    TakenValue(text, decimals);
  }

  lemma TakenBounded(text: string, decimals: int)
    ensures 0 <= DigitsValue(Taken(text, decimals)) < Pow10(Width(text, decimals))
    ensures DigitsValue([]) == 0
  {
    hide DigitsValue, Pow10, Taken, Width;
    TakenFits(text, decimals);
    DigitsBound(Taken(text, decimals));
    Pow10Grows(|Taken(text, decimals)|, Width(text, decimals));
    DigitsOfNothing();
  }

  lemma DigitsOfNothing()
    ensures DigitsValue([]) == 0
  {
  }

  lemma NothingBehind(whole: string, decimals: nat)
    ensures KeptOf([], decimals) == [] && whole + [] == whole && AllDigits([])
  {
  }

  lemma JoinedDigits(a: string, b: string)
    ensures AllDigits(a) && AllDigits(b) ==> AllDigits(a + b)
  {
  }

  // --------------------------------------------------------- what the value is

  /** All the digits of a number, point left out. */
  function AllOf(text: string): string {
    Whole(Body(text)) + Fraction(Body(text))
  }

  lemma {:induction false} DigitsConcat(a: string, b: string)
    ensures DigitsValue(a + b) == DigitsValue(a) * Pow10(|b|) + DigitsValue(b)
  {
    if b == [] {
      assert a + b == a;
    } else {
      var last := |b| - 1;
      assert (a + b)[..|a + b| - 1] == a + b[..last];
      DigitsConcat(a, b[..last]);
      PadStep(DigitsValue(a), last);
    }
  }

  lemma {:induction false} Pow10Sum(a: nat, b: nat)
    ensures Pow10(a + b) == Pow10(a) * Pow10(b)
  {
    if a > 0 {
      Pow10Sum(a - 1, b);
      PadStep(Pow10(b), a - 1);
      assert Pow10(a - 1 + b) == Pow10(b) * Pow10(a - 1);
    }
  }

  lemma MulMonotone(a: int, b: int, c: nat)
    requires a <= b
    ensures a * c <= b * c
  {
  }

  lemma MulStrict(a: int, b: int, c: int)
    requires a < b && c > 0
    ensures a * c < b * c
  {
  }

  lemma MulSwaps(a: int, b: int, c: int)
    ensures (a * b) * c == (a * c) * b
  {
  }

  /** `q` is `n / d` rounded down. */
  ghost predicate IsFloor(q: int, n: int, d: int) {
    d > 0 && q * d <= n < (q + 1) * d
  }

  lemma CutBelow(kept: int, cut: int, k: nat, c: nat, d: nat)
    requires 0 <= cut < Pow10(c) && k + c >= d && k == d
    ensures IsFloor(kept, (kept * Pow10(c) + cut) * Pow10(d), Pow10(k + c))
  {
    Pow10Sum(c, d);
    var p, q := Pow10(c), Pow10(d);
    assert Pow10(k + c) == p * q;
    MulSwaps(kept, p, q);
    assert (kept * p + cut) * q == kept * (p * q) + cut * q by {
      Distribute(kept * p, cut, q);
      Reassociate(kept, p, q);
    }
    MulStrict(cut, p, q);
    MulMonotone(0, cut, q);
    Distribute(kept, 1, p * q);
  }

  lemma Distribute(a: int, b: int, c: int)
    ensures (a + b) * c == a * c + b * c
  {
  }

  lemma Reassociate(a: int, b: int, c: int)
    ensures (a * b) * c == a * (b * c)
  {
  }

  lemma ExactWhenPadded(d: int, decimals: nat, f: nat)
    requires f <= decimals && d >= 0
    ensures d * Pow10(decimals - f) >= 0
    ensures IsFloor(d * Pow10(decimals - f), d * Pow10(decimals), Pow10(f))
  {
    hide Pow10;
    Pow10Sum(decimals - f, f);
    MulMonotone(0, d, Pow10(decimals - f));
    Reassociate(d, Pow10(decimals - f), Pow10(f));
    Distribute(d * Pow10(decimals - f), 1, Pow10(f));
  }

  lemma ExactWhenCut(front: string, cut: string, decimals: nat)
    requires AllDigits(front) && AllDigits(cut)
    ensures DigitsValue(front) * Pow10(0) == DigitsValue(front) >= 0
    ensures IsFloor(DigitsValue(front), DigitsValue(front + cut) * Pow10(decimals), Pow10(decimals + |cut|))
  {
    hide IsFloor, AllDigits, DigitsValue;
    DigitsConcat(front, cut);
    DigitsBound(front);
    DigitsBound(cut);
    CutBelow(DigitsValue(front), DigitsValue(cut), decimals, |cut|, decimals);
    assert DigitsValue(front) * Pow10(0) == DigitsValue(front);
  }

  /** The value accepted for a decimal x is the sign of x times |x| * 10^decimals
      rounded down, x being the number its digits and point denote. */
  lemma ScalingIsExact(text: string, decimals: nat)
    requires Parse(text, decimals).Ok?
    ensures AllDigits(AllOf(text))
    ensures var v := Parse(text, decimals).value;
            var magnitude := if Negative(text) then -v else v;
      && magnitude >= 0
      && IsFloor(magnitude, DigitsValue(AllOf(text)) * Pow10(decimals), Pow10(|Fraction(Body(text))|))
  {
    hide IsFloor, DigitsValue, Pow10, Whole, Fraction, AllDigits;
    var body := Body(text);
    var whole, f, kept := Whole(body), Fraction(body), Kept(body, decimals);
    JoinedDigits(whole, f);
    JoinedDigits(whole, kept);
    if |f| <= decimals {
      DigitsBound(whole + kept);
      ExactWhenPadded(DigitsValue(whole + kept), decimals, |f|);
    } else {
      var cut := f[decimals..];
      assert f == kept + cut && whole + f == (whole + kept) + cut;
      TailDigits(f, decimals);
      ExactWhenCut(whole + kept, cut, decimals);
    }
  }

  lemma TailDigits(s: string, k: nat)
    requires AllDigits(s) && k <= |s|
    ensures AllDigits(s[k..])
  {
  }

  const LIMIT := 0x8000_0000_0000_0000

  /** The digits of the largest signed 64-bit number. */
  const LARGEST := "9223372036854775807"

  /** Leading zeros dropped. */
  function Stripped(s: string): string {
    if s != [] && s[0] == '0' then Stripped(s[1..]) else s
  }

  /** Of two digit strings of one length, `a` comes behind `b` in lexicographic order. */
  predicate Behind(a: string, b: string)
    requires |a| == |b|
    decreases |a|
  {
    a != [] &&
    var last := |a| - 1;
    Behind(a[..last], b[..last]) || (a[..last] == b[..last] && a[last] > b[last])
  }

  /** More than 19 significant digits, or 19 behind those of the largest number. */
  predicate TooBig(s: string) {
    var t := Stripped(s);
    |t| > |LARGEST| || (|t| == |LARGEST| && Behind(t, LARGEST))
  }

  lemma {:induction false} BehindIsGreater(a: string, b: string)
    requires |a| == |b| && AllDigits(a) && AllDigits(b)
    ensures Behind(a, b) <==> DigitsValue(a) > DigitsValue(b)
    ensures a == b <==> DigitsValue(a) == DigitsValue(b)
    decreases |a|
  {
    if a != [] {
      var last := |a| - 1;
      BehindIsGreater(a[..last], b[..last]);
      assert a == a[..last] + [a[last]] && b == b[..last] + [b[last]];
    }
  }

  lemma {:induction false} StrippedValue(s: string)
    requires AllDigits(s)
    ensures AllDigits(Stripped(s)) && DigitsValue(Stripped(s)) == DigitsValue(s)
    ensures Stripped(s) != [] ==> Stripped(s)[0] != '0'
  {
    if s != [] && s[0] == '0' {
      StrippedValue(s[1..]);
      DigitsConcat(['0'], s[1..]);
      assert ['0'] + s[1..] == s;
      assert DigitsValue(['0']) == 0;
    }
  }

  lemma SignificantDigits(t: string)
    requires AllDigits(t) && t != [] && t[0] != '0'
    ensures DigitsValue(t) >= Pow10(|t| - 1)
  {
    hide Pow10;
    DigitsConcat([t[0]], t[1..]);
    assert [t[0]] + t[1..] == t;
    assert DigitsValue([t[0]]) == Digit(t[0]) >= 1;
    TailDigits(t, 1);
    DigitsBound(t[1..]);
    MulMonotone(1, Digit(t[0]), Pow10(|t| - 1));
  }

  lemma LargestValue()
    ensures AllDigits(LARGEST) && DigitsValue(LARGEST) == LIMIT - 1
  {
    hide Pow10, DigitsValue;
    var a, b, c := "9223372", "036854", "775807";
    assert LARGEST == a + b + c;
    DigitsConcat(a + b, c);
    DigitsConcat(a, b);
    SixDigits(b);
    SixDigits(c);
    SixDigits(a[..6]);
    DigitsAppend(a[..6], a[6]);
    assert a == a[..6] + [a[6]];
    SmallPowers();
  }

  lemma SixDigits(s: string)
    requires |s| == 6
    ensures DigitsValue(s) == 100000 * Digit(s[0]) + 10000 * Digit(s[1]) + 1000 * Digit(s[2])
                              + 100 * Digit(s[3]) + 10 * Digit(s[4]) + Digit(s[5])
  {
    hide Digit;
    DigitsAppend(s[..5], s[5]);
    DigitsAppend(s[..4], s[4]);
    DigitsAppend(s[..3], s[3]);
    DigitsAppend(s[..2], s[2]);
    DigitsAppend(s[..1], s[1]);
    DigitsAppend([], s[0]);
    assert s == s[..5] + [s[5]] && s[..5] == s[..4] + [s[4]] && s[..4] == s[..3] + [s[3]];
    assert s[..3] == s[..2] + [s[2]] && s[..2] == s[..1] + [s[1]] && s[..1] == [] + [s[0]];
  }

  lemma Pow10Limits()
    ensures Pow10(18) < LIMIT < Pow10(19)
  {
    hide Pow10;
    SmallPowers();
    Pow10Sum(9, 9);
    Pow10Sum(1, 18);
  }

  /** A string of digits denotes a number beyond 64 signed bits exactly when its
      significant digits say so, however many zeros stand in front of them. */
  lemma TooBigIsBeyond(s: string)
    requires AllDigits(s)
    ensures TooBig(s) <==> DigitsValue(s) >= LIMIT
  {
    hide DigitsValue, Pow10, Stripped, Behind, AllDigits;
    var t := Stripped(s);
    StrippedValue(s);
    LargestValue();
    Pow10Limits();
    if |t| > 19 {
      SignificantDigits(t);
      Pow10Grows(19, |t| - 1);
    } else if |t| == 19 {
      BehindIsGreater(t, LARGEST);
    } else {
      DigitsBound(t);
      Pow10Grows(|t|, 18);
    }
  }

  /** Some running value leaves 64 signed bits exactly when the digits taken are too
      big, and of an accepted number exactly when its value's magnitude is: the
      magnitude 2^63 overflows although its negative would fit. */
  lemma OverflowsExactly(text: string, decimals: int)
    ensures TooBig(Taken(text, decimals)) <==> DigitsValue(Taken(text, decimals)) >= LIMIT
    ensures var r := Parse(text, decimals);
      r.Ok? ==> (TooBig(Taken(text, decimals)) <==> r.value >= LIMIT || r.value <= -LIMIT)
  {
    hide DigitsValue, TooBig, Taken, Parse;
    TakenFits(text, decimals);
    TooBigIsBeyond(Taken(text, decimals));
    if Parse(text, decimals).Ok? {
      AcceptedDecimals(text, decimals);
      TakenValue(text, decimals);
      DigitsBound(Taken(text, decimals));
    }
  }

  lemma AcceptedDecimals(text: string, decimals: int)
    requires Parse(text, decimals).Ok?
    ensures decimals >= 0
  {
  }

  /** In particular nothing overflows while the integer digits and the decimals
      together number at most 18. */
  lemma FitsInt64(text: string, decimals: int)
    requires Width(text, decimals) <= 18
    ensures Pow10(Width(text, decimals)) < LIMIT
    ensures !TooBig(Taken(text, decimals))
  {
    hide Pow10, DigitsValue, TooBig, Taken, Width;
    Pow10Grows(Width(text, decimals), 18);
    Pow10Limits();
    TakenBounded(text, decimals);
    TakenFits(text, decimals);
    TooBigIsBeyond(Taken(text, decimals));
  }

  /** With one digit more the value itself need not fit. */
  lemma NineteenDigitsDoNotFit(text: string)
    requires |text| == 19 && forall i :: 0 <= i < |text| ==> text[i] == '9'
    ensures Width(text, 0) == 19
    ensures Parse(text, 0).Ok? && Parse(text, 0).value >= LIMIT
  {
    hide Whole, Pow10, DigitsValue;
    assert Body(text) == text;
    WholeIs(text, 19);
    NinesValue(text);
    NineteenNines();
    assert text + [] == text;
  }

  lemma NineteenNines()
    ensures Pow10(19) == 10_000_000_000_000_000_000 && Pow10(0) == 1
  {
    hide Pow10;
    SmallPowers();
    Pow10Sum(9, 9);
    Pow10Sum(1, 18);
  }

  lemma SmallPowers()
    ensures Pow10(0) == 1 && Pow10(1) == 10 && Pow10(6) == 1_000_000 && Pow10(9) == 1_000_000_000
  {
  }

  lemma {:induction false} NinesValue(s: string)
    requires forall i :: 0 <= i < |s| ==> s[i] == '9'
    ensures DigitsValue(s) == Pow10(|s|) - 1
  {
    if s != [] {
      NinesValue(s[..|s| - 1]);
    }
  }

  // ---------------------------------------------------------------- monotony

  /** The sign of a number. */
  function Sign(text: string): int {
    if Negative(text) then -1 else 1
  }

  lemma FloorsInOrder(q1: int, q2: int, n1: int, n2: int, d1: int, d2: int)
    requires IsFloor(q1, n1, d1) && IsFloor(q2, n2, d2)
    requires n1 * d2 <= n2 * d1
    ensures q1 <= q2
  {
    if q1 > q2 {
      MulMonotone(q1 * d1, n1, d2);
      MulStrict(n2, (q2 + 1) * d2, d1);
      MulSwaps(q2 + 1, d2, d1);
      MulMonotone(q2 + 1, q1, d1);
      MulMonotone((q2 + 1) * d1, q1 * d1, d2);
    }
  }

  lemma ZeroFloor(q: int, n: int, d: int)
    requires IsFloor(q, n, d) && n <= 0 && q >= 0
    ensures q == 0
  {
  }

  /** A larger decimal never scales to a smaller integer. */
  lemma ScalingIsMonotone(t1: string, t2: string, decimals: nat)
    requires Parse(t1, decimals).Ok? && Parse(t2, decimals).Ok?
    requires Sign(t1) * DigitsValue(AllOf(t1)) * Pow10(|Fraction(Body(t2))|)
          <= Sign(t2) * DigitsValue(AllOf(t2)) * Pow10(|Fraction(Body(t1))|)
    ensures Parse(t1, decimals).value <= Parse(t2, decimals).value
  {
    hide IsFloor, DigitsValue, Pow10, AllOf, Fraction, Parse, AllDigits;
    var d1, d2 := DigitsValue(AllOf(t1)), DigitsValue(AllOf(t2));
    var f1, f2 := Pow10(|Fraction(Body(t1))|), Pow10(|Fraction(Body(t2))|);
    ScalingIsExact(t1, decimals);
    ScalingIsExact(t2, decimals);
    DigitsBound(AllOf(t1));
    DigitsBound(AllOf(t2));
    var v1, v2 := Parse(t1, decimals).value, Parse(t2, decimals).value;
    MagnitudesInOrder(Negative(t1), Negative(t2), d1, d2, f1, f2, Pow10(decimals),
                      if Negative(t1) then -v1 else v1, if Negative(t2) then -v2 else v2);
  }

  lemma MagnitudesInOrder(neg1: bool, neg2: bool, d1: nat, d2: nat, f1: int, f2: int, p: nat, q1: int, q2: int)
    requires p > 0 && q1 >= 0 && q2 >= 0 && IsFloor(q1, d1 * p, f1) && IsFloor(q2, d2 * p, f2)
    requires (if neg1 then -1 else 1) * d1 * f2 <= (if neg2 then -1 else 1) * d2 * f1
    ensures (if neg1 then -q1 else q1) <= (if neg2 then -q2 else q2)
  {
    MulSwaps(d1, p, f2);
    MulSwaps(d2, p, f1);
    if neg1 == neg2 {
      if neg1 {
        Negated(d1, f2);
        Negated(d2, f1);
        MulMonotone(d2 * f1, d1 * f2, p);
        FloorsInOrder(q2, q1, d2 * p, d1 * p, f2, f1);
      } else {
        MulMonotone(d1 * f2, d2 * f1, p);
        FloorsInOrder(q1, q2, d1 * p, d2 * p, f1, f2);
      }
    } else if neg2 {
      Negated(d2, f1);
      MulMonotone(0, d1, f2);
      MulMonotone(0, d2, f1);
      PositiveProduct(d1, f2);
      PositiveProduct(d2, f1);
      ZeroFloor(q1, d1 * p, f1);
      ZeroFloor(q2, d2 * p, f2);
    }
  }

  lemma Negated(d: int, f: int)
    ensures -1 * d * f == -(d * f)
  {
  }

  lemma PositiveProduct(d: nat, f: int)
    requires f > 0 && d * f <= 0
    ensures d == 0
  {
  }

  // ---------------------------------------------------------------- printing

  function DigitChar(d: nat): (c: char)
    requires d < 10
    ensures IsDigit(c) && Digit(c) == d
  {
    '0' + d as char
  }

  /** `n` in decimal. */
  function Print(n: nat): (s: string)
    ensures s != [] && AllDigits(s)
  {
    if n < 10 then [DigitChar(n)] else Print(n / 10) + [DigitChar(n % 10)]
  }

  /** The last `k` decimal digits of `n`. */
  function PrintLast(n: nat, k: nat): (s: string)
    ensures |s| == k && AllDigits(s)
    decreases k
  {
    if k == 0 then [] else PrintLast(n / 10, k - 1) + [DigitChar(n % 10)]
  }

  function Quotient(n: nat, d: nat): (q: nat)
    requires d > 0
  {
    n / d
  }

  function Remainder(n: nat, d: nat): (r: nat)
    requires d > 0
    ensures r < d && n == Quotient(n, d) * d + r
  {
    n % d
  }

  /** The canonical form of an integer scaled by 10^decimals: an optional minus, the
      integer part, and behind a point exactly `decimals` digits, if any. */
  function PrintScaled(v: int, decimals: nat): string {
    var n: nat := if v < 0 then -v else v;
    var fraction := PrintLast(Remainder(n, Pow10(decimals)), decimals);
    (if v < 0 then "-" else []) + Print(Quotient(n, Pow10(decimals))) + (if fraction == [] then [] else "." + fraction)
  }

  lemma {:induction false} PrintValue(n: nat)
    ensures DigitsValue(Print(n)) == n
  {
    if n < 10 {
      assert [DigitChar(n)][..0] == [];
    } else {
      PrintValue(n / 10);
      DigitsAppend(Print(n / 10), DigitChar(n % 10));
    }
  }

  lemma {:induction false} PrintLastValue(n: nat, k: nat)
    requires n < Pow10(k)
    ensures DigitsValue(PrintLast(n, k)) == n
    decreases k
  {
    if k > 0 {
      PrintLastValue(n / 10, k - 1);
      DigitsAppend(PrintLast(n / 10, k - 1), DigitChar(n % 10));
    }
  }

  /** What the parts of a canonical number parse as. */
  lemma PartsParse(text: string, negative: bool, whole: string, fraction: string)
    requires whole != [] && AllDigits(whole) && AllDigits(fraction)
    requires text == (if negative then "-" else []) + whole + (if fraction == [] then [] else "." + fraction)
    ensures text != [] && Negative(text) == negative
    ensures Whole(Body(text)) == whole && Fraction(Body(text)) == fraction
  {
    hide DigitsValue, Pow10;
    var body := whole + (if fraction == [] then [] else "." + fraction);
    assert IsDigit(whole[0]);
    assert text == (if negative then "-" else []) + body;
    assert Body(text) == body;
    WholeIs(body, |whole|);
    assert fraction != [] ==> body[|whole| + 1..] == fraction;
  }

  /** A number with exactly the digits asked for behind its point is read as the
      digits it is made of. */
  lemma PartsValue(text: string, decimals: nat)
    requires text != [] && Whole(Body(text)) != [] && |Fraction(Body(text))| == decimals
    requires AllDigits(Whole(Body(text))) && AllDigits(Fraction(Body(text)))
    ensures var n := DigitsValue(Whole(Body(text)) + Fraction(Body(text)));
      Parse(text, decimals) == Ok(if Negative(text) then -n else n)
  {
  }

  /** Parsing inverts the canonical form of every integer at every precision. */
  lemma ParseInvertsPrint(v: int, decimals: nat)
    ensures Parse(PrintScaled(v, decimals), decimals) == Ok(v)
  {
    hide Whole, Fraction, Body, DigitsValue, Pow10, Negative, Print, PrintLast, AllDigits, Parse, Quotient, Remainder;
    var n: nat := if v < 0 then -v else v;
    var q, r := Quotient(n, Pow10(decimals)), Remainder(n, Pow10(decimals));
    PartsParse(PrintScaled(v, decimals), v < 0, Print(q), PrintLast(r, decimals));
    PartsValue(PrintScaled(v, decimals), decimals);
    PrintValue(q);
    PrintLastValue(r, decimals);
    DigitsConcat(Print(q), PrintLast(r, decimals));
  }
}
