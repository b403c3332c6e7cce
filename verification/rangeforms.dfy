/** The texts of ranges, form by form (output_artifacts.cpp:28-95). */
module RangeForms {
  import opened ByteStrings
  import opened Ranges

  // ---- numbers ------------------------------------------------------------------------------------

  /** The decimal digits. */
  lemma DigitExactly(c: char, d: nat)
    requires d < 10
    ensures IsDigit(c) && DigitOf(c) == d <==> c == "0123456789"[d]
    ensures DigitChar(d) == "0123456789"[d]
  {
  }

  predicate AllDigits(s: string) { forall i :: 0 <= i < |s| ==> IsDigit(s[i]) }

  lemma OneDigitMore(s: string, c: char)
    requires AllDigits(s) && IsDigit(c)
    ensures NumberOf(s + [c]) == 10 * NumberOf(s) + DigitOf(c) && NumberOf("") == 0
  {
    assert (s + [c])[..|s|] == s;
  }

  /** What `to_string` prints begins with a zero for zero only. */
  lemma {:induction false} DecimalIsShort(n: nat)
    ensures Decimal(n)[0] == '0' <==> n == 0
    ensures NumberOf(Decimal(n)) == n
  {
    DecimalRoundTrip(n);
    DigitExactly(DigitChar(n % 10), n % 10);
    DigitExactly('0', 0);
    if n >= 10 {
      DecimalIsShort(n / 10);
    } else {
      assert Decimal(n) == [DigitChar(n % 10)];
    }
  }

  // ---- the four forms ----------------------------------------------------------------------------

  /** `N` */
  lemma SingleForm(n: string)
    requires IsNumber(n)
    ensures ParseRange(n) == if NumberOf(n) <= 0x7FFF_FFFF then Value(Range(NumberOf(n), Some(NumberOf(n)))) else Thrown
  {
  }

  /** `N-` */
  lemma OpenForm(n: string)
    requires IsNumber(n)
    ensures ParseRange(n + "-") == if NumberOf(n) <= 0x7FFF_FFFF then Value(Range(NumberOf(n), None)) else Thrown
  {
    NoDash(n, "");
    assert n + "-" + "" == n + "-";
  }

  /** `-N` stands for the indices from zero. */
  lemma UpToForm(n: string)
    requires IsNumber(n)
    ensures ParseRange("-" + n) == if NumberOf(n) <= 0x7FFF_FFFF then Value(Range(0, Some(NumberOf(n)))) else Thrown
  {
    var s := "-" + n;
    assert s[0] == '-' && !IsDigit('-') && s[..0] == "" && s[1..] == n;
    assert Find(s, '-') == 0;
  }

  /** `N-M`: the first bound that is no `int` throws, and a range may not be reversed. */
  lemma BothForm(n: string, m: string)
    requires IsNumber(n) && IsNumber(m)
    ensures
      var lower, upper := NumberOf(n), NumberOf(m);
      ParseRange(n + "-" + m) ==
      if lower > 0x7FFF_FFFF || upper > 0x7FFF_FFFF then Thrown
      else if upper < lower then Unexpected(UpperBelowLower(n + "-" + m))
      else Value(Range(lower, Some(upper)))
  {
    NoDash(n, m);
  }

  ghost predicate IsForm(s: string)
  {
    || IsNumber(s)
    || (exists n :: IsNumber(n) && (s == n + "-" || s == "-" + n))
    || (exists n, m :: IsNumber(n) && IsNumber(m) && s == n + "-" + m)
  }

  /** A text is refused as a bad range if and only if it has none of the four forms. */
  lemma BadExactly(s: string)
    ensures ParseRange(s) == Unexpected(BadIndexRange(s)) <==> !IsForm(s)
  {
    if ParseRange(s) != Unexpected(BadIndexRange(s)) && !IsNumber(s) {
      var k := Find(s, '-');
      var left, right := s[..k], s[k + 1..];
      assert s == left + "-" + right;
      if IsNumber(left) && right == "" {
        assert s == left + "-";
      } else if left == "" {
        assert s == "-" + right;
      }
    }
    forall n | IsNumber(n) ensures IsGood(n) && IsGood(n + "-") && IsGood("-" + n) {
      SingleForm(n);
      OpenForm(n);
      UpToForm(n);
    }
    forall n, m | IsNumber(n) && IsNumber(m) ensures IsGood(n + "-" + m) {
      BothForm(n, m);
    }
  }

  predicate IsGood(s: string) { ParseRange(s) != Unexpected(BadIndexRange(s)) }

  /** What is printed: a single index without a dash, and an open end as a dash. */
  lemma TextForms(lower: nat, upper: nat)
    ensures RangeText(Range(lower, Some(lower))) == Decimal(lower)
    ensures RangeText(Range(lower, None)) == Decimal(lower) + "-"
    ensures lower != upper ==> RangeText(Range(lower, Some(upper))) == Decimal(lower) + "-" + Decimal(upper)
  {
  }

  // ---- lists ---------------------------------------------------------------------------------------

  /** The tokens are the pieces between the commas. */
  lemma {:induction false} TokensExactly(s: string)
    ensures Join(Tokens(s)) == s && Tokens(s) != []
    ensures forall i :: 0 <= i < |Tokens(s)| ==> ',' !in Tokens(s)[i]
    decreases |s|
  {
    var k := Find(s, ',');
    if k < |s| {
      TokensExactly(s[k + 1..]);
      var front, back := s[..k], Tokens(s[k + 1..]);
      assert ([front] + back)[1..] == back;
      assert s == front + "," + s[k + 1..];
    }
  }

  /** No list of pieces without commas is joined to the same text. */
  lemma {:induction false} TokensOfJoin(texts: seq<string>)
    requires texts != [] && forall i :: 0 <= i < |texts| ==> ',' !in texts[i]
    ensures Tokens(Join(texts)) == texts
  {
    if |texts| == 1 {
      FirstToken(texts[0], "");
    } else {
      FirstToken(texts[0], Join(texts[1..]));
      TokensOfJoin(texts[1..]);
    }
  }

  /** Tokens that are read one after the other. */
  lemma {:induction false} TokensInTurn(a: seq<string>, b: seq<string>)
    requires ParseTokens(a).Value?
    ensures
      match ParseTokens(b)
      case Value(ranges) => ParseTokens(a + b) == Value(ParseTokens(a).value + ranges)
      case _ => ParseTokens(a + b) == ParseTokens(b)
  {
    if a == [] {
      assert a + b == b;
      if ParseTokens(b).Value? { assert [] + ParseTokens(b).value == ParseTokens(b).value; }
    } else {
      var t, rest := a[0], a[1..];
      assert (a + b)[0] == t && (a + b)[1..] == rest + b;
      TokensInTurn(rest, b);
      if t != "" && ParseTokens(b).Value? {
        var r := ParseRange(t).value;
        assert [r] + (ParseTokens(rest).value + ParseTokens(b).value)
            == [r] + ParseTokens(rest).value + ParseTokens(b).value;
      }
    }
  }

  /** A token of its own: an empty one is skipped. */
  lemma OneToken(t: string)
    ensures
      ParseTokens([t]) ==
      if t == "" then Value([])
      else match ParseRange(t)
           case Value(r) => Value([r])
           case Unexpected(e) => Unexpected(e)
           case Thrown => Thrown
  {
    var none: seq<string>, ranges: seq<Range> := [], [];
    assert [t][1..] == none && ParseTokens(none) == Value(ranges);
    assert ParseRange(t).Value? ==> [ParseRange(t).value] + ranges == [ParseRange(t).value];
  }

  /** The first token that is bad decides, whatever follows it. */
  lemma FirstBadDecides(a: seq<string>, t: string, b: seq<string>)
    requires ParseTokens(a).Value? && t != "" && !ParseRange(t).Value?
    ensures
      match ParseRange(t)
      case Unexpected(e) => ParseTokens(a + ([t] + b)) == Unexpected(e)
      case Thrown => ParseTokens(a + ([t] + b)) == Thrown
      case Value(_) => false
  {
    TokensInTurn(a, [t] + b);
  }

  // ---- concretization --------------------------------------------------------------------------------

  /** The conversion to `int` is the number modulo 2^32. */
  lemma ToIntExactly(n: nat, i: Int)
    ensures ToInt(n) == i <==> (n - i) % 0x1_0000_0000 == 0
  {
    var q, m, low := n / UINT32, (n - i) / UINT32, n % UINT32;
    if (n - i) % UINT32 == 0 {
      assert n == q * UINT32 + low && n - i == m * UINT32;
      assert low - i == (m - q) * UINT32;
      assert m - q == 0 || m - q == 1;
    }
  }

  /** Any range of a caller's: refused exactly when its upper bound as an `int`, or the maximum where it is open, is
      negative, beyond the maximum or below the lower bound. */
  lemma ConcreteGeneral(r: Range, max: Int, upper: Int)
    requires if r.upper.Some? then (r.upper.value - upper) % 0x1_0000_0000 == 0 else upper == max
    ensures ConcreteRange(r, max) == if 0 <= upper <= max && r.lower <= upper then Value((r.lower, upper))
                                     else Unexpected(IndexOutOfBounds)
  {
    if r.upper.Some? { ToIntExactly(r.upper.value, upper); }
  }
}
