/** Index ranges: parsing, printing and concretization (output_artifacts.cpp:16-107). */
module Ranges {
  import opened ByteStrings

  const INT_MAX := 0x7FFF_FFFF
  const UINT32 := 0x1_0000_0000

  type Int = n: int | -0x8000_0000 <= n <= 0x7FFF_FFFF

  datatype Error = BadIndexRange(token: string) | UpperBelowLower(token: string) | IndexOutOfBounds

  /** `std::expected`; `Thrown` is the exception of `stoi` for a number that is no `int`. */
  datatype Expected<+T> = Value(value: T) | Unexpected(error: Error) | Thrown

  /** From `lower` to `upper`, both included, or open above. */
  datatype Range = Range(lower: nat, upper: Option<nat>)
  {
    /** What `parse` can result in. */
    predicate WellFormed()
    {
      lower <= INT_MAX && (upper.Some? ==> lower <= upper.value <= INT_MAX)
    }

    predicate Contains(i: nat) { lower <= i && (upper.Some? ==> i <= upper.value) }
  }

  // ---- numbers ----------------------------------------------------------------------------

  predicate IsDigit(c: char) { '0' <= c <= '9' }

  /** `\d+` */
  predicate IsNumber(s: string) { s != "" && forall i :: 0 <= i < |s| ==> IsDigit(s[i]) }

  function DigitChar(d: nat): (c: char)
    requires d < 10
    ensures IsDigit(c)
  {
    '0' + d as char
  }

  /** `std::to_string` */
  function Decimal(n: nat): (s: string)
    ensures IsNumber(s)
  {
    (if n < 10 then "" else Decimal(n / 10)) + [DigitChar(n % 10)]
  }

  function DigitOf(c: char): (d: nat)
    requires IsDigit(c)
    ensures d < 10
  {
    c as int - '0' as int
  }

  function NumberOf(s: string): (n: nat)
    requires forall i :: 0 <= i < |s| ==> IsDigit(s[i])
  {
    if s == "" then 0 else 10 * NumberOf(s[..|s| - 1]) + DigitOf(s[|s| - 1])
  }

  lemma {:induction false} DecimalRoundTrip(n: nat)
    ensures NumberOf(Decimal(n)) == n
  {
    var last := [DigitChar(n % 10)];
    if n >= 10 {
      DecimalRoundTrip(n / 10);
      assert Decimal(n)[..|Decimal(n)| - 1] == Decimal(n / 10);
    } else {
      assert Decimal(n) == last && last[..0] == "";
    }
  }

  function Stoi(s: string): (r: Expected<nat>)
    requires IsNumber(s)
    ensures r.Value? ==> r.value <= INT_MAX
  {
    if NumberOf(s) <= INT_MAX then Value(NumberOf(s)) else Thrown
  }

  // ---- one range ------------------------------------------------------------------------

  /** Position of the first `c`, or the length. */
  function Find(s: string, c: char): (k: nat)
    ensures k <= |s| && (k < |s| ==> s[k] == c) && forall i :: 0 <= i < k ==> s[i] != c
  {
    if s == "" || s[0] == c then 0 else 1 + Find(s[1..], c)
  }

  /** The four forms `N`, `N-`, `-N` and `N-N`, tried in this order. */
  function ParseRange(s: string): (r: Expected<Range>)
  {
    var k := Find(s, '-');
    if IsNumber(s) then
      match Stoi(s) case Value(n) => Value(Range(n, Some(n))) case Thrown => Thrown
    else if k == |s| then Unexpected(BadIndexRange(s))
    else
      var left, right := s[..k], s[k + 1..];
      if IsNumber(left) && right == "" then
        match Stoi(left) case Value(n) => Value(Range(n, None)) case Thrown => Thrown
      else if left == "" && IsNumber(right) then
        match Stoi(right) case Value(n) => Value(Range(0, Some(n))) case Thrown => Thrown
      else if IsNumber(left) && IsNumber(right) then ParseBounds(s, left, right)
      else Unexpected(BadIndexRange(s))
  }

  function ParseBounds(s: string, left: string, right: string): (r: Expected<Range>)
    requires IsNumber(left) && IsNumber(right)
  {
    match Stoi(left)
    case Thrown => Thrown
    case Value(lower) =>
      match Stoi(right)
      case Thrown => Thrown
      case Value(upper) =>
        if upper < lower then Unexpected(UpperBelowLower(s)) else Value(Range(lower, Some(upper)))
  }

  function RangeText(r: Range): (s: string)
  {
    match r.upper
    case Some(u) => if u != r.lower then Decimal(r.lower) + "-" + Decimal(u) else Decimal(r.lower)
    case None => Decimal(r.lower) + "-"
  }

  /** `Range::to_string` */
  method RangeToString(r: Range) returns (res: string)
    ensures res == RangeText(r)
  {
    res := Decimal(r.lower);
    if r.upper.Some? {
      if r.upper.value != r.lower {
        res := res + "-";
        res := res + Decimal(r.upper.value);
      }
    } else {
      res := res + "-";
    }
  }

  lemma ParsedIsWellFormed(s: string)
    ensures ParseRange(s).Value? ==> ParseRange(s).value.WellFormed()
  {
  }

  lemma NoDash(s: string, rest: string)
    requires IsNumber(s)
    ensures Find(s + "-" + rest, '-') == |s| && !IsNumber(s + "-" + rest)
    ensures (s + "-" + rest)[..|s|] == s && (s + "-" + rest)[|s| + 1..] == rest
  {
    var t := s + "-" + rest;
    assert t[|s|] == '-' && forall i :: 0 <= i < |s| ==> t[i] == s[i];
    assert !IsDigit('-');
  }

  lemma OpenRoundTrip(lower: nat)
    requires lower <= INT_MAX
    ensures ParseRange(Decimal(lower) + "-") == Value(Range(lower, None))
  {
    var l := Decimal(lower);
    DecimalRoundTrip(lower);
    NoDash(l, "");
    assert l + "-" + "" == l + "-";
  }

  lemma ClosedRoundTrip(lower: nat, upper: nat)
    requires lower <= upper <= INT_MAX
    ensures ParseRange(Decimal(lower) + "-" + Decimal(upper)) == Value(Range(lower, Some(upper)))
  {
    DecimalRoundTrip(lower);
    DecimalRoundTrip(upper);
    NoDash(Decimal(lower), Decimal(upper));
  }

  lemma SingleRoundTrip(n: nat)
    requires n <= INT_MAX
    ensures ParseRange(Decimal(n)) == Value(Range(n, Some(n)))
  {
    DecimalRoundTrip(n);
  }

  lemma RangeRoundTrip(r: Range)
    requires r.WellFormed()
    ensures ParseRange(RangeText(r)) == Value(r)
  {
    match r.upper {
      case None => OpenRoundTrip(r.lower);
      case Some(u) => if u != r.lower { ClosedRoundTrip(r.lower, u); } else { SingleRoundTrip(u); }
    }
  }

  // ---- lists of ranges ------------------------------------------------------------------------

  function Tokens(s: string): (tokens: seq<string>)
  {
    var k := Find(s, ',');
    if k == |s| then [s] else [s[..k]] + Tokens(s[k + 1..])
  }

  /** Empty tokens are skipped; the first bad one decides. */
  function ParseTokens(tokens: seq<string>): (r: Expected<seq<Range>>)
  {
    if tokens == [] then Value([])
    else if tokens[0] == "" then ParseTokens(tokens[1..])
    else
      match ParseRange(tokens[0])
      case Unexpected(e) => Unexpected(e)
      case Thrown => Thrown
      case Value(range) =>
        match ParseTokens(tokens[1..])
        case Value(ranges) => Value([range] + ranges)
        case Unexpected(e) => Unexpected(e)
        case Thrown => Thrown
  }

  function Prefixed(front: seq<Range>, r: Expected<seq<Range>>): (p: Expected<seq<Range>>)
  {
    match r
    case Value(ranges) => Value(front + ranges)
    case Unexpected(e) => Unexpected(e)
    case Thrown => Thrown
  }

  lemma TokensStep(s: string)
    ensures
      var k := Find(s, ',');
      Tokens(s) == [s[..k]] + (if k < |s| then Tokens(s[k + 1..]) else [])
  {
    assert s[..|s|] == s;
  }

  /** What the next token adds to the ranges read so far. */
  lemma NextToken(ranges: seq<Range>, token: string, rest: seq<string>, tokens: seq<string>)
    requires tokens == [token] + rest
    ensures
      Prefixed(ranges, ParseTokens(tokens)) ==
      if token == "" then Prefixed(ranges, ParseTokens(rest))
      else match ParseRange(token)
           case Unexpected(e) => Unexpected(e)
           case Thrown => Thrown
           case Value(range) => Prefixed(ranges + [range], ParseTokens(rest))
  {
    assert tokens[0] == token && tokens[1..] == rest;
    var tail := ParseTokens(rest);
    if token != "" && tail.Value? && ParseRange(token).Value? {
      var range := ParseRange(token).value;
      assert ranges + ([range] + tail.value) == ranges + [range] + tail.value;
    }
  }

  lemma PrefixedByNothing(r: Expected<seq<Range>>, ranges: seq<Range>)
    ensures Prefixed([], r) == r && Prefixed(ranges, Value([])) == Value(ranges)
  {
    if r.Value? { assert [] + r.value == r.value; }
    assert ranges + [] == ranges;
  }

  /** `Ranges::parse`: `getline` hands out the tokens one by one. */
  method Parse(s: string) returns (r: Expected<seq<Range>>)
    ensures r == ParseTokens(Tokens(s))
  {
    var ranges: seq<Range> := [];
    var rest := s;
    var more := true;
    PrefixedByNothing(ParseTokens(Tokens(s)), []);
    ghost var all, left := ParseTokens(Tokens(s)), Tokens(s);
    while more
      invariant all == Prefixed(ranges, ParseTokens(left)) && left == if more then Tokens(rest) else []
      decreases more, |rest|
    {
      var k := Find(rest, ',');
      var token := rest[..k];
      TokensStep(rest);
      left := if k < |rest| then Tokens(rest[k + 1..]) else [];
      NextToken(ranges, token, left, Tokens(rest));
      more := k < |rest|;
      rest := if more then rest[k + 1..] else "";
      if token != "" {
        var maybeRange := ParseRange(token);
        match maybeRange {
          case Unexpected(e) => return Unexpected(e);
          case Thrown => return Thrown;
          case Value(range) => ranges := ranges + [range];
        }
      }
    }
    PrefixedByNothing(Thrown, ranges);
    r := Value(ranges);
  }

  /** `boost::algorithm::join` with commas. */
  function Join(texts: seq<string>): (s: string)
  {
    if texts == [] then "" else if |texts| == 1 then texts[0] else texts[0] + "," + Join(texts[1..])
  }

  function Texts(ranges: seq<Range>): (texts: seq<string>)
    ensures |texts| == |ranges| && forall i :: 0 <= i < |ranges| ==> texts[i] == RangeText(ranges[i])
  {
    seq(|ranges|, i requires 0 <= i < |ranges| => RangeText(ranges[i]))
  }

  /** `Ranges::to_string` */
  method ToString(ranges: seq<Range>) returns (s: string)
    ensures s == Join(Texts(ranges))
  {
    var texts: seq<string> := [];
    for i := 0 to |ranges|
      invariant texts == Texts(ranges)[..i]
    {
      var text := RangeToString(ranges[i]);
      texts := texts + [text];
    }
    assert Texts(ranges)[..|ranges|] == Texts(ranges);
    s := Join(texts);
  }

  lemma NumberHasNoComma(s: string)
    requires IsNumber(s)
    ensures ',' !in s
  {
    assert !IsDigit(',');
  }

  lemma TextHasNoComma(r: Range)
    ensures RangeText(r) != "" && ',' !in RangeText(r)
  {
    NumberHasNoComma(Decimal(r.lower));
    if r.upper.Some? { NumberHasNoComma(Decimal(r.upper.value)); }
  }

  lemma FirstToken(t: string, rest: string)
    requires ',' !in t
    ensures Tokens(t) == [t] && Tokens(t + "," + rest) == [t] + Tokens(rest)
  {
    var s := t + "," + rest;
    assert s[|t|] == ',' && forall i :: 0 <= i < |t| ==> s[i] == t[i];
    assert Find(s, ',') == |t| && s[..|t|] == t && s[|t| + 1..] == rest;
  }

  lemma {:induction false} ParseJoined(ranges: seq<Range>)
    requires forall i :: 0 <= i < |ranges| ==> ranges[i].WellFormed()
    ensures ParseTokens(Tokens(Join(Texts(ranges)))) == Value(ranges)
  {
    var texts := Texts(ranges);
    if ranges == [] {
      assert Tokens("")[1..] == [];
    } else {
      var rest := Texts(ranges[1..]);
      assert texts[1..] == rest;
      RangeRoundTrip(ranges[0]);
      TextHasNoComma(ranges[0]);
      FirstToken(texts[0], Join(rest));
      ParseJoined(ranges[1..]);
      assert ranges == [ranges[0]] + ranges[1..];
      if |ranges| == 1 {
        assert Tokens(texts[0])[1..] == [];
      } else {
        assert ([texts[0]] + Tokens(Join(rest)))[1..] == Tokens(Join(rest));
      }
    }
  }

  lemma {:induction false} ParsedAreWellFormed(tokens: seq<string>)
    ensures ParseTokens(tokens).Value? ==>
            forall i :: 0 <= i < |ParseTokens(tokens).value| ==> ParseTokens(tokens).value[i].WellFormed()
  {
    if tokens != [] {
      ParsedAreWellFormed(tokens[1..]);
      ParsedIsWellFormed(tokens[0]);
    }
  }

  /** A printed list of ranges is read back as it was if and only if every bound is an `int` and no upper
      bound is below its lower bound. */
  lemma PrintThenParse(ranges: seq<Range>)
    ensures ParseTokens(Tokens(Join(Texts(ranges)))) == Value(ranges)
       <==> forall i :: 0 <= i < |ranges| ==> ranges[i].WellFormed()
  {
    if forall i :: 0 <= i < |ranges| ==> ranges[i].WellFormed() {
      ParseJoined(ranges);
    } else {
      ParsedAreWellFormed(Tokens(Join(Texts(ranges))));
    }
  }

  // ---- concretization ---------------------------------------------------------------------------

  /** The conversion of a `size_t` to `int`. */
  function ToInt(n: nat): (i: Int)
    ensures n <= INT_MAX ==> i == n
  {
    var low := n % UINT32;
    if low <= INT_MAX then low else low - UINT32
  }

  function ConcreteRange(r: Range, max: Int): (c: Expected<(nat, nat)>)
  {
    var upper := match r.upper case Some(u) => ToInt(u) case None => max;
    if upper > max || upper < 0 || r.lower > upper then Unexpected(IndexOutOfBounds) else Value((r.lower, upper))
  }

  /** The pair stands for the indices of the range up to `max`. */
  ghost predicate Denotes(c: (nat, nat), r: Range, max: Int)
  {
    forall i: nat :: c.0 <= i <= c.1 <==> r.Contains(i) && i <= max
  }

  /** A pair that results is ordered and in bounds; it stands for the indices of the range up to `max` if
      and only if the upper bound is an `int`, or happens to be cut to `max`. */
  lemma ConcreteExactly(r: Range, max: Int)
    requires ConcreteRange(r, max).Value?
    ensures
      var c := ConcreteRange(r, max).value;
      && c.0 <= c.1 <= max
      && (Denotes(c, r, max) <==> r.upper.None? || r.upper.value <= INT_MAX || ToInt(r.upper.value) == max)
  {
    var c := ConcreteRange(r, max).value;
    if r.upper.Some? && r.upper.value > INT_MAX && ToInt(r.upper.value) != max {
      assert r.Contains(c.1 + 1) && c.1 + 1 <= max;
    }
  }

  /** Ranges that were parsed are refused exactly when they reach beyond `max` or begin there. */
  lemma RefusedExactly(r: Range, max: Int)
    requires r.WellFormed()
    ensures ConcreteRange(r, max).Value? <==> r.lower <= max && (r.upper.Some? ==> r.upper.value <= max)
    ensures ConcreteRange(r, max).Value? ==> Denotes(ConcreteRange(r, max).value, r, max)
  {
    if ConcreteRange(r, max).Value? { ConcreteExactly(r, max); }
  }

  /** An upper bound past 32 bits loses its high part: a caller's own range from 0 to 4294967296 becomes the single
      index 0. No text gives that range, for `stoi` throws. */
  lemma WideBoundIsCut()
    ensures ConcreteRange(Range(0, Some(UINT32)), 10) == Value((0, 0))
    ensures !Denotes((0, 0), Range(0, Some(UINT32)), 10)
  {
    assert Range(0, Some(UINT32)).Contains(1);
  }

  /** `concrete_ranges`: all ranges or none. */
  method ConcreteRanges(ranges: seq<Range>, max: Int) returns (r: Expected<seq<(nat, nat)>>)
    ensures r.Value? <==> forall i :: 0 <= i < |ranges| ==> ConcreteRange(ranges[i], max).Value?
    ensures r.Value? ==> |r.value| == |ranges|
    ensures r.Value? ==> forall i :: 0 <= i < |ranges| ==> Value(r.value[i]) == ConcreteRange(ranges[i], max)
    ensures !r.Value? ==> r == Unexpected(IndexOutOfBounds)
  {
    var pairs: seq<(nat, nat)> := [];
    for i := 0 to |ranges|
      invariant |pairs| == i && forall j :: 0 <= j < i ==> Value(pairs[j]) == ConcreteRange(ranges[j], max)
    {
      var maybe := ConcreteRange(ranges[i], max);
      if !maybe.Value? {
        return Unexpected(maybe.error);
      }
      pairs := pairs + [maybe.value];
    }
    r := Value(pairs);
  }

  /** What the command line asks for is what is printed: the pairs made from parsed ranges cover exactly
      the indices of those ranges, none of which lies beyond `max`. */
  lemma ParsedThenConcrete(s: string, max: Int, pairs: seq<(nat, nat)>, i: nat)
    requires ParseTokens(Tokens(s)).Value? && |pairs| == |ParseTokens(Tokens(s)).value|
    requires forall j :: 0 <= j < |pairs| ==> Value(pairs[j]) == ConcreteRange(ParseTokens(Tokens(s)).value[j], max)
    ensures
      var ranges := ParseTokens(Tokens(s)).value;
      (exists j :: 0 <= j < |pairs| && pairs[j].0 <= i <= pairs[j].1)
      <==> i <= max && exists j :: 0 <= j < |ranges| && ranges[j].Contains(i)
  {
    var ranges := ParseTokens(Tokens(s)).value;
    ParsedAreWellFormed(Tokens(s));
    forall j | 0 <= j < |pairs| ensures pairs[j].0 <= i <= pairs[j].1 <==> ranges[j].Contains(i) && i <= max {
      RefusedExactly(ranges[j], max);
      assert Denotes(pairs[j], ranges[j], max);
    }
  }
}
