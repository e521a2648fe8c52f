/** The host's fan curve: `ControlPoints::from`, which reads the
    `temperature:pwm` list from the command line, and
    `ControlPoints::get_pwm_from_temp`, which interpolates it. */
module ControlCurve {
  import opened Wrappers
  import opened Ints
  import opened Parsing

  /** One `(u8, u8)` pair of the curve: temperature threshold and PWM duty. */
  datatype ControlPoint = ControlPoint(temp: U8, pwm: U8)

  /** The duty written when no interval of the curve holds the temperature. */
  const SafePwm: U8 := 255

  /** Why `ControlPoints::from` panics, with the index of the offending
      comma-separated segment. */
  datatype CurveError =
    | BadTemperature(segment: nat, kind: IntErrorKind)
    | MissingColon(segment: nat)
    | BadPwm(segment: nat, kind: IntErrorKind)
  {
    function Segment(): nat {
      match this
      case BadTemperature(i, _) => i
      case MissingColon(i) => i
      case BadPwm(i, _) => i
    }
  }

  /* ---------------------------------------------------------------------- */
  /* Parsing the configuration                                              */
  /* ---------------------------------------------------------------------- */

  /** A segment names a point when it has a ':' and both the text before the
      first ':' and the text between the first and second ':' are `u8`
      numerals. Anything after a second ':' is ignored. */
  predicate WellFormedSegment(segment: string) {
    var fields := Split(segment, ':');
    |fields| >= 2 && ParseU8(fields[0]).Success? && ParseU8(fields[1]).Success?
  }

  function SegmentPoint(segment: string): ControlPoint
    requires WellFormedSegment(segment)
  {
    var fields := Split(segment, ':');
    ControlPoint(ParseU8(fields[0]).value, ParseU8(fields[1]).value)
  }

  /** The closure mapped over the segments:
      `(cp[0].parse::<u8>().unwrap(), cp[1].parse::<u8>().unwrap())`.
      Rust evaluates the tuple left to right, so a bad temperature panics
      before the missing second field is looked up. */
  function ParseSegment(segment: string, index: nat): (r: Result<ControlPoint, CurveError>)
    ensures r.Success? <==> WellFormedSegment(segment)
    ensures r.Success? ==> r.value == SegmentPoint(segment)
    ensures r.Failure? ==> r.error.Segment() == index
    ensures ':' !in segment ==> r.Failure?
  {
    var fields := Split(segment, ':');
    match ParseU8(fields[0])
    case Failure(k) => Failure(BadTemperature(index, k))
    case Success(t) =>
      if |fields| < 2 then Failure(MissingColon(index))
      else
        match ParseU8(fields[1])
        case Failure(k) => Failure(BadPwm(index, k))
        case Success(p) => Success(ControlPoint(t, p))
  }

  /** `.map(f).collect()` into a `Result`, numbering the items from
      `start`: the first failing item ends the walk. */
  function Collect<A, B(==), E(==)>(xs: seq<A>, f: (A, nat) -> Result<B, E>, start: nat): (r: Result<seq<B>, E>)
    ensures r.Success? <==> forall i :: 0 <= i < |xs| ==> f(xs[i], start + i).Success?
    ensures r.Success? ==> |r.value| == |xs|
    ensures r.Success? ==> forall i :: 0 <= i < |xs| ==> r.value[i] == f(xs[i], start + i).value
    ensures r.Failure? ==>
      exists k ::
        && 0 <= k < |xs|
        && f(xs[k], start + k) == Failure(r.error)
        && forall i :: 0 <= i < k ==> f(xs[i], start + i).Success?
    decreases |xs|
  {
    if |xs| == 0 then Success([])
    else
      match f(xs[0], start)
      case Failure(e) => Failure(e)
      case Success(y) =>
        match Collect(xs[1..], f, start + 1)
        case Failure(e) =>
          assert forall i :: 1 <= i < |xs| ==> xs[i] == xs[1..][i - 1];
          var k :| 0 <= k < |xs[1..]| && f(xs[1..][k], start + 1 + k) == Failure(e)
            && forall i :: 0 <= i < k ==> f(xs[1..][i], start + 1 + i).Success?;
          assert f(xs[k + 1], start + (k + 1)) == Failure(e);
          assert forall i :: 0 <= i < k + 1 ==> f(xs[i], start + i).Success? by {
            forall i | 0 < i < k + 1 ensures f(xs[i], start + i).Success? {
              assert f(xs[1..][i - 1], start + 1 + (i - 1)).Success?;
            }
          }
          Failure(e)
        case Success(ys) =>
          assert forall i :: 1 <= i < |xs| ==> xs[i] == xs[1..][i - 1];
          Success([y] + ys)
  }

  /** The segments parsed in order, with the first malformed one ending the
      parse. */
  function ParseSegments(segments: seq<string>): (r: Result<seq<ControlPoint>, CurveError>)
    ensures r.Success? <==> forall i :: 0 <= i < |segments| ==> WellFormedSegment(segments[i])
    ensures r.Success? ==> |r.value| == |segments|
    ensures r.Success? ==> forall i :: 0 <= i < |segments| ==> r.value[i] == SegmentPoint(segments[i])
    ensures r.Failure? ==>
      && r.error.Segment() < |segments|
      && !WellFormedSegment(segments[r.error.Segment()])
      && ParseSegment(segments[r.error.Segment()], r.error.Segment()) == Failure(r.error)
      && forall i :: 0 <= i < r.error.Segment() ==> WellFormedSegment(segments[i])
  {
    Collect(segments, ParseSegment, 0)
  }

  /* ---------------------------------------------------------------------- */
  /* Stable sort by temperature (`sort_by_key(|tp| tp.0)`)                  */
  /* ---------------------------------------------------------------------- */

  predicate SortedByTemp(ps: seq<ControlPoint>) {
    forall i, j :: 0 <= i < j < |ps| ==> ps[i].temp <= ps[j].temp
  }

  /** The points of `ps` whose temperature is `t`, in their original order. */
  function WithTemp(ps: seq<ControlPoint>, t: U8): seq<ControlPoint> {
    if |ps| == 0 then []
    else (if ps[0].temp == t then [ps[0]] else []) + WithTemp(ps[1..], t)
  }

  /** `r` is what a stable sort by temperature makes of `ps`: sorted, a
      permutation, and points with equal temperature keep their order. */
  ghost predicate IsStableSortOf(r: seq<ControlPoint>, ps: seq<ControlPoint>) {
    && SortedByTemp(r)
    && multiset(r) == multiset(ps)
    && forall t: U8 :: WithTemp(r, t) == WithTemp(ps, t)
  }

  lemma {:induction false} WithTempAppend(a: seq<ControlPoint>, b: seq<ControlPoint>, t: U8)
    ensures WithTemp(a + b, t) == WithTemp(a, t) + WithTemp(b, t)
    decreases |a|
  {
    if |a| > 0 {
      assert (a + b)[1..] == a[1..] + b;
      WithTempAppend(a[1..], b, t);
    } else {
      assert a + b == b;
    }
  }

  lemma {:induction false} WithTempAbsent(ps: seq<ControlPoint>, t: U8)
    requires forall i :: 0 <= i < |ps| ==> ps[i].temp != t
    ensures WithTemp(ps, t) == []
    decreases |ps|
  {
    if |ps| > 0 {
      WithTempAbsent(ps[1..], t);
    }
  }

  /** Insert `x` after every point whose temperature is not above its own:
      one step of the stable sort. It adds exactly `x`. */
  function Insert(x: ControlPoint, s: seq<ControlPoint>): (r: seq<ControlPoint>)
    ensures |r| == |s| + 1
    ensures multiset(r) == multiset(s) + multiset{x}
    decreases |s|
  {
    if |s| == 0 then [x]
    else if x.temp < s[0].temp then [x] + s
    else
      var rest := s[1..];
      var inserted := Insert(x, rest);
      assert s == [s[0]] + rest;
      assert multiset(s) == multiset{s[0]} + multiset(rest);
      [s[0]] + inserted
  }

  /** No point of `s` is colder than `lo`. */
  predicate NoneBelow(s: seq<ControlPoint>, lo: int) {
    forall i :: 0 <= i < |s| ==> lo <= s[i].temp as int
  }

  /** Insertion adds no point colder than those already there and `x`. */
  lemma {:induction false} InsertNoneBelow(x: ControlPoint, s: seq<ControlPoint>, lo: int)
    requires NoneBelow(s, lo) && lo <= x.temp as int
    ensures NoneBelow(Insert(x, s), lo)
    decreases |s|
  {
    if |s| > 0 && x.temp >= s[0].temp {
      InsertNoneBelow(x, s[1..], lo);
      var r := [s[0]] + Insert(x, s[1..]);
      assert Insert(x, s) == r;
      forall i | 0 < i < |r| ensures lo <= r[i].temp as int {
        assert r[i] == Insert(x, s[1..])[i - 1];
      }
    }
  }

  /** A point no warmer than a sorted sequence can go in front of it. */
  lemma ConsSorted(h: ControlPoint, t: seq<ControlPoint>)
    requires SortedByTemp(t) && NoneBelow(t, h.temp as int)
    ensures SortedByTemp([h] + t)
  {
    var r := [h] + t;
    forall i, j | 0 <= i < j < |r| ensures r[i].temp <= r[j].temp {
      assert r[j] == t[j - 1];
      if i > 0 {
        assert r[i] == t[i - 1];
      }
    }
  }

  /** The tail of a sorted sequence is sorted and no colder than its head. */
  lemma SortedTail(s: seq<ControlPoint>)
    requires SortedByTemp(s) && |s| > 0
    ensures SortedByTemp(s[1..])
    ensures NoneBelow(s, s[0].temp as int)
  {
    var t := s[1..];
    forall i, j | 0 <= i < j < |t| ensures t[i].temp <= t[j].temp {
      assert t[i] == s[i + 1] && t[j] == s[j + 1];
    }
    forall i | 0 < i < |s| ensures s[0].temp <= s[i].temp {
    }
  }

  /** Insertion keeps the sequence sorted and adds exactly `x`. */
  lemma {:induction false} InsertSorted(x: ControlPoint, s: seq<ControlPoint>)
    requires SortedByTemp(s)
    ensures |Insert(x, s)| == |s| + 1
    ensures multiset(Insert(x, s)) == multiset(s) + multiset{x}
    ensures SortedByTemp(Insert(x, s))
    decreases |s|
  {
    if |s| > 0 {
      SortedTail(s);
      if x.temp >= s[0].temp {
        var tail := s[1..];
        InsertSorted(x, tail);
        assert NoneBelow(tail, s[0].temp as int) by {
          forall i | 0 <= i < |tail| ensures s[0].temp as int <= tail[i].temp as int {
            assert tail[i] == s[i + 1];
          }
        }
        InsertNoneBelow(x, tail, s[0].temp as int);
        ConsSorted(s[0], Insert(x, tail));
      } else {
        ConsSorted(x, s);
      }
    }
  }

  /** Insertion puts `x` after the points of `s` with the same temperature. */
  lemma {:induction false} InsertKeepsOrder(x: ControlPoint, s: seq<ControlPoint>, t: U8)
    requires SortedByTemp(s)
    ensures WithTemp(Insert(x, s), t) == WithTemp(s, t) + WithTemp([x], t)
    decreases |s|
  {
    if |s| == 0 {
    } else if x.temp < s[0].temp {
      InsertInFrontKeepsOrder(x, s, t);
    } else {
      var rest := s[1..];
      SortedTail(s);
      InsertKeepsOrder(x, rest, t);
      ConsKeepsOrder(s[0], Insert(x, rest), rest, x, t);
      assert Insert(x, s) == [s[0]] + Insert(x, rest);
      assert s == [s[0]] + rest;
    }
  }

  /** A common head in front of both sides leaves `x` behind the points of
      its temperature. */
  lemma ConsKeepsOrder(h: ControlPoint, inserted: seq<ControlPoint>, rest: seq<ControlPoint>,
                       x: ControlPoint, t: U8)
    requires WithTemp(inserted, t) == WithTemp(rest, t) + WithTemp([x], t)
    ensures WithTemp([h] + inserted, t) == WithTemp([h] + rest, t) + WithTemp([x], t)
  {
    var a, b, c := WithTemp([h], t), WithTemp(rest, t), WithTemp([x], t);
    WithTempAppend([h], inserted, t);
    WithTempAppend([h], rest, t);
    assert a + (b + c) == (a + b) + c;
  }

  /** The case of `Insert` that puts `x` in front of warmer points. */
  lemma InsertInFrontKeepsOrder(x: ControlPoint, s: seq<ControlPoint>, t: U8)
    requires SortedByTemp(s) && |s| > 0 && x.temp < s[0].temp
    ensures WithTemp(Insert(x, s), t) == WithTemp(s, t) + WithTemp([x], t)
  {
    assert Insert(x, s) == [x] + s;
    WithTempAppend([x], s, t);
    if x.temp == t {
      SortedTail(s);
      WithTempAbsent(s, t);
    } else {
      assert WithTemp([x], t) == [];
    }
  }

  /** `sort_by_key(|tp| tp.0)`: a stable sort by temperature. */
  function SortByTemp(ps: seq<ControlPoint>): (r: seq<ControlPoint>)
    ensures |r| == |ps|
    ensures IsStableSortOf(r, ps)
    decreases |ps|
  {
    if |ps| == 0 then []
    else
      var front, last := ps[..|ps| - 1], ps[|ps| - 1];
      var sortedFront := SortByTemp(front);
      assert ps == front + [last];
      InsertSortsOneMore(front, last, sortedFront);
      Insert(last, sortedFront)
  }

  /** Inserting the next point into a stable sort of the points before it
      gives a stable sort of them all. */
  lemma InsertSortsOneMore(front: seq<ControlPoint>, last: ControlPoint, sortedFront: seq<ControlPoint>)
    requires IsStableSortOf(sortedFront, front)
    ensures IsStableSortOf(Insert(last, sortedFront), front + [last])
  {
    InsertSorted(last, sortedFront);
    forall t: U8 ensures WithTemp(Insert(last, sortedFront), t) == WithTemp(front + [last], t) {
      InsertKeepsOrder(last, sortedFront, t);
      WithTempAppend(front, [last], t);
    }
  }

  /* ---------------------------------------------------------------------- */
  /* ControlPoints::from                                                    */
  /* ---------------------------------------------------------------------- */

  /** The points named by the segments of a well-formed configuration, in
      the order they were written. */
  function ParsedPoints(segments: seq<string>): seq<ControlPoint>
    requires forall i :: 0 <= i < |segments| ==> WellFormedSegment(segments[i])
  {
    seq(|segments|, i requires 0 <= i < |segments| => SegmentPoint(segments[i]))
  }

  /** Points listed segment by segment are the parsed points. */
  lemma ParsedPointsAre(segments: seq<string>, points: seq<ControlPoint>)
    requires forall i :: 0 <= i < |segments| ==> WellFormedSegment(segments[i])
    requires |points| == |segments|
    requires forall i :: 0 <= i < |segments| ==> points[i] == SegmentPoint(segments[i])
    ensures points == ParsedPoints(segments)
  {
  }

  /** `ControlPoints::from`: split on ',', parse each segment as
      `temperature:pwm`, then stable-sort by temperature. Nothing is trimmed,
      so "20:100, 30:150" fails on " 30". */
  function FromString(config: string): (r: Result<seq<ControlPoint>, CurveError>)
    ensures var segments := Split(config, ',');
      r.Success? <==> forall i :: 0 <= i < |segments| ==> WellFormedSegment(segments[i])
    ensures var segments := Split(config, ',');
      r.Success? ==>
        && |r.value| == |segments| >= 1
        && IsStableSortOf(r.value, ParsedPoints(segments))
    ensures var segments := Split(config, ',');
      r.Failure? ==>
        && r.error.Segment() < |segments|
        && !WellFormedSegment(segments[r.error.Segment()])
        && ParseSegment(segments[r.error.Segment()], r.error.Segment()) == Failure(r.error)
        && forall i :: 0 <= i < r.error.Segment() ==> WellFormedSegment(segments[i])
  {
    var segments := Split(config, ',');
    match ParseSegments(segments)
    case Failure(e) => Failure(e)
    case Success(points) =>
      ParsedPointsAre(segments, points);
      var sorted := SortByTemp(points);
      assert IsStableSortOf(sorted, ParsedPoints(segments));
      Success(sorted)
  }

  /** Two separator-free pieces joined by the separator split back apart. */
  lemma SplitTwo(x: string, y: string, sep: char)
    requires sep !in x && sep !in y
    ensures Split(x + [sep] + y, sep) == [x, y]
  {
    assert [x, y][1..] == [y];
    SplitJoinRoundTrip([x, y], sep);
  }

  /** A segment `t:p` of two `u8` numerals names the point `(t, p)`. */
  lemma SimpleSegment(t: string, p: string, index: nat)
    requires ':' !in t && ':' !in p
    requires ParseU8(t).Success? && ParseU8(p).Success?
    ensures ParseSegment(t + [':'] + p, index) == Success(ControlPoint(ParseU8(t).value, ParseU8(p).value))
  {
    SplitTwo(t, p, ':');
  }

  /** Text after a second ':' is never looked at. */
  lemma ExtraFieldsIgnored(t: string, p: string, rest: string, index: nat)
    requires ':' !in t && ':' !in p
    ensures ParseSegment(t + [':'] + p + [':'] + rest, index)
         == ParseSegment(t + [':'] + p, index)
  {
    var long := t + [':'] + p + [':'] + rest;
    assert long == t + [':'] + (p + [':'] + rest);
    SplitLeadingPiece(t, p + [':'] + rest, ':');
    SplitLeadingPiece(p, rest, ':');
    var longFields := Split(long, ':');
    assert longFields == [t] + ([p] + Split(rest, ':'));
    assert |longFields| >= 2 && longFields[0] == t && longFields[1] == p;
    SplitTwo(t, p, ':');
    var shortFields := Split(t + [':'] + p, ':');
    assert |shortFields| == 2 && shortFields[0] == t && shortFields[1] == p;
  }

  /** A segment without ':' fails on its temperature when that is not a
      `u8` numeral, and otherwise on the missing second field. */
  lemma SegmentWithoutColon(segment: string, index: nat)
    requires ':' !in segment
    ensures ParseSegment(segment, index)
         == if ParseU8(segment).Failure? then Failure(BadTemperature(index, ParseU8(segment).error))
            else Failure(MissingColon(index))
  {
    SplitWithoutSeparator(segment, ':');
  }

  /** A configuration without ',' is a curve of one point, or that
      segment's error. */
  lemma ConfigWithoutComma(config: string)
    requires ',' !in config
    ensures FromString(config)
         == match ParseSegment(config, 0)
            case Success(p) => Success([p])
            case Failure(e) => Failure(e)
  {
    SplitWithoutSeparator(config, ',');
    var r := ParseSegments([config]);
    if r.Success? {
      assert r.value == [SegmentPoint(config)];
      assert SortByTemp([SegmentPoint(config)]) == [SegmentPoint(config)] by {
        assert [SegmentPoint(config)][..0] == [];
      }
    }
  }

  lemma SpacedConfigSegments()
    ensures Split("20:100, 30:150", ',') == ["20:100", " 30:150"]
  {
    SplitTwo("20:100", " 30:150", ',');
    assert "20:100" + [','] + " 30:150" == "20:100, 30:150";
  }

  lemma SpacedConfigSecondSegment()
    ensures ParseSegment(" 30:150", 1) == Failure(BadTemperature(1, InvalidDigit))
  {
    SplitTwo(" 30", "150", ':');
    assert " 30" + [':'] + "150" == " 30:150";
    assert ParseU8(" 30") == Failure(InvalidDigit);
  }

  lemma SegmentTwentyHundred(index: nat)
    ensures ParseSegment("20:100", index) == Success(ControlPoint(20, 100))
  {
    assert ParseU8("20") == Success(20) && ParseU8("100") == Success(100);
    SimpleSegment("20", "100", index);
    assert "20" + [':'] + "100" == "20:100";
  }

  /** The usage text's own example has a blank after the comma, which the
      untrimmed `parse::<u8>` rejects in the second segment. */
  lemma SpacedConfigFails()
    ensures FromString("20:100, 30:150") == Failure(BadTemperature(1, InvalidDigit))
  {
    SpacedConfigSegments();
    SegmentTwentyHundred(0);
    SpacedConfigSecondSegment();
    assert WellFormedSegment("20:100");
    assert !WellFormedSegment(" 30:150");
  }

  /** The empty configuration is one empty segment, whose temperature is
      an empty numeral. */
  lemma EmptyConfigFails()
    ensures FromString("") == Failure(BadTemperature(0, Empty))
  {
    ConfigWithoutComma("");
    SegmentWithoutColon("", 0);
  }

  /** A lone temperature has no duty. */
  lemma TemperatureOnlyFails()
    ensures FromString("20") == Failure(MissingColon(0))
  {
    ConfigWithoutComma("20");
    SegmentWithoutColon("20", 0);
    assert ParseU8("20") == Success(20);
  }

  /* ---------------------------------------------------------------------- */
  /* ControlPoints::get_pwm_from_temp                                        */
  /* ---------------------------------------------------------------------- */

  /** Rust's `f32 as u8`: truncation toward zero, saturating at 0 and 255. */
  function CastToU8(x: real): (b: U8)
    ensures 0.0 <= x < 256.0 ==> b == x.Floor
  {
    if x < 0.0 then 0 else if x >= 255.0 then 255 else x.Floor
  }

  /** Pair `j` of the adjacent-pair walk holds `temp` in its half-open
      interval `[t_j, t_(j+1))`. */
  predicate InSegment(points: seq<ControlPoint>, j: int, temp: real) {
    0 <= j < |points| - 1 && points[j].temp as real <= temp < points[j + 1].temp as real
  }

  /** Pair `j` holds `temp` and no later pair does. */
  predicate IsLastSegment(points: seq<ControlPoint>, j: int, temp: real) {
    InSegment(points, j, temp) && forall k :: j < k < |points| - 1 ==> !InSegment(points, k, temp)
  }

  /** `a = (p1 - p2) / (t1 - t2)` for the pair `(lo, hi)`. */
  function Slope(lo: ControlPoint, hi: ControlPoint): real
    requires lo.temp < hi.temp
  {
    (lo.pwm as real - hi.pwm as real) / (lo.temp as real - hi.temp as real)
  }

  /** `a * temp + p1 - a * t1`, before the cast. */
  function Line(lo: ControlPoint, hi: ControlPoint, temp: real): real
    requires lo.temp < hi.temp
  {
    Slope(lo, hi) * temp + lo.pwm as real - Slope(lo, hi) * lo.temp as real
  }

  /** The body of the loop for one pair: `(a * temp + p1 - a * t1) as u8`.
      A pair is only used when its interval holds the temperature, which
      makes `t1 < t2`. */
  function Interpolate(lo: ControlPoint, hi: ControlPoint, temp: real): (r: U8)
    requires lo.temp < hi.temp
    ensures lo.temp as real <= temp < hi.temp as real ==>
      && r == (lo.pwm as real + Slope(lo, hi) * (temp - lo.temp as real)).Floor
      && r >= (if lo.pwm <= hi.pwm then lo.pwm else hi.pwm)
      && r <= (if lo.pwm <= hi.pwm then hi.pwm else lo.pwm)
    ensures temp == lo.temp as real ==> r == lo.pwm
  {
    if lo.temp as real <= temp < hi.temp as real then
      LineWithinSegment(lo, hi, temp);
      CastToU8(Line(lo, hi, temp))
    else
      CastToU8(Line(lo, hi, temp))
  }

  /** The `for_each` over the adjacent pairs from pair `i` on, with `pwm`
      the value held so far: every pair whose interval holds `temp`
      overwrites it, so the last such pair decides. */
  function Scan(points: seq<ControlPoint>, temp: real, i: nat, pwm: Option<U8>): (r: Option<U8>)
    requires i < |points|
    ensures (forall j :: i <= j ==> !InSegment(points, j, temp)) ==> r == pwm
    ensures forall j :: i <= j && IsLastSegment(points, j, temp) ==>
      r == Some(Interpolate(points[j], points[j + 1], temp))
    decreases |points| - i
  {
    if i == |points| - 1 then pwm
    else
      var next :=
        if InSegment(points, i, temp) then Some(Interpolate(points[i], points[i + 1], temp))
        else pwm;
      Scan(points, temp, i + 1, next)
  }

  /** `ControlPoints::get_pwm_from_temp`. `self.0[1..]` panics on an empty
      curve, hence the precondition. */
  function GetPwmFromTemp(points: seq<ControlPoint>, temp: real): (r: U8)
    requires |points| >= 1
    ensures (forall j :: !InSegment(points, j, temp)) ==> r == SafePwm
    ensures forall j :: IsLastSegment(points, j, temp) ==>
      r == Interpolate(points[j], points[j + 1], temp)
  {
    match Scan(points, temp, 0, None)
    case Some(p) => p
    case None => SafePwm
  }

  lemma ScaleBetween(frac: real, c: real)
    requires 0.0 <= frac <= 1.0 && 0.0 <= c
    ensures 0.0 <= frac * c <= c
  {
    assert c - frac * c == (1.0 - frac) * c;
  }

  /** The source's line `a * temp + p1 - a * t1` is the point-slope form
      through `(t1, p1)`, and on `[t1, t2)` it stays between `p1` and `p2`. */
  lemma LineBetween(t1: real, t2: real, p1: real, p2: real, temp: real)
    requires t1 <= temp < t2
    ensures var a := (p1 - p2) / (t1 - t2);
      var v := p1 + a * (temp - t1);
      && a * temp + p1 - a * t1 == v
      && (if p1 <= p2 then p1 else p2) <= v <= (if p1 <= p2 then p2 else p1)
  {
    var a := (p1 - p2) / (t1 - t2);
    var frac := (temp - t1) / (t2 - t1);
    assert frac * (t2 - t1) == temp - t1;
    assert 0.0 <= frac <= 1.0 by {
      assert (1.0 - frac) * (t2 - t1) == t2 - temp;
    }
    assert a == (p2 - p1) / (t2 - t1);
    assert a * (temp - t1) == frac * (p2 - p1);
    if p1 <= p2 {
      ScaleBetween(frac, p2 - p1);
    } else {
      ScaleBetween(frac, p1 - p2);
      assert frac * (p2 - p1) == -(frac * (p1 - p2));
    }
  }

  /** A real between two integers has its floor between them too. */
  lemma FloorBetween(v: real, lo: int, hi: int)
    requires lo as real <= v <= hi as real
    ensures lo <= v.Floor <= hi
  {
  }

  /** Inside `[t1, t2)` the line through both points stays between the two
      duties, so the cast never saturates and only truncates; at the first
      threshold it is the first duty. */
  lemma LineWithinSegment(lo: ControlPoint, hi: ControlPoint, temp: real)
    requires lo.temp as real <= temp < hi.temp as real
    ensures Line(lo, hi, temp) == lo.pwm as real + Slope(lo, hi) * (temp - lo.temp as real)
    ensures 0.0 <= Line(lo, hi, temp) < 256.0
    ensures (if lo.pwm <= hi.pwm then lo.pwm else hi.pwm) <= Line(lo, hi, temp).Floor
    ensures Line(lo, hi, temp).Floor <= (if lo.pwm <= hi.pwm then hi.pwm else lo.pwm)
    ensures temp == lo.temp as real ==> Line(lo, hi, temp).Floor == lo.pwm
  {
    var t1, t2, p1, p2 := lo.temp as real, hi.temp as real, lo.pwm as real, hi.pwm as real;
    var a := Slope(lo, hi);
    assert a == (p1 - p2) / (t1 - t2);
    LineBetween(t1, t2, p1, p2, temp);
    var v := Line(lo, hi, temp);
    assert v == a * temp + p1 - a * t1;
    assert v == p1 + a * (temp - t1);
    if lo.pwm <= hi.pwm {
      assert p1 <= v <= p2;
      FloorBetween(v, lo.pwm, hi.pwm);
    } else {
      assert p2 <= v <= p1;
      FloorBetween(v, hi.pwm, lo.pwm);
    }
  }

  /** On a sorted curve at most one interval holds any temperature. */
  lemma SortedCurveSingleSegment(points: seq<ControlPoint>, temp: real, j: int)
    requires SortedByTemp(points)
    requires InSegment(points, j, temp)
    ensures forall k :: k != j ==> !InSegment(points, k, temp)
  {
    forall k | 0 <= k < |points| - 1 && k != j ensures !InSegment(points, k, temp) {
      if k < j {
        assert points[k + 1].temp <= points[j].temp;
      } else {
        assert points[j + 1].temp <= points[k].temp;
      }
    }
  }

  /** On a sorted curve the duty is the interpolation on the one interval
      holding the temperature. */
  lemma SortedCurveInterpolates(points: seq<ControlPoint>, temp: real, j: int)
    requires SortedByTemp(points)
    requires InSegment(points, j, temp)
    ensures GetPwmFromTemp(points, temp) == Interpolate(points[j], points[j + 1], temp)
  {
    SortedCurveSingleSegment(points, temp, j);
    assert IsLastSegment(points, j, temp);
  }

  /** Below the first threshold, at or above the last one, and on a curve
      of a single point the safe duty is returned. */
  lemma OutsideCurveIsSafe(points: seq<ControlPoint>, temp: real)
    requires |points| >= 1
    requires SortedByTemp(points)
    requires temp < points[0].temp as real || temp >= points[|points| - 1].temp as real
    ensures GetPwmFromTemp(points, temp) == SafePwm
  {
    forall j | 0 <= j < |points| - 1 ensures !InSegment(points, j, temp) {
      assert points[0].temp <= points[j].temp;
      assert points[j + 1].temp <= points[|points| - 1].temp;
    }
  }

  lemma SinglePointIsSafe(p: ControlPoint, temp: real)
    ensures GetPwmFromTemp([p], temp) == SafePwm
  {
  }

  /** The curve of the repository's unit test. */
  const TestCurve: seq<ControlPoint> :=
    [ControlPoint(0, 100), ControlPoint(20, 150), ControlPoint(50, 200), ControlPoint(100, 200)]

  lemma TestCurveSorted()
    ensures SortedByTemp(TestCurve)
  {
  }

  /** The unit test's expectations at the thresholds: the duty of the
      interval's first point. */
  lemma TestCurveAtThresholds()
    ensures GetPwmFromTemp(TestCurve, 0.0) == 100
    ensures GetPwmFromTemp(TestCurve, 20.0) == 150
    ensures GetPwmFromTemp(TestCurve, 50.0) == 200
  {
    TestCurveSorted();
    SortedCurveInterpolates(TestCurve, 0.0, 0);
    SortedCurveInterpolates(TestCurve, 20.0, 1);
    SortedCurveInterpolates(TestCurve, 50.0, 2);
  }

  /** The unit test's expectation between thresholds: 150 + 50/30 * 10 is
      166.67, truncated to 166. */
  lemma TestCurveBetweenThresholds()
    ensures GetPwmFromTemp(TestCurve, 30.0) == 166
  {
    TestCurveSorted();
    SortedCurveInterpolates(TestCurve, 30.0, 1);
    MiddleSegmentAtThirty();
  }

  /** The arithmetic of the middle test segment: the line through (20, 150)
      and (50, 200) is 500/3 at 30 degrees, which floors to 166. */
  lemma MiddleSegmentAtThirty()
    ensures Interpolate(ControlPoint(20, 150), ControlPoint(50, 200), 30.0) == 166
  {
    var lo, hi := ControlPoint(20, 150), ControlPoint(50, 200);
    assert Slope(lo, hi) == 5.0 / 3.0;
    assert Line(lo, hi, 30.0) == 500.0 / 3.0;
    FloorBetween(500.0 / 3.0, 166, 167);
  }

  lemma TestCurveOutside()
    ensures GetPwmFromTemp(TestCurve, -5.0) == SafePwm
    ensures GetPwmFromTemp(TestCurve, 100.0) == SafePwm
    ensures GetPwmFromTemp(TestCurve, 150.0) == SafePwm
  {
    TestCurveSorted();
    OutsideCurveIsSafe(TestCurve, -5.0);
    OutsideCurveIsSafe(TestCurve, 100.0);
    OutsideCurveIsSafe(TestCurve, 150.0);
  }
}
