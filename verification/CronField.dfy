/**
 The syntax of a cron field: comma-separated parts of the forms *, n, n-n, each optionally followed by
 an increment /n, and the set of values they select.
 */
module CronField {
  import opened Cron
  import opened Options
  import Arithmetic

  datatype Error = TooManySlashes | TooManyHyphens | InvalidRange | OutOfRange | InvalidIncrement

  datatype Result<T> = Ok(value: T) | Err(error: Error)

  /** A parsed part. */
  datatype Part = Part(start: int, end: int, incr: int)

  // ---------- strings ----------

  /** strings.Split */
  function Split(s: string, sep: char): (parts: seq<string>)
    ensures |parts| >= 1 && forall p :: p in parts ==> sep !in p
  {
    if s == [] then [""]
    else
      var rest := Split(s[1..], sep);
      if s[0] == sep then [""] + rest else [[s[0]] + rest[0]] + rest[1..]
  }

  /** strings.Join, its inverse. */
  function Join(parts: seq<string>, sep: char): string
    requires |parts| >= 1
  {
    if |parts| == 1 then parts[0] else parts[0] + [sep] + Join(parts[1..], sep)
  }

  lemma {:induction false} JoinSplit(s: string, sep: char)
    ensures Join(Split(s, sep), sep) == s
  {
    if s != [] {
      JoinSplit(s[1..], sep);
      var rest := Split(s[1..], sep);
      if s[0] == sep {
        assert ([""] + rest)[1..] == rest;
      } else {
        var parts := [[s[0]] + rest[0]] + rest[1..];
        assert parts[1..] == rest[1..];
      }
    }
  }

  /** Splitting is the only way to take a string apart at all separators. */
  lemma {:induction false} SplitJoin(parts: seq<string>, sep: char)
    requires |parts| >= 1 && forall p :: p in parts ==> sep !in p
    ensures Split(Join(parts, sep), sep) == parts
    decreases |parts|, |parts[0]|
  {
    var s := Join(parts, sep);
    if parts[0] == "" {
      if |parts| > 1 {
        assert s[1..] == Join(parts[1..], sep) && s[0] == sep;
        SplitJoin(parts[1..], sep);
        assert [""] + parts[1..] == parts;
      } else {
        assert parts == [""];
      }
    } else {
      var shorter := [parts[0][1..]] + parts[1..];
      assert shorter[1..] == parts[1..];
      assert s[1..] == Join(shorter, sep) && s[0] == parts[0][0];
      assert s[0] in parts[0] && parts[0] in parts;
      forall p | p in shorter ensures sep !in p {
        if p == parts[0][1..] { assert forall ch :: ch in p ==> ch in parts[0]; }
      }
      SplitJoin(shorter, sep);
      assert [s[0]] + shorter[0] == parts[0];
      assert [parts[0]] + parts[1..] == parts;
    }
  }

  predicate Digits(s: string) { forall i :: 0 <= i < |s| ==> '0' <= s[i] <= '9' }

  function Value(s: string): (n: int)
    requires Digits(s)
  {
    if s == [] then 0 else Value(s[..|s| - 1]) * 10 + (s[|s| - 1] - '0') as int
  }

  /** One past the largest int. */
  const LIMIT: int := 0x8000_0000_0000_0000

  /** strconv.Atoi on a 64-bit machine: an optional sign and digits, within the range of int64. */
  function Atoi(s: string): Option<int> {
    var negative := s != [] && s[0] == '-';
    var digits := if s != [] && s[0] in {'+', '-'} then s[1..] else s;
    if digits == [] || !Digits(digits) then None
    else
      var n: int := if negative then -Value(digits) else Value(digits);
      if -LIMIT <= n < LIMIT then Some(n) else None
  }

  // ---------- one part ----------

  /** The bounds before the slash; `incr` says that there is a slash. */
  function ParseRange(text: string, incr: bool, min: int, max: int): Result<(int, int)> {
    var bounds := Split(text, '-');
    if |bounds| > 2 then Err(TooManyHyphens)
    else if bounds[0] == "*" then (if |bounds| != 1 then Err(InvalidRange) else Ok((min, max)))
    else
      match Atoi(bounds[0])
      case None => Err(InvalidRange)
      case Some(start) =>
        if |bounds| == 1 then Ok((start, if incr then max else start))
        else
          match Atoi(bounds[1])
          case None => Err(InvalidRange)
          case Some(end) => Ok((start, end))
  }

  /** A part with its bounds and increment checked. */
  function ParsePart(text: string, min: int, max: int): (r: Result<Part>)
    ensures r.Ok? ==> min <= r.value.start <= r.value.end <= max && 1 <= r.value.incr < LIMIT
  {
    var rangeAndIncr := Split(text, '/');
    if |rangeAndIncr| > 2 then Err(TooManySlashes)
    else
      match ParseRange(rangeAndIncr[0], |rangeAndIncr| == 2, min, max)
      case Err(error) => Err(error)
      case Ok((start, end)) =>
        if start > end then Err(InvalidRange)
        else if start < min || end > max then Err(OutOfRange)
        else if |rangeAndIncr| == 1 then Ok(Part(start, end, 1))
        else
          match Atoi(rangeAndIncr[1])
          case None => Err(InvalidIncrement)
          case Some(incr) => if incr <= 0 then Err(InvalidIncrement) else Ok(Part(start, end, incr))
  }

  /** The values a part selects: every incr-th from its start to its end. */
  ghost predicate Selects(p: Part, i: int) {
    p.start <= i <= p.end && p.incr >= 1 && (i - p.start) % p.incr == 0
  }

  // ---------- masks ----------

  const ALL_BITS: Mask := set i | 0 <= i < 64

  /** math.MaxUint64 << k */
  function AllBitsFrom(k: nat): Mask { set i | i in ALL_BITS && k <= i }

  /** ^mask */
  function Complement(mask: Mask): Mask { ALL_BITS - mask }

  /** Between two selected values there is none. */
  lemma NextSelected(start: int, incr: int, i: int, j: int)
    requires incr >= 1 && (i - start) % incr == 0 && i <= j < i + incr
    ensures (j - start) % incr == 0 <==> j == i
    ensures (i + incr - start) % incr == 0
  {
    var q := (i - start) / incr;
    assert i - start == q * incr;
    Arithmetic.QuotientUnique(j - start, incr, q);
    assert j - start == q * incr + (j - start) % incr;
    assert (q + 1) * incr == q * incr + incr;
    Arithmetic.QuotientUnique(i + incr - start, incr, q + 1);
    assert i + incr - start == (q + 1) * incr + (i + incr - start) % incr;
  }

  /** A part as the parser lets it through. */
  predicate Checked(p: Part) {
    0 <= p.start <= p.end < 63 && 1 <= p.incr < LIMIT
  }

  /** The sum of two ints, wrapped around. */
  function Sum(a: int, b: int): int {
    if a + b >= LIMIT then a + b - 2 * LIMIT else a + b
  }

  /** 1 << uint(i): nothing is left of the bit when the count is negative or too large. */
  function Bit(i: int): Mask {
    if 0 <= i < 64 then {i} else {}
  }

  /** How far the increment is from the end of the ints. */
  function Slack(p: Part): int {
    LIMIT - p.incr
  }

  /** Every second value the loop reaches when its index wraps around again and again. */
  ghost predicate Point(p: Part, j: int) {
    j <= p.start && Slack(p) > 0 && (p.start - j) % (2 * Slack(p)) == 0
  }

  /** The bits a part sets: those it selects and, for an increment near the end of the ints, some below its start. */
  ghost predicate Sets(p: Part, i: int) {
    Selects(p, i) || (0 <= i < p.start && Point(p, i))
  }

  lemma StartIsPoint(p: Part)
    requires Slack(p) > 0
    ensures Point(p, p.start)
  {
  }

  lemma NextPoint(p: Part, i: int, j: int)
    requires Slack(p) > 0 && Point(p, i) && i - 2 * Slack(p) <= j <= i
    ensures Point(p, j) <==> j == i || j == i - 2 * Slack(p)
  {
    var m := 2 * Slack(p);
    var k := (p.start - i) / m;
    assert p.start - i == k * m;
    assert (k + 1) * m == k * m + m;
    if j == i - m {
      Arithmetic.QuotientUnique(p.start - j, m, k + 1);
    } else {
      Arithmetic.QuotientUnique(p.start - j, m, k);
    }
    assert p.start - j == (p.start - j) / m * m + (p.start - j) % m;
  }

  /** A part sets exactly what it selects if and only if going round the ints twice does not bring it back. */
  lemma SetsIsSelects(p: Part)
    requires Checked(p)
    ensures (forall i :: Sets(p, i) <==> Selects(p, i)) <==> p.start + 2 * p.incr < 2 * LIMIT
  {
    hide Point;
    StartIsPoint(p);
    if p.start + 2 * p.incr < 2 * LIMIT {
      forall i | 0 <= i < p.start ensures !Point(p, i) {
        NextPoint(p, p.start, i);
      }
    } else {
      var i := p.start - 2 * Slack(p);
      NextPoint(p, p.start, i);
      SelectsFromStart(p, i);
      assert Sets(p, i) && !Selects(p, i);
    }
  }

  lemma SelectsFromStart(p: Part, i: int)
    ensures Selects(p, i) ==> p.start <= i <= p.end
  {
  }

  /** Bits of the points from `low` up to the start. */
  ghost predicate PointsFrom(p: Part, mask: Mask, low: int, r: Mask) {
    forall j :: j in r <==> j in mask || (0 <= j && low <= j && Point(p, j))
  }

  /** The loop is at a point. */
  ghost predicate AtPoint(p: Part, mask: Mask, i: int, r: Mask) {
    -Slack(p) <= i <= p.start && Point(p, i) && PointsFrom(p, mask, i + 1, r)
  }

  /** The loop has wrapped around and is half-way from the point `q` to the next one below. */
  ghost predicate HalfWay(p: Part, mask: Mask, i: int, r: Mask) {
    var q := i + 2 * LIMIT - p.incr;
    Slack(p) <= q <= p.start && Point(p, q) && PointsFrom(p, mask, q, r)
  }

  lemma FromPoint(p: Part, mask: Mask, i: int, r: Mask)
    requires Checked(p) && p.end + p.incr >= LIMIT && AtPoint(p, mask, i, r)
    ensures var n := Sum(i, p.incr);
      if i >= Slack(p) then n <= p.end && HalfWay(p, mask, n, r + Bit(i))
      else n > p.end && PointsFrom(p, mask, 0, r + Bit(i))
  {
    forall j ensures j in r + Bit(i) <==> j in mask || (0 <= j && i <= j && Point(p, j)) {
      assert j in Bit(i) <==> j == i && 0 <= j;
    }
    if i < Slack(p) {
      forall j | 0 <= j < i ensures !Point(p, j) { NextPoint(p, i, j); }
    }
  }

  lemma FromHalfWay(p: Part, mask: Mask, i: int, r: Mask)
    requires Checked(p) && p.end + p.incr >= LIMIT && HalfWay(p, mask, i, r)
    ensures i < 0 && AtPoint(p, mask, Sum(i, p.incr), r)
  {
    var q := i + 2 * LIMIT - p.incr;
    var n := q - 2 * Slack(p);
    assert Sum(i, p.incr) == n;
    NextPoint(p, q, n);
    forall j ensures j in r <==> j in mask || (0 <= j && n + 1 <= j && Point(p, j)) {
      if n < j < q { NextPoint(p, q, j); }
    }
  }

  /** No index of the loop wraps around. */
  predicate Low(p: Part) {
    p.end + p.incr < LIMIT
  }

  /** What the loop has set when its index is `i`. */
  ghost predicate Stepping(p: Part, mask: Mask, i: int, r: Mask) {
    if Low(p) then
      && p.start <= i && p.incr >= 1 && (i - p.start) % p.incr == 0
      && forall j :: j in r <==> j in mask || (Selects(p, j) && j < i)
    else if i > p.end then PointsFrom(p, mask, 0, r)
    else AtPoint(p, mask, i, r) || HalfWay(p, mask, i, r)
  }

  /** Rounds of the loop still to come, at most. */
  ghost function Rounds(p: Part, i: int): int {
    if i > p.end then 0
    else if Low(p) then p.end - i + 1
    else if i >= -63 then 2 * (i + 63) + 1
    else 2 * (i + p.incr + 63) + 2
  }

  lemma OneRound(p: Part, mask: Mask, i: int, r: Mask)
    requires Checked(p) && i <= p.end && Stepping(p, mask, i, r)
    ensures Stepping(p, mask, Sum(i, p.incr), r + Bit(i))
    ensures 0 <= Rounds(p, Sum(i, p.incr)) < Rounds(p, i)
  {
    if Low(p) {
      var n := i + p.incr;
      assert Sum(i, p.incr) == n;
      NextSelected(p.start, p.incr, i, i);
      forall j ensures j in r + Bit(i) <==> j in mask || (Selects(p, j) && j < n) {
        if i <= j < n { NextSelected(p.start, p.incr, i, j); }
      }
    } else if AtPoint(p, mask, i, r) {
      FromPoint(p, mask, i, r);
    } else {
      FromHalfWay(p, mask, i, r);
      assert r + Bit(i) == r;
    }
  }

  lemma AtStart(p: Part, mask: Mask)
    requires Checked(p)
    ensures Stepping(p, mask, p.start, mask)
  {
    hide Selects, Point;
    StartIsPoint(p);
    forall j ensures !(Selects(p, j) && j < p.start) { SelectsFromStart(p, j); }
    forall j | Point(p, j) ensures j <= p.start { NotAbove(p, j); }
    assert (p.start - p.start) % p.incr == 0;
  }

  lemma NotAbove(p: Part, j: int)
    requires Point(p, j)
    ensures j <= p.start
  {
  }

  /** An increment near the end of the ints selects one value. */
  lemma OnlyStart(p: Part, j: int)
    requires Checked(p) && !Low(p)
    ensures Selects(p, j) <==> j == p.start
  {
    if p.start <= j <= p.end {
      Remainder(j - p.start, p.incr);
    }
  }

  lemma Remainder(x: int, m: int)
    requires 0 <= x < m
    ensures x % m == x
  {
    Arithmetic.QuotientUnique(x, m, 0);
  }

  lemma AtEnd(p: Part, mask: Mask, i: int, r: Mask)
    requires Checked(p) && i > p.end && Stepping(p, mask, i, r)
    ensures forall j :: j in r <==> j in mask || Sets(p, j)
  {
    hide Point, Selects;
    if Low(p) {
      SetsIsSelects(p);
      forall j ensures Selects(p, j) ==> j < i { SelectsFromStart(p, j); }
    } else {
      StartIsPoint(p);
      forall j ensures j in r <==> j in mask || Sets(p, j) {
        if Point(p, j) { NotAbove(p, j); }
        OnlyStart(p, j);
      }
    }
  }

  /** The bits of one part are set in the mask; the index of the loop is an int that wraps around. */
  method AddPart(mask: Mask, p: Part) returns (r: Mask)
    requires Checked(p)
    ensures forall i :: i in r <==> i in mask || Sets(p, i)
  {
    if p.incr == 1 {
      r := mask + Complement(AllBitsFrom(p.end + 1)) * AllBitsFrom(p.start);
      SetsIsSelects(p);
    } else {
      hide Stepping, Rounds;
      r := mask;
      var i := p.start;
      AtStart(p, mask);
      while i <= p.end
        invariant Stepping(p, mask, i, r)
        decreases Rounds(p, i)
      {
        OneRound(p, mask, i, r);
        r := r + Bit(i);
        i := Sum(i, p.incr);
      }
      AtEnd(p, mask, i, r);
    }
  }

  /** The parsed parts, up to the first that is wrong. */
  ghost predicate AllOk(parts: seq<string>, min: int, max: int) {
    forall k :: 0 <= k < |parts| ==> ParsePart(parts[k], min, max).Ok?
  }

  ghost predicate SelectedBy(parts: seq<string>, min: int, max: int, i: int) {
    exists k :: 0 <= k < |parts| && ParsePart(parts[k], min, max).Ok? && Selects(ParsePart(parts[k], min, max).value, i)
  }

  ghost predicate SetBy(parts: seq<string>, min: int, max: int, i: int) {
    exists k :: 0 <= k < |parts| && ParsePart(parts[k], min, max).Ok? && Sets(ParsePart(parts[k], min, max).value, i)
  }

  /** No increment is so near the end of the ints that the loop comes round to smaller values. */
  ghost predicate NoneWraps(parts: seq<string>, min: int, max: int) {
    forall k :: 0 <= k < |parts| && ParsePart(parts[k], min, max).Ok? ==>
      var p := ParsePart(parts[k], min, max).value; p.start + 2 * p.incr < 2 * LIMIT
  }

  /** The error is that of the first wrong part. */
  ghost predicate FirstError(parts: seq<string>, min: int, max: int, error: Error) {
    exists k :: 0 <= k < |parts| && ParsePart(parts[k], min, max) == Err(error) && AllOk(parts[..k], min, max)
  }

  // ---------- fields as they are written ----------

  function DigitChar(d: nat): (c: char)
    requires d < 10
    ensures '0' <= c <= '9' && Digit(c) == d
  {
    '0' + d as char
  }

  /** A number in decimal. */
  function Decimal(n: nat): (s: string)
    ensures s != [] && Digits(s)
  {
    if n < 10 then [DigitChar(n)] else Decimal(n / 10) + [DigitChar(n % 10)]
  }

  lemma {:induction false} ValueOfDecimal(n: nat)
    ensures Value(Decimal(n)) == n
  {
    if n < 10 {
      EmptyValue();
      assert Decimal(n)[..0] == [];
    } else {
      ValueOfDecimal(n / 10);
      assert Decimal(n)[..|Decimal(n)| - 1] == Decimal(n / 10);
    }
  }

  /** Reading undoes printing, for every number that is an int. */
  lemma AtoiOfDecimal(n: nat)
    ensures Atoi(Decimal(n)) == if n < LIMIT then Some(n) else None
  {
    ValueOfDecimal(n);
    assert Decimal(n)[0] !in {'+', '-'};
  }

  /** Nothing but signs and digits is read as a number. */
  lemma NotANumber(s: string)
    requires s == [] || exists ch :: ch in s && ch !in "+-0123456789"
    ensures Atoi(s) == None
  {
    if s != [] {
      var k :| 0 <= k < |s| && s[k] !in "+-0123456789";
      var digits := if s[0] in {'+', '-'} then s[1..] else s;
      var d := if s[0] in {'+', '-'} then k - 1 else k;
      assert s[0] in {'+', '-'} ==> k != 0;
      assert digits[d] == s[k];
      TenDigits(s[k]);
      assert !('0' <= digits[d] <= '9');
    }
  }

  lemma TenDigits(c: char)
    ensures '0' <= c <= '9' ==> c in "+-0123456789"
  {
    var s := "+-0123456789";
    if '0' <= c <= '9' {
      var d := 2 + (c - '0') as int;
      assert s[d] == c;
    }
  }

  /** A range as it is written: *, a or a-b. */
  datatype Bounds = Every | From(a: nat) | Between(a: nat, b: nat)

  /** A part as it is written: a range, perhaps with an increment. */
  datatype Piece = Piece(bounds: Bounds, incr: Option<nat>)

  function BoundsText(b: Bounds): string {
    match b
    case Every => "*"
    case From(a) => Decimal(a)
    case Between(a, b) => Decimal(a) + "-" + Decimal(b)
  }

  function Text(p: Piece): string {
    match p.incr
    case None => BoundsText(p.bounds)
    case Some(n) => BoundsText(p.bounds) + "/" + Decimal(n)
  }

  predicate Ints(p: Piece) {
    && (p.bounds.From? ==> p.bounds.a < LIMIT)
    && (p.bounds.Between? ==> p.bounds.a < LIMIT && p.bounds.b < LIMIT)
    && (p.incr.Some? ==> p.incr.value < LIMIT)
  }

  lemma SplitOne(s: string, sep: char)
    requires sep !in s
    ensures Split(s, sep) == [s]
  {
    SplitJoin([s], sep);
  }

  lemma SplitTwo(a: string, b: string, sep: char)
    requires sep !in a && sep !in b
    ensures Split(a + [sep] + b, sep) == [a, b]
  {
    var parts := [a, b];
    SplitJoin(parts, sep);
    assert parts[1..] == [b];
    assert Join(parts, sep) == a + [sep] + b;
  }

  lemma OnlyDigits(n: nat, c: char)
    requires c < '0' || '9' < c
    ensures c !in Decimal(n)
  {
  }

  lemma OnlyBounds(b: Bounds, c: char)
    requires (c < '0' || '9' < c) && c != '*' && c != '-'
    ensures c !in BoundsText(b)
  {
    match b
    case Every =>
    case From(a) => OnlyDigits(a, c);
    case Between(a, b) =>
      OnlyDigits(a, c);
      OnlyDigits(b, c);
  }

  lemma OnlyText(p: Piece)
    ensures ',' !in Text(p)
  {
    OnlyBounds(p.bounds, ',');
    if p.incr.Some? { OnlyDigits(p.incr.value, ','); }
  }

  /** The ranges that ParseRange reads. */
  lemma RangeRead(b: Bounds, incr: bool, min: int, max: int)
    requires Ints(Piece(b, None))
    ensures ParseRange(BoundsText(b), incr, min, max) == Ok(
      match b
      case Every => (min, max)
      case From(a) => (a, if incr then max else a)
      case Between(a, b) => (a, b))
  {
    hide Split, Atoi, Decimal;
    match b
    case Every =>
      SplitOne("*", '-');
    case From(a) =>
      OnlyDigits(a, '-');
      OnlyDigits(a, '*');
      SplitOne(Decimal(a), '-');
      AtoiOfDecimal(a);
      NoStar(Decimal(a));
    case Between(a, b) =>
      OnlyDigits(a, '-');
      OnlyDigits(a, '*');
      OnlyDigits(b, '-');
      SplitTwo(Decimal(a), Decimal(b), '-');
      AtoiOfDecimal(a);
      AtoiOfDecimal(b);
      NoStar(Decimal(a));
  }

  lemma NoStar(s: string)
    requires '*' !in s
    ensures s != "*"
  {
    var star := "*";
    assert star[0] == '*';
  }

  /** A part is read as what is written. */
  lemma PieceRead(p: Piece, min: int, max: int)
    requires Ints(p) && min <= max
    ensures ParsePart(Text(p), min, max) ==
      match p
      case Piece(Every, None) => Ok(Part(min, max, 1))
      case Piece(From(a), None) => if min <= a <= max then Ok(Part(a, a, 1)) else Err(OutOfRange)
      case Piece(Between(a, b), None) =>
        if a > b then Err(InvalidRange) else if min <= a && b <= max then Ok(Part(a, b, 1)) else Err(OutOfRange)
      case Piece(Every, Some(n)) => if n == 0 then Err(InvalidIncrement) else Ok(Part(min, max, n))
      case Piece(From(a), Some(n)) =>
        if a > max then Err(InvalidRange) else if a < min then Err(OutOfRange)
        else if n == 0 then Err(InvalidIncrement) else Ok(Part(a, max, n))
      case Piece(Between(a, b), Some(n)) =>
        if a > b then Err(InvalidRange) else if a < min || b > max then Err(OutOfRange)
        else if n == 0 then Err(InvalidIncrement) else Ok(Part(a, b, n))
  {
    hide Split, Atoi, Decimal, ParseRange, BoundsText;
    OnlyBounds(p.bounds, '/');
    RangeRead(p.bounds, p.incr.Some?, min, max);
    match p.incr
    case None =>
      SplitOne(BoundsText(p.bounds), '/');
    case Some(n) =>
      OnlyDigits(n, '/');
      SplitTwo(BoundsText(p.bounds), Decimal(n), '/');
      AtoiOfDecimal(n);
  }

  /** Parts of other forms are refused: too many slashes or hyphens, a * with a hyphen, and what is not a number. */
  lemma PieceRefused(pieces: seq<string>, bounds: seq<string>, min: int, max: int)
    requires |pieces| >= 1 && |bounds| >= 1 && Join(bounds, '-') == pieces[0]
    requires (forall s :: s in pieces ==> '/' !in s) && (forall s :: s in bounds ==> '-' !in s)
    ensures var r := ParsePart(Join(pieces, '/'), min, max);
      if |pieces| > 2 then r == Err(TooManySlashes)
      else if |bounds| > 2 then r == Err(TooManyHyphens)
      else
        && (bounds[0] == "*" && |bounds| == 2 ==> r == Err(InvalidRange))
        && (bounds[0] != "*" && Atoi(bounds[0]) == None ==> r == Err(InvalidRange))
        && (bounds[0] != "*" && |bounds| == 2 && Atoi(bounds[1]) == None ==> r == Err(InvalidRange))
        && (|pieces| == 2 && Atoi(pieces[1]) == None ==> r.Err?)
        && (bounds == ["*"] && min <= max && |pieces| == 2 && Atoi(pieces[1]) == None ==> r == Err(InvalidIncrement))
  {
    hide Split, Atoi, Join;
    SplitJoin(pieces, '/');
    SplitJoin(bounds, '-');
  }

  /** A number beyond the ints is not read. */
  lemma TooBig(p: Piece, min: int, max: int)
    requires !Ints(p)
    ensures ParsePart(Text(p), min, max).Err?
  {
    hide Split, Atoi, Decimal, BoundsText, ParseRange;
    OnlyBounds(p.bounds, '/');
    if !Ints(Piece(p.bounds, None)) { RangeTooBig(p.bounds, p.incr.Some?, min, max); }
    match p.incr
    case None =>
      SplitOne(BoundsText(p.bounds), '/');
    case Some(n) =>
      OnlyDigits(n, '/');
      SplitTwo(BoundsText(p.bounds), Decimal(n), '/');
      AtoiOfDecimal(n);
  }

  lemma RangeTooBig(b: Bounds, incr: bool, min: int, max: int)
    requires !Ints(Piece(b, None))
    ensures ParseRange(BoundsText(b), incr, min, max) == Err(InvalidRange)
  {
    hide Split, Atoi, Decimal;
    match b
    case Every =>
    case From(a) =>
      OnlyDigits(a, '-');
      OnlyDigits(a, '*');
      SplitOne(Decimal(a), '-');
      AtoiOfDecimal(a);
      NoStar(Decimal(a));
    case Between(a, b) =>
      OnlyDigits(a, '-');
      OnlyDigits(a, '*');
      OnlyDigits(b, '-');
      SplitTwo(Decimal(a), Decimal(b), '-');
      AtoiOfDecimal(a);
      AtoiOfDecimal(b);
      NoStar(Decimal(a));
  }

  /** A part that is accepted. */
  predicate Right(p: Piece, min: int, max: int) {
    && (p.incr.Some? ==> 1 <= p.incr.value < LIMIT)
    && match p.bounds
       case Every => true
       case From(a) => min <= a <= max
       case Between(a, b) => min <= a <= b <= max
  }

  /** The values it stands for. */
  predicate StandsFor(p: Piece, min: int, max: int, i: int) {
    var step := if p.incr.None? || p.incr.value == 0 then 1 else p.incr.value;
    match p.bounds
    case Every => min <= i <= max && (i - min) % step == 0
    case From(a) => if p.incr.None? then i == a else a <= i <= max && (i - a) % step == 0
    case Between(a, b) => a <= i <= b && (i - a) % step == 0
  }

  /** The comma-separated list of parts. */
  function Texts(pieces: seq<Piece>): seq<string> {
    seq(|pieces|, k requires 0 <= k < |pieces| => Text(pieces[k]))
  }

  function FieldText(pieces: seq<Piece>): string
    requires |pieces| >= 1
  {
    Join(Texts(pieces), ',')
  }

  lemma TextsSplit(pieces: seq<Piece>)
    requires |pieces| >= 1
    ensures Split(FieldText(pieces), ',') == Texts(pieces)
  {
    var texts := Texts(pieces);
    forall s | s in texts ensures ',' !in s {
      var k :| 0 <= k < |texts| && s == texts[k];
      OnlyText(pieces[k]);
    }
    SplitJoin(texts, ',');
  }

  /** A part is accepted exactly if it is right, and then selects what it stands for. */
  lemma PieceSelects(p: Piece, min: int, max: int)
    requires min <= max < 63
    ensures ParsePart(Text(p), min, max).Ok? <==> Right(p, min, max)
    ensures Right(p, min, max) ==>
      forall i :: Selects(ParsePart(Text(p), min, max).value, i) <==> StandsFor(p, min, max, i)
  {
    hide Text, ParsePart;
    if Ints(p) { PieceRead(p, min, max); } else { TooBig(p, min, max); }
  }

  /** The values that the parts stand for together. */
  ghost predicate Union(pieces: seq<Piece>, min: int, max: int, i: int) {
    exists k :: 0 <= k < |pieces| && StandsFor(pieces[k], min, max, i)
  }

  /** No increment is so large that the loop over a part wraps around. */
  predicate Moderate(pieces: seq<Piece>, max: int) {
    forall k :: 0 <= k < |pieces| && pieces[k].incr.Some? ==> max + 2 * pieces[k].incr.value < 2 * LIMIT
  }

  predicate AllRight(pieces: seq<Piece>, min: int, max: int) {
    forall k :: 0 <= k < |pieces| ==> Right(pieces[k], min, max)
  }

  /** A field is accepted exactly if all its parts are right, and then selects all that they stand for. */
  lemma FieldRead(pieces: seq<Piece>, min: int, max: int)
    requires |pieces| >= 1 && 0 <= min <= max < 63
    ensures var parts := Split(FieldText(pieces), ',');
      && (AllOk(parts, min, max) <==> AllRight(pieces, min, max))
      && (AllRight(pieces, min, max) ==> forall i :: SelectedBy(parts, min, max, i) <==> Union(pieces, min, max, i))
      && (Moderate(pieces, max) ==> NoneWraps(parts, min, max))
  {
    hide Text, ParsePart, FieldText, Split, StandsFor, Selects, Right;
    TextsSplit(pieces);
    var parts := Texts(pieces);
    forall k | 0 <= k < |pieces|
      ensures ParsePart(parts[k], min, max).Ok? <==> Right(pieces[k], min, max)
      ensures ParsePart(parts[k], min, max).Ok? ==> forall i ::
        Selects(ParsePart(parts[k], min, max).value, i) <==> StandsFor(pieces[k], min, max, i)
      ensures Moderate(pieces, max) && ParsePart(parts[k], min, max).Ok? ==>
        var p := ParsePart(parts[k], min, max).value; p.start + 2 * p.incr < 2 * LIMIT
    {
      assert parts[k] == Text(pieces[k]);
      PieceSelects(pieces[k], min, max);
      if Right(pieces[k], min, max) { RightStart(pieces[k], min, max); }
    }
    if AllRight(pieces, min, max) {
      assert forall k :: 0 <= k < |pieces| ==> ParsePart(parts[k], min, max).Ok?;
      forall i | Union(pieces, min, max, i) ensures SelectedBy(parts, min, max, i) {
        var k :| 0 <= k < |pieces| && StandsFor(pieces[k], min, max, i);
        assert ParsePart(parts[k], min, max).Ok?;
      }
    }
  }

  lemma RightStart(p: Piece, min: int, max: int)
    requires Right(p, min, max) && min <= max < 63
    ensures ParsePart(Text(p), min, max).Ok?
    ensures var r := ParsePart(Text(p), min, max).value; r.start <= max
    ensures var r := ParsePart(Text(p), min, max).value; r.incr == if p.incr.Some? then p.incr.value else 1
  {
    hide Text, ParsePart;
    PieceRead(p, min, max);
  }

  /** parseCronField: the field is right exactly if all its parts are, and then its mask holds the values
      that some part selects, and no others unless the index of a loop has wrapped around. */
  method ParseField(field: string, min: int, max: int) returns (r: Result<Mask>)
    requires 0 <= min <= max < 63
    ensures r.Ok? <==> AllOk(Split(field, ','), min, max)
    ensures r.Ok? ==> forall i :: i in r.value <==> SetBy(Split(field, ','), min, max, i)
    ensures r.Ok? && NoneWraps(Split(field, ','), min, max) ==>
      forall i :: i in r.value <==> SelectedBy(Split(field, ','), min, max, i)
    ensures r.Ok? ==> exists i :: i in r.value && min <= i <= max
    ensures r.Ok? && NoneWraps(Split(field, ','), min, max) ==> forall i :: i in r.value ==> min <= i <= max
    ensures r.Err? ==> FirstError(Split(field, ','), min, max, r.error)
    ensures forall pieces: seq<Piece> :: pieces != [] && field == FieldText(pieces) ==>
      && (r.Ok? <==> AllRight(pieces, min, max))
      && (r.Ok? && Moderate(pieces, max) ==> forall i :: i in r.value <==> Union(pieces, min, max, i))
  {
    hide ParsePart, Selects, Sets, Split, FieldText, Union, AllRight, Moderate;
    forall pieces: seq<Piece> | pieces != [] && field == FieldText(pieces)
      ensures var parts := Split(field, ',');
        && (AllOk(parts, min, max) <==> AllRight(pieces, min, max))
        && (AllRight(pieces, min, max) ==> forall i :: SelectedBy(parts, min, max, i) <==> Union(pieces, min, max, i))
        && (Moderate(pieces, max) ==> NoneWraps(parts, min, max))
    {
      FieldRead(pieces, min, max);
    }
    var parts := Split(field, ',');
    var mask: Mask := {};
    for k := 0 to |parts|
      invariant AllOk(parts[..k], min, max)
      invariant forall i :: i in mask <==> SetBy(parts[..k], min, max, i)
      invariant k > 0 ==> exists i :: i in mask && min <= i <= max
    {
      var part := ParsePart(parts[k], min, max);
      if part.Err? {
        assert AllOk(parts[..k], min, max) && !AllOk(parts, min, max);
        return Err(part.error);
      }
      SetsStart(part.value);
      ghost var before := mask;
      mask := AddPart(mask, part.value);
      assert part.value.start in mask;
      OneMore(parts, k, min, max, before, mask);
    }
    assert parts[..|parts|] == parts;
    if NoneWraps(parts, min, max) {
      NoWrapAround(parts, min, max);
    }
    return Ok(mask);
  }

  lemma SetsStart(p: Part)
    ensures p.start <= p.end && p.incr >= 1 ==> Sets(p, p.start)
  {
  }

  lemma NoWrapAround(parts: seq<string>, min: int, max: int)
    requires 0 <= min <= max < 63 && NoneWraps(parts, min, max)
    ensures forall i :: SetBy(parts, min, max, i) <==> SelectedBy(parts, min, max, i)
    ensures forall i :: SelectedBy(parts, min, max, i) ==> min <= i <= max
  {
    hide ParsePart, Selects, Sets;
    forall i ensures SetBy(parts, min, max, i) <==> SelectedBy(parts, min, max, i) {
      if SetBy(parts, min, max, i) {
        var k :| 0 <= k < |parts| && ParsePart(parts[k], min, max).Ok? && Sets(ParsePart(parts[k], min, max).value, i);
        SetsIsSelects(ParsePart(parts[k], min, max).value);
      }
      if SelectedBy(parts, min, max, i) {
        var k :| 0 <= k < |parts| && ParsePart(parts[k], min, max).Ok? &&
          Selects(ParsePart(parts[k], min, max).value, i);
        SetsIsSelects(ParsePart(parts[k], min, max).value);
      }
    }
    forall i | SelectedBy(parts, min, max, i) ensures min <= i <= max {
      var k :| 0 <= k < |parts| && ParsePart(parts[k], min, max).Ok? && Selects(ParsePart(parts[k], min, max).value, i);
      SelectsFromStart(ParsePart(parts[k], min, max).value, i);
    }
  }

  lemma OneMore(parts: seq<string>, k: nat, min: int, max: int, before: Mask, mask: Mask)
    requires k < |parts| && AllOk(parts[..k], min, max) && ParsePart(parts[k], min, max).Ok?
    requires forall i :: i in before <==> SetBy(parts[..k], min, max, i)
    requires forall i :: i in mask <==> i in before || Sets(ParsePart(parts[k], min, max).value, i)
    ensures AllOk(parts[..k + 1], min, max)
    ensures forall i :: i in mask <==> SetBy(parts[..k + 1], min, max, i)
  {
    hide ParsePart, Sets;
    var longer := parts[..k + 1];
    assert longer == parts[..k] + [parts[k]];
    forall i
      ensures SetBy(longer, min, max, i) <==>
        SetBy(parts[..k], min, max, i) || Sets(ParsePart(parts[k], min, max).value, i)
    {
      if SetBy(parts[..k], min, max, i) {
        var j :| 0 <= j < k && ParsePart(parts[..k][j], min, max).Ok? &&
          Sets(ParsePart(parts[..k][j], min, max).value, i);
        assert longer[j] == parts[..k][j];
      }
      if Sets(ParsePart(parts[k], min, max).value, i) {
        assert longer[k] == parts[k];
      }
      if SetBy(longer, min, max, i) {
        var j :| 0 <= j < |longer| && ParsePart(longer[j], min, max).Ok? &&
          Sets(ParsePart(longer[j], min, max).value, i);
        assert j < k ==> longer[j] == parts[..k][j];
      }
    }
  }

  lemma ValueStep(s: string, n: nat)
    requires n < |s| && Digits(s)
    ensures Value(s[..n + 1]) == Value(s[..n]) * 10 + (s[n] - '0') as int
  {
    assert s[..n + 1][..n] == s[..n];
  }

  function Digit(c: char): int
    requires '0' <= c <= '9'
  {
    (c - '0') as int
  }

  lemma FourSteps(s: string, n: nat)
    requires n + 4 <= |s| && Digits(s)
    ensures Value(s[..n + 4]) == Value(s[..n]) * 10000
      + Digit(s[n]) * 1000 + Digit(s[n + 1]) * 100 + Digit(s[n + 2]) * 10 + Digit(s[n + 3])
  {
    hide Value;
    ValueStep(s, n);
    ValueStep(s, n + 1);
    ValueStep(s, n + 2);
    ValueStep(s, n + 3);
  }

  lemma BigDigits()
    ensures Digits("9223372036854775807")
  {
  }

  lemma BigValue()
    ensures Digits("9223372036854775807") && Value("9223372036854775807") == LIMIT - 1
  {
    BigDigits();
    hide Value, Digits;
    var s := "9223372036854775807";
    EmptyValue();
    assert s[..0] == [];
    FourSteps(s, 0);
    FourSteps(s, 4);
    FourSteps(s, 8);
    FourSteps(s, 12);
    ValueStep(s, 16);
    ValueStep(s, 17);
    ValueStep(s, 18);
    assert s[..19] == s;
  }

  lemma EmptyValue()
    ensures Value([]) == 0
  {
  }

  lemma SlashExample()
    ensures Split("5/9223372036854775807", '/') == ["5", "9223372036854775807"]
    ensures Split("5", '-') == ["5"]
  {
    hide Split;
    var parts := ["5", "9223372036854775807"];
    SplitJoin(parts, '/');
    assert parts[1..] == [parts[1]];
    assert Join(parts, '/') == parts[0] + ['/'] + parts[1];
    assert "5/9223372036854775807" == parts[0] + ['/'] + parts[1];
    SplitJoin(["5"], '-');
  }

  lemma ParseExample()
    ensures ParsePart("5/9223372036854775807", 0, 23) == Ok(Part(5, 23, LIMIT - 1))
  {
    hide Split, Value;
    SlashExample();
    assert Atoi("9223372036854775807") == Some(LIMIT - 1) by { BigValue(); }
    assert Atoi("5") == Some(5) by { EmptyValue(); ValueStep("5", 0); assert "5"[..1] == "5" && "5"[..0] == []; }
    hide Atoi;
  }

  /** The hour field 5/9223372036854775807 selects hour 5 only, and its mask holds hours 1 and 3 too. */
  lemma WrapAroundExample()
    ensures var field := "5/9223372036854775807";
      && Split(field, ',') == [field] && AllOk([field], 0, 23)
      && (forall i :: SelectedBy([field], 0, 23, i) <==> i == 5)
      && (forall i :: SetBy([field], 0, 23, i) <==> i in {1, 3, 5})
  {
    hide ParsePart, Split;
    var field := "5/9223372036854775807";
    SplitJoin([field], ',');
    ParseExample();
    var p := Part(5, 23, LIMIT - 1);
    assert [field][0] == field;
    forall i ensures Selects(p, i) <==> i == 5 { OnlyStart(p, i); }
    forall i ensures Point(p, i) <==> i <= 5 && (5 - i) % 2 == 0 { }
  }
}
