/** `DateFormatter`: a format string is cut at its sub-second and second specifiers, the segments are
    formatted once per second and cached per thread for all formatters, and each call splices the
    digits of its own sub-second part into the cached text. */
module DateFormatter {
  import opened Arithmetic
  import opened Bytes
  import opened Printing

  const NANOS := 1_000_000_000

  /** `absl::FormatTime` in UTC: any function of a segment and a time in seconds. */
  type FormatTime = (string, int) -> string

  // ---------------------------------------------------------------- specifiers in a format string

  /** What `%f`, `%1f` to `%9f` and `%s` match: `length` characters, to be replaced by `width`. */
  datatype Match = Match(length: nat, width: nat, second: bool)

  function MatchAt(s: string): (m: Option<Match>)
    ensures m.Some? ==> 2 <= m.value.length <= |s| && 0 < m.value.width <= 9 && (m.value.second ==> m.value.width == 2)
  {
    if |s| < 2 || s[0] != '%' then None
    else if s[1] == 'f' then Some(Match(2, 9, false))
    else if s[1] == 's' then Some(Match(2, 2, true))
    else if |s| >= 3 && s[2] == 'f' && '1' <= s[1] <= '9' then Some(Match(3, (s[1] - '0') as nat, false))
    else None
  }

  /** The position of the leftmost match, or the end of the string. */
  function MatchPosition(s: string): (p: nat)
    ensures p <= |s|
    ensures p < |s| ==> MatchAt(s[p..]).Some?
  {
    if s == "" || MatchAt(s).Some? then assert s[0..] == s; 0
    else
      var p := 1 + MatchPosition(s[1..]);
      assert s[p..] == s[1..][p - 1..];
      p
  }

  lemma {:induction false} MatchIsLeftmost(s: string, q: nat)
    requires q < MatchPosition(s)
    ensures MatchAt(s[q..]).None?
  {
    if q == 0 {
      assert s[0..] == s;
    } else {
      MatchIsLeftmost(s[1..], q - 1);
      assert s[q..] == s[1..][q - 1..];
    }
  }

  /** The leftmost match itself. */
  function FirstMatch(s: string): (m: Match)
    requires MatchPosition(s) < |s|
    ensures 2 <= m.length <= |s| - MatchPosition(s) && 0 < m.width <= 9 && (m.second ==> m.width == 2)
  {
    MatchAt(s[MatchPosition(s)..]).value
  }

  function Prefix(s: string): string {
    s[..MatchPosition(s)]
  }

  function Suffix(s: string): (t: string)
    requires MatchPosition(s) < |s|
    ensures |t| < |s|
  {
    s[MatchPosition(s) + FirstMatch(s).length..]
  }

  /** A format string cut at its matches: each with the text before it, and the text behind the last. */
  datatype Pieces = Last(text: string) | Piece(segment: string, m: Match, rest: Pieces)

  predicate WellCut(p: Pieces) {
    p.Piece? ==> 0 < p.m.width <= 9 && (p.m.second ==> p.m.width == 2) && WellCut(p.rest)
  }

  function PiecesOf(s: string): (p: Pieces)
    ensures WellCut(p)
    decreases |s|
  {
    if MatchPosition(s) == |s| then Last(s) else Piece(Prefix(s), FirstMatch(s), PiecesOf(Suffix(s)))
  }

  /** A time: its second and the digits below the second. */
  datatype Moment = Moment(second: int, digits: string)

  /** The text of a time: segments formatted as a whole, `%s` the seconds, `%Nf` the first N of the
      digits below the second. No cache and no positions. */
  function Rendered(f: FormatTime, p: Pieces, t: Moment): string {
    match p
    case Last(text) => if text == "" then "" else f(text, t.second)
    case Piece(segment, m, rest) =>
      f(segment, t.second) +
      (if m.second then Signed(t.second) else t.digits[..Min(|t.digits|, m.width)]) +
      Rendered(f, rest, t)
  }

  function Render(f: FormatTime, format: string, t: Moment): string {
    Rendered(f, PiecesOf(format), t)
  }

  // ---------------------------------------------------------------- parsing

  datatype Specifier = Specifier(position: nat, width: nat, segment: string, second: bool)

  function SpecifierOf(segment: string, m: Match, step: nat): Specifier {
    Specifier(step + |segment|, m.width, segment, m.second)
  }

  /** What `parse` records for the pieces of a format string whose formatted form starts at `step`. */
  function Recorded(p: Pieces, step: nat): seq<Specifier> {
    match p
    case Last(text) => if text == "" then [] else [Specifier(step, 0, text, false)]
    case Piece(segment, m, rest) =>
      var x := SpecifierOf(segment, m, step);
      [x] + Recorded(rest, x.position + x.width)
  }

  function Specifiers(format: string): seq<Specifier> {
    Recorded(PiecesOf(format), 0)
  }

  lemma PiecesNext(s: string)
    requires MatchPosition(s) < |s|
    ensures PiecesOf(s) == Piece(Prefix(s), FirstMatch(s), PiecesOf(Suffix(s)))
  {
  }

  lemma RecordedStep(p: Pieces, step: nat, x: Specifier, before: seq<Specifier>, after: seq<Specifier>,
                     next: nat, goal: seq<Specifier>)
    requires p.Piece? && x == SpecifierOf(p.segment, p.m, step) && next == x.position + x.width
    requires before + Recorded(p, step) == goal && after == before + [x]
    ensures after + Recorded(p.rest, next) == goal
  {
    JoinNext(before, [x], Recorded(p.rest, next), after, goal);
  }

  method Parse(format: string) returns (specifiers: seq<Specifier>)
    ensures specifiers == Specifiers(format)
  {
    var suffix := format;
    var step: nat := 0;
    specifiers := [];
    ghost var goal, pieces := Specifiers(format), PiecesOf(format);
    while MatchPosition(suffix) < |suffix|
      invariant pieces == PiecesOf(suffix) && specifiers + Recorded(pieces, step) == goal
      decreases |suffix|
    {
      var specifier := SpecifierOf(Prefix(suffix), FirstMatch(suffix), step);
      ghost var before, at := specifiers, step;
      PiecesNext(suffix);
      specifiers := specifiers + [specifier];
      step := specifier.position + specifier.width;
      suffix := Suffix(suffix);
      RecordedStep(pieces, at, specifier, before, specifiers, step, goal);
      pieces := pieces.rest;
    }
    if suffix != "" {
      specifiers := specifiers + [Specifier(step, 0, suffix, false)];
    }
  }

  // ---------------------------------------------------------------- the template

  function Questions(n: nat): (s: string)
    ensures |s| == n
  {
    seq(n, (i: nat) => '?')
  }

  /** One specifier's segment with a placeholder, and with what belongs in its place. */
  function Held(f: FormatTime, x: Specifier, second: int): string {
    f(x.segment, second) + if x.second then Signed(second) else Questions(x.width)
  }

  function Filled(f: FormatTime, x: Specifier, t: Moment): string {
    f(x.segment, t.second) +
    if x.second then Signed(t.second) else t.digits[..Min(|t.digits|, x.width)]
  }

  function Template(f: FormatTime, xs: seq<Specifier>, second: int): string {
    if xs == [] then "" else Held(f, xs[0], second) + Template(f, xs[1..], second)
  }

  /** By how much a specifier shifts what follows it. */
  function Shift(f: FormatTime, x: Specifier, second: int): int {
    |f(x.segment, second)| + (if x.second then |Signed(second)| - 2 else 0) - |x.segment|
  }

  function Offsets(f: FormatTime, xs: seq<Specifier>, second: int, previous: int): (r: seq<int>)
    ensures |r| == |xs|
  {
    if xs == [] then []
    else
      var offset := previous + Shift(f, xs[0], second);
      [offset] + Offsets(f, xs[1..], second, offset)
  }

  /** One more segment: the text so far, and that of the rest. */
  lemma TemplateStep(f: FormatTime, xs: seq<Specifier>, second: int, text: string, held: string, text': string,
                     rest: seq<Specifier>, goal: string)
    requires xs != [] && rest == xs[1..] && held == Held(f, xs[0], second)
    requires text + Template(f, xs, second) == goal && text' == text + held
    ensures text' + Template(f, rest, second) == goal
  {
    assert Template(f, xs, second) == Held(f, xs[0], second) + Template(f, xs[1..], second);
    JoinNext(text, held, Template(f, rest, second), text', goal);
  }

  /** One more segment: the offsets so far, and those of the rest. */
  lemma OffsetsStep(f: FormatTime, xs: seq<Specifier>, second: int, previous: int, offset: int, offsets: seq<int>,
                    offsets': seq<int>, rest: seq<Specifier>, goal: seq<int>)
    requires xs != [] && rest == xs[1..] && offset == previous + Shift(f, xs[0], second)
    requires offsets + Offsets(f, xs, second, previous) == goal && offsets' == offsets + [offset]
    ensures offsets' + Offsets(f, rest, second, offset) == goal
  {
    assert Offsets(f, xs, second, previous) == [offset] + Offsets(f, xs[1..], second, offset);
    JoinNext(offsets, [offset], Offsets(f, rest, second, offset), offsets', goal);
  }

  method FromTimeAndPrepareSpecifierOffsets(f: FormatTime, specifiers: seq<Specifier>, second: int, secondsStr: string)
    returns (formattedTime: string, offsets: seq<int>)
    requires secondsStr == Signed(second)
    ensures formattedTime == Template(f, specifiers, second)
    ensures offsets == Offsets(f, specifiers, second, 0)
  {
    formattedTime, offsets := "", [];
    ghost var goal, allOffsets := Template(f, specifiers, second), Offsets(f, specifiers, second, 0);
    var previous: int := 0;
    var i := 0;
    while i < |specifiers|
      invariant 0 <= i <= |specifiers|
      invariant formattedTime + Template(f, specifiers[i..], second) == goal
      invariant offsets + Offsets(f, specifiers[i..], second, previous) == allOffsets
    {
      var x := specifiers[i];
      ghost var rest, text, before, last := specifiers[i..], formattedTime, offsets, previous;
      assert rest[0] == x && rest[1..] == specifiers[i + 1..];
      var current := f(x.segment, second);
      var tail := if x.second then secondsStr else Questions(x.width);
      formattedTime := formattedTime + (current + tail);
      var offset := |current| + (if x.second then |secondsStr| - 2 else 0) - |x.segment|;
      offsets := offsets + [previous + offset];
      previous := previous + offset;
      i := i + 1;
      TemplateStep(f, rest, second, text, current + tail, formattedTime, specifiers[i..], goal);
      OffsetsStep(f, rest, second, last, previous, before, offsets, specifiers[i..], allOffsets);
    }
  }

  // ---------------------------------------------------------------- positions

  /** Positions count segments as they stand in the format, and widths, from `step` on; only the
      last specifier can have width zero, and its position is never used. */
  predicate WellPlaced(xs: seq<Specifier>, step: nat) {
    xs != [] ==>
      xs[0].width <= 9 && (xs[0].second ==> xs[0].width == 2) &&
      if xs[0].width == 0 then |xs| == 1
      else xs[0].position == step + |xs[0].segment| && WellPlaced(xs[1..], xs[0].position + xs[0].width)
  }

  lemma WellPlacedCons(x: Specifier, rest: seq<Specifier>, xs: seq<Specifier>, step: nat)
    requires xs == [x] + rest && 0 < x.width <= 9 && (x.second ==> x.width == 2)
    requires x.position == step + |x.segment| && WellPlaced(rest, x.position + x.width)
    ensures WellPlaced(xs, step)
  {
    assert xs[1..] == rest;
  }

  lemma LastWellPlaced(x: Specifier, step: nat)
    requires x.width == 0 && !x.second
    ensures WellPlaced([x], step)
  {
  }

  lemma {:induction false} RecordedWellPlaced(p: Pieces, step: nat)
    requires WellCut(p)
    ensures WellPlaced(Recorded(p, step), step)
  {
    match p
    case Last(text) =>
      if text != "" {
        LastWellPlaced(Specifier(step, 0, text, false), step);
      }
    case Piece(segment, m, rest) =>
      var x := SpecifierOf(segment, m, step);
      RecordedWellPlaced(rest, x.position + x.width);
      WellPlacedCons(x, Recorded(rest, x.position + x.width), Recorded(p, step), step);
  }

  function FilledAll(f: FormatTime, xs: seq<Specifier>, t: Moment): string {
    if xs == [] then "" else Filled(f, xs[0], t) + FilledAll(f, xs[1..], t)
  }

  lemma FilledCons(f: FormatTime, x: Specifier, rest: seq<Specifier>, t: Moment)
    ensures FilledAll(f, [x] + rest, t) == Filled(f, x, t) + FilledAll(f, rest, t)
  {
    assert ([x] + rest)[1..] == rest;
  }

  lemma FilledLast(f: FormatTime, x: Specifier, t: Moment)
    requires x.width == 0 && !x.second
    ensures FilledAll(f, [x], t) == f(x.segment, t.second)
  {
    FilledCons(f, x, [], t);
    assert [x] + [] == [x];
    assert t.digits[..0] == "";
  }

  /** Filling in what `parse` recorded is rendering the pieces. */
  lemma {:induction false} FilledIsRendered(f: FormatTime, p: Pieces, step: nat, t: Moment)
    ensures FilledAll(f, Recorded(p, step), t) == Rendered(f, p, t)
  {
    match p
    case Last(text) =>
      if text != "" {
        FilledLast(f, Specifier(step, 0, text, false), t);
      }
    case Piece(segment, m, rest) =>
      var x := SpecifierOf(segment, m, step);
      FilledIsRendered(f, rest, x.position + x.width, t);
      FilledCons(f, x, Recorded(rest, x.position + x.width), t);
  }

  // ---------------------------------------------------------------- the digits of a time

  /** What printing a signed integer gives. */
  function Signed(n: int): string {
    if n < 0 then "-" + Decimal(-n) else Decimal(n)
  }

  /** Durations are cast to seconds towards zero. */
  function Seconds(ns: int): int {
    if ns < 0 then -(-ns / NANOS) else ns / NANOS
  }

  function Abs(n: int): nat {
    if n < 0 then -n else n
  }

  function Zeros(n: nat): (s: string)
    ensures |s| == n
  {
    seq(n, (i: nat) => '0')
  }

  /** The nanoseconds since the epoch, zero-padded to ten characters at least. */
  function Padded(ns: int): string {
    var s := Signed(ns);
    if |s| < 10 then Zeros(10 - |s|) + s else s
  }

  /** The last k decimal digits. */
  function Low(n: nat, k: nat): (s: string)
    ensures |s| == k
  {
    if k == 0 then "" else Low(n / 10, k - 1) + [Digit(n % 10)]
  }

  /** The instant: the second that it falls in, and the nine digits of the time since that second
      began. Division rounds down here. */
  function Calendar(ns: int): Moment {
    Moment(ns / NANOS, Low(ns % NANOS, 9))
  }

  /** The second cut towards zero, with the last nine digits of |ns| behind it. */
  function Cut(ns: int): Moment {
    Moment(Seconds(ns), Low(Abs(ns), 9))
  }

  function High(n: nat, k: nat): nat {
    if k == 0 then n else High(n / 10, k - 1)
  }

  lemma {:induction false} HighPositive(n: nat, k: nat)
    requires High(n, k) > 0
    ensures n > 0
  {
    if k > 0 {
      HighPositive(n / 10, k - 1);
    }
  }

  lemma {:induction false} SignificantSplits(n: nat, k: nat)
    requires High(n, k) > 0
    ensures Significant(n) == Significant(High(n, k)) + Low(n, k)
  {
    if k > 0 {
      SignificantSplits(n / 10, k - 1);
      Associative(Significant(High(n, k)), Low(n / 10, k - 1), [Digit(n % 10)]);
      HighPositive(n, k);
    }
  }

  lemma {:induction false} LowZero(k: nat)
    ensures Low(0, k) == Zeros(k)
  {
    if k > 0 {
      LowZero(k - 1);
    }
  }

  lemma {:induction false} LowPads(n: nat, k: nat)
    requires High(n, k) == 0
    ensures |Significant(n)| <= k && Low(n, k) == Zeros(k - |Significant(n)|) + Significant(n)
  {
    if n == 0 {
      LowZero(k);
    } else {
      LowPads(n / 10, k - 1);
    }
  }

  /** Dividing by 10 and then by p is dividing by 10 p. */
  lemma DivTwice(n: nat, p: nat)
    requires p > 0
    ensures n / 10 / p == n / (10 * p)
  {
    var q, t, u := n / 10, n / 10 / p, n / 10 % p;
    assert q == p * t + u;
    assert n == (10 * p) * t + (10 * u + n % 10);
    DivisionIsUnique(n, 10 * p, t, 10 * u + n % 10);
  }

  lemma {:induction false} HighIsQuotient(n: nat, k: nat)
    ensures Pow10(k) > 0 && High(n, k) == n / Pow10(k)
  {
    if k > 0 {
      HighIsQuotient(n / 10, k - 1);
      DivTwice(n, Pow10(k - 1));
    }
  }

  lemma NineDigits()
    ensures Pow10(9) == NANOS
  {
    assert Pow10(3) == 1000;
    assert Pow10(6) == 1000 * Pow10(3);
    assert Pow10(9) == 1000 * Pow10(6);
  }

  lemma HighIsSeconds(ns: nat)
    ensures High(ns, 9) == ns / NANOS
  {
    HighIsQuotient(ns, 9);
    NineDigits();
  }

  /** From one second away from the epoch on, the text of the nanoseconds, without its sign, is that
      of the seconds followed by nine digits. */
  lemma LargeSplits(n: nat)
    requires n >= NANOS
    ensures Decimal(n) == Decimal(n / NANOS) + Low(n, 9)
  {
    HighIsSeconds(n);
    SignificantSplits(n, 9);
  }

  /** A number below one second has at most nine digits, and exactly nine from 10^8 on. */
  lemma SmallPads(n: nat)
    requires 0 < n < NANOS
    ensures 0 < |Decimal(n)| <= 9 && Low(n, 9) == Zeros(9 - |Decimal(n)|) + Decimal(n)
    ensures |Decimal(n)| == 9 <==> n >= 100_000_000
  {
    HighIsSeconds(n);
    LowPads(n, 9);
    SignificantIsValue(n);
    assert Pow10(4) == 10_000;
    assert Pow10(8) == 10_000 * Pow10(4);
    HighIsQuotient(n, 8);
    if n >= 100_000_000 {
      SignificantSplits(n, 8);
      SignificantIsValue(High(n, 8));
    } else {
      LowPads(n, 8);
    }
  }

  /** The characters of the padded nanoseconds behind the length of the seconds. */
  function Behind(ns: int): string {
    var padded, length := Padded(ns), |Signed(Seconds(ns))|;
    padded[Min(length, |padded|)..]
  }

  lemma BehindPrefix(ns: int, seconds: string, digits: string)
    requires Signed(ns) == seconds + digits && |digits| == 9 && seconds != "" && Signed(Seconds(ns)) == seconds
    ensures |Padded(ns)| == |seconds| + 9 && Behind(ns) == digits
  {
    assert (seconds + digits)[|seconds|..] == digits;
  }

  lemma BehindLater(n: int)
    requires n >= NANOS
    ensures |Padded(n)| == |Signed(Seconds(n))| + 9 && Behind(n) == Low(n, 9)
  {
    LargeSplits(n);
    DecimalIsValue(n / NANOS);
    BehindPrefix(n, Decimal(n / NANOS), Low(n, 9));
  }

  lemma BehindEarlier(n: int)
    requires n >= NANOS
    ensures |Padded(-n)| == |Signed(Seconds(-n))| + 9 && Behind(-n) == Low(n, 9)
  {
    LargeSplits(n);
    Associative("-", Decimal(n / NANOS), Low(n, 9));
    BehindPrefix(-n, "-" + Decimal(n / NANOS), Low(n, 9));
  }

  /** Within a second of the epoch the seconds are one character. */
  lemma BehindFirst(ns: int, padded: string, rest: string)
    requires Abs(ns) < NANOS && Padded(ns) == padded && padded != "" && padded[1..] == rest
    ensures |Signed(Seconds(ns))| == 1 && Behind(ns) == rest
  {
    assert Signed(Seconds(ns)) == "0";
  }

  lemma BehindSoon(n: int)
    requires 0 < n < NANOS
    ensures |Padded(n)| == 10 && Behind(n) == Low(n, 9)
  {
    SmallPads(n);
    BehindFirst(n, Zeros(10 - |Decimal(n)|) + Decimal(n), Low(n, 9));
  }

  lemma BehindNineDigits(n: int)
    requires 100_000_000 <= n < NANOS
    ensures |Padded(-n)| == 10 && Behind(-n) == Low(n, 9)
  {
    SmallPads(n);
    BehindFirst(-n, "-" + Decimal(n), Low(n, 9));
  }

  lemma BehindSign(n: int)
    requires 0 < n < 100_000_000
    ensures |Decimal(n)| <= 8 && |Padded(-n)| == 10
    ensures Behind(-n) == Zeros(8 - |Decimal(n)|) + "-" + Decimal(n)
  {
    SmallPads(n);
    BehindFirst(-n, Zeros(9 - |Decimal(n)|) + ("-" + Decimal(n)), Zeros(8 - |Decimal(n)|) + "-" + Decimal(n));
  }

  lemma BehindZero()
    ensures |Padded(0)| == 10 && |Signed(Seconds(0))| == 1 && Behind(0) == Low(0, 9)
  {
    LowZero(9);
  }

  /** What stands behind the seconds' length: the nine digits, except just before the epoch, where
      the sign of the nanoseconds comes to lie among the zeros. */
  lemma PaddedSplits(ns: int)
    ensures |Padded(ns)| == |Signed(Seconds(ns))| + 9
    ensures if -100_000_000 < ns < 0
            then |Decimal(-ns)| <= 8 && Behind(ns) == Zeros(8 - |Decimal(-ns)|) + "-" + Decimal(-ns)
            else Behind(ns) == Low(Abs(ns), 9)
  {
    if ns >= NANOS {
      BehindLater(ns);
    } else if ns > 0 {
      BehindSoon(ns);
    } else if ns == 0 {
      BehindZero();
    } else if ns > -100_000_000 {
      BehindSign(-ns);
    } else if ns > -NANOS {
      BehindNineDigits(-ns);
    } else {
      BehindEarlier(-ns);
    }
  }

  /** The time as it is rendered: the digits are what stands behind as many characters as the
      seconds have. */
  function Actual(ns: int): Moment {
    Moment(Seconds(ns), Behind(ns))
  }

  lemma ActualDigits(ns: int, padded: string, length: nat, t: Moment)
    requires padded == Padded(ns) && length == |Signed(Seconds(ns))| && t == Actual(ns)
    ensures length <= |padded| && padded[length..] == t.digits && |t.digits| == 9
  {
    PaddedSplits(ns);
  }

  lemma SignAmongZeros(zeros: nat, text: string, w: nat, actual: string, exact: string)
    requires actual == Zeros(zeros) + "-" + text && exact == Zeros(zeros + 1) + text && w <= |actual|
    ensures |exact| == |actual| && (actual[..w] == exact[..w] <==> w <= zeros)
  {
    if w > zeros {
      assert actual[..w][zeros] == '-' && exact[..w][zeros] == '0';
    }
  }

  lemma DigitsBeforeEpoch(n: nat, w: nat, actual: string, exact: string)
    requires 0 < n < 100_000_000 && w <= 9 && actual == Behind(0 - n) && exact == Low(n, 9)
    ensures |actual| == 9 && (actual[..w] == exact[..w] <==> |Decimal(n)| + w <= 8)
  {
    PaddedSplits(0 - n);
    SmallPads(n);
    SignAmongZeros(8 - |Decimal(n)|, Decimal(n), w, actual, exact);
  }

  /** The first w digits spliced in are those of |ns| if and only if the time is not before the
      epoch, or at least 10^8 nanoseconds before it, or so few that the sign lies behind them. */
  lemma DigitsOfAbs(ns: int, w: nat)
    requires w <= 9
    ensures |Behind(ns)| == 9
    ensures Behind(ns)[..w] == Low(Abs(ns), 9)[..w]
       <==> ns >= 0 || ns <= -100_000_000 || |Decimal(-ns)| + w <= 8
  {
    if -100_000_000 < ns < 0 {
      DigitsBeforeEpoch(-ns, w, Behind(ns), Low(-ns, 9));
    } else {
      PaddedSplits(ns);
    }
  }

  /** All nine digits are those of |ns| for every time that is not in the last tenth of a second
      before the epoch, and for no time that is. */
  lemma AllDigitsOfAbs(ns: int)
    ensures Actual(ns) == Cut(ns) <==> ns >= 0 || ns <= -100_000_000
  {
    DigitsOfAbs(ns, 9);
    assert Behind(ns)[..9] == Behind(ns) && Low(Abs(ns), 9)[..9] == Low(Abs(ns), 9);
    if -100_000_000 < ns < 0 {
      SmallPads(-ns);
      assert |Decimal(-ns)| + 9 > 8;
    }
  }

  /** Five nanoseconds before the epoch the digits are not digits. */
  lemma FiveBeforeEpoch()
    ensures Actual(-5).digits == "0000000-5" && Cut(-5).digits == "000000005"
  {
    assert Significant(5) == Significant(0) + [Digit(5)] == "5";
    PaddedSplits(-5);
    assert Zeros(7) == "0000000";
    SmallPads(5);
    assert Zeros(8) == "00000000";
  }

  /** The remainder by 10 p from the last digit and the remainder of the rest by p. */
  lemma ModTwice(n: nat, p: nat)
    requires p > 0
    ensures n % (10 * p) == 10 * (n / 10 % p) + n % 10
  {
    var q, t, u := n / 10, n / 10 / p, n / 10 % p;
    assert q == p * t + u;
    assert n == (10 * p) * t + (10 * u + n % 10);
    DivisionIsUnique(n, 10 * p, t, 10 * u + n % 10);
  }

  /** The last k digits are those of the remainder by 10^k. */
  lemma {:induction false} LowOfRemainder(n: nat, k: nat)
    ensures Pow10(k) > 0 && Low(n % Pow10(k), k) == Low(n, k)
  {
    if k > 0 {
      LowOfRemainder(n / 10, k - 1);
      var u := n / 10 % Pow10(k - 1);
      ModTwice(n, Pow10(k - 1));
      DivisionIsUnique(10 * u + n % 10, 10, u, n % 10);
    }
  }

  /** Cutting is rounding down from the epoch on and at whole seconds, and nowhere else. */
  lemma CutIsRoundedDown(ns: int)
    ensures Seconds(ns) == ns / NANOS <==> ns >= 0 || ns % NANOS == 0
  {
  }

  lemma LowOfNanos(n: nat)
    ensures Low(n % NANOS, 9) == Low(n, 9)
  {
    NineDigits();
    LowOfRemainder(n, 9);
  }

  lemma WholeSeconds(n: int)
    requires n > 0 && n % NANOS == 0
    ensures Behind(-n) == Low(0, 9)
  {
    PaddedSplits(-n);
    LowOfNanos(n);
  }

  /** The time rendered is the instant if and only if the instant is not before the epoch or is a
      whole second: before the epoch the second is cut towards zero, and the digits count from it
      into the past. */
  lemma ActualIsCalendar(ns: int)
    ensures Actual(ns) == Calendar(ns) <==> ns >= 0 || ns % NANOS == 0
  {
    CutIsRoundedDown(ns);
    if ns >= 0 {
      PaddedSplits(ns);
      LowOfNanos(ns);
    } else if ns % NANOS == 0 {
      WholeSeconds(-ns);
    }
  }

  /** The text of a time in a format, without any cache. */
  function Uncached(f: FormatTime, call: (string, int)): string {
    Render(f, call.0, Actual(call.1))
  }

  /** The text shows the instant, whatever that looks like in this format. */
  predicate ShowsInstant(f: FormatTime, raw: string, ns: int) {
    Uncached(f, (raw, ns)) == Render(f, raw, Calendar(ns))
  }

  lemma OneSegment(f: FormatTime, t: Moment)
    ensures Render(f, "a", t) == f("a", t.second)
  {
    assert MatchPosition("a") == 1;
    assert PiecesOf("a") == Last("a");
  }

  /** For no other times do all formats show the instant, whatever the time library. */
  lemma TextsAreRight(ns: int)
    ensures (forall f: FormatTime, raw: string :: ShowsInstant(f, raw, ns)) <==> ns >= 0 || ns % NANOS == 0
  {
    ActualIsCalendar(ns);
    if ns < 0 && ns % NANOS != 0 {
      var f: FormatTime := (segment, second) => if second == Seconds(ns) then "" else segment;
      CutIsRoundedDown(ns);
      OneSegment(f, Actual(ns));
      OneSegment(f, Calendar(ns));
      assert !ShowsInstant(f, "a", ns);
    }
  }

  /** Half a second before the epoch the text is that of half a second after it. */
  lemma HalfASecondBefore(f: FormatTime, raw: string)
    ensures Calendar(-500_000_000) == Moment(-1, Low(500_000_000, 9)) && Calendar(500_000_000).second == 0
    ensures Render(f, raw, Actual(-500_000_000)) == Render(f, raw, Calendar(500_000_000))
  {
    AllDigitsOfAbs(-500_000_000);
    AllDigitsOfAbs(500_000_000);
    ActualIsCalendar(500_000_000);
  }

  // ---------------------------------------------------------------- splicing

  /** Where the splice stands: what is done is filled in, the rest still holds placeholders, and the
      specifiers' positions corrected by their offsets count from the end of what is done. */
  predicate Splicing(f: FormatTime, xs: seq<Specifier>, offsets: seq<int>, t: Moment, text: string,
                     done: string, step: nat, previous: int, goal: string) {
    WellPlaced(xs, step) && offsets == Offsets(f, xs, t.second, previous) &&
    step + previous == |done| &&
    text == done + Template(f, xs, t.second) &&
    done + FilledAll(f, xs, t) == goal
  }

  /** The corrected position of a placeholder is where it starts. */
  lemma SplicePosition(f: FormatTime, xs: seq<Specifier>, offsets: seq<int>, t: Moment, text: string,
                       done: string, step: nat, previous: int, goal: string, front: string, rest: string)
    requires Splicing(f, xs, offsets, t, text, done, step, previous, goal) && xs != []
    requires xs[0].width > 0 && !xs[0].second
    requires front == done + f(xs[0].segment, t.second) && rest == Template(f, xs[1..], t.second)
    ensures xs[0].position + offsets[0] == |front| && text == front + Questions(xs[0].width) + rest
  {
    var x := xs[0];
    Associative(done, f(x.segment, t.second), Questions(x.width));
    Associative(done, f(x.segment, t.second) + Questions(x.width), rest);
  }

  /** Writing the digits there, over as many characters, fills the placeholder in. */
  lemma SpliceStep(f: FormatTime, xs: seq<Specifier>, offsets: seq<int>, t: Moment, text: string,
                   done: string, step: nat, previous: int, goal: string, front: string, rest: string, after: string)
    requires Splicing(f, xs, offsets, t, text, done, step, previous, goal) && xs != []
    requires xs[0].width > 0 && !xs[0].second && |t.digits| == 9
    requires front == done + f(xs[0].segment, t.second) && rest == Template(f, xs[1..], t.second)
    requires after == front + t.digits[..xs[0].width] + rest
    ensures Splicing(f, xs[1..], offsets[1..], t, after,
                     done + Filled(f, xs[0], t), xs[0].position + xs[0].width, offsets[0], goal)
  {
    Associative(done, f(xs[0].segment, t.second), t.digits[..xs[0].width]);
    Associative(done, Filled(f, xs[0], t), FilledAll(f, xs[1..], t));
  }

  lemma SkipStep(f: FormatTime, xs: seq<Specifier>, offsets: seq<int>, t: Moment, text: string,
                 done: string, step: nat, previous: int, goal: string)
    requires Splicing(f, xs, offsets, t, text, done, step, previous, goal) && xs != []
    requires xs[0].second
    ensures Splicing(f, xs[1..], offsets[1..], t, text,
                     done + Filled(f, xs[0], t), xs[0].position + xs[0].width, offsets[0], goal)
  {
    Associative(done, Held(f, xs[0], t.second), Template(f, xs[1..], t.second));
    Associative(done, Filled(f, xs[0], t), FilledAll(f, xs[1..], t));
  }

  lemma LastStep(f: FormatTime, xs: seq<Specifier>, offsets: seq<int>, t: Moment, text: string,
                 done: string, step: nat, previous: int, goal: string)
    requires Splicing(f, xs, offsets, t, text, done, step, previous, goal) && xs != []
    requires xs[0].width == 0
    ensures Splicing(f, xs[1..], offsets[1..], t, text, text, |text|, 0, goal)
  {
    var x := xs[0];
    assert xs[1..] == [] && offsets[1..] == [];
    assert t.digits[..Min(|t.digits|, x.width)] == Questions(x.width) == "";
    assert Template(f, [], t.second) == FilledAll(f, [], t) == "";
  }

  /** `std::string::replace` of a run of characters by as many others. */
  method Replace(text: string, at: nat, width: nat, digits: string, ghost front: string, ghost run: string,
                 ghost back: string)
    returns (after: string)
    requires text == front + run + back && at == |front| && width == |run| == |digits|
    ensures after == front + digits + back
  {
    assert text[..at] == front && text[at + width..] == back;
    after := text[..at] + digits + text[at + width..];
  }

  /** A `DateFormatter`, once constructed, is its format string and what `parse` made of it. */
  datatype Formatter = Formatter(raw: string, specifiers: seq<Specifier>)

  /** One text for each call. */
  function UncachedAll(f: FormatTime, calls: seq<(string, int)>): seq<string> {
    if calls == [] then [] else UncachedAll(f, calls[..|calls| - 1]) + [Uncached(f, calls[|calls| - 1])]
  }

  lemma RenderedFor(f: FormatTime, raw: string, ns: int, t: Moment, text: string)
    requires t == Actual(ns) && text == FilledAll(f, Specifiers(raw), t)
    ensures text == Render(f, raw, Actual(ns))
    ensures ns >= 0 || ns % NANOS == 0 ==> text == Render(f, raw, Calendar(ns))
    ensures ns >= 0 || ns <= -100_000_000 ==> text == Render(f, raw, Cut(ns))
  {
    FilledIsRendered(f, PiecesOf(raw), 0, t);
    ActualIsCalendar(ns);
    AllDigitsOfAbs(ns);
  }

  /** What the cache keeps for a format string: its text at one second and the specifiers' offsets. */
  datatype Formatted = Formatted(str: string, epochTimeSeconds: int, specifierOffsets: seq<int>)

  /** The cached time of one thread, which all its formatters share; `f` is the time library. */
  class CachedTime {
    const f: FormatTime
    var secondsLength: nat
    var formatted: map<string, Formatted>
    ghost var second: int

    ghost predicate Right(raw: string, item: Formatted)
    {
      item.str == Template(f, Specifiers(raw), item.epochTimeSeconds) &&
      item.specifierOffsets == Offsets(f, Specifiers(raw), item.epochTimeSeconds, 0)
    }

    /** Every item is what its format string gives at the item's second, and all items are of one
        second, the length of whose text is the shared length. */
    ghost predicate Valid()
      reads this
    {
      (formatted != map[] ==> secondsLength == |Signed(second)|) &&
      forall raw :: raw in formatted ==> Right(raw, formatted[raw]) && formatted[raw].epochTimeSeconds == second
    }

    constructor (f: FormatTime)
      ensures Valid() && this.f == f
    {
      this.f := f;
      secondsLength := 0;
      formatted := map[];
      second := 0;
    }

    /** Removes the items of other seconds. */
    method RemoveExpired(second: int)
      modifies this`formatted
      ensures forall raw :: raw in formatted <==>
                (raw in old(formatted) && old(formatted)[raw].epochTimeSeconds == second)
      ensures forall raw :: raw in formatted ==> formatted[raw] == old(formatted)[raw]
    {
      var left := formatted.Keys;
      while left != {}
        invariant left <= formatted.Keys <= old(formatted).Keys
        invariant forall raw :: raw in formatted ==> formatted[raw] == old(formatted)[raw]
        invariant forall raw :: raw in formatted && raw !in left ==> formatted[raw].epochTimeSeconds == second
        invariant forall raw :: raw in old(formatted) ==>
                    (old(formatted)[raw].epochTimeSeconds == second ==> raw in formatted)
        decreases |left|
      {
        var raw :| raw in left;
        left := left - {raw};
        if formatted[raw].epochTimeSeconds != second {
          formatted := formatted - {raw};
        }
      }
    }

    /** Afterwards the item for the format string is there and is of the given second. */
    method Prepare(raw: string, specifiers: seq<Specifier>, second: int)
      requires Valid() && specifiers == Specifiers(raw)
      modifies this
      ensures Valid() && raw in formatted && formatted[raw].epochTimeSeconds == second
      ensures secondsLength == |Signed(second)|
      ensures forall other :: other in formatted ==> formatted[other].epochTimeSeconds == second
    {
      if raw !in formatted || formatted[raw].epochTimeSeconds != second {
        RemoveExpired(second);
        var secondsStr := Signed(second);
        var str, offsets := FromTimeAndPrepareSpecifierOffsets(f, specifiers, second, secondsStr);
        secondsLength := |secondsStr|;
        this.second := second;
        formatted := formatted[raw := Formatted(str, second, offsets)];
      }
    }

    /** As many digits as the width says, from behind the length of the seconds. */
    method SubSecond(nanoseconds: string, width: nat, ghost t: Moment) returns (digits: string)
      requires secondsLength <= |nanoseconds| && nanoseconds[secondsLength..] == t.digits && width <= |t.digits|
      ensures digits == t.digits[..width]
    {
      digits := nanoseconds[secondsLength..secondsLength + width];
      assert digits == nanoseconds[secondsLength..][..width];
    }

    /** Writes the digits for one sub-second specifier into the text. */
    method ReplaceOne(x: Specifier, offset: int, nanoseconds: string, text: string, ghost xs: seq<Specifier>,
                      ghost offsets: seq<int>, ghost t: Moment, ghost done: string, ghost step: nat,
                      ghost previous: int, ghost goal: string)
      returns (after: string)
      requires xs != [] && x == xs[0] && Splicing(f, xs, offsets, t, text, done, step, previous, goal)
      requires offset == offsets[0] && |t.digits| == 9 && x.width > 0 && !x.second
      requires secondsLength <= |nanoseconds| && nanoseconds[secondsLength..] == t.digits
      ensures Splicing(f, xs[1..], offsets[1..], t, after, done + Filled(f, x, t), x.position + x.width, offset, goal)
    {
      ghost var front, rest := done + f(x.segment, t.second), Template(f, xs[1..], t.second);
      SplicePosition(f, xs, offsets, t, text, done, step, previous, goal, front, rest);
      var digits := SubSecond(nanoseconds, x.width, t);
      after := Replace(text, x.position + offset, x.width, digits, front, Questions(x.width), rest);
      SpliceStep(f, xs, offsets, t, text, done, step, previous, goal, front, rest, after);
    }

    /** Writes the digits for one specifier into the text, if it asks for any. */
    method SpliceOne(x: Specifier, offset: int, nanoseconds: string, text: string, ghost xs: seq<Specifier>,
                     ghost offsets: seq<int>, ghost t: Moment, ghost done: string, ghost step: nat,
                     ghost previous: int, ghost goal: string)
      returns (text': string, ghost done': string, ghost step': nat, ghost previous': int)
      requires xs != [] && x == xs[0] && Splicing(f, xs, offsets, t, text, done, step, previous, goal)
      requires offset == offsets[0] && |t.digits| == 9
      requires secondsLength <= |nanoseconds| && nanoseconds[secondsLength..] == t.digits
      ensures Splicing(f, xs[1..], offsets[1..], t, text', done', step', previous', goal)
    {
      text' := text;
      done', step', previous' := done + Filled(f, x, t), x.position + x.width, offset;
      if x.width > 0 && !x.second {
        text' := ReplaceOne(x, offset, nanoseconds, text, xs, offsets, t, done, step, previous, goal);
      } else if x.second {
        SkipStep(f, xs, offsets, t, text, done, step, previous, goal);
      } else {
        LastStep(f, xs, offsets, t, text, done, step, previous, goal);
        done', step', previous' := text, |text|, 0;
      }
    }

    /** Copies the item's text and writes the digits of this time into it. */
    method Splice(specifiers: seq<Specifier>, item: Formatted, nanoseconds: string, ghost t: Moment)
      returns (text: string)
      requires item.str == Template(f, specifiers, t.second)
      requires item.specifierOffsets == Offsets(f, specifiers, t.second, 0)
      requires WellPlaced(specifiers, 0) && |t.digits| == 9
      requires secondsLength <= |nanoseconds| && nanoseconds[secondsLength..] == t.digits
      ensures text == FilledAll(f, specifiers, t)
    {
      text := item.str;
      ghost var done: string := "";
      ghost var step: nat, previous: int := 0, 0;
      ghost var goal := FilledAll(f, specifiers, t);
      assert done + text == text && done + goal == goal;
      var i := 0;
      while i < |specifiers|
        invariant 0 <= i <= |specifiers|
        invariant Splicing(f, specifiers[i..], item.specifierOffsets[i..], t, text, done, step, previous, goal)
      {
        ghost var xs, offsets := specifiers[i..], item.specifierOffsets[i..];
        assert xs[1..] == specifiers[i + 1..] && offsets[1..] == item.specifierOffsets[i + 1..];
        text, done, step, previous :=
          SpliceOne(specifiers[i], item.specifierOffsets[i], nanoseconds, text, xs, offsets, t, done, step,
                    previous, goal);
        i := i + 1;
      }
      assert specifiers[i..] == [];
    }

    /** `fromTime`: whatever other formatters and times this thread has served before, the result is
        what formatting this time without any cache gives. From the epoch on, and at whole seconds
        before it, that is the text of the instant. */
    method FromTime(formatter: Formatter, ns: int) returns (text: string)
      requires Valid() && formatter.specifiers == Specifiers(formatter.raw)
      modifies this
      ensures Valid()
      ensures text == Render(f, formatter.raw, Actual(ns))
      ensures ns >= 0 || ns % NANOS == 0 ==> text == Render(f, formatter.raw, Calendar(ns))
      ensures ns >= 0 || ns <= -100_000_000 ==> text == Render(f, formatter.raw, Cut(ns))
    {
      var epochTimeSeconds := Seconds(ns);
      Prepare(formatter.raw, formatter.specifiers, epochTimeSeconds);
      var nanoseconds := Signed(ns);
      if |nanoseconds| < 10 {
        nanoseconds := Zeros(10 - |nanoseconds|) + nanoseconds;
      }
      ghost var t := Actual(ns);
      ActualDigits(ns, nanoseconds, secondsLength, t);
      RecordedWellPlaced(PiecesOf(formatter.raw), 0);
      text := Splice(formatter.specifiers, formatted[formatter.raw], nanoseconds, t);
      RenderedFor(f, formatter.raw, ns, t, text);
    }

    /** A formatter is constructed and used once. */
    method FromFormat(call: (string, int)) returns (text: string)
      requires Valid()
      modifies this
      ensures Valid() && text == Uncached(f, call)
    {
      var specifiers := Parse(call.0);
      text := FromTime(Formatter(call.0, specifiers), call.1);
    }

    /** Any sequence of calls, by any formatters and at any times, early ones after late ones too. */
    method FromTimes(calls: seq<(string, int)>) returns (texts: seq<string>)
      requires Valid()
      modifies this
      ensures Valid() && texts == UncachedAll(f, calls)
      decreases |calls|
    {
      if calls == [] {
        return [];
      }
      var last := |calls| - 1;
      texts := FromTimes(calls[..last]);
      var text := FromFormat(calls[last]);
      texts := texts + [text];
    }
  }
}
