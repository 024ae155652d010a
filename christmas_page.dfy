/**
 * The Christmas page: a countdown to the next December 25 refreshed by a
 * one-second timer, and a "gift" button that shows a random wish not among
 * the last few shown.
 *
 * Date and Math.random are inputs: `now` and the two candidate December 25
 * instants arrive as integer milliseconds, a random draw as a real in [0, 1).
 */
module ChristmasPage {

  const MS_PER_SECOND: int := 1000
  const MS_PER_MINUTE: int := 1000 * 60
  const MS_PER_HOUR: int := 1000 * 60 * 60
  const MS_PER_DAY: int := 1000 * 60 * 60 * 24
  /** The history keeps the last HISTORY_SIZE wishes shown. */
  const HISTORY_SIZE: nat := 5

  const WISHES: seq<string> := [
    "May your heart be filled with joy and your home with warmth this Christmas! 🎄",
    "Wishing you peace, love, and laughter throughout the holiday season! ✨",
    "May the magic of Christmas fill every corner of your heart and home! 🎁",
    "Hot cocoa is waiting for you! May your Christmas be sweet and warm! ☕",
    "You deserve a magical holiday filled with wonder and delight! ✨",
    "Be the light that guides others this Christmas season! 🕯️",
    "Laughter is the best gift of all. May yours be abundant! 😄",
    "Snowflakes are winter's butterflies. May they dance around your dreams! ❄️",
    "Peace on Earth and goodwill to all! May we carry it in our hearts! 🌍",
    "May your Christmas be merry, bright, and filled with love! ❤️",
    "Wishing you a season of blessings and joyful reunions! 🎅",
    "May the spirit of Christmas bring you hope and happiness! 🌟",
    "Sending you warmest thoughts and best wishes for the New Year! 🎉",
    "May your holidays sparkle with moments of love and joy! 💫",
    "Wishing you a Christmas as wonderful as you are! 🎄",
    "May your stocking be filled with joy and your heart with peace! 🧦",
    "Here's to a season filled with cozy moments and cherished memories! 🔥",
    "May the sound of jingle bells fill your days with happiness! 🔔",
    "Wishing you a Christmas that's merry, bright, and simply magical! ✨",
    "May your holiday season be wrapped in love and tied with joy! 🎀"
  ]

  datatype TimeLeft = TimeLeft(days: int, hours: int, minutes: int, seconds: int)

  predicate IsUnit(u: real) {
    0.0 <= u < 1.0
  }

  function Min(a: int, b: int): int {
    if a <= b then a else b
  }

  // ---------------------------------------------------------------------------
  // Countdown
  // ---------------------------------------------------------------------------

  /** `Math.floor(a / b)` for a positive divisor. */
  function FloorDiv(a: int, b: int): (q: int)
    requires b > 0
    ensures b * q <= a < b * q + b
  {
    a / b
  }

  /** JavaScript's `%`: the remainder takes the sign of the dividend. */
  function JsRem(a: int, b: int): (r: int)
    requires b > 0
    ensures 0 <= a ==> r == a % b && 0 <= r < b
    ensures a < 0 ==> -b < r <= 0
    ensures (a - r) % b == 0
  {
    if a >= 0 then
      MultipleMod(a, b, a / b, a % b);
      a % b
    else
      MultipleMod(a, b, -((-a) / b), -((-a) % b));
      -((-a) % b)
  }

  /** Whatever a remainder leaves behind is a multiple of the divisor. */
  lemma MultipleMod(a: int, b: int, q: int, r: int)
    requires b > 0 && a == b * q + r
    ensures (a - r) % b == 0
  {
    DivModUnique(a - r, b, q, 0);
  }

  /** The countdown target: this year's December 25 unless `now` is strictly after it. */
  function ChooseTarget(now: int, xmasThisYear: int, xmasNextYear: int): (target: int)
    ensures target == xmasThisYear || target == xmasNextYear
    ensures now <= xmasThisYear ==> target == xmasThisYear
    ensures now > xmasThisYear ==> target == xmasNextYear
    ensures now < xmasNextYear ==> now <= target
  {
    if now > xmasThisYear then xmasNextYear else xmasThisYear
  }

  /** The four figures the countdown shows for a millisecond difference; in range when it is not negative. */
  function Decompose(diff: int): (t: TimeLeft)
    ensures diff >= 0 ==> InRange(t)
  {
    TimeLeft(
      days := FloorDiv(diff, MS_PER_DAY),
      hours := FloorDiv(JsRem(diff, MS_PER_DAY), MS_PER_HOUR),
      minutes := FloorDiv(JsRem(diff, MS_PER_HOUR), MS_PER_MINUTE),
      seconds := FloorDiv(JsRem(diff, MS_PER_MINUTE), MS_PER_SECOND))
  }

  predicate InRange(t: TimeLeft) {
    t.days >= 0 && 0 <= t.hours < 24 && 0 <= t.minutes < 60 && 0 <= t.seconds < 60
  }

  /** The milliseconds the figures stand for, whole seconds only. */
  function Recombine(t: TimeLeft): int {
    t.days * MS_PER_DAY + t.hours * MS_PER_HOUR + t.minutes * MS_PER_MINUTE + t.seconds * MS_PER_SECOND
  }

  lemma DivModUnique(a: int, b: int, q: int, r: int)
    requires b > 0 && 0 <= r < b && a == b * q + r
    ensures a / b == q && a % b == r
  {
    var q', r' := a / b, a % b;
    assert a == b * q' + r' && 0 <= r' < b;
    assert b * (q - q') == r' - r;
    if q > q' {
      MulAtLeast(b, q - q');
    } else if q < q' {
      MulAtLeast(b, q' - q);
    }
  }

  lemma MulAtLeast(b: int, k: int)
    requires b > 0 && k >= 1
    ensures b * k >= b
  {
    assert b * k == b * (k - 1) + b;
  }

  /** Reducing modulo a multiple of m first does not change the remainder modulo m. */
  lemma ModOfMultiple(a: int, m: int, n: int)
    requires a >= 0 && m > 0 && n > 0
    ensures (a % (m * n)) % m == a % m
  {
    var q, r := a / (m * n), a % (m * n);
    assert a == (m * n) * q + r;
    var q2, r2 := r / m, r % m;
    assert r == m * q2 + r2;
    assert a == m * (n * q + q2) + r2;
    DivModUnique(a, m, n * q + q2, r2);
  }

  /** The figures recombine to the difference, up to the dropped milliseconds. */
  lemma DecomposeRecombines(diff: int)
    requires diff >= 0
    ensures Recombine(Decompose(diff)) <= diff < Recombine(Decompose(diff)) + MS_PER_SECOND
  {
    var t := Decompose(diff);
    var r1 := diff % MS_PER_DAY;
    assert diff == MS_PER_DAY * t.days + r1;
    var r2 := r1 % MS_PER_HOUR;
    assert r1 == MS_PER_HOUR * t.hours + r2;
    ModOfMultiple(diff, MS_PER_HOUR, 24);
    assert diff % MS_PER_HOUR == r2;
    var r3 := r2 % MS_PER_MINUTE;
    assert r2 == MS_PER_MINUTE * t.minutes + r3;
    ModOfMultiple(diff, MS_PER_MINUTE, 60 * 24);
    ModOfMultiple(diff % MS_PER_DAY, MS_PER_MINUTE, 60);
    assert diff % MS_PER_MINUTE == r3;
    assert r3 == MS_PER_SECOND * t.seconds + r3 % MS_PER_SECOND;
  }

  /** In-range figures plus fewer than 1000 ms decompose back to the same figures. */
  lemma RecombineDecomposes(t: TimeLeft, ms: int)
    requires InRange(t) && 0 <= ms < MS_PER_SECOND
    ensures Decompose(Recombine(t) + ms) == t
  {
    var diff := Recombine(t) + ms;
    var r3 := t.seconds * MS_PER_SECOND + ms;
    var r2 := t.minutes * MS_PER_MINUTE + r3;
    var r1 := t.hours * MS_PER_HOUR + r2;
    DivModUnique(diff, MS_PER_DAY, t.days, r1);
    DivModUnique(r1, MS_PER_HOUR, t.hours, r2);
    ModOfMultiple(diff, MS_PER_HOUR, 24);
    DivModUnique(r2, MS_PER_MINUTE, t.minutes, r3);
    ModOfMultiple(diff, MS_PER_MINUTE, 60 * 24);
    ModOfMultiple(r1, MS_PER_MINUTE, 60);
    DivModUnique(r3, MS_PER_SECOND, t.seconds, ms);
  }

  /**
   * With `now` before next year's December 25 (it always is: `now` lies in the
   * year whose December 25 is the first candidate), the countdown never goes negative.
   */
  lemma CountdownInRange(now: int, xmasThisYear: int, xmasNextYear: int)
    requires now < xmasNextYear
    ensures var diff := ChooseTarget(now, xmasThisYear, xmasNextYear) - now;
      diff >= 0 && InRange(Decompose(diff))
      && Recombine(Decompose(diff)) <= diff < Recombine(Decompose(diff)) + MS_PER_SECOND
  {
    var diff := ChooseTarget(now, xmasThisYear, xmasNextYear) - now;
    DecomposeRecombines(diff);
  }

  // ---------------------------------------------------------------------------
  // Wish selection
  // ---------------------------------------------------------------------------

  predicate Distinct(s: seq<string>) {
    forall i, j :: 0 <= i < j < |s| ==> s[i] != s[j]
  }

  /** `wishes.filter(wish => !history.includes(wish))`. */
  function Available(wishes: seq<string>, history: seq<string>): (r: seq<string>)
    ensures forall w :: w in r <==> w in wishes && w !in history
    ensures |r| <= |wishes|
  {
    if wishes == [] then []
    else (if wishes[0] !in history then [wishes[0]] else []) + Available(wishes[1..], history)
  }

  /** `Math.floor(Math.random() * n)`: a valid index of a non-empty list. */
  function PickIndex(u: real, n: nat): (i: nat)
    requires IsUnit(u) && n > 0
    ensures i < n
  {
    var x := u * n as real;
    assert x < n as real by {
      assert n as real - x == (1.0 - u) * n as real;
      PositiveProduct(1.0 - u, n as real);
    }
    x.Floor
  }

  lemma PositiveProduct(a: real, b: real)
    requires a > 0.0 && b > 0.0
    ensures a * b > 0.0
  {
  }

  /** The wish openGift shows: a random one not in the history, or any one when all are. */
  function ChooseWish(wishes: seq<string>, history: seq<string>, u: real): (w: string)
    requires |wishes| > 0 && IsUnit(u)
    ensures w in wishes
    ensures (exists v :: v in wishes && v !in history) ==> w !in history
  {
    var available := Available(wishes, history);
    if |available| > 0 then available[PickIndex(u, |available|)]
    else wishes[PickIndex(u, |wishes|)]
  }

  /** `s.slice(-n)`: the last n elements, or all of s when it is shorter. */
  function SliceLast(s: seq<string>, n: nat): (r: seq<string>)
    requires n > 0
    ensures |r| == Min(n, |s|)
    ensures s == s[..|s| - |r|] + r
  {
    var start := |s| - n;
    s[(if start < 0 then 0 else start)..]
  }

  /** `[...prev.slice(-4), wish]`: the history after showing `wish`. */
  function NextHistory(prev: seq<string>, wish: string): (r: seq<string>)
    ensures 0 < |r| <= HISTORY_SIZE
    ensures r[|r| - 1] == wish
    ensures r[..|r| - 1] == prev[|prev| - Min(HISTORY_SIZE - 1, |prev|)..]
    ensures forall x :: x in r ==> x in prev || x == wish
  {
    SliceLast(prev, HISTORY_SIZE - 1) + [wish]
  }

  /** A list of removals: every occurrence of x taken out of h. */
  function Without(h: seq<string>, x: string): (r: seq<string>)
    ensures forall y :: y in r <==> y in h && y != x
    ensures |r| <= |h|
    ensures x in h ==> |r| < |h|
  {
    if h == [] then []
    else (if h[0] == x then [] else [h[0]]) + Without(h[1..], x)
  }

  /** A history shorter than a list of distinct wishes leaves some wish out. */
  lemma {:induction false} SomeWishLeft(wishes: seq<string>, history: seq<string>)
    requires Distinct(wishes) && |history| < |wishes|
    ensures exists w :: w in wishes && w !in history
    decreases |wishes|
  {
    if wishes[0] in history {
      var rest := Without(history, wishes[0]);
      SomeWishLeft(wishes[1..], rest);
      var w :| w in wishes[1..] && w !in rest;
      assert w != wishes[0];
    } else {
      assert wishes[0] in wishes;
    }
  }

  lemma WishesDistinct()
    ensures |WISHES| == 20 && Distinct(WISHES)
  {
  }

  /**
   * While the history is shorter than a list of distinct wishes, the filtered list is
   * never empty and the pick is not in the history.
   */
  lemma PickIsFresh(wishes: seq<string>, history: seq<string>, u: real)
    requires Distinct(wishes) && |history| < |wishes| && IsUnit(u)
    ensures |Available(wishes, history)| > 0
    ensures ChooseWish(wishes, history, u) !in history
  {
    SomeWishLeft(wishes, history);
    var w :| w in wishes && w !in history;
    assert w in Available(wishes, history);
  }

  /** The wishes shown by successive openGift calls, one random draw each. */
  function OpenGifts(wishes: seq<string>, history: seq<string>, draws: seq<real>): (shown: seq<string>)
    requires |wishes| > 0
    requires forall k :: 0 <= k < |draws| ==> IsUnit(draws[k])
    ensures |shown| == |draws|
    decreases |draws|
  {
    if draws == [] then []
    else
      var wish := ChooseWish(wishes, history, draws[0]);
      [wish] + OpenGifts(wishes, NextHistory(history, wish), draws[1..])
  }

  /** No entry at or after `start` equals any of the five entries just before it. */
  predicate NoRepeatFrom(all: seq<string>, start: nat)
  {
    forall a, b :: 0 <= a < b < |all| && start <= b && b - a <= HISTORY_SIZE ==> all[a] != all[b]
  }

  /**
   * Putting a wish that is not in the history after it, followed by a run that has no
   * repeat against the shortened history, gives a run with no repeat against the full one.
   */
  lemma ExtendNoRepeat(history: seq<string>, wish: string, rest: seq<string>)
    requires wish !in history
    requires var c := |history| - Min(HISTORY_SIZE - 1, |history|);
      NoRepeatFrom(history[c..] + [wish] + rest, |history| - c + 1)
    ensures NoRepeatFrom(history + ([wish] + rest), |history|)
  {
    var c := |history| - Min(HISTORY_SIZE - 1, |history|);
    var all := history + ([wish] + rest);
    var later := history[c..] + [wish] + rest;
    assert all == history[..c] + later by {
      assert history == history[..c] + history[c..];
    }
    forall a, b | 0 <= a < b < |all| && |history| <= b && b - a <= HISTORY_SIZE
      ensures all[a] != all[b]
    {
      if b == |history| {
        assert all[b] == wish;
        assert all[a] == history[a];
      } else {
        assert all[a] == later[a - c];
        assert all[b] == later[b - c];
      }
    }
  }

  /**
   * With more distinct wishes than the history holds, and a history of at most five,
   * every wish shown differs from the five entries (remembered or shown) just before it.
   */
  lemma {:induction false} NoRepeatAfter(wishes: seq<string>, history: seq<string>, draws: seq<real>)
    requires Distinct(wishes) && |wishes| > HISTORY_SIZE
    requires |history| <= HISTORY_SIZE
    requires forall k :: 0 <= k < |draws| ==> IsUnit(draws[k])
    ensures NoRepeatFrom(history + OpenGifts(wishes, history, draws), |history|)
    decreases |draws|
  {
    if draws != [] {
      var wish := ChooseWish(wishes, history, draws[0]);
      var next := NextHistory(history, wish);
      var rest := OpenGifts(wishes, next, draws[1..]);
      assert OpenGifts(wishes, history, draws) == [wish] + rest;
      NoRepeatAfter(wishes, next, draws[1..]);
      PickIsFresh(wishes, history, draws[0]);
      ExtendNoRepeat(history, wish, rest);
    }
  }

  /**
   * Starting from an empty history (as the page does, with the twenty distinct wishes
   * its constructor installs), no wish repeats within any six consecutive opens.
   */
  lemma NoRepeatWithinSix(wishes: seq<string>, draws: seq<real>)
    requires Distinct(wishes) && |wishes| > HISTORY_SIZE
    requires forall k :: 0 <= k < |draws| ==> IsUnit(draws[k])
    ensures NoRepeatFrom(OpenGifts(wishes, [], draws), 0)
  {
    NoRepeatAfter(wishes, [], draws);
    assert [] + OpenGifts(wishes, [], draws) == OpenGifts(wishes, [], draws);
  }

  // ---------------------------------------------------------------------------
  // Page state
  // ---------------------------------------------------------------------------

  /** The page's React state and the handlers that set it. */
  class App {
    const wishes: seq<string>
    var timeLeft: TimeLeft
    var showModal: bool
    var currentWish: string
    var wishHistory: seq<string>

    ghost predicate Valid()
      reads this
    {
      && |wishes| == 20 && Distinct(wishes)
      && |wishHistory| <= HISTORY_SIZE
      && forall w :: w in wishHistory ==> w in wishes
    }

    constructor ()
      ensures Valid() && wishes == WISHES
      ensures timeLeft == TimeLeft(0, 0, 0, 0) && !showModal && currentWish == "" && wishHistory == []
    {
      wishes := WISHES;
      WishesDistinct();
      timeLeft := TimeLeft(0, 0, 0, 0);
      showModal := false;
      currentWish := "";
      wishHistory := [];
    }

    /** One tick of the one-second countdown timer. */
    method Tick(now: int, xmasThisYear: int, xmasNextYear: int)
      modifies this`timeLeft
      ensures timeLeft == Decompose(ChooseTarget(now, xmasThisYear, xmasNextYear) - now)
      ensures now < xmasNextYear ==> InRange(timeLeft)
    {
      var xmas := xmasThisYear;
      if now > xmas {
        xmas := xmasNextYear;
      }
      var diff := xmas - now;
      if now < xmasNextYear {
        CountdownInRange(now, xmasThisYear, xmasNextYear);
      }
      timeLeft := Decompose(diff);
    }

    /** openGift: show a fresh wish and remember it among the last five. */
    method OpenGift(u: real)
      requires Valid() && IsUnit(u)
      modifies this`currentWish, this`wishHistory, this`showModal
      ensures Valid()
      ensures currentWish == ChooseWish(wishes, old(wishHistory), u)
      ensures currentWish in wishes && currentWish !in old(wishHistory)
      ensures wishHistory == NextHistory(old(wishHistory), currentWish)
      ensures showModal
    {
      var availableWishes := Available(wishes, wishHistory);
      var randomWish := if |availableWishes| > 0
        then availableWishes[PickIndex(u, |availableWishes|)]
        else wishes[PickIndex(u, |wishes|)];
      PickIsFresh(wishes, wishHistory, u);
      currentWish := randomWish;
      wishHistory := NextHistory(wishHistory, randomWish);
      showModal := true;
    }

    /** The backdrop, the close button and "Share Joy" all hide the modal. */
    method CloseModal()
      modifies this`showModal
      ensures !showModal
    {
      showModal := false;
    }
  }
}
