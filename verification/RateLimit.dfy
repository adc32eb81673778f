/** The fixed-window rate limiter: a cached counter with an expiry, and the
    bound it puts on every sliding interval. Times are clock ticks. */
module RateLimit {
  import opened Wrappers
  import opened Strings

  // ---- the rate ----------------------------------------------------------------------

  function Period(unit: char): Option<nat> {
    if unit == 's' then Some(1) else if unit == 'm' then Some(60) else if unit == 'h' then Some(3600) else None
  }

  /** The decimal value of a character the digit class accepts. */
  type DigitTable = char -> Option<nat>

  /** Whatever else it accepts, a table reads the ASCII digits as they are. */
  ghost predicate ReadsAscii(digit: DigitTable) {
    forall c | IsDigit(c) :: digit(c) == Some(c as int - '0' as int)
  }

  predicate Digits(digit: DigitTable, s: string) {
    forall i | 0 <= i < |s| :: digit(s[i]).Some?
  }

  function Number(digit: DigitTable, s: string): nat
    requires Digits(digit, s)
  {
    if s == "" then 0 else Number(digit, s[..|s| - 1]) * 10 + digit(s[|s| - 1]).value
  }

  /** _parse_rate: the end anchor also matches before a final newline. */
  function ParseRate(digit: DigitTable, s: string): Option<(nat, nat)> {
    var t := if s != "" && s[|s| - 1] == '\n' then s[..|s| - 1] else s;
    if |t| < 3 || t[|t| - 2] != '/' || !Digits(digit, t[..|t| - 2]) || Period(t[|t| - 1]).None? then None
    else Some((Number(digit, t[..|t| - 2]), Period(t[|t| - 1]).value))
  }

  predicate RateText(digit: DigitTable, s: string, digits: string, unit: char) {
    digits != "" && Digits(digit, digits) && Period(unit).Some?
        && (s == digits + "/" + [unit] || s == digits + "/" + [unit, '\n'])
  }

  /** Accepted texts are exactly the digit-slash-unit ones, and mean what they
      say, whichever characters are digits. */
  lemma ParseRateMeans(digit: DigitTable, s: string)
    ensures ParseRate(digit, s).Some? <==> exists digits, unit :: RateText(digit, s, digits, unit)
    ensures forall digits, unit | RateText(digit, s, digits, unit) ::
              ParseRate(digit, s) == Some((Number(digit, digits), Period(unit).value))
    ensures forall unit :: Period(unit) == if unit == 's' then Some(1)
                                           else if unit == 'm' then Some(60)
                                           else if unit == 'h' then Some(60 * 60)
                                           else None
  {
    hide Number;
    var t := if s != "" && s[|s| - 1] == '\n' then s[..|s| - 1] else s;
    if ParseRate(digit, s).Some? {
      var digits, unit := t[..|t| - 2], t[|t| - 1];
      assert t == digits + "/" + [unit];
      assert s == t || s == t + ['\n'];
      assert s == t + ['\n'] ==> s == digits + "/" + [unit, '\n'];
      assert RateText(digit, s, digits, unit);
    }
    forall digits, unit | RateText(digit, s, digits, unit)
      ensures ParseRate(digit, s) == Some((Number(digit, digits), Period(unit).value))
    {
      assert t == digits + "/" + [unit];
      assert t[..|t| - 2] == digits;
    }
  }

  lemma {:induction false} NumberIsVal(digit: DigitTable, s: string)
    requires ReadsAscii(digit) && AllDigits(s)
    ensures Digits(digit, s) && Number(digit, s) == Val(s)
  {
    if s != "" {
      NumberIsVal(digit, s[..|s| - 1]);
    }
  }

  lemma ParseOfPrintedRate(digit: DigitTable, n: nat, unit: char)
    requires ReadsAscii(digit) && Period(unit).Some?
    ensures ParseRate(digit, Dec(n) + "/" + [unit]) == Some((n, Period(unit).value))
  {
    hide Number, Val, Dec;
    DecIsNumeral(n);
    NumberIsVal(digit, Dec(n));
    ParseRateMeans(digit, Dec(n) + "/" + [unit]);
    assert RateText(digit, Dec(n) + "/" + [unit], Dec(n), unit);
  }

  // ---- the counter --------------------------------------------------------------------

  /** A cache entry: it is gone once its expiry is reached. */
  datatype Slot = Slot(count: nat, expiresAt: int)

  /** One request's clock readings: at the lookup, at the increment, and at the
      set that starts a window. */
  datatype Call = Call(getAt: int, incrAt: int, setAt: int)

  /** One counted request: when, in which window (by number and start), and
      the counter value it saw. */
  datatype Hit = Hit(at: int, window: nat, start: int, current: nat)

  predicate Live(s: Option<Slot>, now: int) {
    s.Some? && now < s.value.expiresAt
  }

  /** The entry after a request. */
  function Counted(s: Option<Slot>, c: Call, length: int): Slot {
    if Live(s, c.getAt) && Live(s, c.incrAt) then Slot(s.value.count + 1, s.value.expiresAt)
    else Slot(1, c.setAt + length)
  }

  class Cache {
    var slots: map<string, Slot>

    constructor ()
      ensures slots == map[]
    {
      slots := map[];
    }

    function Get(key: string, now: int): Option<nat>
      reads this
    {
      if key in slots && now < slots[key].expiresAt then Some(slots[key].count) else None
    }

    method Set(key: string, value: nat, now: int, timeout: int)
      modifies this
      ensures slots == old(slots)[key := Slot(value, now + timeout)]
    {
      slots := slots[key := Slot(value, now + timeout)];
    }

    /** incr keeps the expiry; None is the ValueError of a missing key. */
    method Incr(key: string, now: int) returns (r: Option<nat>)
      modifies this
      ensures old(Get(key, now)).None? ==> r == None && slots == old(slots)
      ensures old(Get(key, now)).Some? ==>
                r == Some(old(slots)[key].count + 1)
                    && slots == old(slots)[key := Slot(old(slots)[key].count + 1, old(slots)[key].expiresAt)]
    {
      if key !in slots || now >= slots[key].expiresAt {
        return None;
      }
      slots := slots[key := Slot(slots[key].count + 1, slots[key].expiresAt)];
      r := Some(slots[key].count);
    }

    /** The wrapper's counter: whether the view is reached. Other keys keep
        their entries. */
    method Admit(key: string, c: Call, limit: nat, length: int) returns (admitted: bool)
      modifies this
      ensures var before := if key in old(slots) then Some(old(slots)[key]) else None;
              slots == old(slots)[key := Counted(before, c, length)]
                  && admitted == (Counted(before, c, length).count <= limit)
      ensures key in slots && slots == old(slots)[key := slots[key]] && admitted == (slots[key].count <= limit)
      ensures slots[key] ==
              if key in old(slots) && c.getAt < old(slots)[key].expiresAt && c.incrAt < old(slots)[key].expiresAt then
                Slot(old(slots)[key].count + 1, old(slots)[key].expiresAt)
              else Slot(1, c.setAt + length)
    {
      var current := Get(key, c.getAt);
      if current.None? {
        Set(key, 1, c.setAt, length);
        current := Some(1);
      } else {
        current := Incr(key, c.incrAt);
        if current.None? {
          Set(key, 1, c.setAt, length);
          current := Some(1);
        }
      }
      if current.value > limit {
        return false;
      }
      admitted := true;
    }
  }

  // ---- runs of calls for one key ------------------------------------------------------------

  /** Calls that do not overlap, each with its readings in order. */
  predicate Sequential(calls: seq<Call>) {
    && (forall i | 0 <= i < |calls| :: calls[i].getAt <= calls[i].incrAt <= calls[i].setAt)
    && (forall i | 0 < i < |calls| :: calls[i - 1].setAt <= calls[i].getAt)
  }

  function SlotAfter(calls: seq<Call>, length: int): Option<Slot> {
    if calls == [] then None
    else Some(Counted(SlotAfter(calls[..|calls| - 1], length), calls[|calls| - 1], length))
  }

  /** The next hit: in the window of the last one, or the first of a new one. */
  function NextHit(hits: seq<Hit>, slot: Option<Slot>, c: Call): Hit {
    if hits != [] && Live(slot, c.getAt) && Live(slot, c.incrAt) then
      var last := hits[|hits| - 1];
      Hit(c.incrAt, last.window, last.start, slot.value.count + 1)
    else
      Hit(c.setAt, if hits == [] then 0 else hits[|hits| - 1].window + 1, c.setAt, 1)
  }

  /** The hits of a run; a window starts at each set. */
  function Hits(calls: seq<Call>, length: int): (hits: seq<Hit>)
    ensures |hits| == |calls|
  {
    if calls == [] then []
    else
      var front := calls[..|calls| - 1];
      Hits(front, length) + [NextHit(Hits(front, length), SlotAfter(front, length), calls[|calls| - 1])]
  }

  predicate Admitted(h: Hit, limit: nat) {
    h.current <= limit
  }

  /** Requests admitted in one window. */
  function InWindow(hits: seq<Hit>, window: nat, limit: nat): nat {
    if hits == [] then 0
    else InWindow(hits[..|hits| - 1], window, limit)
         + if hits[|hits| - 1].window == window && Admitted(hits[|hits| - 1], limit) then 1 else 0
  }

  /** Requests admitted in a closed interval. */
  function InInterval(hits: seq<Hit>, from: int, to: int, limit: nat): nat {
    if hits == [] then 0
    else InInterval(hits[..|hits| - 1], from, to, limit)
         + if from <= hits[|hits| - 1].at <= to && Admitted(hits[|hits| - 1], limit) then 1 else 0
  }

  // ---- windows --------------------------------------------------------------------------------

  /** Later windows start at least one length apart; hits fall in their window. */
  predicate Spaced(hits: seq<Hit>, length: int) {
    && (forall i | 0 <= i < |hits| :: hits[i].start <= hits[i].at < hits[i].start + length)
    && (forall i, j | 0 <= i <= j < |hits| :: hits[i].window <= hits[j].window)
    && (forall i, j | 0 <= i <= j < |hits| && hits[i].window == hits[j].window :: hits[i].start == hits[j].start)
    && (forall i, j | 0 <= i < j < |hits| && hits[i].window < hits[j].window ::
          hits[j].start >= hits[i].start + length
              && (hits[i].window + 2 <= hits[j].window ==> hits[j].start >= hits[i].start + 2 * length))
  }

  /** The entry belongs to the last hit's window, and no clock has passed it. */
  predicate Matches(hits: seq<Hit>, slot: Option<Slot>, length: int) {
    && (hits == [] <==> slot.None?)
    && (slot.Some? ==>
          var last := hits[|hits| - 1];
          slot.value == Slot(last.current, last.start + length) && last.current > 0)
  }

  lemma {:induction false} RunIsSpaced(calls: seq<Call>, length: int)
    requires Sequential(calls) && length > 0
    ensures var hits := Hits(calls, length);
            && Spaced(hits, length) && Matches(hits, SlotAfter(calls, length), length)
            && (hits != [] ==> hits[|hits| - 1].at <= calls[|calls| - 1].setAt)
  {
    hide Spaced, Hits;
    if calls == [] {
      NoHits(length);
    } else {
      var front, c := calls[..|calls| - 1], calls[|calls| - 1];
      FrontIsSequential(calls);
      RunIsSpaced(front, length);
      OneMoreHit(calls, length);
      var hits := Hits(front, length);
      if hits != [] {
        assert hits[|hits| - 1].at <= c.getAt;
        if Live(SlotAfter(front, length), c.getAt) && Live(SlotAfter(front, length), c.incrAt) {
          SameWindow(hits, c.incrAt, length);
        } else {
          NextWindow(hits, c.setAt, length);
        }
      } else {
        FirstWindow(c.setAt, length);
      }
    }
  }

  lemma NoHits(length: int)
    ensures Hits([], length) == [] && Spaced([], length)
  {
  }

  lemma FirstWindow(at: int, length: int)
    requires length > 0
    ensures Spaced([] + [Hit(at, 0, at, 1)], length)
  {
  }

  lemma SameWindow(hits: seq<Hit>, at: int, length: int)
    requires hits != [] && Spaced(hits, length)
    requires hits[|hits| - 1].at <= at < hits[|hits| - 1].start + length
    ensures var last := hits[|hits| - 1]; Spaced(hits + [Hit(at, last.window, last.start, last.current + 1)], length)
  {
    assert hits[|hits| - 1].start <= hits[|hits| - 1].at;
  }

  lemma EarlierWindow(hits: seq<Hit>, length: int, i: nat)
    requires i < |hits| && Spaced(hits, length) && length > 0
    ensures var last := hits[|hits| - 1];
            && hits[i].window <= last.window && last.start >= hits[i].start
            && (hits[i].window < last.window ==> last.start >= hits[i].start + length)
  {
    assert hits[i].window == hits[|hits| - 1].window ==> hits[i].start == hits[|hits| - 1].start;
  }

  lemma AppendHit(hits: seq<Hit>, next: Hit, length: int)
    requires Spaced(hits, length) && next.start <= next.at < next.start + length
    requires forall i | 0 <= i < |hits| :: hits[i].window <= next.window
    requires forall i | 0 <= i < |hits| && hits[i].window == next.window :: hits[i].start == next.start
    requires forall i | 0 <= i < |hits| && hits[i].window < next.window :: next.start >= hits[i].start + length
    requires forall i | 0 <= i < |hits| && hits[i].window + 2 <= next.window :: next.start >= hits[i].start + 2 * length
    ensures Spaced(hits + [next], length)
  {
    var all := hits + [next];
    assert forall i | 0 <= i < |hits| :: all[i] == hits[i];
    assert all[|hits|] == next;
  }

  lemma NextWindow(hits: seq<Hit>, at: int, length: int)
    requires hits != [] && Spaced(hits, length) && length > 0
    requires at >= hits[|hits| - 1].start + length
    ensures Spaced(hits + [Hit(at, hits[|hits| - 1].window + 1, at, 1)], length)
  {
    hide Spaced;
    var last := hits[|hits| - 1];
    var next := Hit(at, last.window + 1, at, 1);
    forall i | 0 <= i < |hits|
      ensures hits[i].window < next.window && next.start >= hits[i].start + length
      ensures hits[i].window + 2 <= next.window ==> next.start >= hits[i].start + 2 * length
    {
      EarlierWindow(hits, length, i);
    }
    AppendHit(hits, next, length);
  }

  lemma {:induction false} NoneAhead(hits: seq<Hit>, window: nat, limit: nat)
    requires forall i | 0 <= i < |hits| :: hits[i].window < window
    ensures InWindow(hits, window, limit) == 0
  {
    if hits != [] {
      NoneAhead(hits[..|hits| - 1], window, limit);
    }
  }

  /** Each window admits at most the limit, and its counter says how many. */
  lemma {:induction false} WindowIsBounded(calls: seq<Call>, length: int, limit: nat, window: nat)
    requires Sequential(calls) && length > 0
    ensures var hits := Hits(calls, length);
            && InWindow(hits, window, limit) <= limit
            && (hits != [] && hits[|hits| - 1].window == window ==>
                  var current := hits[|hits| - 1].current;
                  InWindow(hits, window, limit) == if current <= limit then current else limit)
  {
    hide Spaced, Hits, InWindow, SlotAfter, Sequential;
    if calls == [] {
      NothingInWindow(length, window, limit);
    } else {
      var front, c := calls[..|calls| - 1], calls[|calls| - 1];
      FrontIsSequential(calls);
      WindowIsBounded(front, length, limit, window);
      RunIsSpaced(front, length);
      var hits, slot := Hits(front, length), SlotAfter(front, length);
      OneMoreHit(calls, length);
      InWindowNext(hits, NextHit(hits, slot, c), window, limit);
      LastIsGreatest(hits, length);
      if hits == [] || hits[|hits| - 1].window < window {
        NoneAhead(hits, window, limit);
      }
    }
  }

  lemma NothingInWindow(length: int, window: nat, limit: nat)
    ensures InWindow(Hits([], length), window, limit) == 0
  {
  }

  lemma FrontIsSequential(calls: seq<Call>)
    requires Sequential(calls) && calls != []
    ensures Sequential(calls[..|calls| - 1])
  {
  }

  lemma OneMoreHit(calls: seq<Call>, length: int)
    requires calls != []
    ensures var front := calls[..|calls| - 1];
            Hits(calls, length) == Hits(front, length)
                + [NextHit(Hits(front, length), SlotAfter(front, length), calls[|calls| - 1])]
  {
  }

  lemma InWindowNext(hits: seq<Hit>, next: Hit, window: nat, limit: nat)
    ensures InWindow(hits + [next], window, limit)
         == InWindow(hits, window, limit) + if next.window == window && Admitted(next, limit) then 1 else 0
  {
    assert (hits + [next])[..|hits|] == hits;
  }

  lemma LastIsGreatest(hits: seq<Hit>, length: int)
    requires Spaced(hits, length)
    ensures forall i | 0 <= i < |hits| :: hits[i].window <= hits[|hits| - 1].window
  {
  }

  // ---- sliding intervals ------------------------------------------------------------------------

  lemma {:induction false} TwoWindowsCover(hits: seq<Hit>, from: int, to: int, limit: nat, window: nat)
    requires forall i | 0 <= i < |hits| && from <= hits[i].at <= to ::
              hits[i].window == window || hits[i].window == window + 1
    ensures InInterval(hits, from, to, limit) <= InWindow(hits, window, limit) + InWindow(hits, window + 1, limit)
  {
    if hits != [] {
      TwoWindowsCover(hits[..|hits| - 1], from, to, limit, window);
    }
  }

  /** A closed interval one length long meets at most two adjacent windows. */
  lemma IntervalMeetsTwoWindows(hits: seq<Hit>, length: int, from: int, i: nat, j: nat)
    requires Spaced(hits, length) && length > 0 && i < |hits| && j < |hits|
    requires from <= hits[i].at <= from + length && from <= hits[j].at <= from + length
    ensures hits[j].window <= hits[i].window + 1
  {
    assert j <= i ==> hits[j].window <= hits[i].window;
    assert hits[i].start + length > hits[i].at && hits[j].at >= hits[j].start;
  }

  /** Every interval of one window's length admits at most twice the limit,
      whatever the times of the calls. */
  lemma IntervalIsBounded(calls: seq<Call>, length: int, limit: nat, from: int)
    requires Sequential(calls) && length > 0
    ensures InInterval(Hits(calls, length), from, from + length, limit) <= 2 * limit
  {
    hide Spaced, Hits;
    var hits := Hits(calls, length);
    RunIsSpaced(calls, length);
    if i :| 0 <= i < |hits| && from <= hits[i].at <= from + length {
      var least := FirstInside(hits, from, from + length, i);
      forall j | 0 <= j < |hits| && from <= hits[j].at <= from + length
        ensures hits[j].window == hits[least].window || hits[j].window == hits[least].window + 1
      {
        IntervalMeetsTwoWindows(hits, length, from, least, j);
        WindowsGrow(hits, length, least, j);
      }
      TwoWindowsCover(hits, from, from + length, limit, hits[least].window);
      WindowIsBounded(calls, length, limit, hits[least].window);
      WindowIsBounded(calls, length, limit, hits[least].window + 1);
    } else {
      NoneInside(hits, from, from + length, limit);
    }
  }

  lemma WindowsGrow(hits: seq<Hit>, length: int, i: nat, j: nat)
    requires Spaced(hits, length) && i <= j < |hits|
    ensures hits[i].window <= hits[j].window
  {
  }

  lemma {:induction false} FirstInside(hits: seq<Hit>, from: int, to: int, i: nat) returns (k: nat)
    requires i < |hits| && from <= hits[i].at <= to
    ensures k < |hits| && from <= hits[k].at <= to
    ensures forall j | 0 <= j < |hits| && from <= hits[j].at <= to :: k <= j
  {
    k := i;
    if j :| 0 <= j < i && from <= hits[j].at <= to {
      k := FirstInside(hits, from, to, j);
    }
  }

  lemma {:induction false} NoneInside(hits: seq<Hit>, from: int, to: int, limit: nat)
    requires forall i | 0 <= i < |hits| :: !(from <= hits[i].at <= to)
    ensures InInterval(hits, from, to, limit) == 0
  {
    if hits != [] {
      NoneInside(hits[..|hits| - 1], from, to, limit);
    }
  }

  // ---- the bound is met ---------------------------------------------------------------------------

  function Burst(at: int, n: nat): seq<Call> {
    if n == 0 then [] else Burst(at, n - 1) + [Call(at, at, at)]
  }

  lemma {:induction false} BurstShape(at: int, n: nat)
    ensures |Burst(at, n)| == n && forall i | 0 <= i < n :: Burst(at, n)[i] == Call(at, at, at)
  {
    if n > 0 {
      BurstShape(at, n - 1);
    }
  }

  /** One more call whose three readings agree. */
  lemma OneMoreCall(front: seq<Call>, at: int, length: int, from: int, to: int, limit: nat)
    ensures var c := Call(at, at, at);
            var slot := Counted(SlotAfter(front, length), c, length);
            && SlotAfter(front + [c], length) == Some(slot)
            && InInterval(Hits(front + [c], length), from, to, limit)
               == InInterval(Hits(front, length), from, to, limit)
                  + if from <= at <= to && slot.count <= limit then 1 else 0
  {
    var calls := front + [Call(at, at, at)];
    assert calls[..|calls| - 1] == front;
    var hits := Hits(calls, length);
    assert hits[..|hits| - 1] == Hits(front, length);
  }

  lemma {:induction false} FirstBurst(length: int, n: nat, limit: nat)
    requires length > 0 && n <= limit
    ensures SlotAfter(Burst(0, n), length) == if n == 0 then None else Some(Slot(n, length))
    ensures InInterval(Hits(Burst(0, n), length), 0, length, limit) == n
  {
    hide Hits, InInterval, SlotAfter;
    if n > 0 {
      FirstBurst(length, n - 1, limit);
      OneMoreCall(Burst(0, n - 1), 0, length, 0, length, limit);
    } else {
      NoCalls(length, limit);
    }
  }

  lemma NoCalls(length: int, limit: nat)
    ensures SlotAfter([], length) == None && InInterval(Hits([], length), 0, length, limit) == 0
  {
  }

  lemma {:induction false} SecondBurst(length: int, n: nat, limit: nat)
    requires length > 0 && 0 < limit && n <= limit
    ensures var calls := Burst(0, limit) + Burst(length, n);
            && SlotAfter(calls, length) == Some(if n == 0 then Slot(limit, length) else Slot(n, 2 * length))
            && InInterval(Hits(calls, length), 0, length, limit) == limit + n
  {
    hide Hits, InInterval, SlotAfter;
    var first := Burst(0, limit);
    var calls := first + Burst(length, n);
    if n == 0 {
      FirstBurst(length, limit, limit);
      assert calls == first;
    } else {
      SecondBurst(length, n - 1, limit);
      var front := first + Burst(length, n - 1);
      assert calls == front + [Call(length, length, length)];
      OneMoreCall(front, length, length, 0, length, limit);
    }
  }

  /** For every limit and length some run has an interval of one length that
      admits exactly twice the limit. */
  lemma BoundIsTight(length: int, limit: nat) returns (calls: seq<Call>)
    requires length > 0 && limit > 0
    ensures Sequential(calls) && InInterval(Hits(calls, length), 0, 0 + length, limit) == 2 * limit
  {
    calls := Burst(0, limit) + Burst(length, limit);
    BurstShape(0, limit);
    BurstShape(length, limit);
    SecondBurst(length, limit, limit);
  }

  // ---- keys do not interfere ------------------------------------------------------------------------

  function Slots(requests: seq<(string, Call)>, length: int): map<string, Slot> {
    if requests == [] then map[]
    else
      var slots, last := Slots(requests[..|requests| - 1], length), requests[|requests| - 1];
      slots[last.0 := Counted(if last.0 in slots then Some(slots[last.0]) else None, last.1, length)]
  }

  function CallsOf(requests: seq<(string, Call)>, key: string): seq<Call> {
    if requests == [] then []
    else
      var calls, last := CallsOf(requests[..|requests| - 1], key), requests[|requests| - 1];
      if last.0 == key then calls + [last.1] else calls
  }

  /** Whatever other keys do, a key's counter is that of its own calls. */
  lemma {:induction false} KeysAreIndependent(requests: seq<(string, Call)>, length: int, key: string)
    ensures var slots := Slots(requests, length);
            SlotAfter(CallsOf(requests, key), length) == if key in slots then Some(slots[key]) else None
  {
    if requests != [] {
      KeysAreIndependent(requests[..|requests| - 1], length, key);
      var calls, last := CallsOf(requests[..|requests| - 1], key), requests[|requests| - 1];
      if last.0 == key {
        assert (calls + [last.1])[..|calls|] == calls;
      }
    }
  }
}
