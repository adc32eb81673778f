/** Dashboard time series: rows counted into hour or day buckets, gaps filled
    with zeros. Times are microseconds; the local zone is a fixed offset. */
module TimeSeries {

  datatype Bucket = Hour | Day

  function Size(b: Bucket): int {
    if b.Hour? then 3600000000 else 86400000000
  }

  /** _align_to_bucket: the start of the bucket on the local wall clock. */
  function Align(t: int, b: Bucket, offset: int): int {
    (t + offset) / Size(b) * Size(b) - offset
  }

  predicate Aligned(t: int, b: Bucket, offset: int) {
    Align(t, b, offset) == t
  }

  // ---- what a series should hold ----------------------------------------------------

  predicate InRange(r: int, start: int, end: int) {
    start <= r < end
  }

  /** Rows of the range in one bucket. */
  function Count(rows: seq<int>, start: int, end: int, b: Bucket, offset: int, key: int): nat {
    if rows == [] then 0
    else
      var last := rows[|rows| - 1];
      Count(rows[..|rows| - 1], start, end, b, offset, key)
      + if InRange(last, start, end) && Align(last, b, offset) == key then 1 else 0
  }

  function Total(rows: seq<int>, start: int, end: int): nat {
    if rows == [] then 0
    else Total(rows[..|rows| - 1], start, end) + if InRange(rows[|rows| - 1], start, end) then 1 else 0
  }

  /** n bucket starts from the first. */
  function Starts(first: int, size: int, n: nat): (keys: seq<int>)
    ensures |keys| == n
  {
    if n == 0 then [] else Starts(first, size, n - 1) + [first + (n - 1) * size]
  }

  /** How many buckets the fill loop visits. */
  function Steps(start: int, end: int, b: Bucket, offset: int): nat {
    var gap := (end + offset) / Size(b) - (start + offset) / Size(b);
    if gap > 0 then gap else 0
  }

  /** The filled buckets, and the one the end falls in when it has rows. */
  function SeriesKeys(rows: seq<int>, start: int, end: int, b: Bucket, offset: int): seq<int> {
    var last := Align(end, b, offset);
    Starts(Align(start, b, offset), Size(b), Steps(start, end, b, offset))
    + if Count(rows, start, end, b, offset, last) > 0 then [last] else []
  }

  function Tabulate(keys: seq<int>, rows: seq<int>, start: int, end: int, b: Bucket, offset: int)
    : (series: seq<(int, nat)>)
    ensures |series| == |keys|
    ensures forall i | 0 <= i < |keys| :: series[i] == (keys[i], Count(rows, start, end, b, offset, keys[i]))
  {
    if keys == [] then []
    else Tabulate(keys[..|keys| - 1], rows, start, end, b, offset)
         + [(keys[|keys| - 1], Count(rows, start, end, b, offset, keys[|keys| - 1]))]
  }

  function Sum(series: seq<(int, nat)>): nat {
    if series == [] then 0 else Sum(series[..|series| - 1]) + series[|series| - 1].1
  }

  // ---- the database's aggregation ------------------------------------------------------

  /** GROUP BY the truncated time, ORDER BY it: one row a nonempty bucket. */
  predicate IsAggregation(groups: seq<(int, nat)>, rows: seq<int>, start: int, end: int, b: Bucket, offset: int) {
    && (forall i, j | 0 <= i < j < |groups| :: groups[i].0 < groups[j].0)
    && (forall i | 0 <= i < |groups| :: groups[i].1 == Count(rows, start, end, b, offset, groups[i].0) > 0)
    && (forall i | 0 <= i < |rows| && InRange(rows[i], start, end) ::
          exists j | 0 <= j < |groups| :: groups[j].0 == Align(rows[i], b, offset))
  }

  // ---- arithmetic of buckets ------------------------------------------------------------

  lemma AlignBounds(t: int, b: Bucket, offset: int)
    ensures Align(t, b, offset) <= t < Align(t, b, offset) + Size(b)
    ensures Aligned(Align(t, b, offset), b, offset)
  {
    if b.Hour? {
      assert (t + offset) / 3600000000 * 3600000000 / 3600000000 == (t + offset) / 3600000000;
    } else {
      assert (t + offset) / 86400000000 * 86400000000 / 86400000000 == (t + offset) / 86400000000;
    }
  }

  /** A bucket starts on the hour, or at midnight, of the local wall clock. */
  lemma AlignIsWallClock(t: int, b: Bucket, offset: int)
    ensures var size := if b.Hour? then 60 * 60 * 1000000 else 24 * 60 * 60 * 1000000;
            && Size(b) == size && (Align(t, b, offset) + offset) % size == 0
            && Align(t, b, offset) <= t < Align(t, b, offset) + size
  {
    AlignBounds(t, b, offset);
    if b.Hour? {
      assert (t + offset) / 3600000000 * 3600000000 % 3600000000 == 0;
    } else {
      assert (t + offset) / 86400000000 * 86400000000 % 86400000000 == 0;
    }
  }

  /** Counting a bucket is counting the rows of the range that fall in it. */
  lemma {:induction false} CountMeans(rows: seq<int>, start: int, end: int, b: Bucket, offset: int, key: int)
    ensures Count(rows, start, end, b, offset, key)
         == |set i | 0 <= i < |rows| && start <= rows[i] < end && Align(rows[i], b, offset) == key|
  {
    hide Align;
    var inside := set i | 0 <= i < |rows| && start <= rows[i] < end && Align(rows[i], b, offset) == key;
    if rows == [] {
      assert inside == {};
    } else {
      var front, last := rows[..|rows| - 1], rows[|rows| - 1];
      CountMeans(front, start, end, b, offset, key);
      var before := set i | 0 <= i < |front| && start <= front[i] < end && Align(front[i], b, offset) == key;
      if start <= last < end && Align(last, b, offset) == key {
        assert inside == before + {|rows| - 1};
      } else {
        assert inside == before;
      }
    }
  }

  lemma {:induction false} TotalMeans(rows: seq<int>, start: int, end: int)
    ensures Total(rows, start, end) == |set i | 0 <= i < |rows| && start <= rows[i] < end|
  {
    var inside := set i | 0 <= i < |rows| && start <= rows[i] < end;
    if rows == [] {
      assert inside == {};
    } else {
      var front, last := rows[..|rows| - 1], rows[|rows| - 1];
      TotalMeans(front, start, end);
      var before := set i | 0 <= i < |front| && start <= front[i] < end;
      if start <= last < end {
        assert inside == before + {|rows| - 1};
      } else {
        assert inside == before;
      }
    }
  }

  lemma AlignMonotone(s: int, t: int, b: Bucket, offset: int)
    requires s <= t
    ensures Align(s, b, offset) <= Align(t, b, offset)
    ensures (s + offset) / Size(b) <= (t + offset) / Size(b)
  {
  }

  lemma NthStart(start: int, b: Bucket, offset: int, n: int)
    ensures Aligned(Align(start, b, offset) + n * Size(b), b, offset)
    ensures Align(start, b, offset) + n * Size(b) == ((start + offset) / Size(b) + n) * Size(b) - offset
  {
    var q := (start + offset) / Size(b) + n;
    if b.Hour? {
      assert q * 3600000000 / 3600000000 == q;
    } else {
      assert q * 86400000000 / 86400000000 == q;
    }
  }

  lemma {:induction false} StartsAt(first: int, size: int, n: nat)
    ensures forall i | 0 <= i < n :: Starts(first, size, n)[i] == first + i * size
  {
    if n > 0 {
      StartsAt(first, size, n - 1);
    }
  }

  /** The loop's measure: a bucket before the aligned end is one of the first
      Steps buckets, and the next one after them is the aligned end. */
  lemma StepsReachTheEnd(start: int, end: int, b: Bucket, offset: int, n: nat)
    ensures Align(start, b, offset) + n * Size(b) < Align(end, b, offset) <==> n < Steps(start, end, b, offset)
    ensures Steps(start, end, b, offset) > 0 ==>
              Align(start, b, offset) + Steps(start, end, b, offset) * Size(b) == Align(end, b, offset)
  {
    NthStart(start, b, offset, n);
    NthStart(start, b, offset, Steps(start, end, b, offset));
  }

  // ---- the loops ---------------------------------------------------------------------------

  lemma {:induction false} CountWitness(rows: seq<int>, start: int, end: int, b: Bucket, offset: int, key: int)
    returns (i: nat)
    requires Count(rows, start, end, b, offset, key) > 0
    ensures i < |rows| && InRange(rows[i], start, end) && Align(rows[i], b, offset) == key
  {
    hide Align;
    var last := rows[|rows| - 1];
    if InRange(last, start, end) && Align(last, b, offset) == key {
      i := |rows| - 1;
    } else {
      i := CountWitness(rows[..|rows| - 1], start, end, b, offset, key);
    }
  }

  /** A bucket with rows is one of the filled ones or the one the end falls in. */
  lemma BucketWithRows(rows: seq<int>, start: int, end: int, b: Bucket, offset: int, key: int)
    requires Count(rows, start, end, b, offset, key) > 0
    ensures key in Starts(Align(start, b, offset), Size(b), Steps(start, end, b, offset))
              || key == Align(end, b, offset)
  {
    hide Count, Starts;
    var i := CountWitness(rows, start, end, b, offset, key);
    AlignMonotone(start, rows[i], b, offset);
    AlignMonotone(rows[i], end, b, offset);
    var n := (rows[i] + offset) / Size(b) - (start + offset) / Size(b);
    NthStart(start, b, offset, n);
    StepsReachTheEnd(start, end, b, offset, n);
    StartsAt(Align(start, b, offset), Size(b), Steps(start, end, b, offset));
    if key < Align(end, b, offset) {
      assert Starts(Align(start, b, offset), Size(b), Steps(start, end, b, offset))[n] == key;
    }
  }

  lemma EndIsNotFilled(start: int, end: int, b: Bucket, offset: int, n: nat)
    requires n <= Steps(start, end, b, offset)
    ensures forall k | k in Starts(Align(start, b, offset), Size(b), n) ::
              k < Align(start, b, offset) + n * Size(b) && k < Align(end, b, offset)
  {
    hide Align, Steps;
    StartsAt(Align(start, b, offset), Size(b), n);
    forall i | 0 <= i < n
      ensures Align(start, b, offset) + i * Size(b) < Align(end, b, offset)
    {
      StepsReachTheEnd(start, end, b, offset, i);
    }
  }

  /** The total of the group with this key among the first i, or 0. */
  function Found(groups: seq<(int, nat)>, i: nat, key: int): nat
    requires i <= |groups|
  {
    if i == 0 then 0 else if groups[i - 1].0 == key then groups[i - 1].1 else Found(groups, i - 1, key)
  }

  lemma {:induction false} FoundGroup(groups: seq<(int, nat)>, i: nat, j: nat, key: int)
    requires j < i <= |groups| && groups[j].0 == key
    requires forall x, y | 0 <= x < y < |groups| :: groups[x].0 < groups[y].0
    ensures Found(groups, i, key) == groups[j].1
  {
    if i - 1 != j {
      FoundGroup(groups, i - 1, j, key);
    }
  }

  lemma {:induction false} NotFound(groups: seq<(int, nat)>, i: nat, key: int)
    requires i <= |groups| && forall j | 0 <= j < i :: groups[j].0 != key
    ensures Found(groups, i, key) == 0
  {
    if i > 0 {
      NotFound(groups, i - 1, key);
    }
  }

  lemma AggregationFinds(groups: seq<(int, nat)>, rows: seq<int>, start: int, end: int, b: Bucket, offset: int,
      key: int)
    requires IsAggregation(groups, rows, start, end, b, offset)
    ensures Found(groups, |groups|, key) == Count(rows, start, end, b, offset, key)
    ensures Count(rows, start, end, b, offset, key) > 0 <==> exists j | 0 <= j < |groups| :: groups[j].0 == key
  {
    hide Count, Align;
    if j :| 0 <= j < |groups| && groups[j].0 == key {
      FoundGroup(groups, |groups|, j, key);
    } else {
      NotFound(groups, |groups|, key);
      if Count(rows, start, end, b, offset, key) > 0 {
        var i := CountWitness(rows, start, end, b, offset, key);
      }
    }
  }

  function Items(keys: seq<int>, values: map<int, nat>): (items: seq<(int, nat)>)
    requires forall i | 0 <= i < |keys| :: keys[i] in values
    ensures |items| == |keys| && forall i | 0 <= i < |keys| :: items[i] == (keys[i], values[keys[i]])
  {
    if keys == [] then [] else Items(keys[..|keys| - 1], values) + [(keys[|keys| - 1], values[keys[|keys| - 1]])]
  }

  /** The aligned starts that a zero is put under. */
  method FillGaps(start: int, end: int, b: Bucket, offset: int) returns (keys: seq<int>, values: map<int, nat>)
    ensures keys == Starts(Align(start, b, offset), Size(b), Steps(start, end, b, offset))
    ensures forall k :: k in keys <==> k in values
    ensures forall k | k in values :: values[k] == 0
  {
    hide Align, Steps, Starts;
    var alignedStart, alignedEnd := Align(start, b, offset), Align(end, b, offset);
    keys, values := [], map[];
    var current := alignedStart;
    ghost var n := 0;
    NoStarts(alignedStart, Size(b));
    StepsReachTheEnd(start, end, b, offset, 0);
    while current < alignedEnd
      invariant 0 <= n <= Steps(start, end, b, offset) && current == alignedStart + n * Size(b)
      invariant keys == Starts(alignedStart, Size(b), n)
      invariant forall k :: k in keys <==> k in values
      invariant forall k | k in values :: values[k] == 0
      decreases alignedEnd - current
    {
      StepsReachTheEnd(start, end, b, offset, n);
      EndIsNotFilled(start, end, b, offset, n);
      NextStart(alignedStart, Size(b), n);
      if current !in values {
        keys := keys + [current];
      }
      values := values[current := 0];
      current := current + Size(b);
      n := n + 1;
    }
    StepsReachTheEnd(start, end, b, offset, n);
  }

  lemma NoStarts(first: int, size: int)
    ensures Starts(first, size, 0) == []
  {
  }

  lemma NextStart(first: int, size: int, n: nat)
    ensures Starts(first, size, n + 1) == Starts(first, size, n) + [first + n * size]
  {
  }

  /** generate_time_series, given what the database's aggregation returns. */
  method GenerateTimeSeries(rows: seq<int>, groups: seq<(int, nat)>, start: int, end: int, b: Bucket, offset: int)
    returns (series: seq<(int, nat)>)
    requires IsAggregation(groups, rows, start, end, b, offset)
    ensures series == Tabulate(SeriesKeys(rows, start, end, b, offset), rows, start, end, b, offset)
  {
    hide Align, Steps, Starts, Count, Found, IsAggregation;
    var keys, values := FillGaps(start, end, b, offset);
    var last := Align(end, b, offset);
    ghost var filled := keys;
    EndIsNotFilled(start, end, b, offset, Steps(start, end, b, offset));
    forall k | k in values
      ensures values[k] == Found(groups, 0, k)
    {
      NotFound(groups, 0, k);
    }
    for i := 0 to |groups|
      invariant forall k :: k in keys <==> k in values
      invariant keys == filled || (keys == filled + [last] && Among(groups, i, last))
      invariant Among(groups, i, last) ==> keys == filled + [last]
      invariant forall k | k in values :: values[k] == Found(groups, i, k)
    {
      GroupIsItsBucket(groups, rows, start, end, b, offset, i);
      BucketWithRows(rows, start, end, b, offset, groups[i].0);
      var key := Align(groups[i].0, b, offset);
      if key !in values {
        keys := keys + [key];
      }
      values := values[key := groups[i].1];
      forall k | k in values
        ensures values[k] == Found(groups, i + 1, k)
      {
        FoundNext(groups, i, k);
      }
      AmongNext(groups, i, last);
    }
    AggregationFinds(groups, rows, start, end, b, offset, last);
    forall k | k in keys
      ensures values[k] == Count(rows, start, end, b, offset, k)
    {
      AggregationFinds(groups, rows, start, end, b, offset, k);
    }
    forall i | 0 <= i < |keys|
      ensures keys[i] in values && values[keys[i]] == Count(rows, start, end, b, offset, keys[i])
    {
      var k := keys[i];
      assert k in keys;
    }
    series := Items(keys, values);
  }

  predicate Among(groups: seq<(int, nat)>, i: nat, key: int)
    requires i <= |groups|
  {
    exists j | 0 <= j < i :: groups[j].0 == key
  }

  lemma AmongNext(groups: seq<(int, nat)>, i: nat, key: int)
    requires i < |groups|
    ensures Among(groups, i + 1, key) <==> Among(groups, i, key) || groups[i].0 == key
  {
  }

  lemma FoundNext(groups: seq<(int, nat)>, i: nat, key: int)
    requires i < |groups|
    ensures Found(groups, i + 1, key) == if groups[i].0 == key then groups[i].1 else Found(groups, i, key)
  {
  }

  /** A group's key is the start of a bucket with rows. */
  lemma GroupIsItsBucket(groups: seq<(int, nat)>, rows: seq<int>, start: int, end: int, b: Bucket, offset: int, i: nat)
    requires IsAggregation(groups, rows, start, end, b, offset) && i < |groups|
    ensures Count(rows, start, end, b, offset, groups[i].0) > 0 && Align(groups[i].0, b, offset) == groups[i].0
    ensures forall j | 0 <= j < i :: groups[j].0 != groups[i].0
  {
    hide Align, Count;
    var r := CountWitness(rows, start, end, b, offset, groups[i].0);
    AlignBounds(rows[r], b, offset);
    AlignedMeans(groups[i].0, b, offset);
  }

  lemma AlignedMeans(t: int, b: Bucket, offset: int)
    ensures Aligned(t, b, offset) <==> Align(t, b, offset) == t
  {
  }

  // ---- main results ----------------------------------------------------------------------------

  /** The buckets are aligned, one step apart, and strictly increasing from the
      aligned start. */
  lemma KeysAreSpaced(rows: seq<int>, start: int, end: int, b: Bucket, offset: int, i: nat)
    requires i < |SeriesKeys(rows, start, end, b, offset)|
    ensures var keys := SeriesKeys(rows, start, end, b, offset);
            && keys[i] == Align(start, b, offset) + i * Size(b)
            && Aligned(keys[i], b, offset)
            && (i > 0 ==> keys[i] == keys[i - 1] + Size(b) > keys[i - 1])
  {
    hide Align, Steps, Starts, Count;
    var n := Steps(start, end, b, offset);
    StartsAt(Align(start, b, offset), Size(b), n);
    NthStart(start, b, offset, i);
    StepsReachTheEnd(start, end, b, offset, n);
    if i == n {
      LastStepIsNext(rows, start, end, b, offset);
    }
  }

  /** When the end's bucket has rows it is the next after the filled ones. */
  lemma LastStepIsNext(rows: seq<int>, start: int, end: int, b: Bucket, offset: int)
    requires Count(rows, start, end, b, offset, Align(end, b, offset)) > 0
    ensures Align(end, b, offset) == Align(start, b, offset) + Steps(start, end, b, offset) * Size(b)
  {
    hide Align, Steps, Count;
    var n := Steps(start, end, b, offset);
    var i := CountWitness(rows, start, end, b, offset, Align(end, b, offset));
    AlignMonotone(start, rows[i], b, offset);
    AlignMonotone(start, end, b, offset);
    StepsReachTheEnd(start, end, b, offset, n);
    StepsReachTheEnd(start, end, b, offset, 0);
  }

  lemma {:induction false} SumOfNoRows(keys: seq<int>, start: int, end: int, b: Bucket, offset: int)
    ensures Sum(Tabulate(keys, [], start, end, b, offset)) == 0
  {
    if keys != [] {
      SumOfNoRows(keys[..|keys| - 1], start, end, b, offset);
      var s := Tabulate(keys, [], start, end, b, offset);
      assert s[..|s| - 1] == Tabulate(keys[..|keys| - 1], [], start, end, b, offset);
    }
  }

  function Hits(keys: seq<int>, key: int): nat {
    if keys == [] then 0 else Hits(keys[..|keys| - 1], key) + if keys[|keys| - 1] == key then 1 else 0
  }

  /** One more row adds one to the sum for each key it falls under. */
  lemma {:induction false} SumOfLonger(keys: seq<int>, rows: seq<int>, r: int, start: int, end: int, b: Bucket,
      offset: int)
    ensures Sum(Tabulate(keys, rows + [r], start, end, b, offset))
         == Sum(Tabulate(keys, rows, start, end, b, offset))
             + if InRange(r, start, end) then Hits(keys, Align(r, b, offset)) else 0
  {
    hide Align;
    if keys != [] {
      var front, last := keys[..|keys| - 1], keys[|keys| - 1];
      SumOfLonger(front, rows, r, start, end, b, offset);
      var s, t := Tabulate(keys, rows, start, end, b, offset), Tabulate(keys, rows + [r], start, end, b, offset);
      assert s[..|s| - 1] == Tabulate(front, rows, start, end, b, offset);
      assert t[..|t| - 1] == Tabulate(front, rows + [r], start, end, b, offset);
      assert (rows + [r])[..|rows|] == rows;
    }
  }

  lemma {:induction false} HitOnce(keys: seq<int>, i: nat)
    requires i < |keys| && forall x, y | 0 <= x < y < |keys| :: keys[x] < keys[y]
    ensures Hits(keys, keys[i]) == 1
  {
    var front := keys[..|keys| - 1];
    if i == |front| {
      HitNever(front, keys[i]);
    } else {
      HitOnce(front, i);
    }
  }

  lemma {:induction false} HitNever(keys: seq<int>, key: int)
    requires key !in keys
    ensures Hits(keys, key) == 0
  {
    if keys != [] {
      HitNever(keys[..|keys| - 1], key);
    }
  }

  /** Over increasing keys that cover the rows' buckets, counts sum to the rows. */
  lemma {:induction false} SumIsTotal(keys: seq<int>, rows: seq<int>, start: int, end: int, b: Bucket, offset: int)
    requires forall x, y | 0 <= x < y < |keys| :: keys[x] < keys[y]
    requires forall i | 0 <= i < |rows| && InRange(rows[i], start, end) :: Align(rows[i], b, offset) in keys
    ensures Sum(Tabulate(keys, rows, start, end, b, offset)) == Total(rows, start, end)
  {
    hide Align, Tabulate;
    if rows == [] {
      SumOfNoRows(keys, start, end, b, offset);
    } else {
      var front, r := rows[..|rows| - 1], rows[|rows| - 1];
      assert forall i | 0 <= i < |front| :: front[i] == rows[i];
      SumIsTotal(keys, front, start, end, b, offset);
      SumOfLonger(keys, front, r, start, end, b, offset);
      assert rows == front + [r];
      if InRange(r, start, end) {
        var i :| 0 <= i < |keys| && keys[i] == Align(r, b, offset);
        HitOnce(keys, i);
      }
    }
  }

  lemma {:induction false} RowIsCounted(rows: seq<int>, start: int, end: int, b: Bucket, offset: int, i: nat)
    requires i < |rows| && InRange(rows[i], start, end)
    ensures Count(rows, start, end, b, offset, Align(rows[i], b, offset)) > 0
  {
    hide Align;
    if i < |rows| - 1 {
      RowIsCounted(rows[..|rows| - 1], start, end, b, offset, i);
    }
  }

  /** The series conserves counts: its values sum to the rows of the range. */
  lemma SeriesConservesCounts(rows: seq<int>, start: int, end: int, b: Bucket, offset: int)
    ensures Sum(Tabulate(SeriesKeys(rows, start, end, b, offset), rows, start, end, b, offset))
              == Total(rows, start, end)
  {
    hide Align, Steps, Starts, Count, Tabulate, Sum, Total;
    var keys := SeriesKeys(rows, start, end, b, offset);
    forall x, y | 0 <= x < y < |keys|
      ensures keys[x] < keys[y]
    {
      KeysAreSpaced(rows, start, end, b, offset, x);
      KeysAreSpaced(rows, start, end, b, offset, y);
      assert (y - x) * Size(b) > 0;
    }
    forall i | 0 <= i < |rows| && InRange(rows[i], start, end)
      ensures Align(rows[i], b, offset) in keys
    {
      RowIsCounted(rows, start, end, b, offset, i);
      BucketWithRows(rows, start, end, b, offset, Align(rows[i], b, offset));
    }
    SumIsTotal(keys, rows, start, end, b, offset);
  }

  predicate RowsAtTheEnd(rows: seq<int>, start: int, end: int, b: Bucket, offset: int) {
    exists i | 0 <= i < |rows| :: InRange(rows[i], start, end) && Align(end, b, offset) <= rows[i]
  }

  /** The bucket the end falls in appears exactly when the range has rows there. */
  lemma EndBucketExactlyWhen(rows: seq<int>, start: int, end: int, b: Bucket, offset: int)
    ensures Align(end, b, offset) in SeriesKeys(rows, start, end, b, offset) <==>
              RowsAtTheEnd(rows, start, end, b, offset)
  {
    hide Align, Steps, Starts, Count;
    var last := Align(end, b, offset);
    EndIsNotFilled(start, end, b, offset, Steps(start, end, b, offset));
    if Count(rows, start, end, b, offset, last) > 0 {
      var i := CountWitness(rows, start, end, b, offset, last);
      AlignBounds(rows[i], b, offset);
    }
    if RowsAtTheEnd(rows, start, end, b, offset) {
      var i :| 0 <= i < |rows| && InRange(rows[i], start, end) && last <= rows[i];
      RowIsCounted(rows, start, end, b, offset, i);
      AlignMonotone(last, rows[i], b, offset);
      AlignMonotone(rows[i], end, b, offset);
      AlignBounds(end, b, offset);
      AlignedMeans(last, b, offset);
    }
  }

  /** Every instant of the range lies in a listed bucket. */
  ghost predicate EveryPeriodListed(rows: seq<int>, start: int, end: int, b: Bucket, offset: int) {
    forall t | start <= t < end :: Align(t, b, offset) in SeriesKeys(rows, start, end, b, offset)
  }

  /** The promise of a value for every period of the range is kept exactly when
      the range ends at a bucket's start or has rows in its last bucket. */
  lemma EveryPeriodExactlyWhen(rows: seq<int>, start: int, end: int, b: Bucket, offset: int)
    requires start < end
    ensures EveryPeriodListed(rows, start, end, b, offset) <==>
              Aligned(end, b, offset) || RowsAtTheEnd(rows, start, end, b, offset)
  {
    hide Align, Steps, Starts, Count, RowsAtTheEnd, SeriesKeys;
    var last := Align(end, b, offset);
    AlignBounds(end, b, offset);
    AlignedMeans(end, b, offset);
    AlignedMeans(last, b, offset);
    EndBucketExactlyWhen(rows, start, end, b, offset);
    if EveryPeriodListed(rows, start, end, b, offset) && last != end {
      var t := if last < start then start else last;
      AlignMonotone(last, t, b, offset);
      AlignMonotone(t, end, b, offset);
      assert Align(t, b, offset) == last;
    }
    if Aligned(end, b, offset) || RowsAtTheEnd(rows, start, end, b, offset) {
      forall t | start <= t < end
        ensures Align(t, b, offset) in SeriesKeys(rows, start, end, b, offset)
      {
        AlignBounds(t, b, offset);
        FilledOrLast(rows, start, end, b, offset, t);
      }
    }
  }

  /** The bucket of an instant of the range is a filled one or the end's. */
  lemma FilledOrLast(rows: seq<int>, start: int, end: int, b: Bucket, offset: int, t: int)
    requires start <= t < end
    ensures Align(t, b, offset) in SeriesKeys(rows, start, end, b, offset)
              || Align(t, b, offset) == Align(end, b, offset)
  {
    hide Align, Steps, Starts, Count;
    RowIsCounted([t], start, end, b, offset, 0);
    BucketWithRows([t], start, end, b, offset, Align(t, b, offset));
  }

  /** No rows in the first half hour: the series is empty. */
  lemma HalfHourIsMissing()
    ensures SeriesKeys([], 0, 1800000000, Hour, 0) == [] && !EveryPeriodListed([], 0, 1800000000, Hour, 0)
  {
    EveryPeriodExactlyWhen([], 0, 1800000000, Hour, 0);
    assert !Aligned(1800000000, Hour, 0) && !RowsAtTheEnd([], 0, 1800000000, Hour, 0);
  }

  /** Two series over one range agree in all keys but the end's bucket, which
      each has exactly when it has rows there. */
  lemma TwoSeriesAgree(r: seq<int>, s: seq<int>, start: int, end: int, b: Bucket, offset: int)
    ensures var x, y := SeriesKeys(r, start, end, b, offset), SeriesKeys(s, start, end, b, offset);
            && (forall k | k != Align(end, b, offset) :: k in x <==> k in y)
            && (x == y <==> (RowsAtTheEnd(r, start, end, b, offset) <==> RowsAtTheEnd(s, start, end, b, offset)))
            && (x <= y || y <= x) && -1 <= |x| - |y| <= 1
  {
    hide Align, Steps, Starts, Count, RowsAtTheEnd;
    EndBucketExactlyWhen(r, start, end, b, offset);
    EndBucketExactlyWhen(s, start, end, b, offset);
    EndIsNotFilled(start, end, b, offset, Steps(start, end, b, offset));
  }
}
