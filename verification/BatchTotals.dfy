/** A batch of cash movements, totalled per account and currency (`total`). */
module BatchTotals {
  import opened Outcomes
  import opened Money
  import opened KeyOrder
  import opened Sums

  datatype Movement = Movement(account: int, amount: Money, date: Option<int>)

  function KeyOf(m: Movement): Key {
    Key(m.account, m.amount.currency)
  }

  datatype BatchTotal = BatchTotal(key: Key, rows: nat, debit: PostedMinor, credit: PostedMinor, net: PostedMinor)

  // ---- Exact sums ------------------------------------------------------------

  /** What a movement adds to what arrived on a key. */
  function Arrived(key: Key): Movement -> int {
    (m: Movement) => if KeyOf(m) == key && m.amount.amount >= 0 then m.amount.amount as int else 0
  }

  /** What a movement adds to what left a key, as a positive number. */
  function Departed(key: Key): Movement -> int {
    (m: Movement) => if KeyOf(m) == key && m.amount.amount < 0 then 0 - m.amount.amount as int else 0
  }

  function Counted(key: Key): Movement -> int {
    (m: Movement) => if KeyOf(m) == key then 1 else 0
  }

  ghost function Debit(ms: seq<Movement>, key: Key): (sum: int)
    ensures sum >= 0
  {
    SumOfPrefix(ms, |ms|, Arrived(key));
    assert ms[..|ms|] == ms;
    SumOf(ms, Arrived(key))
  }

  ghost function Credit(ms: seq<Movement>, key: Key): (sum: int)
    ensures sum >= 0
  {
    SumOfPrefix(ms, |ms|, Departed(key));
    assert ms[..|ms|] == ms;
    SumOf(ms, Departed(key))
  }

  ghost function Rows(ms: seq<Movement>, key: Key): (count: nat) {
    SumOfPrefix(ms, |ms|, Counted(key));
    assert ms[..|ms|] == ms;
    SumOf(ms, Counted(key))
  }

  function KeysOf(ms: seq<Movement>): set<Key> {
    if ms == [] then {} else KeysOf(ms[..|ms| - 1]) + {KeyOf(ms[|ms| - 1])}
  }

  /** The exact sums of one key are amounts that can be posted. */
  ghost predicate FitsAt(ms: seq<Movement>, key: Key) {
    Debit(ms, key) <= I64_MAX && Credit(ms, key) <= I64_MAX
  }

  ghost predicate AllFit(ms: seq<Movement>) {
    forall key :: FitsAt(ms, key)
  }

  ghost function TotalAt(ms: seq<Movement>, key: Key): BatchTotal
    requires FitsAt(ms, key)
  {
    BatchTotal(key, Rows(ms, key), Debit(ms, key), Credit(ms, key), Debit(ms, key) - Credit(ms, key))
  }

  ghost function TotalsAt(ms: seq<Movement>, keys: seq<Key>): (totals: seq<BatchTotal>)
    requires AllFit(ms)
    ensures |totals| == |keys|
    ensures forall i | 0 <= i < |keys| :: FitsAt(ms, keys[i]) && totals[i] == TotalAt(ms, keys[i])
  {
    if keys == [] then []
    else
      assert FitsAt(ms, keys[0]);
      [TotalAt(ms, keys[0])] + TotalsAt(ms, keys[1..])
  }

  /** What a batch totals to: the exact sums of every key it names, in key order,
      provided every one of them can be posted; otherwise an overflow. */
  ghost function TotalsOf(ms: seq<Movement>): Result<seq<BatchTotal>, MoneyError> {
    if AllFit(ms) then Ok(TotalsAt(ms, InOrder(KeysOf(ms)))) else Err(Overflow)
  }

  // ---- The fold -------------------------------------------------------------------

  datatype Bucket = Bucket(rows: nat, debit: Money, credit: Money)

  /** The bucket of one key holds that key's exact sums so far. */
  ghost predicate Holds(bucket: Bucket, ms: seq<Movement>, key: Key) {
    && bucket.rows == Rows(ms, key)
    && bucket.debit.currency == key.currency && bucket.debit.amount as int == Debit(ms, key)
    && bucket.credit.currency == key.currency && bucket.credit.amount as int == Credit(ms, key)
  }

  ghost predicate Folded(folded: map<Key, Bucket>, ms: seq<Movement>) {
    && folded.Keys == KeysOf(ms)
    && forall key | key in folded :: Holds(folded[key], ms, key)
  }

  lemma {:induction false} SumsSnoc(ms: seq<Movement>, m: Movement, key: Key)
    ensures Rows(ms + [m], key) == Rows(ms, key) + Counted(key)(m)
    ensures Debit(ms + [m], key) == Debit(ms, key) + Arrived(key)(m)
    ensures Credit(ms + [m], key) == Credit(ms, key) + Departed(key)(m)
  {
    SumSnoc(ms, m, Counted(key));
    SumSnoc(ms, m, Arrived(key));
    SumSnoc(ms, m, Departed(key));
  }

  lemma {:induction false} NothingOfAnotherKey(ms: seq<Movement>, key: Key)
    requires key !in KeysOf(ms)
    ensures Rows(ms, key) == 0 && Debit(ms, key) == 0 && Credit(ms, key) == 0
  {
    if ms != [] {
      NothingOfAnotherKey(ms[..|ms| - 1], key);
      assert ms == ms[..|ms| - 1] + [ms[|ms| - 1]];
      SumsSnoc(ms[..|ms| - 1], ms[|ms| - 1], key);
    }
  }

  lemma {:induction false} KeysSnoc(ms: seq<Movement>, m: Movement)
    ensures KeysOf(ms + [m]) == KeysOf(ms) + {KeyOf(m)}
  {
    assert (ms + [m])[..|ms|] == ms;
  }

  /** A prefix that does not fit is a batch that does not. */
  lemma {:induction false} PrefixOverflows(ms: seq<Movement>, n: nat, key: Key)
    requires n <= |ms| && !FitsAt(ms[..n], key)
    ensures !AllFit(ms)
  {
    SumOfPrefix(ms, n, Arrived(key));
    SumOfPrefix(ms, n, Departed(key));
    assert !FitsAt(ms, key);
  }

  /** A bucket with one more movement of its key: arrived or left, by its sign. */
  method AddTo(bucket: Bucket, m: Movement, ghost done: seq<Movement>) returns (r: Result<Bucket, MoneyError>)
    requires Holds(bucket, done, KeyOf(m))
    ensures r.Ok? ==> Holds(r.value, done + [m], KeyOf(m))
    ensures r.Err? ==> r.error == Overflow && !FitsAt(done + [m], KeyOf(m))
  {
    SumsSnoc(done, m, KeyOf(m));
    if m.amount.amount >= 0 {
      var sum := bucket.debit.TryAdd(m.amount);
      if sum.Err? {
        return Err(sum.error);
      }
      r := Ok(bucket.(rows := bucket.rows + 1, debit := sum.value));
    } else {
      var difference := bucket.credit.TrySub(m.amount);
      if difference.Err? {
        return Err(difference.error);
      }
      r := Ok(bucket.(rows := bucket.rows + 1, credit := difference.value));
    }
  }

  /** A bucket replaced leaves the others as they were. */
  lemma {:induction false} FoldedWith(folded: map<Key, Bucket>, bucket: Bucket, m: Movement, done: seq<Movement>)
    requires Folded(folded, done) && Holds(bucket, done + [m], KeyOf(m))
    ensures Folded(folded[KeyOf(m) := bucket], done + [m])
  {
    KeysSnoc(done, m);
    forall key | key in folded && key != KeyOf(m)
      ensures Holds(folded[key], done + [m], key)
    {
      SumsSnoc(done, m, key);
    }
  }

  /** Fold one movement into its bucket. The only failure is an overflow. */
  method Fold(folded: map<Key, Bucket>, m: Movement, ghost done: seq<Movement>)
    returns (r: Result<map<Key, Bucket>, MoneyError>)
    requires Folded(folded, done)
    ensures r.Ok? ==> Folded(r.value, done + [m])
    ensures r.Err? ==> r.error == Overflow && !FitsAt(done + [m], KeyOf(m))
  {
    var key := KeyOf(m);
    if key !in folded {
      NothingOfAnotherKey(done, key);
    }
    var bucket := if key in folded then folded[key] else Bucket(0, Zero(key.currency), Zero(key.currency));
    var added := AddTo(bucket, m, done);
    if added.Err? {
      return Err(added.error);
    }
    FoldedWith(folded, added.value, m, done);
    r := Ok(folded[key := added.value]);
  }

  lemma {:induction false} FoldedFits(folded: map<Key, Bucket>, ms: seq<Movement>)
    requires Folded(folded, ms)
    ensures AllFit(ms)
  {
    forall key
      ensures FitsAt(ms, key)
    {
      if key in folded {
        assert Holds(folded[key], ms, key);
      } else {
        NothingOfAnotherKey(ms, key);
      }
    }
  }

  method Total(movements: seq<Movement>) returns (r: Result<seq<BatchTotal>, MoneyError>)
    ensures r == TotalsOf(movements)
  {
    var folded: map<Key, Bucket> := map[];
    for i := 0 to |movements|
      invariant Folded(folded, movements[..i])
    {
      assert movements[..i + 1] == movements[..i] + [movements[i]];
      var step := Fold(folded, movements[i], movements[..i]);
      if step.Err? {
        PrefixOverflows(movements, i + 1, KeyOf(movements[i]));
        return Err(step.error);
      }
      folded := step.value;
    }
    assert movements[..|movements|] == movements;
    FoldedFits(folded, movements);
    var totals := Collect(folded, movements);
    r := Ok(totals);
  }

  /** One bucket's total. The net cannot overflow: both of its terms are
      non-negative amounts. */
  method TotalOfBucket(bucket: Bucket, key: Key, ghost ms: seq<Movement>) returns (total: BatchTotal)
    requires Holds(bucket, ms, key) && FitsAt(ms, key)
    ensures total == TotalAt(ms, key)
  {
    match bucket.debit.TrySub(bucket.credit)
    case Ok(net) =>
      total := BatchTotal(key, bucket.rows, bucket.debit.amount, bucket.credit.amount, net.amount);
    case Err(_) =>
      assert false;
  }

  /** The least key still to come is the next of the order. */
  method TakeLeast(left: set<Key>, ghost ordered: seq<Key>, ghost i: nat) returns (key: Key)
    requires left != {} && i <= |ordered| && InOrder(left) == ordered[i..]
    ensures key in left && i < |ordered| && key == ordered[i] && InOrder(left - {key}) == ordered[i + 1..]
  {
    assert exists k :: IsLeast(k, left) by {
      var k := LeastExists(left);
    }
    key :| IsLeast(key, left);
    InOrderStep(left, key);
    assert ordered[i + 1..] == InOrder(left)[1..];
  }

  lemma {:induction false} TotalsAtIndex(ms: seq<Movement>, keys: seq<Key>, i: nat)
    requires AllFit(ms) && i < |keys|
    ensures FitsAt(ms, keys[i]) && TotalsAt(ms, keys)[..i] + [TotalAt(ms, keys[i])] == TotalsAt(ms, keys)[..i + 1]
  {
  }

  /** The total of one key that has a bucket. */
  method TotalOfKey(folded: map<Key, Bucket>, key: Key, ghost ms: seq<Movement>, ghost keys: seq<Key>, ghost i: nat)
    returns (total: BatchTotal)
    requires Folded(folded, ms) && AllFit(ms) && key in folded
    requires i < |keys| && keys[i] == key
    ensures TotalsAt(ms, keys)[..i] + [total] == TotalsAt(ms, keys)[..i + 1]
  {
    TotalsAtIndex(ms, keys, i);
    total := TotalOfBucket(folded[key], key, ms);
  }

  /** The totals of the first `i` keys are collected, and the others are left. */
  ghost predicate Collected(totals: seq<BatchTotal>, left: set<Key>, ms: seq<Movement>, ordered: seq<Key>, i: nat)
    requires AllFit(ms)
  {
    i <= |ordered| && InOrder(left) == ordered[i..] && totals == TotalsAt(ms, ordered)[..i]
  }

  lemma {:induction false} AllCollected(totals: seq<BatchTotal>, ms: seq<Movement>, ordered: seq<Key>, i: nat)
    requires AllFit(ms) && Collected(totals, {}, ms, ordered, i)
    ensures totals == TotalsAt(ms, ordered)
  {
    assert InOrder({}) == [];
  }

  /** The totals of the buckets, in key order. */
  method Collect(folded: map<Key, Bucket>, ghost ms: seq<Movement>) returns (totals: seq<BatchTotal>)
    requires Folded(folded, ms) && AllFit(ms)
    ensures totals == TotalsAt(ms, InOrder(KeysOf(ms)))
  {
    totals := [];
    var left := folded.Keys;
    ghost var ordered := InOrder(left);
    ghost var i := 0;
    while left != {}
      invariant left <= folded.Keys && Collected(totals, left, ms, ordered, i)
      decreases left
    {
      var key := TakeLeast(left, ordered, i);
      var total := TotalOfKey(folded, key, ms, ordered, i);
      totals := totals + [total];
      left := left - {key};
      i := i + 1;
    }
    AllCollected(totals, ms, ordered, i);
  }
}
