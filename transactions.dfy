/**
 * The test suite's derived state: a `Transaction` deposits or withdraws an
 * `int` amount from a `long` balance, and `ComputeTotal` replays a range of
 * the journal into an action block that executes each transaction on a
 * running total that starts at zero.
 */
module Transactions {
  import opened Common
  import opened JournalFiles
  import opened Payloads
  import opened RecordCodec
  import opened FileIndex
  import opened FileSelection
  import opened Storage
  import opened Journals

  const MinInt: int := -0x8000_0000
  const MaxInt: int := 0x7FFF_FFFF

  /** The range of C#'s `int`. */
  type Int32 = x: int | MinInt <= x <= MaxInt
  /** The range of C#'s `long`. */
  type Int64 = x: int | MinLong <= x <= MaxLong

  /** The values of the `Operation` enum; any other `int` is a valid enum value too. */
  const Deposit: Int32 := 0
  const Withdrawal: Int32 := 1

  datatype Transaction = Transaction(operation: Int32, value: Int32)

  /** 2^64: `long` arithmetic in an unchecked context is arithmetic modulo this. */
  const Modulus: int := 0x1_0000_0000_0000_0000

  /** The `long` that an unchecked `long` operation yields for the exact result `x`. */
  function Wrap64(x: int): (r: Int64)
    ensures MinLong <= x <= MaxLong ==> r == x
  {
    (x - MinLong) % Modulus + MinLong
  }

  /** What a transaction adds to the balance, as an exact integer. */
  function Delta(t: Transaction): int {
    if t.operation == Deposit then t.value
    else if t.operation == Withdrawal then -(t.value as int)
    else 0
  }

  /**
   * `Execute`: `current += Value` for a deposit, `current -= Value` for a
   * withdrawal, wrapping around on overflow; any other operation leaves the
   * balance as it is.
   */
  function Execute(t: Transaction, current: Int64): (r: Int64)
    ensures MinLong <= current + Delta(t) <= MaxLong ==> r == current + Delta(t)
    ensures t.operation != Deposit && t.operation != Withdrawal ==> r == current
  {
    if t.operation == Deposit then Wrap64(current + t.value)
    else if t.operation == Withdrawal then Wrap64(current - t.value)
    else current
  }

  /** The left fold of `Execute` over `txs`, from the balance `start`. */
  function Total(txs: seq<Transaction>, start: Int64): Int64 {
    if txs == [] then start
    else Execute(txs[|txs| - 1], Total(txs[..|txs| - 1], start))
  }

  /** The exact sum of what the transactions add. */
  function Sum(txs: seq<Transaction>): int {
    if txs == [] then 0 else Sum(txs[..|txs| - 1]) + Delta(txs[|txs| - 1])
  }

  // ---------------------------------------------------------------------------
  // Transactions as journal payloads
  // ---------------------------------------------------------------------------

  /** The payload type of `Transaction`, which the binder registers under the name "tx". */
  const TransactionType: nat := 1

  /** A transaction as the payload the journal stores: its operation and its value, in that order. */
  function Encode(t: Transaction): Payload {
    Payload(TransactionType, [t.operation, t.value])
  }

  /** Deserializing a payload as a `Transaction`. */
  function Decode(p: Payload): (r: Option<Transaction>)
    ensures r.Some? ==> Encode(r.value) == p
  {
    if p.typeId == TransactionType && |p.fields| == 2
       && MinInt <= p.fields[0] <= MaxInt && MinInt <= p.fields[1] <= MaxInt
    then Some(Transaction(p.fields[0], p.fields[1]))
    else None
  }

  /** Deserializing every payload; `None` when one of them is not a transaction. */
  function DecodeAll(ps: seq<Payload>): (r: Option<seq<Transaction>>)
    ensures r.Some? ==> |r.value| == |ps| && forall i :: 0 <= i < |ps| ==> Encode(r.value[i]) == ps[i]
  {
    if ps == [] then Some([])
    else
      var init := DecodeAll(ps[..|ps| - 1]);
      var t := Decode(ps[|ps| - 1]);
      if init.None? || t.None? then None else Some(init.value + [t.value])
  }

  /** The replay predicate over payloads that applies a predicate over transactions. */
  predicate KeepsPayload(keep: Transaction -> bool, p: Payload) {
    Decode(p).None? || keep(Decode(p).value)
  }

  function ReplayFilter(keep: Option<Transaction -> bool>): Option<Payload -> bool> {
    if keep.None? then None
    else
      var k := keep.value;
      Some(p => KeepsPayload(k, p))
  }

  /**
   * What `ComputeTotal` returns for the items a replay sent and its fault:
   * the fold over the items in order, or the exception that `Wait` rethrows.
   */
  function TotalOf(replay: (seq<Payload>, Option<Error>)): Result<Int64> {
    var txs := DecodeAll(replay.0);
    if txs.None? then Err(MalformedRecord)
    else if replay.1.Some? then Err(replay.1.value)
    else Ok(Total(txs.value, 0))
  }

  /**
   * `ComputeTotal`: replay the range into the action block, which runs
   * `total = transaction.Execute(total)` on each item, and wait for it.
   */
  method ComputeTotal(journal: Journal, first: Option<Ticks>, last: Option<Ticks>,
                      keep: Option<Transaction -> bool>)
    returns (r: Result<Int64>)
    requires journal.Valid()
    modifies journal.dir
    ensures r == TotalOf(ReplayOf(journal.dir.fs, Forced(old(journal.dir.index), journal.dir.listing),
                                  first, last, ReplayFilter(keep), Tagged(TransactionType)))
    ensures journal.dir.fs == old(journal.dir.fs)
    ensures journal.dir.index == Cached(Forced(old(journal.dir.index), journal.dir.listing))
    ensures journal.Valid()
  {
    var sent, fault := journal.Replay(first, last, ReplayFilter(keep), Tagged(TransactionType));
    r := ExecuteAll(sent, fault);
  }

  /** The action block over the items sent, then `Completion.Wait()`. */
  method ExecuteAll(sent: seq<Payload>, fault: Option<Error>) returns (r: Result<Int64>)
    ensures r == TotalOf((sent, fault))
  {
    var total: Int64 := 0;
    ghost var txs: seq<Transaction> := [];
    var i := 0;
    while i < |sent|
      invariant 0 <= i <= |sent|
      invariant DecodeAll(sent[..i]) == Some(txs)
      invariant total == Total(txs, 0)
    {
      assert sent[..i + 1][..i] == sent[..i];
      var t := Decode(sent[i]);
      if t.None? {
        DecodeAllFails(sent, i + 1);
        return Err(MalformedRecord);
      }
      total := Execute(t.value, total);
      assert (txs + [t.value])[..|txs|] == txs;
      txs := txs + [t.value];
      i := i + 1;
    }
    assert sent[..i] == sent;
    if fault.Some? {
      return Err(fault.value);
    }
    r := Ok(total);
  }

  /** An item that is not a transaction makes every longer prefix fail to deserialize. */
  lemma {:induction false} DecodeAllFails(ps: seq<Payload>, n: nat)
    requires 0 < n <= |ps| && Decode(ps[n - 1]).None?
    ensures DecodeAll(ps).None?
    decreases |ps|
  {
    if n < |ps| {
      DecodeAllFails(ps[..|ps| - 1], n);
    }
  }

  // ---------------------------------------------------------------------------
  // Lemmas
  // ---------------------------------------------------------------------------

  /** A transaction is read back as itself. */
  lemma DecodeEncode(t: Transaction)
    ensures Decode(Encode(t)) == Some(t)
  {
  }

  /** Wrapping a partial result does not change the wrapped end result. */
  lemma WrapAdd(x: int, y: int)
    ensures Wrap64(Wrap64(x) + y) == Wrap64(x + y)
  {
    var q := (x - MinLong) / Modulus;
    assert Wrap64(x) == x - q * Modulus;
    WrapPeriodic(x + y, q);
  }

  lemma WrapPeriodic(z: int, q: int)
    ensures Wrap64(z - q * Modulus) == Wrap64(z)
  {
    var d := z - MinLong;
    assert (d - q * Modulus) % Modulus == d % Modulus by {
      var a := d / Modulus;
      assert d == a * Modulus + d % Modulus;
      assert d - q * Modulus == (a - q) * Modulus + d % Modulus;
    }
  }

  /**
   * The running total of a replay is the exact sum of the deposits less the
   * withdrawals, wrapped to a `long`: unchecked `long` addition is
   * arithmetic modulo 2^64.
   */
  lemma {:induction false} TotalIsWrappedSum(txs: seq<Transaction>, start: Int64)
    ensures Total(txs, start) == Wrap64(start + Sum(txs))
  {
    if txs != [] {
      var init, t := txs[..|txs| - 1], txs[|txs| - 1];
      TotalIsWrappedSum(init, start);
      ExecuteWraps(t, Total(init, start));
      WrapAdd(start + Sum(init), Delta(t));
    }
  }

  /** Every operation adds its `Delta`, wrapped; an unknown operation adds nothing to a `long` that needs no wrapping. */
  lemma ExecuteWraps(t: Transaction, current: Int64)
    ensures Execute(t, current) == Wrap64(current + Delta(t))
  {
  }

  lemma {:induction false} SumConcat(a: seq<Transaction>, b: seq<Transaction>)
    ensures Sum(a + b) == Sum(a) + Sum(b)
    decreases |b|
  {
    if b == [] {
      assert a + b == a;
    } else {
      var b' := b[..|b| - 1];
      SumConcat(a, b');
      assert (a + b)[..|a + b| - 1] == a + b';
      assert (a + b)[|a + b| - 1] == b[|b| - 1];
    }
  }

  /** The sum, and so the total, does not depend on the order of the transactions. */
  lemma {:induction false} SumPermutation(a: seq<Transaction>, b: seq<Transaction>)
    requires multiset(a) == multiset(b)
    ensures Sum(a) == Sum(b)
    decreases |a|
  {
    if a == [] {
      assert |b| == |multiset(b)| == 0;
    } else {
      var a', t := a[..|a| - 1], a[|a| - 1];
      assert a == a' + [t];
      assert multiset(a') == multiset(a) - multiset{t};
      assert t in multiset(b);
      var i :| 0 <= i < |b| && b[i] == t;
      MultisetRemove(b, i);
      SumPermutation(a', b[..i] + b[i + 1..]);
      SumRemove(b, i);
    }
  }

  lemma MultisetRemove(b: seq<Transaction>, i: nat)
    requires i < |b|
    ensures multiset(b[..i] + b[i + 1..]) == multiset(b) - multiset{b[i]}
  {
    assert b == b[..i] + [b[i]] + b[i + 1..];
  }

  lemma SumRemove(b: seq<Transaction>, i: nat)
    requires i < |b|
    ensures Sum(b) == Sum(b[..i] + b[i + 1..]) + Delta(b[i])
  {
    var before, after := b[..i], b[i + 1..];
    assert b == (before + [b[i]]) + after;
    SumConcat(before + [b[i]], after);
    SumSnoc(before, b[i]);
    SumConcat(before, after);
  }

  /** Replaying the same transactions in any order yields the same total. */
  lemma TotalPermutation(a: seq<Transaction>, b: seq<Transaction>, start: Int64)
    requires multiset(a) == multiset(b)
    ensures Total(a, start) == Total(b, start)
  {
    TotalIsWrappedSum(a, start);
    TotalIsWrappedSum(b, start);
    SumPermutation(a, b);
  }

  /** `k` deposits of `v`. */
  function Copies(t: Transaction, k: nat): seq<Transaction> {
    if k == 0 then [] else Copies(t, k - 1) + [t]
  }

  /** The performance test's transactions: the values 1..n, each deposited `k` times. */
  function Deposits(n: nat, k: nat): seq<Transaction>
    requires n <= MaxInt
  {
    if n == 0 then [] else Deposits(n - 1, k) + Copies(Transaction(Deposit, n), k)
  }

  lemma {:induction false} SumCopies(t: Transaction, k: nat)
    ensures Sum(Copies(t, k)) == Delta(t) * k
  {
    if k > 0 {
      SumCopies(t, k - 1);
      SumSnoc(Copies(t, k - 1), t);
      MultiplyStep(Delta(t), k);
    }
  }

  lemma SumSnoc(txs: seq<Transaction>, t: Transaction)
    ensures Sum(txs + [t]) == Sum(txs) + Delta(t)
  {
    DropSnoc(txs, t);
  }

  lemma MultiplyStep(d: int, k: int)
    ensures d * k == d * (k - 1) + d
  {
  }

  /** 1 + 2 + ... + n */
  function Triangle(n: nat): nat {
    if n == 0 then 0 else Triangle(n - 1) + n
  }

  lemma {:induction false} TriangleClosedForm(n: nat)
    ensures 2 * Triangle(n) == n * (n + 1)
  {
    if n > 0 {
      TriangleClosedForm(n - 1);
      assert n * (n + 1) == (n - 1) * n + 2 * n;
    }
  }

  lemma {:induction false} SumDeposits(n: nat, k: nat)
    requires n <= MaxInt
    ensures Sum(Deposits(n, k)) == Triangle(n) * k
  {
    if n > 0 {
      SumDeposits(n - 1, k);
      var t := Transaction(Deposit, n);
      SumConcat(Deposits(n - 1, k), Copies(t, k));
      SumCopies(t, k);
      assert Delta(t) == n;
      Distribute(Triangle(n - 1), n, k);
      assert Sum(Deposits(n, k)) == Triangle(n - 1) * k + n * k;
    }
  }

  lemma NonNegativeProduct(a: nat, b: nat)
    ensures 0 <= a * b
  {
  }

  lemma Distribute(a: int, b: int, k: int)
    ensures (a + b) * k == a * k + b * k
    ensures k * (a + b) == k * a + k * b
  {
  }

  /**
   * The performance test: the values 1..n, each deposited `k` times and
   * replayed in any order, total n(n+1)/2·k when that fits in a `long`.
   */
  lemma PerformanceTotal(txs: seq<Transaction>, n: nat, k: nat)
    requires n <= MaxInt && multiset(txs) == multiset(Deposits(n, k))
    requires n * (n + 1) / 2 * k <= MaxLong
    ensures Total(txs, 0) == n * (n + 1) / 2 * k
  {
    TriangleHalf(n);
    SumDeposits(n, k);
    SumPermutation(txs, Deposits(n, k));
    NonNegativeProduct(Triangle(n), k);
    TotalInRange(txs, 0);
  }

  lemma TriangleHalf(n: nat)
    ensures n * (n + 1) / 2 == Triangle(n)
  {
    TriangleClosedForm(n);
  }

  /** A running total that never needs wrapping is the exact sum. */
  lemma TotalInRange(txs: seq<Transaction>, start: Int64)
    requires MinLong <= start + Sum(txs) <= MaxLong
    ensures Total(txs, start) == start + Sum(txs)
  {
    TotalIsWrappedSum(txs, start);
  }

  // ---------------------------------------------------------------------------
  // The smoke tests' replays
  // ---------------------------------------------------------------------------

  function Payment(operation: Int32, value: Int32, ts: Ticks): Record {
    Record(ts, [Encode(Transaction(operation, value))])
  }

  predicate IsDeposit(t: Transaction) {
    t.operation == Deposit
  }

  predicate IsWithdrawal(t: Transaction) {
    t.operation == Withdrawal
  }

  /**
   * The filter test: deposits of 1 and 2, a withdrawal of 1 and a deposit of
   * 3, however the journal spreads them over files, total 5; the deposits
   * alone total 6 and the withdrawal alone -1.
   */
  lemma FilterTotals(fs: FileSystem, files: seq<JournalFile>, contents: seq<seq<Record>>, nl: string,
                     t1: Ticks, t2: Ticks, t3: Ticks, t4: Ticks)
    requires WellFormed(fs, files, contents, nl) && IsNewLine(nl)
    requires Flatten(contents) == [Payment(Deposit, 1, t1), Payment(Deposit, 2, t2), Payment(Withdrawal, 1, t3), Payment(Deposit, 3, t4)]
    ensures TotalOf(ReplayOf(fs, Ok(files), None, None, ReplayFilter(None), Tagged(TransactionType))) == Ok(5)
    ensures TotalOf(ReplayOf(fs, Ok(files), None, None, ReplayFilter(Some(IsDeposit)), Tagged(TransactionType))) == Ok(6)
    ensures TotalOf(ReplayOf(fs, Ok(files), None, None, ReplayFilter(Some(IsWithdrawal)), Tagged(TransactionType))) == Ok(-1)
  {
    var txs := StoredPayments(Flatten(contents), t1, t2, t3, t4);
    FullReplay(fs, files, contents, nl, None);
    FullReplay(fs, files, contents, nl, Some(IsDeposit));
    FullReplay(fs, files, contents, nl, Some(IsWithdrawal));
    FilterNone(EncodeAll(txs));
    FilterTotalsOf(txs);
  }

  /** A replay of a whole well-formed journal sends the stored payloads that pass the predicate and completes. */
  lemma FullReplay(fs: FileSystem, files: seq<JournalFile>, contents: seq<seq<Record>>, nl: string,
                   keep: Option<Transaction -> bool>)
    requires WellFormed(fs, files, contents, nl) && IsNewLine(nl)
    ensures ReplayOf(fs, Ok(files), None, None, ReplayFilter(keep), Tagged(TransactionType))
         == (Filter(ReplayFilter(keep), Collect(RecordsInRange(Flatten(contents), MinTicks, MaxTicks), Tagged(TransactionType))), None)
  {
    ReplayWithoutFirst(fs, files, contents, nl, None, ReplayFilter(keep), Tagged(TransactionType));
  }

  /** The payloads the filter test's four records hold, in order. */
  lemma StoredPayments(rs: seq<Record>, t1: Ticks, t2: Ticks, t3: Ticks, t4: Ticks) returns (txs: seq<Transaction>)
    requires rs == [Payment(Deposit, 1, t1), Payment(Deposit, 2, t2), Payment(Withdrawal, 1, t3), Payment(Deposit, 3, t4)]
    ensures txs == [Transaction(Deposit, 1), Transaction(Deposit, 2), Transaction(Withdrawal, 1), Transaction(Deposit, 3)]
    ensures Collect(RecordsInRange(rs, MinTicks, MaxTicks), Tagged(TransactionType)) == EncodeAll(txs)
  {
    txs := [Transaction(Deposit, 1), Transaction(Deposit, 2), Transaction(Withdrawal, 1), Transaction(Deposit, 3)];
    CollectPayments(rs, txs);
    AllInRange(rs);
  }

  lemma FilterTotalsOf(txs: seq<Transaction>)
    requires txs == [Transaction(Deposit, 1), Transaction(Deposit, 2), Transaction(Withdrawal, 1), Transaction(Deposit, 3)]
    ensures TotalOf((EncodeAll(txs), None)) == Ok(5)
    ensures TotalOf((Filter(ReplayFilter(Some(IsDeposit)), EncodeAll(txs)), None)) == Ok(6)
    ensures TotalOf((Filter(ReplayFilter(Some(IsWithdrawal)), EncodeAll(txs)), None)) == Ok(-1)
  {
    var d1, d2, w1, d3 := Transaction(Deposit, 1), Transaction(Deposit, 2), Transaction(Withdrawal, 1), Transaction(Deposit, 3);
    TotalOfEncoded(txs);
    AllFour(d1, d2, w1, d3);
    var deposits := FilterFour(IsDeposit, d1, d2, w1, d3);
    assert deposits == [d1, d2, d3];
    TotalOfEncoded(deposits);
    DepositsOnly(d1, d2, d3);
    var withdrawals := FilterFour(IsWithdrawal, d1, d2, w1, d3);
    assert withdrawals == [w1];
    TotalOfEncoded(withdrawals);
    assert Total([w1], 0) == -1 by {
      assert [w1][..0] == [];
    }
  }

  lemma AllFour(d1: Transaction, d2: Transaction, w1: Transaction, d3: Transaction)
    requires d1 == Transaction(Deposit, 1) && d2 == Transaction(Deposit, 2)
    requires w1 == Transaction(Withdrawal, 1) && d3 == Transaction(Deposit, 3)
    ensures Total([d1, d2, w1, d3], 0) == 5
  {
    assert [d1][..0] == [];
    assert Total([d1], 0) == 1;
    assert [d1, d2][..1] == [d1];
    assert Total([d1, d2], 0) == 3;
    assert [d1, d2, w1][..2] == [d1, d2];
    assert Total([d1, d2, w1], 0) == 2;
    assert [d1, d2, w1, d3][..3] == [d1, d2, w1];
  }

  lemma DepositsOnly(d1: Transaction, d2: Transaction, d3: Transaction)
    requires d1 == Transaction(Deposit, 1) && d2 == Transaction(Deposit, 2) && d3 == Transaction(Deposit, 3)
    ensures Total([d1, d2, d3], 0) == 6
  {
    assert [d1][..0] == [];
    assert Total([d1], 0) == 1;
    assert [d1, d2][..1] == [d1];
    assert Total([d1, d2], 0) == 3;
    assert [d1, d2, d3][..2] == [d1, d2];
  }

  /** The filter test's transactions that a predicate keeps. */
  lemma FilterFour(keep: Transaction -> bool, d1: Transaction, d2: Transaction, w1: Transaction, d3: Transaction)
    returns (kept: seq<Transaction>)
    ensures kept == (if keep(d1) then [d1] else []) + (if keep(d2) then [d2] else [])
                  + (if keep(w1) then [w1] else []) + (if keep(d3) then [d3] else [])
    ensures Filter(ReplayFilter(Some(keep)), EncodeAll([d1, d2, w1, d3])) == EncodeAll(kept)
  {
    FilterEncoded(keep, [d1, d2, w1, d3]);
    FilterTxCons(keep, d3, []);
    FilterTxCons(keep, w1, [d3]);
    FilterTxCons(keep, d2, [w1, d3]);
    FilterTxCons(keep, d1, [d2, w1, d3]);
    assert [d1] + [d2, w1, d3] == [d1, d2, w1, d3];
    kept := FilterTx(keep, [d1, d2, w1, d3]);
  }

  lemma FilterTxCons(keep: Transaction -> bool, t: Transaction, rest: seq<Transaction>)
    ensures FilterTx(keep, [t] + rest) == (if keep(t) then [t] else []) + FilterTx(keep, rest)
  {
    assert ([t] + rest)[1..] == rest;
  }

  /** The transactions a predicate over transactions keeps, in order. */
  function FilterTx(keep: Transaction -> bool, txs: seq<Transaction>): seq<Transaction> {
    if txs == [] then []
    else (if keep(txs[0]) then [txs[0]] else []) + FilterTx(keep, txs[1..])
  }

  /** Over stored transactions, the replay predicate keeps exactly what the predicate over transactions keeps. */
  lemma {:induction false} FilterEncoded(keep: Transaction -> bool, txs: seq<Transaction>)
    ensures Filter(ReplayFilter(Some(keep)), EncodeAll(txs)) == EncodeAll(FilterTx(keep, txs))
  {
    if txs != [] {
      FilterEncoded(keep, txs[1..]);
      assert EncodeAll(txs)[1..] == EncodeAll(txs[1..]);
      DecodeEncode(txs[0]);
      assert Passes(ReplayFilter(Some(keep)), EncodeAll(txs)[0]) == keep(txs[0]);
      var head := if keep(txs[0]) then [txs[0]] else [];
      assert EncodeAll(head + FilterTx(keep, txs[1..])) == EncodeAll(head) + EncodeAll(FilterTx(keep, txs[1..]));
    }
  }

  /** Transactions as the payloads the journal stores, in order. */
  function EncodeAll(txs: seq<Transaction>): (r: seq<Payload>)
    ensures |r| == |txs| && forall i :: 0 <= i < |txs| ==> r[i] == Encode(txs[i])
  {
    seq(|txs|, i requires 0 <= i < |txs| => Encode(txs[i]))
  }

  /** Stored transactions are read back as themselves, in order. */
  lemma {:induction false} DecodeAllEncoded(txs: seq<Transaction>)
    ensures DecodeAll(EncodeAll(txs)) == Some(txs)
  {
    if txs != [] {
      var init := txs[..|txs| - 1];
      DecodeAllEncoded(init);
      assert EncodeAll(txs)[..|txs| - 1] == EncodeAll(init);
      DecodeEncode(txs[|txs| - 1]);
      assert init + [txs[|txs| - 1]] == txs;
    }
  }

  /** A replay that sends stored transactions and completes totals their fold. */
  lemma TotalOfEncoded(txs: seq<Transaction>)
    ensures TotalOf((EncodeAll(txs), None)) == Ok(Total(txs, 0))
  {
    DecodeAllEncoded(txs);
  }

  lemma {:induction false} AllInRange(rs: seq<Record>)
    ensures RecordsInRange(rs, MinTicks, MaxTicks) == rs
  {
    if rs != [] {
      AllInRange(rs[1..]);
    }
  }

  /** The payloads of records that each hold one stored transaction: those transactions, in order. */
  lemma {:induction false} CollectPayments(rs: seq<Record>, txs: seq<Transaction>)
    requires |rs| == |txs| && forall i :: 0 <= i < |rs| ==> rs[i].payloads == [Encode(txs[i])]
    ensures Collect(rs, Tagged(TransactionType)) == EncodeAll(txs)
  {
    if rs != [] {
      CollectPayments(rs[1..], txs[1..]);
      OfTypeStored(txs[0]);
      EncodeAllCons(txs);
    }
  }

  /** A stored transaction is of the transaction payload type. */
  lemma OfTypeStored(t: Transaction)
    ensures OfType([Encode(t)], Tagged(TransactionType)) == [Encode(t)]
  {
    DropCons(Encode(t), []);
    ConcatEmpty([Encode(t)]);
  }

  lemma EncodeAllCons(txs: seq<Transaction>)
    requires txs != []
    ensures EncodeAll(txs) == [Encode(txs[0])] + EncodeAll(txs[1..])
  {
  }

  /** `AddMilliseconds(1)` in ticks. */
  const Millisecond: int := 10000

  /** `ComputeTotal` without a predicate on the index value `files`. */
  function RangeTotal(fs: FileSystem, files: seq<JournalFile>, first: Option<Ticks>, last: Option<Ticks>): Result<Int64> {
    TotalOf(ReplayOf(fs, Ok(files), first, last, ReplayFilter(None), Tagged(TransactionType)))
  }

  /**
   * The range test: one file holding deposits of 1, 2 and 3 at t1 < t2 < t3.
   * The full range totals 6, up to t2 3, from t2 5, [t2, t2] 2, from just
   * after t3 0, and up to just before t1 0.
   */
  lemma NoBatchTotals(fs: FileSystem, files: seq<JournalFile>, contents: seq<seq<Record>>, nl: string,
                      t1: Ticks, t2: Ticks, t3: Ticks)
    requires WellFormed(fs, files, contents, nl) && IsNewLine(nl) && |files| == 1
    requires Flatten(contents) == [Payment(Deposit, 1, t1), Payment(Deposit, 2, t2), Payment(Deposit, 3, t3)]
    requires t1 < t2 < t3 && MinTicks + Millisecond <= t1 && t3 + Millisecond <= MaxTicks
    ensures RangeTotal(fs, files, None, None) == Ok(6)
    ensures RangeTotal(fs, files, None, Some(t2)) == Ok(3)
    ensures RangeTotal(fs, files, Some(t2), None) == Ok(5)
    ensures RangeTotal(fs, files, Some(t2), Some(t2)) == Ok(2)
    ensures RangeTotal(fs, files, Some(t3 + Millisecond), None) == Ok(0)
    ensures RangeTotal(fs, files, None, Some(t1 - Millisecond)) == Ok(0)
  {
    SingleFileTotal(fs, files, contents, nl, None, None, t1, t2, t3);
    SingleFileTotal(fs, files, contents, nl, None, Some(t2), t1, t2, t3);
    SingleFileTotal(fs, files, contents, nl, Some(t2), None, t1, t2, t3);
    SingleFileTotal(fs, files, contents, nl, Some(t2), Some(t2), t1, t2, t3);
    SingleFileTotal(fs, files, contents, nl, Some(t3 + Millisecond), None, t1, t2, t3);
    SingleFileTotal(fs, files, contents, nl, None, Some(t1 - Millisecond), t1, t2, t3);
  }

  /** The total of a range of the range test's file: the deposits whose timestamps are in the range. */
  lemma SingleFileTotal(fs: FileSystem, files: seq<JournalFile>, contents: seq<seq<Record>>, nl: string,
                        first: Option<Ticks>, last: Option<Ticks>, t1: Ticks, t2: Ticks, t3: Ticks)
    requires WellFormed(fs, files, contents, nl) && IsNewLine(nl) && |files| == 1
    requires Flatten(contents) == [Payment(Deposit, 1, t1), Payment(Deposit, 2, t2), Payment(Deposit, 3, t3)]
    ensures var lo, hi := OrElse(first, MinTicks), OrElse(last, MaxTicks);
            RangeTotal(fs, files, first, last)
            == Ok((if lo <= t1 <= hi then 1 else 0) + (if lo <= t2 <= hi then 2 else 0) + (if lo <= t3 <= hi then 3 else 0))
  {
    var lo, hi := OrElse(first, MinTicks), OrElse(last, MaxTicks);
    ReplaySingleFile(fs, files, contents, nl, first, last, None, Tagged(TransactionType));
    FilterNone(Collect(RecordsInRange(Flatten(contents), lo, hi), Tagged(TransactionType)));
    ThreeDeposits(t1, t2, t3, lo, hi);
  }

  /** The payloads in [lo, hi] of three single-deposit records. */
  lemma ThreeDeposits(t1: Ticks, t2: Ticks, t3: Ticks, lo: int, hi: int)
    ensures TotalOf((Collect(RecordsInRange([Payment(Deposit, 1, t1), Payment(Deposit, 2, t2), Payment(Deposit, 3, t3)], lo, hi),
                             Tagged(TransactionType)), None))
         == Ok((if lo <= t1 <= hi then 1 else 0) + (if lo <= t2 <= hi then 2 else 0) + (if lo <= t3 <= hi then 3 else 0))
  {
    var b := ThreeDepositsInRange(t1, t2, t3, lo, hi);
    TotalOfSmall(b);
  }

  /** The deposits of the range test's file that lie in [lo, hi], in order, and what they add up to. */
  lemma ThreeDepositsInRange(t1: Ticks, t2: Ticks, t3: Ticks, lo: int, hi: int) returns (b: seq<Transaction>)
    ensures Collect(RecordsInRange([Payment(Deposit, 1, t1), Payment(Deposit, 2, t2), Payment(Deposit, 3, t3)], lo, hi),
                    Tagged(TransactionType)) == EncodeAll(b)
    ensures Sum(b) == (if lo <= t1 <= hi then 1 else 0) + (if lo <= t2 <= hi then 2 else 0) + (if lo <= t3 <= hi then 3 else 0)
  {
    b := ThreeInRange(Payment(Deposit, 1, t1), Payment(Deposit, 2, t2), Payment(Deposit, 3, t3),
                      Transaction(Deposit, 1), Transaction(Deposit, 2), Transaction(Deposit, 3), lo, hi);
  }

  /** Three records holding one stored transaction each: the transactions of those in [lo, hi], in order. */
  lemma ThreeInRange(r1: Record, r2: Record, r3: Record, x1: Transaction, x2: Transaction, x3: Transaction,
                     lo: int, hi: int) returns (b: seq<Transaction>)
    requires r1.payloads == [Encode(x1)] && r2.payloads == [Encode(x2)] && r3.payloads == [Encode(x3)]
    ensures Collect(RecordsInRange([r1, r2, r3], lo, hi), Tagged(TransactionType)) == EncodeAll(b)
    ensures Sum(b) == (if lo <= r1.timestamp <= hi then Delta(x1) else 0) + (if lo <= r2.timestamp <= hi then Delta(x2) else 0)
                    + (if lo <= r3.timestamp <= hi then Delta(x3) else 0)
  {
    var a1, a2, a3 := InRangeOne(r1, lo, hi), InRangeOne(r2, lo, hi), InRangeOne(r3, lo, hi);
    var b1 := CollectInRange(r1, x1, lo, hi);
    var b2 := CollectInRange(r2, x2, lo, hi);
    var b3 := CollectInRange(r3, x3, lo, hi);
    InRangeThree(r1, r2, r3, lo, hi);
    CollectConcat(a1, a2 + a3, Tagged(TransactionType));
    CollectConcat(a2, a3, Tagged(TransactionType));
    EncodeAllConcat(b2, b3);
    EncodeAllConcat(b1, b2 + b3);
    b := b1 + (b2 + b3);
    SumConcat(b1, b2 + b3);
    SumConcat(b2, b3);
  }

  /** A replay of stored transactions whose exact sum fits in a `long` totals that sum. */
  lemma TotalOfSmall(b: seq<Transaction>)
    requires MinLong <= Sum(b) <= MaxLong
    ensures TotalOf((EncodeAll(b), None)) == Ok(Sum(b))
  {
    TotalOfEncoded(b);
    TotalInRange(b, 0);
  }

  lemma EncodeAllConcat(a: seq<Transaction>, b: seq<Transaction>)
    ensures EncodeAll(a + b) == EncodeAll(a) + EncodeAll(b)
  {
  }

  lemma InRangeThree(r1: Record, r2: Record, r3: Record, lo: int, hi: int)
    ensures RecordsInRange([r1, r2, r3], lo, hi) == InRangeOne(r1, lo, hi) + (InRangeOne(r2, lo, hi) + InRangeOne(r3, lo, hi))
  {
    assert [r3][1..] == [];
    assert RecordsInRange([r3], lo, hi) == InRangeOne(r3, lo, hi) + [];
    assert [r2, r3][1..] == [r3];
    assert [r1, r2, r3][1..] == [r2, r3];
  }

  /** A record holding one stored transaction, kept or dropped by the range. */
  lemma CollectInRange(r: Record, t: Transaction, lo: int, hi: int) returns (b: seq<Transaction>)
    requires r.payloads == [Encode(t)]
    ensures b == if lo <= r.timestamp <= hi then [t] else []
    ensures Collect(InRangeOne(r, lo, hi), Tagged(TransactionType)) == EncodeAll(b)
    ensures Sum(b) == if lo <= r.timestamp <= hi then Delta(t) else 0
  {
    b := if lo <= r.timestamp <= hi then [t] else [];
    if lo <= r.timestamp <= hi {
      CollectOne(r, t);
      assert [t][..0] == [];
    }
  }

  function InRangeOne(r: Record, lo: int, hi: int): seq<Record> {
    if lo <= r.timestamp <= hi then [r] else []
  }

  lemma CollectOne(r: Record, t: Transaction)
    requires r.payloads == [Encode(t)]
    ensures Collect([r], Tagged(TransactionType)) == [Encode(t)]
  {
    assert [r][1..] == [];
    assert [Encode(t)][1..] == [];
  }
}
