/**
 The cache over whole runs, every operation completing before the next one starts. Two
 questions: can callers tell when, or whether, expired rows are cleaned up; and does the table
 with its stale rows behave like a plain map whose entries end at their expiry? Both are
 answered by exact conditions on the inserts.
 */
module TtlCacheRuns {
  import opened Wrappers
  import opened TtlCache

  datatype Op =
    | Insert(now: int, key: string, value: string, ttl: int)
    | Get(now: int, key: string)
    | Delete(now: int, key: string)
    | CleanUp(now: int)

  /** What the caller of an operation learns from it. */
  datatype Output = InsertOutput(result: InsertResult) | GetOutput(found: Option<string>) | NoOutput

  function TableAfter(table: Table, op: Op): Table {
    match op
    case Insert(now, key, value, ttl) => if key in table then table else table[key := Row(value, Expiry(now, ttl))]
    case Get(now, key) => if key in table && now < table[key].expiry then table else table - {key}
    case Delete(_, key) => table - {key}
    case CleanUp(now) => CleanedUp(table, now)
  }

  function OutputOf(table: Table, op: Op): Output {
    match op
    case Insert(_, key, _, _) => InsertOutput(if key in table then PrimaryKeyConflict else Inserted)
    case Get(now, key) => GetOutput(if key in table && now < table[key].expiry then Some(table[key].value) else None)
    case Delete(_, _) => NoOutput
    case CleanUp(_) => NoOutput
  }

  /** One operation carried out on the cache object: its table and its answers are those of the run. */
  method Perform(cache: SqlTtlCache, op: Op) returns (output: Output)
    modifies cache
    ensures cache.cacheEntries == TableAfter(old(cache.cacheEntries), op)
    ensures output == OutputOf(old(cache.cacheEntries), op)
  {
    match op {
      case Insert(now, key, value, ttl) =>
        var result := cache.Insert(key, value, ttl, now);
        output := InsertOutput(result);
      case Get(now, key) =>
        var found := cache.Get(key, now);
        assert key !in old(cache.cacheEntries) ==> cache.cacheEntries == old(cache.cacheEntries) - {key};
        output := GetOutput(found);
      case Delete(_, key) =>
        cache.Delete(key);
        output := NoOutput;
      case CleanUp(now) =>
        cache.CleanUpExpiredEntries(now);
        output := NoOutput;
    }
  }

  function RunOps(table: Table, ops: seq<Op>): Table {
    if ops == [] then table else TableAfter(RunOps(table, ops[..|ops| - 1]), ops[|ops| - 1])
  }

  /** The outputs of all operations but the cleanups, which nobody waits for. */
  function Outputs(table: Table, ops: seq<Op>): seq<Output> {
    if ops == [] then []
    else
      var n := |ops| - 1;
      Outputs(table, ops[..n]) + if ops[n].CleanUp? then [] else [OutputOf(RunOps(table, ops[..n]), ops[n])]
  }

  function WithoutCleanUps(ops: seq<Op>): seq<Op> {
    if ops == [] then []
    else WithoutCleanUps(ops[..|ops| - 1]) + if ops[|ops| - 1].CleanUp? then [] else [ops[|ops| - 1]]
  }

  predicate Timely(ops: seq<Op>) {
    forall i, j :: 0 <= i < j < |ops| ==> ops[i].now <= ops[j].now
  }

  lemma {:induction false} RunOpsConcat(table: Table, pre: seq<Op>, post: seq<Op>)
    ensures RunOps(table, pre + post) == RunOps(RunOps(table, pre), post)
    ensures Outputs(table, pre + post) == Outputs(table, pre) + Outputs(RunOps(table, pre), post)
  {
    if post == [] {
      assert pre + post == pre;
    } else {
      var n := |post| - 1;
      RunOpsConcat(table, pre, post[..n]);
      assert (pre + post)[..|pre + post| - 1] == pre + post[..n];
    }
  }

  lemma {:induction false} WithoutCleanUpsConcat(pre: seq<Op>, post: seq<Op>)
    ensures WithoutCleanUps(pre + post) == WithoutCleanUps(pre) + WithoutCleanUps(post)
  {
    if post == [] {
      assert pre + post == pre;
    } else {
      var n := |post| - 1;
      WithoutCleanUpsConcat(pre, post[..n]);
      assert (pre + post)[..|pre| + n] == pre + post[..n] && (pre + post)[|pre| + n] == post[n];
    }
  }

  lemma {:induction false} WithoutCleanUpsIdentity(ops: seq<Op>)
    requires forall i :: 0 <= i < |ops| ==> !ops[i].CleanUp?
    ensures WithoutCleanUps(ops) == ops
  {
    if ops != [] {
      WithoutCleanUpsIdentity(ops[..|ops| - 1]);
      assert ops == ops[..|ops| - 1] + [ops[|ops| - 1]];
    }
  }

  // ---------------------------------------------------------------- cleanups are invisible

  /** `lean` is `full` without some rows that a cleanup before `clock` could have taken. */
  ghost predicate Thinned(lean: Table, full: Table, clock: int) {
    (forall key :: key in lean ==> key in full && lean[key] == full[key]) &&
    (forall key :: key in full && key !in lean ==> full[key].expiry < clock)
  }

  /** The insert, if it is one, does not hit a row that a cleanup could already have taken. */
  predicate SparesStale(table: Table, op: Op) {
    op.Insert? && op.key in table ==> table[op.key].expiry >= op.now
  }

  lemma ThinnedStep(lean: Table, full: Table, clock: int, op: Op)
    requires Thinned(lean, full, clock) && clock <= op.now && SparesStale(full, op) && !op.CleanUp?
    ensures OutputOf(lean, op) == OutputOf(full, op)
    ensures Thinned(TableAfter(lean, op), TableAfter(full, op), op.now)
  {
  }

  lemma ThinnedCleanUp(lean: Table, full: Table, clock: int, now: int)
    requires Thinned(lean, full, clock) && clock <= now
    ensures Thinned(CleanedUp(lean, now), full, now)
  {
  }

  ghost predicate NoStaleInsert(table: Table, ops: seq<Op>) {
    forall i :: 0 <= i < |ops| ==> SparesStale(RunOps(table, ops[..i]), ops[i])
  }

  lemma NoStaleInsertPrefix(table: Table, ops: seq<Op>, n: nat)
    requires n <= |ops| && NoStaleInsert(table, ops)
    ensures NoStaleInsert(table, ops[..n])
  {
    forall i | 0 <= i < n ensures SparesStale(RunOps(table, ops[..n][..i]), ops[..n][i]) {
      assert ops[..n][..i] == ops[..i];
    }
  }

  lemma Snoc(table: Table, ops: seq<Op>, op: Op)
    ensures RunOps(table, ops + [op]) == TableAfter(RunOps(table, ops), op)
    ensures op.CleanUp? ==> Outputs(table, ops + [op]) == Outputs(table, ops)
                            && WithoutCleanUps(ops + [op]) == WithoutCleanUps(ops)
    ensures !op.CleanUp? ==> Outputs(table, ops + [op]) == Outputs(table, ops) + [OutputOf(RunOps(table, ops), op)]
                             && WithoutCleanUps(ops + [op]) == WithoutCleanUps(ops) + [op]
  {
    assert (ops + [op])[..|ops + [op]| - 1] == ops;
  }

  ghost predicate OnlyThinned(table: Table, ops: seq<Op>, clock: int) {
    Thinned(RunOps(table, ops), RunOps(table, WithoutCleanUps(ops)), clock)
    && Outputs(table, ops) == Outputs(table, WithoutCleanUps(ops))
  }

  lemma OnlyThinnedStep(table: Table, ops: seq<Op>, op: Op, clock: int)
    requires OnlyThinned(table, ops, clock) && clock <= op.now
    requires SparesStale(RunOps(table, WithoutCleanUps(ops)), op)
    ensures OnlyThinned(table, ops + [op], op.now)
  {
    var lean, full := RunOps(table, ops), RunOps(table, WithoutCleanUps(ops));
    Snoc(table, ops, op);
    if op.CleanUp? {
      ThinnedCleanUp(lean, full, clock, op.now);
    } else {
      ThinnedStep(lean, full, clock, op);
      Snoc(table, WithoutCleanUps(ops), op);
    }
  }

  /** What the last operation of a run may rely on. */
  lemma SparedAtTheEnd(table: Table, before: seq<Op>, op: Op)
    requires NoStaleInsert(table, WithoutCleanUps(before + [op]))
    ensures NoStaleInsert(table, WithoutCleanUps(before)) && SparesStale(RunOps(table, WithoutCleanUps(before)), op)
  {
    Snoc(table, before, op);
    var kept, all := WithoutCleanUps(before), WithoutCleanUps(before + [op]);
    assert all[..|kept|] == kept;
    NoStaleInsertPrefix(table, all, |kept|);
    if op.Insert? {
      assert all[|kept|] == op;
    }
  }

  /** Cleanups only thin the table out and change no output. */
  lemma {:induction false} CleanUpsOnlyThin(table: Table, ops: seq<Op>, clock: int)
    requires Timely(ops) && NoStaleInsert(table, WithoutCleanUps(ops))
    requires ops != [] ==> clock == ops[|ops| - 1].now
    ensures OnlyThinned(table, ops, clock)
  {
    if ops != [] {
      var n := |ops| - 1;
      var before, op := ops[..n], ops[n];
      assert ops == before + [op];
      SparedAtTheEnd(table, before, op);
      var earlier := if n == 0 then clock else ops[n - 1].now;
      CleanUpsOnlyThin(table, before, earlier);
      OnlyThinnedStep(table, before, op, earlier);
    }
  }

  /** However cleanups are sprinkled over `base`, every caller sees the same outputs. */
  ghost predicate CleanUpsInvisible(table: Table, base: seq<Op>) {
    forall ops: seq<Op> :: Timely(ops) && WithoutCleanUps(ops) == base ==> Outputs(table, ops) == Outputs(table, base)
  }

  lemma TimelyTwice(pre: seq<Op>, op: Op, rest: seq<Op>)
    requires Timely(pre + [op] + rest)
    ensures Timely(pre + [CleanUp(op.now)] + [op] + rest)
  {
    var base, ops := pre + [op] + rest, pre + [CleanUp(op.now)] + [op] + rest;
    assert base[|pre|] == op;
    forall i | 0 <= i < |ops| ensures ops[i].now == base[if i <= |pre| then i else i - 1].now {}
    forall i, j | 0 <= i < j < |ops| ensures ops[i].now <= ops[j].now {
      var k, l := if i <= |pre| then i else i - 1, if j <= |pre| then j else j - 1;
      assert ops[i].now == base[k].now && ops[j].now == base[l].now;
    }
  }

  lemma SprinkledStrips(pre: seq<Op>, op: Op, rest: seq<Op>)
    ensures WithoutCleanUps(pre + [CleanUp(op.now)] + [op] + rest) == WithoutCleanUps(pre + [op] + rest)
  {
    var cleanUp := CleanUp(op.now);
    WithoutCleanUpsConcat(pre + [op], rest);
    WithoutCleanUpsConcat(pre + [cleanUp] + [op], rest);
    Snoc(map[], pre, cleanUp);
    Snoc(map[], pre, op);
    Snoc(map[], pre + [cleanUp], op);
  }

  lemma FirstOutput(table: Table, pre: seq<Op>, op: Op, post: seq<Op>)
    requires !op.CleanUp?
    ensures var outputs := Outputs(table, pre + [op] + post);
            |Outputs(table, pre)| < |outputs| && outputs[|Outputs(table, pre)|] == OutputOf(RunOps(table, pre), op)
  {
    RunOpsConcat(table, pre + [op], post);
    assert (pre + [op])[..|pre|] == pre;
  }

  /** A cleanup just before an insert over a stale row turns a conflict into a success. */
  lemma SprinkledOutputsDiffer(table: Table, pre: seq<Op>, op: Op, rest: seq<Op>)
    requires !SparesStale(RunOps(table, pre), op)
    ensures Outputs(table, pre + [CleanUp(op.now)] + [op] + rest) != Outputs(table, pre + [op] + rest)
  {
    var cleanUp := CleanUp(op.now);
    Snoc(table, pre, cleanUp);
    FirstOutput(table, pre, op, rest);
    FirstOutput(table, pre + [cleanUp], op, rest);
    assert OutputOf(RunOps(table, pre), op) == InsertOutput(PrimaryKeyConflict);
    assert op.key !in CleanedUp(RunOps(table, pre), op.now);
  }

  lemma Betrays(table: Table, base: seq<Op>, ops: seq<Op>)
    requires Timely(ops) && WithoutCleanUps(ops) == base && Outputs(table, ops) != Outputs(table, base)
    ensures !CleanUpsInvisible(table, base)
  {
  }

  lemma StaleInsertIsVisible(table: Table, base: seq<Op>, pre: seq<Op>, op: Op, rest: seq<Op>)
    requires base == pre + [op] + rest && Timely(base) && WithoutCleanUps(base) == base
    requires !SparesStale(RunOps(table, pre), op)
    ensures !CleanUpsInvisible(table, base)
  {
    var sprinkled := pre + [CleanUp(op.now)] + [op] + rest;
    TimelyTwice(pre, op, rest);
    SprinkledStrips(pre, op, rest);
    SprinkledOutputsDiffer(table, pre, op, rest);
    Betrays(table, base, sprinkled);
  }

  lemma StaleInsertAt(table: Table, base: seq<Op>, i: nat)
    requires Timely(base) && forall j :: 0 <= j < |base| ==> !base[j].CleanUp?
    requires i < |base| && !SparesStale(RunOps(table, base[..i]), base[i])
    ensures !CleanUpsInvisible(table, base)
  {
    WithoutCleanUpsIdentity(base);
    var pre, rest := base[..i], base[i + 1..];
    assert base == pre + [base[i]] + rest;
    StaleInsertIsVisible(table, base, pre, base[i], rest);
  }

  lemma SparedMeansInvisible(table: Table, base: seq<Op>)
    requires NoStaleInsert(table, base)
    ensures CleanUpsInvisible(table, base)
  {
    forall ops: seq<Op> | Timely(ops) && WithoutCleanUps(ops) == base
      ensures Outputs(table, ops) == Outputs(table, base)
    {
      CleanUpsOnlyThin(table, ops, if ops == [] then 0 else ops[|ops| - 1].now);
    }
  }

  /**
   Cleanups cannot be noticed exactly when no insert, in the run without cleanups, hits a row
   whose expiry lies strictly before it.
   */
  lemma CleanUpsInvisibleIff(table: Table, base: seq<Op>)
    requires Timely(base) && forall j :: 0 <= j < |base| ==> !base[j].CleanUp?
    ensures CleanUpsInvisible(table, base) <==> NoStaleInsert(table, base)
  {
    if NoStaleInsert(table, base) {
      SparedMeansInvisible(table, base);
    } else {
      var i: nat :| i < |base| && !SparesStale(RunOps(table, base[..i]), base[i]);
      StaleInsertAt(table, base, i);
    }
  }

  ghost predicate InsertsEachKeyOnce(ops: seq<Op>) {
    forall i, j :: 0 <= i < j < |ops| && ops[i].Insert? && ops[j].Insert? ==> ops[i].key != ops[j].key
  }

  lemma {:induction false} RowsWereInserted(ops: seq<Op>, key: string)
    requires key in RunOps(map[], ops)
    ensures exists i :: 0 <= i < |ops| && ops[i].Insert? && ops[i].key == key
  {
    var n := |ops| - 1;
    if !(ops[n].Insert? && ops[n].key == key) {
      RowsWereInserted(ops[..n], key);
      var i :| 0 <= i < n && ops[..n][i].Insert? && ops[..n][i].key == key;
      assert ops[i].Insert? && ops[i].key == key;
    }
  }

  /** In particular with keys that are never used twice, such as fresh request identifiers. */
  lemma FreshKeysHideCleanUps(ops: seq<Op>, ops': seq<Op>)
    requires Timely(ops) && Timely(ops') && WithoutCleanUps(ops) == WithoutCleanUps(ops')
    requires InsertsEachKeyOnce(WithoutCleanUps(ops))
    ensures Outputs(map[], ops) == Outputs(map[], ops')
  {
    var base := WithoutCleanUps(ops);
    forall i | 0 <= i < |base| ensures SparesStale(RunOps(map[], base[..i]), base[i]) {
      if base[i].Insert? && base[i].key in RunOps(map[], base[..i]) {
        RowsWereInserted(base[..i], base[i].key);
        assert false;
      }
    }
    CleanUpsOnlyThin(map[], ops, if ops == [] then 0 else ops[|ops| - 1].now);
    CleanUpsOnlyThin(map[], ops', if ops' == [] then 0 else ops'[|ops'| - 1].now);
  }

  // ---------------------------------------------------------------- a plain map with expiries

  /** The reference: nothing is ever cleaned up, and an entry is there exactly while `now < expiry`. */
  predicate Live(table: Table, key: string, now: int) {
    key in table && now < table[key].expiry
  }

  function PlainAfter(table: Table, op: Op): Table {
    match op
    case Insert(now, key, value, ttl) => if Live(table, key, now) then table
        else table[key := Row(value, Expiry(now, ttl))]
    case Delete(_, key) => table - {key}
    case _ => table
  }

  function PlainOutput(table: Table, op: Op): Output {
    match op
    case Insert(now, key, _, _) => InsertOutput(if Live(table, key, now) then PrimaryKeyConflict else Inserted)
    case Get(now, key) => GetOutput(if Live(table, key, now) then Some(table[key].value) else None)
    case _ => NoOutput
  }

  function RunPlain(ops: seq<Op>): Table {
    if ops == [] then map[] else PlainAfter(RunPlain(ops[..|ops| - 1]), ops[|ops| - 1])
  }

  function PlainOutputs(ops: seq<Op>): seq<Output> {
    if ops == [] then []
    else
      var n := |ops| - 1;
      PlainOutputs(ops[..n]) + if ops[n].CleanUp? then [] else [PlainOutput(RunPlain(ops[..n]), ops[n])]
  }

  /** The table agrees with the plain map on everything that is still live at `clock`. */
  ghost predicate AgreesOnLive(table: Table, plain: Table, clock: int) {
    (forall key :: key in table ==> key in plain && table[key] == plain[key]) &&
    (forall key :: key in plain && key !in table ==> plain[key].expiry <= clock)
  }

  /** The insert, if it is one, does not hit a dead row still in the table. */
  predicate SparesDead(table: Table, op: Op) {
    op.Insert? && op.key in table ==> op.now < table[op.key].expiry
  }

  ghost predicate NoDeadInsert(ops: seq<Op>) {
    forall i :: 0 <= i < |ops| ==> SparesDead(RunOps(map[], ops[..i]), ops[i])
  }

  lemma AgreeStep(table: Table, plain: Table, clock: int, op: Op)
    requires AgreesOnLive(table, plain, clock) && clock <= op.now
    ensures OutputOf(table, op) == PlainOutput(plain, op) <==> SparesDead(table, op)
    ensures SparesDead(table, op) ==> AgreesOnLive(TableAfter(table, op), PlainAfter(plain, op), op.now)
  {
  }

  lemma NoDeadInsertSnoc(ops: seq<Op>)
    requires ops != []
    ensures var n := |ops| - 1;
            NoDeadInsert(ops) <==> NoDeadInsert(ops[..n]) && SparesDead(RunOps(map[], ops[..n]), ops[n])
  {
    var n := |ops| - 1;
    assert forall i :: 0 <= i < n ==> ops[..n][..i] == ops[..i] && ops[..n][i] == ops[i];
    if NoDeadInsert(ops[..n]) && SparesDead(RunOps(map[], ops[..n]), ops[n]) {
      forall i | 0 <= i < |ops| ensures SparesDead(RunOps(map[], ops[..i]), ops[i]) {
        if i < n {
          assert SparesDead(RunOps(map[], ops[..n][..i]), ops[..n][i]);
        }
      }
    }
  }

  /**
   The cache behaves like the plain map exactly as long as no insert hits a row that is dead
   but not yet removed; there the table reports a conflict where the plain map has none.
   */
  lemma {:induction false} PlainMapIff(ops: seq<Op>, clock: int)
    requires Timely(ops) && (ops != [] ==> clock == ops[|ops| - 1].now)
    ensures Outputs(map[], ops) == PlainOutputs(ops) <==> NoDeadInsert(ops)
    ensures NoDeadInsert(ops) ==> AgreesOnLive(RunOps(map[], ops), RunPlain(ops), clock)
    ensures |Outputs(map[], ops)| == |PlainOutputs(ops)|
  {
    if ops != [] {
      var n := |ops| - 1;
      var before := ops[..n];
      var earlier := if n == 0 then clock else ops[n - 1].now;
      PlainMapIff(before, earlier);
      NoDeadInsertSnoc(ops);
      if NoDeadInsert(before) {
        AgreeStep(RunOps(map[], before), RunPlain(before), earlier, ops[n]);
      }
      var os, ps := Outputs(map[], before), PlainOutputs(before);
      assert Outputs(map[], ops)[..|os|] == os && PlainOutputs(ops)[..|ps|] == ps;
    }
  }
}
