/** Runs of variable-size records read one after another, each starting
    where the previous one ended. The reader is a parameter, so these facts
    hold for any record layout. */
module Records {

  import opened Results

  /** The position reached from `p` after `i` steps. */
  function Walk(step: nat -> nat, p: nat, i: nat): nat
    decreases i
  {
    if i == 0 then p else Walk(step, step(p), i - 1)
  }

  /** `ok` holds at each of the first `n` positions of the walk from `p`. */
  predicate AllAlong(ok: nat -> bool, step: nat -> nat, p: nat, n: nat)
    decreases n
  {
    n == 0 || (ok(p) && AllAlong(ok, step, step(p), n - 1))
  }

  lemma {:induction false} AllAlongEach(ok: nat -> bool, step: nat -> nat, p: nat, n: nat)
    ensures AllAlong(ok, step, p, n) ==> forall i :: 0 <= i < n ==> ok(Walk(step, p, i))
    ensures (forall i :: 0 <= i < n ==> ok(Walk(step, p, i))) ==> AllAlong(ok, step, p, n)
    decreases n
  {
    if n > 0 {
      AllAlongEach(ok, step, step(p), n - 1);
      assert Walk(step, p, 0) == p;
      forall i | 0 < i < n
        ensures Walk(step, p, i) == Walk(step, step(p), i - 1)
      {
      }
      if AllAlong(ok, step, p, n) {
        assert ok(p) && AllAlong(ok, step, step(p), n - 1);
        forall i | 0 <= i < n
          ensures ok(Walk(step, p, i))
        {
          if i > 0 {
            assert ok(Walk(step, step(p), i - 1));
          }
        }
      } else if ok(p) {
        assert !AllAlong(ok, step, step(p), n - 1);
        var j :| 0 <= j < n - 1 && !ok(Walk(step, step(p), j));
        assert !ok(Walk(step, p, j + 1));
        assert !(forall i :: 0 <= i < n ==> ok(Walk(step, p, i)));
      } else {
        assert !ok(Walk(step, p, 0));
      }
    }
  }

  /** Reads `remaining` records from `cur`, the first of them having index `m`,
      and keeps every record when `sel` is None, else only the one whose index
      is `sel`. Every record is read either way; the first failing read stops
      the run with its error. Returns the kept records and the final cursor. */
  function ReadRun<T, E>(read: nat -> Result<(T, nat), E>, cur: nat, m: nat, remaining: nat, sel: Option<int>)
    : Result<(seq<T>, nat), E>
    decreases remaining
  {
    if remaining == 0 then Ok(([], cur))
    else
      var first :- read(cur);
      var rest :- ReadRun(read, first.1, m + 1, remaining - 1, sel);
      var keep := sel.None? || sel.value == m;
      Ok((if keep then [first.0] + rest.0 else rest.0, rest.1))
  }

  /** When `read` succeeds exactly where `ok` holds and then moves the cursor
      by `step`, a run keeping every record succeeds exactly when all
      `remaining` records along the walk are `ok`, and record i is what `read`
      returns at the i-th position of the walk. */
  lemma {:induction false} RunReadsEach<T, E>(read: nat -> Result<(T, nat), E>, ok: nat -> bool, step: nat -> nat,
                                              cur: nat, m: nat, remaining: nat)
    requires forall p :: read(p).Ok? <==> ok(p)
    requires forall p :: read(p).Ok? ==> read(p).value.1 == step(p)
    ensures ReadRun(read, cur, m, remaining, None).Ok? <==> AllAlong(ok, step, cur, remaining)
    ensures ReadRun(read, cur, m, remaining, None).Ok? ==>
              var r := ReadRun(read, cur, m, remaining, None).value;
              && r.1 == Walk(step, cur, remaining)
              && |r.0| == remaining
              && forall i {:trigger r.0[i]} :: 0 <= i < remaining ==>
                   read(Walk(step, cur, i)) == Ok((r.0[i], Walk(step, cur, i + 1)))
    decreases remaining
  {
    if remaining > 0 {
      var rec := read(cur);
      if rec.Ok? {
        var next := rec.value.1;
        RunReadsEach(read, ok, step, next, m + 1, remaining - 1);
        var rest := ReadRun(read, next, m + 1, remaining - 1, None);
        if rest.Ok? {
          var r := ReadRun(read, cur, m, remaining, None).value;
          assert r.0 == [rec.value.0] + rest.value.0;
          forall i | 0 <= i < remaining
            ensures read(Walk(step, cur, i)) == Ok((r.0[i], Walk(step, cur, i + 1)))
          {
            if i > 0 {
              assert Walk(step, cur, i) == Walk(step, next, i - 1);
              assert Walk(step, cur, i + 1) == Walk(step, next, i);
            } else {
              assert Walk(step, cur, 1) == next;
            }
          }
        }
      }
    }
  }

  /** Keeping only record `n` runs the same reads as keeping every record:
      the same error when one of them fails, the same final cursor, and
      record `n` alone when it is among those read. */
  lemma {:induction false} RunSelects<T, E>(read: nat -> Result<(T, nat), E>, cur: nat, m: nat, remaining: nat, n: int)
    ensures ReadRun(read, cur, m, remaining, None).Err? ==>
              ReadRun(read, cur, m, remaining, Some(n)) == Err(ReadRun(read, cur, m, remaining, None).error)
    ensures ReadRun(read, cur, m, remaining, None).Ok? ==>
              var all := ReadRun(read, cur, m, remaining, None).value;
              |all.0| == remaining &&
              ReadRun(read, cur, m, remaining, Some(n))
              == Ok((if m <= n < m + remaining then [all.0[n - m]] else [], all.1))
    decreases remaining
  {
    if remaining > 0 {
      var rec := read(cur);
      if rec.Ok? {
        var next := rec.value.1;
        RunSelects(read, next, m + 1, remaining - 1, n);
        var restAll := ReadRun(read, next, m + 1, remaining - 1, None);
        var rest := ReadRun(read, next, m + 1, remaining - 1, Some(n));
        if restAll.Ok? {
          var ra, rs := restAll.value, rest.value;
          var all := [rec.value.0] + ra.0;
          assert ReadRun(read, cur, m, remaining, None) == Ok((all, ra.1));
          assert ReadRun(read, cur, m, remaining, Some(n))
                 == Ok((if n == m then [rec.value.0] + rs.0 else rs.0, rs.1));
          if n == m {
            assert rs.0 == [];
            assert [rec.value.0] + rs.0 == [all[0]];
          } else if m < n < m + remaining {
            assert rs.0 == [ra.0[n - m - 1]];
            assert all[n - m] == ra.0[n - m - 1];
            assert rs.0 == [all[n - m]];
          } else {
            assert rs.0 == [];
          }
        } else {
          assert ReadRun(read, cur, m, remaining, Some(n)) == Err(restAll.error);
        }
      }
    }
  }

  /** The record numbered `n` of a run read keeping only that record: the
      run's error when a read fails, `missing` when `n` is not among the
      records read. */
  function ReadOne<T, E>(read: nat -> Result<(T, nat), E>, cur: nat, remaining: nat, n: int, missing: E)
    : (r: Result<T, E>)
    ensures ReadRun(read, cur, 0, remaining, None).Err? ==>
              r == Err(ReadRun(read, cur, 0, remaining, None).error)
    ensures ReadRun(read, cur, 0, remaining, None).Ok? ==>
              var all := ReadRun(read, cur, 0, remaining, None).value.0;
              r == if 0 <= n < |all| then Ok(all[n]) else Err(missing)
  {
    RunSelects(read, cur, 0, remaining, n);
    var sel :- ReadRun(read, cur, 0, remaining, Some(n));
    if |sel.0| == 0 then Err(missing) else Ok(sel.0[0])
  }
}
