/**
 * The `stk_transactions` table: rows keyed by their auto-increment id, the
 * unique constraint on `mpesa_receipt_id`, and the queries the core issues
 * (first row by predicate, rows by predicate in descending id order with a
 * limit, count by predicate, create, update by id, update by predicate).
 */
module Store {
  import opened Common
  import opened Model

  /** Some row other than `except` already holds the non-NULL receipt id
      `receipt`, so writing it would break the unique constraint. */
  predicate ReceiptTaken(rows: map<nat, Record>, receipt: NullString, except: nat) {
    receipt.Str? && exists other :: other in rows && other != except && rows[other].mpesaReceiptId == receipt
  }

  predicate UniqueReceipts(rows: map<nat, Record>) {
    forall a, b :: a in rows && b in rows && a != b && rows[a].mpesaReceiptId.Str? ==>
      rows[a].mpesaReceiptId != rows[b].mpesaReceiptId
  }

  /** Every row sits under its own id, below the next id to be handed out. */
  predicate WellFormed(rows: map<nat, Record>, nextId: nat) {
    (forall id :: id in rows ==> 1 <= id < nextId && rows[id].id == id) && UniqueReceipts(rows)
  }

  /** The ids of the rows a predicate selects. */
  function Matching(rows: map<nat, Record>, p: Record -> bool): set<nat> {
    set id | id in rows && p(rows[id])
  }

  /** `First(db, cond)` over the ids `lo..hi-1`: the smallest selected id. */
  function FirstFrom(rows: map<nat, Record>, p: Record -> bool, lo: nat, hi: nat): (r: Option<nat>)
    ensures r.Some? ==> lo <= r.value < hi && r.value in rows && p(rows[r.value])
    ensures r.Some? ==> forall id :: lo <= id < r.value && id in rows ==> !p(rows[id])
    ensures r.None? ==> forall id :: lo <= id < hi && id in rows ==> !p(rows[id])
    decreases hi - lo
  {
    if lo >= hi then None
    else if lo in rows && p(rows[lo]) then Some(lo)
    else FirstFrom(rows, p, lo + 1, hi)
  }

  /** The selected ids below `hi`. */
  function MatchingBelow(rows: map<nat, Record>, p: Record -> bool, hi: nat): set<nat> {
    set id | id in rows && id < hi && p(rows[id])
  }

  function Min(a: nat, b: nat): nat {
    if a <= b then a else b
  }

  /** `Order("id desc").Limit(n).Find(...)` over the ids below `hi`: the
      largest selected ids, as many as there are up to `n`, in descending
      order. */
  function Below(rows: map<nat, Record>, p: Record -> bool, hi: nat, n: nat): (r: seq<nat>)
    ensures |r| <= n
    ensures forall i :: 0 <= i < |r| ==> r[i] in MatchingBelow(rows, p, hi)
    ensures forall i, j :: 0 <= i < j < |r| ==> r[i] > r[j]
    ensures forall id :: id in MatchingBelow(rows, p, hi) && id !in r ==>
              |r| == n && (n > 0 ==> id < r[|r| - 1])
    decreases hi
  {
    if hi == 0 || n == 0 then []
    else if hi - 1 in rows && p(rows[hi - 1]) then
      [hi - 1] + Below(rows, p, hi - 1, n - 1)
    else
      Below(rows, p, hi - 1, n)
  }

  /** Extending the bound by one id adds that id when it is selected. */
  lemma MatchingBelowStep(rows: map<nat, Record>, p: Record -> bool, hi: nat)
    requires 0 < hi
    ensures hi - 1 in rows && p(rows[hi - 1]) ==>
              |MatchingBelow(rows, p, hi)| == |MatchingBelow(rows, p, hi - 1)| + 1
    ensures !(hi - 1 in rows && p(rows[hi - 1])) ==>
              MatchingBelow(rows, p, hi) == MatchingBelow(rows, p, hi - 1)
  {
    if hi - 1 in rows && p(rows[hi - 1]) {
      assert MatchingBelow(rows, p, hi) == MatchingBelow(rows, p, hi - 1) + {hi - 1};
      assert hi - 1 !in MatchingBelow(rows, p, hi - 1);
    } else {
      assert MatchingBelow(rows, p, hi) == MatchingBelow(rows, p, hi - 1);
    }
  }

  /** The scan returns as many ids as are selected, up to `n`. */
  lemma {:induction false} BelowSize(rows: map<nat, Record>, p: Record -> bool, hi: nat, n: nat)
    ensures |Below(rows, p, hi, n)| == Min(n, |MatchingBelow(rows, p, hi)|)
    decreases hi
  {
    if hi == 0 {
      assert MatchingBelow(rows, p, hi) == {};
    } else if n == 0 {
    } else {
      MatchingBelowStep(rows, p, hi);
      if hi - 1 in rows && p(rows[hi - 1]) {
        BelowSize(rows, p, hi - 1, n - 1);
      } else {
        BelowSize(rows, p, hi - 1, n);
      }
    }
  }

  /** The selected ids strictly between `lo` and `hi`. */
  function MatchingAbove(rows: map<nat, Record>, p: Record -> bool, lo: nat, hi: nat): set<nat> {
    set id | id in rows && lo < id < hi && p(rows[id])
  }

  /** `Where("id > ?", lo).Order("id").Limit(n).Find(...)` over the ids
      below `hi`: the smallest selected ids above `lo`, as many as there are
      up to `n`, in ascending order. */
  function Above(rows: map<nat, Record>, p: Record -> bool, lo: nat, hi: nat, n: nat): (r: seq<nat>)
    ensures |r| <= n
    ensures forall i :: 0 <= i < |r| ==> r[i] in MatchingAbove(rows, p, lo, hi)
    ensures forall i, j :: 0 <= i < j < |r| ==> r[i] < r[j]
    ensures forall id :: id in MatchingAbove(rows, p, lo, hi) && id !in r ==>
              |r| == n && (n > 0 ==> id > r[|r| - 1])
    decreases hi - lo
  {
    if lo + 1 >= hi || n == 0 then []
    else if lo + 1 in rows && p(rows[lo + 1]) then
      [lo + 1] + Above(rows, p, lo + 1, hi, n - 1)
    else
      Above(rows, p, lo + 1, hi, n)
  }

  /** A scan above `lo` only reads the rows between `lo` and `hi`: two
      tables that agree there give the same page. */
  lemma {:induction false} AboveReadsOnlyRange(r1: map<nat, Record>, r2: map<nat, Record>, p: Record -> bool,
                                               lo: nat, hi: nat, n: nat)
    requires forall id :: lo < id < hi ==> (id in r1 <==> id in r2) && (id in r1 ==> r1[id] == r2[id])
    ensures Above(r1, p, lo, hi, n) == Above(r2, p, lo, hi, n)
    decreases hi - lo
  {
    if lo + 1 < hi && n > 0 {
      if lo + 1 in r1 && p(r1[lo + 1]) {
        AboveReadsOnlyRange(r1, r2, p, lo + 1, hi, n - 1);
      } else {
        AboveReadsOnlyRange(r1, r2, p, lo + 1, hi, n);
      }
    }
  }

  /** A list shorter than a set leaves out one of its elements. */
  lemma {:induction false} SomeNotListed(s: seq<nat>, ids: set<nat>)
    requires |ids| > |s|
    ensures exists id :: id in ids && id !in s
  {
    if s == [] {
      var id :| id in ids;
      assert id !in s;
    } else {
      var rest := ids - {s[0]};
      assert |rest| >= |ids| - 1;
      SomeNotListed(s[1..], rest);
      var id :| id in rest && id !in s[1..];
      assert s == [s[0]] + s[1..];
      assert id !in s;
    }
  }

  /** The table, its auto-increment counter, and the statements the service
      runs against it. A statement fails only on the unique receipt
      constraint. */
  class Database {
    var rows: map<nat, Record>
    var nextId: nat

    ghost predicate Valid()
      reads this
    {
      1 <= nextId && WellFormed(rows, nextId)
    }

    constructor ()
      ensures Valid() && rows == map[] && nextId == 1
    {
      rows := map[];
      nextId := 1;
    }

    /** `First(db, cond)`: the selected row with the smallest id. */
    function First(p: Record -> bool): (r: Option<Record>)
      reads this
      requires Valid()
      ensures r.Some? <==> Matching(rows, p) != {}
      ensures r.Some? ==> r.value.id in Matching(rows, p) && rows[r.value.id] == r.value
      ensures r.Some? ==> forall id :: id in Matching(rows, p) ==> r.value.id <= id
    {
      assert forall id :: id in Matching(rows, p) ==> id in rows && id < nextId && p(rows[id]);
      match FirstFrom(rows, p, 0, nextId)
      case None => None
      case Some(id) =>
        assert id in Matching(rows, p);
        Some(rows[id])
    }

    /** The row values a `Create` with GORM's defaults stores: the next id,
        the column default 'NO' for an empty flag, and the creation time. */
    static function Created(r: Record, id: nat, now: int): (c: Record)
      ensures c.id == id && c.createdAt == now
      ensures c.succeeded == (if r.succeeded == "" then No else r.succeeded)
      ensures c.processed == (if r.processed == "" then No else r.processed)
      ensures c.(id := r.id, createdAt := r.createdAt, succeeded := r.succeeded, processed := r.processed) == r
    {
      r.(id := id, createdAt := now,
         succeeded := if r.succeeded == "" then No else r.succeeded,
         processed := if r.processed == "" then No else r.processed)
    }

    /** `Create`: inserts the row under a fresh id, unless its receipt id
        is already taken. */
    method Create(r: Record, now: int) returns (id: Option<nat>)
      requires Valid()
      modifies this
      ensures Valid()
      ensures ReceiptTaken(old(rows), r.mpesaReceiptId, 0) ==>
                id.None? && rows == old(rows) && nextId == old(nextId)
      ensures !ReceiptTaken(old(rows), r.mpesaReceiptId, 0) ==>
                id == Some(old(nextId)) && old(nextId) !in old(rows) &&
                rows == old(rows)[old(nextId) := Created(r, old(nextId), now)] &&
                nextId == old(nextId) + 1
    {
      if ReceiptTaken(rows, r.mpesaReceiptId, 0) {
        id := None;
      } else {
        id := Some(nextId);
        rows := rows[nextId := Created(r, nextId, now)];
        nextId := nextId + 1;
      }
    }

    /** `Model(row).Updates(...)`: replaces the row with id `id` by `r`,
        unless the new receipt id is taken by another row. An update that
        matches no row changes nothing and is not an error. */
    method Update(id: nat, r: Record) returns (ok: bool)
      requires Valid()
      modifies this
      ensures Valid() && nextId == old(nextId)
      ensures id !in old(rows) ==> ok && rows == old(rows)
      ensures id in old(rows) && ReceiptTaken(old(rows), r.mpesaReceiptId, id) ==>
                !ok && rows == old(rows)
      ensures id in old(rows) && !ReceiptTaken(old(rows), r.mpesaReceiptId, id) ==>
                ok && rows == old(rows)[id := r.(id := id)]
    {
      if id !in rows {
        ok := true;
      } else if ReceiptTaken(rows, r.mpesaReceiptId, id) {
        ok := false;
      } else {
        rows := rows[id := r.(id := id)];
        ok := true;
      }
    }

    /** `Where(cond).Update("processed", value)`: sets the flag on every
        selected row. */
    method SetProcessedWhere(p: Record -> bool, value: string)
      requires Valid()
      modifies this
      ensures Valid() && nextId == old(nextId)
      ensures rows.Keys == old(rows).Keys
      ensures forall id :: id in rows ==>
                rows[id] == if p(old(rows)[id]) then old(rows)[id].(processed := value) else old(rows)[id]
    {
      rows := map id | id in rows :: if p(rows[id]) then rows[id].(processed := value) else rows[id];
    }
  }
}
