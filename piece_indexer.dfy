/**
 * The payload-CID backfill of the deal observer. The `active_deals` table is
 * a sequence of rows; a pass selects the oldest rows that still lack a
 * payload CID, asks an outside resolver for each one in turn, and writes
 * every CID it gets back through an update keyed by the deal's nine
 * natural-key columns.
 */
module PieceIndexer {
  import opened Wrappers

  /** A row of `active_deals`. */
  datatype ActiveDeal = ActiveDeal(
    activatedAtEpoch: int,
    minerId: int,
    clientId: int,
    pieceCid: string,
    pieceSize: int,
    termStartEpoch: int,
    termMin: int,
    termMax: int,
    sectorId: int,
    payloadCid: Option<string>)

  /** The nine columns that together identify a row for an update. */
  datatype DealKey = DealKey(
    activatedAtEpoch: int,
    minerId: int,
    clientId: int,
    pieceCid: string,
    pieceSize: int,
    termStartEpoch: int,
    termMin: int,
    termMax: int,
    sectorId: int)

  function KeyOf(d: ActiveDeal): DealKey {
    DealKey(d.activatedAtEpoch, d.minerId, d.clientId, d.pieceCid, d.pieceSize,
            d.termStartEpoch, d.termMin, d.termMax, d.sectorId)
  }

  /** No two rows of the table share a natural key. */
  ghost predicate UniqueKeys(rows: seq<ActiveDeal>) {
    forall i, j :: 0 <= i < |rows| && 0 <= j < |rows| && i != j ==> KeyOf(rows[i]) != KeyOf(rows[j])
  }

  datatype DbError = DbError(message: string)

  datatype IndexerError =
    | QueryFailed(cause: DbError)
    | UpdateFailed(deal: ActiveDeal, cause: DbError)

  /** A (miner, piece) pair handed to the resolver. */
  datatype PieceRef = PieceRef(minerId: int, pieceCid: string)

  // ---------------------------------------------------------------------
  // Selection: WHERE payload_cid IS NULL ORDER BY activated_at_epoch LIMIT n
  // ---------------------------------------------------------------------

  function Filter(rows: seq<ActiveDeal>, p: ActiveDeal -> bool): (r: seq<ActiveDeal>)
    ensures |r| <= |rows|
    ensures forall k :: 0 <= k < |r| ==> p(r[k])
    ensures multiset(r) <= multiset(rows)
    ensures forall d :: multiset(r)[d] == if p(d) then multiset(rows)[d] else 0
    decreases |rows|
  {
    if rows == [] then []
    else
      assert rows == [rows[0]] + rows[1..];
      (if p(rows[0]) then [rows[0]] else []) + Filter(rows[1..], p)
  }

  predicate MissingPayload(d: ActiveDeal) {
    d.payloadCid.None?
  }

  function WithNoPayloadCid(rows: seq<ActiveDeal>): seq<ActiveDeal> {
    Filter(rows, MissingPayload)
  }

  /**
   * `SELECT count(*) FROM active_deals WHERE payload_cid IS NULL`: at most
   * the number of rows, and zero exactly when every row has a payload CID.
   */
  function CountMissingPayloadCid(rows: seq<ActiveDeal>): (n: nat)
    ensures n <= |rows|
    ensures n == 0 <==> forall i :: 0 <= i < |rows| ==> rows[i].payloadCid.Some?
  {
    MissingRowsAreSelected(rows);
    |WithNoPayloadCid(rows)|
  }

  /** The selection is empty exactly when no row lacks a payload CID. */
  lemma MissingRowsAreSelected(rows: seq<ActiveDeal>)
    ensures WithNoPayloadCid(rows) == [] <==> forall i :: 0 <= i < |rows| ==> rows[i].payloadCid.Some?
  {
    var nulls := WithNoPayloadCid(rows);
    if nulls != [] {
      assert nulls[0] in multiset(rows);
    } else {
      assert forall i :: 0 <= i < |rows| && MissingPayload(rows[i]) ==> multiset(nulls)[rows[i]] > 0;
    }
  }

  predicate SortedByEpoch(s: seq<ActiveDeal>) {
    forall i, j :: 0 <= i < j < |s| ==> s[i].activatedAtEpoch <= s[j].activatedAtEpoch
  }

  function InsertByEpoch(d: ActiveDeal, s: seq<ActiveDeal>): (r: seq<ActiveDeal>)
    requires SortedByEpoch(s)
    ensures SortedByEpoch(r)
    ensures multiset(r) == multiset(s) + multiset{d}
    decreases |s|
  {
    if s == [] || d.activatedAtEpoch <= s[0].activatedAtEpoch then
      SortedCons(d, s, s, d);
      [d] + s
    else
      SortedTail(s);
      var rest := InsertByEpoch(d, s[1..]);
      SortedCons(s[0], rest, s[1..], d);
      [s[0]] + rest
  }

  /** The tail of a sorted sequence is sorted, and its head is no later than any of it. */
  lemma SortedTail(s: seq<ActiveDeal>)
    requires SortedByEpoch(s) && s != []
    ensures SortedByEpoch(s[1..])
    ensures forall k :: 0 <= k < |s[1..]| ==> s[0].activatedAtEpoch <= s[1..][k].activatedAtEpoch
    ensures multiset(s) == multiset{s[0]} + multiset(s[1..])
  {
    assert s == [s[0]] + s[1..];
  }

  /**
   * `h` may go in front of the sorted `rest` when `rest` holds only `tail`
   * and `d` and none of them is earlier than `h`.
   */
  lemma SortedCons(h: ActiveDeal, rest: seq<ActiveDeal>, tail: seq<ActiveDeal>, d: ActiveDeal)
    requires SortedByEpoch(rest)
    requires multiset(rest) <= multiset(tail) + multiset{d}
    requires h.activatedAtEpoch <= d.activatedAtEpoch
    requires forall k :: 0 <= k < |tail| ==> h.activatedAtEpoch <= tail[k].activatedAtEpoch
    ensures SortedByEpoch([h] + rest)
  {
    forall k | 0 <= k < |rest| ensures h.activatedAtEpoch <= rest[k].activatedAtEpoch {
      assert rest[k] in multiset(rest);
      if rest[k] != d {
        assert rest[k] in multiset(tail);
        assert rest[k] in tail;
      }
    }
    var r := [h] + rest;
    forall i, j | 0 <= i < j < |r| ensures r[i].activatedAtEpoch <= r[j].activatedAtEpoch {
      if i > 0 { assert r[i] == rest[i - 1] && r[j] == rest[j - 1]; }
      else { assert r[j] == rest[j - 1]; }
    }
  }

  /** Ascending by activation epoch; rows of equal epoch keep their table order. */
  function SortByEpoch(s: seq<ActiveDeal>): (r: seq<ActiveDeal>)
    ensures SortedByEpoch(r)
    ensures multiset(r) == multiset(s)
    decreases |s|
  {
    if s == [] then []
    else
      assert s == [s[0]] + s[1..];
      InsertByEpoch(s[0], SortByEpoch(s[1..]))
  }

  function Min(a: nat, b: nat): nat {
    if a <= b then a else b
  }

  lemma MultisetOfSplit(s: seq<ActiveDeal>, k: nat)
    requires k <= |s|
    ensures multiset(s) == multiset(s[..k]) + multiset(s[k..])
  {
    assert s == s[..k] + s[k..];
  }

  /**
   * The batch the backfill works on: at most `maxDeals` rows, all without a
   * payload CID, oldest first, drawn from the table.
   */
  function OldestWithNoPayloadCid(rows: seq<ActiveDeal>, maxDeals: nat): (batch: seq<ActiveDeal>)
    ensures |batch| == Min(maxDeals, CountMissingPayloadCid(rows))
    ensures forall k :: 0 <= k < |batch| ==> batch[k].payloadCid.None?
    ensures SortedByEpoch(batch)
    ensures multiset(batch) <= multiset(rows)
  {
    var nulls := WithNoPayloadCid(rows);
    var sorted := SortByEpoch(nulls);
    var k := Min(maxDeals, |sorted|);
    SortedPrefixOfMissing(rows, nulls, sorted, k);
    sorted[..k]
  }

  lemma SortedPrefixOfMissing(rows: seq<ActiveDeal>, nulls: seq<ActiveDeal>, sorted: seq<ActiveDeal>, k: nat)
    requires nulls == WithNoPayloadCid(rows)
    requires multiset(sorted) == multiset(nulls) && SortedByEpoch(sorted) && k <= |sorted|
    ensures |sorted| == |nulls|
    ensures forall j :: 0 <= j < k ==> sorted[..k][j].payloadCid.None?
    ensures SortedByEpoch(sorted[..k])
    ensures multiset(sorted[..k]) <= multiset(rows)
  {
    assert |multiset(sorted)| == |multiset(nulls)|;
    MultisetOfSplit(sorted, k);
    forall j | 0 <= j < k ensures sorted[..k][j].payloadCid.None? {
      var x := sorted[..k][j];
      assert x in multiset(sorted);
      assert multiset(nulls)[x] > 0;
      assert MissingPayload(x);
    }
  }

  /** The rows the selection leaves out because of the limit. */
  function LeftForLater(rows: seq<ActiveDeal>, maxDeals: nat): seq<ActiveDeal> {
    var sorted := SortByEpoch(WithNoPayloadCid(rows));
    sorted[Min(maxDeals, |sorted|)..]
  }

  /**
   * The batch is an oldest-first prefix: together with the rows it leaves
   * for later it is exactly the rows without a payload CID, no row left for
   * later is older than a selected one, and rows are left for later only
   * when the limit was reached.
   */
  lemma BatchIsOldestPrefix(rows: seq<ActiveDeal>, maxDeals: nat)
    ensures var batch := OldestWithNoPayloadCid(rows, maxDeals);
            var rest := LeftForLater(rows, maxDeals);
            multiset(batch) + multiset(rest) == multiset(WithNoPayloadCid(rows)) &&
            (forall i, j :: 0 <= i < |batch| && 0 <= j < |rest| ==>
               batch[i].activatedAtEpoch <= rest[j].activatedAtEpoch) &&
            (|rest| > 0 ==> |batch| == maxDeals)
  {
    var sorted := SortByEpoch(WithNoPayloadCid(rows));
    var k := Min(maxDeals, |sorted|);
    MultisetOfSplit(sorted, k);
    var batch := OldestWithNoPayloadCid(rows, maxDeals);
    var rest := LeftForLater(rows, maxDeals);
    assert batch == sorted[..k] && rest == sorted[k..];
    SortedSplit(sorted, k);
  }

  lemma SortedSplit(s: seq<ActiveDeal>, k: nat)
    requires SortedByEpoch(s) && k <= |s|
    ensures forall i, j :: 0 <= i < k && 0 <= j < |s| - k ==>
              s[..k][i].activatedAtEpoch <= s[k..][j].activatedAtEpoch
  {
  }

  // ---------------------------------------------------------------------
  // Resolution and the natural-key update
  // ---------------------------------------------------------------------

  /**
   * The CID the resolver gives for a deal, if it is truthy: an absent
   * answer and the empty string both count as "not found".
   */
  function ResolvedCid(resolve: (int, string) -> Option<string>, d: ActiveDeal): (cid: Option<string>)
    ensures cid.Some? <==> resolve(d.minerId, d.pieceCid).Some? && resolve(d.minerId, d.pieceCid).value != ""
    ensures cid.Some? ==> cid == resolve(d.minerId, d.pieceCid)
  {
    match resolve(d.minerId, d.pieceCid)
    case None => None
    case Some(c) => if c == "" then None else Some(c)
  }

  /**
   * `UPDATE active_deals SET payload_cid = $1 WHERE <nine key columns match>`:
   * every row with that key gets the payload; no other row and no other
   * column changes.
   */
  function SetPayloadWhere(rows: seq<ActiveDeal>, key: DealKey, payload: Option<string>): (r: seq<ActiveDeal>)
    ensures |r| == |rows|
    ensures forall i :: 0 <= i < |rows| ==> KeyOf(r[i]) == KeyOf(rows[i])
    ensures forall i :: 0 <= i < |rows| && KeyOf(rows[i]) == key ==> r[i].payloadCid == payload
    ensures forall i :: 0 <= i < |rows| && KeyOf(rows[i]) != key ==> r[i] == rows[i]
  {
    seq(|rows|, i requires 0 <= i < |rows| =>
      if KeyOf(rows[i]) == key then rows[i].(payloadCid := payload) else rows[i])
  }

  /** The table after the updates a complete run over `batch` issues, in order. */
  function ApplyBatch(rows: seq<ActiveDeal>, batch: seq<ActiveDeal>,
                      resolve: (int, string) -> Option<string>): (r: seq<ActiveDeal>)
    ensures |r| == |rows|
    ensures forall i :: 0 <= i < |rows| ==> KeyOf(r[i]) == KeyOf(rows[i])
    decreases |batch|
  {
    if batch == [] then rows
    else
      var before := ApplyBatch(rows, batch[..|batch| - 1], resolve);
      var deal := batch[|batch| - 1];
      match ResolvedCid(resolve, deal)
      case None => before
      case Some(cid) => SetPayloadWhere(before, KeyOf(deal), Some(cid))
  }

  /** The resolver calls a run over `batch` makes, in order. */
  function Lookups(batch: seq<ActiveDeal>): (calls: seq<PieceRef>)
    ensures |calls| == |batch|
    ensures forall k :: 0 <= k < |batch| ==> calls[k] == PieceRef(batch[k].minerId, batch[k].pieceCid)
  {
    seq(|batch|, k requires 0 <= k < |batch| => PieceRef(batch[k].minerId, batch[k].pieceCid))
  }

  /** Some deal of the batch has this natural key. */
  predicate InBatch(batch: seq<ActiveDeal>, key: DealKey) {
    exists j :: 0 <= j < |batch| && KeyOf(batch[j]) == key
  }

  /** The table after one more deal of the batch. */
  lemma ApplyBatchStep(rows: seq<ActiveDeal>, batch: seq<ActiveDeal>, i: nat,
                       resolve: (int, string) -> Option<string>)
    requires i < |batch|
    ensures ResolvedCid(resolve, batch[i]).None? ==>
              ApplyBatch(rows, batch[..i + 1], resolve) == ApplyBatch(rows, batch[..i], resolve)
    ensures ResolvedCid(resolve, batch[i]).Some? ==>
              ApplyBatch(rows, batch[..i + 1], resolve) ==
                SetPayloadWhere(ApplyBatch(rows, batch[..i], resolve), KeyOf(batch[i]), ResolvedCid(resolve, batch[i]))
  {
    assert batch[..i + 1][..i] == batch[..i];
  }

  lemma InBatchSnoc(batch: seq<ActiveDeal>, key: DealKey)
    requires batch != []
    ensures InBatch(batch, key) <==> InBatch(batch[..|batch| - 1], key) || KeyOf(batch[|batch| - 1]) == key
  {
  }

  /**
   * Closed form of a run: a row changes exactly when a deal of the batch
   * has its natural key and the resolver has a CID for the row's own
   * (miner, piece) pair, and then only its payload CID changes, to that CID.
   */
  lemma {:induction false} ApplyBatchAt(rows: seq<ActiveDeal>, batch: seq<ActiveDeal>,
                                        resolve: (int, string) -> Option<string>, i: nat)
    requires i < |rows|
    ensures ApplyBatch(rows, batch, resolve)[i] ==
              if InBatch(batch, KeyOf(rows[i])) && ResolvedCid(resolve, rows[i]).Some?
              then rows[i].(payloadCid := ResolvedCid(resolve, rows[i]))
              else rows[i]
    decreases |batch|
  {
    if batch != [] {
      var n := |batch| - 1;
      var deal := batch[n];
      ApplyBatchAt(rows, batch[..n], resolve, i);
      InBatchSnoc(batch, KeyOf(rows[i]));
      if KeyOf(deal) == KeyOf(rows[i]) {
        assert deal.minerId == rows[i].minerId && deal.pieceCid == rows[i].pieceCid;
        assert ResolvedCid(resolve, deal) == ResolvedCid(resolve, rows[i]);
      }
    }
  }

  /** The payload column of the closed form. */
  lemma PayloadAfterRun(rows: seq<ActiveDeal>, batch: seq<ActiveDeal>,
                        resolve: (int, string) -> Option<string>, i: nat)
    requires i < |rows|
    ensures ApplyBatch(rows, batch, resolve)[i].payloadCid ==
              if InBatch(batch, KeyOf(rows[i])) && ResolvedCid(resolve, rows[i]).Some?
              then ResolvedCid(resolve, rows[i])
              else rows[i].payloadCid
  {
  }

  /** With a limit no smaller than the number of rows lacking a payload CID, the batch holds all of them. */
  lemma FullBatchHoldsEveryMissingRow(rows: seq<ActiveDeal>, maxDeals: nat)
    requires maxDeals >= CountMissingPayloadCid(rows)
    ensures forall i :: 0 <= i < |rows| && rows[i].payloadCid.None? ==>
              InBatch(OldestWithNoPayloadCid(rows, maxDeals), KeyOf(rows[i]))
  {
    var batch := OldestWithNoPayloadCid(rows, maxDeals);
    var nulls := WithNoPayloadCid(rows);
    var sorted := SortByEpoch(nulls);
    assert |multiset(sorted)| == |multiset(nulls)|;
    assert batch == sorted[..|sorted|] == sorted;
    forall i | 0 <= i < |rows| && rows[i].payloadCid.None?
      ensures InBatch(batch, KeyOf(rows[i]))
    {
      MemberIsInBatch(rows, nulls, batch, i);
    }
  }

  /** A row lacking a payload CID belongs to any permutation of the rows lacking one. */
  lemma MemberIsInBatch(rows: seq<ActiveDeal>, nulls: seq<ActiveDeal>, batch: seq<ActiveDeal>, i: nat)
    requires nulls == WithNoPayloadCid(rows) && multiset(batch) == multiset(nulls)
    requires i < |rows| && rows[i].payloadCid.None?
    ensures InBatch(batch, KeyOf(rows[i]))
  {
    assert MissingPayload(rows[i]);
    assert rows[i] in multiset(rows);
    assert multiset(nulls)[rows[i]] > 0;
    assert rows[i] in multiset(batch);
    var j :| 0 <= j < |batch| && batch[j] == rows[i];
    assert KeyOf(batch[j]) == KeyOf(rows[i]);
  }

  /**
   * A pass whose batch covers every row without a payload CID leaves
   * without one exactly the rows the resolver has nothing for.
   */
  lemma FullPassLeavesUnresolvable(rows: seq<ActiveDeal>, maxDeals: nat,
                                   resolve: (int, string) -> Option<string>)
    requires maxDeals >= CountMissingPayloadCid(rows)
    ensures var after := ApplyBatch(rows, OldestWithNoPayloadCid(rows, maxDeals), resolve);
            forall i :: 0 <= i < |rows| ==>
              (after[i].payloadCid.None? <==> rows[i].payloadCid.None? && ResolvedCid(resolve, rows[i]).None?)
  {
    var batch := OldestWithNoPayloadCid(rows, maxDeals);
    FullBatchHoldsEveryMissingRow(rows, maxDeals);
    forall i | 0 <= i < |rows|
      ensures ApplyBatch(rows, batch, resolve)[i].payloadCid.None? <==>
                rows[i].payloadCid.None? && ResolvedCid(resolve, rows[i]).None?
    {
      PayloadAfterRun(rows, batch, resolve, i);
    }
  }

  /** So the count of missing payload CIDs falls to the count of unresolvable rows. */
  lemma FullPassCount(rows: seq<ActiveDeal>, maxDeals: nat,
                      resolve: (int, string) -> Option<string>)
    requires maxDeals >= CountMissingPayloadCid(rows)
    ensures CountMissingPayloadCid(ApplyBatch(rows, OldestWithNoPayloadCid(rows, maxDeals), resolve))
            == |Unresolvable(rows, resolve)|
  {
    var after := ApplyBatch(rows, OldestWithNoPayloadCid(rows, maxDeals), resolve);
    FullPassLeavesUnresolvable(rows, maxDeals, resolve);
    FilterPointwise(after, rows, MissingPayload, StaysMissing(resolve));
  }

  /** A row without a payload CID for whose (miner, piece) pair the resolver has nothing. */
  function StaysMissing(resolve: (int, string) -> Option<string>): ActiveDeal -> bool {
    (d: ActiveDeal) => d.payloadCid.None? && ResolvedCid(resolve, d).None?
  }

  function Unresolvable(rows: seq<ActiveDeal>, resolve: (int, string) -> Option<string>): seq<ActiveDeal> {
    Filter(rows, StaysMissing(resolve))
  }

  /** Two tables that agree row by row on two predicates have equally many rows satisfying them. */
  lemma {:induction false} FilterPointwise(a: seq<ActiveDeal>, b: seq<ActiveDeal>,
                                           p: ActiveDeal -> bool, q: ActiveDeal -> bool)
    requires |a| == |b|
    requires forall i :: 0 <= i < |a| ==> (p(a[i]) <==> q(b[i]))
    ensures |Filter(a, p)| == |Filter(b, q)|
    decreases |a|
  {
    if a != [] {
      assert forall i :: 0 <= i < |a| - 1 ==> a[1..][i] == a[i + 1] && b[1..][i] == b[i + 1];
      FilterPointwise(a[1..], b[1..], p, q);
    }
  }

  /**
   * Idempotence: after a pass that covered every row without a payload
   * CID, a second pass with the same resolver changes nothing.
   */
  lemma SecondPassChangesNothing(rows: seq<ActiveDeal>, maxDeals: nat,
                                 resolve: (int, string) -> Option<string>)
    requires maxDeals >= CountMissingPayloadCid(rows)
    ensures var after := ApplyBatch(rows, OldestWithNoPayloadCid(rows, maxDeals), resolve);
            ApplyBatch(after, OldestWithNoPayloadCid(after, maxDeals), resolve) == after
  {
    var after := ApplyBatch(rows, OldestWithNoPayloadCid(rows, maxDeals), resolve);
    FullPassLeavesUnresolvable(rows, maxDeals, resolve);
    var second := OldestWithNoPayloadCid(after, maxDeals);
    MissingRowsStayUnresolved(rows, after, second, resolve);
    NothingResolvedNothingChanges(after, second, resolve);
  }

  /** Rows drawn from the missing rows of `after`, all of which the resolver failed on, stay unresolved. */
  lemma MissingRowsStayUnresolved(rows: seq<ActiveDeal>, after: seq<ActiveDeal>, batch: seq<ActiveDeal>,
                                  resolve: (int, string) -> Option<string>)
    requires |after| == |rows|
    requires forall i :: 0 <= i < |rows| ==> KeyOf(after[i]) == KeyOf(rows[i])
    requires forall i :: 0 <= i < |rows| ==>
               (after[i].payloadCid.None? <==> rows[i].payloadCid.None? && ResolvedCid(resolve, rows[i]).None?)
    requires multiset(batch) <= multiset(after)
    requires forall j :: 0 <= j < |batch| ==> batch[j].payloadCid.None?
    ensures forall j :: 0 <= j < |batch| ==> ResolvedCid(resolve, batch[j]).None?
  {
    forall j | 0 <= j < |batch|
      ensures ResolvedCid(resolve, batch[j]).None?
    {
      assert batch[j] in multiset(after);
      var m :| 0 <= m < |after| && after[m] == batch[j];
      assert KeyOf(after[m]) == KeyOf(rows[m]);
    }
  }

  /** A run in which the resolver finds nothing issues no update. */
  lemma {:induction false} NothingResolvedNothingChanges(rows: seq<ActiveDeal>, batch: seq<ActiveDeal>,
                                                         resolve: (int, string) -> Option<string>)
    requires forall j :: 0 <= j < |batch| ==> ResolvedCid(resolve, batch[j]).None?
    ensures ApplyBatch(rows, batch, resolve) == rows
    decreases |batch|
  {
    if batch != [] {
      NothingResolvedNothingChanges(rows, batch[..|batch| - 1], resolve);
    }
  }

  /**
   * With unique natural keys, a row that already has a payload CID is
   * never changed by a pass, whatever the resolver says.
   */
  lemma ResolvedRowsUntouched(rows: seq<ActiveDeal>, maxDeals: nat,
                              resolve: (int, string) -> Option<string>, i: nat)
    requires UniqueKeys(rows)
    requires i < |rows| && rows[i].payloadCid.Some?
    ensures ApplyBatch(rows, OldestWithNoPayloadCid(rows, maxDeals), resolve)[i] == rows[i]
  {
    var batch := OldestWithNoPayloadCid(rows, maxDeals);
    ApplyBatchAt(rows, batch, resolve, i);
    forall j | 0 <= j < |batch|
      ensures KeyOf(batch[j]) != KeyOf(rows[i])
    {
      assert batch[j] in multiset(rows);
      var m :| 0 <= m < |rows| && rows[m] == batch[j];
    }
  }

  /**
   * The numbers of the repository's end-to-end test: 336 rows without a
   * payload CID of which the resolver knows 251, a pass with a limit of
   * 10000 asks the resolver 336 times and leaves 85 rows without one; in
   * a table of those 336 rows, 251 then have a payload CID.
   */
  lemma IndexerTestCounts(rows: seq<ActiveDeal>, resolve: (int, string) -> Option<string>)
    requires CountMissingPayloadCid(rows) == 336
    requires |Unresolvable(rows, resolve)| == 85
    ensures |Lookups(OldestWithNoPayloadCid(rows, 10000))| == 336
    ensures CountMissingPayloadCid(ApplyBatch(rows, OldestWithNoPayloadCid(rows, 10000), resolve)) == 85
    ensures |rows| == 336 ==>
              var after := ApplyBatch(rows, OldestWithNoPayloadCid(rows, 10000), resolve);
              |after| - CountMissingPayloadCid(after) == 251
  {
    FullPassCount(rows, 10000, resolve);
  }

  // ---------------------------------------------------------------------
  // The store and the backfill loop
  // ---------------------------------------------------------------------

  /**
   * The `active_deals` table behind a connection pool. Either query may
   * fail (connection loss, timeout); a failed statement changes nothing.
   */
  class DealStore {
    var rows: seq<ActiveDeal>

    constructor (initial: seq<ActiveDeal>)
      ensures rows == initial
    {
      rows := initial;
    }

    /** `SELECT * ... WHERE payload_cid IS NULL ORDER BY activated_at_epoch ASC LIMIT limit`. */
    method SelectWithNoPayloadCid(limit: nat) returns (r: Result<seq<ActiveDeal>, DbError>)
      ensures r.Success? ==> r.value == OldestWithNoPayloadCid(rows, limit)
    {
      var failed: bool :| true;
      if failed {
        return Failure(DbError("select failed"));
      }
      return Success(OldestWithNoPayloadCid(rows, limit));
    }

    /** `UPDATE ... SET payload_cid = payload WHERE <nine key columns> = key`. */
    method UpdatePayloadCid(key: DealKey, payload: Option<string>) returns (r: Outcome<DbError>)
      modifies this
      ensures r.Pass? ==> rows == SetPayloadWhere(old(rows), key, payload)
      ensures r.Fail? ==> rows == old(rows)
    {
      var failed: bool :| true;
      if failed {
        return Fail(DbError("update failed"));
      }
      rows := SetPayloadWhere(rows, key, payload);
      return Pass;
    }
  }

  /**
   * The batch for one pass: on success at most `maxDeals` rows of the table
   * without a payload CID, oldest first, every such row when the limit
   * allows it.
   */
  method FetchDealsWithNoPayloadCid(store: DealStore, maxDeals: nat) returns (r: Result<seq<ActiveDeal>, IndexerError>)
    ensures r.Failure? ==> r.error.QueryFailed?
    ensures r.Success? ==> r.value == OldestWithNoPayloadCid(store.rows, maxDeals)
    ensures r.Success? ==> |r.value| <= maxDeals && SortedByEpoch(r.value) &&
                           (forall k :: 0 <= k < |r.value| ==> r.value[k].payloadCid.None?) &&
                           multiset(r.value) <= multiset(store.rows)
    ensures r.Success? && maxDeals >= CountMissingPayloadCid(store.rows) ==>
              multiset(r.value) == multiset(WithNoPayloadCid(store.rows))
  {
    var selected := store.SelectWithNoPayloadCid(maxDeals);
    if selected.Failure? {
      return Failure(QueryFailed(selected.error));
    }
    BatchIsOldestPrefix(store.rows, maxDeals);
    return Success(selected.value);
  }

  /** Write a deal's payload CID through its natural key; a failure is wrapped with the deal. */
  method UpdatePayloadInActiveDeal(store: DealStore, deal: ActiveDeal) returns (r: Outcome<IndexerError>)
    modifies store
    ensures r.Pass? ==> store.rows == SetPayloadWhere(old(store.rows), KeyOf(deal), deal.payloadCid)
    ensures r.Fail? ==> store.rows == old(store.rows) && r.error.UpdateFailed? && r.error.deal == deal
  {
    var outcome := store.UpdatePayloadCid(KeyOf(deal), deal.payloadCid);
    if outcome.Fail? {
      return Fail(UpdateFailed(deal, outcome.error));
    }
    return Pass;
  }

  /**
   * Resolve and store the payload CID of every deal of `batch`, strictly in
   * order. `lookups` records the resolver calls. A failed update stops the
   * run; the updates before it stay applied.
   */
  method UpdatePayloadCids(store: DealStore, batch: seq<ActiveDeal>,
                           resolve: (int, string) -> Option<string>)
    returns (r: Outcome<IndexerError>, lookups: seq<PieceRef>)
    modifies store
    ensures r.Pass? ==> store.rows == ApplyBatch(old(store.rows), batch, resolve) && lookups == Lookups(batch)
    ensures r.Fail? ==>
              var k := |lookups| - 1;
              0 <= k < |batch| && lookups == Lookups(batch[..k + 1]) &&
              ResolvedCid(resolve, batch[k]).Some? &&
              store.rows == ApplyBatch(old(store.rows), batch[..k], resolve) &&
              r.error.UpdateFailed? && r.error.deal == batch[k].(payloadCid := ResolvedCid(resolve, batch[k]))
  {
    lookups := [];
    var i := 0;
    while i < |batch|
      invariant 0 <= i <= |batch|
      invariant store.rows == ApplyBatch(old(store.rows), batch[..i], resolve)
      invariant lookups == Lookups(batch[..i])
    {
      var deal := batch[i];
      ApplyBatchStep(old(store.rows), batch, i, resolve);
      assert Lookups(batch[..i + 1]) == Lookups(batch[..i]) + [PieceRef(deal.minerId, deal.pieceCid)];
      var payloadCid := resolve(deal.minerId, deal.pieceCid);
      lookups := lookups + [PieceRef(deal.minerId, deal.pieceCid)];
      if payloadCid.None? || payloadCid.value == "" {
        i := i + 1;
        continue;
      }
      var updated := deal.(payloadCid := payloadCid);
      var outcome := UpdatePayloadInActiveDeal(store, updated);
      if outcome.Fail? {
        return outcome, lookups;
      }
      i := i + 1;
    }
    assert batch[..i] == batch;
    return Pass, lookups;
  }

  /**
   * One backfill pass: select the batch, then resolve and update it. A
   * failed selection changes nothing and asks the resolver nothing; an
   * update can only fail for a deal the resolver had a CID for.
   */
  method IndexPieces(store: DealStore, resolve: (int, string) -> Option<string>, maxDeals: nat)
    returns (r: Outcome<IndexerError>, lookups: seq<PieceRef>)
    modifies store
    ensures var batch := OldestWithNoPayloadCid(old(store.rows), maxDeals);
            (r.Pass? ==> store.rows == ApplyBatch(old(store.rows), batch, resolve) && lookups == Lookups(batch)) &&
            (r.Fail? && r.error.QueryFailed? ==> store.rows == old(store.rows) && lookups == []) &&
            (r.Fail? && r.error.UpdateFailed? ==>
               1 <= |lookups| <= |batch| && lookups == Lookups(batch[..|lookups|]) &&
               ResolvedCid(resolve, batch[|lookups| - 1]).Some? &&
               r.error.deal == batch[|lookups| - 1].(payloadCid := ResolvedCid(resolve, batch[|lookups| - 1])) &&
               store.rows == ApplyBatch(old(store.rows), batch[..|lookups| - 1], resolve))
  {
    var fetched := FetchDealsWithNoPayloadCid(store, maxDeals);
    if fetched.Failure? {
      return Fail(fetched.error), [];
    }
    // A fetched array is always truthy, so the batch is always processed.
    r, lookups := UpdatePayloadCids(store, fetched.value, resolve);
  }
}
