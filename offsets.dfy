// The search-result offsets both opensubtitles.org crawlers walk through:
// `range(0, limit, 40)`, one offset per result page of 40 entries.

module SearchOffsets {
  /** Entries per search-result page. */
  const PageSize: nat := 40

  /** `range(from, limit, 40)` */
  function Range(from: int, limit: int): seq<int>
    decreases limit - from
  {
    if from >= limit then [] else [from] + Range(from + PageSize, limit)
  }

  /** `range(0, limit, 40)` */
  function Offsets(limit: int): seq<int> {
    Range(0, limit)
  }

  /** The number of pages needed for `limit` entries: `ceil(limit / 40)`, and none for `limit <= 0`. */
  function PageCount(limit: int): (n: nat)
    ensures limit <= 0 ==> n == 0
    ensures limit > 0 ==> (n - 1) * PageSize < limit <= n * PageSize
  {
    if limit <= 0 then 0 else (limit + PageSize - 1) / PageSize
  }

  /** The `k`-th element of a range is `from + 40 * k`, and there are as many as pages cover the gap. */
  lemma {:induction false} RangeClosedForm(from: int, limit: int)
    ensures |Range(from, limit)| == PageCount(limit - from)
    ensures forall k :: 0 <= k < |Range(from, limit)| ==> Range(from, limit)[k] == from + PageSize * k
    decreases limit - from
  {
    if from < limit {
      RangeClosedForm(from + PageSize, limit);
      var r := Range(from, limit);
      assert r == [from] + Range(from + PageSize, limit);
      forall k | 0 < k < |r| ensures r[k] == from + PageSize * k {
        assert r[k] == Range(from + PageSize, limit)[k - 1];
      }
    }
  }

  /**
   * The offsets are 0, 40, 80, ..., all below `limit`: `ceil(limit / 40)`
   * of them, and none when `limit <= 0`.
   */
  lemma OffsetsShape(limit: int)
    ensures |Offsets(limit)| == PageCount(limit)
    ensures forall k :: 0 <= k < |Offsets(limit)| ==> Offsets(limit)[k] == PageSize * k
    ensures forall k :: 0 <= k < |Offsets(limit)| ==> 0 <= Offsets(limit)[k] < limit
  {
    RangeClosedForm(0, limit);
  }
}
