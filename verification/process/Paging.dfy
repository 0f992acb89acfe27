/** Paging in internal/service/process, in 64-bit arithmetic. */
module Paging {
  import opened Wrappers
  import opened Seqs

  const LIMIT63: int := 0x8000_0000_0000_0000

  /** The value of a 64-bit two's complement integer. */
  function Wrap(x: int): int { (x + LIMIT63) % (2 * LIMIT63) - LIMIT63 }

  predicate Int64(x: int) { -LIMIT63 <= x < LIMIT63 }

  lemma WrapFits(x: int)
    requires Int64(x)
    ensures Wrap(x) == x
  {
  }

  function PageNumber(page: int): int { if page < 1 then 1 else page }

  /** The page as the request means it: limit entries from (page-1)*limit on, fewer at the end, none beyond. */
  function PageOf(pids: seq<int>, page: int, limit: int): seq<int>
    requires page >= 1 && limit >= 1
  {
    PageFrom(pids, (page - 1) * limit, limit)
  }

  function PageFrom(pids: seq<int>, start: nat, limit: int): seq<int>
    requires limit >= 1
  {
    if start >= |pids| then []
    else if start + limit > |pids| then pids[start..]
    else pids[start..start + limit]
  }

  /** The pids that List goes through; None is a run-time panic at the slice expression. */
  function Selected(pids: seq<int>, page: int, limit: int): Option<seq<int>> {
    if limit <= 0 then Some(pids) else SelectedFrom(pids, (PageNumber(page) - 1) * limit, limit)
  }

  function SelectedFrom(pids: seq<int>, offset: int, limit: int): Option<seq<int>> {
    var start := Wrap(offset);
    if start >= |pids| then Some([])
    else
      var sum := Wrap(start + limit);
      var end := if sum > |pids| then |pids| else sum;
      if 0 <= start <= end then Some(pids[start..end]) else None
  }

  /** Processes that cannot be queried are skipped. */
  function Queried<P>(info: int -> Option<P>): int -> seq<P> {
    pid => match info(pid) case None => [] case Some(p) => [p]
  }

  method List<P>(pids: seq<int>, page: int, limit: int, info: int -> Option<P>)
    returns (procs: seq<P>, total: int, panics: bool)
    ensures panics <==> Selected(pids, page, limit).None?
    ensures !panics ==> total == |pids| && procs == FlatMap(Queried(info), Selected(pids, page, limit).value)
  {
    procs, panics, total := [], false, |pids|;
    var chosen := pids;
    if limit > 0 {
      var p := page;
      if p < 1 {
        p := 1;
      }
      var start := Wrap((p - 1) * limit);
      if start >= total {
        return;
      }
      var end := Wrap(start + limit);
      if end > total {
        end := total;
      }
      if !(0 <= start <= end) {
        return [], total, true;
      }
      chosen := pids[start..end];
    }
    for i := 0 to |chosen|
      invariant procs == FlatMap(Queried(info), chosen[..i])
    {
      FlatMapSnoc(Queried(info), chosen, i);
      var p := info(chosen[i]);
      if p.None? {
        continue;
      }
      procs := procs + [p.value];
    }
    assert chosen[..|chosen|] == chosen;
  }

  /** The right page is selected exactly when its offset is representable, or wraps to one beyond the end. */
  lemma SelectedIsPageIff(pids: seq<int>, page: int, limit: int)
    requires |pids| <= LIMIT63 / 2 && Int64(page) && Int64(limit) && limit > 0
    ensures var offset := (PageNumber(page) - 1) * limit;
            Selected(pids, page, limit) == Some(PageOf(pids, PageNumber(page), limit)) <==>
            offset < LIMIT63 || Wrap(offset) >= |pids|
  {
    var p := PageNumber(page);
    var offset := (p - 1) * limit;
    OffsetBounds(p, limit);
    OffsetIff(pids, offset, limit);
  }

  lemma OffsetIff(pids: seq<int>, offset: nat, limit: int)
    requires |pids| <= LIMIT63 / 2 && 0 < limit < LIMIT63 && (offset == 0 || limit <= offset)
    ensures SelectedFrom(pids, offset, limit) == Some(PageFrom(pids, offset, limit)) <==>
            offset < LIMIT63 || Wrap(offset) >= |pids|
  {
    if offset < LIMIT63 {
      WrapFits(offset);
      if offset < |pids| {
        WrapFits(offset + limit);
        assert pids[offset..|pids|] == pids[offset..];
      }
    } else if 0 <= Wrap(offset) < |pids| {
      SelectedNonEmpty(pids, Wrap(offset), limit);
    }
  }

  lemma OffsetBounds(p: int, limit: int)
    requires p >= 1 && limit > 0
    ensures (p - 1) * limit >= 0
    ensures p > 1 ==> limit <= (p - 1) * limit
    ensures p == 1 ==> (p - 1) * limit == 0
  {
  }

  /** A wrapped offset inside the list selects something. */
  lemma SelectedNonEmpty(pids: seq<int>, start: int, limit: int)
    requires 0 <= start < |pids| <= LIMIT63 / 2 && 0 < limit < LIMIT63
    ensures var sum := Wrap(start + limit);
            var end := if sum > |pids| then |pids| else sum;
            !(0 <= start <= end) || pids[start..end] != []
  {
    if start + limit < LIMIT63 {
      WrapFits(start + limit);
    } else {
      assert Wrap(start + limit) == start + limit - 2 * LIMIT63;
    }
  }

  /** List panics exactly when the wrapped offset is negative, or inside the list so late that the end wraps. */
  lemma PanicsIff(pids: seq<int>, page: int, limit: int)
    requires |pids| < LIMIT63 && Int64(page) && Int64(limit)
    ensures var start := Wrap((PageNumber(page) - 1) * limit);
            Selected(pids, page, limit).None? <==>
            limit > 0 && (start < 0 || (start < |pids| && start + limit >= LIMIT63))
  {
    var start := Wrap((PageNumber(page) - 1) * limit);
    if limit > 0 && start < |pids| {
      WrapInRange((PageNumber(page) - 1) * limit);
      EndWraps(start, limit);
    }
  }

  lemma WrapInRange(x: int)
    ensures Int64(Wrap(x))
  {
  }

  lemma EndWraps(start: int, limit: int)
    requires Int64(start) && 0 < limit < LIMIT63
    ensures start + limit < LIMIT63 ==> Wrap(start + limit) == start + limit
    ensures start + limit >= LIMIT63 ==> Wrap(start + limit) < 0
  {
    if start + limit < LIMIT63 {
      WrapFits(start + limit);
    } else {
      assert Wrap(start + limit) == start + limit - 2 * LIMIT63;
    }
  }

  /** The offset of this page wraps to the most negative number. */
  lemma WrappedOffsetPanics(pids: seq<int>)
    requires |pids| < LIMIT63
    ensures Selected(pids, 0x4000_0000_0000_0001, 2).None?
  {
    PanicsIff(pids, 0x4000_0000_0000_0001, 2);
    WrapShift(0x4000_0000_0000_0000 * 2, -LIMIT63, 1);
  }

  /** The offset of this page wraps to 3, and the end to a negative number. */
  lemma WrappedEndPanics(pids: seq<int>)
    requires |pids| < LIMIT63
    ensures Selected(pids, LIMIT63 - 2, LIMIT63 - 1).None? <==> |pids| > 3
  {
    PanicsIff(pids, LIMIT63 - 2, LIMIT63 - 1);
    WrapShift((LIMIT63 - 3) * (LIMIT63 - 1), 3, LIMIT63 / 2 - 2);
  }

  /** Numbers that differ by a multiple of 2^64 wrap alike. */
  lemma WrapShift(x: int, y: int, k: int)
    requires x == y + k * (2 * LIMIT63) && Int64(y)
    ensures Wrap(x) == y
  {
    WrapFits(y);
    assert x + LIMIT63 == (y + LIMIT63) + k * (2 * LIMIT63);
    assert (x + LIMIT63) % (2 * LIMIT63) == y + LIMIT63;
  }

  // ---- what a page is ----

  /** The i-th entry of a page is the entry of the list at its offset; pages are full up to the end of the list. */
  lemma PageEntries(pids: seq<int>, page: int, limit: int, i: nat)
    requires page >= 1 && limit >= 1
    ensures var offset, chosen := (page - 1) * limit, PageOf(pids, page, limit);
            && offset >= 0
            && |chosen| == (if offset >= |pids| then 0 else if |pids| - offset < limit then |pids| - offset else limit)
            && (i < |chosen| ==> chosen[i] == pids[offset + i])
  {
    OffsetBounds(page, limit);
  }

  /** Pages below the first are the first; without a limit there are no pages. */
  lemma PagesBelowOne(pids: seq<int>, page: int, limit: int)
    ensures page < 1 ==> Selected(pids, page, limit) == Selected(pids, 1, limit)
    ensures page >= 1 && |pids| <= LIMIT63 / 2 && Int64(page) && 0 < limit < LIMIT63 && (page - 1) * limit < LIMIT63 ==>
              Selected(pids, page, limit) == Some(PageOf(pids, page, limit))
    ensures limit <= 0 ==> Selected(pids, page, limit) == Some(pids)
  {
    if page >= 1 && |pids| <= LIMIT63 / 2 && Int64(page) && 0 < limit < LIMIT63 && (page - 1) * limit < LIMIT63 {
      SelectedIsPageIff(pids, page, limit);
    }
  }

  /** A list of processes is that of its parts, a process that cannot be queried is skipped, any other one listed. */
  lemma QueriedOne<P>(info: int -> Option<P>, pid: int, a: seq<int>, b: seq<int>)
    ensures FlatMap(Queried(info), [pid]) == match info(pid) case None => [] case Some(p) => [p]
    ensures FlatMap(Queried(info), a + b) == FlatMap(Queried(info), a) + FlatMap(Queried(info), b)
  {
    FlatMapOne(Queried(info), pid);
    FlatMapConcat(Queried(info), a, b);
  }

  // ---- pages tile the list ----

  /** Pages 1 to n, one after the other. */
  function Gather<A>(page: nat -> seq<A>, n: nat): seq<A> {
    if n == 0 then [] else Gather(page, n - 1) + page(n)
  }

  /** If each answer is a page with its elements queried, all answers are all pages with their elements queried. */
  lemma {:induction false} GatherAnswers<A, B>(answer: nat -> seq<B>, page: nat -> seq<A>, query: A -> seq<B>, n: nat)
    requires forall k :: 1 <= k <= n ==> answer(k) == FlatMap(query, page(k))
    ensures Gather(answer, n) == FlatMap(query, Gather(page, n))
  {
    if n == 0 {
    } else {
      GatherAnswers(answer, page, query, n - 1);
      FlatMapConcat(query, Gather(page, n - 1), page(n));
    }
  }

  function Pages(pids: seq<int>, limit: int): nat -> seq<int>
    requires limit >= 1
  {
    (k: nat) => if k == 0 then [] else PageOf(pids, k, limit)
  }

  lemma {:induction false} PagesPrefix(pids: seq<int>, limit: int, n: nat)
    requires limit >= 1
    ensures n * limit >= 0
    ensures Gather(Pages(pids, limit), n) == if n * limit <= |pids| then pids[..n * limit] else pids
  {
    if n == 0 {
    } else {
      PagesPrefix(pids, limit, n - 1);
      var start := (n - 1) * limit;
      assert n * limit == start + limit;
      PageAppends(pids, start, limit);
    }
  }

  lemma PageAppends(pids: seq<int>, start: nat, limit: int)
    requires limit >= 1
    ensures (if start <= |pids| then pids[..start] else pids)
            + (if start >= |pids| then [] else if start + limit > |pids| then pids[start..] else pids[start..start + limit])
            == if start + limit <= |pids| then pids[..start + limit] else pids
  {
  }

  /** What a request for page k answers. */
  function Answers<P>(pids: seq<int>, limit: int, info: int -> Option<P>): nat -> seq<P> {
    (k: nat) => match Selected(pids, k, limit) case None => [] case Some(chosen) => FlatMap(Queried(info), chosen)
  }

  /** ceil(total / limit). */
  function PageCount(total: nat, limit: int): nat
    requires limit >= 1
  {
    (total + limit - 1) / limit
  }

  lemma PageCountBounds(total: nat, limit: int)
    requires limit >= 1
    ensures PageCount(total, limit) * limit >= total
    ensures PageCount(total, limit) > 0 ==> (PageCount(total, limit) - 1) * limit < total
  {
    var n := PageCount(total, limit);
    DivisionBounds(total + limit - 1, limit, n);
    assert (n - 1) * limit == n * limit - limit;
  }

  lemma DivisionBounds(a: nat, d: int, q: int)
    requires d >= 1 && q == a / d
    ensures q * d <= a < q * d + d
  {
  }

  lemma PageSelected(pids: seq<int>, limit: int, k: nat)
    requires 1 <= limit < LIMIT63 && |pids| <= LIMIT63 / 2
    requires 1 <= k <= PageCount(|pids|, limit)
    ensures Selected(pids, k, limit) == Some(PageOf(pids, k, limit))
  {
    PageCountBounds(|pids|, limit);
    Monotone(k - 1, PageCount(|pids|, limit) - 1, limit);
    AtMost(k - 1, limit);
    SelectedIsPageIff(pids, k, limit);
  }

  lemma Monotone(a: int, b: int, limit: int)
    requires a <= b && limit >= 1
    ensures a * limit <= b * limit
  {
  }

  lemma AtMost(a: nat, limit: int)
    requires limit >= 1
    ensures a <= a * limit
  {
  }

  /** The pages together answer what one unpaged request answers, also when some queries fail. */
  lemma PagesTile<P>(pids: seq<int>, limit: int, info: int -> Option<P>)
    requires 1 <= limit < LIMIT63 && |pids| <= LIMIT63 / 2
    ensures forall k :: 1 <= k <= PageCount(|pids|, limit) ==> Selected(pids, k, limit).Some?
    ensures Selected(pids, 1, 0) == Some(pids)
    ensures Gather(Answers(pids, limit, info), PageCount(|pids|, limit)) == FlatMap(Queried(info), pids)
  {
    var n := PageCount(|pids|, limit);
    forall k: nat | 1 <= k <= n ensures Selected(pids, k, limit).Some? {
      PageSelected(pids, limit, k);
    }
    AnswersArePages(pids, limit, info, n);
    PagesAreAll(pids, limit);
  }

  lemma PagesAreAll(pids: seq<int>, limit: int)
    requires limit >= 1
    ensures Gather(Pages(pids, limit), PageCount(|pids|, limit)) == pids
  {
    var n := PageCount(|pids|, limit);
    PagesPrefix(pids, limit, n);
    PageCountBounds(|pids|, limit);
    assert pids[..|pids|] == pids;
  }

  lemma AnswersArePages<P>(pids: seq<int>, limit: int, info: int -> Option<P>, n: nat)
    requires 1 <= limit < LIMIT63 && |pids| <= LIMIT63 / 2 && n == PageCount(|pids|, limit)
    ensures Gather(Answers(pids, limit, info), n) == FlatMap(Queried(info), Gather(Pages(pids, limit), n))
  {
    forall k: nat | 1 <= k <= n ensures Answers(pids, limit, info)(k) == FlatMap(Queried(info), Pages(pids, limit)(k)) {
      PageSelected(pids, limit, k);
    }
    GatherAnswers(Answers(pids, limit, info), Pages(pids, limit), Queried(info), n);
  }
}
