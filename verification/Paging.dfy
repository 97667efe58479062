/**
 The "fetch one row more" pagers of the listings, with the casts between `usize` and `i64`
 written out, and what a client gets that follows `next_offset` from 0 over a fixed list.
 */
module Paging {
  import opened Wrappers
  import opened Decimal
  import opened Casts

  datatype Page<T> = Page(items: seq<T>, next: Option<int>)

  /** SELECT ... LIMIT limit OFFSET offset over the rows in their order. */
  function Rows<T>(list: seq<T>, limit: int, offset: int): Result<seq<T>> {
    if limit < 0 || offset < 0 then Err(Database)
    else if offset >= |list| then Ok([])
    else if limit >= |list| - offset then Ok(list[offset..])
    else Ok(list[offset..offset + limit])
  }

  /** The limit of AdminStore::page and ConfigStore::page before it is cast to `usize`. */
  function Effective(maxPageSize: nat, limit: Option<int>): int {
    var cap := AsI64(maxPageSize);
    if limit.None? || limit.value > cap then cap else limit.value
  }

  /** `page`, the query, then PageState::finish. */
  function ListPage<T>(list: seq<T>, maxPageSize: nat, limit: Option<int>, offset: int): Result<Page<T>> {
    var requested := if limit.Some? then limit.value else AsI64(maxPageSize);
    if offset < 0 || requested <= 0 then
      Err(InvalidArgument)
    else
      var size := AsUsize(Effective(maxPageSize, limit));
      match Rows(list, AsI64(AsI64(size) + 1), offset)
      case Err(e) => Err(e)
      case Ok(rows) =>
        if |rows| > size then Ok(Page(rows[..size], Some(AsI64(offset + AsI64(size)))))
        else Ok(Page(rows, None))
  }

  /** page_limit: 0 asks for the default. */
  function PageLimit(maxBatchSize: int, limit: int): Result<int> {
    if limit < 0 then Err(InvalidArgument)
    else if limit == 0 || maxBatchSize < limit then Ok(maxBatchSize)
    else Ok(limit)
  }

  /** list_dlq_messages, once the queue is found. */
  function DlqPage<T>(list: seq<T>, maxBatchSize: int, limit: int, offset: int): Result<Page<T>> {
    if offset < 0 then Err(InvalidArgument)
    else
      match PageLimit(maxBatchSize, limit)
      case Err(e) => Err(e)
      case Ok(size) =>
        match Rows(list, AsI64(size + 1), offset)
        case Err(e) => Err(e)
        case Ok(rows) =>
          var next := if |rows| > size then Some(AsI64(offset + size)) else None;
          Ok(Page(if AsUsize(size) < |rows| then rows[..AsUsize(size)] else rows, next))
  }

  /** A page holds no more than was asked for, and no more than the configured maximum. */
  lemma DlqPageSize<T>(list: seq<T>, maxBatchSize: int, limit: int, offset: int)
    requires -0x8000_0000 <= maxBatchSize < 0x8000_0000 && IsI64(limit)
    ensures var page := DlqPage(list, maxBatchSize, limit, offset);
            page.Ok? ==>
              && (0 < limit ==> |page.value.items| <= limit)
              && (0 <= maxBatchSize ==> |page.value.items| <= maxBatchSize)
              && (maxBatchSize < 0 ==> page.value.items == [])
  {
  }

  lemma ListPageSize<T>(list: seq<T>, maxPageSize: nat, limit: Option<int>, offset: int)
    requires maxPageSize < U64 && (limit.Some? ==> IsI64(limit.value))
    ensures var page := ListPage(list, maxPageSize, limit, offset);
            page.Ok? ==>
              |page.value.items| <= maxPageSize && (limit.Some? ==> |page.value.items| <= limit.value)
  {
    CastsBack(Effective(maxPageSize, limit));
  }

  // ----- A client that follows next_offset -----

  datatype Walk<T> = Finished(items: seq<T>) | Failed(error: Error) | Unfinished

  type Pager<!T> = int -> Result<Page<T>>

  function ListPager<T>(list: seq<T>, maxPageSize: nat, limit: Option<int>): Pager<T> {
    offset => ListPage(list, maxPageSize, limit, offset)
  }

  function DlqPager<T>(list: seq<T>, maxBatchSize: int, limit: int): Pager<T> {
    offset => DlqPage(list, maxBatchSize, limit, offset)
  }

  /** `calls` calls, the first at `offset`, each next one where the page before it points. */
  function Follow<T>(pager: Pager<T>, offset: int, calls: nat): Walk<T>
    decreases calls
  {
    if calls == 0 then Unfinished
    else
      match pager(offset)
      case Err(e) => Failed(e)
      case Ok(page) =>
        if page.next.None? then Finished(page.items)
        else
          match Follow(pager, page.next.value, calls - 1)
          case Finished(rest) => Finished(page.items + rest)
          case other => other
  }

  /** Every item, exactly once and in order, after finitely many calls. */
  ghost predicate Complete<T>(pager: Pager<T>, list: seq<T>) {
    exists calls: nat :: Follow(pager, 0, calls) == Finished(list)
  }

  function Window<T>(list: seq<T>, size: int, offset: nat): Page<T>
    requires 1 <= size && offset <= |list|
  {
    if size < |list| - offset then Page(list[offset..offset + size], Some(offset + size))
    else Page(list[offset..], None)
  }

  /** The pages of a working pager. */
  ghost predicate Windows<T>(pager: Pager<T>, list: seq<T>, size: int) {
    1 <= size && forall offset | 0 <= offset <= |list| :: pager(offset) == Ok(Window(list, size, offset))
  }

  lemma {:induction false} FollowsAll<T>(pager: Pager<T>, list: seq<T>, size: int, offset: nat)
    requires offset <= |list| && Windows(pager, list, size)
    ensures Follow(pager, offset, |list| - offset + 1) == Finished(list[offset..])
    decreases |list| - offset
  {
    if size < |list| - offset {
      FollowsAll(pager, list, size, offset + size);
      MoreCalls(pager, offset + size, |list| - offset - size + 1, |list| - offset);
      assert list[offset..] == list[offset..offset + size] + list[offset + size..];
    }
  }

  /** Once the walk ended, more calls change nothing: at most one outcome. */
  lemma {:induction false} MoreCalls<T>(pager: Pager<T>, offset: int, calls: nat, more: nat)
    requires calls <= more && Follow(pager, offset, calls) != Unfinished
    ensures Follow(pager, offset, more) == Follow(pager, offset, calls)
    decreases calls
  {
    var p := pager(offset);
    if p.Ok? && p.value.next.Some? {
      MoreCalls(pager, p.value.next.value, calls - 1, more - 1);
    }
  }

  /** A pager that points back to where it was called never finishes. */
  lemma {:induction false} Stuck<T>(pager: Pager<T>, offset: int, calls: nat)
    requires pager(offset).Ok? && pager(offset).value.next == Some(offset)
    ensures Follow(pager, offset, calls) == Unfinished
    decreases calls
  {
    if calls > 0 {
      Stuck(pager, offset, calls - 1);
    }
  }

  // ----- The listings of the admin and config stores -----

  lemma ListWindows<T>(list: seq<T>, maxPageSize: nat, limit: Option<int>)
    requires maxPageSize < U64 && |list| <= I64_MAX
    requires limit.Some? ==> 0 < limit.value
    requires 1 <= Effective(maxPageSize, limit) < I64_MAX
    ensures Windows(ListPager(list, maxPageSize, limit), list, Effective(maxPageSize, limit))
  {
    var size := Effective(maxPageSize, limit);
    hide AsUsize;
    forall offset | 0 <= offset <= |list|
      ensures ListPage(list, maxPageSize, limit, offset) == Ok(Window(list, size, offset))
    {
      SmallCasts(size);
      SmallCasts(size + 1);
      assert size < |list| - offset ==> AsI64(offset + size) == offset + size;
      if size < |list| - offset {
        assert list[offset..][..size] == list[offset..offset + size];
        assert size + 1 < |list| - offset ==> list[offset..offset + size + 1][..size] == list[offset..offset + size];
      }
    }
  }

  /** The first page when the limit does not work. */
  lemma BadFirstPage<T>(list: seq<T>, maxPageSize: nat, limit: Option<int>)
    requires maxPageSize < U64
    requires limit.Some? ==> IsI64(limit.value)
    requires !(1 <= Effective(maxPageSize, limit) < I64_MAX)
    ensures var size, page := Effective(maxPageSize, limit), ListPage(list, maxPageSize, limit, 0);
            if limit.Some? && 0 < limit.value && size == 0 then
              page == Ok(Page([], if list == [] then None else Some(0)))
            else if limit.Some? && 0 < limit.value && size == -1 then page == Ok(Page([], None))
            else page.Err?
  {
    var size := Effective(maxPageSize, limit);
    CastsBack(size);
    hide AsI64, AsUsize;
  }

  /**
   Following `next_offset` lists everything exactly when the limit, capped by the page size
   as an `i64`, is positive and leaves room for the extra row; an empty list also survives a
   cap of 0 or one that the cast makes -1.
   */
  lemma ListComplete<T>(list: seq<T>, maxPageSize: nat, limit: Option<int>)
    requires maxPageSize < U64 && |list| <= I64_MAX
    requires limit.Some? ==> IsI64(limit.value)
    ensures Complete(ListPager(list, maxPageSize, limit), list) <==>
            var size := Effective(maxPageSize, limit);
            || 1 <= size < I64_MAX
            || (list == [] && limit.Some? && 0 < limit.value && -1 <= size <= 0)
  {
    hide ListPage, AsI64;
    var pager, size := ListPager(list, maxPageSize, limit), Effective(maxPageSize, limit);
    if 1 <= size < I64_MAX {
      ListWindows(list, maxPageSize, limit);
      FollowsAll(pager, list, size, 0);
      assert list[0..] == list;
    } else {
      BadFirstPage(list, maxPageSize, limit);
      assert pager(0) == ListPage(list, maxPageSize, limit, 0);
      if pager(0).Ok? && pager(0).value.next == Some(0) {
        forall calls: nat
          ensures Follow(pager, 0, calls) == Unfinished
        {
          Stuck(pager, 0, calls);
        }
      } else {
        OneOutcome(pager, list);
      }
    }
  }

  lemma OneOutcome<T>(pager: Pager<T>, list: seq<T>)
    requires Follow(pager, 0, 1) != Unfinished
    ensures Complete(pager, list) <==> Follow(pager, 0, 1) == Finished(list)
  {
  }

  /** A walk whose second call fails. */
  lemma FailsLater<T>(pager: Pager<T>, list: seq<T>, next: int)
    requires pager(0).Ok? && pager(0).value.next == Some(next) && pager(next).Err?
    ensures !Complete(pager, list)
  {
    assert Follow(pager, next, 1).Failed?;
    assert Follow(pager, 0, 2).Failed?;
    forall calls: nat
      ensures !Follow(pager, 0, calls).Finished?
    {
      if calls >= 2 {
        MoreCalls(pager, 0, 2, calls);
      }
    }
  }

  // ----- The dead-letter listing -----

  lemma DlqWindows<T>(list: seq<T>, maxBatchSize: int, limit: int)
    requires 1 <= maxBatchSize < 0x8000_0000 && |list| <= I64_MAX && 0 <= limit
    ensures Windows(DlqPager(list, maxBatchSize, limit), list, PageLimit(maxBatchSize, limit).value)
  {
    var size := PageLimit(maxBatchSize, limit).value;
    forall offset | 0 <= offset <= |list|
      ensures DlqPage(list, maxBatchSize, limit, offset) == Ok(Window(list, size, offset))
    {
      assert AsUsize(size) == size && AsI64(size + 1) == size + 1;
      if size < |list| - offset {
        assert list[offset..][..size] == list[offset..offset + size];
        assert size + 1 < |list| - offset ==> list[offset..offset + size + 1][..size] == list[offset..offset + size];
      }
    }
  }

  /** The first page, and what follows it, when the batch size does not work. */
  lemma DlqBadPages<T>(list: seq<T>, maxBatchSize: int, limit: int)
    requires -0x8000_0000 <= maxBatchSize <= 0 <= limit
    ensures DlqPager(list, maxBatchSize, limit)(0)
            == if maxBatchSize == 0 then Ok(Page([], if list == [] then None else Some(0)))
               else if maxBatchSize == -1 then Ok(Page([], Some(-1)))
               else Err(Database)
    ensures DlqPager(list, maxBatchSize, limit)(-1).Err?
  {
  }

  /**
   The dead-letter listing is complete exactly when `max_batch_size` is positive, or 0 over
   an empty queue. The configuration does not enforce it: with 0 the walk never ends, with a
   negative size it fails.
   */
  lemma DlqComplete<T>(list: seq<T>, maxBatchSize: int, limit: int)
    requires -0x8000_0000 <= maxBatchSize < 0x8000_0000 && |list| <= I64_MAX && 0 <= limit
    ensures Complete(DlqPager(list, maxBatchSize, limit), list) <==>
            1 <= maxBatchSize || (maxBatchSize == 0 && list == [])
  {
    hide DlqPage;
    var pager := DlqPager(list, maxBatchSize, limit);
    if 1 <= maxBatchSize {
      DlqWindows(list, maxBatchSize, limit);
      FollowsAll(pager, list, PageLimit(maxBatchSize, limit).value, 0);
      assert list[0..] == list;
    } else {
      DlqBadPages(list, maxBatchSize, limit);
      if maxBatchSize == 0 && list != [] {
        forall calls: nat
          ensures Follow(pager, 0, calls) == Unfinished
        {
          Stuck(pager, 0, calls);
        }
      } else if maxBatchSize == -1 {
        FailsLater(pager, list, -1);
      } else {
        OneOutcome(pager, list);
      }
    }
  }

  // ----- On the wire -----

  /** `next_offset.unwrap_or_default()`: 0 stands for "no more". */
  function Wire(next: Option<int>): int {
    if next.Some? then next.value else 0
  }

  /** The wire says "no more" exactly when there is no more. */
  predicate Unambiguous<T>(page: Result<Page<T>>) {
    page.Ok? ==> (Wire(page.value.next) == 0 <==> page.value.next.None?)
  }

  /**
   A pager that delivers windows never points past the list, so the addition does not
   overflow, and the 0 on the wire always means the end.
   */
  lemma ZeroMeansTheEnd<T>(pager: Pager<T>, list: seq<T>, size: int, offset: int)
    requires 0 <= offset <= |list| && Windows(pager, list, size)
    ensures pager(offset).Ok? && Unambiguous(pager(offset))
    ensures pager(offset).value.next.Some? ==> offset < pager(offset).value.next.value < |list|
  {
  }

  /** Two ways to read the end of a list of which nothing was shown. */
  lemma ZeroIsAmbiguous<T>(list: seq<T>, limit: int)
    requires list != [] && 0 <= limit
    ensures DlqPage(list, 0, limit, 0) == Ok(Page([], Some(0)))
    ensures DlqPage(list, -1, limit, 1) == Ok(Page([], Some(0)))
  {
  }

  /** The dead-letter listing sends a 0 that is not the end in exactly two situations. */
  lemma DlqUnambiguousIff<T>(list: seq<T>, maxBatchSize: int, limit: int, offset: int)
    requires -0x8000_0000 <= maxBatchSize < 0x8000_0000 && |list| <= I64_MAX
    requires IsI64(limit) && IsI64(offset)
    ensures Unambiguous(DlqPage(list, maxBatchSize, limit, offset)) <==>
            !(0 <= limit && ((maxBatchSize == 0 && offset == 0 && list != []) || (maxBatchSize == -1 && offset == 1)))
  {
    if 0 <= offset && 0 <= limit {
      var size := PageLimit(maxBatchSize, limit).value;
      assert AsI64(size + 1) == size + 1;
      if size == -1 {
        assert AsI64(offset + size) == offset + size;
      } else if 0 <= size && size < |list| - offset {
        SmallCasts(offset + size);
      }
    }
  }

  /** The other listings do so only for a page size of 0, on the first page of a list that is not empty. */
  lemma ListUnambiguousIff<T>(list: seq<T>, maxPageSize: nat, limit: Option<int>, offset: int)
    requires maxPageSize < U64 && |list| <= I64_MAX && IsI64(offset)
    requires limit.Some? ==> IsI64(limit.value)
    ensures Unambiguous(ListPage(list, maxPageSize, limit, offset)) <==>
            !(maxPageSize == 0 && limit.Some? && 0 < limit.value && offset == 0 && list != [])
  {
    var size := Effective(maxPageSize, limit);
    CastsBack(size);
    ZeroCast(maxPageSize);
    if 0 <= offset && 0 <= size < |list| - offset {
      SmallCasts(size);
      SmallCasts(offset + size);
      assert size < I64_MAX ==> AsI64(size + 1) == size + 1;
    }
    hide AsI64, AsUsize;
  }

  /** What a client decodes from the wire: it stops when it reads 0. */
  function WirePager<T>(pager: Pager<T>): Pager<T> {
    offset =>
      match pager(offset)
      case Err(e) => Err(e)
      case Ok(page) => Ok(page.(next := if Wire(page.next) == 0 then None else page.next))
  }

  lemma WireKeepsWindows<T>(pager: Pager<T>, list: seq<T>, size: int)
    requires Windows(pager, list, size)
    ensures Windows(WirePager(pager), list, size)
  {
  }

  /** A client on the wire gets the whole dead-letter queue exactly when a walk over the pages does. */
  lemma DlqWireComplete<T>(list: seq<T>, maxBatchSize: int, limit: int)
    requires -0x8000_0000 <= maxBatchSize < 0x8000_0000 && |list| <= I64_MAX && 0 <= limit
    ensures Complete(WirePager(DlqPager(list, maxBatchSize, limit)), list) <==>
            1 <= maxBatchSize || (maxBatchSize == 0 && list == [])
  {
    hide DlqPage;
    var pager := DlqPager(list, maxBatchSize, limit);
    var wire := WirePager(pager);
    if 1 <= maxBatchSize {
      var size := PageLimit(maxBatchSize, limit).value;
      DlqWindows(list, maxBatchSize, limit);
      WireKeepsWindows(pager, list, size);
      FollowsAll(wire, list, size, 0);
      assert list[0..] == list;
    } else {
      DlqBadPages(list, maxBatchSize, limit);
      if maxBatchSize == -1 {
        FailsLater(wire, list, -1);
      } else {
        OneOutcome(wire, list);
      }
    }
  }

  lemma ListWireComplete<T>(list: seq<T>, maxPageSize: nat, limit: Option<int>)
    requires maxPageSize < U64 && |list| <= I64_MAX
    requires limit.Some? ==> IsI64(limit.value)
    ensures Complete(WirePager(ListPager(list, maxPageSize, limit)), list) <==>
            var size := Effective(maxPageSize, limit);
            || 1 <= size < I64_MAX
            || (list == [] && limit.Some? && 0 < limit.value && -1 <= size <= 0)
  {
    hide ListPage, AsI64;
    var pager, size := ListPager(list, maxPageSize, limit), Effective(maxPageSize, limit);
    var wire := WirePager(pager);
    if 1 <= size < I64_MAX {
      ListWindows(list, maxPageSize, limit);
      WireKeepsWindows(pager, list, size);
      FollowsAll(wire, list, size, 0);
      assert list[0..] == list;
    } else {
      BadFirstPage(list, maxPageSize, limit);
      assert pager(0) == ListPage(list, maxPageSize, limit, 0);
      OneOutcome(wire, list);
    }
  }
}
