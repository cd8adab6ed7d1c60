/** The page cursor of the browsing loops: a 1-based page number that the
    keys N and P move, and the OFFSET it turns into. */
module Paging {
  import opened Seqs

  /** OFFSET of page `page` when a page holds `size` rows. */
  function Offset(page: int, size: nat): (o: int)
    ensures page >= 1 ==> o >= 0
    ensures page < 1 && size > 0 ==> o < 0
    ensures o + size == page * size
  {
    (page - 1) * size
  }

  /** What a keystroke does to the cursor; every other key leaves it alone. */
  datatype Key = Next | Prev | Other

  /** The cursor of the timeline, a follower's tweets and the user search:
      P decrements with no floor. */
  function StepFree(page: int, key: Key): (p: int)
    ensures key == Next ==> p == page + 1
    ensures key == Prev ==> p == page - 1
    ensures key == Other ==> p == page
  {
    match key
    case Next => page + 1
    case Prev => page - 1
    case Other => page
  }

  /** The cursor of the tweet search: P on page 1 is refused. */
  function StepFloored(page: int, key: Key): (p: int)
    ensures page >= 1 ==> p >= 1
    ensures key == Prev && page == 1 ==> p == 1
    ensures key != Prev || page != 1 ==> p == StepFree(page, key)
  {
    if key == Prev && page == 1 then page else StepFree(page, key)
  }

  /** Without the floor, N undoes P and P undoes N on every page; with the
      floor, P then N from page 1 ends on page 2, not back on page 1. */
  lemma FreeStepsCancel(page: int)
    ensures StepFree(StepFree(page, Prev), Next) == page
    ensures StepFree(StepFree(page, Next), Prev) == page
    ensures StepFloored(StepFloored(1, Prev), Next) == 2
  {
  }

  /** The page reached after a run of keystrokes. */
  function Walk(page: int, keys: seq<Key>, floored: bool): int
    decreases |keys|
  {
    if keys == [] then page
    else Walk(if floored then StepFloored(page, keys[0]) else StepFree(page, keys[0]), keys[1..], floored)
  }

  function Tally(keys: seq<Key>, k: Key): nat {
    if keys == [] then 0 else (if keys[0] == k then 1 else 0) + Tally(keys[1..], k)
  }

  /** Without a floor the cursor is the start page plus the N presses minus
      the P presses, whatever their order. */
  lemma {:induction false} WalkFreeIsNetCount(page: int, keys: seq<Key>)
    ensures Walk(page, keys, false) == page + Tally(keys, Next) - Tally(keys, Prev)
    decreases |keys|
  {
    if keys != [] {
      WalkFreeIsNetCount(StepFree(page, keys[0]), keys[1..]);
    }
  }

  /** With the floor, a cursor that starts on a page never leaves the pages,
      so its OFFSET is never negative. */
  lemma {:induction false} WalkFlooredStaysOnPages(page: int, keys: seq<Key>, size: nat)
    requires page >= 1
    ensures Walk(page, keys, true) >= 1
    ensures Offset(Walk(page, keys, true), size) >= 0
    decreases |keys|
  {
    if keys != [] {
      WalkFlooredStaysOnPages(StepFloored(page, keys[0]), keys[1..], size);
    }
  }

  /** The floor only ever holds the cursor higher than the free cursor. */
  lemma {:induction false} WalkFlooredAtLeastFree(page: int, keys: seq<Key>)
    ensures Walk(page, keys, true) >= Walk(page, keys, false)
    decreases |keys|
  {
    if keys != [] {
      var fl, fr := StepFloored(page, keys[0]), StepFree(page, keys[0]);
      WalkFlooredAtLeastFree(fl, keys[1..]);
      WalkFreeIsNetCount(fl, keys[1..]);
      WalkFreeIsNetCount(fr, keys[1..]);
    }
  }

  /** Every page at or before the first shows the first page's rows: SQLite
      reads a negative OFFSET as zero. */
  lemma PagesBeforeFirstShowFirst<T(!new)>(rows: seq<T>, size: nat, page: int)
    requires page <= 1
    ensures Window(rows, size, Offset(page, size)) == Window(rows, size, Offset(1, size))
  {
  }

  /** The free cursor drifts below page 1: from page 1, P then N brings the
      first page back instead of the second, which the floored cursor shows. */
  lemma {:induction false} FreeCursorDrifts<T(!new)>(rows: seq<T>, size: nat)
    requires size > 0 && |rows| > size && NoDups(rows)
    ensures Walk(1, [Prev], false) == 0 && Offset(0, size) < 0
    ensures Window(rows, size, Offset(Walk(1, [Prev, Next], false), size)) == Window(rows, size, Offset(1, size))
    ensures Window(rows, size, Offset(Walk(1, [Prev, Next], true), size)) == Window(rows, size, Offset(2, size))
    ensures Window(rows, size, Offset(1, size)) != Window(rows, size, Offset(2, size))
  {
    assert [Prev][1..] == [] && [Prev, Next][1..] == [Next] && [Next][1..] == [];
    assert Walk(1, [Prev], false) == Walk(0, [], false) == 0;
    assert Walk(1, [Prev, Next], false) == Walk(0, [Next], false) == Walk(1, [], false) == 1;
    assert Walk(1, [Prev, Next], true) == Walk(1, [Next], true) == Walk(2, [], true) == 2;
    assert Offset(0, size) == -(size as int) && Offset(1, size) == 0 && Offset(2, size) == size;
    var first, second := Window(rows, size, 0), Window(rows, size, size);
    assert first[0] == rows[0] && second[0] == rows[size];
    assert rows[0] != rows[size] by {
      assert rows == rows[..size] + [rows[size]] + rows[size + 1..];
      assert rows[0] in rows[..size];
      assert multiset(rows)[rows[size]] == 1;
    }
  }
}
