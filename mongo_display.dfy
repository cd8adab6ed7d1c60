/** The listings the document-store screens build from a query result, and
    how a typed number picks one entry of a listing.

    Tweet search numbers its results 1..n in a dict and accepts a number
    only if it is a key. The user search and top-tweets screens fill a dict
    from 0 while counting, and the top-users screen fills a list; all three
    then accept any digit string k with k < count + 1 and look up k - 1. */
module Display {
  import opened Text

  /** What a typed selection leads to. `Failed` is the KeyError or
      IndexError the lookup raises; `Back` leaves the screen; `Ignored`
      redisplays it (or reports an invalid selection). */
  datatype Choice<T> = Shown(item: T) | Failed | Back | Ignored

  /** The dict `{0: items[0], 1: items[1], ...}`. */
  function Indexed<T>(items: seq<T>): map<int, T> {
    map k | 0 <= k < |items| :: items[k]
  }

  /** `{i: t for i, t in enumerate(items, start=1)}`. */
  function NumberedFromOne<T>(items: seq<T>): (m: map<int, T>)
    ensures forall k :: k in m <==> 1 <= k <= |items|
    ensures forall k :: 1 <= k <= |items| ==> m[k] == items[k - 1]
  {
    if items == [] then map[]
    else NumberedFromOne(items[..|items| - 1])[|items| := items[|items| - 1]]
  }

  /** The display loop `data = {}; i = 0; for x in items: data[i] = x; i += 1`
      of the user search and top-tweets screens. */
  method NumberFromZero<T>(items: seq<T>) returns (data: map<int, T>, count: nat)
    ensures count == |items|
    ensures forall k :: k in data <==> 0 <= k < |items|
    ensures forall k :: 0 <= k < |items| ==> data[k] == items[k]
    ensures data == Indexed(items)
  {
    data := map[];
    count := 0;
    while count < |items|
      invariant count <= |items|
      invariant forall k :: k in data <==> 0 <= k < count
      invariant forall k :: 0 <= k < count ==> data[k] == items[k]
    {
      data := data[count := items[count]];
      count := count + 1;
    }
  }

  /** The display loop `data = []; i = 0; for x in rows: data.append(x);
      i += 1` of the top-users screen. */
  method CollectRows<T>(rows: seq<T>) returns (data: seq<T>, count: nat)
    ensures count == |data| == |rows|
    ensures forall k :: 0 <= k < |rows| ==> data[k] == rows[k]
  {
    data := [];
    count := 0;
    while count < |rows|
      invariant count <= |rows| && |data| == count
      invariant forall k :: 0 <= k < count ==> data[k] == rows[k]
    {
      data := data + [rows[count]];
      count := count + 1;
    }
  }

  /** Tweet search: `x` in any case goes back; a digit string that is a key
      of the numbered results shows that result; anything else is invalid. */
  function SelectNumbered<T>(data: map<int, T>, input: string): Choice<T> {
    if LowerStr(input) == "x" then Back
    else if IsDigits(input) && ParseNat(input) in data then Shown(data[ParseNat(input)])
    else Ignored
  }

  /** The user search and top-tweets screens as written: a digit string
      below count + 1 is looked up at key k - 1, which is absent for k = 0. */
  function SelectFromDict<T>(data: map<int, T>, count: nat, input: string): Choice<T> {
    if IsDigits(input) && ParseNat(input) < count + 1 then
      if ParseNat(input) - 1 in data then Shown(data[ParseNat(input) - 1]) else Failed
    else if input == "x" then Back
    else Ignored
  }

  /** Python list indexing: a negative index counts from the end. */
  function PyIndex<T>(s: seq<T>, j: int): Choice<T> {
    if 0 <= j < |s| then Shown(s[j])
    else if -|s| <= j < 0 then Shown(s[|s| + j])
    else Failed
  }

  /** The top-users screen as written: the same guard, on a list. */
  function SelectFromList<T>(data: seq<T>, count: nat, input: string): Choice<T> {
    if IsDigits(input) && ParseNat(input) < count + 1 then PyIndex(data, ParseNat(input) - 1)
    else if input == "x" then Back
    else Ignored
  }

  /** The evidently intended selection on a listing numbered 1..n as shown:
      only a number from 1 to n picks an entry. */
  function SelectShown<T>(items: seq<T>, input: string): (c: Choice<T>)
    ensures c.Shown? <==> IsDigits(input) && 1 <= ParseNat(input) <= |items|
    ensures c.Shown? ==> c.item == items[ParseNat(input) - 1]
    ensures c.Back? <==> input == "x"
    ensures !c.Failed?
  {
    if IsDigits(input) && 1 <= ParseNat(input) <= |items| then Shown(items[ParseNat(input) - 1])
    else if input == "x" then Back
    else Ignored
  }

  /** Tweet search selects exactly the entries numbered 1..n, as shown. */
  lemma NumberedSelection<T>(items: seq<T>, input: string)
    requires LowerStr(input) != "x"
    ensures SelectNumbered(NumberedFromOne(items), input) == SelectShown(items, input)
  {
    if |input| == 1 {
      assert LowerStr(input)[0] == Lower(input[0]);
    }
  }

  /** On every digit string but the ones denoting 0, the dict screens pick
      what the listing shows under that number. */
  lemma DictSelectionAgrees<T>(items: seq<T>, input: string)
    requires !(IsDigits(input) && ParseNat(input) == 0)
    ensures SelectFromDict(Indexed(items), |items|, input) == SelectShown(items, input)
  {
  }

  /** The same on the top-users list. */
  lemma ListSelectionAgrees<T>(items: seq<T>, input: string)
    requires !(IsDigits(input) && ParseNat(input) == 0)
    ensures SelectFromList(items, |items|, input) == SelectShown(items, input)
  {
  }

  /** Typing 0 passes the guard: the dict screens then raise a KeyError,
      and the top-users screen shows its last row (or raises an IndexError
      on an empty list), while the listing offers no entry 0. */
  lemma ZeroSlipsThrough<T>(items: seq<T>)
    ensures SelectFromDict(Indexed(items), |items|, "0") == Failed
    ensures |items| > 0 ==> SelectFromList(items, |items|, "0") == Shown(items[|items| - 1])
    ensures |items| == 0 ==> SelectFromList(items, |items|, "0") == Failed
    ensures SelectShown(items, "0") == Ignored
  {
    assert IsDigits("0") && ParseNat("0") == 0;
  }
}
