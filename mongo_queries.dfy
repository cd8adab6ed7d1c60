/** The queries of the document-store client: the keyword search over tweet
    content, the whole-word user search with its dedup by username, the top
    tweets by a counter, and the top-users aggregation pipeline. Keywords
    are taken literally (no regular-expression metacharacters) and letters
    compare up to ASCII case. */
module DocQueries {
  import opened Wrappers
  import opened Seqs
  import opened Text
  import opened Docs

  // ------------------------------------------------------------ tweet search

  /** The longest prefix of `s` without whitespace. */
  function NonSpaceRun(s: string): (w: string)
    ensures |w| <= |s| && w == s[..|w|]
    ensures forall i :: 0 <= i < |w| ==> !IsSpace(w[i])
    ensures |w| < |s| ==> IsSpace(s[|w|])
  {
    if s == [] || IsSpace(s[0]) then []
    else
      var rest := NonSpaceRun(s[1..]);
      assert s[1..][..|rest|] == s[1..|rest| + 1];
      [s[0]] + rest
  }

  /** `user_input.split()`: the maximal runs of non-whitespace, in order. */
  function SplitWords(s: string): (ws: seq<string>)
    ensures forall k :: 0 <= k < |ws| ==> |ws[k]| > 0
    ensures forall k, i :: 0 <= k < |ws| && 0 <= i < |ws[k]| ==> !IsSpace(ws[k][i])
    ensures ws == [] <==> forall i :: 0 <= i < |s| ==> IsSpace(s[i])
    ensures s != [] && (forall i :: 0 <= i < |s| ==> !IsSpace(s[i])) ==> ws == [s]
    decreases |s|
  {
    if s == [] then []
    else if IsSpace(s[0]) then
      assert forall i :: 0 < i < |s| ==> s[i] == s[1..][i - 1];
      SplitWords(s[1..])
    else
      var w := NonSpaceRun(s);
      assert (forall i :: 0 <= i < |s| ==> !IsSpace(s[i])) ==> |w| == |s| && w == s && s[|w|..] == [];
      [w] + SplitWords(s[|w|..])
  }

  /** Any string that starts `s`, has no whitespace, and runs to the end of
      `s` or up to a whitespace character is the run NonSpaceRun takes. */
  lemma RunUnique(s: string, w: string)
    requires |w| <= |s| && w == s[..|w|]
    requires forall i :: 0 <= i < |w| ==> !IsSpace(w[i])
    requires |w| < |s| ==> IsSpace(s[|w|])
    ensures NonSpaceRun(s) == w
  {
  }

  /** Cutting `s` anywhere at or after the end of its first run leaves
      that run in place. */
  lemma RunOfPrefix(s: string, j: nat)
    requires |NonSpaceRun(s)| <= j <= |s|
    ensures NonSpaceRun(s[..j]) == NonSpaceRun(s)
  {
    var w := NonSpaceRun(s);
    assert s[..j][..|w|] == w;
    if |w| < j {
      assert s[..j][|w|] == s[|w|];
    }
    RunUnique(s[..j], w);
  }

  /** A leading whitespace character separates nothing. */
  lemma SplitSpaceHead(s: string)
    requires s != [] && IsSpace(s[0])
    ensures SplitWords(s) == SplitWords(s[1..])
  {
  }

  /** A leading word is the first run. */
  lemma SplitWordHead(s: string)
    requires s != [] && !IsSpace(s[0])
    ensures SplitWords(s) == [NonSpaceRun(s)] + SplitWords(s[|NonSpaceRun(s)|..])
  {
  }

  /** `split()` separates at every whitespace character: the words of `s`
      are the words before it followed by the words after it. With the
      all-whitespace and single-word clauses of SplitWords this fixes the
      words of every input. */
  lemma {:induction false} SplitAtSpace(s: string, i: nat)
    requires i < |s| && IsSpace(s[i])
    ensures SplitWords(s) == SplitWords(s[..i]) + SplitWords(s[i + 1..])
    decreases |s|
  {
    if IsSpace(s[0]) {
      SplitSpaceHead(s);
      if i == 0 {
        assert s[..0] == [];
      } else {
        SplitAtSpaceAfterSpace(s, i);
      }
    } else {
      SplitAtSpaceAfterWord(s, i);
    }
  }

  lemma {:induction false} SplitAtSpaceAfterSpace(s: string, i: nat)
    requires 0 < i < |s| && IsSpace(s[i]) && IsSpace(s[0])
    ensures SplitWords(s) == SplitWords(s[..i]) + SplitWords(s[i + 1..])
    decreases |s|, 0
  {
    var t, p := s[1..], s[..i];
    SplitAtSpace(t, i - 1);
    assert t[..i - 1] == p[1..] && t[i..] == s[i + 1..];
    SplitSpaceHead(s);
    SplitSpaceHead(p);
  }

  lemma {:induction false} SplitAtSpaceAfterWord(s: string, i: nat)
    requires i < |s| && IsSpace(s[i]) && !IsSpace(s[0])
    ensures SplitWords(s) == SplitWords(s[..i]) + SplitWords(s[i + 1..])
    decreases |s|, 1
  {
    var w := NonSpaceRun(s);
    WordBeforeSpace(s, i);
    SplitWordHead(s);
    SplitAfterFirstWord(s, i);
    SeqAssoc([w], SplitWords(s[|w|..i]), SplitWords(s[i + 1..]));
  }

  lemma SeqAssoc(a: seq<string>, b: seq<string>, c: seq<string>)
    ensures a + (b + c) == (a + b) + c
  {
  }

  /** The first word of `s` ends at or before the whitespace at `i`, and is
      also the first word of `s[..i]`. */
  lemma WordBeforeSpace(s: string, i: nat)
    requires i < |s| && IsSpace(s[i]) && !IsSpace(s[0])
    ensures |NonSpaceRun(s)| <= i
    ensures SplitWords(s[..i]) == [NonSpaceRun(s)] + SplitWords(s[|NonSpaceRun(s)|..i])
  {
    var w := NonSpaceRun(s);
    var p := s[..i];
    RunOfPrefix(s, i);
    SplitWordHead(p);
    assert p[|w|..] == s[|w|..i];
  }

  /** Past the first word, the split still separates at `i`. */
  lemma {:induction false} SplitAfterFirstWord(s: string, i: nat)
    requires i < |s| && IsSpace(s[i]) && |NonSpaceRun(s)| <= i
    requires !IsSpace(s[0])
    ensures SplitWords(s[|NonSpaceRun(s)|..]) == SplitWords(s[|NonSpaceRun(s)|..i]) + SplitWords(s[i + 1..])
    decreases |s|, 0
  {
    var n := |NonSpaceRun(s)|;
    SuffixSlices(s, n, i);
    SplitAtSpace(s[n..], i - n);
  }

  /** Slicing a suffix of `s` is slicing `s` itself. */
  lemma SuffixSlices(s: string, n: nat, i: nat)
    requires n <= i < |s|
    ensures s[n..][i - n] == s[i]
    ensures s[n..][..i - n] == s[n..i]
    ensures s[n..][i - n + 1..] == s[i + 1..]
  {
  }

  lemma ContainsCIShift(s: string, j: nat, x: string)
    requires j <= |s| && ContainsCI(s[j..], x)
    ensures ContainsCI(s, x)
  {
    var i :| 0 <= i <= |s[j..]| - |x| && OccursAt(s[j..], x, i);
    assert s[j..][i..i + |x|] == s[i + j..i + j + |x|];
    assert OccursAt(s, x, i + j);
  }

  /** Every keyword the split yields occurs in the input. */
  lemma {:induction false} SplitWordsOccur(s: string)
    ensures forall k :: 0 <= k < |SplitWords(s)| ==> ContainsCI(s, SplitWords(s)[k])
    decreases |s|
  {
    if s != [] {
      if IsSpace(s[0]) {
        SplitWordsOccur(s[1..]);
        forall k | 0 <= k < |SplitWords(s)| ensures ContainsCI(s, SplitWords(s)[k]) {
          ContainsCIShift(s, 1, SplitWords(s)[k]);
        }
      } else {
        var w := NonSpaceRun(s);
        SplitWordsOccur(s[|w|..]);
        forall k | 0 <= k < |SplitWords(s)| ensures ContainsCI(s, SplitWords(s)[k]) {
          if k == 0 {
            SliceOccurs(s, 0, |w|);
          } else {
            ContainsCIShift(s, |w|, SplitWords(s)[k]);
          }
        }
      }
    }
  }

  /** A keyword in which no character has a meaning in a regular
      expression, so that `$regex` matches it as plain text. */
  predicate NoRegexMeta(kw: string) {
    forall i :: 0 <= i < |kw| ==> kw[i] !in ".^$*+?()[]{}|\\"
  }

  /** `{"$and": [{"content": {"$regex": kw, "$options": "i"}} ...]}`, for
      keywords read literally. */
  predicate MatchesAll(keywords: seq<string>, d: TweetDoc) {
    forall k | 0 <= k < |keywords| :: ContainsCI(d.content, keywords[k])
  }

  function AllFilter(keywords: seq<string>): TweetDoc -> bool {
    d => MatchesAll(keywords, d)
  }

  /** `find(query)`, taken to return the documents in collection order. */
  function FindByKeywords(docs: seq<TweetDoc>, keywords: seq<string>): seq<TweetDoc> {
    Filter(docs, AllFilter(keywords))
  }

  /** What one line of search input leads to: leaving the screen, asking
      again (no keyword, so no query), or the documents found. */
  datatype TweetSearch = Leave | Reprompt | Found(tweets: seq<TweetDoc>)

  /** The line that leaves the search: `x` in either case once stripped. */
  predicate IsExitLine(input: string) {
    LowerStr(Strip(input)) == "x"
  }

  /** One line of search input, tested for the exit before it is split. */
  function SearchTweets(docs: seq<TweetDoc>, input: string): TweetSearch {
    var keywords := SplitWords(input);
    if IsExitLine(input) then Leave
    else if keywords == [] then Reprompt
    else Found(FindByKeywords(docs, keywords))
  }

  /** The exit line leaves; a whitespace-only line asks again; any other
      line finds exactly the documents whose content contains every
      keyword, ignoring case, each as often as it is stored. */
  lemma SearchTweetsSpec(docs: seq<TweetDoc>, input: string)
    ensures SearchTweets(docs, input).Leave? <==> IsExitLine(input)
    ensures SearchTweets(docs, input).Reprompt? <==> forall i :: 0 <= i < |input| ==> IsSpace(input[i])
    ensures SearchTweets(docs, input).Found? ==>
              forall d :: d in SearchTweets(docs, input).tweets <==> d in docs && MatchesAll(SplitWords(input), d)
    ensures SearchTweets(docs, input).Found? ==>
              forall d :: d in SearchTweets(docs, input).tweets ==>
                multiset(SearchTweets(docs, input).tweets)[d] == multiset(docs)[d]
  {
    if forall i :: 0 <= i < |input| ==> IsSpace(input[i]) {
      assert Strip(input) == [];
    }
  }

  /** `X` with blanks around it leaves the search. */
  lemma PaddedExitLeaves(docs: seq<TweetDoc>)
    ensures SearchTweets(docs, " X ") == Leave
  {
    var t := TrimLeft(" X ");
    assert t == "X " by {
      assert " X "[1..] == "X ";
    }
    assert TrimRight(t) == "X" by {
      assert t[..1] == "X";
    }
    assert LowerStr("X") == "x" by {
      assert LowerStr("X")[0] == Lower('X');
    }
  }

  /** `x` among other words is a keyword like any other. */
  lemma ExitAmongWordsSearches()
    ensures !IsExitLine("x y")
  {
    assert TrimLeft("x y") == "x y";
    assert TrimRight("x y") == "x y";
  }

  /** Adding keywords can only narrow the search. */
  lemma MoreKeywordsNarrow(docs: seq<TweetDoc>, keywords: seq<string>, more: seq<string>)
    requires forall k :: 0 <= k < |keywords| ==> keywords[k] in more
    ensures forall d :: d in FindByKeywords(docs, more) ==> d in FindByKeywords(docs, keywords)
  {
    forall d | d in FindByKeywords(docs, more) ensures MatchesAll(keywords, d) {
      forall k | 0 <= k < |keywords| ensures ContainsCI(d.content, keywords[k]) {
        var j :| 0 <= j < |more| && more[j] == keywords[k];
      }
    }
  }

  // ------------------------------------------------------------- user search

  predicate WordAt(s: string, p: int) {
    0 <= p < |s| && IsWordChar(s[p])
  }

  /** `\b` at position `p`: exactly one of the characters on either side is
      a word character (the ends of the string count as non-word). */
  predicate Boundary(s: string, p: int) {
    WordAt(s, p - 1) != WordAt(s, p)
  }

  predicate WholeWordAt(s: string, kw: string, i: int) {
    OccursAt(s, kw, i) && Boundary(s, i) && Boundary(s, i + |kw|)
  }

  /** `\bkw\b` with option i finds a match in `s`. */
  predicate WholeWordCI(s: string, kw: string) {
    exists i | 0 <= i <= |s| - |kw| :: WholeWordAt(s, kw, i)
  }

  /** A `$regex` condition on a field that may be null: null never matches. */
  predicate FieldMatches(field: Option<string>, kw: string) {
    field.Some? && WholeWordCI(field.value, kw)
  }

  /** The `$or` of the user search. */
  predicate UserMatches(kw: string, d: TweetDoc) {
    FieldMatches(d.user.displayname, kw) || FieldMatches(d.user.location, kw)
  }

  function UserFilter(kw: string): TweetDoc -> bool {
    d => UserMatches(kw, d)
  }

  /** A whole-word match is in particular a substring match. */
  lemma WholeWordIsContains(s: string, kw: string)
    requires WholeWordCI(s, kw)
    ensures ContainsCI(s, kw)
  {
  }

  /** The keyword must be a whole word: `EDMONTON` finds `Edmonton, Alberta`
      but `edm` does not find `Edmonton`. */
  lemma WholeWordExamples()
    ensures WholeWordCI("Edmonton, Alberta", "EDMONTON")
    ensures !WholeWordCI("Edmonton", "edm")
  {
    var s := "Edmonton, Alberta";
    assert s[0..8] == "Edmonton";
    assert s[8] == ',';
    assert WholeWordAt(s, "EDMONTON", 0);
    forall i | 0 <= i <= |"Edmonton"| - |"edm"| ensures !WholeWordAt("Edmonton", "edm", i) {
      if i == 0 {
        assert "Edmonton"[3] == 'o';
        assert WordAt("Edmonton", 3) && WordAt("Edmonton", 2);
      } else {
        assert WordAt("Edmonton", i - 1) && WordAt("Edmonton", i);
      }
    }
  }

  function Profiles(docs: seq<TweetDoc>): (us: seq<UserDoc>)
    ensures |us| == |docs|
    ensures forall i :: 0 <= i < |docs| ==> us[i] == docs[i].user
  {
    seq(|docs|, i requires 0 <= i < |docs| => docs[i].user)
  }

  function Names(users: seq<UserDoc>): (ns: seq<string>)
    ensures |ns| == |users|
    ensures forall i :: 0 <= i < |users| ==> ns[i] == users[i].username
  {
    seq(|users|, i requires 0 <= i < |users| => users[i].username)
  }

  /** `d[u["username"]] = u` on a dict held as its values in insertion order:
      an existing key keeps its place and takes the new value, a new key
      goes last. */
  function Put(entries: seq<UserDoc>, u: UserDoc): seq<UserDoc> {
    if entries == [] then [u]
    else if entries[0].username == u.username then [u] + entries[1..]
    else [entries[0]] + Put(entries[1..], u)
  }

  /** `{user["user"]["username"]: user["user"] for user in found}.values()`. */
  function UserDict(users: seq<UserDoc>): seq<UserDoc>
    decreases |users|
  {
    if users == [] then []
    else Put(UserDict(users[..|users| - 1]), users[|users| - 1])
  }

  /** The users the search shows: one per username among the matches. */
  function FoundUsers(docs: seq<TweetDoc>, kw: string): seq<UserDoc> {
    UserDict(Profiles(Filter(docs, UserFilter(kw))))
  }

  /** `u` is the last profile in `users` carrying its username. */
  predicate IsLastOf(users: seq<UserDoc>, u: UserDoc) {
    exists i | 0 <= i < |users| :: users[i] == u && forall j | i < j < |users| :: users[j].username != u.username
  }

  lemma {:induction false} PutNames(entries: seq<UserDoc>, u: UserDoc)
    ensures Names(Put(entries, u)) == if u.username in Names(entries) then Names(entries) else Names(entries) + [u.username]
  {
    if entries != [] {
      var rest := entries[1..];
      NamesCons(entries[0], rest);
      assert entries == [entries[0]] + rest;
      if entries[0].username == u.username {
        NamesCons(u, rest);
      } else {
        PutNames(rest, u);
        NamesCons(entries[0], Put(rest, u));
        assert u.username in Names(entries) <==> u.username in Names(rest);
        if u.username !in Names(rest) {
          assert [entries[0].username] + (Names(rest) + [u.username]) == ([entries[0].username] + Names(rest)) + [u.username];
        }
      }
    }
  }

  lemma NamesCons(x: UserDoc, rest: seq<UserDoc>)
    ensures Names([x] + rest) == [x.username] + Names(rest)
  {
  }

  /** No two entries share a username: the keys of a dict. */
  predicate DistinctNames(entries: seq<UserDoc>) {
    forall i, j :: 0 <= i < j < |entries| ==> entries[i].username != entries[j].username
  }

  lemma DistinctNamesFromNoDups(entries: seq<UserDoc>)
    requires NoDups(Names(entries))
    ensures DistinctNames(entries)
  {
    NoDupsIndices(Names(entries));
  }

  lemma {:induction false} PutMembers(entries: seq<UserDoc>, u: UserDoc)
    requires DistinctNames(entries)
    ensures forall x :: x in Put(entries, u) ==> x == u || (x in entries && x.username != u.username)
  {
    if entries != [] {
      if entries[0].username == u.username {
        forall x | x in entries[1..] ensures x.username != u.username {
          var i :| 0 <= i < |entries[1..]| && entries[1..][i] == x;
          assert entries[i + 1] == x;
        }
      } else {
        PutMembers(entries[1..], u);
      }
    }
  }

  /** The dict's values run in order of each username's first appearance,
      one per username. */
  lemma {:induction false} UserDictNames(users: seq<UserDoc>)
    ensures Names(UserDict(users)) == Dedup(Names(users))
    decreases |users|
  {
    if users != [] {
      var init, last := users[..|users| - 1], users[|users| - 1];
      UserDictNames(init);
      assert Names(users)[..|users| - 1] == Names(init);
      PutNames(UserDict(init), last);
    }
  }

  lemma IsLastOfSnoc(init: seq<UserDoc>, last: UserDoc, x: UserDoc)
    requires x == last || (IsLastOf(init, x) && x.username != last.username)
    ensures IsLastOf(init + [last], x)
  {
    var users := init + [last];
    if x == last {
      assert users[|init|] == x;
    } else {
      var i :| 0 <= i < |init| && init[i] == x && forall j | i < j < |init| :: init[j].username != x.username;
      assert users[i] == x;
      forall j | i < j < |users| ensures users[j].username != x.username {
        if j < |init| {
          assert users[j] == init[j];
        }
      }
    }
  }

  /** Each value of the dict is the last profile seen with its username. */
  lemma {:induction false} UserDictLast(users: seq<UserDoc>)
    ensures forall k :: 0 <= k < |UserDict(users)| ==> IsLastOf(users, UserDict(users)[k])
    decreases |users|
  {
    if users != [] {
      var init, last := users[..|users| - 1], users[|users| - 1];
      assert users == init + [last];
      UserDictLast(init);
      var r0 := UserDict(init);
      UserDictNames(init);
      DistinctNamesFromNoDups(r0);
      PutMembers(r0, last);
      var r := UserDict(users);
      assert r == Put(r0, last);
      forall k | 0 <= k < |r| ensures IsLastOf(users, r[k]) {
        var x := r[k];
        assert x in r;
        if x != last {
          var k0 :| 0 <= k0 < |r0| && r0[k0] == x;
        }
        IsLastOfSnoc(init, last, x);
      }
    }
  }

  lemma NamesOfProfiles(docs: seq<TweetDoc>, n: string)
    ensures n in Names(Profiles(docs)) <==> exists d :: d in docs && d.user.username == n
  {
    if n in Names(Profiles(docs)) {
      var i :| 0 <= i < |docs| && Names(Profiles(docs))[i] == n;
      assert docs[i] in docs;
    }
    if exists d :: d in docs && d.user.username == n {
      var d :| d in docs && d.user.username == n;
      var i :| 0 <= i < |docs| && docs[i] == d;
      assert Names(Profiles(docs))[i] == n;
    }
  }

  /** The user search shows every matching username exactly once. */
  lemma FoundUsersNames(docs: seq<TweetDoc>, kw: string)
    ensures NoDups(Names(FoundUsers(docs, kw)))
    ensures forall n :: n in Names(FoundUsers(docs, kw)) <==>
              exists d :: d in docs && UserMatches(kw, d) && d.user.username == n
  {
    var found := Filter(docs, UserFilter(kw));
    UserDictNames(Profiles(found));
    forall n ensures n in Names(FoundUsers(docs, kw)) <==> exists d :: d in found && d.user.username == n {
      NamesOfProfiles(found, n);
    }
  }

  /** Each user shown is the profile of a matching document, the last one
      found with that username. */
  lemma FoundUsersFrom(docs: seq<TweetDoc>, kw: string)
    ensures forall u :: u in FoundUsers(docs, kw) ==>
              IsLastOf(Profiles(Filter(docs, UserFilter(kw))), u) &&
              exists d :: d in docs && UserMatches(kw, d) && d.user == u
  {
    var found := Filter(docs, UserFilter(kw));
    var ps := Profiles(found);
    UserDictLast(ps);
    var r := FoundUsers(docs, kw);
    forall u | u in r ensures IsLastOf(ps, u) && exists d :: d in docs && UserMatches(kw, d) && d.user == u {
      var k :| 0 <= k < |r| && r[k] == u;
      assert IsLastOf(ps, u);
      var i :| 0 <= i < |ps| && ps[i] == u && forall j | i < j < |ps| :: ps[j].username != u.username;
      assert found[i] in found;
    }
  }

  // -------------------------------------------------------------- top tweets

  /** Descending order with null last: a value with counter `a` may be
      listed before one with counter `b`. */
  predicate AtLeast(a: Option<int>, b: Option<int>) {
    b.None? || (a.Some? && a.value >= b.value)
  }

  predicate ByCounter(c: Counter, x: TweetDoc, y: TweetDoc) {
    AtLeast(CounterOf(x, c), CounterOf(y, c))
  }

  function CounterOrder(c: Counter): (TweetDoc, TweetDoc) -> bool {
    (x, y) => ByCounter(c, x, y)
  }

  lemma CounterOrderIsPreorder(c: Counter)
    ensures TotalPreorder(CounterOrder(c))
  {
  }

  /** `find({}).sort(criteria, DESCENDING).limit(n)`; `limit(0)` sets no limit. */
  function TopTweets(docs: seq<TweetDoc>, c: Counter, n: nat): seq<TweetDoc> {
    var sorted := Sort(docs, CounterOrder(c));
    if n == 0 then sorted else Window(sorted, n, 0)
  }

  /** A prefix of a sorted sequence dominates the rest. */
  lemma PrefixDominates<T(!new)>(s: seq<T>, m: nat, le: (T, T) -> bool)
    requires m <= |s| && Sorted(s, le)
    ensures forall x, y :: x in s[..m] && y in multiset(s) - multiset(s[..m]) ==> le(x, y)
  {
    assert s == s[..m] + s[m..];
    assert multiset(s) - multiset(s[..m]) == multiset(s[m..]);
    forall x, y | x in s[..m] && y in multiset(s) - multiset(s[..m]) ensures le(x, y) {
      var i :| 0 <= i < m && s[..m][i] == x;
      assert y in s[m..];
      var j :| 0 <= j < |s[m..]| && s[m..][j] == y;
      assert s[i] == x && s[m + j] == y;
    }
  }

  /** The first n rows of a sort (n > 0): as many as there are, up to n,
      in order, drawn from the input, and ranked no lower than any row left
      out. */
  lemma SortedPrefix<T(!new)>(g: seq<T>, le: (T, T) -> bool, n: nat)
    requires TotalPreorder(le) && n > 0
    ensures |Window(Sort(g, le), n, 0)| == Min(n, |g|)
    ensures forall i, j :: 0 <= i < j < |Window(Sort(g, le), n, 0)| ==>
              le(Window(Sort(g, le), n, 0)[i], Window(Sort(g, le), n, 0)[j])
    ensures multiset(Window(Sort(g, le), n, 0)) <= multiset(g)
    ensures forall x, y :: x in Window(Sort(g, le), n, 0) && y in multiset(g) - multiset(Window(Sort(g, le), n, 0)) ==> le(x, y)
  {
    var sorted := Sort(g, le);
    SortSorted(g, le);
    var r := Window(sorted, n, 0);
    assert r == sorted[..|r|];
    PrefixDominates(sorted, |r|, le);
  }

  /** The listing holds n documents (all of them for n = 0, fewer when the
      collection is smaller), sorted descending by the counter with nulls
      last, and no document left out ranks above one that is listed. */
  lemma TopTweetsSpec(docs: seq<TweetDoc>, c: Counter, n: nat)
    ensures |TopTweets(docs, c, n)| == if n == 0 then |docs| else Min(n, |docs|)
    ensures n == 0 ==> multiset(TopTweets(docs, c, n)) == multiset(docs)
    ensures multiset(TopTweets(docs, c, n)) <= multiset(docs)
    ensures forall i, j :: 0 <= i < j < |TopTweets(docs, c, n)| ==>
              AtLeast(CounterOf(TopTweets(docs, c, n)[i], c), CounterOf(TopTweets(docs, c, n)[j], c))
    ensures forall x, y :: x in TopTweets(docs, c, n) && y in multiset(docs) - multiset(TopTweets(docs, c, n)) ==>
              AtLeast(CounterOf(x, c), CounterOf(y, c))
  {
    var sorted := Sort(docs, CounterOrder(c));
    CounterOrderIsPreorder(c);
    SortSorted(docs, CounterOrder(c));
    var r := TopTweets(docs, c, n);
    var m := |r|;
    assert r == sorted[..m];
    PrefixDominates(sorted, m, CounterOrder(c));
  }

  // --------------------------------------------------------------- top users

  /** One output row of the `$group` stage. */
  datatype UserRow = UserRow(username: string, maxFollowersCount: Option<int>, displayname: Option<string>, full: UserDoc)

  /** `$max` of two values, where null is ignored. */
  function MaxOpt(a: Option<int>, b: Option<int>): Option<int> {
    if a.None? then b
    else if b.None? then a
    else if a.value >= b.value then a else b
  }

  /** `{"$max": "$user.followersCount"}` over the profiles named `name`. */
  function MaxFollowers(users: seq<UserDoc>, name: string): (m: Option<int>)
    ensures m.None? <==> forall u :: u in users && u.username == name ==> u.followersCount.None?
    ensures m.Some? ==> exists u :: u in users && u.username == name && u.followersCount == m
    ensures m.Some? ==> forall u :: u in users && u.username == name && u.followersCount.Some? ==>
              u.followersCount.value <= m.value
  {
    if users == [] then None
    else
      var rest := MaxFollowers(users[1..], name);
      assert forall u :: u in users <==> u == users[0] || u in users[1..];
      if users[0].username == name then MaxOpt(users[0].followersCount, rest) else rest
  }

  /** The position of the first profile named `name`. */
  function FirstIndex(names: seq<string>, name: string): (i: nat)
    requires name in names
    ensures i < |names| && names[i] == name
    ensures forall j :: 0 <= j < i ==> names[j] != name
  {
    if names[0] == name then 0 else 1 + FirstIndex(names[1..], name)
  }

  /** `{"$first": "$user"}` over the profiles named `name`. */
  function FirstWith(users: seq<UserDoc>, name: string): UserDoc
    requires name in Names(users)
  {
    users[FirstIndex(Names(users), name)]
  }

  /** The `$unwind` and `$group` stages: `$unwind` passes the embedded object
      through unchanged, and the groups come one per username in order of
      first appearance. */
  function Group(users: seq<UserDoc>): (rows: seq<UserRow>)
    ensures |rows| == |Dedup(Names(users))|
    ensures forall k :: 0 <= k < |rows| ==> rows[k].username == Dedup(Names(users))[k]
  {
    var names := Dedup(Names(users));
    seq(|names|, k requires 0 <= k < |names| =>
      assert names[k] in names;
      var first := FirstWith(users, names[k]);
      UserRow(names[k], MaxFollowers(users, names[k]), first.displayname, first))
  }

  predicate MoreFollowers(x: UserRow, y: UserRow) {
    AtLeast(x.maxFollowersCount, y.maxFollowersCount)
  }

  function RowOrder(): (UserRow, UserRow) -> bool {
    MoreFollowers
  }

  /** The whole pipeline with `{"$limit": n}`: None for n = 0, which the
      server refuses (a limit must be positive); otherwise n group rows (or
      every group when there are fewer), one per username, each describing
      its username, by non-increasing maximum follower count, and no group
      left out ranks above one kept. */
  function TopUsers(docs: seq<TweetDoc>, n: nat): (r: Option<seq<UserRow>>)
    ensures r.None? <==> n == 0
    ensures r.Some? ==> |r.value| == Min(n, |Dedup(Names(Profiles(docs)))|)
    ensures r.Some? ==> forall x :: x in r.value ==> x in Group(Profiles(docs)) && DescribesUser(docs, x)
    ensures r.Some? ==> forall i, j :: 0 <= i < j < |r.value| ==> r.value[i].username != r.value[j].username
    ensures r.Some? ==> forall i, j :: 0 <= i < j < |r.value| ==>
              AtLeast(r.value[i].maxFollowersCount, r.value[j].maxFollowersCount)
    ensures r.Some? ==> forall x, y :: x in r.value && y in Group(Profiles(docs)) && y !in r.value ==>
              AtLeast(x.maxFollowersCount, y.maxFollowersCount)
  {
    if n == 0 then None
    else
      RankedRows(docs, n);
      RankedOrder(docs, n);
      RankedDescribed(docs, n);
      Some(Ranked(docs, n))
  }

  /** The `$sort` and `$limit` stages on the groups. */
  function Ranked(docs: seq<TweetDoc>, n: nat): seq<UserRow> {
    Window(Sort(Group(Profiles(docs)), RowOrder()), n, 0)
  }

  /** Every group row describes its username: its maximum follower count,
      and the display name and profile of its first document. */
  lemma GroupRows(users: seq<UserDoc>)
    ensures forall k :: 0 <= k < |Group(users)| ==>
              var row := Group(users)[k];
              && row.username in Names(users)
              && row.maxFollowersCount == MaxFollowers(users, row.username)
              && row.full == FirstWith(users, row.username)
              && row.displayname == row.full.displayname
  {
    var names := Dedup(Names(users));
    forall k | 0 <= k < |names| ensures names[k] in Names(users) {
      assert names[k] in names;
    }
  }

  /** A `$group` row describes its username over the documents: `$max`
      skips nulls (null only when every count is null, otherwise the largest
      count), and `$first` takes the profile of the first document holding
      that username, together with its display name. */
  ghost predicate DescribesUser(docs: seq<TweetDoc>, row: UserRow) {
    && (row.maxFollowersCount.None? <==>
          forall d :: d in docs && d.user.username == row.username ==> d.user.followersCount.None?)
    && (row.maxFollowersCount.Some? ==>
          (exists d :: d in docs && d.user.username == row.username && d.user.followersCount == row.maxFollowersCount)
          && forall d :: d in docs && d.user.username == row.username && d.user.followersCount.Some? ==>
               d.user.followersCount.value <= row.maxFollowersCount.value)
    && (exists i :: 0 <= i < |docs| && docs[i].user == row.full && docs[i].user.username == row.username
          && forall j :: 0 <= j < i ==> docs[j].user.username != row.username)
    && row.displayname == row.full.displayname
  }

  lemma ProfilesIn(docs: seq<TweetDoc>)
    ensures forall u :: u in Profiles(docs) <==> exists d :: d in docs && d.user == u
  {
    var ps := Profiles(docs);
    forall u ensures u in ps <==> exists d :: d in docs && d.user == u {
      if u in ps {
        var i :| 0 <= i < |ps| && ps[i] == u;
        assert docs[i] in docs;
      }
      if exists d :: d in docs && d.user == u {
        var d :| d in docs && d.user == u;
        var i :| 0 <= i < |docs| && docs[i] == d;
        assert ps[i] == u;
      }
    }
  }

  /** Each group row describes its username over the documents. */
  lemma GroupRowDescribes(docs: seq<TweetDoc>, k: nat)
    requires k < |Group(Profiles(docs))|
    ensures DescribesUser(docs, Group(Profiles(docs))[k])
  {
    var users := Profiles(docs);
    var row := Group(users)[k];
    var name := row.username;
    GroupRows(users);
    ProfilesIn(docs);
    var names := Names(users);
    var i := FirstIndex(names, name);
    assert docs[i].user == row.full && docs[i].user.username == name;
    forall j | 0 <= j < i ensures docs[j].user.username != name {
      assert names[j] != name;
    }
    forall d | d in docs ensures d.user in users {
    }
  }

  /** Every group row's username occurs in the documents. */
  lemma GroupNamesOccur(docs: seq<TweetDoc>)
    ensures forall k :: 0 <= k < |Group(Profiles(docs))| ==>
              exists d :: d in docs && d.user.username == Group(Profiles(docs))[k].username
  {
    var g := Group(Profiles(docs));
    forall k | 0 <= k < |g| ensures exists d :: d in docs && d.user.username == g[k].username {
      NamesOfProfiles(docs, g[k].username);
    }
  }

  /** Every username that occurs in the documents has a group row. */
  lemma UsersGrouped(docs: seq<TweetDoc>)
    ensures forall d :: d in docs ==>
              exists k :: 0 <= k < |Group(Profiles(docs))| && Group(Profiles(docs))[k].username == d.user.username
  {
    var g := Group(Profiles(docs));
    var names := Dedup(Names(Profiles(docs)));
    forall d | d in docs ensures exists k :: 0 <= k < |g| && g[k].username == d.user.username {
      NamesOfProfiles(docs, d.user.username);
      var k :| 0 <= k < |names| && names[k] == d.user.username;
      assert g[k].username == d.user.username;
    }
  }

  /** `$unwind` and `$group` over the documents: one row for each username
      that occurs, no username twice, and every row describes its username. */
  lemma GroupByUsername(docs: seq<TweetDoc>)
    ensures var g := Group(Profiles(docs));
            forall k :: 0 <= k < |g| ==> exists d :: d in docs && d.user.username == g[k].username
    ensures var g := Group(Profiles(docs));
            forall d :: d in docs ==> exists k :: 0 <= k < |g| && g[k].username == d.user.username
    ensures var g := Group(Profiles(docs));
            forall i, j :: 0 <= i < j < |g| ==> g[i].username != g[j].username
    ensures var g := Group(Profiles(docs));
            forall k :: 0 <= k < |g| ==> DescribesUser(docs, g[k])
  {
    var g := Group(Profiles(docs));
    GroupNamesOccur(docs);
    UsersGrouped(docs);
    GroupDistinct(Profiles(docs));
    forall k | 0 <= k < |g| ensures DescribesUser(docs, g[k]) {
      GroupRowDescribes(docs, k);
    }
  }

  lemma RankedDescribed(docs: seq<TweetDoc>, n: nat)
    requires n > 0
    ensures forall x :: x in Ranked(docs, n) ==> DescribesUser(docs, x)
  {
    var g := Group(Profiles(docs));
    RankedRows(docs, n);
    forall x | x in Ranked(docs, n) ensures DescribesUser(docs, x) {
      var k :| 0 <= k < |g| && g[k] == x;
      GroupRowDescribes(docs, k);
    }
  }

  /** The groups carry distinct usernames, so no row repeats. */
  lemma GroupDistinct(users: seq<UserDoc>)
    ensures forall i, j :: 0 <= i < j < |Group(users)| ==> Group(users)[i].username != Group(users)[j].username
    ensures NoDups(Group(users))
  {
    NoDupsIndices(Dedup(Names(users)));
    DistinctNoDups(Group(users));
  }

  /** Different group rows belong to different usernames. */
  lemma GroupRowsByName(users: seq<UserDoc>)
    ensures forall x, y :: x in Group(users) && y in Group(users) && x != y ==> x.username != y.username
  {
    var g := Group(users);
    GroupDistinct(users);
    forall x, y | x in g && y in g && x != y ensures x.username != y.username {
      var a :| 0 <= a < |g| && g[a] == x;
      var b :| 0 <= b < |g| && g[b] == y;
    }
  }

  /** The first n rows of the sorted groups are n of the groups (or all of
      them), still one per username. */
  lemma TopRows(g: seq<UserRow>, n: nat)
    requires n > 0 && NoDups(g)
    requires forall x, y :: x in g && y in g && x != y ==> x.username != y.username
    ensures |Window(Sort(g, RowOrder()), n, 0)| == Min(n, |g|)
    ensures forall x :: x in Window(Sort(g, RowOrder()), n, 0) ==> x in g
    ensures forall i, j :: 0 <= i < j < |Window(Sort(g, RowOrder()), n, 0)| ==>
              Window(Sort(g, RowOrder()), n, 0)[i].username != Window(Sort(g, RowOrder()), n, 0)[j].username
  {
    assert TotalPreorder(RowOrder());
    SortedPrefix(g, RowOrder(), n);
    var r := Window(Sort(g, RowOrder()), n, 0);
    forall x | x in r ensures x in g {
      assert x in multiset(r);
    }
    WindowNoDups(Sort(g, RowOrder()), n, 0) by {
      SortNoDups(g, RowOrder());
    }
    NoDupsIndices(r);
    forall i, j | 0 <= i < j < |r| ensures r[i].username != r[j].username {
      assert r[i] in r && r[j] in r;
    }
  }

  /** One row per username, as many as there are usernames up to n, each
      a group row whose count is the maximum over that username's
      documents. */
  lemma RankedRows(docs: seq<TweetDoc>, n: nat)
    requires n > 0
    ensures |Ranked(docs, n)| == Min(n, |Dedup(Names(Profiles(docs)))|)
    ensures forall x :: x in Ranked(docs, n) ==>
              x in Group(Profiles(docs)) && x.maxFollowersCount == MaxFollowers(Profiles(docs), x.username)
    ensures forall i, j :: 0 <= i < j < |Ranked(docs, n)| ==> Ranked(docs, n)[i].username != Ranked(docs, n)[j].username
  {
    var users := Profiles(docs);
    var g := Group(users);
    GroupRows(users);
    GroupDistinct(users);
    GroupRowsByName(users);
    TopRows(g, n);
    var r := Ranked(docs, n);
    assert r == Window(Sort(g, RowOrder()), n, 0);
    forall x | x in r ensures x.maxFollowersCount == MaxFollowers(users, x.username) {
      var k :| 0 <= k < |g| && g[k] == x;
    }
  }

  lemma RowsOrder(g: seq<UserRow>, n: nat)
    requires n > 0
    ensures forall i, j :: 0 <= i < j < |Window(Sort(g, RowOrder()), n, 0)| ==>
              MoreFollowers(Window(Sort(g, RowOrder()), n, 0)[i], Window(Sort(g, RowOrder()), n, 0)[j])
    ensures forall x, y :: x in Window(Sort(g, RowOrder()), n, 0) && y in g && y !in Window(Sort(g, RowOrder()), n, 0) ==>
              MoreFollowers(x, y)
  {
    var le := RowOrder();
    assert TotalPreorder(le);
    SortedPrefix(g, le, n);
    var r := Window(Sort(g, le), n, 0);
    forall x, y | x in r && y in g && y !in r ensures MoreFollowers(x, y) {
      assert multiset(r)[y] == 0;
      assert y in multiset(g) - multiset(r);
    }
  }

  /** The rows run from the most followers down, nulls last, and no group
      left out has more followers than a listed one. */
  lemma RankedOrder(docs: seq<TweetDoc>, n: nat)
    requires n > 0
    ensures forall i, j :: 0 <= i < j < |Ranked(docs, n)| ==>
              AtLeast(Ranked(docs, n)[i].maxFollowersCount, Ranked(docs, n)[j].maxFollowersCount)
    ensures forall x, y :: x in Ranked(docs, n) && y in Group(Profiles(docs)) && y !in Ranked(docs, n) ==>
              AtLeast(x.maxFollowersCount, y.maxFollowersCount)
  {
    var g := Group(Profiles(docs));
    var r := Ranked(docs, n);
    assert r == Window(Sort(g, RowOrder()), n, 0);
    RowsOrder(g, n);
    forall i, j | 0 <= i < j < |r| ensures AtLeast(r[i].maxFollowersCount, r[j].maxFollowersCount) {
      assert MoreFollowers(r[i], r[j]);
    }
    forall x, y | x in r && y in g && y !in r ensures AtLeast(x.maxFollowersCount, y.maxFollowersCount) {
      assert MoreFollowers(x, y);
    }
  }
}
