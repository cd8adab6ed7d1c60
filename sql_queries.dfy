/** The read queries of the relational client, as functions of the database
    value: the home timeline, the follower list and counters, a follower's
    tweets, the multi-term tweet search with its merge step, and the ranked
    user search. */
module Queries {
  import opened Wrappers
  import opened Seqs
  import opened Text
  import opened SqlLike
  import opened Paging
  import opened Tables

  const TimelinePageSize: nat := 5
  const WriterPageSize: nat := 3
  const HashtagLimit: nat := 5
  const TextLimit: nat := 10
  /** Both kinds of search term step their OFFSET by five rows a page. */
  const SearchStride: nat := 5
  const UserPageSize: nat := 5

  /** ORDER BY tdate DESC. */
  predicate NewerOrSame(a: Tweet, b: Tweet) {
    a.tdate >= b.tdate
  }

  lemma NewerOrSameIsPreorder()
    ensures TotalPreorder(NewerOrSame)
  {
  }

  predicate NewestFirst(s: seq<Tweet>) {
    forall i, j :: 0 <= i < j < |s| ==> s[i].tdate >= s[j].tdate
  }

  lemma SortNewestFirst(s: seq<Tweet>)
    ensures NewestFirst(Sort(s, NewerOrSame))
    ensures forall t :: t in Sort(s, NewerOrSame) <==> t in s
  {
    NewerOrSameIsPreorder();
    SortSorted(s, NewerOrSame);
    var r := Sort(s, NewerOrSame);
    forall t ensures t in r <==> t in s {
      assert t in r <==> t in multiset(r);
    }
  }

  /** LIMIT/OFFSET keeps the order it cuts from. */
  lemma NewestFirstWindow(s: seq<Tweet>, limit: nat, offset: int)
    requires NewestFirst(s)
    ensures NewestFirst(Window(s, limit, offset))
  {
    var r := Window(s, limit, offset);
    forall i, j | 0 <= i < j < |r| ensures r[i].tdate >= r[j].tdate {
      assert r[i] == s[WindowStart(offset) + i] && r[j] == s[WindowStart(offset) + j];
    }
  }

  // ---------------------------------------------------------------- timeline

  /** A row of `follows` says that `flwer` follows `flwee`. */
  predicate FollowsUser(db: Db, flwer: UserId, flwee: UserId) {
    exists f | f in db.follows :: f.flwer == flwer && f.flwee == flwee
  }

  /** Some user that `usr` follows retweeted tweet `tid`. */
  predicate RetweetedByFollowee(db: Db, usr: UserId, tid: TweetId) {
    exists r | r in db.retweets :: r.tid == tid && FollowsUser(db, usr, r.usr)
  }

  /** The two arms of the timeline's UNION: written by a followee, or
      retweeted by one. */
  predicate InTimeline(db: Db, usr: UserId, t: Tweet) {
    FollowsUser(db, usr, t.writer) || RetweetedByFollowee(db, usr, t.tid)
  }

  function TimelineFilter(db: Db, usr: UserId): Tweet -> bool {
    t => InTimeline(db, usr, t)
  }

  /** Every page of the timeline at once: the UNION of both joins (UNION drops
      repeated rows, and with them the join's multiplicities), newest first. */
  function Feed(db: Db, usr: UserId): seq<Tweet> {
    Sort(Dedup(Filter(db.tweets, TimelineFilter(db, usr))), NewerOrSame)
  }

  /** The timeline query with `LIMIT 5 OFFSET (page_num-1)*5`. */
  function TimelinePage(db: Db, usr: UserId, page: int): seq<Tweet> {
    Window(Feed(db, usr), TimelinePageSize, Offset(page, TimelinePageSize))
  }

  /** The feed holds exactly the tweets a followee wrote or retweeted, each
      once, newest first. */
  lemma FeedIsTheUnion(db: Db, usr: UserId)
    ensures forall t :: t in Feed(db, usr) <==> t in db.tweets && InTimeline(db, usr, t)
    ensures NoDups(Feed(db, usr))
    ensures NewestFirst(Feed(db, usr))
  {
    var c := Dedup(Filter(db.tweets, TimelineFilter(db, usr)));
    SortNewestFirst(c);
    SortNoDups(c, NewerOrSame);
  }

  /** One timeline page: at most five tweets of the feed, each once, newest
      first, starting at row (page_num-1)*5 of the feed (row 0 for pages
      before the first). */
  lemma TimelinePageSpec(db: Db, usr: UserId, page: int)
    ensures |TimelinePage(db, usr, page)| <= 5
    ensures NoDups(TimelinePage(db, usr, page))
    ensures NewestFirst(TimelinePage(db, usr, page))
    ensures forall t :: t in TimelinePage(db, usr, page) ==> t in db.tweets && InTimeline(db, usr, t)
    ensures forall k :: 0 <= k < |TimelinePage(db, usr, page)| ==>
              TimelinePage(db, usr, page)[k] == Feed(db, usr)[WindowStart((page - 1) * 5) + k]
  {
    FeedIsTheUnion(db, usr);
    var f := Feed(db, usr);
    WindowNoDups(f, TimelinePageSize, Offset(page, TimelinePageSize));
    NewestFirstWindow(f, TimelinePageSize, Offset(page, TimelinePageSize));
    WindowWithin(f, TimelinePageSize, Offset(page, TimelinePageSize));
    assert Offset(page, TimelinePageSize) == (page - 1) * 5;
  }

  /** Paging through the timeline reaches every tweet of the feed: row i is
      entry i % 5 of page i / 5 + 1. */
  lemma TimelinePagesCoverFeed(db: Db, usr: UserId, i: nat)
    requires i < |Feed(db, usr)|
    ensures i % 5 < |TimelinePage(db, usr, i / 5 + 1)|
    ensures TimelinePage(db, usr, i / 5 + 1)[i % 5] == Feed(db, usr)[i]
  {
    var f := Feed(db, usr);
    var q, r := i / 5, i % 5;
    assert q * 5 + r == i && 0 <= r < 5;
    assert Offset(q + 1, TimelinePageSize) == q * 5;
    assert WindowStart(q * 5) == q * 5;
    var page := TimelinePage(db, usr, q + 1);
    assert page == Window(f, TimelinePageSize, q * 5);
  }

  /** Following nobody gives an empty timeline on every page. */
  lemma NoFolloweesNoTimeline(db: Db, usr: UserId, page: int)
    requires forall f :: f in db.follows ==> f.flwer != usr
    ensures Feed(db, usr) == []
    ensures TimelinePage(db, usr, page) == []
  {
    forall t | t in db.tweets ensures !InTimeline(db, usr, t) {
    }
    assert Count(db.tweets, TimelineFilter(db, usr)) == 0;
  }

  // ---------------------------------------------------- followers and counts

  /** `SELECT u1.* FROM follows f1, users u1 WHERE f1.flwee = ? AND f1.flwer = u1.usr`. */
  function FollowerRows(follows: seq<Follow>, users: seq<User>, usr: UserId): (r: seq<User>)
    ensures forall u :: u in r <==> u in users && exists f :: f in follows && f.flwee == usr && f.flwer == u.usr
  {
    if follows == [] then []
    else
      assert forall f :: f in follows <==> f == follows[0] || f in follows[1..];
      (if follows[0].flwee == usr then Where(users, UserKey, follows[0].flwer) else [])
        + FollowerRows(follows[1..], users, usr)
  }

  function Followers(db: Db, usr: UserId): seq<User> {
    FollowerRows(db.follows, db.users, usr)
  }

  /** `SELECT COUNT(*) FROM retweets r1 WHERE r1.tid = ?`: zero exactly
      when nobody retweeted the tweet. */
  function RetweetCount(db: Db, tid: TweetId): (n: nat)
    ensures n <= |db.retweets|
    ensures n == 0 <==> forall r :: r in db.retweets ==> r.tid != tid
  {
    var w := Where(db.retweets, RetweetedTid, tid);
    assert w != [] ==> w[0] in w;
    |w|
  }

  /** `SELECT COUNT(*) FROM tweets t1 WHERE t1.replyto = ?`: zero exactly
      when no tweet replies to it. */
  function ReplyCount(db: Db, tid: TweetId): (n: nat)
    ensures n <= |db.tweets|
    ensures n == 0 <==> forall t :: t in db.tweets ==> t.replyto != Some(tid)
  {
    var w := Where(db.tweets, ReplyTo, Some(tid));
    assert w != [] ==> w[0] in w;
    |w|
  }

  /** `SELECT COUNT(*) FROM tweets WHERE writer = ?`: zero exactly when the
      user wrote nothing. */
  function TweetCount(db: Db, writer: UserId): (n: nat)
    ensures n <= |db.tweets|
    ensures n == 0 <==> forall t :: t in db.tweets ==> t.writer != writer
  {
    var w := Where(db.tweets, Writer, writer);
    assert w != [] ==> w[0] in w;
    |w|
  }

  /** `SELECT COUNT(*) FROM follows WHERE flwer = ?`: zero exactly when the
      user follows nobody. */
  function FollowingCount(db: Db, usr: UserId): (n: nat)
    ensures n <= |db.follows|
    ensures n == 0 <==> forall f :: f in db.follows ==> f.flwer != usr
  {
    var w := Where(db.follows, Flwer, usr);
    assert w != [] ==> w[0] in w;
    |w|
  }

  /** `SELECT COUNT(*) FROM follows WHERE flwee = ?`: zero exactly when
      nobody follows the user. */
  function FollowerCount(db: Db, usr: UserId): (n: nat)
    ensures n <= |db.follows|
    ensures n == 0 <==> forall f :: f in db.follows ==> f.flwee != usr
  {
    var w := Where(db.follows, Flwee, usr);
    assert w != [] ==> w[0] in w;
    |w|
  }

  /** With the key (usr, tid) on retweets, a tweet's retweet count is the
      number of distinct users who retweeted it. */
  lemma RetweetersCounted(db: Db, tid: TweetId)
    requires UniqueKeys(db.retweets, RetweetKey)
    ensures RetweetCount(db, tid) == |set r | r in db.retweets && r.tid == tid :: r.usr|
  {
    var tag := (r: Retweet) => r.usr;
    WhereCountsTags(db.retweets, RetweetKey, RetweetedTid, tid, tag);
    assert TagsWhere(db.retweets, RetweetedTid, tid, tag) == set r | r in db.retweets && r.tid == tid :: r.usr;
  }

  /** With the key tid on tweets, the reply count is the number of distinct
      tweets replying, and the tweet count the number of distinct tweets the
      user wrote. */
  lemma TweetsCounted(db: Db, tid: TweetId, writer: UserId)
    requires UniqueKeys(db.tweets, TweetKey)
    ensures ReplyCount(db, tid) == |set t | t in db.tweets && t.replyto == Some(tid) :: t.tid|
    ensures TweetCount(db, writer) == |set t | t in db.tweets && t.writer == writer :: t.tid|
  {
    RepliesCounted(db, tid);
    WrittenCounted(db, writer);
  }

  lemma RepliesCounted(db: Db, tid: TweetId)
    requires UniqueKeys(db.tweets, TweetKey)
    ensures ReplyCount(db, tid) == |set t | t in db.tweets && t.replyto == Some(tid) :: t.tid|
  {
    WhereCountsTags(db.tweets, TweetKey, ReplyTo, Some(tid), TweetKey);
    assert TagsWhere(db.tweets, ReplyTo, Some(tid), TweetKey) == set t | t in db.tweets && t.replyto == Some(tid) :: t.tid;
  }

  lemma WrittenCounted(db: Db, writer: UserId)
    requires UniqueKeys(db.tweets, TweetKey)
    ensures TweetCount(db, writer) == |set t | t in db.tweets && t.writer == writer :: t.tid|
  {
    WhereCountsTags(db.tweets, TweetKey, Writer, writer, TweetKey);
    assert TagsWhere(db.tweets, Writer, writer, TweetKey) == set t | t in db.tweets && t.writer == writer :: t.tid;
  }

  /** With the key (flwer, flwee) on follows, the follower count is the
      number of distinct followers and the following count the number of
      distinct followees. */
  lemma FollowsCounted(db: Db, usr: UserId)
    requires UniqueKeys(db.follows, FollowKey)
    ensures FollowerCount(db, usr) == |set f | f in db.follows && f.flwee == usr :: f.flwer|
    ensures FollowingCount(db, usr) == |set f | f in db.follows && f.flwer == usr :: f.flwee|
  {
    WhereCountsTags(db.follows, FollowKey, Flwee, usr, Flwer);
    assert TagsWhere(db.follows, Flwee, usr, Flwer) == set f | f in db.follows && f.flwee == usr :: f.flwer;
    WhereCountsTags(db.follows, FollowKey, Flwer, usr, Flwee);
    assert TagsWhere(db.follows, Flwer, usr, Flwee) == set f | f in db.follows && f.flwer == usr :: f.flwee;
  }

  /** Every follower id names a user (the foreign key on follows.flwer). */
  predicate FollowersAreUsers(db: Db) {
    forall f :: f in db.follows ==> HasKey(db.users, UserKey, f.flwer)
  }

  lemma {:induction false} FollowerRowsLength(follows: seq<Follow>, users: seq<User>, usr: UserId)
    requires UniqueKeys(users, UserKey)
    requires forall f :: f in follows ==> HasKey(users, UserKey, f.flwer)
    ensures |FollowerRows(follows, users, usr)| == |Where(follows, Flwee, usr)|
  {
    if follows != [] {
      FollowerRowsLength(follows[1..], users, usr);
      if follows[0].flwee == usr {
        WhereUniqueKey(users, UserKey, follows[0].flwer);
      }
    }
  }

  /** With user ids unique and every follower a user, the follower list
      is as long as the follower count shown for the same user. */
  lemma FollowerListMatchesCount(db: Db, usr: UserId)
    requires UniqueKeys(db.users, UserKey)
    requires FollowersAreUsers(db)
    ensures |Followers(db, usr)| == FollowerCount(db, usr)
  {
    FollowerRowsLength(db.follows, db.users, usr);
  }

  /** `SELECT name FROM users WHERE usr = ?`, first row; None where the
      source's fetchone() finds no row. */
  function UserName(db: Db, usr: UserId): (n: Option<string>)
    ensures n.None? <==> forall u :: u in db.users ==> u.usr != usr
    ensures n.Some? ==> exists u :: u in db.users && u.usr == usr && u.name == n.value
  {
    var w := Where(db.users, UserKey, usr);
    if w == [] then None
    else
      assert w[0] in w;
      Some(w[0].name)
  }

  /** All of a follower's tweets, newest first, before LIMIT/OFFSET. */
  function WriterFeed(db: Db, writer: UserId): seq<Tweet> {
    Sort(Where(db.tweets, Writer, writer), NewerOrSame)
  }

  /** A follower's tweets: `WHERE writer = ? ORDER BY tdate DESC LIMIT 3 OFFSET (page_num-1)*3`. */
  function WriterTweets(db: Db, writer: UserId, page: int): seq<Tweet> {
    Window(WriterFeed(db, writer), WriterPageSize, Offset(page, WriterPageSize))
  }

  /** The `text` column of that query: the texts of the follower's tweets
      from position (page_num-1)*3 of the newest-first list on, at most
      three (pages before the first show the first). */
  function WriterPage(db: Db, writer: UserId, page: int): (texts: seq<string>)
    ensures var all, lo := WriterFeed(db, writer), WindowStart((page - 1) * 3);
            && |texts| == (if lo >= |all| then 0 else Min(3, |all| - lo))
            && forall k :: 0 <= k < |texts| ==> texts[k] == all[lo + k].text
  {
    var all := WriterFeed(db, writer);
    assert Offset(page, WriterPageSize) == (page - 1) * 3;
    var rows := Window(all, WriterPageSize, Offset(page, WriterPageSize));
    seq(|rows|, k requires 0 <= k < |rows| => rows[k].text)
  }

  /** A page of a follower's tweets: the slice at (page_num-1)*3 of all the
      follower's tweets newest first, which are exactly the stored tweets
      that follower wrote. */
  lemma WriterTweetsSpec(db: Db, writer: UserId, page: int)
    ensures forall t :: t in WriterFeed(db, writer) <==> t in db.tweets && t.writer == writer
    ensures NewestFirst(WriterFeed(db, writer))
    ensures var all, lo := WriterFeed(db, writer), WindowStart((page - 1) * 3);
            |WriterTweets(db, writer, page)| == if lo >= |all| then 0 else Min(3, |all| - lo)
    ensures forall k :: 0 <= k < |WriterTweets(db, writer, page)| ==>
              WriterTweets(db, writer, page)[k] == WriterFeed(db, writer)[WindowStart((page - 1) * 3) + k]
  {
    SortNewestFirst(Where(db.tweets, Writer, writer));
    assert Offset(page, WriterPageSize) == (page - 1) * 3;
  }

  // ---------------------------------------------------------- tweet search

  predicate IsHashtagTerm(term: string) {
    |term| > 0 && term[0] == '#'
  }

  /** `FROM tweets t1, mentions m1 WHERE m1.term LIKE pat AND m1.tid = t1.tid`:
      one row per matching (mention, tweet) pair. */
  function MentionJoin(mentions: seq<Mention>, tweets: seq<Tweet>, pat: string): (r: seq<Tweet>)
    ensures forall t :: t in r <==> t in tweets && exists m :: m in mentions && m.tid == t.tid && Like(m.term, pat)
  {
    if mentions == [] then []
    else
      assert forall m :: m in mentions <==> m == mentions[0] || m in mentions[1..];
      (if Like(mentions[0].term, pat) then Where(tweets, TweetKey, mentions[0].tid) else [])
        + MentionJoin(mentions[1..], tweets, pat)
  }

  function TextFilter(term: string): Tweet -> bool {
    (t: Tweet) => Like(t.text, ContainsPattern(term))
  }

  /** Every row one search term selects, newest first, before LIMIT/OFFSET:
      a `#term` looks its rest up in the mentions with LIKE, any other term
      looks for `%term%` in the text. */
  function TermMatches(db: Db, term: string): seq<Tweet> {
    if IsHashtagTerm(term) then Sort(MentionJoin(db.mentions, db.tweets, term[1..]), NewerOrSame)
    else Sort(Filter(db.tweets, TextFilter(term)), NewerOrSame)
  }

  /** One search term's query: LIMIT 5 for a hashtag, LIMIT 10 for text, and
      OFFSET (page_num-1)*5 for both. */
  function TermRows(db: Db, term: string, page: int): seq<Tweet> {
    Window(TermMatches(db, term), if IsHashtagTerm(term) then HashtagLimit else TextLimit, Offset(page, SearchStride))
  }

  lemma TermMatchesNewestFirst(db: Db, term: string)
    ensures NewestFirst(TermMatches(db, term))
  {
    if IsHashtagTerm(term) {
      SortNewestFirst(MentionJoin(db.mentions, db.tweets, term[1..]));
    } else {
      SortNewestFirst(Filter(db.tweets, TextFilter(term)));
    }
  }

  /** What a term selects, newest first. */
  lemma TermMatchesSpec(db: Db, term: string)
    ensures NewestFirst(TermMatches(db, term))
    ensures IsHashtagTerm(term) ==> forall t :: t in TermMatches(db, term) <==>
              t in db.tweets && exists m :: m in db.mentions && m.tid == t.tid && Like(m.term, term[1..])
    ensures !IsHashtagTerm(term) ==> forall t :: t in TermMatches(db, term) <==>
              t in db.tweets && Like(t.text, ContainsPattern(term))
  {
    if IsHashtagTerm(term) {
      SortNewestFirst(MentionJoin(db.mentions, db.tweets, term[1..]));
    } else {
      SortNewestFirst(Filter(db.tweets, TextFilter(term)));
    }
  }

  /** A term's page holds at most five hashtag rows or ten text rows, taken
      from its matches at offset (page_num-1)*5. */
  lemma TermRowsSpec(db: Db, term: string, page: int)
    ensures IsHashtagTerm(term) ==> |TermRows(db, term, page)| <= 5
    ensures !IsHashtagTerm(term) ==> |TermRows(db, term, page)| <= 10
    ensures NewestFirst(TermRows(db, term, page))
    ensures forall k :: 0 <= k < |TermRows(db, term, page)| ==>
              TermRows(db, term, page)[k] == TermMatches(db, term)[WindowStart((page - 1) * 5) + k]
  {
    TermMatchesNewestFirst(db, term);
    assert Offset(page, SearchStride) == (page - 1) * 5;
    NewestFirstWindow(TermMatches(db, term), if IsHashtagTerm(term) then HashtagLimit else TextLimit, Offset(page, SearchStride));
  }

  /** Without wildcards in it, a text term is a case-insensitive substring
      test and a hashtag term a case-insensitive equality with the mention. */
  lemma LiteralTermMatches(db: Db, term: string, t: Tweet)
    requires t in db.tweets
    ensures !IsHashtagTerm(term) && Literal(term) ==>
              (t in TermMatches(db, term) <==> ContainsCI(t.text, term))
    ensures IsHashtagTerm(term) && Literal(term[1..]) ==>
              (t in TermMatches(db, term) <==> exists m :: m in db.mentions && m.tid == t.tid && EqCI(m.term, term[1..]))
  {
    TermMatchesSpec(db, term);
    if !IsHashtagTerm(term) && Literal(term) {
      LikeContains(t.text, term);
    }
    if IsHashtagTerm(term) && Literal(term[1..]) {
      forall m | m in db.mentions ensures Like(m.term, term[1..]) <==> EqCI(m.term, term[1..]) {
        LikeExact(m.term, term[1..]);
      }
    }
  }

  /** Free-text pages step by five rows but hold ten, so the second half of
      a full page is the first half of the next one. */
  lemma TextPagesOverlap(db: Db, term: string, page: int, k: nat)
    requires !IsHashtagTerm(term) && page >= 1 && k < 5
    requires |TermMatches(db, term)| >= page * 5 + 5
    ensures 5 + k < |TermRows(db, term, page)|
    ensures k < |TermRows(db, term, page + 1)|
    ensures TermRows(db, term, page)[5 + k] == TermRows(db, term, page + 1)[k]
  {
    assert Offset(page, 5) == page * 5 - 5;
    assert Offset(page + 1, 5) == page * 5;
  }

  function NotIn(result: seq<Tweet>): Tweet -> bool {
    t => t !in result
  }

  /** `tweetlist = result + list(set(tweetlist) - set(result))`: this term's
      rows first, then, once each, the earlier rows it does not contain (the
      source's set leaves their order open; the model keeps list order). */
  function Merge(result: seq<Tweet>, tweetlist: seq<Tweet>): seq<Tweet> {
    result + Dedup(Filter(tweetlist, NotIn(result)))
  }

  lemma MergeSpec(result: seq<Tweet>, tweetlist: seq<Tweet>)
    ensures |result| <= |Merge(result, tweetlist)| && Merge(result, tweetlist)[..|result|] == result
    ensures forall t :: t in Merge(result, tweetlist) <==> t in result || t in tweetlist
    ensures forall t :: t in result ==> multiset(Merge(result, tweetlist))[t] == multiset(result)[t]
    ensures forall t :: t !in result && t in tweetlist ==> multiset(Merge(result, tweetlist))[t] == 1
  {
    var rest := Dedup(Filter(tweetlist, NotIn(result)));
    var m := result + rest;
    assert m[..|result|] == result;
    forall t | t in result ensures multiset(m)[t] == multiset(result)[t] {
      assert t !in rest;
    }
  }

  /** The list that the loop over the search terms builds for one page. */
  function SearchResults(db: Db, terms: seq<string>, page: int): seq<Tweet>
    decreases |terms|
  {
    if terms == [] then []
    else Merge(TermRows(db, terms[|terms| - 1], page), SearchResults(db, terms[..|terms| - 1], page))
  }

  lemma SearchResultsSnoc(db: Db, terms: seq<string>, page: int, k: nat)
    requires k < |terms|
    ensures SearchResults(db, terms[..k + 1], page) == Merge(TermRows(db, terms[k], page), SearchResults(db, terms[..k], page))
  {
    assert terms[..k + 1][..k] == terms[..k];
  }

  /** The loop over the search terms: one query per term, merged into the
      running list. */
  method SearchTweets(db: Db, terms: seq<string>, page: int) returns (tweetlist: seq<Tweet>)
    ensures tweetlist == SearchResults(db, terms, page)
  {
    tweetlist := [];
    for k := 0 to |terms|
      invariant tweetlist == SearchResults(db, terms[..k], page)
    {
      SearchResultsSnoc(db, terms, page, k);
      var result := TermRows(db, terms[k], page);
      tweetlist := Merge(result, tweetlist);
    }
    assert terms[..|terms|] == terms;
  }

  /** Some term's own query returned `t`. */
  predicate InSomeTerm(db: Db, terms: seq<string>, page: int, t: Tweet) {
    exists k | 0 <= k < |terms| :: t in TermRows(db, terms[k], page)
  }

  lemma InSomeTermSnoc(db: Db, terms: seq<string>, page: int, t: Tweet)
    requires terms != []
    ensures InSomeTerm(db, terms, page, t) <==>
              t in TermRows(db, terms[|terms| - 1], page) || InSomeTerm(db, terms[..|terms| - 1], page, t)
  {
    var init := terms[..|terms| - 1];
    assert terms == init + [terms[|terms| - 1]];
    ExistsSnoc(init, terms[|terms| - 1], term => t in TermRows(db, term, page));
  }

  /** The merged list holds exactly the rows some term's query returned. */
  lemma {:induction false} SearchResultsMembers(db: Db, terms: seq<string>, page: int)
    ensures forall t :: t in SearchResults(db, terms, page) <==> InSomeTerm(db, terms, page, t)
    decreases |terms|
  {
    if terms != [] {
      var init, last := terms[..|terms| - 1], terms[|terms| - 1];
      SearchResultsMembers(db, init, page);
      MergeSpec(TermRows(db, last, page), SearchResults(db, init, page));
      forall t ensures t in SearchResults(db, terms, page) <==> InSomeTerm(db, terms, page, t) {
        InSomeTermSnoc(db, terms, page, t);
      }
    }
  }

  /** The list starts with the last term's rows. */
  lemma SearchResultsLeadWithLastTerm(db: Db, terms: seq<string>, page: int)
    requires terms != []
    ensures var last := TermRows(db, terms[|terms| - 1], page);
            |last| <= |SearchResults(db, terms, page)| && SearchResults(db, terms, page)[..|last|] == last
  {
    MergeSpec(TermRows(db, terms[|terms| - 1], page), SearchResults(db, terms[..|terms| - 1], page));
  }

  /** When no single query repeats a row, the merged list repeats none. */
  lemma {:induction false} SearchResultsNoDups(db: Db, terms: seq<string>, page: int)
    requires forall k :: 0 <= k < |terms| ==> NoDups(TermRows(db, terms[k], page))
    ensures NoDups(SearchResults(db, terms, page))
    decreases |terms|
  {
    if terms != [] {
      var init, last := terms[..|terms| - 1], terms[|terms| - 1];
      forall k | 0 <= k < |init| ensures NoDups(TermRows(db, init[k], page)) {
        assert init[k] == terms[k];
      }
      SearchResultsNoDups(db, init, page);
      var result, prev := TermRows(db, last, page), SearchResults(db, init, page);
      MergeSpec(result, prev);
      var m := Merge(result, prev);
      forall t | t in m ensures multiset(m)[t] == 1 {
        if t in result {
          assert multiset(result)[t] == 1;
        }
      }
    }
  }

  /** A free-text query repeats no row when no tweet is stored twice. */
  lemma TextTermNoDups(db: Db, term: string, page: int)
    requires !IsHashtagTerm(term)
    requires NoDups(db.tweets)
    ensures NoDups(TermRows(db, term, page))
  {
    FilterNoDups(db.tweets, TextFilter(term));
    SortNoDups(Filter(db.tweets, TextFilter(term)), NewerOrSame);
    WindowNoDups(TermMatches(db, term), TextLimit, Offset(page, SearchStride));
  }

  /** A hashtag query does repeat a tweet once per matching mention: the
      mentions `go` and `GO` of one tweet both match `#go`. */
  lemma HashtagTermRepeatsTweet(t: Tweet)
    ensures var db := Db([], [t], [], [], ["go", "GO"], [Mention(t.tid, "go"), Mention(t.tid, "GO")]);
            multiset(TermRows(db, "#go", 1))[t] == 2
  {
    var db := Db([], [t], [], [], ["go", "GO"], [Mention(t.tid, "go"), Mention(t.tid, "GO")]);
    assert "#go"[1..] == "go";
    JoinKeepsRepeats(t);
    SortTwice(t);
    var sorted := TermMatches(db, "#go");
    assert sorted == [t, t];
    assert TermRows(db, "#go", 1) == Window(sorted, HashtagLimit, 0) == sorted;
  }

  /** Sorting a tweet listed twice lists it twice. */
  lemma SortTwice(t: Tweet)
    ensures Sort([t, t], NewerOrSame) == [t, t]
  {
    var r := Sort([t, t], NewerOrSame);
    assert r[0] in multiset(r) && r[1] in multiset(r);
  }

  /** The join yields the tweet once per mention whose term matches. */
  lemma JoinKeepsRepeats(t: Tweet)
    ensures MentionJoin([Mention(t.tid, "go"), Mention(t.tid, "GO")], [t], "go") == [t, t]
  {
    var ms := [Mention(t.tid, "go"), Mention(t.tid, "GO")];
    assert Like("go", "go") by { LikeExact("go", "go"); }
    assert Like("GO", "go") by { LikeExact("GO", "go"); }
    assert ms[1..] == [Mention(t.tid, "GO")] && ms[1..][1..] == [];
    assert Where([t], TweetKey, t.tid) == [t] by {
      assert [t][1..] == [];
    }
    assert MentionJoin(ms[1..][1..], [t], "go") == [];
    assert MentionJoin(ms[1..], [t], "go") == [t] + [];
  }

  // ------------------------------------------------------------ user search

  /** `'%' + keyword.lower() + '%'`. */
  function UserPattern(keyword: string): string {
    ContainsPattern(LowerStr(keyword))
  }

  /** `LOWER(name) LIKE ?`. */
  predicate NameMatches(keyword: string, u: User) {
    Like(LowerStr(u.name), UserPattern(keyword))
  }

  /** `LOWER(city) LIKE ?`. */
  predicate CityMatches(keyword: string, u: User) {
    Like(LowerStr(u.city), UserPattern(keyword))
  }

  /** `CASE WHEN LOWER(name) LIKE ? THEN 0 ELSE 1 END`. */
  function Tier(keyword: string, u: User): nat {
    if NameMatches(keyword, u) then 0 else 1
  }

  /** The ORDER BY of the user search: tier, then LENGTH(name), then
      LENGTH(city), all ascending. */
  predicate RanksBefore(keyword: string, a: User, b: User) {
    var ta, tb := Tier(keyword, a), Tier(keyword, b);
    ta < tb || (ta == tb && (|a.name| < |b.name| || (|a.name| == |b.name| && |a.city| <= |b.city|)))
  }

  function RankOrder(keyword: string): (User, User) -> bool {
    (a, b) => RanksBefore(keyword, a, b)
  }

  function UserFilter(keyword: string): User -> bool {
    u => NameMatches(keyword, u) || CityMatches(keyword, u)
  }

  /** All matching users, ranked, before LIMIT/OFFSET. */
  function RankedUsers(db: Db, keyword: string): seq<User> {
    Sort(Filter(db.users, UserFilter(keyword)), RankOrder(keyword))
  }

  /** The user search with `LIMIT 5 OFFSET (page_num-1)*5`. */
  function UserSearchPage(db: Db, keyword: string, page: int): seq<User> {
    Window(RankedUsers(db, keyword), UserPageSize, Offset(page, UserPageSize))
  }

  lemma RankOrderIsPreorder(keyword: string)
    ensures TotalPreorder(RankOrder(keyword))
  {
  }

  /** The ranked users are the users whose name or city matches, and a user
      who ranks strictly better comes first. */
  lemma RankedUsersSpec(db: Db, keyword: string)
    ensures forall u :: u in RankedUsers(db, keyword) <==>
              u in db.users && (NameMatches(keyword, u) || CityMatches(keyword, u))
    ensures forall i, j :: 0 <= i < j < |RankedUsers(db, keyword)| ==>
              RanksBefore(keyword, RankedUsers(db, keyword)[i], RankedUsers(db, keyword)[j])
  {
    var f := Filter(db.users, UserFilter(keyword));
    RankOrderIsPreorder(keyword);
    SortSorted(f, RankOrder(keyword));
    var r := RankedUsers(db, keyword);
    forall u ensures u in r <==> u in f {
      assert u in r <==> u in multiset(r);
    }
  }

  /** For a keyword without wildcards: a user is found when the keyword
      occurs in the name or the city, ignoring case, and ranks in tier 0
      exactly when it occurs in the name (containment, not a prefix test). */
  lemma LiteralKeywordUsers(db: Db, keyword: string, u: User)
    requires Literal(keyword)
    ensures u in RankedUsers(db, keyword) <==>
              u in db.users && (ContainsCI(u.name, keyword) || ContainsCI(u.city, keyword))
    ensures Tier(keyword, u) == 0 <==> ContainsCI(u.name, keyword)
  {
    RankedUsersSpec(db, keyword);
    var lk := LowerStr(keyword);
    assert UserPattern(keyword) == LowerStr(ContainsPattern(keyword)) by {
      assert forall i :: 0 <= i < |UserPattern(keyword)| ==> UserPattern(keyword)[i] == LowerStr(ContainsPattern(keyword))[i];
    }
    forall s: string ensures Like(LowerStr(s), UserPattern(keyword)) <==> ContainsCI(s, keyword) {
      LikeLowerSubject(s, UserPattern(keyword));
      LikeLowerPattern(s, ContainsPattern(keyword));
      LikeContains(s, keyword);
    }
  }

  /** A page of the user search: the slice at (page_num-1)*5 of the ranked
      users, at most five, in rank order, all of them matching. */
  lemma UserSearchPageSpec(db: Db, keyword: string, page: int)
    ensures var all, lo := RankedUsers(db, keyword), WindowStart((page - 1) * 5);
            |UserSearchPage(db, keyword, page)| == if lo >= |all| then 0 else Min(5, |all| - lo)
    ensures forall k :: 0 <= k < |UserSearchPage(db, keyword, page)| ==>
              UserSearchPage(db, keyword, page)[k] == RankedUsers(db, keyword)[WindowStart((page - 1) * 5) + k]
    ensures forall u :: u in UserSearchPage(db, keyword, page) ==>
              u in db.users && (NameMatches(keyword, u) || CityMatches(keyword, u))
    ensures forall i, j :: 0 <= i < j < |UserSearchPage(db, keyword, page)| ==>
              RanksBefore(keyword, UserSearchPage(db, keyword, page)[i], UserSearchPage(db, keyword, page)[j])
  {
    assert Offset(page, UserPageSize) == (page - 1) * 5;
    UserSearchPageMembers(db, keyword, page);
    UserSearchPageRanked(db, keyword, page);
  }

  lemma UserSearchPageMembers(db: Db, keyword: string, page: int)
    ensures forall u :: u in UserSearchPage(db, keyword, page) ==>
              u in db.users && (NameMatches(keyword, u) || CityMatches(keyword, u))
  {
    RankedUsersSpec(db, keyword);
    WindowWithin(RankedUsers(db, keyword), UserPageSize, Offset(page, UserPageSize));
  }

  lemma UserSearchPageRanked(db: Db, keyword: string, page: int)
    ensures forall i, j :: 0 <= i < j < |UserSearchPage(db, keyword, page)| ==>
              RanksBefore(keyword, UserSearchPage(db, keyword, page)[i], UserSearchPage(db, keyword, page)[j])
  {
    RankOrderIsPreorder(keyword);
    SortSorted(Filter(db.users, UserFilter(keyword)), RankOrder(keyword));
    WindowSorted(RankedUsers(db, keyword), UserPageSize, Offset(page, UserPageSize), RankOrder(keyword));
  }
}
