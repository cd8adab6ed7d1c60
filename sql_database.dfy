/** The writes of the relational client: composing a tweet (a new id, its
    hashtags and mentions), retweeting, following and signing up, first as
    functions of the database value and then as the methods of a `Database`
    object whose tables they update. */
module Store {
  import opened Wrappers
  import opened Seqs
  import opened SqlLike
  import opened Tables
  import opened Hashtags
  import opened Queries

  /** `SELECT MAX(tid) FROM tweets` plus one: one above a stored id and
      above every stored id. None on an empty table, where the source adds
      one to NULL and fails before writing anything. */
  function NextTid(tweets: seq<Tweet>): (n: Option<TweetId>)
    ensures n.None? <==> tweets == []
    ensures n.Some? ==> forall t :: t in tweets ==> t.tid < n.value
    ensures n.Some? ==> exists t :: t in tweets && t.tid == n.value - 1
  {
    match MaxTid(tweets)
    case None => None
    case Some(m) => Some(m + 1)
  }

  /** `SELECT MAX(usr) FROM users` plus one, pinned and failing the same
      way. */
  function NextUsr(users: seq<User>): (n: Option<UserId>)
    ensures n.None? <==> users == []
    ensures n.Some? ==> forall u :: u in users ==> u.usr < n.value
    ensures n.Some? ==> exists u :: u in users && u.usr == n.value - 1
  {
    match MaxUsr(users)
    case None => None
    case Some(m) => Some(m + 1)
  }

  /** The hashtag table after `REPLACE INTO hashtags(term)` for each term in
      turn. */
  function AddTerms(hashtags: seq<string>, terms: seq<string>): seq<string>
    decreases |terms|
  {
    if terms == [] then hashtags
    else Replace(AddTerms(hashtags, terms[..|terms| - 1]), TermKey, terms[|terms| - 1])
  }

  /** One `mentions` row per extracted term, in order. */
  function MentionRows(tid: TweetId, terms: seq<string>): (rows: seq<Mention>)
    ensures |rows| == |terms|
    ensures forall k :: 0 <= k < |rows| ==> rows[k] == Mention(tid, terms[k])
  {
    seq(|terms|, k requires 0 <= k < |terms| => Mention(tid, terms[k]))
  }

  lemma AddTermsSnoc(hashtags: seq<string>, terms: seq<string>, k: nat)
    requires k < |terms|
    ensures AddTerms(hashtags, terms[..k + 1]) == Replace(AddTerms(hashtags, terms[..k]), TermKey, terms[k])
  {
    assert terms[..k + 1][..k] == terms[..k];
  }

  lemma MentionRowsCover(tid: TweetId, terms: seq<string>)
    ensures forall w :: w in terms ==> Mention(tid, w) in MentionRows(tid, terms)
  {
    var rows := MentionRows(tid, terms);
    forall w | w in terms ensures Mention(tid, w) in rows {
      var k :| 0 <= k < |terms| && terms[k] == w;
      assert rows[k] == Mention(tid, w);
    }
  }

  lemma MentionRowsSnoc(tid: TweetId, terms: seq<string>, k: nat)
    requires k < |terms|
    ensures MentionRows(tid, terms[..k + 1]) == MentionRows(tid, terms[..k]) + [Mention(tid, terms[k])]
  {
  }

  /** The database after composing `text` (a reply when `replyto` is set):
      None when there is no tweet yet to take MAX(tid) from. */
  function Composed(db: Db, writer: UserId, text: string, replyto: Option<TweetId>, tdate: Date): Option<Db> {
    match NextTid(db.tweets)
    case None => None
    case Some(tid) =>
      var terms := Extract(text);
      Some(db.(tweets := db.tweets + [Tweet(tid, writer, tdate, text, replyto)],
               hashtags := AddTerms(db.hashtags, terms),
               mentions := db.mentions + MentionRows(tid, terms)))
  }

  /** `REPLACE INTO retweets(usr,tid,rdate)`. */
  function Retweeted(db: Db, usr: UserId, tid: TweetId, rdate: Date): Db {
    db.(retweets := Replace(db.retweets, RetweetKey, Retweet(usr, tid, rdate)))
  }

  /** `REPLACE INTO follows(flwer,flwee,start_date)`. */
  function Followed(db: Db, flwer: UserId, flwee: UserId, startDate: Date): Db {
    db.(follows := Replace(db.follows, FollowKey, Follow(flwer, flwee, startDate)))
  }

  /** Sign-up: the next user id, then `INSERT INTO users`. */
  function SignedUp(db: Db, pwd: string, name: string, email: string, city: string, timezone: string): Option<Db> {
    match NextUsr(db.users)
    case None => None
    case Some(usr) => Some(db.(users := db.users + [User(usr, pwd, name, email, city, timezone)]))
  }

  // ------------------------------------------------------------ compose

  lemma {:induction false} AddTermsContains(hashtags: seq<string>, terms: seq<string>)
    ensures forall w :: w in AddTerms(hashtags, terms) <==> w in hashtags || w in terms
    ensures UniqueKeys(hashtags, TermKey) ==> UniqueKeys(AddTerms(hashtags, terms), TermKey)
    decreases |terms|
  {
    if terms != [] {
      var init, last := terms[..|terms| - 1], terms[|terms| - 1];
      AddTermsContains(hashtags, init);
      assert terms == init + [last];
      if UniqueKeys(hashtags, TermKey) {
        ReplaceUniqueKeys(AddTerms(hashtags, init), TermKey, last);
      }
    }
  }

  lemma WhereSnoc<T(!new), K>(table: seq<T>, row: T, field: T -> K, v: K)
    ensures |Where(table + [row], field, v)| == |Where(table, field, v)| + (if field(row) == v then 1 else 0)
  {
    WhereAppend(table, [row], field, v);
    assert [row][1..] == [];
  }

  /** Composing fails exactly when the tweets table is empty. Otherwise the
      new tweet goes last with an id above every stored id, its writer's
      tweet count and its parent's reply count each grow by one, every term
      of its text is a stored hashtag with a mention row for the tweet, the
      other tables are untouched and the primary keys still hold. */
  lemma ComposedSpec(db: Db, writer: UserId, text: string, replyto: Option<TweetId>, tdate: Date)
    ensures Composed(db, writer, text, replyto, tdate).None? <==> db.tweets == []
    ensures Composed(db, writer, text, replyto, tdate).Some? ==>
              var db' := Composed(db, writer, text, replyto, tdate).value;
              var tid := NextTid(db.tweets).value;
              && db'.tweets == db.tweets + [Tweet(tid, writer, tdate, text, replyto)]
              && (forall t :: t in db.tweets ==> t.tid < tid)
              && TweetCount(db', writer) == TweetCount(db, writer) + 1
              && (forall w :: w != writer ==> TweetCount(db', w) == TweetCount(db, w))
              && (replyto.Some? ==> ReplyCount(db', replyto.value) == ReplyCount(db, replyto.value) + 1)
              && (forall w :: w in Extract(text) ==> w in db'.hashtags && Mention(tid, w) in db'.mentions)
              && db'.mentions == db.mentions + MentionRows(tid, Extract(text))
              && (forall w :: w in db'.hashtags <==> w in db.hashtags || w in Extract(text))
              && db'.users == db.users && db'.follows == db.follows && db'.retweets == db.retweets
              && (Keyed(db) ==> Keyed(db'))
  {
    if db.tweets != [] {
      ComposedCounts(db, writer, text, replyto, tdate);
      ComposedTerms(db, writer, text, replyto, tdate);
      if Keyed(db) {
        ComposedKeyed(db, writer, text, replyto, tdate);
      }
    }
  }

  lemma ComposedCounts(db: Db, writer: UserId, text: string, replyto: Option<TweetId>, tdate: Date)
    requires db.tweets != []
    ensures var db' := Composed(db, writer, text, replyto, tdate).value;
            && (forall w :: TweetCount(db', w) == TweetCount(db, w) + (if w == writer then 1 else 0))
            && (replyto.Some? ==> ReplyCount(db', replyto.value) == ReplyCount(db, replyto.value) + 1)
  {
    var tid := NextTid(db.tweets).value;
    var row := Tweet(tid, writer, tdate, text, replyto);
    var db' := Composed(db, writer, text, replyto, tdate).value;
    assert db'.tweets == db.tweets + [row];
    forall w ensures TweetCount(db', w) == TweetCount(db, w) + (if w == writer then 1 else 0) {
      WhereSnoc(db.tweets, row, Writer, w);
    }
    if replyto.Some? {
      WhereSnoc(db.tweets, row, ReplyTo, replyto);
    }
  }

  lemma ComposedTerms(db: Db, writer: UserId, text: string, replyto: Option<TweetId>, tdate: Date)
    requires db.tweets != []
    ensures var db' := Composed(db, writer, text, replyto, tdate).value;
            var tid := NextTid(db.tweets).value;
            && (forall w :: w in Extract(text) ==> w in db'.hashtags && Mention(tid, w) in db'.mentions)
            && (forall w :: w in db'.hashtags <==> w in db.hashtags || w in Extract(text))
            && (UniqueKeys(db.hashtags, TermKey) ==> UniqueKeys(db'.hashtags, TermKey))
  {
    var tid := NextTid(db.tweets).value;
    var db' := Composed(db, writer, text, replyto, tdate).value;
    var terms := Extract(text);
    assert db'.hashtags == AddTerms(db.hashtags, terms);
    assert db'.mentions == db.mentions + MentionRows(tid, terms);
    AddTermsContains(db.hashtags, terms);
    MentionRowsCover(tid, terms);
  }

  lemma ComposedKeyed(db: Db, writer: UserId, text: string, replyto: Option<TweetId>, tdate: Date)
    requires db.tweets != [] && Keyed(db)
    ensures Keyed(Composed(db, writer, text, replyto, tdate).value)
  {
    var tid := NextTid(db.tweets).value;
    var db' := Composed(db, writer, text, replyto, tdate).value;
    assert db'.tweets == db.tweets + [Tweet(tid, writer, tdate, text, replyto)];
    ComposedTerms(db, writer, text, replyto, tdate);
    forall i, j | 0 <= i < j < |db'.tweets| ensures db'.tweets[i].tid != db'.tweets[j].tid {
      if j == |db.tweets| {
        assert db'.tweets[i] in db.tweets;
      }
    }
  }

  /** A composed tweet is found by the search for each of its hashtags: the
      mention row carries the term itself, and a term matches itself under
      LIKE. */
  lemma ComposedTweetFoundByItsHashtags(db: Db, writer: UserId, text: string, replyto: Option<TweetId>, tdate: Date, w: string)
    requires Composed(db, writer, text, replyto, tdate).Some?
    requires w in Extract(text)
    ensures Tweet(NextTid(db.tweets).value, writer, tdate, text, replyto)
              in TermMatches(Composed(db, writer, text, replyto, tdate).value, "#" + w)
  {
    var db' := Composed(db, writer, text, replyto, tdate).value;
    var tid := NextTid(db.tweets).value;
    var row := Tweet(tid, writer, tdate, text, replyto);
    assert row in db'.tweets by {
      assert db'.tweets == db.tweets + [row];
    }
    assert Mention(tid, w) in db'.mentions by {
      ComposedTerms(db, writer, text, replyto, tdate);
    }
    assert Like(w, w) by {
      LikeSelf(w);
    }
    var term := "#" + w;
    assert IsHashtagTerm(term) && term[1..] == w;
    TermMatchesSpec(db', term);
  }

  /** Two composes in a row hand out increasing ids. */
  lemma ComposeIdsIncrease(db: Db, w1: UserId, text1: string, r1: Option<TweetId>, d1: Date,
                           w2: UserId, text2: string, r2: Option<TweetId>, d2: Date)
    requires Composed(db, w1, text1, r1, d1).Some?
    ensures var db1 := Composed(db, w1, text1, r1, d1).value;
            && Composed(db1, w2, text2, r2, d2).Some?
            && NextTid(db.tweets).value < NextTid(db1.tweets).value
  {
    ComposedSpec(db, w1, text1, r1, d1);
    var db1 := Composed(db, w1, text1, r1, d1).value;
    assert db1.tweets[|db1.tweets| - 1] in db1.tweets;
  }

  // ------------------------------------------------------ retweet and follow

  function FollowerOf(k: (UserId, UserId)): UserId { k.0 }

  /** A retweet raises the tweet's retweet count by one unless that user had
      already retweeted it, leaves every other count alone, and keeps the
      primary keys. */
  lemma RetweetedSpec(db: Db, usr: UserId, tid: TweetId, rdate: Date)
    requires Keyed(db)
    ensures Keyed(Retweeted(db, usr, tid, rdate))
    ensures RetweetCount(Retweeted(db, usr, tid, rdate), tid)
         == RetweetCount(db, tid) + (if HasKey(db.retweets, RetweetKey, (usr, tid)) then 0 else 1)
    ensures forall other :: other != tid ==> RetweetCount(Retweeted(db, usr, tid, rdate), other) == RetweetCount(db, other)
  {
    WhereAfterReplace(db.retweets, RetweetKey, Retweet(usr, tid, rdate), RetweetedTid, TidOf);
    ReplaceUniqueKeys(db.retweets, RetweetKey, Retweet(usr, tid, rdate));
  }

  /** Retweeting the same tweet again only moves the date. */
  lemma RetweetTwice(db: Db, usr: UserId, tid: TweetId, d1: Date, d2: Date)
    ensures Retweeted(Retweeted(db, usr, tid, d1), usr, tid, d2) == Retweeted(db, usr, tid, d2)
  {
    ReplaceTwice(db.retweets, RetweetKey, Retweet(usr, tid, d1), Retweet(usr, tid, d2));
  }

  /** A follow raises the followee's follower count and the follower's
      following count by one unless the edge existed, changes no other
      count, and keeps the primary keys. */
  lemma FollowedSpec(db: Db, flwer: UserId, flwee: UserId, startDate: Date)
    requires Keyed(db)
    ensures Keyed(Followed(db, flwer, flwee, startDate))
    ensures FollowerCount(Followed(db, flwer, flwee, startDate), flwee)
         == FollowerCount(db, flwee) + (if HasKey(db.follows, FollowKey, (flwer, flwee)) then 0 else 1)
    ensures FollowingCount(Followed(db, flwer, flwee, startDate), flwer)
         == FollowingCount(db, flwer) + (if HasKey(db.follows, FollowKey, (flwer, flwee)) then 0 else 1)
    ensures forall u :: u != flwee ==> FollowerCount(Followed(db, flwer, flwee, startDate), u) == FollowerCount(db, u)
    ensures forall u :: u != flwer ==> FollowingCount(Followed(db, flwer, flwee, startDate), u) == FollowingCount(db, u)
  {
    FollowerCountsAfterFollow(db, flwer, flwee, startDate);
    FollowingCountsAfterFollow(db, flwer, flwee, startDate);
    ReplaceUniqueKeys(db.follows, FollowKey, Follow(flwer, flwee, startDate));
  }

  lemma FollowerCountsAfterFollow(db: Db, flwer: UserId, flwee: UserId, startDate: Date)
    requires UniqueKeys(db.follows, FollowKey)
    ensures FollowerCount(Followed(db, flwer, flwee, startDate), flwee)
         == FollowerCount(db, flwee) + (if HasKey(db.follows, FollowKey, (flwer, flwee)) then 0 else 1)
    ensures forall u :: u != flwee ==> FollowerCount(Followed(db, flwer, flwee, startDate), u) == FollowerCount(db, u)
  {
    WhereAfterReplace(db.follows, FollowKey, Follow(flwer, flwee, startDate), Flwee, FolloweeOf);
  }

  lemma FollowingCountsAfterFollow(db: Db, flwer: UserId, flwee: UserId, startDate: Date)
    requires UniqueKeys(db.follows, FollowKey)
    ensures FollowingCount(Followed(db, flwer, flwee, startDate), flwer)
         == FollowingCount(db, flwer) + (if HasKey(db.follows, FollowKey, (flwer, flwee)) then 0 else 1)
    ensures forall u :: u != flwer ==> FollowingCount(Followed(db, flwer, flwee, startDate), u) == FollowingCount(db, u)
  {
    WhereAfterReplace(db.follows, FollowKey, Follow(flwer, flwee, startDate), Flwer, FollowerOf);
  }

  /** Following someone again only moves the start date. */
  lemma FollowTwice(db: Db, flwer: UserId, flwee: UserId, d1: Date, d2: Date)
    ensures Followed(Followed(db, flwer, flwee, d1), flwer, flwee, d2) == Followed(db, flwer, flwee, d2)
  {
    ReplaceTwice(db.follows, FollowKey, Follow(flwer, flwee, d1), Follow(flwer, flwee, d2));
  }

  /** After following a user, every tweet that user wrote is in the
      follower's timeline. */
  lemma FollowedWriterInFeed(db: Db, flwer: UserId, flwee: UserId, startDate: Date, t: Tweet)
    requires t in db.tweets && t.writer == flwee
    ensures t in Feed(Followed(db, flwer, flwee, startDate), flwer)
  {
    var db' := Followed(db, flwer, flwee, startDate);
    assert Follow(flwer, flwee, startDate) in db'.follows;
    assert FollowsUser(db', flwer, flwee);
    FeedIsTheUnion(db', flwer);
  }

  // ---------------------------------------------------------------- sign-up

  /** Sign-up fails exactly on an empty users table; otherwise the new user
      goes last under an id above every stored id, so user ids stay unique. */
  lemma SignedUpSpec(db: Db, pwd: string, name: string, email: string, city: string, timezone: string)
    ensures SignedUp(db, pwd, name, email, city, timezone).None? <==> db.users == []
    ensures SignedUp(db, pwd, name, email, city, timezone).Some? ==>
              var db' := SignedUp(db, pwd, name, email, city, timezone).value;
              var usr := NextUsr(db.users).value;
              && db'.users == db.users + [User(usr, pwd, name, email, city, timezone)]
              && (forall u :: u in db.users ==> u.usr < usr)
              && (Keyed(db) ==> Keyed(db'))
  {
    if db.users != [] {
      var db' := SignedUp(db, pwd, name, email, city, timezone).value;
      if Keyed(db) {
        forall i, j | 0 <= i < j < |db'.users| ensures db'.users[i].usr != db'.users[j].usr {
          if j == |db.users| {
            assert db'.users[i] in db.users;
          }
        }
      }
    }
  }

  /** The loop of compose_tweet: for each term, REPLACE it into hashtags
      and INSERT its mention row. */
  method RecordTerms(hashtags: seq<string>, mentions: seq<Mention>, id: TweetId, terms: seq<string>)
    returns (h: seq<string>, m: seq<Mention>)
    ensures h == AddTerms(hashtags, terms)
    ensures m == mentions + MentionRows(id, terms)
  {
    h, m := hashtags, mentions;
    for k := 0 to |terms|
      invariant h == AddTerms(hashtags, terms[..k])
      invariant m == mentions + MentionRows(id, terms[..k])
    {
      AddTermsSnoc(hashtags, terms, k);
      h := Replace(h, TermKey, terms[k]);
      MentionRowsSnoc(id, terms, k);
      m := m + [Mention(id, terms[k])];
    }
    assert terms[..|terms|] == terms;
  }

  // ------------------------------------------------------------ the object

  /** The open connection: six tables that the writes update in place. */
  class Database {
    var users: seq<User>
    var tweets: seq<Tweet>
    var follows: seq<Follow>
    var retweets: seq<Retweet>
    var hashtags: seq<string>
    var mentions: seq<Mention>

    function Snapshot(): Db
      reads this
    {
      Db(users, tweets, follows, retweets, hashtags, mentions)
    }

    constructor(db: Db)
      ensures Snapshot() == db
    {
      users, tweets, follows, retweets, hashtags, mentions :=
        db.users, db.tweets, db.follows, db.retweets, db.hashtags, db.mentions;
    }

    /** compose_tweet: the new id, the tweet row, then one hashtag REPLACE
        and one mention INSERT per extracted term. */
    method ComposeTweet(writer: UserId, text: string, replyto: Option<TweetId>, tdate: Date) returns (tid: Option<TweetId>)
      modifies this
      ensures tid == NextTid(old(tweets))
      ensures tid.None? ==> Snapshot() == old(Snapshot())
      ensures tid.Some? ==> Some(Snapshot()) == Composed(old(Snapshot()), writer, text, replyto, tdate)
    {
      var max := MaxTid(tweets);
      if max.None? {
        return None;
      }
      var id := max.value + 1;
      tweets := tweets + [Tweet(id, writer, tdate, text, replyto)];
      hashtags, mentions := RecordTerms(hashtags, mentions, id, Extract(text));
      tid := Some(id);
    }

    /** The `rt` action on a tweet. */
    method Retweet(usr: UserId, tid: TweetId, rdate: Date)
      modifies this
      ensures Snapshot() == Retweeted(old(Snapshot()), usr, tid, rdate)
    {
      retweets := Replace(retweets, RetweetKey, Tables.Retweet(usr, tid, rdate));
    }

    /** The `f` action on a follower's page: `usr` follows `flwee`. */
    method Follow(usr: UserId, flwee: UserId, startDate: Date)
      modifies this
      ensures Snapshot() == Followed(old(Snapshot()), usr, flwee, startDate)
    {
      follows := Replace(follows, FollowKey, Tables.Follow(usr, flwee, startDate));
    }

    /** signup_page: the next user id, then the new row. */
    method SignUp(pwd: string, name: string, email: string, city: string, timezone: string) returns (usr: Option<UserId>)
      modifies this
      ensures usr == NextUsr(old(users))
      ensures usr.None? ==> Snapshot() == old(Snapshot())
      ensures usr.Some? ==> Some(Snapshot()) == SignedUp(old(Snapshot()), pwd, name, email, city, timezone)
    {
      var max := MaxUsr(users);
      if max.None? {
        return None;
      }
      usr := Some(max.value + 1);
      users := users + [User(usr.value, pwd, name, email, city, timezone)];
    }
  }
}
