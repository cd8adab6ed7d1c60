/** The relational store of the console client: six tables, each a sequence
    of rows in storage order. */
module Tables {
  import opened Wrappers
  import opened Seqs

  type UserId = int
  type TweetId = int

  /** A calendar day. The store keeps `YYYY-MM-DD` strings, whose string
      order is their chronological order; the model keeps that order. */
  type Date = int

  datatype User = User(usr: UserId, pwd: string, name: string, email: string, city: string, timezone: string)

  datatype Tweet = Tweet(tid: TweetId, writer: UserId, tdate: Date, text: string, replyto: Option<TweetId>)

  datatype Follow = Follow(flwer: UserId, flwee: UserId, startDate: Date)

  datatype Retweet = Retweet(usr: UserId, tid: TweetId, rdate: Date)

  /** A hashtag used in a tweet (a row of `mentions`). */
  datatype Mention = Mention(tid: TweetId, term: string)

  datatype Db = Db(
    users: seq<User>,
    tweets: seq<Tweet>,
    follows: seq<Follow>,
    retweets: seq<Retweet>,
    hashtags: seq<string>,
    mentions: seq<Mention>)

  // Columns, as functions a WHERE clause or a key can name.
  function UserKey(u: User): UserId { u.usr }
  function TweetKey(t: Tweet): TweetId { t.tid }
  function Writer(t: Tweet): UserId { t.writer }
  function ReplyTo(t: Tweet): Option<TweetId> { t.replyto }
  function Flwer(f: Follow): UserId { f.flwer }
  function Flwee(f: Follow): UserId { f.flwee }
  function RetweetedTid(r: Retweet): TweetId { r.tid }
  function MentionTid(m: Mention): TweetId { m.tid }

  /** The keys REPLACE resolves conflicts on. */
  function FollowKey(f: Follow): (UserId, UserId) { (f.flwer, f.flwee) }
  function RetweetKey(r: Retweet): (UserId, TweetId) { (r.usr, r.tid) }
  function TermKey(term: string): string { term }

  function FolloweeOf(k: (UserId, UserId)): UserId { k.1 }
  function TidOf(k: (UserId, TweetId)): TweetId { k.1 }

  /** The primary keys the REPLACE writes rely on. */
  predicate Keyed(db: Db) {
    && UniqueKeys(db.users, UserKey)
    && UniqueKeys(db.tweets, TweetKey)
    && UniqueKeys(db.follows, FollowKey)
    && UniqueKeys(db.retweets, RetweetKey)
    && UniqueKeys(db.hashtags, TermKey)
  }

  /** `SELECT MAX(tid) FROM tweets`: NULL on an empty table. */
  function MaxTid(tweets: seq<Tweet>): (m: Option<TweetId>)
    ensures m.None? <==> tweets == []
    ensures m.Some? ==> exists t :: t in tweets && t.tid == m.value
    ensures m.Some? ==> forall t :: t in tweets ==> t.tid <= m.value
  {
    if tweets == [] then None
    else
      var rest := MaxTid(tweets[1..]);
      if rest.None? || tweets[0].tid >= rest.value then Some(tweets[0].tid) else rest
  }

  /** `SELECT MAX(usr) FROM users`: NULL on an empty table. */
  function MaxUsr(users: seq<User>): (m: Option<UserId>)
    ensures m.None? <==> users == []
    ensures m.Some? ==> exists u :: u in users && u.usr == m.value
    ensures m.Some? ==> forall u :: u in users ==> u.usr <= m.value
  {
    if users == [] then None
    else
      var rest := MaxUsr(users[1..]);
      if rest.None? || users[0].usr >= rest.value then Some(users[0].usr) else rest
  }
}
