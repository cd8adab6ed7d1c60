/** The documents of the `tweet_info` collection: one tweet each, with its
    author's profile embedded under `user`. Counters and most strings are
    optional, because a composed tweet stores null in them. */
module Docs {
  import opened Wrappers

  /** The embedded `user` object. */
  datatype UserDoc = UserDoc(
    username: string,
    displayname: Option<string>,
    id: Option<int>,
    description: Option<string>,
    verified: Option<bool>,
    created: Option<string>,
    followersCount: Option<int>,
    friendsCount: Option<int>,
    statusesCount: Option<int>,
    favouritesCount: Option<int>,
    listedCount: Option<int>,
    mediaCount: Option<int>,
    location: Option<string>)

  datatype TweetDoc = TweetDoc(
    url: Option<string>,
    date: string,
    content: string,
    renderedContent: Option<string>,
    id: Option<int>,
    user: UserDoc,
    replyCount: Option<int>,
    retweetCount: Option<int>,
    likeCount: Option<int>,
    quoteCount: Option<int>,
    conversationId: Option<int>,
    lang: Option<string>)

  /** The three counters the top-tweets listing can sort by. */
  datatype Counter = Retweets | Likes | Quotes

  function CounterOf(d: TweetDoc, c: Counter): Option<int> {
    match c
    case Retweets => d.retweetCount
    case Likes => d.likeCount
    case Quotes => d.quoteCount
  }

  /** The fixed author of every composed tweet. */
  const ComposerName: string := "291user"

  /** The profile a composed tweet carries: only the username is set. */
  const ComposerProfile: UserDoc :=
    UserDoc(ComposerName, None, None, None, None, None, None, None, None, None, None, None, None)

  /** The document compose_tweets builds from the typed text and the
      formatted current time. */
  function NewTweetDoc(text: string, date: string): (d: TweetDoc)
    ensures d.content == text && d.date == date
    ensures d.user.username == ComposerName
    ensures d.user.followersCount.None? && d.user.displayname.None? && d.user.location.None?
    ensures forall c :: CounterOf(d, c).None?
    ensures d.replyCount.None? && d.id.None? && d.renderedContent.None?
  {
    TweetDoc(None, date, text, None, None, ComposerProfile, None, None, None, None, None, None)
  }
}
