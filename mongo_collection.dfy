/** The `tweet_info` collection as in-memory state, and the one write the
    application makes to it: `compose_tweets` builds a document and inserts
    it with `insert_one`. */
module DocStore {
  import opened Wrappers
  import opened Seqs
  import opened Text
  import opened Docs
  import opened DocQueries

  class Collection {
    /** The documents in insertion order. The queries assume that `find`
        and the pipeline read them in this order; MongoDB promises no order
        without a sort. */
    var docs: seq<TweetDoc>

    constructor (initial: seq<TweetDoc>)
      ensures docs == initial
    {
      docs := initial;
    }

    /** `insert_one(d)`: the document goes last and nothing else changes. */
    method InsertOne(d: TweetDoc)
      modifies this
      ensures docs == old(docs) + [d]
    {
      docs := docs + [d];
    }

    /** `compose_tweets` with the typed text and the formatted current time
        (the clock is a parameter). */
    method ComposeTweet(text: string, date: string)
      modifies this
      ensures docs == old(docs) + [NewTweetDoc(text, date)]
    {
      var d := NewTweetDoc(text, date);
      InsertOne(d);
    }
  }

  /** A composed tweet is found by a search with its own text (unless
      that text is blank or is the exit line, and as long as its words are
      plain text to `$regex`), and the earlier results stay. */
  lemma ComposedTweetIsSearchable(docs: seq<TweetDoc>, text: string, date: string)
    requires exists i | 0 <= i < |text| :: !IsSpace(text[i])
    requires !IsExitLine(text)
    requires forall k :: 0 <= k < |SplitWords(text)| ==> NoRegexMeta(SplitWords(text)[k])
    ensures SearchTweets(docs + [NewTweetDoc(text, date)], text).Found?
    ensures NewTweetDoc(text, date) in SearchTweets(docs + [NewTweetDoc(text, date)], text).tweets
    ensures forall d :: d in SearchTweets(docs, text).tweets ==>
              d in SearchTweets(docs + [NewTweetDoc(text, date)], text).tweets
  {
    var d := NewTweetDoc(text, date);
    SplitWordsOccur(text);
    assert MatchesAll(SplitWords(text), d);
    SearchTweetsSpec(docs + [d], text);
    SearchTweetsSpec(docs, text);
  }

  /** A composed tweet has neither display name nor location, so no user
      search ever lists its author: the search result is unchanged. */
  lemma ComposeKeepsFoundUsers(docs: seq<TweetDoc>, text: string, date: string, kw: string)
    ensures FoundUsers(docs + [NewTweetDoc(text, date)], kw) == FoundUsers(docs, kw)
  {
    var d := NewTweetDoc(text, date);
    assert !UserMatches(kw, d);
    FilterAppend(docs, [d], UserFilter(kw));
    assert Filter([d], UserFilter(kw)) == [];
    assert Filter(docs + [d], UserFilter(kw)) == Filter(docs, UserFilter(kw));
  }

  /** `$max` ignores the null follower count of a composed tweet's author. */
  lemma {:induction false} MaxFollowersIgnoresNull(users: seq<UserDoc>, u: UserDoc, name: string)
    requires u.followersCount.None?
    ensures MaxFollowers(users + [u], name) == MaxFollowers(users, name)
  {
    if users == [] {
      assert ([] + [u])[1..] == [];
    } else {
      assert (users + [u])[1..] == users[1..] + [u];
      MaxFollowersIgnoresNull(users[1..], u, name);
    }
  }

  /** Composing changes no user's follower maximum. */
  lemma ComposeKeepsMaxFollowers(docs: seq<TweetDoc>, text: string, date: string, name: string)
    ensures MaxFollowers(Profiles(docs + [NewTweetDoc(text, date)]), name) == MaxFollowers(Profiles(docs), name)
  {
    var d := NewTweetDoc(text, date);
    assert Profiles(docs + [d]) == Profiles(docs) + [d.user];
    MaxFollowersIgnoresNull(Profiles(docs), d.user, name);
  }
}
