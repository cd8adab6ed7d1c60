# Tweetbook, modelled in Dafny

Tweetbook is a console micro-blogging client with two back ends.

The relational client (`SQL/tweetbook.py`) works on a SQLite database with these tables:
`users`, `tweets`, `follows`, `retweets`, `hashtags` and `mentions`. It offers:
- a paged timeline of the tweets that followees wrote or retweeted;
- tweet statistics;
- follower lists with each follower's counts and tweets;
- tweet search: one LIKE query per keyword, the pages merged into one list;
- user search: ranked by where the keyword matches, then by name and city length;
- composing a tweet, which takes the next id and records its hashtags and mentions;
- retweeting and following, which are `REPLACE` writes;
- sign-up.

The document client (`mongodb/tweetbook.py`) works on one MongoDB collection, `tweet_info`. Each document is a
tweet that embeds its author's profile. It offers:
- tweet search: every keyword as a case-insensitive regex;
- user search: whole-word matches on display name or location, deduplicated by username;
- the top n tweets by a counter;
- the top n users by follower count (an aggregation pipeline);
- composing a tweet as a new document.

Each listing is numbered on screen, and a typed number selects an entry.

The model's layers:
- **Value types:** rows and documents are datatypes. A table or collection is a sequence in storage order.
- **Queries:** each query is a function of the database value, built from a filter, a sort by a total preorder and a LIMIT/OFFSET window.
- **Writes:**
  - The writes are functions that return the new database.
  - The same writes also appear as methods of the `Store.Database` and `DocStore.Collection` classes. Those methods update the tables in place, and each method is proved to produce its function's result.
  - The loops of the source (the search merge, the hashtag loop of compose and the display loops) are methods with loop invariants. Each is proved against a specification function.

Files:
- `text.dfy`: ASCII case folding; the `\w`, `str.split()` and digit classes.
- `like.dfy`: SQLite's LIKE.
- `seqs.dfy`: filter, dedup, sort, window and the key-replace of `REPLACE INTO`.
- `paging.dfy`: the page cursor.
- `sql_*.dfy`: the relational client.
- `mongo_*.dfy`: the document client.

## Model

| member | source | states |
|---|---|---|
| SqlLike.LikeContains | SQL/tweetbook.py:493-496 | for a keyword with no `%` or `_`, `text LIKE '%kw%'` holds exactly when the keyword occurs in the text, ignoring ASCII case |
| SqlLike.LikeExact | SQL/tweetbook.py:487 | for a term with no wildcard, `m1.term LIKE ?` is equality up to ASCII case, not exact equality |
| SqlLike.LikeLowerSubject | SQL/tweetbook.py:565 | lower-casing the column before LIKE changes no match |
| SqlLike.LikeLowerPattern | SQL/tweetbook.py:573 | lower-casing the keyword before LIKE changes no match |
| SqlLike.UnderscoreIsWildcard | SQL/tweetbook.py:487-491 | a `_` in a searched hashtag matches any one character: `go` is found by `#g_` |
| SqlLike.PercentInKeywordIsWildcard | SQL/tweetbook.py:493-496 | a `%` typed in a keyword is a wildcard: `520` is found by `5%0`, which it does not contain |
| Paging.Offset | SQL/tweetbook.py:148 | the OFFSET of a page is non-negative from page 1 on and negative below it; offset plus page size is page times size |
| Paging.FreeCursorDrifts | SQL/tweetbook.py:192-193 | as written: from page 1, P reaches page 0, and a later N shows page 1 again, where the floored cursor shows page 2 |
| Paging.FreeStepsCancel | SQL/tweetbook.py:190-193 | without a floor, N undoes P and P undoes N on every page; with the floor, P then N from page 1 ends on page 2 |
| Paging.StepFloored | SQL/tweetbook.py:527-533 | P on page 1 keeps page 1; every other step is the free step; the cursor never drops below 1 |
| Paging.WalkFreeIsNetCount | SQL/tweetbook.py:190-193 | without a floor, the page is the start page plus the N presses minus the P presses, in any order |
| Paging.WalkFlooredStaysOnPages | SQL/tweetbook.py:527-533 | with the floor, the cursor stays at page 1 or above and its OFFSET is never negative |
| Paging.WalkFlooredAtLeastFree | SQL/tweetbook.py:527-533 | the floored cursor is never below the free cursor after the same keys |
| Paging.PagesBeforeFirstShowFirst | SQL/tweetbook.py:163 | a page at or below 1 shows the same rows as page 1 (a negative OFFSET reads as zero) |
| Tables.MaxTid | SQL/tweetbook.py:288 | `MAX(tid)` is NULL exactly on an empty table; otherwise it is a stored id and no id exceeds it |
| Tables.MaxUsr | SQL/tweetbook.py:119 | `MAX(usr)` is NULL exactly on an empty table; otherwise it is a stored id and no id exceeds it |
| Hashtags.WordRun | SQL/tweetbook.py:285 | the `\w+` part of a match is the longest run of word characters at that point |
| Hashtags.Extract | SQL/tweetbook.py:285 | every term found is a non-empty run of word characters |
| Hashtags.ExtractIsPerHash | SQL/tweetbook.py:285 | the left-to-right scan yields exactly one term per `#` followed by a word character, in text order |
| Hashtags.RepeatsAreKept | SQL/tweetbook.py:298-306 | a repeated hashtag yields one term per occurrence, so the loop writes it twice |
| Queries.NewerOrSameIsPreorder | SQL/tweetbook.py:162 | `ORDER BY tdate DESC` is a total preorder |
| Queries.SortNewestFirst | SQL/tweetbook.py:162 | sorting puts the newest tweets first and keeps exactly the same tweets |
| Queries.NewestFirstWindow | SQL/tweetbook.py:163 | a LIMIT/OFFSET page of a newest-first list is newest-first |
| Queries.FeedIsTheUnion | SQL/tweetbook.py:151-162 | the timeline holds exactly the stored tweets written or retweeted by a followee, each once, newest first |
| Queries.TimelinePageSpec | SQL/tweetbook.py:151-163 | a timeline page has at most five distinct tweets, newest first, each from the feed at its offset position |
| Queries.TimelinePagesCoverFeed | SQL/tweetbook.py:148-163 | feed entry i is on page i/5 + 1 at position i mod 5, so paging forward reaches every tweet |
| Queries.NoFolloweesNoTimeline | SQL/tweetbook.py:151-161 | a user who follows nobody has an empty timeline on every page |
| Queries.FollowerRows | SQL/tweetbook.py:333-337 | the follower list holds exactly the users whose id follows the given user |
| Queries.FollowerRowsLength | SQL/tweetbook.py:333-337 | with unique user ids and every follower stored, the join has one row per follow edge |
| Queries.FollowerListMatchesCount | SQL/tweetbook.py:333-337 | the number of followers listed equals the follower count shown on a follower's page |
| Queries.RetweetCount | SQL/tweetbook.py:222-223 | the retweet count is at most the table size, and zero exactly when no retweet row names the tweet |
| Queries.RetweetersCounted | SQL/tweetbook.py:222-223 | with the key (usr, tid), the retweet count is the number of distinct users who retweeted the tweet |
| Queries.ReplyCount | SQL/tweetbook.py:226-227 | the reply count is at most the table size, and zero exactly when no tweet replies to the tweet |
| Queries.TweetCount | SQL/tweetbook.py:382-383 | the tweet count is at most the table size, and zero exactly when the user wrote no tweet |
| Queries.TweetsCounted | SQL/tweetbook.py:226-227 | with the key tid, the reply count is the number of distinct replies and the tweet count (SQL/tweetbook.py:382-383) the number of distinct tweets the user wrote |
| Queries.FollowingCount | SQL/tweetbook.py:386-387 | the following count is at most the table size, and zero exactly when the user follows nobody |
| Queries.FollowerCount | SQL/tweetbook.py:390-391 | the follower count is at most the table size, and zero exactly when nobody follows the user |
| Queries.FollowsCounted | SQL/tweetbook.py:386-391 | with the key (flwer, flwee), the follower count is the number of distinct followers and the following count the number of distinct followees |
| Queries.UserName | SQL/tweetbook.py:395 | the name lookup fails exactly when no user has the id; otherwise it is the name of a user with that id |
| Queries.WriterPage | SQL/tweetbook.py:408-414 | page p lists min(3, what is left) texts, the k-th being the text of the writer's tweet at position 3(p-1)+k of their newest-first list (from position 0 below page 1) |
| Queries.WriterTweetsSpec | SQL/tweetbook.py:408-414 | the writer's list holds exactly the stored tweets by that writer, newest first; page p holds min(3, what is left) of them, the k-th being entry 3(p-1)+k of the list |
| Queries.MentionJoin | SQL/tweetbook.py:484-491 | the join keeps a tweet exactly when it has a mention whose term matches the pattern |
| Queries.TermMatchesNewestFirst | SQL/tweetbook.py:484-496 | both search queries return tweets newest first |
| Queries.TermMatchesSpec | SQL/tweetbook.py:483-496 | a `#` keyword finds the tweets with a mention LIKE the rest of it; any other keyword finds the tweets whose text is LIKE `%kw%` |
| Queries.TermRowsSpec | SQL/tweetbook.py:480-496 | a hashtag page holds at most 5 rows and a text page at most 10, newest first, taken at offset (page-1)*5 |
| Queries.LiteralTermMatches | SQL/tweetbook.py:484-496 | without wildcards, a text keyword finds the tweets containing it, ignoring case, and a hashtag finds the tweets with a mention equal to it up to case |
| Queries.TextPagesOverlap | SQL/tweetbook.py:493-496 | a text page overlaps the next page: its rows 5 to 9 are the next page's rows 0 to 4, since LIMIT 10 walks with stride 5 |
| Queries.MergeSpec | SQL/tweetbook.py:502 | the merge starts with the new result, holds exactly the rows of both lists, keeps the result's repeats, and adds each older row once |
| Queries.SearchTweets | SQL/tweetbook.py:479-502 | the keyword loop computes the merge of all keyword pages, folded left to right |
| Queries.SearchResultsMembers | SQL/tweetbook.py:479-502 | the merged list holds exactly the rows that some keyword's query returned |
| Queries.SearchResultsLeadWithLastTerm | SQL/tweetbook.py:502 | the merged list begins with the last keyword's rows |
| Queries.SearchResultsNoDups | SQL/tweetbook.py:502 | if no keyword's page repeats a row, the merged list repeats none |
| Queries.TextTermNoDups | SQL/tweetbook.py:493-496 | a text keyword's page repeats no tweet when the table repeats none |
| Queries.HashtagTermRepeatsTweet | SQL/tweetbook.py:484-491 | a hashtag page lists a tweet once per matching mention: mentions `go` and `GO` list it twice for `#go` |
| Queries.RankOrderIsPreorder | SQL/tweetbook.py:566-572 | the user ranking (tier, then name length, then city length) is a total preorder |
| Queries.RankedUsersSpec | SQL/tweetbook.py:562-572 | user search finds exactly the users whose lower-cased name or city is LIKE the pattern, and a strictly better-ranked user comes first |
| Queries.LiteralKeywordUsers | SQL/tweetbook.py:562-573 | without wildcards, a user is found exactly when the keyword occurs in the name or city ignoring case; tier 0 means it occurs in the name |
| Queries.UserSearchPageSpec | SQL/tweetbook.py:559-573 | page p holds min(5, what is left) users, the k-th being entry 5(p-1)+k of the ranked matches; all match the keyword and are in rank order |
| Store.NextTid | SQL/tweetbook.py:288-289 | the new tweet id is absent exactly on an empty table; otherwise it is exactly one more than a stored id and above every stored id, so MAX(tid)+1 |
| Store.NextUsr | SQL/tweetbook.py:119-120 | the new user id is absent exactly on an empty table; otherwise it is exactly one more than a stored id and above every stored id, so MAX(usr)+1 |
| Store.MentionRows | SQL/tweetbook.py:306 | one mention row per extracted term, in order, all for the new tweet |
| Store.AddTermsContains | SQL/tweetbook.py:303 | after the hashtag REPLACEs, the table holds exactly the old terms and the new ones |
| Store.RecordTerms | SQL/tweetbook.py:298-306 | the hashtag loop leaves the hashtag table as the successive REPLACEs do and appends one mention row per term |
| Store.ComposedSpec | SQL/tweetbook.py:285-306 | compose fails exactly on an empty tweets table; otherwise it appends the tweet under a fresh id, raises the writer's tweet count and the parent's reply count by one, stores every hashtag, appends exactly the mention rows of the extracted terms in order, changes no other table and keeps the primary keys |
| Store.ComposedTweetFoundByItsHashtags | SQL/tweetbook.py:285-306 | a composed tweet is found by a search for each of its hashtags |
| Store.ComposeIdsIncrease | SQL/tweetbook.py:288-289 | two composes in a row both succeed and hand out increasing ids |
| Store.RetweetedSpec | SQL/tweetbook.py:255 | a retweet raises that tweet's retweet count by one, or by zero if that user already retweeted it; other counts stay and keys stay unique |
| Store.RetweetTwice | SQL/tweetbook.py:255 | retweeting again only replaces the date |
| Store.FollowedSpec | SQL/tweetbook.py:443 | a follow raises the followee's follower count and the follower's following count by one unless the edge existed; no other count changes and keys stay unique |
| Store.FollowTwice | SQL/tweetbook.py:443 | following again only replaces the start date |
| Store.FollowedWriterInFeed | SQL/tweetbook.py:443 | after a follow, every tweet the followee wrote is in the follower's timeline |
| Store.SignedUpSpec | SQL/tweetbook.py:119-121 | sign-up fails exactly on an empty users table; otherwise the new user goes last under an id above every stored id, and keys stay unique |
| Store.Database.ComposeTweet | SQL/tweetbook.py:283-306 | the in-place compose returns the new id, leaves the tables alone when there is none, and otherwise leaves the tables as the compose function says |
| Store.Database.Retweet | SQL/tweetbook.py:255 | the in-place retweet leaves the tables as the retweet function says |
| Store.Database.Follow | SQL/tweetbook.py:443 | the in-place follow leaves the tables as the follow function says |
| Store.Database.SignUp | SQL/tweetbook.py:119-121 | the in-place sign-up returns the new id and leaves the tables as the sign-up function says |
| Docs.NewTweetDoc | mongodb/tweetbook.py:328-373 | a composed document holds the typed text and date, author `291user`, and null counters, display name, location, id and rendered content |
| DocQueries.SplitWords | mongodb/tweetbook.py:74 | `split()` yields non-empty words with no whitespace, none exactly when the input is all whitespace, and the whole input when it holds no whitespace |
| DocQueries.SplitAtSpace | mongodb/tweetbook.py:74 | splitting at any whitespace character gives the words before it followed by the words after it |
| DocQueries.SplitWordsOccur | mongodb/tweetbook.py:74-83 | every keyword occurs in the input line, so a tweet with that text matches its own search |
| DocQueries.SearchTweetsSpec | mongodb/tweetbook.py:70-84 | the search leaves exactly when the stripped input is `x` in either case, asks again exactly when the input is all whitespace, and otherwise finds exactly the documents containing every keyword, ignoring case, each as often as stored |
| DocQueries.PaddedExitLeaves | mongodb/tweetbook.py:70-72 | ` X ` leaves the search, since the input is stripped and lower-cased first |
| DocQueries.ExitAmongWordsSearches | mongodb/tweetbook.py:70-72 | `x y` is not the exit line, so it runs a search |
| DocQueries.MoreKeywordsNarrow | mongodb/tweetbook.py:79-80 | adding keywords to the `$and` never finds more documents |
| DocQueries.WholeWordIsContains | mongodb/tweetbook.py:131-132 | a `\bkw\b` match is in particular a substring match |
| DocQueries.WholeWordExamples | mongodb/tweetbook.py:131-132 | `EDMONTON` matches `Edmonton, Alberta` as a word, but `edm` does not match inside `Edmonton` |
| DocQueries.PutNames | mongodb/tweetbook.py:138 | a dict store keeps a known key's place and adds a new key last |
| DocQueries.UserDictNames | mongodb/tweetbook.py:138 | the dict's keys are the usernames deduplicated in order of first appearance |
| DocQueries.UserDictLast | mongodb/tweetbook.py:138 | each value of the dict is the last profile stored under its username |
| DocQueries.FoundUsersNames | mongodb/tweetbook.py:129-138 | user search lists every matching username exactly once |
| DocQueries.FoundUsersFrom | mongodb/tweetbook.py:129-138 | each listed user is the profile of a matching document, the last one found under that username |
| DocQueries.CounterOrderIsPreorder | mongodb/tweetbook.py:217 | descending order by a counter, with nulls last, is a total preorder |
| DocQueries.TopTweetsSpec | mongodb/tweetbook.py:217 | n documents are listed (all for n = 0), sorted by the counter with nulls last, and no unlisted document ranks above a listed one |
| DocQueries.MaxFollowers | mongodb/tweetbook.py:273 | `$max` ignores nulls: it is null exactly when all counts for the username are null, and otherwise it is the largest count present |
| DocQueries.FirstIndex | mongodb/tweetbook.py:274-275 | `$first` takes the first position holding the username |
| DocQueries.GroupByUsername | mongodb/tweetbook.py:270-276 | over the documents: each username present has exactly one row and every row's username is present; a row's count is null exactly when all that username's counts are null, otherwise the largest one; its profile and display name are those of the first document with that username |
| DocQueries.GroupDistinct | mongodb/tweetbook.py:272 | no two group rows share a username |
| DocQueries.TopUsers | mongodb/tweetbook.py:269-279 | the pipeline fails exactly for a limit of 0; otherwise it lists min(n, number of usernames) group rows, each username once, each describing its username as `$group` does, from the most followers down with nulls last, and no group left out has more followers than a listed row |
| Display.NumberedFromOne | mongodb/tweetbook.py:84 | tweet search numbers its results 1 to n, entry k being result k |
| Display.NumberFromZero | mongodb/tweetbook.py:142-153 | the display loop keys the entries 0 to n-1 in listing order and counts n of them |
| Display.CollectRows | mongodb/tweetbook.py:283-295 | the top-users loop copies the rows in order and counts them |
| Display.SelectShown | mongodb/tweetbook.py:157-159 | corrected: a number selects an entry exactly when it is from 1 to n, and selects entry k; `x` goes back; nothing fails |
| Display.NumberedSelection | mongodb/tweetbook.py:99-111 | tweet-search selection picks exactly the entries numbered 1 to n |
| Display.DictSelectionAgrees | mongodb/tweetbook.py:156-164 | the user-search and top-tweets selections agree with the listing on every input but 0 |
| Display.ListSelectionAgrees | mongodb/tweetbook.py:298-303 | the top-users selection agrees with the listing on every input but 0 |
| Display.ZeroSlipsThrough | mongodb/tweetbook.py:157-159 | as written: 0 passes the guard. The dict screens then raise KeyError; the top-users list shows its last row, or raises IndexError when empty; the listing has no entry 0 |
| DocStore.Collection.constructor | mongodb/tweetbook.py:375 | the collection starts with the given documents |
| DocStore.Collection.InsertOne | mongodb/tweetbook.py:375 | `insert_one` appends the document and changes nothing else |
| DocStore.Collection.ComposeTweet | mongodb/tweetbook.py:328-375 | compose appends exactly the built document |
| DocStore.ComposedTweetIsSearchable | mongodb/tweetbook.py:70-84 | unless the text is the exit line or a word of it holds a regex metacharacter, a search with a composed tweet's own text runs, finds it, and keeps the earlier results |
| DocStore.ComposeKeepsFoundUsers | mongodb/tweetbook.py:375 | composing never changes a user search result, since the new profile has no display name or location |
| DocStore.ComposeKeepsMaxFollowers | mongodb/tweetbook.py:375 | composing changes no username's `$max` follower count |

## Left out

- Screen output, prompts, `clear()` and the menus are left out. Keystrokes and typed strings are parameters.
- The connection set-up and commits are left out. `load-json.py` is not part of this model.
- Passwords and login are left out.
- Clocks are parameters. SQL dates are integers whose order is the order of their `YYYY-MM-DD` strings. Mongo dates are the formatted strings.
- Rows that tie under ORDER BY or a Mongo sort get one fixed order. The contracts state only the order and the contents, so they hold for any tie order.
- Python set iteration order is left out. `Queries.MergeSpec` states the merge's contents and not the order of the older rows.
- Characters are treated as ASCII:
  - `LOWER`, LIKE and the `i` regex option fold only A-Z;
  - `\w` and `\b` use ASCII word characters;
  - `str.isdigit` accepts only 0-9;
  - Unicode case folding and non-ASCII digits are not modelled.
- Mongo keywords are matched as literal text. Regex metacharacters in a typed keyword are not interpreted, and a keyword that is not a valid regex is not rejected. For the same reason, `DocQueries.WholeWordCI` reads the keyword literally.
- DocQueries.SearchTweetsSpec and DocStore.ComposedTweetIsSearchable: the found documents are stated for keywords read literally. They match the program only for keywords that satisfy `DocQueries.NoRegexMeta`; `ComposedTweetIsSearchable` requires that of its text's words. A keyword such as `a+b` or `(` is interpreted, or refused, by the server, and the model does not capture this.
- A null display name or location never matches a `$regex`. Documents without those fields are not distinguished from null ones. A tweet's content is taken to be present: a document with null or missing content is not modelled.
- Document fields the program only prints are left out, as are the remaining profile fields.
- The schema's constraints beyond the primary keys are not modelled. `mentions` rows are plain inserts, so a hashtag repeated in one tweet gives two rows. A schema key on `(tid, term)` would reject the second insert; that is not modelled.
- LIKE is modelled as SQLite's default, which ignores ASCII case. User tier 0 is containment (`'%kw%'`), as the code has it. A case-sensitive LIKE and a starts-with reading of tier 0 are not modelled.
- The `.strip()` of the mongo tweet-search selection is not modelled. Selections are taken as typed.
- The SQL screens' own selections are not modelled. These are the tweet pick on the timeline (SQL/tweetbook.py:202), the follower pick (SQL/tweetbook.py:364) and the user pick (SQL/tweetbook.py:596); each indexes a list with k-1 and also admits 0.
- `tweet_action`'s reply path only calls compose, and is covered by `Store.Database.ComposeTweet` with a parent id.
- Queries.FollowerListMatchesCount: proved only when user ids are unique and every follower is a stored user, the conditions the schema's keys give.
- DocQueries.TopUsers: the `int()` of the typed limit is not modelled. The limit arrives as a natural number.
- DocQueries.FirstIndex, DocQueries.FirstWith, DocQueries.Group, DocQueries.UserDictLast and DocQueries.FoundUsersFrom: `find` and the pipeline are taken to read documents in insertion order. MongoDB promises no order without a sort, so on a server that returns another order, `$first` and the last dict entry may pick a different profile.

## Findings

| source | as written | input that shows it | evidently intended | confidence | as-written member | corrected member |
|---|---|---|---|---|---|---|
| SQL/tweetbook.py:192-193 | P decrements the page with no floor (also SQL/tweetbook.py:451-452 and 600-601) | on page 1 press P, then N: the cursor reaches 0, then 1, and page 1 is shown again instead of page 2 | P on page 1 stays on page 1, as the tweet search does at SQL/tweetbook.py:530-533 | not executed | Paging.FreeCursorDrifts | Paging.WalkFlooredStaysOnPages |
| mongodb/tweetbook.py:157-159 | a selection k passes when `k < i + 1`, which admits 0, then `data[k-1]` is read (also mongodb/tweetbook.py:240-243 and 299-303) | type `0` on a non-empty listing: the dict screens raise KeyError on key -1, and the top-users screen shows its last row | only 1 to n select an entry, as tweet search does at mongodb/tweetbook.py:102 | not executed | Display.ZeroSlipsThrough | Display.SelectShown |
