# twitter-tracker relay, modelled in Dafny

twitter-tracker relays a Twitter account's posts into chat. A Discord bot lets
a channel `/track`, `/untrack` and `/list` Twitter handles. Every few seconds
a polling loop reads each tracked account's Nitter RSS feed. It posts the
tweets newer than the account's stored cursor (`last_tweet_id`) as embeds,
oldest first, then advances the cursor. A separate Telegram bot keeps its own
`(chat, username)` table with the same three commands.

This project models that core as pure functions over immutable data:

- `text.dfy`: Python's `str.isspace`, `strip`, `lstrip`, `lower` and `int()` on digit strings.
- `tweet_id.dfy`: `re.search(r'/status/(\d+)')`.
- `clean_text.dfy`: tag removal, whitespace collapsing and stripping of an entry's HTML.
- `media.dfy`: `re.finditer(r'<img[^>]+src="([^"]+)"')`, including the greedy backtracking of `[^>]+`, minus video thumbnails.
- `client.dfy`: the Nitter client.
  - The parsed feed and the `strptime` date parser are parameters.
  - A failed date parse models the `except Exception: return []` path.
- `database.py` becomes a map keyed by `(handle, channel)`.
  - It has a serial id counter.
  - The upsert (`ON CONFLICT ... DO UPDATE`) is modelled as written.
- `embed.dfy`: `create_tweet_embed`, covering the colour choice, the author, the permalink, the stats field and the first image.
- `polling.dfy`: one pass of `check_tweets`.
  - It covers the per-account guards, the first-sync cursor, the sort and the filter, and the cards that are sent.
  - It also covers the cursor write, and the cycle over all accounts reading cursors from the pass's snapshot.
- `discord_commands.dfy` and `telegram.dfy`: the two bots' commands.

Behaviour of the code worth noting:

- The Discord insert is an upsert that always returns the row id, so `track` never reports "already being tracked".
  - A second `/track` instead resets the cursor to NULL (`DiscordCommands.TrackNeverAlreadyTracked`, `DiscordCommands.RetrackResetsCursor`).
- `hasattr(tweet, 'referenced_tweets')` on a dict is always false, so the retweet colour is never chosen (`Embed.TweetColour`).
- `/untrack` on Discord strips no whitespace, although `/track` does (`DiscordCommands.UntrackKeepsSpaces`).
- A tweet whose `attachments` value is the empty list raises IndexError in the embed builder. The polling loop catches it, and that tweet is not sent.
  - Fetched tweets never have such a value (`Embed.FetchedTweetCard`).
- The cursor advances to the newest new tweet even when sending some of them fails.

## Model

| member | source | states |
|---|---|---|
| Text.ParseInt | cogs/twitter_commands.py:150 | `int()` of a cursor succeeds exactly on a non-empty string of ASCII digits |
| Text.NatToString | utils.py:31-33 | a count is printed as a non-empty digit string with no leading zero |
| Text.ParsePrinted | utils.py:31-33 | a printed count read back with `int()` gives the count |
| Text.LStripSpace | cogs/twitter_commands.py:31 | removes exactly the leading whitespace run; what remains is a suffix that does not start with whitespace |
| Text.RStripSpace | twitter_client.py:70 | removes exactly the trailing whitespace run; what remains is a prefix that does not end with whitespace |
| Text.LStripChar | cogs/twitter_commands.py:61 | removes exactly the leading run of the given character |
| Text.RStripChar | telegram_bot.py:52 | removes exactly the trailing run of the given character |
| Text.StripSpace | cogs/twitter_commands.py:31 | `strip()` removes exactly a whitespace prefix and a whitespace suffix; the result has no whitespace at either end |
| Text.StripChar | telegram_bot.py:52 | `strip('@')` removes exactly a prefix and a suffix of '@'; the result has no '@' at either end |
| Text.Lower | telegram_bot.py:52 | lower-cases each character in place; the length is unchanged |
| TweetIds.ExtractTweetId | twitter_client.py:59-62 | no id exactly when no `/status/` is followed by a digit; otherwise the non-empty maximal digit run after the leftmost such marker |
| TweetIds.FirstMarker | twitter_client.py:59-62 | when the only marker is the one at a given index and digits run from it to the end, those digits are the id |
| TweetIds.PermalinkId | twitter_client.py:59-62 | a link `<prefix>/status/<digits>` with no earlier marker yields exactly those digits |
| CleanText.StripTags | twitter_client.py:67 | no `<...>` tag survives; the result is no longer than the input; a first character other than '<' is kept |
| CleanText.StripTagsPlainPrefix | twitter_client.py:67 | text with no '<' is kept as it is, and removal goes on after it |
| CleanText.StripTagsDropsTag | twitter_client.py:67 | a complete tag `<t>` with non-empty `t` is removed, and removal goes on after its '>' |
| CleanText.StripTagsFixed | twitter_client.py:67 | tag removal leaves tag-free text unchanged |
| CleanText.Collapse | twitter_client.py:69 | no two whitespace characters are adjacent; every other character comes from the input |
| CleanText.CollapseRun | twitter_client.py:69 | a leading whitespace run becomes one space |
| CleanText.CollapseAppend | twitter_client.py:69 | text that ends in non-whitespace collapses independently of what follows it |
| CleanText.CollapseBetween | twitter_client.py:69 | a whitespace run between two non-whitespace characters becomes exactly one space, and the text on each side collapses on its own |
| CleanText.CollapseSqueeze | twitter_client.py:69 | collapsing keeps every non-whitespace character, in order |
| CleanText.CollapseNoTags | twitter_client.py:67-69 | collapsing whitespace cannot create a tag |
| CleanText.CollapseFixed | twitter_client.py:69 | already single-spaced text is unchanged |
| CleanText.Clean | twitter_client.py:64-70 | the tweet text has no whitespace at either end, is single-spaced and has no tags, and keeps every non-whitespace character of the tag-free markup in order |
| CleanText.CleanIdempotent | twitter_client.py:64-70 | cleaning cleaned text changes nothing |
| CleanText.CleanPlainText | twitter_client.py:64-70 | plain, single-spaced, trimmed text is its own cleaning |
| Media.ImgAtSpec | twitter_client.py:75 | at a given index the pattern fails exactly when no attribute position completes it; otherwise it takes the rightmost `src="` before the tag's first `>`, with the URL running to the next quote |
| Media.Matches | twitter_client.py:75-76 | the reported matches are in increasing order, do not overlap, and each captures a non-empty URL |
| Media.ScanSound | twitter_client.py:75-76 | the left-to-right scan of any match finder that advances reports only matches the finder gives at their start index |
| Media.ScanComplete | twitter_client.py:75-76 | the scan skips no index where the finder matches: it starts a reported match or lies inside an earlier one |
| Media.MatchesSound | twitter_client.py:75-76 | each reported match is exactly the pattern's match at its start index |
| Media.MatchesComplete | twitter_client.py:75-76 | nothing is skipped: every index where the pattern matches starts a reported match or lies inside an earlier one |
| Media.Photos | twitter_client.py:76-81 | at most one attachment per URL; each is a photo with a non-empty URL that is not a video thumbnail |
| Media.PhotosFromInput | twitter_client.py:76-81 | every attachment URL is one of the matched URLs |
| Media.PhotosKeepsPhotos | twitter_client.py:76-81 | every matched URL that is not a video thumbnail becomes a photo attachment |
| Media.PhotosAppend | twitter_client.py:76-81 | the filter works URL by URL, so attachments keep the order of the matches |
| Media.ExtractMedia | twitter_client.py:72-82 | every attachment is a photo with a non-empty URL that is not a video thumbnail |
| Media.MediaUrlInMarkup | twitter_client.py:72-82 | every attachment URL is a `src="..."` value of the markup, closed by a quote |
| Media.ImgAtUrl | twitter_client.py:75 | a match's URL is the value of its `src="` attribute, closed by a quote |
| Media.MatchUrlInMarkup | twitter_client.py:75-76 | every reported match's URL follows a `src="` in the markup and is closed by a quote |
| Media.NoImageNoMedia | twitter_client.py:72-82 | markup without `<img` has no attachments |
| TwitterClient.RemoveAll | twitter_client.py:18 | removal never lengthens; it shortens by at least one occurrence when there is one and is the identity otherwise |
| TwitterClient.RemoveAllUnchangedIff | twitter_client.py:18 | removal leaves the title unchanged exactly when it has no occurrence |
| TwitterClient.RemoveAllSplit | twitter_client.py:18 | when no occurrence starts inside a text, not even one running into the occurrence after it, `replace` keeps that text, drops the occurrence and goes on removing after it |
| TwitterClient.RemoveAllLeftmost | twitter_client.py:18 | `replace` drops the leftmost occurrence, keeps everything before it, and removes every occurrence in the rest |
| TwitterClient.TitleSuffixSplit | twitter_client.py:18 | a text free of "'s tweets" that is followed by "'s tweets" is kept, the suffix is dropped, and removal goes on after it |
| TwitterClient.TitleSuffixTwice | twitter_client.py:18 | every occurrence goes, not only the first: "'s tweets's tweets" becomes "" |
| TwitterClient.NameFromTitle | twitter_client.py:18 | a feed title `<name>'s tweets` yields the display name `<name>` |
| TwitterClient.GetUserByUsername | twitter_client.py:11-24 | no user exactly when there is no feed, no entry or no title; otherwise the handle is echoed as username and id, and the profile image is the feed image's href, present exactly when the feed image has one |
| TwitterClient.MapAll | twitter_client.py:32-57 | one failing entry fails the whole batch; otherwise the results line up with the entries one by one |
| TwitterClient.ParseBatch | twitter_client.py:32-57 | the batch fails exactly when some entry's date does not parse |
| TwitterClient.GetRecentTweets | twitter_client.py:26-57 | at most five tweets; none exactly when there is no feed, no entries, or some date among the first five fails; otherwise exactly the first min(5, n) entries, in order |
| TwitterClient.RecentTweetBuilt | twitter_client.py:33-51 | the i-th tweet has its id from the link, cleaned text, the parsed date and zero metrics; it is flagged as a retweet exactly when the title starts with "RT by"; attachments are present exactly when media was found |
| TwitterClient.RecentTweetsShape | twitter_client.py:37-51 | every fetched tweet has zero metrics, a parseable id when it has one, and only non-empty photo attachment lists |
| Database.AddTwitterAccount | database.py:22-34 | the upsert always returns an id and stores the given cursor; it keeps the old id on conflict and otherwise takes the next serial id; the counter always advances; other rows and the invariant are kept |
| Database.RemoveTwitterAccount | database.py:36-44 | returns true exactly when the row existed; afterwards it is gone and every other row is unchanged |
| Database.UpdateLastTweetId | database.py:62-69 | only the named row's cursor changes; it is a no-op on a missing row; keys and ids are unchanged |
| Database.GetTrackedAccounts | database.py:46-52 | lists exactly the stored rows with their ids and cursors |
| Database.GetChannelAccounts | database.py:54-60 | a handle is listed exactly when it is tracked in that channel |
| Database.AddThenRemove | database.py:22-44 | adding a new account and removing it restores the rows |
| Embed.TweetColour | utils.py:8-13 | the retweet colour is never chosen; media colour exactly when attachments are present, text colour otherwise |
| Embed.ZeroStatsLine | utils.py:29-34 | the stats field of a fetched tweet reads zero replies, retweets and likes |
| Embed.CreateTweetEmbed | utils.py:4-42 | fails exactly on an empty attachment list; otherwise carries the text, date and colour; the author name is `<name> (@<username>)` and the author url is the permalink; the icon is present exactly when the profile image is truthy; the image is set exactly when the first attachment is a photo |
| Embed.PermalinkRoundTrip | utils.py:24 | extracting the id from an embed's permalink gives back the tweet's id |
| Embed.PhotoTweetCard | utils.py:10-40 | a tweet with photos gets the media colour, the first photo as image and the stats field |
| Embed.FetchedTweetCard | utils.py:8-40 | every fetched tweet yields an embed, which shows its first photo when it has media |
| Polling.SortBy | cogs/twitter_commands.py:128 | the sorted batch has the same length and is ascending by numeric id |
| Polling.InsertPerm | cogs/twitter_commands.py:128 | inserting into a sorted batch adds exactly one copy of the tweet |
| Polling.SortPerm | cogs/twitter_commands.py:128 | the sorted batch is a permutation of the fetched one |
| Polling.Newer | cogs/twitter_commands.py:153 | keeps exactly the tweets whose id exceeds the cursor |
| Polling.NewerPermutation | cogs/twitter_commands.py:153 | which tweets are new does not depend on the order of the batch |
| Polling.NewerSorted | cogs/twitter_commands.py:158 | filtering a sorted batch leaves it sorted |
| Polling.SortDistinct | cogs/twitter_commands.py:128 | sorting keeps ids distinct |
| Polling.Cards | cogs/twitter_commands.py:159-166 | never more cards than tweets; when no tweet's embed raises, exactly one card per tweet, in order |
| Polling.CardsOne | cogs/twitter_commands.py:159-166 | one tweet gives its card, or none when building its embed raises |
| Polling.CardsAppend | cogs/twitter_commands.py:159-166 | the cards of a concatenation are the cards of the first part followed by those of the second |
| Polling.CardsMember | cogs/twitter_commands.py:159-166 | a card is sent exactly when some tweet of the list builds it |
| Polling.CheckAccount | cogs/twitter_commands.py:115-175 | each outcome occurs exactly under its guard, in the loop's order: no user, no tweets, an id that is not a number, no channel, first sync, a cursor that is not a number, and otherwise a check against the numeric cursor |
| Polling.FirstSyncRecordsNewest | cogs/twitter_commands.py:138-147 | first sync records the largest id of the batch and sends nothing |
| Polling.NewerLastIsMax | cogs/twitter_commands.py:128-158 | the last of the sorted new tweets comes from the batch, is newer than the cursor and has the largest id of the batch |
| Polling.SortedNewerFacts | cogs/twitter_commands.py:128-158 | the sorted new tweets are the new tweets of the batch, ascending; when there are any, the last has a numeric id above the cursor that bounds every id of the batch |
| Polling.CheckedSendsNewer | cogs/twitter_commands.py:150-175 | sends exactly the tweets newer than the cursor, ascending; writes a cursor exactly when there were any; the new cursor is the id of the last tweet sent, which is the largest fetched id and exceeds the old one |
| Polling.StrictlyAscending | cogs/twitter_commands.py:128-159 | with distinct ids, tweets are sent in strictly ascending id order |
| Polling.NothingNewTwice | cogs/twitter_commands.py:150-175 | re-checking the same batch with the written cursor sends nothing and writes nothing |
| Polling.CursorExample | cogs/twitter_commands.py:128-175 | cursor 200 with ids 198, 205, 201 sends 201 then 205 and stores 205 |
| Polling.Written | cogs/twitter_commands.py:138-175 | a cursor is written exactly on first sync or when new tweets were found |
| Polling.CursorAdvances | cogs/twitter_commands.py:138-175 | a written cursor is a number at least as large as every id of the batch, and larger than the old cursor |
| Polling.RecordAll | cogs/twitter_commands.py:113-179 | cursor writes touch only the polled accounts' rows; keys, ids, the counter and the invariant are kept |
| Polling.Cycle | cogs/twitter_commands.py:106-185 | every account is polled against the snapshot's cursor; the table keeps its keys and ids |
| Polling.RecordAllCursor | cogs/twitter_commands.py:113-179 | after the pass, each polled account's row holds its own outcome's cursor, or its old one if nothing was written |
| Polling.CycleNeverRewinds | cogs/twitter_commands.py:106-185 | a pass never moves a numeric cursor backwards |
| Polling.PollCardsEveryNewer | cogs/twitter_commands.py:159-166 | for fetched tweets, every new tweet gets its embed |
| DiscordCommands.TrackHandle | cogs/twitter_commands.py:31 | the handle is the trimmed input minus its leading run of '@': a suffix of it, with no '@' in front and no whitespace at the end; whitespace after the '@' run is kept; blank input gives the empty handle |
| DiscordCommands.TrackHandleDecorated | cogs/twitter_commands.py:31 | whitespace, then '@'s, then a handle with no '@' or whitespace at its ends, then whitespace, gives back that handle |
| DiscordCommands.TrackHandleInnerSpace | cogs/twitter_commands.py:31 | "@ bob" gives " bob": the space after the '@' survives |
| DiscordCommands.Track | cogs/twitter_commands.py:27-50 | an empty handle is rejected and changes nothing; otherwise the row is upserted with no cursor and every other row is kept |
| DiscordCommands.TrackNeverAlreadyTracked | cogs/twitter_commands.py:40-50 | on a valid table the reply is either invalid-username or started-tracking |
| DiscordCommands.RetrackResetsCursor | cogs/twitter_commands.py:40 | tracking an already-tracked handle keeps its id and clears its cursor |
| DiscordCommands.UntrackHandle | cogs/twitter_commands.py:61 | the handle is the input minus its leading run of '@': a suffix of it, with no '@' in front |
| DiscordCommands.UntrackHandleDecorated | cogs/twitter_commands.py:61 | '@'s followed by text that does not start with '@' give back that text |
| DiscordCommands.Untrack | cogs/twitter_commands.py:58-74 | reports stopped exactly when the row existed, otherwise not-tracked; afterwards the row is gone and others are kept |
| DiscordCommands.ListTracked | cogs/twitter_commands.py:81-99 | reports none exactly when the channel tracks nothing; otherwise lists exactly its handles |
| DiscordCommands.TrackThenUntrack | cogs/twitter_commands.py:27-74 | tracking a fresh handle and untracking it restores the rows and reports stopped |
| DiscordCommands.TrackThenList | cogs/twitter_commands.py:27-99 | a handle just tracked appears in the channel's list |
| DiscordCommands.UntrackKeepsSpaces | cogs/twitter_commands.py:31-61 | `/track` of a space and a clean name tracks the name, but `/untrack` of the same text reports not-tracked and the row stays |
| DiscordCommands.TrackUntrackDiffer | cogs/twitter_commands.py:27-74 | when `/untrack` reads the input as a different handle with no row, the row `/track` made for the same input survives |
| TelegramBot.Normalise | telegram_bot.py:52 | no '@' at either end and no upper-case ASCII letter |
| TelegramBot.NormaliseFrame | telegram_bot.py:52 | the username is the lower-cased slice of the argument left after removing its leading and trailing runs of '@' |
| TelegramBot.NormaliseDecorated | telegram_bot.py:52 | '@'s, a name with no '@' at its ends, then '@'s, give the lower-cased name |
| TelegramBot.NormaliseIdempotent | telegram_bot.py:52 | normalising a normalised username changes nothing |
| TelegramBot.Track | telegram_bot.py:46-74 | without arguments it asks for a username and changes nothing; otherwise it reports already-tracking exactly when the row exists and now-tracking otherwise; afterwards the table holds the old rows plus that row, with no duplicates |
| TelegramBot.Without | telegram_bot.py:88-95 | removes exactly the given row |
| TelegramBot.Untrack | telegram_bot.py:76-103 | without arguments it asks for a username; otherwise it reports stopped exactly when the row existed and not-tracking otherwise; afterwards exactly that row is gone |
| TelegramBot.LexLeTotal | telegram_bot.py:117 | any two usernames are comparable in code-point order |
| TelegramBot.LexLeAntisymmetric | telegram_bot.py:117 | the order is antisymmetric |
| TelegramBot.LexLeTransitive | telegram_bot.py:117 | the order is transitive |
| TelegramBot.InsertName | telegram_bot.py:117 | inserting a username into a sorted listing keeps it sorted and adds nothing but that name |
| TelegramBot.InsertNamePerm | telegram_bot.py:117 | the insertion adds exactly one copy of the name |
| TelegramBot.SortNames | telegram_bot.py:117 | the listing has as many names as the chat has rows, in code-point order |
| TelegramBot.SortNamesPerm | telegram_bot.py:117 | the listing is a permutation of the chat's usernames |
| TelegramBot.NamesIn | telegram_bot.py:112-121 | selects exactly the chat's usernames |
| TelegramBot.ListTracked | telegram_bot.py:105-130 | reports nothing-tracked exactly when the chat has no rows; otherwise lists exactly its usernames, sorted |
| TelegramBot.ListStrictlyAscending | telegram_bot.py:112-127 | on a duplicate-free table, the listing is strictly ascending |
| TelegramBot.TrackThenUntrack | telegram_bot.py:58-99 | tracking a new username and untracking it restores the table |
| TelegramBot.TrackTwice | telegram_bot.py:58-70 | a second track of the same name reports already-tracking and changes nothing |
| TelegramBot.TrackThenList | telegram_bot.py:58-127 | a name just tracked appears in the chat's listing |
| TelegramBot.NormaliseExample | telegram_bot.py:52 | "@Ab@" and "ab" name the same account |
| TelegramBot.BareAtIsTracked | telegram_bot.py:52-70 | a lone "@" is accepted and tracks the empty username |

## Left out

- Network fetching (`feedparser.parse`) is left out. The parsed feed, or its absence, is a parameter; a feed whose fetch fails is modelled as having no entries.
- `datetime.strptime` is a parameter that returns a timestamp or fails.
  - Time zones and the format string are not modelled.
- Sending messages is left out: Discord `channel.send`, the interaction acknowledgements and edits, and the Telegram `reply_text`.
  - The model returns the reply kind and the embeds, not the message texts or their emoji.
- Timing is left out: `tasks.loop`, `asyncio.sleep`, the bot start-up and shutdown, and `TWEET_CHECK_INTERVAL`.
- Database driver errors and the generic "something went wrong" replies are left out.
  - Connections, commits and the `created_at` column are not modelled.
- Config values that the core never reads are left out: `NITTER_INSTANCES`, `MAX_CONCURRENT_REQUESTS`, `REQUEST_TIMEOUT`, and the error and success colours.
- The Telegram `/start` and `/help` texts and `format_error_message` are left out; they are fixed messages.
- The logo generator, the repository setup script, the manual feed test, the web animation and the process entry points are not part of this model.
- Text.IsSpace covers CPython's whitespace set for `str.isspace`.
  - Text.IsDigit and Text.LowerChar are ASCII only, whereas Python's `\d` and `lower()` also accept non-ASCII digits and letters.
- Text.ParseInt does not accept the signs, surrounding whitespace or underscores that Python's `int()` allows. Ids and cursors only ever come from the `\d+` capture or from a printed id.
- TelegramBot.SortNames orders by code point. PostgreSQL's `ORDER BY` follows the database collation, which may differ.
- The Telegram table is a duplicate-free sequence of rows, not a table with a unique constraint; the serial id it returns is not modelled.
- Database.GetChannelAccounts and DiscordCommands.ListTracked return sets, because the query has no `ORDER BY`.
- Polling.SortBy is a stable insertion sort, but stability is not stated. Only ids matter downstream, and with duplicate ids the order among equal keys is not promised.
- Polling.Cards models an embed that raises as a skipped tweet. A failing `channel.send` is not modelled, so the loop's cursor write after failed sends is covered only by the cursor lemmas.
- Polling.Cycle takes one fetch per account, in listing order; repeated polling across passes is not modelled.
- Polling.Cycle does not interleave commands with a pass. In the source the pass awaits each `channel.send` and a two-second sleep (cogs/twitter_commands.py:162, 182), so `/track` and `/untrack` can run in between. The pass works on the rows it read at cogs/twitter_commands.py:110. A re-track's cursor reset can therefore be overwritten by the pass's cursor write (cogs/twitter_commands.py:171-175), and an account untracked mid-pass is still fetched and its tweets sent. None of this is modelled.
- TwitterClient.GetRecentTweets: an `Entry` always has its link, title, description and published fields. In the source, an entry among the first five that lacks one raises `AttributeError`, and the `except` at twitter_client.py:56-57 then returns an empty list. The model empties the batch only when a date fails to parse.
