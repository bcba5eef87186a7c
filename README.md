# mensabot in Dafny

mensabot is a Telegram bot that answers `/mensa` with the menus of the Dresden student
cafeterias (the Mensen of the Studentenwerk Dresden) and `/about` with its settings.
This project models the bot's core and proves what it computes:

- **the edit distance** of `src/levenshtein.rs`:
  - the packed edit script `Distance`: two bits per operation, 32 operations per `u64` word;
  - its `next`, `get_last_operation`, iterator, `Debug` text, `cmp` and `eq`;
  - the row-by-row `levenshtein`;
  - `find_best_word_match`, which searches for the best assignment of words over a
    similarity matrix that it mutates in place;
  - `wordwise_levenshtein`.
- **the configuration** of `src/conf.rs`:
  - the serde defaults;
  - `retry`;
  - the access lists, with `unpack`, `contains_user` and `is_empty`;
  - the post-processing of `load`;
  - `is_allowed`.
- **the Telegram types** of `src/tg.rs`:
  - the `Display` of chats and users;
  - `MessageEntity::extract` over UTF-16 code units;
  - `reply_text`, `get_result`, `Api::new` and `set_latest_update`.
- **the bot logic** of `src/main.rs`:
  - `time_cmp`, `parse_tomorrow` and `get_menu_url`;
  - `strip_white`;
  - the `MensaMatch` ordering and the naming and scoring of a cafeteria in `parse_menu`;
  - `create_menu_message`, with its 4096-byte cut;
  - `make_about_text`, with its HTML escaping;
  - the handling of one message in the update loop:
    - command entities read as `/mensa` or `/about` once the bot's `@name` is stripped;
    - the search argument narrowed, extracted, trimmed and lowered;
    - the text patterns as a fallback.

Strings are sequences of Unicode scalar values, as Rust's `chars()` sees them.
Rust's byte offsets are modelled explicitly:
- `Unicode.Utf8Len` is `str::len`.
- `Unicode.SliceTo` and `Unicode.SliceFrom` are `&s[..i]` and `&s[i..]`. They return `None` where Rust panics because `i` is not a char boundary.
- `Unicode.EncodeUtf16` and `Unicode.DecodeUtf16` are `encode_utf16` and `String::from_utf16`.

A `u64` word is a `nat` below 2^64, with `Or`, `And`, `Shl` and `Shr` defined on numbers (module `Bits`).
State the source updates in place becomes a class:
- `WordMatch.WordMatrix`: the rows of `find_best_word_match`;
- `Conf.ConfigAccess` and `Conf.Config`;
- `Telegram.Api`;
- `EditScript.OpIterator`.

Loops become methods with invariants. Each method is proved against a function that
specifies it, and the lemmas are proved about that function.

## Model

| member | source | states |
|---|---|---|
| EditScript.OpCode | src/levenshtein.rs:17-20 | each operation's code fits in two bits |
| EditScript.OpCodeInjective | src/levenshtein.rs:17-20 | two operations share a code only when they are the same operation |
| EditScript.BitsToOperation | src/levenshtein.rs:72-80 | decoding a two-bit code gives the operation with exactly that code |
| EditScript.Cost | src/levenshtein.rs:66 | the distance of a script counts its non-`Keep` operations, so it is at most the script's length |
| EditScript.CostAppend | src/levenshtein.rs:66 | the distance of two scripts one after the other is the sum of their distances |
| EditScript.Encode | src/levenshtein.rs:37-41 | the reference packing of a list of operations records its length and its cost and has a word for every 32 operations |
| EditScript.Operations | src/levenshtein.rs:136-144 | reading a script back yields exactly `len` operations |
| EditScript.New | src/levenshtein.rs:43-49 | `Distance::new` is a well-formed script holding no operations |
| EditScript.Next | src/levenshtein.rs:51-70 | `next` adds one to `len`, adds one to `distance` unless the operation is `Keep`, and keeps a word for every 32 operations |
| EditScript.NextWords | src/levenshtein.rs:58-64 | pushing a fresh word when `len % 32 == 0`, and otherwise OR-ing the code in at bit `2 * (len % 32)` of the last word, gives the packing of the longer list |
| EditScript.NextAppends | src/levenshtein.rs:51-70 | `next` on the packing of a list is the packing of that list with the operation appended |
| EditScript.NextValid | src/levenshtein.rs:51-70 | on a well-formed script `next` keeps it well-formed and appends the operation to what it records |
| EditScript.GetLastOperation | src/levenshtein.rs:82-90 | `get_last_operation` panics (None) exactly on the empty script |
| EditScript.LastOperation | src/levenshtein.rs:82-90 | on a non-empty well-formed script it returns the last recorded operation |
| EditScript.LastOfNext | src/levenshtein.rs:51-90 | after `next(op)` the last operation is `op` |
| EditScript.DecodeAt | src/levenshtein.rs:140-143 | bits `2 * (k % 32)` of word `k / 32` of the packing decode to operation `k` |
| EditScript.DecodeEncode | src/levenshtein.rs:136-144 | reading back the packing of a list returns the list, and the packing is well-formed |
| EditScript.PackedWords | src/levenshtein.rs:39 | every packed word fits in a `u64` |
| EditScript.ValidShape | src/levenshtein.rs:37-41 | in a well-formed script `distance` is the cost of the operations, there are `(len + 31) / 32` words, and each fits in a `u64` |
| EditScript.Valid | src/levenshtein.rs:37-70 | a well-formed script is the packing of the operations it records, so its `distance` is their cost and never exceeds `len` |
| EditScript.Cmp | src/levenshtein.rs:99-103 | `cmp` orders by `distance` alone: Less, Equal and Greater exactly when the distance is smaller, equal or greater |
| EditScript.Eq | src/levenshtein.rs:109-113 | `eq` holds exactly when the two scripts agree in `distance`, `len` and the words, that is, when they are the same value |
| EditScript.EqIffSameOperations | src/levenshtein.rs:109-113 | on well-formed scripts `eq` holds exactly when both record the same operations |
| EditScript.CmpEqualButNotEq | src/levenshtein.rs:99-113 | one substitution and one insertion compare Equal although `eq` is false |
| EditScript.MinDistance | src/levenshtein.rs:188 | `std::cmp::min` returns one of its arguments with the lesser distance, and returns the second only when it is strictly smaller |
| EditScript.OpIterator.constructor | src/levenshtein.rs:92-97 | the iterator starts at operation 0 of the script |
| EditScript.OpIterator.Next | src/levenshtein.rs:136-144 | the iterator yields operation `i` and advances, or None without moving once `i` reaches `len` |
| EditScript.Symbols | src/levenshtein.rs:117-125 | the `Debug` text has one symbol per operation, in order |
| EditScript.SymbolsInjective | src/levenshtein.rs:117-125 | the `Debug` text determines the list of operations |
| EditScript.Format | src/levenshtein.rs:115-128 | the `Debug` loop writes the symbols of the recorded operations |
| Levenshtein.Replace | src/levenshtein.rs:10-14 | `push` then `swap_remove` replaces item `i` and returns the old one; at `i == len` it returns the new item and leaves the vector alone |
| Levenshtein.CellPreference | src/levenshtein.rs:188 | `min(min(insert, delete), subst)` prefers the insertion, then the deletion, then the substitution among equal distances |
| Levenshtein.InnerOptimal | src/levenshtein.rs:183-188 | from optimal scripts for the left, upper and upper-left cells, the cell rule yields an optimal script for the cell |
| Levenshtein.RowsOptimal | src/levenshtein.rs:175-204 | after `i` characters of `a`, cell `j` of the row is a cheapest script replaying `a[..i]` into `b[..j]` |
| Levenshtein.NaiveAligns | src/levenshtein.rs:147-213 | some script replays `a` into `b` at a cost equal to the longer length |
| Levenshtein.AlignsLengths | src/levenshtein.rs:147-213 | every replay costs at least the difference of the lengths |
| Levenshtein.FreeAlignsEqual | src/levenshtein.rs:147-213 | a replay of cost 0 joins equal strings |
| Levenshtein.OptimalCost | src/levenshtein.rs:147-213 | an optimal script costs at most the longer length and at least the length difference, and costs 0 exactly for equal strings |
| Levenshtein.CheapestOptimal | src/levenshtein.rs:206-212 | the last cell of the last row is optimal for `a` against `b` |
| Levenshtein.Cheapest | src/levenshtein.rs:206-212 | the operation list of the last cell of the last row; `CheapestOptimal` shows no replay of `a` into `b` costs less |
| Levenshtein.EditDistance | src/levenshtein.rs:147-213 | the cost of that cheapest list; `EditDistanceBounds` puts it between the length difference and the longer length, 0 exactly for equal strings; `EditDistanceSymmetric` and `EditDistanceTriangle` make it a metric |
| Levenshtein.EditDistanceBounds | src/levenshtein.rs:147-213 | the distance is at most the longer length, at least the length difference, and 0 exactly when `a == b` |
| Levenshtein.AlignsSwap | src/levenshtein.rs:147-213 | a replay of `x` into `y` with Insert and Delete exchanged replays `y` into `x` at the same cost |
| Levenshtein.EditDistanceSymmetric | src/levenshtein.rs:147-213 | the distance of `a` to `b` equals that of `b` to `a` |
| Levenshtein.Compose | src/levenshtein.rs:147-213 | replays of `x` into `y` and of `y` into `z` combine into a replay of `x` into `z` costing at most their sum |
| Levenshtein.EditDistanceTriangle | src/levenshtein.rs:147-213 | the distance from `a` to `c` is at most the distance via any `b` |
| Levenshtein.ScriptRowsEncode | src/levenshtein.rs:150-204 | the rows of packed scripts the source builds are the packings of the rows of optimal operation lists |
| Levenshtein.FirstRow | src/levenshtein.rs:150-159 | the first row is the empty script followed by one more `Insert` per character of `b`, and `n` is the number of characters |
| Levenshtein.RewriteRow | src/levenshtein.rs:175-199 | one pass of the outer loop turns the row into the next one |
| Levenshtein.RewriteCell | src/levenshtein.rs:183-188 | one pass of the inner loop puts cell `j` of the new row in place and hands on the old cell as `lev11` |
| Levenshtein.EncodedCheapest | src/levenshtein.rs:147-213 | the result is well-formed, records a replay of `a` into `b`, has the edit distance as `distance`, and no replay costs less |
| Levenshtein.Levenshtein | src/levenshtein.rs:147-213 | `levenshtein(a, b)` returns the packed cheapest script, whose `distance` is the edit distance |
| WordMatch.RemoveAt | src/levenshtein.rs:226 | `Vec::remove` shifts the later items one place down |
| WordMatch.InsertAt | src/levenshtein.rs:232 | `Vec::insert` puts the item at `i` and shifts the later items one place up |
| WordMatch.InsertRemoved | src/levenshtein.rs:226-232 | re-inserting a removed item restores the row |
| WordMatch.InsertRemovedColumn | src/levenshtein.rs:224-233 | re-inserting a removed column restores the matrix |
| WordMatch.WordMatrix.TakeColumn | src/levenshtein.rs:224-227 | removes column `i` from every row and returns it |
| WordMatch.WordMatrix.PutColumn | src/levenshtein.rs:231-233 | inserts the column back at `i` |
| WordMatch.WordMatrix.FindBestWordMatch | src/levenshtein.rs:215-242 | returns the best assignment score of the square matrix and leaves the matrix as it found it |
| WordMatch.Best | src/levenshtein.rs:215-242 | the search on values: the last row taken off, each of its columns tried with the best of the remaining minor, the largest kept, 0 for the empty matrix; `BestUpper` and `BestAttained` show it is the largest score of any assignment of rows to distinct columns |
| WordMatch.BestUpper | src/levenshtein.rs:215-242 | no assignment of the rows to distinct columns scores above that value |
| WordMatch.BestAttained | src/levenshtein.rs:215-242 | some assignment of the rows to distinct columns scores exactly that value |
| WordMatch.Split | src/levenshtein.rs:256-260 | the tokens of `split` are the maximal runs of text between whitespace, `(`, `)` and `:` |
| WordMatch.SplitFields | src/levenshtein.rs:256-260 | `split_whitespace` followed by the split of every word at `(`, `)` and `:` is one split at all four kinds of separator |
| WordMatch.SplitTokens | src/levenshtein.rs:256-260 | the tokens are non-empty, hold no separator, and together are the text without its separators |
| WordMatch.Similarity | src/levenshtein.rs:280 | the similarity of two words is at most the shorter length, and equal words score their length |
| WordMatch.SimilarityValue | src/levenshtein.rs:280 | `max(len_a, len_b) - distance` does not underflow and is the matrix cell |
| WordMatch.SimilarityMatrix | src/levenshtein.rs:274-298 | the matrix is square, with `max(anum, bnum)` rows |
| WordMatch.SimilarityCell | src/levenshtein.rs:276-298 | a cell is the similarity of its two words, or 0 in the padding rows and columns |
| WordMatch.WordRow | src/levenshtein.rs:277-289 | the row of one word of `a`, padded with zero columns |
| WordMatch.ZeroRow | src/levenshtein.rs:292-298 | a padding row of zeros |
| WordMatch.WordwiseScore | src/levenshtein.rs:244-301 | the best assignment score over the similarity matrix of the two token lists; `WordwiseSelf`, `WordwiseAtMost` and `WordwiseExactBest` bound it |
| WordMatch.WordwiseLevenshtein | src/levenshtein.rs:244-301 | `wordwise_levenshtein` returns the word-wise score of the two names |
| WordMatch.WordwiseSelf | src/levenshtein.rs:244-301 | a text against itself scores the total character count of its tokens |
| WordMatch.WordwiseAtMost | src/levenshtein.rs:244-301 | no text scores above the total character count of the tokens of `a` |
| WordMatch.WordwiseExactBest | src/levenshtein.rs:244-301 | no name scores above an exact match of the argument |
| Telegram.FmtName | src/tg.rs:63-78 | with no part present the name is `<unknown>`; otherwise it starts with the first name when there is one and ends with the last name when there is one |
| Telegram.FmtNameParts | src/tg.rs:63-78 | the name is the first name, the username in quotes and the last name, those present joined by single spaces, or `<unknown>` when none is present |
| Telegram.ChatDisplay | src/tg.rs:46-53 | a chat shows its title, or its name when it has no title |
| Telegram.UserDisplay | src/tg.rs:80-84 | a user shows the joined name parts, starting with the first name |
| Telegram.Extract | src/tg.rs:95-97 | a successful extraction encodes back to exactly the UTF-16 units of the entity's span, clipped to the end of the text |
| Telegram.ExtractChars | src/tg.rs:95-97 | an entity whose UTF-16 bounds fall on the characters `i` and `j` extracts `text[i..j]`; a length past the end is clipped |
| Telegram.ExtractPastEnd | src/tg.rs:95-97 | an entity starting past the end extracts the empty string |
| Telegram.ExtractSplitsPair | src/tg.rs:95-97 | an entity that cuts a surrogate pair fails to decode |
| Telegram.ReplyText | src/tg.rs:110-118 | a reply goes to the message's chat, quotes the message, and carries the text with neither a parse mode nor silence |
| Telegram.GetResult | src/tg.rs:166-183 | Ok exactly when the response is ok and its result deserialises; each error case carries its own description |
| Telegram.Api.constructor | src/tg.rs:158-164 | the base URL holds the token, and the offset starts at 0 |
| Telegram.Api.SetLatestUpdate | src/tg.rs:221-223 | the offset becomes one past the latest update |
| Conf.WithDefaults | src/conf.rs:13-45 | a field left out takes its default: `20:00:00`, 3 retries, 30 seconds, the two default cafeterias, no patterns |
| Conf.Retry | src/conf.rs:47-68 | the first success is returned; retry gives up on the failure that reaches `retries`, and with `retrywait == 0` only when `retries == 1` |
| Conf.GiveUpAt | src/conf.rs:53-61 | the failure count at which `retry` gives up is at least 1 when there is one: none with `retries` 0 or with more than one retry and no wait, else `retries` |
| Conf.SetInsert | src/conf.rs:97 | inserting into a sorted set keeps it sorted and adds exactly the item |
| Conf.SetRemove | src/conf.rs:94 | removing from a sorted set keeps it sorted and drops exactly the item |
| Conf.UnpackStep | src/conf.rs:90-100 | one name's turn of `unpack` keeps the name set sorted: a number leaves, an `@name` becomes `name`, anything else stays |
| Conf.NumericIds | src/conf.rs:91-93 | the user ids are exactly the names that parse as `i64` |
| Conf.UnpackNames | src/conf.rs:89-102 | unpacking keeps the name set sorted |
| Conf.UnpackPrefix | src/conf.rs:90-101 | each turn of the loop handles the next name of the original set |
| Conf.UnpackKeepsPlain | src/conf.rs:89-102 | a name that is no number and has no leading `@` stays |
| Conf.UnpackPlain | src/conf.rs:96-99 | a name with a leading `@` is kept without it |
| Conf.UnpackDropsNumbers | src/conf.rs:91-94 | a numeric name leaves the name set |
| Conf.UnpackOrigin | src/conf.rs:89-102 | every name left was in the set, or is one with its `@` stripped |
| Conf.UnpackStripsOnce | src/conf.rs:96-98 | only one `@` is stripped: `@@x` becomes `@x` |
| Conf.ConfigAccess.constructor | src/conf.rs:81-87 | a new access list is empty |
| Conf.ConfigAccess.Unpack | src/conf.rs:89-102 | the names become their unpacked set, and the numeric ones join the user ids |
| Conf.ConfigAccess.Visit | src/conf.rs:91-100 | one turn of the loop for one name |
| Conf.ConfigAccess.ContainsUser | src/conf.rs:104-112 | a sender is listed by id or by username, and a missing sender never is |
| Conf.ConfigAccess.IsEmpty | src/conf.rs:114-116 | empty exactly when chats, ids and names are all empty |
| Conf.Config.constructor | src/conf.rs:119-126 | a configuration of the three tables |
| Conf.Config.AfterLoad | src/conf.rs:133-137 | both lists are unpacked, the chats are unchanged, and an empty cafeteria list becomes the default one, so it is never empty afterwards |
| Conf.Config.IsAllowed | src/conf.rs:141-155 | an allowed user passes, then a denied user is refused, then an allowed chat passes, then a denied chat is refused, and otherwise only an empty allow list lets the message through |
| MenuTime.TimeCmp | src/main.rs:22-31 | negative, zero or positive exactly when the first time is earlier than, equal to or later than the second |
| MenuTime.ParseTomorrow | src/main.rs:33-43 | an accepted time has two or three `:`-separated fields, every one a `u8`, read in order with 0 seconds when there are two, and is no later than 24:00:00; a refusal is the `invalid timestamp` error naming the text |
| MenuTime.ParseTomorrowThree | src/main.rs:33-43 | a written `h:m:s` of `u8` values reads back, and is refused exactly when later than 24:00:00 |
| MenuTime.ParseTomorrowTwoFields | src/main.rs:33-43 | any `h:m` of two `u8` fields reads as that time with 0 seconds, and is refused exactly when later than 24:00:00 |
| MenuTime.ParseTomorrowTwo | src/main.rs:36-37 | a written `h:m` reads back with 0 seconds |
| MenuTime.DefaultTomorrow | src/conf.rs:28-30 | the default `20:00:00` parses as 20:00:00 |
| MenuTime.ShortDefault | src/main.rs:33-43 | `20:00` is accepted as 20:00:00 |
| MenuTime.MinutesUnchecked | src/main.rs:35-40 | minutes are not limited to 59: `23:75` is accepted |
| MenuTime.MenuUrl | src/main.rs:165-173 | tomorrow's menu from the switch-over time on, and today's before it |
| TextFormat.Collapsed | src/main.rs:45-58 | the words of the text joined by single spaces, empty exactly when the text has no word |
| TextFormat.StripWhite | src/main.rs:45-58 | the words of the text, each followed by a space, with the last space cut, are the words joined by single spaces |
| TextFormat.CollapsedWords | src/main.rs:45-58 | collapsing keeps exactly the words |
| TextFormat.CollapsedIdempotent | src/main.rs:45-58 | collapsing twice is collapsing once |
| TextFormat.CollapsedEdges | src/main.rs:45-58 | the result neither starts nor ends with whitespace |
| TextFormat.EscapeHtml | src/main.rs:249 | the three `replace` calls in their order; `EscapePerChar`, `UnescapeEscape` and `EscapeNoMarkup` show it escapes char by char, can be read back and leaves no `<` or `>` |
| TextFormat.EscapePerChar | src/main.rs:249 | the three `replace` calls escape the text one character at a time |
| TextFormat.UnescapeEscape | src/main.rs:249 | reading the entities back recovers the name |
| TextFormat.EscapeNoMarkup | src/main.rs:249 | an escaped name holds no `<` or `>` |
| About.AccessLabel | src/main.rs:240-245 | one label per combination of empty lists; `AccessLabelMeaning` shows what each says about `is_allowed` |
| About.AccessLabelMeaning | src/main.rs:240-245 | `public`, `blacklist`, `whitelist` and `whitelist, blacklist` each describe how `is_allowed` decides |
| About.ListedJoin | src/main.rs:247-255 | the names each followed by `, `, with the last two bytes cut, are the names joined by `, ` |
| About.PushNames | src/main.rs:247-251 | the loop appends each escaped name in `<code>`, followed by `, ` |
| About.PushDefaults | src/main.rs:247-255 | the default cafeterias come out joined by `, ` |
| About.PushPatterns | src/main.rs:259-266 | the loop appends one indented `<code>` line per pattern |
| About.AboutText | src/main.rs:235-272 | the head, the access label, the escaped defaults joined by `, `, the switch-over time as given, then one line per pattern when there are any; `MakeAboutText` builds exactly this text |
| About.MakeAboutText | src/main.rs:235-272 | the reply holds the access mode, the defaults, the switch-over time and the patterns if there are any, and is sent silently as HTML |
| Menu.CompareStr | src/main.rs:73 | string `cmp` is the lexicographic order |
| Menu.Cmp | src/main.rs:69-77 | a higher similarity comes first, and equal similarities are ordered by name |
| Menu.Eq | src/main.rs:83-87 | `eq` agrees with `cmp == Equal` and with equality of the keys |
| Menu.CmpAntisymmetric | src/main.rs:69-77 | swapping the arguments reverses the ordering |
| Menu.CmpTransitive | src/main.rs:69-77 | the ordering is transitive |
| Menu.OrderedFirstBest | src/main.rs:195-200 | in map order the first cafeteria has the highest similarity |
| Menu.StripOffers | src/main.rs:121-123 | a name starting with `Angebote ` loses that prefix, and any other name stays |
| Menu.StripOffersAsWritten | src/main.rs:121-123 | the strip as written: where its slices do not panic, the result is the name itself or the name without a leading `Angebote ` |
| Menu.StripOffersAgrees | src/main.rs:121-123 | wherever the slices do not panic, the code as written agrees with the prefix strip |
| Menu.StripOffersShortName | src/main.rs:121 | a name shorter than 9 bytes panics the slice as written |
| Menu.StripOffersSplitChar | src/main.rs:121 | "Zeltschlösschen" panics the slice as written, because byte 9 falls inside `ö` |
| Menu.MatchMensa | src/main.rs:120-130 | without an argument only the configured cafeterias are kept, at similarity 0; with one, the similarity is the word-wise score against the lowered name; the name comes from the corrected strip of "## Findings", so a heading on which line 121 panics gets a key here |
| Menu.Entries | src/main.rs:201-206 | the blocks end in a blank line |
| Menu.Stop | src/main.rs:195-211 | the loop stops before the first lower similarity or before the block that would pass 4093 bytes, and what it keeps fits |
| Menu.Collected | src/main.rs:193-212 | the text before the final cut ends in a blank line |
| Menu.PushEntry | src/main.rs:201-206 | one block: the name, ` * ` and each meal on its own line, then a blank line |
| Menu.CollectEntries | src/main.rs:193-212 | the loop builds the collected text |
| Menu.CreateMenuMessage | src/main.rs:192-218 | `create_menu_message` is the collected text with its last two bytes cut |
| Menu.CollectedAtLower | src/main.rs:199 | a lower similarity ends the text before its block |
| Menu.CollectedAtOverflow | src/main.rs:207-210 | a block that passes 4093 bytes is replaced by `...` |
| Menu.CollectedAtEnd | src/main.rs:195-212 | without a stop every block is kept |
| Menu.MenuText | src/main.rs:192-218 | the reply is a prefix of the collected text, and empty for an empty menu |
| Menu.MenuTextBound | src/main.rs:207-216 | the reply never exceeds 4096 bytes, Telegram's message limit |
| Menu.MenuTextEllipsis | src/main.rs:207-210 | a cut reply ends in `...` |
| Menu.CollectedWhole | src/main.rs:195-212 | an uncut reply keeps at least one block |
| Menu.MenuTextLastEntry | src/main.rs:213-216 | an uncut reply ends with the last kept meal, without the trailing blank line |
| Menu.MenuTopGroup | src/main.rs:197-200 | every kept cafeteria has the top similarity |
| Menu.StopBeforeLower | src/main.rs:199 | no cafeteria with a lower similarity is reached |
| Commands.StripBotName | src/main.rs:376-382 | where no slice panics the result is a prefix of the command, and a command no longer in bytes than the bot's name is left alone |
| Commands.Resolve | src/main.rs:373-383 | without the bot's name the command is taken as it is; with it, the result is a prefix of the command |
| Commands.StripBotNameSuffix | src/main.rs:373-384 | `p@bot` loses exactly `@bot` |
| Commands.StripBotNameRemoves | src/main.rs:376-380 | what the strip removes is `@` and the bot's name |
| Commands.StripBotNameMeaning | src/main.rs:376-382 | where it does not panic, the strip removes the address exactly when the command ends with it |
| Commands.StripBotNameAscii | src/main.rs:378 | an ASCII command never panics the strip |
| Commands.StripBotNamePanics | src/main.rs:378 | a non-ASCII command can panic it: `/ä` with the name `b` |
| Commands.Classify | src/main.rs:369-384 | a command is a decoded `bot_command` entity resolved against the bot's name; a panic is one whose strip panics |
| Commands.ClassifyAddressed | src/main.rs:373-384 | `p@bot` is the command `p` for the bot `bot`, and `c` is `c` when the bot's name is unknown |
| Commands.ScanPanics | src/main.rs:369-397 | the scan panics exactly when some entity's strip panics |
| Commands.ScanBits | src/main.rs:385-391 | the mensa and about bits are set exactly when some entity is `/mensa` or `/about` |
| Commands.ScanArgument | src/main.rs:385-388 | the argument starts right after the last `/mensa` entity and ends at the byte length of the text, and both are 0 without `/mensa` |
| Commands.ScanCommands | src/main.rs:365-397 | the loop over the entities computes the scan |
| Commands.ScanEntity | src/main.rs:370-394 | the body of that loop for one entity |
| Commands.ScanNone | src/main.rs:369-397 | once a strip has panicked, the scan stays panicked |
| Commands.Narrow | src/main.rs:398-404 | the argument ends at the least entity offset inside it, or where it ended |
| Commands.Tidy | src/main.rs:430-433 | no argument exactly when the extracted text is all whitespace; otherwise its trim, lowered |
| Commands.Argument | src/main.rs:418-436 | no argument for an empty range or for units that do not decode; an argument is the lowered trim of the extracted text, which holds a non-whitespace character |
| Commands.ArgumentRest | src/main.rs:418-436 | an argument that runs to the end of the text is the rest of the text, trimmed and lowered, or none when only whitespace is left |
| Commands.HandleText | src/main.rs:363-436 | a menu is asked for on `/mensa` or on a pattern match, with the narrowed argument only after `/mensa`; about is asked for on `/about`; a panicking strip stops the bot |
| Strings.Fields | src/main.rs:46 | `split_whitespace` gives non-empty words free of whitespace |
| Strings.FieldsJoin | src/main.rs:45-58 | splitting words joined by a separator gives the words back |
| Strings.SplitOn | src/main.rs:34 | `split(":")` gives at least one part, none holding `:` |
| Strings.JoinSplitOn | src/main.rs:34 | joining the parts with `:` restores the text |
| Strings.SplitOnJoin | src/main.rs:34 | splitting parts joined with `:` gives them back |
| Strings.LexTotal | src/main.rs:73 | of two different strings exactly one is smaller |
| Strings.LexTransitive | src/main.rs:73 | the string order is transitive |
| Strings.Trim | src/main.rs:430 | `trim` is the slice between leading and trailing whitespace, and has neither at its ends |
| Strings.TrimBlank | src/main.rs:430-431 | `trim` leaves nothing exactly when the text is all whitespace |
| Numbers.ParseU8 | src/main.rs:34 | a parsed `u8` is at most 255 |
| Numbers.ParseU8Decimal | src/main.rs:34 | a written `u8` parses back |
| Numbers.ParseI64 | src/conf.rs:91 | a parsed `i64` lies in its range |
| Numbers.ParseI64Decimal | src/conf.rs:91 | a written `i64` parses back |
| Numbers.ParseRejectsNonDigit | src/conf.rs:91 | a non-digit after the first character is refused |
| Unicode.Utf8LenAppend | src/main.rs:376-377 | byte lengths add up over concatenation |
| Unicode.CharsInPrefix | src/main.rs:378 | the byte length of a prefix is a char boundary |
| Unicode.SliceTo | src/main.rs:54 | a cut at byte `i` keeps a prefix of exactly `i` bytes |
| Unicode.DropAsciiTail | src/main.rs:215 | cutting an ASCII tail off by its byte count leaves the text before it |
| Unicode.Utf16NotLonger | src/main.rs:388 | a text has no more UTF-16 units than bytes |
| Unicode.DecodeUtf16 | src/tg.rs:96 | what `from_utf16` decodes encodes back to exactly the units it was given |
| Unicode.DecodeEncodeUtf16 | src/tg.rs:96 | `from_utf16` of `encode_utf16` gives the text back |
| Bits.OrDisjoint | src/levenshtein.rs:63 | OR-ing a value into free bits adds it |
| Bits.AndThree | src/levenshtein.rs:89 | `& 3` keeps the two lowest bits |

## Left out

- HTTP and the network are not modelled: `fetch_menu`, `api_call`, `get_me`, `get_updates` and `send_text`. `GetResult` takes the decoded response, and `Retry` takes the sequence of results the action returns.
- HTML is not modelled: the traversal of the menu page in `parse_menu` and `get_text_content`. `MatchMensa` takes the heading text that `get_text_content` returns.
- The `BTreeMap` that `parse_menu` builds is not modelled. The model takes it as its entries in key order, and no member inserts into it. `CreateMenuMessage` accepts any sequence of entries; key order (`Menu.Ordered`) is only a hypothesis of `MenuTopGroup` and `OrderedFirstBest`. How the map is built belongs to the HTML traversal: `insert` replacing the meals of an equal key (src/main.rs:159) and the skip of a table without meals (src/main.rs:155-157) are not modelled.
- Regular expressions are not modelled: `HandleText` takes whether some pattern matched as `patternMatch`.
- `str::to_lowercase` is the function parameter `lower`.
- The wall clock is not modelled: `MenuUrl` takes the time of day as `now`.
- Files, TOML and JSON deserialisation are not modelled. `WithDefaults` takes the fields that were present.
- `main` is not modelled: command-line arguments, environment variables, logger setup and the endless update loop. Only the handling of one message's text (`HandleText`) and `set_latest_update` are modelled.
- Logging, `eprint!` debug output, `thread::sleep`, capacity hints and `shrink_to_fit` are not modelled; they do not change any value.
- Panics are modelled as `None`:
  - a slice at a byte offset inside a char, in `StripBotName`, `StripOffersAsWritten`, `SliceTo` and `SliceFrom`;
  - `get_last_operation` on an empty script.
- Menu.MatchMensa: takes the name with the corrected `StripOffers` of "## Findings". Where line 121 of src/main.rs panics (a heading shorter than 9 bytes, or byte 9 inside a char), the model gives the cafeteria a key instead of stopping the bot.
- `unreachable!` in `bits_to_operation` is ruled out by `BitsToOperation`'s precondition `x < 4`.
- Conf.ConfigAccess.Unpack: requires that every non-numeric name has a one-byte first char (`UnpackSafe`). `&user[..1]` panics on an empty name or a multi-byte first char, and that panic is not modelled.
- Commands.HandleText: `arg_end` mixes units. It is set to the byte length of the text, while entity offsets count UTF-16 units. The model keeps both as written. `ArgumentRest` covers the case where the argument runs to the end of the text.
- Commands.HandleText: the `u32` command bits are modelled as two booleans.
- Integer widths:
  - `usize` and `u64` counters are unbounded `nat`s; their overflow is not modelled;
  - `Telegram.Api.SetLatestUpdate` requires the update id to be below `i64::MAX`, so the `+ 1` does not overflow;
  - `time_cmp`'s `i32` arithmetic stays far inside its range for `u8` and clock fields.
- `BTreeSet` is modelled as a sorted sequence (`Conf.SetInsert`, `Conf.SetRemove`) or a `set`.
- Helper methods that split a source loop for the verifier, not present as functions in the source:
  - `Levenshtein`: `FirstRow`, `RewriteRow`, `RewriteCell`;
  - `WordMatch`: `WordRow`, `SimilarityAt`, `PadRow`, `ZeroRow`, and the `WordMatrix` methods `TakeColumn` and `PutColumn`;
  - `Conf.ConfigAccess.Visit`;
  - `About`: `PushNames`, `PushDefaults`, `PushPatterns`;
  - `Menu`: `PushEntry`, `CollectEntries`;
  - `Commands.ScanEntity`.
- `Commands.Classify` gathers the per-entity decision that the loop makes inline.
- `find_best_word_match` is exponential. The model proves what it returns, not its running time.

## Findings

| source | as written | input that shows it | evidently intended | confidence | as-written member | corrected member |
|---|---|---|---|---|---|---|
| src/main.rs:121-123 | `&mensa[..9] == "Angebote "` slices the name at byte 9 before comparing, which panics on names shorter than 9 bytes and when byte 9 falls inside a multi-byte char | the default cafeteria `Zeltschlösschen` (`ö` occupies bytes 8 and 9); any name shorter than 9 bytes, such as `Mensa` | remove the prefix `Angebote ` when the name starts with it, as `starts_with` or `strip_prefix` would | not executed; the panic follows from Rust's slicing rules | Menu.StripOffersSplitChar | Menu.StripOffers |
