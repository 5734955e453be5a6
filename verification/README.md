# LikeDAO: pagination, sign-in and reactions

A model of three parts of LikeDAO, the governance client and GraphQL server of LikeCoin, and proofs about it.

**Lists with pinned validators.** The votes and the deposits of a proposal are shown as one list: the validators a
user delegates to, then everybody else. The server fills a page from two queries, each with its own limit and offset,
numbers the rows with cursors and reports page information; the client pages through the list with buttons. The
resolvers are methods proved equal to a window of a concatenation. Over that the project proves which pages tile the
list, which cursors and page facts are right, for deposits and for votes, and which rows the buttons reach.

**The sign-in message.** The client composes a text in the form of EIP-4361; the server reads it with a grammar made of
RFC 5234 combinators. The combinators get the relational meaning of RFC 5234 section 3 and an executable matcher that
computes exactly that relation. A scanner that passes once over the lines is proved to find exactly the derivations,
so the grammar is unambiguous; the outcome of reading is determined for every text; and what the client composes is
read back field by field, down to the millisecond of its timestamp. RFC 3339 times and the Gregorian calendar are
modelled in both directions.

**Reactions.** One row per address and target, changed by an upsert in one statement and by a removal in two. Every
interleaving of these statements is proved to go through the tables of some sequential order of whole calls that
respects real time, and it is proved exactly when the callers are also told what that order tells them, and that
otherwise no order of whole calls through the same tables explains their answers. Batched reads are proved pointwise,
and the client's cached counts, which are updated after each click instead of fetched again, agree with the table
through any sequence of clicks.

## Layout

| file | about |
|---|---|
| `Strings`, `Windows`, `Wrappers` | text functions of Go, LIMIT/OFFSET windows, Option |
| `Abnf`, `Rfc3986`, `Iso8601`, `Eip4361` | rules, their meaning and matcher; the grammars |
| `MessageScanner`, `Languages`, `UriForms` | the single-pass scanner; the field rules described without rules; URIs taken apart |
| `FieldTexts` | the field rules character by character |
| `Calendar`, `Timestamps`, `DateTimes` | dates, RFC 3339 texts printed and read, the date-times of the grammar |
| `TimeTexts` | which number stands where in a time, and what moment it stands for |
| `ExpirableValue`, `SignIn` | cookie values, the message end to end |
| `TwoSource`, `Relay`, `ProposalResolver` | the list, connections, the resolvers |
| `ProposalConnections` | the answers to the client, edge by edge |
| `ProposalLists`, `ProposalCursors` | pages and cursors of votes and deposits |
| `VoteFacts`, `NextPages` | page information of votes; the rows of the page it promises, of votes and of deposits |
| `PageController`, `ProposalExamples` | the pager; tables on which pages, cursors and page information go wrong |
| `Ids`, `BatchQueries` | identifiers, queries that follow the order of their keys |
| `ReactionTable`, `ReactionSchedule` | the table, interleavings |
| `ReactionAnswers`, `ReactionOrders` | what the callers are told; whether an order explains it |
| `ReactionLoader`, `ReactionCache` | batched reads, the client's counts |

## Assumptions

- A table is a fixed sequence of rows (reactions: a map from row id to row). Ordering and joins of SQL are whatever
  produced that sequence; a query that counts and one that fetches see the same rows.
- `UniqueOperators` and `Consistent` name what the chain's database guarantees: operator and self-delegate addresses
  are unique, so are (proposal, voter) and (proposal, depositor), and a validator's relations load the rows of its own
  self-delegate address.
- Row ids of reactions are never used again.
- `first` and `after` are not negative.
- `\w` of the reaction check constraint and the case functions are taken on ASCII.
- `fkgi/abnf` is not part of the repository. `ParseString` accepts a text when the rule derives the whole of it, `ETX`
  stands for the end of the text, `Child(key)` is the first and `Children(key)` are all parts with a key, in the order
  of the text and nested ones included. HEXDIG admits lower-case letters, as RFC 5234 appendix B.1 has it.

## Where the code departs from its intent

Each of these is proved, with the exact condition under which it happens and an input on which it does.

- A message without a statement line is accepted by the grammar and makes `ParseAbnf` dereference nil: exactly the
  accepted messages whose fifth line is not empty (`SignIn.PanicsExact`). The client's own message without that line is
  one (`SignIn.WithoutStatementPanics`).
- `ParseAbnf` puts as many empty strings in front of the resources as there are resources, so the list is right exactly
  when the last line of the message is no resource line (`SignIn.ResourcesPadded`). The client's message with any
  resources shows it (`SignIn.WithResources`).
- `SubDelims` has a backslash where RFC 3986 has an apostrophe: the delimiters are exactly those of
  `UriForms.DelimsExact`, so that no URI holds an apostrophe (`UriForms.NoApostrophe`) and `a://` with a backslash is one
  (`UriForms.BackslashInUri`).
- `HierPart` has only the form with an authority: the URIs are exactly the texts made of scheme, "://", authority, path
  and end (`UriForms.UriExact`). Its alternatives for the path let one follow the authority that section 3.3 of RFC 3986
  refuses there, exactly when it begins with a character other than a slash (`UriForms.PathsExact`); `a://1:a` can be
  taken apart in no other way (`UriForms.PathRightAfterAuthority`). All of this is modelled as it is.
- A pinned validator that voted can be shown again among the other votes (`ProposalLists.VotePagesTile`, with the
  instance `ProposalExamples.PinnedVoteShownTwice`).
- The total and the next page reported with a page of votes are those of a list that leaves out this page's validators
  only, and neither need be right for the list or for the page served next (`VoteFacts.VoteTotalExact`,
  `VoteFacts.VoteNextExact`, with the instances `ProposalExamples.TotalCountsTwice` and `ProposalExamples.NextOverlooked`).
- A pinned validator whose loaded votes are all on other proposals takes a place and gets no row. The end cursor then
  points before the next page (`ProposalCursors.VoteEndCursor`, with the instance `ProposalExamples.SkippedVoterEnds`),
  and a next page can be promised that has no row (`NextPages.VoteNextRows` and `NextPages.DepositNextRows`, with the
  instances `ProposalExamples.PromisedVotesMissing` and `ProposalExamples.PromisedDepositsMissing`).
- Deposits leave out operator addresses where depositor addresses are compared, so two edges of a page can share a cursor
  and a validator can appear twice in the list (`ProposalCursors.DepositCursors`, `ProposalCursors.DepositorsShownOnce`,
  with the instance `ProposalExamples.DepositShownTwice`).
- Any string can be pinned, so a depositor whose own address is pinned is left out and may be shown nowhere
  (`ProposalCursors.EveryDepositorShown`, with the instance `ProposalExamples.DepositorShownNowhere`).
- Past the pinned addresses `totalCount` stops counting the pinned validators, and the pager, which works with it,
  stops offering further pages: the last deposits cannot be reached (`PageController.NextShowsAllDeposits`, with the
  instance `ProposalExamples.LastDepositUnreachable`; `PageController.NextShowsAllVotes` for votes).
- Two racing removals of one reaction both report success, and a removal can report a reaction that was replaced
  meanwhile; the tables still agree with a sequential order (`ReactionAnswers.SuccessExact` and
  `ReactionAnswers.AnswersExact`, with the runs `ReactionAnswers.RacingRun` and `ReactionAnswers.StaleRun`). No other
  order through the same tables does better (`ReactionOrders.SomeOrderExplains`).
- Setting the reaction that is set already makes the client count it once too often (`ReactionCache.UpdateExact`, with
  the instance `ReactionCache.CountedTwice`).

## Model

| member | source | states |
|---|---|---|
| `ProposalConnections.Deposits` | graphql-server/pkg/resolvers/proposal.go:219-316 | edge by edge of the answer: first a row of each validator of the page that shows one, its own deposit unchanged or a row without amount, then the deposits not left out from their offset on; cursor i is after+i+1 unless a validator of the page is shown twice; start, end and page information as reported; every first and after, and pins missing from the table, included |
| `ProposalConnections.Votes` | graphql-server/pkg/resolvers/proposal.go:119-217 | the same for votes, where the second source leaves out only the validators of this page and cursor i is always after+i+1 |
| `ProposalConnections.VoteRowIs` | graphql-server/pkg/resolvers/proposal.go:137-155 | a pinned validator shows its first loaded vote on the proposal as it is; with no loaded vote at all a row of its own address, an empty option and its height; with votes on other proposals only, nothing |
| `ProposalConnections.DepositRowIs` | graphql-server/pkg/resolvers/proposal.go:237-255 | the same for deposits; the row of a validator that never deposited has no amount |
| `ProposalResolver.PinnedFacts` | graphql-server/pkg/queries/validator.go:156-186 | with unique operator addresses no more validators match than addresses were asked for, and each has the information the resolvers dereference |
| `ProposalResolver.QueryPage` | graphql-server/pkg/queries/proposal.go:108-141 | fetching one row more than asked for and cutting it off gives the window, and tells exactly whether rows follow |
| `ProposalResolver.PageOfTwoQueries` | graphql-server/pkg/resolvers/proposal.go:257-310 | the limits and offsets of the two queries together cut one window out of the concatenation, and the reported facts are `Facts` of the sizes |
| `ProposalResolver.NumberRows` | graphql-server/pkg/resolvers/proposal.go:192-201 | edge i holds row i, and its cursor is after+k+1 for the last row k with its node id |
| `Relay.NewConnection` | graphql-server/pkg/models/relay.go:21-43 | one edge per row: edge i has row i and its cursor, start and end are the cursors of the first and the last edge, or empty |
| `TwoSource.PageIsWindow` | graphql-server/pkg/resolvers/proposal.go:257-277 | for every page size and offset, a window of the two sources is a window of the pins followed by a window of the rest with what is left of limit and offset |
| `TwoSource.HasPreviousExact` | graphql-server/pkg/resolvers/proposal.go:203-214 | `hasPreviousPage` means after > 0 exactly for first > 0, after = 0 or an offset past the pins |
| `TwoSource.HasNextExact` | graphql-server/pkg/resolvers/proposal.go:299-310 | for a list whose other rows do not change with the page, as for deposits: `hasNextPage` never promises a place the list does not have, and exactly when it overlooks places |
| `TwoSource.TotalCountExact` | graphql-server/pkg/resolvers/proposal.go:299-310 | for such a list `totalCount` is its number of places exactly when no pinned validator exists or the page still queries them |
| `VoteFacts.VoteTotalExact` | graphql-server/pkg/resolvers/proposal.go:125-214 | `totalCount` of a page of votes is the size of the list exactly when nothing is pinned; or, while the pins are queried, the pinned validators that voted are all on this page; or, past them, they cast as many votes as there are pinned validators |
| `VoteFacts.VoteNextExact` | graphql-server/pkg/resolvers/proposal.go:125-214 | `hasNextPage` of a page of votes implies that the next page, as the server then serves it, has a place; it says so exactly, but for pages that query the pins and reach their end while votes follow |
| `NextPages.VotePageShows` | graphql-server/pkg/resolvers/proposal.go:137-190 | a page of votes has no row exactly when its validators are all skipped and no other vote comes onto it |
| `NextPages.VoteNextRows` | graphql-server/pkg/resolvers/proposal.go:137-214 | `hasNextPage` promises a page of votes without rows exactly when that page starts with pinned validators, they are all skipped, and no other vote comes onto it |
| `NextPages.VoteRowsOverlooked` | graphql-server/pkg/resolvers/proposal.go:137-214 | no next page is reported although it has rows exactly when the page queries the pins and reaches their end while votes follow |
| `NextPages.DepositPageShows` | graphql-server/pkg/resolvers/proposal.go:237-286 | the same as `VotePageShows` for deposits |
| `NextPages.DepositNextRows` | graphql-server/pkg/resolvers/proposal.go:237-310 | the same as `VoteNextRows` for deposits |
| `NextPages.DepositRowsOverlooked` | graphql-server/pkg/resolvers/proposal.go:237-310 | the same as `VoteRowsOverlooked` for deposits |
| `VoteFacts.EmptyPageNext` | graphql-server/pkg/resolvers/proposal.go:125-214 | a page of size 0 claims a next page exactly when votes lie behind its offset |
| `TwoSource.CursorsExact` | graphql-server/pkg/resolvers/proposal.go:192-201 | every row has its own position as cursor if and only if node ids are distinct |
| `Windows.WindowsTile` | graphql-server/pkg/queries/proposal.go:108-141 | stepping the offset by the page size from 0 gives back the rows once each, in order |
| `ProposalLists.DepositPagesTile` | graphql-server/pkg/resolvers/proposal.go:257-286 | the sources of the deposit pages, one after the other, are the first rows of the list, and all of it after enough pages, for every page size |
| `ProposalLists.VotePagesShow` | graphql-server/pkg/resolvers/proposal.go:135-190 | what any number of vote pages shows: pinned validators, then votes by the rule of the shared page, then votes without exclusion |
| `ProposalLists.VotePagesTile` | graphql-server/pkg/resolvers/proposal.go:135-190 | enough vote pages show the list if and only if no pinned validator voted, or all votes fit on the page shared with the last pinned validators and only those voted |
| `ProposalCursors.VoteRowsOfPage` | graphql-server/pkg/resolvers/proposal.go:137-190 | the rows of a vote page are by different voters, and fewer than the places exactly when a validator is skipped |
| `ProposalCursors.VoteCursors` | graphql-server/pkg/resolvers/proposal.go:192-201 | no two edges of a vote page share a node id, and edge i has the cursor after+i+1 |
| `ProposalCursors.VoteEndCursor` | graphql-server/pkg/resolvers/proposal.go:140-201 | the end cursor is the offset of the next page if and only if no validator of the page was skipped, and never lies beyond it |
| `ProposalCursors.DepositCursors` | graphql-server/pkg/resolvers/proposal.go:277-297 | every deposit of a page has its own position as cursor if and only if no validator of the page that gets a row has its self-delegate address among the depositors of the page's deposits query |
| `ProposalCursors.DepositorsShownOnce` | graphql-server/pkg/resolvers/proposal.go:251-286 | over all deposit pages no depositor is shown twice if and only if no pinned validator that gets a row made a deposit on the proposal that is not left out |
| `ProposalCursors.DepositorsShown` | graphql-server/pkg/resolvers/proposal.go:251-286 | an address has a row on the deposit pages if and only if it made a deposit on the proposal and is not pinned, or it is the self-delegate address of a pinned validator that gets a row |
| `ProposalCursors.EveryDepositorShown` | graphql-server/pkg/resolvers/proposal.go:251-286 | every depositor of the proposal has a row if and only if each one whose own address is pinned is the self-delegate address of a pinned validator that gets a row |
| `ProposalExamples.PinnedVoteShownTwice` | graphql-server/pkg/resolvers/proposal.go:158-181 | tables where the one vote, by a pinned validator, is shown on two pages |
| `ProposalExamples.TotalCountsTwice` | graphql-server/pkg/resolvers/proposal.go:125-214 | tables where a page of votes reports three for a list of two |
| `ProposalExamples.NextOverlooked` | graphql-server/pkg/resolvers/proposal.go:125-214 | tables where a page of votes reports no next page, and the next page shows a vote |
| `ProposalExamples.SkippedVoterEnds` | graphql-server/pkg/resolvers/proposal.go:140-201 | tables where a page of two places ends with cursor 1, because its validator voted elsewhere |
| `ProposalExamples.DepositShownTwice` | graphql-server/pkg/resolvers/proposal.go:257-297 | tables where the one deposit is shown as a validator's and as another's, both edges with cursor 2 |
| `ProposalExamples.PromisedVotesMissing` | graphql-server/pkg/resolvers/proposal.go:137-214 | tables where a page of votes promises a next page, and that page has no row |
| `ProposalExamples.PromisedDepositsMissing` | graphql-server/pkg/resolvers/proposal.go:237-310 | the same for deposits |
| `ProposalExamples.DepositorShownNowhere` | graphql-server/pkg/resolvers/proposal.go:277-286 | tables whose one depositor is pinned by its own address: the list of deposits is empty |
| `PageController.CanGoNextExact` | react-app/src/components/common/PageController/PageController.tsx:37-57 | at a page boundary the next page is offered if and only if an item lies beyond the current page |
| `PageController.PagerAgrees` | react-app/src/components/common/PageController/PageController.tsx:37-57 | pager and server agree on next and previous at all multiples of the page size, and exactly where they differ elsewhere |
| `PageController.NextShowsAll` | react-app/src/components/common/PageController/PageController.tsx:68-76 | on a list from one table, clicking Next from the start shows every row once and ends after ceil(total/size) pages |
| `PageController.NextShowsAllDeposits` | graphql-server/pkg/resolvers/proposal.go:299-310 | clicking Next through the deposits shows the whole list if and only if `Reachable` rows cover it |
| `ProposalExamples.LastDepositUnreachable` | react-app/src/components/ProposalDetailScreen/ProposalDepositsPanel.tsx:264-272 | tables with one pinned validator and ten depositors: on pages of five Next ends after two pages, before the eleventh row |
| `PageController.NextShowsAllVotes` | react-app/src/components/ProposalDetailScreen/ProposalVotesPanel.tsx:347-354 | clicking Next through the votes, with the total each page reports, shows all that the pages show if and only if `NextReaches`: nothing is pinned, or the buttons do not end on the last page with pinned validators while votes follow and the reachable rows cover the list |
| `PageController.JumpsAdvance` | react-app/src/components/common/PageController/PageController.tsx:89-108 | a forward jump advances within the pages if and only if four or more are left, a backward jump goes back within them if and only if not on the first |
| `PageController.JumpShowsItems` | react-app/src/components/common/PageController/PageController.tsx:78-108 | exactly which jumps lead to a page that starts inside the list |
| `PageController.JumpsAreLogarithmic` | react-app/src/components/common/PageController/PageController.tsx:93-98 | k forward jumps are enough if and only if at most 2^k + 2 pages are left |
| `Ids.RowTextsInjective` | graphql-server/pkg/models/proposal.go:139-200 | printed vote ids and printed deposit ids are injective, for all ids and addresses |
| `Ids.RowTextsParse` | graphql-server/pkg/models/proposal.go:139-217 | parsing undoes printing if and only if the id is not negative and the address has no dash (deposits: and is not empty) |
| `Ids.NodeTextParses` | graphql-server/pkg/models/node.go:19-32 | a node id comes back with its second part in lower case if neither part has an underscore, and is refused otherwise |
| `BatchQueries.QueryByKeys` | graphql-server/pkg/queries/proposal.go:249-304 | the map-then-append loops give for every key, repeated or missing, the row of the table with that key |
| `BatchQueries.BatchPointwise` | graphql-server/pkg/queries/validator.go:188-246 | with unique keys, an answer is a row if and only if that row is in the table under the key asked for; one answer for each key |
| `BatchQueries.BatchSplits` | graphql-server/pkg/queries/reaction.go:104-119 | answers to a concatenation of batches are the concatenated answers |
| `BatchQueries.QueryBlocksByHashes` | graphql-server/pkg/queries/block.go:48-78 | one answer for each hash, and with unique stored hashes answer i is a block if and only if that block is stored under the upper-case form of hash i |
| `BatchQueries.BlockFoundByNodeId` | graphql-server/pkg/queries/block.go:48-78 | a block is found through its printed and parsed node id if and only if its stored hash has no lower-case letter |
| `Abnf.MatchesSound` | graphql-server/pkg/models/auth.go:126-131 | every match is a derivation of the prefix it consumed, with its captures |
| `Abnf.MatchesComplete` | graphql-server/pkg/models/auth.go:126-131 | every derivation of a prefix is found, for rules that repeat no empty text |
| `Abnf.MatchesExact` | graphql-server/pkg/models/auth.go:126-131 | the terminating matcher computes exactly the relation of RFC 5234 section 3 |
| `MessageScanner.ScanLinesExact` | graphql-server/pkg/abnf/eip4361.go:37-55 | lines are read as fields if and only if they are the lines of those fields |
| `MessageScanner.ScanExact` | graphql-server/pkg/abnf/eip4361.go:37-55 | a text is read as fields if and only if they are well formed and the text is their print |
| `MessageScanner.ScanIsMessage` | graphql-server/pkg/abnf/eip4361.go:37-55 | for any field rules that stay on their line, the single pass finds exactly the derivations of the message, with their captures |
| `MessageScanner.ScanIsGrammar` | graphql-server/pkg/abnf/eip4361.go:37-110 | a text is derived with captures c if and only if the single pass finds fields with captures c |
| `MessageScanner.Unambiguous` | graphql-server/pkg/abnf/eip4361.go:37-110 | a text has one assignment of keyed parts and one list of fields behind it, absent and empty ones told apart |
| `MessageScanner.NoSeparatorInside` | graphql-server/pkg/abnf/rfc3986.go:8-104 | no URI, authority, run of path characters or date-time holds a space or a line feed |
| `MessageScanner.LikecoinRulesFit` | graphql-server/pkg/abnf/eip4361.go:57-110 | the field rules have no keys inside, do not leave their line and repeat no empty text |
| `Eip4361.MessageElim` | graphql-server/pkg/abnf/eip4361.go:37-110 | every derivation of the message comes from well-formed fields: the text is their print and the captures are theirs |
| `Eip4361.MessageIntro` | graphql-server/pkg/abnf/eip4361.go:37-110 | the print of well-formed fields is derived, with their captures |
| `Languages.DecOctetExact` | graphql-server/pkg/abnf/rfc3986.go:112-125 | the octet rule derives exactly the decimals of 0 to 255 without leading zeros |
| `Languages.HostIsRegName` | graphql-server/pkg/abnf/rfc3986.go:96-110 | every IPv4 address is a registered name, and `Host` derives the same language as `RegName` |
| `Languages.OriginIsUri` | graphql-server/pkg/abnf/rfc3986.go:7-18 | scheme "://" authority is always a URI |
| `FieldTexts.ChainIdExact` | graphql-server/pkg/abnf/eip4361.go:73-75 | a chain id is one or more letters, digits and dashes |
| `FieldTexts.NonceExact` | graphql-server/pkg/abnf/eip4361.go:78-80 | a nonce is eight letters or digits |
| `FieldTexts.AddressExact` | graphql-server/pkg/abnf/eip4361.go:63-65 | an address is letters, a `1`, and letters or digits |
| `FieldTexts.StatementExact` | graphql-server/pkg/abnf/eip4361.go:58-60 | a statement is any text of the unreserved characters, the delimiters and blanks, without percent signs |
| `FieldTexts.RequestIdExact` | graphql-server/pkg/abnf/eip4361.go:98-100 | in a request id every character is a path character or a percent sign in front of two hexadecimal digits |
| `FieldTexts.SchemeExact` | graphql-server/pkg/abnf/rfc3986.go:81-84 | a scheme is a letter, then letters, digits, plus signs, dashes and points |
| `FieldTexts.AuthorityExact` | graphql-server/pkg/abnf/rfc3986.go:86-104 | an authority is a host, with perhaps a user and its sign in front and a colon and digits behind |
| `FieldTexts.PathExact` | graphql-server/pkg/abnf/rfc3986.go:20-48 | the paths are all the texts of path characters and slashes |
| `FieldTexts.UriChars` | graphql-server/pkg/abnf/rfc3986.go:8-18 | a URI is scheme, "://", authority, path, and perhaps a query and a fragment, character by character |
| `FieldTexts.WellFormedExact` | graphql-server/pkg/abnf/eip4361.go:57-110 | the fields the rules accept are those of their kind, character by character |
| `UriForms.DelimsExact` | graphql-server/pkg/abnf/rfc3986.go:161-176 | the delimiters are exactly eleven characters, a backslash among them and no apostrophe |
| `UriForms.NoApostrophe` | graphql-server/pkg/abnf/rfc3986.go:161-176 | no URI of the grammar holds an apostrophe |
| `UriForms.BackslashInUri` | graphql-server/pkg/abnf/rfc3986.go:161-176 | a URI of the grammar with a backslash as its host |
| `UriForms.UriExact` | graphql-server/pkg/abnf/rfc3986.go:8-18 | a text is a URI if and only if it is a scheme, "://", an authority, a path and an end, each in its rule |
| `UriForms.PathsExact` | graphql-server/pkg/abnf/rfc3986.go:16-45 | of the paths accepted behind an authority, the empty ones and those that begin with a slash are those of the first alternative, and all others are rootless |
| `UriForms.PathRightAfterAuthority` | graphql-server/pkg/abnf/rfc3986.go:16-45 | a URI of the grammar that cannot be taken apart with an empty path or one that begins with a slash |
| `Languages.IsoStringIsDateTime` | graphql-server/pkg/abnf/iso8601.go:70-73 | what `toISOString` prints for years 0 to 9999 is a date-time of the grammar |
| `Calendar.DateOf` | graphql-server/pkg/models/auth.go:38-41 | a day number has a Gregorian date with exactly that number |
| `Calendar.DayNumberInjective` | graphql-server/pkg/models/auth.go:38-41 | no two Gregorian dates have one day number |
| `Calendar.MonthLengths` | graphql-server/pkg/models/auth.go:38-41 | the lengths of the twelve months |
| `Calendar.FirstDayClosed` | graphql-server/pkg/models/auth.go:38-41 | the first day of a year is 365 days a year and a leap day every fourth year, but for centuries not divisible by 400 |
| `Calendar.LeapCycle` | graphql-server/pkg/models/auth.go:38-41 | 400 years have 97 leap days |
| `Calendar.DayNumberClosed` | graphql-server/pkg/models/auth.go:38-41 | the number of every date, month by month |
| `Calendar.SomeDayNumbers` | graphql-server/pkg/models/auth.go:38-41 | the first of January 1970 and the last of May 2022 in days |
| `Timestamps.LayoutRoundTrip` | graphql-server/pkg/models/auth.go:24-45 | numbers printed in a layout are read back from it, with whatever follows left over |
| `Timestamps.FormatParses` | graphql-server/pkg/models/auth.go:24-45 | parsing a formatted RFC 3339 time of a four-digit year gives the time at the start of its second, in its offset |
| `Timestamps.FormatOutOfRange` | graphql-server/pkg/models/auth.go:24-45 | a formatted time of any other year does not parse |
| `Timestamps.IsoStringParses` | react-app/src/providers/AuthProvider.tsx:14-22 | the client's timestamp is read to the millisecond |
| `ExpirableValues.ExpirableValue.ParseString` | graphql-server/pkg/models/auth.go:30-45 | of a text with one delimitor the value is the part in front, success means that behind it stands a date-time in range, and the time is the moment of its digits; otherwise nothing changes |
| `ExpirableValues.ExpirableValue.Encode` | graphql-server/pkg/models/auth.go:24-28 | the value, the delimitor and a text whose digits show the time to the second; it decodes again exactly for values without the delimitor and four-digit years |
| `ExpirableValues.RoundTrip` | graphql-server/pkg/models/auth.go:24-45 | decoding undoes encoding, to the second, for values without the delimitor and four-digit years, and refuses every other encoding |
| `ExpirableValues.OneDelimitor` | graphql-server/pkg/models/auth.go:31-34 | texts without exactly one delimitor are refused, and only they fail to split |
| `ExpirableValues.ExpiryAfterRoundTrip` | graphql-server/pkg/models/auth.go:47-49 | a decoded value never outlives the encoded one and falls short of it by less than a second |
| `SignIn.AuthenticationMessage.ParseAbnf` | graphql-server/pkg/models/auth.go:126-174 | a text that is no message is rejected and changes nothing; of a message, described character by character, the outcome follows from its lines and after success each field is the text of its line, each time the moment of its digits; the fields assigned before an error or the panic too |
| `SignIn.AcceptedExact` | graphql-server/pkg/abnf/eip4361.go:37-110 | a text is derived by the grammar if and only if it is the print of fields each of which is of its kind, character by character |
| `SignIn.SuccessFromCaptures` | graphql-server/pkg/models/auth.go:133-171 | after a success every field is the keyed part of its name in the derivation |
| `SignIn.FullMessageRead` | graphql-server/pkg/models/auth.go:133-171 | a message with every line there is, written out, is read with every field in its place |
| `SignIn.ChildOfMessage` | graphql-server/pkg/models/auth.go:133-166 | every keyed child of an accepted message is the field it was derived for |
| `SignIn.PanicsExact` | graphql-server/pkg/models/auth.go:126-138 | reading a text panics if and only if the grammar accepts it and its fifth line is not empty |
| `SignIn.OutcomeExact` | graphql-server/pkg/models/auth.go:126-174 | for every text: refused outside the grammar (`SignIn.AcceptedExact`), the panic without a statement line, a time error exactly when some date or time of day is out of range, success otherwise |
| `SignIn.WithoutStatementPanics` | graphql-server/pkg/models/auth.go:126-138 | any message of the client without its empty statement line is accepted and panics, with authority and address assigned |
| `SignIn.WithResources` | graphql-server/pkg/models/auth.go:166-171 | any message of the client with any list of URIs as resources is read with as many blanks before them |
| `SignIn.SomePartsFit` | react-app/src/providers/AuthProvider.tsx:9-24 | parts that meet the conditions, with the chain id the client is configured for |
| `TimeTexts.ParseExact` | graphql-server/pkg/models/auth.go:36-45 | the parser on every text: it takes exactly the date-times, described character by character, whose date exists and whose clock is in range, and makes of them the moment of their digits: day, hours, minutes and seconds at fixed places, minus the zone, plus any number of digits behind the point |
| `TimeTexts.DateTimeExact` | graphql-server/pkg/abnf/iso8601.go:70-73 | the date-times of the grammar, character by character |
| `TimeTexts.FormatShows` | graphql-server/pkg/models/auth.go:24-28 | a time formatted in years 0 to 9999 shows its date and its clock in whole seconds at fixed places, and its zone |
| `TimeTexts.IsoShows` | react-app/src/providers/AuthProvider.tsx:14-22 | what the browser prints shows the moment in UTC at the same places, and three digits of milliseconds |
| `TimeTexts.SomeMoment` | graphql-server/pkg/models/auth.go:140-143 | `2022-05-31T10:20:30Z` as a number of seconds |
| `TimeTexts.SomeZonedMoment` | graphql-server/pkg/models/auth.go:140-143 | the same clock with half a second, eight hours ahead of UTC |
| `SignIn.CollectResources` | graphql-server/pkg/models/auth.go:166-171 | the loop appends the resources after as many blanks |
| `SignIn.ResourcesPadded` | graphql-server/pkg/models/auth.go:166-171 | for every text that is read successfully, the list read is as many blanks and then the resources of the message; it is that of the message if and only if the last line is no resource line |
| `SignIn.ClientMessageIsPrint` | react-app/src/providers/AuthProvider.tsx:9-24 | the client's template is the print of its fields with an empty statement |
| `SignIn.SignInRoundTrip` | react-app/src/providers/AuthProvider.tsx:9-24 | for every scheme, host, address and chain id described character by character, 4-byte nonce and moment of years 0 to 9999 the server accepts the message and reads exactly the fields it was composed of |
| `ReactionTable.NumericIsProposal` | graphql-server/migrations/20220616131820_create-reaction-table.go:33-37 | under the check constraint a numeric target id names a proposal |
| `ReactionTable.UpsertKeeps` | graphql-server/pkg/mutators/reaction.go:61-67 | an upsert keeps one row per address and target and keeps the check constraints |
| `ReactionTable.OperationsAffectOneKey` | graphql-server/pkg/mutators/reaction.go:25-78 | a set or an unset changes the reaction of its own key, to the new one or none, and of no other |
| `ReactionTable.ReactionMutator.SetReaction` | graphql-server/pkg/mutators/reaction.go:53-78 | the row is stored and returned exactly when it is storable: a word between colons on a number for a proposal, on an ISCN for the rest; otherwise the table is as before |
| `ReactionTable.ReactionExact` | graphql-server/migrations/20220616131820_create-reaction-table.go:26 | a reaction passes its check if and only if it is a colon, a non-empty text of the 63 listed word characters, and a colon |
| `ReactionTable.NumericExact` | graphql-server/migrations/20220616131820_create-reaction-table.go:35 | a target id passes as a number if and only if it is a non-empty text of the ten listed digits |
| `ReactionTable.IscnExact` | graphql-server/migrations/20220616131820_create-reaction-table.go:34 | a target id passes as an ISCN if and only if, behind any text, it is `iscn://`, a part, a slash, a part and perhaps a slash and a number, over listed characters |
| `ReactionTable.AllowedExact` | graphql-server/migrations/20220616131820_create-reaction-table.go:26-37 | the check constraints hold of a row if and only if it is storable, written out |
| `ReactionTable.ClientReactionStored` | react-app/src/components/reactions/ReactionModel.tsx:5-13 | each of the client's seven reactions on any printed proposal number is stored |
| `ReactionTable.ReactionMutator.UnsetReaction` | graphql-server/pkg/mutators/reaction.go:25-51 | undisturbed, it removes the row of the key and returns it, or fails when there is none |
| `ReactionSchedule.RunKeepsInv` | graphql-server/pkg/mutators/reaction.go:25-78 | after every interleaving the table has one row per address and target, and an id read by an unfinished removal is gone or still names the same key |
| `ReactionSchedule.RunGoesOn` | graphql-server/pkg/mutators/reaction.go:25-78 | a run goes on with any statement its last world allows, so the runs are all interleavings |
| `ReactionSchedule.CommittedReplay` | graphql-server/pkg/mutators/reaction.go:28-43 | the calls that take effect at a step, executed whole, make exactly its change, the first of them all of it |
| `ReactionSchedule.OrderReplays` | graphql-server/pkg/mutators/reaction.go:25-78 | the order lists each call that took effect once, and replaying it gives the table of the run |
| `ReactionSchedule.Linearizable` | graphql-server/pkg/mutators/reaction.go:25-78 | every interleaving ends in the table of a sequential order of whole calls that contains all finished ones and keeps calls that did not overlap in their order |
| `ReactionSchedule.SameStates` | graphql-server/pkg/mutators/reaction.go:25-78 | the run and the sequential order pass through the same tables |
| `ReactionSchedule.RacingUnsets` | graphql-server/pkg/mutators/reaction.go:28-50 | from every world with a row of the key two new removals can both read it and both finish, while after one whole removal no row is left to find; `ReactionAnswers.SuccessExact` says in which runs this happens |
| `ReactionAnswers.AnswersExact` | graphql-server/pkg/mutators/reaction.go:25-78 | every call that took effect is told what the sequential order tells it if and only if every step is fair: it commits at most one call, and, for the reported rows, a deleted row is as its call read it |
| `ReactionAnswers.SuccessExact` | graphql-server/pkg/mutators/reaction.go:25-78 | every call succeeds or fails as in the order if and only if no step commits more than one call |
| `ReactionAnswers.CommitsSeveral` | graphql-server/pkg/mutators/reaction.go:28-43 | a step commits several calls if and only if it deletes a row whose id another unfinished removal holds |
| `ReactionAnswers.RacingRun` | graphql-server/pkg/mutators/reaction.go:25-51 | a whole run from one row in which two removals both succeed, and the order refuses the second |
| `ReactionAnswers.StaleRun` | graphql-server/pkg/mutators/reaction.go:25-78 | a whole run in which a removal succeeds as in the order, but reports the reaction that was replaced |
| `ReactionOrders.SomeOrderExplains` | graphql-server/pkg/mutators/reaction.go:25-78 | some order with all calls that took effect, executed whole through tables of the run in their order, gives every call its success or failure if and only if no step commits several calls |
| `ReactionLoader.QueryUserReactions` | graphql-server/pkg/queries/reaction.go:122-152 | the answers by target id among the rows of the user |
| `ReactionLoader.Fetch` | graphql-server/pkg/dataloaders/reaction.go:54-88 | one answer for each key, and for a table with one row per target and its checks, answer i is a row if and only if that row is in the table under the address and the printed proposal of key i |
| `ReactionLoader.FoundIsReaction` | graphql-server/pkg/dataloaders/reaction.go:54-88 | the answer for a key is the row of that user and proposal or nothing, whatever else the batch holds |
| `ReactionLoader.PrintedIsProposal` | graphql-server/migrations/20220616131820_create-reaction-table.go:33-37 | a printed number, negative ones included, is the target id of no comment and no post |
| `ReactionLoader.UncheckedIsWrong` | graphql-server/pkg/queries/reaction.go:116-143 | without the check constraint the loader would answer with a reaction to something else |
| `ReactionLoader.QueryTargetReactions` | graphql-server/pkg/queries/reaction.go:74-120 | one answer for each target, repeated or without reactions: answer i counts for every reaction the addresses that hold it on target i, and lists no other |
| `ReactionLoader.CountsAreHolders` | graphql-server/pkg/queries/reaction.go:81-93 | a reaction is counted once per address that holds it, and listed only if some address does |
| `ReactionCache.CachedProposal.Modify` | react-app/src/api/reactionAPI.ts:94-149 | the cached entry after a mutation, in terms of the entry before it |
| `ReactionCache.FetchedIsUpToDate` | graphql-server/pkg/resolvers/proposal.go:83-117 | what the loaders answer agrees with the table |
| `ReactionCache.HoldersAfter` | graphql-server/pkg/mutators/reaction.go:25-78 | a mutation moves one address between the holders of reactions and touches nobody else |
| `ReactionCache.UpdateExact` | react-app/src/api/reactionAPI.ts:94-149 | the updated counts agree with the changed table if and only if the mutation does not set the reaction that is set already |
| `ReactionCache.CountedTwice` | react-app/src/api/reactionAPI.ts:94-149 | a table with one reaction and its cache: set again, the cache counts two where one address holds it |
| `ReactionCache.ClicksKeepCache` | react-app/src/components/ProposalDetailScreen/ProposalHeader.tsx:330-339 | through any sequence of clicks the cache has distinct reactions with positive counts equal to the numbers of holders, and the user's stored reaction |

## Left out

- SQL text, query building, row order and joins: tables are fixed sequences or maps with the uniqueness named above; errors of the database are not modelled.
- The internals of the grammar library, of the batching of the data loaders and of the Apollo cache: the first has the meaning of RFC 5234 section 3, a batch is one list of keys, an update is applied once and reads the reaction as it was before.
- Optimistic responses and their roll-back, and changes by other users between two fetches, after which the cache may differ from the table.
- The order of reaction counts: the aggregation does not fix it, so the counts of a target are a map.
- The error path of the grouped loader, which indexes a missing result; queries succeed.
- Negative page sizes and offsets, which the resolvers do not check.
- The order arguments of the lists, and the `ValidatorInfo` relation that rows carry along.
- Go's leniency in times beyond RFC 3339 (one-digit hours, a comma before the fraction), offsets with seconds, and leap seconds; a zone offset of any two-digit hour and minute is read, as the parser does.
- ProposalConnections.Votes: the methods `FetchVotes`, `FetchDeposits`, `FetchPinned`, `FindVoteOn`, `ValidatorVotes`, `RestWindow`, `NumberRows`, `Append` and `Present` are parts of the resolvers' bodies, which the source has in line and twice; `ReactionLoader.FetchUsers` is one of the loader's.
- SignIn.AuthenticationMessage.ParseAbnf: it calls the single-pass scanner where the server calls its grammar library; `MessageScanner.ScanIsGrammar` proves that both find the same.
- ReactionSchedule.Linearizable: it is about tables; what callers are told is the subject of `ReactionAnswers.AnswersExact`, whose fairness is about each step of the run and not about the calls alone.
- PageController.NextShowsAll: pages given as page numbers instead of offsets, which no list uses.
- `PathNoScheme` and `SegmentNzNc`, which no rule uses, and the test entity among the node types.
- Signatures, public keys, cookies, sessions, wallets, forms, tables, translations, configuration, migrations as such, and one-line arithmetic on coins, tallies, uptime and returns.
