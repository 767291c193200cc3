# Prediction markets of the points economy

A Dafny model of the prediction-market engine in the economy cog of a Discord points bot. Users create
markets with a question and a comma-separated option list. They stake points on one option until the
end time. The market's creator then resolves it, and the winners share the whole pool in proportion to
their stakes. A market left unresolved 48 hours after its end is refunded. Three versions of the cog
are modelled:

- **The pari-mutuel cog** (`cogs/economy/__init__.py`) covers:
  - the `Prediction` record;
  - `create_prediction`;
  - the scheduled close-and-refund task;
  - the `/bet` submit handler;
  - the listing's status groups and its `add_markets_to_embed` field packing;
  - the resolve callback's payout loop.
- **The constant-product ("AMM") cog** (`cogs/economy/_innit_shares.py`) keeps the same record. It adds
  two virtual liquidity pools with `x * y = 10000` that price a bet in shares. It also adds a
  `days,hours,minutes` duration parser.
- **The older command cog** (`cogs/economy/__init__workingbondcurve.py`) addresses markets by list
  index. Its `resolve` has no guard against a second call.

Python dictionaries are insertion-ordered sequences (`Stakes.Book`, `Pool.Bets`). Exceptions the code
can raise on its own data (`KeyError`, `ZeroDivisionError`) are an `Outcome` case. `float('inf')` is
`Extended.Infinity`, and `int()` of a float is `Trunc` (toward zero). The remote points service is a
balance map (`Ledger.Balances`). The clock is an integer of whole seconds since `datetime.min`
(0001-01-01 00:00:00 UTC), passed in as `now`; `Common.InDatetimeRange` is the range `datetime` can hold.

The modules, in dependency order:

- **Foundations:**
  - `Common`: shared value types.
  - `Stakes`: one option's `{user: amount}`.
  - `Pool`: the `bets` dictionary.
  - `Arith`: real and integer facts.
  - `Ledger`: balances and credits.
- **The records:**
  - `PariMutuel`: the record.
  - `Settlement`: the payout and refund loops.
  - `Amm`: the pooled record.
- **The handlers:**
  - `Parsing`: `split`, `strip` and the create parsers.
  - `Listing`: the market lists.
  - `Embed`: the listing fields.
  - `Lifecycle`: the pari-mutuel handlers as one state machine, with the invariant the program keeps and the stronger one a corrected submit keeps.
  - `AmmHandlers`: the AMM handlers.
  - `Draft`: the older command cog.
  - `Witnesses`: concrete inputs for the findings.

## Model

| member | source | states |
|---|---|---|
| Common.Trunc | cogs/economy/__init__.py:519 | `int()` of a float truncates toward zero: the result is within one of the input, on the side of zero |
| Stakes.Add | cogs/economy/__init__.py:29-32 | adding to a user's stake raises exactly that user's stake and the book's sum by the amount, and no other user's stake |
| Stakes.AddShape | cogs/economy/__init__.py:29-32 | a known user keeps their position in the dictionary; a new user is appended as the last key |
| Stakes.AddKeyed | cogs/economy/__init__.py:29-32 | a stake book stays a dictionary (each user at most once) and gains exactly the betting user as key |
| Pool.Init | cogs/economy/__init__.py:21 | `{option: {} for option in options}` has exactly the listed options as keys, each with an empty book |
| Pool.Place | cogs/economy/__init__.py:27-33 | `place_bet`'s bookkeeping: nothing changes for an unknown option; otherwise only that option's book grows, by the amount, and the pool total grows by it |
| Pool.PlaceKeeps | cogs/economy/__init__.py:27-33 | placing a stake keeps the options and users distinct, and a positive amount keeps every stake positive |
| Pool.OptionTotalBounds | cogs/economy/__init__.py:45-46 | with positive stakes an option's total lies between 0 and the sum of all stakes |
| Pool.HistoryTotal | cogs/economy/__init__.py:66-71 | the bet history has one triple per stake entry and sums to the pool total |
| Pool.HistoryMembers | cogs/economy/__init__.py:66-71 | a `(user, option, amount)` triple is in the history exactly when that option's book holds that entry |
| PariMutuel.NewMarket | cogs/economy/__init__.py:14-25 | a new market is open, unresolved, unrefunded, with no stakes, and satisfies the market invariant |
| PariMutuel.PlaceBet | cogs/economy/__init__.py:27-33 | an unknown option changes nothing; a listed one raises the user's stake and `total_bets` by the amount and keeps the invariant |
| PariMutuel.Resolve | cogs/economy/__init__.py:35-40 | resolution succeeds exactly for a listed option of an unresolved market and then records it; a failure changes nothing |
| PariMutuel.MarkAsRefunded | cogs/economy/__init__.py:73-75 | a refunded market is flagged both resolved and refunded and keeps its stakes |
| PariMutuel.GetUserPayout | cogs/economy/__init__.py:48-56 | 0 before resolution or without a winning stake, KeyError for a result without a book, ZeroDivisionError for an empty winning pool, otherwise the stake's share of the pool |
| PariMutuel.GetOdds | cogs/economy/__init__.py:58-64 | one entry per listed option: pool total over option total, infinite when nothing is staked on it |
| PariMutuel.ResolveOnce | cogs/economy/__init__.py:35-40 | a second `resolve` fails and leaves the first result in place |
| PariMutuel.RefundBlocksResolve | cogs/economy/__init__.py:35-40 | a refunded market can no longer be resolved |
| PariMutuel.OddsAtLeastOne | cogs/economy/__init__.py:58-64 | under the invariant every finite odd is at least 1 |
| PariMutuel.BetHistoryTotal | cogs/economy/__init__.py:66-71 | under the invariant the bet history sums to `total_bets` |
| PariMutuel.PayoutBounds | cogs/economy/__init__.py:48-56 | under the invariant a winning stake's payout exists and lies between the stake and the whole pool |
| PariMutuel.PayoutIsShare | cogs/economy/__init__.py:48-56 | under the invariant a winning stake's payout is exactly `total * stake / winning pool`, with no exception |
| PariMutuel.StakeWithinOption | cogs/economy/__init__.py:45-46 | with positive stakes a user's stake on an option is at most that option's total |
| Ledger.Credit | cogs/economy/__init__.py:175 | `add_points` raises one user's balance by the amount and no one else's |
| Ledger.Transfer | cogs/economy/__init__.py:277 | `transfer_points` moves the amount from the sender to the receiver and leaves all other balances |
| Ledger.ApplyAll | cogs/economy/__init__.py:516-520 | issuing a list of credits raises each balance by what the list pays that user |
| Settlement.PayoutLoop | cogs/economy/__init__.py:516-520 | the payout loop credits only users of the winning book, never a negative amount, and at most one credit per entry |
| Settlement.WinnerPayouts | cogs/economy/__init__.py:505-520 | the resolve callback's credits: the payout loop over the result's book, none for a result without a book |
| Settlement.BookRefunds | cogs/economy/__init__.py:174-175 | every entry of a book is credited back its own amount, in order |
| Settlement.LoopPaysAll | cogs/economy/__init__.py:516-520 | when no payout raises and all are positive, the loop credits every winner `int` of their payout, in book order |
| Settlement.LoopPaidTo | cogs/economy/__init__.py:516-520 | when no payout raises, each user of a keyed book receives exactly `int` of their own payout if it is positive, else nothing |
| Settlement.WinnerCredits | cogs/economy/__init__.py:505-520 | under the invariant the payout loop runs to the end: one credit per winning entry, each `int` of that stake's pool share |
| Settlement.PayoutConservation | cogs/economy/__init__.py:505-520 | payout conservation: the winners are credited no more than `total_bets` in all, and each at least their stake |
| Settlement.PayoutPerUser | cogs/economy/__init__.py:516-520 | a winner is credited exactly `int` of their payout; a user without a winning stake gets nothing |
| Settlement.RefundConservation | cogs/economy/__init__.py:173-175 | the refund credits exactly the pool in all, and each user exactly what they staked over all options |
| Settlement.PlaceStakedBy | cogs/economy/__init__.py:27-33 | a stake placed by one user adds to what that user has staked and to nobody else's |
| Settlement.WinnerPaidAtLeast | cogs/economy/__init__.py:516-520 | under the invariant a winning staker is credited, in whole points, at least their stake |
| Parsing.Split | cogs/economy/__init__.py:97 | `str.split(sep)`: one more field than separators, none of them containing the separator |
| Parsing.SplitJoin | cogs/economy/__init__.py:97 | joining the fields of a split with the separator gives the text back |
| Parsing.JoinSplit | cogs/economy/_innit_shares.py:181 | splitting separator-free fields joined by the separator gives the fields back |
| Parsing.Strip | cogs/economy/__init__.py:97 | `str.strip()` is a contiguous slice of the text with only whitespace cut from both ends, and is empty or led and ended by non-whitespace; whitespace is every character `str.isspace()` accepts: tab to carriage return, `\x1c` to `\x1f`, space, and the Unicode spaces and separators |
| Parsing.StripIdempotent | cogs/economy/__init__.py:97 | stripping twice is stripping once |
| Parsing.FirstWord | cogs/economy/__init__.py:247 | `label.split(' ')[0]` is a prefix of the label without a space, ended in the label by a space when there is one |
| Parsing.OptionList | cogs/economy/__init__.py:97 | the option list has one stripped entry per comma-separated field |
| Parsing.ParseOptions | cogs/economy/__init__.py:97-102 | fewer than two options (no comma in the text) is refused; otherwise the option list is kept |
| Parsing.ParseDuration | cogs/economy/_innit_shares.py:181-193 | exactly three fields or a format error; each field blank (0) or a number, or an invalid-number error; a positive minute total, or refused |
| Parsing.EndTime | cogs/economy/__init__.py:105 | `utcnow() + timedelta(minutes=…)` gives an end time exactly when it lies between year 1 and year 9999, later than now for a positive duration; otherwise the `OverflowError` |
| Parsing.DurationOfFields | cogs/economy/_innit_shares.py:181-193 | three comma-free fields joined by commas give their total in minutes, refused only when that total is not positive |
| Parsing.OptionsOfPair | cogs/economy/_innit_shares.py:173-178 | two comma-free texts joined by a comma parse to the two stripped options |
| Amm.Opposite | cogs/economy/_innit_shares.py:47-49 | the opposite option is the other option of the binary market |
| Amm.Create | cogs/economy/_innit_shares.py:15-28 | the record of a new market plus a pool of 100 per option; a binary market starts with the pool invariant |
| Amm.GetPrice | cogs/economy/_innit_shares.py:30-45 | 0 for an unknown option, infinite exactly when buying empties the pool, otherwise a non-negative cost |
| Amm.SharesFor | cogs/economy/_innit_shares.py:75-84 | KeyError for an unknown option, ZeroDivisionError exactly when the other pool plus the points is 0, otherwise shares that keep the product `k` |
| Amm.PlaceBet | cogs/economy/_innit_shares.py:51-73 | an unknown option or a purchase of no shares returns False and changes nothing; otherwise the bought pool loses the shares, the other gains the points, and the points are recorded as a pari-mutuel stake |
| Amm.GetOdds | cogs/economy/_innit_shares.py:86-92 | each option's odds times twice its pool is the sum of both pools; a zero pool raises |
| Amm.GetUserPayout | cogs/economy/_innit_shares.py:94-106 | 0 before resolution or without a winning stake; KeyError or ZeroDivisionError as the Python raises them |
| Amm.Resolve | cogs/economy/_innit_shares.py:108-113 | resolution succeeds exactly for a listed option of an unresolved market, leaving the pools and keeping the invariant |
| Amm.MarkAsRefunded | cogs/economy/_innit_shares.py:128-130 | a refunded market is flagged both ways and keeps its pools and stakes |
| Amm.QuoteFor | cogs/economy/_innit_shares.py:137-143 | an infinite price and a zero payout when no share is bought; otherwise a price that multiplies back to the points and a payout of one point per share |
| Amm.GetCurrentPrices | cogs/economy/_innit_shares.py:132-144 | one quote per option, raising exactly when a share calculation raises |
| Amm.AmmWinnerPayouts | cogs/economy/_innit_shares.py:633-640 | the AMM resolve callback's credits are empty for a market without a result book |
| Amm.SubmitBet | cogs/economy/_innit_shares.py:380-405 | a non-positive amount, an ended market and a short balance are refused in that order; an escrowed bet moves exactly the amount to the bot's account |
| Amm.SharesInPool | cogs/economy/_innit_shares.py:75-84 | under the invariant a positive bet buys a positive number of shares, fewer than the pool holds |
| Amm.BetKeepsInvariant | cogs/economy/_innit_shares.py:51-73 | under the invariant a positive bet always goes through, keeps the pool product `k`, and records exactly the points as stake |
| Amm.DiminishingReturns | cogs/economy/_innit_shares.py:51-84 | a second bet of the same size on the same option buys strictly fewer shares than the first |
| Amm.PriceOfBet | cogs/economy/_innit_shares.py:30-45 | pricing the shares a bet buys gives back exactly the bet |
| Amm.SharesOfPriceRoundTrip | cogs/economy/_innit_shares.py:75-84 | spending the price of a number of shares buys exactly that number of shares |
| Amm.OddsUnderInvariant | cogs/economy/_innit_shares.py:86-92 | under the invariant the odds exist, the implied probabilities are the pool shares and sum to 1, and the larger pool has the smaller odds |
| Amm.QuotesUnderInvariant | cogs/economy/_innit_shares.py:132-144 | under the invariant a positive quote never raises and every option gets a finite positive price |
| Amm.PayoutIsPariMutuel | cogs/economy/_innit_shares.py:94-106 | when `total_bets` is the sum of the stakes, the AMM payout is `int` of the pari-mutuel payout, with the same exceptions |
| Amm.AmmPayoutConservation | cogs/economy/_innit_shares.py:633-640 | the AMM resolve callback credits what the pari-mutuel one does: each winner at least their stake, no more than `total_bets` in all |
| Amm.BetEscrow | cogs/economy/_innit_shares.py:380-405 | a bet that passes the handler's checks escrows exactly what it records: the bot gains what `total_bets` gains |
| AmmHandlers.Create | cogs/economy/_innit_shares.py:173-198 | the options are checked first, then the duration, then the end time's range; a created market ends the parsed number of minutes after now, with no stakes and seeded pools |
| AmmHandlers.Launch | cogs/economy/_innit_shares.py:197-198 | a market is created exactly when its end time lies in `datetime`'s range, otherwise the overflow is the error |
| AmmHandlers.CreateFromFields | cogs/economy/_innit_shares.py:173-198 | two option texts and three duration fields joined by commas give a binary market on the stripped options, ending the fields' total of minutes from now, under the pool invariant, exactly when that end lies in `datetime`'s range; otherwise the overflow error |
| AmmHandlers.RefundStep | cogs/economy/_innit_shares.py:264-278 | a resolved market is left alone; otherwise it is refunded, every stake is credited back, and the pools are kept |
| AmmHandlers.RefundReturnsStakes | cogs/economy/_innit_shares.py:272-278 | the AMM refund agrees with the pari-mutuel one: each staker gets back their stake, `total_bets` in all, and the market can no longer be resolved |
| AmmHandlers.PayoutStep | cogs/economy/_innit_shares.py:625-641 | the payout runs only when `resolve` succeeds; each balance rises by exactly what the payout loop credits |
| AmmHandlers.PayoutPaysWinners | cogs/economy/_innit_shares.py:625-641 | the AMM payout credits what the pari-mutuel payout credits: each winner at least their stake, no more than `total_bets` in all |
| Listing.StatusOf | cogs/economy/__init__.py:363-382 | a market is refunded, resolved, pending or active exactly as its flags and end time say |
| Listing.Group | cogs/economy/__init__.py:352-382 | a section holds exactly the markets of its status |
| Listing.GroupConcat | cogs/economy/__init__.py:352-382 | sections keep creation order: the section of two runs of markets is the first run's section followed by the second's |
| Listing.GroupOne | cogs/economy/__init__.py:352-382 | a single market makes up its own section or none, so with `GroupConcat` a section is the markets of its status in list order, repeats included |
| Listing.Betting | cogs/economy/__init__.py:194 | `/bet` offers exactly the unresolved markets whose end time is still ahead |
| Listing.Resolvable | cogs/economy/__init__.py:465-468 | `/resolve_prediction` offers a user exactly their own unresolved markets |
| Listing.GroupsPartition | cogs/economy/__init__.py:352-382 | the four sections together hold every market exactly once |
| Listing.BettingIsActive | cogs/economy/__init__.py:194 | the betting list is exactly the listing's Active section, in the same order |
| Listing.ResolvableNotRefunded | cogs/economy/__init__.py:465-468 | a market offered to its creator is not refunded, is active or pending, and resolving it with any of its options succeeds |
| Embed.Entry | cogs/economy/__init__.py:393 | one market's entry is the question and text with 7 characters of markup, starting with `*` |
| Embed.DigitsRoundTrip | cogs/economy/__init__.py:399 | the field counter written in decimal reads back as the counter |
| Embed.TitlesDistinct | cogs/economy/__init__.py:399 | different field counts give different field names |
| Embed.VisibleStrip | cogs/economy/__init__.py:400 | `strip()` removes only whitespace, so a field's value shows everything its text shows |
| Embed.LastNewline | cogs/economy/__init__.py:413 | `rfind('\n')` is the last newline, -1 when there is none |
| Embed.SplitEntry | cogs/economy/__init__.py:404-418 | a long entry is cut into pieces of at most 1000 characters that together show every visible character of the entry; an entry that fits stays whole |
| Embed.AddField | cogs/economy/__init__.py:399-401 | a pending block becomes one field with the next number and the stripped text, after the fields before it |
| Embed.AddFieldShows | cogs/economy/__init__.py:399-401 | the new field shows exactly what the block showed |
| Embed.AddParts | cogs/economy/__init__.py:421-424 | the pieces of a long entry become one field each, numbered on from the fields before |
| Embed.AddPartsShows | cogs/economy/__init__.py:421-424 | the fields of the pieces show everything the pieces show, in order |
| Embed.Flush | cogs/economy/__init__.py:397-401 | a non-empty pending block becomes one more numbered field; an empty one adds nothing |
| Embed.FlushShows | cogs/economy/__init__.py:397-401 | flushing loses no visible character of the pending block |
| Embed.PackEntry | cogs/economy/__init__.py:392-434 | one loop turn keeps every field numbered and fitting and the pending block within 1000 characters, and never drops an emitted field |
| Embed.PackEntryShows | cogs/economy/__init__.py:392-434 | one loop turn loses no visible character: the state afterwards shows what it showed before followed by the entry |
| Embed.PackAll | cogs/economy/__init__.py:392-434 | the loop over a section's entries keeps the fields numbered and fitting, and loses no visible character |
| Embed.AddMarketsToEmbed | cogs/economy/__init__.py:384-441 | an empty section leaves the embed alone; otherwise it appends fields named `title`, `title (2)`, … that each fit 1000 characters and together show exactly the visible text of the section's entries |
| Lifecycle.RefundStep | cogs/economy/__init__.py:162-175 | a resolved market is left alone; otherwise it is refunded and each balance rises by exactly what the refunds credit |
| Lifecycle.PayoutStep | cogs/economy/__init__.py:505-520 | the payout runs only when `resolve` succeeds and credits the winning book's payouts |
| Lifecycle.SubmitBet | cogs/economy/__init__.py:260-278 | a non-positive amount, an ended market and a short balance are refused in that order; otherwise the bet escrows |
| Lifecycle.SubmitBetAsWritten | cogs/economy/__init__.py:247-278 | the handler as the button builds it bets on the label's first word; for a label without a space this is the exact-option handler |
| Lifecycle.RefundReturnsStakes | cogs/economy/__init__.py:169-175 | the refund gives each staker back exactly their stake, `total_bets` in all, and the market can no longer be resolved |
| Lifecycle.PayoutPaysWinners | cogs/economy/__init__.py:505-520 | the payout credits each winner at least their stake and no more than `total_bets` in all |
| Lifecycle.ExactOptionEscrow | cogs/economy/__init__.py:277-278 | a bet on a listed option escrows exactly what it records: the bot gains what `total_bets` and the user's stake gain |
| Lifecycle.FirstWordLosesStake | cogs/economy/__init__.py:247 | when a label's first word is not an option, the points reach the bot's account but the market records nothing |
| Lifecycle.Open | cogs/economy/__init__.py:91-128 | creation needs at least two options and an end time `duration` minutes from now inside `datetime`'s range (the overflow is caught and reported); a created market starts the corrected life-cycle invariant |
| Lifecycle.CloseStep | cogs/economy/__init__.py:133-160 | at the end time the scheduled coroutine stops for a resolved market or starts the grace period, changing neither market nor ledger |
| Lifecycle.GraceStep | cogs/economy/__init__.py:160-175 | after the grace period the refund step runs and the coroutine ends |
| Lifecycle.BrowseStep | cogs/economy/__init__.py:189-198 | `/bet` offers the market only while it is unresolved and before its end time, and the user keeps its buttons afterwards |
| Lifecycle.BetStep | cogs/economy/__init__.py:247-278 | the submit, as written: only a user holding the buttons, betting on the label's first word, with amount, end time and balance checked and no resolved check; points for a first word that is no option are stray |
| Lifecycle.CheckedBetStep | cogs/economy/__init__.py:260-278 | the corrected submit: the exact option, and nothing changes on a resolved market |
| Lifecycle.ResolveStep | cogs/economy/__init__.py:465-520 | only the creator of an unresolved market resolves it, and the winners are paid on the market as it stands |
| Lifecycle.StepKeeps | cogs/economy/__init__.py:131-520 | every event of the program keeps the invariant: balances equal the start minus stakes and stray points plus credits, with the bot holding all stakes and stray points, and a payout covering the books as they were when it ran |
| Lifecycle.RunKeeps | cogs/economy/__init__.py:131-520 | any sequence of events of the program keeps that invariant |
| Lifecycle.CheckedStepKeeps | cogs/economy/__init__.py:131-520 | with the corrected submit every event keeps the stronger invariant: no stray points, and a payout covers the market as it stands |
| Lifecycle.CheckedRunKeeps | cogs/economy/__init__.py:131-520 | any sequence of events with the corrected submit keeps the stronger invariant |
| Lifecycle.SettlementBounds | cogs/economy/__init__.py:169-175 | a payout never exceeds the pool it ran on, which is at most the pool now, and gives each winner their stake at that time; a refund returns exactly the pool and each user's stake |
| Lifecycle.CreditsAreFinal | cogs/economy/__init__.py:131-520 | once settled the credits never change, and only a submit still moves market or ledger |
| Lifecycle.LateStakeKept | cogs/economy/__init__.py:260-278 | a submit accepted after the payout takes the user's points to the bot and grows the unpaid escrow by the amount, with the credits unchanged |
| Lifecycle.SettledIsFinal | cogs/economy/__init__.py:140-165 | with the corrected submit, once paid out or refunded no event changes the market, the ledger or the credits |
| Draft.DraftResolve | cogs/economy/__init__workingbondcurve.py:32-35 | the older `resolve` records a listed option even on a resolved market and ignores an unlisted one |
| Draft.Create | cogs/economy/__init__workingbondcurve.py:82-92 | at least two options and an end time inside `datetime`'s range; the new market is appended to the list and ends `duration` minutes from now |
| Draft.BetCommand | cogs/economy/__init__workingbondcurve.py:117-141 | the index, the end time, the option, the amount and the balance are checked in that order; an accepted bet escrows and records the amount |
| Draft.BetCommandOpenOnly | cogs/economy/__init__workingbondcurve.py:117-141 | the same command that also refuses a resolved market |
| Draft.ResolveCommand | cogs/economy/__init__workingbondcurve.py:188-209 | the index, a resolved market and an unlisted result are refused in that order; otherwise the market is resolved and the winners are credited |
| Draft.ResolveOverwrites | cogs/economy/__init__workingbondcurve.py:32-35 | a second call of the older `resolve` replaces the result |
| Draft.ResolveCommandOnce | cogs/economy/__init__workingbondcurve.py:192-195 | the command's own check stops that overwrite: a second command is declined |
| Draft.LateBetNeverPaid | cogs/economy/__init__workingbondcurve.py:117-141 | a bet on a market resolved before its end time is accepted, moves the points, and the resolve command then declines the market |
| Draft.AcceptedBetIsPaid | cogs/economy/__init__workingbondcurve.py:204-209 | with the open-only check every accepted bet is credited at least its stake when its option wins |
| Witnesses.SpacedOptionLosesStake | cogs/economy/__init__.py:247 | a bet of 10 on the option "Yes please" takes 10 points from the user and records no stake |
| Witnesses.LateBetAfterPayout | cogs/economy/__init__.py:260-278 | `/bet`, an early resolve to "A" and then a submit of 10 on "B": the user is down 10, the bot up 10, the stake is recorded after the payout, and the corrected invariant fails |
| Witnesses.BetAfterEarlyResolve | cogs/economy/__init__workingbondcurve.py:117-141 | a bet of 10 on a market resolved an hour early is accepted, and the resolve command then declines the market |

## Left out

- Discord is not modelled:
  - interactions, embeds as sent, buttons, modals and select menus;
  - direct-message notifications and the category filter of `/bet`.

  The handlers are modelled from the point where the user's choice is known.
- The points service (`cogs/helpers/SimplePointsManager.py`) is an HTTP client; it is not part of this model. `add_points` is modelled as a credit and `transfer_points` as a move between balances; neither can fail. The bot's account is never debited by a payout, as in the code.
- `asyncio` sleeps and `utcnow()` become the integer `now` and the events of `Lifecycle.Event`; concurrent handlers are not interleaved within a step. The fraction of a second of `utcnow()` is dropped. This does not change when an end time overflows. It can shift a comparison with the end time by less than a second.
- Lifecycle.BrowseStep: the view timeouts of Discord's buttons and modals are not modelled; a user shown the market keeps its buttons. The select callback's end-time check (232-236) is not modelled separately, since the submit repeats it later.
- Floating point is modelled as exact reals. `int()` truncation is modelled; rounding error is not.
- `int()` of a text is a parameter `parseInt` of `Parsing.ParseDuration`, and the amount text of the bet modal arrives already as an integer.
- The text of `market_text`, the odds lines and the messages is not rendered. `Embed` takes each section's `(question, text)` pairs as given and states what the fields show, without whitespace.
- Embed: Discord's limit of 25 fields per embed is not modelled (the code does not check it either).
- Embed.PackEntry: one turn of the loop receives the split of a long entry as a parameter. `Embed.PackAll` computes it with `Embed.SplitEntry`, because the split is a loop and is modelled as a method.
- Amm: the pools are only modelled for a binary market (`Amm.Binary`), the case `get_opposite_option` is written for. Creation of a market with more options is modelled, but pricing then needs `Pooled`.
- Amm.AmmWinnerPayouts: its contract says only when no credits are issued. The full statement (same credits as the pari-mutuel loop, bounded by the pool) is `Amm.AmmPayoutConservation`.
- Lifecycle: the bot's own account betting on its market is allowed by the code. The escrow lemmas assume the bettor is not the bot.
- The close task of the older cog (`__init__workingbondcurve.py`, 102-105 and 170-176) only posts a reminder to a hard-coded channel (`YOUR_CHANNEL_ID`) and changes no state, so it is not modelled.
- The backup and November variants of the cog and `bot.py` are not part of this model.

## Findings

| source | as written | input that shows it | evidently intended | confidence | as-written member | corrected member |
|---|---|---|---|---|---|---|
| cogs/economy/__init__.py:247 | the option button takes `label.split(' ')[0]` as the option, and the label is the option itself | a market with the option "Yes please": a bet of 10 moves 10 points to the bot, `place_bet` ignores the unknown option "Yes", and no stake is recorded | bet on the option the button stands for | high (not executed) | Lifecycle.SubmitBetAsWritten, with Lifecycle.FirstWordLosesStake and Witnesses.SpacedOptionLosesStake | Lifecycle.SubmitBet, with Lifecycle.ExactOptionEscrow; in the life cycle Lifecycle.CheckedBetStep, with Lifecycle.CheckedRunKeeps |
| cogs/economy/__init__workingbondcurve.py:117-141 | `/bet` checks the end time but not `resolved`, while `/resolve_prediction` may resolve before the end time | a market resolved an hour before its end: a bet of 10 is accepted and moves 10 points, and a later resolve is declined, so the stake is never paid | refuse bets on a resolved market | medium (not executed) | Draft.BetCommand, with Draft.LateBetNeverPaid and Witnesses.BetAfterEarlyResolve | Draft.BetCommandOpenOnly, with Draft.AcceptedBetIsPaid |
| cogs/economy/__init__.py:260-278 | the submit handler checks amount, end time and balance but not `resolved`; `/bet` filters out resolved markets only when it builds its list (194), and the creator may resolve before the end time. The AMM submit (`_innit_shares.py`, 380-405) has the same gap | user 2 invokes `/bet`, the creator resolves to "A" an hour early, then user 2 submits 10 on "B": the 10 points go to the bot and the stake is recorded after the payout loop ran, so it is never paid or refunded | refuse the submit on a market resolved since the list was built | high (not executed) | Lifecycle.BetStep, with Lifecycle.LateStakeKept and Witnesses.LateBetAfterPayout | Lifecycle.CheckedBetStep, with Lifecycle.CheckedRunKeeps and Lifecycle.SettledIsFinal |
