# whitelist-bot: the redemption decision, in Dafny

The bot watches a Twitch channel for redemptions of one channel-points
reward. A redemption carries a Minecraft account name typed by the viewer.
`WhitelistManager.handle_redemption` goes through these steps in order and
stops at the first failure:

1. strip the input;
2. check the name format `[A-Za-z0-9_]{3,16}`;
3. ask the Mojang API whether the account exists (bounded retry);
4. scan the user database for another viewer who already owns the name;
5. send `whitelist remove <old>` to the server console when the viewer had a
   different name before;
6. send `whitelist add <name>`;
7. record viewer → name in the database and write it to disk.

Each failure refunds the points through the Twitch API, again with a bounded
retry. An uncaught exception ends the handler without a refund. The one such
case the model covers is an exception the lookup does not catch. The
others are a missing `screen` binary and a failing token fetch; both are
listed under "## Left out".

The model has five modules:

- `NameRules` (`name_rules.dfy`): the format check and the whitespace
  trimming.
- `Console` (`console.dfy`): the two console directives, as text.
- `Retry` (`retry.dfy`): the account lookup and the refund.
  - Each is a pure function over a *reply world* `nat -> Attempt`, giving the
    outcome the k-th attempt would see.
  - Each also has a `for`-loop method proved equal to that function.
  - The delays a loop awaits are recorded as a sequence. Time itself is not
    modelled.
- `Pipeline` (`pipeline.dfy`): the decision.
  - `Reconcile` is a pure reference function. It maps the registry, the
    redemption, the lookup's outcome and the console's answer to the add
    directive to a new registry, a log of effects (`Directive`, `Refund`,
    `Save`) and a `Verdict`.
  - All the decision lemmas are stated about `Reconcile`.
- `Manager` (`manager.dfy`): the stateful object.
  - The class `WhitelistManager` holds the user database as a `map` field.
  - `HandleRedemption` updates that field in place. It scans the map with a
    loop, runs the two retry loops, and queries the console.
  - `HandleRedemption` is proved to produce exactly the registry, log and
    verdict of `Reconcile`. `OnRedemption` adds the reward filter in front of
    it.

Outside parties are parameters:

- `mojang` and `twitch` are reply worlds;
- `console: Command -> bool` is the console's answer to each directive;
- `StoredFile` is what loading the database file found.

When the console refuses the add directive, the registry is left entirely
untouched: the viewer keeps their old entry, even though the remove directive
for the old name may already have been sent to the console (main.py:134-139).

## Model

| member | source | states |
|---|---|---|
| NameRules.RepeatMatch | main.py:52 | a full match of the bounded repetition of the name class only succeeds on strings whose length lies within the bounds |
| NameRules.ValidFormat | main.py:51-52 | an accepted name has between 3 and 16 characters |
| NameRules.RepeatMatchMeans | main.py:52 | the bounded repetition `[A-Za-z0-9_]{lo,hi}` matches exactly the strings of lo to hi characters that are all ASCII letters, digits or underscore |
| NameRules.ValidFormatMeans | main.py:51-52 | a name passes the format check if and only if it has 3 to 16 characters, each an ASCII letter, digit or underscore |
| NameRules.TrimStart | main.py:108 | trimming the front never makes a string longer |
| NameRules.TrimEnd | main.py:108 | trimming the back never makes a string longer |
| NameRules.Strip | main.py:108 | stripping never makes a string longer |
| NameRules.TrimStartShape | main.py:108 | trimming the front leaves a suffix that is empty or starts with a non-whitespace character, and everything dropped is whitespace |
| NameRules.TrimEndShape | main.py:108 | trimming the back leaves a prefix that is empty or ends with a non-whitespace character, and everything dropped is whitespace |
| NameRules.StripTrimmed | main.py:108 | a stripped string is empty or starts and ends with a non-whitespace character |
| NameRules.TrimStartPast | main.py:108 | trimming the front removes exactly a leading whitespace run that precedes a non-whitespace character |
| NameRules.TrimEndPast | main.py:108 | trimming the back removes exactly a trailing whitespace run that follows a non-whitespace character |
| NameRules.StripSplit | main.py:108 | every input is its stripped form with a run of whitespace on each side |
| NameRules.StripPadded | main.py:108 | a trimmed core surrounded by whitespace strips to exactly that core |
| NameRules.StripIgnoresPadding | main.py:108 | adding whitespace on either side of the input never changes the stripped name |
| NameRules.StripIdempotent | main.py:108 | stripping an already stripped name changes nothing |
| Console.Command.Text | main.py:131-134 | the console line of a directive ends with the account name it carries |
| Console.Command.Keystrokes | main.py:68 | the keystrokes of a directive: its line, then one newline; OneLine proves that a well-formed name types exactly one line |
| Console.TextInjective | main.py:131-134 | two different directives (by kind or by name) never produce the same console line |
| Console.OneLine | main.py:68 | a directive for a name that passes the format check types exactly one line: its only newline is the final one |
| Retry.MojangRetry | main.py:54-63 | the lookup makes at most 3 attempts; every attempt before the last got a client error; a response of any status ends it with "exists" exactly for 200; any other exception escapes; when the schedule is exhausted the answer is "does not exist" after all three delays |
| Retry.FailureDelays | main.py:100-102 | over a range of refund attempts, at most one delay is awaited per attempt |
| Retry.RefundRetry | main.py:92-104 | the refund makes at most 3 attempts; it succeeds exactly when its last attempt got status 200; no earlier attempt got 200; a failed refund has used up the schedule; the delays awaited are those of the attempts that raised |
| Retry.ExistsMojang | main.py:54-63 | the lookup loop returns the value, attempt count and delay sequence of the lookup function |
| Retry.RefundPoints | main.py:92-104 | the refund loop returns the value, attempt count and delay sequence of the refund function |
| Retry.FailureDelaysAppend | main.py:100-102 | one more refund attempt adds its own delay to those awaited when it raised, and nothing otherwise |
| Retry.FailureDelaysNoneRaised | main.py:95-99 | refund attempts that all got a response await no delay |
| Retry.FailureDelaysAllRaised | main.py:100-102 | refund attempts that all raised await every scheduled delay, in order |
| Retry.LookupExhausted | main.py:56-63 | a lookup whose every attempt gets a client error answers "does not exist" after 3 attempts and all three delays |
| Retry.LookupStopsAt | main.py:56-61 | the lookup stops at the first attempt that is not a client error. It answers status == 200 for a response (any other exception escapes), having awaited the delays of the attempts before it |
| Retry.RefundStopsAt | main.py:92-102 | the refund stops with success at the first 200 response, having awaited the delays of the attempts that raised before it |
| Retry.RefundSucceedsIff | main.py:92-104 | the refund succeeds if and only if some scheduled attempt gets status 200 |
| Retry.RefundNeverSleepsOnResponses | main.py:95-99 | a refund that only gets non-200 responses fails after all three attempts without awaiting any delay |
| Retry.LoopsDifferOnNon200 | main.py:58-59 | on a 503 response followed by a 200, the lookup answers "does not exist" after one attempt and awaits nothing. On the same replies the refund goes on at once and succeeds on its second attempt (main.py:95-99) |
| Pipeline.OwnedByOther | main.py:123-124 | the conflict condition: some viewer other than the redeemer is registered under the name; the scan's result is proved equal to it in WhitelistManager.FindOtherOwner and the rule is stated in ConflictRule |
| Pipeline.Supersede | main.py:129-131 | the removal of the old name: one remove directive, issued exactly when the viewer has an entry whose name is non-empty and differs from the new one; its place in the log is stated in SupersessionOrder and ReRedeemOwnName |
| Pipeline.Reconcile | main.py:106-141 | the reference decision: strip, format, lookup, conflict, remove, add and write, in source order, stopping at the first failure; its properties are the Pipeline lemmas, and WhitelistManager.HandleRedemption is proved equal to it |
| Pipeline.PaddingIsIgnored | main.py:108-113 | whitespace around the input never changes the outcome: the padded input gets the same registry, log and verdict as the bare one |
| Pipeline.EarlyRejectionsChangeNothing | main.py:113-127 | a format failure, a negative lookup or a name conflict issues exactly one refund and no console directive, and leaves the registry unchanged. An exception escaping the lookup issues nothing and leaves the registry unchanged |
| Pipeline.VerdictCases | main.py:106-141 | for each verdict, the verdict is reached if and only if its check is the first to fail, or, for success, every check passes and the console accepts the add |
| Pipeline.ConflictRule | main.py:123-127 | once format and lookup pass, the redemption is refused as taken if and only if some other viewer maps to the name; the viewer's own entry under that name is never a conflict |
| Pipeline.CommitOrKeep | main.py:134-139 | on success the viewer maps to the new name, every other entry keeps its value, and the log ends with the add followed by the save. On an add failure the registry is entirely unchanged (the old entry included), and the log ends with the add followed by the refund. Any other outcome leaves the registry unchanged |
| Pipeline.SupersessionOrder | main.py:129-134 | a viewer with a different, non-empty old name who passes the checks gets the remove for the old name first, then the add, and the outcome depends only on the add |
| Pipeline.RefundExactlyWhenRefused | main.py:113-137 | a refused redemption issues exactly one refund, the refund of that redemption; a redemption that is not refused issues none |
| Pipeline.KeepsNamesUnique | main.py:123-127 | if no account name belongs to two viewers before a redemption, the same holds after it (main.py:139) |
| Pipeline.KeepsNamesWellFormed | main.py:113-139 | every name written to the registry, and every name in a console directive, passes the format check, provided the registry's names did before |
| Pipeline.ReRedeemOwnName | main.py:129-139 | provided no other viewer holds that name, re-redeeming the name the viewer already owns issues no remove and issues the add, and leaves the registry as it was, whatever the console answers to the add; after the add comes the save when the console accepts it and the refund when it refuses |
| Pipeline.RedeemTwice | main.py:123-139 | a successful redemption delivered a second time, when the lookup again finds the account and the console again accepts the add, issues only the add and the save, and changes nothing |
| Pipeline.ReplayKeepsNamesUnique | main.py:123-139 | after any sequence of redemptions, no account name belongs to two viewers, provided that held at the start |
| Pipeline.SupersessionExample | main.py:129-141 | a viewer registered as "Alice" redeeming "Bob" gets the remove of "Alice", the add of "Bob" and the save, and now maps to "Bob" |
| Pipeline.ConflictExample | main.py:123-127 | another viewer's redemption of a name already owned is refunded, issues no directive and leaves the registry alone |
| Manager.WhitelistManager.constructor | main.py:31-43 | the database starts as the stored entries, or empty when the file is missing or cannot be read |
| Manager.WhitelistManager.FindOtherOwner | main.py:123-124 | the scan over the database finds an owner exactly when some viewer other than the redeemer is registered under the name, and any owner it returns is one |
| Manager.WhitelistManager.HandleRedemption | main.py:106-141 | the handler leaves the database, and returns the log and the verdict, that the reference decision gives for the lookup loop's answer and the console's answer to the add; the refund loop runs, and its run is returned, exactly on the refunded verdicts |
| Manager.OnRedemption | main.py:169-172 | a redemption of another reward is ignored, changes nothing and runs no refund; one of the configured reward is handled exactly as the handler does |

## Left out

- The HTTP clients (aiohttp, twitchAPI) and the app-token fetch (main.py:87) are foreign network code. Each endpoint becomes a reply world, a function from attempt number to outcome. An exception from the token fetch itself is not modelled.
- How exceptions are classified by type is abstracted. For the lookup, an `Attempt` is a response with a status code, a client-library error (retried), or any other exception (it escapes the handler, verdict `LookupRaised`). The refund loop catches both kinds alike.
- Timing: `asyncio.sleep`, the 5-second request timeout and the event loop. Only which delays are awaited, and in which order, is recorded.
- The `screen` subprocess (main.py:65-77) is process I/O. Only the directive's text, the typed keystrokes and the boolean answer are modelled. The exception raised when the `screen` binary is missing is not modelled.
- Loading and saving `/app/data/users.json` (main.py:35-49) is filesystem I/O. Loading becomes the `StoredFile` parameter. Saving appears as a `Save` effect in the log; a failing save is not modelled.
- JSON values that are not strings, and events lacking a field, are not modelled. The registry maps strings to strings, and an event always carries its four fields.
- Logging, environment and configuration loading, the broadcaster id and the refund request's parameters (main.py:13-28, 80-91) are left out. None of them decides anything.
- Start-up, the EventSub subscription and shutdown (main.py:143-190) are transport and are left out. So is concurrency: the code takes no lock, and redemptions are modelled one after another.
- Manager.WhitelistManager.FindOtherOwner: when several other viewers own the name, the viewer it reports depends on the dictionary's iteration order. The model picks an arbitrary one, which only changes the log message.
- The regular-expression engine is replaced by a direct matcher for the one pattern used. `str.strip` is modelled as trimming the characters Python classes as whitespace, with no Unicode normalisation.
