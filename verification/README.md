# Orleans chat client session, modelled in Dafny

This project models the console client of a small Orleans chat demo
(`OrleansClient/Program.cs`). The client connects to a silo with a bounded
retry loop, then reads command lines and turns each one into calls on
`ChatRoom` grains (keyed by channel name) and on the `Ticker` grain (keyed
`Guid.Empty`). The session's only state is the current channel
(`_joinedChannel`, initially `general`).

The grains themselves are not modelled. A session is judged by the
sequence of grain calls it issues, each call an opaque event: the grain's
type and key, the method, and its arguments.

Modules:

- `Wrappers`: `Option`, which stands in for C#'s `null`.
- `Text`: the `System.String` operations the parser uses: `char.IsWhiteSpace`,
  `IsNullOrWhiteSpace`, ordinal `StartsWith`, `Replace` and `Trim`.
- `Grains`: grain identities, invocations, and the call trace.
- `Bootstrap`: `InitializeClient`, the connection retry loop. The outcome of
  each build-and-connect attempt is an input function from attempt number to
  outcome: it threw, it connected but `IsInitialized` was false, or it
  connected and is initialised.
- `Session`: one iteration of `Menu` as a pure `Step(channel, line)` that
  returns the next channel, the grain calls, the reported `Tick`
  exceptions and whether the loop ends. `Menu` folds `Step` over the console
  lines.
- `Colors`: `authorColor`.
- `Client`: `Main`, which chains the two. When `InitializeClient` gives
  up, `Main` still runs the menu, without a client.

Behaviour of the code worth knowing:

- An always-failing connection is tried 12 times, with 11 sleeps: the guard
  `initializeCounter++ > 10` tests the value before the increment.
- `Main` does not treat the `null` client as fatal. It enters `Menu` anyway,
  and the first line that resolves a grain throws a `NullReferenceException`.
  Blank lines and `/exit` still work.
- `Menu` catches no exception from `Join`, `Leave`, `Message` or
  `ReadHistory`, so a failing chat call ends the client. Only `RunTask`
  catches and reports per call.
- Commands are plain prefixes, not whitespace-delimited words. `/random` runs
  the ticker batch, and `/join lobby` joins `oin lobby`. `/l <channel>`
  leaves the current channel, not `<channel>`.

## Model

| member | source | states |
|---|---|---|
| `Bootstrap.InitializeClient` | OrleansClient/Program.cs:36-77 | At most 12 attempts, and one sleep fewer than attempts. Every attempt before the last failed. A returned client is the one the last attempt produced. `null` means 12 attempts, none of which was initialised. |
| `Bootstrap.GivesUpWhenNeverReady` | OrleansClient/Program.cs:61-73 | If no attempt yields an initialised client, the loop stops by itself with `null` after exactly 12 attempts and 11 sleeps. |
| `Bootstrap.ReturnsFirstReady` | OrleansClient/Program.cs:53-59 | If attempt k is the first initialised one, its client is returned after k+1 attempts and k sleeps. Nothing further is tried. |
| `Text.TrimStartDropsWhiteSpace` | OrleansClient/Program.cs:103 | `TrimStart` returns a suffix of its input, and everything it dropped is white space. |
| `Text.TrimStartStops` | OrleansClient/Program.cs:103 | `TrimStart`'s result does not start with white space. It is empty exactly when the input is all white space. |
| `Text.TrimEndDropsWhiteSpace` | OrleansClient/Program.cs:103 | `TrimEnd` returns a prefix of its input. Everything it dropped is white space, and the result does not end with white space. It is empty exactly when the input is all white space. |
| `Text.TrimShape` | OrleansClient/Program.cs:103 | `Trim`'s result has no white space at either end and is no longer than its input. It is empty exactly when the input is all white space. |
| `Text.TrimStartSkipsWhiteSpace` | OrleansClient/Program.cs:103 | Leading white space in front of any text makes no difference to `TrimStart`. |
| `Text.TrimEndSkipsWhiteSpace` | OrleansClient/Program.cs:103 | Trailing white space after any text makes no difference to `TrimEnd`. |
| `Text.TrimRecoversCore` | OrleansClient/Program.cs:103 | Trimming any white space placed around an already-trimmed text gives back exactly that text. |
| `Text.BlankIffTrimsToEmpty` | OrleansClient/Program.cs:99 | A line counts as `IsNullOrWhiteSpace` exactly when it trims to the empty string. |
| `Text.ReplaceAbsent` | OrleansClient/Program.cs:103 | `Replace` leaves text that does not contain the pattern unchanged. |
| `Text.ReplaceSkipsChar` | OrleansClient/Program.cs:103 | A leading character that cannot start the pattern is kept, and the rest is replaced independently. |
| `Text.ReplaceUpTo` | OrleansClient/Program.cs:103 | For a two-character pattern like `/j`, pattern-free text before an occurrence is kept and that occurrence is replaced. |
| `Text.ReplaceDoesNotRescan` | OrleansClient/Program.cs:103 | `Replace` does not rescan its output: removing `/j` from `//jj` leaves `/j`. |
| `Session.BlankIsNoCommand` | OrleansClient/Program.cs:99 | A null or white-space line cannot begin with any `/` command prefix. |
| `Session.CommandsExclusive` | OrleansClient/Program.cs:101-117 | A line begins with at most one of `/j`, `/r`, `/l`, `/h`, `/exit`, so the `if` chain's order decides nothing among them. |
| `Session.TickLoop` | OrleansClient/Program.cs:128-139 | Items `item..100` issue one `Tick(10)` on the `Guid.Empty` ticker each. Exactly the failing items are reported, in increasing order. |
| `Session.RunTask` | OrleansClient/Program.cs:124-141 | Exactly 100 `Tick(10)` calls on the `Guid.Empty` ticker, whichever of them throw. Each failing item 1..100 is reported once, in order. |
| `Session.Step` | OrleansClient/Program.cs:97-121 | See "What `Session.Step` states" below the table. |
| `Session.JoinHintRoundTrip` | OrleansClient/Program.cs:101-103 | `/j <name>`, for a trimmed name containing no `/j`, moves the session to exactly `<name>`, joins it as Alexey and reads its history. |
| `Session.JoinRemovesEveryMarker` | OrleansClient/Program.cs:101-103 | Not only the leading `/j` is removed: each `/j` found in one left-to-right scan is dropped, so a `/j ` + a + `/j` + b line (a and b free of `/j`, a + b trimmed) moves the session to the channel a + b. The scan does not rescan, so the result may still contain `/j` (`//jj` leaves `/j`). |
| `Session.LeaveIgnoresArgument` | OrleansClient/Program.cs:160-165 | `/l <other>` leaves the current channel, whatever `<other>` is, and stays on it. |
| `Session.Menu` | OrleansClient/Program.cs:95-121 | The loop never reads more lines than the console supplies. |
| `Session.MenuExitsIffExitLine` | OrleansClient/Program.cs:95-121 | The loop ends exactly when some line is exactly `/exit`. |
| `Session.LinesReadStopsAtFirstExit` | OrleansClient/Program.cs:121 | `LinesRead` counts the lines up to and including the first exact `/exit`. No earlier line is `/exit`. Without an `/exit` line it counts every line. |
| `Session.MenuStopsAtExit` | OrleansClient/Program.cs:95-121 | The loop reads exactly `LinesRead` lines. It stops right after the first exact `/exit` line and reads nothing beyond it; without one it consumes every line and keeps waiting. |
| `Session.LastJoinedCons` | OrleansClient/Program.cs:152 | The last `/j` channel among the first n+1 lines equals the last `/j` channel among the n lines after the first, starting from the channel the first line leaves the session on. |
| `Session.MenuEndsOnLastJoined` | OrleansClient/Program.cs:149-153 | After the loop, the current channel is the target of the last `/j` line read, or the starting channel if there was none. |
| `Grains.PostsNothing` | OrleansClient/Program.cs:124-141 | A trace without `Message` calls posts nothing. |
| `Session.StepPosts` | OrleansClient/Program.cs:117-120 | A line posts its own text, as Alexey, if it is a chat line, and posts nothing otherwise. Command lines, including the ticker batch of `/r`, post nothing. |
| `Session.MenuPostsChatLines` | OrleansClient/Program.cs:143-147 | Over a whole session, the messages posted are exactly the chat lines read, verbatim and in order. No command line and no `/exit...` line is ever sent. |
| `Colors.LowerAgreesPointwise` | OrleansClient/Program.cs:182 | Two strings lower-case to the same string exactly when they agree letter by letter, ignoring case. |
| `Colors.AuthorColor` | OrleansClient/Program.cs:180-188 | Total three-way mapping: `alexey` in any letter case gives Green. `system` in any letter case gives Red. Every other author gives Yellow. |
| `Colors.LowerOfUpper` | OrleansClient/Program.cs:182 | Lower-casing an upper-cased string is the same as lower-casing the original. |
| `Colors.ColorIgnoresCase` | OrleansClient/Program.cs:180-188 | An author's name in capitals gets the same colour as the original. |
| `Client.Disconnected` | OrleansClient/Program.cs:25-31 | Without a client, the menu crashes at the first line that resolves a grain, unless an exact `/exit` comes first. If neither happens it keeps waiting. No line before the crash point resolves a grain or exits. |
| `Client.ResolvesGrainIffCalls` | OrleansClient/Program.cs:126-169 | A line resolves a grain exactly when its step issues at least one grain call. |
| `Client.Run` | OrleansClient/Program.cs:23-34 | A session issues grain calls only after an attempt that produced an initialised client. With no such attempt it makes 12 attempts, issues no call, and ends as `Disconnected` says. Connected, it issues exactly `Menu`'s calls from `general`. |

### What `Session.Step` states

- **Ending the loop:** the loop ends exactly when the line is `/exit`.
- **Blank lines:** a blank or null line issues nothing, keeps the channel and does not exit.
- **No calls:** a line issues no call exactly when it is blank or starts with `/exit`.
- **Only `/j` changes the channel.** The new channel is the line with every `/j` removed, then trimmed. The trace is `Join("Alexey")` then `ReadHistory(1000)` on that new channel.
- **`/r`:** exactly 100 `Tick(10)` calls, reporting exactly the failing items, in increasing order.
- **`/l`:** exactly `Leave("Alexey")` on the current channel.
- **`/h`:** exactly `ReadHistory(1000)` on the current channel.
- **Anything else:** exactly `Message(Alexey, line verbatim)` on the current channel.

## Left out

- `OrleansServer/Program.cs`: silo hosting configuration (ports, clustering, storage, stream provider) with no logic of its own.
- Building the Orleans `ClientBuilder`, `client.Connect()` and `GetGrain` resolution: foreign library calls. Each connect attempt is an input outcome, and each grain call is an opaque trace event.
- `Thread.Sleep(5s)`: wall-clock time. Only the number of sleeps is counted.
- Console I/O: `PrettyConsole` output, `PrintHints`, the exception messages printed by `InitializeClient` and `RunTask`, and the date format of history entries. `Console.ReadLine` becomes the input line sequence, with `None` for its `null`.
- The ChatRoom and Ticker grain implementations (membership, history ordering, tick work) are not part of this model. Only the client-side call trace is stated.
- Exceptions thrown by `Join`, `Leave`, `Message` or `ReadHistory`: `Menu` does not catch them, so they end the client. The model assumes these calls return.
- The creation timestamp of `ChatMsg`, assigned by a type that is not part of this model.
- `Session.Step`: prefix tests are ordinal. .NET's `StartsWith(string)` is culture-sensitive and may ignore zero-weight characters before the prefix; this is not modelled.
- `Colors.AuthorColor`: `ToLowerInvariant` is modelled for ASCII letters only. The full Unicode lower-casing table is not modelled.
- `Colors.ColorIgnoresCase`: relies on the ASCII case mapping. Under .NET's invariant casing, `ſystem` (U+017F) upper-cases to `SYSTEM`, which is Red, while `ſystem` itself is Yellow. The program itself never upper-cases anything.
- A `/j` line whose target trims to the empty string joins the channel `""`: `GetGrain<IChatRoom>("")` is called with it. Whether Orleans accepts an empty string key is not part of this model, and the model assumes it does.
- At end of input `Console.ReadLine` returns `null` on every call, so the `do ... while` loop spins for ever. `AwaitingInput` and a `Menu` result without exit stand for that endless loop; the model reads each line once.
- The `/l` argument, `input.Replace("/l ", "").Trim()`, is only printed by `LeaveChannel`, so it is not modelled (console output is left out).
