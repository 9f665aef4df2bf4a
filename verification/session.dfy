/** The interactive client session: `Menu` reads one console line at a time
    and dispatches it to `JoinChannel`, `RunTask`, `LeaveChannel`,
    `ShowCurrentChannelHistory` or `SendMessage`, all of which act on the
    session's current channel (`_joinedChannel`). Here the channel is an
    explicit state threaded through a pure step function, and the effect of
    a line is the sequence of grain calls it issues. */
module Session {
  import opened Wrappers
  import opened Text
  import opened Grains

  /** The fixed identity the client joins, leaves and posts as. */
  const Author: string := "Alexey"
  /** `_joinedChannel` before any `/j`. */
  const InitialChannel: string := "general"
  /** `ReadHistory(1000)` whenever history is shown. */
  const HistoryLimit: int := 1000
  /** `Enumerable.Range(1, 100)` ticks per `/r`, each `Tick(10)`. */
  const TickBatch: nat := 100
  const TickUnits: int := 10
  /** The one line that ends the loop. */
  const ExitCommand: string := "/exit"

  /** A console line begins with a command prefix (a null line begins with
      nothing). Matching is by ordinal prefix, so `/random` is `/r`. */
  predicate Begins(line: Option<string>, prefix: string) {
    line.Some? && StartsWith(line.value, prefix)
  }

  /** `input.Replace("/j", "").Trim()`: not only the leading `/j` is
      removed; each `/j` found in one left-to-right scan is dropped before
      trimming. */
  function JoinTarget(s: string): string {
    Trim(ReplaceAll(s, "/j", ""))
  }

  /** No command prefix can begin a blank line. */
  lemma BlankIsNoCommand(line: Option<string>, prefix: string)
    requires IsNullOrWhiteSpace(line)
    requires |prefix| > 0 && prefix[0] == '/'
    ensures !Begins(line, prefix)
  {
    if line.Some? && |line.value| > 0 {
      assert IsWhiteSpace(line.value[0]);
    }
  }

  /** The command prefixes differ in their second character, so a line
      begins with at most one of them. */
  lemma CommandsExclusive(line: Option<string>)
    ensures Begins(line, "/j") ==> !Begins(line, "/r") && !Begins(line, "/l") && !Begins(line, "/h") && !Begins(line, ExitCommand)
    ensures Begins(line, "/r") ==> !Begins(line, "/l") && !Begins(line, "/h") && !Begins(line, ExitCommand)
    ensures Begins(line, "/l") ==> !Begins(line, "/h") && !Begins(line, ExitCommand)
    ensures Begins(line, "/h") ==> !Begins(line, ExitCommand)
  {
    if line.Some? && |line.value| >= 2 {
      var c := line.value[1];
      assert Begins(line, "/j") ==> c == 'j';
      assert Begins(line, "/r") ==> c == 'r';
      assert Begins(line, "/l") ==> c == 'l';
      assert Begins(line, "/h") ==> c == 'h';
      assert Begins(line, ExitCommand) ==> c == 'e';
    }
  }

  /** A line that `Menu` sends as a chat message. */
  predicate IsChatLine(line: Option<string>) {
    && !IsNullOrWhiteSpace(line)
    && !Begins(line, "/j") && !Begins(line, "/r") && !Begins(line, "/l")
    && !Begins(line, "/h") && !Begins(line, ExitCommand)
  }

  // ---------------------------------------------------------------------
  // RunTask

  /** `tick.Tick(10)` on the ticker grain keyed `Guid.Empty`. */
  const TickCall: GrainCall := Call(Ticker(EmptyGuid), Tick(TickUnits))

  /** The calls `RunTask` made and the loop items (1-based) whose `Tick`
      threw an exception that was caught and reported. */
  datatype TickReport = TickReport(calls: seq<GrainCall>, caught: seq<nat>)

  predicate StrictlyIncreasing(s: seq<nat>) {
    forall i, j :: 0 <= i < j < |s| ==> s[i] < s[j]
  }

  /** Items `item..100` of the `foreach`; `failures` holds the items whose
      `Tick` throws. */
  function TickLoop(item: nat, failures: set<nat>): (r: TickReport)
    requires 1 <= item <= TickBatch + 1
    ensures |r.calls| == TickBatch + 1 - item
    ensures forall k :: 0 <= k < |r.calls| ==> r.calls[k] == TickCall
    ensures forall n :: n in r.caught <==> item <= n <= TickBatch && n in failures
    ensures StrictlyIncreasing(r.caught)
    decreases TickBatch + 1 - item
  {
    if item > TickBatch then TickReport([], [])
    else
      var rest := TickLoop(item + 1, failures);
      var caught := (if item in failures then [item] else []) + rest.caught;
      assert forall k :: 0 <= k < |rest.caught| ==> item < rest.caught[k] by {
        forall k | 0 <= k < |rest.caught| ensures item < rest.caught[k] {
          assert rest.caught[k] in rest.caught;
        }
      }
      TickReport([TickCall] + rest.calls, caught)
  }

  /** `RunTask`: 100 sequential ticks; an exception in one is caught and
      reported and the loop goes on, so the trace is the same whichever of
      them fail, and every failure is reported once, in order. */
  function RunTask(failures: set<nat>): (r: TickReport)
    ensures |r.calls| == TickBatch
    ensures forall k :: 0 <= k < |r.calls| ==> r.calls[k] == TickCall
    ensures forall n :: n in r.caught <==> 1 <= n <= TickBatch && n in failures
    ensures StrictlyIncreasing(r.caught)
  {
    TickLoop(1, failures)
  }

  // ---------------------------------------------------------------------
  // One iteration of Menu

  /** `ShowCurrentChannelHistory` on `channel`. */
  function ShowHistory(channel: string): seq<GrainCall> {
    [Call(ChatRoom(channel), ReadHistory(HistoryLimit))]
  }

  /** The channel after the line, the grain calls it issued, the ticks whose
      exception was reported, and whether `Menu`'s loop condition ends the
      loop. */
  datatype StepResult = StepResult(channel: string, calls: seq<GrainCall>, caught: seq<nat>, exit: bool)

  /** One pass of `Menu`'s `do ... while` body and its condition, on the
      current channel `channel`; `tickFailures` are the `/r` items whose
      `Tick` throws. */
  function Step(channel: string, line: Option<string>, tickFailures: set<nat>): (r: StepResult)
    // only the exact line `/exit` ends the loop
    ensures r.exit <==> line == Some(ExitCommand)
    // blank lines and `/exit...` lines reach no grain; every other line does
    ensures r.calls == [] <==> IsNullOrWhiteSpace(line) || Begins(line, ExitCommand)
    ensures IsNullOrWhiteSpace(line) ==> r.channel == channel && r.caught == [] && !r.exit
    // only `/j` moves the session, to the line with every `/j` removed, trimmed
    ensures !Begins(line, "/j") ==> r.channel == channel
    ensures Begins(line, "/j") ==>
              && r.channel == Trim(ReplaceAll(line.value, "/j", ""))
              && r.calls == [Call(ChatRoom(r.channel), Join(Author)),
                             Call(ChatRoom(r.channel), ReadHistory(HistoryLimit))]
    ensures Begins(line, "/r") ==>
              && |r.calls| == TickBatch
              && (forall k :: 0 <= k < |r.calls| ==> r.calls[k] == TickCall)
              && (forall n :: n in r.caught <==> 1 <= n <= TickBatch && n in tickFailures)
              && StrictlyIncreasing(r.caught)
    ensures !Begins(line, "/r") ==> r.caught == []
    // `/l` leaves the current channel whatever its argument
    ensures Begins(line, "/l") ==> r.calls == [Call(ChatRoom(channel), Leave(Author))]
    ensures Begins(line, "/h") ==> r.calls == [Call(ChatRoom(channel), ReadHistory(HistoryLimit))]
    ensures IsChatLine(line) ==>
              r.calls == [Call(ChatRoom(channel), Message(ChatMsg(Author, line.value)))]
  {
    CommandsExclusive(line);
    var exit := line == Some(ExitCommand);
    if IsNullOrWhiteSpace(line) then
      BlankIsNoCommand(line, "/j");
      BlankIsNoCommand(line, "/r");
      BlankIsNoCommand(line, "/l");
      BlankIsNoCommand(line, "/h");
      BlankIsNoCommand(line, ExitCommand);
      StepResult(channel, [], [], exit)
    else if Begins(line, "/j") then
      var target := JoinTarget(line.value);
      StepResult(target, [Call(ChatRoom(target), Join(Author))] + ShowHistory(target), [], exit)
    else if Begins(line, "/r") then
      var report := RunTask(tickFailures);
      StepResult(channel, report.calls, report.caught, exit)
    else if Begins(line, "/l") then
      StepResult(channel, [Call(ChatRoom(channel), Leave(Author))], [], exit)
    else if Begins(line, "/h") then
      StepResult(channel, ShowHistory(channel), [], exit)
    else if Begins(line, ExitCommand) then
      StepResult(channel, [], [], exit)
    else
      StepResult(channel, [Call(ChatRoom(channel), Message(ChatMsg(Author, line.value)))], [], exit)
  }

  /** The hint `/j <channel>` does what it says for every channel name that
      has no surrounding white space and no `/j` inside it. */
  lemma {:induction false} JoinHintRoundTrip(channel: string, target: string, failures: set<nat>)
    requires IsTrimmed(target) && !Contains(target, "/j")
    ensures Step(channel, Some("/j " + target), failures).channel == target
    ensures Step(channel, Some("/j " + target), failures).calls
            == [Call(ChatRoom(target), Join(Author)), Call(ChatRoom(target), ReadHistory(HistoryLimit))]
  {
    var s := "/j " + target;
    assert StartsWith(s, "/j");
    assert s[2..] == [' '] + target;
    ReplaceSkipsChar(' ', target, "/j", "");
    ReplaceAbsent(target, "/j", "");
    assert ReplaceAll(s, "/j", "") == [' '] + target;
    TrimRecoversCore([' '], target, []);
    assert [' '] + target + [] == [' '] + target;
  }

  lemma {:induction false} JoinTargetSkipsMarkers(a: string, b: string)
    requires !Contains(a, "/j") && !Contains(b, "/j")
    requires IsTrimmed(a + b)
    ensures JoinTarget("/j " + a + "/j" + b) == a + b
  {
    var tail := a + "/j" + b;
    var spaced := [' '] + tail;
    assert "/j " + a + "/j" + b == "/j" + spaced;
    ReplaceAtStart("/j", spaced, "");
    ReplaceSkipsChar(' ', tail, "/j", "");
    ReplaceUpTo(a, "/j", "", b);
    ReplaceAbsent(b, "/j", "");
    assert ReplaceAll("/j" + spaced, "/j", "") == [' '] + (a + b) + [];
    TrimRecoversCore([' '], a + b, []);
  }

  /** `/j` markers after the first are removed as well: `/j dev/jops` joins
      `devops`, and `/j dev/` + `/j` + `jops` joins `dev/jops`. */
  lemma JoinRemovesEveryMarker(channel: string, a: string, b: string, failures: set<nat>)
    requires !Contains(a, "/j") && !Contains(b, "/j")
    requires IsTrimmed(a + b)
    ensures Step(channel, Some("/j " + a + "/j" + b), failures).channel == a + b
  {
    JoinTargetSkipsMarkers(a, b);
    assert StartsWith("/j " + a + "/j" + b, "/j");
  }

  /** `/l <other>` leaves the channel the session is on, not `<other>`. */
  lemma LeaveIgnoresArgument(channel: string, other: string, failures: set<nat>)
    ensures Step(channel, Some("/l " + other), failures).calls
            == [Call(ChatRoom(channel), Leave(Author))]
    ensures Step(channel, Some("/l " + other), failures).channel == channel
  {
    assert StartsWith("/l " + other, "/l");
  }

  // ---------------------------------------------------------------------
  // The Menu loop

  /** One console line and, should it be `/r`, which of its ticks throw. */
  datatype Input = Input(line: Option<string>, tickFailures: set<nat>)

  /** Where the loop left the session: its channel, every grain call in
      order, how many lines it read, and whether it ended on `/exit` (if not,
      it is still waiting for input). */
  datatype MenuResult = MenuResult(channel: string, calls: seq<GrainCall>, consumed: nat, exited: bool)

  /** `Menu` from channel `channel` over the lines the console supplies. */
  function Menu(channel: string, inputs: seq<Input>): (r: MenuResult)
    ensures r.consumed <= |inputs|
    decreases |inputs|
  {
    if inputs == [] then MenuResult(channel, [], 0, false)
    else
      var s := Step(channel, inputs[0].line, inputs[0].tickFailures);
      if s.exit then MenuResult(s.channel, s.calls, 1, true)
      else
        var rest := Menu(s.channel, inputs[1..]);
        MenuResult(rest.channel, s.calls + rest.calls, rest.consumed + 1, rest.exited)
  }

  /** The loop ends exactly when some line is exactly `/exit`. */
  lemma {:induction false} MenuExitsIffExitLine(channel: string, inputs: seq<Input>)
    ensures Menu(channel, inputs).exited <==> exists i :: 0 <= i < |inputs| && inputs[i].line == Some(ExitCommand)
    decreases |inputs|
  {
    if inputs != [] {
      var s := Step(channel, inputs[0].line, inputs[0].tickFailures);
      MenuUnfold(channel, inputs);
      if !s.exit {
        var tail := inputs[1..];
        MenuExitsIffExitLine(s.channel, tail);
        assert inputs[0].line != Some(ExitCommand);
        assert forall i :: 1 <= i < |inputs| ==> inputs[i] == tail[i - 1];
      }
    }
  }

  /** How many lines the loop should read: up to and including the first
      line that is exactly `/exit`, or all of them if there is none. */
  function LinesRead(inputs: seq<Input>): (n: nat)
    ensures n <= |inputs|
    decreases |inputs|
  {
    if inputs == [] then 0
    else if inputs[0].line == Some(ExitCommand) then 1
    else 1 + LinesRead(inputs[1..])
  }

  /** `LinesRead` stops at the first exact `/exit` line. */
  lemma {:induction false} LinesReadStopsAtFirstExit(inputs: seq<Input>)
    ensures forall i :: 0 <= i < LinesRead(inputs) - 1 ==> inputs[i].line != Some(ExitCommand)
    ensures (exists i :: 0 <= i < |inputs| && inputs[i].line == Some(ExitCommand)) ==>
              0 < LinesRead(inputs) && inputs[LinesRead(inputs) - 1].line == Some(ExitCommand)
    ensures (forall i :: 0 <= i < |inputs| ==> inputs[i].line != Some(ExitCommand)) ==>
              LinesRead(inputs) == |inputs|
    decreases |inputs|
  {
    if inputs != [] && inputs[0].line != Some(ExitCommand) {
      var tail := inputs[1..];
      LinesReadStopsAtFirstExit(tail);
      assert forall i :: 1 <= i < |inputs| ==> inputs[i] == tail[i - 1];
    }
  }

  /** The loop reads exactly the lines up to and including the first exact
      `/exit` line, and nothing beyond it. */
  lemma {:induction false} MenuStopsAtExit(channel: string, inputs: seq<Input>)
    ensures Menu(channel, inputs).consumed == LinesRead(inputs)
    decreases |inputs|
  {
    if inputs != [] {
      var s := Step(channel, inputs[0].line, inputs[0].tickFailures);
      MenuUnfold(channel, inputs);
      if !s.exit {
        MenuStopsAtExit(s.channel, inputs[1..]);
      }
    }
  }

  /** The channel named by the last `/j` line among the first `n` lines, or
      `channel` if there is none: a reference definition read from the back. */
  function LastJoined(channel: string, inputs: seq<Input>, n: nat): string
    requires n <= |inputs|
    decreases n
  {
    if n == 0 then channel
    else
      var last := inputs[n - 1].line;
      if Begins(last, "/j") then JoinTarget(last.value)
      else LastJoined(channel, inputs, n - 1)
  }

  lemma {:induction false} LastJoinedCons(channel: string, inputs: seq<Input>, n: nat)
    requires n < |inputs|
    ensures LastJoined(channel, inputs, n + 1) == LastJoined(NextChannel(channel, inputs[0].line), inputs[1..], n)
    decreases n
  {
    if n > 0 {
      assert inputs[n] == inputs[1..][n - 1];
      LastJoinedCons(channel, inputs, n - 1);
    }
  }

  /** One unfolding of `Menu` on a non-empty input. */
  lemma MenuUnfold(channel: string, inputs: seq<Input>)
    requires inputs != []
    ensures var s := Step(channel, inputs[0].line, inputs[0].tickFailures);
            var r := Menu(channel, inputs);
            if s.exit then r == MenuResult(s.channel, s.calls, 1, true)
            else var rest := Menu(s.channel, inputs[1..]);
                 r == MenuResult(rest.channel, s.calls + rest.calls, rest.consumed + 1, rest.exited)
  {
  }

  /** Where a line leaves the session: only `/j` moves it. */
  function NextChannel(channel: string, line: Option<string>): string {
    if Begins(line, "/j") then JoinTarget(line.value) else channel
  }

  lemma StepChannel(channel: string, line: Option<string>, failures: set<nat>)
    ensures Step(channel, line, failures).channel == NextChannel(channel, line)
  {
  }

  /** After the loop, the session is on the channel of the last `/j` line it
      read, or still on the channel it started from. */
  lemma {:induction false} MenuEndsOnLastJoined(channel: string, inputs: seq<Input>)
    ensures Menu(channel, inputs).channel == LastJoined(channel, inputs, Menu(channel, inputs).consumed)
    decreases |inputs|
  {
    if inputs != [] {
      var first := inputs[0];
      var s := Step(channel, first.line, first.tickFailures);
      if s.exit {
        MenuEndsOnExit(channel, inputs);
      } else {
        var rest := Menu(s.channel, inputs[1..]);
        MenuEndsOnLastJoined(s.channel, inputs[1..]);
        MenuUnfold(channel, inputs);
        StepChannel(channel, first.line, first.tickFailures);
        LastJoinedCons(channel, inputs, rest.consumed);
      }
    }
  }

  lemma MenuEndsOnExit(channel: string, inputs: seq<Input>)
    requires inputs != [] && Step(channel, inputs[0].line, inputs[0].tickFailures).exit
    ensures Menu(channel, inputs).channel == LastJoined(channel, inputs, Menu(channel, inputs).consumed)
  {
    var first := inputs[0];
    StepChannel(channel, first.line, first.tickFailures);
    MenuUnfold(channel, inputs);
    LastJoinedCons(channel, inputs, 0);
  }

  lemma SliceCons<T>(xs: seq<T>, k: nat)
    requires k < |xs|
    ensures xs[..k + 1] == [xs[0]] + xs[1..][..k]
  {
  }

  /** The messages a sequence of lines should post: one per chat line, its
      text verbatim, authored by the session's identity. */
  function ChatOf(inputs: seq<Input>): seq<ChatMsg>
    decreases |inputs|
  {
    if inputs == [] then []
    else (if IsChatLine(inputs[0].line) then [ChatMsg(Author, inputs[0].line.value)] else [])
         + ChatOf(inputs[1..])
  }

  /** Joining a channel and showing its history posts nothing. */
  lemma JoinPostsNothing(target: string)
    ensures Posted([Call(ChatRoom(target), Join(Author)), Call(ChatRoom(target), ReadHistory(HistoryLimit))]) == []
  {
    var join, show := Call(ChatRoom(target), Join(Author)), Call(ChatRoom(target), ReadHistory(HistoryLimit));
    assert [join, show] == [join] + [show];
    PostedOne(join);
    PostedOne(show);
    PostedAppend([join], [show]);
  }

  /** A line posts its own text if it is a chat line and nothing otherwise. */
  lemma StepPosts(channel: string, line: Option<string>, failures: set<nat>)
    ensures Posted(Step(channel, line, failures).calls)
            == (if IsChatLine(line) then [ChatMsg(Author, line.value)] else [])
  {
    var r := Step(channel, line, failures);
    CommandsExclusive(line);
    if IsChatLine(line) {
      var say := Call(ChatRoom(channel), Message(ChatMsg(Author, line.value)));
      assert r.calls == [say];
      PostedOne(say);
    } else if Begins(line, "/r") {
      PostsNothing(r.calls);
    } else if Begins(line, "/j") {
      JoinPostsNothing(r.channel);
    } else if Begins(line, "/l") {
      PostedOne(Call(ChatRoom(channel), Leave(Author)));
    } else if Begins(line, "/h") {
      PostedOne(Call(ChatRoom(channel), ReadHistory(HistoryLimit)));
    } else {
      assert r.calls == [];
    }
  }

  /** Over a whole session, the messages posted are exactly the chat lines
      read, in order: no command and no `/exit...` line is ever sent. */
  lemma {:induction false} MenuPostsChatLines(channel: string, inputs: seq<Input>)
    ensures Posted(Menu(channel, inputs).calls) == ChatOf(inputs[..Menu(channel, inputs).consumed])
    decreases |inputs|
  {
    if inputs == [] {
      assert inputs[..0] == [];
    } else {
      var s := Step(channel, inputs[0].line, inputs[0].tickFailures);
      if s.exit {
        MenuPostsOnExit(channel, inputs);
      } else {
        var first := inputs[0];
        var rest := Menu(s.channel, inputs[1..]);
        MenuPostsChatLines(s.channel, inputs[1..]);
        StepPosts(channel, first.line, first.tickFailures);
        MenuUnfold(channel, inputs);
        PostedAppend(s.calls, rest.calls);
        SliceCons(inputs, rest.consumed);
        ChatOfCons(first, inputs[1..][..rest.consumed]);
      }
    }
  }

  lemma MenuPostsOnExit(channel: string, inputs: seq<Input>)
    requires inputs != [] && Step(channel, inputs[0].line, inputs[0].tickFailures).exit
    ensures Posted(Menu(channel, inputs).calls) == ChatOf(inputs[..Menu(channel, inputs).consumed])
  {
    StepPosts(channel, inputs[0].line, inputs[0].tickFailures);
    MenuUnfold(channel, inputs);
    assert inputs[..1] == [inputs[0]];
    assert inputs[..1][1..] == [];
  }

  lemma ChatOfCons(first: Input, rest: seq<Input>)
    ensures ChatOf([first] + rest)
            == (if IsChatLine(first.line) then [ChatMsg(Author, first.line.value)] else []) + ChatOf(rest)
  {
    assert ([first] + rest)[1..] == rest;
  }
}
