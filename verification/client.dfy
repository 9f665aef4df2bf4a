/** `Main`: initialise the cluster client, then run `Menu` with it. `Main`
    does not check for the `null` that `InitializeClient` returns once its
    budget is spent: `Menu` runs with no client, and the first command that
    resolves a grain (`client.GetGrain`) throws a `NullReferenceException`
    that ends the process before any grain is called. */
module Client {
  import opened Wrappers
  import opened Text
  import opened Grains
  import opened Bootstrap
  import opened Session
  import opened Colors

  /** How the client process ends up after the lines it was given. */
  datatype Ending =
    | Exited               // the `/exit` line was read
    | AwaitingInput        // every line was read and the menu waits for more
    | Crashed(line: nat)   // `GetGrain` on a null client, while handling this line

  /** The line makes `Menu` resolve a grain: everything but blank lines and
      `/exit...` lines. */
  predicate ResolvesGrain(line: Option<string>) {
    !IsNullOrWhiteSpace(line) && !Begins(line, ExitCommand)
  }

  /** `Menu` run with a null client from line `from` on. */
  function Disconnected(inputs: seq<Input>, from: nat): (e: Ending)
    requires from <= |inputs|
    ensures e.Crashed? ==> from <= e.line < |inputs| && ResolvesGrain(inputs[e.line].line)
    ensures e.Exited? <==> exists i :: from <= i < |inputs| && inputs[i].line == Some(ExitCommand)
                                        && forall j :: from <= j < i ==> !ResolvesGrain(inputs[j].line)
    ensures forall j :: from <= j < |inputs| && (e.AwaitingInput? || (e.Crashed? && j < e.line))
              ==> !ResolvesGrain(inputs[j].line) && inputs[j].line != Some(ExitCommand)
    decreases |inputs| - from
  {
    if from == |inputs| then AwaitingInput
    else if ResolvesGrain(inputs[from].line) then Crashed(from)
    else if inputs[from].line == Some(ExitCommand) then Exited
    else Disconnected(inputs, from + 1)
  }

  /** Every line that resolves a grain issues at least one grain call, and no
      other line issues any: `ResolvesGrain` is the crash condition. */
  lemma ResolvesGrainIffCalls(channel: string, line: Option<string>, failures: set<nat>)
    ensures ResolvesGrain(line) <==> Step(channel, line, failures).calls != []
  {
  }

  /** `Main` over the outcomes of the connection attempts and the console
      lines. */
  method Run<C>(connect: nat -> ConnectOutcome<C>, inputs: seq<Input>)
    returns (attempts: nat, calls: seq<GrainCall>, ending: Ending)
    ensures 1 <= attempts <= MaxAttempts
    ensures calls != [] ==> connect(attempts - 1).Initialized?
    ensures (forall k :: 0 <= k < MaxAttempts ==> !connect(k).Initialized?) ==>
              attempts == MaxAttempts && calls == [] && ending == Disconnected(inputs, 0)
    ensures connect(attempts - 1).Initialized? ==>
              calls == Menu(InitialChannel, inputs).calls
              && ending == (if Menu(InitialChannel, inputs).exited then Exited else AwaitingInput)
  {
    var client: Option<C>;
    var sleeps: nat;
    client, attempts, sleeps := InitializeClient(connect);
    if client.Some? {
      var session := Menu(InitialChannel, inputs);
      calls := session.calls;
      ending := if session.exited then Exited else AwaitingInput;
    } else {
      calls := [];
      ending := Disconnected(inputs, 0);
    }
  }

  /** The session's own messages show in green. */
  lemma OwnMessagesAreGreen()
    ensures AuthorColor(Author) == Green
  {
    assert LowerChar(Author[0]) == LowerChar("alexey"[0]);
  }
}
