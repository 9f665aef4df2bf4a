/** `InitializeClient`: build a cluster client, connect it, and retry on
    failure with a bounded budget. Building and connecting the Orleans
    client is foreign; each attempt's outcome is supplied by the caller. */
module Bootstrap {
  import opened Wrappers

  /** The guard `initializeCounter++ > 10` gives up once the counter's old
      value exceeds this bound. */
  const CounterLimit: nat := 10

  /** Because the guard compares the value before the increment, an
      always-failing connection is tried for counter values 0..11. */
  const MaxAttempts: nat := CounterLimit + 2

  /** What one attempt of build-and-`Connect()` produced. */
  datatype ConnectOutcome<C> =
    | Threw(message: string)     // `Connect()` (or building) raised an exception
    | NotInitialized             // connected, but `IsInitialized` is false
    | Initialized(client: C)     // connected and `IsInitialized` is true

  /** Runs the retry loop; `connect(k)` is the outcome of the attempt made
      when `k` earlier attempts have failed. Returns the client (`None` for
      the `null` of the source) together with how many attempts were made
      and how many 5-second sleeps were taken. */
  method InitializeClient<C>(connect: nat -> ConnectOutcome<C>)
    returns (client: Option<C>, attempts: nat, sleeps: nat)
    ensures 1 <= attempts <= MaxAttempts
    ensures sleeps == attempts - 1
    ensures forall k :: 0 <= k < attempts - 1 ==> !connect(k).Initialized?
    ensures client.Some? ==> connect(attempts - 1) == Initialized(client.value)
    ensures client.None? ==> attempts == MaxAttempts && !connect(MaxAttempts - 1).Initialized?
  {
    var initializeCounter: nat := 0;
    attempts, sleeps := 0, 0;
    // The source's `while (!initSucceed)` only ends by a `return`: the flag
    // is true exactly when the client is returned.
    while true
      invariant initializeCounter <= CounterLimit + 1
      invariant attempts == initializeCounter && sleeps == initializeCounter
      invariant forall k :: 0 <= k < attempts ==> !connect(k).Initialized?
      decreases CounterLimit + 1 - initializeCounter
    {
      var outcome := connect(attempts);
      attempts := attempts + 1;
      if outcome.Initialized? {
        return Some(outcome.client), attempts, sleeps;
      }
      var before := initializeCounter;
      initializeCounter := initializeCounter + 1;
      if before > CounterLimit {
        return None, attempts, sleeps;
      }
      sleeps := sleeps + 1;
    }
  }

  /** If no attempt brings up an initialised client, the loop stops by
      itself after exactly 12 attempts and 11 sleeps and returns `null`. */
  method GivesUpWhenNeverReady<C>(connect: nat -> ConnectOutcome<C>)
    returns (client: Option<C>, attempts: nat, sleeps: nat)
    requires forall k :: 0 <= k < MaxAttempts ==> !connect(k).Initialized?
    ensures client == None && attempts == 12 && sleeps == 11
  {
    client, attempts, sleeps := InitializeClient(connect);
  }

  /** If attempt `k` (counting from 0) is the first to yield an initialised
      client, that client is returned after `k` sleeps and nothing further
      is attempted. */
  method ReturnsFirstReady<C>(connect: nat -> ConnectOutcome<C>, k: nat)
    returns (client: Option<C>, attempts: nat, sleeps: nat)
    requires k < MaxAttempts && connect(k).Initialized?
    requires forall j :: 0 <= j < k ==> !connect(j).Initialized?
    ensures client == Some(connect(k).client) && attempts == k + 1 && sleeps == k
  {
    client, attempts, sleeps := InitializeClient(connect);
  }
}
