/** The retry engine of the state-sync client as a specification: which
    peers are asked, in what order, what they answer, and which result or
    error one logical request ends with. The loop in the client class is
    proved to compute exactly this. */
module RetryEngine {
  import opened Messages
  import opened Validators

  /** Where one attempt is sent: to a peer the transport picks
      (RequestAny), or to a configured state-sync node (Request). */
  datatype Target = AnyPeer | Peer(node: NodeId)

  /** The transport's answer to one attempt. */
  datatype Reply = Delivered(data: Bytes) | Failed(cause: ExtError)

  datatype Attempt = Attempt(target: Target, reply: Reply)

  /** The transport as an oracle: the reply to the attempt with the given
      index, sent to the given target with the given request bytes. */
  type Network = (nat, Target, Bytes) -> Reply

  /** What one logical request ends with: its result, the attempts it made
      in order, and the rotation cursor afterwards. */
  datatype Run = Run(result: Result<Parsed, Error>, attempts: seq<Attempt>, nodeIdx: nat)

  // ---------------------------------------------------------------------
  // Peer rotation
  // ---------------------------------------------------------------------

  /** The rotation cursor after `k` advances from `idx` over `n` nodes; with
      no nodes the cursor never moves. */
  function Cursor(idx: nat, n: nat, k: nat): (c: nat)
    ensures n > 0 ==> c < n
    ensures n == 0 ==> c == idx
  {
    if n == 0 then idx else (idx + k) % n
  }

  function Pick(nodes: seq<NodeId>, c: nat): Target
    requires |nodes| > 0 ==> c < |nodes|
  {
    if |nodes| == 0 then AnyPeer else Peer(nodes[c])
  }

  lemma MulAtLeast(n: int, z: int)
    requires n > 0 && z >= 1
    ensures n * z >= n && n * -z <= -n
  {
    if z > 1 {
      MulAtLeast(n, z - 1);
      assert n * z == n * (z - 1) + n;
    }
  }

  /** Euclidean remainders are unique. */
  lemma ModUnique(y: int, d: int, r: int, n: int)
    requires n > 0 && 0 <= r < n && y == n * d + r
    ensures y % n == r
  {
    var q, s := y / n, y % n;
    assert y == n * q + s;
    assert n * (d - q) == s - r;
    if d - q >= 1 {
      MulAtLeast(n, d - q);
    } else if q - d >= 1 {
      MulAtLeast(n, q - d);
    }
  }

  lemma ModShift(x: int, q: int, n: int)
    requires n > 0
    ensures (x + n * q) % n == x % n
  {
    assert x == n * (x / n) + x % n;
    assert x + n * q == n * (x / n + q) + x % n;
    ModUnique(x + n * q, x / n + q, x % n, n);
  }

  /** Two numbers less than `n` apart have different remainders. */
  lemma ModDistinct(x: int, d: int, n: int)
    requires 0 < d < n
    ensures (x + d) % n != x % n
  {
    var q, r := x / n, x % n;
    assert x == n * q + r;
    if r + d < n {
      ModUnique(x + d, q, r + d, n);
    } else {
      assert x + d == n * (q + 1) + (r + d - n);
      ModUnique(x + d, q + 1, r + d - n, n);
    }
  }

  /** Advancing the cursor once and then `k` times is advancing it `k + 1` times. */
  lemma CursorStep(idx: nat, n: nat, k: nat)
    requires n > 0 ==> idx < n
    ensures Cursor(Cursor(idx, n, 1), n, k) == Cursor(idx, n, k + 1)
  {
    if n > 0 {
      var a := idx + 1;
      assert a == n * (a / n) + a % n;
      ModShift(a % n + k, a / n, n);
      assert a % n + k + n * (a / n) == idx + k + 1;
    }
  }

  /** The position of the node that attempt number `i` (from 0) goes to,
      when the cursor was at `idx` before the first attempt. */
  function Slot(idx: nat, n: nat, i: nat): nat
  {
    Cursor(idx, n, i + 1)
  }

  /** How many attempts after attempt `j` the rotation reaches position `m`. */
  function Offset(idx: nat, n: nat, j: nat, m: nat): nat
    requires n > 0
  {
    (m - idx - j - 1) % n
  }

  /** Any `n` consecutive attempts over `n` nodes go to every position
      exactly once: position `m` is reached `Offset` attempts after `j`, and
      no two of them share a position. */
  lemma RotationVisitsEachNodeOnce(idx: nat, n: nat, j: nat)
    requires n > 0
    ensures forall m :: 0 <= m < n ==> Offset(idx, n, j, m) < n && Slot(idx, n, j + Offset(idx, n, j, m)) == m
    ensures forall i1, i2 :: j <= i1 < i2 < j + n ==> Slot(idx, n, i1) != Slot(idx, n, i2)
  {
    forall m | 0 <= m < n
      ensures Offset(idx, n, j, m) < n && Slot(idx, n, j + Offset(idx, n, j, m)) == m
    {
      var t := m - idx - j - 1;
      var p := t % n;
      assert p == Offset(idx, n, j, m);
      assert t == n * (t / n) + p;
      assert idx + (j + p) + 1 == m + n * (-(t / n));
      ModShift(m, -(t / n), n);
      ModUnique(m, 0, m, n);
    }
    forall i1, i2 | j <= i1 < i2 < j + n
      ensures Slot(idx, n, i1) != Slot(idx, n, i2)
    {
      ModDistinct(idx + i1 + 1, i2 - i1, n);
    }
  }

  // ---------------------------------------------------------------------
  // The attempt loop
  // ---------------------------------------------------------------------

  /** The error an attempt ended with, or None when it produced a response
      that passed validation. */
  function AttemptError(env: Env, request: Request, a: Attempt): Option<Error>
  {
    match a.reply
    case Failed(e) => Some(External(e))
    case Delivered(data) =>
      match Verdict(env, request, data)
      case Ok(_) => None
      case Err(e) => Some(e)
  }

  function Extend(prefix: seq<Attempt>, run: Run): Run
  {
    Run(run.result, prefix + run.attempts, run.nodeIdx)
  }

  /** The attempts numbered `attempt` to `attempts - 1`, started with the
      cursor at `idx` and `last` as the last error seen. */
  function Retry(env: Env, nodes: seq<NodeId>, request: Request, bytes: Bytes, net: Network,
                 attempts: uint8, attempt: nat, idx: nat, last: Option<Error>): Run
    requires attempt <= attempts as int
    requires |nodes| > 0 ==> idx < |nodes|
    decreases attempts as int - attempt
  {
    if attempt == attempts as int then Run(Err(ExceededRetryLimit(attempts, last)), [], idx)
    else
      var next := Cursor(idx, |nodes|, 1);
      var target := Pick(nodes, next);
      var reply := net(attempt, target, bytes);
      match reply
      case Failed(e) =>
        Extend([Attempt(target, reply)], Retry(env, nodes, request, bytes, net, attempts, attempt + 1, next, Some(External(e))))
      case Delivered(data) =>
        match Verdict(env, request, data)
        case Err(e) =>
          Extend([Attempt(target, reply)], Retry(env, nodes, request, bytes, net, attempts, attempt + 1, next, Some(e)))
        case Ok(v) => Run(Ok(v), [Attempt(target, reply)], next)
  }

  /** One step of the attempt loop. */
  lemma RetryStep(env: Env, nodes: seq<NodeId>, request: Request, bytes: Bytes, net: Network,
                  attempts: uint8, attempt: nat, idx: nat, last: Option<Error>)
    requires attempt < attempts as int
    requires |nodes| > 0 ==> idx < |nodes|
    ensures var next := Cursor(idx, |nodes|, 1);
      var a := Attempt(Pick(nodes, next), net(attempt, Pick(nodes, next), bytes));
      var run := Retry(env, nodes, request, bytes, net, attempts, attempt, idx, last);
      && (AttemptError(env, request, a).Some? ==>
            run == Extend([a], Retry(env, nodes, request, bytes, net, attempts, attempt + 1, next, AttemptError(env, request, a))))
      && (AttemptError(env, request, a).None? ==>
            a.reply.Delivered? && run == Run(Verdict(env, request, a.reply.data), [a], next))
  {
  }

  lemma ExtendStep(prefix: seq<Attempt>, a: Attempt, run: Run)
    ensures Extend(prefix, Extend([a], run)) == Extend(prefix + [a], run)
  {
    assert prefix + ([a] + run.attempts) == (prefix + [a]) + run.attempts;
  }

  /** Attempts stay within the budget, and the cursor ends advanced once
      per attempt made. */
  lemma {:induction false} RetryBudget(env: Env, nodes: seq<NodeId>, request: Request, bytes: Bytes, net: Network,
                                       attempts: uint8, attempt: nat, idx: nat, last: Option<Error>)
    requires attempt <= attempts as int
    requires |nodes| > 0 ==> idx < |nodes|
    ensures var run := Retry(env, nodes, request, bytes, net, attempts, attempt, idx, last);
      && |run.attempts| <= attempts as int - attempt
      && run.nodeIdx == Cursor(idx, |nodes|, |run.attempts|)
    decreases attempts as int - attempt
  {
    var n := |nodes|;
    if attempt == attempts as int {
      if n > 0 { ModUnique(idx, 0, idx, n); }
    } else {
      RetryStep(env, nodes, request, bytes, net, attempts, attempt, idx, last);
      var next := Cursor(idx, n, 1);
      var a := Attempt(Pick(nodes, next), net(attempt, Pick(nodes, next), bytes));
      var e := AttemptError(env, request, a);
      if e.Some? {
        var rest := Retry(env, nodes, request, bytes, net, attempts, attempt + 1, next, e);
        RetryBudget(env, nodes, request, bytes, net, attempts, attempt + 1, next, e);
        CursorStep(idx, n, |rest.attempts|);
      }
    }
  }

  /** The i-th attempt goes to the node the cursor reaches after i + 1
      advances (or to any peer), carries the same request bytes, and gets
      the transport's reply for its index. */
  lemma {:induction false} RetrySends(env: Env, nodes: seq<NodeId>, request: Request, bytes: Bytes, net: Network,
                                      attempts: uint8, attempt: nat, idx: nat, last: Option<Error>)
    requires attempt <= attempts as int
    requires |nodes| > 0 ==> idx < |nodes|
    ensures var run := Retry(env, nodes, request, bytes, net, attempts, attempt, idx, last);
      forall i :: 0 <= i < |run.attempts| ==>
        && run.attempts[i].target == Pick(nodes, Slot(idx, |nodes|, i))
        && run.attempts[i].reply == net(attempt + i, run.attempts[i].target, bytes)
    decreases attempts as int - attempt
  {
    var n := |nodes|;
    if attempt < attempts as int {
      RetryStep(env, nodes, request, bytes, net, attempts, attempt, idx, last);
      var next := Cursor(idx, n, 1);
      var a := Attempt(Pick(nodes, next), net(attempt, Pick(nodes, next), bytes));
      var e := AttemptError(env, request, a);
      if e.Some? {
        var run := Retry(env, nodes, request, bytes, net, attempts, attempt, idx, last);
        var rest := Retry(env, nodes, request, bytes, net, attempts, attempt + 1, next, e);
        RetrySends(env, nodes, request, bytes, net, attempts, attempt + 1, next, e);
        assert run.attempts == [a] + rest.attempts;
        forall i | 0 < i < |run.attempts|
          ensures run.attempts[i].target == Pick(nodes, Slot(idx, n, i))
          ensures run.attempts[i].reply == net(attempt + i, run.attempts[i].target, bytes)
        {
          var t := rest.attempts[i - 1];
          assert run.attempts[i] == t;
          assert t.target == Pick(nodes, Slot(next, n, i - 1));
          assert t.reply == net(attempt + 1 + (i - 1), t.target, bytes);
          CursorStep(idx, n, i);
          assert Slot(next, n, i - 1) == Slot(idx, n, i);
        }
      }
    }
  }

  /** A run that succeeds ends with its first accepted attempt, after only
      failed ones, and returns that attempt's validated value. */
  lemma {:induction false} RetrySucceeds(env: Env, nodes: seq<NodeId>, request: Request, bytes: Bytes, net: Network,
                                         attempts: uint8, attempt: nat, idx: nat, last: Option<Error>)
    requires attempt <= attempts as int
    requires |nodes| > 0 ==> idx < |nodes|
    requires Retry(env, nodes, request, bytes, net, attempts, attempt, idx, last).result.Ok?
    ensures var run := Retry(env, nodes, request, bytes, net, attempts, attempt, idx, last);
      var k := |run.attempts|;
      && k > 0
      && (forall i :: 0 <= i < k - 1 ==> AttemptError(env, request, run.attempts[i]).Some?)
      && run.attempts[k - 1].reply.Delivered?
      && Verdict(env, request, run.attempts[k - 1].reply.data) == run.result
    decreases attempts as int - attempt
  {
    RetryStep(env, nodes, request, bytes, net, attempts, attempt, idx, last);
    var next := Cursor(idx, |nodes|, 1);
    var a := Attempt(Pick(nodes, next), net(attempt, Pick(nodes, next), bytes));
    var e := AttemptError(env, request, a);
    if e.Some? {
      var run := Retry(env, nodes, request, bytes, net, attempts, attempt, idx, last);
      var rest := Retry(env, nodes, request, bytes, net, attempts, attempt + 1, next, e);
      RetrySucceeds(env, nodes, request, bytes, net, attempts, attempt + 1, next, e);
      forall i | 0 < i < |run.attempts|
        ensures run.attempts[i] == rest.attempts[i - 1]
      {
      }
    }
  }

  /** A run that fails used the whole budget, every attempt failed, and the
      error is the retry-limit error carrying the last attempt's error (or
      `last` when no attempt was left). */
  lemma {:induction false} RetryExhausts(env: Env, nodes: seq<NodeId>, request: Request, bytes: Bytes, net: Network,
                                         attempts: uint8, attempt: nat, idx: nat, last: Option<Error>)
    requires attempt <= attempts as int
    requires |nodes| > 0 ==> idx < |nodes|
    requires Retry(env, nodes, request, bytes, net, attempts, attempt, idx, last).result.Err?
    ensures var run := Retry(env, nodes, request, bytes, net, attempts, attempt, idx, last);
      var k := |run.attempts|;
      && k == attempts as int - attempt
      && (forall i :: 0 <= i < k ==> AttemptError(env, request, run.attempts[i]).Some?)
      && run.result.error ==
           ExceededRetryLimit(attempts, if k == 0 then last else AttemptError(env, request, run.attempts[k - 1]))
    decreases attempts as int - attempt
  {
    if attempt < attempts as int {
      RetryStep(env, nodes, request, bytes, net, attempts, attempt, idx, last);
      var next := Cursor(idx, |nodes|, 1);
      var a := Attempt(Pick(nodes, next), net(attempt, Pick(nodes, next), bytes));
      var e := AttemptError(env, request, a);
      var run := Retry(env, nodes, request, bytes, net, attempts, attempt, idx, last);
      var rest := Retry(env, nodes, request, bytes, net, attempts, attempt + 1, next, e);
      RetryExhausts(env, nodes, request, bytes, net, attempts, attempt + 1, next, e);
      forall i | 0 < i < |run.attempts|
        ensures run.attempts[i] == rest.attempts[i - 1]
      {
      }
    }
  }

  /** get: encode the request once, then run the attempts. */
  function GetRun(env: Env, nodes: seq<NodeId>, request: Request, net: Network, attempts: uint8, idx: nat): Run
    requires |nodes| > 0 ==> idx < |nodes|
  {
    match env.requestToBytes(request)
    case Err(e) => Run(Err(External(e)), [], idx)
    case Ok(bytes) => Retry(env, nodes, request, bytes, net, attempts, 0, idx, None)
  }

  /** A request that cannot be encoded fails at once with the encoder's
      error: nothing is sent, nothing validated, the cursor does not move. */
  lemma GetEncodeFailure(env: Env, nodes: seq<NodeId>, request: Request, net: Network, attempts: uint8, idx: nat)
    requires |nodes| > 0 ==> idx < |nodes|
    requires env.requestToBytes(request).Err?
    ensures GetRun(env, nodes, request, net, attempts, idx)
            == Run(Err(External(env.requestToBytes(request).error)), [], idx)
  {
  }

  /** Once the request is encoded, get makes at most `attempts` sends, all
      of the same bytes, to the rotation's nodes in order (or to any peer
      when no node is configured), and advances the cursor once per send. */
  lemma GetSchedule(env: Env, nodes: seq<NodeId>, request: Request, net: Network, attempts: uint8, idx: nat)
    requires |nodes| > 0 ==> idx < |nodes|
    requires env.requestToBytes(request).Ok?
    ensures var run := GetRun(env, nodes, request, net, attempts, idx);
      && |run.attempts| <= attempts as int
      && (forall i :: 0 <= i < |run.attempts| ==>
            && run.attempts[i].target == Pick(nodes, Slot(idx, |nodes|, i))
            && run.attempts[i].reply == net(i, run.attempts[i].target, env.requestToBytes(request).value))
      && run.nodeIdx == Cursor(idx, |nodes|, |run.attempts|)
  {
    var bytes := env.requestToBytes(request).value;
    RetryBudget(env, nodes, request, bytes, net, attempts, 0, idx, None);
    RetrySends(env, nodes, request, bytes, net, attempts, 0, idx, None);
  }

  /** When get succeeds, its last attempt is the first one whose response
      was accepted, and the result is that response's validated value: no
      send follows an accepted response. */
  lemma GetSucceeds(env: Env, nodes: seq<NodeId>, request: Request, net: Network, attempts: uint8, idx: nat)
    requires |nodes| > 0 ==> idx < |nodes|
    requires GetRun(env, nodes, request, net, attempts, idx).result.Ok?
    ensures env.requestToBytes(request).Ok?
    ensures var run := GetRun(env, nodes, request, net, attempts, idx);
      var k := |run.attempts|;
      && 0 < k <= attempts as int
      && (forall i :: 0 <= i < k - 1 ==> AttemptError(env, request, run.attempts[i]).Some?)
      && run.attempts[k - 1].reply.Delivered?
      && Verdict(env, request, run.attempts[k - 1].reply.data) == run.result
  {
    var bytes := env.requestToBytes(request).value;
    RetryBudget(env, nodes, request, bytes, net, attempts, 0, idx, None);
    RetrySucceeds(env, nodes, request, bytes, net, attempts, 0, idx, None);
  }

  /** When get fails after encoding, it made exactly `attempts` attempts, all
      failed, and the error is the retry-limit error carrying the last
      attempt's error, or nil when `attempts` is zero. */
  lemma GetExhausts(env: Env, nodes: seq<NodeId>, request: Request, net: Network, attempts: uint8, idx: nat)
    requires |nodes| > 0 ==> idx < |nodes|
    requires env.requestToBytes(request).Ok?
    requires GetRun(env, nodes, request, net, attempts, idx).result.Err?
    ensures var run := GetRun(env, nodes, request, net, attempts, idx);
      var k := |run.attempts|;
      && k == attempts as int
      && (forall i :: 0 <= i < k ==> AttemptError(env, request, run.attempts[i]).Some?)
      && run.result.error ==
           ExceededRetryLimit(attempts, if k == 0 then None else AttemptError(env, request, run.attempts[k - 1]))
  {
    RetryExhausts(env, nodes, request, env.requestToBytes(request).value, net, attempts, 0, idx, None);
  }

  /** With configured nodes, any `|nodes|` consecutive attempts of a run go
      to every configured position exactly once. */
  lemma AttemptsRotateOverNodes(env: Env, nodes: seq<NodeId>, request: Request, net: Network,
                                attempts: uint8, idx: nat, j: nat)
    requires 0 < |nodes| && idx < |nodes|
    requires env.requestToBytes(request).Ok?
    requires j + |nodes| <= |GetRun(env, nodes, request, net, attempts, idx).attempts|
    ensures var run := GetRun(env, nodes, request, net, attempts, idx);
      && (forall i :: j <= i < j + |nodes| ==> run.attempts[i].target == Peer(nodes[Slot(idx, |nodes|, i)]))
      && (forall m :: 0 <= m < |nodes| ==>
            exists i :: j <= i < j + |nodes| && run.attempts[i].target == Peer(nodes[m]))
      && (forall i1, i2 :: j <= i1 < i2 < j + |nodes| ==> Slot(idx, |nodes|, i1) != Slot(idx, |nodes|, i2))
  {
    var n := |nodes|;
    var run := GetRun(env, nodes, request, net, attempts, idx);
    RetrySends(env, nodes, request, env.requestToBytes(request).value, net, attempts, 0, idx, None);
    RotationVisitsEachNodeOnce(idx, n, j);
    forall m | 0 <= m < n
      ensures exists i :: j <= i < j + n && run.attempts[i].target == Peer(nodes[m])
    {
      var i := j + Offset(idx, n, j, m);
      assert run.attempts[i].target == Peer(nodes[m]);
    }
  }
}
