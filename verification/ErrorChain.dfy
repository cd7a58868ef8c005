/** Reading a decision out of a possibly cyclic graph of error causes
    (src/infrastructure/database/database-error.ts). */
module ErrorChain {
  import opened JsText

  /** A thrown value or a cause: an object of the graph, or anything else. */
  datatype Value = Object(id: nat) | Other

  /** One error object. A code or message that is not a string, or whose getter throws, is None. */
  datatype Node = Node(code: Option<string>, message: Option<string>, cause: Value, isAppError: bool)

  /** The error objects that exist when `error` is thrown. */
  datatype Thrown = Thrown(nodes: seq<Node>, error: Value)

  predicate Within(nodes: seq<Node>, v: Value) {
    v.Object? ==> v.id < |nodes|
  }

  predicate Closed(t: Thrown) {
    Within(t.nodes, t.error) && forall i :: 0 <= i < |t.nodes| ==> Within(t.nodes, t.nodes[i].cause)
  }

  type Graph = t: Thrown | Closed(t) witness Thrown([], Other)

  /** The n-th error of the cause chain, followed for ever round a cycle. */
  function NthCause(t: Graph, n: nat): (v: Value)
    ensures Within(t.nodes, v)
  {
    if n == 0 then t.error
    else
      var previous := NthCause(t, n - 1);
      if previous.Object? then t.nodes[previous.id].cause else Other
  }

  ghost predicate Reachable(t: Graph, id: nat) {
    exists n: nat :: NthCause(t, n) == Object(id)
  }

  predicate Distinct(ids: seq<nat>) {
    forall i, j :: 0 <= i < j < |ids| ==> ids[i] != ids[j]
  }

  /** The ids of a walk are the first |ids| errors of the cause chain, each met once. */
  ghost predicate IsPrefix(t: Graph, ids: seq<nat>) {
    Distinct(ids) && forall i :: 0 <= i < |ids| ==> ids[i] < |t.nodes| && NthCause(t, i) == Object(ids[i])
  }

  /** The chain has no further error to offer. */
  ghost predicate IsWalk(t: Graph, ids: seq<nat>) {
    IsPrefix(t, ids) && (NthCause(t, |ids|).Object? ==> NthCause(t, |ids|).id in ids)
  }

  /** Once the chain returns to a visited error, it never leaves the visited ones. */
  lemma {:induction false} NothingNewAfter(t: Graph, ids: seq<nat>, n: nat)
    requires IsWalk(t, ids)
    ensures NthCause(t, n).Object? ==> NthCause(t, n).id in ids
  {
    if n < |ids| {
      assert NthCause(t, n) == Object(ids[n]);
    } else if n > |ids| {
      NothingNewAfter(t, ids, n - 1);
      var previous := NthCause(t, n - 1);
      if previous.Object? {
        var i :| 0 <= i < |ids| && ids[i] == previous.id;
        assert NthCause(t, i) == previous;
        assert NthCause(t, n) == NthCause(t, i + 1);
        if i + 1 < |ids| {
          assert NthCause(t, i + 1) == Object(ids[i + 1]);
        }
      }
    }
  }

  /** A walk visits each reachable error exactly once, and no other. */
  lemma WalkVisitsTheReachable(t: Graph, ids: seq<nat>)
    requires IsWalk(t, ids)
    ensures Distinct(ids) && forall id: nat :: id in ids <==> Reachable(t, id)
  {
    forall id: nat
      ensures id in ids <==> Reachable(t, id)
    {
      if id in ids {
        var i :| 0 <= i < |ids| && ids[i] == id;
        assert NthCause(t, i) == Object(id);
      }
      if Reachable(t, id) {
        var n: nat :| NthCause(t, n) == Object(id);
        NothingNewAfter(t, ids, n);
      }
    }
  }

  lemma {:induction false} WalkUnique(t: Graph, a: seq<nat>, b: seq<nat>)
    requires IsWalk(t, a) && IsWalk(t, b)
    ensures a == b
  {
    var shorter, longer := if |a| <= |b| then a else b, if |a| <= |b| then b else a;
    forall i | 0 <= i < |shorter|
      ensures shorter[i] == longer[i]
    {
      assert NthCause(t, i) == Object(shorter[i]) && NthCause(t, i) == Object(longer[i]);
    }
    assert shorter == longer[..|shorter|];
    EachIsNew(t, longer);
  }

  lemma EachIsNew(t: Graph, ids: seq<nat>)
    requires IsPrefix(t, ids)
    ensures forall k: nat :: k < |ids| ==> NthCause(t, k) == Object(ids[k]) && ids[k] !in ids[..k]
  {
  }

  lemma {:induction false} DistinctIsShort(ids: seq<nat>, n: nat)
    requires Distinct(ids) && forall i :: 0 <= i < |ids| ==> ids[i] < n
    ensures |ids| <= n
    decreases n
  {
    if ids != [] {
      assert ids[0] < n;
      if n - 1 in ids {
        var k :| 0 <= k < |ids| && ids[k] == n - 1;
        DistinctIsShort(ids[..k] + ids[k + 1..], n - 1);
      } else {
        DistinctIsShort(ids, n - 1);
      }
    }
  }

  /** The walk as a function, extending the errors visited so far. */
  function Walk(t: Graph, visited: seq<nat>): (ids: seq<nat>)
    requires IsPrefix(t, visited)
    ensures IsWalk(t, ids)
    decreases |t.nodes| - |visited|
  {
    DistinctIsShort(visited, |t.nodes|);
    var current := NthCause(t, |visited|);
    if current == Other || current.id in visited then visited
    else
      DistinctIsShort(visited + [current.id], |t.nodes|);
      Walk(t, visited + [current.id])
  }

  function Chain(t: Graph): (ids: seq<nat>)
    ensures IsWalk(t, ids)
  {
    Walk(t, [])
  }

  datatype ErrorMetadata = ErrorMetadata(code: Option<string>, message: Option<string>)

  /** walkErrorChain. */
  method WalkErrorChain(t: Graph) returns (chain: seq<ErrorMetadata>)
    ensures |chain| == |Chain(t)|
    ensures forall i :: 0 <= i < |chain| ==>
      var node := t.nodes[Chain(t)[i]];
      chain[i] == ErrorMetadata(node.code, node.message)
  {
    chain := [];
    var visited: set<nat> := {};
    var current := t.error;
    ghost var ids: seq<nat> := [];
    while current.Object? && current.id !in visited
      invariant IsPrefix(t, ids) && current == NthCause(t, |ids|)
      invariant visited == set i | 0 <= i < |ids| :: ids[i]
      invariant |chain| == |ids|
      invariant forall i :: 0 <= i < |ids| ==> chain[i] == ErrorMetadata(t.nodes[ids[i]].code, t.nodes[ids[i]].message)
      decreases |t.nodes| - |ids|
    {
      var node := t.nodes[current.id];
      visited := visited + {current.id};
      chain := chain + [ErrorMetadata(node.code, node.message)];
      ids := ids + [current.id];
      current := node.cause;
      DistinctIsShort(ids, |t.nodes|);
    }
    assert IsWalk(t, ids);
    WalkUnique(t, ids, Chain(t));
  }

  // The classifiers

  datatype RetryReason = SerializationFailure | DeadlockDetected

  function RetryReasonOfCode(code: Option<string>): Option<RetryReason> {
    if code == Some("40001") then Some(SerializationFailure)
    else if code == Some("40P01") then Some(DeadlockDetected)
    else None
  }

  const POSTGRES_UNAVAILABLE_CODES := {"53300", "57P01", "57P02", "57P03", "57P04"}
  const NETWORK_UNAVAILABLE_CODES := {"ECONNREFUSED", "ECONNRESET", "EHOSTUNREACH", "ENETUNREACH", "EPIPE"}
  const ACQUIRE_TIMEOUT_MESSAGES := {
    "timeout exceeded when trying to connect", "connection terminated due to connection timeout"
  }

  /** Lower-casing, as far as it can produce one of the ASCII messages above. */
  function ToLowerCase(s: string): string {
    seq(|s|, i requires 0 <= i < |s| => if 'A' <= s[i] <= 'Z' then (s[i] as int + 32) as char else s[i])
  }

  predicate IsBusyCode(code: Option<string>) {
    RetryReasonOfCode(code).Some? || code == Some("55P03")
  }

  predicate IsTimeoutCode(code: Option<string>) {
    code == Some("57014") || code == Some("25P03")
  }

  predicate IsUnavailable(node: Node) {
    || (node.code.Some?
        && ("08" <= node.code.value || node.code.value in POSTGRES_UNAVAILABLE_CODES
            || node.code.value in NETWORK_UNAVAILABLE_CODES
            || node.code.value == "ETIMEDOUT"))
    || (node.message.Some? && ToLowerCase(node.message.value) in ACQUIRE_TIMEOUT_MESSAGES)
  }

  predicate AnyInChain(t: Graph, p: Node -> bool) {
    exists i :: 0 <= i < |Chain(t)| && p(t.nodes[Chain(t)[i]])
  }

  /** retryableTransactionFailureReason: the first error of the chain that has one. */
  function FirstReason(t: Graph, ids: seq<nat>): Option<RetryReason>
    requires forall i :: 0 <= i < |ids| ==> ids[i] < |t.nodes|
  {
    if ids == [] then None
    else if RetryReasonOfCode(t.nodes[ids[0]].code).Some? then RetryReasonOfCode(t.nodes[ids[0]].code)
    else FirstReason(t, ids[1..])
  }

  function RetryableTransactionFailureReason(t: Graph): Option<RetryReason> {
    FirstReason(t, Chain(t))
  }

  /** normalizeDatabaseError. A new error object is appended to the graph, with the old one as cause. */
  function NormalizeDatabaseError(t: Graph): Graph {
    if t.error.Object? && t.nodes[t.error.id].isAppError then t
    else if RetryableTransactionFailureReason(t).Some? || AnyInChain(t, (n: Node) => n.code == Some("55P03")) then
      Wrapped(t, "DATABASE_BUSY", "Database is temporarily busy")
    else if AnyInChain(t, (n: Node) => IsTimeoutCode(n.code)) then
      Wrapped(t, "DATABASE_TIMEOUT", "Database operation timed out")
    else if AnyInChain(t, (n: Node) => IsUnavailable(n)) then
      Wrapped(t, "DATABASE_UNAVAILABLE", "Database is temporarily unavailable")
    else t
  }

  function Wrapped(t: Graph, code: string, message: string): Graph {
    Thrown(t.nodes + [Node(Some(code), Some(message), t.error, true)], Object(|t.nodes|))
  }

  // What the classifiers promise, over the cause chain itself

  lemma {:induction false} FirstReasonIsFirst(t: Graph, ids: seq<nat>)
    requires forall i :: 0 <= i < |ids| ==> ids[i] < |t.nodes|
    ensures FirstReason(t, ids) == None <==>
            forall i :: 0 <= i < |ids| ==> RetryReasonOfCode(t.nodes[ids[i]].code) == None
    ensures FirstReason(t, ids).Some? ==> exists i ::
      && 0 <= i < |ids| && RetryReasonOfCode(t.nodes[ids[i]].code) == FirstReason(t, ids)
      && forall j :: 0 <= j < i ==> RetryReasonOfCode(t.nodes[ids[j]].code) == None
  {
    if ids != [] && RetryReasonOfCode(t.nodes[ids[0]].code) == None {
      FirstReasonIsFirst(t, ids[1..]);
      if FirstReason(t, ids).Some? {
        var i :| 0 <= i < |ids[1..]| && RetryReasonOfCode(t.nodes[ids[1..][i]].code) == FirstReason(t, ids[1..])
                 && forall j :: 0 <= j < i ==> RetryReasonOfCode(t.nodes[ids[1..][j]].code) == None;
        forall j | 0 <= j < i + 1
          ensures RetryReasonOfCode(t.nodes[ids[j]].code) == None
        {
          if j > 0 {
            assert ids[1..][j - 1] == ids[j];
          }
        }
        assert ids[i + 1] == ids[1..][i];
      } else {
        forall i | 0 <= i < |ids|
          ensures RetryReasonOfCode(t.nodes[ids[i]].code) == None
        {
          if i > 0 {
            assert ids[1..][i - 1] == ids[i];
          }
        }
      }
    }
  }

  lemma NearestReason(t: Graph) returns (n: nat)
    requires RetryableTransactionFailureReason(t).Some?
    ensures NthCause(t, n).Object?
    ensures RetryReasonOfCode(t.nodes[NthCause(t, n).id].code) == RetryableTransactionFailureReason(t)
    ensures forall m :: 0 <= m < n ==>
              NthCause(t, m).Object? && RetryReasonOfCode(t.nodes[NthCause(t, m).id].code) == None
  {
    var ids := Chain(t);
    FirstReasonIsFirst(t, ids);
    var i :| && 0 <= i < |ids| && RetryReasonOfCode(t.nodes[ids[i]].code) == FirstReason(t, ids)
             && forall j :: 0 <= j < i ==> RetryReasonOfCode(t.nodes[ids[j]].code) == None;
    assert NthCause(t, i) == Object(ids[i]);
    forall m | 0 <= m < i
      ensures NthCause(t, m).Object? && RetryReasonOfCode(t.nodes[NthCause(t, m).id].code) == None
    {
      assert NthCause(t, m) == Object(ids[m]);
    }
    n := i;
  }

  /** The transaction is retryable exactly when some error reachable by causes carries one of the two
      codes, and the reason is that of the one nearest the thrown error. */
  lemma ReasonIsNearest(t: Graph)
    ensures RetryableTransactionFailureReason(t).Some? <==>
            exists id: nat :: Reachable(t, id) && id < |t.nodes| && RetryReasonOfCode(t.nodes[id].code).Some?
    ensures RetryableTransactionFailureReason(t).Some? ==> exists n: nat ::
      && NthCause(t, n).Object?
      && RetryReasonOfCode(t.nodes[NthCause(t, n).id].code) == RetryableTransactionFailureReason(t)
      && forall m :: 0 <= m < n ==> NthCause(t, m).Object? && RetryReasonOfCode(t.nodes[NthCause(t, m).id].code) == None
  {
    var ids := Chain(t);
    WalkVisitsTheReachable(t, ids);
    FirstReasonIsFirst(t, ids);
    if RetryableTransactionFailureReason(t).Some? {
      var n := NearestReason(t);
      assert Reachable(t, NthCause(t, n).id);
    }
    if id: nat :| Reachable(t, id) && id < |t.nodes| && RetryReasonOfCode(t.nodes[id].code).Some? {
      var i :| 0 <= i < |ids| && ids[i] == id;
    }
  }

  /** An error of the chain with one of the two codes. */
  ghost predicate CarriesAt(t: Graph, n: nat, code: string) {
    NthCause(t, n).Object? && t.nodes[NthCause(t, n).id].code == Some(code)
  }

  /** The reason is a serialization failure if and only if an error of the chain carries 40001 and none
      nearer to the thrown one carries 40P01; a deadlock the other way round; and there is none if no
      error carries either. */
  lemma ReasonExactly(t: Graph)
    ensures var reason := RetryableTransactionFailureReason(t);
            && (reason == Some(SerializationFailure) <==>
                  exists n: nat :: CarriesAt(t, n, "40001") && forall m: nat :: m < n ==> !CarriesAt(t, m, "40P01"))
            && (reason == Some(DeadlockDetected) <==>
                  exists n: nat :: CarriesAt(t, n, "40P01") && forall m: nat :: m < n ==> !CarriesAt(t, m, "40001"))
            && (reason == None <==> forall n: nat :: !CarriesAt(t, n, "40001") && !CarriesAt(t, n, "40P01"))
  {
    CodesDiffer();
    if RetryableTransactionFailureReason(t).Some? {
      var n := NearestReason(t);
      NearestCode(t, n, RetryableTransactionFailureReason(t).value);
    } else {
      forall n: nat
        ensures !CarriesAt(t, n, "40001") && !CarriesAt(t, n, "40P01")
      {
        NoReason(t, n);
      }
    }
  }

  lemma CodesDiffer()
    ensures "40001" != "40P01"
  {
    assert "40001"[2] != "40P01"[2];
  }

  lemma NoReason(t: Graph, n: nat)
    requires RetryableTransactionFailureReason(t) == None
    ensures !CarriesAt(t, n, "40001") && !CarriesAt(t, n, "40P01")
  {
    ReasonIsNearest(t);
    if NthCause(t, n).Object? {
      assert Reachable(t, NthCause(t, n).id);
    }
  }

  lemma NearestCode(t: Graph, n: nat, reason: RetryReason)
    requires NthCause(t, n).Object? && RetryReasonOfCode(t.nodes[NthCause(t, n).id].code) == Some(reason)
    requires forall m :: 0 <= m < n ==>
               NthCause(t, m).Object? && RetryReasonOfCode(t.nodes[NthCause(t, m).id].code) == None
    ensures CarriesAt(t, n, if reason == SerializationFailure then "40001" else "40P01")
    ensures !CarriesAt(t, n, if reason == SerializationFailure then "40P01" else "40001")
    ensures forall m: nat :: m < n ==> !CarriesAt(t, m, "40001") && !CarriesAt(t, m, "40P01")
  {
    CodesDiffer();
  }

  // Wrapping an error as the cause of a new one

  lemma {:induction false} WrappedChain(t: Graph, code: string, message: string, n: nat)
    ensures NthCause(Wrapped(t, code, message), n + 1) == NthCause(t, n)
  {
    if n > 0 {
      WrappedChain(t, code, message, n - 1);
    } else {
      assert NthCause(Wrapped(t, code, message), 0) == Object(|t.nodes|);
    }
  }

  lemma WrappedWalk(t: Graph, code: string, message: string)
    ensures Chain(Wrapped(t, code, message)) == [|t.nodes|] + Chain(t)
  {
    var w := Wrapped(t, code, message);
    var ids := [|t.nodes|] + Chain(t);
    forall i | 0 <= i < |ids|
      ensures ids[i] < |w.nodes| && NthCause(w, i) == Object(ids[i])
    {
      if i > 0 {
        WrappedChain(t, code, message, i - 1);
        assert NthCause(t, i - 1) == Object(Chain(t)[i - 1]);
      }
    }
    forall i, j | 0 <= i < j < |ids|
      ensures ids[i] != ids[j]
    {
      assert ids[j] == Chain(t)[j - 1];
      if i > 0 {
        assert ids[i] == Chain(t)[i - 1];
      }
    }
    WrappedChain(t, code, message, |Chain(t)|);
    assert NthCause(w, |ids|) == NthCause(t, |Chain(t)|);
    WalkUnique(w, ids, Chain(w));
  }

  lemma {:induction false} FirstReasonInLargerGraph(t: Graph, u: Graph, ids: seq<nat>)
    requires |t.nodes| <= |u.nodes| && t.nodes == u.nodes[..|t.nodes|]
    requires forall i :: 0 <= i < |ids| ==> ids[i] < |t.nodes|
    ensures FirstReason(u, ids) == FirstReason(t, ids)
  {
    if ids != [] {
      assert u.nodes[ids[0]] == t.nodes[ids[0]];
      FirstReasonInLargerGraph(t, u, ids[1..]);
    }
  }

  lemma WrappedKeepsReason(t: Graph, code: string, message: string)
    requires RetryReasonOfCode(Some(code)) == None
    ensures RetryableTransactionFailureReason(Wrapped(t, code, message)) == RetryableTransactionFailureReason(t)
  {
    WrappedWalk(t, code, message);
    var w := Wrapped(t, code, message);
    assert Chain(w)[1..] == Chain(t);
    FirstReasonInLargerGraph(t, w, Chain(t));
  }

  /** Normalization never changes the decision to retry, nor the reason. */
  lemma NormalizationKeepsReason(t: Graph)
    ensures RetryableTransactionFailureReason(NormalizeDatabaseError(t)) == RetryableTransactionFailureReason(t)
  {
    assert "DATABASE_BUSY"[0] == "DATABASE_TIMEOUT"[0] == "DATABASE_UNAVAILABLE"[0] == 'D';
    assert "40001"[0] == "40P01"[0] == '4';
    WrappedKeepsReason(t, "DATABASE_BUSY", "Database is temporarily busy");
    WrappedKeepsReason(t, "DATABASE_TIMEOUT", "Database operation timed out");
    WrappedKeepsReason(t, "DATABASE_UNAVAILABLE", "Database is temporarily unavailable");
  }

  /** Normalizing twice is normalizing once, and the original error stays reachable. */
  lemma NormalizationIdempotent(t: Graph)
    ensures NormalizeDatabaseError(NormalizeDatabaseError(t)) == NormalizeDatabaseError(t)
    ensures forall id: nat :: Reachable(t, id) ==> Reachable(NormalizeDatabaseError(t), id)
  {
    var once := NormalizeDatabaseError(t);
    if once != t {
      var wrapper := once.nodes[|t.nodes|];
      assert once == Wrapped(t, wrapper.code.value, wrapper.message.value);
      forall id: nat | Reachable(t, id)
        ensures Reachable(once, id)
      {
        var n: nat :| NthCause(t, n) == Object(id);
        WrappedChain(t, wrapper.code.value, wrapper.message.value, n);
      }
    }
  }

  /** The classes of normalized errors, told from the reachable errors alone. */
  lemma NormalizationClasses(t: Graph)
    requires t.error.Object? && !t.nodes[t.error.id].isAppError
    ensures var n := NormalizeDatabaseError(t);
            var busy := exists id: nat :: Reachable(t, id) && id < |t.nodes| && IsBusyCode(t.nodes[id].code);
            var timeout := exists id: nat :: Reachable(t, id) && id < |t.nodes| && IsTimeoutCode(t.nodes[id].code);
            var gone := exists id: nat :: Reachable(t, id) && id < |t.nodes| && IsUnavailable(t.nodes[id]);
            && (n == t <==> !busy && !timeout && !gone)
            && (n != t ==> n.nodes[n.error.id].isAppError && n.nodes[n.error.id].cause == t.error
                           && n.nodes[n.error.id].code
                               == Some(if busy then "DATABASE_BUSY" else if timeout then "DATABASE_TIMEOUT"
                                       else "DATABASE_UNAVAILABLE")
                           && n.nodes[n.error.id].message
                               == Some(if busy then "Database is temporarily busy"
                                       else if timeout then "Database operation timed out"
                                       else "Database is temporarily unavailable"))
  {
    ReasonIsNearest(t);
    AnyIsReachable(t, (n: Node) => n.code == Some("55P03"));
    AnyIsReachable(t, (n: Node) => IsTimeoutCode(n.code));
    AnyIsReachable(t, (n: Node) => IsUnavailable(n));
  }

  /** An application error, and a thrown value that is no object, are left alone. */
  lemma NormalizationLeaves(t: Graph)
    requires t.error == Other || t.nodes[t.error.id].isAppError
    ensures NormalizeDatabaseError(t) == t
  {
    if t.error == Other {
      assert NthCause(t, 0) == Other;
      assert Chain(t) == [];
    }
  }

  lemma AnyIsReachable(t: Graph, p: Node -> bool)
    ensures AnyInChain(t, p) <==> exists id: nat :: Reachable(t, id) && id < |t.nodes| && p(t.nodes[id])
  {
    WalkVisitsTheReachable(t, Chain(t));
    if AnyInChain(t, p) {
      var i :| 0 <= i < |Chain(t)| && p(t.nodes[Chain(t)[i]]);
      assert Chain(t)[i] in Chain(t);
    }
    if id: nat :| Reachable(t, id) && id < |t.nodes| && p(t.nodes[id]) {
      var i :| 0 <= i < |Chain(t)| && Chain(t)[i] == id;
    }
  }

  /** The text is this one but for capital letters, which lie 32 below the small ones. */
  ghost predicate SameWords(s: string, lower: string) {
    |s| == |lower| && forall i :: 0 <= i < |s| ==>
      if 'A' <= s[i] <= 'Z' then lower[i] as int == s[i] as int + 32 else lower[i] == s[i]
  }

  lemma LowerCased(s: string, lower: string)
    ensures ToLowerCase(s) == lower <==> SameWords(s, lower)
  {
    if SameWords(s, lower) {
      assert forall i :: 0 <= i < |s| ==> ToLowerCase(s)[i] == lower[i];
    }
  }

  /** The messages of a pool that ran out of time, in capital or small letters. */
  lemma TimeoutMessages(s: string)
    ensures ToLowerCase(s) in ACQUIRE_TIMEOUT_MESSAGES <==>
            || SameWords(s, "timeout exceeded when trying to connect")
            || SameWords(s, "connection terminated due to connection timeout")
  {
    LowerCased(s, "timeout exceeded when trying to connect");
    LowerCased(s, "connection terminated due to connection timeout");
  }

  /** The codes of the three classes; an error without one of them is unavailable by its message. */
  lemma ClassTables(node: Node)
    ensures IsBusyCode(node.code) <==>
            node.code == Some("40001") || node.code == Some("40P01") || node.code == Some("55P03")
    ensures IsTimeoutCode(node.code) <==> node.code == Some("57014") || node.code == Some("25P03")
    ensures IsUnavailable(node) <==>
            || (node.code.Some? && UnavailableCode(node.code.value))
            || (node.message.Some? && ToLowerCase(node.message.value) in ACQUIRE_TIMEOUT_MESSAGES)
  {
    if node.code.Some? && "08" <= node.code.value {
      assert node.code.value == "08" + node.code.value[2..];
    }
  }

  ghost predicate UnavailableCode(code: string) {
    || (exists rest: string :: code == "08" + rest)
    || code == "53300" || code == "57P01" || code == "57P02" || code == "57P03" || code == "57P04"
    || code == "ECONNREFUSED" || code == "ECONNRESET" || code == "EHOSTUNREACH" || code == "ENETUNREACH"
    || code == "EPIPE" || code == "ETIMEDOUT"
  }
}
