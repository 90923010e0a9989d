/** Any run of calls through one proxy, over a network that may lose requests and hold back replies.

  The proxy takes the next reply that comes for the answer to the call it waits for: all its handlers
  do the same, and a call that has given up leaves its reply under way. So the answers of a run belong
  to their calls if no call is answered after one that was not; and that is all a caller can rely on. */
module PackageAnswers {
  import opened WireCodec
  import opened PackageCalls
  import opened PackageManagement

  // ------------------------------------------------------------------ whose answer

  /** The calls among the first `n` whose replies are still under way. */
  function UnderWay(links: seq<Link>, n: nat): (q: seq<nat>)
    requires n <= |links|
    ensures forall i | 0 <= i < |q| :: q[i] < n
  {
    if n == 0 then [] else Left<nat>(Queue<nat>(UnderWay(links, n - 1), links[n - 1], n - 1), links[n - 1])
  }

  /** The call whose reply call `n` gets, if it gets one. */
  function AnswerOf(links: seq<Link>, n: nat): (r: Option<nat>)
    requires n < |links|
    ensures r.Some? ==> r.value <= n
  {
    Heard<nat>(Queue<nat>(UnderWay(links, n), links[n], n), links[n])
  }

  /** Every call that returns with an answer returns with its own. */
  predicate OwnAnswers(links: seq<Link>) {
    forall k | 0 <= k < |links| :: AnswerOf(links, k).Some? ==> AnswerOf(links, k) == Some(k)
  }

  /** What the caller sees: which calls return with an answer. */
  predicate Observed(links: seq<Link>, outcomes: seq<bool>) {
    |links| == |outcomes| && forall k | 0 <= k < |links| :: AnswerOf(links, k).Some? == outcomes[k]
  }

  predicate StopsAtFirstFailure(outcomes: seq<bool>) {
    forall j, k | 0 <= j < k < |outcomes| :: outcomes[k] ==> outcomes[j]
  }

  /** A call gets its own answer exactly when no reply stays behind. */
  lemma OwnIfNoneLeft(links: seq<Link>, n: nat)
    requires n < |links| && AnswerOf(links, n).Some?
    ensures AnswerOf(links, n) == Some(n) <==> links[n].arrives && UnderWay(links, n + 1) == []
  {
    var before, link := UnderWay(links, n), links[n];
    var queue := Queue<nat>(before, link, n);
    var i := Polled(queue, link) - 1;
    assert AnswerOf(links, n) == Some(queue[i]) && UnderWay(links, n + 1) == queue[i + 1..];
    assert queue[i] < n <==> i < |before|;
  }

  /** While every call is answered, nothing is under way between calls. */
  lemma {:induction false} NothingUnderWay(links: seq<Link>, n: nat)
    requires n <= |links| && forall k | 0 <= k < n :: AnswerOf(links, k).Some?
    ensures UnderWay(links, n) == []
  {
    if n > 0 {
      NothingUnderWay(links, n - 1);
      assert AnswerOf(links, n - 1).Some?;
    }
  }

  const NoWorld := World(false, false, None, false, [])

  /** Every request arrives, the replies of the unanswered calls are late, and one comes at a time. */
  function Late(outcomes: seq<bool>): (links: seq<Link>)
    ensures |links| == |outcomes|
    ensures forall k | 0 <= k < |links| :: links[k] == Link(true, if outcomes[k] then 1 else 0, true, NoWorld)
  {
    seq(|outcomes|, k requires 0 <= k < |outcomes| => Link(true, if outcomes[k] then 1 else 0, true, NoWorld))
  }

  lemma {:induction false} LateBehind(outcomes: seq<bool>, j: nat, n: nat)
    requires j < n <= |outcomes| && !outcomes[j]
    ensures UnderWay(Late(outcomes), n) != []
    decreases n
  {
    if j < n - 1 { LateBehind(outcomes, j, n - 1); }
  }

  lemma LateObserved(outcomes: seq<bool>)
    ensures Observed(Late(outcomes), outcomes)
  {
    hide UnderWay;
  }

  /** Whatever the network does, the answers belong to their calls, if and only if no call was answered
    after one that was not. */
  lemma OwnAnswersExact(outcomes: seq<bool>)
    ensures (forall links | Observed(links, outcomes) :: OwnAnswers(links)) <==> StopsAtFirstFailure(outcomes)
  {
    hide AnswerOf, UnderWay, Late, OwnAnswers, Observed;
    if StopsAtFirstFailure(outcomes) {
      forall links | Observed(links, outcomes) ensures OwnAnswers(links) { AnswersOwn(links, outcomes); }
    } else {
      var j, k :| 0 <= j < k < |outcomes| && outcomes[k] && !outcomes[j];
      LateObserved(outcomes);
      LateAnswers(outcomes, j, k);
    }
  }

  lemma AnswersOwn(links: seq<Link>, outcomes: seq<bool>)
    requires StopsAtFirstFailure(outcomes) && Observed(links, outcomes)
    ensures OwnAnswers(links)
  {
    forall k | 0 <= k < |links| && AnswerOf(links, k).Some? ensures AnswerOf(links, k) == Some(k) {
      NothingUnderWay(links, k);
    }
  }

  lemma LateAnswers(outcomes: seq<bool>, j: nat, k: nat)
    requires j < k < |outcomes| && outcomes[k] && !outcomes[j]
    ensures !OwnAnswers(Late(outcomes))
  {
    var links := Late(outcomes);
    LateBehind(outcomes, j, k);
    assert AnswerOf(links, k) == Some(UnderWay(links, k)[0]);
  }

  // ------------------------------------------------------------------ what the answers say

  /** The package manager at the beginning, the calls made and what becomes of each. */
  datatype Session = Session(u: Ucm, root: Bytes, hasStorage: bool, calls: seq<Call>, links: seq<Link>) {

    predicate Ok() {
      && |links| == |calls|
      && forall k | 0 <= k < |calls| :: CallFits(calls[k], links[k].world)
    }

    /** The package manager before call `n`. */
    function Before(n: nat): Ucm
      requires Ok() && n <= |calls|
    {
      if n == 0 then u
      else if links[n - 1].arrives then After(Before(n - 1), calls[n - 1], root, hasStorage, links[n - 1].world).0
      else Before(n - 1)
    }

    /** What the package manager answers to call `n`, if it arrives. */
    function Answered(n: nat): (answer: Answer)
      requires Ok() && n < |calls|
      ensures Suits(calls[n], answer)
    {
      After(Before(n), calls[n], root, hasStorage, links[n].world).1
    }

    function ReplyTo(n: nat): Bytes
      requires Ok() && n < |calls|
    {
      Reply(calls[n], Answered(n))
    }

    function Replies(q: seq<nat>): (r: seq<Bytes>)
      requires Ok() && forall i | 0 <= i < |q| :: q[i] < |calls|
      ensures |r| == |q| && forall i | 0 <= i < |q| :: r[i] == ReplyTo(q[i])
    {
      seq(|q|, i requires 0 <= i < |q| => ReplyTo(q[i]))
    }

    /** What call `n` returns: what the reply it gets says to it. */
    function Returned(n: nat): Received
      requires Ok() && n < |calls|
    {
      match AnswerOf(links, n)
      case None => Error(ACTIVATION_FAILED)
      case Some(j) => ReadReply(calls[n], ReplyTo(j))
    }
  }

  predicate CallFits(call: Call, world: World) {
    Fits(call) && (call.GetSwClusterInfo? ==> AnswerFits(call, Clusters(world.clusters)))
  }

  lemma RepliesMove(s: Session, q: seq<nat>, n: nat)
    requires s.Ok() && n < |s.calls| && forall i | 0 <= i < |q| :: q[i] < |s.calls|
    ensures var link := s.links[n];
            var queue, replies := Queue<nat>(q, link, n), Queue<Bytes>(s.Replies(q), link, s.ReplyTo(n));
            && Left(replies, link) == s.Replies(Left(queue, link))
            && (Heard(replies, link).Some? <==> Heard(queue, link).Some?)
            && (Heard(queue, link).Some? ==> Heard(replies, link).value == s.ReplyTo(Heard(queue, link).value))
  {
    var link := s.links[n];
    assert s.Replies(q + [n]) == s.Replies(q) + [s.ReplyTo(n)];
    assert Queue<Bytes>(s.Replies(q), link, s.ReplyTo(n)) == s.Replies(Queue<nat>(q, link, n));
  }

  /** If the answers belong to their calls, every call returns what the package manager answered to it, or
    that there was no answer. */
  lemma OwnAnswersFaithful(s: Session, n: nat)
    requires s.Ok() && n < |s.calls| && OwnAnswers(s.links)
    ensures s.Returned(n)
            == if AnswerOf(s.links, n).Some? then Faithful(s.calls[n], s.Answered(n)) else Error(ACTIVATION_FAILED)
  {
    hide UnderWay, ReadReply, Reply, Faithful, AnswerFits;
    AnswersFit(s.Before(n), s.calls[n], s.root, s.hasStorage, s.links[n].world);
    ReplyReadBack(s.calls[n], s.Answered(n));
  }

  /** A start whose reply is late, and a status query: the query returns `Idle`, which is the first byte of
    the transfer's number, while the package manager is transferring. */
  lemma LateStart(info: PackageInfo, root: Bytes)
    requires InfoFits(info)
    ensures var u := Ucm(Idle, 1, map[], map[], [], [], map[]);
            var s := Session(u, root, true, [TransferStart(info), GetCurrentStatus],
                             [Link(true, 0, true, NoWorld), Link(true, 1, true, NoWorld)]);
            s.Ok() && s.Answered(1) == Status(StateCode(Transferring))
              && s.Returned(1) == Value(Status(StateCode(Idle)), 2)
  {
    hide ReadReply, BigEndian, UnderWay, AnswerOf;
    var u := Ucm(Idle, 1, map[], map[], [], [], map[]);
    var s := Session(u, root, true, [TransferStart(info), GetCurrentStatus],
                     [Link(true, 0, true, NoWorld), Link(true, 1, true, NoWorld)]);
    assert s.Before(1) == After(s.Before(0), s.calls[0], root, true, NoWorld).0;
    StatusOfOne();
    SecondAnswer(s.links);
    assert s.ReplyTo(0) == [OK] + BigEndian(4, 1);
  }

  lemma StatusOfOne()
    ensures ReadReply(GetCurrentStatus, [OK] + BigEndian(4, 1)) == Value(Status(0), 2)
  {
    assert BigEndian(4, 1) == [0, 0, 0, 1];
  }

  lemma SecondAnswer(links: seq<Link>)
    requires |links| == 2 && links == [Link(true, 0, true, NoWorld), Link(true, 1, true, NoWorld)]
    ensures AnswerOf(links, 1) == Some(0)
  {
    assert UnderWay(links, 0) == [];
    assert UnderWay(links, 1) == [0];
  }

  /** A call through the proxy. */
  method CallOne(proxy: Proxy, call: Call, link: Link) returns (r: Received)
    requires CallFits(call, link.world)
    modifies proxy, proxy.skeleton.manager
    ensures proxy.CalledThrough(call, link, r)
  {
    hide *;
    FitsMeans(call, link.world);
    match call
    case TransferStart(info) => r := proxy.TransferStart(info, link);
    case TransferData(id, block, counter) => r := proxy.TransferData(id, block, counter, link);
    case TransferExit(id) => r := proxy.TransferExit(id, link);
    case ProcessSwPackage(id) => r := proxy.ProcessSwPackage(id, link);
    case Activate(installRoot, manifestPath) => r := proxy.Activate(installRoot, manifestPath, link);
    case GetSwClusterInfo => r := proxy.GetSwClusterInfo(link);
    case GetCurrentStatus => r := proxy.GetCurrentStatus(link);
  }

  lemma FitsMeans(call: Call, world: World)
    requires CallFits(call, world)
    ensures call.TransferStart? ==> InfoFits(call.info)
    ensures call.TransferData? ==> |call.block| < 0x1_0000_0000
    ensures call.Activate? ==> |call.installRoot| < 0x10000 && |call.manifestPath| < 0x10000
    ensures call.GetSwClusterInfo? ==> AnswerFits(call, Clusters(world.clusters))
  {
  }

  /** Any run of calls through a proxy that nothing is under way to. */
  method CallAll(proxy: Proxy, calls: seq<Call>, links: seq<Link>) returns (answers: seq<Received>, ghost s: Session)
    requires proxy.inFlight == [] && |links| == |calls|
    requires forall k | 0 <= k < |calls| :: CallFits(calls[k], links[k].world)
    modifies proxy, proxy.skeleton.manager
    ensures s == Session(old(proxy.skeleton.manager.Now()), proxy.skeleton.manager.root,
                         proxy.skeleton.manager.hasStorage, calls, links)
    ensures s.Ok() && proxy.skeleton.manager.Now() == s.Before(|calls|)
    ensures proxy.inFlight == s.Replies(UnderWay(links, |calls|))
    ensures |answers| == |calls| && forall k | 0 <= k < |calls| :: answers[k] == s.Returned(k)
  {
    hide After, ReadReply, Reply, Faithful, CallFits, Queue, Left, Heard;
    ghost var manager := proxy.skeleton.manager;
    s := Session(manager.Now(), manager.root, manager.hasStorage, calls, links);
    answers := [];
    for n := 0 to |calls|
      invariant |answers| == n && forall k | 0 <= k < n :: answers[k] == s.Returned(k)
      invariant manager.Now() == s.Before(n)
      invariant proxy.inFlight == s.Replies(UnderWay(links, n))
    {
      RepliesMove(s, UnderWay(links, n), n);
      assert UnderWay(links, n + 1) == Left<nat>(Queue<nat>(UnderWay(links, n), links[n], n), links[n]);
      var r := CallOne(proxy, calls[n], links[n]);
      answers := answers + [r];
    }
  }
}
