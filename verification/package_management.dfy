/** The package manager, the skeleton that serves it and the proxy that calls it.

  Through the codec and the network, a call has the effect and the result of calling the package
  manager directly, or the caller is told that there was no answer. */
module PackageManagement {
  import opened WireCodec
  import opened PackageCalls

  // ------------------------------------------------------------------ the package manager

  datatype State = Idle | Transferring | Processing | Activating | Activated

  function StateCode(state: State): Byte {
    match state
    case Idle => 0
    case Transferring => 1
    case Processing => 2
    case Activating => 3
    case Activated => 4
  }

  const SUFFIX: Bytes := [46, 115, 119, 112, 107, 103, 46, 116, 97, 114, 46, 103, 122]  // ".swpkg.tar.gz"

  /** What the package manager keeps. `stored` is its file storage by file name. */
  datatype Ucm = Ucm(
    state: State, nextId: U32, pending: map<U32, PackageInfo>, accumulated: map<U32, Bytes>,
    staged: Bytes, binary: Bytes, stored: map<Bytes, Bytes>)

  datatype Option<+T> = None | Some(value: T)

  /** What the file system and the storage answer during one call: whether the named file exists and the
    package could be written, the binary name found in the extracted package if it could be extracted
    and read, whether every activation step worked, and the registry's clusters. */
  datatype World = World(
    found: bool, written: bool, extracted: Option<Bytes>, activated: bool, clusters: seq<PackageInfo>)

  /** One call on the package manager. */
  function After(u: Ucm, call: Call, root: Bytes, hasStorage: bool, world: World): (r: (Ucm, Answer))
    ensures Suits(call, r.1)
    ensures r.1.Failed? ==> 0 < r.1.code < 8
  {
    match call
    case TransferStart(info) =>
      if u.state != Idle then (u, Failed(7))
      else (u.(state := Transferring, nextId := (u.nextId + 1) % 0x1_0000_0000, pending := u.pending[u.nextId := info],
               accumulated := u.accumulated[u.nextId := []]), Started(u.nextId))
    case TransferData(id, block, _) =>
      if id !in u.pending then (u, Failed(1))
      else (u.(accumulated := u.accumulated[id := Accumulated(u, id) + block]), Done)
    case TransferExit(id) =>
      if id !in u.pending then (u, Failed(1))
      else Exit(u, id, root, hasStorage, world)
    case ProcessSwPackage(id) =>
      if id !in u.pending then (u, Failed(1))
      else if u.staged == [] then (u, Failed(3))
      else (
        match world.extracted
        case None => (u.(state := Idle), Failed(3))
        case Some(binary) => if binary == [] then (u.(state := Idle, binary := []), Failed(3))
          else (u.(state := Processing, binary := binary), Done))
    case Activate(_, _) =>
      if u.binary == [] then (u, Failed(4))
      else if world.activated then (u.(state := Activated), Done) else (u.(state := Idle), Failed(4))
    case GetSwClusterInfo => (u, Clusters(world.clusters))
    case GetCurrentStatus => (u, Status(StateCode(u.state)))
  }

  function Accumulated(u: Ucm, id: U32): Bytes {
    if id in u.accumulated then u.accumulated[id] else []
  }

  /** A package of declared size 0 is a file both sides see; any other must have arrived whole. */
  function Exit(u: Ucm, id: U32, root: Bytes, hasStorage: bool, world: World): (r: (Ucm, Answer))
    requires id in u.pending
    ensures r.1 == Done || r.1 == Failed(2) || r.1 == Failed(6)
  {
    var info, data := u.pending[id], Accumulated(u, id);
    var seen := u.(accumulated := u.accumulated[id := data]);
    if info.size == 0 then
      if world.found then (u.(staged := info.name), Done) else (u, Failed(2))
    else if |data| != info.size then (seen, Failed(2))
    else
      var name := info.name + SUFFIX;
      if !hasStorage then (seen.(staged := root + [47] + name), Done)
      else if world.written then (seen.(staged := root + [47] + name, stored := u.stored[name := data]), Done)
      else (seen, Failed(6))
  }

  class PackageManager {
    const root: Bytes
    const hasStorage: bool
    var state: State
    var nextId: U32
    var pending: map<U32, PackageInfo>
    var accumulated: map<U32, Bytes>
    var staged: Bytes
    var binary: Bytes
    var stored: map<Bytes, Bytes>
    ghost var calls: seq<Call>

    constructor (root: Bytes, hasStorage: bool)
      ensures this.root == root && this.hasStorage == hasStorage && calls == []
      ensures Now() == Ucm(Idle, 1, map[], map[], [], [], map[])
    {
      this.root, this.hasStorage := root, hasStorage;
      state, nextId, pending, accumulated, staged, binary, stored := Idle, 1, map[], map[], [], [], map[];
      calls := [];
    }

    ghost function Now(): Ucm
      reads this
    {
      Ucm(state, nextId, pending, accumulated, staged, binary, stored)
    }

    /** Everything a call leaves: the new state, the answer and the record of the call. */
    twostate predicate Took(call: Call, world: World, answer: Answer)
      reads this
    {
      (Now(), answer) == After(old(Now()), call, root, hasStorage, world) && calls == old(calls) + [call]
    }

    method TransferStart(info: PackageInfo, world: World) returns (answer: Answer)
      modifies this
      ensures Took(Call.TransferStart(info), world, answer)
    {
      calls := calls + [Call.TransferStart(info)];
      if state != Idle {
        return Failed(7);
      }
      var id := nextId;
      nextId := (nextId + 1) % 0x1_0000_0000;
      pending := pending[id := info];
      accumulated := accumulated[id := []];
      state := Transferring;
      answer := Started(id);
    }

    method TransferData(id: U32, block: Bytes, counter: U32, world: World) returns (answer: Answer)
      modifies this
      ensures Took(Call.TransferData(id, block, counter), world, answer)
    {
      calls := calls + [Call.TransferData(id, block, counter)];
      if id !in pending {
        return Failed(1);
      }
      var data := if id in accumulated then accumulated[id] else [];
      accumulated := accumulated[id := data + block];
      answer := Done;
    }

    method TransferExit(id: U32, world: World) returns (answer: Answer)
      modifies this
      ensures Took(Call.TransferExit(id), world, answer)
    {
      calls := calls + [Call.TransferExit(id)];
      if id !in pending {
        return Failed(1);
      }
      var info := pending[id];
      if info.size == 0 {
        if !world.found {
          return Failed(2);
        }
        staged := info.name;
      } else {
        var data := if id in accumulated then accumulated[id] else [];
        accumulated := accumulated[id := data];
        if |data| != info.size {
          return Failed(2);
        }
        var name := info.name + SUFFIX;
        if hasStorage {
          if !world.written {
            return Failed(6);
          }
          stored := stored[name := data];
        }
        staged := root + [47] + name;
      }
      answer := Done;
    }

    method ProcessSwPackage(id: U32, world: World) returns (answer: Answer)
      modifies this
      ensures Took(Call.ProcessSwPackage(id), world, answer)
    {
      calls := calls + [Call.ProcessSwPackage(id)];
      if id !in pending {
        return Failed(1);
      }
      if staged == [] {
        return Failed(3);
      }
      state := Processing;
      if world.extracted.None? {
        state := Idle;
        return Failed(3);
      }
      binary := world.extracted.value;
      if binary == [] {
        state := Idle;
        return Failed(3);
      }
      answer := Done;
    }

    method Activate(installRoot: Bytes, manifestPath: Bytes, world: World) returns (answer: Answer)
      modifies this
      ensures Took(Call.Activate(installRoot, manifestPath), world, answer)
    {
      calls := calls + [Call.Activate(installRoot, manifestPath)];
      if binary == [] {
        return Failed(4);
      }
      state := Activating;
      if !world.activated {
        state := Idle;
        return Failed(4);
      }
      state := Activated;
      answer := Done;
    }

    method GetSwClusterInfo(world: World) returns (answer: Answer)
      modifies this
      ensures Took(Call.GetSwClusterInfo, world, answer)
    {
      calls := calls + [Call.GetSwClusterInfo];
      answer := Clusters(world.clusters);
    }

    method GetCurrentStatus(world: World) returns (answer: Answer)
      modifies this
      ensures Took(Call.GetCurrentStatus, world, answer)
    {
      calls := calls + [Call.GetCurrentStatus];
      answer := Status(StateCode(state));
    }
  }

  // ------------------------------------------------------------------ the skeleton

  /** What `catch (...)` answers. */
  function Caught(methodId: nat): Bytes {
    [if methodId == 5 then ACTIVATION_FAILED else PACKAGE_MALFORMED]
  }

  class Skeleton {
    const manager: PackageManager

    constructor (manager: PackageManager)
      ensures this.manager == manager
    {
      this.manager := manager;
    }

    /** A request that can be read is one call and its reply; one that cannot reaches no package manager. */
    twostate predicate Served(methodId: nat, request: Bytes, world: World, response: Bytes)
      requires 1 <= methodId <= 7
      reads manager
    {
      match ReadRequest(methodId, request)
      case Thrown => response == Caught(methodId) && manager.Now() == old(manager.Now())
        && manager.calls == old(manager.calls)
      case Unspecified => true
      case Got(call, _) =>
        var answer := After(old(manager.Now()), call, manager.root, manager.hasStorage, world).1;
        manager.Took(call, world, answer) && response == Reply(call, answer)
    }

    method HandleTransferStart(request: Bytes, world: World) returns (response: Bytes)
      requires !ReadRequest(1, request).Unspecified?
      modifies manager
      ensures Served(1, request, world, response)
    {
      hide BigEndian, After, ReadInfo;
      var info := ExtractInfo(request, 0);
      if info.Thrown? { return Caught(1); }
      var answer := manager.TransferStart(info.value, world);
      var message := new Message();
      if answer.Started? {
        message.AppendU8(OK);
        message.AppendU32(answer.id);
      } else {
        message.AppendU8(answer.code % 0x100);
      }
      response := message.bytes;
    }

    /** The status byte, which is all that four of the replies hold. */
    method StatusReply(answer: Answer) returns (response: Bytes)
      requires answer.Done? || answer.Failed?
      ensures response == [if answer.Done? then OK else answer.code % 0x100]
    {
      var message := new Message();
      message.AppendU8(if answer.Done? then OK else answer.code % 0x100);
      response := message.bytes;
    }

    method HandleTransferData(request: Bytes, world: World) returns (response: Bytes)
      requires !ReadRequest(2, request).Unspecified?
      modifies manager
      ensures Served(2, request, world, response)
    {
      hide After;
      var id := ExtractNumber(request, 0, 4);
      if id.Thrown? { return Caught(2); }
      var block := ExtractBytes(request, id.next);
      if block.Thrown? { return Caught(2); }
      var counter := ExtractNumber(request, block.next, 4);
      if counter.Thrown? { return Caught(2); }
      Widths();
      var answer := manager.TransferData(id.value, block.value, counter.value, world);
      response := StatusReply(answer);
    }

    method HandleTransferExit(request: Bytes, world: World) returns (response: Bytes)
      modifies manager
      ensures Served(3, request, world, response)
    {
      hide After;
      var id := ExtractNumber(request, 0, 4);
      if id.Thrown? { return Caught(3); }
      Widths();
      var answer := manager.TransferExit(id.value, world);
      response := StatusReply(answer);
    }

    method HandleProcessSwPackage(request: Bytes, world: World) returns (response: Bytes)
      modifies manager
      ensures Served(4, request, world, response)
    {
      hide After;
      var id := ExtractNumber(request, 0, 4);
      if id.Thrown? { return Caught(4); }
      Widths();
      var answer := manager.ProcessSwPackage(id.value, world);
      response := StatusReply(answer);
    }

    method HandleActivate(request: Bytes, world: World) returns (response: Bytes)
      requires !ReadRequest(5, request).Unspecified?
      modifies manager
      ensures Served(5, request, world, response)
    {
      hide After;
      var installRoot := ExtractString(request, 0);
      if installRoot.Thrown? { return Caught(5); }
      var manifestPath := ExtractString(request, installRoot.next);
      if manifestPath.Thrown? { return Caught(5); }
      var answer := manager.Activate(installRoot.value, manifestPath.value, world);
      response := StatusReply(answer);
    }

    method HandleGetSwClusterInfo(request: Bytes, world: World) returns (response: Bytes)
      modifies manager
      ensures Served(6, request, world, response)
    {
      var answer := manager.GetSwClusterInfo(world);
      response := ClustersReply(answer.clusters);
    }

    method ClustersReply(clusters: seq<PackageInfo>) returns (response: Bytes)
      ensures response == Reply(GetSwClusterInfo, Clusters(clusters))
    {
      hide BigEndian, Info;
      var message := new Message();
      message.AppendU8(OK);
      message.AppendU32(|clusters| % 0x1_0000_0000);
      SameDigits(4, |clusters|);
      ghost var head := message.bytes;
      assert head == [OK] + BigEndian(4, |clusters|);
      for i := 0 to |clusters|
        invariant message.bytes == head + Infos(clusters[..i])
      {
        InfosAppend(clusters[..i], clusters[i]);
        assert clusters[..i] + [clusters[i]] == clusters[..i + 1];
        AppendInfo(message, clusters[i]);
        Regroup(head, Infos(clusters[..i]), Info(clusters[i]));
      }
      assert clusters[..|clusters|] == clusters;
      Regroup([OK], BigEndian(4, |clusters|), Infos(clusters));
      response := message.bytes;
    }

    method HandleGetCurrentStatus(request: Bytes, world: World) returns (response: Bytes)
      modifies manager
      ensures Served(7, request, world, response)
    {
      var message := new Message();
      message.AppendU8(OK);
      var answer := manager.GetCurrentStatus(world);
      message.AppendU8(answer.state);
      assert [] + [OK] + [answer.state] == [OK, answer.state];
      response := message.bytes;
    }

    /** The server calls the handler registered for the method. */
    method Invoke(methodId: nat, request: Bytes, world: World) returns (response: Bytes)
      requires 1 <= methodId <= 7 && !ReadRequest(methodId, request).Unspecified?
      modifies manager
      ensures Served(methodId, request, world, response)
    {
      hide *;
      if methodId == 1 {
        response := HandleTransferStart(request, world);
      } else if methodId == 2 {
        response := HandleTransferData(request, world);
      } else if methodId == 3 {
        response := HandleTransferExit(request, world);
      } else if methodId == 4 {
        response := HandleProcessSwPackage(request, world);
      } else if methodId == 5 {
        response := HandleActivate(request, world);
      } else if methodId == 6 {
        response := HandleGetSwClusterInfo(request, world);
      } else {
        response := HandleGetCurrentStatus(request, world);
      }
    }
  }

  method ExtractInfo(v: Bytes, start: nat) returns (r: Read<PackageInfo>)
    ensures r == ReadInfo(v, start)
  {
    hide ReadSized, ReadNumber;
    Widths();
    var name := ExtractString(v, start);
    if name.Thrown? { return Thrown; }
    if name.Unspecified? { return Unspecified; }
    var version := ExtractString(v, name.next);
    if version.Thrown? { return Thrown; }
    if version.Unspecified? { return Unspecified; }
    var size := ExtractNumber(v, version.next, 8);
    if size.Thrown? { return Thrown; }
    r := Got(PackageInfo(name.value, version.value, size.value), size.next);
  }

  method AppendInfo(message: Message, info: PackageInfo)
    modifies message
    ensures message.bytes == old(message.bytes) + Info(info)
  {
    hide BigEndian, Sized;
    message.AppendString(info.name);
    message.AppendString(info.version);
    message.AppendU64(info.size);
    Regroup(Sized(2, info.name), Sized(2, info.version), BigEndian(8, info.size));
    Regroup(old(message.bytes), Sized(2, info.name), Sized(2, info.version));
    Regroup(old(message.bytes), Sized(2, info.name) + Sized(2, info.version), BigEndian(8, info.size));
  }

  lemma {:induction false} InfosAppend(a: seq<PackageInfo>, info: PackageInfo)
    ensures Infos(a + [info]) == Infos(a) + Info(info)
  {
    hide Info;
    if a == [] {
      assert [info][1..] == [] && a + [info] == [info];
    } else {
      assert (a + [info])[1..] == a[1..] + [info];
      InfosAppend(a[1..], info);
      Regroup(Info(a[0]), Infos(a[1..]), Info(info));
    }
  }

  // ------------------------------------------------------------------ the proxy

  /** What becomes of one call on its way: whether the request arrives, how many replies the poll that ends
    the wait hands over, if so many are under way, and whether the deadline has not passed by then. */
  datatype Link = Link(arrives: bool, polled: nat, inTime: bool, world: World) {

    /** The wait ends with a reply, if one is under way. */
    predicate Answered() {
      polled > 0 && inTime
    }
  }

  /** What is under way to the proxy during a call whose own reply is `own`. */
  function Queue<T>(underWay: seq<T>, link: Link, own: T): seq<T> {
    if link.arrives then underWay + [own] else underWay
  }

  function Polled<T>(queue: seq<T>, link: Link): (n: nat)
    ensures n <= |queue|
  {
    if link.polled < |queue| then link.polled else |queue|
  }

  /** Every reply handed over replaces the one before, so the caller gets the last one. */
  function Heard<T>(queue: seq<T>, link: Link): Option<T> {
    var n := Polled(queue, link);
    if n > 0 && link.inTime then Some(queue[n - 1]) else None
  }

  /** What is left for later calls. */
  function Left<T>(queue: seq<T>, link: Link): seq<T> {
    queue[Polled(queue, link)..]
  }

  class Proxy {
    const skeleton: Skeleton
    var lastResponse: Bytes
    var responseReady: bool
    /** Replies sent by the skeleton that the proxy has not received yet. */
    var inFlight: seq<Bytes>

    constructor (skeleton: Skeleton)
      ensures this.skeleton == skeleton && inFlight == []
    {
      this.skeleton := skeleton;
      lastResponse, responseReady, inFlight := [], false, [];
    }

    /** The call happened at the package manager, if it arrived. The caller has what the last reply handed
      over says, whichever call that is the reply to, or `kActivationFailed` for want of a reply. If no
      earlier reply was under way, that is the answer to this call. */
    twostate predicate CalledThrough(call: Call, link: Link, r: Received)
      reads this, skeleton.manager
    {
      var manager := skeleton.manager;
      var answer := After(old(manager.Now()), call, manager.root, manager.hasStorage, link.world).1;
      var queue := Queue(old(inFlight), link, Reply(call, answer));
      && (if link.arrives then manager.Took(call, link.world, answer)
          else manager.Now() == old(manager.Now()) && manager.calls == old(manager.calls))
      && r == ReceivedFrom(call, Heard(queue, link)) && inFlight == Left(queue, link)
      && (old(inFlight) == [] ==>
            && r == (if link.arrives && link.Answered() then Faithful(call, answer) else Error(ACTIVATION_FAILED))
            && (link.arrives && link.Answered() ==> inFlight == []))
    }

    /** `onReceive` and the handler, which is the same for every method: it keeps the last reply. */
    method Poll(most: nat)
      modifies this
      ensures var n := if most < |old(inFlight)| then most else |old(inFlight)|;
              && inFlight == old(inFlight)[n..] && responseReady == (old(responseReady) || n > 0)
              && lastResponse == if n > 0 then old(inFlight)[n - 1] else old(lastResponse)
    {
      ghost var queue := inFlight;
      var n := 0;
      while n < most && inFlight != []
        invariant n <= most && n <= |queue| && inFlight == queue[n..]
        invariant responseReady == (old(responseReady) || n > 0)
        invariant lastResponse == if n > 0 then queue[n - 1] else old(lastResponse)
      {
        lastResponse, inFlight := inFlight[0], inFlight[1..];
        responseReady := true;
        n := n + 1;
      }
    }

    method SendAndWait(methodId: nat, request: Bytes, link: Link)
      returns (ok: bool, response: Bytes, ghost reply: Bytes)
      requires 1 <= methodId <= 7 && !ReadRequest(methodId, request).Unspecified?
      modifies this, skeleton.manager
      ensures link.arrives ==> skeleton.Served(methodId, request, link.world, reply)
      ensures !link.arrives ==> skeleton.manager.Now() == old(skeleton.manager.Now())
      ensures !link.arrives ==> skeleton.manager.calls == old(skeleton.manager.calls)
      ensures Heard(Queue(old(inFlight), link, reply), link) == (if ok then Some(response) else None)
      ensures inFlight == Left(Queue(old(inFlight), link, reply), link)
    {
      hide After, ReadRequest, Reply, Caught;
      responseReady := false;
      lastResponse := [];
      response, reply := [], [];
      if link.arrives {
        var sent := skeleton.Invoke(methodId, request, link.world);
        inFlight := inFlight + [sent];
        reply := sent;
      }
      assert inFlight == Queue(old(inFlight), link, reply);
      Poll(link.polled);
      ok := responseReady && link.inTime;
      if ok {
        response := lastResponse;
      }
    }

    /** Sending the bytes of a call and reading the reply is making the call. */
    method Exchange(call: Call, request: Bytes, link: Link) returns (r: Received)
      requires request == Request(call) && Fits(call)
      requires call.GetSwClusterInfo? ==> AnswerFits(call, Clusters(link.world.clusters))
      modifies this, skeleton.manager
      ensures CalledThrough(call, link, r)
    {
      hide Request, Reply, ReadRequest, Fits, AnswerFits, ReadReply, Faithful;
      RequestReadBack(call);
      ghost var before := inFlight;
      var ok, response, reply := SendAndWait(MethodOf(call), request, link);
      if ok {
        r := Decode(call, response);
      } else {
        r := Error(ACTIVATION_FAILED);
      }
      ghost var answer :=
          After(old(skeleton.manager.Now()), call, skeleton.manager.root, skeleton.manager.hasStorage, link.world).1;
      AnswersFit(old(skeleton.manager.Now()), call, skeleton.manager.root, skeleton.manager.hasStorage, link.world);
      ReplyReadBack(call, answer);
    }

    /** What each of the proxy's methods does with a reply. */
    method Decode(call: Call, response: Bytes) returns (r: Received)
      ensures r == ReadReply(call, response)
    {
      if response == [] || (call.GetCurrentStatus? && |response| < 2) {
        return Error(ACTIVATION_FAILED);
      }
      var status := response[0];
      if status != OK {
        return Error(status);
      }
      match call
      case TransferStart(_) =>
        var id := ExtractNumber(response, 1, 4);
        if id.Thrown? { return Escaped; }
        Widths();
        r := Value(Started(id.value), id.next);
      case GetSwClusterInfo => r := DecodeClusters(response);
      case GetCurrentStatus => r := Value(Status(response[1]), 2);
      case TransferData(_, _, _) => r := Value(Done, 1);
      case TransferExit(_) => r := Value(Done, 1);
      case ProcessSwPackage(_) => r := Value(Done, 1);
      case Activate(_, _) => r := Value(Done, 1);
    }

    method DecodeClusters(response: Bytes) returns (r: Received)
      requires response != [] && response[0] == OK
      ensures r == ReadReply(Call.GetSwClusterInfo, response)
    {
      hide ReadInfo, ReadInfos, ReadNumber, Prepended;
      var count := ExtractNumber(response, 1, 4);
      if count.Thrown? { return Escaped; }
      var clusters, offset := [], count.next;
      NothingPrepended(ReadInfos(response, offset, count.value));
      for i := 0 to count.value
        invariant ReadInfos(response, count.next, count.value)
                  == Prepended(clusters, ReadInfos(response, offset, count.value - i))
      {
        PrependOne(response, clusters, offset, count.value - i);
        var info := ExtractInfo(response, offset);
        if info.Thrown? { return Escaped; }
        if info.Unspecified? { return Meaningless; }
        clusters := clusters + [info.value];
        offset := info.next;
      }
      AllPrepended(response, clusters, offset);
      r := Value(Clusters(clusters), offset);
    }

    method TransferStart(info: PackageInfo, link: Link) returns (r: Received)
      requires InfoFits(info)
      modifies this, skeleton.manager
      ensures CalledThrough(Call.TransferStart(info), link, r)
    {
      hide After, Info;
      var message := new Message();
      AppendInfo(message, info);
      assert [] + Info(info) == Info(info);
      r := Exchange(Call.TransferStart(info), message.bytes, link);
    }

    method TransferData(id: U32, block: Bytes, counter: U32, link: Link) returns (r: Received)
      requires |block| < 0x1_0000_0000
      modifies this, skeleton.manager
      ensures CalledThrough(Call.TransferData(id, block, counter), link, r)
    {
      hide After, BigEndian, Sized;
      var message := new Message();
      message.AppendU32(id);
      message.AppendBytes(block);
      message.AppendU32(counter);
      assert [] + BigEndian(4, id) == BigEndian(4, id);
      Regroup(BigEndian(4, id), Sized(4, block), BigEndian(4, counter));
      r := Exchange(Call.TransferData(id, block, counter), message.bytes, link);
    }

    method TransferExit(id: U32, link: Link) returns (r: Received)
      modifies this, skeleton.manager
      ensures CalledThrough(Call.TransferExit(id), link, r)
    {
      hide After, BigEndian;
      var message := new Message();
      message.AppendU32(id);
      assert [] + BigEndian(4, id) == BigEndian(4, id);
      r := Exchange(Call.TransferExit(id), message.bytes, link);
    }

    method ProcessSwPackage(id: U32, link: Link) returns (r: Received)
      modifies this, skeleton.manager
      ensures CalledThrough(Call.ProcessSwPackage(id), link, r)
    {
      hide After, BigEndian;
      var message := new Message();
      message.AppendU32(id);
      assert [] + BigEndian(4, id) == BigEndian(4, id);
      r := Exchange(Call.ProcessSwPackage(id), message.bytes, link);
    }

    method Activate(installRoot: Bytes, manifestPath: Bytes, link: Link) returns (r: Received)
      requires |installRoot| < 0x10000 && |manifestPath| < 0x10000
      modifies this, skeleton.manager
      ensures CalledThrough(Call.Activate(installRoot, manifestPath), link, r)
    {
      hide After, Sized;
      var message := new Message();
      message.AppendString(installRoot);
      message.AppendString(manifestPath);
      assert [] + Sized(2, installRoot) == Sized(2, installRoot);
      r := Exchange(Call.Activate(installRoot, manifestPath), message.bytes, link);
    }

    method GetSwClusterInfo(link: Link) returns (r: Received)
      requires AnswerFits(Call.GetSwClusterInfo, Clusters(link.world.clusters))
      modifies this, skeleton.manager
      ensures CalledThrough(Call.GetSwClusterInfo, link, r)
    {
      hide After;
      r := Exchange(Call.GetSwClusterInfo, [], link);
    }

    method GetCurrentStatus(link: Link) returns (r: Received)
      modifies this, skeleton.manager
      ensures CalledThrough(Call.GetCurrentStatus, link, r)
    {
      hide After;
      r := Exchange(Call.GetCurrentStatus, [], link);
    }
  }

  /** What the caller makes of what it has heard. */
  function ReceivedFrom(call: Call, reply: Option<Bytes>): Received {
    match reply
    case None => Error(ACTIVATION_FAILED)
    case Some(v) => ReadReply(call, v)
  }

  lemma AnswersFit(u: Ucm, call: Call, root: Bytes, hasStorage: bool, world: World)
    requires call.GetSwClusterInfo? ==> AnswerFits(call, Clusters(world.clusters))
    ensures AnswerFits(call, After(u, call, root, hasStorage, world).1)
  {
  }

  function Prepended(clusters: seq<PackageInfo>, r: Read<seq<PackageInfo>>): Read<seq<PackageInfo>> {
    match r
    case Got(rest, next) => Got(clusters + rest, next)
    case Thrown => Thrown
    case Unspecified => Unspecified
  }

  lemma NothingPrepended(r: Read<seq<PackageInfo>>)
    ensures Prepended([], r) == r
  {
    if r.Got? { assert [] + r.value == r.value; }
  }

  lemma AllPrepended(v: Bytes, clusters: seq<PackageInfo>, offset: nat)
    ensures Prepended(clusters, ReadInfos(v, offset, 0)) == Got(clusters, offset)
  {
    assert clusters + [] == clusters;
  }

  lemma PrependOne(v: Bytes, clusters: seq<PackageInfo>, offset: nat, count: nat)
    requires count > 0
    ensures Prepended(clusters, ReadInfos(v, offset, count)) == (
      match ReadInfo(v, offset)
      case Thrown => Thrown
      case Unspecified => Unspecified
      case Got(info, next) => Prepended(clusters + [info], ReadInfos(v, next, count - 1)))
  {
    hide ReadInfo;
    match ReadInfo(v, offset)
    case Thrown =>
    case Unspecified =>
    case Got(info, next) =>
      match ReadInfos(v, next, count - 1) {
        case Got(rest, end) => assert clusters + ([info] + rest) == clusters + [info] + rest;
        case Thrown =>
        case Unspecified =>
      }
  }
}
