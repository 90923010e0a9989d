/** The requests and replies of the package management service, as bytes and as what they mean.

  Requests are written by the proxy and read by the skeleton; replies go the other way. */
module PackageCalls {
  import opened WireCodec

  const OK: Byte := 0
  const PACKAGE_MALFORMED: Byte := 3
  const ACTIVATION_FAILED: Byte := 4

  datatype PackageInfo = PackageInfo(name: Bytes, version: Bytes, size: U64)

  datatype Call =
    | TransferStart(info: PackageInfo)
    | TransferData(id: U32, block: Bytes, counter: U32)
    | TransferExit(id: U32)
    | ProcessSwPackage(id: U32)
    | Activate(installRoot: Bytes, manifestPath: Bytes)
    | GetSwClusterInfo
    | GetCurrentStatus

  datatype Answer = Started(id: U32) | Done | Clusters(clusters: seq<PackageInfo>) | Status(state: Byte)
      | Failed(code: nat)

  function MethodOf(call: Call): nat {
    match call
    case TransferStart(_) => 1
    case TransferData(_, _, _) => 2
    case TransferExit(_) => 3
    case ProcessSwPackage(_) => 4
    case Activate(_, _) => 5
    case GetSwClusterInfo => 6
    case GetCurrentStatus => 7
  }

  // ------------------------------------------------------------------ requests

  function Info(info: PackageInfo): Bytes {
    Sized(2, info.name) + (Sized(2, info.version) + BigEndian(8, info.size))
  }

  function Request(call: Call): Bytes {
    match call
    case TransferStart(info) => Info(info)
    case TransferData(id, block, counter) => BigEndian(4, id) + (Sized(4, block) + BigEndian(4, counter))
    case TransferExit(id) => BigEndian(4, id)
    case ProcessSwPackage(id) => BigEndian(4, id)
    case Activate(installRoot, manifestPath) => Sized(2, installRoot) + Sized(2, manifestPath)
    case GetSwClusterInfo => []
    case GetCurrentStatus => []
  }

  function ReadInfo(v: Bytes, offset: nat): (r: Read<PackageInfo>)
    ensures r.Got? ==> InfoFits(r.value) && r.next <= |v|
  {
    Widths();
    match ReadSized(v, offset, 2)
    case Thrown => Thrown
    case Unspecified => Unspecified
    case Got(name, afterName) =>
      match ReadSized(v, afterName, 2)
      case Thrown => Thrown
      case Unspecified => Unspecified
      case Got(version, afterVersion) =>
        match ReadNumber(v, afterVersion, 8)
        case Thrown => Thrown
        case Unspecified => Unspecified
        case Got(size, next) => Got(PackageInfo(name, version, size), next)
  }

  function ReadData(v: Bytes): (r: Read<Call>)
    ensures r.Got? ==> r.value.TransferData? && |r.value.block| < 0x1_0000_0000
  {
    Widths();
    match ReadNumber(v, 0, 4)
    case Thrown => Thrown
    case Unspecified => Unspecified
    case Got(id, afterId) =>
      match ReadSized(v, afterId, 4)
      case Thrown => Thrown
      case Unspecified => Unspecified
      case Got(block, afterBlock) =>
        match ReadNumber(v, afterBlock, 4)
        case Thrown => Thrown
        case Unspecified => Unspecified
        case Got(counter, next) => Got(TransferData(id, block, counter), next)
  }

  function ReadActivate(v: Bytes): (r: Read<Call>)
    ensures r.Got? ==> r.value.Activate? && |r.value.installRoot| < 0x10000 && |r.value.manifestPath| < 0x10000
  {
    Widths();
    match ReadSized(v, 0, 2)
    case Thrown => Thrown
    case Unspecified => Unspecified
    case Got(installRoot, afterRoot) =>
      match ReadSized(v, afterRoot, 2)
      case Thrown => Thrown
      case Unspecified => Unspecified
      case Got(manifestPath, next) => Got(Activate(installRoot, manifestPath), next)
  }

  /** What the handler of `methodId` makes of a request. */
  function ReadRequest(methodId: nat, v: Bytes): (r: Read<Call>)
    requires 1 <= methodId <= 7
  {
    Widths();
    if methodId == 1 then
      match ReadInfo(v, 0)
      case Thrown => Thrown
      case Unspecified => Unspecified
      case Got(info, next) => Got(TransferStart(info), next)
    else if methodId == 2 then ReadData(v)
    else if methodId == 3 || methodId == 4 then
      match ReadNumber(v, 0, 4)
      case Thrown => Thrown
      case Unspecified => Unspecified
      case Got(id, next) => Got(if methodId == 3 then TransferExit(id) else ProcessSwPackage(id), next)
    else if methodId == 5 then ReadActivate(v)
    else Got(if methodId == 6 then GetSwClusterInfo else GetCurrentStatus, 0)
  }

  predicate InfoFits(info: PackageInfo) {
    |info.name| < 0x10000 && |info.version| < 0x10000
  }

  /** The lengths of the texts and the block of a call fit their length fields. */
  predicate Fits(call: Call) {
    match call
    case TransferStart(info) => InfoFits(info)
    case TransferData(_, block, _) => |block| < 0x1_0000_0000
    case TransferExit(_) => true
    case ProcessSwPackage(_) => true
    case Activate(installRoot, manifestPath) => |installRoot| < 0x10000 && |manifestPath| < 0x10000
    case GetSwClusterInfo => true
    case GetCurrentStatus => true
  }

  lemma InfoReadBack(v: Bytes, offset: nat, info: PackageInfo)
    requires At(v, offset, Info(info)) && InfoFits(info)
    ensures ReadInfo(v, offset) == Got(info, offset + |Info(info)|)
  {
    hide BigEndian, ReadNumber, ReadSized, At, Sized;
    Widths();
    var rest := Sized(2, info.version) + BigEndian(8, info.size);
    AtParts(v, offset, Sized(2, info.name), rest);
    AtParts(v, offset + |Sized(2, info.name)|, Sized(2, info.version), BigEndian(8, info.size));
    SizedReadBack(v, offset, 2, info.name);
    SizedReadBack(v, offset + |Sized(2, info.name)|, 2, info.version);
    NumberReadBack(v, offset + |Sized(2, info.name)| + |Sized(2, info.version)|, 8, info.size);
  }

  /** The skeleton reads back exactly the call the proxy wrote, using up every byte, if and only if the
    lengths fit. */
  lemma RequestReadBack(call: Call)
    ensures ReadRequest(MethodOf(call), Request(call)) == Got(call, |Request(call)|) <==> Fits(call)
  {
    hide BigEndian, ReadNumber, ReadSized, At, Sized, Info, ReadInfo, ReadData, ReadActivate;
    Widths();
    var v := Request(call);
    AtWhole(v);
    if Fits(call) {
      match call
      case TransferStart(info) => InfoReadBack(v, 0, info);
      case TransferData(id, block, counter) => DataReadBack(v, id, block, counter);
      case TransferExit(id) => NumberReadBack(v, 0, 4, id);
      case ProcessSwPackage(id) => NumberReadBack(v, 0, 4, id);
      case Activate(installRoot, manifestPath) => ActivateReadBack(v, installRoot, manifestPath);
      case GetSwClusterInfo =>
      case GetCurrentStatus =>
    }
  }

  lemma DataReadBack(v: Bytes, id: U32, block: Bytes, counter: U32)
    requires v == Request(TransferData(id, block, counter)) && |block| < 0x1_0000_0000
    ensures ReadData(v) == Got(TransferData(id, block, counter), |v|)
  {
    hide BigEndian, ReadNumber, ReadSized, At, Sized;
    Widths();
    AtWhole(v);
    AtParts(v, 0, BigEndian(4, id), Sized(4, block) + BigEndian(4, counter));
    AtParts(v, 4, Sized(4, block), BigEndian(4, counter));
    NumberReadBack(v, 0, 4, id);
    SizedReadBack(v, 4, 4, block);
    NumberReadBack(v, 8 + |block|, 4, counter);
  }

  lemma ActivateReadBack(v: Bytes, installRoot: Bytes, manifestPath: Bytes)
    requires v == Request(Activate(installRoot, manifestPath)) && |installRoot| < 0x10000 && |manifestPath| < 0x10000
    ensures ReadActivate(v) == Got(Activate(installRoot, manifestPath), |v|)
  {
    hide BigEndian, ReadNumber, ReadSized, At, Sized;
    Widths();
    AtWhole(v);
    AtParts(v, 0, Sized(2, installRoot), Sized(2, manifestPath));
    SizedReadBack(v, 0, 2, installRoot);
    SizedReadBack(v, 2 + |installRoot|, 2, manifestPath);
  }

  // ------------------------------------------------------------------ replies

  predicate Suits(call: Call, answer: Answer) {
    match answer
    case Started(_) => call.TransferStart?
    case Done => !call.TransferStart? && !call.GetSwClusterInfo? && !call.GetCurrentStatus?
    case Clusters(_) => call.GetSwClusterInfo?
    case Status(_) => call.GetCurrentStatus?
    case Failed(_) => !call.GetCurrentStatus?
  }

  function Infos(clusters: seq<PackageInfo>): Bytes {
    if clusters == [] then [] else Info(clusters[0]) + Infos(clusters[1..])
  }

  /** What the skeleton sends. An error is cut to one byte; a failed cluster query is sent as `OK` with
    nothing after it. */
  function Reply(call: Call, answer: Answer): Bytes
    requires Suits(call, answer)
  {
    match answer
    case Started(id) => [OK] + BigEndian(4, id)
    case Done => [OK]
    case Clusters(clusters) => [OK] + (BigEndian(4, |clusters|) + Infos(clusters))
    case Status(state) => [OK, state]
    case Failed(code) => [if call.GetSwClusterInfo? then OK else code % 0x100]
  }

  function ReadInfos(v: Bytes, offset: nat, count: nat): (r: Read<seq<PackageInfo>>)
    ensures r.Got? ==>
              && |r.value| == count && (forall i | 0 <= i < count :: InfoFits(r.value[i]))
              && (offset <= |v| ==> r.next <= |v|)
    decreases count
  {
    if count == 0 then Got([], offset)
    else
      match ReadInfo(v, offset)
      case Thrown => Thrown
      case Unspecified => Unspecified
      case Got(info, next) =>
        match ReadInfos(v, next, count - 1)
        case Thrown => Thrown
        case Unspecified => Unspecified
        case Got(rest, end) => Got([info] + rest, end)
  }

  /** What a caller of the proxy gets: the answer and where its decoding stopped, or the error of the
    service, or an exception that leaves the proxy. */
  datatype Received = Value(answer: Answer, used: nat) | Error(code: nat) | Escaped | Meaningless

  /** The proxy's reading of a reply; no reply and an empty one are `kActivationFailed`. */
  function ReadReply(call: Call, v: Bytes): Received {
    Widths();
    if v == [] || (call.GetCurrentStatus? && |v| < 2) then Error(ACTIVATION_FAILED)
    else if v[0] != OK then Error(v[0])
    else if call.TransferStart? then
      match ReadNumber(v, 1, 4)
      case Thrown => Escaped
      case Unspecified => Meaningless
      case Got(id, next) => Value(Started(id), next)
    else if call.GetSwClusterInfo? then
      match ReadNumber(v, 1, 4)
      case Thrown => Escaped
      case Unspecified => Meaningless
      case Got(count, next) =>
        match ReadInfos(v, next, count)
        case Thrown => Escaped
        case Unspecified => Meaningless
        case Got(clusters, end) => Value(Clusters(clusters), end)
    else if call.GetCurrentStatus? then Value(Status(v[1]), 2)
    else Value(Done, 1)
  }

  /** What the caller should get: the answer, read to the last byte, or the error. */
  function Faithful(call: Call, answer: Answer): Received
    requires Suits(call, answer)
  {
    match answer
    case Failed(code) => Error(code)
    case Started(_) => Value(answer, |Reply(call, answer)|)
    case Done => Value(answer, |Reply(call, answer)|)
    case Clusters(_) => Value(answer, |Reply(call, answer)|)
    case Status(_) => Value(answer, |Reply(call, answer)|)
  }

  /** Errors must fit a byte, must not look like `OK`, and cannot be those of a cluster query. */
  predicate AnswerFits(call: Call, answer: Answer) {
    match answer
    case Failed(code) => !call.GetSwClusterInfo? && 0 < code < 0x100
    case Clusters(clusters) => |clusters| < 0x1_0000_0000 && forall i | 0 <= i < |clusters| :: InfoFits(clusters[i])
    case Started(_) => true
    case Done => true
    case Status(_) => true
  }

  lemma {:induction false} InfosReadBack(v: Bytes, offset: nat, clusters: seq<PackageInfo>)
    requires At(v, offset, Infos(clusters)) && forall i | 0 <= i < |clusters| :: InfoFits(clusters[i])
    ensures ReadInfos(v, offset, |clusters|) == Got(clusters, offset + |Infos(clusters)|)
    decreases |clusters|
  {
    hide BigEndian, ReadInfo, At, Info;
    if clusters != [] {
      AtParts(v, offset, Info(clusters[0]), Infos(clusters[1..]));
      InfoReadBack(v, offset, clusters[0]);
      InfosReadBack(v, offset + |Info(clusters[0])|, clusters[1..]);
      assert [clusters[0]] + clusters[1..] == clusters;
    }
  }

  /** The caller of the proxy gets exactly the answer of the service, read to the last byte, if and only
    if it fits. */
  lemma ReplyReadBack(call: Call, answer: Answer)
    requires Suits(call, answer)
    ensures ReadReply(call, Reply(call, answer)) == Faithful(call, answer) <==> AnswerFits(call, answer)
  {
    hide BigEndian, ReadNumber, At, Infos, ReadInfos;
    Widths();
    var v := Reply(call, answer);
    match answer
    case Started(id) =>
      AtWhole(v);
      AtParts(v, 0, [OK], BigEndian(4, id));
      NumberReadBack(v, 1, 4, id);
    case Clusters(clusters) =>
      ClustersReadBack(clusters, v);
    case Done =>
    case Status(_) =>
    case Failed(code) =>
      if call.TransferStart? || call.GetSwClusterInfo? { TooShort(v); }
  }

  lemma TooShort(v: Bytes)
    requires |v| == 1
    ensures ReadNumber(v, 1, 4) == Thrown
  {
  }

  lemma ClustersReadBack(clusters: seq<PackageInfo>, v: Bytes)
    requires v == Reply(GetSwClusterInfo, Clusters(clusters))
    ensures ReadReply(GetSwClusterInfo, v) == Value(Clusters(clusters), |v|)
            <==> AnswerFits(GetSwClusterInfo, Clusters(clusters))
  {
    hide BigEndian, ReadNumber, At, Infos, ReadInfos;
    Widths();
    AtWhole(v);
    AtParts(v, 0, [OK], BigEndian(4, |clusters|) + Infos(clusters));
    AtParts(v, 1, BigEndian(4, |clusters|), Infos(clusters));
    NumberReadBack(v, 1, 4, |clusters|);
    if AnswerFits(GetSwClusterInfo, Clusters(clusters)) {
      InfosReadBack(v, 5, clusters);
    }
  }
}
