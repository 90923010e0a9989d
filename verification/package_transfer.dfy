/** Sending a package: the update manager reads the file in pieces and drives the package manager
  through the proxy.

  However short the reads are and whatever the network does, the package manager sees a numbered
  stream whose blocks put together are a beginning of the file, and the whole file on success. */
module PackageTransfer {
  import opened WireCodec
  import opened PackageCalls
  import opened PackageManagement

  const CHUNK: nat := 65536

  /** What `read` returns when it is asked for a chunk: a failure, 0 at the end of the file, or as many
    bytes as it pleases between one and what there is. */
  function ReadCount(pleased: int, remaining: nat): int {
    if pleased < 0 then -1
    else if remaining == 0 then 0
    else
      var most := if remaining < CHUNK then remaining else CHUNK;
      if pleased == 0 then 1 else if pleased < most then pleased else most
  }

  function Concat(blocks: seq<Bytes>): Bytes {
    if blocks == [] then [] else Concat(blocks[..|blocks| - 1]) + blocks[|blocks| - 1]
  }

  /** The calls that carry `blocks`; the counter starts at 1 and has 32 bits. */
  function DataCalls(id: U32, blocks: seq<Bytes>): seq<Call> {
    if blocks == [] then []
    else DataCalls(id, blocks[..|blocks| - 1]) + [TransferData(id, blocks[|blocks| - 1], |blocks| % 0x1_0000_0000)]
  }

  /** Block `k` is numbered `k + 1`, for as long as the counter does not wrap. */
  lemma {:induction false} NumberedInOrder(id: U32, blocks: seq<Bytes>, k: nat)
    requires k < |blocks|
    ensures |DataCalls(id, blocks)| == |blocks|
    ensures DataCalls(id, blocks)[k] == TransferData(id, blocks[k], (k + 1) % 0x1_0000_0000)
    ensures |blocks| < 0x1_0000_0000 ==> DataCalls(id, blocks)[k].counter == k + 1
    decreases |blocks|
  {
    var front := blocks[..|blocks| - 1];
    if front != [] { NumberedInOrder(id, front, if k < |front| then k else 0); }
  }

  predicate Chunks(blocks: seq<Bytes>) {
    forall k | 0 <= k < |blocks| :: 0 < |blocks[k]| <= CHUNK
  }

  lemma OneMore(id: U32, blocks: seq<Bytes>, block: Bytes)
    ensures Concat(blocks + [block]) == Concat(blocks) + block
    ensures DataCalls(id, blocks + [block])
            == DataCalls(id, blocks) + [TransferData(id, block, (|blocks| + 1) % 0x1_0000_0000)]
    ensures Chunks(blocks) && 0 < |block| <= CHUNK ==> Chunks(blocks + [block])
  {
    assert (blocks + [block])[..|blocks|] == blocks;
  }

  lemma GrownCalls(calls: seq<Call>, data: seq<Call>, call: Call)
    ensures calls + (data + [call]) == (calls + data) + [call]
  {
  }

  lemma Piece(file: Bytes, position: nat, n: nat)
    requires position + n <= |file|
    ensures file[..position] + file[position..position + n] == file[..position + n]
  {
  }

  /** The state once `data` has been added to the transfer. */
  function Grown(u: Ucm, id: U32, data: Bytes): Ucm {
    u.(accumulated := u.accumulated[id := Accumulated(u, id) + data])
  }

  lemma GrownAgain(u: Ucm, id: U32, a: Bytes, b: Bytes)
    ensures Grown(Grown(u, id, a), id, b) == Grown(u, id, a + b)
    ensures id in u.accumulated ==> Grown(u, id, []) == u
  {
    Regroup(Accumulated(u, id), a, b);
    if id in u.accumulated {
      assert u.accumulated[id] + [] == u.accumulated[id];
      assert u.accumulated[id := u.accumulated[id]] == u.accumulated;
    }
  }

  /** One block through the proxy, for a transfer that is open. */
  method SendBlock(proxy: Proxy, id: U32, block: Bytes, counter: U32, link: Link) returns (ok: bool)
    requires proxy.inFlight == [] && id in proxy.skeleton.manager.pending && |block| <= CHUNK
    modifies proxy, proxy.skeleton.manager
    ensures ok == (link.arrives && link.Answered()) && (ok ==> proxy.inFlight == [])
    ensures var manager := proxy.skeleton.manager;
            if link.arrives then
              manager.Now() == Grown(old(manager.Now()), id, block)
                && manager.calls == old(manager.calls) + [TransferData(id, block, counter)]
            else manager.Now() == old(manager.Now()) && manager.calls == old(manager.calls)
  {
    var r := proxy.TransferData(id, block, counter, link);
    ok := r.Value?;
  }

  /** The loop over the file. */
  method SendFile(proxy: Proxy, id: U32, file: Bytes, sizes: nat -> int, links: nat -> Link)
      returns (ok: bool, sent: nat, ghost blocks: seq<Bytes>)
    requires proxy.inFlight == []
    requires id in proxy.skeleton.manager.pending && id in proxy.skeleton.manager.accumulated
    modifies proxy, proxy.skeleton.manager
    ensures var manager := proxy.skeleton.manager;
            && manager.calls == old(manager.calls) + DataCalls(id, blocks)
            && manager.Now() == Grown(old(manager.Now()), id, Concat(blocks))
    ensures Chunks(blocks) && Concat(blocks) <= file
    ensures ok ==> Concat(blocks) == file && sent == |blocks| && proxy.inFlight == []
    ensures (forall k: nat :: sizes(k) >= 0 && links(k).arrives && links(k).Answered()) ==> ok
  {
    hide Concat, DataCalls, Chunks, Grown;
    ghost var manager := proxy.skeleton.manager;
    var position, counter := 0, 1;
    sent, blocks := 0, [];
    Started(manager.Now(), id, manager.calls, file);
    while true
      invariant position <= |file| && sent == |blocks| && counter == (sent + 1) % 0x1_0000_0000
      invariant manager.calls == old(manager.calls) + DataCalls(id, blocks)
      invariant manager.Now() == Grown(old(manager.Now()), id, Concat(blocks))
      invariant Chunks(blocks) && Concat(blocks) == file[..position]
      invariant id in manager.pending && proxy.inFlight == []
      decreases |file| - position
    {
      var n := ReadCount(sizes(sent), |file| - position);
      if n < 0 {
        ok := false;
        return;
      }
      if n == 0 {
        break;
      }
      var chunk := file[position..position + n];
      OneMore(id, blocks, chunk);
      Piece(file, position, n);
      GrownCalls(old(manager.calls), DataCalls(id, blocks), TransferData(id, chunk, counter));
      GrownAgain(old(manager.Now()), id, Concat(blocks), chunk);
      StillOpen(old(manager.Now()), id, Concat(blocks) + chunk);
      var through := SendBlock(proxy, id, chunk, counter, links(sent));
      if links(sent).arrives {
        blocks := blocks + [chunk];
      }
      if !through {
        ok := false;
        return;
      }
      position := position + n;
      counter := (counter + 1) % 0x1_0000_0000;
      sent := sent + 1;
    }
    assert file[..position] == file;
    ok := true;
  }

  lemma StillOpen(u: Ucm, id: U32, data: Bytes)
    ensures Grown(u, id, data).pending == u.pending
  {
  }

  lemma Started(u: Ucm, id: U32, calls: seq<Call>, file: Bytes)
    requires id in u.accumulated
    ensures calls + DataCalls(id, []) == calls && Concat([]) == file[..0] && Chunks([]) && Grown(u, id, Concat([])) == u
  {
    GrownAgain(u, id, [], []);
  }

  function Closing(id: U32, installRoot: Bytes, manifestPath: Bytes): (r: seq<Call>)
    ensures |r| == 3
  {
    [Call.TransferExit(id), Call.ProcessSwPackage(id), Call.Activate(installRoot, manifestPath)]
  }

  /** What the package manager has seen: nothing, or the start, the blocks of a beginning of the file in
    order, and, only after the whole file, some of the closing calls in order. */
  predicate Sent(
      seen: seq<Call>, info: PackageInfo, file: Bytes, installRoot: Bytes, manifestPath: Bytes, id: U32,
        blocks: seq<Bytes>, closed: nat)
  {
    && closed <= 3 && Chunks(blocks) && Concat(blocks) <= file && (closed > 0 ==> Concat(blocks) == file)
    && (seen == [] || seen
         == [Call.TransferStart(info)] + DataCalls(id, blocks) + Closing(id, installRoot, manifestPath)[..closed])
  }

  /** Everything works: all sizes, both ways of the network, the storage, the extraction, the activation. */
  ghost predicate NothingFails(sizes: nat -> int, links: nat -> Link) {
    forall k: nat :: sizes(k) >= 0 && links(k).arrives && links(k).Answered() && WorldWorks(links(k).world)
  }

  predicate WorldWorks(world: World) {
    world.found && world.written && world.extracted.Some? && world.extracted.value != [] && world.activated
  }

  /** The three calls after the last block; `closed` of them reach the package manager. */
  method Close(proxy: Proxy, id: U32, installRoot: Bytes, manifestPath: Bytes, links: nat -> Link, made: nat)
      returns (code: int, ghost closed: nat)
    requires proxy.inFlight == [] && id in proxy.skeleton.manager.pending
    requires |installRoot| < 0x10000 && |manifestPath| < 0x10000
    modifies proxy, proxy.skeleton.manager
    ensures closed <= 3 && (code == 0 ==> closed == 3)
    ensures proxy.skeleton.manager.calls
            == old(proxy.skeleton.manager.calls) + Closing(id, installRoot, manifestPath)[..closed]
    ensures code == 0
            ==> Installed(proxy.skeleton.manager.Now(), old(proxy.skeleton.manager.Now()), id,
              proxy.skeleton.manager.hasStorage)
    ensures NothingFailsFrom(links, made) && Closable(old(proxy.skeleton.manager.Now()), id) ==> code == 0
  {
    hide After, Reply, ReceivedFrom, Heard, Left, Queue, Installed, Closable, WorldWorks, NothingFailsFrom;
    ghost var manager := proxy.skeleton.manager;
    ghost var calls, before := manager.calls, manager.Now();
    ghost var call0, call1, call2 :=
        Call.TransferExit(id), Call.ProcessSwPackage(id), Call.Activate(installRoot, manifestPath);
    ghost var root, hasStorage := manager.root, manager.hasStorage;
    ghost var works := NothingFailsFrom(links, made) && Closable(before, id);
    ghost var r0 := After(before, call0, root, hasStorage, links(made).world);
    ghost var r1 := After(r0.0, call1, root, hasStorage, links(made + 1).world);
    ghost var r2 := After(r1.0, call2, root, hasStorage, links(made + 2).world);
    if works { ClosingSucceeds(before, id, installRoot, manifestPath, root, hasStorage, links, made); }
    ClosingInstalls(before, id, installRoot, manifestPath, root, hasStorage, links, made);
    FirstCalls(calls, call0, call1, call2);
    closed := 0;
    var exit := proxy.TransferExit(id, links(made));
    if links(made).arrives { closed := 1; }
    if !exit.Value? {
      return 1, closed;
    }
    assert manager.Now() == r0.0;
    var process := proxy.ProcessSwPackage(id, links(made + 1));
    if links(made + 1).arrives { closed := 2; }
    if !process.Value? {
      return 1, closed;
    }
    assert manager.Now() == r1.0;
    var activate := proxy.Activate(installRoot, manifestPath, links(made + 2));
    if links(made + 2).arrives { closed := 3; }
    if !activate.Value? {
      return 1, closed;
    }
    code := 0;
  }

  lemma FirstCalls(calls: seq<Call>, a: Call, b: Call, c: Call)
    ensures calls + [a, b, c][..0] == calls && calls + [a, b, c][..1] == calls + [a]
    ensures calls + [a, b, c][..2] == calls + [a] + [b] && calls + [a, b, c][..3] == calls + [a] + [b] + [c]
  {
  }

  lemma ClosingInstalls(
      u: Ucm, id: U32, installRoot: Bytes, manifestPath: Bytes, root: Bytes, hasStorage: bool, links: nat -> Link,
        made: nat)
    requires id in u.pending
    ensures var r0 := After(u, Call.TransferExit(id), root, hasStorage, links(made).world);
            var r1 := After(r0.0, Call.ProcessSwPackage(id), root, hasStorage, links(made + 1).world);
            var r2 := After(r1.0, Call.Activate(installRoot, manifestPath), root, hasStorage, links(made + 2).world);
            !r0.1.Failed? && !r1.1.Failed? && !r2.1.Failed? ==> Installed(r2.0, u, id, hasStorage)
  {
  }

  lemma ClosingSucceeds(
      u: Ucm, id: U32, installRoot: Bytes, manifestPath: Bytes, root: Bytes, hasStorage: bool, links: nat -> Link,
        made: nat)
    requires NothingFailsFrom(links, made) && Closable(u, id)
    ensures var r0 := After(u, Call.TransferExit(id), root, hasStorage, links(made).world);
            var r1 := After(r0.0, Call.ProcessSwPackage(id), root, hasStorage, links(made + 1).world);
            var r2 := After(r1.0, Call.Activate(installRoot, manifestPath), root, hasStorage, links(made + 2).world);
            !r0.1.Failed? && !r1.1.Failed? && !r2.1.Failed?
    ensures forall k | made <= k < made + 3 :: links(k).arrives && links(k).Answered()
  {
    assert WorldWorks(links(made).world) && WorldWorks(links(made + 1).world) && WorldWorks(links(made + 2).world);
  }

  /** The package was declared with its size and arrived whole, or is a file both sides see. */
  predicate Closable(u: Ucm, id: U32)
  {
    id in u.pending && if u.pending[id].size == 0 then u.pending[id].name != []
      else |Accumulated(u, id)| == u.pending[id].size
  }

  /** Activated, and what was stored under the package's name is what had been accumulated. */
  predicate Installed(now: Ucm, before: Ucm, id: U32, hasStorage: bool)
    requires id in before.pending
  {
    var info := before.pending[id];
    && now.state == Activated
    && (info.size > 0 ==> |Accumulated(before, id)| == info.size)
    && (info.size > 0 && hasStorage ==> now.stored == before.stored[info.name + SUFFIX := Accumulated(before, id)])
  }

  ghost predicate NothingFailsFrom(links: nat -> Link, made: nat) {
    forall k: nat | made <= k :: links(k).arrives && links(k).Answered() && WorldWorks(links(k).world)
  }

  /** Everything after a successful start. */
  method Deliver(
      proxy: Proxy, id: U32, file: Bytes, installRoot: Bytes, manifestPath: Bytes, sizes: nat -> int,
        links: nat -> Link)
      returns (code: int, ghost blocks: seq<Bytes>, ghost closed: nat)
    requires proxy.inFlight == [] && Fresh(proxy.skeleton.manager.Now(), id, file)
    requires |installRoot| < 0x10000 && |manifestPath| < 0x10000
    modifies proxy, proxy.skeleton.manager
    ensures closed <= 3 && Chunks(blocks) && Concat(blocks) <= file && (closed > 0 ==> Concat(blocks) == file)
    ensures proxy.skeleton.manager.calls ==
      old(proxy.skeleton.manager.calls) + DataCalls(id, blocks) + Closing(id, installRoot, manifestPath)[..closed]
    ensures code == 0 ==> closed == 3 && proxy.skeleton.manager.state == Activated
    ensures code == 0 && file != [] && proxy.skeleton.manager.hasStorage ==>
      proxy.skeleton.manager.stored
        == old(proxy.skeleton.manager.stored[proxy.skeleton.manager.pending[id].name + SUFFIX := file])
    ensures NothingFails(sizes, links) && (file == [] ==> old(proxy.skeleton.manager.pending[id].name) != [])
            ==> code == 0
  {
    hide Concat, DataCalls, Chunks, Grown, Installed, Closable, NothingFails, NothingFailsFrom, Closing;
    ghost var manager := proxy.skeleton.manager;
    ghost var calls, before, hasStorage := manager.calls, manager.Now(), manager.hasStorage;
    Arrived(before, id, file);
    var ok, sent;
    ok, sent, blocks := SendFile(proxy, id, file, sizes, links);
    closed := 0;
    NothingClosed(calls + DataCalls(id, blocks), Closing(id, installRoot, manifestPath));
    if NothingFails(sizes, links) { AlwaysWorks(sizes, links, sent); }
    if !ok {
      return 1, blocks, closed;
    }
    code, closed := Close(proxy, id, installRoot, manifestPath, links, sent);
    if code == 0 {
      InstalledFile(manager.Now(), Grown(before, id, file), id, hasStorage, file);
    }
  }

  lemma NothingClosed(calls: seq<Call>, closing: seq<Call>)
    ensures calls + closing[..0] == calls
  {
  }

  /** The transfer is open, for this much data, and nothing of it has come. */
  predicate Fresh(u: Ucm, id: U32, file: Bytes) {
    id in u.pending && Pending(u, id, u.pending[id], []) && u.pending[id].size == |file|
  }

  /** The workflow: start, the blocks of the file, exit, processing, activation. `links` tells what
    becomes of each call in turn, `sizes` what each `read` returns. */
  method Run(
      proxy: Proxy, name: Bytes, file: Bytes, installRoot: Bytes, manifestPath: Bytes,
      first: Link, sizes: nat -> int, links: nat -> Link)
      returns (code: int, ghost id: U32, ghost blocks: seq<Bytes>, ghost closed: nat)
    requires |name| < 0x10000 && |installRoot| < 0x10000 && |manifestPath| < 0x10000 && |file| < 0x1_0000_0000_0000_0000
    requires proxy.inFlight == []
    modifies proxy, proxy.skeleton.manager
    ensures old(proxy.skeleton.manager.calls) <= proxy.skeleton.manager.calls
    ensures Sent(proxy.skeleton.manager.calls[|old(proxy.skeleton.manager.calls)|..],
                 PackageInfo(name, VERSION, |file|), file, installRoot, manifestPath, id, blocks, closed)
    ensures code == 0 ==>
      && |proxy.skeleton.manager.calls| > |old(proxy.skeleton.manager.calls)| && closed == 3
         && proxy.skeleton.manager.state == Activated
    ensures code == 0 && file != [] && proxy.skeleton.manager.hasStorage ==>
      proxy.skeleton.manager.stored == old(proxy.skeleton.manager.stored)[name + SUFFIX := file]
    ensures (NothingFails(sizes, links) && first.arrives && first.Answered()
              && old(proxy.skeleton.manager.state) == Idle
             && (file == [] ==> name != [])) ==> code == 0
  {
    hide After, Reply, Concat, DataCalls, Chunks, NothingFails, Closing;
    ghost var manager := proxy.skeleton.manager;
    ghost var calls, before := manager.calls, manager.Now();
    var info := PackageInfo(name, VERSION, |file|);
    ghost var call := Call.TransferStart(info);
    id, blocks, closed := 0, [], 0;
    SentNothing(calls, call, file, id, installRoot, manifestPath);
    Opened(before, info, manager.root, manager.hasStorage, first.world);
    var start := proxy.TransferStart(info, first);
    if !start.Value? {
      return 1, id, blocks, closed;
    }
    id := start.answer.id;
    code, blocks, closed := Deliver(proxy, start.answer.id, file, installRoot, manifestPath, sizes, links);
    SentClosing(calls, call, id, blocks, Closing(id, installRoot, manifestPath)[..closed]);
  }

  lemma AlwaysWorks(sizes: nat -> int, links: nat -> Link, made: nat)
    requires NothingFails(sizes, links)
    ensures forall k: nat :: sizes(k) >= 0 && links(k).arrives && links(k).Answered()
    ensures NothingFailsFrom(links, made)
  {
  }

  /** What a started transfer is. */
  lemma Opened(u: Ucm, info: PackageInfo, root: Bytes, hasStorage: bool, world: World)
    ensures var r := After(u, Call.TransferStart(info), root, hasStorage, world);
            && (u.state == Idle ==> r.1.Started?)
            && (r.1.Started? ==> Pending(r.0, r.1.id, info, []) && r.0.stored == u.stored)
  {
  }

  predicate Pending(u: Ucm, id: U32, info: PackageInfo, data: Bytes) {
    id in u.pending && u.pending[id] == info && id in u.accumulated && u.accumulated[id] == data
  }

  lemma Arrived(u: Ucm, id: U32, file: Bytes)
    requires Fresh(u, id, file)
    ensures id in u.pending && id in u.accumulated
    ensures var grown := Grown(u, id, file);
            && Pending(grown, id, u.pending[id], file) && grown.pending == u.pending && u.pending[id].size == |file|
            && grown.stored == u.stored && ((file == [] ==> u.pending[id].name != []) ==> Closable(grown, id))
  {
  }

  lemma InstalledFile(now: Ucm, u: Ucm, id: U32, hasStorage: bool, file: Bytes)
    requires id in u.pending && Pending(u, id, u.pending[id], file) && Installed(now, u, id, hasStorage)
             && u.pending[id].size == |file|
    ensures now.state == Activated
    ensures file != [] && hasStorage ==> now.stored == u.stored[u.pending[id].name + SUFFIX := file]
  {
  }

  lemma SentNothing(calls: seq<Call>, call: Call, file: Bytes, id: U32, installRoot: Bytes, manifestPath: Bytes)
    ensures calls[|calls|..] == [] && Chunks([]) && Concat([]) <= file && Concat([]) == []
    ensures [call] + DataCalls(id, []) + Closing(id, installRoot, manifestPath)[..0] == [call]
    ensures (calls + [call])[|calls|..] == [call]
  {
  }

  lemma SentClosing(calls: seq<Call>, call: Call, id: U32, blocks: seq<Bytes>, closing: seq<Call>)
    ensures (calls + [call] + DataCalls(id, blocks) + closing)[|calls|..] == [call] + DataCalls(id, blocks) + closing
  {
    hide DataCalls;
  }

  const VERSION: Bytes := [49, 46, 48, 46, 48]  // "1.0.0"
}
