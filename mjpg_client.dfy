/**
 * The MJPEG client: one connection per camera to the local MJPEG stream that
 * the motion daemon serves, the last frame and the last access moment per
 * camera, the idle reaper and the `get_jpg` / `close_all` entry points.
 *
 * The three class-level dictionaries of `MjpgClient` are the fields of one
 * `Registry` object; each connection is a `Client` object holding its camera,
 * its port, its pending read (`phase`), the stream's read buffer and the
 * transport's error flag. The socket, the event loop and the HTTP request are
 * not modelled: bytes reach a client through `Receive`, the completed connect
 * through `OnConnect`, and the transport records a failure by setting `error`.
 */
module MjpgClient {
  import opened Wrappers
  import opened ByteStrings
  import opened FrameParser
  import opened Clock

  type CameraId = int

  /** What the camera configuration store answers for a camera. */
  datatype CameraConfig = CameraConfig(enabled: bool, proto: string, webcamPort: int)

  /** Only enabled cameras captured locally (`@proto == 'v4l2'`) get a client. */
  predicate Streamable(camera: CameraConfig)
  {
    camera.enabled && camera.proto == "v4l2"
  }

  /** `d.get(id)`. */
  function Get<V>(d: map<CameraId, V>, id: CameraId): Option<V>
  {
    if id in d then Some(d[id]) else None
  }

  /** The frame cache after `frames` were stored for `id`, one after another. */
  function Cached(cache: map<CameraId, Bytes>, id: CameraId, frames: seq<Bytes>): map<CameraId, Bytes>
  {
    if frames == [] then cache else cache[id := frames[|frames| - 1]]
  }

  /** The reaper closes a client whose camera was last accessed too long ago. */
  predicate Expired(lastAccess: map<CameraId, Instant>, id: CameraId, now: Instant, timeout: int)
  {
    id in lastAccess && WholeSeconds(now - lastAccess[id]) > timeout
  }

  class Client {
    const registry: Registry
    const cameraId: CameraId
    const port: int
    var phase: Phase
    var buffer: Bytes
    var error: bool

    constructor (registry: Registry, cameraId: CameraId, port: int)
      ensures this.registry == registry && this.cameraId == cameraId && this.port == port
      ensures phase == Connecting && buffer == [] && !error
    {
      this.registry := registry;
      this.cameraId := cameraId;
      this.port := port;
      phase := Connecting;
      buffer := [];
      error := false;
    }

    /** `connect`: starts connecting and registers this client for its camera at once. */
    method Connect()
      requires registry.Valid() && phase == Connecting
      modifies registry`clients
      ensures registry.Valid()
      ensures registry.clients == old(registry.clients)[cameraId := this]
    {
      registry.clients := registry.clients[cameraId := this];
    }

    /**
     * `close`: removes the registry entry for this camera, if any, and closes
     * the stream. It touches no other table, and calling it again changes
     * nothing more.
     */
    method Close()
      requires registry.Valid()
      modifies this`phase, registry`clients
      ensures registry.Valid()
      ensures phase == Closed
      ensures registry.clients == old(registry.clients) - {cameraId}
    {
      registry.clients := registry.clients - {cameraId};
      phase := Closed;
    }

    /** Closing a second time removes nothing more: `close` is idempotent. */
    method CloseTwice()
      requires registry.Valid()
      modifies this`phase, registry`clients
      ensures registry.Valid()
      ensures phase == Closed
      ensures registry.clients == old(registry.clients) - {cameraId}
    {
      Close();
      ghost var once := registry.clients;
      Close();
      assert registry.clients == once;
    }

    /** `_error`: logs the error and closes. */
    method Error()
      requires registry.Valid()
      modifies this`phase, registry`clients
      ensures registry.Valid()
      ensures phase == Closed
      ensures registry.clients == old(registry.clients) - {cameraId}
    {
      Close();
    }

    /** `_check_error`: a pending transport error closes the client. */
    method CheckError() returns (failed: bool)
      requires registry.Valid()
      modifies this`phase, registry`clients
      ensures registry.Valid()
      ensures failed == error
      ensures failed ==> phase == Closed && registry.clients == old(registry.clients) - {cameraId}
      ensures !failed ==> phase == old(phase) && registry.clients == old(registry.clients)
    {
      if error {
        Error();
        return true;
      }
      return false;
    }

    /** `_seek_content_length`: unless an error is pending, waits for the marker. */
    method SeekContentLength()
      requires registry.Valid()
      modifies this`phase, registry`clients
      ensures registry.Valid()
      ensures phase == if error then Closed else AwaitMarker
      ensures registry.clients == if error then old(registry.clients) - {cameraId} else old(registry.clients)
    {
      var failed := CheckError();
      if failed {
        return;
      }
      phase := AwaitMarker;
    }

    /** `_on_before_content_length`: the marker was read; wait for the blank line. */
    method OnBeforeContentLength(data: Bytes)
      requires registry.Valid()
      modifies this`phase, registry`clients
      ensures registry.Valid()
      ensures phase == if error then Closed else AwaitHeaderEnd
      ensures registry.clients == if error then old(registry.clients) - {cameraId} else old(registry.clients)
    {
      var failed := CheckError();
      if failed {
        return;
      }
      phase := AwaitHeaderEnd;
    }

    /**
     * `_on_content_length`: the header chunk was read; its first run of digits
     * is the frame length, and a chunk without digits is an error.
     */
    method OnContentLength(data: Bytes)
      requires registry.Valid()
      modifies this`phase, registry`clients
      ensures registry.Valid()
      ensures phase == if error || HeaderLength(data).None? then Closed else AwaitBody(HeaderLength(data).value)
      ensures registry.clients
           == if phase == Closed then old(registry.clients) - {cameraId} else old(registry.clients)
    {
      var failed := CheckError();
      if failed {
        return;
      }
      match HeaderLength(data)
      case None =>
        Error();
      case Some(length) =>
        phase := AwaitBody(length);
    }

    /** `_on_jpg`: the body is this camera's newest frame; then look for the next one. */
    method OnJpg(data: Bytes)
      requires registry.Valid()
      modifies this`phase, registry`clients, registry`lastJpgs
      ensures registry.Valid()
      ensures registry.lastJpgs == old(registry.lastJpgs)[cameraId := data]
      ensures phase == if error then Closed else AwaitMarker
      ensures registry.clients == if error then old(registry.clients) - {cameraId} else old(registry.clients)
    {
      registry.lastJpgs := registry.lastJpgs[cameraId := data];
      SeekContentLength();
    }

    /**
     * The stream's read dispatch: while the pending read can complete from the
     * buffer, consume what it asks for and run its callback. The result is the
     * parser run `Run` from the phase and buffer on entry.
     */
    method Pump()
      requires registry.Valid()
      modifies this`phase, this`buffer, registry`clients, registry`lastJpgs
      ensures registry.Valid()
      ensures var o := Run(old(phase), old(buffer), error);
              && phase == o.phase && buffer == o.rest
              && registry.lastJpgs == Cached(old(registry.lastJpgs), cameraId, o.frames)
              && registry.clients
                 == if o.phase == Closed && old(phase) != Closed then old(registry.clients) - {cameraId}
                    else old(registry.clients)
    {
      ghost var total := Run(phase, buffer, error);
      ghost var phase0, cache0, clients0 := phase, registry.lastJpgs, registry.clients;
      ghost var emitted: seq<Bytes> := [];
      assert total == Prefixed(emitted, total);
      while true
        invariant Dispatched(total, emitted, phase0, cache0, clients0)
        decreases |buffer|, if phase.AwaitBody? then 1 else 0
      {
        var fired;
        fired, emitted := Advance(total, emitted, phase0, cache0, clients0);
        if !fired {
          break;
        }
      }
    }

    /**
     * Where the read dispatch stands: starting from phase `phase0`, frame
     * cache `cache0` and registry `clients0`, it has stored the frames
     * `emitted`, and the run from the current phase and buffer completes `total`.
     */
    ghost predicate Dispatched(total: Outcome, emitted: seq<Bytes>, phase0: Phase,
                               cache0: map<CameraId, Bytes>, clients0: map<CameraId, Client>)
      reads this, registry, registry.clients.Values
    {
      && registry.Valid()
      && total == Prefixed(emitted, Run(phase, buffer, error))
      && registry.lastJpgs == Cached(cache0, cameraId, emitted)
      && registry.clients == (if phase == Closed && phase0 != Closed then clients0 - {cameraId} else clients0)
      && (phase0 == Closed ==> phase == Closed)
    }

    /** One round of the read dispatch: fire the pending read if it can complete. */
    method Advance(ghost total: Outcome, ghost emitted: seq<Bytes>, ghost phase0: Phase,
                   ghost cache0: map<CameraId, Bytes>, ghost clients0: map<CameraId, Client>)
      returns (fired: bool, ghost emitted': seq<Bytes>)
      requires Dispatched(total, emitted, phase0, cache0, clients0)
      modifies this`phase, this`buffer, registry`clients, registry`lastJpgs
      ensures Dispatched(total, emitted', phase0, cache0, clients0)
      ensures fired ==> |buffer| < |old(buffer)| || (|buffer| == |old(buffer)| && old(phase).AwaitBody? && !phase.AwaitBody?)
      ensures !fired ==> total == Outcome(phase, buffer, emitted')
    {
      ghost var p, b := phase, buffer;
      ghost var step := Next(phase, buffer, error);
      fired := FireOnce();
      if !fired {
        RunBlocked(p, b, emitted, error);
        emitted' := emitted;
        return;
      }
      RunFiresPrefixed(emitted, p, b, error);
      CachedAppend(cache0, cameraId, emitted, step.frame);
      emitted' := emitted + FrameList(step.frame);
    }

    /** Completes the pending read if the buffer allows it, and runs its callback. */
    method FireOnce() returns (fired: bool)
      requires registry.Valid()
      modifies this`phase, this`buffer, registry`clients, registry`lastJpgs
      ensures registry.Valid()
      ensures var step := Next(old(phase), old(buffer), error);
              && fired == step.Fire?
              && (fired ==>
                    && phase == step.next && buffer == step.rest
                    && registry.lastJpgs == Store(old(registry.lastJpgs), cameraId, step.frame)
                    && registry.clients
                       == if step.next == Closed then old(registry.clients) - {cameraId} else old(registry.clients))
              && (!fired ==>
                    && phase == old(phase) && buffer == old(buffer)
                    && registry.lastJpgs == old(registry.lastJpgs)
                    && registry.clients == old(registry.clients))
    {
      match phase {
        case AwaitMarker =>
          var found := IndexOf(buffer, Marker);
          if found.None? {
            return false;
          }
          var chunk := buffer[..found.value + |Marker|];
          buffer := buffer[found.value + |Marker|..];
          OnBeforeContentLength(chunk);
        case AwaitHeaderEnd =>
          var found := IndexOf(buffer, HeaderEnd);
          if found.None? {
            return false;
          }
          var chunk := buffer[..found.value + |HeaderEnd|];
          buffer := buffer[found.value + |HeaderEnd|..];
          OnContentLength(chunk);
        case AwaitBody(length) =>
          if |buffer| < length {
            return false;
          }
          var chunk := buffer[..length];
          buffer := buffer[length..];
          OnJpg(chunk);
        case _ =>
          return false;
      }
      return true;
    }

    /** Bytes arrive from the transport; the parser runs on the whole buffer. */
    method Receive(data: Bytes)
      requires registry.Valid()
      modifies this`phase, this`buffer, registry`clients, registry`lastJpgs
      ensures registry.Valid()
      ensures var o := Run(old(phase), old(buffer) + data, error);
              && phase == o.phase && buffer == o.rest
              && registry.lastJpgs == Cached(old(registry.lastJpgs), cameraId, o.frames)
              && registry.clients
                 == if o.phase == Closed && old(phase) != Closed then old(registry.clients) - {cameraId}
                    else old(registry.clients)
    {
      buffer := buffer + data;
      Pump();
    }

    /**
     * `_on_connect`: the request is written (not modelled) and the marker scan
     * starts, at once on whatever is already buffered.
     */
    method OnConnect()
      requires registry.Valid() && phase == Connecting
      modifies this`phase, this`buffer, registry`clients, registry`lastJpgs
      ensures registry.Valid()
      ensures var o := Run(if error then Closed else AwaitMarker, old(buffer), error);
              && phase == o.phase && buffer == o.rest
              && registry.lastJpgs == Cached(old(registry.lastJpgs), cameraId, o.frames)
              && registry.clients
                 == if o.phase == Closed then old(registry.clients) - {cameraId} else old(registry.clients)
    {
      SeekContentLength();
      Pump();
    }
  }

  /** `Prefixed(e, o)` is `o` with the frames `e` stored before it. */
  function Prefixed(emitted: seq<Bytes>, o: Outcome): Outcome
  {
    Outcome(o.phase, o.rest, emitted + o.frames)
  }

  /** Firing one step moves its frame from the rest of the run into `emitted`. */
  lemma RunFiresPrefixed(emitted: seq<Bytes>, p: Phase, buf: Bytes, error: bool)
    requires Next(p, buf, error).Fire?
    ensures var step := Next(p, buf, error);
            Prefixed(emitted, Run(p, buf, error))
            == Prefixed(emitted + FrameList(step.frame), Run(step.next, step.rest, error))
  {
    var step := Next(p, buf, error);
    var after := Run(step.next, step.rest, error);
    RunFires(p, buf, error);
    ConcatAssoc(emitted, FrameList(step.frame), after.frames);
  }

  /** When no read can complete, the run has nothing more to add. */
  lemma RunBlocked(p: Phase, buf: Bytes, emitted: seq<Bytes>, error: bool)
    requires Next(p, buf, error).Blocked?
    ensures Prefixed(emitted, Run(p, buf, error)) == Outcome(p, buf, emitted)
  {
    assert emitted + [] == emitted;
  }

  /** The cache after storing `frame` for `id`, if there is one. */
  function Store(cache: map<CameraId, Bytes>, id: CameraId, frame: Option<Bytes>): map<CameraId, Bytes>
  {
    Cached(cache, id, FrameList(frame))
  }

  lemma CachedAppend(cache: map<CameraId, Bytes>, id: CameraId, emitted: seq<Bytes>, frame: Option<Bytes>)
    ensures Cached(cache, id, emitted + FrameList(frame)) == Store(Cached(cache, id, emitted), id, frame)
  {
    if frame.None? {
      assert emitted + FrameList(frame) == emitted;
    }
  }

  /** Storing two batches of frames in turn is storing them all at once. */
  lemma {:induction false} CachedTwice(cache: map<CameraId, Bytes>, id: CameraId, first: seq<Bytes>, second: seq<Bytes>)
    ensures Cached(Cached(cache, id, first), id, second) == Cached(cache, id, first + second)
  {
    if second == [] {
      assert first + second == first;
    } else {
      assert (first + second)[|first + second| - 1] == second[|second| - 1];
    }
  }

  /**
   * Chunk boundaries do not matter to a client: receiving `a` and then `b`
   * leaves the same phase, buffer and frame cache as receiving `a + b`.
   */
  lemma ReceiveInChunks(p: Phase, buf: Bytes, a: Bytes, b: Bytes, cache: map<CameraId, Bytes>, id: CameraId, error: bool)
    ensures var once := Run(p, buf + (a + b), error);
            var o1 := Run(p, buf + a, error);
            var o2 := Run(o1.phase, o1.rest + b, error);
            && o2.phase == once.phase && o2.rest == once.rest
            && Cached(Cached(cache, id, o1.frames), id, o2.frames) == Cached(cache, id, once.frames)
  {
    ConcatAssoc(buf, a, b);
    RunChunked(p, buf + a, b, error);
    var o1 := Run(p, buf + a, error);
    var o2 := Run(o1.phase, o1.rest + b, error);
    CachedTwice(cache, id, o1.frames, o2.frames);
  }

  /**
   * A client that reads a well-formed stream from the marker scan, with no
   * error pending, ends with the last payload of the stream as its camera's
   * frame, whatever was cached before.
   */
  lemma LastFrameCached(cache: map<CameraId, Bytes>, id: CameraId, ps: seq<PartSpec>)
    requires forall i :: 0 <= i < |ps| ==> Absent(ps[i].boundary, Marker)
    requires ps != []
    ensures var o := Run(AwaitMarker, Stream(ps), false);
            && o.phase == AwaitMarker && o.rest == []
            && id in Cached(cache, id, o.frames)
            && Cached(cache, id, o.frames)[id] == ps[|ps| - 1].payload
  {
    StreamParsed(ps);
  }

  /**
   * The reaper's test in plain terms: a client is closed exactly when its
   * camera has an access moment at least `timeout + 1` full seconds old.
   */
  lemma ExpiredIff(lastAccess: map<CameraId, Instant>, id: CameraId, now: Instant, timeout: int)
    ensures Expired(lastAccess, id, now, timeout)
        <==> id in lastAccess && now - lastAccess[id] >= (timeout + 1) * MicrosPerSecond
  {
    if id in lastAccess {
      ExceedsIff(now - lastAccess[id], timeout);
    }
  }

  class Registry {
    /** `MjpgClient.clients`: the live connection per camera. */
    var clients: map<CameraId, Client>
    /** `MjpgClient.last_jpgs`: the newest frame per camera. */
    var lastJpgs: map<CameraId, Bytes>
    /** `MjpgClient.last_access`: when `get_jpg` last asked for each camera. */
    var lastAccess: map<CameraId, Instant>

    /**
     * Every registered client belongs to this registry, is filed under its own
     * camera (so there is at most one per camera) and is not closed.
     */
    ghost predicate Valid()
      reads this, clients.Values
    {
      forall id | id in clients ::
        && clients[id].registry == this
        && clients[id].cameraId == id
        && clients[id].phase != Closed
    }

    constructor ()
      ensures Valid()
      ensures clients == map[] && lastJpgs == map[] && lastAccess == map[]
    {
      clients := map[];
      lastJpgs := map[];
      lastAccess := map[];
    }

    /**
     * `get_jpg`: the newest frame of a camera, starting its client on first
     * use. `running` is the daemon check, `camera` the configuration of the
     * camera and `now` the clock.
     */
    method GetJpg(cameraId: CameraId, running: bool, camera: CameraConfig, now: Instant) returns (jpg: Option<Bytes>)
      requires Valid()
      modifies this`clients, this`lastAccess
      ensures Valid()
      ensures !running || (cameraId !in old(clients) && !Streamable(camera)) ==>
                jpg == None && clients == old(clients) && lastAccess == old(lastAccess)
      ensures running && (cameraId in old(clients) || Streamable(camera)) ==>
                && lastAccess == old(lastAccess)[cameraId := now]
                && jpg == Get(lastJpgs, cameraId)
                && cameraId in clients
      ensures running && cameraId in old(clients) ==> clients == old(clients)
      ensures running && cameraId !in old(clients) && Streamable(camera) ==>
                && cameraId in clients
                && fresh(clients[cameraId])
                && clients[cameraId].port == camera.webcamPort
                && clients[cameraId].phase == Connecting
                && clients[cameraId].buffer == [] && !clients[cameraId].error
                && clients == old(clients)[cameraId := clients[cameraId]]
    {
      if !running {
        return None;
      }
      if cameraId !in clients {
        if !camera.enabled || camera.proto != "v4l2" {
          return None;
        }
        var client := new Client(this, cameraId, camera.webcamPort);
        client.Connect();
      }
      lastAccess := lastAccess[cameraId := now];
      return Get(lastJpgs, cameraId);
    }

    /** `close_all`: closes every registered client. */
    method CloseAll()
      requires Valid()
      modifies this`clients, clients.Values`phase
      ensures Valid()
      ensures clients == map[]
      ensures forall c | c in old(clients).Values :: c.phase == Closed
    {
      var snapshot := clients;
      var pending := snapshot.Values;
      while pending != {}
        invariant pending <= snapshot.Values
        invariant Valid()
        invariant forall id | id in snapshot :: snapshot[id].registry == this && snapshot[id].cameraId == id
        invariant clients == map id | id in snapshot && snapshot[id] in pending :: snapshot[id]
        invariant forall c | c in snapshot.Values && c !in pending :: c.phase == Closed
        decreases pending
      {
        var client :| client in pending;
        client.Close();
        pending := pending - {client};
      }
    }

    /**
     * `_garbage_collector`, one pass: closes each registered client whose
     * camera was accessed more than `timeout` whole seconds before `now`; a
     * client whose camera was never accessed is left alone.
     */
    method CollectGarbage(now: Instant, timeout: int)
      requires Valid()
      modifies this`clients, clients.Values`phase
      ensures Valid()
      ensures clients == map id | id in old(clients) && !Expired(lastAccess, id, now, timeout) :: old(clients)[id]
      ensures forall id | id in old(clients) ::
                old(clients)[id].phase == if Expired(lastAccess, id, now, timeout) then Closed else old(clients[id].phase)
    {
      var snapshot := clients;
      var pending := snapshot.Values;
      while pending != {}
        invariant pending <= snapshot.Values
        invariant Valid()
        invariant forall id | id in snapshot :: snapshot[id].registry == this && snapshot[id].cameraId == id
        invariant clients
               == map id | id in snapshot && (snapshot[id] in pending || !Expired(lastAccess, id, now, timeout)) :: snapshot[id]
        invariant forall id | id in snapshot ::
                    snapshot[id].phase
                    == if snapshot[id] !in pending && Expired(lastAccess, id, now, timeout) then Closed
                       else old(snapshot[id].phase)
        decreases pending
      {
        var client :| client in pending;
        var id := client.cameraId;
        var access := Get(lastAccess, id);
        if access.Some? {
          var delta := WholeSeconds(now - access.value);
          if delta > timeout {
            client.Close();
          }
        }
        pending := pending - {client};
      }
    }
  }

  /**
   * The idle-timeout example: the timeout is 60 s and camera 1 caches `frame`
   * at time 0; nobody asks for it until 61 s, so the reaper closes its client;
   * `get_jpg` at 61 s still returns `frame` and starts a fresh client.
   */
  method IdleTimeoutExample(frame: Bytes)
  {
    var registry := new Registry();
    var camera := CameraConfig(true, "v4l2", 8081);
    var jpg := registry.GetJpg(1, true, camera, 0);
    assert jpg == None;
    var client := registry.clients[1];
    assert Run(AwaitMarker, [], false) == Outcome(AwaitMarker, [], []) by {
      assert IndexOf([], Marker) == None;
    }
    client.OnConnect();
    assert client.phase == AwaitMarker && client.buffer == [];
    assert registry.lastJpgs == map[] && registry.lastAccess == map[1 := 0];
    var parts := [PartSpec([], 0, frame)];
    var stream := Stream(parts);
    var o := Run(AwaitMarker, stream, false);
    assert o.phase == AwaitMarker && o.rest == [] && Cached(registry.lastJpgs, 1, o.frames) == registry.lastJpgs[1 := frame] by {
      assert Absent([], Marker) by {
        forall i: nat ensures !OccursAt([], Marker, i) {}
      }
      LastFrameCached(registry.lastJpgs, 1, parts);
    }
    assert [] + stream == stream;
    client.Receive(stream);
    assert registry.clients == map[1 := client];
    assert registry.lastJpgs == map[1 := frame];
    IdleTimeoutReap(registry, client, camera, frame);
  }

  /** The second half of the idle-timeout example, from 61 s on. */
  method IdleTimeoutReap(registry: Registry, client: Client, camera: CameraConfig, frame: Bytes)
    requires registry.Valid() && client.registry == registry && Streamable(camera)
    requires registry.clients == map[1 := client]
    requires registry.lastJpgs == map[1 := frame] && registry.lastAccess == map[1 := 0]
    modifies registry, client
  {
    assert Expired(registry.lastAccess, 1, 61 * MicrosPerSecond, 60) by {
      ExpiredIff(registry.lastAccess, 1, 61 * MicrosPerSecond, 60);
    }
    registry.CollectGarbage(61 * MicrosPerSecond, 60);
    assert registry.clients == map[];
    assert client.phase == Closed;
    assert registry.lastJpgs == map[1 := frame];

    var jpg := registry.GetJpg(1, true, camera, 61 * MicrosPerSecond);
    assert jpg == Some(frame);
    assert registry.clients[1] != client;
  }
}
