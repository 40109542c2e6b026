# motionEye MJPEG client, modelled in Dafny

motionEye keeps one persistent connection per local camera to the MJPEG stream
that the motion daemon serves on the camera's webcam port. It pulls JPEG
frames out of that multipart stream and keeps the newest frame per camera so
that snapshot and streaming handlers can read it synchronously. Connections
are created lazily, on the first `get_jpg` for a camera. They are closed on a
stream error, by the idle reaper when nobody asked for the camera for longer
than the timeout, or all at once by `close_all`.

The model has six modules:

- `ByteStrings`: bytes and the first-occurrence search done by a delimited
  read (`read_until`).
- `Decimal`: the first run of ASCII digits, which is what
  `re.findall('(\d+)', data)[0]` yields, and its value under `int(...)`.
- `FrameParser`: the chain of read callbacks as a pure state machine. A
  `Phase` says which read is pending. `Next` makes one step that completes a
  read and runs its callback. `Run` steps until no pending read can complete
  from the buffered bytes.
- `Clock`: the reaper's elapsed time. This is
  `delta.days * 86400 + delta.seconds` of a `timedelta`, with moments counted
  in microseconds.
- `MjpgClient`, class `Client`: one connection. It has a camera, a port, a
  pending read, a read buffer and the transport's error flag. Its methods are
  the callbacks, and `Pump` is the stream's read dispatch. `Pump` is proved to
  compute exactly `FrameParser.Run`.
- `MjpgClient`, class `Registry`: the three class-level dictionaries
  (`clients`, `last_jpgs`, `last_access`), with `get_jpg`, `close_all` and the
  garbage collector as its methods.

The main proved properties are:

- The marker and everything before it are dropped.
- The header chunk runs up to the blank line.
- The frame length is the first digit run, and a header without digits closes
  the connection.
- Exactly the announced number of bytes becomes the camera's newest frame,
  and the parse starts over.
- A pending error stops the parse at the next callback.
- Chunking of the incoming bytes does not matter.
- A well-formed stream of frames parses back into exactly those frames.
- `close` is idempotent and touches only `clients`.
- `get_jpg` returns None and changes nothing in its three refusal cases.
- The reaper closes a client exactly when its camera's last access is at least
  `timeout + 1` whole seconds old, and never closes a client whose camera was
  never accessed.
- `close_all` leaves no client registered.

`IdleTimeoutExample` walks through one idle-timeout scenario (timeout 60 s;
frame cached at 0 s; reaper run at 61 s; `get_jpg` afterwards).

Outside collaborators become parameters:

- `motionctl.running()` becomes `running`.
- `config.get_camera(camera_id)` becomes a `CameraConfig` value.
- `datetime.utcnow()` becomes `now`, in microseconds.
- `settings.MJPG_CLIENT_TIMEOUT` becomes `timeout`.
- The transport's error (`self.error`) becomes the `error` field, which the
  environment sets.

## Model

| member | source | states |
|---|---|---|
| ByteStrings.IndexOf | src/mjpgclient.py:87 | the index where a delimited read stops is an occurrence of the delimiter with no earlier occurrence; None exactly when the delimiter occurs nowhere in the buffer |
| ByteStrings.IndexOfExtends | src/mjpgclient.py:87 | once the delimiter is in the buffer, bytes arriving later do not move the point where the read stops |
| Decimal.FirstDigitRun | src/mjpgclient.py:99-100 | finds the first maximal run of digits (no digit before it, ends at a non-digit or the end); None exactly when the header holds no digit, the `not matches` case |
| Decimal.FirstDigitRunUnique | src/mjpgclient.py:99 | the first maximal digit run of a byte string is unique, so `matches[0]` is well defined |
| Decimal.ValueOfRender | src/mjpgclient.py:106 | `int` of the decimal rendering of n is n |
| Decimal.LeadingZero | src/mjpgclient.py:106 | a leading zero digit does not change the value `int` reads |
| FrameParser.DelimiterText | src/mjpgclient.py:87-93 | the byte constants are the text `Content-Length:` and `\r\n\r\n` |
| FrameParser.HeaderLength | src/mjpgclient.py:99-106 | the announced length is missing exactly when the header chunk has no digit |
| FrameParser.Next | src/mjpgclient.py:83-112 | one completed read: nothing fires while connecting or closed; the bytes left are never more than before, and strictly fewer after a marker or header read; a body read is never followed directly by another; a frame is stored exactly by the body read; a pending error always leads to Closed |
| FrameParser.Run | src/mjpgclient.py:83-112 | the parse loop ends where no pending read can complete, with no more bytes than it was given; a connecting or closed stream consumes nothing |
| FrameParser.NextLeavesSuffix | src/mjpgclient.py:87-108 | a completed read consumes the front of the buffer, so what it leaves is a suffix |
| FrameParser.RunLeavesSuffix | src/mjpgclient.py:83-112 | the bytes left after the parse loop are a suffix of the bytes it was given |
| FrameParser.RunChunked | src/mjpgclient.py:83-112 | parsing `a` and then, once `b` arrives, the rest, gives the same phase, leftover and frames as parsing `a + b` |
| FrameParser.StreamParsed | src/mjpgclient.py:83-112 | a stream of parts, each with its own marker-free text before the header and its own padding of the length (text, `Content-Length:`, padded decimal length, blank line, payload), parses with no error into exactly its payloads, in order, ending at the marker scan with no leftover bytes |
| FrameParser.MarkerStep | src/mjpgclient.py:87-93 | the marker read drops everything up to and including the first marker, whatever marker-free text precedes it, and then waits for the blank line |
| FrameParser.HeaderStep | src/mjpgclient.py:93-108 | a header chunk of padding, a rendered length n and the blank line is read up to the blank line and leads to a body read of exactly n bytes |
| FrameParser.BodyStep | src/mjpgclient.py:108-112 | a body read of the payload's length stores exactly the payload as the frame, leaves what follows it and restarts the marker read |
| FrameParser.HeaderChunkDecides | src/mjpgclient.py:95-108 | a complete header chunk closes the connection exactly when an error is pending or it has no digit, and otherwise leads to a body read of the first digit run's value |
| FrameParser.PendingErrorStops | src/mjpgclient.py:59-65 | with an error pending, the parse stops at the first callback (Closed) or does nothing; at most one frame is stored, and only by a pending body read, as the first `length` bytes |
| Clock.WholeSeconds | src/mjpgclient.py:125-126 | `days * 86400 + seconds` of the elapsed `timedelta` is the largest whole number of seconds not above the elapsed time |
| Clock.ExceedsIff | src/mjpgclient.py:125-128 | the test `delta > timeout` holds exactly when at least `timeout + 1` full seconds have elapsed |
| MjpgClient.CachedTwice | src/mjpgclient.py:111 | storing one list of frames and then another leaves the cache that storing them all in one go leaves |
| MjpgClient.ReceiveInChunks | src/mjpgclient.py:83-112 | how the transport splits the bytes changes neither the client's phase and buffer nor the frame cache |
| MjpgClient.LastFrameCached | src/mjpgclient.py:110-112 | after a well-formed stream of parts (text and padding may vary from part to part), the camera's cached frame is the payload of the last part and the parse waits for the next marker |
| MjpgClient.ExpiredIff | src/mjpgclient.py:119-128 | a client is due for closing exactly when its camera has an access moment at least `timeout + 1` whole seconds before now; never without an access moment |
| MjpgClient.Client.constructor | src/mjpgclient.py:35-40 | a new connection records its camera and port, is connecting, has an empty buffer and no error |
| MjpgClient.Client.Connect | src/mjpgclient.py:42-46 | the connection registers itself under its camera at once, replacing any entry |
| MjpgClient.Client.Close | src/mjpgclient.py:48-57 | removes the camera's registry entry if there is one (nothing else in the registry changes) and closes the stream |
| MjpgClient.Client.CloseTwice | src/mjpgclient.py:48-57 | closing twice has the effect of closing once |
| MjpgClient.Client.Error | src/mjpgclient.py:67-75 | an error closes the connection and unregisters it |
| MjpgClient.Client.CheckError | src/mjpgclient.py:59-65 | reports true exactly when an error is pending, and then has closed and unregistered; otherwise changes nothing |
| MjpgClient.Client.SeekContentLength | src/mjpgclient.py:83-87 | closes on a pending error, otherwise makes the marker read pending |
| MjpgClient.Client.OnBeforeContentLength | src/mjpgclient.py:89-93 | closes on a pending error, otherwise makes the header read pending |
| MjpgClient.Client.OnContentLength | src/mjpgclient.py:95-108 | closes on a pending error or a header without digits; otherwise makes a body read of the first digit run's value pending |
| MjpgClient.Client.OnJpg | src/mjpgclient.py:110-112 | stores the body as the camera's newest frame (even with an error pending), then closes on error or starts the next marker read |
| MjpgClient.Client.FireOnce | src/mjpgclient.py:83-112 | completes the pending read when the buffer allows and runs its callback, exactly as one `FrameParser.Next` step |
| MjpgClient.Client.Pump | src/mjpgclient.py:83-112 | the read dispatch ends in the phase and with the buffer of `FrameParser.Run`; the cache holds the last frame `Run` produced; the client is unregistered exactly when the run closed it |
| MjpgClient.Client.Receive | src/mjpgclient.py:83-112 | bytes arriving are appended to the buffer and parsed as `FrameParser.Run` from the current phase |
| MjpgClient.Client.OnConnect | src/mjpgclient.py:77-81 | on connect the marker read starts (or the connection closes on a pending error) and the buffered bytes are parsed |
| MjpgClient.Registry.constructor | src/mjpgclient.py:30-33 | the three dictionaries start empty |
| MjpgClient.Registry.GetJpg | src/mjpgclient.py:136-159 | returns None with nothing changed when the daemon is not running, or when no client exists and the camera is disabled or not `v4l2`; otherwise creates and registers a connecting client on the camera's port only if none exists, records `now` as the access moment, and returns the cached frame or None |
| MjpgClient.Registry.CloseAll | src/mjpgclient.py:162-164 | every registered client is closed and none stays registered |
| MjpgClient.Registry.CollectGarbage | src/mjpgclient.py:115-130 | the registered clients afterwards are exactly those not expired; each expired client is closed, every other client keeps its phase |

## Left out

- The socket, the TCP connect to `localhost`, the `GET / HTTP/1.0` request
  and all logging are left out. `Connect` only registers the client. The
  completed connect is the `OnConnect` call.
- The event loop is left out. This covers the reaper's rescheduling through
  `add_timeout` and its first run at import time. `CollectGarbage` is one run
  of the reaper.
- Tornado schedules read callbacks on the event loop rather than calling them
  at once. The model runs each callback as soon as its read completes, and it
  does not model interleaving with other connections.
- Tornado's read-buffer size limit is left out. So is the stream closing
  itself on a transport failure. A transport failure is only the `error` flag,
  which the next callback acts on.
- `_error` catches any exception from `close`. In the model `close` cannot
  fail, so the guard has nothing to do.
- `config.get_camera` returning no configuration, or one with missing keys, is
  not modelled.
- `timedelta` days are limited to ±999999999 in Python. The clock here is an
  unbounded integer.
- Python 2 `clients.values()` returns a copy, so closing while iterating is
  safe. `CloseAll` and `CollectGarbage` iterate over a snapshot in an
  arbitrary order. Both postconditions hold whatever the order.
- `close` deletes whatever entry is registered under its camera id. A stale
  client closed after a newer one registered for the same camera would
  therefore remove the newer entry. This is modelled as written. The registry
  itself only closes clients that are registered, and `Registry.Valid` keeps
  every registered client open.
- `last_access` and `last_jpgs` entries are never removed, in the source as in
  the model.
