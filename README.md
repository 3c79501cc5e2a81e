# chatapp_rust in Dafny: broadcast server session and chat client

This project models the logic of a small WebSocket chat. Clients connect and give a display name. The server relays every frame it receives, unchanged, to every registered client, and it adds join and exit notices. The model has three parts:

* **The server's broadcast registry and session** (`src/server/handler.rs`). The shared `Vec<Tx>` becomes the class `Registry.Registry`. Its field `clients` is a sequence of `Handle` values. Each handle has an identity, an `open` flag (false once the receiving end has been dropped) and an `outbox` (everything queued into the handle so far). The class has four methods. Three of them stand for lock-held work in the source: `Register` (the `push` block), `Broadcast` (one lock-held loop that sends a clone into every handle and ignores failures) and `Deregister` (`retain`). The error path's single lock-held block (handler.rs:62-66), a `retain` followed by the exit-notice loop, is modelled as `Deregister` then `Broadcast`, called back to back with nothing in between. `DropReceiver` does not model a lock-held block: it stands for the session's receiver `rx` being dropped when `handle_connection` returns early at handler.rs:26. `Handler.HandleConnection` runs one whole session through these blocks, with its reader loop written as a `while` loop. It is proved equal to the pure function `Handler.Session`, and the lemmas state what that function delivers to every handle. `Handler.WriterLoop` is the writer task that drains an outbox.
* **The client's handling of inbound frames** (`src/client/connection.rs`). A text frame that starts and ends with `--` is stored whole as `("System", text)`. Any other text frame is cut at the first `": "`, or dropped when it has none. A name seen for the first time gets a colour. `Connection.ReadLoop` is the reader task, proved against the pure fold `Connection.Receive`.
* **The client's panels** (`src/client/app.rs`) become the class `App.ChatApp`. Its methods are `SendMessage` (input panel), `SendName` and `Connect` (welcome panel) and `Update` (the per-frame dispatch). `App.Render` gives the message panel's lines. The outbound channel is an `Option` of an `Outbound` value: the messages sent so far and a `closed` flag.

The module `Protocol` connects the two ends. The server's notices are stored by the client as system lines. A chat line a client sends comes back out of the classifier as the sender's name and message.

Decisions where the source is ambiguous:

* **The handle is registered before the handshake** (handler.rs:16-19), and a failed handshake returns without removing it (handler.rs:24-27). The model follows the code: a failed handshake leaves the pushed handle registered. When the session returns, its receiver `rx` is dropped. So the entry stays in the registry closed, every later broadcast skips it, and no notice is sent (`Handler.HandshakeFailureSilent`). Whether a client receives another client's join notice is decided by the join broadcast (handler.rs:33-38): a handle pushed before that block runs receives it, even if it was pushed after the other client's name arrived, and a handle pushed after that block does not (`Handler.AliceAndBob`, `Handler.LateJoiner`).
* **Every received frame is relayed, whatever its kind** (handler.rs:53-57). This includes a peer's `Close` frame: a client that closes gracefully has its `Close` queued to every open handle, and each writer task would forward it to its own client as a close frame (`Handler.CloseRelayed`). The model keeps this behaviour as written.
* **Handle identity.** The source compares handles by address (`std::ptr::eq`). This compare can never match, as described under Findings. The model gives each channel an identity from `Registry.nextId` and removes by identity, which is what the code evidently means.
* Each registry method is one atomic call on the registry object. Those calls are serialised, so the registry is a sequential state machine.

## Model

| member | source | states |
|---|---|---|
| `Registry.Registry.Register` | src/server/handler.rs:16-19 | Appends exactly one new open, empty handle with an identity not already registered; the existing entries stay unchanged and in order. |
| `Registry.Registry.Broadcast` | src/server/handler.rs:53-57 | The loop over the registry leaves it equal to `Delivered` of the old registry: every handle once, in place. |
| `Registry.DeliveredEffect` | src/server/handler.rs:34-37 | Broadcast appends the message unchanged to every open handle's outbox, skips closed ones without stopping, and changes no identity, open flag or length. |
| `Registry.RelayInOrder` | src/server/handler.rs:51-57 | After broadcasts of m1..mk, every open handle's outbox has exactly m1..mk appended in that order; closed handles are untouched. |
| `Registry.Registry.Deregister` | src/server/handler.rs:73-74 | `retain` by identity: the registry becomes `Removed(old registry, id)` and stays duplicate-free. |
| `Registry.RemovedMembers` | src/server/handler.rs:63 | An entry survives removal exactly when it was there and has another identity. |
| `Registry.RemovedOne` | src/server/handler.rs:63 | Removing the handle at position k drops exactly that entry; the others keep their relative order. |
| `Registry.RemovedAbsent` | src/server/handler.rs:73-74 | Removing an identity that is not registered leaves the registry unchanged. |
| `Registry.RemovedIdempotent` | src/server/handler.rs:73-74 | The final `retain` after the error path's `retain` changes nothing. |
| `Registry.RemovedDelivered` | src/server/handler.rs:62-66 | Removing then broadcasting gives the same registry as broadcasting then removing. |
| `Registry.Registry.DropReceiver` | src/server/handler.rs:24-27 | When a session returns before its writer task starts, its receiver is dropped: that handle becomes closed and nothing else changes. |
| `Handler.HandleConnection` | src/server/handler.rs:11-77 | The whole session leaves the registry equal to `Session(old registry, fresh id, upgraded, inbound)` and returns the path it took. |
| `Handler.ReaderLoop` | src/server/handler.rs:51-74 | The `while let` reader loop and the final `retain` leave the registry equal to `Reader` of the old registry, which drops the session's own handle; it returns whether the loop stopped on a read error, which happens exactly when the frames contain one. No two handles share an identity before or after. |
| `Handler.ReaderEffect` | src/server/handler.rs:51-74 | The reader loop plus the final removal equals broadcasting the frames received before the first error, then the exit notice exactly if there was an error, then one removal. |
| `Handler.SessionDelivers` | src/server/handler.rs:22-74 | After a successful handshake, every previously registered open handle receives the join notice, then every received frame verbatim and in order, then the exit notice exactly when the reader hit an error; the session's own handle is gone; nothing else changes. |
| `Handler.CloseRelayed` | src/server/handler.rs:53-57 | A peer's graceful `Close` frame is relayed like any other frame: every open handle registered before the session receives the join notice and then `Close`. |
| `Handler.SelfNotified` | src/server/handler.rs:32-37 | When the reader meets no error, the session ends with one `retain` of the registry holding the join notice and the relayed frames; in that registry the session's own handle has received exactly the join notice and then its own frames back. |
| `Handler.HandshakeFailureSilent` | src/server/handler.rs:16-27 | If the first item is not a received `Text` frame (stream end, error, other kind), nobody is sent anything; the only change is the session's handle, left registered, closed and empty. |
| `Handler.ExitSkipsLeaver` | src/server/handler.rs:59-67 | The exit notice goes to the remaining handles in their original order and never to the removed one. |
| `Handler.WriterLoop` | src/server/handler.rs:42-48 | The writer sends a prefix of its queue in FIFO order: every send before the stop succeeded, and it stops at the first failed send. |
| `Handler.AliceAndBob` | src/server/handler.rs:16-57 | Alice and Bob are both registered, then both join, then Alice sends "Alice: hi": both receive the two join notices and then the message, in that order. |
| `Handler.LateJoiner` | src/server/handler.rs:16-37 | A handle pushed after another session's join broadcast never receives that join notice. |
| `Handler.RetainAsWrittenKeepsAll` | src/server/handler.rs:80-82 | With `same_channel` as written (address equality between a vector slot and the local `tx`), `retain` keeps every handle. |
| `Handler.LeaverNotifiedAsWritten` | src/server/handler.rs:59-67 | As written, a lone session that hits a read error keeps its handle and sends its exit notice to itself; with removal by identity, nobody receives it. |
| `Connection.FindSeparator` | src/client/connection.rs:28 | Returns the first position holding `": "`, or none when the text holds none. |
| `Connection.ClassifySystem` | src/client/connection.rs:24-26 | A text that starts and ends with `--` becomes `("System", text)`, unchanged. |
| `Connection.ClassifyUser` | src/client/connection.rs:28-32 | Any other text is kept exactly when it contains `": "`. It is cut at the first occurrence: the name has no separator, and the message is the whole remainder. |
| `Connection.ClassifyRoundTrip` | src/client/connection.rs:28-32 | `name + ": " + msg` parses back to exactly `(name, msg)` when the name has no separator and the line is not system-shaped. |
| `Connection.SeparatorInNameMisparsed` | src/client/connection.rs:28-32 | For any name containing `": "`, in a line that is not system-shaped, the line is still kept as a chat line but cut at the name's first separator: it is attributed to the shorter part of the name before that separator, and the rest of the name, then `": "`, then the message, becomes the message. |
| `Connection.StepEffect` | src/client/connection.rs:22-39 | A frame appends at most one pair, at the end. A non-text, errored or unsplittable frame changes nothing. A system notice leaves the colours alone. An existing colour is never overwritten, and a new name gets the drawn colour. |
| `Connection.ReceiveEffect` | src/client/connection.rs:21-43 | Over a run of frames, the stored pairs grow by exactly the frames' pairs in order, at most one per frame. Existing colours never change, and the names that gain a colour are exactly the speakers. |
| `Connection.ReadLoop` | src/client/connection.rs:21-43 | The reader task's loop leaves messages and colours equal to `Receive` of the old ones, the frames and the drawn colours. |
| `Connection.Attach` | src/client/connection.rs:14-17 | Connecting gives the client a fresh, open and empty outbound channel. |
| `App.Render` | src/client/app.rs:118-125 | One line per stored pair, in order, reading `name + ": " + msg`, in the name's colour, or `WHITE` if the name has none. |
| `App.ChatApp.constructor` | src/client/app.rs:19-32 | Initially there is no name, no input, no messages, no sender, no colours, and the client is not connected. |
| `App.ChatApp.SendMessage` | src/client/app.rs:153-162 | With no sender or an empty input, nothing changes. Otherwise exactly one `Text(name + ": " + input)` is sent (a failed send is ignored and the sender kept) and the input is cleared. |
| `App.ChatApp.SendName` | src/client/app.rs:98-105 | The name is sent verbatim. If the send fails the sender becomes `None`. With no sender nothing changes. |
| `App.ChatApp.Connect` | src/client/app.rs:88-92 | Only a non-empty name sets `connected`, even without a sender, and then sends the name. |
| `App.ChatApp.Update` | src/client/app.rs:39-53 | The welcome panel is shown exactly while not connected. Otherwise the chat shows the rendered messages, and each event has the matching panel's effect. |
| `Protocol.NoticesStoredAsSystem` | src/client/connection.rs:24-26 | Whatever the name, the server's join and exit notices are system-shaped. The client stores them whole under "System" and does not touch its colours. |
| `Protocol.ChatLineRoundTrip` | src/client/app.rs:156 | A line sent by the input panel, relayed verbatim, is stored as the sender's name and message and drawn as the exact text sent, when the name has no separator and the line is not system-shaped. |

## Left out

- `src/server/main.rs` and `src/client/main.rs`: binding, accept loops, task spawning and the GUI bootstrap are I/O with no logic to verify.
- The WebSocket upgrade, `split()` and network reads and writes: the socket becomes the boolean `upgraded`, a sequence of inbound items (its end is end-of-stream) and, for the writer, a sequence saying whether each send is accepted.
- `Handler.HandleConnection`: runs one session as a straight-line sequence of registry calls, one per lock-held block (two back to back for the error path's block), plus `DropReceiver` at the early return (handler.rs:26). Other sessions' blocks interleaving with it are not modelled, apart from the concrete interleavings in `AliceAndBob` and `LateJoiner`. The writer task is a separate method and is not linked to the handle's outbox.
- The outbox of a handle accumulates every message queued to it. The writer's draining of it is modelled separately, in `Handler.WriterLoop`.
- `Handler.WriterLoop`: the client's writer task (connection.rs:46-52) has the same shape and is not modelled separately.
- An error from `ws_sender.close()` (handler.rs:25) or from the upgrade ends the session as an `Err` result. The model records only which path was taken, in `Outcome`.
- `Message::Close` has no close-frame payload here, and tungstenite's raw `Frame` variant is omitted, since the server relays every kind unchanged and the client drops all but `Text`.
- Random colours (`rand::thread_rng`) become parameters: the constructor's colour and the drawn colour per frame.
- egui layout, focus and repaint, and the `println!`/`eprintln!` logging.
- Tokio `Mutex`, `Arc` and `spawn`, and the client's `std::sync::Mutex`: each lock-held block is one atomic step (the error path's block is two registry calls with nothing in between).
- The raw address semantics of `std::ptr::eq` are captured only as far as the Findings row needs. A vector slot and a local variable are always distinct places.

## Findings

| source | as written | input that shows it | evidently intended | confidence | as-written member | corrected member |
|---|---|---|---|---|---|---|
| src/server/handler.rs:80-82 | `same_channel` is `std::ptr::eq(sender1, sender2)`. The `retain` calls at lines 63 and 74 pass a reference into a slot of the registry's vector and a reference to the session's local `tx`. These are always different addresses, so no handle is ever removed. | A single registered session whose reader gets an error: its handle stays registered, and the exit notice is queued to the leaving session itself. | A handle is removed when it is the session's own channel. The exit notice then goes only to the remaining handles, and the final removal is idempotent. | not executed | `Handler.RetainAsWrittenKeepsAll` | `Registry.RemovedOne` |
