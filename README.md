# Relay pending-session handshake and fast-connect dialog logic, in Dafny

This project models two pieces of a remote-access platform.

**The relay's pending session** (`relay::PendingSession`, module `Relay`, file
`pending_session.dfy`). It wraps one connection that the relay has accepted.
`start()` arms a handshake timer and reads a 4-byte big-endian length prefix.
The length must be non-zero and no larger than the receive buffer. Then the
session reads that many body bytes and hands the buffer to the message parser.
It tells its owner (the delegate) "failed" or "ready". `stop()` clears the
delegate pointer, so completions that arrive afterwards do nothing.
`isPeerFor` decides whether two sessions present the same identity.

The model is a class over the session's own fields: delegate set or not, timer
armed or not, socket, declared length, key id and secret. Each asio completion
is a method a caller invokes: `OnLengthRead`, `OnBodyRead` and `OnTimeout`. Each
read completion says whether the read transferred data, was aborted or failed.
The delegate calls go into the ghost log `calls`. The ghost `stage` records
which read is in flight, and `parsedInput` records the bytes the parser was
given. The class invariant `Valid()` gives the forms the log can take: empty,
one call, or "ready" followed by "failed". Every method keeps it, whatever order
the completions arrive in. Each method's contract gives its new fields as a
function of the old ones; `Stopped` gives the effect of `stop()`.

Two behaviours of the code are kept as they are:
- The body is parsed over the whole buffer (`buffer_.size()` bytes), not over the
  declared length. `OnMessage` hands `buffer[..]` to the parser, and its length is
  the capacity.
- Becoming ready does not cancel the handshake timer. So a session that is ready
  but not yet matched still gets "failed" when the timer fires. The method
  `ReadyThenTimeout` walks through that run, which ends with the log
  `[SessionReady(m), SessionFailed]`. So "ready" and "failed" do not exclude each
  other.

**The fast-connect dialog's decision logic** (`console::FastConnectDialog`,
module `Console`, file `fast_connect_dialog.dfy`). It covers:
- deciding whether the entered text is a host ID (all digits, and the empty text counts) or an address;
- refusing an ID when no router is configured;
- turning down an address that does not parse;
- the most-recently-used address list and the history saved from it, capped at 15 entries;
- which session types enable the session-config button;
- the default session type used when the stored state is read;
- clearing the history.

The address combo box is modelled as its item list (`addressItems`). The pure
parts are functions: `MruList`, `HistoryOf`, `ConfigButtonEnabled` and
`DefaultSessionType`. The dialog class's methods are proved against them.

Helper modules: `Optional` (an `Option` datatype) and `Endian` (`byte`, `uint32`,
and the big-endian encoding of the length prefix with its round-trip lemmas).

## Model

| member | source | states |
|---|---|---|
| Endian.FromBigEndian32 | source/relay/pending_session.cc:108 | the declared length reads the prefix most significant byte first: its top byte is the first byte and its low byte the last |
| Endian.DecodeEncode | source/relay/pending_session.cc:97-108 | decoding the 4-byte big-endian encoding of any uint32 gives it back |
| Endian.EncodeDecode | source/relay/pending_session.cc:97-108 | every 4-byte prefix is the encoding of the length it decodes to |
| Endian.DecodeInjective | source/relay/pending_session.cc:108 | two prefixes declare the same length iff they are the same bytes |
| Relay.Stopped | source/relay/pending_session.cc:60-71 | the first stop clears the delegate, stops the timer and closes the socket; with the delegate already cleared nothing changes; identity and declared length are never touched |
| Relay.StopIdempotent | source/relay/pending_session.cc:60-71 | stopping twice has the same effect as stopping once |
| Relay.LogDeliversAtMostOnce | source/relay/pending_session.cc:133-157 | in every log the class invariant allows, "failed" and "ready" each occur at most once, "failed" is the last call, and "ready" never follows "failed" |
| Relay.PendingSession.constructor | source/relay/pending_session.cc:36-44 | a new session holds the given socket and delegate, an empty secret and no armed timer |
| Relay.PendingSession.Start | source/relay/pending_session.cc:51-58 | start arms the timer and issues the length read, changing nothing else |
| Relay.PendingSession.Stop | source/relay/pending_session.cc:60-71 | the new fields are Stopped of the old ones and the delegate log is unchanged |
| Relay.PendingSession.SetIdentify | source/relay/pending_session.cc:73-77 | exactly the key id and the secret are overwritten |
| Relay.PendingSession.IsPeerFor | source/relay/pending_session.cc:79-85 | true iff both sessions present the same identity (key id and secret) and that secret is not empty |
| Relay.PeerForSymmetric | source/relay/pending_session.cc:79-85 | isPeerFor is symmetric |
| Relay.EmptySecretNeverPeer | source/relay/pending_session.cc:81-82 | if either secret is empty, isPeerFor is false in both directions, even when both are empty |
| Relay.PendingSession.TakeSocket | source/relay/pending_session.cc:87-90 | returns the session's socket and leaves the session without an open socket; nothing else changes |
| Relay.PendingSession.OnErrorOccurred | source/relay/pending_session.cc:133-142 | "failed" is appended to the log iff the delegate was set, then the fields are Stopped |
| Relay.PendingSession.OnTimeout | source/relay/pending_session.cc:55-56 | the one-shot timer firing is the error path, also after the session became ready |
| Relay.PendingSession.OnLengthRead | source/relay/pending_session.cc:97-116 | an aborted read changes no field and calls nothing; another error is the error path; a decoded length of 0 or above the capacity is the error path and no body read is issued; otherwise only the declared length changes and the body read is issued |
| Relay.PendingSession.OnBodyRead | source/relay/pending_session.cc:117-129 | an aborted read changes nothing; another error is the error path; a complete read puts the body at the front of the buffer and goes on to onMessage |
| Relay.PendingSession.OnMessage | source/relay/pending_session.cc:144-157 | the parser is given the whole buffer (capacity bytes); a failed parse is the error path; a successful one delivers "ready" with the parsed message iff the delegate is set and changes no field |
| Console.ScanHostId | source/console/fast_connect_dialog.cc:171-180 | the text counts as a host ID iff every character is a digit, so the empty text counts |
| Console.SessionTypeAt | source/console/fast_connect_dialog.cc:108-109 | the data of a session-type item is 0 exactly when the index has no item; findData on an item's data finds that item again |
| Console.IndexOf | source/console/fast_connect_dialog.cc:225-227 | findText gives -1 iff the text is not in the list, and otherwise the index of its first occurrence |
| Console.MruList | source/console/fast_connect_dialog.cc:225-230 | the entry comes first, and the list grows by one only when the entry was not in it |
| Console.HistoryOf | source/console/fast_connect_dialog.cc:232-234 | the history is the front of the list, at most 15 items long, the whole list when that is short enough and exactly 15 items otherwise |
| Console.MruListShape | source/console/fast_connect_dialog.cc:225-230 | a new entry is added in front of the unchanged list; otherwise its first occurrence is removed and all other items keep their relative order |
| Console.MruListElements | source/console/fast_connect_dialog.cc:225-230 | the list keeps every earlier entry (as a multiset) and gains the entry only when it was new |
| Console.MruKeepsNoDuplicates | source/console/fast_connect_dialog.cc:225-230 | a list without duplicates stays without duplicates |
| Console.MruIdempotent | source/console/fast_connect_dialog.cc:225-230 | entering the same text twice in a row gives the list the first entry gave |
| Console.SavedHistory | source/console/fast_connect_dialog.cc:232-234 | the saved history is the front of the list, holds 1 to 15 entries, starts with the entry, and is the whole list when that has at most 15 items |
| Console.SessionConfigTarget | source/console/fast_connect_dialog.cc:124-158 | the button has a configuration dialog for every session type of the combo box except file transfer, and the desktop-manage configuration exactly for desktop manage |
| Console.SessionWindowFor | source/console/fast_connect_dialog.cc:238-261 | a window is created exactly for the session types of the combo box, and the file manager exactly for file transfer |
| Console.ConfigButtonEnabled | source/console/fast_connect_dialog.cc:111-121 | the config button is enabled exactly for the session types the button has a configuration dialog for (desktop manage and desktop view) |
| Console.ConfigButtonMatchesWindow | source/console/fast_connect_dialog.cc:111-121 | the button is enabled iff the session opens a desktop window, and it edits the configuration that window is given |
| Console.EverySessionTypeItemOpensWindow | source/console/fast_connect_dialog.cc:238-261 | every item of the session-type combo box leads to a session window; only a missing item reaches the NOTREACHED default |
| Console.DefaultSessionType | source/console/fast_connect_dialog.cc:289-292 | a stored session type of 0 becomes desktop manage, any other value is kept, and the result is never 0 |
| Console.FastConnectDialog.constructor | source/console/fast_connect_dialog.cc:47-71 | after readState the address list is the stored history and the session type its default; a session type with an item is selected and sets the config button |
| Console.FastConnectDialog.SessionTypeChanged | source/console/fast_connect_dialog.cc:106-122 | the selected item becomes the combo box's current index (which a later click reads), the session type becomes that item's data, and the config button is enabled iff that type has a configuration dialog |
| Console.FastConnectDialog.WriteState | source/console/fast_connect_dialog.cc:315-333 | the saved state is the current history and session type |
| Console.FastConnectDialog.ClearHistory | source/console/fast_connect_dialog.cc:73-87 | a confirmed clear leaves the address list, the history and the saved history empty; otherwise nothing changes |
| Console.FastConnectDialog.RememberAddress | source/console/fast_connect_dialog.cc:225-234 | the address list becomes MruList of the old one and the history its first min(count, 15) items |
| Console.FastConnectDialog.OnButtonBoxClicked | source/console/fast_connect_dialog.cc:160-234 | the click is rejected iff it is Cancel; an ID without a router and an address that does not parse are refused before the list or history is touched; every other click connects, and exactly then the list and history are updated and the connection uses the ID, or the parsed host and port, with the selected session type and its window |

## Left out

- Real I/O in asio is not modelled: async_read, socket cancel and close, the acceptor. Read completions are inputs. After a cancel, a completion that is still in flight may report any outcome.
- The 30-second handshake timeout (`kTimeout`) is not modelled, because the model has no clock. The timer is a flag. `OnTimeout` is the one-shot expiry of an armed timer, and stopping the timer means it can no longer fire.
- The protobuf parse (`ParseFromArray`) is foreign code. It is a function parameter of `OnBodyRead` and `OnMessage`, and a parsed `PeerToRelay` keeps only the key id and the secret.
- The header `relay/pending_session.h` is not part of this model. Its initial field values are taken as: key id 0, empty secret, declared length 0, and a buffer whose capacity is fixed when the session is created. The initial contents of the buffer are unspecified.
- Relay.PendingSession.OnLengthRead, Relay.PendingSession.OnBodyRead: a read that is aborted or fails keeps the old declared length and buffer contents. In the source, `async_read` writes each chunk into `buffer_size_` or `buffer_` as it arrives, so a partial transfer before the error has already overwritten part of them. Nothing reads them after such a read, so no delegate call depends on it.
- The delegate's `onPendingSessionFailed` and `onPendingSessionReady` are recorded in the log and are assumed not to call back into the session. The owner, which receives the session and could remove, stop it or take its socket from inside the callback, is not part of this model. `OnErrorOccurred` relies on this when it applies `stop()` after the callback.
- Relay.PendingSession.Start: requires a session that has not been started. A second `start()` would issue a second concurrent read on the same socket, which asio does not allow.
- The session manager (`source/relay/session_manager.h`) is not modelled. The header only declares it: the pending and active registries, matching, the idle sweep and the shared pool have no bodies in the shown code. `source/relay/sessions_worker.cc` is thread plumbing and is not modelled either.
- Console.ScanHostId: treats only the ASCII digits 0-9 as digits. `QChar::isDigit` also accepts every other Unicode decimal digit.
- `base::Address::fromString` is foreign code. It is the function parameter `parseAddress`, which returns None for an invalid address.
- The Qt parts of the dialog are left out: widgets, focus, message boxes, and `reject`/`accept`/`close`. `sessionConfigButtonPressed` is reduced to the configuration it would edit. The desktop configuration dialog is not modelled.
- The session windows are not created, and `connectToHost` is not called. The outcome of a click names the window that would be created and the configuration it would connect with.
- The QDataStream (de)serialisation in `readState` and `writeState` is left out. The stored state is a value holding the history and the session type; the desktop configurations are left out. A stream that holds no session type reads it as 0, which `DefaultSessionType` turns into desktop manage.
- The numeric values of `proto::SessionType` come from a protocol definition that is not part of this model. The proofs use only that the values are distinct and that UNKNOWN is 0.
- Logging is left out throughout.
